/** Control bytes, pointers and integers of the data section (lib/MaxMind/DB/Writer/Serializer.pm:218-287, 385-398,
    437-573). */
module FieldCodec {
  import opened Wrappers
  import opened Data
  import opened Address
  import opened Ranges
  import opened RangeUpdates

  // ---------- Control bytes ----------

  const POINTER_TYPE := 1
  const TEXT := 2
  const DOUBLE := 3
  const BLOB := 4
  const UINT16 := 5
  const UINT32 := 6
  const MAP := 7
  const INT32 := 8
  const UINT64 := 9
  const UINT128 := 10
  const ARRAY := 11
  const BOOLEAN := 14
  const FLOAT := 15

  const THRESHOLD1 := 29
  const THRESHOLD2 := 285
  const THRESHOLD3 := 65821
  const THRESHOLD4 := 16843037

  predicate IsType(t: nat) { 1 <= t <= 15 }

  /** The low five bits of the first byte, and what follows; pack wraps a leftover that is too big for its bytes. */
  function SizeBits(size: nat): (Byte, Bytes)
    requires size < THRESHOLD4
  {
    if size < THRESHOLD1 then (size, [])
    else if size <= THRESHOLD2 then (29, [(size - THRESHOLD1) % 256])
    else if size <= THRESHOLD3 then (30, IntToBytes(size - THRESHOLD2, 2))
    else (31, IntToBytes(size - THRESHOLD3, 3))
  }

  /** _control_bytes: None where it dies. */
  function ControlBytes(t: nat, size: nat): (r: Option<Bytes>)
    requires IsType(t)
    ensures r.None? <==> size >= THRESHOLD4
    ensures r.Some? ==> 1 <= |r.value| <= 5
  {
    if size >= THRESHOLD4 then None
    else
      var (low, rest) := SizeBits(size);
      if t < 8 then Some([(32 * t + low) as Byte] + rest)
      else Some([low] + [(t - 7) as Byte] + rest)
  }

  datatype Control = Control(fieldType: nat, size: nat, next: nat)

  function SizeBytes(low: nat): nat {
    if low == 29 then 1 else if low == 30 then 2 else if low == 31 then 3 else 0
  }

  /** The Data Field Format of the MaxMind DB specification, for every type but the pointer. */
  function DecodeControl(b: Bytes, pos: nat): (r: Option<Control>)
    ensures r.Some? ==> pos < r.value.next <= |b|
  {
    if pos >= |b| then None
    else
      var low := b[pos] % 32;
      var extended := b[pos] / 32 == 0;
      if extended && pos + 1 >= |b| then None
      else
        var t := if extended then 7 + b[pos + 1] as nat else b[pos] as nat / 32;
        var p := if extended then pos + 2 else pos + 1;
        var n := SizeBytes(low);
        if p + n > |b| then None
        else
          var more := BytesToInt(b[p..p + n]);
          var size := if low < 29 then low else if low == 29 then THRESHOLD1 + more
                      else if low == 30 then THRESHOLD2 + more else THRESHOLD3 + more;
          Some(Control(t, size, p + n))
  }

  /** The two sizes whose leftover needs one bit more than its bytes have. */
  predicate WrapsSize(size: nat) { size == THRESHOLD2 || size == THRESHOLD3 }

  /** What a reader takes for the size. */
  function SizeRead(size: nat): nat {
    if size == THRESHOLD2 then THRESHOLD1 else if size == THRESHOLD3 then THRESHOLD2 else size
  }

  lemma SmallInts()
    ensures forall b: Byte :: BytesToInt([b]) == b
    ensures forall a: Byte, b: Byte :: BytesToInt([a, b]) == 256 * a + b
    ensures forall a: Byte, b: Byte, c: Byte :: BytesToInt([a, b, c]) == 65536 * a + 256 * b + c
    ensures forall a: Byte, b: Byte, c: Byte, d: Byte ::
      BytesToInt([a, b, c, d]) == 16777216 * a + 65536 * b + 256 * c + d
  {
    forall b: Byte ensures BytesToInt([b]) == b {
      assert [b][..0] == [];
    }
    forall a: Byte, b: Byte ensures BytesToInt([a, b]) == 256 * a + b {
      assert [a, b][..1] == [a];
    }
    forall a: Byte, b: Byte, c: Byte ensures BytesToInt([a, b, c]) == 65536 * a + 256 * b + c {
      assert [a, b, c][..2] == [a, b];
    }
    forall a: Byte, b: Byte, c: Byte, d: Byte
      ensures BytesToInt([a, b, c, d]) == 16777216 * a + 65536 * b + 256 * c + d
    {
      assert [a, b, c, d][..3] == [a, b, c];
    }
  }

  lemma BytePowers()
    ensures Pow2(0) == 1 && Pow2(8) == 0x100 && Pow2(16) == 0x1_0000 && Pow2(24) == 0x100_0000
    ensures Pow2(32) == UINT32_LIMIT
  {
    hide Pow2;
    Pow2Step(0);
    EightTimes(0);
    EightTimes(8);
    EightTimes(16);
    EightTimes(24);
  }

  /** Bytes hold a number modulo 256 to their count. */
  lemma {:induction false} IntOfBytes(n: nat, length: nat)
    ensures BytesToInt(IntToBytes(n, length)) == n % Pow2(8 * length)
    decreases length
  {
    hide Pow2;
    if length > 0 {
      var b := IntToBytes(n, length);
      IntOfBytes(n / 256, length - 1);
      EightTimes(8 * (length - 1));
      assert b[..length - 1] == IntToBytes(n / 256, length - 1);
      ModBytes(n, Pow2(8 * (length - 1)));
      assert 8 * (length - 1) + 8 == 8 * length;
    } else {
      BytePowers();
    }
  }

  lemma ModBytes(n: nat, p: nat)
    requires p > 0
    ensures n % (256 * p) == 256 * (n / 256 % p) + n % 256
  {
    var q, r := n / 256 / p, n / 256 % p;
    assert n / 256 == q * p + r;
    assert n == 256 * (q * p + r) + n % 256;
    assert 256 * (q * p) == q * (256 * p);
    DivModUnique(n, 256 * p, q, 256 * r + n % 256);
  }

  lemma SizeBitsRead(size: nat)
    requires size < THRESHOLD4
    ensures var (low, rest) := SizeBits(size);
      && low < 32 && |rest| == SizeBytes(low)
      && SizeRead(size) == if low < 29 then low else if low == 29 then THRESHOLD1 + BytesToInt(rest)
                           else if low == 30 then THRESHOLD2 + BytesToInt(rest) else THRESHOLD3 + BytesToInt(rest)
  {
    hide IntToBytes, BytesToInt, Pow2;
    SmallInts();
    BytePowers();
    if THRESHOLD2 < size <= THRESHOLD3 {
      IntOfBytes(size - THRESHOLD2, 2);
    } else if size > THRESHOLD3 {
      IntOfBytes(size - THRESHOLD3, 3);
    }
  }

  /** Read back, control bytes give the type and the size, except that the two wrapping sizes come back smaller. */
  lemma ControlReads(t: nat, size: nat, before: Bytes, after: Bytes)
    requires IsType(t) && size < THRESHOLD4
    ensures var c := ControlBytes(t, size).value;
      DecodeControl(before + c + after, |before|) == Some(Control(t, SizeRead(size), |before + c|))
  {
    hide IntToBytes, BytesToInt, SizeBits;
    SizeBitsRead(size);
    var c := ControlBytes(t, size).value;
    var b := before + c + after;
    var (low, rest) := SizeBits(size);
    var p := if t < 8 then |before| + 1 else |before| + 2;
    assert b[|before|] == c[0];
    if t >= 8 { assert b[|before| + 1] == c[1]; }
    assert b[p..p + |rest|] == rest;
  }

  /** The round trip holds for a legal size exactly when it is neither 285 nor 65821. */
  lemma ControlRoundTripIff(t: nat, size: nat, before: Bytes, after: Bytes)
    requires IsType(t) && size < THRESHOLD4
    ensures var c := ControlBytes(t, size).value;
      DecodeControl(before + c + after, |before|) == Some(Control(t, size, |before + c|)) <==> !WrapsSize(size)
  {
    ControlReads(t, size, before, after);
  }

  // ---------- Pointers ----------

  const POINTER_OFFSET2 := 2048
  const POINTER_OFFSET3 := 526336
  const POINTER_LIMIT3 := 134744064
  const UINT32_LIMIT := 0x1_0000_0000

  /** How many bytes follow the control byte. */
  function PointerCount(v: nat): nat {
    if v < POINTER_OFFSET2 then 1 else if v < POINTER_OFFSET3 then 2 else if v < POINTER_LIMIT3 then 3 else 4
  }

  function PointerOffset(count: nat): nat {
    if count == 2 then POINTER_OFFSET2 else if count == 3 then POINTER_OFFSET3 else 0
  }

  /** _encode_pointer: None where it dies. Up to three bytes, the topmost packed byte goes into the control byte. */
  function PointerBytes(v: nat): (r: Option<Bytes>)
    ensures r.Some? <==> v < UINT32_LIMIT
    ensures r.Some? ==> |r.value| == PointerCount(v) + 1
  {
    if v >= UINT32_LIMIT then None
    else
      var count := PointerCount(v);
      if count == 4 then Some([(32 + 24) as Byte] + IntToBytes(v, 4))
      else
        var packed := IntToBytes(v - PointerOffset(count), count + 1);
        Some([(32 + 8 * (count - 1) + packed[0]) as nat % 256] + packed[1..])
  }

  predicate IsPointerAt(b: Bytes, pos: nat) { pos < |b| && b[pos] / 32 == POINTER_TYPE }

  /** The pointer format of the specification: two bits say how many bytes follow. */
  function DecodePointer(b: Bytes, pos: nat): (r: Option<(nat, nat)>)
    requires IsPointerAt(b, pos)
    ensures r.Some? ==> pos < r.value.1 <= |b|
  {
    var count := b[pos] / 8 % 4 + 1;
    var high := b[pos] % 8;
    if pos + 1 + count > |b| then None
    else
      var more := BytesToInt(b[pos + 1..pos + 1 + count]);
      var v := if count == 4 then more else Pow2(8 * count) * high + more + PointerOffset(count);
      Some((v, pos + 1 + count))
  }

  lemma PointerParts(k: nat, high: nat)
    requires k < 4 && high < 8
    ensures var c := 32 + 8 * k + high; c / 32 == 1 && c / 8 % 4 == k && c % 8 == high && c < 256
  {
  }

  /** The first byte of a big-endian number. */
  lemma {:induction false} HeadByte(b: Bytes)
    requires b != []
    ensures BytesToInt(b) == b[0] as nat * Pow2(8 * (|b| - 1)) + BytesToInt(b[1..])
    decreases |b|
  {
    hide Pow2;
    var n := |b| - 1;
    if n > 0 {
      HeadByte(b[..n]);
      EightTimes(8 * (n - 1));
      assert b[1..][..n - 1] == b[..n][1..];
      assert b[1..] != [] && b[1..][|b[1..]| - 1] == b[n];
      ScaleUp(b[0] as nat, Pow2(8 * (n - 1)));
      assert 8 * (n - 1) + 8 == 8 * n;
    } else {
      BytePowers();
      assert b[..0] == [];
      assert b[1..] == [];
    }
  }

  lemma ScaleUp(h: nat, p: nat)
    ensures 256 * (h * p) == h * (256 * p)
  {
  }

  lemma PackedPointer(n: nat, count: nat)
    requires 1 <= count <= 3 && n < 8 * Pow2(8 * count)
    ensures var packed := IntToBytes(n, count + 1);
      packed[0] < 8 && n == Pow2(8 * count) * packed[0] as nat + BytesToInt(packed[1..])
  {
    hide Pow2, IntToBytes, BytesToInt;
    var packed := IntToBytes(n, count + 1);
    EightTimes(8 * count);
    assert 8 * count + 8 == 8 * (count + 1);
    IntOfBytes(n, count + 1);
    DivModUnique(n, Pow2(8 * (count + 1)), 0, n);
    HeadByte(packed);
    MulMonotone(8, packed[0] as nat, Pow2(8 * count));
  }

  /** The parts of a written pointer: its kind, its count, and the bytes that follow. */
  lemma PointerSplit(v: nat)
    requires v < UINT32_LIMIT
    ensures var p, count := PointerBytes(v).value, PointerCount(v);
      && |p| == count + 1 && p[0] / 32 == POINTER_TYPE && p[0] / 8 % 4 + 1 == count
      && v == if count == 4 then BytesToInt(p[1..])
              else Pow2(8 * count) * (p[0] % 8) + BytesToInt(p[1..]) + PointerOffset(count)
  {
    hide BytesToInt, IntToBytes, Pow2;
    var p, count := PointerBytes(v).value, PointerCount(v);
    BytePowers();
    if count == 4 {
      IntOfBytes(v, 4);
      DivModUnique(v, Pow2(32), 0, v);
      assert p[1..] == IntToBytes(v, 4);
    } else {
      ShortPointer(v);
    }
  }

  lemma ShortPointer(v: nat)
    requires PointerCount(v) < 4
    ensures var p, count := PointerBytes(v).value, PointerCount(v);
      && |p| == count + 1 && p[0] / 32 == POINTER_TYPE && p[0] / 8 % 4 + 1 == count
      && v == Pow2(8 * count) * (p[0] % 8) + BytesToInt(p[1..]) + PointerOffset(count)
  {
    hide BytesToInt, IntToBytes, Pow2;
    var count := PointerCount(v);
    var packed := IntToBytes(v - PointerOffset(count), count + 1);
    BytePowers();
    PackedPointer(v - PointerOffset(count), count);
    PointerParts(count - 1, packed[0] as nat);
    assert PointerBytes(v).value[1..] == packed[1..];
  }

  /** Every pointer that can be written reads back. */
  lemma PointerRoundTrip(v: nat, before: Bytes, after: Bytes)
    requires v < UINT32_LIMIT
    ensures var p := PointerBytes(v).value; var b := before + p + after;
      IsPointerAt(b, |before|) && DecodePointer(b, |before|) == Some((v, |before + p|))
  {
    hide BytesToInt, PointerBytes, Pow2, PointerCount, PointerOffset;
    PointerSplit(v);
    var p, count := PointerBytes(v).value, PointerCount(v);
    var b := before + p + after;
    assert b[|before|] == p[0];
    assert b[|before| + 1..|before| + 1 + count] == p[1..];
  }

  // ---------- Integers ----------

  /** s/^\x00+// */
  function StripZeros(b: Bytes): (r: Bytes)
    ensures |r| <= |b| && (r != [] ==> r[0] != 0)
    ensures BytesToInt(r) == BytesToInt(b)
  {
    if b != [] && b[0] == 0 then
      LeadingZero(b);
      StripZeros(b[1..])
    else b
  }

  lemma {:induction false} LeadingZero(b: Bytes)
    requires b != [] && b[0] == 0
    ensures BytesToInt(b[1..]) == BytesToInt(b)
    decreases |b|
  {
    var n := |b| - 1;
    if n > 0 {
      LeadingZero(b[..n]);
      assert b[1..][..n - 1] == b[..n][1..];
      assert b[1..] != [];
      assert b[1..][|b[1..]| - 1] == b[n];
    } else {
      assert b[..0] == [];
      assert b[1..] == [];
    }
  }

  lemma StripFits(n: nat, length: nat, k: nat)
    requires n < Pow2(8 * k)
    ensures |StripZeros(IntToBytes(n, length))| <= k
  {
    hide Pow2, IntToBytes, BytesToInt;
    var r := StripZeros(IntToBytes(n, length));
    IntOfBytes(n, length);
    ModAtMost(n, Pow2(8 * length));
    if |r| > k {
      LeadingByteCounts(r);
      Pow2Monotone(8 * k, 8 * (|r| - 1));
      assert false;
    }
  }

  lemma ModAtMost(n: nat, p: nat)
    requires p > 0
    ensures n % p <= n
  {
    if n < p { DivModUnique(n, p, 0, n); }
  }

  lemma {:induction false} LeadingByteCounts(b: Bytes)
    requires b != [] && b[0] != 0
    ensures BytesToInt(b) >= Pow2(8 * (|b| - 1))
    decreases |b|
  {
    var n := |b| - 1;
    if n > 0 {
      LeadingByteCounts(b[..n]);
      EightTimes(8 * (n - 1));
    } else {
      assert b[..0] == [];
    }
  }

  /** How many bytes hold an unsigned integer before zeros are stripped: uint128_to_net makes 16. */
  function PackedLength(bits: nat): nat { if bits >= 64 then 16 else 4 }

  /** _require_x_bits_unsigned_integer. From 64 bits on, only a Math::UInt128 object is checked for its size, by a
      division that lets one bit too many through; a string of digits passes whatever its length. */
  predicate Encodable(bits: nat, n: nat, isObject: bool) {
    if bits >= 64 then isObject ==> n < Pow2(128) && (bits == 64 ==> n / Pow2(64) <= 1) else n < Pow2(bits)
  }

  function UnsignedBytes(bits: nat, n: nat): Bytes { StripZeros(IntToBytes(n, PackedLength(bits))) }

  function DecodeUnsigned(bits: nat, b: Bytes): Option<nat> {
    if 8 * |b| <= bits then Some(BytesToInt(b)) else None
  }

  /** An unsigned integer reads back exactly when it fits its type. */
  lemma UnsignedRoundTripIff(bits: nat, n: nat)
    requires bits in {16, 32, 64, 128}
    ensures DecodeUnsigned(bits, UnsignedBytes(bits, n)) == Some(n) <==> n < Pow2(bits)
  {
    hide Pow2, IntToBytes, BytesToInt, StripZeros;
    var length := PackedLength(bits);
    var r := UnsignedBytes(bits, n);
    IntOfBytes(n, length);
    if n < Pow2(bits) {
      Pow2Monotone(bits, 8 * length);
      DivModUnique(n, Pow2(8 * length), 0, n);
      assert 8 * (bits / 8) == bits;
      StripFits(n, length, bits / 8);
    } else if 8 * |r| <= bits {
      BytesOfInt(r);
      Pow2Monotone(8 * |r|, bits);
    }
  }

  /** What is accepted although it does not fit: objects of 65 bits for 64 bit integers, and long strings of digits. */
  lemma AcceptedButTooBig(bits: nat, n: nat, isObject: bool)
    requires bits in {16, 32, 64, 128}
    ensures Encodable(bits, n, isObject) && n >= Pow2(bits) <==>
      || (bits == 64 && Pow2(64) <= n && (isObject ==> n < 2 * Pow2(64)))
      || (bits == 128 && Pow2(128) <= n && !isObject)
  {
    hide Pow2;
    Pow2Step(64);
    Pow2Monotone(65, 128);
    QuotientAtMostOne(n, Pow2(64));
  }

  lemma QuotientAtMostOne(n: nat, d: nat)
    requires d > 0
    ensures n / d <= 1 <==> n < 2 * d
  {
    if n < d {
      DivModUnique(n, d, 0, n);
    } else if n < 2 * d {
      DivModUnique(n, d, 1, n - d);
    } else {
      assert n == n / d * d + n % d;
      if n / d <= 1 { MulMonotone(n / d, 1, d); }
    }
  }

  /** pack 'N!': the low 32 bits, two's complement. */
  function Int32Bytes(n: int): Bytes { StripZeros(IntToBytes(n % UINT32_LIMIT, 4)) }

  /** Shorter than four bytes means positive; in four bytes the first bit is the sign. */
  function DecodeInt32(b: Bytes): Option<int> {
    if |b| > 4 then None
    else if |b| == 4 && b[0] >= 128 then Some(BytesToInt(b) - UINT32_LIMIT)
    else Some(BytesToInt(b))
  }

  predicate IsInt32(n: int) { -0x8000_0000 <= n < 0x8000_0000 }

  /** Nothing is checked, and everything but a 32 bit signed integer comes back as another number. */
  lemma Int32RoundTripIff(n: int)
    ensures DecodeInt32(Int32Bytes(n)) == Some(n) <==> IsInt32(n)
  {
    hide Pow2, IntToBytes, BytesToInt, StripZeros;
    var m: nat := n % UINT32_LIMIT;
    var r := Int32Bytes(n);
    BytePowers();
    IntOfBytes(m, 4);
    DivModUnique(m, UINT32_LIMIT, 0, m);
    StripFits(m, 4, 4);
    BytesOfInt(r);
    if |r| == 4 {
      HeadByte(r);
      BytesOfInt(r[1..]);
    } else {
      Pow2Monotone(8 * |r|, 24);
    }
    SignedMod(n);
  }

  lemma SignedMod(n: int)
    ensures IsInt32(n) ==> n % UINT32_LIMIT == if n < 0 then n + UINT32_LIMIT else n
  {
  }
}
