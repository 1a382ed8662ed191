/** What is written, byte by byte: fields and pointers (lib/MaxMind/DB/Writer/Serializer.pm:86-287, 385-573), the search
    tree (c/tree.c:1862-2035), and the frozen file (c/tree.c:1404-1562). */
module WireFormat {
  import opened Wrappers
  import opened Data
  import opened Address
  import opened Ranges
  import opened RangeUpdates
  import opened FieldCodec
  import opened DataSection
  import opened DataSectionLaws
  import opened Trie
  import opened Numbering
  import opened FileLookup
  import opened FrozenTree
  import opened FrozenFile
  import opened Freezing

  lemma BigEndian(n: nat)
    ensures IntToBytes(n, 2) == [n / 0x100 % 256, n % 256]
    ensures IntToBytes(n, 3) == [n / 0x1_0000 % 256, n / 0x100 % 256, n % 256]
    ensures IntToBytes(n, 4) == [n / 0x100_0000 % 256, n / 0x1_0000 % 256, n / 0x100 % 256, n % 256]
  {
    assert IntToBytes(n / 256 / 256 / 256 / 256, 0) == [];
    assert n / 256 / 256 == n / 0x1_0000 && n / 256 / 256 / 256 == n / 0x100_0000;
    assert IntToBytes(n / 256 / 256 / 256, 1) == [n / 0x100_0000 % 256];
    assert IntToBytes(n / 256 / 256, 2) == [n / 0x100_0000 % 256, n / 0x1_0000 % 256];
    assert IntToBytes(n / 256 / 256, 1) == [n / 0x1_0000 % 256];
    assert IntToBytes(n / 256, 2) == [n / 0x1_0000 % 256, n / 0x100 % 256];
    assert IntToBytes(n / 256, 3) == [n / 0x100_0000 % 256, n / 0x1_0000 % 256, n / 0x100 % 256];
    assert IntToBytes(n / 256, 1) == [n / 0x100 % 256];
  }

  /** A size below 29 is in the low bits of the control byte; 29, 30 and 31 there mean one, two or three bytes more. */
  lemma SizeIsWritten(size: nat)
    requires size < 16843037
    ensures SizeBits(size)
         == if size < 29 then (size, [])
            else if size <= 285 then (29, [(size - 29) % 256])
            else if size <= 65821 then (30, [(size - 285) / 256 % 256, (size - 285) % 256])
            else (31, [(size - 65821) / 65536 % 256, (size - 65821) / 256 % 256, (size - 65821) % 256])
  {
    hide IntToBytes;
    if size > 285 { BigEndian(size - 285); }
    if size > 65821 { BigEndian(size - 65821); }
  }

  lemma SmallControl(t: nat, size: nat)
    requires IsType(t) && size < 29
    ensures ControlBytes(t, size) == Some(if t < 8 then [32 * t + size] else [size, t - 7])
  {
    if t < 8 {
      assert [(32 * t + size) as Byte] + [] == [32 * t + size];
    } else {
      assert [size as Byte] + [(t - 7) as Byte] + [] == [size, t - 7];
    }
  }

  /** Strings and byte strings. */
  lemma StringsAreWritten(b: Bytes, isObject: bool)
    ensures |b| >= 16843037 ==> EncodeScalar(Text(b), isObject).None? && EncodeScalar(Blob(b), isObject).None?
    ensures |b| < 16843037 ==>
      var (low, more) := SizeBits(|b|);
      && low < 32
      && EncodeScalar(Text(b), isObject) == Some([64 + low] + more + b)
      && EncodeScalar(Blob(b), isObject) == Some([128 + low] + more + b)
  {
    hide SizeBits;
    if |b| < 16843037 { SizeBitsRead(|b|); }
  }

  /** Floating point numbers, and booleans, which are all size. */
  lemma FloatsAreWritten(payload: Bytes, truth: bool, isObject: bool)
    ensures EncodeScalar(Double(payload), isObject) == Some([104] + payload)
    ensures EncodeScalar(Float(payload), isObject) == Some([4, 8] + payload)
    ensures EncodeScalar(Boolean(truth), isObject) == Some([if truth then 1 else 0, 7])
  {
    hide ControlBytes;
    SmallControl(3, 8);
    SmallControl(15, 4);
    SmallControl(14, if truth then 1 else 0);
    assert [if truth then 1 else 0, 7] + [] == [if truth then 1 else 0, 7];
  }

  /** Integers without their leading zero bytes. A number of 16 or 32 bits must fit... */
  lemma ShortIsWritten(n: nat, isObject: bool)
    ensures var b := StripZeros(IntToBytes(n, 4));
      && |b| <= 4
      && EncodeScalar(Unsigned(16, n), isObject) == (if n < 65536 then Some([160 + |b|] + b) else None)
      && EncodeScalar(Unsigned(32, n), isObject) == (if n < 0x1_0000_0000 then Some([192 + |b|] + b) else None)
  {
    hide IntToBytes, StripZeros, ControlBytes, Pow2;
    BytePowers();
    var b := StripZeros(IntToBytes(n, 4));
    SmallControl(5, |b|);
    SmallControl(6, |b|);
  }

  /** ...one of 64 or 128 bits is checked only when it is an object, and then not to the last bit. */
  lemma LongIsWritten(n: nat, isObject: bool)
    ensures var b := StripZeros(IntToBytes(n, 16));
      && |b| <= 16
      && EncodeScalar(Unsigned(64, n), isObject)
         == (if isObject && n >= 0x2_0000_0000_0000_0000 then None else Some([|b|, 2] + b))
      && EncodeScalar(Unsigned(128, n), isObject)
         == (if isObject && n >= 0x1_0000_0000_0000_0000_0000_0000_0000_0000 then None else Some([|b|, 3] + b))
  {
    hide IntToBytes, StripZeros, ControlBytes, Pow2, Encodable;
    var b := StripZeros(IntToBytes(n, 16));
    LongEncodable(n, isObject);
    SmallControl(9, |b|);
    SmallControl(10, |b|);
  }

  lemma LongEncodable(n: nat, isObject: bool)
    ensures Encodable(64, n, isObject) <==> !(isObject && n >= 0x2_0000_0000_0000_0000)
    ensures Encodable(128, n, isObject) <==> !(isObject && n >= 0x1_0000_0000_0000_0000_0000_0000_0000_0000)
  {
    hide Pow2;
    BytePowers();
    EightTimes(32); EightTimes(40); EightTimes(48); EightTimes(56);
    EightTimes(64); EightTimes(72); EightTimes(80); EightTimes(88);
    EightTimes(96); EightTimes(104); EightTimes(112); EightTimes(120);
    QuotientAtMostOne(n, Pow2(64));
  }

  lemma SignedIsWritten(i: int, isObject: bool)
    ensures var b := StripZeros(IntToBytes(i % 0x1_0000_0000, 4));
      |b| <= 4 && EncodeScalar(Int32(i), isObject) == Some([|b|, 1] + b)
  {
    hide IntToBytes, StripZeros, ControlBytes;
    SmallControl(8, |StripZeros(IntToBytes(i % 0x1_0000_0000, 4))|);
  }

  /** Storing a scalar that no remembered key stands for appends its bytes, or dies where it has none. */
  lemma ScalarIsStored(cfg: Settings, st: State, f: Field)
    requires !IsContainer(f) && cfg.key(f) !in st.cache
    ensures var bytes, stored := EncodeScalar(f, cfg.isObject(f)), Store(cfg, st, f);
      && (bytes.Some? ==>
            stored.state.buffer == st.buffer + bytes.value && stored.position == Some(|st.buffer|))
      && (bytes.None? ==> stored == Stored(st, None))
  {
    hide EncodeScalar, ShouldCache;
  }

  /** An input: "abcd", stored first, is the byte 0x44 and its four letters. */
  lemma AbcdIsStored(cfg: Settings)
    ensures Store(cfg, State([], map[]), Text([97, 98, 99, 100])).state.buffer == [0x44, 97, 98, 99, 100]
  {
    hide EncodeScalar, Store;
    var b: Bytes := [97, 98, 99, 100];
    SizeIsWritten(4);
    StringsAreWritten(b, cfg.isObject(Text(b)));
    ScalarIsStored(cfg, State([], map[]), Text(b));
    assert [0x44] + [] + b == [0x44, 97, 98, 99, 100];
  }

  // ---------- Containers ----------

  /** A hash or an array begins with the number of its members, and with nothing else before them. */
  lemma ContainersBegin(cfg: Settings, st: State, ms: seq<Member>, items: seq<Field>)
    requires |ms| < 16843037 && |items| < 16843037
    ensures var (low, more) := SizeBits(|ms|);
      low < 32 && st.buffer + [224 + low] + more <= Encode(cfg, st, Hash(ms)).state.buffer
    ensures var (low, more) := SizeBits(|items|);
      low < 32 && st.buffer + [low, 4] + more <= Encode(cfg, st, List(items)).state.buffer
  {
    hide SizeBits, StoreChildren;
    SizeBitsRead(|ms|);
    SizeBitsRead(|items|);
    ContainerBegins(cfg, st, Hash(ms));
    ContainerBegins(cfg, st, List(items));
    var (low, more) := SizeBits(|ms|);
    assert st.buffer + ([224 + low] + more) == st.buffer + [224 + low] + more;
    var (low', more') := SizeBits(|items|);
    assert st.buffer + ([low'] + [4] + more') == st.buffer + [low', 4] + more';
  }

  lemma ContainerBegins(cfg: Settings, st: State, f: Field)
    requires IsContainer(f) && SizeOf(f) < 16843037
    ensures st.buffer + ControlBytes(TypeOf(f), SizeOf(f)).value <= Encode(cfg, st, f).state.buffer
  {
    hide ControlBytes, StoreChildren, TypeOf;
    ChildrenAreShallower(f);
    ChildrenGrow(cfg, Append(st, ControlBytes(TypeOf(f), SizeOf(f))).state, f, 0);
  }

  /** A hash of one short key and one short string: the key comes first. */
  lemma SmallHash(cfg: Settings, st: State, k: Bytes, v: Bytes)
    requires |k| < 4 && |v| < 4
    ensures Encode(cfg, st, Hash([Member(k, Text(v))]))
         == Stored(State(st.buffer + [225, 64 + |k|] + k + [64 + |v|] + v, st.cache), Some(|st.buffer|))
  {
    hide ControlBytes, SizeBits;
    var f := Hash([Member(k, Text(v))]);
    SmallControl(7, 1);
    ShortText(cfg, k);
    ShortText(cfg, v);
    ChildrenAreShallower(f);
    assert Children(f) == [Text(k), Text(v)];
    var head := State(st.buffer + [225], st.cache);
    var key := State(head.buffer + ([64 + |k|] + k), st.cache);
    var all := State(key.buffer + ([64 + |v|] + v), st.cache);
    assert Append(st, ControlBytes(7, 1)) == Stored(head, Some(|st.buffer|));
    assert StoreChildren(cfg, all, f, 2) == Stored(all, Some(|all.buffer|));
    assert StoreChildren(cfg, key, f, 1) == Stored(all, Some(|all.buffer|));
    assert StoreChildren(cfg, head, f, 0) == Stored(all, Some(|all.buffer|));
    assert all.buffer == st.buffer + [225, 64 + |k|] + k + [64 + |v|] + v;
  }

  /** An array of two short strings: they come in order. */
  lemma SmallArray(cfg: Settings, st: State, x: Bytes, y: Bytes)
    requires |x| < 4 && |y| < 4
    ensures Encode(cfg, st, List([Text(x), Text(y)]))
         == Stored(State(st.buffer + [2, 4, 64 + |x|] + x + [64 + |y|] + y, st.cache), Some(|st.buffer|))
  {
    hide ControlBytes, SizeBits;
    var f := List([Text(x), Text(y)]);
    SmallControl(11, 2);
    ShortText(cfg, x);
    ShortText(cfg, y);
    ChildrenAreShallower(f);
    var head := State(st.buffer + [2, 4], st.cache);
    var first := State(head.buffer + ([64 + |x|] + x), st.cache);
    var all := State(first.buffer + ([64 + |y|] + y), st.cache);
    assert Append(st, ControlBytes(11, 2)) == Stored(head, Some(|st.buffer|));
    assert StoreChildren(cfg, all, f, 2) == Stored(all, Some(|all.buffer|));
    assert StoreChildren(cfg, first, f, 1) == Stored(all, Some(|all.buffer|));
    assert StoreChildren(cfg, head, f, 0) == Stored(all, Some(|all.buffer|));
    assert all.buffer == st.buffer + [2, 4, 64 + |x|] + x + [64 + |y|] + y;
  }

  /** An array inside an array dies, unless deduplication finds it. */
  lemma ArrayInArrayDies(cfg: Settings, st: State, items: seq<Field>, rest: seq<Field>)
    requires !cfg.deduplicate || cfg.key(List(items)) !in st.cache
    ensures Encode(cfg, st, List([List(items)] + rest)).position.None?
  {
    hide ControlBytes, Store, ShouldCache;
    var f := List([List(items)] + rest);
    ChildrenAreShallower(f);
    assert Children(f)[0] == List(items);
    var head := Append(st, ControlBytes(ARRAY, |f.items|));
    assert StoreUntyped(cfg, head.state, List(items)).position.None? by { NotCached(cfg, List(items)); }
  }

  lemma NotCached(cfg: Settings, f: Field)
    ensures !cfg.deduplicate ==> !ShouldCache(cfg, f)
  {
  }

  lemma ShortText(cfg: Settings, b: Bytes)
    requires |b| < 4
    ensures forall st :: Store(cfg, st, Text(b)) == Append(st, Some([64 + |b|] + b))
  {
    SizeIsWritten(|b|);
    StringsAreWritten(b, cfg.isObject(Text(b)));
    assert [64 + |b|] + [] + b == [64 + |b|] + b;
  }

  // ---------- Deduplication ----------

  /** Storing a field again writes a pointer to the first copy exactly when deduplication is on and the field is a hash,
      an array, a string of four bytes or more, a number of 64 or 128 bits with 16 digits or more, or some other number
      whose text has four bytes or more. Integers of 16 and 32 bits are written again. */
  lemma StoredTwice(cfg: Settings, st: State, f: Field)
    requires cfg.key(f) !in st.cache && Store(cfg, st, f).position.Some?
    ensures var once := Store(cfg, st, f);
      && once == Stored(State(Encode(cfg, st, f).state.buffer, once.state.cache), Some(|st.buffer|))
      && Store(cfg, once.state, f)
         == if cfg.deduplicate
               && (f.Hash? || f.List? || (f.Text? && |f.bytes| >= 4) || (f.Blob? && |f.bytes| >= 4)
                   || (f.Unsigned? && (f.bits == 64 || f.bits == 128) && f.n >= 1_000_000_000_000_000)
                   || ((f.Double? || f.Float? || f.Boolean?) && cfg.longText(f)))
            then Append(once.state, PointerBytes(|st.buffer|))
            else Encode(cfg, once.state, f)
  {
    hide StoreChildren, ControlBytes, EncodeScalar, PointerBytes;
  }

  /** A pointer has two bits for the number of bytes that follow, and three bits of its value in the first byte unless
      four bytes follow. What shorter pointers can say is subtracted from longer ones. */
  lemma PointerIsWritten(v: nat)
    ensures PointerBytes(v)
         == if v < 2048 then Some([32 + v / 256, v % 256])
            else if v < 526336 then
              var u := v - 2048; Some([40 + u / 65536, u / 256 % 256, u % 256])
            else if v < 134744064 then
              var u := v - 526336; Some([48 + u / 16777216, u / 65536 % 256, u / 256 % 256, u % 256])
            else if v < 4294967296 then
              Some([56, v / 16777216 % 256, v / 65536 % 256, v / 256 % 256, v % 256])
            else None
  {
    hide PointerBytes;
    if v < 2048 {
      Pointer1(v);
    } else if v < 526336 {
      Pointer2(v - 2048);
    } else if v < 134744064 {
      Pointer3(v - 526336);
    } else if v < 4294967296 {
      Pointer4(v);
    } else {
      assert PointerBytes(v).None?;
    }
  }

  lemma Pointer1(v: nat)
    requires v < 2048
    ensures PointerBytes(v) == Some([32 + v / 256, v % 256])
  {
    hide IntToBytes;
    BigEndian(v);
    assert PointerBytes(v).value == [32 + v / 256, v % 256];
  }

  lemma Pointer2(u: nat)
    requires u < 524288
    ensures PointerBytes(u + 2048) == Some([40 + u / 65536, u / 256 % 256, u % 256])
  {
    hide IntToBytes;
    BigEndian(u);
    assert u / 65536 < 8;
    var packed := IntToBytes(u, 3);
    assert packed[1..] == [u / 256 % 256, u % 256];
    assert PointerBytes(u + 2048).value == [40 + u / 65536, u / 256 % 256, u % 256];
  }

  lemma Pointer3(u: nat)
    requires u < 134217728
    ensures PointerBytes(u + 526336) == Some([48 + u / 16777216, u / 65536 % 256, u / 256 % 256, u % 256])
  {
    hide IntToBytes;
    BigEndian(u);
    assert u / 16777216 < 8;
    var packed := IntToBytes(u, 4);
    assert packed[1..] == [u / 65536 % 256, u / 256 % 256, u % 256];
    assert PointerBytes(u + 526336).value == [48 + u / 16777216, u / 65536 % 256, u / 256 % 256, u % 256];
  }

  lemma Pointer4(v: nat)
    requires 134744064 <= v < 4294967296
    ensures PointerBytes(v) == Some([56, v / 16777216 % 256, v / 65536 % 256, v / 256 % 256, v % 256])
  {
    hide IntToBytes;
    BigEndian(v);
    assert PointerBytes(v).value == [56, v / 16777216 % 256, v / 65536 % 256, v / 256 % 256, v % 256];
  }

  // ---------- The search tree ----------

  /** The largest value of a record. */
  lemma RecordLimits()
    ensures MaxRecordValue(24) == 16777215 && MaxRecordValue(28) == 268435455 && MaxRecordValue(32) == 4294967295
  {
    hide Pow2;
    BytePowers();
    Pow2TwentyEight();
  }

  /** The two records of a node, most significant byte first. With 28 bits the middle byte has the top four bits of the
      left record and then those of the right one. */
  lemma RowIsWritten(l: nat, r: nat)
    ensures l <= 16777215 && r <= 16777215 ==>
      EncodeRow((l, r), 24) == [l / 65536, l / 256 % 256, l % 256, r / 65536, r / 256 % 256, r % 256]
    ensures l <= 268435455 && r <= 268435455 ==>
      EncodeRow((l, r), 28)
      == [l / 65536 % 256, l / 256 % 256, l % 256, l / 16777216 * 16 + r / 16777216,
          r / 65536 % 256, r / 256 % 256, r % 256]
    ensures l <= 4294967295 && r <= 4294967295 ==>
      EncodeRow((l, r), 32)
      == [l / 16777216, l / 65536 % 256, l / 256 % 256, l % 256,
          r / 16777216, r / 65536 % 256, r / 256 % 256, r % 256]
  {
    hide NetByte, IntToBytes;
    NetBytes(l);
    NetBytes(r);
    if l <= 268435455 && r <= 268435455 { MiddleByte(l, r); }
    assert IntToBytes(l, 4) == [NetByte(l, 0), NetByte(l, 1), NetByte(l, 2), NetByte(l, 3)];
    assert IntToBytes(r, 4) == [NetByte(r, 0), NetByte(r, 1), NetByte(r, 2), NetByte(r, 3)];
  }

  lemma NetBytes(n: nat)
    ensures n <= 4294967295 ==> NetByte(n, 0) as nat == n / 16777216
    ensures NetByte(n, 1) as nat == n / 65536 % 256
    ensures n <= 16777215 ==> NetByte(n, 1) as nat == n / 65536
    ensures NetByte(n, 2) as nat == n / 256 % 256 && NetByte(n, 3) as nat == n % 256
    ensures IntToBytes(n, 4) == [NetByte(n, 0), NetByte(n, 1), NetByte(n, 2), NetByte(n, 3)]
  {
    hide IntToBytes;
    BigEndian(n);
  }

  lemma MiddleByte(l: nat, r: nat)
    requires l <= 268435455 && r <= 268435455
    ensures l / 16777216 < 16 && r / 16777216 < 16
    ensures (l / 16777216 * 16 + r / 16777216 % 16) % 256 == l / 16777216 * 16 + r / 16777216
  {
  }

  /** A file is the row of each node at its number, 16 zero bytes, the data section, and what follows it. */
  lemma FileIsWritten(t: Tree, L: Layout, size: nat, buffer: Bytes, rest: Bytes, q: Path)
    requires IsRecordSize(size) && OnNode(t, q)
    ensures var file, row, i := FileOf(Rows(t, 0, L), size, buffer, rest),
                if size == 24 then 6 else if size == 28 then 7 else 8, IndexAt(t, q, 0);
      && |file| >= Count(t) * row + 16 && (i + 1) * row <= Count(t) * row
      && file[i * row..(i + 1) * row] == EncodeRow(Rows(t, 0, L)[i], size)
      && file[Count(t) * row..Count(t) * row + 16] == [0, 0, 0, 0, 0, 0, 0, 0, 0, 0, 0, 0, 0, 0, 0, 0]
      && file[Count(t) * row + 16..] == buffer + rest
  {
    hide Rows, EncodeRow, EncodeRows, Count, IndexAt;
    FileParts(Rows(t, 0, L), size, buffer, rest, IndexAt(t, q, 0));
  }

  lemma FileParts(rows: seq<Row>, size: nat, buffer: Bytes, rest: Bytes, i: nat)
    requires IsRecordSize(size) && i < |rows|
    ensures var file, n := FileOf(rows, size, buffer, rest), RowLength(size);
      && (i + 1) * n <= |rows| * n && |file| >= |rows| * n + 16
      && file[i * n..(i + 1) * n] == EncodeRow(rows[i], size)
      && file[|rows| * n..|rows| * n + 16] == [0, 0, 0, 0, 0, 0, 0, 0, 0, 0, 0, 0, 0, 0, 0, 0]
      && file[|rows| * n + 16..] == buffer + rest
  {
    hide EncodeRow, EncodeRows, RowLength;
    var gap: Bytes := seq(16, _ => 0);
    var head := EncodeRows(rows, size);
    assert gap == [0, 0, 0, 0, 0, 0, 0, 0, 0, 0, 0, 0, 0, 0, 0, 0];
    RowInBytes(rows, size, gap + buffer + rest, i);
    SixteenBehind(head, gap, buffer, rest);
    assert FileOf(rows, size, buffer, rest) == head + (gap + buffer + rest);
  }

  lemma SixteenBehind(head: Bytes, gap: Bytes, buffer: Bytes, rest: Bytes)
    requires |gap| == 16
    ensures var file := head + gap + buffer + rest;
      && file == head + (gap + buffer + rest)
      && file[|head|..|head| + 16] == gap && file[|head| + 16..] == buffer + rest
  {
  }

  // ---------- The frozen file ----------

  lemma {:induction false} LittleEndianAt(n: nat, length: nat, i: nat)
    requires i < length
    ensures LittleEndian(n, length)[i] == n / Pow2(8 * i) % 256
  {
    hide Pow2;
    if i == 0 {
      BytePowers();
      DivModUnique(n, 1, n, 0);
    } else {
      LittleEndianAt(n / 256, length - 1, i - 1);
      EightTimes(8 * (i - 1));
      DivideTwice(n, Pow2(8 * (i - 1)));
    }
  }

  lemma DivideTwice(n: nat, d: nat)
    requires d > 0
    ensures n / 256 / d == n / (256 * d)
  {
    var q, r := n / 256 / d, n / 256 % d;
    assert n == 256 * (q * d + r) + n % 256;
    assert 256 * (q * d) == q * (256 * d);
    DivModUnique(n, 256 * d, q, 256 * r + n % 256);
  }

  /** A frozen file is the length of the parameters in four bytes, the parameters, the networks, 17 zero bytes and 15
      bytes that are no key, the length of the data in eight bytes, and the data. */
  lemma FrozenFileIsWritten(params: Symbols, fs: seq<FrozenNetwork>, encoded: Symbols)
    ensures var n, m := |params|, |encoded|;
      FileBytes(params, StreamBytes(fs), encoded)
      == [n % 256, n / 256 % 256, n / 65536 % 256, n / 16777216 % 256] + params + StreamBytes(fs)
         + ([0, 0, 0, 0, 0, 0, 0, 0, 0, 0, 0, 0, 0, 0, 0, 0, 0]
            + seq(15, i requires 0 <= i < 15 => "not an SHA1 key"[i] as int))
         + (seq(8, i requires 0 <= i < 8 => m / Pow2(8 * i) % 256) + encoded)
  {
    hide Pow2, LittleEndian, StreamBytes, EndMark;
    FourLittle(|params|);
    EightLittle(|encoded|);
    MarkIsWritten();
  }

  lemma FourLittle(n: nat)
    ensures LittleEndian(n, 4) == [n % 256, n / 256 % 256, n / 65536 % 256, n / 16777216 % 256]
  {
    hide Pow2, LittleEndian;
    BytePowers();
    LittleEndianAt(n, 4, 0); LittleEndianAt(n, 4, 1); LittleEndianAt(n, 4, 2); LittleEndianAt(n, 4, 3);
  }

  lemma EightLittle(n: nat)
    ensures LittleEndian(n, 8) == seq(8, i requires 0 <= i < 8 => n / Pow2(8 * i) % 256)
  {
    hide Pow2, LittleEndian;
    forall i | 0 <= i < 8 ensures LittleEndian(n, 8)[i] == n / Pow2(8 * i) % 256 {
      LittleEndianAt(n, 8, i);
    }
  }

  lemma MarkIsWritten()
    ensures EndMark() == [0, 0, 0, 0, 0, 0, 0, 0, 0, 0, 0, 0, 0, 0, 0, 0, 0]
         + seq(15, i requires 0 <= i < 15 => "not an SHA1 key"[i] as int)
  {
    var zeros: Symbols := seq(17, _ => 0);
    assert zeros == [0, 0, 0, 0, 0, 0, 0, 0, 0, 0, 0, 0, 0, 0, 0, 0, 0];
    var text: Symbols := seq(15, i requires 0 <= i < 15 => "not an SHA1 key"[i] as int);
    assert text == FREEZE_SEPARATOR;
  }

  /** A frozen network is its first address in 16 bytes, least significant first, one byte for its depth, and its
      key. */
  lemma NetworkIsWritten(f: FrozenNetwork, i: nat)
    requires i < 16
    ensures |FrozenBytes(f)| == 17 + |f.key|
    ensures FrozenBytes(f)[i] == f.network / Pow2(8 * i) % 256
    ensures FrozenBytes(f)[16] == f.depth % 256 && FrozenBytes(f)[17..] == f.key
  {
    hide Pow2, LittleEndian;
    LittleEndianAt(f.network, 16, i);
  }
}
