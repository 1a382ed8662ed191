/** When what is stored reads back, whatever has been deduplicated, and what can be stored at all. */
module DataSectionLaws {
  import opened Wrappers
  import opened Data
  import opened Address
  import opened FieldCodec
  import opened DataSection

  /** What Perl's types guarantee: the four integer widths, and the lengths of packed floating point numbers. */
  predicate WellTyped(f: Field)
    decreases Depth(f)
  {
    match f
    case Unsigned(bits, _) => bits in {16, 32, 64, 128}
    case Double(p) => |p| == 8
    case Float(p) => |p| == 4
    case _ =>
      ChildrenAreShallower(f);
      forall g | g in Children(f) :: WellTyped(g)
  }

  /** No size that wraps, no number that its type cannot hold. */
  predicate InRange(f: Field) {
    match f
    case Text(b) => !WrapsSize(|b|)
    case Blob(b) => !WrapsSize(|b|)
    case Unsigned(bits, n) => n < Pow2(bits)
    case Hash(ms) => !WrapsSize(|ms|)
    case Int32(i) => IsInt32(i)
    case List(items) => !WrapsSize(|items|)
    case _ => true
  }

  /** Does the reader come back with f? */
  predicate Is(r: Option<(Field, nat)>, f: Field) { r.Some? && r.value.0 == f }

  // ---------- Scalars ----------

  lemma NotPointer(t: nat, size: nat, before: Bytes, after: Bytes)
    requires IsType(t) && t != POINTER_TYPE && size < THRESHOLD4
    ensures !IsPointerAt(before + ControlBytes(t, size).value + after, |before|)
  {
    SizeBitsRead(size);
    assert (before + ControlBytes(t, size).value + after)[|before|] == ControlBytes(t, size).value[0];
  }

  /** What the reader takes for the payload of a scalar. */
  lemma ScalarIsRead(f: Field, isObject: bool, before: Bytes, after: Bytes, fuel: nat)
    requires !IsContainer(f) && WellTyped(f) && EncodeScalar(f, isObject).Some? && fuel > 0
    ensures WireOf(f, isObject).Some?
    ensures var w := WireOf(f, isObject).value;
      var pos := |before| + |ControlBytes(TypeOf(f), w.size).value|;
      var b, size := before + EncodeScalar(f, isObject).value + after, SizeRead(w.size);
      && |before + EncodeScalar(f, isObject).value| == pos + |w.payload|
      && DecodeDirect(b, |before|, fuel) == DecodeScalar(TypeOf(f), b, pos, size) && !IsPointerAt(b, |before|)
      && (TypeOf(f) != BOOLEAN ==>
        |w.payload| == w.size && pos + size <= |b| && b[pos..pos + size] == w.payload[..size])
  {
    hide ControlBytes, DecodeControl, DecodeScalar, WireOf, EncodeScalar, WellTyped;
    EncodedParts(f, isObject);
    var w := WireOf(f, isObject).value;
    var t := TypeOf(f);
    var c := ControlBytes(t, w.size).value;
    PayloadLength(f, isObject);
    PayloadAt(before, c, w.payload, after, if t == BOOLEAN then 0 else SizeRead(w.size));
    ControlReads(t, w.size, before, w.payload + after);
    NotPointer(t, w.size, before, w.payload + after);
  }

  lemma EncodedParts(f: Field, isObject: bool)
    requires !IsContainer(f) && EncodeScalar(f, isObject).Some?
    ensures WireOf(f, isObject).Some? && ControlBytes(TypeOf(f), WireOf(f, isObject).value.size).Some?
    ensures var w := WireOf(f, isObject).value;
      EncodeScalar(f, isObject).value == ControlBytes(TypeOf(f), w.size).value + w.payload
  {
    hide ControlBytes, WireOf;
  }

  lemma PayloadLength(f: Field, isObject: bool)
    requires !IsContainer(f) && WellTyped(f) && WireOf(f, isObject).Some?
    ensures TypeOf(f) != BOOLEAN ==> |WireOf(f, isObject).value.payload| == WireOf(f, isObject).value.size
  {
  }

  lemma PayloadAt(before: Bytes, c: Bytes, payload: Bytes, after: Bytes, read: nat)
    requires read <= |payload|
    ensures var b, pos := before + (c + payload) + after, |before + c|;
      b == before + c + (payload + after) && b[pos..pos + read] == payload[..read]
  {
  }

  /** A scalar that can be encoded reads back exactly when it is in range, whatever follows it. */
  lemma ScalarRoundTripIff(f: Field, isObject: bool, before: Bytes, after: Bytes, fuel: nat)
    requires !IsContainer(f) && WellTyped(f) && EncodeScalar(f, isObject).Some? && fuel > 0
    ensures var stored := before + EncodeScalar(f, isObject).value;
      var r := DecodeDirect(stored + after, |before|, fuel);
      && (if InRange(f) then r == Some((f, |stored|)) else !Is(r, f))
      && !IsPointerAt(stored + after, |before|)
  {
    hide Pow2, ControlBytes, DecodeControl, DecodeDirect, EncodeScalar, Encodable, Int32Bytes, DecodeInt32,
      UnsignedBytes, DecodeUnsigned;
    ScalarIsRead(f, isObject, before, after, fuel);
    var w := WireOf(f, isObject).value;
    assert w.payload[..|w.payload|] == w.payload;
    match f
    case Unsigned(bits, n) =>
      ShortIntegers(bits, n, 0);
      UnsignedRoundTripIff(bits, n);
    case Int32(i) =>
      ShortIntegers(16, 0, i);
      Int32RoundTripIff(i);
    case _ =>
  }

  lemma ShortIntegers(bits: nat, n: nat, i: int)
    ensures |UnsignedBytes(bits, n)| <= 16 && |Int32Bytes(i)| <= 4
  {
  }

  // ---------- What can be read at a position ----------

  /** What storing never does: shorten the buffer, or move a cached position. */
  ghost predicate Grows(st: State, st': State) {
    && st.buffer <= st'.buffer
    && (forall k | k in st.cache :: k in st'.cache && st'.cache[k] == st.cache[k])
  }

  /** Every number and size is in range, all the way down. */
  predicate Sound(f: Field)
    decreases Depth(f)
  {
    ChildrenAreShallower(f);
    InRange(f) && forall g | g in Children(f) :: Sound(g)
  }

  /** Whatever is written behind it and however deeply the reader may go, the position does not read as f. */
  ghost predicate NeverReads(b: Bytes, pos: nat, f: Field) {
    forall rest: Bytes, fuel: nat :: !Is(Decode(b + rest, pos, fuel), f)
  }

  /** The end of b, from pos on, reads as f when that is well, and never does when it is not. */
  ghost predicate Reads(b: Bytes, pos: nat, f: Field, well: bool) {
    pos < |b| && if well then Decode(b, pos, Depth(f)) == Some((f, |b|)) else NeverReads(b, pos, f)
  }

  ghost predicate ReadsDirect(b: Bytes, pos: nat, f: Field) {
    && !IsPointerAt(b, pos)
    && DecodeDirect(b, pos, Depth(f)).Some? && DecodeDirect(b, pos, Depth(f)).value.0 == f
  }

  /** What a remembered position holds, itself and not through a pointer. */
  ghost predicate Stays(b: Bytes, pos: nat, f: Field, well: bool) {
    pos < |b| && !IsPointerAt(b, pos) && if well then ReadsDirect(b, pos, f) else NeverReads(b, pos, f)
  }

  lemma ReadsDirectGrows(b: Bytes, c: Bytes, pos: nat, f: Field)
    requires ReadsDirect(b, pos, f)
    ensures ReadsDirect(b + c, pos, f)
  {
    DecodeDirectGrows(b, c, pos, Depth(f), Depth(f));
  }

  /** A pointer to a cached position reads as the field that is there. */
  lemma PointerReads(b: Bytes, target: nat, f: Field)
    requires ReadsDirect(b, target, f) && PointerBytes(target).Some?
    ensures var b' := b + PointerBytes(target).value;
      Decode(b', |b|, Depth(f)) == Some((f, |b'|))
  {
    hide DecodePointer, PointerBytes, DecodeDirect;
    var p := PointerBytes(target).value;
    PointerRoundTrip(target, b, []);
    assert b + p + [] == b + p;
    ReadsDirectInside(b, target, f);
    ReadsDirectGrows(b, p, target, f);
  }

  lemma ReadsDirectInside(b: Bytes, pos: nat, f: Field)
    requires ReadsDirect(b, pos, f)
    ensures pos < |b|
  {
  }

  lemma StaysGrows(b: Bytes, c: Bytes, pos: nat, f: Field, well: bool)
    requires Stays(b, pos, f, well)
    ensures Stays(b + c, pos, f, well)
  {
    hide ReadsDirect, Decode;
    if well {
      ReadsDirectGrows(b, c, pos, f);
    } else {
      forall rest: Bytes, fuel: nat ensures !Is(Decode(b + c + rest, pos, fuel), f) {
        assert b + c + rest == b + (c + rest);
      }
    }
  }

  /** What has just been written stays, unless it is a pointer. */
  lemma JustWritten(b: Bytes, pos: nat, f: Field, well: bool)
    requires !IsPointerAt(b, pos) && Reads(b, pos, f, well)
    ensures Stays(b, pos, f, well)
  {
    hide DecodeDirect;
  }

  /** A pointer to what stays reads as that does. */
  lemma PointerTo(b: Bytes, target: nat, f: Field, well: bool)
    requires Stays(b, target, f, well) && PointerBytes(target).Some?
    ensures Reads(b + PointerBytes(target).value, |b|, f, well)
  {
    hide DecodePointer, PointerBytes, DecodeDirect;
    if well {
      PointerReads(b, target, f);
    } else {
      var p := PointerBytes(target).value;
      forall rest: Bytes, fuel: nat ensures !Is(Decode(b + p + rest, |b|, fuel), f) {
        PointerRoundTrip(target, b, rest);
        assert b + p + rest == b + (p + rest);
        assert !Is(Decode(b + (p + rest), target, fuel), f);
      }
    }
  }

  lemma GrowsTransitive(st: State, st': State, st'': State)
    requires Grows(st, st') && Grows(st', st'')
    ensures Grows(st, st'')
  {
  }

  /** Whatever is stored, the buffer only grows and no remembered position moves. */
  lemma {:induction false} StoreGrows(cfg: Settings, st: State, f: Field)
    ensures Grows(st, Store(cfg, st, f).state) && Grows(st, Encode(cfg, st, f).state)
    decreases Depth(f), 1
  {
    hide ShouldCache, EncodeScalar, ControlBytes, PointerBytes;
    if IsContainer(f) {
      var head := Append(st, ControlBytes(TypeOf(f), SizeOf(f)));
      if head.position.Some? {
        ChildrenAreShallower(f);
        ChildrenGrow(cfg, head.state, f, 0);
        GrowsTransitive(st, head.state, StoreChildren(cfg, head.state, f, 0).state);
      }
    }
  }

  lemma {:induction false} ChildrenGrow(cfg: Settings, st: State, f: Field, i: nat)
    requires i <= |Children(f)| && forall g | g in Children(f) :: Depth(g) < Depth(f)
    ensures Grows(st, StoreChildren(cfg, st, f, i).state)
    decreases Depth(f), 0, |Children(f)| - i
  {
    hide Store, Children, PointerBytes, ShouldCache;
    if i < |Children(f)| {
      var g := Children(f)[i];
      assert g in Children(f);
      StoreGrows(cfg, st, g);
      var r := if Untyped(f, g) then StoreUntyped(cfg, st, g) else Store(cfg, st, g);
      if r.position.Some? {
        ChildrenGrow(cfg, r.state, f, i + 1);
        GrowsTransitive(st, r.state, StoreChildren(cfg, r.state, f, i + 1).state);
      }
    }
  }

  // ---------- Writing a field ----------

  lemma ScalarWritten(f: Field, isObject: bool, before: Bytes)
    requires !IsContainer(f) && WellTyped(f) && EncodeScalar(f, isObject).Some?
    ensures var b := before + EncodeScalar(f, isObject).value;
      !IsPointerAt(b, |before|) && Reads(b, |before|, f, InRange(f))
  {
    hide InRange, WellTyped, DecodeDirect;
    var bytes := EncodeScalar(f, isObject).value;
    assert before + bytes + [] == before + bytes;
    ScalarRoundTripIff(f, isObject, before, [], 1);
    forall rest: Bytes, fuel: nat ensures !InRange(f) ==> !Is(Decode(before + bytes + rest, |before|, fuel), f) {
      if fuel > 0 { ScalarRoundTripIff(f, isObject, before, rest, fuel); }
    }
  }

  function SizeOf(f: Field): nat
    requires IsContainer(f)
  {
    if f.Hash? then |f.members| else |f.items|
  }

  lemma ChildCount(f: Field)
    requires IsContainer(f)
    ensures f.Hash? ==> |Children(f)| == 2 * |f.members|
    ensures f.List? ==> Children(f) == f.items
    ensures InRange(f) ==> SizeRead(SizeOf(f)) == SizeOf(f)
  {
  }

  predicate ItemsDiffer(b: Bytes, pos: nat, items: seq<Field>, fuel: nat) {
    var r := DecodeItems(b, pos, |items|, fuel); r.Some? ==> r.value.0 != items
  }

  lemma ChildrenOfPairs(items: seq<Field>)
    requires KeysAreText(items)
    ensures Children(Hash(Pairs(items))) == items
  {
    hide Children, Pairs;
    var ms := Pairs(items);
    PairsAt(items, 0);
    ChildCount(Hash(ms));
    forall j | 0 <= j < |items| ensures Children(Hash(ms))[j] == items[j] {
      PairsAt(items, j / 2);
    }
  }

  lemma PairsAt(items: seq<Field>, i: nat)
    requires KeysAreText(items)
    ensures 2 * |Pairs(items)| == |items|
    ensures i < |Pairs(items)| ==>
      var h := Hash(Pairs(items));
      |Children(h)| == |items| && Children(h)[2 * i] == items[2 * i] && Children(h)[2 * i + 1] == items[2 * i + 1]
  {
    hide Children, Depth;
    if i < |Pairs(items)| {
      HashChildren(Hash(Pairs(items)), i);
      TextAt(items, i);
    }
  }

  lemma TextAt(items: seq<Field>, i: nat)
    requires KeysAreText(items) && 2 * i < |items|
    ensures items[2 * i].Text?
  {
  }

  lemma HashChildren(f: Field, i: nat)
    requires f.Hash? && i < |f.members|
    ensures |Children(f)| == 2 * |f.members|
    ensures Children(f)[2 * i] == Text(f.members[i].key) && Children(f)[2 * i + 1] == f.members[i].value
    ensures Depth(Text(f.members[i].key)) < Depth(f) && Depth(f.members[i].value) < Depth(f)
    ensures !Untyped(f, Children(f)[2 * i]) && !Untyped(f, Children(f)[2 * i + 1])
  {
    ChildrenAreShallower(f);
    assert Children(f)[2 * i] in Children(f) && Children(f)[2 * i + 1] in Children(f);
  }

  /** The first item reads back, and a later one does not. */
  lemma LaterItemDiffers(b: Bytes, more: Bytes, pos: nat, items: seq<Field>, fuel: nat)
    requires items != [] && Decode(b, pos, Depth(items[0])) == Some((items[0], |b|))
    requires ItemsDiffer(b + more, |b|, items[1..], fuel)
    ensures ItemsDiffer(b + more, pos, items, fuel)
  {
    hide Decode;
    if Decode(b + more, pos, fuel).Some? {
      var most := Max(fuel, Depth(items[0]));
      DecodeGrows(b, more, pos, Depth(items[0]), most);
      DecodeGrows(b + more, [], pos, fuel, most);
      assert b + more + [] == b + more;
      var r := DecodeItems(b + more, |b|, |items| - 1, fuel);
      if r.Some? { assert ([items[0]] + r.value.0)[1..] == r.value.0; }
    }
  }

  lemma FirstItemDiffers(b: Bytes, pos: nat, items: seq<Field>, fuel: nat)
    requires items != [] && !Is(Decode(b, pos, fuel), items[0])
    ensures ItemsDiffer(b, pos, items, fuel)
  {
    hide Decode;
  }

  /** The items at the end of b, from pos on. */
  ghost predicate ItemsRead(b: Bytes, pos: nat, items: seq<Field>, fuel: nat, well: bool) {
    if well then DecodeItems(b, pos, |items|, fuel) == Some((items, |b|))
    else forall rest: Bytes, fuel': nat :: ItemsDiffer(b + rest, pos, items, fuel')
  }

  /** One item, and then the others. */
  lemma ItemsStep(b: Bytes, more: Bytes, pos: nat, items: seq<Field>, fuel: nat, well: bool, othersWell: bool)
    requires items != [] && Depth(items[0]) <= fuel && Reads(b, pos, items[0], well)
    requires well ==> ItemsRead(b + more, |b|, items[1..], fuel, othersWell)
    ensures ItemsRead(b + more, pos, items, fuel, well && othersWell)
  {
    hide Decode;
    if well && othersWell {
      DecodeGrows(b, more, pos, Depth(items[0]), fuel);
      assert items == [items[0]] + items[1..];
    } else {
      forall rest: Bytes, fuel': nat ensures ItemsDiffer(b + more + rest, pos, items, fuel') {
        assert b + more + rest == b + (more + rest);
        if well {
          LaterItemDiffers(b, more + rest, pos, items, fuel');
        } else {
          FirstItemDiffers(b + (more + rest), pos, items, fuel');
        }
      }
    }
  }

  /** A hash or array of 285 or 65821 members never reads back, whatever its members are and whatever follows it. */
  lemma WrappedContainerIsLost(before: Bytes, f: Field, after: Bytes)
    requires IsContainer(f) && WrapsSize(SizeOf(f)) && ControlBytes(TypeOf(f), SizeOf(f)).Some?
    ensures var b := before + ControlBytes(TypeOf(f), SizeOf(f)).value + after;
      |before| < |b| && !IsPointerAt(b, |before|) && NeverReads(b, |before|, f)
  {
    hide ControlBytes, DecodeControl, Children;
    var c := ControlBytes(TypeOf(f), SizeOf(f)).value;
    NotPointer(TypeOf(f), SizeOf(f), before, after);
    forall rest: Bytes, fuel: nat ensures !Is(Decode(before + c + after + rest, |before|, fuel), f) {
      assert before + c + after + rest == before + c + (after + rest);
      ControlReads(TypeOf(f), SizeOf(f), before, after + rest);
      NotPointer(TypeOf(f), SizeOf(f), before, after + rest);
    }
  }

  /** Any other hash or array reads as its items do. */
  lemma ContainerWritten(before: Bytes, f: Field, after: Bytes, well: bool)
    requires IsContainer(f) && !WrapsSize(SizeOf(f)) && ControlBytes(TypeOf(f), SizeOf(f)).Some?
    requires var c := ControlBytes(TypeOf(f), SizeOf(f)).value;
      ItemsRead(before + c + after, |before + c|, Children(f), Depth(f) - 1, well)
    ensures var b := before + ControlBytes(TypeOf(f), SizeOf(f)).value + after;
      !IsPointerAt(b, |before|) && Reads(b, |before|, f, well)
  {
    hide ControlBytes, DecodeItems, DecodeControl, Children, KeysAreText, Pairs;
    var t, c := TypeOf(f), ControlBytes(TypeOf(f), SizeOf(f)).value;
    var b := before + c + after;
    ContainerRange(f);
    ChildCount(f);
    NotPointer(t, SizeOf(f), before, after);
    if f.Hash? { PairsOfChildren(f.members); }
    if well {
      ControlReads(t, SizeOf(f), before, after);
      assert DecodeDirect(b, |before|, Depth(f)) == Some((f, |b|));
    } else {
      forall rest: Bytes, fuel: nat ensures !Is(Decode(b + rest, |before|, fuel), f) {
        assert b + rest == before + c + (after + rest);
        ControlReads(t, SizeOf(f), before, after + rest);
        NotPointer(t, SizeOf(f), before, after + rest);
        if fuel > 0 {
          assert ItemsDiffer(b + rest, |before + c|, Children(f), fuel - 1);
          var items := DecodeItems(b + rest, |before + c|, |Children(f)|, fuel - 1);
          if f.Hash? && items.Some? && KeysAreText(items.value.0) { ChildrenOfPairs(items.value.0); }
        }
      }
    }
  }

  lemma ContainerRange(f: Field)
    requires IsContainer(f)
    ensures InRange(f) <==> !WrapsSize(SizeOf(f))
  {
  }

  /** An array without a type for its items is stored only by a pointer. */
  lemma UntypedIsHit(cfg: Settings, st: State, f: Field)
    requires StoreUntyped(cfg, st, f).position.Some?
    ensures Store(cfg, st, f) == StoreUntyped(cfg, st, f)
  {
  }

  lemma ChildrenTyped(f: Field)
    requires WellTyped(f)
    ensures forall g | g in Children(f) :: WellTyped(g)
  {
  }

  // ---------- Fields of which no two share a key ----------

  /** The fields that a serializer is given: closed under children, and no two different ones that may be cached share a
      key. */
  ghost predicate Universe(cfg: Settings, U: iset<Field>) {
    && (forall f, g | f in U && g in Children(f) :: g in U)
    && (forall f, g | f in U && g in U && ShouldCache(cfg, f) && ShouldCache(cfg, g) && cfg.key(f) == cfg.key(g) ::
      f == g)
    && (forall f | f in U :: WellTyped(f))
  }

  /** Every cached position holds, itself and not through a pointer, the field that it was cached for, or never reads as
      it because a number or a size in it is out of range. */
  ghost predicate Coherent(cfg: Settings, st: State, U: iset<Field>) {
    forall f | f in U && ShouldCache(cfg, f) && cfg.key(f) in st.cache ::
      Stays(st.buffer, st.cache[cfg.key(f)], f, Sound(f))
  }

  lemma CoherentGrows(cfg: Settings, st: State, c: Bytes, U: iset<Field>)
    requires Coherent(cfg, st, U)
    ensures Coherent(cfg, st.(buffer := st.buffer + c), U)
  {
    hide Stays, ShouldCache, Sound;
    forall f | f in U && ShouldCache(cfg, f) && cfg.key(f) in st.cache
      ensures Stays(st.buffer + c, st.cache[cfg.key(f)], f, Sound(f))
    {
      StaysGrows(st.buffer, c, st.cache[cfg.key(f)], f, Sound(f));
    }
  }

  /** What storing a field establishes. */
  ghost predicate StoredWell(cfg: Settings, st: State, r: Stored, f: Field, U: iset<Field>) {
    && Coherent(cfg, r.state, U) && Grows(st, r.state)
    && (r.position.Some? ==>
          r.position.value == |st.buffer| && Reads(r.state.buffer, |st.buffer|, f, Sound(f)))
  }

  /** Deduplication is invisible: the position that store_data returns reads as the field that was stored, exactly when
      that is in range, and so does every position that is remembered, now and later. */
  lemma {:induction false} StoreReads(cfg: Settings, st: State, f: Field, U: iset<Field>)
    requires Universe(cfg, U) && f in U && Coherent(cfg, st, U)
    ensures StoredWell(cfg, st, Store(cfg, st, f), f, U)
    decreases Depth(f), 1
  {
    hide ShouldCache, Encode, Stays, Reads, Universe, Sound, PointerBytes;
    if ShouldCache(cfg, f) && cfg.key(f) in st.cache {
      var target := st.cache[cfg.key(f)];
      if PointerBytes(target).Some? {
        CoherentGrows(cfg, st, PointerBytes(target).value, U);
        PointerTo(st.buffer, target, f, Sound(f));
      }
    } else {
      EncodeReads(cfg, st, f, U);
      var r := Encode(cfg, st, f);
      if ShouldCache(cfg, f) && r.position.Some? {
        Remembered(cfg, r.state, r.position.value, f, U);
      }
    }
  }

  lemma Remembered(cfg: Settings, st: State, pos: nat, f: Field, U: iset<Field>)
    requires Universe(cfg, U) && f in U && ShouldCache(cfg, f) && Coherent(cfg, st, U)
    requires Stays(st.buffer, pos, f, Sound(f))
    ensures Coherent(cfg, st.(cache := st.cache[cfg.key(f) := pos]), U)
  {
    hide Stays, ShouldCache, Sound;
  }

  lemma {:induction false} EncodeReads(cfg: Settings, st: State, f: Field, U: iset<Field>)
    requires Universe(cfg, U) && f in U && Coherent(cfg, st, U)
    ensures StoredWell(cfg, st, Encode(cfg, st, f), f, U)
    ensures var r := Encode(cfg, st, f); r.position.Some? ==> Stays(r.state.buffer, |st.buffer|, f, Sound(f))
    decreases Depth(f), 0
  {
    hide Stays, Reads, EncodeScalar, ControlBytes, StoreChildren, WellTyped, Sound, InRange;
    var r := Encode(cfg, st, f);
    if IsContainer(f) {
      ContainerReads(cfg, st, f, U);
    } else if r.position.Some? {
      ScalarWritten(f, cfg.isObject(f), st.buffer);
      ScalarSound(f);
      CoherentGrows(cfg, st, EncodeScalar(f, cfg.isObject(f)).value, U);
      JustWritten(r.state.buffer, |st.buffer|, f, Sound(f));
    }
  }

  lemma ScalarSound(f: Field)
    requires !IsContainer(f)
    ensures Sound(f) == InRange(f)
  {
  }

  predicate SoundFrom(f: Field, i: nat) { forall j | i <= j < |Children(f)| :: Sound(Children(f)[j]) }

  lemma ContainerSound(f: Field)
    requires IsContainer(f)
    ensures Sound(f) == (!WrapsSize(SizeOf(f)) && SoundFrom(f, 0))
  {
    ContainerRange(f);
    SoundParts(f);
  }

  /** Also where storing dies half way. */
  lemma {:induction false} ContainerReads(cfg: Settings, st: State, f: Field, U: iset<Field>)
    requires Universe(cfg, U) && f in U && Coherent(cfg, st, U) && IsContainer(f)
    ensures StoredWell(cfg, st, Encode(cfg, st, f), f, U)
    ensures var r := Encode(cfg, st, f); r.position.Some? ==> Stays(r.state.buffer, |st.buffer|, f, Sound(f))
    decreases Depth(f), 0, 1
  {
    hide ControlBytes, StoreChildren, Children, Coherent, Stays, Reads, Sound, ItemsRead, SoundFrom, WrapsSize;
    var control := ControlBytes(TypeOf(f), SizeOf(f));
    var r := Encode(cfg, st, f);
    if control.Some? {
      var c := control.value;
      var head := Append(st, control).state;
      CoherentGrows(cfg, st, c, U);
      ChildrenAreShallower(f);
      ChildrenRead(cfg, head, f, 0, U);
      if r.position.Some? {
        var after := r.state.buffer[|head.buffer|..];
        assert r.state.buffer == st.buffer + c + after;
        assert Children(f)[0..] == Children(f);
        ContainerSound(f);
        if WrapsSize(SizeOf(f)) {
          WrappedContainerIsLost(st.buffer, f, after);
          NotWell(r.state.buffer, |st.buffer|, f);
        } else {
          ContainerWritten(st.buffer, f, after, Sound(f));
        }
        JustWritten(r.state.buffer, |st.buffer|, f, Sound(f));
      }
    }
  }

  lemma NotWell(b: Bytes, pos: nat, f: Field)
    requires pos < |b| && NeverReads(b, pos, f)
    ensures Reads(b, pos, f, false)
  {
  }

  lemma {:induction false} ChildrenRead(cfg: Settings, st: State, f: Field, i: nat, U: iset<Field>)
    requires Universe(cfg, U) && f in U && Coherent(cfg, st, U)
    requires i <= |Children(f)| && forall g | g in Children(f) :: Depth(g) < Depth(f)
    ensures var r := StoreChildren(cfg, st, f, i);
      && Coherent(cfg, r.state, U) && Grows(st, r.state)
      && (r.position.Some? ==>
            ItemsRead(r.state.buffer, |st.buffer|, Children(f)[i..], Depth(f) - 1, SoundFrom(f, i)))
    decreases Depth(f), 0, 0, |Children(f)| - i
  {
    hide Store, Children, Coherent, StoreUntyped, Reads, ItemsRead, Sound;
    if i == |Children(f)| {
      NoItems(st.buffer, Depth(f) - 1);
      assert Children(f)[i..] == [];
    } else {
      var g, items := Children(f)[i], Children(f)[i..];
      assert g in Children(f) && g in U;
      assert items[0] == g && items[1..] == Children(f)[i + 1..];
      var r := if Untyped(f, g) then StoreUntyped(cfg, st, g) else Store(cfg, st, g);
      if Untyped(f, g) {
        UntypedReads(cfg, st, g, U);
      } else {
        StoreReads(cfg, st, g, U);
      }
      if r.position.Some? {
        ChildrenRead(cfg, r.state, f, i + 1, U);
        var r' := StoreChildren(cfg, r.state, f, i + 1);
        if r'.position.Some? {
          var more := r'.state.buffer[|r.state.buffer|..];
          assert r'.state.buffer == r.state.buffer + more;
          ItemsStep(r.state.buffer, more, |st.buffer|, items, Depth(f) - 1, Sound(g), SoundFrom(f, i + 1));
        }
      }
    }
  }

  lemma NoItems(b: Bytes, fuel: nat)
    ensures ItemsRead(b, |b|, [], fuel, true)
  {
  }

  lemma UntypedReads(cfg: Settings, st: State, f: Field, U: iset<Field>)
    requires Universe(cfg, U) && f in U && Coherent(cfg, st, U)
    ensures StoredWell(cfg, st, StoreUntyped(cfg, st, f), f, U)
  {
    hide Stays, Reads, Sound, ShouldCache, PointerBytes;
    if ShouldCache(cfg, f) && cfg.key(f) in st.cache && PointerBytes(st.cache[cfg.key(f)]).Some? {
      CoherentGrows(cfg, st, PointerBytes(st.cache[cfg.key(f)]).value, U);
      PointerTo(st.buffer, st.cache[cfg.key(f)], f, Sound(f));
    }
  }

  // ---------- Exactly when a stored field reads back, whatever shares its key ----------

  /** The field that is at the position of each key in the cache. */
  type Memory = map<Key, Field>

  ghost predicate Knows(st: State, mem: Memory) {
    && mem.Keys == st.cache.Keys
    && forall k | k in mem :: ReadsDirect(st.buffer, st.cache[k], mem[k])
  }

  /** What the cache knows after storing f. */
  function After(cfg: Settings, mem: Memory, f: Field): Memory
    decreases Depth(f), 1
  {
    if !ShouldCache(cfg, f) then AfterChildren(cfg, mem, f, 0)
    else if cfg.key(f) in mem then mem
    else AfterChildren(cfg, mem, f, 0)[cfg.key(f) := f]
  }

  function AfterChildren(cfg: Settings, mem: Memory, f: Field, i: nat): Memory
    requires i <= |Children(f)|
    decreases Depth(f), 0, |Children(f)| - i
  {
    ChildrenAreShallower(f);
    if i == |Children(f)| then mem else AfterChildren(cfg, After(cfg, mem, Children(f)[i]), f, i + 1)
  }

  /** No number is too large and no size wraps, all the way down, and every key that is met in the cache was remembered
      for the very field that meets it. */
  predicate Clean(cfg: Settings, mem: Memory, f: Field)
    decreases Depth(f), 1
  {
    if ShouldCache(cfg, f) && cfg.key(f) in mem then mem[cfg.key(f)] == f
    else InRange(f) && CleanFrom(cfg, mem, f, 0)
  }

  predicate CleanFrom(cfg: Settings, mem: Memory, f: Field, i: nat)
    requires i <= |Children(f)|
    decreases Depth(f), 0, |Children(f)| - i
  {
    ChildrenAreShallower(f);
    i == |Children(f)| ||
    (Clean(cfg, mem, Children(f)[i]) && CleanFrom(cfg, After(cfg, mem, Children(f)[i]), f, i + 1))
  }

  /** Storing f was clean or not. */
  ghost predicate Outcome(st: State, r: Stored, f: Field, clean: bool, mem: Memory) {
    && r.position == Some(|st.buffer|) && Reads(r.state.buffer, |st.buffer|, f, clean)
    && (clean ==> Knows(r.state, mem))
  }

  lemma KnowsGrows(st: State, c: Bytes, mem: Memory)
    requires Knows(st, mem)
    ensures Knows(st.(buffer := st.buffer + c), mem)
  {
    hide ReadsDirect;
    forall k | k in mem ensures ReadsDirect(st.buffer + c, st.cache[k], mem[k]) {
      ReadsDirectGrows(st.buffer, c, st.cache[k], mem[k]);
    }
  }

  /** A pointer to a known field never reads as another one. */
  lemma PointerReadsOnly(b: Bytes, target: nat, g: Field, rest: Bytes, fuel: nat)
    requires ReadsDirect(b, target, g) && PointerBytes(target).Some?
    ensures var r := Decode(b + PointerBytes(target).value + rest, |b|, fuel); r.Some? ==> r.value.0 == g
  {
    hide DecodePointer, PointerBytes, DecodeDirect;
    var p := PointerBytes(target).value;
    PointerRoundTrip(target, b, rest);
    ReadsDirectInside(b, target, g);
    assert b + p + rest == b + (p + rest);
    if fuel > 0 && DecodeDirect(b + (p + rest), target, fuel).Some? {
      SameWithMoreFuel(b, target, Depth(g), p + rest, fuel);
    }
  }

  /** Two readers of different depth never disagree. */
  lemma SameWithMoreFuel(b: Bytes, pos: nat, fuel: nat, rest: Bytes, fuel': nat)
    requires fuel > 0 && fuel' > 0 && DecodeDirect(b, pos, fuel).Some? && DecodeDirect(b + rest, pos, fuel').Some?
    ensures DecodeDirect(b + rest, pos, fuel') == DecodeDirect(b, pos, fuel)
  {
    hide DecodeDirect;
    var most := if fuel < fuel' then fuel' else fuel;
    DecodeDirectGrows(b, rest, pos, fuel, most);
    DecodeDirectGrows(b + rest, [], pos, fuel', most);
    assert b + rest + [] == b + rest;
  }

  /** store_data gives a position that reads as the stored field exactly when storing was clean. */
  lemma {:induction false} StoreReadsIff(cfg: Settings, st: State, f: Field, mem: Memory)
    requires Knows(st, mem) && WellTyped(f) && Store(cfg, st, f).position.Some?
    ensures Outcome(st, Store(cfg, st, f), f, Clean(cfg, mem, f), After(cfg, mem, f))
    decreases Depth(f), 1
  {
    hide ShouldCache, Encode, ReadsDirect, Decode, InRange, CleanFrom, AfterChildren, WellTyped;
    if ShouldCache(cfg, f) && cfg.key(f) in st.cache {
      HitReadsIff(cfg, st, f, mem);
    } else {
      EncodeReadsIff(cfg, st, f, mem);
    }
  }

  lemma HitReadsIff(cfg: Settings, st: State, f: Field, mem: Memory)
    requires Knows(st, mem) && cfg.key(f) in st.cache && PointerBytes(st.cache[cfg.key(f)]).Some?
    ensures Outcome(st, Append(st, PointerBytes(st.cache[cfg.key(f)])), f, mem[cfg.key(f)] == f, mem)
  {
    hide ReadsDirect, Decode, PointerBytes;
    var target, g := st.cache[cfg.key(f)], mem[cfg.key(f)];
    var p := PointerBytes(target).value;
    if g == f {
      KnowsGrows(st, p, mem);
      PointerReads(st.buffer, target, f);
    } else {
      forall rest: Bytes, fuel: nat ensures !Is(Decode(st.buffer + p + rest, |st.buffer|, fuel), f) {
        PointerReadsOnly(st.buffer, target, g, rest, fuel);
      }
    }
  }

  lemma {:induction false} EncodeReadsIff(cfg: Settings, st: State, f: Field, mem: Memory)
    requires Knows(st, mem) && WellTyped(f) && Encode(cfg, st, f).position.Some?
    ensures var r, clean := Encode(cfg, st, f), InRange(f) && CleanFrom(cfg, mem, f, 0);
      && Outcome(st, r, f, clean, AfterChildren(cfg, mem, f, 0))
      && (clean ==> ReadsDirect(r.state.buffer, |st.buffer|, f))
    decreases Depth(f), 0
  {
    hide ReadsDirect, Reads, EncodeScalar, ControlBytes, InRange, Knows, CleanFrom, AfterChildren, WellTyped,
      StoreChildren;
    var r := Encode(cfg, st, f);
    if IsContainer(f) {
      ContainerReadsIff(cfg, st, f, mem);
    } else {
      NoChildren(cfg, f, mem);
      ScalarWritten(f, cfg.isObject(f), st.buffer);
      KnowsGrows(st, EncodeScalar(f, cfg.isObject(f)).value, mem);
      JustWritten(r.state.buffer, |st.buffer|, f, InRange(f));
    }
  }

  lemma NoChildren(cfg: Settings, f: Field, mem: Memory)
    requires !IsContainer(f)
    ensures CleanFrom(cfg, mem, f, 0) && AfterChildren(cfg, mem, f, 0) == mem
  {
  }

  lemma {:induction false} ContainerReadsIff(cfg: Settings, st: State, f: Field, mem: Memory)
    requires Knows(st, mem) && WellTyped(f) && IsContainer(f) && Encode(cfg, st, f).position.Some?
    ensures var r, clean := Encode(cfg, st, f), InRange(f) && CleanFrom(cfg, mem, f, 0);
      && Outcome(st, r, f, clean, AfterChildren(cfg, mem, f, 0))
      && (clean ==> ReadsDirect(r.state.buffer, |st.buffer|, f))
    decreases Depth(f), 0, 1
  {
    hide ControlBytes, StoreChildren, Children, Reads, Knows, CleanFrom, AfterChildren, WellTyped, ItemsRead, WrapsSize,
      InRange, ReadsDirect;
    var c := ControlBytes(TypeOf(f), SizeOf(f)).value;
    var r := Encode(cfg, st, f);
    var head := Append(st, Some(c)).state;
    KnowsGrows(st, c, mem);
    ChildrenAreShallower(f);
    ChildrenTyped(f);
    ChildrenReadIff(cfg, head, f, 0, mem);
    ChildrenGrow(cfg, head, f, 0);
    ContainerRange(f);
    assert Children(f)[0..] == Children(f);
    var after := r.state.buffer[|head.buffer|..];
    assert r.state.buffer == st.buffer + c + after;
    if WrapsSize(SizeOf(f)) {
      WrappedContainerIsLost(st.buffer, f, after);
      NotWell(r.state.buffer, |st.buffer|, f);
    } else {
      ContainerWritten(st.buffer, f, after, CleanFrom(cfg, mem, f, 0));
      JustWritten(r.state.buffer, |st.buffer|, f, CleanFrom(cfg, mem, f, 0));
    }
  }

  lemma {:induction false} ChildrenReadIff(cfg: Settings, st: State, f: Field, i: nat, mem: Memory)
    requires Knows(st, mem) && i <= |Children(f)|
    requires forall g | g in Children(f) :: WellTyped(g) && Depth(g) < Depth(f)
    requires StoreChildren(cfg, st, f, i).position.Some?
    ensures var r, clean := StoreChildren(cfg, st, f, i), CleanFrom(cfg, mem, f, i);
      && ItemsRead(r.state.buffer, |st.buffer|, Children(f)[i..], Depth(f) - 1, clean)
      && (clean ==> Knows(r.state, AfterChildren(cfg, mem, f, i)))
    decreases Depth(f), 0, 0, |Children(f)| - i
  {
    hide Store, Children, StoreUntyped, Reads, WellTyped, Clean, After, Knows, ItemsRead;
    if i == |Children(f)| {
      NoItems(st.buffer, Depth(f) - 1);
      assert Children(f)[i..] == [];
    } else {
      var g, items := Children(f)[i], Children(f)[i..];
      assert g in Children(f);
      assert items[0] == g && items[1..] == Children(f)[i + 1..];
      var r := if Untyped(f, g) then StoreUntyped(cfg, st, g) else Store(cfg, st, g);
      if Untyped(f, g) { UntypedIsHit(cfg, st, g); }
      StoreReadsIff(cfg, st, g, mem);
      ChildrenGrow(cfg, r.state, f, i + 1);
      var r' := StoreChildren(cfg, r.state, f, i + 1);
      var more := r'.state.buffer[|r.state.buffer|..];
      assert r'.state.buffer == r.state.buffer + more;
      var mem' := After(cfg, mem, g);
      if Clean(cfg, mem, g) { ChildrenReadIff(cfg, r.state, f, i + 1, mem'); }
      ItemsStep(r.state.buffer, more, |st.buffer|, items, Depth(f) - 1, Clean(cfg, mem, g),
        CleanFrom(cfg, mem', f, i + 1));
    }
  }

  ghost predicate Agrees(cfg: Settings, mem: Memory, U: iset<Field>) {
    forall f | f in U && ShouldCache(cfg, f) && cfg.key(f) in mem :: mem[cfg.key(f)] == f && Sound(f)
  }

  /** Where no two fields share a key, storing is clean exactly for what is in range. */
  lemma {:induction false} UniverseIsClean(cfg: Settings, mem: Memory, f: Field, U: iset<Field>)
    requires Universe(cfg, U) && f in U && Agrees(cfg, mem, U)
    ensures Clean(cfg, mem, f) <==> Sound(f)
    ensures Sound(f) ==> Agrees(cfg, After(cfg, mem, f), U)
    decreases Depth(f), 1
  {
    hide ShouldCache, InRange, WellTyped, SoundFrom;
    UniverseChildrenClean(cfg, mem, f, 0, U);
    SoundParts(f);
  }

  lemma SoundParts(f: Field)
    ensures Sound(f) == (InRange(f) && SoundFrom(f, 0))
  {
    if SoundFrom(f, 0) {
      forall g | g in Children(f) ensures Sound(g) { var j :| 0 <= j < |Children(f)| && Children(f)[j] == g; }
    }
  }

  lemma {:induction false} UniverseChildrenClean(cfg: Settings, mem: Memory, f: Field, i: nat, U: iset<Field>)
    requires Universe(cfg, U) && f in U && Agrees(cfg, mem, U) && i <= |Children(f)|
    ensures CleanFrom(cfg, mem, f, i) <==> SoundFrom(f, i)
    ensures SoundFrom(f, i) ==> Agrees(cfg, AfterChildren(cfg, mem, f, i), U)
    decreases Depth(f), 0, |Children(f)| - i
  {
    hide InRange, WellTyped, Clean, After, Sound, ShouldCache;
    if i < |Children(f)| {
      ChildrenAreShallower(f);
      var g := Children(f)[i];
      assert g in Children(f);
      UniverseIsClean(cfg, mem, g, U);
      if Sound(g) { UniverseChildrenClean(cfg, After(cfg, mem, g), f, i + 1, U); }
    }
  }

  /** The cache key does not see the type, nor whatever else it leaves out: what meets a remembered key is stored as a
      pointer to the field that the key was remembered for, and reads as that one. */
  lemma KeyIgnoresType(cfg: Settings, st: State, f: Field, mem: Memory)
    requires Knows(st, mem) && ShouldCache(cfg, f) && cfg.key(f) in mem && st.cache[cfg.key(f)] < UINT32_LIMIT
    ensures var r, g := Store(cfg, st, f), mem[cfg.key(f)];
      r.position.Some? && Decode(r.state.buffer, r.position.value, Depth(g)) == Some((g, |r.state.buffer|))
        && Knows(r.state, mem)
  {
    hide ReadsDirect, Decode, PointerBytes, ShouldCache;
    var target := st.cache[cfg.key(f)];
    KnowsGrows(st, PointerBytes(target).value, mem);
    PointerReads(st.buffer, target, mem[cfg.key(f)]);
  }

  /** An input for which storing is not clean: a string, and then the same bytes. */
  lemma BytesReadAsText(cfg: Settings, b: Bytes)
    requires cfg.deduplicate && cfg.key(Text(b)) == cfg.key(Blob(b))
    requires MINIMUM_CACHEABLE_SIZE <= |b| < THRESHOLD4 && !WrapsSize(|b|)
    ensures var first := Store(cfg, State([], map[]), Text(b));
      var second := Store(cfg, first.state, Blob(b));
      && first.position.Some? && second.position.Some?
      && Decode(second.state.buffer, second.position.value, 1) == Some((Text(b), |second.state.buffer|))
      && !Clean(cfg, map[cfg.key(Text(b)) := Text(b)], Blob(b))
  {
    hide Decode, DecodeDirect, EncodeScalar, PointerBytes, WellTyped, ReadsDirect;
    var empty, f := State([], map[]), Text(b);
    var first := Store(cfg, empty, f);
    TextEncodes(b, cfg.isObject(f));
    TextTyped(b);
    assert Encode(cfg, empty, f) == Append(empty, EncodeScalar(f, cfg.isObject(f)));
    var mem: Memory := map[];
    StoreReadsIff(cfg, empty, f, mem);
    NoChildren(cfg, f, mem);
    assert first.state.cache == map[cfg.key(f) := 0];
    PointerFits(0);
    KeyIgnoresType(cfg, first.state, Blob(b), map[cfg.key(f) := f]);
  }

  lemma TextTyped(b: Bytes)
    ensures WellTyped(Text(b))
  {
  }

  lemma TextEncodes(b: Bytes, isObject: bool)
    requires |b| < THRESHOLD4
    ensures EncodeScalar(Text(b), isObject).Some?
  {
  }

  // ---------- What can be stored ----------

  /** Every scalar is encodable, every size has control bytes, and no array holds an array. */
  predicate Storable(cfg: Settings, f: Field)
    decreases Depth(f)
  {
    if !IsContainer(f) then EncodeScalar(f, cfg.isObject(f)).Some?
    else
      ChildrenAreShallower(f);
      SizeOf(f) < THRESHOLD4 && forall g | g in Children(f) :: Storable(cfg, g) && !Untyped(f, g)
  }

  /** Without deduplication, storing dies exactly for what is not storable. */
  lemma {:induction false} StoresExactly(cfg: Settings, st: State, f: Field)
    requires !cfg.deduplicate
    ensures Store(cfg, st, f).position.Some? <==> Storable(cfg, f)
    decreases Depth(f), 1
  {
    hide EncodeScalar, ControlBytes, StoreChildren;
    if IsContainer(f) {
      ChildrenAreShallower(f);
      var c := ControlBytes(TypeOf(f), SizeOf(f));
      if c.Some? {
        ChildrenStoreExactly(cfg, Append(st, c).state, f, 0);
        AllFrom(cfg, f);
      }
    }
  }

  lemma AllFrom(cfg: Settings, f: Field)
    ensures (forall j | 0 <= j < |Children(f)| :: Storable(cfg, Children(f)[j]) && !Untyped(f, Children(f)[j]))
       <==> (forall g | g in Children(f) :: Storable(cfg, g) && !Untyped(f, g))
  {
  }

  lemma {:induction false} ChildrenStoreExactly(cfg: Settings, st: State, f: Field, i: nat)
    requires !cfg.deduplicate && i <= |Children(f)| && forall g | g in Children(f) :: Depth(g) < Depth(f)
    ensures StoreChildren(cfg, st, f, i).position.Some?
       <==> forall j | i <= j < |Children(f)| :: Storable(cfg, Children(f)[j]) && !Untyped(f, Children(f)[j])
    decreases Depth(f), 0, |Children(f)| - i
  {
    hide Store, Storable, Children;
    if i < |Children(f)| {
      var g := Children(f)[i];
      assert g in Children(f);
      if !Untyped(f, g) {
        StoresExactly(cfg, st, g);
        if Store(cfg, st, g).position.Some? {
          ChildrenStoreExactly(cfg, Store(cfg, st, g).state, f, i + 1);
        }
      }
    }
  }

  ghost predicate CachedInside(st: State) { forall k | k in st.cache :: st.cache[k] < |st.buffer| }

  /** With deduplication, what is storable is stored as long as the buffer stays below 2^32. */
  lemma {:induction false} StorableIsStored(cfg: Settings, st: State, f: Field)
    requires Storable(cfg, f) && CachedInside(st) && |Store(cfg, st, f).state.buffer| <= UINT32_LIMIT
    ensures Store(cfg, st, f).position.Some? && CachedInside(Store(cfg, st, f).state)
    decreases Depth(f), 2
  {
    hide EncodeScalar, PointerBytes, StoreChildren, ShouldCache;
    StoreGrows(cfg, st, f);
    if ShouldCache(cfg, f) && cfg.key(f) in st.cache {
      PointerFits(st.cache[cfg.key(f)]);
    } else {
      EncodableIsStored(cfg, st, f);
    }
  }

  lemma PointerFits(v: nat)
    ensures PointerBytes(v).Some? <==> v < UINT32_LIMIT
  {
  }

  lemma {:induction false} EncodableIsStored(cfg: Settings, st: State, f: Field)
    requires Storable(cfg, f) && CachedInside(st) && |Encode(cfg, st, f).state.buffer| <= UINT32_LIMIT
    ensures var r := Encode(cfg, st, f);
      r.position.Some? && CachedInside(r.state) && r.position.value == |st.buffer| < |r.state.buffer|
    decreases Depth(f), 1
  {
    hide ControlBytes, StoreChildren;
    if IsContainer(f) {
      ChildrenAreShallower(f);
      var c := ControlBytes(TypeOf(f), SizeOf(f));
      ControlLength(TypeOf(f), SizeOf(f));
      var head := Append(st, c).state;
      ChildrenGrow(cfg, head, f, 0);
      AllFrom(cfg, f);
      ChildrenAreStored(cfg, head, f, 0);
    } else {
      ControlLength(TypeOf(f), WireOf(f, cfg.isObject(f)).value.size);
    }
  }

  lemma ControlLength(t: nat, size: nat)
    requires IsType(t)
    ensures ControlBytes(t, size).Some? <==> size < THRESHOLD4
    ensures ControlBytes(t, size).Some? ==> |ControlBytes(t, size).value| >= 1
  {
  }

  lemma {:induction false} ChildrenAreStored(cfg: Settings, st: State, f: Field, i: nat)
    requires i <= |Children(f)| && forall g | g in Children(f) :: Depth(g) < Depth(f)
    requires forall j | i <= j < |Children(f)| :: Storable(cfg, Children(f)[j]) && !Untyped(f, Children(f)[j])
    requires CachedInside(st) && |StoreChildren(cfg, st, f, i).state.buffer| <= UINT32_LIMIT
    ensures var r := StoreChildren(cfg, st, f, i); r.position.Some? && CachedInside(r.state)
    decreases Depth(f), 0, |Children(f)| - i
  {
    hide Store, Storable, Children;
    if i < |Children(f)| {
      var g := Children(f)[i];
      assert g in Children(f);
      var r := Store(cfg, st, g);
      if r.position.Some? { ChildrenGrow(cfg, r.state, f, i + 1); }
      StorableIsStored(cfg, st, g);
      ChildrenAreStored(cfg, r.state, f, i + 1);
    }
  }

  // ---------- How much storing writes ----------

  /** No pointer and no control byte takes more. */
  const LONGEST_HEAD := 5

  /** The most that storing f appends, when nothing of it is deduplicated. */
  function Cost(cfg: Settings, f: Field): (n: nat)
    ensures n >= LONGEST_HEAD
    decreases Depth(f), 1
  {
    if IsContainer(f) then LONGEST_HEAD + CostFrom(cfg, f, 0)
    else match EncodeScalar(f, cfg.isObject(f)) case None => LONGEST_HEAD case Some(b) => Max(LONGEST_HEAD, |b|)
  }

  function CostFrom(cfg: Settings, f: Field, i: nat): nat
    requires i <= |Children(f)|
    decreases Depth(f), 0, |Children(f)| - i
  {
    ChildrenAreShallower(f);
    if i == |Children(f)| then 0 else Cost(cfg, Children(f)[i]) + CostFrom(cfg, f, i + 1)
  }

  /** Whether storing dies or not, and whatever is in the cache. */
  lemma {:induction false} StoreCosts(cfg: Settings, st: State, f: Field)
    ensures |Store(cfg, st, f).state.buffer| <= |st.buffer| + Cost(cfg, f)
    decreases Depth(f), 2
  {
    hide Encode, ShouldCache, PointerBytes, Cost;
    EncodeCosts(cfg, st, f);
  }

  lemma {:induction false} EncodeCosts(cfg: Settings, st: State, f: Field)
    ensures |Encode(cfg, st, f).state.buffer| <= |st.buffer| + Cost(cfg, f)
    decreases Depth(f), 1
  {
    hide EncodeScalar, ControlBytes, StoreChildren, CostFrom;
    if IsContainer(f) {
      var head := Append(st, ControlBytes(TypeOf(f), SizeOf(f)));
      ChildrenAreShallower(f);
      if head.position.Some? { ChildrenCost(cfg, head.state, f, 0); }
    }
  }

  lemma {:induction false} ChildrenCost(cfg: Settings, st: State, f: Field, i: nat)
    requires i <= |Children(f)| && forall g | g in Children(f) :: Depth(g) < Depth(f)
    ensures |StoreChildren(cfg, st, f, i).state.buffer| <= |st.buffer| + CostFrom(cfg, f, i)
    decreases Depth(f), 0, |Children(f)| - i
  {
    hide Store, Children, ShouldCache, Cost, PointerBytes;
    if i < |Children(f)| {
      var g := Children(f)[i];
      assert g in Children(f);
      var r := if Untyped(f, g) then StoreUntyped(cfg, st, g) else Store(cfg, st, g);
      if Untyped(f, g) && r.position.Some? { UntypedIsHit(cfg, st, g); }
      StoreCosts(cfg, st, g);
      if r.position.Some? { ChildrenCost(cfg, r.state, f, i + 1); }
    }
  }
}
