/** Reading a finished file with nothing but the MaxMind DB specification. */
module FileLookup {
  import opened Data
  import opened Trie
  import opened TrieLaws
  import opened Aliases
  import opened Numbering
  import opened FieldCodec
  import opened DataSection
  import opened DataSectionLaws

  const SEPARATOR := 16

  datatype Answer = NotFound | Found(field: Field) | Corrupt

  /** Search the tree, and decode the data section where the last record points to. */
  function AnswerAt(file: Bytes, size: nat, nodeCount: nat, a: Path, fuel: nat): Answer
    requires IsRecordSize(size) && nodeCount * RowLength(size) + SEPARATOR <= |file|
  {
    var v := SearchBytes(file, size, nodeCount, 0, a);
    if v == nodeCount then NotFound
    else if v < nodeCount + SEPARATOR then Corrupt
    else
      match Decode(file[nodeCount * RowLength(size) + SEPARATOR..], v - nodeCount - SEPARATOR, fuel)
      case None => Corrupt
      case Some((f, _)) => Found(f)
  }

  /** What a reader should be told about an address. */
  function Expected(t: Tree, a: Path, typed: Value -> Field): Answer
    requires |a| >= IPV4_BITS
  {
    match ValueOf(Lookup(t, a)) case None => NotFound case Some(v) => Found(typed(v))
  }

  /** The reader may recurse as deeply as the data at the address nests. */
  predicate EnoughFuel(t: Tree, a: Path, typed: Value -> Field, fuel: nat)
    requires |a| >= IPV4_BITS
  {
    match ValueOf(Lookup(t, a)) case None => true case Some(v) => Depth(typed(v)) <= fuel
  }

  /** The number of data at a position of the data section. The sum is made in 32 bits. */
  function DataNumber(position: nat, nodeCount: nat): nat {
    (position + nodeCount + SEPARATOR) % UINT32_LIMIT
  }

  lemma DataNumberIsExact(position: nat, nodeCount: nat)
    ensures DataNumber(position, nodeCount) == position + nodeCount + 16 <==> position + nodeCount + 16 < 0x1_0000_0000
    ensures position + nodeCount + 16 >= 0x1_0000_0000 && position < 0x1_0000_0000 ==>
      DataNumber(position, nodeCount) < nodeCount + 16
  {
  }

  /** What is in the data section at a position: the field, or nothing that reads as it when it is out of range. */
  ghost predicate StandsAt(buffer: Bytes, position: nat, f: Field) {
    && position < |buffer|
    && if Sound(f) then Is(Decode(buffer, position, Depth(f)), f) else NeverReads(buffer, position, f)
  }

  /** Every number was made from the position of its data. */
  ghost predicate PointersTrue(buffer: Bytes, nodeCount: nat, keyFor: Value -> Key, pointers: map<Key, nat>,
                               positions: map<Key, nat>,
                               typed: Value -> Field) {
    && positions.Keys == pointers.Keys
    && forall v | keyFor(v) in pointers ::
         && pointers[keyFor(v)] == DataNumber(positions[keyFor(v)], nodeCount)
         && StandsAt(buffer, positions[keyFor(v)], typed(v))
  }

  /** The number of the data at an address has not wrapped. */
  predicate Exact(leaf: Tree, nodeCount: nat, keyFor: Value -> Key, positions: map<Key, nat>) {
    leaf.Data? && keyFor(leaf.v) in positions ==> positions[keyFor(leaf.v)] + nodeCount + SEPARATOR < UINT32_LIMIT
  }

  /** The keys of all data records are remembered. */
  predicate Covered(t: Tree, keyFor: Value -> Key, pointers: map<Key, nat>) {
    match t
    case Data(v) => keyFor(v) in pointers
    case Node(l, r) => Covered(l, keyFor, pointers) && Covered(r, keyFor, pointers)
    case FixedNode(l, r) => Covered(l, keyFor, pointers) && Covered(r, keyFor, pointers)
    case _ => true
  }

  ghost predicate RowsFit(rows: seq<Row>, size: nat) {
    forall row | row in rows :: RowFits(row, size)
  }

  lemma {:induction false} CoveredAtLeaf(t: Tree, ipv4: Tree, a: Path, keyFor: Value -> Key, pointers: map<Key, nat>)
    requires Covered(t, keyFor, pointers) && Covered(ipv4, keyFor, pointers)
    ensures Covered(Follow(t, ipv4, a), keyFor, pointers)
    decreases |a|
  {
    if a == [] {
      FollowNothing(t, ipv4, a);
    } else {
      FollowBit(t, ipv4, a);
      if IsNode(t) {
        CoveredAtLeaf(if a[0] then t.right else t.left, ipv4, a[1..], keyFor, pointers);
      } else if t.Alias? {
        CoveredAtLeaf(if a[0] then RightOf(ipv4) else LeftOf(ipv4), ipv4, a[1..], keyFor, pointers);
      }
    }
  }

  lemma {:induction false} CoveredBelow(t: Tree, q: Path, keyFor: Value -> Key, pointers: map<Key, nat>)
    requires Covered(t, keyFor, pointers)
    ensures Covered(SubtreeAt(t, q), keyFor, pointers)
  {
    if q != [] && IsNode(t) {
      CoveredBelow(if q[0] then t.right else t.left, q[1..], keyFor, pointers);
    }
  }

  /** What a reader makes of the value that its search ends on. */
  function AnswerFor(v: nat, buffer: Bytes, nodeCount: nat, fuel: nat): Answer {
    if v == nodeCount then NotFound
    else if v < nodeCount + SEPARATOR then Corrupt
    else match Decode(buffer, v - nodeCount - SEPARATOR, fuel) case None => Corrupt case Some((f, _)) => Found(f)
  }

  function FileOf(rows: seq<Row>, size: nat, buffer: Bytes, rest: Bytes): Bytes
    requires IsRecordSize(size)
  {
    EncodeRows(rows, size) + seq(SEPARATOR, _ => 0) + buffer + rest
  }

  lemma AnswerFromRows(rows: seq<Row>, size: nat, buffer: Bytes, rest: Bytes, a: Path, fuel: nat)
    requires IsRecordSize(size) && RowsFit(rows, size)
    ensures |rows| * RowLength(size) + SEPARATOR <= |FileOf(rows, size, buffer, rest)|
    ensures AnswerAt(FileOf(rows, size, buffer, rest), size, |rows|, a, fuel)
         == AnswerFor(Search(rows, 0, a), buffer + rest, |rows|, fuel)
  {
    hide EncodeRows, Decode, RowFits, RowLength;
    var tree, gap := EncodeRows(rows, size), seq(SEPARATOR, _ => 0 as Byte);
    var file := FileOf(rows, size, buffer, rest);
    SearchBytesIsSearch(rows, size, gap + buffer + rest, 0, a);
    assert file == tree + (gap + buffer + rest);
    assert file[|rows| * RowLength(size) + SEPARATOR..] == buffer + rest;
  }

  /** What every written file has. */
  ghost predicate Finished(t: Tree, w: nat, L: Layout, size: nat, buffer: Bytes, positions: map<Key, nat>,
                           typed: Value -> Field) {
    && w >= IPV4_BITS && Height(t) <= w && (NoAlias(t) || AliasSafe(t, w))
    && IsNode(t) && L.nodeCount == Count(t) && L.ipv4 == Ipv4Number(t, w)
    && IsRecordSize(size) && RowsFit(Rows(t, 0, L), size) && Covered(t, L.keyFor, L.pointers)
    && PointersTrue(buffer, L.nodeCount, L.keyFor, L.pointers, positions, typed)
  }

  /** The data at the address is in range. */
  predicate SoundAt(t: Tree, a: Path, typed: Value -> Field)
    requires |a| >= IPV4_BITS
  {
    match ValueOf(Lookup(t, a)) case None => true case Some(v) => Sound(typed(v))
  }

  /** For every address, aliased ones included, whose number has not wrapped, the file answers what the tree in memory
      does, exactly when the data there is in range. */
  lemma FileAnswersLikeTree(t: Tree, w: nat, a: Path, L: Layout, size: nat, buffer: Bytes, rest: Bytes,
                            positions: map<Key, nat>, typed: Value -> Field, fuel: nat)
    requires Finished(t, w, L, size, buffer, positions, typed) && |a| == w
    requires EnoughFuel(t, a, typed, fuel) && Exact(Lookup(t, a), L.nodeCount, L.keyFor, positions)
    ensures AnswerAt(FileOf(Rows(t, 0, L), size, buffer, rest), size, L.nodeCount, a, fuel) == Expected(t, a, typed)
       <==> SoundAt(t, a, typed)
  {
    hide Rows, EncodeRows, Decode, Depth, Follow, Covered, RowFits, SubtreeAt, Height, NoAlias, AliasSafe, Count,
      RowLength, AnswerAt, RowsFit, DataNumber, FileOf, Sound;
    var leaf := Lookup(t, a);
    LookupEndsOnLeaf(t, w, a);
    AnswerFromRows(Rows(t, 0, L), size, buffer, rest, a, fuel);
    if leaf.Data? {
      LeafCovered(t, w, a, L);
      var position := positions[L.keyFor(leaf.v)];
      DataNumberIsExact(position, L.nodeCount);
      SearchIsLookup(t, w, a, L);
      if Sound(typed(leaf.v)) {
        DecodeGrows(buffer, rest, position, Depth(typed(leaf.v)), fuel);
      }
    } else {
      SearchIsLookup(t, w, a, L);
    }
  }

  lemma LeafCovered(t: Tree, w: nat, a: Path, L: Layout)
    requires |a| == w >= IPV4_BITS && Covered(t, L.keyFor, L.pointers)
    ensures Lookup(t, a).Data? ==>
      L.keyFor(Lookup(t, a).v) in L.pointers && Number(Lookup(t, a), 0, L) == L.pointers[L.keyFor(Lookup(t, a).v)]
  {
    CoveredBelow(t, Ipv4Root(w), L.keyFor, L.pointers);
    CoveredAtLeaf(t, SubtreeAt(t, Ipv4Root(w)), a, L.keyFor, L.pointers);
  }

  lemma NumberIsEntry(t: Tree, base: nat, L: Layout)
    requires Covered(t, L.keyFor, L.pointers) && base <= L.nodeCount && L.ipv4 <= L.nodeCount
    ensures Entry(Number(t, base, L), L)
  {
    if t.Data? { assert L.keyFor(t.v) in L.pointers; }
  }

  lemma {:induction false} RowsHoldEntries(t: Tree, base: nat, L: Layout)
    requires Covered(t, L.keyFor, L.pointers) && base + Count(t) <= L.nodeCount && L.ipv4 <= L.nodeCount
    ensures Entries(Rows(t, base, L), L)
  {
    hide Entry, Rows, Number;
    if IsNode(t) {
      var base' := base + 1 + Count(t.left);
      RowsOfNode(t, base, L);
      NumberIsEntry(t.left, base + 1, L);
      NumberIsEntry(t.right, base', L);
      RowsHoldEntries(t.left, base + 1, L);
      RowsHoldEntries(t.right, base', L);
    } else {
      assert Rows(t, base, L) == [] by { NoRowsOfLeaf(t, base, L); }
    }
  }

  lemma NoRowsOfLeaf(t: Tree, base: nat, L: Layout)
    requires !IsNode(t)
    ensures Rows(t, base, L) == []
  {
  }

  /** With all data in range and a data section of at most 2^32 bytes, the file gives the right answer exactly where the
      number has not wrapped: the data behind a wrapped number is never found. */
  lemma FileAnswersIff(t: Tree, w: nat, a: Path, L: Layout, size: nat, buffer: Bytes, rest: Bytes,
                       positions: map<Key, nat>, typed: Value -> Field, fuel: nat)
    requires Finished(t, w, L, size, buffer, positions, typed) && |a| == w && EnoughFuel(t, a, typed, fuel)
    requires |buffer| <= UINT32_LIMIT && forall v | L.keyFor(v) in L.pointers :: Sound(typed(v))
    requires forall v, v' | typed(v) == typed(v') :: v == v'
    ensures AnswerAt(FileOf(Rows(t, 0, L), size, buffer, rest), size, L.nodeCount, a, fuel) == Expected(t, a, typed)
       <==> Exact(Lookup(t, a), L.nodeCount, L.keyFor, positions)
  {
    hide Rows, EncodeRows, Decode, Depth, Follow, Covered, RowFits, SubtreeAt, Height, NoAlias, AliasSafe, RowLength,
      AnswerAt, RowsFit, DataNumber, FileOf, Entries, Sound;
    var leaf, rows := Lookup(t, a), Rows(t, 0, L);
    LeafCovered(t, w, a, L);
    if Exact(leaf, L.nodeCount, L.keyFor, positions) {
      FileAnswersLikeTree(t, w, a, L, size, buffer, rest, positions, typed, fuel);
    } else {
      var v, x := leaf.v, Search(rows, 0, a);
      AnswerFromRows(rows, size, buffer, rest, a, fuel);
      RowsHoldEntries(t, 0, L);
      assert Entry(0, L);
      SearchEntries(rows, 0, a, L);
      if x >= L.nodeCount + SEPARATOR {
        var v' :| L.keyFor(v') in L.pointers && x == L.pointers[L.keyFor(v')];
        var position := positions[L.keyFor(v')];
        DataNumberIsExact(position, L.nodeCount);
        DataNumberIsExact(positions[L.keyFor(v)], L.nodeCount);
        SameField(buffer, position, typed(v'), rest, fuel);
      }
    }
  }

  /** Where one field stands no other is read. */
  lemma SameField(buffer: Bytes, position: nat, f: Field, rest: Bytes, fuel: nat)
    requires StandsAt(buffer, position, f) && Sound(f)
    ensures Decode(buffer + rest, position, fuel).Some? ==> Is(Decode(buffer + rest, position, fuel), f)
  {
    hide Decode;
    if Decode(buffer + rest, position, fuel).Some? {
      var most := Max(fuel, Depth(f));
      DecodeGrows(buffer, rest, position, Depth(f), most);
      DecodeGrows(buffer + rest, [], position, fuel, most);
      assert buffer + rest + [] == buffer + rest;
    }
  }

  /** A data section with room to spare: no number wraps. */
  lemma SmallIsExact(leaf: Tree, buffer: Bytes, nodeCount: nat, keyFor: Value -> Key, pointers: map<Key, nat>,
                     positions: map<Key, nat>, typed: Value -> Field)
    requires PointersTrue(buffer, nodeCount, keyFor, pointers, positions, typed)
    requires |buffer| + nodeCount + SEPARATOR <= UINT32_LIMIT
    ensures Exact(leaf, nodeCount, keyFor, positions)
  {
    hide Decode, NeverReads, Sound;
    if leaf.Data? && keyFor(leaf.v) in positions {
      assert StandsAt(buffer, positions[keyFor(leaf.v)], typed(leaf.v));
    }
  }

  /** A tree of one node with data on its left. */
  function OneNode(v: Value): Tree { Node(Data(v), Empty) }

  function WrappedLayout(keyFor: Value -> Key, v: Value): Layout { Layout(1, 0, keyFor, map[keyFor(v) := 0]) }

  /** A data section whose only field lies 17 bytes below 2^32. */
  function WrappedBuffer(field: Bytes): Bytes { seq(UINT32_LIMIT - 17, _ => 0 as Byte) + field }

  /** An input for which the number wraps: it becomes that of the root, and no reader is told of the data. */
  lemma WrappedNumberExample(keyFor: Value -> Key, typed: Value -> Field, v: Value, rest: Bytes, fuel: nat)
    requires IsKeyFunction(keyFor) && (forall x, y | typed(x) == typed(y) :: x == y) && typed(v) == Boolean(true)
    requires fuel > 0
    ensures EncodeScalar(Boolean(true), false).Some?
    ensures var L, buffer := WrappedLayout(keyFor, v), WrappedBuffer(EncodeScalar(Boolean(true), false).value);
      && Finished(OneNode(v), 32, L, 32, buffer, map[keyFor(v) := UINT32_LIMIT - 17], typed)
      && |FileOf(Rows(OneNode(v), 0, L), 32, buffer, rest)| >= RowLength(32) + SEPARATOR
      && Expected(OneNode(v), Zeros(32), typed) == Found(Boolean(true))
      && AnswerAt(FileOf(Rows(OneNode(v), 0, L), 32, buffer, rest), 32, 1, Zeros(32), fuel) != Found(Boolean(true))
  {
    hide EncodeRows, Decode, FileOf, AnswerAt;
    var t, L, position := OneNode(v), WrappedLayout(keyFor, v), UINT32_LIMIT - 17;
    var field := EncodeScalar(Boolean(true), false).value;
    var buffer := WrappedBuffer(field);
    BooleanStands(seq(UINT32_LIMIT - 17, _ => 0 as Byte));
    assert Rows(t, 0, L) == [(0, 1)];
    assert PointersTrue(buffer, 1, keyFor, L.pointers, map[keyFor(v) := position], typed);
    OneNodeFacts(v, L);
    AnswerFromRows(Rows(t, 0, L), 32, buffer, rest, Zeros(32), fuel);
    FileAnswersIff(t, 32, Zeros(32), L, 32, buffer, rest, map[keyFor(v) := position], typed, fuel);
  }

  lemma OneNodeFacts(v: Value, L: Layout)
    ensures Count(OneNode(v)) == 1 == Height(OneNode(v)) && NoAlias(OneNode(v)) && Ipv4Number(OneNode(v), 32) == 0
    ensures Lookup(OneNode(v), Zeros(32)) == Data(v)
    ensures L.keyFor(v) in L.pointers ==> Covered(OneNode(v), L.keyFor, L.pointers)
  {
    var t, a := OneNode(v), Zeros(32);
    assert Ipv4Root(32) == [];
    FollowBit(t, SubtreeAt(t, Ipv4Root(32)), a);
    FollowBit(Data(v), SubtreeAt(t, Ipv4Root(32)), a[1..]);
  }

  lemma BooleanStands(before: Bytes)
    ensures EncodeScalar(Boolean(true), false).Some? && |EncodeScalar(Boolean(true), false).value| == 2
    ensures StandsAt(before + EncodeScalar(Boolean(true), false).value, |before|, Boolean(true))
  {
    var field := EncodeScalar(Boolean(true), false).value;
    ScalarRoundTripIff(Boolean(true), false, before, [], 1);
    assert before + field + [] == before + field;
  }
}
