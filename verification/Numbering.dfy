/** Preorder numbers, the rows that are written, and searching them (c/tree.c:1390-1402, 1761-1961). */
module Numbering {
  import opened Data
  import opened Trie
  import opened TrieLaws
  import opened Aliases
  import opened Address
  import opened Ranges
  import opened RangeUpdates
  import opened FieldCodec

  /** How many nodes a tree owns. */
  function Count(t: Tree): nat {
    if IsNode(t) then 1 + Count(t.left) + Count(t.right) else 0
  }

  /** Does q lead to a node? */
  predicate OnNode(t: Tree, q: Path) {
    IsNode(t) && (q == [] || OnNode(if q[0] then t.right else t.left, q[1..]))
  }

  /** The number that preorder numbering from `base` gives to the node at q. */
  function IndexAt(t: Tree, q: Path, base: nat): (n: nat)
    requires OnNode(t, q)
    ensures base <= n < base + Count(t)
  {
    if q == [] then base
    else if q[0] then IndexAt(t.right, q[1..], base + 1 + Count(t.left))
    else IndexAt(t.left, q[1..], base + 1)
  }

  /** Every number is used... */
  lemma {:induction false} IndexOnto(t: Tree, base: nat, n: nat) returns (q: Path)
    requires base <= n < base + Count(t)
    ensures OnNode(t, q) && IndexAt(t, q, base) == n
  {
    if n == base {
      q := [];
    } else if n < base + 1 + Count(t.left) {
      var q' := IndexOnto(t.left, base + 1, n);
      q := [false] + q';
    } else {
      var q' := IndexOnto(t.right, base + 1 + Count(t.left), n);
      q := [true] + q';
    }
  }

  /** ...and used once. */
  lemma {:induction false} IndexInjective(t: Tree, p: Path, q: Path, base: nat)
    requires OnNode(t, p) && OnNode(t, q) && IndexAt(t, p, base) == IndexAt(t, q, base)
    ensures p == q
  {
    if p != [] && q != [] {
      if p[0] {
        if q[0] { IndexInjective(t.right, p[1..], q[1..], base + 1 + Count(t.left)); }
      } else {
        if !q[0] { IndexInjective(t.left, p[1..], q[1..], base + 1); }
      }
      assert p == [p[0]] + p[1..] && q == [q[0]] + q[1..];
    }
  }

  /** A node's number is less than the number of every node below it; in particular only the root has the first
      number. */
  lemma {:induction false} IndexIncreases(t: Tree, p: Path, q: Path, base: nat)
    requires OnNode(t, p + q) && q != []
    ensures OnNode(t, p) && IndexAt(t, p, base) < IndexAt(t, p + q, base)
  {
    if p == [] {
      assert p + q == q;
    } else {
      assert (p + q)[1..] == p[1..] + q;
      if p[0] {
        IndexIncreases(t.right, p[1..], q, base + 1 + Count(t.left));
      } else {
        IndexIncreases(t.left, p[1..], q, base + 1);
      }
    }
  }

  /** Numbers go from left to right: what lies below a node's left record comes before what lies below its right one.
      With the above this makes them preorder numbers. */
  lemma {:induction false} IndexOrder(t: Tree, p: Path, x: Path, y: Path, base: nat)
    requires OnNode(t, p + [false] + x) && OnNode(t, p + [true] + y)
    ensures IndexAt(t, p + [false] + x, base) < IndexAt(t, p + [true] + y, base)
    decreases |p|
  {
    if p == [] {
      assert p + [false] + x == [false] + x && p + [true] + y == [true] + y;
    } else {
      assert (p + [false] + x)[1..] == p[1..] + [false] + x && (p + [true] + y)[1..] == p[1..] + [true] + y;
      if p[0] {
        IndexOrder(t.right, p[1..], x, y, base + 1 + Count(t.left));
      } else {
        IndexOrder(t.left, p[1..], x, y, base + 1);
      }
    }
  }

  lemma {:induction false} SubtreeChild(t: Tree, r: Path, b: bool)
    requires OnNode(t, r)
    ensures SubtreeAt(t, r + [b]) == Child(SubtreeAt(t, r), b)
  {
    if r == [] {
      assert r + [b] == [b] && [b][1..] == [];
    } else {
      assert (r + [b])[1..] == r[1..] + [b];
      SubtreeChild(if r[0] then t.right else t.left, r[1..], b);
    }
  }

  lemma {:induction false} NodeBelow(t: Tree, q: Path)
    ensures OnNode(t, q) <==> IsNode(SubtreeAt(t, q))
  {
    if q != [] && IsNode(t) {
      NodeBelow(if q[0] then t.right else t.left, q[1..]);
    }
  }

  /** Numbering goes on below a node from the node's number. */
  lemma {:induction false} IndexBelow(t: Tree, q: Path, b: bool, base: nat)
    requires OnNode(t, q) && OnNode(t, q + [b])
    ensures var u := SubtreeAt(t, q);
      && IsNode(u)
      && IndexAt(t, q + [b], base) == IndexAt(t, q, base) + 1 + (if b then Count(u.left) else 0)
  {
    if q == [] {
      assert q + [b] == [b] && [b][1..] == [];
    } else {
      assert (q + [b])[1..] == q[1..] + [b];
      if q[0] {
        IndexBelow(t.right, q[1..], b, base + 1 + Count(t.left));
      } else {
        IndexBelow(t.left, q[1..], b, base + 1);
      }
    }
  }

  lemma {:induction false} FixedPathOnNode(t: Tree, q: Path)
    requires ThroughFixed(t, q) && IsNode(SubtreeAt(t, q))
    ensures OnNode(t, q)
  {
    if q != [] {
      FixedPathOnNode(if q[0] then t.right else t.left, q[1..]);
    }
  }

  // ---------- Rows ----------

  /** What record values are made from: the node count, the number of the IPv4 root, and the number of each data
      record. */
  datatype Layout = Layout(nodeCount: nat, ipv4: nat, keyFor: Value -> Key, pointers: map<Key, nat>)

  type Row = (nat, nat)

  /** record_value_as_number, for a record whose node, if it is one, has the number `base`. */
  function Number(t: Tree, base: nat, L: Layout): nat {
    match t
    case Data(v) => if L.keyFor(v) in L.pointers then L.pointers[L.keyFor(v)] else 0
    case Alias => L.ipv4
    case Node(_, _) => base
    case FixedNode(_, _) => base
    case _ => L.nodeCount
  }

  /** The rows of a tree in the order of their numbers. */
  function Rows(t: Tree, base: nat, L: Layout): (rows: seq<Row>)
    ensures |rows| == Count(t)
  {
    if IsNode(t) then
      [(Number(t.left, base + 1, L), Number(t.right, base + 1 + Count(t.left), L))]
      + Rows(t.left, base + 1, L) + Rows(t.right, base + 1 + Count(t.left), L)
    else []
  }

  /** The rows of a tree stand at its number. */
  ghost predicate Placed(rows: seq<Row>, t: Tree, base: nat, L: Layout) {
    base + Count(t) <= |rows| && rows[base..base + Count(t)] == Rows(t, base, L)
  }

  lemma SliceOfSlice<T>(s: seq<T>, lo: nat, mine: seq<T>, x: nat, y: nat)
    requires lo + |mine| <= |s| && s[lo..lo + |mine|] == mine && x <= y <= |mine|
    ensures s[lo + x..lo + y] == mine[x..y]
  {
    var part, whole := s[lo + x..lo + y], s[lo..lo + |mine|];
    forall i | 0 <= i < y - x ensures part[i] == mine[x..y][i] {
      assert part[i] == s[lo + x + i] == whole[x + i];
    }
  }

  lemma RowsOfNode(t: Tree, base: nat, L: Layout)
    requires IsNode(t)
    ensures Count(t) == 1 + Count(t.left) + Count(t.right)
    ensures Rows(t, base, L)
         == [(Number(t.left, base + 1, L), Number(t.right, base + 1 + Count(t.left), L))]
            + Rows(t.left, base + 1, L) + Rows(t.right, base + 1 + Count(t.left), L)
  {
  }

  lemma ChildrenPlaced(rows: seq<Row>, t: Tree, base: nat, L: Layout)
    requires Placed(rows, t, base, L) && IsNode(t)
    ensures base < |rows| && rows[base] == (Number(t.left, base + 1, L), Number(t.right, base + 1 + Count(t.left), L))
    ensures Placed(rows, t.left, base + 1, L) && Placed(rows, t.right, base + 1 + Count(t.left), L)
  {
    hide Rows, Count, Number;
    RowsOfNode(t, base, L);
    var mine := Rows(t, base, L);
    var l, r := Rows(t.left, base + 1, L), Rows(t.right, base + 1 + Count(t.left), L);
    SliceOfSlice(rows, base, mine, 0, 1);
    assert rows[base..base + 1][0] == mine[0];
    SliceOfSlice(rows, base, mine, 1, 1 + Count(t.left));
    assert mine[1..1 + Count(t.left)] == l;
    SliceOfSlice(rows, base, mine, 1 + Count(t.left), Count(t));
    assert mine[1 + Count(t.left)..] == r;
  }

  lemma {:induction false} SubtreePlaced(rows: seq<Row>, t: Tree, q: Path, base: nat, L: Layout)
    requires Placed(rows, t, base, L) && OnNode(t, q)
    ensures Placed(rows, SubtreeAt(t, q), IndexAt(t, q, base), L) && IsNode(SubtreeAt(t, q))
  {
    if q != [] {
      ChildrenPlaced(rows, t, base, L);
      if q[0] {
        SubtreePlaced(rows, t.right, q[1..], base + 1 + Count(t.left), L);
      } else {
        SubtreePlaced(rows, t.left, q[1..], base + 1, L);
      }
    }
  }

  /** The row of a node has the number of its left record and of its right one: for a node its own number, for an alias
      that of the IPv4 root, for data that of the data, and otherwise the node count. */
  lemma RowOfNode(t: Tree, q: Path, b: bool, L: Layout)
    requires OnNode(t, q)
    ensures var row, record := Rows(t, 0, L)[IndexAt(t, q, 0)], SubtreeAt(t, q + [b]);
      var number := if b then row.1 else row.0;
      && (IsNode(record) ==> OnNode(t, q + [b]) && number == IndexAt(t, q + [b], 0))
      && (record.Alias? ==> number == L.ipv4)
      && (record.Data? && L.keyFor(record.v) in L.pointers ==> number == L.pointers[L.keyFor(record.v)])
      && (record.Empty? || record.FixedEmpty? ==> number == L.nodeCount)
  {
    hide Rows, Count, IndexAt, OnNode, SubtreeAt;
    var rows := Rows(t, 0, L);
    assert rows[0..Count(t)] == rows;
    SubtreePlaced(rows, t, q, 0, L);
    ChildrenPlaced(rows, SubtreeAt(t, q), IndexAt(t, q, 0), L);
    SubtreeChild(t, q, b);
    NodeBelow(t, q + [b]);
    if OnNode(t, q + [b]) { IndexBelow(t, q, b, 0); }
  }

  // ---------- Searching ----------

  /** The Search Lookup Algorithm of the MaxMind DB specification: a record value below the node count is the next
      node. */
  function Search(rows: seq<Row>, node: nat, a: Path): nat
    decreases |a|
  {
    if a == [] || node >= |rows| then node
    else Search(rows, if a[0] then rows[node].1 else rows[node].0, a[1..])
  }

  /** One bit of the search, at a node whose rows are placed. */
  lemma SearchStep(rows: seq<Row>, t: Tree, base: nat, a: Path, L: Layout)
    requires Placed(rows, t, base, L) && IsNode(t) && a != []
    ensures Search(rows, base, a)
         == Search(rows, if a[0] then Number(t.right, base + 1 + Count(t.left), L)
           else Number(t.left, base + 1, L), a[1..])
    ensures Placed(rows, t.left, base + 1, L) && Placed(rows, t.right, base + 1 + Count(t.left), L)
  {
    hide Placed, Number, Count;
    ChildrenPlaced(rows, t, base, L);
  }

  lemma NumberCases(t: Tree, base: nat, L: Layout)
    ensures IsNode(t) ==> Number(t, base, L) == base
    ensures t.Alias? ==> Number(t, base, L) == L.ipv4
    ensures !IsNode(t) && !t.Alias? ==> Number(t, base, L) == Number(t, 0, L)
    ensures NoAlias(t) && IsNode(t) ==> NoAlias(t.left) && NoAlias(t.right)
    ensures NoAlias(t) ==> !t.Alias?
  {
  }

  /** Searching the rows follows the tree, through aliases too, and stops at the leaf when its number is beyond the
      nodes. */
  lemma {:induction false} SearchFollows(rows: seq<Row>, t: Tree, ipv4: Tree, base: nat, a: Path, L: Layout)
    requires Placed(rows, t, base, L) && L.nodeCount == |rows|
    requires NoAlias(t) || (IsNode(ipv4) && NoAlias(ipv4) && Placed(rows, ipv4, L.ipv4, L))
    requires var leaf := Follow(t, ipv4, a); !IsNode(leaf) && !leaf.Alias? && Number(leaf, 0, L) >= L.nodeCount
    ensures Search(rows, Number(t, base, L), a) == Number(Follow(t, ipv4, a), 0, L)
    decreases |a|
  {
    hide Placed, Number, Count, NoAlias, Follow;
    NumberCases(t, base, L);
    if a == [] {
      FollowNothing(t, ipv4, a);
    } else {
      FollowBit(t, ipv4, a);
      if IsNode(t) {
        SearchStep(rows, t, base, a, L);
        if a[0] {
          SearchFollows(rows, t.right, ipv4, base + 1 + Count(t.left), a[1..], L);
        } else {
          SearchFollows(rows, t.left, ipv4, base + 1, a[1..], L);
        }
      } else if t.Alias? {
        NumberCases(ipv4, L.ipv4, L);
        SearchStep(rows, ipv4, L.ipv4, a, L);
        if a[0] {
          SearchFollows(rows, ipv4.right, ipv4, L.ipv4 + 1 + Count(ipv4.left), a[1..], L);
        } else {
          SearchFollows(rows, ipv4.left, ipv4, L.ipv4 + 1, a[1..], L);
        }
      }
    }
  }

  /** The number of the node that aliases point at: the one at ::/96. */
  function Ipv4Number(t: Tree, w: nat): nat {
    if w >= IPV4_BITS && OnNode(t, Ipv4Root(w)) then IndexAt(t, Ipv4Root(w), 0) else 0
  }

  /** For every address, searching the rows of the whole tree ends on the number of the record that a lookup finds, when
      that number is beyond the nodes. */
  lemma SearchIsLookup(t: Tree, w: nat, a: Path, L: Layout)
    requires |a| == w && w >= IPV4_BITS && Height(t) <= w && (NoAlias(t) || AliasSafe(t, w))
    requires IsNode(t) && L.nodeCount == Count(t) && L.ipv4 == Ipv4Number(t, w)
    requires Number(Lookup(t, a), 0, L) >= L.nodeCount
    ensures Search(Rows(t, 0, L), 0, a) == Number(Lookup(t, a), 0, L)
  {
    var rows := Rows(t, 0, L);
    var ipv4 := SubtreeAt(t, Ipv4Root(w));
    assert rows[0..Count(t)] == rows;
    LookupEndsOnLeaf(t, w, a);
    if !NoAlias(t) {
      FixedPathOnNode(t, Ipv4Root(w));
      SubtreePlaced(rows, t, Ipv4Root(w), 0, L);
    }
    SearchFollows(rows, t, ipv4, 0, a, L);
  }

  /** What a row may hold: a node's number, the mark for "not found", or the number of some data. */
  ghost predicate Entry(x: nat, L: Layout) {
    x <= L.nodeCount || exists v :: L.keyFor(v) in L.pointers && x == L.pointers[L.keyFor(v)]
  }

  ghost predicate Entries(rows: seq<Row>, L: Layout) { forall row | row in rows :: Entry(row.0, L) && Entry(row.1, L) }

  /** Wherever a search ends, it ends on something that a row may hold. */
  lemma {:induction false} SearchEntries(rows: seq<Row>, node: nat, a: Path, L: Layout)
    requires Entries(rows, L) && Entry(node, L)
    ensures Entry(Search(rows, node, a), L)
    decreases |a|
  {
    hide Entry;
    if a != [] && node < |rows| {
      assert rows[node] in rows;
      SearchEntries(rows, if a[0] then rows[node].1 else rows[node].0, a[1..], L);
    }
  }

  // ---------- Bytes ----------

  predicate IsRecordSize(size: nat) { size == 24 || size == 28 || size == 32 }

  function RowLength(size: nat): nat { if size == 24 then 6 else if size == 28 then 7 else 8 }

  /** max_record_value. */
  function MaxRecordValue(size: nat): nat { if size == 32 then 0xFFFF_FFFF else Pow2(size) - 1 }

  /** Byte i of a 32 bit number in network order. */
  function NetByte(n: nat, i: nat): Byte
    requires i < 4
  {
    IntToBytes(n, 4)[i]
  }

  /** encode_node: in 28 bit rows the middle byte has four bits of each record, those of the left one first. */
  function EncodeRow(row: Row, size: nat): (b: Bytes)
    requires IsRecordSize(size)
    ensures |b| == RowLength(size)
  {
    var (l, r) := row;
    if size == 24 then [NetByte(l, 1), NetByte(l, 2), NetByte(l, 3), NetByte(r, 1), NetByte(r, 2), NetByte(r, 3)]
    else if size == 28 then
      [NetByte(l, 1), NetByte(l, 2), NetByte(l, 3),
       (NetByte(l, 0) as nat * 16 + NetByte(r, 0) as nat % 16) % 256,
       NetByte(r, 1), NetByte(r, 2), NetByte(r, 3)]
    else IntToBytes(l, 4) + IntToBytes(r, 4)
  }

  function EncodeRows(rows: seq<Row>, size: nat): (b: Bytes)
    requires IsRecordSize(size)
    ensures |b| == |rows| * RowLength(size)
  {
    if rows == [] then [] else EncodeRow(rows[0], size) + EncodeRows(rows[1..], size)
  }

  /** The Node Layout of the MaxMind DB specification. */
  function DecodeRow(b: Bytes, size: nat): Row
    requires IsRecordSize(size) && |b| == RowLength(size)
  {
    if size == 24 then (BytesToInt(b[..3]), BytesToInt(b[3..]))
    else if size == 28 then
      (b[3] as nat / 16 * 0x100_0000 + BytesToInt(b[..3]), b[3] as nat % 16 * 0x100_0000 + BytesToInt(b[4..]))
    else (BytesToInt(b[..4]), BytesToInt(b[4..]))
  }

  predicate RowFits(row: Row, size: nat) { row.0 <= MaxRecordValue(size) && row.1 <= MaxRecordValue(size) }

  lemma FourBytes(n: nat)
    requires n <= 0xFFFF_FFFF
    ensures BytesToInt(IntToBytes(n, 4)) == n
    ensures n == NetByte(n, 0) as nat * 0x100_0000 + BytesToInt([NetByte(n, 1), NetByte(n, 2), NetByte(n, 3)])
  {
    hide Pow2, IntToBytes, BytesToInt;
    BytePowers();
    IntOfBytes(n, 4);
    DivModUnique(n, Pow2(32), 0, n);
    var b := IntToBytes(n, 4);
    HeadByte(b);
    assert b[1..] == [b[1], b[2], b[3]];
  }

  /** A row whose records fit reads back, for each record size. */
  lemma RowRoundTrip(row: Row, size: nat)
    requires IsRecordSize(size) && RowFits(row, size)
    ensures DecodeRow(EncodeRow(row, size), size) == row
  {
    hide Pow2, IntToBytes, BytesToInt, NetByte;
    var (l, r) := row;
    var b := EncodeRow(row, size);
    BytePowers();
    Pow2TwentyEight();
    FourBytes(l);
    FourBytes(r);
    BytesOfInt([NetByte(l, 1), NetByte(l, 2), NetByte(l, 3)]);
    BytesOfInt([NetByte(r, 1), NetByte(r, 2), NetByte(r, 3)]);
    if size == 24 {
      assert b[..3] == [NetByte(l, 1), NetByte(l, 2), NetByte(l, 3)];
      assert b[3..] == [NetByte(r, 1), NetByte(r, 2), NetByte(r, 3)];
    } else if size == 28 {
      assert b[..3] == [NetByte(l, 1), NetByte(l, 2), NetByte(l, 3)];
      assert b[4..] == [NetByte(r, 1), NetByte(r, 2), NetByte(r, 3)];
      assert NetByte(l, 0) as nat < 16 && NetByte(r, 0) as nat < 16;
    } else {
      assert b[..4] == IntToBytes(l, 4) && b[4..] == IntToBytes(r, 4);
    }
  }

  lemma Pow2TwentyEight()
    ensures Pow2(28) == 0x1000_0000
  {
    hide Pow2;
    BytePowers();
    Pow2Step(24);
    Pow2Step(25);
    Pow2Step(26);
    Pow2Step(27);
  }

  function RowBytes(b: Bytes, size: nat, node: nat): (r: Bytes)
    requires IsRecordSize(size) && (node + 1) * RowLength(size) <= |b|
    ensures |r| == RowLength(size)
  {
    b[node * RowLength(size)..(node + 1) * RowLength(size)]
  }

  lemma {:induction false} RowInBytes(rows: seq<Row>, size: nat, rest: Bytes, node: nat)
    requires IsRecordSize(size) && node < |rows|
    ensures (node + 1) * RowLength(size) <= |rows| * RowLength(size)
    ensures RowBytes(EncodeRows(rows, size) + rest, size, node) == EncodeRow(rows[node], size)
    decreases node
  {
    hide EncodeRow, RowLength;
    var n := RowLength(size);
    var b := EncodeRows(rows, size) + rest;
    MulMonotone(node + 1, |rows|, n);
    Distributes(node, n);
    var first := EncodeRow(rows[0], size);
    var b' := EncodeRows(rows[1..], size) + rest;
    assert b == first + b';
    if node == 0 {
      assert 0 * n == 0;
      assert b[0..n] == first;
    } else {
      RowInBytes(rows[1..], size, rest, node - 1);
      Distributes(node - 1, n);
      SliceBehind(first, b', (node - 1) * n, node * n);
    }
  }

  lemma Distributes(k: nat, n: nat)
    ensures (k + 1) * n == k * n + n
  {
  }

  lemma SliceBehind<T>(first: seq<T>, rest: seq<T>, x: nat, y: nat)
    requires x <= y <= |rest|
    ensures (first + rest)[|first| + x..|first| + y] == rest[x..y]
  {
  }

  /** The search, on the bytes of a file that starts with the search tree. */
  function SearchBytes(b: Bytes, size: nat, nodeCount: nat, node: nat, a: Path): nat
    requires IsRecordSize(size) && nodeCount * RowLength(size) <= |b|
    decreases |a|
  {
    if a == [] || node >= nodeCount then node
    else
      MulMonotone(node + 1, nodeCount, RowLength(size));
      var (l, r) := DecodeRow(RowBytes(b, size, node), size);
      SearchBytes(b, size, nodeCount, if a[0] then r else l, a[1..])
  }

  lemma {:induction false} SearchBytesIsSearch(rows: seq<Row>, size: nat, rest: Bytes, node: nat, a: Path)
    requires IsRecordSize(size) && forall row | row in rows :: RowFits(row, size)
    ensures SearchBytes(EncodeRows(rows, size) + rest, size, |rows|, node, a) == Search(rows, node, a)
    decreases |a|
  {
    if a != [] && node < |rows| {
      RowInBytes(rows, size, rest, node);
      RowRoundTrip(rows[node], size);
      assert rows[node] in rows;
      SearchBytesIsSearch(rows, size, rest, if a[0] then rows[node].1 else rows[node].0, a[1..]);
    }
  }
}
