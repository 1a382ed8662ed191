/** Visiting the tree in order (c/tree.c:1968-2040, lib/MaxMind/DB/Writer/Tree.xs). */
module Iteration {
  import opened Wrappers
  import opened Data
  import opened Trie
  import opened TrieLaws
  import opened CanonicalTree
  import opened Address
  import opened Aliases
  import opened Ranges
  import opened RangeUpdates
  import opened Numbering
  import opened Shapes
  import opened SearchTree
  import opened DataTable
  import opened FrozenTree
  import opened Writing

  /** Which of process_empty_record, process_node_record and process_data_record the object has. */
  datatype Handlers = Handlers(empty: bool, node: bool, data: bool)

  datatype Argument = Nothing | TheNode(number: nat) | TheData(data: Option<Value>)

  /** One method call: the node and its network, the record and its network. */
  datatype Visit = Visit(node: nat, isRight: bool, nodeNetwork: nat, nodeDepth: nat, network: nat, depth: nat,
    argument: Argument)

  /** method_for_record_type. */
  predicate Handled(t: Tree, h: Handlers) {
    match t
    case Data(_) => h.data
    case Empty => h.empty
    case FixedEmpty => h.empty
    case _ => h.node
  }

  function ArgumentOf(t: Tree, base: nat, ipv4: nat): Argument {
    match t
    case Data(v) => TheData(Some(v))
    case Alias => TheNode(ipv4)
    case Node(_, _) => TheNode(base)
    case FixedNode(_, _) => TheNode(base)
    case _ => Nothing
  }

  /** call_iteration_method for one record of the node with number `node`. */
  function RecordVisit(t: Tree, base: nat, ipv4: nat, h: Handlers, node: nat, isRight: bool, nodeNetwork: nat,
                       nodeDepth: nat, network: nat): seq<Visit> {
    if Handled(t, h) then
      [Visit(node, isRight, nodeNetwork, nodeDepth, network, nodeDepth + 1, ArgumentOf(t, base, ipv4))]
    else []
  }

  /** The calls for a whole tree: below the left record, at the node, below the right record. */
  function Visits(t: Tree, base: nat, ipv4: nat, h: Handlers, network: nat, depth: nat, w: nat): seq<Visit>
    requires depth + Height(t) <= w
    decreases t
  {
    if !IsNode(t) then []
    else
      var right := FlipNetworkBit(network, depth, w);
      var rightBase := base + 1 + Count(t.left);
      Visits(t.left, base + 1, ipv4, h, network, depth + 1, w)
      + RecordVisit(t.left, base + 1, ipv4, h, base, false, network, depth, network)
      + RecordVisit(t.right, rightBase, ipv4, h, base, true, network, depth, right)
      + Visits(t.right, rightBase, ipv4, h, right, depth + 1, w)
  }

  // ---------- What is visited ----------

  /** The networks that process_data_record is told of, with their data. */
  function DataVisits(visits: seq<Visit>): seq<(nat, nat, Value)> {
    if visits == [] then []
    else
      (if visits[0].argument.TheData? && visits[0].argument.data.Some?
       then [(visits[0].network, visits[0].depth, visits[0].argument.data.value)] else [])
      + DataVisits(visits[1..])
  }

  lemma {:induction false} DataVisitsJoin(xs: seq<Visit>, ys: seq<Visit>)
    ensures DataVisits(xs + ys) == DataVisits(xs) + DataVisits(ys)
  {
    if xs == [] {
      assert xs + ys == ys;
    } else {
      assert (xs + ys)[1..] == xs[1..] + ys;
      DataVisitsJoin(xs[1..], ys);
    }
  }

  /** The data records from left to right. */
  function Leaves(t: Tree, q: Path): seq<Op> {
    if IsNode(t) then Leaves(t.left, q + [false]) + Leaves(t.right, q + [true]) else DataOp(t, q)
  }

  function Reported(ops: seq<Op>, w: nat): (r: seq<(nat, nat, Value)>)
    requires forall op | op in ops :: |op.p| <= w && op.rec.Data?
    ensures |r| == |ops|
  {
    if ops == [] then [] else [(NetworkOf(ops[0].p, w), |ops[0].p|, ops[0].rec.v)] + Reported(ops[1..], w)
  }

  lemma {:induction false} ReportedJoin(xs: seq<Op>, ys: seq<Op>, w: nat)
    requires DataOps(xs, w) && DataOps(ys, w)
    ensures Reported(xs + ys, w) == Reported(xs, w) + Reported(ys, w)
  {
    if xs == [] {
      assert xs + ys == ys;
    } else {
      assert (xs + ys)[1..] == xs[1..] + ys;
      ReportedJoin(xs[1..], ys, w);
    }
  }

  lemma {:induction false} LeavesFit(t: Tree, q: Path, w: nat)
    requires |q| + Height(t) <= w
    ensures DataOps(Leaves(t, q), w)
    decreases t
  {
    if IsNode(t) {
      LeavesFit(t.left, q + [false], w);
      LeavesFit(t.right, q + [true], w);
    }
  }

  /** What the data handler is told of is the data records, from left to right. */
  lemma {:induction false} VisitsAreLeaves(t: Tree, q: Path, base: nat, ipv4: nat, h: Handlers, w: nat)
    requires |q| + Height(t) <= w && h.data
    ensures DataOps(Leaves(t, q), w)
    ensures DataVisits(Visits(t, base, ipv4, h, NetworkOf(q, w), |q|, w)) + DataVisits(OwnVisit(t, q, w))
      == Reported(Leaves(t, q), w)
    decreases t
  {
    hide NetworkOf, FlipNetworkBit, Count, Visits, RecordVisit, DataVisits, Reported, OwnVisit, DataOps;
    LeavesFit(t, q, w);
    if !IsNode(t) {
      LeafReported(t, q, base, ipv4, h, w);
    } else {
      var ql, qr := q + [false], q + [true];
      var rightBase := base + 1 + Count(t.left);
      FlipIsRight(q, w);
      VisitsAreLeaves(t.left, ql, base + 1, ipv4, h, w);
      VisitsAreLeaves(t.right, qr, rightBase, ipv4, h, w);
      LeavesFit(t.left, ql, w);
      LeavesFit(t.right, qr, w);
      ReportedJoin(Leaves(t.left, ql), Leaves(t.right, qr), w);
      NodeVisits(t, q, base, ipv4, h, w);
    }
  }

  /** The data in the calls for a node. */
  lemma NodeVisits(t: Tree, q: Path, base: nat, ipv4: nat, h: Handlers, w: nat)
    requires |q| + Height(t) <= w && h.data && IsNode(t)
    ensures var ql, qr, rightBase := q + [false], q + [true], base + 1 + Count(t.left);
      DataVisits(Visits(t, base, ipv4, h, NetworkOf(q, w), |q|, w)) + DataVisits(OwnVisit(t, q, w))
      == (DataVisits(Visits(t.left, base + 1, ipv4, h, NetworkOf(ql, w), |ql|, w))
        + DataVisits(OwnVisit(t.left, ql, w)))
         + (DataVisits(Visits(t.right, rightBase, ipv4, h, NetworkOf(qr, w), |qr|, w))
           + DataVisits(OwnVisit(t.right, qr, w)))
  {
    hide NetworkOf, FlipNetworkBit, Count, RecordVisit, DataVisits, Visits, OwnVisit;
    FlipIsRight(q, w);
    VisitsOfNode(t, base, ipv4, h, NetworkOf(q, w), |q|, w);
    var ql, qr, rightBase := q + [false], q + [true], base + 1 + Count(t.left);
    var l, r := Visits(t.left, base + 1, ipv4, h, NetworkOf(ql, w), |ql|, w),
      Visits(t.right, rightBase, ipv4, h, NetworkOf(qr, w), |qr|, w);
    var lv := RecordVisit(t.left, base + 1, ipv4, h, base, false, NetworkOf(q, w), |q|, NetworkOf(ql, w));
    var rv := RecordVisit(t.right, rightBase, ipv4, h, base, true, NetworkOf(q, w), |q|, NetworkOf(qr, w));
    assert Visits(t, base, ipv4, h, NetworkOf(q, w), |q|, w) == l + lv + rv + r;
    RecordVisited(t.left, ql, base + 1, ipv4, h, base, false, NetworkOf(q, w), w);
    RecordVisited(t.right, qr, rightBase, ipv4, h, base, true, NetworkOf(q, w), w);
    RecordVisited(t, q, base, ipv4, h, base, true, NetworkOf(q, w), w);
    DataVisitsJoin(l, lv);
    DataVisitsJoin(l + lv, rv);
    DataVisitsJoin(l + lv + rv, r);
    NothingBelowLeaf(t.right, qr, rightBase, ipv4, h, w);
    Regroup(DataVisits(l), DataVisits(lv), DataVisits(rv), DataVisits(r));
  }

  lemma Regroup<T>(a: seq<T>, b: seq<T>, c: seq<T>, d: seq<T>)
    requires c == [] || d == []
    ensures a + b + c + d == (a + b) + (d + c)
  {
  }

  lemma VisitsOfNode(t: Tree, base: nat, ipv4: nat, h: Handlers, network: nat, depth: nat, w: nat)
    requires depth + Height(t) <= w && IsNode(t)
    ensures var right, rightBase := FlipNetworkBit(network, depth, w), base + 1 + Count(t.left);
      Visits(t, base, ipv4, h, network, depth, w)
      == Visits(t.left, base + 1, ipv4, h, network, depth + 1, w)
         + RecordVisit(t.left, base + 1, ipv4, h, base, false, network, depth, network)
         + RecordVisit(t.right, rightBase, ipv4, h, base, true, network, depth, right)
         + Visits(t.right, rightBase, ipv4, h, right, depth + 1, w)
  {
    hide FlipNetworkBit, RecordVisit, Count;
  }

  /** A stand-in for the call that the node above makes for a data record. */
  function OwnVisit(t: Tree, q: Path, w: nat): seq<Visit>
    requires |q| <= w
  {
    if t.Data? then [Visit(0, false, 0, 0, NetworkOf(q, w), |q|, TheData(Some(t.v)))] else []
  }

  lemma RecordVisited(t: Tree, q: Path, base: nat, ipv4: nat, h: Handlers, node: nat, isRight: bool, nodeNetwork: nat,
                      w: nat)
    requires |q| <= w && h.data
    ensures |q| > 0 ==>
      DataVisits(RecordVisit(t, base, ipv4, h, node, isRight, nodeNetwork, |q| - 1, NetworkOf(q, w)))
        == DataVisits(OwnVisit(t, q, w))
    ensures !t.Data? ==> DataVisits(OwnVisit(t, q, w)) == []
  {
  }

  lemma NothingBelowLeaf(t: Tree, q: Path, base: nat, ipv4: nat, h: Handlers, w: nat)
    requires |q| + Height(t) <= w
    ensures !IsNode(t) ==> DataVisits(Visits(t, base, ipv4, h, NetworkOf(q, w), |q|, w)) == []
    ensures !t.Data? ==> DataVisits(OwnVisit(t, q, w)) == []
  {
  }

  lemma LeafReported(t: Tree, q: Path, base: nat, ipv4: nat, h: Handlers, w: nat)
    requires |q| <= w && !IsNode(t)
    ensures DataOps(DataOp(t, q), w)
    ensures DataVisits(Visits(t, base, ipv4, h, NetworkOf(q, w), |q|, w)) + DataVisits(OwnVisit(t, q, w))
      == Reported(DataOp(t, q), w)
  {
    hide NetworkOf;
    assert Visits(t, base, ipv4, h, NetworkOf(q, w), |q|, w) == [];
    assert DataVisits([]) == [];
    if t.Data? {
      OneVisit(OwnVisit(t, q, w)[0]);
      OneReported(Op(q, t, NoMerge), w);
    }
  }

  lemma OneVisit(v: Visit)
    requires v.argument.TheData? && v.argument.data.Some?
    ensures DataVisits([v]) == [(v.network, v.depth, v.argument.data.value)]
  {
    assert [v][1..] == [];
  }

  lemma OneReported(op: Op, w: nat)
    requires |op.p| <= w && op.rec.Data?
    ensures Reported([op], w) == [(NetworkOf(op.p, w), |op.p|, op.rec.v)]
  {
    assert [op][1..] == [];
  }

  // ---------- In order, disjoint, and complete ----------

  function EndOf(op: Op, w: nat): nat
    requires |op.p| <= w
  {
    NetworkOf(op.p, w) + Pow2(w - |op.p|)
  }

  /** Each network ends before the next one starts. */
  ghost predicate Ascending(ops: seq<Op>, w: nat)
    requires DataOps(ops, w)
  {
    forall i, j | 0 <= i < j < |ops| :: EndOf(ops[i], w) <= NetworkOf(ops[j].p, w)
  }

  ghost predicate Between(ops: seq<Op>, low: nat, high: nat, w: nat)
    requires DataOps(ops, w)
  {
    forall i | 0 <= i < |ops| :: low <= NetworkOf(ops[i].p, w) && EndOf(ops[i], w) <= high
  }

  lemma AscendingJoin(xs: seq<Op>, ys: seq<Op>, low: nat, mid: nat, high: nat, w: nat)
    requires DataOps(xs, w) && DataOps(ys, w) && Ascending(xs, w) && Ascending(ys, w)
    requires Between(xs, low, mid, w) && Between(ys, mid, high, w) && low <= mid <= high
    ensures DataOps(xs + ys, w) && Ascending(xs + ys, w) && Between(xs + ys, low, high, w)
  {
    hide NetworkOf, EndOf;
  }

  lemma HalfWay(q: Path, w: nat)
    requires |q| < w
    ensures NetworkOf(q + [false], w) == NetworkOf(q, w)
    ensures NetworkOf(q + [true], w) == NetworkOf(q, w) + Pow2(w - |q| - 1)
    ensures Pow2(w - |q|) == 2 * Pow2(w - |q| - 1)
  {
    hide Pow2, NumberOf, NetworkOf, FlipNetworkBit;
    FlipIsRight(q, w);
    Pow2Step(w - 1 - |q|);
    RightNetwork(q, w);
    OneMore(NumberOf(q), Pow2(w - 1 - |q|));
  }

  lemma RightNetwork(q: Path, w: nat)
    requires |q| < w
    ensures NetworkOf(q, w) == NumberOf(q) * (2 * Pow2(w - 1 - |q|))
    ensures NetworkOf(q + [true], w) == (2 * NumberOf(q) + 1) * Pow2(w - 1 - |q|)
  {
    hide Pow2, NumberOf;
    Pow2Step(w - 1 - |q|);
    NumberAfter(q);
  }

  lemma NumberAfter(q: Path)
    ensures NumberOf(q + [true]) == 2 * NumberOf(q) + 1
  {
    assert (q + [true])[..|q|] == q;
  }

  lemma OneMore(n: nat, p: nat)
    ensures (2 * n + 1) * p == n * (2 * p) + p
  {
  }

  lemma LeafAscends(t: Tree, q: Path, w: nat)
    requires |q| <= w
    ensures DataOps(DataOp(t, q), w) && Ascending(DataOp(t, q), w)
    ensures Between(DataOp(t, q), NetworkOf(q, w), NetworkOf(q, w) + Pow2(w - |q|), w)
  {
    hide Pow2, NetworkOf;
  }

  lemma {:induction false} LeavesAscend(t: Tree, q: Path, w: nat)
    requires |q| + Height(t) <= w
    ensures DataOps(Leaves(t, q), w) && Ascending(Leaves(t, q), w)
    ensures Between(Leaves(t, q), NetworkOf(q, w), NetworkOf(q, w) + Pow2(w - |q|), w)
    decreases t
  {
    hide Pow2, NetworkOf, Ascending, Between, DataOps;
    if !IsNode(t) {
      LeafAscends(t, q, w);
    } else {
      HalfWay(q, w);
      var ql, qr := q + [false], q + [true];
      LeavesAscend(t.left, ql, w);
      LeavesAscend(t.right, qr, w);
      var mid, high := NetworkOf(qr, w), NetworkOf(q, w) + Pow2(w - |q|);
      AscendingJoin(Leaves(t.left, ql), Leaves(t.right, qr), NetworkOf(q, w), mid, high, w);
    }
  }

  /** The same records that freezing writes, in another order. */
  lemma {:induction false} LeavesAreEmitted(t: Tree, q: Path, op: Op)
    ensures op in Leaves(t, q) <==> op in EmitOps(t, q) || op in DataOp(t, q)
    decreases t
  {
    if IsNode(t) {
      LeavesAreEmitted(t.left, q + [false], op);
      LeavesAreEmitted(t.right, q + [true], op);
    }
  }

  predicate Covers(report: (nat, nat, Value), n: nat, w: nat) {
    report.1 <= w && report.0 <= n < report.0 + Pow2(w - report.1)
  }

  /** Does the first network end before the second one starts? */
  predicate Before(first: (nat, nat, Value), second: (nat, nat, Value), w: nat) {
    first.1 <= w && first.0 + Pow2(w - first.1) <= second.0
  }

  lemma {:induction false} ReportedAt(ops: seq<Op>, w: nat, i: nat)
    requires (forall op | op in ops :: |op.p| <= w && op.rec.Data?) && i < |ops|
    ensures Reported(ops, w)[i] == (NetworkOf(ops[i].p, w), |ops[i].p|, ops[i].rec.v)
  {
    if i > 0 {
      ReportedAt(ops[1..], w, i - 1);
    }
  }

  lemma CoversIsPrefix(op: Op, n: nat, w: nat)
    requires |op.p| <= w && op.rec.Data? && n < Pow2(w)
    ensures Covers((NetworkOf(op.p, w), |op.p|, op.rec.v), n, w) <==> op.p <= BitsOf(n, w)
  {
    hide Pow2, BitsOf;
    var b := Block(NetworkOf(op.p, w), |op.p|);
    NetworkPathOf(op.p, w);
    DivModUnique(NetworkOf(op.p, w), Pow2(w - |op.p|), NumberOf(op.p), 0);
    InBlockIsPrefix(b, w, n);
  }

  /** Iteration tells the data handler of disjoint networks in ascending order, and they cover, with their values,
      exactly the addresses that have data in the tree itself. */
  lemma DataIsReportedExactly(t: Tree, w: nat, ipv4: nat, h: Handlers, n: nat, v: Value)
    requires IsNode(t) && Height(t) <= w && h.data && n < Pow2(w)
    ensures var r := DataVisits(Visits(t, 0, ipv4, h, 0, 0, w));
      && (forall i, j | 0 <= i < j < |r| :: Before(r[i], r[j], w))
      && (RecordAt(t, BitsOf(n, w)) == Data(v) <==> exists i :: 0 <= i < |r| && Covers(r[i], n, w) && r[i].2 == v)
  {
    hide Pow2, BitsOf, Visits, Leaves, NetworkOf, Covers, RecordAt, Height, Reported, DataVisits;
    LeavesFit(t, [], w);
    RootVisits(t, w, ipv4, h);
    ReportAscends(t, w);
    ReportCovers(t, w, n, v);
  }

  lemma RootVisits(t: Tree, w: nat, ipv4: nat, h: Handlers)
    requires IsNode(t) && Height(t) <= w && h.data
    ensures DataOps(Leaves(t, []), w) && DataVisits(Visits(t, 0, ipv4, h, 0, 0, w)) == Reported(Leaves(t, []), w)
  {
    hide Pow2, Visits, Leaves, NetworkOf, Reported, DataVisits;
    RootNetwork(w);
    VisitsAreLeaves(t, [], 0, ipv4, h, w);
    NothingBelowLeaf(t, [], 0, ipv4, h, w);
  }

  lemma ReportAscends(t: Tree, w: nat)
    requires Height(t) <= w && DataOps(Leaves(t, []), w)
    ensures var r := Reported(Leaves(t, []), w);
      forall i, j | 0 <= i < j < |r| :: Before(r[i], r[j], w)
  {
    hide Pow2, Leaves, NetworkOf, Reported;
    var ops := Leaves(t, []);
    var r := Reported(ops, w);
    LeavesAscend(t, [], w);
    forall i, j | 0 <= i < j < |r| ensures Before(r[i], r[j], w) {
      ReportedAt(ops, w, i);
      ReportedAt(ops, w, j);
      assert ops[i] in ops;
      assert EndOf(ops[i], w) <= NetworkOf(ops[j].p, w);
    }
  }

  lemma ReportCovers(t: Tree, w: nat, n: nat, v: Value)
    requires IsNode(t) && Height(t) <= w && n < Pow2(w) && DataOps(Leaves(t, []), w)
    ensures var r := Reported(Leaves(t, []), w);
      RecordAt(t, BitsOf(n, w)) == Data(v) <==> exists i :: 0 <= i < |r| && Covers(r[i], n, w) && r[i].2 == v
  {
    hide Pow2, BitsOf, Leaves, EmitOps, NetworkOf, Covers, RecordAt, Height, Reported;
    var ops, a := Leaves(t, []), BitsOf(n, w);
    var r := Reported(ops, w);
    forall i | 0 <= i < |r| ensures Covers(r[i], n, w) ==> RecordAt(t, a) == Data(r[i].2) {
      ReportedAt(ops, w, i);
      LeavesAreEmitted(t, [], ops[i]);
      CoversIsPrefix(ops[i], n, w);
      if ops[i].p <= a { LeafValue(t, ops[i], a); }
    }
    if RecordAt(t, a) == Data(v) {
      var op := EmitComplete(t, [], a);
      LeavesAreEmitted(t, [], op);
      assert [] + a == a;
      LeafValue(t, op, a);
      var i :| 0 <= i < |ops| && ops[i] == op;
      ReportedAt(ops, w, i);
      CoversIsPrefix(op, n, w);
      assert Covers(r[i], n, w) && r[i].2 == v;
    }
  }

  lemma RootNetwork(w: nat)
    ensures NetworkOf([], w) == 0
  {
  }

  lemma LeafValue(t: Tree, op: Op, a: Path)
    requires IsNode(t) && op in EmitOps(t, []) + DataOp(t, []) && op.p <= a
    ensures RecordAt(t, a) == op.rec && op.rec.Data?
  {
    EmitSound(t, []);
    assert SoundOp(t, [], op) && op.p[0..] == op.p;
    DataAtFacts(t, op.p, a);
  }

  function Sides(visits: seq<Visit>): multiset<(nat, bool)> {
    if visits == [] then multiset{} else multiset{(visits[0].node, visits[0].isRight)} + Sides(visits[1..])
  }

  lemma {:induction false} SidesJoin(xs: seq<Visit>, ys: seq<Visit>)
    ensures Sides(xs + ys) == Sides(xs) + Sides(ys)
  {
    if xs == [] {
      assert xs + ys == ys;
    } else {
      assert (xs + ys)[1..] == xs[1..] + ys;
      SidesJoin(xs[1..], ys);
    }
  }

  /** Nothing is reported for a number that no node has. */
  lemma {:induction false} NoOtherNode(t: Tree, base: nat, ipv4: nat, h: Handlers, network: nat, depth: nat, w: nat,
                                       n: nat, isRight: bool)
    requires depth + Height(t) <= w && !(base <= n < base + Count(t))
    ensures Sides(Visits(t, base, ipv4, h, network, depth, w))[(n, isRight)] == 0
    decreases t
  {
    hide Visits, Sides, FlipNetworkBit, RecordVisit;
    if IsNode(t) {
      SidesOfNode(t, base, ipv4, h, network, depth, w, n, isRight);
      NoOtherNode(t.left, base + 1, ipv4, h, network, depth + 1, w, n, isRight);
      NoOtherNode(t.right, base + 1 + Count(t.left), ipv4, h, FlipNetworkBit(network, depth, w), depth + 1, w, n,
        isRight);
    } else {
      NoSides(t, base, ipv4, h, network, depth, w);
    }
  }

  /** Each of the two records of each node is reported once when the object has the method for it, and else never. */
  lemma {:induction false} EachSideOnce(t: Tree, q: Path, base: nat, ipv4: nat, h: Handlers, network: nat, depth: nat,
                                        w: nat, isRight: bool)
    requires depth + Height(t) <= w && OnNode(t, q)
    ensures Sides(Visits(t, base, ipv4, h, network, depth, w))[(IndexAt(t, q, base), isRight)]
         == if Handled(Child(SubtreeAt(t, q), isRight), h) then 1 else 0
    decreases t
  {
    hide Visits, Sides, FlipNetworkBit, RecordVisit, Handled, OnNode, IndexAt, SubtreeAt, Count, Height;
    IndexCases(t, q, base);
    NodeHeight(t);
    var n, right, rightBase := IndexAt(t, q, base), FlipNetworkBit(network, depth, w), base + 1 + Count(t.left);
    SidesOfNode(t, base, ipv4, h, network, depth, w, n, isRight);
    if q == [] {
      NoOtherNode(t.left, base + 1, ipv4, h, network, depth + 1, w, n, isRight);
      NoOtherNode(t.right, rightBase, ipv4, h, right, depth + 1, w, n, isRight);
    } else if q[0] {
      NoOtherNode(t.left, base + 1, ipv4, h, network, depth + 1, w, n, isRight);
      EachSideOnce(t.right, q[1..], rightBase, ipv4, h, right, depth + 1, w, isRight);
    } else {
      EachSideOnce(t.left, q[1..], base + 1, ipv4, h, network, depth + 1, w, isRight);
      NoOtherNode(t.right, rightBase, ipv4, h, right, depth + 1, w, n, isRight);
    }
  }

  lemma IndexCases(t: Tree, q: Path, base: nat)
    requires OnNode(t, q)
    ensures IsNode(t)
    ensures q == [] ==> IndexAt(t, q, base) == base && SubtreeAt(t, q) == t
    ensures q != [] ==> OnNode(Child(t, q[0]), q[1..]) && SubtreeAt(t, q) == SubtreeAt(Child(t, q[0]), q[1..])
    ensures q != [] && q[0] ==>
      IndexAt(t, q, base) == IndexAt(t.right, q[1..], base + 1 + Count(t.left)) >= base + 1 + Count(t.left)
    ensures q != [] && !q[0] ==>
      IndexAt(t, q, base) == IndexAt(t.left, q[1..], base + 1) && base < IndexAt(t, q, base) < base + 1 + Count(t.left)
  {
  }

  /** Reports for a number: those of the two parts, and the node's own. */
  lemma SidesOfNode(t: Tree, base: nat, ipv4: nat, h: Handlers, network: nat, depth: nat, w: nat, n: nat, isRight: bool)
    requires depth + Height(t) <= w && IsNode(t)
    ensures var l := Visits(t.left, base + 1, ipv4, h, network, depth + 1, w);
      var r := Visits(t.right, base + 1 + Count(t.left), ipv4, h, FlipNetworkBit(network, depth, w), depth + 1, w);
      Sides(Visits(t, base, ipv4, h, network, depth, w))[(n, isRight)]
      == Sides(l)[(n, isRight)] + Sides(r)[(n, isRight)] + (if n == base && Handled(Child(t, isRight), h) then 1 else 0)
  {
    hide Visits, Sides, FlipNetworkBit, RecordVisit, Handled;
    VisitsOfNode(t, base, ipv4, h, network, depth, w);
    var right, rightBase := FlipNetworkBit(network, depth, w), base + 1 + Count(t.left);
    var l, r := Visits(t.left, base + 1, ipv4, h, network, depth + 1, w),
      Visits(t.right, rightBase, ipv4, h, right, depth + 1, w);
    var lv := RecordVisit(t.left, base + 1, ipv4, h, base, false, network, depth, network);
    var rv := RecordVisit(t.right, rightBase, ipv4, h, base, true, network, depth, right);
    SidesJoin(l, lv);
    SidesJoin(l + lv, rv);
    SidesJoin(l + lv + rv, r);
    OneSide(t.left, base + 1, ipv4, h, base, false, network, depth, network);
    OneSide(t.right, rightBase, ipv4, h, base, true, network, depth, right);
  }

  lemma OneSide(t: Tree, base: nat, ipv4: nat, h: Handlers, node: nat, isRight: bool, nodeNetwork: nat, nodeDepth: nat,
                network: nat)
    ensures Sides(RecordVisit(t, base, ipv4, h, node, isRight, nodeNetwork, nodeDepth, network))
         == if Handled(t, h) then multiset{(node, isRight)} else multiset{}
  {
    var vs := RecordVisit(t, base, ipv4, h, node, isRight, nodeNetwork, nodeDepth, network);
    assert Sides([]) == multiset{};
    if vs != [] { assert vs[1..] == []; }
  }

  lemma NoSides(t: Tree, base: nat, ipv4: nat, h: Handlers, network: nat, depth: nat, w: nat)
    requires depth + Height(t) <= w && !IsNode(t)
    ensures Sides(Visits(t, base, ipv4, h, network, depth, w)) == multiset{}
  {
  }

  // ---------- Every call ----------

  /** The argument for the record that q leads to. */
  function ArgumentAt(t: Tree, q: Path, base: nat, ipv4: nat): Argument {
    var record := SubtreeAt(t, q);
    if record.Data? then TheData(Some(record.v))
    else if record.Alias? then TheNode(ipv4)
    else if OnNode(t, q) then TheNode(IndexAt(t, q, base))
    else Nothing
  }

  /** The call for one side of the node that r leads to, in a part of the tree that lies at q. */
  function CallFor(t: Tree, q: Path, r: Path, b: bool, base: nat, ipv4: nat, w: nat): Visit
    requires OnNode(t, r) && |q| + Height(t) <= w
  {
    OnNodeFits(t, r);
    Visit(IndexAt(t, r, base), b, NetworkOf(q + r, w), |q + r|, NetworkOf(q + r + [b], w), |q + r| + 1,
      ArgumentAt(t, r + [b], base, ipv4))
  }

  lemma {:induction false} OnNodeFits(t: Tree, r: Path)
    requires OnNode(t, r)
    ensures |r| < Height(t)
  {
    if r != [] {
      OnNodeFits(if r[0] then t.right else t.left, r[1..]);
    }
  }

  lemma ArgumentHere(t: Tree, b: bool, base: nat, ipv4: nat)
    requires IsNode(t)
    ensures ArgumentAt(t, [b], base, ipv4)
         == ArgumentOf(Child(t, b), if b then base + 1 + Count(t.left) else base + 1, ipv4)
  {
    var child := Child(t, b);
    assert [b][1..] == [];
    assert SubtreeAt(t, [b]) == SubtreeAt(child, []) == child;
    assert OnNode(t, [b]) <==> OnNode(child, []);
    if IsNode(child) {
      assert IndexAt(t, [b], base) == IndexAt(child, [], if b then base + 1 + Count(t.left) else base + 1);
    }
  }

  lemma ArgumentBelow(t: Tree, q: Path, base: nat, ipv4: nat)
    requires IsNode(t) && q != []
    ensures ArgumentAt(t, q, base, ipv4)
         == ArgumentAt(Child(t, q[0]), q[1..], if q[0] then base + 1 + Count(t.left) else base + 1, ipv4)
  {
  }

  /** A node's own calls. */
  lemma OwnCall(t: Tree, q: Path, b: bool, base: nat, ipv4: nat, h: Handlers, w: nat)
    requires IsNode(t) && |q| + Height(t) <= w
    ensures |q| < w && NetworkOf(q + [false], w) == NetworkOf(q, w)
    ensures var child := Child(t, b);
      RecordVisit(child, if b then base + 1 + Count(t.left) else base + 1, ipv4, h, base, b, NetworkOf(q, w), |q|,
        NetworkOf(q + [b], w))
      == if Handled(child, h) then [CallFor(t, q, [], b, base, ipv4, w)] else []
  {
    hide NetworkOf, Count, ArgumentOf, ArgumentAt, SubtreeAt, Handled, Height, FlipNetworkBit;
    NodeHeight(t);
    FlipIsRight(q, w);
    ArgumentHere(t, b, base, ipv4);
    assert q + [] == q && [] + [b] == [b];
  }

  /** The calls below a node are those of its children. */
  lemma CallBelow(t: Tree, q: Path, r: Path, b: bool, base: nat, ipv4: nat, w: nat)
    requires OnNode(t, r) && r != [] && |q| + Height(t) <= w
    ensures var base' := if r[0] then base + 1 + Count(t.left) else base + 1;
      && OnNode(Child(t, r[0]), r[1..]) && |q + [r[0]]| + Height(Child(t, r[0])) <= w
      && CallFor(t, q, r, b, base, ipv4, w) == CallFor(Child(t, r[0]), q + [r[0]], r[1..], b, base', ipv4, w)
  {
    hide NetworkOf, Count, ArgumentAt, SubtreeAt, Height;
    NodeHeight(t);
    var rest := r[1..];
    assert q + r == q + [r[0]] + rest;
    assert q + r + [b] == q + [r[0]] + rest + [b];
    assert (r + [b])[1..] == rest + [b] && (r + [b])[0] == r[0];
    ArgumentBelow(t, r + [b], base, ipv4);
  }

  /** The call for a handled record is made... */
  lemma {:induction false} CallMade(t: Tree, q: Path, r: Path, b: bool, base: nat, ipv4: nat, h: Handlers, w: nat)
    requires OnNode(t, r) && |q| + Height(t) <= w && Handled(Child(SubtreeAt(t, r), b), h)
    ensures CallFor(t, q, r, b, base, ipv4, w) in Visits(t, base, ipv4, h, NetworkOf(q, w), |q|, w)
    decreases |r|
  {
    hide Visits, CallFor, NetworkOf, FlipNetworkBit, RecordVisit, Handled, Count;
    FlipIsRight(q, w);
    VisitsOfNode(t, base, ipv4, h, NetworkOf(q, w), |q|, w);
    if r == [] {
      OwnCall(t, q, b, base, ipv4, h, w);
    } else {
      CallBelow(t, q, r, b, base, ipv4, w);
      CallMade(Child(t, r[0]), q + [r[0]], r[1..], b, if r[0] then base + 1 + Count(t.left) else base + 1, ipv4, h, w);
    }
  }

  /** ...and no other. */
  lemma {:induction false} CallIsFor(t: Tree, q: Path, base: nat, ipv4: nat, h: Handlers, w: nat, v: Visit)
      returns (r: Path, b: bool)
    requires |q| + Height(t) <= w && v in Visits(t, base, ipv4, h, NetworkOf(q, w), |q|, w)
    ensures OnNode(t, r) && Handled(Child(SubtreeAt(t, r), b), h) && v == CallFor(t, q, r, b, base, ipv4, w)
    decreases t
  {
    hide Visits, CallFor, NetworkOf, FlipNetworkBit, RecordVisit, Handled, Count;
    if !IsNode(t) {
      NoVisits(t, base, ipv4, h, NetworkOf(q, w), |q|, w);
      assert false;
    }
    FlipIsRight(q, w);
    NodeHeight(t);
    VisitsOfNode(t, base, ipv4, h, NetworkOf(q, w), |q|, w);
    OwnCall(t, q, false, base, ipv4, h, w);
    OwnCall(t, q, true, base, ipv4, h, w);
    if v in Visits(t.left, base + 1, ipv4, h, NetworkOf(q + [false], w), |q| + 1, w) {
      var r', b' := CallIsFor(t.left, q + [false], base + 1, ipv4, h, w, v);
      r, b := [false] + r', b';
      assert r[1..] == r';
      CallBelow(t, q, r, b, base, ipv4, w);
    } else if v in Visits(t.right, base + 1 + Count(t.left), ipv4, h, NetworkOf(q + [true], w), |q| + 1, w) {
      var r', b' := CallIsFor(t.right, q + [true], base + 1 + Count(t.left), ipv4, h, w, v);
      r, b := [true] + r', b';
      assert r[1..] == r';
      CallBelow(t, q, r, b, base, ipv4, w);
    } else {
      r := [];
      b := v in RecordVisit(t.right, base + 1 + Count(t.left), ipv4, h, base, true, NetworkOf(q, w), |q|,
        NetworkOf(q + [true], w));
    }
  }

  /** Every call made for a whole tree is for one side of one node. Its arguments are that node's number, network and
      depth, the network and depth of the record on that side, and what the record is: its data, the number of the node
      it points at, the number of the IPv4 root for an alias, or nothing. */
  lemma CallsAreForRecords(t: Tree, w: nat, h: Handlers, v: Visit) returns (q: Path, b: bool)
    requires IsNode(t) && Height(t) <= w && v in Visits(t, 0, Ipv4Number(t, w), h, 0, 0, w)
    ensures OnNode(t, q) && |q| < w
    ensures v.node == IndexAt(t, q, 0) && v.nodeNetwork == NetworkOf(q, w) && v.nodeDepth == |q|
    ensures v.isRight == b && v.network == NetworkOf(q + [b], w) && v.depth == |q| + 1
    ensures var record := SubtreeAt(t, q + [b]);
      && (record.Data? ==> h.data && v.argument == TheData(Some(record.v)))
      && (IsNode(record) ==> h.node && OnNode(t, q + [b]) && v.argument == TheNode(IndexAt(t, q + [b], 0)))
      && (record.Alias? ==> h.node)
      && (record.Alias? && w >= IPV4_BITS && OnNode(t, Ipv4Root(w)) ==>
            v.argument == TheNode(IndexAt(t, Ipv4Root(w), 0)))
      && (record.Empty? || record.FixedEmpty? ==> h.empty && v.argument == Nothing)
  {
    hide Visits, NetworkOf, IndexAt;
    RootNetwork(w);
    q, b := CallIsFor(t, [], 0, Ipv4Number(t, w), h, w, v);
    OnNodeFits(t, q);
    assert [] + q == q;
    SubtreeChild(t, q, b);
    NodeBelow(t, q + [b]);
  }

  /** And for each side of each node the call is made, if the object has the method for its record. */
  lemma RecordsAreCalledFor(t: Tree, w: nat, h: Handlers, q: Path, b: bool)
    requires OnNode(t, q) && Height(t) <= w
    ensures var record := SubtreeAt(t, q + [b]);
      (exists v :: v in Visits(t, 0, Ipv4Number(t, w), h, 0, 0, w) && v.node == IndexAt(t, q, 0) && v.isRight == b)
      <==> if record.Data? then h.data else if record.Empty? || record.FixedEmpty? then h.empty else h.node
  {
    hide Visits, NetworkOf;
    RootNetwork(w);
    SubtreeChild(t, q, b);
    var record := SubtreeAt(t, q + [b]);
    if Handled(record, h) {
      CallMade(t, [], q, b, 0, Ipv4Number(t, w), h, w);
      assert CallFor(t, [], q, b, 0, Ipv4Number(t, w), w).node == IndexAt(t, q, 0);
    }
    if v :| v in Visits(t, 0, Ipv4Number(t, w), h, 0, 0, w) && v.node == IndexAt(t, q, 0) && v.isRight == b {
      var q', b' := CallIsFor(t, [], 0, Ipv4Number(t, w), h, w, v);
      assert IndexAt(t, q', 0) == IndexAt(t, q, 0);
      IndexInjective(t, q', q, 0);
    }
  }

  // ---------- In order ----------

  /** Where the right half of a call's node starts. */
  function Middle(v: Visit, w: nat): nat
    requires v.nodeDepth < w
  {
    v.nodeNetwork + Pow2(w - 1 - v.nodeDepth)
  }

  ghost predicate AllBetween(visits: seq<Visit>, low: nat, high: nat, w: nat) {
    forall v | v in visits :: v.nodeDepth < w && low < Middle(v, w) < high
  }

  ghost predicate InOrder(visits: seq<Visit>, w: nat) {
    && (forall v | v in visits :: v.nodeDepth < w)
    && forall i, j | 0 <= i < j < |visits| ::
         || Middle(visits[i], w) < Middle(visits[j], w)
         || (visits[i].node == visits[j].node && !visits[i].isRight && visits[j].isRight)
  }

  lemma OrderJoin(xs: seq<Visit>, ys: seq<Visit>, low: nat, cut: nat, high: nat, w: nat)
    requires low < cut <= high
    requires InOrder(xs, w) && InOrder(ys, w) && AllBetween(xs, low, cut, w) && AllBetween(ys, cut - 1, high, w)
    ensures InOrder(xs + ys, w) && AllBetween(xs + ys, low, high, w)
  {
    hide Middle;
    var all := xs + ys;
    forall i, j | 0 <= i < j < |all|
      ensures Middle(all[i], w) < Middle(all[j], w)
        || (all[i].node == all[j].node && !all[i].isRight && all[j].isRight)
    {
      if i < |xs| { assert all[i] in xs; }
      if j >= |xs| { assert all[j] in ys; }
    }
  }

  lemma OwnCallsInOrder(t: Tree, q: Path, base: nat, ipv4: nat, h: Handlers, w: nat)
    requires IsNode(t) && |q| < w
    ensures var own :=
        RecordVisit(t.left, base + 1, ipv4, h, base, false, NetworkOf(q, w), |q|, NetworkOf(q, w))
        + RecordVisit(t.right, base + 1 + Count(t.left), ipv4, h, base, true, NetworkOf(q, w), |q|,
          FlipNetworkBit(NetworkOf(q, w), |q|, w));
      var middle := NetworkOf(q, w) + Pow2(w - 1 - |q|);
      InOrder(own, w) && AllBetween(own, middle - 1, middle + 1, w)
  {
    hide NetworkOf, FlipNetworkBit, Pow2, Count, Handled, ArgumentOf;
  }

  /** The calls for a part of the tree lie between its first address and its last one. */
  lemma {:induction false} PartInOrder(t: Tree, q: Path, base: nat, ipv4: nat, h: Handlers, w: nat)
    requires |q| + Height(t) <= w
    ensures var visits := Visits(t, base, ipv4, h, NetworkOf(q, w), |q|, w);
      InOrder(visits, w) && AllBetween(visits, NetworkOf(q, w), NetworkOf(q, w) + Pow2(w - |q|), w)
    decreases t
  {
    hide Visits, NetworkOf, FlipNetworkBit, RecordVisit, Count, Pow2, InOrder, AllBetween, Height;
    var low, high := NetworkOf(q, w), NetworkOf(q, w) + Pow2(w - |q|);
    if !IsNode(t) {
      NoVisits(t, base, ipv4, h, low, |q|, w);
      NothingInOrder(low, high, w);
    } else {
      NodeHeight(t);
      HalfWay(q, w);
      FlipIsRight(q, w);
      var ql, qr, rightBase := q + [false], q + [true], base + 1 + Count(t.left);
      PartInOrder(t.left, ql, base + 1, ipv4, h, w);
      PartInOrder(t.right, qr, rightBase, ipv4, h, w);
      OwnCallsInOrder(t, q, base, ipv4, h, w);
      VisitsOfNode(t, base, ipv4, h, low, |q|, w);
      var l, r := Visits(t.left, base + 1, ipv4, h, NetworkOf(ql, w), |ql|, w),
        Visits(t.right, rightBase, ipv4, h, NetworkOf(qr, w), |qr|, w);
      var lv := RecordVisit(t.left, base + 1, ipv4, h, base, false, low, |q|, low);
      var rv := RecordVisit(t.right, rightBase, ipv4, h, base, true, low, |q|, NetworkOf(qr, w));
      var middle := NetworkOf(qr, w);
      OrderJoin(l, lv + rv, low, middle, middle + 1, w);
      OrderJoin(l + (lv + rv), r, low, middle + 1, high, w);
      Associates(l, lv, rv, r);
    }
  }

  lemma NothingInOrder(low: nat, high: nat, w: nat)
    ensures InOrder([], w) && AllBetween([], low, high, w)
  {
  }

  /** The calls for a whole tree come in the order of where the right halves of their nodes start, and those for one
      node left before right. */
  lemma CallsInOrder(t: Tree, w: nat, ipv4: nat, h: Handlers)
    requires IsNode(t) && Height(t) <= w
    ensures InOrder(Visits(t, 0, ipv4, h, 0, 0, w), w)
  {
    RootNetwork(w);
    PartInOrder(t, [], 0, ipv4, h, w);
  }

  // ---------- The methods ----------

  /** method_for_record_type: is there a method for the record? */
  method MethodForRecord(record: Record, h: Handlers, ghost tree: SearchTree, ghost s: Shape) returns (found: bool)
    requires record == s.rec && Linked(s) && Holds(s, tree.keyFor, tree.target)
    ensures found <==> Handled(Abs(s), h)
  {
    hide Linked, Holds, Records;
    TopRecord(s, tree.keyFor, tree.target);
    if record.value.EmptyRecord? || record.value.FixedEmptyRecord? {
      return h.empty;
    }
    if record.value.DataRecord? {
      return h.data;
    }
    return h.node;
  }

  /** call_iteration_method, for the record of shape s. */
  method CallForRecord(tree: SearchTree, record: Record, h: Handlers, node: nat, isRight: bool, nodeNetwork: nat,
                       nodeDepth: nat, network: nat,
                       ghost s: Shape, ghost base: nat, ghost ipv4: nat) returns (calls: seq<Visit>)
    requires record == s.rec && VisitReady(tree, s, base, ipv4)
    ensures calls == RecordVisit(Abs(s), base, ipv4, h, node, isRight, nodeNetwork, nodeDepth, network)
  {
    hide Linked, Holds, Records, Nodes, Held, Truthful, IsKeyFunction;
    ShapeAllocated(s);
    TopRecord(s, tree.keyFor, tree.target);
    ReadyTop(tree, s, base, ipv4);
    if Abs(s).Data? { DataIsThere(tree, s, base, ipv4); }
    var found := MethodForRecord(record, h, tree, s);
    if !found {
      return [];
    }
    var argument := Nothing;
    if record.value.DataRecord? {
      var data := tree.DataForKey(record.value.key);
      argument := TheData(data);
    } else if record.value.NodeRecord? || record.value.FixedNodeRecord? || record.value.AliasRecord? {
      argument := TheNode(record.value.node.number);
    }
    calls := [Visit(node, isRight, nodeNetwork, nodeDepth, network, nodeDepth + 1, argument)];
  }

  /** A part of the tree that is numbered from `base` on and whose data is known. */
  ghost predicate VisitReady(tree: SearchTree, s: Shape, base: nat, ipv4: nat)
    reads tree, Records(s), Nodes(s), tree.target
  {
    && IsKeyFunction(tree.keyFor) && Truthful(tree.table, tree.keyFor) && Complete(tree.table)
    && Linked(s) && Holds(s, tree.keyFor, tree.target) && Numbered(s, base)
    && (tree.target != null ==> tree.target.number == ipv4)
    && (forall k | k in Held(Abs(s), tree.keyFor) :: k in tree.table)
  }

  lemma ReadyTop(tree: SearchTree, s: Shape, base: nat, ipv4: nat)
    requires VisitReady(tree, s, base, ipv4)
    ensures s.Inner? ==> s.node.number == base
    ensures tree.target != null ==> tree.target.number == ipv4
  {
  }

  lemma DataIsThere(tree: SearchTree, s: Shape, base: nat, ipv4: nat)
    requires VisitReady(tree, s, base, ipv4) && Abs(s).Data?
    ensures var key := tree.keyFor(Abs(s).v); key in tree.table && tree.table[key].data == Some(Abs(s).v)
  {
    var key := tree.keyFor(Abs(s).v);
    assert key in Held(Abs(s), tree.keyFor);
    assert tree.keyFor(tree.table[key].data.value) == key;
  }

  lemma ReadyBelow(tree: SearchTree, s: Shape, base: nat, ipv4: nat)
    requires s.Inner? && VisitReady(tree, s, base, ipv4)
    ensures VisitReady(tree, s.left, base + 1, ipv4)
    ensures VisitReady(tree, s.right, base + 1 + Count(Abs(s.left)), ipv4)
    ensures s.node.left == s.left.rec && s.node.right == s.right.rec && s.node.number == base
    ensures Abs(s) == MakeNode(s.fixed, Abs(s.left), Abs(s.right))
  {
    hide Truthful, IsKeyFunction, Complete, Linked, Holds, Held, Numbered, Abs, Count, Records, Nodes;
    LinkedParts(s, tree.keyFor, tree.target);
    NumberedParts(s, base);
  }

  lemma NumberedParts(s: Shape, base: nat)
    requires s.Inner? && Numbered(s, base)
    ensures s.node.number == base && Numbered(s.left, base + 1) && Numbered(s.right, base + 1 + Count(Abs(s.left)))
  {
  }

  /** call_perl_object: the two records of one node. */
  method CallPerlObject(tree: SearchTree, node: TreeNode, h: Handlers, network: nat, depth: nat, ghost s: Shape,
                        ghost base: nat, ghost ipv4: nat)
      returns (calls: seq<Visit>)
    requires s.Inner? && node == s.node && VisitReady(tree, s, base, ipv4) && depth < tree.Width()
    ensures calls == RecordVisit(Abs(s.left), base + 1, ipv4, h, base, false, network, depth, network)
      + RecordVisit(Abs(s.right), base + 1 + Count(Abs(s.left)), ipv4, h, base, true, network, depth,
        FlipNetworkBit(network, depth, tree.Width()))
  {
    hide VisitReady, RecordVisit, FlipNetworkBit, Abs, Records, Nodes, Linked, Holds, Held;
    ShapeAllocated(s.left);
    ShapeAllocated(s.right);
    ReadyBelow(tree, s, base, ipv4);
    var left := CallForRecord(tree, node.left, h, node.number, false, network, depth, network, s.left, base + 1, ipv4);
    var right := CallForRecord(tree, node.right, h, node.number, true, network, depth,
      FlipNetworkBit(network, depth, 8 * tree.addressBytes),
                               s.right, base + 1 + Count(Abs(s.left)), ipv4);
    calls := left + right;
  }

  /** iterate_tree, depth first. */
  method IterateTree(tree: SearchTree, record: Record, h: Handlers, network: nat, depth: nat, ghost s: Shape,
                     ghost base: nat, ghost ipv4: nat)
      returns (calls: seq<Visit>)
    requires record == s.rec && VisitReady(tree, s, base, ipv4) && depth + Height(Abs(s)) <= tree.Width()
    ensures calls == Visits(Abs(s), base, ipv4, h, network, depth, tree.Width())
    decreases s
  {
    hide VisitReady, RecordVisit, FlipNetworkBit, Abs, Records, Nodes, Linked, Holds, Held, Visits, Height, Count;
    RecordKinds(tree, s, base, ipv4);
    if record.value.NodeRecord? || record.value.FixedNodeRecord? {
      var node := record.value.node;
      ShapeAllocated(s);
      ShapeAllocated(s.left);
      ShapeAllocated(s.right);
      ReadyBelow(tree, s, base, ipv4);
      HeightOfShape(s);
      var below := IterateTree(tree, node.left, h, network, depth + 1, s.left, base + 1, ipv4);
      var here := CallPerlObject(tree, node, h, network, depth, s, base, ipv4);
      var right := FlipNetworkBit(network, depth, 8 * tree.addressBytes);
      var after := IterateTree(tree, node.right, h, right, depth + 1, s.right, base + 1 + Count(Abs(s.left)), ipv4);
      VisitsOfNode(Abs(s), base, ipv4, h, network, depth, tree.Width());
      calls := below + here + after;
      Associates(below, RecordVisit(Abs(s.left), base + 1, ipv4, h, base, false, network, depth, network),
                 RecordVisit(Abs(s.right), base + 1 + Count(Abs(s.left)), ipv4, h, base, true, network, depth, right),
                 after);
    } else {
      NoVisits(Abs(s), base, ipv4, h, network, depth, tree.Width());
      calls := [];
    }
  }

  lemma Associates<T>(a: seq<T>, b: seq<T>, c: seq<T>, d: seq<T>)
    ensures a + (b + c) + d == a + b + c + d
  {
  }

  lemma RecordKinds(tree: SearchTree, s: Shape, base: nat, ipv4: nat)
    requires VisitReady(tree, s, base, ipv4)
    ensures s.Inner? <==> s.rec.value.NodeRecord? || s.rec.value.FixedNodeRecord?
    ensures s.Inner? ==> s.rec.value.node == s.node
    ensures IsNode(Abs(s)) <==> s.Inner?
  {
    TopRecord(s, tree.keyFor, tree.target);
  }

  lemma NoVisits(t: Tree, base: nat, ipv4: nat, h: Handlers, network: nat, depth: nat, w: nat)
    requires depth + Height(t) <= w && !IsNode(t)
    ensures Visits(t, base, ipv4, h, network, depth, w) == []
  {
  }

  /** iterate: the calls it makes, or None where it croaks. */
  method Iterate(tree: SearchTree, h: Handlers) returns (calls: Option<seq<Visit>>)
    requires tree.Valid() && Complete(tree.table)
    modifies tree`nodeCount, Nodes(tree.shape)
    ensures tree.Valid()
    ensures calls.Some? <==> IsNode(tree.Contents()) && h != Handlers(false, false, false)
    ensures calls.Some? ==>
      && Height(tree.Contents()) <= tree.Width()
      && calls.value == Visits(tree.Contents(), 0, Ipv4Number(tree.Contents(), tree.Width()), h, 0, 0, tree.Width())
  {
    hide Visits, Held, Abs, Records, Nodes, Linked, Holds, Numbered, Count, Height, WellFormed, AliasesOk,
      CacheTruthful;
    ShapeAllocated(tree.shape);
    var ok := AssignNodeNumbers(tree);
    if !ok || !(h.empty || h.node || h.data) {
      return None;
    }
    ghost var ipv4 := Ipv4Number(tree.Contents(), tree.Width());
    IterationStarts(tree, ipv4);
    var visits := IterateTree(tree, tree.root, h, 0, 0, tree.shape, 0, ipv4);
    calls := Some(visits);
  }

  lemma IterationStarts(tree: SearchTree, ipv4: nat)
    requires tree.Valid() && Complete(tree.table) && Numbered(tree.shape, 0)
    requires ipv4 == Ipv4Number(tree.Contents(), tree.Width())
    ensures VisitReady(tree, tree.shape, 0, ipv4) && Height(tree.Contents()) <= tree.Width()
  {
    if tree.target != null { TargetNumber(tree); }
    forall k | k in Held(tree.Contents(), tree.keyFor) ensures k in tree.table {
      assert k in Held(tree.Contents(), tree.keyFor) + tree.leaked + multiset{};
    }
  }
}
