/** What freezing a tree writes, and why inserting it again gives the same tree (c/tree.c:1404-1499, 1637-1697). */
module FrozenTree {
  import opened Data
  import opened Trie
  import opened TrieLaws
  import opened Address
  import opened CanonicalTree
  import opened FreshTree
  import opened Ranges
  import opened RangeUpdates
  import opened Numbering

  /** One data record: the first address of its network, its depth, and its key. */
  datatype FrozenNetwork = FrozenNetwork(network: nat, depth: nat, key: Key)

  /** flip_network_bit. */
  function FlipNetworkBit(network: nat, depth: nat, w: nat): nat
    requires depth < w
  {
    Or(network, Pow2(w - 1 - depth))
  }

  function FrozenData(t: Tree, network: nat, depth: nat, keyFor: Value -> Key): seq<FrozenNetwork> {
    if t.Data? then [FrozenNetwork(network, depth, keyFor(t.v))] else []
  }

  /** freeze_node over the whole tree: a node's two records come before what is below them. */
  function Emit(t: Tree, network: nat, depth: nat, w: nat, keyFor: Value -> Key): seq<FrozenNetwork>
    requires depth + Height(t) <= w
    decreases t
  {
    if !IsNode(t) then []
    else
      var right := FlipNetworkBit(network, depth, w);
      FrozenData(t.left, network, depth + 1, keyFor) + FrozenData(t.right, right, depth + 1, keyFor)
      + Emit(t.left, network, depth + 1, w, keyFor) + Emit(t.right, right, depth + 1, w, keyFor)
  }

  // ---------- The same by paths ----------

  function DataOp(t: Tree, q: Path): seq<Op> {
    if t.Data? then [Op(q, t, NoMerge)] else []
  }

  function EmitOps(t: Tree, q: Path): seq<Op> {
    if !IsNode(t) then []
    else
      DataOp(t.left, q + [false]) + DataOp(t.right, q + [true])
      + EmitOps(t.left, q + [false]) + EmitOps(t.right, q + [true])
  }

  /** The first address below q. */
  function NetworkOf(q: Path, w: nat): nat
    requires |q| <= w
  {
    NumberOf(q) * Pow2(w - |q|)
  }

  function FrozenOp(op: Op, w: nat, keyFor: Value -> Key): FrozenNetwork
    requires |op.p| <= w && op.rec.Data?
  {
    FrozenNetwork(NetworkOf(op.p, w), |op.p|, keyFor(op.rec.v))
  }

  ghost predicate DataOps(ops: seq<Op>, w: nat) {
    forall op | op in ops :: |op.p| <= w && op.rec.Data? && op.s == NoMerge
  }

  function FrozenOps(ops: seq<Op>, w: nat, keyFor: Value -> Key): (fs: seq<FrozenNetwork>)
    requires forall op | op in ops :: |op.p| <= w && op.rec.Data?
    ensures |fs| == |ops|
  {
    if ops == [] then [] else [FrozenOp(ops[0], w, keyFor)] + FrozenOps(ops[1..], w, keyFor)
  }

  lemma {:induction false} FrozenOpsJoin(xs: seq<Op>, ys: seq<Op>, w: nat, keyFor: Value -> Key)
    requires DataOps(xs, w) && DataOps(ys, w)
    ensures DataOps(xs + ys, w)
    ensures FrozenOps(xs + ys, w, keyFor) == FrozenOps(xs, w, keyFor) + FrozenOps(ys, w, keyFor)
  {
    hide FrozenOp;
    if xs == [] {
      assert xs + ys == ys;
    } else {
      assert (xs + ys)[1..] == xs[1..] + ys;
      FrozenOpsJoin(xs[1..], ys, w, keyFor);
    }
  }

  lemma {:induction false} OrBit(x: nat, k: nat)
    requires x % Pow2(k + 1) == 0
    ensures Or(x, Pow2(k)) == x + Pow2(k)
    decreases k
  {
    hide Pow2, Or;
    Pow2Step(k);
    ModHalves(x, k);
    OrStep(x, Pow2(k));
    if k == 0 {
      Pow2Step(0);
      SetsLow(x / 2, 0);
      ModOne(x / 2);
    } else {
      Pow2Step(k - 1);
      Halves(Pow2(k - 1));
      OrBit(x / 2, k - 1);
    }
  }

  /** Flipping the bit at a node's depth goes to the first address of its right record. */
  lemma FlipIsRight(q: Path, w: nat)
    requires |q| < w
    ensures NetworkOf(q + [false], w) == NetworkOf(q, w)
    ensures NetworkOf(q + [true], w) == FlipNetworkBit(NetworkOf(q, w), |q|, w)
  {
    hide Pow2, Or;
    var p := Pow2(w - 1 - |q|);
    var n := NumberOf(q);
    Pow2Step(w - 1 - |q|);
    assert (q + [false])[..|q|] == q && (q + [true])[..|q|] == q;
    assert NumberOf(q + [false]) == 2 * n && NumberOf(q + [true]) == 2 * n + 1;
    assert n * (2 * p) == 2 * n * p && (2 * n + 1) * p == 2 * n * p + p;
    DivModUnique(n * (2 * p), 2 * p, n, 0);
    OrBit(n * (2 * p), w - 1 - |q|);
  }

  lemma {:induction false} EmitIsFrozenOps(t: Tree, q: Path, w: nat, keyFor: Value -> Key)
    requires |q| + Height(t) <= w
    ensures DataOps(EmitOps(t, q), w)
    ensures Emit(t, NetworkOf(q, w), |q|, w, keyFor) == FrozenOps(EmitOps(t, q), w, keyFor)
    decreases t
  {
    hide NetworkOf, FlipNetworkBit;
    if IsNode(t) {
      FlipIsRight(q, w);
      var ql, qr := q + [false], q + [true];
      EmitIsFrozenOps(t.left, ql, w, keyFor);
      EmitIsFrozenOps(t.right, qr, w, keyFor);
      OneFrozen(t.left, ql, w, keyFor);
      OneFrozen(t.right, qr, w, keyFor);
      FrozenOpsJoin(DataOp(t.left, ql), DataOp(t.right, qr), w, keyFor);
      FrozenOpsJoin(DataOp(t.left, ql) + DataOp(t.right, qr), EmitOps(t.left, ql), w, keyFor);
      FrozenOpsJoin(DataOp(t.left, ql) + DataOp(t.right, qr) + EmitOps(t.left, ql), EmitOps(t.right, qr), w, keyFor);
    }
  }

  lemma OneFrozen(t: Tree, q: Path, w: nat, keyFor: Value -> Key)
    requires |q| <= w
    ensures DataOps(DataOp(t, q), w)
    ensures FrozenOps(DataOp(t, q), w, keyFor) == FrozenData(t, NetworkOf(q, w), |q|, keyFor)
  {
    if t.Data? {
      assert FrozenOps(DataOp(t, q)[1..], w, keyFor) == [];
    }
  }

  /** The record lies on one side of a node below q. */
  predicate OnSide(t: Tree, q: Path, op: Op) {
    |q| < |op.p| && q <= op.p && OnNode(t, op.p[|q|..|op.p| - 1])
  }

  /** Nodes in the order of their numbers, and the left record of a node before its right one. */
  function Rank(t: Tree, q: Path, base: nat, op: Op): nat
    requires OnSide(t, q, op)
  {
    2 * IndexAt(t, op.p[|q|..|op.p| - 1], base) + (if op.p[|op.p| - 1] then 1 else 0)
  }

  ghost predicate RanksWithin(t: Tree, q: Path, base: nat, ops: seq<Op>, low: nat, high: nat) {
    && (forall op | op in ops :: OnSide(t, q, op) && low <= Rank(t, q, base, op) < high)
    && (forall i, j | 0 <= i < j < |ops| :: Rank(t, q, base, ops[i]) < Rank(t, q, base, ops[j]))
  }

  lemma RanksJoin(t: Tree, q: Path, base: nat, xs: seq<Op>, ys: seq<Op>, low: nat, mid: nat, high: nat)
    requires RanksWithin(t, q, base, xs, low, mid) && RanksWithin(t, q, base, ys, mid, high) && low <= mid <= high
    ensures RanksWithin(t, q, base, xs + ys, low, high)
  {
    hide Rank, OnSide;
    var all := xs + ys;
    forall op | op in all ensures OnSide(t, q, op) && low <= Rank(t, q, base, op) < high {
    }
    forall i, j | 0 <= i < j < |all| ensures Rank(t, q, base, all[i]) < Rank(t, q, base, all[j]) {
      if i < |xs| { assert all[i] in xs; }
      if j >= |xs| { assert all[j] in ys; }
    }
  }

  lemma OwnRank(t: Tree, q: Path, base: nat, b: bool)
    requires IsNode(t)
    ensures var low := 2 * base + (if b then 1 else 0);
      RanksWithin(t, q, base, DataOp(Child(t, b), q + [b]), low, low + 1)
  {
    var p := q + [b];
    assert p[|q|..|p| - 1] == [];
  }

  lemma RanksBelow(t: Tree, q: Path, base: nat, b: bool, ops: seq<Op>, low: nat, high: nat)
    requires IsNode(t)
    requires RanksWithin(Child(t, b), q + [b], if b then base + 1 + Count(t.left) else base + 1, ops, low, high)
    ensures RanksWithin(t, q, base, ops, low, high)
  {
    hide Count;
    var base' := if b then base + 1 + Count(t.left) else base + 1;
    forall op | op in ops
      ensures OnSide(t, q, op) && Rank(t, q, base, op) == Rank(Child(t, b), q + [b], base', op)
    {
      var rest, below := op.p[|q|..|op.p| - 1], op.p[|q| + 1..|op.p| - 1];
      assert OnSide(Child(t, b), q + [b], op);
      assert op.p[|q|] == (q + [b])[|q|];
      assert rest[0] == b && rest[1..] == below;
      assert q == (q + [b])[..|q|] == op.p[..|q|];
    }
  }

  lemma NothingRanked(t: Tree, q: Path, base: nat)
    ensures RanksWithin(t, q, base, [], 2 * base, 2 * (base + Count(t)))
  {
  }

  lemma {:induction false} EmitRanks(t: Tree, q: Path, base: nat)
    ensures RanksWithin(t, q, base, EmitOps(t, q), 2 * base, 2 * (base + Count(t)))
    decreases t
  {
    hide RanksWithin, DataOp;
    if IsNode(t) {
      var ql, qr, rightBase := q + [false], q + [true], base + 1 + Count(t.left);
      var end := 2 * (base + Count(t));
      EmitRanks(t.left, ql, base + 1);
      EmitRanks(t.right, qr, rightBase);
      RanksBelow(t, q, base, false, EmitOps(t.left, ql), 2 * (base + 1), 2 * rightBase);
      RanksBelow(t, q, base, true, EmitOps(t.right, qr), 2 * rightBase, end);
      OwnRank(t, q, base, false);
      OwnRank(t, q, base, true);
      var l, r := DataOp(t.left, ql), DataOp(t.right, qr);
      RanksJoin(t, q, base, l, r, 2 * base, 2 * base + 1, 2 * base + 2);
      RanksJoin(t, q, base, l + r, EmitOps(t.left, ql), 2 * base, 2 * base + 2, 2 * rightBase);
      RanksJoin(t, q, base, l + r + EmitOps(t.left, ql), EmitOps(t.right, qr), 2 * base, 2 * rightBase, end);
    } else {
      NothingRanked(t, q, base);
    }
  }

  /** The networks are emitted in the order of the numbers of the nodes that their records belong to, and a node's left
      record before its right one. */
  lemma EmittedInOrder(t: Tree, i: nat, j: nat)
    requires i < j < |EmitOps(t, [])|
    ensures var p, q := EmitOps(t, [])[i].p, EmitOps(t, [])[j].p;
      && p != [] && q != []
      && var u, v := p[..|p| - 1], q[..|q| - 1];
         && OnNode(t, u) && OnNode(t, v)
         && (IndexAt(t, u, 0) < IndexAt(t, v, 0) || (u == v && !p[|p| - 1] && q[|q| - 1]))
  {
    hide EmitOps, IndexAt, Count, OnNode;
    EmitRanks(t, [], 0);
    var ops := EmitOps(t, []);
    var p, q := ops[i].p, ops[j].p;
    assert ops[i] in ops && ops[j] in ops;
    var u, v := p[..|p| - 1], q[..|q| - 1];
    assert p[0..|p| - 1] == u && q[0..|q| - 1] == v;
    if IndexAt(t, u, 0) == IndexAt(t, v, 0) { IndexInjective(t, u, v, 0); }
  }

  /** A network read back from its first address and depth. */
  lemma NetworkPathOf(q: Path, w: nat)
    requires |q| <= w
    ensures BlockPath(Block(NetworkOf(q, w), |q|), w) == q && NetworkOf(q, w) < Pow2(w)
  {
    hide Pow2;
    var d := Pow2(w - |q|);
    HighBits(NetworkOf(q, w), w, |q|);
    DivModUnique(NetworkOf(q, w), d, NumberOf(q), 0);
    MulMonotone(NumberOf(q) + 1, Pow2(|q|), d);
    Pow2Product(|q|, w - |q|);
    assert (NumberOf(q) + 1) * d == NumberOf(q) * d + d;
  }

  lemma {:induction false} Pow2Product(m: nat, n: nat)
    ensures Pow2(m) * Pow2(n) == Pow2(m + n)
  {
    hide Pow2;
    Pow2Step(0);
    if m > 0 {
      Pow2Product(m - 1, n);
      Pow2Step(m - 1);
      Pow2Step(m - 1 + n);
      assert 2 * Pow2(m - 1) * Pow2(n) == 2 * (Pow2(m - 1) * Pow2(n));
    }
  }

  // ---------- What is emitted ----------

  /** s leads from t to a data record. */
  predicate DataAt(t: Tree, s: Path)
    decreases |s|
  {
    if s == [] then t.Data? else IsNode(t) && DataAt(if s[0] then t.right else t.left, s[1..])
  }

  ghost predicate SoundOp(t: Tree, q: Path, op: Op) {
    && q <= op.p && op.s == NoMerge
    && DataAt(t, op.p[|q|..]) && op.rec == SubtreeAt(t, op.p[|q|..])
  }

  lemma SoundBelow(t: Tree, q: Path, b: bool, op: Op)
    requires IsNode(t) && SoundOp(if b then t.right else t.left, q + [b], op)
    ensures SoundOp(t, q, op)
  {
    var s := op.p[|q|..];
    assert op.p[|q + [b]|..] == s[1..];
    assert s[0] == op.p[|q|] == (q + [b])[|q|];
  }

  /** Every emitted network is that of a data record, with its data... */
  lemma {:induction false} EmitSound(t: Tree, q: Path)
    ensures forall op | op in EmitOps(t, q) :: SoundOp(t, q, op)
    decreases t
  {
    hide SoundOp;
    if IsNode(t) {
      EmitSound(t.left, q + [false]);
      EmitSound(t.right, q + [true]);
      forall op | op in EmitOps(t, q) ensures SoundOp(t, q, op) {
        if op in DataOp(t.left, q + [false]) + EmitOps(t.left, q + [false]) {
          DataOpSound(t.left, q + [false]);
          SoundBelow(t, q, false, op);
        } else {
          DataOpSound(t.right, q + [true]);
          SoundBelow(t, q, true, op);
        }
      }
    }
  }

  lemma DataOpSound(t: Tree, q: Path)
    ensures forall op | op in DataOp(t, q) :: SoundOp(t, q, op)
  {
  }

  /** ...and the network of every data record below the root is emitted. */
  lemma {:induction false} EmitComplete(t: Tree, q: Path, a: Path) returns (op: Op)
    requires IsNode(t) && Height(t) <= |a| && RecordAt(t, a).Data?
    ensures op in EmitOps(t, q) && op.p <= q + a
    decreases t
  {
    var child, q' := if a[0] then t.right else t.left, q + [a[0]];
    assert q + a == q' + a[1..];
    if IsNode(child) {
      op := EmitComplete(child, q', a[1..]);
    } else {
      op := Op(q', child, NoMerge);
      assert op in DataOp(child, q');
    }
  }

  lemma {:induction false} DataAtFacts(t: Tree, s: Path, a: Path)
    requires DataAt(t, s)
    ensures s <= a ==> RecordAt(t, a) == SubtreeAt(t, s)
    ensures !MeetsAlias(t, s) && SubtreeAt(t, s).Data? && |s| <= Height(t)
    decreases |s|
  {
    if s != [] {
      var child := if s[0] then t.right else t.left;
      if a != [] { PrefixStep(s, a); }
      DataAtFacts(child, s[1..], if a == [] then [] else a[1..]);
    }
  }

  // ---------- Inserting it again ----------

  /** The loop of thaw_tree: any failure ends it. */
  function Reinsert(t: Tree, ops: seq<Op>): Outcome
    decreases |ops|
  {
    if ops == [] then Outcome(Success, t)
    else
      var o := Apply(t, ops[0]);
      if o.status != Success then o else Reinsert(o.tree, ops[1..])
  }

  /** Overwriting where no alias is in the way always succeeds. */
  lemma {:induction false} ReinsertSucceeds(t: Tree, ops: seq<Op>, w: nat)
    requires Canonical(t, w) && DataOps(ops, w)
    requires forall op | op in ops :: !MeetsAlias(Skeleton(t), op.p)
    ensures Reinsert(t, ops) == Outcome(Success, Run(t, ops)) && Completes(t, ops)
    decreases |ops|
  {
    hide Canonical, Apply, MeetsAlias, Skeleton;
    if ops != [] {
      var op := ops[0];
      OverwriteSucceeds(t, op, w);
      ApplyKeepsCanonical(t, op, w);
      ReinsertSucceeds(Apply(t, op).tree, ops[1..], w);
    }
  }

  lemma OverwriteSucceeds(t: Tree, op: Op, w: nat)
    requires Canonical(t, w) && |op.p| <= w && op.rec.Data? && op.s == NoMerge && !MeetsAlias(Skeleton(t), op.p)
    ensures Apply(t, op).status == Success
  {
    AliasesInSkeleton(t, op.p);
    InsertSucceedsIff(t, op.p, false, op.rec, op.s, w);
  }

  ghost predicate Hit(ops: seq<Op>, a: Path) { exists op :: op in ops && op.p <= a }

  /** When all operations that reach an address bring the same record, that record is what they leave. */
  lemma {:induction false} FoldAgrees(skeleton: Tree, leaf: Tree, ops: seq<Op>, a: Path, last: Tree)
    requires forall op | op in ops :: op.s == NoMerge && op.rec.Data? && !MeetsAlias(skeleton, op.p)
    requires forall op | op in ops && op.p <= a :: op.rec == last
    requires Hit(ops, a) ==> IsUserRecord(leaf)
    ensures FoldRecord(skeleton, leaf, ops, a) == if Hit(ops, a) then last else leaf
    decreases |ops|
  {
    if ops != [] {
      var op, rest := ops[0], ops[1..];
      assert Hit(ops, a) <==> op.p <= a || Hit(rest, a) by {
        if Hit(ops, a) && !(op.p <= a) {
          var o :| o in ops && o.p <= a;
          assert o in rest;
        }
      }
      FoldAgrees(skeleton, UpdatedAt(leaf, op, a), rest, a, last);
    }
  }

  lemma {:induction false} SkeletonIdempotent(t: Tree)
    requires WellFormed(t)
    ensures Skeleton(Skeleton(t)) == Skeleton(t) && Height(Skeleton(t)) <= Height(t)
  {
    if t.FixedNode? {
      SkeletonIdempotent(t.left);
      SkeletonIdempotent(t.right);
    }
  }

  lemma {:induction false} SkeletonRecord(t: Tree, a: Path)
    requires WellFormed(t) && Height(t) <= |a|
    ensures RecordAt(Skeleton(t), a) == Skeleton(RecordAt(t, a))
    decreases t
  {
    if t.FixedNode? {
      SkeletonRecord(if a[0] then t.right else t.left, a[1..]);
    } else if t.Node? {
      PlainFacts(t);
      PlainRecords(t, a);
    }
  }

  // ---------- Trimmed everywhere ----------

  /** What is left when every trim that a croak skipped is made up for. */
  function TrimAll(t: Tree): Tree {
    if IsNode(t) then Trim(MakeNode(t.FixedNode?, TrimAll(t.left), TrimAll(t.right))) else t
  }

  lemma {:induction false} TrimAllKeepsPlain(t: Tree)
    requires Plain(t)
    ensures Plain(TrimAll(t))
  {
    if IsNode(t) {
      TrimAllKeepsPlain(t.left);
      TrimAllKeepsPlain(t.right);
    }
  }

  /** It is canonical and has the same fixed part... */
  lemma {:induction false} TrimAllIsCanonical(t: Tree, w: nat)
    requires WellFormed(t) && Height(t) <= w
    ensures Canonical(TrimAll(t), w) && Skeleton(TrimAll(t)) == Skeleton(t)
  {
    if t.Node? {
      PlainFacts(t);
      TrimAllKeepsPlain(t);
      PlainFacts(TrimAll(t));
      PlainFacts(t.left);
      PlainFacts(t.right);
    }
    if IsNode(t) {
      NodeHeight(t);
      TrimAllIsCanonical(t.left, w - 1);
      TrimAllIsCanonical(t.right, w - 1);
    }
  }

  /** ...the same record at every address... */
  lemma {:induction false} TrimAllRecords(t: Tree, a: Path)
    requires Height(t) <= |a|
    ensures RecordAt(TrimAll(t), a) == RecordAt(t, a)
    decreases t
  {
    if IsNode(t) {
      var l, r := TrimAll(t.left), TrimAll(t.right);
      TrimKeepsRecords(MakeNode(t.FixedNode?, l, r), a);
      TrimAllRecords(if a[0] then t.right else t.left, a[1..]);
    }
  }

  /** ...and where there was nothing to trim it is the tree itself. */
  lemma {:induction false} TrimAllOfTrimmed(t: Tree)
    requires Trimmed(t)
    ensures TrimAll(t) == t
  {
    if IsNode(t) {
      TrimAllOfTrimmed(t.left);
      TrimAllOfTrimmed(t.right);
    }
  }

  /** Inserting what was frozen into a tree that has the fixed part, and nothing else, gives the frozen tree,
      trimmed. */
  lemma ReinsertGivesBack(t: Tree, w: nat)
    requires WellFormed(t) && Height(t) <= w && IsNode(t)
    ensures Reinsert(Skeleton(t), EmitOps(t, [])) == Outcome(Success, TrimAll(t))
  {
    hide EmitOps, Skeleton, Run, FoldRecord, MeetsAlias, DataAt, SubtreeAt, Height, WellFormed, Trimmed, Hit, TrimAll;
    var ops, s := EmitOps(t, []), Skeleton(t);
    EmitIsFrozenOps(t, [], w, v => []);
    EmitSound(t, []);
    SkeletonIdempotent(t);
    BareIsTrimmed(s);
    forall op | op in ops ensures !MeetsAlias(s, op.p) {
      assert SoundOp(t, [], op) && op.p[0..] == op.p;
      DataAtFacts(t, op.p, []);
      AliasesInSkeleton(t, op.p);
    }
    ReinsertSucceeds(s, ops, w);
    TrimAllIsCanonical(t, w);
    forall a: Path | |a| == w ensures RecordAt(Run(s, ops), a) == RecordAt(TrimAll(t), a) {
      RunPointwise(s, ops, w, a);
      AtAddress(t, w, a);
      TrimAllRecords(t, a);
    }
    RunPointwise(s, ops, w, Zeros(w));
    CanonicalUnique(Run(s, ops), TrimAll(t), w);
  }

  lemma AtAddress(t: Tree, w: nat, a: Path)
    requires WellFormed(t) && Height(t) <= w && IsNode(t) && |a| == w
    ensures FoldRecord(Skeleton(t), RecordAt(Skeleton(t), a), EmitOps(t, []), a) == RecordAt(t, a)
  {
    hide EmitOps, FoldRecord, MeetsAlias, DataAt, SubtreeAt, Height, WellFormed, Trimmed;
    var ops, leaf := EmitOps(t, []), RecordAt(t, a);
    EmitSound(t, []);
    RecordIsLeaf(t, a);
    SkeletonRecord(t, a);
    forall op | op in ops
      ensures op.s == NoMerge && op.rec.Data? && !MeetsAlias(Skeleton(t), op.p)
      ensures op.p <= a ==> op.rec == leaf
    {
      assert SoundOp(t, [], op) && op.p[0..] == op.p;
      DataAtFacts(t, op.p, a);
      AliasesInSkeleton(t, op.p);
    }
    if leaf.Data? {
      var op := EmitComplete(t, [], a);
      assert [] + a == a;
      assert Hit(ops, a);
    }
    FoldAgrees(Skeleton(t), Skeleton(leaf), ops, a, leaf);
  }
}
