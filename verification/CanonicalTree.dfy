/** A trimmed tree is determined by its skeleton and its records, and what follows for orders of inserting. */
module CanonicalTree {
  import opened Data
  import opened Merge
  import opened MergeLaws
  import opened Trie
  import opened TrieLaws

  /** What every tree satisfies between two completed operations. */
  predicate Canonical(t: Tree, w: nat) { WellFormed(t) && Trimmed(t) && Height(t) <= w }

  ghost predicate SameRecords(t: Tree, u: Tree, w: nat) {
    forall a: Path | |a| == w :: RecordAt(t, a) == RecordAt(u, a)
  }

  lemma SameRecordsBelow(t: Tree, u: Tree, w: nat, b: bool)
    requires w > 0 && SameRecords(t, u, w)
    ensures SameRecords(Child(t, b), Child(u, b), w - 1)
  {
    forall a': Path | |a'| == w - 1
      ensures RecordAt(Child(t, b), a') == RecordAt(Child(u, b), a')
    {
      var a := [b] + a';
      assert a[0] == b && a[1..] == a';
      RecordBelow(t, [], a);
      RecordBelow(u, [], a);
      assert RecordAt(t, a) == RecordAt(u, a);
    }
  }

  lemma CanonicalBelow(t: Tree, w: nat, b: bool)
    requires Canonical(t, w) && IsNode(t)
    ensures w > 0 && Canonical(Child(t, b), w - 1)
    ensures t.Node? ==> Skeleton(Child(t, b)) == Empty
  {
    if t.Node? {
      PlainFacts(Child(t, b));
    }
  }

  /** Two canonical trees with one skeleton and the same record at every address are the same tree. */
  lemma {:induction false} CanonicalUnique(t: Tree, u: Tree, w: nat)
    requires Canonical(t, w) && Canonical(u, w)
    requires Skeleton(t) == Skeleton(u) && SameRecords(t, u, w)
    ensures t == u
    decreases w
  {
    if !IsNode(t) && !IsNode(u) {
      assert RecordAt(t, Zeros(w)) == RecordAt(u, Zeros(w));
    } else {
      if IsNode(t) { CanonicalBelow(t, w, false); CanonicalBelow(t, w, true); }
      if IsNode(u) { CanonicalBelow(u, w, false); CanonicalBelow(u, w, true); }
      if !IsNode(t) { LeafIsCanonical(t, w); }
      if !IsNode(u) { LeafIsCanonical(u, w); }
      SameRecordsBelow(t, u, w, false);
      SameRecordsBelow(t, u, w, true);
      CanonicalUnique(LeftOf(t), LeftOf(u), w - 1);
      CanonicalUnique(RightOf(t), RightOf(u), w - 1);
      UntrimmedImpossible(t, u);
      UntrimmedImpossible(u, t);
    }
  }

  lemma LeafIsCanonical(t: Tree, w: nat)
    requires Canonical(t, w) && !IsNode(t) && w > 0
    ensures Canonical(t, w - 1) && LeftOf(t) == t && RightOf(t) == t
  {
  }

  /** A trimmed plain node never stands for the same records as a leaf. */
  lemma UntrimmedImpossible(t: Tree, u: Tree)
    requires Trimmed(t) && Skeleton(t) == Skeleton(u)
    requires LeftOf(t) == LeftOf(u) && RightOf(t) == RightOf(u)
    ensures IsNode(t) ==> IsNode(u)
  {
  }

  // ---------- One user operation ----------

  /** Inserting data, or removing with rec == Empty and s == NoMerge. */
  datatype Op = Op(p: Path, rec: Tree, s: Strategy)

  predicate UserOp(op: Op, w: nat) { IsUserRecord(op.rec) && |op.p| <= w }

  function Apply(t: Tree, op: Op): Outcome { Insert(t, op.p, false, op.rec, op.s) }

  /** Everything a completed user operation guarantees, at one address. */
  function UpdatedAt(leaf: Tree, op: Op, a: Path): Tree {
    if op.p <= a then Updated(leaf, op.rec, op.s) else leaf
  }

  lemma ApplyKeepsCanonical(t: Tree, op: Op, w: nat)
    requires Canonical(t, w) && UserOp(op, w)
    requires Apply(t, op).status == Success
    ensures Canonical(Apply(t, op).tree, w)
    ensures Skeleton(Apply(t, op).tree) == Skeleton(t)
  {
    InsertKeepsWellFormed(t, op.p, false, op.rec, op.s);
    InsertKeepsTrimmed(t, op.p, false, op.rec, op.s);
    InsertKeepsHeight(t, op.p, false, op.rec, op.s, w);
    InsertKeepsSkeleton(t, op.p, false, op.rec, op.s);
  }

  lemma ApplyPointwise(t: Tree, op: Op, w: nat, a: Path)
    requires Canonical(t, w) && UserOp(op, w) && |a| == w
    requires Apply(t, op).status == Success
    ensures RecordAt(Apply(t, op).tree, a) == UpdatedAt(RecordAt(t, a), op, a)
  {
    InsertPointwise(t, op.p, false, op.rec, op.s, a);
  }

  /** Whether an alias is in the way can be read off the skeleton. */
  lemma {:induction false} AliasesInSkeleton(t: Tree, p: Path)
    requires WellFormed(t)
    ensures MeetsAlias(Skeleton(t), p) == MeetsAlias(t, p)
    decreases |p|
  {
    if t.Node? {
      PlainFacts(t);
      PlainMeetsNoAlias(t, p);
    } else if t.FixedNode? && p != [] {
      AliasesInSkeleton(if p[0] then t.right else t.left, p[1..]);
    }
  }

  /** An operation goes through on a second tree that agrees with the first on the operation's network. */
  lemma ApplySucceedsToo(t: Tree, u: Tree, op: Op, w: nat)
    requires Canonical(t, w) && Canonical(u, w) && UserOp(op, w)
    requires Skeleton(t) == Skeleton(u)
    requires forall a: Path | |a| == w && op.p <= a :: RecordAt(t, a) == RecordAt(u, a)
    requires Apply(t, op).status == Success
    ensures Apply(u, op).status == Success
  {
    AliasesInSkeleton(t, op.p);
    AliasesInSkeleton(u, op.p);
    InsertSucceedsIff(t, op.p, false, op.rec, op.s, w);
    InsertSucceedsIff(u, op.p, false, op.rec, op.s, w);
  }

  lemma ComparablePrefixes(p: Path, q: Path, a: Path)
    requires p <= a && q <= a
    ensures p <= q || q <= p
  {
    if |p| <= |q| {
      assert p == a[..|p|] == q[..|p|];
    } else {
      assert q == a[..|q|] == p[..|q|];
    }
  }

  /** Operations on disjoint networks commute, whatever their strategies. */
  lemma DisjointCommute(t: Tree, x: Op, y: Op, w: nat)
    requires Canonical(t, w) && UserOp(x, w) && UserOp(y, w)
    requires !(x.p <= y.p) && !(y.p <= x.p)
    requires Apply(t, x).status == Success && Apply(t, y).status == Success
    ensures Apply(Apply(t, x).tree, y).status == Success && Apply(Apply(t, y).tree, x).status == Success
    ensures Apply(Apply(t, x).tree, y).tree == Apply(Apply(t, y).tree, x).tree
  {
    var tx, ty := Apply(t, x).tree, Apply(t, y).tree;
    ApplyKeepsCanonical(t, x, w);
    ApplyKeepsCanonical(t, y, w);
    forall a: Path | |a| == w
      ensures RecordAt(tx, a) == UpdatedAt(RecordAt(t, a), x, a)
      ensures RecordAt(ty, a) == UpdatedAt(RecordAt(t, a), y, a)
      ensures !(x.p <= a && y.p <= a)
    {
      ApplyPointwise(t, x, w, a);
      ApplyPointwise(t, y, w, a);
      if x.p <= a && y.p <= a { ComparablePrefixes(x.p, y.p, a); }
    }
    ApplySucceedsToo(t, tx, y, w);
    ApplySucceedsToo(t, ty, x, w);
    var txy, tyx := Apply(tx, y).tree, Apply(ty, x).tree;
    ApplyKeepsCanonical(tx, y, w);
    ApplyKeepsCanonical(ty, x, w);
    forall a: Path | |a| == w ensures RecordAt(txy, a) == RecordAt(tyx, a) {
      ApplyPointwise(tx, y, w, a);
      ApplyPointwise(ty, x, w, a);
    }
    CanonicalUnique(txy, tyx, w);
  }

  /** The record takes the new data once and croaks when it is given the same data again: the new data has an object,
      and the record adds something to it. */
  predicate RefusesAgain(leaf: Tree, rec: Tree, s: Strategy) {
    s == Recurse && NeedsMerge(leaf, rec, s) && MeetsObject(s, rec.v) && Accepts(leaf, rec, s)
      && Updated(leaf, rec, s) != rec
  }

  /** Updating a leaf a second time with the same record changes nothing, and croaks exactly in the case above. */
  lemma UpdatedTwice(leaf: Tree, rec: Tree, s: Strategy)
    requires IsUserRecord(rec) && !IsNode(leaf) && Accepts(leaf, rec, s)
    ensures Updated(Updated(leaf, rec, s), rec, s) == Updated(leaf, rec, s)
    ensures Accepts(Updated(leaf, rec, s), rec, s) <==> !RefusesAgain(leaf, rec, s)
  {
    if NeedsMerge(leaf, rec, s) {
      MergeAbsorbs(s, rec.v, leaf.v);
    }
  }

  /** An input: {j: 1} takes {k: object}, and refuses it the second time. */
  lemma RefusesAgainExample(j: Bytes, k: Bytes, text: Bytes)
    requires j != k
    ensures var x, y := Data(Map(map[j := Scalar(text)])), Data(Map(map[k := Object(text)]));
      var both := Data(Map(map[j := Scalar(text), k := Object(text)]));
      && Insert(x, [], false, y, Recurse) == Outcome(Success, both)
      && Insert(both, [], false, y, Recurse) == Outcome(MergeMismatch, both)
  {
    var f, i := map[k := Object(text)], map[j := Scalar(text)];
    var merged := MergeValues(Recurse, Map(f), Map(i));
    assert merged.Some? && merged.value.entries == map[j := Scalar(text), k := Object(text)];
    assert k in f && MeetsObject(Recurse, f[k]);
    assert j in merged.value.entries && j !in f;
    MergeAbsorbs(Recurse, Map(f), Map(i));
    StopFacts(Data(Map(i)), [], false, Data(Map(f)), Recurse);
    StopFacts(Data(merged.value), [], false, Data(Map(f)), Recurse);
  }

  lemma ReinsertedRecord(t: Tree, op: Op, w: nat, a: Path)
    requires Canonical(t, w) && UserOp(op, w) && |a| == w && op.p <= a && Apply(t, op).status == Success
    ensures var after := RecordAt(Apply(t, op).tree, a);
      && Updated(after, op.rec, op.s) == after
      && (Accepts(after, op.rec, op.s) <==> !RefusesAgain(RecordAt(t, a), op.rec, op.s))
  {
    hide Insert, Updated, RefusesAgain;
    ApplyPointwise(t, op, w, a);
    SucceedsIff(t, op, w);
    RecordIsLeaf(t, a);
    UpdatedTwice(RecordAt(t, a), op.rec, op.s);
  }

  /** Inserting the same record again into the network, or into any part of it, changes no record. It goes through, and
      leaves the very same tree, exactly when no alias is in the way and no record below refuses it the second time. */
  lemma ReinsertInside(t: Tree, op: Op, q: Path, w: nat)
    requires Canonical(t, w) && UserOp(op, w) && op.p <= q && |q| <= w
    requires Apply(t, op).status == Success
    ensures var u := Apply(t, op).tree; var again := Insert(u, q, false, op.rec, op.s);
      && SameRecords(again.tree, u, w)
      && (again.status == Success || MeetsAlias(t, q) ==> again.tree == u)
      && (again.status == Success <==>
            !MeetsAlias(t, q) && forall a: Path | |a| == w && q <= a :: !RefusesAgain(RecordAt(t, a), op.rec, op.s))
  {
    hide Insert, Updated, Accepts, RefusesAgain, Canonical, MeetsAlias, Skeleton;
    var u := Apply(t, op).tree;
    var again := Op(q, op.rec, op.s);
    ApplyKeepsCanonical(t, op, w);
    CanonicalParts(t, w);
    CanonicalParts(u, w);
    forall a: Path | |a| == w && op.p <= a
      ensures RecordAt(u, a) == Updated(RecordAt(u, a), op.rec, op.s)
      ensures Accepts(RecordAt(u, a), op.rec, op.s) <==> !RefusesAgain(RecordAt(t, a), op.rec, op.s)
    {
      ReinsertedRecord(t, op, w, a);
    }
    SucceedsIff(u, again, w);
    SameAliases(t, u, q, w);
    forall a: Path | |a| == w && q <= a ensures op.p <= a {
      assert op.p == q[..|op.p|] == a[..|op.p|];
    }
    forall a: Path | |a| == w ensures RecordAt(Apply(u, again).tree, a) == RecordAt(u, a) {
      InsertPartial(u, q, false, op.rec, op.s, a);
    }
    if Apply(u, again).status == Success {
      ApplyKeepsCanonical(u, again, w);
      CanonicalUnique(Apply(u, again).tree, u, w);
    } else if MeetsAlias(t, q) {
      AliasRefused(u, q, op.rec, op.s);
    }
  }

  lemma CanonicalParts(t: Tree, w: nat)
    requires Canonical(t, w)
    ensures WellFormed(t) && Height(t) <= w
  {
  }

  lemma {:induction false} AliasFurtherDown(t: Tree, p: Path, q: Path)
    requires p <= q && MeetsAlias(t, p)
    ensures MeetsAlias(t, q)
    decreases |p|
  {
    if !t.Alias? {
      PrefixStep(p, q);
      AliasFurtherDown(if p[0] then t.right else t.left, p[1..], q[1..]);
    }
  }

  predicate HalvesSucceed(t: Tree, op: Op) {
    var lo, hi := Op(op.p + [false], op.rec, op.s), Op(op.p + [true], op.rec, op.s);
    Apply(t, lo).status == Success && Apply(Apply(t, lo).tree, hi).status == Success
  }

  /** Inserting the two halves of a network succeeds exactly when inserting the network does and neither half is
      aliased... */
  lemma HalvesSucceedIff(t: Tree, op: Op, w: nat)
    requires Canonical(t, w) && UserOp(op, w) && |op.p| < w
    ensures HalvesSucceed(t, op)
       <==> Apply(t, op).status == Success && !MeetsAlias(t, op.p + [false]) && !MeetsAlias(t, op.p + [true])
  {
    hide Insert, Canonical, MeetsAlias, Skeleton, Accepts, Updated;
    var lo, hi := Op(op.p + [false], op.rec, op.s), Op(op.p + [true], op.rec, op.s);
    var u := Apply(t, lo).tree;
    SucceedsIff(t, op, w);
    SucceedsIff(t, lo, w);
    HalvesAccept(t, op.p, op.rec, op.s, w);
    if MeetsAlias(t, op.p) { AliasFurtherDown(t, op.p, lo.p); }
    if Apply(t, lo).status == Success {
      ApplyKeepsCanonical(t, lo, w);
      SucceedsIff(u, hi, w);
      SameAliases(t, u, hi.p, w);
      forall a: Path | |a| == w && hi.p <= a ensures RecordAt(u, a) == RecordAt(t, a) {
        ApplyPointwise(t, lo, w, a);
        OneHalf(op.p, a);
        assert a[..|hi.p|][|op.p|] == a[|op.p|];
      }
    }
  }

  lemma SucceedsIff(t: Tree, op: Op, w: nat)
    requires Canonical(t, w) && UserOp(op, w)
    ensures Apply(t, op).status == Success <==> !MeetsAlias(t, op.p) && AllAccept(t, op.p, op.rec, op.s, w)
  {
    InsertSucceedsIff(t, op.p, false, op.rec, op.s, w);
  }

  lemma SameAliases(t: Tree, u: Tree, p: Path, w: nat)
    requires Canonical(t, w) && Canonical(u, w) && Skeleton(t) == Skeleton(u)
    ensures MeetsAlias(t, p) == MeetsAlias(u, p)
  {
    AliasesInSkeleton(t, p);
    AliasesInSkeleton(u, p);
  }

  lemma HalvesAccept(t: Tree, p: Path, rec: Tree, s: Strategy, w: nat)
    requires |p| < w
    ensures AllAccept(t, p, rec, s, w) <==> AllAccept(t, p + [false], rec, s, w) && AllAccept(t, p + [true], rec, s, w)
  {
    hide Accepts, RecordAt;
    forall a: Path | |a| == w ensures p <= a <==> p + [false] <= a || p + [true] <= a {
      OneHalf(p, a);
    }
  }

  /** ...and gives the same tree. */
  lemma TwoHalves(t: Tree, op: Op, w: nat)
    requires Canonical(t, w) && UserOp(op, w) && |op.p| < w && HalvesSucceed(t, op)
    ensures Apply(t, op).status == Success
    ensures Apply(t, op).tree
         == Apply(Apply(t, Op(op.p + [false], op.rec, op.s)).tree, Op(op.p + [true], op.rec, op.s)).tree
  {
    hide Insert, MeetsAlias;
    var lo, hi := Op(op.p + [false], op.rec, op.s), Op(op.p + [true], op.rec, op.s);
    var u := Apply(t, lo).tree;
    var v := Apply(u, hi).tree;
    HalvesSucceedIff(t, op, w);
    ApplyKeepsCanonical(t, lo, w);
    ApplyKeepsCanonical(u, hi, w);
    ApplyKeepsCanonical(t, op, w);
    forall a: Path | |a| == w ensures RecordAt(Apply(t, op).tree, a) == RecordAt(v, a) {
      ApplyPointwise(t, op, w, a);
      ApplyPointwise(t, lo, w, a);
      ApplyPointwise(u, hi, w, a);
      OneHalf(op.p, a);
    }
    CanonicalUnique(Apply(t, op).tree, v, w);
  }

  lemma OneHalf(p: Path, a: Path)
    requires |p| < |a|
    ensures p <= a <==> p + [a[|p|]] <= a
    ensures !(p + [!a[|p|]] <= a)
  {
    if p <= a {
      assert a[..|p| + 1] == p + [a[|p|]];
    }
    if p + [a[|p|]] <= a {
      assert p == (p + [a[|p|]])[..|p|] == a[..|p|];
    }
  }

  // ---------- Whole runs ----------

  /** Refused operations leave the tree alone; a croak ends the run. */
  predicate Refused(status: Status) { status == InsertIntoAliasNode || status == AliasOverwriteAttempt }

  function Run(t: Tree, ops: seq<Op>): Tree
    decreases |ops|
  {
    if ops == [] then t else Run(Apply(t, ops[0]).tree, ops[1..])
  }

  /** A run does one operation after the other. */
  lemma {:induction false} RunEndsWith(t: Tree, ops: seq<Op>, op: Op)
    ensures Run(t, []) == t && Run(t, ops + [op]) == Insert(Run(t, ops), op.p, false, op.rec, op.s).tree
    decreases |ops|
  {
    hide Insert;
    if ops == [] {
      assert [] + [op] == [op] && [op][1..] == [];
    } else {
      assert (ops + [op])[1..] == ops[1..] + [op];
      RunEndsWith(Apply(t, ops[0]).tree, ops[1..], op);
    }
  }

  /** No merge in the run croaks. */
  predicate Completes(t: Tree, ops: seq<Op>)
    decreases |ops|
  {
    ops != [] ==>
      && (Apply(t, ops[0]).status == Success || Refused(Apply(t, ops[0]).status))
      && Completes(Apply(t, ops[0]).tree, ops[1..])
  }

  /** The record that a run leaves at an address, computed from that address alone. */
  function FoldRecord(skeleton: Tree, leaf: Tree, ops: seq<Op>, a: Path): Tree
    decreases |ops|
  {
    if ops == [] then leaf
    else FoldRecord(skeleton, if MeetsAlias(skeleton, ops[0].p) then leaf else UpdatedAt(leaf, ops[0], a), ops[1..], a)
  }

  /** Any run of inserts and removes keeps the tree canonical and its skeleton fixed, and acts on each address alone. */
  lemma {:induction false} RunPointwise(t: Tree, ops: seq<Op>, w: nat, a: Path)
    requires Canonical(t, w) && (forall op | op in ops :: UserOp(op, w)) && |a| == w
    requires Completes(t, ops)
    ensures Canonical(Run(t, ops), w) && Skeleton(Run(t, ops)) == Skeleton(t)
    ensures RecordAt(Run(t, ops), a) == FoldRecord(Skeleton(t), RecordAt(t, a), ops, a)
    decreases |ops|
  {
    if ops != [] {
      var op := ops[0];
      assert UserOp(op, w);
      AliasesInSkeleton(t, op.p);
      if MeetsAlias(t, op.p) {
        AliasRefused(t, op.p, op.rec, op.s);
      } else {
        RefusedMeansAlias(t, op, w);
        ApplyKeepsCanonical(t, op, w);
        ApplyPointwise(t, op, w, a);
      }
      RunPointwise(Apply(t, op).tree, ops[1..], w, a);
    }
  }

  lemma {:induction false} RefusedMeansAlias(t: Tree, op: Op, w: nat)
    requires Canonical(t, w) && UserOp(op, w) && !MeetsAlias(t, op.p)
    ensures !Refused(Apply(t, op).status)
  {
    NotRefused(t, op.p, false, op.rec, op.s);
  }

  lemma {:induction false} NotRefused(t: Tree, p: Path, past: bool, rec: Tree, s: Strategy)
    requires WellFormed(t) && IsUserRecord(rec) && CanPlace(t, p, past) && (past ==> p == [])
    ensures !Refused(Insert(t, p, past, rec, s).status)
    decreases |p|, t
  {
    if Stops(t, p, past, rec, s) {
      StopFacts(t, p, past, rec, s);
      if t.Node? { PlainFacts(t); }
    } else {
      DescendFacts(t, p, past, rec, s);
      if t.Node? { PlainFacts(t.left); PlainFacts(t.right); }
      if p == [] {
        NotRefused(LeftOf(t), [], true, rec, s);
        NotRefused(RightOf(t), [], true, rec, s);
      } else {
        AliasBelow(t, p);
        NotRefused(Child(t, p[0]), p[1..], false, rec, s);
      }
    }
  }

  /** Two completed runs that agree address by address end in the same tree, node for node. */
  lemma SameFoldSameTree(t: Tree, xs: seq<Op>, ys: seq<Op>, w: nat)
    requires Canonical(t, w)
    requires (forall op | op in xs :: UserOp(op, w)) && (forall op | op in ys :: UserOp(op, w))
    requires Completes(t, xs) && Completes(t, ys)
    requires forall a: Path | |a| == w ::
      FoldRecord(Skeleton(t), RecordAt(t, a), xs, a) == FoldRecord(Skeleton(t), RecordAt(t, a), ys, a)
    ensures Run(t, xs) == Run(t, ys)
  {
    forall a: Path | |a| == w
      ensures RecordAt(Run(t, xs), a) == RecordAt(Run(t, ys), a)
    {
      RunPointwise(t, xs, w, a);
      RunPointwise(t, ys, w, a);
    }
    RunPointwise(t, xs, w, Zeros(w));
    RunPointwise(t, ys, w, Zeros(w));
    CanonicalUnique(Run(t, xs), Run(t, ys), w);
  }
}
