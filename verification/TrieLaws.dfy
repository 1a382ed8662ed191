/** What one insert does to the tree: pointwise meaning, success, shape, skeleton and trimming. */
module TrieLaws {
  import opened Data
  import opened Trie

  // ---------- Shape is kept ----------

  lemma {:induction false} PlainFacts(t: Tree)
    requires Plain(t)
    ensures WellFormed(t) && FreeStatus(t, false) == Success && Skeleton(t) == Empty
  {
    if t.Node? {
      PlainFacts(t.left);
      PlainFacts(t.right);
    }
  }

  /** Placing a record over a plain one. */
  lemma PlaceCases(t: Tree, rec: Tree, s: Strategy)
    requires Plain(t) && (t.Node? ==> s == NoMerge)
    ensures t.Empty? && s == AddOnly ==> Place(t, rec, s) == Outcome(Success, t)
    ensures !(t.Empty? && s == AddOnly) && !NeedsMerge(t, rec, s) ==> Place(t, rec, s) == Outcome(Success, rec)
    ensures NeedsMerge(t, rec, s) ==> rec.Data? && (Place(t, rec, s).status == Success ==> Place(t, rec, s).tree.Data?)
    ensures Place(t, rec, s).status != Success ==>
              && Place(t, rec, s).tree == t
              && (Place(t, rec, s).status == MergeNotHashes || Place(t, rec, s).status == MergeMismatch)
  {
    PlainFacts(t);
  }

  lemma {:induction false} StopFacts(t: Tree, p: Path, past: bool, rec: Tree, s: Strategy)
    requires Stops(t, p, past, rec, s)
    ensures Insert(t, p, past, rec, s) == StopOutcome(t, p, past, rec, s)
    ensures var o := StopOutcome(t, p, past, rec, s); o.tree == t || o.tree == rec || o.tree.Data?
  {
  }

  /** The recursive call for one child of an insert that does not stop. */
  function SideCall(child: Tree, taken: bool, p: Path, rec: Tree, s: Strategy): Outcome {
    if taken then Insert(child, if p == [] then [] else p[1..], p == [], rec, s) else Outcome(Success, child)
  }

  function LeftCall(t: Tree, p: Path, rec: Tree, s: Strategy): Outcome {
    SideCall(LeftOf(t), p == [] || !p[0], p, rec, s)
  }

  function RightCall(t: Tree, p: Path, rec: Tree, s: Strategy): Outcome {
    SideCall(RightOf(t), p == [] || p[0], p, rec, s)
  }

  /** The two sides of a descent, put together. */
  lemma SidesOutcome(fixed: bool, left: Tree, right: Tree, p: Path, nextIsRight: bool, rec: Tree, s: Strategy,
                     l: Outcome, r: Outcome)
    requires p != [] ==> p[0] == nextIsRight
    requires r == SideCall(right, nextIsRight || p == [], p, rec, s)
    requires r.status == Success ==> l == SideCall(left, !nextIsRight || p == [], p, rec, s)
    ensures var t := MakeNode(fixed, left, right);
      Untrimmed(fixed, left, LeftCall(t, p, rec, s), RightCall(t, p, rec, s))
      == if r.status == Success then Outcome(l.status, MakeNode(fixed, l.tree, r.tree))
         else Outcome(r.status, MakeNode(fixed, left, r.tree))
  {
  }

  /** Only the children matter to a descent, so splitting a leaf beforehand changes nothing. */
  lemma CombineIsTrim(fixed: bool, t: Tree, mid: Tree, p: Path, rec: Tree, s: Strategy)
    requires LeftOf(t) == LeftOf(mid) && RightOf(t) == RightOf(mid)
    ensures var u := Untrimmed(fixed, LeftOf(mid), LeftCall(mid, p, rec, s), RightCall(mid, p, rec, s));
      Combine(fixed, LeftOf(t), LeftCall(t, p, rec, s), RightCall(t, p, rec, s))
      == if u.status == Success then Outcome(Success, Trim(u.tree)) else u
  {
  }

  lemma {:induction false} DescendFacts(t: Tree, p: Path, past: bool, rec: Tree, s: Strategy)
    requires !Stops(t, p, past, rec, s)
    ensures IsNode(t) || (IsUserRecord(t) && p != [])
    ensures Insert(t, p, past, rec, s)
         == Combine(t.FixedNode? || IsFixed(rec), LeftOf(t), LeftCall(t, p, rec, s), RightCall(t, p, rec, s))
  {
  }

  lemma InsertCases(t: Tree, p: Path, past: bool, rec: Tree, s: Strategy)
    ensures Stops(t, p, past, rec, s) ==> Insert(t, p, past, rec, s) == StopOutcome(t, p, past, rec, s)
    ensures !Stops(t, p, past, rec, s) ==> IsNode(t) || (IsUserRecord(t) && p != [])
    ensures !Stops(t, p, past, rec, s) ==>
              Insert(t, p, past, rec, s)
              == Combine(t.FixedNode? || IsFixed(rec), LeftOf(t), LeftCall(t, p, rec, s), RightCall(t, p, rec, s))
  {
    if !Stops(t, p, past, rec, s) {
      DescendFacts(t, p, past, rec, s);
    }
  }

  /** The tree that a descent leaves is a node over one of the old or new children, or one of those after a trim. */
  lemma {:induction false} CombineCases(fixed: bool, before: Tree, l: Outcome, r: Outcome)
    ensures var c := Combine(fixed, before, l, r).tree;
      || c == MakeNode(fixed, before, r.tree)
      || c == MakeNode(fixed, l.tree, r.tree)
      || (!fixed && c == l.tree && IsUserRecord(c))
  {
  }

  /** Freeing with everything allowed stops nowhere. */
  lemma {:induction false} FreesEverything(t: Tree)
    ensures FreeStatus(t, true) == Success
  {
    if IsNode(t) {
      FreesEverything(t.left);
      FreesEverything(t.right);
    }
  }

  /** A user insert into a plain tree gives a plain tree, whatever its status. */
  lemma {:induction false} InsertKeepsPlain(t: Tree, p: Path, past: bool, rec: Tree, s: Strategy)
    requires Plain(t) && IsUserRecord(rec)
    ensures Plain(Insert(t, p, past, rec, s).tree)
    decreases |p|, t
  {
    if Stops(t, p, past, rec, s) {
      StopFacts(t, p, past, rec, s);
    } else {
      DescendFacts(t, p, past, rec, s);
      var rest := if p == [] then [] else p[1..];
      InsertKeepsPlain(LeftOf(t), rest, p == [], rec, s);
      InsertKeepsPlain(RightOf(t), rest, p == [], rec, s);
      CombineCases(false, LeftOf(t), LeftCall(t, p, rec, s), RightCall(t, p, rec, s));
    }
  }

  /** Every insert, user or internal, keeps plain nodes free of fixed records and aliases. */
  lemma {:induction false} InsertKeepsWellFormed(t: Tree, p: Path, past: bool, rec: Tree, s: Strategy)
    requires WellFormed(t) && IsNewRecord(rec)
    ensures WellFormed(Insert(t, p, past, rec, s).tree)
    decreases |p|, t
  {
    if Plain(t) && IsUserRecord(rec) {
      InsertKeepsPlain(t, p, past, rec, s);
      PlainFacts(Insert(t, p, past, rec, s).tree);
    } else if Stops(t, p, past, rec, s) {
      StopFacts(t, p, past, rec, s);
    } else {
      DescendFacts(t, p, past, rec, s);
      if t.Node? {
        PlainFacts(t.left);
        PlainFacts(t.right);
      }
      var rest := if p == [] then [] else p[1..];
      InsertKeepsWellFormed(LeftOf(t), rest, p == [], rec, s);
      InsertKeepsWellFormed(RightOf(t), rest, p == [], rec, s);
      CombineCases(true, LeftOf(t), LeftCall(t, p, rec, s), RightCall(t, p, rec, s));
    }
  }

  lemma NodeHeight(t: Tree)
    requires IsNode(t)
    ensures Height(t.left) < Height(t) && Height(t.right) < Height(t)
  {
  }

  /** No record ever lies deeper than the number of address bits. */
  lemma {:induction false} InsertKeepsHeight(t: Tree, p: Path, past: bool, rec: Tree, s: Strategy, w: nat)
    requires Height(t) <= w && |p| + Height(rec) <= w
    requires Height(rec) > 0 ==> !past && s == NoMerge && rec.FixedNode?
    ensures Height(Insert(t, p, past, rec, s).tree) <= w
    decreases |p|, t
  {
    if Stops(t, p, past, rec, s) {
      StopFacts(t, p, past, rec, s);
    } else {
      DescendFacts(t, p, past, rec, s);
      var rest := if p == [] then [] else p[1..];
      InsertKeepsHeight(LeftOf(t), rest, p == [], rec, s, w - 1);
      InsertKeepsHeight(RightOf(t), rest, p == [], rec, s, w - 1);
      CombineCases(t.FixedNode? || IsFixed(rec), LeftOf(t), LeftCall(t, p, rec, s), RightCall(t, p, rec, s));
    }
  }

  // ---------- Pointwise meaning ----------

  /** What an insert makes of one leaf inside its network: immutable leaves stay as they are. */
  function Updated(leaf: Tree, rec: Tree, s: Strategy): Tree {
    if !IsUserRecord(leaf) then leaf
    else if Place(leaf, rec, s).tree.FixedNode? then Empty
    else Place(leaf, rec, s).tree
  }

  /** Internal inserts always use the strategy that never merges. */
  predicate Allowed(rec: Tree, s: Strategy, past: bool) {
    IsNewRecord(rec) && (!IsUserRecord(rec) ==> s == NoMerge) && (rec.FixedNode? ==> !past)
  }

  lemma AllowedFacts(rec: Tree, s: Strategy)
    requires Allowed(rec, s, false)
    ensures IsNewRecord(rec) && (Height(rec) > 0 ==> s == NoMerge && rec.FixedNode?)
  {
  }

  lemma {:induction false} PlainRecords(t: Tree, a: Path)
    requires Plain(t) && Height(t) <= |a|
    ensures IsUserRecord(RecordAt(t, a))
  {
    if t.Node? {
      PlainRecords(if a[0] then t.right else t.left, a[1..]);
    }
  }

  lemma {:induction false} RecordIsLeaf(t: Tree, a: Path)
    requires Height(t) <= |a|
    ensures !IsNode(RecordAt(t, a))
  {
    if IsNode(t) {
      RecordIsLeaf(if a[0] then t.right else t.left, a[1..]);
    }
  }

  lemma TrimKeepsRecords(t: Tree, a: Path)
    requires a != []
    ensures RecordAt(Trim(t), a) == RecordAt(t, a)
  {
  }

  /** A walk through the result of a descent continues in the child that the first bit picks. */
  lemma CombineRecords(fixed: bool, before: Tree, l: Outcome, r: Outcome, a: Path)
    requires a != []
    ensures RecordAt(Combine(fixed, before, l, r).tree, a)
         == RecordAt(if a[0] then r.tree else if r.status == Success then l.tree else before, a[1..])
  {
    TrimKeepsRecords(MakeNode(fixed, l.tree, r.tree), a);
  }

  lemma StopPointwise(t: Tree, p: Path, past: bool, rec: Tree, s: Strategy, a: Path)
    requires Stops(t, p, past, rec, s)
    requires WellFormed(t) && Allowed(rec, s, past)
    requires Height(t) <= |a| && |p| + Height(rec) <= |a|
    ensures var o := StopOutcome(t, p, past, rec, s);
      && (o.status == Success ==>
            RecordAt(o.tree, a) == if p <= a then Updated(RecordAt(t, a), rec, s) else RecordAt(t, a))
      && (o.status != Success ==> o.tree == t)
  {
    if t.Node? {
      PlainFacts(t);
      PlainRecords(t, a);
      PlainFacts(RecordAt(t, a));
    }
  }

  /** Bit by bit, a prefix of an address continues or stops as the address does. */
  lemma PrefixStep(p: Path, a: Path)
    requires p != [] && a != []
    ensures p <= a <==> p[0] == a[0] && p[1..] <= a[1..]
  {
    if p <= a {
      assert p == a[..|p|];
      assert p[1..] == a[1..][..|p| - 1];
    }
    if p[0] == a[0] && p[1..] <= a[1..] {
      assert p == [p[0]] + p[1..];
      assert a == [a[0]] + a[1..];
    }
  }

  /** A successful insert replaces exactly the mutable leaves inside the network, each by its own update. */
  lemma {:induction false} InsertPointwise(t: Tree, p: Path, past: bool, rec: Tree, s: Strategy, a: Path)
    requires WellFormed(t) && Allowed(rec, s, past)
    requires Height(t) <= |a| && |p| + Height(rec) <= |a|
    requires Insert(t, p, past, rec, s).status == Success
    ensures RecordAt(Insert(t, p, past, rec, s).tree, a)
         == if p <= a then Updated(RecordAt(t, a), rec, s) else RecordAt(t, a)
    decreases |p|, t
  {
    if Stops(t, p, past, rec, s) {
      StopFacts(t, p, past, rec, s);
      StopPointwise(t, p, past, rec, s, a);
    } else {
      DescendFacts(t, p, past, rec, s);
      ChildrenFit(t, p, past, rec, s, a);
      CombineRecords(t.FixedNode? || IsFixed(rec), LeftOf(t), LeftCall(t, p, rec, s), RightCall(t, p, rec, s), a);
      if p == [] {
        InsertPointwise(if a[0] then RightOf(t) else LeftOf(t), [], true, rec, s, a[1..]);
      } else {
        PrefixStep(p, a);
        if p[0] == a[0] {
          InsertPointwise(if a[0] then RightOf(t) else LeftOf(t), p[1..], false, rec, s, a[1..]);
        }
      }
    }
  }

  lemma ChildrenFit(t: Tree, p: Path, past: bool, rec: Tree, s: Strategy, a: Path)
    requires WellFormed(t) && Allowed(rec, s, past)
    requires Height(t) <= |a| && |p| + Height(rec) <= |a|
    requires !Stops(t, p, past, rec, s)
    ensures a != []
    ensures WellFormed(LeftOf(t)) && WellFormed(RightOf(t))
    ensures Height(LeftOf(t)) <= |a| - 1 && Height(RightOf(t)) <= |a| - 1
    ensures p == [] ==> Allowed(rec, s, true) && Height(rec) == 0
    ensures RecordAt(t, a) == RecordAt(if a[0] then RightOf(t) else LeftOf(t), a[1..])
  {
    if t.Node? {
      PlainFacts(t.left);
      PlainFacts(t.right);
    }
  }

  /** Even when an insert fails half way, every leaf either keeps its record or has been updated. */
  lemma {:induction false} InsertPartial(t: Tree, p: Path, past: bool, rec: Tree, s: Strategy, a: Path)
    requires WellFormed(t) && Allowed(rec, s, past)
    requires Height(t) <= |a| && |p| + Height(rec) <= |a|
    ensures var after := RecordAt(Insert(t, p, past, rec, s).tree, a);
      after == RecordAt(t, a) || (p <= a && after == Updated(RecordAt(t, a), rec, s))
    decreases |p|, t
  {
    if Stops(t, p, past, rec, s) {
      StopFacts(t, p, past, rec, s);
      StopPointwise(t, p, past, rec, s, a);
    } else {
      DescendFacts(t, p, past, rec, s);
      ChildrenFit(t, p, past, rec, s, a);
      CombineRecords(t.FixedNode? || IsFixed(rec), LeftOf(t), LeftCall(t, p, rec, s), RightCall(t, p, rec, s), a);
      if p == [] {
        InsertPartial(if a[0] then RightOf(t) else LeftOf(t), [], true, rec, s, a[1..]);
      } else {
        PrefixStep(p, a);
        if p[0] == a[0] {
          InsertPartial(if a[0] then RightOf(t) else LeftOf(t), p[1..], false, rec, s, a[1..]);
        }
      }
    }
  }

  // ---------- When an insert succeeds ----------

  /** Does the path to the network meet an alias, or end on one? */
  predicate MeetsAlias(t: Tree, p: Path) {
    t.Alias? || (IsNode(t) && p != [] && MeetsAlias(if p[0] then t.right else t.left, p[1..]))
  }

  /** A user insert at or inside an aliased network is refused and changes nothing. */
  lemma {:induction false} AliasRefused(t: Tree, p: Path, rec: Tree, s: Strategy)
    requires WellFormed(t) && IsUserRecord(rec) && MeetsAlias(t, p)
    ensures Insert(t, p, false, rec, s).tree == t
    ensures Insert(t, p, false, rec, s).status == if SubtreeAt(t, p).Alias? then AliasOverwriteAttempt
      else InsertIntoAliasNode
    decreases |p|
  {
    if !t.Alias? {
      if t.Node? {
        PlainMeetsNoAlias(t, p);
      } else {
        AliasRefused(if p[0] then t.right else t.left, p[1..], rec, s);
      }
    }
  }

  lemma {:induction false} PlainMeetsNoAlias(t: Tree, p: Path)
    requires Plain(t)
    ensures !MeetsAlias(t, p)
  {
    if t.Node? && p != [] {
      PlainMeetsNoAlias(if p[0] then t.right else t.left, p[1..]);
    }
  }

  /** Can this leaf take the record without a croak? */
  predicate Accepts(leaf: Tree, rec: Tree, s: Strategy) {
    IsUserRecord(leaf) ==> Place(leaf, rec, s).status == Success
  }

  /** Every leaf of the network accepts the record. */
  ghost predicate AllAccept(t: Tree, p: Path, rec: Tree, s: Strategy, w: nat) {
    forall a: Path | |a| == w && p <= a :: Accepts(RecordAt(t, a), rec, s)
  }

  function Zeros(n: nat): (z: Path)
    ensures |z| == n
  {
    seq(n, _ => false)
  }

  lemma AcceptAtLeaf(t: Tree, p: Path, rec: Tree, s: Strategy, w: nat)
    requires !IsNode(t) && |p| <= w
    ensures AllAccept(t, p, rec, s, w) <==> Accepts(t, rec, s)
  {
    var a := p + Zeros(w - |p|);
    assert |a| == w && p <= a && RecordAt(t, a) == t;
  }

  function Child(t: Tree, b: bool): Tree { if b then RightOf(t) else LeftOf(t) }

  lemma RecordBelow(t: Tree, p: Path, a: Path)
    requires a != []
    ensures RecordAt(t, a) == RecordAt(Child(t, a[0]), a[1..])
    ensures p != [] ==> (p <= a <==> p[0] == a[0] && p[1..] <= a[1..])
  {
    if p != [] { PrefixStep(p, a); }
  }

  /** What the whole network accepts, each child on its way accepts. */
  lemma AcceptChild(t: Tree, p: Path, rec: Tree, s: Strategy, w: nat, b: bool)
    requires w > 0 && AllAccept(t, p, rec, s, w)
    requires p != [] ==> p[0] == b
    ensures AllAccept(Child(t, b), if p == [] then [] else p[1..], rec, s, w - 1)
  {
    var rest := if p == [] then [] else p[1..];
    forall a': Path | |a'| == w - 1 && rest <= a'
      ensures Accepts(RecordAt(Child(t, b), a'), rec, s)
    {
      var a := [b] + a';
      assert a[0] == b && a[1..] == a';
      RecordBelow(t, p, a);
      assert |a| == w && p <= a;
    }
  }

  lemma AcceptJoin(t: Tree, p: Path, rec: Tree, s: Strategy, w: nat)
    requires w > 0
    requires forall b | p == [] || p[0] == b :: AllAccept(Child(t, b), if p == [] then [] else p[1..], rec, s, w - 1)
    ensures AllAccept(t, p, rec, s, w)
  {
    forall a: Path | |a| == w && p <= a ensures Accepts(RecordAt(t, a), rec, s) {
      RecordBelow(t, p, a);
      assert AllAccept(Child(t, a[0]), if p == [] then [] else p[1..], rec, s, w - 1);
    }
  }

  lemma {:induction false} PlainNodeAccepts(t: Tree, p: Path, rec: Tree, w: nat)
    requires Plain(t) && IsUserRecord(rec) && Height(t) <= w
    ensures AllAccept(t, p, rec, NoMerge, w)
  {
    forall a: Path | |a| == w && p <= a ensures Accepts(RecordAt(t, a), rec, NoMerge) {
      PlainRecords(t, a);
      PlainFacts(RecordAt(t, a));
    }
  }

  lemma AcceptBoth(t: Tree, rec: Tree, s: Strategy, w: nat)
    requires w > 0
    ensures AllAccept(t, [], rec, s, w)
        <==> AllAccept(LeftOf(t), [], rec, s, w - 1) && AllAccept(RightOf(t), [], rec, s, w - 1)
  {
    if AllAccept(t, [], rec, s, w) {
      AcceptChild(t, [], rec, s, w, false);
      AcceptChild(t, [], rec, s, w, true);
    }
    if AllAccept(LeftOf(t), [], rec, s, w - 1) && AllAccept(RightOf(t), [], rec, s, w - 1) {
      AcceptJoin(t, [], rec, s, w);
    }
  }

  lemma AcceptOne(t: Tree, p: Path, rec: Tree, s: Strategy, w: nat)
    requires w > 0 && p != []
    ensures AllAccept(t, p, rec, s, w) <==> AllAccept(Child(t, p[0]), p[1..], rec, s, w - 1)
  {
    if AllAccept(t, p, rec, s, w) {
      AcceptChild(t, p, rec, s, w, p[0]);
    }
    if AllAccept(Child(t, p[0]), p[1..], rec, s, w - 1) {
      AcceptJoin(t, p, rec, s, w);
    }
  }

  /** A descent past the prefix succeeds when both children do; before it, when the one on the path does. */
  lemma DescentSucceeds(t: Tree, p: Path, past: bool, rec: Tree, s: Strategy)
    requires !Stops(t, p, past, rec, s)
    ensures p == [] ==> (Insert(t, p, past, rec, s).status == Success <==>
              Insert(LeftOf(t), [], true, rec, s).status == Success
                && Insert(RightOf(t), [], true, rec, s).status == Success)
    ensures p != [] ==> (Insert(t, p, past, rec, s).status == Success <==>
              Insert(Child(t, p[0]), p[1..], false, rec, s).status == Success)
  {
    DescendFacts(t, p, past, rec, s);
  }

  predicate CanPlace(t: Tree, p: Path, past: bool) { past || !MeetsAlias(t, p) }

  /** A user insert succeeds exactly when its path meets no alias and every leaf of the network takes the record. */
  lemma {:induction false} InsertSucceedsIff(t: Tree, p: Path, past: bool, rec: Tree, s: Strategy, w: nat)
    requires WellFormed(t) && IsUserRecord(rec) && Height(t) <= w && |p| <= w
    requires past ==> p == []
    ensures Insert(t, p, past, rec, s).status == Success <==> CanPlace(t, p, past) && AllAccept(t, p, rec, s, w)
    decreases |p|, t
  {
    if Stops(t, p, past, rec, s) {
      StopSucceedsIff(t, p, past, rec, s, w);
    } else {
      DescentSucceeds(t, p, past, rec, s);
      ChildrenFit(t, p, past, rec, s, Zeros(w));
      if p == [] {
        InsertSucceedsIff(LeftOf(t), [], true, rec, s, w - 1);
        InsertSucceedsIff(RightOf(t), [], true, rec, s, w - 1);
        AcceptBoth(t, rec, s, w);
      } else {
        InsertSucceedsIff(Child(t, p[0]), p[1..], false, rec, s, w - 1);
        AliasBelow(t, p);
        AcceptOne(t, p, rec, s, w);
      }
    }
  }

  lemma AliasBelow(t: Tree, p: Path)
    requires p != [] && !t.Alias?
    ensures MeetsAlias(t, p) == MeetsAlias(Child(t, p[0]), p[1..])
  {
  }

  lemma StopSucceedsIff(t: Tree, p: Path, past: bool, rec: Tree, s: Strategy, w: nat)
    requires WellFormed(t) && IsUserRecord(rec) && Height(t) <= w && |p| <= w
    requires Stops(t, p, past, rec, s) && (past ==> p == [])
    ensures Insert(t, p, past, rec, s).status == Success <==> CanPlace(t, p, past) && AllAccept(t, p, rec, s, w)
  {
    StopFacts(t, p, past, rec, s);
    if t.Node? {
      PlainFacts(t);
      PlainNodeAccepts(t, p, rec, w);
    } else {
      AcceptAtLeaf(t, p, rec, s, w);
    }
  }

  // ---------- Skeleton ----------

  /** User inserts never change which records are fixed, fixed empty or aliases, whatever their status. */
  lemma {:induction false} InsertKeepsSkeleton(t: Tree, p: Path, past: bool, rec: Tree, s: Strategy)
    requires WellFormed(t) && IsUserRecord(rec)
    ensures Skeleton(Insert(t, p, past, rec, s).tree) == Skeleton(t)
    decreases |p|, t
  {
    if Plain(t) {
      PlainFacts(t);
      InsertKeepsPlain(t, p, past, rec, s);
      PlainFacts(Insert(t, p, past, rec, s).tree);
    } else if Stops(t, p, past, rec, s) {
      StopFacts(t, p, past, rec, s);
    } else {
      DescendFacts(t, p, past, rec, s);
      var rest := if p == [] then [] else p[1..];
      InsertKeepsSkeleton(LeftOf(t), rest, p == [], rec, s);
      InsertKeepsSkeleton(RightOf(t), rest, p == [], rec, s);
      CombineCases(true, LeftOf(t), LeftCall(t, p, rec, s), RightCall(t, p, rec, s));
    }
  }

  /** Internal inserts only ever add to the skeleton: fixed nodes and aliases stay where they are. */
  lemma {:induction false} FixedRecordsStay(t: Tree, p: Path, past: bool, rec: Tree, s: Strategy, q: Path)
    requires ThroughFixed(t, q) && (SubtreeAt(t, q).FixedNode? || SubtreeAt(t, q).Alias?)
    ensures var t' := Insert(t, p, past, rec, s).tree;
      && ThroughFixed(t', q)
      && (SubtreeAt(t, q).FixedNode? ==> SubtreeAt(t', q).FixedNode?)
      && (SubtreeAt(t, q).Alias? ==> SubtreeAt(t', q).Alias?)
    decreases |q|
  {
    if Stops(t, p, past, rec, s) {
      StopFacts(t, p, past, rec, s);
    } else {
      DescendFacts(t, p, past, rec, s);
      CombineCases(true, LeftOf(t), LeftCall(t, p, rec, s), RightCall(t, p, rec, s));
      if q != [] {
        var rest := if p == [] then [] else p[1..];
        FixedRecordsStay(if q[0] then t.right else t.left, rest, p == [], rec, s, q[1..]);
      }
    }
  }

  // ---------- Trimming ----------

  /** A successful insert leaves nothing to trim. */
  lemma {:induction false} InsertKeepsTrimmed(t: Tree, p: Path, past: bool, rec: Tree, s: Strategy)
    requires Trimmed(t) && IsNewRecord(rec)
    requires Insert(t, p, past, rec, s).status == Success
    ensures Trimmed(Insert(t, p, past, rec, s).tree)
    decreases |p|, t
  {
    if Stops(t, p, past, rec, s) {
      StopFacts(t, p, past, rec, s);
    } else {
      DescendFacts(t, p, past, rec, s);
      if p == [] || p[0] {
        InsertKeepsTrimmed(RightOf(t), if p == [] then [] else p[1..], p == [], rec, s);
      }
      if p == [] || !p[0] {
        InsertKeepsTrimmed(LeftOf(t), if p == [] then [] else p[1..], p == [], rec, s);
      }
    }
  }

  // ---------- Overwriting ----------

  predicate Croaks(status: Status) { status == MergeNotHashes || status == MergeMismatch }

  lemma {:induction false} FreeNeverCroaks(t: Tree, removeAll: bool)
    ensures !Croaks(FreeStatus(t, removeAll))
  {
    if IsNode(t) {
      FreeNeverCroaks(t.left, removeAll);
      FreeNeverCroaks(t.right, removeAll);
    }
  }

  /** Without merging there is no croak. */
  lemma {:induction false} OverwriteNeverCroaks(t: Tree, p: Path, past: bool, rec: Tree)
    ensures !Croaks(Insert(t, p, past, rec, NoMerge).status)
    decreases |p|, t
  {
    InsertCases(t, p, past, rec, NoMerge);
    if Stops(t, p, past, rec, NoMerge) {
      FreeNeverCroaks(t, false);
    } else {
      var rest := if p == [] then [] else p[1..];
      OverwriteNeverCroaks(LeftOf(t), rest, p == [], rec);
      OverwriteNeverCroaks(RightOf(t), rest, p == [], rec);
    }
  }

  predicate FreesFixed(status: Status) {
    status == FreedAliasNode || status == FreedFixedEmpty || status == FreedFixedNode
  }

  /** The errors for freeing a fixed record or an alias cannot occur: nothing of the kind lies below a plain node. */
  lemma {:induction false} NeverFreesFixed(t: Tree, p: Path, past: bool, rec: Tree, s: Strategy)
    requires WellFormed(t)
    ensures !FreesFixed(Insert(t, p, past, rec, s).status)
    decreases |p|, t
  {
    InsertCases(t, p, past, rec, s);
    if Stops(t, p, past, rec, s) {
      if t.Node? { PlainFacts(t); }
    } else {
      if t.Node? { PlainFacts(t.left); PlainFacts(t.right); }
      var rest := if p == [] then [] else p[1..];
      NeverFreesFixed(LeftOf(t), rest, p == [], rec, s);
      NeverFreesFixed(RightOf(t), rest, p == [], rec, s);
    }
  }
}
