/** What an insert leaves that does not succeed: which records it has updated, and what it has not trimmed. */
module FailedInserts {
  import opened Data
  import opened MergeLaws
  import opened Trie
  import opened TrieLaws
  import opened CanonicalTree
  import opened Refusals

  // ---------- Records ----------

  /** The insert gets to the address b: every record of the network from the largest address down to b takes the new
      one. */
  ghost predicate GetsTo(t: Tree, p: Path, rec: Tree, s: Strategy, b: Path) {
    p <= b && forall a: Path | |a| == |b| && p <= a && (a == b || Above(a, b)) :: Accepts(RecordAt(t, a), rec, s)
  }

  /** Whatever its status, an insert updates exactly the records that it gets to. */
  lemma {:induction false} InsertExact(t: Tree, p: Path, past: bool, rec: Tree, s: Strategy, b: Path)
    requires WellFormed(t) && IsUserRecord(rec) && Height(t) <= |b| && |p| <= |b| && (past ==> p == [])
    ensures RecordAt(Insert(t, p, past, rec, s).tree, b)
         == if CanPlace(t, p, past) && GetsTo(t, p, rec, s, b) then Updated(RecordAt(t, b), rec, s) else RecordAt(t, b)
    decreases |p|, t
  {
    hide Insert, Stops, StopOutcome, Updated, Accepts, MeetsAlias, GetsTo, Skeleton;
    InsertSucceedsIff(t, p, past, rec, s, |b|);
    if Stops(t, p, past, rec, s) {
      StopExact(t, p, past, rec, s, b);
    } else {
      DescentStatus(t, p, past, rec, s);
      DescendFacts(t, p, past, rec, s);
      ChildrenFit(t, p, past, rec, s, b);
      CombineRecords(t.FixedNode? || IsFixed(rec), LeftOf(t), LeftCall(t, p, rec, s), RightCall(t, p, rec, s), b);
      RecordBelow(t, p, b);
      if p == [] {
        NoAliasHere(t);
        InsertExact(Child(t, b[0]), [], true, rec, s, b[1..]);
        InsertSucceedsIff(RightOf(t), [], true, rec, s, |b| - 1);
        GetsBelow(t, [], rec, s, b);
      } else {
        AliasBelow(t, p);
        if p[0] == b[0] {
          InsertExact(Child(t, p[0]), p[1..], false, rec, s, b[1..]);
          GetsBelow(t, p, rec, s, b);
        } else {
          NotInside(t, p, rec, s, b);
        }
      }
    }
  }

  lemma NoAliasHere(t: Tree)
    requires !t.Alias?
    ensures !MeetsAlias(t, [])
  {
  }

  lemma NotInside(t: Tree, p: Path, rec: Tree, s: Strategy, b: Path)
    requires !(p <= b)
    ensures !GetsTo(t, p, rec, s, b)
  {
  }

  lemma StopExact(t: Tree, p: Path, past: bool, rec: Tree, s: Strategy, b: Path)
    requires WellFormed(t) && IsUserRecord(rec) && Height(t) <= |b| && |p| <= |b| && (past ==> p == [])
    requires Stops(t, p, past, rec, s)
    ensures RecordAt(Insert(t, p, past, rec, s).tree, b)
         == if CanPlace(t, p, past) && GetsTo(t, p, rec, s, b) then Updated(RecordAt(t, b), rec, s) else RecordAt(t, b)
  {
    hide Updated, Accepts, RecordAt, Place;
    InsertSucceedsIff(t, p, past, rec, s, |b|);
    StopFacts(t, p, past, rec, s);
    StopPointwise(t, p, past, rec, s, b);
    if Insert(t, p, past, rec, s).status == Success {
      if p <= b { assert GetsTo(t, p, rec, s, b); }
    } else if CanPlace(t, p, past) {
      StopRefuses(t, p, past, rec, s, |b|);
      RefusedStays(t, p, past, rec, s, b);
    }
  }

  /** A leaf that refuses is not updated. */
  lemma RefusedStays(t: Tree, p: Path, past: bool, rec: Tree, s: Strategy, b: Path)
    requires WellFormed(t) && IsUserRecord(rec) && Height(t) <= |b| && |p| <= |b| && (past ==> p == [])
    requires Stops(t, p, past, rec, s) && CanPlace(t, p, past) && Insert(t, p, past, rec, s).status != Success
    ensures !IsNode(t) && Updated(RecordAt(t, b), rec, s) == RecordAt(t, b)
  {
    StopFacts(t, p, past, rec, s);
    if t.Node? { PlainFacts(t); }
  }

  lemma OneBitMore(t: Tree, bit: bool, a: Path, b: Path)
    requires |a| + 1 == |b|
    ensures RecordAt(t, [bit] + a) == RecordAt(Child(t, bit), a)
    ensures Above([bit] + a, b) <==> if bit == b[0] then Above(a, b[1..]) else bit
    ensures [bit] + a == b <==> bit == b[0] && a == b[1..]
  {
    var a' := [bit] + a;
    assert a'[1..] == a;
    RecordBelow(t, [], a');
    if bit == b[0] && a == b[1..] { assert b == [b[0]] + b[1..]; }
  }

  lemma GetsInChild(t: Tree, p: Path, rec: Tree, s: Strategy, b: Path)
    requires b != [] && (p != [] ==> p[0] == b[0]) && GetsTo(t, p, rec, s, b)
    ensures GetsTo(Child(t, b[0]), if p == [] then [] else p[1..], rec, s, b[1..])
    ensures p == [] && !b[0] ==> AllAccept(RightOf(t), [], rec, s, |b| - 1)
  {
    hide Accepts, RecordAt, Above;
    var rest := if p == [] then [] else p[1..];
    if p != [] { PrefixStep(p, b); }
    forall a: Path | |a| == |b| - 1 && rest <= a && (a == b[1..] || Above(a, b[1..]))
      ensures Accepts(RecordAt(Child(t, b[0]), a), rec, s)
    {
      OneBitMore(t, b[0], a, b);
      var a' := [b[0]] + a;
      assert a'[1..] == a;
      if p != [] { PrefixStep(p, a'); }
      assert Accepts(RecordAt(t, a'), rec, s);
    }
    if p == [] && !b[0] {
      forall a: Path | |a| == |b| - 1 && p <= a ensures Accepts(RecordAt(RightOf(t), a), rec, s) {
        OneBitMore(t, true, a, b);
        assert Accepts(RecordAt(t, [true] + a), rec, s);
      }
    }
  }

  lemma GetsFromChild(t: Tree, p: Path, rec: Tree, s: Strategy, b: Path)
    requires b != [] && (p != [] ==> p[0] == b[0])
    requires GetsTo(Child(t, b[0]), if p == [] then [] else p[1..], rec, s, b[1..])
    requires p == [] && !b[0] ==> AllAccept(RightOf(t), [], rec, s, |b| - 1)
    ensures GetsTo(t, p, rec, s, b)
  {
    hide Accepts, RecordAt, Above;
    var rest := if p == [] then [] else p[1..];
    if p != [] { PrefixStep(p, b); }
    forall a: Path | |a| == |b| && p <= a && (a == b || Above(a, b)) ensures Accepts(RecordAt(t, a), rec, s) {
      RecordBelow(t, p, a);
      assert a == [a[0]] + a[1..];
      OneBitMore(t, a[0], a[1..], b);
      assert rest <= a[1..];
    }
  }

  /** Past the prefix, the left side is done only after all of the right side; before it, only the side on the way
      counts. */
  lemma GetsBelow(t: Tree, p: Path, rec: Tree, s: Strategy, b: Path)
    requires b != [] && (p != [] ==> p[0] == b[0])
    ensures GetsTo(t, p, rec, s, b)
       <==> (p == [] && !b[0] ==> AllAccept(RightOf(t), [], rec, s, |b| - 1))
            && GetsTo(Child(t, b[0]), if p == [] then [] else p[1..], rec, s, b[1..])
  {
    hide GetsTo, AllAccept;
    if GetsTo(t, p, rec, s, b) { GetsInChild(t, p, rec, s, b); }
    if (p == [] && !b[0] ==> AllAccept(RightOf(t), [], rec, s, |b| - 1))
      && GetsTo(Child(t, b[0]), if p == [] then [] else p[1..], rec, s, b[1..])
    {
      GetsFromChild(t, p, rec, s, b);
    }
  }

  // ---------- Trimming ----------

  /** The walk along p meets a data record with prefix bits left. */
  predicate InsideData(t: Tree, p: Path)
    decreases |p|
  {
    p != [] && (t.Data? || (IsNode(t) && InsideData(Child(t, p[0]), p[1..])))
  }

  /** The left record refuses the new one, and every record on the right becomes what the left one is. */
  ghost predicate Twins(t: Tree, rec: Tree, s: Strategy, w: nat) {
    && t.Node? && w > 0 && !IsNode(t.left) && !Accepts(t.left, rec, s) && AllAccept(t.right, [], rec, s, w - 1)
    && forall a: Path | |a| == w - 1 :: Updated(RecordAt(t.right, a), rec, s) == t.left
  }

  /** The insert comes to such a node before it fails elsewhere. */
  ghost predicate MakesTwins(t: Tree, p: Path, rec: Tree, s: Strategy, w: nat)
    decreases |p|, t
  {
    && IsNode(t) && w > 0
    && if p != [] then MakesTwins(Child(t, p[0]), p[1..], rec, s, w - 1)
       else
         || MakesTwins(t.right, [], rec, s, w - 1)
         || (AllAccept(t.right, [], rec, s, w - 1) && (Twins(t, rec, s, w) || MakesTwins(t.left, [], rec, s, w - 1)))
  }

  /** An insert that goes through comes to no such node. */
  lemma {:induction false} TwinsRefuse(t: Tree, p: Path, rec: Tree, s: Strategy, w: nat)
    requires MakesTwins(t, p, rec, s, w) && Height(t) <= w && |p| <= w
    ensures !AllAccept(t, p, rec, s, w)
    decreases |p|, t
  {
    hide Accepts, RecordAt, AllAccept;
    NodeHeight(t);
    if p != [] {
      TwinsRefuse(Child(t, p[0]), p[1..], rec, s, w - 1);
      AcceptOne(t, p, rec, s, w);
    } else {
      AcceptBoth(t, rec, s, w);
      if MakesTwins(t.right, [], rec, s, w - 1) {
        TwinsRefuse(t.right, [], rec, s, w - 1);
      } else if MakesTwins(t.left, [], rec, s, w - 1) {
        TwinsRefuse(t.left, [], rec, s, w - 1);
      } else {
        AcceptAtLeaf(t.left, [], rec, s, w - 1);
      }
    }
  }

  /** Only data with objects can do that, and only under recurse. */
  lemma {:induction false} TwinsNeedObjects(t: Tree, p: Path, rec: Tree, s: Strategy, w: nat)
    requires IsUserRecord(rec) && Height(t) <= w && MakesTwins(t, p, rec, s, w)
    ensures s == Recurse && rec.Data? && MeetsObject(s, rec.v)
    decreases |p|, t
  {
    hide Accepts, RecordAt, AllAccept, Updated;
    NodeHeight(t);
    if p != [] {
      TwinsNeedObjects(Child(t, p[0]), p[1..], rec, s, w - 1);
    } else if MakesTwins(t.right, [], rec, s, w - 1) {
      TwinsNeedObjects(t.right, [], rec, s, w - 1);
    } else if MakesTwins(t.left, [], rec, s, w - 1) {
      TwinsNeedObjects(t.left, [], rec, s, w - 1);
    } else {
      var leaf := RecordAt(t.right, Zeros(w - 1));
      RecordIsLeaf(t.right, Zeros(w - 1));
      AcceptedAt(t.right, rec, s, Zeros(w - 1));
      UpdatedTwice(leaf, rec, s);
    }
  }

  lemma AcceptedAt(t: Tree, rec: Tree, s: Strategy, a: Path)
    requires AllAccept(t, [], rec, s, |a|)
    ensures Accepts(RecordAt(t, a), rec, s)
  {
    assert [] <= a;
  }

  /** A failing insert that leaves a leaf leaves that leaf. */
  lemma FailureKeepsLeaf(t: Tree, p: Path, past: bool, rec: Tree, s: Strategy)
    requires WellFormed(t) && IsUserRecord(rec) && (past ==> p == []) && Insert(t, p, past, rec, s).status != Success
    ensures IsNode(Insert(t, p, past, rec, s).tree) || Insert(t, p, past, rec, s).tree == t
    ensures !IsNode(t) && p == [] ==> Insert(t, p, past, rec, s).tree == t
  {
    InsertCases(t, p, past, rec, s);
    if Stops(t, p, past, rec, s) && t.Node? { PlainFacts(t); }
  }

  /** A successful insert over plain records leaves one data record exactly when all of them become it. */
  lemma BecomesOne(t: Tree, rec: Tree, s: Strategy, w: nat, goal: Tree)
    requires Plain(t) && Trimmed(t) && Height(t) <= w && IsUserRecord(rec) && goal.Data?
    requires Insert(t, [], true, rec, s).status == Success
    ensures Insert(t, [], true, rec, s).tree == goal
       <==> forall a: Path | |a| == w :: Updated(RecordAt(t, a), rec, s) == goal
  {
    hide Updated, RecordAt, Insert, Plain;
    var u := Insert(t, [], true, rec, s).tree;
    PlainFacts(t);
    InsertKeepsPlain(t, [], true, rec, s);
    PlainFacts(u);
    InsertKeepsTrimmed(t, [], true, rec, s);
    InsertKeepsHeight(t, [], true, rec, s, w);
    forall a: Path | |a| == w ensures RecordAt(u, a) == Updated(RecordAt(t, a), rec, s) && RecordAt(goal, a) == goal {
      InsertPointwise(t, [], true, rec, s, a);
      OneLeaf(goal, a);
    }
    if u == goal {
      forall a: Path | |a| == w ensures Updated(RecordAt(t, a), rec, s) == goal { assert RecordAt(goal, a) == goal; }
    }
    if forall a: Path | |a| == w :: Updated(RecordAt(t, a), rec, s) == goal {
      CanonicalUnique(u, goal, w);
    }
  }

  lemma OneLeaf(t: Tree, a: Path)
    requires !IsNode(t)
    ensures RecordAt(t, a) == t
  {
  }

  /** An alias on the way means that the tree stays as it is. */
  lemma {:induction false} AliasMeansNoData(t: Tree, p: Path, rec: Tree, s: Strategy, w: nat)
    requires MeetsAlias(t, p)
    ensures !InsideData(t, p) && !MakesTwins(t, p, rec, s, w)
    decreases |p|
  {
    if !t.Alias? { AliasMeansNoData(Child(t, p[0]), p[1..], rec, s, if w > 0 then w - 1 else 0); }
  }

  /** A user insert that does not succeed leaves something to trim exactly when it has split a data record, or has made
      two sides of a node equal before the left one refused. */
  lemma {:induction false} FailedTrimmedIff(t: Tree, p: Path, past: bool, rec: Tree, s: Strategy, w: nat)
    requires WellFormed(t) && Trimmed(t) && IsUserRecord(rec) && Height(t) <= w && |p| <= w && (past ==> p == [])
    requires Insert(t, p, past, rec, s).status != Success
    ensures Trimmed(Insert(t, p, past, rec, s).tree) <==> !InsideData(t, p) && !MakesTwins(t, p, rec, s, w)
    decreases |p|, t
  {
    hide Insert, Stops, StopOutcome, Accepts, AllAccept, MeetsAlias, Twins, Updated, RecordAt, WellFormed, Height;
    if !CanPlace(t, p, past) {
      AliasRefused(t, p, rec, s);
      AliasMeansNoData(t, p, rec, s, w);
    } else if Stops(t, p, past, rec, s) {
      FailingStop(t, p, past, rec, s, w);
    } else if IsNode(t) {
      FailingNode(t, p, past, rec, s, w);
    } else {
      FailingSplit(t, p, past, rec, s, w);
    }
  }

  lemma FailingStop(t: Tree, p: Path, past: bool, rec: Tree, s: Strategy, w: nat)
    requires WellFormed(t) && IsUserRecord(rec) && (past ==> p == []) && CanPlace(t, p, past)
    requires Insert(t, p, past, rec, s).status != Success && Stops(t, p, past, rec, s)
    ensures Insert(t, p, past, rec, s).tree == t && !InsideData(t, p) && !MakesTwins(t, p, rec, s, w)
  {
    StopFacts(t, p, past, rec, s);
    if t.Node? { PlainFacts(t); }
  }

  /** A data record that is split and then refuses. */
  lemma {:induction false} FailingSplit(t: Tree, p: Path, past: bool, rec: Tree, s: Strategy, w: nat)
    requires WellFormed(t) && Trimmed(t) && IsUserRecord(rec) && Height(t) <= w && |p| <= w && (past ==> p == [])
    requires Insert(t, p, past, rec, s).status != Success && !Stops(t, p, past, rec, s) && !IsNode(t)
    requires CanPlace(t, p, past)
    ensures !Trimmed(Insert(t, p, past, rec, s).tree) && InsideData(t, p)
    decreases |p|, t, 0
  {
    hide Insert, MeetsAlias, Accepts, AllAccept, MakesTwins;
    DescendFacts(t, p, past, rec, s);
    DescentStatus(t, p, past, rec, s);
    InsertSucceedsIff(t, p, past, rec, s, w);
    AcceptAtLeaf(t, p, rec, s, w);
    if t.Empty? { EmptyAccepts(rec, s); }
    AliasBelow(t, p);
    var c := Insert(t, p[1..], false, rec, s);
    FailureKeepsLeaf(t, p[1..], false, rec, s);
    FailedTrimmedIff(t, p[1..], false, rec, s, w);
  }

  lemma EmptyAccepts(rec: Tree, s: Strategy)
    ensures Accepts(Empty, rec, s)
  {
  }

  lemma {:induction false} FailingNode(t: Tree, p: Path, past: bool, rec: Tree, s: Strategy, w: nat)
    requires WellFormed(t) && Trimmed(t) && IsUserRecord(rec) && Height(t) <= w && |p| <= w && (past ==> p == [])
    requires Insert(t, p, past, rec, s).status != Success && !Stops(t, p, past, rec, s) && IsNode(t)
    requires CanPlace(t, p, past)
    ensures Trimmed(Insert(t, p, past, rec, s).tree) <==> !InsideData(t, p) && !MakesTwins(t, p, rec, s, w)
    decreases |p|, t, 0
  {
    hide Insert, MeetsAlias, Accepts, AllAccept, Twins, Updated, RecordAt, Height, Stops, Trimmed;
    DescendFacts(t, p, past, rec, s);
    DescentStatus(t, p, past, rec, s);
    NodeHeight(t);
    UserRecordIsFlat(rec);
    ChildrenFit(t, p, past, rec, s, Zeros(w));
    TrimmedParts(t);
    if p != [] {
      AliasBelow(t, p);
      OneSideFails(t, p[0], p[1..], false, rec, s);
      FailedTrimmedIff(Child(t, p[0]), p[1..], false, rec, s, w - 1);
    } else {
      InsertSucceedsIff(t.right, [], true, rec, s, w - 1);
      if Insert(t.right, [], true, rec, s).status != Success {
        OneSideFails(t, true, [], true, rec, s);
        FailedTrimmedIff(t.right, [], true, rec, s, w - 1);
      } else {
        if MakesTwins(t.right, [], rec, s, w - 1) { TwinsRefuse(t.right, [], rec, s, w - 1); }
        FailedTrimmedIff(t.left, [], true, rec, s, w - 1);
        LeftFails(t, rec, s, w);
      }
    }
  }

  lemma UserRecordIsFlat(rec: Tree)
    requires IsUserRecord(rec)
    ensures Height(rec) == 0
  {
  }

  lemma TrimmedParts(t: Tree)
    requires IsNode(t)
    ensures Trimmed(t) <==> Trim(t) == t && Trimmed(t.left) && Trimmed(t.right)
  {
  }

  /** One side has failed and the other one is as it was. */
  lemma OneSideFails(t: Tree, bit: bool, p: Path, past: bool, rec: Tree, s: Strategy)
    requires IsNode(t) && WellFormed(t) && Trimmed(t) && IsUserRecord(rec) && (past ==> p == [])
    requires WellFormed(Child(t, bit)) && Insert(Child(t, bit), p, past, rec, s).status != Success
    ensures var c := Insert(Child(t, bit), p, past, rec, s).tree;
      var t' := if bit then MakeNode(t.FixedNode?, t.left, c) else MakeNode(t.FixedNode?, c, t.right);
      Trimmed(t') <==> Trimmed(c)
  {
    hide Insert;
    FailureKeepsLeaf(Child(t, bit), p, past, rec, s);
  }

  /** The right side has gone through and the left one has failed. */
  lemma LeftFails(t: Tree, rec: Tree, s: Strategy, w: nat)
    requires IsNode(t) && WellFormed(t) && Trimmed(t) && IsUserRecord(rec) && Height(t) <= w && w > 0
    requires WellFormed(t.left) && WellFormed(t.right)
    requires Insert(t.right, [], true, rec, s).status == Success && AllAccept(t.right, [], rec, s, w - 1)
    requires Insert(t.left, [], true, rec, s).status != Success
    ensures var l, r := Insert(t.left, [], true, rec, s).tree, Insert(t.right, [], true, rec, s).tree;
      Trimmed(MakeNode(t.FixedNode?, l, r)) <==> Trimmed(l) && !Twins(t, rec, s, w)
  {
    hide Insert, Accepts, AllAccept, Updated, RecordAt, Height, Plain;
    var l, r := Insert(t.left, [], true, rec, s).tree, Insert(t.right, [], true, rec, s).tree;
    NodeHeight(t);
    FailureKeepsLeaf(t.left, [], true, rec, s);
    InsertKeepsTrimmed(t.right, [], true, rec, s);
    InsertSucceedsIff(t.left, [], true, rec, s, w - 1);
    if !IsNode(t.left) {
      AcceptAtLeaf(t.left, [], rec, s, w - 1);
      RefusingLeaf(t.left, rec, s);
      if t.Node? { BecomesOne(t.right, rec, s, w - 1, t.left); }
    }
  }

  lemma RefusingLeaf(t: Tree, rec: Tree, s: Strategy)
    requires !Accepts(t, rec, s) && IsUserRecord(rec)
    ensures t.Data?
  {
  }

  /** An input: the record {k: scalar} is split for the new data {k: []}, and stays split. */
  lemma StaysSplitExample(k: Bytes, text: Bytes)
    ensures var x, y := Data(Map(map[k := Scalar(text)])), Data(Map(map[k := Array([])]));
      Insert(x, [true], false, y, Recurse) == Outcome(MergeMismatch, Node(x, x)) && InsideData(x, [true])
  {
    MismatchExample(k, text, 0);
    var x, y := Data(Map(map[k := Scalar(text)])), Data(Map(map[k := Array([])]));
    DescendFacts(x, [true], false, y, Recurse);
    StopFacts(x, [], false, y, Recurse);
  }

  /** Another: {j: 1} on the right takes {k: object} and so becomes the record on the left, which refuses it. */
  lemma StaysTwinExample(j: Bytes, k: Bytes, text: Bytes)
    requires j != k
    ensures var x, y := Data(Map(map[j := Scalar(text)])), Data(Map(map[k := Object(text)]));
      var both := Data(Map(map[j := Scalar(text), k := Object(text)]));
      Insert(Node(both, x), [], false, y, Recurse) == Outcome(MergeMismatch, Node(both, both))
  {
    RefusesAgainExample(j, k, text);
    var x, y := Data(Map(map[j := Scalar(text)])), Data(Map(map[k := Object(text)]));
    var both := Data(Map(map[j := Scalar(text), k := Object(text)]));
    StopFacts(x, [], false, y, Recurse);
    StopFacts(both, [], false, y, Recurse);
    StopFacts(x, [], true, y, Recurse);
    StopFacts(both, [], true, y, Recurse);
    DescendFacts(Node(both, x), [], false, y, Recurse);
  }

  // ---------- Inserting again ----------

  lemma FixedBelow(t: Tree, p: Path, rec: Tree, s: Strategy, w: nat, bit: bool)
    requires w > 0 && (p != [] ==> p[0] == bit)
    requires forall a: Path | |a| == w && p <= a :: Updated(RecordAt(t, a), rec, s) == RecordAt(t, a)
    ensures forall a: Path | |a| == w - 1 && (if p == [] then [] else p[1..]) <= a ::
      Updated(RecordAt(Child(t, bit), a), rec, s) == RecordAt(Child(t, bit), a)
  {
    hide Updated, RecordAt;
    forall a: Path | |a| == w - 1 && (if p == [] then [] else p[1..]) <= a
      ensures Updated(RecordAt(Child(t, bit), a), rec, s) == RecordAt(Child(t, bit), a)
    {
      var a' := [bit] + a;
      assert a'[1..] == a;
      RecordBelow(t, p, a');
      assert Updated(RecordAt(t, a'), rec, s) == RecordAt(t, a');
    }
  }

  /** Records that the insert would not change do not become equal. */
  lemma {:induction false} FixedMakesNoTwins(t: Tree, p: Path, rec: Tree, s: Strategy, w: nat)
    requires Canonical(t, w) && forall a: Path | |a| == w && p <= a :: Updated(RecordAt(t, a), rec, s) == RecordAt(t, a)
    ensures !MakesTwins(t, p, rec, s, w)
    decreases |p|, t
  {
    hide Updated, Accepts, AllAccept, RecordAt, Canonical, Twins;
    if IsNode(t) && w > 0 {
      CanonicalBelow(t, w, false);
      CanonicalBelow(t, w, true);
      if p != [] {
        FixedBelow(t, p, rec, s, w, p[0]);
        FixedMakesNoTwins(Child(t, p[0]), p[1..], rec, s, w - 1);
      } else {
        FixedBelow(t, p, rec, s, w, false);
        FixedBelow(t, p, rec, s, w, true);
        FixedMakesNoTwins(t.left, [], rec, s, w - 1);
        FixedMakesNoTwins(t.right, [], rec, s, w - 1);
        if Twins(t, rec, s, w) { FixedIsNoTwin(t, rec, s, w); }
      }
    }
  }

  lemma FixedIsNoTwin(t: Tree, rec: Tree, s: Strategy, w: nat)
    requires IsNode(t) && Canonical(t, w) && w > 0 && Canonical(t.right, w - 1) && Canonical(t.left, w - 1)
    requires forall a: Path | |a| == w - 1 && [] <= a :: Updated(RecordAt(t.right, a), rec, s) == RecordAt(t.right, a)
    ensures !Twins(t, rec, s, w)
  {
    hide Updated, Accepts, AllAccept, RecordAt, Skeleton;
    if Twins(t, rec, s, w) {
      forall a: Path | |a| == w - 1 ensures RecordAt(t.right, a) == RecordAt(t.left, a) {
        OneLeaf(t.left, a);
        assert [] <= a;
      }
      PlainFacts(t.left);
      PlainFacts(t.right);
      CanonicalUnique(t.right, t.left, w - 1);
    }
  }

  /** Inserting the same record again leaves the very same tree, unless it croaks after splitting a data record. */
  lemma ReinsertKeepsTree(t: Tree, op: Op, q: Path, w: nat)
    requires Canonical(t, w) && UserOp(op, w) && op.p <= q && |q| <= w
    requires Apply(t, op).status == Success
    ensures var u := Apply(t, op).tree; var again := Insert(u, q, false, op.rec, op.s);
      again.tree == u <==> again.status == Success || !InsideData(u, q)
  {
    hide Insert, Updated, Accepts, AllAccept, MakesTwins, RefusesAgain, MeetsAlias, InsideData, Canonical, RecordAt,
      Skeleton;
    var u := Apply(t, op).tree;
    var again := Insert(u, q, false, op.rec, op.s);
    ReinsertInside(t, op, q, w);
    ApplyKeepsCanonical(t, op, w);
    if again.status != Success {
      CanonicalParts(u, w);
      CanonicalTrimmed(u, w);
      FailedTrimmedIff(u, q, false, op.rec, op.s, w);
      forall a: Path | |a| == w && q <= a ensures Updated(RecordAt(u, a), op.rec, op.s) == RecordAt(u, a) {
        assert op.p == q[..|op.p|] == a[..|op.p|];
        ReinsertedRecord(t, op, w, a);
      }
      FixedMakesNoTwins(u, q, op.rec, op.s, w);
      if Trimmed(again.tree) {
        InsertKeepsWellFormed(u, q, false, op.rec, op.s);
        InsertKeepsHeight(u, q, false, op.rec, op.s, w);
        InsertKeepsSkeleton(u, q, false, op.rec, op.s);
        TrimmedIsCanonical(again.tree, w);
        CanonicalUnique(again.tree, u, w);
      }
    }
  }

  lemma CanonicalTrimmed(t: Tree, w: nat)
    requires Canonical(t, w)
    ensures Trimmed(t)
  {
  }

  lemma TrimmedIsCanonical(t: Tree, w: nat)
    requires WellFormed(t) && Trimmed(t) && Height(t) <= w
    ensures Canonical(t, w)
  {
  }

  // ---------- Whole runs, whatever their statuses ----------

  /** What one operation makes of the records, given which networks are aliased. */
  ghost function RecordsAfter(records: Path -> Tree, skeleton: Tree, op: Op, w: nat): Path -> Tree {
    b =>
      if !MeetsAlias(skeleton, op.p) && op.p <= b
        && (forall a: Path | |a| == w && op.p <= a && (a == b || Above(a, b)) :: Accepts(records(a), op.rec, op.s))
      then Updated(records(b), op.rec, op.s)
      else records(b)
  }

  ghost function RecordsAfterRun(records: Path -> Tree, skeleton: Tree, ops: seq<Op>, w: nat): Path -> Tree
    decreases |ops|
  {
    if ops == [] then records else RecordsAfterRun(RecordsAfter(records, skeleton, ops[0], w), skeleton, ops[1..], w)
  }

  ghost predicate HasRecords(t: Tree, records: Path -> Tree, w: nat) {
    WellFormed(t) && Height(t) <= w && forall b: Path | |b| == w :: RecordAt(t, b) == records(b)
  }

  lemma StepExact(t: Tree, op: Op, w: nat, records: Path -> Tree)
    requires UserOp(op, w) && HasRecords(t, records, w)
    ensures HasRecords(Apply(t, op).tree, RecordsAfter(records, Skeleton(t), op, w), w)
    ensures Skeleton(Apply(t, op).tree) == Skeleton(t)
  {
    hide Insert, Updated, Accepts, MeetsAlias, RecordAt, Skeleton;
    InsertKeepsWellFormed(t, op.p, false, op.rec, op.s);
    InsertKeepsHeight(t, op.p, false, op.rec, op.s, w);
    InsertKeepsSkeleton(t, op.p, false, op.rec, op.s);
    AliasesInSkeleton(t, op.p);
    var after := RecordsAfter(records, Skeleton(t), op, w);
    forall b: Path | |b| == w ensures RecordAt(Apply(t, op).tree, b) == after(b) {
      InsertExact(t, op.p, false, op.rec, op.s, b);
    }
  }

  /** Any run of inserts and removes, with any refusals and croaks in it, keeps the fixed part of the tree and leaves at
      every address what the records alone determine. */
  lemma {:induction false} RunExact(t: Tree, ops: seq<Op>, w: nat, records: Path -> Tree)
    requires (forall op | op in ops :: UserOp(op, w)) && HasRecords(t, records, w)
    ensures HasRecords(Run(t, ops), RecordsAfterRun(records, Skeleton(t), ops, w), w)
    ensures Skeleton(Run(t, ops)) == Skeleton(t)
    decreases |ops|
  {
    hide Apply, HasRecords, RecordsAfter, Skeleton, UserOp;
    if ops != [] {
      StepExact(t, ops[0], w, records);
      RunExact(Apply(t, ops[0]).tree, ops[1..], w, RecordsAfter(records, Skeleton(t), ops[0], w));
    }
  }
}
