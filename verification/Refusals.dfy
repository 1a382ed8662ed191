/** Which record refuses an insert first, and so when the croak of a merge jumps over the release of the inserted
    key. */
module Refusals {
  import opened Data
  import opened Merge
  import opened Trie
  import opened TrieLaws
  import opened Address
  import opened CanonicalTree
  import opened Ranges
  import opened RangeUpdates

  /** b is the larger address. The right record of a node is done first, so larger addresses come first. */
  predicate Above(b: Path, a: Path)
    decreases |a|
  {
    a != [] && b != [] && (if a[0] == b[0] then Above(b[1..], a[1..]) else b[0])
  }

  function Ones(n: nat): (z: Path)
    ensures |z| == n
  {
    seq(n, _ => true)
  }

  lemma {:induction false} NothingAboveOnes(b: Path, n: nat)
    requires |b| == n
    ensures !Above(b, Ones(n))
    decreases n
  {
    if n > 0 {
      assert Ones(n)[1..] == Ones(n - 1);
      NothingAboveOnes(b[1..], n - 1);
    }
  }

  lemma {:induction false} OneIsAbove(a: Path, b: Path)
    requires |a| == |b| && a != b
    ensures Above(a, b) || Above(b, a)
    decreases |a|
  {
    if a[0] == b[0] {
      assert a == [a[0]] + a[1..] && b == [b[0]] + b[1..];
      OneIsAbove(a[1..], b[1..]);
    }
  }

  /** The record at `a` refuses the new one, and every larger address of the network takes it. */
  ghost predicate RefusesFirst(t: Tree, p: Path, rec: Tree, s: Strategy, w: nat, a: Path) {
    && |a| == w && p <= a && !Accepts(RecordAt(t, a), rec, s)
    && forall b: Path | |b| == w && p <= b && Above(b, a) :: Accepts(RecordAt(t, b), rec, s)
  }

  lemma RefusalBelow(t: Tree, p: Path, rec: Tree, s: Strategy, w: nat, bit: bool, a: Path)
    requires w > 0 && (p != [] ==> p[0] == bit)
    requires RefusesFirst(Child(t, bit), if p == [] then [] else p[1..], rec, s, w - 1, a)
    requires p == [] && !bit ==> AllAccept(RightOf(t), [], rec, s, w - 1)
    ensures RefusesFirst(t, p, rec, s, w, [bit] + a)
  {
    hide Accepts;
    var rest := if p == [] then [] else p[1..];
    var a' := [bit] + a;
    assert a'[1..] == a;
    RecordBelow(t, p, a');
    forall b: Path | |b| == w && p <= b && Above(b, a') ensures Accepts(RecordAt(t, b), rec, s) {
      RecordBelow(t, p, b);
      assert rest <= b[1..];
      if b[0] == bit { assert Above(b[1..], a); }
    }
  }

  /** An insert that no alias stops fails as the first record that refuses it does. */
  lemma {:induction false} FailsAtFirstRefusal(t: Tree, p: Path, past: bool, rec: Tree, s: Strategy, w: nat)
      returns (a: Path)
    requires WellFormed(t) && IsUserRecord(rec) && Height(t) <= w && |p| <= w
    requires (past ==> p == []) && CanPlace(t, p, past) && Insert(t, p, past, rec, s).status != Success
    ensures RefusesFirst(t, p, rec, s, w, a)
    ensures Insert(t, p, past, rec, s).status == Place(RecordAt(t, a), rec, s).status
    decreases |p|, t
  {
    hide Insert, AllAccept, RefusesFirst, Place, Accepts, Stops, WellFormed, Height, MeetsAlias, RecordAt;
    if Stops(t, p, past, rec, s) {
      a := Ones(w);
      StopRefuses(t, p, past, rec, s, w);
    } else {
      var bit := FailingSide(t, p, past, rec, s, w);
      var a' := FailsAtFirstRefusal(Child(t, bit), if p == [] then [] else p[1..], p == [], rec, s, w - 1);
      a := [bit] + a';
      assert a[1..] == a';
      RefusalBelow(t, p, rec, s, w, bit, a');
      RecordBelow(t, p, a);
    }
  }

  lemma DescentStatus(t: Tree, p: Path, past: bool, rec: Tree, s: Strategy)
    requires !Stops(t, p, past, rec, s)
    ensures !t.Alias? && (p == [] ==> IsNode(t))
    ensures p != [] ==> Insert(t, p, past, rec, s).status == Insert(Child(t, p[0]), p[1..], false, rec, s).status
    ensures p == [] ==>
      var l, r := Insert(LeftOf(t), [], true, rec, s).status, Insert(RightOf(t), [], true, rec, s).status;
      Insert(t, p, past, rec, s).status == if r != Success then r else l
  {
    DescendFacts(t, p, past, rec, s);
  }

  /** The side whose failure is that of the descent; past the prefix the left one only when the right one takes
      everything. */
  lemma FailingSide(t: Tree, p: Path, past: bool, rec: Tree, s: Strategy, w: nat) returns (bit: bool)
    requires WellFormed(t) && IsUserRecord(rec) && Height(t) <= w && |p| <= w && !Stops(t, p, past, rec, s)
    requires (past ==> p == []) && CanPlace(t, p, past) && Insert(t, p, past, rec, s).status != Success
    ensures w > 0 && WellFormed(Child(t, bit)) && Height(Child(t, bit)) <= w - 1 && (p == [] ==> IsNode(t))
    ensures p != [] ==> p[0] == bit && CanPlace(Child(t, bit), p[1..], false)
    ensures Insert(Child(t, bit), if p == [] then [] else p[1..], p == [], rec, s).status
      == Insert(t, p, past, rec, s).status
    ensures p == [] && !bit ==> AllAccept(RightOf(t), [], rec, s, w - 1)
  {
    hide Insert, AllAccept, Place, Stops, WellFormed, MeetsAlias;
    DescentStatus(t, p, past, rec, s);
    ChildrenFit(t, p, past, rec, s, Zeros(w));
    if p == [] {
      bit := Insert(RightOf(t), [], true, rec, s).status != Success;
      InsertSucceedsIff(RightOf(t), [], true, rec, s, w - 1);
    } else {
      bit := p[0];
      AliasBelow(t, p);
    }
  }

  lemma StopRefuses(t: Tree, p: Path, past: bool, rec: Tree, s: Strategy, w: nat)
    requires WellFormed(t) && IsUserRecord(rec) && Height(t) <= w && |p| <= w
    requires (past ==> p == []) && CanPlace(t, p, past) && Insert(t, p, past, rec, s).status != Success
    requires Stops(t, p, past, rec, s)
    ensures RefusesFirst(t, p, rec, s, w, Ones(w))
    ensures Insert(t, p, past, rec, s).status == Place(RecordAt(t, Ones(w)), rec, s).status
  {
    StopFacts(t, p, past, rec, s);
    if t.Node? {
      PlainFacts(t);
    } else {
      forall b: Path | |b| == w ensures !Above(b, Ones(w)) { NothingAboveOnes(b, w); }
    }
  }

  /** Both are hashes, and somewhere inside them the merge is undefined. */
  predicate Mismatches(leaf: Tree, rec: Tree, s: Strategy) {
    leaf.Data? && NeedsMerge(leaf, rec, s) && rec.v.Map? && leaf.v.Map? && MergeValues(s, rec.v, leaf.v).None?
  }

  /** The first record that refuses does so from inside a merge of two hashes, and no alias is met before it. */
  ghost predicate MismatchFirst(t: Tree, p: Path, rec: Tree, s: Strategy, w: nat) {
    !MeetsAlias(t, p) && exists a :: RefusesFirst(t, p, rec, s, w, a) && Mismatches(RecordAt(t, a), rec, s)
  }

  lemma MismatchIsStatus(leaf: Tree, rec: Tree, s: Strategy)
    requires IsUserRecord(rec) && IsUserRecord(leaf)
    ensures Mismatches(leaf, rec, s) <==> Place(leaf, rec, s).status == MergeMismatch
  {
  }

  /** An insert croaks out of a merge, and leaks its key, exactly when the first record to refuse it mismatches. */
  lemma MismatchIff(t: Tree, p: Path, rec: Tree, s: Strategy, w: nat)
    requires WellFormed(t) && IsUserRecord(rec) && Height(t) <= w && |p| <= w
    ensures Insert(t, p, false, rec, s).status == MergeMismatch <==> MismatchFirst(t, p, rec, s, w)
  {
    hide Insert, Place, Mismatches, Above;
    var status := Insert(t, p, false, rec, s).status;
    InsertSucceedsIff(t, p, false, rec, s, w);
    if MeetsAlias(t, p) {
      AliasRefused(t, p, rec, s);
    } else if status != Success {
      var a := FailsAtFirstRefusal(t, p, false, rec, s, w);
      MismatchIsStatus(RecordAt(t, a), rec, s);
      forall a' | RefusesFirst(t, p, rec, s, w, a') ensures a' == a {
        if a' != a { OneIsAbove(a, a'); }
      }
    }
  }

  /** An input: a record {k: scalar} and the new data {k: []}. */
  lemma MismatchExample(k: Bytes, text: Bytes, w: nat)
    ensures var x, y := Data(Map(map[k := Scalar(text)])), Data(Map(map[k := Array([])]));
      MismatchFirst(x, [], y, Recurse, w) && Insert(x, [], false, y, Recurse).status == MergeMismatch
  {
    var existing, inserted := Map(map[k := Scalar(text)]), Map(map[k := Array([])]);
    assert MergeMembers(Recurse, inserted.entries[k], existing.entries[k]).None?;
    assert MergeValues(Recurse, inserted, existing).None?;
    StopFacts(Data(existing), [], false, Data(inserted), Recurse);
    MismatchIff(Data(existing), [], Data(inserted), Recurse, w);
  }

  // ---------- Ranges ----------

  /** Has one of these networks the address? */
  predicate Within(done: seq<Path>, a: Path) { exists p :: p in done && p <= a }

  /** Does the record that t has at an address take the new data, after it has been inserted into the networks
      `done`? */
  ghost predicate TakesAfter(t: Tree, done: seq<Path>, rec: Tree, s: Strategy, a: Path) {
    if Within(done, a) then !RefusesAgain(RecordAt(t, a), rec, s) else Accepts(RecordAt(t, a), rec, s)
  }

  ghost predicate MismatchesAfter(t: Tree, done: seq<Path>, rec: Tree, s: Strategy, a: Path) {
    if Within(done, a) then RefusesAgain(RecordAt(t, a), rec, s) else Mismatches(RecordAt(t, a), rec, s)
  }

  ghost predicate AllTakeAfter(t: Tree, done: seq<Path>, p: Path, rec: Tree, s: Strategy, w: nat) {
    forall a: Path | |a| == w && p <= a :: TakesAfter(t, done, rec, s, a)
  }

  ghost predicate RefusesFirstAfter(t: Tree, done: seq<Path>, p: Path, rec: Tree, s: Strategy, w: nat, a: Path) {
    && |a| == w && p <= a && !TakesAfter(t, done, rec, s, a)
    && forall b: Path | |b| == w && p <= b && Above(b, a) :: TakesAfter(t, done, rec, s, b)
  }

  ghost predicate MismatchFirstAfter(t: Tree, done: seq<Path>, p: Path, rec: Tree, s: Strategy, w: nat) {
    !MeetsAlias(t, p) && exists a :: RefusesFirstAfter(t, done, p, rec, s, w, a) && MismatchesAfter(t, done, rec, s, a)
  }

  /** One of the networks has a mismatch first, and those before it take the record: all said of the tree before any of
      them is inserted. */
  ghost predicate RangeMismatch(t: Tree, done: seq<Path>, bs: seq<Block>, rec: Tree, s: Strategy, w: nat)
    requires forall b | b in bs :: b.prefixLength <= w
    decreases |bs|
  {
    bs != [] &&
    var p := BlockPath(bs[0], w);
    || MismatchFirstAfter(t, done, p, rec, s, w)
    || (!MeetsAlias(t, p) && AllTakeAfter(t, done, p, rec, s, w) && RangeMismatch(t, done + [p], bs[1..], rec, s, w))
  }

  /** u is t with the record inserted into the networks `done`. */
  ghost predicate InsertedInto(t: Tree, u: Tree, done: seq<Path>, rec: Tree, s: Strategy, w: nat) {
    && WellFormed(u) && Height(u) <= w
    && (forall p: Path :: MeetsAlias(t, p) == MeetsAlias(u, p))
    && forall a: Path | |a| == w :: RecordInserted(RecordAt(t, a), RecordAt(u, a), Within(done, a), rec, s)
  }

  predicate RecordInserted(leaf: Tree, after: Tree, covered: bool, rec: Tree, s: Strategy) {
    && !IsNode(leaf)
    && if covered then Accepts(leaf, rec, s) && after == Updated(leaf, rec, s) else after == leaf
  }

  /** What the record does now is what the record before said it would. */
  lemma ForeseenRecord(leaf: Tree, after: Tree, covered: bool, rec: Tree, s: Strategy)
    requires IsUserRecord(rec) && RecordInserted(leaf, after, covered, rec, s)
    ensures Accepts(after, rec, s) <==> if covered then !RefusesAgain(leaf, rec, s) else Accepts(leaf, rec, s)
    ensures Mismatches(after, rec, s) <==> if covered then RefusesAgain(leaf, rec, s) else Mismatches(leaf, rec, s)
    ensures Accepts(after, rec, s) ==> RecordInserted(leaf, Updated(after, rec, s), true, rec, s)
  {
    if covered { UpdatedTwice(leaf, rec, s); }
  }

  lemma Foreseen(t: Tree, u: Tree, done: seq<Path>, rec: Tree, s: Strategy, w: nat, a: Path)
    requires IsUserRecord(rec) && InsertedInto(t, u, done, rec, s, w) && |a| == w
    ensures Accepts(RecordAt(u, a), rec, s) <==> TakesAfter(t, done, rec, s, a)
    ensures Mismatches(RecordAt(u, a), rec, s) <==> MismatchesAfter(t, done, rec, s, a)
  {
    ForeseenRecord(RecordAt(t, a), RecordAt(u, a), Within(done, a), rec, s);
  }

  lemma ForeseenRefusal(t: Tree, u: Tree, done: seq<Path>, p: Path, rec: Tree, s: Strategy, w: nat, a: Path)
    requires IsUserRecord(rec) && InsertedInto(t, u, done, rec, s, w)
    ensures RefusesFirst(u, p, rec, s, w, a) <==> RefusesFirstAfter(t, done, p, rec, s, w, a)
  {
    hide Accepts, TakesAfter, MeetsAlias, Above, RecordAt, RecordInserted, InsertedInto;
    forall b: Path | |b| == w ensures Accepts(RecordAt(u, b), rec, s) <==> TakesAfter(t, done, rec, s, b) {
      Foreseen(t, u, done, rec, s, w, b);
    }
    if RefusesFirst(u, p, rec, s, w, a) {
      forall b: Path | |b| == w && p <= b && Above(b, a) ensures TakesAfter(t, done, rec, s, b) {
        assert Accepts(RecordAt(u, b), rec, s);
      }
    }
    if RefusesFirstAfter(t, done, p, rec, s, w, a) {
      forall b: Path | |b| == w && p <= b && Above(b, a) ensures Accepts(RecordAt(u, b), rec, s) {
        assert TakesAfter(t, done, rec, s, b);
      }
    }
  }

  lemma ForeseenNetwork(t: Tree, u: Tree, done: seq<Path>, p: Path, rec: Tree, s: Strategy, w: nat)
    requires IsUserRecord(rec) && InsertedInto(t, u, done, rec, s, w)
    ensures AllAccept(u, p, rec, s, w) <==> AllTakeAfter(t, done, p, rec, s, w)
  {
    hide Accepts, TakesAfter, RecordAt, InsertedInto;
    forall a: Path | |a| == w && p <= a ensures Accepts(RecordAt(u, a), rec, s) <==> TakesAfter(t, done, rec, s, a) {
      Foreseen(t, u, done, rec, s, w, a);
    }
    if AllTakeAfter(t, done, p, rec, s, w) {
      forall a: Path | |a| == w && p <= a
        ensures Accepts(RecordAt(u, a), rec, s)
      {
        assert TakesAfter(t, done, rec, s, a);
      }
    }
    if AllAccept(u, p, rec, s, w) {
      forall a: Path | |a| == w && p <= a
        ensures TakesAfter(t, done, rec, s, a)
      {
        assert Accepts(RecordAt(u, a), rec, s);
      }
    }
  }

  lemma ForeseenMismatch(t: Tree, u: Tree, done: seq<Path>, p: Path, rec: Tree, s: Strategy, w: nat)
    requires IsUserRecord(rec) && InsertedInto(t, u, done, rec, s, w)
    ensures MismatchFirst(u, p, rec, s, w) <==> MismatchFirstAfter(t, done, p, rec, s, w)
  {
    hide Mismatches, MismatchesAfter, MeetsAlias, RecordAt, InsertedInto, RefusesFirst, RefusesFirstAfter;
    InsertedParts(t, u, done, p, rec, s, w);
    forall a: Path
      ensures RefusesFirst(u, p, rec, s, w, a) && Mismatches(RecordAt(u, a), rec, s)
         <==> RefusesFirstAfter(t, done, p, rec, s, w, a) && MismatchesAfter(t, done, rec, s, a)
    {
      ForeseenRefusal(t, u, done, p, rec, s, w, a);
      if RefusesFirst(u, p, rec, s, w, a) {
        assert |a| == w by { FirstLength(u, p, rec, s, w, a); }
        Foreseen(t, u, done, rec, s, w, a);
      }
    }
  }

  lemma FirstLength(t: Tree, p: Path, rec: Tree, s: Strategy, w: nat, a: Path)
    requires RefusesFirst(t, p, rec, s, w, a)
    ensures |a| == w
  {
  }

  /** One more network. */
  lemma InsertedIntoStep(t: Tree, u: Tree, done: seq<Path>, p: Path, rec: Tree, s: Strategy, w: nat)
    requires IsUserRecord(rec) && InsertedInto(t, u, done, rec, s, w) && |p| <= w
    requires Insert(u, p, false, rec, s).status == Success
    ensures InsertedInto(t, Insert(u, p, false, rec, s).tree, done + [p], rec, s, w)
  {
    hide Insert, Updated, Accepts, MeetsAlias, Skeleton, WellFormed, RecordInserted, Within;
    var u' := Insert(u, p, false, rec, s).tree;
    InsertKeepsWellFormed(u, p, false, rec, s);
    InsertKeepsSkeleton(u, p, false, rec, s);
    InsertKeepsHeight(u, p, false, rec, s, w);
    InsertSucceedsIff(u, p, false, rec, s, w);
    forall q: Path ensures MeetsAlias(t, q) == MeetsAlias(u', q) {
      AliasesInSkeleton(u, q);
      AliasesInSkeleton(u', q);
    }
    forall a: Path | |a| == w
      ensures RecordInserted(RecordAt(t, a), RecordAt(u', a), Within(done + [p], a), rec, s)
    {
      InsertPointwise(u, p, false, rec, s, a);
      ForeseenRecord(RecordAt(t, a), RecordAt(u, a), Within(done, a), rec, s);
      WithinMore(done, p, a);
    }
  }

  lemma WithinMore(done: seq<Path>, p: Path, a: Path)
    ensures Within(done + [p], a) <==> Within(done, a) || p <= a
  {
    if p <= a { assert p in done + [p]; }
    if Within(done, a) {
      var q :| q in done && q <= a;
      assert q in done + [p];
    }
  }

  /** Inserting the networks of a range croaks out of a merge exactly when the tree as it was says so. */
  lemma {:induction false} BlocksMismatchIff(t: Tree, u: Tree, done: seq<Path>, bs: seq<Block>, rec: Tree, s: Strategy,
                                             w: nat)
    requires IsUserRecord(rec) && InsertedInto(t, u, done, rec, s, w) && forall b | b in bs :: b.prefixLength <= w
    ensures InsertBlocks(u, bs, rec, s, w).status == MergeMismatch <==> RangeMismatch(t, done, bs, rec, s, w)
    decreases |bs|
  {
    hide Insert, MismatchFirst, MismatchFirstAfter, AllAccept, AllTakeAfter, BlockPath, InsertedInto, MeetsAlias;
    if bs != [] {
      var p := BlockPath(bs[0], w);
      var o := Insert(u, p, false, rec, s);
      InsertedParts(t, u, done, p, rec, s, w);
      ForeseenNetwork(t, u, done, p, rec, s, w);
      ForeseenMismatch(t, u, done, p, rec, s, w);
      MismatchIff(u, p, rec, s, w);
      InsertSucceedsIff(u, p, false, rec, s, w);
      if o.status == Success {
        InsertedIntoStep(t, u, done, p, rec, s, w);
        BlocksMismatchIff(t, o.tree, done + [p], bs[1..], rec, s, w);
      }
    }
  }

  lemma InsertedParts(t: Tree, u: Tree, done: seq<Path>, p: Path, rec: Tree, s: Strategy, w: nat)
    requires InsertedInto(t, u, done, rec, s, w)
    ensures WellFormed(u) && Height(u) <= w && MeetsAlias(t, p) == MeetsAlias(u, p)
  {
  }

  lemma NothingInserted(t: Tree, rec: Tree, s: Strategy, w: nat)
    requires WellFormed(t) && Height(t) <= w
    ensures InsertedInto(t, t, [], rec, s, w)
  {
    forall a: Path | |a| == w ensures !IsNode(RecordAt(t, a)) { RecordIsLeaf(t, a); }
  }

  /** An input for which only the second network of the whole IPv6 range croaks, and leaks: {k: object} into {j: 1}. */
  lemma WholeRangeLeaksExample(j: Bytes, k: Bytes, text: Bytes)
    requires j != k
    ensures var x, y := Data(Map(map[j := Scalar(text)])), Data(Map(map[k := Object(text)]));
      && Insert(x, [], false, y, Recurse).status == Success
      && RangeOutcome(x, 0, Pow2(INT_BITS) - 1, y, Recurse, INT_BITS).status == MergeMismatch
  {
    hide Pow2, RangeOutcome;
    var x, y := Data(Map(map[j := Scalar(text)])), Data(Map(map[k := Object(text)]));
    RefusesAgainExample(j, k, text);
    WholeRangeTwice(x, y, Recurse);
    DescendFacts(Insert(x, [], false, y, Recurse).tree, [true], false, y, Recurse);
  }

  /** Does inserting the range leak the key of its data? */
  ghost predicate RangeLeaks(t: Tree, start: nat, end: nat, data: Value, s: Strategy, w: nat)
    requires start <= end < Pow2(w)
  {
    RangeOutcomeIs(t, start, end, Data(data), s, w);
    RangeMismatch(t, [], Emitted(start, end, w), Data(data), s, w)
  }

  lemma RangeLeaksIff(t: Tree, start: nat, end: nat, data: Value, s: Strategy, w: nat)
    requires WellFormed(t) && Height(t) <= w && start <= end < Pow2(w)
    ensures RangeOutcome(t, start, end, Data(data), s, w).status == MergeMismatch
      <==> RangeLeaks(t, start, end, data, s, w)
  {
    hide RangeOutcome, InsertBlocks, RangeMismatch;
    RangeOutcomeIs(t, start, end, Data(data), s, w);
    NothingInserted(t, Data(data), s, w);
    BlocksMismatchIff(t, t, [], Emitted(start, end, w), Data(data), s, w);
  }
}
