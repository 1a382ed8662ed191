/** What inserting and removing mean for the record at each address, said case by case (c/tree.c:861-1075). */
module InsertMeaning {
  import opened Data
  import opened Merge
  import opened Trie
  import opened TrieLaws
  import opened Address
  import opened RangeUpdates
  import opened Refusals

  /** A successful insert of v leaves the addresses outside its network alone. Inside, it fills empty records unless it
      only adds, replaces or merges data, and leaves reserved and aliased addresses alone. */
  lemma InsertedRecord(t: Tree, p: Path, v: Value, s: Strategy, a: Path)
    requires WellFormed(t) && Height(t) <= |a| && |p| <= |a|
    requires Insert(t, p, false, Data(v), s).status == Success
    ensures var before, after := RecordAt(t, a), RecordAt(Insert(t, p, false, Data(v), s).tree, a);
      && (!(p <= a) ==> after == before)
      && (p <= a && before.Empty? ==> after == if s == AddOnly then Empty else Data(v))
      && (p <= a && before.Data? && (s == NoMerge || before.v == v) ==> after == Data(v))
      && (p <= a && before.Data? && s != NoMerge && before.v != v ==>
            && before.v.Map? && v.Map?
            && MergeValues(s, v, before.v).Some? && after == Data(MergeValues(s, v, before.v).value))
      && (before.FixedEmpty? || before.Alias? ==> after == before)
      && !IsNode(before)
  {
    hide Insert, RecordAt, MergeValues, FreeStatus;
    InsertPointwise(t, p, false, Data(v), s, a);
    RecordIsLeaf(t, a);
    InsertSucceedsIff(t, p, false, Data(v), s, |a|);
    if IsUserRecord(RecordAt(t, a)) { PlacedData(RecordAt(t, a), v, s); }
  }

  /** A successful remove empties the records of its network, and nothing else. */
  lemma RemovedRecord(t: Tree, p: Path, a: Path)
    requires WellFormed(t) && Height(t) <= |a| && |p| <= |a|
    requires Insert(t, p, false, Empty, NoMerge).status == Success
    ensures var before, after := RecordAt(t, a), RecordAt(Insert(t, p, false, Empty, NoMerge).tree, a);
      after == if p <= a && before.Data? then Empty else before
  {
    hide Insert, RecordAt;
    InsertPointwise(t, p, false, Empty, NoMerge, a);
  }

  /** Placing data over one leaf. */
  lemma PlacedData(leaf: Tree, v: Value, s: Strategy)
    requires IsUserRecord(leaf)
    ensures leaf.Empty? ==> Place(leaf, Data(v), s) == Outcome(Success, if s == AddOnly then Empty else Data(v))
    ensures leaf.Data? && (s == NoMerge || leaf.v == v) ==> Place(leaf, Data(v), s) == Outcome(Success, Data(v))
    ensures leaf.Data? && s != NoMerge && leaf.v != v ==>
      Place(leaf, Data(v), s)
      == if !leaf.v.Map? || !v.Map? then Outcome(MergeNotHashes, leaf)
         else if MergeValues(s, v, leaf.v).None? then Outcome(MergeMismatch, leaf)
         else Outcome(Success, Data(MergeValues(s, v, leaf.v).value))
  {
  }
  // ---------- Statuses ----------

  /** The insert comes to an alias exactly when one stands at the network or above it. */
  lemma {:induction false} MeetsAliasIff(t: Tree, p: Path)
    ensures MeetsAlias(t, p) <==> exists k | 0 <= k <= |p| :: SubtreeAt(t, p[..k]).Alias?
  {
    assert p[..0] == [];
    assert SubtreeAt(t, []) == t;
    if !t.Alias? && p != [] {
      var b := p[0];
      forall k | 1 <= k <= |p|
        ensures SubtreeAt(t, p[..k]) == if IsNode(t) then SubtreeAt(Child(t, b), p[1..][..k - 1]) else Empty
      {
        assert p[..k][1..] == p[1..][..k - 1];
      }
      MeetsAliasIff(Child(t, b), p[1..]);
      if MeetsAlias(t, p) {
        var k :| 0 <= k <= |p[1..]| && SubtreeAt(Child(t, b), p[1..][..k]).Alias?;
        assert SubtreeAt(t, p[..k + 1]).Alias?;
      }
      if k :| 0 <= k <= |p| && SubtreeAt(t, p[..k]).Alias? {
        assert k > 0;
        assert SubtreeAt(Child(t, b), p[1..][..k - 1]).Alias?;
      }
    }
  }

  /** The larger of two addresses. */
  lemma {:induction false} AboveIsLarger(b: Path, a: Path)
    requires |a| == |b|
    ensures Above(b, a) <==> NumberOf(a) < NumberOf(b)
    decreases |a|
  {
    hide Pow2;
    if a != [] {
      LeadingBit(a);
      LeadingBit(b);
      AboveIsLarger(b[1..], a[1..]);
    }
  }

  lemma {:induction false} LeadingBit(a: Path)
    requires a != []
    ensures NumberOf(a) == (if a[0] then Pow2(|a| - 1) else 0) + NumberOf(a[1..])
    decreases |a|
  {
    var n := |a| - 1;
    if n > 0 {
      LeadingBit(a[..n]);
      assert a[1..][..n - 1] == a[..n][1..];
      assert a[1..][n - 1] == a[n];
    } else {
      assert a[..0] == [] && a[1..] == [];
    }
  }

  /** The data at an address refuses v: they differ, and they are not two hashes that merge. */
  predicate Refuses(record: Tree, v: Value, s: Strategy) {
    && record.Data? && record.v != v && s != NoMerge
    && !(record.v.Map? && v.Map? && MergeValues(s, v, record.v).Some?)
  }

  /** Inserting v at an alias or below one is refused. Otherwise it goes through exactly when no data of the network
      refuses v, and else it croaks for the refusing data at the largest address. */
  lemma InsertStatus(t: Tree, p: Path, v: Value, s: Strategy, w: nat) returns (a: Path)
    requires WellFormed(t) && Height(t) <= w && |p| <= w
    ensures var status := Insert(t, p, false, Data(v), s).status;
      if SubtreeAt(t, p).Alias? then status == AliasOverwriteAttempt
      else if exists k | 0 <= k < |p| :: SubtreeAt(t, p[..k]).Alias? then status == InsertIntoAliasNode
      else if forall b: Path | |b| == w && p <= b :: !Refuses(RecordAt(t, b), v, s) then status == Success
      else
        && |a| == w && p <= a && Refuses(RecordAt(t, a), v, s)
        && (forall b: Path | |b| == w && p <= b && NumberOf(a) < NumberOf(b) :: !Refuses(RecordAt(t, b), v, s))
        && status == if RecordAt(t, a).v.Map? && v.Map? then MergeMismatch else MergeNotHashes
  {
    hide Insert, Refuses, Accepts, MeetsAlias, WellFormed, Height, MergeValues, SubtreeAt, Above, NumberOf;
    a := [];
    assert p[..|p|] == p;
    MeetsAliasIff(t, p);
    InsertSucceedsIff(t, p, false, Data(v), s, w);
    forall b: Path | |b| == w ensures Accepts(RecordAt(t, b), Data(v), s) <==> !Refuses(RecordAt(t, b), v, s) {
      AcceptsUnlessRefuses(RecordAt(t, b), v, s);
    }
    if MeetsAlias(t, p) {
      AliasRefused(t, p, Data(v), s);
    } else if Insert(t, p, false, Data(v), s).status != Success {
      a := FailsAtFirstRefusal(t, p, false, Data(v), s, w);
      AcceptsUnlessRefuses(RecordAt(t, a), v, s);
      forall b: Path | |b| == w && p <= b && NumberOf(a) < NumberOf(b) ensures !Refuses(RecordAt(t, b), v, s) {
        AboveIsLarger(b, a);
      }
    }
  }

  lemma AcceptsUnlessRefuses(leaf: Tree, v: Value, s: Strategy)
    ensures Accepts(leaf, Data(v), s) <==> !Refuses(leaf, v, s)
    ensures Refuses(leaf, v, s) ==>
      Place(leaf, Data(v), s).status == if leaf.v.Map? && v.Map? then MergeMismatch else MergeNotHashes
  {
    if IsUserRecord(leaf) { PlacedData(leaf, v, s); }
  }
}
