/** The merge routines in the source's own form: loops that build a new hash or array (c/tree.c:1119-1245). */
module MergeLoops {
  import opened Wrappers
  import opened Data
  import opened Merge

  /** The members of `to` once the keys in `done` have been visited. */
  ghost predicate MergedSoFar(s: Strategy, from: map<Bytes, Value>, to: map<Bytes, Value>, done: set<Bytes>,
                              m: map<Bytes, Value>)
  {
    && m.Keys == to.Keys + (set k | k in done && k in from && Copied(s, from[k]))
    && (forall k | k in m ::
          if k in done && k in from && k in to then MergeMembers(s, from[k], to[k]) == Some(m[k])
          else if k in to then m[k] == to[k] else k in from && m[k] == from[k])
  }

  lemma AllMerged(s: Strategy, from: map<Bytes, Value>, to: map<Bytes, Value>, m: map<Bytes, Value>)
    requires MergedSoFar(s, from, to, from.Keys, m)
    ensures MergeValues(s, Map(from), Map(to)) == Some(Map(m))
  {
    forall k | k in from && k in to ensures MergeMembers(s, from[k], to[k]).Some? {
      assert k in m;
    }
    var r := MergeValues(s, Map(from), Map(to)).value.entries;
    assert r.Keys == m.Keys;
    forall k | k in m ensures r[k] == m[k] {
      if k in from && k in to { assert MergeMembers(s, from[k], to[k]) == Some(m[k]); }
    }
    assert r == m;
  }

  /** The first pass of merge_hashes runs with the unknown strategy, which replaces and never descends. */
  function Effective(strategy: Option<Strategy>): Strategy {
    if strategy.Some? then strategy.value else NoMerge
  }

  /** merge_new_from_hash_into_hash: hv_iternext visits the keys in no particular order. */
  method MergeNewFromHashIntoHash(strategy: Option<Strategy>, source: Value, to: map<Bytes, Value>)
      returns (r: Option<map<Bytes, Value>>)
    requires source.Map?
    ensures r.Some? ==> MergeValues(Effective(strategy), source, Map(to)) == Some(Map(r.value))
    ensures r.None? ==> MergeValues(Effective(strategy), source, Map(to)) == None
    decreases strategy.Some?, source, 3
  {
    var from := source.entries;
    ghost var s := Effective(strategy);
    var m := to;
    var todo := from.Keys;
    while todo != {}
      invariant todo <= from.Keys
      invariant MergedSoFar(s, from, to, from.Keys - todo, m)
    {
      var k :| k in todo;
      var value := from[k];
      ghost var done := from.Keys - todo;
      todo := todo - {k};
      if k in m {
        if strategy == Some(Recurse) || strategy == Some(AddOnly) {
          var merged := MergeTwo(strategy.value, value, m[k]);
          if merged.None? {
            assert MergeMembers(s, from[k], to[k]).None?;
            return None;
          }
          value := merged.value;
        }
        m := m[k := value];
      } else if strategy == Some(AddOnly) && IsReference(value) {
      } else {
        m := m[k := value];
      }
      assert from.Keys - todo == done + {k};
    }
    assert from.Keys - todo == from.Keys;
    AllMerged(s, from, to, m);
    r := Some(m);
  }

  /** merge_hashes: copy the existing hash, then add the inserted one to the copy. */
  method MergeHashes(s: Strategy, from: Value, into: Value) returns (r: Option<Value>)
    requires from.Map? && into.Map?
    ensures r == MergeValues(s, from, into)
    decreases true, from, 4
  {
    var copy := MergeNewFromHashIntoHash(None, into, map[]);
    CopyIsExact(into);
    var merged := MergeNewFromHashIntoHash(Some(s), from, copy.value);
    r := if merged.Some? then Some(Map(merged.value)) else None;
  }

  lemma CopyIsExact(into: Value)
    requires into.Map?
    ensures MergeValues(NoMerge, into, Map(map[])) == Some(into)
  {
    assert MergeValues(NoMerge, into, Map(map[])).value.entries == into.entries;
  }

  /** merge_values. */
  method MergeTwo(s: Strategy, from: Value, into: Value) returns (r: Option<Value>)
    ensures r == MergeValues(s, from, into)
    decreases true, from, 5
  {
    if IsReference(from) != IsReference(into) {
      return None;
    }
    if !IsReference(from) {
      return Some(from);
    }
    if from.Map? && into.Map? {
      r := MergeHashes(s, from, into);
      return;
    }
    if from.Array? && into.Array? {
      r := MergeArrays(s, from, into);
      return;
    }
    return None;
  }

  /** merge_arrays: an array stops growing at the first reference that add-only may not create. */
  method MergeArrays(s: Strategy, from: Value, into: Value) returns (r: Option<Value>)
    requires from.Array? && into.Array?
    ensures r == MergeValues(s, from, into)
    decreases true, from, 4
  {
    var f, i := from.items, into.items;
    var newLength := if |f| > |i| then |f| else |i|;
    var newArray: seq<Value> := [];
    var n := 0;
    while n < newLength
      invariant n == |newArray| <= newLength
      invariant forall j | 0 <= j < n && j < |f| && j < |i| :: MergeValues(s, f[j], i[j]) == Some(newArray[j])
      invariant forall j | |i| <= j < n :: newArray[j] == f[j] && Copied(s, f[j])
      invariant forall j | |f| <= j < n :: newArray[j] == i[j]
    {
      if n < |f| && n < |i| {
        var merged := MergeTwo(s, f[n], i[n]);
        if merged.None? {
          return None;
        }
        newArray := newArray + [merged.value];
      } else if n < |f| {
        if s == AddOnly && IsReference(f[n]) {
          break;
        }
        newArray := newArray + [f[n]];
      } else {
        newArray := newArray + [i[n]];
      }
      n := n + 1;
    }
    assert n == MergedLength(s, f, i);
    r := Some(Array(newArray));
    assert MergeValues(s, from, into).value.items == newArray;
  }
}
