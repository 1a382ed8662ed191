/** Merging the data of two records (c/tree.c:1081-1245). */
module Merge {
  import opened Wrappers
  import opened Data

  /** Does a hash member that only the inserted side has get copied? */
  predicate Copied(s: Strategy, v: Value) { s == AddOnly ==> v.Scalar? }

  /** The keys of the merged hash. */
  function MergedKeys(s: Strategy, from: map<Bytes, Value>, into: map<Bytes, Value>): set<Bytes> {
    into.Keys + set k | k in from && Copied(s, from[k])
  }

  /** How many leading items of `from`, starting at index i, can be appended to an array that ends there. */
  function AppendableEnd(s: Strategy, from: seq<Value>, i: nat): (n: nat)
    requires i <= |from|
    ensures i <= n <= |from|
    ensures forall j :: i <= j < n ==> Copied(s, from[j])
    ensures n < |from| ==> !Copied(s, from[n])
    decreases |from| - i
  {
    if i < |from| && Copied(s, from[i]) then AppendableEnd(s, from, i + 1) else i
  }

  function MergedLength(s: Strategy, from: seq<Value>, into: seq<Value>): nat {
    if |from| <= |into| then |into| else AppendableEnd(s, from, |into|)
  }

  /** merge_values: None where the source croaks. */
  function MergeValues(s: Strategy, from: Value, into: Value): Option<Value>
    decreases from, 0
  {
    match (from, into)
    case (Scalar(_), Scalar(_)) => Some(from)
    case (Map(f), Map(i)) =>
      if forall k | k in f && k in i :: MergeMembers(s, f[k], i[k]).Some? then
        Some(Map(map k | k in MergedKeys(s, f, i) ::
          if k in f && k in i then MergeMembers(s, f[k], i[k]).value else if k in f then f[k] else i[k]))
      else None
    case (Array(f), Array(i)) =>
      if forall j | 0 <= j < |f| && j < |i| :: MergeValues(s, f[j], i[j]).Some? then
        Some(Array(seq(MergedLength(s, f, i), j requires 0 <= j < MergedLength(s, f, i) =>
          if j < |f| && j < |i| then MergeValues(s, f[j], i[j]).value else if j < |f| then f[j] else i[j])))
      else None
    case _ => None
  }

  /** The value of a hash member that both sides have. */
  function MergeMembers(s: Strategy, from: Value, into: Value): Option<Value>
    decreases from, 1
  {
    if s == Recurse || s == AddOnly then MergeValues(s, from, into) else Some(from)
  }
}
