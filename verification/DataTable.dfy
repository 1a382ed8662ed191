/** The reference-counted data table and the merge cache (c/tree.c:441-511, 1043-1071, 2082-2115). */
module DataTable {
  import opened Wrappers
  import opened Data
  import opened Merge

  /** data_sv is NULL while a tree is being thawed. */
  datatype Entry = Entry(data: Option<Value>, count: nat)

  /** Each key's count is the number of times it is held, and no entry has count zero. */
  ghost predicate Counts(table: map<Key, Entry>, held: multiset<Key>) {
    && (forall k :: k in table <==> k in held)
    && (forall k | k in table :: table[k].count == held[k])
  }

  /** What is stored under a key is what the key was made from. */
  ghost predicate Truthful(table: map<Key, Entry>, keyFor: Value -> Key) {
    forall k | k in table && table[k].data.Some? :: keyFor(table[k].data.value) == k
  }

  ghost predicate Complete(table: map<Key, Entry>) {
    forall k | k in table :: table[k].data.Some?
  }

  function StrategyDigit(s: Strategy): Byte {
    match s case NoMerge => 49 case TopLevel => 50 case Recurse => 51 case AddOnly => 52
  }

  const DASH: Byte := 45

  /** The cache key "%d-%s-%s". */
  function MergeCacheKey(s: Strategy, from: Key, into: Key): seq<Symbol> {
    [StrategyDigit(s), DASH] + from + [DASH] + into
  }

  /** Keys of one length make the cache key unambiguous. */
  lemma MergeCacheKeyInjective(s: Strategy, from: Key, into: Key, s': Strategy, from': Key, into': Key)
    requires |from| == |from'| == SHA1_KEY_LENGTH
    requires MergeCacheKey(s, from, into) == MergeCacheKey(s', from', into')
    ensures s == s' && from == from' && into == into'
  {
    var k, k' := MergeCacheKey(s, from, into), MergeCacheKey(s', from', into');
    assert k[0] == StrategyDigit(s) && k'[0] == StrategyDigit(s');
    assert from == k[2..2 + SHA1_KEY_LENGTH] && from' == k'[2..2 + SHA1_KEY_LENGTH];
    assert into == k[3 + SHA1_KEY_LENGTH..] && into' == k'[3 + SHA1_KEY_LENGTH..];
  }

  /** Every cache entry names the key of the true merge. */
  ghost predicate CacheTruthful(cache: map<seq<Symbol>, Key>, keyFor: Value -> Key) {
    forall s, from, into | MergeCacheKey(s, keyFor(from), keyFor(into)) in cache ::
      && from.Map? && into.Map?
      && MergeValues(s, from, into).Some?
      && cache[MergeCacheKey(s, keyFor(from), keyFor(into))] == keyFor(MergeValues(s, from, into).value)
  }

  lemma CacheSays(cache: map<seq<Symbol>, Key>, keyFor: Value -> Key, s: Strategy, from: Value, into: Value)
    requires CacheTruthful(cache, keyFor)
    ensures var key := MergeCacheKey(s, keyFor(from), keyFor(into));
      key in cache ==>
        from.Map? && into.Map? && MergeValues(s, from, into).Some?
          && cache[key] == keyFor(MergeValues(s, from, into).value)
  {
  }

  lemma CacheGrows(cache: map<seq<Symbol>, Key>, keyFor: Value -> Key, s: Strategy, from: Value, into: Value)
    requires IsKeyFunction(keyFor) && CacheTruthful(cache, keyFor)
    requires from.Map? && into.Map? && MergeValues(s, from, into).Some?
    ensures CacheTruthful(cache[MergeCacheKey(s, keyFor(from),
      keyFor(into)) := keyFor(MergeValues(s, from, into).value)], keyFor)
  {
    var key := MergeCacheKey(s, keyFor(from), keyFor(into));
    forall s', from', into' | MergeCacheKey(s', keyFor(from'), keyFor(into')) == key
      ensures s' == s && from' == from && into' == into
    {
      MergeCacheKeyInjective(s, keyFor(from), keyFor(into), s', keyFor(from'), keyFor(into'));
    }
  }
}
