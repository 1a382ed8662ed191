/** The hash table under the data table and the merge cache (c/uthash.h), with an arbitrary hash function. */
module UtHash {
  import opened Data
  import opened Address
  import opened Ranges

  const HASH_INITIAL_NUM_BUCKETS_LOG2 := 5
  const HASH_BKT_CAPACITY_THRESH := 10

  /** An element with its hash handle. */
  class Item {
    const key: Key
    var hashv: nat
    var prev: Item?       // in app order
    var next: Item?
    var hhPrev: Item?     // in its bucket
    var hhNext: Item?

    constructor (key: Key)
      ensures this.key == key
    {
      this.key := key;
      hashv := 0;
      prev, next, hhPrev, hhNext := null, null, null, null;
    }
  }

  datatype Bucket = Bucket(head: Item?, count: nat, expandMult: nat)

  // ---------- Lists ----------

  ghost predicate NoDup(s: seq<Item>) { forall i, j | 0 <= i < j < |s| :: s[i] != s[j] }

  ghost function ItemAt(s: seq<Item>, i: int): Item? { if 0 <= i < |s| then s[i] else null }

  ghost function SetOf(s: seq<Item>): set<Item> { set i | i in s }

  /** The app-order list, in both directions. */
  ghost predicate AppLinked(s: seq<Item>)
    reads SetOf(s)`prev, SetOf(s)`next
  {
    NextLinked(s) && PrevLinked(s)
  }

  ghost predicate NextLinked(s: seq<Item>)
    reads SetOf(s)`next
  {
    forall i | 0 <= i < |s| :: s[i].next == ItemAt(s, i + 1)
  }

  ghost predicate PrevLinked(s: seq<Item>)
    reads SetOf(s)`prev
  {
    forall i | 0 <= i < |s| :: s[i].prev == ItemAt(s, i - 1)
  }

  /** A bucket's chain, forwards from position k on. */
  ghost predicate Forward(s: seq<Item>, k: nat)
    reads SetOf(s)`hhNext
  {
    forall i | k <= i < |s| :: s[i].hhNext == ItemAt(s, i + 1)
  }

  ghost predicate Backward(s: seq<Item>)
    reads SetOf(s)`hhPrev
  {
    forall i | 0 <= i < |s| :: s[i].hhPrev == ItemAt(s, i - 1)
  }

  // ---------- Buckets ----------

  /** A bucket is the head, and the length, of a chain of items whose hashes mask to its index. */
  ghost predicate ChainAt(bucket: Bucket, c: seq<Item>, b: nat, n: nat)
    requires n > 0
    reads SetOf(c)`hhPrev, SetOf(c)`hhNext, SetOf(c)`hashv
  {
    && bucket.head == ItemAt(c, 0) && bucket.count == |c|
    && NoDup(c) && Forward(c, 0) && Backward(c)
    && (forall i | i in c :: i.hashv % n == b)
  }

  ghost function AllItems(cs: seq<seq<Item>>): set<Item> { set c, i | c in cs && i in c :: i }

  lemma ChainInAll(cs: seq<seq<Item>>, b: nat)
    requires b < |cs|
    ensures SetOf(cs[b]) <= AllItems(cs)
  {
    assert cs[b] in cs;
  }

  ghost predicate ChainsOk(bs: seq<Bucket>, cs: seq<seq<Item>>)
    reads AllItems(cs)`hhPrev, AllItems(cs)`hhNext, AllItems(cs)`hashv
  {
    && |bs| == |cs| > 0
    && forall b {:trigger cs[b]} | 0 <= b < |cs| :: (ChainInAll(cs, b); ChainAt(bs[b], cs[b], b, |cs|))
  }

  ghost function TotalLength(cs: seq<seq<Item>>): nat { if cs == [] then 0 else |cs[0]| + TotalLength(cs[1..]) }

  lemma {:induction false} TotalLengthUpdate(cs: seq<seq<Item>>, b: nat, c: seq<Item>)
    requires b < |cs|
    ensures TotalLength(cs[b := c]) == TotalLength(cs) - |cs[b]| + |c|
  {
    if b == 0 {
      assert cs[0 := c][1..] == cs[1..];
    } else {
      assert cs[b := c][1..] == cs[1..][b - 1 := c];
      TotalLengthUpdate(cs[1..], b - 1, c);
    }
  }

  /** How many items of a chain are more than its ideal length. */
  function Excess(length: nat, ideal: nat): nat { if length > ideal then length - ideal else 0 }

  ghost function TotalExcess(cs: seq<seq<Item>>, ideal: nat): nat {
    if cs == [] then 0 else Excess(|cs[0]|, ideal) + TotalExcess(cs[1..], ideal)
  }

  lemma {:induction false} TotalExcessUpdate(cs: seq<seq<Item>>, b: nat, c: seq<Item>, ideal: nat)
    requires b < |cs|
    ensures TotalExcess(cs[b := c], ideal) == TotalExcess(cs, ideal) - Excess(|cs[b]|, ideal) + Excess(|c|, ideal)
  {
    if b == 0 {
      assert cs[0 := c][1..] == cs[1..];
    } else {
      assert cs[b := c][1..] == cs[1..][b - 1 := c];
      TotalExcessUpdate(cs[1..], b - 1, c, ideal);
    }
  }

  /** Only what is beyond the ideal length counts, chain by chain. */
  lemma {:induction false} ExcessMeans(cs: seq<seq<Item>>, ideal: nat)
    ensures TotalExcess(cs, ideal) == 0 <==> forall c | c in cs :: |c| <= ideal
    ensures (forall c | c in cs :: |c| >= ideal) ==> TotalExcess(cs, ideal) + |cs| * ideal == TotalLength(cs)
  {
    if cs != [] {
      ExcessMeans(cs[1..], ideal);
      assert forall c :: c in cs <==> c == cs[0] || c in cs[1..];
      OnceMore(|cs[1..]|, ideal);
    }
  }

  lemma OnceMore(n: nat, d: nat)
    ensures (n + 1) * d == n * d + d
  {
  }

  /** A bucket with more items than is ideal may hold that many times more before it asks for an expansion. */
  predicate Multiplied(bs: seq<Bucket>, ideal: nat)
    requires ideal > 0
  {
    forall b | 0 <= b < |bs| :: bs[b].expandMult == if bs[b].count > ideal then bs[b].count / ideal else 0
  }

  /** HASH_ADD_TO_BKT without the expansion: the item becomes the head of its chain. */
  method PushOnChain(bucket: Bucket, x: Item, ghost c: seq<Item>, ghost b: nat, ghost n: nat) returns (bucket': Bucket)
    requires n > 0 && ChainAt(bucket, c, b, n) && x !in c && x.hashv % n == b
    modifies {x}`hhNext, {x}`hhPrev, SetOf(c)`hhPrev
    ensures ChainAt(bucket', [x] + c, b, n) && bucket' == Bucket(x, bucket.count + 1, bucket.expandMult)
  {
    x.hhNext := bucket.head;
    x.hhPrev := null;
    if bucket.head != null {
      bucket.head.hhPrev := x;
    }
    bucket' := Bucket(x, bucket.count + 1, bucket.expandMult);
    ghost var c' := [x] + c;
    forall i | 0 <= i < |c'|
      ensures c'[i].hhNext == ItemAt(c', i + 1) && c'[i].hhPrev == ItemAt(c', i - 1)
    {
      if i > 0 { assert c'[i] == c[i - 1]; }
    }
  }

  /** Chains of different buckets have no item in common. */
  lemma ChainsApart(bs: seq<Bucket>, cs: seq<seq<Item>>, b: nat, c: nat)
    requires ChainsOk(bs, cs) && b < |cs| && c < |cs| && b != c
    ensures SetOf(cs[b]) !! SetOf(cs[c])
  {
    forall i | i in SetOf(cs[b]) ensures i !in SetOf(cs[c]) {
      assert i.hashv % |cs| == b;
    }
  }

  lemma ChainFacts(bs: seq<Bucket>, cs: seq<seq<Item>>, b: nat)
    requires ChainsOk(bs, cs) && b < |cs|
    ensures SetOf(cs[b]) <= AllItems(cs) && ChainAt(bs[b], cs[b], b, |cs|)
  {
    ChainInAll(cs, b);
  }

  /** Every chain is fine, from the facts about each. */
  lemma ChainsAgain(bs: seq<Bucket>, cs: seq<seq<Item>>)
    requires |bs| == |cs| > 0 && forall b {:trigger cs[b]} | 0 <= b < |cs| :: ChainAt(bs[b], cs[b], b, |cs|)
    ensures ChainsOk(bs, cs)
  {
  }

  lemma AllItemsUpdate(cs: seq<seq<Item>>, b: nat, c: seq<Item>)
    requires b < |cs|
    ensures AllItems(cs[b := c]) <= AllItems(cs) + SetOf(c)
    ensures SetOf(cs[b]) <= SetOf(c) ==> AllItems(cs[b := c]) == AllItems(cs) + SetOf(c)
  {
    var cs' := cs[b := c];
    forall i | i in AllItems(cs') ensures i in AllItems(cs) + SetOf(c) {
      var k :| 0 <= k < |cs'| && i in cs'[k];
      if k != b { assert cs'[k] == cs[k] && cs[k] in cs; }
    }
    if SetOf(cs[b]) <= SetOf(c) {
      forall i | i in AllItems(cs) + SetOf(c) ensures i in AllItems(cs') {
        if i in SetOf(c) {
          assert cs'[b] in cs';
        } else {
          assert i !in SetOf(cs[b]);
          var k :| 0 <= k < |cs| && i in cs[k];
          assert cs'[k] == cs[k] && cs'[k] in cs';
        }
      }
    }
  }

  /** Pushing an item in front of one chain of an array of buckets. */
  method PushFront(bs: array<Bucket>, b: nat, x: Item, ghost cs: seq<seq<Item>>) returns (ghost cs': seq<seq<Item>>)
    requires ChainsOk(bs[..], cs) && x !in AllItems(cs) && b < |cs| && x.hashv % |cs| == b
    modifies bs, {x}`hhNext, {x}`hhPrev, AllItems(cs)`hhPrev
    ensures cs' == cs[b := [x] + cs[b]] && ChainsOk(bs[..], cs')
    ensures bs[b] == Bucket(x, old(bs[b].count) + 1, old(bs[b].expandMult))
    ensures forall c | 0 <= c < bs.Length && c != b :: bs[c] == old(bs[c])
    ensures TotalLength(cs') == TotalLength(cs) + 1 && AllItems(cs') == AllItems(cs) + {x}
  {
    hide ChainAt, AllItems, ChainsOk;
    cs' := cs[b := [x] + cs[b]];
    ghost var before := bs[..];
    ChainsLength(before, cs);
    ChainFacts(before, cs, b);
    forall c | 0 <= c < |cs| && c != b
      ensures SetOf(cs[c]) <= AllItems(cs) && ChainAt(before[c], cs[c], c, |cs|) && SetOf(cs[b]) !! SetOf(cs[c])
    {
      ChainFacts(before, cs, c);
      ChainsApart(before, cs, b, c);
    }
    var pushed := PushOnChain(bs[b], x, cs[b], b, |cs|);
    bs[b] := pushed;
    forall c {:trigger cs'[c]} | 0 <= c < |cs'| ensures ChainAt(bs[..][c], cs'[c], c, |cs'|) {
      if c != b {
        assert bs[..][c] == before[c];
      }
    }
    ChainsAgain(bs[..], cs');
    TotalLengthUpdate(cs, b, [x] + cs[b]);
    assert SetOf([x] + cs[b]) == {x} + SetOf(cs[b]);
    AllItemsUpdate(cs, b, [x] + cs[b]);
  }

  lemma ChainsLength(bs: seq<Bucket>, cs: seq<seq<Item>>)
    requires ChainsOk(bs, cs)
    ensures |bs| == |cs| > 0
  {
  }

  /** HASH_FIND_IN_BKT. */
  method FindInBucket(first: Item?, key: Key, ghost c: seq<Item>) returns (found: Item?)
    requires first == ItemAt(c, 0) && Forward(c, 0)
    ensures found != null ==> found in c && found.key == key
    ensures found == null ==> forall i | i in c :: i.key != key
  {
    found := first;
    ghost var k := 0;
    while found != null && found.key != key
      invariant k <= |c| && found == ItemAt(c, k)
      invariant forall i | 0 <= i < k :: c[i].key != key
      decreases |c| - k
    {
      found := found.hhNext;
      k := k + 1;
    }
  }

  // ---------- Moving chains to twice as many buckets ----------

  /** The inner loop of HASH_EXPAND_BUCKETS: every item of one chain goes to the head of its new chain. */
  method MoveChain(first: Item?, bs: array<Bucket>, log2: nat, ideal: nat, ghost c: seq<Item>, ghost cs: seq<seq<Item>>)
      returns (nonideal: nat, ghost cs': seq<seq<Item>>)
    requires first == ItemAt(c, 0) && Forward(c, 0) && NoDup(c) && ideal > 0
    requires ChainsOk(bs[..], cs) && |cs| == Pow2(log2) && SetOf(c) !! AllItems(cs)
    modifies bs, SetOf(c)`hhNext, SetOf(c)`hhPrev, AllItems(cs)`hhPrev
    requires Multiplied(bs[..], ideal)
    ensures ChainsOk(bs[..], cs') && |cs'| == |cs| && AllItems(cs') == AllItems(cs) + SetOf(c)
    ensures TotalLength(cs') == TotalLength(cs) + |c|
    ensures Multiplied(bs[..], ideal) && TotalExcess(cs', ideal) == TotalExcess(cs, ideal) + nonideal
  {
    hide ChainsOk, AllItems, Pow2, TotalLength, NoDup, Multiplied, TotalExcess;
    var thh := first;
    ghost var k := 0;
    nonideal, cs' := 0, cs;
    Taken(c, 0);
    while thh != null
      invariant k <= |c| && thh == ItemAt(c, k) && Forward(c, k)
      invariant ChainsOk(bs[..], cs') && |cs'| == |cs| && AllItems(cs') == AllItems(cs) + SetOf(c[..k])
      invariant TotalLength(cs') == TotalLength(cs) + k
      invariant Multiplied(bs[..], ideal) && TotalExcess(cs', ideal) == TotalExcess(cs, ideal) + nonideal
      decreases |c| - k
    {
      var next := thh.hhNext;
      Taken(c, k);
      var more;
      more, cs' := MoveItem(thh, bs, log2, ideal, cs');
      nonideal := nonideal + more;
      thh := next;
      k := k + 1;
    }
    Taken(c, k);
  }

  /** The items up to position k, and the one there. */
  lemma Taken(c: seq<Item>, k: nat)
    requires k <= |c| && NoDup(c)
    ensures k == 0 ==> SetOf(c[..k]) == {}
    ensures k == |c| ==> SetOf(c[..k]) == SetOf(c)
    ensures k < |c| ==>
      && c[k] !in SetOf(c[..k]) && c[k] in SetOf(c) && SetOf(c[..k + 1]) == SetOf(c[..k]) + {c[k]}
      && forall i | k < i < |c| :: c[i] != c[k]
  {
    if k == |c| {
      assert c[..k] == c;
    } else {
      assert c[..k + 1] == c[..k] + [c[k]];
    }
  }

  /** One item goes to its new chain. */
  method MoveItem(x: Item, bs: array<Bucket>, log2: nat, ideal: nat, ghost cs: seq<seq<Item>>)
      returns (nonideal: nat, ghost cs': seq<seq<Item>>)
    requires ChainsOk(bs[..], cs) && |cs| == Pow2(log2) && x !in AllItems(cs)
    requires ideal > 0 && Multiplied(bs[..], ideal)
    modifies bs, {x}`hhNext, {x}`hhPrev, AllItems(cs)`hhPrev
    ensures ChainsOk(bs[..], cs') && |cs'| == |cs| && AllItems(cs') == AllItems(cs) + {x}
    ensures TotalLength(cs') == TotalLength(cs) + 1
    ensures Multiplied(bs[..], ideal) && TotalExcess(cs', ideal) == TotalExcess(cs, ideal) + nonideal
  {
    hide ChainsOk, AllItems, Pow2, TotalLength, TotalExcess;
    var b := BucketIndex(x.hashv, log2);
    ChainsLength(bs[..], cs);
    BucketCount(bs[..], cs, b);
    TotalExcessUpdate(cs, b, [x] + cs[b], ideal);
    cs' := PushFront(bs, b, x, cs);
    nonideal := 0;
    if bs[b].count > ideal {
      nonideal := 1;
      SetMultiplier(bs, b, bs[b].count / ideal, cs');
    }
  }

  lemma NothingMultiplied(bs: seq<Bucket>, ideal: nat)
    requires ideal > 0 && forall b | 0 <= b < |bs| :: bs[b] == Bucket(null, 0, 0)
    ensures Multiplied(bs, ideal)
  {
  }

  lemma BucketCount(bs: seq<Bucket>, cs: seq<seq<Item>>, b: nat)
    requires ChainsOk(bs, cs) && b < |cs|
    ensures bs[b].count == |cs[b]|
  {
    ChainFacts(bs, cs, b);
  }

  /** The multiplier plays no part in what the chains hold. */
  method SetMultiplier(bs: array<Bucket>, b: nat, expandMult: nat, ghost cs: seq<seq<Item>>)
    requires ChainsOk(bs[..], cs) && b < |cs| == bs.Length
    modifies bs
    ensures ChainsOk(bs[..], cs) && bs[..] == old(bs[..])[b := old(bs[b]).(expandMult := expandMult)]
  {
    bs[b] := bs[b].(expandMult := expandMult);
    forall c {:trigger cs[c]} | 0 <= c < |cs| ensures ChainAt(bs[..][c], cs[c], c, |cs|) {
      ChainInAll(cs, c);
    }
  }

  // ---------- Masks ----------

  /** hashv & (num_bkts - 1) */
  lemma {:induction false} MaskIsMod(x: nat, k: nat)
    ensures And(x, Pow2(k) - 1) == x % Pow2(k)
    decreases k, x
  {
    hide And, Pow2;
    Pow2Step(0);
    AndStep(x, Pow2(k) - 1);
    if x == 0 {
      DivModUnique(0, Pow2(k), 0, 0);
    } else if k > 0 {
      Pow2Step(k - 1);
      Halves(Pow2(k - 1) - 1);
      MaskIsMod(x / 2, k - 1);
      ModHalves(x, k - 1);
    } else {
      ModOne(x);
      MaskIsMod(x / 2, 0);
      ModOne(x / 2);
    }
  }

  /** HASH_TO_BKT */
  function BucketIndex(hashv: nat, log2: nat): (b: nat)
    ensures b == hashv % Pow2(log2) < Pow2(log2)
  {
    MaskIsMod(hashv, log2);
    And(hashv, Pow2(log2) - 1)
  }

  // ---------- The table ----------

  ghost predicate KeysDiffer(s: seq<Item>) { forall i, j | 0 <= i < j < |s| :: s[i].key != s[j].key }

  /** The finite map that a table stands for. */
  ghost function MapOf(s: seq<Item>): map<Key, Item>
    requires KeysDiffer(s)
  {
    map i | i in SetOf(s) :: i.key := i
  }

  lemma InMap(s: seq<Item>, x: Item)
    requires KeysDiffer(s) && x in s
    ensures x.key in MapOf(s) && MapOf(s)[x.key] == x
  {
    var m := MapOf(s);
    assert x in SetOf(s);
    var i, j :| 0 <= i < |s| && 0 <= j < |s| && s[i] == x && s[j] == m[x.key];
  }

  lemma NotInMap(s: seq<Item>, key: Key)
    requires KeysDiffer(s) && forall i | i in s :: i.key != key
    ensures key !in MapOf(s)
  {
  }

  lemma MapGrows(s: seq<Item>, x: Item)
    requires KeysDiffer(s) && forall i | i in s :: i.key != x.key
    ensures KeysDiffer(s + [x]) && MapOf(s + [x]) == MapOf(s)[x.key := x]
  {
  }

  lemma KeysStay(s: seq<Item>, p: nat)
    requires p < |s| && NoDup(s) && KeysDiffer(s)
    ensures KeysDiffer(Without(s, p)) && SetOf(Without(s, p)) == SetOf(s) - {s[p]}
    ensures forall i | i in SetOf(Without(s, p)) :: i.key != s[p].key
  {
    WithoutAt(s, p);
    var s' := Without(s, p);
    forall i, j | 0 <= i < j < |s'| ensures s'[i].key != s'[j].key {
      assert s'[i] == s[if i < p then i else i + 1] && s'[j] == s[if j < p then j else j + 1];
    }
    forall i | i in SetOf(s') ensures i.key != s[p].key {
      var k :| 0 <= k < |s'| && s'[k] == i;
      assert s'[k] == s[if k < p then k else k + 1];
    }
  }

  lemma MapShrinks(s: seq<Item>, p: nat)
    requires p < |s| && NoDup(s) && KeysDiffer(s)
    ensures KeysDiffer(Without(s, p)) && MapOf(Without(s, p)) == MapOf(s) - {s[p].key}
  {
    KeysStay(s, p);
    SameMap(Without(s, p), s, s[p]);
  }

  lemma SameMap(s': seq<Item>, s: seq<Item>, x: Item)
    requires KeysDiffer(s') && KeysDiffer(s) && SetOf(s') == SetOf(s) - {x} && x in SetOf(s)
    requires forall i | i in SetOf(s') :: i.key != x.key
    ensures MapOf(s') == MapOf(s) - {x.key}
  {
    hide KeysDiffer;
    var m, m' := MapOf(s), MapOf(s');
    forall k ensures k in m' <==> k in m && k != x.key {
      if k in m && k != x.key { assert m[k] in SetOf(s'); }
    }
  }

  class HashTable {
    const hash: Key -> nat
    var head: Item?                    // null when the table is empty; then there are no buckets
    var tail: Item?
    var buckets: array<Bucket>
    var log2NumBuckets: nat
    var numItems: nat
    var idealChainMaxlen: nat
    var nonidealItems: nat
    var ineffExpands: nat
    var noexpand: bool
    ghost var list: seq<Item>          // in app order
    ghost var chains: seq<seq<Item>>

    constructor (hash: Key -> nat)
      ensures Valid() && list == [] && this.hash == hash
    {
      this.hash := hash;
      head, tail := null, null;
      buckets := new Bucket[0];
      log2NumBuckets, numItems, idealChainMaxlen, nonidealItems, ineffExpands := 0, 0, 0, 0, 0;
      noexpand := false;
      list, chains := [], [];
    }

    ghost predicate AppOk()
      reads this`head, this`tail, this`list, SetOf(list)`prev, SetOf(list)`next
    {
      && NoDup(list) && AppLinked(list)
      && head == ItemAt(list, 0) && (list != [] ==> tail == list[|list| - 1])
    }

    /** The buckets hold exactly the items of `members`, each where its hash says. */
    ghost predicate BucketsOk(members: set<Item>)
      reads this`buckets, this`log2NumBuckets, this`chains, buckets
      reads AllItems(chains)`hhPrev, AllItems(chains)`hhNext, AllItems(chains)`hashv
    {
      && |chains| == Pow2(log2NumBuckets) && ChainsOk(buckets[..], chains)
      && AllItems(chains) == members
      && forall i | i in members :: i.hashv == hash(i.key)
    }

    /** The invariant that HASH_FSCK checks, and more: which chain an item is in, that keys differ, and why the table
        may no longer grow. */
    ghost predicate Valid()
      reads this, buckets, SetOf(list), AllItems(chains)
    {
      && AppOk() && KeysDiffer(list)
      && (list != [] ==>
            && BucketsOk(SetOf(list)) && numItems == |list| == TotalLength(chains)
            && (noexpand <==> ineffExpands > 1))
    }

    /** Everything that HASH_FSCK looks at. */
    lemma FsckPasses()
      requires Valid() && head != null
      ensures buckets.Length == |chains| == Pow2(log2NumBuckets)
      ensures forall b | 0 <= b < |chains| ::
        && buckets[b].count == |chains[b]| && buckets[b].head == ItemAt(chains[b], 0)
        && forall k | 0 <= k < |chains[b]| ::
             && chains[b][k].hhPrev == ItemAt(chains[b], k - 1) && chains[b][k].hhNext == ItemAt(chains[b], k + 1)
             && BucketIndex(hash(chains[b][k].key), log2NumBuckets) == b
      ensures TotalLength(chains) == numItems == |list|
      ensures forall k | 0 <= k < |list| :: list[k].prev == ItemAt(list, k - 1) && list[k].next == ItemAt(list, k + 1)
    {
      hide AllItems, Pow2, TotalLength;
      ChainsLength(buckets[..], chains);
      forall b | 0 <= b < |chains|
        ensures ChainAt(buckets[b], chains[b], b, |chains|) && SetOf(chains[b]) <= AllItems(chains)
      {
        ChainFacts(buckets[..], chains, b);
      }
      forall b, k | 0 <= b < |chains| && 0 <= k < |chains[b]|
        ensures BucketIndex(hash(chains[b][k].key), log2NumBuckets) == b
      {
        assert chains[b][k] in SetOf(chains[b]);
      }
    }

    // ---------- Finding ----------

    /** HASH_FIND: the item with the key, or null when there is none. */
    method Find(key: Key) returns (found: Item?)
      requires Valid()
      ensures found == if key in MapOf(list) then MapOf(list)[key] else null
    {
      hide ChainsOk, AllItems, Pow2, TotalLength, NoDup, Backward, MapOf, KeysDiffer, AppLinked;
      found := null;
      if head == null {
        NotInMap(list, key);
        return;
      }
      var b := BucketIndex(hash(key), log2NumBuckets);
      ChainFacts(buckets[..], chains, b);
      ChainsLength(buckets[..], chains);
      found := FindInBucket(buckets[b].head, key, chains[b]);
      if found == null {
        forall i | i in list ensures i.key != key {
          if i.key == key { InItsChain(i); }
        }
        NotInMap(list, key);
      } else {
        assert found in SetOf(chains[b]) && found in SetOf(list);
        InMap(list, found);
      }
    }

    /** An item is in the chain that its key hashes to. */
    lemma InItsChain(i: Item)
      requires Valid() && i in list
      ensures |chains| == Pow2(log2NumBuckets) && i in chains[hash(i.key) % |chains|]
    {
      assert i in AllItems(chains);
      var b :| 0 <= b < |chains| && i in chains[b];
      ChainFacts(buckets[..], chains, b);
    }

    // ---------- Adding ----------

    /** HASH_MAKE_TABLE: 32 empty buckets. */
    method MakeTable()
      modifies this`buckets, this`log2NumBuckets, this`numItems, this`idealChainMaxlen, this`nonidealItems,
        this`ineffExpands,
        this`noexpand, this`chains
      ensures BucketsOk({}) && fresh(buckets) && numItems == 0 == TotalLength(chains)
      ensures log2NumBuckets == 5 && |chains| == 32 && forall b | 0 <= b < buckets.Length :: buckets[b].expandMult == 0
      ensures idealChainMaxlen == 0 && nonidealItems == 0 && ineffExpands == 0 && !noexpand
    {
      log2NumBuckets := HASH_INITIAL_NUM_BUCKETS_LOG2;
      buckets := new Bucket[Pow2(log2NumBuckets)](_ => Bucket(null, 0, 0));
      numItems, idealChainMaxlen, nonidealItems, ineffExpands := 0, 0, 0, 0;
      noexpand := false;
      chains := EmptyChains(Pow2(log2NumBuckets));
      EmptyChainsOk(buckets[..], Pow2(log2NumBuckets));
    }

    /** The app-order half of HASH_ADD_KEYPTR. */
    method AppendToList(x: Item)
      requires AppOk() && x !in list
      modifies this`head, this`tail, this`list, {x}`next, {x}`prev, SetOf(list)`next
      ensures AppOk() && list == old(list) + [x]
    {
      x.next := null;
      if head == null {
        head := x;
        x.prev := null;
      } else {
        tail.next := x;
        x.prev := tail;
      }
      tail := x;
      list := list + [x];
    }

    /** HASH_ADD_TO_BKT. */
    method AddToBucket(x: Item, ghost members: set<Item>)
      requires BucketsOk(members) && x !in members
      requires numItems == TotalLength(chains) + 1
      modifies this`buckets, this`log2NumBuckets, this`idealChainMaxlen, this`nonidealItems, this`ineffExpands,
        this`noexpand, this`chains
      modifies buckets, {x}`hashv, {x}`hhNext, {x}`hhPrev, members`hhNext, members`hhPrev
      ensures BucketsOk(members + {x}) && numItems == TotalLength(chains)
      ensures buckets == old(buckets) || fresh(buckets)
      ensures var b := hash(x.key) % Pow2(old(log2NumBuckets));
        && b < old(buckets.Length)
        && if !old(noexpand) && old(buckets[b].count) + 1 >= (old(buckets[b].expandMult) + 1) * 10 then
             log2NumBuckets == old(log2NumBuckets) + 1 && Grown(old(ineffExpands), old(noexpand))
           else
             && buckets == old(buckets) && log2NumBuckets == old(log2NumBuckets)
             && chains == old(chains)[b := [x] + old(chains)[b]]
             && buckets[b] == Bucket(x, old(buckets[b].count) + 1, old(buckets[b].expandMult))
             && (forall c | 0 <= c < buckets.Length && c != b :: buckets[c] == old(buckets[c]))
             && idealChainMaxlen == old(idealChainMaxlen) && nonidealItems == old(nonidealItems)
             && ineffExpands == old(ineffExpands) && noexpand == old(noexpand)
    {
      hide ChainsOk, AllItems, Pow2, TotalLength;
      ChainsLength(buckets[..], chains);
      x.hashv := hash(x.key);
      var b := BucketIndex(x.hashv, log2NumBuckets);
      chains := PushFront(buckets, b, x, chains);
      if buckets[b].count >= (buckets[b].expandMult + 1) * HASH_BKT_CAPACITY_THRESH && !noexpand {
        ExpandBuckets(members + {x});
      }
    }

    /** What an expansion measures. An expansion after which more than half of the items are in excess is ineffective,
        and the second one in a row is the last. */
    ghost predicate Grown(ineffective: nat, last: bool)
      reads this, buckets
    {
      && IsIdeal(idealChainMaxlen, numItems, |chains|) && Multiplied(buckets[..], idealChainMaxlen)
      && nonidealItems == TotalExcess(chains, idealChainMaxlen)
      && ineffExpands == (if nonidealItems > numItems / 2 then ineffective + 1 else 0)
      && noexpand == (last || ineffExpands > 1)
    }

    /** HASH_EXPAND_BUCKETS: twice as many buckets, the same items. */
    method ExpandBuckets(ghost members: set<Item>)
      requires BucketsOk(members) && numItems == TotalLength(chains) > 0
      modifies this`buckets, this`log2NumBuckets, this`idealChainMaxlen, this`nonidealItems, this`ineffExpands,
        this`noexpand, this`chains
      modifies members`hhNext, members`hhPrev
      ensures BucketsOk(members) && numItems == TotalLength(chains) && fresh(buckets)
      ensures log2NumBuckets == old(log2NumBuckets) + 1
      ensures Grown(old(ineffExpands), old(noexpand))
    {
      hide ChainsOk, AllItems, Pow2, TotalLength, ChainAt, TotalExcess, Multiplied, IdealLength, EmptyChains,
        IsIdeal;
      Pow2Step(log2NumBuckets);
      ChainsLength(buckets[..], chains);
      var log2 := log2NumBuckets + 1;
      var bigger := new Bucket[2 * buckets.Length](_ => Bucket(null, 0, 0));
      idealChainMaxlen := IdealLength(numItems, log2);
      IdealFacts(numItems, log2);
      EmptyChainsOk(bigger[..], bigger.Length);
      NothingMultiplied(bigger[..], idealChainMaxlen);
      var nonideal;
      ghost var cs;
      nonideal, cs := Redistribute(buckets, bigger, log2, idealChainMaxlen, chains, EmptyChains(bigger.Length));
      buckets, log2NumBuckets, chains := bigger, log2, cs;
      JudgeExpansion(nonideal);
    }

    /** The end of HASH_EXPAND_BUCKETS: the second ineffective expansion in a row is the last. */
    method JudgeExpansion(nonideal: nat)
      modifies this`nonidealItems, this`ineffExpands, this`noexpand
      ensures nonidealItems == nonideal
      ensures ineffExpands == if nonideal > numItems / 2 then old(ineffExpands) + 1 else 0
      ensures noexpand == (old(noexpand) || ineffExpands > 1)
    {
      nonidealItems := nonideal;
      ineffExpands := if nonidealItems > numItems / 2 then ineffExpands + 1 else 0;
      if ineffExpands > 1 {
        noexpand := true;
      }
    }

    /** HASH_ADD_KEYPTR, for a key that the table does not have. */
    method Add(x: Item)
      requires Valid() && forall i | i in list :: i.key != x.key
      modifies this, buckets, x, SetOf(list)
      ensures Valid() && list == old(list) + [x] && MapOf(list) == MapOf(old(list))[x.key := x]
      ensures buckets == old(buckets) || fresh(buckets)
    {
      hide ChainsOk, AllItems, Pow2, TotalLength, AppOk, KeysDiffer, MapOf, Multiplied, TotalExcess, IsIdeal,
        EmptyChains;
      ghost var before := list;
      MapGrows(list, x);
      NoHeadNoList();
      if head == null {
        MakeTable();
        assert SetOf([]) == {};
      }
      AppendToList(x);
      numItems := numItems + 1;
      AddToBucket(x, SetOf(before));
      assert SetOf(list) == SetOf(before) + {x};
    }

    lemma NoHeadNoList()
      requires AppOk()
      ensures head == null <==> list == []
    {
    }

    // ---------- Deleting ----------

    /** The app-order half of HASH_DELETE. */
    method RemoveFromList(x: Item, ghost p: nat)
      requires AppOk() && |list| > 1 && p < |list| && list[p] == x
      modifies this`head, this`tail, this`list, SetOf(list)`next, SetOf(list)`prev
      ensures AppOk() && list == Without(old(list), p)
    {
      hide AppLinked;
      WithoutAt(list, p);
      ListEnds(list, p);
      if x == tail {
        tail := x.prev;
      }
      head := PatchNeighbours(x, head, list, p);
      list := Without(list, p);
    }

    /** HASH_DELETE, for an item of the table; the last one takes the buckets with it. */
    method Delete(x: Item, ghost p: nat)
      requires Valid() && p < |list| && list[p] == x
      modifies this, buckets, SetOf(list)
      ensures Valid() && list == Without(old(list), p) && MapOf(list) == MapOf(old(list)) - {x.key}
      ensures buckets == old(buckets)
    {
      hide ChainsOk, AllItems, Pow2, TotalLength, AppOk, KeysDiffer, MapOf;
      ListIsFine();
      MapShrinks(list, p);
      Alone(x, p);
      WithoutAt(list, p);
      if x.prev == null && x.next == null {
        head := null;
        list := [];
        EmptyIsOk();
      } else {
        ghost var members := SetOf(list);
        var b := BucketIndex(x.hashv, log2NumBuckets);
        InItsChain(x);
        RemoveFromList(x, p);
        DeleteFromBucket(b, x, members);
        numItems := numItems - 1;
      }
    }

    /** Only the single item of a list has no neighbours. */
    lemma Alone(x: Item, p: nat)
      requires AppOk() && p < |list| && list[p] == x
      ensures x.prev == null && x.next == null <==> |list| == 1
      ensures Without(list, 0) == [] <==> |list| == 1
    {
    }

    lemma ListIsFine()
      requires AppOk()
      ensures NoDup(list)
    {
    }

    lemma EmptyIsOk()
      requires head == null && list == []
      ensures AppOk()
    {
    }

    /** HASH_DEL_IN_BKT. */
    method DeleteFromBucket(b: nat, x: Item, ghost members: set<Item>)
      requires BucketsOk(members) && b < |chains| && x in chains[b]
      modifies this`chains, buckets, members`hhNext, members`hhPrev
      ensures BucketsOk(members - {x}) && TotalLength(chains) == old(TotalLength(chains)) - 1
    {
      hide ChainAt, AllItems, ChainsOk, Pow2, TotalLength;
      ghost var before, cs := buckets[..], chains;
      ChainsLength(before, cs);
      ChainFacts(before, cs, b);
      ghost var j :| 0 <= j < |cs[b]| && cs[b][j] == x;
      forall c | 0 <= c < |cs| && c != b
        ensures SetOf(cs[c]) <= AllItems(cs) && ChainAt(before[c], cs[c], c, |cs|) && SetOf(cs[b]) !! SetOf(cs[c])
      {
        ChainFacts(before, cs, c);
        ChainsApart(before, cs, b, c);
      }
      var bucket := DeleteFromChain(buckets[b], x, cs[b], j, b, |cs|);
      buckets[b] := bucket;
      chains := cs[b := Without(cs[b], j)];
      forall c {:trigger chains[c]} | 0 <= c < |chains| ensures ChainAt(buckets[..][c], chains[c], c, |chains|) {
        if c != b {
          assert buckets[..][c] == before[c];
        }
      }
      ChainsAgain(buckets[..], chains);
      TotalLengthUpdate(cs, b, Without(cs[b], j));
      ChainsWithout(cs, b, j);
    }
  }

  /** s without its item at position p. */
  function Without(s: seq<Item>, p: nat): seq<Item>
    requires p < |s|
  {
    s[..p] + s[p + 1..]
  }

  lemma WithoutAt(s: seq<Item>, p: nat)
    requires p < |s| && NoDup(s)
    ensures var s' := Without(s, p);
      && NoDup(s') && SetOf(s') == SetOf(s) - {s[p]}
      && forall i | 0 <= i < |s'| :: s'[i] == s[if i < p then i else i + 1]
  {
    var s' := Without(s, p);
    forall i | i in SetOf(s) - {s[p]} ensures i in s' {
      var k :| 0 <= k < |s| && s[k] == i;
      assert s'[if k < p then k else k - 1] == i;
    }
  }

  /** Positions around p are different items. */
  lemma Distinct(s: seq<Item>, o: nat, p: nat)
    requires NoDup(s) && o < |s| && p < |s|
    ensures s[o] == ItemAt(s, p - 1) <==> o == p - 1
    ensures s[o] == ItemAt(s, p + 1) <==> o == p + 1
    ensures s[o] == s[p] <==> o == p
  {
  }

  lemma ListEnds(s: seq<Item>, p: nat)
    requires NoDup(s) && AppLinked(s) && |s| > 1 && p < |s|
    ensures s[p].prev == ItemAt(s, p - 1)
    ensures s[p] == s[|s| - 1] <==> p == |s| - 1
  {
  }

  /** Position i of the shorter list. */
  function Skipping(i: int, p: nat): int { if i < p then i else i + 1 }

  lemma SkippedItem(s: seq<Item>, p: nat, i: nat)
    requires NoDup(s) && p < |s| && i < |s| - 1
    ensures var s', o := Without(s, p), Skipping(i, p);
      && |s'| == |s| - 1 && s'[i] == s[o] && s[o] != s[p]
      && ItemAt(s', i + 1) == (if o == p - 1 then ItemAt(s, p + 1) else ItemAt(s, o + 1))
      && ItemAt(s', i - 1) == (if o == p + 1 then ItemAt(s, p - 1) else ItemAt(s, o - 1))
      && (s[o] == ItemAt(s, p - 1) <==> o == p - 1) && (s[o] == ItemAt(s, p + 1) <==> o == p + 1)
  {
  }

  /** The neighbours of a deleted item are linked to each other. */
  method PatchNeighbours(x: Item, first: Item?, ghost s: seq<Item>, ghost p: nat) returns (first': Item?)
    requires NoDup(s) && AppLinked(s) && p < |s| && s[p] == x && first == ItemAt(s, 0)
    modifies SetOf(s)`next, SetOf(s)`prev
    ensures AppLinked(Without(s, p)) && first' == ItemAt(Without(s, p), 0)
  {
    hide NoDup, Without;
    WithoutLength(s, p);
    assert x.prev == ItemAt(s, p - 1) && x.next == ItemAt(s, p + 1);
    first' := first;
    if x.prev != null {
      x.prev.next := x.next;
    } else {
      first' := x.next;
    }
    forall i | 0 <= i < |s| && i != p - 1 ensures s[i].next == ItemAt(s, i + 1) {
      Distinct(s, i, p);
    }
    PatchedNext(s, p);
    if x.next != null {
      x.next.prev := x.prev;
    }
    forall i | 0 <= i < |s| && i != p + 1 ensures s[i].prev == ItemAt(s, i - 1) {
      Distinct(s, i, p);
    }
    PatchedPrev(s, p);
    if |s| > 1 { SkippedItem(s, p, 0); }
  }

  lemma PatchedNext(s: seq<Item>, p: nat)
    requires NoDup(s) && p < |s|
    requires forall i | 0 <= i < |s| && i != p - 1 :: s[i].next == ItemAt(s, i + 1)
    requires p > 0 ==> s[p - 1].next == ItemAt(s, p + 1)
    ensures NextLinked(Without(s, p))
  {
    hide NoDup, Without;
    WithoutLength(s, p);
    forall i | 0 <= i < |s| - 1 ensures Without(s, p)[i].next == ItemAt(Without(s, p), i + 1) {
      SkippedItem(s, p, i);
    }
  }

  lemma PatchedPrev(s: seq<Item>, p: nat)
    requires NoDup(s) && p < |s|
    requires forall i | 0 <= i < |s| && i != p + 1 :: s[i].prev == ItemAt(s, i - 1)
    requires p + 1 < |s| ==> s[p + 1].prev == ItemAt(s, p - 1)
    ensures PrevLinked(Without(s, p))
  {
    hide NoDup, Without;
    WithoutLength(s, p);
    forall i | 0 <= i < |s| - 1 ensures Without(s, p)[i].prev == ItemAt(Without(s, p), i - 1) {
      SkippedItem(s, p, i);
    }
  }

  lemma WithoutLength(s: seq<Item>, p: nat)
    requires p < |s|
    ensures |Without(s, p)| == |s| - 1
  {
  }

  /** The same in a bucket. */
  method PatchChain(x: Item, first: Item?, ghost c: seq<Item>, ghost j: nat) returns (first': Item?)
    requires NoDup(c) && Forward(c, 0) && Backward(c) && j < |c| && c[j] == x && first == ItemAt(c, 0)
    modifies SetOf(c)`hhNext, SetOf(c)`hhPrev
    ensures Forward(Without(c, j), 0) && Backward(Without(c, j)) && first' == ItemAt(Without(c, j), 0)
  {
    hide NoDup, Without;
    WithoutLength(c, j);
    assert x.hhPrev == ItemAt(c, j - 1) && x.hhNext == ItemAt(c, j + 1);
    Distinct(c, 0, j);
    first' := if first == x then x.hhNext else first;
    if x.hhPrev != null {
      x.hhPrev.hhNext := x.hhNext;
    }
    forall i | 0 <= i < |c| && i != j - 1 ensures c[i].hhNext == ItemAt(c, i + 1) {
      Distinct(c, i, j);
    }
    PatchedForward(c, j);
    if x.hhNext != null {
      x.hhNext.hhPrev := x.hhPrev;
    }
    forall i | 0 <= i < |c| && i != j + 1 ensures c[i].hhPrev == ItemAt(c, i - 1) {
      Distinct(c, i, j);
    }
    PatchedBackward(c, j);
    if |c| > 1 { SkippedItem(c, j, 0); }
  }

  method DeleteFromChain(bucket: Bucket, x: Item, ghost c: seq<Item>, ghost j: nat, ghost b: nat, ghost n: nat)
      returns (bucket': Bucket)
    requires n > 0 && ChainAt(bucket, c, b, n) && j < |c| && c[j] == x
    modifies SetOf(c)`hhNext, SetOf(c)`hhPrev
    ensures ChainAt(bucket', Without(c, j), b, n)
  {
    hide NoDup, Without, Forward, Backward;
    WithoutLength(c, j);
    WithoutAt(c, j);
    bucket' := bucket.(count := bucket.count - 1);
    var first := PatchChain(x, bucket.head, c, j);
    bucket' := bucket'.(head := first);
    forall i | i in Without(c, j) ensures i.hashv % n == b {
      assert i in SetOf(Without(c, j));
    }
  }

  lemma PatchedForward(s: seq<Item>, p: nat)
    requires NoDup(s) && p < |s|
    requires forall i | 0 <= i < |s| && i != p - 1 :: s[i].hhNext == ItemAt(s, i + 1)
    requires p > 0 ==> s[p - 1].hhNext == ItemAt(s, p + 1)
    ensures Forward(Without(s, p), 0)
  {
    hide NoDup, Without;
    WithoutLength(s, p);
    forall i | 0 <= i < |s| - 1 ensures Without(s, p)[i].hhNext == ItemAt(Without(s, p), i + 1) {
      SkippedItem(s, p, i);
    }
  }

  lemma PatchedBackward(s: seq<Item>, p: nat)
    requires NoDup(s) && p < |s|
    requires forall i | 0 <= i < |s| && i != p + 1 :: s[i].hhPrev == ItemAt(s, i - 1)
    requires p + 1 < |s| ==> s[p + 1].hhPrev == ItemAt(s, p - 1)
    ensures Backward(Without(s, p))
  {
    hide NoDup, Without;
    WithoutLength(s, p);
    forall i | 0 <= i < |s| - 1 ensures Without(s, p)[i].hhPrev == ItemAt(Without(s, p), i - 1) {
      SkippedItem(s, p, i);
    }
  }

  lemma ChainsWithout(cs: seq<seq<Item>>, b: nat, j: nat)
    requires b < |cs| && j < |cs[b]| && NoDup(cs[b])
    requires forall c | 0 <= c < |cs| && c != b :: SetOf(cs[b]) !! SetOf(cs[c])
    ensures AllItems(cs[b := Without(cs[b], j)]) == AllItems(cs) - {cs[b][j]}
  {
    var x, c' := cs[b][j], Without(cs[b], j);
    var cs' := cs[b := c'];
    WithoutAt(cs[b], j);
    forall i | i in AllItems(cs') ensures i in AllItems(cs) - {x} {
      var k :| 0 <= k < |cs'| && i in cs'[k];
      ChainInAll(cs, k);
      if k == b { assert i in SetOf(c'); } else { assert i in SetOf(cs[k]) && x in SetOf(cs[b]); }
    }
    forall i | i in AllItems(cs) - {x} ensures i in AllItems(cs') {
      var k :| 0 <= k < |cs| && i in cs[k];
      if k == b { assert i in SetOf(cs[b]) - {x}; assert i in c'; } else { assert i in cs'[k]; }
      assert cs'[k] in cs';
    }
  }

  /** The outer loop of HASH_EXPAND_BUCKETS. */
  method Redistribute(bs: array<Bucket>, bigger: array<Bucket>, log2: nat, ideal: nat, ghost oldChains: seq<seq<Item>>,
                      ghost empty: seq<seq<Item>>)
      returns (nonideal: nat, ghost cs: seq<seq<Item>>)
    requires ChainsOk(bs[..], oldChains) && ChainsOk(bigger[..], empty) && bs != bigger
    requires |empty| == Pow2(log2) && AllItems(empty) == {} && TotalLength(empty) == 0
    requires ideal > 0 && Multiplied(bigger[..], ideal) && TotalExcess(empty, ideal) == 0
    modifies bigger, AllItems(oldChains)`hhNext, AllItems(oldChains)`hhPrev
    ensures ChainsOk(bigger[..], cs) && |cs| == |empty| && AllItems(cs) == AllItems(oldChains)
    ensures TotalLength(cs) == TotalLength(oldChains)
    ensures Multiplied(bigger[..], ideal) && nonideal == TotalExcess(cs, ideal)
  {
    hide ChainsOk, AllItems, Pow2, TotalLength, ChainAt, Forward, NoDup, Multiplied, TotalExcess;
    nonideal, cs := 0, empty;
    ChainsLength(bs[..], oldChains);
    OldChains(bs[..], oldChains);
    Before(oldChains, 0);
    for bi := 0 to bs.Length
      invariant ChainsOk(bigger[..], cs) && |cs| == |empty| && AllItems(cs) == AllItems(oldChains[..bi])
      invariant TotalLength(cs) == TotalLength(oldChains[..bi])
      invariant Multiplied(bigger[..], ideal) && nonideal == TotalExcess(cs, ideal)
      invariant forall b {:trigger oldChains[b]} | bi <= b < |oldChains| :: Waiting(bs[b], oldChains[b])
    {
      Before(oldChains, bi);
      var more;
      more, cs := MoveChain(bs[bi].head, bigger, log2, ideal, oldChains[bi], cs);
      nonideal := nonideal + more;
    }
    Before(oldChains, bs.Length);
  }

  ghost function EmptyChains(n: nat): (cs: seq<seq<Item>>)
    ensures |cs| == n && forall c | c in cs :: c == []
  {
    if n == 0 then [] else [[]] + EmptyChains(n - 1)
  }

  lemma EmptyChainsOk(bs: seq<Bucket>, n: nat)
    requires |bs| == n > 0 && forall b | 0 <= b < n :: bs[b].head == null && bs[b].count == 0
    ensures ChainsOk(bs, EmptyChains(n)) && AllItems(EmptyChains(n)) == {} && TotalLength(EmptyChains(n)) == 0
    ensures forall ideal :: TotalExcess(EmptyChains(n), ideal) == 0
  {
    EmptyLength(n);
    forall b {:trigger EmptyChains(n)[b]} | 0 <= b < n ensures ChainAt(bs[b], EmptyChains(n)[b], b, n) {
      assert EmptyChains(n)[b] in EmptyChains(n);
    }
  }

  lemma {:induction false} EmptyLength(n: nat)
    ensures TotalLength(EmptyChains(n)) == 0
    ensures forall ideal :: TotalExcess(EmptyChains(n), ideal) == 0
  {
    if n > 0 {
      assert EmptyChains(n)[1..] == EmptyChains(n - 1);
      EmptyLength(n - 1);
    }
  }

  /** ceil(items / buckets), by shift and mask; a table with items never gets 0, by which the expansion divides. */
  function IdealLength(numItems: nat, log2: nat): (r: nat)
    ensures r * Pow2(log2) >= numItems && (r > 0 ==> (r - 1) * Pow2(log2) < numItems)
    ensures numItems > 0 ==> r > 0
  {
    MaskIsMod(numItems, log2);
    CeilOfQuotient(numItems, Pow2(log2));
    numItems / Pow2(log2) + (if And(numItems, Pow2(log2) - 1) != 0 then 1 else 0)
  }

  /** A chain is ideally as long as the number of items over the number of buckets, rounded up. */
  predicate IsIdeal(ideal: nat, items: nat, buckets: nat) {
    0 < ideal && (ideal - 1) * buckets < items <= ideal * buckets
  }

  lemma IdealFacts(numItems: nat, log2: nat)
    requires numItems > 0
    ensures IdealLength(numItems, log2) > 0 && IsIdeal(IdealLength(numItems, log2), numItems, Pow2(log2))
  {
    hide Pow2;
  }

  lemma CeilOfQuotient(x: nat, d: nat)
    requires d > 0
    ensures var r := x / d + (if x % d != 0 then 1 else 0);
      r * d >= x && (r > 0 ==> (r - 1) * d < x) && (x > 0 ==> r > 0)
  {
    var q := x / d;
    assert x == q * d + x % d;
    assert (q + 1) * d == q * d + d;
    if x % d == 0 && q > 0 {
      assert (q - 1) * d == q * d - d;
    }
  }

  /** A chain that the expansion has not reached. */
  ghost predicate Waiting(bucket: Bucket, c: seq<Item>)
    reads SetOf(c)`hhNext
  {
    bucket.head == ItemAt(c, 0) && Forward(c, 0) && NoDup(c)
  }

  lemma OldChains(bs: seq<Bucket>, cs: seq<seq<Item>>)
    requires ChainsOk(bs, cs)
    ensures forall b {:trigger cs[b]} | 0 <= b < |cs| :: Waiting(bs[b], cs[b])
    ensures forall b, c {:trigger cs[b], cs[c]} | 0 <= b < c < |cs| :: SetOf(cs[b]) !! SetOf(cs[c])
  {
    forall b {:trigger cs[b]} | 0 <= b < |cs| ensures Waiting(bs[b], cs[b]) {
      ChainFacts(bs, cs, b);
    }
    forall b, c {:trigger cs[b], cs[c]} | 0 <= b < c < |cs| ensures SetOf(cs[b]) !! SetOf(cs[c]) {
      ChainsApart(bs, cs, b, c);
    }
  }

  /** The chains before position b, and the one there. */
  lemma Before(cs: seq<seq<Item>>, b: nat)
    requires b <= |cs|
    requires forall b, c {:trigger cs[b], cs[c]} | 0 <= b < c < |cs| :: SetOf(cs[b]) !! SetOf(cs[c])
    ensures b == 0 ==> AllItems(cs[..b]) == {} && TotalLength(cs[..b]) == 0
    ensures b == |cs| ==> cs[..b] == cs
    ensures b < |cs| ==>
      && SetOf(cs[b]) !! AllItems(cs[..b]) && SetOf(cs[b]) <= AllItems(cs)
      && AllItems(cs[..b + 1]) == AllItems(cs[..b]) + SetOf(cs[b])
      && TotalLength(cs[..b + 1]) == TotalLength(cs[..b]) + |cs[b]|
    ensures AllItems(cs[..b]) <= AllItems(cs)
  {
    if b < |cs| {
      ChainInAll(cs, b);
      var part := cs[..b + 1];
      assert part == cs[..b] + [cs[b]];
      TotalLengthAppend(cs[..b], cs[b]);
      forall i | i in AllItems(part) ensures i in AllItems(cs[..b]) + SetOf(cs[b]) {
        var k :| 0 <= k < |part| && i in part[k];
        if k < b { assert cs[..b][k] in cs[..b]; }
      }
      forall i | i in SetOf(cs[b]) ensures i in AllItems(part) {
        assert part[b] in part;
      }
      forall i | i in AllItems(cs[..b]) ensures i in AllItems(part) && i !in SetOf(cs[b]) {
        var k :| 0 <= k < b && i in cs[..b][k];
        assert part[k] in part && cs[k] == part[k];
      }
    }
  }

  lemma {:induction false} TotalLengthAppend(cs: seq<seq<Item>>, c: seq<Item>)
    ensures TotalLength(cs + [c]) == TotalLength(cs) + |c|
  {
    if cs == [] {
      assert ([] + [c])[1..] == [];
    } else {
      assert (cs + [c])[1..] == cs[1..] + [c];
      TotalLengthAppend(cs[1..], c);
    }
  }
}
