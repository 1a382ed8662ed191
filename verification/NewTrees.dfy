/** What every address of a new tree holds, and that no run of inserts brings data to a reserved network or takes an
    aliased one away (c/tree.c:577-757, lib/MaxMind/DB/Writer/Tree.pm:699-724). */
module NewTrees {
  import opened Data
  import opened Trie
  import opened TrieLaws
  import opened Address
  import opened Aliases
  import opened CanonicalTree
  import opened FreshTree

  // ---------- Aliases ----------

  /** The aliased networks of a new IPv6 tree are aliases, and everything else is still empty. */
  lemma {:induction false} AliasedRecords(n: nat, a: Path)
    requires n <= 3 && |a| == 128
    ensures RecordAt(AliasedTree(n), a) == if exists i | 0 <= i < n :: AliasPath(i) <= a then Alias else Empty
  {
    hide FixedStep, SetUp, RecordAt, AliasPath;
    if n == 0 {
      RootHolds(a);
    } else {
      AliasedRecords(n - 1, a);
      AliasedTreeSetUp(n - 1);
      AliasHolds(AliasedTree(n - 1), n - 1, a);
    }
  }

  lemma RootHolds(a: Path)
    requires |a| == 128
    ensures RecordAt(AliasedTree(0), a) == Empty
  {
    hide FixedStep, Remaining, SetUp, SubtreeAt, RecordAt, Ipv4Root;
    RootSetUp();
    NothingAt(a);
    FixedStepRecord(Empty, IPV4_ROOT, FixedNode(Empty, Empty), 128, a);
  }

  lemma NothingAt(a: Path)
    ensures RecordAt(Empty, a) == Empty && Canonical(Empty, |a|) && Skeleton(Empty) == Empty
    ensures IsFixed(FixedNode(Empty, Empty)) && Height(FixedNode(Empty, Empty)) == 1
  {
  }

  lemma AliasHolds(t: Tree, n: nat, a: Path)
    requires n < 3 && SetUp(t, n) && |a| == 128
    ensures RecordAt(FixedStep(t, IPV4_ALIASES[n], Alias).tree, a)
         == if AliasPath(n) <= a && RecordAt(t, a).Empty? then Alias else RecordAt(t, a)
  {
    hide Insert, Remaining, AliasSafe, Canonical, Clear, AliasAt, FixedStep, RecordAt;
    AliasSetUp(t, n);
    AliasPathLength(n);
    FixedStepRecord(t, IPV4_ALIASES[n], Alias, 128, a);
  }

  lemma AliasPathLength(n: nat)
    requires n < 3
    ensures IPV4_ALIASES[n].prefixLength <= 128 == 8 * |IPV4_ALIASES[n].bytes|
    ensures AliasPath(n) == Remaining(IPV4_ALIASES[n], 0)
  {
  }

  /** What one internal insert makes of a tree without data. */
  lemma FixedStepRecord(t: Tree, network: Network, rec: Tree, w: nat, a: Path)
    requires Canonical(t, w) && Skeleton(t) == t && |a| == w
    requires IsFixed(rec) && IsNewRecord(rec) && network.prefixLength <= 8 * |network.bytes|
    requires network.prefixLength + Height(rec) <= w && FixedStep(t, network, rec).status == Success
    ensures var before, after := RecordAt(t, a), RecordAt(FixedStep(t, network, rec).tree, a);
      after == if Remaining(network, 0) <= a && before.Empty? && !rec.FixedNode? then rec else before
  {
    hide Insert, Remaining;
    InsertPointwise(t, Remaining(network, 0), false, rec, NoMerge, a);
    BareRecord(t, a);
  }

  lemma {:induction false} BareRecord(t: Tree, a: Path)
    requires Skeleton(t) == t && Height(t) <= |a|
    ensures var record := RecordAt(t, a); record.Empty? || record.FixedEmpty? || record.Alias?
  {
    if IsNode(t) {
      BareRecord(if a[0] then t.right else t.left, a[1..]);
    }
  }

  lemma {:induction false} AliasIsMet(t: Tree, q: Path)
    requires AliasAt(t, q)
    ensures MeetsAlias(t, q)
  {
    if q != [] {
      AliasIsMet(if q[0] then t.right else t.left, q[1..]);
    }
  }

  /** On the way through fixed nodes there is no alias. */
  lemma {:induction false} NoAliasBefore(t: Tree, p: Path, q: Path)
    requires ThroughFixed(t, p) && q < p
    ensures !MeetsAlias(t, q)
    decreases |q|
  {
    if q != [] {
      PrefixStep(q, p);
      NoAliasBefore(if q[0] then t.right else t.left, p[1..], q[1..]);
    }
  }

  lemma {:induction false} AliasBelowRecord(t: Tree, q: Path, z: Path)
    requires MeetsAlias(t, q)
    ensures RecordAt(t, q + z).Alias?
    decreases |q|
  {
    if !t.Alias? {
      assert (q + z)[1..] == q[1..] + z;
      AliasBelowRecord(if q[0] then t.right else t.left, q[1..], z);
    }
  }

  /** A network lies in an aliased one exactly when its path says so. */
  lemma AliasedMeets(q: Path)
    requires |q| <= 128
    ensures MeetsAlias(AliasedTree(3), q) <==> exists i | 0 <= i < 3 :: AliasPath(i) <= q
  {
    hide Remaining, AliasSafe, AliasPath, Clear, Canonical, Skeleton, MeetsAlias, ThroughFixed, RecordAt;
    var t := AliasedTree(3);
    AliasedTreeSetUp(3);
    forall i | 0 <= i < 3 && AliasPath(i) <= q ensures MeetsAlias(t, q) {
      AliasIsMet(t, AliasPath(i));
      AliasFurtherDown(t, AliasPath(i), q);
    }
    if MeetsAlias(t, q) {
      var a := q + Zeros(128 - |q|);
      AliasBelowRecord(t, q, Zeros(128 - |q|));
      AliasedRecords(3, a);
      var i :| 0 <= i < 3 && AliasPath(i) <= a;
      ComparablePrefixes(AliasPath(i), q, a);
      assert AliasAt(t, AliasPath(i));
      if q < AliasPath(i) { NoAliasBefore(t, AliasPath(i), q); }
    }
  }

  // ---------- Reserved networks ----------

  /** A reserved network is refused exactly at or inside an alias. */
  lemma {:induction false} ReservedSucceedsIff(t: Tree, p: Path, past: bool)
    requires Skeleton(t) == t && (past ==> p == [])
    ensures Insert(t, p, past, FixedEmpty, NoMerge).status == Success <==> past || !MeetsAlias(t, p)
    decreases |p|, t
  {
    if Stops(t, p, past, FixedEmpty, NoMerge) {
      StopFacts(t, p, past, FixedEmpty, NoMerge);
    } else {
      DescentSucceeds(t, p, past, FixedEmpty, NoMerge);
      if p == [] {
        ReservedSucceedsIff(LeftOf(t), [], true);
        ReservedSucceedsIff(RightOf(t), [], true);
      } else {
        AliasBelow(t, p);
        ReservedSucceedsIff(Child(t, p[0]), p[1..], false);
      }
    }
  }

  /** Reserving a network makes no alias and hides none. */
  lemma {:induction false} ReservedKeepsAliases(t: Tree, p: Path, past: bool, q: Path)
    requires Skeleton(t) == t
    ensures MeetsAlias(Insert(t, p, past, FixedEmpty, NoMerge).tree, q) == MeetsAlias(t, q)
    decreases |q|
  {
    if Stops(t, p, past, FixedEmpty, NoMerge) {
      StopFacts(t, p, past, FixedEmpty, NoMerge);
    } else {
      DescendFacts(t, p, past, FixedEmpty, NoMerge);
      CombineCases(true, LeftOf(t), LeftCall(t, p, FixedEmpty, NoMerge), RightCall(t, p, FixedEmpty, NoMerge));
      if q != [] {
        ReservedKeepsAliases(Child(t, q[0]), if p == [] then [] else p[1..], p == [], q[1..]);
      }
    }
  }

  ghost predicate Fit(networks: seq<Network>, w: nat) {
    forall n | n in networks :: n.prefixLength <= 8 * |n.bytes| == w
  }

  /** Reserving succeeds exactly when no network lies in an aliased one, and then makes exactly the empty records of
      these networks fixed. */
  lemma {:induction false} ReserveRecords(t: Tree, networks: seq<Network>, w: nat, a: Path)
    requires Canonical(t, w) && Skeleton(t) == t && Fit(networks, w) && |a| == w
    ensures Reserve(t, networks).status == Success
       <==> forall n | n in networks :: !MeetsAlias(t, Remaining(n, 0))
    ensures Reserve(t, networks).status == Success ==>
      RecordAt(Reserve(t, networks).tree, a)
      == if RecordAt(t, a).Empty? && (exists n :: n in networks && Remaining(n, 0) <= a) then FixedEmpty
         else RecordAt(t, a)
    decreases |networks|
  {
    hide Insert, Remaining, MeetsAlias, Skeleton, Canonical, RecordAt;
    if networks != [] {
      var n, rest := networks[0], networks[1..];
      var p := Remaining(n, 0);
      var u := FixedStep(t, n, FixedEmpty).tree;
      ReservedSucceedsIff(t, p, false);
      FixedStepKeepsCanonical(t, p, FixedEmpty, w);
      forall q: Path ensures MeetsAlias(u, q) == MeetsAlias(t, q) {
        ReservedKeepsAliases(t, p, false, q);
      }
      assert forall m :: m in networks <==> m == n || m in rest;
      if FixedStep(t, n, FixedEmpty).status == Success {
        FixedStepRecord(t, n, FixedEmpty, w, a);
        ReserveRecords(u, rest, w, a);
      }
    }
  }

  /** Does the address lie in one of the three aliased networks? */
  predicate Aliased(q: Path) { exists i | 0 <= i < 3 :: AliasPath(i) <= q }

  /** A tree can be made exactly when none of its reserved networks lies in an aliased one. Then the addresses of the
      aliased networks hold aliases, those of the reserved networks fixed empty records, and the others nothing. */
  lemma NewTreeRecords(ipv6: bool, aliasIpv6: bool, reserved: seq<Network>, a: Path)
    requires Fit(reserved, if ipv6 then 128 else 32) && |a| == if ipv6 then 128 else 32
    ensures NewContents(ipv6, aliasIpv6, reserved).status == Success
       <==> forall n | n in reserved :: !(ipv6 && aliasIpv6 && Aliased(Remaining(n, 0)))
    ensures NewContents(ipv6, aliasIpv6, reserved).status == Success ==>
      RecordAt(NewContents(ipv6, aliasIpv6, reserved).tree, a)
      == if ipv6 && aliasIpv6 && Aliased(a) then Alias
         else if exists n :: n in reserved && Remaining(n, 0) <= a then FixedEmpty else Empty
  {
    hide Insert, Remaining, MeetsAlias, AliasPath, AliasSafe, AliasAt, Clear, Reserve;
    var t := if ipv6 && aliasIpv6 then AliasedTree(3) else Empty;
    if ipv6 && aliasIpv6 {
      AliasedTreeSetUp(3);
      AliasedRecords(3, a);
      forall n | n in reserved ensures MeetsAlias(t, Remaining(n, 0)) == Aliased(Remaining(n, 0)) {
        AliasedMeets(Remaining(n, 0));
      }
    } else {
      forall n | n in reserved ensures !MeetsAlias(t, Remaining(n, 0)) {
        PlainMeetsNoAlias(t, Remaining(n, 0));
      }
    }
    ReserveRecords(t, reserved, |a|, a);
  }

  lemma NewTreeMeaning(ipv6: bool, aliasIpv6: bool, reserved: seq<Network>)
    requires Fit(reserved, if ipv6 then 128 else 32)
    ensures NewContents(ipv6, aliasIpv6, reserved) == NewContents(ipv6, aliasIpv6 && ipv6, reserved)
    ensures NewContents(ipv6, aliasIpv6, reserved).status != Success
       <==> ipv6 && aliasIpv6 && exists n :: n in reserved && Aliased(Remaining(n, 0))
    ensures NewContents(ipv6, aliasIpv6, reserved).status == Success ==>
      forall a: Path | |a| == (if ipv6 then 128 else 32) ::
        RecordAt(NewContents(ipv6, aliasIpv6, reserved).tree, a)
        == if ipv6 && aliasIpv6 && Aliased(a) then Alias
           else if exists n :: n in reserved && Remaining(n, 0) <= a then FixedEmpty else Empty
  {
    hide Aliased, RecordAt, Remaining, Reserve, AliasedTree;
    forall a: Path | |a| == if ipv6 then 128 else 32
      ensures NewContents(ipv6, aliasIpv6, reserved).status == Success ==>
        RecordAt(NewContents(ipv6, aliasIpv6, reserved).tree, a)
        == if ipv6 && aliasIpv6 && Aliased(a) then Alias
           else if exists n :: n in reserved && Remaining(n, 0) <= a then FixedEmpty else Empty
    {
      NewTreeRecords(ipv6, aliasIpv6, reserved, a);
    }
    NewTreeRecords(ipv6, aliasIpv6, reserved, Zeros(if ipv6 then 128 else 32));
  }

  // ---------- Whole runs ----------

  /** No run of inserts and removes, whatever its statuses, touches a fixed empty record or an alias. */
  lemma {:induction false} RunKeepsFixed(t: Tree, ops: seq<Op>, w: nat, a: Path)
    requires WellFormed(t) && Height(t) <= w && |a| == w && forall op | op in ops :: UserOp(op, w)
    requires RecordAt(t, a).FixedEmpty? || RecordAt(t, a).Alias?
    ensures RecordAt(Run(t, ops), a) == RecordAt(t, a)
    decreases |ops|
  {
    hide Insert, RecordAt;
    if ops != [] {
      var op := ops[0];
      assert UserOp(op, w);
      InsertKeepsWellFormed(t, op.p, false, op.rec, op.s);
      InsertKeepsHeight(t, op.p, false, op.rec, op.s, w);
      InsertPartial(t, op.p, false, op.rec, op.s, a);
      RunKeepsFixed(Apply(t, op).tree, ops[1..], w, a);
    }
  }

  lemma {:induction false} LookupOutsideAliases(t: Tree, ipv4: Tree, a: Path)
    requires !RecordAt(t, a).Alias?
    ensures Follow(t, ipv4, a) == RecordAt(t, a)
    decreases |a|
  {
    if IsNode(t) && a != [] {
      LookupOutsideAliases(if a[0] then t.right else t.left, ipv4, a[1..]);
    }
  }

  /** Whatever is inserted into a new tree, and with whatever statuses, looking up an address of a reserved network that
      is not aliased finds nothing. */
  lemma ReservedFindsNothing(ipv6: bool, aliasIpv6: bool, reserved: seq<Network>, n: Network, ops: seq<Op>, a: Path)
    requires Fit(reserved, if ipv6 then 128 else 32) && |a| == if ipv6 then 128 else 32
    requires NewContents(ipv6, aliasIpv6, reserved).status == Success
    requires n in reserved && Remaining(n, 0) <= a && !(ipv6 && aliasIpv6 && Aliased(a))
    requires forall op | op in ops :: UserOp(op, |a|)
    ensures Lookup(Run(NewContents(ipv6, aliasIpv6, reserved).tree, ops), a) == FixedEmpty
  {
    hide NewContents, Run, Remaining, Aliased, RecordAt, Follow, AliasSafe;
    var t := NewContents(ipv6, aliasIpv6, reserved).tree;
    NewContentsFacts(ipv6, aliasIpv6, reserved);
    NewTreeRecords(ipv6, aliasIpv6, reserved, a);
    RunKeepsFixed(t, ops, |a|, a);
    LookupOutsideAliases(Run(t, ops), SubtreeAt(Run(t, ops), Ipv4Root(|a|)), a);
  }

  lemma {:induction false} RunKeepsAliases(t: Tree, ops: seq<Op>, w: nat, q: Path)
    requires AliasSafe(t, w) && AliasAt(t, q) && WellFormed(t) && Height(t) <= w
    requires forall op | op in ops :: UserOp(op, w)
    ensures AliasSafe(Run(t, ops), w) && AliasAt(Run(t, ops), q) && Height(Run(t, ops)) <= w
    decreases |ops|
  {
    hide Insert, AliasSafe, AliasAt;
    if ops != [] {
      var op := ops[0];
      assert UserOp(op, w);
      AliasSafeStays(t, op.p, op.rec, op.s, w);
      InsertKeepsWellFormed(t, op.p, false, op.rec, op.s);
      InsertKeepsHeight(t, op.p, false, op.rec, op.s, w);
      RunKeepsAliases(Apply(t, op).tree, ops[1..], w, q);
    }
  }

  // ---------- In bytes ----------

  /** Bit k of byte j of an address, from the most significant one. */
  lemma BitOfByte(b: Bytes, j: nat, k: nat)
    requires j < |b| && k < 8
    ensures AddressBits(b)[8 * j + k] <==> b[j] as nat / [128, 64, 32, 16, 8, 4, 2, 1][k] % 2 == 1
  {
    hide Pow2;
    SmallPowers();
    assert (8 * j + k) / 8 == j && (8 * j + k) % 8 == k;
    assert AddressBits(b)[8 * j + k] == NetworkBit(b, 8 * j + k);
  }

  lemma BitsOfTwo(x: Bytes, y: Bytes)
    ensures AddressBits(x + y) == AddressBits(x) + AddressBits(y)
  {
    hide Pow2;
    var a := AddressBits(x) + AddressBits(y);
    forall i | 0 <= i < |a| ensures AddressBits(x + y)[i] == a[i] {
      assert AddressBits(x + y)[i] == NetworkBit(x + y, i);
      if i < 8 * |x| {
        assert AddressBits(x)[i] == NetworkBit(x, i);
      } else {
        var j := i - 8 * |x|;
        assert i / 8 == j / 8 + |x| && i % 8 == j % 8;
        assert AddressBits(y)[j] == NetworkBit(y, j);
      }
    }
  }

  lemma PathOfBytes(x: Bytes, y: Bytes)
    ensures Remaining(Network(x + y, 8 * |x|), 0) == AddressBits(x)
  {
    BitsOfTwo(x, y);
    assert (AddressBits(x) + AddressBits(y))[0..8 * |x|] == AddressBits(x);
  }

  /** 2002::/16, 2001::/32 and ::ffff:0:0/96. */
  lemma AliasedNetworks()
    ensures AliasPath(0) == AddressBits([0, 0, 0, 0, 0, 0, 0, 0, 0, 0, 0xff, 0xff])
    ensures AliasPath(1) == AddressBits([0x20, 0x01, 0, 0])
    ensures AliasPath(2) == AddressBits([0x20, 0x02])
  {
    hide AddressBits, Remaining;
    var zeros := ZeroBytes(4);
    var mapped: Bytes := [0, 0, 0, 0, 0, 0, 0, 0, 0, 0, 0xff, 0xff];
    assert ZeroBytes(10) + [0xff, 0xff] == mapped;
    PathOfBytes(mapped, ZeroBytes(4));
    assert [0x20, 0x01] + ZeroBytes(14) == [0x20, 0x01, 0, 0] + ZeroBytes(12);
    PathOfBytes([0x20, 0x01, 0, 0], ZeroBytes(12));
    PathOfBytes([0x20, 0x02], ZeroBytes(14));
  }

  /** Whatever is inserted into a new IPv6 tree with aliases, and with whatever statuses, the three IPv6 forms of an
      IPv4 address look up what ::a.b.c.d does. */
  lemma AliasedFormsAgree(reserved: seq<Network>, ops: seq<Op>, v4: Bytes, rest: Bytes)
    requires Fit(reserved, 128) && NewContents(true, true, reserved).status == Success
    requires |v4| == 4 && |rest| == 10 && forall op | op in ops :: UserOp(op, 128)
    ensures var t := Run(NewContents(true, true, reserved).tree, ops);
      var record := Lookup(t, AddressBits([0, 0, 0, 0, 0, 0, 0, 0, 0, 0, 0, 0] + v4));
      && Lookup(t, AddressBits([0x20, 0x02] + v4 + rest)) == record
      && Lookup(t, AddressBits([0x20, 0x01, 0, 0] + v4 + rest[2..])) == record
      && Lookup(t, AddressBits([0, 0, 0, 0, 0, 0, 0, 0, 0, 0, 0xff, 0xff] + v4)) == record
  {
    hide AddressBits, Remaining, NewContents, Run, Lookup, AliasSafe, AliasAt, AliasPath, Canonical;
    NewContentsFacts(true, true, reserved);
    AliasedNetworks();
    assert ZeroBytes(12) == [0, 0, 0, 0, 0, 0, 0, 0, 0, 0, 0, 0];
    EmbeddedBits(v4);
    FormAgrees(reserved, ops, 2, [0x20, 0x02], v4, rest);
    FormAgrees(reserved, ops, 1, [0x20, 0x01, 0, 0], v4, rest[2..]);
    FormAgrees(reserved, ops, 0, [0, 0, 0, 0, 0, 0, 0, 0, 0, 0, 0xff, 0xff], v4, []);
    assert [0, 0, 0, 0, 0, 0, 0, 0, 0, 0, 0xff, 0xff] + v4 + []
      == [0, 0, 0, 0, 0, 0, 0, 0, 0, 0, 0xff, 0xff] + v4;
  }

  lemma FormAgrees(reserved: seq<Network>, ops: seq<Op>, i: nat, x: Bytes, v4: Bytes, rest: Bytes)
    requires Fit(reserved, 128) && NewContents(true, true, reserved).status == Success
    requires i < 3 && AliasPath(i) == AddressBits(x) && |v4| == 4 && |x| + |rest| == 12
    requires forall op | op in ops :: UserOp(op, 128)
    ensures var t := Run(NewContents(true, true, reserved).tree, ops);
      Lookup(t, AddressBits(x + v4 + rest)) == Lookup(t, Ipv4Root(128) + AddressBits(v4))
  {
    hide AddressBits, NewContents, Run, Lookup, AliasSafe, AliasAt, AliasPath, Ipv4Root;
    var t := NewContents(true, true, reserved).tree;
    NewContentsFacts(true, true, reserved);
    RunKeepsAliases(t, ops, 128, AliasPath(i));
    BitsOfTwo(x + v4, rest);
    BitsOfTwo(x, v4);
    AliasedLooksUpIpv4(Run(t, ops), 128, AliasPath(i), AddressBits(v4), AddressBits(rest));
  }
}
