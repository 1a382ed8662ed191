/** What a new tree contains: the IPv4 root, the aliases, and the reserved networks (c/tree.c:577-757). */
module FreshTree {
  import opened Data
  import opened Trie
  import opened TrieLaws
  import opened Address
  import opened Aliases
  import opened CanonicalTree

  function ZeroBytes(n: nat): (b: Bytes)
    ensures |b| == n && forall i | 0 <= i < n :: b[i] == 0
  {
    seq(n, _ => 0)
  }

  const IPV4_ROOT := Network(ZeroBytes(16), 96)

  /** ::ffff:0:0/96, 2001::/32 and 2002::/16. */
  const IPV4_ALIASES := [
    Network(ZeroBytes(10) + [0xff, 0xff] + ZeroBytes(4), 96),
    Network([0x20, 0x01] + ZeroBytes(14), 32),
    Network([0x20, 0x02] + ZeroBytes(14), 16)]

  function AliasPath(i: nat): Path
    requires i < 3
  {
    Remaining(IPV4_ALIASES[i], 0)
  }

  function FixedStep(t: Tree, network: Network, rec: Tree): Outcome
    requires network.prefixLength <= 8 * |network.bytes|
  {
    Insert(t, Remaining(network, 0), false, rec, NoMerge)
  }

  /** alias_ipv4_networks on an empty IPv6 tree. */
  function AliasedTree(n: nat): Tree
    requires n <= 3
  {
    if n == 0 then FixedStep(Empty, IPV4_ROOT, FixedNode(Empty, Empty)).tree
    else FixedStep(AliasedTree(n - 1), IPV4_ALIASES[n - 1], Alias).tree
  }

  /** insert_networks_as_fixed_empty: stops at the first network that is refused. */
  function Reserve(t: Tree, networks: seq<Network>): Outcome
    requires forall n | n in networks :: n.prefixLength <= 8 * |n.bytes|
    decreases |networks|
  {
    if networks == [] then Outcome(Success, t)
    else
      var o := FixedStep(t, networks[0], FixedEmpty);
      if o.status != Success then o else Reserve(o.tree, networks[1..])
  }

  /** The contents of a new tree: aliases first, then the reserved networks. */
  function NewContents(ipv6: bool, aliasIpv6: bool, reserved: seq<Network>): Outcome
    requires forall n | n in reserved :: n.prefixLength <= 8 * |n.bytes|
  {
    Reserve(if ipv6 && aliasIpv6 then AliasedTree(3) else Empty, reserved)
  }

  // ---------- The paths ----------

  lemma BitAt(network: Network, i: nat)
    requires network.prefixLength <= 8 * |network.bytes| && i < network.prefixLength
    ensures Remaining(network, 0)[i] == (network.bytes[i / 8] / Pow2(7 - i % 8) % 2 == 1)
  {
    hide Pow2;
    assert Remaining(network, 0)[i] == AddressBits(network.bytes)[i] == NetworkBit(network.bytes, i);
  }

  lemma ApartAt(p: Path, q: Path, i: nat)
    requires i < |p| && i < |q| && p[i] != q[i]
    ensures Apart(p, q) && Apart(q, p)
  {
  }

  lemma SmallPowers()
    ensures Pow2(0) == 1 && Pow2(1) == 2 && Pow2(2) == 4 && Pow2(3) == 8 && Pow2(4) == 16 && Pow2(5) == 32
    ensures Pow2(6) == 64 && Pow2(7) == 128 && Pow2(8) == 256
  {
    assert Pow2(0) == 1;
    assert Pow2(1) == 2;
    assert Pow2(2) == 4;
    assert Pow2(3) == 8;
    assert Pow2(4) == 16;
    assert Pow2(5) == 32;
    assert Pow2(6) == 64;
    assert Pow2(7) == 128;
  }

  lemma RootPath()
    ensures Remaining(IPV4_ROOT, 0) == Ipv4Root(128)
  {
    hide Pow2, Remaining;
    forall i | 0 <= i < 96 ensures !Remaining(IPV4_ROOT, 0)[i] {
      BitAt(IPV4_ROOT, i);
      assert IPV4_ROOT.bytes[i / 8] == 0;
    }
  }

  lemma AliasBits()
    ensures |AliasPath(0)| == 96 && |AliasPath(1)| == 32 && |AliasPath(2)| == 16
    ensures AliasPath(0)[80] && !AliasPath(0)[2]
    ensures AliasPath(1)[2] && !AliasPath(1)[14]
    ensures AliasPath(2)[2] && AliasPath(2)[14]
  {
    hide Pow2, Remaining;
    SmallPowers();
    BitAt(IPV4_ALIASES[0], 80);
    BitAt(IPV4_ALIASES[0], 2);
    BitAt(IPV4_ALIASES[1], 2);
    BitAt(IPV4_ALIASES[1], 14);
    BitAt(IPV4_ALIASES[2], 2);
    BitAt(IPV4_ALIASES[2], 14);
  }

  /** The IPv4 root and the three aliased networks are pairwise disjoint. */
  lemma PathsApart()
    ensures forall i | 0 <= i < 3 :: Apart(Ipv4Root(128), AliasPath(i)) && |AliasPath(i)| <= 96
    ensures forall i, j | 0 <= i < 3 && 0 <= j < 3 && i != j :: Apart(AliasPath(i), AliasPath(j))
  {
    hide AliasPath, Apart, Remaining;
    AliasBits();
    var root := Ipv4Root(128);
    assert |root| == 96 && forall i | 0 <= i < 96 :: !root[i];
    ApartAt(root, AliasPath(0), 80);
    ApartAt(root, AliasPath(1), 2);
    ApartAt(root, AliasPath(2), 2);
    ApartAt(AliasPath(0), AliasPath(1), 2);
    ApartAt(AliasPath(0), AliasPath(2), 2);
    ApartAt(AliasPath(1), AliasPath(2), 14);
  }

  // ---------- What setting up establishes ----------

  ghost predicate SetUp(t: Tree, n: nat)
    requires n <= 3
  {
    && Canonical(t, 128) && Skeleton(t) == t && AliasSafe(t, 128)
    && (forall i | 0 <= i < n :: AliasAt(t, AliasPath(i)))
    && (forall i | n <= i < 3 :: Clear(t, AliasPath(i)))
  }

  /** A tree without data stays one when a fixed record goes in. */
  lemma {:induction false} BareStays(t: Tree, p: Path, past: bool, rec: Tree)
    requires Skeleton(t) == t && IsFixed(rec) && IsNewRecord(rec)
    ensures Skeleton(Insert(t, p, past, rec, NoMerge).tree) == Insert(t, p, past, rec, NoMerge).tree
    decreases |p|, t
  {
    InsertCases(t, p, past, rec, NoMerge);
    if Stops(t, p, past, rec, NoMerge) {
      StopFacts(t, p, past, rec, NoMerge);
    } else {
      var rest := if p == [] then [] else p[1..];
      BareStays(LeftOf(t), rest, p == [], rec);
      BareStays(RightOf(t), rest, p == [], rec);
      CombineCases(true, LeftOf(t), LeftCall(t, p, rec, NoMerge), RightCall(t, p, rec, NoMerge));
    }
  }

  lemma {:induction false} BareIsTrimmed(t: Tree)
    requires Skeleton(t) == t
    ensures Trimmed(t) && WellFormed(t)
  {
    if IsNode(t) {
      BareIsTrimmed(t.left);
      BareIsTrimmed(t.right);
    }
  }

  lemma FixedStepKeepsCanonical(t: Tree, p: Path, rec: Tree, w: nat)
    requires Canonical(t, w) && Skeleton(t) == t && IsFixed(rec) && IsNewRecord(rec) && |p| + Height(rec) <= w
    ensures var t' := Insert(t, p, false, rec, NoMerge).tree; Canonical(t', w) && Skeleton(t') == t'
  {
    BareStays(t, p, false, rec);
    BareIsTrimmed(Insert(t, p, false, rec, NoMerge).tree);
    InsertKeepsHeight(t, p, false, rec, NoMerge, w);
  }

  lemma RootSetUp()
    ensures FixedStep(Empty, IPV4_ROOT, FixedNode(Empty, Empty)).status == Success
    ensures SetUp(AliasedTree(0), 0) && SubtreeAt(AliasedTree(0), Ipv4Root(128)) == FixedNode(Empty, Empty)
  {
    var t, p, rec := AliasedTree(0), Ipv4Root(128), FixedNode(Empty, Empty);
    RootPath();
    PathsApart();
    FixedInsert(Empty, p, rec, 96);
    FixedStepKeepsCanonical(Empty, p, rec, 128);
    NoAliasStays(Empty, p, false, rec, NoMerge);
    NoAliasWithin(t, 96);
    forall i | 0 <= i < 3 ensures Clear(t, AliasPath(i)) {
      ApartUntouched(Empty, p, rec, AliasPath(i));
    }
  }

  lemma AliasSetUp(t: Tree, n: nat)
    requires n < 3 && SetUp(t, n)
    ensures FixedStep(t, IPV4_ALIASES[n], Alias).status == Success
    ensures SetUp(FixedStep(t, IPV4_ALIASES[n], Alias).tree, n + 1)
  {
    var p := AliasPath(n);
    PathsApart();
    FixedInsert(t, p, Alias, 96);
    FixedStepKeepsCanonical(t, p, Alias, 128);
    var t' := FixedStep(t, IPV4_ALIASES[n], Alias).tree;
    ApartUntouched(t, p, Alias, Ipv4Root(128));
    forall i | 0 <= i < 3 && i != n
      ensures i < n ==> AliasAt(t', AliasPath(i))
      ensures i > n ==> Clear(t', AliasPath(i))
    {
      ApartUntouched(t, p, Alias, AliasPath(i));
    }
  }

  lemma {:induction false} AliasedTreeSetUp(n: nat)
    requires n <= 3
    ensures SetUp(AliasedTree(n), n)
  {
    if n == 0 {
      RootSetUp();
    } else {
      AliasedTreeSetUp(n - 1);
      AliasSetUp(AliasedTree(n - 1), n - 1);
    }
  }

  /** Reserving networks, as far as it gets, keeps a new tree canonical and free of data, and its aliases in place. */
  lemma {:induction false} ReserveKeeps(t: Tree, networks: seq<Network>, w: nat)
    requires Canonical(t, w) && Skeleton(t) == t
    requires forall n | n in networks :: n.prefixLength <= 8 * |n.bytes| == w
    ensures var t' := Reserve(t, networks).tree;
      && Canonical(t', w) && Skeleton(t') == t'
      && (NoAlias(t) ==> NoAlias(t'))
      && (AliasSafe(t, w) ==> AliasSafe(t', w) && forall q | AliasAt(t, q) :: AliasAt(t', q))
    decreases |networks|
  {
    if networks != [] {
      var p := Remaining(networks[0], 0);
      var o := FixedStep(t, networks[0], FixedEmpty);
      FixedStepKeepsCanonical(t, p, FixedEmpty, w);
      if NoAlias(t) { NoAliasStays(t, p, false, FixedEmpty, NoMerge); }
      if AliasSafe(t, w) { AliasSafeStays(t, p, FixedEmpty, NoMerge, w); }
      if o.status == Success {
        ReserveKeeps(o.tree, networks[1..], w);
      }
    }
  }

  /** A new tree is canonical and holds no data; its aliases are in place and safe. */
  lemma NewContentsFacts(ipv6: bool, aliasIpv6: bool, reserved: seq<Network>)
    requires forall n | n in reserved :: n.prefixLength <= 8 * |n.bytes| == if ipv6 then 128 else 32
    ensures var t := NewContents(ipv6, aliasIpv6, reserved).tree;
      && Canonical(t, if ipv6 then 128 else 32) && Skeleton(t) == t
      && (ipv6 && aliasIpv6 ==> AliasSafe(t, 128) && forall i | 0 <= i < 3 :: AliasAt(t, AliasPath(i)))
      && (!(ipv6 && aliasIpv6) ==> NoAlias(t))
  {
    if ipv6 && aliasIpv6 {
      AliasedTreeSetUp(3);
    }
    ReserveKeeps(if ipv6 && aliasIpv6 then AliasedTree(3) else Empty, reserved, if ipv6 then 128 else 32);
  }

  lemma ReserveStep(t: Tree, networks: seq<Network>, i: nat)
    requires i <= |networks| && forall n | n in networks :: n.prefixLength <= 8 * |n.bytes|
    ensures i == |networks| ==> Reserve(t, networks[i..]) == Outcome(Success, t)
    ensures i < |networks| ==>
      var o := FixedStep(t, networks[i], FixedEmpty);
      Reserve(t, networks[i..]) == if o.status != Success then o else Reserve(o.tree, networks[i + 1..])
  {
    if i < |networks| {
      assert networks[i..][1..] == networks[i + 1..];
    }
  }

  /** An IPv4 address in an IPv6 tree stands at ::a.b.c.d (resolve_ip). */
  function EmbedIpv4(v4: Bytes): Bytes
    requires |v4| == 4
  {
    ZeroBytes(12) + v4
  }

  lemma EmbeddedBits(v4: Bytes)
    requires |v4| == 4
    ensures AddressBits(EmbedIpv4(v4)) == Ipv4Root(128) + AddressBits(v4)
  {
    var a := AddressBits(EmbedIpv4(v4));
    assert |Ipv4Root(128)| == 96;
    forall i | 0 <= i < 128 ensures a[i] == (Ipv4Root(128) + AddressBits(v4))[i] {
      if i >= 96 {
        assert (i - 96) / 8 == i / 8 - 12 && (i - 96) % 8 == i % 8;
        assert EmbedIpv4(v4)[i / 8] == v4[i / 8 - 12];
      }
    }
  }
}
