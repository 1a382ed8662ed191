/** Aliased networks: where they lie, that they stay, and that looking through them is looking at ::a.b.c.d. */
module Aliases {
  import opened Wrappers
  import opened Data
  import opened Trie
  import opened TrieLaws

  const IPV4_BITS := 32

  /** The path of the IPv4 root, ::/96 in an IPv6 tree. */
  function Ipv4Root(w: nat): Path
    requires w >= IPV4_BITS
  {
    Zeros(w - IPV4_BITS)
  }

  /** Every alias leaves at least 32 bits to be read below it. */
  predicate AliasesWithin(t: Tree, d: int) {
    if IsNode(t) then AliasesWithin(t.left, d - 1) && AliasesWithin(t.right, d - 1) else t.Alias? ==> d >= 0
  }

  /** What makes aliases safe to follow. */
  predicate AliasSafe(t: Tree, w: nat) {
    && w >= IPV4_BITS
    && ThroughFixed(t, Ipv4Root(w)) && SubtreeAt(t, Ipv4Root(w)).FixedNode?
    && NoAlias(SubtreeAt(t, Ipv4Root(w)))
    && AliasesWithin(t, w - IPV4_BITS)
  }

  predicate AliasAt(t: Tree, q: Path) { ThroughFixed(t, q) && SubtreeAt(t, q).Alias? }

  // ---------- Inserting anything but an alias ----------

  lemma {:induction false} NoAliasStays(t: Tree, p: Path, past: bool, rec: Tree, s: Strategy)
    requires NoAlias(t) && IsNewRecord(rec) && !rec.Alias?
    ensures NoAlias(Insert(t, p, past, rec, s).tree)
    decreases |p|, t
  {
    InsertCases(t, p, past, rec, s);
    if Stops(t, p, past, rec, s) {
      StopFacts(t, p, past, rec, s);
    } else {
      var rest := if p == [] then [] else p[1..];
      NoAliasStays(LeftOf(t), rest, p == [], rec, s);
      NoAliasStays(RightOf(t), rest, p == [], rec, s);
      CombineCases(t.FixedNode? || IsFixed(rec), LeftOf(t), LeftCall(t, p, rec, s), RightCall(t, p, rec, s));
    }
  }

  lemma {:induction false} NoAliasWithin(t: Tree, d: int)
    requires NoAlias(t)
    ensures AliasesWithin(t, d)
  {
    if IsNode(t) {
      NoAliasWithin(t.left, d - 1);
      NoAliasWithin(t.right, d - 1);
    }
  }

  lemma {:induction false} AliasesStayWithin(t: Tree, p: Path, past: bool, rec: Tree, s: Strategy, d: int)
    requires AliasesWithin(t, d) && IsNewRecord(rec) && !rec.Alias?
    ensures AliasesWithin(Insert(t, p, past, rec, s).tree, d)
    decreases |p|, t
  {
    InsertCases(t, p, past, rec, s);
    if Stops(t, p, past, rec, s) {
      StopFacts(t, p, past, rec, s);
    } else {
      var rest := if p == [] then [] else p[1..];
      AliasesStayWithin(LeftOf(t), rest, p == [], rec, s, d - 1);
      AliasesStayWithin(RightOf(t), rest, p == [], rec, s, d - 1);
      CombineCases(t.FixedNode? || IsFixed(rec), LeftOf(t), LeftCall(t, p, rec, s), RightCall(t, p, rec, s));
    }
  }

  lemma {:induction false} SubtreeNoAlias(t: Tree, p: Path, past: bool, rec: Tree, s: Strategy, q: Path)
    requires ThroughFixed(t, q) && NoAlias(SubtreeAt(t, q)) && IsNewRecord(rec) && !rec.Alias?
    ensures NoAlias(SubtreeAt(Insert(t, p, past, rec, s).tree, q))
    decreases |q|
  {
    if q == [] {
      NoAliasStays(t, p, past, rec, s);
    } else {
      InsertCases(t, p, past, rec, s);
      if !Stops(t, p, past, rec, s) {
        var rest := if p == [] then [] else p[1..];
        SubtreeNoAlias(if q[0] then t.right else t.left, rest, p == [], rec, s, q[1..]);
        CombineCases(true, LeftOf(t), LeftCall(t, p, rec, s), RightCall(t, p, rec, s));
      }
    }
  }

  /** Whatever is inserted, short of an alias, aliases stay safe and stay in place, whether or not it succeeds. */
  lemma AliasSafeStays(t: Tree, p: Path, rec: Tree, s: Strategy, w: nat)
    requires AliasSafe(t, w) && IsNewRecord(rec) && !rec.Alias?
    ensures AliasSafe(Insert(t, p, false, rec, s).tree, w)
    ensures forall q | AliasAt(t, q) :: AliasAt(Insert(t, p, false, rec, s).tree, q)
  {
    FixedRecordsStay(t, p, false, rec, s, Ipv4Root(w));
    SubtreeNoAlias(t, p, false, rec, s, Ipv4Root(w));
    AliasesStayWithin(t, p, false, rec, s, w - IPV4_BITS);
    forall q | AliasAt(t, q) ensures AliasAt(Insert(t, p, false, rec, s).tree, q) {
      FixedRecordsStay(t, p, false, rec, s, q);
    }
  }

  // ---------- Building the fixed part ----------

  /** Nothing fixed lies at p or on the way to it, except fixed nodes on the way. */
  predicate Clear(t: Tree, p: Path)
    decreases |p|
  {
    IsUserRecord(t) || t.Node? || (t.FixedNode? && p != [] && Clear(if p[0] then t.right else t.left, p[1..]))
  }

  /** A fixed record inserted at a clear place ends up exactly there. */
  lemma {:induction false} FixedInsert(t: Tree, p: Path, rec: Tree, d: int)
    requires WellFormed(t) && Clear(t, p) && IsFixed(rec) && IsNewRecord(rec)
    ensures var o := Insert(t, p, false, rec, NoMerge);
      && o.status == Success && ThroughFixed(o.tree, p) && SubtreeAt(o.tree, p) == rec
      && (AliasesWithin(t, d) && |p| <= d ==> AliasesWithin(o.tree, d))
    decreases |p|
  {
    InsertCases(t, p, false, rec, NoMerge);
    if Stops(t, p, false, rec, NoMerge) {
      if t.Node? { PlainFacts(t); }
    } else {
      if t.Node? { PlainFacts(t.left); PlainFacts(t.right); }
      FixedInsert(if p[0] then RightOf(t) else LeftOf(t), p[1..], rec, d - 1);
    }
  }

  predicate Apart(p: Path, q: Path) { !(p <= q) && !(q <= p) }

  /** An insert of a fixed record leaves places apart from it as they were. */
  lemma {:induction false} ApartUntouched(t: Tree, p: Path, rec: Tree, q: Path)
    requires WellFormed(t) && Clear(t, p) && IsFixed(rec) && IsNewRecord(rec) && Apart(p, q)
    ensures var t' := Insert(t, p, false, rec, NoMerge).tree;
      && (Clear(t, q) ==> Clear(t', q))
      && (ThroughFixed(t, q) ==> ThroughFixed(t', q) && SubtreeAt(t', q) == SubtreeAt(t, q))
    decreases |p|
  {
    InsertCases(t, p, false, rec, NoMerge);
    FixedInsert(t, p, rec, 0);
    PrefixStep(p, q);
    PrefixStep(q, p);
    if t.Node? { PlainFacts(t.left); PlainFacts(t.right); }
    if p[0] == q[0] {
      ApartUntouched(if p[0] then RightOf(t) else LeftOf(t), p[1..], rec, q[1..]);
    }
  }

  // ---------- Looking up ----------

  /** find_record_for_network: an alias is left through the node it points at, which is the IPv4 root. */
  function Follow(t: Tree, ipv4: Tree, a: Path): Tree
    decreases |a|
  {
    if a == [] then t
    else if IsNode(t) then Follow(if a[0] then t.right else t.left, ipv4, a[1..])
    else if t.Alias? then Follow(if a[0] then RightOf(ipv4) else LeftOf(ipv4), ipv4, a[1..])
    else t
  }

  lemma FollowBit(t: Tree, ipv4: Tree, a: Path)
    requires a != []
    ensures IsNode(t) ==> Follow(t, ipv4, a) == Follow(if a[0] then t.right else t.left, ipv4, a[1..])
    ensures t.Alias? && IsNode(ipv4) ==>
      Follow(t, ipv4, a) == Follow(if a[0] then ipv4.right else ipv4.left, ipv4, a[1..])
    ensures !IsNode(t) && !t.Alias? ==> Follow(t, ipv4, a) == t
  {
  }

  lemma FollowNothing(t: Tree, ipv4: Tree, a: Path)
    requires a == []
    ensures Follow(t, ipv4, a) == t
  {
  }

  /** What a lookup answers with the record it ends on. */
  function ValueOf(record: Tree): Option<Value> {
    if record.Data? then Some(record.v) else None
  }

  function Lookup(t: Tree, a: Path): Tree
    requires |a| >= IPV4_BITS
  {
    Follow(t, SubtreeAt(t, Ipv4Root(|a|)), a)
  }

  lemma {:induction false} FollowWithoutAlias(t: Tree, ipv4: Tree, a: Path)
    requires NoAlias(t)
    ensures Follow(t, ipv4, a) == RecordAt(t, a) && NoAlias(RecordAt(t, a))
    decreases |a|
  {
    if IsNode(t) && a != [] {
      FollowWithoutAlias(if a[0] then t.right else t.left, ipv4, a[1..]);
    }
  }

  lemma {:induction false} FollowToAlias(t: Tree, ipv4: Tree, q: Path, b: Path)
    requires AliasAt(t, q) && IsNode(ipv4) && NoAlias(ipv4) && b != []
    ensures Follow(t, ipv4, q + b) == RecordAt(ipv4, b)
    decreases |q|
  {
    if q == [] {
      assert q + b == b;
      FollowWithoutAlias(if b[0] then ipv4.right else ipv4.left, ipv4, b[1..]);
    } else {
      assert (q + b)[1..] == q[1..] + b;
      FollowToAlias(if q[0] then t.right else t.left, ipv4, q[1..], b);
    }
  }

  lemma {:induction false} FollowToSubtree(t: Tree, ipv4: Tree, q: Path, b: Path)
    requires ThroughFixed(t, q) && NoAlias(SubtreeAt(t, q))
    ensures Follow(t, ipv4, q + b) == RecordAt(SubtreeAt(t, q), b)
    decreases |q|
  {
    if q == [] {
      assert q + b == b;
      FollowWithoutAlias(t, ipv4, b);
    } else {
      assert (q + b)[1..] == q[1..] + b;
      FollowToSubtree(if q[0] then t.right else t.left, ipv4, q[1..], b);
    }
  }

  lemma {:induction false} SubtreeHeight(t: Tree, q: Path, w: nat)
    requires Height(t) <= w && |q| <= w
    ensures Height(SubtreeAt(t, q)) <= w - |q|
    decreases |q|
  {
    if q != [] && IsNode(t) {
      SubtreeHeight(if q[0] then t.right else t.left, q[1..], w - 1);
    }
  }

  lemma {:induction false} RecordIgnoresRest(t: Tree, b: Path, rest: Path)
    requires Height(t) <= |b|
    ensures RecordAt(t, b + rest) == RecordAt(t, b)
    decreases |b|
  {
    if IsNode(t) {
      assert (b + rest)[1..] == b[1..] + rest;
      RecordIgnoresRest(if b[0] then t.right else t.left, b[1..], rest);
    }
  }

  /** Every address of an aliased network looks up the record of the IPv4 address in its next 32 bits. */
  lemma AliasedLooksUpIpv4(t: Tree, w: nat, q: Path, b: Path, rest: Path)
    requires AliasSafe(t, w) && Height(t) <= w
    requires AliasAt(t, q) && |b| == IPV4_BITS && |q| + |b| + |rest| == w
    ensures Lookup(t, q + b + rest) == Lookup(t, Ipv4Root(w) + b)
  {
    var z := Ipv4Root(w);
    var ipv4 := SubtreeAt(t, z);
    SubtreeHeight(t, z, w);
    assert q + b + rest == q + (b + rest);
    FollowToAlias(t, ipv4, q, b + rest);
    FollowToSubtree(t, ipv4, z, b);
    RecordIgnoresRest(ipv4, b, rest);
  }

  /** A full-length walk never stops on a node or an alias. */
  lemma {:induction false} FollowEndsOnLeaf(t: Tree, ipv4: Tree, a: Path)
    requires Height(t) <= |a| && AliasesWithin(t, |a| - IPV4_BITS)
    requires NoAlias(t) || (IsNode(ipv4) && NoAlias(ipv4) && Height(ipv4) <= IPV4_BITS)
    ensures !IsNode(Follow(t, ipv4, a)) && !Follow(t, ipv4, a).Alias?
    decreases |a|
  {
    if IsNode(t) {
      FollowEndsOnLeaf(if a[0] then t.right else t.left, ipv4, a[1..]);
    } else if t.Alias? {
      var next := if a[0] then ipv4.right else ipv4.left;
      FollowWithoutAlias(next, ipv4, a[1..]);
      RecordIsLeaf(next, a[1..]);
    }
  }

  lemma LookupEndsOnLeaf(t: Tree, w: nat, a: Path)
    requires |a| == w && w >= IPV4_BITS && Height(t) <= w && (NoAlias(t) || AliasSafe(t, w))
    ensures !IsNode(Lookup(t, a)) && !Lookup(t, a).Alias?
  {
    if NoAlias(t) {
      NoAliasWithin(t, w - IPV4_BITS);
    } else {
      SubtreeHeight(t, Ipv4Root(w), w);
    }
    FollowEndsOnLeaf(t, SubtreeAt(t, Ipv4Root(w)), a);
  }
}
