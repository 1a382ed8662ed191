/** What inserting a range does to the tree: every address of the range is updated once, and no other. */
module RangeUpdates {
  import opened Data
  import opened Trie
  import opened TrieLaws
  import opened Address
  import opened CanonicalTree
  import opened Ranges

  // ---------- Numbers, bytes and bits ----------

  /** The w lowest bits of n, most significant first. */
  function BitsOf(n: nat, w: nat): (a: Bits)
    ensures |a| == w
  {
    if w == 0 then [] else BitsOf(n / 2, w - 1) + [n % 2 == 1]
  }

  /** integer_to_ip_bytes. */
  function IntToBytes(n: nat, length: nat): (b: Bytes)
    ensures |b| == length
  {
    if length == 0 then [] else IntToBytes(n / 256, length - 1) + [n % 256]
  }

  /** ip_bytes_to_integer. */
  function BytesToInt(b: Bytes): nat {
    if b == [] then 0 else 256 * BytesToInt(b[..|b| - 1]) + b[|b| - 1]
  }

  lemma {:induction false} BytesOfInt(b: Bytes)
    ensures IntToBytes(BytesToInt(b), |b|) == b && BytesToInt(b) < Pow2(8 * |b|)
  {
    if b != [] {
      BytesOfInt(b[..|b| - 1]);
      EightTimes(8 * (|b| - 1));
    }
  }

  lemma EightTimes(k: nat)
    ensures Pow2(k + 8) == 256 * Pow2(k)
  {
    hide Pow2;
    Pow2Step(k); Pow2Step(k + 1); Pow2Step(k + 2); Pow2Step(k + 3);
    Pow2Step(k + 4); Pow2Step(k + 5); Pow2Step(k + 6); Pow2Step(k + 7);
  }

  /** Dividing by a power of two drops low bits. */
  lemma {:induction false} HighBits(n: nat, w: nat, p: nat)
    requires p <= w
    ensures BitsOf(n, w)[..p] == BitsOf(n / Pow2(w - p), p)
    decreases w - p
  {
    if p < w {
      HighBits(n / 2, w - 1, p);
      var d := Pow2(w - 1 - p);
      HalveAndDivide(n, d);
      assert BitsOf(n, w)[..p] == BitsOf(n / 2, w - 1)[..p];
    } else {
      assert n / Pow2(0) == n;
    }
  }

  lemma HalveAndDivide(n: nat, d: nat)
    requires d > 0
    ensures n / (2 * d) == n / 2 / d
  {
    var q, r := n / 2 / d, n / 2 % d;
    assert n == 2 * (q * d + r) + n % 2;
    assert 2 * (q * d) == q * (2 * d);
    DivModUnique(n, 2 * d, q, 2 * r + n % 2);
  }

  /** Bit i, counted from the most significant one. */
  lemma {:induction false} BitAtIndex(n: nat, w: nat, i: nat)
    requires i < w
    ensures BitsOf(n, w)[i] <==> n / Pow2(w - 1 - i) % 2 == 1
    decreases w
  {
    if i < w - 1 {
      BitAtIndex(n / 2, w - 1, i);
      HalveAndDivide(n, Pow2(w - 2 - i));
    } else {
      assert n / Pow2(0) == n;
    }
  }

  lemma {:induction false} BitsInjective(m: nat, n: nat, w: nat)
    requires m < Pow2(w) && n < Pow2(w) && BitsOf(m, w) == BitsOf(n, w)
    ensures m == n
  {
    if w > 0 {
      var a, b := BitsOf(m, w), BitsOf(n, w);
      assert a[..w - 1] == BitsOf(m / 2, w - 1) && b[..w - 1] == BitsOf(n / 2, w - 1);
      assert a[w - 1] == (m % 2 == 1) && b[w - 1] == (n % 2 == 1);
      BitsInjective(m / 2, n / 2, w - 1);
    }
  }

  /** The number whose bits are a. */
  function NumberOf(a: Bits): (n: nat)
    ensures n < Pow2(|a|) && BitsOf(n, |a|) == a
  {
    if a == [] then 0
    else
      var n := 2 * NumberOf(a[..|a| - 1]) + (if a[|a| - 1] then 1 else 0);
      assert n / 2 == NumberOf(a[..|a| - 1]);
      n
  }

  /** The bits of the bytes of a number are the bits of the number. */
  lemma {:induction false} BytesBits(n: nat, length: nat)
    ensures AddressBits(IntToBytes(n, length)) == BitsOf(n, 8 * length)
    decreases length
  {
    if length > 0 {
      var w, b := 8 * length, IntToBytes(n, length);
      BytesBits(n / 256, length - 1);
      HighBits(n, w, w - 8);
      assert Pow2(8) == 256 by { EightTimes(0); Pow2Step(0); }
      forall i | 0 <= i < w ensures AddressBits(b)[i] == BitsOf(n, w)[i] {
        if i < w - 8 {
          assert AddressBits(b)[i] == AddressBits(IntToBytes(n / 256, length - 1))[i];
          assert BitsOf(n, w)[i] == BitsOf(n, w)[..w - 8][i];
        } else {
          BitAtIndex(n, w, i);
          LowBit(n, 8, w - 1 - i);
          assert i / 8 == length - 1 && 7 - i % 8 == w - 1 - i;
        }
      }
    }
  }

  function IntBit(n: nat, k: nat): nat { n / Pow2(k) % 2 }

  lemma IntBitStep(n: nat, k: nat)
    ensures k == 0 ==> IntBit(n, k) == n % 2
    ensures k > 0 ==> IntBit(n, k) == IntBit(n / 2, k - 1)
  {
    hide Pow2;
    if k > 0 {
      Pow2Step(k - 1);
      HalveAndDivide(n, Pow2(k - 1));
    } else {
      Pow2Step(0);
      DivModUnique(n, Pow2(0), n, 0);
    }
  }

  lemma {:induction false} LowBit(n: nat, m: nat, k: nat)
    requires k < m
    ensures IntBit(n % Pow2(m), k) == IntBit(n, k)
    decreases k
  {
    hide Pow2, IntBit;
    ModHalves(n, m - 1);
    TwiceAndBit(n / 2 % Pow2(m - 1), n % 2);
    IntBitStep(n, k);
    IntBitStep(n % Pow2(m), k);
    if k > 0 {
      LowBit(n / 2, m - 1, k - 1);
    }
  }

  lemma TwiceAndBit(y: nat, b: nat)
    requires b < 2
    ensures (2 * y + b) / 2 == y && (2 * y + b) % 2 == b
  {
  }

  // ---------- The path of a network ----------

  function BlockPath(b: Block, w: nat): (p: Path)
    requires b.prefixLength <= w
    ensures |p| == b.prefixLength
  {
    BitsOf(b.start, w)[..b.prefixLength]
  }

  predicate Aligned(b: Block, w: nat) {
    b.prefixLength <= w && b.start % Pow2(w - b.prefixLength) == 0 && b.start < Pow2(w)
  }

  /** An address lies in an aligned network exactly when it starts with the network's prefix. */
  lemma InBlockIsPrefix(b: Block, w: nat, n: nat)
    requires Aligned(b, w) && n < Pow2(w)
    ensures BlockPath(b, w) <= BitsOf(n, w) <==> InBlock(n, b, w)
  {
    hide BitsOf, Pow2;
    var d := Pow2(w - b.prefixLength);
    HighBits(b.start, w, b.prefixLength);
    HighBits(n, w, b.prefixLength);
    QuotientBelow(b.start, w, b.prefixLength);
    QuotientBelow(n, w, b.prefixLength);
    var q, m := b.start / d, n / d;
    if BitsOf(q, b.prefixLength) == BitsOf(m, b.prefixLength) {
      BitsInjective(q, m, b.prefixLength);
    }
    SameQuotient(b.start, n, d);
  }

  lemma SameQuotient(s: nat, n: nat, d: nat)
    requires d > 0 && s % d == 0
    ensures s / d == n / d <==> s <= n < s + d
  {
    var q := s / d;
    assert s == q * d;
    assert n == n / d * d + n % d;
    if s <= n < s + d {
      DivModUnique(n, d, q, n - s);
    }
  }

  lemma QuotientBelow(n: nat, w: nat, p: nat)
    requires p <= w && n < Pow2(w)
    ensures n / Pow2(w - p) < Pow2(p)
    decreases w - p
  {
    if p < w {
      HalveAndDivide(n, Pow2(w - 1 - p));
      QuotientBelow(n / 2, w - 1, p);
    } else {
      assert n / Pow2(0) == n;
    }
  }

  // ---------- Inserting the networks of a range ----------

  /** The loop of insert_range: the first network that is refused ends it. */
  function InsertBlocks(t: Tree, bs: seq<Block>, rec: Tree, s: Strategy, w: nat): Outcome
    requires forall b | b in bs :: b.prefixLength <= w
    decreases |bs|
  {
    if bs == [] then Outcome(Success, t)
    else
      var o := Insert(t, BlockPath(bs[0], w), false, rec, s);
      if o.status != Success then o else InsertBlocks(o.tree, bs[1..], rec, s, w)
  }

  ghost predicate Proper(bs: seq<Block>, w: nat) {
    forall b | b in bs :: Aligned(b, w)
  }

  /** A completed run over disjoint networks updates exactly the addresses in them. */
  lemma {:induction false} TiledPointwise(t: Tree, bs: seq<Block>, start: nat, end: nat, rec: Tree, s: Strategy,
                                          w: nat, n: nat)
    requires Canonical(t, w) && IsUserRecord(rec) && n < Pow2(w)
    requires Proper(bs, w) && Tiles(bs, start, end, w)
    requires InsertBlocks(t, bs, rec, s, w).status == Success
    ensures var u := InsertBlocks(t, bs, rec, s, w).tree; var a := BitsOf(n, w);
      && Canonical(u, w) && Skeleton(u) == Skeleton(t)
      && RecordAt(u, a) == if start <= n <= end then Updated(RecordAt(t, a), rec, s) else RecordAt(t, a)
    decreases |bs|
  {
    hide Insert, BitsOf, Canonical, Updated, Aligned;
    if bs != [] {
      var b := bs[0];
      assert Aligned(b, w);
      BlockPrefix(b, w);
      var op := Op(BlockPath(b, w), rec, s);
      ApplyKeepsCanonical(t, op, w);
      ApplyPointwise(t, op, w, BitsOf(n, w));
      InBlockIsPrefix(b, w, n);
      TilesStart(bs[1..], start + Size(b, w), end, w);
      TiledPointwise(Apply(t, op).tree, bs[1..], start + Size(b, w), end, rec, s, w, n);
    }
  }

  lemma BlockPrefix(b: Block, w: nat)
    requires Aligned(b, w)
    ensures b.prefixLength <= w
  {
  }

  lemma EmittedProper(start: nat, end: nat, w: nat)
    requires start <= end < Pow2(w)
    ensures Proper(Emitted(start, end, w), w)
  {
    hide Pow2, Blocks;
    if w == INT_BITS && start == 0 && end == Pow2(INT_BITS) - 1 {
      Pow2Step(INT_BITS - 1);
      DivModUnique(0, Pow2(INT_BITS), 0, 0);
      DivModUnique(Pow2(INT_BITS - 1), Pow2(INT_BITS - 1), 1, 0);
    } else {
      BlocksTile(start, end, w);
      forall b | b in Blocks(start, end, w) ensures Aligned(b, w) {
        assert IsLargest(b.start, end, w, w - b.prefixLength);
      }
    }
  }

  /** The whole range in one network. */
  lemma WholeBlock(w: nat, n: nat)
    requires n < Pow2(w)
    ensures Tiles([Block(0, 0)], 0, Pow2(w) - 1, w) && Aligned(Block(0, 0), w)
    ensures BlockPath(Block(0, 0), w) == []
  {
    hide Pow2;
    DivModUnique(0, Pow2(w), 0, 0);
    assert [Block(0, 0)][1..] == [];
  }

  /** What insert_range does to the tree. */
  ghost function RangeOutcome(t: Tree, start: nat, end: nat, rec: Tree, s: Strategy, w: nat): Outcome
    requires end < Pow2(w)
  {
    if start > end then Outcome(Success, t)
    else
      EmittedProper(start, end, w);
      InsertBlocks(t, Emitted(start, end, w), rec, s, w)
  }

  /** After ::/0, inserting 8000::/1 once more changes no record. It goes through, and leaves the very same tree,
      exactly when no alias is the whole of it and no record in it refuses the same data a second time. */
  lemma WholeRangeTwice(t: Tree, rec: Tree, s: Strategy)
    requires Canonical(t, INT_BITS) && IsUserRecord(rec)
    requires Insert(t, [], false, rec, s).status == Success
    ensures var o := RangeOutcome(t, 0, Pow2(INT_BITS) - 1, rec, s, INT_BITS);
      var u := Insert(t, [], false, rec, s).tree;
      && o == Insert(u, [true], false, rec, s)
      && SameRecords(o.tree, u, INT_BITS)
      && (o.status == Success || MeetsAlias(t, [true]) ==> o.tree == u)
      && (o.status == Success <==>
            !MeetsAlias(t, [true]) && forall a: Path | |a| == INT_BITS && [true] <= a ::
              !RefusesAgain(RecordAt(t, a), rec, s))
  {
    hide Pow2, BitsOf, Insert, MeetsAlias, Canonical, RefusesAgain, SameRecords;
    EmittedProper(0, Pow2(INT_BITS) - 1, INT_BITS);
    var u := Insert(t, [], false, rec, s).tree;
    var bs := Emitted(0, Pow2(INT_BITS) - 1, INT_BITS);
    var high := Block(Pow2(INT_BITS - 1), 1);
    assert bs == [Block(0, 0), high];
    assert BlockPath(Block(0, 0), INT_BITS) == [];
    TopBit();
    ReinsertInside(t, Op([], rec, s), [true], INT_BITS);
    assert bs[1..] == [high] && [high][1..] == [];
    assert InsertBlocks(t, bs, rec, s, INT_BITS) == InsertBlocks(u, [high], rec, s, INT_BITS);
    var o := Insert(u, [true], false, rec, s);
    assert InsertBlocks(o.tree, [], rec, s, INT_BITS) == Outcome(Success, o.tree);
    assert InsertBlocks(u, [high], rec, s, INT_BITS) == o;
  }

  lemma TopBit()
    ensures BlockPath(Block(Pow2(INT_BITS - 1), 1), INT_BITS) == [true]
  {
    hide Pow2;
    var p := Pow2(INT_BITS - 1);
    HighBits(p, INT_BITS, 1);
    DivModUnique(p, p, 1, 0);
    assert BitsOf(1, 1) == [true];
  }

  /** A range insert that completes updates every address of the range, once, and no other address. */
  lemma RangePointwise(t: Tree, start: nat, end: nat, rec: Tree, s: Strategy, w: nat, n: nat)
    requires Canonical(t, w) && IsUserRecord(rec) && start <= end < Pow2(w) && n < Pow2(w)
    requires RangeOutcome(t, start, end, rec, s, w).status == Success
    ensures var u := RangeOutcome(t, start, end, rec, s, w).tree; var a := BitsOf(n, w);
      && Canonical(u, w) && Skeleton(u) == Skeleton(t)
      && RecordAt(u, a) == if start <= n <= end then Updated(RecordAt(t, a), rec, s) else RecordAt(t, a)
  {
    hide Pow2, BitsOf, Insert, Canonical, Aligned, Tiles;
    EmittedProper(start, end, w);
    var bs := Emitted(start, end, w);
    if w == INT_BITS && start == 0 && end == Pow2(INT_BITS) - 1 {
      WholeBlock(w, n);
      assert bs[0] == Block(0, 0);
      var one := [Block(0, 0)];
      assert one[1..] == [];
      WholeRangeTwice(t, rec, s);
      TiledPointwise(t, one, start, end, rec, s, w, n);
    } else {
      BlocksTile(start, end, w);
      TiledPointwise(t, bs, start, end, rec, s, w, n);
    }
  }

  /** A run over disjoint networks that fails has updated exactly the addresses before the network that fails. */
  lemma {:induction false} TiledStops(t: Tree, bs: seq<Block>, start: nat, end: nat, rec: Tree, s: Strategy, w: nat)
      returns (i: nat, u: Tree)
    requires Canonical(t, w) && IsUserRecord(rec) && Proper(bs, w) && Tiles(bs, start, end, w)
    requires InsertBlocks(t, bs, rec, s, w).status != Success
    ensures i < |bs| && bs[i].prefixLength <= w && start <= bs[i].start
    ensures InsertBlocks(t, bs, rec, s, w) == Insert(u, BlockPath(bs[i], w), false, rec, s)
    ensures Canonical(u, w)
    ensures forall n: nat | n < Pow2(w) ::
      RecordAt(u, BitsOf(n, w))
      == if start <= n < bs[i].start then Updated(RecordAt(t, BitsOf(n, w)), rec, s) else RecordAt(t, BitsOf(n, w))
    decreases |bs|
  {
    hide Insert, BitsOf, Canonical, Updated, Aligned, Pow2, RecordAt, BlockPath;
    var b := bs[0];
    assert Aligned(b, w);
    BlockPrefix(b, w);
    var op := Op(BlockPath(b, w), rec, s);
    if Apply(t, op).status != Success {
      i, u := 0, t;
    } else {
      var next := start + Size(b, w);
      ApplyKeepsCanonical(t, op, w);
      var i';
      i', u := TiledStops(Apply(t, op).tree, bs[1..], next, end, rec, s, w);
      i := i' + 1;
      assert bs[i] == bs[1..][i'];
      forall n: nat | n < Pow2(w)
        ensures RecordAt(u, BitsOf(n, w))
          == if start <= n < bs[i].start then Updated(RecordAt(t, BitsOf(n, w)), rec, s) else RecordAt(t, BitsOf(n, w))
      {
        ApplyPointwise(t, op, w, BitsOf(n, w));
        InBlockIsPrefix(b, w, n);
      }
    }
  }

  /** A range insert that fails has updated, once, every address of the range before the network that fails, and then
      does what inserting that network does. The whole of IPv6 is two networks, of which the second one is in the
      first. */
  lemma RangeStops(t: Tree, start: nat, end: nat, rec: Tree, s: Strategy, w: nat) returns (b: Block, u: Tree)
    requires Canonical(t, w) && IsUserRecord(rec) && start <= end < Pow2(w) && !IsWhole(start, end, w)
    requires RangeOutcome(t, start, end, rec, s, w).status != Success
    ensures b.prefixLength <= w && start <= b.start <= end && IsLargest(b.start, end, w, w - b.prefixLength)
    ensures RangeOutcome(t, start, end, rec, s, w) == Insert(u, BlockPath(b, w), false, rec, s)
    ensures Canonical(u, w)
    ensures forall n: nat | n < Pow2(w) ::
      RecordAt(u, BitsOf(n, w))
      == if start <= n < b.start then Updated(RecordAt(t, BitsOf(n, w)), rec, s) else RecordAt(t, BitsOf(n, w))
  {
    hide Pow2, BitsOf, Insert, Canonical, Aligned, Tiles, Updated, IsLargest, Blocks, RecordAt, Proper, InsertBlocks;
    EmittedProper(start, end, w);
    EmittedIs(start, end, w);
    RangeOutcomeIs(t, start, end, rec, s, w);
    BlocksTile(start, end, w);
    var i;
    i, u := TiledStops(t, Blocks(start, end, w), start, end, rec, s, w);
    b := Blocks(start, end, w)[i];
  }

  // ---------- The loop ----------

  /** (start | mask) + 1, in 128 bits. */
  function NextStart(start: nat, mask: nat): nat { (Or(start, mask) + 1) % Pow2(INT_BITS) }

  lemma NextStartIs(start: nat, end: nat, w: nat, k: nat)
    requires (w == 32 || w == INT_BITS) && start <= end < Pow2(w) && IsLargest(start, end, w, k)
    ensures NextStart(start, ReverseMask(k))
         == if k == INT_BITS then Pow2(INT_BITS - 1) else if start + Pow2(k) == Pow2(INT_BITS) then 0
           else start + Pow2(k)
    ensures start + Pow2(k) <= end + 1 <= Pow2(w) <= Pow2(INT_BITS)
    ensures k == INT_BITS ==> start == 0 && end == Pow2(w) - 1
  {
    hide Pow2, Or;
    Pow2Monotone(w, INT_BITS);
    Pow2Step(INT_BITS - 1);
    if k == INT_BITS {
      SetsLow(0, INT_BITS - 1);
      DivModUnique(0, Pow2(INT_BITS - 1), 0, 0);
      DivModUnique(Pow2(INT_BITS - 1), Pow2(INT_BITS), 0, Pow2(INT_BITS - 1));
    } else {
      SetsLow(start, k);
      if start + Pow2(k) < Pow2(INT_BITS) {
        DivModUnique(start + Pow2(k), Pow2(INT_BITS), 0, start + Pow2(k));
      } else {
        DivModUnique(start + Pow2(k), Pow2(INT_BITS), 1, 0);
      }
    }
  }

  lemma BlocksStep(start: nat, end: nat, w: nat, k: nat)
    requires start <= end && IsLargest(start, end, w, k)
    ensures Blocks(start, end, w) == [Block(start, w - k)] + Blocks(start + Pow2(k), end, w)
  {
    hide Pow2, IsLargest;
    LargestUnique(start, end, w, k, w - FirstBlock(start, end, w).prefixLength);
  }

  predicate IsWhole(start: nat, end: nat, w: nat) { w == INT_BITS && start == 0 && end == Pow2(INT_BITS) - 1 }

  lemma EmittedIs(start: nat, end: nat, w: nat)
    ensures IsWhole(start, end, w) ==> Emitted(start, end, w) == [Block(0, 0)] + [Block(Pow2(INT_BITS - 1), 1)]
    ensures !IsWhole(start, end, w) ==> Emitted(start, end, w) == Blocks(start, end, w)
    ensures start > end ==> Blocks(start, end, w) == []
  {
  }

  /** Only the whole of IPv6 is one network of 128 free bits. */
  lemma LargestOfWhole(start: nat, end: nat, w: nat, k: nat)
    requires (w == 32 || w == INT_BITS) && start <= end < Pow2(w) && IsLargest(start, end, w, k)
    ensures IsWhole(start, end, w) <==> k == INT_BITS
  {
    hide Pow2, FitsRange;
    NextStartIs(start, end, w, k);
    if IsWhole(start, end, w) && k < INT_BITS {
      DivModUnique(0, Pow2(k + 1), 0, 0);
      Pow2Monotone(k + 1, INT_BITS);
      FitsMeans(start, end, k + 1);
      assert false;
    }
  }

  /** One turn of the loop takes one network off the front. */
  lemma EmittedStep(start: nat, end: nat, w: nat, k: nat)
    requires (w == 32 || w == INT_BITS) && start <= end < Pow2(w) && IsLargest(start, end, w, k)
    ensures var next := NextStart(start, ReverseMask(k));
      && (next != 0 ==> start < next)
      && Emitted(start, end, w) == [Block(start, w - k)] + (if next == 0 then [] else Emitted(next, end, w))
  {
    hide Pow2, FitsRange, Blocks, Emitted, NextStart, IsLargest, ReverseMask;
    NextStartIs(start, end, w, k);
    LargestOfWhole(start, end, w, k);
    EmittedIs(start, end, w);
    Pow2Step(INT_BITS - 1);
    if k == INT_BITS {
      UpperHalf();
    } else {
      BlocksStep(start, end, w, k);
      EmittedIs(start + Pow2(k), end, w);
    }
  }

  lemma FitsMeans(start: nat, end: nat, k: nat)
    ensures FitsRange(start, end, k) <==> start % Pow2(k) == 0 && start + Pow2(k) - 1 <= end
  {
  }

  lemma UpperHalf()
    ensures Emitted(Pow2(INT_BITS - 1), Pow2(INT_BITS) - 1, INT_BITS) == [Block(Pow2(INT_BITS - 1), 1)]
  {
    hide Pow2;
    var p := Pow2(INT_BITS - 1);
    Pow2Step(INT_BITS - 1);
    DivModUnique(p, p, 1, 0);
    DivModUnique(p, 2 * p, 0, p);
    assert IsLargest(p, 2 * p - 1, INT_BITS, INT_BITS - 1);
    var b := FirstBlock(p, 2 * p - 1, INT_BITS);
    LargestUnique(p, 2 * p - 1, INT_BITS, INT_BITS - 1, INT_BITS - b.prefixLength);
    assert Blocks(2 * p, 2 * p - 1, INT_BITS) == [];
  }

  method IpBytesToInteger(bytes: Bytes) returns (ip: nat)
    ensures ip == BytesToInt(bytes)
  {
    ip := 0;
    for i := 0 to |bytes|
      invariant ip == BytesToInt(bytes[..i])
    {
      ip := 256 * ip + bytes[i];
      assert bytes[..i + 1][..i] == bytes[..i];
    }
    assert bytes[..|bytes|] == bytes;
  }

  method IntegerToIpBytes(ip: nat, length: nat) returns (bytes: Bytes)
    ensures bytes == IntToBytes(ip, length)
  {
    bytes := [];
    var left := ip;
    for i := 0 to length
      invariant IntToBytes(ip, length) == IntToBytes(left, length - i) + bytes
    {
      bytes := [left % 256] + bytes;
      left := left / 256;
    }
  }

  /** The path that a network's bytes and prefix length stand for. */
  lemma NetworkPath(start: nat, length: nat, prefixLength: nat)
    requires prefixLength <= 8 * length
    ensures Remaining(Network(IntToBytes(start, length), prefixLength), 0)
      == BlockPath(Block(start, prefixLength), 8 * length)
  {
    BytesBits(start, length);
  }

  lemma InsertBlocksStep(t: Tree, bs: seq<Block>, b: Block, rec: Tree, s: Strategy, w: nat)
    requires b.prefixLength <= w && forall b' | b' in bs :: b'.prefixLength <= w
    ensures var o := Insert(t, BlockPath(b, w), false, rec, s);
      InsertBlocks(t, [b] + bs, rec, s, w) == if o.status != Success then o else InsertBlocks(o.tree, bs, rec, s, w)
    ensures InsertBlocks(t, [], rec, s, w) == Outcome(Success, t)
  {
    assert ([b] + bs)[1..] == bs;
  }

  /** One turn of the loop. */
  lemma RangeStep(t: Tree, start: nat, end: nat, rec: Tree, s: Strategy, w: nat, k: nat)
    requires (w == 32 || w == INT_BITS) && start <= end < Pow2(w) && k <= w && IsLargest(start, end, w, k)
    ensures var o := Insert(t, BlockPath(Block(start, w - k), w), false, rec, s);
      var next := NextStart(start, ReverseMask(k));
      && (next != 0 ==> start < next)
      && RangeOutcome(t, start, end, rec, s, w)
         == if o.status != Success || next == 0 then o else RangeOutcome(o.tree, next, end, rec, s, w)
  {
    hide Pow2, Emitted, Insert, NextStart, BlockPath, InsertBlocks, IsLargest, Aligned, Proper, RangeOutcome,
      ReverseMask;
    var b := Block(start, w - k);
    var o := Insert(t, BlockPath(b, w), false, rec, s);
    var next := NextStart(start, ReverseMask(k));
    EmittedStep(start, end, w, k);
    RangeOutcomeIs(t, start, end, rec, s, w);
    var rest := if next == 0 then [] else Emitted(next, end, w);
    if next > end {
      BeyondEnd(next, end, w);
      RangeDone(o.tree, next, end, rec, s, w);
    } else if next != 0 {
      RangeOutcomeIs(o.tree, next, end, rec, s, w);
    }
    InsertBlocksStep(t, rest, b, rec, s, w);
    InsertBlocksStep(o.tree, [], b, rec, s, w);
  }

  lemma RangeOutcomeIs(t: Tree, start: nat, end: nat, rec: Tree, s: Strategy, w: nat)
    requires start <= end < Pow2(w)
    ensures forall b | b in Emitted(start, end, w) :: b.prefixLength <= w
    ensures RangeOutcome(t, start, end, rec, s, w) == InsertBlocks(t, Emitted(start, end, w), rec, s, w)
  {
    EmittedProper(start, end, w);
    ProperPrefixes(Emitted(start, end, w), w);
  }

  lemma ProperPrefixes(bs: seq<Block>, w: nat)
    requires Proper(bs, w)
    ensures forall b | b in bs :: b.prefixLength <= w
  {
    forall b | b in bs ensures b.prefixLength <= w {
      assert Aligned(b, w);
    }
  }

  lemma BeyondEnd(start: nat, end: nat, w: nat)
    requires start > end
    ensures Emitted(start, end, w) == []
  {
  }

  lemma RangeDone(t: Tree, start: nat, end: nat, rec: Tree, s: Strategy, w: nat)
    requires end < start && end < Pow2(w)
    ensures RangeOutcome(t, start, end, rec, s, w) == Outcome(Success, t)
  {
  }
}
