/** Splitting an address range into networks (c/tree.c:287-426). */
module Ranges {
  import opened Wrappers
  import opened Address

  // ---------- 128 bit arithmetic ----------

  const INT_BITS := 128

  function And(x: nat, y: nat): nat {
    if x == 0 then 0 else 2 * And(x / 2, y / 2) + (if x % 2 == 1 && y % 2 == 1 then 1 else 0)
  }

  function Or(x: nat, y: nat): nat
    decreases x + y
  {
    if x == 0 && y == 0 then 0 else 2 * Or(x / 2, y / 2) + (if x % 2 == 1 || y % 2 == 1 then 1 else 0)
  }

  function Complement(x: nat): nat
    requires x < Pow2(INT_BITS)
  {
    Pow2(INT_BITS) - 1 - x
  }

  /** (mask << 1) | 1: the top bit is lost. */
  function ShiftInOne(mask: nat): nat { Or(2 * mask % Pow2(INT_BITS), 1) }

  lemma {:induction false} Pow2Monotone(m: nat, n: nat)
    requires m <= n
    ensures Pow2(m) <= Pow2(n)
    ensures m < n ==> 2 * Pow2(m) <= Pow2(n)
  {
    if m < n {
      Pow2Monotone(m, n - 1);
    }
  }

  lemma {:induction false} ModHalves(x: nat, k: nat)
    ensures x % Pow2(k + 1) == 2 * (x / 2 % Pow2(k)) + x % 2
  {
    var p := Pow2(k);
    var q, r := x / 2 / p, x / 2 % p;
    assert x == 2 * (q * p + r) + x % 2;
    assert x == q * (2 * p) + (2 * r + x % 2) by {
      assert 2 * (q * p) == q * (2 * p);
    }
    DivModUnique(x, 2 * p, q, 2 * r + x % 2);
  }

  lemma MulMonotone(a: int, b: int, d: nat)
    ensures a <= b ==> a * d <= b * d
  {
  }

  lemma DivModUnique(x: nat, d: nat, q: nat, r: nat)
    requires d > 0 && r < d && x == q * d + r
    ensures x / d == q && x % d == r
  {
    var q', r' := x / d, x % d;
    assert x == q' * d + r';
    MulMonotone(q' + 1, q, d);
    MulMonotone(q + 1, q', d);
    assert (q' + 1) * d == q' * d + d && (q + 1) * d == q * d + d;
  }

  lemma Pow2Step(k: nat)
    ensures Pow2(k + 1) == 2 * Pow2(k) && Pow2(0) == 1
  {
  }

  lemma AndStep(x: nat, y: nat)
    ensures x != 0 ==> And(x, y) == 2 * And(x / 2, y / 2) + (if x % 2 == 1 && y % 2 == 1 then 1 else 0)
    ensures And(0, y) == 0
  {
  }

  /** x & ~(2^k - 1) clears the low k bits. */
  lemma {:induction false} ClearsLow(x: nat, n: nat, k: nat)
    requires k <= n && x < Pow2(n)
    ensures Pow2(k) <= Pow2(n) && And(x, Pow2(n) - Pow2(k)) == x - x % Pow2(k)
    decreases n
  {
    hide And, Pow2;
    Pow2Monotone(k, n);
    AndStep(x, Pow2(n) - Pow2(k));
    if x == 0 {
      DivModUnique(0, Pow2(k), 0, 0);
    } else {
      Pow2Step(0);
      Pow2Step(n - 1);
      if k > 0 {
        Pow2Step(k - 1);
        Halves(Pow2(n - 1) - Pow2(k - 1));
        ClearsLow(x / 2, n - 1, k - 1);
        ModHalves(x, k - 1);
      } else {
        Halves(Pow2(n - 1) - 1);
        ClearsLow(x / 2, n - 1, 0);
        ModOne(x);
        ModOne(x / 2);
      }
    }
  }

  lemma Halves(y: nat)
    ensures 2 * y / 2 == y && 2 * y % 2 == 0 && (2 * y + 1) / 2 == y && (2 * y + 1) % 2 == 1
  {
  }

  lemma ModOne(x: nat)
    ensures x % 1 == 0
  {
  }

  /** x | (2^k - 1) sets the low k bits. */
  lemma {:induction false} SetsLow(x: nat, k: nat)
    ensures Or(x, Pow2(k) - 1) == x - x % Pow2(k) + (Pow2(k) - 1)
    decreases k, x
  {
    hide Or, Pow2;
    Pow2Step(0);
    OrStep(x, Pow2(k) - 1);
    if k > 0 {
      Pow2Step(k - 1);
      Halves(Pow2(k - 1) - 1);
      SetsLow(x / 2, k - 1);
      ModHalves(x, k - 1);
    } else {
      ModOne(x);
      if x != 0 {
        SetsLow(x / 2, 0);
        ModOne(x / 2);
      }
    }
  }

  lemma OrStep(x: nat, y: nat)
    ensures Or(x, y) == 2 * Or(x / 2, y / 2) + (if x % 2 == 1 || y % 2 == 1 then 1 else 0)
    ensures Or(0, 0) == 0
  {
  }

  // ---------- The largest network at the start of a range ----------

  /** Does the network of 2^k addresses at `start` begin there and end in the range? */
  predicate FitsRange(start: nat, end: nat, k: nat) {
    start % Pow2(k) == 0 && start + Pow2(k) - 1 <= end
  }

  /** The largest k that fits. */
  ghost predicate IsLargest(start: nat, end: nat, w: nat, k: nat) {
    k <= w && FitsRange(start, end, k) && (k < w ==> !FitsRange(start, end, k + 1))
  }

  lemma SmallerFits(start: nat, end: nat, k: nat)
    requires FitsRange(start, end, k + 1)
    ensures FitsRange(start, end, k)
  {
    ModHalves(start, k);
    var p := Pow2(k);
    var q := start / (2 * p);
    assert start == q * (2 * p) == (2 * q) * p;
    DivModUnique(start, p, 2 * q, 0);
  }

  lemma {:induction false} AllSmallerFit(start: nat, end: nat, j: nat, k: nat)
    requires j <= k && FitsRange(start, end, k)
    ensures FitsRange(start, end, j)
    decreases k - j
  {
    if j < k {
      SmallerFits(start, end, k - 1);
      AllSmallerFit(start, end, j, k - 1);
    }
  }

  lemma LargestUnique(start: nat, end: nat, w: nat, j: nat, k: nat)
    requires IsLargest(start, end, w, j) && IsLargest(start, end, w, k)
    ensures j == k
  {
    if j < k {
      AllSmallerFit(start, end, j + 1, k);
    } else if k < j {
      AllSmallerFit(start, end, k + 1, j);
    }
  }

  lemma LargestMeans(start: nat, end: nat, w: nat, k: nat)
    requires IsLargest(start, end, w, k)
    ensures start % Pow2(k) == 0 && start + Pow2(k) - 1 <= end
    ensures forall j | k < j <= w :: !(start % Pow2(j) == 0 && start + Pow2(j) - 1 <= end)
  {
    forall j | k < j <= w ensures !(start % Pow2(j) == 0 && start + Pow2(j) - 1 <= end) {
      if start % Pow2(j) == 0 && start + Pow2(j) - 1 <= end { AllSmallerFit(start, end, k + 1, j); }
    }
  }

  lemma AnyFits(start: nat, end: nat)
    requires start <= end
    ensures FitsRange(start, end, 0)
  {
    assert Pow2(0) == 1;
  }

  lemma FitsEnds(start: nat, end: nat, k: nat)
    requires FitsRange(start, end, k)
    ensures start + Pow2(k) - 1 <= end
  {
  }

  function Largest(start: nat, end: nat, w: nat, k: nat): (r: nat)
    requires k <= w && FitsRange(start, end, k)
    ensures IsLargest(start, end, w, r)
    decreases w - k
  {
    if k < w && FitsRange(start, end, k + 1) then Largest(start, end, w, k + 1) else k
  }

  /** The mask that is returned: all ones below the network, but one bit short when the network is the whole of IPv6. */
  function ReverseMask(k: nat): nat
    requires k <= INT_BITS
  {
    if k == INT_BITS then Pow2(INT_BITS - 1) - 1 else Pow2(k) - 1
  }

  /** The condition of the loop, in numbers: with a mask of k + 1 ones it says that 2^(k+1) addresses fit. */
  lemma ConditionMeans(start: nat, end: nat, k: nat)
    requires k < INT_BITS && start <= end < Pow2(INT_BITS)
    ensures var mask := Pow2(k + 1) - 1;
      && mask < Pow2(INT_BITS)
      && ((And(start, Complement(mask)) == start && Or(start, mask) <= end) <==> FitsRange(start, end, k + 1))
  {
    hide And, Or, Pow2;
    Pow2Monotone(k + 1, INT_BITS);
    ClearsLow(start, INT_BITS, k + 1);
    SetsLow(start, k + 1);
  }

  lemma ShiftMeans(k: nat)
    requires k < INT_BITS
    ensures ShiftInOne(Pow2(k + 1) - 1) == if k + 1 == INT_BITS then Pow2(INT_BITS) - 1 else Pow2(k + 2) - 1
  {
    hide Pow2, Or;
    Pow2Step(0);
    Pow2Step(k + 1);
    Pow2Step(INT_BITS - 1);
    ShiftedMask(k);
    SetsLow(2 * (Pow2(k + 1) - 1) % Pow2(INT_BITS), 1);
  }

  lemma ShiftedMask(k: nat)
    requires k < INT_BITS
    ensures 2 * (Pow2(k + 1) - 1) % Pow2(INT_BITS) == if k + 1 == INT_BITS then Pow2(INT_BITS) - 2 else Pow2(k + 2) - 2
  {
    hide Pow2;
    var p := Pow2(k + 1);
    Pow2Step(k + 1);
    if k + 1 < INT_BITS {
      Pow2Monotone(k + 2, INT_BITS);
      DivModUnique(2 * (p - 1), Pow2(INT_BITS), 0, 2 * (p - 1));
    } else {
      Pow2Step(0);
      Pow2Monotone(1, INT_BITS);
      DivModUnique(2 * (p - 1), p, 1, p - 2);
    }
  }

  /** prefix_length_for_largest_subnet: None where it croaks. */
  method PrefixLengthForLargestSubnet(start: nat, end: nat, w: nat) returns (r: Option<(nat, nat)>)
    requires (w == 32 || w == 128) && start < Pow2(w) && end < Pow2(w)
    ensures r.None? <==> start > end
    ensures r.Some? ==>
      && r.value.0 <= w && IsLargest(start, end, w, w - r.value.0)
      && r.value.1 == ReverseMask(w - r.value.0)
    ensures r.Some? ==>
      var (prefixLength, reverseMask) := r.value;
      var size := Pow2(w - prefixLength);
      && start % size == 0 && start + size - 1 <= end
      && (forall k | w - prefixLength < k <= w :: !(start % Pow2(k) == 0 && start + Pow2(k) - 1 <= end))
      && reverseMask == if prefixLength == 0 && w == 128 then Pow2(127) - 1 else size - 1
  {
    hide Pow2, And, Or, ShiftInOne, FitsRange;
    if start > end {
      return None;
    }
    AnyFits(start, end);
    Pow2Step(0);
    Pow2Monotone(1, INT_BITS);
    var prefixLength := w;
    var mask := 1;
    ghost var k := 0;
    Pow2Monotone(w, INT_BITS);
    while prefixLength > 0 && And(start, Complement(mask)) == start && Or(start, mask) <= end
      invariant prefixLength == w - k && 0 <= k <= w
      invariant mask == if k == INT_BITS then Pow2(INT_BITS) - 1 else Pow2(k + 1) - 1
      invariant mask < Pow2(INT_BITS)
      invariant FitsRange(start, end, k)
    {
      ConditionMeans(start, end, k);
      ShiftMeans(k);
      if k + 2 <= INT_BITS { Pow2Monotone(k + 2, INT_BITS); }
      prefixLength := prefixLength - 1;
      mask := ShiftInOne(mask);
      k := k + 1;
    }
    if k < w {
      ConditionMeans(start, end, k);
    }
    Pow2Step(k);
    Pow2Step(INT_BITS - 1);
    mask := mask / 2;
    r := Some((prefixLength, mask));
    LargestMeans(start, end, w, w - prefixLength);
  }

  // ---------- The networks that a range is split into ----------

  /** The network of the 2^(w - prefixLength) addresses from `start` on. */
  datatype Block = Block(start: nat, prefixLength: nat)

  function Size(b: Block, w: nat): nat
    requires b.prefixLength <= w
  {
    Pow2(w - b.prefixLength)
  }

  function FirstBlock(start: nat, end: nat, w: nat): (b: Block)
    requires start <= end
    ensures b.start == start && b.prefixLength <= w && IsLargest(start, end, w, w - b.prefixLength)
  {
    assert Pow2(0) == 1;
    Block(start, w - Largest(start, end, w, 0))
  }

  /** The greedy split. */
  function Blocks(start: nat, end: nat, w: nat): seq<Block>
    decreases end + 1 - start
  {
    if start > end then []
    else [FirstBlock(start, end, w)] + Blocks(start + Size(FirstBlock(start, end, w), w), end, w)
  }

  /** What the loop inserts: the whole of IPv6 is followed by its upper half once more. */
  function Emitted(start: nat, end: nat, w: nat): seq<Block> {
    if w == INT_BITS && start == 0 && end == Pow2(INT_BITS) - 1 then [Block(0, 0), Block(Pow2(INT_BITS - 1), 1)]
    else Blocks(start, end, w)
  }

  /** Each network starts where the one before it ended, the first at `start`, and the last one ends at `end`. */
  ghost predicate Tiles(bs: seq<Block>, start: nat, end: nat, w: nat)
    decreases |bs|
  {
    if bs == [] then start == end + 1
    else bs[0].start == start && bs[0].prefixLength <= w && Tiles(bs[1..], start + Size(bs[0], w), end, w)
  }

  /** The split covers the range exactly, in order and without overlap, each network aligned and as large as
      possible. */
  lemma {:induction false} BlocksTile(start: nat, end: nat, w: nat)
    requires start <= end + 1
    ensures Tiles(Blocks(start, end, w), start, end, w)
    ensures forall b | b in Blocks(start, end, w) ::
      b.prefixLength <= w && start <= b.start <= end && IsLargest(b.start, end, w, w - b.prefixLength)
    decreases end + 1 - start
  {
    hide Pow2, FitsRange;
    if start <= end {
      var b := FirstBlock(start, end, w);
      assert start + Size(b, w) - 1 <= end by { FitsEnds(start, end, w - b.prefixLength); }
      BlocksTile(start + Size(b, w), end, w);
    }
  }

  predicate InBlock(n: nat, b: Block, w: nat)
    requires b.prefixLength <= w
  {
    b.start <= n < b.start + Size(b, w)
  }

  /** Tiling means: every address of the range lies in exactly one network, every other address in none. */
  lemma {:induction false} TilesCover(bs: seq<Block>, start: nat, end: nat, w: nat, n: nat)
    requires Tiles(bs, start, end, w)
    ensures forall b | b in bs :: b.prefixLength <= w
    ensures start <= n <= end ==>
      exists i :: 0 <= i < |bs| && InBlock(n, bs[i], w) && forall j | 0 <= j < |bs| && j != i :: !InBlock(n, bs[j], w)
    ensures !(start <= n <= end) ==> forall j | 0 <= j < |bs| :: !InBlock(n, bs[j], w)
    decreases |bs|
  {
    if bs != [] {
      var next := start + Size(bs[0], w);
      TilesCover(bs[1..], next, end, w, n);
      TilesStart(bs[1..], next, end, w);
      forall j | 1 <= j < |bs| ensures bs[j] == bs[1..][j - 1] {
      }
      if start <= n <= end {
        if n < next {
          assert InBlock(n, bs[0], w);
          forall j | 0 <= j < |bs| && j != 0 ensures !InBlock(n, bs[j], w) {
            assert !InBlock(n, bs[1..][j - 1], w);
          }
        } else {
          var i :| 0 <= i < |bs[1..]| && InBlock(n, bs[1..][i], w) && forall j | 0 <= j < |bs[1..]| && j != i ::
            !InBlock(n, bs[1..][j], w);
          assert InBlock(n, bs[i + 1], w);
          forall j | 0 <= j < |bs| && j != i + 1 ensures !InBlock(n, bs[j], w) {
            if j > 0 { assert !InBlock(n, bs[1..][j - 1], w); }
          }
        }
      } else {
        forall j | 0 <= j < |bs| ensures !InBlock(n, bs[j], w) {
          if j > 0 { assert !InBlock(n, bs[1..][j - 1], w); }
        }
      }
    }
  }

  lemma {:induction false} TilesStart(bs: seq<Block>, start: nat, end: nat, w: nat)
    requires Tiles(bs, start, end, w)
    ensures start <= end + 1
    decreases |bs|
  {
    if bs != [] {
      TilesStart(bs[1..], start + Size(bs[0], w), end, w);
    }
  }

  // ---------- How many networks there are ----------

  lemma AlignedBelow(start: nat, j: nat, k: nat)
    requires j <= k && start % Pow2(k) == 0
    ensures start % Pow2(j) == 0
  {
    AllSmallerFit(start, start + Pow2(k), j, k);
  }

  lemma AlignedAfter(start: nat, k: nat)
    requires start % Pow2(k) == 0
    ensures (start + Pow2(k)) % Pow2(k) == 0
    ensures start % Pow2(k + 1) != 0 ==> (start + Pow2(k)) % Pow2(k + 1) == 0
  {
    hide Pow2;
    Pow2Step(k);
    var p := Pow2(k);
    var q := start / p;
    assert start == q * p;
    assert start + p == (q + 1) * p;
    DivModUnique(start + p, p, q + 1, 0);
    if q % 2 == 0 {
      EvenMultiple(q, p);
    } else {
      EvenMultiple(q + 1, p);
    }
  }

  lemma EvenMultiple(q: nat, p: nat)
    requires q % 2 == 0 && p > 0
    ensures q * p % (2 * p) == 0
  {
    assert q == 2 * (q / 2);
    assert q * p == (q / 2) * (2 * p);
    DivModUnique(q * p, 2 * p, q / 2, 0);
  }

  /** Fewer than 2^k addresses from a multiple of 2^k on split into at most k networks. */
  lemma {:induction false} FallingCount(start: nat, end: nat, w: nat, k: nat)
    requires start % Pow2(k) == 0 && end + 1 - start < Pow2(k) && k <= w
    ensures |Blocks(start, end, w)| <= k
    decreases k
  {
    if start <= end {
      var j := w - FirstBlock(start, end, w).prefixLength;
      if j >= k {
        Pow2Monotone(k, j);
      } else {
        AlignedBelow(start, j + 1, k);
        AlignedAfter(start, j);
        FallingCount(start + Pow2(j), end, w, j);
      }
    }
  }

  lemma NonzeroMultiple(start: nat, w: nat, k: nat)
    requires 0 < start < Pow2(w) && start % Pow2(k) == 0
    ensures k < w
  {
    if k >= w {
      Pow2Monotone(w, k);
      DivModUnique(start, Pow2(k), 0, start);
    }
  }

  lemma {:induction false} RisingCount(start: nat, end: nat, w: nat, k: nat)
    requires w >= 2 && 0 < start <= end < Pow2(w) && start % Pow2(k) == 0
    ensures k < w && |Blocks(start, end, w)| <= (w - 1 - k) + (w - 1)
    decreases end - start
  {
    NonzeroMultiple(start, w, k);
    var j := w - FirstBlock(start, end, w).prefixLength;
    var next := start + Pow2(j);
    NonzeroMultiple(start, w, j);
    if start % Pow2(j + 1) == 0 {
      NonzeroMultiple(start, w, j + 1);
      AlignedAfter(start, j);
      FallingCount(next, end, w, j);
    } else {
      if j < k { AlignedBelow(start, j + 1, k); }
      AlignedAfter(start, j);
      if next <= end {
        RisingCount(next, end, w, j + 1);
      }
    }
  }

  /** A range never needs more than 2w - 2 networks. */
  lemma BlockCount(start: nat, end: nat, w: nat)
    requires w >= 2 && start <= end < Pow2(w)
    ensures |Emitted(start, end, w)| <= 2 * w - 2
  {
    hide Pow2;
    Pow2Step(0);
    DivModUnique(start, Pow2(0), start, 0);
    if start > 0 {
      RisingCount(start, end, w, 0);
    } else {
      DivModUnique(0, Pow2(w), 0, 0);
      WholeCount(end, w);
    }
  }

  lemma WholeCount(end: nat, w: nat)
    requires w >= 2 && end < Pow2(w)
    ensures |Blocks(0, end, w)| <= w
  {
    hide Pow2;
    var j := w - FirstBlock(0, end, w).prefixLength;
    AlignedAfter(0, j);
    Pow2Step(j);
    DivModUnique(0, Pow2(j + 1), 0, 0);
    if j < w {
      FallingCount(Pow2(j), end, w, j);
    } else {
      assert Blocks(Pow2(j), end, w) == [];
    }
  }
}
