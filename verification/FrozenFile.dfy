/** The frozen file: a stream of networks, an end mark, and the data (c/tree.c:1404-1447, 1637-1697). */
module FrozenFile {
  import opened Wrappers
  import opened Data
  import opened Trie
  import opened Address
  import opened Ranges
  import opened RangeUpdates
  import opened CanonicalTree
  import opened FrozenTree

  type Symbols = seq<Symbol>

  const NETWORK_BYTES := 16
  const FROZEN_LENGTH := 44

  /** "not an SHA1 key" */
  const FREEZE_SEPARATOR: Symbols := [110, 111, 116, 32, 97, 110, 32, 83, 72, 65, 49, 32, 107, 101, 121]

  /** An integer in memory, least significant byte first. */
  function LittleEndian(n: nat, length: nat): (s: Symbols)
    ensures |s| == length
  {
    if length == 0 then [] else [n % 256] + LittleEndian(n / 256, length - 1)
  }

  predicate AreBytes(s: Symbols) { forall i | 0 <= i < |s| :: 0 <= s[i] < 256 }

  function ReadLittleEndian(s: Symbols): nat
    requires AreBytes(s)
  {
    if s == [] then 0 else s[0] + 256 * ReadLittleEndian(s[1..])
  }

  lemma {:induction false} LittleEndianReads(n: nat, length: nat)
    requires n < Pow2(8 * length)
    ensures AreBytes(LittleEndian(n, length)) && ReadLittleEndian(LittleEndian(n, length)) == n
  {
    if length > 0 {
      EightTimes(8 * (length - 1));
      LittleEndianReads(n / 256, length - 1);
      assert LittleEndian(n, length)[1..] == LittleEndian(n / 256, length - 1);
    }
  }

  /** freeze_data_record. */
  function FrozenBytes(f: FrozenNetwork): Symbols {
    LittleEndian(f.network, NETWORK_BYTES) + [f.depth % 256] + f.key
  }

  function StreamBytes(fs: seq<FrozenNetwork>): Symbols {
    if fs == [] then [] else FrozenBytes(fs[0]) + StreamBytes(fs[1..])
  }

  /** Seventeen zero bytes, and something that is not a key. */
  function EndMark(): Symbols { seq(17, _ => 0) + FREEZE_SEPARATOR }

  datatype Thawed =
    | Next(frozen: FrozenNetwork, rest: Symbols)
    | End(rest: Symbols)
    | Bad

  /** thaw_network. A file that ends too early is bad; the source does not notice. */
  function ThawNetwork(s: Symbols): (r: Thawed)
    ensures r.Next? || r.End? ==> |r.rest| < |s|
  {
    if |s| < 17 || !AreBytes(s[..17]) then Bad
    else
      var network, depth := ReadLittleEndian(s[..16]), s[16];
      if network == 0 && depth == 0 then
        if 32 <= |s| && s[17..32] == FREEZE_SEPARATOR then End(s[32..]) else Bad
      else if |s| < FROZEN_LENGTH then Bad
      else Next(FrozenNetwork(network, depth, s[17..FROZEN_LENGTH]), s[FROZEN_LENGTH..])
  }

  /** The networks up to the end mark or to the first bad one. */
  function Networks(s: Symbols): seq<FrozenNetwork>
    decreases |s|
  {
    match ThawNetwork(s)
    case Next(f, rest) => [f] + Networks(rest)
    case _ => []
  }

  /** What follows the end mark: None where thawing croaks before it. */
  function AfterMark(s: Symbols): Option<Symbols>
    decreases |s|
  {
    match ThawNetwork(s)
    case Next(_, rest) => AfterMark(rest)
    case End(rest) => Some(rest)
    case Bad => None
  }

  /** What freezing writes is never below the root, and fits its bytes. */
  predicate Freezable(f: FrozenNetwork) {
    0 < f.depth < 256 && f.network < Pow2(128) && |f.key| == SHA1_KEY_LENGTH
  }

  lemma NextReads(f: FrozenNetwork, rest: Symbols)
    requires Freezable(f)
    ensures ThawNetwork(FrozenBytes(f) + rest) == Next(f, rest)
  {
    hide Pow2, LittleEndian, ReadLittleEndian;
    var n := LittleEndian(f.network, NETWORK_BYTES);
    var s := FrozenBytes(f) + rest;
    LittleEndianReads(f.network, NETWORK_BYTES);
    assert s[..16] == n && s[16] == f.depth;
    assert s[..17] == n + [f.depth];
    assert s[17..FROZEN_LENGTH] == f.key && s[FROZEN_LENGTH..] == rest;
  }

  lemma MarkReads(rest: Symbols)
    ensures ThawNetwork(EndMark() + rest) == End(rest)
  {
    var s := EndMark() + rest;
    assert s[..17] == seq(17, _ => 0);
    assert s[..16] == LittleEndianZeros(16);
    ZerosRead(16);
    assert s[17..32] == FREEZE_SEPARATOR && s[32..] == rest;
  }

  function LittleEndianZeros(n: nat): (s: Symbols)
    ensures |s| == n && AreBytes(s) && forall i | 0 <= i < n :: s[i] == 0
  {
    if n == 0 then [] else [0] + LittleEndianZeros(n - 1)
  }

  lemma {:induction false} ZerosRead(n: nat)
    ensures ReadLittleEndian(LittleEndianZeros(n)) == 0
  {
    if n > 0 {
      assert LittleEndianZeros(n)[1..] == LittleEndianZeros(n - 1);
      ZerosRead(n - 1);
    }
  }

  /** The stream reads back as it was written: no network is mistaken for the end mark, nor the mark for a network. */
  lemma {:induction false} StreamReads(fs: seq<FrozenNetwork>, rest: Symbols)
    requires forall f | f in fs :: Freezable(f)
    ensures Networks(StreamBytes(fs) + EndMark() + rest) == fs
    ensures AfterMark(StreamBytes(fs) + EndMark() + rest) == Some(rest)
    decreases |fs|
  {
    hide FrozenBytes, ThawNetwork, Freezable, EndMark;
    if fs == [] {
      MarkReads(rest);
      assert [] + EndMark() + rest == EndMark() + rest;
    } else {
      var more := StreamBytes(fs[1..]) + EndMark() + rest;
      assert fs[0] in fs;
      NextReads(fs[0], more);
      StreamReads(fs[1..], rest);
      assert StreamBytes(fs) + EndMark() + rest == FrozenBytes(fs[0]) + more;
    }
  }

  lemma {:induction false} StreamJoin(xs: seq<FrozenNetwork>, ys: seq<FrozenNetwork>)
    ensures StreamBytes(xs + ys) == StreamBytes(xs) + StreamBytes(ys)
  {
    if xs == [] {
      assert xs + ys == ys;
    } else {
      assert (xs + ys)[1..] == xs[1..] + ys;
      StreamJoin(xs[1..], ys);
    }
  }

  // ---------- The operations in a stream ----------

  ghost predicate KeyKnown(keyFor: Value -> Key, key: Key) { exists v :: keyFor(v) == key }

  ghost function ContentOf(keyFor: Value -> Key, key: Key): (v: Value)
    requires KeyKnown(keyFor, key)
    ensures keyFor(v) == key
  {
    var v :| keyFor(v) == key;
    v
  }

  /** A network that the tree can take. */
  ghost predicate Thawable(f: FrozenNetwork, w: nat, keyFor: Value -> Key) {
    f.depth <= w && f.network < Pow2(w) && KeyKnown(keyFor, f.key)
  }

  ghost function ThawedOp(f: FrozenNetwork, w: nat, keyFor: Value -> Key): Op
    requires Thawable(f, w, keyFor)
  {
    Op(BlockPath(Block(f.network, f.depth), w), Data(ContentOf(keyFor, f.key)), NoMerge)
  }

  ghost function ThawedOps(fs: seq<FrozenNetwork>, w: nat, keyFor: Value -> Key): seq<Op>
    requires forall f | f in fs :: Thawable(f, w, keyFor)
  {
    if fs == [] then [] else [ThawedOp(fs[0], w, keyFor)] + ThawedOps(fs[1..], w, keyFor)
  }

  /** Frozen operations thaw to themselves. */
  lemma {:induction false} ThawsBack(ops: seq<Op>, w: nat, keyFor: Value -> Key)
    requires w <= 128 && IsKeyFunction(keyFor) && DataOps(ops, w)
    ensures forall f | f in FrozenOps(ops, w, keyFor) :: Thawable(f, w, keyFor)
    ensures ThawedOps(FrozenOps(ops, w, keyFor), w, keyFor) == ops
    decreases |ops|
  {
    hide BlockPath, NetworkOf, Pow2;
    if ops != [] {
      var op := ops[0];
      NetworkPathOf(op.p, w);
      var f := FrozenOp(op, w, keyFor);
      assert keyFor(op.rec.v) == f.key;
      ThawsBack(ops[1..], w, keyFor);
      assert FrozenOps(ops, w, keyFor) == [f] + FrozenOps(ops[1..], w, keyFor);
      assert ([f] + FrozenOps(ops[1..], w, keyFor))[1..] == FrozenOps(ops[1..], w, keyFor);
      assert ThawedOp(f, w, keyFor) == op;
    }
  }
}
