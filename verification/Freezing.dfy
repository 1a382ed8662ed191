/** Freezing a tree to a file and thawing it again (c/tree.c:1404-1499, 1564-1697). */
module Freezing {
  import opened Wrappers
  import opened Data
  import opened Trie
  import opened TrieLaws
  import opened CanonicalTree
  import opened FreshTree
  import opened NewTrees
  import opened Address
  import opened Ranges
  import opened RangeUpdates
  import opened Shapes
  import opened SearchTree
  import opened DataTable
  import opened FrozenTree
  import opened FrozenFile

  // ---------- Freezing ----------

  /** freeze_node: the data records of one node. */
  method FreezeNode(tree: SearchTree, node: TreeNode, network: nat, depth: nat, file: Symbols, ghost s: Shape)
      returns (written: Symbols)
    requires s.Inner? && node == s.node && Linked(s) && Holds(s, tree.keyFor, tree.target)
    requires depth < tree.Width() == 8 * tree.addressBytes
    ensures written == file
      + StreamBytes(FrozenData(Abs(s.left), network, depth + 1, tree.keyFor)
                    + FrozenData(Abs(s.right), FlipNetworkBit(network, depth, tree.Width()), depth + 1, tree.keyFor))
  {
    hide Linked, Holds, Abs, FrozenBytes, FlipNetworkBit;
    LinkedParts(s, tree.keyFor, tree.target);
    TopRecord(s.left, tree.keyFor, tree.target);
    TopRecord(s.right, tree.keyFor, tree.target);
    written := file;
    ghost var l := FrozenData(Abs(s.left), network, depth + 1, tree.keyFor);
    ghost var r := FrozenData(Abs(s.right), FlipNetworkBit(network, depth, tree.Width()), depth + 1, tree.keyFor);
    StreamJoin(l, r);
    if node.left.value.DataRecord? {
      written := written + FrozenBytes(FrozenNetwork(network, depth + 1, node.left.value.key));
      OneInStream(FrozenNetwork(network, depth + 1, node.left.value.key));
    }
    if node.right.value.DataRecord? {
      var rightNetwork := FlipNetworkBit(network, depth, 8 * tree.addressBytes);
      written := written + FrozenBytes(FrozenNetwork(rightNetwork, depth + 1, node.right.value.key));
      OneInStream(FrozenNetwork(rightNetwork, depth + 1, node.right.value.key));
    }
  }

  lemma OneInStream(f: FrozenNetwork)
    ensures StreamBytes([f]) == FrozenBytes(f) && StreamBytes([]) == []
  {
    assert [f][1..] == [];
  }

  /** iterate_tree with freeze_node. */
  method FreezeNodes(tree: SearchTree, record: Record, network: nat, depth: nat, file: Symbols, ghost s: Shape)
      returns (written: Symbols)
    requires record == s.rec && Linked(s) && Holds(s, tree.keyFor, tree.target)
    requires depth + Height(Abs(s)) <= tree.Width() == 8 * tree.addressBytes
    ensures written == file + StreamBytes(Emit(Abs(s), network, depth, tree.Width(), tree.keyFor))
    decreases s
  {
    hide Linked, Holds, Abs, FlipNetworkBit, Height, StreamBytes, FrozenData, Emit;
    TopRecord(s, tree.keyFor, tree.target);
    assert depth <= tree.Width();
    written := file;
    if record.value.NodeRecord? || record.value.FixedNodeRecord? {
      var node := record.value.node;
      LinkedParts(s, tree.keyFor, tree.target);
      ShapeAllocated(s.left);
      ShapeAllocated(s.right);
      NodeHeight(Abs(s));
      EmitNode(Abs(s), network, depth, tree.Width(), tree.keyFor);
      var right := FlipNetworkBit(network, depth, 8 * tree.addressBytes);
      Joined(file,
             StreamBytes(FrozenData(Abs(s.left), network, depth + 1, tree.keyFor)
               + FrozenData(Abs(s.right), right, depth + 1, tree.keyFor)),
             StreamBytes(Emit(Abs(s.left), network, depth + 1, tree.Width(), tree.keyFor)),
             StreamBytes(Emit(Abs(s.right), right, depth + 1, tree.Width(), tree.keyFor)));
      written := FreezeNode(tree, node, network, depth, written, s);
      written := FreezeNodes(tree, node.left, network, depth + 1, written, s.left);
      written := FreezeNodes(tree, node.right, right, depth + 1, written, s.right);
    } else {
      EmitLeaf(Abs(s), network, depth, tree.Width(), tree.keyFor);
    }
  }

  lemma Joined(file: Symbols, a: Symbols, b: Symbols, c: Symbols)
    ensures file + a + b + c == file + (a + b + c)
  {
  }

  lemma EmitLeaf(t: Tree, network: nat, depth: nat, w: nat, keyFor: Value -> Key)
    requires depth + Height(t) <= w && !IsNode(t)
    ensures StreamBytes(Emit(t, network, depth, w, keyFor)) == []
  {
  }

  lemma EmitNode(t: Tree, network: nat, depth: nat, w: nat, keyFor: Value -> Key)
    requires depth + Height(t) <= w && IsNode(t)
    ensures depth < w && depth + 1 + Height(t.left) <= w && depth + 1 + Height(t.right) <= w
    ensures var right := FlipNetworkBit(network, depth, w);
      StreamBytes(Emit(t, network, depth, w, keyFor))
      == StreamBytes(FrozenData(t.left, network, depth + 1, keyFor) + FrozenData(t.right, right, depth + 1, keyFor))
         + StreamBytes(Emit(t.left, network, depth + 1, w, keyFor))
           + StreamBytes(Emit(t.right, right, depth + 1, w, keyFor))
  {
    hide FlipNetworkBit, StreamBytes, FrozenData;
    var right := FlipNetworkBit(network, depth, w);
    var here := FrozenData(t.left, network, depth + 1, keyFor) + FrozenData(t.right, right, depth + 1, keyFor);
    StreamJoin(here, Emit(t.left, network, depth + 1, w, keyFor));
    StreamJoin(here + Emit(t.left, network, depth + 1, w, keyFor), Emit(t.right, right, depth + 1, w, keyFor));
  }

  /** The data of a tree, by key. */
  function DataHash(table: map<Key, Entry>): map<Key, Value> {
    map k | k in table && table[k].data.Some? :: table[k].data.value
  }

  /** freeze_data_to_file: collecting the data table. */
  method CollectData(tree: SearchTree) returns (hash: map<Key, Value>)
    requires Complete(tree.table)
    ensures hash == DataHash(tree.table) && hash.Keys == tree.table.Keys
  {
    hash := map[];
    var todo := tree.table.Keys;
    while todo != {}
      invariant todo <= tree.table.Keys
      invariant hash == map k | k in tree.table && k !in todo :: tree.table[k].data.value
    {
      var key :| key in todo;
      todo := todo - {key};
      hash := hash[key := tree.table[key].data.value];
    }
  }

  /** The length and the encoded data. */
  function FrozenHash(encoded: Symbols): Symbols { LittleEndian(|encoded|, 8) + encoded }

  /** What a frozen file consists of. */
  function FileBytes(params: Symbols, stream: Symbols, encoded: Symbols): Symbols {
    LittleEndian(|params|, 4) + params + stream + EndMark() + FrozenHash(encoded)
  }

  /** freeze_tree: None where it croaks, which is when the root is not a node. */
  method FreezeTree(tree: SearchTree, params: Symbols, encodeHash: map<Key, Value> -> Symbols)
      returns (file: Option<Symbols>)
    requires tree.Valid() && Complete(tree.table)
    ensures file.Some? <==> IsNode(tree.Contents())
    ensures file.Some? ==>
      && Height(tree.Contents()) <= tree.Width()
      && file.value
        == FileBytes(params, StreamBytes(Emit(tree.Contents(), 0, 0, tree.Width(), tree.keyFor)),
          encodeHash(DataHash(tree.table)))
  {
    hide Linked, Holds, Records, Held, Height, StreamBytes, Emit, LittleEndian, EndMark;
    TopRecord(tree.shape, tree.keyFor, tree.target);
    if tree.root.value.DataRecord? {
      return None;
    }
    if !(tree.root.value.NodeRecord? || tree.root.value.FixedNodeRecord?) {
      return None;
    }
    var head := LittleEndian(|params|, 4) + params;
    var written := FreezeNodes(tree, tree.root, 0, 0, head, tree.shape);
    var hash := CollectData(tree);
    file := Some(written + EndMark() + FrozenHash(encodeHash(hash)));
  }

  // ---------- Thawing ----------

  /** The data behind the end mark: None where the file ends too early or does not decode. */
  function ThawedHash(rest: Symbols, decodeHash: Symbols -> Option<map<Key, Value>>): Option<map<Key, Value>> {
    if |rest| < 8 || !AreBytes(rest[..8]) then None
    else
      var size := ReadLittleEndian(rest[..8]);
      if |rest| < 8 + size then None else decodeHash(rest[8..8 + size])
  }

  /** What holds of the files that freezing writes: networks that fit, keys that are keys, data under its own key. */
  ghost predicate PlausibleFile(file: Symbols, w: nat, keyFor: Value -> Key,
                                decodeHash: Symbols -> Option<map<Key, Value>>) {
    && (forall f | f in Networks(file) :: Thawable(f, w, keyFor))
    && (AfterMark(file).Some? && ThawedHash(AfterMark(file).value, decodeHash).Some? ==>
          var hash := ThawedHash(AfterMark(file).value, decodeHash).value;
          forall k | k in hash :: keyFor(hash[k]) == k)
  }

  /** The contents that the networks of a file make of a new tree. */
  ghost function ThawedContents(start: Tree, file: Symbols, w: nat, keyFor: Value -> Key): Outcome
    requires forall f | f in Networks(file) :: Thawable(f, w, keyFor)
  {
    Reinsert(start, ThawedOps(Networks(file), w, keyFor))
  }

  lemma ThawStep(t: Tree, file: Symbols, w: nat, keyFor: Value -> Key)
    requires forall f | f in Networks(file) :: Thawable(f, w, keyFor)
    ensures ThawNetwork(file).Next? ==>
      var f, rest := ThawNetwork(file).frozen, ThawNetwork(file).rest;
      && Thawable(f, w, keyFor) && (forall f' | f' in Networks(rest) :: Thawable(f', w, keyFor))
      && AfterMark(file) == AfterMark(rest)
      && var o := Apply(t, ThawedOp(f, w, keyFor));
         ThawedContents(t, file, w, keyFor) == if o.status != Success then o
           else ThawedContents(o.tree, rest, w, keyFor)
    ensures !ThawNetwork(file).Next? ==> ThawedContents(t, file, w, keyFor) == Outcome(Success, t)
    ensures ThawNetwork(file).End? ==> AfterMark(file) == Some(ThawNetwork(file).rest)
    ensures ThawNetwork(file).Bad? ==> AfterMark(file) == None
  {
    hide ThawNetwork, Thawable, ThawedOp, Apply;
    if ThawNetwork(file).Next? {
      var f, rest := ThawNetwork(file).frozen, ThawNetwork(file).rest;
      assert Networks(file) == [f] + Networks(rest);
      assert f in Networks(file);
      assert ([f] + Networks(rest))[1..] == Networks(rest);
    }
  }

  /** The first loop of thaw_tree: false where it croaks. */
  method ThawNetworks(tree: SearchTree, file: Symbols) returns (ok: bool, rest: Symbols)
    requires tree.Valid() && forall f | f in Networks(file) :: Thawable(f, tree.Width(), tree.keyFor)
    modifies tree`shape, tree`table, tree`cache, Records(tree.shape)
    ensures tree.Valid()
    ensures ok <==>
      ThawedContents(old(tree.Contents()), file, tree.Width(), tree.keyFor).status == Success && AfterMark(file).Some?
    ensures ok ==>
      && tree.Contents() == ThawedContents(old(tree.Contents()), file, tree.Width(), tree.keyFor).tree
      && AfterMark(file) == Some(rest)
    ensures forall r | r in Records(tree.shape) :: r in old(Records(tree.shape)) || fresh(r)
    ensures forall n | n in Nodes(tree.shape) :: n in old(Nodes(tree.shape)) || fresh(n)
  {
    hide Insert, Abs, Records, Nodes, Thawable, ThawNetwork, ThawedContents, AfterMark, Networks, BlockPath;
    ghost var records, nodes := Records(tree.shape), Nodes(tree.shape);
    ghost var w := tree.Width();
    ghost var all := ThawedContents(tree.Contents(), file, w, tree.keyFor);
    var buffer := file;
    ok, rest := false, [];
    while true
      invariant tree.Valid()
      invariant forall f | f in Networks(buffer) :: Thawable(f, w, tree.keyFor)
      invariant ThawedContents(tree.Contents(), buffer, w, tree.keyFor) == all && AfterMark(buffer) == AfterMark(file)
      invariant forall r | r in Records(tree.shape) :: r in records || fresh(r)
      invariant forall n | n in Nodes(tree.shape) :: n in nodes || fresh(n)
      decreases |buffer|
    {
      ThawStep(tree.Contents(), buffer, w, tree.keyFor);
      var thawed := ThawNetwork(buffer);
      if thawed.End? {
        return true, thawed.rest;
      }
      if thawed.Bad? {
        return false, [];
      }
      ghost var content := ThawContent(thawed.frozen, w, tree.keyFor);
      ThawShorter(buffer);
      var status := tree.InsertThawed(thawed.frozen.network, thawed.frozen.depth, thawed.frozen.key, content);
      if status != Success {
        return false, [];
      }
      buffer := thawed.rest;
    }
  }

  lemma ThawShorter(s: Symbols)
    ensures ThawNetwork(s).Next? ==> |ThawNetwork(s).rest| < |s|
  {
  }

  ghost function ThawContent(f: FrozenNetwork, w: nat, keyFor: Value -> Key): (v: Value)
    requires Thawable(f, w, keyFor)
    ensures keyFor(v) == f.key && f.depth <= w
    ensures ThawedOp(f, w, keyFor) == Op(BlockPath(Block(f.network, f.depth), w), Data(v), NoMerge)
  {
    ContentOf(keyFor, f.key)
  }

  /** The second loop of thaw_tree: every key of the hash must be in the tree. */
  method SetAllData(tree: SearchTree, hash: map<Key, Value>) returns (ok: bool)
    requires tree.Valid() && forall k | k in hash :: tree.keyFor(hash[k]) == k
    modifies tree`table
    ensures tree.Valid() && tree.table.Keys == old(tree.table).Keys
    ensures ok <==> hash.Keys <= tree.table.Keys
    ensures ok ==> DataSet(tree.table, hash)
  {
    hide Linked, Holds, Records, Held, Height, WellFormed, AliasesOk, CacheTruthful, Counts, Truthful, IsKeyFunction;
    var todo := hash.Keys;
    while todo != {}
      invariant todo <= hash.Keys && tree.Valid() && tree.table.Keys == old(tree.table).Keys
      invariant forall k | k in hash && k !in todo :: k in tree.table && tree.table[k].data == Some(hash[k])
    {
      var key :| key in todo;
      todo := todo - {key};
      var found := tree.SetData(key, hash[key]);
      if !found {
        assert key !in tree.table;
        return false;
      }
    }
    return true;
  }

  /** What thawing needs of the file, and what it makes of the tree. */
  ghost predicate ThawsTo(file: Symbols, start: Tree, w: nat, keyFor: Value -> Key,
                          decodeHash: Symbols -> Option<map<Key, Value>>,
                          t: Tree, hash: map<Key, Value>)
    requires PlausibleFile(file, w, keyFor, decodeHash)
  {
    && ThawedContents(start, file, w, keyFor) == Outcome(Success, t)
    && AfterMark(file).Some? && ThawedHash(AfterMark(file).value, decodeHash) == Some(hash)
    && forall k | k in hash :: k in Held(t, keyFor)
  }

  ghost predicate Thaws(file: Symbols, start: Tree, w: nat, keyFor: Value -> Key,
                        decodeHash: Symbols -> Option<map<Key, Value>>)
    requires PlausibleFile(file, w, keyFor, decodeHash)
  {
    exists t, h :: ThawsTo(file, start, w, keyFor, decodeHash, t, h)
  }

  ghost predicate DataSet(table: map<Key, Entry>, hash: map<Key, Value>) {
    forall k | k in hash :: k in table && table[k].data == Some(hash[k])
  }

  /** thaw_tree after new_tree: None where it croaks. */
  method ThawInto(tree: SearchTree, file: Symbols, decodeHash: Symbols -> Option<map<Key, Value>>)
      returns (hash: Option<map<Key, Value>>)
    requires tree.Valid() && tree.leaked == multiset{} && PlausibleFile(file, tree.Width(), tree.keyFor, decodeHash)
    modifies tree`shape, tree`table, tree`cache, Records(tree.shape)
    ensures tree.Valid() && tree.leaked == multiset{}
    ensures hash.Some? ==>
      && ThawsTo(file, old(tree.Contents()), tree.Width(), tree.keyFor, decodeHash, tree.Contents(), hash.value)
      && DataSet(tree.table, hash.value)
    ensures hash.None? ==> !Thaws(file, old(tree.Contents()), tree.Width(), tree.keyFor, decodeHash)
    ensures forall r | r in Records(tree.shape) :: r in old(Records(tree.shape)) || fresh(r)
    ensures forall n | n in Nodes(tree.shape) :: n in old(Nodes(tree.shape)) || fresh(n)
  {
    hide Insert, Records, Nodes, ThawedContents, Networks, AfterMark, AliasesOk, ThawedHash, IsKeyFunction, Held,
      Thawable, Linked, Holds, WellFormed, Height, Abs;
    var ok, rest := ThawNetworks(tree, file);
    if !ok {
      return None;
    }
    hash := ThawedHash(rest, decodeHash);
    if hash.Some? {
      ThawedKeysHeld(tree);
      ok := SetAllData(tree, hash.value);
      if !ok {
        return None;
      }
    }
  }

  predicate NewTreeArguments(ipVersion: nat, recordSize: nat, strategy: Option<Strategy>) {
    strategy.Some? && (ipVersion == 4 || ipVersion == 6) && (recordSize == 24 || recordSize == 28 || recordSize == 32)
  }

  function BitsOfVersion(ipVersion: nat): nat { if ipVersion == 6 then 128 else 32 }

  /** thaw_tree: null where it croaks. */
  method ThawTree(file: Symbols, ipVersion: nat, recordSize: nat, strategy: Option<Strategy>, aliasIpv6: bool,
                  reserved: seq<Network>, keyFor: Value -> Key, decodeHash: Symbols -> Option<map<Key, Value>>)
      returns (tree: SearchTree?, ghost hash: map<Key, Value>)
    requires IsKeyFunction(keyFor) && PlausibleFile(file, BitsOfVersion(ipVersion), keyFor, decodeHash)
    requires forall n | n in reserved :: n.prefixLength <= 8 * |n.bytes| == BitsOfVersion(ipVersion)
    ensures tree != null ==>
      && NewTreeArguments(ipVersion, recordSize, strategy)
        && NewContents(ipVersion == 6, aliasIpv6, reserved).status == Success
      && fresh(tree) && tree.Valid() && tree.leaked == multiset{} && tree.keyFor == keyFor
      && tree.Width() == BitsOfVersion(ipVersion) && tree.recordSize == recordSize
        && Some(tree.mergeStrategy) == strategy
      && ThawsTo(file, NewContents(ipVersion == 6, aliasIpv6, reserved).tree, BitsOfVersion(ipVersion), keyFor,
        decodeHash, tree.Contents(), hash)
      && DataSet(tree.table, hash)
    ensures
      tree == null && NewTreeArguments(ipVersion, recordSize, strategy)
      && NewContents(ipVersion == 6, aliasIpv6, reserved).status == Success ==>
      !Thaws(file, NewContents(ipVersion == 6, aliasIpv6, reserved).tree, BitsOfVersion(ipVersion), keyFor, decodeHash)
  {
    hide Insert, Records, Nodes, NewContents, ThawsTo, Thaws, DataSet, AliasesOk, IsKeyFunction, Held, Thawable,
      RecordAt, Remaining, Aliased, PlausibleFile, Linked, Holds, WellFormed, Height, Abs;
    hash := map[];
    NewTreeMeaning(ipVersion == 6, aliasIpv6, reserved);
    tree := SearchTree.NewTree(ipVersion, recordSize, strategy, aliasIpv6, reserved, keyFor);
    if tree != null {
      var thawed := ThawInto(tree, file, decodeHash);
      if thawed.Some? {
        hash := thawed.value;
      } else {
        tree := null;
      }
    }
  }

  /** The table of a tree without leaks has the keys that the tree holds. */
  lemma ThawedKeysHeld(tree: SearchTree)
    requires tree.Valid() && tree.leaked == multiset{}
    ensures forall k | k in tree.table :: k in Held(tree.Contents(), tree.keyFor)
    ensures forall k :: k in Held(tree.Contents(), tree.keyFor) ==> k in tree.table
  {
  }

  // ---------- There and back ----------

  lemma EmittedIsFreezable(t: Tree, w: nat, keyFor: Value -> Key)
    requires Height(t) <= w <= 128 && IsNode(t)
    requires IsKeyFunction(keyFor)
    ensures forall f | f in Emit(t, 0, 0, w, keyFor) :: Freezable(f)
    ensures DataOps(EmitOps(t, []), w) && Emit(t, 0, 0, w, keyFor) == FrozenOps(EmitOps(t, []), w, keyFor)
  {
    hide Pow2, Emit, EmitOps, DataAt, Height;
    var ops := EmitOps(t, []);
    assert NetworkOf([], w) == 0;
    EmitIsFrozenOps(t, [], w, keyFor);
    EmitSound(t, []);
    forall op | op in ops ensures Freezable(FrozenOp(op, w, keyFor)) {
      assert SoundOp(t, [], op) && op.p[0..] == op.p;
      DataAtBelowRoot(t, op.p);
      NetworkPathOf(op.p, w);
      Pow2Monotone(w, 128);
    }
    AllFrozen(ops, w, keyFor);
  }

  lemma DataAtBelowRoot(t: Tree, s: Path)
    requires DataAt(t, s) && IsNode(t)
    ensures s != []
  {
  }

  lemma {:induction false} AllFrozen(ops: seq<Op>, w: nat, keyFor: Value -> Key)
    requires DataOps(ops, w) && forall op | op in ops :: Freezable(FrozenOp(op, w, keyFor))
    ensures forall f | f in FrozenOps(ops, w, keyFor) :: Freezable(f)
  {
    hide Freezable, FrozenOp;
    if ops != [] {
      AllFrozen(ops[1..], w, keyFor);
    }
  }

  /** Trimming keeps the set of keys that are held. */
  lemma {:induction false} TrimAllHolds(t: Tree, keyFor: Value -> Key, k: Key)
    ensures k in Held(TrimAll(t), keyFor) <==> k in Held(t, keyFor)
  {
    if IsNode(t) {
      TrimAllHolds(t.left, keyFor, k);
      TrimAllHolds(t.right, keyFor, k);
    }
  }

  /** What thawing reads after the parameters is what freezing wrote: the same tree, trimmed, and the same data, or a
      croak exactly when the data of some key that no record holds was frozen too. */
  lemma FrozenThaws(t: Tree, w: nat, keyFor: Value -> Key, encoded: Symbols, hash: map<Key, Value>,
                    decodeHash: Symbols -> Option<map<Key, Value>>)
    requires WellFormed(t) && Height(t) <= w && IsNode(t) && w <= 128 && IsKeyFunction(keyFor)
    requires decodeHash(encoded) == Some(hash) && |encoded| < Pow2(64) && forall k | k in hash :: keyFor(hash[k]) == k
    ensures var file := StreamBytes(Emit(t, 0, 0, w, keyFor)) + EndMark() + FrozenHash(encoded);
      && PlausibleFile(file, w, keyFor, decodeHash)
      && (Thaws(file, Skeleton(t), w, keyFor, decodeHash) <==> forall k | k in hash :: k in Held(t, keyFor))
      && forall t', h :: ThawsTo(file, Skeleton(t), w, keyFor, decodeHash, t', h) ==> t' == TrimAll(t) && h == hash
  {
    hide Pow2, Emit, EmitOps, IsKeyFunction, Networks, AfterMark, ThawedOps, FrozenOps, StreamBytes, Freezable,
      Thawable, EndMark, FrozenHash, Held, ThawedHash, Skeleton, TrimAll, WellFormed, Height;
    var fs := Emit(t, 0, 0, w, keyFor);
    var file := StreamBytes(fs) + EndMark() + FrozenHash(encoded);
    EmittedIsFreezable(t, w, keyFor);
    StreamReads(fs, FrozenHash(encoded));
    ThawsBack(EmitOps(t, []), w, keyFor);
    ReinsertGivesBack(t, w);
    HashReads(encoded, decodeHash);
    forall k ensures k in Held(TrimAll(t), keyFor) <==> k in Held(t, keyFor) { TrimAllHolds(t, keyFor, k); }
    if forall k | k in hash :: k in Held(t, keyFor) {
      assert ThawsTo(file, Skeleton(t), w, keyFor, decodeHash, TrimAll(t), hash);
    }
  }

  lemma HashReads(encoded: Symbols, decodeHash: Symbols -> Option<map<Key, Value>>)
    requires |encoded| < Pow2(64)
    ensures ThawedHash(FrozenHash(encoded), decodeHash) == decodeHash(encoded)
  {
    hide Pow2, LittleEndian, ReadLittleEndian;
    var rest := FrozenHash(encoded);
    LittleEndianReads(|encoded|, 8);
    assert rest[..8] == LittleEndian(|encoded|, 8);
    assert rest[8..8 + |encoded|] == encoded;
  }

  lemma HashKeysHeld(tree: SearchTree)
    requires tree.Valid() && Complete(tree.table)
    ensures var hash := DataHash(tree.table);
      && hash.Keys == tree.table.Keys && (forall k | k in hash :: tree.keyFor(hash[k]) == k)
      && ((forall k | k in hash :: k in Held(tree.Contents(), tree.keyFor))
          <==> (forall k | k in tree.leaked :: k in Held(tree.Contents(), tree.keyFor)))
  {
    hide Linked, Holds, Records, Held, Height, WellFormed, AliasesOk, CacheTruthful;
    var hash, held := DataHash(tree.table), Held(tree.Contents(), tree.keyFor);
    assert hash.Keys == tree.table.Keys;
    forall k ensures k in tree.table <==> k in held || k in tree.leaked {
      assert k in tree.table <==> k in held + tree.leaked + multiset{};
    }
  }

  /** Equal contents up to trimming mean equal data, and without leaks and anything to trim equal counts. */
  lemma SameTable(tree: SearchTree, copy: SearchTree)
    requires tree.Valid() && Complete(tree.table) && copy.Valid() && copy.leaked == multiset{}
    requires copy.keyFor == tree.keyFor && copy.Contents() == TrimAll(tree.Contents())
    requires DataSet(copy.table, DataHash(tree.table))
    requires forall k | k in DataHash(tree.table) :: k in Held(tree.Contents(), tree.keyFor)
    ensures copy.table.Keys == tree.table.Keys
    ensures forall k | k in tree.table :: copy.table[k].data == tree.table[k].data
    ensures tree.leaked == multiset{} && Trimmed(tree.Contents()) ==> copy.table == tree.table
  {
    hide Linked, Holds, Records, Held, Height, WellFormed, AliasesOk, CacheTruthful, Truthful, Trimmed;
    var held := Held(tree.Contents(), tree.keyFor);
    if Trimmed(tree.Contents()) { TrimAllOfTrimmed(tree.Contents()); }
    assert DataHash(tree.table).Keys == tree.table.Keys;
    forall k ensures k in copy.table <==> k in tree.table {
      TrimAllHolds(tree.Contents(), tree.keyFor, k);
      assert k in copy.table <==> k in Held(copy.Contents(), tree.keyFor) + copy.leaked + multiset{};
      assert k in tree.table <==> k in held + tree.leaked + multiset{};
    }
    forall k | k in tree.table
      ensures copy.table[k].data == tree.table[k].data
      ensures tree.leaked == multiset{} && Trimmed(tree.Contents()) ==> copy.table[k] == tree.table[k]
    {
      assert k in DataHash(tree.table);
    }
  }

  lemma ThawsSomewhere(file: Symbols, start: Tree, w: nat, keyFor: Value -> Key,
                       decodeHash: Symbols -> Option<map<Key, Value>>,
                       t: Tree, hash: map<Key, Value>)
    requires PlausibleFile(file, w, keyFor, decodeHash) && ThawsTo(file, start, w, keyFor, decodeHash, t, hash)
    ensures Thaws(file, start, w, keyFor, decodeHash)
  {
  }

  lemma ValidFits(tree: SearchTree)
    requires tree.Valid()
    ensures WellFormed(tree.Contents()) && Height(tree.Contents()) <= tree.Width() <= 128 && IsKeyFunction(tree.keyFor)
    ensures tree.Width() == BitsOfVersion(if tree.addressBytes == 16 then 6 else 4)
    ensures NewTreeArguments(if tree.addressBytes == 16 then 6 else 4, tree.recordSize, Some(tree.mergeStrategy))
  {
  }

  /** Freezing a tree and thawing the file with the same options (eg/freeze-thaw) gives the tree, trimmed: only a croak
      inside a merge leaves anything to trim. */
  method FreezeAndThaw(tree: SearchTree, params: Symbols, aliasIpv6: bool, reserved: seq<Network>,
                       encodeHash: map<Key, Value> -> Symbols, decodeHash: Symbols -> Option<map<Key, Value>>)
      returns (copy: SearchTree?)
    requires tree.Valid() && Complete(tree.table) && IsNode(tree.Contents())
    requires forall n | n in reserved :: n.prefixLength <= 8 * |n.bytes| == tree.Width()
    requires NewContents(tree.addressBytes == 16, aliasIpv6, reserved) == Outcome(Success, Skeleton(tree.Contents()))
    requires decodeHash(encodeHash(DataHash(tree.table))) == Some(DataHash(tree.table))
    requires |encodeHash(DataHash(tree.table))| < Pow2(64)
    ensures copy != null <==> forall k | k in tree.leaked :: k in Held(tree.Contents(), tree.keyFor)
    ensures copy != null ==>
      && fresh(copy) && copy.Valid() && copy.Contents() == TrimAll(tree.Contents()) && copy.leaked == multiset{}
      && copy.table.Keys == tree.table.Keys && (forall k | k in tree.table :: copy.table[k].data == tree.table[k].data)
      && (tree.leaked == multiset{} && Trimmed(tree.Contents()) ==>
        copy.Contents() == tree.Contents() && copy.table == tree.table)
  {
    hide Linked, Holds, Records, Nodes, Held, Height, WellFormed, AliasesOk, CacheTruthful, Pow2, StreamBytes, Emit,
      EndMark, FrozenHash, Skeleton, NewContents, LittleEndian, Thaws, PlausibleFile, TrimAll, Trimmed, Abs,
      IsKeyFunction, NewTreeArguments, BitsOfVersion, DataHash, ThawsTo;
    ValidFits(tree);
    ghost var t, w, hash := tree.Contents(), tree.Width(), DataHash(tree.table);
    ghost var encoded := encodeHash(hash);
    ShapeAllocated(tree.shape);
    HashKeysHeld(tree);
    FrozenThaws(t, w, tree.keyFor, encoded, hash, decodeHash);
    var frozen := FreezeTree(tree, params, encodeHash);
    var file := frozen.value[4 + |params|..];
    assert file == StreamBytes(Emit(t, 0, 0, w, tree.keyFor)) + EndMark() + FrozenHash(encoded);
    var version := if tree.addressBytes == 16 then 6 else 4;
    ghost var thawedHash;
    copy, thawedHash := ThawTree(file, version, tree.recordSize, Some(tree.mergeStrategy), aliasIpv6, reserved,
      tree.keyFor, decodeHash);
    if copy != null {
      if Trimmed(t) { TrimAllOfTrimmed(t); }
      ThawsSomewhere(file, Skeleton(t), w, tree.keyFor, decodeHash, copy.Contents(), thawedHash);
      SameTable(tree, copy);
    }
  }
}
