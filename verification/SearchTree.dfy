/** The search tree object and inserting into it, overwriting records in place (c/tree.c). */
module SearchTree {
  import opened Wrappers
  import opened Data
  import opened Merge
  import opened MergeLoops
  import opened Trie
  import opened TrieLaws
  import opened Address
  import opened Shapes
  import opened DataTable
  import opened Aliases
  import opened FreshTree
  import opened NewTrees
  import opened Ranges
  import opened RangeUpdates
  import opened Refusals

  /** Aliases point at the IPv4 root, a fixed node at ::/96 with no alias below it. */
  ghost predicate AliasesOk(shape: Shape, target: TreeNode?, width: nat) {
    if target == null then NoAlias(Abs(shape))
    else width > IPV4_BITS && AliasSafe(Abs(shape), width) && FixedNodeAt(shape, Ipv4Root(width)) == target
  }

  class SearchTree {
    const addressBytes: nat          // 4 or 16
    const recordSize: nat            // 24, 28 or 32
    const mergeStrategy: Strategy
    const keyFor: Value -> Key
    const root: Record
    var table: map<Key, Entry>
    var cache: map<seq<Symbol>, Key>
    var nodeCount: nat
    ghost var shape: Shape
    ghost var target: TreeNode?      // the IPv4 root, once aliases may point at it
    ghost var leaked: multiset<Key>  // keys counted for inserts that a merge croaked out of

    constructor (addressBytes: nat, recordSize: nat, mergeStrategy: Strategy, keyFor: Value -> Key)
      requires (addressBytes == 4 || addressBytes == 16) && (recordSize == 24 || recordSize == 28 || recordSize == 32)
      requires IsKeyFunction(keyFor)
      ensures Valid() && Contents() == Empty && Complete(table) && target == null && leaked == multiset{}
      ensures this.addressBytes == addressBytes && this.recordSize == recordSize && this.mergeStrategy == mergeStrategy
      ensures this.keyFor == keyFor
      ensures fresh(Records(shape)) && Nodes(shape) == {}
    {
      this.addressBytes := addressBytes;
      this.recordSize := recordSize;
      this.mergeStrategy := mergeStrategy;
      this.keyFor := keyFor;
      var record := new Record(EmptyRecord);
      root := record;
      table := map[];
      cache := map[];
      nodeCount := 0;
      target := null;
      leaked := multiset{};
      shape := Leaf(record, Empty);
    }

    ghost function Width(): nat { 8 * addressBytes }

    /** The tree that the heap stands for. */
    ghost function Contents(): Tree
      reads this`shape
    {
      Abs(shape)
    }

    /** The invariant, with `extra` counts held by an insert in progress, and without what concerns aliases. */
    ghost predicate Sound(extra: multiset<Key>)
      reads this, Records(shape)
    {
      && (addressBytes == 4 || addressBytes == 16) && (recordSize == 24 || recordSize == 28 || recordSize == 32)
      && IsKeyFunction(keyFor)
      && shape.rec == root && Linked(shape) && Holds(shape, keyFor, target)
      && WellFormed(Contents()) && Height(Contents()) <= Width()
      && TableOk(Held(Contents(), keyFor) + leaked + extra) && CacheTruthful(cache, keyFor)
    }

    ghost predicate Valid()
      reads this, Records(shape)
    {
      Sound(multiset{}) && AliasesOk(shape, target, Width())
    }

    // ---------- Reference counts ----------

    ghost predicate TableOk(held: multiset<Key>)
      reads this`table
    {
      Counts(table, held) && Truthful(table, keyFor)
    }

    method IncrementDataReferenceCount(key: Key, ghost held: multiset<Key>)
      requires TableOk(held)
      modifies this`table
      ensures TableOk(held + multiset{key})
      ensures key in held && old(Complete(table)) ==> Complete(table)
      ensures table.Keys == old(table).Keys + {key}
      ensures table[key] == if key in old(table) then old(table)[key].(count := old(table)[key].count + 1)
        else Entry(None, 1)
      ensures forall k | k in old(table) && k != key :: table[k] == old(table)[k]
    {
      if key !in table {
        table := table[key := Entry(None, 0)];
      }
      table := table[key := table[key].(count := table[key].count + 1)];
    }

    method SetStoredData(key: Key, data: Value, ghost held: multiset<Key>) returns (ok: bool)
      requires TableOk(held) && keyFor(data) == key
      modifies this`table
      ensures TableOk(held)
      ensures ok <==> key in held
      ensures table.Keys == old(table).Keys
      ensures forall k | k in old(table) && k != key :: table[k] == old(table)[k]
      ensures ok ==> table[key] == if old(table)[key].data.Some? then old(table)[key]
        else old(table)[key].(data := Some(data))
    {
      if key !in table {
        return false;
      }
      if table[key].data.None? {
        table := table[key := table[key].(data := Some(data))];
      }
      return true;
    }

    method StoreDataInTree(key: Key, data: Value, ghost held: multiset<Key>)
      requires TableOk(held) && keyFor(data) == key
      modifies this`table
      ensures TableOk(held + multiset{key})
      ensures old(Complete(table)) ==> Complete(table)
      ensures key in table && table[key].data.Some?
      ensures forall k | k in old(table) && old(table)[k].data.Some? :: table[k].data == old(table)[k].data
    {
      IncrementDataReferenceCount(key, held);
      var _ := SetStoredData(key, data, held + multiset{key});
    }

    method DecrementDataReferenceCount(key: Key, ghost held: multiset<Key>)
      requires TableOk(held) && key in held
      modifies this`table
      ensures TableOk(held - multiset{key})
      ensures old(Complete(table)) ==> Complete(table)
      ensures key in old(table)
      ensures table == if old(table)[key].count == 1 then old(table) - {key}
        else old(table)[key := old(table)[key].(count := old(table)[key].count - 1)]
    {
      table := table[key := table[key].(count := table[key].count - 1)];
      if table[key].count == 0 {
        table := table - {key};
      }
    }

    // ---------- Freeing ----------

    /** free_record_value with free_node_and_subnodes: releases the data keys below, left before right. */
    method FreeRecordValue(rec: Record, removeAll: bool, ghost shape: Shape, ghost target: TreeNode?,
                           ghost held: multiset<Key>)
        returns (status: Status)
      requires rec == shape.rec && Linked(shape) && Holds(shape, keyFor, target)
      requires TableOk(held) && Held(Abs(shape), keyFor) <= held
      modifies this`table
      ensures status == FreeStatus(Abs(shape), removeAll)
      ensures TableOk(held - Released(Abs(shape), removeAll, keyFor))
      ensures old(Complete(table)) ==> Complete(table)
      ensures table.Keys <= old(table).Keys
      ensures forall k | k in table :: table[k].data == old(table)[k].data
      decreases shape
    {
      match rec.value
      case FixedNodeRecord(node) =>
        if !removeAll {
          return FreedFixedNode;
        }
        status := FreeNodeAndSubnodes(node, removeAll, shape, target, held);
      case NodeRecord(node) =>
        status := FreeNodeAndSubnodes(node, removeAll, shape, target, held);
      case FixedEmptyRecord =>
        return if removeAll then Success else FreedFixedEmpty;
      case DataRecord(key) =>
        DecrementDataReferenceCount(key, held);
        return Success;
      case AliasRecord(_) =>
        return if removeAll then Success else FreedAliasNode;
      case EmptyRecord =>
        return Success;
    }

    method FreeNodeAndSubnodes(node: TreeNode, removeAll: bool, ghost shape: Shape, ghost target: TreeNode?,
                               ghost held: multiset<Key>)
        returns (status: Status)
      requires shape.Inner? && shape.node == node && (shape.fixed ==> removeAll)
      requires Linked(shape) && Holds(shape, keyFor, target)
      requires TableOk(held) && Held(Abs(shape), keyFor) <= held
      modifies this`table
      ensures status == FreeStatus(Abs(shape), removeAll)
      ensures TableOk(held - Released(Abs(shape), removeAll, keyFor))
      ensures old(Complete(table)) ==> Complete(table)
      ensures table.Keys <= old(table).Keys
      ensures forall k | k in table :: table[k].data == old(table)[k].data
      decreases shape, 0
    {
      ghost var l, r := Abs(shape.left), Abs(shape.right);
      ShapeAllocated(shape);
      BelowNode(shape.fixed, l, r, removeAll, keyFor);
      ReleasesOnlyHeld(l, removeAll, keyFor);
      SplitHeld(held, Held(l, keyFor), Held(r, keyFor), Released(l, removeAll, keyFor), Released(r, removeAll, keyFor));
      status := FreeRecordValue(node.left, removeAll, shape.left, target, held);
      if status != Success {
        return;
      }
      status := FreeRecordValue(node.right, removeAll, shape.right, target, held - Released(l, removeAll, keyFor));
    }

    // ---------- Merging ----------

    /** maybe_merge_records: on a merge, the key of the merged data is counted once more. */
    method MaybeMergeRecords(value: RecordValue, rec: Record, s: Strategy,
                             ghost before: Tree, ghost newTree: Tree, ghost target: TreeNode?,
                             ghost held: multiset<Key>)
        returns (status: Status, merged: Option<Key>)
      requires IsKeyFunction(keyFor) && TableOk(held) && CacheTruthful(cache, keyFor)
      requires Represents(value, newTree, keyFor, target)
      requires before.Data? <==> rec.value.DataRecord?
      requires before.Data? ==> rec.value.key == keyFor(before.v) && rec.value.key in held
      requires newTree.Data? ==> value.DataRecord? && value.key in held
      requires s != NoMerge ==> Complete(table)
      modifies this`table, this`cache
      ensures CacheTruthful(cache, keyFor)
      ensures old(Complete(table)) ==> Complete(table)
      ensures !NeedsMerge(before, newTree, s) ==>
        status == Success && merged == None && table == old(table) && cache == old(cache)
      ensures NeedsMerge(before, newTree, s) ==> status == Place(before, newTree, s).status
      ensures NeedsMerge(before, newTree, s) && status == Success ==>
                && Place(before, newTree, s).tree.Data? && merged == Some(keyFor(Place(before, newTree, s).tree.v))
                  && TableOk(held + multiset{merged.value})
      ensures NeedsMerge(before, newTree, s) && status == MergeNotHashes ==> TableOk(held - multiset{value.key})
      ensures NeedsMerge(before, newTree, s) && status == MergeMismatch ==> TableOk(held)
    {
      hide Truthful, MergeValues, CacheTruthful, Complete, TableOk, Place, MergeCacheKey;
      if NeedsMerge(before, newTree, s) { PlaceMerges(before, newTree, s); }
      if before.Data? && newTree.Data? { CacheSays(cache, keyFor, s, newTree.v, before.v); }
      if !value.DataRecord? || s == NoMerge {
        return Success, None;
      }
      if !rec.value.DataRecord? || value.key == rec.value.key {
        return Success, None;
      }
      var cacheKey := MergeCacheKey(s, value.key, rec.value.key);
      var cached := MergeCacheLookup(cacheKey, held);
      if cached.Some? {
        IncrementDataReferenceCount(cached.value, held);
        return Success, cached;
      }
      var result;
      status, result := MergeHashesForKeys(value.key, rec.value.key, s, newTree.v, before.v, held);
      if status != Success {
        return status, None;
      }
      var newKey := keyFor(result);
      StoreDataInTree(newKey, result, held);
      CacheGrows(cache, keyFor, s, newTree.v, before.v);
      assert cacheKey !in cache;
      cache := cache[cacheKey := newKey];
      return Success, Some(newKey);
    }

    /** merge_cache_lookup: an entry whose key has left the data table is dropped. */
    method MergeCacheLookup(cacheKey: seq<Symbol>, ghost held: multiset<Key>) returns (found: Option<Key>)
      requires TableOk(held) && CacheTruthful(cache, keyFor)
      modifies this`cache
      ensures CacheTruthful(cache, keyFor)
      ensures found ==
        if cacheKey in old(cache) && old(cache)[cacheKey] in held then Some(old(cache)[cacheKey]) else None
      ensures cache == if found.Some? then old(cache) else old(cache) - {cacheKey}
    {
      if cacheKey !in cache {
        assert cache - {cacheKey} == cache;
        return None;
      }
      if cache[cacheKey] in table {
        return Some(cache[cacheKey]);
      }
      cache := cache - {cacheKey};
      return None;
    }

    /** merge_hashes_for_keys: before its croak it gives back the key that is being inserted. */
    method MergeHashesForKeys(keyFrom: Key, keyInto: Key, s: Strategy, ghost from: Value, ghost into: Value,
                              ghost held: multiset<Key>)
        returns (status: Status, result: Value)
      requires IsKeyFunction(keyFor) && TableOk(held) && Complete(table)
      requires keyFrom == keyFor(from) && keyFrom in held
      requires keyInto == keyFor(into) && keyInto in held
      modifies this`table
      ensures old(Complete(table)) ==> Complete(table)
      ensures status == (if !(from.Map? && into.Map?) then MergeNotHashes
                         else if MergeValues(s, from, into).None? then MergeMismatch else Success)
      ensures status == Success ==> MergeValues(s, from, into) == Some(result)
      ensures TableOk(if status == MergeNotHashes then held - multiset{keyFrom} else held)
    {
      var dataFrom, dataInto := table[keyFrom].data.value, table[keyInto].data.value;
      if !(dataFrom.Map? && dataInto.Map?) {
        DecrementDataReferenceCount(keyFrom, held);
        return MergeNotHashes, dataInto;
      }
      var merged := MergeHashes(s, dataFrom, dataInto);
      if merged.None? {
        return MergeMismatch, dataInto;
      }
      return Success, merged.value;
    }

    // ---------- Inserting ----------

    /** insert_record_into_current_record. */
    method InsertRecordIntoCurrentRecord(rec: Record, value: RecordValue, s: Strategy,
                                         ghost shape: Shape, ghost newTree: Tree, ghost target: TreeNode?,
                                         ghost held: multiset<Key>)
        returns (status: Status, ghost after: Shape)
      requires IsKeyFunction(keyFor) && TableOk(held) && CacheTruthful(cache, keyFor)
      requires rec == shape.rec && Linked(shape) && Holds(shape, keyFor, target)
      requires Plain(Abs(shape)) && (shape.Inner? ==> s == NoMerge)
      requires Represents(value, newTree, keyFor, target)
      requires NewRecords(value) !! Records(shape) && NewNodes(value) !! Nodes(shape)
      requires Pending(held, Held(Abs(shape), keyFor), value)
      requires s != NoMerge ==> Complete(table)
      requires target == null ==> !newTree.Alias?
      modifies rec, this`table, this`cache
      ensures Outcome(status, Abs(after)) == Place(Abs(shape), newTree, s)
      ensures PutAt(value, shape, after, [])
      ensures after.rec == rec && Linked(after) && Holds(after, keyFor, target)
      ensures Records(after) <= Records(shape) + NewRecords(value) && Nodes(after) <= Nodes(shape) + NewNodes(value)
      ensures TableOk(Recount(held, Held(Abs(shape), keyFor), Held(Abs(after), keyFor), status, value))
      ensures CacheTruthful(cache, keyFor)
      ensures old(Complete(table)) ==> Complete(table)
    {
      hide TableOk, Complete, CacheTruthful, Records, Nodes, Holds, Linked, Held, Abs, MergeValues, Place, PutAt;
      PutAtSame(value, shape, []);
      ghost var before := Abs(shape);
      ShapeAllocated(shape);
      TopRecord(shape, keyFor, target);
      PlaceCases(before, newTree, s);
      RecountUnchanged(held, Held(before, keyFor), value);
      status, after := Success, shape;
      if !(rec.value == EmptyRecord && s == AddOnly) {
        var merged;
        status, merged := MaybeMergeRecords(value, rec, s, before, newTree, target, held);
        if status == Success {
          status, after := ReplaceRecord(rec, value, merged, shape, newTree, Place(before, newTree, s).tree, target,
            held);
        }
      }
    }

    /** Free what is there, write the new record, and settle the counts. */
    method ReplaceRecord(rec: Record, value: RecordValue, merged: Option<Key>,
                         ghost shape: Shape, ghost newTree: Tree, ghost placed: Tree, ghost target: TreeNode?,
                         ghost held: multiset<Key>)
        returns (status: Status, ghost after: Shape)
      requires rec == shape.rec && Linked(shape) && Holds(shape, keyFor, target) && Plain(Abs(shape))
      requires Represents(value, newTree, keyFor, target) && (target == null ==> !newTree.Alias?)
      requires rec in Records(shape) && NewRecords(value) !! Records(shape)
      requires merged.None? ==> placed == newTree && TableOk(held)
      requires merged.Some? ==>
        value.DataRecord? && placed.Data? && keyFor(placed.v) == merged.value && TableOk(held + multiset{merged.value})
      requires Pending(held, Held(Abs(shape), keyFor), value)
      modifies rec, this`table
      ensures status == Success
      ensures after.rec == rec && Linked(after) && Holds(after, keyFor, target) && Abs(after) == placed
      ensures Records(after) <= Records(shape) + NewRecords(value) && Nodes(after) <= Nodes(shape) + NewNodes(value)
      ensures TableOk(held - Held(Abs(shape), keyFor) + Held(placed, keyFor))
      ensures status == Success ==> PutAt(value, shape, after, [])
      ensures old(Complete(table)) ==> Complete(table)
    {
      hide PutAt, TableOk, Complete, Records, Nodes, Holds, Linked, Plain, Held, Abs;
      status := FreeOld(rec, shape, target, if merged.Some? then held + multiset{merged.value} else held);
      after := shape;
      if status == Success {
        SettleCounts(value, merged, held, Held(Abs(shape), keyFor));
        after := OverwriteRecord(rec, value, merged, shape, newTree, placed, target);
      }
    }

    /** Count the key that is written, and give back the extra count that a merge left. */
    method SettleCounts(value: RecordValue, merged: Option<Key>, ghost held: multiset<Key>, ghost before: multiset<Key>)
      requires Pending(held, before, value) && (merged.Some? ==> value.DataRecord?)
      requires TableOk((if merged.Some? then held + multiset{merged.value} else held) - before)
      modifies this`table
      ensures TableOk(held - before + KeysOf(value, merged))
      ensures old(Complete(table)) ==> Complete(table)
    {
      if value.DataRecord? {
        var key := if merged.None? then value.key else merged.value;
        ghost var counted := (if merged.Some? then held + multiset{merged.value} else held) - before;
        SurvivesFree(held, before, value, merged);
        IncrementDataReferenceCount(key, counted);
        if merged.Some? {
          DecrementDataReferenceCount(merged.value, counted + multiset{merged.value});
        }
        RecountPlaced(held, before, value, merged);
      } else {
        assert held - before == held - before + KeysOf(value, merged);
      }
    }

    method FreeOld(rec: Record, ghost shape: Shape, ghost target: TreeNode?, ghost held: multiset<Key>)
        returns (status: Status)
      requires rec == shape.rec && Linked(shape) && Holds(shape, keyFor, target) && Plain(Abs(shape))
      requires TableOk(held) && Held(Abs(shape), keyFor) <= held
      modifies this`table
      ensures status == Success && TableOk(held - Held(Abs(shape), keyFor))
      ensures old(Complete(table)) ==> Complete(table)
    {
      PlainFacts(Abs(shape));
      ReleasesOnlyHeld(Abs(shape), false, keyFor);
      status := FreeRecordValue(rec, false, shape, target, held);
    }

    /** The record takes the type and value of the new one, or of the merged data. */
    method OverwriteRecord(rec: Record, value: RecordValue, merged: Option<Key>,
                           ghost shape: Shape, ghost newTree: Tree, ghost placed: Tree, ghost target: TreeNode?)
        returns (ghost after: Shape)
      requires rec == shape.rec && rec in Records(shape)
      requires Represents(value, newTree, keyFor, target) && (target == null ==> !newTree.Alias?)
      requires NewRecords(value) !! Records(shape)
      requires merged.None? ==> placed == newTree
      requires merged.Some? ==> value.DataRecord? && placed.Data? && keyFor(placed.v) == merged.value
      modifies rec
      ensures after.rec == rec && Linked(after) && Holds(after, keyFor, target) && Abs(after) == placed
      ensures Records(after) <= Records(shape) + NewRecords(value) && Nodes(after) <= Nodes(shape) + NewNodes(value)
      ensures Held(placed, keyFor) == KeysOf(value, merged) && PutAt(value, shape, after, [])
    {
      hide Records, Nodes, Holds, Linked, Held, Abs, PutAt, Represents;
      OverwriteFacts(rec, value, merged, shape, newTree, placed, target);
      OverwrittenKeys(value, merged, newTree, placed, target);
      OverwrittenIsPut(rec, value, shape, newTree, placed, target);
      rec.value := if merged.Some? then DataRecord(merged.value) else value;
      after := NewShape(rec, value, placed);
      OverwrittenHolds(rec, value, merged, newTree, placed, target);
    }

    /** The overwritten record, and the two below a new fixed node, hold what they should. */
    lemma OverwrittenHolds(rec: Record, value: RecordValue, merged: Option<Key>, newTree: Tree, placed: Tree,
                           target: TreeNode?)
      requires rec.value == (if merged.Some? then DataRecord(merged.value) else value) && rec !in NewRecords(value)
      requires Represents(value, newTree, keyFor, target) && (target == null ==> !newTree.Alias?)
      requires merged.None? ==> placed == newTree
      requires merged.Some? ==> value.DataRecord? && placed.Data? && keyFor(placed.v) == merged.value
      ensures Holds(NewShape(rec, value, placed), keyFor, target)
    {
    }

    lemma OverwriteFacts(rec: Record, value: RecordValue, merged: Option<Key>, shape: Shape, newTree: Tree,
                         placed: Tree, target: TreeNode?)
      requires rec == shape.rec && rec in Records(shape) && NewRecords(value) !! Records(shape)
      requires Represents(value, newTree, keyFor, target)
      requires merged.None? ==> placed == newTree
      requires merged.Some? ==> value.DataRecord? && placed.Data? && keyFor(placed.v) == merged.value
      ensures var after := NewShape(rec, value, placed);
        && Linked(after) && Abs(after) == placed
        && Records(after) <= Records(shape) + NewRecords(value) && Nodes(after) <= Nodes(shape) + NewNodes(value)
      ensures rec !in NewRecords(value)
    {
      hide Height, WellFormed, Held, Extends;
    }

    lemma OverwrittenKeys(value: RecordValue, merged: Option<Key>, newTree: Tree, placed: Tree, target: TreeNode?)
      requires Represents(value, newTree, keyFor, target)
      requires merged.None? ==> placed == newTree
      requires merged.Some? ==> value.DataRecord? && placed.Data? && keyFor(placed.v) == merged.value
      ensures Held(placed, keyFor) == KeysOf(value, merged)
    {
    }

    lemma OverwrittenIsPut(rec: Record, value: RecordValue, shape: Shape, newTree: Tree, placed: Tree,
                           target: TreeNode?)
      requires rec == shape.rec && Represents(value, newTree, keyFor, target)
      requires !value.DataRecord? ==> placed == newTree
      ensures PutAt(value, shape, NewShape(rec, value, placed), [])
    {
    }

    /** new_node_from_record: a leaf becomes a node with two copies of it. */
    method SplitRecord(rec: Record, ghost shape: Shape, ghost target: TreeNode?, ghost held: multiset<Key>)
        returns (node: TreeNode, ghost mid: Shape)
      requires rec == shape.rec && shape.Leaf? && Holds(shape, keyFor, target) && IsUserRecord(shape.tree)
      requires TableOk(held) && Held(shape.tree, keyFor) <= held
      modifies rec, this`table
      ensures fresh(node) && fresh(node.left) && fresh(node.right)
      ensures mid == Inner(rec, false, node, Leaf(node.left, shape.tree), Leaf(node.right, shape.tree))
      ensures Linked(mid) && Holds(mid, keyFor, target)
      ensures TableOk(held - Held(shape.tree, keyFor) + Held(Abs(mid), keyFor))
      ensures old(Complete(table)) ==> Complete(table)
      ensures rec.value == NodeRecord(node) && Records(mid) == {rec, node.left, node.right} && Nodes(mid) == {node}
      ensures Abs(mid) == Node(shape.tree, shape.tree) && Abs(mid.left) == shape.tree == Abs(mid.right)
    {
      if rec.value.DataRecord? {
        IncrementDataReferenceCount(rec.value.key, held);
        assert held + multiset{rec.value.key} == held - multiset{rec.value.key}
          + (multiset{rec.value.key} + multiset{rec.value.key});
      }
      node := new TreeNode(rec.value, rec.value);
      rec.value := NodeRecord(node);
      mid := Inner(rec, false, node, Leaf(node.left, shape.tree), Leaf(node.right, shape.tree));
    }

    /** The trim: a plain node over two identical leaves is freed, and its leaf moves up. */
    method TrimRecord(rec: Record, node: TreeNode, ghost shape: Shape, ghost target: TreeNode?,
                      ghost held: multiset<Key>)
        returns (ghost after: Shape)
      requires IsKeyFunction(keyFor)
      requires shape.Inner? && rec == shape.rec && node == shape.node && Linked(shape) && Holds(shape, keyFor, target)
      requires TableOk(held) && Held(Abs(shape), keyFor) <= held
      modifies rec, this`table
      ensures after.rec == rec && Linked(after) && Holds(after, keyFor, target) && Abs(after) == Trim(Abs(shape))
      ensures Records(after) <= Records(shape) && Nodes(after) <= Nodes(shape) && Extends(shape, after)
      ensures shape.fixed ==> after == shape
      ensures TableOk(held - Held(Abs(shape), keyFor) + Held(Abs(after), keyFor))
      ensures old(Complete(table)) ==> Complete(table)
    {
      hide TableOk, Complete, Held, Abs, Trim, IsKeyFunction, Plain, Holds, Linked, Records, Nodes;
      after := shape;
      ExtendsReflexive(shape);
      TopRecord(shape, keyFor, target);
      TrimSeesTwins(shape, keyFor, target);
      if rec.value.NodeRecord? && node.left.value.EmptyRecord? && node.right.value.EmptyRecord? {
        FreeTwins(node, None, shape, target, held);
        after := SetLeaf(rec, EmptyRecord, Empty, target);
      } else if rec.value.NodeRecord? && node.left.value.DataRecord? && node.left.value == node.right.value {
        var key := node.left.value.key;
        FreeTwins(node, Some(key), shape, target, held);
        after := SetLeaf(rec, DataRecord(key), Abs(shape.left), target);
      } else {
        assert held - Held(Abs(shape), keyFor) + Held(Abs(shape), keyFor) == held;
      }
    }

    method SetLeaf(rec: Record, value: RecordValue, ghost tree: Tree, ghost target: TreeNode?)
        returns (ghost after: Shape)
      requires IsUserRecord(tree) && value == LeafValue(tree, keyFor, target)
      modifies rec
      ensures after == Leaf(rec, tree) && Abs(after) == tree
      ensures Linked(after) && Holds(after, keyFor, target) && Records(after) == {rec} && Nodes(after) == {}
      ensures Held(tree, keyFor) == KeysOf(value, None)
    {
      rec.value := value;
      after := Leaf(rec, tree);
    }

    /** The twins' key is counted once for the record above before both are freed. */
    method FreeTwins(node: TreeNode, key: Option<Key>, ghost shape: Shape, ghost target: TreeNode?,
                     ghost held: multiset<Key>)
      requires shape.Inner? && node == shape.node && !shape.fixed && Linked(shape) && Holds(shape, keyFor, target)
      requires Plain(Abs(shape)) && TableOk(held) && Held(Abs(shape), keyFor) <= held
      requires key.Some? ==> Held(Abs(shape), keyFor) == multiset{key.value} + multiset{key.value}
      modifies this`table
      ensures TableOk(held - Held(Abs(shape), keyFor) + (if key.Some? then multiset{key.value} else multiset{}))
      ensures old(Complete(table)) ==> Complete(table)
    {
      ghost var counted := held;
      ShapeAllocated(shape);
      if key.Some? {
        TwinCounts(held, key.value);
        IncrementDataReferenceCount(key.value, held);
        counted := held + multiset{key.value};
      } else {
        assert held - Held(Abs(shape), keyFor) + multiset{} == held - Held(Abs(shape), keyFor);
      }
      PlainFacts(Abs(shape));
      ReleasesOnlyHeld(Abs(shape), false, keyFor);
      var status := FreeNodeAndSubnodes(node, false, shape, target, counted);
    }

    // ---------- What callers see ----------

    /** Networks have the tree's address length; resolve_network guarantees the prefix bound. */
    ghost predicate Fits(network: Network) {
      |network.bytes| == addressBytes && network.prefixLength <= Width()
    }

    function Effective(strategy: Option<Strategy>): Strategy {
      if strategy.Some? then strategy.value else mergeStrategy
    }

    /** insert_record_for_network. */
    method InsertRecordForNetwork(network: Network, value: RecordValue, strategy: Option<Strategy>,
                                  ghost newTree: Tree, ghost extra: multiset<Key>)
        returns (status: Status)
      requires Sound(extra) && Fits(network) && network.prefixLength + Height(newTree) <= Width()
      requires Represents(value, newTree, keyFor, target) && Allowed(newTree, Effective(strategy), false)
      requires NewRecords(value) !! Records(shape) && NewNodes(value) !! Nodes(shape)
      requires (value.DataRecord? ==> value.key in extra) && (target == null ==> !newTree.Alias?)
      requires Effective(strategy) != NoMerge ==> Complete(table)
      modifies this`shape, this`table, this`cache, Records(shape)
      ensures strategy.None? ==>
        Outcome(status, Contents())
        == Insert(old(Contents()), Remaining(network, 0), false, newTree, mergeStrategy)
      ensures strategy.Some? ==>
        Outcome(status, Contents())
        == Insert(old(Contents()), Remaining(network, 0), false, newTree, strategy.value)
      ensures Extends(old(shape), shape) && PutAt(value, old(shape), shape, Remaining(network, 0))
      ensures Sound(if status == MergeNotHashes && value.DataRecord? then extra - multiset{value.key} else extra)
      ensures forall r | r in Records(shape) :: r in old(Records(shape)) || r in NewRecords(value) || fresh(r)
      ensures forall n | n in Nodes(shape) :: n in old(Nodes(shape)) || n in NewNodes(value) || fresh(n)
      ensures old(Complete(table)) ==> Complete(table)
    {
      hide Insert, Held, Abs, Holds, Linked, TableOk, Complete, CacheTruthful, Recount, Pending, Extends, WellFormed,
        Represents, Height, Records, Nodes, NewRecords, NewNodes, Remaining, Ready, IsKeyFunction, Allowed;
      ghost var before := Contents();
      ghost var held := Held(before, keyFor) + leaked + extra;
      ghost var p := Remaining(network, 0);
      PendingExtra(Held(before, keyFor), leaked, extra, value);
      ShapeAllocated(shape);
      var s := Effective(strategy);
      ghost var after;
      AllowedFacts(newTree, s);
      ReadyAgain(shape, network, 0, value, s, newTree, target, held);
      status, after := InsertRecordIntoNextNode(root, network, 0, value, s, shape, newTree, target, held);
      InsertKeepsWellFormed(before, p, false, newTree, s);
      InsertKeepsHeight(before, p, false, newTree, s, Width());
      RecountExtra(Held(before, keyFor), Held(Abs(after), keyFor), leaked, extra, status, value);
      shape := after;
    }

    /** Aliases survive every insert but that of an alias. */
    lemma AliasOkStays(was: Shape, p: Path, newTree: Tree, s: Strategy)
      requires IsNewRecord(newTree) && !newTree.Alias?
      requires Contents() == Insert(Abs(was), p, false, newTree, s).tree && Extends(was, shape)
      requires AliasesOk(was, target, Width())
      ensures AliasesOk(shape, target, Width())
    {
      if target == null {
        NoAliasStays(Abs(was), p, false, newTree, s);
      } else {
        AliasSafeStays(Abs(was), p, newTree, s, Width());
        ExtendsKeepsFixedNodes(was, shape, Ipv4Root(Width()));
      }
    }

    // ---------- A new tree ----------

    /** new_tree: null where it croaks. The reserved networks are a fixed table that callers pass in. */
    static method NewTree(ipVersion: nat, recordSize: nat, strategy: Option<Strategy>, aliasIpv6: bool,
                          reserved: seq<Network>, keyFor: Value -> Key)
        returns (tree: SearchTree?)
      requires IsKeyFunction(keyFor)
      requires forall n | n in reserved :: n.prefixLength <= 8 * |n.bytes| == if ipVersion == 6 then 128 else 32
      ensures tree == null <==>
        || strategy.None? || (ipVersion != 4 && ipVersion != 6)
          || (recordSize != 24 && recordSize != 28 && recordSize != 32)
        || (ipVersion == 6 && aliasIpv6 && exists n :: n in reserved && Aliased(Remaining(n, 0)))
      ensures tree != null ==> forall a: Path | |a| == tree.Width() ::
        RecordAt(tree.Contents(), a)
        == if ipVersion == 6 && aliasIpv6 && Aliased(a) then Alias
           else if exists n :: n in reserved && Remaining(n, 0) <= a then FixedEmpty else Trie.Empty
      ensures tree != null ==>
        && fresh(tree) && tree.Valid()
        && (forall r | r in Records(tree.shape) :: fresh(r)) && (forall n | n in Nodes(tree.shape) :: fresh(n))
        && tree.Contents() == NewContents(ipVersion == 6, aliasIpv6, reserved).tree
        && tree.addressBytes == (if ipVersion == 6 then 16 else 4) && tree.recordSize == recordSize
        && Some(tree.mergeStrategy) == strategy && tree.keyFor == keyFor
        && Complete(tree.table) && tree.leaked == multiset{}
    {
      hide AliasedTree, Reserve, AliasesOk, Records, Nodes, Complete, Abs, Extends, Insert, NewContents, Aliased,
        RecordAt, Remaining;
      if strategy.None? || (ipVersion != 4 && ipVersion != 6)
        || (recordSize != 24 && recordSize != 28 && recordSize != 32) {
        return null;
      }
      var created := new SearchTree(if ipVersion == 6 then 16 else 4, recordSize, strategy.value, keyFor);
      var status := created.SetUpNew(aliasIpv6 && ipVersion == 6, reserved);
      NewTreeMeaning(ipVersion == 6, aliasIpv6, reserved);
      if status != Success {
        return null;
      }
      tree := created;
    }

    /** The fixed records of a new tree. */
    method SetUpNew(aliases: bool, reserved: seq<Network>) returns (status: Status)
      requires Valid() && Contents() == Empty && target == null && (aliases ==> addressBytes == 16)
      requires forall n | n in reserved :: n.prefixLength <= 8 * |n.bytes| == Width()
      modifies this`shape, this`table, this`cache, this`target, Records(shape)
      ensures Valid() && Outcome(status, Contents()) == NewContents(addressBytes == 16, aliases, reserved)
      ensures forall r | r in Records(shape) :: r in old(Records(shape)) || fresh(r)
      ensures forall n | n in Nodes(shape) :: n in old(Nodes(shape)) || fresh(n)
      ensures old(Complete(table)) ==> Complete(table)
    {
      hide AliasedTree, Reserve, Sound, AliasesOk, Records, Nodes, Complete, Abs, Extends, Insert;
      if aliases {
        AliasIpv4Networks();
      }
      status := InsertNetworksAsFixedEmpty(reserved);
    }

    /** insert_networks_as_fixed_empty. */
    method InsertNetworksAsFixedEmpty(networks: seq<Network>) returns (status: Status)
      requires Valid() && forall n | n in networks :: n.prefixLength <= 8 * |n.bytes| == Width()
      modifies this`shape, this`table, this`cache, Records(shape)
      ensures Valid() && Outcome(status, Contents()) == Reserve(old(Contents()), networks)
      ensures Extends(old(shape), shape)
      ensures forall r | r in Records(shape) :: r in old(Records(shape)) || fresh(r)
      ensures forall n | n in Nodes(shape) :: n in old(Nodes(shape)) || fresh(n)
      ensures old(Complete(table)) ==> Complete(table)
    {
      hide Insert, Abs, Complete, Extends, Height, Records, Nodes, Remaining, AliasesOk, Sound, Represents, Allowed,
        Reserve;
      ghost var start := shape;
      ghost var records, nodes := Records(shape), Nodes(shape);
      ExtendsReflexive(shape);
      status := Success;
      var i := 0;
      while i < |networks|
        invariant 0 <= i <= |networks| && Valid() && status == Success
        invariant Reserve(Contents(), networks[i..]) == Reserve(old(Contents()), networks)
        invariant Extends(start, shape)
        invariant forall r | r in Records(shape) :: r in records || fresh(r)
        invariant forall n | n in Nodes(shape) :: n in nodes || fresh(n)
        invariant old(Complete(table)) ==> Complete(table)
      {
        ghost var was := shape;
        ReserveStep(Contents(), networks, i);
        assert networks[i] in networks;
        FixedEmptyFacts();
        status := InsertRecordForNetwork(networks[i], FixedEmptyRecord, Some(NoMerge), FixedEmpty, multiset{});
        AliasOkStays(was, Remaining(networks[i], 0), FixedEmpty, NoMerge);
        ExtendsTransitive(start, was, shape);
        if status != Success {
          return;
        }
        i := i + 1;
      }
      ReserveStep(Contents(), networks, i);
    }

    lemma FixedEmptyFacts()
      ensures Represents(FixedEmptyRecord, FixedEmpty, keyFor, target) && Allowed(FixedEmpty, NoMerge, false)
      ensures Height(FixedEmpty) == 0
    {
    }

    /** alias_ipv4_networks: one node serves ::/96 and every aliased network. */
    method AliasIpv4Networks()
      requires Valid() && Contents() == Empty && target == null && addressBytes == 16
      modifies this`shape, this`table, this`cache, this`target, Records(shape)
      ensures Valid() && Contents() == AliasedTree(3) && target != null
      ensures old(Complete(table)) ==> Complete(table)
      ensures forall r | r in Records(shape) :: r in old(Records(shape)) || fresh(r)
      ensures forall n | n in Nodes(shape) :: n in old(Nodes(shape)) || fresh(n)
    {
      hide Insert, Held, Abs, Linked, TableOk, Complete, CacheTruthful, Extends, WellFormed, Height, Remaining, Sound,
        Holds, FixedNodeAt, AliasSafe, AliasAt, Clear, Records, Nodes, PutAt, AliasesOk;
      ghost var was := shape;
      ghost var records, nodes := Records(shape), Nodes(shape);
      var ipv4RootNode := InsertIpv4Root();
      var n := 0;
      while n < |IPV4_ALIASES|
        invariant 0 <= n <= 3
        invariant Sound(multiset{}) && Contents() == AliasedTree(n) && target == ipv4RootNode
        invariant AliasesOk(shape, target, 128)
        invariant old(Complete(table)) ==> Complete(table)
        invariant forall r | r in Records(shape) :: r in records || fresh(r)
        invariant forall n | n in Nodes(shape) :: n in nodes || fresh(n)
      {
        AliasedTreeSetUp(n);
        InsertAlias(n, ipv4RootNode);
        n := n + 1;
      }
    }

    method InsertIpv4Root() returns (ipv4RootNode: TreeNode)
      requires Valid() && Contents() == Empty && target == null && addressBytes == 16
      modifies this`shape, this`table, this`cache, this`target, Records(shape)
      ensures Sound(multiset{}) && Contents() == AliasedTree(0) && target == ipv4RootNode
      ensures AliasesOk(shape, target, 128)
      ensures old(Complete(table)) ==> Complete(table)
      ensures forall r | r in Records(shape) :: r in old(Records(shape)) || fresh(r)
      ensures forall n | n in Nodes(shape) :: n in old(Nodes(shape)) || fresh(n)
    {
      hide Insert, Held, Abs, Linked, TableOk, Complete, CacheTruthful, Extends, WellFormed, Height, Remaining, Sound,
        Holds, FixedNodeAt, AliasSafe, AliasesOk, IsKeyFunction, Represents, Allowed, NewRecords, NewNodes, SubtreeAt;
      ShapeAllocated(shape);
      RootSetUp();
      RootPath();
      PlainHasNoFixed(shape, Ipv4Root(128));
      ipv4RootNode := new TreeNode(EmptyRecord, EmptyRecord);
      NewNodeFacts(ipv4RootNode);
      var status := InsertRecordForNetwork(IPV4_ROOT, FixedNodeRecord(ipv4RootNode), Some(NoMerge),
        FixedNode(Empty, Empty), multiset{});
      assert status == Success;
      Adopt(ipv4RootNode);
    }

    lemma NewNodeFacts(node: TreeNode)
      requires node.left != node.right && node.left.value == EmptyRecord && node.right.value == EmptyRecord
      ensures Height(FixedNode(Empty, Empty)) == 1 && Allowed(FixedNode(Empty, Empty), NoMerge, false)
      ensures Represents(FixedNodeRecord(node), FixedNode(Empty, Empty), keyFor, target)
      ensures NewRecords(FixedNodeRecord(node)) == {node.left, node.right} && NewNodes(FixedNodeRecord(node)) == {node}
    {
    }

    /** From here on aliases may point at the node at ::/96. */
    ghost method Adopt(node: TreeNode)
      requires Sound(multiset{}) && target == null && addressBytes == 16 && Contents() == AliasedTree(0)
      requires FixedNodeAt(shape, Ipv4Root(128)) != null ==> FixedNodeAt(shape, Ipv4Root(128)) == node
      modifies this`target
      ensures Sound(multiset{}) && target == node && AliasesOk(shape, target, 128)
    {
      hide Insert, Held, Linked, Holds, WellFormed, Height, TableOk, CacheTruthful, Abs, SubtreeAt, ThroughFixed,
        FixedNodeAt, NoAlias, IsKeyFunction, Skeleton, Trimmed, AliasesWithin, Clear, AliasAt, Records;
      RootSetUp();
      RootPath();
      FixedNodeIsThere(shape, Ipv4Root(128));
      NoAliasStays(Empty, Remaining(IPV4_ROOT, 0), false, FixedNode(Empty, Empty), NoMerge);
      Retarget(shape, keyFor, target, node);
      ShapeAllocated(shape);
      target := node;
    }

    method InsertAlias(n: nat, ipv4RootNode: TreeNode)
      requires n < 3 && Sound(multiset{}) && target == ipv4RootNode && AliasesOk(shape, target, 128)
      requires addressBytes == 16
      requires SetUp(Contents(), n)
      modifies this`shape, this`table, this`cache, Records(shape)
      ensures Sound(multiset{}) && AliasesOk(shape, target, 128)
      ensures Contents() == FixedStep(old(Contents()), IPV4_ALIASES[n], Alias).tree
      ensures old(Complete(table)) ==> Complete(table)
      ensures forall r | r in Records(shape) :: r in old(Records(shape)) || fresh(r)
      ensures forall n | n in Nodes(shape) :: n in old(Nodes(shape)) || fresh(n)
    {
      ghost var was := shape;
      AliasSetUp(Contents(), n);
      PathsApart();
      var status := InsertRecordForNetwork(IPV4_ALIASES[n], AliasRecord(ipv4RootNode), Some(NoMerge), Alias,
        multiset{});
      assert status == Success;
      ExtendsKeepsFixedNodes(was, shape, Ipv4Root(128));
    }

    /** insert_network: store the data, insert its key, and give the caller's count back; a croak skips the last
        part. */
    method InsertNetwork(network: Network, key: Key, data: Value, strategy: Option<Strategy>) returns (status: Status)
      requires Valid() && Fits(network) && key == keyFor(data)
      requires strategy.None? && mergeStrategy != NoMerge ==> Complete(table)
      requires strategy.Some? && strategy.value != NoMerge ==> Complete(table)
      modifies this`shape, this`table, this`cache, this`leaked, Records(shape)
      ensures Valid()
      ensures strategy.None? ==>
        && Outcome(status, Contents())
           == Insert(old(Contents()), Remaining(network, 0), false, Data(data), mergeStrategy)
        && leaked == old(leaked)
             + (if MismatchFirst(old(Contents()), Remaining(network, 0), Data(data), mergeStrategy, Width())
                then multiset{key} else multiset{})
      ensures strategy.Some? ==>
        && Outcome(status, Contents())
           == Insert(old(Contents()), Remaining(network, 0), false, Data(data), strategy.value)
        && leaked == old(leaked)
             + (if MismatchFirst(old(Contents()), Remaining(network, 0), Data(data), strategy.value, Width())
                then multiset{key} else multiset{})
      ensures Extends(old(shape), shape)
      ensures forall r | r in Records(shape) :: r in old(Records(shape)) || fresh(r)
      ensures forall n | n in Nodes(shape) :: n in old(Nodes(shape)) || fresh(n)
      ensures old(Complete(table)) ==> Complete(table)
    {
      hide Insert, Abs, Complete, Extends, Height, Records, Nodes, Remaining, AliasesOk, Sound, Represents, Allowed;
      ghost var was := shape;
      StoreForInsert(key, data);
      UserRecordFacts(data, Effective(strategy));
      status := InsertRecordForNetwork(network, DataRecord(key), strategy, Data(data), multiset{key});
      AliasOkStays(was, Remaining(network, 0), Data(data), Effective(strategy));
      assert multiset{key} - multiset{key} == multiset{};
      FinishInsert(key, status);
      UserInsertMismatch(Abs(was), network, data, Effective(strategy));
    }

    lemma UserInsertMismatch(t: Tree, network: Network, data: Value, s: Strategy)
      requires WellFormed(t) && Height(t) <= Width() && Fits(network)
      ensures Insert(t, Remaining(network, 0), false, Data(data), s).status == MergeMismatch
         <==> MismatchFirst(t, Remaining(network, 0), Data(data), s, Width())
    {
      MismatchIff(t, Remaining(network, 0), Data(data), s, Width());
    }

    /** insert_range: None where the first address comes after the last one. */
    method InsertRange(startBytes: Bytes, endBytes: Bytes, key: Key, data: Value, strategy: Option<Strategy>)
        returns (status: Option<Status>)
      requires Valid() && |startBytes| == addressBytes && |endBytes| == addressBytes && key == keyFor(data)
      requires strategy.None? && mergeStrategy != NoMerge ==> Complete(table)
      requires strategy.Some? && strategy.value != NoMerge ==> Complete(table)
      modifies this`shape, this`table, this`cache, this`leaked, Records(shape)
      ensures Valid()
      ensures status.None? <==> BytesToInt(startBytes) > BytesToInt(endBytes)
      ensures status.None? ==> Contents() == old(Contents()) && table == old(table)
      ensures status.None? ==> leaked == old(leaked)
      ensures status.Some? ==> BytesToInt(endBytes) < Pow2(Width())
      ensures status.Some? && strategy.None? ==>
        var first, last := BytesToInt(startBytes), BytesToInt(endBytes);
        && Outcome(status.value, Contents())
           == RangeOutcome(old(Contents()), first, last, Data(data), mergeStrategy, Width())
        && leaked == old(leaked)
             + (if RangeLeaks(old(Contents()), first, last, data, mergeStrategy, Width())
                then multiset{key} else multiset{})
      ensures status.Some? && strategy.Some? ==>
        var first, last := BytesToInt(startBytes), BytesToInt(endBytes);
        && Outcome(status.value, Contents())
           == RangeOutcome(old(Contents()), first, last, Data(data), strategy.value, Width())
        && leaked == old(leaked)
             + (if RangeLeaks(old(Contents()), first, last, data, strategy.value, Width())
                then multiset{key} else multiset{})
      ensures Extends(old(shape), shape)
      ensures forall r | r in Records(shape) :: r in old(Records(shape)) || fresh(r)
      ensures forall n | n in Nodes(shape) :: n in old(Nodes(shape)) || fresh(n)
      ensures old(Complete(table)) ==> Complete(table)
    {
      hide Insert, Abs, Complete, Extends, Records, Nodes, AliasesOk, Sound, Pow2, RangeOutcome, NextStart, ReverseMask,
        IsLargest, BytesToInt, BlockPath, WellFormed, Height, RangeLeaks;
      ShapeAllocated(shape);
      SizeFacts(multiset{});
      var start := IpBytesToInteger(startBytes);
      var end := IpBytesToInteger(endBytes);
      ExtendsReflexive(shape);
      status := None;
      if start <= end {
        BytesOfInt(startBytes);
        BytesOfInt(endBytes);
        RangeLeaksIff(Contents(), start, end, data, Effective(strategy), Width());
        var inserted := InsertRangeBlocks(start, end, key, data, strategy);
        status := Some(inserted);
      }
    }

    /** The loop of insert_range, with the counting around it. */
    method InsertRangeBlocks(first: nat, end: nat, key: Key, data: Value, strategy: Option<Strategy>)
        returns (status: Status)
      requires Valid() && first <= end < Pow2(Width()) && key == keyFor(data)
      requires Effective(strategy) != NoMerge ==> Complete(table)
      modifies this`shape, this`table, this`cache, this`leaked, Records(shape)
      ensures Valid()
      ensures Outcome(status, Contents())
        == RangeOutcome(old(Contents()), first, end, Data(data), Effective(strategy), Width())
      ensures leaked == old(leaked) + (if status == MergeMismatch then multiset{key} else multiset{})
      ensures Extends(old(shape), shape)
      ensures forall r | r in Records(shape) :: r in old(Records(shape)) || fresh(r)
      ensures forall n | n in Nodes(shape) :: n in old(Nodes(shape)) || fresh(n)
      ensures old(Complete(table)) ==> Complete(table)
    {
      hide Insert, Abs, Complete, Extends, Records, Nodes, AliasesOk, Sound, Pow2, RangeOutcome, NextStart, ReverseMask,
        IsLargest, BlockPath;
      ghost var records, nodes, began := Records(shape), Nodes(shape), shape;
      ghost var s, w := Effective(strategy), Width();
      ghost var all := RangeOutcome(Contents(), first, end, Data(data), s, w);
      ExtendsReflexive(shape);
      SizeFacts(multiset{});
      var start := first;
      StoreForInsert(key, data);
      status := Success;
      while start <= end
        invariant Sound(multiset{key}) && AliasesOk(shape, target, w) && status == Success && leaked == old(leaked)
        invariant RangeOutcome(Contents(), start, end, Data(data), s, w) == all
        invariant Extends(began, shape)
        invariant forall r | r in Records(shape) :: r in records || fresh(r)
        invariant forall n | n in Nodes(shape) :: n in nodes || fresh(n)
        invariant old(Complete(table)) ==> Complete(table)
        decreases end + 1 - start
      {
        ghost var was := shape;
        ShapeAllocated(shape);
        var largest := PrefixLengthForLargestSubnet(start, end, 8 * addressBytes);
        var (prefixLength, reverseMask) := largest.value;
        RangeStep(Contents(), start, end, Data(data), s, w, w - prefixLength);
        status := InsertRangeBlock(start, prefixLength, key, data, strategy);
        ExtendsTransitive(began, was, shape);
        if status != Success {
          break;
        }
        start := NextStart(start, reverseMask);
        if start == 0 {
          break;
        }
      }
      if start > end { RangeDone(Contents(), start, end, Data(data), s, w); }
      FinishInsert(key, status);
    }

    lemma SizeFacts(extra: multiset<Key>)
      requires Sound(extra)
      ensures Width() == 8 * addressBytes && (Width() == 32 || Width() == 128)
      ensures WellFormed(Contents()) && Height(Contents()) <= Width()
    {
    }

    /** One turn of the loop: the network that starts at `start`. */
    method InsertRangeBlock(start: nat, prefixLength: nat, key: Key, data: Value, strategy: Option<Strategy>)
        returns (status: Status)
      requires Sound(multiset{key}) && AliasesOk(shape, target, Width()) && prefixLength <= Width()
      requires key == keyFor(data)
      requires Effective(strategy) != NoMerge ==> Complete(table)
      modifies this`shape, this`table, this`cache, Records(shape)
      ensures Sound(if status == MergeNotHashes then multiset{} else multiset{key}) && AliasesOk(shape, target, Width())
      ensures Outcome(status, Contents())
           == Insert(old(Contents()), BlockPath(Block(start, prefixLength), Width()), false, Data(data),
             Effective(strategy))
      ensures Extends(old(shape), shape)
      ensures forall r | r in Records(shape) :: r in old(Records(shape)) || fresh(r)
      ensures forall n | n in Nodes(shape) :: n in old(Nodes(shape)) || fresh(n)
      ensures old(Complete(table)) ==> Complete(table)
    {
      hide Insert, Abs, Complete, Extends, Height, Records, Nodes, Remaining, AliasesOk, Sound, Represents, Allowed,
        BlockPath;
      ghost var was := shape;
      ShapeAllocated(shape);
      var bytes := IntegerToIpBytes(start, addressBytes);
      NetworkPath(start, addressBytes, prefixLength);
      UserRecordFacts(data, Effective(strategy));
      status := InsertRecordForNetwork(Network(bytes, prefixLength), DataRecord(key), strategy, Data(data),
        multiset{key});
      AliasOkStays(was, Remaining(Network(bytes, prefixLength), 0), Data(data), Effective(strategy));
      assert multiset{key} - multiset{key} == multiset{};
    }

    /** The caller's count is given back, unless a croak jumped over that. */
    method FinishInsert(key: Key, status: Status)
      requires Sound(if status == MergeNotHashes then multiset{} else multiset{key})
      modifies this`table, this`leaked
      ensures Sound(multiset{}) && (old(Complete(table)) ==> Complete(table))
      ensures leaked == old(leaked) + (if status == MergeMismatch then multiset{key} else multiset{})
    {
      hide Sound, Complete;
      if status == MergeMismatch {
        Leak(key);
      } else if status != MergeNotHashes {
        ReleaseAfterInsert(key);
      }
    }

    /** Inserting one frozen network: its data is not known yet. The key is counted while the insert runs. */
    method InsertThawed(start: nat, depth: nat, key: Key, ghost data: Value) returns (status: Status)
      requires Valid() && depth <= Width() && key == keyFor(data)
      modifies this`shape, this`table, this`cache, Records(shape)
      ensures Valid()
      ensures Outcome(status, Contents())
        == Insert(old(Contents()), BlockPath(Block(start, depth), Width()), false, Data(data), NoMerge)
      ensures Extends(old(shape), shape)
      ensures forall r | r in Records(shape) :: r in old(Records(shape)) || fresh(r)
      ensures forall n | n in Nodes(shape) :: n in old(Nodes(shape)) || fresh(n)
    {
      hide Insert, Abs, Complete, Extends, Height, Records, Nodes, Remaining, AliasesOk, Sound, Represents, Allowed,
        BlockPath, Held;
      ghost var was := shape;
      ShapeAllocated(shape);
      var bytes := IntegerToIpBytes(start, addressBytes);
      NetworkPath(start, addressBytes, depth);
      CountForInsert(key);
      OverwriteNeverCroaks(Contents(), Remaining(Network(bytes, depth), 0), false, Data(data));
      UserRecordFacts(data, NoMerge);
      status := InsertRecordForNetwork(Network(bytes, depth), DataRecord(key), Some(NoMerge), Data(data),
        multiset{key});
      AliasOkStays(was, Remaining(Network(bytes, depth), 0), Data(data), NoMerge);
      assert multiset{key} - multiset{key} == multiset{};
      ReleaseAfterInsert(key);
    }

    /** remove_network: insert an empty record, overwriting. */
    method RemoveNetwork(network: Network) returns (status: Status)
      requires Valid() && Fits(network)
      modifies this`shape, this`table, this`cache, Records(shape)
      ensures Valid()
      ensures Outcome(status, Contents()) == Insert(old(Contents()), Remaining(network, 0), false, Empty, NoMerge)
      ensures Extends(old(shape), shape)
      ensures forall r | r in Records(shape) :: r in old(Records(shape)) || fresh(r)
      ensures forall n | n in Nodes(shape) :: n in old(Nodes(shape)) || fresh(n)
      ensures old(Complete(table)) ==> Complete(table)
    {
      hide Insert, Abs, Complete, Extends, Height, Records, Nodes, Remaining, AliasesOk, Sound, Represents, Allowed;
      ghost var was := shape;
      UserRecordFacts(Scalar([]), NoMerge);
      status := InsertRecordForNetwork(network, EmptyRecord, Some(NoMerge), Empty, multiset{});
      AliasOkStays(was, Remaining(network, 0), Empty, NoMerge);
    }

    /** find_record_for_network, for a full address: an alias continues below the node it points at. */
    method FindRecordForNetwork(bytes: Bytes) returns (record: Record, ghost at: Shape)
      requires Valid() && |bytes| == addressBytes
      ensures record == at.rec && Linked(at) && Holds(at, keyFor, target) && Records(at) <= Records(shape)
      ensures Abs(at) == Lookup(Contents(), AddressBits(bytes))
    {
      hide Linked, Records, Held, Holds, Abs, ShapeAt, Follow, SubtreeAt, NetworkBit, TableOk, CacheTruthful,
        WellFormed, Height, AliasesOk;
      ghost var a := AddressBits(bytes);
      ghost var ipv4 := ShapeAt(shape, Ipv4Root(Width()));
      if target != null {
        Ipv4Shape();
      }
      assert target != null ==>
        ipv4.Inner? && ipv4.node == target && Linked(ipv4) && Holds(ipv4, keyFor, target)
          && Records(ipv4) <= Records(shape)
        && Abs(ipv4) == SubtreeAt(Contents(), Ipv4Root(Width()));
      record, at := root, shape;
      var bit := 0;
      while bit < 8 * |bytes|
        invariant 0 <= bit <= 8 * |bytes|
        invariant record == at.rec && Linked(at) && Holds(at, keyFor, target) && Records(at) <= Records(shape)
        invariant target != null ==> Holds(ipv4, keyFor, target)
        invariant Follow(Abs(at), SubtreeAt(Contents(), Ipv4Root(Width())), a[bit..]) == Lookup(Contents(), a)
      {
        TopRecord(at, keyFor, target);
        FollowBit(Abs(at), SubtreeAt(Contents(), Ipv4Root(Width())), a[bit..]);
        if !(record.value.NodeRecord? || record.value.FixedNodeRecord? || record.value.AliasRecord?) {
          assert Abs(at) == Lookup(Contents(), a);
          return;
        }
        var node := record.value.node;
        ghost var below := if record.value.AliasRecord? then ipv4 else at;
        LinkedParts(below, keyFor, target);
        assert a[bit..][1..] == a[bit + 1..];
        if NetworkBit(bytes, bit) {
          record, at := node.right, below.right;
        } else {
          record, at := node.left, below.left;
        }
        bit := bit + 1;
      }
      FollowNothing(Abs(at), SubtreeAt(Contents(), Ipv4Root(Width())), a[bit..]);
    }

    /** data_for_key: undef when the key is unknown. */
    method DataForKey(key: Key) returns (data: Option<Value>)
      ensures data == if key in table then table[key].data else None
    {
      data := if key in table then table[key].data else None;
    }

    /** lookup_ip_address; its croak for a node or alias record cannot be reached. */
    method LookupIpAddress(bytes: Bytes) returns (data: Option<Value>)
      requires Valid() && |bytes| == addressBytes && Complete(table)
      ensures var record := Lookup(Contents(), AddressBits(bytes));
        data == if record.Data? then Some(record.v) else None
    {
      ghost var a := AddressBits(bytes);
      var record;
      ghost var at;
      record, at := FindRecordForNetwork(bytes);
      TopRecord(at, keyFor, target);
      LookupEndsOnLeaf(Contents(), Width(), a);
      assert !record.value.NodeRecord? && !record.value.FixedNodeRecord? && !record.value.AliasRecord?;
      if record.value.EmptyRecord? || record.value.FixedEmptyRecord? {
        return None;
      }
      FoundIsHeld(Contents(), SubtreeAt(Contents(), Ipv4Root(Width())), a, keyFor);
      SubtreeHeld(Contents(), Ipv4Root(Width()), keyFor);
      data := DataForKey(record.value.key);
    }

    /** free_tree: every owned record is released, and its final croak is for leaked keys only. */
    method FreeTree() returns (leftInTable: nat)
      requires Valid()
      modifies this`table, this`cache
      ensures leftInTable == |table| && TableOk(leaked) && cache == map[]
      ensures leftInTable == 0 <==> leaked == multiset{}
    {
      FreesEverything(Contents());
      ReleasesOnlyHeld(Contents(), true, keyFor);
      ghost var held := Held(Contents(), keyFor) + leaked + multiset{};
      var status := FreeRecordValue(root, true, shape, target, held);
      assert held - Held(Contents(), keyFor) == leaked;
      cache := map[];
      leftInTable := |table|;
      if leaked != multiset{} {
        var k :| k in leaked;
        assert k in table;
      } else {
        assert table.Keys == {};
      }
    }

    /** The node that aliases point at is part of the tree. */
    lemma Ipv4Shape()
      requires Valid() && target != null
      ensures var s := ShapeAt(shape, Ipv4Root(Width()));
        && s.Inner? && s.node == target && Abs(s) == SubtreeAt(Contents(), Ipv4Root(Width()))
        && Linked(s) && Holds(s, keyFor, target) && Records(s) <= Records(shape)
    {
      ShapeAtFixed(shape, Ipv4Root(Width()), keyFor, target);
    }

    method StoreForInsert(key: Key, data: Value)
      requires Sound(multiset{}) && key == keyFor(data)
      modifies this`table
      ensures Sound(multiset{key}) && (old(Complete(table)) ==> Complete(table))
    {
      ghost var held := Held(Contents(), keyFor) + leaked;
      ShapeAllocated(shape);
      CountExtra(held, key);
      StoreDataInTree(key, data, held + multiset{});
    }

    /** set_stored_data_in_tree: false where it croaks. */
    method SetData(key: Key, data: Value) returns (ok: bool)
      requires Valid() && keyFor(data) == key
      modifies this`table
      ensures Valid() && table.Keys == old(table).Keys
      ensures ok <==> key in old(table)
      ensures ok ==> table[key].data == Some(data)
      ensures forall k | k in old(table) && k != key :: table[k] == old(table)[k]
    {
      hide Linked, Holds, Records, Height, WellFormed, AliasesOk, CacheTruthful;
      ShapeAllocated(shape);
      ok := SetStoredData(key, data, Held(Contents(), keyFor) + leaked + multiset{});
      if ok {
        assert keyFor(table[key].data.value) == key;
      }
    }

    method CountForInsert(key: Key)
      requires Sound(multiset{})
      modifies this`table
      ensures Sound(multiset{key})
    {
      ghost var held := Held(Contents(), keyFor) + leaked;
      ShapeAllocated(shape);
      CountExtra(held, key);
      IncrementDataReferenceCount(key, held + multiset{});
    }

    method ReleaseAfterInsert(key: Key)
      requires Sound(multiset{key})
      modifies this`table
      ensures Sound(multiset{}) && (old(Complete(table)) ==> Complete(table))
    {
      ghost var held := Held(Contents(), keyFor) + leaked;
      ShapeAllocated(shape);
      CountExtra(held, key);
      DecrementDataReferenceCount(key, held + multiset{key});
    }

    ghost method Leak(key: Key)
      requires Sound(multiset{key})
      modifies this`leaked
      ensures Sound(multiset{}) && leaked == old(leaked) + multiset{key}
    {
      ShapeAllocated(shape);
      CountLeak(Held(Contents(), keyFor), leaked, key);
      leaked := leaked + multiset{key};
    }

    lemma UserRecordFacts(data: Value, s: Strategy)
      ensures Represents(DataRecord(keyFor(data)), Data(data), keyFor, target) && Allowed(Data(data), s, false)
      ensures Represents(EmptyRecord, Empty, keyFor, target) && Allowed(Empty, s, false)
      ensures Height(Data(data)) == 0 && Height(Empty) == 0
    {
    }

    /** What an insert below `shape` may rely on. */
    ghost predicate Ready(shape: Shape, network: Network, bit: nat, value: RecordValue, s: Strategy,
                          newTree: Tree, target: TreeNode?, held: multiset<Key>)
      reads Records(shape), NewRecords(value), this`table, this`cache
    {
      && IsKeyFunction(keyFor) && TableOk(held) && CacheTruthful(cache, keyFor)
      && Linked(shape) && Holds(shape, keyFor, target) && WellFormed(Abs(shape))
      && network.prefixLength <= 8 * |network.bytes| && bit + Height(Abs(shape)) <= 8 * |network.bytes|
      && Represents(value, newTree, keyFor, target) && Allowed(newTree, s, bit > network.prefixLength)
      && NewRecords(value) !! Records(shape) && NewNodes(value) !! Nodes(shape)
      && Pending(held, Held(Abs(shape), keyFor), value)
      && (s != NoMerge ==> Complete(table))
      && (target == null ==> !newTree.Alias?)
    }

    /** insert_record_into_next_node. */
    method InsertRecordIntoNextNode(rec: Record, network: Network, bit: nat, value: RecordValue, s: Strategy,
                                    ghost shape: Shape, ghost newTree: Tree, ghost target: TreeNode?,
                                    ghost held: multiset<Key>)
        returns (status: Status, ghost after: Shape)
      requires rec == shape.rec && Ready(shape, network, bit, value, s, newTree, target, held)
      modifies Records(shape), this`table, this`cache
      ensures Outcome(status, Abs(after))
        == Insert(Abs(shape), Remaining(network, bit), bit > network.prefixLength, newTree, s)
      ensures PutAt(value, shape, after, Remaining(network, bit))
      ensures after.rec == rec && Linked(after) && Holds(after, keyFor, target) && Extends(shape, after)
      ensures forall r | r in Records(after) :: r in Records(shape) || r in NewRecords(value) || fresh(r)
      ensures forall n | n in Nodes(after) :: n in Nodes(shape) || n in NewNodes(value) || fresh(n)
      ensures TableOk(Recount(held, Held(Abs(shape), keyFor), Held(Abs(after), keyFor), status, value))
      ensures CacheTruthful(cache, keyFor)
      ensures old(Complete(table)) ==> Complete(table)
      decreases 8 * |network.bytes| - bit, 1
    {
      hide TableOk, Complete, CacheTruthful, Held, Records, Nodes, Holds, Linked, Abs, Insert, Combine, Place, LeftCall,
        RightCall, PutAt, Ready, Pending, Represents, Allowed, NewRecords, NewNodes, Height, WellFormed;
      ReadyParts(shape, network, bit, value, s, newTree, target, held);
      PutAtSame(value, shape, Remaining(network, bit));
      NothingNewTwice(value, newTree, s, target);
      ghost var p := Remaining(network, bit);
      ghost var past := bit > network.prefixLength;
      InsertCases(Abs(shape), p, past, newTree, s);
      TopRecord(shape, keyFor, target);
      ExtendsReflexive(shape);
      RecountUnchanged(held, Held(Abs(shape), keyFor), value);
      NodeMatters(shape);
      status, after := Success, shape;
      if bit >= network.prefixLength
        && (rec.value.EmptyRecord? || rec.value.DataRecord? || (rec.value.NodeRecord? && s == NoMerge)) {
        status, after := InsertRecordIntoCurrentRecord(rec, value, s, shape, newTree, target, held);
      } else if bit == network.prefixLength && rec.value.FixedNodeRecord? && value.FixedNodeRecord? {
        status := FixedNodeOverwriteAttempt;
      } else if rec.value.FixedEmptyRecord? {
        status := Success;
      } else if rec.value.AliasRecord? {
        status := if bit == network.prefixLength then AliasOverwriteAttempt
                  else if bit > network.prefixLength then Success
                  else InsertIntoAliasNode;
      } else {
        status, after := InsertBelow(rec, network, bit, value, s, shape, newTree, target, held);
      }
    }

    /** The rest of insert_record_into_next_node: find or make the next node, descend, trim. */
    method InsertBelow(rec: Record, network: Network, bit: nat, value: RecordValue, s: Strategy,
                       ghost shape: Shape, ghost newTree: Tree, ghost target: TreeNode?, ghost held: multiset<Key>)
        returns (status: Status, ghost after: Shape)
      requires rec == shape.rec && Ready(shape, network, bit, value, s, newTree, target, held)
      requires !Stops(Abs(shape), Remaining(network, bit), bit > network.prefixLength, newTree, s)
      modifies Records(shape), this`table, this`cache
      ensures var p := Remaining(network, bit);
        Outcome(status, Abs(after)) == Combine(Abs(shape).FixedNode? || IsFixed(newTree), LeftOf(Abs(shape)),
                                               LeftCall(Abs(shape), p, newTree, s),
                                               RightCall(Abs(shape), p, newTree, s))
      ensures PutAt(value, shape, after, Remaining(network, bit))
      ensures after.rec == rec && Linked(after) && Holds(after, keyFor, target) && Extends(shape, after)
      ensures forall r | r in Records(after) :: r in Records(shape) || r in NewRecords(value) || fresh(r)
      ensures forall n | n in Nodes(after) :: n in Nodes(shape) || n in NewNodes(value) || fresh(n)
      ensures TableOk(Recount(held, Held(Abs(shape), keyFor), Held(Abs(after), keyFor), status, value))
      ensures CacheTruthful(cache, keyFor)
      ensures old(Complete(table)) ==> Complete(table)
      decreases 8 * |network.bytes| - bit, 0, 5
    {
      hide Combine, Trim, LeftCall, RightCall, Untrimmed, Insert, Stops, Held, Abs, Holds, Linked, TableOk, Complete,
        CacheTruthful, Ready, Recount, Pending, Extends, Records, Nodes, NewRecords, NewNodes, Represents, Remaining,
        PutAt, NothingPut, Allowed;
      ghost var before := Held(Abs(shape), keyFor);
      ReadyParts(shape, network, bit, value, s, newTree, target, held);
      NothingNewTwice(value, newTree, s, target);
      var node: TreeNode;
      ghost var mid;
      node, mid := OpenRecord(rec, network, bit, value, s, shape, newTree, target, held);
      ghost var heldMid := held - before + Held(Abs(mid), keyFor);
      ReadyParts(mid, network, bit, value, s, newTree, target, heldMid);
      LinkedParts(mid, keyFor, target);
      status, after := InsertAndTrim(rec, node, network, bit, value, s, mid, newTree, target, heldMid);
      PutAtThrough(value, shape, mid, after, Remaining(network, bit));
      CombineIsTrim(mid.fixed, Abs(shape), Abs(mid), Remaining(network, bit), newTree, s);
      RecountThrough(held, before, Held(Abs(mid), keyFor), Held(Abs(after), keyFor), status, value);
      ExtendsTransitive(shape, mid, after);
    }

    method InsertAndTrim(rec: Record, node: TreeNode, network: Network, bit: nat, value: RecordValue, s: Strategy,
                         ghost shape: Shape, ghost newTree: Tree, ghost target: TreeNode?, ghost held: multiset<Key>)
        returns (status: Status, ghost after: Shape)
      requires shape.Inner? && rec == shape.rec && node == shape.node
      requires Ready(shape, network, bit, value, s, newTree, target, held)
      requires bit >= network.prefixLength ==> Allowed(newTree, s, true)
      requires IsFixed(newTree) ==> shape.fixed
      modifies Records(shape), this`table, this`cache
      ensures var p := Remaining(network, bit);
        var u := Untrimmed(shape.fixed, Abs(shape.left), LeftCall(Abs(shape), p, newTree, s),
          RightCall(Abs(shape), p, newTree, s));
        Outcome(status, Abs(after)) == if u.status == Success then Outcome(Success, Trim(u.tree)) else u
      ensures PutAt(value, shape, after, Remaining(network, bit))
      ensures after.rec == rec && Linked(after) && Holds(after, keyFor, target) && Extends(shape, after)
      ensures forall r | r in Records(after) :: r in Records(shape) || r in NewRecords(value) || fresh(r)
      ensures forall n | n in Nodes(after) :: n in Nodes(shape) || n in NewNodes(value) || fresh(n)
      ensures TableOk(Recount(held, Held(Abs(shape), keyFor), Held(Abs(after), keyFor), status, value))
      ensures CacheTruthful(cache, keyFor)
      ensures old(Complete(table)) ==> Complete(table)
      decreases 8 * |network.bytes| - bit, 0, 4
    {
      hide Combine, Trim, LeftCall, RightCall, Untrimmed, Insert, Stops, Held, Abs, Holds, Linked, TableOk, Complete,
        CacheTruthful, Ready, Recount, Pending, Extends, Records, Nodes, NewRecords, NewNodes, Represents, Remaining,
        PutAt, Allowed;
      ghost var before := Held(Abs(shape), keyFor);
      ReadyParts(shape, network, bit, value, s, newTree, target, held);
      NothingNewTwice(value, newTree, s, target);
      TopRecord(shape, keyFor, target);
      status, after := InsertIntoChildren(node, network, bit, value, s, shape, newTree, target, held);
      if status == Success {
        ghost var joined := Held(Abs(after), keyFor);
        RecountThrough(held, before, before, joined, Success, value);
        ghost var trimmed := TrimRecord(rec, node, after, target, Recount(held, before, joined, Success, value));
        RecountTrim(held, before, joined, Held(Abs(trimmed), keyFor), value);
        ExtendsTransitive(shape, after, trimmed);
        PutAtTrimmed(value, shape, after, trimmed, Remaining(network, bit));
        after := trimmed;
      }
    }

    /** A node with the children of `shape` is ready for the descent. */
    lemma MidReady(mid: Shape, network: Network, bit: nat, value: RecordValue, s: Strategy,
                   newTree: Tree, target: TreeNode?, held: multiset<Key>, t: Tree, before: multiset<Key>)
      requires mid.Inner? && Linked(mid) && Holds(mid, keyFor, target)
      requires mid.fixed == (t.FixedNode? || IsFixed(newTree)) && Abs(mid.left) == LeftOf(t)
      requires Abs(mid.right) == RightOf(t)
      requires network.prefixLength <= 8 * |network.bytes| && bit + Height(t) <= 8 * |network.bytes|
      requires WellFormed(t) && !Stops(t, Remaining(network, bit), bit > network.prefixLength, newTree, s)
      requires IsKeyFunction(keyFor) && CacheTruthful(cache, keyFor)
      requires Represents(value, newTree, keyFor, target) && Allowed(newTree, s, bit > network.prefixLength)
      requires NewRecords(value) !! Records(mid) && NewNodes(value) !! Nodes(mid)
      requires Pending(held, before, value) && TableOk(held - before + Held(Abs(mid), keyFor))
      requires (s != NoMerge ==> Complete(table)) && (target == null ==> !newTree.Alias?)
      ensures Ready(mid, network, bit, value, s, newTree, target, held - before + Held(Abs(mid), keyFor))
      ensures bit >= network.prefixLength ==> Allowed(newTree, s, true)
    {
      hide Linked, Holds, Records, Nodes, Held, Abs, WellFormed, Height, TableOk, Complete, CacheTruthful,
        IsKeyFunction, Represents, NewRecords, NewNodes, Plain, Ready;
      LinkedParts(mid, keyFor, target);
      OpenedTree(t, mid.fixed, Abs(mid));
      DescentMayGoOn(t, Remaining(network, bit), bit > network.prefixLength, newTree, s);
      SwapTwice(held, before, Held(Abs(mid), keyFor), multiset{});
      ReadyAgain(mid, network, bit, value, s, newTree, target, held - before + Held(Abs(mid), keyFor));
    }

    /** What is ready is ready one bit further down. */
    lemma ReadyChildren(shape: Shape, network: Network, bit: nat, value: RecordValue, s: Strategy,
                        newTree: Tree, target: TreeNode?, held: multiset<Key>)
      requires shape.Inner? && Ready(shape, network, bit, value, s, newTree, target, held)
      requires bit >= network.prefixLength ==> Allowed(newTree, s, true)
      ensures bit < 8 * |network.bytes|
      ensures Pending(held, Held(Abs(shape.left), keyFor) + Held(Abs(shape.right), keyFor), value)
      ensures Ready(shape.left, network, bit + 1, value, s, newTree, target, held)
      ensures Ready(shape.right, network, bit + 1, value, s, newTree, target, held)
    {
      hide Ready, Linked, Holds, Records, Nodes, Held, Abs, WellFormed, Height, TableOk, Complete, CacheTruthful,
        IsKeyFunction, Represents, NewRecords, NewNodes, Pending, Allowed;
      ReadyParts(shape, network, bit, value, s, newTree, target, held);
      LinkedParts(shape, keyFor, target);
      NodeChildren(Abs(shape));
      var l, r := Held(Abs(shape.left), keyFor), Held(Abs(shape.right), keyFor);
      RecountRight(held, l, r, multiset{}, Success, value);
      assert l + r == r + l;
      RecountRight(held, r, l, multiset{}, Success, value);
      AllowedBelow(newTree, s, bit, network);
      ReadyAgain(shape.left, network, bit + 1, value, s, newTree, target, held);
      ReadyAgain(shape.right, network, bit + 1, value, s, newTree, target, held);
    }

    lemma AllowedBelow(newTree: Tree, s: Strategy, bit: nat, network: Network)
      requires Allowed(newTree, s, bit > network.prefixLength)
      requires bit >= network.prefixLength ==> Allowed(newTree, s, true)
      ensures Allowed(newTree, s, bit + 1 > network.prefixLength)
    {
    }

    lemma ReadyParts(shape: Shape, network: Network, bit: nat, value: RecordValue, s: Strategy,
                     newTree: Tree, target: TreeNode?, held: multiset<Key>)
      requires Ready(shape, network, bit, value, s, newTree, target, held)
      ensures IsKeyFunction(keyFor) && TableOk(held) && CacheTruthful(cache, keyFor)
      ensures Pending(held, Held(Abs(shape), keyFor), value) && shape.rec in Records(shape)
      ensures Linked(shape) && Holds(shape, keyFor, target) && WellFormed(Abs(shape))
      ensures network.prefixLength <= 8 * |network.bytes| && bit + Height(Abs(shape)) <= 8 * |network.bytes|
      ensures Represents(value, newTree, keyFor, target) && Allowed(newTree, s, bit > network.prefixLength)
      ensures NewRecords(value) !! Records(shape) && NewNodes(value) !! Nodes(shape)
      ensures (s != NoMerge ==> Complete(table)) && (target == null ==> !newTree.Alias?)
    {
    }

    /** Ready, from its parts. */
    lemma ReadyAgain(shape: Shape, network: Network, bit: nat, value: RecordValue, s: Strategy,
                     newTree: Tree, target: TreeNode?, held: multiset<Key>)
      requires IsKeyFunction(keyFor) && TableOk(held) && CacheTruthful(cache, keyFor)
      requires Linked(shape) && Holds(shape, keyFor, target) && WellFormed(Abs(shape))
      requires network.prefixLength <= 8 * |network.bytes| && bit + Height(Abs(shape)) <= 8 * |network.bytes|
      requires Represents(value, newTree, keyFor, target) && Allowed(newTree, s, bit > network.prefixLength)
      requires NewRecords(value) !! Records(shape) && NewNodes(value) !! Nodes(shape)
      requires Pending(held, Held(Abs(shape), keyFor), value)
      requires (s != NoMerge ==> Complete(table)) && (target == null ==> !newTree.Alias?)
      ensures Ready(shape, network, bit, value, s, newTree, target, held)
    {
    }

    lemma NodeMatters(shape: Shape)
      requires WellFormed(Abs(shape))
      ensures Abs(shape).Node? || IsUserRecord(Abs(shape)) ==> Plain(Abs(shape))
    {
    }

    /** A new fixed node is never put into two places. */
    lemma NothingNewTwice(value: RecordValue, newTree: Tree, s: Strategy, target: TreeNode?)
      requires Represents(value, newTree, keyFor, target)
      ensures Allowed(newTree, s, true) ==> NewRecords(value) == {} && NewNodes(value) == {} && !value.FixedNodeRecord?
      ensures value.FixedNodeRecord? <==> newTree.FixedNode?
    {
    }

    /** The next node: the one that is there, or a new one; on the way to a fixed record it becomes fixed. */
    method OpenRecord(rec: Record, network: Network, bit: nat, value: RecordValue, s: Strategy,
                      ghost shape: Shape, ghost newTree: Tree, ghost target: TreeNode?, ghost held: multiset<Key>)
        returns (node: TreeNode, ghost mid: Shape)
      requires rec == shape.rec && Ready(shape, network, bit, value, s, newTree, target, held)
      requires !Stops(Abs(shape), Remaining(network, bit), bit > network.prefixLength, newTree, s)
      modifies rec, this`table
      ensures mid.Inner? && mid.rec == rec && mid.node == node
      ensures mid.fixed == (Abs(shape).FixedNode? || IsFixed(newTree))
      ensures Abs(mid.left) == LeftOf(Abs(shape)) && Abs(mid.right) == RightOf(Abs(shape))
      ensures forall r | r in Records(mid) :: r in Records(shape) || fresh(r)
      ensures forall n | n in Nodes(mid) :: n in Nodes(shape) || fresh(n)
      ensures Extends(shape, mid) && NothingPut(shape, mid, Remaining(network, bit))
      ensures Ready(mid, network, bit, value, s, newTree, target,
        held - Held(Abs(shape), keyFor) + Held(Abs(mid), keyFor))
      ensures bit >= network.prefixLength ==> Allowed(newTree, s, true)
      ensures old(Complete(table)) ==> Complete(table)
    {
      hide TableOk, Complete, CacheTruthful, Held, Records, Nodes, Holds, Linked;
      mid := shape;
      TopRecord(shape, keyFor, target);
      ExtendsReflexive(shape);
      RecountUnchanged(held, Held(Abs(shape), keyFor), value);
      if rec.value.EmptyRecord? || rec.value.DataRecord? {
        node, mid := SplitRecord(rec, shape, target, held);
      } else {
        node := rec.value.node;
      }
      if value.AliasRecord? || value.FixedNodeRecord? || value.FixedEmptyRecord? {
        mid := MarkFixed(rec, node, mid, target);
      }
      MidPutsNothing(shape, mid, Remaining(network, bit));
      MidReady(mid, network, bit, value, s, newTree, target, held, Abs(shape), Held(Abs(shape), keyFor));
    }

    /** Descend into the right record, then the left one, or only into the one on the path. */
    method InsertIntoChildren(node: TreeNode, network: Network, bit: nat, value: RecordValue, s: Strategy,
                              ghost shape: Shape, ghost newTree: Tree, ghost target: TreeNode?,
                              ghost held: multiset<Key>)
        returns (status: Status, ghost after: Shape)
      requires shape.Inner? && node == shape.node && Ready(shape, network, bit, value, s, newTree, target, held)
      requires bit >= network.prefixLength ==> Allowed(newTree, s, true)
      modifies Records(shape) - {shape.rec}, this`table, this`cache
      ensures after.Inner? && after == shape.(left := after.left, right := after.right)
      ensures PutAt(value, shape, after, Remaining(network, bit))
      ensures var p := Remaining(network, bit);
        Outcome(status, Abs(after))
          == Untrimmed(shape.fixed, Abs(shape.left), LeftCall(Abs(shape), p, newTree, s),
            RightCall(Abs(shape), p, newTree, s))
      ensures Linked(after) && Holds(after, keyFor, target) && Extends(shape, after)
      ensures forall r | r in Records(after) :: r in Records(shape) || r in NewRecords(value) || fresh(r)
      ensures forall n | n in Nodes(after) :: n in Nodes(shape) || n in NewNodes(value) || fresh(n)
      ensures TableOk(Recount(held, Held(Abs(shape), keyFor), Held(Abs(after), keyFor), status, value))
      ensures CacheTruthful(cache, keyFor)
      ensures old(Complete(table)) ==> Complete(table)
      decreases 8 * |network.bytes| - bit, 0, 3
    {
      hide Held, Abs, Holds, Linked, TableOk, Complete, CacheTruthful, SideCall, Recount, Insert, Pending, Extends,
        PutAt, WellFormed, Represents, Height, Records, Nodes, Allowed, NewRecords, NewNodes, Ready, LeftCall,
        RightCall, Untrimmed, Remaining;
      ReadyChildren(shape, network, bit, value, s, newTree, target, held);
      ReadyParts(shape, network, bit, value, s, newTree, target, held);
      RemainingStep(network, bit);
      NothingNewTwice(value, newTree, s, target);
      LinkedParts(shape, keyFor, target);
      ghost var l, r := Held(Abs(shape.left), keyFor), Held(Abs(shape.right), keyFor);
      ExtendsReflexive(shape.left);
      var nextIsRight := NetworkBit(network.bytes, bit);
      var insertIntoBoth := bit >= network.prefixLength;
      ghost var p := Remaining(network, bit);
      status, after := InsertIntoRightFirst(node, nextIsRight || insertIntoBoth, network, bit, value, s, shape,
        newTree, target, held);
      ghost var r' := Held(Abs(after.right), keyFor);
      ghost var ro := Outcome(status, Abs(after.right));
      RecountRight(held, l, r, r', status, value);
      ExtendsNode(shape, after);
      if status == Success {
        RecountLeft(held, l, l, r, r', Success, value);
        status, after := InsertIntoLeft(node, !nextIsRight || insertIntoBoth, network, bit, value, s, after, newTree,
          target, Recount(held, r, r', Success, value));
        RecountLeft(held, l, Held(Abs(after.left), keyFor), r, r', status, value);
        ExtendsNode(shape, after);
      }
      PutAtSame(value, shape.left, Remaining(network, bit + 1));
      PutAtParent(value, shape, after, p);
      SidesOutcome(shape.fixed, Abs(shape.left), Abs(shape.right), p, nextIsRight, newTree, s,
        Outcome(status, Abs(after.left)), ro);
    }

    method InsertIntoRightFirst(node: TreeNode, taken: bool, network: Network, bit: nat, value: RecordValue,
                                s: Strategy,
                          ghost shape: Shape, ghost newTree: Tree, ghost target: TreeNode?, ghost held: multiset<Key>)
        returns (status: Status, ghost after: Shape)
      requires shape.Inner? && node == shape.node && Linked(shape) && Holds(shape, keyFor, target)
      requires Ready(shape.left, network, bit + 1, value, s, newTree, target, held)
      requires Ready(shape.right, network, bit + 1, value, s, newTree, target, held) && bit < 8 * |network.bytes|
      requires taken ==> NewRecords(value) !! Records(shape) && NewNodes(value) !! Nodes(shape)
      modifies Records(shape.right), this`table, this`cache
      ensures after.Inner? && after == shape.(right := after.right) && Linked(after) && Holds(after, keyFor, target)
      ensures Abs(after) == MakeNode(shape.fixed, Abs(after.left), Abs(after.right))
      ensures Held(Abs(after), keyFor) == Held(Abs(after.left), keyFor) + Held(Abs(after.right), keyFor)
      ensures PutAt(value, shape.right, after.right, Remaining(network, bit + 1))
      ensures Outcome(status, Abs(after.right))
        == SideCall(Abs(shape.right), taken, Remaining(network, bit), newTree, s)
      ensures Extends(shape.right, after.right) && (!taken ==> after == shape)
      ensures forall r | r in Records(after) :: r in Records(shape) || r in NewRecords(value) || fresh(r)
      ensures forall n | n in Nodes(after) :: n in Nodes(shape) || n in NewNodes(value) || fresh(n)
      ensures TableOk(Recount(held, Held(Abs(shape.right), keyFor), Held(Abs(after.right), keyFor), status, value))
      ensures CacheTruthful(cache, keyFor)
      ensures old(Complete(table)) ==> Complete(table)
      ensures var held' := Recount(held, Held(Abs(shape.right), keyFor), Held(Abs(after.right), keyFor), status, value);
        Pending(held', Held(Abs(shape.left), keyFor), value) ==>
          Ready(shape.left, network, bit + 1, value, s, newTree, target, held')

      decreases 8 * |network.bytes| - bit, 0, 2
    {
      hide Held, Abs, Holds, Linked, TableOk, Complete, CacheTruthful, SideCall, Recount, Insert, Pending, Extends,
        PutAt, WellFormed, Represents, Height, Records, Nodes, NewRecords, NewNodes, Ready;
      ReadyParts(shape.left, network, bit + 1, value, s, newTree, target, held);
      status, after := InsertIntoRight(node, taken, network, bit, value, s, shape, newTree, target, held);
      ghost var held' := Recount(held, Held(Abs(shape.right), keyFor), Held(Abs(after.right), keyFor), status, value);
      if Pending(held', Held(Abs(shape.left), keyFor), value) {
        ReadyAgain(shape.left, network, bit + 1, value, s, newTree, target, held');
      }
    }

    method InsertIntoRight(node: TreeNode, taken: bool, network: Network, bit: nat, value: RecordValue, s: Strategy,
                          ghost shape: Shape, ghost newTree: Tree, ghost target: TreeNode?, ghost held: multiset<Key>)
        returns (status: Status, ghost after: Shape)
      requires shape.Inner? && node == shape.node && Linked(shape) && Holds(shape, keyFor, target)
      requires Ready(shape.right, network, bit + 1, value, s, newTree, target, held) && bit < 8 * |network.bytes|
      requires taken ==> NewRecords(value) !! Records(shape) && NewNodes(value) !! Nodes(shape)
      modifies Records(shape.right), this`table, this`cache
      ensures after.Inner? && after == shape.(right := after.right) && Linked(after) && Holds(after, keyFor, target)
      ensures Abs(after) == MakeNode(shape.fixed, Abs(after.left), Abs(after.right))
      ensures Held(Abs(after), keyFor) == Held(Abs(after.left), keyFor) + Held(Abs(after.right), keyFor)
      ensures PutAt(value, shape.right, after.right, Remaining(network, bit + 1))
      ensures Outcome(status, Abs(after.right))
        == SideCall(Abs(shape.right), taken, Remaining(network, bit), newTree, s)
      ensures Extends(shape.right, after.right) && (!taken ==> after == shape)
      ensures forall r | r in Records(after) :: r in Records(shape) || r in NewRecords(value) || fresh(r)
      ensures forall n | n in Nodes(after) :: n in Nodes(shape) || n in NewNodes(value) || fresh(n)
      ensures TableOk(Recount(held, Held(Abs(shape.right), keyFor), Held(Abs(after.right), keyFor), status, value))
      ensures CacheTruthful(cache, keyFor)
      ensures old(Complete(table)) ==> Complete(table)
      ensures Holds(after.left, keyFor, target) && Represents(value, newTree, keyFor, target)
      decreases 8 * |network.bytes| - bit, 0, 1
    {
      hide Held, Abs, Holds, Linked, TableOk, Complete, CacheTruthful, SideCall, Recount, Insert, Pending, Extends,
        PutAt, WellFormed, Represents, Height, Ready, Allowed;
      ShapeAllocated(shape);
      LinkedParts(shape, keyFor, target);
      ReadyParts(shape.right, network, bit + 1, value, s, newTree, target, held);
      ghost var right;
      status, right := InsertIntoSide(node.right, taken, network, bit, value, s, shape.right, newTree, target, held);
      after := shape.(right := right);
      ExtendsReflexive(shape.left);
      Rejoined(shape, after, keyFor, target);
    }

    method InsertIntoLeft(node: TreeNode, taken: bool, network: Network, bit: nat, value: RecordValue, s: Strategy,
                          ghost shape: Shape, ghost newTree: Tree, ghost target: TreeNode?, ghost held: multiset<Key>)
        returns (status: Status, ghost after: Shape)
      requires shape.Inner? && node == shape.node && Linked(shape) && Holds(shape, keyFor, target)
      requires Ready(shape.left, network, bit + 1, value, s, newTree, target, held) && bit < 8 * |network.bytes|
      requires taken ==> NewRecords(value) !! Records(shape) && NewNodes(value) !! Nodes(shape)
      modifies Records(shape.left), this`table, this`cache
      ensures after.Inner? && after == shape.(left := after.left) && Linked(after) && Holds(after, keyFor, target)
      ensures Abs(after) == MakeNode(shape.fixed, Abs(after.left), Abs(after.right))
      ensures Held(Abs(after), keyFor) == Held(Abs(after.left), keyFor) + Held(Abs(after.right), keyFor)
      ensures PutAt(value, shape.left, after.left, Remaining(network, bit + 1))
      ensures Outcome(status, Abs(after.left)) == SideCall(Abs(shape.left), taken, Remaining(network, bit), newTree, s)
      ensures Extends(shape.left, after.left) && (!taken ==> after == shape)
      ensures forall r | r in Records(after) :: r in Records(shape) || r in NewRecords(value) || fresh(r)
      ensures forall n | n in Nodes(after) :: n in Nodes(shape) || n in NewNodes(value) || fresh(n)
      ensures TableOk(Recount(held, Held(Abs(shape.left), keyFor), Held(Abs(after.left), keyFor), status, value))
      ensures CacheTruthful(cache, keyFor)
      ensures old(Complete(table)) ==> Complete(table)
      decreases 8 * |network.bytes| - bit, 0, 1
    {
      hide Held, Abs, Holds, Linked, TableOk, Complete, CacheTruthful, SideCall, Recount, Insert, Pending, Extends,
        PutAt, WellFormed, Represents, Height, Ready, Allowed;
      ShapeAllocated(shape);
      LinkedParts(shape, keyFor, target);
      ghost var left;
      status, left := InsertIntoSide(node.left, taken, network, bit, value, s, shape.left, newTree, target, held);
      after := shape.(left := left);
      ExtendsReflexive(shape.right);
      Rejoined(shape, after, keyFor, target);
    }

    method InsertIntoSide(rec: Record, taken: bool, network: Network, bit: nat, value: RecordValue, s: Strategy,
                          ghost shape: Shape, ghost newTree: Tree, ghost target: TreeNode?, ghost held: multiset<Key>)
        returns (status: Status, ghost after: Shape)
      requires rec == shape.rec && Ready(shape, network, bit + 1, value, s, newTree, target, held)
      requires bit < 8 * |network.bytes|
      modifies Records(shape), this`table, this`cache
      ensures !taken ==> status == Success && after == shape
      ensures PutAt(value, shape, after, Remaining(network, bit + 1))
      ensures Outcome(status, Abs(after)) == SideCall(Abs(shape), taken, Remaining(network, bit), newTree, s)
      ensures after.rec == rec && Linked(after) && Holds(after, keyFor, target) && Extends(shape, after)
      ensures forall r | r in Records(after) :: r in Records(shape) || r in NewRecords(value) || fresh(r)
      ensures forall n | n in Nodes(after) :: n in Nodes(shape) || n in NewNodes(value) || fresh(n)
      ensures TableOk(Recount(held, Held(Abs(shape), keyFor), Held(Abs(after), keyFor), status, value))
      ensures CacheTruthful(cache, keyFor)
      ensures old(Complete(table)) ==> Complete(table)
      decreases 8 * |network.bytes| - bit, 0, 0
    {
      hide Insert, Held, Abs, Holds, Linked, TableOk, Complete, CacheTruthful, PutAt, Extends, Records, Nodes,
        NewRecords, NewNodes, Remaining;
      PutAtSame(value, shape, Remaining(network, bit + 1));
      if taken {
        RemainingStep(network, bit);
        status, after := InsertRecordIntoNextNode(rec, network, bit + 1, value, s, shape, newTree, target, held);
      } else {
        RecountUnchanged(held, Held(Abs(shape), keyFor), value);
        ExtendsReflexive(shape);
        status, after := Success, shape;
      }
    }

    method MarkFixed(rec: Record, node: TreeNode, ghost shape: Shape, ghost target: TreeNode?)
        returns (ghost after: Shape)
      requires shape.Inner? && shape.rec == rec && shape.node == node && Linked(shape) && Holds(shape, keyFor, target)
      modifies rec
      ensures after == shape.(fixed := true) && Linked(after) && Holds(after, keyFor, target)
      ensures Records(after) == Records(shape) && Nodes(after) == Nodes(shape)
      ensures Held(Abs(after), keyFor) == Held(Abs(shape), keyFor)
      ensures Extends(shape, after)
    {
      ShapeAllocated(shape);
      rec.value := FixedNodeRecord(node);
      after := shape.(fixed := true);
      ExtendsReflexive(shape);
    }
  }

  /** A leaf that has been split, or a node, perhaps made fixed. */
  lemma OpenedTree(t: Tree, fixed: bool, mid: Tree)
    requires WellFormed(t) && mid == MakeNode(fixed, LeftOf(t), RightOf(t)) && (t.FixedNode? ==> fixed)
    requires !IsNode(t) ==> IsUserRecord(t)
    ensures WellFormed(mid) && Height(mid) == if IsNode(t) then Height(t) else 1
  {
    if t.Node? {
      PlainFacts(t.left);
      PlainFacts(t.right);
    }
  }

  lemma DescentMayGoOn(t: Tree, p: Path, past: bool, rec: Tree, s: Strategy)
    requires Allowed(rec, s, past) && !Stops(t, p, past, rec, s)
    ensures !IsNode(t) ==> IsUserRecord(t) && p != []
    ensures p == [] ==> Allowed(rec, s, true)
  {
  }

  lemma PlaceMerges(before: Tree, rec: Tree, s: Strategy)
    requires NeedsMerge(before, rec, s)
    ensures Place(before, rec, s) ==
      if !(rec.v.Map? && before.v.Map?) then Outcome(MergeNotHashes, before)
      else if MergeValues(s, rec.v, before.v).None? then Outcome(MergeMismatch, before)
      else Outcome(Success, Data(MergeValues(s, rec.v, before.v).value))
  {
  }

  lemma NodeChildren(t: Tree)
    requires IsNode(t) && WellFormed(t)
    ensures WellFormed(t.left) && WellFormed(t.right) && Height(t.left) < Height(t) && Height(t.right) < Height(t)
  {
    if t.Node? {
      PlainFacts(t.left);
      PlainFacts(t.right);
    }
  }

  lemma RecountUnchanged(held: multiset<Key>, before: multiset<Key>, value: RecordValue)
    requires Pending(held, before, value)
    ensures held - before + before == held
    ensures value.DataRecord? ==> value.key in held
  {
  }

  lemma PendingExtra(below: multiset<Key>, leaked: multiset<Key>, extra: multiset<Key>, value: RecordValue)
    requires value.DataRecord? ==> value.key in extra
    ensures Pending(below + leaked + extra, below, value)
  {
  }

  lemma RecountExtra(before: multiset<Key>, after: multiset<Key>, leaked: multiset<Key>, extra: multiset<Key>,
                     status: Status, value: RecordValue)
    requires value.DataRecord? ==> value.key in extra
    ensures Recount(before + leaked + extra, before, after, status, value)
         == after + leaked
           + (if status == MergeNotHashes && value.DataRecord? then extra - multiset{value.key} else extra)
  {
  }

  lemma CountExtra(held: multiset<Key>, key: Key)
    ensures held + multiset{} == held
    ensures held + multiset{key} - multiset{key} == held
    ensures key in held + multiset{key}
    ensures multiset{key} - multiset{key} == multiset{}
  {
  }

  lemma CountLeak(held: multiset<Key>, leaked: multiset<Key>, key: Key)
    ensures held + leaked + multiset{key} == held + (leaked + multiset{key}) + multiset{}
  {
  }

  lemma TwinCounts(held: multiset<Key>, key: Key)
    requires multiset{key} + multiset{key} <= held
    ensures key in held && multiset{key} + multiset{key} <= held + multiset{key}
    ensures held + multiset{key} - (multiset{key} + multiset{key}) == held - (multiset{key} + multiset{key})
      + multiset{key}
  {
  }

  lemma SurvivesFree(held: multiset<Key>, before: multiset<Key>, value: RecordValue, merged: Option<Key>)
    requires Pending(held, before, value) && value.DataRecord?
    ensures merged.None? ==> value.key in held - before
    ensures merged.Some? ==> merged.value in held + multiset{merged.value} - before
  {
  }

  ghost function KeysOf(value: RecordValue, merged: Option<Key>): multiset<Key> {
    if !value.DataRecord? then multiset{} else multiset{if merged.None? then value.key else merged.value}
  }

  lemma RecountPlaced(held: multiset<Key>, before: multiset<Key>, value: RecordValue, merged: Option<Key>)
    requires Pending(held, before, value) && value.DataRecord?
    ensures merged.None? ==> held - before + multiset{value.key} == held - before + KeysOf(value, merged)
    ensures merged.Some? ==> held + multiset{merged.value} - before + multiset{merged.value} - multiset{merged.value}
                             == held - before + KeysOf(value, merged)
  {
  }

  lemma SplitHeld(held: multiset<Key>, l: multiset<Key>, r: multiset<Key>, dl: multiset<Key>, dr: multiset<Key>)
    requires l + r <= held && dl <= l
    ensures l <= held && r <= held - dl
    ensures held - dl - dr == held - (dl + dr)
  {
  }
}
