/** Numbering the nodes and writing the search tree (c/tree.c:1390-1402, 1761-2035). */
module Writing {
  import opened Wrappers
  import opened Data
  import opened Trie
  import opened Aliases
  import opened Shapes
  import opened SearchTree
  import opened DataTable
  import opened Address
  import opened Numbering
  import opened FieldCodec
  import opened DataSection
  import opened DataSectionLaws
  import opened Serializer
  import opened FileLookup
  import opened CanonicalTree
  import opened FrozenTree

  /** The nodes carry their preorder numbers from `base` on. */
  ghost predicate Numbered(s: Shape, base: nat)
    reads Nodes(s)
  {
    s.Inner? ==>
      && s.node.number == base
      && Numbered(s.left, base + 1)
      && Numbered(s.right, base + 1 + Count(Abs(s.left)))
  }

  lemma CountOfShape(s: Shape)
    requires s.Inner?
    ensures Count(Abs(s)) == 1 + Count(Abs(s.left)) + Count(Abs(s.right))
  {
  }

  lemma HeightOfShape(s: Shape)
    requires s.Inner?
    ensures Height(Abs(s.left)) < Height(Abs(s)) && Height(Abs(s.right)) < Height(Abs(s))
  {
  }

  lemma {:induction false} NumberedAt(s: Shape, q: Path, base: nat)
    requires Numbered(s, base) && FixedNodeAt(s, q) != null
    ensures OnNode(Abs(s), q) && FixedNodeAt(s, q).number == IndexAt(Abs(s), q, base)
    ensures FixedNodeAt(s, q) in Nodes(s)
    decreases |q|
  {
    if q != [] {
      if q[0] {
        NumberedAt(s.right, q[1..], base + 1 + Count(Abs(s.left)));
      } else {
        NumberedAt(s.left, q[1..], base + 1);
      }
    }
  }

  /** iterate_tree with assign_node_number; its croak about the depth cannot be reached. */
  method NumberNodes(tree: SearchTree, record: Record, depth: nat, ghost s: Shape)
    requires record == s.rec && Linked(s) && Holds(s, tree.keyFor, tree.target)
    requires depth + Height(Abs(s)) <= tree.Width()
    modifies tree`nodeCount, Nodes(s)
    ensures Numbered(s, old(tree.nodeCount)) && tree.nodeCount == old(tree.nodeCount) + Count(Abs(s))
    decreases s
  {
    hide Linked, Holds, Abs, Records, Nodes, Count, Numbered, Height, Held;
    TopRecord(s, tree.keyFor, tree.target);
    assert depth <= tree.Width();
    if record.value.NodeRecord? || record.value.FixedNodeRecord? {
      var node := record.value.node;
      LinkedParts(s, tree.keyFor, tree.target);
      ShapeAllocated(s);
      CountOfShape(s);
      HeightOfShape(s);
      ghost var base := tree.nodeCount;
      node.number := tree.nodeCount;
      tree.nodeCount := tree.nodeCount + 1;
      NumberNodes(tree, node.left, depth + 1, s.left);
      NumberNodes(tree, node.right, depth + 1, s.right);
      NumberedNode(s, base);
    } else {
      NumberedLeaf(s, tree.nodeCount);
    }
  }

  lemma NumberedNode(s: Shape, base: nat)
    requires s.Inner? && s.node.number == base
    requires Numbered(s.left, base + 1) && Numbered(s.right, base + 1 + Count(Abs(s.left)))
    ensures Numbered(s, base)
  {
  }

  lemma NumberedLeaf(s: Shape, base: nat)
    requires !s.Inner? && !IsNode(Abs(s))
    ensures Numbered(s, base) && Count(Abs(s)) == 0
  {
  }

  /** assign_node_numbers: false where start_iteration croaks. */
  method AssignNodeNumbers(tree: SearchTree) returns (ok: bool)
    requires tree.Valid()
    modifies tree`nodeCount, Nodes(tree.shape)
    ensures tree.Valid()
    ensures ok <==> IsNode(tree.Contents())
    ensures ok ==> Numbered(tree.shape, 0) && tree.nodeCount == Count(tree.Contents())
  {
    hide Linked, Records, Nodes, Count, Numbered, WellFormed, Height, Held, AliasesOk;
    ShapeAllocated(tree.shape);
    TopRecord(tree.shape, tree.keyFor, tree.target);
    tree.nodeCount := 0;
    ok := tree.root.value.NodeRecord? || tree.root.value.FixedNodeRecord?;
    if ok {
      NumberNodes(tree, tree.root, 0, tree.shape);
    }
  }

  // ---------- Writing ----------

  /** encode_args_s. */
  class EncodeArgs {
    const serializer: Serializer
    const typed: Value -> Field              // what root_data_type and the map key callback make of the data
    var output: Bytes
    var pointers: map<Key, nat>              // data_pointer_cache
    ghost var positions: map<Key, nat>       // where the data section has the data that each number stands for

    constructor (serializer: Serializer, typed: Value -> Field)
      ensures this.serializer == serializer && this.typed == typed && output == [] && pointers == map[]
      ensures positions == map[]
    {
      this.serializer := serializer;
      this.typed := typed;
      output := [];
      pointers := map[];
      positions := map[];
    }
  }

  /** Every remembered number stands for the data of its key. */
  ghost predicate PointersOk(args: EncodeArgs, keyFor: Value -> Key, nodeCount: nat)
    reads args`pointers, args`positions, args.serializer
  {
    PointersTrue(args.serializer.buffer, nodeCount, keyFor, args.pointers, args.positions, args.typed)
  }

  lemma StandsAtGrows(b: Bytes, b': Bytes, position: nat, f: Field)
    requires StandsAt(b, position, f) && b <= b'
    ensures StandsAt(b', position, f)
  {
    hide Decode, Sound;
    var more := b'[|b|..];
    assert b' == b + more;
    if Sound(f) {
      DecodeGrows(b, more, position, Depth(f), Depth(f));
    } else {
      forall rest: Bytes, fuel: nat ensures !Is(Decode(b' + rest, position, fuel), f) {
        assert b' + rest == b + (more + rest);
      }
    }
  }

  predicate Remembers(pointers: map<Key, nat>, pointers': map<Key, nat>) {
    forall k | k in pointers :: k in pointers' && pointers'[k] == pointers[k]
  }

  lemma CoveredCases(t: Tree, keyFor: Value -> Key, pointers: map<Key, nat>)
    ensures IsNode(t) ==>
      (Covered(t, keyFor, pointers) <==> Covered(t.left, keyFor, pointers) && Covered(t.right, keyFor, pointers))
    ensures t.Data? ==> (Covered(t, keyFor, pointers) <==> keyFor(t.v) in pointers)
    ensures !IsNode(t) && !t.Data? ==> Covered(t, keyFor, pointers)
  {
  }

  lemma {:induction false} RowsStable(t: Tree, base: nat, L: Layout, pointers: map<Key, nat>)
    requires Covered(t, L.keyFor, L.pointers) && Remembers(L.pointers, pointers)
    ensures Number(t, base, L.(pointers := pointers)) == Number(t, base, L)
    ensures Rows(t, base, L.(pointers := pointers)) == Rows(t, base, L)
    ensures Covered(t, L.keyFor, pointers)
  {
    hide Covered, Rows, Count, Number;
    var L' := L.(pointers := pointers);
    CoveredCases(t, L.keyFor, L.pointers);
    CoveredCases(t, L.keyFor, pointers);
    NumberStable(t, base, L, pointers);
    if IsNode(t) {
      RowsStable(t.left, base + 1, L, pointers);
      RowsStable(t.right, base + 1 + Count(t.left), L, pointers);
      RowsOfNode(t, base, L);
      RowsOfNode(t, base, L');
    } else {
      NoRowsOfLeaf(t, base, L);
      NoRowsOfLeaf(t, base, L');
    }
  }

  /** check_record_sanity: true where it does not croak. */
  method CheckRecordSanity(node: TreeNode, record: Record) returns (sane: bool)
    ensures sane <==> match record.value
      case NodeRecord(n) => n.number > node.number
      case FixedNodeRecord(n) => n.number > node.number
      case AliasRecord(n) => n.number != 0
      case _ => true
  {
    if record.value.NodeRecord? || record.value.FixedNodeRecord? {
      if record.value.node.number == node.number {
        return false;
      }
      if record.value.node.number < node.number {
        return false;
      }
    }
    if record.value.AliasRecord? {
      if record.value.node.number == 0 {
        return false;
      }
    }
    return true;
  }

  /** What writing needs of tree, serializer and arguments at all times. */
  ghost predicate WriteReady(tree: SearchTree, args: EncodeArgs, U: iset<Field>)
    reads tree, args`pointers, args`positions, args.serializer
  {
    && IsKeyFunction(tree.keyFor) && Truthful(tree.table, tree.keyFor)
    && IsRecordSize(tree.recordSize)
    && args.serializer.Valid(U)
    && (forall v :: args.serializer.settings.key(args.typed(v)) == tree.keyFor(v))
    && PointersOk(args, tree.keyFor, tree.nodeCount)
    && (forall k | k in args.pointers :: args.pointers[k] <= MaxRecordValue(tree.recordSize))
  }

  ghost predicate AllTyped(t: Tree, typed: Value -> Field, U: iset<Field>) {
    match t
    case Data(v) => typed(v) in U
    case Node(l, r) => AllTyped(l, typed, U) && AllTyped(r, typed, U)
    case FixedNode(l, r) => AllTyped(l, typed, U) && AllTyped(r, typed, U)
    case _ => true
  }

  /** A new pointer: its data has just been stored. */
  lemma PointerAdded(args: EncodeArgs, keyFor: Value -> Key, nodeCount: nat, v: Value, position: nat,
                     pointers: map<Key, nat>, positions: map<Key, nat>, before: Bytes)
    requires IsKeyFunction(keyFor) && before <= args.serializer.buffer
    requires StandsAt(args.serializer.buffer, position, args.typed(v))
    requires PointersTrue(before, nodeCount, keyFor, pointers, positions, args.typed)
    requires args.pointers == pointers[keyFor(v) := DataNumber(position, nodeCount)]
    requires args.positions == positions[keyFor(v) := position]
    ensures PointersOk(args, keyFor, nodeCount)
  {
    hide StandsAt, DataNumber;
    forall w | keyFor(w) in args.pointers
      ensures StandsAt(args.serializer.buffer, args.positions[keyFor(w)], args.typed(w))
    {
      if keyFor(w) == keyFor(v) {
        assert w == v;
      } else {
        StandsAtGrows(before, args.serializer.buffer, positions[keyFor(w)], args.typed(w));
      }
    }
  }

  lemma PointersGrow(args: EncodeArgs, keyFor: Value -> Key, nodeCount: nat, before: Bytes)
    requires before <= args.serializer.buffer
    requires PointersTrue(before, nodeCount, keyFor, args.pointers, args.positions, args.typed)
    ensures PointersOk(args, keyFor, nodeCount)
  {
    hide StandsAt;
    forall w | keyFor(w) in args.pointers
      ensures StandsAt(args.serializer.buffer, args.positions[keyFor(w)], args.typed(w))
    {
      StandsAtGrows(before, args.serializer.buffer, args.positions[keyFor(w)], args.typed(w));
    }
  }

  /** The data case of record_value_as_number, for a key that has no number yet: None where storing dies or there is no
      data. */
  method DataRecordNumber(tree: SearchTree, key: Key, args: EncodeArgs, ghost v: Value, ghost U: iset<Field>)
      returns (number: Option<nat>)
    requires WriteReady(tree, args, U) && key == tree.keyFor(v) && args.typed(v) in U && key !in args.pointers
    modifies args`pointers, args`positions, args.serializer
    ensures args.serializer.Valid(U) && PointersOk(args, tree.keyFor, tree.nodeCount)
    ensures args.pointers == if number.Some? then old(args.pointers)[key := number.value] else old(args.pointers)
    ensures if key !in tree.table || tree.table[key].data.None? then number.None?
      else
        var stored := Store(args.serializer.settings, old(args.serializer.Now()), args.typed(v));
        && args.serializer.Now() == stored.state
        && number == if stored.position.None? then None else Some(DataNumber(stored.position.value, tree.nodeCount))
    ensures key !in tree.table || tree.table[key].data.None? ==> args.serializer.Now() == old(args.serializer.Now())
  {
    hide Store, StoredWell, Universe, Coherent, DataNumber, PointersTrue, StandsAt;
    var data := tree.DataForKey(key);
    if data.None? {
      return None;
    }
    ghost var before, pointers, positions := args.serializer.buffer, args.pointers, args.positions;
    var position := args.serializer.StoreData(args.typed(data.value));
    if position.None? {
      PointersGrow(args, tree.keyFor, tree.nodeCount, before);
      return None;
    }
    WellPosition(args.serializer.settings, old(args.serializer.Now()), Stored(args.serializer.Now(), position),
      args.typed(v), U);
    number := Some(DataNumber(position.value, tree.nodeCount));
    args.pointers := args.pointers[key := number.value];
    args.positions := args.positions[key := position.value];
    PointerAdded(args, tree.keyFor, tree.nodeCount, v, position.value, pointers, positions, before);
  }

  lemma WellPosition(cfg: Settings, st: State, r: Stored, f: Field, U: iset<Field>)
    requires StoredWell(cfg, st, r, f, U) && r.position.Some?
    ensures StandsAt(r.state.buffer, r.position.value, f)
  {
    hide Decode, Sound;
  }

  ghost function LayoutOf(tree: SearchTree, args: EncodeArgs, ipv4: nat): Layout
    reads tree`nodeCount, args`pointers
  {
    Layout(tree.nodeCount, ipv4, tree.keyFor, args.pointers)
  }

  /** A part of the tree that is numbered from `base` on and whose data can be typed. */
  ghost predicate PartReady(tree: SearchTree, s: Shape, base: nat, ipv4: nat, typed: Value -> Field, U: iset<Field>)
    reads tree, Records(s), Nodes(s), tree.target
  {
    && Linked(s) && Holds(s, tree.keyFor, tree.target) && Numbered(s, base) && AllTyped(Abs(s), typed, U)
    && base + Count(Abs(s)) <= tree.nodeCount
    && (tree.target != null ==> tree.target.number == ipv4 && 0 < ipv4 <= tree.nodeCount)
  }

  // ---------- Why writing may croak ----------

  datatype Obstacle =
    | NoObstacle
    | TooManyNodes                       // a node number or the node count does not fit a record
    | NoData(v: Value)                   // no data has been set for a key
    | CannotStore(v: Value, st: State)   // storing the data dies
    | TooFar(v: Value, st: State)        // the number of the data does not fit a record

  predicate HasData(t: Tree, v: Value) {
    match t
    case Data(x) => x == v
    case Node(l, r) => HasData(l, v) || HasData(r, v)
    case FixedNode(l, r) => HasData(l, v) || HasData(r, v)
    case _ => false
  }

  /** The state after storing the data of vs, one after the other: None where storing dies. */
  function StoreAll(cfg: Settings, typed: Value -> Field, st: State, vs: seq<Value>): Option<State>
    decreases |vs|
  {
    if vs == [] then Some(st)
    else
      var r := Store(cfg, st, typed(vs[0]));
      if r.position.None? then None else StoreAll(cfg, typed, r.state, vs[1..])
  }

  /** Storing some data of t leads from one state to the other. */
  ghost predicate Reaches(cfg: Settings, typed: Value -> Field, t: Tree, start: State, st: State) {
    exists vs: seq<Value> :: (forall v | v in vs :: HasData(t, v)) && StoreAll(cfg, typed, start, vs) == Some(st)
  }

  lemma ReachesItself(cfg: Settings, typed: Value -> Field, t: Tree, st: State)
    ensures Reaches(cfg, typed, t, st, st)
  {
    var none: seq<Value> := [];
    assert StoreAll(cfg, typed, st, none) == Some(st);
  }

  lemma ReachesOne(cfg: Settings, typed: Value -> Field, t: Tree, v: Value, start: State)
    requires HasData(t, v) && Store(cfg, start, typed(v)).position.Some?
    ensures Reaches(cfg, typed, t, start, Store(cfg, start, typed(v)).state)
  {
    hide Store;
    var st := Store(cfg, start, typed(v)).state;
    assert [v][1..] == [];
    assert StoreAll(cfg, typed, st, []) == Some(st);
    assert StoreAll(cfg, typed, start, [v]) == Some(st);
  }

  // ---------- In which order data is stored ----------

  function RecordData(t: Tree): seq<Value> { if t.Data? then [t.v] else [] }

  /** The data of all records, in the order of the numbers of their nodes, left before right. */
  function DataOf(t: Tree): seq<Value> {
    if IsNode(t) then RecordData(t.left) + RecordData(t.right) + (DataOf(t.left) + DataOf(t.right)) else []
  }

  ghost predicate DataIn(ops: seq<Op>, vs: seq<Value>) {
    |ops| == |vs| && forall i | 0 <= i < |vs| :: ops[i].rec == Data(vs[i])
  }

  lemma DataInJoin(xs: seq<Op>, ys: seq<Op>, vs: seq<Value>, ws: seq<Value>)
    requires DataIn(xs, vs) && DataIn(ys, ws)
    ensures DataIn(xs + ys, vs + ws)
  {
  }

  /** That order is the one in which the records are emitted. */
  lemma {:induction false} DataOfIsEmitted(t: Tree, q: Path)
    ensures DataIn(EmitOps(t, q), DataOf(t))
    decreases t
  {
    hide DataIn, DataOp, RecordData;
    if IsNode(t) {
      var ql, qr := q + [false], q + [true];
      DataOfIsEmitted(t.left, ql);
      DataOfIsEmitted(t.right, qr);
      OneIn(t.left, ql);
      OneIn(t.right, qr);
      DataInJoin(DataOp(t.left, ql), DataOp(t.right, qr), RecordData(t.left), RecordData(t.right));
      DataInJoin(EmitOps(t.left, ql), EmitOps(t.right, qr), DataOf(t.left), DataOf(t.right));
      DataInJoin(DataOp(t.left, ql) + DataOp(t.right, qr), EmitOps(t.left, ql) + EmitOps(t.right, qr),
                 RecordData(t.left) + RecordData(t.right), DataOf(t.left) + DataOf(t.right));
      Associative(DataOp(t.left, ql) + DataOp(t.right, qr), EmitOps(t.left, ql), EmitOps(t.right, qr));
    } else {
      NothingIn();
    }
  }

  lemma OneIn(t: Tree, q: Path)
    ensures DataIn(DataOp(t, q), RecordData(t))
  {
  }

  lemma NothingIn()
    ensures DataIn([], [])
  {
  }

  lemma Associative<T>(a: seq<T>, b: seq<T>, c: seq<T>)
    ensures a + (b + c) == a + b + c
  {
  }

  function KeysOf(vs: seq<Value>, keyFor: Value -> Key): set<Key> { set v | v in vs :: keyFor(v) }

  /** The data whose key is not known, each key once, where it comes first. */
  function FirstOnes(vs: seq<Value>, keyFor: Value -> Key, known: set<Key>): seq<Value>
    decreases |vs|
  {
    if vs == [] then []
    else if keyFor(vs[0]) in known then FirstOnes(vs[1..], keyFor, known)
    else [vs[0]] + FirstOnes(vs[1..], keyFor, known + {keyFor(vs[0])})
  }

  lemma {:induction false} FirstOnesJoin(xs: seq<Value>, ys: seq<Value>, keyFor: Value -> Key, known: set<Key>)
    ensures FirstOnes(xs + ys, keyFor, known)
      == FirstOnes(xs, keyFor, known) + FirstOnes(ys, keyFor, known + KeysOf(xs, keyFor))
    decreases |xs|
  {
    if xs == [] {
      assert xs + ys == ys && known + KeysOf(xs, keyFor) == known;
    } else {
      var key := keyFor(xs[0]);
      assert (xs + ys)[1..] == xs[1..] + ys && (xs + ys)[0] == xs[0];
      FirstOnesJoin(xs[1..], ys, keyFor, known);
      FirstOnesJoin(xs[1..], ys, keyFor, known + {key});
      FirstKey(xs, keyFor);
      assert known + KeysOf(xs, keyFor) == known + {key} + KeysOf(xs[1..], keyFor);
      if key in known { assert known + {key} == known; }
    }
  }

  lemma FirstKey(vs: seq<Value>, keyFor: Value -> Key)
    requires vs != []
    ensures KeysOf(vs, keyFor) == {keyFor(vs[0])} + KeysOf(vs[1..], keyFor)
  {
    assert vs == [vs[0]] + vs[1..];
  }

  /** The first ones have different keys, none of them known... */
  lemma {:induction false} FirstOnesDiffer(vs: seq<Value>, keyFor: Value -> Key, known: set<Key>)
    ensures var ones := FirstOnes(vs, keyFor, known);
      && (forall v | v in ones :: v in vs && keyFor(v) !in known)
      && (forall i, j | 0 <= i < j < |ones| :: keyFor(ones[i]) != keyFor(ones[j]))
    decreases |vs|
  {
    if vs != [] {
      var key, rest := keyFor(vs[0]), vs[1..];
      FirstOnesDiffer(rest, keyFor, if key in known then known else known + {key});
      if key !in known {
        var ones, more := FirstOnes(vs, keyFor, known), FirstOnes(rest, keyFor, known + {key});
        assert ones == [vs[0]] + more;
        forall i, j | 0 <= i < j < |ones| ensures keyFor(ones[i]) != keyFor(ones[j]) {
          assert ones[j] == more[j - 1] && more[j - 1] in more;
          if i > 0 { assert ones[i] == more[i - 1]; }
        }
      }
    }
  }

  /** ...and every key that is not known is the key of one of them. */
  lemma {:induction false} FirstOnesCover(vs: seq<Value>, keyFor: Value -> Key, known: set<Key>)
    ensures KeysOf(FirstOnes(vs, keyFor, known), keyFor) + known == KeysOf(vs, keyFor) + known
    decreases |vs|
  {
    hide KeysOf;
    if vs != [] {
      var key, rest := keyFor(vs[0]), vs[1..];
      FirstKey(vs, keyFor);
      if key in known {
        FirstOnesCover(rest, keyFor, known);
      } else {
        var more := FirstOnes(rest, keyFor, known + {key});
        FirstOnesCover(rest, keyFor, known + {key});
        FirstKey([vs[0]] + more, keyFor);
        assert ([vs[0]] + more)[1..] == more;
      }
    }
  }

  /** How far storing has come: the serializer's state, and the keys whose data has been stored. */
  datatype Progress = Progress(state: State, known: set<Key>)

  ghost function ProgressOf(args: EncodeArgs): Progress
    reads args`pointers, args.serializer
  {
    Progress(args.serializer.Now(), args.pointers.Keys)
  }

  /** Storing the data of vs, each key once, leads from p to p'. */
  ghost predicate Advances(cfg: Settings, typed: Value -> Field, keyFor: Value -> Key, p: Progress, vs: seq<Value>,
                           p': Progress)
  {
    && StoreAll(cfg, typed, p.state, FirstOnes(vs, keyFor, p.known)) == Some(p'.state)
    && p'.known == p.known + KeysOf(vs, keyFor)
  }

  lemma AdvancesFromNothing(cfg: Settings, typed: Value -> Field, keyFor: Value -> Key, p: Progress, vs: seq<Value>,
                            p': Progress)
    requires Advances(cfg, typed, keyFor, p, vs, p') && p.known == {}
    ensures StoreAll(cfg, typed, p.state, FirstOnes(vs, keyFor, {})) == Some(p'.state)
  {
  }

  lemma AdvancesNowhere(cfg: Settings, typed: Value -> Field, keyFor: Value -> Key, p: Progress)
    ensures Advances(cfg, typed, keyFor, p, [], p)
  {
    assert p.known + KeysOf([], keyFor) == p.known;
  }

  /** Data that is known is not stored again. */
  lemma AdvancesKnown(cfg: Settings, typed: Value -> Field, keyFor: Value -> Key, p: Progress, v: Value)
    requires keyFor(v) in p.known
    ensures Advances(cfg, typed, keyFor, p, [v], p)
  {
    hide StoreAll;
    assert [v][1..] == [];
    FirstKey([v], keyFor);
    AdvancesNowhere(cfg, typed, keyFor, p);
  }

  lemma AdvancesOne(cfg: Settings, typed: Value -> Field, keyFor: Value -> Key, p: Progress, v: Value)
    requires keyFor(v) !in p.known && Store(cfg, p.state, typed(v)).position.Some?
    ensures Advances(cfg, typed, keyFor, p, [v], Progress(Store(cfg, p.state, typed(v)).state, p.known + {keyFor(v)}))
  {
    hide Store;
    var st := Store(cfg, p.state, typed(v)).state;
    assert [v][1..] == [];
    assert FirstOnes([v], keyFor, p.known) == [v];
    FirstKey([v], keyFor);
    assert StoreAll(cfg, typed, st, []) == Some(st);
    assert StoreAll(cfg, typed, p.state, [v]) == Some(st);
  }

  lemma AdvancesOn(cfg: Settings, typed: Value -> Field, keyFor: Value -> Key, p: Progress, vs: seq<Value>,
                   p': Progress, ws: seq<Value>, p'': Progress)
    requires Advances(cfg, typed, keyFor, p, vs, p') && Advances(cfg, typed, keyFor, p', ws, p'')
    ensures Advances(cfg, typed, keyFor, p, vs + ws, p'')
  {
    hide StoreAll, FirstOnes;
    FirstOnesJoin(vs, ws, keyFor, p.known);
    StoreAllJoin(cfg, typed, p.state, FirstOnes(vs, keyFor, p.known), FirstOnes(ws, keyFor, p'.known));
    assert KeysOf(vs + ws, keyFor) == KeysOf(vs, keyFor) + KeysOf(ws, keyFor);
  }

  predicate PartOf(part: Tree, t: Tree) { part == t || (IsNode(t) && (part == t.left || part == t.right)) }

  lemma {:induction false} StoreAllJoin(cfg: Settings, typed: Value -> Field, st: State, vs: seq<Value>, ws: seq<Value>)
    requires StoreAll(cfg, typed, st, vs).Some?
    ensures StoreAll(cfg, typed, st, vs + ws) == StoreAll(cfg, typed, StoreAll(cfg, typed, st, vs).value, ws)
    decreases |vs|
  {
    hide Store;
    if vs == [] {
      assert vs + ws == ws;
    } else {
      assert (vs + ws)[1..] == vs[1..] + ws;
      StoreAllJoin(cfg, typed, Store(cfg, st, typed(vs[0])).state, vs[1..], ws);
    }
  }

  lemma ReachesOn(cfg: Settings, typed: Value -> Field, part: Tree, t: Tree, start: State, later: State, st: State)
    requires Reaches(cfg, typed, t, start, later) && Reaches(cfg, typed, part, later, st) && PartOf(part, t)
    ensures Reaches(cfg, typed, t, start, st)
  {
    hide StoreAll;
    var vs :| (forall v | v in vs :: HasData(t, v)) && StoreAll(cfg, typed, start, vs) == Some(later);
    var ws :| (forall v | v in ws :: HasData(part, v)) && StoreAll(cfg, typed, later, ws) == Some(st);
    StoreAllJoin(cfg, typed, start, vs, ws);
    assert forall v | v in vs + ws :: HasData(t, v);
  }

  lemma {:induction false} StoreAllGrows(cfg: Settings, typed: Value -> Field, start: State, vs: seq<Value>)
    requires StoreAll(cfg, typed, start, vs).Some?
    ensures Grows(start, StoreAll(cfg, typed, start, vs).value)
    decreases |vs|
  {
    hide Store;
    if vs != [] {
      var r := Store(cfg, start, typed(vs[0]));
      StoreGrows(cfg, start, typed(vs[0]));
      StoreAllGrows(cfg, typed, r.state, vs[1..]);
      GrowsTransitive(start, r.state, StoreAll(cfg, typed, start, vs).value);
    }
  }

  /** The most that storing the data of one record, and of all records below a node, appends. */
  function RecordCost(cfg: Settings, typed: Value -> Field, t: Tree): nat {
    if t.Data? then Cost(cfg, typed(t.v)) else 0
  }

  function TreeCost(cfg: Settings, typed: Value -> Field, t: Tree): nat {
    if IsNode(t) then
      RecordCost(cfg, typed, t.left) + RecordCost(cfg, typed, t.right) + TreeCost(cfg, typed, t.left)
        + TreeCost(cfg, typed, t.right)
    else 0
  }

  ghost predicate Reached(args: EncodeArgs, t: Tree, start: State)
    reads args.serializer
  {
    Reaches(args.serializer.settings, args.typed, t, start, args.serializer.Now())
  }

  lemma ReachedSelf(args: EncodeArgs, t: Tree)
    ensures Reached(args, t, args.serializer.Now())
  {
    ReachesItself(args.serializer.settings, args.typed, t, args.serializer.Now());
  }

  lemma ReachedOn(args: EncodeArgs, part: Tree, t: Tree, later: State, start: State)
    requires Reaches(args.serializer.settings, args.typed, t, start, later) && Reached(args, part, later)
    requires PartOf(part, t)
    ensures Reached(args, t, start)
  {
    ReachesOn(args.serializer.settings, args.typed, part, t, start, later, args.serializer.Now());
  }

  /** The obstacle is real: it is met by data of t, in the very state that writing has come to from `start`. */
  ghost predicate Obstructs(o: Obstacle, tree: SearchTree, args: EncodeArgs, t: Tree, start: State)
    reads tree`nodeCount, tree`table, args.serializer
  {
    var cfg, now := args.serializer.settings, args.serializer.Now();
    match o
    case NoObstacle => false
    case TooManyNodes => Reached(args, t, start) && tree.nodeCount > MaxRecordValue(tree.recordSize)
    case NoData(v) =>
      && HasData(t, v) && Reached(args, t, start)
      && (tree.keyFor(v) !in tree.table || tree.table[tree.keyFor(v)].data.None?)
    case CannotStore(v, st) =>
      && HasData(t, v) && Reaches(cfg, args.typed, t, start, st)
      && Store(cfg, st, args.typed(v)) == Stored(now, None)
    case TooFar(v, st) =>
      && HasData(t, v) && Reaches(cfg, args.typed, t, start, st)
      && var r := Store(cfg, st, args.typed(v));
         r.state == now && r.position.Some?
           && DataNumber(r.position.value, tree.nodeCount) > MaxRecordValue(tree.recordSize)
  }

  /** What is in the way of a part is in the way of the whole, and of what was begun earlier. */
  lemma ObstructsAbove(o: Obstacle, tree: SearchTree, args: EncodeArgs, part: Tree, t: Tree, later: State, start: State)
    requires Obstructs(o, tree, args, part, later) && Reaches(args.serializer.settings, args.typed, t, start, later)
    requires PartOf(part, t)
    ensures Obstructs(o, tree, args, t, start)
  {
    hide Store, Reaches;
    var st := if o.CannotStore? || o.TooFar? then o.st else args.serializer.Now();
    ReachesOn(args.serializer.settings, args.typed, part, t, start, later, st);
  }

  /** record_value_as_number: None where it croaks. A number that is remembered has been checked before. */
  method RecordValueAsNumber(tree: SearchTree, record: Record, args: EncodeArgs,
                             ghost s: Shape, ghost base: nat, ghost ipv4: nat, ghost U: iset<Field>)
      returns (number: Option<nat>, ghost o: Obstacle)
    requires record == s.rec && PartReady(tree, s, base, ipv4, args.typed, U) && WriteReady(tree, args, U)
    modifies args`pointers, args`positions, args.serializer
    ensures args.serializer.Valid(U) && Remembers(old(args.pointers), args.pointers)
    ensures number.Some? ==>
      && WriteReady(tree, args, U) && Reached(args, Abs(s), old(args.serializer.Now()))
      && number.value == Number(Abs(s), base, LayoutOf(tree, args, ipv4)) <= MaxRecordValue(tree.recordSize)
      && (Abs(s).Data? ==> tree.keyFor(Abs(s).v) in args.pointers)
      && Advances(args.serializer.settings, args.typed, tree.keyFor, old(ProgressOf(args)), RecordData(Abs(s)),
        ProgressOf(args))
    ensures number.None? ==> Obstructs(o, tree, args, Abs(s), old(args.serializer.Now()))
    ensures |args.serializer.buffer| <= old(|args.serializer.buffer|)
      + RecordCost(args.serializer.settings, args.typed, Abs(s))
    ensures !Abs(s).Data? ==> args.pointers == old(args.pointers) && args.serializer.Now() == old(args.serializer.Now())
  {
    hide PointersOk, Decode, Pow2, Linked, Holds, Records, Nodes, Held, Abs, Universe, Coherent, Truthful,
      IsKeyFunction, Store, Count, Reaches, DataNumber, Cost, Advances;
    TopRecord(s, tree.keyFor, tree.target);
    ghost var p, cfg := ProgressOf(args), args.serializer.settings;
    AdvancesNowhere(cfg, args.typed, tree.keyFor, p);
    NumberedTop(s, base);
    TypedTop(Abs(s), args.typed, U);
    NumberTop(Abs(s), base, LayoutOf(tree, args, ipv4));
    ghost var st := args.serializer.Now();
    ReachedSelf(args, Abs(s));
    var value := tree.nodeCount;
    o := TooManyNodes;
    if record.value.NodeRecord? || record.value.FixedNodeRecord? || record.value.AliasRecord? {
      value := record.value.node.number;
    } else if record.value.DataRecord? {
      if record.value.key in args.pointers {
        AdvancesKnown(cfg, args.typed, tree.keyFor, p, Abs(s).v);
        return Some(args.pointers[record.value.key]), NoObstacle;
      }
      var key := record.value.key;
      o := if key !in tree.table || tree.table[key].data.None? then NoData(Abs(s).v)
        else if Store(args.serializer.settings, st, args.typed(Abs(s).v)).position.None? then CannotStore(Abs(s).v, st)
        else TooFar(Abs(s).v, st);
      StoreCosts(args.serializer.settings, st, args.typed(Abs(s).v));
      var found := DataRecordNumber(tree, key, args, Abs(s).v, U);
      if found.None? {
        return None, o;
      }
      value := found.value;
      ReachesOne(args.serializer.settings, args.typed, Abs(s), Abs(s).v, st);
      AdvancesOne(cfg, args.typed, tree.keyFor, p, Abs(s).v);
      assert ProgressOf(args).known == p.known + {key};
      NumberTop(Abs(s), base, LayoutOf(tree, args, ipv4));
    }
    number := if value > MaxRecordValue(tree.recordSize) then None else Some(value);
  }

  lemma NumberedTop(s: Shape, base: nat)
    requires Numbered(s, base)
    ensures s.Inner? ==> s.node.number == base
  {
  }

  lemma TypedTop(t: Tree, typed: Value -> Field, U: iset<Field>)
    requires AllTyped(t, typed, U)
    ensures t.Data? ==> typed(t.v) in U
  {
  }

  lemma NumberTop(t: Tree, base: nat, L: Layout)
    ensures IsNode(t) ==> Number(t, base, L) == base
    ensures t.Alias? ==> Number(t, base, L) == L.ipv4
    ensures t.Empty? || t.FixedEmpty? ==> Number(t, base, L) == L.nodeCount
    ensures t.Data? && L.keyFor(t.v) in L.pointers ==> Number(t, base, L) == L.pointers[L.keyFor(t.v)]
  {
  }

  lemma NumberStable(t: Tree, base: nat, L: Layout, pointers: map<Key, nat>)
    requires Remembers(L.pointers, pointers) && (t.Data? ==> L.keyFor(t.v) in L.pointers)
    ensures Number(t, base, L.(pointers := pointers)) == Number(t, base, L)
  {
  }

  lemma ReadySize(tree: SearchTree, args: EncodeArgs, U: iset<Field>)
    requires WriteReady(tree, args, U)
    ensures IsRecordSize(tree.recordSize) && args.serializer.Valid(U)
  {
  }

  /** One node's two records may be written; its numbers are its children's. */
  lemma NodeReady(tree: SearchTree, s: Shape, base: nat, ipv4: nat, typed: Value -> Field, U: iset<Field>)
    requires s.Inner? && PartReady(tree, s, base, ipv4, typed, U)
    ensures s.node.number == base && s.node.left == s.left.rec && s.node.right == s.right.rec
    ensures PartReady(tree, s.left, base + 1, ipv4, typed, U)
    ensures PartReady(tree, s.right, base + 1 + Count(Abs(s.left)), ipv4, typed, U)
    ensures s.left.Inner? ==> s.left.node.number > base
    ensures s.right.Inner? ==> s.right.node.number > base
  {
  }

  /** No record of a numbered tree is insane. */
  lemma ChildIsSane(tree: SearchTree, s: Shape, base: nat, ipv4: nat, typed: Value -> Field, U: iset<Field>,
                    parent: nat)
    requires PartReady(tree, s, base, ipv4, typed, U) && (s.Inner? ==> s.node.number > parent)
    ensures match s.rec.value
      case NodeRecord(n) => n.number > parent
      case FixedNodeRecord(n) => n.number > parent
      case AliasRecord(n) => n.number != 0
      case _ => true
  {
    TopRecord(s, tree.keyFor, tree.target);
  }

  /** The checks at the head of encode_node never croak. */
  method CheckNode(tree: SearchTree, node: TreeNode, ghost s: Shape, ghost base: nat, ghost ipv4: nat,
                   ghost typed: Value -> Field, ghost U: iset<Field>)
      returns (sane: bool)
    requires s.Inner? && node == s.node && PartReady(tree, s, base, ipv4, typed, U)
    ensures sane
  {
    hide PartReady, Linked, Holds, Records, Nodes, Abs, Count;
    NodeReady(tree, s, base, ipv4, typed, U);
    ChildIsSane(tree, s.left, base + 1, ipv4, typed, U, base);
    ChildIsSane(tree, s.right, base + 1 + Count(Abs(s.left)), ipv4, typed, U, base);
    sane := CheckRecordSanity(node, node.left);
    if sane {
      sane := CheckRecordSanity(node, node.right);
    }
  }

  /** encode_node: false where it croaks. */
  method EncodeNode(tree: SearchTree, node: TreeNode, args: EncodeArgs, ghost s: Shape, ghost base: nat,
                    ghost ipv4: nat, ghost U: iset<Field>)
      returns (ok: bool, ghost o: Obstacle)
    requires s.Inner? && node == s.node && PartReady(tree, s, base, ipv4, args.typed, U) && WriteReady(tree, args, U)
    modifies args, args.serializer
    ensures args.serializer.Valid(U) && Remembers(old(args.pointers), args.pointers)
    ensures ok ==>
      var L := LayoutOf(tree, args, ipv4);
      var row := (Number(Abs(s.left), base + 1, L), Number(Abs(s.right), base + 1 + Count(Abs(s.left)), L));
      && WriteReady(tree, args, U) && Reached(args, Abs(s), old(args.serializer.Now())) && RowFits(row, tree.recordSize)
      && args.output == old(args.output) + EncodeRow(row, tree.recordSize)
      && TopCovered(Abs(s.left), L) && TopCovered(Abs(s.right), L)
      && Advances(args.serializer.settings, args.typed, tree.keyFor, old(ProgressOf(args)),
        RecordData(Abs(s.left)) + RecordData(Abs(s.right)), ProgressOf(args))
    ensures !ok ==> args.output == old(args.output) && Obstructs(o, tree, args, Abs(s), old(args.serializer.Now()))
    ensures |args.serializer.buffer| <= old(|args.serializer.buffer|)
      + RecordCost(args.serializer.settings, args.typed, Abs(s.left))
        + RecordCost(args.serializer.settings, args.typed, Abs(s.right))
  {
    hide RecordCost, Obstructs, Reached, Universe, Coherent, WriteReady, PartReady, Decode, Linked, Holds, Records,
      Nodes, Held, Abs, EncodeRow, Number, Count, IsRecordSize, Pow2, MaxRecordValue, Advances, RecordData;
    ShapeAllocated(s.left);
    ShapeAllocated(s.right);
    ReadySize(tree, args, U);
    NodeReady(tree, s, base, ipv4, args.typed, U);
    var sane := CheckNode(tree, node, s, base, ipv4, args.typed, U);
    ghost var start, cfg := args.serializer.Now(), args.serializer.settings;
    ghost var p := ProgressOf(args);
    AbsOfNode(s);
    ReachesItself(cfg, args.typed, Abs(s), start);
    ok := false;
    if sane {
      var left;
      left, o := RecordValueAsNumber(tree, node.left, args, s.left, base + 1, ipv4, U);
      if left.None? {
        ObstructsAbove(o, tree, args, Abs(s.left), Abs(s), start, start);
      } else {
        ghost var L, later, p' := LayoutOf(tree, args, ipv4), args.serializer.Now(), ProgressOf(args);
        ReachedOn(args, Abs(s.left), Abs(s), start, start);
        assert Reaches(cfg, args.typed, Abs(s), start, later) by { ReachedNow(args, Abs(s), start); }
        var right;
        right, o := RecordValueAsNumber(tree, node.right, args, s.right, base + 1 + Count(Abs(s.left)), ipv4, U);
        NumberStable(Abs(s.left), base + 1, L, args.pointers);
        if right.None? {
          ObstructsAbove(o, tree, args, Abs(s.right), Abs(s), later, start);
        } else {
          ReachedOn(args, Abs(s.right), Abs(s), later, start);
          AdvancesOn(cfg, args.typed, tree.keyFor, p, RecordData(Abs(s.left)), p', RecordData(Abs(s.right)),
            ProgressOf(args));
          args.output := args.output + EncodeRow((left.value, right.value), tree.recordSize);
          ok := true;
        }
      }
    }
  }

  lemma AbsOfNode(s: Shape)
    requires s.Inner?
    ensures IsNode(Abs(s)) && Abs(s).left == Abs(s.left) && Abs(s).right == Abs(s.right)
  {
  }

  lemma ReachedNow(args: EncodeArgs, t: Tree, start: State)
    requires Reached(args, t, start)
    ensures Reaches(args.serializer.settings, args.typed, t, start, args.serializer.Now())
  {
  }

  predicate TopCovered(t: Tree, L: Layout) { t.Data? ==> L.keyFor(t.v) in L.pointers }

  /** A node's row, then those of its left part, then those of its right part. */
  lemma RowsJoin(t: Tree, base: nat, L1: Layout, L2: Layout, L3: Layout, size: nat)
    requires IsNode(t) && IsRecordSize(size)
    requires L2 == L1.(pointers := L2.pointers) && L3 == L1.(pointers := L3.pointers)
    requires Remembers(L1.pointers, L2.pointers) && Remembers(L2.pointers, L3.pointers)
    requires TopCovered(t.left, L1) && TopCovered(t.right, L1)
    requires IsNode(t.left) ==> Covered(t.left, L2.keyFor, L2.pointers)
    requires IsNode(t.right) ==> Covered(t.right, L3.keyFor, L3.pointers)
    requires RowsFit(Rows(t.left, base + 1, L2), size) && RowsFit(Rows(t.right, base + 1 + Count(t.left), L3), size)
    requires RowFits((Number(t.left, base + 1, L1), Number(t.right, base + 1 + Count(t.left), L1)), size)
    ensures var row := (Number(t.left, base + 1, L1), Number(t.right, base + 1 + Count(t.left), L1));
      EncodeRows(Rows(t, base, L3), size)
      == EncodeRow(row, size) + EncodeRows(Rows(t.left, base + 1, L2), size)
         + EncodeRows(Rows(t.right, base + 1 + Count(t.left), L3), size)
    ensures RowsFit(Rows(t, base, L3), size) && Covered(t, L3.keyFor, L3.pointers)
  {
    hide Rows, Count, Number, EncodeRow, EncodeRows, Covered, RowsFit, RowFits, IsRecordSize;
    assert Remembers(L1.pointers, L3.pointers);
    NumberStable(t.left, base + 1, L1, L3.pointers);
    NumberStable(t.right, base + 1 + Count(t.left), L1, L3.pointers);
    CoveredTop(t.left, L2);
    CoveredTop(t.left, L1.(pointers := L2.pointers));
    CoveredTop(t.right, L3);
    RowsStable(t.left, base + 1, L2, L3.pointers);
    RowsOfNode(t, base, L3);
    var row := (Number(t.left, base + 1, L1), Number(t.right, base + 1 + Count(t.left), L1));
    var l, r := Rows(t.left, base + 1, L3), Rows(t.right, base + 1 + Count(t.left), L3);
    ThreeParts(row, l, r, size);
    CoveredNode(t, L3);
  }

  lemma ThreeParts(row: Row, l: seq<Row>, r: seq<Row>, size: nat)
    requires IsRecordSize(size)
    ensures EncodeRows([row] + l + r, size) == EncodeRow(row, size) + EncodeRows(l, size) + EncodeRows(r, size)
    ensures RowFits(row, size) && RowsFit(l, size) && RowsFit(r, size) ==> RowsFit([row] + l + r, size)
  {
    hide EncodeRow, EncodeRows, RowFits;
    EncodeRowsJoin([row], l, size);
    EncodeRowsJoin([row] + l, r, size);
    EncodeOneRow(row, size);
  }

  lemma CoveredTop(t: Tree, L: Layout)
    requires IsNode(t) ==> Covered(t, L.keyFor, L.pointers)
    requires TopCovered(t, L)
    ensures Covered(t, L.keyFor, L.pointers)
  {
  }

  lemma CoveredNode(t: Tree, L: Layout)
    requires IsNode(t) && Covered(t.left, L.keyFor, L.pointers) && Covered(t.right, L.keyFor, L.pointers)
    ensures Covered(t, L.keyFor, L.pointers)
  {
  }

  lemma EncodeOneRow(row: Row, size: nat)
    requires IsRecordSize(size)
    ensures EncodeRows([row], size) == EncodeRow(row, size)
  {
    assert [row][1..] == [];
    assert EncodeRows([], size) == [];
  }

  lemma {:induction false} EncodeRowsJoin(xs: seq<Row>, ys: seq<Row>, size: nat)
    requires IsRecordSize(size)
    ensures EncodeRows(xs + ys, size) == EncodeRows(xs, size) + EncodeRows(ys, size)
  {
    if xs == [] {
      assert xs + ys == ys;
    } else {
      assert (xs + ys)[1..] == xs[1..] + ys;
      EncodeRowsJoin(xs[1..], ys, size);
    }
  }

  /** iterate_tree with encode_node. */
  method EncodeNodes(tree: SearchTree, record: Record, args: EncodeArgs, depth: nat,
                     ghost s: Shape, ghost base: nat, ghost ipv4: nat, ghost U: iset<Field>)
      returns (ok: bool, ghost o: Obstacle)
    requires record == s.rec && PartReady(tree, s, base, ipv4, args.typed, U) && WriteReady(tree, args, U)
    requires depth + Height(Abs(s)) <= tree.Width()
    modifies args, args.serializer
    ensures args.serializer.Valid(U) && Remembers(old(args.pointers), args.pointers)
    ensures ok ==>
      var rows := Rows(Abs(s), base, LayoutOf(tree, args, ipv4));
      && WriteReady(tree, args, U) && Reached(args, Abs(s), old(args.serializer.Now()))
        && RowsFit(rows, tree.recordSize)
      && args.output == old(args.output) + EncodeRows(rows, tree.recordSize)
      && (IsNode(Abs(s)) ==> Covered(Abs(s), tree.keyFor, args.pointers))
      && Advances(args.serializer.settings, args.typed, tree.keyFor, old(ProgressOf(args)), DataOf(Abs(s)),
        ProgressOf(args))
    ensures !ok ==> Obstructs(o, tree, args, Abs(s), old(args.serializer.Now()))
    ensures |args.serializer.buffer| <= old(|args.serializer.buffer|)
      + TreeCost(args.serializer.settings, args.typed, Abs(s))
    decreases s, 1
  {
    hide RecordCost, TreeCost, Obstructs, Reached, Reaches, WriteReady, PartReady, Decode, Linked, Holds, Records,
      Nodes, Held, Abs, EncodeRow, EncodeRows, Rows, Number, Count, IsRecordSize, Pow2, MaxRecordValue, Covered, Height,
      RowFits, RowsFit, TopCovered, Universe, Coherent, Advances, RecordData, DataOf;
    assert depth <= tree.Width();
    ghost var L0 := LayoutOf(tree, args, ipv4);
    PartTop(tree, s, base, ipv4, args.typed, U);
    ReadySize(tree, args, U);
    NoRows(Abs(s), base, L0, tree.recordSize);
    ghost var start, p, cfg := args.serializer.Now(), ProgressOf(args), args.serializer.settings;
    ReachedSelf(args, Abs(s));
    AdvancesNowhere(cfg, args.typed, tree.keyFor, p);
    DataOfNode(Abs(s));
    ok, o := true, NoObstacle;
    if record.value.NodeRecord? || record.value.FixedNodeRecord? {
      var node := record.value.node;
      ShapeAllocated(s);
      NodeReady(tree, s, base, ipv4, args.typed, U);
      HeightOfShape(s);
      CostOfNode(args.serializer.settings, args.typed, s);
      ok, o := EncodeNode(tree, node, args, s, base, ipv4, U);
      if ok {
        ReachedNow(args, Abs(s), start);
        ghost var p' := ProgressOf(args);
        ok, o := EncodeBelow(tree, node, args, depth, s, base, ipv4, U, start);
        if ok {
          AdvancesOn(cfg, args.typed, tree.keyFor, p, RecordData(Abs(s).left) + RecordData(Abs(s).right), p',
            DataOf(Abs(s).left) + DataOf(Abs(s).right), ProgressOf(args));
        }
      }
    }
  }

  lemma DataOfNode(t: Tree)
    ensures DataOf(t)
      == if IsNode(t) then RecordData(t.left) + RecordData(t.right) + (DataOf(t.left) + DataOf(t.right)) else []
  {
  }

  lemma CostOfNode(cfg: Settings, typed: Value -> Field, s: Shape)
    requires s.Inner?
    ensures TreeCost(cfg, typed, Abs(s)) == RecordCost(cfg, typed, Abs(s.left)) + RecordCost(cfg, typed, Abs(s.right))
      + TreeCost(cfg, typed, Abs(s.left)) + TreeCost(cfg, typed, Abs(s.right))
  {
  }

  /** The two parts below a node whose row has been written. */
  method EncodeBelow(tree: SearchTree, node: TreeNode, args: EncodeArgs, depth: nat,
                     ghost s: Shape, ghost base: nat, ghost ipv4: nat, ghost U: iset<Field>, ghost start: State)
      returns (ok: bool, ghost o: Obstacle)
    requires s.Inner? && node == s.node && PartReady(tree, s, base, ipv4, args.typed, U) && WriteReady(tree, args, U)
    requires depth + Height(Abs(s)) <= tree.Width()
    requires Reaches(args.serializer.settings, args.typed, Abs(s), start, args.serializer.Now()) && IsNode(Abs(s))
    requires var L := LayoutOf(tree, args, ipv4);
      && TopCovered(Abs(s.left), L) && TopCovered(Abs(s.right), L)
      && RowFits((Number(Abs(s.left), base + 1, L), Number(Abs(s.right), base + 1 + Count(Abs(s.left)), L)),
        tree.recordSize)
    modifies args, args.serializer
    ensures args.serializer.Valid(U) && Remembers(old(args.pointers), args.pointers)
    ensures ok ==>
      var L0, L := old(LayoutOf(tree, args, ipv4)), LayoutOf(tree, args, ipv4);
      var row := (Number(Abs(s.left), base + 1, L0), Number(Abs(s.right), base + 1 + Count(Abs(s.left)), L0));
      && WriteReady(tree, args, U) && Reached(args, Abs(s), start) && RowsFit(Rows(Abs(s), base, L), tree.recordSize)
      && Covered(Abs(s), tree.keyFor, args.pointers) && IsRecordSize(tree.recordSize)
      && old(args.output) <= args.output
      && EncodeRow(row, tree.recordSize) + args.output[|old(args.output)|..]
        == EncodeRows(Rows(Abs(s), base, L), tree.recordSize)
      && Advances(args.serializer.settings, args.typed, tree.keyFor, old(ProgressOf(args)),
        DataOf(Abs(s).left) + DataOf(Abs(s).right), ProgressOf(args))
    ensures !ok ==> Obstructs(o, tree, args, Abs(s), start)
    ensures |args.serializer.buffer| <= old(|args.serializer.buffer|)
      + TreeCost(args.serializer.settings, args.typed, Abs(s.left))
        + TreeCost(args.serializer.settings, args.typed, Abs(s.right))
    decreases s, 0
  {
    hide RecordCost, TreeCost, Obstructs, Reached, Reaches, WriteReady, PartReady, Decode, Linked, Holds, Records,
      Nodes, Held, Abs, EncodeRow, EncodeRows, Rows, Number, Count, IsRecordSize, Pow2, MaxRecordValue, Covered, Height,
      RowFits, RowsFit, TopCovered, Universe, Coherent, Advances, DataOf;
    ShapeAllocated(s.left);
    ShapeAllocated(s.right);
    NodeReady(tree, s, base, ipv4, args.typed, U);
    ReadySize(tree, args, U);
    HeightOfShape(s);
    AbsOfNode(s);
    ghost var L1, began, p := LayoutOf(tree, args, ipv4), args.serializer.Now(), ProgressOf(args);
    ok, o := EncodeNodes(tree, node.left, args, depth + 1, s.left, base + 1, ipv4, U);
    ghost var L2, later, p' := LayoutOf(tree, args, ipv4), args.serializer.Now(), ProgressOf(args);
    if ok {
      ReachedOn(args, Abs(s.left), Abs(s), began, start);
      ReachedNow(args, Abs(s), start);
      ok, o := EncodeNodes(tree, node.right, args, depth + 1, s.right, base + 1 + Count(Abs(s.left)), ipv4, U);
      if ok {
        ReachedOn(args, Abs(s.right), Abs(s), later, start);
        RowsJoin(Abs(s), base, L1, L2, LayoutOf(tree, args, ipv4), tree.recordSize);
        AdvancesOn(args.serializer.settings, args.typed, tree.keyFor, p, DataOf(Abs(s.left)), p', DataOf(Abs(s.right)),
          ProgressOf(args));
      } else {
        ObstructsAbove(o, tree, args, Abs(s.right), Abs(s), later, start);
      }
    } else {
      ObstructsAbove(o, tree, args, Abs(s.left), Abs(s), began, start);
    }
  }

  lemma PartTop(tree: SearchTree, s: Shape, base: nat, ipv4: nat, typed: Value -> Field, U: iset<Field>)
    requires PartReady(tree, s, base, ipv4, typed, U)
    ensures s.Inner? <==> s.rec.value.NodeRecord? || s.rec.value.FixedNodeRecord?
    ensures s.Inner? ==> s.rec.value.node == s.node && Abs(s) == MakeNode(s.fixed, Abs(s.left), Abs(s.right))
    ensures IsNode(Abs(s)) <==> s.Inner?
  {
    TopRecord(s, tree.keyFor, tree.target);
  }

  lemma NoRows(t: Tree, base: nat, L: Layout, size: nat)
    requires IsRecordSize(size)
    ensures !IsNode(t) ==>
      Rows(t, base, L) == [] && EncodeRows(Rows(t, base, L), size) == [] && RowsFit(Rows(t, base, L), size)
  {
  }

  ghost function FinalLayout(tree: SearchTree, args: EncodeArgs): Layout
    reads tree, args
  {
    LayoutOf(tree, args, Ipv4Number(tree.Contents(), tree.Width()))
  }

  /** Nothing stands in the way of writing: data for every key, all of it storable, and numbers that fit a record when
      there is as much data as there is now. */
  ghost predicate Writable(tree: SearchTree, args: EncodeArgs, t: Tree, start: State)
    reads tree`table, args.serializer
  {
    && IsNode(t) && CachedInside(start)
    && (forall v | HasData(t, v) ::
          && tree.keyFor(v) in tree.table && tree.table[tree.keyFor(v)].data.Some?
          && Storable(args.serializer.settings, args.typed(v)))
    && |args.serializer.buffer| + Count(t) + SEPARATOR <= MaxRecordValue(tree.recordSize)
  }

  lemma {:induction false} StoreAllInside(cfg: Settings, typed: Value -> Field, start: State, vs: seq<Value>)
    requires CachedInside(start) && forall v | v in vs :: Storable(cfg, typed(v))
    requires StoreAll(cfg, typed, start, vs).Some? && |StoreAll(cfg, typed, start, vs).value.buffer| <= UINT32_LIMIT
    ensures CachedInside(StoreAll(cfg, typed, start, vs).value)
    decreases |vs|
  {
    hide Store, Storable;
    if vs != [] {
      var r := Store(cfg, start, typed(vs[0]));
      StoreAllGrows(cfg, typed, r.state, vs[1..]);
      StorableIsStored(cfg, start, typed(vs[0]));
      StoreAllInside(cfg, typed, r.state, vs[1..]);
    }
  }

  lemma StoredPosition(cfg: Settings, st: State, f: Field)
    requires Store(cfg, st, f).position.Some?
    ensures Store(cfg, st, f).position.value == |st.buffer|
  {
    hide ControlBytes, EncodeScalar, StoreChildren;
  }

  /** After any run over storable data, the next storable data is stored too, inside the buffer. */
  lemma RunGoesOn(cfg: Settings, typed: Value -> Field, start: State, vs: seq<Value>, st: State, v: Value)
    requires CachedInside(start) && Storable(cfg, typed(v)) && (forall w | w in vs :: Storable(cfg, typed(w)))
    requires StoreAll(cfg, typed, start, vs) == Some(st)
    requires |Store(cfg, st, typed(v)).state.buffer| <= UINT32_LIMIT
    ensures var r := Store(cfg, st, typed(v)); r.position.Some? && r.position.value <= |r.state.buffer|
  {
    hide Store, Storable, StoreAll;
    StoreGrows(cfg, st, typed(v));
    StoreAllInside(cfg, typed, start, vs);
    StorableIsStored(cfg, st, typed(v));
    StoredPosition(cfg, st, typed(v));
  }

  /** Where nothing stands in the way there is no obstacle. */
  lemma WritableIsFree(o: Obstacle, tree: SearchTree, args: EncodeArgs, t: Tree, start: State)
    requires IsRecordSize(tree.recordSize) && tree.nodeCount == Count(t) && Obstructs(o, tree, args, t, start)
    ensures !Writable(tree, args, t, start)
  {
    hide Store, Storable, StoreAll, IsRecordSize, MaxRecordValue, Count, HasData;
    RecordValueLimit(tree.recordSize);
    if Writable(tree, args, t, start) && (o.CannotStore? || o.TooFar?) {
      var vs :| (forall v | v in vs :: HasData(t, v))
        && StoreAll(args.serializer.settings, args.typed, start, vs) == Some(o.st);
      RunGoesOn(args.serializer.settings, args.typed, start, vs, o.st, o.v);
    }
  }

  lemma RecordValueLimit(size: nat)
    requires IsRecordSize(size)
    ensures MaxRecordValue(size) < UINT32_LIMIT
  {
    hide Pow2;
    BytePowers();
    Pow2TwentyEight();
  }

  lemma NotWritable(tree: SearchTree, args: EncodeArgs, start: State)
    requires tree.Valid() && !IsNode(tree.Contents())
    ensures !Writable(tree, args, tree.Contents(), start)
  {
  }

  lemma ObstructsGrows(o: Obstacle, tree: SearchTree, args: EncodeArgs, t: Tree, start: State)
    requires Obstructs(o, tree, args, t, start) || Reached(args, t, start)
    ensures Grows(start, args.serializer.Now())
  {
    hide Store, StoreAll;
    var cfg, now := args.serializer.settings, args.serializer.Now();
    var st := if !Reached(args, t, start) then o.st else now;
    var vs :| (forall v | v in vs :: HasData(t, v)) && StoreAll(cfg, args.typed, start, vs) == Some(st);
    StoreAllGrows(cfg, args.typed, start, vs);
    if !Reached(args, t, start) {
      StoreGrows(cfg, st, args.typed(o.v));
      GrowsTransitive(start, st, now);
    }
  }

  /** write_search_tree: false where it croaks. */
  method WriteSearchTree(tree: SearchTree, args: EncodeArgs, ghost U: iset<Field>) returns (ok: bool, ghost o: Obstacle)
    requires tree.Valid() && args.serializer.Valid(U) && args.output == [] && args.pointers == map[]
    requires args.positions == map[]
    requires forall v :: args.serializer.settings.key(args.typed(v)) == tree.keyFor(v)
    requires AllTyped(tree.Contents(), args.typed, U)
    modifies tree`nodeCount, Nodes(tree.shape), args, args.serializer
    ensures tree.Valid() && args.serializer.Valid(U) && Grows(old(args.serializer.Now()), args.serializer.Now())
    ensures ok ==>
      var t, L := tree.Contents(), FinalLayout(tree, args);
      && IsNode(t) && tree.nodeCount == Count(t) && IsRecordSize(tree.recordSize)
      && args.output == EncodeRows(Rows(t, 0, L), tree.recordSize)
      && RowsFit(Rows(t, 0, L), tree.recordSize) && Covered(t, tree.keyFor, args.pointers)
      && PointersOk(args, tree.keyFor, tree.nodeCount)
      && Some(args.serializer.Now())
         == StoreAll(args.serializer.settings, args.typed, old(args.serializer.Now()),
           FirstOnes(DataOf(t), tree.keyFor, {}))
    ensures !ok && IsNode(tree.Contents()) ==> Obstructs(o, tree, args, tree.Contents(), old(args.serializer.Now()))
    ensures Writable(tree, args, tree.Contents(), old(args.serializer.Now())) ==> ok
    ensures |args.serializer.buffer| <= old(|args.serializer.buffer|)
      + TreeCost(args.serializer.settings, args.typed, tree.Contents())
    ensures !IsNode(tree.Contents()) ==> !ok && args.output == [] && args.serializer.Now() == old(args.serializer.Now())
  {
    hide Linked, Holds, Records, Nodes, Held, Abs, Numbered, Count, Rows, EncodeRows, AllTyped, Universe, Coherent,
      RowsFit, Covered, FixedNodeAt, AliasSafe, NoAlias, WellFormed, Height, Decode, Obstructs, Reached, Grows,
      Writable, TreeCost, DataOf, FirstOnes, StoreAll, Advances;
    ShapeAllocated(tree.shape);
    ghost var start, p := args.serializer.Now(), ProgressOf(args);
    ReachedSelf(args, tree.Contents());
    o := NoObstacle;
    ok := AssignNodeNumbers(tree);
    if ok {
      ghost var ipv4 := Ipv4Number(tree.Contents(), tree.Width());
      if tree.target != null { TargetNumber(tree); }
      WriteStarts(tree, args, ipv4, U);
      ok, o := EncodeNodes(tree, tree.root, args, 0, tree.shape, 0, ipv4, U);
      assert [] + EncodeRows(Rows(tree.Contents(), 0, LayoutOf(tree, args, ipv4)), tree.recordSize)
        == EncodeRows(Rows(tree.Contents(), 0, LayoutOf(tree, args, ipv4)), tree.recordSize);
      if ok {
        AdvancesFromNothing(args.serializer.settings, args.typed, tree.keyFor, p, DataOf(tree.Contents()),
          ProgressOf(args));
      } else {
        WritableIsFree(o, tree, args, tree.Contents(), start);
      }
      ObstructsGrows(o, tree, args, tree.Contents(), start);
    } else {
      NotWritable(tree, args, start);
      ObstructsGrows(o, tree, args, tree.Contents(), start);
    }
  }

  /** The node that aliases point at has the number of the IPv4 root, which is not 0. */
  lemma TargetNumber(tree: SearchTree)
    requires tree.Valid() && Numbered(tree.shape, 0) && tree.target != null
    ensures 0 < tree.target.number == Ipv4Number(tree.Contents(), tree.Width()) < Count(tree.Contents())
  {
    var q := Ipv4Root(tree.Width());
    NumberedAt(tree.shape, q, 0);
    assert [] + q == q;
    IndexIncreases(tree.Contents(), [], q, 0);
  }

  lemma WriteStarts(tree: SearchTree, args: EncodeArgs, ipv4: nat, U: iset<Field>)
    requires tree.Valid() && args.serializer.Valid(U) && args.pointers == map[] && args.positions == map[]
    requires forall v :: args.serializer.settings.key(args.typed(v)) == tree.keyFor(v)
    requires Numbered(tree.shape, 0) && AllTyped(tree.Contents(), args.typed, U)
    requires tree.nodeCount == Count(tree.Contents())
    requires tree.target != null ==> 0 < tree.target.number == ipv4 <= tree.nodeCount
    ensures WriteReady(tree, args, U) && PartReady(tree, tree.shape, 0, ipv4, args.typed, U)
  {
  }

  /** What a written file is made of, and that every number in it was made from the position of its data. */
  ghost predicate Written(tree: SearchTree, args: EncodeArgs, file: Bytes, metadata: Bytes)
    requires tree.Valid()
    reads tree, Records(tree.shape), Nodes(tree.shape), args, args.serializer
  {
    var t, L := tree.Contents(), FinalLayout(tree, args);
    && Finished(t, tree.Width(), L, tree.recordSize, args.serializer.buffer, args.positions, args.typed)
    && file == FileOf(Rows(t, 0, L), tree.recordSize, args.serializer.buffer, metadata)
  }

  ghost predicate AnswersLikeTree(tree: SearchTree, args: EncodeArgs, file: Bytes, a: Path, fuel: nat)
    requires tree.Valid() && |a| >= IPV4_BITS
    requires IsRecordSize(tree.recordSize) && tree.nodeCount * RowLength(tree.recordSize) + SEPARATOR <= |file|
    reads tree, Records(tree.shape), Nodes(tree.shape), args
  {
    AnswerAt(file, tree.recordSize, tree.nodeCount, a, fuel) == Expected(tree.Contents(), a, args.typed)
  }

  /** An address and a reader that is deep enough for what the tree has there. */
  ghost predicate Readable(tree: SearchTree, args: EncodeArgs, a: Path, fuel: nat)
    requires tree.Valid()
    reads tree, Records(tree.shape)
  {
    |a| == tree.Width() >= IPV4_BITS && EnoughFuel(tree.Contents(), a, args.typed, fuel)
  }

  ghost predicate AllSound(tree: SearchTree, args: EncodeArgs)
    reads args
  {
    forall v | tree.keyFor(v) in args.pointers :: Sound(args.typed(v))
  }

  /** Where the number of its data has not wrapped, a written file answers an address as the tree in memory does exactly
      when the data is in range; and when all data is, and the data section has at most 2^32 bytes, exactly where the
      number has not wrapped. */
  lemma WrittenAnswers(tree: SearchTree, args: EncodeArgs, file: Bytes, metadata: Bytes, a: Path, fuel: nat)
    requires tree.Valid() && Written(tree, args, file, metadata) && Readable(tree, args, a, fuel)
    requires forall v :: args.serializer.settings.key(args.typed(v)) == tree.keyFor(v)
    ensures IsRecordSize(tree.recordSize) && tree.nodeCount * RowLength(tree.recordSize) + SEPARATOR <= |file|
    ensures var exact := Exact(Lookup(tree.Contents(), a), tree.nodeCount, tree.keyFor, args.positions);
      && (exact ==> (AnswersLikeTree(tree, args, file, a, fuel) <==> SoundAt(tree.Contents(), a, args.typed)))
      && (AllSound(tree, args) && |args.serializer.buffer| <= UINT32_LIMIT ==>
            (AnswersLikeTree(tree, args, file, a, fuel) <==> exact))
  {
    hide Linked, Holds, Records, Nodes, Held, Abs, Count, Rows, EncodeRows, RowsFit, Covered, AliasSafe, NoAlias,
      WellFormed, Height, Decode, AnswerAt, Expected, EnoughFuel, PointersTrue, FileOf, Follow;
    var t, L := tree.Contents(), FinalLayout(tree, args);
    AnswerFromRows(Rows(t, 0, L), tree.recordSize, args.serializer.buffer, metadata, a, fuel);
    if Exact(Lookup(t, a), tree.nodeCount, tree.keyFor, args.positions) {
      FileAnswersLikeTree(t, tree.Width(), a, L, tree.recordSize, args.serializer.buffer, metadata, args.positions,
        args.typed, fuel);
    }
    if |args.serializer.buffer| <= UINT32_LIMIT && AllSound(tree, args) {
      TypedInjective(tree, args);
      FileAnswersIff(t, tree.Width(), a, L, tree.recordSize, args.serializer.buffer, metadata, args.positions,
        args.typed, fuel);
    }
  }

  lemma TypedInjective(tree: SearchTree, args: EncodeArgs)
    requires IsKeyFunction(tree.keyFor) && forall v :: args.serializer.settings.key(args.typed(v)) == tree.keyFor(v)
    ensures forall v, v' | args.typed(v) == args.typed(v') :: v == v'
  {
    forall v, v' | args.typed(v) == args.typed(v') ensures v == v' {
      assert tree.keyFor(v) == tree.keyFor(v');
    }
  }

  /** Where nothing stood in the way of writing, no number has wrapped, and the file answers every address rightly whose
      data is in range. */
  lemma WritableAnswers(tree: SearchTree, args: EncodeArgs, file: Bytes, metadata: Bytes, start: State, a: Path,
                        fuel: nat)
    requires tree.Valid() && Written(tree, args, file, metadata) && Readable(tree, args, a, fuel)
    requires Writable(tree, args, tree.Contents(), start)
    ensures IsRecordSize(tree.recordSize) && tree.nodeCount * RowLength(tree.recordSize) + SEPARATOR <= |file|
    ensures AnswersLikeTree(tree, args, file, a, fuel) <==> SoundAt(tree.Contents(), a, args.typed)
  {
    hide Linked, Holds, Records, Nodes, Held, Abs, Count, Rows, EncodeRows, RowsFit, Covered, AliasSafe, NoAlias,
      WellFormed, Height, Decode, AnswerAt, Expected, EnoughFuel, PointersTrue, FileOf, Follow, HasData, Storable,
      Exact;
    var t, L := tree.Contents(), FinalLayout(tree, args);
    RecordValueLimit(tree.recordSize);
    SmallIsExact(Lookup(t, a), args.serializer.buffer, tree.nodeCount, tree.keyFor, args.pointers, args.positions,
      args.typed);
    AnswerFromRows(Rows(t, 0, L), tree.recordSize, args.serializer.buffer, metadata, a, fuel);
    FileAnswersLikeTree(t, tree.Width(), a, L, tree.recordSize, args.serializer.buffer, metadata, args.positions,
      args.typed, fuel);
  }

  /** write_tree (lib/MaxMind/DB/Writer/Tree.pm): the search tree, 16 zero bytes, the data section, and the metadata. */
  method WriteTree(tree: SearchTree, args: EncodeArgs, metadata: Bytes, ghost U: iset<Field>)
      returns (file: Option<Bytes>, ghost o: Obstacle)
    requires tree.Valid() && args.serializer.Valid(U) && args.output == [] && args.pointers == map[]
    requires args.positions == map[]
    requires forall v :: args.serializer.settings.key(args.typed(v)) == tree.keyFor(v)
    requires AllTyped(tree.Contents(), args.typed, U)
    modifies tree`nodeCount, Nodes(tree.shape), args, args.serializer
    ensures tree.Valid() && args.serializer.Valid(U)
    ensures file.None? ==>
      !IsNode(tree.Contents()) || Obstructs(o, tree, args, tree.Contents(), old(args.serializer.Now()))
    ensures |args.serializer.buffer| <= old(|args.serializer.buffer|)
      + TreeCost(args.serializer.settings, args.typed, tree.Contents())
    ensures file.Some? ==> Written(tree, args, file.value, metadata)
    ensures file.Some? ==>
      Some(args.serializer.Now())
      == StoreAll(args.serializer.settings, args.typed, old(args.serializer.Now()),
        FirstOnes(DataOf(tree.Contents()), tree.keyFor, {}))
    ensures file.Some? ==>
      IsRecordSize(tree.recordSize) && tree.nodeCount * RowLength(tree.recordSize) + SEPARATOR <= |file.value|
    ensures Writable(tree, args, tree.Contents(), old(args.serializer.Now())) ==>
      file.Some? && forall a: Path, fuel | Readable(tree, args, a, fuel) ::
        AnswersLikeTree(tree, args, file.value, a, fuel) <==> SoundAt(tree.Contents(), a, args.typed)
  {
    hide Linked, Holds, Records, Nodes, Held, Abs, Numbered, Count, Rows, EncodeRows, AllTyped, Universe, Coherent,
      RowsFit, Covered, FixedNodeAt, AliasSafe, NoAlias, WellFormed, Height, Decode, EnoughFuel, Obstructs, Writable,
      PointersTrue, TreeCost, AnswersLikeTree, DataOf, FirstOnes, StoreAll;
    ghost var start := args.serializer.Now();
    var ok;
    ok, o := WriteSearchTree(tree, args, U);
    if !ok {
      return None, o;
    }
    var separator: Bytes := seq(SEPARATOR, _ => 0);
    file := Some(args.output + separator + args.serializer.buffer + metadata);
    if Writable(tree, args, tree.Contents(), start) {
      forall a: Path, fuel | Readable(tree, args, a, fuel)
        ensures AnswersLikeTree(tree, args, file.value, a, fuel) <==> SoundAt(tree.Contents(), a, args.typed)
      {
        WritableAnswers(tree, args, file.value, metadata, start, a, fuel);
      }
    }
  }
}
