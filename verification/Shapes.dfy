/** The heap form of the search tree: records that are overwritten in place, and nodes that hold two of them. */
module Shapes {
  import opened Data
  import opened Trie
  import opened Aliases

  datatype RecordValue =
    | EmptyRecord
    | FixedEmptyRecord
    | DataRecord(key: Key)
    | NodeRecord(node: TreeNode)
    | FixedNodeRecord(node: TreeNode)
    | AliasRecord(node: TreeNode)

  class Record {
    var value: RecordValue

    constructor (v: RecordValue)
      ensures value == v
    {
      value := v;
    }
  }

  class TreeNode {
    const left: Record
    const right: Record
    var number: nat

    /** new_node: both records are empty. */
    constructor (l: RecordValue, r: RecordValue)
      ensures fresh(left) && fresh(right) && left != right
      ensures left.value == l && right.value == r && number == 0
    {
      left := new Record(l);
      right := new Record(r);
      number := 0;
    }
  }

  /** Which objects make up a tree, and what it means. */
  datatype Shape =
    | Leaf(rec: Record, tree: Tree)
    | Inner(rec: Record, fixed: bool, node: TreeNode, left: Shape, right: Shape)

  ghost function Records(s: Shape): set<Record> {
    match s
    case Leaf(rec, _) => {rec}
    case Inner(rec, _, _, l, r) => {rec} + Records(l) + Records(r)
  }

  /** The nodes that the tree owns. */
  ghost function Nodes(s: Shape): set<TreeNode> {
    match s
    case Leaf(_, _) => {}
    case Inner(_, _, node, l, r) => {node} + Nodes(l) + Nodes(r)
  }

  ghost function Abs(s: Shape): Tree {
    match s
    case Leaf(_, t) => t
    case Inner(_, fixed, _, l, r) => MakeNode(fixed, Abs(l), Abs(r))
  }

  /** Every record and every node is owned once. */
  ghost predicate Linked(s: Shape) {
    match s
    case Leaf(_, t) => !IsNode(t)
    case Inner(rec, _, node, l, r) =>
      && node.left == l.rec && node.right == r.rec
      && Linked(l) && Linked(r)
      && rec !in Records(l) && rec !in Records(r) && Records(l) !! Records(r)
      && node !in Nodes(l) && node !in Nodes(r) && Nodes(l) !! Nodes(r)
  }

  ghost function LeafValue(t: Tree, keyFor: Value -> Key, target: TreeNode?): RecordValue {
    match t
    case Data(v) => DataRecord(keyFor(v))
    case FixedEmpty => FixedEmptyRecord
    case Alias => if target == null then EmptyRecord else AliasRecord(target)
    case _ => EmptyRecord
  }

  ghost predicate NoStrayAlias(t: Tree, target: TreeNode?) { t.Alias? ==> target != null }

  /** The records hold what the shape says; aliases point at `target`. */
  ghost predicate Holds(s: Shape, keyFor: Value -> Key, target: TreeNode?)
    reads Records(s)
  {
    match s
    case Leaf(rec, t) => NoStrayAlias(t, target) && rec.value == LeafValue(t, keyFor, target)
    case Inner(rec, fixed, node, l, r) =>
      && rec.value == (if fixed then FixedNodeRecord(node) else NodeRecord(node))
      && Holds(l, keyFor, target) && Holds(r, keyFor, target)
  }

  /** Fixed nodes of the first shape are the same objects at the same places in the second. */
  ghost predicate Extends(s: Shape, s': Shape) {
    s.Inner? && s.fixed ==>
      s'.Inner? && s'.fixed && s'.node == s.node && Extends(s.left, s'.left) && Extends(s.right, s'.right)
  }

  lemma ExtendsReflexive(s: Shape)
    ensures Extends(s, s)
  {
  }

  lemma {:induction false} ExtendsTransitive(s: Shape, s': Shape, s'': Shape)
    requires Extends(s, s') && Extends(s', s'')
    ensures Extends(s, s'')
  {
    if s.Inner? && s.fixed {
      ExtendsTransitive(s.left, s'.left, s''.left);
      ExtendsTransitive(s.right, s'.right, s''.right);
    }
  }

  lemma ExtendsNode(s: Shape, s': Shape)
    requires s.Inner? && s'.Inner? && s' == s.(left := s'.left, right := s'.right)
    requires Extends(s.left, s'.left) && Extends(s.right, s'.right)
    ensures Extends(s, s')
  {
  }

  /** Without aliases it does not matter where they would point. */
  lemma {:induction false} Retarget(s: Shape, keyFor: Value -> Key, target: TreeNode?, target': TreeNode?)
    requires NoAlias(Abs(s)) && Holds(s, keyFor, target)
    ensures Holds(s, keyFor, target')
  {
    if s.Inner? {
      Retarget(s.left, keyFor, target, target');
      Retarget(s.right, keyFor, target, target');
    }
  }

  /** The fixed node that a path through fixed nodes leads to. */
  ghost function FixedNodeAt(s: Shape, q: Path): TreeNode? {
    if !(s.Inner? && s.fixed) then null
    else if q == [] then s.node
    else FixedNodeAt(if q[0] then s.right else s.left, q[1..])
  }

  lemma {:induction false} ExtendsKeepsFixedNodes(s: Shape, s': Shape, q: Path)
    requires Extends(s, s') && FixedNodeAt(s, q) != null
    ensures FixedNodeAt(s', q) == FixedNodeAt(s, q)
    decreases |q|
  {
    if q != [] {
      ExtendsKeepsFixedNodes(if q[0] then s.right else s.left, if q[0] then s'.right else s'.left, q[1..]);
    }
  }

  ghost function ShapeAt(s: Shape, q: Path): Shape {
    if q == [] || s.Leaf? then s else ShapeAt(if q[0] then s.right else s.left, q[1..])
  }

  /** The part of a shape below a fixed node is a shape of its own. */
  lemma {:induction false} ShapeAtFixed(s: Shape, q: Path, keyFor: Value -> Key, target: TreeNode?)
    requires Linked(s) && Holds(s, keyFor, target) && FixedNodeAt(s, q) != null
    ensures var s' := ShapeAt(s, q);
      && s'.Inner? && s'.fixed && s'.node == FixedNodeAt(s, q) && Abs(s') == SubtreeAt(Abs(s), q)
      && Linked(s') && Holds(s', keyFor, target) && Records(s') <= Records(s)
    decreases |q|
  {
    if q != [] {
      ShapeAtFixed(if q[0] then s.right else s.left, q[1..], keyFor, target);
    }
  }

  /** The keys held by the data records, each as often as it occurs. */
  ghost function Held(t: Tree, keyFor: Value -> Key): multiset<Key> {
    match t
    case Data(v) => multiset{keyFor(v)}
    case Node(l, r) => Held(l, keyFor) + Held(r, keyFor)
    case FixedNode(l, r) => Held(l, keyFor) + Held(r, keyFor)
    case _ => multiset{}
  }

  function Below(b: bool, places: set<Path>): set<Path> { set q | q in places :: [b] + q }

  lemma {:induction false} AsManyBelow(b: bool, places: set<Path>)
    ensures |Below(b, places)| == |places|
    ensures forall q: Path :: q in Below(b, places) <==> q != [] && q[0] == b && q[1..] in places
  {
    forall q: Path ensures q in Below(b, places) <==> q != [] && q[0] == b && q[1..] in places {
      if q != [] && q[0] == b { assert q == [b] + q[1..]; }
      if q' :| q' in places && q == [b] + q' { assert q[1..] == q'; }
    }
    if places != {} {
      var q :| q in places;
      var others := places - {q};
      AsManyBelow(b, others);
      assert ([b] + q)[1..] == q;
      assert Below(b, places) == Below(b, others) + {[b] + q};
    }
  }

  lemma BothSides(l: set<Path>, r: set<Path>)
    ensures |Below(false, l) + Below(true, r)| == |l| + |r|
    ensures forall q: Path :: q in Below(false, l) + Below(true, r) <==> q != [] && q[1..] in if q[0] then r else l
  {
    hide Below;
    AsManyBelow(false, l);
    AsManyBelow(true, r);
    assert Below(false, l) !! Below(true, r);
  }

  /** A key is held as often as there are places in the tree with data of that key. */
  lemma {:induction false} HeldCounts(t: Tree, keyFor: Value -> Key, key: Key) returns (places: set<Path>)
    ensures |places| == Held(t, keyFor)[key]
    ensures forall q: Path :: q in places <==> SubtreeAt(t, q).Data? && keyFor(SubtreeAt(t, q).v) == key
    decreases t
  {
    hide Below;
    if IsNode(t) {
      var l := HeldCounts(t.left, keyFor, key);
      var r := HeldCounts(t.right, keyFor, key);
      BothSides(l, r);
      places := Below(false, l) + Below(true, r);
      forall q: Path ensures q in places <==> SubtreeAt(t, q).Data? && keyFor(SubtreeAt(t, q).v) == key {
        assert q != [] ==> SubtreeAt(t, q) == SubtreeAt(if q[0] then t.right else t.left, q[1..]);
      }
    } else {
      places := if t.Data? && keyFor(t.v) == key then {[]} else {};
    }
  }

  /** What a lookup finds is held by the tree, or by the tree that aliases lead to. */
  lemma {:induction false} FoundIsHeld(t: Tree, ipv4: Tree, a: Path, keyFor: Value -> Key)
    requires Follow(t, ipv4, a).Data?
    ensures var key := keyFor(Follow(t, ipv4, a).v); key in Held(t, keyFor) || key in Held(ipv4, keyFor)
    decreases |a|
  {
    FollowNothing(t, ipv4, []);
    if a != [] {
      if IsNode(t) {
        FoundIsHeld(if a[0] then t.right else t.left, ipv4, a[1..], keyFor);
      } else if t.Alias? {
        FoundIsHeld(if a[0] then RightOf(ipv4) else LeftOf(ipv4), ipv4, a[1..], keyFor);
      }
    }
  }

  lemma {:induction false} SubtreeHeld(t: Tree, q: Path, keyFor: Value -> Key)
    ensures Held(SubtreeAt(t, q), keyFor) <= Held(t, keyFor)
    decreases |q|
  {
    if q != [] && IsNode(t) {
      SubtreeHeld(if q[0] then t.right else t.left, q[1..], keyFor);
    }
  }

  /** The keys that free_record_value releases before it succeeds or stops. */
  ghost function Released(t: Tree, removeAll: bool, keyFor: Value -> Key): multiset<Key> {
    match t
    case Data(v) => multiset{keyFor(v)}
    case Node(l, r) =>
      if FreeStatus(l, removeAll) != Success then Released(l, removeAll, keyFor)
      else Released(l, removeAll, keyFor) + Released(r, removeAll, keyFor)
    case FixedNode(l, r) =>
      if !removeAll then multiset{}
      else if FreeStatus(l, removeAll) != Success then Released(l, removeAll, keyFor)
      else Released(l, removeAll, keyFor) + Released(r, removeAll, keyFor)
    case _ => multiset{}
  }

  lemma {:induction false} ReleasesOnlyHeld(t: Tree, removeAll: bool, keyFor: Value -> Key)
    ensures Released(t, removeAll, keyFor) <= Held(t, keyFor)
    ensures FreeStatus(t, removeAll) == Success ==> Released(t, removeAll, keyFor) == Held(t, keyFor)
  {
    if IsNode(t) {
      ReleasesOnlyHeld(t.left, removeAll, keyFor);
      ReleasesOnlyHeld(t.right, removeAll, keyFor);
    }
  }

  /** How freeing and counting go over a node. */
  lemma BelowNode(fixed: bool, l: Tree, r: Tree, removeAll: bool, keyFor: Value -> Key)
    requires fixed ==> removeAll
    ensures Held(MakeNode(fixed, l, r), keyFor) == Held(l, keyFor) + Held(r, keyFor)
    ensures FreeStatus(l, removeAll) == Success ==>
              && FreeStatus(MakeNode(fixed, l, r), removeAll) == FreeStatus(r, removeAll)
              && Released(MakeNode(fixed, l, r), removeAll, keyFor)
                 == Released(l, removeAll, keyFor) + Released(r, removeAll, keyFor)
    ensures FreeStatus(l, removeAll) != Success ==>
              && FreeStatus(MakeNode(fixed, l, r), removeAll) == FreeStatus(l, removeAll)
              && Released(MakeNode(fixed, l, r), removeAll, keyFor) == Released(l, removeAll, keyFor)
  {
  }

  /** A shape at hand consists of allocated objects; the frame of Holds needs this said. */
  lemma {:induction false} ShapeAllocated(s: Shape)
    ensures allocated(Records(s)) && allocated(Nodes(s))
  {
    if s.Inner? {
      ShapeAllocated(s.left);
      ShapeAllocated(s.right);
    }
  }

  /** What the record at the top of a shape tells about the tree, and the other way round. */
  lemma TopRecord(s: Shape, keyFor: Value -> Key, target: TreeNode?)
    requires Linked(s) && Holds(s, keyFor, target)
    ensures s.rec in Records(s)
    ensures Abs(s).Empty? <==> s.rec.value.EmptyRecord?
    ensures Abs(s).FixedEmpty? <==> s.rec.value.FixedEmptyRecord?
    ensures Abs(s).Alias? <==> s.rec.value.AliasRecord?
    ensures s.rec.value.AliasRecord? ==> target != null && s.rec.value.node == target
    ensures Abs(s).Data? <==> s.rec.value.DataRecord?
    ensures Abs(s).Data? ==> s.rec.value.key == keyFor(Abs(s).v) && Held(Abs(s), keyFor) == multiset{s.rec.value.key}
    ensures Abs(s).Node? <==> s.rec.value.NodeRecord?
    ensures Abs(s).FixedNode? <==> s.rec.value.FixedNodeRecord?
    ensures IsNode(Abs(s)) <==> s.Inner?
    ensures s.Inner? ==> s.rec.value.node == s.node && (s.fixed <==> s.rec.value.FixedNodeRecord?)
  {
  }

  /** A node's record, its two records and everything below them are apart from each other. */
  lemma LinkedParts(s: Shape, keyFor: Value -> Key, target: TreeNode?)
    requires s.Inner? && Linked(s) && Holds(s, keyFor, target)
    ensures s.node.left == s.left.rec && s.node.right == s.right.rec
    ensures Records(s) == {s.rec} + Records(s.left) + Records(s.right)
    ensures s.rec !in Records(s.left) && s.rec !in Records(s.right) && Records(s.left) !! Records(s.right)
    ensures Nodes(s) == {s.node} + Nodes(s.left) + Nodes(s.right)
    ensures s.node !in Nodes(s.left) && s.node !in Nodes(s.right) && Nodes(s.left) !! Nodes(s.right)
    ensures Linked(s.left) && Linked(s.right) && Holds(s.left, keyFor, target) && Holds(s.right, keyFor, target)
    ensures s.rec.value == (if s.fixed then FixedNodeRecord(s.node) else NodeRecord(s.node))
    ensures Abs(s) == MakeNode(s.fixed, Abs(s.left), Abs(s.right))
    ensures Held(Abs(s), keyFor) == Held(Abs(s.left), keyFor) + Held(Abs(s.right), keyFor)
  {
  }

  /** Putting new children under a node again. */
  lemma Rejoined(s: Shape, s': Shape, keyFor: Value -> Key, target: TreeNode?)
    requires s.Inner? && s'.Inner? && s' == s.(left := s'.left, right := s'.right)
    requires s.node.left == s'.left.rec && s.node.right == s'.right.rec
    requires s.rec.value == (if s.fixed then FixedNodeRecord(s.node) else NodeRecord(s.node))
    requires Linked(s'.left) && Linked(s'.right) && Holds(s'.left, keyFor, target) && Holds(s'.right, keyFor, target)
    requires s.rec !in Records(s'.left) && s.rec !in Records(s'.right) && Records(s'.left) !! Records(s'.right)
    requires s.node !in Nodes(s'.left) && s.node !in Nodes(s'.right) && Nodes(s'.left) !! Nodes(s'.right)
    requires Extends(s.left, s'.left) && Extends(s.right, s'.right)
    ensures Linked(s') && Holds(s', keyFor, target) && Extends(s, s')
    ensures Abs(s') == MakeNode(s.fixed, Abs(s'.left), Abs(s'.right))
    ensures Records(s') == {s.rec} + Records(s'.left) + Records(s'.right)
    ensures Nodes(s') == {s.node} + Nodes(s'.left) + Nodes(s'.right)
    ensures Held(Abs(s'), keyFor) == Held(Abs(s'.left), keyFor) + Held(Abs(s'.right), keyFor)
  {
    hide Linked, Holds, Extends, Abs, Held, Records, Nodes;
    InnerParts(s');
    InnerHolds(s', keyFor, target);
    ExtendsNode(s, s');
    BelowNode(s.fixed, Abs(s'.left), Abs(s'.right), true, keyFor);
  }

  lemma InnerParts(s: Shape)
    requires s.Inner?
    ensures Records(s) == {s.rec} + Records(s.left) + Records(s.right)
    ensures Nodes(s) == {s.node} + Nodes(s.left) + Nodes(s.right)
    ensures Abs(s) == MakeNode(s.fixed, Abs(s.left), Abs(s.right))
    ensures Linked(s) <==>
      && s.node.left == s.left.rec && s.node.right == s.right.rec
      && Linked(s.left) && Linked(s.right)
      && s.rec !in Records(s.left) && s.rec !in Records(s.right) && Records(s.left) !! Records(s.right)
      && s.node !in Nodes(s.left) && s.node !in Nodes(s.right) && Nodes(s.left) !! Nodes(s.right)
  {
  }

  lemma InnerHolds(s: Shape, keyFor: Value -> Key, target: TreeNode?)
    requires s.Inner?
    ensures Holds(s, keyFor, target) <==>
      && s.rec.value == (if s.fixed then FixedNodeRecord(s.node) else NodeRecord(s.node))
      && Holds(s.left, keyFor, target) && Holds(s.right, keyFor, target)
  {
  }

  ghost predicate EmptyTwins(s: Shape)
    requires s.Inner?
    reads s.node.left, s.node.right
  {
    !s.fixed && s.node.left.value.EmptyRecord? && s.node.right.value.EmptyRecord?
  }

  ghost predicate DataTwins(s: Shape)
    requires s.Inner?
    reads s.node.left, s.node.right
  {
    !s.fixed && s.node.left.value.DataRecord? && s.node.left.value == s.node.right.value
  }

  /** The trim, decided by looking at the two records. */
  lemma TrimSeesTwins(s: Shape, keyFor: Value -> Key, target: TreeNode?)
    requires s.Inner? && Linked(s) && Holds(s, keyFor, target) && IsKeyFunction(keyFor)
    ensures EmptyTwins(s) ==> Plain(Abs(s)) && Trim(Abs(s)) == Empty && Held(Abs(s), keyFor) == multiset{}
    ensures DataTwins(s) ==>
      var key := s.node.left.value.key;
      && Plain(Abs(s)) && Trim(Abs(s)) == Abs(s.left) && Abs(s.left).Data? && keyFor(Abs(s.left).v) == key
      && Held(Abs(s), keyFor) == multiset{key} + multiset{key} && Held(Abs(s.left), keyFor) == multiset{key}
    ensures !EmptyTwins(s) && !DataTwins(s) ==> Trim(Abs(s)) == Abs(s)
  {
    TopRecord(s.left, keyFor, target);
    TopRecord(s.right, keyFor, target);
  }

  // ---------- A record about to be inserted ----------

  ghost function NewRecords(value: RecordValue): set<Record> {
    if value.FixedNodeRecord? then {value.node.left, value.node.right} else {}
  }

  ghost function NewNodes(value: RecordValue): set<TreeNode> {
    if value.FixedNodeRecord? then {value.node} else {}
  }

  /** `value` is the heap form of the record `rec`; a new fixed node is not yet part of the tree and is empty. */
  ghost predicate Represents(value: RecordValue, rec: Tree, keyFor: Value -> Key, target: TreeNode?)
    reads NewRecords(value)
  {
    match value
    case DataRecord(key) => rec.Data? && key == keyFor(rec.v)
    case EmptyRecord => rec.Empty?
    case FixedEmptyRecord => rec.FixedEmpty?
    case AliasRecord(node) => rec.Alias? && node == target
    case FixedNodeRecord(node) =>
      && rec == FixedNode(Empty, Empty)
      && node.left != node.right && node.left.value == EmptyRecord && node.right.value == EmptyRecord
    case NodeRecord(_) => false
  }

  /** The shape of a record that has just been overwritten. */
  ghost function NewShape(rec: Record, value: RecordValue, tree: Tree): Shape {
    if value.FixedNodeRecord? then
      Inner(rec, true, value.node, Leaf(value.node.left, Empty), Leaf(value.node.right, Empty))
    else Leaf(rec, tree)
  }

  /** What the data table counts after `before` has turned into `after`; one croak also drops the inserted key. */
  ghost function Recount(held: multiset<Key>, before: multiset<Key>, after: multiset<Key>, status: Status,
                         value: RecordValue): multiset<Key> {
    if status == MergeNotHashes && value.DataRecord? then held - before + after - multiset{value.key}
    else held - before + after
  }

  /** Is the inserted key counted once more than the records below account for? */
  ghost predicate Pending(held: multiset<Key>, below: multiset<Key>, value: RecordValue) {
    below <= held && (value.DataRecord? ==> held[value.key] > below[value.key])
  }

  lemma RecountRight(held: multiset<Key>, l: multiset<Key>, r: multiset<Key>, r': multiset<Key>, status: Status,
                     value: RecordValue)
    requires Pending(held, l + r, value)
    ensures Pending(held, r, value)
    ensures status != Success ==> Recount(held, r, r', status, value) == Recount(held, l + r, l + r', status, value)
    ensures status == Success ==> Recount(held, r, r', status, value) == Recount(held, l + r, l + r', status, value)
    ensures status == Success ==> Pending(Recount(held, r, r', status, value), l + r', value)
  {
  }

  /** One part of what is held changes after another. */
  lemma SwapParts<T>(held: multiset<T>, l: multiset<T>, l': multiset<T>, r: multiset<T>, r': multiset<T>)
    requires l + r <= held
    ensures l <= held - (l + r) + (l + r')
    ensures held - (l + r) + (l + r') - l + l' == held - (l + r) + (l' + r')
    ensures forall k :: (held - (l + r) + (l + r'))[k] - l[k] >= held[k] - (l + r)[k]
  {
  }

  lemma SwapTwice<T>(held: multiset<T>, before: multiset<T>, mid: multiset<T>, after: multiset<T>)
    requires before <= held
    ensures mid <= held - before + mid && after <= held - before + after
    ensures held - before + mid - mid + after == held - before + after
    ensures forall k :: (held - before + mid)[k] - mid[k] == held[k] - before[k]
  {
  }

  lemma RecountLeft(held: multiset<Key>, l: multiset<Key>, l': multiset<Key>, r: multiset<Key>, r': multiset<Key>,
                    status: Status, value: RecordValue)
    requires Pending(held, l + r, value)
    ensures Pending(Recount(held, l + r, l + r', Success, value), l, value)
    ensures Recount(Recount(held, l + r, l + r', Success, value), l, l', status, value)
         == Recount(held, l + r, l' + r', status, value)
  {
    SwapParts(held, l, l', r, r');
  }

  lemma RecountThrough(held: multiset<Key>, before: multiset<Key>, mid: multiset<Key>, after: multiset<Key>,
                       status: Status, value: RecordValue)
    requires Pending(held, before, value)
    ensures Pending(held - before + mid, mid, value)
    ensures Recount(held - before + mid, mid, after, status, value) == Recount(held, before, after, status, value)
    ensures after <= held - before + after && Recount(held, before, after, Success, value) == held - before + after
  {
    SwapTwice(held, before, mid, after);
  }

  lemma RecountTrim(held: multiset<Key>, before: multiset<Key>, mid: multiset<Key>, after: multiset<Key>,
                    value: RecordValue)
    requires Pending(held, before, value)
    ensures Recount(held, before, mid, Success, value) - mid + after == Recount(held, before, after, Success, value)
  {
  }

  /** A fixed node that is new at p is the one being inserted. */
  ghost predicate PutAt(value: RecordValue, s: Shape, s': Shape, p: Path) {
    value.FixedNodeRecord? && FixedNodeAt(s, p) == null && FixedNodeAt(s', p) != null ==>
      FixedNodeAt(s', p) == value.node
  }

  ghost function ChildShape(s: Shape, b: bool): Shape
    requires s.Inner?
  {
    if b then s.right else s.left
  }

  lemma PutAtSame(value: RecordValue, s: Shape, p: Path)
    ensures PutAt(value, s, s, p)
  {
  }

  lemma PutAtParent(value: RecordValue, s: Shape, s': Shape, p: Path)
    requires s.Inner? && s'.Inner? && s'.fixed == s.fixed && s'.node == s.node
    requires p != [] ==> PutAt(value, ChildShape(s, p[0]), ChildShape(s', p[0]), p[1..])
    ensures PutAt(value, s, s', p)
  {
  }

  /** Splitting a leaf, or fixing a plain node, puts no fixed node below. */
  ghost predicate NothingPut(s: Shape, s': Shape, p: Path) {
    p != [] && FixedNodeAt(s, p) == null ==> FixedNodeAt(s', p) == null
  }

  lemma PlainHasNoFixed(s: Shape, p: Path)
    requires Plain(Abs(s))
    ensures FixedNodeAt(s, p) == null
  {
  }

  lemma MidPutsNothing(s: Shape, mid: Shape, p: Path)
    requires WellFormed(Abs(s)) && mid.Inner?
    requires s.Inner? ==> mid == s.(fixed := mid.fixed) && (s.fixed ==> mid.fixed)
    requires s.Leaf? ==> mid.left.Leaf? && mid.right.Leaf?
    ensures NothingPut(s, mid, p)
  {
    if s.Inner? && !s.fixed && p != [] {
      PlainHasNoFixed(ChildShape(s, p[0]), p[1..]);
    }
  }

  lemma PutAtThrough(value: RecordValue, s: Shape, mid: Shape, s': Shape, p: Path)
    requires NothingPut(s, mid, p) && PutAt(value, mid, s', p)
    requires p == [] ==> !value.FixedNodeRecord?
    ensures PutAt(value, s, s', p)
  {
  }

  lemma PutAtTrimmed(value: RecordValue, s: Shape, joined: Shape, trimmed: Shape, p: Path)
    requires PutAt(value, s, joined, p)
    requires trimmed == joined || !value.FixedNodeRecord?
    ensures PutAt(value, s, trimmed, p)
  {
  }

  lemma {:induction false} FixedNodeIsThere(s: Shape, q: Path)
    requires Linked(s) && ThroughFixed(Abs(s), q) && SubtreeAt(Abs(s), q).FixedNode?
    ensures FixedNodeAt(s, q) != null
    decreases |q|
  {
    if q != [] {
      FixedNodeIsThere(ChildShape(s, q[0]), q[1..]);
    }
  }
}
