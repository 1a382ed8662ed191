/** The search tree as a value, and inserting into it (c/tree.c:778-1075), without the heap. */
module Trie {
  import opened Data
  import opened Merge

  /** Bits of an address or of a network prefix, most significant first. */
  type Path = seq<bool>

  /** A record with everything it owns. An alias does not own the node it points at. */
  datatype Tree =
    | Empty
    | FixedEmpty
    | Data(v: Value)
    | Alias
    | Node(left: Tree, right: Tree)
    | FixedNode(left: Tree, right: Tree)

  datatype Status =
    | Success
    | InsertIntoAliasNode
    | AliasOverwriteAttempt
    | FixedNodeOverwriteAttempt
    | FreedAliasNode
    | FreedFixedEmpty
    | FreedFixedNode
    | MergeNotHashes      // the croak of merge_hashes_for_keys
    | MergeMismatch       // a croak of merge_values

  datatype Outcome = Outcome(status: Status, tree: Tree)

  predicate IsNode(t: Tree) { t.Node? || t.FixedNode? }

  /** The records that make every node above them a fixed node. */
  predicate IsFixed(t: Tree) { t.Alias? || t.FixedNode? || t.FixedEmpty? }

  /** What users insert. */
  predicate IsUserRecord(t: Tree) { t.Empty? || t.Data? }

  /** What is ever inserted: a fixed node is inserted with two empty records. */
  predicate IsNewRecord(t: Tree) {
    IsUserRecord(t) || t.FixedEmpty? || t.Alias? || t == FixedNode(Empty, Empty)
  }

  // ---------- Freeing ----------

  /** The status of free_record_value, which stops at the first record that may not be freed. */
  function FreeStatus(t: Tree, removeAll: bool): Status {
    match t
    case FixedNode(l, r) =>
      if !removeAll then FreedFixedNode
      else if FreeStatus(l, removeAll) != Success then FreeStatus(l, removeAll) else FreeStatus(r, removeAll)
    case FixedEmpty => if removeAll then Success else FreedFixedEmpty
    case Node(l, r) =>
      if FreeStatus(l, removeAll) != Success then FreeStatus(l, removeAll) else FreeStatus(r, removeAll)
    case Alias => if removeAll then Success else FreedAliasNode
    case _ => Success
  }

  // ---------- Inserting ----------

  /** Must the contents of the two data records be merged? Equal keys need no merge. */
  predicate NeedsMerge(t: Tree, rec: Tree, s: Strategy) {
    rec.Data? && t.Data? && s != NoMerge && rec.v != t.v
  }

  /** insert_record_into_current_record with maybe_merge_records. */
  function Place(t: Tree, rec: Tree, s: Strategy): Outcome {
    if t.Empty? && s == AddOnly then Outcome(Success, t)
    else if NeedsMerge(t, rec, s) then
      if !(rec.v.Map? && t.v.Map?) then Outcome(MergeNotHashes, t)
      else
        match MergeValues(s, rec.v, t.v)
        case None => Outcome(MergeMismatch, t)
        case Some(merged) => Outcome(Success, Data(merged))
    else if FreeStatus(t, false) != Success then Outcome(FreeStatus(t, false), t)
    else Outcome(Success, rec)
  }

  function LeftOf(t: Tree): Tree { if IsNode(t) then t.left else t }

  function RightOf(t: Tree): Tree { if IsNode(t) then t.right else t }

  function MakeNode(fixed: bool, l: Tree, r: Tree): Tree { if fixed then FixedNode(l, r) else Node(l, r) }

  /** Two identical records below a plain node move up into the record that points at the node. */
  function Trim(t: Tree): Tree {
    if t.Node? && t.left == t.right && (t.left.Empty? || t.left.Data?) then t.left else t
  }

  /** Does the descent end at this record? `p` holds the prefix bits that are still unread. */
  predicate Stops(t: Tree, p: Path, past: bool, rec: Tree, s: Strategy) {
    || (p == [] && (t.Empty? || t.Data? || (t.Node? && s == NoMerge)))
    || (p == [] && !past && t.FixedNode? && rec.FixedNode?)
    || t.FixedEmpty?
    || t.Alias?
  }

  /** What happens at the record where the descent ends; `past` says that it lies below the prefix. */
  function StopOutcome(t: Tree, p: Path, past: bool, rec: Tree, s: Strategy): Outcome {
    if p == [] && (t.Empty? || t.Data? || (t.Node? && s == NoMerge)) then Place(t, rec, s)
    else if t.FixedNode? then Outcome(FixedNodeOverwriteAttempt, t)
    else if t.FixedEmpty? then Outcome(Success, t)
    else Outcome(if p != [] then InsertIntoAliasNode else if past then Success else AliasOverwriteAttempt, t)
  }

  /** insert_record_into_next_node. */
  function Insert(t: Tree, p: Path, past: bool, rec: Tree, s: Strategy): Outcome
    decreases |p|, t
  {
    if Stops(t, p, past, rec, s) then StopOutcome(t, p, past, rec, s)
    else
      var rest := if p == [] then [] else p[1..];
      var r := if p == [] || p[0] then Insert(RightOf(t), rest, p == [], rec, s) else Outcome(Success, RightOf(t));
      var l := if p == [] || !p[0] then Insert(LeftOf(t), rest, p == [], rec, s) else Outcome(Success, LeftOf(t));
      Combine(t.FixedNode? || IsFixed(rec), LeftOf(t), l, r)
  }

  /** The right record is done first, and a failure there leaves the left one alone. */
  function Untrimmed(fixed: bool, oldLeft: Tree, l: Outcome, r: Outcome): Outcome {
    if r.status != Success then Outcome(r.status, MakeNode(fixed, oldLeft, r.tree))
    else Outcome(l.status, MakeNode(fixed, l.tree, r.tree))
  }

  /** A failure skips the trim. */
  function Combine(fixed: bool, oldLeft: Tree, l: Outcome, r: Outcome): Outcome {
    var u := Untrimmed(fixed, oldLeft, l, r);
    if u.status == Success then Outcome(Success, Trim(u.tree)) else u
  }

  // ---------- Shape ----------

  /** No fixed record and no alias inside. */
  predicate Plain(t: Tree) {
    match t
    case Node(l, r) => Plain(l) && Plain(r)
    case _ => IsUserRecord(t)
  }

  /** Below a plain node everything is plain. */
  predicate WellFormed(t: Tree) {
    match t
    case Node(l, r) => Plain(l) && Plain(r)
    case FixedNode(l, r) => WellFormed(l) && WellFormed(r)
    case _ => true
  }

  function Height(t: Tree): nat {
    if IsNode(t) then 1 + Max(Height(t.left), Height(t.right)) else 0
  }

  /** Nothing that a trim would remove is left. */
  predicate Trimmed(t: Tree) {
    IsNode(t) ==> Trim(t) == t && Trimmed(t.left) && Trimmed(t.right)
  }

  /** What no user operation may change: the fixed nodes, the fixed empty records and the aliases. */
  function Skeleton(t: Tree): Tree {
    match t
    case FixedNode(l, r) => FixedNode(Skeleton(l), Skeleton(r))
    case FixedEmpty => FixedEmpty
    case Alias => Alias
    case _ => Empty
  }

  // ---------- Looking up ----------

  /** The record where a walk along `a` ends: the first leaf, or the record the bits run out at. */
  function RecordAt(t: Tree, a: Path): Tree {
    if IsNode(t) && a != [] then RecordAt(if a[0] then t.right else t.left, a[1..]) else t
  }

  /** The walk along q goes through fixed nodes only. */
  predicate ThroughFixed(t: Tree, q: Path) {
    q == [] || (t.FixedNode? && ThroughFixed(if q[0] then t.right else t.left, q[1..]))
  }

  /** The record that q leads to through fixed nodes; Empty when it does not. */
  function SubtreeAt(t: Tree, q: Path): Tree {
    if q == [] then t else if IsNode(t) then SubtreeAt(if q[0] then t.right else t.left, q[1..]) else Empty
  }

  /** No alias anywhere. */
  predicate NoAlias(t: Tree) {
    match t
    case Alias => false
    case Node(l, r) => NoAlias(l) && NoAlias(r)
    case FixedNode(l, r) => NoAlias(l) && NoAlias(r)
    case _ => true
  }
}
