/** Storing fields in the data section with deduplication, and reading them back
    (lib/MaxMind/DB/Writer/Serializer.pm). */
module DataSection {
  import opened Wrappers
  import opened Data
  import opened FieldCodec

  datatype Member = Member(key: Bytes, value: Field)

  /** Typed data. Floating point numbers are their IEEE bytes; a hash is its members in the order of their keys. */
  datatype Field =
    | Text(bytes: Bytes)
    | Double(payload: Bytes)
    | Blob(bytes: Bytes)
    | Unsigned(bits: nat, n: nat)
    | Hash(members: seq<Member>)
    | Int32(i: int)
    | List(items: seq<Field>)
    | Boolean(truth: bool)
    | Float(payload: Bytes)

  function TypeOf(f: Field): (t: nat)
    ensures IsType(t) && t != POINTER_TYPE
  {
    match f
    case Text(_) => TEXT
    case Double(_) => DOUBLE
    case Blob(_) => BLOB
    case Unsigned(bits, _) =>
      if bits == 16 then UINT16 else if bits == 32 then UINT32 else if bits == 64 then UINT64 else UINT128
    case Hash(_) => MAP
    case Int32(_) => INT32
    case List(_) => ARRAY
    case Boolean(_) => BOOLEAN
    case Float(_) => FLOAT
  }

  predicate IsContainer(f: Field) { f.Hash? || f.List? }

  /** What is stored below a container, in order: a hash stores each key before its value. */
  function Children(f: Field): seq<Field> {
    match f
    case Hash(ms) =>
      seq(2 * |ms|, j requires 0 <= j < 2 * |ms| => if j % 2 == 0 then Text(ms[j / 2].key) else ms[j / 2].value)
    case List(items) => items
    case _ => []
  }

  /** How deeply containers nest. */
  function Depth(f: Field): (d: nat)
    ensures d >= 1
    decreases f, 1, 0
  {
    match f
    case Hash(ms) => 1 + Deepest(f, |ms|)
    case List(items) => 1 + Deepest(f, |items|)
    case _ => 1
  }

  function Deepest(f: Field, n: nat): (d: nat)
    requires (f.Hash? && n <= |f.members|) || (f.List? && n <= |f.items|)
    ensures d >= 1
    ensures f.Hash? ==> forall j | 0 <= j < n :: Depth(f.members[j].value) <= d
    ensures f.List? ==> forall j | 0 <= j < n :: Depth(f.items[j]) <= d
    decreases f, 0, n
  {
    if n == 0 then 1
    else Max(if f.Hash? then Depth(f.members[n - 1].value) else Depth(f.items[n - 1]), Deepest(f, n - 1))
  }

  lemma ChildrenAreShallower(f: Field)
    ensures forall g | g in Children(f) :: Depth(g) < Depth(f)
  {
  }

  // ---------- Scalars ----------

  datatype Wire = Wire(size: nat, payload: Bytes)

  /** Size and payload of a scalar: None where encoding it dies. */
  function WireOf(f: Field, isObject: bool): Option<Wire>
    requires !IsContainer(f)
  {
    match f
    case Text(b) => Some(Wire(|b|, b))
    case Double(p) => Some(Wire(8, p))
    case Blob(b) => Some(Wire(|b|, b))
    case Unsigned(bits, n) =>
      if Encodable(bits, n, isObject) then Some(Wire(|UnsignedBytes(bits, n)|, UnsignedBytes(bits, n))) else None
    case Int32(n) => Some(Wire(|Int32Bytes(n)|, Int32Bytes(n)))
    case Boolean(b) => Some(Wire(if b then 1 else 0, []))
    case Float(p) => Some(Wire(4, p))
  }

  function EncodeScalar(f: Field, isObject: bool): Option<Bytes>
    requires !IsContainer(f)
  {
    match WireOf(f, isObject)
    case None => None
    case Some(w) =>
      if ControlBytes(TypeOf(f), w.size).None? then None else Some(ControlBytes(TypeOf(f), w.size).value + w.payload)
  }

  // ---------- Reading ----------

  function DecodeScalar(t: nat, b: Bytes, pos: nat, size: nat): Option<(Field, nat)>
    requires pos <= |b|
  {
    if t == BOOLEAN then (if size <= 1 then Some((Boolean(size == 1), pos)) else None)
    else if pos + size > |b| then None
    else
      var p := b[pos..pos + size];
      var next := pos + size;
      if t == TEXT then Some((Text(p), next))
      else if t == BLOB then Some((Blob(p), next))
      else if t == DOUBLE then (if size == 8 then Some((Double(p), next)) else None)
      else if t == FLOAT then (if size == 4 then Some((Float(p), next)) else None)
      else if t == INT32 then (if DecodeInt32(p).Some? then Some((Int32(DecodeInt32(p).value), next)) else None)
      else if t == UINT16 then UnsignedField(16, p, next)
      else if t == UINT32 then UnsignedField(32, p, next)
      else if t == UINT64 then UnsignedField(64, p, next)
      else if t == UINT128 then UnsignedField(128, p, next)
      else None
  }

  function UnsignedField(bits: nat, p: Bytes, next: nat): Option<(Field, nat)> {
    match DecodeUnsigned(bits, p) case None => None case Some(n) => Some((Unsigned(bits, n), next))
  }

  /** A reader of the data section. It follows a pointer only backwards, and only to something that is not a pointer. */
  function Decode(b: Bytes, pos: nat, fuel: nat): Option<(Field, nat)>
    decreases fuel, 1
  {
    if fuel == 0 then None
    else if IsPointerAt(b, pos) then
      match DecodePointer(b, pos)
      case None => None
      case Some((target, next)) =>
        if target >= pos || IsPointerAt(b, target) then None
        else match DecodeDirect(b, target, fuel) case None => None case Some((f, _)) => Some((f, next))
    else DecodeDirect(b, pos, fuel)
  }

  function DecodeDirect(b: Bytes, pos: nat, fuel: nat): Option<(Field, nat)>
    requires fuel > 0
    decreases fuel, 0
  {
    match DecodeControl(b, pos)
    case None => None
    case Some(c) =>
      if c.fieldType == MAP then
        match DecodeItems(b, c.next, 2 * c.size, fuel - 1)
        case None => None
        case Some((items, next)) => if KeysAreText(items) then Some((Hash(Pairs(items)), next)) else None
      else if c.fieldType == ARRAY then
        match DecodeItems(b, c.next, c.size, fuel - 1)
        case None => None
        case Some((items, next)) => Some((List(items), next))
      else DecodeScalar(c.fieldType, b, c.next, c.size)
  }

  function DecodeItems(b: Bytes, pos: nat, n: nat, fuel: nat): (r: Option<(seq<Field>, nat)>)
    ensures r.Some? ==> |r.value.0| == n
    decreases fuel, 2, n
  {
    if n == 0 then Some(([], pos))
    else
      match Decode(b, pos, fuel)
      case None => None
      case Some((f, next)) =>
        match DecodeItems(b, next, n - 1, fuel) case None => None case Some((fs, end)) => Some(([f] + fs, end))
  }

  predicate KeysAreText(items: seq<Field>) {
    |items| % 2 == 0 && forall j | 0 <= j < |items| && j % 2 == 0 :: items[j].Text?
  }

  function Pairs(items: seq<Field>): seq<Member>
    requires KeysAreText(items)
  {
    seq(|items| / 2, j requires 0 <= j < |items| / 2 => Member(items[2 * j].bytes, items[2 * j + 1]))
  }

  lemma PairsOfChildren(ms: seq<Member>)
    ensures KeysAreText(Children(Hash(ms))) && Pairs(Children(Hash(ms))) == ms
  {
    var items := Children(Hash(ms));
    forall j | 0 <= j < |items| && j % 2 == 0 ensures items[j].Text? {
    }
    forall j | 0 <= j < |ms| ensures Pairs(items)[j] == ms[j] {
      assert items[2 * j] == Text(ms[j].key) && items[2 * j + 1] == ms[j].value;
    }
  }

  // ---------- Reading does not change when more is written or more fuel is given ----------

  lemma ControlGrows(b: Bytes, c: Bytes, pos: nat)
    requires DecodeControl(b, pos).Some?
    ensures DecodeControl(b + c, pos) == DecodeControl(b, pos)
  {
    var p := if b[pos] / 32 == 0 then pos + 2 else pos + 1;
    var n := SizeBytes(b[pos] % 32);
    assert (b + c)[p..p + n] == b[p..p + n];
  }

  lemma PointerGrows(b: Bytes, c: Bytes, pos: nat)
    requires IsPointerAt(b, pos) && DecodePointer(b, pos).Some?
    ensures IsPointerAt(b + c, pos) && DecodePointer(b + c, pos) == DecodePointer(b, pos)
  {
    var count := b[pos] / 8 % 4 + 1;
    assert (b + c)[pos + 1..pos + 1 + count] == b[pos + 1..pos + 1 + count];
  }

  lemma ScalarGrows(t: nat, b: Bytes, c: Bytes, pos: nat, size: nat)
    requires pos <= |b| && DecodeScalar(t, b, pos, size).Some?
    ensures DecodeScalar(t, b + c, pos, size) == DecodeScalar(t, b, pos, size)
  {
    if t != BOOLEAN {
      assert (b + c)[pos..pos + size] == b[pos..pos + size];
    }
  }

  lemma {:induction false} DecodeGrows(b: Bytes, c: Bytes, pos: nat, fuel: nat, fuel': nat)
    requires fuel <= fuel' && Decode(b, pos, fuel).Some?
    ensures Decode(b + c, pos, fuel') == Decode(b, pos, fuel)
    decreases fuel, 1
  {
    if IsPointerAt(b, pos) {
      PointerGrows(b, c, pos);
      var target := DecodePointer(b, pos).value.0;
      assert IsPointerAt(b + c, target) == IsPointerAt(b, target);
      DecodeDirectGrows(b, c, target, fuel, fuel');
    } else {
      assert pos < |b| by { ReadInside(b, pos, fuel); }
      DecodeDirectGrows(b, c, pos, fuel, fuel');
    }
  }

  lemma ReadInside(b: Bytes, pos: nat, fuel: nat)
    requires Decode(b, pos, fuel).Some?
    ensures pos < |b|
  {
  }

  lemma {:induction false} DecodeDirectGrows(b: Bytes, c: Bytes, pos: nat, fuel: nat, fuel': nat)
    requires 0 < fuel <= fuel' && DecodeDirect(b, pos, fuel).Some?
    ensures DecodeDirect(b + c, pos, fuel') == DecodeDirect(b, pos, fuel)
    decreases fuel, 0
  {
    ControlGrows(b, c, pos);
    var ctl := DecodeControl(b, pos).value;
    if ctl.fieldType == MAP {
      DecodeItemsGrow(b, c, ctl.next, 2 * ctl.size, fuel - 1, fuel' - 1);
    } else if ctl.fieldType == ARRAY {
      DecodeItemsGrow(b, c, ctl.next, ctl.size, fuel - 1, fuel' - 1);
    } else {
      ScalarGrows(ctl.fieldType, b, c, ctl.next, ctl.size);
    }
  }

  lemma {:induction false} DecodeItemsGrow(b: Bytes, c: Bytes, pos: nat, n: nat, fuel: nat, fuel': nat)
    requires fuel <= fuel' && DecodeItems(b, pos, n, fuel).Some?
    ensures DecodeItems(b + c, pos, n, fuel') == DecodeItems(b, pos, n, fuel)
    decreases fuel, 2, n
  {
    if n > 0 {
      DecodeGrows(b, c, pos, fuel, fuel');
      DecodeItemsGrow(b, c, Decode(b, pos, fuel).value.1, n - 1, fuel, fuel');
    }
  }

  // ---------- Storing ----------

  /** `longText` says of numbers and booleans whether Perl's text for them has four bytes or more, and `isObject` of
      unsigned integers whether they are Math::UInt128 objects rather than strings of digits. */
  datatype Settings = Settings(deduplicate: bool, key: Field -> Key, longText: Field -> bool, isObject: Field -> bool)

  const MINIMUM_CACHEABLE_SIZE := 4

  /** The smallest number of 16 decimal digits. */
  const LONG_NUMBER := 1_000_000_000_000_000

  /** _should_cache_value. */
  predicate ShouldCache(cfg: Settings, f: Field) {
    && cfg.deduplicate
    && match f
       case Int32(_) => false
       case Unsigned(bits, n) => (bits == 64 || bits == 128) && n >= LONG_NUMBER
       case Hash(_) => true
       case List(_) => true
       case Text(b) => |b| >= MINIMUM_CACHEABLE_SIZE
       case Blob(b) => |b| >= MINIMUM_CACHEABLE_SIZE
       case _ => cfg.longText(f)
  }

  datatype State = State(buffer: Bytes, cache: map<Key, nat>)

  /** The state after storing, and the position that is returned: None where storing dies. */
  datatype Stored = Stored(state: State, position: Option<nat>)

  function Append(st: State, bytes: Option<Bytes>): Stored {
    match bytes
    case None => Stored(st, None)
    case Some(b) => Stored(st.(buffer := st.buffer + b), Some(|st.buffer|))
  }

  /** store_data. */
  function Store(cfg: Settings, st: State, f: Field): Stored
    decreases Depth(f), 1
  {
    if !ShouldCache(cfg, f) then Encode(cfg, st, f)
    else if cfg.key(f) in st.cache then Append(st, PointerBytes(st.cache[cfg.key(f)]))
    else
      var r := Encode(cfg, st, f);
      if r.position.None? then r
      else Stored(r.state.(cache := r.state.cache[cfg.key(f) := r.position.value]), r.position)
  }

  /** _store_data. */
  function Encode(cfg: Settings, st: State, f: Field): Stored
    decreases Depth(f), 0
  {
    if !IsContainer(f) then Append(st, EncodeScalar(f, cfg.isObject(f)))
    else
      var head := Append(st, ControlBytes(TypeOf(f), if f.Hash? then |f.members| else |f.items|));
      if head.position.None? then head
      else
        ChildrenAreShallower(f);
        var r := StoreChildren(cfg, head.state, f, 0);
        Stored(r.state, if r.position.None? then None else head.position)
  }

  /** An array has no type for the items of an array inside it. */
  predicate Untyped(f: Field, child: Field) { f.List? && child.List? }

  /** The loops of _encode_map and _encode_array, from child i on. */
  function StoreChildren(cfg: Settings, st: State, f: Field, i: nat): Stored
    requires i <= |Children(f)| && forall g | g in Children(f) :: Depth(g) < Depth(f)
    decreases Depth(f), 0, |Children(f)| - i
  {
    if i == |Children(f)| then Stored(st, Some(|st.buffer|))
    else
      var r :=
        if Untyped(f, Children(f)[i]) then StoreUntyped(cfg, st, Children(f)[i]) else Store(cfg, st, Children(f)[i]);
      if r.position.None? then r else StoreChildren(cfg, r.state, f, i + 1)
  }

  /** An array without a type for its items is found in the cache or dies. */
  function StoreUntyped(cfg: Settings, st: State, f: Field): Stored {
    if ShouldCache(cfg, f) && cfg.key(f) in st.cache then Append(st, PointerBytes(st.cache[cfg.key(f)]))
    else Stored(st, None)
  }
}
