/** What merging makes of each member, and what it promises: associativity, idempotence, and that add-only never makes
    a container. */
module MergeLaws {
  import opened Wrappers
  import opened Data
  import opened Merge

  // ---------- What a merge makes, member by member ----------

  /** Under toplevel the members of the inserted hash replace the existing ones whole, and the others stay. */
  lemma TopLevelReplaces(s: Strategy, f: map<Bytes, Value>, i: map<Bytes, Value>)
    requires s == TopLevel || s == NoMerge
    ensures MergeValues(s, Map(f), Map(i)) == Some(Map(i + f))
  {
    assert forall k | k in f && k in i :: MergeMembers(s, f[k], i[k]) == Some(f[k]);
    assert MergeValues(s, Map(f), Map(i)).value.entries == i + f;
  }

  /** Recurse takes every member that only the inserted hash has; add-only takes the scalars among them. What both have
      is merged in turn, and what only the existing hash has stays. */
  lemma HashesDescend(s: Strategy, f: map<Bytes, Value>, i: map<Bytes, Value>)
    requires s == Recurse || s == AddOnly
    ensures MergeValues(s, Map(f), Map(i)).Some? <==> forall k | k in f && k in i :: MergeValues(s, f[k], i[k]).Some?
    ensures MergeValues(s, Map(f), Map(i)).Some? ==>
      var merged := MergeValues(s, Map(f), Map(i)).value;
      && merged.Map?
      && (forall k | k in merged.entries :: k in i || k in f)
      && (forall k | k in i && k !in f :: k in merged.entries && merged.entries[k] == i[k])
      && (forall k | k in f && k in i :: k in merged.entries && MergeValues(s, f[k], i[k]) == Some(merged.entries[k]))
      && (forall k | k in f && k !in i :: k in merged.entries <==> s == Recurse || f[k].Scalar?)
      && (forall k | k in f && k !in i && k in merged.entries :: merged.entries[k] == f[k])
  {
    forall k | k in f && k in i ensures MergeMembers(s, f[k], i[k]) == MergeValues(s, f[k], i[k]) {
    }
  }

  /** Shared items are merged in turn whatever the strategy, and the longer array keeps its other items; but add-only
      lets the existing array grow only up to the inserted side's first reference. */
  lemma ArraysDescend(s: Strategy, f: seq<Value>, i: seq<Value>)
    ensures MergeValues(s, Array(f), Array(i)).Some?
       <==> forall j | 0 <= j < |f| && j < |i| :: MergeValues(s, f[j], i[j]).Some?
    ensures MergeValues(s, Array(f), Array(i)).Some? ==>
      var merged := MergeValues(s, Array(f), Array(i)).value;
      && merged.Array? && |i| <= |merged.items| <= (if |f| < |i| then |i| else |f|)
      && (forall j | 0 <= j < |f| && j < |i| :: MergeValues(s, f[j], i[j]) == Some(merged.items[j]))
      && (forall j | |f| <= j < |i| :: merged.items[j] == i[j])
      && (forall j | |i| <= j < |merged.items| :: merged.items[j] == f[j] && (s == AddOnly ==> f[j].Scalar?))
      && (|merged.items| < |f| ==> s == AddOnly && !f[|merged.items|].Scalar?)
  {
  }

  /** The inserted one of two scalars wins; a scalar and a reference, references of two kinds, and objects make the
      merge croak. */
  lemma OnlyLikeKindsMerge(s: Strategy, from: Value, into: Value)
    ensures from.Scalar? && into.Scalar? ==> MergeValues(s, from, into) == Some(from)
    ensures MergeValues(s, from, into).Some? ==>
      (from.Scalar? && into.Scalar?) || (from.Map? && into.Map?) || (from.Array? && into.Array?)
  {
  }

  /** Does a merge that descends as s does come to an object? Two objects do not merge, not even an object with
      itself. */
  predicate MeetsObject(s: Strategy, v: Value) {
    match v
    case Scalar(_) => false
    case Object(_) => true
    case Array(a) => exists j | 0 <= j < |a| :: MeetsObject(s, a[j])
    case Map(m) => (s == Recurse || s == AddOnly) && exists k | k in m :: MeetsObject(s, m[k])
  }

  /** Merging a value with itself changes nothing, or croaks exactly when it comes to an object. */
  lemma {:induction false} MergeIdempotent(s: Strategy, v: Value)
    ensures MergeValues(s, v, v) == if MeetsObject(s, v) then None else Some(v)
    decreases v
  {
    match v
    case Scalar(_) =>
    case Object(_) =>
    case Map(m) =>
      forall k | k in m
        ensures MergeMembers(s, m[k], m[k])
             == if (s == Recurse || s == AddOnly) && MeetsObject(s, m[k]) then None else Some(m[k])
      {
        MergeIdempotent(s, m[k]);
      }
      if MergeValues(s, v, v).Some? { assert MergeValues(s, v, v).value.entries == m; }
    case Array(a) =>
      forall j | 0 <= j < |a|
        ensures MergeValues(s, a[j], a[j]) == if MeetsObject(s, a[j]) then None else Some(a[j])
      {
        MergeIdempotent(s, a[j]);
      }
      if MergeValues(s, v, v).Some? { assert MergeValues(s, v, v).value.items == a; }
  }

  /** Does merging the same data a second time croak? Add-only never copies an object that it could meet again. */
  predicate CroaksAgain(s: Strategy, from: Value) { s != AddOnly && MeetsObject(s, from) }

  /** Merging the same data a second time changes nothing, or croaks exactly when the data has an object in the way. */
  lemma {:induction false} MergeAbsorbs(s: Strategy, from: Value, into: Value)
    requires MergeValues(s, from, into).Some?
    ensures var merged := MergeValues(s, from, into);
      MergeValues(s, from, merged.value) == if CroaksAgain(s, from) then None else merged
    decreases from
  {
    match (from, into)
    case (Scalar(_), Scalar(_)) =>
    case (Map(f), Map(i)) => MapAbsorbs(s, f, i);
    case (Array(f), Array(i)) => ArrayAbsorbs(s, f, i);
  }

  lemma {:induction false} MapAbsorbs(s: Strategy, f: map<Bytes, Value>, i: map<Bytes, Value>)
    requires MergeValues(s, Map(f), Map(i)).Some?
    ensures var merged := MergeValues(s, Map(f), Map(i));
      MergeValues(s, Map(f), merged.value) == if CroaksAgain(s, Map(f)) then None else merged
    decreases Map(f), 0
  {
    var merged := MergeValues(s, Map(f), Map(i)).value;
    var m := merged.entries;
    forall k | k in f && k in m
      ensures MergeMembers(s, f[k], m[k]) == if s == Recurse && MeetsObject(s, f[k]) then None else Some(m[k])
    {
      assert f[k] < Map(f);
      if k in i {
        assert MergeMembers(s, f[k], i[k]).Some?;
        if s == Recurse || s == AddOnly {
          MergeAbsorbs(s, f[k], i[k]);
        }
      } else {
        MergeIdempotent(s, f[k]);
      }
    }
    if MergeValues(s, Map(f), merged).Some? { assert MergeValues(s, Map(f), merged).value.entries == m; }
  }

  lemma {:induction false} ArrayAbsorbs(s: Strategy, f: seq<Value>, i: seq<Value>)
    requires MergeValues(s, Array(f), Array(i)).Some?
    ensures var merged := MergeValues(s, Array(f), Array(i));
      MergeValues(s, Array(f), merged.value) == if CroaksAgain(s, Array(f)) then None else merged
    decreases Array(f), 0
  {
    var merged := MergeValues(s, Array(f), Array(i)).value;
    var m := merged.items;
    forall j | 0 <= j < |f| && j < |m|
      ensures MergeValues(s, f[j], m[j]) == if CroaksAgain(s, f[j]) then None else Some(m[j])
    {
      if j < |i| {
        MergeAbsorbs(s, f[j], i[j]);
      } else {
        MergeIdempotent(s, f[j]);
      }
    }
    if MergeValues(s, Array(f), merged).Some? { assert MergeValues(s, Array(f), merged).value.items == m; }
  }

  /** Sequencing of partial merges. */
  function Then(s: Strategy, from: Value, into: Option<Value>): Option<Value> {
    if into.Some? then MergeValues(s, from, into.value) else None
  }

  function After(s: Strategy, from: Option<Value>, into: Value): Option<Value> {
    if from.Some? then MergeValues(s, from.value, into) else None
  }

  /** The recursive merge is associative as a partial function: both groupings croak on the same inputs. */
  lemma {:induction false} RecurseAssociative(a: Value, b: Value, c: Value)
    ensures Then(Recurse, a, MergeValues(Recurse, b, c)) == After(Recurse, MergeValues(Recurse, a, b), c)
    decreases b
  {
    match (a, b, c)
    case (Map(x), Map(y), Map(z)) =>
      forall k | k in y && k in x && k in z ensures Associates(x[k], y[k], z[k]) {
        RecurseAssociative(x[k], y[k], z[k]);
      }
      MapsAssociate(x, y, z);
    case (Array(x), Array(y), Array(z)) =>
      forall j | 0 <= j < |y| && j < |x| && j < |z| ensures Associates(x[j], y[j], z[j]) {
        RecurseAssociative(x[j], y[j], z[j]);
      }
      ArraysAssociate(x, y, z);
    case _ =>
  }

  ghost predicate Associates(x: Value, y: Value, z: Value) {
    Then(Recurse, x, MergeValues(Recurse, y, z)) == After(Recurse, MergeValues(Recurse, x, y), z)
  }

  /** m is what merging x into y under recurse gives, said key by key. */
  ghost predicate IsMapMerge(x: map<Bytes, Value>, y: map<Bytes, Value>, m: map<Bytes, Value>) {
    && m.Keys == x.Keys + y.Keys
    && (forall k | k in x && k in y :: MergeValues(Recurse, x[k], y[k]) == Some(m[k]))
    && (forall k | k in x && k !in y :: m[k] == x[k])
    && (forall k | k in y && k !in x :: m[k] == y[k])
  }

  lemma MapMergeIs(x: map<Bytes, Value>, y: map<Bytes, Value>)
    requires forall k | k in x && k in y :: MergeValues(Recurse, x[k], y[k]).Some?
    ensures exists m :: IsMapMerge(x, y, m) && MergeValues(Recurse, Map(x), Map(y)) == Some(Map(m))
  {
    assert forall k | k in x && k in y :: MergeMembers(Recurse, x[k], y[k]) == MergeValues(Recurse, x[k], y[k]);
    var m := MergeValues(Recurse, Map(x), Map(y)).value.entries;
    assert IsMapMerge(x, y, m);
  }

  lemma MapMergeDefined(x: map<Bytes, Value>, y: map<Bytes, Value>)
    requires MergeValues(Recurse, Map(x), Map(y)).Some?
    ensures forall k | k in x && k in y :: MergeValues(Recurse, x[k], y[k]).Some?
  {
    forall k | k in x && k in y ensures MergeValues(Recurse, x[k], y[k]).Some? {
      assert MergeMembers(Recurse, x[k], y[k]).Some?;
    }
  }

  lemma MapMergeUnique(x: map<Bytes, Value>, y: map<Bytes, Value>, m: map<Bytes, Value>)
    requires IsMapMerge(x, y, m)
    ensures MergeValues(Recurse, Map(x), Map(y)) == Some(Map(m))
  {
    MapMergeIs(x, y);
    var m' :| IsMapMerge(x, y, m') && MergeValues(Recurse, Map(x), Map(y)) == Some(Map(m'));
    forall k | k in m ensures m[k] == m'[k] {
      if k in x && k in y { assert Some(m[k]) == Some(m'[k]); }
    }
    assert m == m';
  }

  lemma MapsAssociate(x: map<Bytes, Value>, y: map<Bytes, Value>, z: map<Bytes, Value>)
    requires forall k | k in y && k in x && k in z :: Associates(x[k], y[k], z[k])
    ensures Associates(Map(x), Map(y), Map(z))
  {
    var yz, xy := MergeValues(Recurse, Map(y), Map(z)), MergeValues(Recurse, Map(x), Map(y));
    if Then(Recurse, Map(x), yz).Some? {
      MapMergeDefined(y, z);
      MapMergeIs(y, z);
      MapMergeDefined(x, yz.value.entries);
      MapMergeIs(x, yz.value.entries);
      MapsAssociateRight(x, y, z, yz.value.entries, Then(Recurse, Map(x), yz).value.entries);
    } else if After(Recurse, xy, Map(z)).Some? {
      MapMergeDefined(x, y);
      MapMergeIs(x, y);
      MapMergeDefined(xy.value.entries, z);
      MapMergeIs(xy.value.entries, z);
      MapsAssociateLeft(x, y, z, xy.value.entries, After(Recurse, xy, Map(z)).value.entries);
    }
  }

  lemma MapsAssociateRight(x: map<Bytes, Value>, y: map<Bytes, Value>, z: map<Bytes, Value>,
                           yz: map<Bytes, Value>, xyz: map<Bytes, Value>)
    requires forall k | k in y && k in x && k in z :: Associates(x[k], y[k], z[k])
    requires IsMapMerge(y, z, yz) && IsMapMerge(x, yz, xyz)
    ensures After(Recurse, MergeValues(Recurse, Map(x), Map(y)), Map(z)) == Some(Map(xyz))
  {
    hide MergeValues;
    forall k | k in x && k in y ensures MergeValues(Recurse, x[k], y[k]).Some? {
      assert MergeValues(Recurse, x[k], yz[k]).Some?;
      if k in z { assert Associates(x[k], y[k], z[k]); }
    }
    MapMergeIs(x, y);
    var xy :| IsMapMerge(x, y, xy) && MergeValues(Recurse, Map(x), Map(y)) == Some(Map(xy));
    forall k | k in xy && k in z ensures MergeValues(Recurse, xy[k], z[k]) == Some(xyz[k]) {
      if k in x && k in y { assert Associates(x[k], y[k], z[k]); }
    }
    MapMergeUnique(xy, z, xyz);
  }

  lemma MapsAssociateLeft(x: map<Bytes, Value>, y: map<Bytes, Value>, z: map<Bytes, Value>,
                          xy: map<Bytes, Value>, xyz: map<Bytes, Value>)
    requires forall k | k in y && k in x && k in z :: Associates(x[k], y[k], z[k])
    requires IsMapMerge(x, y, xy) && IsMapMerge(xy, z, xyz)
    ensures Then(Recurse, Map(x), MergeValues(Recurse, Map(y), Map(z))) == Some(Map(xyz))
  {
    hide MergeValues;
    forall k | k in y && k in z ensures MergeValues(Recurse, y[k], z[k]).Some? {
      assert MergeValues(Recurse, xy[k], z[k]).Some?;
      if k in x { assert Associates(x[k], y[k], z[k]); }
    }
    MapMergeIs(y, z);
    var yz :| IsMapMerge(y, z, yz) && MergeValues(Recurse, Map(y), Map(z)) == Some(Map(yz));
    forall k | k in x && k in yz ensures MergeValues(Recurse, x[k], yz[k]) == Some(xyz[k]) {
      if k in y && k in z { assert Associates(x[k], y[k], z[k]); }
    }
    MapMergeUnique(x, yz, xyz);
  }

  /** m is what merging x into y under recurse gives, said index by index. */
  ghost predicate IsArrayMerge(x: seq<Value>, y: seq<Value>, m: seq<Value>) {
    && |m| == (if |x| <= |y| then |y| else |x|)
    && (forall j | 0 <= j < |m| && j < |x| && j < |y| :: MergeValues(Recurse, x[j], y[j]) == Some(m[j]))
    && (forall j | |y| <= j < |x| :: m[j] == x[j])
    && (forall j | |x| <= j < |y| :: m[j] == y[j])
  }

  lemma ArrayMergeIs(x: seq<Value>, y: seq<Value>, m: seq<Value>)
    ensures IsArrayMerge(x, y, m) <==> MergeValues(Recurse, Array(x), Array(y)) == Some(Array(m))
  {
    assert MergedLength(Recurse, x, y) == if |x| <= |y| then |y| else |x|;
    if IsArrayMerge(x, y, m) {
      assert MergeValues(Recurse, Array(x), Array(y)).value.items == m;
    }
  }

  lemma ArraysAssociate(x: seq<Value>, y: seq<Value>, z: seq<Value>)
    requires forall j | 0 <= j < |y| && j < |x| && j < |z| :: Associates(x[j], y[j], z[j])
    ensures Associates(Array(x), Array(y), Array(z))
  {
    var yz, xy := MergeValues(Recurse, Array(y), Array(z)), MergeValues(Recurse, Array(x), Array(y));
    if Then(Recurse, Array(x), yz).Some? {
      ArraysAssociateRight(x, y, z, yz.value.items, Then(Recurse, Array(x), yz).value.items);
    } else if After(Recurse, xy, Array(z)).Some? {
      ArraysAssociateLeft(x, y, z, xy.value.items, After(Recurse, xy, Array(z)).value.items);
    }
  }

  lemma ArraysAssociateRight(x: seq<Value>, y: seq<Value>, z: seq<Value>, yz: seq<Value>, xyz: seq<Value>)
    requires forall j | 0 <= j < |y| && j < |x| && j < |z| :: Associates(x[j], y[j], z[j])
    requires MergeValues(Recurse, Array(y), Array(z)) == Some(Array(yz))
    requires MergeValues(Recurse, Array(x), Array(yz)) == Some(Array(xyz))
    ensures After(Recurse, MergeValues(Recurse, Array(x), Array(y)), Array(z)) == Some(Array(xyz))
  {
    ArrayMergeIs(y, z, yz);
    ArrayMergeIs(x, yz, xyz);
    forall j | 0 <= j < |x| && j < |y| ensures MergeValues(Recurse, x[j], y[j]).Some? {
      assert MergeValues(Recurse, x[j], yz[j]).Some?;
      if j < |z| { assert Associates(x[j], y[j], z[j]); }
    }
    var xy := MergeValues(Recurse, Array(x), Array(y)).value.items;
    ArrayMergeIs(x, y, xy);
    forall j | 0 <= j < |xy| && j < |z| ensures MergeValues(Recurse, xy[j], z[j]) == Some(xyz[j]) {
      if j < |x| && j < |y| { assert Associates(x[j], y[j], z[j]); }
    }
    ArrayMergeIs(xy, z, xyz);
  }

  lemma ArraysAssociateLeft(x: seq<Value>, y: seq<Value>, z: seq<Value>, xy: seq<Value>, xyz: seq<Value>)
    requires forall j | 0 <= j < |y| && j < |x| && j < |z| :: Associates(x[j], y[j], z[j])
    requires MergeValues(Recurse, Array(x), Array(y)) == Some(Array(xy))
    requires MergeValues(Recurse, Array(xy), Array(z)) == Some(Array(xyz))
    ensures Then(Recurse, Array(x), MergeValues(Recurse, Array(y), Array(z))) == Some(Array(xyz))
  {
    ArrayMergeIs(x, y, xy);
    ArrayMergeIs(xy, z, xyz);
    forall j | 0 <= j < |y| && j < |z| ensures MergeValues(Recurse, y[j], z[j]).Some? {
      assert MergeValues(Recurse, xy[j], z[j]).Some?;
      if j < |x| { assert Associates(x[j], y[j], z[j]); }
    }
    var yz := MergeValues(Recurse, Array(y), Array(z)).value.items;
    ArrayMergeIs(y, z, yz);
    forall j | 0 <= j < |x| && j < |yz| ensures MergeValues(Recurse, x[j], yz[j]) == Some(xyz[j]) {
      if j < |y| && j < |z| { assert Associates(x[j], y[j], z[j]); }
    }
    ArrayMergeIs(x, yz, xyz);
  }

  // ---------- Paths into a value ----------

  datatype Step = Key(k: Bytes) | Index(i: nat)

  /** The value that a path leads to. */
  function At(v: Value, path: seq<Step>): Option<Value>
    decreases |path|
  {
    if path == [] then Some(v)
    else match (v, path[0])
      case (Map(m), Key(k)) => if k in m then At(m[k], path[1..]) else None
      case (Array(a), Index(i)) => if i < |a| then At(a[i], path[1..]) else None
      case _ => None
  }

  predicate ContainerAt(v: Value, path: seq<Step>) {
    At(v, path).Some? && IsReference(At(v, path).value)
  }

  /** Add-only keeps exactly the hashes and arrays of the existing record, at the same places. */
  lemma {:induction false} AddOnlyKeepsContainers(from: Value, into: Value, path: seq<Step>)
    requires MergeValues(AddOnly, from, into).Some?
    ensures ContainerAt(MergeValues(AddOnly, from, into).value, path) <==> ContainerAt(into, path)
    decreases |path|
  {
    var merged := MergeValues(AddOnly, from, into).value;
    if path != [] {
      match (from, into, path[0])
      case (Map(f), Map(i), Key(k)) =>
        if k in f && k in i {
          assert MergeMembers(AddOnly, f[k], i[k]).Some?;
          AddOnlyKeepsContainers(f[k], i[k], path[1..]);
        } else if k in f && k in merged.entries {
          ScalarHasNoContainer(f[k], path[1..]);
        }
      case (Array(f), Array(i), Index(j)) =>
        if j < |f| && j < |i| {
          AddOnlyKeepsContainers(f[j], i[j], path[1..]);
        } else if j < |f| && j < |merged.items| {
          ScalarHasNoContainer(f[j], path[1..]);
        }
      case _ =>
    }
  }

  lemma ScalarHasNoContainer(v: Value, path: seq<Step>)
    requires v.Scalar?
    ensures !ContainerAt(v, path)
  {
  }

  /** Under recurse and add-only, a scalar that both sides have takes the inserted side's text. */
  lemma {:induction false} InsertedScalarWins(s: Strategy, from: Value, into: Value, path: seq<Step>)
    requires s == Recurse || s == AddOnly
    requires MergeValues(s, from, into).Some?
    requires At(from, path).Some? && At(into, path).Some? && At(from, path).value.Scalar?
    ensures At(MergeValues(s, from, into).value, path) == At(from, path)
    decreases |path|
  {
    if path != [] {
      match (from, into, path[0])
      case (Map(f), Map(i), Key(k)) =>
        assert MergeMembers(s, f[k], i[k]).Some?;
        InsertedScalarWins(s, f[k], i[k], path[1..]);
      case (Array(f), Array(i), Index(j)) =>
        InsertedScalarWins(s, f[j], i[j], path[1..]);
      case _ =>
    }
  }

  /** Nothing the existing record had is lost: every path of it still leads somewhere, of the same shape. */
  lemma {:induction false} ExistingPathsSurvive(s: Strategy, from: Value, into: Value, path: seq<Step>)
    requires s == Recurse || s == AddOnly
    requires MergeValues(s, from, into).Some?
    requires At(into, path).Some?
    ensures At(MergeValues(s, from, into).value, path).Some?
    ensures At(from, path).None? ==>
      At(MergeValues(s, from, into).value, path).value.Scalar? == At(into, path).value.Scalar?
    ensures At(from, path).None? && At(into, path).value.Scalar?
        ==> At(MergeValues(s, from, into).value, path) == At(into, path)
    decreases |path|
  {
    if path != [] {
      match (from, into, path[0])
      case (Map(f), Map(i), Key(k)) =>
        if k in f {
          assert MergeMembers(s, f[k], i[k]).Some?;
          ExistingPathsSurvive(s, f[k], i[k], path[1..]);
        }
      case (Array(f), Array(i), Index(j)) =>
        if j < |f| {
          ExistingPathsSurvive(s, f[j], i[j], path[1..]);
        }
      case _ =>
    }
  }
}
