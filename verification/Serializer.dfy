/** The serializer object (lib/MaxMind/DB/Writer/Serializer.pm:86-216, 338-370). */
module Serializer {
  import opened Wrappers
  import opened Data
  import opened FieldCodec
  import opened DataSection
  import opened DataSectionLaws

  class Serializer {
    const settings: Settings
    var buffer: Bytes
    var cache: map<Key, nat>

    constructor (settings: Settings)
      ensures this.settings == settings && Now() == State([], map[])
    {
      this.settings := settings;
      buffer := [];
      cache := map[];
    }

    function Now(): State
      reads this
    {
      State(buffer, cache)
    }

    /** Every remembered position reads as what it was remembered for, exactly when that is in range. */
    ghost predicate Valid(U: iset<Field>)
      reads this
    {
      Universe(settings, U) && Coherent(settings, Now(), U)
    }

    /** _write_encoded_data */
    method Write(bytes: Bytes)
      modifies this`buffer
      ensures buffer == old(buffer) + bytes
    {
      buffer := buffer + bytes;
    }

    /** store_data: None where it dies. */
    method StoreData(f: Field) returns (position: Option<nat>)
      modifies this
      ensures Stored(Now(), position) == Store(settings, old(Now()), f)
      ensures Grows(old(Now()), Now())
      ensures forall U | old(Valid(U)) && f in U ::
        Valid(U) && StoredWell(settings, old(Now()), Stored(Now(), position), f, U)
      decreases Depth(f), 2
    {
      hide ShouldCache, Encode, StoredWell, Coherent, Universe, PointerBytes;
      StoreGrows(settings, Now(), f);
      forall U | Valid(U) && f in U ensures StoredWell(settings, Now(), Store(settings, Now(), f), f, U) {
        StoreReads(settings, Now(), f, U);
      }
      forall U | StoredWell(settings, Now(), Store(settings, Now(), f), f, U)
        ensures Coherent(settings, Store(settings, Now(), f).state, U)
      {
        WellIsCoherent(settings, Now(), Store(settings, Now(), f), f, U);
      }
      if !ShouldCache(settings, f) {
        position := EncodeField(f);
      } else {
        var key := settings.key(f);
        if key in cache {
          position := EncodePointer(cache[key]);
        } else {
          position := EncodeField(f);
          if position.Some? {
            cache := cache[key := position.value];
          }
        }
      }
    }

    /** _encode_pointer */
    method EncodePointer(target: nat) returns (position: Option<nat>)
      modifies this`buffer
      ensures Stored(Now(), position) == Append(old(Now()), PointerBytes(target))
    {
      var bytes := PointerBytes(target);
      if bytes.None? {
        return None;
      }
      position := Some(|buffer|);
      Write(bytes.value);
    }

    /** _store_data, which picks the encoding method for the type. */
    method EncodeField(f: Field) returns (position: Option<nat>)
      modifies this
      ensures Stored(Now(), position) == Encode(settings, old(Now()), f)
      decreases Depth(f), 1
    {
      hide StoreChildren, EncodeScalar, ControlBytes;
      var currentPosition := |buffer|;
      var done;
      if f.Hash? {
        done := EncodeMap(f.members, f);
      } else if f.List? {
        done := EncodeArray(f.items, f);
      } else {
        var bytes := EncodeScalar(f, settings.isObject(f));
        done := bytes.Some?;
        if done {
          Write(bytes.value);
        }
      }
      position := if done then Some(currentPosition) else None;
    }

    /** _encode_map: the keys, each followed by its value. */
    method EncodeMap(members: seq<Member>, ghost f: Field) returns (done: bool)
      requires f == Hash(members)
      modifies this
      ensures var r := Encode(settings, old(Now()), f); Now() == r.state && (done <==> r.position.Some?)
      decreases Depth(f), 0
    {
      hide Store, ControlBytes, StoreChildren, Children, StoreUntyped, Grows, StoredWell, Coherent, Universe;
      ghost var head := Append(Now(), ControlBytes(MAP, |members|));
      HashEncodes(settings, Now(), f);
      var control := ControlBytes(MAP, |members|);
      if control.None? {
        return false;
      }
      Write(control.value);
      ChildrenAreShallower(f);
      for i := 0 to |members|
        invariant StoreChildren(settings, Now(), f, 2 * i) == StoreChildren(settings, head.state, f, 0)
      {
        HashChildren(f, i);
        StoreChildrenStep(settings, Now(), f, 2 * i);
        var stored := StoreData(Text(members[i].key));
        if stored.None? {
          return false;
        }
        StoreChildrenStep(settings, Now(), f, 2 * i + 1);
        stored := StoreData(members[i].value);
        if stored.None? {
          return false;
        }
      }
      return true;
    }

    /** _encode_array: an array inside an array has no type for its items, so it must be in the cache already. */
    method EncodeArray(items: seq<Field>, ghost f: Field) returns (done: bool)
      requires f == List(items)
      modifies this
      ensures var r := Encode(settings, old(Now()), f); Now() == r.state && (done <==> r.position.Some?)
      decreases Depth(f), 0
    {
      hide Store, ControlBytes, ShouldCache, PointerBytes;
      ghost var head := Append(Now(), ControlBytes(ARRAY, |items|));
      var control := ControlBytes(ARRAY, |items|);
      if control.None? {
        return false;
      }
      Write(control.value);
      ChildrenAreShallower(f);
      for i := 0 to |items|
        invariant StoreChildren(settings, Now(), f, i) == StoreChildren(settings, head.state, f, 0)
      {
        assert items[i] in Children(f);
        StoreChildrenStep(settings, Now(), f, i);
        var stored;
        if items[i].List? {
          if !ShouldCache(settings, items[i]) || settings.key(items[i]) !in cache {
            return false;
          }
          stored := EncodePointer(cache[settings.key(items[i])]);
        } else {
          stored := StoreData(items[i]);
        }
        if stored.None? {
          return false;
        }
      }
      return true;
    }
  }

  lemma WellIsCoherent(cfg: Settings, st: State, r: Stored, f: Field, U: iset<Field>)
    requires StoredWell(cfg, st, r, f, U)
    ensures Coherent(cfg, r.state, U)
  {
  }

  lemma HashEncodes(cfg: Settings, st: State, f: Field)
    requires f.Hash?
    ensures |Children(f)| == 2 * |f.members| && forall g | g in Children(f) :: Depth(g) < Depth(f)
    ensures var head := Append(st, ControlBytes(MAP, |f.members|));
      Encode(cfg, st, f) == if head.position.None? then head
        else Stored(StoreChildren(cfg, head.state, f, 0).state,
                    if StoreChildren(cfg, head.state, f, 0).position.None? then None else head.position)
    ensures forall st' :: StoreChildren(cfg, st', f, 2 * |f.members|) == Stored(st', Some(|st'.buffer|))
  {
    ChildrenAreShallower(f);
  }

  lemma StoreChildrenStep(cfg: Settings, st: State, f: Field, i: nat)
    requires i < |Children(f)| && forall g | g in Children(f) :: Depth(g) < Depth(f)
    ensures var r :=
      if Untyped(f, Children(f)[i]) then StoreUntyped(cfg, st, Children(f)[i]) else Store(cfg, st, Children(f)[i]);
      StoreChildren(cfg, st, f, i) == if r.position.None? then r else StoreChildren(cfg, r.state, f, i + 1)
  {
  }
}
