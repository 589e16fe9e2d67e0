/** The entity data registry: entity -> component name -> component data. */
module ComponentDataStorage {
  import opened Wrappers
  import Errors
  import opened Components
  import Enumerate

  /** The three answers to "does this entity carry this component?". */
  datatype HasEntityComponentResult = EntityNotFound | EntityDoesNotHaveComponent | EntityHasComponent

  type GetError = Errors.GetComponentDataOfEntityError

  type Bucket<E> = map<string, ComponentData<E>>

  datatype DataStorage<E(==, !new)> = DataStorage(componentsOfEntity: map<E, Bucket<E>>)

  function Empty<E(==, !new)>(): (s: DataStorage<E>)
    ensures forall e :: !HasEntity(s, e)
  {
    DataStorage(map[])
  }

  /** True exactly when the entity has a bucket, even an empty one. */
  predicate HasEntity<E(==, !new)>(s: DataStorage<E>, entity: E) {
    entity in s.componentsOfEntity
  }

  /** Entity miss first, then component miss; never `ComponentNotFound`. */
  function GetOfEntity<E(==, !new)>(s: DataStorage<E>, entity: E, name: string)
    : (r: Result<ComponentData<E>, GetError>)
    ensures r.Err? ==> r.error != GetError.ComponentNotFound
    ensures r == Err(GetError.EntityNotFound) <==> !HasEntity(s, entity)
    ensures r == Err(GetError.ComponentNotInEntity) <==>
      HasEntity(s, entity) && name !in s.componentsOfEntity[entity]
    ensures r.Ok? ==>
      HasEntity(s, entity) && name in s.componentsOfEntity[entity] && r.value == s.componentsOfEntity[entity][name]
  {
    if entity !in s.componentsOfEntity then Err(GetError.EntityNotFound)
    else if name !in s.componentsOfEntity[entity] then Err(GetError.ComponentNotInEntity)
    else Ok(s.componentsOfEntity[entity][name])
  }

  /** Upsert: creates the entity's bucket when missing, then stores `data` under
      `name`, replacing what was there. It cannot fail. */
  function SetComponentOfEntity<E(==, !new)>(s: DataStorage<E>, entity: E, name: string, data: ComponentData<E>)
    : (s': DataStorage<E>)
    ensures GetOfEntity(s', entity, name) == Ok(data)
    ensures HasEntity(s', entity)
    // the entity's other slots are untouched
    ensures forall other :: other != name && HasEntity(s, entity) ==>
      GetOfEntity(s', entity, other) == GetOfEntity(s, entity, other)
    ensures !HasEntity(s, entity) ==> s'.componentsOfEntity[entity].Keys == {name}
    // other entities are untouched
    ensures forall e :: e != entity ==> (HasEntity(s', e) <==> HasEntity(s, e))
    ensures forall e :: e != entity && HasEntity(s, e) ==>
      HasEntity(s', e) && s'.componentsOfEntity[e] == s.componentsOfEntity[e]
  {
    var bucket := if entity in s.componentsOfEntity then s.componentsOfEntity[entity] else map[];
    DataStorage(s.componentsOfEntity[entity := bucket[name := data]])
  }

  /** `does_entity_have_component`: the three-way answer agrees, in both directions,
      with the three outcomes of the read. */
  function DoesEntityHaveComponent<E(==, !new)>(s: DataStorage<E>, entity: E, name: string): (r: HasEntityComponentResult)
    ensures r == EntityNotFound <==> GetOfEntity(s, entity, name) == Err(GetError.EntityNotFound)
    ensures r == EntityDoesNotHaveComponent <==> GetOfEntity(s, entity, name) == Err(GetError.ComponentNotInEntity)
    ensures r == EntityHasComponent <==> GetOfEntity(s, entity, name).Ok?
  {
    if entity !in s.componentsOfEntity then EntityNotFound
    else if name in s.componentsOfEntity[entity] then EntityHasComponent
    else EntityDoesNotHaveComponent
  }

  /** After a write the entity exists and carries the component. */
  lemma SetThenQuery<E(!new)>(s: DataStorage<E>, entity: E, name: string, data: ComponentData<E>)
    ensures var s' := SetComponentOfEntity(s, entity, name, data);
            HasEntity(s', entity) && DoesEntityHaveComponent(s', entity, name) == EntityHasComponent
  {
  }

  /** Writing twice to one slot keeps only the second write. */
  lemma SetTwiceKeepsLast<E(!new)>(s: DataStorage<E>, entity: E, name: string, d1: ComponentData<E>, d2: ComponentData<E>)
    ensures SetComponentOfEntity(SetComponentOfEntity(s, entity, name, d1), entity, name, d2)
         == SetComponentOfEntity(s, entity, name, d2)
  {
    var bucket := if entity in s.componentsOfEntity then s.componentsOfEntity[entity] else map[];
    assert bucket[name := d1][name := d2] == bucket[name := d2];
  }

  /** `get_components_of_entity`: the bucket's names, or `None` when the entity has no bucket. */
  method GetComponentsOfEntity<E(==, !new)>(s: DataStorage<E>, entity: E) returns (r: Option<seq<string>>)
    ensures r.None? <==> !HasEntity(s, entity)
    ensures r.Some? ==>
      && (forall name :: name in r.value <==> name in s.componentsOfEntity[entity])
      && Enumerate.Distinct(r.value)
  {
    if entity in s.componentsOfEntity {
      var names := Enumerate.SetToSeq(s.componentsOfEntity[entity].Keys);
      r := Some(names);
    } else {
      r := None;
    }
  }

  /** `get_all_of_entity`: one element per component the entity carries, or `None`
      when the entity has no bucket. The ghost `names` says which component each
      element is the data of; every component of the entity appears there once. */
  method GetAllOfEntity<E(==, !new)>(s: DataStorage<E>, entity: E)
    returns (r: Option<seq<ComponentData<E>>>, ghost names: seq<string>)
    ensures r.None? <==> !HasEntity(s, entity)
    ensures r.Some? ==>
      && Enumerate.Distinct(names)
      && (forall name :: name in names <==> name in s.componentsOfEntity[entity])
      && |r.value| == |names| == |s.componentsOfEntity[entity]|
      && (forall i :: 0 <= i < |r.value| ==>
            names[i] in s.componentsOfEntity[entity] && r.value[i] == s.componentsOfEntity[entity][names[i]])
  {
    if entity in s.componentsOfEntity {
      var values;
      values, names := Enumerate.ValuesOf(s.componentsOfEntity[entity]);
      r := Some(values);
    } else {
      r, names := None, [];
    }
  }

  /** The entities whose buckets carry `name`, among `among`. */
  function Holders<E(==, !new)>(s: DataStorage<E>, name: string, among: set<E>): set<E>
    requires among <= s.componentsOfEntity.Keys
  {
    set e | e in among && name in s.componentsOfEntity[e]
  }

  /** `get_all_of_component`: one element per entity whose bucket carries `name`,
      or `None` when no bucket does. The ghost `holders` says whose data each element
      is; every such entity appears there once. */
  method GetAllOfComponent<E(==, !new)>(s: DataStorage<E>, name: string)
    returns (r: Option<seq<ComponentData<E>>>, ghost holders: seq<E>)
    ensures r.None? <==> Holders(s, name, s.componentsOfEntity.Keys) == {}
    ensures r.Some? ==>
      && Enumerate.Distinct(holders)
      && (forall e :: e in holders <==> e in Holders(s, name, s.componentsOfEntity.Keys))
      && |r.value| == |holders| == |Holders(s, name, s.componentsOfEntity.Keys)|
      && (forall i :: 0 <= i < |r.value| ==>
            holders[i] in s.componentsOfEntity && name in s.componentsOfEntity[holders[i]]
            && r.value[i] == s.componentsOfEntity[holders[i]][name])
  {
    var m := s.componentsOfEntity;
    var found: seq<ComponentData<E>> := [];
    holders := [];
    var rest := m.Keys;
    while rest != {}
      invariant rest <= m.Keys
      invariant HoldersListed(s, name, m.Keys - rest, found, holders)
      decreases |rest|
    {
      var e :| e in rest;
      var done := m.Keys - rest;
      HolderStep(s, name, done, e, found, holders);
      if name in m[e] {
        found, holders := found + [m[e][name]], holders + [e];
      }
      rest := rest - {e};
      assert m.Keys - rest == done + {e};
    }
    assert m.Keys - rest == m.Keys;
    r := if |found| == 0 then None else Some(found);
  }

  /** `found` holds the data of `name` of the holders among `done`, one element per
      holder, with `holders` naming the holder of each element. */
  ghost predicate HoldersListed<E(!new)>(s: DataStorage<E>, name: string, done: set<E>,
                                         found: seq<ComponentData<E>>, holders: seq<E>)
    requires done <= s.componentsOfEntity.Keys
  {
    var m := s.componentsOfEntity;
    && Enumerate.Distinct(holders)
    && (forall e :: e in holders <==> e in Holders(s, name, done))
    && |found| == |holders| == |Holders(s, name, done)|
    && (forall i :: 0 <= i < |found| ==>
          holders[i] in m && name in m[holders[i]] && found[i] == m[holders[i]][name])
  }

  /** Visiting one more entity appends its data exactly when it holds `name`. */
  lemma HolderStep<E(!new)>(s: DataStorage<E>, name: string, done: set<E>, e: E,
                            found: seq<ComponentData<E>>, holders: seq<E>)
    requires done <= s.componentsOfEntity.Keys && e in s.componentsOfEntity && e !in done
    requires HoldersListed(s, name, done, found, holders)
    ensures name in s.componentsOfEntity[e] ==>
      HoldersListed(s, name, done + {e}, found + [s.componentsOfEntity[e][name]], holders + [e])
    ensures name !in s.componentsOfEntity[e] ==> HoldersListed(s, name, done + {e}, found, holders)
  {
    if name in s.componentsOfEntity[e] {
      assert Holders(s, name, done + {e}) == Holders(s, name, done) + {e};
      Enumerate.AppendFresh(holders, e);
    } else {
      assert Holders(s, name, done + {e}) == Holders(s, name, done);
    }
  }

  /** The sum of the sizes of the buckets of `entities`. */
  ghost function SizeOf<E(!new)>(m: map<E, Bucket<E>>, entities: set<E>): nat
    requires entities <= m.Keys
    decreases entities
  {
    if entities == {} then 0
    else var e :| e in entities; |m[e]| + SizeOf(m, entities - {e})
  }

  /** The sum can be split at any entity, not only at the one it picks. */
  lemma {:induction false} SizeOfSplit<E(!new)>(m: map<E, Bucket<E>>, entities: set<E>, e: E)
    requires entities <= m.Keys && e in entities
    ensures SizeOf(m, entities) == |m[e]| + SizeOf(m, entities - {e})
    decreases entities
  {
    var picked :| picked in entities && SizeOf(m, entities) == |m[picked]| + SizeOf(m, entities - {picked});
    if picked != e {
      SizeOfSplit(m, entities - {picked}, e);
      SizeOfSplit(m, entities - {e}, picked);
      assert entities - {picked} - {e} == entities - {e} - {picked};
    }
  }

  /** The number of stored component-data instances, summed over entities. */
  ghost function TotalSize<E(!new)>(s: DataStorage<E>): nat {
    SizeOf(s.componentsOfEntity, s.componentsOfEntity.Keys)
  }

  /** Every stored instance. */
  function AllData<E(==, !new)>(s: DataStorage<E>): set<ComponentData<E>> {
    set e, name | e in s.componentsOfEntity && name in s.componentsOfEntity[e] :: s.componentsOfEntity[e][name]
  }

  /** The slots of one entity's bucket, in the order of `names`. */
  ghost function SlotsOf<E(!new)>(e: E, names: seq<string>): (slots: seq<(E, string)>)
    requires Enumerate.Distinct(names)
    ensures |slots| == |names| && Enumerate.Distinct(slots)
    ensures forall i :: 0 <= i < |slots| ==> slots[i] == (e, names[i])
    ensures forall x, name :: (x, name) in slots <==> x == e && name in names
  {
    seq(|names|, i requires 0 <= i < |names| => (e, names[i]))
  }

  /** `r` lists the data of the slots of the buckets of `done`, one element per slot,
      with `slots` naming the slot of each element. */
  ghost predicate Enumerated<E(!new)>(m: map<E, Bucket<E>>, done: set<E>, r: seq<ComponentData<E>>, slots: seq<(E, string)>)
    requires done <= m.Keys
  {
    && Enumerate.Distinct(slots)
    && (forall e, name :: (e, name) in slots <==> e in done && name in m[e])
    && |r| == |slots| == SizeOf(m, done)
    && (forall i :: 0 <= i < |r| ==>
          slots[i].0 in m && slots[i].1 in m[slots[i].0] && r[i] == m[slots[i].0][slots[i].1])
  }

  /** Appending one more bucket's values, as `ValuesOf` lists them, extends the enumeration. */
  lemma EnumerateStep<E(!new)>(m: map<E, Bucket<E>>, done: set<E>, e: E, r: seq<ComponentData<E>>, slots: seq<(E, string)>,
                               values: seq<ComponentData<E>>, names: seq<string>)
    requires done <= m.Keys && e in m && e !in done
    requires Enumerated(m, done, r, slots)
    requires Enumerate.Distinct(names) && |names| == |m[e]| && (forall n :: n in names <==> n in m[e])
    requires |values| == |names| && forall i :: 0 <= i < |values| ==> names[i] in m[e] && values[i] == m[e][names[i]]
    ensures Enumerated(m, done + {e}, r + values, slots + SlotsOf(e, names))
  {
    var added := SlotsOf(e, names);
    var r', slots', done' := r + values, slots + added, done + {e};
    assert forall i :: 0 <= i < |slots| ==> slots[i].0 != e by {
      forall i | 0 <= i < |slots| ensures slots[i].0 != e {
        assert (slots[i].0, slots[i].1) in slots;
      }
    }
    Enumerate.ConcatDisjoint(slots, added);
    assert forall x, name :: (x, name) in slots' <==> x in done' && name in m[x] by {
      forall x, name
        ensures (x, name) in slots' <==> x in done' && name in m[x]
      {
        assert (x, name) in slots' <==> (x, name) in slots || (x, name) in added;
      }
    }
    SizeOfSplit(m, done', e);
    assert done' - {e} == done;
    assert |r'| == |slots'| == SizeOf(m, done');
    forall i | 0 <= i < |r'|
      ensures slots'[i].0 in m && slots'[i].1 in m[slots'[i].0] && r'[i] == m[slots'[i].0][slots'[i].1]
    {
      if i < |r| {
        assert r'[i] == r[i] && slots'[i] == slots[i];
      } else {
        assert r'[i] == values[i - |r|] && slots'[i] == added[i - |r|];
      }
    }
  }

  /** `get_all`: every stored instance, one element per (entity, component) slot. The
      ghost `slots` says which slot each element was read from; every slot appears
      there once. */
  method GetAll<E(==, !new)>(s: DataStorage<E>) returns (r: seq<ComponentData<E>>, ghost slots: seq<(E, string)>)
    ensures Enumerate.Distinct(slots)
    ensures forall e, name :: (e, name) in slots <==> e in s.componentsOfEntity && name in s.componentsOfEntity[e]
    ensures |r| == |slots| == TotalSize(s)
    ensures forall i :: 0 <= i < |r| ==>
      && slots[i].0 in s.componentsOfEntity && slots[i].1 in s.componentsOfEntity[slots[i].0]
      && r[i] == s.componentsOfEntity[slots[i].0][slots[i].1]
    ensures forall d :: d in AllData(s) ==> d in r
  {
    var m := s.componentsOfEntity;
    r, slots := [], [];
    var rest := m.Keys;
    while rest != {}
      invariant rest <= m.Keys
      invariant Enumerated(m, m.Keys - rest, r, slots)
      decreases |rest|
    {
      var e :| e in rest;
      var done := m.Keys - rest;
      var values;
      ghost var names;
      values, names := Enumerate.ValuesOf(m[e]);
      EnumerateStep(m, done, e, r, slots, values, names);
      r, slots := r + values, slots + SlotsOf(e, names);
      rest := rest - {e};
      assert m.Keys - rest == done + {e};
    }
    assert m.Keys - rest == m.Keys;
    EnumeratedCoversAll(s, r, slots);
  }

  /** A complete enumeration lists every stored instance. */
  lemma EnumeratedCoversAll<E(!new)>(s: DataStorage<E>, r: seq<ComponentData<E>>, slots: seq<(E, string)>)
    requires Enumerated(s.componentsOfEntity, s.componentsOfEntity.Keys, r, slots)
    ensures forall d :: d in AllData(s) ==> d in r
  {
    var m := s.componentsOfEntity;
    forall d | d in AllData(s)
      ensures d in r
    {
      var e, name :| e in m && name in m[e] && m[e][name] == d;
      assert (e, name) in slots;
      var i :| 0 <= i < |slots| && slots[i] == (e, name);
      assert r[i] == d;
    }
  }
}
