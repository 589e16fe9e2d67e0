/** The `GCSWorld` façade: the schema registry, the entity data registry and the
    list of known entities, with the existence checks that guard every write. */
module GcsWorld {
  import opened Wrappers
  import opened Definitions
  import opened Errors
  import opened Components
  import CS = ComponentStorage
  import DS = ComponentDataStorage
  import Enumerate

  datatype World<E(==, !new)> = World(
    storage: CS.Storage,
    entities: seq<E>,
    data: DS.DataStorage<E>
  )

  /** Every stored handle resolves, and only registered entities carry data. */
  predicate Valid<E(==, !new)>(w: World<E>) {
    && CS.Valid(w.storage)
    && forall e :: e in w.data.componentsOfEntity ==> e in w.entities
  }

  /** `Default`: nothing registered, no entities, no data. */
  function Empty<E(==, !new)>(): (w: World<E>)
    ensures Valid(w)
    ensures |w.entities| == 0
    ensures forall name :: !HasComponent(w, name)
    ensures forall e :: !DS.HasEntity(w.data, e)
  {
    World(CS.Empty(), [], DS.Empty())
  }

  predicate HasComponent<E(==, !new)>(w: World<E>, name: string) {
    CS.HasComponent(w.storage, name)
  }

  /** `register_component`: the schema registry decides; its rejection is turned into
      a message naming the component. Entities and data are never touched. */
  function RegisterComponent<E(==, !new)>(w: World<E>, name: string, definition: ComponentDefinition, hasher: Hasher)
    : (r: (World<E>, Result<ComponentInfo, string>))
    ensures r.0.entities == w.entities && r.0.data == w.data
    ensures HasComponent(w, name) ==> r == (w, Err(AlreadyRegisteredMessage(name)))
    ensures !HasComponent(w, name) ==>
      && r.1 == Ok(CreateInfo(ComponentHash(hasher, definition, name)))
      && HasComponent(r.0, name)
      && CS.GetComponentInfo(r.0.storage, name) == Some(r.1.value)
      && (!CS.HasComponentInfo(w.storage, r.1.value) ==>
            CS.GetComponentDefinition(r.0.storage, r.1.value) == Some(definition))
    ensures forall other :: other != name ==>
      CS.GetComponentInfo(r.0.storage, other) == CS.GetComponentInfo(w.storage, other)
    ensures Valid(w) ==> Valid(r.0)
  {
    var (storage, result) := CS.AddComponent(w.storage, name, definition, hasher);
    match result
    case Ok(info) => (w.(storage := storage), Ok(info))
    case Err(_) => (w.(storage := storage), Err(AlreadyRegisteredMessage(name)))
  }

  /** `create_entity`: the id comes from the id type's generator, passed in here,
      and is appended without checking whether it is already listed. */
  function CreateEntity<E(==, !new)>(w: World<E>, newId: E): (r: (World<E>, E))
    ensures r.1 == newId
    ensures r.0.entities == w.entities + [newId]
    ensures r.0.storage == w.storage && r.0.data == w.data
    ensures Valid(w) ==> Valid(r.0)
  {
    (w.(entities := w.entities + [newId]), newId)
  }

  /** `register_entity`: rejects a listed id, otherwise appends it. */
  function RegisterEntity<E(==, !new)>(w: World<E>, id: E): (r: (World<E>, Outcome<RegisterEntityError>))
    ensures id in w.entities ==> r == (w, Fail(AlreadyRegistered))
    ensures id !in w.entities ==> r == (w.(entities := w.entities + [id]), Pass)
    ensures id in r.0.entities
    ensures Valid(w) ==> Valid(r.0)
  {
    if id in w.entities then (w, Fail(AlreadyRegistered))
    else (w.(entities := w.entities + [id]), Pass)
  }

  /** `set_component_data`: entity first, then component; on success the supplied data
      is stored whole, whatever fields it carries. */
  function SetComponentData<E(==, !new)>(w: World<E>, entity: E, component: string, data: ComponentData<E>)
    : (r: (World<E>, Outcome<SetComponentDataError>))
    ensures entity !in w.entities ==> r == (w, Fail(SetComponentDataError.EntityNotFound))
    ensures entity in w.entities && !HasComponent(w, component) ==>
      r == (w, Fail(SetComponentDataError.ComponentNotFound))
    ensures r.1.Pass? <==> entity in w.entities && HasComponent(w, component)
    ensures r.1.Pass? ==>
      && DS.GetOfEntity(r.0.data, entity, component) == Ok(data)
      && r.0.storage == w.storage && r.0.entities == w.entities
    // every other slot reads as before
    ensures forall e, n :: e != entity ==> DS.GetOfEntity(r.0.data, e, n) == DS.GetOfEntity(w.data, e, n)
    ensures forall n :: n != component && DS.HasEntity(w.data, entity) ==>
      DS.GetOfEntity(r.0.data, entity, n) == DS.GetOfEntity(w.data, entity, n)
    ensures Valid(w) ==> Valid(r.0)
  {
    if entity !in w.entities then (w, Fail(SetComponentDataError.EntityNotFound))
    else if !CS.HasComponent(w.storage, component) then (w, Fail(SetComponentDataError.ComponentNotFound))
    else (w.(data := DS.SetComponentOfEntity(w.data, entity, component, data)), Pass)
  }

  type GetError = Errors.GetComponentDataOfEntityError

  /** `is_component_added_to_entity`: the data registry's three-way answer. */
  function IsComponentAddedToEntity<E(==, !new)>(w: World<E>, entity: E, component: string)
    : (r: DS.HasEntityComponentResult)
    ensures r == DS.EntityHasComponent <==> DS.GetOfEntity(w.data, entity, component).Ok?
    ensures r == DS.EntityNotFound <==> !DS.HasEntity(w.data, entity)
  {
    DS.DoesEntityHaveComponent(w.data, entity, component)
  }

  /** The engine bridge's rendering of `is_component_added_to_entity`: an error for an
      entity without data, otherwise whether the component is there. */
  function IsComponentAddedAsBool<E(==, !new)>(w: World<E>, entity: E, component: string): (r: Result<bool, string>)
    ensures r.Err? <==> !DS.HasEntity(w.data, entity)
    ensures r == Ok(true) <==> DS.GetOfEntity(w.data, entity, component).Ok?
  {
    match IsComponentAddedToEntity(w, entity, component)
    case EntityNotFound => Err("Entity not found")
    case EntityDoesNotHaveComponent => Ok(false)
    case EntityHasComponent => Ok(true)
  }

  /** A listed entity that has no data yet is "not found" to the bridge's question,
      while the façade's own read reports only that the component is missing. */
  lemma DatalessEntityAnswers<E(!new)>(w: World<E>, entity: E, component: string)
    requires entity in w.entities && !DS.HasEntity(w.data, entity) && HasComponent(w, component)
    ensures IsComponentAddedAsBool(w, entity, component).Err?
    ensures GetComponentOfEntity(w, entity, component) == Err(GetError.ComponentNotInEntity)
  {
  }

  /** `get_components_of_entity`: the bucket's names; an empty list for a listed entity
      without data; `EntityNotFound` for an entity that is neither. */
  method GetComponentsOfEntity<E(==, !new)>(w: World<E>, entity: E) returns (r: Result<seq<string>, GetError>)
    ensures r.Err? <==> !DS.HasEntity(w.data, entity) && entity !in w.entities
    ensures r.Err? ==> r.error == GetError.EntityNotFound
    ensures r.Ok? && !DS.HasEntity(w.data, entity) ==> r.value == []
    ensures r.Ok? && DS.HasEntity(w.data, entity) ==>
      && Enumerate.Distinct(r.value)
      && forall n :: n in r.value <==> DS.GetOfEntity(w.data, entity, n).Ok?
  {
    if DS.HasEntity(w.data, entity) {
      var names := DS.GetComponentsOfEntity(w.data, entity);
      r := Ok(names.value);
    } else if entity in w.entities {
      r := Ok([]);
    } else {
      r := Err(GetError.EntityNotFound);
    }
  }

  /** `get_component_of_entity`: an unregistered name fails first; a missing bucket is
      `ComponentNotInEntity` for a listed entity and `EntityNotFound` otherwise. */
  function GetComponentOfEntity<E(==, !new)>(w: World<E>, entity: E, component: string)
    : (r: Result<ComponentData<E>, GetError>)
    ensures !HasComponent(w, component) ==> r == Err(GetError.ComponentNotFound)
    ensures HasComponent(w, component) ==>
      && (r.Ok? <==> DS.GetOfEntity(w.data, entity, component).Ok?)
      && (r.Ok? ==> r == DS.GetOfEntity(w.data, entity, component))
    ensures r == Err(GetError.EntityNotFound) <==>
      HasComponent(w, component) && !DS.HasEntity(w.data, entity) && entity !in w.entities
    ensures r == Err(GetError.ComponentNotInEntity) <==>
      && HasComponent(w, component)
      && (DS.HasEntity(w.data, entity) || entity in w.entities)
      && DS.GetOfEntity(w.data, entity, component).Err?
  {
    if CS.HasComponent(w.storage, component) then
      match DS.GetOfEntity(w.data, entity, component)
      case Ok(d) => Ok(d)
      case Err(error) =>
        if error == GetError.EntityNotFound then
          if entity in w.entities then Err(GetError.ComponentNotInEntity) else Err(GetError.EntityNotFound)
        else Err(error)
    else Err(GetError.ComponentNotFound)
  }

  /** `get_component_data`: every stored instance of `name`, one per entity carrying
      it, or `None` when no entity carries it. The ghost `holders` names the entity
      each element belongs to. */
  method GetComponentData<E(==, !new)>(w: World<E>, name: string)
    returns (r: Option<seq<ComponentData<E>>>, ghost holders: seq<E>)
    ensures r.None? <==> forall e :: DS.GetOfEntity(w.data, e, name).Err?
    ensures r.Some? ==>
      && Enumerate.Distinct(holders)
      && (forall e :: e in holders <==> DS.GetOfEntity(w.data, e, name).Ok?)
      && |r.value| == |holders|
      && (forall i :: 0 <= i < |r.value| ==> DS.GetOfEntity(w.data, holders[i], name) == Ok(r.value[i]))
    ensures r.Some? ==> forall e :: DS.GetOfEntity(w.data, e, name).Ok? ==> DS.GetOfEntity(w.data, e, name).value in r.value
  {
    r, holders := DS.GetAllOfComponent(w.data, name);
    var holderSet := DS.Holders(w.data, name, w.data.componentsOfEntity.Keys);
    if r.None? {
      forall e ensures DS.GetOfEntity(w.data, e, name).Err? {
        assert e !in holderSet;
      }
    } else {
      assert exists e :: e in holderSet;
      var e :| e in holderSet;
      assert DS.GetOfEntity(w.data, e, name).Ok?;
      forall e | DS.GetOfEntity(w.data, e, name).Ok?
        ensures DS.GetOfEntity(w.data, e, name).value in r.value
      {
        assert e in holderSet;
        var i :| 0 <= i < |holders| && holders[i] == e;
        assert r.value[i] == DS.GetOfEntity(w.data, e, name).value;
      }
    }
  }

  /** After a successful write the entity is listed as carrying the component, and a
      read through the façade returns the data written. */
  lemma SetThenGet<E(!new)>(w: World<E>, entity: E, component: string, data: ComponentData<E>)
    requires entity in w.entities && HasComponent(w, component)
    ensures var (w', o) := SetComponentData(w, entity, component, data);
            && o.Pass?
            && GetComponentOfEntity(w', entity, component) == Ok(data)
            && IsComponentAddedToEntity(w', entity, component) == DS.EntityHasComponent
  {
  }

  /** A failed write leaves the world as it was, so a retry sees the same answer. */
  lemma FailedWriteIsIdempotent<E(!new)>(w: World<E>, entity: E, component: string, data: ComponentData<E>)
    requires SetComponentData(w, entity, component, data).1.Fail?
    ensures SetComponentData(w, entity, component, data).0 == w
  {
  }

  /** Registering an entity and then writing to a registered component succeeds,
      whether or not the entity was listed before. */
  lemma RegisterThenWrite<E(!new)>(w: World<E>, entity: E, component: string, data: ComponentData<E>)
    requires HasComponent(w, component)
    ensures var w1 := RegisterEntity(w, entity).0;
            SetComponentData(w1, entity, component, data).1.Pass?
  {
  }

  /** With the invariant, a read never reports `EntityNotFound` for a listed entity,
      and only unregistered entities are "not found". */
  lemma NotFoundMeansUnlisted<E(!new)>(w: World<E>, entity: E, component: string)
    requires Valid(w)
    ensures GetComponentOfEntity(w, entity, component) == Err(GetError.EntityNotFound) <==>
      HasComponent(w, component) && entity !in w.entities
  {
  }
}
