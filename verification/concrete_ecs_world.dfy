/** The concrete `ECSWorld` exported to the engine: the earlier generic world with the
    production types filled in (UUID entity ids, the field-bag component data, the
    hash handle) and its own copies of the earlier error enums. */
module ConcreteEcsWorld {
  import opened Wrappers
  import Enumerate
  import opened Definitions
  import opened Components
  import Errors
  import Values
  import CS = ComponentStorage
  import St = EcsState
  import Legacy = LegacyEcsWorld
  import Current = EcsWorld

  type World = St.State<EntityId>

  /** `create_ecs_world`: an empty, consistent world. */
  function CreateEcsWorld(): (w: World)
    ensures St.Valid(w) && St.NoneBorrowed(w)
    ensures |w.entities| == 0 && forall name :: !St.HasComponent(w, name)
  {
    St.Empty()
  }

  /** `register_component`: the returned handle's hash is the one bound to the name;
      a taken name is an error and changes nothing. */
  function RegisterComponent(w: World, name: string, definition: ComponentDefinition, hasher: Hasher)
    : (r: (World, Result<ComponentInfo, string>))
    ensures St.HasComponent(w, name) ==> r.0 == w && r.1 == Err(Errors.AlreadyRegisteredMessage(name))
    ensures !St.HasComponent(w, name) ==>
      && r.1.Ok?
      && GetHash(r.1.value) == ComponentHash(hasher, definition, name)
      && CS.GetComponentInfo(r.0.storage, name) == Some(r.1.value)
      && St.HasComponent(r.0, name)
    ensures St.Valid(w) ==> St.Valid(r.0)
    ensures St.Valid(w) && !St.HasComponent(w, name)
            && !CS.HasComponentInfo(w.storage, CreateInfo(ComponentHash(hasher, definition, name))) ==>
      St.DefinitionOf(r.0, name) == definition
  {
    St.RegisterComponent(w, name, definition, hasher)
  }

  /** `create_entity`: the fresh UUID is passed in and appended. */
  function CreateEntity(w: World, newId: EntityId): (r: (World, EntityId))
    ensures r.1 == newId && r.0.entities == w.entities + [newId]
    ensures r.0.cells == w.cells && r.0.components == w.components && r.0.storage == w.storage
    ensures St.Valid(w) ==> St.Valid(r.0)
  {
    St.CreateEntity(w, newId)
  }

  /** `register_entity`: `AlreadyRegistered` for a listed id, otherwise appended. */
  function RegisterEntity(w: World, id: EntityId): (r: (World, Outcome<Errors.RegisterEntityError>))
    ensures id in w.entities ==> r == (w, Fail(Errors.AlreadyRegistered))
    ensures id !in w.entities ==> r.1 == Pass && r.0.entities == w.entities + [id]
    ensures St.Valid(w) ==> St.Valid(r.0)
  {
    St.RegisterEntity(w, id)
  }

  /** `add_component_to_entity`: a second attach of the same pair is refused; the
      component's list is unwrapped, so the name must have one. */
  function AddComponentToEntity(w: World, id: EntityId, name: string): (r: (World, Outcome<string>))
    requires St.Valid(w) && name in w.components
    ensures St.Attached(w, id, name) ==> r == (w, Fail(Legacy.AlreadyAddedMessage))
    ensures !St.Attached(w, id, name) ==>
      && r.1.Pass?
      && St.Attached(r.0, id, name)
      && GetEntity(r.0.cells[id][name].data) == id
      && name in r.0.components && |r.0.components[name]| == |w.components[name]| + 1
    ensures St.Valid(r.0)
  {
    Legacy.AddComponentToEntity(w, id, name)
  }

  /** `set_component_data`: `EntityNotFound`, then `ComponentNotFound`, then the attach;
      `DataInUse` leaves the world as it was; a write sets exactly the declared fields. */
  function SetComponentData(w: World, id: EntityId, name: string, data: ComponentData<EntityId>)
    : (r: (World, Outcome<St.SetComponentDataError>))
    requires St.Valid(w)
    ensures id !in w.entities ==> r == (w, Fail(St.EntityNotFound))
    ensures id in w.entities && !St.HasComponent(w, name) ==> r == (w, Fail(St.ComponentNotFound))
    ensures r.1 == Fail(St.DataInUse) <==> id in w.entities && St.Attached(w, id, name) && w.cells[id][name].borrowed
    ensures r.1 == Fail(St.DataInUse) ==> r.0 == w
    ensures forall e, n :: (e != id || n != name) ==> (St.Attached(r.0, e, n) <==> St.Attached(w, e, n))
    ensures r == Current.SetComponentData(w, id, name, data)
    ensures r.1.Pass? ==>
      && St.Attached(r.0, id, name)
      && (forall f :: St.Declares(St.DefinitionOf(w, name).fields, f) ==>
            GetField(r.0.cells[id][name].data, f) == GetField(data, f))
      && (forall f :: !St.Declares(St.DefinitionOf(w, name).fields, f) ==>
            GetField(r.0.cells[id][name].data, f) == GetField(Current.CellBefore(w, id, name), f))
    ensures St.Valid(r.0)
  {
    Legacy.SetComponentDataAgreesWithCurrent(w, id, name, data);
    Legacy.SetComponentData(w, id, name, data)
  }

  /** `is_component_added_to_entity`: true only when the id has cells and one of them
      is the component's. */
  function IsComponentAddedToEntity(w: World, id: EntityId, name: string): (r: bool)
    ensures r <==> id in w.cells && name in w.cells[id]
  {
    Legacy.IsComponentAddedToEntity(w, id, name)
  }

  /** `get_components_of_entity`: the id's names, an empty list for a listed id
      without cells, or `EntityNotFound`. */
  method GetComponentsOfEntity(w: World, id: EntityId) returns (r: Result<seq<string>, Legacy.GetComponentsOfEntityError>)
    ensures r.Err? <==> id !in w.cells && id !in w.entities
    ensures r.Ok? && id !in w.cells ==> r.value == []
    ensures r.Ok? ==> forall n :: n in r.value <==> St.Attached(w, id, n)
    ensures r.Ok? ==> Enumerate.Distinct(r.value)
  {
    r := Legacy.GetComponentsOfEntity(w, id);
  }

  /** The write error's text as this file renders it: the same three messages as the
      earlier generation, including the name-conflict text for a missing component. */
  function SetMessage(e: St.SetComponentDataError): (m: string)
    ensures m == Legacy.SetMessage(e)
  {
    match e
    case EntityNotFound => "Entity with that id is was not found"
    case ComponentNotFound => "Component with that name is already registered"
    case DataInUse => "The data is already exclusively borrowed"
  }

  /** As written, the concrete world inherits the mislabelled message; the intended
      text differs from it only for `ComponentNotFound`. */
  lemma SetMessageMislabelsMissingComponent(e: St.SetComponentDataError)
    ensures SetMessage(e) != Legacy.SetMessageIntended(e) <==> e == St.ComponentNotFound
  {
  }

  /** A write through a freshly attached pair reads back the supplied declared fields
      and `Nil` for every other field. */
  lemma FirstWriteReadsBack(w: World, id: EntityId, name: string, data: ComponentData<EntityId>, f: string)
    requires St.Valid(w) && St.NoneBorrowed(w)
    requires id in w.entities && St.HasComponent(w, name) && !St.Attached(w, id, name)
    ensures var (w', o) := SetComponentData(w, id, name, data);
            && o == Pass
            && GetField(w'.cells[id][name].data, f)
               == (if St.Declares(St.DefinitionOf(w, name).fields, f) then GetField(data, f) else Values.Nil)
  {
    Current.NeverInUse(w, id, name, data);
    Legacy.SetComponentDataAgreesWithCurrent(w, id, name, data);
  }
}
