/** The earlier generic `ECSWorld` and its error enums. Its state and shared steps are
    those of the newest generation; it differs in that `add_component_to_entity` is
    public, does not look at the entity list, finds duplicates by scanning the
    component's cells for one whose entity matches, and unwraps the component's list. */
module LegacyEcsWorld {
  import opened Wrappers
  import Enumerate
  import opened Components
  import Errors
  import St = EcsState
  import Current = EcsWorld

  type State<E(==, !new)> = St.State<E>

  /** The error of `get_components_of_entity`. */
  datatype GetComponentsOfEntityError = EntityNotFound

  /** Declared again in this file, with the same variants as the shared one. */
  type SetComponentDataError = St.SetComponentDataError

  /** Declared again in this file, with the same variant and message as the shared one. */
  type RegisterEntityError = Errors.RegisterEntityError

  const AlreadyAddedMessage: string := "Component was already added for that entity"

  /** The listing error's text: the entity-miss message of this generation, with its
      stray "is", so it differs from the shared read error's text. */
  function GetComponentsOfEntityMessage(e: GetComponentsOfEntityError): (m: string)
    ensures m == SetMessage(St.EntityNotFound)
    ensures m != Errors.GetMessage(Errors.GetComponentDataOfEntityError.EntityNotFound)
  {
    "Entity with that id is was not found"
  }

  /** As written: `ComponentNotFound` renders with the text of a name conflict. */
  function SetMessage(e: SetComponentDataError): (m: string)
    ensures e.ComponentNotFound? <==> m == Errors.SetMessage(Errors.SetComponentDataError.ComponentNotFound)
    ensures e.EntityNotFound? ==> m != Errors.GetMessage(Errors.GetComponentDataOfEntityError.EntityNotFound)
    ensures e.DataInUse? ==> forall g :: m != Errors.GetMessage(g)
  {
    match e
    case EntityNotFound => "Entity with that id is was not found"
    case ComponentNotFound => "Component with that name is already registered"
    case DataInUse => "The data is already exclusively borrowed"
  }

  /** The message the variant names. */
  function SetMessageIntended(e: SetComponentDataError): (m: string)
    ensures e.ComponentNotFound? ==> m == Errors.GetMessage(Errors.GetComponentDataOfEntityError.ComponentNotFound)
    ensures !e.ComponentNotFound? ==> m == SetMessage(e)
  {
    match e
    case EntityNotFound => "Entity with that id is was not found"
    case ComponentNotFound => "Component with that name was not found"
    case DataInUse => "The data is already exclusively borrowed"
  }

  /** As written, a write to an unregistered component reports a name conflict. */
  lemma SetMessageMislabelsMissingComponent()
    ensures SetMessage(St.ComponentNotFound) == Errors.SetMessage(Errors.SetComponentDataError.ComponentNotFound)
    ensures SetMessage(St.ComponentNotFound) != SetMessageIntended(St.ComponentNotFound)
  {
    assert |SetMessage(St.ComponentNotFound)| != |SetMessageIntended(St.ComponentNotFound)|;
  }

  /** The intended messages tell every variant apart. */
  lemma SetMessageIntendedDistinguishesVariants(a: SetComponentDataError, b: SetComponentDataError)
    ensures a != b ==> SetMessageIntended(a) != SetMessageIntended(b)
  {
  }

  /** The duplicate check of the earlier attach: a walk over the component's cells
      that stops at the first one whose entity is `entity`. */
  function ListHasEntity<E(==, !new)>(s: State<E>, name: string, list: seq<E>, entity: E): (r: bool)
    requires forall i :: 0 <= i < |list| ==> list[i] in s.cells && name in s.cells[list[i]]
    ensures r <==> exists i :: 0 <= i < |list| && GetEntity(s.cells[list[i]][name].data) == entity
    decreases |list|
  {
    if |list| == 0 then false
    else if GetEntity(s.cells[list[0]][name].data) == entity then true
    else
      var r := ListHasEntity(s, name, list[1..], entity);
      assert r ==> exists i :: 0 <= i < |list| && GetEntity(s.cells[list[i]][name].data) == entity by {
        if r {
          var i :| 0 <= i < |list[1..]| && GetEntity(s.cells[list[1..][i]][name].data) == entity;
          assert list[1..][i] == list[i + 1];
        }
      }
      assert (exists i :: 0 <= i < |list| && GetEntity(s.cells[list[i]][name].data) == entity) ==> r by {
        if exists i :: 0 <= i < |list| && GetEntity(s.cells[list[i]][name].data) == entity {
          var i :| 0 <= i < |list| && GetEntity(s.cells[list[i]][name].data) == entity;
          assert i != 0;
          assert list[1..][i - 1] == list[i];
        }
      }
      r
  }

  /** In a valid state the scan over the component's cells answers exactly whether
      the pair is attached. */
  lemma {:induction false} ScanFindsAttached<E(!new)>(s: State<E>, entity: E, name: string)
    requires St.Valid(s) && name in s.components
    ensures ListHasEntity(s, name, s.components[name], entity) <==> St.Attached(s, entity, name)
  {
    var list := s.components[name];
    St.ListedIffAttached(s, entity, name);
    if ListHasEntity(s, name, list, entity) {
      var i :| 0 <= i < |list| && GetEntity(s.cells[list[i]][name].data) == entity;
      assert list[i] == entity;
    }
    if St.Attached(s, entity, name) {
      var i :| 0 <= i < |list| && list[i] == entity;
      assert GetEntity(s.cells[list[i]][name].data) == entity;
    }
  }

  /** `add_component_to_entity`: the component's list must exist (it is unwrapped);
      a pair whose cell the scan finds is refused; otherwise a fresh cell is attached,
      whether or not the entity is listed. */
  function AddComponentToEntity<E(==, !new)>(s: State<E>, entity: E, name: string)
    : (r: (State<E>, Outcome<string>))
    requires St.Valid(s) && name in s.components
    ensures r.1.Fail? <==> St.Attached(s, entity, name)
    ensures r.1.Fail? ==> r == (s, Fail(AlreadyAddedMessage))
    ensures r.1.Pass? ==>
      && St.Attached(r.0, entity, name)
      && r.0.cells[entity][name] == St.Cell(New(entity), false)
      && name in r.0.components && r.0.components[name] == s.components[name] + [entity]
    ensures r.0.entities == s.entities && r.0.storage == s.storage
    ensures St.Valid(r.0)
    ensures St.NoneBorrowed(s) ==> St.NoneBorrowed(r.0)
  {
    ScanFindsAttached(s, entity, name);
    if ListHasEntity(s, name, s.components[name], entity) then (s, Fail(AlreadyAddedMessage))
    else (St.Attach(s, entity, name), Pass)
  }

  /** `set_component_data`: entity, then component, then attach through the public
      step, then the borrow check and the copy of the declared fields. */
  function SetComponentData<E(==, !new)>(s: State<E>, entity: E, name: string, data: ComponentData<E>)
    : (r: (State<E>, Outcome<SetComponentDataError>))
    requires St.Valid(s)
    ensures entity !in s.entities ==> r == (s, Fail(St.EntityNotFound))
    ensures entity in s.entities && !St.HasComponent(s, name) ==> r == (s, Fail(St.ComponentNotFound))
    ensures r.1 == Fail(St.DataInUse) ==> r.0 == s
    ensures r.1.Pass? ==> St.Attached(r.0, entity, name)
    ensures St.Valid(r.0)
  {
    if entity !in s.entities then (s, Fail(St.EntityNotFound))
    else if name !in s.components then (s, Fail(St.ComponentNotFound))
    else
      var s1 := if St.Attached(s, entity, name) then s else AddComponentToEntity(s, entity, name).0;
      match St.Store(s1, entity, name, data)
      case None => (s1, Fail(St.DataInUse))
      case Some(s2) => (s2, Pass)
  }

  /** The two generations agree on every write: the scan-based attach and the
      registry-checked attach produce the same world. */
  lemma SetComponentDataAgreesWithCurrent<E(!new)>(s: State<E>, entity: E, name: string, data: ComponentData<E>)
    requires St.Valid(s)
    ensures SetComponentData(s, entity, name, data) == Current.SetComponentData(s, entity, name, data)
  {
  }

  /** `is_component_added_to_entity`: false for an entity without cells. */
  function IsComponentAddedToEntity<E(==, !new)>(s: State<E>, entity: E, name: string): (r: bool)
    ensures entity !in s.cells ==> !r
    ensures r <==> St.Attached(s, entity, name)
  {
    if entity in s.cells then name in s.cells[entity] else false
  }

  /** `get_components_of_entity`: the entity's names, an empty list for a listed entity
      without cells, or `EntityNotFound`. */
  method GetComponentsOfEntity<E(==, !new)>(s: State<E>, entity: E) returns (r: Result<seq<string>, GetComponentsOfEntityError>)
    ensures r.Err? <==> entity !in s.cells && entity !in s.entities
    ensures r.Ok? && entity !in s.cells ==> r.value == []
    ensures r.Ok? ==> forall n :: n in r.value <==> St.Attached(s, entity, n)
    ensures r.Ok? ==> Enumerate.Distinct(r.value)
  {
    var names := St.ComponentsOfEntity(s, entity);
    r := if names.Some? then Ok(names.value) else Err(EntityNotFound);
  }

  /** Unlike the newest generation, this one attaches to an entity that was never
      listed; such an entity then answers `get_components_of_entity` with its names. */
  lemma AttachesUnlistedEntity<E(!new)>(s: State<E>, entity: E, name: string)
    requires St.Valid(s) && name in s.components && entity !in s.entities && !St.Attached(s, entity, name)
    ensures var (s1, o) := AddComponentToEntity(s, entity, name);
            && o.Pass? && entity !in s1.entities && entity in s1.cells
            && !Current.Valid(s1)
  {
  }
}
