/** The newest generic `ECSWorld`: the schema maps, the entity list and the two
    cell indexes, with a private attach step that `set_component_data` runs for a
    pair it has not seen. */
module EcsWorld {
  import opened Wrappers
  import Enumerate
  import opened Definitions
  import opened Components
  import St = EcsState
  import CS = ComponentStorage
  import Values

  type State<E(==, !new)> = St.State<E>

  /** The error of `get_component_data`. */
  datatype GetComponentDataError = ComponentNotFound

  /** The error of `get_component_of_entity` and `get_components_of_entity`. */
  datatype GetComponentOfEntityError = EntityNotFound | ComponentNotInEntity

  type SetComponentDataError = St.SetComponentDataError

  const NotRegisteredMessage: string := "Component is not registered"
  const AlreadyAddedMessage: string := "Component was already added for that entity"

  /** This world's invariant: the shared one, and only listed entities have cells,
      because the single attach path runs after the entity check. */
  ghost predicate Valid<E(!new)>(s: State<E>) {
    && St.Valid(s)
    && forall e :: e in s.cells ==> e in s.entities
  }

  /** The steps this world shares with the earlier generations keep its invariant. */
  lemma SharedStepsKeepValid<E(!new)>(s: State<E>, name: string, definition: ComponentDefinition, hasher: Hasher, id: E)
    requires Valid(s)
    ensures Valid(St.RegisterComponent(s, name, definition, hasher).0)
    ensures Valid(St.CreateEntity(s, id).0)
    ensures Valid(St.RegisterEntity(s, id).0)
    ensures Valid(St.Empty<E>())
  {
  }

  /** `add_component_to_entity` (private): an unregistered name, then an attached pair,
      are refused with a message; otherwise a fresh cell is attached. */
  function AddComponentToEntity<E(==, !new)>(s: State<E>, entity: E, name: string)
    : (r: (State<E>, Outcome<string>))
    requires St.Valid(s)
    ensures !St.HasComponent(s, name) ==> r == (s, Fail(NotRegisteredMessage))
    ensures St.HasComponent(s, name) && St.Attached(s, entity, name) ==> r == (s, Fail(AlreadyAddedMessage))
    ensures r.1.Pass? <==> St.HasComponent(s, name) && !St.Attached(s, entity, name)
    ensures r.1.Pass? ==>
      && St.Attached(r.0, entity, name)
      && r.0.cells[entity][name] == St.Cell(New(entity), false)
      && name in s.components && name in r.0.components
      && r.0.components[name] == s.components[name] + [entity]
    ensures St.Valid(r.0)
  {
    if !St.HasComponent(s, name) then (s, Fail(NotRegisteredMessage))
    else if St.Attached(s, entity, name) then (s, Fail(AlreadyAddedMessage))
    else (St.Attach(s, entity, name), Pass)
  }

  /** The cell a write starts from: the stored one, or the fresh one the write attaches. */
  function CellBefore<E(==, !new)>(s: State<E>, entity: E, name: string): ComponentData<E> {
    if St.Attached(s, entity, name) then s.cells[entity][name].data else New(entity)
  }

  /** `set_component_data`: entity check, then component check, both before any change;
      then the pair is attached if it is not; then a borrowed cell fails with
      `DataInUse`, and otherwise the declared fields are copied in. */
  function SetComponentData<E(==, !new)>(s: State<E>, entity: E, name: string, data: ComponentData<E>)
    : (r: (State<E>, Outcome<SetComponentDataError>))
    requires St.Valid(s)
    ensures entity !in s.entities ==> r == (s, Fail(St.EntityNotFound))
    ensures entity in s.entities && !St.HasComponent(s, name) ==> r == (s, Fail(St.ComponentNotFound))
    ensures r.1 == Fail(St.DataInUse) <==>
      entity in s.entities && St.Attached(s, entity, name) && s.cells[entity][name].borrowed
    ensures r.1 == Fail(St.DataInUse) ==> r.0 == s
    ensures r.1.Pass? ==>
      && St.Attached(r.0, entity, name)
      && GetEntity(r.0.cells[entity][name].data) == entity
      && r.0.cells[entity][name]
         == St.Cell(St.CopyFields(CellBefore(s, entity, name), St.DefinitionOf(s, name).fields, data), false)
      && (forall f :: St.Declares(St.DefinitionOf(s, name).fields, f) ==>
            GetField(r.0.cells[entity][name].data, f) == GetField(data, f))
      && (forall f :: !St.Declares(St.DefinitionOf(s, name).fields, f) ==>
            GetField(r.0.cells[entity][name].data, f) == GetField(CellBefore(s, entity, name), f))
    // the pair is listed once under its component, appended if it was new
    ensures r.1.Pass? && !St.Attached(s, entity, name) ==>
      name in s.components && name in r.0.components && r.0.components[name] == s.components[name] + [entity]
    ensures r.1.Pass? && St.Attached(s, entity, name) ==> r.0.components == s.components
    // every other cell is untouched
    ensures forall e, n :: (e != entity || n != name) ==> (St.Attached(r.0, e, n) <==> St.Attached(s, e, n))
    ensures forall e, n :: (e != entity || n != name) && St.Attached(s, e, n) ==>
      St.Attached(r.0, e, n) && r.0.cells[e][n] == s.cells[e][n]
    ensures r.0.storage == s.storage && r.0.entities == s.entities
    ensures St.Valid(r.0)
    ensures Valid(s) ==> Valid(r.0)
    ensures St.NoneBorrowed(s) ==> St.NoneBorrowed(r.0)
  {
    if entity !in s.entities then (s, Fail(St.EntityNotFound))
    else if name !in s.components then (s, Fail(St.ComponentNotFound))
    else
      var s1 := if St.Attached(s, entity, name) then s else AddComponentToEntity(s, entity, name).0;
      match St.Store(s1, entity, name, data)
      case None => (s1, Fail(St.DataInUse))
      case Some(s2) => (s2, Pass)
  }

  /** `get_component_data`: a copy of every cell of the component, in attach order. */
  function GetComponentData<E(==, !new)>(s: State<E>, name: string)
    : (r: Result<seq<ComponentData<E>>, GetComponentDataError>)
    requires St.Valid(s)
    ensures r.Err? <==> !St.HasComponent(s, name)
    ensures r.Ok? ==> |r.value| == |s.components[name]|
    ensures r.Ok? ==> forall i :: 0 <= i < |r.value| ==> GetEntity(r.value[i]) == s.components[name][i]
    ensures r.Ok? ==> forall e :: St.Attached(s, e, name) ==> s.cells[e][name].data in r.value
  {
    if name !in s.components then Err(ComponentNotFound)
    else
      var r := St.CellsOf(s, name);
      assert forall e :: St.Attached(s, e, name) ==> s.cells[e][name].data in r by {
        forall e | St.Attached(s, e, name) ensures s.cells[e][name].data in r {
          St.ViewsAgree(s, e, name);
        }
      }
      Ok(r)
  }

  function IsComponentAddedToEntity<E(==, !new)>(s: State<E>, entity: E, name: string): (r: bool)
    ensures r <==> St.Attached(s, entity, name)
  {
    entity in s.cells && name in s.cells[entity]
  }

  /** `get_components_of_entity`: the entity's names, an empty list for a listed entity
      without cells, or `EntityNotFound`. */
  method GetComponentsOfEntity<E(==, !new)>(s: State<E>, entity: E) returns (r: Result<seq<string>, GetComponentOfEntityError>)
    ensures r.Err? <==> entity !in s.cells && entity !in s.entities
    ensures r.Err? ==> r.error == EntityNotFound
    ensures r.Ok? ==> forall n :: n in r.value <==> St.Attached(s, entity, n)
    ensures r.Ok? ==> Enumerate.Distinct(r.value)
  {
    var names := St.ComponentsOfEntity(s, entity);
    r := if names.Some? then Ok(names.value) else Err(EntityNotFound);
  }

  /** `get_component_of_entity`: a copy of the pair's cell. A listed entity without
      cells, or without this component, reports `ComponentNotInEntity`; an entity
      that is neither listed nor has cells reports `EntityNotFound`. */
  function GetComponentOfEntity<E(==, !new)>(s: State<E>, entity: E, name: string)
    : (r: Result<ComponentData<E>, GetComponentOfEntityError>)
    ensures r.Ok? <==> St.Attached(s, entity, name)
    ensures r.Ok? ==> r.value == s.cells[entity][name].data
    ensures r == Err(EntityNotFound) <==> entity !in s.cells && entity !in s.entities
    ensures r == Err(ComponentNotInEntity) <==>
      !St.Attached(s, entity, name) && (entity in s.cells || entity in s.entities)
  {
    if entity !in s.cells then
      if entity in s.entities then Err(ComponentNotInEntity) else Err(EntityNotFound)
    else if name !in s.cells[entity] then Err(ComponentNotInEntity)
    else Ok(s.cells[entity][name].data)
  }

  /** The read never consults the schema registry: worlds that differ only in their
      registered components answer alike. */
  lemma GetIgnoresSchema<E(!new)>(s: State<E>, t: State<E>, entity: E, name: string)
    requires s.cells == t.cells && s.entities == t.entities
    ensures GetComponentOfEntity(s, entity, name) == GetComponentOfEntity(t, entity, name)
  {
  }

  /** Attaching a pair twice is refused the second time and changes nothing. */
  lemma AddTwiceFails<E(!new)>(s: State<E>, entity: E, name: string)
    requires St.Valid(s) && St.HasComponent(s, name) && !St.Attached(s, entity, name)
    ensures var (s1, o1) := AddComponentToEntity(s, entity, name);
            && o1.Pass?
            && |s1.components[name]| == |s.components[name]| + 1
            && AddComponentToEntity(s1, entity, name) == (s1, Fail(AlreadyAddedMessage))
  {
  }

  /** A successful write is visible through both indexes: the per-entity read and the
      per-component read show the same cell, holding the supplied declared fields. */
  lemma {:induction false} WriteVisibleInBothViews<E(!new)>(s: State<E>, entity: E, name: string, data: ComponentData<E>)
    requires St.Valid(s) && St.NoneBorrowed(s)
    requires entity in s.entities && St.HasComponent(s, name)
    ensures var (s', o) := SetComponentData(s, entity, name, data);
            && o == Pass
            && GetComponentOfEntity(s', entity, name).Ok?
            && GetComponentData(s', name).Ok?
            && GetComponentOfEntity(s', entity, name).value in GetComponentData(s', name).value
            && IsComponentAddedToEntity(s', entity, name)
  {
    NeverInUse(s, entity, name, data);
    var s' := SetComponentData(s, entity, name, data).0;
    assert St.Attached(s', entity, name);
    assert St.HasComponent(s', name);
  }

  /** In a world where nothing holds a borrow, `DataInUse` cannot happen: a listed
      entity and a registered component always give a successful write, and the write
      leaves no borrow behind. */
  lemma NeverInUse<E(!new)>(s: State<E>, entity: E, name: string, data: ComponentData<E>)
    requires St.Valid(s) && St.NoneBorrowed(s)
    requires entity in s.entities && St.HasComponent(s, name)
    ensures SetComponentData(s, entity, name, data).1 == Pass
    ensures St.NoneBorrowed(SetComponentData(s, entity, name, data).0)
  {
  }

  /** The schema a name is registered with is the one its writes follow: the first
      write after registering a fresh component copies exactly that definition's fields
      from the supplied data, and every other field reads `Nil`. */
  lemma {:induction false} RegisteredSchemaGovernsFirstWrite<E(!new)>(
    s: State<E>, name: string, definition: ComponentDefinition, hasher: Hasher,
    entity: E, data: ComponentData<E>, f: string)
    requires St.Valid(s) && St.NoneBorrowed(s) && entity in s.entities && !St.HasComponent(s, name)
    requires !CS.HasComponentInfo(s.storage, CreateInfo(ComponentHash(hasher, definition, name)))
    ensures var s1 := St.RegisterComponent(s, name, definition, hasher).0;
            var (s2, o) := SetComponentData(s1, entity, name, data);
            && o == Pass
            && St.Attached(s2, entity, name)
            && GetField(s2.cells[entity][name].data, f)
               == (if St.Declares(definition.fields, f) then GetField(data, f) else Values.Nil)
  {
    var s1 := St.RegisterComponent(s, name, definition, hasher).0;
    assert St.DefinitionOf(s1, name) == definition;
    assert !St.Attached(s1, entity, name);
    NeverInUse(s1, entity, name, data);
    assert CellBefore(s1, entity, name) == New(entity);
  }

  /** Writing the same data twice leaves the world as one write did. */
  lemma {:induction false} SetTwiceIsSetOnce<E(!new)>(s: State<E>, entity: E, name: string, data: ComponentData<E>)
    requires St.Valid(s) && St.NoneBorrowed(s)
    requires entity in s.entities && St.HasComponent(s, name)
    ensures var s1 := SetComponentData(s, entity, name, data).0;
            SetComponentData(s1, entity, name, data) == (s1, Pass)
  {
    var s1 := SetComponentData(s, entity, name, data).0;
    var fields := St.DefinitionOf(s, name).fields;
    NeverInUse(s, entity, name, data);
    assert St.Attached(s1, entity, name);
    St.CopyFieldsIdempotent(CellBefore(s, entity, name), fields, data);
    assert St.DefinitionOf(s1, name) == St.DefinitionOf(s, name);
    St.StoreOfSameFieldsIsNoop(s1, entity, name, data);
  }
}
