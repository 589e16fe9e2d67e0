/** The state shared by every `ECSWorld` generation and the steps they have in common.

    The Rust worlds keep one `Rc<RefCell<ComponentData>>` per attached (entity,
    component) pair and reach it through two indexes: the per-component list and the
    per-entity map. Here the per-entity map `cells` is the one authoritative store;
    the per-component list `components` records, in attach order, which entities'
    cells it points at. A cell carries a `borrowed` flag standing for an outstanding
    `RefCell` borrow, the only thing that makes `try_borrow_mut` fail. */
module EcsState {
  import opened Wrappers
  import opened Definitions
  import opened Errors
  import opened Components
  import CS = ComponentStorage
  import Enumerate

  datatype Cell<E> = Cell(data: ComponentData<E>, borrowed: bool)

  type Bucket<E> = map<string, Cell<E>>

  datatype State<E(==, !new)> = State(
    storage: CS.Storage,                // `component_definitions` and `component_names`
    entities: seq<E>,
    components: map<string, seq<E>>,    // `components`: the cells of a component, in attach order
    cells: map<E, Bucket<E>>            // `components_of_entity`
  )

  /** `set_component_data`'s error in the generations that can report a borrowed cell. */
  datatype SetComponentDataError = EntityNotFound | ComponentNotFound | DataInUse

  /** The pair has a cell: `is_component_added_to_entity`. */
  predicate Attached<E(==, !new)>(s: State<E>, entity: E, name: string) {
    entity in s.cells && name in s.cells[entity]
  }

  predicate HasComponent<E(==, !new)>(s: State<E>, name: string) {
    CS.HasComponent(s.storage, name)
  }

  /** The two indexes describe the same set of cells, each once, and every cell
      belongs to the entity it is filed under. */
  ghost predicate Valid<E(!new)>(s: State<E>) {
    && CS.Valid(s.storage)
    && s.components.Keys == s.storage.names.Keys
    && (forall n :: n in s.components ==> Enumerate.Distinct(s.components[n]))
    && (forall n, i :: n in s.components && 0 <= i < |s.components[n]| ==> Attached(s, s.components[n][i], n))
    && (forall e, n :: Attached(s, e, n) ==> n in s.components && e in s.components[n])
    && (forall e, n :: Attached(s, e, n) ==> s.cells[e][n].data.entity == e)
  }

  /** No cell is borrowed: the state every world starts in. */
  ghost predicate NoneBorrowed<E(!new)>(s: State<E>) {
    forall e, n :: Attached(s, e, n) ==> !s.cells[e][n].borrowed
  }

  /** `create_ecs_world` / `Default`. */
  function Empty<E(==, !new)>(): (s: State<E>)
    ensures Valid(s) && NoneBorrowed(s)
    ensures |s.entities| == 0
    ensures forall n :: !HasComponent(s, n)
    ensures forall e, n :: !Attached(s, e, n)
  {
    State(CS.Empty(), [], map[], map[])
  }

  /** `register_component`: a taken name is rejected with a message naming it and
      nothing changes; otherwise the name is bound to the hash handle, the definition
      is stored unless that handle already has one, and the component's list starts empty. */
  function RegisterComponent<E(==, !new)>(s: State<E>, name: string, definition: ComponentDefinition, hasher: Hasher)
    : (r: (State<E>, Result<ComponentInfo, string>))
    ensures HasComponent(s, name) ==> r == (s, Err(AlreadyRegisteredMessage(name)))
    ensures !HasComponent(s, name) ==>
      && r.1 == Ok(CreateInfo(ComponentHash(hasher, definition, name)))
      && CS.GetComponentInfo(r.0.storage, name) == Some(r.1.value)
      && r.0.components == s.components[name := []]
    ensures CS.HasComponentInfo(s.storage, CreateInfo(ComponentHash(hasher, definition, name))) ==>
      r.0.storage.definitions == s.storage.definitions
    ensures forall other :: other != name ==>
      CS.GetComponentInfo(r.0.storage, other) == CS.GetComponentInfo(s.storage, other)
    ensures r.0.entities == s.entities && r.0.cells == s.cells
    ensures Valid(s) ==> Valid(r.0)
    // the name now resolves to the supplied definition, unless its handle already had one
    ensures Valid(s) && !HasComponent(s, name) ==>
      && HasComponent(r.0, name)
      && var info := CreateInfo(ComponentHash(hasher, definition, name));
         DefinitionOf(r.0, name)
         == (if CS.HasComponentInfo(s.storage, info) then s.storage.definitions[info] else definition)
    ensures NoneBorrowed(s) ==> NoneBorrowed(r.0)
  {
    var (storage, result) := CS.AddComponent(s.storage, name, definition, hasher);
    match result
    case Ok(info) =>
      var s' := s.(storage := storage, components := s.components[name := []]);
      NewListKeepsValid(s, s', name);
      (s', Ok(info))
    case Err(_) => (s, Err(AlreadyRegisteredMessage(name)))
  }

  /** Adding an empty list for a name that had none, alongside its binding, keeps the
      indexes consistent. */
  lemma NewListKeepsValid<E(!new)>(s: State<E>, s': State<E>, name: string)
    requires s'.cells == s.cells && s'.components == s.components[name := []]
    requires s'.storage.names.Keys == s.storage.names.Keys + {name}
    requires CS.Valid(s.storage) ==> CS.Valid(s'.storage)
    requires !CS.HasComponent(s.storage, name)
    ensures Valid(s) ==> Valid(s')
  {
    if Valid(s) {
      forall e, n | Attached(s', e, n)
        ensures n in s'.components && e in s'.components[n]
      {
        assert Attached(s, e, n);
        assert n != name;
      }
    }
  }

  /** `create_entity`: the id comes from the id type's generator, passed in here, and
      is appended without checking whether it is already listed. */
  function CreateEntity<E(==, !new)>(s: State<E>, newId: E): (r: (State<E>, E))
    ensures r.1 == newId && r.0.entities == s.entities + [newId]
    ensures r.0.storage == s.storage && r.0.components == s.components && r.0.cells == s.cells
    ensures Valid(s) ==> Valid(r.0)
    ensures NoneBorrowed(s) ==> NoneBorrowed(r.0)
  {
    var s' := s.(entities := s.entities + [newId]);
    EntityListIrrelevant(s, s');
    (s', newId)
  }

  /** `register_entity`: rejects a listed id, otherwise appends it. */
  function RegisterEntity<E(==, !new)>(s: State<E>, id: E): (r: (State<E>, Outcome<RegisterEntityError>))
    ensures id in s.entities ==> r == (s, Fail(AlreadyRegistered))
    ensures id !in s.entities ==> r.1 == Pass && r.0.entities == s.entities + [id]
    ensures r.0.storage == s.storage && r.0.components == s.components && r.0.cells == s.cells
    ensures id in r.0.entities
    ensures Valid(s) ==> Valid(r.0)
    ensures NoneBorrowed(s) ==> NoneBorrowed(r.0)
  {
    if id in s.entities then (s, Fail(AlreadyRegistered))
    else
      var s' := s.(entities := s.entities + [id]);
      EntityListIrrelevant(s, s');
      (s', Pass)
  }

  /** Both invariants look only at the registry and the two cell indexes, not at the
      entity list. */
  lemma EntityListIrrelevant<E(!new)>(s: State<E>, t: State<E>)
    requires t.storage == s.storage && t.components == s.components && t.cells == s.cells
    ensures Valid(s) <==> Valid(t)
    ensures NoneBorrowed(s) <==> NoneBorrowed(t)
  {
    assert forall e, n :: Attached(s, e, n) <==> Attached(t, e, n);
  }

  /** The attaching step both `add_component_to_entity` versions end in: a fresh,
      unborrowed cell holding `new(entity)` is pushed onto the component's list and
      filed in the entity's map, which is created when missing. */
  function Attach<E(==, !new)>(s: State<E>, entity: E, name: string): (s': State<E>)
    requires name in s.components && !Attached(s, entity, name)
    ensures Attached(s', entity, name) && s'.cells[entity][name] == Cell(New(entity), false)
    ensures name in s'.components && s'.components[name] == s.components[name] + [entity]
    ensures forall n :: n != name ==> (n in s'.components <==> n in s.components)
    ensures forall n :: n != name && n in s.components ==> s'.components[n] == s.components[n]
    ensures s'.components.Keys == s.components.Keys
    ensures forall e, n :: (e != entity || n != name) ==>
      (Attached(s', e, n) <==> Attached(s, e, n))
    ensures forall e, n :: (e != entity || n != name) && Attached(s, e, n) ==>
      Attached(s', e, n) && s'.cells[e][n] == s.cells[e][n]
    ensures s'.storage == s.storage && s'.entities == s.entities
    ensures Valid(s) ==> Valid(s')
    ensures NoneBorrowed(s) ==> NoneBorrowed(s')
  {
    var bucket := if entity in s.cells then s.cells[entity] else map[];
    s.(components := s.components[name := s.components[name] + [entity]],
       cells := s.cells[entity := bucket[name := Cell(New(entity), false)]])
  }

  /** Some field of `fields` is called `f`. */
  predicate Declares(fields: seq<FieldDefinition>, f: string) {
    exists i :: 0 <= i < |fields| && fields[i].name == f
  }

  /** The copy loop of `set_component_data`: for each declared field in order,
      `stored.set_field(name, input.get_field(name))`. */
  function CopyFields<E>(stored: ComponentData<E>, fields: seq<FieldDefinition>, input: ComponentData<E>)
    : (r: ComponentData<E>)
    ensures r.entity == stored.entity
    ensures forall f :: Declares(fields, f) ==> GetField(r, f) == GetField(input, f)
    ensures forall f :: !Declares(fields, f) ==> GetField(r, f) == GetField(stored, f)
    ensures forall f :: f in r.fields <==> f in stored.fields || Declares(fields, f)
    decreases |fields|
  {
    if |fields| == 0 then stored
    else
      var name := fields[0].name;
      var r := CopyFields(SetField(stored, name, GetField(input, name)), fields[1..], input);
      assert forall f :: Declares(fields, f) <==> f == name || Declares(fields[1..], f) by {
        forall f ensures Declares(fields, f) ==> f == name || Declares(fields[1..], f) {
          if Declares(fields, f) && f != name {
            var i :| 0 <= i < |fields| && fields[i].name == f;
            assert fields[1..][i - 1].name == f;
          }
        }
        forall f ensures Declares(fields[1..], f) ==> Declares(fields, f) {
          if Declares(fields[1..], f) {
            var i :| 0 <= i < |fields[1..]| && fields[1..][i].name == f;
            assert fields[i + 1].name == f;
          }
        }
        assert fields[0].name == name;
      }
      r
  }

  /** Input fields the definition does not declare are never read: two inputs that
      agree on the declared fields produce the same cell. */
  lemma {:induction false} CopyFieldsIgnoresUndeclared<E>(stored: ComponentData<E>, fields: seq<FieldDefinition>,
                                                         a: ComponentData<E>, b: ComponentData<E>)
    requires forall i :: 0 <= i < |fields| ==> GetField(a, fields[i].name) == GetField(b, fields[i].name)
    ensures CopyFields(stored, fields, a) == CopyFields(stored, fields, b)
    decreases |fields|
  {
    if |fields| > 0 {
      var name := fields[0].name;
      assert GetField(a, name) == GetField(b, name);
      var next := SetField(stored, name, GetField(a, name));
      assert forall i :: 0 <= i < |fields[1..]| ==> fields[1..][i] == fields[i + 1];
      CopyFieldsIgnoresUndeclared(next, fields[1..], a, b);
    }
  }

  /** Copying the same input twice leaves the cell as one copy did. */
  lemma CopyFieldsIdempotent<E>(stored: ComponentData<E>, fields: seq<FieldDefinition>, input: ComponentData<E>)
    ensures CopyFields(CopyFields(stored, fields, input), fields, input) == CopyFields(stored, fields, input)
  {
    var once := CopyFields(stored, fields, input);
    var twice := CopyFields(once, fields, input);
    assert twice.fields.Keys == once.fields.Keys;
    forall f | f in once.fields
      ensures twice.fields[f] == once.fields[f]
    {
      assert GetField(twice, f) == GetField(once, f);
    }
  }

  /** The definition a registered name resolves to. */
  function DefinitionOf<E(==, !new)>(s: State<E>, name: string): ComponentDefinition
    requires CS.Valid(s.storage) && HasComponent(s, name)
  {
    s.storage.definitions[s.storage.names[name]]
  }

  /** The write step of `set_component_data` once the pair is attached: a borrowed
      cell fails with `None` and nothing changes; otherwise exactly the fields the
      registered definition declares are copied from `data` into the cell. */
  function Store<E(==, !new)>(s: State<E>, entity: E, name: string, data: ComponentData<E>): (r: Option<State<E>>)
    requires Valid(s) && Attached(s, entity, name)
    ensures r.None? <==> s.cells[entity][name].borrowed
    ensures r.Some? ==>
      && Attached(r.value, entity, name)
      && r.value.cells[entity][name] == Cell(CopyFields(s.cells[entity][name].data, DefinitionOf(s, name).fields, data), false)
    ensures r.Some? ==> forall e, n :: (Attached(r.value, e, n) <==> Attached(s, e, n))
    ensures r.Some? ==> forall e, n :: (e != entity || n != name) && Attached(s, e, n) ==>
      Attached(r.value, e, n) && r.value.cells[e][n] == s.cells[e][n]
    ensures r.Some? ==> r.value.storage == s.storage && r.value.entities == s.entities && r.value.components == s.components
    ensures r.Some? ==> Valid(r.value)
    ensures r.Some? && NoneBorrowed(s) ==> NoneBorrowed(r.value)
  {
    var cell := s.cells[entity][name];
    if cell.borrowed then None
    else
      var updated := CopyFields(cell.data, DefinitionOf(s, name).fields, data);
      Some(s.(cells := s.cells[entity := s.cells[entity][name := Cell(updated, false)]]))
  }

  /** A write that would leave the cell's fields as they are leaves the whole state as
      it is. */
  lemma StoreOfSameFieldsIsNoop<E(!new)>(s: State<E>, entity: E, name: string, data: ComponentData<E>)
    requires Valid(s) && Attached(s, entity, name) && !s.cells[entity][name].borrowed
    requires CopyFields(s.cells[entity][name].data, DefinitionOf(s, name).fields, data) == s.cells[entity][name].data
    ensures Store(s, entity, name, data) == Some(s)
  {
    var bucket := s.cells[entity];
    assert bucket[name := Cell(bucket[name].data, false)] == bucket;
    assert s.cells[entity := bucket] == s.cells;
  }

  /** `get_components_of_entity`, shared by every generation: the names in the entity's
      map; an empty list for a listed entity with no map; `None` (the generation's
      `EntityNotFound`) for an entity that is neither. */
  method ComponentsOfEntity<E(==, !new)>(s: State<E>, entity: E) returns (r: Option<seq<string>>)
    ensures r.None? <==> entity !in s.cells && entity !in s.entities
    ensures r.Some? && entity !in s.cells ==> r.value == []
    ensures r.Some? ==> Enumerate.Distinct(r.value)
    ensures r.Some? ==> forall n :: n in r.value <==> Attached(s, entity, n)
  {
    if entity in s.cells {
      var names := Enumerate.SetToSeq(s.cells[entity].Keys);
      r := Some(names);
    } else if entity in s.entities {
      r := Some([]);
    } else {
      r := None;
    }
  }

  /** The cells of one component, in the component list's order. */
  function CellsOf<E(==, !new)>(s: State<E>, name: string): (r: seq<ComponentData<E>>)
    requires Valid(s) && name in s.components
    ensures |r| == |s.components[name]|
    ensures forall i :: 0 <= i < |r| ==> r[i] == s.cells[s.components[name][i]][name].data
  {
    seq(|s.components[name]|, i requires 0 <= i < |s.components[name]| => s.cells[s.components[name][i]][name].data)
  }

  /** With a valid state the per-component list names exactly the attached entities. */
  lemma ListedIffAttached<E(!new)>(s: State<E>, entity: E, name: string)
    requires Valid(s) && name in s.components
    ensures entity in s.components[name] <==> Attached(s, entity, name)
  {
    if entity in s.components[name] {
      var i :| 0 <= i < |s.components[name]| && s.components[name][i] == entity;
    }
  }

  /** The per-component view and the per-entity view show the same cell: every
      attached entity's cell appears in its component's list view, and each list
      entry is that entity's cell. */
  lemma {:induction false} ViewsAgree<E(!new)>(s: State<E>, entity: E, name: string)
    requires Valid(s) && Attached(s, entity, name)
    ensures name in s.components
    ensures s.cells[entity][name].data in CellsOf(s, name)
  {
    var list := s.components[name];
    var i :| 0 <= i < |list| && list[i] == entity;
    assert CellsOf(s, name)[i] == s.cells[entity][name].data;
  }
}
