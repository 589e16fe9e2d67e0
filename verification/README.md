# godot-component-system: the entity–component store

This project models the in-memory store at the heart of godot-component-system, an
entity–component–system library for the Godot engine written in Rust. The model
covers these parts:

- **Schema registry** (`ComponentStorage`). A name maps to a `ComponentInfo`. That
  handle is the 64-bit hash of the component's definition followed by its name, and
  it maps to the `ComponentDefinition`.
- **Data store** (`ComponentDataStorage`). An entity maps to its named
  `ComponentData` records.
- **Three world façades** over those two stores:
  - `GcsWorld`, the `GCSWorld` of `gcs/src/world/gcs_world.rs`;
  - `EcsWorld`, the newest `ECSWorld` of `gcs/src/world/ecs_world.rs`;
  - `LegacyEcsWorld`, the earlier generic `ECSWorld` of `gcs/src/ecs_world.rs`.
- **Concrete world** (`ConcreteEcsWorld`). This is that earlier world instantiated with
  the production types, from `src/ecs_world.rs`.
- **Value types**:
  - `Values`: the component value union and its coercing getters;
  - `Definitions`: field and component definitions, the hash handle, and the exact
    stream the derived `Hash` writes;
  - `Components`: the field bag of one component of one entity;
  - `Errors`: the error enums and their messages;
  - `TestStructs`: the small types the library's tests use.

The Rust code uses `Rc<RefCell<ComponentData>>` to share each cell between a
per-component list and a per-entity map. Here both `ECSWorld` generations share one
state, `EcsState.State`, which has:

- `cells` holds the single copy of every cell, together with a borrowed flag;
- `components` lists, for each registered component, the entities that carry it, in
  attach order.

The ghost predicate `EcsState.Valid` keeps the two indexes in step. Every state
change is proved to preserve it.

The production definition, handle and value types (the `gcs-cxx` `CXX…` types and the
`src/` types) and the test types behave identically. Each is modelled once, and the
rows below cite the file each row follows. Hashing is a parameter. `Definitions.Hasher`
is any function of the token stream that `Hash` writes. The model proves that this
stream determines the definition and the name. Real arithmetic enters through a
`Values.FloatOps` parameter.

## Model

| member | source | states |
|---|---|---|
| Values.DefaultValue | gcs-cxx/src/component/component_value.rs:35-39 | a default value is `Nil` |
| Values.GetType | gcs-cxx/src/component/component_value.rs:42-50 | reports the kind of the variant held: `Nil`, `Int`, `String`, `Bool` or `Real` exactly for the matching variant |
| Values.SetNil | gcs-cxx/src/component/component_value.rs:52-54 | whatever the value held, the result has kind `Nil` and is the empty value |
| Values.SetInt | gcs-cxx/src/component/component_value.rs:58-60 | whatever the value held, the result has kind `Int` and `get_int` reads back the stored integer |
| Values.SetString | gcs-cxx/src/component/component_value.rs:84-86 | whatever the value held, the result has kind `String` and `get_string` reads back the stored text |
| Values.SetBool | gcs-cxx/src/component/component_value.rs:98-100 | whatever the value held, the result has kind `Bool` and `get_bool` reads back the stored flag |
| Values.SetReal | gcs-cxx/src/component/component_value.rs:112-114 | whatever the value held, the result has kind `Real`, and `get_string` and `get_int` give the platform's conversions of the stored double |
| Values.GetInt | gcs-cxx/src/component/component_value.rs:62-82 | every empty value reads as 0; an integer reads as itself; a string that parses reads as its parsed value; a bool reads as 1 exactly when true and 0 exactly when false |
| Values.GetString | gcs-cxx/src/component/component_value.rs:88-96 | `Nil` renders as ""; a string renders as itself; an integer renders as text that parses back to that integer |
| Values.GetBool | gcs-cxx/src/component/component_value.rs:102-110 | as written: on nil, int and bool values it is "`get_int` is non-zero"; on a string it is the opposite of the corrected reading; on every other kind it agrees with the corrected reading |
| Values.ParseI64 | gcs-cxx/src/component/component_value.rs:66-72 | `str::parse::<i64>` accepts only an optional sign followed by at least one digit, and succeeds exactly when the signed magnitude fits in 64 bits, giving that value |
| Values.IntToDecimal | gcs-cxx/src/component/component_value.rs:91 | `i64::to_string` starts with a minus sign exactly for negatives; every other character is a digit |
| Values.SetThenGetType | gcs-cxx/src/component/component_value.rs:42-60 | after each setter, `get_type` reports that setter's kind, whatever was held before |
| Values.SetThenGetRoundTrips | gcs-cxx/src/component/component_value.rs:58-110 | `set_int`/`set_string`/`set_bool` followed by the matching getter give the value back |
| Values.CoercionTable | gcs-cxx/src/component/component_value.rs:62-96 | reading `Nil` gives 0, "" and false; a bool reads as 1 or 0; a string reads as its parsed integer, or 0 when the parse fails |
| Values.GetBoolAgreesWithGetInt | gcs-cxx/src/component/component_value.rs:62-110 | for nil, int and bool values, `get_bool` is true exactly when `get_int` is non-zero |
| Values.IntThroughStringRoundTrip | gcs-cxx/src/component/component_value.rs:62-96 | an integer rendered by `get_string` and read back by `get_int` is the same integer |
| Values.IntDecimalRoundTrip | gcs-cxx/src/component/component_value.rs:66-72 | for every i64, parsing its decimal text gives it back |
| Values.GetBoolStringInverted | gcs-cxx/src/component/component_value.rs:102-110 | as written, an empty string is truthy, so converting a falsy value to a string flips its truth, and "true" reads as false |
| Values.GetBoolIntended | gcs-cxx/src/component/component_value.rs:102-110 | corrected reading: a non-real value is false exactly when it is the empty value of its kind |
| Values.GetBoolIntendedStringAgrees | gcs-cxx/src/component/component_value.rs:88-110 | with the corrected string case, converting a nil or string value to a string keeps its truth (for an int or bool value it does not: "0" and "false" are non-empty) |
| Definitions.CreateFieldDefinition | gcs-cxx/src/component/component_definition.rs:36-44 | the created field reports the given name and type |
| Definitions.DefaultFieldDefinition | gcs-cxx/src/component/component_definition.rs:8-13 | the default field has an empty name and `Nil` type |
| Definitions.EmptyDefinition | gcs-cxx/src/component/component_definition.rs:78-80 | a new definition has no fields |
| Definitions.AddField | gcs-cxx/src/component/component_definition.rs:67-76 | `add_field` appends, leaving every earlier field in place |
| Definitions.AddFieldsInOrder | src/component/component_definition.rs:66-74 | adding fields one by one to an empty definition yields exactly those fields in that order |
| Definitions.AddAllAppends | src/component/component_definition.rs:66-70 | adding a sequence of fields appends that sequence |
| Definitions.CreateInfo | gcs-cxx/src/component/component_info.rs:15-29 | `get_hash` returns the hash the handle was created from |
| Definitions.DefaultInfo | gcs/src/test_structs.rs:227-243 | the default handle has hash 0 |
| Definitions.InfoEqualityIsHashEquality | gcs-cxx/src/component/component_info.rs:4-7 | two handles are equal exactly when their hashes are |
| Definitions.DecodeFieldsRoundTrip | gcs-cxx/src/component/component_definition.rs:8-13 | the stream a field list writes into the hasher decodes back to that list, leaving any rest intact |
| Definitions.HashInputRoundTrip | gcs/src/world/component_storage.rs:63-65 | the registration stream (definition, then name) decodes back to the pair |
| Definitions.HashInputInjective | gcs/src/world/component_storage.rs:63-65 | two (definition, name) pairs write the same stream exactly when they are equal |
| Errors.GetMessage | gcs/src/world/errors.rs:10-24 | the read messages begin with 'E' exactly for the entity miss and with 'C' exactly for the component miss |
| Errors.SetMessage | gcs/src/world/errors.rs:32-43 | as written: the write error's entity-miss text is the read error's entity-miss text, and no other write variant renders as it |
| Errors.RegisterEntityMessage | gcs/src/world/errors.rs:50-58 | the duplicate-entity text begins with 'E' and is none of the read messages |
| Errors.AddComponentMessage | gcs/src/world/errors.rs:64-72 | the name-conflict text is none of the read or write messages |
| Errors.SetMessageMislabelsMissingComponent | gcs/src/world/errors.rs:38-40 | a missing component is reported as "already registered", which differs from the read error's text for the same miss |
| Errors.SetMessageIntended | gcs/src/world/errors.rs:32-43 | corrected: every write error renders as the read error for the same miss |
| Errors.MessagesDistinguishVariants | gcs/src/world/errors.rs:10-43 | distinct variants render distinct messages |
| Errors.AlreadyRegisteredMessage | gcs/src/world/gcs_world.rs:44-48 | the rejection text embeds the component name at a fixed offset |
| Errors.MessageIdentifiesComponent | gcs/src/world/gcs_world.rs:44-48 | two rejection messages are equal exactly when they name the same component |
| Components.New | gcs-cxx/src/component/component_data.rs:17-22 | a new record belongs to the given entity and holds no fields |
| Components.GetField | gcs-cxx/src/component/component_data.rs:28-34 | an absent field reads as `Nil`; a present one reads as its stored value |
| Components.SetField | gcs-cxx/src/component/component_data.rs:36-38 | the set field reads back the new value; every other field and the entity are unchanged |
| Components.NewReadsNil | src/component/component_data.rs:29-46 | every field of a new record reads as `Nil` |
| Components.SetFieldOverwrites | src/component/component_data.rs:48-50 | setting a field twice keeps only the last value |
| Components.SetFieldCommutes | src/component/component_data.rs:48-50 | writes to two different fields can be made in either order |
| Enumerate.ValuesOf | gcs/src/world/component_data_storage.rs:78-86 | one entry per key: a ghost list of distinct keys, exactly the map's keys, with the i-th value stored under the i-th key |
| Enumerate.SetToSeq | gcs/src/world/component_storage.rs:42-44 | enumerating a set lists every element exactly once |
| ComponentStorage.Empty | gcs/src/world/component_storage.rs:27-34 | the empty registry is consistent and has no names |
| ComponentStorage.GetComponentInfo | gcs/src/world/component_storage.rs:77-79 | a handle comes back exactly for registered names |
| ComponentStorage.GetComponentDefinition | gcs/src/world/component_storage.rs:81-86 | a definition comes back exactly for known handles |
| ComponentStorage.RegisteredNameHasDefinition | gcs/src/world/component_storage.rs:67-70 | in a consistent registry, a registered name's handle always resolves to a definition |
| ComponentStorage.GetComponentNames | gcs/src/world/component_storage.rs:42-44 | the listed names are exactly the registered ones, each once |
| ComponentStorage.AddComponent | gcs/src/world/component_storage.rs:55-75 | a taken name is refused with nothing changed; otherwise the name gets the hash of (definition, name); the definition is stored under that handle unless one is already there, which is kept; the name and handle key sets grow by exactly that name and that handle; other names are unchanged; consistency is preserved |
| ComponentStorage.NameRegisteredOnce | gcs/src/world/component_storage.rs:60-74 | after a successful registration the same name is refused, whatever the second definition |
| ComponentStorage.HandleIsDeterministic | gcs/src/world/component_storage.rs:63-66 | the handle depends only on the definition and the name, not on the rest of the registry |
| ComponentStorage.CollisionKeepsFirstDefinition | gcs/src/world/component_storage.rs:67-69 | when two registrations hash alike, the handle keeps resolving to the first definition |
| ComponentDataStorage.Empty | gcs/src/world/component_data_storage.rs:46-49 | the empty store knows no entity |
| ComponentDataStorage.GetOfEntity | gcs/src/world/component_data_storage.rs:98-110 | an unknown entity gives `EntityNotFound`; a known entity without the component gives `ComponentNotInEntity`; otherwise the stored record |
| ComponentDataStorage.SetComponentOfEntity | gcs/src/world/component_data_storage.rs:112-122 | the record reads back; a first write creates the entity's map with that one name; the entity's other records and all other entities are unchanged |
| ComponentDataStorage.DoesEntityHaveComponent | gcs/src/world/component_data_storage.rs:131-146 | the three answers match exactly the three outcomes of the read, in both directions |
| ComponentDataStorage.SetThenQuery | gcs/src/world/component_data_storage.rs:112-146 | after a write, the query answers `EntityHasComponent` |
| ComponentDataStorage.SetTwiceKeepsLast | gcs/src/world/component_data_storage.rs:112-122 | writing twice leaves the store as the last write alone would |
| ComponentDataStorage.GetComponentsOfEntity | gcs/src/world/component_data_storage.rs:88-96 | no list for an unknown entity; otherwise exactly the names the entity holds, each once |
| ComponentDataStorage.GetAllOfEntity | gcs/src/world/component_data_storage.rs:78-86 | no list for an unknown entity; otherwise one entry per component name the entity holds: a ghost list of the distinct names, exactly the entity's names, with the i-th entry the record under the i-th name |
| ComponentDataStorage.GetAllOfComponent | gcs/src/world/component_data_storage.rs:63-76 | no list when no entity holds the component; otherwise one entry per holder: a ghost list of distinct holders, exactly the entities holding the component, with the i-th entry the i-th holder's record |
| ComponentDataStorage.SizeOfSplit | gcs/src/world/component_data_storage.rs:56-61 | the total record count splits into one entity's count plus the rest |
| ComponentDataStorage.GetAll | gcs/src/world/component_data_storage.rs:56-61 | one entry per stored (entity, name) slot: a ghost list of distinct slots, exactly the stored ones, as many as the total record count, with the i-th entry the record in the i-th slot; so every stored record appears |
| GcsWorld.Empty | gcs/src/world/gcs_world.rs:14-25 | a new world is consistent, with no entities, components or data |
| GcsWorld.RegisterComponent | gcs/src/world/gcs_world.rs:30-50 | a taken name gives the "already registered" message and no change; otherwise the returned handle is the one now bound to the name, and a handle new to the registry resolves to the supplied definition; other names, entities and data are unchanged |
| GcsWorld.CreateEntity | gcs/src/world/gcs_world.rs:63-70 | the supplied id is returned and appended; nothing else changes |
| GcsWorld.RegisterEntity | gcs/src/world/gcs_world.rs:72-82 | a listed id gives `AlreadyRegistered` and no change; otherwise it is appended |
| GcsWorld.SetComponentData | gcs/src/world/gcs_world.rs:84-99 | checks the entity first, then the component; succeeds exactly when both exist; then stores the record whole, leaving other entities and the entity's other components unchanged |
| GcsWorld.IsComponentAddedToEntity | gcs/src/world/gcs_world.rs:101-108 | `EntityHasComponent` exactly when a read succeeds; `EntityNotFound` exactly when the entity has no data |
| GcsWorld.IsComponentAddedAsBool | gcs-cxx/src/world/gcs_world.rs:189-208 | the bridge's bool result is an error exactly when the entity has no data, and true exactly when a read succeeds |
| GcsWorld.DatalessEntityAnswers | gcs-cxx/src/world/gcs_world.rs:189-208 | a listed entity with no data gets an error from the bool query, but `ComponentNotInEntity` from the read |
| GcsWorld.GetComponentsOfEntity | gcs/src/world/gcs_world.rs:110-124 | an error only for an entity that is neither listed nor holds data; a listed entity without data gets an empty list; otherwise exactly its names |
| GcsWorld.GetComponentOfEntity | gcs/src/world/gcs_world.rs:125-151 | an unregistered component comes first as an error; then `EntityNotFound` only for an entity neither listed nor holding data; `ComponentNotInEntity` otherwise; success exactly when stored |
| GcsWorld.GetComponentData | gcs/src/world/gcs_world.rs:52-57 | none exactly when no entity holds the component; otherwise one entry per holder: a ghost list of distinct holders, exactly the entities whose read succeeds, with the i-th entry the i-th holder's read; every successful read's record appears |
| GcsWorld.SetThenGet | gcs/src/world/gcs_world.rs:84-151 | a successful write is what the next read returns |
| GcsWorld.FailedWriteIsIdempotent | gcs/src/world/gcs_world.rs:84-99 | a refused write changes nothing |
| GcsWorld.RegisterThenWrite | gcs/src/world/gcs_world.rs:72-99 | after registering an entity, a write to a registered component succeeds |
| GcsWorld.NotFoundMeansUnlisted | gcs/src/world/gcs_world.rs:125-151 | in a consistent world, `EntityNotFound` from the read means exactly an unlisted entity with a registered component |
| EcsState.Empty | gcs/src/world/ecs_world.rs:18-39 | the empty state is consistent, holds no borrow, and has no entity, component or cell |
| EcsState.RegisterComponent | gcs/src/world/ecs_world.rs:46-71 | a taken name is refused with its message; otherwise the name gets its handle and an empty list, and its definition is the supplied one unless the handle already held a definition, which is kept; cells and entities are unchanged; consistency is preserved |
| EcsState.NewListKeepsValid | gcs/src/world/ecs_world.rs:58-64 | giving a new component an empty list keeps the two indexes consistent |
| EcsState.CreateEntity | gcs/src/world/ecs_world.rs:98-102 | the supplied id is appended and returned; nothing else changes |
| EcsState.EntityListIrrelevant | gcs/src/world/ecs_world.rs:98-114 | appending to the entity list never affects consistency or borrows, which depend only on the registry and the two cell indexes |
| EcsState.RegisterEntity | gcs/src/world/ecs_world.rs:104-114 | a listed id is refused with no change; otherwise it is appended |
| EcsState.Attach | gcs/src/world/ecs_world.rs:125-138 | a fresh cell for the entity is created and appended to the component's list; every other cell and list is unchanged; consistency is preserved |
| EcsState.CopyFields | gcs/src/world/ecs_world.rs:173-183 | declared fields take the input's value; undeclared fields keep the stored value; the entity is unchanged |
| EcsState.CopyFieldsIgnoresUndeclared | gcs/src/world/ecs_world.rs:173-183 | inputs that agree on the declared fields produce the same record |
| EcsState.CopyFieldsIdempotent | gcs/src/world/ecs_world.rs:173-183 | copying the same input twice equals copying it once |
| EcsState.Store | gcs/src/world/ecs_world.rs:162-183 | a borrowed cell refuses the write; otherwise only that cell changes, to the copied fields, and consistency is preserved |
| EcsState.StoreOfSameFieldsIsNoop | gcs/src/world/ecs_world.rs:180-183 | a write that leaves the cell's fields as they are leaves the whole state unchanged |
| EcsState.ComponentsOfEntity | gcs/src/world/ecs_world.rs:198-215 | none exactly for an entity neither listed nor holding cells; otherwise exactly the entity's names, each once |
| EcsState.CellsOf | gcs/src/world/ecs_world.rs:73-92 | one record per list entry, in list order, each the cell of that entity |
| EcsState.ListedIffAttached | gcs/src/world/ecs_world.rs:116-139 | in a consistent state, an entity is in a component's list exactly when it holds that component's cell |
| EcsState.ViewsAgree | gcs/src/world/ecs_world.rs:73-92 | every attached cell appears in its component's list view |
| EcsWorld.RegisteredSchemaGovernsFirstWrite | gcs/src/world/ecs_world.rs:46-183 | after registering a component under a new handle, the first write of a listed entity to it succeeds and holds exactly the supplied values of that definition's fields, and `Nil` for every other field |
| EcsWorld.SharedStepsKeepValid | gcs/src/world/ecs_world.rs:46-114 | registering, creating and listing entities keep this world's invariant that only listed entities hold cells |
| EcsWorld.AddComponentToEntity | gcs/src/world/ecs_world.rs:116-139 | an unregistered name, then an attached pair, are refused with their messages and no change; otherwise a fresh cell is attached and appended to the list |
| EcsWorld.SetComponentData | gcs/src/world/ecs_world.rs:141-186 | entity check, then component check, both without change; `DataInUse` exactly when the pair's cell is borrowed, with no change; otherwise the pair is attached if needed and its declared fields are copied in; every other cell is unchanged; both invariants are preserved |
| EcsWorld.GetComponentData | gcs/src/world/ecs_world.rs:73-92 | an error exactly for an unregistered component; otherwise one record per attached entity, in attach order, including every attached cell |
| EcsWorld.IsComponentAddedToEntity | gcs/src/world/ecs_world.rs:188-196 | true exactly when the pair is attached |
| EcsWorld.GetComponentsOfEntity | gcs/src/world/ecs_world.rs:198-215 | `EntityNotFound` exactly for an entity neither listed nor holding cells; otherwise exactly its names, each once |
| EcsWorld.GetComponentOfEntity | gcs/src/world/ecs_world.rs:216-241 | the stored record exactly when attached; `EntityNotFound` exactly for an entity neither listed nor holding cells; `ComponentNotInEntity` otherwise |
| EcsWorld.GetIgnoresSchema | gcs/src/world/ecs_world.rs:216-241 | the per-entity read does not depend on the schema registry |
| EcsWorld.AddTwiceFails | gcs/src/world/ecs_world.rs:116-139 | the second attach of a pair is refused and changes nothing |
| EcsWorld.WriteVisibleInBothViews | gcs/src/world/ecs_world.rs:73-92 | with no borrow held, a write to a listed entity and a registered component succeeds, and the per-entity read's record then appears in the per-component read |
| EcsWorld.NeverInUse | gcs/src/world/ecs_world.rs:168-171 | with no borrow held, a write to a listed entity and a registered component always succeeds and leaves no borrow |
| EcsWorld.SetTwiceIsSetOnce | gcs/src/world/ecs_world.rs:141-186 | writing the same data twice leaves the world as one write did |
| LegacyEcsWorld.GetComponentsOfEntityMessage | gcs/src/ecs_world.rs:20-28 | the listing error renders this generation's entity-miss text, which differs from the shared read error's text |
| LegacyEcsWorld.SetMessage | gcs/src/ecs_world.rs:37-51 | as written: exactly `ComponentNotFound` renders the shared name-conflict text; the entity-miss text (with its stray "is") differs from the shared read text; the borrow text is none of the read messages |
| LegacyEcsWorld.SetMessageMislabelsMissingComponent | gcs/src/ecs_world.rs:43-45 | a missing component renders as "already registered", the same mislabel as the shared errors |
| LegacyEcsWorld.SetMessageIntended | gcs/src/ecs_world.rs:37-51 | corrected: `ComponentNotFound` renders as "was not found"; the other variants are unchanged |
| LegacyEcsWorld.SetMessageIntendedDistinguishesVariants | gcs/src/ecs_world.rs:37-51 | the corrected messages tell every variant apart |
| LegacyEcsWorld.ListHasEntity | gcs/src/ecs_world.rs:148-151 | the scan is true exactly when some cell in the list belongs to the entity |
| LegacyEcsWorld.ScanFindsAttached | gcs/src/ecs_world.rs:141-151 | in a consistent state, the scan answers exactly whether the pair is attached |
| LegacyEcsWorld.AddComponentToEntity | gcs/src/ecs_world.rs:141-166 | refused exactly when the pair is attached, with no change; otherwise a fresh cell is attached and appended, whether or not the entity is listed |
| LegacyEcsWorld.SetComponentData | gcs/src/ecs_world.rs:168-213 | entity check, then component check, without change; `DataInUse` leaves the world unchanged; success attaches the pair |
| LegacyEcsWorld.SetComponentDataAgreesWithCurrent | gcs/src/ecs_world.rs:168-213 | on every consistent state the earlier write produces exactly the newest generation's result |
| LegacyEcsWorld.IsComponentAddedToEntity | gcs/src/ecs_world.rs:215-223 | false for an entity without cells; true exactly when the pair is attached |
| LegacyEcsWorld.GetComponentsOfEntity | gcs/src/ecs_world.rs:225-242 | `EntityNotFound` exactly for an entity neither listed nor holding cells; a listed entity without cells gets an empty list; otherwise exactly its names, each once |
| LegacyEcsWorld.AttachesUnlistedEntity | gcs/src/ecs_world.rs:141-166 | attaching to an unlisted entity succeeds and gives it cells, which breaks the newest generation's invariant |
| ConcreteEcsWorld.CreateEcsWorld | src/ecs_world.rs:152-154 | a new world is consistent, holds no borrow, and has no entities or components |
| ConcreteEcsWorld.RegisterComponent | src/ecs_world.rs:162-189 | a taken name gives the "already registered" message and no change; otherwise the returned handle's hash is that of (definition, name) and is bound to the name; a handle new to the registry resolves to the supplied definition |
| ConcreteEcsWorld.CreateEntity | src/ecs_world.rs:191-195 | the supplied UUID is returned and appended; cells, component lists and the registry are unchanged |
| ConcreteEcsWorld.RegisterEntity | src/ecs_world.rs:197-204 | a listed id gives `AlreadyRegistered` and no change; otherwise it is appended |
| ConcreteEcsWorld.AddComponentToEntity | src/ecs_world.rs:206-231 | a second attach is refused with no change; a first attach creates the entity's cell and grows the list by one |
| ConcreteEcsWorld.SetComponentData | src/ecs_world.rs:233-278 | entity check, then component check, without change; `DataInUse` exactly when the listed pair is attached and borrowed, with no change; success sets exactly the declared fields and keeps the others; no other pair is attached or detached; the result is the newest generation's write |
| ConcreteEcsWorld.IsComponentAddedToEntity | src/ecs_world.rs:280-284 | true exactly when the id has cells and one of them is the component's |
| ConcreteEcsWorld.GetComponentsOfEntity | src/ecs_world.rs:286-303 | an error exactly for an id neither listed nor holding cells; otherwise exactly its names, each once |
| ConcreteEcsWorld.SetMessage | src/ecs_world.rs:112-126 | every variant renders as in the earlier generation |
| ConcreteEcsWorld.SetMessageMislabelsMissingComponent | src/ecs_world.rs:110-124 | of the concrete world's messages, exactly the `ComponentNotFound` one differs from the intended text |
| ConcreteEcsWorld.FirstWriteReadsBack | src/ecs_world.rs:233-278 | the first write to a fresh pair reads back the supplied declared fields and `Nil` for the rest |
| TestStructs.Create | gcs/src/test_structs.rs:68-76 | a created test id is always id 0 |
| TestStructs.NewId | gcs/src/test_structs.rs:62-66 | `new` holds the given byte |
| TestStructs.SetId | gcs/src/test_structs.rs:57-59 | `set_id` replaces the byte |
| TestStructs.AsString | gcs/src/test_structs.rs:78-80 | the test id renders as the empty string |
| TestStructs.ParseStr | gcs/src/test_structs.rs:82-87 | parsing a test id always fails |
| TestStructs.EqualityIsIdEquality | gcs/src/test_structs.rs:44-54 | two test ids are equal exactly when their bytes are |
| TestStructs.CreatedIdsCollide | gcs/src/test_structs.rs:68-76 | two created test ids are the same, so a world lists that id twice and then refuses to register it |
| TestStructs.GetFieldStrict | gcs/src/test_structs.rs:218-220 | where the test record's unwrapping read is defined, it agrees with the production read |
| TestStructs.StrictReadAfterSet | gcs/src/test_structs.rs:218-224 | a field set through `set_field` is always present and reads back |

## Left out

- Engine glue is not modelled: the C++ side, the `cxx` bridges, Godot `Variant`
  conversion and `StringName`. The bridge's bool query is the one exception
  (`GcsWorld.IsComponentAddedAsBool`).
- UUID generation, formatting and parsing are not modelled. The id of a new entity is a
  parameter (`newId`).
- `DefaultHasher` values are not modelled. The hasher is a parameter over the exact
  token stream that the derived `Hash` writes.
- The unused local hasher created in `register_component` is not modelled. Its result
  is discarded.
- `get_real`, the float-to-int and float-to-string casts, and `!= 0.0` are not
  modelled. They are the fields of the `Values.FloatOps` parameter. Reals are compared
  by bit pattern, unlike Rust's `f64` equality for NaN and signed zero.
- Runtime borrowing of `RefCell` is not modelled. It appears only as the `borrowed`
  flag, and no operation sets that flag. `DataInUse` is therefore unreachable through
  the API (`EcsWorld.NeverInUse`).
- The panics of `borrow()` on a cell that is mutably borrowed are not modelled. These
  are the reads in `get_component_data` (gcs/src/world/ecs_world.rs:84-85) and
  `get_component_of_entity` (gcs/src/world/ecs_world.rs:234-235), and the duplicate
  scans of the earlier worlds (gcs/src/ecs_world.rs:150 and src/ecs_world.rs:215). No
  operation holds a borrow across a call, so no reachable state has one.
- EcsWorld.SetComponentData, EcsWorld.GetComponentData and the other state functions
  that unwrap a map lookup require `EcsState.Valid`. That invariant guarantees the
  lookup succeeds, and every operation is proved to preserve it. The unwrap panic on
  an inconsistent state is not modelled.
- LegacyEcsWorld.AddComponentToEntity: requires that the component has a list. The
  source unwraps that lookup (gcs/src/ecs_world.rs:146), and the panic for an
  unregistered name is not modelled.
- ConcreteEcsWorld.AddComponentToEntity: requires that the component has a list, for
  the same reason. The source unwraps that lookup (src/ecs_world.rs:211), and the panic
  for an unregistered name is not modelled.
- The component-generic worlds use the production record (`Components.ComponentData`),
  whose missing field reads as `Nil`. The unwrapping test read is modelled separately
  (`TestStructs.GetFieldStrict`) and is not substituted into the worlds.
- The test value union, definition and handle are not modelled separately. They are
  identical to the production ones, which stand in for them.
- `errors.rs` defines no `DataInUse`, `GetComponentDataError` or
  `GetComponentOfEntityError`, yet `gcs/src/world/ecs_world.rs` uses them. The model
  declares those enums in `EcsState` and `EcsWorld`. `gcs/src/world/errors.rs` is the
  only errors file in this model.
- The message "Entity with that id is was not found" of the earlier worlds is kept
  exactly as written.
- The order of `HashMap` iteration is not modelled. Enumerations of keys promise each
  key exactly once. Enumerations of values promise one entry per key, in some order,
  through a ghost list of the keys in the same order.

## Findings

| source | as written | input that shows it | evidently intended | confidence | as-written member | corrected member |
|---|---|---|---|---|---|---|
| gcs-cxx/src/component/component_value.rs:106 | `get_bool` of a string is `value.is_empty()` | `String("")` reads true and `String("true")` reads false | a string is true when it is non-empty, so that it is falsy exactly when empty, like `Nil`, `0` and `false` | medium, not executed | Values.GetBoolStringInverted | Values.GetBoolIntended |
| gcs/src/world/errors.rs:39 | `SetComponentDataError::ComponentNotFound` renders "Component with that name is already registered" | `set_component_data` with a component name that was never registered | "Component with that name was not found" | high, not executed | Errors.SetMessageMislabelsMissingComponent | Errors.SetMessageIntended |
| gcs/src/ecs_world.rs:44 | the same `ComponentNotFound` text in the earlier world | `set_component_data` with a component name that was never registered | "Component with that name was not found" | high, not executed | LegacyEcsWorld.SetMessageMislabelsMissingComponent | LegacyEcsWorld.SetMessageIntended |
| src/ecs_world.rs:119 | the same `ComponentNotFound` text in the concrete world | `set_component_data` with a component name that was never registered | "Component with that name was not found" | high, not executed | ConcreteEcsWorld.SetMessageMislabelsMissingComponent | LegacyEcsWorld.SetMessageIntended |
