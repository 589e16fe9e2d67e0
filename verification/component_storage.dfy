/** The schema registry: component name -> schema handle, schema handle -> definition. */
module ComponentStorage {
  import opened Wrappers
  import opened Definitions
  import opened Errors
  import Enumerate

  datatype Storage = Storage(
    definitions: map<ComponentInfo, ComponentDefinition>,
    names: map<string, ComponentInfo>
  )

  function Empty(): (s: Storage)
    ensures Valid(s)
    ensures forall name :: !HasComponent(s, name)
  {
    Storage(map[], map[])
  }

  /** Every bound name's handle resolves to a stored definition. */
  predicate Valid(s: Storage) {
    forall name :: name in s.names ==> s.names[name] in s.definitions
  }

  predicate HasComponent(s: Storage, name: string) {
    name in s.names
  }

  predicate HasComponentInfo(s: Storage, info: ComponentInfo) {
    info in s.definitions
  }

  function GetComponentInfo(s: Storage, name: string): (r: Option<ComponentInfo>)
    ensures r.None? <==> !HasComponent(s, name)
  {
    if name in s.names then Some(s.names[name]) else None
  }

  function GetComponentDefinition(s: Storage, info: ComponentInfo): (r: Option<ComponentDefinition>)
    ensures r.Some? <==> HasComponentInfo(s, info)
  {
    if info in s.definitions then Some(s.definitions[info]) else None
  }

  /** In a valid registry every registered name leads to a definition. */
  lemma RegisteredNameHasDefinition(s: Storage, name: string)
    requires Valid(s) && HasComponent(s, name)
    ensures HasComponentInfo(s, GetComponentInfo(s, name).value)
    ensures GetComponentDefinition(s, GetComponentInfo(s, name).value).Some?
  {
  }

  /** `get_component_names`: exactly the bound names, each once, in no particular order. */
  method GetComponentNames(s: Storage) returns (names: seq<string>)
    ensures forall name :: name in names <==> HasComponent(s, name)
    ensures Enumerate.Distinct(names)
    ensures |names| == |s.names|
  {
    names := Enumerate.SetToSeq(s.names.Keys);
  }

  /** Registers `definition` under `name`. A taken name fails and changes nothing.
      Otherwise the handle is the hash of the definition followed by the name; the
      definition is stored under it only if no definition is stored there yet; and
      the name is bound to it. */
  function AddComponent(s: Storage, name: string, definition: ComponentDefinition, hasher: Hasher)
    : (r: (Storage, Result<ComponentInfo, AddComponentError>))
    ensures HasComponent(s, name) ==> r == (s, Err(NameAlreadyAdded))
    ensures !HasComponent(s, name) ==>
      && r.1 == Ok(CreateInfo(ComponentHash(hasher, definition, name)))
      && GetComponentInfo(r.0, name) == Some(r.1.value)
      && HasComponentInfo(r.0, r.1.value)
      && (!HasComponentInfo(s, r.1.value) ==> GetComponentDefinition(r.0, r.1.value) == Some(definition))
      // nothing else is stored: one new name, and at most one new handle, the returned one
      && r.0.names.Keys == s.names.Keys + {name}
      && r.0.definitions.Keys == s.definitions.Keys + {r.1.value}
    // first writer wins: a definition already stored under any handle stays
    ensures forall info :: HasComponentInfo(s, info) ==>
      GetComponentDefinition(r.0, info) == GetComponentDefinition(s, info)
    // names bound before keep their handles; no other name becomes bound
    ensures forall other :: other != name ==> GetComponentInfo(r.0, other) == GetComponentInfo(s, other)
    ensures forall info :: HasComponentInfo(s, info) ==> HasComponentInfo(r.0, info)
    ensures Valid(s) ==> Valid(r.0)
  {
    if name in s.names then (s, Err(NameAlreadyAdded))
    else
      var info := CreateInfo(ComponentHash(hasher, definition, name));
      var definitions := if info in s.definitions then s.definitions else s.definitions[info := definition];
      (Storage(definitions, s.names[name := info]), Ok(info))
  }

  /** A name can be registered once: a second registration under it, with any
      definition, fails and the first definition stays retrievable through the
      name's handle (provided no earlier schema already held that hash). */
  lemma NameRegisteredOnce(s: Storage, name: string, d1: ComponentDefinition, d2: ComponentDefinition, hasher: Hasher)
    requires !HasComponent(s, name)
    requires !HasComponentInfo(s, CreateInfo(ComponentHash(hasher, d1, name)))
    ensures var (s1, r1) := AddComponent(s, name, d1, hasher);
            var (s2, r2) := AddComponent(s1, name, d2, hasher);
            && r1.Ok? && r2 == Err(NameAlreadyAdded) && s2 == s1
            && GetComponentDefinition(s2, GetComponentInfo(s2, name).value) == Some(d1)
  {
  }

  /** The handle depends only on the definition and the name: two registries that
      both accept the pair return the same handle. */
  lemma HandleIsDeterministic(s: Storage, t: Storage, name: string, d: ComponentDefinition, hasher: Hasher)
    requires !HasComponent(s, name) && !HasComponent(t, name)
    ensures AddComponent(s, name, d, hasher).1 == AddComponent(t, name, d, hasher).1
  {
  }

  /** When a later registration hashes to a handle already in use, the name is bound
      to that handle and the earlier schema answers for it. */
  lemma CollisionKeepsFirstDefinition(s: Storage, name: string, d: ComponentDefinition, hasher: Hasher)
    requires !HasComponent(s, name)
    requires HasComponentInfo(s, CreateInfo(ComponentHash(hasher, d, name)))
    ensures var (s1, r) := AddComponent(s, name, d, hasher);
            GetComponentDefinition(s1, GetComponentInfo(s1, name).value)
              == GetComponentDefinition(s, CreateInfo(ComponentHash(hasher, d, name)))
  {
  }
}
