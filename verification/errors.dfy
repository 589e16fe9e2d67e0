/** The error enums shared by the schema storage, the data storage and the
    `GCSWorld` façade, with the fixed message each variant renders as. */
module Errors {

  datatype GetComponentDataOfEntityError = EntityNotFound | ComponentNotFound | ComponentNotInEntity

  /** This generation's write error has no `DataInUse` variant. */
  datatype SetComponentDataError = EntityNotFound | ComponentNotFound

  datatype RegisterEntityError = AlreadyRegistered

  datatype AddComponentError = NameAlreadyAdded

  /** Each read message opens with what was missing: the entity, the component
      schema, or (for a pair) the entity's lack of it. */
  function GetMessage(e: GetComponentDataOfEntityError): (m: string)
    ensures |m| > 0
    ensures e.EntityNotFound? <==> m[0] == 'E'
    ensures e.ComponentNotFound? <==> m[0] == 'C'
  {
    match e
    case EntityNotFound => "Entity with that id was not found"
    case ComponentNotFound => "Component with that name was not found"
    case ComponentNotInEntity => "The entity does not have that component"
  }

  /** As written: `ComponentNotFound` renders with the text of a name conflict. */
  function SetMessage(e: SetComponentDataError): (m: string)
    ensures e.EntityNotFound? <==> m == GetMessage(GetComponentDataOfEntityError.EntityNotFound)
  {
    match e
    case EntityNotFound => "Entity with that id was not found"
    case ComponentNotFound => "Component with that name is already registered"
  }

  /** The message the variant names: the same text the read error uses for the same miss. */
  function SetMessageIntended(e: SetComponentDataError): (m: string)
    ensures m == GetMessage(AsGetError(e))
  {
    match e
    case EntityNotFound => "Entity with that id was not found"
    case ComponentNotFound => "Component with that name was not found"
  }

  /** The duplicate-entity text names the entity and is none of the read messages. */
  function RegisterEntityMessage(e: RegisterEntityError): (m: string)
    ensures |m| > 0
    ensures m[0] == 'E'
    ensures forall g :: m != GetMessage(g)
  {
    "Entity with that id is already registered"
  }

  /** The name-conflict text is none of the read or write messages. */
  function AddComponentMessage(e: AddComponentError): (m: string)
    ensures forall g :: m != GetMessage(g)
    ensures forall w :: m != SetMessage(w)
  {
    "Another component with that name already exists"
  }

  /** The read error for the same lookup miss. */
  function AsGetError(e: SetComponentDataError): GetComponentDataOfEntityError {
    match e
    case EntityNotFound => GetComponentDataOfEntityError.EntityNotFound
    case ComponentNotFound => GetComponentDataOfEntityError.ComponentNotFound
  }

  /** Every variant has its own message, so a caller can tell them apart by text. */
  lemma MessagesDistinguishVariants(a: GetComponentDataOfEntityError, b: GetComponentDataOfEntityError,
                                    c: SetComponentDataError, d: SetComponentDataError)
    ensures a != b ==> GetMessage(a) != GetMessage(b)
    ensures c != d ==> SetMessage(c) != SetMessage(d)
  {
  }

  /** As written, a write to an unregistered component reports a name conflict,
      the opposite of what happened, and disagrees with the read error's text. */
  lemma SetMessageMislabelsMissingComponent()
    ensures SetMessage(SetComponentDataError.ComponentNotFound)
         != GetMessage(AsGetError(SetComponentDataError.ComponentNotFound))
  {
    assert |SetMessage(SetComponentDataError.ComponentNotFound)|
        != |GetMessage(AsGetError(SetComponentDataError.ComponentNotFound))|;
  }

  /** The text a world reports when a component name is already registered. */
  function AlreadyRegisteredMessage(name: string): (m: string)
    ensures |m| == |name| + 41
    ensures m[..21] == "Component with name '" && m[21..21 + |name|] == name
  {
    "Component with name '" + name + "' already registered"
  }

  /** The rejection message names the component, so different names give different messages. */
  lemma {:induction false} MessageIdentifiesComponent(a: string, b: string)
    ensures AlreadyRegisteredMessage(a) == AlreadyRegisteredMessage(b) <==> a == b
  {
    if AlreadyRegisteredMessage(a) == AlreadyRegisteredMessage(b) {
      assert |a| == |b|;
      assert a == AlreadyRegisteredMessage(a)[21..21 + |a|];
    }
  }
}
