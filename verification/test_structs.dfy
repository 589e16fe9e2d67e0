/** The small types the library's own tests instantiate the worlds with. Their value
    union and their definition and handle types behave as the production ones, which
    are used directly; what differs is the entity id and the partial field read. */
module TestStructs {
  import opened Wrappers
  import opened Values
  import opened Components
  import Errors
  import GcsWorld

  newtype U8 = x: int | 0 <= x < 0x100

  /** `TestEntityId`: a one-byte id; equality and hashing look only at it. */
  datatype TestEntityId = TestEntityId(id: U8)

  /** `EntityId::create`: the default id, whatever was created before. */
  function Create(): (e: TestEntityId)
    ensures e.id == 0
  {
    TestEntityId(0)
  }

  function NewId(id: U8): (e: TestEntityId)
    ensures e.id == id
  {
    TestEntityId(id)
  }

  /** `set_id`. */
  function SetId(e: TestEntityId, id: U8): (e': TestEntityId)
    ensures e'.id == id
  {
    e.(id := id)
  }

  /** `as_string` is always empty and `parse_str` always fails. */
  function AsString(e: TestEntityId): (s: string)
    ensures |s| == 0
  {
    ""
  }

  function ParseStr(input: string): (r: Result<TestEntityId, string>)
    ensures r.Err?
  {
    Err("Not Implemented")
  }

  /** Two ids are equal exactly when their bytes are. */
  lemma EqualityIsIdEquality(a: TestEntityId, b: TestEntityId)
    ensures a == b <==> a.id == b.id
  {
  }

  /** Every created id is the same id, so a world that creates two entities lists one
      id twice, and registering a created id afterwards is refused. */
  lemma CreatedIdsCollide(w: GcsWorld.World<TestEntityId>)
    ensures var (w1, a) := GcsWorld.CreateEntity(w, Create());
            var (w2, b) := GcsWorld.CreateEntity(w1, Create());
            && a == b
            && w2.entities[|w.entities|] == w2.entities[|w.entities| + 1]
            && GcsWorld.RegisterEntity(w2, Create()).1 == Fail(Errors.AlreadyRegistered)
  {
    var (w1, a) := GcsWorld.CreateEntity(w, Create());
    var (w2, b) := GcsWorld.CreateEntity(w1, Create());
    assert w2.entities[|w.entities| + 1] == Create();
  }

  /** `TestComponentData::get_field`: unwraps, so the field must be present. */
  function GetFieldStrict(d: ComponentData<TestEntityId>, field: string): (v: ComponentValue)
    requires field in d.fields
    ensures v == GetField(d, field)
  {
    d.fields[field]
  }

  /** Where the test read is defined it agrees with the production read, and a field
      set through `set_field` is always defined. */
  lemma StrictReadAfterSet(d: ComponentData<TestEntityId>, field: string, v: ComponentValue)
    ensures field in SetField(d, field, v).fields
    ensures GetFieldStrict(SetField(d, field, v), field) == v
  {
  }
}
