/** Entity identifiers and the per-entity, per-component field bag. */
module Components {
  import opened Values

  newtype U128 = x: int | 0 <= x < 0x1_0000_0000_0000_0000_0000_0000_0000_0000

  /** The production entity id: a 128-bit UUID, compared by value. How fresh
      ids are drawn is not modelled: callers pass the new id in. */
  datatype EntityId = EntityId(uuid: U128)

  /** `{entity, fields}`; generic over the entity-id type as the Rust trait is. */
  datatype ComponentData<E> = ComponentData(entity: E, fields: map<string, ComponentValue>)

  /** `new(entity)` and `create_component_data(entity)`: the entity, no fields. */
  function New<E>(entity: E): (d: ComponentData<E>)
    ensures GetEntity(d) == entity
    ensures forall f :: f !in d.fields
  {
    ComponentData(entity, map[])
  }

  function GetEntity<E>(d: ComponentData<E>): E { d.entity }

  /** Total read: a field that was never set reads as `Nil`. */
  function GetField<E>(d: ComponentData<E>, field: string): (v: ComponentValue)
    ensures field !in d.fields ==> v == Nil
    ensures field in d.fields ==> v == d.fields[field]
  {
    if field in d.fields then d.fields[field] else Nil
  }

  /** Inserts or overwrites one field and touches nothing else. */
  function SetField<E>(d: ComponentData<E>, field: string, value: ComponentValue): (d': ComponentData<E>)
    ensures GetEntity(d') == GetEntity(d)
    ensures GetField(d', field) == value
    ensures forall g :: g != field ==> GetField(d', g) == GetField(d, g)
    ensures d'.fields.Keys == d.fields.Keys + {field}
  {
    d.(fields := d.fields[field := value])
  }

  /** A fresh field bag reads `Nil` everywhere. */
  lemma NewReadsNil<E>(entity: E, field: string)
    ensures GetField(New(entity), field) == Nil
  {
  }

  /** A later write to the same field replaces the earlier one entirely. */
  lemma SetFieldOverwrites<E>(d: ComponentData<E>, field: string, v1: ComponentValue, v2: ComponentValue)
    ensures SetField(SetField(d, field, v1), field, v2) == SetField(d, field, v2)
  {
  }

  /** Writes to different fields commute. */
  lemma SetFieldCommutes<E>(d: ComponentData<E>, f: string, g: string, v: ComponentValue, w: ComponentValue)
    requires f != g
    ensures SetField(SetField(d, f, v), g, w) == SetField(SetField(d, g, w), f, v)
  {
  }
}
