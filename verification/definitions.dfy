/** Component schemas: field definitions, ordered definitions, the hash handle
    that names a registered schema, and the stream of values a schema and its
    name feed to the hasher. */
module Definitions {
  import opened Wrappers
  import Variant
  import opened Values

  /** `{name, field_type}`; equality (and so hashing) is structural. */
  datatype FieldDefinition = FieldDefinition(name: string, fieldType: Variant.VariantType)

  /** An ordered list of field definitions; equality is order-sensitive. */
  datatype ComponentDefinition = ComponentDefinition(fields: seq<FieldDefinition>)

  /** The schema handle: a 64-bit hash; equality and hashing use the hash alone. */
  datatype ComponentInfo = ComponentInfo(hash: U64)

  /** `ComponentFieldDefinition::new(name, field_type)` and its free-function alias. */
  function CreateFieldDefinition(name: string, fieldType: Variant.VariantType): (f: FieldDefinition)
    ensures GetName(f) == name && GetType(f) == fieldType
  {
    FieldDefinition(name, fieldType)
  }

  /** The derived `Default` field definition: empty name, `Nil` type. */
  function DefaultFieldDefinition(): (f: FieldDefinition)
    ensures GetName(f) == "" && GetType(f) == Variant.Nil
  {
    FieldDefinition("", Variant.Nil)
  }

  function GetName(f: FieldDefinition): string { f.name }

  function GetType(f: FieldDefinition): Variant.VariantType { f.fieldType }

  /** `Default` / `create_component_definition()`: no fields. */
  function EmptyDefinition(): (d: ComponentDefinition)
    ensures |GetFields(d)| == 0
  {
    ComponentDefinition([])
  }

  function GetFields(d: ComponentDefinition): seq<FieldDefinition> { d.fields }

  /** Appends at the end; earlier fields keep their positions and contents. */
  function AddField(d: ComponentDefinition, f: FieldDefinition): (d': ComponentDefinition)
    ensures |GetFields(d')| == |GetFields(d)| + 1
    ensures GetFields(d')[..|GetFields(d)|] == GetFields(d)
    ensures GetFields(d')[|GetFields(d)|] == f
  {
    ComponentDefinition(d.fields + [f])
  }

  /** Adding fields one by one yields exactly those fields, in insertion order. */
  lemma {:induction false} AddFieldsInOrder(fs: seq<FieldDefinition>)
    ensures GetFields(AddAll(EmptyDefinition(), fs)) == fs
  {
    AddAllAppends(EmptyDefinition(), fs);
  }

  function AddAll(d: ComponentDefinition, fs: seq<FieldDefinition>): ComponentDefinition
    decreases |fs|
  {
    if |fs| == 0 then d else AddAll(AddField(d, fs[0]), fs[1..])
  }

  lemma {:induction false} AddAllAppends(d: ComponentDefinition, fs: seq<FieldDefinition>)
    ensures GetFields(AddAll(d, fs)) == GetFields(d) + fs
    decreases |fs|
  {
    if |fs| > 0 {
      AddAllAppends(AddField(d, fs[0]), fs[1..]);
      assert GetFields(d) + [fs[0]] + fs[1..] == GetFields(d) + fs;
    }
  }

  /** `ComponentInfo::create(hash)`; `get_hash` gives the hash back. */
  function CreateInfo(hash: U64): (info: ComponentInfo)
    ensures GetHash(info) == hash
  {
    ComponentInfo(hash)
  }

  function GetHash(info: ComponentInfo): U64 { info.hash }

  /** The derived `Default` handle. */
  function DefaultInfo(): (info: ComponentInfo)
    ensures GetHash(info) == 0
  {
    ComponentInfo(0)
  }

  /** Two handles are equal exactly when their hashes are. */
  lemma InfoEqualityIsHashEquality(a: ComponentInfo, b: ComponentInfo)
    ensures a == b <==> GetHash(a) == GetHash(b)
  {
  }

  // ---------------------------------------------------------------------
  // What the derived `Hash` implementations write into the hasher.

  datatype HashToken =
    | LengthPrefix(n: nat)                       // a `Vec`'s length, written before its elements
    | Text(s: string)                            // the bytes of a `str`
    | Terminator                                 // the 0xff byte written after every `str`
    | Discriminant(t: Variant.VariantType)       // an enum's discriminant

  /** A finished hasher: any deterministic function of the written stream. */
  type Hasher = seq<HashToken> -> U64

  function StrTokens(s: string): seq<HashToken> { [Text(s), Terminator] }

  function FieldTokens(f: FieldDefinition): seq<HashToken> {
    StrTokens(f.name) + [Discriminant(f.fieldType)]
  }

  function FieldsTokens(fs: seq<FieldDefinition>): (ts: seq<HashToken>)
    ensures |ts| == 3 * |fs|
  {
    if |fs| == 0 then [] else FieldTokens(fs[0]) + FieldsTokens(fs[1..])
  }

  function DefinitionTokens(d: ComponentDefinition): seq<HashToken> {
    [LengthPrefix(|d.fields|)] + FieldsTokens(d.fields)
  }

  /** The registration hash input: the definition first, then the name. */
  function HashInput(d: ComponentDefinition, name: string): seq<HashToken> {
    DefinitionTokens(d) + StrTokens(name)
  }

  /** The hash `add_component` assigns to `(name, d)`. */
  function ComponentHash(hasher: Hasher, d: ComponentDefinition, name: string): U64 {
    hasher(HashInput(d, name))
  }

  /** Reads `n` field definitions off the front of a stream. */
  function DecodeFields(ts: seq<HashToken>, n: nat): Option<(seq<FieldDefinition>, seq<HashToken>)>
  {
    if n == 0 then Some(([], ts))
    else if |ts| >= 3 && ts[0].Text? && ts[1].Terminator? && ts[2].Discriminant? then
      match DecodeFields(ts[3..], n - 1)
      case None => None
      case Some((fs, rest)) => Some(([FieldDefinition(ts[0].s, ts[2].t)] + fs, rest))
    else None
  }

  /** Recovers the definition and name from a registration hash input. */
  function DecodeHashInput(ts: seq<HashToken>): Option<(ComponentDefinition, string)> {
    if |ts| == 0 || !ts[0].LengthPrefix? then None
    else match DecodeFields(ts[1..], ts[0].n)
      case None => None
      case Some((fs, rest)) =>
        if |rest| == 2 && rest[0].Text? && rest[1].Terminator? then Some((ComponentDefinition(fs), rest[0].s))
        else None
  }

  lemma {:induction false} DecodeFieldsRoundTrip(fs: seq<FieldDefinition>, rest: seq<HashToken>)
    ensures DecodeFields(FieldsTokens(fs) + rest, |fs|) == Some((fs, rest))
  {
    if |fs| > 0 {
      var ts := FieldsTokens(fs) + rest;
      assert ts[..3] == FieldTokens(fs[0]);
      assert ts[0] == Text(fs[0].name) && ts[1] == Terminator && ts[2] == Discriminant(fs[0].fieldType);
      assert ts[3..] == FieldsTokens(fs[1..]) + rest;
      DecodeFieldsRoundTrip(fs[1..], rest);
      assert FieldDefinition(ts[0].s, ts[2].t) == fs[0];
      assert [fs[0]] + fs[1..] == fs;
    } else {
      assert FieldsTokens(fs) + rest == rest;
    }
  }

  /** The hash input determines the definition and the name it was built from. */
  lemma HashInputRoundTrip(d: ComponentDefinition, name: string)
    ensures DecodeHashInput(HashInput(d, name)) == Some((d, name))
  {
    var ts := HashInput(d, name);
    assert ts[1..] == FieldsTokens(d.fields) + StrTokens(name);
    DecodeFieldsRoundTrip(d.fields, StrTokens(name));
  }

  /** Distinct (definition, name) pairs feed distinct streams to the hasher: in
      particular one definition registered under two names, or two definitions
      under one name, are never hashed from the same input. */
  lemma HashInputInjective(d1: ComponentDefinition, n1: string, d2: ComponentDefinition, n2: string)
    ensures HashInput(d1, n1) == HashInput(d2, n2) <==> d1 == d2 && n1 == n2
  {
    if HashInput(d1, n1) == HashInput(d2, n2) {
      HashInputRoundTrip(d1, n1);
      HashInputRoundTrip(d2, n2);
    }
  }
}
