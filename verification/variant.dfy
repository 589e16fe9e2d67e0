/** The engine's field-type enumeration, in the order the engine declares it.
    Only the first five kinds are scalar values the store converts; the rest
    are engine math and collection types that the store carries as type tags only. */
module Variant {

  datatype VariantType =
    | Nil
    | Bool
    | Int
    | Real
    | String
    | Vector2
    | Rect2
    | Vector3
    | Transform2D
    | Plan
    | Quat
    | Aaab
    | Basis
    | Transform
    | Color
    | NodePath
    | Rid
    | Object
    | Dictionary
    | Array
    | PoolByteArray
    | PoolIntArray
    | PoolRealArray
    | PoolStringArray
    | PoolVector2Array
    | PoolVector3Array
    | PoolColorArray
    | VariantMax

  /** The five kinds a component value can hold. */
  predicate IsScalar(t: VariantType) {
    t.Nil? || t.Bool? || t.Int? || t.Real? || t.String?
  }
}
