/**
  The part of Go's reflect package the generator relies on, as a finite table
  of type descriptions. A TypeId is an index into that table, so two distinct
  types with the same package path and name are still distinct entities.
*/
module Reflect {
  type TypeId = nat

  /** One reflect.StructField: its Go name, the text of its `json` tag (empty
      when there is none), its PkgPath (non-empty exactly for unexported
      fields), whether it is embedded, and its declared type. */
  datatype Field = Field(name: string, jsonTag: string, pkgPath: string, anonymous: bool, typ: TypeId)

  /** reflect.Kind, with the kinds the generator treats alike folded together:
      every signed and unsigned integer width is an Int, every float and complex
      width a Float; Uintptr, Chan, Func, Interface and UnsafePointer are Other. */
  datatype Kind =
    | Bool
    | Int(signed: bool, bits: nat)
    | Float(complex: bool, bits: nat)
    | String
    | Ptr(elem: TypeId)
    | Slice(elem: TypeId)
    | Array(elem: TypeId, len: nat)
    | Map(key: TypeId, elem: TypeId)
    | Struct(fields: seq<Field>)
    | Other

  /** A type: PkgPath() and Name() (both empty for unnamed types) and its kind. */
  datatype TypeDesc = TypeDesc(pkgPath: string, name: string, kind: Kind)

  type Universe = seq<TypeDesc>

  predicate IsStruct(u: Universe, t: TypeId) {
    t < |u| && u[t].kind.Struct?
  }

  /** Every type a description mentions is in the table, and the component of a
      pointer, slice, array or map type comes before it. Only struct fields may
      point forwards or back to their own struct, so every cycle in the type
      graph passes through a struct. */
  predicate ComponentsOk(u: Universe, t: TypeId)
    requires t < |u|
  {
    match u[t].kind
    case Ptr(e) => e < t
    case Slice(e) => e < t
    case Array(e, _) => e < t
    case Map(k, e) => k < |u| && e < t
    case Struct(fs) => forall j :: 0 <= j < |fs| ==> fs[j].typ < |u|
    case _ => true
  }

  predicate Ordered(u: Universe) {
    forall t :: 0 <= t < |u| ==> ComponentsOk(u, t)
  }

  /** One level of pointer indirection removed, the first step of both
      javaType and getPropertyDescriptor: a pointer type gives its target,
      any other type itself. */
  function Deref(u: Universe, t: TypeId): (d: TypeId)
    requires Ordered(u) && t < |u|
    ensures d <= t
    ensures u[t].kind.Ptr? <==> d != t
    ensures u[t].kind.Ptr? ==> d == u[t].kind.elem
  {
    assert ComponentsOk(u, t);
    if u[t].kind.Ptr? then u[t].kind.elem else t
  }

  /** The struct types of the table: the only possible keys of the memo table. */
  function StructIds(u: Universe): set<TypeId> {
    set t | 0 <= t < |u| && u[t].kind.Struct?
  }
}
