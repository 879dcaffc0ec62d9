/**
  The property descriptors the generator produces and the pure rules behind
  them: how a field type is classified (getPropertyDescriptor's result), which
  struct types that classification registers, and how a struct's property map
  is assembled from its fields (getStructProperties).
*/
module Descriptors {
  import opened Wrappers
  import opened Reflect
  import opened Naming

  /** The generator's configuration: the type table, the package lookup table
      and the caller's type substitution table. */
  datatype Env = Env(u: Universe, packages: Packages, typeMap: map<TypeId, TypeId>)

  /** All field types of a field list are in the table. */
  predicate FieldsIn(u: Universe, fs: seq<Field>) {
    forall j :: 0 <= j < |fs| ==> fs[j].typ < |u|
  }

  /** A visible (exported) field: its PkgPath is empty. */
  predicate Visible(f: Field) {
    |f.pkgPath| == 0
  }

  /** A field whose properties are copied into its owner: an embedded field
      whose declared type is itself a struct (a pointer to a struct is not). */
  predicate Flattened(u: Universe, f: Field)
    requires f.typ < |u|
  {
    f.anonymous && u[f.typ].kind.Struct?
  }

  /** The type of a visible flattened field is not substituted. Otherwise
      getStructProperties copies the memo entry of the unsubstituted type,
      which exists only when some other field registered that type (reading a
      missing one dereferences nil), or, when the substitute is no struct, the
      properties of a descriptor that has none, which dereferences nil too. */
  predicate FlattenedUnsubstituted(env: Env, fs: seq<Field>)
    requires FieldsIn(env.u, fs)
  {
    forall j :: 0 <= j < |fs| && Visible(fs[j]) && Flattened(env.u, fs[j]) && fs[j].typ in env.typeMap ==>
      env.typeMap[fs[j].typ] == fs[j].typ
  }

  /** Conditions under which the generator neither panics nor recurses
      forever, besides the ordering of the table: every map element type has a
      Java type, and flattened fields are not substituted. `WellFormed` asks
      them of every type, including types the walk never reaches. */
  predicate TypeOk(env: Env, t: TypeId)
    requires t < |env.u|
  {
    (env.u[t].kind.Map? ==>
       env.u[t].kind.elem < |env.u| && Ordered(env.u) && JavaTypeDefined(env.u, env.packages, env.u[t].kind.elem)) &&
    (env.u[t].kind.Struct? ==>
       FieldsIn(env.u, env.u[t].kind.fields) && FlattenedUnsubstituted(env, env.u[t].kind.fields))
  }

  predicate WellFormed(env: Env) {
    Ordered(env.u) &&
    (forall k :: k in env.typeMap ==> env.typeMap[k] <= k) &&
    (forall t :: 0 <= t < |env.u| ==> TypeOk(env, t))
  }

  /** The typeMap lookup: a type with an entry is replaced by its substitute. */
  function Subst(env: Env, t: TypeId): (r: TypeId)
    requires WellFormed(env) && t < |env.u|
    ensures r <= t
    ensures t in env.typeMap ==> r == env.typeMap[t]
    ensures t !in env.typeMap ==> r == t
  {
    if t in env.typeMap then env.typeMap[t] else t
  }

  /** The type getPropertyDescriptor classifies: one pointer level stripped,
      then the substitution applied. */
  function Eff(env: Env, t: TypeId): (r: TypeId)
    requires WellFormed(env) && t < |env.u|
    ensures r <= t
  {
    Subst(env, Deref(env.u, t))
  }

  /** JSONPropertyDescriptor with the parts the generator fills: the JSON type,
      the `$ref`, the array items, the map value schema and the Java type. */
  datatype PropDesc = PropDesc(
    typ: Option<string>,
    ref: Option<string>,
    items: Option<PropDesc>,
    mapValue: Option<PropDesc>,
    javaType: Option<string>)

  /** JSONObjectDescriptor: a property map and the additionalProperties flag. */
  datatype ObjDesc = ObjDesc(properties: map<string, PropDesc>, additionalProperties: bool)

  /** The descriptor returned for an unhandled kind: no type, no reference. */
  const EmptyDescriptor: PropDesc := PropDesc(None, None, None, None, None)

  /** The empty object descriptor written before a struct is expanded. */
  const Placeholder: ObjDesc := ObjDesc(map[], false)

  function Primitive(name: string): PropDesc {
    PropDesc(Some(name), None, None, None, None)
  }

  function Ref(env: Env, t: TypeId): string
    requires t < |env.u|
  {
    Reference(env.packages, env.u[t])
  }

  /** The descriptor shapes of JSON Schema the generator emits: a primitive, an
      array of a descriptor, a map of a descriptor annotated with its Java type,
      a reference annotated with its Java type, or the empty descriptor. */
  ghost predicate WellShaped(p: PropDesc) {
    (p.typ.Some? && p.typ.value in {"boolean", "integer", "number", "string"} && p == Primitive(p.typ.value)) ||
    (p.typ == Some("array") && p.ref.None? && p.items.Some? && p.mapValue.None? && p.javaType.None? &&
     WellShaped(p.items.value)) ||
    (p.typ == Some("object") && p.ref.None? && p.items.None? && p.mapValue.Some? && p.javaType.Some? &&
     WellShaped(p.mapValue.value)) ||
    (p.typ.None? && p.ref.Some? && p.items.None? && p.mapValue.None? && p.javaType.Some?) ||
    p == EmptyDescriptor
  }

  /** getPropertyDescriptor's result. It does not depend on the memo table:
      a struct is always described by a reference, whether or not it has been
      visited. A fixed-size array (the empty `case reflect.Array`), a pointer
      left after one dereference and every other kind give the empty descriptor. */
  function PropertyDescriptor(env: Env, t: TypeId): (p: PropDesc)
    requires WellFormed(env) && t < |env.u|
    ensures WellShaped(p)
    decreases Eff(env, t)
  {
    var e := Eff(env, t);
    assert ComponentsOk(env.u, e) && TypeOk(env, e);
    match env.u[e].kind
    case Bool => Primitive("boolean")
    case Int(_, _) => Primitive("integer")
    case Float(_, _) => Primitive("number")
    case String => Primitive("string")
    case Slice(el) => PropDesc(Some("array"), None, Some(PropertyDescriptor(env, el)), None, None)
    case Map(_, el) =>
      PropDesc(Some("object"), None, None, Some(PropertyDescriptor(env, el)),
               Some("java.util.Map<String," + JavaType(env.u, env.packages, el) + ">"))
    case Struct(_) =>
      StructJavaTypeDefined(env.u, env.packages, e);
      PropDesc(None, Some(Ref(env, e)), None, None, Some(JavaType(env.u, env.packages, e)))
    case _ => EmptyDescriptor
  }

  /** The struct types that classifying `t` registers in the memo table: the
      struct reached through slices and maps, after each level's pointer strip
      and substitution. Map key types are never looked at. */
  function Refs(env: Env, t: TypeId): (rs: set<TypeId>)
    requires WellFormed(env) && t < |env.u|
    ensures forall r :: r in rs ==> IsStruct(env.u, r)
    decreases Eff(env, t)
  {
    var e := Eff(env, t);
    assert ComponentsOk(env.u, e);
    match env.u[e].kind
    case Slice(el) => Refs(env, el)
    case Map(_, el) => Refs(env, el)
    case Struct(_) => {e}
    case _ => {}
  }

  /** Every `$ref` string occurring in a descriptor. */
  function RefStrings(p: PropDesc): set<string> {
    (if p.ref.Some? then {p.ref.value} else {}) +
    (if p.items.Some? then RefStrings(p.items.value) else {}) +
    (if p.mapValue.Some? then RefStrings(p.mapValue.value) else {})
  }

  /** The `$ref` strings of the types in `ks`. */
  function RefSet(env: Env, ks: set<TypeId>): set<string> {
    set k | k in ks && k < |env.u| :: Ref(env, k)
  }

  /** The references in a field's descriptor are exactly the references of the
      struct types its classification registers. */
  lemma {:induction false} PropertyReferences(env: Env, t: TypeId)
    requires WellFormed(env) && t < |env.u|
    ensures RefStrings(PropertyDescriptor(env, t)) == RefSet(env, Refs(env, t))
    decreases Eff(env, t)
  {
    var e := Eff(env, t);
    assert ComponentsOk(env.u, e);
    match env.u[e].kind
    case Slice(el) =>
      PropertyReferences(env, el);
    case Map(_, el) =>
      PropertyReferences(env, el);
    case Struct(_) =>
      assert RefSet(env, {e}) == {Ref(env, e)};
    case _ =>
  }

  /** The classification rules: booleans, integers of every width, floats and
      complex numbers, strings, slices, maps and structs, looked at through one
      pointer and the substitution table; anything else, fixed-size arrays
      included, is left without a type. */
  lemma PropertyClassification(env: Env, t: TypeId)
    requires WellFormed(env) && t < |env.u|
    ensures var e := Eff(env, t); var p := PropertyDescriptor(env, t);
      e < |env.u| && ComponentsOk(env.u, e) &&
      (env.u[e].kind.Bool? ==> p == Primitive("boolean")) &&
      (env.u[e].kind.Int? ==> p == Primitive("integer")) &&
      (env.u[e].kind.Float? ==> p == Primitive("number")) &&
      (env.u[e].kind.String? ==> p == Primitive("string")) &&
      (env.u[e].kind.Slice? ==> p.typ == Some("array") && p.items == Some(PropertyDescriptor(env, env.u[e].kind.elem))) &&
      (env.u[e].kind.Map? ==>
         p.typ == Some("object") && p.mapValue == Some(PropertyDescriptor(env, env.u[e].kind.elem)) &&
         JavaTypeDefined(env.u, env.packages, env.u[e].kind.elem) &&
         p.javaType == Some("java.util.Map<String," + JavaType(env.u, env.packages, env.u[e].kind.elem) + ">")) &&
      (env.u[e].kind.Struct? ==>
         JavaTypeDefined(env.u, env.packages, e) &&
         p == PropDesc(None, Some(Ref(env, e)), None, None, Some(JavaType(env.u, env.packages, e)))) &&
      (env.u[e].kind.Array? || env.u[e].kind.Ptr? || env.u[e].kind.Other? ==> p == EmptyDescriptor)
  {
    var e := Eff(env, t);
    assert ComponentsOk(env.u, e) && TypeOk(env, e);
    if env.u[e].kind.Struct? {
      StructJavaTypeDefined(env.u, env.packages, e);
    }
  }

  /** What one field adds to its owner's property map: nothing for an
      unexported field; the memo entry's properties of an embedded struct (read
      from `lookup`, the memo table at that point); otherwise its own
      descriptor under its JSON name. */
  function Contribution(env: Env, f: Field, lookup: map<TypeId, ObjDesc>): map<string, PropDesc>
    requires WellFormed(env) && f.typ < |env.u|
  {
    if !Visible(f) then map[]
    else if Flattened(env.u, f) then (if f.typ in lookup then lookup[f.typ].properties else map[])
    else map[FieldName(f) := PropertyDescriptor(env, f.typ)]
  }

  /** getStructProperties: the contributions of the fields in declaration
      order, a later key overwriting an earlier one. */
  function StructProperties(env: Env, fs: seq<Field>, lookup: map<TypeId, ObjDesc>): map<string, PropDesc>
    requires WellFormed(env) && FieldsIn(env.u, fs)
  {
    if fs == [] then map[]
    else StructProperties(env, fs[..|fs| - 1], lookup) + Contribution(env, fs[|fs| - 1], lookup)
  }

  /** The rules of one field: an unexported field adds nothing; an exported
      field that is not an embedded struct adds exactly its JSON name with its
      descriptor; an embedded struct adds its memo entry's properties, which
      are none while that struct's expansion is still in progress. */
  lemma ContributionCases(env: Env, f: Field, lookup: map<TypeId, ObjDesc>)
    requires WellFormed(env) && f.typ < |env.u|
    ensures var r := Contribution(env, f, lookup);
      (!Visible(f) ==> r == map[]) &&
      (Visible(f) && !Flattened(env.u, f) ==>
         r.Keys == {FieldName(f)} && r[FieldName(f)] == PropertyDescriptor(env, f.typ)) &&
      (Visible(f) && Flattened(env.u, f) && f.typ in lookup ==> r == lookup[f.typ].properties) &&
      (Visible(f) && Flattened(env.u, f) && f.typ in lookup && lookup[f.typ] == Placeholder ==> r == map[])
  {
  }

  /** A struct whose fields are all unexported has no properties. */
  lemma {:induction false} StructPropertiesHidden(env: Env, fs: seq<Field>, lookup: map<TypeId, ObjDesc>)
    requires WellFormed(env) && FieldsIn(env.u, fs)
    requires forall j :: 0 <= j < |fs| ==> !Visible(fs[j])
    ensures StructProperties(env, fs, lookup) == map[]
  {
    if fs != [] {
      var init := fs[..|fs| - 1];
      assert forall j :: 0 <= j < |init| ==> init[j] == fs[j];
      StructPropertiesHidden(env, init, lookup);
    }
  }

  /** `j` is the last field whose contribution has key `n`. */
  predicate LastWriter(env: Env, fs: seq<Field>, lookup: map<TypeId, ObjDesc>, n: string, j: int)
    requires WellFormed(env) && FieldsIn(env.u, fs)
  {
    0 <= j < |fs| && n in Contribution(env, fs[j], lookup) &&
    forall j' :: j < j' < |fs| ==> n !in Contribution(env, fs[j'], lookup)
  }

  /** A key is a property iff some field contributes it. */
  lemma {:induction false} StructPropertiesKeys(env: Env, fs: seq<Field>, lookup: map<TypeId, ObjDesc>, n: string)
    requires WellFormed(env) && FieldsIn(env.u, fs)
    ensures n in StructProperties(env, fs, lookup) <==>
            exists j :: 0 <= j < |fs| && n in Contribution(env, fs[j], lookup)
  {
    if fs != [] {
      var k := |fs| - 1;
      var init := fs[..k];
      StructPropertiesKeys(env, init, lookup, n);
      if n in StructProperties(env, fs, lookup) && n !in Contribution(env, fs[k], lookup) {
        var j :| 0 <= j < |init| && n in Contribution(env, init[j], lookup);
        assert fs[j] == init[j];
      }
      if j :| 0 <= j < |fs| && n in Contribution(env, fs[j], lookup) {
        if j < k {
          assert fs[j] == init[j];
        }
      }
    }
  }

  /** The value of a property is the one contributed by the last field that
      contributes its key: a later field overwrites an earlier one. */
  lemma {:induction false} StructPropertiesLastWins(env: Env, fs: seq<Field>, lookup: map<TypeId, ObjDesc>, n: string, j: int)
    requires WellFormed(env) && FieldsIn(env.u, fs)
    requires LastWriter(env, fs, lookup, n, j)
    ensures n in StructProperties(env, fs, lookup)
    ensures StructProperties(env, fs, lookup)[n] == Contribution(env, fs[j], lookup)[n]
  {
    var k := |fs| - 1;
    if j < k {
      var init := fs[..k];
      assert LastWriter(env, init, lookup, n, j);
      StructPropertiesLastWins(env, init, lookup, n, j);
    }
  }

  /** The struct types registered while a field list is walked: those of its
      visible fields. */
  function FieldsRefs(env: Env, fs: seq<Field>): (rs: set<TypeId>)
    requires WellFormed(env) && FieldsIn(env.u, fs)
    ensures forall r :: r in rs ==> IsStruct(env.u, r)
  {
    if fs == [] then {}
    else FieldsRefs(env, fs[..|fs| - 1]) +
         (if Visible(fs[|fs| - 1]) then Refs(env, fs[|fs| - 1].typ) else {})
  }

  /** The struct types a struct's expansion registers directly (empty for any
      id that is not a struct of the table). */
  function FieldRefs(env: Env, s: TypeId): set<TypeId>
    requires WellFormed(env)
  {
    if IsStruct(env.u, s) then
      assert ComponentsOk(env.u, s);
      FieldsRefs(env, env.u[s].kind.fields)
    else {}
  }

  /** Walking a longer prefix of the fields registers at least as much. */
  lemma {:induction false} FieldsRefsPrefix(env: Env, fs: seq<Field>, i: nat)
    requires WellFormed(env) && FieldsIn(env.u, fs) && i <= |fs|
    ensures FieldsIn(env.u, fs[..i]) && FieldsRefs(env, fs[..i]) <= FieldsRefs(env, fs)
    decreases |fs| - i
  {
    if i < |fs| {
      FieldsRefsPrefix(env, fs, i + 1);
      assert fs[..i + 1][..i] == fs[..i];
    } else {
      assert fs[..i] == fs;
    }
  }

  /** A visible flattened field registers exactly its own (unsubstituted)
      type, so its memo entry exists once the field has been classified. */
  lemma FlattenedRefs(env: Env, s: TypeId, j: nat)
    requires WellFormed(env) && IsStruct(env.u, s)
    requires ComponentsOk(env.u, s) && j < |env.u[s].kind.fields|
    requires var f := env.u[s].kind.fields[j]; Visible(f) && Flattened(env.u, f)
    ensures var f := env.u[s].kind.fields[j];
      Eff(env, f.typ) == f.typ && Refs(env, f.typ) == {f.typ} && PropertyDescriptor(env, f.typ).ref.Some?
  {
    assert TypeOk(env, s);
  }

  /** Every struct a visible field registers is among those its owner's
      expansion registers. */
  lemma FieldRefsOf(env: Env, s: TypeId, j: nat)
    requires WellFormed(env) && IsStruct(env.u, s)
    requires ComponentsOk(env.u, s) && j < |env.u[s].kind.fields| && Visible(env.u[s].kind.fields[j])
    ensures Refs(env, env.u[s].kind.fields[j].typ) <= FieldRefs(env, s)
  {
    var fs := env.u[s].kind.fields;
    FieldsRefsPrefix(env, fs, j + 1);
    assert fs[..j + 1][..j] == fs[..j];
    assert fs[..j + 1][j] == fs[j];
  }

  /** `b` extends `a`: it has all of a's keys, with the same entries. */
  ghost predicate Extends(a: map<TypeId, ObjDesc>, b: map<TypeId, ObjDesc>) {
    a.Keys <= b.Keys && forall k :: k in a ==> b[k] == a[k]
  }

  /** The property map only reads memo entries of types the fields registered,
      so it is the same in any extension of a table that holds them. */
  lemma {:induction false} StructPropertiesFrame(env: Env, fs: seq<Field>, a: map<TypeId, ObjDesc>, b: map<TypeId, ObjDesc>)
    requires WellFormed(env) && FieldsIn(env.u, fs) && FlattenedUnsubstituted(env, fs)
    requires FieldsRefs(env, fs) <= a.Keys && Extends(a, b)
    ensures StructProperties(env, fs, a) == StructProperties(env, fs, b)
  {
    if fs != [] {
      var k := |fs| - 1;
      var f := fs[k];
      var init := fs[..k];
      assert FlattenedUnsubstituted(env, init) by {
        forall j | 0 <= j < |init| ensures init[j] == fs[j] { }
      }
      StructPropertiesFrame(env, init, a, b);
      if Visible(f) && Flattened(env.u, f) {
        assert Eff(env, f.typ) == f.typ;
        assert f.typ in Refs(env, f.typ);
      }
    }
  }

  /** Two tables that agree on the entries of the visible embedded structs
      give the same property map: nothing else is read from them. */
  lemma {:induction false} StructPropertiesAgree(env: Env, fs: seq<Field>, a: map<TypeId, ObjDesc>, b: map<TypeId, ObjDesc>)
    requires WellFormed(env) && FieldsIn(env.u, fs)
    requires forall j :: 0 <= j < |fs| && Visible(fs[j]) && Flattened(env.u, fs[j]) ==>
      (fs[j].typ in a <==> fs[j].typ in b) && (fs[j].typ in a ==> a[fs[j].typ] == b[fs[j].typ])
    ensures StructProperties(env, fs, a) == StructProperties(env, fs, b)
  {
    if fs != [] {
      var init := fs[..|fs| - 1];
      assert forall j :: 0 <= j < |init| ==> init[j] == fs[j];
      StructPropertiesAgree(env, init, a, b);
    }
  }

  /** Every reference in every descriptor of a property map is in `refs`. */
  ghost predicate PropsResolve(props: map<string, PropDesc>, refs: set<string>) {
    forall n :: n in props ==> RefStrings(props[n]) <= refs
  }
}
