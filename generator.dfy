/**
  The schema generator: the memo table of struct types, the recursive walk
  that fills it (getPropertyDescriptor, generateObjectDescriptor,
  getStructProperties), and the entry point that turns a root struct type
  into a schema document with its `definitions`.
*/
module Generator {
  import opened Wrappers
  import opened Reflect
  import opened Naming
  import opened Descriptors

  /** The one error: the root type is not a struct. */
  datatype Error = UnsupportedRootKind

  /** A `definitions` entry: type "object", a memo entry's object descriptor
      and the Java type of its struct. */
  datatype Definition = Definition(typ: string, obj: ObjDesc, javaType: string)

  /** JSONSchema as the generator fills it; `definitions` is None for Go's
      nil map, which the encoder omits. */
  datatype Schema = Schema(id: string, schema: string, typ: string, obj: ObjDesc,
                           definitions: Option<map<string, Definition>>)

  const IdPrefix: string := "http://fabric8.io/fabric8/v2/"
  const SchemaDialect: string := "http://json-schema.org/schema#"

  /** `p` is a chain of struct types starting in `src`, each registered by the
      expansion of the one before it. */
  ghost predicate IsPath(env: Env, src: set<TypeId>, p: seq<TypeId>)
    requires WellFormed(env)
  {
    |p| > 0 && p[0] in src &&
    forall i :: 0 <= i < |p| - 1 ==> p[i + 1] in FieldRefs(env, p[i])
  }

  /** Struct `k` is reached from the types in `src` by following fields. */
  ghost predicate Reaches(env: Env, src: set<TypeId>, k: TypeId)
    requires WellFormed(env)
  {
    exists p :: IsPath(env, src, p) && p[|p| - 1] == k
  }

  lemma ReachesStart(env: Env, src: set<TypeId>, k: TypeId)
    requires WellFormed(env) && k in src
    ensures Reaches(env, src, k)
  {
    assert IsPath(env, src, [k]);
  }

  lemma ReachesMono(env: Env, src: set<TypeId>, src': set<TypeId>, k: TypeId)
    requires WellFormed(env) && src <= src' && Reaches(env, src, k)
    ensures Reaches(env, src', k)
  {
    var p :| IsPath(env, src, p) && p[|p| - 1] == k;
    assert IsPath(env, src', p);
  }

  /** What is reached from the fields of `d` is reached from `d`. */
  lemma ReachesThrough(env: Env, d: TypeId, k: TypeId)
    requires WellFormed(env) && Reaches(env, FieldRefs(env, d), k)
    ensures Reaches(env, {d}, k)
  {
    var p :| IsPath(env, FieldRefs(env, d), p) && p[|p| - 1] == k;
    var q := [d] + p;
    forall i | 0 <= i < |q| - 1
      ensures q[i + 1] in FieldRefs(env, q[i])
    {
      if i > 0 {
        assert q[i] == p[i - 1] && q[i + 1] == p[i];
      }
    }
    assert IsPath(env, {d}, q) && q[|q| - 1] == k;
  }

  /** Every type on a path from `src` lies in any set that contains `src` and
      is closed under field registration. */
  lemma {:induction false} PathInside(env: Env, src: set<TypeId>, xs: set<TypeId>, p: seq<TypeId>)
    requires WellFormed(env) && IsPath(env, src, p)
    requires src <= xs && forall x :: x in xs ==> FieldRefs(env, x) <= xs
    ensures forall i :: 0 <= i < |p| ==> p[i] in xs
  {
    if |p| > 1 {
      var init := p[..|p| - 1];
      assert IsPath(env, src, init) by {
        forall i | 0 <= i < |init| - 1 ensures init[i + 1] in FieldRefs(env, init[i]) {
          assert init[i] == p[i] && init[i + 1] == p[i + 1];
        }
      }
      PathInside(env, src, xs, init);
      assert p[|p| - 2] == init[|init| - 1];
    }
  }

  /** The reachable structs form the least such set. */
  lemma ReachesLeast(env: Env, src: set<TypeId>, xs: set<TypeId>, k: TypeId)
    requires WellFormed(env) && src <= xs && forall x :: x in xs ==> FieldRefs(env, x) <= xs
    requires Reaches(env, src, k)
    ensures k in xs
  {
    var p :| IsPath(env, src, p) && p[|p| - 1] == k;
    PathInside(env, src, xs, p);
  }

  /** The structs memoised while `d` is expanded are reached from `d`. */
  lemma DefinedReach(env: Env, d: TypeId, before: set<TypeId>, after: set<TypeId>)
    requires WellFormed(env)
    requires forall k :: k in after && k !in before + {d} ==> Reaches(env, FieldRefs(env, d), k)
    ensures forall k :: k in after && k !in before ==> Reaches(env, {d}, k)
  {
    forall k | k in after && k !in before
      ensures Reaches(env, {d}, k)
    {
      if k == d {
        ReachesStart(env, {d}, d);
      } else {
        ReachesThrough(env, d, k);
      }
    }
  }

  /** A path to `s` extends to any struct `s`'s expansion registers. */
  lemma ReachesStep(env: Env, src: set<TypeId>, s: TypeId, r: TypeId)
    requires WellFormed(env) && Reaches(env, src, s) && r in FieldRefs(env, s)
    ensures Reaches(env, src, r)
  {
    var p :| IsPath(env, src, p) && p[|p| - 1] == s;
    var q := p + [r];
    forall i | 0 <= i < |q| - 1
      ensures q[i + 1] in FieldRefs(env, q[i])
    {
      if i < |p| - 1 {
        assert q[i] == p[i] && q[i + 1] == p[i + 1];
      }
    }
    assert IsPath(env, src, q);
  }

  /** Each struct whose expansion is in progress reaches each type in
      `targets`: the structs on the stack form a chain of field
      registrations that leads to the type being walked. */
  ghost predicate StackReaches(env: Env, stack: set<TypeId>, targets: set<TypeId>)
    requires WellFormed(env)
  {
    forall j, r :: j in stack && r in targets ==> Reaches(env, {j}, r)
  }

  /** Starting the expansion of `d` keeps the chain: `d` reaches itself. */
  lemma StackPush(env: Env, stack: set<TypeId>, d: TypeId)
    requires WellFormed(env) && StackReaches(env, stack, {d})
    ensures StackReaches(env, stack + {d}, {d})
  {
    ReachesStart(env, {d}, d);
  }

  /** Walking a visible field of `s` keeps the chain: whatever reaches `s`
      reaches the structs the field registers. */
  lemma StackField(env: Env, stack: set<TypeId>, s: TypeId, j: nat)
    requires WellFormed(env) && IsStruct(env.u, s) && StackReaches(env, stack, {s})
    requires ComponentsOk(env.u, s) && j < |env.u[s].kind.fields| && Visible(env.u[s].kind.fields[j])
    ensures StackReaches(env, stack, Refs(env, env.u[s].kind.fields[j].typ))
  {
    FieldRefsOf(env, s, j);
    forall x, r | x in stack && r in Refs(env, env.u[s].kind.fields[j].typ)
      ensures Reaches(env, {x}, r)
    {
      ReachesStep(env, {x}, s, r);
    }
  }

  /** When `d` is about to be stored, every placeholder in the table belongs to
      a struct that reaches `d`. */
  lemma PlaceholdersReach(env: Env, tbl: map<TypeId, ObjDesc>, stack: set<TypeId>, d: TypeId)
    requires WellFormed(env) && TableBuilding(env, tbl, stack + {d}) && StackReaches(env, stack, {d})
    ensures forall j :: j in tbl && tbl[j] == Placeholder ==> Reaches(env, {j}, d)
  {
    forall j | j in tbl && tbl[j] == Placeholder
      ensures Reaches(env, {j}, d)
    {
      if j == d {
        ReachesStart(env, {d}, d);
      } else {
        assert j in stack;
      }
    }
  }

  lemma RefSetMono(env: Env, a: set<TypeId>, b: set<TypeId>)
    requires a <= b
    ensures RefSet(env, a) <= RefSet(env, b)
  {
  }

  lemma RemoveOne(a: set<TypeId>, ks: set<TypeId>, d: TypeId)
    requires d in a && d !in ks
    ensures |a - (ks + {d})| < |a - ks|
  {
    assert a - (ks + {d}) == (a - ks) - {d};
  }

  lemma UpdateIsMerge<K, V>(m: map<K, V>, k: K, v: V)
    ensures m[k := v] == m + map[k := v]
  {
  }

  lemma SubsetCard(a: set<TypeId>, b: set<TypeId>)
    requires a <= b
    ensures |a| <= |b|
  {
    assert b == a + (b - a);
  }

  /** newSchemaGenerator's loop over the package descriptors. */
  method NewPackageMap(pkgs: seq<PackageDescriptor>) returns (m: Packages)
    ensures m == PackageMap(pkgs)
  {
    m := map[];
    for i := 0 to |pkgs|
      invariant m == PackageMap(pkgs[..i])
    {
      m := m[pkgs[i].goPackage := pkgs[i]];
      assert pkgs[..i + 1][..i] == pkgs[..i];
    }
    assert pkgs[..|pkgs|] == pkgs;
  }

  /** The schema names of the types in `ks`. */
  function Names(env: Env, ks: set<TypeId>): set<string> {
    set k | k in ks && k < |env.u| :: QualifiedName(env.packages, env.u[k])
  }

  /** No two types of `ks` share a schema name. */
  ghost predicate NamesDistinct(env: Env, ks: set<TypeId>) {
    forall a, b ::
      a in ks && b in ks && a < |env.u| && b < |env.u| &&
      QualifiedName(env.packages, env.u[a]) == QualifiedName(env.packages, env.u[b])
      ==> a == b
  }

  /** The `$ref` strings that resolve in a `definitions` map. */
  function DefinedRefs(defs: Option<map<string, Definition>>): set<string> {
    if defs.None? then {} else set n | n in defs.value :: DefinitionsPrefix + n
  }

  /** Every `$ref` in the document, in the root's properties or in any
      definition, names an entry of `definitions`. */
  ghost predicate SchemaResolves(s: Schema) {
    PropsResolve(s.obj.properties, DefinedRefs(s.definitions)) &&
    (s.definitions.Some? ==>
       forall n :: n in s.definitions.value ==>
         PropsResolve(s.definitions.value[n].obj.properties, DefinedRefs(s.definitions)))
  }

  lemma RefSetIsDefinedRefs(env: Env, ks: set<TypeId>, defs: map<string, Definition>)
    requires defs.Keys == Names(env, ks)
    ensures RefSet(env, ks) == DefinedRefs(Some(defs))
  {
    forall r | r in DefinedRefs(Some(defs)) ensures r in RefSet(env, ks) {
      var n :| n in defs && r == DefinitionsPrefix + n;
      var k :| k in ks && k < |env.u| && QualifiedName(env.packages, env.u[k]) == n;
      assert r == Ref(env, k);
    }
  }

  /** Only structs are memoised, and every reference in a memo entry names
      a memoised struct. */
  ghost predicate TableOk(env: Env, tbl: map<TypeId, ObjDesc>) {
    (forall k :: k in tbl ==> IsStruct(env.u, k)) &&
    (forall k :: k in tbl ==> PropsResolve(tbl[k].properties, RefSet(env, tbl.Keys)))
  }

  /** `stack` holds the structs whose expansion is in progress: their entries
      are still the placeholder. Every other entry is finished, and the
      structs its fields register are memoised too. */
  ghost predicate TableBuilding(env: Env, tbl: map<TypeId, ObjDesc>, stack: set<TypeId>)
    requires WellFormed(env)
  {
    stack <= tbl.Keys &&
    (forall k :: k in stack ==> tbl[k] == Placeholder) &&
    (forall k :: k in tbl && k !in stack ==> tbl[k].additionalProperties && FieldRefs(env, k) <= tbl.Keys)
  }

  /** Writing the placeholder of a new struct starts its expansion. */
  lemma PlaceholderStep(env: Env, tbl: map<TypeId, ObjDesc>, stack: set<TypeId>, d: TypeId)
    requires WellFormed(env) && TableOk(env, tbl) && TableBuilding(env, tbl, stack)
    requires IsStruct(env.u, d) && d !in tbl
    ensures TableOk(env, tbl[d := Placeholder]) && TableBuilding(env, tbl[d := Placeholder], stack + {d})
    ensures Extends(tbl, tbl[d := Placeholder])
  {
    var tbl' := tbl[d := Placeholder];
    RefSetMono(env, tbl.Keys, tbl'.Keys);
  }

  /** Storing the finished expansion ends it. */
  lemma StoreStep(env: Env, tbl: map<TypeId, ObjDesc>, stack: set<TypeId>, d: TypeId, desc: ObjDesc)
    requires WellFormed(env) && TableOk(env, tbl) && TableBuilding(env, tbl, stack + {d})
    requires d in tbl && d !in stack && desc.additionalProperties && FieldRefs(env, d) <= tbl.Keys
    requires PropsResolve(desc.properties, RefSet(env, tbl.Keys))
    ensures TableOk(env, tbl[d := desc]) && TableBuilding(env, tbl[d := desc], stack)
    ensures tbl[d := desc].Keys == tbl.Keys
  {
    var tbl' := tbl[d := desc];
    assert tbl'.Keys == tbl.Keys;
    var refs := RefSet(env, tbl.Keys);
    assert RefSet(env, tbl'.Keys) == refs;
    forall k | k in tbl'
      ensures PropsResolve(tbl'[k].properties, refs)
    {
      if k != d {
        assert tbl'[k] == tbl[k];
      }
    }
  }

  /** One field of getStructProperties, the registered types: after the
      field `i` of struct `s`, the prefix `fs[..i + 1]` registers only
      memoised types, and every type memoised since `t0` is still reachable
      from the struct's fields. */
  lemma FieldStepRefs(env: Env, s: TypeId, fs: seq<Field>, i: nat, t0: map<TypeId, ObjDesc>,
                      before: map<TypeId, ObjDesc>, after: map<TypeId, ObjDesc>)
    requires WellFormed(env) && IsStruct(env.u, s) && ComponentsOk(env.u, s) && fs == env.u[s].kind.fields
    requires i < |fs| && Extends(before, after)
    requires FieldsIn(env.u, fs[..i])
    requires FieldsRefs(env, fs[..i]) <= before.Keys
    requires forall k :: k in before && k !in t0 ==> Reaches(env, FieldRefs(env, s), k)
    requires var f := fs[i];
      if Visible(f) then
        Refs(env, f.typ) <= after.Keys &&
        forall k :: k in after && k !in before ==> Reaches(env, Refs(env, f.typ), k)
      else after == before
    ensures FieldsIn(env.u, fs[..i + 1])
    ensures FieldsRefs(env, fs[..i + 1]) <= after.Keys
    ensures forall k :: k in after && k !in t0 ==> Reaches(env, FieldRefs(env, s), k)
  {
    var f := fs[i];
    assert fs[..i + 1][..i] == fs[..i];
    FieldsRefsPrefix(env, fs, i + 1);
    if Visible(f) {
      assert Refs(env, f.typ) <= FieldRefs(env, s);
      forall k | k in after && k !in t0
        ensures Reaches(env, FieldRefs(env, s), k)
      {
        if k !in before {
          ReachesMono(env, Refs(env, f.typ), FieldRefs(env, s), k);
        }
      }
    }
  }

  /** One field of getStructProperties, the property map: adding the
      field's contribution, read from the table `after` it was computed,
      to the properties of the prefix gives those of the longer prefix. */
  lemma FieldStepProps(env: Env, s: TypeId, fs: seq<Field>, i: nat,
                       before: map<TypeId, ObjDesc>, after: map<TypeId, ObjDesc>, props: map<string, PropDesc>)
    requires WellFormed(env) && IsStruct(env.u, s) && ComponentsOk(env.u, s) && fs == env.u[s].kind.fields
    requires i < |fs| && Extends(before, after)
    requires FieldsIn(env.u, fs[..i + 1])
    requires FieldsRefs(env, fs[..i]) <= before.Keys
    requires props == StructProperties(env, fs[..i], before)
    ensures props + Contribution(env, fs[i], after) ==
            StructProperties(env, fs[..i + 1], after)
  {
    assert TypeOk(env, s);
    assert fs[..i + 1][..i] == fs[..i];
    assert FlattenedUnsubstituted(env, fs[..i]) by {
      forall j | 0 <= j < i ensures fs[..i][j] == fs[j] { }
    }
    StructPropertiesFrame(env, fs[..i], before, after);
  }

  /** One field of getStructProperties, the references: the field's
      contribution only refers to memoised types, so the merged map still
      resolves against the table `after`. */
  lemma FieldStepResolve(env: Env, s: TypeId, fs: seq<Field>, i: nat,
                         before: map<TypeId, ObjDesc>, after: map<TypeId, ObjDesc>, props: map<string, PropDesc>)
    requires WellFormed(env) && IsStruct(env.u, s) && ComponentsOk(env.u, s) && fs == env.u[s].kind.fields
    requires i < |fs|
    requires TableOk(env, after) && Extends(before, after)
    requires var f := fs[i]; Visible(f) ==> Refs(env, f.typ) <= after.Keys
    requires PropsResolve(props, RefSet(env, before.Keys))
    ensures PropsResolve(props + Contribution(env, fs[i], after), RefSet(env, after.Keys))
  {
    var f := fs[i];
    RefSetMono(env, before.Keys, after.Keys);
    if Visible(f) && !Flattened(env.u, f) {
      PropertyReferences(env, f.typ);
      RefSetMono(env, Refs(env, f.typ), after.Keys);
    }
  }

  /** The loop invariant of getStructProperties after the fields `fs[..i]`
      of struct `s`, with memo table `tbl` (it was `t0` on entry): the
      prefix's registered types are memoised, `props` is the prefix's
      property map read from `tbl` and resolves against it, and every type
      memoised since entry is reachable from the struct's fields. */
  ghost predicate FieldLoop(env: Env, s: TypeId, fs: seq<Field>, i: nat, t0: map<TypeId, ObjDesc>,
                            tbl: map<TypeId, ObjDesc>, props: map<string, PropDesc>)
    requires WellFormed(env) && i <= |fs|
  {
    FieldsIn(env.u, fs[..i]) && FieldsRefs(env, fs[..i]) <= tbl.Keys &&
    props == StructProperties(env, fs[..i], tbl) &&
    PropsResolve(props, RefSet(env, tbl.Keys)) &&
    forall k :: k in tbl && k !in t0 ==> Reaches(env, FieldRefs(env, s), k)
  }

  /** One field of getStructProperties: the invariant carries over from the
      table `before` to the table `after` the field's descriptor was
      computed, and the field's contribution is what the loop body adds. */
  lemma FieldStep(env: Env, s: TypeId, fs: seq<Field>, i: nat, t0: map<TypeId, ObjDesc>,
                  before: map<TypeId, ObjDesc>, after: map<TypeId, ObjDesc>, props: map<string, PropDesc>)
    requires WellFormed(env) && IsStruct(env.u, s) && ComponentsOk(env.u, s) && fs == env.u[s].kind.fields
    requires i < |fs| && TableOk(env, after) && Extends(before, after)
    requires FieldLoop(env, s, fs, i, t0, before, props)
    requires var f := fs[i];
      if Visible(f) then
        Refs(env, f.typ) <= after.Keys &&
        forall k :: k in after && k !in before ==> Reaches(env, Refs(env, f.typ), k)
      else after == before
    ensures FieldLoop(env, s, fs, i + 1, t0, after, props + Contribution(env, fs[i], after))
    ensures Visible(fs[i]) && Flattened(env.u, fs[i]) ==>
      PropertyDescriptor(env, fs[i].typ).ref.Some? && fs[i].typ in after
  {
    FieldStepRefs(env, s, fs, i, t0, before, after);
    FieldStepProps(env, s, fs, i, before, after, props);
    FieldStepResolve(env, s, fs, i, before, after, props);
    if Visible(fs[i]) && Flattened(env.u, fs[i]) {
      FlattenedRefs(env, s, i);
    }
  }

  /** The loop body's update of the property map is the field's
      contribution. */
  lemma FieldStepResult(env: Env, s: TypeId, fs: seq<Field>, i: nat, t0: map<TypeId, ObjDesc>,
                        after: map<TypeId, ObjDesc>, props: map<string, PropDesc>, props': map<string, PropDesc>)
    requires WellFormed(env) && IsStruct(env.u, s) && ComponentsOk(env.u, s) && fs == env.u[s].kind.fields
    requires i < |fs| && FieldLoop(env, s, fs, i + 1, t0, after, props + Contribution(env, fs[i], after))
    requires !Visible(fs[i]) ==> props' == props
    requires Visible(fs[i]) && Flattened(env.u, fs[i]) ==>
      fs[i].typ in after && props' == props + after[fs[i].typ].properties
    requires Visible(fs[i]) && !Flattened(env.u, fs[i]) ==>
      props' == props[FieldName(fs[i]) := PropertyDescriptor(env, fs[i].typ)]
    ensures FieldLoop(env, s, fs, i + 1, t0, after, props')
  {
    if !Visible(fs[i]) {
      assert props + map[] == props;
    } else if !Flattened(env.u, fs[i]) {
      UpdateIsMerge(props, FieldName(fs[i]), PropertyDescriptor(env, fs[i].typ));
    }
  }

  /** Before the first field, the invariant holds of the empty map. */
  lemma FieldLoopStart(env: Env, s: TypeId, fs: seq<Field>, t0: map<TypeId, ObjDesc>)
    requires WellFormed(env)
    ensures FieldLoop(env, s, fs, 0, t0, t0, map[])
  {
    assert fs[..0] == [];
  }

  /** After the last field, the invariant is getStructProperties' result. */
  lemma FieldLoopDone(env: Env, s: TypeId, fs: seq<Field>, t0: map<TypeId, ObjDesc>,
                      tbl: map<TypeId, ObjDesc>, props: map<string, PropDesc>)
    requires WellFormed(env) && IsStruct(env.u, s) && ComponentsOk(env.u, s) && fs == env.u[s].kind.fields
    requires FieldLoop(env, s, fs, |fs|, t0, tbl, props)
    ensures props == StructProperties(env, fs, tbl)
    ensures FieldRefs(env, s) <= tbl.Keys
    ensures PropsResolve(props, RefSet(env, tbl.Keys))
    ensures forall k :: k in tbl && k !in t0 ==> Reaches(env, FieldRefs(env, s), k)
  {
    assert fs[..|fs|] == fs;
  }

  lemma ExtendsTrans(a: map<TypeId, ObjDesc>, b: map<TypeId, ObjDesc>, c: map<TypeId, ObjDesc>)
    requires Extends(a, b) && Extends(b, c)
    ensures Extends(a, c)
  {
  }

  /** One whole memoisation of a new struct `d`: from the table before the
      placeholder (`t0`) and the table after the expansion (`t1`), storing
      `desc` gives a consistent, finished table that extends `t0` and whose
      new entries are reachable from `d`. */
  lemma DefineStep(env: Env, t0: map<TypeId, ObjDesc>, t1: map<TypeId, ObjDesc>, stack: set<TypeId>,
                   d: TypeId, desc: ObjDesc)
    requires WellFormed(env) && TableOk(env, t1) && TableBuilding(env, t1, stack + {d})
    requires d !in t0 && d !in stack && Extends(t0[d := Placeholder], t1)
    requires desc.additionalProperties && FieldRefs(env, d) <= t1.Keys
    requires PropsResolve(desc.properties, RefSet(env, t1.Keys))
    requires forall k :: k in t1 && k !in t0[d := Placeholder] ==> Reaches(env, FieldRefs(env, d), k)
    ensures TableOk(env, t1[d := desc]) && TableBuilding(env, t1[d := desc], stack)
    ensures Extends(t0, t1[d := desc]) && d in t1[d := desc]
    ensures t1[d := desc][d := Placeholder] == t1
    ensures forall k :: k in t1[d := desc] && k !in t0 ==> Reaches(env, {d}, k)
  {
    StoreStep(env, t1, stack, d, desc);
    assert t1[d := desc][d := Placeholder] == t1;
    DefinedReach(env, d, t0.Keys, t1.Keys);
  }

  /** The entry of `k` in `tbl` is its property map, with additionalProperties
      set, read from `lk`: the memo table as it was when `k`'s expansion
      finished. That table holds every struct `k`'s fields register and no
      key `tbl` lacks, and each of its entries is either the final one or the
      placeholder of a struct whose expansion was still in progress then, a
      struct from which `k` is reached. */
  ghost predicate ComputedOver(env: Env, tbl: map<TypeId, ObjDesc>, k: TypeId, lk: map<TypeId, ObjDesc>)
    requires WellFormed(env)
  {
    IsStruct(env.u, k) && TypeOk(env, k) && k in tbl &&
    FieldRefs(env, k) <= lk.Keys && lk.Keys <= tbl.Keys &&
    (forall j :: j in lk ==> lk[j] == tbl[j] || lk[j] == Placeholder) &&
    (forall j :: j in lk && lk[j] == Placeholder ==> Reaches(env, {j}, k)) &&
    tbl[k] == ObjDesc(StructProperties(env, env.u[k].kind.fields, lk), true)
  }

  /** When none of `k`'s visible embedded structs was still in progress as
      `k` finished, `k`'s entry is its property map over the table `tbl` as it
      now stands. */
  lemma ComputedOverFinal(env: Env, tbl: map<TypeId, ObjDesc>, k: TypeId, lk: map<TypeId, ObjDesc>)
    requires WellFormed(env) && ComputedOver(env, tbl, k, lk)
    requires var fs := env.u[k].kind.fields;
      forall j :: 0 <= j < |fs| && Visible(fs[j]) && Flattened(env.u, fs[j]) ==>
        fs[j].typ in lk && lk[fs[j].typ] != Placeholder
    ensures tbl[k] == ObjDesc(StructProperties(env, env.u[k].kind.fields, tbl), true)
  {
    StructPropertiesAgree(env, env.u[k].kind.fields, lk, tbl);
  }

  /** No visible embedded struct of `k` leads back to `k`. */
  ghost predicate EmbedsAcyclic(env: Env, k: TypeId)
    requires WellFormed(env)
  {
    IsStruct(env.u, k) && TypeOk(env, k) &&
    var fs := env.u[k].kind.fields;
    forall j :: 0 <= j < |fs| && Visible(fs[j]) && Flattened(env.u, fs[j]) ==> !Reaches(env, {fs[j].typ}, k)
  }

  /** Such a struct's embedded structs were all finished when it finished, so
      its entry is its property map over the table as it now stands. */
  lemma ComputedAcyclic(env: Env, tbl: map<TypeId, ObjDesc>, k: TypeId, lk: map<TypeId, ObjDesc>)
    requires WellFormed(env) && ComputedOver(env, tbl, k, lk) && EmbedsAcyclic(env, k)
    ensures tbl[k] == ObjDesc(StructProperties(env, env.u[k].kind.fields, tbl), true)
  {
    var fs := env.u[k].kind.fields;
    assert ComponentsOk(env.u, k);
    forall j | 0 <= j < |fs| && Visible(fs[j]) && Flattened(env.u, fs[j])
      ensures fs[j].typ in lk && lk[fs[j].typ] != Placeholder
    {
      FlattenedRefs(env, k, j);
      FieldRefsOf(env, k, j);
    }
    ComputedOverFinal(env, tbl, k, lk);
  }

  /** Every finished entry (one not on `stack`) was computed over the table
      `basis` records for it. */
  ghost predicate TableComputed(env: Env, tbl: map<TypeId, ObjDesc>, basis: map<TypeId, map<TypeId, ObjDesc>>,
                                stack: set<TypeId>)
    requires WellFormed(env)
  {
    forall k :: k in tbl && k !in stack ==> k in basis && ComputedOver(env, tbl, k, basis[k])
  }

  /** Writing the placeholder of a new struct leaves every finished entry
      computed over its recorded table. */
  lemma ComputedPlaceholder(env: Env, tbl: map<TypeId, ObjDesc>, basis: map<TypeId, map<TypeId, ObjDesc>>,
                            stack: set<TypeId>, d: TypeId)
    requires WellFormed(env) && TableComputed(env, tbl, basis, stack) && d !in tbl
    ensures TableComputed(env, tbl[d := Placeholder], basis, stack + {d})
  {
    var tbl' := tbl[d := Placeholder];
    forall k | k in tbl' && k !in stack + {d}
      ensures k in basis && ComputedOver(env, tbl', k, basis[k])
    {
      assert ComputedOver(env, tbl, k, basis[k]);
      assert d !in basis[k];
    }
  }

  /** Storing the expansion `desc` of `d`, computed over the current table
      `tbl`, records `tbl` as its basis; every other finished entry keeps
      its own, in which `d` could only have been the placeholder. The
      placeholders in `tbl` are those of `d` and of the structs in progress,
      all of which reach `d`. */
  lemma ComputedStore(env: Env, tbl: map<TypeId, ObjDesc>, basis: map<TypeId, map<TypeId, ObjDesc>>,
                      stack: set<TypeId>, d: TypeId, desc: ObjDesc)
    requires WellFormed(env) && TableComputed(env, tbl, basis, stack + {d})
    requires IsStruct(env.u, d) && TypeOk(env, d) && d in tbl && tbl[d] == Placeholder
    requires FieldRefs(env, d) <= tbl.Keys
    requires TableBuilding(env, tbl, stack + {d}) && StackReaches(env, stack, {d})
    requires desc == ObjDesc(StructProperties(env, env.u[d].kind.fields, tbl), true)
    ensures TableComputed(env, tbl[d := desc], basis[d := tbl], stack)
  {
    PlaceholdersReach(env, tbl, stack, d);
    var tbl' := tbl[d := desc];
    var basis' := basis[d := tbl];
    forall k | k in tbl' && k !in stack
      ensures k in basis' && ComputedOver(env, tbl', k, basis'[k])
    {
      if k != d {
        assert ComputedOver(env, tbl, k, basis[k]);
      }
    }
  }

  /** The entry of every struct none of whose embedded structs leads back to
      it is its property map over `tbl` itself. */
  ghost predicate AcyclicEntries(env: Env, tbl: map<TypeId, ObjDesc>)
    requires WellFormed(env)
  {
    forall k :: k in tbl && EmbedsAcyclic(env, k) ==>
      tbl[k] == ObjDesc(StructProperties(env, env.u[k].kind.fields, tbl), true)
  }

  /** A finished table has that property. */
  lemma TableAcyclic(env: Env, tbl: map<TypeId, ObjDesc>, basis: map<TypeId, map<TypeId, ObjDesc>>)
    requires WellFormed(env) && TableComputed(env, tbl, basis, {})
    ensures AcyclicEntries(env, tbl)
  {
    forall k | k in tbl && EmbedsAcyclic(env, k)
      ensures tbl[k] == ObjDesc(StructProperties(env, env.u[k].kind.fields, tbl), true)
    {
      ComputedAcyclic(env, tbl, k, basis[k]);
    }
  }

  /** A table of struct types over an ordered universe: enough to name
      each entry and give its Java type. */
  ghost predicate StructTable(env: Env, tbl: map<TypeId, ObjDesc>) {
    Ordered(env.u) && forall k :: k in tbl ==> IsStruct(env.u, k)
  }

  /** The `definitions` entry of memoised struct `k`. */
  function DefinitionFor(env: Env, tbl: map<TypeId, ObjDesc>, k: TypeId): Definition
    requires StructTable(env, tbl) && k in tbl
  {
    StructJavaTypeDefined(env.u, env.packages, k);
    Definition("object", tbl[k], JavaType(env.u, env.packages, k))
  }

  /** The schema name of every struct of the table. */
  function NameOf(env: Env, tbl: map<TypeId, ObjDesc>): (name: map<TypeId, string>)
    requires StructTable(env, tbl)
    ensures name.Keys == tbl.Keys
  {
    map k | k in tbl :: QualifiedName(env.packages, env.u[k])
  }

  /** The `definitions` entry of every struct of the table. */
  function DefinitionsOf(env: Env, tbl: map<TypeId, ObjDesc>): (want: map<TypeId, Definition>)
    requires StructTable(env, tbl)
    ensures want.Keys == tbl.Keys
  {
    map k | k in tbl :: DefinitionFor(env, tbl, k)
  }

  /** The names of the structs `ks`. */
  function Image(name: map<TypeId, string>, ks: set<TypeId>): set<string>
    requires ks <= name.Keys
  {
    set k | k in ks :: name[k]
  }

  /** Every entry of `m` is the wanted entry of one of the structs `done`,
      stored under that struct's name. */
  ghost predicate EntriesFrom(name: map<TypeId, string>, want: map<TypeId, Definition>, done: set<TypeId>,
                              m: map<string, Definition>)
    requires done <= name.Keys && done <= want.Keys
  {
    forall n :: n in m ==> exists k :: k in done && name[k] == n && m[n] == want[k]
  }

  /** Every struct of `done` has its own wanted entry under its name. */
  ghost predicate OwnEntries(name: map<TypeId, string>, want: map<TypeId, Definition>, done: set<TypeId>,
                             m: map<string, Definition>)
    requires done <= name.Keys && done <= want.Keys
  {
    forall k :: k in done ==> name[k] in m && m[name[k]] == want[k]
  }

  /** No two structs of `ks` share a name. */
  ghost predicate Injective(name: map<TypeId, string>, ks: set<TypeId>)
    requires ks <= name.Keys
  {
    forall a, b :: a in ks && b in ks && name[a] == name[b] ==> a == b
  }

  lemma MoveOne(all: set<TypeId>, rest: set<TypeId>, k: TypeId)
    requires k in rest && rest <= all
    ensures (all - rest) + {k} == all - (rest - {k})
  {
  }

  lemma KeysAdd(m: map<string, Definition>, n: string, v: Definition)
    ensures m[n := v].Keys == m.Keys + {n}
  {
  }

  lemma ImageAdd(name: map<TypeId, string>, done: set<TypeId>, k: TypeId)
    requires done <= name.Keys && k in name
    ensures Image(name, done + {k}) == Image(name, done) + {name[k]}
  {
  }

  /** Storing one more struct's entry keeps every entry some struct's. */
  lemma EntriesStep(name: map<TypeId, string>, want: map<TypeId, Definition>, done: set<TypeId>,
                    m: map<string, Definition>, k: TypeId)
    requires done <= name.Keys && done <= want.Keys && k in name && k in want
    requires EntriesFrom(name, want, done, m)
    ensures EntriesFrom(name, want, done + {k}, m[name[k] := want[k]])
  {
    var m' := m[name[k] := want[k]];
    forall n | n in m'
      ensures exists k' :: k' in done + {k} && name[k'] == n && m'[n] == want[k']
    {
      if n == name[k] {
        assert k in done + {k};
      } else {
        var k' :| k' in done && name[k'] == n && m[n] == want[k'];
        assert k' in done + {k};
      }
    }
  }

  /** With no shared names, storing one more struct's entry overwrites no
      other struct's. */
  lemma OwnStep(name: map<TypeId, string>, want: map<TypeId, Definition>, ks: set<TypeId>, done: set<TypeId>,
                m: map<string, Definition>, k: TypeId)
    requires ks <= name.Keys && ks <= want.Keys && done <= ks && k in ks
    requires Injective(name, ks) && OwnEntries(name, want, done, m)
    ensures OwnEntries(name, want, done + {k}, m[name[k] := want[k]])
  {
    forall k' | k' in done && k' != k
      ensures name[k'] != name[k]
    {
    }
  }

  /** The invariant of generate's loop over the table's structs `ks` with
      `rest` still to visit: `m` holds exactly the names of the visited
      ones, each entry is the wanted entry of a visited struct, and with no
      shared names each visited struct has its own. */
  ghost predicate DefsLoop(name: map<TypeId, string>, want: map<TypeId, Definition>, ks: set<TypeId>,
                           rest: set<TypeId>, m: map<string, Definition>)
    requires ks <= name.Keys && ks <= want.Keys
  {
    rest <= ks && m.Keys == Image(name, ks - rest) && EntriesFrom(name, want, ks - rest, m) &&
    (Injective(name, ks) ==> OwnEntries(name, want, ks - rest, m))
  }

  lemma DefsLoopStart(name: map<TypeId, string>, want: map<TypeId, Definition>, ks: set<TypeId>)
    requires ks <= name.Keys && ks <= want.Keys
    ensures DefsLoop(name, want, ks, ks, map[])
  {
    assert ks - ks == {};
  }

  lemma DefsLoopStep(name: map<TypeId, string>, want: map<TypeId, Definition>, ks: set<TypeId>,
                     rest: set<TypeId>, m: map<string, Definition>, k: TypeId)
    requires ks <= name.Keys && ks <= want.Keys
    requires DefsLoop(name, want, ks, rest, m) && k in rest
    ensures DefsLoop(name, want, ks, rest - {k}, m[name[k] := want[k]])
  {
    var done := ks - rest;
    MoveOne(ks, rest, k);
    ImageAdd(name, done, k);
    KeysAdd(m, name[k], want[k]);
    EntriesStep(name, want, done, m, k);
    if Injective(name, ks) {
      OwnStep(name, want, ks, done, m, k);
    }
  }

  lemma DefsLoopDone(name: map<TypeId, string>, want: map<TypeId, Definition>, ks: set<TypeId>,
                     m: map<string, Definition>)
    requires ks <= name.Keys && ks <= want.Keys
    requires DefsLoop(name, want, ks, {}, m)
    ensures m.Keys == Image(name, ks) && EntriesFrom(name, want, ks, m)
    ensures Injective(name, ks) ==> OwnEntries(name, want, ks, m)
  {
    assert ks - {} == ks;
  }

  /** The names of a table's structs, and their distinctness, read through
      `NameOf`. */
  lemma NameOfAgrees(env: Env, tbl: map<TypeId, ObjDesc>)
    requires StructTable(env, tbl)
    ensures Image(NameOf(env, tbl), tbl.Keys) == Names(env, tbl.Keys)
    ensures NamesDistinct(env, tbl.Keys) <==> Injective(NameOf(env, tbl), tbl.Keys)
  {
    var name := NameOf(env, tbl);
    assert forall k :: k in tbl ==> k < |env.u| && name[k] == QualifiedName(env.packages, env.u[k]);
  }

  class SchemaGenerator {
    /** The memo table: struct type to its (possibly placeholder) descriptor. */
    var types: map<TypeId, ObjDesc>
    /** For each finished entry, the memo table its expansion read. */
    ghost var basis: map<TypeId, map<TypeId, ObjDesc>>
    const packages: Packages
    const typeMap: map<TypeId, TypeId>
    /** The reflect view of the program's types. */
    const universe: Universe

    function Config(): Env {
      Env(universe, packages, typeMap)
    }

    ghost predicate Consistent()
      reads this
    {
      WellFormed(Config()) && TableOk(Config(), types)
    }

    ghost predicate Building(stack: set<TypeId>)
      reads this
      requires WellFormed(Config())
    {
      TableBuilding(Config(), types, stack)
    }

    ghost predicate Recorded(stack: set<TypeId>)
      reads this
      requires WellFormed(Config())
    {
      TableComputed(Config(), types, basis, stack)
    }

    ghost predicate Valid()
      reads this
    {
      Consistent() && Building({}) && Recorded({})
    }

    /** The structs not yet memoised: the first component of the termination
        measure of the walk. */
    function Unvisited(): nat
      reads this
    {
      |StructIds(universe) - types.Keys|
    }

    /** newSchemaGenerator: the package table built from the list, an empty
        memo table. */
    constructor (pkgs: seq<PackageDescriptor>, typeMap: map<TypeId, TypeId>, universe: Universe)
      requires WellFormed(Env(universe, PackageMap(pkgs), typeMap))
      ensures Valid()
      ensures types == map[] && packages == PackageMap(pkgs)
      ensures this.typeMap == typeMap && this.universe == universe
    {
      var pkgMap := NewPackageMap(pkgs);
      this.packages := pkgMap;
      this.typeMap := typeMap;
      this.universe := universe;
      this.types := map[];
      this.basis := map[];
    }

    /** getPropertyDescriptor: returns the descriptor of a field type and, for
        a struct not yet in the memo table, first writes the placeholder, then
        expands the struct, then stores the result. */
    method GetPropertyDescriptor(t: TypeId, ghost stack: set<TypeId>) returns (p: PropDesc)
      requires Consistent() && Building(stack) && Recorded(stack) && t < |universe|
      requires StackReaches(Config(), stack, Refs(Config(), t))
      modifies this
      ensures Consistent() && Building(stack) && Recorded(stack) && Extends(old(types), types)
      ensures p == PropertyDescriptor(Config(), t)
      ensures Refs(Config(), t) <= types.Keys
      ensures Refs(Config(), t) <= old(types).Keys ==> types == old(types)
      ensures forall k :: k in types && k !in old(types) ==> Reaches(Config(), Refs(Config(), t), k)
      decreases Unvisited(), 1, Eff(Config(), t)
    {
      ghost var env := Config();
      var d := t;
      if universe[d].kind.Ptr? {
        d := universe[d].kind.elem;
      }
      if d in typeMap {
        d := typeMap[d];
      }
      assert d == Eff(env, t);
      assert ComponentsOk(universe, d) && TypeOk(env, d);
      match universe[d].kind {
        case Bool =>
          p := Primitive("boolean");
        case Int(_, _) =>
          p := Primitive("integer");
        case Float(_, _) =>
          p := Primitive("number");
        case String =>
          p := Primitive("string");
        case Array(_, _) =>
          // the `reflect.Array` case is empty and Go does not fall through
          p := EmptyDescriptor;
        case Slice(el) =>
          assert Refs(env, el) == Refs(env, t);
          var items := GetPropertyDescriptor(el, stack);
          p := PropDesc(Some("array"), None, Some(items), None, None);
        case Map(_, el) =>
          assert Refs(env, el) == Refs(env, t);
          var value := GetPropertyDescriptor(el, stack);
          p := PropDesc(Some("object"), None, None, Some(value),
                        Some("java.util.Map<String," + JavaType(universe, packages, el) + ">"));
        case Struct(_) =>
          DefineStruct(d, stack);
          StructJavaTypeDefined(universe, packages, d);
          p := PropDesc(None, Some(Reference(packages, universe[d])), None, None, Some(JavaType(universe, packages, d)));
        case Ptr(_) =>
          p := EmptyDescriptor;
        case Other =>
          p := EmptyDescriptor;
      }
    }

    /** The memoisation of getPropertyDescriptor's struct case: a struct
        already in the table (finished or still being expanded) is left alone;
        otherwise the placeholder is written first, so that fields leading back
        to the struct find it, and replaced by the expansion afterwards. */
    method DefineStruct(d: TypeId, ghost stack: set<TypeId>)
      requires Consistent() && Building(stack) && Recorded(stack) && IsStruct(universe, d)
      requires StackReaches(Config(), stack, {d})
      modifies this
      ensures Consistent() && Building(stack) && Recorded(stack) && Extends(old(types), types)
      ensures d in types
      ensures d in old(types) ==> types == old(types)
      ensures forall k :: k in types && k !in old(types) ==> Reaches(Config(), {d}, k)
      ensures d !in old(types) ==>
        TypeOk(Config(), d) &&
        types[d] == ObjDesc(StructProperties(Config(), universe[d].kind.fields, types[d := Placeholder]), true)
      decreases Unvisited(), 0, 0
    {
      if d !in types {
        ghost var env := Config();
        RemoveOne(StructIds(universe), types.Keys, d);
        PlaceholderStep(env, types, stack, d);
        ComputedPlaceholder(env, types, basis, stack, d);
        StackPush(env, stack, d);
        types := types[d := Placeholder];
        assert Consistent() && Building(stack + {d}) && Recorded(stack + {d}) && Unvisited() < old(Unvisited());
        var desc := GenerateObjectDescriptor(d, stack + {d});
        DefineStep(env, old(types), types, stack, d, desc);
        ComputedStore(env, types, basis, stack, d, desc);
        basis := basis[d := types];
        types := types[d := desc];
      }
    }

    /** generateObjectDescriptor: the struct's properties, additionalProperties
        set. */
    method GenerateObjectDescriptor(s: TypeId, ghost stack: set<TypeId>) returns (desc: ObjDesc)
      requires Consistent() && Building(stack) && Recorded(stack) && IsStruct(universe, s)
      requires StackReaches(Config(), stack, {s})
      modifies this
      ensures Consistent() && Building(stack) && Recorded(stack) && Extends(old(types), types)
      ensures TypeOk(Config(), s)
      ensures desc == ObjDesc(StructProperties(Config(), universe[s].kind.fields, types), true)
      ensures FieldRefs(Config(), s) <= types.Keys
      ensures PropsResolve(desc.properties, RefSet(Config(), types.Keys))
      ensures forall k :: k in types && k !in old(types) ==> Reaches(Config(), FieldRefs(Config(), s), k)
      decreases Unvisited(), 4, 0
    {
      var props := GetStructProperties(s, stack);
      desc := ObjDesc(props, true);
    }

    /** getStructProperties: walks the fields in order and adds each one's
        contribution to the property map. */
    method GetStructProperties(s: TypeId, ghost stack: set<TypeId>) returns (props: map<string, PropDesc>)
      requires Consistent() && Building(stack) && Recorded(stack) && IsStruct(universe, s)
      requires StackReaches(Config(), stack, {s})
      modifies this
      ensures Consistent() && Building(stack) && Recorded(stack) && Extends(old(types), types)
      ensures TypeOk(Config(), s)
      ensures props == StructProperties(Config(), universe[s].kind.fields, types)
      ensures FieldRefs(Config(), s) <= types.Keys
      ensures PropsResolve(props, RefSet(Config(), types.Keys))
      ensures forall k :: k in types && k !in old(types) ==> Reaches(Config(), FieldRefs(Config(), s), k)
      decreases Unvisited(), 3, 0
    {
      ghost var env := Config();
      assert ComponentsOk(universe, s) && TypeOk(env, s);
      var fields := universe[s].kind.fields;
      props := map[];
      var i := 0;
      FieldLoopStart(env, s, fields, types);
      while i < |fields|
        invariant 0 <= i <= |fields|
        invariant Consistent() && Building(stack) && Recorded(stack) && Extends(old(types), types)
        invariant Unvisited() <= old(Unvisited())
        invariant FieldLoop(env, s, fields, i, old(types), types, props)
        decreases |fields| - i
      {
        ghost var before := types;
        props := AddField(s, fields, i, props, stack, old(types));
        ExtendsTrans(old(types), before, types);
        i := i + 1;
      }
      FieldLoopDone(env, s, fields, old(types), types, props);
    }

    /** The body of getStructProperties' loop for field `i`: an unexported
        field is skipped; an embedded struct copies in the memo entry of its
        type; any other field stores its descriptor under its JSON name. */
    method AddField(s: TypeId, fields: seq<Field>, i: nat, props: map<string, PropDesc>,
                    ghost stack: set<TypeId>, ghost t0: map<TypeId, ObjDesc>)
      returns (props': map<string, PropDesc>)
      requires Consistent() && Building(stack) && Recorded(stack) && IsStruct(universe, s)
      requires StackReaches(Config(), stack, {s})
      requires fields == universe[s].kind.fields && i < |fields|
      requires FieldLoop(Config(), s, fields, i, t0, types, props)
      modifies this
      ensures Consistent() && Building(stack) && Recorded(stack) && Extends(old(types), types)
      ensures Unvisited() <= old(Unvisited())
      ensures FieldLoop(Config(), s, fields, i + 1, t0, types, props')
      decreases Unvisited(), 2, 0
    {
      ghost var env := Config();
      assert ComponentsOk(universe, s);
      var field := fields[i];
      ghost var before := types;
      props' := props;
      if |field.pkgPath| == 0 {
        var name := FieldName(field);
        StackField(env, stack, s, i);
        var prop := GetPropertyDescriptor(field.typ, stack);
        SubsetCard(StructIds(universe) - types.Keys, StructIds(universe) - before.Keys);
        FieldStep(env, s, fields, i, t0, before, types, props);
        if field.anonymous && universe[field.typ].kind.Struct? {
          var newProps: map<string, PropDesc> := map[];
          if prop.ref.Some? {
            var pType := field.typ;
            if universe[pType].kind.Ptr? {
              // getStructProperties strips a pointer from an embedded field's
              // type here, but the test above already required the field's
              // own kind to be a struct
              assert false;
            }
            newProps := types[pType].properties;
          } else {
            // getStructProperties would read the properties of a memo entry
            // that does not exist: an embedded struct always has a reference
            assert false;
          }
          props' := props + newProps;
        } else {
          props' := props[name := prop];
        }
      } else {
        FieldStep(env, s, fields, i, t0, before, types, props);
      }
      FieldStepResult(env, s, fields, i, t0, types, props, props');
    }

    /** generate's loop over the memo table: one definition per memoised
        struct, under its schema name; nil when the table is empty. When two
        structs share a name, Go's map order decides which one is kept. */
    method CollectDefinitions() returns (defs: Option<map<string, Definition>>)
      requires StructTable(Config(), types)
      ensures defs.None? <==> |types| == 0
      ensures defs.Some? ==> defs.value.Keys == Names(Config(), types.Keys)
      ensures defs.Some? ==>
        EntriesFrom(NameOf(Config(), types), DefinitionsOf(Config(), types), types.Keys, defs.value)
      ensures defs.Some? && NamesDistinct(Config(), types.Keys) ==>
        OwnEntries(NameOf(Config(), types), DefinitionsOf(Config(), types), types.Keys, defs.value)
    {
      if |types| == 0 {
        return None;
      }
      ghost var name := NameOf(Config(), types);
      ghost var want := DefinitionsOf(Config(), types);
      NameOfAgrees(Config(), types);
      var m: map<string, Definition> := map[];
      var rest := types.Keys;
      DefsLoopStart(name, want, types.Keys);
      while rest != {}
        invariant DefsLoop(name, want, types.Keys, rest, m)
        decreases rest
      {
        var k :| k in rest;
        var n := QualifiedName(packages, universe[k]);
        var value := DefinitionFor(Config(), types, k);
        assert n == name[k] && value == want[k];
        DefsLoopStep(name, want, types.Keys, rest, m, k);
        m := m[n := value];
        rest := rest - {k};
      }
      DefsLoopDone(name, want, types.Keys, m);
      defs := Some(m);
    }

    /** generate: rejects a non-struct root; otherwise expands the root
        (which is memoised only if one of its fields reaches it), then turns
        the memo table into `definitions`. Every memo entry, and so every
        definition, is its struct's property map read from the table recorded
        in `basis`. */
    method Generate(t: TypeId) returns (res: Result<Schema, Error>)
      requires Valid() && t < |universe|
      modifies this
      ensures Valid() && Extends(old(types), types)
      ensures !IsStruct(universe, t) ==> res == Failure(UnsupportedRootKind) && types == old(types)
      ensures IsStruct(universe, t) ==>
        && res.Success?
        && res.value.id == IdPrefix + universe[t].name + "#"
        && res.value.schema == SchemaDialect && res.value.typ == "object"
        && TypeOk(Config(), t)
        && res.value.obj == ObjDesc(StructProperties(Config(), universe[t].kind.fields, types), true)
        && (res.value.definitions.None? <==> |types| == 0)
        && (res.value.definitions.Some? ==> res.value.definitions.value.Keys == Names(Config(), types.Keys))
        && SchemaResolves(res.value)
      ensures TableComputed(Config(), types, basis, {})
      ensures IsStruct(universe, t) && res.value.definitions.Some? ==>
        StructTable(Config(), types) &&
        EntriesFrom(NameOf(Config(), types), DefinitionsOf(Config(), types), types.Keys, res.value.definitions.value) &&
        (NamesDistinct(Config(), types.Keys) ==>
           OwnEntries(NameOf(Config(), types), DefinitionsOf(Config(), types), types.Keys, res.value.definitions.value))
      ensures IsStruct(universe, t) ==>
        (forall k :: Reaches(Config(), FieldRefs(Config(), t), k) ==> k in types) &&
        (forall k :: k in types && k !in old(types) ==> Reaches(Config(), FieldRefs(Config(), t), k))
    {
      if !universe[t].kind.Struct? {
        return Failure(UnsupportedRootKind);
      }
      var obj := GenerateObjectDescriptor(t, {});
      var defs := CollectDefinitions();
      var s := Schema(IdPrefix + universe[t].name + "#", SchemaDialect, "object", obj, defs);
      ghost var env := Config();
      forall k | Reaches(env, FieldRefs(env, t), k) ensures k in types {
        ReachesLeast(env, FieldRefs(env, t), types.Keys, k);
      }
      if defs.Some? {
        RefSetIsDefinedRefs(env, types.Keys, defs.value);
        forall n | n in defs.value
          ensures PropsResolve(defs.value[n].obj.properties, DefinedRefs(defs))
        {
          var k :| k in types && NameOf(env, types)[k] == n && defs.value[n] == DefinitionsOf(env, types)[k];
        }
      } else {
        assert types.Keys == {};
      }
      res := Success(s);
    }
  }

  /** A table holding exactly the structs reachable from `t`'s fields is
      that set, and is empty exactly when nothing is reachable. */
  lemma ReachedIsTable(env: Env, t: TypeId, tbl: map<TypeId, ObjDesc>)
    requires WellFormed(env) && TableOk(env, tbl)
    requires forall k :: Reaches(env, FieldRefs(env, t), k) ==> k in tbl
    requires forall k :: k in tbl ==> Reaches(env, FieldRefs(env, t), k)
    ensures tbl.Keys == set k | 0 <= k < |env.u| && Reaches(env, FieldRefs(env, t), k)
    ensures tbl.Keys == {} <==> forall k :: !Reaches(env, FieldRefs(env, t), k)
  {
    if tbl.Keys != {} {
      var k :| k in tbl;
      assert Reaches(env, FieldRefs(env, t), k);
    }
  }

  /** GenerateSchema: a fresh generator per call. The ghost outputs are the
      final memo table and the table each entry was computed over: the
      root's properties are read from the final table, every definition is a
      memoised struct's entry, the memoised structs are exactly those
      reachable from the root's fields, and the entry of a struct none of
      whose embedded structs leads back to it is its property map over the
      final table. */
  method GenerateSchema(t: TypeId, pkgs: seq<PackageDescriptor>, typeMap: map<TypeId, TypeId>, universe: Universe)
    returns (res: Result<Schema, Error>, ghost memo: map<TypeId, ObjDesc>,
             ghost basis: map<TypeId, map<TypeId, ObjDesc>>)
    requires WellFormed(Env(universe, PackageMap(pkgs), typeMap)) && t < |universe|
    ensures res.Failure? <==> !IsStruct(universe, t)
    ensures res.Failure? ==> res.error == UnsupportedRootKind && memo == map[]
    ensures res.Success? ==>
      var env := Env(universe, PackageMap(pkgs), typeMap);
      var s := res.value;
      s.id == IdPrefix + universe[t].name + "#" && s.schema == SchemaDialect && s.typ == "object" &&
      TypeOk(env, t) && s.obj == ObjDesc(StructProperties(env, universe[t].kind.fields, memo), true) &&
      SchemaResolves(s) &&
      memo.Keys == (set k | 0 <= k < |universe| && Reaches(env, FieldRefs(env, t), k)) &&
      TableComputed(env, memo, basis, {}) &&
      AcyclicEntries(env, memo) &&
      (s.definitions.None? <==> forall k :: !Reaches(env, FieldRefs(env, t), k)) &&
      (s.definitions.Some? ==> s.definitions.value.Keys == Names(env, memo.Keys))
    ensures res.Success? && res.value.definitions.Some? ==>
      var env := Env(universe, PackageMap(pkgs), typeMap);
      var defs := res.value.definitions.value;
      StructTable(env, memo) &&
      EntriesFrom(NameOf(env, memo), DefinitionsOf(env, memo), memo.Keys, defs) &&
      (NamesDistinct(env, memo.Keys) ==> OwnEntries(NameOf(env, memo), DefinitionsOf(env, memo), memo.Keys, defs))
  {
    var g := new SchemaGenerator(pkgs, typeMap, universe);
    res := g.Generate(t);
    memo, basis := g.types, g.basis;
    if res.Success? {
      ReachedIsTable(g.Config(), t, g.types);
      TableAcyclic(g.Config(), g.types, g.basis);
    }
  }
}
