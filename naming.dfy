/**
  Naming rules of the generator: the package table, JSON field names, schema
  (definition) names, `$ref` strings and Java type names.
*/
module Naming {
  import opened Wrappers
  import opened Reflect

  /** A caller-supplied namespace entry: the Go package path it covers, the
      Java package its types map to, and the prefix of their schema names. */
  datatype PackageDescriptor = PackageDescriptor(goPackage: string, javaPackage: string, prefix: string)

  type Packages = map<string, PackageDescriptor>

  /** The lookup table newSchemaGenerator builds from the descriptor list: each
      descriptor is stored under its GoPackage, a later one replacing an earlier. */
  function PackageMap(pkgs: seq<PackageDescriptor>): (m: Packages)
    ensures forall g :: g in m ==> m[g].goPackage == g && m[g] in pkgs
  {
    if pkgs == [] then map[]
    else PackageMap(pkgs[..|pkgs| - 1])[pkgs[|pkgs| - 1].goPackage := pkgs[|pkgs| - 1]]
  }

  /** `j` is the position of the last descriptor for Go package `g`. */
  predicate IsLastFor(pkgs: seq<PackageDescriptor>, g: string, j: int) {
    0 <= j < |pkgs| && pkgs[j].goPackage == g &&
    forall j' :: j < j' < |pkgs| ==> pkgs[j'].goPackage != g
  }

  /** A package is registered iff some descriptor in the list names it. */
  lemma {:induction false} PackageMapKeys(pkgs: seq<PackageDescriptor>, g: string)
    ensures g in PackageMap(pkgs) <==> exists j :: 0 <= j < |pkgs| && pkgs[j].goPackage == g
  {
    if pkgs != [] {
      var n := |pkgs| - 1;
      var init := pkgs[..n];
      PackageMapKeys(init, g);
      if g in PackageMap(pkgs) && pkgs[n].goPackage != g {
        var j :| 0 <= j < |init| && init[j].goPackage == g;
        assert pkgs[j].goPackage == g;
      }
      if j :| 0 <= j < |pkgs| && pkgs[j].goPackage == g {
        if j < n {
          assert init[j].goPackage == g;
        }
      }
    }
  }

  /** The descriptor stored for a package is the last one in the list that
      names it: later duplicates win. */
  lemma {:induction false} PackageMapLastWins(pkgs: seq<PackageDescriptor>, g: string, j: int)
    requires IsLastFor(pkgs, g, j)
    ensures g in PackageMap(pkgs) && PackageMap(pkgs)[g] == pkgs[j]
  {
    var n := |pkgs| - 1;
    var init := pkgs[..n];
    assert PackageMap(pkgs) == PackageMap(init)[pkgs[n].goPackage := pkgs[n]];
    if j < n {
      assert pkgs[n].goPackage != g;
      assert IsLastFor(init, g, j) by {
        forall j' | j < j' < |init| ensures init[j'].goPackage != g {
          assert init[j'] == pkgs[j'];
        }
      }
      PackageMapLastWins(init, g, j);
    }
  }

  /** The text of `s` before its first comma, or all of `s` when it has none
      (what strings.Split(s, ",")[0] returns). */
  function BeforeComma(s: string): (r: string)
    ensures r <= s
    ensures ',' !in r
    ensures |r| < |s| ==> s[|r|] == ','
  {
    if s == [] || s[0] == ',' then [] else [s[0]] + BeforeComma(s[1..])
  }

  /** getFieldName: the json tag's name part, or the Go field name when the
      field has no json tag. A tag such as ",omitempty" yields the empty name. */
  function FieldName(f: Field): (r: string)
    ensures |f.jsonTag| == 0 ==> r == f.name
    ensures |f.jsonTag| > 0 ==> r <= f.jsonTag && ',' !in r && (|r| < |f.jsonTag| ==> f.jsonTag[|r|] == ',')
  {
    if |f.jsonTag| > 0 then BeforeComma(f.jsonTag) else f.name
  }

  /** strings.Replace(s, from, to, -1) for one-character strings `from` and `to`. */
  function ReplaceAll(s: string, from: char, to: char): (r: string)
    ensures |r| == |s|
    ensures forall i :: 0 <= i < |s| ==> r[i] == if s[i] == from then to else s[i]
  {
    if s == [] then [] else [if s[0] == from then to else s[0]] + ReplaceAll(s[1..], from, to)
  }

  /** A character qualifiedName replaces by an underscore. */
  predicate IsSeparator(c: char) {
    c == '/' || c == '.' || c == '-'
  }

  /** The package path with every '/', '.' and '-' replaced by '_', in the
      three passes qualifiedName makes. */
  function Sanitize(path: string): (r: string)
    ensures |r| == |path|
    ensures forall i :: 0 <= i < |path| ==> r[i] == if IsSeparator(path[i]) then '_' else path[i]
    ensures forall i :: 0 <= i < |r| ==> !IsSeparator(r[i])
  {
    ReplaceAll(ReplaceAll(ReplaceAll(path, '/', '_'), '.', '_'), '-', '_')
  }

  /** qualifiedName: the schema name of a type, the key of its entry in
      `definitions`. A type of a registered package is named by that
      package's prefix followed by its own name. */
  function QualifiedName(pk: Packages, t: TypeDesc): (q: string)
    ensures t.pkgPath in pk ==> q == pk[t.pkgPath].prefix + t.name
    ensures |t.name| <= |q| && q[|q| - |t.name|..] == t.name
  {
    if t.pkgPath in pk then pk[t.pkgPath].prefix + t.name
    else Sanitize(t.pkgPath) + "_" + t.name
  }

  /** A type from an unregistered package is named by its sanitized path, an
      underscore and its own name, and no separator survives in the path part. */
  lemma QualifiedNameUnregistered(pk: Packages, t: TypeDesc)
    requires t.pkgPath !in pk
    ensures var q := QualifiedName(pk, t);
      |q| == |t.pkgPath| + 1 + |t.name| &&
      q[..|t.pkgPath|] == Sanitize(t.pkgPath) &&
      (forall i :: 0 <= i < |t.pkgPath| ==> !IsSeparator(q[i])) &&
      q[|t.pkgPath|] == '_' && q[|t.pkgPath| + 1..] == t.name
  {
    var q := QualifiedName(pk, t);
    assert q == Sanitize(t.pkgPath) + "_" + t.name;
  }

  /** Two unregistered types with the same name get the same schema name
      exactly when their sanitized package paths agree. */
  lemma QualifiedNameCollision(pk: Packages, a: TypeDesc, b: TypeDesc)
    requires a.pkgPath !in pk && b.pkgPath !in pk && a.name == b.name
    ensures QualifiedName(pk, a) == QualifiedName(pk, b) <==> Sanitize(a.pkgPath) == Sanitize(b.pkgPath)
  {
    var qa, qb := QualifiedName(pk, a), QualifiedName(pk, b);
    var sa, sb := Sanitize(a.pkgPath), Sanitize(b.pkgPath);
    if qa == qb {
      assert |sa| == |sb|;
      assert sa == qa[..|sa|] && sb == qb[..|sb|];
    }
  }

  /** Paths that differ only in separators collide: "a/b" and "a.b" both give "a_b_T". */
  lemma QualifiedNameSeparatorsCollide(pk: Packages)
    requires "a/b" !in pk && "a.b" !in pk
    ensures QualifiedName(pk, TypeDesc("a/b", "T", Other)) == QualifiedName(pk, TypeDesc("a.b", "T", Other)) == "a_b_T"
  {
    var a, b := TypeDesc("a/b", "T", Other), TypeDesc("a.b", "T", Other);
    assert Sanitize("a/b") == "a_b";
    assert Sanitize("a.b") == "a_b";
    assert QualifiedName(pk, a) == "a_b" + "_" + "T";
    assert QualifiedName(pk, b) == "a_b" + "_" + "T";
  }

  const DefinitionsPrefix: string := "#/definitions/"

  /** generateReference: the `$ref` string of a type. It points into
      `definitions`, and the schema name of the type reads back from it. */
  function Reference(pk: Packages, t: TypeDesc): (r: string)
    ensures DefinitionName(r) == Some(QualifiedName(pk, t))
  {
    var r := DefinitionsPrefix + QualifiedName(pk, t);
    assert r[..|DefinitionsPrefix|] == DefinitionsPrefix;
    r
  }

  /** Reads back the definition name from a `$ref` string; None when the
      string does not point into `definitions`. */
  function DefinitionName(ref: string): Option<string> {
    if |ref| >= |DefinitionsPrefix| && ref[..|DefinitionsPrefix|] == DefinitionsPrefix
    then Some(ref[|DefinitionsPrefix|..])
    else None
  }

  /** For an unregistered type whose name has no '/', the reference is a JSON
      Pointer (RFC 6901, section 3) with exactly the two reference tokens
      "definitions" and the schema name. */
  lemma ReferenceIsTwoTokenPointer(pk: Packages, t: TypeDesc)
    requires t.pkgPath !in pk && '/' !in t.name
    ensures var r := Reference(pk, t);
      r[..|DefinitionsPrefix|] == DefinitionsPrefix && '/' !in r[|DefinitionsPrefix|..]
  {
    var r := Reference(pk, t);
    var q := QualifiedName(pk, t);
    assert r[|DefinitionsPrefix|..] == q;
    QualifiedNameUnregistered(pk, t);
    forall i | 0 <= i < |q| ensures q[i] != '/' {
      if i > |t.pkgPath| {
        assert q[i] == q[|t.pkgPath| + 1..][i - |t.pkgPath| - 1];
      }
    }
  }

  /** javaType does not panic on `t`. Its default branch calls NumField, which
      panics on a type that is not a struct, so an unregistered unnamed type of
      another kind (interface{}, a func type, a pointer to a pointer) has no
      Java type. */
  predicate JavaTypeDefined(u: Universe, pk: Packages, t: TypeId)
    requires Ordered(u) && t < |u|
    decreases t
  {
    var d := Deref(u, t);
    assert ComponentsOk(u, d);
    if u[d].pkgPath in pk then true
    else match u[d].kind
      case Bool => true
      case Int(_, _) => true
      case Float(_, _) => true
      case String => true
      case Array(e, _) => JavaTypeDefined(u, pk, e)
      case Slice(e) => JavaTypeDefined(u, pk, e)
      case Map(_, e) => JavaTypeDefined(u, pk, e)
      case Struct(_) => true
      case _ => |u[d].name| > 0
  }

  /** javaType: the Java type name of `t`, looked at through one pointer. */
  function JavaType(u: Universe, pk: Packages, t: TypeId): string
    requires Ordered(u) && t < |u| && JavaTypeDefined(u, pk, t)
    decreases t
  {
    var d := Deref(u, t);
    assert ComponentsOk(u, d);
    if u[d].pkgPath in pk then pk[u[d].pkgPath].javaPackage + "." + u[d].name
    else match u[d].kind
      case Bool => "bool"
      case Int(_, _) => "int"
      case Float(_, _) => "double"
      case String => "String"
      case Array(e, _) => "java.util.ArrayList<" + JavaType(u, pk, e) + ">"
      case Slice(e) => "java.util.ArrayList<" + JavaType(u, pk, e) + ">"
      case Map(_, e) => "java.util.Map<String," + JavaType(u, pk, e) + ">"
      case Struct(fs) => if |u[d].name| == 0 && |fs| == 0 then "Object" else u[d].name
      case _ => u[d].name
  }

  /** The cases of javaType, after its one pointer strip: a registered
      package gives its Java package, a dot and the type's name; otherwise
      booleans give "bool", integers of every width "int", floats and
      complex numbers "double", strings "String", arrays and slices
      "java.util.ArrayList<" + their element's Java type + ">", a map
      "java.util.Map<String," + its element's Java type + ">", a named struct
      its name, an unnamed one "Object" or the empty name, and any other
      named type its name. */
  lemma JavaTypeClassification(u: Universe, pk: Packages, t: TypeId)
    requires Ordered(u) && t < |u| && JavaTypeDefined(u, pk, t)
    ensures var d := Deref(u, t); var j := JavaType(u, pk, t);
      (u[d].pkgPath in pk ==> j == pk[u[d].pkgPath].javaPackage + "." + u[d].name) &&
      (u[d].pkgPath !in pk ==>
        (u[d].kind.Bool? ==> j == "bool") &&
        (u[d].kind.Int? ==> j == "int") &&
        (u[d].kind.Float? ==> j == "double") &&
        (u[d].kind.String? ==> j == "String") &&
        (u[d].kind.Slice? || u[d].kind.Array? ==>
           u[d].kind.elem < d && JavaTypeDefined(u, pk, u[d].kind.elem) &&
           j == "java.util.ArrayList<" + JavaType(u, pk, u[d].kind.elem) + ">") &&
        (u[d].kind.Map? ==>
           u[d].kind.elem < d && JavaTypeDefined(u, pk, u[d].kind.elem) &&
           j == "java.util.Map<String," + JavaType(u, pk, u[d].kind.elem) + ">") &&
        (u[d].kind.Struct? ==>
           j == if |u[d].name| == 0 && |u[d].kind.fields| == 0 then "Object" else u[d].name) &&
        (u[d].kind.Ptr? || u[d].kind.Other? ==> |u[d].name| > 0 && j == u[d].name))
  {
    assert ComponentsOk(u, Deref(u, t));
  }

  /** javaType panics in NumField on an unregistered unnamed type that is not
      a struct once one pointer is stripped: an interface, channel or func
      type literal, or a pointer to a pointer. Such a type has no Java type. */
  lemma JavaTypeUndefined(u: Universe, pk: Packages, t: TypeId)
    requires Ordered(u) && t < |u|
    requires var d := Deref(u, t); u[d].pkgPath !in pk && |u[d].name| == 0 && (u[d].kind.Ptr? || u[d].kind.Other?)
    ensures !JavaTypeDefined(u, pk, t)
  {
  }

  /** One pointer level is looked through: a pointer to a type that is not
      itself a pointer has the Java type of its target. */
  lemma JavaTypeThroughPointer(u: Universe, pk: Packages, t: TypeId)
    requires Ordered(u) && t < |u| && u[t].kind.Ptr?
    requires u[t].kind.elem < |u| && !u[u[t].kind.elem].kind.Ptr?
    ensures JavaTypeDefined(u, pk, t) <==> JavaTypeDefined(u, pk, u[t].kind.elem)
    ensures JavaTypeDefined(u, pk, t) ==> JavaType(u, pk, t) == JavaType(u, pk, u[t].kind.elem)
  {
    var e := u[t].kind.elem;
    assert ComponentsOk(u, t);
    assert Deref(u, e) == e == Deref(u, t);
  }

  /** Unregistered fixed-size arrays and slices of the same element type get
      the same Java list type. */
  lemma JavaTypeListTypes(u: Universe, pk: Packages, a: TypeId, b: TypeId)
    requires Ordered(u) && a < |u| && b < |u|
    requires u[a].kind.Array? && u[b].kind.Slice? && u[a].kind.elem == u[b].kind.elem < |u|
    requires u[a].pkgPath !in pk && u[b].pkgPath !in pk
    requires JavaTypeDefined(u, pk, a)
    ensures JavaTypeDefined(u, pk, b)
    ensures JavaType(u, pk, a) == JavaType(u, pk, b) == "java.util.ArrayList<" + JavaType(u, pk, u[a].kind.elem) + ">"
  {
  }

  /** An unregistered unnamed struct is "Object" when it has no fields; with
      fields it falls back to its Name(), which is empty. */
  lemma JavaTypeUnnamedStruct(u: Universe, pk: Packages, t: TypeId)
    requires Ordered(u) && IsStruct(u, t) && u[t].pkgPath !in pk && |u[t].name| == 0
    ensures JavaTypeDefined(u, pk, t)
    ensures JavaType(u, pk, t) == if |u[t].kind.fields| == 0 then "Object" else ""
  {
  }

  /** Java types of struct types never panic. */
  lemma StructJavaTypeDefined(u: Universe, pk: Packages, t: TypeId)
    requires Ordered(u) && IsStruct(u, t)
    ensures JavaTypeDefined(u, pk, t)
  {
  }
}
