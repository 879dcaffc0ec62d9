# origin-schema-generator: a verified model of the schema generator

This project models `pkg/schemagen/generate.go` in Dafny. That file turns a Go struct type into a JSON Schema document. It walks the struct's fields and emits one property descriptor per exported field. Every struct type it meets gets an entry in `definitions`, and field types point to those entries with `#/definitions/<name>` references. The walk keeps a memo table (`types`) keyed by struct type. Before a struct is expanded, the table receives an empty placeholder entry. That placeholder is what stops the walk on self-referential and mutually referential structs.

The modules:

- `Wrappers` holds `Option` and `Result`.
- `Reflect` is the part of Go's `reflect` package the generator uses. It is a finite table of type descriptions (`Universe`), indexed by `TypeId`. Each description holds a package path, a name and a kind. Every integer width is one `Int` kind, and every float and complex width is one `Float` kind. `Uintptr`, channels, functions and interfaces are all `Other`.
- `Naming` covers:
  - the package table built by `newSchemaGenerator`;
  - `getFieldName`;
  - `qualifiedName` with its `sanitize` passes;
  - `generateReference`;
  - `javaType`.
- `Descriptors` holds the pure rules:
  - `PropertyDescriptor` is the result of `getPropertyDescriptor`. It does not depend on the memo table.
  - `Refs` is the set of struct types that classifying a field type registers.
  - `StructProperties` is the property map `getStructProperties` assembles from a field list and the memo table.
- `Generator` holds the class `SchemaGenerator`, whose fields are the memo table `types`, the package table and the caller's `typeMap`. Its methods follow the source's loops and in-place updates, and each method is proved against the functions above:
  - `GetPropertyDescriptor`, with its struct memoisation in `DefineStruct`;
  - `GenerateObjectDescriptor`;
  - `GetStructProperties`, whose loop body is `AddField`;
  - `CollectDefinitions`, the `definitions` loop of `generate`;
  - `Generate`;
  - `GenerateSchema`.

The program's types must satisfy `Descriptors.WellFormed`, which keeps the generator from panicking or recursing forever:

- The component of a pointer, slice, array or map type comes before it in the table, and a `typeMap` substitute is never later than the type it replaces. So every cycle in the type graph passes through a struct, where the memo table cuts it.
- Every map element type has a Java type.
- An embedded struct field's type is not substituted.

The termination measure of the walk is the number of structs not yet in the memo table, then the method's position in the call chain, then the type's position in the table.

The invariants kept by the walk:

- Only structs are memoised.
- Exactly the structs being expanded hold the placeholder. Every finished entry has `additionalProperties` set, and every struct its fields register is memoised too.
- Every reference in the table names a memoised struct.
- Every finished entry is its struct's property map with `additionalProperties` set. The map is read from the memo table as it was when that struct's expansion finished; a ghost field `basis` records that table. That table holds every struct the finished struct's fields register. Each of its entries is either the final one or the placeholder of a struct still in progress then, and such a struct reaches the finished one by following fields.
- Every struct added during a call is reachable from the types that call registers.
- Every struct whose expansion is in progress reaches the type being walked.

These give the end-to-end result on `GenerateSchema`:

- The root's properties are its property map over the final memo table.
- Every definition is a memoised struct's entry, pinned down as above. When none of a struct's embedded structs leads back to it, its entry is exactly its property map over the final memo table.
- Every `$ref` in the document resolves in `definitions`.
- `definitions` holds exactly the names of the structs reachable from the root's fields.
- `definitions` is absent exactly when none is reachable.

Three behaviours of the code that the model keeps:

- `qualifiedName` is not injective. Package paths that differ only in `/`, `.` or `-` give the same name (`Naming.QualifiedNameSeparatorsCollide`). When two memoised structs share a name, Go's map order picks the definition that is kept. The model says only that each entry is the definition of one of the structs with that name. Each struct has its own entry when no name is shared.
- The root struct is not kept out of `definitions`. It is there whenever one of its fields leads back to it.
- Flattening an embedded struct can depend on the order of the walk. An embedded struct whose expansion is still in progress contributes only its placeholder's empty property map. For example, take `A{X *B}`, `B{A}` (B embeds A) and a root `R{A}` that embeds A as well:
  - When A is expanded from R, B is expanded while A's entry is still the placeholder, so B gets no properties from A.
  - The placeholder is part of what the model computes: `DefineStruct` states the new entry in terms of the table with the placeholder in it.

## Model

| member | source | states |
|---|---|---|
| Naming.PackageMap | pkg/schemagen/generate.go:27-30 | every entry of the package table is stored under its own GoPackage and is one of the listed descriptors |
| Naming.PackageMapKeys | pkg/schemagen/generate.go:26-30 | a Go package has an entry in the package table iff some descriptor in the list names it |
| Naming.PackageMapLastWins | pkg/schemagen/generate.go:27-30 | the entry stored for a Go package is the last descriptor in the list that names it |
| Generator.NewPackageMap | pkg/schemagen/generate.go:27-30 | the loop over the descriptors builds exactly that package table |
| Generator.SchemaGenerator.constructor | pkg/schemagen/generate.go:26-37 | a new generator has an empty memo table, the package table of the list and the caller's typeMap, and satisfies the walk's invariants |
| Naming.BeforeComma | pkg/schemagen/generate.go:42-43 | the first part of a comma split is the longest comma-free prefix of the text: it is a prefix, it holds no comma, and it is followed by a comma unless it is the whole text |
| Naming.FieldName | pkg/schemagen/generate.go:39-46 | with a json tag, the field name is the tag text before its first comma, which is empty for a tag like ",omitempty"; without one, it is the Go field name |
| Naming.ReplaceAll | pkg/schemagen/generate.go:51-53 | a character-for-character replacement keeps the length and changes exactly the occurrences of the replaced character |
| Naming.Sanitize | pkg/schemagen/generate.go:51-53 | the three replacement passes turn exactly the '/', '.' and '-' characters into '_' and leave none of them |
| Naming.QualifiedName | pkg/schemagen/generate.go:48-58 | a type from a registered package is named by that package's prefix followed by its own name; every schema name, registered package or not, ends with the type's own name |
| Naming.QualifiedNameUnregistered | pkg/schemagen/generate.go:49-54 | a type from an unregistered package is named by its sanitized path, which holds no separator, then '_', then its own name |
| Naming.QualifiedNameCollision | pkg/schemagen/generate.go:48-58 | two unregistered types with the same name get the same schema name iff their sanitized package paths are equal |
| Naming.QualifiedNameSeparatorsCollide | pkg/schemagen/generate.go:51-54 | the paths "a/b" and "a.b" both give the schema name "a_b_T", so the naming is not injective |
| Naming.Reference | pkg/schemagen/generate.go:60-62 | a reference points into "#/definitions/", and the qualified name of its type is read back from it |
| Naming.ReferenceIsTwoTokenPointer | pkg/schemagen/generate.go:48-62 | an unregistered type whose name has no '/' gets a JSON Pointer (RFC 6901) with exactly the two tokens "definitions" and its schema name |
| Naming.JavaTypeClassification | pkg/schemagen/generate.go:64-96 | after one pointer strip, a registered package gives its Java package + "." + the name; otherwise bool gives "bool", every integer width "int", float and complex "double", string "String", an array or slice "java.util.ArrayList<" + its element's Java type + ">", a map "java.util.Map<String," + its element's Java type + ">", a struct its name ("Object" when it is unnamed and has no fields), and a type of any other kind its name, which must be non-empty |
| Naming.JavaTypeUndefined | pkg/schemagen/generate.go:89-93 | an unregistered unnamed type that is neither a struct nor a collection after one pointer strip has no Java type (`JavaTypeDefined` is false): the source panics in NumField there |
| Naming.JavaTypeThroughPointer | pkg/schemagen/generate.go:64-67 | the Java type looks through one pointer: a pointer to a non-pointer type has the Java type of its target, and is defined exactly when the target's is |
| Naming.JavaTypeListTypes | pkg/schemagen/generate.go:85-86 | unregistered fixed-size arrays and slices of the same element both get "java.util.ArrayList<" + the element's Java type + ">" |
| Naming.JavaTypeUnnamedStruct | pkg/schemagen/generate.go:89-93 | an unregistered unnamed struct gets "Object" when it has no fields, and otherwise its empty Name() |
| Naming.StructJavaTypeDefined | pkg/schemagen/generate.go:89-93 | javaType does not panic on a struct type: NumField is only called on structs there |
| Reflect.Deref | pkg/schemagen/generate.go:131-133 | one level of indirection: a pointer type gives its element, any other type itself; the result differs from the type exactly for pointers |
| Descriptors.Subst | pkg/schemagen/generate.go:134-137 | the typeMap substitution replaces a mapped type by its entry and leaves every other type alone |
| Descriptors.PropertyDescriptor | pkg/schemagen/generate.go:130-206 | every descriptor has one of the JSON Schema shapes the generator emits: a primitive, an array of a descriptor, a map with value descriptor and Java type, a reference with Java type, or the empty descriptor |
| Descriptors.PropertyClassification | pkg/schemagen/generate.go:130-206 | after one pointer strip and the typeMap substitution, a field type is classified as: bool "boolean"; every integer width "integer"; float or complex "number"; string "string"; slice "array" with its element's descriptor as items; map "object" with its element's descriptor and "java.util.Map<String," + the element's Java type + ">"; struct a reference with its Java type; fixed-size array, a second pointer or any other kind the empty descriptor |
| Descriptors.Refs | pkg/schemagen/generate.go:168-203 | the types classifying a field type registers in the memo table are all structs |
| Descriptors.PropertyReferences | pkg/schemagen/generate.go:168-203 | the `$ref` strings in a field's descriptor are exactly the references of the structs its classification registers |
| Descriptors.ContributionCases | pkg/schemagen/generate.go:212-232 | an unexported field adds nothing; an exported field that is not an embedded struct adds exactly its JSON name with its descriptor; an embedded struct adds its memo entry's properties, none while its expansion is in progress |
| Descriptors.StructPropertiesHidden | pkg/schemagen/generate.go:212-214 | a struct whose fields are all unexported has no properties |
| Descriptors.StructPropertiesAgree | pkg/schemagen/generate.go:217-230 | two memo tables that agree on the entries of the visible embedded structs give the same property map |
| Descriptors.StructPropertiesKeys | pkg/schemagen/generate.go:208-236 | a name is a property of the struct iff some field contributes it: an exported non-embedded field its JSON name, an exported embedded struct its memo entry's property names; unexported fields contribute nothing |
| Descriptors.StructPropertiesLastWins | pkg/schemagen/generate.go:209-234 | a property's value is the one contributed by the last field contributing its name: later fields overwrite earlier ones |
| Descriptors.FieldsRefs | pkg/schemagen/generate.go:211-216 | the types registered while walking a struct's fields are structs |
| Descriptors.FieldsRefsPrefix | pkg/schemagen/generate.go:209-234 | walking more of the fields registers at least as many structs |
| Descriptors.FlattenedRefs | pkg/schemagen/generate.go:216-224 | an exported embedded struct field registers exactly its own type and gets a reference, so the memo lookup at line 224 finds an entry |
| Descriptors.StructPropertiesFrame | pkg/schemagen/generate.go:217-230 | the property map reads only memo entries of structs the fields register, so any extension of a table holding them gives the same map |
| Generator.SchemaGenerator.GetPropertyDescriptor | pkg/schemagen/generate.go:130-206 | returns the classification of the field type whatever the memo state; afterwards every struct it registers is memoised, no entry is removed or changed, nothing changes when those structs were already memoised, each new entry is reachable from them, and every finished entry is still its property map over its recorded table; it is called with every struct in progress reaching the structs the type registers |
| Generator.SchemaGenerator.DefineStruct | pkg/schemagen/generate.go:189-195 | a memoised struct, finished or still in progress, is left alone; otherwise it is memoised, its entry is its property map computed with its own placeholder in the table, with additionalProperties set, and every new entry is reachable from it |
| Generator.SchemaGenerator.GenerateObjectDescriptor | pkg/schemagen/generate.go:237-241 | the descriptor is the struct's property map over the final table, with additionalProperties true; every `$ref` in it names a memoised struct |
| Generator.SchemaGenerator.GetStructProperties | pkg/schemagen/generate.go:208-236 | the loop returns the struct's property map over the final table; every struct its fields register is memoised and every `$ref` in the map names a memoised struct |
| Generator.SchemaGenerator.AddField | pkg/schemagen/generate.go:211-233 | one field step: skips an unexported field, copies in an embedded struct's memo entry, or stores the field's descriptor under its JSON name, and keeps the loop invariant |
| Generator.SchemaGenerator.CollectDefinitions | pkg/schemagen/generate.go:111-126 | `definitions` is absent exactly when the memo table is empty; otherwise its names are exactly the schema names of the memoised structs; each entry is type "object" with some same-named struct's descriptor and Java type, and each struct's own when names are distinct |
| Generator.SchemaGenerator.Generate | pkg/schemagen/generate.go:98-128 | a non-struct root fails and changes nothing; a struct root gets the fabric8 ID, the json-schema dialect, type "object", its property map and the `definitions` of the memo table, each entry its struct's property map over its recorded table, whose placeholders are those of structs reaching it; every `$ref` in the document resolves; the structs memoised are those reachable from the root's fields |
| Generator.GenerateSchema | pkg/schemagen/generate.go:21-24 | it fails iff the root is not a struct; otherwise, with the final memo table returned as a ghost output: the root's properties are its property map over that table, the table holds exactly the structs reachable from the root's fields, each entry is its struct's property map over its recorded table, the entry of a struct none of whose embedded structs leads back to it is its property map over the final table, every definition is a same-named struct's entry (its own when names are distinct), every `$ref` resolves, and `definitions` is absent iff nothing is reachable |
| Generator.ReachedIsTable | pkg/schemagen/generate.go:111-113 | a table holding exactly the structs reachable from the root's fields is that set, and is empty iff nothing is reachable |
| Generator.ReachesLeast | pkg/schemagen/generate.go:189-203 | the reachable structs lie in every set that contains the starting types and is closed under field registration |
| Generator.ReachesThrough | pkg/schemagen/generate.go:189-203 | a struct reached from the types a struct's fields register is reached from that struct |
| Generator.DefinedReach | pkg/schemagen/generate.go:189-195 | the structs memoised while a struct is expanded, that struct included, are reachable from it |
| Generator.ComputedPlaceholder | pkg/schemagen/generate.go:192 | writing a new struct's placeholder leaves every finished entry computed over its recorded table |
| Generator.ComputedStore | pkg/schemagen/generate.go:193-194 | storing an expansion records the table it was read from, whose placeholders all belong to structs reaching the stored one, and no other finished entry's record changes, since the stored struct could only have been a placeholder in it |
| Generator.ComputedAcyclic | pkg/schemagen/generate.go:217-230 | when no visible embedded struct of a finished struct leads back to it, none was in progress as it finished, so its entry is its property map over the table as it now stands |
| Generator.TableAcyclic | pkg/schemagen/generate.go:189-195 | in the final memo table, every struct none of whose embedded structs leads back to it has its property map over that table as its entry |
| Generator.PlaceholdersReach | pkg/schemagen/generate.go:192-194 | when a struct's expansion is stored, every placeholder in the table belongs to it or to a struct in progress, and all of these reach it |
| Generator.StackPush | pkg/schemagen/generate.go:192-193 | starting a struct's expansion keeps every struct in progress reaching the struct being walked |
| Generator.StackField | pkg/schemagen/generate.go:211-216 | walking an exported field keeps every struct in progress reaching the structs the field registers |
| Generator.ReachesStep | pkg/schemagen/generate.go:216 | a struct reached from some types extends that reach to every struct its fields register |
| Descriptors.FieldRefsOf | pkg/schemagen/generate.go:211-216 | every struct an exported field registers is among those its owner's expansion registers |
| Generator.ComputedOverFinal | pkg/schemagen/generate.go:189-195 | when none of a struct's embedded structs was still in progress as it finished, its entry is its property map over the table as it now stands |
| Generator.PlaceholderStep | pkg/schemagen/generate.go:192 | writing the placeholder of a new struct keeps the table's invariants with that struct in progress |
| Generator.StoreStep | pkg/schemagen/generate.go:193-194 | storing a finished expansion over its placeholder keeps the table's invariants and its keys |
| Generator.DefineStep | pkg/schemagen/generate.go:189-195 | storing the expansion ends the struct's placeholder phase, keeps the invariants and extends the table as it was before the placeholder |
| Generator.FieldStep | pkg/schemagen/generate.go:211-216 | after one more field, the walked prefix's registered structs are memoised and the property map is the prefix's map over the current table |
| Generator.FieldLoopDone | pkg/schemagen/generate.go:209-235 | when the loop ends, the map is the whole struct's property map |
| Generator.DefsLoopStep | pkg/schemagen/generate.go:113-125 | storing one struct's definition under its name keeps the `definitions` loop invariant |
| Generator.DefsLoopDone | pkg/schemagen/generate.go:113-125 | after the loop the names are those of all memoised structs, each entry is some same-named struct's definition, and each struct's own when names are distinct |
| Generator.NameOfAgrees | pkg/schemagen/generate.go:114 | the names the loop computes are the schema names of the memoised structs, and they are distinct exactly when no two structs share a schema name |

## Left out

- Reflection itself (`Kind`, `Elem`, `Field`, `Tag.Get`) is replaced by the type table. A field's `json` tag is stored as plain text.
- The output structs (`JSONSchema`, `JSONPropertyDescriptor`, `JSONObjectDescriptor`) live in a file that is not part of this model, and so does their JSON encoding. The model's `Schema`, `PropDesc`, `ObjDesc` and `Definition` carry only the fields this file fills.
- The error text of line 100 is dropped: the model has the one error value `UnsupportedRootKind`.
- Go's map iteration order is not modelled. The `definitions` loop picks memoised structs in an unspecified order, and the contracts hold for every order.
- Integer widths are folded: the generator gives every width the same answer. `Uintptr` is not in the integer case of either switch, so it is `Other` and gets the empty descriptor.
- Panics are excluded by `WellFormed` rather than modelled:
  - `javaType` calls `NumField` on an unnamed type that is not a struct (e.g. `interface{}` or `**T`);
  - a `typeMap` entry for the type of an exported embedded struct field. If the substitute is a struct, line 224 reads the memo entry of the unsubstituted type. That entry exists only if another field registered that type, and its absence dereferences nil. If the substitute is not a struct, line 226 reads the properties of a descriptor that has none, which dereferences nil too.
- `Descriptors.WellFormed` asks its map and struct conditions of every type in the table, including types the walk never classifies or expands. It therefore also rejects inputs on which the source neither panics nor loops. The model says nothing about these:
  - a chained `typeMap` such as `{A: B, C: A}`, with a field of type `C` before an embedded `A`. The field registers `A`, so the source copies `A`'s entry at line 224 without failing.
  - a struct that embeds a substituted struct but is itself substituted, for example `{time.Time: string, meta.Time: string}` where `meta.Time` embeds `time.Time`, reached through a field of type `meta.Time`. Lines 134-137 turn that field into the "string" primitive, so `meta.Time` is never expanded and line 224 never runs.
  - a map type whose element has no Java type (`map[string]interface{}`) when the walk never classifies it. This happens when `typeMap` substitutes the map itself, or when the map sits under a fixed-size array, where the empty Array case at line 167 stops. The source calls javaType on a map's element (line 186) only for a map it classifies.
- Endless recursion through non-struct types (`type T []T`, lines 174 and 183) is excluded by the ordering of the type table.
- That ordering (`Descriptors.WellFormed`) also rejects some inputs on which the source terminates. The model says nothing about these:
  - a `typeMap` that maps a type to a later one, such as one swapping two structs `{A: B, B: A}` or one mapping `A` to `*A`. The source substitutes once and does not recurse through the substitute's own entry.
  - a pointer type that is its own element, `type P *P`. The source strips one level and gives the empty descriptor.
  - a fixed-size array whose element leads back to it, `type T [2]*T`. getPropertyDescriptor never recurses into arrays; javaType would, through a map element.
- Generator.GenerateSchema: its precondition `WellFormed` is stronger than what the source needs, for the inputs listed above. The constructor, `Generate` and the walk methods carry the same precondition. A condition limited to the types the walk reaches would have to follow chained substitutions, and the pure definitions (`PropertyDescriptor`, `Refs`, `StructProperties`) rely on it for every type.
- Generator.SchemaGenerator.AddField: the pointer branch at lines 220-223 is unreachable and is modelled as dead code. The test at line 217 uses the field's own kind, so a pointer to a struct is never flattened.
- Generator.SchemaGenerator.CollectDefinitions: does not say which struct's definition wins a shared name, because Go's map order decides it. Each struct has its own entry only when names are distinct.
- Naming.ReferenceIsTwoTokenPointer: RFC 6901 escaping of '~' and '/' is not applied by the source. The lemma therefore excludes registered packages, whose prefixes may hold '/', and names that hold '/'.
- Map key types are never examined by the source, and the model ignores them too.
