# type-crawler: type layout and symbol table, in Dafny

This project models the layout and symbol-table layer of `type-crawler`. That crate reads C/C++ declarations through a clang front end and builds a table of every named type with its byte size, alignment and field layout. The model covers five parts, and every front-end query is given as a plain input value:

- **Type kinds.** The recursive `TypeKind` with its size and alignment rules (`TypeKinds`).
- **Declarations.** Structs and classes (`StructDecls`), unions (`UnionDecls`), enums (`EnumDecls`), typedefs (`Typedefs`) and their members (`Fields`). This includes the constructors' error rules and the size-1 fallback for records without fields.
- **Symbol table.** The insertion-ordered table `Types` and its `extend` merge (`TypesTable`). The merge promotes forward declarations, keeps full definitions and reports conflicting ones.
- **Environment.** Word size and compiler-flag configuration (`Environment`).
- **Support modules.** `Util`, `Records`, `Errors`, `FrontEnd`, `Ints` and `Wrappers`.

Code that works by mutation is modelled as imperative Dafny:

- **`Types` is a class.** Its fields are `order` (keys in insertion order) and `entries`. Each method is proved against a pure function of the old state: `AddType` against `Insert`, and `Extend` against `ExtendWith`.
- **Constructors are methods with loops.** `StructDecl::new`, `UnionDecl::new` and `EnumDecl::new` each become a method with the source's loops. Each method's `ensures` ties its result to a pure specification (`StructNew`, `UnionNew`, `EnumNew`). The source's promises are proved as lemmas about those specifications.

Some assumptions were needed because the source files come from different revisions:

- **`TypeKind` has three extra variants.** The shown `TypeKind` lacks `Class`, `Enum` and `Typedef`, which the struct lookup and the tests use. They are added. A class is laid out like a struct, an enum by its underlying size, and a typedef as its underlying type.
- **`Field` has the richer shape.** It holds an optional name, const/volatile flags and an optional bit width, which is what `StructField`'s accessors and the union constructor use.
- **Enum lookup follows its tests.** The tests use `get` and `get_by_value` on enums, but `enum_decl.rs` does not define them. They are modelled as first-match searches by name and by value.
- **`TypeKind::name`, `is_forward_decl` and `expand_named` are not shown.** They are defined as follows:
  - a struct, class or union has the optional name it stores;
  - an enum or typedef always has its name;
  - a struct, class or union is a forward declaration when it has no fields, and an enum when it has no constants;
  - a typedef and every non-declaration kind are never forward declarations;
  - `expand_named` follows `Named` references through the table.
- **Recursion through the table uses fuel.** Named resolution and base-class lookup are bounded by a `fuel` argument. Each table lookup spends one unit, and a pointer performs no lookup. Fuel only bounds the search: `SizeFuelMonotone`, `AlignmentFuelMonotone`, `ExpandNamedFuelMonotone` and `GetFieldFuelMonotone` show that more fuel never changes a found answer. Field lookup and expansion report running out of fuel as `OutOfFuel`, distinct from not finding anything.
- **A failed enum size query is `Sizeof(enum name, error)`.** The source converts the underlying type's failed size query with `?`, but no conversion is shown.
- **The size of a bit-field member is its width rounded up to whole bytes.** Widths 3, 5 and 2 each give 1; the tests show this but the source does not.
- **Alignments and enum sizes are strictly positive (`Ints.pos`).** The front end's alignment and enum-size queries are taken never to report 0. So `next_multiple_of(0)`, which panics in Rust, cannot arise in the array layout.
- **Struct members are built with the union constructor's rules.** `struct_decl.rs` calls `Field::new(env, types, field)`, whose body is not shown. The model applies the anonymous/name/type rules that `union_decl.rs:64-85` spells out (`Fields.FieldFromEntity`).
- **A member's size may be absent.** `Fields.FieldSize` returns an `Option`, where the source's field size is a plain `usize`. A member whose kind has no size (void, a function, a missing name) has none in the model.
- **Struct layout reads the stored values.** The struct case of `TypeKind::size` calls `struct_decl.size(env, types)?`, while `struct_decl.rs` stores a plain size and alignment. The model reads the stored values (`DeclarationLayout`).

Plain accessors carry no contract of their own:
- the fields of `Field`, `StructField` and `EnumConstant`;
- `UnionName`, `UnionSize` and `UnionAlignment`;
- `EnumSize` and `OffsetBits`;
- `Fields.NewField`.

What construction stores in them is stated by the lemmas about construction (`StructNewSuccess`, `UnionNewSuccess`, `EnumNewSuccess`).

Merging is order-independent only in part. For a single name, `SingleMergeCommutes` proves that the merged entry and the success of the merge do not depend on which table is merged first, except in one case. The exception is two forward declarations of that name that differ: the incoming one replaces the stored one, so the two orders give different results (`UnequalForwardsDependOnOrder`). For whole tables, the key order of the result also depends on which table is merged first. No lemma here claims more than the single-name statement.

## Model

| member | source | states |
|---|---|---|
| Environment.Bits | lib/src/env.rs:45-51 | the word width is 16, 32 or 64 bits and is always 8 times `Bytes` |
| Environment.Bytes | lib/src/env.rs:53-59 | the word is 2, 4 or 8 bytes |
| Environment.ClangArg | lib/src/env.rs:61-67 | the flag is `-m` followed by the decimal width (`-m16`, `-m32`, `-m64`) |
| Environment.ClangArgInjective | lib/src/env.rs:61-67 | different word sizes get different flags |
| Environment.DefaultOptions | lib/src/env.rs:32-36 | the default is 64-bit words, short enums and signed char |
| Environment.NewEnv | lib/src/env.rs:14-17 | the environment keeps all three options unchanged |
| Environment.ShortEnumsClangArg | lib/src/env.rs:23-25 | the flag is `-fshort-enums` exactly when short enums are on, else `-fno-short-enums` |
| Environment.SignedCharClangArg | lib/src/env.rs:27-29 | the flag is `-fsigned-char` exactly when char is signed, else `-funsigned-char` |
| TypeKinds.Name | lib/src/types/mod.rs:34-36 | only declarations have a name; enums and typedefs always have one |
| TypeKinds.ExpandNamed | lib/src/types/struct_decl.rs:163 | a completed expansion never yields a `Named`, and any other kind expands to itself; `Named(n)` gives `Done(None)` when `n` is missing, `OutOfFuel` when no fuel is left, and otherwise expands as `table[n]` does with one unit less |
| TypeKinds.RoundUp | lib/src/types/type_kind.rs:146 | `next_multiple_of` gives the least multiple of the alignment that is not below the size |
| TypeKinds.IsForwardDecl | lib/src/types/mod.rs:64-66 | only a struct, class, union or enum can be a forward declaration; for structs and classes the member-less rule is stated in both directions by `StructForwardDecl`, and a typedef is ruled out by `TypedefNeverForward` |
| TypeKinds.Size | lib/src/types/type_kind.rs:132-157 | every kind with a size also has an alignment; the case-by-case sizes are stated by the layout lemmas below |
| TypeKinds.Alignment | lib/src/types/type_kind.rs:159-175 | every alignment found is at least 1 |
| TypeKinds.FixedWidthLayout | lib/src/types/type_kind.rs:135-139 | 64-, 32-, 16- and 8-bit integers and bool have sizes 8, 4, 2 and 1, and alignment equals size |
| TypeKinds.WordSizedLayout | lib/src/types/type_kind.rs:134-141 | `usize`, `isize` and pointers have size and alignment `bits()/8`, which is 2, 4 or 8 by word size |
| TypeKinds.PointerNeedsNoLookup | lib/src/types/type_kind.rs:141-168 | a pointer's layout does not depend on its pointee, the table or the fuel |
| TypeKinds.UnsizedLayout | lib/src/types/type_kind.rs:140-170 | void and functions have neither size nor alignment; an incomplete array has no size but its element's alignment |
| TypeKinds.CompleteArrayLayout | lib/src/types/type_kind.rs:142-169 | a complete array is sized exactly when its element has size and alignment; the size is `n` strides, a multiple of the element alignment and at least `n` element sizes; the array has the element's alignment |
| TypeKinds.NamedLayout | lib/src/types/type_kind.rs:155-173 | `Named(n)` is laid out as `table[n]` at the cost of one table lookup; a missing name gives no layout, not 0 |
| TypeKinds.DeclarationLayout | lib/src/types/type_kind.rs:153-172 | structs, classes and unions report their stored size and alignment; an enum's alignment is its size; a typedef is laid out as its underlying type |
| TypeKinds.SizeFuelMonotone | lib/src/types/type_kind.rs:132-157 | a size found with some fuel is found unchanged with more |
| TypeKinds.AlignmentFuelMonotone | lib/src/types/type_kind.rs:159-175 | an alignment found with some fuel is found unchanged with more |
| TypeKinds.ExpandNamedFuelMonotone | lib/src/types/struct_decl.rs:163 | an expansion that completes with some fuel completes with the same answer given more |
| Fields.FieldEquality | lib/src/types/field.rs:5-9 | fields are equal exactly when all of their parts are |
| Fields.FieldFromEntity | lib/src/types/union_decl.rs:64-85 | build succeeds exactly when the member is anonymous or named and has a type that translates; an anonymous member gets no name; the qualifiers and bit width are kept; a missing name or type is `InvalidAst` |
| Fields.FieldSize | lib/src/types/struct_decl.rs:211-213 | a bit-field takes its width rounded up to whole bytes; any other member takes its kind's size |
| Fields.BitFieldSizes | lib/tests/test_struct.rs:39-48 | bit-fields of widths 3, 5 and 2 each take 1 byte |
| Fields.SelfReferentialPointerField | lib/src/types/type_kind.rs:141 | a pointer member to a type that is not in the table is sized with no fuel |
| Records.InvalidFieldNames | lib/src/types/struct_decl.rs:63-87 | there is exactly one label per invalid FieldDecl child, in child order: the k-th label is the name, or `<index#i>`, of the k-th invalid position i; the list is empty exactly when no child is invalid |
| Records.InvalidIndices | lib/src/types/union_decl.rs:42-48 | the filtered positions are ascending, each is an invalid FieldDecl child, and every invalid child is among them |
| Records.InvalidIndicesSnoc | lib/src/types/union_decl.rs:42-48 | filtering keeps child order: appending a child appends its position exactly when it is an invalid FieldDecl |
| Records.RepeatedLabelsKept | lib/src/types/union_decl.rs:49-57 | two invalid children that share a name are both reported, in child order |
| Records.IndexLabelsDistinct | lib/src/types/struct_decl.rs:81 | placeholder labels `<index#i>` for different indices differ |
| StructDecls.BaseTypeNames | lib/src/types/struct_decl.rs:44-54 | collection succeeds exactly when every BaseSpecifier has a type; every name returned is such a type and every such type is returned; a failure is `InvalidAst`; each base's count and position are fixed by `BaseTypeNamesSingle` with `BaseTypeNamesConcat` |
| StructDecls.BaseTypeNamesConcat | lib/src/types/struct_decl.rs:44-54 | base names keep child order: the names for `a + b` are the names for `a` followed by those for `b` |
| StructDecls.BaseTypeNamesSingle | lib/src/types/struct_decl.rs:44-54 | one child contributes exactly its type name once when it is a typed BaseSpecifier, fails with `InvalidAst` when it is an untyped one, and contributes nothing otherwise |
| StructDecls.CollectBaseTypes | lib/src/types/struct_decl.rs:39-54 | the loop returns exactly `BaseTypeNames` of the children |
| StructDecls.CollectStructFields | lib/src/types/struct_decl.rs:89-107 | the loop returns exactly the collected members, or the first member's error |
| StructDecls.NewStruct | lib/src/types/struct_decl.rs:29-125 | the constructor returns exactly `StructNew` |
| StructDecls.StructNew | lib/src/types/struct_decl.rs:29-125 | no contract of its own: its errors and results are stated by `StructNewHeaderErrors`, `StructNewMemberError`, `StructNewLayoutQueries` and `StructNewSuccess` |
| StructDecls.StructNewHeaderErrors | lib/src/types/struct_decl.rs:35-87 | in the source's order: a non-record is `InvalidAst`; so are a missing declaration and a base without a type; a missing member list is `UnsupportedType`; a record with no members and invalid FieldDecl children is `InvalidFields` with their labels and the display name |
| StructDecls.StructNewMemberError | lib/src/types/struct_decl.rs:89-136 | the first member that fails decides the error: a non-FieldDecl is `UnsupportedEntity` at `struct/class <name>`; a failed offset query is `Offsetof` naming the struct |
| StructDecls.StructNewLayoutQueries | lib/src/types/struct_decl.rs:109-122 | a failed size or alignment query gives 1 only when there are no members; otherwise it is `Sizeof`/`Alignof` with the display name (`<anon>` when unnamed) |
| StructDecls.StructNewSuccess | lib/src/types/struct_decl.rs:44-124 | success keeps the name; bases are in child order; there is one member per record member, in order, with its offset and field; the size and alignment are as queried, or 1 when there are no fields; `is_class` holds exactly for a ClassDecl; the result is a forward declaration exactly when there are no members |
| StructDecls.StructForwardDecl | lib/src/types/struct_decl.rs:146-148 | a struct or class is a forward declaration exactly when it has no fields |
| StructDecls.OffsetBytes | lib/src/types/struct_decl.rs:183-185 | the byte offset is the bit offset rounded down (`8*b <= bits < 8*b + 8`) |
| StructDecls.PackedBitFieldOffsets | lib/tests/test_struct.rs:37-47 | bit offsets 0, 3 and 8 are byte offsets 0, 0 and 1 |
| StructDecls.StructFieldSize | lib/src/types/struct_decl.rs:211-213 | a bit-field member takes its width rounded up to whole bytes (`w <= 8*r < w + 8`); any other member takes its kind's size |
| StructDecls.GetField | lib/src/types/struct_decl.rs:158-171 | any field found has the name that was asked for; the search either completes (`Done`) or reports that it ran out of fuel |
| StructDecls.FieldInBases | lib/src/types/struct_decl.rs:160-169 | any field found in the bases has the name that was asked for; the pass-on to the next base is stated by `FieldInBasesConcat` and `BaseFieldResolves` |
| StructDecls.BaseField | lib/src/types/struct_decl.rs:161-167 | any field found in one base has the name that was asked for; a base missing from the table gives `Done(None)` with no fuel spent, and a present base with no fuel left gives `OutOfFuel` |
| StructDecls.GetFieldOwnFirst | lib/src/types/struct_decl.rs:159 | the first own field with the name is returned whatever the bases hold; with no such field, the bases decide |
| StructDecls.FieldInBasesConcat | lib/src/types/struct_decl.rs:160-169 | bases are searched in declared order: `a + b` is searched as `a`, then as `b` only when `a` completes without a hit |
| StructDecls.FieldInBasesSkips | lib/src/types/struct_decl.rs:162-167 | a base that is missing from the table, or that resolves to something other than a struct or class, is skipped; a base that cannot be resolved with the fuel left stops the search |
| StructDecls.BaseFieldResolves | lib/src/types/struct_decl.rs:161-169 | a base that resolves to a struct or class is searched as that declaration with one unit of fuel less; when that search completes without a hit, the next base is tried, and otherwise its answer is the answer |
| StructDecls.DerivedFindsBaseField | lib/src/types/struct_decl.rs:158-171 | a derived struct with no field of that name finds the base's own member, kind included |
| StructDecls.GetFieldFuelMonotone | lib/src/types/struct_decl.rs:158-171 | a search that completes with some fuel completes with the same answer given more, so a field found is the one an unbounded search finds |
| StructDecls.BaseFieldFuelMonotone | lib/src/types/struct_decl.rs:161-167 | the same holds for the search of one base |
| StructDecls.FieldInBasesFuelMonotone | lib/src/types/struct_decl.rs:160-169 | the same holds for the search of the base list |
| StructDecls.InheritanceOwnField | lib/tests/test_struct.rs:76-88 | `Derived` finds `derivedValue` among its own fields, at byte 4 |
| StructDecls.InheritanceBaseField | lib/tests/test_struct.rs:82-84 | `Derived` finds `baseValue` in `Base`, as an S32 at offset 0 |
| StructDecls.InheritanceMissingField | lib/src/types/struct_decl.rs:158-171 | a name that neither struct declares is not found |
| StructDecls.DeepBaseWins | lib/src/types/struct_decl.rs:160-169 | with `Join : Deep, Wide`, where only `Deep`'s third-level ancestor has an `x` and `Wide` has its own `x`, every fuel of 3 or more finds the ancestor's `x` |
| StructDecls.ShallowFuelStops | lib/src/types/struct_decl.rs:160-169 | for the same table, fuel 1 stops the search with `OutOfFuel` instead of answering with `Wide`'s field |
| UnionDecls.CollectUnionFields | lib/src/types/union_decl.rs:61-98 | the loop returns exactly the collected fields, or the first member's error |
| UnionDecls.NewUnion | lib/src/types/union_decl.rs:20-116 | the constructor returns exactly `UnionNew` |
| UnionDecls.UnionNew | lib/src/types/union_decl.rs:20-116 | no contract of its own: its errors and results are stated by `UnionNewHeaderErrors`, `UnionNewMemberError`, `UnionNewLayoutQueries` and `UnionNewSuccess` |
| UnionDecls.UnionNewHeaderErrors | lib/src/types/union_decl.rs:26-58 | a non-record is `InvalidAst`; a missing member list is `UnsupportedType`; an empty record without a declaration is `InvalidAst`; one with invalid FieldDecl children is `InvalidFields` |
| UnionDecls.UnionNewIgnoresDeclaration | lib/src/types/union_decl.rs:35 | a union with members never consults its declaration |
| UnionDecls.UnionNewMemberError | lib/src/types/union_decl.rs:62-97 | the first failing member decides the error: a non-FieldDecl is `UnsupportedEntity` at `union <name>`; otherwise the field's own error is reported |
| UnionDecls.UnionNewLayoutQueries | lib/src/types/union_decl.rs:100-113 | a failed size or alignment query gives 1 only when there are no members; otherwise it is `Sizeof`/`Alignof` with the display name |
| UnionDecls.UnionNewSuccess | lib/src/types/union_decl.rs:61-115 | success keeps the name and has one field per record member, in order; size and alignment are as queried, or 1 when there are no members |
| UnionDecls.AnonymousMemberUnnamed | lib/src/types/union_decl.rs:65-136 | an anonymous member gets no name, so no lookup ever returns it |
| UnionDecls.UnionGetField | lib/src/types/union_decl.rs:134-136 | returns the first field, in declaration order, with the name; `None` exactly when no field has it; bases are never searched |
| EnumDecls.EnumConstantOf | lib/src/types/enum_decl.rs:31-42 | a child is a constant exactly when it is an EnumConstantDecl with a name and a value; otherwise it is `InvalidAst` |
| EnumDecls.NewEnum | lib/src/types/enum_decl.rs:19-46 | the constructor returns exactly `EnumNew` |
| EnumDecls.EnumNew | lib/src/types/enum_decl.rs:19-46 | no contract of its own: its errors and results are stated by `EnumNewErrors` and `EnumNewSuccess` |
| EnumDecls.EnumNewErrors | lib/src/types/enum_decl.rs:20-41 | a non-EnumDecl node is `InvalidAst`, and so is a missing underlying type; a failed size query is `Sizeof` with the enum's name; any bad child fails the whole enum with `InvalidAst` |
| EnumDecls.EnumNewSuccess | lib/src/types/enum_decl.rs:24-45 | success keeps the name and the underlying size unchanged, and has one constant per child, in order, with its name and value |
| EnumDecls.EnumAlignment | lib/src/types/enum_decl.rs:52-54 | alignment always equals size |
| EnumDecls.EnumLayoutAgrees | lib/src/types/type_kind.rs:132-175 | an enum's layout through `TypeKind` matches its own size and alignment |
| EnumDecls.GetConstant | lib/tests/test_enum.rs:18-21 | returns the first constant with the name; `None` exactly when no constant has it |
| EnumDecls.GetByValue | lib/tests/test_enum.rs:22-25 | returns the first constant with the value; `None` exactly when no constant has it |
| EnumDecls.SimpleEnumBuilt | lib/tests/test_enum.rs:26-28 | three constants reported as 0, 1 and 2 are stored in child order |
| EnumDecls.SimpleEnumByName | lib/tests/test_enum.rs:18-21 | those constants are found by name, and `Value4` is not |
| EnumDecls.SimpleEnumByValue | lib/tests/test_enum.rs:22-25 | values 0 and 2 find `Value1` and `Value3`, and 3 finds nothing |
| Typedefs.TypedefNew | lib/src/types/typedef.rs:17-24 | a failed translation is the typedef's error; otherwise the name is stored, the underlying kind is the translation, and the const/volatile flags come from the type's qualifiers |
| Typedefs.TypedefNeverForward | lib/src/types/typedef.rs:27-31 | a typedef is never a forward declaration and is registered under its name |
| Typedefs.TypedefEquality | lib/src/types/typedef.rs:8 | typedefs are equal exactly when name, underlying type and both flags are |
| Typedefs.QualifiedTypedefs | lib/tests/test_typedef.rs:24-38 | `u32` is U32 with no qualifiers; `vu32`, `cu32` and `cvu32` are `Named("u32")` with their own volatile/const flags |
| TypesTable.Insert | lib/src/types/mod.rs:36 | insertion stores the kind; a new key is appended to the order, and an existing key keeps its place |
| TypesTable.InsertValid | lib/src/types/mod.rs:36 | insertion keeps every key listed exactly once |
| TypesTable.InsertThenGet | lib/src/types/mod.rs:34-38 | afterwards the key gives the new kind and other keys are unchanged; re-inserting keeps the count, while a new key adds one |
| TypesTable.ValidMapLength | lib/src/types/mod.rs:43-49 | a well-formed table has exactly as many entries as keys in insertion order, so `len` counts the values `types` lists |
| TypesTable.ValuesOf | lib/src/types/mod.rs:43-45 | the values are listed in insertion order |
| TypesTable.MergeEntry | lib/src/types/mod.rs:61-76 | one merge step fails exactly on two unequal full definitions, with `left` the current entry and `right` the incoming one; an absent or forward-declared entry takes the incoming kind; a full entry stays |
| TypesTable.FreshNames | lib/src/types/mod.rs:74-76 | the appended names are exactly the incoming names that were absent |
| TypesTable.ExtendWith | lib/src/types/mod.rs:59-80 | no contract of its own: its outcome is stated by the `ExtendWith…` lemmas that follow |
| TypesTable.ExtendWithSucceeds | lib/src/types/mod.rs:59-80 | `extend` succeeds exactly when no incoming name conflicts with the entry it meets |
| TypesTable.ExtendWithMerges | lib/src/types/mod.rs:60-78 | on success, each entry equals its merged definition: absent or forward-declared names take the incoming kind, and all others keep theirs |
| TypesTable.ExtendWithAppends | lib/src/types/mod.rs:74-76 | on success, the absent names are appended in the incoming order |
| TypesTable.ExtendWithFirstConflict | lib/src/types/mod.rs:66-71 | the first conflict stops the merge with `ConflictingTypes { left: current, right: incoming }`, and the names before it stay merged |
| TypesTable.ExtendWithKeeps | lib/src/types/mod.rs:59-80 | whatever the outcome, no name is removed or moved, the table stays well formed, and no full definition changes |
| TypesTable.ExtendWithCopy | lib/src/types/mod.rs:59-80 | extending with an identical copy succeeds and changes nothing |
| TypesTable.ForwardMeetsFull | lib/src/types/mod.rs:63-66 | a forward and a full declaration of one name merge to the full one, in either order |
| TypesTable.ForwardMeetsForward | lib/src/types/mod.rs:63-65 | a forward declaration is replaced even by an incoming forward declaration |
| TypesTable.FullMeetsFull | lib/src/types/mod.rs:66-71 | two unequal full definitions conflict in either order, and the table keeps its own |
| TypesTable.SingleMergeCommutes | lib/src/types/mod.rs:59-80 | for one name the merge order does not matter, unless both sides are unequal forward declarations |
| TypesTable.UnequalForwardsDependOnOrder | lib/src/types/mod.rs:63-65 | for two unequal forward declarations, the incoming one wins, so the result depends on the order |
| TypesTable.TypedefQualifierConflict | lib/src/types/mod.rs:64-71 | two typedefs of one name that differ only in a qualifier conflict |
| TypesTable.Types.constructor | lib/src/types/mod.rs:30-32 | a new table is empty |
| TypesTable.Types.AddType | lib/src/types/mod.rs:34-41 | a named kind is inserted and returns true, and `Get` then yields it; re-adding keeps `Len`, while a new name adds one; a nameless kind returns false and changes nothing |
| TypesTable.Types.Values | lib/src/types/mod.rs:43-45 | the values are listed in insertion order |
| TypesTable.Types.Len | lib/src/types/mod.rs:47-49 | `len` equals the number of keys in insertion order and the number of values `types` yields |
| TypesTable.Types.IsEmpty | lib/src/types/mod.rs:51-53 | `is_empty` holds exactly when `len() == 0`, that is, when there are no entries |
| TypesTable.Types.Get | lib/src/types/mod.rs:55-57 | returns the entry exactly when the name is present |
| TypesTable.Types.Extend | lib/src/types/mod.rs:59-80 | the new table and the result are those of `ExtendWith` on the old table, the other table's order and its entries |

## Left out

- `TypeKind::new`, the translation from a clang type, is not part of this model. A type's translation is an input (`TypeHandle.kind`), and so is its failure.
- The TypeKind variants `F32`, `F64`, `Char16`, `Char32`, `WChar`, `LongDouble`, `Reference` and `MemberPointer` are left out. They occur only in other revisions and the tests, and floating point has no arithmetic here.
- The parser visitor (`lib/src/parser.rs`), the crawler (`lib/src/crawler.rs`) and the clang queries are left out: they are front-end I/O. Each query's answer (sizeof, alignof, offsetof, the member list, invalid-declaration flags, enum constant values, the anonymous first child) is a parameter, which may fail.
- All `Display` impls are left out, because they depend on Rust's `Debug` output.
- Error messages are reduced to their kind. `InvalidAst` carries a tag naming the missing piece instead of the formatted entity. `UnsupportedEntity` keeps only its location. `UnsupportedType` keeps a fixed text.
- The `ExtendTypesError` variant of `ParseError` (`lib/src/error.rs:45-46`) is left out, because no operation of the modelled layer turns a merge conflict into a `ParseError`. The conflict itself, `ConflictingTypes` from `Types::extend`, is modelled.
- `StructDecls.NewStruct`: for a record with no members, the source asks for the declaration a second time (`lib/src/types/struct_decl.rs:64`). The model uses the one declaration already read. A front end that answers differently the second time is not modelled.
- `TypeKinds.Size`, `TypeKinds.Alignment`: these take fuel instead of running unbounded. On a cyclic table the source does not terminate. Once the fuel is spent, the model answers `None`, the same answer as for a missing name. The fuel-monotonicity lemmas show that any size or alignment found is final.
- `StructDecls.GetField`, `TypeKinds.ExpandNamed`: these take fuel too. Running out is reported as `OutOfFuel`, which stops the search, so a later base is never consulted in place of an earlier one that could not be finished.
- `TypeKinds.Size`: sizes are unbounded naturals. The overflow of `usize` in `n * stride` is not modelled.
- `TypesTable.Types.Extend`: requires that the other table is not this one. The source takes the other table by value, so the two cannot alias.
- `TypesTable.Types.Extend`: its contract uses `old` and states the new entries and order via `ExtendWith`. The merge properties are proved as lemmas about `ExtendWith` for distinct incoming names, which a well-formed table always has.
