/** What the declaration constructors read from the C/C++ front end, given as
    plain values: entity kinds, names, children, qualifier flags, the already
    translated kind of a type, and the answers of the sizeof, alignof and
    offsetof queries, each of which may fail. */
module FrontEnd {
  import opened Wrappers
  import opened Ints
  import opened Errors
  import opened TypeKinds

  datatype EntityKind =
    | BaseSpecifierEntity
    | FieldDeclEntity
    | StructDeclEntity
    | ClassDeclEntity
    | UnionDeclEntity
    | EnumDeclEntity
    | EnumConstantDeclEntity
    | OtherEntity(kindName: string)

  /** A type handle: its translation into a `TypeKind` (which may fail) and its
      const/volatile qualifier flags. */
  datatype TypeHandle = TypeHandle(
    kind: Result<TypeKind, ParseError>,
    isConstQualified: bool,
    isVolatileQualified: bool)

  /** A child of a record's declaration node. `typeName` is the display name of
      the child's type, None when it has none. */
  datatype ChildEntity = ChildEntity(
    kind: EntityKind,
    name: Option<string>,
    typeName: Option<string>,
    isInvalidDeclaration: bool)

  /** A member of a record type. `firstChildIsAnonymous` is None when the member
      has no child, else whether its first child is an anonymous declaration. */
  datatype FieldEntity = FieldEntity(
    kind: EntityKind,
    name: Option<string>,
    firstChildIsAnonymous: Option<bool>,
    fieldType: Option<TypeHandle>,
    bitFieldWidth: Option<uint8>,
    offsetOfField: Result<nat, QueryError>)

  datatype RecordNode = RecordNode(kind: EntityKind, children: seq<ChildEntity>)

  /** A record type: whether its type kind is Record, its declaration node, its
      member list (None when the front end gives none) and its layout queries. */
  datatype RecordType = RecordType(
    isRecord: bool,
    declaration: Option<RecordNode>,
    fields: Option<seq<FieldEntity>>,
    sizeOf: Result<nat, QueryError>,
    alignOf: Result<pos, QueryError>)

  datatype EnumChild = EnumChild(kind: EntityKind, name: Option<string>, value: Option<int64>)

  /** An enum declaration node: its kind, the size query of its underlying
      integer type (None when there is no underlying type) and its children. */
  datatype EnumNode = EnumNode(
    kind: EntityKind,
    underlyingSize: Option<Result<pos, QueryError>>,
    children: seq<EnumChild>)
}
