/** The error kinds the declaration constructors report (lib/src/error.rs). */
module Errors {
  /** The payload of a failed front-end layout query; its contents are opaque to the layer. */
  datatype QueryError = QueryError(reason: string)

  /** Which piece of the declaration tree was missing or of the wrong kind. */
  datatype AstIssue =
    | ExpectedRecord
    | RecordWithoutDeclaration
    | BaseSpecifierWithoutType
    | FieldDeclWithoutName
    | FieldDeclWithoutType
    | ExpectedEnumDecl
    | EnumDeclWithoutUnderlyingType
    | ExpectedEnumConstantDecl
    | EnumConstantDeclWithoutName
    | EnumConstantDeclWithoutValue

  datatype ParseError =
    | InvalidAst(issue: AstIssue)
    | UnsupportedType(message: string)
    | UnsupportedEntity(at: string)
    | Offsetof(fieldName: string, structName: string, offsetError: QueryError)
    | Sizeof(typeName: string, sizeError: QueryError)
    | Alignof(typeName: string, alignError: QueryError)
    | InvalidFields(fieldNames: seq<string>, structName: string)
}
