/** Union declarations (lib/src/types/union_decl.rs): construction from the
    front end's record type and lookup of a member by name. */
module UnionDecls {
  import opened Wrappers
  import opened Ints
  import opened Errors
  import opened Util
  import opened TypeKinds
  import opened FrontEnd
  import opened Fields
  import opened Records

  const RECORD_WITHOUT_FIELDS: string := "Record type without fields"

  /** Builds one member: only FieldDecl members are supported. */
  function UnionFieldEntry(display: string, e: FieldEntity): Result<Field, ParseError>
  {
    if e.kind != FieldDeclEntity then Err(UnsupportedEntity("union " + display))
    else FieldFromEntity(e)
  }

  function UnionFieldBuilder(display: string): FieldEntity -> Result<Field, ParseError>
  {
    e => UnionFieldEntry(display, e)
  }

  /** `UnionDecl::new`, with the front end's answers given as `ty`. Unlike a
      struct, the declaration is only consulted when the record has no
      members, and no base specifiers are read. */
  function UnionNew(name: Option<string>, ty: RecordType): Result<UnionDecl, ParseError>
  {
    if !ty.isRecord then Err(InvalidAst(ExpectedRecord))
    else
      var display := DisplayName(name);
      if ty.fields.None? then Err(UnsupportedType(RECORD_WITHOUT_FIELDS))
      else
        var recordFields := ty.fields.value;
        if |recordFields| == 0 && ty.declaration.None? then Err(InvalidAst(RecordWithoutDeclaration))
        else if |recordFields| == 0 && |InvalidFieldNames(ty.declaration.value.children)| > 0 then
          Err(InvalidFields(InvalidFieldNames(ty.declaration.value.children), display))
        else
          match CollectResults(recordFields, UnionFieldBuilder(display))
          case Err(e) => Err(e)
          case Ok(fields) =>
            match SizeOrFallback(ty.sizeOf, |recordFields| == 0, display)
            case Err(e) => Err(e)
            case Ok(size) =>
              match AlignmentOrFallback(ty.alignOf, |recordFields| == 0, display)
              case Err(e) => Err(e)
              case Ok(alignment) => Ok(UnionDecl(name, fields, size, alignment))
  }

  /** The loop of `UnionDecl::new`: builds every member in record order,
      returning on the first that fails. */
  method CollectUnionFields(recordFields: seq<FieldEntity>, display: string) returns (r: Result<seq<Field>, ParseError>)
    ensures r == CollectResults(recordFields, UnionFieldBuilder(display))
  {
    var fields: seq<Field> := [];
    var j := 0;
    while j < |recordFields|
      invariant 0 <= j <= |recordFields|
      invariant CollectResults(recordFields[..j], UnionFieldBuilder(display)) == Ok(fields)
    {
      var field := recordFields[j];
      assert recordFields[..j + 1][..j] == recordFields[..j];
      assert forall k | 0 <= k < j :: recordFields[..j][k] == recordFields[k];
      match field.kind {
        case FieldDeclEntity =>
          var built := FieldFromEntity(field);
          if built.Err? {
            CollectResultsFirstError(recordFields, UnionFieldBuilder(display), j);
            return Err(built.error);
          }
          fields := fields + [built.value];
        case _ =>
          CollectResultsFirstError(recordFields, UnionFieldBuilder(display), j);
          return Err(UnsupportedEntity("union " + display));
      }
      j := j + 1;
    }
    assert recordFields[..j] == recordFields;
    return Ok(fields);
  }

  /** `UnionDecl::new` as the source runs it: the checks in order, the
      member loop, then the layout queries. */
  method NewUnion(name: Option<string>, ty: RecordType) returns (r: Result<UnionDecl, ParseError>)
    ensures r == UnionNew(name, ty)
  {
    if !ty.isRecord {
      return Err(InvalidAst(ExpectedRecord));
    }
    var display := DisplayName(name);
    if ty.fields.None? {
      return Err(UnsupportedType(RECORD_WITHOUT_FIELDS));
    }
    var recordFields := ty.fields.value;
    if |recordFields| == 0 {
      if ty.declaration.None? {
        return Err(InvalidAst(RecordWithoutDeclaration));
      }
      var invalid := InvalidFieldNames(ty.declaration.value.children);
      if |invalid| > 0 {
        return Err(InvalidFields(invalid, display));
      }
    }

    var built := CollectUnionFields(recordFields, display);
    if built.Err? {
      return Err(built.error);
    }
    var fields := built.value;

    var size: nat;
    if ty.sizeOf.Ok? {
      size := ty.sizeOf.value;
    } else if |recordFields| == 0 {
      size := 1;
    } else {
      return Err(Sizeof(display, ty.sizeOf.error));
    }
    var alignment: pos;
    if ty.alignOf.Ok? {
      alignment := ty.alignOf.value;
    } else if |recordFields| == 0 {
      alignment := 1;
    } else {
      return Err(Alignof(display, ty.alignOf.error));
    }
    return Ok(UnionDecl(name, fields, size, alignment));
  }

  /** The checks before the member loop pass. */
  predicate MembersReached(ty: RecordType)
  {
    && ty.isRecord
    && ty.fields.Some?
    && (|ty.fields.value| == 0 ==>
          ty.declaration.Some? && |InvalidFieldNames(ty.declaration.value.children)| == 0)
  }

  /** The failures before the member loop, in the order the source checks them. */
  lemma UnionNewHeaderErrors(name: Option<string>, ty: RecordType)
    ensures !ty.isRecord ==> UnionNew(name, ty) == Err(InvalidAst(ExpectedRecord))
    ensures ty.isRecord && ty.fields.None? ==> UnionNew(name, ty) == Err(UnsupportedType(RECORD_WITHOUT_FIELDS))
    ensures ty.isRecord && ty.fields == Some([]) && ty.declaration.None? ==>
      UnionNew(name, ty) == Err(InvalidAst(RecordWithoutDeclaration))
    ensures (ty.isRecord && ty.fields == Some([]) && ty.declaration.Some?
             && |InvalidFieldNames(ty.declaration.value.children)| > 0) ==>
      UnionNew(name, ty) == Err(InvalidFields(InvalidFieldNames(ty.declaration.value.children), DisplayName(name)))
    ensures UnionNew(name, ty).Ok? ==> MembersReached(ty)
  {
  }

  /** A union with members never looks at its declaration: only the member
      list and the layout queries count. */
  lemma UnionNewIgnoresDeclaration(name: Option<string>, ty: RecordType, node: Option<RecordNode>)
    requires ty.fields.Some? && |ty.fields.value| > 0
    ensures UnionNew(name, ty) == UnionNew(name, ty.(declaration := node))
  {
  }

  /** The first member that cannot be built decides the error: a member that
      is not a FieldDecl is unsupported at `union <name>`, and otherwise the
      field's own error is reported. */
  lemma UnionNewMemberError(name: Option<string>, ty: RecordType, i: nat)
    requires MembersReached(ty)
    requires i < |ty.fields.value|
    requires UnionFieldEntry(DisplayName(name), ty.fields.value[i]).Err?
    requires forall j | 0 <= j < i :: UnionFieldEntry(DisplayName(name), ty.fields.value[j]).Ok?
    ensures ty.fields.value[i].kind != FieldDeclEntity ==>
      UnionNew(name, ty) == Err(UnsupportedEntity("union " + DisplayName(name)))
    ensures ty.fields.value[i].kind == FieldDeclEntity ==>
      UnionNew(name, ty) == Err(FieldFromEntity(ty.fields.value[i]).error)
  {
    CollectResultsFirstError(ty.fields.value, UnionFieldBuilder(DisplayName(name)), i);
  }

  /** A failed size or alignment query is tolerated, as 1, only for a union
      without members; for any other union it fails naming the union. */
  lemma UnionNewLayoutQueries(name: Option<string>, ty: RecordType)
    requires MembersReached(ty)
    requires forall j | 0 <= j < |ty.fields.value| :: UnionFieldEntry(DisplayName(name), ty.fields.value[j]).Ok?
    ensures ty.fields.value != [] && ty.sizeOf.Err? ==>
      UnionNew(name, ty) == Err(Sizeof(DisplayName(name), ty.sizeOf.error))
    ensures ty.fields.value != [] && ty.sizeOf.Ok? && ty.alignOf.Err? ==>
      UnionNew(name, ty) == Err(Alignof(DisplayName(name), ty.alignOf.error))
    ensures ty.fields.value == [] ==> UnionNew(name, ty).Ok?
    ensures ty.sizeOf.Ok? && ty.alignOf.Ok? ==> UnionNew(name, ty).Ok?
  {
    var r := CollectResults(ty.fields.value, UnionFieldBuilder(DisplayName(name)));
    assert r.Ok?;
  }

  /** What a successful construction holds: the given name, one field per
      record member in record order, and the queried layout or 1 for a
      union without members. */
  lemma UnionNewSuccess(name: Option<string>, ty: RecordType)
    requires UnionNew(name, ty).Ok?
    ensures MembersReached(ty)
    ensures var u, rf := UnionNew(name, ty).value, ty.fields.value;
      && UnionName(u) == name
      && |u.fields| == |rf|
      && (forall i | 0 <= i < |rf| ::
            rf[i].kind == FieldDeclEntity && FieldFromEntity(rf[i]) == Ok(u.fields[i]))
      && UnionSize(u) == (if ty.sizeOf.Ok? then ty.sizeOf.value else 1)
      && UnionAlignment(u) == (if ty.alignOf.Ok? then ty.alignOf.value else 1)
      && (ty.sizeOf.Err? || ty.alignOf.Err? ==> rf == [])
  {
    var display := DisplayName(name);
    var r := CollectResults(ty.fields.value, UnionFieldBuilder(display));
    assert r.Ok?;
    forall i | 0 <= i < |ty.fields.value|
      ensures UnionFieldBuilder(display)(ty.fields.value[i]) == UnionFieldEntry(display, ty.fields.value[i])
    {
    }
  }

  /** An anonymous member of a constructed union has no name, so no lookup
      returns it. */
  lemma AnonymousMemberUnnamed(name: Option<string>, ty: RecordType, i: nat)
    requires UnionNew(name, ty).Ok?
    requires i < |ty.fields.value| && ty.fields.value[i].firstChildIsAnonymous == Some(true)
    ensures |UnionNew(name, ty).value.fields| == |ty.fields.value|
    ensures UnionNew(name, ty).value.fields[i].name.None?
    ensures forall query: string :: UnionGetField(UnionNew(name, ty).value, query) != Some(UnionNew(name, ty).value.fields[i])
  {
    UnionNewSuccess(name, ty);
  }

  /** The accessors return what construction stored. */
  function UnionName(u: UnionDecl): Option<string>
  {
    u.name
  }

  function UnionSize(u: UnionDecl): nat
  {
    u.size
  }

  function UnionAlignment(u: UnionDecl): pos
  {
    u.alignment
  }

  function HasName(name: string): Field -> bool
  {
    (f: Field) => f.name == Some(name)
  }

  /** `get_field`: the first member in declaration order with the name; a
      union has no bases, so nothing else is searched. */
  function UnionGetField(u: UnionDecl, name: string): (r: Option<Field>)
    ensures r.Some? ==> r.value.name == Some(name)
    ensures r.Some? ==> exists i | 0 <= i < |u.fields| ::
      u.fields[i] == r.value && forall j | 0 <= j < i :: u.fields[j].name != Some(name)
    ensures r.None? <==> forall i | 0 <= i < |u.fields| :: u.fields[i].name != Some(name)
  {
    var found := FindFirst(u.fields, HasName(name));
    assert forall i | 0 <= i < |u.fields| :: HasName(name)(u.fields[i]) == (u.fields[i].name == Some(name));
    match found
    case Some(i) => Some(u.fields[i])
    case None => None
  }
}
