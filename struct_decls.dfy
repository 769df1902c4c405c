/** Struct and class declarations (lib/src/types/struct_decl.rs): construction
    from the front end's record type, member offsets, and field lookup through
    base classes. */
module StructDecls {
  import opened Wrappers
  import opened Ints
  import opened Errors
  import opened Util
  import opened TypeKinds
  import opened FrontEnd
  import opened Fields
  import opened Records

  const RECORD_WITHOUT_FIELDS: string := "Record type without fields"

  /** The base-class names: the type name of every BaseSpecifier child, in
      child order; other children are skipped, and a BaseSpecifier without a
      type is an error. */
  function BaseTypeNames(children: seq<ChildEntity>): (r: Result<seq<string>, ParseError>)
    ensures r.Ok? <==> forall i | 0 <= i < |children| ::
      children[i].kind == BaseSpecifierEntity ==> children[i].typeName.Some?
    ensures r.Err? ==> r.error == InvalidAst(BaseSpecifierWithoutType)
    ensures r.Ok? ==> forall s | s in r.value :: exists i | 0 <= i < |children| ::
      children[i].kind == BaseSpecifierEntity && children[i].typeName == Some(s)
    ensures r.Ok? ==> forall i | 0 <= i < |children| ::
      children[i].kind == BaseSpecifierEntity ==> children[i].typeName.value in r.value
  {
    if |children| == 0 then Ok([])
    else
      var last := |children| - 1;
      var prefix := children[..last];
      assert forall i | 0 <= i < last :: prefix[i] == children[i];
      match BaseTypeNames(prefix)
      case Err(e) => Err(e)
      case Ok(names) =>
        var child := children[last];
        if child.kind != BaseSpecifierEntity then Ok(names)
        else if child.typeName.None? then Err(InvalidAst(BaseSpecifierWithoutType))
        else Ok(names + [child.typeName.value])
  }

  /** One child contributes its type name when it is a BaseSpecifier with a
      type, fails when it is one without a type, and contributes nothing
      otherwise. With `BaseTypeNamesConcat` this fixes the whole list, each
      base once and in child order. */
  lemma BaseTypeNamesSingle(c: ChildEntity)
    ensures c.kind != BaseSpecifierEntity ==> BaseTypeNames([c]) == Ok([])
    ensures c.kind == BaseSpecifierEntity && c.typeName.None? ==>
      BaseTypeNames([c]) == Err(InvalidAst(BaseSpecifierWithoutType))
    ensures c.kind == BaseSpecifierEntity && c.typeName.Some? ==>
      BaseTypeNames([c]) == Ok([c.typeName.value])
  {
    assert [c][..0] == [];
    if c.typeName.Some? {
      assert [] + [c.typeName.value] == [c.typeName.value];
    }
  }

  /** Base names keep child order: the names of a concatenation are the
      concatenated names. */
  lemma {:induction false} BaseTypeNamesConcat(a: seq<ChildEntity>, b: seq<ChildEntity>)
    ensures BaseTypeNames(a + b).Ok? <==> BaseTypeNames(a).Ok? && BaseTypeNames(b).Ok?
    ensures BaseTypeNames(a + b).Ok? ==> BaseTypeNames(a + b).value == BaseTypeNames(a).value + BaseTypeNames(b).value
    decreases |b|
  {
    if |b| > 0 {
      var last := |b| - 1;
      assert (a + b)[..|a + b| - 1] == a + b[..last];
      assert (a + b)[|a + b| - 1] == b[last];
      BaseTypeNamesConcat(a, b[..last]);
    } else {
      assert a + b == a;
    }
  }

  /** Builds one member: only FieldDecl members are supported; its bit offset
      is read first, then its field. */
  function StructFieldEntry(display: string, e: FieldEntity): Result<StructField, ParseError>
  {
    if e.kind != FieldDeclEntity then Err(UnsupportedEntity("struct/class " + display))
    else if e.offsetOfField.Err? then
      Err(Offsetof(if e.name.Some? then e.name.value else "", display, e.offsetOfField.error))
    else
      match FieldFromEntity(e)
      case Err(err) => Err(err)
      case Ok(f) => Ok(StructField(e.offsetOfField.value, f))
  }

  function StructFieldBuilder(display: string): FieldEntity -> Result<StructField, ParseError>
  {
    e => StructFieldEntry(display, e)
  }

  /** `StructDecl::new`, with the front end's answers given as `ty`. */
  function StructNew(name: Option<string>, ty: RecordType): Result<StructDecl, ParseError>
  {
    if !ty.isRecord then Err(InvalidAst(ExpectedRecord))
    else if ty.declaration.None? then Err(InvalidAst(RecordWithoutDeclaration))
    else
      var node := ty.declaration.value;
      match BaseTypeNames(node.children)
      case Err(e) => Err(e)
      case Ok(baseTypes) =>
        var display := DisplayName(name);
        if ty.fields.None? then Err(UnsupportedType(RECORD_WITHOUT_FIELDS))
        else
          var recordFields := ty.fields.value;
          var invalid := InvalidFieldNames(node.children);
          if |recordFields| == 0 && |invalid| > 0 then Err(InvalidFields(invalid, display))
          else
            match CollectResults(recordFields, StructFieldBuilder(display))
            case Err(e) => Err(e)
            case Ok(fields) =>
              match SizeOrFallback(ty.sizeOf, |recordFields| == 0, display)
              case Err(e) => Err(e)
              case Ok(size) =>
                match AlignmentOrFallback(ty.alignOf, |recordFields| == 0, display)
                case Err(e) => Err(e)
                case Ok(alignment) =>
                  Ok(StructDecl(name, baseTypes, fields, size, alignment, node.kind == ClassDeclEntity))
  }

  /** The first loop of `StructDecl::new`: pushes the type name of every
      BaseSpecifier child, returning on one without a type. */
  method CollectBaseTypes(children: seq<ChildEntity>) returns (r: Result<seq<string>, ParseError>)
    ensures r == BaseTypeNames(children)
  {
    var baseTypes: seq<string> := [];
    var i := 0;
    while i < |children|
      invariant 0 <= i <= |children|
      invariant BaseTypeNames(children[..i]) == Ok(baseTypes)
    {
      var child := children[i];
      assert children[..i + 1][..i] == children[..i];
      if child.kind == BaseSpecifierEntity {
        if child.typeName.None? {
          return Err(InvalidAst(BaseSpecifierWithoutType));
        }
        baseTypes := baseTypes + [child.typeName.value];
      }
      i := i + 1;
    }
    assert children[..i] == children;
    return Ok(baseTypes);
  }

  /** The second loop of `StructDecl::new`: builds every member in record
      order, returning on the first that fails. */
  method CollectStructFields(recordFields: seq<FieldEntity>, display: string) returns (r: Result<seq<StructField>, ParseError>)
    ensures r == CollectResults(recordFields, StructFieldBuilder(display))
  {
    var fields: seq<StructField> := [];
    var j := 0;
    while j < |recordFields|
      invariant 0 <= j <= |recordFields|
      invariant CollectResults(recordFields[..j], StructFieldBuilder(display)) == Ok(fields)
    {
      var field := recordFields[j];
      assert recordFields[..j + 1][..j] == recordFields[..j];
      assert forall k | 0 <= k < j :: recordFields[..j][k] == recordFields[k];
      match field.kind {
        case FieldDeclEntity =>
          if field.offsetOfField.Err? {
            CollectResultsFirstError(recordFields, StructFieldBuilder(display), j);
            return Err(Offsetof(if field.name.Some? then field.name.value else "", display, field.offsetOfField.error));
          }
          var offset := field.offsetOfField.value;
          var built := FieldFromEntity(field);
          if built.Err? {
            CollectResultsFirstError(recordFields, StructFieldBuilder(display), j);
            return Err(built.error);
          }
          fields := fields + [StructField(offset, built.value)];
        case _ =>
          CollectResultsFirstError(recordFields, StructFieldBuilder(display), j);
          return Err(UnsupportedEntity("struct/class " + display));
      }
      j := j + 1;
    }
    assert recordFields[..j] == recordFields;
    return Ok(fields);
  }

  /** `StructDecl::new` as the source runs it: the checks in order, the two
      loops, then the layout queries. */
  method NewStruct(name: Option<string>, ty: RecordType) returns (r: Result<StructDecl, ParseError>)
    ensures r == StructNew(name, ty)
  {
    if !ty.isRecord {
      return Err(InvalidAst(ExpectedRecord));
    }
    if ty.declaration.None? {
      return Err(InvalidAst(RecordWithoutDeclaration));
    }
    var node := ty.declaration.value;
    var bases := CollectBaseTypes(node.children);
    if bases.Err? {
      return Err(bases.error);
    }
    var baseTypes := bases.value;
    var isClass := node.kind == ClassDeclEntity;
    var display := DisplayName(name);
    if ty.fields.None? {
      return Err(UnsupportedType(RECORD_WITHOUT_FIELDS));
    }
    var recordFields := ty.fields.value;
    if |recordFields| == 0 {
      var invalid := InvalidFieldNames(node.children);
      if |invalid| > 0 {
        return Err(InvalidFields(invalid, display));
      }
    }
    var built := CollectStructFields(recordFields, display);
    if built.Err? {
      return Err(built.error);
    }
    var fields := built.value;

    var size: nat;
    if ty.sizeOf.Ok? {
      size := ty.sizeOf.value;
    } else if |recordFields| == 0 {
      size := 1;
    } else {
      return Err(Sizeof(display, ty.sizeOf.error));
    }
    var alignment: pos;
    if ty.alignOf.Ok? {
      alignment := ty.alignOf.value;
    } else if |recordFields| == 0 {
      alignment := 1;
    } else {
      return Err(Alignof(display, ty.alignOf.error));
    }
    return Ok(StructDecl(name, baseTypes, fields, size, alignment, isClass));
  }

  /** The checks before the member loop pass: a record type with a
      declaration, typed base specifiers, a member list, and no invalid
      FieldDecl children when that list is empty. */
  predicate MembersReached(ty: RecordType)
  {
    && ty.isRecord
    && ty.declaration.Some?
    && BaseTypeNames(ty.declaration.value.children).Ok?
    && ty.fields.Some?
    && !(|ty.fields.value| == 0 && |InvalidFieldNames(ty.declaration.value.children)| > 0)
  }

  /** The failures before the member loop, in the order the source checks them. */
  lemma StructNewHeaderErrors(name: Option<string>, ty: RecordType)
    ensures !ty.isRecord ==> StructNew(name, ty) == Err(InvalidAst(ExpectedRecord))
    ensures ty.isRecord && ty.declaration.None? ==> StructNew(name, ty) == Err(InvalidAst(RecordWithoutDeclaration))
    ensures ty.isRecord && ty.declaration.Some? && BaseTypeNames(ty.declaration.value.children).Err? ==>
      StructNew(name, ty) == Err(InvalidAst(BaseSpecifierWithoutType))
    ensures ty.isRecord && ty.declaration.Some? && BaseTypeNames(ty.declaration.value.children).Ok? && ty.fields.None? ==>
      StructNew(name, ty) == Err(UnsupportedType(RECORD_WITHOUT_FIELDS))
    ensures (ty.isRecord && ty.declaration.Some? && BaseTypeNames(ty.declaration.value.children).Ok?
             && ty.fields == Some([]) && |InvalidFieldNames(ty.declaration.value.children)| > 0) ==>
      StructNew(name, ty) == Err(InvalidFields(InvalidFieldNames(ty.declaration.value.children), DisplayName(name)))
    ensures StructNew(name, ty).Ok? ==> MembersReached(ty)
  {
  }

  /** The first member that cannot be built decides the error: a member that is
      not a FieldDecl is unsupported at `struct/class <name>`, a failed offset
      query is an Offsetof error naming member and struct, and otherwise the
      field's own error is reported. */
  lemma StructNewMemberError(name: Option<string>, ty: RecordType, i: nat)
    requires MembersReached(ty)
    requires i < |ty.fields.value|
    requires StructFieldEntry(DisplayName(name), ty.fields.value[i]).Err?
    requires forall j | 0 <= j < i :: StructFieldEntry(DisplayName(name), ty.fields.value[j]).Ok?
    ensures StructNew(name, ty) == Err(StructFieldEntry(DisplayName(name), ty.fields.value[i]).error)
    ensures ty.fields.value[i].kind != FieldDeclEntity ==>
      StructNew(name, ty) == Err(UnsupportedEntity("struct/class " + DisplayName(name)))
    ensures ty.fields.value[i].kind == FieldDeclEntity && ty.fields.value[i].offsetOfField.Err? ==>
      StructNew(name, ty).error.Offsetof? && StructNew(name, ty).error.structName == DisplayName(name)
  {
    CollectResultsFirstError(ty.fields.value, StructFieldBuilder(DisplayName(name)), i);
  }

  /** A failed size or alignment query is tolerated, as 1, only for a record
      without fields; for any other record it fails naming the record. */
  lemma StructNewLayoutQueries(name: Option<string>, ty: RecordType)
    requires MembersReached(ty)
    requires forall j | 0 <= j < |ty.fields.value| :: StructFieldEntry(DisplayName(name), ty.fields.value[j]).Ok?
    ensures ty.fields.value != [] && ty.sizeOf.Err? ==>
      StructNew(name, ty) == Err(Sizeof(DisplayName(name), ty.sizeOf.error))
    ensures ty.fields.value != [] && ty.sizeOf.Ok? && ty.alignOf.Err? ==>
      StructNew(name, ty) == Err(Alignof(DisplayName(name), ty.alignOf.error))
    ensures ty.fields.value == [] ==> StructNew(name, ty).Ok?
    ensures ty.sizeOf.Ok? && ty.alignOf.Ok? ==> StructNew(name, ty).Ok?
  {
    var r := CollectResults(ty.fields.value, StructFieldBuilder(DisplayName(name)));
    assert r.Ok?;
  }

  /** What a successful construction holds: the given name, the base names in
      child order, one member per record member in record order with its
      offset and field, the queried layout or 1 for a record without fields,
      `is_class` exactly for a ClassDecl node, and a forward declaration
      exactly when the record has no members. */
  lemma StructNewSuccess(name: Option<string>, ty: RecordType)
    requires StructNew(name, ty).Ok?
    ensures MembersReached(ty)
    ensures var d, rf := StructNew(name, ty).value, ty.fields.value;
      && d.name == name
      && d.isClass == (ty.declaration.value.kind == ClassDeclEntity)
      && d.baseTypes == BaseTypeNames(ty.declaration.value.children).value
      && |d.fields| == |rf|
      && (forall i | 0 <= i < |rf| ::
            rf[i].kind == FieldDeclEntity && rf[i].offsetOfField.Ok? && FieldFromEntity(rf[i]).Ok?
            && d.fields[i] == StructField(rf[i].offsetOfField.value, FieldFromEntity(rf[i]).value))
      && d.size == (if ty.sizeOf.Ok? then ty.sizeOf.value else 1)
      && d.alignment == (if ty.alignOf.Ok? then ty.alignOf.value else 1)
      && (ty.sizeOf.Err? || ty.alignOf.Err? ==> rf == [])
      && (IsForwardDecl(Struct(d)) <==> rf == [])
  {
    var display := DisplayName(name);
    var rf := ty.fields.value;
    assert BaseTypeNames(ty.declaration.value.children).Ok?;
    var r := CollectResults(rf, StructFieldBuilder(display));
    assert r.Ok?;
    assert StructNew(name, ty).value.fields == r.value;
    forall i | 0 <= i < |rf|
      ensures StructFieldBuilder(display)(rf[i]) == StructFieldEntry(display, rf[i])
    {
    }
  }

  /** A struct or class is a forward declaration exactly when it has no fields. */
  lemma StructForwardDecl(d: StructDecl)
    ensures IsForwardDecl(Struct(d)) <==> d.fields == []
    ensures IsForwardDecl(Class(d)) <==> d.fields == []
  {
  }

  /** The byte offset is the bit offset rounded down to whole bytes. */
  function OffsetBytes(f: StructField): (bytes: nat)
    ensures 8 * bytes <= f.offset < 8 * bytes + 8
  {
    f.offset / 8
  }

  function OffsetBits(f: StructField): nat
  {
    f.offset
  }

  /** Bit offsets 0, 3 and 8 (three packed bit-fields) are byte offsets 0, 0 and 1. */
  lemma PackedBitFieldOffsets(a: Field, b: Field, c: Field)
    ensures OffsetBytes(StructField(0, a)) == 0 && OffsetBits(StructField(0, a)) == 0
    ensures OffsetBytes(StructField(3, b)) == 0 && OffsetBits(StructField(3, b)) == 3
    ensures OffsetBytes(StructField(8, c)) == 1 && OffsetBits(StructField(8, c)) == 8
  {
  }

  /** A struct member occupies what its field occupies. */
  function StructFieldSize(f: StructField, env: Environment.Env, table: Table, fuel: nat): (r: Option<nat>)
    ensures f.field.bitFieldWidth.Some? ==>
      r.Some? && f.field.bitFieldWidth.value <= 8 * r.value < f.field.bitFieldWidth.value + 8
    ensures f.field.bitFieldWidth.None? ==> r == Size(f.field.kind, env, table, fuel)
  {
    FieldSize(f.field, env, table, fuel)
  }

  function HasName(name: string): StructField -> bool
  {
    (f: StructField) => f.field.name == Some(name)
  }

  /** `get_field`: the first own field with the name, else the first hit in the
      base classes. `Done(None)` means that neither the struct nor any base
      reachable from it has such a field; `OutOfFuel` means that the search
      needed more table lookups than the fuel allows, and it stops there rather
      than passing over the base it could not finish. Whatever it finds
      carries the name asked for. */
  function GetField(d: StructDecl, table: Table, name: string, fuel: nat): (r: Fueled<Option<StructField>>)
    ensures r.Done? && r.value.Some? ==> r.value.value.field.name == Some(name)
    decreases fuel, 1, 0
  {
    match FindFirst(d.fields, HasName(name))
    case Some(i) => Done(Some(d.fields[i]))
    case None => FieldInBases(d.baseTypes, table, name, fuel)
  }

  /** The search of one base. A base missing from the table is passed over
      without any lookup; otherwise the lookup costs one unit of fuel, the kind
      found is expanded through `Named` references, and a struct or class is
      searched in turn. Any other kind has no fields to offer. */
  function BaseField(base: string, table: Table, name: string, fuel: nat): (r: Fueled<Option<StructField>>)
    ensures r.Done? && r.value.Some? ==> r.value.value.field.name == Some(name)
    ensures base !in table ==> r == Done(None)
    ensures base in table && fuel == 0 ==> r == OutOfFuel
    decreases fuel, 0, 0
  {
    if base !in table then Done(None)
    else if fuel == 0 then OutOfFuel
    else
      match ExpandNamed(table[base], table, fuel - 1)
      case OutOfFuel => OutOfFuel
      case Done(Some(Struct(b))) => GetField(b, table, name, fuel - 1)
      case Done(Some(Class(b))) => GetField(b, table, name, fuel - 1)
      case Done(_) => Done(None)
  }

  /** Searches the bases in declared order and returns the first hit; a base
      that has no field of the name passes the search on to the next one. */
  function FieldInBases(bases: seq<string>, table: Table, name: string, fuel: nat): (r: Fueled<Option<StructField>>)
    ensures r.Done? && r.value.Some? ==> r.value.value.field.name == Some(name)
    decreases fuel, 0, |bases|
  {
    if |bases| == 0 then Done(None)
    else
      var hit := BaseField(bases[0], table, name, fuel);
      if hit == Done(None) then FieldInBases(bases[1..], table, name, fuel) else hit
  }

  /** Own fields come first: the first own field with the name is returned,
      whatever the bases and the table hold; with no such field the bases decide. */
  lemma GetFieldOwnFirst(d: StructDecl, table: Table, name: string, fuel: nat)
    ensures forall i | 0 <= i < |d.fields| ::
      d.fields[i].field.name == Some(name) && (forall j | 0 <= j < i :: d.fields[j].field.name != Some(name)) ==>
      GetField(d, table, name, fuel) == Done(Some(d.fields[i]))
    ensures (forall i | 0 <= i < |d.fields| :: d.fields[i].field.name != Some(name)) ==>
      GetField(d, table, name, fuel) == FieldInBases(d.baseTypes, table, name, fuel)
  {
    var found := FindFirst(d.fields, HasName(name));
    forall i | 0 <= i < |d.fields| ensures HasName(name)(d.fields[i]) == (d.fields[i].field.name == Some(name)) {
    }
  }

  /** An earlier base always wins over a later one: searching `a + b` is
      searching `a`, then `b` only when `a` completes without a hit. */
  lemma {:induction false} FieldInBasesConcat(a: seq<string>, b: seq<string>, table: Table, name: string, fuel: nat)
    ensures FieldInBases(a + b, table, name, fuel) ==
      (if FieldInBases(a, table, name, fuel) == Done(None) then FieldInBases(b, table, name, fuel)
       else FieldInBases(a, table, name, fuel))
    decreases |a|
  {
    if |a| == 0 {
      assert a + b == b;
    } else {
      assert (a + b)[0] == a[0] && (a + b)[1..] == a[1..] + b;
      FieldInBasesConcat(a[1..], b, table, name, fuel);
    }
  }

  /** A base missing from the table, or one that resolves to a kind that is
      not a struct or class, is skipped; a base that cannot be resolved with
      the fuel left stops the search. */
  lemma FieldInBasesSkips(base: string, rest: seq<string>, table: Table, name: string, fuel: nat)
    ensures base !in table ==> FieldInBases([base] + rest, table, name, fuel) == FieldInBases(rest, table, name, fuel)
    ensures (base in table && fuel > 0 &&
             var e := ExpandNamed(table[base], table, fuel - 1);
             e.Done? && !(e.value.Some? && (e.value.value.Struct? || e.value.value.Class?))) ==>
      FieldInBases([base] + rest, table, name, fuel) == FieldInBases(rest, table, name, fuel)
    ensures base in table && (fuel == 0 || ExpandNamed(table[base], table, fuel - 1) == OutOfFuel) ==>
      FieldInBases([base] + rest, table, name, fuel) == OutOfFuel
  {
    assert ([base] + rest)[0] == base && ([base] + rest)[1..] == rest;
  }

  /** A base that resolves, after its one lookup, to a struct or class is
      searched as that declaration with the fuel left; when that search
      completes without a hit, the next base is tried. */
  lemma BaseFieldResolves(base: string, rest: seq<string>, table: Table, name: string, fuel: nat, b: StructDecl)
    requires base in table && fuel > 0
    requires ExpandNamed(table[base], table, fuel - 1) in {Done(Some(Struct(b))), Done(Some(Class(b)))}
    ensures BaseField(base, table, name, fuel) == GetField(b, table, name, fuel - 1)
    ensures FieldInBases([base] + rest, table, name, fuel) ==
      (if GetField(b, table, name, fuel - 1) == Done(None) then FieldInBases(rest, table, name, fuel)
       else GetField(b, table, name, fuel - 1))
  {
    assert ([base] + rest)[0] == base && ([base] + rest)[1..] == rest;
  }

  /** A derived struct without a field of that name finds it in its base, and
      what it finds is the base's own member, kind and offset included. */
  lemma DerivedFindsBaseField(d: StructDecl, base: StructDecl, baseName: string, table: Table, name: string, fuel: nat)
    requires forall i | 0 <= i < |d.fields| :: d.fields[i].field.name != Some(name)
    requires |d.baseTypes| > 0 && d.baseTypes[0] == baseName
    requires baseName in table && (table[baseName] == Struct(base) || table[baseName] == Class(base))
    requires GetField(base, table, name, fuel).Done? && GetField(base, table, name, fuel).value.Some?
    ensures GetField(d, table, name, fuel + 1) == GetField(base, table, name, fuel)
  {
    GetFieldOwnFirst(d, table, name, fuel + 1);
  }

  /** Fuel only bounds the search: once it completes, more fuel completes it
      with the same answer, so a field found is the field the unbounded search
      finds, and a completed miss is a miss for any fuel. */
  lemma {:induction false} GetFieldFuelMonotone(d: StructDecl, table: Table, name: string, f: nat, g: nat)
    requires f <= g && GetField(d, table, name, f).Done?
    ensures GetField(d, table, name, g) == GetField(d, table, name, f)
    decreases f, 1, 0
  {
    if FindFirst(d.fields, HasName(name)).None? {
      FieldInBasesFuelMonotone(d.baseTypes, table, name, f, g);
    }
  }

  lemma {:induction false} BaseFieldFuelMonotone(base: string, table: Table, name: string, f: nat, g: nat)
    requires f <= g && BaseField(base, table, name, f).Done?
    ensures BaseField(base, table, name, g) == BaseField(base, table, name, f)
    decreases f, 0, 0
  {
    if base in table {
      ExpandNamedFuelMonotone(table[base], table, f - 1, g - 1);
      match ExpandNamed(table[base], table, f - 1)
      case Done(Some(Struct(b))) => GetFieldFuelMonotone(b, table, name, f - 1, g - 1);
      case Done(Some(Class(b))) => GetFieldFuelMonotone(b, table, name, f - 1, g - 1);
      case _ =>
    }
  }

  lemma {:induction false} FieldInBasesFuelMonotone(bases: seq<string>, table: Table, name: string, f: nat, g: nat)
    requires f <= g && FieldInBases(bases, table, name, f).Done?
    ensures FieldInBases(bases, table, name, g) == FieldInBases(bases, table, name, f)
    decreases f, 0, |bases|
  {
    if |bases| > 0 {
      BaseFieldFuelMonotone(bases[0], table, name, f, g);
      if BaseField(bases[0], table, name, f) == Done(None) {
        FieldInBasesFuelMonotone(bases[1..], table, name, f, g);
      }
    }
  }

  function BaseStruct(): StructDecl
  {
    StructDecl(Some("Base"), [], [StructField(0, Field(Some("baseValue"), S32, false, false, None))], 4, 4, false)
  }

  function DerivedStruct(): StructDecl
  {
    StructDecl(Some("Derived"), ["Base"], [StructField(32, Field(Some("derivedValue"), S32, false, false, None))], 8, 4, false)
  }

  function InheritanceTable(): Table
  {
    map["Base" := Struct(BaseStruct()), "Derived" := Struct(DerivedStruct())]
  }

  /** `Derived : Base`, each with one `int` member: the derived struct finds
      its own member, at byte 4, without any lookup. */
  lemma InheritanceOwnField()
    ensures GetField(DerivedStruct(), InheritanceTable(), "derivedValue", 0) == Done(Some(DerivedStruct().fields[0]))
    ensures OffsetBytes(DerivedStruct().fields[0]) == 4
  {
    GetFieldOwnFirst(DerivedStruct(), InheritanceTable(), "derivedValue", 0);
  }

  /** It finds the base's member, an S32 at offset 0, through one table lookup. */
  lemma InheritanceBaseField()
    ensures GetField(DerivedStruct(), InheritanceTable(), "baseValue", 1) == Done(Some(BaseStruct().fields[0]))
    ensures BaseStruct().fields[0].field.kind == S32 && BaseStruct().fields[0].offset == 0
  {
    GetFieldOwnFirst(BaseStruct(), InheritanceTable(), "baseValue", 0);
    DerivedFindsBaseField(DerivedStruct(), BaseStruct(), "Base", InheritanceTable(), "baseValue", 0);
  }

  /** A name that neither struct declares is not found. */
  lemma InheritanceMissingField()
    ensures GetField(DerivedStruct(), InheritanceTable(), "missing", 1) == Done(None)
  {
    var table := InheritanceTable();
    GetFieldOwnFirst(DerivedStruct(), table, "missing", 1);
    GetFieldOwnFirst(BaseStruct(), table, "missing", 0);
    assert FieldInBases([], table, "missing", 0) == Done(None);
    assert FieldInBases(["Base"], table, "missing", 1) == FieldInBases([], table, "missing", 1);
  }

  function Member(name: string, kind: TypeKind): StructField
  {
    StructField(0, Field(Some(name), kind, false, false, None))
  }

  function Plain(name: string, bases: seq<string>, fields: seq<StructField>): StructDecl
  {
    StructDecl(Some(name), bases, fields, 8, 8, false)
  }

  /** `Deep` derives from `Mid`, which derives from `Root`, the only one with
      an `x : int`; `Wide` has an `x : long`; `Join : Deep, Wide`. */
  function ChainTable(): Table
  {
    map[
      "Root" := Struct(Plain("Root", [], [Member("x", S32)])),
      "Mid" := Struct(Plain("Mid", ["Root"], [])),
      "Deep" := Struct(Plain("Deep", ["Mid"], [])),
      "Wide" := Struct(Plain("Wide", [], [Member("x", S64)]))]
  }

  function RootStruct(): StructDecl { Plain("Root", [], [Member("x", S32)]) }
  function JoinStruct(): StructDecl { Plain("Join", ["Deep", "Wide"], []) }

  lemma MidFindsRoot()
    ensures FieldInBases(["Root"], ChainTable(), "x", 1) == Done(Some(Member("x", S32)))
  {
    var t := ChainTable();
    GetFieldOwnFirst(RootStruct(), t, "x", 0);
    assert t["Root"] == Struct(RootStruct());
    assert BaseField("Root", t, "x", 1) == Done(Some(Member("x", S32)));
  }

  lemma DeepChainResolves()
    ensures GetField(Plain("Deep", ["Mid"], []), ChainTable(), "x", 2) == Done(Some(Member("x", S32)))
  {
    var t := ChainTable();
    MidFindsRoot();
    assert t["Mid"] == Struct(Plain("Mid", ["Root"], []));
    assert BaseField("Mid", t, "x", 2) == Done(Some(Member("x", S32)));
    assert FieldInBases(["Mid"], t, "x", 2) == Done(Some(Member("x", S32)));
  }

  /** The first base's chain decides, however deep it is: `Join` finds
      `Root`'s `x` with enough fuel, and with any more, never `Wide`'s. */
  lemma DeepBaseWins(g: nat)
    requires g >= 3
    ensures GetField(JoinStruct(), ChainTable(), "x", g) == Done(Some(Member("x", S32)))
  {
    var t := ChainTable();
    DeepChainResolves();
    assert t["Deep"] == Struct(Plain("Deep", ["Mid"], []));
    assert BaseField("Deep", t, "x", 3) == Done(Some(Member("x", S32)));
    assert FieldInBases(JoinStruct().baseTypes, t, "x", 3) == Done(Some(Member("x", S32)));
    GetFieldFuelMonotone(JoinStruct(), t, "x", 3, g);
  }

  /** With too little fuel to reach `Root`, the search stops instead of
      answering with `Wide`'s field. */
  lemma ShallowFuelStops()
    ensures GetField(JoinStruct(), ChainTable(), "x", 1) == OutOfFuel
  {
    var t := ChainTable();
    assert t["Deep"] == Struct(Plain("Deep", ["Mid"], []));
    assert BaseField("Mid", t, "x", 0) == OutOfFuel;
    assert FieldInBases(["Mid"], t, "x", 0) == OutOfFuel;
    assert BaseField("Deep", t, "x", 1) == OutOfFuel;
    assert FieldInBases(JoinStruct().baseTypes, t, "x", 1) == OutOfFuel;
  }
}
