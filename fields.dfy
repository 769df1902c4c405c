/** Aggregate members (lib/src/types/field.rs). */
module Fields {
  import opened Wrappers
  import opened Ints
  import opened Errors
  import opened Environment
  import opened TypeKinds
  import opened FrontEnd

  /** `Field::new`: stores every part unchanged, so each accessor gives back what was stored. */
  function NewField(name: Option<string>, kind: TypeKind, constant: bool, volatile: bool, width: Option<uint8>): Field
  {
    Field(name, kind, constant, volatile, width)
  }

  /** Two fields are equal exactly when every part is: equality is structural. */
  lemma FieldEquality(f: Field, g: Field)
    ensures f == g <==>
      (f.name == g.name && f.kind == g.kind && f.constant == g.constant
       && f.volatile == g.volatile && f.bitFieldWidth == g.bitFieldWidth)
  {
  }

  /** Builds the field for a FieldDecl member. A member whose first child is
      anonymous (an unnamed nested aggregate) gets no name; any other member
      must have a name, and every member must have a type whose translation
      succeeds. The qualifiers come from the member's type. */
  function FieldFromEntity(e: FieldEntity): (r: Result<Field, ParseError>)
    ensures r.Ok? <==>
      (e.firstChildIsAnonymous == Some(true) || e.name.Some?) && e.fieldType.Some? && e.fieldType.value.kind.Ok?
    ensures r.Ok? ==>
      && r.value.name == (if e.firstChildIsAnonymous == Some(true) then None else e.name)
      && r.value.kind == e.fieldType.value.kind.value
      && r.value.constant == e.fieldType.value.isConstQualified
      && r.value.volatile == e.fieldType.value.isVolatileQualified
      && r.value.bitFieldWidth == e.bitFieldWidth
    ensures e.firstChildIsAnonymous != Some(true) && e.name.None? ==> r == Err(InvalidAst(FieldDeclWithoutName))
    ensures (e.firstChildIsAnonymous == Some(true) || e.name.Some?) && e.fieldType.None? ==>
      r == Err(InvalidAst(FieldDeclWithoutType))
  {
    var anonymous := if e.firstChildIsAnonymous.Some? then e.firstChildIsAnonymous.value else false;
    if !anonymous && e.name.None? then Err(InvalidAst(FieldDeclWithoutName))
    else
      var fieldName := if anonymous then None else e.name;
      if e.fieldType.None? then Err(InvalidAst(FieldDeclWithoutType))
      else
        var ty := e.fieldType.value;
        match ty.kind
        case Err(err) => Err(err)
        case Ok(kind) => Ok(NewField(fieldName, kind, ty.isConstQualified, ty.isVolatileQualified, e.bitFieldWidth))
  }

  /** A bit-field occupies its width rounded up to whole bytes; any other field
      occupies its kind's size. */
  function FieldSize(f: Field, env: Env, table: Table, fuel: nat): (r: Option<nat>)
    ensures f.bitFieldWidth.Some? ==> r.Some? && f.bitFieldWidth.value <= 8 * r.value < f.bitFieldWidth.value + 8
    ensures f.bitFieldWidth.None? ==> r == Size(f.kind, env, table, fuel)
  {
    if f.bitFieldWidth.Some? then Some((f.bitFieldWidth.value + 7) / 8) else Size(f.kind, env, table, fuel)
  }

  /** Bit-fields of widths 3, 5 and 2 each occupy one byte. */
  lemma BitFieldSizes(kind: TypeKind, env: Env, table: Table, fuel: nat)
    ensures FieldSize(Field(Some("a"), kind, false, false, Some(3)), env, table, fuel) == Some(1)
    ensures FieldSize(Field(Some("b"), kind, false, false, Some(5)), env, table, fuel) == Some(1)
    ensures FieldSize(Field(Some("c"), kind, false, false, Some(2)), env, table, fuel) == Some(1)
  {
  }

  /** A member pointing to its own struct (`struct Node { struct Node *next; }`)
      is one word, whatever the table holds and with no fuel at all. */
  lemma SelfReferentialPointerField(env: Env, table: Table)
    ensures FieldSize(Field(Some("next"), Pointer(Named("Node")), false, false, None), env, table, 0)
      == Some(Bytes(env.wordSize))
  {
  }
}
