/** Enum declarations (lib/src/types/enum_decl.rs): construction from the
    front end's enum node, layout, and lookup of constants. */
module EnumDecls {
  import opened Wrappers
  import opened Ints
  import opened Errors
  import opened Util
  import opened TypeKinds
  import opened FrontEnd

  /** One constant: the child must be an EnumConstantDecl with a name and a value. */
  function EnumConstantOf(c: EnumChild): (r: Result<EnumConstant, ParseError>)
    ensures r.Ok? <==> c.kind == EnumConstantDeclEntity && c.name.Some? && c.value.Some?
    ensures r.Ok? ==> r.value == EnumConstant(c.name.value, c.value.value)
    ensures r.Err? ==> r.error.InvalidAst?
  {
    if c.kind != EnumConstantDeclEntity then Err(InvalidAst(ExpectedEnumConstantDecl))
    else if c.name.None? then Err(InvalidAst(EnumConstantDeclWithoutName))
    else if c.value.None? then Err(InvalidAst(EnumConstantDeclWithoutValue))
    else Ok(EnumConstant(c.name.value, c.value.value))
  }

  function EnumConstantBuilder(): EnumChild -> Result<EnumConstant, ParseError>
  {
    c => EnumConstantOf(c)
  }

  /** `EnumDecl::new`: the node must be an EnumDecl with an underlying integer
      type whose size query succeeds; then every child becomes a constant. */
  function EnumNew(name: string, node: EnumNode): Result<EnumDecl, ParseError>
  {
    if node.kind != EnumDeclEntity then Err(InvalidAst(ExpectedEnumDecl))
    else if node.underlyingSize.None? then Err(InvalidAst(EnumDeclWithoutUnderlyingType))
    else if node.underlyingSize.value.Err? then Err(Sizeof(name, node.underlyingSize.value.error))
    else
      match CollectResults(node.children, EnumConstantBuilder())
      case Err(e) => Err(e)
      case Ok(constants) => Ok(EnumDecl(name, constants, node.underlyingSize.value.value))
  }

  /** `EnumDecl::new` as the source runs it: one loop pushes the constants,
      returning on the first bad child. */
  method NewEnum(name: string, node: EnumNode) returns (r: Result<EnumDecl, ParseError>)
    ensures r == EnumNew(name, node)
  {
    if node.kind != EnumDeclEntity {
      return Err(InvalidAst(ExpectedEnumDecl));
    }
    if node.underlyingSize.None? {
      return Err(InvalidAst(EnumDeclWithoutUnderlyingType));
    }
    if node.underlyingSize.value.Err? {
      return Err(Sizeof(name, node.underlyingSize.value.error));
    }
    var size := node.underlyingSize.value.value;
    var children := node.children;
    var constants: seq<EnumConstant> := [];
    var i := 0;
    while i < |children|
      invariant 0 <= i <= |children|
      invariant CollectResults(children[..i], EnumConstantBuilder()) == Ok(constants)
    {
      var child := children[i];
      assert children[..i + 1][..i] == children[..i];
      assert forall k | 0 <= k < i :: children[..i][k] == children[k];
      if child.kind != EnumConstantDeclEntity {
        CollectResultsFirstError(children, EnumConstantBuilder(), i);
        return Err(InvalidAst(ExpectedEnumConstantDecl));
      }
      if child.name.None? {
        CollectResultsFirstError(children, EnumConstantBuilder(), i);
        return Err(InvalidAst(EnumConstantDeclWithoutName));
      }
      if child.value.None? {
        CollectResultsFirstError(children, EnumConstantBuilder(), i);
        return Err(InvalidAst(EnumConstantDeclWithoutValue));
      }
      constants := constants + [EnumConstant(child.name.value, child.value.value)];
      i := i + 1;
    }
    assert children[..i] == children;
    return Ok(EnumDecl(name, constants, size));
  }

  /** The failures of construction: the wrong node kind, a missing underlying
      type, a failed size query naming the enum, and any child that is not a
      complete constant, which fails the whole enum with `InvalidAst`. */
  lemma EnumNewErrors(name: string, node: EnumNode)
    ensures node.kind != EnumDeclEntity ==> EnumNew(name, node) == Err(InvalidAst(ExpectedEnumDecl))
    ensures node.kind == EnumDeclEntity && node.underlyingSize.None? ==>
      EnumNew(name, node) == Err(InvalidAst(EnumDeclWithoutUnderlyingType))
    ensures node.kind == EnumDeclEntity && node.underlyingSize.Some? && node.underlyingSize.value.Err? ==>
      EnumNew(name, node) == Err(Sizeof(name, node.underlyingSize.value.error))
    ensures (node.kind == EnumDeclEntity && node.underlyingSize.Some? && node.underlyingSize.value.Ok?
             && exists i | 0 <= i < |node.children| :: EnumConstantOf(node.children[i]).Err?) ==>
      EnumNew(name, node).Err? && EnumNew(name, node).error.InvalidAst?
  {
    if node.kind == EnumDeclEntity && node.underlyingSize.Some? && node.underlyingSize.value.Ok?
       && exists i | 0 <= i < |node.children| :: EnumConstantOf(node.children[i]).Err?
    {
      var r := CollectResults(node.children, EnumConstantBuilder());
      assert !(forall i | 0 <= i < |node.children| :: EnumConstantBuilder()(node.children[i]).Ok?);
      assert r.Err?;
      var k :| 0 <= k < |node.children| && EnumConstantBuilder()(node.children[k]) == Err(r.error);
    }
  }

  /** What a successful construction holds: the given name, the underlying
      type's size unchanged, and one constant per child in child order with its
      reported name and value. */
  lemma EnumNewSuccess(name: string, node: EnumNode)
    requires EnumNew(name, node).Ok?
    ensures var e := EnumNew(name, node).value;
      && node.kind == EnumDeclEntity
      && e.name == name
      && node.underlyingSize == Some(Ok(EnumSize(e)))
      && |e.constants| == |node.children|
      && forall i | 0 <= i < |node.children| ::
           node.children[i].kind == EnumConstantDeclEntity
           && node.children[i].name == Some(e.constants[i].name)
           && node.children[i].value == Some(e.constants[i].value)
  {
    var r := CollectResults(node.children, EnumConstantBuilder());
    assert r.Ok?;
    forall i | 0 <= i < |node.children|
      ensures EnumConstantBuilder()(node.children[i]) == EnumConstantOf(node.children[i])
    {
    }
  }

  /** `size`: the underlying type's size. */
  function EnumSize(e: EnumDecl): pos
  {
    e.size
  }

  /** `alignment`: an enum is aligned to its own size. */
  function EnumAlignment(e: EnumDecl): (r: pos)
    ensures r == EnumSize(e)
  {
    e.size
  }

  /** An enum's layout through `TypeKind` agrees with its own queries. */
  lemma EnumLayoutAgrees(e: EnumDecl, env: Environment.Env, table: Table, fuel: nat)
    ensures Size(Enum(e), env, table, fuel) == Some(EnumSize(e))
    ensures Alignment(Enum(e), env, table, fuel) == Some(EnumAlignment(e))
  {
  }

  function ConstantNamed(name: string): EnumConstant -> bool
  {
    (c: EnumConstant) => c.name == name
  }

  function ConstantValued(v: int64): EnumConstant -> bool
  {
    (c: EnumConstant) => c.value == v
  }

  /** `get`: the first constant with the name, None when no constant has it. */
  function GetConstant(e: EnumDecl, name: string): (r: Option<EnumConstant>)
    ensures r.Some? ==> r.value.name == name && exists i | 0 <= i < |e.constants| ::
      e.constants[i] == r.value && forall j | 0 <= j < i :: e.constants[j].name != name
    ensures r.None? <==> forall i | 0 <= i < |e.constants| :: e.constants[i].name != name
  {
    assert forall i | 0 <= i < |e.constants| :: ConstantNamed(name)(e.constants[i]) == (e.constants[i].name == name);
    match FindFirst(e.constants, ConstantNamed(name))
    case Some(i) => Some(e.constants[i])
    case None => None
  }

  /** `get_by_value`: the first constant with the value, None when no constant has it. */
  function GetByValue(e: EnumDecl, v: int64): (r: Option<EnumConstant>)
    ensures r.Some? ==> r.value.value == v && exists i | 0 <= i < |e.constants| ::
      e.constants[i] == r.value && forall j | 0 <= j < i :: e.constants[j].value != v
    ensures r.None? <==> forall i | 0 <= i < |e.constants| :: e.constants[i].value != v
  {
    assert forall i | 0 <= i < |e.constants| :: ConstantValued(v)(e.constants[i]) == (e.constants[i].value == v);
    match FindFirst(e.constants, ConstantValued(v))
    case Some(i) => Some(e.constants[i])
    case None => None
  }

  function SimpleEnumNode(size: pos): EnumNode
  {
    EnumNode(EnumDeclEntity, Some(Ok(size)), [
      EnumChild(EnumConstantDeclEntity, Some("Value1"), Some(0)),
      EnumChild(EnumConstantDeclEntity, Some("Value2"), Some(1)),
      EnumChild(EnumConstantDeclEntity, Some("Value3"), Some(2))])
  }

  /** Three constants declared without initialisers, reported as 0, 1 and 2,
      are stored in child order with those values. */
  lemma SimpleEnumBuilt(size: pos)
    ensures EnumNew("MyEnum", SimpleEnumNode(size)) == Ok(SimpleEnumDecl(size))
  {
    var node := SimpleEnumNode(size);
    assert forall i | 0 <= i < |node.children| :: EnumConstantBuilder()(node.children[i]).Ok?;
    EnumNewSuccess("MyEnum", node);
    var cs := EnumNew("MyEnum", node).value.constants;
    assert cs[0] == EnumConstant("Value1", 0) && cs[1] == EnumConstant("Value2", 1) && cs[2] == EnumConstant("Value3", 2);
    assert cs == [EnumConstant("Value1", 0), EnumConstant("Value2", 1), EnumConstant("Value3", 2)];
    assert EnumNew("MyEnum", node).value.size == size;
  }

  function SimpleEnumDecl(size: pos): EnumDecl
  {
    EnumDecl("MyEnum", [EnumConstant("Value1", 0), EnumConstant("Value2", 1), EnumConstant("Value3", 2)], size)
  }

  /** Those constants are found by name; an absent name is not found. */
  lemma SimpleEnumByName(size: pos)
    ensures GetConstant(SimpleEnumDecl(size), "Value1") == Some(EnumConstant("Value1", 0))
    ensures GetConstant(SimpleEnumDecl(size), "Value3") == Some(EnumConstant("Value3", 2))
    ensures GetConstant(SimpleEnumDecl(size), "Value4").None?
  {
    var e := SimpleEnumDecl(size);
    assert GetConstant(e, "Value3") == Some(e.constants[2]);
  }

  /** Those constants are found by value; an absent value is not found. */
  lemma SimpleEnumByValue(size: pos)
    ensures GetByValue(SimpleEnumDecl(size), 0) == Some(EnumConstant("Value1", 0))
    ensures GetByValue(SimpleEnumDecl(size), 2) == Some(EnumConstant("Value3", 2))
    ensures GetByValue(SimpleEnumDecl(size), 3).None?
  {
    var e := SimpleEnumDecl(size);
    assert GetByValue(e, 2) == Some(e.constants[2]);
  }
}
