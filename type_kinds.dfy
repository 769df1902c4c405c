/** The recursive type representation and its size/alignment algebra
    (lib/src/types/type_kind.rs), together with the declaration records it owns
    inline. The records are declared here because they and `TypeKind` contain
    each other; their operations live in the modules named after their files. */
module TypeKinds {
  import opened Wrappers
  import opened Ints
  import opened Environment

  datatype TypeKind =
    | USize
    | SSize
    | U64
    | U32
    | U16
    | U8
    | S64
    | S32
    | S16
    | S8
    | Bool
    | Void
    | Pointer(pointee: TypeKind)
      /** `length` is None for an incomplete (flexible) array. */
    | Array(elementType: TypeKind, length: Option<nat>)
    | Function(returnType: TypeKind, parameters: seq<TypeKind>)
    | Struct(structDecl: StructDecl)
    | Class(classDecl: StructDecl)
    | Union(unionDecl: UnionDecl)
    | Enum(enumDecl: EnumDecl)
    | Typedef(typedef: TypedefDecl)
      /** A by-name reference, resolved through the symbol table when queried. */
    | Named(name: string)

  /** An aggregate member; `name` is None for an anonymous nested aggregate. */
  datatype Field = Field(
    name: Option<string>,
    kind: TypeKind,
    constant: bool,
    volatile: bool,
    bitFieldWidth: Option<uint8>)

  /** A struct member together with its offset in BITS from the start of the struct. */
  datatype StructField = StructField(offset: nat, field: Field)

  datatype StructDecl = StructDecl(
    name: Option<string>,
    baseTypes: seq<string>,
    fields: seq<StructField>,
    size: nat,
    alignment: pos,
    isClass: bool)

  datatype UnionDecl = UnionDecl(
    name: Option<string>,
    fields: seq<Field>,
    size: nat,
    alignment: pos)

  datatype EnumConstant = EnumConstant(name: string, value: int64)

  datatype EnumDecl = EnumDecl(name: string, constants: seq<EnumConstant>, size: pos)

  datatype TypedefDecl = TypedefDecl(
    name: string,
    underlyingType: TypeKind,
    constant: bool,
    volatile: bool)

  /** The symbol table's contents as the layout functions see them. */
  type Table = map<string, TypeKind>

  /** The name a kind is registered under. Only declarations have one: a
      struct, class or union its optional name, an enum or typedef always its
      name. Primitives, pointers, arrays, functions and `Named` references have none. */
  function Name(k: TypeKind): (r: Option<string>)
    ensures r.Some? ==> k.Struct? || k.Class? || k.Union? || k.Enum? || k.Typedef?
    ensures k.Enum? || k.Typedef? ==> r.Some?
  {
    match k
    case Struct(d) => d.name
    case Class(d) => d.name
    case Union(u) => u.name
    case Enum(e) => Some(e.name)
    case Typedef(t) => Some(t.name)
    case _ => None
  }

  /** A declaration without members: a struct, class or union with no fields or
      an enum with no constants. A typedef, and every kind that is not a
      declaration, is never a forward declaration. */
  predicate IsForwardDecl(k: TypeKind)
    ensures IsForwardDecl(k) ==> k.Struct? || k.Class? || k.Union? || k.Enum?
  {
    match k
    case Struct(d) => |d.fields| == 0
    case Class(d) => |d.fields| == 0
    case Union(u) => |u.fields| == 0
    case Enum(e) => |e.constants| == 0
    case _ => false
  }

  /** Follows `Named` references through the table until a kind that is not a
      reference: `Done(None)` when a name is missing from the table, and
      `OutOfFuel` when the lookups need more fuel than given. Every other kind
      is returned as it is. */
  function ExpandNamed(k: TypeKind, table: Table, fuel: nat): (r: Fueled<Option<TypeKind>>)
    ensures r.Done? && r.value.Some? ==> !r.value.value.Named?
    ensures !k.Named? ==> r == Done(Some(k))
    ensures k.Named? && k.name !in table ==> r == Done(None)
    ensures k.Named? && k.name in table && fuel == 0 ==> r == OutOfFuel
    ensures k.Named? && k.name in table && fuel > 0 ==> r == ExpandNamed(table[k.name], table, fuel - 1)
    decreases fuel
  {
    match k
    case Named(n) =>
      if n !in table then Done(None)
      else if fuel == 0 then OutOfFuel
      else ExpandNamed(table[n], table, fuel - 1)
    case _ => Done(Some(k))
  }

  /** `x.next_multiple_of(a)`: the least multiple of `a` that is at least `x`. */
  function RoundUp(x: nat, a: pos): (r: nat)
    ensures r % a == 0
    ensures x <= r < x + a
  {
    if x % a == 0 then x
    else
      assert x == a * (x / a) + x % a;
      MultipleMod(x / a + 1, a);
      x + (a - x % a)
  }

  lemma {:induction false} MulAtLeast(d: nat, a: pos)
    requires d >= 1
    ensures d * a >= a
  {
    if d > 1 {
      MulAtLeast(d - 1, a);
      assert d * a == (d - 1) * a + a;
    }
  }

  /** A multiple of `a` leaves no remainder. */
  lemma MultipleMod(k: nat, a: pos)
    ensures (k * a) % a == 0
  {
    var x := k * a;
    var q, m := x / a, x % a;
    assert x == q * a + m && 0 <= m < a;
    if q < k {
      MulAtLeast(k - q, a);
    } else if q > k {
      MulAtLeast(q - k, a);
    }
  }

  /** Byte size. Word-sized integers and pointers take the word size, fixed-width
      integers their width, a complete array its length times the element's
      stride, aggregates and enums their recorded size, a typedef its
      underlying type's size, and a `Named` reference the size of the table
      entry. Void, functions, incomplete arrays and missing names have none.
      Each table lookup costs one unit of fuel. Every kind with a size also has
      an alignment. */
  function Size(k: TypeKind, env: Env, table: Table, fuel: nat): (r: Option<nat>)
    ensures r.Some? ==> Alignment(k, env, table, fuel).Some?
    decreases fuel, k
  {
    match k
    case USize => Some(Bytes(env.wordSize))
    case SSize => Some(Bytes(env.wordSize))
    case U64 => Some(8)
    case S64 => Some(8)
    case U32 => Some(4)
    case S32 => Some(4)
    case U16 => Some(2)
    case S16 => Some(2)
    case U8 => Some(1)
    case S8 => Some(1)
    case Bool => Some(1)
    case Void => None
    case Pointer(_) => Some(Bytes(env.wordSize))
    case Array(element, length) =>
      if length.None? then None
      else
        var elemSize := Size(element, env, table, fuel);
        var elemAlign := Alignment(element, env, table, fuel);
        if elemSize.None? || elemAlign.None? then None
        else Some(length.value * RoundUp(elemSize.value, elemAlign.value))
    case Function(_, _) => None
    case Struct(d) => Some(d.size)
    case Class(d) => Some(d.size)
    case Union(u) => Some(u.size)
    case Enum(e) => Some(e.size)
    case Typedef(t) => Size(t.underlyingType, env, table, fuel)
    case Named(n) =>
      if n in table && fuel > 0 then Size(table[n], env, table, fuel - 1) else None
  }

  /** Byte alignment, following the same cases as `Size`; an array, complete or
      not, is aligned as its element, and an enum's alignment is its size. Every
      alignment reported is at least 1. */
  function Alignment(k: TypeKind, env: Env, table: Table, fuel: nat): (r: Option<nat>)
    ensures r.Some? ==> r.value >= 1
    decreases fuel, k
  {
    match k
    case USize => Some(Bytes(env.wordSize))
    case SSize => Some(Bytes(env.wordSize))
    case U64 => Some(8)
    case S64 => Some(8)
    case U32 => Some(4)
    case S32 => Some(4)
    case U16 => Some(2)
    case S16 => Some(2)
    case U8 => Some(1)
    case S8 => Some(1)
    case Bool => Some(1)
    case Void => None
    case Pointer(_) => Some(Bytes(env.wordSize))
    case Array(element, _) => Alignment(element, env, table, fuel)
    case Function(_, _) => None
    case Struct(d) => Some(d.alignment)
    case Class(d) => Some(d.alignment)
    case Union(u) => Some(u.alignment)
    case Enum(e) => Some(e.size)
    case Typedef(t) => Alignment(t.underlyingType, env, table, fuel)
    case Named(n) =>
      if n in table && fuel > 0 then Alignment(table[n], env, table, fuel - 1) else None
  }

  /** Fixed-width integers and `bool` have the width of their C type, and are aligned to it. */
  lemma FixedWidthLayout(k: TypeKind, env: Env, table: Table, fuel: nat)
    ensures k == U64 || k == S64 ==> Size(k, env, table, fuel) == Alignment(k, env, table, fuel) == Some(8)
    ensures k == U32 || k == S32 ==> Size(k, env, table, fuel) == Alignment(k, env, table, fuel) == Some(4)
    ensures k == U16 || k == S16 ==> Size(k, env, table, fuel) == Alignment(k, env, table, fuel) == Some(2)
    ensures k == U8 || k == S8 || k == Bool ==> Size(k, env, table, fuel) == Alignment(k, env, table, fuel) == Some(1)
  {
  }

  /** `usize`, `isize` and every pointer are one word: `bits() / 8` bytes, so 2, 4
      or 8 for 16-, 32- or 64-bit words. */
  lemma WordSizedLayout(k: TypeKind, env: Env, table: Table, fuel: nat)
    requires k.USize? || k.SSize? || k.Pointer?
    ensures Size(k, env, table, fuel) == Alignment(k, env, table, fuel) == Some(Bits(env.wordSize) / 8)
    ensures env.wordSize == Size16 ==> Size(k, env, table, fuel) == Some(2)
    ensures env.wordSize == Size32 ==> Size(k, env, table, fuel) == Some(4)
    ensures env.wordSize == Size64 ==> Size(k, env, table, fuel) == Some(8)
  {
  }

  /** A pointer's layout depends only on the word size: not on what it points
      to, not on the table and not on the fuel, so a pointer to an undefined or
      self-referential type is sized without any lookup. */
  lemma PointerNeedsNoLookup(p: TypeKind, q: TypeKind, env: Env, t1: Table, t2: Table, f1: nat, f2: nat)
    ensures Size(Pointer(p), env, t1, f1) == Size(Pointer(q), env, t2, f2) == Some(Bytes(env.wordSize))
    ensures Alignment(Pointer(p), env, t1, f1) == Alignment(Pointer(q), env, t2, f2) == Some(Bytes(env.wordSize))
  {
  }

  /** Void and functions have no layout at all; an incomplete array has no size
      but is aligned as its element. */
  lemma UnsizedLayout(element: TypeKind, k: TypeKind, env: Env, table: Table, fuel: nat)
    requires k.Void? || k.Function?
    ensures Size(k, env, table, fuel).None? && Alignment(k, env, table, fuel).None?
    ensures Size(Array(element, None), env, table, fuel).None?
    ensures Alignment(Array(element, None), env, table, fuel) == Alignment(element, env, table, fuel)
  {
  }

  lemma {:induction false} MulMonotone(n: nat, x: nat, y: nat)
    requires x <= y
    ensures n * x <= n * y
  {
    if n > 0 {
      MulMonotone(n - 1, x, y);
      assert n * x == (n - 1) * x + x && n * y == (n - 1) * y + y;
    }
  }

  /** `length` elements at the stride of an element of size `es` and alignment `ea`. */
  lemma {:induction false} StridedBounds(length: nat, es: nat, ea: pos)
    ensures (length * RoundUp(es, ea)) % ea == 0
    ensures length * es <= length * RoundUp(es, ea)
  {
    var stride := RoundUp(es, ea);
    var q := stride / ea;
    assert stride == q * ea;
    assert length * stride == (length * q) * ea;
    MultipleMod(length * q, ea);
    MulMonotone(length, es, stride);
  }

  /** A complete array has a size exactly when its element has both a size and
      an alignment; that size is `length` strides, a multiple of the element
      alignment and at least `length` unpadded elements, and the array is
      aligned as its element. */
  lemma CompleteArrayLayout(element: TypeKind, length: nat, env: Env, table: Table, fuel: nat)
    ensures var s := Size(Array(element, Some(length)), env, table, fuel);
      s.Some? <==> Size(element, env, table, fuel).Some? && Alignment(element, env, table, fuel).Some?
    ensures Alignment(Array(element, Some(length)), env, table, fuel) == Alignment(element, env, table, fuel)
    ensures var s := Size(Array(element, Some(length)), env, table, fuel);
      s.Some? ==>
        var es, ea := Size(element, env, table, fuel).value, Alignment(element, env, table, fuel).value;
        s.value == length * RoundUp(es, ea) && s.value % ea == 0 && length * es <= s.value
  {
    var es, ea := Size(element, env, table, fuel), Alignment(element, env, table, fuel);
    if es.Some? && ea.Some? {
      StridedBounds(length, es.value, ea.value);
    }
  }

  /** A `Named` reference costs one unit of fuel and is laid out as its table
      entry; a name missing from the table has no layout (rather than a zero one). */
  lemma NamedLayout(n: string, env: Env, table: Table, fuel: nat)
    ensures n in table ==> Size(Named(n), env, table, fuel + 1) == Size(table[n], env, table, fuel)
    ensures n in table ==> Alignment(Named(n), env, table, fuel + 1) == Alignment(table[n], env, table, fuel)
    ensures n !in table ==> Size(Named(n), env, table, fuel).None? && Alignment(Named(n), env, table, fuel).None?
  {
  }

  /** Aggregates report their recorded layout, an enum is aligned to its size,
      and a typedef is laid out as its underlying type. */
  lemma DeclarationLayout(k: TypeKind, env: Env, table: Table, fuel: nat)
    ensures k.Struct? ==> Size(k, env, table, fuel) == Some(k.structDecl.size) && Alignment(k, env, table, fuel) == Some(k.structDecl.alignment)
    ensures k.Class? ==> Size(k, env, table, fuel) == Some(k.classDecl.size) && Alignment(k, env, table, fuel) == Some(k.classDecl.alignment)
    ensures k.Union? ==> Size(k, env, table, fuel) == Some(k.unionDecl.size) && Alignment(k, env, table, fuel) == Some(k.unionDecl.alignment)
    ensures k.Enum? ==> Alignment(k, env, table, fuel) == Size(k, env, table, fuel) == Some(k.enumDecl.size)
    ensures k.Typedef? ==> Size(k, env, table, fuel) == Size(k.typedef.underlyingType, env, table, fuel)
    ensures k.Typedef? ==> Alignment(k, env, table, fuel) == Alignment(k.typedef.underlyingType, env, table, fuel)
  {
  }

  /** Fuel only bounds the search: once an alignment is found, more fuel finds the same one. */
  lemma {:induction false} AlignmentFuelMonotone(k: TypeKind, env: Env, table: Table, f: nat, g: nat)
    requires f <= g && Alignment(k, env, table, f).Some?
    ensures Alignment(k, env, table, g) == Alignment(k, env, table, f)
    decreases f, k
  {
    match k
    case Array(element, _) => AlignmentFuelMonotone(element, env, table, f, g);
    case Typedef(t) => AlignmentFuelMonotone(t.underlyingType, env, table, f, g);
    case Named(n) => AlignmentFuelMonotone(table[n], env, table, f - 1, g - 1);
    case _ =>
  }

  /** Fuel only bounds the search: once a size is found, more fuel finds the same one. */
  lemma {:induction false} SizeFuelMonotone(k: TypeKind, env: Env, table: Table, f: nat, g: nat)
    requires f <= g && Size(k, env, table, f).Some?
    ensures Size(k, env, table, g) == Size(k, env, table, f)
    decreases f, k
  {
    match k
    case Array(element, _) =>
      SizeFuelMonotone(element, env, table, f, g);
      AlignmentFuelMonotone(element, env, table, f, g);
    case Typedef(t) => SizeFuelMonotone(t.underlyingType, env, table, f, g);
    case Named(n) => SizeFuelMonotone(table[n], env, table, f - 1, g - 1);
    case _ =>
  }

  /** Fuel only bounds the search: once an expansion completes, more fuel
      completes it with the same answer. */
  lemma {:induction false} ExpandNamedFuelMonotone(k: TypeKind, table: Table, f: nat, g: nat)
    requires f <= g && ExpandNamed(k, table, f).Done?
    ensures ExpandNamed(k, table, g) == ExpandNamed(k, table, f)
    decreases f
  {
    if k.Named? && k.name in table {
      ExpandNamedFuelMonotone(table[k.name], table, f - 1, g - 1);
    }
  }
}
