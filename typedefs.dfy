/** Typedef declarations (lib/src/types/typedef.rs). */
module Typedefs {
  import opened Wrappers
  import opened Errors
  import opened TypeKinds
  import opened FrontEnd

  /** `Typedef::new`: the underlying type is translated first, and its failure
      is the typedef's; on success the name is stored and the const and
      volatile flags are the underlying type's qualifiers. */
  function TypedefNew(name: string, underlying: TypeHandle): (r: Result<TypedefDecl, ParseError>)
    ensures r.Ok? <==> underlying.kind.Ok?
    ensures r.Err? ==> r.error == underlying.kind.error
    ensures r.Ok? ==>
      && r.value.name == name
      && r.value.underlyingType == underlying.kind.value
      && r.value.constant == underlying.isConstQualified
      && r.value.volatile == underlying.isVolatileQualified
  {
    match underlying.kind
    case Err(e) => Err(e)
    case Ok(kind) => Ok(TypedefDecl(name, kind, underlying.isConstQualified, underlying.isVolatileQualified))
  }

  /** A typedef is never a forward declaration, and it is registered under its name. */
  lemma TypedefNeverForward(t: TypedefDecl)
    ensures !IsForwardDecl(Typedef(t))
    ensures Name(Typedef(t)) == Some(t.name)
  {
  }

  /** Equality of typedefs is structural over all four parts. */
  lemma TypedefEquality(s: TypedefDecl, t: TypedefDecl)
    ensures s == t <==>
      (s.name == t.name && s.underlyingType == t.underlyingType
       && s.constant == t.constant && s.volatile == t.volatile)
  {
  }

  /** `typedef unsigned int u32;` and its volatile, const and const volatile
      variants: the plain one has underlying U32 and no qualifiers, and each
      variant refers to `u32` by name with its own flags. */
  lemma QualifiedTypedefs()
    ensures var u32 := TypedefNew("u32", TypeHandle(Ok(U32), false, false));
      u32.Ok? && u32.value.underlyingType == U32 && !u32.value.constant && !u32.value.volatile
    ensures var vu32 := TypedefNew("vu32", TypeHandle(Ok(TypeKind.Named("u32")), false, true));
      vu32.Ok? && vu32.value.underlyingType == TypeKind.Named("u32") && !vu32.value.constant && vu32.value.volatile
    ensures var cu32 := TypedefNew("cu32", TypeHandle(Ok(TypeKind.Named("u32")), true, false));
      cu32.Ok? && cu32.value.underlyingType == TypeKind.Named("u32") && cu32.value.constant && !cu32.value.volatile
    ensures var cvu32 := TypedefNew("cvu32", TypeHandle(Ok(TypeKind.Named("u32")), true, true));
      cvu32.Ok? && cvu32.value.underlyingType == TypeKind.Named("u32") && cvu32.value.constant && cvu32.value.volatile
  {
  }
}
