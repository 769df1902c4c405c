/** What struct and union construction share (lib/src/types/struct_decl.rs and
    lib/src/types/union_decl.rs carry the same code for these steps): the
    display name, the scan for invalid FieldDecl children of an
    empty record, and the size/alignment fallback for a record without fields. */
module Records {
  import opened Wrappers
  import opened Ints
  import opened Errors
  import opened Util
  import opened FrontEnd

  const ANONYMOUS: string := "<anon>"

  /** The name used in diagnostics: the record's name, or `<anon>`. */
  function DisplayName(name: Option<string>): string
  {
    if name.Some? then name.value else ANONYMOUS
  }

  predicate IsInvalidField(c: ChildEntity)
  {
    c.kind == FieldDeclEntity && c.isInvalidDeclaration
  }

  /** How an invalid child is reported: its name, or `<index#i>` with its
      position among the declaration's children. */
  function FieldLabel(c: ChildEntity, index: nat): string
  {
    if c.name.Some? then c.name.value else "<index#" + Decimal(index) + ">"
  }

  /** The positions of the invalid FieldDecl children, ascending: exactly
      the invalid positions, each once. */
  function InvalidIndices(children: seq<ChildEntity>): (idx: seq<nat>)
    ensures forall k | 0 <= k < |idx| :: idx[k] < |children| && IsInvalidField(children[idx[k]])
    ensures forall k, l | 0 <= k < l < |idx| :: idx[k] < idx[l]
    ensures forall i | 0 <= i < |children| && IsInvalidField(children[i]) :: i in idx
  {
    if |children| == 0 then []
    else
      var last := |children| - 1;
      var prefix := children[..last];
      assert forall i | 0 <= i < last :: prefix[i] == children[i];
      InvalidIndices(prefix) + (if IsInvalidField(children[last]) then [last] else [])
  }

  /** The labels of the invalid FieldDecl children, in child order: the
      invalid positions are filtered out first and each is then labelled, so
      there is one label per invalid child, the k-th for the k-th invalid
      position. */
  function InvalidFieldNames(children: seq<ChildEntity>): (names: seq<string>)
    ensures var idx := InvalidIndices(children);
      |names| == |idx| && forall k | 0 <= k < |idx| :: names[k] == FieldLabel(children[idx[k]], idx[k])
    ensures |names| == 0 <==> forall i | 0 <= i < |children| :: !IsInvalidField(children[i])
    ensures forall s | s in names :: exists i | 0 <= i < |children| ::
      IsInvalidField(children[i]) && s == FieldLabel(children[i], i)
    ensures forall i | 0 <= i < |children| :: IsInvalidField(children[i]) ==> FieldLabel(children[i], i) in names
  {
    var idx := InvalidIndices(children);
    assert |idx| > 0 ==> IsInvalidField(children[idx[0]]);
    seq(|idx|, k requires 0 <= k < |idx| => FieldLabel(children[idx[k]], idx[k]))
  }

  function BrokenA(): ChildEntity { ChildEntity(FieldDeclEntity, Some("a"), None, true) }
  function FineB(): ChildEntity { ChildEntity(FieldDeclEntity, Some("b"), None, false) }

  /** Appending a child extends the positions by that child's, if it is invalid. */
  lemma InvalidIndicesSnoc(children: seq<ChildEntity>, c: ChildEntity)
    ensures InvalidIndices(children + [c])
         == InvalidIndices(children) + (if IsInvalidField(c) then [|children|] else [])
  {
    assert (children + [c])[..|children|] == children;
  }

  lemma RepeatedIndices()
    ensures InvalidIndices([BrokenA(), FineB(), BrokenA()]) == [0, 2]
  {
    var c, ok := BrokenA(), FineB();
    assert IsInvalidField(c) && !IsInvalidField(ok);
    var one, two, three := [c], [c, ok], [c, ok, c];
    assert one == [] + [c] && two == one + [ok] && three == two + [c];
    InvalidIndicesSnoc([], c);
    InvalidIndicesSnoc(one, ok);
    InvalidIndicesSnoc(two, c);
    assert InvalidIndices(one) == [0];
    assert InvalidIndices(two) == [0];
  }

  /** Two invalid children that share a name are both reported, in order. */
  lemma RepeatedLabelsKept()
    ensures InvalidFieldNames([BrokenA(), FineB(), BrokenA()]) == ["a", "a"]
  {
    RepeatedIndices();
  }

  /** Two different unnamed invalid children get different labels. */
  lemma IndexLabelsDistinct(c: ChildEntity, d: ChildEntity, i: nat, j: nat)
    requires c.name.None? && d.name.None? && i != j
    ensures FieldLabel(c, i) != FieldLabel(d, j)
  {
    var li, lj := FieldLabel(c, i), FieldLabel(d, j);
    if li == lj {
      assert li[7..|li| - 1] == Decimal(i);
      assert lj[7..|lj| - 1] == Decimal(j);
      DecimalRoundTrip(i);
      DecimalRoundTrip(j);
    }
  }

  /** The size the record takes: the query's answer, or 1 when the query fails
      on a record without fields; otherwise a Sizeof error naming the record. */
  function SizeOrFallback(query: Result<nat, QueryError>, noFields: bool, display: string): Result<nat, ParseError>
  {
    match query
    case Ok(n) => Ok(n)
    case Err(e) => if noFields then Ok(1) else Err(Sizeof(display, e))
  }

  /** The alignment counterpart of `SizeOrFallback`, failing with Alignof. */
  function AlignmentOrFallback(query: Result<pos, QueryError>, noFields: bool, display: string): Result<pos, ParseError>
  {
    match query
    case Ok(n) => Ok(n)
    case Err(e) => if noFields then Ok(1) else Err(Alignof(display, e))
  }
}
