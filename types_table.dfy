/** The symbol table (lib/src/types/mod.rs): an insertion-ordered map from
    type name to `TypeKind`, and the merge of the tables of several
    translation units. */
module TypesTable {
  import opened Wrappers
  import opened TypeKinds

  datatype ExtendTypesError = ConflictingTypes(left: TypeKind, right: TypeKind)

  /** An insertion-ordered map, as a value: `order` lists the keys in the
      order they were first inserted. */
  datatype TypeMap = TypeMap(order: seq<string>, entries: map<string, TypeKind>)

  predicate Distinct(s: seq<string>)
  {
    forall i, j | 0 <= i < j < |s| :: s[i] != s[j]
  }

  /** Every key is listed exactly once, and only keys are listed. */
  predicate ValidMap(m: TypeMap)
  {
    && Distinct(m.order)
    && (forall k | k in m.entries :: k in m.order)
    && (forall k | k in m.order :: k in m.entries)
  }

  const EmptyMap: TypeMap := TypeMap([], map[])

  /** `IndexMap::insert`: a new key goes to the end, an existing key keeps its
      place and takes the new value. */
  function Insert(m: TypeMap, name: string, kind: TypeKind): (r: TypeMap)
    ensures r.entries == m.entries[name := kind]
    ensures name in m.entries ==> r.order == m.order
    ensures name !in m.entries ==> r.order == m.order + [name]
  {
    TypeMap(if name in m.entries then m.order else m.order + [name], m.entries[name := kind])
  }

  lemma InsertValid(m: TypeMap, name: string, kind: TypeKind)
    requires ValidMap(m)
    ensures ValidMap(Insert(m, name, kind))
  {
  }

  /** After an insertion the key yields the inserted kind; re-inserting a key
      leaves the number of entries and the order alone, a new key adds one
      entry at the end. */
  lemma InsertThenGet(m: TypeMap, name: string, kind: TypeKind)
    ensures Insert(m, name, kind).entries[name] == kind
    ensures forall other | other in m.entries && other != name :: Insert(m, name, kind).entries[other] == m.entries[other]
    ensures name in m.entries ==> |Insert(m, name, kind).entries| == |m.entries|
    ensures name !in m.entries ==> |Insert(m, name, kind).entries| == |m.entries| + 1
  {
  }

  /** A well-formed table has exactly as many entries as listed keys. */
  lemma {:induction false} ValidMapLength(m: TypeMap)
    ensures ValidMap(m) ==> |m.entries| == |m.order|
    decreases |m.order|
  {
    if !ValidMap(m) {
    } else if |m.order| > 0 {
      var last := |m.order| - 1;
      var k := m.order[last];
      var rest := TypeMap(m.order[..last], m.entries - {k});
      assert forall x | x in rest.order :: x in m.order[..last] && x != k;
      ValidMapLength(rest);
    } else {
      assert m.entries == map[] by {
        forall k | k in m.entries ensures false {
        }
      }
    }
  }

  /** The values in insertion order. */
  function ValuesOf(order: seq<string>, entries: map<string, TypeKind>): (r: seq<TypeKind>)
    requires forall k | k in order :: k in entries
    ensures |r| == |order|
    ensures forall i | 0 <= i < |order| :: r[i] == entries[order[i]]
  {
    if |order| == 0 then [] else [entries[order[0]]] + ValuesOf(order[1..], entries)
  }

  /** Two full definitions that differ: the only case in which a merge fails. */
  predicate Conflicts(entries: map<string, TypeKind>, name: string, incoming: TypeKind)
  {
    name in entries && !IsForwardDecl(entries[name]) && !IsForwardDecl(incoming) && entries[name] != incoming
  }

  /** One step of `extend`: an absent name is inserted; a forward declaration
      is replaced by the incoming kind (even a forward one); a full definition
      stays, unless the incoming kind is another full definition, which
      conflicts. */
  function MergeEntry(m: TypeMap, name: string, incoming: TypeKind): (r: Result<TypeMap, ExtendTypesError>)
    ensures r.Err? <==> Conflicts(m.entries, name, incoming)
    ensures r.Err? ==> r.error == ConflictingTypes(m.entries[name], incoming)
    ensures r.Ok? && (name !in m.entries || IsForwardDecl(m.entries[name])) ==> r.value == Insert(m, name, incoming)
    ensures r.Ok? && name in m.entries && !IsForwardDecl(m.entries[name]) ==> r.value == m
  {
    if name in m.entries then
      var current := m.entries[name];
      if IsForwardDecl(current) then Ok(Insert(m, name, incoming))
      else if !IsForwardDecl(incoming) && current != incoming then Err(ConflictingTypes(current, incoming))
      else Ok(m)
    else Ok(Insert(m, name, incoming))
  }

  /** What `extend` leaves behind: the table as it stands when the loop stops,
      and its result. */
  datatype Extended = Extended(table: TypeMap, result: Result<(), ExtendTypesError>)

  /** `extend` with the names of the other table in its order and its entries
      `source`: the steps run in order and the first conflict stops the merge,
      keeping the steps already done. */
  function ExtendWith(m: TypeMap, names: seq<string>, source: map<string, TypeKind>): Extended
    requires forall n | n in names :: n in source
    decreases |names|
  {
    if |names| == 0 then Extended(m, Ok(()))
    else
      match MergeEntry(m, names[0], source[names[0]])
      case Err(e) => Extended(m, Err(e))
      case Ok(next) => ExtendWith(next, names[1..], source)
  }

  /** The names of `names`, in order, that are not yet keys. */
  function Fresh(names: seq<string>, entries: map<string, TypeKind>): seq<string>
  {
    if |names| == 0 then []
    else (if names[0] in entries then [] else [names[0]]) + Fresh(names[1..], entries)
  }

  /** The fresh names are exactly the incoming names that are not yet keys. */
  lemma {:induction false} FreshNames(names: seq<string>, entries: map<string, TypeKind>)
    ensures forall n :: n in Fresh(names, entries) <==> n in names && n !in entries
  {
    if |names| > 0 {
      FreshNames(names[1..], entries);
      assert forall n :: n in names <==> n == names[0] || n in names[1..];
    }
  }

  /** The merged table, defined entry by entry: an incoming name takes the
      incoming kind where it was absent or only forward-declared, and every
      other entry keeps its kind. */
  function MergedEntries(entries: map<string, TypeKind>, names: seq<string>, source: map<string, TypeKind>): map<string, TypeKind>
    requires forall n | n in names :: n in source
  {
    map n | n in entries.Keys + (set x | x in names) ::
      if n in names && (n !in entries || IsForwardDecl(entries[n])) then source[n] else entries[n]
  }

  lemma FreshAgrees(names: seq<string>, e1: map<string, TypeKind>, e2: map<string, TypeKind>)
    requires forall n | n in names :: (n in e1 <==> n in e2)
    ensures Fresh(names, e1) == Fresh(names, e2)
  {
    if |names| > 0 {
      FreshAgrees(names[1..], e1, e2);
    }
  }

  /** One successful step changes only the entry of its own name. */
  lemma MergeEntryFrame(m: TypeMap, name: string, incoming: TypeKind)
    requires MergeEntry(m, name, incoming).Ok?
    ensures var next := MergeEntry(m, name, incoming).value;
      && (forall k | k != name :: (k in next.entries <==> k in m.entries))
      && (forall k | k != name && k in m.entries :: next.entries[k] == m.entries[k])
      && name in next.entries
      && next.entries[name] == (if name !in m.entries || IsForwardDecl(m.entries[name]) then incoming else m.entries[name])
      && next.order == m.order + (if name in m.entries then [] else [name])
  {
  }

  /** Names after the first step meet the entries they would have met before it. */
  lemma RestAgrees(m: TypeMap, names: seq<string>, source: map<string, TypeKind>)
    requires Distinct(names) && |names| > 0
    requires forall n | n in names :: n in source
    requires MergeEntry(m, names[0], source[names[0]]).Ok?
    ensures var next, rest := MergeEntry(m, names[0], source[names[0]]).value, names[1..];
      && (forall i | 0 <= i < |rest| :: rest[i] == names[i + 1])
      && Distinct(rest)
      && (forall i | 0 <= i < |rest| ::
            Conflicts(next.entries, rest[i], source[rest[i]]) == Conflicts(m.entries, rest[i], source[rest[i]]))
  {
    var next, rest := MergeEntry(m, names[0], source[names[0]]).value, names[1..];
    MergeEntryFrame(m, names[0], source[names[0]]);
    assert forall i | 0 <= i < |rest| :: rest[i] == names[i + 1] && rest[i] != names[0];
  }

  lemma RestFresh(m: TypeMap, names: seq<string>, source: map<string, TypeKind>)
    requires Distinct(names) && |names| > 0
    requires forall n | n in names :: n in source
    requires MergeEntry(m, names[0], source[names[0]]).Ok?
    ensures Fresh(names[1..], MergeEntry(m, names[0], source[names[0]]).value.entries) == Fresh(names[1..], m.entries)
  {
    var next, rest := MergeEntry(m, names[0], source[names[0]]).value, names[1..];
    MergeEntryFrame(m, names[0], source[names[0]]);
    assert forall n | n in rest :: n != names[0] by {
      forall n | n in rest ensures n != names[0] {
        var i :| 0 <= i < |rest| && rest[i] == n;
        assert names[i + 1] == n;
      }
    }
    FreshAgrees(rest, next.entries, m.entries);
  }

  /** `extend` on distinct incoming names succeeds exactly when no incoming
      name conflicts with the entry it meets. */
  lemma {:induction false} ExtendWithSucceeds(m: TypeMap, names: seq<string>, source: map<string, TypeKind>)
    requires Distinct(names)
    requires forall n | n in names :: n in source
    ensures ExtendWith(m, names, source).result.Ok? <==>
      forall i | 0 <= i < |names| :: !Conflicts(m.entries, names[i], source[names[i]])
    decreases |names|
  {
    if |names| > 0 {
      match MergeEntry(m, names[0], source[names[0]])
      case Err(e) =>
      case Ok(next) =>
        RestAgrees(m, names, source);
        ExtendWithSucceeds(next, names[1..], source);
    }
  }

  /** A step that succeeds takes one name off the merged-entries definition. */
  lemma MergedStep(m: TypeMap, names: seq<string>, source: map<string, TypeKind>)
    requires Distinct(names) && |names| > 0
    requires forall n | n in names :: n in source
    requires MergeEntry(m, names[0], source[names[0]]).Ok?
    ensures MergedEntries(MergeEntry(m, names[0], source[names[0]]).value.entries, names[1..], source)
         == MergedEntries(m.entries, names, source)
  {
    var next := MergeEntry(m, names[0], source[names[0]]).value;
    var rest := names[1..];
    MergeEntryFrame(m, names[0], source[names[0]]);
    TailMembers(names);
    var lhs := MergedEntries(next.entries, rest, source);
    var rhs := MergedEntries(m.entries, names, source);
    assert lhs.Keys == rhs.Keys;
    forall n | n in lhs.Keys ensures lhs[n] == rhs[n] {
      if n != names[0] {
        assert (n in rest) == (n in names);
      }
    }
  }

  /** The tail of distinct names is the list without its head. */
  lemma TailMembers(names: seq<string>)
    requires Distinct(names) && |names| > 0
    ensures forall n :: n in names[1..] <==> n in names && n != names[0]
  {
    forall n | n in names[1..] ensures n != names[0] {
      var i :| 0 <= i < |names[1..]| && names[1..][i] == n;
      assert names[i + 1] == n;
    }
    forall n | n in names && n != names[0] ensures n in names[1..] {
      var i :| 0 <= i < |names| && names[i] == n;
      assert names[1..][i - 1] == n;
    }
  }

  /** On success the entries are the merged entries. */
  lemma {:induction false} ExtendWithMerges(m: TypeMap, names: seq<string>, source: map<string, TypeKind>)
    requires Distinct(names)
    requires forall n | n in names :: n in source
    requires ExtendWith(m, names, source).result.Ok?
    ensures ExtendWith(m, names, source).table.entries == MergedEntries(m.entries, names, source)
    decreases |names|
  {
    if |names| == 0 {
      assert MergedEntries(m.entries, names, source) == m.entries;
    } else {
      var next := MergeEntry(m, names[0], source[names[0]]).value;
      assert Distinct(names[1..]);
      ExtendWithMerges(next, names[1..], source);
      MergedStep(m, names, source);
    }
  }

  /** On success the names not yet present are appended in incoming order. */
  lemma {:induction false} ExtendWithAppends(m: TypeMap, names: seq<string>, source: map<string, TypeKind>)
    requires Distinct(names)
    requires forall n | n in names :: n in source
    requires ExtendWith(m, names, source).result.Ok?
    ensures ExtendWith(m, names, source).table.order == m.order + Fresh(names, m.entries)
    decreases |names|
  {
    if |names| > 0 {
      assert MergeEntry(m, names[0], source[names[0]]).Ok?;
      var next := MergeEntry(m, names[0], source[names[0]]).value;
      var rest := names[1..];
      var head := if names[0] in m.entries then [] else [names[0]];
      TailFacts(names, source);
      ExtendWithStep(m, names, source);
      calc {
        ExtendWith(m, names, source).table.order;
        ExtendWith(next, rest, source).table.order;
        { ExtendWithAppends(next, rest, source); }
        next.order + Fresh(rest, next.entries);
        { RestFresh(m, names, source); }
        next.order + Fresh(rest, m.entries);
        { MergeEntryFrame(m, names[0], source[names[0]]); }
        (m.order + head) + Fresh(rest, m.entries);
        m.order + (head + Fresh(rest, m.entries));
        m.order + Fresh(names, m.entries);
      }
    }
  }

  lemma TailFacts(names: seq<string>, source: map<string, TypeKind>)
    requires Distinct(names) && |names| > 0
    requires forall n | n in names :: n in source
    ensures Distinct(names[1..])
    ensures forall n | n in names[1..] :: n in source
  {
    assert forall i | 0 <= i < |names[1..]| :: names[1..][i] == names[i + 1];
  }

  lemma ExtendWithStep(m: TypeMap, names: seq<string>, source: map<string, TypeKind>)
    requires |names| > 0
    requires forall n | n in names :: n in source
    requires MergeEntry(m, names[0], source[names[0]]).Ok?
    ensures forall n | n in names[1..] :: n in source
    ensures ExtendWith(m, names, source) == ExtendWith(MergeEntry(m, names[0], source[names[0]]).value, names[1..], source)
  {
  }

  /** The first conflicting name stops `extend` with both kinds in the error,
      `left` the entry already present and `right` the incoming one, and the
      names before it stay merged. */
  lemma {:induction false} ExtendWithFirstConflict(m: TypeMap, names: seq<string>, source: map<string, TypeKind>, i: nat)
    requires Distinct(names)
    requires forall n | n in names :: n in source
    requires i < |names| && Conflicts(m.entries, names[i], source[names[i]])
    requires forall j | 0 <= j < i :: !Conflicts(m.entries, names[j], source[names[j]])
    ensures ExtendWith(m, names, source).result == Err(ConflictingTypes(m.entries[names[i]], source[names[i]]))
    ensures ExtendWith(m, names, source).table == ExtendWith(m, names[..i], source).table
    decreases i
  {
    if i > 0 {
      var next := MergeEntry(m, names[0], source[names[0]]).value;
      RestAgrees(m, names, source);
      ExtendWithFirstConflict(next, names[1..], source, i - 1);
      assert names[..i][1..] == names[1..][..i - 1];
    }
  }

  /** Whatever its outcome, `extend` removes no name, moves no name, keeps the
      table well formed and never changes a full definition. */
  lemma {:induction false} ExtendWithKeeps(m: TypeMap, names: seq<string>, source: map<string, TypeKind>)
    requires ValidMap(m)
    requires forall n | n in names :: n in source
    ensures var out := ExtendWith(m, names, source);
      && ValidMap(out.table)
      && m.entries.Keys <= out.table.entries.Keys
      && m.order <= out.table.order
      && forall n | n in m.entries && !IsForwardDecl(m.entries[n]) :: out.table.entries[n] == m.entries[n]
    decreases |names|
  {
    if |names| > 0 {
      match MergeEntry(m, names[0], source[names[0]])
      case Err(e) =>
      case Ok(next) =>
        MergeEntryKeeps(m, names[0], source[names[0]]);
        ExtendWithKeeps(next, names[1..], source);
    }
  }

  /** One successful merge step keeps everything `ExtendWithKeeps` promises. */
  lemma MergeEntryKeeps(m: TypeMap, name: string, incoming: TypeKind)
    requires ValidMap(m) && MergeEntry(m, name, incoming).Ok?
    ensures var next := MergeEntry(m, name, incoming).value;
      && ValidMap(next)
      && m.entries.Keys <= next.entries.Keys
      && m.order <= next.order
      && forall n | n in m.entries && !IsForwardDecl(m.entries[n]) :: next.entries[n] == m.entries[n]
  {
    InsertValid(m, name, incoming);
  }

  lemma FreshOfKeys(names: seq<string>, entries: map<string, TypeKind>)
    requires forall n | n in names :: n in entries
    ensures Fresh(names, entries) == []
  {
    if |names| > 0 {
      FreshOfKeys(names[1..], entries);
    }
  }

  lemma MergedWithItself(entries: map<string, TypeKind>, names: seq<string>)
    requires forall n | n in names :: n in entries
    ensures MergedEntries(entries, names, entries) == entries
  {
    var merged := MergedEntries(entries, names, entries);
    assert merged.Keys == entries.Keys;
    forall n | n in entries ensures merged[n] == entries[n] {
    }
  }

  /** Merging a table with a structurally identical copy of itself succeeds
      and changes nothing. */
  lemma ExtendWithCopy(m: TypeMap)
    requires ValidMap(m)
    ensures ExtendWith(m, m.order, m.entries) == Extended(m, Ok(()))
  {
    var out := ExtendWith(m, m.order, m.entries);
    forall i | 0 <= i < |m.order| ensures !Conflicts(m.entries, m.order[i], m.entries[m.order[i]]) {
    }
    ExtendWithSucceeds(m, m.order, m.entries);
    assert out.result.Ok? && out.result.value == ();
    ExtendWithMerges(m, m.order, m.entries);
    MergedWithItself(m.entries, m.order);
    ExtendWithAppends(m, m.order, m.entries);
    FreshOfKeys(m.order, m.entries);
    assert out.table.order == m.order;
    assert out.table == m;
  }

  function Single(name: string, kind: TypeKind): TypeMap
  {
    TypeMap([name], map[name := kind])
  }

  /** A forward declaration and a full definition of one name merge into the
      full definition in either order; two forward declarations merge into the
      incoming one. */
  lemma ForwardMeetsFull(name: string, forward: TypeKind, full: TypeKind)
    requires IsForwardDecl(forward) && !IsForwardDecl(full)
    ensures ExtendWith(Single(name, forward), [name], map[name := full]) == Extended(Single(name, full), Ok(()))
    ensures ExtendWith(Single(name, full), [name], map[name := forward]) == Extended(Single(name, full), Ok(()))
  {
  }

  lemma ForwardMeetsForward(name: string, current: TypeKind, incoming: TypeKind)
    requires IsForwardDecl(current) && IsForwardDecl(incoming)
    ensures ExtendWith(Single(name, current), [name], map[name := incoming]) == Extended(Single(name, incoming), Ok(()))
  {
  }

  /** Two full definitions of one name that differ fail, in either order, and
      the table keeps its own definition. */
  lemma FullMeetsFull(name: string, a: TypeKind, b: TypeKind)
    requires !IsForwardDecl(a) && !IsForwardDecl(b) && a != b
    ensures ExtendWith(Single(name, a), [name], map[name := b]) == Extended(Single(name, a), Err(ConflictingTypes(a, b)))
    ensures ExtendWith(Single(name, b), [name], map[name := a]) == Extended(Single(name, b), Err(ConflictingTypes(b, a)))
  {
  }

  /** The order the two tables are merged in does not matter for one name,
      unless both are forward declarations that differ: then the incoming
      one wins, so the result depends on the order. */
  lemma SingleMergeCommutes(name: string, a: TypeKind, b: TypeKind)
    requires !(IsForwardDecl(a) && IsForwardDecl(b) && a != b)
    ensures ExtendWith(Single(name, a), [name], map[name := b]).result.Ok?
        <==> ExtendWith(Single(name, b), [name], map[name := a]).result.Ok?
    ensures ExtendWith(Single(name, a), [name], map[name := b]).result.Ok? ==>
      ExtendWith(Single(name, a), [name], map[name := b]).table == ExtendWith(Single(name, b), [name], map[name := a]).table
  {
  }

  lemma UnequalForwardsDependOnOrder(name: string, a: TypeKind, b: TypeKind)
    requires IsForwardDecl(a) && IsForwardDecl(b) && a != b
    ensures ExtendWith(Single(name, a), [name], map[name := b]) == Extended(Single(name, b), Ok(()))
    ensures ExtendWith(Single(name, b), [name], map[name := a]) == Extended(Single(name, a), Ok(()))
  {
  }

  /** Typedefs are never forward declarations, so two typedefs of one name
      that differ only in a qualifier conflict. */
  lemma TypedefQualifierConflict(t: TypedefDecl)
    ensures var u := t.(constant := !t.constant);
      ExtendWith(Single(t.name, Typedef(t)), [t.name], map[t.name := Typedef(u)]).result
        == Err(ConflictingTypes(Typedef(t), Typedef(u)))
  {
  }

  /** The table as the program holds it: `order` and `entries` together are
      the insertion-ordered map. */
  class Types {
    var order: seq<string>
    var entries: map<string, TypeKind>

    ghost predicate Valid()
      reads this
    {
      ValidMap(TypeMap(order, entries))
    }

    function Model(): TypeMap
      reads this
    {
      TypeMap(order, entries)
    }

    /** `Types::new`: an empty table. */
    constructor ()
      ensures Valid() && Model() == EmptyMap
    {
      order := [];
      entries := map[];
    }

    /** `add_type`: a kind with a name is inserted under that name, replacing
        any previous entry; a kind without one is refused and nothing changes. */
    method AddType(kind: TypeKind) returns (added: bool)
      requires Valid()
      modifies this
      ensures Valid()
      ensures added <==> Name(kind).Some?
      ensures added ==> Model() == Insert(old(Model()), Name(kind).value, kind)
      ensures added ==> Get(Name(kind).value) == Some(kind)
      ensures added && Name(kind).value in old(entries) ==> Len() == old(Len())
      ensures added && Name(kind).value !in old(entries) ==> Len() == old(Len()) + 1
      ensures !added ==> Model() == old(Model())
    {
      match Name(kind) {
        case Some(name) =>
          if name !in entries {
            order := order + [name];
          }
          entries := entries[name := kind];
          added := true;
        case None =>
          added := false;
      }
    }

    /** `types`: the kinds in insertion order. */
    function Values(): (r: seq<TypeKind>)
      requires Valid()
      reads this
      ensures |r| == |order| && forall i | 0 <= i < |order| :: r[i] == entries[order[i]]
    {
      ValuesOf(order, entries)
    }

    /** `len`: the number of entries. */
    function Len(): (r: nat)
      reads this
      ensures Valid() ==> r == |order| && r == |Values()|
    {
      ValidMapLength(Model());
      |entries|
    }

    /** `is_empty`: holds exactly when there are no entries. */
    function IsEmpty(): (r: bool)
      reads this
      ensures r <==> Len() == 0
      ensures r <==> entries == map[]
    {
      Len() == 0
    }

    /** `get`: the kind registered under the name, if any. */
    function Get(name: string): (r: Option<TypeKind>)
      reads this
      ensures r.Some? <==> name in entries
      ensures r.Some? ==> r.value == entries[name]
    {
      if name in entries then Some(entries[name]) else None
    }

    /** `extend`: merges the other table's entries in its order, stopping at
        the first conflict; the outcome is `ExtendWith` on the old table. The
        other table is consumed by the source, so it is never this one. */
    method Extend(other: Types) returns (r: Result<(), ExtendTypesError>)
      requires Valid() && other.Valid() && other != this
      modifies this
      ensures Valid()
      ensures ExtendWith(old(Model()), other.order, other.entries) == Extended(Model(), r)
    {
      var names := other.order;
      var i := 0;
      while i < |names|
        invariant 0 <= i <= |names|
        invariant Valid()
        invariant forall n | n in names :: n in other.entries
        invariant ExtendWith(Model(), names[i..], other.entries) == ExtendWith(old(Model()), names, other.entries)
      {
        var name := names[i];
        var value := other.entries[name];
        assert names[i..][0] == name && names[i..][1..] == names[i + 1..];
        var step := MergeEntry(Model(), name, value);
        if step.Err? {
          return Err(step.error);
        }
        MergeEntryKeeps(Model(), name, value);
        order, entries := step.value.order, step.value.entries;
        i := i + 1;
      }
      return Ok(());
    }
  }
}
