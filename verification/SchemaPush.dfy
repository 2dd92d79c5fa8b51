/** Additive schema push: `detect_destructive_changes` and `grandfather_trgm` of core/src/engine.rs. */
module SchemaPush {
  import opened Wrappers
  import opened Schema
  import opened Validation
  import opened Ordering
  import TypeChange

  // ---------- what a push must keep ----------

  /** The first index of that name, as `iter().find` returns it. */
  function FindIndex(indexes: seq<IndexDef>, name: string): (r: Option<IndexDef>)
    ensures r.Some? ==> r.value in indexes && r.value.name == name
    ensures r.None? ==> forall ix | ix in indexes :: ix.name != name
  {
    if indexes == [] then None
    else if indexes[0].name == name then Some(indexes[0])
    else FindIndex(indexes[1..], name)
  }

  /** It is the first of that name. */
  lemma {:induction false} FindIndexIsFirst(indexes: seq<IndexDef>, i: nat)
    requires i < |indexes| && forall j | 0 <= j < i :: indexes[j].name != indexes[i].name
    ensures FindIndex(indexes, indexes[i].name) == Some(indexes[i])
    decreases i
  {
    if i == 0 {
    } else {
      FindIndexIsFirst(indexes[1..], i - 1);
    }
  }

  /** The compared aspects of an index, in the order the source checks them. */
  datatype IndexAspect = Fields | Kind | VectorSpec | Uniqueness | Predicate | Language

  function FirstDifference(prev: IndexDef, next: IndexDef): (r: Option<IndexAspect>) {
    if next.fields != prev.fields then Some(Fields)
    else if next.search != prev.search then Some(Kind)
    else if next.vector != prev.vector then Some(VectorSpec)
    else if next.unique != prev.unique then Some(Uniqueness)
    else if next.filter != prev.filter then Some(Predicate)
    else if next.language != prev.language then Some(Language)
    else None
  }

  /** An index is kept exactly when nothing but its `trgm` flag differs. */
  lemma NoDifferenceMeansSame(prev: IndexDef, next: IndexDef)
    requires prev.name == next.name
    ensures FirstDifference(prev, next).None? <==> next == prev.(trgm := next.trgm)
  {
  }

  /** Whether the two definitions differ in an aspect. */
  ghost predicate Differs(prev: IndexDef, next: IndexDef, aspect: IndexAspect) {
    match aspect
    case Fields => prev.fields != next.fields
    case Kind => prev.search != next.search
    case VectorSpec => prev.vector != next.vector
    case Uniqueness => prev.unique != next.unique
    case Predicate => prev.filter != next.filter
    case Language => prev.language != next.language
  }

  /** The order of the checks: key fields, kind, vector, uniqueness, predicate, language. */
  ghost function Rank(aspect: IndexAspect): nat {
    match aspect
    case Fields => 0
    case Kind => 1
    case VectorSpec => 2
    case Uniqueness => 3
    case Predicate => 4
    case Language => 5
  }

  /** The aspect reported is the first that differs. */
  lemma FirstDifferenceIsFirst(prev: IndexDef, next: IndexDef, aspect: IndexAspect)
    ensures FirstDifference(prev, next) == Some(aspect) <==>
            Differs(prev, next, aspect) && forall a: IndexAspect | Rank(a) < Rank(aspect) :: !Differs(prev, next, a)
  {
    assert Rank(Fields) < Rank(Kind) < Rank(VectorSpec) < Rank(Uniqueness) < Rank(Predicate) < Rank(Language);
  }

  predicate IndexKept(prev: IndexDef, nexts: seq<IndexDef>) {
    var next := FindIndex(nexts, prev.name);
    next.Some? && FirstDifference(prev, next.value).None?
  }

  predicate FieldKept(prev: map<string, FieldType>, next: map<string, FieldType>, k: string)
    requires k in prev
  {
    k in next && !IsTypeChangeRejected(prev[k], next[k])
  }

  predicate FieldsKept(prev: map<string, FieldType>, next: map<string, FieldType>) {
    forall k | k in prev :: FieldKept(prev, next, k)
  }

  predicate IndexesKept(prev: seq<IndexDef>, next: seq<IndexDef>) {
    forall ix | ix in prev :: IndexKept(ix, next)
  }

  predicate TableKept(prev: TableDef, next: TableDef) {
    FieldsKept(prev.fields, next.fields) && IndexesKept(prev.indexes, next.indexes)
  }

  /** No table, field or index vanishes or changes its definition. */
  predicate Additive(prev: SchemaDef, next: SchemaDef) {
    forall t | t in prev :: t in next && TableKept(prev[t], next[t])
  }

  datatype Destructive =
    | RemovedTable(table: string)
    | RemovedField(table: string, field: string)
    | ChangedType(table: string, field: string)
    | RemovedIndex(table: string, index: string)
    | ChangedIndex(table: string, index: string, aspect: IndexAspect)

  /** The reported field is gone or retyped as reported, and is the first such in key order. */
  ghost predicate IsFirstField(e: Destructive, prev: map<string, FieldType>, next: map<string, FieldType>) {
    (e.RemovedField? || e.ChangedType?) &&
    e.field in prev && !FieldKept(prev, next, e.field) && (e.RemovedField? <==> e.field !in next) &&
    forall k | k in prev && AtMost(k, e.field) :: k == e.field || FieldKept(prev, next, k)
  }

  /** The index at `i` is gone, or first differs in the reported aspect, and those before it are kept. */
  ghost predicate IsFirstIndex(e: Destructive, prev: seq<IndexDef>, next: seq<IndexDef>, i: nat) {
    i < |prev| && (forall j | 0 <= j < i :: IndexKept(prev[j], next)) &&
    var found := FindIndex(next, prev[i].name);
    if e.RemovedIndex? then e.index == prev[i].name && found.None?
    else
      e.ChangedIndex? && e.index == prev[i].name && found.Some? &&
      FirstDifference(prev[i], found.value) == Some(e.aspect)
  }

  ghost predicate IsFirstInTable(e: Destructive, prev: TableDef, next: TableDef) {
    IsFirstField(e, prev.fields, next.fields) ||
    (FieldsKept(prev.fields, next.fields) && exists i :: IsFirstIndex(e, prev.indexes, next.indexes, i))
  }

  /** The reported change is real, and the first in the order of the check: tables, then fields, then indexes. */
  ghost predicate IsFirstChange(e: Destructive, prev: SchemaDef, next: SchemaDef) {
    e.table in prev &&
    (forall t | t in prev && AtMost(t, e.table) :: t == e.table || (t in next && TableKept(prev[t], next[t]))) &&
    if e.RemovedTable? then e.table !in next
    else e.table in next && IsFirstInTable(e, prev[e.table], next[e.table])
  }

  // ---------- the check, as it runs ----------

  method DetectFieldChanges(table: string, prev: map<string, FieldType>, next: map<string, FieldType>)
    returns (r: Option<Destructive>)
    ensures r.None? <==> FieldsKept(prev, next)
    ensures r.Some? ==> r.value.table == table && IsFirstField(r.value, prev, next)
  {
    var rest := prev.Keys;
    while rest != {}
      invariant rest <= prev.Keys
      invariant forall k | k in prev && k !in rest :: FieldKept(prev, next, k)
    {
      var k := Least(rest);
      NothingBelowLeast(rest);
      if k !in next {
        return Some(RemovedField(table, k));
      }
      if IsTypeChangeRejected(prev[k], next[k]) {
        return Some(ChangedType(table, k));
      }
      rest := rest - {k};
    }
    return None;
  }

  method DetectIndexChanges(table: string, prev: seq<IndexDef>, next: seq<IndexDef>)
    returns (r: Option<Destructive>)
    ensures r.None? <==> IndexesKept(prev, next)
    ensures r.Some? ==> r.value.table == table && exists i :: IsFirstIndex(r.value, prev, next, i)
  {
    for i := 0 to |prev|
      invariant forall j | 0 <= j < i :: IndexKept(prev[j], next)
    {
      var ix := prev[i];
      var found := FindIndex(next, ix.name);
      if found.None? {
        r := Some(RemovedIndex(table, ix.name));
        assert ix in prev && IsFirstIndex(r.value, prev, next, i);
        return;
      }
      var difference := FirstDifference(ix, found.value);
      if difference.Some? {
        r := Some(ChangedIndex(table, ix.name, difference.value));
        assert ix in prev && IsFirstIndex(r.value, prev, next, i);
        return;
      }
    }
    return None;
  }

  /** `Ok` exactly when the push is additive; otherwise the error is the first destructive change. */
  method DetectDestructiveChanges(prev: SchemaDef, next: SchemaDef) returns (r: Result<(), Destructive>)
    ensures r.Ok? <==> Additive(prev, next)
    ensures r.Err? ==> IsFirstChange(r.error, prev, next)
  {
    var rest := prev.Keys;
    while rest != {}
      invariant rest <= prev.Keys
      invariant forall t | t in prev && t !in rest :: t in next && TableKept(prev[t], next[t])
    {
      var t := Least(rest);
      NothingBelowLeast(rest);
      if t !in next {
        return Err(RemovedTable(t));
      }
      var fieldChange := DetectFieldChanges(t, prev[t].fields, next[t].fields);
      if fieldChange.Some? {
        return Err(fieldChange.value);
      }
      var indexChange := DetectIndexChanges(t, prev[t].indexes, next[t].indexes);
      if indexChange.Some? {
        return Err(indexChange.value);
      }
      rest := rest - {t};
    }
    return Ok(());
  }

  /** So the two schemas alone determine the report. */
  lemma ReportIsDetermined(prev: SchemaDef, next: SchemaDef, a: Destructive, b: Destructive)
    requires IsFirstChange(a, prev, next) && IsFirstChange(b, prev, next)
    ensures a == b
  {
    FirstIsNotKept(a, prev, next);
    FirstIsNotKept(b, prev, next);
    AtMostIsTotal(a.table, b.table);
    assert a.table == b.table;
    if !a.RemovedTable? {
      ReportInTableIsDetermined(prev[a.table], next[a.table], a, b);
    }
  }

  lemma FirstIsNotKept(e: Destructive, prev: SchemaDef, next: SchemaDef)
    requires IsFirstChange(e, prev, next)
    ensures !(e.table in next && TableKept(prev[e.table], next[e.table]))
  {
    if e.table in next {
      var was, now := prev[e.table], next[e.table];
      if FieldsKept(was.fields, now.fields) {
        var i: nat :| IsFirstIndex(e, was.indexes, now.indexes, i);
        assert was.indexes[i] in was.indexes && !IndexKept(was.indexes[i], now.indexes);
      }
    }
  }

  lemma ReportInTableIsDetermined(prev: TableDef, next: TableDef, a: Destructive, b: Destructive)
    requires IsFirstInTable(a, prev, next) && IsFirstInTable(b, prev, next) && a.table == b.table
    ensures a == b
  {
    if FieldsKept(prev.fields, next.fields) {
      var i: nat :| IsFirstIndex(a, prev.indexes, next.indexes, i);
      var j: nat :| IsFirstIndex(b, prev.indexes, next.indexes, j);
      assert i == j;
    } else {
      AtMostIsTotal(a.field, b.field);
    }
  }

  // ---------- grandfathering ----------

  predicate WasSearch(prev: seq<IndexDef>, name: string) {
    exists i | 0 <= i < |prev| :: prev[i].name == name && prev[i].search
  }

  function GrandfatheredIndex(prev: seq<IndexDef>, ix: IndexDef): (r: IndexDef) {
    if ix.search && !ix.trgm && WasSearch(prev, ix.name) then ix.(trgm := true) else ix
  }

  function GrandfatheredIndexes(prev: seq<IndexDef>, next: seq<IndexDef>): (r: seq<IndexDef>) {
    seq(|next|, i requires 0 <= i < |next| => GrandfatheredIndex(prev, next[i]))
  }

  function Grandfathered(prev: Option<SchemaDef>, next: SchemaDef): (r: SchemaDef) {
    match prev
    case None => next
    case Some(p) =>
      map t | t in next ::
        if t in p then next[t].(indexes := GrandfatheredIndexes(p[t].indexes, next[t].indexes))
        else next[t]
  }

  method GrandfatherIndexes(prev: seq<IndexDef>, declared: seq<IndexDef>) returns (next: seq<IndexDef>)
    ensures next == GrandfatheredIndexes(prev, declared)
  {
    next := declared;
    for i := 0 to |declared|
      invariant |next| == |declared|
      invariant forall j | 0 <= j < i :: next[j] == GrandfatheredIndex(prev, declared[j])
      invariant forall j | i <= j < |declared| :: next[j] == declared[j]
    {
      if next[i].search && !next[i].trgm {
        if WasSearch(prev, next[i].name) {
          next := next[i := next[i].(trgm := true)];
        }
      }
    }
  }

  /** The in-place pass over `new`, table by table and index by index. */
  method GrandfatherTrgm(prev: Option<SchemaDef>, declared: SchemaDef) returns (next: SchemaDef)
    ensures next == Grandfathered(prev, declared)
    ensures IsStoredSchema(prev, declared, next)
  {
    GrandfatherExactly(prev, declared);
    next := declared;
    if prev.None? {
      return;
    }
    ghost var goal := Grandfathered(prev, declared);
    var rest := declared.Keys;
    while rest != {}
      invariant rest <= declared.Keys == next.Keys
      invariant forall t | t in declared :: next[t] == if t in rest then declared[t] else goal[t]
    {
      var t :| t in rest;
      if t in prev.value {
        var indexes := GrandfatherIndexes(prev.value[t].indexes, next[t].indexes);
        next := next[t := next[t].(indexes := indexes)];
      }
      rest := rest - {t};
    }
  }

  /** The flag is set when it is declared, or when a search index of that name was a search index before. */
  ghost predicate TrgmAsStored(prev: seq<IndexDef>, ix: IndexDef, trgm: bool) {
    trgm <==> ix.trgm || (ix.search && exists was :: was in prev && was.name == ix.name && was.search)
  }

  /** `stored` is `declared` with the flags of its indexes as stored, and nothing else changed. */
  ghost predicate IsStoredTable(prev: Option<TableDef>, declared: TableDef, stored: TableDef) {
    |stored.indexes| == |declared.indexes| && stored == declared.(indexes := stored.indexes) &&
    forall i | 0 <= i < |declared.indexes| ::
      stored.indexes[i] == declared.indexes[i].(trgm := stored.indexes[i].trgm) &&
      TrgmAsStored(if prev.Some? then prev.value.indexes else [], declared.indexes[i], stored.indexes[i].trgm)
  }

  /** The table of that name in the schema stored so far. */
  ghost function OldTable(prev: Option<SchemaDef>, t: string): Option<TableDef> {
    if prev.Some? then Get(prev.value, t) else None
  }

  ghost predicate IsStoredSchema(prev: Option<SchemaDef>, declared: SchemaDef, stored: SchemaDef) {
    stored.Keys == declared.Keys && forall t | t in declared :: IsStoredTable(OldTable(prev, t), declared[t], stored[t])
  }

  lemma GrandfatheredIndexesAre(prev: seq<IndexDef>, declared: seq<IndexDef>, i: nat)
    requires i < |declared|
    ensures var r := GrandfatheredIndexes(prev, declared)[i];
            r == declared[i].(trgm := r.trgm) && TrgmAsStored(prev, declared[i], r.trgm)
  {
  }

  /** What the pass stores: the declared tables, apart from the flags of their indexes, and those exactly so. */
  lemma GrandfatherExactly(prev: Option<SchemaDef>, declared: SchemaDef)
    ensures IsStoredSchema(prev, declared, Grandfathered(prev, declared))
  {
    forall t | t in declared
      ensures IsStoredTable(OldTable(prev, t), declared[t], Grandfathered(prev, declared)[t])
    {
      if prev.Some? && t in prev.value {
        forall i: nat | i < |declared[t].indexes| {
          GrandfatheredIndexesAre(prev.value[t].indexes, declared[t].indexes, i);
        }
      }
    }
  }

  /** So the old and the declared schema determine what is stored. */
  lemma StoredIsDetermined(prev: Option<SchemaDef>, declared: SchemaDef, stored: SchemaDef)
    requires IsStoredSchema(prev, declared, stored)
    ensures stored == Grandfathered(prev, declared)
  {
    GrandfatherExactly(prev, declared);
    forall t | t in declared ensures stored[t] == Grandfathered(prev, declared)[t] {
      SameIndexes(OldTable(prev, t), declared[t], stored[t], Grandfathered(prev, declared)[t]);
    }
  }

  lemma SameIndexes(prev: Option<TableDef>, declared: TableDef, a: TableDef, b: TableDef)
    requires IsStoredTable(prev, declared, a) && IsStoredTable(prev, declared, b)
    ensures a == b
  {
    forall i | 0 <= i < |a.indexes| ensures a.indexes[i] == b.indexes[i] {
      assert a.indexes[i].trgm == b.indexes[i].trgm;
    }
    assert a.indexes == b.indexes;
  }

  /** Running it again changes nothing. */
  lemma GrandfatherIsIdempotent(prev: Option<SchemaDef>, next: SchemaDef)
    ensures Grandfathered(prev, Grandfathered(prev, next)) == Grandfathered(prev, next)
  {
    if prev.Some? {
      var once := Grandfathered(prev, next);
      var twice := Grandfathered(prev, once);
      forall t | t in next ensures twice[t] == once[t] {
        if t in prev.value {
          assert twice[t].indexes == once[t].indexes;
        }
      }
    }
  }

  // ---------- the check does not see trgm ----------

  lemma {:induction false} FindGrandfathered(prev: seq<IndexDef>, next: seq<IndexDef>, name: string)
    ensures var found, kept := FindIndex(next, name), FindIndex(GrandfatheredIndexes(prev, next), name);
            kept == if found.Some? then Some(GrandfatheredIndex(prev, found.value)) else None
  {
    if next == [] {
    } else {
      assert GrandfatheredIndexes(prev, next)[1..] == GrandfatheredIndexes(prev, next[1..]);
      FindGrandfathered(prev, next[1..], name);
    }
  }

  lemma IndexesKeptGrandfathered(base: seq<IndexDef>, prev: seq<IndexDef>, next: seq<IndexDef>)
    ensures IndexesKept(base, GrandfatheredIndexes(prev, next)) <==> IndexesKept(base, next)
  {
    forall ix | ix in base
      ensures IndexKept(ix, GrandfatheredIndexes(prev, next)) <==> IndexKept(ix, next)
    {
      FindGrandfathered(prev, next, ix.name);
    }
  }

  lemma TableKeptGrandfathered(base: TableDef, prev: Option<SchemaDef>, next: SchemaDef, t: string)
    requires t in next
    ensures TableKept(base, Grandfathered(prev, next)[t]) <==> TableKept(base, next[t])
  {
    if prev.Some? && t in prev.value {
      IndexesKeptGrandfathered(base.indexes, prev.value[t].indexes, next[t].indexes);
    }
  }

  /** Grandfathering never changes the verdict of the additive check. */
  lemma GrandfatherIsInvisible(base: SchemaDef, prev: Option<SchemaDef>, next: SchemaDef)
    ensures Additive(base, Grandfathered(prev, next)) <==> Additive(base, next)
  {
    forall t | t in base && t in next
      ensures TableKept(base[t], Grandfathered(prev, next)[t]) <==> TableKept(base[t], next[t])
    {
      TableKeptGrandfathered(base[t], prev, next, t);
    }
  }

  /**
   After an accepted push, an index that was a search index is stored with `trgm`.
   A search index that never declared the flag therefore gains it at the next push.
   */
  lemma SearchIndexEndsWithTrgm(prev: SchemaDef, declared: SchemaDef, t: string, ix: IndexDef)
    requires Additive(prev, Grandfathered(Some(prev), declared))
    requires t in prev && ix in prev[t].indexes && ix.search
    ensures t in declared && FindIndex(Grandfathered(Some(prev), declared)[t].indexes, ix.name).Some?
    ensures FindIndex(Grandfathered(Some(prev), declared)[t].indexes, ix.name).value.trgm
  {
  }

  /** What an accepted push stores for the flag: declared, or inherited by a search index. */
  lemma StoredTrgm(prev: SchemaDef, declared: SchemaDef, t: string, ix: IndexDef)
    requires Additive(prev, Grandfathered(Some(prev), declared))
    requires t in prev && ix in prev[t].indexes && ix.trgm
    ensures t in declared && FindIndex(declared[t].indexes, ix.name).Some?
    ensures FindIndex(Grandfathered(Some(prev), declared)[t].indexes, ix.name).value.trgm
            <==> ix.search || FindIndex(declared[t].indexes, ix.name).value.trgm
  {
    FindGrandfathered(prev[t].indexes, declared[t].indexes, ix.name);
    assert IndexKept(ix, Grandfathered(Some(prev), declared)[t].indexes);
  }

  /** An index the old schema does not have keeps the flag it declares: opting in is the caller's choice. */
  lemma FreshIndexKeepsItsFlag(prev: SchemaDef, declared: SchemaDef, t: string, i: nat)
    requires t in declared && i < |declared[t].indexes|
    requires t in prev ==> FindIndex(prev[t].indexes, declared[t].indexes[i].name).None?
    ensures var kept := Grandfathered(Some(prev), declared)[t];
            |kept.indexes| == |declared[t].indexes| && kept.indexes[i] == declared[t].indexes[i]
  {
  }

  // ---------- pushes compose ----------

  /** A chain of two accepted pushes is one accepted push. */
  lemma AdditiveIsTransitive(a: SchemaDef, b: SchemaDef, c: SchemaDef)
    requires Additive(a, b) && Additive(b, c)
    ensures Additive(a, c)
  {
    forall t | t in a ensures t in c && TableKept(a[t], c[t]) {
      assert TableKept(a[t], b[t]) && TableKept(b[t], c[t]);
      forall k | k in a[t].fields
        ensures k in c[t].fields && !IsTypeChangeRejected(a[t].fields[k], c[t].fields[k])
      {
        TypeChange.AcceptanceIsTransitive(a[t].fields[k], b[t].fields[k], c[t].fields[k]);
      }
      forall ix | ix in a[t].indexes ensures IndexKept(ix, c[t].indexes) {
        assert IndexKept(ix, b[t].indexes);
        assert IndexKept(FindIndex(b[t].indexes, ix.name).value, c[t].indexes);
      }
    }
  }

  ghost predicate SameNamedIndexesAgree(s: SchemaDef) {
    forall t, x, y | t in s && x in s[t].indexes && y in s[t].indexes && x.name == y.name ::
      FirstDifference(x, y).None?
  }

  /** Re-pushing a schema is accepted exactly when its same-named indexes agree. */
  lemma AdditiveIsReflexiveExactly(s: SchemaDef)
    ensures Additive(s, s) <==> SameNamedIndexesAgree(s)
  {
  }

  // ---------- documents across one push ----------

  /**
   A document valid under the old table stays valid on every old field, and is valid
   under the new table exactly when every added top-level field is `Optional`: the
   check does not look at added fields.
   */
  lemma DocumentAcrossPush(f: Formats, prev: TableDef, next: TableDef, doc: Doc)
    requires TableKept(prev, next) && ValidDoc(f, prev.fields, doc)
    ensures forall k | k in prev.fields ::
              k in next.fields &&
              if k in doc then Valid(f, next.fields[k], doc[k]) else next.fields[k].Optional?
    ensures ValidDoc(f, next.fields, doc) <==>
            forall k | k in next.fields && k !in prev.fields :: next.fields[k].Optional?
  {
    forall k | k in prev.fields
      ensures if k in doc then Valid(f, next.fields[k], doc[k]) else next.fields[k].Optional?
    {
      if k in doc {
        TypeChange.AcceptedChangeIsSound(f, prev.fields[k], next.fields[k], doc[k]);
      } else {
        TypeChange.OptionalStaysOptional(prev.fields[k], next.fields[k]);
      }
    }
    assert forall k | k in next.fields && k !in prev.fields :: k !in doc;
  }

  /** The hole in one line: adding a required field is accepted and orphans the empty document. */
  lemma RequiredFieldIsAccepted(f: Formats)
    ensures var prev := PlainTable(map[], []);
            var next := PlainTable(map["a" := String], []);
            Additive(map["t" := prev], map["t" := next]) &&
            ValidDoc(f, prev.fields, map[]) && !ValidDoc(f, next.fields, map[])
  {
    var next := PlainTable(map["a" := String], []);
    assert "a" in next.fields && !next.fields["a"].Optional?;
  }

  // ---------- the additive check, in full ----------

  /** The first index of that name has the same definition, `trgm` aside. */
  ghost predicate KeepsIndex(was: IndexDef, next: seq<IndexDef>) {
    exists i :: 0 <= i < |next| && next[i] == was.(trgm := next[i].trgm) &&
                forall j | 0 <= j < i :: next[j].name != was.name
  }

  lemma FirstNamed(next: seq<IndexDef>, name: string) returns (i: nat)
    requires exists ix :: ix in next && ix.name == name
    ensures i < |next| && next[i].name == name && forall j | 0 <= j < i :: next[j].name != name
  {
    i := 0;
    while next[i].name != name
      invariant i < |next| && forall j | 0 <= j < i :: next[j].name != name
      invariant exists j :: i <= j < |next| && next[j].name == name
      decreases |next| - i
    {
      i := i + 1;
    }
  }

  lemma IndexKeptExactly(was: IndexDef, next: seq<IndexDef>)
    ensures IndexKept(was, next) <==> KeepsIndex(was, next)
  {
    if FindIndex(next, was.name).Some? {
      var i := FirstNamed(next, was.name);
      FindIndexIsFirst(next, i);
      NoDifferenceMeansSame(was, next[i]);
    }
  }

  /** A push is additive exactly when each table and field stays, with an accepted type, and each index as it was. */
  lemma AdditiveExactly(prev: SchemaDef, next: SchemaDef)
    ensures Additive(prev, next) <==>
            forall t | t in prev ::
              t in next &&
              (forall k | k in prev[t].fields ::
                 k in next[t].fields && TypeChange.MayBecome(prev[t].fields[k], next[t].fields[k])) &&
              forall ix | ix in prev[t].indexes :: KeepsIndex(ix, next[t].indexes)
  {
    forall t | t in prev && t in next
      ensures TableKept(prev[t], next[t]) <==>
              (forall k | k in prev[t].fields ::
                 k in next[t].fields && TypeChange.MayBecome(prev[t].fields[k], next[t].fields[k])) &&
              forall ix | ix in prev[t].indexes :: KeepsIndex(ix, next[t].indexes)
    {
      TableKeptExactly(prev[t], next[t]);
    }
  }

  lemma TableKeptExactly(prev: TableDef, next: TableDef)
    ensures TableKept(prev, next) <==>
            (forall k | k in prev.fields :: k in next.fields && TypeChange.MayBecome(prev.fields[k], next.fields[k])) &&
            forall ix | ix in prev.indexes :: KeepsIndex(ix, next.indexes)
  {
    forall k | k in prev.fields && k in next.fields
      ensures !IsTypeChangeRejected(prev.fields[k], next.fields[k]) <==>
              TypeChange.MayBecome(prev.fields[k], next.fields[k])
    {
      TypeChange.VerdictExactly(prev.fields[k], next.fields[k]);
    }
    forall ix | ix in prev.indexes ensures IndexKept(ix, next.indexes) <==> KeepsIndex(ix, next.indexes) {
      IndexKeptExactly(ix, next.indexes);
    }
  }
}
