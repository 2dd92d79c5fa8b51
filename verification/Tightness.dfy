/**
 The estimate is exact for committed runs: from a store that has what the steps need, every
 run that goes through changes as many rows as estimated, less the preconditions, whatever
 the engine's document rules.
 */
module Tightness {
  import opened Wrappers
  import opened Json
  import opened Wire
  import opened Schema
  import opened Validation
  import opened Evaluation
  import opened Mutation
  import opened Measures
  import opened Execution
  import opened Cascades
  import SchemaPush

  // ---------- the rows a successful write changes ----------

  /** The stores differ exactly on `refs`. */
  ghost predicate Changes(a: Docs, b: Docs, refs: set<DocRef>) {
    forall ref :: ref in refs <==> Get(a, ref) != Get(b, ref)
  }

  lemma ChangesIsDiffer(a: Docs, b: Docs, refs: set<DocRef>)
    requires Changes(a, b, refs)
    ensures Differ(a, b) == refs
  {
  }

  lemma ChangesTwice(a: Docs, b: Docs, c: Docs, first: set<DocRef>, second: set<DocRef>)
    requires Changes(a, b, first) && Changes(b, c, second) && first !! second
    ensures Changes(a, c, first + second)
  {
  }

  lemma PutChanges(st: State, ref: DocRef, row: StoredRow)
    requires Get(st.docs, ref) != Some(row)
    ensures Changes(st.docs, Put(st, ref, row).st.docs, {ref})
  {
  }

  lemma PatchChanges(e: Engine, st: State, ref: DocRef, fields: Doc)
    requires DoPatch(e, st, ref, fields).error.None?
    ensures ref in st.docs && Changes(st.docs, DoPatch(e, st, ref, fields).st.docs, {ref})
  {
    var row, merged := st.docs[ref], e.patchDoc(st, ref, fields).value;
    PutChanges(st, ref, row.(doc := merged, version := row.version + 1));
  }

  lemma ReplaceChanges(e: Engine, st: State, ref: DocRef, doc: Doc)
    requires DoReplace(e, st, ref, doc).error.None?
    ensures ref in st.docs && Changes(st.docs, DoReplace(e, st, ref, doc).st.docs, {ref})
  {
    var row, stored := st.docs[ref], e.replaceDoc(st, ref, doc).value;
    PutChanges(st, ref, row.(doc := stored, version := row.version + 1));
  }

  lemma SoftDeleteChanges(e: Engine, st: State, ref: DocRef)
    requires DoSoftDelete(e, st, ref).error.None?
    ensures ref in st.docs && Changes(st.docs, DoSoftDelete(e, st, ref).st.docs, {ref})
  {
    var row := st.docs[ref];
    PutChanges(st, ref, row.(deletedAt := Some(e.now(st.tick)), version := row.version + 1));
  }

  lemma DeleteChanges(st: State, ref: DocRef)
    requires DoDelete(st, ref).error.None?
    ensures ref in st.docs && Changes(st.docs, DoDelete(st, ref).st.docs, {ref})
  {
  }

  lemma UndeleteChanges(e: Engine, st: State, t: TableDef, ref: DocRef)
    requires DoUndelete(e, st, t, ref).error.None? && ref in st.docs && st.docs[ref].deletedAt.Some?
    ensures Changes(st.docs, DoUndelete(e, st, t, ref).st.docs, {ref})
  {
    var row := st.docs[ref];
    PutChanges(st, ref, row.(deletedAt := None, version := row.version + 1));
  }

  // ---------- new ids ----------

  /** Ids still to come are all different, and none is in the store. */
  ghost predicate FreshIds(e: Engine, st: State) {
    (forall m: nat, n: nat | st.tick <= m < n :: e.newId(m) != e.newId(n)) &&
    forall k: nat, table | st.tick <= k :: DocRef(table, e.newId(k)) !in st.docs
  }

  ghost function NewRefs(e: Engine, table: string, from: nat, n: nat): set<DocRef>
    decreases n
  {
    if n == 0 then {} else {DocRef(table, e.newId(from))} + NewRefs(e, table, from + 1, n - 1)
  }

  ghost predicate IsNew(e: Engine, from: nat, to: nat, ref: DocRef) {
    exists k: nat :: from <= k < to && ref.id == e.newId(k)
  }

  lemma {:induction false} NewRefsAreNew(e: Engine, table: string, from: nat, n: nat, ref: DocRef)
    requires ref in NewRefs(e, table, from, n)
    ensures ref.table == table && IsNew(e, from, from + n, ref)
    decreases n
  {
    if ref == DocRef(table, e.newId(from)) {
    } else {
      NewRefsAreNew(e, table, from + 1, n - 1, ref);
    }
  }

  lemma FirstIsNew(e: Engine, st: State, table: string, from: nat, n: nat)
    requires FreshIds(e, st) && st.tick <= from
    ensures DocRef(table, e.newId(from)) !in NewRefs(e, table, from + 1, n)
  {
    if DocRef(table, e.newId(from)) in NewRefs(e, table, from + 1, n) {
      NewRefsAreNew(e, table, from + 1, n, DocRef(table, e.newId(from)));
    }
  }

  lemma {:induction false} NewRefsSize(e: Engine, st: State, table: string, from: nat, n: nat)
    requires FreshIds(e, st) && st.tick <= from
    ensures |NewRefs(e, table, from, n)| == n
    decreases n
  {
    if n == 0 {
    } else {
      FirstIsNew(e, st, table, from, n - 1);
      NewRefsSize(e, st, table, from + 1, n - 1);
    }
  }

  /** An insert changes the row of its new id, and the ids after it stay fresh. */
  lemma InsertChanges(e: Engine, st: State, table: string, doc: Doc)
    requires FreshIds(e, st) && DoInsert(e, st, table, doc).error.None?
    ensures var o := DoInsert(e, st, table, doc);
            o.st.tick == st.tick + 1 && FreshIds(e, o.st) &&
            Changes(st.docs, o.st.docs, {DocRef(table, e.newId(st.tick))})
  {
    var stored := e.insertDoc(st, table, doc).value;
    PutChanges(st, DocRef(table, e.newId(st.tick)), StoredRow(stored, 1, e.now(st.tick), None));
  }

  /** A bulk write that continues with new ids. */
  ghost predicate ChangesNew(e: Engine, st: State, o: Write, table: string, n: nat) {
    st.tick + n <= o.st.tick && Changes(st.docs, o.st.docs, NewRefs(e, table, st.tick, n))
  }

  lemma NothingNew(e: Engine, st: State, table: string)
    ensures ChangesNew(e, st, Write(st, {}, None), table, 0)
  {
  }

  lemma OneMoreNew(e: Engine, st: State, first: Write, rest: Write, table: string, n: nat)
    requires FreshIds(e, st) && n > 0 && first.st.tick == st.tick + 1
    requires Changes(st.docs, first.st.docs, {DocRef(table, e.newId(st.tick))})
    requires ChangesNew(e, first.st, rest, table, n - 1)
    ensures ChangesNew(e, st, Then(first, rest), table, n)
  {
    FirstIsNew(e, st, table, st.tick, n - 1);
    ChangesTwice(st.docs, first.st.docs, rest.st.docs,
                 {DocRef(table, e.newId(st.tick))}, NewRefs(e, table, st.tick + 1, n - 1));
  }

  lemma {:induction false} InsertAllChanges(e: Engine, st: State, table: string, docs: seq<Doc>)
    requires FreshIds(e, st) && InsertAll(e, st, table, docs).error.None?
    ensures ChangesNew(e, st, InsertAll(e, st, table, docs), table, |docs|)
    decreases |docs|
  {
    if docs == [] {
      NothingNew(e, st, table);
    } else {
      var first := DoInsert(e, st, table, docs[0]);
      InsertChanges(e, st, table, docs[0]);
      InsertAllChanges(e, first.st, table, docs[1..]);
      OneMoreNew(e, st, first, InsertAll(e, first.st, table, docs[1..]), table, |docs|);
    }
  }

  // ---------- upserts that find nothing ----------

  /** The key a document is looked up by, when it has all its fields and they can be coerced. */
  ghost function LookupKey(e: Engine, t: TableDef, fields: seq<string>, doc: Doc): (r: Option<seq<Json>>)
    ensures r.Some? ==> |r.value| == |fields|
  {
    match KeyOf(fields, doc)
    case None => None
    case Some(eq) =>
      match CoerceAll(e, t, fields, eq)
      case Err(_) => None
      case Ok(key) => Some(key)
  }

  ghost predicate Hits(e: Engine, t: TableDef, fields: seq<string>, stored: Doc, doc: Doc) {
    LookupKey(e, t, fields, doc).Some? && HasKey(stored, fields, LookupKey(e, t, fields, doc).value)
  }

  /** Inserting one of the documents stores in each key field what was given, or nothing that can be looked up. */
  ghost predicate KeepsKeys(e: Engine, table: string, fields: seq<string>, all: seq<Doc>) {
    forall st, doc | doc in all && e.insertDoc(st, table, doc).Ok? ::
      forall i | 0 <= i < |fields| :: KeyKept(doc, e.insertDoc(st, table, doc).value, fields[i])
  }

  ghost predicate KeyKept(doc: Doc, stored: Doc, field: string) {
    Get(stored, field) == Get(doc, field) || field !in stored || stored[field].JNull?
  }

  /** No live row of the table is found by one of the documents from `n` on. */
  ghost predicate Missed(
    e: Engine, docs: Docs, t: TableDef, table: string, fields: seq<string>, all: seq<Doc>, n: nat)
  {
    forall ref, j | ref in docs && ref.table == table && Live(docs, ref) && n <= j < |all| ::
      !Hits(e, t, fields, docs[ref].doc, all[j])
  }

  /** No document finds an earlier one. */
  ghost predicate KeysDiffer(e: Engine, t: TableDef, fields: seq<string>, all: seq<Doc>) {
    forall i, j | 0 <= i < j < |all| :: !Hits(e, t, fields, all[i], all[j])
  }

  lemma KeptKeyHits(
    e: Engine, t: TableDef, fields: seq<string>, st: State, table: string, all: seq<Doc>, doc: Doc, later: Doc)
    requires doc in all && KeepsKeys(e, table, fields, all) && e.insertDoc(st, table, doc).Ok?
    requires Hits(e, t, fields, e.insertDoc(st, table, doc).value, later)
    ensures Hits(e, t, fields, doc, later)
  {
    var stored, key := e.insertDoc(st, table, doc).value, LookupKey(e, t, fields, later).value;
    forall i | 0 <= i < |fields|
      ensures fields[i] in doc && !doc[fields[i]].JNull? && doc[fields[i]] == key[i]
    {
      assert KeyKept(doc, stored, fields[i]);
    }
  }

  /** The next document finds nothing, so it is inserted. */
  lemma NextIsInserted(
    e: Engine, st: State, t: TableDef, table: string, ix: IndexDef, all: seq<Doc>, n: nat)
    requires n < |all| && SchemaPush.FindIndex(t.indexes, ix.name) == Some(ix)
    requires Missed(e, st.docs, t, table, ix.fields, all, n) && KeyOf(ix.fields, all[n]).Some?
    requires var o := DoUpsert(e, st, t, table, ix.name, KeyOf(ix.fields, all[n]).value, all[n], all[n]); o.error.None?
    ensures DoUpsert(e, st, t, table, ix.name, KeyOf(ix.fields, all[n]).value, all[n], all[n])
            == DoInsert(e, st, table, all[n])
  {
    var eq := KeyOf(ix.fields, all[n]).value;
    var key := CoerceAll(e, t, ix.fields, eq).value;
    assert LookupKey(e, t, ix.fields, all[n]) == Some(key);
    assert WithKey(st.docs, table, ix.fields, key) == {};
  }

  lemma InsertedIsMissed(e: Engine, st: State, t: TableDef, table: string, fields: seq<string>, all: seq<Doc>, n: nat)
    requires n < |all| && KeepsKeys(e, table, fields, all) && KeysDiffer(e, t, fields, all)
    requires Missed(e, st.docs, t, table, fields, all, n) && DoInsert(e, st, table, all[n]).error.None?
    ensures Missed(e, DoInsert(e, st, table, all[n]).st.docs, t, table, fields, all, n + 1)
  {
    var after := DoInsert(e, st, table, all[n]).st.docs;
    forall ref, j | ref in after && ref.table == table && Live(after, ref) && n + 1 <= j < |all|
      ensures !Hits(e, t, fields, after[ref].doc, all[j])
    {
      if ref != DocRef(table, e.newId(st.tick)) {
        assert after[ref] == st.docs[ref];
      } else if Hits(e, t, fields, after[ref].doc, all[j]) {
        KeptKeyHits(e, t, fields, st, table, all, all[n], all[j]);
      }
    }
  }

  /** What a list of upserts needs for every document to be inserted. */
  ghost predicate UpsertsMiss(e: Engine, docs: Docs, t: TableDef, table: string, ix: IndexDef, all: seq<Doc>, n: nat) {
    SchemaPush.FindIndex(t.indexes, ix.name) == Some(ix) && KeepsKeys(e, table, ix.fields, all) &&
    KeysDiffer(e, t, ix.fields, all) && Missed(e, docs, t, table, ix.fields, all, n)
  }

  lemma UpsertStep(e: Engine, st: State, t: TableDef, table: string, ix: IndexDef, all: seq<Doc>, n: nat)
    requires n < |all| && UpsertsMiss(e, st.docs, t, table, ix, all, n)
    requires UpsertAll(e, st, t, table, ix, all[n..]).error.None?
    ensures var first := DoInsert(e, st, table, all[n]);
            var rest := UpsertAll(e, first.st, t, table, ix, all[n + 1..]);
            first.error.None? && UpsertsMiss(e, first.st.docs, t, table, ix, all, n + 1) &&
            UpsertAll(e, st, t, table, ix, all[n..]) == Then(first, rest) && rest.error.None?
  {
    assert all[n..][0] == all[n] && all[n..][1..] == all[n + 1..];
    NextIsInserted(e, st, t, table, ix, all, n);
    InsertedIsMissed(e, st, t, table, ix.fields, all, n);
  }

  lemma {:induction false} UpsertAllInserts(
    e: Engine, st: State, t: TableDef, table: string, ix: IndexDef, all: seq<Doc>, n: nat)
    requires n <= |all| && UpsertsMiss(e, st.docs, t, table, ix, all, n)
    requires UpsertAll(e, st, t, table, ix, all[n..]).error.None?
    ensures UpsertAll(e, st, t, table, ix, all[n..]) == InsertAll(e, st, table, all[n..])
    decreases |all| - n
  {
    if n == |all| {
    } else {
      UpsertStep(e, st, t, table, ix, all, n);
      UpsertAllInserts(e, DoInsert(e, st, table, all[n]).st, t, table, ix, all, n + 1);
      assert all[n..][0] == all[n] && all[n..][1..] == all[n + 1..];
    }
  }

  lemma UpsertAllChanges(e: Engine, st: State, t: TableDef, table: string, ix: IndexDef, docs: seq<Doc>)
    requires FreshIds(e, st) && UpsertsMiss(e, st.docs, t, table, ix, docs, 0)
    requires UpsertAll(e, st, t, table, ix, docs).error.None?
    ensures ChangesNew(e, st, UpsertAll(e, st, t, table, ix, docs), table, |docs|)
  {
    assert docs[0..] == docs;
    UpsertAllInserts(e, st, t, table, ix, docs, 0);
    InsertAllChanges(e, st, table, docs);
  }

  // ---------- selected rows ----------

  lemma RefsOfSplit(table: string, ids: seq<string>)
    requires ids != [] && NoRepeats(ids)
    ensures NoRepeats(ids[1..]) && DocRef(table, ids[0]) !in RefsOf(table, ids[1..])
    ensures RefsOf(table, ids) == {DocRef(table, ids[0])} + RefsOf(table, ids[1..])
  {
  }

  lemma {:induction false} RefsOfExactSize(table: string, ids: seq<string>)
    requires NoRepeats(ids)
    ensures |RefsOf(table, ids)| == |ids|
    decreases |ids|
  {
    if ids == [] {
    } else {
      RefsOfSplit(table, ids);
      RefsOfExactSize(table, ids[1..]);
    }
  }

  lemma {:induction false} PatchAllChanges(e: Engine, st: State, table: string, ids: seq<string>, patch: Doc)
    requires NoRepeats(ids) && PatchAll(e, st, table, ids, patch).error.None?
    ensures Changes(st.docs, PatchAll(e, st, table, ids, patch).st.docs, RefsOf(table, ids))
    decreases |ids|
  {
    if ids == [] {
    } else {
      var ref := DocRef(table, ids[0]);
      var first := DoPatch(e, st, ref, patch);
      RefsOfSplit(table, ids);
      PatchChanges(e, st, ref, patch);
      PatchAllChanges(e, first.st, table, ids[1..], patch);
      ChangesTwice(st.docs, first.st.docs, PatchAll(e, first.st, table, ids[1..], patch).st.docs,
                   {ref}, RefsOf(table, ids[1..]));
    }
  }

  /** The row entered is the only one changed. */
  ghost predicate OnlyRow(w: Walk, r: Walk, ref: DocRef) {
    ref in w.st.docs && Changes(w.st.docs, r.st.docs, {ref}) && r.visited == w.visited + {ref}
  }

  lemma StampedRowChanges(e: Engine, w: Walk, ref: DocRef)
    requires w.visited == w.visited + {ref} && Apply(w, DoSoftDelete(e, w.st, ref)).error.None?
    ensures OnlyRow(w, Apply(w, DoSoftDelete(e, w.st, ref)), ref)
  {
    SoftDeleteChanges(e, w.st, ref);
  }

  lemma RemovedRowChanges(w: Walk, swept: Walk, ref: DocRef)
    requires ref in w.visited && swept.st == w.st && swept.visited == w.visited && Finish(swept, ref).error.None?
    ensures OnlyRow(w, Finish(swept, ref), ref)
  {
    DeleteChanges(w.st, ref);
    assert w.visited == w.visited + {ref};
  }

  lemma RemoveRowChanges(e: Engine, schema: SchemaDef, w: Walk, ref: DocRef)
    requires w.rows <= e.maxCascade && DeletesAlone(schema, ref.table) && ref in w.visited
    requires RemoveRow(e, schema, w, ref).error.None?
    ensures OnlyRow(w, RemoveRow(e, schema, w, ref), ref)
  {
    if schema[ref.table].softDelete {
      assert w.visited == w.visited + {ref};
      StampedRowChanges(e, w, ref);
    } else {
      var links := LinksTo(schema, ref.table);
      LinksToExactly(schema, ref.table);
      RestrictWritesNothing(e, schema, w, links, ref.id);
      RemovedRowChanges(w, WalkLinks(e, schema, w, links, ref.id), ref);
    }
  }

  lemma DeleteRowChanges(e: Engine, schema: SchemaDef, w: Walk, ref: DocRef)
    requires w.rows <= e.maxCascade && DeletesAlone(schema, ref.table) && ref !in w.visited
    requires DeleteRow(e, schema, w, ref).error.None?
    ensures OnlyRow(w, DeleteRow(e, schema, w, ref), ref)
  {
    RemoveRowChanges(e, schema, Entered(w, ref), ref);
  }

  lemma {:induction false} DeleteRowsChanges(e: Engine, schema: SchemaDef, w: Walk, table: string, ids: seq<string>)
    requires w.rows <= e.maxCascade && DeletesAlone(schema, table) && w.error.None?
    requires NoRepeats(ids) && RefsOf(table, ids) !! w.visited
    requires DeleteRows(e, schema, w, table, ids).error.None?
    ensures Changes(w.st.docs, DeleteRows(e, schema, w, table, ids).st.docs, RefsOf(table, ids))
    decreases |ids|
  {
    if ids == [] {
    } else {
      var ref := DocRef(table, ids[0]);
      var next := DeleteRow(e, schema, w, ref);
      RefsOfSplit(table, ids);
      if next.error.None? {
        DeleteRowChanges(e, schema, w, ref);
        DeleteRowsChanges(e, schema, next, table, ids[1..]);
        ChangesTwice(w.st.docs, next.st.docs, DeleteRows(e, schema, next, table, ids[1..]).st.docs,
                     {ref}, RefsOf(table, ids[1..]));
      }
    }
  }

  function Lesser(m: nat, n: nat): nat {
    if m < n then m else n
  }

  /** What a scan selects: distinct live rows, as many as match, up to the cap. */
  ghost predicate Selects(docs: Docs, table: string, ids: seq<string>, n: nat) {
    NoRepeats(ids) && |ids| == n && forall id | id in ids :: DocRef(table, id) in docs
  }

  lemma ScanSelects(e: Engine, st: State, t: TableDef, table: string, filter: FilterExpr, limit: Option<U32>)
    requires Scan(e, st, t, table, filter, limit).Ok?
    ensures Selects(st.docs, table, Scan(e, st, t, table, filter, limit).value,
                    Lesser(|Matching(e, st, t, table, filter)|, ByQueryCap(limit, e.maxRows)))
  {
    ScanIsExact(e, st, t, table, filter, limit);
    TakenAreSelected(st.docs, table, Matching(e, st, t, table, filter),
                     Scan(e, st, t, table, filter, limit).value, ByQueryCap(limit, e.maxRows));
  }

  lemma TakenAreSelected(docs: Docs, table: string, found: set<string>, ids: seq<string>, cap: nat)
    requires forall id | id in found :: DocRef(table, id) in docs
    requires TakesFirst(CreationTimes(docs, table, found), ids, cap)
    ensures Selects(docs, table, ids, Lesser(|found|, cap))
  {
    assert CreationTimes(docs, table, found).Keys == found;
  }

  /** The step succeeds, changing `n` rows of the table and no other. */
  ghost predicate StepExactly(st: State, o: Outcome, table: string, n: nat) {
    o.error.None? && |Differ(st.docs, o.st.docs)| == n &&
    forall ref | ref in Differ(st.docs, o.st.docs) :: ref.table == table
  }

  lemma PatchQueryChanges(
    e: Engine, st: State, t: TableDef, table: string, filter: FilterExpr, patch: Doc, limit: Option<U32>)
    requires PatchQueryStep(e, st, t, table, filter, patch, limit).error.None?
    ensures Scan(e, st, t, table, filter, limit).Ok?
    ensures Changes(st.docs, PatchQueryStep(e, st, t, table, filter, patch, limit).st.docs,
                    RefsOf(table, Scan(e, st, t, table, filter, limit).value))
  {
    ScanSelects(e, st, t, table, filter, limit);
    PatchAllChanges(e, Tick(st), table, Scan(e, st, t, table, filter, limit).value, patch);
  }

  /** Any engine, any store: a by-query patch that is not refused changes as many rows as match, up to the cap. */
  lemma PatchQueryExactly(
    e: Engine, st: State, t: TableDef, table: string, filter: FilterExpr, patch: Doc, limit: Option<U32>)
    requires PatchQueryStep(e, st, t, table, filter, patch, limit).error.None?
    ensures StepExactly(st, PatchQueryStep(e, st, t, table, filter, patch, limit), table,
                        Lesser(|Matching(e, st, t, table, filter)|, ByQueryCap(limit, e.maxRows)))
  {
    var ids := Scan(e, st, t, table, filter, limit).value;
    PatchQueryChanges(e, st, t, table, filter, patch, limit);
    ScanSelects(e, st, t, table, filter, limit);
    RefsOfExactSize(table, ids);
    ChangesIsDiffer(st.docs, PatchQueryStep(e, st, t, table, filter, patch, limit).st.docs, RefsOf(table, ids));
  }

  lemma DeleteQueryChanges(
    e: Engine, schema: SchemaDef, st: State, t: TableDef, table: string, filter: FilterExpr, limit: Option<U32>)
    requires DeletesAlone(schema, table) && DeleteQueryStep(e, schema, st, t, table, filter, limit).error.None?
    ensures Scan(e, st, t, table, filter, limit).Ok?
    ensures Changes(st.docs, DeleteQueryStep(e, schema, st, t, table, filter, limit).st.docs,
                    RefsOf(table, Scan(e, st, t, table, filter, limit).value))
  {
    ScanSelects(e, st, t, table, filter, limit);
    DeleteRowsChanges(e, schema, Start(Tick(st)), table, Scan(e, st, t, table, filter, limit).value);
  }

  /** The same for a by-query delete on a table whose deletes reach no other row. */
  lemma DeleteQueryExactly(
    e: Engine, schema: SchemaDef, st: State, t: TableDef, table: string, filter: FilterExpr, limit: Option<U32>)
    requires DeletesAlone(schema, table) && DeleteQueryStep(e, schema, st, t, table, filter, limit).error.None?
    ensures StepExactly(st, DeleteQueryStep(e, schema, st, t, table, filter, limit), table,
                        Lesser(|Matching(e, st, t, table, filter)|, ByQueryCap(limit, e.maxRows)))
  {
    var ids := Scan(e, st, t, table, filter, limit).value;
    DeleteQueryChanges(e, schema, st, t, table, filter, limit);
    ScanSelects(e, st, t, table, filter, limit);
    RefsOfExactSize(table, ids);
    ChangesIsDiffer(st.docs, DeleteQueryStep(e, schema, st, t, table, filter, limit).st.docs, RefsOf(table, ids));
  }

  // ---------- one step ----------

  /** The preconditions on one row or key, which the estimate counts and which write nothing. */
  predicate Observes(step: Step) {
    step.ExpectVersion? || step.ExpectFields? || step.ExpectAbsent?
  }

  function Observing(steps: seq<Step>): nat {
    if steps == [] then 0 else (if Observes(steps[0]) then 1 else 0) + Observing(steps[1..])
  }

  /** What the estimate counts for a step that writes. */
  function Written(step: Step, maxRows: U32): nat {
    if Observes(step) then 0 else WorstCaseStep(step, maxRows)
  }

  ghost predicate AlwaysMatches(e: Engine, t: TableDef, filter: FilterExpr, doc: Doc) {
    forall n: nat :: EvalFilter(e.ops, filter, Ctx(doc, t.fields, e.now(n)), Some(e.now(n)))
  }

  /** Live rows of the table that match the filter at any time. */
  ghost function Stock(e: Engine, docs: Docs, t: TableDef, table: string, filter: FilterExpr): set<string> {
    set ref | ref in docs && ref.table == table && Live(docs, ref) && AlwaysMatches(e, t, filter, docs[ref].doc)
      :: ref.id
  }

  lemma StockMatches(e: Engine, st: State, t: TableDef, table: string, filter: FilterExpr)
    ensures |Stock(e, st.docs, t, table, filter)| <= |Matching(e, st, t, table, filter)|
  {
    var now := e.now(st.tick);
    forall id | id in Stock(e, st.docs, t, table, filter) ensures id in Matching(e, st, t, table, filter) {
      var ref := DocRef(table, id);
      assert ref in st.docs && AlwaysMatches(e, t, filter, st.docs[ref].doc);
      assert EvalFilter(e.ops, filter, Ctx(st.docs[ref].doc, t.fields, now), Some(now));
    }
    SubsetSize(Stock(e, st.docs, t, table, filter), Matching(e, st, t, table, filter));
  }

  /** The row is there, deleted if it is to be restored, and a delete of it reaches no other row. */
  ghost predicate RowStocked(schema: SchemaDef, docs: Docs, step: Step)
    requires NamesRow(step)
  {
    var ref := DocRef(step.table, step.id);
    ref in docs && (step.Undelete? ==> docs[ref].deletedAt.Some?) && (step.Delete? ==> DeletesAlone(schema, step.table))
  }

  /** As many rows as the step may take match, and deletes of them reach no other row. */
  ghost predicate QueryStocked(e: Engine, schema: SchemaDef, docs: Docs, step: Step)
    requires IsQuery(step)
  {
    step.table in schema && (step.DeleteByQuery? ==> DeletesAlone(schema, step.table)) &&
    |Stock(e, docs, schema[step.table], step.table, step.filter)| >= ByQueryCap(step.limit, e.maxRows)
  }

  /** The documents have different keys, and none is found in the table. */
  ghost predicate UpsertsStocked(e: Engine, schema: SchemaDef, docs: Docs, step: Step)
    requires step.UpsertMany?
  {
    step.table in schema &&
    var ix := SchemaPush.FindIndex(schema[step.table].indexes, step.index);
    ix.Some? && UpsertsMiss(e, docs, schema[step.table], step.table, ix.value, step.docs, 0)
  }

  /** The store has what the step needs to write as much as it can. */
  ghost predicate Stocked(e: Engine, schema: SchemaDef, docs: Docs, step: Step) {
    (NamesRow(step) ==> RowStocked(schema, docs, step)) &&
    (IsQuery(step) ==> QueryStocked(e, schema, docs, step)) &&
    (step.UpsertMany? ==> UpsertsStocked(e, schema, docs, step))
  }

  predicate Inserts(step: Step) {
    step.Insert? || step.InsertMany?
  }

  /** A row the step may change: in its table, the one it names, or one with a new id. */
  ghost predicate Owned(e: Engine, st: State, after: State, step: Step, ref: DocRef) {
    HasTable(step) && ref.table == step.table && (ref in st.docs || IsNew(e, st.tick, after.tick, ref)) &&
    (NamesRow(step) ==> ref.id == step.id) && (Inserts(step) ==> IsNew(e, st.tick, after.tick, ref))
  }

  ghost predicate Tight(e: Engine, st: State, o: Outcome, step: Step, refs: set<DocRef>, n: nat) {
    st.tick <= o.st.tick && Changes(st.docs, o.st.docs, refs) && |refs| == n &&
    forall ref | ref in refs :: Owned(e, st, o.st, step, ref)
  }

  lemma DeleteStepChanges(e: Engine, schema: SchemaDef, st: State, ref: DocRef)
    requires DeletesAlone(schema, ref.table) && DeleteStep(e, schema, st, schema[ref.table], ref).error.None?
    ensures Changes(st.docs, DeleteStep(e, schema, st, schema[ref.table], ref).st.docs, {ref})
  {
    if schema[ref.table].softDelete {
      SoftDeleteChanges(e, st, ref);
    } else {
      DeleteRowChanges(e, schema, Start(st), ref);
    }
  }

  lemma RowChanges(e: Engine, schema: SchemaDef, st: State, ref: DocRef, step: Step)
    requires NamesRow(step) && ref == DocRef(step.table, step.id) && RowStocked(schema, st.docs, step)
    requires ref.table in schema && RunRow(e, schema, st, schema[ref.table], ref, step).error.None?
    ensures Changes(st.docs, RunRow(e, schema, st, schema[ref.table], ref, step).st.docs, {ref})
  {
    if step.Patch? {
      PatchChanges(e, st, ref, step.fields);
    } else if step.AdjustCounter? {
      PatchChanges(e, st, ref, e.adjust(st, step).value);
    } else if step.Replace? {
      ReplaceChanges(e, st, ref, step.doc);
    } else if step.Delete? {
      DeleteStepChanges(e, schema, st, ref);
    } else {
      UndeleteChanges(e, st, schema[ref.table], ref);
    }
  }

  lemma SingletonSize<T>(s: set<T>, x: T)
    requires x in s && |s| <= 1
    ensures s == {x}
  {
    if s != {x} {
      var y :| y in s && y != x;
      assert |{x, y}| == 2;
      SubsetSize({x, y}, s);
    }
  }

  /** An upsert that succeeds changes the row it finds, or inserts one. */
  lemma UpsertChanges(
    e: Engine, st: State, t: TableDef, table: string, index: string, eq: seq<Json>, insert: Doc, patch: Doc)
    returns (ref: DocRef)
    requires FreshIds(e, st) && DoUpsert(e, st, t, table, index, eq, insert, patch).error.None?
    ensures var o := DoUpsert(e, st, t, table, index, eq, insert, patch);
            Changes(st.docs, o.st.docs, {ref}) && ref.table == table &&
            (ref in st.docs || IsNew(e, st.tick, o.st.tick, ref))
  {
    var ids := EqLookup(e, st.docs, t, table, index, eq).value;
    if ids == {} {
      ref := DocRef(table, e.newId(st.tick));
      InsertChanges(e, st, table, insert);
    } else {
      var found := WithKey(st.docs, table, SchemaPush.FindIndex(t.indexes, index).value.fields,
                           CoerceAll(e, t, SchemaPush.FindIndex(t.indexes, index).value.fields, eq).value);
      assert ids == found;
      var id :| id in ids;
      assert ids == {id} by { SingletonSize(ids, id); }
      ref := DocRef(table, id);
      PatchChanges(e, st, ref, patch);
    }
  }

  lemma RowIsTight(e: Engine, schema: SchemaDef, st: State, step: Step) returns (refs: set<DocRef>)
    requires NamesRow(step) && step.table in schema && RowStocked(schema, st.docs, step)
    requires var o := RunRow(e, schema, st, schema[step.table], DocRef(step.table, step.id), step);
             o.error.None? && st.tick <= o.st.tick
    ensures Tight(e, st, RunRow(e, schema, st, schema[step.table], DocRef(step.table, step.id), step), step, refs, 1)
  {
    var ref := DocRef(step.table, step.id);
    refs := {ref};
    RowChanges(e, schema, st, ref, step);
  }

  /** Rows with new ids belong to a step that inserts. */
  lemma NewRefsAreOwned(e: Engine, st: State, o: Outcome, step: Step, n: nat)
    requires IsInsert(step) && FreshIds(e, st) && st.tick + n <= o.st.tick
    requires Changes(st.docs, o.st.docs, NewRefs(e, step.table, st.tick, n))
    ensures Tight(e, st, o, step, NewRefs(e, step.table, st.tick, n), n)
  {
    NewRefsSize(e, st, step.table, st.tick, n);
    forall ref | ref in NewRefs(e, step.table, st.tick, n) ensures Owned(e, st, o.st, step, ref) {
      NewRefsAreNew(e, step.table, st.tick, n, ref);
    }
  }

  lemma InsertIsTight(e: Engine, schema: SchemaDef, st: State, step: Step) returns (refs: set<DocRef>)
    requires Inserts(step) && step.table in schema && FreshIds(e, st)
    requires RunInsert(e, st, schema[step.table], step).error.None?
    ensures Tight(e, st, RunInsert(e, st, schema[step.table], step), step, refs, WorstCaseStep(step, e.maxRows))
  {
    refs := NewRefs(e, step.table, st.tick, WorstCaseStep(step, e.maxRows));
    if step.Insert? {
      InsertChanges(e, st, step.table, step.doc);
      assert refs == {DocRef(step.table, e.newId(st.tick))} + NewRefs(e, step.table, st.tick + 1, 0);
    } else {
      InsertAllChanges(e, st, step.table, step.docs);
    }
    NewRefsAreOwned(e, st, RunInsert(e, st, schema[step.table], step), step, WorstCaseStep(step, e.maxRows));
  }

  lemma UpsertIsTight(e: Engine, schema: SchemaDef, st: State, step: Step) returns (refs: set<DocRef>)
    requires step.Upsert? && step.table in schema && FreshIds(e, st)
    requires var o := RunInsert(e, st, schema[step.table], step); o.error.None? && st.tick <= o.st.tick
    ensures Tight(e, st, RunInsert(e, st, schema[step.table], step), step, refs, 1)
  {
    var ref := UpsertChanges(e, st, schema[step.table], step.table, step.index, step.eq, step.insert, step.patch);
    refs := {ref};
  }

  lemma UpsertManyIsTight(e: Engine, schema: SchemaDef, st: State, step: Step) returns (refs: set<DocRef>)
    requires step.UpsertMany? && FreshIds(e, st) && UpsertsStocked(e, schema, st.docs, step)
    requires RunInsert(e, st, schema[step.table], step).error.None?
    ensures Tight(e, st, RunInsert(e, st, schema[step.table], step), step, refs, |step.docs|)
  {
    var t := schema[step.table];
    var ix := SchemaPush.FindIndex(t.indexes, step.index).value;
    refs := NewRefs(e, step.table, st.tick, |step.docs|);
    UpsertAllChanges(e, st, t, step.table, ix, step.docs);
    NewRefsAreOwned(e, st, RunInsert(e, st, t, step), step, |step.docs|);
  }

  lemma SelectedAreOwned(e: Engine, st: State, o: Outcome, step: Step, ids: seq<string>, n: nat)
    requires IsQuery(step) && st.tick <= o.st.tick && Selects(st.docs, step.table, ids, n)
    requires Changes(st.docs, o.st.docs, RefsOf(step.table, ids))
    ensures Tight(e, st, o, step, RefsOf(step.table, ids), n)
  {
    RefsOfExactSize(step.table, ids);
  }

  /** The scan takes the cap when the stock is that large. */
  lemma StockFillsTheCap(e: Engine, st: State, t: TableDef, table: string, filter: FilterExpr, limit: Option<U32>)
    requires |Stock(e, st.docs, t, table, filter)| >= ByQueryCap(limit, e.maxRows)
    requires Scan(e, st, t, table, filter, limit).Ok?
    ensures Selects(st.docs, table, Scan(e, st, t, table, filter, limit).value, ByQueryCap(limit, e.maxRows))
  {
    ScanSelects(e, st, t, table, filter, limit);
    StockMatches(e, st, t, table, filter);
  }

  lemma QueryIsTight(e: Engine, schema: SchemaDef, st: State, step: Step) returns (refs: set<DocRef>)
    requires IsQuery(step) && QueryStocked(e, schema, st.docs, step)
    requires var o := RunQuery(e, schema, st, schema[step.table], step); o.error.None? && st.tick <= o.st.tick
    ensures Tight(e, st, RunQuery(e, schema, st, schema[step.table], step), step, refs,
                  ByQueryCap(step.limit, e.maxRows))
  {
    var t := schema[step.table];
    if step.DeleteByQuery? {
      DeleteQueryChanges(e, schema, st, t, step.table, step.filter, step.limit);
    } else {
      PatchQueryChanges(e, st, t, step.table, step.filter, step.patch, step.limit);
    }
    var ids := Scan(e, st, t, step.table, step.filter, step.limit).value;
    refs := RefsOf(step.table, ids);
    StockFillsTheCap(e, st, t, step.table, step.filter, step.limit);
    SelectedAreOwned(e, st, RunQuery(e, schema, st, t, step), step, ids, ByQueryCap(step.limit, e.maxRows));
  }

  lemma InsertKindIsTight(e: Engine, schema: SchemaDef, st: State, step: Step) returns (refs: set<DocRef>)
    requires IsInsert(step) && FreshIds(e, st) && Stocked(e, schema, st.docs, step) && step.table in schema
    requires var o := RunInsert(e, st, schema[step.table], step); o.error.None? && st.tick <= o.st.tick
    ensures Tight(e, st, RunInsert(e, st, schema[step.table], step), step, refs, WorstCaseStep(step, e.maxRows))
  {
    if Inserts(step) {
      refs := InsertIsTight(e, schema, st, step);
    } else if step.Upsert? {
      refs := UpsertIsTight(e, schema, st, step);
    } else {
      refs := UpsertManyIsTight(e, schema, st, step);
    }
  }

  /** What the step does once its table is known, by its kind. */
  ghost predicate IsRunOn(e: Engine, schema: SchemaDef, st: State, t: TableDef, step: Step, o: Outcome) {
    (IsInsert(step) ==> o == RunInsert(e, st, t, step)) &&
    (NamesRow(step) ==> o == RunRow(e, schema, st, t, DocRef(step.table, step.id), step)) &&
    (IsQuery(step) ==> o == RunQuery(e, schema, st, t, step))
  }

  lemma RunOnIs(e: Engine, schema: SchemaDef, st: State, t: TableDef, step: Step)
    requires HasTable(step)
    ensures IsRunOn(e, schema, st, t, step, RunOn(e, schema, st, t, step))
  {
  }

  lemma WriterIsTight(e: Engine, schema: SchemaDef, st: State, step: Step, o: Outcome) returns (refs: set<DocRef>)
    requires IsInsert(step) || NamesRow(step) || IsQuery(step)
    requires FreshIds(e, st) && Stocked(e, schema, st.docs, step) && step.table in schema
    requires IsRunOn(e, schema, st, schema[step.table], step, o) && o.error.None? && st.tick <= o.st.tick
    ensures Tight(e, st, o, step, refs, WorstCaseStep(step, e.maxRows))
  {
    if IsInsert(step) {
      refs := InsertKindIsTight(e, schema, st, step);
    } else if NamesRow(step) {
      refs := RowIsTight(e, schema, st, step);
    } else {
      refs := QueryIsTight(e, schema, st, step);
    }
  }

  predicate ReadsOnly(step: Step) {
    !IsInsert(step) && !NamesRow(step) && !IsQuery(step)
  }

  lemma ReaderChangesNothing(e: Engine, schema: SchemaDef, st: State, step: Step)
    requires ReadsOnly(step)
    ensures RunStep(e, schema, st, step).st == st && Written(step, e.maxRows) == 0
  {
  }

  lemma WriterRunsOnItsTable(e: Engine, schema: SchemaDef, st: State, step: Step)
    requires !ReadsOnly(step) && RunStep(e, schema, st, step).error.None?
    ensures HasTable(step) && step.table in schema
    ensures RunStep(e, schema, st, step) == RunOn(e, schema, st, schema[step.table], step)
    ensures Written(step, e.maxRows) == WorstCaseStep(step, e.maxRows)
  {
  }

  /** A step that goes through from a store that has what it needs changes as many rows as estimated. */
  lemma StepIsTight(e: Engine, schema: SchemaDef, st: State, step: Step) returns (refs: set<DocRef>)
    requires FreshIds(e, st) && Stocked(e, schema, st.docs, step) && RunStep(e, schema, st, step).error.None?
    ensures Tight(e, st, RunStep(e, schema, st, step), step, refs, Written(step, e.maxRows))
  {
    if ReadsOnly(step) {
      ReaderChangesNothing(e, schema, st, step);
      refs := {};
    } else {
      StepWithin(e, schema, st, step);
      WriterRunsOnItsTable(e, schema, st, step);
      RunOnIs(e, schema, st, schema[step.table], step);
      refs := WriterIsTight(e, schema, st, step, RunStep(e, schema, st, step));
    }
  }

  // ---------- runs ----------

  predicate IsRowWise(step: Step) {
    NamesRow(step) || Inserts(step)
  }

  /** Two steps that cannot write the same row: on different tables, or inserts and different named rows. */
  predicate Apart(a: Step, b: Step) {
    HasTable(a) && HasTable(b) && a.table == b.table && !ReadsOnly(a) && !ReadsOnly(b) ==>
      IsRowWise(a) && IsRowWise(b) && (NamesRow(a) && NamesRow(b) ==> a.id != b.id)
  }

  predicate Separate(steps: seq<Step>) {
    forall i, j | 0 <= i < j < |steps| :: Apart(steps[i], steps[j])
  }

  ghost predicate AllStocked(e: Engine, schema: SchemaDef, docs: Docs, steps: seq<Step>) {
    forall step | step in steps :: Stocked(e, schema, docs, step)
  }

  ghost predicate IsNewFrom(e: Engine, from: nat, ref: DocRef) {
    exists k: nat :: from <= k && ref.id == e.newId(k)
  }

  /** A row a step of the run may change, as far as its name tells. */
  ghost predicate Claims(e: Engine, st: State, step: Step, ref: DocRef) {
    HasTable(step) && !ReadsOnly(step) && ref.table == step.table && (NamesRow(step) ==> ref.id == step.id) &&
    (Inserts(step) ==> IsNewFrom(e, st.tick, ref))
  }

  ghost predicate RunOwned(e: Engine, st: State, steps: seq<Step>, ref: DocRef) {
    exists step :: step in steps && Claims(e, st, step, ref)
  }

  /** New ids stay fresh after a step. */
  lemma StaysFresh(e: Engine, st: State, o: Outcome, step: Step, refs: set<DocRef>, n: nat)
    requires FreshIds(e, st) && Tight(e, st, o, step, refs, n)
    ensures FreshIds(e, Tick(o.st))
  {
    forall k: nat, table | o.st.tick + 1 <= k ensures DocRef(table, e.newId(k)) !in o.st.docs {
      var ref := DocRef(table, e.newId(k));
      assert ref !in st.docs && !IsNew(e, st.tick, o.st.tick, ref);
      assert ref !in refs;
    }
  }

  /** A row that a later step names is not changed before. */
  lemma NamedIsKept(e: Engine, schema: SchemaDef, st: State, o: Outcome, step: Step, later: Step, ref: DocRef)
    requires FreshIds(e, st) && Apart(step, later) && !ReadsOnly(step)
    requires NamesRow(later) && RowStocked(schema, st.docs, later) && ref == DocRef(later.table, later.id)
    ensures !Owned(e, st, o.st, step, ref)
  {
  }

  ghost predicate TableKept(a: Docs, b: Docs, table: string) {
    forall ref: DocRef | ref.table == table :: Get(a, ref) == Get(b, ref)
  }

  /** A later step on the whole table finds it as it was. */
  lemma TableIsKept(e: Engine, st: State, o: Outcome, step: Step, later: Step, refs: set<DocRef>, n: nat)
    requires Apart(step, later) && Tight(e, st, o, step, refs, n) && !ReadsOnly(step)
    requires !IsRowWise(later) && !ReadsOnly(later) && HasTable(later)
    ensures TableKept(st.docs, o.st.docs, later.table)
  {
    forall ref: DocRef | ref.table == later.table ensures Get(st.docs, ref) == Get(o.st.docs, ref) {
      assert !Owned(e, st, o.st, step, ref);
    }
  }

  /** The stores agree on what the step works on. */
  ghost predicate SameNeeds(a: Docs, b: Docs, step: Step) {
    (NamesRow(step) ==> Get(a, DocRef(step.table, step.id)) == Get(b, DocRef(step.table, step.id))) &&
    (IsQuery(step) || step.Upsert? || step.UpsertMany? ==> TableKept(a, b, step.table))
  }

  lemma NeedsAreKept(
    e: Engine, schema: SchemaDef, st: State, o: Outcome, step: Step, later: Step, refs: set<DocRef>, n: nat)
    requires FreshIds(e, st) && Tight(e, st, o, step, refs, n) && Apart(step, later) && !ReadsOnly(step)
    requires Stocked(e, schema, st.docs, later)
    ensures SameNeeds(st.docs, o.st.docs, later)
  {
    if NamesRow(later) {
      var ref := DocRef(later.table, later.id);
      NamedIsKept(e, schema, st, o, step, later, ref);
      assert ref !in refs;
    } else if IsQuery(later) || later.Upsert? || later.UpsertMany? {
      TableIsKept(e, st, o, step, later, refs, n);
    }
  }

  lemma StockIsKept(e: Engine, a: Docs, b: Docs, t: TableDef, table: string, filter: FilterExpr)
    requires TableKept(a, b, table)
    ensures Stock(e, a, t, table, filter) == Stock(e, b, t, table, filter)
  {
    forall ref: DocRef | ref.table == table ensures ref in a <==> ref in b {
      assert Get(a, ref) == Get(b, ref);
    }
  }

  lemma MissedIsKept(e: Engine, a: Docs, b: Docs, t: TableDef, table: string, fields: seq<string>, all: seq<Doc>)
    requires TableKept(a, b, table)
    requires Missed(e, a, t, table, fields, all, 0)
    ensures Missed(e, b, t, table, fields, all, 0)
  {
    forall ref, j | ref in b && ref.table == table && Live(b, ref) && 0 <= j < |all|
      ensures !Hits(e, t, fields, b[ref].doc, all[j])
    {
      assert Get(a, ref) == Get(b, ref);
      assert ref in a && Live(a, ref);
    }
  }

  /** Whether a store has what a step needs depends only on what the step works on. */
  lemma StaysStocked(e: Engine, schema: SchemaDef, a: Docs, b: Docs, step: Step)
    requires SameNeeds(a, b, step) && Stocked(e, schema, a, step)
    ensures Stocked(e, schema, b, step)
  {
    if IsQuery(step) {
      StockIsKept(e, a, b, schema[step.table], step.table, step.filter);
    } else if step.UpsertMany? {
      var ix := SchemaPush.FindIndex(schema[step.table].indexes, step.index).value;
      MissedIsKept(e, a, b, schema[step.table], step.table, ix.fields, step.docs);
    }
  }

  lemma AllStayStocked(
    e: Engine, schema: SchemaDef, st: State, o: Outcome, steps: seq<Step>, refs: set<DocRef>, n: nat)
    requires steps != [] && FreshIds(e, st) && Tight(e, st, o, steps[0], refs, n) && Separate(steps)
    requires AllStocked(e, schema, st.docs, steps) && (ReadsOnly(steps[0]) ==> o.st.docs == st.docs)
    ensures AllStocked(e, schema, o.st.docs, steps[1..])
  {
    forall later | later in steps[1..] ensures Stocked(e, schema, o.st.docs, later) {
      var j :| 0 <= j < |steps[1..]| && steps[1..][j] == later;
      assert later == steps[j + 1] && Apart(steps[0], later);
      if !ReadsOnly(steps[0]) {
        NeedsAreKept(e, schema, st, o, steps[0], later, refs, n);
        StaysStocked(e, schema, st.docs, o.st.docs, later);
      }
    }
  }

  /** No row belongs to a step and to a later one. */
  lemma ClaimsDiffer(
    e: Engine, schema: SchemaDef, st: State, after: State, step: Step, later: Step, ref: DocRef)
    requires FreshIds(e, st) && Apart(step, later) && !ReadsOnly(step) && st.tick <= after.tick
    requires Stocked(e, schema, st.docs, step) && Stocked(e, schema, st.docs, later)
    requires Owned(e, st, after, step, ref)
    ensures !Claims(e, Tick(after), later, ref)
  {
  }

  lemma FirstOwnsItsRows(e: Engine, st: State, after: State, steps: seq<Step>, ref: DocRef)
    requires steps != [] && !ReadsOnly(steps[0]) && Owned(e, st, after, steps[0], ref)
    ensures RunOwned(e, st, steps, ref)
  {
    assert Claims(e, st, steps[0], ref);
  }

  lemma RestOwnsItsRows(e: Engine, st: State, later: State, steps: seq<Step>, ref: DocRef)
    requires steps != [] && st.tick <= later.tick && RunOwned(e, later, steps[1..], ref)
    ensures RunOwned(e, st, steps, ref)
  {
    var step :| step in steps[1..] && Claims(e, later, step, ref);
    assert Claims(e, st, step, ref);
  }

  lemma RowsAreDisjoint(
    e: Engine, schema: SchemaDef, st: State, o: Outcome, steps: seq<Step>, refs: set<DocRef>, n: nat, ref: DocRef)
    requires steps != [] && !ReadsOnly(steps[0]) && FreshIds(e, st) && Separate(steps)
    requires AllStocked(e, schema, st.docs, steps) && Tight(e, st, o, steps[0], refs, n)
    requires RunOwned(e, Tick(o.st), steps[1..], ref)
    ensures ref !in refs
  {
    var later :| later in steps[1..] && Claims(e, Tick(o.st), later, ref);
    var j :| 0 <= j < |steps[1..]| && steps[1..][j] == later;
    assert later == steps[j + 1] && Apart(steps[0], later);
    if Owned(e, st, o.st, steps[0], ref) {
      ClaimsDiffer(e, schema, st, o.st, steps[0], later, ref);
    }
  }

  /** The run changes `refs`, as many as estimated, and each belongs to a step. */
  ghost predicate RunTight(e: Engine, st: State, o: Outcome, steps: seq<Step>, refs: set<DocRef>) {
    Changes(st.docs, o.st.docs, refs) && |refs| + Observing(steps) == WorstCaseAffected(steps, e.maxRows) &&
    forall ref | ref in refs :: RunOwned(e, st, steps, ref)
  }

  /** The rows of the later steps belong to the run, and are none of the first step's. */
  lemma RestIsApart(
    e: Engine, schema: SchemaDef, st: State, first: Outcome, steps: seq<Step>, own: set<DocRef>, n: nat, ref: DocRef)
    requires steps != [] && FreshIds(e, st) && Separate(steps) && AllStocked(e, schema, st.docs, steps)
    requires Tight(e, st, first, steps[0], own, n) && (ReadsOnly(steps[0]) ==> own == {})
    requires RunOwned(e, Tick(first.st), steps[1..], ref)
    ensures ref !in own && RunOwned(e, st, steps, ref)
  {
    RestOwnsItsRows(e, st, Tick(first.st), steps, ref);
    if !ReadsOnly(steps[0]) {
      RowsAreDisjoint(e, schema, st, first, steps, own, n, ref);
    }
  }

  lemma CountsAdd(steps: seq<Step>, maxRows: U32, own: nat, more: nat)
    requires steps != [] && own == Written(steps[0], maxRows)
    requires more + Observing(steps[1..]) == WorstCaseAffected(steps[1..], maxRows)
    ensures own + more + Observing(steps) == WorstCaseAffected(steps, maxRows)
  {
  }

  lemma FirstThenRest(
    e: Engine, schema: SchemaDef, st: State, first: Outcome, rest: Outcome, whole: Outcome, steps: seq<Step>,
    own: set<DocRef>, more: set<DocRef>)
    requires steps != [] && FreshIds(e, st) && Separate(steps) && AllStocked(e, schema, st.docs, steps)
    requires Tight(e, st, first, steps[0], own, Written(steps[0], e.maxRows)) && (ReadsOnly(steps[0]) ==> own == {})
    requires RunTight(e, Tick(first.st), rest, steps[1..], more) && whole.st == rest.st
    ensures RunTight(e, st, whole, steps, own + more)
  {
    forall ref | ref in more ensures ref !in own && RunOwned(e, st, steps, ref) {
      RestIsApart(e, schema, st, first, steps, own, Written(steps[0], e.maxRows), ref);
    }
    forall ref | ref in own ensures RunOwned(e, st, steps, ref) {
      FirstOwnsItsRows(e, st, first.st, steps, ref);
    }
    ChangesTwice(st.docs, first.st.docs, rest.st.docs, own, more);
    assert |own + more| == |own| + |more|;
    CountsAdd(steps, e.maxRows, |own|, |more|);
  }

  /** The first step of a run leaves what the others need. */
  lemma FirstStepIsTight(e: Engine, schema: SchemaDef, st: State, steps: seq<Step>) returns (own: set<DocRef>)
    requires steps != [] && FreshIds(e, st) && Separate(steps) && AllStocked(e, schema, st.docs, steps)
    requires RunStep(e, schema, st, steps[0]).error.None?
    ensures var first := RunStep(e, schema, st, steps[0]);
            Tight(e, st, first, steps[0], own, Written(steps[0], e.maxRows)) &&
            FreshIds(e, Tick(first.st)) && AllStocked(e, schema, first.st.docs, steps[1..]) &&
            (ReadsOnly(steps[0]) ==> own == {} && first.st == st)
  {
    var first := RunStep(e, schema, st, steps[0]);
    own := StepIsTight(e, schema, st, steps[0]);
    if ReadsOnly(steps[0]) {
      ReaderChangesNothing(e, schema, st, steps[0]);
    }
    AllStayStocked(e, schema, st, first, steps, own, Written(steps[0], e.maxRows));
    StaysFresh(e, st, first, steps[0], own, Written(steps[0], e.maxRows));
  }

  lemma {:induction false} RunIsTight(e: Engine, schema: SchemaDef, st: State, steps: seq<Step>)
    returns (refs: set<DocRef>)
    requires FreshIds(e, st) && Separate(steps) && AllStocked(e, schema, st.docs, steps)
    requires RunSteps(e, schema, st, steps).error.None?
    ensures RunTight(e, st, RunSteps(e, schema, st, steps), steps, refs)
    decreases |steps|
  {
    if steps == [] {
      refs := {};
    } else {
      var first := RunStep(e, schema, st, steps[0]);
      var own := FirstStepIsTight(e, schema, st, steps);
      var more := RunIsTight(e, schema, Tick(first.st), steps[1..]);
      refs := own + more;
      FirstThenRest(e, schema, st, first, RunSteps(e, schema, Tick(first.st), steps[1..]),
                    RunSteps(e, schema, st, steps), steps, own, more);
    }
  }

  /**
   Any engine whose ids do not repeat, any run that goes through: when no two steps can write
   the same row and the store has what each needs, the estimate, less the preconditions it
   counts, is the number of rows changed.
   */
  lemma EstimateIsTight(e: Engine, schema: SchemaDef, st: State, steps: seq<Step>)
    requires FreshIds(e, st) && Separate(steps) && AllStocked(e, schema, st.docs, steps)
    requires RunSteps(e, schema, st, steps).error.None?
    ensures |Differ(st.docs, RunSteps(e, schema, st, steps).st.docs)| + Observing(steps)
            == WorstCaseAffected(steps, e.maxRows)
  {
    var refs := RunIsTight(e, schema, st, steps);
    ChangesIsDiffer(st.docs, RunSteps(e, schema, st, steps).st.docs, refs);
  }

  // ---------- runs that go through ----------

  /** The stores differ only on rows that another step of the list may claim. */
  ghost predicate OthersOnly(e: Engine, st: State, later: State, steps: seq<Step>, i: nat) {
    forall ref | Get(st.docs, ref) != Get(later.docs, ref) ::
      exists j :: 0 <= j < |steps| && j != i && Claims(e, st, steps[j], ref)
  }

  /** Step `i` goes through now, and later whatever the rows of the other steps hold. */
  ghost predicate Robust(e: Engine, schema: SchemaDef, st: State, steps: seq<Step>, i: nat)
    requires i < |steps|
  {
    forall later: State
      | st.tick <= later.tick && SameNeeds(st.docs, later.docs, steps[i]) && OthersOnly(e, st, later, steps, i) ::
      RunStep(e, schema, later, steps[i]).error.None?
  }

  ghost predicate AllRobust(e: Engine, schema: SchemaDef, st: State, steps: seq<Step>) {
    forall i: nat | i < |steps| :: Robust(e, schema, st, steps, i)
  }

  /** What a step changes, and what later steps may claim after it, others than step `i + 1` may claim before. */
  lemma OthersOnlyTwice(
    e: Engine, st: State, o: Outcome, later: State, steps: seq<Step>, refs: set<DocRef>, n: nat, i: nat)
    requires i + 1 < |steps| && Tight(e, st, o, steps[0], refs, n) && (ReadsOnly(steps[0]) ==> o.st.docs == st.docs)
    requires OthersOnly(e, Tick(o.st), later, steps[1..], i)
    ensures OthersOnly(e, st, later, steps, i + 1)
  {
    forall ref | Get(st.docs, ref) != Get(later.docs, ref)
      ensures exists j :: 0 <= j < |steps| && j != i + 1 && Claims(e, st, steps[j], ref)
    {
      if Get(st.docs, ref) != Get(o.st.docs, ref) {
        assert Owned(e, st, o.st, steps[0], ref);
        assert Claims(e, st, steps[0], ref);
      } else {
        var j :| 0 <= j < |steps[1..]| && j != i && Claims(e, Tick(o.st), steps[1..][j], ref);
        assert Claims(e, st, steps[j + 1], ref);
      }
    }
  }

  lemma StaysRobust(
    e: Engine, schema: SchemaDef, st: State, o: Outcome, steps: seq<Step>, refs: set<DocRef>, n: nat, i: nat)
    requires i + 1 < |steps| && Tight(e, st, o, steps[0], refs, n) && (ReadsOnly(steps[0]) ==> o.st.docs == st.docs)
    requires Robust(e, schema, st, steps, i + 1) && SameNeeds(st.docs, o.st.docs, steps[i + 1])
    ensures Robust(e, schema, Tick(o.st), steps[1..], i)
  {
    forall later: State
      | o.st.tick + 1 <= later.tick && SameNeeds(o.st.docs, later.docs, steps[i + 1]) &&
        OthersOnly(e, Tick(o.st), later, steps[1..], i)
      ensures RunStep(e, schema, later, steps[i + 1]).error.None?
    {
      OthersOnlyTwice(e, st, o, later, steps, refs, n, i);
      assert SameNeeds(st.docs, later.docs, steps[i + 1]);
    }
  }

  lemma AllStayRobust(
    e: Engine, schema: SchemaDef, st: State, o: Outcome, steps: seq<Step>, refs: set<DocRef>, n: nat)
    requires steps != [] && FreshIds(e, st) && Tight(e, st, o, steps[0], refs, n) && Separate(steps)
    requires AllStocked(e, schema, st.docs, steps) && (ReadsOnly(steps[0]) ==> o.st.docs == st.docs)
    requires AllRobust(e, schema, st, steps)
    ensures AllRobust(e, schema, Tick(o.st), steps[1..])
  {
    forall i: nat | i < |steps[1..]| ensures Robust(e, schema, Tick(o.st), steps[1..], i) {
      assert Apart(steps[0], steps[i + 1]) && steps[i + 1] in steps;
      if !ReadsOnly(steps[0]) {
        NeedsAreKept(e, schema, st, o, steps[0], steps[i + 1], refs, n);
      }
      StaysRobust(e, schema, st, o, steps, refs, n, i);
    }
  }

  lemma RobustGoesThrough(e: Engine, schema: SchemaDef, st: State, steps: seq<Step>)
    requires steps != [] && AllRobust(e, schema, st, steps)
    ensures RunStep(e, schema, st, steps[0]).error.None?
  {
    assert Robust(e, schema, st, steps, 0) && SameNeeds(st.docs, st.docs, steps[0]);
    assert OthersOnly(e, st, st, steps, 0);
  }

  lemma {:induction false} RobustRunCommits(e: Engine, schema: SchemaDef, st: State, steps: seq<Step>)
    requires FreshIds(e, st) && Separate(steps) && AllStocked(e, schema, st.docs, steps)
    requires AllRobust(e, schema, st, steps)
    ensures RunSteps(e, schema, st, steps).error.None?
    decreases |steps|
  {
    if steps == [] {
    } else {
      var first := RunStep(e, schema, st, steps[0]);
      RobustGoesThrough(e, schema, st, steps);
      var own := FirstStepIsTight(e, schema, st, steps);
      AllStayRobust(e, schema, st, first, steps, own, Written(steps[0], e.maxRows));
      RobustRunCommits(e, schema, Tick(first.st), steps[1..]);
    }
  }

  /**
   Steps that cannot write the same row: when each would go through whatever the rows of
   the others hold, the whole run does, and it changes as many rows as estimated.
   */
  lemma EstimateIsAttained(e: Engine, schema: SchemaDef, st: State, steps: seq<Step>)
    requires FreshIds(e, st) && Separate(steps) && AllStocked(e, schema, st.docs, steps)
    requires AllRobust(e, schema, st, steps)
    ensures RunSteps(e, schema, st, steps).error.None?
    ensures |Differ(st.docs, RunSteps(e, schema, st, steps).st.docs)| + Observing(steps)
            == WorstCaseAffected(steps, e.maxRows)
  {
    RobustRunCommits(e, schema, st, steps);
    EstimateIsTight(e, schema, st, steps);
  }
}
