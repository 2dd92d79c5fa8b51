/**
 Which rows by-query steps act on, said in terms of the filter and the store: the live rows
 that pass, oldest first, as many as the limit allows.
 */
module Selection {
  import opened Wrappers
  import opened Json
  import opened Wire
  import opened Schema
  import opened Validation
  import opened Ordering
  import opened Evaluation
  import opened Mutation
  import opened Measures
  import opened Execution
  import opened Cascades
  import opened Tightness

  // ---------- the rows a scan takes ----------

  /** A row of the table that is not deleted and satisfies the filter at the time of the step. */
  ghost predicate Passes(e: Engine, st: State, t: TableDef, table: string, filter: FilterExpr, ref: DocRef) {
    ref in st.docs && ref.table == table && st.docs[ref].deletedAt.None? &&
    EvalFilter(e.ops, filter, Ctx(st.docs[ref].doc, t.fields, e.now(st.tick)), Some(e.now(st.tick)))
  }

  ghost predicate Older(docs: Docs, a: DocRef, b: DocRef) {
    a in docs && b in docs &&
    (docs[a].createdAt < docs[b].createdAt ||
     (docs[a].createdAt == docs[b].createdAt && AtMost(a.id, b.id) && a.id != b.id))
  }

  /** The limit asked for, never above the engine's. */
  ghost function Clamp(limit: Option<U32>, maxRows: U32): nat {
    if limit.Some? && limit.value < maxRows then limit.value else maxRows
  }

  /** Only rows that pass; and one that passes is left out only when the limit is used up by older ones. */
  ghost predicate SelectsFirst(
    e: Engine, st: State, t: TableDef, table: string, filter: FilterExpr, limit: Option<U32>, refs: set<DocRef>)
  {
    |refs| <= Clamp(limit, e.maxRows) && (forall ref | ref in refs :: Passes(e, st, t, table, filter, ref)) &&
    forall ref | Passes(e, st, t, table, filter, ref) && ref !in refs ::
      |refs| == Clamp(limit, e.maxRows) && forall r | r in refs :: Older(st.docs, r, ref)
  }

  lemma MatchingPass(e: Engine, st: State, t: TableDef, table: string, filter: FilterExpr, ref: DocRef)
    ensures Passes(e, st, t, table, filter, ref) <==>
            ref.table == table && ref.id in Matching(e, st, t, table, filter)
  {
    assert ref.table == table ==> DocRef(table, ref.id) == ref;
  }

  lemma ScanSelectsFirst(e: Engine, st: State, t: TableDef, table: string, filter: FilterExpr, limit: Option<U32>)
    requires Scan(e, st, t, table, filter, limit).Ok?
    ensures SelectsFirst(e, st, t, table, filter, limit, RefsOf(table, Scan(e, st, t, table, filter, limit).value))
  {
    var ids := Scan(e, st, t, table, filter, limit).value;
    var found := Matching(e, st, t, table, filter);
    var times := CreationTimes(st.docs, table, found);
    ScanIsExact(e, st, t, table, filter, limit);
    ScanSelects(e, st, t, table, filter, limit);
    RefsOfExactSize(table, ids);
    assert times.Keys == found;
    forall ref | ref in RefsOf(table, ids) ensures Passes(e, st, t, table, filter, ref) {
      MatchingPass(e, st, t, table, filter, ref);
    }
    forall ref | Passes(e, st, t, table, filter, ref) && ref !in RefsOf(table, ids)
      ensures |ids| == Clamp(limit, e.maxRows) && forall r | r in RefsOf(table, ids) :: Older(st.docs, r, ref)
    {
      MatchingPass(e, st, t, table, filter, ref);
      LeftOutIsLater(st.docs, table, found, ids, ByQueryCap(limit, e.maxRows), ref);
    }
  }

  lemma LeftOutIsLater(docs: Docs, table: string, found: set<string>, ids: seq<string>, cap: nat, ref: DocRef)
    requires forall id | id in found :: DocRef(table, id) in docs
    requires TakesFirst(CreationTimes(docs, table, found), ids, cap) && NoRepeats(ids)
    requires ref.table == table && ref.id in found && ref !in RefsOf(table, ids)
    ensures |ids| == cap && forall r | r in RefsOf(table, ids) :: Older(docs, r, ref)
  {
    var times := CreationTimes(docs, table, found);
    assert times.Keys == found && ref.id !in ids;
    forall r | r in RefsOf(table, ids) ensures Older(docs, r, ref) {
      assert r.id in ids && CameBefore(times, r.id, ref.id);
    }
    if |ids| != cap {
      SubsetSize((set id | id in ids), found - {ref.id});
      IdsAreMany(ids);
    }
  }

  lemma {:induction false} IdsAreMany(ids: seq<string>)
    requires NoRepeats(ids)
    ensures |(set id | id in ids)| == |ids|
    decreases |ids|
  {
    if ids == [] {
      assert (set id | id in ids) == {};
    } else {
      NoRepeatsAfterFirst(ids);
      IdsAreMany(ids[1..]);
      assert (set id | id in ids) == {ids[0]} + (set id | id in ids[1..]);
    }
  }

  // ---------- by-query patches ----------

  /** The row as patched: the document the engine gave for it as it was, one version on. */
  ghost predicate IsPatchedRow(e: Engine, before: Docs, after: Docs, ref: DocRef, patch: Doc) {
    ref in before && ref in after &&
    after[ref] == StoredRow(after[ref].doc, before[ref].version + 1, before[ref].createdAt, before[ref].deletedAt) &&
    exists st: State :: Get(st.docs, ref) == Some(before[ref]) && e.patchDoc(st, ref, patch) == Ok(after[ref].doc)
  }

  lemma PatchIsPatchedRow(e: Engine, st: State, ref: DocRef, patch: Doc)
    requires DoPatch(e, st, ref, patch).error.None?
    ensures IsPatchedRow(e, st.docs, DoPatch(e, st, ref, patch).st.docs, ref, patch)
  {
    assert Get(st.docs, ref) == Some(st.docs[ref]);
  }

  lemma {:induction false} PatchAllRows(e: Engine, st: State, table: string, ids: seq<string>, patch: Doc, ref: DocRef)
    requires NoRepeats(ids) && PatchAll(e, st, table, ids, patch).error.None? && ref in RefsOf(table, ids)
    ensures IsPatchedRow(e, st.docs, PatchAll(e, st, table, ids, patch).st.docs, ref, patch)
    decreases |ids|
  {
    var here := DocRef(table, ids[0]);
    var first := DoPatch(e, st, here, patch);
    RefsOfSplit(table, ids);
    PatchAllChanges(e, first.st, table, ids[1..], patch);
    PatchChanges(e, st, here, patch);
    if ref == here {
      PatchIsPatchedRow(e, st, ref, patch);
      assert Get(first.st.docs, ref) == Get(PatchAll(e, first.st, table, ids[1..], patch).st.docs, ref);
    } else {
      PatchAllRows(e, first.st, table, ids[1..], patch, ref);
      assert Get(st.docs, ref) == Get(first.st.docs, ref);
    }
  }

  /** A by-query patch that goes through: exactly which rows change, and how. */
  lemma PatchByQueryExactly(e: Engine, schema: SchemaDef, st: State, step: Step) returns (refs: set<DocRef>)
    requires step.PatchByQuery? && RunStep(e, schema, st, step).error.None?
    ensures var o := RunStep(e, schema, st, step);
            step.table in schema &&
            SelectsFirst(e, st, schema[step.table], step.table, step.filter, step.limit, refs) &&
            Changes(st.docs, o.st.docs, refs) &&
            forall ref | ref in refs :: IsPatchedRow(e, st.docs, o.st.docs, ref, step.patch)
  {
    WriterRunsOnItsTable(e, schema, st, step);
    RunOnIs(e, schema, st, schema[step.table], step);
    refs := PatchQueryRows(e, st, schema[step.table], step.table, step.filter, step.patch, step.limit);
  }

  lemma PatchQueryRows(
    e: Engine, st: State, t: TableDef, table: string, filter: FilterExpr, patch: Doc, limit: Option<U32>)
    returns (refs: set<DocRef>)
    requires PatchQueryStep(e, st, t, table, filter, patch, limit).error.None?
    ensures var o := PatchQueryStep(e, st, t, table, filter, patch, limit);
            SelectsFirst(e, st, t, table, filter, limit, refs) && Changes(st.docs, o.st.docs, refs) &&
            forall ref | ref in refs :: IsPatchedRow(e, st.docs, o.st.docs, ref, patch)
  {
    PatchQueryChanges(e, st, t, table, filter, patch, limit);
    var ids := Scan(e, st, t, table, filter, limit).value;
    refs := RefsOf(table, ids);
    ScanSelectsFirst(e, st, t, table, filter, limit);
    ScanSelects(e, st, t, table, filter, limit);
    forall ref | ref in refs
      ensures IsPatchedRow(e, st.docs, PatchQueryStep(e, st, t, table, filter, patch, limit).st.docs, ref, patch)
    {
      PatchAllRows(e, Tick(st), table, ids, patch, ref);
    }
  }

  // ---------- preconditions ----------

  /** With a filter that can be evaluated, the precondition fails exactly when some row of the table passes. */
  lemma NoMatchExactly(e: Engine, schema: SchemaDef, st: State, step: Step)
    requires step.ExpectNoMatch? && step.table in schema && e.maxRows > 0
    ensures var o, t := RunStep(e, schema, st, step), schema[step.table];
            o.st == st &&
            match e.checkFilter(t, step.filter)
            case Some(error) => o.error == Some(error)
            case None =>
              o.error == if exists ref :: Passes(e, st, t, step.table, step.filter, ref) then Some(PreconditionFailed)
                         else None
  {
    var t := schema[step.table];
    assert RunStep(e, schema, st, step) == Checks(st, CheckNoMatch(e, st, t, step.table, step.filter));
    if e.checkFilter(t, step.filter).None? {
      CheckNoMatchExactly(e, st, t, step.table, step.filter);
    }
  }

  lemma CheckNoMatchExactly(e: Engine, st: State, t: TableDef, table: string, filter: FilterExpr)
    requires e.maxRows > 0 && e.checkFilter(t, filter).None?
    ensures CheckNoMatch(e, st, t, table, filter)
         == if exists ref :: Passes(e, st, t, table, filter, ref) then Some(PreconditionFailed) else None
  {
    var ids := Scan(e, st, t, table, filter, Some(1)).value;
    ScanSelectsFirst(e, st, t, table, filter, Some(1));
    if ids != [] {
      assert DocRef(table, ids[0]) in RefsOf(table, ids);
    } else {
      assert RefsOf(table, ids) == {};
    }
  }

  // ---------- by-query deletes ----------

  /** Rows only die; a row entered on the way is written and dead at the end. */
  ghost predicate Sweeps(w: Walk, r: Walk) {
    w.touched <= r.touched && w.visited <= r.visited && (forall x | Live(r.st.docs, x) :: Live(w.st.docs, x)) &&
    forall q | q in r.visited && q !in w.visited :: q in r.touched && !Live(r.st.docs, q)
  }

  lemma {:induction false} DeleteRowSweeps(e: Engine, schema: SchemaDef, w: Walk, ref: DocRef)
    requires w.rows <= e.maxCascade && w.error.None?
    ensures var r := DeleteRow(e, schema, w, ref); r.error.None? ==> Sweeps(w, r) && ref in r.visited
    decreases e.maxCascade - w.rows, 0, 0
  {
    if Stops(e, schema, w, ref) {
    } else {
      RemoveRowSweeps(e, schema, Entered(w, ref), ref);
    }
  }

  lemma {:induction false} RemoveRowSweeps(e: Engine, schema: SchemaDef, w: Walk, ref: DocRef)
    requires w.rows <= e.maxCascade && w.error.None? && ref.table in schema && ref in w.visited
    ensures var r := RemoveRow(e, schema, w, ref);
            r.error.None? ==> Sweeps(w, r) && ref in r.touched && !Live(r.st.docs, ref)
    decreases e.maxCascade - w.rows, 4, 0
  {
    if schema[ref.table].softDelete {
      StampSweeps(e, w, ref);
    } else {
      var links := LinksTo(schema, ref.table);
      WalkLinksSweeps(e, schema, w, links, ref.id);
      FinishSweeps(w, WalkLinks(e, schema, w, links, ref.id), ref);
    }
  }

  lemma StampSweeps(e: Engine, w: Walk, ref: DocRef)
    ensures var r := Apply(w, DoSoftDelete(e, w.st, ref));
            r.error.None? ==> Sweeps(w, r) && ref in r.touched && !Live(r.st.docs, ref)
  {
  }

  lemma FinishSweeps(w: Walk, swept: Walk, ref: DocRef)
    requires swept.error.None? ==> Sweeps(w, swept)
    ensures var r := Finish(swept, ref);
            r.error.None? ==> Sweeps(w, r) && ref in r.touched && !Live(r.st.docs, ref)
  {
  }

  lemma {:induction false} DeleteRowsSweeps(e: Engine, schema: SchemaDef, w: Walk, table: string, ids: seq<string>)
    requires w.rows <= e.maxCascade && w.error.None?
    ensures var r := DeleteRows(e, schema, w, table, ids);
            r.error.None? ==> Sweeps(w, r) && RefsOf(table, ids) <= r.visited
    decreases e.maxCascade - w.rows, 1, |ids|
  {
    if ids == [] {
    } else {
      var next := DeleteRow(e, schema, w, DocRef(table, ids[0]));
      DeleteRowSweeps(e, schema, w, DocRef(table, ids[0]));
      if next.error.None? {
        DeleteRowsSweeps(e, schema, next, table, ids[1..]);
        RefsOfParts(table, ids);
      }
    }
  }

  lemma RefsOfParts(table: string, ids: seq<string>)
    requires ids != []
    ensures RefsOf(table, ids) == {DocRef(table, ids[0])} + RefsOf(table, ids[1..])
  {
  }

  lemma {:induction false} NullRowsSweeps(e: Engine, w: Walk, l: Link, ids: seq<string>)
    requires w.rows <= e.maxCascade && w.error.None?
    ensures var r := NullRows(e, w, l, ids); r.error.None? ==> Sweeps(w, r)
    decreases |ids|
  {
    if ids == [] || w.rows >= e.maxCascade {
    } else {
      var patched := DoPatch(e, w.st, DocRef(l.table, ids[0]), map[l.field := JNull]);
      var next := Apply(w.(rows := w.rows + 1), patched);
      if next.error.None? {
        NullRowsSweeps(e, next, l, ids[1..]);
      }
    }
  }

  lemma {:induction false} WalkLinkSweeps(e: Engine, schema: SchemaDef, w: Walk, l: Link, id: string)
    requires w.rows <= e.maxCascade && w.error.None?
    ensures var r := WalkLink(e, schema, w, l, id); r.error.None? ==> Sweeps(w, r)
    decreases e.maxCascade - w.rows, 2, 0
  {
    var ids := Children(e, w.st.docs, l, id, e.maxCascade + 1);
    WalkLinkIs(e, schema, w, l, id);
    if l.action.Cascade? {
      DeleteRowsSweeps(e, schema, w, l.table, ids);
    } else if l.action.SetNull? {
      NullRowsSweeps(e, w, l, ids);
    }
  }

  lemma {:induction false} WalkLinksSweeps(e: Engine, schema: SchemaDef, w: Walk, links: seq<Link>, id: string)
    requires w.rows <= e.maxCascade && w.error.None?
    ensures var r := WalkLinks(e, schema, w, links, id); r.error.None? ==> Sweeps(w, r)
    decreases e.maxCascade - w.rows, 3, |links|
  {
    if links == [] {
    } else {
      var next := WalkLink(e, schema, w, links[0], id);
      WalkLinkSweeps(e, schema, w, links[0], id);
      if next.error.None? {
        WalkLinksSweeps(e, schema, next, links[1..], id);
      }
    }
  }

  /** A by-query delete that goes through: the rows it names as selected are the first that pass, and all are dead. */
  lemma DeleteByQueryExactly(e: Engine, schema: SchemaDef, st: State, step: Step)
    requires step.DeleteByQuery? && RunStep(e, schema, st, step).error.None?
    ensures var o := RunStep(e, schema, st, step);
            step.table in schema &&
            SelectsFirst(e, st, schema[step.table], step.table, step.filter, step.limit, o.direct) &&
            (forall ref | ref in o.direct :: !Live(o.st.docs, ref)) &&
            forall ref | Live(o.st.docs, ref) :: Live(st.docs, ref)
  {
    WriterRunsOnItsTable(e, schema, st, step);
    RunOnIs(e, schema, st, schema[step.table], step);
    DeleteQueryRows(e, schema, st, schema[step.table], step.table, step.filter, step.limit);
  }

  lemma DeleteQueryRows(
    e: Engine, schema: SchemaDef, st: State, t: TableDef, table: string, filter: FilterExpr, limit: Option<U32>)
    requires DeleteQueryStep(e, schema, st, t, table, filter, limit).error.None?
    ensures var o := DeleteQueryStep(e, schema, st, t, table, filter, limit);
            SelectsFirst(e, st, t, table, filter, limit, o.direct) &&
            (forall ref | ref in o.direct :: !Live(o.st.docs, ref)) &&
            forall ref | Live(o.st.docs, ref) :: Live(st.docs, ref)
  {
    var ids := Scan(e, st, t, table, filter, limit).value;
    var w := DeleteRows(e, schema, Start(Tick(st)), table, ids);
    ScanSelectsFirst(e, st, t, table, filter, limit);
    DeleteRowsSweeps(e, schema, Start(Tick(st)), table, ids);
    assert w.touched * RefsOf(table, ids) == RefsOf(table, ids);
  }
}
