/**
 The estimate is attained: for every engine whose ids do not repeat and every list of deletes
 that reach no other row, one by one or by query, there is a store from which the whole run
 goes through and changes as many rows as estimated.
 */
module Attainment {
  import opened Wrappers
  import opened Wire
  import opened Schema
  import opened Validation
  import opened Mutation
  import opened Measures
  import opened Execution
  import opened Cascades
  import opened Tightness

  // ---------- deletes that go through ----------

  /** A soft-delete table, or one that nothing refers to. */
  ghost predicate Unlinked(schema: SchemaDef, table: string) {
    table in schema && (schema[table].softDelete || LinksTo(schema, table) == [])
  }

  lemma UnlinkedDeletesAlone(schema: SchemaDef, table: string)
    requires Unlinked(schema, table)
    ensures DeletesAlone(schema, table)
  {
    LinksToExactly(schema, table);
  }

  ghost predicate AllLive(docs: Docs, table: string, ids: seq<string>) {
    forall id | id in ids :: Live(docs, DocRef(table, id))
  }

  lemma DeleteRowGoesThrough(e: Engine, schema: SchemaDef, w: Walk, ref: DocRef)
    requires Unlinked(schema, ref.table) && w.rows < e.maxCascade && w.error.None?
    requires Live(w.st.docs, ref) && ref !in w.visited
    ensures var r := DeleteRow(e, schema, w, ref); r.error.None? && r.rows == w.rows + 1
  {
    if !schema[ref.table].softDelete {
      assert WalkLinks(e, schema, Entered(w, ref), [], ref.id) == Entered(w, ref);
    }
  }

  lemma {:induction false} DeleteRowsGoThrough(e: Engine, schema: SchemaDef, w: Walk, table: string, ids: seq<string>)
    requires Unlinked(schema, table) && w.rows + |ids| <= e.maxCascade && w.error.None?
    requires NoRepeats(ids) && AllLive(w.st.docs, table, ids) && RefsOf(table, ids) !! w.visited
    ensures DeleteRows(e, schema, w, table, ids).error.None?
    decreases |ids|
  {
    if ids == [] {
    } else {
      var ref := DocRef(table, ids[0]);
      var next := DeleteRow(e, schema, w, ref);
      RefsOfSplit(table, ids);
      DeleteRowGoesThrough(e, schema, w, ref);
      UnlinkedDeletesAlone(schema, table);
      DeleteRowChanges(e, schema, w, ref);
      OthersStayLive(w.st.docs, next.st.docs, table, ids);
      DeleteRowsGoThrough(e, schema, next, table, ids[1..]);
    }
  }

  lemma OthersStayLive(a: Docs, b: Docs, table: string, ids: seq<string>)
    requires ids != [] && NoRepeats(ids) && AllLive(a, table, ids) && Changes(a, b, {DocRef(table, ids[0])})
    ensures AllLive(b, table, ids[1..])
  {
    forall id | id in ids[1..] ensures Live(b, DocRef(table, id)) {
      assert id != ids[0] && id in ids;
      assert Get(a, DocRef(table, id)) == Get(b, DocRef(table, id));
    }
  }

  lemma DeleteQueryGoesThrough(
    e: Engine, schema: SchemaDef, st: State, t: TableDef, table: string, filter: FilterExpr, limit: Option<U32>)
    requires Unlinked(schema, table) && e.maxRows <= e.maxCascade && e.checkFilter(t, filter).None?
    ensures DeleteQueryStep(e, schema, st, t, table, filter, limit).error.None?
  {
    var ids := Scan(e, st, t, table, filter, limit).value;
    ScanSelects(e, st, t, table, filter, limit);
    ScanIsLive(e, st, t, table, filter, limit);
    DeleteRowsGoThrough(e, schema, Start(Tick(st)), table, ids);
  }

  lemma ScanIsLive(e: Engine, st: State, t: TableDef, table: string, filter: FilterExpr, limit: Option<U32>)
    requires Scan(e, st, t, table, filter, limit).Ok?
    ensures AllLive(st.docs, table, Scan(e, st, t, table, filter, limit).value)
  {
    ScanIsExact(e, st, t, table, filter, limit);
  }

  // ---------- the steps ----------

  /** A delete, or a delete by a filter that holds for the table's sample document at any time. */
  ghost predicate Removes(e: Engine, schema: SchemaDef, samples: map<string, Doc>, step: Step) {
    (step.Delete? || step.DeleteByQuery?) && Unlinked(schema, step.table) && !schema[step.table].insertOnly &&
    step.table in samples && (step.DeleteByQuery? ==> Reaches(e, schema[step.table], step.filter, samples[step.table]))
  }

  ghost predicate Reaches(e: Engine, t: TableDef, filter: FilterExpr, sample: Doc) {
    e.checkFilter(t, filter).None? && AlwaysMatches(e, t, filter, sample)
  }

  lemma DeleteRunsAs(e: Engine, schema: SchemaDef, st: State, step: Step)
    requires step.Delete? && step.table in schema && !schema[step.table].insertOnly
    ensures RunStep(e, schema, st, step)
         == DeleteStep(e, schema, st, schema[step.table], DocRef(step.table, step.id))
  {
  }

  lemma DeleteQueryRunsAs(e: Engine, schema: SchemaDef, st: State, step: Step)
    requires step.DeleteByQuery? && step.table in schema && !schema[step.table].insertOnly
    ensures RunStep(e, schema, st, step)
         == DeleteQueryStep(e, schema, st, schema[step.table], step.table, step.filter, step.limit)
  {
  }

  lemma DeleteStepGoesThrough(e: Engine, schema: SchemaDef, st: State, ref: DocRef)
    requires Unlinked(schema, ref.table) && e.maxCascade > 0 && Live(st.docs, ref)
    ensures DeleteStep(e, schema, st, schema[ref.table], ref).error.None?
  {
    if !schema[ref.table].softDelete {
      DeleteRowGoesThrough(e, schema, Start(st), ref);
    }
  }

  lemma LiveDeleteGoesThrough(e: Engine, schema: SchemaDef, st: State, step: Step)
    requires step.Delete? && Unlinked(schema, step.table) && !schema[step.table].insertOnly
    requires e.maxCascade > 0 && Live(st.docs, DocRef(step.table, step.id))
    ensures RunStep(e, schema, st, step).error.None?
  {
    DeleteRunsAs(e, schema, st, step);
    DeleteStepGoesThrough(e, schema, st, DocRef(step.table, step.id));
  }

  lemma DeleteIsRobust(e: Engine, schema: SchemaDef, st: State, steps: seq<Step>, i: nat)
    requires i < |steps| && steps[i].Delete? && Unlinked(schema, steps[i].table) && !schema[steps[i].table].insertOnly
    requires e.maxCascade > 0 && Live(st.docs, DocRef(steps[i].table, steps[i].id))
    ensures Robust(e, schema, st, steps, i)
  {
    var step := steps[i];
    forall later: State | st.tick <= later.tick && SameNeeds(st.docs, later.docs, step)
      ensures RunStep(e, schema, later, step).error.None?
    {
      LiveDeleteGoesThrough(e, schema, later, step);
    }
  }

  lemma DeleteQueryIsRobust(e: Engine, schema: SchemaDef, st: State, steps: seq<Step>, i: nat)
    requires i < |steps| && steps[i].DeleteByQuery? && Unlinked(schema, steps[i].table)
    requires !schema[steps[i].table].insertOnly && e.maxRows <= e.maxCascade
    requires e.checkFilter(schema[steps[i].table], steps[i].filter).None?
    ensures Robust(e, schema, st, steps, i)
  {
    var step := steps[i];
    forall later: State ensures RunStep(e, schema, later, step).error.None? {
      DeleteQueryRunsAs(e, schema, later, step);
      DeleteQueryGoesThrough(e, schema, later, schema[step.table], step.table, step.filter, step.limit);
    }
  }

  // ---------- a store for the steps ----------

  ghost predicate UniqueIds(e: Engine) {
    forall m: nat, n: nat | m < n :: e.newId(m) != e.newId(n)
  }

  /** The rows one step needs: the one it names, or as many as it may take. */
  ghost function Needed(e: Engine, step: Step): set<DocRef> {
    if step.DeleteByQuery? then NewRefs(e, step.table, 0, ByQueryCap(step.limit, e.maxRows))
    else if step.Delete? then {DocRef(step.table, step.id)}
    else {}
  }

  ghost function AllNeeded(e: Engine, steps: seq<Step>): set<DocRef> {
    if steps == [] then {} else Needed(e, steps[0]) + AllNeeded(e, steps[1..])
  }

  lemma {:induction false} NeededIsThere(e: Engine, steps: seq<Step>, step: Step)
    requires step in steps
    ensures Needed(e, step) <= AllNeeded(e, steps)
    decreases |steps|
  {
    if step == steps[0] {
    } else {
      NeededIsThere(e, steps[1..], step);
    }
  }

  ghost function StoreOf(refs: set<DocRef>, samples: map<string, Doc>): Docs {
    map ref | ref in refs && ref.table in samples :: FreshRow(samples[ref.table])
  }

  /** From some moment on the new ids are none of the given ones. */
  lemma {:induction false} EventuallyNew(e: Engine, ids: set<string>) returns (from: nat)
    requires UniqueIds(e)
    ensures forall k: nat | from <= k :: e.newId(k) !in ids
    decreases |ids|
  {
    if ids == {} {
      from := 0;
    } else {
      var id :| id in ids;
      from := EventuallyNew(e, ids - {id});
      if k: nat :| from <= k && e.newId(k) == id {
        from := k + 1;
      }
    }
  }

  lemma StoreHasStock(
    e: Engine, t: TableDef, table: string, filter: FilterExpr, n: nat, refs: set<DocRef>, samples: map<string, Doc>)
    requires UniqueIds(e) && NewRefs(e, table, 0, n) <= refs
    requires table in samples && AlwaysMatches(e, t, filter, samples[table])
    ensures |Stock(e, StoreOf(refs, samples), t, table, filter)| >= n
  {
    var docs := StoreOf(refs, samples);
    var ids := Stock(e, docs, t, table, filter);
    var stocked := set id | id in ids :: DocRef(table, id);
    forall ref | ref in NewRefs(e, table, 0, n) ensures ref in stocked {
      NewRefsAreNew(e, table, 0, n, ref);
      assert ref in docs && ref.id in ids;
    }
    NewRefsSize(e, State(map[], 0), table, 0, n);
    SubsetSize(NewRefs(e, table, 0, n), stocked);
    RefsOfSameSize(table, ids);
  }

  lemma DeleteIsReady(
    e: Engine, schema: SchemaDef, samples: map<string, Doc>, refs: set<DocRef>, tick: nat, steps: seq<Step>, i: nat)
    requires i < |steps| && steps[i].Delete? && 0 < e.maxCascade
    requires Removes(e, schema, samples, steps[i]) && Needed(e, steps[i]) <= refs
    ensures Stocked(e, schema, StoreOf(refs, samples), steps[i])
    ensures Robust(e, schema, State(StoreOf(refs, samples), tick), steps, i)
  {
    UnlinkedDeletesAlone(schema, steps[i].table);
    assert DocRef(steps[i].table, steps[i].id) in refs;
    DeleteIsRobust(e, schema, State(StoreOf(refs, samples), tick), steps, i);
  }

  lemma DeleteQueryIsReady(
    e: Engine, schema: SchemaDef, samples: map<string, Doc>, refs: set<DocRef>, tick: nat, steps: seq<Step>, i: nat)
    requires i < |steps| && steps[i].DeleteByQuery? && UniqueIds(e) && e.maxRows <= e.maxCascade
    requires Removes(e, schema, samples, steps[i]) && Needed(e, steps[i]) <= refs
    ensures Stocked(e, schema, StoreOf(refs, samples), steps[i])
    ensures Robust(e, schema, State(StoreOf(refs, samples), tick), steps, i)
  {
    var step := steps[i];
    UnlinkedDeletesAlone(schema, step.table);
    StoreHasStock(e, schema[step.table], step.table, step.filter, ByQueryCap(step.limit, e.maxRows), refs, samples);
    DeleteQueryIsRobust(e, schema, State(StoreOf(refs, samples), tick), steps, i);
  }

  lemma {:induction false} DeletesObserveNothing(steps: seq<Step>)
    requires forall step | step in steps :: step.Delete? || step.DeleteByQuery?
    ensures Observing(steps) == 0
    decreases |steps|
  {
    if steps == [] {
    } else {
      assert steps[0] in steps;
      DeletesObserveNothing(steps[1..]);
    }
  }

  /**
   Whatever the engine's rules for documents: for every list of such deletes there is a store
   from which the run goes through and changes exactly as many rows as estimated.
   */
  lemma DeletesAttainTheEstimate(e: Engine, schema: SchemaDef, samples: map<string, Doc>, steps: seq<Step>)
    returns (st: State)
    requires UniqueIds(e) && 0 < e.maxCascade && e.maxRows <= e.maxCascade && Separate(steps)
    requires forall step | step in steps :: Removes(e, schema, samples, step)
    ensures RunSteps(e, schema, st, steps).error.None?
    ensures |Differ(st.docs, RunSteps(e, schema, st, steps).st.docs)| == WorstCaseAffected(steps, e.maxRows)
  {
    var refs := AllNeeded(e, steps);
    var docs := StoreOf(refs, samples);
    var tick := EventuallyNew(e, set ref | ref in docs :: ref.id);
    st := State(docs, tick);
    forall i: nat | i < |steps| ensures Stocked(e, schema, docs, steps[i]) && Robust(e, schema, st, steps, i) {
      NeededIsThere(e, steps, steps[i]);
      if steps[i].Delete? {
        DeleteIsReady(e, schema, samples, refs, tick, steps, i);
      } else {
        DeleteQueryIsReady(e, schema, samples, refs, tick, steps, i);
      }
    }
    DeletesObserveNothing(steps);
    EstimateIsAttained(e, schema, st, steps);
  }
}
