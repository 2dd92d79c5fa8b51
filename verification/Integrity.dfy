/**
 A committed hard delete leaves no reference to what it removed: the cap on children
 fetched per link never drops a row that the budget could still have paid for.
 */
module Integrity {
  import opened Wrappers
  import opened Json
  import opened Wire
  import opened Schema
  import opened Mutation
  import opened Execution
  import opened Cascades

  // ---------- what a walk may do to the rows ----------

  /** No row appears or comes back to life, no reference appears, and only entered rows of hard-delete tables vanish. */
  ghost predicate Shrinks(schema: SchemaDef, w: Walk, r: Walk) {
    w.visited <= r.visited && r.st.docs.Keys <= w.st.docs.Keys &&
    (forall x | Live(r.st.docs, x) :: Live(w.st.docs, x)) &&
    (forall x, k, t, id | IsLink(schema, k, t) && RefersTo(r.st.docs, x, k, id) :: RefersTo(w.st.docs, x, k, id)) &&
    (forall q | q in w.st.docs && q !in r.st.docs :: q in r.visited && IsHard(schema, q))
  }

  ghost predicate IsHard(schema: SchemaDef, ref: DocRef) {
    ref.table in schema && !schema[ref.table].softDelete
  }

  /** Live rows that refer to `q` through an `onDelete` link are all in `among`. */
  ghost predicate ReferredFrom(schema: SchemaDef, docs: Docs, q: DocRef, among: set<DocRef>) {
    forall k, x | IsLink(schema, k, q.table) && RefersTo(docs, x, k, q.id) :: x in among
  }

  /** A row entered since is dead, and if removed, referred to only by rows entered before. */
  ghost predicate RowSettled(schema: SchemaDef, docs: Docs, q: DocRef, before: set<DocRef>) {
    !Live(docs, q) && (IsHard(schema, q) ==> q !in docs && ReferredFrom(schema, docs, q, before))
  }

  ghost predicate Settled(schema: SchemaDef, before: set<DocRef>, r: Walk) {
    forall q | q in r.visited && q !in before :: RowSettled(schema, r.st.docs, q, before)
  }

  /** Every row entered was paid for. */
  ghost predicate Counted(w: Walk, r: Walk) {
    |r.visited| + w.rows <= |w.visited| + r.rows
  }

  ghost predicate Clean(schema: SchemaDef, w: Walk, r: Walk) {
    Shrinks(schema, w, r) && Counted(w, r) && Settled(schema, w.visited, r)
  }

  lemma NothingDone(schema: SchemaDef, w: Walk)
    ensures Clean(schema, w, w)
  {
  }

  lemma ShrinksTwice(schema: SchemaDef, a: Walk, b: Walk, c: Walk)
    requires Shrinks(schema, a, b) && Shrinks(schema, b, c)
    ensures Shrinks(schema, a, c)
  {
  }

  /** A settled row stays settled, and rows entered later do not refer to it. */
  lemma StaysSettled(schema: SchemaDef, b: Walk, c: Walk, q: DocRef, before: set<DocRef>)
    requires Shrinks(schema, b, c) && RowSettled(schema, b.st.docs, q, before)
    ensures RowSettled(schema, c.st.docs, q, before)
  {
  }

  /** What refers to a later row was entered earlier, but rows entered in between are dead. */
  lemma SettlesEarlier(schema: SchemaDef, a: Walk, b: Walk, c: Walk, q: DocRef)
    requires Settled(schema, a.visited, b) && Shrinks(schema, b, c) && RowSettled(schema, c.st.docs, q, b.visited)
    ensures RowSettled(schema, c.st.docs, q, a.visited)
  {
    forall k, x | IsHard(schema, q) && IsLink(schema, k, q.table) && RefersTo(c.st.docs, x, k, q.id)
      ensures x in a.visited
    {
      assert x in b.visited && Live(b.st.docs, x);
    }
  }

  lemma CleanTwice(schema: SchemaDef, a: Walk, b: Walk, c: Walk)
    requires Clean(schema, a, b) && Clean(schema, b, c)
    ensures Clean(schema, a, c)
  {
    ShrinksTwice(schema, a, b, c);
    forall q | q in c.visited && q !in a.visited ensures RowSettled(schema, c.st.docs, q, a.visited) {
      if q in b.visited {
        StaysSettled(schema, b, c, q, a.visited);
      } else {
        SettlesEarlier(schema, a, b, c, q);
      }
    }
  }

  // ---------- the links of one row ----------

  /** Every live row that refers to `id` through the link has been entered. */
  ghost predicate LinkDone(r: Walk, l: Link, id: string) {
    forall x | RefersTo(r.st.docs, x, l, id) :: x in r.visited
  }

  lemma LinkStaysDone(schema: SchemaDef, a: Walk, b: Walk, l: Link, t: string, id: string)
    requires Shrinks(schema, a, b) && IsLink(schema, l, t) && LinkDone(a, l, id)
    ensures LinkDone(b, l, id)
  {
  }

  ghost function Found(docs: Docs, l: Link, id: string): set<string> {
    set ref | ref in docs && RefersTo(docs, ref, l, id) :: ref.id
  }

  lemma FoundExactly(docs: Docs, l: Link, id: string, x: DocRef)
    requires x.table == l.table
    ensures x.id in Found(docs, l, id) <==> RefersTo(docs, x, l, id)
  {
    assert DocRef(l.table, x.id) == x;
  }

  lemma {:induction false} Pigeonhole(s: seq<string>, n: nat)
    requires n <= |s| && |s| == |(set x | x in s)|
    ensures |(set x | x in s[..n])| == n
    decreases |s|
  {
    var all := set x | x in s;
    if n == |s| {
      assert s[..n] == s;
    } else {
      var init, last := s[..|s| - 1], s[|s| - 1];
      var fewer := set x | x in init;
      assert all == fewer + {last};
      SetOfSeq(init);
      Pigeonhole(init, n);
      assert init[..n] == s[..n];
    }
  }

  lemma {:induction false} SetOfSeq(s: seq<string>)
    ensures |(set x | x in s)| <= |s|
    decreases |s|
  {
    if s == [] {
      assert (set x | x in s) == {};
    } else {
      var init, last := s[..|s| - 1], s[|s| - 1];
      SetOfSeq(init);
      assert (set x | x in s) == (set x | x in init) + {last};
    }
  }

  /** The children fetched are all of them, or at least as many different ones as the cap. */
  lemma ChildrenFetched(e: Engine, docs: Docs, l: Link, id: string, cap: nat)
    requires Enumerates(e)
    ensures var ids := Children(e, docs, l, id, cap);
            (forall x :: x in ids <==> x in Found(docs, l, id)) || (|ids| == cap && |(set x | x in ids)| == cap)
  {
    var found := Found(docs, l, id);
    var all := e.order(found);
    assert (set x | x in all) == found;
    if |all| > cap {
      Pigeonhole(all, cap);
    }
  }

  /** Entering as many different children as the cap costs more than the budget. */
  lemma CapExceedsBudget(e: Engine, r: Walk, table: string, ids: seq<string>)
    requires |r.visited| <= r.rows <= e.maxCascade && |(set x | x in ids)| == e.maxCascade + 1
    ensures exists id | id in ids :: DocRef(table, id) !in r.visited
  {
    var names := set x | x in ids;
    var refs := set id | id in names :: DocRef(table, id);
    RefsOfSameSize(table, names);
    if forall id | id in ids :: DocRef(table, id) in r.visited {
      SubsetSize(refs, r.visited);
    }
  }

  // ---------- the walk, link by link and row by row ----------

  /** Still under way, with the budget covering every row entered. */
  ghost predicate OnBudget(e: Engine, w: Walk) {
    w.error.None? && |w.visited| <= w.rows <= e.maxCascade
  }

  ghost predicate Sound(e: Engine, schema: SchemaDef) {
    Enumerates(e) && UnsetsAddNothing(e, schema) && UnsetsForget(e, schema)
  }

  lemma {:induction false} DeleteRowClean(e: Engine, schema: SchemaDef, w: Walk, ref: DocRef)
    requires Sound(e, schema) && OnBudget(e, w)
    ensures var r := DeleteRow(e, schema, w, ref);
            r.error.None? ==> OnBudget(e, r) && Clean(schema, w, r) && ref in r.visited
    decreases e.maxCascade - w.rows, 0, 0
  {
    if Stops(e, schema, w, ref) {
      NothingDone(schema, w);
    } else {
      RemoveRowClean(e, schema, w, ref);
    }
  }

  lemma {:induction false} RemoveRowClean(e: Engine, schema: SchemaDef, w: Walk, ref: DocRef)
    requires Sound(e, schema) && OnBudget(e, w) && !Stops(e, schema, w, ref)
    ensures var r := RemoveRow(e, schema, Entered(w, ref), ref);
            r.error.None? ==> OnBudget(e, r) && Clean(schema, w, r) && ref in r.visited
    decreases e.maxCascade - w.rows - 1, 4, 0
  {
    var entered := Entered(w, ref);
    if schema[ref.table].softDelete {
      StampClean(e, schema, w, ref);
    } else {
      var links := LinksTo(schema, ref.table);
      LinksToExactly(schema, ref.table);
      WalkLinksClean(e, schema, entered, links, ref);
      var swept := WalkLinks(e, schema, entered, links, ref.id);
      if swept.error.None? {
        FinishClean(e, schema, w, swept, ref);
      }
    }
  }

  lemma StampClean(e: Engine, schema: SchemaDef, w: Walk, ref: DocRef)
    requires OnBudget(e, w) && !Stops(e, schema, w, ref) && schema[ref.table].softDelete
    ensures var r := Apply(Entered(w, ref), DoSoftDelete(e, w.st, ref));
            r.error.None? ==> OnBudget(e, r) && Clean(schema, w, r) && ref in r.visited
  {
  }

  /** Removing a row that was entered. */
  lemma RemovalShrinks(schema: SchemaDef, swept: Walk, ref: DocRef)
    requires IsHard(schema, ref) && ref in swept.visited && ref in swept.st.docs && swept.error.None?
    ensures Shrinks(schema, swept, Finish(swept, ref))
  {
    var r := Finish(swept, ref);
    forall x | Live(r.st.docs, x) || x in r.st.docs ensures x in swept.st.docs && swept.st.docs[x] == r.st.docs[x] {
    }
  }

  /** The links are done, so what still refers to the row was entered before it. */
  lemma RemovedIsSettled(schema: SchemaDef, w: Walk, swept: Walk, ref: DocRef)
    requires IsHard(schema, ref) && ref in swept.st.docs && swept.error.None?
    requires Settled(schema, w.visited + {ref}, swept) && Shrinks(schema, swept, Finish(swept, ref))
    requires forall l | IsLink(schema, l, ref.table) :: LinkDone(swept, l, ref.id)
    ensures RowSettled(schema, Finish(swept, ref).st.docs, ref, w.visited)
  {
    var r := Finish(swept, ref);
    forall k, x | IsLink(schema, k, ref.table) && RefersTo(r.st.docs, x, k, ref.id) ensures x in w.visited {
      assert RefersTo(swept.st.docs, x, k, ref.id) && x in swept.visited && x != ref;
    }
  }

  lemma OthersAreSettled(schema: SchemaDef, w: Walk, swept: Walk, ref: DocRef, q: DocRef)
    requires ref in swept.st.docs && swept.error.None? && Shrinks(schema, swept, Finish(swept, ref))
    requires RowSettled(schema, swept.st.docs, q, w.visited + {ref})
    ensures RowSettled(schema, Finish(swept, ref).st.docs, q, w.visited)
  {
    var r := Finish(swept, ref);
    StaysSettled(schema, swept, r, q, w.visited + {ref});
    forall k, x | IsLink(schema, k, q.table) && RefersTo(r.st.docs, x, k, q.id)
      ensures IsHard(schema, q) ==> x in w.visited
    {
      assert x != ref;
    }
  }

  lemma FinishClean(e: Engine, schema: SchemaDef, w: Walk, swept: Walk, ref: DocRef)
    requires OnBudget(e, w) && !Stops(e, schema, w, ref) && IsHard(schema, ref)
    requires OnBudget(e, swept) && Clean(schema, Entered(w, ref), swept)
    requires forall l | IsLink(schema, l, ref.table) :: LinkDone(swept, l, ref.id)
    ensures var r := Finish(swept, ref);
            r.error.None? ==> OnBudget(e, r) && Clean(schema, w, r) && ref in r.visited
  {
    if ref in swept.st.docs {
      var r := Finish(swept, ref);
      RemovalShrinks(schema, swept, ref);
      EnteredShrinks(schema, w, swept, ref);
      ShrinksTwice(schema, w, swept, r);
      RemovedIsSettled(schema, w, swept, ref);
      forall q | q in r.visited && q !in w.visited ensures RowSettled(schema, r.st.docs, q, w.visited) {
        if q != ref {
          OthersAreSettled(schema, w, swept, ref, q);
        }
      }
    }
  }

  lemma EnteredShrinks(schema: SchemaDef, w: Walk, swept: Walk, ref: DocRef)
    requires Shrinks(schema, Entered(w, ref), swept)
    ensures Shrinks(schema, w, swept)
  {
  }

  lemma {:induction false} DeleteRowsClean(e: Engine, schema: SchemaDef, w: Walk, table: string, ids: seq<string>)
    requires Sound(e, schema) && OnBudget(e, w)
    ensures var r := DeleteRows(e, schema, w, table, ids);
            r.error.None? ==>
              OnBudget(e, r) && Clean(schema, w, r) && forall id | id in ids :: DocRef(table, id) in r.visited
    decreases e.maxCascade - w.rows, 1, |ids|
  {
    if ids == [] {
      NothingDone(schema, w);
    } else {
      var next := DeleteRow(e, schema, w, DocRef(table, ids[0]));
      DeleteRowClean(e, schema, w, DocRef(table, ids[0]));
      if next.error.None? {
        DeleteRowsClean(e, schema, next, table, ids[1..]);
        var r := DeleteRows(e, schema, next, table, ids[1..]);
        if r.error.None? {
          CleanTwice(schema, w, next, r);
        }
      }
    }
  }

  /** After the unsets, none of the rows refers through the link, and each cost one unit. */
  ghost predicate Nulled(e: Engine, schema: SchemaDef, w: Walk, r: Walk, l: Link, ids: seq<string>) {
    OnBudget(e, r) && Clean(schema, w, r) && r.visited == w.visited && r.rows == w.rows + |ids| &&
    forall x, id | x in ids :: !RefersTo(r.st.docs, DocRef(l.table, x), l, id)
  }

  function UnsetOne(e: Engine, w: Walk, l: Link, id: string): Walk {
    Apply(w.(rows := w.rows + 1), DoPatch(e, w.st, DocRef(l.table, id), map[l.field := JNull]))
  }

  lemma UnsetClean(e: Engine, schema: SchemaDef, w: Walk, l: Link, t: string, id: string)
    requires Sound(e, schema) && OnBudget(e, w) && IsLink(schema, l, t) && l.action.SetNull? && w.rows < e.maxCascade
    ensures UnsetOne(e, w, l, id).error.None? ==> Nulled(e, schema, w, UnsetOne(e, w, l, id), l, [id])
  {
    assert l == Link(l.table, l.field, SetNull);
    assert IsSetNull(schema, l.table, l.field);
  }

  lemma NulledTwice(
    e: Engine, schema: SchemaDef, w: Walk, next: Walk, r: Walk, l: Link, t: string, ids: seq<string>)
    requires ids != [] && IsLink(schema, l, t)
    requires Nulled(e, schema, w, next, l, [ids[0]]) && Nulled(e, schema, next, r, l, ids[1..])
    ensures Nulled(e, schema, w, r, l, ids)
  {
    CleanTwice(schema, w, next, r);
    forall x, id | x in ids ensures !RefersTo(r.st.docs, DocRef(l.table, x), l, id) {
      assert x in [ids[0]] || x in ids[1..];
    }
  }

  lemma NullRowsIs(e: Engine, w: Walk, l: Link, ids: seq<string>)
    requires ids != [] && w.error.None? && w.rows <= e.maxCascade
    ensures w.rows < e.maxCascade ==> NullRows(e, w, l, ids) == NullRows(e, UnsetOne(e, w, l, ids[0]), l, ids[1..])
    ensures w.rows == e.maxCascade ==> NullRows(e, w, l, ids).error.Some?
  {
  }

  lemma {:induction false} NullRowsClean(e: Engine, schema: SchemaDef, w: Walk, l: Link, t: string, ids: seq<string>)
    requires Sound(e, schema) && OnBudget(e, w) && IsLink(schema, l, t) && l.action.SetNull?
    ensures NullRows(e, w, l, ids).error.None? ==> Nulled(e, schema, w, NullRows(e, w, l, ids), l, ids)
    decreases |ids|
  {
    if ids == [] {
      NothingDone(schema, w);
    } else {
      NullRowsIs(e, w, l, ids);
      if w.rows < e.maxCascade && NullRows(e, w, l, ids).error.None? {
        var next := UnsetOne(e, w, l, ids[0]);
        assert next.error.None?;
        UnsetClean(e, schema, w, l, t, ids[0]);
        NullRowsClean(e, schema, next, l, t, ids[1..]);
        NulledTwice(e, schema, w, next, NullRows(e, next, l, ids[1..]), l, t, ids);
      }
    }
  }

  lemma {:induction false} WalkLinkClean(e: Engine, schema: SchemaDef, w: Walk, l: Link, ref: DocRef)
    requires Sound(e, schema) && OnBudget(e, w) && IsLink(schema, l, ref.table)
    ensures var r := WalkLink(e, schema, w, l, ref.id);
            r.error.None? ==> OnBudget(e, r) && Clean(schema, w, r) && LinkDone(r, l, ref.id)
    decreases e.maxCascade - w.rows, 2, 0
  {
    var ids := Children(e, w.st.docs, l, ref.id, e.maxCascade + 1);
    var r := WalkLink(e, schema, w, l, ref.id);
    ChildrenFetched(e, w.st.docs, l, ref.id, e.maxCascade + 1);
    ChildrenFetched(e, w.st.docs, l, ref.id, 1);
    WalkLinkIs(e, schema, w, l, ref.id);
    if l.action.Restrict? {
      NothingDone(schema, w);
      if r.error.None? {
        RestrictDone(e, w, l, ref.id);
      }
    } else if l.action.Cascade? {
      DeleteRowsClean(e, schema, w, l.table, ids);
      if r.error.None? {
        CascadeDone(e, schema, w, r, l, ref, ids);
      }
    } else {
      NullRowsClean(e, schema, w, l, ref.table, ids);
      if r.error.None? {
        NullDone(e, schema, w, r, l, ref, ids);
      }
    }
  }

  lemma RestrictDone(e: Engine, w: Walk, l: Link, id: string)
    requires Enumerates(e) && Children(e, w.st.docs, l, id, 1) == []
    ensures LinkDone(w, l, id)
  {
    ChildrenFetched(e, w.st.docs, l, id, 1);
    forall x: DocRef ensures !RefersTo(w.st.docs, x, l, id) {
      if x.table == l.table {
        FoundExactly(w.st.docs, l, id, x);
      }
    }
  }

  lemma CascadeDone(e: Engine, schema: SchemaDef, w: Walk, r: Walk, l: Link, ref: DocRef, ids: seq<string>)
    requires Enumerates(e) && IsLink(schema, l, ref.table) && OnBudget(e, r) && Clean(schema, w, r)
    requires ids == Children(e, w.st.docs, l, ref.id, e.maxCascade + 1)
    requires forall id | id in ids :: DocRef(l.table, id) in r.visited
    ensures LinkDone(r, l, ref.id)
  {
    ChildrenFetched(e, w.st.docs, l, ref.id, e.maxCascade + 1);
    if |(set x | x in ids)| == e.maxCascade + 1 {
      CapExceedsBudget(e, r, l.table, ids);
    }
    forall x | RefersTo(r.st.docs, x, l, ref.id) ensures x in r.visited {
      FoundExactly(w.st.docs, l, ref.id, x);
      assert DocRef(l.table, x.id) == x;
    }
  }

  lemma NullDone(e: Engine, schema: SchemaDef, w: Walk, r: Walk, l: Link, ref: DocRef, ids: seq<string>)
    requires Enumerates(e) && IsLink(schema, l, ref.table) && Clean(schema, w, r)
    requires ids == Children(e, w.st.docs, l, ref.id, e.maxCascade + 1) && |ids| <= e.maxCascade
    requires forall x, id | x in ids :: !RefersTo(r.st.docs, DocRef(l.table, x), l, id)
    ensures LinkDone(r, l, ref.id)
  {
    ChildrenFetched(e, w.st.docs, l, ref.id, e.maxCascade + 1);
    forall x: DocRef ensures !RefersTo(r.st.docs, x, l, ref.id) {
      if x.table == l.table {
        FoundExactly(w.st.docs, l, ref.id, x);
        assert DocRef(l.table, x.id) == x;
      }
    }
  }

  lemma {:induction false} WalkLinksClean(e: Engine, schema: SchemaDef, w: Walk, links: seq<Link>, ref: DocRef)
    requires Sound(e, schema) && OnBudget(e, w) && forall l | l in links :: IsLink(schema, l, ref.table)
    ensures var r := WalkLinks(e, schema, w, links, ref.id);
            r.error.None? ==>
              OnBudget(e, r) && Clean(schema, w, r) && forall l | l in links :: LinkDone(r, l, ref.id)
    decreases e.maxCascade - w.rows, 3, |links|
  {
    if links == [] {
      NothingDone(schema, w);
    } else {
      var next := WalkLink(e, schema, w, links[0], ref.id);
      WalkLinkClean(e, schema, w, links[0], ref);
      if next.error.None? {
        WalkLinksClean(e, schema, next, links[1..], ref);
        var r := WalkLinks(e, schema, next, links[1..], ref.id);
        if r.error.None? {
          CleanTwice(schema, w, next, r);
          LinkStaysDone(schema, next, r, links[0], ref.table, ref.id);
        }
      }
    }
  }

  // ---------- the theorem ----------

  /** No live row refers, through an `onDelete` link, to a row that is gone. */
  ghost predicate NoDangling(schema: SchemaDef, before: Docs, after: Docs) {
    forall q, k, x | q in before && q !in after && IsLink(schema, k, q.table) :: !RefersTo(after, x, k, q.id)
  }

  lemma CleanLeavesNothingDangling(schema: SchemaDef, st: State, r: Walk)
    requires Clean(schema, Start(st), r)
    ensures NoDangling(schema, st.docs, r.st.docs)
  {
    forall q, k, x | q in st.docs && q !in r.st.docs && IsLink(schema, k, q.table)
      ensures !RefersTo(r.st.docs, x, k, q.id)
    {
      assert RowSettled(schema, r.st.docs, q, {});
    }
  }

  /** Rows may vanish, with all references to them, and references may; nothing is added. */
  ghost predicate OnlyRemoves(schema: SchemaDef, before: Docs, after: Docs) {
    NoDangling(schema, before, after) &&
    forall x, k, t, id | IsLink(schema, k, t) && RefersTo(after, x, k, id) :: RefersTo(before, x, k, id)
  }

  lemma DeleteStepOnlyRemoves(e: Engine, schema: SchemaDef, st: State, ref: DocRef)
    requires Sound(e, schema) && ref.table in schema
    ensures var r := DeleteStep(e, schema, st, schema[ref.table], ref);
            r.error.None? ==> OnlyRemoves(schema, st.docs, r.st.docs) && !Live(r.st.docs, ref)
  {
    if schema[ref.table].softDelete {
    } else {
      var w := DeleteRow(e, schema, Start(st), ref);
      DeleteRowClean(e, schema, Start(st), ref);
      if w.error.None? {
        CleanLeavesNothingDangling(schema, st, w);
        assert RowSettled(schema, w.st.docs, ref, {});
      }
    }
  }

  lemma DeleteQueryOnlyRemoves(
    e: Engine, schema: SchemaDef, st: State, t: TableDef, table: string, filter: FilterExpr, limit: Option<U32>)
    requires Sound(e, schema)
    ensures var r := DeleteQueryStep(e, schema, st, t, table, filter, limit);
            r.error.None? ==> OnlyRemoves(schema, st.docs, r.st.docs)
  {
    var found := Scan(e, st, t, table, filter, limit);
    if found.Ok? {
      var w := DeleteRows(e, schema, Start(Tick(st)), table, found.value);
      DeleteRowsClean(e, schema, Start(Tick(st)), table, found.value);
      if w.error.None? {
        CleanLeavesNothingDangling(schema, Tick(st), w);
      }
    }
  }

  /**
   For every engine whose unsets make no reference, every schema and every store: a delete
   or by-query delete that succeeds leaves no live row referring through an `onDelete` link
   to a row it removed.
   */
  lemma CommittedDeleteLeavesNoReference(e: Engine, schema: SchemaDef, st: State, step: Step)
    requires Sound(e, schema) && (step.Delete? || step.DeleteByQuery?)
    requires RunStep(e, schema, st, step).error.None?
    ensures OnlyRemoves(schema, st.docs, RunStep(e, schema, st, step).st.docs)
    ensures step.Delete? ==> !Live(RunStep(e, schema, st, step).st.docs, DocRef(step.table, step.id))
  {
    var t := schema[step.table];
    assert RunStep(e, schema, st, step) == RunOn(e, schema, st, t, step);
    if step.Delete? {
      DeleteStepOnlyRemoves(e, schema, st, DocRef(step.table, step.id));
    } else {
      DeleteQueryOnlyRemoves(e, schema, st, t, step.table, step.filter, step.limit);
    }
  }

  lemma OnlyRemovesTwice(schema: SchemaDef, a: Docs, b: Docs, c: Docs)
    requires OnlyRemoves(schema, a, b) && OnlyRemoves(schema, b, c)
    ensures OnlyRemoves(schema, a, c)
  {
    forall q, k, x | q in a && q !in c && IsLink(schema, k, q.table) ensures !RefersTo(c, x, k, q.id) {
      assert q !in b ==> !RefersTo(b, x, k, q.id);
    }
  }

  /** The same over every run of deletes that goes through. */
  lemma {:induction false} DeletesLeaveNoReference(e: Engine, schema: SchemaDef, st: State, steps: seq<Step>)
    requires Sound(e, schema) && forall step | step in steps :: step.Delete? || step.DeleteByQuery?
    requires RunSteps(e, schema, st, steps).error.None?
    ensures OnlyRemoves(schema, st.docs, RunSteps(e, schema, st, steps).st.docs)
    decreases |steps|
  {
    if steps == [] {
    } else {
      var first := RunStep(e, schema, st, steps[0]);
      assert steps[0] in steps;
      CommittedDeleteLeavesNoReference(e, schema, st, steps[0]);
      DeletesLeaveNoReference(e, schema, Tick(first.st), steps[1..]);
      OnlyRemovesTwice(schema, st.docs, first.st.docs, RunSteps(e, schema, st, steps).st.docs);
    }
  }
}
