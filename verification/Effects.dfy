/**
 What each step does to the store, row by row: when it is refused and with which error, and
 otherwise the one row it writes, with its version and times. Nothing here is said through
 the executor's own helpers.
 */
module Effects {
  import opened Wrappers
  import opened Json
  import opened Schema
  import opened Validation
  import opened FieldGuard
  import opened JsonEquality
  import opened Mutation
  import opened Execution
  import opened Cascades
  import opened Integrity
  import opened Tightness
  import opened Selection
  import Ordering
  import SchemaPush

  /** The step is refused with the error and leaves the rows as they were. */
  ghost predicate Refuses(st: State, o: Outcome, error: ErrorCode) {
    o.error == Some(error) && o.st.docs == st.docs
  }

  /** The step goes through and writes this one row. */
  ghost predicate WritesRow(st: State, o: Outcome, ref: DocRef, row: StoredRow) {
    o.error.None? && o.st.docs == st.docs[ref := row] && o.direct == {ref} && o.cascaded == {}
  }

  ghost predicate IsThere(st: State, ref: DocRef) {
    ref in st.docs && st.docs[ref].deletedAt.None?
  }

  /** A row rewritten in place: the document, one version on, created when it was, not deleted. */
  ghost predicate Rewrites(st: State, o: Outcome, ref: DocRef, d: Result<Doc, ErrorCode>) {
    if !IsThere(st, ref) then Refuses(st, o, NotFound)
    else if d.Err? then Refuses(st, o, d.error)
    else WritesRow(st, o, ref, StoredRow(d.value, st.docs[ref].version + 1, st.docs[ref].createdAt, None))
  }

  // ---------- before any step ----------

  /** The gates, in order: append-only tables, the bulk limit, unknown tables. */
  lemma GatesExactly(e: Engine, schema: SchemaDef, st: State, step: Step)
    requires HasTable(step)
    ensures var o := RunStep(e, schema, st, step);
            var rewrites := step.Patch? || step.AdjustCounter? || step.Replace? || step.Delete? || step.Undelete? ||
                            step.PatchByQuery? || step.DeleteByQuery? || step.Upsert? || step.UpsertMany?;
            var bulk := step.InsertMany? || step.UpsertMany?;
            if rewrites && step.table in schema && schema[step.table].insertOnly then Refuses(st, o, SchemaViolation)
            else if bulk && |step.docs| > e.maxRows then Refuses(st, o, BadRequest)
            else if step.table !in schema then Refuses(st, o, NotFound)
            else o == RunOn(e, schema, st, schema[step.table], step)
  {
  }

  /** Steps without a table write nothing: a deadline guard always passes here, the others as the engine says. */
  lemma ControlExactly(e: Engine, schema: SchemaDef, st: State, step: Step)
    requires !HasTable(step)
    ensures var o := RunStep(e, schema, st, step);
            o.st == st && o.direct == {} && o.cascaded == {} &&
            o.error == if step.ExpectBefore? then None else e.control(st, step)
  {
  }

  // ---------- single rows ----------

  /** An insert writes a row of version 1 under a new id, created now. */
  lemma InsertExactly(e: Engine, schema: SchemaDef, st: State, t: TableDef, table: string, doc: Doc)
    ensures var o := RunOn(e, schema, st, t, Insert(table, doc));
            match e.insertDoc(st, table, doc)
            case Err(error) => Refuses(st, o, error)
            case Ok(d) => WritesRow(st, o, DocRef(table, e.newId(st.tick)), StoredRow(d, 1, e.now(st.tick), None))
  {
  }

  lemma PatchExactly(e: Engine, schema: SchemaDef, st: State, t: TableDef, table: string, id: string, fields: Doc)
    ensures Rewrites(st, RunOn(e, schema, st, t, Patch(table, id, fields)), DocRef(table, id),
                     e.patchDoc(st, DocRef(table, id), fields))
  {
  }

  lemma ReplaceExactly(e: Engine, schema: SchemaDef, st: State, t: TableDef, table: string, id: string, doc: Doc)
    ensures Rewrites(st, RunOn(e, schema, st, t, Replace(table, id, doc)), DocRef(table, id),
                     e.replaceDoc(st, DocRef(table, id), doc))
  {
  }

  /** Adjusting a counter is patching what the adjustment gives. */
  lemma AdjustExactly(e: Engine, schema: SchemaDef, st: State, t: TableDef, step: Step)
    requires step.AdjustCounter?
    ensures var o, d := RunOn(e, schema, st, t, step), e.adjust(st, step);
            if d.Err? then Refuses(st, o, d.error)
            else Rewrites(st, o, DocRef(step.table, step.id), e.patchDoc(st, DocRef(step.table, step.id), d.value))
  {
  }

  /** On a soft-delete table a delete stamps the row with the time. */
  lemma SoftDeleteExactly(e: Engine, schema: SchemaDef, st: State, t: TableDef, table: string, id: string)
    requires t.softDelete
    ensures var o, ref := RunOn(e, schema, st, t, Delete(table, id)), DocRef(table, id);
            if !IsThere(st, ref) then Refuses(st, o, NotFound)
            else
              WritesRow(st, o, ref,
                        st.docs[ref].(deletedAt := Some(e.now(st.tick)), version := st.docs[ref].version + 1))
  {
  }

  /** Undelete exists on soft-delete tables only, does nothing to a live row, and clears the stamp of a deleted one. */
  lemma UndeleteExactly(e: Engine, schema: SchemaDef, st: State, t: TableDef, table: string, id: string)
    ensures var o, ref := RunOn(e, schema, st, t, Undelete(table, id)), DocRef(table, id);
            if !t.softDelete then Refuses(st, o, BadRequest)
            else if ref !in st.docs then Refuses(st, o, NotFound)
            else if st.docs[ref].deletedAt.None? then o.error.None? && o.st == st && o.direct == {} && o.cascaded == {}
            else if e.restore(st, ref).Some? then Refuses(st, o, e.restore(st, ref).value)
            else WritesRow(st, o, ref, st.docs[ref].(deletedAt := None, version := st.docs[ref].version + 1))
  {
  }

  /** A delete and an undelete leave the row as it was, two versions on. */
  lemma UndeleteUndoes(e: Engine, schema: SchemaDef, st: State, t: TableDef, table: string, id: string)
    requires t.softDelete && IsThere(st, DocRef(table, id))
    requires var deleted := RunOn(e, schema, st, t, Delete(table, id));
             e.restore(Tick(deleted.st), DocRef(table, id)).None?
    ensures var ref, deleted := DocRef(table, id), RunOn(e, schema, st, t, Delete(table, id));
            var o := RunOn(e, schema, Tick(deleted.st), t, Undelete(table, id));
            o.error.None? && o.st.docs == st.docs[ref := st.docs[ref].(version := st.docs[ref].version + 2)]
  {
    var ref, deleted := DocRef(table, id), RunOn(e, schema, st, t, Delete(table, id));
    SoftDeleteExactly(e, schema, st, t, table, id);
    UndeleteExactly(e, schema, Tick(deleted.st), t, table, id);
    var o := RunOn(e, schema, Tick(deleted.st), t, Undelete(table, id));
    assert o.st.docs[ref] == st.docs[ref].(version := st.docs[ref].version + 2);
    assert o.st.docs == st.docs[ref := o.st.docs[ref]];
  }

  // ---------- preconditions ----------

  lemma ExpectVersionExactly(
    e: Engine, schema: SchemaDef, st: State, t: TableDef, table: string, id: string, version: I64)
    ensures var o, ref := RunOn(e, schema, st, t, ExpectVersion(table, id, version)), DocRef(table, id);
            if !IsThere(st, ref) then Refuses(st, o, NotFound)
            else if st.docs[ref].version != version then Refuses(st, o, PreconditionFailed)
            else o.error.None? && o.st == st
  {
  }

  /** Guards that are well formed hold when the row's exact contents have the expected values. */
  lemma ExpectFieldsExactly(
    e: Engine, schema: SchemaDef, st: State, t: TableDef, table: string, id: string, expected: seq<FieldExpectation>)
    ensures var o, ref := RunOn(e, schema, st, t, ExpectFields(table, id, expected)), DocRef(table, id);
            if !IsThere(st, ref) then Refuses(st, o, NotFound)
            else if e.checkGuards(t, expected).Some? then Refuses(st, o, e.checkGuards(t, expected).value)
            else if forall item | item in expected ::
                      item.path != [] &&
                      ExactAt(ExactOf(JObject(st.docs[ref].doc)), item.path) == Some(ExactOf(item.value))
              then o.error.None? && o.st == st
            else Refuses(st, o, PreconditionFailed)
  {
    var ref := DocRef(table, id);
    if IsThere(st, ref) {
      ExpectationsAreExact(st.docs[ref].doc, expected);
    }
  }

  // ---------- index lookups ----------

  ghost predicate AllCoerce(e: Engine, t: TableDef, fields: seq<string>, eq: seq<Json>)
    requires |fields| == |eq|
  {
    forall i | 0 <= i < |fields| :: e.coerce(t, fields[i], eq[i]).Ok?
  }

  /** The key is coerced component by component. */
  lemma {:induction false} CoerceExactly(e: Engine, t: TableDef, fields: seq<string>, eq: seq<Json>)
    requires |fields| == |eq|
    ensures CoerceAll(e, t, fields, eq).Ok? <==> AllCoerce(e, t, fields, eq)
    ensures CoerceAll(e, t, fields, eq).Ok? ==>
              forall i | 0 <= i < |fields| :: e.coerce(t, fields[i], eq[i]) == Ok(CoerceAll(e, t, fields, eq).value[i])
    decreases |fields|
  {
    if fields == [] {
    } else {
      CoerceExactly(e, t, fields[1..], eq[1..]);
      assert AllCoerce(e, t, fields, eq) <==>
             e.coerce(t, fields[0], eq[0]).Ok? && AllCoerce(e, t, fields[1..], eq[1..]) by {
        assert forall i | 0 < i < |fields| :: fields[i] == fields[1..][i - 1] && eq[i] == eq[1..][i - 1];
      }
    }
  }

  /** Otherwise the error is that of the first component that cannot be. */
  lemma {:induction false} CoerceFails(e: Engine, t: TableDef, fields: seq<string>, eq: seq<Json>, i: nat)
    requires |fields| == |eq| && i < |fields| && e.coerce(t, fields[i], eq[i]).Err?
    requires forall j | 0 <= j < i :: e.coerce(t, fields[j], eq[j]).Ok?
    ensures CoerceAll(e, t, fields, eq) == Err(e.coerce(t, fields[i], eq[i]).error)
    decreases i
  {
    if i == 0 {
    } else {
      CoerceFails(e, t, fields[1..], eq[1..], i - 1);
    }
  }

  /** A live row of the table whose key fields are set and equal the coerced key. */
  ghost predicate HasKeyOf(
    e: Engine, docs: Docs, t: TableDef, table: string, fields: seq<string>, eq: seq<Json>, ref: DocRef)
    requires |fields| == |eq|
  {
    ref in docs && ref.table == table && docs[ref].deletedAt.None? &&
    forall i | 0 <= i < |fields| ::
      fields[i] in docs[ref].doc && !docs[ref].doc[fields[i]].JNull? &&
      e.coerce(t, fields[i], eq[i]) == Ok(docs[ref].doc[fields[i]])
  }

  /** A lookup needs a known index and a whole, well-typed key, and finds exactly the live rows with that key. */
  lemma LookupExactly(e: Engine, docs: Docs, t: TableDef, table: string, index: string, eq: seq<Json>, i: nat)
    requires i < |t.indexes| && t.indexes[i].name == index && forall j | 0 <= j < i :: t.indexes[j].name != index
    ensures var fields, r := t.indexes[i].fields, EqLookup(e, docs, t, table, index, eq);
            if |eq| != |fields| then r == Err(BadRequest)
            else
              (r.Ok? <==> AllCoerce(e, t, fields, eq)) &&
              (r.Ok? ==> forall id :: id in r.value <==> HasKeyOf(e, docs, t, table, fields, eq, DocRef(table, id)))
  {
    SchemaPush.FindIndexIsFirst(t.indexes, i);
    var fields := t.indexes[i].fields;
    if |eq| == |fields| {
      CoerceExactly(e, t, fields, eq);
    }
  }

  lemma UnknownIndex(e: Engine, docs: Docs, t: TableDef, table: string, index: string, eq: seq<Json>)
    requires forall ix | ix in t.indexes :: ix.name != index
    ensures EqLookup(e, docs, t, table, index, eq) == Err(BadRequest)
  {
  }

  /** An upsert inserts where nothing has the key, patches the one row that has it, and refuses more. */
  lemma UpsertExactly(
    e: Engine, schema: SchemaDef, st: State, t: TableDef, table: string, index: string, eq: seq<Json>, insert: Doc,
    patch: Doc)
    ensures var o := RunOn(e, schema, st, t, Upsert(table, index, eq, insert, patch));
            match EqLookup(e, st.docs, t, table, index, eq)
            case Err(error) => Refuses(st, o, error)
            case Ok(ids) =>
              if ids == {} then o == RunOn(e, schema, st, t, Insert(table, insert))
              else if |ids| == 1 then forall id | id in ids :: o == RunOn(e, schema, st, t, Patch(table, id, patch))
              else Refuses(st, o, PreconditionFailed)
  {
    var found := EqLookup(e, st.docs, t, table, index, eq);
    if found.Ok? && |found.value| == 1 {
      forall id | id in found.value ensures Ordering.Least(found.value) == id {
        SingletonSize(found.value, id);
      }
    }
  }

  lemma ExpectAbsentExactly(
    e: Engine, schema: SchemaDef, st: State, t: TableDef, table: string, index: string, eq: seq<Json>)
    ensures var o := RunOn(e, schema, st, t, ExpectAbsent(table, index, eq));
            match EqLookup(e, st.docs, t, table, index, eq)
            case Err(error) => Refuses(st, o, error)
            case Ok(ids) => if ids == {} then o.error.None? && o.st == st else Refuses(st, o, PreconditionFailed)
  {
  }

  // ---------- lists ----------

  /** What comes first is done first, and after an error nothing more is. */
  ghost function InTurn(first: Write, rest: Write): Write {
    if first.error.Some? then first else Write(rest.st, first.touched + rest.touched, rest.error)
  }

  lemma {:induction false} InsertManyInTurn(e: Engine, st: State, table: string, a: seq<Doc>, b: seq<Doc>)
    ensures InsertAll(e, st, table, a + b)
         == InTurn(InsertAll(e, st, table, a), InsertAll(e, InsertAll(e, st, table, a).st, table, b))
    decreases |a|
  {
    if a == [] {
      assert a + b == b;
    } else {
      var first := DoInsert(e, st, table, a[0]);
      assert (a + b)[0] == a[0] && (a + b)[1..] == a[1..] + b;
      if first.error.None? {
        InsertManyInTurn(e, first.st, table, a[1..], b);
      }
    }
  }

  /** A list of one is an insert. */
  lemma InsertManyOfOne(e: Engine, schema: SchemaDef, st: State, t: TableDef, table: string, doc: Doc)
    ensures RunOn(e, schema, st, t, InsertMany(table, [doc])) == RunOn(e, schema, st, t, Insert(table, doc))
    ensures RunOn(e, schema, st, t, InsertMany(table, [])) == Outcome(st, {}, {}, None)
  {
    var first := DoInsert(e, st, table, doc);
    assert [doc][1..] == [] && first.touched + {} == first.touched;
    assert InsertAll(e, st, table, [doc]) == first;
  }

  lemma {:induction false} UpsertManyInTurn(
    e: Engine, st: State, t: TableDef, table: string, ix: IndexDef, a: seq<Doc>, b: seq<Doc>)
    ensures UpsertAll(e, st, t, table, ix, a + b)
         == InTurn(UpsertAll(e, st, t, table, ix, a),
                   UpsertAll(e, UpsertAll(e, st, t, table, ix, a).st, t, table, ix, b))
    decreases |a|
  {
    if a == [] {
      assert a + b == b;
    } else {
      assert (a + b)[0] == a[0] && (a + b)[1..] == a[1..] + b;
      var key := KeyOf(ix.fields, a[0]);
      if key.Some? {
        var first := DoUpsert(e, st, t, table, ix.name, key.value, a[0], a[0]);
        if first.error.None? {
          UpsertManyInTurn(e, first.st, t, table, ix, a[1..], b);
        }
      }
    }
  }

  /** The key of a document, field by field. */
  ghost predicate IsKeyOf(fields: seq<string>, doc: Doc, key: seq<Json>) {
    |key| == |fields| && forall i | 0 <= i < |fields| :: Get(doc, fields[i]) == Some(key[i])
  }

  lemma UpsertAllOfOne(e: Engine, st: State, t: TableDef, table: string, ix: IndexDef, doc: Doc, key: seq<Json>)
    requires IsKeyOf(ix.fields, doc, key)
    ensures UpsertAll(e, st, t, table, ix, [doc]) == DoUpsert(e, st, t, table, ix.name, key, doc, doc)
  {
    assert [doc][0] == doc && [doc][1..] == [];
    assert forall i | 0 <= i < |ix.fields| :: Get(doc, ix.fields[i]) == Some(key[i]);
    var own := KeyOf(ix.fields, doc);
    assert own.Some? && |own.value| == |key| && forall i | 0 <= i < |key| :: own.value[i] == key[i];
    assert own.value == key;
    var first := DoUpsert(e, st, t, table, ix.name, key, doc, doc);
    assert first.touched + {} == first.touched;
  }

  /** A list of one is an upsert of the document by its own key. */
  lemma UpsertManyOfOne(
    e: Engine, schema: SchemaDef, st: State, t: TableDef, table: string, index: string, doc: Doc, key: seq<Json>)
    requires var ix := SchemaPush.FindIndex(t.indexes, index); ix.Some? && IsKeyOf(ix.value.fields, doc, key)
    ensures RunOn(e, schema, st, t, UpsertMany(table, index, [doc]))
         == RunOn(e, schema, st, t, Upsert(table, index, key, doc, doc))
  {
    UpsertAllOfOne(e, st, t, table, SchemaPush.FindIndex(t.indexes, index).value, doc, key);
  }

  /** Which needs a known index, and every document its whole key. */
  lemma UpsertManyNeedsKey(
    e: Engine, schema: SchemaDef, st: State, t: TableDef, table: string, index: string, doc: Doc, rest: seq<Doc>)
    requires var ix := SchemaPush.FindIndex(t.indexes, index);
             ix.Some? ==> exists i :: 0 <= i < |ix.value.fields| && ix.value.fields[i] !in doc
    ensures Refuses(st, RunOn(e, schema, st, t, UpsertMany(table, index, [doc] + rest)), BadRequest)
  {
    assert ([doc] + rest)[0] == doc;
  }

  lemma {:induction false} PatchAllInTurn(
    e: Engine, st: State, table: string, a: seq<string>, b: seq<string>, patch: Doc)
    ensures PatchAll(e, st, table, a + b, patch)
         == InTurn(PatchAll(e, st, table, a, patch), PatchAll(e, PatchAll(e, st, table, a, patch).st, table, b, patch))
    decreases |a|
  {
    if a == [] {
      assert a + b == b;
    } else {
      var first := DoPatch(e, st, DocRef(table, a[0]), patch);
      assert (a + b)[0] == a[0] && (a + b)[1..] == a[1..] + b;
      if first.error.None? {
        PatchAllInTurn(e, first.st, table, a[1..], b, patch);
      }
    }
  }

  // ---------- references and hard deletes ----------

  /** The type under its optional layers. */
  ghost function Bare(ty: FieldType): FieldType {
    if ty.Optional? then Bare(ty.inner) else ty
  }

  /** A field refers to the table when it is an id of it, optional or not; the action is the one declared there. */
  lemma {:induction false} OnDeleteRefExactly(ty: FieldType, parent: string)
    ensures OnDeleteRef(ty, parent) ==
            if Bare(ty).Id? && Bare(ty).table == parent then Bare(ty).onDelete else None
  {
    if !ty.Optional? {
    } else {
      OnDeleteRefExactly(ty.inner, parent);
    }
  }

  /** A live row whose field, a reference to the table with an action, holds the id. */
  ghost predicate Refers(schema: SchemaDef, st: State, x: DocRef, k: string, parent: DocRef) {
    x in st.docs && st.docs[x].deletedAt.None? && x.table in schema && k in schema[x.table].fields &&
    OnDeleteRef(schema[x.table].fields[k], parent.table).Some? && Get(st.docs[x].doc, k) == Some(JString(parent.id))
  }

  /** The children of a link are the live rows whose field holds the id, all of them or as many as the cap. */
  lemma ChildrenExactly(e: Engine, docs: Docs, l: Link, id: string, cap: nat)
    requires Cascades.Enumerates(e)
    ensures var ids := Children(e, docs, l, id, cap);
            |ids| <= cap &&
            (forall x | x in ids ::
               DocRef(l.table, x) in docs && docs[DocRef(l.table, x)].deletedAt.None? &&
               Get(docs[DocRef(l.table, x)].doc, l.field) == Some(JString(id))) &&
            (|ids| < cap ==>
               forall x | x in docs && x.table == l.table && docs[x].deletedAt.None? &&
                          Get(docs[x].doc, l.field) == Some(JString(id)) :: x.id in ids)
  {
    var found := set ref | ref in docs && RefersTo(docs, ref, l, id) :: ref.id;
    forall x | x in e.order(found) ensures DocRef(l.table, x) in docs && RefersTo(docs, DocRef(l.table, x), l, id) {
      assert x in found;
    }
  }

  /** Nothing refers to the row through a link of the list. */
  lemma {:induction false} RestrictLinks(e: Engine, schema: SchemaDef, w: Walk, links: seq<Link>, id: string)
    requires Cascades.Enumerates(e) && w.rows <= e.maxCascade && w.error.None?
    requires forall l | l in links :: l.action.Restrict?
    ensures WalkLinks(e, schema, w, links, id)
         == if exists l, x :: l in links && x in w.st.docs && RefersTo(w.st.docs, x, l, id)
              then w.(error := Some(Conflict)) else w
    decreases |links|
  {
    if links == [] {
    } else {
      RestrictLink(e, schema, w, links[0], id);
      if forall x | x in w.st.docs :: !RefersTo(w.st.docs, x, links[0], id) {
        RestrictLinks(e, schema, w, links[1..], id);
        assert forall l :: l in links <==> l == links[0] || l in links[1..];
      } else {
        var x :| x in w.st.docs && RefersTo(w.st.docs, x, links[0], id);
        assert links[0] in links;
      }
    }
  }

  lemma RestrictLink(e: Engine, schema: SchemaDef, w: Walk, l: Link, id: string)
    requires Cascades.Enumerates(e) && w.rows <= e.maxCascade && l.action.Restrict?
    ensures WalkLink(e, schema, w, l, id)
         == if exists x :: x in w.st.docs && RefersTo(w.st.docs, x, l, id) then w.(error := Some(Conflict)) else w
  {
    var found := set ref | ref in w.st.docs && RefersTo(w.st.docs, ref, l, id) :: ref.id;
    if x :| x in w.st.docs && RefersTo(w.st.docs, x, l, id) {
      assert x.id in found;
      assert |found| > 0;
    } else {
      assert found == {};
    }
  }

  lemma ReferredByLink(schema: SchemaDef, st: State, links: seq<Link>, ref: DocRef)
    requires forall l: Link :: l in links <==> IsLink(schema, l, ref.table)
    ensures (exists l, x :: l in links && x in st.docs && RefersTo(st.docs, x, l, ref.id)) <==>
            exists x, k :: Refers(schema, st, x, k, ref)
  {
    if l, x :| l in links && x in st.docs && RefersTo(st.docs, x, l, ref.id) {
      assert Refers(schema, st, x, l.field, ref);
    }
    if x, k :| Refers(schema, st, x, k, ref) {
      var l := Link(x.table, k, OnDeleteRef(schema[x.table].fields[k], ref.table).value);
      assert IsLink(schema, l, ref.table) && RefersTo(st.docs, x, l, ref.id);
    }
  }

  ghost predicate IsReferred(schema: SchemaDef, st: State, ref: DocRef) {
    exists x, k :: Refers(schema, st, x, k, ref)
  }

  lemma LoneRowIs(e: Engine, schema: SchemaDef, st: State, ref: DocRef)
    requires Cascades.Enumerates(e) && e.maxCascade > 0
    requires DeletesAlone(schema, ref.table) && !schema[ref.table].softDelete
    ensures var w := Entered(Start(st), ref);
            DeleteRow(e, schema, Start(st), ref)
            == if IsReferred(schema, st, ref) then w.(error := Some(Conflict)) else Finish(w, ref)
  {
    var w, links := Entered(Start(st), ref), LinksTo(schema, ref.table);
    LinksToExactly(schema, ref.table);
    RestrictLinks(e, schema, w, links, ref.id);
    HardRowIs(e, schema, Start(st), ref);
    ReferredByLink(schema, st, links, ref);
  }

  lemma LoneRowGoes(st: State, ref: DocRef)
    ensures var o := Swept(Finish(Entered(Start(st), ref), ref), {ref});
            if ref !in st.docs then Refuses(st, o, NotFound)
            else o.error.None? && o.st.docs == st.docs - {ref} && o.direct == {ref} && o.cascaded == {}
  {
  }

  lemma RunDeleteIs(e: Engine, schema: SchemaDef, st: State, t: TableDef, table: string, id: string)
    ensures RunOn(e, schema, st, t, Delete(table, id)) == DeleteStep(e, schema, st, t, DocRef(table, id))
  {
  }

  lemma LoneStepExactly(e: Engine, schema: SchemaDef, st: State, ref: DocRef)
    requires Cascades.Enumerates(e) && e.maxCascade > 0
    requires DeletesAlone(schema, ref.table) && !schema[ref.table].softDelete
    ensures var o := DeleteStep(e, schema, st, schema[ref.table], ref);
            if IsReferred(schema, st, ref) then Refuses(st, o, Conflict)
            else if ref !in st.docs then Refuses(st, o, NotFound)
            else o.error.None? && o.st.docs == st.docs - {ref} && o.direct == {ref} && o.cascaded == {}
  {
    LoneRowIs(e, schema, st, ref);
    LoneRowGoes(st, ref);
  }

  /** Deletes that reach no other row: refused while something refers to the row, otherwise the row is gone. */
  lemma LoneDeleteExactly(e: Engine, schema: SchemaDef, st: State, table: string, id: string)
    requires Cascades.Enumerates(e) && e.maxCascade > 0
    requires DeletesAlone(schema, table) && !schema[table].softDelete
    ensures var o, ref := RunOn(e, schema, st, schema[table], Delete(table, id)), DocRef(table, id);
            if IsReferred(schema, st, ref) then Refuses(st, o, Conflict)
            else if ref !in st.docs then Refuses(st, o, NotFound)
            else o.error.None? && o.st.docs == st.docs - {ref} && o.direct == {ref} && o.cascaded == {}
  {
    RunDeleteIs(e, schema, st, schema[table], table, id);
    LoneStepExactly(e, schema, st, DocRef(table, id));
  }

  /** Following a `cascade` link to its end kills every row that referred through it. */
  lemma CascadeKillsChildren(e: Engine, schema: SchemaDef, w: Walk, l: Link, id: string, x: DocRef)
    requires Cascades.Enumerates(e) && w.rows <= e.maxCascade && w.error.None? && l.action.Cascade?
    requires |Found(w.st.docs, l, id)| <= e.maxCascade && RefersTo(w.st.docs, x, l, id) && x !in w.visited
    requires WalkLink(e, schema, w, l, id).error.None?
    ensures !Live(WalkLink(e, schema, w, l, id).st.docs, x)
  {
    var ids := Children(e, w.st.docs, l, id, e.maxCascade + 1);
    WalkLinkIs(e, schema, w, l, id);
    DeleteRowsSweeps(e, schema, w, l.table, ids);
    FoundExactly(w.st.docs, l, id, x);
    assert x.id in ids && x == DocRef(l.table, x.id);
    assert x in RefsOf(l.table, ids);
  }

  /** Following a `setNull` link patches every row that referred through it, and removes none. */
  lemma SetNullPatchesChildren(e: Engine, schema: SchemaDef, w: Walk, l: Link, id: string)
    requires Cascades.Enumerates(e) && w.rows <= e.maxCascade && w.error.None? && l.action.SetNull?
    requires |Found(w.st.docs, l, id)| <= e.maxCascade && WalkLink(e, schema, w, l, id).error.None?
    ensures var r := WalkLink(e, schema, w, l, id);
            r.st.docs.Keys == w.st.docs.Keys &&
            forall x :: if RefersTo(w.st.docs, x, l, id)
              then IsPatchedRow(e, w.st.docs, r.st.docs, x, map[l.field := JNull])
              else Get(r.st.docs, x) == Get(w.st.docs, x)
  {
    var ids := Children(e, w.st.docs, l, id, e.maxCascade + 1);
    WalkLinkIs(e, schema, w, l, id);
    assert (set x | x in ids) == Found(w.st.docs, l, id);
    SizeMeansNoRepeats(ids);
    NullRowsPatch(e, w, l, ids);
    forall x ensures x in RefsOf(l.table, ids) <==> RefersTo(w.st.docs, x, l, id) {
      if x.table == l.table {
        FoundExactly(w.st.docs, l, id, x);
      }
    }
  }

  lemma {:induction false} SizeMeansNoRepeats(s: seq<string>)
    requires |(set x | x in s)| == |s|
    ensures NoRepeats(s)
    decreases |s|
  {
    if s == [] {
    } else {
      var rest := set x | x in s[1..];
      assert (set x | x in s) == rest + {s[0]};
      SetOfSeq(s[1..]);
      SizeMeansNoRepeats(s[1..]);
      assert s[0] !in s[1..];
      assert forall i | 0 < i < |s| :: s[i] == s[1..][i - 1];
    }
  }

  lemma {:induction false} NullRowsPatch(e: Engine, w: Walk, l: Link, ids: seq<string>)
    requires w.rows <= e.maxCascade && w.error.None? && NoRepeats(ids) && NullRows(e, w, l, ids).error.None?
    ensures var r := NullRows(e, w, l, ids);
            r.st.docs.Keys == w.st.docs.Keys &&
            forall x :: if x in RefsOf(l.table, ids)
              then IsPatchedRow(e, w.st.docs, r.st.docs, x, map[l.field := JNull])
              else Get(r.st.docs, x) == Get(w.st.docs, x)
    decreases |ids|
  {
    if ids == [] {
    } else {
      var ref := DocRef(l.table, ids[0]);
      var next := UnsetOne(e, w, l, ids[0]);
      NullRowsIs(e, w, l, ids);
      RefsOfSplit(l.table, ids);
      PatchIsPatchedRow(e, w.st, ref, map[l.field := JNull]);
      NullRowsPatch(e, next, l, ids[1..]);
    }
  }

  // ---------- the walk, part by part ----------

  /** Rows are deleted one after the other, in the order given, until one fails. */
  lemma {:induction false} DeleteRowsInTurn(
    e: Engine, schema: SchemaDef, w: Walk, table: string, a: seq<string>, b: seq<string>)
    requires w.rows <= e.maxCascade
    ensures DeleteRows(e, schema, w, table, a + b)
         == DeleteRows(e, schema, DeleteRows(e, schema, w, table, a), table, b)
    decreases |a|
  {
    if a == [] || w.error.Some? {
      assert a == [] ==> a + b == b;
    } else {
      assert (a + b)[0] == a[0] && (a + b)[1..] == a[1..] + b;
      DeleteRowsInTurn(e, schema, DeleteRow(e, schema, w, DocRef(table, a[0])), table, a[1..], b);
    }
  }

  /** Links are followed one after the other, in the order given, until one fails. */
  lemma {:induction false} WalkLinksInTurn(
    e: Engine, schema: SchemaDef, w: Walk, a: seq<Link>, b: seq<Link>, id: string)
    requires w.rows <= e.maxCascade
    ensures WalkLinks(e, schema, w, a + b, id) == WalkLinks(e, schema, WalkLinks(e, schema, w, a, id), b, id)
    decreases |a|
  {
    if a == [] || w.error.Some? {
      assert a == [] ==> a + b == b;
    } else {
      assert (a + b)[0] == a[0] && (a + b)[1..] == a[1..] + b;
      WalkLinksInTurn(e, schema, WalkLink(e, schema, w, a[0], id), a[1..], b, id);
    }
  }
}
