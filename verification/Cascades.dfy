/** When `onDelete` cascades make a transaction write more rows than its estimate. */
module Cascades {
  import opened Wrappers
  import opened Json
  import opened Wire
  import opened Schema
  import opened Validation
  import opened Ordering
  import opened Mutation
  import opened Measures
  import opened Execution
  import opened FieldGuard

  // ---------- the links a delete follows ----------

  ghost predicate IsLink(schema: SchemaDef, l: Link, parent: string) {
    l.table in schema && l.field in schema[l.table].fields &&
    OnDeleteRef(schema[l.table].fields[l.field], parent) == Some(l.action)
  }

  lemma {:induction false} FieldLinksExactly(
    table: string, fields: map<string, FieldType>, names: seq<string>, parent: string, l: Link)
    requires forall k | k in names :: k in fields
    ensures l in FieldLinks(table, fields, names, parent) <==>
            l.table == table && l.field in names && OnDeleteRef(fields[l.field], parent) == Some(l.action)
    decreases |names|
  {
    if names == [] {
    } else {
      FieldLinksExactly(table, fields, names[1..], parent, l);
      assert l.field in names <==> l.field == names[0] || l.field in names[1..];
    }
  }

  lemma {:induction false} TableLinksExactly(schema: SchemaDef, tables: seq<string>, parent: string, l: Link)
    requires forall t | t in tables :: t in schema
    ensures l in TableLinks(schema, tables, parent) <==> l.table in tables && IsLink(schema, l, parent)
    decreases |tables|
  {
    if tables == [] {
    } else {
      var fields := schema[tables[0]].fields;
      FieldLinksExactly(tables[0], fields, Sorted(fields.Keys), parent, l);
      TableLinksExactly(schema, tables[1..], parent, l);
      assert l.table in tables <==> l.table == tables[0] || l.table in tables[1..];
    }
  }

  lemma LinksToExactly(schema: SchemaDef, parent: string)
    ensures forall l: Link :: l in LinksTo(schema, parent) <==> IsLink(schema, l, parent)
  {
    forall l: Link ensures l in LinksTo(schema, parent) <==> IsLink(schema, l, parent) {
      TableLinksExactly(schema, Sorted(schema.Keys), parent, l);
    }
  }

  ghost predicate NoRepeats<T>(s: seq<T>) {
    forall i, j | 0 <= i < j < |s| :: s[i] != s[j]
  }

  lemma NoRepeatsInBoth<T>(a: seq<T>, b: seq<T>)
    requires NoRepeats(a) && NoRepeats(b) && forall x | x in a :: x !in b
    ensures NoRepeats(a + b)
  {
    forall i, j | 0 <= i < j < |a + b| ensures (a + b)[i] != (a + b)[j] {
      if i < |a| <= j {
        assert a[i] in a && b[j - |a|] in b;
      }
    }
  }

  lemma NoRepeatsAfterFirst<T>(s: seq<T>)
    requires s != [] && NoRepeats(s)
    ensures NoRepeats(s[1..]) && s[0] !in s[1..]
  {
  }

  lemma {:induction false} FieldLinksOnce(
    table: string, fields: map<string, FieldType>, names: seq<string>, parent: string)
    requires NoRepeats(names) && forall k | k in names :: k in fields
    ensures NoRepeats(FieldLinks(table, fields, names, parent))
    decreases |names|
  {
    if names == [] {
    } else {
      var rest := FieldLinks(table, fields, names[1..], parent);
      FieldLinksOnce(table, fields, names[1..], parent);
      forall l | l in rest ensures l.field != names[0] {
        FieldLinksExactly(table, fields, names[1..], parent, l);
      }
    }
  }

  lemma SortedLinksOnce(table: string, fields: map<string, FieldType>, parent: string)
    ensures NoRepeats(FieldLinks(table, fields, Sorted(fields.Keys), parent))
  {
    SortedIsInOrder(fields.Keys);
    FieldLinksOnce(table, fields, Sorted(fields.Keys), parent);
  }

  lemma TableLinksApart(schema: SchemaDef, tables: seq<string>, parent: string, l: Link)
    requires tables != [] && NoRepeats(tables) && forall t | t in tables :: t in schema
    requires var fields := schema[tables[0]].fields;
             l in FieldLinks(tables[0], fields, Sorted(fields.Keys), parent)
    ensures l !in TableLinks(schema, tables[1..], parent)
  {
    var fields := schema[tables[0]].fields;
    FieldLinksExactly(tables[0], fields, Sorted(fields.Keys), parent, l);
    TableLinksExactly(schema, tables[1..], parent, l);
  }

  lemma {:induction false} TableLinksOnce(schema: SchemaDef, tables: seq<string>, parent: string)
    requires NoRepeats(tables) && forall t | t in tables :: t in schema
    ensures NoRepeats(TableLinks(schema, tables, parent))
    decreases |tables|
  {
    if tables == [] {
    } else {
      var fields := schema[tables[0]].fields;
      var here := FieldLinks(tables[0], fields, Sorted(fields.Keys), parent);
      var rest := TableLinks(schema, tables[1..], parent);
      NoRepeatsAfterFirst(tables);
      SortedLinksOnce(tables[0], fields, parent);
      TableLinksOnce(schema, tables[1..], parent);
      forall l | l in here ensures l !in rest {
        TableLinksApart(schema, tables, parent, l);
      }
      NoRepeatsInBoth(here, rest);
    }
  }

  /** By table, then by field. */
  ghost predicate LinkBefore(a: Link, b: Link) {
    if a.table == b.table then AtMost(a.field, b.field) else AtMost(a.table, b.table)
  }

  ghost predicate LinksInOrder(links: seq<Link>) {
    forall i, j | 0 <= i < j < |links| :: LinkBefore(links[i], links[j])
  }

  ghost predicate NamesInOrder(names: seq<string>) {
    forall i, j | 0 <= i < j < |names| :: names[i] != names[j] && AtMost(names[i], names[j])
  }

  lemma {:induction false} FieldLinksInOrder(
    table: string, fields: map<string, FieldType>, names: seq<string>, parent: string)
    requires NamesInOrder(names) && forall k | k in names :: k in fields
    ensures LinksInOrder(FieldLinks(table, fields, names, parent))
    decreases |names|
  {
    if names == [] {
    } else {
      FieldLinksInOrder(table, fields, names[1..], parent);
      forall l | l in FieldLinks(table, fields, names[1..], parent)
        ensures l.table == table && AtMost(names[0], l.field)
      {
        FieldLinksExactly(table, fields, names[1..], parent, l);
        var i :| 0 <= i < |names[1..]| && names[1..][i] == l.field;
        assert names[i + 1] == l.field;
      }
    }
  }

  lemma SortedLinksInOrder(table: string, fields: map<string, FieldType>, parent: string)
    ensures LinksInOrder(FieldLinks(table, fields, Sorted(fields.Keys), parent))
  {
    SortedIsInOrder(fields.Keys);
    FieldLinksInOrder(table, fields, Sorted(fields.Keys), parent);
  }

  lemma NamesAfterFirst(names: seq<string>)
    requires names != [] && NamesInOrder(names)
    ensures NamesInOrder(names[1..])
  {
  }

  lemma {:induction false} TableLinksInOrder(schema: SchemaDef, tables: seq<string>, parent: string)
    requires NamesInOrder(tables) && forall t | t in tables :: t in schema
    ensures LinksInOrder(TableLinks(schema, tables, parent))
    decreases |tables|
  {
    if tables == [] {
    } else {
      var fields := schema[tables[0]].fields;
      var here := FieldLinks(tables[0], fields, Sorted(fields.Keys), parent);
      var rest := TableLinks(schema, tables[1..], parent);
      NamesAfterFirst(tables);
      SortedLinksInOrder(tables[0], fields, parent);
      TableLinksInOrder(schema, tables[1..], parent);
      forall a, b | a in here && b in rest ensures LinkBefore(a, b) {
        LaterTable(schema, tables, parent, a, b);
      }
      OrderedTogether(here, rest);
    }
  }

  lemma LaterTable(schema: SchemaDef, tables: seq<string>, parent: string, a: Link, b: Link)
    requires tables != [] && NamesInOrder(tables) && forall t | t in tables :: t in schema
    requires var fields := schema[tables[0]].fields;
             a in FieldLinks(tables[0], fields, Sorted(fields.Keys), parent)
    requires b in TableLinks(schema, tables[1..], parent)
    ensures LinkBefore(a, b)
  {
    var fields := schema[tables[0]].fields;
    FieldLinksExactly(tables[0], fields, Sorted(fields.Keys), parent, a);
    TableLinksExactly(schema, tables[1..], parent, b);
    var i :| 0 <= i < |tables[1..]| && tables[1..][i] == b.table;
    assert tables[i + 1] == b.table;
  }

  lemma OrderedTogether(a: seq<Link>, b: seq<Link>)
    requires LinksInOrder(a) && LinksInOrder(b) && forall x, y | x in a && y in b :: LinkBefore(x, y)
    ensures LinksInOrder(a + b)
  {
    forall i, j | 0 <= i < j < |a + b| ensures LinkBefore((a + b)[i], (a + b)[j]) {
      if i < |a| <= j {
        assert a[i] in a && b[j - |a|] in b;
      }
    }
  }

  /** Links are followed by table, then by field, in key order. */
  lemma LinksToInOrder(schema: SchemaDef, parent: string)
    ensures LinksInOrder(LinksTo(schema, parent))
  {
    SortedIsInOrder(schema.Keys);
    TableLinksInOrder(schema, Sorted(schema.Keys), parent);
  }

  /** The walk follows no link twice. */
  lemma LinksToOnce(schema: SchemaDef, parent: string)
    ensures NoRepeats(LinksTo(schema, parent))
  {
    SortedIsInOrder(schema.Keys);
    TableLinksOnce(schema, Sorted(schema.Keys), parent);
  }

  /** Deleting a row of the table reaches no other row. */
  ghost predicate DeletesAlone(schema: SchemaDef, table: string) {
    table in schema && (schema[table].softDelete || forall l | IsLink(schema, l, table) :: l.action.Restrict?)
  }

  /** So does every delete a transaction may ask for. */
  ghost predicate NoSpill(schema: SchemaDef) {
    forall p | p in schema && !schema[p].insertOnly :: DeletesAlone(schema, p)
  }

  // ---------- without such links the estimate covers everything ----------

  lemma {:induction false} RestrictWritesNothing(e: Engine, schema: SchemaDef, w: Walk, links: seq<Link>, id: string)
    requires w.rows <= e.maxCascade && forall l | l in links :: l.action.Restrict?
    ensures var r := WalkLinks(e, schema, w, links, id);
            r.st == w.st && r.touched == w.touched && r.visited == w.visited
    decreases |links|
  {
    if links == [] || w.error.Some? {
    } else {
      var next := WalkLink(e, schema, w, links[0], id);
      assert next.st == w.st && next.touched == w.touched && next.visited == w.visited;
      RestrictWritesNothing(e, schema, next, links[1..], id);
    }
  }

  lemma DeleteRowAlone(e: Engine, schema: SchemaDef, w: Walk, ref: DocRef)
    requires w.rows <= e.maxCascade && DeletesAlone(schema, ref.table)
    ensures DeleteRow(e, schema, w, ref).touched <= w.touched + {ref}
  {
    if Stops(e, schema, w, ref) {
      assert Stopped(schema, w, ref).touched == w.touched;
    } else {
      RemoveRowAlone(e, schema, Entered(w, ref), ref);
    }
  }

  lemma RemoveRowAlone(e: Engine, schema: SchemaDef, w: Walk, ref: DocRef)
    requires w.rows <= e.maxCascade && DeletesAlone(schema, ref.table)
    ensures RemoveRow(e, schema, w, ref).touched <= w.touched + {ref}
  {
    if schema[ref.table].softDelete {
    } else {
      var links := LinksTo(schema, ref.table);
      LinksToExactly(schema, ref.table);
      RestrictWritesNothing(e, schema, w, links, ref.id);
      assert Finish(WalkLinks(e, schema, w, links, ref.id), ref).touched <= w.touched + {ref};
    }
  }

  lemma {:induction false} DeleteRowsAlone(e: Engine, schema: SchemaDef, w: Walk, table: string, ids: seq<string>)
    requires w.rows <= e.maxCascade && DeletesAlone(schema, table)
    ensures DeleteRows(e, schema, w, table, ids).touched <= w.touched + RefsOf(table, ids)
    decreases |ids|
  {
    if ids == [] || w.error.Some? {
    } else {
      var next := DeleteRow(e, schema, w, DocRef(table, ids[0]));
      DeleteRowAlone(e, schema, w, DocRef(table, ids[0]));
      DeleteRowsAlone(e, schema, next, table, ids[1..]);
      assert DocRef(table, ids[0]) in RefsOf(table, ids) && RefsOf(table, ids[1..]) <= RefsOf(table, ids);
      assert DeleteRows(e, schema, w, table, ids) == DeleteRows(e, schema, next, table, ids[1..]);
    }
  }

  lemma DeleteStepAlone(e: Engine, schema: SchemaDef, st: State, ref: DocRef)
    requires DeletesAlone(schema, ref.table)
    ensures DeleteStep(e, schema, st, schema[ref.table], ref).cascaded == {}
  {
    DeleteRowAlone(e, schema, Start(st), ref);
  }

  lemma DeleteQueryAlone(
    e: Engine, schema: SchemaDef, st: State, t: TableDef, table: string, filter: FilterExpr, limit: Option<U32>)
    requires DeletesAlone(schema, table)
    ensures DeleteQueryStep(e, schema, st, t, table, filter, limit).cascaded == {}
  {
    var found := Scan(e, st, t, table, filter, limit);
    if found.Ok? {
      DeleteRowsAlone(e, schema, Start(Tick(st)), table, found.value);
    }
  }

  lemma StepAlone(e: Engine, schema: SchemaDef, st: State, step: Step)
    requires NoSpill(schema)
    ensures RunStep(e, schema, st, step).cascaded == {}
  {
    var r := RunStep(e, schema, st, step);
    if r == Checks(st, r.error) {
    } else {
      var t := schema[step.table];
      assert r == RunOn(e, schema, st, t, step);
      if step.Delete? {
        DeleteStepAlone(e, schema, st, DocRef(step.table, step.id));
      } else if step.DeleteByQuery? {
        DeleteQueryAlone(e, schema, st, t, step.table, step.filter, step.limit);
      } else {
        assert r.cascaded == {};
      }
    }
  }

  lemma {:induction false} RunAlone(e: Engine, schema: SchemaDef, st: State, steps: seq<Step>)
    requires NoSpill(schema)
    ensures RunSteps(e, schema, st, steps).cascaded == {}
    decreases |steps|
  {
    if steps == [] {
    } else {
      var first := RunStep(e, schema, st, steps[0]);
      StepAlone(e, schema, st, steps[0]);
      RunAlone(e, schema, Tick(first.st), steps[1..]);
    }
  }

  /** On such a schema no transaction, complete or aborted, changes more rows than its estimate. */
  lemma NoSpillIsSafe(e: Engine, schema: SchemaDef, st: State, steps: seq<Step>)
    requires NoSpill(schema)
    ensures |Differ(st.docs, RunSteps(e, schema, st, steps).st.docs)| <= WorstCaseAffected(steps, e.maxRows)
  {
    var r := RunSteps(e, schema, st, steps);
    EstimateIsSafe(e, schema, st, steps);
    RunAlone(e, schema, st, steps);
    assert r.direct + {} == r.direct;
    KeepsBoundsDiffer(st.docs, r.st.docs, r.direct);
  }

  // ---------- with one such link, some transaction exceeds it ----------

  /** The engine's order lists a set's elements, once each. */
  ghost predicate Enumerates(e: Engine) {
    forall s :: |e.order(s)| == |s| && forall x :: x in e.order(s) <==> x in s
  }

  ghost predicate IsSetNull(schema: SchemaDef, table: string, k: string) {
    exists parent :: IsLink(schema, Link(table, k, SetNull), parent)
  }

  /** Through `onDelete` links other than `k`, `d` refers only where `doc` does. */
  ghost predicate NoOtherReferences(fields: map<string, FieldType>, doc: Doc, d: Doc, k: string) {
    forall j, id, parent
      | j in fields && j != k && OnDeleteRef(fields[j], parent).Some? && Get(d, j) == Some(JString(id)) ::
      Get(doc, j) == Some(JString(id))
  }

  ghost predicate Forgets(d: Doc, k: string) {
    forall id :: Get(d, k) != Some(JString(id))
  }

  /** Unsetting a `setNull` reference makes no other reference; stamps on other fields are allowed. */
  ghost predicate UnsetsAddNothing(e: Engine, schema: SchemaDef) {
    forall st: State, ref: DocRef, k: string
      | Live(st.docs, ref) && IsSetNull(schema, ref.table, k) && e.patchDoc(st, ref, map[k := JNull]).Ok? ::
      NoOtherReferences(schema[ref.table].fields, st.docs[ref].doc, e.patchDoc(st, ref, map[k := JNull]).value, k)
  }

  /** Unsetting a `setNull` reference removes it. */
  ghost predicate UnsetsForget(e: Engine, schema: SchemaDef) {
    forall st: State, ref: DocRef, k: string
      | Live(st.docs, ref) && IsSetNull(schema, ref.table, k) && e.patchDoc(st, ref, map[k := JNull]).Ok? ::
      Forgets(e.patchDoc(st, ref, map[k := JNull]).value, k)
  }

  /** No live row refers to `id` through the link. */
  ghost predicate Quiet(docs: Docs, l: Link, id: string) {
    forall ref | ref in docs :: !RefersTo(docs, ref, l, id)
  }

  lemma QuietHasNoChildren(e: Engine, docs: Docs, l: Link, id: string, cap: nat)
    requires Enumerates(e) && Quiet(docs, l, id)
    ensures Children(e, docs, l, id, cap) == []
  {
    assert (set ref | ref in docs && RefersTo(docs, ref, l, id) :: ref.id) == {};
  }

  lemma QuietLinkDoesNothing(e: Engine, schema: SchemaDef, w: Walk, l: Link, id: string)
    requires Enumerates(e) && w.rows <= e.maxCascade && w.error.None? && Quiet(w.st.docs, l, id)
    ensures WalkLink(e, schema, w, l, id) == w
  {
    QuietHasNoChildren(e, w.st.docs, l, id, 1);
    QuietHasNoChildren(e, w.st.docs, l, id, e.maxCascade + 1);
  }

  lemma {:induction false} QuietLinksDoNothing(e: Engine, schema: SchemaDef, w: Walk, links: seq<Link>, id: string)
    requires Enumerates(e) && w.rows <= e.maxCascade && w.error.None?
    requires forall l | l in links :: Quiet(w.st.docs, l, id)
    ensures WalkLinks(e, schema, w, links, id) == w
    decreases |links|
  {
    if links == [] {
    } else {
      QuietLinkDoesNothing(e, schema, w, links[0], id);
      QuietLinksDoNothing(e, schema, w, links[1..], id);
    }
  }

  /** If only one link has children, before and after it is followed, the walk is that link's. */
  lemma {:induction false} WalkIsOneLink(e: Engine, schema: SchemaDef, w: Walk, links: seq<Link>, l: Link, id: string)
    requires Enumerates(e) && w.rows <= e.maxCascade && w.error.None? && l in links && NoRepeats(links)
    requires forall k | k in links && k != l :: Quiet(w.st.docs, k, id)
    requires var next := WalkLink(e, schema, w, l, id);
             next.error.None? && forall k | k in links && k != l :: Quiet(next.st.docs, k, id)
    ensures WalkLinks(e, schema, w, links, id) == WalkLink(e, schema, w, l, id)
    decreases |links|
  {
    if links[0] == l {
      QuietLinksDoNothing(e, schema, WalkLink(e, schema, w, l, id), links[1..], id);
    } else {
      QuietLinkDoesNothing(e, schema, w, links[0], id);
      WalkIsOneLink(e, schema, w, links[1..], l, id);
    }
  }

  // ---------- a parent and one child, both valid ----------

  /** What a push guarantees of a schema, as far as the witness needs it. */
  ghost predicate Pushed(schema: SchemaDef) {
    (forall t | t in schema :: NoReservedNames(schema[t].fields) && NonEmptyUnions(Object(schema[t].fields))) &&
    forall l, parent | IsLink(schema, l, parent) && l.action.SetNull? :: schema[l.table].fields[l.field].Optional?
  }

  ghost predicate AllValid(f: Formats, schema: SchemaDef, docs: Docs) {
    forall ref | ref in docs ::
      ref.table in schema && IsValidId(ref.id) && ValidDoc(f, schema[ref.table].fields, docs[ref].doc)
  }

  /** Among valid documents, unsetting a `setNull` reference is accepted when the document is valid without it. */
  ghost predicate AcceptsUnset(f: Formats, e: Engine, schema: SchemaDef) {
    forall st: State, ref: DocRef, k: string
      | AllValid(f, schema, st.docs) && Live(st.docs, ref) && IsSetNull(schema, ref.table, k) &&
        ValidDoc(f, schema[ref.table].fields, st.docs[ref].doc - {k}) ::
      e.patchDoc(st, ref, map[k := JNull]).Ok?
  }

  function ZeroId(): (id: string)
    ensures |id| == 32 && id[0] == '0'
  {
    seq(32, _ => '0')
  }

  /** Every reference in the document has the id of zeros. */
  ghost predicate OnlyZeros(fields: map<string, FieldType>, doc: Doc) {
    forall j, parent, id | j in fields && OnDeleteRef(fields[j], parent).Some? && Get(doc, j) == Some(JString(id)) ::
      id == ZeroId()
  }

  /** A valid document with every field. */
  ghost function Filled(f: Formats, fields: map<string, FieldType>): (doc: Doc)
    requires Inhabited(f) && NoReservedNames(fields) && NonEmptyUnions(Object(fields))
  {
    map k | k in fields :: Inhabitant(f, fields[k])
  }

  lemma FilledIsValid(f: Formats, fields: map<string, FieldType>)
    requires Inhabited(f) && NoReservedNames(fields) && NonEmptyUnions(Object(fields))
    ensures ValidDoc(f, fields, Filled(f, fields)) && OnlyZeros(fields, Filled(f, fields))
  {
  }

  lemma {:induction false} ReferenceIsValid(f: Formats, ty: FieldType, parent: string, id: string)
    requires OnDeleteRef(ty, parent).Some? && IsValidId(id)
    ensures Valid(f, ty, JString(id))
  {
    match ty
    case Optional(inner) => ReferenceIsValid(f, inner, parent, id);
    case _ =>
  }

  ghost function FreshRow(doc: Doc): StoredRow {
    StoredRow(doc, 1, 0, None)
  }

  /** A parent, a child, and the link through which the child refers to it. */
  datatype Kin = Kin(parent: DocRef, child: DocRef, link: Link)

  ghost predicate IsKin(schema: SchemaDef, kin: Kin) {
    kin.parent.table in schema && IsLink(schema, kin.link, kin.parent.table) && !kin.link.action.Restrict? &&
    kin.child.table == kin.link.table && kin.parent.id != kin.child.id &&
    IsValidId(kin.parent.id) && IsValidId(kin.child.id) && kin.parent.id != ZeroId() && kin.child.id != ZeroId()
  }

  lemma SomeKin(schema: SchemaDef, parent: string, l: Link) returns (kin: Kin)
    requires parent in schema && IsLink(schema, l, parent) && !l.action.Restrict?
    ensures IsKin(schema, kin) && kin.parent.table == parent && kin.link == l
  {
    var p: string, c: string := seq(32, _ => '1'), seq(32, _ => '2');
    assert p[0] != c[0] && p[0] != ZeroId()[0] && c[0] != ZeroId()[0];
    kin := Kin(DocRef(parent, p), DocRef(l.table, c), l);
  }

  /** A parent document, and a child document that differs from `base` by its reference to the parent. */
  ghost function Family(kin: Kin, doc: Doc, base: Doc): Docs {
    map[kin.parent := FreshRow(doc), kin.child := FreshRow(base[kin.link.field := JString(kin.parent.id)])]
  }

  /** Two live rows; the child refers to the parent through the one link, and nothing else refers to either. */
  ghost predicate IsFamily(docs: Docs, schema: SchemaDef, kin: Kin) {
    docs.Keys == {kin.parent, kin.child} && Live(docs, kin.parent) && Live(docs, kin.child) &&
    RefersTo(docs, kin.child, kin.link, kin.parent.id) &&
    (forall k, t, ref | IsLink(schema, k, t) && RefersTo(docs, ref, k, kin.parent.id) ::
       ref == kin.child && k.field == kin.link.field) &&
    (forall k, t, ref | IsLink(schema, k, t) :: !RefersTo(docs, ref, k, kin.child.id))
  }

  lemma ChildIsValid(f: Formats, schema: SchemaDef, kin: Kin, base: Doc)
    requires IsKin(schema, kin) && ValidDoc(f, schema[kin.child.table].fields, base)
    requires !IsReserved(kin.link.field)
    ensures ValidDoc(f, schema[kin.child.table].fields, base[kin.link.field := JString(kin.parent.id)])
  {
    ReferenceIsValid(f, schema[kin.child.table].fields[kin.link.field], kin.parent.table, kin.parent.id);
  }

  /** Only the child refers to anything but zeros, through its link, to the parent. */
  lemma FamilyReferences(
    schema: SchemaDef, kin: Kin, doc: Doc, base: Doc, k: Link, t: string, ref: DocRef, id: string)
    requires IsKin(schema, kin) && IsLink(schema, k, t) && id != ZeroId()
    requires OnlyZeros(schema[kin.parent.table].fields, doc) && OnlyZeros(schema[kin.child.table].fields, base)
    requires RefersTo(Family(kin, doc, base), ref, k, id)
    ensures ref == kin.child && k.field == kin.link.field && id == kin.parent.id
  {
    assert ref == kin.parent ==> Get(doc, k.field) == Some(JString(id));
    assert ref == kin.child && k.field != kin.link.field ==> Get(base, k.field) == Some(JString(id));
  }

  lemma FamilyIsFamily(schema: SchemaDef, kin: Kin, doc: Doc, base: Doc)
    requires IsKin(schema, kin)
    requires OnlyZeros(schema[kin.parent.table].fields, doc) && OnlyZeros(schema[kin.child.table].fields, base)
    ensures IsFamily(Family(kin, doc, base), schema, kin)
  {
    var docs := Family(kin, doc, base);
    forall k, t, ref | IsLink(schema, k, t) && RefersTo(docs, ref, k, kin.parent.id)
      ensures ref == kin.child && k.field == kin.link.field
    {
      FamilyReferences(schema, kin, doc, base, k, t, ref, kin.parent.id);
    }
    forall k, t, ref | IsLink(schema, k, t) ensures !RefersTo(docs, ref, k, kin.child.id) {
      if RefersTo(docs, ref, k, kin.child.id) {
        FamilyReferences(schema, kin, doc, base, k, t, ref, kin.child.id);
      }
    }
  }

  lemma FamilyIsValid(f: Formats, schema: SchemaDef, kin: Kin, doc: Doc, base: Doc)
    requires IsKin(schema, kin) && !IsReserved(kin.link.field)
    requires ValidDoc(f, schema[kin.parent.table].fields, doc) && ValidDoc(f, schema[kin.child.table].fields, base)
    ensures AllValid(f, schema, Family(kin, doc, base))
  {
    ChildIsValid(f, schema, kin, base);
  }

  lemma SomeFamily(f: Formats, schema: SchemaDef, kin: Kin) returns (docs: Docs)
    requires Inhabited(f) && Pushed(schema) && IsKin(schema, kin)
    ensures AllValid(f, schema, docs) && IsFamily(docs, schema, kin)
  {
    var doc, base := Filled(f, schema[kin.parent.table].fields), Filled(f, schema[kin.child.table].fields);
    FilledIsValid(f, schema[kin.parent.table].fields);
    FilledIsValid(f, schema[kin.child.table].fields);
    FamilyIsValid(f, schema, kin, doc, base);
    FamilyIsFamily(schema, kin, doc, base);
    docs := Family(kin, doc, base);
  }

  /** The walk has just entered the parent. */
  ghost predicate AtParent(w: Walk, schema: SchemaDef, kin: Kin) {
    IsKin(schema, kin) && IsFamily(w.st.docs, schema, kin) &&
    w.error.None? && w.rows == 1 && w.visited == {kin.parent}
  }

  /** Only the child changed, and it refers to the parent through no other link. */
  ghost predicate ChildChanged(schema: SchemaDef, w: Walk, next: Walk, kin: Kin) {
    next.error.None? && next.rows <= 2 && Keeps(w.st.docs, next.st.docs, {kin.child}) &&
    Get(next.st.docs, kin.child) != Get(w.st.docs, kin.child) &&
    forall k, t | IsLink(schema, k, t) && k.field != kin.link.field ::
      !RefersTo(next.st.docs, kin.child, k, kin.parent.id)
  }

  lemma StampedChildIsChanged(e: Engine, schema: SchemaDef, w: Walk, kin: Kin)
    requires w.rows <= 2 && w.error.None? && IsFamily(w.st.docs, schema, kin)
    ensures ChildChanged(schema, w, Apply(w, DoSoftDelete(e, w.st, kin.child)), kin)
  {
  }

  lemma DeletedChildIsChanged(schema: SchemaDef, w: Walk, kin: Kin)
    requires w.rows <= 2 && w.error.None? && IsFamily(w.st.docs, schema, kin)
    ensures ChildChanged(schema, w, Finish(w, kin.child), kin)
  {
  }

  lemma RemoveChild(e: Engine, schema: SchemaDef, w: Walk, kin: Kin)
    requires Enumerates(e) && kin.child.table in schema && w.rows == 2 <= e.maxCascade && w.error.None?
    requires IsFamily(w.st.docs, schema, kin)
    ensures ChildChanged(schema, w, RemoveRow(e, schema, w, kin.child), kin)
  {
    if schema[kin.child.table].softDelete {
      StampedChildIsChanged(e, schema, w, kin);
    } else {
      var links := LinksTo(schema, kin.child.table);
      LinksToExactly(schema, kin.child.table);
      QuietLinksDoNothing(e, schema, w, links, kin.child.id);
      DeletedChildIsChanged(schema, w, kin);
    }
  }

  lemma CascadeRemovesChild(e: Engine, schema: SchemaDef, w: Walk, kin: Kin)
    requires Enumerates(e) && e.maxCascade > 1 && AtParent(w, schema, kin)
    ensures ChildChanged(schema, w, DeleteRows(e, schema, w, kin.child.table, [kin.child.id]), kin)
  {
    assert !Stops(e, schema, w, kin.child);
    RemoveChild(e, schema, Entered(w, kin.child), kin);
    OneRow(e, schema, w, kin.child.table, kin.child.id);
  }

  lemma OneRow(e: Engine, schema: SchemaDef, w: Walk, table: string, id: string)
    requires w.rows <= e.maxCascade && w.error.None?
    ensures DeleteRows(e, schema, w, table, [id]) == DeleteRow(e, schema, w, DocRef(table, id))
  {
    assert [id][0] == id && [id][1..] == [];
  }

  lemma OneNull(e: Engine, w: Walk, l: Link, id: string)
    requires w.rows < e.maxCascade && w.error.None?
    ensures NullRows(e, w, l, [id]) ==
            Apply(w.(rows := w.rows + 1), DoPatch(e, w.st, DocRef(l.table, id), map[l.field := JNull]))
  {
    assert [id][0] == id && [id][1..] == [];
  }

  /** A row whose patch made no new reference refers to the parent, if at all, through the patched field. */
  lemma UnsetChildIsChanged(e: Engine, schema: SchemaDef, w: Walk, kin: Kin)
    requires AtParent(w, schema, kin) && e.patchDoc(w.st, kin.child, map[kin.link.field := JNull]).Ok?
    requires NoOtherReferences(schema[kin.child.table].fields, w.st.docs[kin.child].doc,
                               e.patchDoc(w.st, kin.child, map[kin.link.field := JNull]).value, kin.link.field)
    ensures ChildChanged(
              schema, w, Apply(w.(rows := 2), DoPatch(e, w.st, kin.child, map[kin.link.field := JNull])), kin)
  {
    var next := Apply(w.(rows := 2), DoPatch(e, w.st, kin.child, map[kin.link.field := JNull]));
    forall k, t | IsLink(schema, k, t) && k.field != kin.link.field
      ensures !RefersTo(next.st.docs, kin.child, k, kin.parent.id)
    {
      assert RefersTo(next.st.docs, kin.child, k, kin.parent.id) ==> RefersTo(w.st.docs, kin.child, k, kin.parent.id);
    }
  }

  lemma LinkIsSetNull(schema: SchemaDef, kin: Kin)
    requires IsKin(schema, kin) && kin.link.action.SetNull?
    ensures IsSetNull(schema, kin.child.table, kin.link.field)
  {
    assert kin.link == Link(kin.child.table, kin.link.field, SetNull);
  }

  lemma NullChangesChild(f: Formats, e: Engine, schema: SchemaDef, w: Walk, kin: Kin)
    requires UnsetsAddNothing(e, schema) && AcceptsUnset(f, e, schema) && e.maxCascade > 1
    requires AtParent(w, schema, kin) && AllValid(f, schema, w.st.docs) && kin.link.action.SetNull?
    requires schema[kin.link.table].fields[kin.link.field].Optional?
    ensures ChildChanged(schema, w, NullRows(e, w, kin.link, [kin.child.id]), kin)
  {
    LinkIsSetNull(schema, kin);
    assert ValidDoc(f, schema[kin.child.table].fields, w.st.docs[kin.child].doc - {kin.link.field});
    OneNull(e, w, kin.link, kin.child.id);
    UnsetChildIsChanged(e, schema, w, kin);
  }

  lemma OneChild(e: Engine, docs: Docs, schema: SchemaDef, kin: Kin, cap: nat)
    requires Enumerates(e) && cap > 0 && IsKin(schema, kin) && IsFamily(docs, schema, kin)
    ensures Children(e, docs, kin.link, kin.parent.id, cap) == [kin.child.id]
  {
    var ids := set ref | ref in docs && RefersTo(docs, ref, kin.link, kin.parent.id) :: ref.id;
    assert kin.child in docs && RefersTo(docs, kin.child, kin.link, kin.parent.id);
    assert ids == {kin.child.id};
    var r := e.order(ids);
    assert |r| == 1 && r[0] in r;
  }

  /** An engine and a schema on which every link can be followed. */
  ghost predicate Follows(f: Formats, e: Engine, schema: SchemaDef) {
    Pushed(schema) && Enumerates(e) && e.maxCascade > 1 && UnsetsAddNothing(e, schema) && AcceptsUnset(f, e, schema)
  }

  lemma WalkLinkIs(e: Engine, schema: SchemaDef, w: Walk, l: Link, id: string)
    requires w.rows <= e.maxCascade
    ensures var ids := Children(e, w.st.docs, l, id, e.maxCascade + 1);
            (l.action.Cascade? ==> WalkLink(e, schema, w, l, id) == DeleteRows(e, schema, w, l.table, ids)) &&
            (l.action.SetNull? ==> WalkLink(e, schema, w, l, id) == NullRows(e, w, l, ids))
  {
  }

  lemma LinkChangesChild(f: Formats, e: Engine, schema: SchemaDef, w: Walk, kin: Kin)
    requires Follows(f, e, schema) && AtParent(w, schema, kin) && AllValid(f, schema, w.st.docs)
    ensures ChildChanged(schema, w, WalkLink(e, schema, w, kin.link, kin.parent.id), kin)
  {
    OneChild(e, w.st.docs, schema, kin, e.maxCascade + 1);
    WalkLinkIs(e, schema, w, kin.link, kin.parent.id);
    if kin.link.action.Cascade? {
      CascadeRemovesChild(e, schema, w, kin);
    } else {
      NullChangesChild(f, e, schema, w, kin);
    }
  }

  lemma OthersAreQuiet(schema: SchemaDef, w: Walk, next: Walk, kin: Kin, k: Link)
    requires AtParent(w, schema, kin) && ChildChanged(schema, w, next, kin) && IsLink(schema, k, kin.parent.table)
    requires k != kin.link
    ensures Quiet(next.st.docs, k, kin.parent.id) && Quiet(w.st.docs, k, kin.parent.id)
  {
    forall ref | ref in next.st.docs ensures !RefersTo(next.st.docs, ref, k, kin.parent.id) {
      if ref != kin.child {
        assert Get(next.st.docs, ref) == Get(w.st.docs, ref);
        assert RefersTo(next.st.docs, ref, k, kin.parent.id) ==> RefersTo(w.st.docs, ref, k, kin.parent.id);
      }
    }
  }

  lemma FamilyWalk(e: Engine, schema: SchemaDef, w: Walk, kin: Kin)
    requires Enumerates(e) && e.maxCascade > 1 && AtParent(w, schema, kin)
    requires ChildChanged(schema, w, WalkLink(e, schema, w, kin.link, kin.parent.id), kin)
    ensures WalkLinks(e, schema, w, LinksTo(schema, kin.parent.table), kin.parent.id)
         == WalkLink(e, schema, w, kin.link, kin.parent.id)
  {
    var links := LinksTo(schema, kin.parent.table);
    var next := WalkLink(e, schema, w, kin.link, kin.parent.id);
    LinksToExactly(schema, kin.parent.table);
    LinksToOnce(schema, kin.parent.table);
    forall k | k in links && k != kin.link
      ensures Quiet(next.st.docs, k, kin.parent.id) && Quiet(w.st.docs, k, kin.parent.id)
    {
      OthersAreQuiet(schema, w, next, kin, k);
    }
    WalkIsOneLink(e, schema, w, links, kin.link, kin.parent.id);
  }

  /** Both rows differ, and the run went through. */
  ghost predicate BothChanged(st: State, r: Walk, kin: Kin) {
    r.error.None? && {kin.parent, kin.child} <= Differ(st.docs, r.st.docs)
  }

  lemma ParentGone(schema: SchemaDef, w: Walk, next: Walk, kin: Kin)
    requires AtParent(w, schema, kin) && ChildChanged(schema, w, next, kin)
    ensures BothChanged(w.st, Finish(next, kin.parent), kin)
  {
    assert Get(next.st.docs, kin.parent) == Get(w.st.docs, kin.parent);
    assert Get(Finish(next, kin.parent).st.docs, kin.child) == Get(next.st.docs, kin.child);
  }

  /** Entering a row of a hard-delete table. */
  lemma HardRowIs(e: Engine, schema: SchemaDef, w: Walk, ref: DocRef)
    requires w.rows <= e.maxCascade && !Stops(e, schema, w, ref) && !schema[ref.table].softDelete
    ensures DeleteRow(e, schema, w, ref) ==
            Finish(WalkLinks(e, schema, Entered(w, ref), LinksTo(schema, ref.table), ref.id), ref)
  {
  }

  lemma EnteredIsAtParent(schema: SchemaDef, st: State, kin: Kin)
    requires IsKin(schema, kin) && IsFamily(st.docs, schema, kin)
    ensures AtParent(Entered(Start(st), kin.parent), schema, kin)
  {
    assert {} + {kin.parent} == {kin.parent};
  }

  /** Deleting the parent follows the one link, then removes the parent. */
  lemma FamilyDeleteIs(e: Engine, schema: SchemaDef, st: State, kin: Kin)
    requires Enumerates(e) && e.maxCascade > 1 && IsKin(schema, kin) && !schema[kin.parent.table].softDelete
    requires IsFamily(st.docs, schema, kin)
    requires var w := Entered(Start(st), kin.parent);
             ChildChanged(schema, w, WalkLink(e, schema, w, kin.link, kin.parent.id), kin)
    ensures DeleteRow(e, schema, Start(st), kin.parent)
         == Finish(WalkLink(e, schema, Entered(Start(st), kin.parent), kin.link, kin.parent.id), kin.parent)
  {
    EnteredIsAtParent(schema, st, kin);
    FamilyWalk(e, schema, Entered(Start(st), kin.parent), kin);
    HardRowIs(e, schema, Start(st), kin.parent);
  }

  /** Deleting the parent changes parent and child. */
  lemma FamilyDelete(f: Formats, e: Engine, schema: SchemaDef, st: State, kin: Kin)
    requires Follows(f, e, schema) && IsKin(schema, kin) && !schema[kin.parent.table].softDelete
    requires AllValid(f, schema, st.docs) && IsFamily(st.docs, schema, kin)
    ensures BothChanged(st, DeleteRow(e, schema, Start(st), kin.parent), kin)
  {
    var w := Entered(Start(st), kin.parent);
    EnteredIsAtParent(schema, st, kin);
    assert w.st == st;
    LinkChangesChild(f, e, schema, w, kin);
    FamilyDeleteIs(e, schema, st, kin);
    ParentGone(schema, w, WalkLink(e, schema, w, kin.link, kin.parent.id), kin);
  }

  lemma SingleStep(e: Engine, schema: SchemaDef, st: State, step: Step)
    ensures var r, o := RunSteps(e, schema, st, [step]), RunStep(e, schema, st, step);
            r.st.docs == o.st.docs && r.error == o.error
    ensures WorstCaseAffected([step], e.maxRows) == WorstCaseStep(step, e.maxRows)
  {
    assert [step][0] == step && [step][1..] == [];
  }

  lemma HardDelete(e: Engine, schema: SchemaDef, st: State, table: string, id: string)
    requires table in schema && !schema[table].softDelete && !schema[table].insertOnly
    ensures var ref := DocRef(table, id);
            RunStep(e, schema, st, Delete(table, id)) == Swept(DeleteRow(e, schema, Start(st), ref), {ref})
  {
    var step := Delete(table, id);
    assert HasTable(step) && step.table == table && !TooLong(e, step);
    assert RunStep(e, schema, st, step) == RunOn(e, schema, st, schema[table], step);
  }

  lemma OneDelete(e: Engine, schema: SchemaDef, st: State, ref: DocRef)
    requires ref.table in schema && !schema[ref.table].softDelete && !schema[ref.table].insertOnly
    ensures var steps, w := [Delete(ref.table, ref.id)], DeleteRow(e, schema, Start(st), ref);
            var r := RunSteps(e, schema, st, steps);
            r.st.docs == w.st.docs && r.error == w.error && WorstCaseAffected(steps, e.maxRows) == 1
  {
    HardDelete(e, schema, st, ref.table, ref.id);
    SingleStep(e, schema, st, Delete(ref.table, ref.id));
  }

  lemma TwoRowsDiffer(a: Docs, b: Docs, r: DocRef, s: DocRef)
    requires r != s && {r, s} <= Differ(a, b)
    ensures |Differ(a, b)| >= 2
  {
    assert |{r, s}| == 2;
    SubsetSize({r, s}, Differ(a, b));
  }

  /**
   The condition is exact. On any other pushed schema, and for every engine that accepts
   unsetting a `setNull` reference when the rest of the document is valid, one delete on a
   store of valid documents commits and changes more rows than its estimate.
   */
  lemma SpillExceedsEstimate(f: Formats, e: Engine, schema: SchemaDef) returns (st: State, steps: seq<Step>)
    requires Inhabited(f) && Pushed(schema) && !NoSpill(schema)
    requires Enumerates(e) && e.maxCascade > 1 && UnsetsAddNothing(e, schema) && AcceptsUnset(f, e, schema)
    ensures AllValid(f, schema, st.docs) && RunSteps(e, schema, st, steps).error.None?
    ensures |Differ(st.docs, RunSteps(e, schema, st, steps).st.docs)| > WorstCaseAffected(steps, e.maxRows)
  {
    var parent :| parent in schema && !schema[parent].insertOnly && !DeletesAlone(schema, parent);
    var l :| IsLink(schema, l, parent) && !l.action.Restrict?;
    var kin := SomeKin(schema, parent, l);
    var docs := SomeFamily(f, schema, kin);
    st, steps := State(docs, 0), [Delete(kin.parent.table, kin.parent.id)];
    FamilyDelete(f, e, schema, st, kin);
    TwoRowsDiffer(st.docs, DeleteRow(e, schema, Start(st), kin.parent).st.docs, kin.parent, kin.child);
    OneDelete(e, schema, st, kin.parent);
  }
}
