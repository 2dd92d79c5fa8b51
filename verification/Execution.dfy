/**
 The transaction executor of rust-client/src/in_memory/mod.rs over a store of rows,
 with the rows each step writes. `Engine` holds what the executor consults besides the
 store; results that quantify over it hold for every choice of clock, ids, document
 rules and limits.
 */
module Execution {
  import opened Wrappers
  import opened Json
  import opened Wire
  import opened Schema
  import opened Validation
  import opened Ordering
  import opened FieldGuard
  import opened Evaluation
  import opened Mutation
  import opened Measures
  import SchemaPush

  datatype ErrorCode = BadRequest | NotFound | SchemaViolation | PreconditionFailed | Conflict | Internal

  datatype DocRef = DocRef(table: string, id: string)
  datatype StoredRow = StoredRow(doc: Doc, version: int, createdAt: int, deletedAt: Option<int>)
  type Docs = map<DocRef, StoredRow>

  /** `tick` tells successive readings of the clock, and calls of the id source and the counters, apart. */
  datatype State = State(docs: Docs, tick: nat)

  function Tick(st: State): State {
    State(st.docs, st.tick + 1)
  }

  /**
   `order` enumerates a hash map. The document-level rules (stamps, defaults, merging, validation, unique indexes) say
   which document a write stores, or why it is refused.
   */
  datatype Engine = Engine(
    maxRows: U32,
    maxCascade: nat,
    ops: Ops,
    now: nat -> I64,
    newId: nat -> string,
    order: set<string> -> seq<string>,
    insertDoc: (State, string, Doc) -> Result<Doc, ErrorCode>,
    patchDoc: (State, DocRef, Doc) -> Result<Doc, ErrorCode>,
    replaceDoc: (State, DocRef, Doc) -> Result<Doc, ErrorCode>,
    adjust: (State, Step) -> Result<Doc, ErrorCode>,
    restore: (State, DocRef) -> Option<ErrorCode>,
    coerce: (TableDef, string, Json) -> Result<Json, ErrorCode>,
    checkFilter: (TableDef, FilterExpr) -> Option<ErrorCode>,
    checkGuards: (TableDef, seq<FieldExpectation>) -> Option<ErrorCode>,
    control: (State, Step) -> Option<ErrorCode>)

  // ---------- single-row writes ----------

  /** The state reached, the rows written on the way, and the error that stopped it, if any. */
  datatype Write = Write(st: State, touched: set<DocRef>, error: Option<ErrorCode>)

  function Refused(st: State, error: ErrorCode): Write {
    Write(st, {}, Some(error))
  }

  function Put(st: State, ref: DocRef, row: StoredRow): Write {
    Write(State(st.docs[ref := row], st.tick + 1), {ref}, None)
  }

  predicate Live(docs: Docs, ref: DocRef) {
    ref in docs && docs[ref].deletedAt.None?
  }

  function DoInsert(e: Engine, st: State, table: string, doc: Doc): Write {
    match e.insertDoc(st, table, doc)
    case Err(error) => Refused(st, error)
    case Ok(stored) => Put(st, DocRef(table, e.newId(st.tick)), StoredRow(stored, 1, e.now(st.tick), None))
  }

  function DoPatch(e: Engine, st: State, ref: DocRef, fields: Doc): Write {
    if !Live(st.docs, ref) then Refused(st, NotFound)
    else
      match e.patchDoc(st, ref, fields)
      case Err(error) => Refused(st, error)
      case Ok(merged) =>
        var row := st.docs[ref];
        Put(st, ref, row.(doc := merged, version := row.version + 1))
  }

  function DoReplace(e: Engine, st: State, ref: DocRef, doc: Doc): Write {
    if !Live(st.docs, ref) then Refused(st, NotFound)
    else
      match e.replaceDoc(st, ref, doc)
      case Err(error) => Refused(st, error)
      case Ok(stored) =>
        var row := st.docs[ref];
        Put(st, ref, row.(doc := stored, version := row.version + 1))
  }

  function DoSoftDelete(e: Engine, st: State, ref: DocRef): Write {
    if !Live(st.docs, ref) then Refused(st, NotFound)
    else
      var row := st.docs[ref];
      Put(st, ref, row.(deletedAt := Some(e.now(st.tick)), version := row.version + 1))
  }

  function DoDelete(st: State, ref: DocRef): Write {
    if ref !in st.docs then Refused(st, NotFound)
    else Write(State(st.docs - {ref}, st.tick + 1), {ref}, None)
  }

  /** Restoring a live row changes nothing. */
  function DoUndelete(e: Engine, st: State, t: TableDef, ref: DocRef): Write {
    if !t.softDelete then Refused(st, BadRequest)
    else if ref !in st.docs then Refused(st, NotFound)
    else if st.docs[ref].deletedAt.None? then Write(st, {}, None)
    else
      match e.restore(st, ref)
      case Some(error) => Refused(st, error)
      case None =>
        var row := st.docs[ref];
        Put(st, ref, row.(deletedAt := None, version := row.version + 1))
  }

  /** Two writes in a row; the second does not happen after a failed first. */
  function Then(first: Write, second: Write): Write {
    Write(second.st, first.touched + second.touched, second.error)
  }

  // ---------- index lookups and scans ----------

  function CoerceAll(e: Engine, t: TableDef, fields: seq<string>, eq: seq<Json>): (r: Result<seq<Json>, ErrorCode>)
    requires |fields| == |eq|
    ensures r.Ok? ==> |r.value| == |fields|
  {
    if fields == [] then Ok([])
    else
      match e.coerce(t, fields[0], eq[0])
      case Err(error) => Err(error)
      case Ok(v) =>
        match CoerceAll(e, t, fields[1..], eq[1..])
        case Err(error) => Err(error)
        case Ok(vs) => Ok([v] + vs)
  }

  /** A missing or null key field never matches. */
  predicate HasKey(doc: Doc, fields: seq<string>, key: seq<Json>)
    requires |fields| == |key|
  {
    forall i | 0 <= i < |fields| :: fields[i] in doc && !doc[fields[i]].JNull? && doc[fields[i]] == key[i]
  }

  function WithKey(docs: Docs, table: string, fields: seq<string>, key: seq<Json>): set<string>
    requires |fields| == |key|
  {
    set ref | ref in docs && ref.table == table && Live(docs, ref) && HasKey(docs[ref].doc, fields, key) :: ref.id
  }

  function EqLookup(e: Engine, docs: Docs, t: TableDef, table: string, index: string, eq: seq<Json>)
    : Result<set<string>, ErrorCode>
  {
    match SchemaPush.FindIndex(t.indexes, index)
    case None => Err(BadRequest)
    case Some(ix) =>
      if |eq| != |ix.fields| then Err(BadRequest)
      else
        match CoerceAll(e, t, ix.fields, eq)
        case Err(error) => Err(error)
        case Ok(key) => Ok(WithKey(docs, table, ix.fields, key))
  }

  function CreationTimes(docs: Docs, table: string, ids: set<string>): map<string, int>
    requires forall id | id in ids :: DocRef(table, id) in docs
  {
    map id | id in ids :: docs[DocRef(table, id)].createdAt
  }

  function Matching(e: Engine, st: State, t: TableDef, table: string, filter: FilterExpr): (r: set<string>)
    ensures forall id | id in r :: Live(st.docs, DocRef(table, id))
  {
    var now := e.now(st.tick);
    set ref | ref in st.docs && ref.table == table && Live(st.docs, ref) &&
              EvalFilter(e.ops, filter, Ctx(st.docs[ref].doc, t.fields, now), Some(now))
      :: ref.id
  }

  /** As many of the rows found as the step asks for, and never more than the engine's own cap. */
  function TakeCount(found: nat, limit: Option<U32>, maxRows: U32): (n: nat)
    ensures n <= found
  {
    var wanted := if limit.None? || limit.value > maxRows then maxRows else limit.value;
    if found <= wanted then found else wanted
  }

  /** `scan_ids_by_filter`: the first matching live rows, as many as the limit allows. */
  function Scan(e: Engine, st: State, t: TableDef, table: string, filter: FilterExpr, limit: Option<U32>)
    : Result<seq<string>, ErrorCode>
  {
    match e.checkFilter(t, filter)
    case Some(error) => Err(error)
    case None =>
      var ids := ByTime(CreationTimes(st.docs, table, Matching(e, st, t, table, filter)));
      Ok(ids[..TakeCount(|ids|, limit, e.maxRows)])
  }

  // ---------- bulk writes ----------

  function InsertAll(e: Engine, st: State, table: string, docs: seq<Doc>): Write
    decreases |docs|
  {
    if docs == [] then Write(st, {}, None)
    else
      var first := DoInsert(e, st, table, docs[0]);
      if first.error.Some? then first else Then(first, InsertAll(e, first.st, table, docs[1..]))
  }

  function DoUpsert(
    e: Engine, st: State, t: TableDef, table: string, index: string, eq: seq<Json>, insert: Doc, patch: Doc): Write
  {
    match EqLookup(e, st.docs, t, table, index, eq)
    case Err(error) => Refused(st, error)
    case Ok(ids) =>
      if |ids| > 1 then Refused(st, PreconditionFailed)
      else if ids == {} then DoInsert(e, st, table, insert)
      else DoPatch(e, st, DocRef(table, Least(ids)), patch)
  }

  function KeyOf(fields: seq<string>, doc: Doc): Option<seq<Json>> {
    if forall i | 0 <= i < |fields| :: fields[i] in doc then
      Some(seq(|fields|, i requires 0 <= i < |fields| => doc[fields[i]]))
    else None
  }

  function UpsertAll(e: Engine, st: State, t: TableDef, table: string, ix: IndexDef, docs: seq<Doc>): Write
    decreases |docs|
  {
    if docs == [] then Write(st, {}, None)
    else
      match KeyOf(ix.fields, docs[0])
      case None => Refused(st, BadRequest)
      case Some(eq) =>
        var first := DoUpsert(e, st, t, table, ix.name, eq, docs[0], docs[0]);
        if first.error.Some? then first else Then(first, UpsertAll(e, first.st, t, table, ix, docs[1..]))
  }

  function PatchAll(e: Engine, st: State, table: string, ids: seq<string>, patch: Doc): Write
    decreases |ids|
  {
    if ids == [] then Write(st, {}, None)
    else
      var first := DoPatch(e, st, DocRef(table, ids[0]), patch);
      if first.error.Some? then first else Then(first, PatchAll(e, first.st, table, ids[1..], patch))
  }

  // ---------- onDelete cascades ----------

  /** A field of another table that refers to the deleted row's table with an action. */
  datatype Link = Link(table: string, field: string, action: OnDeleteAction)

  function OnDeleteRef(ty: FieldType, parent: string): (r: Option<OnDeleteAction>) {
    match ty
    case Id(table, action) => if table == parent then action else None
    case Optional(inner) => OnDeleteRef(inner, parent)
    case _ => None
  }

  function FieldLinks(table: string, fields: map<string, FieldType>, names: seq<string>, parent: string)
    : (r: seq<Link>)
    requires forall k | k in names :: k in fields
  {
    if names == [] then []
    else
      var rest := FieldLinks(table, fields, names[1..], parent);
      match OnDeleteRef(fields[names[0]], parent)
      case Some(action) => [Link(table, names[0], action)] + rest
      case None => rest
  }

  function TableLinks(schema: SchemaDef, tables: seq<string>, parent: string): (r: seq<Link>)
    requires forall t | t in tables :: t in schema
  {
    if tables == [] then []
    else
      var fields := schema[tables[0]].fields;
      FieldLinks(tables[0], fields, Sorted(fields.Keys), parent) + TableLinks(schema, tables[1..], parent)
  }

  /** The child walk: every link to `parent`, tables and fields in key order. */
  function LinksTo(schema: SchemaDef, parent: string): (r: seq<Link>) {
    TableLinks(schema, Sorted(schema.Keys), parent)
  }

  predicate RefersTo(docs: Docs, ref: DocRef, l: Link, id: string) {
    ref.table == l.table && Live(docs, ref) && Get(docs[ref].doc, l.field) == Some(JString(id))
  }

  /** The children found, in the order the engine's hash map yields them. */
  function Children(e: Engine, docs: Docs, l: Link, id: string, cap: nat): (r: seq<string>) {
    var ids := e.order(set ref | ref in docs && RefersTo(docs, ref, l, id) :: ref.id);
    if |ids| <= cap then ids else ids[..cap]
  }

  /** A delete under way: rows already visited, the budget spent, and what was written. */
  datatype Walk = Walk(st: State, visited: set<DocRef>, rows: nat, touched: set<DocRef>, error: Option<ErrorCode>)

  function Apply(w: Walk, o: Write): Walk {
    w.(st := o.st, touched := w.touched + o.touched, error := o.error)
  }

  /** An unknown table, a row already visited, or a budget spent ends the recursion. */
  predicate Stops(e: Engine, schema: SchemaDef, w: Walk, ref: DocRef) {
    ref.table !in schema || ref in w.visited || w.rows >= e.maxCascade
  }

  function Stopped(schema: SchemaDef, w: Walk, ref: DocRef): Walk {
    if ref.table !in schema then w.(error := Some(NotFound))
    else if ref in w.visited then w
    else w.(visited := w.visited + {ref}, error := Some(Conflict))
  }

  function Entered(w: Walk, ref: DocRef): Walk {
    w.(visited := w.visited + {ref}, rows := w.rows + 1)
  }

  /** The children are done with: the row itself goes last. */
  function Finish(swept: Walk, ref: DocRef): Walk {
    if swept.error.Some? then swept else Apply(swept, DoDelete(swept.st, ref))
  }

  /** `delete_row_cascade`: every row entered is counted, so the budget bounds the recursion. */
  function DeleteRow(e: Engine, schema: SchemaDef, w: Walk, ref: DocRef): (r: Walk)
    requires w.rows <= e.maxCascade
    ensures w.rows <= r.rows <= e.maxCascade
    decreases e.maxCascade - w.rows, 0, 0
  {
    if Stops(e, schema, w, ref) then Stopped(schema, w, ref) else RemoveRow(e, schema, Entered(w, ref), ref)
  }

  /** A soft delete stamps the row and stops; otherwise children first, the row last. */
  function RemoveRow(e: Engine, schema: SchemaDef, w: Walk, ref: DocRef): (r: Walk)
    requires w.rows <= e.maxCascade && ref.table in schema
    ensures w.rows <= r.rows <= e.maxCascade
    decreases e.maxCascade - w.rows, 4, 0
  {
    if schema[ref.table].softDelete then Apply(w, DoSoftDelete(e, w.st, ref))
    else Finish(WalkLinks(e, schema, w, LinksTo(schema, ref.table), ref.id), ref)
  }

  function DeleteRows(e: Engine, schema: SchemaDef, w: Walk, table: string, ids: seq<string>): (r: Walk)
    requires w.rows <= e.maxCascade
    ensures w.rows <= r.rows <= e.maxCascade
    decreases e.maxCascade - w.rows, 1, |ids|
  {
    if ids == [] || w.error.Some? then w
    else DeleteRows(e, schema, DeleteRow(e, schema, w, DocRef(table, ids[0])), table, ids[1..])
  }

  function NullRows(e: Engine, w: Walk, l: Link, ids: seq<string>): (r: Walk)
    requires w.rows <= e.maxCascade
    ensures w.rows <= r.rows <= e.maxCascade
    decreases |ids|
  {
    if ids == [] || w.error.Some? then w
    else if w.rows >= e.maxCascade then w.(error := Some(Conflict))
    else
      var patched := DoPatch(e, w.st, DocRef(l.table, ids[0]), map[l.field := JNull]);
      NullRows(e, Apply(w.(rows := w.rows + 1), patched), l, ids[1..])
  }

  function WalkLink(e: Engine, schema: SchemaDef, w: Walk, l: Link, id: string): (r: Walk)
    requires w.rows <= e.maxCascade
    ensures w.rows <= r.rows <= e.maxCascade
    decreases e.maxCascade - w.rows, 2, 0
  {
    match l.action
    case Restrict => if Children(e, w.st.docs, l, id, 1) == [] then w else w.(error := Some(Conflict))
    case Cascade => DeleteRows(e, schema, w, l.table, Children(e, w.st.docs, l, id, e.maxCascade + 1))
    case SetNull => NullRows(e, w, l, Children(e, w.st.docs, l, id, e.maxCascade + 1))
  }

  function WalkLinks(e: Engine, schema: SchemaDef, w: Walk, links: seq<Link>, id: string): (r: Walk)
    requires w.rows <= e.maxCascade
    ensures w.rows <= r.rows <= e.maxCascade
    decreases e.maxCascade - w.rows, 3, |links|
  {
    if links == [] || w.error.Some? then w
    else WalkLinks(e, schema, WalkLink(e, schema, w, links[0], id), links[1..], id)
  }

  function Start(st: State): Walk {
    Walk(st, {}, 0, {}, None)
  }

  // ---------- steps ----------

  /** What a step did: rows it named or selected, and rows reached only through `onDelete` links. */
  datatype Outcome = Outcome(st: State, direct: set<DocRef>, cascaded: set<DocRef>, error: Option<ErrorCode>)

  function Fails(st: State, error: ErrorCode): Outcome {
    Outcome(st, {}, {}, Some(error))
  }

  function Direct(o: Write): Outcome {
    Outcome(o.st, o.touched, {}, o.error)
  }

  function Swept(w: Walk, named: set<DocRef>): Outcome {
    Outcome(w.st, w.touched * named, w.touched - named, w.error)
  }

  /** A precondition: it fails with the error, or does nothing. */
  function Checks(st: State, error: Option<ErrorCode>): Outcome {
    Outcome(st, {}, {}, error)
  }

  function RefsOf(table: string, ids: seq<string>): set<DocRef> {
    set id | id in ids :: DocRef(table, id)
  }

  predicate IsControl(step: Step) {
    step.Schedule? || step.CancelSchedule? || step.StartWorkflow? || step.CancelWorkflow?
  }

  predicate HasTable(step: Step) {
    !IsControl(step) && !step.ExpectBefore?
  }

  /** The steps an append-only table refuses. */
  predicate ModifiesRows(step: Step) {
    NamesRow(step) || IsQuery(step) || step.Upsert? || step.UpsertMany?
  }

  function UpsertManyStep(e: Engine, st: State, t: TableDef, table: string, index: string, docs: seq<Doc>): Outcome {
    match SchemaPush.FindIndex(t.indexes, index)
    case None => Fails(st, BadRequest)
    case Some(ix) => Direct(UpsertAll(e, st, t, table, ix, docs))
  }

  function AdjustStep(e: Engine, st: State, ref: DocRef, step: Step): Outcome {
    match e.adjust(st, step)
    case Err(error) => Fails(st, error)
    case Ok(fields) => Direct(DoPatch(e, st, ref, fields))
  }

  /** A soft delete stamps the row; a hard delete follows the links with a fresh budget. */
  function DeleteStep(e: Engine, schema: SchemaDef, st: State, t: TableDef, ref: DocRef): Outcome {
    if t.softDelete then Direct(DoSoftDelete(e, st, ref))
    else Swept(DeleteRow(e, schema, Start(st), ref), {ref})
  }

  function PatchQueryStep(
    e: Engine, st: State, t: TableDef, table: string, filter: FilterExpr, patch: Doc, limit: Option<U32>): Outcome
  {
    match Scan(e, st, t, table, filter, limit)
    case Err(error) => Fails(st, error)
    case Ok(ids) => Direct(PatchAll(e, Tick(st), table, ids, patch))
  }

  /** One budget and one visited set for all the selected rows. */
  function DeleteQueryStep(
    e: Engine, schema: SchemaDef, st: State, t: TableDef, table: string, filter: FilterExpr, limit: Option<U32>)
    : Outcome
  {
    match Scan(e, st, t, table, filter, limit)
    case Err(error) => Fails(st, error)
    case Ok(ids) => Swept(DeleteRows(e, schema, Start(Tick(st)), table, ids), RefsOf(table, ids))
  }

  function CheckVersion(docs: Docs, ref: DocRef, version: int): Option<ErrorCode> {
    if !Live(docs, ref) then Some(NotFound)
    else if docs[ref].version != version then Some(PreconditionFailed)
    else None
  }

  function CheckFields(e: Engine, docs: Docs, t: TableDef, ref: DocRef, expected: seq<FieldExpectation>)
    : Option<ErrorCode>
  {
    if !Live(docs, ref) then Some(NotFound)
    else
      match e.checkGuards(t, expected)
      case Some(error) => Some(error)
      case None => if ExpectationsMatch(docs[ref].doc, expected) then None else Some(PreconditionFailed)
  }

  function CheckAbsent(e: Engine, docs: Docs, t: TableDef, table: string, index: string, eq: seq<Json>)
    : Option<ErrorCode>
  {
    match EqLookup(e, docs, t, table, index, eq)
    case Err(error) => Some(error)
    case Ok(ids) => if ids == {} then None else Some(PreconditionFailed)
  }

  function CheckNoMatch(e: Engine, st: State, t: TableDef, table: string, filter: FilterExpr): Option<ErrorCode> {
    match Scan(e, st, t, table, filter, Some(1))
    case Err(error) => Some(error)
    case Ok(ids) => if ids == [] then None else Some(PreconditionFailed)
  }

  predicate IsInsert(step: Step) {
    step.Insert? || step.InsertMany? || step.Upsert? || step.UpsertMany?
  }

  predicate NamesRow(step: Step) {
    step.Patch? || step.AdjustCounter? || step.Replace? || step.Delete? || step.Undelete?
  }

  predicate IsQuery(step: Step) {
    step.PatchByQuery? || step.DeleteByQuery?
  }

  function RunInsert(e: Engine, st: State, t: TableDef, step: Step): Outcome
    requires IsInsert(step)
  {
    match step
    case Insert(table, doc) => Direct(DoInsert(e, st, table, doc))
    case InsertMany(table, docs) => Direct(InsertAll(e, st, table, docs))
    case Upsert(table, index, eq, insert, patch) => Direct(DoUpsert(e, st, t, table, index, eq, insert, patch))
    case UpsertMany(table, index, docs) => UpsertManyStep(e, st, t, table, index, docs)
  }

  function RunRow(e: Engine, schema: SchemaDef, st: State, t: TableDef, ref: DocRef, step: Step): Outcome
    requires NamesRow(step)
  {
    if step.Patch? then Direct(DoPatch(e, st, ref, step.fields))
    else if step.AdjustCounter? then AdjustStep(e, st, ref, step)
    else if step.Replace? then Direct(DoReplace(e, st, ref, step.doc))
    else if step.Delete? then DeleteStep(e, schema, st, t, ref)
    else Direct(DoUndelete(e, st, t, ref))
  }

  function RunQuery(e: Engine, schema: SchemaDef, st: State, t: TableDef, step: Step): Outcome
    requires IsQuery(step)
  {
    if step.DeleteByQuery? then DeleteQueryStep(e, schema, st, t, step.table, step.filter, step.limit)
    else PatchQueryStep(e, st, t, step.table, step.filter, step.patch, step.limit)
  }

  /** A precondition's error, if it does not hold. */
  function RunExpect(e: Engine, st: State, t: TableDef, step: Step): Option<ErrorCode>
    requires HasTable(step) && !IsInsert(step) && !NamesRow(step) && !IsQuery(step)
  {
    match step
    case ExpectVersion(table, id, version) => CheckVersion(st.docs, DocRef(table, id), version)
    case ExpectFields(table, id, expected) => CheckFields(e, st.docs, t, DocRef(table, id), expected)
    case ExpectAbsent(table, index, eq) => CheckAbsent(e, st.docs, t, table, index, eq)
    case ExpectNoMatch(table, filter) => CheckNoMatch(e, st, t, table, filter)
  }

  /** `execute_step` once the table is known. */
  function RunOn(e: Engine, schema: SchemaDef, st: State, t: TableDef, step: Step): (r: Outcome)
    requires HasTable(step)
  {
    if IsInsert(step) then RunInsert(e, st, t, step)
    else if NamesRow(step) then RunRow(e, schema, st, t, DocRef(step.table, step.id), step)
    else if IsQuery(step) then RunQuery(e, schema, st, t, step)
    else Checks(st, RunExpect(e, st, t, step))
  }

  predicate TooLong(e: Engine, step: Step) {
    (step.InsertMany? || step.UpsertMany?) && |step.docs| > e.maxRows
  }

  /** `execute_step`: the append-only gate, the bulk limit, the table lookup, then the step. */
  function RunStep(e: Engine, schema: SchemaDef, st: State, step: Step): (r: Outcome) {
    if IsControl(step) then Checks(st, e.control(st, step))
    else if step.ExpectBefore? then Checks(st, None)
    else
      var table := step.table;
      if ModifiesRows(step) && table in schema && schema[table].insertOnly then Fails(st, SchemaViolation)
      else if TooLong(e, step) then Fails(st, BadRequest)
      else if table !in schema then Fails(st, NotFound)
      else RunOn(e, schema, st, schema[table], step)
  }

  /** The step loop of `execute_transaction`, up to its end or its first error; time passes between steps. */
  function RunSteps(e: Engine, schema: SchemaDef, st: State, steps: seq<Step>): (r: Outcome)
    decreases |steps|
  {
    if steps == [] then Checks(st, None)
    else
      var first := RunStep(e, schema, st, steps[0]);
      if first.error.Some? then first
      else
        var rest := RunSteps(e, schema, Tick(first.st), steps[1..]);
        Outcome(rest.st, first.direct + rest.direct, first.cascaded + rest.cascaded, rest.error)
  }

  // ---------- how many rows a write changes ----------

  /** The rows on which two stores differ. */
  ghost function Differ(a: Docs, b: Docs): set<DocRef> {
    set ref | ref in a.Keys + b.Keys && Get(a, ref) != Get(b, ref)
  }

  /** The stores agree outside `except`. */
  ghost predicate Keeps(a: Docs, b: Docs, except: set<DocRef>) {
    forall ref | ref !in except :: Get(a, ref) == Get(b, ref)
  }

  lemma KeepsBoundsDiffer(a: Docs, b: Docs, except: set<DocRef>)
    requires Keeps(a, b, except)
    ensures |Differ(a, b)| <= |except|
  {
    SubsetSize(Differ(a, b), except);
  }

  /** At most `n` rows are written, nothing else changes, and time does not run back. */
  ghost predicate Writes(before: State, o: Write, n: nat) {
    |o.touched| <= n && Keeps(before.docs, o.st.docs, o.touched) && before.tick <= o.st.tick
  }

  lemma InsertWrites(e: Engine, st: State, table: string, doc: Doc)
    ensures Writes(st, DoInsert(e, st, table, doc), 1)
  {
  }

  lemma PatchWrites(e: Engine, st: State, ref: DocRef, fields: Doc)
    ensures Writes(st, DoPatch(e, st, ref, fields), 1)
  {
  }

  lemma ReplaceWrites(e: Engine, st: State, ref: DocRef, doc: Doc)
    ensures Writes(st, DoReplace(e, st, ref, doc), 1)
  {
  }

  lemma SoftDeleteWrites(e: Engine, st: State, ref: DocRef)
    ensures Writes(st, DoSoftDelete(e, st, ref), 1)
  {
  }

  lemma DeleteWrites(st: State, ref: DocRef)
    ensures Writes(st, DoDelete(st, ref), 1)
  {
  }

  lemma UndeleteWrites(e: Engine, st: State, t: TableDef, ref: DocRef)
    ensures Writes(st, DoUndelete(e, st, t, ref), 1)
  {
  }

  lemma UpsertWrites(
    e: Engine, st: State, t: TableDef, table: string, index: string, eq: seq<Json>, insert: Doc, patch: Doc)
    ensures Writes(st, DoUpsert(e, st, t, table, index, eq, insert, patch), 1)
  {
    match EqLookup(e, st.docs, t, table, index, eq)
    case Err(_) =>
    case Ok(ids) =>
      if ids == {} {
        InsertWrites(e, st, table, insert);
      } else if |ids| == 1 {
        PatchWrites(e, st, DocRef(table, Least(ids)), patch);
      }
  }

  lemma ThenWrites(st: State, first: Write, second: Write, m: nat, n: nat)
    requires Writes(st, first, m) && Writes(first.st, second, n)
    ensures Writes(st, Then(first, second), m + n)
  {
  }

  lemma {:induction false} InsertAllWrites(e: Engine, st: State, table: string, docs: seq<Doc>)
    ensures Writes(st, InsertAll(e, st, table, docs), |docs|)
    decreases |docs|
  {
    if docs == [] {
    } else {
      var first := DoInsert(e, st, table, docs[0]);
      InsertWrites(e, st, table, docs[0]);
      InsertAllWrites(e, first.st, table, docs[1..]);
      ThenWrites(st, first, InsertAll(e, first.st, table, docs[1..]), 1, |docs| - 1);
    }
  }

  lemma {:induction false} UpsertAllWrites(
    e: Engine, st: State, t: TableDef, table: string, ix: IndexDef, docs: seq<Doc>)
    ensures Writes(st, UpsertAll(e, st, t, table, ix, docs), |docs|)
    decreases |docs|
  {
    if docs == [] || KeyOf(ix.fields, docs[0]).None? {
    } else {
      var eq := KeyOf(ix.fields, docs[0]).value;
      var first := DoUpsert(e, st, t, table, ix.name, eq, docs[0], docs[0]);
      UpsertWrites(e, st, t, table, ix.name, eq, docs[0], docs[0]);
      UpsertAllWrites(e, first.st, t, table, ix, docs[1..]);
      ThenWrites(st, first, UpsertAll(e, first.st, t, table, ix, docs[1..]), 1, |docs| - 1);
    }
  }

  lemma {:induction false} PatchAllWrites(e: Engine, st: State, table: string, ids: seq<string>, patch: Doc)
    ensures Writes(st, PatchAll(e, st, table, ids, patch), |ids|)
    decreases |ids|
  {
    if ids == [] {
    } else {
      var first := DoPatch(e, st, DocRef(table, ids[0]), patch);
      PatchWrites(e, st, DocRef(table, ids[0]), patch);
      PatchAllWrites(e, first.st, table, ids[1..], patch);
      ThenWrites(st, first, PatchAll(e, first.st, table, ids[1..], patch), 1, |ids| - 1);
    }
  }

  // ---------- a cascade stays within its budget ----------

  /** Every row written was paid for, and nothing else changed. */
  ghost predicate Pays(w: Walk, r: Walk) {
    |r.touched| + w.rows <= |w.touched| + r.rows &&
    w.touched <= r.touched && Keeps(w.st.docs, r.st.docs, r.touched) && w.st.tick <= r.st.tick
  }

  lemma NothingToPay(w: Walk, r: Walk)
    requires r.st == w.st && r.touched == w.touched && w.rows <= r.rows
    ensures Pays(w, r)
  {
  }

  lemma PaysTwice(a: Walk, b: Walk, c: Walk)
    requires Pays(a, b) && Pays(b, c)
    ensures Pays(a, c)
  {
  }

  /** As `Pays`, with one row paid for in advance. */
  ghost predicate PaysButOne(w: Walk, r: Walk) {
    |r.touched| + w.rows <= |w.touched| + r.rows + 1 &&
    w.touched <= r.touched && Keeps(w.st.docs, r.st.docs, r.touched) && w.st.tick <= r.st.tick
  }

  lemma PrepaidPays(w: Walk, counted: Walk, r: Walk)
    requires counted.st == w.st && counted.touched == w.touched && counted.rows == w.rows + 1
    requires PaysButOne(counted, r)
    ensures Pays(w, r)
  {
  }

  lemma LastPays(w: Walk, swept: Walk, o: Write)
    requires Pays(w, swept) && Writes(swept.st, o, 1)
    ensures PaysButOne(w, Apply(swept, o))
  {
    assert |swept.touched + o.touched| <= |swept.touched| + |o.touched|;
  }

  lemma FinishPays(w: Walk, swept: Walk, ref: DocRef)
    requires Pays(w, swept)
    ensures PaysButOne(w, Finish(swept, ref))
  {
    DeleteWrites(swept.st, ref);
    LastPays(w, swept, DoDelete(swept.st, ref));
  }

  lemma StampPays(e: Engine, w: Walk, ref: DocRef)
    ensures PaysButOne(w, Apply(w, DoSoftDelete(e, w.st, ref)))
  {
    SoftDeleteWrites(e, w.st, ref);
    NothingToPay(w, w);
    LastPays(w, w, DoSoftDelete(e, w.st, ref));
  }

  lemma {:induction false} DeleteRowPays(e: Engine, schema: SchemaDef, w: Walk, ref: DocRef)
    requires w.rows <= e.maxCascade
    ensures Pays(w, DeleteRow(e, schema, w, ref))
    decreases e.maxCascade - w.rows, 0, 0
  {
    if Stops(e, schema, w, ref) {
      NothingToPay(w, Stopped(schema, w, ref));
    } else {
      RemoveRowPays(e, schema, Entered(w, ref), ref);
      PrepaidPays(w, Entered(w, ref), RemoveRow(e, schema, Entered(w, ref), ref));
    }
  }

  lemma {:induction false} RemoveRowPays(e: Engine, schema: SchemaDef, w: Walk, ref: DocRef)
    requires w.rows <= e.maxCascade && ref.table in schema
    ensures PaysButOne(w, RemoveRow(e, schema, w, ref))
    decreases e.maxCascade - w.rows, 4, 0
  {
    if schema[ref.table].softDelete {
      StampPays(e, w, ref);
    } else {
      var links := LinksTo(schema, ref.table);
      WalkLinksPays(e, schema, w, links, ref.id);
      FinishPays(w, WalkLinks(e, schema, w, links, ref.id), ref);
    }
  }

  lemma {:induction false} DeleteRowsPays(e: Engine, schema: SchemaDef, w: Walk, table: string, ids: seq<string>)
    requires w.rows <= e.maxCascade
    ensures Pays(w, DeleteRows(e, schema, w, table, ids))
    decreases e.maxCascade - w.rows, 1, |ids|
  {
    if ids == [] || w.error.Some? {
    } else {
      var next := DeleteRow(e, schema, w, DocRef(table, ids[0]));
      DeleteRowPays(e, schema, w, DocRef(table, ids[0]));
      DeleteRowsPays(e, schema, next, table, ids[1..]);
      PaysTwice(w, next, DeleteRows(e, schema, next, table, ids[1..]));
    }
  }

  lemma {:induction false} NullRowsPays(e: Engine, w: Walk, l: Link, ids: seq<string>)
    requires w.rows <= e.maxCascade
    ensures Pays(w, NullRows(e, w, l, ids))
    decreases |ids|
  {
    if ids == [] || w.error.Some? || w.rows >= e.maxCascade {
    } else {
      var counted := w.(rows := w.rows + 1);
      var patched := DoPatch(e, w.st, DocRef(l.table, ids[0]), map[l.field := JNull]);
      var next := Apply(counted, patched);
      PatchWrites(e, w.st, DocRef(l.table, ids[0]), map[l.field := JNull]);
      NothingToPay(w, w);
      LastPays(w, w, patched);
      PrepaidPays(w, counted, next);
      NullRowsPays(e, next, l, ids[1..]);
      PaysTwice(w, next, NullRows(e, next, l, ids[1..]));
    }
  }

  lemma {:induction false} WalkLinkPays(e: Engine, schema: SchemaDef, w: Walk, l: Link, id: string)
    requires w.rows <= e.maxCascade
    ensures Pays(w, WalkLink(e, schema, w, l, id))
    decreases e.maxCascade - w.rows, 2, 0
  {
    var r := WalkLink(e, schema, w, l, id);
    if l.action.Restrict? {
      NothingToPay(w, r);
    } else {
      var ids := Children(e, w.st.docs, l, id, e.maxCascade + 1);
      if l.action.Cascade? {
        DeleteRowsPays(e, schema, w, l.table, ids);
        assert r == DeleteRows(e, schema, w, l.table, ids);
      } else {
        NullRowsPays(e, w, l, ids);
        assert r == NullRows(e, w, l, ids);
      }
    }
  }

  lemma {:induction false} WalkLinksPays(e: Engine, schema: SchemaDef, w: Walk, links: seq<Link>, id: string)
    requires w.rows <= e.maxCascade
    ensures Pays(w, WalkLinks(e, schema, w, links, id))
    decreases e.maxCascade - w.rows, 3, |links|
  {
    if links == [] || w.error.Some? {
    } else {
      var next := WalkLink(e, schema, w, links[0], id);
      WalkLinkPays(e, schema, w, links[0], id);
      WalkLinksPays(e, schema, next, links[1..], id);
      PaysTwice(w, next, WalkLinks(e, schema, next, links[1..], id));
    }
  }

  // ---------- the estimate against the executor ----------

  /** The most rows one step can write, cascades included. */
  function StepCap(step: Step, maxRows: U32, maxCascade: nat): nat {
    if step.DeleteByQuery? || (step.Delete? && maxCascade > 0) then maxCascade else WorstCaseStep(step, maxRows)
  }

  function TotalCap(steps: seq<Step>, maxRows: U32, maxCascade: nat): nat {
    if steps == [] then 0
    else StepCap(steps[0], maxRows, maxCascade) + TotalCap(steps[1..], maxRows, maxCascade)
  }

  /** At most `direct` rows named or selected, at most `all` written, and nothing else changes. */
  ghost predicate Within(before: State, o: Outcome, direct: nat, all: nat) {
    |o.direct| <= direct && |o.direct + o.cascaded| <= all &&
    Keeps(before.docs, o.st.docs, o.direct + o.cascaded) && before.tick <= o.st.tick
  }

  lemma DirectWithin(st: State, o: Write, n: nat)
    requires Writes(st, o, n)
    ensures Within(st, Direct(o), n, n)
  {
    assert o.touched + {} == o.touched;
  }

  lemma ChecksWithin(st: State, error: Option<ErrorCode>, n: nat, m: nat)
    ensures Within(st, Checks(st, error), n, m)
  {
  }

  lemma SweptWithin(e: Engine, st: State, w: Walk, named: set<DocRef>, n: nat)
    requires Pays(Start(st), w) && w.rows <= e.maxCascade && |named| <= n
    ensures Within(st, Swept(w, named), n, e.maxCascade)
  {
    assert w.touched * named + (w.touched - named) == w.touched;
    SubsetSize(w.touched * named, named);
  }

  lemma {:induction false} SubsetSize<T>(a: set<T>, b: set<T>)
    requires a <= b
    ensures |a| <= |b|
    decreases |a|
  {
    if a == {} {
    } else {
      var x :| x in a;
      SubsetSize(a - {x}, b - {x});
    }
  }

  lemma {:induction false} RefsOfSize(table: string, ids: seq<string>)
    ensures |RefsOf(table, ids)| <= |ids|
    decreases |ids|
  {
    if ids == [] {
    } else {
      RefsOfSize(table, ids[1..]);
      assert RefsOf(table, ids) == {DocRef(table, ids[0])} + RefsOf(table, ids[1..]);
    }
  }

  lemma {:induction false} RefsOfSameSize(table: string, ids: set<string>)
    ensures |(set id | id in ids :: DocRef(table, id))| == |ids|
    decreases |ids|
  {
    var refs := set id | id in ids :: DocRef(table, id);
    if ids == {} {
      assert refs == {};
    } else {
      var x :| x in ids;
      RefsOfSameSize(table, ids - {x});
      var fewer := set id | id in ids - {x} :: DocRef(table, id);
      assert DocRef(table, x) !in fewer;
      assert refs == fewer + {DocRef(table, x)};
    }
  }

  /** The executor's clamp never exceeds what the estimate allows for. */
  lemma TakeCountIsShort(found: nat, limit: Option<U32>, maxRows: U32)
    ensures TakeCount(found, limit, maxRows) <= ByQueryCap(limit, maxRows)
  {
  }

  lemma ScanIsShort(e: Engine, st: State, t: TableDef, table: string, filter: FilterExpr, limit: Option<U32>)
    requires Scan(e, st, t, table, filter, limit).Ok?
    ensures |Scan(e, st, t, table, filter, limit).value| <= ByQueryCap(limit, e.maxRows)
  {
    var ids := ByTime(CreationTimes(st.docs, table, Matching(e, st, t, table, filter)));
    TakeCountIsShort(|ids|, limit, e.maxRows);
  }

  lemma PatchQueryWithin(
    e: Engine, st: State, t: TableDef, table: string, filter: FilterExpr, patch: Doc, limit: Option<U32>)
    ensures var n := ByQueryCap(limit, e.maxRows);
            Within(st, PatchQueryStep(e, st, t, table, filter, patch, limit), n, n)
  {
    match Scan(e, st, t, table, filter, limit)
    case Err(error) => ChecksWithin(st, Some(error), 0, 0);
    case Ok(ids) =>
      ScanIsShort(e, st, t, table, filter, limit);
      PatchAllWrites(e, Tick(st), table, ids, patch);
      DirectWithin(Tick(st), PatchAll(e, Tick(st), table, ids, patch), |ids|);
  }

  lemma DeleteQueryWithin(
    e: Engine, schema: SchemaDef, st: State, t: TableDef, table: string, filter: FilterExpr, limit: Option<U32>)
    ensures Within(st, DeleteQueryStep(e, schema, st, t, table, filter, limit),
                   ByQueryCap(limit, e.maxRows), e.maxCascade)
  {
    match Scan(e, st, t, table, filter, limit)
    case Err(error) => ChecksWithin(st, Some(error), 0, 0);
    case Ok(ids) =>
      ScanIsShort(e, st, t, table, filter, limit);
      RefsOfSize(table, ids);
      DeleteRowsPays(e, schema, Start(Tick(st)), table, ids);
      SweptWithin(e, Tick(st), DeleteRows(e, schema, Start(Tick(st)), table, ids), RefsOf(table, ids), |ids|);
  }

  lemma DeleteWithin(e: Engine, schema: SchemaDef, st: State, t: TableDef, ref: DocRef)
    ensures Within(st, DeleteStep(e, schema, st, t, ref), 1, if e.maxCascade > 0 then e.maxCascade else 1)
  {
    if t.softDelete {
      SoftDeleteWrites(e, st, ref);
      DirectWithin(st, DoSoftDelete(e, st, ref), 1);
    } else {
      DeleteRowPays(e, schema, Start(st), ref);
      SweptWithin(e, st, DeleteRow(e, schema, Start(st), ref), {ref}, 1);
    }
  }

  lemma UpsertManyWithin(e: Engine, st: State, t: TableDef, table: string, index: string, docs: seq<Doc>)
    ensures Within(st, UpsertManyStep(e, st, t, table, index, docs), |docs|, |docs|)
  {
    match SchemaPush.FindIndex(t.indexes, index)
    case None => ChecksWithin(st, Some(BadRequest), 0, 0);
    case Some(ix) =>
      UpsertAllWrites(e, st, t, table, ix, docs);
      DirectWithin(st, UpsertAll(e, st, t, table, ix, docs), |docs|);
  }

  lemma AdjustWithin(e: Engine, st: State, ref: DocRef, step: Step)
    ensures Within(st, AdjustStep(e, st, ref, step), 1, 1)
  {
    match e.adjust(st, step)
    case Err(error) => ChecksWithin(st, Some(error), 0, 0);
    case Ok(fields) =>
      PatchWrites(e, st, ref, fields);
      DirectWithin(st, DoPatch(e, st, ref, fields), 1);
  }

  lemma InsertWithin(e: Engine, st: State, t: TableDef, step: Step)
    requires IsInsert(step)
    ensures var n := WorstCaseStep(step, e.maxRows); Within(st, RunInsert(e, st, t, step), n, n)
  {
    match step
    case Insert(table, doc) =>
      InsertWrites(e, st, table, doc);
      DirectWithin(st, DoInsert(e, st, table, doc), 1);
    case InsertMany(table, docs) =>
      InsertAllWrites(e, st, table, docs);
      DirectWithin(st, InsertAll(e, st, table, docs), |docs|);
    case Upsert(table, index, eq, insert, patch) =>
      UpsertWrites(e, st, t, table, index, eq, insert, patch);
      DirectWithin(st, DoUpsert(e, st, t, table, index, eq, insert, patch), 1);
    case UpsertMany(table, index, docs) => UpsertManyWithin(e, st, t, table, index, docs);
  }

  lemma RowCaps(step: Step, maxRows: U32, maxCascade: nat)
    requires NamesRow(step)
    ensures WorstCaseStep(step, maxRows) == 1
    ensures StepCap(step, maxRows, maxCascade) == if step.Delete? && maxCascade > 0 then maxCascade else 1
  {
  }

  lemma RowWithin(e: Engine, schema: SchemaDef, st: State, t: TableDef, ref: DocRef, step: Step)
    requires NamesRow(step)
    ensures Within(st, RunRow(e, schema, st, t, ref, step), 1, StepCap(step, e.maxRows, e.maxCascade))
  {
    RowCaps(step, e.maxRows, e.maxCascade);
    if step.Patch? {
      PatchWrites(e, st, ref, step.fields);
      DirectWithin(st, DoPatch(e, st, ref, step.fields), 1);
    } else if step.AdjustCounter? {
      AdjustWithin(e, st, ref, step);
    } else if step.Replace? {
      ReplaceWrites(e, st, ref, step.doc);
      DirectWithin(st, DoReplace(e, st, ref, step.doc), 1);
    } else if step.Delete? {
      DeleteWithin(e, schema, st, t, ref);
    } else {
      UndeleteWrites(e, st, t, ref);
      DirectWithin(st, DoUndelete(e, st, t, ref), 1);
    }
  }

  lemma QueryCaps(step: Step, maxRows: U32, maxCascade: nat)
    requires IsQuery(step)
    ensures WorstCaseStep(step, maxRows) == ByQueryCap(step.limit, maxRows)
    ensures StepCap(step, maxRows, maxCascade) ==
            if step.DeleteByQuery? then maxCascade else ByQueryCap(step.limit, maxRows)
  {
  }

  lemma QueryWithin(e: Engine, schema: SchemaDef, st: State, t: TableDef, step: Step)
    requires IsQuery(step)
    ensures Within(st, RunQuery(e, schema, st, t, step),
                   WorstCaseStep(step, e.maxRows), StepCap(step, e.maxRows, e.maxCascade))
  {
    QueryCaps(step, e.maxRows, e.maxCascade);
    if step.DeleteByQuery? {
      DeleteQueryWithin(e, schema, st, t, step.table, step.filter, step.limit);
    } else {
      PatchQueryWithin(e, st, t, step.table, step.filter, step.patch, step.limit);
    }
  }

  lemma RunOnWithin(e: Engine, schema: SchemaDef, st: State, t: TableDef, step: Step)
    requires HasTable(step)
    ensures Within(st, RunOn(e, schema, st, t, step),
                   WorstCaseStep(step, e.maxRows), StepCap(step, e.maxRows, e.maxCascade))
  {
    if IsInsert(step) {
      InsertWithin(e, st, t, step);
    } else if NamesRow(step) {
      RowCaps(step, e.maxRows, e.maxCascade);
      RowWithin(e, schema, st, t, DocRef(step.table, step.id), step);
    } else if IsQuery(step) {
      QueryWithin(e, schema, st, t, step);
    } else {
      ChecksWithin(st, RunExpect(e, st, t, step), 0, 0);
    }
  }

  lemma StepWithin(e: Engine, schema: SchemaDef, st: State, step: Step)
    ensures Within(st, RunStep(e, schema, st, step),
                   WorstCaseStep(step, e.maxRows), StepCap(step, e.maxRows, e.maxCascade))
  {
    var r := RunStep(e, schema, st, step);
    if r == Checks(st, r.error) {
      ChecksWithin(st, r.error, WorstCaseStep(step, e.maxRows), StepCap(step, e.maxRows, e.maxCascade));
    } else {
      assert r == RunOn(e, schema, st, schema[step.table], step);
      RunOnWithin(e, schema, st, schema[step.table], step);
    }
  }

  /**
   From every store, for every list of steps and wherever the run stops: the rows named
   or selected are at most the estimate, cascades add at most their budget per deleting
   step, and no other row changes.
   */
  lemma {:induction false} EstimateIsSafe(e: Engine, schema: SchemaDef, st: State, steps: seq<Step>)
    ensures Within(st, RunSteps(e, schema, st, steps),
                   WorstCaseAffected(steps, e.maxRows), TotalCap(steps, e.maxRows, e.maxCascade))
    decreases |steps|
  {
    if steps == [] {
      ChecksWithin(st, None, 0, 0);
    } else {
      var first := RunStep(e, schema, st, steps[0]);
      StepWithin(e, schema, st, steps[0]);
      if first.error.None? {
        var rest := RunSteps(e, schema, Tick(first.st), steps[1..]);
        EstimateIsSafe(e, schema, Tick(first.st), steps[1..]);
        BothWithin(st, first, rest, WorstCaseStep(steps[0], e.maxRows), StepCap(steps[0], e.maxRows, e.maxCascade),
                   WorstCaseAffected(steps[1..], e.maxRows), TotalCap(steps[1..], e.maxRows, e.maxCascade));
      }
    }
  }

  lemma BothWithin(st: State, first: Outcome, rest: Outcome, n: nat, all: nat, n': nat, all': nat)
    requires Within(st, first, n, all) && Within(Tick(first.st), rest, n', all')
    ensures Within(st, Outcome(rest.st, first.direct + rest.direct, first.cascaded + rest.cascaded, rest.error),
                   n + n', all + all')
  {
    assert |first.direct + rest.direct| <= |first.direct| + |rest.direct|;
    var a, b := first.direct + first.cascaded, rest.direct + rest.cascaded;
    assert first.direct + rest.direct + (first.cascaded + rest.cascaded) == a + b;
    assert |a + b| <= |a| + |b|;
  }

  /** The earliest rows, ties by id: all of them, or as many as the limit allows, before every row left out. */
  ghost predicate TakesFirst(times: map<string, int>, ids: seq<string>, cap: nat) {
    InOrder(times, ids) && |ids| == (if |times.Keys| < cap then |times.Keys| else cap) &&
    forall a, b | a in ids && b in times && b !in ids :: CameBefore(times, a, b)
  }

  /** A scan takes, of the live rows that match, exactly those. */
  lemma ScanIsExact(e: Engine, st: State, t: TableDef, table: string, filter: FilterExpr, limit: Option<U32>)
    requires Scan(e, st, t, table, filter, limit).Ok?
    ensures TakesFirst(CreationTimes(st.docs, table, Matching(e, st, t, table, filter)),
                       Scan(e, st, t, table, filter, limit).value, ByQueryCap(limit, e.maxRows))
  {
    TakenIsFirst(CreationTimes(st.docs, table, Matching(e, st, t, table, filter)), limit, e.maxRows);
  }

  lemma TakenIsFirst(times: map<string, int>, limit: Option<U32>, maxRows: U32)
    ensures var n := TakeCount(|ByTime(times)|, limit, maxRows);
            TakesFirst(times, ByTime(times)[..n], ByQueryCap(limit, maxRows))
  {
    ByTimeIsInOrder(times);
    PrefixComesFirst(times, ByTime(times), TakeCount(|ByTime(times)|, limit, maxRows));
  }
}
