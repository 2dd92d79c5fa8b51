/**
 Whole runs of schema pushes and inserts: the order of server/src/ddl.rs
 (structure check, grandfather, additive check, store) over a store of rows.
 */
module PushRun {
  import opened Wrappers
  import Json
  import opened Schema
  import opened Validation
  import opened SchemaPush
  import TypeChange

  // ---------- structure check ----------

  function LowerChar(c: char): char {
    if 'A' <= c <= 'Z' then c - 'A' + 'a' else c
  }

  function Lower(s: string): string {
    seq(|s|, i requires 0 <= i < |s| => LowerChar(s[i]))
  }

  /** The parts of `validate_indexes` that a run relies on. */
  predicate IndexStructureOk(indexes: seq<IndexDef>) {
    (forall i, j | 0 <= i < j < |indexes| :: Lower(indexes[i].name) != Lower(indexes[j].name)) &&
    (forall i | 0 <= i < |indexes| :: indexes[i].trgm ==> indexes[i].search)
  }

  predicate StructureOk(s: SchemaDef) {
    forall t | t in s ::
      IndexStructureOk(s[t].indexes) && forall k | k in s[t].fields :: WellFormedType(s[t].fields[k])
  }

  // ---------- the state machine ----------

  /** A stored row; `declared` remembers the field types it was written under. */
  datatype Row = Row(table: string, doc: Doc, declared: map<string, FieldType>)
  datatype Db = Db(schema: Option<SchemaDef>, rows: seq<Row>)
  datatype Event = Push(schema: SchemaDef) | Insert(table: string, doc: Doc)

  /** `strip_unset_optionals`: an explicit null for an optional field is stored as an absent key. */
  function StripUnset(f: Formats, fields: map<string, FieldType>, doc: Doc): (r: Doc) {
    map k | k in doc &&
            !(doc[k].JNull? && k in fields && fields[k].Optional? && !Valid(f, fields[k].inner, doc[k]))
      :: doc[k]
  }

  predicate PushAccepted(db: Db, schema: SchemaDef) {
    StructureOk(schema) &&
    (db.schema.Some? ==> Additive(db.schema.value, Grandfathered(db.schema, schema)))
  }

  predicate InsertAccepted(f: Formats, db: Db, table: string, doc: Doc) {
    db.schema.Some? && table in db.schema.value && ValidDoc(f, db.schema.value[table].fields, doc)
  }

  function Step(f: Formats, db: Db, e: Event): (r: Db) {
    match e
    case Push(schema) =>
      if PushAccepted(db, schema) then db.(schema := Some(Grandfathered(db.schema, schema))) else db
    case Insert(table, doc) =>
      if InsertAccepted(f, db, table, doc) then
        var fields := db.schema.value[table].fields;
        db.(rows := db.rows + [Row(table, StripUnset(f, fields, doc), fields)])
      else db
  }

  function Run(f: Formats, db: Db, events: seq<Event>): (r: Db)
    decreases |events|
  {
    if events == [] then db else Run(f, Step(f, db, events[0]), events[1..])
  }

  const EMPTY := Db(None, [])

  // ---------- the same steps on a mutable store ----------

  class Store {
    var schema: Option<SchemaDef>
    var rows: seq<Row>

    function View(): Db
      reads this
    {
      Db(schema, rows)
    }

    constructor ()
      ensures View() == EMPTY
    {
      schema, rows := None, [];
    }

    method PushSchema(f: Formats, pushed: SchemaDef) returns (accepted: bool)
      modifies this
      ensures accepted == old(PushAccepted(View(), pushed))
      ensures View() == old(Step(f, View(), Push(pushed)))
    {
      if !StructureOk(pushed) {
        return false;
      }
      var next := GrandfatherTrgm(schema, pushed);
      if schema.Some? {
        var verdict := DetectDestructiveChanges(schema.value, next);
        if verdict.Err? {
          return false;
        }
      }
      schema := Some(next);
      return true;
    }

    method InsertDoc(f: Formats, table: string, doc: Doc) returns (accepted: bool)
      modifies this
      ensures accepted == old(InsertAccepted(f, View(), table, doc))
      ensures View() == old(Step(f, View(), Insert(table, doc)))
    {
      if schema.None? || table !in schema.value {
        return false;
      }
      var fields := schema.value[table].fields;
      if !ValidDoc(f, fields, doc) {
        return false;
      }
      rows := rows + [Row(table, StripUnset(f, fields, doc), fields)];
      return true;
    }
  }

  // ---------- invariants ----------

  /** The row is valid on everything declared when it was written, under the current types. */
  ghost predicate RowKept(f: Formats, schema: SchemaDef, row: Row) {
    row.table in schema &&
    row.doc.Keys <= row.declared.Keys && (forall k | k in row.doc :: !IsReserved(k)) &&
    FieldsKept(row.declared, schema[row.table].fields) &&
    forall k | k in row.declared ::
      var ty := schema[row.table].fields[k];
      if k in row.doc then Valid(f, ty, row.doc[k]) else ty.Optional?
  }

  ghost predicate Inv(f: Formats, db: Db) {
    (db.schema.None? ==> db.rows == []) &&
    (db.schema.Some? ==>
       StructureOk(db.schema.value) && forall row | row in db.rows :: RowKept(f, db.schema.value, row))
  }

  /** Every index keeps its definition and a `trgm` flag that was set. */
  ghost predicate FlagsKept(prev: SchemaDef, next: SchemaDef) {
    forall t, ix | t in prev && ix in prev[t].indexes && ix.trgm ::
      t in next && FindIndex(next[t].indexes, ix.name).Some? &&
      FindIndex(next[t].indexes, ix.name).value.trgm
  }

  ghost predicate Evolves(before: Db, after: Db) {
    before.rows <= after.rows &&
    (before.schema.Some? ==>
       after.schema.Some? && Additive(before.schema.value, after.schema.value) &&
       FlagsKept(before.schema.value, after.schema.value))
  }

  lemma StructureGivesReflexivity(s: SchemaDef)
    requires StructureOk(s)
    ensures Additive(s, s) && FlagsKept(s, s)
  {
  }

  lemma GrandfatherKeepsIndexStructure(prev: seq<IndexDef>, indexes: seq<IndexDef>)
    requires IndexStructureOk(indexes)
    ensures IndexStructureOk(GrandfatheredIndexes(prev, indexes))
  {
    var kept := GrandfatheredIndexes(prev, indexes);
    forall i | 0 <= i < |kept| ensures kept[i].name == indexes[i].name && kept[i].search == indexes[i].search {
      assert kept[i] == GrandfatheredIndex(prev, indexes[i]);
    }
  }

  lemma GrandfatherKeepsStructure(prev: Option<SchemaDef>, s: SchemaDef)
    requires StructureOk(s)
    ensures StructureOk(Grandfathered(prev, s))
  {
    forall t | t in s && prev.Some? && t in prev.value
      ensures IndexStructureOk(GrandfatheredIndexes(prev.value[t].indexes, s[t].indexes))
    {
      GrandfatherKeepsIndexStructure(prev.value[t].indexes, s[t].indexes);
    }
  }

  lemma RowSurvivesPush(f: Formats, prev: SchemaDef, next: SchemaDef, row: Row)
    requires Additive(prev, next) && RowKept(f, prev, row)
    ensures RowKept(f, next, row)
  {
    var was, now := prev[row.table].fields, next[row.table].fields;
    assert TableKept(prev[row.table], next[row.table]);
    forall k | k in row.declared
      ensures !IsTypeChangeRejected(row.declared[k], now[k])
      ensures if k in row.doc then Valid(f, now[k], row.doc[k]) else now[k].Optional?
    {
      TypeChange.AcceptanceIsTransitive(row.declared[k], was[k], now[k]);
      if k in row.doc {
        TypeChange.AcceptedChangeIsSound(f, was[k], now[k], row.doc[k]);
      } else {
        TypeChange.OptionalStaysOptional(was[k], now[k]);
      }
    }
  }

  /** Storing absent keys for unset optionals keeps a document valid and drops nothing but their nulls. */
  lemma StripUnsetKeepsValid(f: Formats, fields: map<string, FieldType>, doc: Doc)
    requires ValidDoc(f, fields, doc)
    ensures ValidDoc(f, fields, StripUnset(f, fields, doc))
    ensures forall k | k in doc ::
              Get(StripUnset(f, fields, doc), k) == Some(doc[k]) ||
              (doc[k].JNull? && fields[k].Optional? && Get(StripUnset(f, fields, doc), k) == None)
  {
  }

  lemma NewRowIsKept(f: Formats, schema: SchemaDef, table: string, doc: Doc)
    requires table in schema && ValidDoc(f, schema[table].fields, doc)
    ensures var fields := schema[table].fields;
            RowKept(f, schema, Row(table, StripUnset(f, fields, doc), fields))
  {
  }

  lemma StepKeepsInvariant(f: Formats, db: Db, e: Event)
    requires Inv(f, db)
    ensures Inv(f, Step(f, db, e)) && Evolves(db, Step(f, db, e))
  {
    if db.schema.Some? {
      StructureGivesReflexivity(db.schema.value);
    }
    match e
    case Push(schema) =>
      if PushAccepted(db, schema) {
        GrandfatherKeepsStructure(db.schema, schema);
        if db.schema.Some? {
          AcceptedPushKeeps(f, db, schema);
        }
      }
    case Insert(table, doc) =>
      if InsertAccepted(f, db, table, doc) {
        NewRowIsKept(f, db.schema.value, table, doc);
      }
  }

  lemma AcceptedPushKeeps(f: Formats, db: Db, schema: SchemaDef)
    requires Inv(f, db) && db.schema.Some? && PushAccepted(db, schema)
    ensures var next := Grandfathered(db.schema, schema);
            FlagsKept(db.schema.value, next) && forall row | row in db.rows :: RowKept(f, next, row)
  {
    var prev, next := db.schema.value, Grandfathered(db.schema, schema);
    forall row | row in db.rows ensures RowKept(f, next, row) {
      RowSurvivesPush(f, prev, next, row);
    }
    forall t, ix | t in prev && ix in prev[t].indexes && ix.trgm
      ensures t in next && FindIndex(next[t].indexes, ix.name).Some? && FindIndex(next[t].indexes, ix.name).value.trgm
    {
      assert IndexStructureOk(prev[t].indexes);
      SearchIndexEndsWithTrgm(prev, schema, t, ix);
    }
  }

  lemma EvolvesIsTransitive(a: Db, b: Db, c: Db)
    requires Evolves(a, b) && Evolves(b, c)
    ensures Evolves(a, c)
  {
    if a.schema.Some? {
      AdditiveIsTransitive(a.schema.value, b.schema.value, c.schema.value);
    }
  }

  /**
   Over every run: rows are only added, every row stays valid on the fields it was
   written under, and no table, field, index or `trgm` flag is lost.
   */
  lemma {:induction false} RunKeepsEverything(f: Formats, db: Db, events: seq<Event>)
    requires Inv(f, db)
    ensures Inv(f, Run(f, db, events)) && Evolves(db, Run(f, db, events))
    decreases |events|
  {
    if events == [] {
      if db.schema.Some? {
        StructureGivesReflexivity(db.schema.value);
      }
    } else {
      var next := Step(f, db, events[0]);
      StepKeepsInvariant(f, db, events[0]);
      RunKeepsEverything(f, next, events[1..]);
      EvolvesIsTransitive(db, next, Run(f, next, events[1..]));
    }
  }

  lemma TailSlices<T>(s: seq<T>, i: nat)
    requires 0 < i <= |s|
    ensures s[..i] != [] && s[..i][0] == s[0] && s[..i][1..] == s[1..][..i - 1] && s[1..][i - 1..] == s[i..]
  {
  }

  lemma {:induction false} RunInTwoParts(f: Formats, db: Db, events: seq<Event>, i: nat)
    requires i <= |events|
    ensures Run(f, db, events) == Run(f, Run(f, db, events[..i]), events[i..])
    decreases i
  {
    if i == 0 {
    } else {
      RunInTwoParts(f, Step(f, db, events[0]), events[1..], i - 1);
      TailSlices(events, i);
    }
  }

  /** From the empty store: every row is kept at every moment, and nothing is lost between any two. */
  lemma EveryMoment(f: Formats, events: seq<Event>, i: nat, j: nat)
    requires i <= j <= |events|
    ensures Inv(f, Run(f, EMPTY, events[..i])) && Inv(f, Run(f, EMPTY, events[..j]))
    ensures Evolves(Run(f, EMPTY, events[..i]), Run(f, EMPTY, events[..j]))
  {
    RunKeepsEverything(f, EMPTY, events[..i]);
    RunInTwoParts(f, EMPTY, events[..j], i);
    assert events[..j][..i] == events[..i];
    RunKeepsEverything(f, Run(f, EMPTY, events[..i]), events[..j][i..]);
  }

  lemma RowValidExactly(f: Formats, schema: SchemaDef, row: Row)
    requires RowKept(f, schema, row)
    ensures ValidDoc(f, schema[row.table].fields, row.doc) <==>
            forall k | k in schema[row.table].fields && k !in row.declared :: schema[row.table].fields[k].Optional?
  {
  }

  lemma RunOneMore(f: Formats, events: seq<Event>, i: nat)
    requires i < |events|
    ensures Run(f, EMPTY, events[..i + 1]) == Step(f, Run(f, EMPTY, events[..i]), events[i])
  {
    RunInTwoParts(f, EMPTY, events[..i + 1], i);
    assert events[..i + 1][..i] == events[..i] && events[..i + 1][i..] == [events[i]];
    assert [events[i]][1..] == [];
  }

  /** The row an accepted insert adds is at the same place at every later moment. */
  lemma InsertedRowStays(f: Formats, events: seq<Event>, i: nat, j: nat)
    requires i < j <= |events| && events[i].Insert?
    requires InsertAccepted(f, Run(f, EMPTY, events[..i]), events[i].table, events[i].doc)
    ensures var before, db := Run(f, EMPTY, events[..i]), Run(f, EMPTY, events[..j]);
            var was := before.schema.value[events[i].table].fields;
            Inv(f, db) && Evolves(before, db) && |before.rows| < |db.rows| &&
            db.rows[|before.rows|] == Row(events[i].table, StripUnset(f, was, events[i].doc), was)
  {
    var before := Run(f, EMPTY, events[..i]);
    RunOneMore(f, events, i);
    EveryMoment(f, events, i + 1, j);
    EveryMoment(f, events, i, j);
    assert Run(f, EMPTY, events[..i + 1]).rows[|before.rows|] == Run(f, EMPTY, events[..j]).rows[|before.rows|];
  }

  /**
   A document inserted at moment `i` is still stored at every later moment `j`, and is
   then valid as a whole exactly when every field added in between is `Optional`.
   */
  lemma InsertedDocumentAtEveryMoment(f: Formats, events: seq<Event>, i: nat, j: nat)
    requires i < j <= |events| && events[i].Insert?
    requires InsertAccepted(f, Run(f, EMPTY, events[..i]), events[i].table, events[i].doc)
    ensures var Insert(table, doc) := events[i];
            var was := Run(f, EMPTY, events[..i]).schema.value[table].fields;
            var db := Run(f, EMPTY, events[..j]);
            db.schema.Some? && table in db.schema.value && FieldsKept(was, db.schema.value[table].fields) &&
            Row(table, StripUnset(f, was, doc), was) in db.rows &&
            (ValidDoc(f, db.schema.value[table].fields, StripUnset(f, was, doc)) <==>
             forall k | k in db.schema.value[table].fields && k !in was :: db.schema.value[table].fields[k].Optional?)
  {
    var Insert(table, doc) := events[i];
    var before, db := Run(f, EMPTY, events[..i]), Run(f, EMPTY, events[..j]);
    var was := before.schema.value[table].fields;
    InsertedRowStays(f, events, i, j);
    RowValidExactly(f, db.schema.value, Row(table, StripUnset(f, was, doc), was));
  }

  /** A search index that never declares `trgm` carries it after the second push of one schema. */
  lemma SecondPushSetsTrgm(f: Formats)
    ensures var ix := IndexDef("ix", ["a"], true, false, None, false, None, None);
            var schema: SchemaDef := map["t" := PlainTable(map["a" := String], [ix])];
            var once := Step(f, EMPTY, Push(schema));
            var twice := Step(f, once, Push(schema));
            once.schema == Some(schema) &&
            twice.schema == Some(map["t" := PlainTable(map["a" := String], [ix.(trgm := true)])])
  {
    var ix := IndexDef("ix", ["a"], true, false, None, false, None, None);
    var schema: SchemaDef := map["t" := PlainTable(map["a" := String], [ix])];
    var once := Step(f, EMPTY, Push(schema));
    assert StructureOk(schema);
    var kept := Grandfathered(Some(schema), schema);
    StructureGivesReflexivity(schema);
    GrandfatherIsInvisible(schema, Some(schema), schema);
    assert WasSearch([ix], "ix") by { assert [ix][0] == ix; }
    assert kept["t"].indexes == [ix.(trgm := true)];
    assert kept == map["t" := PlainTable(map["a" := String], [ix.(trgm := true)])];
  }

  // ---------- a chain of pushes as one push ----------

  ghost predicate ChainAccepted(f: Formats, db: Db, pushes: seq<SchemaDef>)
    decreases |pushes|
  {
    pushes == [] ||
    (PushAccepted(db, pushes[0]) && ChainAccepted(f, Step(f, db, Push(pushes[0])), pushes[1..]))
  }

  lemma TwoPushesAreOne(f: Formats, db: Db, first: SchemaDef, last: SchemaDef)
    requires Inv(f, db) && PushAccepted(db, first) && PushAccepted(Step(f, db, Push(first)), last)
    ensures PushAccepted(db, last)
  {
    var next := Step(f, db, Push(first));
    StepKeepsInvariant(f, db, Push(first));
    if db.schema.Some? {
      GrandfatherIsInvisible(next.schema.value, next.schema, last);
      AdditiveIsTransitive(db.schema.value, next.schema.value, last);
      GrandfatherIsInvisible(db.schema.value, db.schema, last);
    }
  }

  lemma ChainRest(f: Formats, db: Db, pushes: seq<SchemaDef>)
    requires Inv(f, db) && pushes != [] && ChainAccepted(f, db, pushes)
    ensures var next := Step(f, db, Push(pushes[0]));
            PushAccepted(db, pushes[0]) && Inv(f, next) && ChainAccepted(f, next, pushes[1..])
  {
    StepKeepsInvariant(f, db, Push(pushes[0]));
  }

  /** Had the last schema of an accepted chain been pushed directly, it would have been accepted. */
  lemma {:induction false} ChainIsOnePush(f: Formats, db: Db, pushes: seq<SchemaDef>)
    requires Inv(f, db) && pushes != [] && ChainAccepted(f, db, pushes)
    ensures PushAccepted(db, pushes[|pushes| - 1])
    decreases |pushes|
  {
    if |pushes| == 1 {
    } else {
      var rest, last := pushes[1..], pushes[|pushes| - 1];
      assert rest[|rest| - 1] == last;
      ChainRest(f, db, pushes);
      ChainIsOnePush(f, Step(f, db, Push(pushes[0])), rest);
      TwoPushesAreOne(f, db, pushes[0], last);
    }
  }

  // ---------- each event, in full ----------

  /** A null is dropped exactly for an optional field whose own type has no null; everything else stays. */
  lemma StripUnsetExactly(f: Formats, fields: map<string, FieldType>, doc: Doc, k: string)
    ensures var unset := Get(doc, k) == Some(Json.JNull) && k in fields && fields[k].Optional? &&
                         !Valid(f, fields[k].inner, Json.JNull);
            Get(StripUnset(f, fields, doc), k) == if unset then None else Get(doc, k)
  {
  }

  ghost predicate SameLetter(a: char, b: char) {
    a == b || ('A' <= a <= 'Z' && b as int == a as int + 32) || ('A' <= b <= 'Z' && a as int == b as int + 32)
  }

  /** Equal but for the case of ASCII letters. */
  lemma LowerIsCaseless(a: string, b: string)
    ensures Lower(a) == Lower(b) <==> |a| == |b| && forall i | 0 <= i < |a| :: SameLetter(a[i], b[i])
  {
    if |a| == |b| {
      forall i | 0 <= i < |a| ensures Lower(a)[i] == Lower(b)[i] <==> SameLetter(a[i], b[i]) {
      }
      assert Lower(a) == Lower(b) <==> forall i | 0 <= i < |a| :: Lower(a)[i] == Lower(b)[i];
    }
  }

  /** A push is accepted exactly when it is well formed and additive as declared; rows are kept. */
  lemma PushExactly(f: Formats, db: Db, schema: SchemaDef)
    ensures var next := Step(f, db, Push(schema));
            next.rows == db.rows &&
            if StructureOk(schema) && (db.schema.Some? ==> Additive(db.schema.value, schema)) then
              next.schema.Some? && IsStoredSchema(db.schema, schema, next.schema.value)
            else next.schema == db.schema
  {
    GrandfatherExactly(db.schema, schema);
    if db.schema.Some? {
      GrandfatherIsInvisible(db.schema.value, db.schema, schema);
    }
  }

  /** An insert is accepted exactly when the table exists and the document is valid; it adds one row at the end. */
  lemma InsertExactly(f: Formats, db: Db, table: string, doc: Doc)
    ensures var next := Step(f, db, Insert(table, doc));
            next.schema == db.schema &&
            if db.schema.Some? && table in db.schema.value && ValidDoc(f, db.schema.value[table].fields, doc) then
              |next.rows| == |db.rows| + 1 && db.rows <= next.rows &&
              var row := next.rows[|db.rows|];
              row.table == table && row.declared == db.schema.value[table].fields && row.doc.Keys <= doc.Keys &&
              forall k | k in doc :: Get(row.doc, k) ==
                if doc[k].JNull? && row.declared[k].Optional? && !Valid(f, row.declared[k].inner, Json.JNull) then None
                else Some(doc[k])
            else next.rows == db.rows
  {
  }

  ghost predicate SameName(a: string, b: string) {
    |a| == |b| && forall i | 0 <= i < |a| :: SameLetter(a[i], b[i])
  }

  /** Well formed: index names differ by more than case, flags only on search indexes, nothing malformed in a type. */
  lemma StructureExactly(s: SchemaDef)
    ensures StructureOk(s) <==>
            forall t | t in s ::
              (forall i, j | 0 <= i < j < |s[t].indexes| :: !SameName(s[t].indexes[i].name, s[t].indexes[j].name)) &&
              (forall ix | ix in s[t].indexes :: ix.trgm ==> ix.search) &&
              forall k, sub | k in s[t].fields && OccursIn(sub, s[t].fields[k]) :: !IsMalformed(sub)
  {
    forall t | t in s
      ensures IndexStructureOk(s[t].indexes) <==>
              (forall i, j | 0 <= i < j < |s[t].indexes| :: !SameName(s[t].indexes[i].name, s[t].indexes[j].name)) &&
              forall ix | ix in s[t].indexes :: ix.trgm ==> ix.search
    {
      IndexStructureExactly(s[t].indexes);
    }
    forall t, k | t in s && k in s[t].fields
      ensures WellFormedType(s[t].fields[k]) <==> forall sub | OccursIn(sub, s[t].fields[k]) :: !IsMalformed(sub)
    {
      WellFormedExactly(s[t].fields[k]);
    }
  }

  lemma IndexStructureExactly(indexes: seq<IndexDef>)
    ensures IndexStructureOk(indexes) <==>
            (forall i, j | 0 <= i < j < |indexes| :: !SameName(indexes[i].name, indexes[j].name)) &&
            forall ix | ix in indexes :: ix.trgm ==> ix.search
  {
    forall i, j | 0 <= i < j < |indexes|
      ensures Lower(indexes[i].name) == Lower(indexes[j].name) <==> SameName(indexes[i].name, indexes[j].name)
    {
      LowerIsCaseless(indexes[i].name, indexes[j].name);
    }
    assert forall i | 0 <= i < |indexes| :: indexes[i] in indexes;
  }
}
