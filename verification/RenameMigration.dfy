/**
 The `renameField` directive on a whole table (server/src/migrate/plan.rs) and its
 effect on computed-field stamping (rust-client/src/in_memory/value_expr.rs).
 */
module RenameMigration {
  import opened Wrappers
  import opened Json
  import opened Wire
  import opened Schema
  import opened Validation
  import opened Ordering
  import opened Fields
  import opened Rename
  import opened Evaluation

  // ---------- the directive ----------

  datatype RenameError = TargetExists | MissingField

  function RenamedIndex(ix: IndexDef, rho: Renaming): IndexDef {
    ix.(fields := MapNames(ix.fields, rho))
  }

  /** A field that names another field, such as `ownerField`. */
  function RenamedName(name: Option<string>, from: string, to: string): Option<string> {
    if name == Some(from) then Some(to) else name
  }

  function RenamedTtl(ttl: Option<TtlDef>, from: string, to: string): Option<TtlDef> {
    if ttl.Some? && ttl.value.field == from then Some(ttl.value.(field := to)) else ttl
  }

  /** The declaration half: entries keyed on the field move to the new name. */
  function MovedKeys(t: TableDef, from: string, to: string): (r: TableDef) {
    t.(fields := RenameKey(t.fields, from, to),
       computed := RenameKey(t.computed, from, to),
       defaults := RenameKey(t.defaults, from, to),
       constraints := RenameKey(t.constraints, from, to))
  }

  function RenamedIndexes(indexes: seq<IndexDef>, rho: Renaming): seq<IndexDef> {
    seq(|indexes|, i requires 0 <= i < |indexes| => RenamedIndex(indexes[i], rho))
  }

  function RenamedExprs(computed: map<string, ValueExpr>, rho: Renaming): map<string, ValueExpr> {
    map k | k in computed :: RenamedValue(computed[k], rho)
  }

  /** The reference half: every surface that names a field. */
  function RenamedRefs(t: TableDef, from: string, to: string): (r: TableDef) {
    t.(indexes := RenamedIndexes(t.indexes, Subst(from, to)),
       ownerField := RenamedName(t.ownerField, from, to),
       collaboratorsField := RenamedName(t.collaboratorsField, from, to),
       autoIncrementField := RenamedName(t.autoIncrementField, from, to),
       updatedAtField := RenamedName(t.updatedAtField, from, to),
       ttl := RenamedTtl(t.ttl, from, to),
       authorize :=
         if t.authorize.Some? then Some(RenamedFilter(t.authorize.value, Subst(from, to))) else None,
       computed := RenamedExprs(t.computed, Subst(from, to)))
  }

  function RenamedTable(t: TableDef, from: string, to: string): (r: TableDef) {
    RenamedRefs(MovedKeys(t, from, to), from, to)
  }

  method RenameIndexFields(indexes: seq<IndexDef>, from: string, to: string) returns (r: seq<IndexDef>)
    ensures r == RenamedIndexes(indexes, Subst(from, to))
  {
    r := indexes;
    for i := 0 to |indexes|
      invariant |r| == |indexes|
      invariant forall j | 0 <= j < i :: r[j] == RenamedIndex(indexes[j], Subst(from, to))
      invariant forall j | i <= j < |r| :: r[j] == indexes[j]
    {
      var names := indexes[i].fields;
      for k := 0 to |names|
        invariant |names| == |indexes[i].fields|
        invariant forall j | 0 <= j < k :: names[j] == Subst(from, to)(indexes[i].fields[j])
        invariant forall j | k <= j < |names| :: names[j] == indexes[i].fields[j]
      {
        if names[k] == from {
          names := names[k := to];
        }
      }
      assert names == MapNames(indexes[i].fields, Subst(from, to));
      r := r[i := indexes[i].(fields := names)];
    }
  }

  method RenameComputedReferences(computed: map<string, ValueExpr>, from: string, to: string)
    returns (r: map<string, ValueExpr>)
    ensures r == RenamedExprs(computed, Subst(from, to))
  {
    r := computed;
    var rest := computed.Keys;
    while rest != {}
      invariant rest <= computed.Keys == r.Keys
      invariant forall k | k in computed ::
        r[k] == if k in rest then computed[k] else RenamedValue(computed[k], Subst(from, to))
    {
      var k :| k in rest;
      var renamed := RenameValueExprFields(computed[k], from, to);
      r := r[k := renamed];
      rest := rest - {k};
    }
  }

  /** `rename_field_refs`, surface by surface. */
  method RenameFieldRefs(t: TableDef, from: string, to: string) returns (r: TableDef)
    ensures r == RenamedRefs(t, from, to)
  {
    var indexes := RenameIndexFields(t.indexes, from, to);
    var authorize := t.authorize;
    if authorize.Some? {
      var renamed := RenameFilterFields(authorize.value, from, to);
      authorize := Some(renamed);
    }
    var computed := RenameComputedReferences(t.computed, from, to);
    r := t.(indexes := indexes,
            ownerField := RenamedName(t.ownerField, from, to),
            collaboratorsField := RenamedName(t.collaboratorsField, from, to),
            autoIncrementField := RenamedName(t.autoIncrementField, from, to),
            updatedAtField := RenamedName(t.updatedAtField, from, to),
            ttl := RenamedTtl(t.ttl, from, to),
            authorize := authorize,
            computed := computed);
  }

  /** Fails on an existing target or a missing source; otherwise every rewritten surface follows the rename. */
  method PlanRenameField(t: TableDef, from: string, to: string) returns (r: Result<TableDef, RenameError>)
    ensures r == if to in t.fields then Err(TargetExists)
                 else if from !in t.fields then Err(MissingField)
                 else Ok(RenamedTable(t, from, to))
  {
    if to in t.fields {
      return Err(TargetExists);
    }
    if from !in t.fields {
      return Err(MissingField);
    }
    var renamed := RenameFieldRefs(MovedKeys(t, from, to), from, to);
    return Ok(renamed);
  }

  // ---------- every surface, one by one ----------

  /** A setting that names a field names it under its new name. */
  ghost predicate NameFollows(was: Option<string>, now: Option<string>, from: string, to: string) {
    (was == Some(from) ==> now == Some(to)) && (was != Some(from) ==> now == was)
  }

  /** The entry of the field has moved to its new name, and the others are where they were. */
  ghost predicate KeyMoves<V>(was: map<string, V>, now: map<string, V>, from: string, to: string) {
    (from in was ==> Get(now, to) == Some(was[from]) && (from != to ==> from !in now)) &&
    forall k | k != from && (k != to || from !in was) :: Get(now, k) == Get(was, k)
  }

  /** Key names are replaced in place; the rest of each index stays. */
  ghost predicate IndexesFollow(was: seq<IndexDef>, now: seq<IndexDef>, from: string, to: string) {
    |now| == |was| &&
    forall i | 0 <= i < |was| ::
      now[i] == was[i].(fields := now[i].fields) && |now[i].fields| == |was[i].fields| &&
      forall j | 0 <= j < |was[i].fields| ::
        now[i].fields[j] == if was[i].fields[j] == from then to else was[i].fields[j]
  }

  /** The table after the rename: what each surface holds, with expressions renamed as `Rename` says. */
  ghost predicate IsRenamed(t: TableDef, r: TableDef, from: string, to: string) {
    KeyMoves(t.fields, r.fields, from, to) && KeyMoves(t.defaults, r.defaults, from, to) &&
    KeyMoves(t.constraints, r.constraints, from, to) && IndexesFollow(t.indexes, r.indexes, from, to) &&
    NameFollows(t.ownerField, r.ownerField, from, to) &&
    NameFollows(t.collaboratorsField, r.collaboratorsField, from, to) &&
    NameFollows(t.autoIncrementField, r.autoIncrementField, from, to) &&
    NameFollows(t.updatedAtField, r.updatedAtField, from, to) &&
    r.softDelete == t.softDelete && r.insertOnly == t.insertOnly
  }

  ghost predicate ExpressionsFollow(t: TableDef, r: TableDef, from: string, to: string) {
    (t.ttl.None? <==> r.ttl.None?) && (t.authorize.None? <==> r.authorize.None?) &&
    (t.ttl.Some? ==>
       r.ttl.value.defaultDurationMs == t.ttl.value.defaultDurationMs &&
       NameFollows(Some(t.ttl.value.field), Some(r.ttl.value.field), from, to)) &&
    (t.authorize.Some? ==> r.authorize.value == RenamedFilter(t.authorize.value, Subst(from, to))) &&
    KeyMoves(map k | k in t.computed :: RenamedValue(t.computed[k], Subst(from, to)), r.computed, from, to)
  }

  lemma KeyMovesExactly<V>(m: map<string, V>, from: string, to: string)
    ensures KeyMoves(m, RenameKey(m, from, to), from, to)
  {
  }

  lemma ComputedIsRenamed(computed: map<string, ValueExpr>, from: string, to: string)
    ensures KeyMoves(map k | k in computed :: RenamedValue(computed[k], Subst(from, to)),
                     RenamedExprs(RenameKey(computed, from, to), Subst(from, to)), from, to)
  {
    var renamed := RenamedExprs(computed, Subst(from, to));
    assert RenamedExprs(RenameKey(computed, from, to), Subst(from, to)) == RenameKey(renamed, from, to);
    KeyMovesExactly(renamed, from, to);
  }

  lemma ExpressionsAreRenamed(t: TableDef, from: string, to: string)
    ensures ExpressionsFollow(t, RenamedTable(t, from, to), from, to)
  {
    ComputedIsRenamed(t.computed, from, to);
  }

  /** Every setting, key and index of a renamed table, and which of them stays. */
  lemma RenamedTableExactly(t: TableDef, from: string, to: string)
    ensures IsRenamed(t, RenamedTable(t, from, to), from, to)
    ensures ExpressionsFollow(t, RenamedTable(t, from, to), from, to)
  {
    KeyMovesExactly(t.fields, from, to);
    KeyMovesExactly(t.defaults, from, to);
    KeyMovesExactly(t.constraints, from, to);
    ExpressionsAreRenamed(t, from, to);
  }

  // ---------- references stay declared ----------

  ghost predicate Declares(t: TableDef, names: seq<string>) {
    forall x | x in names :: x in t.fields
  }

  /** Push-time rules: computed keys are declared and read only declared, non-computed fields. */
  ghost predicate ComputedClosed(t: TableDef) {
    forall k | k in t.computed ::
      k in t.fields && Declares(t, ValueFields(t.computed[k])) &&
      forall x | x in ValueFields(t.computed[k]) :: x !in t.computed
  }

  ghost predicate DeclaresName(t: TableDef, name: Option<string>) {
    name.Some? ==> name.value in t.fields
  }

  ghost predicate SettingsClosed(t: TableDef) {
    DeclaresName(t, t.ownerField) && DeclaresName(t, t.collaboratorsField) &&
    DeclaresName(t, t.updatedAtField) && DeclaresName(t, t.autoIncrementField) &&
    (t.ttl.Some? ==> t.ttl.value.field in t.fields) &&
    t.defaults.Keys <= t.fields.Keys && t.constraints.Keys <= t.fields.Keys
  }

  ghost predicate RewrittenClosed(t: TableDef) {
    ComputedClosed(t) && SettingsClosed(t) &&
    (t.authorize.Some? ==> Declares(t, FilterFields(t.authorize.value))) &&
    forall ix | ix in t.indexes :: Declares(t, ix.fields)
  }

  /** Names an index carries besides its key: its partial predicate and its vector pre-filters. */
  function IndexExtras(ix: IndexDef): seq<string> {
    (if ix.filter.Some? then FilterFields(ix.filter.value) else []) +
    (if ix.vector.Some? then ix.vector.value.filterFields else [])
  }

  ghost predicate ExtrasClosed(t: TableDef) {
    forall ix | ix in t.indexes :: Declares(t, IndexExtras(ix))
  }

  /** A moved key is found under its new name, with its value. */
  lemma RenameKeyLookup<V>(m: map<string, V>, from: string, to: string, x: string)
    requires to !in m && x != to
    ensures Get(RenameKey(m, from, to), Subst(from, to)(x)) == Get(m, x)
  {
  }

  /** Every key of the result is the new name of some old key. */
  lemma RenameKeyOrigin<V>(m: map<string, V>, from: string, to: string, y: string) returns (x: string)
    requires to !in m && y in RenameKey(m, from, to)
    ensures x in m && Subst(from, to)(x) == y
  {
    x := if y == to then from else y;
  }

  lemma RenamedNamesDeclared(t: TableDef, names: seq<string>, from: string, to: string)
    requires Declares(t, names) && to !in t.fields
    ensures Declares(RenamedTable(t, from, to), MapNames(names, Subst(from, to)))
  {
  }

  /** Names that were not computed are not computed after the rename. */
  lemma RenamedNamesNotComputed(t: TableDef, names: seq<string>, from: string, to: string)
    requires Declares(t, names) && to !in t.fields && to !in t.computed
    requires forall x | x in names :: x !in t.computed
    ensures forall y | y in MapNames(names, Subst(from, to)) :: y !in RenamedTable(t, from, to).computed
  {
  }

  lemma RenamedComputedClosed(t: TableDef, from: string, to: string)
    requires ComputedClosed(t) && from in t.fields && to !in t.fields
    ensures ComputedClosed(RenamedTable(t, from, to))
  {
    var t' := RenamedTable(t, from, to);
    forall k' | k' in t'.computed
      ensures k' in t'.fields && Declares(t', ValueFields(t'.computed[k']))
      ensures forall x | x in ValueFields(t'.computed[k']) :: x !in t'.computed
    {
      var k := RenameKeyOrigin(t.computed, from, to, k');
      RenameKeyLookup(t.computed, from, to, k);
      RenameKeyLookup(t.fields, from, to, k);
      ValueLaws(t.computed[k], Subst(from, to), Identity());
      RenamedNamesDeclared(t, ValueFields(t.computed[k]), from, to);
      RenamedNamesNotComputed(t, ValueFields(t.computed[k]), from, to);
    }
  }

  lemma RenamedSettingsClosed(t: TableDef, from: string, to: string)
    requires SettingsClosed(t) && from in t.fields && to !in t.fields
    ensures SettingsClosed(RenamedTable(t, from, to))
  {
  }

  /** Everything the directive rewrites still refers only to declared fields. */
  lemma RewrittenReferencesStayDeclared(t: TableDef, from: string, to: string)
    requires RewrittenClosed(t) && from in t.fields && to !in t.fields
    ensures RewrittenClosed(RenamedTable(t, from, to))
  {
    var t' := RenamedTable(t, from, to);
    RenamedComputedClosed(t, from, to);
    RenamedSettingsClosed(t, from, to);
    if t.authorize.Some? {
      FilterLaws(t.authorize.value, Subst(from, to), Identity());
      RenamedNamesDeclared(t, FilterFields(t.authorize.value), from, to);
    }
    forall ix' | ix' in t'.indexes ensures Declares(t', ix'.fields) {
      var i :| 0 <= i < |t'.indexes| && t'.indexes[i] == ix';
      RenamedNamesDeclared(t, t.indexes[i].fields, from, to);
    }
  }

  /**
   Index predicates and vector pre-filters are not rewritten: after the rename they
   refer only to declared fields exactly when none of them mentioned `from`.
   */
  lemma IndexExtrasStayDeclaredExactly(t: TableDef, from: string, to: string)
    requires ExtrasClosed(t) && from in t.fields && to !in t.fields
    ensures ExtrasClosed(RenamedTable(t, from, to)) <==> forall ix | ix in t.indexes :: from !in IndexExtras(ix)
  {
    var t' := RenamedTable(t, from, to);
    forall i | 0 <= i < |t.indexes|
      ensures Declares(t', IndexExtras(t'.indexes[i])) <==> from !in IndexExtras(t.indexes[i])
    {
      assert IndexExtras(t'.indexes[i]) == IndexExtras(t.indexes[i]);
      DeclaredAfterRename(t, IndexExtras(t.indexes[i]), from, to);
    }
  }

  /** Unrewritten names stay declared exactly when `from` is not among them. */
  lemma DeclaredAfterRename(t: TableDef, names: seq<string>, from: string, to: string)
    requires Declares(t, names) && from in t.fields && to !in t.fields
    ensures Declares(RenamedTable(t, from, to), names) <==> from !in names
  {
  }

  /** A partial index on the renamed field itself: closed before the rename, dangling after it. */
  lemma RenameLeavesPredicateBehind()
    ensures var ix := IndexDef("ix", ["a"], false, false, None, true, Some(Leaf("a", Exists)), None);
            var t := PlainTable(map["a" := String], [ix]);
            RewrittenClosed(t) && ExtrasClosed(t) && !ExtrasClosed(RenamedTable(t, "a", "b"))
  {
    var ix := IndexDef("ix", ["a"], false, false, None, true, Some(Leaf("a", Exists)), None);
    var t := PlainTable(map["a" := String], [ix]);
    assert FilterFields(Leaf("a", Exists)) == ["a"];
    assert IndexExtras(ix)[0] == "a" && t.indexes[0] == ix;
    IndexExtrasStayDeclaredExactly(t, "a", "b");
  }

  // ---------- the directive is reversible and keeps documents valid ----------

  lemma RenameKeyUndoes<V>(m: map<string, V>, from: string, to: string)
    requires to !in m
    ensures RenameKey(RenameKey(m, from, to), to, from) == m
  {
  }

  lemma MapNamesUndoes(names: seq<string>, from: string, to: string)
    requires to !in names
    ensures MapNames(MapNames(names, Subst(from, to)), Subst(to, from)) == names
  {
  }

  ghost function RenamedComputed(computed: map<string, ValueExpr>, from: string, to: string): map<string, ValueExpr> {
    RenamedExprs(RenameKey(computed, from, to), Subst(from, to))
  }

  /** Moving the key and renaming inside the expressions do not disturb each other. */
  lemma KeysAndExprsCommute(computed: map<string, ValueExpr>, from: string, to: string, rho: Renaming)
    ensures RenameKey(RenamedExprs(computed, rho), from, to) == RenamedExprs(RenameKey(computed, from, to), rho)
  {
  }

  lemma ExprsUndo(computed: map<string, ValueExpr>, from: string, to: string)
    requires forall k | k in computed :: to !in ValueFields(computed[k])
    ensures RenamedExprs(RenamedExprs(computed, Subst(from, to)), Subst(to, from)) == computed
  {
    forall k | k in computed
      ensures RenamedValue(RenamedValue(computed[k], Subst(from, to)), Subst(to, from)) == computed[k]
    {
      RenameUndoesExactly(computed[k], from, to);
    }
  }

  lemma ComputedUndoes(computed: map<string, ValueExpr>, from: string, to: string)
    requires to !in computed && forall k | k in computed :: to !in ValueFields(computed[k])
    ensures RenamedComputed(RenamedComputed(computed, from, to), to, from) == computed
  {
    KeysAndExprsCommute(RenameKey(computed, from, to), to, from, Subst(from, to));
    RenameKeyUndoes(computed, from, to);
    ExprsUndo(computed, from, to);
  }

  lemma SettingsUndo(t: TableDef, from: string, to: string)
    requires SettingsClosed(t) && to !in t.fields
    ensures var back := RenamedTable(RenamedTable(t, from, to), to, from);
            back.ownerField == t.ownerField && back.collaboratorsField == t.collaboratorsField &&
            back.updatedAtField == t.updatedAtField && back.autoIncrementField == t.autoIncrementField &&
            back.ttl == t.ttl && back.defaults == t.defaults && back.constraints == t.constraints
  {
    RenameKeyUndoes(t.defaults, from, to);
    RenameKeyUndoes(t.constraints, from, to);
  }

  /** Renaming back gives the original table. */
  lemma RenameTableUndoes(t: TableDef, from: string, to: string)
    requires RewrittenClosed(t) && from in t.fields && to !in t.fields
    ensures RenamedTable(RenamedTable(t, from, to), to, from) == t
  {
    var t' := RenamedTable(t, from, to);
    var back := RenamedTable(t', to, from);
    RenameKeyUndoes(t.fields, from, to);
    SettingsUndo(t, from, to);
    ComputedUndoes(t.computed, from, to);
    if t.authorize.Some? {
      RenameUndoesFilter(t.authorize.value, from, to);
    }
    forall i | 0 <= i < |t.indexes| ensures back.indexes[i] == t.indexes[i] {
      assert Declares(t, t.indexes[i].fields);
      MapNamesUndoes(t.indexes[i].fields, from, to);
    }
    assert back.indexes == t.indexes;
  }

  /** A document is valid exactly when its renamed form is valid under the renamed table. */
  lemma RenameKeepsDocumentsValid(f: Formats, t: TableDef, doc: Doc, from: string, to: string)
    requires from in t.fields && to !in t.fields && to !in doc && !IsReserved(from) && !IsReserved(to)
    ensures ValidDoc(f, t.fields, doc) <==>
            ValidDoc(f, RenamedTable(t, from, to).fields, RenameKey(doc, from, to))
  {
    var fields', doc' := RenameKey(t.fields, from, to), RenameKey(doc, from, to);
    if ValidDoc(f, t.fields, doc) {
      RenamedDocumentIsValid(f, t.fields, doc, from, to);
    }
    if ValidDoc(f, fields', doc') {
      RenamedDocumentIsValid(f, fields', doc', to, from);
      RenameKeyUndoes(t.fields, from, to);
      RenameKeyUndoes(doc, from, to);
    }
  }

  lemma RenamedDocumentIsValid(f: Formats, fields: map<string, FieldType>, doc: Doc, from: string, to: string)
    requires from in fields && to !in fields && !IsReserved(to) && ValidDoc(f, fields, doc)
    ensures ValidDoc(f, RenameKey(fields, from, to), RenameKey(doc, from, to))
  {
  }

  // ---------- stamping computed fields ----------

  datatype StampError = StampError(field: string, error: EvalError)

  function Store(doc: Doc, k: string, v: Json): (r: Doc) {
    if v.JNull? then doc - {k} else doc[k := v]
  }

  /** The names in evaluation order; each expression sees the document as stamped so far. */
  function Stamped(ops: Ops, t: TableDef, doc: Doc, now: I64, order: seq<string>): (r: Result<Doc, StampError>)
    requires forall k | k in order :: k in t.computed
    decreases |order|
  {
    if order == [] then Ok(doc)
    else
      match Eval(ops, t.computed[order[0]], Ctx(doc, t.fields, now))
      case Err(error) => Err(StampError(order[0], error))
      case Ok(v) => Stamped(ops, t, Store(doc, order[0], v), now, order[1..])
  }

  /** Each field sees what the fields before it were given; the first failure ends the pass and names its field. */
  lemma {:induction false} StampedInTurn(
    ops: Ops, t: TableDef, doc: Doc, now: I64, a: seq<string>, b: seq<string>)
    requires forall k | k in a + b :: k in t.computed
    ensures var first := Stamped(ops, t, doc, now, a);
            Stamped(ops, t, doc, now, a + b) == if first.Err? then first else Stamped(ops, t, first.value, now, b)
    decreases |a|
  {
    if a == [] {
      assert a + b == b;
    } else {
      assert (a + b)[0] == a[0] && (a + b)[1..] == a[1..] + b;
      var v := Eval(ops, t.computed[a[0]], Ctx(doc, t.fields, now));
      if v.Ok? {
        StampedInTurn(ops, t, Store(doc, a[0], v.value), now, a[1..], b);
      }
    }
  }

  /** One field: its value on the document as it is, stored, or removed when null. */
  lemma StampedOne(ops: Ops, t: TableDef, doc: Doc, now: I64, k: string)
    requires k in t.computed
    ensures var v, r := Eval(ops, t.computed[k], Ctx(doc, t.fields, now)), Stamped(ops, t, doc, now, [k]);
            if v.Err? then r == Err(StampError(k, v.error))
            else if v.value.JNull? then r == Ok(doc - {k})
            else r == Ok(doc[k := v.value])
  {
    assert [k][0] == k && [k][1..] == [];
  }

  method StampInOrder(ops: Ops, t: TableDef, doc: Doc, now: I64, order: seq<string>)
    returns (r: Result<Doc, StampError>)
    requires forall k | k in order :: k in t.computed
    ensures r == Stamped(ops, t, doc, now, order)
  {
    var current := doc;
    for i := 0 to |order|
      invariant Stamped(ops, t, current, now, order[i..]) == Stamped(ops, t, doc, now, order)
    {
      assert order[i..][0] == order[i] && order[i..][1..] == order[i + 1..];
      var v := Eval(ops, t.computed[order[i]], Ctx(current, t.fields, now));
      if v.Err? {
        return Err(StampError(order[i], v.error));
      }
      current := Store(current, order[i], v.value);
    }
    return Ok(current);
  }

  /** `stamp_computed`: one pass over the computed map in key order; an error names its field. */
  method StampComputed(ops: Ops, t: TableDef, doc: Doc, now: I64) returns (r: Result<Doc, StampError>)
    ensures r == Stamped(ops, t, doc, now, Sorted(t.computed.Keys))
  {
    r := StampInOrder(ops, t, doc, now, Sorted(t.computed.Keys));
  }

  /** What a computed field holds after stamping, evaluated on the unstamped document. */
  ghost function Outcome(ops: Ops, t: TableDef, doc: Doc, now: I64, k: string): Result<Json, EvalError>
    requires k in t.computed
  {
    Eval(ops, t.computed[k], Ctx(doc, t.fields, now))
  }

  ghost function Kept(v: Json): Option<Json> {
    if v.JNull? then None else Some(v)
  }

  /** `doc` differs from `base` only on computed fields. */
  ghost predicate SameInputs(t: TableDef, base: Doc, doc: Doc) {
    forall x | x !in t.computed :: Get(doc, x) == Get(base, x)
  }

  lemma OutcomeIgnoresComputed(ops: Ops, t: TableDef, base: Doc, doc: Doc, now: I64, k: string)
    requires ComputedClosed(t) && SameInputs(t, base, doc) && k in t.computed
    ensures Outcome(ops, t, doc, now, k) == Outcome(ops, t, base, now, k)
  {
    EvaluationReadsOnlyWalkedFields(ops, t.computed[k], Ctx(doc, t.fields, now), Ctx(base, t.fields, now));
  }

  /** Stamping in sequence equals evaluating every computed field on the original document. */
  lemma {:induction false} StampingIsParallel(
    ops: Ops, t: TableDef, base: Doc, doc: Doc, now: I64, order: seq<string>)
    requires ComputedClosed(t) && SameInputs(t, base, doc)
    requires forall k | k in order :: k in t.computed
    ensures Stamped(ops, t, doc, now, order).Ok? <==> forall k | k in order :: Outcome(ops, t, base, now, k).Ok?
    ensures Stamped(ops, t, doc, now, order).Ok? ==>
              forall k :: Get(Stamped(ops, t, doc, now, order).value, k) ==
                if k in order then Kept(Outcome(ops, t, base, now, k).value) else Get(doc, k)
    decreases |order|
  {
    if order == [] {
    } else {
      var k, rest := order[0], order[1..];
      OutcomeIgnoresComputed(ops, t, base, doc, now, k);
      var v := Outcome(ops, t, base, now, k);
      assert forall x | x in order :: x == k || x in rest;
      if v.Ok? {
        var next := Store(doc, k, v.value);
        StampingIsParallel(ops, t, base, next, now, rest);
        assert forall x :: Get(next, x) == if x == k then Kept(v.value) else Get(doc, x);
      }
    }
  }

  ghost predicate Enumerates(order: seq<string>, t: TableDef) {
    forall k :: k in order <==> k in t.computed
  }

  ghost predicate AllSucceed(ops: Ops, t: TableDef, doc: Doc, now: I64) {
    forall k | k in t.computed :: Outcome(ops, t, doc, now, k).Ok?
  }

  /** What the stamped document holds at `k`. */
  ghost function StampedAt(ops: Ops, t: TableDef, doc: Doc, now: I64, k: string): Option<Json> {
    if k !in t.computed then Get(doc, k)
    else if Outcome(ops, t, doc, now, k).Ok? then Kept(Outcome(ops, t, doc, now, k).value)
    else None
  }

  ghost predicate IsStamped(ops: Ops, t: TableDef, doc: Doc, now: I64, r: Doc) {
    forall k :: Get(r, k) == StampedAt(ops, t, doc, now, k)
  }

  /** A complete pass, in any order, succeeds exactly when every expression does, with one possible result. */
  lemma StampingIsPointwise(ops: Ops, t: TableDef, doc: Doc, now: I64, order: seq<string>)
    requires ComputedClosed(t) && Enumerates(order, t)
    ensures Stamped(ops, t, doc, now, order).Ok? <==> AllSucceed(ops, t, doc, now)
    ensures Stamped(ops, t, doc, now, order).Ok? ==> IsStamped(ops, t, doc, now, Stamped(ops, t, doc, now, order).value)
  {
    StampingIsParallel(ops, t, doc, doc, now, order);
  }

  lemma SameLookups<V>(a: map<string, V>, b: map<string, V>)
    requires forall k :: Get(a, k) == Get(b, k)
    ensures a == b
  {
    forall k ensures k in a <==> k in b {
      assert Get(a, k) == Get(b, k);
    }
    forall k | k in a ensures a[k] == b[k] {
      assert Get(a, k) == Get(b, k);
    }
  }

  /** The iteration order of the computed map does not matter. */
  lemma StampingOrderIsIrrelevant(
    ops: Ops, t: TableDef, doc: Doc, now: I64, order: seq<string>, order': seq<string>)
    requires ComputedClosed(t) && Enumerates(order, t) && Enumerates(order', t)
    ensures var a, b := Stamped(ops, t, doc, now, order), Stamped(ops, t, doc, now, order');
            (a.Ok? <==> b.Ok?) && (a.Ok? ==> a == b)
  {
    StampingIsPointwise(ops, t, doc, now, order);
    StampingIsPointwise(ops, t, doc, now, order');
    var a, b := Stamped(ops, t, doc, now, order), Stamped(ops, t, doc, now, order');
    if a.Ok? && b.Ok? {
      SameLookups(a.value, b.value);
    }
  }

  lemma OutcomeFollowsRename(ops: Ops, t: TableDef, doc: Doc, now: I64, from: string, to: string, k: string)
    requires ComputedClosed(t) && from in t.fields && to !in t.fields && doc.Keys <= t.fields.Keys
    requires k in t.computed
    ensures var k' := Subst(from, to)(k);
            k' in RenamedTable(t, from, to).computed &&
            Outcome(ops, RenamedTable(t, from, to), RenameKey(doc, from, to), now, k') == Outcome(ops, t, doc, now, k)
  {
    var t', k' := RenamedTable(t, from, to), Subst(from, to)(k);
    assert t'.computed[k'] == RenamedValue(t.computed[k], Subst(from, to));
    RenamePreservesMeaning(ops, t.computed[k], Ctx(doc, t.fields, now), from, to);
  }

  lemma SuccessFollowsRename(ops: Ops, t: TableDef, doc: Doc, now: I64, from: string, to: string)
    requires ComputedClosed(t) && from in t.fields && to !in t.fields && doc.Keys <= t.fields.Keys
    ensures AllSucceed(ops, RenamedTable(t, from, to), RenameKey(doc, from, to), now) <==> AllSucceed(ops, t, doc, now)
  {
    forall k | k in t.computed { OutcomeFollowsRename(ops, t, doc, now, from, to, k); }
    forall k' | k' in RenamedTable(t, from, to).computed
      ensures exists k | k in t.computed :: Subst(from, to)(k) == k'
    {
      var k := RenameKeyOrigin(t.computed, from, to, k');
    }
  }

  /** The renamed document holds at a renamed name what the original holds at the name. */
  lemma StampedFollowsRename(ops: Ops, t: TableDef, doc: Doc, now: I64, from: string, to: string, x: string)
    requires ComputedClosed(t) && from in t.fields && to !in t.fields && doc.Keys <= t.fields.Keys && x != to
    ensures StampedAt(ops, RenamedTable(t, from, to), RenameKey(doc, from, to), now, Subst(from, to)(x))
            == StampedAt(ops, t, doc, now, x)
  {
    RenameKeyLookup(doc, from, to, x);
    if x in t.computed {
      OutcomeFollowsRename(ops, t, doc, now, from, to, x);
    } else {
      RenameKeyLookup(t.computed, from, to, x);
    }
  }

  lemma StampedLookups(ops: Ops, t: TableDef, doc: Doc, now: I64, from: string, to: string, before: Doc)
    requires ComputedClosed(t) && from in t.fields && to !in t.fields && doc.Keys <= t.fields.Keys
    requires IsStamped(ops, t, doc, now, before)
    ensures IsStamped(ops, RenamedTable(t, from, to), RenameKey(doc, from, to), now, RenameKey(before, from, to))
  {
    var t', doc' := RenamedTable(t, from, to), RenameKey(doc, from, to);
    assert to !in before by { assert Get(before, to) == StampedAt(ops, t, doc, now, to) == None; }
    forall x ensures Get(RenameKey(before, from, to), x) == StampedAt(ops, t', doc', now, x) {
      if x == from {
        assert from !in t'.computed && from !in doc';
      } else {
        var y := if x == to then from else x;
        RenameKeyLookup(before, from, to, y);
        StampedFollowsRename(ops, t, doc, now, from, to, y);
      }
    }
  }

  /**
   Migrating then writing equals writing then migrating: stamping the renamed document
   under the renamed table gives the renamed stamped document, and fails exactly when
   the original does.
   */
  lemma RenameCommutesWithStamping(
    ops: Ops, t: TableDef, doc: Doc, now: I64, from: string, to: string, order: seq<string>, order': seq<string>)
    requires ComputedClosed(t) && from in t.fields && to !in t.fields && doc.Keys <= t.fields.Keys
    requires Enumerates(order, t) && Enumerates(order', RenamedTable(t, from, to))
    ensures var before := Stamped(ops, t, doc, now, order);
            var after := Stamped(ops, RenamedTable(t, from, to), RenameKey(doc, from, to), now, order');
            (after.Ok? <==> before.Ok?) &&
            (before.Ok? ==> after.value == RenameKey(before.value, from, to))
  {
    var t', doc' := RenamedTable(t, from, to), RenameKey(doc, from, to);
    RenamedComputedClosed(t, from, to);
    StampingIsPointwise(ops, t, doc, now, order);
    StampingIsPointwise(ops, t', doc', now, order');
    SuccessFollowsRename(ops, t, doc, now, from, to);
    var before, after := Stamped(ops, t, doc, now, order), Stamped(ops, t', doc', now, order');
    if before.Ok? {
      StampedLookups(ops, t, doc, now, from, to, before.value);
      SameLookups(after.value, RenameKey(before.value, from, to));
    }
  }
}
