/**
 The expression interpreter: `eval_node` of rust-client/src/in_memory/value_expr.rs
 and `eval_filter_with_clock` of rust-client/src/in_memory/validate.rs.

 Comparison, number and text primitives are parameters (`Ops`), so every result
 holds for each engine's choice of them.
 */
module Evaluation {
  import opened Wrappers
  import opened Json
  import opened Wire
  import opened Schema
  import opened Validation
  import opened Fields
  import opened Rename

  datatype EvalError = EvalError(message: string)

  /** An IEEE double as the arithmetic primitives pass it around: its bit pattern. */
  type Bits = nat

  datatype Ops = Ops(
    compare: (CompareOp, bool, Json, Json) -> bool,
    older: (bool, Json, int, int) -> bool,
    toText: Json -> Option<string>,
    toNumber: Json -> Result<Option<Bits>, EvalError>,
    arith: (ArithOp, Bits, Bits) -> Result<Json, EvalError>,
    text: (TextOp, string) -> string,
    cast: (CastTarget, Json) -> Result<Json, EvalError>)

  datatype Ctx = Ctx(doc: Doc, types: map<string, FieldType>, now: I64)

  /** `is_int64_field`: one optional layer is looked through. */
  predicate IsInt64Field(ty: Option<FieldType>) {
    ty.Some? && (ty.value.Int64? || (ty.value.Optional? && ty.value.inner.Int64?))
  }

  /** One leaf, given what its field holds; absent and null never match a comparison. */
  predicate EvalLeaf(ops: Ops, test: LeafTest, found: Option<Json>, int64: bool, clock: Option<int>) {
    var present := found.Some? && !found.value.JNull?;
    match test
    case Compare(op, v) => present && ops.compare(op, int64, found.value, v)
    case In(vs) => present && exists i | 0 <= i < |vs| :: ops.compare(Eq, int64, found.value, vs[i])
    case Contains(v) => found.Some? && found.value.JArray? && v in found.value.items
    case Exists => present
    case OlderThan(ms) => clock.Some? && present && ops.older(int64, found.value, clock.value, ms)
  }

  /** `clock` is `None` outside by-query steps, where an age test never matches. */
  predicate EvalFilter(ops: Ops, e: FilterExpr, cx: Ctx, clock: Option<int>)
    decreases e
  {
    match e
    case Leaf(field, test) =>
      EvalLeaf(ops, test, Get(cx.doc, field), IsInt64Field(Get(cx.types, field)), clock)
    case And(exprs) => forall i | 0 <= i < |exprs| :: EvalFilter(ops, exprs[i], cx, clock)
    case Or(exprs) => exists i | 0 <= i < |exprs| :: EvalFilter(ops, exprs[i], cx, clock)
    case Not(inner) => !EvalFilter(ops, inner, cx, clock)
  }

  function TextOrNull(ops: Ops, v: Json): Json {
    match ops.toText(v)
    case Some(text) => JString(text)
    case None => JNull
  }

  function Eval(ops: Ops, e: ValueExpr, cx: Ctx): (r: Result<Json, EvalError>)
    decreases e, 1
  {
    match e
    case Field(field) =>
      if field in cx.doc then Ok(TextOrNull(ops, cx.doc[field])) else Ok(JNull)
    case Literal(value) => Ok(value)
    case Now => Ok(FromI64(cx.now))
    case Concat(parts) =>
      (match EvalConcat(ops, parts, cx)
       case Ok(text) => Ok(JString(text))
       case Err(error) => Err(error))
    case Coalesce(parts) => EvalCoalesce(ops, parts, cx)
    case Arith(op, left, right) => Arithmetic(ops, op, Eval(ops, left, cx), Eval(ops, right, cx))
    case Text(op, operand) =>
      (match Eval(ops, operand, cx)
       case Ok(v) =>
         (match ops.toText(v)
          case Some(text) => Ok(JString(ops.text(op, text)))
          case None => Ok(JNull))
       case Err(error) => Err(error))
    case Cast(operand, to) =>
      (match Eval(ops, operand, cx)
       case Ok(v) => ops.cast(to, v)
       case Err(error) => Err(error))
    case Case(whens, otherwise) =>
      (match EvalWhens(ops, whens, cx)
       case Some(r) => r
       case None => Eval(ops, otherwise, cx))
  }

  /** Left to right; null parts are skipped, the first error wins. */
  function EvalConcat(ops: Ops, parts: seq<ValueExpr>, cx: Ctx): (r: Result<string, EvalError>)
    decreases parts, 0
  {
    if parts == [] then Ok("")
    else
      match Eval(ops, parts[0], cx)
      case Err(error) => Err(error)
      case Ok(v) =>
        match EvalConcat(ops, parts[1..], cx)
        case Err(error) => Err(error)
        case Ok(rest) => Ok((if ops.toText(v).Some? then ops.toText(v).value else "") + rest)
  }

  /** The first non-null part; later parts are not evaluated. */
  function EvalCoalesce(ops: Ops, parts: seq<ValueExpr>, cx: Ctx): (r: Result<Json, EvalError>)
    decreases parts, 0
  {
    if parts == [] then Ok(JNull)
    else
      match Eval(ops, parts[0], cx)
      case Err(error) => Err(error)
      case Ok(v) => if v.JNull? then EvalCoalesce(ops, parts[1..], cx) else Ok(v)
  }

  /** The left operand's failures come before the right one's; a null operand gives null. */
  function Arithmetic(ops: Ops, op: ArithOp, left: Result<Json, EvalError>, right: Result<Json, EvalError>)
    : (r: Result<Json, EvalError>)
  {
    match Operand(ops, left)
    case Err(error) => Err(error)
    case Ok(l) =>
      match Operand(ops, right)
      case Err(error) => Err(error)
      case Ok(r) => if l.Some? && r.Some? then ops.arith(op, l.value, r.value) else Ok(JNull)
  }

  function Operand(ops: Ops, v: Result<Json, EvalError>): Result<Option<Bits>, EvalError> {
    match v
    case Ok(value) => ops.toNumber(value)
    case Err(error) => Err(error)
  }

  /** The result of the first matching branch, if any. */
  function EvalWhens(ops: Ops, whens: seq<CaseWhen>, cx: Ctx): (r: Option<Result<Json, EvalError>>)
    decreases whens, 0
  {
    if whens == [] then None
    else if EvalFilter(ops, whens[0].when, cx, None) then Some(EvalBranch(ops, whens[0], cx))
    else EvalWhens(ops, whens[1..], cx)
  }

  function EvalBranch(ops: Ops, w: CaseWhen, cx: Ctx): (r: Result<Json, EvalError>)
    decreases w, 0
  {
    Eval(ops, w.result, cx)
  }

  // ---------- what the lazy nodes compute ----------

  ghost predicate IsNullAt(ops: Ops, parts: seq<ValueExpr>, cx: Ctx, i: nat)
    requires i < |parts|
  {
    Eval(ops, parts[i], cx) == Ok(JNull)
  }

  /** Coalesce stops at the first part that is not null, with its value or its error. */
  lemma {:induction false} CoalesceStopsAtFirst(ops: Ops, parts: seq<ValueExpr>, cx: Ctx, i: nat)
    requires i <= |parts| && forall j | 0 <= j < i :: IsNullAt(ops, parts, cx, j)
    requires i < |parts| ==> !IsNullAt(ops, parts, cx, i)
    ensures EvalCoalesce(ops, parts, cx) == if i < |parts| then Eval(ops, parts[i], cx) else Ok(JNull)
    decreases i
  {
    if i == 0 {
    } else {
      assert IsNullAt(ops, parts, cx, 0);
      forall j | 0 <= j < i - 1 ensures IsNullAt(ops, parts[1..], cx, j) {
        assert IsNullAt(ops, parts, cx, j + 1);
      }
      CoalesceStopsAtFirst(ops, parts[1..], cx, i - 1);
    }
  }

  /** Case takes the first branch whose predicate holds, whatever the later ones are. */
  lemma {:induction false} CaseTakesFirst(ops: Ops, whens: seq<CaseWhen>, cx: Ctx, i: nat)
    requires i <= |whens| && forall j | 0 <= j < i :: !EvalFilter(ops, whens[j].when, cx, None)
    requires i < |whens| ==> EvalFilter(ops, whens[i].when, cx, None)
    ensures EvalWhens(ops, whens, cx) == if i < |whens| then Some(Eval(ops, whens[i].result, cx)) else None
    decreases i
  {
    if i == 0 {
    } else {
      CaseTakesFirst(ops, whens[1..], cx, i - 1);
    }
  }

  /** Concat joins the texts of consecutive parts; a failing part fails the whole. */
  lemma {:induction false} ConcatJoins(ops: Ops, a: seq<ValueExpr>, b: seq<ValueExpr>, cx: Ctx)
    ensures EvalConcat(ops, a + b, cx) ==
            match EvalConcat(ops, a, cx)
            case Err(error) => Err(error)
            case Ok(x) =>
              match EvalConcat(ops, b, cx)
              case Err(error) => Err(error)
              case Ok(y) => Ok(x + y)
    decreases |a|
  {
    if a == [] {
      assert a + b == b;
      if EvalConcat(ops, b, cx).Ok? {
        assert "" + EvalConcat(ops, b, cx).value == EvalConcat(ops, b, cx).value;
      }
    } else {
      assert (a + b)[0] == a[0] && (a + b)[1..] == a[1..] + b;
      ConcatJoins(ops, a[1..], b, cx);
      var head, rest, last := Eval(ops, a[0], cx), EvalConcat(ops, a[1..], cx), EvalConcat(ops, b, cx);
      if head.Ok? && rest.Ok? && last.Ok? {
        var text := if ops.toText(head.value).Some? then ops.toText(head.value).value else "";
        assert text + (rest.value + last.value) == (text + rest.value) + last.value;
      }
    }
  }

  // ---------- simulation ----------

  /** The second context holds under `rho(x)` what the first holds under `x`. */
  ghost predicate Mirrors(xs: seq<string>, rho: Renaming, cx: Ctx, cx': Ctx) {
    cx'.now == cx.now &&
    forall x | x in xs ::
      Get(cx'.doc, rho(x)) == Get(cx.doc, x) &&
      IsInt64Field(Get(cx'.types, rho(x))) == IsInt64Field(Get(cx.types, x))
  }

  lemma {:induction false} FilterSimulates(
    ops: Ops, e: FilterExpr, rho: Renaming, cx: Ctx, cx': Ctx, clock: Option<int>)
    requires Mirrors(FilterFields(e), rho, cx, cx')
    ensures EvalFilter(ops, RenamedFilter(e, rho), cx', clock) == EvalFilter(ops, e, cx, clock)
    decreases e
  {
    match e
    case Leaf(field, _) => assert field in FilterFields(e);
    case And(exprs) =>
      forall i | 0 <= i < |exprs|
        ensures EvalFilter(ops, RenamedFilters(exprs, rho)[i], cx', clock) == EvalFilter(ops, exprs[i], cx, clock)
      {
        PartFieldsAreRead(exprs, i);
        FilterSimulates(ops, exprs[i], rho, cx, cx', clock);
      }
    case Or(exprs) =>
      forall i | 0 <= i < |exprs|
        ensures EvalFilter(ops, RenamedFilters(exprs, rho)[i], cx', clock) == EvalFilter(ops, exprs[i], cx, clock)
      {
        PartFieldsAreRead(exprs, i);
        FilterSimulates(ops, exprs[i], rho, cx, cx', clock);
      }
    case Not(inner) => FilterSimulates(ops, inner, rho, cx, cx', clock);
  }

  lemma {:induction false} PartFieldsAreRead(es: seq<FilterExpr>, i: nat)
    requires i < |es|
    ensures forall x | x in FilterFields(es[i]) :: x in AllFilterFields(es)
  {
    if i == 0 {
    } else {
      PartFieldsAreRead(es[1..], i - 1);
    }
  }

  /** A renamed expression in a mirrored context gives the same value or the same error. */
  lemma {:induction false} ValueSimulates(ops: Ops, e: ValueExpr, rho: Renaming, cx: Ctx, cx': Ctx)
    requires Mirrors(ValueFields(e), rho, cx, cx')
    ensures Eval(ops, RenamedValue(e, rho), cx') == Eval(ops, e, cx)
    decreases e, 1
  {
    match e
    case Field(field) => assert field in ValueFields(e);
    case Literal(_) =>
    case Now =>
    case Concat(parts) => PartsSimulate(ops, parts, rho, cx, cx');
    case Coalesce(parts) => PartsSimulate(ops, parts, rho, cx, cx');
    case Arith(_, left, right) =>
      ValueSimulates(ops, left, rho, cx, cx');
      ValueSimulates(ops, right, rho, cx, cx');
    case Text(_, operand) => ValueSimulates(ops, operand, rho, cx, cx');
    case Cast(operand, _) => ValueSimulates(ops, operand, rho, cx, cx');
    case Case(whens, otherwise) =>
      WhensSimulate(ops, whens, rho, cx, cx');
      ValueSimulates(ops, otherwise, rho, cx, cx');
  }

  lemma {:induction false} PartsSimulate(ops: Ops, es: seq<ValueExpr>, rho: Renaming, cx: Ctx, cx': Ctx)
    requires Mirrors(AllValueFields(es), rho, cx, cx')
    ensures EvalConcat(ops, RenamedValues(es, rho), cx') == EvalConcat(ops, es, cx)
    ensures EvalCoalesce(ops, RenamedValues(es, rho), cx') == EvalCoalesce(ops, es, cx)
    decreases es, 0
  {
    if es == [] {
    } else {
      ValueSimulates(ops, es[0], rho, cx, cx');
      PartsSimulate(ops, es[1..], rho, cx, cx');
      assert RenamedValues(es, rho)[1..] == RenamedValues(es[1..], rho);
    }
  }

  lemma {:induction false} WhensSimulate(ops: Ops, ws: seq<CaseWhen>, rho: Renaming, cx: Ctx, cx': Ctx)
    requires Mirrors(AllWhenFields(ws), rho, cx, cx')
    ensures EvalWhens(ops, RenamedWhens(ws, rho), cx') == EvalWhens(ops, ws, cx)
    decreases ws, 0
  {
    if ws == [] {
    } else {
      assert forall x | x in FilterFields(ws[0].when) :: x in WhenFields(ws[0]);
      FilterSimulates(ops, ws[0].when, rho, cx, cx', None);
      BranchSimulates(ops, ws[0], rho, cx, cx');
      WhensSimulate(ops, ws[1..], rho, cx, cx');
      assert RenamedWhens(ws, rho)[1..] == RenamedWhens(ws[1..], rho);
    }
  }

  lemma {:induction false} BranchSimulates(ops: Ops, w: CaseWhen, rho: Renaming, cx: Ctx, cx': Ctx)
    requires Mirrors(WhenFields(w), rho, cx, cx')
    ensures EvalBranch(ops, RenamedWhen(w, rho), cx') == EvalBranch(ops, w, cx)
    decreases w, 0
  {
    ValueSimulates(ops, w.result, rho, cx, cx');
  }

  // ---------- consequences ----------

  /** Evaluation depends only on the walked fields (and the clock). */
  lemma EvaluationReadsOnlyWalkedFields(ops: Ops, e: ValueExpr, cx: Ctx, cx': Ctx)
    requires cx.now == cx'.now && cx.types == cx'.types
    requires forall x | x in ValueFields(e) :: Get(cx.doc, x) == Get(cx'.doc, x)
    ensures Eval(ops, e, cx) == Eval(ops, e, cx')
  {
    ValueLaws(e, Identity(), Identity());
    ValueSimulates(ops, e, Identity(), cx, cx');
  }

  /** `remove(from)` followed by `insert(to, v)`; nothing happens when `from` is absent. */
  function RenameKey<V>(m: map<string, V>, from: string, to: string): (r: map<string, V>) {
    if from in m then (m - {from})[to := m[from]] else m
  }

  function RenamedCtx(cx: Ctx, from: string, to: string): Ctx {
    Ctx(RenameKey(cx.doc, from, to), RenameKey(cx.types, from, to), cx.now)
  }

  lemma RenamedCtxMirrors(xs: seq<string>, cx: Ctx, from: string, to: string)
    requires to !in xs && to !in cx.doc && to !in cx.types
    ensures Mirrors(xs, Subst(from, to), cx, RenamedCtx(cx, from, to))
  {
  }

  /**
   The rename preserves meaning: with `to` neither read nor present, the renamed
   expression on the renamed document gives the same result or the same error.
   */
  lemma RenamePreservesMeaning(ops: Ops, e: ValueExpr, cx: Ctx, from: string, to: string)
    requires to !in ValueFields(e) && to !in cx.doc && to !in cx.types
    ensures Eval(ops, RenamedValue(e, Subst(from, to)), RenamedCtx(cx, from, to)) == Eval(ops, e, cx)
  {
    RenamedCtxMirrors(ValueFields(e), cx, from, to);
    ValueSimulates(ops, e, Subst(from, to), cx, RenamedCtx(cx, from, to));
  }

  /** The same for predicates such as a table's `authorize`, with or without a clock. */
  lemma RenamePreservesPredicate(
    ops: Ops, e: FilterExpr, cx: Ctx, clock: Option<int>, from: string, to: string)
    requires to !in FilterFields(e) && to !in cx.doc && to !in cx.types
    ensures EvalFilter(ops, RenamedFilter(e, Subst(from, to)), RenamedCtx(cx, from, to), clock)
            == EvalFilter(ops, e, cx, clock)
  {
    RenamedCtxMirrors(FilterFields(e), cx, from, to);
    FilterSimulates(ops, e, Subst(from, to), cx, RenamedCtx(cx, from, to), clock);
  }

  // ---------- what a filter says ----------

  lemma ConjunctionMeans(ops: Ops, es: seq<FilterExpr>, cx: Ctx, clock: Option<int>)
    ensures EvalFilter(ops, And(es), cx, clock) <==> forall x | x in es :: EvalFilter(ops, x, cx, clock)
  {
    assert forall i | 0 <= i < |es| :: es[i] in es;
    if EvalFilter(ops, And(es), cx, clock) {
      forall x | x in es ensures EvalFilter(ops, x, cx, clock) {
        var i :| 0 <= i < |es| && es[i] == x;
      }
    }
  }

  lemma DisjunctionMeans(ops: Ops, es: seq<FilterExpr>, cx: Ctx, clock: Option<int>)
    ensures EvalFilter(ops, Or(es), cx, clock) <==> exists x :: x in es && EvalFilter(ops, x, cx, clock)
  {
    if x :| x in es && EvalFilter(ops, x, cx, clock) {
      var i :| 0 <= i < |es| && es[i] == x;
      assert EvalFilter(ops, es[i], cx, clock);
    }
  }

  /** A negation moves inside, exchanging the two. */
  lemma NegationMeans(ops: Ops, es: seq<FilterExpr>, negated: seq<FilterExpr>, cx: Ctx, clock: Option<int>)
    requires |negated| == |es| && forall i | 0 <= i < |es| :: negated[i] == Not(es[i])
    ensures EvalFilter(ops, Not(And(es)), cx, clock) <==> EvalFilter(ops, Or(negated), cx, clock)
    ensures EvalFilter(ops, Not(Or(es)), cx, clock) <==> EvalFilter(ops, And(negated), cx, clock)
  {
    assert forall i | 0 <= i < |es| :: EvalFilter(ops, negated[i], cx, clock) <==> !EvalFilter(ops, es[i], cx, clock);
  }

  /** What a document holds at a field, null counting as nothing. */
  ghost function Held(cx: Ctx, field: string): Option<Json> {
    if field in cx.doc && !cx.doc[field].JNull? then Some(cx.doc[field]) else None
  }

  ghost predicate HoldsInt64(cx: Ctx, field: string) {
    field in cx.types && cx.types[field] in {FieldType.Int64, FieldType.Optional(FieldType.Int64)}
  }

  /** A comparison holds of a value that is there and compares so; an unset field satisfies none, not even `neq`. */
  lemma ComparisonMeans(ops: Ops, field: string, op: CompareOp, v: Json, cx: Ctx, clock: Option<int>)
    ensures EvalFilter(ops, Leaf(field, Compare(op, v)), cx, clock) <==>
            Held(cx, field).Some? && ops.compare(op, HoldsInt64(cx, field), Held(cx, field).value, v)
  {
  }

  /** `in` is a disjunction of equalities. */
  lemma InMeans(ops: Ops, field: string, vs: seq<Json>, cx: Ctx, clock: Option<int>)
    ensures EvalFilter(ops, Leaf(field, In(vs)), cx, clock) <==>
            exists v :: v in vs && EvalFilter(ops, Leaf(field, Compare(Eq, v)), cx, clock)
  {
    if v :| v in vs && EvalFilter(ops, Leaf(field, Compare(Eq, v)), cx, clock) {
      var i :| 0 <= i < |vs| && vs[i] == v;
      assert ops.compare(Eq, IsInt64Field(Get(cx.types, field)), cx.doc[field], vs[i]);
    }
    if EvalFilter(ops, Leaf(field, In(vs)), cx, clock) {
      var i :| 0 <= i < |vs| && ops.compare(Eq, IsInt64Field(Get(cx.types, field)), cx.doc[field], vs[i]);
      assert vs[i] in vs && EvalFilter(ops, Leaf(field, Compare(Eq, vs[i])), cx, clock);
    }
  }

  /** Presence, membership and age; an age is only tested where there is a clock. */
  lemma OtherLeavesMean(ops: Ops, field: string, v: Json, ms: int, cx: Ctx, clock: Option<int>)
    ensures EvalFilter(ops, Leaf(field, Exists), cx, clock) <==> Held(cx, field).Some?
    ensures EvalFilter(ops, Leaf(field, Contains(v)), cx, clock) <==>
            field in cx.doc && cx.doc[field].JArray? && v in cx.doc[field].items
    ensures EvalFilter(ops, Leaf(field, OlderThan(ms)), cx, clock) <==>
            clock.Some? && Held(cx, field).Some? &&
            ops.older(HoldsInt64(cx, field), Held(cx, field).value, clock.value, ms)
  {
  }

  // ---------- what a value expression gives ----------

  /** A field gives its text, an unset one null; a literal itself; `now` the time. */
  lemma AtomsGive(ops: Ops, field: string, v: Json, cx: Ctx)
    ensures field !in cx.doc ==> Eval(ops, Field(field), cx) == Ok(JNull)
    ensures field in cx.doc && ops.toText(cx.doc[field]).None? ==> Eval(ops, Field(field), cx) == Ok(JNull)
    ensures field in cx.doc && ops.toText(cx.doc[field]).Some? ==>
              Eval(ops, Field(field), cx) == Ok(JString(ops.toText(cx.doc[field]).value))
    ensures Eval(ops, ValueExpr.Literal(v), cx) == Ok(v)
    ensures Eval(ops, Now, cx).Ok? && Eval(ops, Now, cx).value.JNumber? &&
            Eval(ops, Now, cx).value.num.Exact() == cx.now as real
  {
  }

  /** Arithmetic on two numbers, in the order written. */
  lemma ArithmeticGives(ops: Ops, op: ArithOp, left: ValueExpr, right: ValueExpr, cx: Ctx, x: Json, y: Json)
    requires Eval(ops, left, cx) == Ok(x) && Eval(ops, right, cx) == Ok(y)
    ensures var a, b, r := ops.toNumber(x), ops.toNumber(y), Eval(ops, Arith(op, left, right), cx);
            if a.Err? then r == Err(a.error)
            else if b.Err? then r == Err(b.error)
            else if a.value.None? || b.value.None? then r == Ok(JNull)
            else r == ops.arith(op, a.value.value, b.value.value)
  {
  }

  /** An operand's failure is the failure of the whole, the left one's first. */
  lemma ArithmeticFails(ops: Ops, op: ArithOp, left: ValueExpr, right: ValueExpr, cx: Ctx)
    ensures var a, b, r := Eval(ops, left, cx), Eval(ops, right, cx), Eval(ops, Arith(op, left, right), cx);
            (a.Err? ==> r == Err(a.error)) &&
            (a.Ok? && ops.toNumber(a.value).Ok? && b.Err? ==> r == Err(b.error))
  {
  }

  lemma TextGives(ops: Ops, op: TextOp, operand: ValueExpr, cx: Ctx)
    ensures var v, r := Eval(ops, operand, cx), Eval(ops, Text(op, operand), cx);
            if v.Err? then r == Err(v.error)
            else if ops.toText(v.value).None? then r == Ok(JNull)
            else r == Ok(JString(ops.text(op, ops.toText(v.value).value)))
  {
  }

  lemma CastGives(ops: Ops, to: CastTarget, operand: ValueExpr, cx: Ctx)
    ensures var v := Eval(ops, operand, cx);
            Eval(ops, Cast(operand, to), cx) == if v.Err? then Err(v.error) else ops.cast(to, v.value)
  {
  }

  /** The lists: a coalesce is its first part that is not null, a concat the texts in order, a case its first branch. */
  lemma ListsGive(ops: Ops, part: ValueExpr, parts: seq<ValueExpr>, cx: Ctx, v: Json)
    requires Eval(ops, part, cx) == Ok(v)
    ensures Eval(ops, Coalesce([]), cx) == Ok(JNull) && Eval(ops, Concat([]), cx) == Ok(JString(""))
    ensures Eval(ops, Coalesce([part] + parts), cx) == if v.JNull? then Eval(ops, Coalesce(parts), cx) else Ok(v)
    ensures var text := if ops.toText(v).Some? then ops.toText(v).value else "";
            var rest, r := Eval(ops, Concat(parts), cx), Eval(ops, Concat([part] + parts), cx);
            (rest.Err? ==> r == Err(rest.error)) &&
            (rest.Ok? ==> rest.value.JString? && r == Ok(JString(text + rest.value.s)))
  {
    assert ([part] + parts)[0] == part && ([part] + parts)[1..] == parts;
  }

  lemma CaseGives(ops: Ops, w: CaseWhen, whens: seq<CaseWhen>, otherwise: ValueExpr, cx: Ctx)
    ensures Eval(ops, Case([], otherwise), cx) == Eval(ops, otherwise, cx)
    ensures Eval(ops, Case([w] + whens, otherwise), cx) ==
            if EvalFilter(ops, w.when, cx, None) then Eval(ops, w.result, cx)
            else Eval(ops, Case(whens, otherwise), cx)
  {
    var all := [w] + whens;
    assert all[0] == w && all[1..] == whens;
    assert EvalWhens(ops, all, cx) ==
           if EvalFilter(ops, w.when, cx, None) then Some(EvalBranch(ops, w, cx)) else EvalWhens(ops, whens, cx);
  }
}
