/** The field rename of core/src/engine.rs and its laws against the field walk. */
module Rename {
  import opened Wire
  import opened Fields

  type Renaming = string -> string

  /** The rewrite of one name: `if field == from { *field = to }`. */
  function Replaced<T(==)>(x: T, from: T, to: T): T {
    if x == from then to else x
  }

  function Subst(from: string, to: string): Renaming {
    x => Replaced(x, from, to)
  }

  function Identity(): Renaming {
    x => x
  }

  function Then(rho: Renaming, sigma: Renaming): Renaming {
    x => sigma(rho(x))
  }

  // ---------- the rewritten expression ----------

  function RenamedFilter(e: FilterExpr, rho: Renaming): (r: FilterExpr)
    decreases e, 1
  {
    match e
    case And(exprs) => And(RenamedFilters(exprs, rho))
    case Or(exprs) => Or(RenamedFilters(exprs, rho))
    case Not(inner) => Not(RenamedFilter(inner, rho))
    case Leaf(field, test) => Leaf(rho(field), test)
  }

  function RenamedFilters(es: seq<FilterExpr>, rho: Renaming): (r: seq<FilterExpr>)
    ensures |r| == |es| && forall i | 0 <= i < |es| :: r[i] == RenamedFilter(es[i], rho)
    decreases es, 0
  {
    if es == [] then [] else [RenamedFilter(es[0], rho)] + RenamedFilters(es[1..], rho)
  }

  function RenamedValue(e: ValueExpr, rho: Renaming): (r: ValueExpr)
    decreases e, 1
  {
    match e
    case Field(field) => Field(rho(field))
    case Literal(_) => e
    case Now => e
    case Concat(parts) => Concat(RenamedValues(parts, rho))
    case Coalesce(parts) => Coalesce(RenamedValues(parts, rho))
    case Arith(op, left, right) => Arith(op, RenamedValue(left, rho), RenamedValue(right, rho))
    case Text(op, operand) => Text(op, RenamedValue(operand, rho))
    case Cast(operand, to) => Cast(RenamedValue(operand, rho), to)
    case Case(whens, otherwise) => Case(RenamedWhens(whens, rho), RenamedValue(otherwise, rho))
  }

  function RenamedValues(es: seq<ValueExpr>, rho: Renaming): (r: seq<ValueExpr>)
    ensures |r| == |es| && forall i | 0 <= i < |es| :: r[i] == RenamedValue(es[i], rho)
    decreases es, 0
  {
    if es == [] then [] else [RenamedValue(es[0], rho)] + RenamedValues(es[1..], rho)
  }

  function RenamedWhen(w: CaseWhen, rho: Renaming): (r: CaseWhen)
    decreases w, 0
  {
    CaseWhen(RenamedFilter(w.when, rho), RenamedValue(w.result, rho))
  }

  function RenamedWhens(ws: seq<CaseWhen>, rho: Renaming): (r: seq<CaseWhen>)
    ensures |r| == |ws| && forall i | 0 <= i < |ws| :: r[i] == RenamedWhen(ws[i], rho)
    decreases ws, 0
  {
    if ws == [] then [] else [RenamedWhen(ws[0], rho)] + RenamedWhens(ws[1..], rho)
  }

  // ---------- the in-place passes ----------

  method RenameFilterFields(e: FilterExpr, from: string, to: string) returns (r: FilterExpr)
    ensures r == RenamedFilter(e, Subst(from, to))
    decreases e
  {
    match e
    case And(exprs) =>
      var renamed := RenameAllFilters(exprs, from, to);
      r := And(renamed);
    case Or(exprs) =>
      var renamed := RenameAllFilters(exprs, from, to);
      r := Or(renamed);
    case Not(inner) =>
      var renamed := RenameFilterFields(inner, from, to);
      r := Not(renamed);
    case Leaf(field, test) =>
      r := e;
      if field == from {
        r := Leaf(to, test);
      }
  }

  method RenameAllFilters(exprs: seq<FilterExpr>, from: string, to: string) returns (r: seq<FilterExpr>)
    ensures r == RenamedFilters(exprs, Subst(from, to))
    decreases exprs
  {
    r := exprs;
    for i := 0 to |exprs|
      invariant |r| == |exprs|
      invariant forall j | 0 <= j < i :: r[j] == RenamedFilter(exprs[j], Subst(from, to))
      invariant forall j | i <= j < |exprs| :: r[j] == exprs[j]
    {
      var renamed := RenameFilterFields(exprs[i], from, to);
      r := r[i := renamed];
    }
  }

  method RenameValueExprFields(e: ValueExpr, from: string, to: string) returns (r: ValueExpr)
    ensures r == RenamedValue(e, Subst(from, to))
    decreases e
  {
    match e
    case Field(field) => r := if field == from then Field(to) else e;
    case Literal(_) => r := e;
    case Now => r := e;
    case Concat(parts) =>
      var renamed := RenameAllValues(parts, from, to);
      r := Concat(renamed);
    case Coalesce(parts) =>
      var renamed := RenameAllValues(parts, from, to);
      r := Coalesce(renamed);
    case Arith(op, left, right) =>
      var l := RenameValueExprFields(left, from, to);
      var rr := RenameValueExprFields(right, from, to);
      r := Arith(op, l, rr);
    case Text(op, operand) =>
      var renamed := RenameValueExprFields(operand, from, to);
      r := Text(op, renamed);
    case Cast(operand, target) =>
      var renamed := RenameValueExprFields(operand, from, to);
      r := Cast(renamed, target);
    case Case(whens, otherwise) =>
      var ws := RenameAllWhens(whens, from, to);
      var o := RenameValueExprFields(otherwise, from, to);
      r := Case(ws, o);
  }

  method RenameAllValues(parts: seq<ValueExpr>, from: string, to: string) returns (r: seq<ValueExpr>)
    ensures r == RenamedValues(parts, Subst(from, to))
    decreases parts
  {
    r := parts;
    for i := 0 to |parts|
      invariant |r| == |parts|
      invariant forall j | 0 <= j < i :: r[j] == RenamedValue(parts[j], Subst(from, to))
      invariant forall j | i <= j < |parts| :: r[j] == parts[j]
    {
      var renamed := RenameValueExprFields(parts[i], from, to);
      r := r[i := renamed];
    }
  }

  method RenameAllWhens(whens: seq<CaseWhen>, from: string, to: string) returns (r: seq<CaseWhen>)
    ensures r == RenamedWhens(whens, Subst(from, to))
    decreases whens
  {
    r := whens;
    for i := 0 to |whens|
      invariant |r| == |whens|
      invariant forall j | 0 <= j < i :: r[j] == RenamedWhen(whens[j], Subst(from, to))
      invariant forall j | i <= j < |whens| :: r[j] == whens[j]
    {
      var renamed := RenameWhen(whens[i], from, to);
      r := r[i := renamed];
    }
  }

  method RenameWhen(w: CaseWhen, from: string, to: string) returns (r: CaseWhen)
    ensures r == RenamedWhen(w, Subst(from, to))
    decreases w
  {
    var cond := RenameFilterFields(w.when, from, to);
    var result := RenameValueExprFields(w.result, from, to);
    r := CaseWhen(cond, result);
  }

  // ---------- renaming acts on the visited names ----------

  function MapNames(xs: seq<string>, rho: Renaming): (r: seq<string>) {
    seq(|xs|, i requires 0 <= i < |xs| => rho(xs[i]))
  }

  lemma MapNamesAppend(xs: seq<string>, ys: seq<string>, rho: Renaming)
    ensures MapNames(xs + ys, rho) == MapNames(xs, rho) + MapNames(ys, rho)
  {
  }

  /** Renaming a filter visits the renamed names, composes, and is the identity for `Identity`. */
  lemma {:induction false} FilterLaws(e: FilterExpr, rho: Renaming, sigma: Renaming)
    ensures FilterFields(RenamedFilter(e, rho)) == MapNames(FilterFields(e), rho)
    ensures RenamedFilter(RenamedFilter(e, rho), sigma) == RenamedFilter(e, Then(rho, sigma))
    ensures RenamedFilter(e, Identity()) == e
    decreases e, 1
  {
    match e
    case And(exprs) => FiltersLaws(exprs, rho, sigma);
    case Or(exprs) => FiltersLaws(exprs, rho, sigma);
    case Not(inner) => FilterLaws(inner, rho, sigma);
    case Leaf(_, _) =>
  }

  lemma {:induction false} FiltersLaws(es: seq<FilterExpr>, rho: Renaming, sigma: Renaming)
    ensures AllFilterFields(RenamedFilters(es, rho)) == MapNames(AllFilterFields(es), rho)
    ensures RenamedFilters(RenamedFilters(es, rho), sigma) == RenamedFilters(es, Then(rho, sigma))
    ensures RenamedFilters(es, Identity()) == es
    decreases es, 0
  {
    if es == [] {
    } else {
      FilterLaws(es[0], rho, sigma);
      FiltersLaws(es[1..], rho, sigma);
      MapNamesAppend(FilterFields(es[0]), AllFilterFields(es[1..]), rho);
      assert RenamedFilters(es, rho)[1..] == RenamedFilters(es[1..], rho);
    }
  }

  /** The same three laws for value expressions, through the nested filters. */
  lemma {:induction false} ValueLaws(e: ValueExpr, rho: Renaming, sigma: Renaming)
    ensures ValueFields(RenamedValue(e, rho)) == MapNames(ValueFields(e), rho)
    ensures RenamedValue(RenamedValue(e, rho), sigma) == RenamedValue(e, Then(rho, sigma))
    ensures RenamedValue(e, Identity()) == e
    decreases e, 1
  {
    match e
    case Field(_) =>
    case Literal(_) =>
    case Now =>
    case Concat(parts) => ValuesLaws(parts, rho, sigma);
    case Coalesce(parts) => ValuesLaws(parts, rho, sigma);
    case Arith(_, _, _) => ArithLaws(e, rho, sigma);
    case Text(_, operand) => ValueLaws(operand, rho, sigma);
    case Cast(operand, _) => ValueLaws(operand, rho, sigma);
    case Case(_, _) => CaseLaws(e, rho, sigma);
  }

  lemma {:induction false} ArithLaws(e: ValueExpr, rho: Renaming, sigma: Renaming)
    requires e.Arith?
    ensures ValueFields(RenamedValue(e, rho)) == MapNames(ValueFields(e), rho)
    ensures RenamedValue(RenamedValue(e, rho), sigma) == RenamedValue(e, Then(rho, sigma))
    ensures RenamedValue(e, Identity()) == e
    decreases e, 0
  {
    ValueLaws(e.left, rho, sigma);
    ValueLaws(e.right, rho, sigma);
    MapNamesAppend(ValueFields(e.left), ValueFields(e.right), rho);
  }

  lemma {:induction false} CaseLaws(e: ValueExpr, rho: Renaming, sigma: Renaming)
    requires e.Case?
    ensures ValueFields(RenamedValue(e, rho)) == MapNames(ValueFields(e), rho)
    ensures RenamedValue(RenamedValue(e, rho), sigma) == RenamedValue(e, Then(rho, sigma))
    ensures RenamedValue(e, Identity()) == e
    decreases e, 0
  {
    WhensLaws(e.whens, rho, sigma);
    ValueLaws(e.otherwise, rho, sigma);
    MapNamesAppend(AllWhenFields(e.whens), ValueFields(e.otherwise), rho);
  }

  lemma {:induction false} ValuesLaws(es: seq<ValueExpr>, rho: Renaming, sigma: Renaming)
    ensures AllValueFields(RenamedValues(es, rho)) == MapNames(AllValueFields(es), rho)
    ensures RenamedValues(RenamedValues(es, rho), sigma) == RenamedValues(es, Then(rho, sigma))
    ensures RenamedValues(es, Identity()) == es
    decreases es, 0
  {
    if es == [] {
    } else {
      ValueLaws(es[0], rho, sigma);
      ValuesLaws(es[1..], rho, sigma);
      MapNamesAppend(ValueFields(es[0]), AllValueFields(es[1..]), rho);
      assert RenamedValues(es, rho)[1..] == RenamedValues(es[1..], rho);
    }
  }

  lemma {:induction false} WhenLaws(w: CaseWhen, rho: Renaming, sigma: Renaming)
    ensures WhenFields(RenamedWhen(w, rho)) == MapNames(WhenFields(w), rho)
    ensures RenamedWhen(RenamedWhen(w, rho), sigma) == RenamedWhen(w, Then(rho, sigma))
    ensures RenamedWhen(w, Identity()) == w
    decreases w, 0
  {
    FilterLaws(w.when, rho, sigma);
    ValueLaws(w.result, rho, sigma);
    MapNamesAppend(FilterFields(w.when), ValueFields(w.result), rho);
  }

  lemma {:induction false} WhensLaws(ws: seq<CaseWhen>, rho: Renaming, sigma: Renaming)
    ensures AllWhenFields(RenamedWhens(ws, rho)) == MapNames(AllWhenFields(ws), rho)
    ensures RenamedWhens(RenamedWhens(ws, rho), sigma) == RenamedWhens(ws, Then(rho, sigma))
    ensures RenamedWhens(ws, Identity()) == ws
    decreases ws, 0
  {
    if ws == [] {
    } else {
      WhenLaws(ws[0], rho, sigma);
      WhensLaws(ws[1..], rho, sigma);
      MapNamesAppend(WhenFields(ws[0]), AllWhenFields(ws[1..]), rho);
      assert RenamedWhens(ws, rho)[1..] == RenamedWhens(ws[1..], rho);
    }
  }

  // ---------- two renamings give one result exactly when they agree on the visited names ----------

  ghost predicate AgreeOn(xs: seq<string>, rho: Renaming, tau: Renaming) {
    forall x | x in xs :: rho(x) == tau(x)
  }

  lemma AgreeOnAppend(xs: seq<string>, ys: seq<string>, rho: Renaming, tau: Renaming)
    ensures AgreeOn(xs + ys, rho, tau) <==> AgreeOn(xs, rho, tau) && AgreeOn(ys, rho, tau)
  {
  }

  lemma {:induction false} FilterAgreement(e: FilterExpr, rho: Renaming, tau: Renaming)
    ensures RenamedFilter(e, rho) == RenamedFilter(e, tau) <==> AgreeOn(FilterFields(e), rho, tau)
    decreases e, 1
  {
    match e
    case And(exprs) => FiltersAgreement(exprs, rho, tau);
    case Or(exprs) => FiltersAgreement(exprs, rho, tau);
    case Not(inner) => FilterAgreement(inner, rho, tau);
    case Leaf(field, _) => assert field in FilterFields(e);
  }

  lemma {:induction false} FiltersAgreement(es: seq<FilterExpr>, rho: Renaming, tau: Renaming)
    ensures RenamedFilters(es, rho) == RenamedFilters(es, tau) <==> AgreeOn(AllFilterFields(es), rho, tau)
    decreases es, 0
  {
    if es == [] {
    } else {
      FilterAgreement(es[0], rho, tau);
      FiltersAgreement(es[1..], rho, tau);
      AgreeOnAppend(FilterFields(es[0]), AllFilterFields(es[1..]), rho, tau);
      assert RenamedFilters(es, rho)[1..] == RenamedFilters(es[1..], rho);
      assert RenamedFilters(es, tau)[1..] == RenamedFilters(es[1..], tau);
    }
  }

  /** Renamings give the same expression exactly when they agree on every visited name. */
  lemma {:induction false} ValueAgreement(e: ValueExpr, rho: Renaming, tau: Renaming)
    ensures RenamedValue(e, rho) == RenamedValue(e, tau) <==> AgreeOn(ValueFields(e), rho, tau)
    decreases e, 1
  {
    match e
    case Field(field) => assert field in ValueFields(e);
    case Literal(_) =>
    case Now =>
    case Concat(parts) => ValuesAgreement(parts, rho, tau);
    case Coalesce(parts) => ValuesAgreement(parts, rho, tau);
    case Arith(_, left, right) =>
      ValueAgreement(left, rho, tau);
      ValueAgreement(right, rho, tau);
      AgreeOnAppend(ValueFields(left), ValueFields(right), rho, tau);
    case Text(_, operand) => ValueAgreement(operand, rho, tau);
    case Cast(operand, _) => ValueAgreement(operand, rho, tau);
    case Case(whens, otherwise) =>
      WhensAgreement(whens, rho, tau);
      ValueAgreement(otherwise, rho, tau);
      AgreeOnAppend(AllWhenFields(whens), ValueFields(otherwise), rho, tau);
  }

  lemma {:induction false} ValuesAgreement(es: seq<ValueExpr>, rho: Renaming, tau: Renaming)
    ensures RenamedValues(es, rho) == RenamedValues(es, tau) <==> AgreeOn(AllValueFields(es), rho, tau)
    decreases es, 0
  {
    if es == [] {
    } else {
      ValueAgreement(es[0], rho, tau);
      ValuesAgreement(es[1..], rho, tau);
      AgreeOnAppend(ValueFields(es[0]), AllValueFields(es[1..]), rho, tau);
      assert RenamedValues(es, rho)[1..] == RenamedValues(es[1..], rho);
      assert RenamedValues(es, tau)[1..] == RenamedValues(es[1..], tau);
    }
  }

  lemma {:induction false} WhenAgreement(w: CaseWhen, rho: Renaming, tau: Renaming)
    ensures RenamedWhen(w, rho) == RenamedWhen(w, tau) <==> AgreeOn(WhenFields(w), rho, tau)
    decreases w, 0
  {
    FilterAgreement(w.when, rho, tau);
    ValueAgreement(w.result, rho, tau);
    AgreeOnAppend(FilterFields(w.when), ValueFields(w.result), rho, tau);
  }

  lemma {:induction false} WhensAgreement(ws: seq<CaseWhen>, rho: Renaming, tau: Renaming)
    ensures RenamedWhens(ws, rho) == RenamedWhens(ws, tau) <==> AgreeOn(AllWhenFields(ws), rho, tau)
    decreases ws, 0
  {
    if ws == [] {
    } else {
      WhenAgreement(ws[0], rho, tau);
      WhensAgreement(ws[1..], rho, tau);
      AgreeOnAppend(WhenFields(ws[0]), AllWhenFields(ws[1..]), rho, tau);
      assert RenamedWhens(ws, rho)[1..] == RenamedWhens(ws[1..], rho);
      assert RenamedWhens(ws, tau)[1..] == RenamedWhens(ws[1..], tau);
    }
  }

  // ---------- consequences for the rename of one field ----------

  /** A rename changes nothing exactly when `from` is not read (or the names coincide). */
  lemma RenameIsIdentityExactly(e: ValueExpr, from: string, to: string)
    ensures RenamedValue(e, Subst(from, to)) == e <==> from == to || from !in ValueFields(e)
  {
    ValueLaws(e, Identity(), Identity());
    ValueAgreement(e, Subst(from, to), Identity());
  }

  lemma FilterRenameIsIdentityExactly(e: FilterExpr, from: string, to: string)
    ensures RenamedFilter(e, Subst(from, to)) == e <==> from == to || from !in FilterFields(e)
  {
    FilterLaws(e, Identity(), Identity());
    FilterAgreement(e, Subst(from, to), Identity());
  }

  /** Renaming back restores the expression exactly when `to` was not read before (or is `from`). */
  lemma RenameUndoesExactly(e: ValueExpr, from: string, to: string)
    ensures RenamedValue(RenamedValue(e, Subst(from, to)), Subst(to, from)) == e
            <==> from == to || to !in ValueFields(e)
  {
    ValueRoundTrip(e, Subst(from, to), Subst(to, from));
    UndoAgrees(ValueFields(e), from, to);
  }

  /** Filters too: renaming back restores them when `to` was not read before. */
  lemma RenameUndoesFilter(e: FilterExpr, from: string, to: string)
    ensures RenamedFilter(RenamedFilter(e, Subst(from, to)), Subst(to, from)) == e
            <==> from == to || to !in FilterFields(e)
  {
    FilterRoundTrip(e, Subst(from, to), Subst(to, from));
    UndoAgrees(FilterFields(e), from, to);
  }

  lemma ValueRoundTrip(e: ValueExpr, rho: Renaming, sigma: Renaming)
    ensures RenamedValue(RenamedValue(e, rho), sigma) == e
            <==> AgreeOn(ValueFields(e), Then(rho, sigma), Identity())
  {
    ValueLaws(e, rho, sigma);
    ValueAgreement(e, Then(rho, sigma), Identity());
  }

  lemma FilterRoundTrip(e: FilterExpr, rho: Renaming, sigma: Renaming)
    ensures RenamedFilter(RenamedFilter(e, rho), sigma) == e
            <==> AgreeOn(FilterFields(e), Then(rho, sigma), Identity())
  {
    FilterLaws(e, rho, sigma);
    FilterAgreement(e, Then(rho, sigma), Identity());
  }

  lemma UndoAgrees(xs: seq<string>, from: string, to: string)
    ensures AgreeOn(xs, Then(Subst(from, to), Subst(to, from)), Identity()) <==> from == to || to !in xs
  {
    forall x ensures Then(Subst(from, to), Subst(to, from))(x) == Identity()(x) <==> from == to || x != to {
      ReplacedBack(x, from, to);
    }
  }

  lemma ReplacedBack<T>(x: T, from: T, to: T)
    ensures Replaced(Replaced(x, from, to), to, from) == x <==> from == to || x != to
  {
  }

  /** Two renamings commute on an expression exactly when the two orders agree on every name it reads. */
  lemma RenamesCommuteExactly(e: ValueExpr, rho: Renaming, sigma: Renaming)
    ensures RenamedValue(RenamedValue(e, rho), sigma) == RenamedValue(RenamedValue(e, sigma), rho)
            <==> AgreeOn(ValueFields(e), Then(rho, sigma), Then(sigma, rho))
  {
    ValueLaws(e, rho, sigma);
    ValueLaws(e, sigma, rho);
    ValueAgreement(e, Then(rho, sigma), Then(sigma, rho));
  }

  lemma FilterRenamesCommuteExactly(e: FilterExpr, rho: Renaming, sigma: Renaming)
    ensures RenamedFilter(RenamedFilter(e, rho), sigma) == RenamedFilter(RenamedFilter(e, sigma), rho)
            <==> AgreeOn(FilterFields(e), Then(rho, sigma), Then(sigma, rho))
  {
    FilterLaws(e, rho, sigma);
    FilterLaws(e, sigma, rho);
    FilterAgreement(e, Then(rho, sigma), Then(sigma, rho));
  }

  /** Renames of different fields to names the other does not move always commute. */
  lemma IndependentRenamesCommute(e: ValueExpr, a: string, b: string, c: string, d: string)
    requires a != c && a != d && b != c
    ensures RenamedValue(RenamedValue(e, Subst(a, b)), Subst(c, d))
            == RenamedValue(RenamedValue(e, Subst(c, d)), Subst(a, b))
  {
    IndependentSubstsAgree(ValueFields(e), a, b, c, d);
    RenamesCommuteExactly(e, Subst(a, b), Subst(c, d));
  }

  lemma IndependentFilterRenamesCommute(e: FilterExpr, a: string, b: string, c: string, d: string)
    requires a != c && a != d && b != c
    ensures RenamedFilter(RenamedFilter(e, Subst(a, b)), Subst(c, d))
            == RenamedFilter(RenamedFilter(e, Subst(c, d)), Subst(a, b))
  {
    IndependentSubstsAgree(FilterFields(e), a, b, c, d);
    FilterRenamesCommuteExactly(e, Subst(a, b), Subst(c, d));
  }

  lemma IndependentSubstsAgree(xs: seq<string>, a: string, b: string, c: string, d: string)
    requires a != c && a != d && b != c
    ensures AgreeOn(xs, Then(Subst(a, b), Subst(c, d)), Then(Subst(c, d), Subst(a, b)))
  {
    forall x | x in xs { SubstsCommute(x, a, b, c, d); }
  }

  lemma SubstsCommute(x: string, a: string, b: string, c: string, d: string)
    requires a != c && a != d && b != c
    ensures Then(Subst(a, b), Subst(c, d))(x) == Then(Subst(c, d), Subst(a, b))(x)
  {
    ReplacementsCommute(x, a, b, c, d);
  }

  lemma ReplacementsCommute<T>(x: T, a: T, b: T, c: T, d: T)
    requires a != c && a != d && b != c
    ensures Replaced(Replaced(x, a, b), c, d) == Replaced(Replaced(x, c, d), a, b)
  {
  }
}
