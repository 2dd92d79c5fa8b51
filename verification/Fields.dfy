/** The field walks of core/src/fields.rs and the names they visit. */
module Fields {
  import opened Wire

  /** Names a filter reads, in visiting order. */
  function FilterFields(e: FilterExpr): (r: seq<string>)
    decreases e, 1
  {
    match e
    case And(exprs) => AllFilterFields(exprs)
    case Or(exprs) => AllFilterFields(exprs)
    case Not(inner) => FilterFields(inner)
    case Leaf(field, _) => [field]
  }

  function AllFilterFields(es: seq<FilterExpr>): (r: seq<string>)
    decreases es, 0
  {
    if es == [] then [] else FilterFields(es[0]) + AllFilterFields(es[1..])
  }

  /** Names a value expression reads, in visiting order. */
  function ValueFields(e: ValueExpr): (r: seq<string>)
    decreases e, 1
  {
    match e
    case Field(field) => [field]
    case Literal(_) => []
    case Now => []
    case Concat(parts) => AllValueFields(parts)
    case Coalesce(parts) => AllValueFields(parts)
    case Arith(_, left, right) => ValueFields(left) + ValueFields(right)
    case Text(_, operand) => ValueFields(operand)
    case Cast(operand, _) => ValueFields(operand)
    case Case(whens, otherwise) => AllWhenFields(whens) + ValueFields(otherwise)
  }

  function AllValueFields(es: seq<ValueExpr>): (r: seq<string>)
    decreases es, 0
  {
    if es == [] then [] else ValueFields(es[0]) + AllValueFields(es[1..])
  }

  function AllWhenFields(ws: seq<CaseWhen>): (r: seq<string>)
    decreases ws, 0
  {
    if ws == [] then [] else WhenFields(ws[0]) + AllWhenFields(ws[1..])
  }

  function WhenFields(w: CaseWhen): (r: seq<string>)
    decreases w, 0
  {
    FilterFields(w.when) + ValueFields(w.result)
  }

  /** Names come in the order of the text: left before right, a branch's test before its result, the default last. */
  lemma ReadsInOrder(op: ArithOp, left: ValueExpr, right: ValueExpr, whens: seq<CaseWhen>, w: CaseWhen)
    ensures ValueFields(Arith(op, left, right)) == ValueFields(left) + ValueFields(right)
    ensures ValueFields(Case([w] + whens, right)) ==
            FilterFields(w.when) + ValueFields(w.result) + ValueFields(Case(whens, right))
    ensures ValueFields(Case([], right)) == ValueFields(right)
  {
    assert ([w] + whens)[0] == w && ([w] + whens)[1..] == whens;
    assert AllWhenFields([w] + whens) == WhenFields(w) + AllWhenFields(whens);
  }

  lemma {:induction false} AllFilterFieldsAppend(es: seq<FilterExpr>, e: FilterExpr)
    ensures AllFilterFields(es + [e]) == AllFilterFields(es) + FilterFields(e)
  {
    if es == [] {
      assert [e][1..] == [];
    } else {
      assert (es + [e])[1..] == es[1..] + [e];
      AllFilterFieldsAppend(es[1..], e);
    }
  }

  lemma {:induction false} AllValueFieldsAppend(es: seq<ValueExpr>, e: ValueExpr)
    ensures AllValueFields(es + [e]) == AllValueFields(es) + ValueFields(e)
  {
    if es == [] {
      assert [e][1..] == [];
    } else {
      assert (es + [e])[1..] == es[1..] + [e];
      AllValueFieldsAppend(es[1..], e);
    }
  }

  lemma {:induction false} AllWhenFieldsAppend(ws: seq<CaseWhen>, w: CaseWhen)
    ensures AllWhenFields(ws + [w]) == AllWhenFields(ws) + WhenFields(w)
  {
    if ws == [] {
      assert [w][1..] == [];
    } else {
      assert (ws + [w])[1..] == ws[1..] + [w];
      AllWhenFieldsAppend(ws[1..], w);
    }
  }

  /** The mutable `FnMut(&str)` callback: it records what it is handed. */
  class Visitor {
    var visited: seq<string>

    constructor ()
      ensures visited == []
    {
      visited := [];
    }

    method Visit(field: string)
      modifies this
      ensures visited == old(visited) + [field]
    {
      visited := visited + [field];
    }
  }

  method WalkFilterExprFields(e: FilterExpr, f: Visitor)
    modifies f
    ensures f.visited == old(f.visited) + FilterFields(e)
    decreases e
  {
    match e
    case And(exprs) => WalkAllFilters(exprs, f);
    case Or(exprs) => WalkAllFilters(exprs, f);
    case Not(inner) => WalkFilterExprFields(inner, f);
    case Leaf(field, _) => f.Visit(field);
  }

  method WalkAllFilters(exprs: seq<FilterExpr>, f: Visitor)
    modifies f
    ensures f.visited == old(f.visited) + AllFilterFields(exprs)
    decreases exprs
  {
    for i := 0 to |exprs|
      invariant f.visited == old(f.visited) + AllFilterFields(exprs[..i])
    {
      WalkFilterExprFields(exprs[i], f);
      AllFilterFieldsAppend(exprs[..i], exprs[i]);
      assert exprs[..i + 1] == exprs[..i] + [exprs[i]];
    }
    assert exprs[..|exprs|] == exprs;
  }

  method WalkValueExprFields(e: ValueExpr, f: Visitor)
    modifies f
    ensures f.visited == old(f.visited) + ValueFields(e)
    decreases e
  {
    match e
    case Field(field) => f.Visit(field);
    case Literal(_) =>
    case Now =>
    case Concat(parts) => WalkAllValues(parts, f);
    case Coalesce(parts) => WalkAllValues(parts, f);
    case Arith(_, left, right) =>
      WalkValueExprFields(left, f);
      WalkValueExprFields(right, f);
    case Text(_, operand) => WalkValueExprFields(operand, f);
    case Cast(operand, _) => WalkValueExprFields(operand, f);
    case Case(whens, otherwise) =>
      WalkAllWhens(whens, f);
      WalkValueExprFields(otherwise, f);
  }

  method WalkAllWhens(whens: seq<CaseWhen>, f: Visitor)
    modifies f
    ensures f.visited == old(f.visited) + AllWhenFields(whens)
    decreases whens
  {
    for i := 0 to |whens|
      invariant f.visited == old(f.visited) + AllWhenFields(whens[..i])
    {
      WalkWhen(whens[i], f);
      AllWhenFieldsAppend(whens[..i], whens[i]);
      assert whens[..i + 1] == whens[..i] + [whens[i]];
    }
    assert whens[..|whens|] == whens;
  }

  method WalkWhen(w: CaseWhen, f: Visitor)
    modifies f
    ensures f.visited == old(f.visited) + WhenFields(w)
    decreases w
  {
    WalkFilterExprFields(w.when, f);
    WalkValueExprFields(w.result, f);
  }

  method WalkAllValues(parts: seq<ValueExpr>, f: Visitor)
    modifies f
    ensures f.visited == old(f.visited) + AllValueFields(parts)
    decreases parts
  {
    for i := 0 to |parts|
      invariant f.visited == old(f.visited) + AllValueFields(parts[..i])
    {
      WalkValueExprFields(parts[i], f);
      AllValueFieldsAppend(parts[..i], parts[i]);
      assert parts[..i + 1] == parts[..i] + [parts[i]];
    }
    assert parts[..|parts|] == parts;
  }
}
