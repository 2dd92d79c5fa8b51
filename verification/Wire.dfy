/**
 The expression grammars of core/src/wire.rs. Every leaf of a filter carries one
 field, so the leaves share a constructor; so do the four arithmetic nodes and the
 three text nodes, which every function in the source treats alike.
 */
module Wire {
  import opened Json

  datatype CompareOp = Eq | Neq | Gt | Gte | Lt | Lte
  datatype ArithOp = Add | Sub | Mul | Div
  datatype TextOp = Lower | Upper | Trim
  datatype CastTarget = ToString | ToNumber | ToInt64 | ToBoolean

  /** What a leaf asks of the one field it names. */
  datatype LeafTest =
    | Compare(op: CompareOp, value: Json)
    | In(values: seq<Json>)
    | Contains(value: Json)
    | Exists
    | OlderThan(ms: int)

  datatype FilterExpr =
    | Leaf(field: string, test: LeafTest)
    | And(exprs: seq<FilterExpr>)
    | Or(exprs: seq<FilterExpr>)
    | Not(expr: FilterExpr)

  datatype ValueExpr =
    | Field(field: string)
    | Literal(value: Json)
    | Concat(parts: seq<ValueExpr>)
    | Coalesce(parts: seq<ValueExpr>)
    | Arith(arith: ArithOp, left: ValueExpr, right: ValueExpr)
    | Text(text: TextOp, operand: ValueExpr)
    | Cast(operand: ValueExpr, to: CastTarget)
    | Now
    | Case(whens: seq<CaseWhen>, otherwise: ValueExpr)

  datatype CaseWhen = CaseWhen(when: FilterExpr, result: ValueExpr)
}
