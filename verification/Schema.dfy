/** Field types and the type-change classification of core/src/schema.rs. */
module Schema {
  import opened Wrappers
  import opened Json
  import opened Wire

  datatype OnDeleteAction = Cascade | Restrict | SetNull

  datatype FieldType =
    | String
    | Number
    | Boolean
    | Null
    | Id(table: string, onDelete: Option<OnDeleteAction>)
    | Literal(value: Json)
    | Optional(inner: FieldType)
    | Union(variants: seq<FieldType>)
    | Array(element: FieldType)
    | Object(fields: map<string, FieldType>)
    | Int64
    | Bytes
    | Any
    | Record(valueType: FieldType)
    | Vector(dimensions: nat)

  datatype DistanceMetric = Cosine | L2 | Ip
  datatype VectorIndexSpec =
    VectorIndexSpec(dimensions: nat, filterFields: seq<string>, metric: DistanceMetric)

  datatype IndexDef = IndexDef(
    name: string,
    fields: seq<string>,
    search: bool,
    trgm: bool,
    vector: Option<VectorIndexSpec>,
    unique: bool,
    filter: Option<FilterExpr>,
    language: Option<string>)

  datatype TtlDef = TtlDef(field: string, defaultDurationMs: Option<I64>)
  datatype FieldConstraints = FieldConstraints(
    min: Option<Number>,
    max: Option<Number>,
    minLength: Option<nat>,
    maxLength: Option<nat>,
    pattern: Option<string>)

  /** A table without its descriptions, which no modelled operation reads or rewrites. */
  datatype TableDef = TableDef(
    fields: map<string, FieldType>,
    indexes: seq<IndexDef>,
    ownerField: Option<string>,
    collaboratorsField: Option<string>,
    ttl: Option<TtlDef>,
    updatedAtField: Option<string>,
    autoIncrementField: Option<string>,
    authorize: Option<FilterExpr>,
    defaults: map<string, Json>,
    constraints: map<string, FieldConstraints>,
    computed: map<string, ValueExpr>,
    softDelete: bool,
    insertOnly: bool)

  /** A table that declares only fields and indexes. */
  function PlainTable(fields: map<string, FieldType>, indexes: seq<IndexDef>): TableDef {
    TableDef(fields, indexes, None, None, None, None, None, None, map[], map[], map[], false, false)
  }

  type SchemaDef = map<string, TableDef>

  /** Drops every `onDelete` action, at any depth, keeping the referenced tables. */
  function StripOnDelete(ty: FieldType): (r: FieldType)
    ensures r.Optional? == ty.Optional? && r.Literal? == ty.Literal?
    ensures ty.Literal? ==> r == ty
  {
    if ty.Id? then Id(ty.table, None)
    else if ty.Optional? then Optional(StripOnDelete(ty.inner))
    else if ty.Union? then
      Union(seq(|ty.variants|, i requires 0 <= i < |ty.variants| => StripOnDelete(ty.variants[i])))
    else if ty.Array? then Array(StripOnDelete(ty.element))
    else if ty.Object? then Object(map k | k in ty.fields :: StripOnDelete(ty.fields[k]))
    else if ty.Record? then Record(StripOnDelete(ty.valueType))
    else ty
  }

  /** `filter_map` over the variants: the values of those that are literals. */
  function LiteralValues(variants: seq<FieldType>): (vals: seq<Json>)
    ensures |vals| <= |variants|
  {
    if variants == [] then []
    else if variants[0].Literal? then [variants[0].value] + LiteralValues(variants[1..])
    else LiteralValues(variants[1..])
  }

  /** Accepted values of a lone literal or a nonempty union of literals only. */
  function LiteralSet(ty: FieldType): (r: Option<seq<Json>>) {
    match ty
    case Literal(value) => Some([value])
    case Union(variants) =>
      var vals := LiteralValues(variants);
      if |vals| == |variants| && variants != [] then Some(vals) else None
    case _ => None
  }

  predicate IsLiteralWidening(prev: FieldType, next: FieldType) {
    var o, n := LiteralSet(prev), LiteralSet(next);
    o.Some? && n.Some? && forall v | v in o.value :: v in n.value
  }

  /** The object-shape half: arrays recurse at every layer, objects compare field maps. */
  predicate IsObjectShapeWidening(prev: FieldType, next: FieldType)
    decreases prev, 0
  {
    if prev.Array? && next.Array? then
      IsObjectShapeWidening(prev.element, next.element)
    else if prev.Object? && next.Object? then
      var o, n := prev.fields, next.fields;
      (forall k | k in o :: k in n && !IsTypeChangeRejected(o[k], n[k])) &&
      (forall k | k in n :: k in o || n[k].Optional?)
    else false
  }

  predicate IsWideningOf(prev: FieldType, next: FieldType)
    decreases prev, 1
  {
    IsLiteralWidening(prev, next) || IsObjectShapeWidening(prev, next)
  }

  predicate IsTypeChangeRejected(prev: FieldType, next: FieldType)
    decreases prev, 2
  {
    StripOnDelete(next) != StripOnDelete(prev) && !IsWideningOf(prev, next)
  }
}
