/**
 `json_eq` (core/src/field_guard.rs): deep equality in which an integer and a
 float that denote the same number are equal.
 */
module JsonEquality {
  import opened Wrappers
  import opened Doubles
  import opened Json

  /** The closure `integer`: exact integer value when the number has one below 2^127. */
  function IntegerOf(n: Number): (r: Option<int>) {
    if n.AsI64().Some? then n.AsI64()
    else if n.AsU64().Some? then n.AsU64()
    else
      var v := n.AsF64();
      if v.Floor as real == v && Abs(v) < TWO127 as real then Some(v.Floor) else None
  }

  predicate NumberEq(a: Number, b: Number) {
    var x, y := IntegerOf(a), IntegerOf(b);
    if x.Some? && y.Some? then x == y else a.AsF64() == b.AsF64()
  }

  predicate JsonEq(left: Json, right: Json) {
    match (left, right)
    case (JNumber(a), JNumber(b)) => NumberEq(a, b)
    case (JArray(a), JArray(b)) =>
      |a| == |b| && forall i | 0 <= i < |a| :: JsonEq(a[i], b[i])
    case (JObject(a), JObject(b)) =>
      |a| == |b| && forall k | k in a :: k in b && JsonEq(a[k], b[k])
    case _ => left == right
  }

  // ---------- reference: compare the exact mathematical contents ----------

  /** A JSON value with every number replaced by the real it denotes. */
  datatype Exact =
    | ENull
    | EBool(b: bool)
    | ENumber(value: real)
    | EString(s: string)
    | EArray(items: seq<Exact>)
    | EObject(fields: map<string, Exact>)

  ghost function ExactOf(v: Json): (e: Exact) {
    match v
    case JNull => ENull
    case JBool(b) => EBool(b)
    case JNumber(n) => ENumber(n.Exact())
    case JString(s) => EString(s)
    case JArray(items) => EArray(seq(|items|, i requires 0 <= i < |items| => ExactOf(items[i])))
    case JObject(fields) => EObject(map k | k in fields :: ExactOf(fields[k]))
  }

  /** A number without an integer form is a float that no 64-bit integer rounds to. */
  lemma NoIntegerForm(n: Number, other: Number)
    requires IntegerOf(n).None?
    ensures n.Float? && n.AsF64() == n.Exact()
    ensures !other.Float? ==> other.AsF64() != n.AsF64() && other.Exact() != n.Exact()
  {
    match other
    case PosInt(k) => RoundNatIsDouble(k);
    case NegInt(i) => RoundNatIsDouble(0 - i);
    case Float(_) =>
  }

  /** Rounding never makes a mixed comparison true: number equality is mathematical equality. */
  lemma NumberEqIsExact(a: Number, b: Number)
    ensures NumberEq(a, b) <==> a.Exact() == b.Exact()
  {
    if IntegerOf(a).None? {
      NoIntegerForm(a, b);
    } else if IntegerOf(b).None? {
      NoIntegerForm(b, a);
    }
  }

  /** Comparing through `as_f64` alone would confuse 2^53 + 1 with 2^53; `json_eq` does not. */
  lemma RoundingAloneWouldConfuse()
    ensures exists a: Number, b: Number :: a.AsF64() == b.AsF64() && !NumberEq(a, b)
  {
    var a, b := PosInt(TWO53 + 1), PosInt(TWO53);
    assert Shift(TWO53 / 2) == 0 && Shift(TWO53) == 1 && Shift(TWO53 + 1) == 1;
    assert Pow2(1) == 2;
    assert a.AsF64() == b.AsF64() && !NumberEq(a, b);
  }

  /** Two finite maps of one size, the first contained in the second's keys, share their keys. */
  lemma SameKeys<V, W>(a: map<string, V>, b: map<string, W>)
    requires |a| == |b| && a.Keys <= b.Keys
    ensures a.Keys == b.Keys
  {
    var rest := b.Keys - a.Keys;
    assert b.Keys == a.Keys + rest;
    assert |b.Keys| == |a.Keys| + |rest|;
  }

  /** `json_eq` decides equality of exact contents. */
  lemma {:induction false} JsonEqIsExact(a: Json, b: Json)
    ensures JsonEq(a, b) <==> ExactOf(a) == ExactOf(b)
    decreases a
  {
    match (a, b)
    case (JNumber(x), JNumber(y)) => NumberEqIsExact(x, y);
    case (JArray(x), JArray(y)) =>
      var ex, ey := ExactOf(a).items, ExactOf(b).items;
      assert |ex| == |x| && |ey| == |y|;
      forall i | 0 <= i < |x| && i < |y| ensures JsonEq(x[i], y[i]) <==> ex[i] == ey[i] {
        JsonEqIsExact(x[i], y[i]);
      }
      assert |x| == |y| ==> (ex == ey <==> forall i | 0 <= i < |x| :: ex[i] == ey[i]);
    case (JObject(x), JObject(y)) => ObjectEqIsExact(a, b);
    case _ =>
  }

  lemma {:induction false} ObjectEqIsExact(a: Json, b: Json)
    requires a.JObject? && b.JObject?
    ensures JsonEq(a, b) <==> ExactOf(a) == ExactOf(b)
    decreases a, 0
  {
    var x, y := a.fields, b.fields;
    var ex, ey := ExactOf(a).fields, ExactOf(b).fields;
    assert ex.Keys == x.Keys && ey.Keys == y.Keys;
    forall k | k in x && k in y ensures JsonEq(x[k], y[k]) <==> ex[k] == ey[k] {
      JsonEqIsExact(x[k], y[k]);
    }
    if JsonEq(a, b) {
      SameKeys(x, y);
      assert ex == ey;
    }
    if ex == ey {
      assert x.Keys == y.Keys;
      assert |x| == |x.Keys| && |y| == |y.Keys|;
      assert JsonEq(a, b);
    }
  }

  /** `json_eq` is an equivalence relation on whole values. */
  lemma JsonEqIsEquivalence(a: Json, b: Json, c: Json)
    ensures JsonEq(a, a)
    ensures JsonEq(a, b) ==> JsonEq(b, a)
    ensures JsonEq(a, b) && JsonEq(b, c) ==> JsonEq(a, c)
  {
    JsonEqIsExact(a, a);
    JsonEqIsExact(a, b);
    JsonEqIsExact(b, a);
    JsonEqIsExact(b, c);
    JsonEqIsExact(a, c);
  }
}
