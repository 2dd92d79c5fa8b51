/** What the type-change classification guarantees. */
module TypeChange {
  import opened Wrappers
  import opened Json
  import opened Schema
  import opened Validation

  // ---------- stripping onDelete ----------

  lemma {:induction false} StripIdempotent(ty: FieldType)
    ensures StripOnDelete(StripOnDelete(ty)) == StripOnDelete(ty)
  {
    match ty
    case Optional(inner) => StripIdempotent(inner);
    case Union(variants) => forall i | 0 <= i < |variants| { StripIdempotent(variants[i]); }
    case Array(element) => StripIdempotent(element);
    case Object(fields) => forall k | k in fields { StripIdempotent(fields[k]); }
    case Record(value) => StripIdempotent(value);
    case _ =>
  }

  /** A type and its stripped form accept the same values. */
  lemma {:induction false} StripKeepsValues(f: Formats, ty: FieldType, v: Json)
    ensures Valid(f, StripOnDelete(ty), v) == Valid(f, ty, v)
    decreases ty, 1
  {
    if ty.Optional? {
      StripKeepsValues(f, ty.inner, v);
    } else if ty.Union? {
      UnionKeepsValues(f, ty, v);
    } else if ty.Array? {
      ArrayKeepsValues(f, ty, v);
    } else if ty.Object? {
      ObjectKeepsValues(f, ty, v);
    } else if ty.Record? {
      RecordKeepsValues(f, ty, v);
    }
  }

  lemma {:induction false} UnionKeepsValues(f: Formats, ty: FieldType, v: Json)
    requires ty.Union?
    ensures Valid(f, StripOnDelete(ty), v) == Valid(f, ty, v)
    decreases ty, 0
  {
    var stripped := StripOnDelete(ty).variants;
    forall i | 0 <= i < |stripped| ensures Valid(f, stripped[i], v) == Valid(f, ty.variants[i], v) {
      StripKeepsValues(f, ty.variants[i], v);
    }
  }

  lemma {:induction false} ArrayKeepsValues(f: Formats, ty: FieldType, v: Json)
    requires ty.Array?
    ensures Valid(f, StripOnDelete(ty), v) == Valid(f, ty, v)
    decreases ty, 0
  {
    if v.JArray? {
      forall i | 0 <= i < |v.items| { StripKeepsValues(f, ty.element, v.items[i]); }
    }
  }

  lemma {:induction false} ObjectKeepsValues(f: Formats, ty: FieldType, v: Json)
    requires ty.Object?
    ensures Valid(f, StripOnDelete(ty), v) == Valid(f, ty, v)
    decreases ty, 0
  {
    if v.JObject? {
      forall k | k in ty.fields && k in v.fields { StripKeepsValues(f, ty.fields[k], v.fields[k]); }
    }
  }

  lemma {:induction false} RecordKeepsValues(f: Formats, ty: FieldType, v: Json)
    requires ty.Record?
    ensures Valid(f, StripOnDelete(ty), v) == Valid(f, ty, v)
    decreases ty, 0
  {
    if v.JObject? {
      forall k | k in v.fields { StripKeepsValues(f, ty.valueType, v.fields[k]); }
    }
  }

  // ---------- literal sets ----------

  lemma {:induction false} LiteralValuesAreAll(variants: seq<FieldType>)
    ensures |LiteralValues(variants)| == |variants| <==>
            forall i | 0 <= i < |variants| :: variants[i].Literal?
    ensures |LiteralValues(variants)| == |variants| ==>
            forall i | 0 <= i < |variants| :: LiteralValues(variants)[i] == variants[i].value
  {
    if variants == [] {
    } else {
      LiteralValuesAreAll(variants[1..]);
      assert forall i | 0 < i < |variants| :: variants[i] == variants[1..][i - 1];
    }
  }

  /** The literal set is exactly the set of accepted values. */
  lemma LiteralSetIsExact(f: Formats, ty: FieldType, v: Json)
    requires LiteralSet(ty).Some?
    ensures v in LiteralSet(ty).value <==> Valid(f, ty, v)
  {
    if ty.Union? {
      LiteralValuesAreAll(ty.variants);
      var vals := LiteralValues(ty.variants);
      assert forall i | 0 <= i < |ty.variants| :: Valid(f, ty.variants[i], v) <==> v == vals[i];
    }
  }

  lemma StripKeepsLiteralSet(ty: FieldType)
    ensures LiteralSet(StripOnDelete(ty)) == LiteralSet(ty)
  {
    if ty.Union? {
      var stripped := StripOnDelete(ty).variants;
      LiteralValuesAreAll(ty.variants);
      LiteralValuesAreAll(stripped);
      assert forall i | 0 <= i < |stripped| :: stripped[i] == StripOnDelete(ty.variants[i]);
      if LiteralSet(ty).Some? {
        assert stripped == ty.variants;
      }
    }
  }

  /** The verdict in terms of its three grounds for acceptance. */
  lemma Grounds(prev: FieldType, next: FieldType)
    ensures !IsTypeChangeRejected(prev, next) <==>
            StripOnDelete(next) == StripOnDelete(prev) || IsLiteralWidening(prev, next) ||
            IsObjectShapeWidening(prev, next)
  {
  }

  // ---------- soundness ----------

  /**
   An accepted change keeps every stored value valid, through any nesting of
   arrays and objects.
   */
  lemma {:induction false} AcceptedChangeIsSound(f: Formats, prev: FieldType, next: FieldType, v: Json)
    requires !IsTypeChangeRejected(prev, next) && Valid(f, prev, v)
    ensures Valid(f, next, v)
    decreases prev, 1
  {
    Grounds(prev, next);
    if StripOnDelete(next) == StripOnDelete(prev) {
      SameStrippedIsSound(f, prev, next, v);
    } else if IsLiteralWidening(prev, next) {
      LiteralWideningIsSound(f, prev, next, v);
    } else {
      ShapeWideningIsSound(f, prev, next, v);
    }
  }

  lemma SameStrippedIsSound(f: Formats, prev: FieldType, next: FieldType, v: Json)
    requires StripOnDelete(next) == StripOnDelete(prev) && Valid(f, prev, v)
    ensures Valid(f, next, v)
  {
    StripKeepsValues(f, prev, v);
    StripKeepsValues(f, next, v);
  }

  lemma LiteralWideningIsSound(f: Formats, prev: FieldType, next: FieldType, v: Json)
    requires IsLiteralWidening(prev, next) && Valid(f, prev, v)
    ensures Valid(f, next, v)
  {
    LiteralSetIsExact(f, prev, v);
    LiteralSetIsExact(f, next, v);
  }

  lemma {:induction false} ShapeWideningIsSound(f: Formats, prev: FieldType, next: FieldType, v: Json)
    requires IsObjectShapeWidening(prev, next) && Valid(f, prev, v)
    ensures Valid(f, next, v)
    decreases prev, 0
  {
    match prev
    case Array(o) =>
      forall i | 0 <= i < |v.items| { ShapeWideningIsSound(f, o, next.element, v.items[i]); }
    case Object(o) =>
      var n := next.fields;
      forall k | k in n
        ensures if k in v.fields then Valid(f, n[k], v.fields[k]) else n[k].Optional?
      {
        if k in v.fields {
          AcceptedChangeIsSound(f, o[k], n[k], v.fields[k]);
        } else if k in o {
          OptionalStaysOptional(o[k], n[k]);
        }
      }
  }

  /** An accepted change of an `Optional` field leaves it `Optional`, and conversely. */
  lemma OptionalStaysOptional(prev: FieldType, next: FieldType)
    requires !IsTypeChangeRejected(prev, next)
    ensures prev.Optional? <==> next.Optional?
  {
    if IsWideningOf(prev, next) {
      assert IsLiteralWidening(prev, next) || IsObjectShapeWidening(prev, next);
    } else {
      assert StripOnDelete(prev) == StripOnDelete(next);
    }
  }

  // ---------- onDelete is invisible ----------

  lemma {:induction false} VerdictIgnoresStripping(prev: FieldType, next: FieldType)
    ensures IsTypeChangeRejected(StripOnDelete(prev), StripOnDelete(next)) == IsTypeChangeRejected(prev, next)
    decreases prev, 1
  {
    StripIdempotent(prev);
    StripIdempotent(next);
    StripKeepsLiteralSet(prev);
    StripKeepsLiteralSet(next);
    ShapeIgnoresStripping(prev, next);
  }

  lemma {:induction false} ShapeIgnoresStripping(prev: FieldType, next: FieldType)
    ensures IsObjectShapeWidening(StripOnDelete(prev), StripOnDelete(next)) == IsObjectShapeWidening(prev, next)
    decreases prev, 0
  {
    match (prev, next)
    case (Array(o), Array(n)) => ShapeIgnoresStripping(o, n);
    case (Object(o), Object(n)) =>
      forall k | k in o && k in n
        ensures IsTypeChangeRejected(StripOnDelete(o[k]), StripOnDelete(n[k])) == IsTypeChangeRejected(o[k], n[k])
      {
        VerdictIgnoresStripping(o[k], n[k]);
      }
      ObjectShapeIgnoresStripping(o, n);
    case _ =>
  }

  lemma ObjectShapeIgnoresStripping(o: map<string, FieldType>, n: map<string, FieldType>)
    requires forall k | k in o && k in n ::
      IsTypeChangeRejected(StripOnDelete(o[k]), StripOnDelete(n[k])) == IsTypeChangeRejected(o[k], n[k])
    ensures IsObjectShapeWidening(StripOnDelete(Object(o)), StripOnDelete(Object(n)))
            == IsObjectShapeWidening(Object(o), Object(n))
  {
    var so, sn := StripOnDelete(Object(o)).fields, StripOnDelete(Object(n)).fields;
    assert so.Keys == o.Keys && sn.Keys == n.Keys;
    assert forall k | k in n :: sn[k].Optional? == n[k].Optional?;
  }

  /** The types coincide except for `onDelete` actions, anywhere in them. */
  ghost predicate SameButOnDelete(a: FieldType, b: FieldType)
    decreases a
  {
    if a.Id? && b.Id? then a.table == b.table
    else if a.Optional? && b.Optional? then SameButOnDelete(a.inner, b.inner)
    else if a.Union? && b.Union? then
      |a.variants| == |b.variants| &&
      forall i | 0 <= i < |a.variants| :: SameButOnDelete(a.variants[i], b.variants[i])
    else if a.Array? && b.Array? then SameButOnDelete(a.element, b.element)
    else if a.Object? && b.Object? then
      a.fields.Keys == b.fields.Keys && forall k | k in a.fields :: SameButOnDelete(a.fields[k], b.fields[k])
    else if a.Record? && b.Record? then SameButOnDelete(a.valueType, b.valueType)
    else a == b
  }

  /** Comparing stripped types decides exactly that. */
  lemma {:induction false} StripDecidesSameness(a: FieldType, b: FieldType)
    ensures StripOnDelete(a) == StripOnDelete(b) <==> SameButOnDelete(a, b)
    decreases a, 1
  {
    if a.Optional? && b.Optional? {
      StripDecidesSameness(a.inner, b.inner);
    } else if a.Union? && b.Union? {
      UnionSameness(a, b);
    } else if a.Array? && b.Array? {
      StripDecidesSameness(a.element, b.element);
    } else if a.Object? && b.Object? {
      ObjectSameness(a, b);
    } else if a.Record? && b.Record? {
      StripDecidesSameness(a.valueType, b.valueType);
    }
  }

  lemma {:induction false} UnionSameness(a: FieldType, b: FieldType)
    requires a.Union? && b.Union?
    ensures StripOnDelete(a) == StripOnDelete(b) <==> SameButOnDelete(a, b)
    decreases a, 0
  {
    var sx, sy := StripOnDelete(a).variants, StripOnDelete(b).variants;
    assert |sx| == |a.variants| && |sy| == |b.variants|;
    if |sx| == |sy| {
      forall i | 0 <= i < |sx| ensures sx[i] == sy[i] <==> SameButOnDelete(a.variants[i], b.variants[i]) {
        StripDecidesSameness(a.variants[i], b.variants[i]);
      }
      assert sx == sy <==> forall i | 0 <= i < |sx| :: sx[i] == sy[i];
    }
  }

  lemma {:induction false} ObjectSameness(a: FieldType, b: FieldType)
    requires a.Object? && b.Object?
    ensures StripOnDelete(a) == StripOnDelete(b) <==> SameButOnDelete(a, b)
    decreases a, 0
  {
    var sx, sy := StripOnDelete(a).fields, StripOnDelete(b).fields;
    assert sx.Keys == a.fields.Keys && sy.Keys == b.fields.Keys;
    if sx.Keys == sy.Keys {
      forall k | k in sx ensures sx[k] == sy[k] <==> SameButOnDelete(a.fields[k], b.fields[k]) {
        StripDecidesSameness(a.fields[k], b.fields[k]);
      }
      assert sx == sy <==> forall k | k in sx :: sx[k] == sy[k];
    }
  }

  /** Changing any `onDelete` action, at any depth and in either argument, never changes the verdict. */
  lemma OnDeleteIsInvisible(prev: FieldType, next: FieldType, prev': FieldType, next': FieldType)
    requires SameButOnDelete(prev, prev') && SameButOnDelete(next, next')
    ensures IsTypeChangeRejected(prev, next) == IsTypeChangeRejected(prev', next')
  {
    StripDecidesSameness(prev, prev');
    StripDecidesSameness(next, next');
    StrippedVerdict(prev, next, prev', next');
  }

  lemma StrippedVerdict(prev: FieldType, next: FieldType, prev': FieldType, next': FieldType)
    requires StripOnDelete(prev) == StripOnDelete(prev') && StripOnDelete(next) == StripOnDelete(next')
    ensures IsTypeChangeRejected(prev, next) == IsTypeChangeRejected(prev', next')
  {
    VerdictIgnoresStripping(prev, next);
    VerdictIgnoresStripping(prev', next');
  }

  /** The types coincide except for what their `Id` nodes reference and do, anywhere in them. */
  ghost predicate SameButIds(a: FieldType, b: FieldType)
    decreases a
  {
    if a.Optional? && b.Optional? then SameButIds(a.inner, b.inner)
    else if a.Union? && b.Union? then
      |a.variants| == |b.variants| && forall i | 0 <= i < |a.variants| :: SameButIds(a.variants[i], b.variants[i])
    else if a.Array? && b.Array? then SameButIds(a.element, b.element)
    else if a.Object? && b.Object? then
      a.fields.Keys == b.fields.Keys && forall k | k in a.fields :: SameButIds(a.fields[k], b.fields[k])
    else if a.Record? && b.Record? then SameButIds(a.valueType, b.valueType)
    else (a.Id? && b.Id?) || a == b
  }

  /**
   When only references change, whichever and to whatever tables, the change is
   accepted exactly when every reference keeps its table.
   */
  lemma {:induction false} RetargetingVerdict(prev: FieldType, next: FieldType)
    requires SameButIds(prev, next)
    ensures !IsTypeChangeRejected(prev, next) <==> SameButOnDelete(prev, next)
    decreases prev, 1
  {
    Grounds(prev, next);
    StripDecidesSameness(prev, next);
    if IsLiteralWidening(prev, next) {
      LiteralsHoldNoReference(prev, next);
    } else if IsObjectShapeWidening(prev, next) {
      ShapeKeepsReferences(prev, next);
    }
  }

  lemma LiteralsHoldNoReference(prev: FieldType, next: FieldType)
    requires SameButIds(prev, next) && LiteralSet(prev).Some?
    ensures prev == next
  {
    if prev.Union? {
      LiteralValuesAreAll(prev.variants);
      assert prev.variants == next.variants;
    }
  }

  lemma {:induction false} ShapeKeepsReferences(prev: FieldType, next: FieldType)
    requires SameButIds(prev, next) && IsObjectShapeWidening(prev, next)
    ensures SameButOnDelete(prev, next)
    decreases prev, 0
  {
    if prev.Array? {
      ShapeKeepsReferences(prev.element, next.element);
    } else {
      forall k | k in prev.fields { RetargetingVerdict(prev.fields[k], next.fields[k]); }
    }
  }

  // ---------- composition ----------

  lemma AcceptanceIsReflexive(ty: FieldType)
    ensures !IsTypeChangeRejected(ty, ty)
  {
  }

  /** Two accepted changes in a row are one accepted change. */
  lemma {:induction false} AcceptanceIsTransitive(a: FieldType, b: FieldType, c: FieldType)
    requires !IsTypeChangeRejected(a, b) && !IsTypeChangeRejected(b, c)
    ensures !IsTypeChangeRejected(a, c)
    decreases a, 2
  {
    if StripOnDelete(a) == StripOnDelete(b) {
      StrippedVerdict(a, c, b, c);
    } else if StripOnDelete(b) == StripOnDelete(c) {
      StrippedVerdict(a, b, a, c);
    } else {
      WideningComposes(a, b, c);
    }
  }

  lemma {:induction false} WideningComposes(a: FieldType, b: FieldType, c: FieldType)
    requires IsWideningOf(a, b) && IsWideningOf(b, c)
    ensures IsWideningOf(a, c)
    decreases a, 1
  {
    if IsObjectShapeWidening(a, b) {
      ShapesAreNotLiterals(a, b);
      ShapeWideningComposes(a, b, c);
    } else {
      LiteralsAreNotShapes(b, c);
      LiteralWideningComposes(a, b, c);
    }
  }

  lemma ShapesAreNotLiterals(a: FieldType, b: FieldType)
    requires IsObjectShapeWidening(a, b)
    ensures LiteralSet(a).None? && LiteralSet(b).None?
  {
  }

  lemma LiteralsAreNotShapes(a: FieldType, b: FieldType)
    requires LiteralSet(a).Some?
    ensures !IsObjectShapeWidening(a, b)
  {
  }

  lemma LiteralWideningComposes(a: FieldType, b: FieldType, c: FieldType)
    requires IsLiteralWidening(a, b) && IsLiteralWidening(b, c)
    ensures IsLiteralWidening(a, c)
  {
  }

  lemma {:induction false} ShapeWideningComposes(a: FieldType, b: FieldType, c: FieldType)
    requires IsObjectShapeWidening(a, b) && IsObjectShapeWidening(b, c)
    ensures IsObjectShapeWidening(a, c)
    decreases a, 0
  {
    match a
    case Array(x) => ShapeWideningComposes(x, b.element, c.element);
    case Object(x) =>
      var y, z := b.fields, c.fields;
      forall k | k in x ensures k in z && !IsTypeChangeRejected(x[k], z[k]) {
        AcceptanceIsTransitive(x[k], y[k], z[k]);
      }
      forall k | k in z && k !in x ensures z[k].Optional? {
        if k in y { OptionalStaysOptional(y[k], z[k]); }
      }
  }

  // ---------- adding a field, at any depth ----------

  datatype Hop = IntoArray | IntoField(name: string)

  /** The type with a new field added to the object reached by the hops, if they lead to one without it. */
  function WithField(ty: FieldType, hops: seq<Hop>, name: string, added: FieldType): (r: Option<FieldType>)
    decreases |hops|
  {
    if hops == [] then
      if ty.Object? && name !in ty.fields then Some(Object(ty.fields[name := added])) else None
    else
      match hops[0]
      case IntoArray =>
        if !ty.Array? then None
        else
          var inner := WithField(ty.element, hops[1..], name, added);
          if inner.Some? then Some(Array(inner.value)) else None
      case IntoField(k) =>
        if !ty.Object? || k !in ty.fields then None
        else
          var inner := WithField(ty.fields[k], hops[1..], name, added);
          if inner.Some? then Some(Object(ty.fields[k := inner.value])) else None
  }

  /**
   Through any nesting of arrays and objects, adding a field is accepted exactly when
   it is `Optional`, and removing one is never accepted.
   */
  lemma AddedFieldVerdict(ty: FieldType, hops: seq<Hop>, name: string, added: FieldType)
    requires WithField(ty, hops, name, added).Some?
    ensures !IsTypeChangeRejected(ty, WithField(ty, hops, name, added).value) <==> added.Optional?
    ensures IsTypeChangeRejected(WithField(ty, hops, name, added).value, ty)
  {
    AddedFieldShows(ty, hops, name, added);
  }

  /** Changing the type of one field of an object is judged by that field alone. */
  lemma OneFieldChanged(fields: map<string, FieldType>, k: string, ty: FieldType)
    requires k in fields && StripOnDelete(fields[k]) != StripOnDelete(ty)
    ensures var changed := fields[k := ty];
            StripOnDelete(Object(fields)) != StripOnDelete(Object(changed)) &&
            (IsObjectShapeWidening(Object(fields), Object(changed)) <==> !IsTypeChangeRejected(fields[k], ty)) &&
            (IsObjectShapeWidening(Object(changed), Object(fields)) <==> !IsTypeChangeRejected(ty, fields[k]))
  {
    var changed := fields[k := ty];
    assert StripOnDelete(Object(fields)).fields[k] != StripOnDelete(Object(changed)).fields[k];
    OneFieldDecides(fields, changed, k);
    OneFieldDecides(changed, fields, k);
  }

  lemma OneFieldDecides(a: map<string, FieldType>, b: map<string, FieldType>, k: string)
    requires a.Keys == b.Keys && k in a && forall j | j in a && j != k :: a[j] == b[j]
    ensures IsObjectShapeWidening(Object(a), Object(b)) <==> !IsTypeChangeRejected(a[k], b[k])
  {
    forall j | j in a && j != k ensures !IsTypeChangeRejected(a[j], b[j]) {
      AcceptanceIsReflexive(a[j]);
    }
  }

  /** `r` is `ty` with a field added somewhere inside. */
  ghost predicate ShowsAddition(ty: FieldType, r: FieldType, optional: bool) {
    StripOnDelete(r) != StripOnDelete(ty) && LiteralSet(ty).None? && LiteralSet(r).None? &&
    (IsObjectShapeWidening(ty, r) <==> optional) && !IsObjectShapeWidening(r, ty)
  }

  lemma AddedHereShows(fields: map<string, FieldType>, name: string, added: FieldType)
    requires name !in fields
    ensures ShowsAddition(Object(fields), Object(fields[name := added]), added.Optional?)
  {
    var ty, r := Object(fields), Object(fields[name := added]);
    assert name in StripOnDelete(r).fields && name !in StripOnDelete(ty).fields;
    assert r.fields[name] == added;
    forall k | k in fields ensures !IsTypeChangeRejected(fields[k], fields[k]) {
      AcceptanceIsReflexive(fields[k]);
    }
  }

  lemma AddedInFieldShows(fields: map<string, FieldType>, k: string, inner: FieldType, optional: bool)
    requires k in fields && ShowsAddition(fields[k], inner, optional)
    ensures ShowsAddition(Object(fields), Object(fields[k := inner]), optional)
  {
    OneFieldChanged(fields, k, inner);
  }

  lemma {:induction false} AddedFieldShows(ty: FieldType, hops: seq<Hop>, name: string, added: FieldType)
    requires WithField(ty, hops, name, added).Some?
    ensures ShowsAddition(ty, WithField(ty, hops, name, added).value, added.Optional?)
    decreases |hops|
  {
    if hops == [] {
      AddedHereShows(ty.fields, name, added);
    } else {
      match hops[0]
      case IntoArray => AddedFieldShows(ty.element, hops[1..], name, added);
      case IntoField(k) =>
        AddedFieldShows(ty.fields[k], hops[1..], name, added);
        AddedInFieldShows(ty.fields, k, WithField(ty.fields[k], hops[1..], name, added).value, added.Optional?);
    }
  }

  /**
   Between two literal-only types the check is complete as well as sound: it
   accepts exactly when every old value is a new value.
   */
  lemma LiteralAcceptanceIsExact(f: Formats, prev: FieldType, next: FieldType)
    requires LiteralSet(prev).Some? && LiteralSet(next).Some?
    ensures !IsTypeChangeRejected(prev, next) <==> forall v | Valid(f, prev, v) :: Valid(f, next, v)
  {
    var o, n := LiteralSet(prev).value, LiteralSet(next).value;
    forall v ensures (v in o <==> Valid(f, prev, v)) && (v in n <==> Valid(f, next, v)) {
      LiteralSetIsExact(f, prev, v);
      LiteralSetIsExact(f, next, v);
    }
    if IsTypeChangeRejected(prev, next) {
      assert !IsWideningOf(prev, next);
      var v :| v in o && v !in n;
      assert Valid(f, prev, v) && !Valid(f, next, v);
    } else {
      forall v | Valid(f, prev, v) ensures Valid(f, next, v) {
        AcceptedChangeIsSound(f, prev, next, v);
      }
    }
  }

  // ---------- the whole verdict ----------

  ghost function Layers(ty: FieldType): nat {
    if ty.Array? then 1 + Layers(ty.element) else 0
  }

  /** The type under all array layers. */
  ghost function Core(ty: FieldType): (r: FieldType)
    ensures r == ty || r < ty
    ensures !r.Array?
  {
    if ty.Array? then Core(ty.element) else ty
  }

  ghost predicate OnlyLiterals(ty: FieldType) {
    ty.Literal? || (ty.Union? && ty.variants != [] && forall i | 0 <= i < |ty.variants| :: ty.variants[i].Literal?)
  }

  ghost predicate IsOneOf(v: Json, ty: FieldType) {
    ty == FieldType.Literal(v) || (ty.Union? && FieldType.Literal(v) in ty.variants)
  }

  /** An enumeration that loses no value. */
  ghost predicate ValuesWiden(prev: FieldType, next: FieldType) {
    OnlyLiterals(prev) && OnlyLiterals(next) && forall v | IsOneOf(v, prev) :: IsOneOf(v, next)
  }

  /** Every old field stays, and what is added is optional. */
  ghost predicate FieldsMayBecome(prev: FieldType, next: FieldType)
    requires prev.Object? && next.Object?
    decreases prev, 0
  {
    (forall k | k in prev.fields :: k in next.fields && MayBecome(prev.fields[k], next.fields[k])) &&
    forall k | k in next.fields && k !in prev.fields :: next.fields[k].Optional?
  }

  /** Two object types under equally many array layers. */
  ghost predicate SameFrame(prev: FieldType, next: FieldType) {
    Layers(prev) == Layers(next) && Core(prev).Object? && Core(next).Object?
  }

  /**
   What an accepted change may do: nothing but `onDelete` actions, or widen an enumeration,
   or add optional fields to an object, directly or under arrays.
   */
  ghost predicate MayBecome(prev: FieldType, next: FieldType)
    decreases prev, 1
  {
    SameButOnDelete(prev, next) || ValuesWiden(prev, next) ||
    (SameFrame(prev, next) && FieldsMayBecome(Core(prev), Core(next)))
  }

  lemma LiteralSetAre(ty: FieldType)
    ensures LiteralSet(ty).Some? <==> OnlyLiterals(ty)
    ensures LiteralSet(ty).Some? ==> forall v :: v in LiteralSet(ty).value <==> IsOneOf(v, ty)
  {
    if ty.Union? {
      LiteralValuesAreAll(ty.variants);
    }
  }

  lemma LiteralsExactly(prev: FieldType, next: FieldType)
    ensures IsLiteralWidening(prev, next) <==> ValuesWiden(prev, next)
  {
    LiteralSetAre(prev);
    LiteralSetAre(next);
  }

  lemma {:induction false} ShapeExactly(prev: FieldType, next: FieldType)
    ensures IsObjectShapeWidening(prev, next) <==>
            SameFrame(prev, next) && FieldsMayBecome(Core(prev), Core(next))
    decreases prev, 0
  {
    if prev.Array? && next.Array? {
      ShapeExactly(prev.element, next.element);
    } else if prev.Object? && next.Object? {
      forall k | k in prev.fields && k in next.fields
        ensures !IsTypeChangeRejected(prev.fields[k], next.fields[k]) <==> MayBecome(prev.fields[k], next.fields[k])
      {
        VerdictExactly(prev.fields[k], next.fields[k]);
      }
    }
  }

  /** A change is accepted exactly when it is one of these. */
  lemma {:induction false} VerdictExactly(prev: FieldType, next: FieldType)
    ensures !IsTypeChangeRejected(prev, next) <==> MayBecome(prev, next)
    decreases prev, 1
  {
    Grounds(prev, next);
    StripDecidesSameness(prev, next);
    LiteralsExactly(prev, next);
    ShapeExactly(prev, next);
  }

  /** Under arrays, what is not an object may not change at all. */
  lemma ElementsAreRigid(prev: FieldType, next: FieldType)
    requires prev.Array? && next.Array? && !(Core(prev).Object? && Core(next).Object?)
    ensures !IsTypeChangeRejected(prev, next) <==> SameButOnDelete(prev, next)
  {
    VerdictExactly(prev, next);
  }
}
