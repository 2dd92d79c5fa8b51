/** Field guards of core/src/field_guard.rs: declared paths and matching. */
module FieldGuard {
  import opened Wrappers
  import opened Json
  import opened Schema
  import opened Validation
  import opened JsonEquality

  datatype FieldExpectation = FieldExpectation(path: seq<string>, value: Json)

  // ---------- declared paths ----------

  predicate DeclaredPath(fields: map<string, FieldType>, path: seq<string>)
    requires |path| > 0
  {
    path[0] in fields && DeclaredChild(fields[path[0]], path[1..])
  }

  /** Follows the type; the `Object` arm is `declared_path` on its field map. */
  predicate DeclaredChild(field: FieldType, path: seq<string>)
    decreases field
  {
    path == [] ||
    match field
    case Any => true
    case Optional(inner) => DeclaredChild(inner, path)
    case Object(fields) => path[0] in fields && DeclaredChild(fields[path[0]], path[1..])
    case Record(value) => DeclaredChild(value, path[1..])
    case Union(variants) => exists i | 0 <= i < |variants| :: DeclaredChild(variants[i], path)
    case _ => false
  }

  // ---------- matching ----------

  /** `try_fold` through object keys. */
  function Descend(v: Json, tail: seq<string>): (r: Option<Json>) {
    if tail == [] then Some(v)
    else if v.JObject? && tail[0] in v.fields then Descend(v.fields[tail[0]], tail[1..])
    else None
  }

  function Lookup(doc: Doc, path: seq<string>): (r: Option<Json>) {
    if path == [] || path[0] !in doc then None else Descend(doc[path[0]], path[1..])
  }

  predicate Matches(doc: Doc, item: FieldExpectation) {
    var actual := Lookup(doc, item.path);
    actual.Some? && JsonEq(actual.value, item.value)
  }

  predicate ExpectationsMatch(doc: Doc, expected: seq<FieldExpectation>) {
    forall i | 0 <= i < |expected| :: Matches(doc, expected[i])
  }

  // ---------- a path is declared exactly when a valid document can have it ----------

  /** The path leads into a literal whose value holds the rest of it. */
  predicate LiteralReach(ty: FieldType, path: seq<string>)
    decreases ty
  {
    path != [] &&
    match ty
    case Literal(v) => Descend(v, path).Some?
    case Optional(inner) => LiteralReach(inner, path)
    case Object(fields) => path[0] in fields && LiteralReach(fields[path[0]], path[1..])
    case Record(value) => LiteralReach(value, path[1..])
    case Union(variants) => exists i | 0 <= i < |variants| :: LiteralReach(variants[i], path)
    case _ => false
  }

  predicate Reaches(ty: FieldType, path: seq<string>) {
    DeclaredChild(ty, path) || LiteralReach(ty, path)
  }

  lemma {:induction false} ValidPathReaches(f: Formats, ty: FieldType, v: Json, path: seq<string>)
    requires Valid(f, ty, v) && Descend(v, path).Some?
    ensures Reaches(ty, path)
    decreases ty
  {
    if path == [] {
    } else {
      match ty
      case Optional(inner) => ValidPathReaches(f, inner, v, path);
      case Union(variants) =>
        var i :| 0 <= i < |variants| && Valid(f, variants[i], v);
        ValidPathReaches(f, variants[i], v, path);
      case Object(fields) => ValidPathReaches(f, fields[path[0]], v.fields[path[0]], path[1..]);
      case Record(value) => ValidPathReaches(f, value, v.fields[path[0]], path[1..]);
      case _ =>
    }
  }

  /** Push-time rule: no union without variants. */
  predicate NonEmptyUnions(ty: FieldType) {
    match ty
    case Optional(inner) => NonEmptyUnions(inner)
    case Union(variants) =>
      variants != [] && forall i | 0 <= i < |variants| :: NonEmptyUnions(variants[i])
    case Array(element) => NonEmptyUnions(element)
    case Object(fields) => forall k | k in fields :: NonEmptyUnions(fields[k])
    case Record(value) => NonEmptyUnions(value)
    case _ => true
  }

  ghost predicate Inhabited(f: Formats) {
    (exists s :: f.int64(s)) && (exists s :: f.bytes(s))
  }

  /** Every type without an empty union has a value. */
  ghost function Inhabitant(f: Formats, ty: FieldType): (v: Json)
    requires Inhabited(f) && NonEmptyUnions(ty)
    ensures Valid(f, ty, v)
    decreases ty
  {
    match ty
    case String => JString("")
    case Number => JNumber(PosInt(0))
    case Boolean => JBool(false)
    case Null => JNull
    case Id(_, _) => JString(seq(32, _ => '0'))
    case Literal(v) => v
    case Optional(_) => JNull
    case Union(variants) => Inhabitant(f, variants[0])
    case Array(_) => JArray([])
    case Object(fields) => JObject(map k | k in fields :: Inhabitant(f, fields[k]))
    case Int64 => var s :| f.int64(s); JString(s)
    case Bytes => var s :| f.bytes(s); JString(s)
    case Any => JNull
    case Record(_) => JObject(map[])
    case Vector(n) => JArray(seq(n, _ => JNumber(PosInt(0))))
  }

  /** Nested one-key objects along a path, for `Any`. */
  function Nest(path: seq<string>): (v: Json)
    ensures Descend(v, path).Some?
  {
    if path == [] then JNull else JObject(map[path[0] := Nest(path[1..])])
  }

  lemma {:induction false} ReachWitness(f: Formats, ty: FieldType, path: seq<string>) returns (v: Json)
    requires Inhabited(f) && NonEmptyUnions(ty) && Reaches(ty, path)
    ensures Valid(f, ty, v) && Descend(v, path).Some?
    decreases ty
  {
    if path == [] {
      v := Inhabitant(f, ty);
    } else {
      match ty
      case Any => v := Nest(path);
      case Literal(value) => v := value;
      case Optional(inner) => v := ReachWitness(f, inner, path);
      case Union(variants) =>
        var i :| 0 <= i < |variants| && Reaches(variants[i], path);
        v := ReachWitness(f, variants[i], path);
      case Record(value) =>
        var w := ReachWitness(f, value, path[1..]);
        v := JObject(map[path[0] := w]);
      case Object(fields) =>
        var w := ReachWitness(f, fields[path[0]], path[1..]);
        v := JObject(Inhabitant(f, ty).fields[path[0] := w]);
    }
  }

  /** Field names a push accepts start with a letter. */
  predicate NoReservedNames(fields: map<string, FieldType>) {
    forall k | k in fields :: !IsReserved(k)
  }

  ghost predicate SomeDocumentHas(f: Formats, fields: map<string, FieldType>, path: seq<string>) {
    exists doc: Doc :: ValidDoc(f, fields, doc) && Lookup(doc, path).Some?
  }

  /**
   For every table: some valid document has the path exactly when the path is
   declared or leads into a literal that holds the rest of it.
   */
  lemma ReachablePathsExactly(f: Formats, fields: map<string, FieldType>, path: seq<string>)
    requires |path| > 0 && Inhabited(f) && NoReservedNames(fields) && NonEmptyUnions(Object(fields))
    ensures SomeDocumentHas(f, fields, path) <==>
            DeclaredPath(fields, path) || (path[0] in fields && LiteralReach(fields[path[0]], path[1..]))
  {
    if doc: Doc :| ValidDoc(f, fields, doc) && Lookup(doc, path).Some? {
      ValidPathReaches(f, fields[path[0]], doc[path[0]], path[1..]);
    }
    if path[0] in fields && Reaches(fields[path[0]], path[1..]) {
      ReachableDocument(f, fields, path);
    }
  }

  lemma ReachableDocument(f: Formats, fields: map<string, FieldType>, path: seq<string>)
    requires |path| > 0 && Inhabited(f) && NoReservedNames(fields) && NonEmptyUnions(Object(fields))
    requires path[0] in fields && Reaches(fields[path[0]], path[1..])
    ensures SomeDocumentHas(f, fields, path)
  {
    var w := ReachWitness(f, fields[path[0]], path[1..]);
    var filled := Inhabitant(f, Object(fields));
    var doc: Doc := filled.fields[path[0] := w];
    assert Lookup(doc, path) == Descend(w, path[1..]);
    assert forall k | k in fields :: k in filled.fields && Valid(f, fields[k], filled.fields[k]);
    assert ValidDoc(f, fields, doc);
  }

  /** No literal is an object with keys, anywhere a path can lead; no path enters an array. */
  predicate NoKeyedLiterals(ty: FieldType) {
    match ty
    case Literal(v) => v.JObject? ==> v.fields == map[]
    case Optional(inner) => NoKeyedLiterals(inner)
    case Union(variants) => forall i | 0 <= i < |variants| :: NoKeyedLiterals(variants[i])
    case Object(fields) => forall k | k in fields :: NoKeyedLiterals(fields[k])
    case Record(value) => NoKeyedLiterals(value)
    case _ => true
  }

  /** Then, and only then, no path leads into a literal. */
  lemma {:induction false} NoKeyedLiteralsExactly(ty: FieldType)
    ensures NoKeyedLiterals(ty) <==> forall path :: !LiteralReach(ty, path)
  {
    if NoKeyedLiterals(ty) {
      forall path ensures !LiteralReach(ty, path) { KeylessIsUnreachable(ty, path); }
    } else {
      var path := KeyedIsReachable(ty);
      assert LiteralReach(ty, path);
    }
  }

  lemma {:induction false} KeylessIsUnreachable(ty: FieldType, path: seq<string>)
    requires NoKeyedLiterals(ty)
    ensures !LiteralReach(ty, path)
    decreases ty
  {
    if path == [] {
    } else {
      match ty
      case Optional(inner) => KeylessIsUnreachable(inner, path);
      case Union(variants) => forall i | 0 <= i < |variants| { KeylessIsUnreachable(variants[i], path); }
      case Object(fields) => if path[0] in fields { KeylessIsUnreachable(fields[path[0]], path[1..]); }
      case Record(value) => KeylessIsUnreachable(value, path[1..]);
      case _ =>
    }
  }

  lemma {:induction false} KeyedIsReachable(ty: FieldType) returns (path: seq<string>)
    requires !NoKeyedLiterals(ty)
    ensures LiteralReach(ty, path)
    decreases ty
  {
    match ty
    case Literal(v) =>
      var k :| k in v.fields;
      path := [k];
    case Optional(inner) => path := KeyedIsReachable(inner);
    case Union(variants) =>
      var i :| 0 <= i < |variants| && !NoKeyedLiterals(variants[i]);
      path := KeyedIsReachable(variants[i]);
    case Object(fields) =>
      var k :| k in fields && !NoKeyedLiterals(fields[k]);
      var rest := KeyedIsReachable(fields[k]);
      path := [k] + rest;
    case Record(value) =>
      var rest := KeyedIsReachable(value);
      path := [""] + rest;
  }

  /** A push insists on scalar literals and nonempty unions. */
  lemma {:induction false} WellFormedIsKeyless(ty: FieldType)
    requires WellFormedType(ty)
    ensures NoKeyedLiterals(ty) && NonEmptyUnions(ty)
  {
    match ty
    case Optional(inner) => WellFormedIsKeyless(inner);
    case Union(variants) => forall i | 0 <= i < |variants| { WellFormedIsKeyless(variants[i]); }
    case Array(element) => WellFormedIsKeyless(element);
    case Object(fields) => forall k | k in fields { WellFormedIsKeyless(fields[k]); }
    case Record(value) => WellFormedIsKeyless(value);
    case _ =>
  }

  /** For a pushed table, `declared_path` accepts exactly the paths some valid document has. */
  lemma DeclaredPathIsExact(f: Formats, fields: map<string, FieldType>, path: seq<string>)
    requires |path| > 0 && Inhabited(f) && NoReservedNames(fields)
    requires WellFormedType(Object(fields))
    ensures DeclaredPath(fields, path) <==> SomeDocumentHas(f, fields, path)
  {
    WellFormedIsKeyless(Object(fields));
    if path[0] in fields {
      KeylessIsUnreachable(fields[path[0]], path[1..]);
    }
    ReachablePathsExactly(f, fields, path);
  }

  /** Without keyed literals, a guard on an undeclared path never matches a valid document. */
  lemma UndeclaredNeverMatches(
    f: Formats, fields: map<string, FieldType>, doc: Doc, expected: seq<FieldExpectation>, i: nat)
    requires NoKeyedLiterals(Object(fields)) && ValidDoc(f, fields, doc)
    requires i < |expected| && |expected[i].path| > 0 && !DeclaredPath(fields, expected[i].path)
    ensures !ExpectationsMatch(doc, expected)
  {
    var path := expected[i].path;
    if Matches(doc, expected[i]) {
      ValidPathReaches(f, fields[path[0]], doc[path[0]], path[1..]);
      KeylessIsUnreachable(fields[path[0]], path[1..]);
    }
  }

  /** In particular for every pushed table. */
  lemma UndeclaredNeverMatchesPushed(
    f: Formats, fields: map<string, FieldType>, doc: Doc, expected: seq<FieldExpectation>, i: nat)
    requires WellFormedType(Object(fields)) && ValidDoc(f, fields, doc)
    requires i < |expected| && |expected[i].path| > 0 && !DeclaredPath(fields, expected[i].path)
    ensures !ExpectationsMatch(doc, expected)
  {
    WellFormedIsKeyless(Object(fields));
    UndeclaredNeverMatches(f, fields, doc, expected, i);
  }

  /** With an object literal the claim fails: an undeclared path that matches. */
  lemma ObjectLiteralDefeatsDeclaredPath(f: Formats)
    ensures var inner := JObject(map["b" := JNull]);
            var fields := map["a" := FieldType.Literal(inner)];
            var doc: Doc := map["a" := inner];
            !DeclaredPath(fields, ["a", "b"]) && ValidDoc(f, fields, doc) &&
            ExpectationsMatch(doc, [FieldExpectation(["a", "b"], JNull)])
  {
  }

  // ---------- guards respect json_eq ----------

  lemma {:induction false} DescendRespectsEq(v: Json, w: Json, path: seq<string>)
    requires JsonEq(v, w)
    ensures Descend(v, path).Some? <==> Descend(w, path).Some?
    ensures Descend(v, path).Some? ==> JsonEq(Descend(v, path).value, Descend(w, path).value)
    decreases |path|
  {
    if path == [] || !v.JObject? {
    } else {
      SameKeys(v.fields, w.fields);
      if path[0] in v.fields {
        DescendRespectsEq(v.fields[path[0]], w.fields[path[0]], path[1..]);
      }
    }
  }

  lemma ItemRespectsEquality(doc: Doc, doc': Doc, path: seq<string>, value: Json, value': Json)
    requires JsonEq(JObject(doc), JObject(doc')) && JsonEq(value, value')
    ensures Matches(doc, FieldExpectation(path, value)) <==> Matches(doc', FieldExpectation(path, value'))
  {
    DescendRespectsEq(JObject(doc), JObject(doc'), path);
    assert path != [] ==> Lookup(doc, path) == Descend(JObject(doc), path);
    assert path != [] ==> Lookup(doc', path) == Descend(JObject(doc'), path);
    if Lookup(doc, path).Some? {
      JsonEqIsExact(Lookup(doc, path).value, Lookup(doc', path).value);
      JsonEqIsExact(value, value');
      JsonEqIsExact(Lookup(doc, path).value, value);
      JsonEqIsExact(Lookup(doc', path).value, value');
    }
  }

  /** Equal documents satisfy the same expectations, with expected values replaced by equal ones. */
  lemma GuardsRespectEquality(doc: Doc, doc': Doc, expected: seq<FieldExpectation>, expected': seq<FieldExpectation>)
    requires JsonEq(JObject(doc), JObject(doc')) && |expected| == |expected'|
    requires forall i | 0 <= i < |expected| ::
      expected[i].path == expected'[i].path && JsonEq(expected[i].value, expected'[i].value)
    ensures ExpectationsMatch(doc, expected) <==> ExpectationsMatch(doc', expected')
  {
    forall i | 0 <= i < |expected| ensures Matches(doc, expected[i]) <==> Matches(doc', expected'[i]) {
      ItemRespectsEquality(doc, doc', expected[i].path, expected[i].value, expected'[i].value);
    }
  }

  /** An expectation of null needs the field to be there. */
  lemma NullDoesNotMatchMissing(doc: Doc, path: seq<string>)
    ensures Matches(doc, FieldExpectation(path, JNull)) <==> Lookup(doc, path) == Some(JNull)
  {
  }

  // ---------- guards compare exact contents ----------

  /** What a path leads to in the exact contents of a value. */
  ghost function ExactAt(v: Exact, path: seq<string>): Option<Exact> {
    if path == [] then Some(v)
    else if v.EObject? && path[0] in v.fields then ExactAt(v.fields[path[0]], path[1..])
    else None
  }

  lemma {:induction false} DescendIsExact(v: Json, path: seq<string>)
    ensures ExactAt(ExactOf(v), path) ==
            match Descend(v, path) case Some(w) => Some(ExactOf(w)) case None => None
    decreases |path|
  {
    if path == [] || !v.JObject? || path[0] !in v.fields {
    } else {
      DescendIsExact(v.fields[path[0]], path[1..]);
    }
  }

  lemma MatchIsExact(doc: Doc, item: FieldExpectation)
    ensures Matches(doc, item) <==>
            item.path != [] && ExactAt(ExactOf(JObject(doc)), item.path) == Some(ExactOf(item.value))
  {
    if item.path != [] {
      DescendIsExact(JObject(doc), item.path);
      assert Lookup(doc, item.path) == Descend(JObject(doc), item.path);
      if Lookup(doc, item.path).Some? {
        JsonEqIsExact(Lookup(doc, item.path).value, item.value);
      }
    }
  }

  /** A guard holds exactly when every path leads, in the document's exact contents, to the expected value. */
  lemma ExpectationsAreExact(doc: Doc, expected: seq<FieldExpectation>)
    ensures ExpectationsMatch(doc, expected) <==>
            forall item | item in expected ::
              item.path != [] && ExactAt(ExactOf(JObject(doc)), item.path) == Some(ExactOf(item.value))
  {
    forall item ensures Matches(doc, item) <==>
        item.path != [] && ExactAt(ExactOf(JObject(doc)), item.path) == Some(ExactOf(item.value))
    {
      MatchIsExact(doc, item);
    }
  }
}
