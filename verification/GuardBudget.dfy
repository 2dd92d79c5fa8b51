/**
 `validate_expectations` and `validate_value_budget` of core/src/field_guard.rs: the
 early-exit validator with shared counters against one-shot totals.
 */
module GuardBudget {
  import opened Wrappers
  import opened Json
  import opened Schema
  import opened FieldGuard

  const MAX_ITEMS: nat := 64
  const MAX_KEYS: nat := 16
  const MAX_KEY_BYTES: nat := 256
  const MAX_NODES: nat := 8192
  const MAX_BYTES: nat := 65_536
  const MAX_DEPTH: nat := 32

  // ---------- UTF-8 lengths ----------

  function CharBytes(c: char): (n: nat) {
    if c < '\U{80}' then 1 else if c < '\U{800}' then 2 else if c < '\U{10000}' then 3 else 4
  }

  /** `String::len`: the number of UTF-8 bytes. */
  function ByteLen(s: string): (n: nat) {
    if s == "" then 0 else CharBytes(s[0]) + ByteLen(s[1..])
  }

  function PathBytes(path: seq<string>): (n: nat) {
    if path == [] then 0 else ByteLen(path[0]) + PathBytes(path[1..])
  }

  // ---------- one-shot totals ----------

  /** Nodes, string and key bytes, and levels below the top. */
  datatype Size = Size(nodes: nat, bytes: nat, height: nat) {

    function Plus(other: Size): Size {
      Size(nodes + other.nodes, bytes + other.bytes, if height < other.height then other.height else height)
    }

    predicate AtMost(other: Size) {
      nodes <= other.nodes && bytes <= other.bytes && height <= other.height
    }

    /** The content of a node, with the node itself, one level down under a key of that many bytes. */
    function Inside(keyBytes: nat): Size {
      Size(nodes + 1, bytes + keyBytes, height + 1)
    }
  }

  const NONE := Size(0, 0, 0)

  /** Everything but the node itself. */
  ghost function ContentSize(v: Json): (s: Size)
    decreases v, 1, 0
  {
    match v
    case JString(text) => Size(0, ByteLen(text), 0)
    case JArray(items) => ItemsSize(v, |items|)
    case JObject(fields) => FieldsSize(v, fields.Keys)
    case _ => NONE
  }

  /** The first `n` items of an array. */
  ghost function ItemsSize(v: Json, n: nat): (s: Size)
    requires v.JArray? && n <= |v.items|
    decreases v, 0, n
  {
    if n == 0 then NONE else ItemsSize(v, n - 1).Plus(ContentSize(v.items[n - 1]).Inside(0))
  }

  /** Some of an object's entries, in an order that does not matter (`FieldsSizeWithout`). */
  ghost function FieldsSize(v: Json, keys: set<string>): (s: Size)
    requires v.JObject? && keys <= v.fields.Keys
    decreases v, 0, |keys|
  {
    if keys == {} then NONE
    else
      var k :| k in keys;
      ContentSize(v.fields[k]).Inside(ByteLen(k)).Plus(FieldsSize(v, keys - {k}))
  }

  ghost function EntrySize(v: Json, k: string): Size
    requires v.JObject? && k in v.fields
  {
    ContentSize(v.fields[k]).Inside(ByteLen(k))
  }

  lemma {:induction false} FieldsSizeWithout(v: Json, keys: set<string>, k: string)
    requires v.JObject? && keys <= v.fields.Keys && k in keys
    ensures FieldsSize(v, keys) == EntrySize(v, k).Plus(FieldsSize(v, keys - {k}))
    decreases |keys|
  {
    var p :| p in keys && FieldsSize(v, keys) == EntrySize(v, p).Plus(FieldsSize(v, keys - {p}));
    if p == k {
    } else {
      FieldsSizeWithout(v, keys - {p}, k);
      FieldsSizeWithout(v, keys - {k}, p);
      assert keys - {p} - {k} == keys - {k} - {p};
      PlusSwaps(EntrySize(v, p), EntrySize(v, k), FieldsSize(v, keys - {p} - {k}));
    }
  }

  lemma PlusSwaps(a: Size, b: Size, c: Size)
    ensures a.Plus(b.Plus(c)) == b.Plus(a.Plus(c))
  {
  }

  lemma {:induction false} ItemsSizeGrows(v: Json, n: nat)
    requires v.JArray? && n <= |v.items|
    ensures ItemsSize(v, n).AtMost(ItemsSize(v, |v.items|))
    decreases |v.items| - n
  {
    if n == |v.items| {
    } else {
      ItemsSizeGrows(v, n + 1);
    }
  }

  predicate Within(nodes: nat, bytes: nat, depth: nat) {
    nodes <= MAX_NODES && bytes <= MAX_BYTES && depth <= MAX_DEPTH
  }

  // ---------- the recursive validator ----------

  /**
   Succeeds exactly when the running counters plus the value's totals stay within
   budget. `depth` never exceeds 33 and the node counter never exceeds 8193, on any
   input, so neither does the recursion.
   */
  method ValidateValueBudget(value: Json, depth: nat, nodes: nat, bytes: nat)
    returns (ok: bool, nodes': nat, bytes': nat)
    requires depth <= MAX_DEPTH + 1 && nodes <= MAX_NODES
    ensures nodes' <= MAX_NODES + 1
    ensures var c := ContentSize(value); ok <==> Within(nodes + 1 + c.nodes, bytes + c.bytes, depth + c.height)
    ensures ok ==> nodes' == nodes + 1 + ContentSize(value).nodes && bytes' == bytes + ContentSize(value).bytes
    decreases value, 2
  {
    nodes', bytes' := nodes + 1, bytes;
    if depth > MAX_DEPTH || nodes' > MAX_NODES || bytes' > MAX_BYTES {
      return false, nodes', bytes';
    }
    ok, nodes', bytes' := ValidateContent(value, depth, nodes', bytes');
    if ok {
      ok := bytes' <= MAX_BYTES;
    }
  }

  /** The `match` on the value; a string's own bytes are left to the caller's closing check. */
  method ValidateContent(value: Json, depth: nat, nodes: nat, bytes: nat)
    returns (ok: bool, nodes': nat, bytes': nat)
    requires depth <= MAX_DEPTH && nodes <= MAX_NODES && bytes <= MAX_BYTES
    ensures nodes' <= MAX_NODES + 1
    ensures var s := ContentSize(value);
            (ok && bytes' <= MAX_BYTES) <==> Within(nodes + s.nodes, bytes + s.bytes, depth + s.height)
    ensures ok ==> nodes' == nodes + ContentSize(value).nodes && bytes' == bytes + ContentSize(value).bytes
    decreases value, 1
  {
    match value
    case JString(text) => return true, nodes, bytes + ByteLen(text);
    case JArray(_) => ok, nodes', bytes' := ValidateItems(value, depth, nodes, bytes);
    case JObject(_) => ok, nodes', bytes' := ValidateEntries(value, depth, nodes, bytes);
    case _ => return true, nodes, bytes;
  }

  /** The loop over an array's items. */
  method ValidateItems(value: Json, depth: nat, nodes: nat, bytes: nat)
    returns (ok: bool, nodes': nat, bytes': nat)
    requires value.JArray? && depth <= MAX_DEPTH && nodes <= MAX_NODES && bytes <= MAX_BYTES
    ensures nodes' <= MAX_NODES + 1
    ensures var s := ItemsSize(value, |value.items|);
            ok <==> Within(nodes + s.nodes, bytes + s.bytes, depth + s.height)
    ensures ok ==> nodes' == nodes + ItemsSize(value, |value.items|).nodes
    ensures ok ==> bytes' == bytes + ItemsSize(value, |value.items|).bytes
    decreases value, 0
  {
    nodes', bytes' := nodes, bytes;
    for i := 0 to |value.items|
      invariant nodes' == nodes + ItemsSize(value, i).nodes && bytes' == bytes + ItemsSize(value, i).bytes
      invariant Within(nodes', bytes', depth + ItemsSize(value, i).height)
    {
      ItemsSizeGrows(value, i + 1);
      ok, nodes', bytes' := ValidateValueBudget(value.items[i], depth + 1, nodes', bytes');
      if !ok { return; }
    }
    ok := true;
  }

  /** One entry: its key's bytes first, then its value one level down. */
  method ValidateEntry(value: Json, k: string, depth: nat, nodes: nat, bytes: nat)
    returns (ok: bool, nodes': nat, bytes': nat)
    requires value.JObject? && k in value.fields && depth <= MAX_DEPTH && nodes <= MAX_NODES
    ensures nodes' <= MAX_NODES + 1
    ensures var s := EntrySize(value, k); ok <==> Within(nodes + s.nodes, bytes + s.bytes, depth + s.height)
    ensures ok ==> nodes' == nodes + EntrySize(value, k).nodes && bytes' == bytes + EntrySize(value, k).bytes
    decreases value, 0, 0
  {
    ok, nodes', bytes' := ValidateValueBudget(value.fields[k], depth + 1, nodes, bytes + ByteLen(k));
  }

  /** The loop over an object's entries. */
  method ValidateEntries(value: Json, depth: nat, nodes: nat, bytes: nat)
    returns (ok: bool, nodes': nat, bytes': nat)
    requires value.JObject? && depth <= MAX_DEPTH && nodes <= MAX_NODES && bytes <= MAX_BYTES
    ensures nodes' <= MAX_NODES + 1
    ensures var s := FieldsSize(value, value.fields.Keys);
            ok <==> Within(nodes + s.nodes, bytes + s.bytes, depth + s.height)
    ensures ok ==> nodes' == nodes + FieldsSize(value, value.fields.Keys).nodes
    ensures ok ==> bytes' == bytes + FieldsSize(value, value.fields.Keys).bytes
    decreases value, 0, 1
  {
    nodes', bytes' := nodes, bytes;
    var rest := value.fields.Keys;
    ghost var total := FieldsSize(value, rest);
    ghost var left := total;
    while rest != {}
      invariant rest <= value.fields.Keys && left == FieldsSize(value, rest)
      invariant Within(nodes', bytes', depth)
      invariant nodes' + left.nodes == nodes + total.nodes && bytes' + left.bytes == bytes + total.bytes
      invariant depth + left.height <= MAX_DEPTH <==> depth + total.height <= MAX_DEPTH
    {
      var k :| k in rest;
      FieldsSizeWithout(value, rest, k);
      left := FieldsSize(value, rest - {k});
      ok, nodes', bytes' := ValidateEntry(value, k, depth, nodes', bytes');
      if !ok { return; }
      rest := rest - {k};
    }
    ok := true;
  }

  // ---------- the whole request ----------

  datatype GuardError = InvalidRequest | UnknownPath

  predicate PathOk(path: seq<string>) {
    1 <= |path| <= MAX_KEYS && forall i | 0 <= i < |path| :: 1 <= ByteLen(path[i]) <= MAX_KEY_BYTES
  }

  ghost function ItemSize(item: FieldExpectation): Size {
    var c := ContentSize(item.value);
    Size(1 + c.nodes, PathBytes(item.path) + c.bytes, c.height)
  }

  ghost function Totals(expected: seq<FieldExpectation>): (s: Size) {
    if expected == [] then NONE
    else Totals(expected[..|expected| - 1]).Plus(ItemSize(expected[|expected| - 1]))
  }

  /** Everything but the declared-path rule, for the whole list at once. */
  ghost predicate ShapeOk(expected: seq<FieldExpectation>) {
    (forall i | 0 <= i < |expected| :: PathOk(expected[i].path)) &&
    (forall i, j | 0 <= i < j < |expected| :: expected[i].path != expected[j].path) &&
    var s := Totals(expected); Within(s.nodes, s.bytes, s.height)
  }

  predicate Declared(fields: map<string, FieldType>, item: FieldExpectation) {
    |item.path| > 0 && DeclaredPath(fields, item.path)
  }

  predicate CountOk(expected: seq<FieldExpectation>) {
    1 <= |expected| <= MAX_ITEMS
  }

  /** Item `i` is the first undeclared one, and everything up to it is otherwise fine. */
  ghost predicate UndeclaredAt(fields: map<string, FieldType>, expected: seq<FieldExpectation>, i: int) {
    0 <= i < |expected| && ShapeOk(expected[..i + 1]) && !Declared(fields, expected[i]) &&
    forall j | 0 <= j < i :: Declared(fields, expected[j])
  }

  lemma {:induction false} TotalsGrow(expected: seq<FieldExpectation>, k: nat)
    requires k <= |expected|
    ensures Totals(expected[..k]).AtMost(Totals(expected))
    decreases |expected|
  {
    if k == |expected| {
      assert expected[..k] == expected;
    } else {
      var init := expected[..|expected| - 1];
      TotalsGrow(init, k);
      assert init[..k] == expected[..k];
    }
  }

  lemma ShapeOkOfPrefix(expected: seq<FieldExpectation>, k: nat)
    requires k <= |expected| && ShapeOk(expected)
    ensures ShapeOk(expected[..k])
  {
    TotalsGrow(expected, k);
  }

  /** If a prefix already fails, no later item can be reported as undeclared. */
  lemma BadPrefixHidesLater(fields: map<string, FieldType>, expected: seq<FieldExpectation>, i: nat)
    requires i < |expected| && !ShapeOk(expected[..i + 1])
    requires forall j | 0 <= j < i :: Declared(fields, expected[j])
    ensures !ShapeOk(expected) && forall j :: !UndeclaredAt(fields, expected, j)
  {
    if ShapeOk(expected) { ShapeOkOfPrefix(expected, i + 1); }
    forall j ensures !UndeclaredAt(fields, expected, j) {
      if i <= j < |expected| && ShapeOk(expected[..j + 1]) {
        assert expected[..j + 1][..i + 1] == expected[..i + 1];
        ShapeOkOfPrefix(expected[..j + 1], i + 1);
      }
    }
  }

  lemma ShapeOkExtends(expected: seq<FieldExpectation>, i: nat)
    requires i < |expected| && ShapeOk(expected[..i])
    ensures Totals(expected[..i + 1]) == Totals(expected[..i]).Plus(ItemSize(expected[i]))
    ensures ShapeOk(expected[..i + 1]) <==>
            PathOk(expected[i].path) && (forall j | 0 <= j < i :: expected[j].path != expected[i].path) &&
            var s := Totals(expected[..i]).Plus(ItemSize(expected[i])); Within(s.nodes, s.bytes, s.height)
  {
    var next := expected[..i + 1];
    assert next[..|next| - 1] == expected[..i];
    assert forall j | 0 <= j < i :: next[j] == expected[..i][j] == expected[j];
    assert next[i] == expected[i];
  }

  /** The rules for one item against the running counters, without the declared-path rule. */
  ghost predicate Fits(item: FieldExpectation, seen: set<seq<string>>, nodes: nat, bytes: nat) {
    var s := ItemSize(item);
    PathOk(item.path) && item.path !in seen && Within(nodes + s.nodes, bytes + s.bytes, s.height)
  }

  /** One turn of the loop: path shape, duplicate, budget, then declaration. */
  method ValidateItem(
    fields: map<string, FieldType>, item: FieldExpectation, seen: set<seq<string>>, nodes: nat, bytes: nat)
    returns (r: Result<(), GuardError>, nodes': nat, bytes': nat)
    requires nodes <= MAX_NODES
    ensures nodes' <= MAX_NODES + 1
    ensures r.Ok? <==> Fits(item, seen, nodes, bytes) && Declared(fields, item)
    ensures r == Err(UnknownPath) <==> Fits(item, seen, nodes, bytes) && !Declared(fields, item)
    ensures r.Ok? ==> nodes' == nodes + ItemSize(item).nodes && bytes' == bytes + ItemSize(item).bytes
  {
    nodes', bytes' := nodes, bytes;
    if !PathOk(item.path) || item.path in seen {
      return Err(InvalidRequest), nodes', bytes';
    }
    bytes' := bytes' + PathBytes(item.path);
    var ok;
    ok, nodes', bytes' := ValidateValueBudget(item.value, 0, nodes', bytes');
    if !ok {
      return Err(InvalidRequest), nodes', bytes';
    }
    if !DeclaredPath(fields, item.path) {
      return Err(UnknownPath), nodes', bytes';
    }
    return Ok(()), nodes', bytes';
  }

  ghost function PathsOf(expected: seq<FieldExpectation>): set<seq<string>> {
    set j | 0 <= j < |expected| :: expected[j].path
  }

  lemma PathsExtend(expected: seq<FieldExpectation>, i: nat)
    requires i < |expected|
    ensures PathsOf(expected[..i + 1]) == PathsOf(expected[..i]) + {expected[i].path}
    ensures expected[i].path !in PathsOf(expected[..i]) <==>
            forall j | 0 <= j < i :: expected[j].path != expected[i].path
  {
  }

  /** A prefix that is fine grows by an item exactly when the item fits. */
  lemma FitsExtends(expected: seq<FieldExpectation>, i: nat)
    requires i < |expected| && ShapeOk(expected[..i])
    ensures var s := Totals(expected[..i]);
            ShapeOk(expected[..i + 1]) <==> Fits(expected[i], PathsOf(expected[..i]), s.nodes, s.bytes)
    ensures Totals(expected[..i + 1]) == Totals(expected[..i]).Plus(ItemSize(expected[i]))
    ensures PathsOf(expected[..i + 1]) == PathsOf(expected[..i]) + {expected[i].path}
  {
    ShapeOkExtends(expected, i);
    PathsExtend(expected, i);
  }

  /** The one-shot conditions. */
  ghost predicate Accepted(fields: map<string, FieldType>, expected: seq<FieldExpectation>) {
    CountOk(expected) && ShapeOk(expected) && forall i | 0 <= i < |expected| :: Declared(fields, expected[i])
  }

  ghost predicate FirstIsUndeclared(fields: map<string, FieldType>, expected: seq<FieldExpectation>) {
    CountOk(expected) && exists i :: UndeclaredAt(fields, expected, i)
  }

  ghost predicate FineUpTo(fields: map<string, FieldType>, expected: seq<FieldExpectation>, i: nat) {
    i <= |expected| && ShapeOk(expected[..i]) && forall j | 0 <= j < i :: Declared(fields, expected[j])
  }

  /** One more item: what the loop's counters and its verdict on the item say about the longer prefix. */
  lemma OneMore(
    fields: map<string, FieldType>, expected: seq<FieldExpectation>, i: nat,
    paths: set<seq<string>>, nodes: nat, bytes: nat)
    requires i < |expected| && FineUpTo(fields, expected, i) && paths == PathsOf(expected[..i])
    requires nodes == Totals(expected[..i]).nodes && bytes == Totals(expected[..i]).bytes
    ensures Fits(expected[i], paths, nodes, bytes) <==> ShapeOk(expected[..i + 1])
    ensures Fits(expected[i], paths, nodes, bytes) && Declared(fields, expected[i]) ==>
              FineUpTo(fields, expected, i + 1)
    ensures var s, item := Totals(expected[..i + 1]), ItemSize(expected[i]);
            s.nodes == nodes + item.nodes && s.bytes == bytes + item.bytes
    ensures PathsOf(expected[..i + 1]) == paths + {expected[i].path}
  {
    FitsExtends(expected, i);
  }

  lemma FineIsAccepted(fields: map<string, FieldType>, expected: seq<FieldExpectation>)
    requires CountOk(expected) && FineUpTo(fields, expected, |expected|)
    ensures Accepted(fields, expected) && !FirstIsUndeclared(fields, expected)
  {
    assert expected[..|expected|] == expected;
  }

  lemma UndeclaredIsFirst(fields: map<string, FieldType>, expected: seq<FieldExpectation>, i: nat)
    requires CountOk(expected) && FineUpTo(fields, expected, i) && i < |expected|
    requires ShapeOk(expected[..i + 1]) && !Declared(fields, expected[i])
    ensures !Accepted(fields, expected) && FirstIsUndeclared(fields, expected)
  {
    assert UndeclaredAt(fields, expected, i);
  }

  lemma BadShapeIsInvalid(fields: map<string, FieldType>, expected: seq<FieldExpectation>, i: nat)
    requires FineUpTo(fields, expected, i) && i < |expected| && !ShapeOk(expected[..i + 1])
    ensures !Accepted(fields, expected) && !FirstIsUndeclared(fields, expected)
  {
    BadPrefixHidesLater(fields, expected, i);
  }

  /**
   `Ok` exactly when the one-shot conditions hold; the undeclared-path error exactly
   when some item is the first failure and fails only that rule. At most 8193 value
   nodes are entered on any input.
   */
  method ValidateExpectations(fields: map<string, FieldType>, expected: seq<FieldExpectation>)
    returns (r: Result<(), GuardError>, entered: nat)
    ensures entered <= MAX_NODES + 1
    ensures r.Ok? <==> Accepted(fields, expected)
    ensures r == Err(UnknownPath) <==> FirstIsUndeclared(fields, expected)
  {
    entered := 0;
    if expected == [] || |expected| > MAX_ITEMS {
      return Err(InvalidRequest), entered;
    }
    var paths: set<seq<string>> := {};
    var bytes := 0;
    for i := 0 to |expected|
      invariant FineUpTo(fields, expected, i)
      invariant paths == PathsOf(expected[..i])
      invariant entered == Totals(expected[..i]).nodes && bytes == Totals(expected[..i]).bytes
    {
      OneMore(fields, expected, i, paths, entered, bytes);
      r, entered, bytes := ValidateItem(fields, expected[i], paths, entered, bytes);
      if r == Err(UnknownPath) {
        UndeclaredIsFirst(fields, expected, i);
        return;
      }
      if r.Err? {
        BadShapeIsInvalid(fields, expected, i);
        return;
      }
      paths := paths + {expected[i].path};
    }
    FineIsAccepted(fields, expected);
    r := Ok(());
  }
}
