/** What the totals of a field guard count: positions of a value, levels below its top, and the bytes of its text. */
module GuardSizes {
  import opened Wrappers
  import opened Json
  import opened Schema
  import opened FieldGuard
  import opened GuardBudget

  // ---------- positions ----------

  datatype Hop = Item(i: nat) | Entry(key: string)

  /** What a path of item numbers and keys leads to. */
  ghost function At(v: Json, path: seq<Hop>): Option<Json>
    decreases |path|
  {
    if path == [] then Some(v)
    else
      match path[0]
      case Item(i) => if v.JArray? && i < |v.items| then At(v.items[i], path[1..]) else None
      case Entry(k) => if v.JObject? && k in v.fields then At(v.fields[k], path[1..]) else None
  }

  ghost function Under(hop: Hop, paths: set<seq<Hop>>): set<seq<Hop>> {
    set p | p in paths :: [hop] + p
  }

  /** The positions in a value, its top included. */
  ghost function Positions(v: Json): set<seq<Hop>>
    decreases v, 1, 0
  {
    match v
    case JArray(items) => {[]} + ItemPositions(v, |items|)
    case JObject(fields) => {[]} + FieldPositions(v, fields.Keys)
    case _ => {[]}
  }

  ghost function ItemPositions(v: Json, n: nat): set<seq<Hop>>
    requires v.JArray? && n <= |v.items|
    decreases v, 0, n
  {
    if n == 0 then {} else ItemPositions(v, n - 1) + Under(Item(n - 1), Positions(v.items[n - 1]))
  }

  ghost function FieldPositions(v: Json, keys: set<string>): set<seq<Hop>>
    requires v.JObject? && keys <= v.fields.Keys
    decreases v, 0, |keys|
  {
    if keys == {} then {}
    else
      var k :| k in keys;
      Under(Entry(k), Positions(v.fields[k])) + FieldPositions(v, keys - {k})
  }

  lemma {:induction false} PositionsExactly(v: Json, path: seq<Hop>)
    ensures path in Positions(v) <==> At(v, path).Some?
    decreases v, 1, 0
  {
    if path != [] {
      match v
      case JArray(items) => ItemPositionsExactly(v, |items|, path);
      case JObject(fields) => FieldPositionsExactly(v, fields.Keys, path);
      case _ =>
    }
  }

  lemma UnderExactly(hop: Hop, paths: set<seq<Hop>>, path: seq<Hop>)
    ensures path in Under(hop, paths) <==> path != [] && path[0] == hop && path[1..] in paths
  {
    if path != [] && path[0] == hop {
      assert path == [hop] + path[1..];
    }
  }

  lemma {:induction false} ItemPositionsExactly(v: Json, n: nat, path: seq<Hop>)
    requires v.JArray? && n <= |v.items|
    ensures path in ItemPositions(v, n) <==> path != [] && path[0].Item? && path[0].i < n && At(v, path).Some?
    decreases v, 0, n
  {
    if n == 0 {
    } else {
      ItemPositionsExactly(v, n - 1, path);
      UnderExactly(Item(n - 1), Positions(v.items[n - 1]), path);
      if path != [] {
        PositionsExactly(v.items[n - 1], path[1..]);
      }
    }
  }

  lemma {:induction false} FieldPositionsExactly(v: Json, keys: set<string>, path: seq<Hop>)
    requires v.JObject? && keys <= v.fields.Keys
    ensures path in FieldPositions(v, keys) <==>
            path != [] && path[0].Entry? && path[0].key in keys && At(v, path).Some?
    decreases v, 0, |keys|
  {
    if keys == {} {
    } else {
      var k :| k in keys &&
               FieldPositions(v, keys) == Under(Entry(k), Positions(v.fields[k])) + FieldPositions(v, keys - {k});
      FieldPositionsExactly(v, keys - {k}, path);
      UnderExactly(Entry(k), Positions(v.fields[k]), path);
      if path != [] {
        PositionsExactly(v.fields[k], path[1..]);
      }
    }
  }

  // ---------- nodes and levels ----------

  lemma {:induction false} UnderKeepsSize(hop: Hop, paths: set<seq<Hop>>)
    ensures |Under(hop, paths)| == |paths|
    decreases |paths|
  {
    if paths == {} {
      assert Under(hop, paths) == {};
    } else {
      var p :| p in paths;
      UnderKeepsSize(hop, paths - {p});
      assert Under(hop, paths) == Under(hop, paths - {p}) + {[hop] + p};
      UnderExactly(hop, paths - {p}, [hop] + p);
      assert ([hop] + p)[1..] == p;
    }
  }

  lemma JoinSizes<T>(a: set<T>, b: set<T>)
    requires forall x | x in a :: x !in b
    ensures |a + b| == |a| + |b|
  {
    assert a !! b;
  }

  lemma TopAndItems(v: Json)
    requires v.JArray?
    ensures |Positions(v)| == 1 + |ItemPositions(v, |v.items|)|
  {
    ItemPositionsExactly(v, |v.items|, []);
    JoinSizes({[]}, ItemPositions(v, |v.items|));
  }

  lemma TopAndFields(v: Json)
    requires v.JObject?
    ensures |Positions(v)| == 1 + |FieldPositions(v, v.fields.Keys)|
  {
    FieldPositionsExactly(v, v.fields.Keys, []);
    JoinSizes({[]}, FieldPositions(v, v.fields.Keys));
  }

  /** Nodes are positions: the value has one more than its content. */
  lemma {:induction false} NodesArePositions(v: Json)
    ensures |Positions(v)| == 1 + ContentSize(v).nodes
    decreases v, 1, 0
  {
    if v.JArray? {
      ItemNodes(v, |v.items|);
      TopAndItems(v);
    } else if v.JObject? {
      FieldNodes(v, v.fields.Keys);
      TopAndFields(v);
    }
  }

  lemma {:induction false} ItemNodes(v: Json, n: nat)
    requires v.JArray? && n <= |v.items|
    ensures |ItemPositions(v, n)| == ItemsSize(v, n).nodes
    decreases v, 0, n
  {
    if n == 0 {
    } else {
      var before, here := ItemPositions(v, n - 1), Under(Item(n - 1), Positions(v.items[n - 1]));
      ItemNodes(v, n - 1);
      NodesArePositions(v.items[n - 1]);
      UnderKeepsSize(Item(n - 1), Positions(v.items[n - 1]));
      forall p | p in before ensures p !in here {
        ItemPositionsExactly(v, n - 1, p);
        UnderExactly(Item(n - 1), Positions(v.items[n - 1]), p);
      }
      JoinSizes(before, here);
    }
  }

  lemma {:induction false} FieldNodes(v: Json, keys: set<string>)
    requires v.JObject? && keys <= v.fields.Keys
    ensures |FieldPositions(v, keys)| == FieldsSize(v, keys).nodes
    decreases v, 0, |keys|
  {
    if keys == {} {
    } else {
      var k :| k in keys &&
               FieldPositions(v, keys) == Under(Entry(k), Positions(v.fields[k])) + FieldPositions(v, keys - {k});
      var here, rest := Under(Entry(k), Positions(v.fields[k])), FieldPositions(v, keys - {k});
      FieldsSizeWithout(v, keys, k);
      FieldNodes(v, keys - {k});
      NodesArePositions(v.fields[k]);
      UnderKeepsSize(Entry(k), Positions(v.fields[k]));
      forall p | p in here ensures p !in rest {
        FieldPositionsExactly(v, keys - {k}, p);
        UnderExactly(Entry(k), Positions(v.fields[k]), p);
      }
      JoinSizes(here, rest);
    }
  }

  lemma ItemIsWithin(v: Json, i: nat)
    requires v.JArray? && i < |v.items|
    ensures ContentSize(v.items[i]).height + 1 <= ContentSize(v).height
  {
    ItemsSizeGrows(v, i + 1);
  }

  lemma FieldIsWithin(v: Json, k: string)
    requires v.JObject? && k in v.fields
    ensures ContentSize(v.fields[k]).height + 1 <= ContentSize(v).height
  {
    FieldsSizeWithout(v, v.fields.Keys, k);
  }

  /** No position is deeper than the height. */
  lemma {:induction false} NoDeeperPosition(v: Json, path: seq<Hop>)
    requires At(v, path).Some?
    ensures |path| <= ContentSize(v).height
    decreases |path|
  {
    if path == [] {
    } else {
      match path[0]
      case Item(i) =>
        NoDeeperPosition(v.items[i], path[1..]);
        ItemIsWithin(v, i);
      case Entry(k) =>
        NoDeeperPosition(v.fields[k], path[1..]);
        FieldIsWithin(v, k);
    }
  }

  /** And some position is that deep. */
  lemma {:induction false} DeepestPosition(v: Json) returns (path: seq<Hop>)
    ensures At(v, path).Some? && |path| == ContentSize(v).height
    decreases v, 1, 0
  {
    path := [];
    if v.JArray? && v.items != [] {
      path := DeepestItem(v, |v.items|);
    } else if v.JObject? && v.fields.Keys != {} {
      path := DeepestField(v, v.fields.Keys);
    }
  }

  lemma {:induction false} DeepestItem(v: Json, n: nat) returns (path: seq<Hop>)
    requires v.JArray? && 0 < n <= |v.items|
    ensures At(v, path).Some? && |path| == ItemsSize(v, n).height
    decreases v, 0, n
  {
    var here := DeepestPosition(v.items[n - 1]);
    path := [Item(n - 1)] + here;
    assert path[1..] == here;
    if n > 1 {
      var before := DeepestItem(v, n - 1);
      if |before| > |path| {
        path := before;
      }
    }
  }

  lemma {:induction false} DeepestField(v: Json, keys: set<string>) returns (path: seq<Hop>)
    requires v.JObject? && keys <= v.fields.Keys && keys != {}
    ensures At(v, path).Some? && |path| == FieldsSize(v, keys).height
    decreases v, 0, |keys|
  {
    var k :| k in keys;
    var here := DeepestPosition(v.fields[k]);
    FieldsSizeWithout(v, keys, k);
    path := [Entry(k)] + here;
    assert path[1..] == here;
    if keys - {k} != {} {
      var rest := DeepestField(v, keys - {k});
      if |rest| > |path| {
        path := rest;
      }
    }
  }

  // ---------- bytes ----------

  /** All strings and keys of a value, one after the other. */
  ghost function TextOf(v: Json): string
    decreases v, 1, 0
  {
    match v
    case JString(text) => text
    case JArray(items) => ItemsText(v, |items|)
    case JObject(fields) => FieldsText(v, fields.Keys)
    case _ => ""
  }

  ghost function ItemsText(v: Json, n: nat): string
    requires v.JArray? && n <= |v.items|
    decreases v, 0, n
  {
    if n == 0 then "" else ItemsText(v, n - 1) + TextOf(v.items[n - 1])
  }

  ghost function FieldsText(v: Json, keys: set<string>): string
    requires v.JObject? && keys <= v.fields.Keys
    decreases v, 0, |keys|
  {
    if keys == {} then ""
    else
      var k :| k in keys;
      k + TextOf(v.fields[k]) + FieldsText(v, keys - {k})
  }

  lemma {:induction false} ByteLenAdds(a: string, b: string)
    ensures ByteLen(a + b) == ByteLen(a) + ByteLen(b)
    decreases |a|
  {
    if a == "" {
      assert a + b == b;
    } else {
      assert (a + b)[0] == a[0] && (a + b)[1..] == a[1..] + b;
      ByteLenAdds(a[1..], b);
    }
  }

  /** The UTF-8 length of a character by its code point. */
  lemma CharBytesExactly(c: char)
    ensures CharBytes(c) == if c as int <= 0x7F then 1 else if c as int <= 0x7FF then 2
                            else if c as int <= 0xFFFF then 3 else 4
  {
  }

  /** The bytes counted are those of the text. */
  lemma {:induction false} BytesAreText(v: Json)
    ensures ContentSize(v).bytes == ByteLen(TextOf(v))
    decreases v, 1, 0
  {
    match v
    case JArray(items) => ItemBytes(v, |items|);
    case JObject(fields) => FieldBytes(v, fields.Keys);
    case _ =>
  }

  lemma {:induction false} ItemBytes(v: Json, n: nat)
    requires v.JArray? && n <= |v.items|
    ensures ItemsSize(v, n).bytes == ByteLen(ItemsText(v, n))
    decreases v, 0, n
  {
    if n == 0 {
    } else {
      ItemBytes(v, n - 1);
      BytesAreText(v.items[n - 1]);
      ByteLenAdds(ItemsText(v, n - 1), TextOf(v.items[n - 1]));
    }
  }

  lemma {:induction false} FieldBytes(v: Json, keys: set<string>)
    requires v.JObject? && keys <= v.fields.Keys
    ensures FieldsSize(v, keys).bytes == ByteLen(FieldsText(v, keys))
    decreases v, 0, |keys|
  {
    if keys == {} {
    } else {
      var k :| k in keys && FieldsText(v, keys) == k + TextOf(v.fields[k]) + FieldsText(v, keys - {k});
      FieldsSizeWithout(v, keys, k);
      FieldBytes(v, keys - {k});
      BytesAreText(v.fields[k]);
      ByteLenAdds(k, TextOf(v.fields[k]));
      ByteLenAdds(k + TextOf(v.fields[k]), FieldsText(v, keys - {k}));
    }
  }

  // ---------- the limits ----------

  ghost function PathText(path: seq<string>): string {
    if path == [] then "" else path[0] + PathText(path[1..])
  }

  lemma {:induction false} PathBytesAreText(path: seq<string>)
    ensures PathBytes(path) == ByteLen(PathText(path))
    decreases |path|
  {
    if path == [] {
    } else {
      PathBytesAreText(path[1..]);
      ByteLenAdds(path[0], PathText(path[1..]));
    }
  }

  /** An expectation counts the positions of its value, and the bytes of its path and of its value's text. */
  lemma ItemSizeExactly(item: FieldExpectation)
    ensures ItemSize(item).nodes == |Positions(item.value)|
    ensures ItemSize(item).bytes == ByteLen(PathText(item.path)) + ByteLen(TextOf(item.value))
    ensures ItemSize(item).height == ContentSize(item.value).height
  {
    NodesArePositions(item.value);
    BytesAreText(item.value);
    PathBytesAreText(item.path);
  }

  /** Totals add the nodes and bytes of the items and take the greatest height. */
  lemma TotalsExactly(expected: seq<FieldExpectation>, item: FieldExpectation)
    ensures Totals([]) == Size(0, 0, 0)
    ensures var a, b, all := Totals(expected), ItemSize(item), Totals(expected + [item]);
            all.nodes == a.nodes + b.nodes && all.bytes == a.bytes + b.bytes &&
            all.height >= a.height && all.height >= b.height && (all.height == a.height || all.height == b.height)
  {
    var all := expected + [item];
    assert all[..|all| - 1] == expected && all[|all| - 1] == item;
  }

  /** 1 to 16 keys of 1 to 256 bytes. */
  lemma PathOkExactly(path: seq<string>)
    ensures PathOk(path) <==> 1 <= |path| <= 16 && forall key | key in path :: 1 <= ByteLen(key) <= 256
  {
    assert forall i | 0 <= i < |path| :: path[i] in path;
  }

  ghost predicate ItemsOk(fields: map<string, FieldType>, expected: seq<FieldExpectation>) {
    forall i | 0 <= i < |expected| :: PathOk(expected[i].path) && DeclaredPath(fields, expected[i].path)
  }

  ghost predicate PathsDiffer(expected: seq<FieldExpectation>) {
    forall i, j | 0 <= i < j < |expected| :: expected[i].path != expected[j].path
  }

  /** A request is accepted exactly within these limits. */
  lemma AcceptedExactly(fields: map<string, FieldType>, expected: seq<FieldExpectation>)
    ensures Accepted(fields, expected) <==>
            1 <= |expected| <= 64 && ItemsOk(fields, expected) && PathsDiffer(expected) &&
            Totals(expected).nodes <= 8192 && Totals(expected).bytes <= 65_536 && Totals(expected).height <= 32
  {
  }
}
