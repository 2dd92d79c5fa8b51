/** Value and document validation: server/src/schema/value.rs and its client port. */
module Validation {
  import opened Wrappers
  import opened Json
  import opened Schema

  /**
   The two string formats on which the server and the client differ (a leading `+`
   in an int64, decoding against shape-checking base64). Results that quantify over
   `Formats` hold for both.
   */
  datatype Formats = Formats(int64: string -> bool, bytes: string -> bool)

  predicate IsLowerHex(c: char) {
    '0' <= c <= '9' || 'a' <= c <= 'f'
  }

  predicate IsValidId(s: string) {
    |s| == 32 && forall i | 0 <= i < |s| :: IsLowerHex(s[i])
  }

  /** `validate_value`. Objects are closed; only an `Optional` field may be absent. */
  predicate Valid(f: Formats, ty: FieldType, v: Json)
    decreases ty
  {
    match ty
    case String => v.JString?
    case Number => v.JNumber?
    case Boolean => v.JBool?
    case Null => v.JNull?
    case Id(_, _) => v.JString? && IsValidId(v.s)
    case Literal(expected) => v == expected
    case Optional(inner) => v.JNull? || Valid(f, inner, v)
    case Union(variants) => exists i | 0 <= i < |variants| :: Valid(f, variants[i], v)
    case Array(element) =>
      v.JArray? && forall i | 0 <= i < |v.items| :: Valid(f, element, v.items[i])
    case Object(fields) =>
      v.JObject? && v.fields.Keys <= fields.Keys &&
      forall k | k in fields ::
        if k in v.fields then Valid(f, fields[k], v.fields[k]) else fields[k].Optional?
    case Int64 => v.JString? && f.int64(v.s)
    case Bytes => v.JString? && f.bytes(v.s)
    case Any => true
    case Record(value) =>
      v.JObject? && forall k | k in v.fields :: Valid(f, value, v.fields[k])
    case Vector(dimensions) =>
      v.JArray? && |v.items| == dimensions &&
      forall i | 0 <= i < |v.items| :: v.items[i].JNumber?
  }

  type Doc = map<string, Json>

  predicate IsReserved(key: string) {
    |key| > 0 && key[0] == '_'
  }

  /** `validate_doc` without the per-field write constraints. */
  predicate ValidDoc(f: Formats, fields: map<string, FieldType>, doc: Doc) {
    (forall k | k in doc :: !IsReserved(k) && k in fields) &&
    forall k | k in fields ::
      if k in doc then Valid(f, fields[k], doc[k]) else fields[k].Optional?
  }

  /** `validate_field_type`: scalar literals, nonempty unions, no optional of optional. */
  predicate WellFormedType(ty: FieldType) {
    match ty
    case Literal(v) => v.JString? || v.JNumber? || v.JBool?
    case Optional(inner) => !inner.Optional? && WellFormedType(inner)
    case Union(variants) =>
      variants != [] && forall i | 0 <= i < |variants| :: WellFormedType(variants[i])
    case Array(element) => WellFormedType(element)
    case Object(fields) => forall k | k in fields :: WellFormedType(fields[k])
    case Record(value) => WellFormedType(value)
    case _ => true
  }

  // ---------- what the types accept ----------

  /** A scalar type accepts the values of its own kind and no others. */
  lemma ScalarsAccept(f: Formats, ty: FieldType, v: Json)
    requires ty in {String, Number, Boolean, Null}
    ensures Valid(f, ty, v) <==>
            (ty == String && v.JString?) || (ty == Number && v.JNumber?) ||
            (ty == Boolean && v.JBool?) || (ty == Null && v.JNull?)
  {
  }

  /** Integers and bytes travel as strings of their format; `Any` accepts everything. */
  lemma EncodedAccept(f: Formats, v: Json)
    ensures Valid(f, Int64, v) <==> v.JString? && f.int64(v.s)
    ensures Valid(f, Bytes, v) <==> v.JString? && f.bytes(v.s)
    ensures Valid(f, Any, v)
  {
  }

  /** An id is 32 lower-case hexadecimal digits, whatever table it refers to. */
  lemma IdsAccept(f: Formats, table: string, action: Option<OnDeleteAction>, v: Json)
    ensures Valid(f, Id(table, action), v) <==>
            v.JString? && |v.s| == 32 && forall c | c in v.s :: c in "0123456789abcdef"
  {
    if v.JString? {
      forall i | 0 <= i < |v.s| ensures IsLowerHex(v.s[i]) <==> v.s[i] in "0123456789abcdef" {
        HexDigits(v.s[i]);
      }
    }
  }

  lemma HexDigits(c: char)
    ensures IsLowerHex(c) <==> c in "0123456789abcdef"
  {
    if '0' <= c <= '9' {
      assert "0123456789abcdef"[c as int - '0' as int] == c;
    } else if 'a' <= c <= 'f' {
      assert "0123456789abcdef"[10 + c as int - 'a' as int] == c;
    }
  }

  lemma OptionalsAccept(f: Formats, ty: FieldType, v: Json)
    ensures Valid(f, Optional(ty), v) <==> v.JNull? || Valid(f, ty, v)
  {
  }

  lemma ArraysAccept(f: Formats, ty: FieldType, v: Json)
    ensures Valid(f, Array(ty), v) <==> v.JArray? && forall x | x in v.items :: Valid(f, ty, x)
  {
    if v.JArray? {
      assert forall i | 0 <= i < |v.items| :: v.items[i] in v.items;
      if Valid(f, Array(ty), v) {
        forall x | x in v.items ensures Valid(f, ty, x) {
          var i :| 0 <= i < |v.items| && v.items[i] == x;
        }
      }
    }
  }

  lemma RecordsAccept(f: Formats, ty: FieldType, v: Json)
    ensures Valid(f, Record(ty), v) <==> v.JObject? && forall k | k in v.fields :: Valid(f, ty, v.fields[k])
  {
  }

  /** A union accepts what some variant accepts. */
  lemma UnionsAccept(f: Formats, variants: seq<FieldType>, v: Json)
    ensures Valid(f, Union(variants), v) <==> exists ty :: ty in variants && Valid(f, ty, v)
  {
    if ty :| ty in variants && Valid(f, ty, v) {
      var i :| 0 <= i < |variants| && variants[i] == ty;
      assert Valid(f, variants[i], v);
    }
  }

  /** An object is closed: no other keys, and every field there and valid or optional and absent. */
  lemma ObjectsAccept(f: Formats, fields: map<string, FieldType>, v: Json)
    ensures Valid(f, Object(fields), v) <==>
            v.JObject? && (forall k | k in v.fields :: k in fields && Valid(f, fields[k], v.fields[k])) &&
            forall k | k in fields && k !in v.fields :: fields[k].Optional?
  {
  }

  /** A vector is an array of that many numbers; a literal is that one value. */
  lemma RigidTypesAccept(f: Formats, n: nat, expected: Json, v: Json)
    ensures Valid(f, Vector(n), v) <==> v.JArray? && |v.items| == n && forall x | x in v.items :: x.JNumber?
    ensures Valid(f, Literal(expected), v) <==> v == expected
  {
  }

  /** A document is valid when it is as an object and has no reserved key. */
  lemma DocumentsAccept(f: Formats, fields: map<string, FieldType>, doc: Doc)
    ensures ValidDoc(f, fields, doc) <==>
            Valid(f, Object(fields), JObject(doc)) && forall k | k in doc :: k == "" || k[0] != '_'
  {
  }

  /** `sub` occurs in `ty`. */
  ghost predicate OccursIn(sub: FieldType, ty: FieldType)
    decreases ty
  {
    sub == ty ||
    match ty
    case Optional(inner) => OccursIn(sub, inner)
    case Union(variants) => exists i | 0 <= i < |variants| :: OccursIn(sub, variants[i])
    case Array(element) => OccursIn(sub, element)
    case Object(fields) => exists k | k in fields :: OccursIn(sub, fields[k])
    case Record(value) => OccursIn(sub, value)
    case _ => false
  }

  /** What a push refuses in a type. */
  ghost predicate IsMalformed(ty: FieldType) {
    (ty.Literal? && (ty.value.JNull? || ty.value.JArray? || ty.value.JObject?)) ||
    ty == Union([]) || (ty.Optional? && ty.inner.Optional?)
  }

  /** A type is well formed exactly when nothing in it is malformed. */
  lemma {:induction false} WellFormedExactly(ty: FieldType)
    ensures WellFormedType(ty) <==> forall sub | OccursIn(sub, ty) :: !IsMalformed(sub)
  {
    assert OccursIn(ty, ty);
    match ty
    case Optional(inner) =>
      WellFormedExactly(inner);
      assert OccursIn(inner, inner);
    case Array(element) => WellFormedExactly(element);
    case Record(value) => WellFormedExactly(value);
    case Union(variants) =>
      forall i | 0 <= i < |variants| { WellFormedExactly(variants[i]); }
    case Object(fields) =>
      forall k | k in fields { WellFormedExactly(fields[k]); }
    case _ =>
  }
}
