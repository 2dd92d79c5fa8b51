/**
 The document rule of a patch, `apply_patch` of rust-client/src/in_memory/validate.rs, and
 what it does to the references that `onDelete: setNull` unsets.
 */
module Patching {
  import opened Wrappers
  import opened Json
  import opened Wire
  import opened Schema
  import opened Validation
  import opened Ordering
  import opened FieldGuard
  import opened Fields
  import opened Evaluation
  import opened Mutation
  import opened Measures
  import opened Execution
  import opened Cascades
  import opened Integrity
  import Stamping = RenameMigration

  /** What `apply_patch` consults besides the table: leaf primitives, number formatting and write constraints. */
  datatype Rules = Rules(
    formats: Formats,
    ops: Ops,
    decimal: I64 -> string,
    meets: (FieldType, FieldConstraints, Json) -> bool)

  // ---------- the operation ----------

  /** `stamp_updated_at`. */
  function StampUpdatedAt(rules: Rules, t: TableDef, fields: Doc, now: I64): Doc {
    match t.updatedAtField
    case None => fields
    case Some(u) => fields[u := if Get(t.fields, u) == Some(Int64) then JString(rules.decimal(now)) else FromI64(now)]
  }

  /** `validate_doc` with the write constraints. */
  predicate Admits(rules: Rules, t: TableDef, doc: Doc) {
    ValidDoc(rules.formats, t.fields, doc) &&
    forall k | k in doc && k in t.constraints && k in t.fields && !doc[k].JNull? ::
      rules.meets(t.fields[k], t.constraints[k], doc[k])
  }

  /** A null for an optional field whose inner type has no null removes the key. */
  predicate Strips(f: Formats, ty: FieldType, v: Json) {
    ty.Optional? && v.JNull? && !Valid(f, ty.inner, v)
  }

  /** A computed key is ignored; any other must be declared and have a valid value. */
  predicate Takes(rules: Rules, t: TableDef, k: string, v: Json) {
    k in t.computed || (k in t.fields && Valid(rules.formats, t.fields[k], v))
  }

  /** What the merged document holds at `k`. */
  function MergedAt(rules: Rules, t: TableDef, doc: Doc, fields: Doc, k: string): Option<Json> {
    if k !in fields || k in t.computed || k !in t.fields then Get(doc, k)
    else if Strips(rules.formats, t.fields[k], fields[k]) then None
    else Some(fields[k])
  }

  function Merged(rules: Rules, t: TableDef, doc: Doc, fields: Doc): (r: Doc)
    ensures forall k :: Get(r, k) == MergedAt(rules, t, doc, fields, k)
  {
    map k | k in doc.Keys + fields.Keys && MergedAt(rules, t, doc, fields, k).Some?
      :: MergedAt(rules, t, doc, fields, k).value
  }

  predicate TakesAll(rules: Rules, t: TableDef, fields: Doc) {
    forall k | k in fields :: Takes(rules, t, k, fields[k])
  }

  /** A patch may not give the counter another value. */
  predicate ChangesCounter(t: TableDef, doc: Doc, fields: Doc) {
    t.autoIncrementField.Some? && t.autoIncrementField.value in fields &&
    Get(doc, t.autoIncrementField.value) != Some(fields[t.autoIncrementField.value])
  }

  /** `apply_patch`: merge, stamp the computed fields anew, validate the whole. */
  function Patched(rules: Rules, t: TableDef, doc: Doc, fields: Doc, now: I64): Result<Doc, ErrorCode> {
    if ChangesCounter(t, doc, fields) then Err(BadRequest)
    else if !TakesAll(rules, t, fields) then Err(SchemaViolation)
    else
      match Stamping.Stamped(rules.ops, t, Merged(rules, t, doc, fields), now, Sorted(t.computed.Keys))
      case Err(_) => Err(BadRequest)
      case Ok(stamped) => if Admits(rules, t, stamped) then Ok(stamped) else Err(SchemaViolation)
  }

  /** One turn of the merge loop. */
  function MergeOne(f: Formats, ty: FieldType, merged: Doc, k: string, v: Json): Doc {
    if Strips(f, ty, v) then merged - {k} else merged[k := v]
  }

  /** The keys in `names` are merged, the others are as they were. */
  ghost predicate IsMergedOn(rules: Rules, t: TableDef, doc: Doc, fields: Doc, merged: Doc, names: seq<string>) {
    forall k :: Get(merged, k) == if k in names then MergedAt(rules, t, doc, fields, k) else Get(doc, k)
  }

  lemma MergeOneMore(
    rules: Rules, t: TableDef, doc: Doc, fields: Doc, merged: Doc, names: seq<string>, k: string)
    requires IsMergedOn(rules, t, doc, fields, merged, names) && k in fields && k in t.fields && k !in t.computed
    ensures IsMergedOn(rules, t, doc, fields, MergeOne(rules.formats, t.fields[k], merged, k, fields[k]), names + [k])
  {
    var next := MergeOne(rules.formats, t.fields[k], merged, k, fields[k]);
    forall j ensures Get(next, j) == if j in names + [k] then MergedAt(rules, t, doc, fields, j) else Get(doc, j) {
      assert j != k ==> Get(next, j) == Get(merged, j);
    }
  }

  lemma SkipOneMore(rules: Rules, t: TableDef, doc: Doc, fields: Doc, merged: Doc, names: seq<string>, k: string)
    requires IsMergedOn(rules, t, doc, fields, merged, names) && k in t.computed
    ensures IsMergedOn(rules, t, doc, fields, merged, names + [k])
  {
  }

  lemma MergedOnAll(rules: Rules, t: TableDef, doc: Doc, fields: Doc, merged: Doc, names: seq<string>)
    requires IsMergedOn(rules, t, doc, fields, merged, names) && forall k | k in fields :: k in names
    ensures merged == Merged(rules, t, doc, fields)
  {
    forall k ensures Get(merged, k) == Get(Merged(rules, t, doc, fields), k) {
      assert k !in names ==> k !in fields;
    }
    SameLookups(merged, Merged(rules, t, doc, fields));
  }

  lemma SameLookups(a: Doc, b: Doc)
    requires forall k :: Get(a, k) == Get(b, k)
    ensures a == b
  {
    forall k | k in a.Keys + b.Keys ensures k in a && k in b && a[k] == b[k] {
      assert Get(a, k) == Get(b, k);
    }
  }

  /** The loop over the patch's keys, up to its end or its first bad key. */
  function MergeNames(rules: Rules, t: TableDef, merged: Doc, fields: Doc, names: seq<string>): Result<Doc, ErrorCode>
    requires forall k | k in names :: k in fields
    decreases |names|
  {
    if names == [] then Ok(merged)
    else
      var k := names[0];
      if k in t.computed then MergeNames(rules, t, merged, fields, names[1..])
      else if !Takes(rules, t, k, fields[k]) then Err(SchemaViolation)
      else MergeNames(rules, t, MergeOne(rules.formats, t.fields[k], merged, k, fields[k]), fields, names[1..])
  }

  ghost predicate TakesNames(rules: Rules, t: TableDef, fields: Doc, names: seq<string>) {
    forall k | k in names && k in fields :: Takes(rules, t, k, fields[k])
  }

  lemma {:induction false} MergeNamesExactly(
    rules: Rules, t: TableDef, doc: Doc, fields: Doc, merged: Doc, done: seq<string>, names: seq<string>)
    requires IsMergedOn(rules, t, doc, fields, merged, done) && forall k | k in names :: k in fields
    ensures var r := MergeNames(rules, t, merged, fields, names);
            if TakesNames(rules, t, fields, names) then
              r.Ok? && IsMergedOn(rules, t, doc, fields, r.value, done + names)
            else r == Err(SchemaViolation)
    decreases |names|
  {
    if names == [] {
      assert done + names == done;
    } else {
      var k, rest := names[0], names[1..];
      assert done + [k] + rest == done + names;
      assert TakesNames(rules, t, fields, names) <==>
             Takes(rules, t, k, fields[k]) && TakesNames(rules, t, fields, rest);
      if k in t.computed {
        SkipOneMore(rules, t, doc, fields, merged, done, k);
        MergeNamesExactly(rules, t, doc, fields, merged, done + [k], rest);
      } else if Takes(rules, t, k, fields[k]) {
        var next := MergeOne(rules.formats, t.fields[k], merged, k, fields[k]);
        MergeOneMore(rules, t, doc, fields, merged, done, k);
        MergeNamesExactly(rules, t, doc, fields, next, done + [k], rest);
      }
    }
  }

  lemma MergeIsMerged(rules: Rules, t: TableDef, doc: Doc, fields: Doc)
    ensures MergeNames(rules, t, doc, fields, Sorted(fields.Keys))
         == if TakesAll(rules, t, fields) then Ok(Merged(rules, t, doc, fields)) else Err(SchemaViolation)
  {
    var names := Sorted(fields.Keys);
    assert [] + names == names;
    MergeNamesExactly(rules, t, doc, fields, doc, [], names);
    assert TakesNames(rules, t, fields, names) <==> TakesAll(rules, t, fields);
    if TakesAll(rules, t, fields) {
      MergedOnAll(rules, t, doc, fields, MergeNames(rules, t, doc, fields, names).value, names);
    }
  }

  method MergeInOrder(rules: Rules, t: TableDef, doc: Doc, fields: Doc, names: seq<string>)
    returns (r: Result<Doc, ErrorCode>)
    requires forall k | k in names :: k in fields
    ensures r == MergeNames(rules, t, doc, fields, names)
  {
    var merged := doc;
    for i := 0 to |names|
      invariant MergeNames(rules, t, merged, fields, names[i..]) == MergeNames(rules, t, doc, fields, names)
    {
      var k := names[i];
      assert names[i..][0] == k && names[i..][1..] == names[i + 1..];
      if k !in t.computed {
        if !Takes(rules, t, k, fields[k]) {
          return Err(SchemaViolation);
        }
        merged := MergeOne(rules.formats, t.fields[k], merged, k, fields[k]);
      }
    }
    return Ok(merged);
  }

  method MergePatch(rules: Rules, t: TableDef, doc: Doc, fields: Doc) returns (r: Result<Doc, ErrorCode>)
    ensures r == if TakesAll(rules, t, fields) then Ok(Merged(rules, t, doc, fields)) else Err(SchemaViolation)
  {
    r := MergeInOrder(rules, t, doc, fields, Sorted(fields.Keys));
    MergeIsMerged(rules, t, doc, fields);
  }

  method ApplyPatch(rules: Rules, t: TableDef, doc: Doc, fields: Doc, now: I64) returns (r: Result<Doc, ErrorCode>)
    ensures r == Patched(rules, t, doc, fields, now)
  {
    if ChangesCounter(t, doc, fields) {
      return Err(BadRequest);
    }
    var merged := MergePatch(rules, t, doc, fields);
    if merged.Err? {
      return merged;
    }
    var stamped := Stamping.StampComputed(rules.ops, t, merged.value, now);
    if stamped.Err? {
      return Err(BadRequest);
    }
    if !Admits(rules, t, stamped.value) {
      return Err(SchemaViolation);
    }
    return Ok(stamped.value);
  }

  // ---------- what it computes ----------

  /** An accepted patch leaves, at every key, the computed value, else the patched one, else the old one. */
  lemma PatchedExactly(rules: Rules, t: TableDef, doc: Doc, fields: Doc, now: I64)
    requires Stamping.ComputedClosed(t) && Patched(rules, t, doc, fields, now).Ok?
    ensures Admits(rules, t, Patched(rules, t, doc, fields, now).value)
    ensures forall k :: Get(Patched(rules, t, doc, fields, now).value, k) ==
              if k in t.computed then Stamping.StampedAt(rules.ops, t, Merged(rules, t, doc, fields), now, k)
              else MergedAt(rules, t, doc, fields, k)
  {
    Stamping.StampingIsPointwise(rules.ops, t, Merged(rules, t, doc, fields), now, Sorted(t.computed.Keys));
  }

  /** A null that unsets an optional field rather than being stored. */
  ghost predicate Unsets(rules: Rules, t: TableDef, k: string) {
    k in t.fields && t.fields[k].Optional? && !Valid(rules.formats, t.fields[k].inner, JNull)
  }

  /** At a key that is not computed: the patch's value, absent where its null unsets the field, else what was there. */
  ghost predicate HoldsPatch(rules: Rules, t: TableDef, doc: Doc, fields: Doc, r: Doc, k: string) {
    (k in fields && !fields[k].JNull? ==> Get(r, k) == Some(fields[k])) &&
    (k in fields && fields[k].JNull? && Unsets(rules, t, k) ==> k !in r) &&
    (k in fields && fields[k].JNull? && !Unsets(rules, t, k) ==> Get(r, k) == Some(JNull)) &&
    (k !in fields ==> Get(r, k) == Get(doc, k))
  }

  /** At a computed key: the value of its expression on the document itself, absent when that is null. */
  ghost predicate HoldsComputed(rules: Rules, t: TableDef, r: Doc, now: I64, k: string)
    requires k in t.computed
  {
    var v := Eval(rules.ops, t.computed[k], Ctx(r, t.fields, now));
    v.Ok? && Get(r, k) == if v.value.JNull? then None else Some(v.value)
  }

  ghost predicate HoldsAllPatch(rules: Rules, t: TableDef, doc: Doc, fields: Doc, r: Doc) {
    forall k | k !in t.computed :: HoldsPatch(rules, t, doc, fields, r, k)
  }

  ghost predicate HoldsAllComputed(rules: Rules, t: TableDef, r: Doc, now: I64) {
    forall k | k in t.computed :: HoldsComputed(rules, t, r, now, k)
  }

  /** Valid, and each value within the constraints of its field. */
  ghost predicate MayBeStored(rules: Rules, t: TableDef, r: Doc) {
    ValidDoc(rules.formats, t.fields, r) &&
    forall k | k in r && k in t.fields && k in t.constraints && !r[k].JNull? ::
      rules.meets(t.fields[k], t.constraints[k], r[k])
  }

  /** The document a patch should give, said without how it is computed. */
  ghost predicate IsPatchOf(rules: Rules, t: TableDef, doc: Doc, fields: Doc, now: I64, r: Doc) {
    HoldsAllComputed(rules, t, r, now) && HoldsAllPatch(rules, t, doc, fields, r) && MayBeStored(rules, t, r)
  }

  /** What a patch may contain: declared keys with valid values, computed keys ignored, the counter as it is. */
  ghost predicate MayPatch(rules: Rules, t: TableDef, doc: Doc, fields: Doc) {
    (forall k | k in fields && k !in t.computed :: k in t.fields && Valid(rules.formats, t.fields[k], fields[k])) &&
    forall k | k in fields && t.autoIncrementField == Some(k) :: Get(doc, k) == Some(fields[k])
  }

  lemma MergedHoldsPatch(rules: Rules, t: TableDef, doc: Doc, fields: Doc, k: string)
    requires k !in t.computed && (k in fields ==> k in t.fields && Valid(rules.formats, t.fields[k], fields[k]))
    ensures HoldsPatch(rules, t, doc, fields, Merged(rules, t, doc, fields), k)
  {
    assert Get(Merged(rules, t, doc, fields), k) == MergedAt(rules, t, doc, fields, k);
  }

  /** The documents agree outside the computed keys. */
  ghost predicate SameOutside(t: TableDef, a: Doc, b: Doc) {
    forall x | x !in t.computed :: Get(a, x) == Get(b, x)
  }

  lemma ComputesAlike(rules: Rules, t: TableDef, a: Doc, b: Doc, now: I64, k: string)
    requires Stamping.ComputedClosed(t) && k in t.computed && SameOutside(t, a, b)
    ensures Eval(rules.ops, t.computed[k], Ctx(a, t.fields, now))
         == Eval(rules.ops, t.computed[k], Ctx(b, t.fields, now))
  {
    EvaluationReadsOnlyWalkedFields(rules.ops, t.computed[k], Ctx(a, t.fields, now), Ctx(b, t.fields, now));
  }

  lemma MayPatchExactly(rules: Rules, t: TableDef, doc: Doc, fields: Doc)
    ensures MayPatch(rules, t, doc, fields) <==> TakesAll(rules, t, fields) && !ChangesCounter(t, doc, fields)
  {
    assert forall k | k in fields && k !in t.computed :: Takes(rules, t, k, fields[k]) <==>
             k in t.fields && Valid(rules.formats, t.fields[k], fields[k]);
  }

  /** Outside the computed keys, holding the patch is agreeing with the merged document. */
  lemma HoldsPatchExactly(rules: Rules, t: TableDef, doc: Doc, fields: Doc, r: Doc)
    requires MayPatch(rules, t, doc, fields)
    ensures HoldsAllPatch(rules, t, doc, fields, r) <==>
            SameOutside(t, r, Merged(rules, t, doc, fields))
  {
    var merged := Merged(rules, t, doc, fields);
    forall k | k !in t.computed ensures HoldsPatch(rules, t, doc, fields, r, k) <==> Get(r, k) == Get(merged, k) {
      MergedHoldsPatch(rules, t, doc, fields, k);
    }
  }

  lemma HoldsComputedIs(rules: Rules, t: TableDef, merged: Doc, now: I64, r: Doc, k: string)
    requires Stamping.ComputedClosed(t) && SameOutside(t, r, merged) && k in t.computed
    ensures HoldsComputed(rules, t, r, now, k) <==>
            Stamping.Outcome(rules.ops, t, merged, now, k).Ok? &&
            Get(r, k) == Stamping.StampedAt(rules.ops, t, merged, now, k)
  {
    ComputesAlike(rules, t, r, merged, now, k);
  }

  lemma StampedHolds(rules: Rules, t: TableDef, merged: Doc, now: I64, r: Doc)
    requires Stamping.ComputedClosed(t) && SameOutside(t, r, merged)
    requires Stamping.Stamped(rules.ops, t, merged, now, Sorted(t.computed.Keys)) == Ok(r)
    ensures HoldsAllComputed(rules, t, r, now)
  {
    Stamping.StampingIsPointwise(rules.ops, t, merged, now, Sorted(t.computed.Keys));
    forall k | k in t.computed ensures HoldsComputed(rules, t, r, now, k) {
      HoldsComputedIs(rules, t, merged, now, r, k);
    }
  }

  lemma HeldIsStamped(rules: Rules, t: TableDef, merged: Doc, now: I64, r: Doc)
    requires Stamping.ComputedClosed(t) && SameOutside(t, r, merged) && HoldsAllComputed(rules, t, r, now)
    ensures Stamping.Stamped(rules.ops, t, merged, now, Sorted(t.computed.Keys)) == Ok(r)
  {
    var stamped := Stamping.Stamped(rules.ops, t, merged, now, Sorted(t.computed.Keys));
    forall k | k in t.computed
      ensures Stamping.Outcome(rules.ops, t, merged, now, k).Ok? &&
              Get(r, k) == Stamping.StampedAt(rules.ops, t, merged, now, k)
    {
      HoldsComputedIs(rules, t, merged, now, r, k);
    }
    Stamping.StampingIsPointwise(rules.ops, t, merged, now, Sorted(t.computed.Keys));
    SameStamped(rules, t, merged, now, stamped.value, r);
  }

  lemma SameStamped(rules: Rules, t: TableDef, merged: Doc, now: I64, a: Doc, b: Doc)
    requires Stamping.IsStamped(rules.ops, t, merged, now, a) && SameOutside(t, b, merged)
    requires forall k | k in t.computed :: Get(b, k) == Stamping.StampedAt(rules.ops, t, merged, now, k)
    ensures a == b
  {
    forall k ensures Get(a, k) == Get(b, k) {
      assert Get(a, k) == Stamping.StampedAt(rules.ops, t, merged, now, k);
    }
    SameLookups(a, b);
  }

  lemma StampedAgrees(rules: Rules, t: TableDef, merged: Doc, now: I64, r: Doc)
    requires Stamping.ComputedClosed(t)
    requires Stamping.Stamped(rules.ops, t, merged, now, Sorted(t.computed.Keys)) == Ok(r)
    ensures SameOutside(t, r, merged)
  {
    Stamping.StampingIsPointwise(rules.ops, t, merged, now, Sorted(t.computed.Keys));
  }

  lemma PatchedFrom(rules: Rules, t: TableDef, doc: Doc, fields: Doc, now: I64, r: Doc)
    ensures Patched(rules, t, doc, fields, now) == Ok(r) <==>
            MayPatch(rules, t, doc, fields) && Admits(rules, t, r) &&
            Stamping.Stamped(rules.ops, t, Merged(rules, t, doc, fields), now, Sorted(t.computed.Keys)) == Ok(r)
  {
    MayPatchExactly(rules, t, doc, fields);
  }

  lemma PatchedIsPatch(rules: Rules, t: TableDef, doc: Doc, fields: Doc, now: I64, r: Doc)
    requires Stamping.ComputedClosed(t) && Patched(rules, t, doc, fields, now) == Ok(r)
    ensures MayPatch(rules, t, doc, fields) && IsPatchOf(rules, t, doc, fields, now, r)
  {
    var merged := Merged(rules, t, doc, fields);
    PatchedFrom(rules, t, doc, fields, now, r);
    StampedAgrees(rules, t, merged, now, r);
    StampedHolds(rules, t, merged, now, r);
    HoldsPatchExactly(rules, t, doc, fields, r);
  }

  lemma PatchIsPatched(rules: Rules, t: TableDef, doc: Doc, fields: Doc, now: I64, r: Doc)
    requires Stamping.ComputedClosed(t) && MayPatch(rules, t, doc, fields)
    requires IsPatchOf(rules, t, doc, fields, now, r)
    ensures Patched(rules, t, doc, fields, now) == Ok(r)
  {
    HoldsPatchExactly(rules, t, doc, fields, r);
    HeldIsStamped(rules, t, Merged(rules, t, doc, fields), now, r);
    PatchedFrom(rules, t, doc, fields, now, r);
  }

  /** A patch is accepted with a result exactly when it may be made and the result is what it should give. */
  lemma PatchExactly(rules: Rules, t: TableDef, doc: Doc, fields: Doc, now: I64, r: Doc)
    requires Stamping.ComputedClosed(t)
    ensures Patched(rules, t, doc, fields, now) == Ok(r) <==>
            MayPatch(rules, t, doc, fields) && IsPatchOf(rules, t, doc, fields, now, r)
  {
    if Patched(rules, t, doc, fields, now) == Ok(r) {
      PatchedIsPatch(rules, t, doc, fields, now, r);
    } else if MayPatch(rules, t, doc, fields) && IsPatchOf(rules, t, doc, fields, now, r) {
      PatchIsPatched(rules, t, doc, fields, now, r);
    }
  }

  /** The errors, in the order of the checks. */
  lemma PatchErrors(rules: Rules, t: TableDef, doc: Doc, fields: Doc, now: I64)
    ensures var r := Patched(rules, t, doc, fields, now);
            var counter := exists k :: k in fields && t.autoIncrementField == Some(k) && Get(doc, k) != Some(fields[k]);
            if counter then r == Err(BadRequest)
            else if !MayPatch(rules, t, doc, fields) then r == Err(SchemaViolation)
            else r.Ok? || r.error in {BadRequest, SchemaViolation}
  {
    MayPatchExactly(rules, t, doc, fields);
  }

  /** The document rule of `do_patch`. */
  function PatchDoc(rules: Rules, t: TableDef, doc: Doc, fields: Doc, now: I64): Result<Doc, ErrorCode> {
    Patched(rules, t, doc, StampUpdatedAt(rules, t, fields, now), now)
  }

  /** And apart from that stamp, the keys that are not computed hold the patch. */
  lemma PatchDocHolds(rules: Rules, t: TableDef, doc: Doc, fields: Doc, now: I64, k: string)
    requires Stamping.ComputedClosed(t) && t.updatedAtField != Some(k) && k !in t.computed
    requires PatchDoc(rules, t, doc, fields, now).Ok?
    ensures HoldsPatch(rules, t, doc, fields, PatchDoc(rules, t, doc, fields, now).value, k)
  {
    var stamped := StampUpdatedAt(rules, t, fields, now);
    PatchExactly(rules, t, doc, stamped, now, Patched(rules, t, doc, stamped, now).value);
    assert HoldsPatch(rules, t, doc, stamped, Patched(rules, t, doc, stamped, now).value, k);
  }

  /** Every accepted patch stamps the time of the write. */
  lemma UpdatedAtIsStamped(rules: Rules, t: TableDef, doc: Doc, fields: Doc, now: I64, u: string)
    requires Stamping.ComputedClosed(t) && t.updatedAtField == Some(u) && u !in t.computed
    requires PatchDoc(rules, t, doc, fields, now).Ok?
    ensures Get(PatchDoc(rules, t, doc, fields, now).value, u)
         == Some(if Get(t.fields, u) == Some(Int64) then JString(rules.decimal(now)) else FromI64(now))
  {
    var stamped := StampUpdatedAt(rules, t, fields, now);
    PatchExactly(rules, t, doc, stamped, now, Patched(rules, t, doc, stamped, now).value);
    assert HoldsPatch(rules, t, doc, stamped, Patched(rules, t, doc, stamped, now).value, u);
  }

  // ---------- unsetting a reference ----------

  /** Push-time rules for the fields that are stamped on every write or counted. */
  ghost predicate SettingsTyped(t: TableDef) {
    (t.updatedAtField.Some? ==>
       Get(t.fields, t.updatedAtField.value) in {Some(FieldType.Number), Some(FieldType.Int64)}) &&
    (t.autoIncrementField.Some? ==> Get(t.fields, t.autoIncrementField.value) == Some(FieldType.Int64)) &&
    (t.updatedAtField.Some? ==> t.updatedAtField != t.autoIncrementField)
  }

  ghost predicate IsReference(t: TableDef, k: string) {
    k in t.fields && exists parent :: OnDeleteRef(t.fields[k], parent).Some?
  }

  /** No computed field but `k` is a reference with an `onDelete` action. */
  ghost predicate ComputesNoOther(t: TableDef, k: string) {
    forall j | j in t.computed && j != k :: !IsReference(t, j)
  }

  lemma SettingsAreNoReferences(t: TableDef, k: string)
    requires SettingsTyped(t) && IsReference(t, k)
    ensures t.updatedAtField != Some(k) && t.autoIncrementField != Some(k)
  {
  }

  function Unset(rules: Rules, t: TableDef, doc: Doc, k: string, now: I64): Result<Doc, ErrorCode> {
    PatchDoc(rules, t, doc, map[k := JNull], now)
  }

  lemma NullIsMerged(rules: Rules, t: TableDef, doc: Doc, k: string, now: I64)
    requires k in t.fields && k !in t.computed && t.updatedAtField != Some(k)
    ensures MergedAt(rules, t, doc, StampUpdatedAt(rules, t, map[k := JNull], now), k) in {None, Some(JNull)}
  {
  }

  lemma NullIsNoReference(rules: Rules, t: TableDef, doc: Doc, k: string, now: I64)
    requires Stamping.ComputedClosed(t) && SettingsTyped(t) && IsReference(t, k) && k !in t.computed
    requires Unset(rules, t, doc, k, now).Ok?
    ensures Forgets(Unset(rules, t, doc, k, now).value, k)
  {
    SettingsAreNoReferences(t, k);
    NullIsMerged(rules, t, doc, k, now);
    PatchedExactly(rules, t, doc, StampUpdatedAt(rules, t, map[k := JNull], now), now);
  }

  lemma OtherIsKept(rules: Rules, t: TableDef, doc: Doc, k: string, now: I64, j: string)
    requires Stamping.ComputedClosed(t) && SettingsTyped(t) && ComputesNoOther(t, k) && j != k && IsReference(t, j)
    requires Unset(rules, t, doc, k, now).Ok?
    ensures Get(Unset(rules, t, doc, k, now).value, j) == Get(doc, j)
  {
    SettingsAreNoReferences(t, j);
    PatchedExactly(rules, t, doc, StampUpdatedAt(rules, t, map[k := JNull], now), now);
  }

  lemma OthersAreNotAdded(rules: Rules, t: TableDef, doc: Doc, k: string, now: I64)
    requires Stamping.ComputedClosed(t) && SettingsTyped(t) && ComputesNoOther(t, k)
    requires Unset(rules, t, doc, k, now).Ok?
    ensures NoOtherReferences(t.fields, doc, Unset(rules, t, doc, k, now).value, k)
  {
    forall j, parent | j in t.fields && j != k && OnDeleteRef(t.fields[j], parent).Some?
      ensures Get(Unset(rules, t, doc, k, now).value, j) == Get(doc, j)
    {
      OtherIsKept(rules, t, doc, k, now, j);
    }
  }

  /** A stored document whose computed fields are up to date. */
  ghost predicate Settled(rules: Rules, t: TableDef, doc: Doc, now: I64) {
    Admits(rules, t, doc) && Stamping.AllSucceed(rules.ops, t, doc, now) &&
    Stamping.IsStamped(rules.ops, t, doc, now, doc)
  }

  lemma SettledIsFixed(rules: Rules, t: TableDef, doc: Doc, now: I64)
    requires Stamping.ComputedClosed(t) && Settled(rules, t, doc, now)
    ensures Stamping.Stamped(rules.ops, t, doc, now, Sorted(t.computed.Keys)) == Ok(doc)
  {
    Stamping.StampingIsPointwise(rules.ops, t, doc, now, Sorted(t.computed.Keys));
    SameLookups(Stamping.Stamped(rules.ops, t, doc, now, Sorted(t.computed.Keys)).value, doc);
  }

  lemma NothingIsMerged(rules: Rules, t: TableDef, doc: Doc, fields: Doc)
    requires forall k | k in fields :: k in t.computed
    ensures TakesAll(rules, t, fields) && Merged(rules, t, doc, fields) == doc
  {
    SameLookups(Merged(rules, t, doc, fields), doc);
  }

  lemma SettledIsKept(rules: Rules, t: TableDef, doc: Doc, fields: Doc, now: I64)
    requires Stamping.ComputedClosed(t) && Settled(rules, t, doc, now) && !ChangesCounter(t, doc, fields)
    requires forall k | k in fields :: k in t.computed
    ensures Patched(rules, t, doc, fields, now) == Ok(doc)
  {
    NothingIsMerged(rules, t, doc, fields);
    SettledIsFixed(rules, t, doc, now);
  }

  /** Unsetting a computed reference gives the document back: the stamp restores what the merge ignored. */
  lemma ComputedComesBack(rules: Rules, t: TableDef, doc: Doc, k: string, now: I64)
    requires Stamping.ComputedClosed(t) && SettingsTyped(t) && IsReference(t, k) && k in t.computed
    requires t.updatedAtField.None? && Settled(rules, t, doc, now)
    ensures Unset(rules, t, doc, k, now) == Ok(doc)
  {
    SettingsAreNoReferences(t, k);
    SettledIsKept(rules, t, doc, map[k := JNull], now);
  }

  /** The expression of `k` does not read the time stamp of the write. */
  ghost predicate IgnoresUpdates(t: TableDef, k: string) {
    k in t.computed && t.updatedAtField.Some? ==> t.updatedAtField.value !in ValueFields(t.computed[k])
  }

  /** A computed reference survives every unset of it that is accepted. */
  lemma ComputedStays(rules: Rules, t: TableDef, doc: Doc, k: string, now: I64)
    requires Stamping.ComputedClosed(t) && k in t.computed && IgnoresUpdates(t, k)
    requires Settled(rules, t, doc, now) && Unset(rules, t, doc, k, now).Ok?
    ensures Get(Unset(rules, t, doc, k, now).value, k) == Get(doc, k)
  {
    var fields := StampUpdatedAt(rules, t, map[k := JNull], now);
    var merged := Merged(rules, t, doc, fields);
    PatchedExactly(rules, t, doc, fields, now);
    forall x | x in ValueFields(t.computed[k]) ensures Get(merged, x) == Get(doc, x) {
      assert MergedAt(rules, t, doc, fields, x) == Get(doc, x);
    }
    EvaluationReadsOnlyWalkedFields(rules.ops, t.computed[k], Ctx(merged, t.fields, now), Ctx(doc, t.fields, now));
    assert Get(doc, k) == Stamping.StampedAt(rules.ops, t, doc, now, k);
  }

  /** An unset that is accepted removes the reference exactly when the field is not computed. */
  lemma UnsetForgetsExactly(rules: Rules, t: TableDef, doc: Doc, k: string, id: string, now: I64)
    requires Stamping.ComputedClosed(t) && SettingsTyped(t) && IsReference(t, k) && IgnoresUpdates(t, k)
    requires Settled(rules, t, doc, now) && Get(doc, k) == Some(JString(id)) && Unset(rules, t, doc, k, now).Ok?
    ensures Forgets(Unset(rules, t, doc, k, now).value, k) <==> k !in t.computed
    ensures k in t.computed ==> Get(Unset(rules, t, doc, k, now).value, k) == Some(JString(id))
  {
    if k in t.computed {
      ComputedStays(rules, t, doc, k, now);
    } else {
      NullIsNoReference(rules, t, doc, k, now);
    }
  }

  // ---------- engines that patch this way ----------

  /** What the engine's patches store is what the rule says; it may refuse more, as unique indexes do. */
  ghost predicate PatchesBy(rules: Rules, e: Engine, schema: SchemaDef) {
    forall st: State, ref: DocRef, fields: Doc
      | Live(st.docs, ref) && ref.table in schema && e.patchDoc(st, ref, fields).Ok? ::
      PatchDoc(rules, schema[ref.table], st.docs[ref].doc, fields, e.now(st.tick)) == e.patchDoc(st, ref, fields)
  }

  /** Nothing else is refused, as on tables without unique indexes. */
  ghost predicate AcceptsBy(rules: Rules, e: Engine, schema: SchemaDef) {
    forall st: State, ref: DocRef, fields: Doc
      | Live(st.docs, ref) && ref.table in schema &&
        PatchDoc(rules, schema[ref.table], st.docs[ref].doc, fields, e.now(st.tick)).Ok? ::
      e.patchDoc(st, ref, fields).Ok?
  }

  ghost predicate WellSet(schema: SchemaDef) {
    forall t | t in schema :: Stamping.ComputedClosed(schema[t]) && SettingsTyped(schema[t])
  }

  /** No computed field is a reference with an `onDelete` action. */
  ghost predicate NoComputedReferences(schema: SchemaDef) {
    forall t, k | t in schema && k in schema[t].computed :: !IsReference(schema[t], k)
  }

  lemma SetNullIsReference(schema: SchemaDef, table: string, k: string)
    requires IsSetNull(schema, table, k)
    ensures table in schema && IsReference(schema[table], k)
  {
    var parent :| IsLink(schema, Link(table, k, SetNull), parent);
    assert OnDeleteRef(schema[table].fields[k], parent).Some?;
  }

  /** Where no reference is computed, such engines unset references as the cascade expects. */
  lemma PatchesAreSound(rules: Rules, e: Engine, schema: SchemaDef)
    requires PatchesBy(rules, e, schema) && WellSet(schema) && NoComputedReferences(schema) && Cascades.Enumerates(e)
    ensures Sound(e, schema)
  {
    forall st: State, ref: DocRef, k: string
      | Live(st.docs, ref) && IsSetNull(schema, ref.table, k) && e.patchDoc(st, ref, map[k := JNull]).Ok?
      ensures var d := e.patchDoc(st, ref, map[k := JNull]).value;
              NoOtherReferences(schema[ref.table].fields, st.docs[ref].doc, d, k) && Forgets(d, k)
    {
      var t, doc, now := schema[ref.table], st.docs[ref].doc, e.now(st.tick);
      SetNullIsReference(schema, ref.table, k);
      assert Unset(rules, t, doc, k, now) == e.patchDoc(st, ref, map[k := JNull]);
      OthersAreNotAdded(rules, t, doc, k, now);
      NullIsNoReference(rules, t, doc, k, now);
    }
  }

  /** So every run of deletes that goes through leaves no reference to what it removed. */
  lemma PatchedDeletesLeaveNoReference(
    rules: Rules, e: Engine, schema: SchemaDef, st: State, steps: seq<Step>)
    requires PatchesBy(rules, e, schema) && WellSet(schema) && NoComputedReferences(schema) && Cascades.Enumerates(e)
    requires forall step | step in steps :: step.Delete? || step.DeleteByQuery?
    requires RunSteps(e, schema, st, steps).error.None?
    ensures OnlyRemoves(schema, st.docs, RunSteps(e, schema, st, steps).st.docs)
  {
    PatchesAreSound(rules, e, schema);
    DeletesLeaveNoReference(e, schema, st, steps);
  }

  // ---------- and where a reference is computed ----------

  /** A parent and a child that refers to it by `setNull`, where no other reference of the child is computed. */
  ghost predicate IsSetNullFamily(rules: Rules, e: Engine, schema: SchemaDef, st: State, kin: Kin) {
    IsKin(schema, kin) && kin.link.action.SetNull? && IsFamily(st.docs, schema, kin) &&
    !schema[kin.parent.table].softDelete && !schema[kin.parent.table].insertOnly &&
    var t := schema[kin.child.table];
    ComputesNoOther(t, kin.link.field) && IgnoresUpdates(t, kin.link.field) &&
    Settled(rules, t, st.docs[kin.child].doc, e.now(st.tick))
  }

  /** The store after the parent is deleted and the child unset. */
  ghost predicate IsAfter(after: Docs, kin: Kin, d: Doc) {
    after.Keys == {kin.child} && Live(after, kin.child) && after[kin.child].doc == d
  }

  lemma UnsetRow(e: Engine, w: Walk, kin: Kin)
    requires w.st.docs.Keys == {kin.parent, kin.child} && kin.parent != kin.child && Live(w.st.docs, kin.child)
    requires w.error.None? && e.patchDoc(w.st, kin.child, map[kin.link.field := JNull]).Ok?
    ensures var unset := Apply(w.(rows := 2), DoPatch(e, w.st, kin.child, map[kin.link.field := JNull]));
            var r := Finish(unset, kin.parent);
            r.error.None? &&
            IsAfter(r.st.docs, kin, e.patchDoc(w.st, kin.child, map[kin.link.field := JNull]).value)
  {
  }

  lemma SetNullWalk(e: Engine, schema: SchemaDef, w: Walk, kin: Kin)
    requires Cascades.Enumerates(e) && e.maxCascade > 1 && AtParent(w, schema, kin) && kin.link.action.SetNull?
    ensures WalkLink(e, schema, w, kin.link, kin.parent.id)
         == Apply(w.(rows := 2), DoPatch(e, w.st, kin.child, map[kin.link.field := JNull]))
  {
    OneChild(e, w.st.docs, schema, kin, e.maxCascade + 1);
    WalkLinkIs(e, schema, w, kin.link, kin.parent.id);
    OneNull(e, w, kin.link, kin.child.id);
  }

  lemma SetNullDelete(rules: Rules, e: Engine, schema: SchemaDef, st: State, kin: Kin)
    requires Cascades.Enumerates(e) && e.maxCascade > 1 && IsSetNullFamily(rules, e, schema, st, kin)
    requires var d := e.patchDoc(st, kin.child, map[kin.link.field := JNull]);
             d.Ok? && NoOtherReferences(schema[kin.child.table].fields, st.docs[kin.child].doc, d.value, kin.link.field)
    ensures var r := RunSteps(e, schema, st, [Delete(kin.parent.table, kin.parent.id)]);
            r.error.None? &&
            IsAfter(r.st.docs, kin, e.patchDoc(st, kin.child, map[kin.link.field := JNull]).value)
  {
    var w := Entered(Start(st), kin.parent);
    EnteredIsAtParent(schema, st, kin);
    assert w.st == st;
    SetNullWalk(e, schema, w, kin);
    UnsetChildIsChanged(e, schema, w, kin);
    FamilyDeleteIs(e, schema, st, kin);
    UnsetRow(e, w, kin);
    OneDelete(e, schema, st, kin.parent);
  }

  /** Then the one removed row is the parent, and only the child's link can refer to it. */
  lemma DanglesByLink(schema: SchemaDef, before: Docs, after: Docs, kin: Kin, d: Doc)
    requires IsKin(schema, kin) && IsFamily(before, schema, kin) && IsAfter(after, kin, d)
    requires NoOtherReferences(schema[kin.child.table].fields, before[kin.child].doc, d, kin.link.field)
    ensures NoDangling(schema, before, after) <==> Get(d, kin.link.field) != Some(JString(kin.parent.id))
  {
    if Get(d, kin.link.field) == Some(JString(kin.parent.id)) {
      assert kin.parent in before && kin.parent !in after && RefersTo(after, kin.child, kin.link, kin.parent.id);
    } else {
      forall q, k, x | q in before && q !in after && IsLink(schema, k, q.table) ensures !RefersTo(after, x, k, q.id) {
        assert q == kin.parent;
        assert RefersTo(after, x, k, q.id) && k.field != kin.link.field ==> RefersTo(before, kin.child, k, q.id);
      }
    }
  }

  /**
   Deleting the parent commits as soon as the unset is accepted, and leaves no dangling
   reference exactly when the link's field is not computed.
   */
  lemma SetNullForgetsExactly(rules: Rules, e: Engine, schema: SchemaDef, st: State, kin: Kin)
    requires PatchesBy(rules, e, schema) && WellSet(schema) && Cascades.Enumerates(e) && e.maxCascade > 1
    requires IsSetNullFamily(rules, e, schema, st, kin)
    requires e.patchDoc(st, kin.child, map[kin.link.field := JNull]).Ok?
    ensures var r := RunSteps(e, schema, st, [Delete(kin.parent.table, kin.parent.id)]);
            r.error.None? &&
            (NoDangling(schema, st.docs, r.st.docs) <==> kin.link.field !in schema[kin.child.table].computed)
  {
    var t, doc, k, now := schema[kin.child.table], st.docs[kin.child].doc, kin.link.field, e.now(st.tick);
    var d := e.patchDoc(st, kin.child, map[k := JNull]);
    assert Unset(rules, t, doc, k, now) == d;
    LinkIsSetNull(schema, kin);
    SetNullIsReference(schema, kin.child.table, k);
    OthersAreNotAdded(rules, t, doc, k, now);
    UnsetForgetsExactly(rules, t, doc, k, kin.parent.id, now);
    SetNullDelete(rules, e, schema, st, kin);
    var r := RunSteps(e, schema, st, [Delete(kin.parent.table, kin.parent.id)]);
    DanglesByLink(schema, st.docs, r.st.docs, kin, d.value);
  }

  function ComputedSchema(): SchemaDef {
    var ix := IndexDef("by_r", ["r"], false, false, None, false, None, None);
    var child := PlainTable(map["p" := FieldType.String, "r" := Optional(Id("parent", Some(SetNull)))], [ix]);
    map["parent" := PlainTable(map[], []), "child" := child.(computed := map["r" := Field("p")])]
  }

  lemma ComputedSchemaLinks(l: Link, parent: string)
    ensures IsLink(ComputedSchema(), l, parent) <==> l == Link("child", "r", SetNull) && parent == "parent"
  {
    var ty := Optional(Id("parent", Some(SetNull)));
    assert OnDeleteRef(ty, parent) == if parent == "parent" then Some(SetNull) else None;
  }

  ghost function ComputedChild(id: string): Doc {
    map["p" := JString(id), "r" := JString(id)]
  }

  ghost function ComputedFamily(kin: Kin): Docs {
    map[kin.parent := FreshRow(map[]), kin.child := FreshRow(ComputedChild(kin.parent.id))]
  }

  lemma ComputedFamilyIsFamily(kin: Kin)
    requires IsKin(ComputedSchema(), kin) && kin.parent.table == "parent"
    ensures IsFamily(ComputedFamily(kin), ComputedSchema(), kin)
  {
    forall l, t ensures IsLink(ComputedSchema(), l, t) <==> l == Link("child", "r", SetNull) && t == "parent" {
      ComputedSchemaLinks(l, t);
    }
  }

  lemma ComputedFamilyIsSettled(rules: Rules, kin: Kin, now: I64)
    requires IsKin(ComputedSchema(), kin) && rules.ops.toText(JString(kin.parent.id)) == Some(kin.parent.id)
    ensures Settled(rules, ComputedSchema()["child"], ComputedChild(kin.parent.id), now)
  {
  }

  lemma ComputedChildIsWellSet()
    ensures var t := ComputedSchema()["child"];
            Stamping.ComputedClosed(t) && SettingsTyped(t) && ComputesNoOther(t, "r") && IgnoresUpdates(t, "r")
  {
    var t := ComputedSchema()["child"];
    assert t.computed.Keys == {"r"} && ValueFields(t.computed["r"]) == ["p"];
  }

  lemma ComputedSchemaIsWellSet()
    ensures WellSet(ComputedSchema())
  {
    ComputedChildIsWellSet();
    assert ComputedSchema().Keys == {"parent", "child"};
  }

  /** It keeps the rules of a push. */
  lemma ComputedSchemaIsPushed()
    ensures Pushed(ComputedSchema())
  {
    assert ComputedSchema().Keys == {"parent", "child"};
    forall l, t ensures IsLink(ComputedSchema(), l, t) <==> l == Link("child", "r", SetNull) && t == "parent" {
      ComputedSchemaLinks(l, t);
    }
  }

  lemma ComputedUnsetIsAccepted(rules: Rules, e: Engine, st: State, kin: Kin)
    requires AcceptsBy(rules, e, ComputedSchema()) && IsKin(ComputedSchema(), kin) && kin.child.table == "child"
    requires Live(st.docs, kin.child) && st.docs[kin.child].doc == ComputedChild(kin.parent.id)
    requires Settled(rules, ComputedSchema()["child"], ComputedChild(kin.parent.id), e.now(st.tick))
    ensures e.patchDoc(st, kin.child, map["r" := JNull]).Ok?
  {
    var t := ComputedSchema()["child"];
    ComputedChildIsWellSet();
    assert OnDeleteRef(t.fields["r"], "parent").Some?;
    ComputedComesBack(rules, t, ComputedChild(kin.parent.id), "r", e.now(st.tick));
  }

  lemma ComputedFamilyIsValid(f: Formats, kin: Kin)
    requires IsKin(ComputedSchema(), kin) && kin.parent.table == "parent" && kin.child.table == "child"
    ensures AllValid(f, ComputedSchema(), ComputedFamily(kin))
  {
    assert ValidDoc(f, ComputedSchema()["child"].fields, ComputedChild(kin.parent.id));
  }

  lemma ComputedFamilyIsReady(rules: Rules, e: Engine, kin: Kin)
    requires IsKin(ComputedSchema(), kin) && kin.parent.table == "parent" && kin.link == Link("child", "r", SetNull)
    requires rules.ops.toText(JString(kin.parent.id)) == Some(kin.parent.id)
    ensures IsSetNullFamily(rules, e, ComputedSchema(), State(ComputedFamily(kin), 0), kin)
  {
    ComputedFamilyIsFamily(kin);
    ComputedFamilyIsSettled(rules, kin, e.now(0));
    ComputedChildIsWellSet();
  }

  /** A computed `setNull` reference outlives its row: the delete commits, and the child still refers to the parent. */
  lemma ComputedReferenceDangles(rules: Rules, e: Engine) returns (st: State, steps: seq<Step>)
    requires PatchesBy(rules, e, ComputedSchema()) && AcceptsBy(rules, e, ComputedSchema())
    requires Cascades.Enumerates(e) && e.maxCascade > 1 && forall s :: rules.ops.toText(JString(s)) == Some(s)
    ensures Pushed(ComputedSchema()) && AllValid(rules.formats, ComputedSchema(), st.docs)
    ensures RunSteps(e, ComputedSchema(), st, steps).error.None?
    ensures !NoDangling(ComputedSchema(), st.docs, RunSteps(e, ComputedSchema(), st, steps).st.docs)
  {
    var schema, l := ComputedSchema(), Link("child", "r", SetNull);
    ComputedSchemaLinks(l, "parent");
    var kin := SomeKin(schema, "parent", l);
    st, steps := State(ComputedFamily(kin), 0), [Delete(kin.parent.table, kin.parent.id)];
    ComputedFamilyIsValid(rules.formats, kin);
    ComputedFamilyIsReady(rules, e, kin);
    ComputedSchemaIsPushed();
    ComputedSchemaIsWellSet();
    ComputedUnsetIsAccepted(rules, e, st, kin);
    SetNullForgetsExactly(rules, e, schema, st, kin);
  }

  // ---------- the estimate, for such engines ----------

  /** Tables whose references are unset compute nothing and constrain nothing. */
  ghost predicate PlainReferrers(schema: SchemaDef) {
    forall t, k | t in schema && IsSetNull(schema, t, k) ::
      schema[t].computed == map[] && schema[t].constraints == map[]
  }

  ghost predicate FormatsTime(rules: Rules) {
    forall n: I64 :: rules.formats.int64(rules.decimal(n))
  }

  lemma UnsetIsTaken(rules: Rules, t: TableDef, doc: Doc, k: string, now: I64)
    requires SettingsTyped(t) && FormatsTime(rules) && k in t.fields && t.fields[k].Optional?
    requires t.updatedAtField != Some(k) && t.autoIncrementField != Some(k)
    ensures var fields := StampUpdatedAt(rules, t, map[k := JNull], now);
            TakesAll(rules, t, fields) && !ChangesCounter(t, doc, fields)
  {
  }

  /** At every key the merged document is valid. */
  lemma UnsetKeyIsValid(rules: Rules, t: TableDef, doc: Doc, k: string, now: I64, j: string)
    requires SettingsTyped(t) && FormatsTime(rules) && k in t.fields && t.fields[k].Optional? && t.computed == map[]
    requires ValidDoc(rules.formats, t.fields, doc - {k}) && t.updatedAtField != Some(k)
    ensures var v := MergedAt(rules, t, doc, StampUpdatedAt(rules, t, map[k := JNull], now), j);
            (v.Some? ==> j in t.fields && Valid(rules.formats, t.fields[j], v.value)) &&
            (v.None? && j in t.fields ==> t.fields[j].Optional?)
  {
    if j != k && t.updatedAtField != Some(j) {
      assert Get(doc, j) == Get(doc - {k}, j);
    }
  }

  lemma UnsetMergesValid(rules: Rules, t: TableDef, doc: Doc, k: string, now: I64)
    requires SettingsTyped(t) && FormatsTime(rules) && k in t.fields && t.fields[k].Optional?
    requires t.updatedAtField != Some(k) && NoReservedNames(t.fields) && t.computed == map[] && t.constraints == map[]
    requires ValidDoc(rules.formats, t.fields, doc - {k})
    ensures Admits(rules, t, Merged(rules, t, doc, StampUpdatedAt(rules, t, map[k := JNull], now)))
  {
    var merged := Merged(rules, t, doc, StampUpdatedAt(rules, t, map[k := JNull], now));
    forall j
      ensures j in merged ==> j in t.fields && Valid(rules.formats, t.fields[j], merged[j])
      ensures j in t.fields && j !in merged ==> t.fields[j].Optional?
    {
      UnsetKeyIsValid(rules, t, doc, k, now, j);
      assert Get(merged, j) == MergedAt(rules, t, doc, StampUpdatedAt(rules, t, map[k := JNull], now), j);
    }
  }

  lemma NothingIsStamped(rules: Rules, t: TableDef, doc: Doc, now: I64)
    requires t.computed == map[]
    ensures Stamping.Stamped(rules.ops, t, doc, now, Sorted(t.computed.Keys)) == Ok(doc)
  {
    assert Sorted(t.computed.Keys) == [];
  }

  lemma UnsetIsAccepted(rules: Rules, t: TableDef, doc: Doc, k: string, now: I64)
    requires SettingsTyped(t) && FormatsTime(rules) && IsReference(t, k) && t.fields[k].Optional?
    requires NoReservedNames(t.fields) && t.computed == map[] && t.constraints == map[]
    requires ValidDoc(rules.formats, t.fields, doc - {k})
    ensures Unset(rules, t, doc, k, now).Ok?
  {
    SettingsAreNoReferences(t, k);
    UnsetIsTaken(rules, t, doc, k, now);
    UnsetMergesValid(rules, t, doc, k, now);
    NothingIsStamped(rules, t, Merged(rules, t, doc, StampUpdatedAt(rules, t, map[k := JNull], now)), now);
  }

  lemma PatchesAcceptOne(rules: Rules, e: Engine, schema: SchemaDef, st: State, ref: DocRef, k: string)
    requires AcceptsBy(rules, e, schema) && WellSet(schema) && Pushed(schema)
    requires PlainReferrers(schema) && FormatsTime(rules) && Live(st.docs, ref) && IsSetNull(schema, ref.table, k)
    requires ref.table in schema && ValidDoc(rules.formats, schema[ref.table].fields, st.docs[ref].doc - {k})
    ensures e.patchDoc(st, ref, map[k := JNull]).Ok?
  {
    var parent :| IsLink(schema, Link(ref.table, k, SetNull), parent);
    SetNullIsReference(schema, ref.table, k);
    UnsetIsAccepted(rules, schema[ref.table], st.docs[ref].doc, k, e.now(st.tick));
    assert PatchDoc(rules, schema[ref.table], st.docs[ref].doc, map[k := JNull], e.now(st.tick)).Ok?;
  }

  lemma PatchesAcceptUnset(rules: Rules, e: Engine, schema: SchemaDef)
    requires AcceptsBy(rules, e, schema) && WellSet(schema) && Pushed(schema)
    requires PlainReferrers(schema) && FormatsTime(rules)
    ensures AcceptsUnset(rules.formats, e, schema)
  {
    forall st: State, ref: DocRef, k: string
      | AllValid(rules.formats, schema, st.docs) && Live(st.docs, ref) && IsSetNull(schema, ref.table, k) &&
        ValidDoc(rules.formats, schema[ref.table].fields, st.docs[ref].doc - {k})
      ensures e.patchDoc(st, ref, map[k := JNull]).Ok?
    {
      PatchesAcceptOne(rules, e, schema, st, ref, k);
    }
  }

  lemma PatchesAddNothing(rules: Rules, e: Engine, schema: SchemaDef)
    requires PatchesBy(rules, e, schema) && WellSet(schema) && PlainReferrers(schema)
    ensures UnsetsAddNothing(e, schema)
  {
    forall st: State, ref: DocRef, k: string
      | Live(st.docs, ref) && IsSetNull(schema, ref.table, k) && e.patchDoc(st, ref, map[k := JNull]).Ok?
      ensures NoOtherReferences(schema[ref.table].fields, st.docs[ref].doc,
                                e.patchDoc(st, ref, map[k := JNull]).value, k)
    {
      var t, doc, now := schema[ref.table], st.docs[ref].doc, e.now(st.tick);
      assert Unset(rules, t, doc, k, now) == e.patchDoc(st, ref, map[k := JNull]);
      OthersAreNotAdded(rules, t, doc, k, now);
    }
  }

  /** With these patches, too, every schema with a link to follow has a delete that exceeds its estimate. */
  lemma PatchedSpillExceedsEstimate(rules: Rules, e: Engine, schema: SchemaDef) returns (st: State, steps: seq<Step>)
    requires PatchesBy(rules, e, schema) && AcceptsBy(rules, e, schema) && WellSet(schema)
    requires PlainReferrers(schema) && FormatsTime(rules) && Inhabited(rules.formats)
    requires Pushed(schema) && !NoSpill(schema) && Cascades.Enumerates(e) && e.maxCascade > 1
    ensures AllValid(rules.formats, schema, st.docs) && RunSteps(e, schema, st, steps).error.None?
    ensures |Differ(st.docs, RunSteps(e, schema, st, steps).st.docs)| > WorstCaseAffected(steps, e.maxRows)
  {
    PatchesAcceptUnset(rules, e, schema);
    PatchesAddNothing(rules, e, schema);
    st, steps := SpillExceedsEstimate(rules.formats, e, schema);
  }
}
