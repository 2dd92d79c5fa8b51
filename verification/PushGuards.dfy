/** Field guards across schema pushes. */
module PushGuards {
  import opened Schema
  import opened SchemaPush
  import opened FieldGuard
  import opened GuardBudget
  import TypeChange

  lemma {:induction false} StripKeepsDeclared(ty: FieldType, path: seq<string>)
    ensures DeclaredChild(StripOnDelete(ty), path) == DeclaredChild(ty, path)
    decreases ty
  {
    if path == [] {
    } else {
      match ty
      case Optional(inner) => StripKeepsDeclared(inner, path);
      case Union(variants) =>
        var stripped := StripOnDelete(ty).variants;
        forall i | 0 <= i < |variants|
          ensures DeclaredChild(stripped[i], path) == DeclaredChild(variants[i], path)
        {
          StripKeepsDeclared(variants[i], path);
        }
      case Object(fields) =>
        if path[0] in fields { StripKeepsDeclared(fields[path[0]], path[1..]); }
      case Record(value) => StripKeepsDeclared(value, path[1..]);
      case _ =>
    }
  }

  /** An accepted type change keeps every declared path declared. */
  lemma {:induction false} AcceptedChangeKeepsDeclared(prev: FieldType, next: FieldType, path: seq<string>)
    requires !IsTypeChangeRejected(prev, next) && DeclaredChild(prev, path)
    ensures DeclaredChild(next, path)
    decreases prev
  {
    if StripOnDelete(next) == StripOnDelete(prev) {
      StripKeepsDeclared(prev, path);
      StripKeepsDeclared(next, path);
    } else if path != [] {
      assert IsWideningOf(prev, next);
      if IsLiteralWidening(prev, next) {
        LiteralTypesDeclareNothing(prev, path);
      } else {
        assert IsObjectShapeWidening(prev, next);
        if prev.Object? {
          AcceptedChangeKeepsDeclared(prev.fields[path[0]], next.fields[path[0]], path[1..]);
        }
      }
    }
  }

  lemma LiteralTypesDeclareNothing(ty: FieldType, path: seq<string>)
    requires LiteralSet(ty).Some? && path != []
    ensures !DeclaredChild(ty, path)
  {
    if ty.Union? {
      TypeChange.LiteralValuesAreAll(ty.variants);
    }
  }

  /** A guard request that `ValidateExpectations` accepts is still accepted after any accepted push. */
  lemma ValidGuardsSurvivePush(prev: TableDef, next: TableDef, expected: seq<FieldExpectation>)
    requires TableKept(prev, next) && Accepted(prev.fields, expected)
    ensures Accepted(next.fields, expected)
  {
    forall i | 0 <= i < |expected| ensures Declared(next.fields, expected[i]) {
      var path := expected[i].path;
      assert Declared(prev.fields, expected[i]) && FieldKept(prev.fields, next.fields, path[0]);
      AcceptedChangeKeepsDeclared(prev.fields[path[0]], next.fields[path[0]], path[1..]);
    }
  }
}
