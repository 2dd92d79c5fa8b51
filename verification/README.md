# par-rt-db core: a verified model

par-rt-db is a reactive document database. Its server and its Rust client share one
crate, `core`, which decides whether a new schema may replace a stored one, rewrites
expressions when a field is renamed, validates and evaluates field guards, measures
transactions and checks query clauses. This project models that crate in Dafny and
proves what it promises.

`dafny verify dfyconfig.toml` checks the whole project.

## What is modelled

- **Schema push.** `Schema` holds the field types and the classification of a type
  change; `Validation` holds value and document validation. `TypeChange` proves that an
  accepted change keeps every stored value valid, that acceptance composes, and that the
  verdict ignores `onDelete`. `SchemaPush` models the additive check and the `trgm`
  grandfathering, and `PushRun` proves invariants over every run of pushes and inserts.
- **Expressions.** `Wire` is the grammar, `Fields` the field walk, `Rename` the rename,
  `Evaluation` the interpreter with arbitrary leaf primitives. A renamed expression on a
  renamed document means the same. `RenameMigration` lifts this to the whole
  `renameField` directive: renaming commutes with stamping computed fields.
- **Field guards.** `JsonEquality` (over `Json` and `Doubles`) proves `json_eq` is exact
  mathematical equality, with integer-to-double conversion proved to be the
  round-to-nearest-even of section 4.3.1 of IEEE 754-2019. `FieldGuard` proves that a path
  is declared exactly when some valid document has it; `GuardBudget` proves the
  early-exit validator against one-shot totals, `GuardSizes` says what those count;
  `PushGuards` carries guards across pushes.
- **Transactions.** `Mutation` is the transaction tree and `Measures` its step count,
  worst-case row estimate and deadline. `Execution` is the executor the estimate is about:
  a store of rows, every step kind, by-query scans through `Evaluation.EvalFilter`, bulk
  loops and `onDelete` cascades with their budget. `Effects` and `Selection` say what every
  step does to the store, row by row, `Cascades` gives the exact schemas on
  which the estimate covers every changed row, `Integrity` proves that deletes leave no
  reference to what they removed, `Patching` is `apply_patch` and the exact condition under
  which it unsets a reference, `Tightness` proves the estimate exact for every run that
  goes through from a store with enough rows, `Attainment` builds such stores, and
  `Transactions` is `execute_transaction` with its admission limits and rollback.
- **Queries.** `QueryCombinations` is the rule evaluator for an arbitrary rule table.

Conventions: a `BTreeMap` or `HashMap` is a `map`. Where the order of a `BTreeMap` can be
seen, the loop takes the least key by code point (`Ordering`); elsewhere a loop takes any
key, so the result holds for every order. A `&mut` parameter becomes an in-parameter and a
result (Rust ownership rules out aliasing). Doubles are represented by
their exact real value; every modelled operation compares them with `==`, which does not
tell `0.0` from `-0.0`.

## Where code and documentation differ

- The comment on object widening says one `Array` layer (core/src/schema.rs:547-549); the
  code recurses through any number of layers. The model follows the code.
- A field added at the top level of a table is not examined by the additive check
  (core/src/engine.rs:64-74), so a new required field is accepted although the same field
  is refused inside a nested object. `DocumentAcrossPush` gives the exact condition under
  which documents stay valid.
- `trgm` is described as opt-in for a new search index (core/src/engine.rs:126-129). It is,
  for one push: `SearchIndexEndsWithTrgm` shows that the next accepted push stores every
  existing search index with the flag, and `SecondPushSetsTrgm` shows it on one schema.
- The rename of references in server/src/migrate/plan.rs:71-81 is described as covering
  every name-bearing surface. It does not rewrite partial-index predicates or vector
  pre-filter fields; `IndexExtrasStayDeclaredExactly` gives the exact condition and
  `RenameLeavesPredicateBehind` one table on which it fails.
- The row estimate is said to count every document a transaction could touch and never to
  under-approximate (core/src/engine.rs:255-270). Rows reached through `onDelete` links are
  not counted. `NoSpillIsSafe` and `SpillExceedsEstimate` together say on exactly which
  schemas the claim holds for every row: on every other schema that a push accepts, and for
  every engine that accepts unsetting a `setNull` reference of a valid document without
  making another, valid documents are given on which one committed delete changes more
  rows. `PatchedSpillExceedsEstimate` shows it for `apply_patch` itself. `EstimateIsSafe`
  bounds the rest by the cascade budget.
- `setNull` is said to remove the key from every child
  (rust-client/src/in_memory/mod.rs:1587-1589). A push accepts a computed `setNull`
  reference, and `apply_patch` ignores the null and stamps the reference again, so the
  delete commits with a dangling reference (`ComputedReferenceDangles`).
  `UnsetForgetsExactly` and `SetNullForgetsExactly` show that this happens exactly when the
  field is computed; `PatchedDeletesLeaveNoReference` shows that no run of deletes leaves a
  dangling reference on a schema that computes none.
- The same comment calls the estimate worst case; `EstimateIsTight` shows that it is not
  slack except for the preconditions `expectVersion`, `expectFields` and `expectAbsent`,
  which count one row each and write none.

## Model

| member | source | states |
|---|---|---|
| `Doubles.RoundNatIsNearest` | core/src/field_guard.rs:152-152 | converting an integer to a double picks a nearest double, ties to the even significand |
| `Doubles.RoundIntIsNearest` | core/src/field_guard.rs:152-152 | the same for negative integers: no double is closer |
| `Doubles.RoundNatIsDouble` | core/src/field_guard.rs:152-152 | the conversion of a 64-bit integer is a double of magnitude at most 2^64 |
| `JsonEquality.NumberEqIsExact` | core/src/field_guard.rs:136-154 | numbers compare equal exactly when they denote the same real, across signed, unsigned and float representations |
| `JsonEquality.RoundingAloneWouldConfuse` | core/src/field_guard.rs:137-153 | comparing through doubles alone would equate two different integers that `json_eq` separates |
| `JsonEquality.JsonEqIsExact` | core/src/field_guard.rs:134-165 | deep equality holds exactly when the values agree after replacing every number by the real it denotes |
| `JsonEquality.JsonEqIsEquivalence` | core/src/field_guard.rs:134-165 | deep equality is reflexive, symmetric and transitive on whole values |
| `TypeChange.StripKeepsValues` | core/src/schema.rs:490-516 | dropping `onDelete` actions never changes which values a type accepts |
| `TypeChange.StripDecidesSameness` | core/src/schema.rs:483-516 | stripped types are equal exactly when the types coincide except for `onDelete` actions at any depth |
| `TypeChange.LiteralSetIsExact` | core/src/schema.rs:579-607 | the literal set is exactly the set of accepted values |
| `TypeChange.AcceptedChangeIsSound` | core/src/schema.rs:518-577 | every value valid under the old type is valid under an accepted new type |
| `TypeChange.ShapeWideningIsSound` | core/src/schema.rs:547-566 | object-shape widening keeps values valid through any number of array layers |
| `TypeChange.OptionalStaysOptional` | core/src/schema.rs:568-577 | an accepted change neither makes an optional field required nor the reverse |
| `TypeChange.OnDeleteIsInvisible` | core/src/schema.rs:568-577 | changing `onDelete` actions anywhere in either type leaves the verdict unchanged |
| `TypeChange.RetargetingVerdict` | core/src/schema.rs:483-489 | when only references change, at any depth and to any tables, the change is accepted exactly when every reference keeps its table |
| `TypeChange.AcceptanceIsReflexive` | core/src/schema.rs:575-577 | an unchanged type is accepted |
| `TypeChange.AcceptanceIsTransitive` | core/src/schema.rs:538-577 | two accepted changes in a row are one accepted change |
| `TypeChange.AddedFieldVerdict` | core/src/schema.rs:526-566 | adding an object field at any depth is accepted exactly when it is optional, and removing one is rejected |
| `TypeChange.LiteralAcceptanceIsExact` | core/src/schema.rs:538-545 | between literal-only types a change is accepted exactly when every old value is a new value |
| `TypeChange.VerdictExactly` | core/src/schema.rs:538-577 | a change is accepted exactly when only `onDelete` actions differ, or an enumeration loses no value, or objects under equally many array layers keep every field, each changed acceptably, and gain only optional ones |
| `TypeChange.ElementsAreRigid` | core/src/schema.rs:550-566 | under arrays whose innermost types are not both objects, nothing but `onDelete` actions may change |
| `SchemaPush.DetectFieldChanges` | core/src/engine.rs:64-74 | reports nothing exactly when every field is kept, else the first field in key order that is gone or retyped, as such |
| `SchemaPush.DetectIndexChanges` | core/src/engine.rs:76-118 | reports nothing exactly when every index is kept, else the first index in list order that is gone or differs, with its first differing aspect |
| `SchemaPush.DetectDestructiveChanges` | core/src/engine.rs:57-121 | succeeds exactly when no table, field or index vanishes or changes; the error is the first such change in the order of the check |
| `SchemaPush.ReportIsDetermined` | core/src/engine.rs:57-121 | two schemas admit at most one such report |
| `SchemaPush.FindIndexIsFirst` | core/src/engine.rs:76-86 | an index is looked up as the first of its name |
| `SchemaPush.FirstDifferenceIsFirst` | core/src/engine.rs:87-117 | the aspect reported is the first that differs: key fields, kind, vector, uniqueness, predicate, language |
| `SchemaPush.AdditiveExactly` | core/src/engine.rs:57-121 | a push is additive exactly when every table and field is still there with an acceptable type, and the first index of each old name has the same definition, `trgm` aside |
| `SchemaPush.NoDifferenceMeansSame` | core/src/engine.rs:87-117 | same-named indexes pass the comparison exactly when only `trgm` may differ |
| `SchemaPush.GrandfatherIndexes` | core/src/engine.rs:142-152 | the in-place pass over one table's indexes computes the grandfathered list |
| `SchemaPush.GrandfatherTrgm` | core/src/engine.rs:136-154 | the in-place pass over a schema computes the grandfathered schema |
| `SchemaPush.GrandfatherExactly` | core/src/engine.rs:136-154 | the stored tables are the declared ones but for `trgm`, which is set exactly when declared or when a search index of that name was one before |
| `SchemaPush.StoredIsDetermined` | core/src/engine.rs:136-154 | no other schema fits that description |
| `SchemaPush.GrandfatherIsIdempotent` | core/src/engine.rs:128-129 | re-running the pass changes nothing |
| `SchemaPush.GrandfatherIsInvisible` | core/src/engine.rs:131-135 | grandfathering never changes the verdict of the additive check |
| `SchemaPush.SearchIndexEndsWithTrgm` | core/src/engine.rs:123-154 | after an accepted push every index that was a search index carries `trgm` |
| `SchemaPush.StoredTrgm` | core/src/engine.rs:142-152 | a set flag survives an accepted push exactly when the index is a search index or declares it again |
| `SchemaPush.FreshIndexKeepsItsFlag` | core/src/engine.rs:126-129 | an index unknown to the old schema is stored as declared |
| `SchemaPush.AdditiveIsTransitive` | core/src/engine.rs:57-121 | a chain of two additive schemas is additive |
| `SchemaPush.AdditiveIsReflexiveExactly` | core/src/engine.rs:76-118 | a schema is additive over itself exactly when its same-named indexes agree |
| `SchemaPush.DocumentAcrossPush` | core/src/engine.rs:64-74 | a valid document stays valid on every old field, and valid as a whole exactly when every added top-level field is optional |
| `SchemaPush.RequiredFieldIsAccepted` | core/src/engine.rs:64-74 | concrete schemas where an accepted push orphans a valid document |
| `PushRun.Store.PushSchema` | server/src/ddl.rs:251-283 | structure check, grandfather, additive check and store, in that order, as one step of the run |
| `PushRun.Store.InsertDoc` | rust-client/src/in_memory/mod.rs:1378-1391 | an insert stores exactly a valid document, with unset optionals left out |
| `PushRun.StripUnsetKeepsValid` | rust-client/src/in_memory/validate.rs:395-411 | leaving out unset optionals keeps the document valid and drops only their nulls |
| `PushRun.StripUnsetExactly` | rust-client/src/in_memory/validate.rs:395-411 | a key is left out exactly when it holds null and its field is optional with a type that has no null |
| `PushRun.PushExactly` | server/src/ddl.rs:251-283 | a push is accepted exactly when it is well formed and additive as declared; it stores what grandfathering gives and keeps the rows |
| `PushRun.InsertExactly` | rust-client/src/in_memory/mod.rs:1378-1391 | an insert is accepted exactly when the table exists and the document is valid, and adds one row at the end |
| `PushRun.StructureExactly` | server/src/schema/validate.rs:218-260 | well formed: index names differ by more than ASCII case, `trgm` only on search indexes, nothing malformed in a field type |
| `Validation.WellFormedExactly` | server/src/schema/validate.rs:56-100 | a type is well formed exactly when no literal in it is null or composite, no union empty, no optional of optional |
| `Validation.ScalarsAccept` | server/src/schema/value.rs:112-166 | a scalar type accepts the values of its own kind and no others |
| `Validation.EncodedAccept` | server/src/schema/value.rs:112-166 | integers and bytes travel as strings of their format |
| `Validation.OptionalsAccept` | server/src/schema/value.rs:112-166 | an optional accepts null besides |
| `Validation.RecordsAccept` | server/src/schema/value.rs:112-166 | a record accepts any keys with accepted values |
| `Validation.RigidTypesAccept` | server/src/schema/value.rs:112-166 | a vector is that many numbers, a literal that one value |
| `Validation.IdsAccept` | server/src/schema/value.rs:86-96 | an id is 32 lower-case hexadecimal digits |
| `Validation.ArraysAccept` | server/src/schema/value.rs:112-166 | an array accepts arrays of accepted elements |
| `Validation.UnionsAccept` | server/src/schema/value.rs:112-166 | a union accepts what some variant accepts |
| `Validation.ObjectsAccept` | server/src/schema/value.rs:112-166 | an object has no other keys, and every field valid, or optional and absent |
| `Validation.DocumentsAccept` | server/src/schema/value.rs:167-200 | a document is valid as an object without reserved keys |
| `PushRun.StepKeepsInvariant` | core/src/engine.rs:123-154 | every step keeps the invariant and loses nothing |
| `PushRun.RunKeepsEverything` | core/src/engine.rs:47-154 | over every run rows are only added, stay valid on the fields they were written under, and no table, field, index or flag is lost |
| `PushRun.EveryMoment` | core/src/engine.rs:47-154 | the same between any two moments of a run from the empty store |
| `PushRun.InsertedDocumentAtEveryMoment` | core/src/engine.rs:64-74 | a document inserted in a run is stored at every later moment, and valid as a whole there exactly when every field added since is optional |
| `PushRun.SecondPushSetsTrgm` | core/src/engine.rs:123-154 | pushing one schema twice stores a flag its search index never declared |
| `PushRun.ChainIsOnePush` | core/src/engine.rs:57-121 | the last schema of an accepted chain of pushes would have been accepted directly |
| `Fields.WalkFilterExprFields` | core/src/fields.rs:46-65 | the callback receives exactly the filter's fields, in order |
| `Fields.WalkValueExprFields` | core/src/fields.rs:14-42 | the callback receives exactly the expression's fields, in order, through nested predicates |
| `Fields.ReadsInOrder` | core/src/fields.rs:14-42 | names come in the order of the text: left before right, a test before its result, the default last |
| `Rename.RenameFilterFields` | core/src/engine.rs:160-183 | the in-place pass computes the filter with `from` replaced by `to` |
| `Rename.RenameValueExprFields` | core/src/engine.rs:192-224 | the in-place pass computes the expression with `from` replaced by `to` |
| `Rename.FilterLaws` | core/src/engine.rs:160-183 | renaming a filter maps the visited names, composes, and is the identity for the identity renaming |
| `Rename.ValueLaws` | core/src/engine.rs:185-224 | the same for value expressions: rename commutes with the walk |
| `Rename.ValueAgreement` | core/src/engine.rs:185-224 | two renamings give one expression exactly when they agree on every visited name |
| `Rename.RenameIsIdentityExactly` | core/src/engine.rs:192-224 | a rename changes nothing exactly when `from` is not read |
| `Rename.FilterRenameIsIdentityExactly` | core/src/engine.rs:160-183 | the same for predicates |
| `Rename.RenameUndoesExactly` | core/src/engine.rs:189-191 | renaming back restores the expression exactly when `to` was fresh |
| `Rename.RenameUndoesFilter` | core/src/engine.rs:160-183 | the same for predicates |
| `Rename.RenamesCommuteExactly` | core/src/engine.rs:192-224 | two renamings commute exactly when their two orders agree on every name read |
| `Rename.IndependentRenamesCommute` | core/src/engine.rs:192-224 | renames that do not move each other's names commute |
| `Rename.FilterRenamesCommuteExactly` | core/src/engine.rs:160-183 | two renamings commute on a predicate exactly when their two orders agree on every name it reads |
| `Rename.IndependentFilterRenamesCommute` | core/src/engine.rs:160-183 | renames that do not move each other's names commute on predicates |
| `Evaluation.CoalesceStopsAtFirst` | rust-client/src/in_memory/value_expr.rs:140-149 | coalesce is the first part that is not null, with its value or error |
| `Evaluation.CaseTakesFirst` | rust-client/src/in_memory/value_expr.rs:181-192 | case takes the first branch whose predicate holds |
| `Evaluation.ConcatJoins` | rust-client/src/in_memory/value_expr.rs:86-96 | concatenation joins consecutive parts and fails on the first error |
| `Evaluation.ConjunctionMeans` | rust-client/src/in_memory/validate.rs:895-942 | a conjunction holds exactly when all of its parts do |
| `Evaluation.DisjunctionMeans` | rust-client/src/in_memory/validate.rs:895-942 | a disjunction holds exactly when some part does |
| `Evaluation.NegationMeans` | rust-client/src/in_memory/validate.rs:895-942 | a negation moves inside, exchanging the two |
| `Evaluation.ComparisonMeans` | rust-client/src/in_memory/validate.rs:895-942 | a comparison holds of a value that is there and compares so; an unset field satisfies none |
| `Evaluation.InMeans` | rust-client/src/in_memory/validate.rs:895-942 | `in` is a disjunction of equalities |
| `Evaluation.OtherLeavesMean` | rust-client/src/in_memory/validate.rs:895-942 | presence, membership, and age where there is a clock |
| `Evaluation.AtomsGive` | rust-client/src/in_memory/value_expr.rs:54-85 | a field gives its text or null, a literal itself, `now` the time |
| `Evaluation.ArithmeticGives` | rust-client/src/in_memory/value_expr.rs:110-138 | arithmetic takes its operands in the order written; a null operand gives null |
| `Evaluation.ArithmeticFails` | rust-client/src/in_memory/value_expr.rs:110-138 | an operand's failure fails the whole, the left one first |
| `Evaluation.TextGives` | rust-client/src/in_memory/value_expr.rs:153-163 | a text function of a null is null, otherwise of its text |
| `Evaluation.CastGives` | rust-client/src/in_memory/value_expr.rs:165-180 | a cast of the operand's value, or its failure |
| `Evaluation.ListsGive` | rust-client/src/in_memory/value_expr.rs:86-149 | coalesce and concat, one part at a time |
| `Evaluation.CaseGives` | rust-client/src/in_memory/value_expr.rs:181-192 | case, one branch at a time |
| `Evaluation.FilterSimulates` | rust-client/src/in_memory/validate.rs:895-942 | a renamed filter decides a mirrored document as the original decides its own |
| `Evaluation.ValueSimulates` | rust-client/src/in_memory/value_expr.rs:54-75 | a renamed expression on a mirrored document gives the same value or error |
| `Evaluation.EvaluationReadsOnlyWalkedFields` | core/src/fields.rs:10-42 | documents that agree on the walked fields give equal evaluations |
| `Evaluation.RenamePreservesMeaning` | core/src/engine.rs:185-224 | with `to` fresh, the renamed expression on the renamed document gives the same result or error |
| `Evaluation.RenamePreservesPredicate` | core/src/engine.rs:156-183 | with `to` fresh, a renamed predicate decides the renamed document alike, with or without a clock |
| `RenameMigration.RenameIndexFields` | server/src/migrate/plan.rs:83-89 | every index key follows the rename |
| `RenameMigration.RenameComputedReferences` | server/src/migrate/plan.rs:110-112 | every computed expression follows the rename |
| `RenameMigration.RenameFieldRefs` | server/src/migrate/plan.rs:82-113 | the reference half of a rename: indexes, owner, collaborators, counters, timestamps, expiry, `authorize` and computed expressions |
| `RenameMigration.PlanRenameField` | server/src/migrate/plan.rs:115-150 | fails on an existing target or missing source, else moves the keyed entries and rewrites every reference |
| `RenameMigration.RenamedTableExactly` | server/src/migrate/plan.rs:71-150 | every key, setting, index and expression of the renamed table, and which of them stays |
| `RenameMigration.RewrittenReferencesStayDeclared` | server/src/migrate/plan.rs:71-113 | every rewritten surface refers only to declared fields after the rename |
| `RenameMigration.IndexExtrasStayDeclaredExactly` | server/src/migrate/plan.rs:82-113 | index predicates and vector pre-filters stay declared exactly when none mentions the renamed field |
| `RenameMigration.RenameLeavesPredicateBehind` | server/src/migrate/plan.rs:82-113 | a table whose partial predicate names the renamed field: closed before, dangling after |
| `RenameMigration.RenameTableUndoes` | server/src/migrate/plan.rs:115-150 | renaming back gives the original table |
| `RenameMigration.RenameKeepsDocumentsValid` | rust-client/src/in_memory/migrate.rs:130-141 | a document is valid exactly when its renamed form is valid under the renamed table |
| `RenameMigration.StampComputed` | rust-client/src/in_memory/value_expr.rs:204-223 | one pass over the computed map in key order, each expression seeing the document stamped so far; an error names its field |
| `RenameMigration.StampedInTurn` | rust-client/src/in_memory/value_expr.rs:204-223 | each field sees what the fields before it were given, and the first failure ends the pass |
| `RenameMigration.StampedOne` | rust-client/src/in_memory/value_expr.rs:209-221 | one field holds its value on the document so far, or is removed when that is null |
| `RenameMigration.StampingIsParallel` | rust-client/src/in_memory/value_expr.rs:194-223 | stamping in sequence equals evaluating every computed field on the original document |
| `RenameMigration.StampingIsPointwise` | rust-client/src/in_memory/value_expr.rs:194-223 | a complete pass succeeds exactly when every expression does on the original document, with each field's value given |
| `RenameMigration.StampingOrderIsIrrelevant` | rust-client/src/in_memory/value_expr.rs:209-221 | any iteration order succeeds or fails alike, with the same document |
| `RenameMigration.RenameCommutesWithStamping` | rust-client/src/in_memory/migrate.rs:109-141 | stamping the renamed document under the renamed table is renaming the stamped document, failures included |
| `FieldGuard.ReachablePathsExactly` | core/src/field_guard.rs:96-114 | some valid document has a path exactly when it is declared or leads into a literal holding the rest |
| `FieldGuard.DeclaredPathIsExact` | core/src/field_guard.rs:96-114 | for a pushed table, a path is declared exactly when some valid document has it |
| `FieldGuard.NoKeyedLiteralsExactly` | core/src/field_guard.rs:102-114 | no path leads into a literal exactly when no reachable literal is an object with keys |
| `FieldGuard.UndeclaredNeverMatches` | core/src/field_guard.rs:96-131 | in a table without keyed literals, a guard on an undeclared path never matches a valid document |
| `FieldGuard.UndeclaredNeverMatchesPushed` | core/src/field_guard.rs:96-131 | in particular in every pushed table |
| `FieldGuard.ObjectLiteralDefeatsDeclaredPath` | core/src/field_guard.rs:102-114 | an object literal gives an undeclared path that matches |
| `FieldGuard.GuardsRespectEquality` | core/src/field_guard.rs:116-165 | documents and expected values may be replaced by equal ones |
| `FieldGuard.NullDoesNotMatchMissing` | core/src/mutation.rs:35-36 | a null expectation matches exactly a present null |
| `FieldGuard.ExpectationsAreExact` | core/src/field_guard.rs:116-131 | a guard holds exactly when every path leads, in the exact contents of the document, to the exact contents of the expected value |
| `GuardBudget.ValidateItems` | core/src/field_guard.rs:75-79 | the array loop succeeds exactly when the running counters plus the items' totals fit |
| `GuardBudget.ValidateEntries` | core/src/field_guard.rs:80-85 | the object loop succeeds exactly when the running counters plus the entries' totals fit, keys included |
| `GuardBudget.ValidateValueBudget` | core/src/field_guard.rs:61-94 | succeeds exactly when counters plus totals fit 8192 nodes, 65536 bytes and depth 32; never enters a node past 8193 or a depth past 33 |
| `GuardBudget.ValidateItem` | core/src/field_guard.rs:36-56 | one turn of the loop and its error kind |
| `GuardBudget.ValidateExpectations` | core/src/field_guard.rs:23-59 | succeeds exactly when the one-shot conditions hold; reports an unknown path exactly when that is the first failure; enters at most 8193 nodes |
| `GuardSizes.NodesArePositions` | core/src/field_guard.rs:61-94 | the nodes counted are the positions in the value |
| `GuardSizes.NoDeeperPosition` | core/src/field_guard.rs:61-94 | no position is deeper than the height |
| `GuardSizes.DeepestPosition` | core/src/field_guard.rs:61-94 | some position is that deep |
| `GuardSizes.BytesAreText` | core/src/field_guard.rs:61-94 | the bytes counted are those of all strings and keys |
| `GuardSizes.ItemSizeExactly` | core/src/field_guard.rs:49-51 | an expectation counts the positions of its value and the bytes of its path and its text |
| `GuardSizes.TotalsExactly` | core/src/field_guard.rs:29-56 | nodes and bytes add up over the items, levels do not |
| `GuardSizes.CharBytesExactly` | core/src/field_guard.rs:74-74 | the UTF-8 length of a character by its code point |
| `GuardSizes.AcceptedExactly` | core/src/field_guard.rs:23-59 | the limits in numbers: 64 items, paths as in `PathOkExactly`, 8192 nodes, 65536 bytes, 32 levels |
| `GuardSizes.PathOkExactly` | core/src/field_guard.rs:36-46 | a path has 1 to 16 keys of 1 to 256 bytes |
| `PushGuards.AcceptedChangeKeepsDeclared` | core/src/field_guard.rs:102-114 | an accepted type change keeps every declared path declared |
| `PushGuards.ValidGuardsSurvivePush` | core/src/field_guard.rs:23-59 | a guard request that passes validation still passes after an accepted push |
| `Measures.AddressesAreSteps` | core/src/mutation.rs:271-276 | the addresses of a transaction tree are exactly the positions that hold a step |
| `Measures.CountStepsCountsAddresses` | core/src/engine.rs:238-253 | the count is the number of step nodes in the whole tree of nested transactions |
| `Measures.CarriedIsSmaller` | core/src/engine.rs:226-233 | a carried transaction counts strictly less than its carrier |
| `Measures.CountBoundsNesting` | core/src/engine.rs:226-233 | the outer count exceeds every nested count by the nesting depth |
| `Ordering.SortedIsInOrder` | rust-client/src/in_memory/value_expr.rs:209-221 | a map iteration visits every key once, in order of code points |
| `Ordering.AtMostExactly` | rust-client/src/in_memory/value_expr.rs:209-221 | the order of keys: a prefix first, otherwise the first different character decides |
| `Ordering.ByTimeIsInOrder` | rust-client/src/in_memory/mod.rs:1763-1765 | the scan order: by creation time, ties by id, each row once |
| `Execution.EstimateIsSafe` | core/src/engine.rs:255-288 | from every store, for every step list and wherever the run stops: rows named or selected are at most the estimate, cascades add at most their budget per deleting step, and no other row changes |
| `Execution.StepWithin` | rust-client/src/in_memory/mod.rs:773-834 | the same for one step of the executor |
| `Execution.TakeCountIsShort` | rust-client/src/in_memory/mod.rs:1752-1768 | the executor's own limit clamp never takes more rows than the estimate allows for |
| `Execution.ScanIsExact` | rust-client/src/in_memory/mod.rs:1732-1770 | a scan takes exactly the earliest matching live rows, ties by id, up to the clamped limit |
| `Selection.ScanSelectsFirst` | rust-client/src/in_memory/mod.rs:1732-1770 | a scan takes only live rows of the table that satisfy the filter now, and leaves one out only when the limit is used up by older ones |
| `Selection.PatchByQueryExactly` | rust-client/src/in_memory/mod.rs:1772-1788 | a by-query patch changes exactly those rows, each to the document the engine gives for it, one version on |
| `Effects.PatchAllInTurn` | rust-client/src/in_memory/mod.rs:1772-1788 | rows are patched in turn, up to the first error |
| `Selection.DeleteByQueryExactly` | rust-client/src/in_memory/mod.rs:1790-1822 | a by-query delete selects exactly those rows, all are dead afterwards, and no row comes to life |
| `Selection.NoMatchExactly` | rust-client/src/in_memory/mod.rs:1182-1198 | the precondition fails exactly when some live row of the table satisfies the filter |
| `Effects.GatesExactly` | rust-client/src/in_memory/mod.rs:742-834 | append-only tables, the bulk limit and unknown tables refuse, in that order, before anything runs |
| `Effects.ControlExactly` | rust-client/src/in_memory/mod.rs:773-834 | steps without a table write no row |
| `Effects.InsertExactly` | rust-client/src/in_memory/mod.rs:1355-1393 | an insert writes a row of version 1 under a new id, created now |
| `Effects.PatchExactly` | rust-client/src/in_memory/mod.rs:1398-1422 | a patch rewrites a live row with the engine's document, one version on, or is refused with its error |
| `Effects.ReplaceExactly` | rust-client/src/in_memory/mod.rs:1429-1496 | the same for a replacement |
| `Effects.AdjustExactly` | rust-client/src/in_memory/mod.rs:928-1058 | adjusting a counter is patching what the adjustment gives |
| `Effects.SoftDeleteExactly` | rust-client/src/in_memory/mod.rs:1514-1535 | a soft delete stamps a live row with the time, one version on |
| `Effects.UndeleteExactly` | rust-client/src/in_memory/mod.rs:1544-1577 | undelete is for soft-delete tables, leaves a live row alone and clears the stamp of a deleted one |
| `Effects.UndeleteUndoes` | rust-client/src/in_memory/mod.rs:1514-1577 | a delete and an undelete leave the row as it was, two versions on |
| `Effects.ExpectVersionExactly` | rust-client/src/in_memory/mod.rs:1114-1124 | passes exactly for a live row of that version |
| `Effects.ExpectFieldsExactly` | rust-client/src/in_memory/mod.rs:1125-1161 | well-formed guards pass exactly when the exact contents of a live row have the expected values |
| `Effects.ExpectAbsentExactly` | rust-client/src/in_memory/mod.rs:1162-1181 | passes exactly when the lookup finds no row |
| `Effects.LookupExactly` | rust-client/src/in_memory/mod.rs:1948-1990 | a lookup needs a known index and a whole key of the right types, and finds exactly the live rows whose key fields are set and equal it |
| `Effects.UnknownIndex` | rust-client/src/in_memory/mod.rs:1948-1990 | an unknown index is a bad request |
| `Effects.CoerceFails` | rust-client/src/in_memory/mod.rs:1948-1990 | the error is that of the first key component that cannot be coerced |
| `Effects.UpsertExactly` | rust-client/src/in_memory/mod.rs:1200-1240 | an upsert inserts where nothing has the key, patches the one row that has it, and refuses more |
| `Effects.InsertManyInTurn` | rust-client/src/in_memory/mod.rs:850-863 | documents are inserted in turn, up to the first error |
| `Effects.InsertManyOfOne` | rust-client/src/in_memory/mod.rs:850-863 | a list of one is an insert |
| `Effects.UpsertManyInTurn` | rust-client/src/in_memory/mod.rs:864-910 | documents are upserted in turn, up to the first error |
| `Effects.UpsertManyOfOne` | rust-client/src/in_memory/mod.rs:864-910 | each by its own key, as both the document to insert and the patch |
| `Effects.UpsertManyNeedsKey` | rust-client/src/in_memory/mod.rs:864-910 | an unknown index or a missing key field is a bad request |
| `Effects.LoneDeleteExactly` | rust-client/src/in_memory/mod.rs:1600-1702 | where deletes reach no other row, a delete is refused exactly while a live row refers to the row, and otherwise removes it |
| `Effects.DeleteRowsInTurn` | rust-client/src/in_memory/mod.rs:1664-1673 | rows are deleted in turn, up to the first error |
| `Effects.WalkLinksInTurn` | rust-client/src/in_memory/mod.rs:1648-1695 | links are followed in turn, up to the first error |
| `Effects.OnDeleteRefExactly` | rust-client/src/in_memory/mod.rs:102-111 | a field refers to a table when it is an id of it, under any optional layers |
| `Effects.ChildrenExactly` | rust-client/src/in_memory/mod.rs:1712-1730 | the children of a link are the live rows whose field holds the id, all or as many as the cap |
| `Effects.CascadeKillsChildren` | rust-client/src/in_memory/mod.rs:1661-1673 | following a `cascade` link kills every row that referred through it |
| `Effects.SetNullPatchesChildren` | rust-client/src/in_memory/mod.rs:1674-1693 | following a `setNull` link patches every row that referred through it and changes no other |
| `Execution.DeleteRowPays` | rust-client/src/in_memory/mod.rs:1578-1702 | every row a cascade writes is paid for from the budget, and no other row changes |
| `Cascades.LinksToExactly` | rust-client/src/in_memory/mod.rs:1627-1647 | the child walk visits exactly the fields that refer to the table with an `onDelete` action |
| `Cascades.LinksToOnce` | rust-client/src/in_memory/mod.rs:1634-1647 | the child walk follows no link twice |
| `Cascades.LinksToInOrder` | rust-client/src/in_memory/mod.rs:1634-1647 | links are followed by table, then by field, in key order |
| `Cascades.NoSpillIsSafe` | core/src/engine.rs:263-268 | on a schema where deletes reach no other row, no run changes more rows than the estimate |
| `Cascades.SpillExceedsEstimate` | rust-client/src/in_memory/mod.rs:1661-1695 | on every other schema, and every engine that accepts unsetting a `setNull` reference of a valid document without making another, a store of valid documents is given from which one committed delete changes more rows than its estimate |
| `Integrity.ChildrenFetched` | rust-client/src/in_memory/mod.rs:1712-1730 | the children fetched for a link are all that refer to the row, or as many different ones as the cap |
| `Integrity.DeleteRowClean` | rust-client/src/in_memory/mod.rs:1600-1702 | for every engine whose unsets remove the reference and make none, a cascade that is not refused leaves every row it entered dead, and no live row referring to one it removed |
| `Integrity.CommittedDeleteLeavesNoReference` | rust-client/src/in_memory/mod.rs:1704-1711 | for the same engines, a delete or by-query delete that succeeds leaves no live row referring through `onDelete` to a row it removed: the cap drops no row that could still be processed |
| `Integrity.DeletesLeaveNoReference` | rust-client/src/in_memory/mod.rs:1578-1702 | the same over every run of deletes, between its first and last store |
| `Patching.MergePatch` | rust-client/src/in_memory/validate.rs:524-557 | the loop over the patch fails exactly on an undeclared or invalid key that is not computed, and otherwise merges key by key, a null on an optional field removing it |
| `Patching.ApplyPatch` | rust-client/src/in_memory/validate.rs:505-562 | counter check, merge, stamping and validation of the whole, in that order, with each error |
| `Patching.PatchedExactly` | rust-client/src/in_memory/validate.rs:485-562 | an accepted patch holds at every key the computed value, else the patched one, else the old one, and is valid |
| `Patching.PatchExactly` | rust-client/src/in_memory/validate.rs:485-562 | a patch is accepted with a result exactly when its keys are allowed and, in the result, each computed key holds its expression's value on it, each patched key its value or nothing where a null unsets it, every other key what it held, and the whole is valid and within its constraints |
| `Patching.PatchErrors` | rust-client/src/in_memory/validate.rs:511-546 | a changed counter is refused before an undeclared or invalid key |
| `Patching.PatchDocHolds` | rust-client/src/in_memory/mod.rs:1415-1419 | a row's patch holds at every key but the time stamp and the computed ones |
| `Patching.UpdatedAtIsStamped` | rust-client/src/in_memory/validate.rs:447-463 | every accepted patch stamps the time of the write |
| `Patching.UnsetForgetsExactly` | rust-client/src/in_memory/validate.rs:527-529 | on a document whose computed fields are up to date, an accepted unset removes the reference exactly when its field is not computed |
| `Patching.PatchesAreSound` | rust-client/src/in_memory/mod.rs:1398-1422 | an engine that patches this way, on a schema with no computed reference, unsets references as the cascade needs, whatever else it refuses |
| `Patching.PatchedDeletesLeaveNoReference` | rust-client/src/in_memory/mod.rs:1578-1702 | so every run of deletes that goes through on it leaves no dangling reference |
| `Patching.SetNullForgetsExactly` | rust-client/src/in_memory/mod.rs:1674-1693 | deleting a parent with a `setNull` child commits when the unset is accepted, and leaves no dangling reference exactly when the link is not computed |
| `Patching.ComputedReferenceDangles` | server/src/schema/validate.rs:537-685 | a pushed schema and valid documents on which a committed delete leaves a reference to the row it removed |
| `Patching.PatchedSpillExceedsEstimate` | rust-client/src/in_memory/mod.rs:1661-1695 | with these patches, on every schema with a link to follow whose `setNull` tables compute and constrain nothing, one committed delete changes more rows than its estimate |
| `Tightness.PatchQueryExactly` | rust-client/src/in_memory/mod.rs:1772-1788 | on every engine and store, a by-query patch that is not refused changes exactly as many rows as match, up to the clamped limit, in its table only |
| `Tightness.DeleteQueryExactly` | rust-client/src/in_memory/mod.rs:1790-1822 | the same for a by-query delete on a table whose deletes reach no other row |
| `Tightness.UpsertAllChanges` | rust-client/src/in_memory/mod.rs:864-910 | a list of upserts that is not refused, whose keys differ and find nothing, inserts one row for each document, for every engine that keeps the key fields of these documents when it inserts them |
| `Tightness.StepIsTight` | rust-client/src/in_memory/mod.rs:773-834 | every step that goes through from a store that has what it needs changes exactly as many rows as estimated (none for a precondition), all its own |
| `Tightness.EstimateIsTight` | core/src/engine.rs:255-288 | for every engine whose ids do not repeat and every run that goes through: when no two steps can write the same row and the store has what each needs, the rows changed and the preconditions add up to the estimate |
| `Tightness.EstimateIsAttained` | core/src/engine.rs:255-288 | steps that cannot write the same row: when each would go through whatever the rows of the other steps hold, the whole run does and meets the estimate |
| `Attainment.DeletesAttainTheEstimate` | core/src/engine.rs:255-288 | whatever the rules for documents: for every list of deletes and by-query deletes that reach no other row, a store is built from which the run goes through and changes exactly as many rows as estimated |
| `Transactions.AdmittedIsBounded` | rust-client/src/in_memory/mod.rs:667-697 | an admitted transaction names or selects at most 10000 rows, and changes no more where deletes reach no other row |
| `Transactions.AdmittedExactly` | rust-client/src/in_memory/mod.rs:667-697 | the limits in numbers: 1024 steps in the tree, 16 by-query steps, 10000 estimated rows, deadlines that are safe integers |
| `Transactions.CommitsExactly` | rust-client/src/in_memory/mod.rs:658-741 | a transaction commits exactly when it is admitted, in time at its start and its end, and no step fails; otherwise the first of these gives the error |
| `Transactions.RunInTurn` | rust-client/src/in_memory/mod.rs:712-729 | steps run in turn, and after an error nothing more is done |
| `Transactions.RunOfOne` | rust-client/src/in_memory/mod.rs:712-729 | a run of one step is the step |
| `Transactions.ByQueryStepsExactly` | rust-client/src/in_memory/mod.rs:675-690 | by-query patches, deletes and preconditions are counted by position |
| `Transactions.Database.RunAll` | rust-client/src/in_memory/mod.rs:712-729 | the step loop ends as the steps run one after the other do, each reading the clock anew, at its first error or with what they wrote |
| `Transactions.Database.RunOrRestore` | rust-client/src/in_memory/mod.rs:704-740 | the first error, or a deadline passed at the last reading of the clock, restores the rows; otherwise exactly what the steps wrote remains |
| `Transactions.Database.ExecuteTransaction` | rust-client/src/in_memory/mod.rs:650-740 | answers as the limits, the deadline guards and the steps say, all or nothing, with bounded changes |
| `Measures.EstimateIsAdditive` | core/src/engine.rs:271-288 | the estimate adds over step concatenation |
| `Measures.EstimateIsMonotone` | core/src/engine.rs:271-288 | the estimate is monotone in the by-query cap |
| `Measures.TransactionDeadline` | core/src/engine.rs:34-45 | fails exactly on an unsafe guard; otherwise one comparison with the result stands for every top-level guard |
| `Measures.NestedDeadlinesDoNotCount` | core/src/engine.rs:32-33 | replacing nested transactions leaves the deadline or the failure unchanged |
| `QueryCombinations.AcceptsExactly` | core/src/query_combinations.rs:123-155 | a query is accepted exactly when no rule of the table is violated |
| `QueryCombinations.ReportedRule` | core/src/query_combinations.rs:119-155 | the reported rule is the first forbid rule that fires, else the first at-most-one rule |
| `QueryCombinations.ClearingKeepsAccepted` | core/src/query_combinations.rs:110-155 | clearing clauses of an accepted query keeps it accepted |
| `QueryCombinations.ExpansionKeepsVerdict` | core/src/query_combinations.rs:10-14 | written out as pairwise forbid rules alone, at-most-one rules give the same verdict |

## Left out

- How values are spelled on the wire: JSON tags, enum names and default-value omission are serde attributes; the model starts from decoded values.
- `query_clauses` (core/src/query.rs:447-510): one line per query field; the rule results quantify over every clause set instead.
- PushRun.Store.PushSchema: the structure check keeps only the rules a run relies on (literal, union and optional shape, unique index names, `trgm` only on search indexes); DDL, backfill and the no-op short-circuit do not change the stored schema.
- PushRun.Store.InsertDoc: stamping, write constraints and unique-index checks before the write are not part of the step; the document is any one offered after them.
- SchemaPush.GrandfatherTrgm, Rename.RenameValueExprFields: update in place through `&mut` is an in-parameter and a result.
- RenameMigration.PlanRenameField: table and field descriptions, which the directive does not touch, are not in the table model.
- Execution.RunStep: which document a write stores, or why it is refused (stamps, defaults, merging, constraints, unique indexes), is any function of the state, so results hold for all of them; step results other than success or error, and schedules, are left out. Bulk and cascade loops are recursive functions on a state value; `Transactions.Database` is the one object updated in place.
- Execution.AdjustStep: the checks on counter bounds and expected fields are inside the arbitrary `adjust` rule.
- Tightness.EstimateIsTight: which store a step needs is stated as a condition on the store (`Stocked`): the named row is there, the upserted keys are not, as many rows match as the step may take, and a delete reaches no other row.
- Attainment.DeletesAttainTheEstimate: builds stores for deletes only, because whether an insert or a patch is refused is up to the arbitrary document rules.
- Tightness.EstimateIsAttained: a step must go through whatever the rows of the other steps hold, so two steps on one table with a unique index are not covered; a step that has its table to itself is.
- Patching.SetNullForgetsExactly: one parent and one child, the child's other references not computed and the link's expression not reading `updatedAtField`; Patching.PatchedDeletesLeaveNoReference covers every store.
- The time-to-live reaper, which deletes outside transactions.
- The sign of a floating-point zero, and number-to-text formatting, which sit behind the arbitrary leaf primitives.
- Server committer, subscriptions, scheduling, pagination, SQL and client plumbing.
