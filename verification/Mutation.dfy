/** The transaction tree of core/src/mutation.rs. */
module Mutation {
  import opened Wrappers
  import opened Json
  import opened Wire
  import opened Validation
  import opened FieldGuard

  type U32 = n: int | 0 <= n < 0x1_0000_0000

  datatype ScheduleWhen =
    | AfterMs(ms: I64)
    | RunAt(ms: I64)
    | Cron(expr: string, tz: Option<string>)
    | Interval(everyMs: I64)

  datatype Step =
    | Insert(table: string, doc: Doc)
    | InsertMany(table: string, docs: seq<Doc>)
    | UpsertMany(table: string, index: string, docs: seq<Doc>)
    | Patch(table: string, id: string, fields: Doc)
    | AdjustCounter(table: string, id: string, field: string, delta: I64)
    | Replace(table: string, id: string, doc: Doc)
    | Delete(table: string, id: string)
    | ExpectVersion(table: string, id: string, version: I64)
    | ExpectFields(table: string, id: string, expected: seq<FieldExpectation>)
    | ExpectBefore(deadlineMs: I64)
    | ExpectAbsent(table: string, index: string, eq: seq<Json>)
    | ExpectNoMatch(table: string, filter: FilterExpr)
    | Upsert(table: string, index: string, eq: seq<Json>, insert: Doc, patch: Doc)
    | PatchByQuery(table: string, filter: FilterExpr, patch: Doc, limit: Option<U32>)
    | DeleteByQuery(table: string, filter: FilterExpr, limit: Option<U32>)
    | Schedule(when: ScheduleWhen, txn: Transaction, external: Option<bool>)
    | CancelSchedule(id: string)
    | StartWorkflow(spec: WorkflowSpec)
    | CancelWorkflow(id: string)
    | Undelete(table: string, id: string)

  datatype Transaction = Transaction(steps: seq<Step>)
  datatype WorkflowSpec = WorkflowSpec(name: string, steps: seq<WorkflowStepSpec>)
  datatype WorkflowStepSpec = WorkflowStepSpec(txn: Option<Transaction>, awaitSignal: Option<string>)
}
