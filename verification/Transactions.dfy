/** `execute_transaction` of rust-client/src/in_memory/mod.rs: admission, the step loop and the rollback. */
module Transactions {
  import opened Wrappers
  import opened Json
  import opened Schema
  import opened Mutation
  import opened Measures
  import opened Execution
  import opened Cascades

  const MAX_STEPS: nat := 1024
  const MAX_BY_QUERY_STEPS_PER_TXN: nat := 16
  const MAX_AFFECTED_ROWS_PER_TXN: nat := 10_000

  predicate IsByQuery(step: Step) {
    step.PatchByQuery? || step.DeleteByQuery? || step.ExpectNoMatch?
  }

  function ByQuerySteps(steps: seq<Step>): nat {
    if steps == [] then 0 else (if IsByQuery(steps[0]) then 1 else 0) + ByQuerySteps(steps[1..])
  }

  /** The limits checked before any step runs. */
  ghost predicate Admitted(e: Engine, txn: Transaction) {
    (forall g | g in Guards(txn.steps) :: InRange(g)) &&
    CountSteps(txn) <= MAX_STEPS &&
    ByQuerySteps(txn.steps) <= MAX_BY_QUERY_STEPS_PER_TXN &&
    WorstCaseAffected(txn.steps, e.maxRows) <= MAX_AFFECTED_ROWS_PER_TXN
  }

  /**
   What a transaction answers. The deadline guards are checked before the first and after
   the last step, each time against a new reading of the clock.
   */
  ghost function Verdict(e: Engine, schema: SchemaDef, st: State, txn: Transaction): Result<(), ErrorCode> {
    var r := RunSteps(e, schema, Tick(st), txn.steps);
    if !Admitted(e, txn) then Err(BadRequest)
    else if !AllPass(Guards(txn.steps), e.now(st.tick)) then Err(PreconditionFailed)
    else if r.error.Some? then Err(r.error.value)
    else if !AllPass(Guards(txn.steps), e.now(r.st.tick)) then Err(PreconditionFailed)
    else Ok(())
  }

  /** An admitted transaction changes a bounded number of rows, wherever it stops. */
  lemma AdmittedIsBounded(e: Engine, schema: SchemaDef, st: State, txn: Transaction)
    requires Admitted(e, txn)
    ensures var r := RunSteps(e, schema, st, txn.steps);
            |r.direct| <= MAX_AFFECTED_ROWS_PER_TXN &&
            |Differ(st.docs, r.st.docs)| <= TotalCap(txn.steps, e.maxRows, e.maxCascade) &&
            (NoSpill(schema) ==> |Differ(st.docs, r.st.docs)| <= MAX_AFFECTED_ROWS_PER_TXN)
  {
    var r := RunSteps(e, schema, st, txn.steps);
    EstimateIsSafe(e, schema, st, txn.steps);
    KeepsBoundsDiffer(st.docs, r.st.docs, r.direct + r.cascaded);
    if NoSpill(schema) {
      NoSpillIsSafe(e, schema, st, txn.steps);
    }
  }

  class Database {
    var docs: Docs
    var tick: nat

    constructor ()
      ensures View() == State(map[], 0)
    {
      docs, tick := map[], 0;
    }

    function View(): State
      reads this
    {
      State(docs, tick)
    }

    /**
     All or nothing: a transaction that commits leaves exactly what its steps wrote, and
     any other leaves the rows as they were.
     */
    method ExecuteTransaction(e: Engine, schema: SchemaDef, txn: Transaction) returns (r: Result<(), ErrorCode>)
      modifies this
      ensures r == old(Verdict(e, schema, View(), txn))
      ensures r.Ok? ==> View() == old(RunSteps(e, schema, Tick(View()), txn.steps).st)
      ensures r.Err? ==> docs == old(docs)
      ensures |Differ(old(docs), docs)| <= TotalCap(txn.steps, e.maxRows, e.maxCascade)
      ensures NoSpill(schema) ==> |Differ(old(docs), docs)| <= MAX_AFFECTED_ROWS_PER_TXN
    {
      assert Differ(docs, docs) == {};
      var deadline := TransactionDeadline(txn);
      if deadline.Err? {
        return Err(BadRequest);
      }
      if CountSteps(txn) > MAX_STEPS || ByQuerySteps(txn.steps) > MAX_BY_QUERY_STEPS_PER_TXN {
        return Err(BadRequest);
      }
      if WorstCaseAffected(txn.steps, e.maxRows) > MAX_AFFECTED_ROWS_PER_TXN {
        return Err(BadRequest);
      }
      if Expired(deadline.value, e.now(tick)) {
        return Err(PreconditionFailed);
      }
      ghost var before := View();
      tick := tick + 1;
      assert View() == Tick(before);
      r := RunOrRestore(e, schema, txn, deadline.value);
    }

    /** The first error, or an expired deadline at the end, restores the snapshot. */
    method RunOrRestore(e: Engine, schema: SchemaDef, txn: Transaction, deadline: Option<I64>)
      returns (r: Result<(), ErrorCode>)
      requires Admitted(e, txn)
      modifies this
      ensures var o := old(RunSteps(e, schema, View(), txn.steps));
              (r == if o.error.Some? then Err(o.error.value)
                    else if !Before(e.now(o.st.tick), deadline) then Err(PreconditionFailed) else Ok(())) &&
              (r.Ok? ==> View() == o.st)
      ensures r.Err? ==> docs == old(docs)
      ensures |Differ(old(docs), docs)| <= TotalCap(txn.steps, e.maxRows, e.maxCascade)
      ensures NoSpill(schema) ==> |Differ(old(docs), docs)| <= MAX_AFFECTED_ROWS_PER_TXN
    {
      var snapshot := docs;
      AdmittedIsBounded(e, schema, View(), txn);
      assert Differ(docs, docs) == {};
      var error := RunAll(e, schema, txn.steps);
      if error.Some? {
        docs := snapshot;
        return Err(error.value);
      }
      if Expired(deadline, e.now(tick)) {
        docs := snapshot;
        return Err(PreconditionFailed);
      }
      return Ok(());
    }

    /** The loop over the steps, up to the first error. */
    method RunAll(e: Engine, schema: SchemaDef, steps: seq<Step>) returns (error: Option<ErrorCode>)
      modifies this
      ensures var o := old(RunSteps(e, schema, View(), steps));
              error == o.error && (error.None? ==> View() == o.st)
    {
      ghost var whole := RunSteps(e, schema, View(), steps);
      for i := 0 to |steps|
        invariant SameEnd(RunSteps(e, schema, View(), steps[i..]), whole)
      {
        var o := RunStep(e, schema, View(), steps[i]);
        NextStep(e, schema, View(), steps, i);
        docs, tick := o.st.docs, o.st.tick + 1;
        if o.error.Some? {
          return o.error;
        }
      }
      return None;
    }
  }

  predicate Expired(deadline: Option<I64>, now: int) {
    deadline.Some? && now >= deadline.value
  }

  ghost predicate SameEnd(a: Outcome, b: Outcome) {
    a.st == b.st && a.error == b.error
  }

  lemma NextStep(e: Engine, schema: SchemaDef, st: State, steps: seq<Step>, i: nat)
    requires i < |steps|
    ensures var o := RunStep(e, schema, st, steps[i]);
            var r := RunSteps(e, schema, st, steps[i..]);
            if o.error.Some? then r == o else SameEnd(RunSteps(e, schema, Tick(o.st), steps[i + 1..]), r)
  {
    assert steps[i..][0] == steps[i] && steps[i..][1..] == steps[i + 1..];
  }

  // ---------- the verdict, in full ----------

  /** The guards are the deadlines of the transaction's own `expectBefore` steps. */
  lemma {:induction false} GuardsExactly(steps: seq<Step>, g: I64)
    ensures g in Guards(steps) <==> ExpectBefore(g) in steps
    decreases |steps|
  {
    if steps == [] {
    } else {
      var init, last := steps[..|steps| - 1], steps[|steps| - 1];
      GuardsExactly(init, g);
      assert steps == init + [last];
      assert ExpectBefore(g) in steps <==> ExpectBefore(g) in init || ExpectBefore(g) == last;
    }
  }

  ghost predicate IsByQueryAt(steps: seq<Step>, i: nat) {
    i < |steps| && (steps[i].PatchByQuery? || steps[i].DeleteByQuery? || steps[i].ExpectNoMatch?)
  }

  ghost function ByQueryPositions(steps: seq<Step>, n: nat): set<nat> {
    set i: nat | i < n && IsByQueryAt(steps, i)
  }

  lemma OneMorePosition(steps: seq<Step>, n: nat)
    ensures |ByQueryPositions(steps, n + 1)| == |ByQueryPositions(steps, n)| + if IsByQueryAt(steps, n) then 1 else 0
  {
    assert ByQueryPositions(steps, n + 1) == ByQueryPositions(steps, n) + if IsByQueryAt(steps, n) then {n} else {};
  }

  lemma {:induction false} ByQueryStepsAppend(steps: seq<Step>, step: Step)
    ensures ByQuerySteps(steps + [step]) == ByQuerySteps(steps) + if IsByQuery(step) then 1 else 0
    decreases |steps|
  {
    if steps == [] {
      assert [step][1..] == [];
    } else {
      assert (steps + [step])[0] == steps[0] && (steps + [step])[1..] == steps[1..] + [step];
      ByQueryStepsAppend(steps[1..], step);
    }
  }

  lemma OneMoreStep(steps: seq<Step>, n: nat)
    requires n < |steps|
    ensures ByQuerySteps(steps[..n + 1]) == ByQuerySteps(steps[..n]) + if IsByQueryAt(steps, n) then 1 else 0
  {
    assert steps[..n + 1] == steps[..n] + [steps[n]];
    ByQueryStepsAppend(steps[..n], steps[n]);
  }

  /** The by-query steps are counted by position. */
  lemma ByQueryStepsExactly(steps: seq<Step>)
    ensures ByQuerySteps(steps) == |ByQueryPositions(steps, |steps|)|
  {
    for n := 0 to |steps|
      invariant ByQuerySteps(steps[..n]) == |ByQueryPositions(steps, n)|
    {
      OneMoreStep(steps, n);
      OneMorePosition(steps, n);
    }
    assert steps[..|steps|] == steps;
  }

  /** At most 1024 steps in the whole tree, 16 by-query steps and 10000 estimated rows, and safe deadlines. */
  lemma AdmittedExactly(e: Engine, txn: Transaction)
    ensures Admitted(e, txn) <==>
            (forall g | ExpectBefore(g) in txn.steps :: 0 <= g <= 9_007_199_254_740_991) &&
            CountSteps(txn) <= 1024 && ByQuerySteps(txn.steps) <= 16 &&
            WorstCaseAffected(txn.steps, e.maxRows) <= 10_000
  {
    forall g ensures g in Guards(txn.steps) <==> ExpectBefore(g) in txn.steps {
      GuardsExactly(txn.steps, g);
    }
  }

  ghost predicate InTime(txn: Transaction, now: int) {
    forall g | ExpectBefore(g) in txn.steps :: now < g
  }

  lemma InTimeExactly(txn: Transaction, now: int)
    ensures InTime(txn, now) <==> AllPass(Guards(txn.steps), now)
  {
    forall g ensures g in Guards(txn.steps) <==> ExpectBefore(g) in txn.steps {
      GuardsExactly(txn.steps, g);
    }
  }

  /** A transaction commits exactly when it is admitted, no step fails, and it is in time at its start and end. */
  lemma CommitsExactly(e: Engine, schema: SchemaDef, st: State, txn: Transaction)
    ensures var r := RunSteps(e, schema, Tick(st), txn.steps);
            var verdict := Verdict(e, schema, st, txn);
            (verdict.Ok? <==>
               Admitted(e, txn) && InTime(txn, e.now(st.tick)) && r.error.None? && InTime(txn, e.now(r.st.tick))) &&
            (!Admitted(e, txn) ==> verdict == Err(BadRequest)) &&
            (Admitted(e, txn) && !InTime(txn, e.now(st.tick)) ==> verdict == Err(PreconditionFailed)) &&
            (Admitted(e, txn) && InTime(txn, e.now(st.tick)) && r.error.Some? ==> verdict == Err(r.error.value)) &&
            (Admitted(e, txn) && InTime(txn, e.now(st.tick)) && r.error.None? && !InTime(txn, e.now(r.st.tick)) ==>
               verdict == Err(PreconditionFailed))
  {
    InTimeExactly(txn, e.now(st.tick));
    InTimeExactly(txn, e.now(RunSteps(e, schema, Tick(st), txn.steps).st.tick));
  }

  // ---------- steps in turn ----------

  /** A run of one step is the step, with time passing after it. */
  lemma RunOfOne(e: Engine, schema: SchemaDef, st: State, step: Step)
    ensures var r, o := RunSteps(e, schema, st, [step]), RunStep(e, schema, st, step);
            r.error == o.error && r.direct == o.direct && r.cascaded == o.cascaded && r.st.docs == o.st.docs &&
            r.st.tick == o.st.tick + if o.error.Some? then 0 else 1
    ensures RunSteps(e, schema, st, []) == Outcome(st, {}, {}, None)
  {
    assert [step][0] == step && [step][1..] == [];
  }

  /** Steps run in turn: what comes first is done first, and after an error nothing more is. */
  lemma {:induction false} RunInTurn(e: Engine, schema: SchemaDef, st: State, a: seq<Step>, b: seq<Step>)
    ensures var first := RunSteps(e, schema, st, a);
            var rest := RunSteps(e, schema, first.st, b);
            RunSteps(e, schema, st, a + b)
            == if first.error.Some? then first
               else Outcome(rest.st, first.direct + rest.direct, first.cascaded + rest.cascaded, rest.error)
    decreases |a|
  {
    if a == [] {
      assert a + b == b;
    } else {
      var first := RunStep(e, schema, st, a[0]);
      assert (a + b)[0] == a[0] && (a + b)[1..] == a[1..] + b;
      if first.error.None? {
        RunInTurn(e, schema, Tick(first.st), a[1..], b);
      }
    }
  }
}
