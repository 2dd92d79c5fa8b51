/** Step count, worst-case row bound and deadline of core/src/engine.rs. */
module Measures {
  import opened Wrappers
  import opened Json
  import opened Mutation

  // ---------- recursive step count ----------

  function CountSteps(txn: Transaction): (n: nat)
    decreases txn, 2
  {
    CountFirst(txn, |txn.steps|)
  }

  function CountFirst(txn: Transaction, n: nat): (c: nat)
    requires n <= |txn.steps|
    decreases txn, 1, n
  {
    if n == 0 then 0 else CountFirst(txn, n - 1) + CountStep(txn.steps[n - 1])
  }

  /** One for the step, plus everything it carries for later. */
  function CountStep(step: Step): (c: nat)
    ensures c >= 1
    decreases step, 2
  {
    match step
    case Schedule(_, txn, _) => 1 + CountSteps(txn)
    case StartWorkflow(spec) => 1 + CountSpecs(spec, |spec.steps|)
    case _ => 1
  }

  function CountSpecs(spec: WorkflowSpec, n: nat): (c: nat)
    requires n <= |spec.steps|
    decreases spec, 1, n
  {
    if n == 0 then 0
    else
      CountSpecs(spec, n - 1) +
      match spec.steps[n - 1].txn
      case Some(txn) => CountSteps(txn)
      case None => 0
  }

  // ---------- reference: addresses of steps in the tree ----------

  /** Index of a top-level step, then for a schedule an address in its transaction, for a workflow its spec. */
  type Address = seq<nat>

  function StepAt(txn: Transaction, a: Address): (r: Option<Step>)
    decreases |a|
  {
    if a == [] || a[0] >= |txn.steps| then None
    else if |a| == 1 then Some(txn.steps[a[0]])
    else
      match txn.steps[a[0]]
      case Schedule(_, inner, _) => StepAt(inner, a[1..])
      case StartWorkflow(spec) =>
        if a[1] < |spec.steps| && spec.steps[a[1]].txn.Some? then StepAt(spec.steps[a[1]].txn.value, a[2..])
        else None
      case _ => None
  }

  ghost function Under(prefix: Address, s: set<Address>): (r: set<Address>) {
    set a | a in s :: prefix + a
  }

  ghost function Addresses(txn: Transaction): (r: set<Address>)
    decreases txn, 2
  {
    AddressesFirst(txn, |txn.steps|)
  }

  ghost function AddressesFirst(txn: Transaction, n: nat): (r: set<Address>)
    requires n <= |txn.steps|
    decreases txn, 1, n
  {
    if n == 0 then {} else AddressesFirst(txn, n - 1) + StepAddresses(txn.steps[n - 1], n - 1)
  }

  ghost function StepAddresses(step: Step, i: nat): (r: set<Address>)
    decreases step, 2
  {
    {[i]} +
    match step
    case Schedule(_, txn, _) => Under([i], Addresses(txn))
    case StartWorkflow(spec) => SpecAddresses(spec, i, |spec.steps|)
    case _ => {}
  }

  ghost function SpecAddresses(spec: WorkflowSpec, i: nat, n: nat): (r: set<Address>)
    requires n <= |spec.steps|
    decreases spec, 1, n
  {
    if n == 0 then {}
    else
      SpecAddresses(spec, i, n - 1) +
      match spec.steps[n - 1].txn
      case Some(txn) => Under([i, n - 1], Addresses(txn))
      case None => {}
  }

  // ---------- addresses are exactly the positions that hold a step ----------

  lemma {:induction false} AddressesAreSteps(txn: Transaction, a: Address)
    ensures a in Addresses(txn) <==> StepAt(txn, a).Some?
    decreases txn, 2
  {
    AddressesFirstAreSteps(txn, |txn.steps|, a);
  }

  lemma {:induction false} AddressesFirstAreSteps(txn: Transaction, n: nat, a: Address)
    requires n <= |txn.steps|
    ensures a in AddressesFirst(txn, n) <==> StepAt(txn, a).Some? && a[0] < n
    decreases txn, 1, n
  {
    if n == 0 {
    } else {
      AddressesFirstAreSteps(txn, n - 1, a);
      StepAddressesAreSteps(txn, n - 1, a);
    }
  }

  lemma {:induction false} StepAddressesAreSteps(txn: Transaction, i: nat, a: Address)
    requires i < |txn.steps|
    ensures a in StepAddresses(txn.steps[i], i) <==> StepAt(txn, a).Some? && a[0] == i
    decreases txn, 0, i
  {
    if |a| == 1 && a[0] == i {
      assert a == [i];
    }
    var step := txn.steps[i];
    match step
    case Schedule(_, inner, _) =>
      UnderIff([i], Addresses(inner), a);
      AddressesAreSteps(inner, if |a| > 1 then a[1..] else []);
      assert [i] <= a <==> |a| >= 1 && a[0] == i;
    case StartWorkflow(spec) =>
      SpecAddressesAreSteps(spec, i, |spec.steps|, a);
      assert a in StepAddresses(step, i) <==> a in {[i]} || a in SpecAddresses(spec, i, |spec.steps|);
      if |a| == 2 && a[0] == i && a[1] < |spec.steps| && spec.steps[a[1]].txn.Some? {
        assert a[2..] == [];
      }
    case _ => assert StepAddresses(step, i) == {[i]};
  }

  lemma {:induction false} SpecAddressesAreSteps(spec: WorkflowSpec, i: nat, n: nat, a: Address)
    requires n <= |spec.steps|
    ensures a in SpecAddresses(spec, i, n) <==>
            |a| > 2 && a[0] == i && a[1] < n && spec.steps[a[1]].txn.Some? &&
            StepAt(spec.steps[a[1]].txn.value, a[2..]).Some?
    decreases spec, 1, n
  {
    if n == 0 {
    } else {
      SpecAddressesAreSteps(spec, i, n - 1, a);
      match spec.steps[n - 1].txn
      case None =>
      case Some(txn) =>
        UnderIff([i, n - 1], Addresses(txn), a);
        AddressesAreSteps(txn, []);
        if |a| >= 2 { AddressesAreSteps(txn, a[2..]); }
    }
  }

  lemma UnderIff(prefix: Address, s: set<Address>, a: Address)
    ensures a in Under(prefix, s) <==> prefix <= a && a[|prefix|..] in s
  {
    if prefix <= a && a[|prefix|..] in s {
      assert a == prefix + a[|prefix|..];
    }
  }

  // ---------- and there are as many of them as the count says ----------

  lemma {:induction false} UnderKeepsSize(prefix: Address, s: set<Address>)
    ensures |Under(prefix, s)| == |s|
    decreases |s|
  {
    if s == {} {
    } else {
      var a :| a in s;
      UnderKeepsSize(prefix, s - {a});
      assert prefix + a !in Under(prefix, s - {a}) by {
        UnderIff(prefix, s - {a}, prefix + a);
      }
      assert Under(prefix, s) == Under(prefix, s - {a}) + {prefix + a};
    }
  }

  /** `count_steps` is the number of step nodes in the whole tree. */
  lemma {:induction false} CountStepsCountsAddresses(txn: Transaction)
    ensures CountSteps(txn) == |Addresses(txn)|
    decreases txn, 2
  {
    forall i | 0 <= i < |txn.steps| { CountStepCounts(txn.steps[i], i); }
    CountFirstCounts(txn);
  }

  ghost predicate StepCounted(txn: Transaction, i: nat) {
    i < |txn.steps| && CountStep(txn.steps[i]) == |StepAddresses(txn.steps[i], i)|
  }

  lemma CountFirstCounts(txn: Transaction)
    requires forall i | 0 <= i < |txn.steps| :: StepCounted(txn, i)
    ensures CountFirst(txn, |txn.steps|) == |AddressesFirst(txn, |txn.steps|)|
  {
    for n := 0 to |txn.steps|
      invariant CountFirst(txn, n) == |AddressesFirst(txn, n)|
    {
      CountNextStep(txn, n);
    }
  }

  lemma CountNextStep(txn: Transaction, i: nat)
    requires StepCounted(txn, i) && CountFirst(txn, i) == |AddressesFirst(txn, i)|
    ensures CountFirst(txn, i + 1) == |AddressesFirst(txn, i + 1)|
  {
    var before, here := AddressesFirst(txn, i), StepAddresses(txn.steps[i], i);
    forall a | a in here ensures a !in before {
      AddressesFirstAreSteps(txn, i, a);
      StepAddressesAreSteps(txn, i, a);
    }
    DisjointSizes(before, here);
  }

  lemma DisjointSizes(a: set<Address>, b: set<Address>)
    requires a !! b
    ensures |a + b| == |a| + |b|
  {
  }

  lemma {:induction false} CountStepCounts(step: Step, i: nat)
    ensures CountStep(step) == |StepAddresses(step, i)|
    decreases step, 2
  {
    match step
    case Schedule(_, txn, _) =>
      CountStepsCountsAddresses(txn);
      CountScheduled(txn, i);
    case StartWorkflow(spec) =>
      CountSpecsCounts(spec, i);
      CountStarted(spec, i);
    case _ => assert StepAddresses(step, i) == {[i]};
  }

  lemma CountScheduled(txn: Transaction, i: nat)
    ensures |{[i]} + Under([i], Addresses(txn))| == 1 + |Addresses(txn)|
  {
    UnderKeepsSize([i], Addresses(txn));
    UnderIff([i], Addresses(txn), [i]);
    AddressesAreSteps(txn, []);
    DisjointSizes({[i]}, Under([i], Addresses(txn)));
  }

  lemma CountStarted(spec: WorkflowSpec, i: nat)
    ensures var carried := SpecAddresses(spec, i, |spec.steps|); |{[i]} + carried| == 1 + |carried|
  {
    SpecAddressesAreSteps(spec, i, |spec.steps|, [i]);
    DisjointSizes({[i]}, SpecAddresses(spec, i, |spec.steps|));
  }

  lemma {:induction false} CountSpecsCounts(spec: WorkflowSpec, i: nat)
    ensures CountSpecs(spec, |spec.steps|) == |SpecAddresses(spec, i, |spec.steps|)|
    decreases spec, 1
  {
    for n := 0 to |spec.steps|
      invariant CountSpecs(spec, n) == |SpecAddresses(spec, i, n)|
    {
      if spec.steps[n].txn.Some? {
        CountStepsCountsAddresses(spec.steps[n].txn.value);
        CountNextSpec(spec, i, n);
      }
    }
  }

  lemma CountNextSpec(spec: WorkflowSpec, i: nat, j: nat)
    requires j < |spec.steps| && spec.steps[j].txn.Some?
    ensures |SpecAddresses(spec, i, j + 1)| == |SpecAddresses(spec, i, j)| + |Addresses(spec.steps[j].txn.value)|
  {
    var inner := Addresses(spec.steps[j].txn.value);
    var before, here := SpecAddresses(spec, i, j), Under([i, j], inner);
    UnderKeepsSize([i, j], inner);
    forall a | a in here ensures a !in before {
      UnderIff([i, j], inner, a);
      SpecAddressesAreSteps(spec, i, j, a);
    }
    DisjointSizes(before, here);
  }

  // ---------- nesting ----------

  /** `inner` is carried directly by some step of `outer`. */
  ghost predicate Carries(outer: Transaction, inner: Transaction) {
    exists i | 0 <= i < |outer.steps| :: StepCarries(outer.steps[i], inner)
  }

  ghost predicate StepCarries(step: Step, inner: Transaction) {
    match step
    case Schedule(_, txn, _) => txn == inner
    case StartWorkflow(spec) => exists j | 0 <= j < |spec.steps| :: spec.steps[j].txn == Some(inner)
    case _ => false
  }

  lemma {:induction false} CountFirstGrows(txn: Transaction, i: nat, n: nat)
    requires i < n <= |txn.steps|
    ensures CountStep(txn.steps[i]) <= CountFirst(txn, n)
    decreases n
  {
    if i == n - 1 {
    } else {
      CountFirstGrows(txn, i, n - 1);
    }
  }

  lemma {:induction false} CountSpecsGrows(spec: WorkflowSpec, j: nat, n: nat)
    requires j < n <= |spec.steps| && spec.steps[j].txn.Some?
    ensures CountSteps(spec.steps[j].txn.value) <= CountSpecs(spec, n)
    decreases n
  {
    if j == n - 1 {
    } else {
      CountSpecsGrows(spec, j, n - 1);
    }
  }

  lemma CarriedIsSmaller(outer: Transaction, inner: Transaction)
    requires Carries(outer, inner)
    ensures CountSteps(inner) < CountSteps(outer)
  {
    var i :| 0 <= i < |outer.steps| && StepCarries(outer.steps[i], inner);
    CountFirstGrows(outer, i, |outer.steps|);
    if outer.steps[i].StartWorkflow? {
      var spec := outer.steps[i].spec;
      var j :| 0 <= j < |spec.steps| && spec.steps[j].txn == Some(inner);
      CountSpecsGrows(spec, j, |spec.steps|);
    }
  }

  /** A chain of transactions, each carried by the one before. */
  ghost predicate IsNesting(chain: seq<Transaction>) {
    forall i | 0 <= i < |chain| - 1 :: Carries(chain[i], chain[i + 1])
  }

  /** The outer count exceeds every nested count by the nesting depth, so one cap bounds count and depth. */
  lemma {:induction false} CountBoundsNesting(chain: seq<Transaction>)
    requires chain != [] && IsNesting(chain)
    ensures CountSteps(chain[|chain| - 1]) + (|chain| - 1) <= CountSteps(chain[0])
    decreases |chain|
  {
    if |chain| == 1 {
    } else {
      CarriedIsSmaller(chain[0], chain[1]);
      CountBoundsNesting(chain[1..]);
    }
  }

  // ---------- worst-case affected documents ----------

  function ByQueryCap(limit: Option<U32>, maxRows: U32): (n: nat) {
    var n := limit.GetOr(maxRows);
    if n < maxRows then n else maxRows
  }

  function WorstCaseStep(step: Step, maxRows: U32): (n: nat) {
    match step
    case PatchByQuery(_, _, _, limit) => ByQueryCap(limit, maxRows)
    case DeleteByQuery(_, _, limit) => ByQueryCap(limit, maxRows)
    case InsertMany(_, docs) => |docs|
    case UpsertMany(_, _, docs) => |docs|
    case ExpectBefore(_) => 0
    case ExpectNoMatch(_, _) => 0
    case Schedule(_, _, _) => 0
    case CancelSchedule(_) => 0
    case StartWorkflow(_) => 0
    case CancelWorkflow(_) => 0
    case _ => 1
  }

  function WorstCaseAffected(steps: seq<Step>, maxRows: U32): (n: nat) {
    if steps == [] then 0 else WorstCaseStep(steps[0], maxRows) + WorstCaseAffected(steps[1..], maxRows)
  }

  /** Concatenating step lists adds the estimates. */
  lemma {:induction false} EstimateIsAdditive(a: seq<Step>, b: seq<Step>, maxRows: U32)
    ensures WorstCaseAffected(a + b, maxRows) == WorstCaseAffected(a, maxRows) + WorstCaseAffected(b, maxRows)
    decreases |a|
  {
    if a == [] {
      assert a + b == b;
    } else {
      assert (a + b)[1..] == a[1..] + b;
      EstimateIsAdditive(a[1..], b, maxRows);
    }
  }

  lemma {:induction false} EstimateIsMonotone(steps: seq<Step>, lo: U32, hi: U32)
    requires lo <= hi
    ensures WorstCaseAffected(steps, lo) <= WorstCaseAffected(steps, hi)
    decreases |steps|
  {
    if steps == [] {
    } else {
      EstimateIsMonotone(steps[1..], lo, hi);
    }
  }

  // ---------- deadline ----------

  const MAX_SAFE_INTEGER: int := 9_007_199_254_740_991

  datatype DeadlineError = UnsafeInteger

  predicate InRange(deadlineMs: I64) {
    0 <= deadlineMs <= MAX_SAFE_INTEGER
  }

  /** The deadlines of the transaction's own guards, in order; nested transactions keep theirs. */
  function Guards(steps: seq<Step>): (r: seq<I64>) {
    if steps == [] then []
    else
      var init := Guards(steps[..|steps| - 1]);
      if steps[|steps| - 1].ExpectBefore? then init + [steps[|steps| - 1].deadlineMs] else init
  }

  ghost predicate AllPass(guards: seq<I64>, now: int) {
    forall g | g in guards :: now < g
  }

  ghost predicate Before(now: int, deadline: Option<I64>) {
    deadline.Some? ==> now < deadline.value
  }

  /**
   Fails exactly on an out-of-range guard; otherwise comparing the clock with the one
   result is the same as checking every guard.
   */
  ghost predicate IsDeadline(guards: seq<I64>, r: Result<Option<I64>, DeadlineError>) {
    (r.Err? <==> exists g | g in guards :: !InRange(g)) &&
    (r.Ok? ==> forall now: int :: Before(now, r.value) <==> AllPass(guards, now)) &&
    (r.Ok? && r.value.Some? ==> r.value.value in guards)
  }

  method TransactionDeadline(txn: Transaction) returns (r: Result<Option<I64>, DeadlineError>)
    ensures IsDeadline(Guards(txn.steps), r)
  {
    var earliest: Option<I64> := None;
    for n := 0 to |txn.steps|
      invariant forall g | g in Guards(txn.steps[..n]) :: InRange(g)
      invariant earliest.None? ==> Guards(txn.steps[..n]) == []
      invariant earliest.Some? ==>
        earliest.value in Guards(txn.steps[..n]) && forall g | g in Guards(txn.steps[..n]) :: earliest.value <= g
    {
      var step := txn.steps[n];
      assert txn.steps[..n + 1][..n] == txn.steps[..n];
      if step.ExpectBefore? {
        if !InRange(step.deadlineMs) {
          GuardIsListed(txn.steps, n);
          return Err(UnsafeInteger);
        }
        earliest :=
          Some(if earliest.Some? && earliest.value < step.deadlineMs then earliest.value else step.deadlineMs);
      }
    }
    assert txn.steps[..|txn.steps|] == txn.steps;
    return Ok(earliest);
  }

  lemma {:induction false} GuardIsListed(steps: seq<Step>, i: nat)
    requires i < |steps| && steps[i].ExpectBefore?
    ensures steps[i].deadlineMs in Guards(steps)
    decreases |steps|
  {
    if i == |steps| - 1 {
    } else {
      GuardIsListed(steps[..|steps| - 1], i);
    }
  }

  /** The same steps except for what schedules and workflows carry. */
  ghost predicate SameShell(a: Transaction, b: Transaction) {
    |a.steps| == |b.steps| &&
    forall i | 0 <= i < |a.steps| ::
      a.steps[i] == b.steps[i] ||
      (a.steps[i].Schedule? && b.steps[i].Schedule?) ||
      (a.steps[i].StartWorkflow? && b.steps[i].StartWorkflow?)
  }

  lemma {:induction false} GuardsIgnoreNested(a: Transaction, b: Transaction, n: nat)
    requires SameShell(a, b) && n <= |a.steps|
    ensures Guards(a.steps[..n]) == Guards(b.steps[..n])
    decreases n
  {
    if n == 0 {
    } else {
      GuardsIgnoreNested(a, b, n - 1);
      assert a.steps[..n][..n - 1] == a.steps[..n - 1] && b.steps[..n][..n - 1] == b.steps[..n - 1];
    }
  }

  /** Replacing nested transactions leaves the deadline, or the failure, unchanged. */
  lemma NestedDeadlinesDoNotCount(
    a: Transaction, b: Transaction, r: Result<Option<I64>, DeadlineError>, s: Result<Option<I64>, DeadlineError>)
    requires SameShell(a, b) && IsDeadline(Guards(a.steps), r) && IsDeadline(Guards(b.steps), s)
    ensures r == s
  {
    GuardsIgnoreNested(a, b, |a.steps|);
    assert a.steps[..|a.steps|] == a.steps && b.steps[..|b.steps|] == b.steps;
    if r.Ok? && s.Ok? {
      var guards := Guards(a.steps);
      if r.value.Some? {
        assert !Before(r.value.value, r.value);
        assert !AllPass(guards, r.value.value) && !Before(r.value.value, s.value);
      }
      if s.value.Some? {
        assert !Before(s.value.value, s.value);
        assert !AllPass(guards, s.value.value) && !Before(s.value.value, r.value);
      }
    } else {
      assert r.error == UnsafeInteger && s.error == UnsafeInteger;
    }
  }
}
