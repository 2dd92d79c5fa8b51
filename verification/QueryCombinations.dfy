/** The table-driven rule evaluator of core/src/query_combinations.rs, for an arbitrary rule table. */
module QueryCombinations {
  import opened Wrappers

  datatype RuleViolation = RuleViolation(code: string, message: string)

  /** Loading the table insists on exactly one of the two shapes per rule. */
  datatype Rule =
    | Forbid(clauses: seq<string>, violation: RuleViolation)
    | AtMostOne(clauses: seq<string>, violation: RuleViolation)

  type Clauses = set<string>

  /** `filter(present).count()`; a clause listed twice counts twice. */
  function CountPresent(clauses: seq<string>, present: Clauses): (n: nat)
    ensures n <= |clauses|
  {
    if clauses == [] then 0
    else (if clauses[0] in present then 1 else 0) + CountPresent(clauses[1..], present)
  }

  predicate ForbidFires(rule: Rule, present: Clauses) {
    rule.Forbid? && forall i | 0 <= i < |rule.clauses| :: rule.clauses[i] in present
  }

  predicate AtMostOneFires(rule: Rule, present: Clauses) {
    rule.AtMostOne? && CountPresent(rule.clauses, present) > 1
  }

  function FindForbid(rules: seq<Rule>, present: Clauses): (r: Option<Rule>) {
    if rules == [] then None
    else if ForbidFires(rules[0], present) then Some(rules[0])
    else FindForbid(rules[1..], present)
  }

  function FindAtMostOne(rules: seq<Rule>, present: Clauses): (r: Option<Rule>) {
    if rules == [] then None
    else if AtMostOneFires(rules[0], present) then Some(rules[0])
    else FindAtMostOne(rules[1..], present)
  }

  /** Every forbid rule in table order, then every at-most-one rule in table order. */
  function CheckQueryCombinations(rules: seq<Rule>, present: Clauses): (r: Result<(), RuleViolation>) {
    match FindForbid(rules, present)
    case Some(rule) => Err(rule.violation)
    case None =>
      match FindAtMostOne(rules, present)
      case Some(rule) => Err(rule.violation)
      case None => Ok(())
  }

  // ---------- what the verdict means ----------

  /** Independent reading of a rule: all its clauses, or two different positions of it, are present. */
  ghost predicate Violates(rule: Rule, present: Clauses) {
    match rule
    case Forbid(clauses, _) => forall c | c in clauses :: c in present
    case AtMostOne(clauses, _) =>
      exists i, j | 0 <= i < j < |clauses| :: clauses[i] in present && clauses[j] in present
  }

  lemma {:induction false} CountPositive(clauses: seq<string>, present: Clauses)
    ensures CountPresent(clauses, present) > 0 <==> exists i | 0 <= i < |clauses| :: clauses[i] in present
  {
    if clauses == [] {
    } else {
      CountPositive(clauses[1..], present);
      if i :| 0 <= i < |clauses| && clauses[i] in present {
        assert i > 0 ==> clauses[1..][i - 1] in present;
      }
    }
  }

  lemma {:induction false} CountAboveOne(clauses: seq<string>, present: Clauses)
    ensures CountPresent(clauses, present) > 1 <==>
            exists i, j | 0 <= i < j < |clauses| :: clauses[i] in present && clauses[j] in present
  {
    if clauses == [] {
    } else {
      var rest := clauses[1..];
      CountAboveOne(rest, present);
      CountPositive(rest, present);
      if i, j :| 0 <= i < j < |clauses| && clauses[i] in present && clauses[j] in present {
        assert clauses[j] == rest[j - 1];
        assert i > 0 ==> clauses[i] == rest[i - 1];
      }
      if i, j :| 0 <= i < j < |rest| && rest[i] in present && rest[j] in present {
        assert clauses[i + 1] in present && clauses[j + 1] in present;
      }
      if clauses[0] in present && CountPresent(rest, present) > 0 {
        var j :| 0 <= j < |rest| && rest[j] in present;
        assert clauses[0] in present && clauses[j + 1] in present;
      }
    }
  }

  lemma FiringIsViolation(rule: Rule, present: Clauses)
    ensures ForbidFires(rule, present) || AtMostOneFires(rule, present) <==> Violates(rule, present)
  {
    CountAboveOne(rule.clauses, present);
  }

  lemma {:induction false} FindsExactly(rules: seq<Rule>, present: Clauses)
    ensures FindForbid(rules, present).None? && FindAtMostOne(rules, present).None? <==>
            forall rule | rule in rules :: !Violates(rule, present)
  {
    if rules == [] {
    } else {
      FiringIsViolation(rules[0], present);
      FindsExactly(rules[1..], present);
      assert forall rule | rule in rules :: rule == rules[0] || rule in rules[1..];
    }
  }

  /** Accepts exactly when no rule of the table is violated. */
  lemma AcceptsExactly(rules: seq<Rule>, present: Clauses)
    ensures CheckQueryCombinations(rules, present).Ok? <==> forall rule | rule in rules :: !Violates(rule, present)
  {
    FindsExactly(rules, present);
  }

  ghost predicate FirstForbid(rules: seq<Rule>, present: Clauses, i: int) {
    0 <= i < |rules| && ForbidFires(rules[i], present) && forall j | 0 <= j < i :: !ForbidFires(rules[j], present)
  }

  ghost predicate FirstAtMostOne(rules: seq<Rule>, present: Clauses, i: int) {
    0 <= i < |rules| && AtMostOneFires(rules[i], present) && forall j | 0 <= j < i :: !AtMostOneFires(rules[j], present)
  }

  lemma {:induction false} FindForbidIsFirst(rules: seq<Rule>, present: Clauses)
    ensures var r := FindForbid(rules, present);
            if r.Some? then exists i :: FirstForbid(rules, present, i) && rules[i] == r.value
            else forall i | 0 <= i < |rules| :: !ForbidFires(rules[i], present)
  {
    if rules == [] {
    } else {
      FindForbidIsFirst(rules[1..], present);
      if ForbidFires(rules[0], present) {
        assert FirstForbid(rules, present, 0);
      } else if FindForbid(rules, present).Some? {
        var i :| FirstForbid(rules[1..], present, i) && rules[1..][i] == FindForbid(rules, present).value;
        assert FirstForbid(rules, present, i + 1);
      }
    }
  }

  lemma {:induction false} FindAtMostOneIsFirst(rules: seq<Rule>, present: Clauses)
    ensures var r := FindAtMostOne(rules, present);
            r.Some? ==> exists i :: FirstAtMostOne(rules, present, i) && rules[i] == r.value
  {
    if rules == [] {
    } else {
      FindAtMostOneIsFirst(rules[1..], present);
      if AtMostOneFires(rules[0], present) {
        assert FirstAtMostOne(rules, present, 0);
      } else if FindAtMostOne(rules, present).Some? {
        var i :| FirstAtMostOne(rules[1..], present, i) && rules[1..][i] == FindAtMostOne(rules, present).value;
        assert FirstAtMostOne(rules, present, i + 1);
      }
    }
  }

  /** Tie-break: the first forbid rule that fires, else the first at-most-one rule that does. */
  lemma ReportedRule(rules: seq<Rule>, present: Clauses)
    ensures var r := CheckQueryCombinations(rules, present);
            r.Err? ==> exists i | 0 <= i < |rules| ::
              rules[i].violation == r.error &&
              (FirstForbid(rules, present, i) ||
               (FirstAtMostOne(rules, present, i) && forall j | 0 <= j < |rules| :: !ForbidFires(rules[j], present)))
  {
    FindForbidIsFirst(rules, present);
    FindAtMostOneIsFirst(rules, present);
  }

  /** Clearing clauses of an accepted query keeps it accepted. */
  lemma ClearingKeepsAccepted(rules: seq<Rule>, present: Clauses, fewer: Clauses)
    requires fewer <= present && CheckQueryCombinations(rules, present).Ok?
    ensures CheckQueryCombinations(rules, fewer).Ok?
  {
    AcceptsExactly(rules, present);
    AcceptsExactly(rules, fewer);
    forall rule | rule in rules ensures !Violates(rule, fewer) {
      assert !Violates(rule, present);
    }
  }

  // ---------- cliques as pairs ----------

  /** One forbid rule per pair of listed positions. */
  function Pairs(clauses: seq<string>, violation: RuleViolation): (r: seq<Rule>) {
    if clauses == [] then []
    else
      seq(|clauses| - 1, i requires 0 <= i < |clauses| - 1 => Forbid([clauses[0], clauses[i + 1]], violation)) +
      Pairs(clauses[1..], violation)
  }

  function Expand(rules: seq<Rule>): (r: seq<Rule>) {
    if rules == [] then []
    else
      (match rules[0]
       case Forbid(_, _) => [rules[0]]
       case AtMostOne(clauses, violation) => Pairs(clauses, violation)) +
      Expand(rules[1..])
  }

  lemma {:induction false} PairsAgree(clauses: seq<string>, violation: RuleViolation, present: Clauses)
    ensures (exists rule | rule in Pairs(clauses, violation) :: Violates(rule, present)) <==>
            CountPresent(clauses, present) > 1
  {
    if clauses == [] {
    } else {
      var rest := clauses[1..];
      PairsAgree(rest, violation, present);
      CountPositive(rest, present);
      var heads :=
        seq(|clauses| - 1, i requires 0 <= i < |clauses| - 1 => Forbid([clauses[0], clauses[i + 1]], violation));
      HeadPairsAgree(clauses, violation, present, heads);
      assert forall rule :: rule in Pairs(clauses, violation) <==> rule in heads || rule in Pairs(rest, violation);
    }
  }

  lemma HeadPairsAgree(clauses: seq<string>, violation: RuleViolation, present: Clauses, heads: seq<Rule>)
    requires clauses != [] && |heads| == |clauses| - 1
    requires forall i | 0 <= i < |heads| :: heads[i] == Forbid([clauses[0], clauses[1..][i]], violation)
    ensures (exists rule | rule in heads :: Violates(rule, present)) <==>
            clauses[0] in present && exists i | 0 <= i < |clauses[1..]| :: clauses[1..][i] in present
  {
    forall i | 0 <= i < |heads|
      ensures Violates(heads[i], present) <==> clauses[0] in present && clauses[1..][i] in present
    {
      assert heads[i].clauses[0] in heads[i].clauses && heads[i].clauses[1] in heads[i].clauses;
    }
    if clauses[0] in present && exists i | 0 <= i < |clauses[1..]| :: clauses[1..][i] in present {
      var i :| 0 <= i < |clauses[1..]| && clauses[1..][i] in present;
      assert heads[i] in heads;
    }
  }

  lemma {:induction false} ExpandAgrees(rules: seq<Rule>, present: Clauses)
    ensures (exists rule | rule in Expand(rules) :: Violates(rule, present)) <==>
            exists rule | rule in rules :: Violates(rule, present)
  {
    if rules == [] {
    } else {
      ExpandAgrees(rules[1..], present);
      var first := if rules[0].Forbid? then [rules[0]] else Pairs(rules[0].clauses, rules[0].violation);
      if rules[0].AtMostOne? {
        PairsAgree(rules[0].clauses, rules[0].violation, present);
        CountAboveOne(rules[0].clauses, present);
      }
      assert forall rule :: rule in Expand(rules) <==> rule in first || rule in Expand(rules[1..]);
      assert forall rule :: rule in rules <==> rule == rules[0] || rule in rules[1..];
      assert (exists rule | rule in first :: Violates(rule, present)) <==> Violates(rules[0], present);
    }
  }

  lemma {:induction false} PairsForbid(clauses: seq<string>, violation: RuleViolation, rule: Rule)
    requires rule in Pairs(clauses, violation)
    ensures rule.Forbid? && |rule.clauses| == 2
    decreases |clauses|
  {
    if rule in Pairs(clauses[1..], violation) {
      PairsForbid(clauses[1..], violation, rule);
    }
  }

  lemma {:induction false} ExpansionForbids(rules: seq<Rule>, rule: Rule)
    requires rule in Expand(rules)
    ensures rule.Forbid?
    decreases |rules|
  {
    if rule in Expand(rules[1..]) {
      ExpansionForbids(rules[1..], rule);
    } else if rules[0].AtMostOne? {
      PairsForbid(rules[0].clauses, rules[0].violation, rule);
    }
  }

  /** Writing every at-most-one rule out as pairwise forbid rules never changes the verdict. */
  lemma ExpansionKeepsVerdict(rules: seq<Rule>, present: Clauses)
    ensures CheckQueryCombinations(Expand(rules), present).Ok? <==> CheckQueryCombinations(rules, present).Ok?
    ensures forall rule | rule in Expand(rules) :: rule.Forbid?
  {
    forall rule | rule in Expand(rules) { ExpansionForbids(rules, rule); }
    AcceptsExactly(rules, present);
    AcceptsExactly(Expand(rules), present);
    ExpandAgrees(rules, present);
  }
}
