/** Whole runs of the engine, and what of a run belongs to one rule. */
module EngineRuns {
  import opened Prelude
  import opened Condition
  import opened Rules
  import opened EngineSpec

  type Run = seq<Event>

  /** The state before event `k` of a run started in `s`. */
  function StateAt(env: Env, s: EngineState, h: Run, k: nat): EngineState
    requires k <= |h|
  {
    if k == 0 then s else Next(env, StateAt(env, s, h, k - 1), h[k - 1]).0
  }

  /** What event `k` of a run reports. */
  function ReportAt(env: Env, s: EngineState, h: Run, k: nat): EvalReport
    requires k < |h|
  {
    Next(env, StateAt(env, s, h, k), h[k]).1
  }

  predicate ValidEvents(h: Run) {
    forall i :: 0 <= i < |h| ==> ValidEvent(h[i])
  }

  /** The clock never runs backwards. */
  predicate Monotonic(h: Run) {
    forall i, j :: 0 <= i < j < |h| ==> h[i].now <= h[j].now
  }

  lemma {:induction false} RunConsistent(env: Env, s: EngineState, h: Run, k: nat)
    requires Consistent(s) && ValidEvents(h) && k <= |h|
    ensures Consistent(StateAt(env, s, h, k))
  {
    if k > 0 {
      RunConsistent(env, s, h, k - 1);
      NextConsistent(env, StateAt(env, s, h, k - 1), h[k - 1]);
    }
  }

  /** Every state an engine reaches is consistent. */
  lemma ReachedConsistent(env: Env, h: Run, k: nat)
    requires ValidEvents(h) && k <= |h|
    ensures Consistent(StateAt(env, INITIAL, h, k))
  {
    assert Consistent(INITIAL);
    RunConsistent(env, INITIAL, h, k);
  }

  // ---- one rule's share of a report -------------------------------------

  function OnlyRecords(records: seq<LogRecord>, id: string): seq<LogRecord> {
    if records == [] then []
    else OnlyRecords(records[..|records| - 1], id)
         + if records[|records| - 1].ruleId == id then [records[|records| - 1]] else []
  }

  function OnlyErrors(errors: seq<(string, EvalError)>, id: string): seq<(string, EvalError)> {
    if errors == [] then []
    else OnlyErrors(errors[..|errors| - 1], id) + if errors[|errors| - 1].0 == id then [errors[|errors| - 1]] else []
  }

  function OnlySkips(skips: seq<string>, id: string): seq<string> {
    if skips == [] then []
    else OnlySkips(skips[..|skips| - 1], id) + if skips[|skips| - 1] == id then [id] else []
  }

  /** The records, errors and stale skips that belong to rule `id`. */
  function Only(r: EvalReport, id: string): EvalReport {
    EvalReport(OnlyRecords(r.records, id), OnlyErrors(r.evalErrors, id), OnlySkips(r.staleSkips, id))
  }

  /** A report of at most one entry, belonging to `id`. */
  predicate OwnReport(r: EvalReport, id: string) {
    match r
    case EvalReport(records, errors, skips) =>
      || (records == [] && errors == [] && skips == [])
      || (|records| == 1 && records[0].ruleId == id && errors == [] && skips == [])
      || (records == [] && |errors| == 1 && errors[0].0 == id && skips == [])
      || (records == [] && errors == [] && skips == [id])
  }

  lemma StepOwnReport(env: Env, version: u64, rule: CompiledRule, st: RuleState, latest: LatestTable, step: Step)
    ensures OwnReport(RuleStep(env, version, rule, st, latest, step).1, rule.Id())
  {
  }

  lemma OnlyOwn(total: EvalReport, r: EvalReport, owner: string, id: string)
    requires OwnReport(r, owner)
    ensures Only(total.Plus(r), id) == if id == owner then Only(total, id).Plus(r) else Only(total, id)
  {
    if |r.records| == 1 {
      assert (total.records + r.records)[..|total.records|] == total.records;
    }
    if |r.evalErrors| == 1 {
      assert (total.evalErrors + r.evalErrors)[..|total.evalErrors|] == total.evalErrors;
    }
    if |r.staleSkips| == 1 {
      assert (total.staleSkips + r.staleSkips)[..|total.staleSkips|] == total.staleSkips;
    }
    assert total.records + [] == total.records;
    assert total.evalErrors + [] == total.evalErrors;
    assert total.staleSkips + [] == total.staleSkips;
    assert Only(total, id).Plus(NOTHING) == Only(total, id);
  }

  /** A stepper whose reports belong to the rules that make them. */
  ghost predicate OwnReports(f: Stepper) {
    forall rule, st :: OwnReport(f(rule, st).1, rule.Id())
  }

  lemma StepperOwnReports(env: Env, version: u64, latest: LatestTable, step: Step)
    ensures OwnReports(StepperOf(env, version, latest, step))
  {
    var f := StepperOf(env, version, latest, step);
    forall rule, st
      ensures OwnReport(f(rule, st).1, rule.Id())
    {
      StepOwnReport(env, version, rule, st, latest, step);
    }
  }

  /** What the rule called `id` reports, if there is one. */
  function ReportOf(f: Stepper, rules: map<string, CompiledRule>, state: StateTable, id: string): EvalReport {
    if id in rules && id in state then f(rules[id], state[id]).1 else NOTHING
  }

  lemma RuleOwnReport(f: Stepper, rules: seq<CompiledRule>, state: StateTable, i: nat)
    requires OwnReports(f) && i < |rules|
    ensures OwnReport(RuleReport(f, rules, state, i), rules[i].Id())
  {
  }

  lemma NothingPlus(r: EvalReport)
    ensures NOTHING.Plus(r) == r
  {
  }

  lemma OnlyNextReport(f: Stepper, rules: seq<CompiledRule>, state: StateTable, n: nat, id: string)
    requires OwnReports(f) && n < |rules|
    ensures Only(Reports(f, rules, state, n + 1), id) ==
            if id == rules[n].Id() then Only(Reports(f, rules, state, n), id).Plus(RuleReport(f, rules, state, n))
            else Only(Reports(f, rules, state, n), id)
  {
    RuleOwnReport(f, rules, state, n);
    OnlyOwn(Reports(f, rules, state, n), RuleReport(f, rules, state, n), rules[n].Id(), id);
  }

  lemma NextReportOf(f: Stepper, rules: seq<CompiledRule>, state: StateTable, n: nat, id: string)
    requires DistinctIds(rules) && n < |rules|
    ensures ReportOf(f, ById(rules[..n + 1]), state, id) ==
            if id == rules[n].Id() then RuleReport(f, rules, state, n) else ReportOf(f, ById(rules[..n]), state, id)
    ensures id == rules[n].Id() ==> ReportOf(f, ById(rules[..n]), state, id) == NOTHING
  {
    ByIdSnoc(rules, n);
  }

  /** Rule `id`'s share of all reports is what that rule reports. */
  lemma {:induction false} OnlyReports(f: Stepper, rules: seq<CompiledRule>, state: StateTable, n: nat, id: string)
    requires DistinctIds(rules) && OwnReports(f) && n <= |rules|
    ensures Only(Reports(f, rules, state, n), id) == ReportOf(f, ById(rules[..n]), state, id)
  {
    if n > 0 {
      var k := n - 1;
      OnlyReports(f, rules, state, k, id);
      OnlyNextReport(f, rules, state, k, id);
      NextReportOf(f, rules, state, k, id);
      NothingPlus(RuleReport(f, rules, state, k));
      assert k + 1 == n;
    }
  }

  /** Rule `id`'s share of a step: its state and its report follow from its own state alone. */
  lemma StepShare(env: Env, s: EngineState, step: Step, id: string)
    requires Consistent(s)
    ensures var f, rules := StepperOf(env, s.ruleset.version, s.latest, step), ById(s.ruleset.rules);
            var (s', report) := StepAll(env, s, step);
            && s'.state.Keys == rules.Keys
            && (id in rules ==> s'.state[id] == f(rules[id], s.state[id]).0)
            && Only(report, id) == if id in rules then f(rules[id], s.state[id]).1 else NOTHING
  {
    var rules := s.ruleset.rules;
    StepperOwnReports(env, s.ruleset.version, s.latest, step);
    OnlyReports(StepperOf(env, s.ruleset.version, s.latest, step), rules, s.state, |rules|, id);
    assert rules[..|rules|] == rules;
  }
}
