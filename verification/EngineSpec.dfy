/**
 * The rule engine as a state machine: what one rule does with one event, and what a whole
 * engine does with it when every rule is scanned in order.
 */
module EngineSpec {
  import opened Prelude
  import opened Condition
  import opened Rules

  /** One emitted telemetry line. */
  datatype LogRecord = LogRecord(
    tsUs: u64, vin: string, model: string, ruleId: string, rulesetVersion: u64, signal: string,
    value: SignalValue, unit: Option<string>)

  /** What one step of the engine, or one rule in it, has to tell. */
  datatype EvalReport = EvalReport(
    records: seq<LogRecord>, evalErrors: seq<(string, EvalError)>, staleSkips: seq<string>)
  {
    function Plus(other: EvalReport): EvalReport {
      EvalReport(records + other.records, evalErrors + other.evalErrors, staleSkips + other.staleSkips)
    }
  }

  const NOTHING := EvalReport([], [], [])

  datatype Latest = Latest(value: SignalValue, timestampUs: u64, receivedMs: u64)

  datatype RuleState = RuleState(lastLogged: Option<SignalValue>, nextDueMs: Option<u64>)

  /** The vehicle's identity, and the interpreter conditions run on. */
  datatype Env = Env(vin: string, model: string, exec: Interpreter)

  type LatestTable = map<string, Latest>
  type StateTable = map<string, RuleState>

  datatype EngineState = EngineState(ruleset: CompiledRuleSet, latest: LatestTable, state: StateTable)

  const INITIAL := EngineState(EMPTY_RULESET, map[], map[])

  // ---- one rule ---------------------------------------------------------

  /** Whether a value differs from the last logged one by more than the deadband. */
  predicate Changed(last: Option<SignalValue>, v: SignalValue, deadband: real) {
    match last
    case None => true
    case Some(l) => if l.Num? && v.Num? then Abs(v.n - l.n) > deadband else l != v
  }

  function ValuesOf(latest: LatestTable): map<string, SignalValue> {
    map name | name in latest :: latest[name].value
  }

  /** A rule's condition verdict; a rule without one always passes. */
  function Gate(env: Env, rule: CompiledRule, latest: LatestTable): Result<bool, EvalError> {
    if rule.condition.None? then Ok(true) else Evaluate(env.exec, rule.condition.value, ValuesOf(latest))
  }

  function MakeRecord(env: Env, version: u64, rule: CompiledRule, tsUs: u64, value: SignalValue): LogRecord {
    LogRecord(tsUs, env.vin, env.model, rule.Id(), version, rule.def.signal, value, rule.unit)
  }

  /** Logs `value` if the condition passes; an evaluation error counts as false and is reported. */
  function TryLog(
      env: Env, version: u64, rule: CompiledRule, st: RuleState, latest: LatestTable, tsUs: u64, value: SignalValue)
    : (RuleState, EvalReport)
  {
    match Gate(env, rule, latest)
    case Ok(pass) =>
      if pass then
        (st.(lastLogged := Some(value)), EvalReport([MakeRecord(env, version, rule, tsUs, value)], [], []))
      else (st, NOTHING)
    case Err(e) => (st, EvalReport([], [(rule.Id(), e)], []))
  }

  predicate Watches(rule: CompiledRule, signal: string) {
    rule.behaviour.OnChange? && rule.def.signal == signal
  }

  function RuleOnSample(
      env: Env, version: u64, rule: CompiledRule, st: RuleState, latest: LatestTable, sample: Sample)
    : (RuleState, EvalReport)
  {
    if !Watches(rule, sample.name) || !Changed(st.lastLogged, sample.value, rule.behaviour.deadband) then (st, NOTHING)
    else TryLog(env, version, rule, st, latest, sample.timestampUs, sample.value)
  }

  predicate IsDue(rule: CompiledRule, st: RuleState, now: u64) {
    rule.behaviour.Periodic? && st.nextDueMs.Some? && st.nextDueMs.value <= now
  }

  /** The next slot of the steady cadence, or one interval from now when that slot was missed. */
  function Reschedule(due: u64, intervalMs: u64, now: u64): u64 {
    if SatAdd(due, intervalMs) > now then SatAdd(due, intervalMs) else SatAdd(now, intervalMs)
  }

  function RuleOnTick(env: Env, version: u64, rule: CompiledRule, st: RuleState, latest: LatestTable, now: u64)
    : (RuleState, EvalReport)
  {
    if !IsDue(rule, st, now) then (st, NOTHING)
    else
      var st' := st.(nextDueMs := Some(Reschedule(st.nextDueMs.value, rule.behaviour.intervalMs, now)));
      if rule.def.signal !in latest then (st', NOTHING)
      else
        var l := latest[rule.def.signal];
        if SatSub(now, l.receivedMs) > rule.behaviour.maxAgeMs then (st', EvalReport([], [], [rule.Id()]))
        else TryLog(env, version, rule, st', latest, l.timestampUs, l.value)
  }

  datatype Step = SampleStep(sample: Sample) | TickStep(now: u64)

  function RuleStep(env: Env, version: u64, rule: CompiledRule, st: RuleState, latest: LatestTable, step: Step)
    : (RuleState, EvalReport)
  {
    match step
    case SampleStep(sample) => RuleOnSample(env, version, rule, st, latest, sample)
    case TickStep(now) => RuleOnTick(env, version, rule, st, latest, now)
  }

  // ---- the engine -------------------------------------------------------

  /** Rules by id. */
  function ById(rules: seq<CompiledRule>): map<string, CompiledRule> {
    if rules == [] then map[]
    else ById(rules[..|rules| - 1])[rules[|rules| - 1].Id() := rules[|rules| - 1]]
  }

  lemma {:induction false} ByIdFinds(rules: seq<CompiledRule>, i: nat)
    requires DistinctIds(rules) && i < |rules|
    ensures rules[i].Id() in ById(rules) && ById(rules)[rules[i].Id()] == rules[i]
  {
    if i < |rules| - 1 {
      assert rules[..|rules| - 1][i] == rules[i];
      ByIdFinds(rules[..|rules| - 1], i);
    }
  }

  lemma {:induction false} ByIdIndex(rules: seq<CompiledRule>, id: string) returns (i: nat)
    requires id in ById(rules)
    ensures i < |rules| && rules[i].Id() == id && ById(rules)[id] == rules[i]
  {
    if rules[|rules| - 1].Id() == id {
      i := |rules| - 1;
    } else {
      i := ByIdIndex(rules[..|rules| - 1], id);
    }
  }

  lemma ByIdSnoc(rules: seq<CompiledRule>, i: nat)
    requires DistinctIds(rules) && i < |rules|
    ensures rules[i].Id() !in ById(rules[..i])
    ensures ById(rules[..i + 1]) == ById(rules[..i])[rules[i].Id() := rules[i]]
  {
    assert rules[..i + 1][..i] == rules[..i];
    if rules[i].Id() in ById(rules[..i]) {
      var j := ByIdIndex(rules[..i], rules[i].Id());
    }
  }

  /** What a rule does with the event at hand. */
  type Stepper = (CompiledRule, RuleState) -> (RuleState, EvalReport)

  /** What rule `i` reports. */
  function RuleReport(f: Stepper, rules: seq<CompiledRule>, state: StateTable, i: nat): EvalReport
    requires i < |rules|
  {
    if rules[i].Id() in state then f(rules[i], state[rules[i].Id()]).1 else NOTHING
  }

  /** The reports of the first `n` rules, in rule order. */
  function Reports(f: Stepper, rules: seq<CompiledRule>, state: StateTable, n: nat): EvalReport
    requires n <= |rules|
  {
    if n == 0 then NOTHING else Reports(f, rules, state, n - 1).Plus(RuleReport(f, rules, state, n - 1))
  }

  /** Every rule's state after the step. */
  function States(f: Stepper, rules: map<string, CompiledRule>, state: StateTable): StateTable {
    map id | id in state :: if id in rules then f(rules[id], state[id]).0 else state[id]
  }

  /** Rule `i`'s state after a step. */
  lemma StatesAt(f: Stepper, rules: seq<CompiledRule>, state: StateTable, i: nat)
    requires DistinctIds(rules) && i < |rules| && rules[i].Id() in state
    ensures States(f, ById(rules), state)[rules[i].Id()] == f(rules[i], state[rules[i].Id()]).0
  {
    ByIdFinds(rules, i);
  }

  function StepperOf(env: Env, version: u64, latest: LatestTable, step: Step): Stepper {
    (rule, st) => RuleStep(env, version, rule, st, latest, step)
  }

  function StepAll(env: Env, s: EngineState, step: Step): (EngineState, EvalReport) {
    var f, rules := StepperOf(env, s.ruleset.version, s.latest, step), s.ruleset.rules;
    (s.(state := States(f, ById(rules), s.state)), Reports(f, rules, s.state, |rules|))
  }

  /** Every list of `b` starts with that of `a`. */
  predicate Begins(a: EvalReport, b: EvalReport) {
    a.records <= b.records && a.evalErrors <= b.evalErrors && a.staleSkips <= b.staleSkips
  }

  /** What rule `i` reports stands right behind what the earlier rules report. */
  lemma {:induction false} RuleOrder(f: Stepper, rules: seq<CompiledRule>, state: StateTable, i: nat, n: nat)
    requires i < n <= |rules|
    ensures Begins(Reports(f, rules, state, i).Plus(RuleReport(f, rules, state, i)), Reports(f, rules, state, n))
    decreases n
  {
    if i < n - 1 {
      RuleOrder(f, rules, state, i, n - 1);
    }
  }

  /** A step's report is in rule order. */
  lemma StepInRuleOrder(env: Env, s: EngineState, step: Step, i: nat)
    requires i < |s.ruleset.rules|
    ensures var f, rules := StepperOf(env, s.ruleset.version, s.latest, step), s.ruleset.rules;
            && Begins(Reports(f, rules, s.state, i).Plus(RuleReport(f, rules, s.state, i)), StepAll(env, s, step).1)
            && Reports(f, rules, s.state, 0) == NOTHING
  {
    var f, rules := StepperOf(env, s.ruleset.version, s.latest, step), s.ruleset.rules;
    RuleOrder(f, rules, s.state, i, |rules|);
  }

  function Freshly(rule: CompiledRule, now: u64): RuleState {
    RuleState(None, if rule.behaviour.Periodic? then Some(SatAdd(now, rule.behaviour.intervalMs)) else None)
  }

  /** A rule keeps its state when the old rule set has its very definition. */
  predicate Keeps(oldDefs: map<string, CompiledRule>, state: StateTable, rule: CompiledRule) {
    rule.Id() in oldDefs && oldDefs[rule.Id()].def == rule.def && rule.Id() in state
  }

  function Carried(oldDefs: map<string, CompiledRule>, state: StateTable, rule: CompiledRule, now: u64): RuleState {
    if Keeps(oldDefs, state, rule) then state[rule.Id()] else Freshly(rule, now)
  }

  function Reconcile(
      oldDefs: map<string, CompiledRule>, state: StateTable, newDefs: map<string, CompiledRule>, now: u64)
    : StateTable
  {
    map id | id in newDefs :: Carried(oldDefs, state, newDefs[id], now)
  }

  /** An engine event with the clock reading it happens at. */
  datatype Event =
    | Sampled(sample: Sample, now: u64)
    | Ticked(now: u64)
    | Swapped(ruleset: CompiledRuleSet, now: u64)

  function Received(s: EngineState, sample: Sample, now: u64): EngineState {
    s.(latest := s.latest[sample.name := Latest(sample.value, sample.timestampUs, now)])
  }

  function Next(env: Env, s: EngineState, e: Event): (EngineState, EvalReport) {
    match e
    case Sampled(sample, now) => StepAll(env, Received(s, sample, now), SampleStep(sample))
    case Ticked(now) => StepAll(env, s, TickStep(now))
    case Swapped(ruleset, now) =>
      (EngineState(ruleset, s.latest, Reconcile(ById(s.ruleset.rules), s.state, ById(ruleset.rules), now)), NOTHING)
  }

  /** Exactly the periodic rules have a due time. */
  predicate DueIffPeriodic(rules: seq<CompiledRule>, state: StateTable) {
    forall i :: 0 <= i < |rules| && rules[i].Id() in state ==>
      (state[rules[i].Id()].nextDueMs.Some? <==> rules[i].behaviour.Periodic?)
  }

  /** The rule set is well formed and there is one state per rule. */
  predicate Consistent(s: EngineState) {
    match s
    case EngineState(ruleset, _, state) =>
      && WellFormed(ruleset)
      && state.Keys == ById(ruleset.rules).Keys
      && DueIffPeriodic(ruleset.rules, state)
  }

  predicate ValidEvent(e: Event) {
    match e
    case Swapped(ruleset, _) => WellFormed(ruleset)
    case _ => true
  }

  lemma StepKeepsDue(env: Env, version: u64, rule: CompiledRule, st: RuleState, latest: LatestTable, step: Step)
    ensures RuleStep(env, version, rule, st, latest, step).0.nextDueMs.Some? <==> st.nextDueMs.Some?
  {
  }

  lemma StepConsistent(env: Env, s: EngineState, step: Step)
    requires Consistent(s)
    ensures Consistent(StepAll(env, s, step).0)
  {
    var f, rules := StepperOf(env, s.ruleset.version, s.latest, step), s.ruleset.rules;
    forall i | 0 <= i < |rules| && rules[i].Id() in s.state
      ensures States(f, ById(rules), s.state)[rules[i].Id()].nextDueMs.Some? <==> rules[i].behaviour.Periodic?
    {
      StatesAt(f, rules, s.state, i);
      StepKeepsDue(env, s.ruleset.version, rules[i], s.state[rules[i].Id()], s.latest, step);
    }
  }

  /** Equal definitions behave alike, so a carried-over state fits the new rule. */
  lemma CarriedFits(rules: seq<CompiledRule>, state: StateTable, rule: CompiledRule, now: u64)
    requires DueIffPeriodic(rules, state) && rule.behaviour == BehaviourOf(rule.def)
    requires forall i :: 0 <= i < |rules| ==> rules[i].behaviour == BehaviourOf(rules[i].def)
    ensures Carried(ById(rules), state, rule, now).nextDueMs.Some? <==> rule.behaviour.Periodic?
  {
    if Keeps(ById(rules), state, rule) {
      var j := ByIdIndex(rules, rule.Id());
      assert rules[j].behaviour == BehaviourOf(rule.def);
    }
  }

  lemma SwapConsistent(env: Env, s: EngineState, ruleset: CompiledRuleSet, now: u64)
    requires Consistent(s) && WellFormed(ruleset)
    ensures Consistent(Next(env, s, Swapped(ruleset, now)).0)
  {
    var state := Reconcile(ById(s.ruleset.rules), s.state, ById(ruleset.rules), now);
    forall i | 0 <= i < |ruleset.rules|
      ensures ruleset.rules[i].Id() in state
      ensures state[ruleset.rules[i].Id()].nextDueMs.Some? <==> ruleset.rules[i].behaviour.Periodic?
    {
      ByIdFinds(ruleset.rules, i);
      CarriedFits(s.ruleset.rules, s.state, ruleset.rules[i], now);
    }
  }

  /** Every operation keeps the engine consistent. */
  lemma NextConsistent(env: Env, s: EngineState, e: Event)
    requires Consistent(s) && ValidEvent(e)
    ensures Consistent(Next(env, s, e).0)
  {
    match e
    case Sampled(sample, now) => StepConsistent(env, Received(s, sample, now), SampleStep(sample));
    case Ticked(now) => StepConsistent(env, s, TickStep(now));
    case Swapped(ruleset, now) => SwapConsistent(env, s, ruleset, now);
  }
}
