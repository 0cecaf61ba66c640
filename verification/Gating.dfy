/** Conditions at work: what a rule records depends on its program's outcome on the signals' last samples. */
module Gating {
  import opened Prelude
  import opened Condition
  import opened Rules
  import opened EngineSpec
  import opened EngineRuns
  import opened History
  import opened Reconstruction

  // ---- a program's outcome ----------------------------------------------

  /** `ctx` binds exactly the listed signals, each to the value of its last sample before event `k`. */
  ghost predicate BindsLast(h: Run, k: nat, ctx: map<string, CelValue>, signals: seq<string>)
    requires k <= |h|
  {
    && (forall x :: x in ctx <==> x in signals)
    && (forall x :: x in signals ==> exists j: nat :: IsLastSample(h, k, x, j))
    && forall x, j: nat :: x in signals && IsLastSample(h, k, x, j) ==> IsValueOf(ctx[x], h[j].sample.value)
  }

  /** What a rule makes of its program's outcome: a record of `value`, nothing, or an error that says why. */
  predicate Decided(share: EvalReport, outcome: Result<CelValue, string>, id: string, value: SignalValue) {
    match outcome
    case Ok(CelBool(true)) =>
      |share.records| == 1 && share.records[0].value == value && share.evalErrors == [] && share.staleSkips == []
    case Ok(CelBool(false)) => share == NOTHING
    case Ok(v) => share == EvalReport([], [(id, NotBool(v))], [])
    case Err(m) => share == EvalReport([], [(id, Execution(m))], [])
  }

  lemma BindsTable(h: Run, k: nat, ctx: map<string, CelValue>, signals: seq<string>)
    requires k <= |h| && BindsLast(h, k, ctx, signals)
    ensures Binds(ctx, signals, ValuesOf(LatestTableAt(h, k)))
  {
    var values := ValuesOf(LatestTableAt(h, k));
    forall x | x in signals ensures x in values && IsValueOf(ctx[x], values[x]) {
      LatestTableExact(h, k, x);
      var j: nat :| IsLastSample(h, k, x, j);
    }
  }

  /** A listed signal has never been sampled. */
  ghost predicate Unsampled(h: Run, k: nat, signals: seq<string>)
    requires k <= |h|
  {
    exists x :: x in signals && forall j: nat :: !IsLastSample(h, k, x, j)
  }

  /** The gate, over the log and the interpreter alone. */
  lemma GateExactly(env: Env, rule: CompiledRule, h: Run, k: nat, ctx: map<string, CelValue>)
    requires k <= |h|
    ensures var gate := Gate(env, rule, LatestTableAt(h, k));
            match rule.condition
            case None => gate == Ok(true)
            case Some(c) =>
              && (Unsampled(h, k, c.signals) ==> gate == Ok(false))
              && (BindsLast(h, k, ctx, c.signals) ==> IsVerdict(env.exec(c.program, ctx), gate))
  {
    var latest := LatestTableAt(h, k);
    match rule.condition
    case None =>
    case Some(c) =>
      VerdictExactly(env.exec, c, ValuesOf(latest), ctx);
      if Unsampled(h, k, c.signals) {
        var x :| x in c.signals && forall j: nat :: !IsLastSample(h, k, x, j);
        LatestTableExact(h, k, x);
        assert x !in ValuesOf(latest);
      }
      if BindsLast(h, k, ctx, c.signals) {
        BindsTable(h, k, ctx, c.signals);
      }
  }

  /** What a conditioned rule about to log `value` reports, given the values before event `k`. */
  ghost predicate Obeys(
      env: Env, c: CompiledCondition, h: Run, k: nat, ctx: map<string, CelValue>, share: EvalReport, id: string,
      value: SignalValue)
    requires k <= |h|
  {
    match c
    case CompiledCondition(program, signals) =>
      && (Unsampled(h, k, signals) ==> share == NOTHING)
      && (BindsLast(h, k, ctx, signals) ==> Decided(share, env.exec(program, ctx), id, value))
  }

  lemma VerdictObeys(
      env: Env, rule: CompiledRule, h: Run, k: nat, ctx: map<string, CelValue>, share: EvalReport, id: string,
      value: SignalValue)
    requires k <= |h| && rule.condition.Some?
    requires Verdict(share, Gate(env, rule, LatestTableAt(h, k)), id, value)
    ensures Obeys(env, rule.condition.value, h, k, ctx, share, id, value)
  {
    GateExactly(env, rule, h, k, ctx);
  }

  // ---- at a sample, and at a tick ---------------------------------------

  /** Rule `id` follows the sampled signal, and the value is not within the deadband of its last record. */
  predicate AboutToLog(env: Env, h: Run, k: nat, id: string)
    requires k < |h|
  {
    match h[k]
    case Sampled(sample, _) =>
      && id in ActiveRules(h, k) && Follows(ActiveRules(h, k)[id].def, sample.name)
      && var last := LastValue(env, h, k, id);
         (last.Some? ==> !Within(last.value, sample.value, AskedDeadband(ActiveRules(h, k)[id].def)))
    case _ => false
  }

  lemma ChangedSampleDecided(env: Env, h: Run, k: nat, id: string)
    requires ValidEvents(h) && k < |h| && AboutToLog(env, h, k, id)
    ensures Verdict(Only(ReportAt(env, INITIAL, h, k), id),
                    Gate(env, ActiveRules(h, k)[id], LatestTableAt(h, k + 1)), id, h[k].sample.value)
  {
    WatchingRuleReports(env, h, k, id);
  }

  /** A changed sample of a rule with a condition is recorded, dropped or an error, as the program decides. */
  lemma SampleObeysCondition(env: Env, h: Run, k: nat, id: string, ctx: map<string, CelValue>)
    requires ValidEvents(h) && k < |h| && AboutToLog(env, h, k, id) && ActiveRules(h, k)[id].condition.Some?
    ensures Obeys(env, ActiveRules(h, k)[id].condition.value, h, k + 1, ctx, Only(ReportAt(env, INITIAL, h, k), id), id,
                  h[k].sample.value)
  {
    ChangedSampleDecided(env, h, k, id);
    VerdictObeys(env, ActiveRules(h, k)[id], h, k + 1, ctx, Only(ReportAt(env, INITIAL, h, k), id), id,
                 h[k].sample.value);
  }

  /** Rule `id` is due at a tick, and sample `j`, the last of its signal, is not too old. */
  predicate DueAndFresh(env: Env, h: Run, k: nat, id: string, j: nat)
    requires k < |h|
  {
    match h[k]
    case Ticked(now) =>
      && id in ActiveRules(h, k) && ActiveRules(h, k)[id].def.mode.ModePeriodic?
      && RefState(h, RefLog(env, h, k), k, id, ActiveRules(h, k)[id]).nextDueMs.GetOr(0) <= now
      && IsLastSample(h, k, ActiveRules(h, k)[id].def.signal, j)
      && now - h[j].now <= AskedMaxAge(ActiveRules(h, k)[id].def)
    case _ => false
  }

  /** So is the last sample of a rule that is due. */
  lemma TickObeysCondition(env: Env, h: Run, k: nat, id: string, j: nat, ctx: map<string, CelValue>)
    requires ValidEvents(h) && k < |h| && DueAndFresh(env, h, k, id, j) && ActiveRules(h, k)[id].condition.Some?
    ensures Obeys(env, ActiveRules(h, k)[id].condition.value, h, k, ctx, Only(ReportAt(env, INITIAL, h, k), id), id,
                  h[j].sample.value)
  {
    DueRuleReports(env, h, k, id);
    VerdictObeys(env, ActiveRules(h, k)[id], h, k, ctx, Only(ReportAt(env, INITIAL, h, k), id), id, h[j].sample.value);
  }

  // ---- a rule that follows a switch -------------------------------------

  /** The interpreter gives a variable the value that the context binds it to. */
  ghost predicate ReadsVariables(exec: Interpreter) {
    forall x, ctx: map<string, CelValue> :: x in ctx ==> exec(Ident(x), ctx) == Ok(ctx[x])
  }

  /** The rule's condition is the bare name of a signal. */
  predicate SwitchedBy(rule: CompiledRule, x: string) {
    rule.condition == Some(CompiledCondition(Ident(x), [x]))
  }

  /** A source that parses to a name compiles to that condition. */
  lemma NameCompiles(parse: Parser, source: string, x: string, c: CompiledCondition)
    requires parse(source) == Ok(Ident(x)) && CompiledOf(parse, source, c)
    ensures c == CompiledCondition(Ident(x), [x])
  {
    SortedUnique(c.signals, [x]);
  }

  lemma SwitchDecides(
      env: Env, h: Run, k: nat, x: string, i: nat, share: EvalReport, id: string, value: SignalValue)
    requires k <= |h| && ReadsVariables(env.exec) && IsLastSample(h, k, x, i) && h[i].sample.value.Bool?
    requires Obeys(env, CompiledCondition(Ident(x), [x]), h, k, map[x := CelBool(h[i].sample.value.b)], share, id,
                   value)
    ensures share.evalErrors == [] && share.staleSkips == []
    ensures if h[i].sample.value.b then |share.records| == 1 && share.records[0].value == value else share.records == []
  {
    var ctx := map[x := CelBool(h[i].sample.value.b)];
    assert env.exec(Ident(x), ctx) == Ok(ctx[x]);
    assert BindsLast(h, k, ctx, [x]);
  }

  /** A changed sample is recorded if and only if the switch was last seen on. */
  lemma SampleGatedBySwitch(env: Env, h: Run, k: nat, id: string, x: string, i: nat)
    requires ValidEvents(h) && k < |h| && AboutToLog(env, h, k, id) && SwitchedBy(ActiveRules(h, k)[id], x)
    requires ReadsVariables(env.exec) && IsLastSample(h, k + 1, x, i) && h[i].sample.value.Bool?
    ensures RecordsAt(env, h, k, id) != [] <==> h[i].sample.value == Bool(true)
  {
    var ctx := map[x := CelBool(h[i].sample.value.b)];
    SampleObeysCondition(env, h, k, id, ctx);
    AtMostOneRecord(env, h, k, id);
    SwitchDecides(env, h, k + 1, x, i, Only(ReportAt(env, INITIAL, h, k), id), id, h[k].sample.value);
  }

  /** A due rule records its signal's last sample if and only if the switch was last seen on. */
  lemma TickGatedBySwitch(env: Env, h: Run, k: nat, id: string, j: nat, x: string, i: nat)
    requires ValidEvents(h) && k < |h| && DueAndFresh(env, h, k, id, j) && SwitchedBy(ActiveRules(h, k)[id], x)
    requires ReadsVariables(env.exec) && IsLastSample(h, k, x, i) && h[i].sample.value.Bool?
    ensures RecordsAt(env, h, k, id) != [] <==> h[i].sample.value == Bool(true)
  {
    var ctx := map[x := CelBool(h[i].sample.value.b)];
    TickObeysCondition(env, h, k, id, j, ctx);
    AtMostOneRecord(env, h, k, id);
    SwitchDecides(env, h, k, x, i, Only(ReportAt(env, INITIAL, h, k), id), id, h[j].sample.value);
  }
}
