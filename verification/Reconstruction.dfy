/** What the records of a rule tell: on-change records bound the signal, every record is its last sample. */
module Reconstruction {
  import opened Prelude
  import opened Condition
  import opened Rules
  import opened EngineSpec
  import opened EngineRuns
  import opened History

  /** Two values a deadband does not tell apart: within it for numbers, equal otherwise. */
  predicate Within(a: SignalValue, b: SignalValue, deadband: real) {
    if a.Num? && b.Num? then Abs(b.n - a.n) <= deadband else a == b
  }

  /** Rule `id` is an active on-change rule without a condition. */
  predicate Unconditional(s: EngineState, id: string) {
    match s
    case EngineState(ruleset, _, _) =>
      && id in ById(ruleset.rules)
      && ById(ruleset.rules)[id].def.mode.ModeOnChange?
      && ById(ruleset.rules)[id].def.condition.None?
  }

  /** The rule's last logged value is as good as the signal's latest one. */
  predicate UpToDate(s: EngineState, id: string) {
    match s
    case EngineState(ruleset, latest, state) =>
      && id in ById(ruleset.rules) && id in state
      && var rule := ById(ruleset.rules)[id];
      && rule.def.mode.ModeOnChange?
      && state[id].lastLogged.Some?
      && rule.def.signal in latest
      && Within(state[id].lastLogged.value, latest[rule.def.signal].value, AskedDeadband(rule.def))
  }

  /** An on-change rule of this signal. */
  predicate Follows(def: Rule, signal: string) {
    def.mode.ModeOnChange? && def.signal == signal
  }

  lemma RuleSound(s: EngineState, id: string)
    requires Consistent(s) && id in ById(s.ruleset.rules)
    ensures var rule := ById(s.ruleset.rules)[id];
            && id in s.state && rule.Id() == id
            && BehavesAsAsked(rule.def, rule.behaviour) && SoundBehaviour(rule.behaviour)
            && (rule.condition.Some? <==> rule.def.condition.Some?)
  {
    var i := ByIdIndex(s.ruleset.rules, id);
    WellFormedAsAsked(s.ruleset, i);
  }

  /** A sample of the rule's signal brings it up to date. */
  lemma SampleUpdates(env: Env, s: EngineState, sample: Sample, now: u64, id: string)
    requires Consistent(s) && Unconditional(s, id) && ById(s.ruleset.rules)[id].def.signal == sample.name
    ensures UpToDate(Next(env, s, Sampled(sample, now)).0, id)
  {
    RuleSound(s, id);
    StepShare(env, Received(s, sample, now), SampleStep(sample), id);
  }

  /** A sample of another signal, or a tick, leaves it as it was. */
  lemma StepKeepsUpToDate(env: Env, s: EngineState, e: Event, id: string)
    requires Consistent(s) && !e.Swapped? && UpToDate(s, id)
    requires e.Sampled? ==> e.sample.name != ById(s.ruleset.rules)[id].def.signal
    ensures UpToDate(Next(env, s, e).0, id)
  {
    match e
    case Sampled(sample, now) => OtherSampleKeeps(env, s, sample, now, id);
    case Ticked(now) => TickKeeps(env, s, now, id);
  }

  lemma OtherSampleKeeps(env: Env, s: EngineState, sample: Sample, now: u64, id: string)
    requires Consistent(s) && UpToDate(s, id) && sample.name != ById(s.ruleset.rules)[id].def.signal
    ensures UpToDate(Next(env, s, Sampled(sample, now)).0, id)
  {
    StepShare(env, Received(s, sample, now), SampleStep(sample), id);
  }

  lemma TickKeeps(env: Env, s: EngineState, now: u64, id: string)
    requires Consistent(s) && UpToDate(s, id)
    ensures UpToDate(Next(env, s, Ticked(now)).0, id)
  {
    RuleSound(s, id);
    StepShare(env, s, TickStep(now), id);
  }

  /** So does a swap that keeps the definition. */
  lemma SwapKeepsUpToDate(env: Env, s: EngineState, ruleset: CompiledRuleSet, now: u64, id: string)
    requires Consistent(s) && WellFormed(ruleset) && UpToDate(s, id)
    requires id in ById(ruleset.rules) && ById(ruleset.rules)[id].def == ById(s.ruleset.rules)[id].def
    ensures UpToDate(Next(env, s, Swapped(ruleset, now)).0, id)
  {
    var i := ByIdIndex(ruleset.rules, id);
    RuleSound(s, id);
  }

  /** The engine's rule set, at any point of a run, is the one the log of events says. */
  lemma {:induction false} RulesFromLog(env: Env, h: Run, k: nat)
    requires k <= |h|
    ensures StateAt(env, INITIAL, h, k).ruleset == ActiveSet(h, k)
    ensures StateAt(env, INITIAL, h, k).latest == LatestTableAt(h, k)
  {
    if k > 0 {
      RulesFromLog(env, h, k - 1);
    }
  }

  /** One event that leaves the rule's definition in place. */
  lemma UpToDateNext(env: Env, s: EngineState, e: Event, id: string)
    requires Consistent(s) && ValidEvent(e) && Unconditional(s, id)
    requires e.Swapped? ==>
               id in ById(e.ruleset.rules) && ById(e.ruleset.rules)[id].def == ById(s.ruleset.rules)[id].def
    requires (e.Sampled? && e.sample.name == ById(s.ruleset.rules)[id].def.signal) || UpToDate(s, id)
    ensures UpToDate(Next(env, s, e).0, id)
  {
    if e.Swapped? {
      SwapKeepsUpToDate(env, s, e.ruleset, e.now, id);
    } else if e.Sampled? && e.sample.name == ById(s.ruleset.rules)[id].def.signal {
      SampleUpdates(env, s, e.sample, e.now, id);
    } else {
      StepKeepsUpToDate(env, s, e, id);
    }
  }

  /** Sample `j` is the last one of rule `id`'s signal, and came after its definition became active. */
  ghost predicate SampledSince(h: Run, k: nat, id: string, j: nat)
    requires k <= |h|
  {
    id in ActiveRules(h, k) && IsLastSample(h, k, ActiveRules(h, k)[id].def.signal, j) && Since(h, k, id) < j
  }

  /** Looking back one event: either it is that sample, or the same held before it. */
  lemma SampledSinceBack(h: Run, k: nat, id: string, j: nat)
    requires 0 < k <= |h| && SampledSince(h, k, id, j)
    ensures id in ActiveRules(h, k - 1) && ActiveRules(h, k - 1)[id].def == ActiveRules(h, k)[id].def
    ensures if j == k - 1 then h[j].Sampled? && h[j].sample.name == ActiveRules(h, k)[id].def.signal
            else SampledSince(h, k - 1, id, j)
  {
    SinceExact(h, k, id);
  }

  lemma UpToDateAfterEvent(env: Env, h: Run, k: nat, id: string)
    requires ValidEvents(h) && k < |h| && id in ActiveRules(h, k) && id in ActiveRules(h, k + 1)
    requires ActiveRules(h, k)[id].def == ActiveRules(h, k + 1)[id].def
    requires ActiveRules(h, k)[id].def.mode.ModeOnChange? && ActiveRules(h, k)[id].def.condition.None?
    requires (h[k].Sampled? && h[k].sample.name == ActiveRules(h, k)[id].def.signal)
             || UpToDate(StateAt(env, INITIAL, h, k), id)
    ensures UpToDate(StateAt(env, INITIAL, h, k + 1), id)
  {
    RulesFromLog(env, h, k);
    ReachedConsistent(env, h, k);
    RuleSound(StateAt(env, INITIAL, h, k), id);
    UpToDateNext(env, StateAt(env, INITIAL, h, k), h[k], id);
  }

  lemma {:induction false} UpToDateOverRun(env: Env, h: Run, k: nat, id: string, j: nat)
    requires ValidEvents(h) && k <= |h| && SampledSince(h, k, id, j)
    requires ActiveRules(h, k)[id].def.mode.ModeOnChange? && ActiveRules(h, k)[id].def.condition.None?
    ensures UpToDate(StateAt(env, INITIAL, h, k), id)
    decreases k
  {
    SampledSinceBack(h, k, id, j);
    var n := k - 1;
    if j < n {
      UpToDateOverRun(env, h, n, id, j);
    }
    UpToDateAfterEvent(env, h, n, id);
    assert n + 1 == k;
  }

  /**
   * Reconstruction: once an on-change rule without a condition has seen a sample of its signal,
   * its last record is within the deadband of the signal's latest value.
   */
  lemma LastRecordReconstructs(env: Env, h: Run, k: nat, id: string, j: nat)
    requires ValidEvents(h) && k <= |h| && SampledSince(h, k, id, j)
    requires ActiveRules(h, k)[id].def.mode.ModeOnChange? && ActiveRules(h, k)[id].def.condition.None?
    ensures var last := LastRecorded(RefLog(env, h, k), Since(h, k, id), k, id);
            last.Some? && Within(last.value, h[j].sample.value, AskedDeadband(ActiveRules(h, k)[id].def))
  {
    EngineMatchesHistory(env, h, k);
    UpToDateOverRun(env, h, k, id, j);
    LatestTableExact(h, k, ActiveRules(h, k)[id].def.signal);
  }

  /** Records of one rule, as reported by event `k`. */
  function RecordsAt(env: Env, h: Run, k: nat, id: string): seq<LogRecord>
    requires k < |h|
  {
    OnlyRecords(ReportAt(env, INITIAL, h, k).records, id)
  }

  /** Rule `id`'s share of what event `k` reports, in terms of the logs. */
  lemma ShareFromLogs(env: Env, h: Run, k: nat, id: string)
    requires ValidEvents(h) && k < |h|
    ensures h[k].Swapped? || id !in ActiveRules(h, k) ==> Only(ReportAt(env, INITIAL, h, k), id) == NOTHING
    ensures id in ActiveRules(h, k) ==> BehavesAsAsked(ActiveRules(h, k)[id].def, ActiveRules(h, k)[id].behaviour)
    ensures !h[k].Swapped? && id in ActiveRules(h, k) ==>
              var rule := ActiveRules(h, k)[id];
              var st := RefState(h, RefLog(env, h, k), k, id, rule);
              rule.Id() == id && Only(ReportAt(env, INITIAL, h, k), id) ==
              match h[k]
              case Sampled(sample, _) =>
                RuleOnSample(env, ActiveSet(h, k).version, rule, st, LatestTableAt(h, k + 1), sample).1
              case Ticked(now) => RuleOnTick(env, ActiveSet(h, k).version, rule, st, LatestTableAt(h, k), now).1
              case Swapped(_, _) => NOTHING
  {
    var s := StateAt(env, INITIAL, h, k);
    EngineMatchesHistory(env, h, k);
    ReachedConsistent(env, h, k);
    if id in ActiveRules(h, k) {
      RuleSound(s, id);
    }
    match h[k]
    case Sampled(sample, now) => StepShare(env, Received(s, sample, now), SampleStep(sample), id);
    case Ticked(now) => StepShare(env, s, TickStep(now), id);
    case Swapped(_, _) =>
  }

  /**
   * With or without a condition: after a sample of its signal that the condition lets pass,
   * an on-change rule's last record is within the deadband of that sample.
   */
  lemma PassingSampleReconstructs(env: Env, h: Run, k: nat, id: string)
    requires ValidEvents(h) && k < |h| && h[k].Sampled? && id in ActiveRules(h, k)
    requires Follows(ActiveRules(h, k)[id].def, h[k].sample.name)
    requires Gate(env, ActiveRules(h, k)[id], LatestTableAt(h, k + 1)) == Ok(true)
    ensures var last := LastRecorded(RefLog(env, h, k + 1), Since(h, k + 1, id), k + 1, id);
            last.Some? && Within(last.value, h[k].sample.value, AskedDeadband(ActiveRules(h, k)[id].def))
  {
    var s := StateAt(env, INITIAL, h, k);
    EngineMatchesHistory(env, h, k);
    EngineMatchesHistory(env, h, k + 1);
    ReachedConsistent(env, h, k);
    RuleSound(s, id);
    PassingSampleLogged(env, s, h[k].sample, h[k].now, id);
  }

  lemma PassingSampleLogged(env: Env, s: EngineState, sample: Sample, now: u64, id: string)
    requires Consistent(s) && id in ById(s.ruleset.rules) && Follows(ById(s.ruleset.rules)[id].def, sample.name)
    requires Gate(env, ById(s.ruleset.rules)[id], Received(s, sample, now).latest) == Ok(true)
    ensures var t := Next(env, s, Sampled(sample, now)).0;
            id in t.state && t.state[id].lastLogged.Some?
            && Within(t.state[id].lastLogged.value, sample.value, AskedDeadband(ById(s.ruleset.rules)[id].def))
  {
    RuleSound(s, id);
    StepShare(env, Received(s, sample, now), SampleStep(sample), id);
  }

  /** Consecutive records of an on-change rule differ by more than the deadband. */
  lemma RecordsDiffer(env: Env, h: Run, k: nat, id: string)
    requires ValidEvents(h) && k < |h| && id in ActiveRules(h, k) && ActiveRules(h, k)[id].def.mode.ModeOnChange?
    requires RecordsAt(env, h, k, id) != []
    ensures |RecordsAt(env, h, k, id)| == 1
    ensures var last := LastRecorded(RefLog(env, h, k), Since(h, k, id), k, id);
            last.Some? ==>
              !Within(last.value, RecordsAt(env, h, k, id)[0].value, AskedDeadband(ActiveRules(h, k)[id].def))
  {
    ShareFromLogs(env, h, k, id);
    assert Only(ReportAt(env, INITIAL, h, k), id).records == RecordsAt(env, h, k, id);
  }

  /** `rec` is rule `id`'s record of sample `j`, made at event `k`. */
  predicate RecordsSample(env: Env, h: Run, k: nat, id: string, rec: LogRecord, j: nat)
    requires k < |h| && id in ActiveRules(h, k) && j < |h| && h[j].Sampled?
  {
    var rule := ActiveRules(h, k)[id];
    rec == LogRecord(h[j].sample.timestampUs, env.vin, env.model, id, ActiveSet(h, k).version,
                     rule.def.signal, h[j].sample.value, rule.unit)
  }

  /**
   * A record made at a sample repeats that sample, under the version of the rule set in force;
   * only the on-change rules of the sampled signal make one.
   */
  lemma SampleRecord(env: Env, h: Run, k: nat, id: string)
    requires ValidEvents(h) && k < |h| && RecordsAt(env, h, k, id) != [] && h[k].Sampled?
    ensures id in ActiveRules(h, k) && Follows(ActiveRules(h, k)[id].def, h[k].sample.name)
    ensures |RecordsAt(env, h, k, id)| == 1 && RecordsSample(env, h, k, id, RecordsAt(env, h, k, id)[0], k)
  {
    ShareFromLogs(env, h, k, id);
    assert Only(ReportAt(env, INITIAL, h, k), id).records == RecordsAt(env, h, k, id);
  }

  /**
   * A record made at a tick repeats the last sample of its rule's signal, with that sample's
   * timestamp, and the sample was received within the rule's maximum age.
   */
  lemma TickRecord(env: Env, h: Run, k: nat, id: string) returns (j: nat)
    requires ValidEvents(h) && k < |h| && RecordsAt(env, h, k, id) != [] && !h[k].Sampled?
    ensures h[k].Ticked? && id in ActiveRules(h, k) && ActiveRules(h, k)[id].def.mode.ModePeriodic?
    ensures IsLastSample(h, k, ActiveRules(h, k)[id].def.signal, j)
    ensures h[k].now - h[j].now <= AskedMaxAge(ActiveRules(h, k)[id].def)
    ensures |RecordsAt(env, h, k, id)| == 1 && RecordsSample(env, h, k, id, RecordsAt(env, h, k, id)[0], j)
  {
    ShareFromLogs(env, h, k, id);
    assert Only(ReportAt(env, INITIAL, h, k), id).records == RecordsAt(env, h, k, id);
    LatestTableExact(h, k, ActiveRules(h, k)[id].def.signal);
    j :| IsLastSample(h, k, ActiveRules(h, k)[id].def.signal, j);
  }

  /** A rule about to log reports one record of `value`, nothing, or an error, as its condition decides. */
  predicate Verdict(share: EvalReport, gate: Result<bool, EvalError>, id: string, value: SignalValue) {
    match gate
    case Ok(pass) =>
      && share.evalErrors == [] && share.staleSkips == []
      && (if pass then |share.records| == 1 && share.records[0].value == value else share.records == [])
    case Err(e) => share == EvalReport([], [(id, e)], [])
  }

  /** Rule `id`'s last recorded value before event `k`, under its current definition. */
  function LastValue(env: Env, h: Run, k: nat, id: string): Option<SignalValue>
    requires k <= |h|
  {
    LastRecorded(RefLog(env, h, k), Since(h, k, id), k, id)
  }

  /** Unless the rule set is swapped, a rule's last recorded value changes exactly when the event makes it record. */
  lemma LastValueAfter(env: Env, h: Run, k: nat, id: string)
    requires ValidEvents(h) && k < |h| && !h[k].Swapped? && id in ActiveRules(h, k)
    ensures var records := RecordsAt(env, h, k, id);
            && |records| <= 1
            && LastValue(env, h, k + 1, id) ==
                 if records == [] then LastValue(env, h, k, id) else Some(records[0].value)
  {
    AtMostOneRecord(env, h, k, id);
    LogExtends(env, h, k);
    SinceStays(h, k, id);
    LastOfLonger(RefLog(env, h, k), RefLog(env, h, k + 1), ReportAt(env, INITIAL, h, k), Since(h, k, id), id);
  }

  lemma SinceStays(h: Run, k: nat, id: string)
    requires k < |h| && !h[k].Swapped? && id in ActiveRules(h, k)
    ensures Since(h, k + 1, id) == Since(h, k, id) < k
  {
    SinceExact(h, k, id);
  }

  lemma LastOfLonger(out: Log, longer: Log, r: EvalReport, from: nat, id: string)
    requires longer == out + [r] && from <= |out| && |OnlyRecords(r.records, id)| <= 1
    ensures LastRecorded(longer, from, |longer|, id) ==
            if OnlyRecords(r.records, id) == [] then LastRecorded(out, from, |out|, id)
            else Some(OnlyRecords(r.records, id)[0].value)
  {
    LastRecordedSnoc(out, r, from, id);
  }

  lemma AtMostOneRecord(env: Env, h: Run, k: nat, id: string)
    requires ValidEvents(h) && k < |h|
    ensures Only(ReportAt(env, INITIAL, h, k), id).records == RecordsAt(env, h, k, id)
    ensures |RecordsAt(env, h, k, id)| <= 1
  {
    ShareFromLogs(env, h, k, id);
    assert Only(ReportAt(env, INITIAL, h, k), id).records == RecordsAt(env, h, k, id);
  }

  lemma LogExtends(env: Env, h: Run, k: nat)
    requires ValidEvents(h) && k < |h|
    ensures RefLog(env, h, k + 1) == RefLog(env, h, k) + [ReportAt(env, INITIAL, h, k)]
  {
    EngineMatchesHistory(env, h, k);
    MatchesAfterEvent(env, h, k);
  }

  /** What a watching rule's state means for its report. */
  lemma SampleVerdict(
      env: Env, version: u64, rule: CompiledRule, st: RuleState, latest: LatestTable, sample: Sample)
    requires BehavesAsAsked(rule.def, rule.behaviour) && Follows(rule.def, sample.name)
    ensures var share := RuleOnSample(env, version, rule, st, latest, sample).1;
            if st.lastLogged.Some? && Within(st.lastLogged.value, sample.value, AskedDeadband(rule.def))
            then share == NOTHING
            else Verdict(share, Gate(env, rule, latest), rule.Id(), sample.value)
  {
  }

  /** What a due rule's signal means for its report. */
  lemma TickVerdict(env: Env, version: u64, rule: CompiledRule, st: RuleState, latest: LatestTable, now: u64)
    requires BehavesAsAsked(rule.def, rule.behaviour) && rule.def.mode.ModePeriodic?
    requires st.nextDueMs.Some? && st.nextDueMs.value <= now
    ensures var share := RuleOnTick(env, version, rule, st, latest, now).1;
            if rule.def.signal !in latest then share == NOTHING
            else
              var l := latest[rule.def.signal];
              if now - l.receivedMs > AskedMaxAge(rule.def) then share == EvalReport([], [], [rule.Id()])
              else Verdict(share, Gate(env, rule, latest), rule.Id(), l.value)
  {
  }

  /**
   * What a rule reports at a sample of its signal: nothing while the value is within the deadband of its
   * last record, and otherwise what its condition decides; without a record the last one stays as it was.
   */
  lemma WatchingRuleReports(env: Env, h: Run, k: nat, id: string)
    requires ValidEvents(h) && k < |h| && h[k].Sampled? && id in ActiveRules(h, k)
    requires Follows(ActiveRules(h, k)[id].def, h[k].sample.name)
    ensures var rule, share := ActiveRules(h, k)[id], Only(ReportAt(env, INITIAL, h, k), id);
            var value, last, after := h[k].sample.value, LastValue(env, h, k, id), LastValue(env, h, k + 1, id);
            if last.Some? && Within(last.value, value, AskedDeadband(rule.def)) then share == NOTHING && after == last
            else Verdict(share, Gate(env, rule, LatestTableAt(h, k + 1)), id, value)
                 && after == if share.records == [] then last else Some(value)
  {
    var rule := ActiveRules(h, k)[id];
    ShareFromLogs(env, h, k, id);
    SampleVerdict(env, ActiveSet(h, k).version, rule, RefState(h, RefLog(env, h, k), k, id, rule),
                  LatestTableAt(h, k + 1), h[k].sample);
    LastValueAfter(env, h, k, id);
    AtMostOneRecord(env, h, k, id);
  }

  /** No other rule reports anything at that sample. */
  lemma OthersSilentAtSample(env: Env, h: Run, k: nat, id: string)
    requires ValidEvents(h) && k < |h| && h[k].Sampled?
    requires id in ActiveRules(h, k) ==> !Follows(ActiveRules(h, k)[id].def, h[k].sample.name)
    ensures Only(ReportAt(env, INITIAL, h, k), id) == NOTHING
    ensures id in ActiveRules(h, k) ==> LastValue(env, h, k + 1, id) == LastValue(env, h, k, id)
  {
    ShareFromLogs(env, h, k, id);
    if id in ActiveRules(h, k) {
      LastValueAfter(env, h, k, id);
      AtMostOneRecord(env, h, k, id);
    }
  }

  /** At a tick, on-change rules and rules that are not due report nothing. */
  lemma OthersSilentAtTick(env: Env, h: Run, k: nat, id: string)
    requires ValidEvents(h) && k < |h| && h[k].Ticked?
    requires id in ActiveRules(h, k) ==>
               ActiveRules(h, k)[id].def.mode.ModeOnChange?
               || RefState(h, RefLog(env, h, k), k, id, ActiveRules(h, k)[id]).nextDueMs.GetOr(0) > h[k].now
    ensures Only(ReportAt(env, INITIAL, h, k), id) == NOTHING
    ensures id in ActiveRules(h, k) ==> LastValue(env, h, k + 1, id) == LastValue(env, h, k, id)
  {
    ShareFromLogs(env, h, k, id);
    if id in ActiveRules(h, k) {
      LastValueAfter(env, h, k, id);
      AtMostOneRecord(env, h, k, id);
    }
  }

  /** What a due rule reports: nothing without a value, a stale skip for an old one, else its condition decides. */
  lemma DueRuleReports(env: Env, h: Run, k: nat, id: string)
    requires ValidEvents(h) && k < |h| && h[k].Ticked? && id in ActiveRules(h, k)
    requires ActiveRules(h, k)[id].def.mode.ModePeriodic?
    requires RefState(h, RefLog(env, h, k), k, id, ActiveRules(h, k)[id]).nextDueMs.GetOr(0) <= h[k].now
    ensures var rule, share := ActiveRules(h, k)[id], Only(ReportAt(env, INITIAL, h, k), id);
            && ((!exists j: nat :: IsLastSample(h, k, rule.def.signal, j)) ==> share == NOTHING)
            && forall j: nat :: IsLastSample(h, k, rule.def.signal, j) ==>
                 if h[k].now - h[j].now > AskedMaxAge(rule.def) then share == EvalReport([], [], [id])
                 else Verdict(share, Gate(env, rule, LatestTableAt(h, k)), id, h[j].sample.value)
  {
    var rule := ActiveRules(h, k)[id];
    SinceExact(h, k, id);
    ShareFromLogs(env, h, k, id);
    TickVerdict(env, ActiveSet(h, k).version, rule, RefState(h, RefLog(env, h, k), k, id, rule), LatestTableAt(h, k),
                h[k].now);
    LatestTableExact(h, k, rule.def.signal);
  }
}
