/**
 * The engine recomputed from its event log. Nothing here keeps state from one event to the
 * next: the active rules, the latest values, the last record of a rule and its due time are
 * all read off the whole log of events and of reports made so far.
 */
module History {
  import opened Prelude
  import opened Rules
  import opened EngineSpec
  import opened EngineRuns

  type Log = seq<EvalReport>

  // ---- what the log of events says --------------------------------------

  /** The rule set of the last swap before event `k`. */
  function ActiveSet(h: Run, k: nat): CompiledRuleSet
    requires k <= |h|
  {
    if k == 0 then EMPTY_RULESET else if h[k - 1].Swapped? then h[k - 1].ruleset else ActiveSet(h, k - 1)
  }

  function ActiveRules(h: Run, k: nat): map<string, CompiledRule>
    requires k <= |h|
  {
    ById(ActiveSet(h, k).rules)
  }

  /** Event `j` is the last sample of `signal` before event `k`. */
  predicate IsLastSample(h: Run, k: nat, signal: string, j: nat)
    requires k <= |h|
  {
    && j < k && h[j].Sampled? && h[j].sample.name == signal
    && forall i :: j < i < k && h[i].Sampled? ==> h[i].sample.name != signal
  }

  function LatestOf(e: Event): Latest
    requires e.Sampled?
  {
    Latest(e.sample.value, e.sample.timestampUs, e.now)
  }

  /** The latest value of every signal sampled before event `k`, scanning the log backwards. */
  function LatestTableAt(h: Run, k: nat): LatestTable
    requires k <= |h|
  {
    if k == 0 then map[]
    else if h[k - 1].Sampled? then LatestTableAt(h, k - 1)[h[k - 1].sample.name := LatestOf(h[k - 1])]
    else LatestTableAt(h, k - 1)
  }

  /** The table holds exactly each signal's last sample. */
  lemma {:induction false} LatestTableExact(h: Run, k: nat, signal: string)
    requires k <= |h|
    ensures signal in LatestTableAt(h, k) <==> exists j: nat :: IsLastSample(h, k, signal, j)
    ensures forall j: nat :: IsLastSample(h, k, signal, j) ==>
              signal in LatestTableAt(h, k) && LatestTableAt(h, k)[signal] == LatestOf(h[j])
  {
    if k > 0 {
      LatestTableExact(h, k - 1, signal);
      if h[k - 1].Sampled? && h[k - 1].sample.name == signal {
        assert IsLastSample(h, k, signal, k - 1);
      } else {
        var n := k - 1;
        if j: nat :| IsLastSample(h, n, signal, j) {
          assert IsLastSample(h, k, signal, j);
        }
        forall j: nat | IsLastSample(h, k, signal, j)
          ensures IsLastSample(h, n, signal, j)
        {
        }
      }
    }
  }

  /**
   * Swap `j` is where rule `id`'s current definition became active: the rule is present with
   * that definition in every set from swap `j` on, and was not before it.
   */
  ghost predicate ActiveSince(h: Run, k: nat, id: string, j: nat)
    requires k <= |h|
  {
    && j < k && h[j].Swapped?
    && id in ActiveRules(h, k)
    && (forall m :: j < m <= k ==>
          id in ActiveRules(h, m) && ActiveRules(h, m)[id].def == ActiveRules(h, k)[id].def)
    && (id in ActiveRules(h, j) ==> ActiveRules(h, j)[id].def != ActiveRules(h, k)[id].def)
  }

  /** The swap where rule `id`'s current definition became active, scanning the log backwards. */
  function Since(h: Run, k: nat, id: string): nat
    requires k <= |h|
  {
    if k == 0 then 0
    else if h[k - 1].Swapped?
         && !(id in ActiveRules(h, k - 1) && id in ActiveRules(h, k)
              && ActiveRules(h, k - 1)[id].def == ActiveRules(h, k)[id].def) then k - 1
    else Since(h, k - 1, id)
  }

  lemma {:induction false} SinceExact(h: Run, k: nat, id: string)
    requires k <= |h| && id in ActiveRules(h, k)
    ensures ActiveSince(h, k, id, Since(h, k, id))
    decreases k
  {
    if !h[k - 1].Swapped?
       || (id in ActiveRules(h, k - 1) && ActiveRules(h, k - 1)[id].def == ActiveRules(h, k)[id].def) {
      SinceExact(h, k - 1, id);
    }
  }

  /** The due time, replaying the ticks since the definition became active. */
  function ReplayDue(h: Run, j: nat, k: nat, intervalMs: u64): u64
    requires j < k <= |h|
  {
    if k == j + 1 then SatAdd(h[j].now, intervalMs)
    else
      var due := ReplayDue(h, j, k - 1, intervalMs);
      if h[k - 1].Ticked? && due <= h[k - 1].now then Reschedule(due, intervalMs, h[k - 1].now) else due
  }

  // ---- what the log of reports says -------------------------------------

  /** The value of rule `id`'s last record among reports `from..end`. */
  function LastRecorded(out: Log, from: nat, end: nat, id: string): Option<SignalValue>
    requires end <= |out|
    decreases end
  {
    if end <= from then None
    else
      var own := OnlyRecords(out[end - 1].records, id);
      if own != [] then Some(own[|own| - 1].value) else LastRecorded(out, from, end - 1, id)
  }

  /** A rule's state as the two logs determine it. */
  function RefState(h: Run, out: Log, k: nat, id: string, rule: CompiledRule): RuleState
    requires k <= |h| && k == |out|
  {
    var since := Since(h, k, id);
    RuleState(
      LastRecorded(out, since, k, id),
      if rule.behaviour.Periodic? && since < k then Some(ReplayDue(h, since, k, rule.behaviour.intervalMs)) else None)
  }

  function RefStates(h: Run, out: Log, k: nat): StateTable
    requires k <= |h| && k == |out|
  {
    map id | id in ActiveRules(h, k) :: RefState(h, out, k, id, ActiveRules(h, k)[id])
  }

  function RefEngine(h: Run, out: Log, k: nat): EngineState
    requires k <= |h| && k == |out|
  {
    EngineState(ActiveSet(h, k), LatestTableAt(h, k), RefStates(h, out, k))
  }

  /** The report of event `k`: every active rule judged by the logs, in rule order. */
  function RefReport(env: Env, h: Run, out: Log, k: nat): EvalReport
    requires k < |h| && k == |out|
  {
    match h[k]
    case Swapped(_, _) => NOTHING
    case Sampled(sample, _) =>
      var ruleset := ActiveSet(h, k);
      Reports(StepperOf(env, ruleset.version, LatestTableAt(h, k + 1), SampleStep(sample)), ruleset.rules,
              RefStates(h, out, k), |ruleset.rules|)
    case Ticked(now) =>
      var ruleset := ActiveSet(h, k);
      Reports(StepperOf(env, ruleset.version, LatestTableAt(h, k), TickStep(now)), ruleset.rules,
              RefStates(h, out, k), |ruleset.rules|)
  }

  /** All reports up to event `k`. */
  function RefLog(env: Env, h: Run, k: nat): (out: Log)
    requires k <= |h|
    ensures |out| == k
  {
    if k == 0 then [] else RefLog(env, h, k - 1) + [RefReport(env, h, RefLog(env, h, k - 1), k - 1)]
  }

  // ---- the engine agrees ------------------------------------------------

  lemma {:induction false} LastRecordedExtend(out: Log, r: EvalReport, from: nat, end: nat, id: string)
    requires end <= |out|
    ensures LastRecorded(out + [r], from, end, id) == LastRecorded(out, from, end, id)
    decreases end
  {
    if end > from {
      LastRecordedExtend(out, r, from, end - 1, id);
    }
  }

  /** The last logged value changes exactly when a record is made, and then to the recorded value. */
  lemma LoggedIffRecorded(env: Env, version: u64, rule: CompiledRule, st: RuleState, latest: LatestTable, step: Step)
    ensures var (st', r) := RuleStep(env, version, rule, st, latest, step);
            |r.records| <= 1
            && st'.lastLogged == (if r.records == [] then st.lastLogged else Some(r.records[0].value))
  {
  }

  /** One more report: the last recorded value is that of the rule's own record in it, if it made one. */
  lemma LastRecordedSnoc(out: Log, r: EvalReport, from: nat, id: string)
    requires from <= |out| && |OnlyRecords(r.records, id)| <= 1
    ensures var own := OnlyRecords(r.records, id);
            LastRecorded(out + [r], from, |out| + 1, id) ==
              if own == [] then LastRecorded(out, from, |out|, id) else Some(own[0].value)
  {
    LastRecordedExtend(out, r, from, |out|, id);
  }

  /** One sample or tick: the longer log of reports gives the new last logged value. */
  lemma LoggedReplayed(env: Env, s: EngineState, out: Log, from: nat, step: Step, id: string)
    requires Consistent(s) && id in ById(s.ruleset.rules) && from <= |out|
    requires s.state[id].lastLogged == LastRecorded(out, from, |out|, id)
    ensures var (s', r) := StepAll(env, s, step);
            s'.state[id].lastLogged == LastRecorded(out + [r], from, |out| + 1, id)
  {
    var (s', r) := StepAll(env, s, step);
    StepShare(env, s, step, id);
    LoggedIffRecorded(env, s.ruleset.version, ById(s.ruleset.rules)[id], s.state[id], s.latest, step);
    assert Only(r, id).records == OnlyRecords(r.records, id);
    LastRecordedSnoc(out, r, from, id);
  }

  /** One sample or tick: the state table read off the longer logs is the stepped table. */
  lemma RefStatesStep(env: Env, h: Run, out: Log, k: nat, s: EngineState, step: Step, id: string)
    requires k < |h| && k == |out| && !h[k].Swapped? && id in ActiveRules(h, k)
    requires Consistent(s) && s.ruleset == ActiveSet(h, k) && s.state == RefStates(h, out, k)
    requires if h[k].Sampled? then step == SampleStep(h[k].sample) else step == TickStep(h[k].now)
    ensures var (s', r) := StepAll(env, s, step);
            id in s'.state && RefState(h, out + [r], k + 1, id, ActiveRules(h, k)[id]) == s'.state[id]
  {
    var since := Since(h, k, id);
    SinceExact(h, k, id);
    LoggedReplayed(env, s, out, since, step, id);
    DueReplayed(env, h, k, s.ruleset.version, ActiveRules(h, k)[id], s.state[id], s.latest, step, since);
    StepShare(env, s, step, id);
  }

  lemma DueReplayed(
      env: Env, h: Run, k: nat, version: u64, rule: CompiledRule, st: RuleState, latest: LatestTable, step: Step,
      since: nat)
    requires since < k < |h| && !h[k].Swapped?
    requires if h[k].Sampled? then step == SampleStep(h[k].sample) else step == TickStep(h[k].now)
    requires st.nextDueMs ==
             if rule.behaviour.Periodic? then Some(ReplayDue(h, since, k, rule.behaviour.intervalMs)) else None
    ensures RuleStep(env, version, rule, st, latest, step).0.nextDueMs ==
            if rule.behaviour.Periodic? then Some(ReplayDue(h, since, k + 1, rule.behaviour.intervalMs)) else None
  {
  }

  /** A swap: a kept definition keeps its place in the logs, any other rule starts afresh. */
  lemma RefStatesSwap(env: Env, h: Run, out: Log, k: nat, id: string)
    requires k < |h| && k == |out| && h[k].Swapped? && id in ActiveRules(h, k + 1)
    requires ById(h[k].ruleset.rules)[id].Id() == id
    requires id in ActiveRules(h, k) ==>
               BehaviourOf(ActiveRules(h, k)[id].def) == ActiveRules(h, k)[id].behaviour
               && BehaviourOf(ActiveRules(h, k + 1)[id].def) == ActiveRules(h, k + 1)[id].behaviour
    ensures RefState(h, out + [NOTHING], k + 1, id, ActiveRules(h, k + 1)[id])
         == Carried(ActiveRules(h, k), RefStates(h, out, k), ActiveRules(h, k + 1)[id], h[k].now)
  {
    var rule := ActiveRules(h, k + 1)[id];
    if Keeps(ActiveRules(h, k), RefStates(h, out, k), rule) {
      SinceExact(h, k, id);
      LastRecordedExtend(out, NOTHING, Since(h, k, id), k, id);
      assert OnlyRecords((out + [NOTHING])[k].records, id) == [];
    } else {
      assert Since(h, k + 1, id) == k && LastRecorded(out + [NOTHING], k, k, id) == None;
      assert OnlyRecords((out + [NOTHING])[k].records, id) == [];
    }
  }

  lemma RefStatesSwapNext(env: Env, h: Run, out: Log, k: nat, id: string)
    requires k < |h| && k == |out| && ValidEvent(h[k]) && h[k].Swapped? && id in ActiveRules(h, k + 1)
    requires Consistent(RefEngine(h, out, k))
    ensures var s' := Next(env, RefEngine(h, out, k), h[k]).0;
            id in s'.state && s'.state[id] == RefState(h, out + [NOTHING], k + 1, id, ActiveRules(h, k + 1)[id])
  {
    var i := ByIdIndex(h[k].ruleset.rules, id);
    if id in ActiveRules(h, k) {
      var j := ByIdIndex(ActiveSet(h, k).rules, id);
    }
    RefStatesSwap(env, h, out, k, id);
  }

  lemma RefNext(env: Env, h: Run, out: Log, k: nat)
    requires k < |h| && k == |out| && ValidEvent(h[k])
    requires Consistent(RefEngine(h, out, k))
    ensures Next(env, RefEngine(h, out, k), h[k])
         == (RefEngine(h, out + [RefReport(env, h, out, k)], k + 1), RefReport(env, h, out, k))
  {
    var s, r := RefEngine(h, out, k), RefReport(env, h, out, k);
    var s' := Next(env, s, h[k]).0;
    assert s'.state == RefStates(h, out + [r], k + 1) by {
      RefStatesNext(env, h, out, k);
    }
  }

  lemma RefStateNext(env: Env, h: Run, out: Log, k: nat, id: string)
    requires k < |h| && k == |out| && ValidEvent(h[k]) && id in ActiveRules(h, k + 1)
    requires Consistent(RefEngine(h, out, k))
    ensures var s' := Next(env, RefEngine(h, out, k), h[k]).0;
            id in s'.state && s'.state[id] ==
              RefState(h, out + [RefReport(env, h, out, k)], k + 1, id, ActiveRules(h, k + 1)[id])
  {
    var s := RefEngine(h, out, k);
    match h[k]
    case Sampled(sample, now) => RefStatesStep(env, h, out, k, Received(s, sample, now), SampleStep(sample), id);
    case Ticked(now) => RefStatesStep(env, h, out, k, s, TickStep(now), id);
    case Swapped(_, _) => RefStatesSwapNext(env, h, out, k, id);
  }

  lemma NextKeys(env: Env, s: EngineState, e: Event)
    requires Consistent(s)
    ensures Next(env, s, e).0.state.Keys ==
            ById(if e.Swapped? then e.ruleset.rules else s.ruleset.rules).Keys
  {
  }

  lemma RefStatesNext(env: Env, h: Run, out: Log, k: nat)
    requires k < |h| && k == |out| && ValidEvent(h[k])
    requires Consistent(RefEngine(h, out, k))
    ensures Next(env, RefEngine(h, out, k), h[k]).0.state
         == RefStates(h, out + [RefReport(env, h, out, k)], k + 1)
  {
    var r := RefReport(env, h, out, k);
    var state := Next(env, RefEngine(h, out, k), h[k]).0.state;
    NextKeys(env, RefEngine(h, out, k), h[k]);
    forall id | id in ActiveRules(h, k + 1)
      ensures id in state
      ensures state[id] == RefState(h, out + [r], k + 1, id, ActiveRules(h, k + 1)[id])
    {
      RefStateNext(env, h, out, k, id);
    }
    assert state.Keys == RefStates(h, out + [r], k + 1).Keys;
  }

  lemma MatchesAfterEvent(env: Env, h: Run, k: nat)
    requires ValidEvents(h) && k < |h| && StateAt(env, INITIAL, h, k) == RefEngine(h, RefLog(env, h, k), k)
    ensures StateAt(env, INITIAL, h, k + 1) == RefEngine(h, RefLog(env, h, k + 1), k + 1)
    ensures RefLog(env, h, k + 1) == RefLog(env, h, k) + [ReportAt(env, INITIAL, h, k)]
  {
    ReachedConsistent(env, h, k);
    RefNext(env, h, RefLog(env, h, k), k);
  }

  /**
   * In every reachable state the engine is what the logs say: each rule's last logged value is
   * the value of its last record since its definition became active, and each report is the
   * one made by judging all rules by the full logs.
   */
  lemma {:induction false} EngineMatchesHistory(env: Env, h: Run, k: nat)
    requires ValidEvents(h) && k <= |h|
    ensures StateAt(env, INITIAL, h, k) == RefEngine(h, RefLog(env, h, k), k)
    ensures forall i :: 0 <= i < k ==> RefLog(env, h, k)[i] == ReportAt(env, INITIAL, h, i)
    decreases k
  {
    if k > 0 {
      var n := k - 1;
      EngineMatchesHistory(env, h, n);
      MatchesAfterEvent(env, h, n);
      assert n + 1 == k;
    }
  }
}
