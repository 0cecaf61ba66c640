/** The rule engine object: fields updated in place, loops over rules, an index of watchers per signal. */
module Engine {
  import opened Prelude
  import opened Condition
  import opened Rules
  import opened EngineSpec

  // ---- the on-change index ----------------------------------------------

  /** Indices below `n` of the rules that watch `signal`, in rule order. */
  function Watchers(rules: seq<CompiledRule>, signal: string, n: nat): seq<nat>
    requires n <= |rules|
  {
    if n == 0 then [] else Watchers(rules, signal, n - 1) + if Watches(rules[n - 1], signal) then [n - 1] else []
  }

  /** The list holds every watcher once, in increasing order. */
  lemma {:induction false} WatchersExact(rules: seq<CompiledRule>, signal: string, n: nat)
    requires n <= |rules|
    ensures var w := Watchers(rules, signal, n);
            && (forall p :: 0 <= p < |w| ==> w[p] < n && Watches(rules[w[p]], signal))
            && (forall p, q :: 0 <= p < q < |w| ==> w[p] < w[q])
            && (forall i :: 0 <= i < n && Watches(rules[i], signal) ==> i in w)
  {
    if n > 0 {
      WatchersExact(rules, signal, n - 1);
    }
  }

  type WatcherIndex = map<string, seq<nat>>

  /** The index lists exactly the watchers of every signal. */
  ghost predicate IndexOf(index: WatcherIndex, rules: seq<CompiledRule>, n: nat)
    requires n <= |rules|
  {
    forall signal :: Entry(index, signal) == Watchers(rules, signal, n)
  }

  function Entry(index: WatcherIndex, signal: string): seq<nat> {
    if signal in index then index[signal] else []
  }

  /** A step half done: states and report once the first `n` rules have been stepped in order. */
  function Halfway(f: Stepper, rules: seq<CompiledRule>, state: StateTable, n: nat): (StateTable, EvalReport)
    requires n <= |rules|
  {
    if n == 0 then (state, NOTHING)
    else
      var (before, report) := Halfway(f, rules, state, n - 1);
      var id := rules[n - 1].Id();
      if id !in before then (before, report)
      else
        var (st, out) := f(rules[n - 1], before[id]);
        (before[id := st], report.Plus(out))
  }

  /** Stepping the first rules one after the other is stepping them all at once. */
  lemma {:induction false} HalfwayStates(f: Stepper, rules: seq<CompiledRule>, state: StateTable, n: nat)
    requires DistinctIds(rules) && n <= |rules|
    ensures Halfway(f, rules, state, n).0 == States(f, ById(rules[..n]), state)
  {
    if n == 0 {
      assert States(f, ById(rules[..0]), state) == state;
    } else {
      HalfwayStates(f, rules, state, n - 1);
      ByIdSnoc(rules, n - 1);
      StatesInsert(f, ById(rules[..n - 1]), rules[n - 1], state);
    }
  }

  lemma StatesInsert(f: Stepper, rules: map<string, CompiledRule>, rule: CompiledRule, state: StateTable)
    requires rule.Id() !in rules
    ensures States(f, rules[rule.Id() := rule], state) ==
            if rule.Id() in state then States(f, rules, state)[rule.Id() := f(rule, state[rule.Id()]).0]
            else States(f, rules, state)
  {
  }

  lemma {:induction false} HalfwayReports(f: Stepper, rules: seq<CompiledRule>, state: StateTable, n: nat)
    requires DistinctIds(rules) && n <= |rules|
    ensures Halfway(f, rules, state, n).1 == Reports(f, rules, state, n)
  {
    if n > 0 {
      HalfwayReports(f, rules, state, n - 1);
      HalfwayStates(f, rules, state, n - 1);
      ByIdSnoc(rules, n - 1);
      var report := Reports(f, rules, state, n - 1);
      assert report.Plus(NOTHING) == report;
    }
  }

  lemma HalfwayThere(f: Stepper, rules: seq<CompiledRule>, state: StateTable)
    requires DistinctIds(rules)
    ensures Halfway(f, rules, state, |rules|) == (States(f, ById(rules), state), Reports(f, rules, state, |rules|))
  {
    HalfwayStates(f, rules, state, |rules|);
    HalfwayReports(f, rules, state, |rules|);
    assert rules[..|rules|] == rules;
  }

  /** The rule reached next still has its old state. */
  lemma HalfwayAhead(f: Stepper, rules: seq<CompiledRule>, state: StateTable, n: nat)
    requires DistinctIds(rules) && n < |rules| && rules[n].Id() in state
    ensures rules[n].Id() in Halfway(f, rules, state, n).0
    ensures Halfway(f, rules, state, n).0[rules[n].Id()] == state[rules[n].Id()]
  {
    HalfwayStates(f, rules, state, n);
    ByIdSnoc(rules, n);
  }

  /** How many rules are dealt with once the first `p` watchers are. */
  function Passed(w: seq<nat>, p: nat): nat
    requires p <= |w|
  {
    if p == 0 then 0 else w[p - 1] + 1
  }

  /** The rule the loop deals with next: watcher `p`, or past the last rule. */
  function Upcoming(w: seq<nat>, p: nat, n: nat): nat
    requires p <= |w|
  {
    if p < |w| then w[p] else n
  }

  /** Between one watcher and the next no rule watches the signal. */
  lemma NoWatcherBetween(rules: seq<CompiledRule>, signal: string, w: seq<nat>, p: nat)
    requires w == Watchers(rules, signal, |rules|) && p <= |w|
    ensures Passed(w, p) <= Upcoming(w, p, |rules|) <= |rules|
    ensures p < |w| ==> w[p] < |rules| && Watches(rules[w[p]], signal)
    ensures forall i :: Passed(w, p) <= i < Upcoming(w, p, |rules|) ==> !Watches(rules[i], signal)
  {
    WatchersExact(rules, signal, |rules|);
  }

  /** Rules that neither report nor change state can be passed over. */
  lemma {:induction false} PassOver(f: Stepper, rules: seq<CompiledRule>, state: StateTable, a: nat, b: nat)
    requires a <= b <= |rules|
    requires forall i, st :: a <= i < b ==> f(rules[i], st) == (st, NOTHING)
    ensures Halfway(f, rules, state, b) == Halfway(f, rules, state, a)
    decreases b
  {
    if a < b {
      PassOver(f, rules, state, a, b - 1);
      var (before, report) := Halfway(f, rules, state, b - 1);
      var id := rules[b - 1].Id();
      assert report.Plus(NOTHING) == report;
      if id in before {
        assert f(rules[b - 1], before[id]) == (before[id], NOTHING);
        assert before[id := before[id]] == before;
      }
    }
  }

  /** Going from one watcher straight to the next is going through all the rules. */
  lemma NextWatcher(
      env: Env, version: u64, latest: LatestTable, sample: Sample, rules: seq<CompiledRule>, state: StateTable,
      w: seq<nat>, p: nat)
    requires w == Watchers(rules, sample.name, |rules|) && p <= |w|
    ensures Passed(w, p) <= Upcoming(w, p, |rules|) <= |rules|
    ensures p < |w| ==> w[p] < |rules| && Watches(rules[w[p]], sample.name)
    ensures var f := StepperOf(env, version, latest, SampleStep(sample));
            Halfway(f, rules, state, Upcoming(w, p, |rules|)) == Halfway(f, rules, state, Passed(w, p))
  {
    var f := StepperOf(env, version, latest, SampleStep(sample));
    NoWatcherBetween(rules, sample.name, w, p);
    forall i, st | Passed(w, p) <= i < Upcoming(w, p, |rules|)
      ensures f(rules[i], st) == (st, NOTHING)
    {
      assert !Watches(rules[i], sample.name);
    }
    PassOver(f, rules, state, Passed(w, p), Upcoming(w, p, |rules|));
  }

  /** The per-rule state under a new rule set, rule by rule; each kept state is moved out of the old table. */
  method ReconcileStates(oldDefs: map<string, CompiledRule>, oldState: StateTable, rules: seq<CompiledRule>, now: u64)
    returns (state: StateTable)
    requires DistinctIds(rules)
    ensures state == Reconcile(oldDefs, oldState, ById(rules), now)
  {
    state := map[];
    var remaining := oldState;
    for i := 0 to |rules|
      invariant state == Reconcile(oldDefs, oldState, ById(rules[..i]), now)
      invariant remaining.Keys <= oldState.Keys && forall id :: id in remaining ==> remaining[id] == oldState[id]
      invariant forall id :: id in oldState && id !in ById(rules[..i]) ==> id in remaining
    {
      var rule := rules[i];
      ByIdSnoc(rules, i);
      var st := Freshly(rule, now);
      if rule.Id() in oldDefs && oldDefs[rule.Id()].def == rule.def && rule.Id() in remaining {
        st := remaining[rule.Id()];
        remaining := remaining - {rule.Id()};
      }
      assert st == Carried(oldDefs, oldState, rule, now);
      ReconcileInsert(oldDefs, oldState, ById(rules[..i]), rule, now);
      state := state[rule.Id() := st];
    }
    assert rules[..|rules|] == rules;
  }

  lemma ReconcileInsert(
      oldDefs: map<string, CompiledRule>, oldState: StateTable, defs: map<string, CompiledRule>, rule: CompiledRule,
      now: u64)
    ensures Reconcile(oldDefs, oldState, defs[rule.Id() := rule], now)
         == Reconcile(oldDefs, oldState, defs, now)[rule.Id() := Carried(oldDefs, oldState, rule, now)]
  {
  }

  method BuildIndex(rules: seq<CompiledRule>) returns (index: WatcherIndex)
    ensures IndexOf(index, rules, |rules|)
  {
    index := map[];
    for i := 0 to |rules|
      invariant IndexOf(index, rules, i)
    {
      ghost var before := index;
      if rules[i].behaviour.OnChange? {
        index := index[rules[i].def.signal := Entry(index, rules[i].def.signal) + [i]];
      }
      forall signal
        ensures Entry(index, signal) == Watchers(rules, signal, i + 1)
      {
        EntryStep(before, index, rules, i, signal);
      }
    }
  }

  lemma EntryStep(before: WatcherIndex, index: WatcherIndex, rules: seq<CompiledRule>, i: nat, signal: string)
    requires i < |rules| && Entry(before, signal) == Watchers(rules, signal, i)
    requires var own := rules[i].def.signal;
             index == if rules[i].behaviour.OnChange? then before[own := Entry(before, own) + [i]] else before
    ensures Entry(index, signal) == Watchers(rules, signal, i + 1)
  {
  }

  /** `r` is the least due time in a state table, if there is one. */
  ghost predicate IsEarliestDue(state: StateTable, r: Option<u64>) {
    && (r.None? ==> forall id :: id in state ==> state[id].nextDueMs.None?)
    && (r.Some? ==> exists id :: id in state && state[id].nextDueMs == r)
    && (r.Some? ==> forall id :: id in state && state[id].nextDueMs.Some? ==> r.value <= state[id].nextDueMs.value)
  }

  method EarliestDue(state: StateTable) returns (r: Option<u64>)
    ensures IsEarliestDue(state, r)
  {
    r := None;
    ghost var best := "";
    var ids := state.Keys;
    while ids != {}
      invariant ids <= state.Keys
      invariant r.Some? ==> best in state && state[best].nextDueMs == r
      invariant forall id :: id in state && id !in ids && state[id].nextDueMs.Some? ==>
                  r.Some? && r.value <= state[id].nextDueMs.value
      decreases |ids|
    {
      var id :| id in ids;
      var due := state[id].nextDueMs;
      if due.Some? && (r.None? || due.value < r.value) {
        r, best := due, id;
      }
      ids := ids - {id};
    }
  }

  class RuleEngine {
    const env: Env
    var ruleset: CompiledRuleSet
    var latest: LatestTable
    var state: StateTable
    var onChangeBySignal: WatcherIndex

    /** The engine's state as a value. */
    function Model(): EngineState
      reads this
    {
      EngineState(ruleset, latest, state)
    }

    ghost predicate Valid()
      reads this
    {
      Consistent(Model()) && IndexOf(onChangeBySignal, ruleset.rules, |ruleset.rules|)
    }

    constructor (env: Env)
      ensures Valid() && this.env == env && Model() == INITIAL
    {
      this.env := env;
      ruleset, latest, state, onChangeBySignal := EMPTY_RULESET, map[], map[], map[];
    }

    /** Puts another rule set in force; unchanged rules carry their state over. */
    method ApplyRuleset(newRuleset: CompiledRuleSet, now: u64)
      requires Valid() && WellFormed(newRuleset)
      modifies this
      ensures Valid() && Model() == Next(env, old(Model()), Swapped(newRuleset, now)).0
    {
      SwapConsistent(env, Model(), newRuleset, now);
      var oldDefs := ById(ruleset.rules);
      state := ReconcileStates(oldDefs, state, newRuleset.rules, now);
      onChangeBySignal := BuildIndex(newRuleset.rules);
      ruleset := newRuleset;
    }

    /** `condition_passes`, then the state change and the record of a rule that logs. */
    method LogIfPasses(rule: CompiledRule, st: RuleState, tsUs: u64, value: SignalValue)
      returns (st': RuleState, report: EvalReport)
      ensures (st', report) == TryLog(env, ruleset.version, rule, st, latest, tsUs, value)
    {
      st', report := st, NOTHING;
      var pass := true;
      if rule.condition.Some? {
        var verdict := EvaluateCondition(env.exec, rule.condition.value, ValuesOf(latest));
        match verdict
        case Ok(b) => pass := b;
        case Err(e) =>
          report := report.(evalErrors := [(rule.Id(), e)]);
          pass := false;
      }
      if pass {
        st' := st'.(lastLogged := Some(value));
        report := report.(records := [MakeRecord(env, ruleset.version, rule, tsUs, value)]);
      }
    }

    /** Stores the sample as its signal's latest value and runs the watchers of that signal. */
    method OnSample(sample: Sample, now: u64) returns (report: EvalReport)
      requires Valid()
      modifies this
      ensures Valid() && (Model(), report) == Next(env, old(Model()), Sampled(sample, now))
    {
      NextConsistent(env, Model(), Sampled(sample, now));
      latest := latest[sample.name := Latest(sample.value, sample.timestampUs, now)];
      var watchers := if sample.name in onChangeBySignal then onChangeBySignal[sample.name] else [];
      report := EvaluateWatchers(sample, watchers);
    }

    /** The loop over the watchers of the sampled signal. */
    method EvaluateWatchers(sample: Sample, watchers: seq<nat>) returns (report: EvalReport)
      requires DistinctIds(ruleset.rules) && state.Keys == ById(ruleset.rules).Keys
      requires watchers == Watchers(ruleset.rules, sample.name, |ruleset.rules|)
      modifies this`state
      ensures (Model(), report) == StepAll(env, old(Model()), SampleStep(sample))
    {
      report := NOTHING;
      ghost var f, before := StepperOf(env, ruleset.version, latest, SampleStep(sample)), state;
      for p := 0 to |watchers|
        modifies this`state
        invariant Passed(watchers, p) <= |ruleset.rules|
        invariant (state, report) == Halfway(f, ruleset.rules, before, Passed(watchers, p))
      {
        var i := watchers[p];
        NextWatcher(env, ruleset.version, latest, sample, ruleset.rules, before, watchers, p);
        ByIdFinds(ruleset.rules, i);
        HalfwayAhead(f, ruleset.rules, before, i);
        var rule := ruleset.rules[i];
        var st, out := Watch(rule, state[rule.Id()], sample);
        state := state[rule.Id() := st];
        report := report.Plus(out);
      }
      NextWatcher(env, ruleset.version, latest, sample, ruleset.rules, before, watchers, |watchers|);
      HalfwayThere(f, ruleset.rules, before);
    }

    /** The part of `OnSample` that concerns one watcher. */
    method Watch(rule: CompiledRule, st: RuleState, sample: Sample) returns (st': RuleState, report: EvalReport)
      requires Watches(rule, sample.name)
      ensures (st', report) == RuleOnSample(env, ruleset.version, rule, st, latest, sample)
    {
      st', report := st, NOTHING;
      if Changed(st.lastLogged, sample.value, rule.behaviour.deadband) {
        st', report := LogIfPasses(rule, st, sample.timestampUs, sample.value);
      }
    }

    /** Runs the periodic rules whose due time has come by `now`. */
    method Tick(now: u64) returns (report: EvalReport)
      requires Valid()
      modifies this`state
      ensures Valid() && (Model(), report) == Next(env, old(Model()), Ticked(now))
    {
      NextConsistent(env, Model(), Ticked(now));
      report := FireDue(now);
    }

    /** The loop over all rules. */
    method FireDue(now: u64) returns (report: EvalReport)
      requires DistinctIds(ruleset.rules) && state.Keys == ById(ruleset.rules).Keys
      modifies this`state
      ensures (Model(), report) == StepAll(env, old(Model()), TickStep(now))
    {
      report := NOTHING;
      ghost var f, before := StepperOf(env, ruleset.version, latest, TickStep(now)), state;
      for i := 0 to |ruleset.rules|
        modifies this`state
        invariant (state, report) == Halfway(f, ruleset.rules, before, i)
      {
        ByIdFinds(ruleset.rules, i);
        HalfwayAhead(f, ruleset.rules, before, i);
        var rule := ruleset.rules[i];
        var st, out := Fire(rule, state[rule.Id()], now);
        state := state[rule.Id() := st];
        report := report.Plus(out);
      }
      HalfwayThere(f, ruleset.rules, before);
    }

    /** The part of a tick that concerns one rule. */
    method Fire(rule: CompiledRule, st: RuleState, now: u64) returns (st': RuleState, report: EvalReport)
      ensures (st', report) == RuleOnTick(env, ruleset.version, rule, st, latest, now)
    {
      st', report := st, NOTHING;
      if !rule.behaviour.Periodic? || st.nextDueMs.None? || st.nextDueMs.value > now {
        return;
      }
      var next := SatAdd(st.nextDueMs.value, rule.behaviour.intervalMs);
      st' := st.(nextDueMs := Some(if next > now then next else SatAdd(now, rule.behaviour.intervalMs)));
      if rule.def.signal !in latest {
        return;
      }
      var l := latest[rule.def.signal];
      if SatSub(now, l.receivedMs) > rule.behaviour.maxAgeMs {
        report := report.(staleSkips := [rule.Id()]);
        return;
      }
      st', report := LogIfPasses(rule, st', l.timestampUs, l.value);
    }

    /** Earliest time at which `Tick` has work to do. */
    method NextDeadlineMs() returns (r: Option<u64>)
      ensures IsEarliestDue(state, r)
    {
      r := EarliestDue(state);
    }
  }
}
