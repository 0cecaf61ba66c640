/** Rules do not disturb each other: a rule behaves in company exactly as it does alone. */
module NonInterference {
  import opened Prelude
  import opened Rules
  import opened EngineSpec
  import opened EngineRuns

  /** The rule set without the rules called anything but `id`. */
  function Alone(ruleset: CompiledRuleSet, id: string): CompiledRuleSet {
    var rules := ById(ruleset.rules);
    ruleset.(rules := if id in rules then [rules[id]] else [])
  }

  function AloneEvent(e: Event, id: string): Event {
    if e.Swapped? then e.(ruleset := Alone(e.ruleset, id)) else e
  }

  /** The same run with every rule set filtered down to `id`. */
  function AloneRun(h: Run, id: string): (r: Run)
    ensures |r| == |h|
  {
    seq(|h|, i requires 0 <= i < |h| => AloneEvent(h[i], id))
  }

  /** What an engine that only ever had `id` has in place of `s`. */
  function AloneState(s: EngineState, id: string): EngineState {
    EngineState(Alone(s.ruleset, id), s.latest, map k | k in s.state && k == id :: s.state[k])
  }

  lemma AloneById(ruleset: CompiledRuleSet, id: string)
    ensures ById(Alone(ruleset, id).rules) ==
            (map k | k in ById(ruleset.rules) && k == id :: ById(ruleset.rules)[k])
  {
    var rules := ById(ruleset.rules);
    if id in rules {
      var i := ByIdIndex(ruleset.rules, id);
      assert [rules[id]][..0] == [];
      assert ById([rules[id]]) == map[id := rules[id]];
    }
  }

  lemma AloneWellFormed(ruleset: CompiledRuleSet, id: string)
    requires WellFormed(ruleset)
    ensures WellFormed(Alone(ruleset, id))
  {
    if id in ById(ruleset.rules) {
      var i := ByIdIndex(ruleset.rules, id);
    }
  }

  lemma AloneConsistent(s: EngineState, id: string)
    requires Consistent(s)
    ensures Consistent(AloneState(s, id))
  {
    AloneWellFormed(s.ruleset, id);
    AloneById(s.ruleset, id);
    if id in ById(s.ruleset.rules) {
      var i := ByIdIndex(s.ruleset.rules, id);
    }
  }

  /** The reports of a one-rule set are that rule's. */
  lemma AloneReports(f: Stepper, ruleset: CompiledRuleSet, state: StateTable, id: string)
    ensures var rules := Alone(ruleset, id).rules;
            Reports(f, rules, state, |rules|) == ReportOf(f, ById(ruleset.rules), state, id)
  {
    if id in ById(ruleset.rules) {
      var i := ByIdIndex(ruleset.rules, id);
      var r := ReportOf(f, ById(ruleset.rules), state, id);
      assert NOTHING.Plus(r) == r;
    }
  }

  lemma AloneStep(env: Env, s: EngineState, step: Step, id: string)
    requires Consistent(s)
    ensures var (s', report) := StepAll(env, s, step);
            StepAll(env, AloneState(s, id), step) == (AloneState(s', id), Only(report, id))
  {
    var a := AloneState(s, id);
    var s', a' := StepAll(env, s, step).0, StepAll(env, a, step).0;
    AloneConsistent(s, id);
    StepShare(env, s, step, id);
    StepShare(env, a, step, id);
    AloneById(s.ruleset, id);
    AloneReports(StepperOf(env, s.ruleset.version, s.latest, step), s.ruleset, a.state, id);
    assert a'.state == AloneState(s', id).state;
  }

  lemma AloneSwap(env: Env, s: EngineState, ruleset: CompiledRuleSet, now: u64, id: string)
    requires Consistent(s)
    ensures Next(env, AloneState(s, id), Swapped(Alone(ruleset, id), now)).0
         == AloneState(Next(env, s, Swapped(ruleset, now)).0, id)
  {
    AloneById(s.ruleset, id);
    AloneById(ruleset, id);
    assert Next(env, AloneState(s, id), Swapped(Alone(ruleset, id), now)).0.state
        == AloneState(Next(env, s, Swapped(ruleset, now)).0, id).state;
  }

  /** One event: the engine with only `id` does exactly `id`'s share. */
  lemma AloneNext(env: Env, s: EngineState, e: Event, id: string)
    requires Consistent(s) && ValidEvent(e)
    ensures Next(env, AloneState(s, id), AloneEvent(e, id))
         == (AloneState(Next(env, s, e).0, id), Only(Next(env, s, e).1, id))
  {
    match e
    case Sampled(sample, now) =>
      AloneStep(env, Received(s, sample, now), SampleStep(sample), id);
      assert AloneState(Received(s, sample, now), id) == Received(AloneState(s, id), sample, now);
    case Ticked(now) => AloneStep(env, s, TickStep(now), id);
    case Swapped(ruleset, now) => AloneSwap(env, s, ruleset, now, id);
  }

  lemma AloneAfterEvent(env: Env, s: EngineState, h: Run, k: nat, id: string)
    requires Consistent(s) && ValidEvents(h) && k < |h|
    requires StateAt(env, AloneState(s, id), AloneRun(h, id), k) == AloneState(StateAt(env, s, h, k), id)
    ensures StateAt(env, AloneState(s, id), AloneRun(h, id), k + 1) == AloneState(StateAt(env, s, h, k + 1), id)
  {
    RunConsistent(env, s, h, k);
    AloneNext(env, StateAt(env, s, h, k), h[k], id);
  }

  lemma {:induction false} RunAlone(env: Env, s: EngineState, h: Run, k: nat, id: string)
    requires Consistent(s) && ValidEvents(h) && k <= |h|
    ensures StateAt(env, AloneState(s, id), AloneRun(h, id), k) == AloneState(StateAt(env, s, h, k), id)
    decreases k
  {
    if k > 0 {
      var n := k - 1;
      RunAlone(env, s, h, n, id);
      AloneAfterEvent(env, s, h, n, id);
      assert n + 1 == k;
    }
  }

  /**
   * Over any run of samples, ticks and swaps, rule `id`'s records, evaluation errors and stale
   * skips are those of an engine fed the same run with `id` as its only rule.
   */
  lemma RunNonInterference(env: Env, s: EngineState, h: Run, k: nat, id: string)
    requires Consistent(s) && ValidEvents(h) && k < |h|
    ensures ReportAt(env, AloneState(s, id), AloneRun(h, id), k) == Only(ReportAt(env, s, h, k), id)
  {
    RunAlone(env, s, h, k, id);
    RunConsistent(env, s, h, k);
    AloneNext(env, StateAt(env, s, h, k), h[k], id);
  }
}
