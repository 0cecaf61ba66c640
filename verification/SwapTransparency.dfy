/** Swapping in the same rules, in any order and under any version, is invisible but for the version. */
module SwapTransparency {
  import opened Prelude
  import opened Catalog
  import opened Condition
  import opened Rules
  import opened Compile
  import opened EngineSpec
  import opened EngineRuns

  /** The two rule sets give the same ids the same definitions. */
  predicate SameDefinitions(a: CompiledRuleSet, b: CompiledRuleSet) {
    && ById(a.rules).Keys == ById(b.rules).Keys
    && forall id :: id in ById(a.rules) ==> ById(a.rules)[id].def == ById(b.rules)[id].def
  }

  /** Such a swap leaves the latest values and every rule's state as they were. */
  lemma SwapKeepsState(env: Env, s: EngineState, ruleset: CompiledRuleSet, now: u64)
    requires Consistent(s) && SameDefinitions(s.ruleset, ruleset)
    ensures Next(env, s, Swapped(ruleset, now)) == (s.(ruleset := ruleset), NOTHING)
  {
    forall id | id in ById(ruleset.rules)
      ensures Keeps(ById(s.ruleset.rules), s.state, ById(ruleset.rules)[id])
      ensures ById(ruleset.rules)[id].Id() == id
    {
      var i := ByIdIndex(ruleset.rules, id);
    }
    assert Next(env, s, Swapped(ruleset, now)).0.state == s.state;
  }

  /** The state a rule starts with, by its own definition: nothing logged, first due one interval from now. */
  predicate StartsFresh(def: Rule, st: RuleState, now: u64) {
    && st.lastLogged.None?
    && match def.mode
       case ModeOnChange => st.nextDueMs.None?
       case ModePeriodic =>
         && def.intervalMs.Some? && st.nextDueMs.Some?
         && st.nextDueMs.value == if now + def.intervalMs.value <= U64_MAX then now + def.intervalMs.value else U64_MAX
  }

  /**
   * A swap, rule by rule: it puts the new set in force, reports nothing and keeps all values; a rule with
   * the very definition it had keeps its state, any other starts fresh, and a rule left out has no state.
   */
  lemma SwapExactly(env: Env, s: EngineState, ruleset: CompiledRuleSet, now: u64, id: string)
    requires Consistent(s) && WellFormed(ruleset)
    ensures var (t, report) := Next(env, s, Swapped(ruleset, now));
            var before, after := ById(s.ruleset.rules), ById(ruleset.rules);
            && t.ruleset == ruleset && t.latest == s.latest && report == NOTHING
            && (id in t.state <==> id in after)
            && (id in after ==>
                  if id in before && before[id].def == after[id].def then t.state[id] == s.state[id]
                  else StartsFresh(after[id].def, t.state[id], now))
  {
    if id in ById(ruleset.rules) {
      var i := ByIdIndex(ruleset.rules, id);
      WellFormedAsAsked(ruleset, i);
    }
  }

  /** Rule sets compiled from the same definitions for the same catalog hold the same compiled rules. */
  lemma SameCompilation(parse: Parser, cat: SignalCatalog, a: CompiledRuleSet, b: CompiledRuleSet)
    requires CompiledFrom(parse, cat, a.rules, Defs(a)) && CompiledFrom(parse, cat, b.rules, Defs(b))
    requires SameDefinitions(a, b)
    ensures ById(a.rules) == ById(b.rules)
  {
    forall id | id in ById(a.rules)
      ensures ById(a.rules)[id] == ById(b.rules)[id]
    {
      var i := ByIdIndex(a.rules, id);
      var j := ByIdIndex(b.rules, id);
      assert Defs(a)[i] == Defs(b)[j];
    }
  }

  function Defs(a: CompiledRuleSet): seq<Rule> {
    seq(|a.rules|, i requires 0 <= i < |a.rules| => a.rules[i].def)
  }

  function EraseVersions(records: seq<LogRecord>): seq<LogRecord> {
    seq(|records|, i requires 0 <= i < |records| => records[i].(rulesetVersion := 0))
  }

  /** A report with the rule set version blanked out. */
  function Unversioned(r: EvalReport): EvalReport {
    r.(records := EraseVersions(r.records))
  }

  /** Two engines that differ at most in the order of their rules and the version of their rule set. */
  predicate Alike(s: EngineState, t: EngineState) {
    match (s, t)
    case (EngineState(a, latest, state), EngineState(b, latest', state')) =>
      ById(a.rules) == ById(b.rules) && latest == latest' && state == state'
  }

  /** The version only ever shows in records. */
  lemma VersionOnlyInRecords(
      env: Env, v: u64, w: u64, rule: CompiledRule, st: RuleState, latest: LatestTable, step: Step)
    ensures RuleStep(env, v, rule, st, latest, step).0 == RuleStep(env, w, rule, st, latest, step).0
    ensures Unversioned(RuleStep(env, v, rule, st, latest, step).1)
         == Unversioned(RuleStep(env, w, rule, st, latest, step).1)
  {
  }

  lemma AlikeStep(env: Env, s: EngineState, t: EngineState, step: Step)
    requires Consistent(s) && Consistent(t) && Alike(s, t)
    ensures Alike(StepAll(env, s, step).0, StepAll(env, t, step).0)
  {
    var rules := ById(s.ruleset.rules);
    forall k | k in s.state
      ensures StepAll(env, s, step).0.state[k] == StepAll(env, t, step).0.state[k]
    {
      VersionOnlyInRecords(env, s.ruleset.version, t.ruleset.version, rules[k], s.state[k], s.latest, step);
    }
  }

  lemma AlikeStepReports(env: Env, s: EngineState, t: EngineState, step: Step, id: string)
    requires Consistent(s) && Consistent(t) && Alike(s, t)
    ensures Unversioned(Only(StepAll(env, s, step).1, id)) == Unversioned(Only(StepAll(env, t, step).1, id))
  {
    StepShare(env, s, step, id);
    StepShare(env, t, step, id);
    var rules := ById(s.ruleset.rules);
    if id in rules {
      VersionOnlyInRecords(env, s.ruleset.version, t.ruleset.version, rules[id], s.state[id], s.latest, step);
    }
  }

  lemma AlikeNext(env: Env, s: EngineState, t: EngineState, e: Event)
    requires Consistent(s) && Consistent(t) && Alike(s, t)
    ensures Alike(Next(env, s, e).0, Next(env, t, e).0)
  {
    match e
    case Sampled(sample, now) => AlikeStep(env, Received(s, sample, now), Received(t, sample, now), SampleStep(sample));
    case Ticked(now) => AlikeStep(env, s, t, TickStep(now));
    case Swapped(_, _) =>
  }

  lemma AlikeNextReports(env: Env, s: EngineState, t: EngineState, e: Event, id: string)
    requires Consistent(s) && Consistent(t) && Alike(s, t)
    ensures Unversioned(Only(Next(env, s, e).1, id)) == Unversioned(Only(Next(env, t, e).1, id))
  {
    match e
    case Sampled(sample, now) =>
      AlikeStepReports(env, Received(s, sample, now), Received(t, sample, now), SampleStep(sample), id);
    case Ticked(now) => AlikeStepReports(env, s, t, TickStep(now), id);
    case Swapped(_, _) =>
  }

  lemma AlikeAfterEvent(env: Env, s: EngineState, t: EngineState, h: Run, k: nat)
    requires Consistent(s) && Consistent(t) && ValidEvents(h) && k < |h|
    requires Alike(StateAt(env, s, h, k), StateAt(env, t, h, k))
    ensures Alike(StateAt(env, s, h, k + 1), StateAt(env, t, h, k + 1))
  {
    RunConsistent(env, s, h, k);
    RunConsistent(env, t, h, k);
    AlikeNext(env, StateAt(env, s, h, k), StateAt(env, t, h, k), h[k]);
  }

  lemma {:induction false} AlikeRun(env: Env, s: EngineState, t: EngineState, h: Run, k: nat)
    requires Consistent(s) && Consistent(t) && Alike(s, t) && ValidEvents(h) && k <= |h|
    ensures Alike(StateAt(env, s, h, k), StateAt(env, t, h, k))
    decreases k
  {
    if k > 0 {
      var n := k - 1;
      AlikeRun(env, s, t, h, n);
      AlikeAfterEvent(env, s, t, h, n);
      assert n + 1 == k;
    }
  }

  lemma AlikeReports(env: Env, s: EngineState, t: EngineState, h: Run, k: nat, id: string)
    requires Consistent(s) && Consistent(t) && Alike(s, t) && ValidEvents(h) && k < |h|
    ensures Unversioned(Only(ReportAt(env, s, h, k), id)) == Unversioned(Only(ReportAt(env, t, h, k), id))
  {
    AlikeRun(env, s, t, h, k);
    RunConsistent(env, s, h, k);
    RunConsistent(env, t, h, k);
    AlikeNextReports(env, StateAt(env, s, h, k), StateAt(env, t, h, k), h[k], id);
  }

  /** After swapping in the same compiled rules, every rule reports the same, the version in its records aside. */
  lemma SameRulesInvisible(
      env: Env, s: EngineState, ruleset: CompiledRuleSet, now: u64, h: Run, k: nat, id: string)
    requires Consistent(s) && WellFormed(ruleset) && ById(ruleset.rules) == ById(s.ruleset.rules)
    requires ValidEvents(h) && k < |h|
    ensures var t := Next(env, s, Swapped(ruleset, now)).0;
            Unversioned(Only(ReportAt(env, s, h, k), id)) == Unversioned(Only(ReportAt(env, t, h, k), id))
  {
    var t := Next(env, s, Swapped(ruleset, now)).0;
    assert t == s.(ruleset := ruleset) by {
      SwapKeepsState(env, s, ruleset, now);
    }
    SwapConsistent(env, s, ruleset, now);
    AlikeReports(env, s, t, h, k, id);
  }

  /**
   * After swapping in a rule set compiled from the same definitions for the same catalog, in
   * any order, every rule reports the same at every later event of any run, the rule set
   * version in its records aside.
   */
  lemma SwapInvisible(
      env: Env, parse: Parser, cat: SignalCatalog, s: EngineState, ruleset: CompiledRuleSet, now: u64, h: Run, k: nat,
      id: string)
    requires Consistent(s) && WellFormed(ruleset) && SameDefinitions(s.ruleset, ruleset)
    requires CompiledFrom(parse, cat, s.ruleset.rules, Defs(s.ruleset))
    requires CompiledFrom(parse, cat, ruleset.rules, Defs(ruleset))
    requires ValidEvents(h) && k < |h|
    ensures var t := Next(env, s, Swapped(ruleset, now)).0;
            && t.latest == s.latest && t.state == s.state
            && Unversioned(Only(ReportAt(env, s, h, k), id)) == Unversioned(Only(ReportAt(env, t, h, k), id))
  {
    SameCompilation(parse, cat, s.ruleset, ruleset);
    SwapKeepsState(env, s, ruleset, now);
    SameRulesInvisible(env, s, ruleset, now, h, k, id);
  }

  // ---- a chain of swaps -------------------------------------------------

  predicate Defines(ruleset: CompiledRuleSet, id: string, def: Rule) {
    id in ById(ruleset.rules) && ById(ruleset.rules)[id].def == def
  }

  /** The rule set in force before swap `k`. */
  function SetAt(s: EngineState, h: Run, k: nat): CompiledRuleSet
    requires OnlySwaps(h) && k <= |h|
  {
    if k == 0 then s.ruleset else h[k - 1].ruleset
  }

  predicate OnlySwaps(h: Run) {
    forall i :: 0 <= i < |h| ==> h[i].Swapped?
  }

  /** One swap to a set with `def`: the rule's state stays if `def` was there before, and is fresh otherwise. */
  lemma SwapOnce(env: Env, s: EngineState, e: Event, id: string, def: Rule)
    requires Consistent(s) && ValidEvent(e) && e.Swapped? && Defines(e.ruleset, id, def)
    ensures var t := Next(env, s, e).0;
            && id in t.state
            && t.state[id] == (if Defines(s.ruleset, id, def) then s.state[id]
                               else Freshly(ById(t.ruleset.rules)[id], e.now))
  {
    var i := ByIdIndex(e.ruleset.rules, id);
  }

  /** Rule `id`'s state before event `k` is the one in `s` if `j` is zero, else fresh from swap `j - 1`. */
  predicate TracedTo(env: Env, s: EngineState, h: Run, k: nat, id: string, j: nat)
    requires j <= k <= |h|
  {
    match StateAt(env, s, h, k)
    case EngineState(ruleset, _, state) =>
      && id in state && id in ById(ruleset.rules)
      && (if j == 0 then id in s.state && state[id] == s.state[id]
          else state[id] == Freshly(ById(ruleset.rules)[id], h[j - 1].now))
  }

  lemma SwappedTo(env: Env, s: EngineState, h: Run, k: nat)
    requires OnlySwaps(h) && k <= |h|
    ensures StateAt(env, s, h, k).ruleset == SetAt(s, h, k)
  {
  }

  lemma TracedOn(env: Env, s: EngineState, h: Run, k: nat, id: string, def: Rule, j: nat)
    requires Consistent(s) && ValidEvents(h) && OnlySwaps(h) && j <= k < |h|
    requires Defines(SetAt(s, h, k), id, def) && Defines(SetAt(s, h, k + 1), id, def)
    requires TracedTo(env, s, h, k, id, j)
    ensures TracedTo(env, s, h, k + 1, id, j)
  {
    var t := StateAt(env, s, h, k);
    RunConsistent(env, s, h, k);
    SwappedTo(env, s, h, k);
    SwapOnce(env, t, h[k], id, def);
    var a := ByIdIndex(h[k].ruleset.rules, id);
    var b := ByIdIndex(t.ruleset.rules, id);
  }

  lemma TracedAfresh(env: Env, s: EngineState, h: Run, k: nat, id: string, def: Rule)
    requires Consistent(s) && ValidEvents(h) && OnlySwaps(h) && k < |h|
    requires !Defines(SetAt(s, h, k), id, def) && Defines(SetAt(s, h, k + 1), id, def)
    ensures TracedTo(env, s, h, k + 1, id, k + 1)
  {
    RunConsistent(env, s, h, k);
    SwappedTo(env, s, h, k);
    SwapOnce(env, StateAt(env, s, h, k), h[k], id, def);
  }

  /**
   * Over a chain of swaps a rule keeps its state when its definition is present and identical
   * in every set; otherwise it starts afresh at the last swap before which it was not.
   */
  lemma {:induction false} SwapChain(env: Env, s: EngineState, h: Run, k: nat, id: string, def: Rule) returns (j: nat)
    requires Consistent(s) && ValidEvents(h) && OnlySwaps(h) && k <= |h|
    requires Defines(SetAt(s, h, k), id, def)
    ensures j <= k && TracedTo(env, s, h, k, id, j)
    ensures forall i :: j <= i <= k ==> Defines(SetAt(s, h, i), id, def)
    ensures j > 0 ==> !Defines(SetAt(s, h, j - 1), id, def)
    decreases k
  {
    if k == 0 {
      j := 0;
    } else {
      var n := k - 1;
      assert n + 1 == k;
      if Defines(SetAt(s, h, n), id, def) {
        j := SwapChain(env, s, h, n, id, def);
        TracedOn(env, s, h, n, id, def, j);
      } else {
        j := k;
        TracedAfresh(env, s, h, n, id, def);
      }
    }
  }
}
