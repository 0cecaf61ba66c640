/** Periodic rules: a steady cadence without bursts, and the deadline the engine task sleeps on. */
module Cadence {
  import opened Prelude
  import opened Rules
  import opened EngineSpec
  import opened EngineRuns
  import opened Engine

  /** The due time of rule `id`; zero if it is not an active periodic rule. */
  function DueMs(s: EngineState, id: string): u64 {
    if id in s.state then s.state[id].nextDueMs.GetOr(0) else 0
  }

  /** Rule `id` is active, and its definition asks for the given interval. */
  predicate Every(s: EngineState, id: string, intervalMs: u64) {
    match s
    case EngineState(ruleset, _, _) =>
      && id in ById(ruleset.rules)
      && ById(ruleset.rules)[id].def.mode.ModePeriodic?
      && ById(ruleset.rules)[id].def.intervalMs == Some(intervalMs)
  }

  lemma EveryHasDue(s: EngineState, id: string, intervalMs: u64)
    requires Consistent(s) && Every(s, id, intervalMs)
    ensures id in s.state && s.state[id].nextDueMs == Some(DueMs(s, id)) && intervalMs >= 1
    ensures var rule := ById(s.ruleset.rules)[id];
            rule.Id() == id && rule.behaviour == Periodic(intervalMs, AskedMaxAge(rule.def))
  {
    var i := ByIdIndex(s.ruleset.rules, id);
    WellFormedAsAsked(s.ruleset, i);
  }

  /** Rescheduling moves a due time that has come past the clock, unless the clock is at its end. */
  lemma ReschedulePasses(due: u64, intervalMs: u64, now: u64)
    requires due <= now && intervalMs >= 1
    ensures Reschedule(due, intervalMs, now) > now <==> now < U64_MAX
    ensures SatAdd(due, intervalMs) <= Reschedule(due, intervalMs, now) <= SatAdd(now, intervalMs)
  {
  }

  lemma DueAfterTick(env: Env, s: EngineState, now: u64, id: string, intervalMs: u64)
    requires Consistent(s) && Every(s, id, intervalMs)
    ensures var due := DueMs(s, id);
            DueMs(Next(env, s, Ticked(now)).0, id) == if due <= now then Reschedule(due, intervalMs, now) else due
  {
    EveryHasDue(s, id, intervalMs);
    StepShare(env, s, TickStep(now), id);
  }

  /**
   * The cadence, slot by slot: a rule that is not due keeps its due time; one that is due moves
   * on by one interval, or to one interval from now when that slot has gone by as well.
   */
  lemma NextSlot(env: Env, s: EngineState, now: u64, id: string, intervalMs: u64)
    requires Consistent(s) && Every(s, id, intervalMs)
    ensures var d, d' := DueMs(s, id), DueMs(Next(env, s, Ticked(now)).0, id);
            if now < d then d' == d
            else if now < d + intervalMs then d' == Min(d + intervalMs, U64_MAX)
            else d' == Min(now + intervalMs, U64_MAX)
  {
    DueAfterTick(env, s, now, id, intervalMs);
  }

  function Min(a: int, b: int): int {
    if a <= b then a else b
  }

  lemma DueAfterSample(env: Env, s: EngineState, sample: Sample, now: u64, id: string)
    requires Consistent(s)
    ensures DueMs(Next(env, s, Sampled(sample, now)).0, id) == DueMs(s, id)
  {
    StepShare(env, Received(s, sample, now), SampleStep(sample), id);
  }

  lemma DueAfterSwap(env: Env, s: EngineState, ruleset: CompiledRuleSet, now: u64, id: string, intervalMs: u64)
    requires Consistent(s) && WellFormed(ruleset) && Every(Next(env, s, Swapped(ruleset, now)).0, id, intervalMs)
    ensures var due := DueMs(Next(env, s, Swapped(ruleset, now)).0, id);
            due == SatAdd(now, intervalMs) || (Every(s, id, intervalMs) && due == DueMs(s, id))
  {
    var i := ByIdIndex(ruleset.rules, id);
    if id in ById(s.ruleset.rules) {
      var j := ByIdIndex(s.ruleset.rules, id);
    }
  }

  /** No event moves a due time below a bound that it respects and that one interval from now respects. */
  lemma BoundKept(env: Env, s: EngineState, e: Event, id: string, intervalMs: u64, bound: u64)
    requires Consistent(s) && ValidEvent(e) && Every(Next(env, s, e).0, id, intervalMs)
    requires Every(s, id, intervalMs) ==> DueMs(s, id) >= bound
    requires SatAdd(e.now, intervalMs) >= bound
    ensures DueMs(Next(env, s, e).0, id) >= bound
  {
    match e
    case Sampled(sample, now) => DueAfterSample(env, s, sample, now, id);
    case Ticked(now) =>
      DueAfterTick(env, s, now, id, intervalMs);
      EveryHasDue(s, id, intervalMs);
      if DueMs(s, id) <= now {
        ReschedulePasses(DueMs(s, id), intervalMs, now);
      }
    case Swapped(ruleset, now) => DueAfterSwap(env, s, ruleset, now, id, intervalMs);
  }

  /** The same for the event before state `m` of a run. */
  lemma BoundKeptAt(env: Env, s: EngineState, h: Run, m: nat, id: string, intervalMs: u64, bound: u64)
    requires Consistent(s) && ValidEvents(h) && 0 < m <= |h|
    requires Every(StateAt(env, s, h, m - 1), id, intervalMs) ==> DueMs(StateAt(env, s, h, m - 1), id) >= bound
    requires SatAdd(h[m - 1].now, intervalMs) >= bound && Every(StateAt(env, s, h, m), id, intervalMs)
    ensures DueMs(StateAt(env, s, h, m), id) >= bound
  {
    RunConsistent(env, s, h, m - 1);
    BoundKept(env, StateAt(env, s, h, m - 1), h[m - 1], id, intervalMs, bound);
  }

  lemma {:induction false} BoundKeptOverRun(
      env: Env, s: EngineState, h: Run, k: nat, m: nat, id: string, intervalMs: u64, bound: u64)
    requires Consistent(s) && ValidEvents(h) && k <= m <= |h|
    requires Every(StateAt(env, s, h, k), id, intervalMs) ==> DueMs(StateAt(env, s, h, k), id) >= bound
    requires forall i :: k <= i < m ==> SatAdd(h[i].now, intervalMs) >= bound
    ensures Every(StateAt(env, s, h, m), id, intervalMs) ==> DueMs(StateAt(env, s, h, m), id) >= bound
    decreases m
  {
    if k < m && Every(StateAt(env, s, h, m), id, intervalMs) {
      BoundKeptOverRun(env, s, h, k, m - 1, id, intervalMs, bound);
      BoundKeptAt(env, s, h, m, id, intervalMs, bound);
    }
  }

  /** Rule `id`, active with the given interval, is due when event `e` ticks. */
  predicate FiresAt(s: EngineState, e: Event, id: string, intervalMs: u64) {
    match e
    case Ticked(now) => Every(s, id, intervalMs) && DueMs(s, id) <= now
    case _ => false
  }

  /** Event `k` of a run fires rule `id`. */
  predicate Fires(env: Env, s: EngineState, h: Run, k: nat, id: string, intervalMs: u64)
    requires k < |h|
  {
    FiresAt(StateAt(env, s, h, k), h[k], id, intervalMs)
  }

  /** The due time of a firing. */
  function DueAt(env: Env, s: EngineState, h: Run, k: nat, id: string): u64
    requires k < |h|
  {
    DueMs(StateAt(env, s, h, k), id)
  }

  lemma DueAfterOwnFiring(env: Env, s: EngineState, e: Event, id: string, intervalMs: u64)
    requires Consistent(s) && FiresAt(s, e, id, intervalMs)
    ensures var due := DueMs(Next(env, s, e).0, id);
            due >= SatAdd(DueMs(s, id), intervalMs) && (e.now < U64_MAX ==> due > e.now)
    ensures intervalMs >= 1
  {
    EveryHasDue(s, id, intervalMs);
    DueAfterTick(env, s, e.now, id, intervalMs);
    ReschedulePasses(DueMs(s, id), intervalMs, e.now);
  }

  lemma DueRightAfterFiring(env: Env, s: EngineState, h: Run, k: nat, id: string, intervalMs: u64)
    requires Consistent(s) && ValidEvents(h) && k < |h| && Fires(env, s, h, k, id, intervalMs)
    ensures intervalMs >= 1 && DueAt(env, s, h, k, id) <= h[k].now
    ensures var due := DueMs(StateAt(env, s, h, k + 1), id);
            due >= SatAdd(DueAt(env, s, h, k, id), intervalMs) && (h[k].now < U64_MAX ==> due > h[k].now)
  {
    RunConsistent(env, s, h, k);
    DueAfterOwnFiring(env, StateAt(env, s, h, k), h[k], id, intervalMs);
  }

  /** A bound the due time respects right after event `k` holds ever after. */
  lemma BoundEverAfter(
      env: Env, s: EngineState, h: Run, k: nat, m: nat, id: string, intervalMs: u64, bound: u64)
    requires Consistent(s) && ValidEvents(h) && Monotonic(h) && k < m <= |h|
    requires DueMs(StateAt(env, s, h, k + 1), id) >= bound && SatAdd(h[k].now, intervalMs) >= bound
    requires Every(StateAt(env, s, h, m), id, intervalMs)
    ensures DueMs(StateAt(env, s, h, m), id) >= bound
  {
    forall i | k < i < m
      ensures SatAdd(h[i].now, intervalMs) >= bound
    {
      assert h[k].now <= h[i].now;
    }
    var n := k + 1;
    BoundKeptOverRun(env, s, h, n, m, id, intervalMs, bound);
  }

  /**
   * After a firing, whatever is swapped in, dropped or added again, the rule's due time lies
   * at least an interval behind the firing's due time, and behind its clock reading unless the
   * clock was at its end.
   */
  lemma DueAfterFiring(env: Env, s: EngineState, h: Run, k: nat, m: nat, id: string, intervalMs: u64)
    requires Consistent(s) && ValidEvents(h) && Monotonic(h) && k < m <= |h|
    requires Fires(env, s, h, k, id, intervalMs) && Every(StateAt(env, s, h, m), id, intervalMs)
    ensures var due := DueMs(StateAt(env, s, h, m), id);
            due >= SatAdd(DueAt(env, s, h, k, id), intervalMs) && (h[k].now < U64_MAX ==> due > h[k].now)
  {
    DueRightAfterFiring(env, s, h, k, id, intervalMs);
    BoundEverAfter(env, s, h, k, m, id, intervalMs, SatAdd(DueAt(env, s, h, k, id), intervalMs));
    if h[k].now < U64_MAX {
      BoundEverAfter(env, s, h, k, m, id, intervalMs, h[k].now + 1);
    }
  }

  // ---- a steady cadence -------------------------------------------------

  /** The event leaves rule `id` in force, and if it fires the rule, the slot after the one due has not gone by. */
  predicate OnTime(s: EngineState, e: Event, id: string, intervalMs: u64) {
    match e
    case Sampled(_, _) => true
    case Ticked(now) => DueMs(s, id) <= now ==> now < DueMs(s, id) + intervalMs <= U64_MAX
    case Swapped(ruleset, _) =>
      id in ById(s.ruleset.rules) && id in ById(ruleset.rules)
      && ById(ruleset.rules)[id].def == ById(s.ruleset.rules)[id].def
  }

  predicate AllOnTime(env: Env, s: EngineState, h: Run, id: string, intervalMs: u64) {
    match s
    case EngineState(_, _, _) => forall i :: 0 <= i < |h| ==> OnTime(StateAt(env, s, h, i), h[i], id, intervalMs)
  }

  /** How often the first `k` events fire the rule. */
  function FiringCount(fires: nat -> bool, k: nat): nat {
    if k == 0 then 0 else FiringCount(fires, k - 1) + if fires(k - 1) then 1 else 0
  }

  function FiringsOf(env: Env, s: EngineState, h: Run, id: string, intervalMs: u64): nat -> bool {
    (k: nat) => k < |h| && Fires(env, s, h, k, id, intervalMs)
  }

  /** One event on time: a firing moves the due time by exactly one interval, anything else leaves it. */
  lemma OnTimeStep(env: Env, s: EngineState, e: Event, id: string, intervalMs: u64)
    requires Consistent(s) && ValidEvent(e) && Every(s, id, intervalMs) && OnTime(s, e, id, intervalMs)
    ensures Every(Next(env, s, e).0, id, intervalMs)
    ensures DueMs(Next(env, s, e).0, id) == DueMs(s, id) + if FiresAt(s, e, id, intervalMs) then intervalMs else 0
  {
    EveryHasDue(s, id, intervalMs);
    match e
    case Sampled(sample, now) => DueAfterSample(env, s, sample, now, id);
    case Ticked(now) => NextSlot(env, s, now, id, intervalMs);
    case Swapped(ruleset, _) => var i := ByIdIndex(ruleset.rules, id);
  }

  lemma OnTimeStepAt(env: Env, s: EngineState, h: Run, k: nat, id: string, intervalMs: u64)
    requires Consistent(s) && ValidEvents(h) && k < |h| && AllOnTime(env, s, h, id, intervalMs)
    requires Every(StateAt(env, s, h, k), id, intervalMs)
    ensures Every(StateAt(env, s, h, k + 1), id, intervalMs)
    ensures DueMs(StateAt(env, s, h, k + 1), id) ==
            DueMs(StateAt(env, s, h, k), id) + if FiringsOf(env, s, h, id, intervalMs)(k) then intervalMs else 0
  {
    RunConsistent(env, s, h, k);
    OnTimeStep(env, StateAt(env, s, h, k), h[k], id, intervalMs);
  }

  lemma CountUp(fires: nat -> bool, k: nat, first: int, due: int, intervalMs: nat)
    requires due == first + FiringCount(fires, k) * intervalMs
    ensures due + (if fires(k) then intervalMs else 0) == first + FiringCount(fires, k + 1) * intervalMs
  {
    OneIntervalMore(FiringCount(fires, k), intervalMs);
  }

  /**
   * No drift: while no slot is missed and the definition stays in force, the due time is the
   * first one plus an interval for every firing, however late within its slot each one came.
   */
  lemma {:induction false} SteadyCadence(env: Env, s: EngineState, h: Run, k: nat, id: string, intervalMs: u64)
    requires Consistent(s) && ValidEvents(h) && k <= |h|
    requires Every(s, id, intervalMs) && AllOnTime(env, s, h, id, intervalMs)
    ensures Every(StateAt(env, s, h, k), id, intervalMs)
    ensures DueMs(StateAt(env, s, h, k), id)
         == DueMs(s, id) + FiringCount(FiringsOf(env, s, h, id, intervalMs), k) * intervalMs
  {
    if k > 0 {
      var n := k - 1;
      SteadyCadence(env, s, h, n, id, intervalMs);
      OnTimeStepAt(env, s, h, n, id, intervalMs);
      CountUp(FiringsOf(env, s, h, id, intervalMs), n, DueMs(s, id), DueMs(StateAt(env, s, h, n), id), intervalMs);
      assert n + 1 == k;
    }
  }

  /** A rule that was not in force before is first due one interval from the swap that brings it. */
  lemma FirstSlot(env: Env, s: EngineState, ruleset: CompiledRuleSet, now: u64, id: string, intervalMs: u64)
    requires Consistent(s) && WellFormed(ruleset) && Every(Next(env, s, Swapped(ruleset, now)).0, id, intervalMs)
    requires id in ById(s.ruleset.rules) ==> ById(s.ruleset.rules)[id].def != ById(ruleset.rules)[id].def
    ensures DueMs(Next(env, s, Swapped(ruleset, now)).0, id) == Min(now + intervalMs, U64_MAX)
  {
    var i := ByIdIndex(ruleset.rules, id);
    WellFormedAsAsked(ruleset, i);
  }

  /** Firings of one run, in order. */
  predicate Firings(env: Env, s: EngineState, h: Run, ks: seq<nat>, id: string, intervalMs: u64) {
    && (forall i :: 0 <= i < |ks| ==> ks[i] < |h| && Fires(env, s, h, ks[i], id, intervalMs))
    && (forall i, j :: 0 <= i < j < |ks| ==> ks[i] < ks[j])
  }

  /** Two firings: the later one is due an interval after the earlier one was, and after it happened. */
  lemma FiringPair(env: Env, s: EngineState, h: Run, k: nat, m: nat, id: string, intervalMs: u64)
    requires Consistent(s) && ValidEvents(h) && Monotonic(h) && k < m < |h|
    requires Fires(env, s, h, k, id, intervalMs) && Fires(env, s, h, m, id, intervalMs)
    requires h[m].now < U64_MAX
    ensures DueAt(env, s, h, m, id) >= DueAt(env, s, h, k, id) + intervalMs
    ensures DueAt(env, s, h, k, id) <= h[k].now < DueAt(env, s, h, m, id) <= h[m].now
  {
    DueAfterFiring(env, s, h, k, m, id, intervalMs);
    DueRightAfterFiring(env, s, h, k, id, intervalMs);
    DueRightAfterFiring(env, s, h, m, id, intervalMs);
  }

  /** Due times of successive firings are at least an interval apart. */
  lemma {:induction false} FiringsSpread(
      env: Env, s: EngineState, h: Run, ks: seq<nat>, i: nat, id: string, intervalMs: u64)
    requires Consistent(s) && ValidEvents(h) && Monotonic(h) && Firings(env, s, h, ks, id, intervalMs)
    requires forall i :: 0 <= i < |ks| ==> h[ks[i]].now < U64_MAX
    requires 1 <= i < |ks|
    ensures DueAt(env, s, h, ks[i], id) > h[ks[0]].now + (i - 1) * intervalMs
    decreases i
  {
    FiringPair(env, s, h, ks[i - 1], ks[i], id, intervalMs);
    if i > 1 {
      FiringsSpread(env, s, h, ks, i - 1, id, intervalMs);
      OneIntervalMore(i - 2, intervalMs);
    }
  }

  lemma OneIntervalMore(n: nat, intervalMs: nat)
    ensures (n + 1) * intervalMs == n * intervalMs + intervalMs
  {
  }

  /**
   * No bursts: over any run, `n` firings of a rule with one interval span more than `n - 2`
   * intervals, even across swaps that keep, drop or re-add the rule. The firings have to
   * come before the clock reaches its end: `BurstAtClockEnd` shows what happens there.
   */
  lemma NoBurst(env: Env, s: EngineState, h: Run, ks: seq<nat>, id: string, intervalMs: u64)
    requires Consistent(s) && ValidEvents(h) && Monotonic(h) && Firings(env, s, h, ks, id, intervalMs)
    requires forall i :: 0 <= i < |ks| ==> h[ks[i]].now < U64_MAX
    requires |ks| >= 2
    ensures h[ks[|ks| - 1]].now - h[ks[0]].now > (|ks| - 2) * intervalMs
  {
    var n := |ks| - 1;
    FiringsSpread(env, s, h, ks, n, id, intervalMs);
    DueRightAfterFiring(env, s, h, ks[n], id, intervalMs);
    assert n - 1 == |ks| - 2;
  }

  /** Only ticks, all at the largest clock value. */
  predicate TicksAtClockEnd(h: Run) {
    forall i :: 0 <= i < |h| ==> h[i] == Ticked(U64_MAX)
  }

  /** With the clock at its end an active periodic rule stays active and due. */
  lemma {:induction false} EveryAtClockEnd(env: Env, s: EngineState, h: Run, k: nat, id: string, intervalMs: u64)
    requires Every(s, id, intervalMs) && TicksAtClockEnd(h) && k <= |h|
    ensures Every(StateAt(env, s, h, k), id, intervalMs)
  {
    if k > 0 {
      var n := k - 1;
      EveryAtClockEnd(env, s, h, n, id, intervalMs);
      TickKeepsRules(env, StateAt(env, s, h, n), id, intervalMs);
      assert n + 1 == k;
    }
  }

  lemma TickKeepsRules(env: Env, s: EngineState, id: string, intervalMs: u64)
    requires Every(s, id, intervalMs)
    ensures Every(Next(env, s, Ticked(U64_MAX)).0, id, intervalMs)
  {
  }

  /** Its due time cannot move past the clock: it fires at every tick, however many there are. */
  lemma BurstAtClockEnd(env: Env, s: EngineState, h: Run, k: nat, id: string, intervalMs: u64)
    requires Every(s, id, intervalMs) && TicksAtClockEnd(h) && k < |h|
    ensures Fires(env, s, h, k, id, intervalMs)
  {
    EveryAtClockEnd(env, s, h, k, id, intervalMs);
  }

  // ---- the same for records ---------------------------------------------

  /** Event `k` is a tick at which rule `id`, periodic with the given interval, makes a record. */
  predicate RecordsAtTick(env: Env, s: EngineState, h: Run, k: nat, id: string, intervalMs: u64)
    requires k < |h|
  {
    && h[k].Ticked?
    && OnlyRecords(ReportAt(env, s, h, k).records, id) != []
    && Every(StateAt(env, s, h, k), id, intervalMs)
  }

  /** A rule that makes a record at a tick is periodic, and due. */
  lemma RecordFires(env: Env, s: EngineState, h: Run, k: nat, id: string) returns (intervalMs: u64)
    requires Consistent(s) && ValidEvents(h) && k < |h| && h[k].Ticked?
    requires OnlyRecords(ReportAt(env, s, h, k).records, id) != []
    ensures RecordsAtTick(env, s, h, k, id, intervalMs) && Fires(env, s, h, k, id, intervalMs)
  {
    RunConsistent(env, s, h, k);
    intervalMs := TickRecordIsDue(env, StateAt(env, s, h, k), h[k].now, id);
  }

  lemma TickRecordIsDue(env: Env, s: EngineState, now: u64, id: string) returns (intervalMs: u64)
    requires Consistent(s) && OnlyRecords(Next(env, s, Ticked(now)).1.records, id) != []
    ensures Every(s, id, intervalMs) && DueMs(s, id) <= now
  {
    StepShare(env, s, TickStep(now), id);
    assert Only(Next(env, s, Ticked(now)).1, id).records != [];
    var i := ByIdIndex(s.ruleset.rules, id);
    WellFormedAsAsked(s.ruleset, i);
    intervalMs := ById(s.ruleset.rules)[id].def.intervalMs.value;
  }

  /** Ticks of one run, in order, at each of which the rule makes a record. */
  predicate RecordTicks(env: Env, s: EngineState, h: Run, ks: seq<nat>, id: string, intervalMs: u64) {
    && (forall i :: 0 <= i < |ks| ==> ks[i] < |h| && RecordsAtTick(env, s, h, ks[i], id, intervalMs))
    && (forall i, j :: 0 <= i < j < |ks| ==> ks[i] < ks[j])
  }

  /** No bursts of records: `n` records that a rule makes at ticks span more than `n - 2` intervals. */
  lemma NoRecordBurst(env: Env, s: EngineState, h: Run, ks: seq<nat>, id: string, intervalMs: u64)
    requires Consistent(s) && ValidEvents(h) && Monotonic(h) && RecordTicks(env, s, h, ks, id, intervalMs)
    requires forall i :: 0 <= i < |ks| ==> h[ks[i]].now < U64_MAX
    requires |ks| >= 2
    ensures h[ks[|ks| - 1]].now - h[ks[0]].now > (|ks| - 2) * intervalMs
  {
    forall i | 0 <= i < |ks|
      ensures Fires(env, s, h, ks[i], id, intervalMs)
    {
      assert RecordsAtTick(env, s, h, ks[i], id, intervalMs);
      var own := RecordFires(env, s, h, ks[i], id);
      assert own == intervalMs;
    }
    NoBurst(env, s, h, ks, id, intervalMs);
  }

  /** Rule `id` has no condition, and its signal has a value that is fresh at the end of the clock. */
  predicate FreshAtClockEnd(s: EngineState, id: string) {
    match s
    case EngineState(ruleset, latest, _) =>
      && id in ById(ruleset.rules)
      && ById(ruleset.rules)[id].def.mode.ModePeriodic? && ById(ruleset.rules)[id].def.condition.None?
      && ById(ruleset.rules)[id].def.signal in latest
      && SatSub(U64_MAX, latest[ById(ruleset.rules)[id].def.signal].receivedMs)
         <= AskedMaxAge(ById(ruleset.rules)[id].def)
  }

  lemma TickAtEndRecords(env: Env, s: EngineState, id: string)
    requires Consistent(s) && FreshAtClockEnd(s, id)
    ensures |OnlyRecords(Next(env, s, Ticked(U64_MAX)).1.records, id)| == 1
  {
    var i := ByIdIndex(s.ruleset.rules, id);
    WellFormedAsAsked(s.ruleset, i);
    EveryHasDue(s, id, ById(s.ruleset.rules)[id].def.intervalMs.value);
    StepShare(env, s, TickStep(U64_MAX), id);
    assert |Only(Next(env, s, Ticked(U64_MAX)).1, id).records| == 1;
  }

  lemma FreshStays(env: Env, s: EngineState, id: string)
    requires FreshAtClockEnd(s, id)
    ensures FreshAtClockEnd(Next(env, s, Ticked(U64_MAX)).0, id)
  {
  }

  lemma {:induction false} FreshOverTicks(env: Env, s: EngineState, h: Run, k: nat, id: string)
    requires FreshAtClockEnd(s, id) && TicksAtClockEnd(h) && k <= |h|
    ensures FreshAtClockEnd(StateAt(env, s, h, k), id)
  {
    if k > 0 {
      var n := k - 1;
      FreshOverTicks(env, s, h, n, id);
      FreshStays(env, StateAt(env, s, h, n), id);
      assert n + 1 == k;
    }
  }

  /** At the end of the clock such a rule makes a record at every tick, however many there are. */
  lemma RecordBurstAtClockEnd(env: Env, s: EngineState, h: Run, k: nat, id: string)
    requires Consistent(s) && FreshAtClockEnd(s, id) && TicksAtClockEnd(h) && k < |h|
    ensures |OnlyRecords(ReportAt(env, s, h, k).records, id)| == 1
  {
    assert ValidEvents(h);
    RunConsistent(env, s, h, k);
    FreshOverTicks(env, s, h, k, id);
    TickAtEndRecords(env, StateAt(env, s, h, k), id);
  }

  // ---- exactly when there are no bursts ---------------------------------

  /** No clock reading of the run is beyond `bound`. */
  predicate ClockWithin(h: Run, bound: u64) {
    forall i :: 0 <= i < |h| ==> h[i].now <= bound
  }

  /** Firings of the rule in a run within the bound are spread out. */
  predicate Spread(env: Env, s: EngineState, h: Run, ks: seq<nat>, id: string, intervalMs: u64, bound: u64) {
    ValidEvents(h) && Monotonic(h) && ClockWithin(h, bound) && Firings(env, s, h, ks, id, intervalMs) && |ks| >= 2
    ==> h[ks[|ks| - 1]].now - h[ks[0]].now > (|ks| - 2) * intervalMs
  }

  lemma SpreadBelowEnd(
      env: Env, s: EngineState, h: Run, ks: seq<nat>, id: string, intervalMs: u64, bound: u64)
    requires Consistent(s) && bound < U64_MAX
    ensures Spread(env, s, h, ks, id, intervalMs, bound)
  {
    if ValidEvents(h) && Monotonic(h) && ClockWithin(h, bound) && Firings(env, s, h, ks, id, intervalMs) && |ks| >= 2 {
      forall i | 0 <= i < |ks| ensures h[ks[i]].now < U64_MAX {
        assert ks[i] < |h|;
      }
      NoBurst(env, s, h, ks, id, intervalMs);
    }
  }

  lemma NotSpreadAtEnd(env: Env, s: EngineState, id: string, intervalMs: u64)
    requires Every(s, id, intervalMs)
    ensures !Spread(env, s, [Ticked(U64_MAX), Ticked(U64_MAX)], [0, 1], id, intervalMs, U64_MAX)
  {
    var h: Run := [Ticked(U64_MAX), Ticked(U64_MAX)];
    BurstAtClockEnd(env, s, h, 0, id, intervalMs);
    BurstAtClockEnd(env, s, h, 1, id, intervalMs);
  }

  /** A periodic rule never bursts in runs within a clock bound if and only if that is not the clock's end. */
  lemma NoBurstIff(env: Env, s: EngineState, id: string, intervalMs: u64, bound: u64)
    requires Consistent(s) && Every(s, id, intervalMs)
    ensures (forall h, ks :: Spread(env, s, h, ks, id, intervalMs, bound)) <==> bound < U64_MAX
  {
    if bound < U64_MAX {
      forall h, ks ensures Spread(env, s, h, ks, id, intervalMs, bound) {
        SpreadBelowEnd(env, s, h, ks, id, intervalMs, bound);
      }
    } else {
      NotSpreadAtEnd(env, s, id, intervalMs);
    }
  }

  // ---- the deadline -----------------------------------------------------

  /** A rule that is not due neither changes nor reports. */
  lemma {:induction false} ReportsQuiet(f: Stepper, rules: seq<CompiledRule>, state: StateTable, n: nat)
    requires n <= |rules|
    requires forall i :: 0 <= i < n ==> RuleReport(f, rules, state, i) == NOTHING
    ensures Reports(f, rules, state, n) == NOTHING
  {
    if n > 0 {
      ReportsQuiet(f, rules, state, n - 1);
    }
  }

  lemma QuietTick(env: Env, s: EngineState, now: u64)
    requires Consistent(s)
    requires forall id :: id in s.state && s.state[id].nextDueMs.Some? ==> s.state[id].nextDueMs.value > now
    ensures Next(env, s, Ticked(now)) == (s, NOTHING)
  {
    var f := StepperOf(env, s.ruleset.version, s.latest, TickStep(now));
    ReportsQuiet(f, s.ruleset.rules, s.state, |s.ruleset.rules|);
    assert States(f, ById(s.ruleset.rules), s.state) == s.state;
  }

  /**
   * Before the end of the clock, a tick changes nothing and reports nothing exactly when the
   * deadline has not come.
   */
  lemma TickIdleIff(env: Env, s: EngineState, now: u64, deadline: Option<u64>)
    requires Consistent(s) && now < U64_MAX && IsEarliestDue(s.state, deadline)
    ensures Next(env, s, Ticked(now)) == (s, NOTHING) <==> deadline.None? || now < deadline.value
  {
    if deadline.None? || now < deadline.value {
      QuietTick(env, s, now);
    } else {
      var id :| id in s.state && s.state[id].nextDueMs == deadline;
      var i := ByIdIndex(s.ruleset.rules, id);
      var rule := s.ruleset.rules[i];
      WellFormedAsAsked(s.ruleset, i);
      assert rule.behaviour.Periodic?;
      StepShare(env, s, TickStep(now), id);
      ReschedulePasses(deadline.value, rule.behaviour.intervalMs, now);
    }
  }

  /** A due time never gets more than one interval ahead of the clock. */
  lemma AheadKept(env: Env, s: EngineState, e: Event, id: string, intervalMs: u64)
    requires Consistent(s) && ValidEvent(e) && Every(Next(env, s, e).0, id, intervalMs)
    requires Every(s, id, intervalMs) ==> DueMs(s, id) <= SatAdd(e.now, intervalMs)
    ensures DueMs(Next(env, s, e).0, id) <= SatAdd(e.now, intervalMs)
  {
    match e
    case Sampled(sample, now) => DueAfterSample(env, s, sample, now, id);
    case Ticked(now) =>
      DueAfterTick(env, s, now, id, intervalMs);
      EveryHasDue(s, id, intervalMs);
      if DueMs(s, id) <= now {
        ReschedulePasses(DueMs(s, id), intervalMs, now);
      }
    case Swapped(ruleset, now) => DueAfterSwap(env, s, ruleset, now, id, intervalMs);
  }

  /** No rule active before event `k` with the given interval is due more than it ahead of event `k`'s reading. */
  predicate NotAhead(s: EngineState, id: string, intervalMs: u64, now: u64) {
    match s
    case EngineState(_, _, _) => Every(s, id, intervalMs) ==> DueMs(s, id) <= SatAdd(now, intervalMs)
  }

  lemma AheadKeptAt(env: Env, h: Run, k: nat, id: string, intervalMs: u64)
    requires ValidEvents(h) && k < |h| && NotAhead(StateAt(env, INITIAL, h, k), id, intervalMs, h[k].now)
    ensures NotAhead(StateAt(env, INITIAL, h, k + 1), id, intervalMs, h[k].now)
  {
    ReachedConsistent(env, h, k);
    if Every(StateAt(env, INITIAL, h, k + 1), id, intervalMs) {
      AheadKept(env, StateAt(env, INITIAL, h, k), h[k], id, intervalMs);
    }
  }

  /** In every state an engine reaches, no rule is due more than one interval ahead of the clock. */
  lemma {:induction false} NeverAhead(env: Env, h: Run, k: nat, id: string, intervalMs: u64)
    requires ValidEvents(h) && Monotonic(h) && k < |h|
    ensures NotAhead(StateAt(env, INITIAL, h, k + 1), id, intervalMs, h[k].now)
  {
    if k > 0 {
      var n := k - 1;
      NeverAhead(env, h, n, id, intervalMs);
      assert n + 1 == k && h[n].now <= h[k].now;
    }
    AheadKeptAt(env, h, k, id, intervalMs);
  }

  /** Before the end of the clock, a tick leaves every due time ahead of it: a second tick does nothing. */
  lemma TickSettles(env: Env, s: EngineState, now: u64)
    requires Consistent(s) && now < U64_MAX
    ensures var t := Next(env, s, Ticked(now)).0; Next(env, t, Ticked(now)) == (t, NOTHING)
  {
    var t := Next(env, s, Ticked(now)).0;
    NextConsistent(env, s, Ticked(now));
    forall id | id in t.state && t.state[id].nextDueMs.Some?
      ensures t.state[id].nextDueMs.value > now
    {
      var i := ByIdIndex(t.ruleset.rules, id);
      WellFormedAsAsked(t.ruleset, i);
      TickMovesDue(env, s, now, id, t.ruleset.rules[i].def.intervalMs.value);
    }
    QuietTick(env, t, now);
  }

  lemma TickMovesDue(env: Env, s: EngineState, now: u64, id: string, intervalMs: u64)
    requires Consistent(s) && now < U64_MAX && Every(s, id, intervalMs)
    ensures DueMs(Next(env, s, Ticked(now)).0, id) > now
  {
    DueAfterTick(env, s, now, id, intervalMs);
    EveryHasDue(s, id, intervalMs);
    if DueMs(s, id) <= now {
      ReschedulePasses(DueMs(s, id), intervalMs, now);
    }
  }

  lemma TickMovesDueAt(env: Env, h: Run, k: nat, id: string, intervalMs: u64)
    requires ValidEvents(h) && k < |h| && h[k].Ticked? && h[k].now < U64_MAX
    requires Every(StateAt(env, INITIAL, h, k + 1), id, intervalMs)
    ensures h[k].now < DueMs(StateAt(env, INITIAL, h, k + 1), id)
  {
    ReachedConsistent(env, h, k);
    TickMovesDue(env, StateAt(env, INITIAL, h, k), h[k].now, id, intervalMs);
  }

  /** After any reachable tick before the end of the clock, every due time lies in (now, now + interval]. */
  lemma DueWindowAfterTick(env: Env, h: Run, k: nat, id: string, intervalMs: u64)
    requires ValidEvents(h) && Monotonic(h) && k < |h| && h[k].Ticked? && h[k].now < U64_MAX
    requires Every(StateAt(env, INITIAL, h, k + 1), id, intervalMs)
    ensures h[k].now < DueMs(StateAt(env, INITIAL, h, k + 1), id) <= SatAdd(h[k].now, intervalMs)
  {
    TickMovesDueAt(env, h, k, id, intervalMs);
    NeverAhead(env, h, k, id, intervalMs);
  }

  /** A sample never moves the deadline the engine task sleeps on. */
  lemma SampleKeepsDeadline(env: Env, s: EngineState, sample: Sample, now: u64, deadline: Option<u64>)
    requires Consistent(s)
    ensures IsEarliestDue(Next(env, s, Sampled(sample, now)).0.state, deadline) <==> IsEarliestDue(s.state, deadline)
  {
    var s' := Next(env, s, Sampled(sample, now)).0;
    forall id | id in s.state
      ensures id in s'.state && s'.state[id].nextDueMs == s.state[id].nextDueMs
    {
      StepShare(env, Received(s, sample, now), SampleStep(sample), id);
    }
    assert s'.state.Keys == s.state.Keys;
  }
}
