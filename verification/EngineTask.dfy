/** The engine task: ticks, waits for a sample or a timer, emits records and counts them per rule. */
module EngineTask {
  import opened Prelude
  import opened Condition
  import opened Rules
  import opened EngineSpec
  import opened Engine
  import opened EngineRuns
  import opened Cadence

  /** The wait between ticks without any deadline: one minute. */
  const IDLE_SLEEP_MS: u64 := 60_000

  /** Counters by rule id; an id without an entry counts zero. */
  type CounterTable = map<string, nat>

  function Count(c: CounterTable, id: string): nat {
    if id in c then c[id] else 0
  }

  function Bump(c: CounterTable, id: string): CounterTable {
    c[id := Count(c, id) + 1]
  }

  /** One count more for each listed id. */
  function Bumps(c: CounterTable, ids: seq<string>): CounterTable {
    if ids == [] then c else Bump(Bumps(c, ids[..|ids| - 1]), ids[|ids| - 1])
  }

  lemma BumpsSnoc(c: CounterTable, ids: seq<string>, id: string)
    ensures Bumps(c, ids + [id]) == Bump(Bumps(c, ids), id)
  {
    assert (ids + [id])[..|ids|] == ids;
  }

  lemma {:induction false} BumpsConcat(c: CounterTable, a: seq<string>, b: seq<string>)
    ensures Bumps(c, a + b) == Bumps(Bumps(c, a), b)
  {
    if b == [] {
      assert a + b == a;
    } else {
      var n := |b| - 1;
      BumpsConcat(c, a, b[..n]);
      assert a + b == (a + b[..n]) + [b[n]];
      BumpsSnoc(c, a + b[..n], b[n]);
    }
  }

  function RecordIds(records: seq<LogRecord>): seq<string> {
    seq(|records|, i requires 0 <= i < |records| => records[i].ruleId)
  }

  function ErrorIds(errors: seq<(string, EvalError)>): seq<string> {
    seq(|errors|, i requires 0 <= i < |errors| => errors[i].0)
  }

  /** The task's counters. */
  datatype Totals = Totals(records: CounterTable, evalErrors: CounterTable, staleSkips: CounterTable)

  /** The counters once `r` is counted too. */
  function Counted(t: Totals, r: EvalReport): Totals {
    Totals(Bumps(t.records, RecordIds(r.records)), Bumps(t.evalErrors, ErrorIds(r.evalErrors)),
           Bumps(t.staleSkips, r.staleSkips))
  }

  const ZERO := Totals(map[], map[], map[])

  lemma CountedPlus(t: Totals, a: EvalReport, b: EvalReport)
    ensures Counted(t, a.Plus(b)) == Counted(Counted(t, a), b)
  {
    BumpsConcat(t.records, RecordIds(a.records), RecordIds(b.records));
    BumpsConcat(t.evalErrors, ErrorIds(a.evalErrors), ErrorIds(b.evalErrors));
    BumpsConcat(t.staleSkips, a.staleSkips, b.staleSkips);
    assert RecordIds(a.records + b.records) == RecordIds(a.records) + RecordIds(b.records);
    assert ErrorIds(a.evalErrors + b.evalErrors) == ErrorIds(a.evalErrors) + ErrorIds(b.evalErrors);
  }

  lemma {:induction false} RecordCounts(c: CounterTable, records: seq<LogRecord>, id: string)
    ensures Count(Bumps(c, RecordIds(records)), id) == Count(c, id) + |OnlyRecords(records, id)|
  {
    if records != [] {
      RecordCounts(c, records[..|records| - 1], id);
      assert RecordIds(records)[..|records| - 1] == RecordIds(records[..|records| - 1]);
    }
  }

  lemma {:induction false} ErrorCounts(c: CounterTable, errors: seq<(string, EvalError)>, id: string)
    ensures Count(Bumps(c, ErrorIds(errors)), id) == Count(c, id) + |OnlyErrors(errors, id)|
  {
    if errors != [] {
      ErrorCounts(c, errors[..|errors| - 1], id);
      assert ErrorIds(errors)[..|errors| - 1] == ErrorIds(errors[..|errors| - 1]);
    }
  }

  lemma {:induction false} SkipCounts(c: CounterTable, skips: seq<string>, id: string)
    ensures Count(Bumps(c, skips), id) == Count(c, id) + |OnlySkips(skips, id)|
  {
    if skips != [] {
      SkipCounts(c, skips[..|skips| - 1], id);
    }
  }

  /** Each counter of a rule is the number of its own entries. */
  lemma CountersAreShares(r: EvalReport, id: string)
    ensures var t, own := Counted(ZERO, r), Only(r, id);
            && Count(t.records, id) == |own.records|
            && Count(t.evalErrors, id) == |own.evalErrors|
            && Count(t.staleSkips, id) == |own.staleSkips|
  {
    RecordCounts(map[], r.records, id);
    ErrorCounts(map[], r.evalErrors, id);
    SkipCounts(map[], r.staleSkips, id);
  }

  // ---- the events of a run ----------------------------------------------

  /** The engine's state after a run. */
  function After(env: Env, s: EngineState, h: Run): EngineState {
    StateAt(env, s, h, |h|)
  }

  /** Everything a run reports, in order. */
  function Total(env: Env, s: EngineState, h: Run): EvalReport {
    if h == [] then NOTHING else Total(env, s, h[..|h| - 1]).Plus(Next(env, After(env, s, h[..|h| - 1]), h[|h| - 1]).1)
  }

  lemma {:induction false} StateAtPrefix(env: Env, s: EngineState, h: Run, e: Event, k: nat)
    requires k <= |h|
    ensures StateAt(env, s, h + [e], k) == StateAt(env, s, h, k)
  {
    if k > 0 {
      StateAtPrefix(env, s, h, e, k - 1);
    }
  }

  lemma AfterSnoc(env: Env, s: EngineState, h: Run, e: Event)
    ensures After(env, s, h + [e]) == Next(env, After(env, s, h), e).0
  {
    StateAtPrefix(env, s, h, e, |h|);
  }

  lemma TotalSnoc(env: Env, s: EngineState, h: Run, e: Event)
    ensures Total(env, s, h + [e]) == Total(env, s, h).Plus(Next(env, After(env, s, h), e).1)
  {
    assert (h + [e])[..|h|] == h;
  }

  /** The samples among a run's events. */
  function Consumed(h: Run): seq<Prelude.Sample> {
    if h == [] then []
    else Consumed(h[..|h| - 1]) + match h[|h| - 1] { case Sampled(sample, _) => [sample] case _ => [] }
  }

  lemma ConsumedSnoc(h: Run, e: Event)
    ensures Consumed(h + [e]) == Consumed(h) + match e { case Sampled(sample, _) => [sample] case _ => [] }
  {
    assert (h + [e])[..|h|] == h;
  }

  // ---- the engine task --------------------------------------------------

  /** What ends a wait: a sample with the clock reading at its evaluation, or a timer. */
  datatype Wake = Arrival(sample: Prelude.Sample, now: u64) | Timer

  /** One round of the loop: the clock reading of its tick, then what ended its wait. */
  datatype Round = Round(tickNow: u64, wake: Wake)

  function EventsOf(rounds: seq<Round>): Run {
    if rounds == [] then []
    else
      var last := rounds[|rounds| - 1];
      EventsOf(rounds[..|rounds| - 1]) + [Ticked(last.tickNow)]
      + match last.wake { case Arrival(sample, now) => [Sampled(sample, now)] case Timer => [] }
  }

  /** Where round `i` begins among the events: a round is one event, or two if a sample arrived. */
  function Start(rounds: seq<Round>, i: nat): nat
    requires i <= |rounds|
  {
    if i == 0 then 0 else Start(rounds, i - 1) + if rounds[i - 1].wake.Arrival? then 2 else 1
  }

  /** Every round ticks once, and its sample, if any, follows its tick; nothing else happens. */
  lemma {:induction false} RoundEvents(rounds: seq<Round>, i: nat)
    requires i < |rounds|
    ensures |EventsOf(rounds)| == Start(rounds, |rounds|) >= Start(rounds, i + 1)
    ensures EventsOf(rounds)[Start(rounds, i)] == Ticked(rounds[i].tickNow)
    ensures match rounds[i].wake
            case Arrival(sample, now) =>
              Start(rounds, i + 1) == Start(rounds, i) + 2
              && EventsOf(rounds)[Start(rounds, i) + 1] == Sampled(sample, now)
            case Timer => Start(rounds, i + 1) == Start(rounds, i) + 1
    decreases |rounds|
  {
    var n := |rounds| - 1;
    EventCount(rounds[..n]);
    StartPrefix(rounds, n, n);
    if i < n {
      RoundEvents(rounds[..n], i);
      StartPrefix(rounds, n, i);
      StartPrefix(rounds, n, i + 1);
    }
  }

  lemma {:induction false} EventCount(rounds: seq<Round>)
    ensures |EventsOf(rounds)| == Start(rounds, |rounds|)
  {
    if rounds != [] {
      var n := |rounds| - 1;
      EventCount(rounds[..n]);
      StartPrefix(rounds, n, n);
    }
  }

  lemma {:induction false} StartPrefix(rounds: seq<Round>, n: nat, i: nat)
    requires i <= n <= |rounds|
    ensures Start(rounds[..n], i) == Start(rounds, i)
  {
    if i > 0 {
      StartPrefix(rounds, n, i - 1);
    }
  }

  /** The samples that arrive, in order. */
  function Arrivals(rounds: seq<Round>): seq<Prelude.Sample> {
    if rounds == [] then []
    else if rounds[0].wake.Arrival? then [rounds[0].wake.sample] + Arrivals(rounds[1..])
    else Arrivals(rounds[1..])
  }

  /** The engine takes in exactly the samples that arrive, in order. */
  lemma {:induction false} SamplesAreArrivals(rounds: seq<Round>)
    ensures Consumed(EventsOf(rounds)) == Arrivals(rounds)
  {
    if rounds != [] {
      var n := |rounds| - 1;
      var last := rounds[n];
      SamplesAreArrivals(rounds[..n]);
      ConsumedSnoc(EventsOf(rounds[..n]), Ticked(last.tickNow));
      if last.wake.Arrival? {
        ConsumedSnoc(EventsOf(rounds[..n]) + [Ticked(last.tickNow)], Sampled(last.wake.sample, last.wake.now));
      } else {
        assert EventsOf(rounds) == EventsOf(rounds[..n]) + [Ticked(last.tickNow)];
      }
      ArrivalsSnoc(rounds[..n], last);
      assert rounds[..n] + [last] == rounds;
    }
  }

  lemma {:induction false} ArrivalsSnoc(rounds: seq<Round>, round: Round)
    ensures Arrivals(rounds + [round])
         == Arrivals(rounds) + (if round.wake.Arrival? then [round.wake.sample] else [])
  {
    if rounds != [] {
      assert (rounds + [round])[1..] == rounds[1..] + [round];
      ArrivalsSnoc(rounds[1..], round);
    }
  }

  /** Each event adds its own report behind those of the earlier ones. */
  lemma ReportsInOrder(env: Env, s: EngineState, h: Run, k: nat)
    requires k < |h|
    ensures Total(env, s, h[..k + 1]) == Total(env, s, h[..k]).Plus(ReportAt(env, s, h, k))
    ensures Total(env, s, []) == NOTHING
  {
    assert h[..k + 1] == h[..k] + [h[k]];
    TotalSnoc(env, s, h[..k], h[k]);
    StateOfPrefix(env, s, h, k, k);
  }

  lemma {:induction false} StateOfPrefix(env: Env, s: EngineState, h: Run, n: nat, k: nat)
    requires k <= n <= |h|
    ensures StateAt(env, s, h[..n], k) == StateAt(env, s, h, k)
  {
    if k > 0 {
      StateOfPrefix(env, s, h, n, k - 1);
    }
  }

  class EngineStats {
    var samples: nat
    var records: CounterTable
    var evalErrors: CounterTable
    var staleSkips: CounterTable

    constructor ()
      ensures samples == 0 && Counters() == ZERO
    {
      samples, records, evalErrors, staleSkips := 0, map[], map[], map[];
    }

    function Counters(): Totals
      reads this
    {
      Totals(records, evalErrors, staleSkips)
    }

    /** Counts what happened in one step and sends its records. */
    method Emit(report: EvalReport, sent: seq<LogRecord>) returns (sent': seq<LogRecord>)
      modifies this
      ensures sent' == sent + report.records && samples == old(samples)
      ensures Counters() == Counted(old(Counters()), report)
    {
      var ids := ErrorIds(report.evalErrors);
      for i := 0 to |report.evalErrors|
        modifies this`evalErrors
        invariant evalErrors == Bumps(old(evalErrors), ids[..i])
      {
        assert ids[..i + 1][..i] == ids[..i];
        evalErrors := Bump(evalErrors, report.evalErrors[i].0);
      }
      assert ids[..|ids|] == ids;
      CountSkips(report.staleSkips);
      sent' := SendRecords(report.records, sent);
    }

    method CountSkips(skips: seq<string>)
      modifies this`staleSkips
      ensures staleSkips == Bumps(old(staleSkips), skips)
    {
      for i := 0 to |skips|
        modifies this`staleSkips
        invariant staleSkips == Bumps(old(staleSkips), skips[..i])
      {
        assert skips[..i + 1][..i] == skips[..i];
        staleSkips := Bump(staleSkips, skips[i]);
      }
      assert skips[..|skips|] == skips;
    }

    method SendRecords(out: seq<LogRecord>, sent: seq<LogRecord>) returns (sent': seq<LogRecord>)
      modifies this`records
      ensures sent' == sent + out && records == Bumps(old(records), RecordIds(out))
    {
      var ids := RecordIds(out);
      sent' := sent;
      for i := 0 to |out|
        modifies this`records
        invariant sent' == sent + out[..i] && records == Bumps(old(records), ids[..i])
      {
        assert ids[..i + 1][..i] == ids[..i];
        records := Bump(records, out[i].ruleId);
        sent' := sent' + [out[i]];
      }
      assert ids[..|ids|] == ids;
    }

    /** The engine and the counters are where the run `h` takes them from state `s`. */
    ghost predicate Tracks(engine: RuleEngine, s: EngineState, h: EngineRuns.Run, sent: seq<LogRecord>)
      reads this, engine
    {
      && engine.Valid() && engine.Model() == After(engine.env, s, h)
      && sent == Total(engine.env, s, h).records
      && samples == |Consumed(h)|
      && Counters() == Counted(ZERO, Total(engine.env, s, h))
    }

    /**
     * The engine task's loop until the sample channel closes, which happens after the tick at
     * `lastTick`: the records of every event are sent in order and counted under their rule.
     */
    method Run(engine: RuleEngine, rounds: seq<Round>, lastTick: u64) returns (sent: seq<LogRecord>)
      requires engine.Valid() && samples == 0 && Counters() == ZERO
      modifies this, engine
      ensures Tracks(engine, old(engine.Model()), EventsOf(rounds) + [Ticked(lastTick)], sent)
    {
      ghost var s, h := engine.Model(), [];
      sent := [];
      for i := 0 to |rounds|
        invariant h == EventsOf(rounds[..i]) && Tracks(engine, s, h, sent)
      {
        assert rounds[..i + 1][..i] == rounds[..i];
        var round := rounds[i];
        sent := Tick(engine, round.tickNow, sent, s, h);
        h := h + [Ticked(round.tickNow)];
        match round.wake {
          case Arrival(sample, now) =>
            sent := Receive(engine, sample, now, sent, s, h);
            h := h + [Sampled(sample, now)];
          case Timer =>
            assert h + [] == h;
        }
      }
      assert rounds[..|rounds|] == rounds;
      sent := Tick(engine, lastTick, sent, s, h);
    }

    method Tick(engine: RuleEngine, now: u64, sent: seq<LogRecord>, ghost s: EngineState, ghost h: EngineRuns.Run)
      returns (sent': seq<LogRecord>)
      requires Tracks(engine, s, h, sent)
      modifies this, engine
      ensures Tracks(engine, s, h + [Ticked(now)], sent')
    {
      AfterSnoc(engine.env, s, h, Ticked(now));
      TotalSnoc(engine.env, s, h, Ticked(now));
      ConsumedSnoc(h, Ticked(now));
      ghost var before := Total(engine.env, s, h);
      var report := engine.Tick(now);
      CountedPlus(ZERO, before, report);
      sent' := Emit(report, sent);
    }

    method Receive(
        engine: RuleEngine, sample: Prelude.Sample, now: u64, sent: seq<LogRecord>, ghost s: EngineState,
        ghost h: EngineRuns.Run)
      returns (sent': seq<LogRecord>)
      requires Tracks(engine, s, h, sent)
      modifies this, engine
      ensures Tracks(engine, s, h + [Sampled(sample, now)], sent')
    {
      AfterSnoc(engine.env, s, h, Sampled(sample, now));
      TotalSnoc(engine.env, s, h, Sampled(sample, now));
      ConsumedSnoc(h, Sampled(sample, now));
      ghost var before := Total(engine.env, s, h);
      samples := samples + 1;
      var report := engine.OnSample(sample, now);
      CountedPlus(ZERO, before, report);
      sent' := Emit(report, sent);
    }
  }

  /** How long the engine task sleeps after a tick, given the clock reading then. */
  function SleepFor(deadline: Option<u64>, now: u64): u64 {
    match deadline
    case None => IDLE_SLEEP_MS
    case Some(due) => SatSub(due, now)
  }

  /** Without any deadline it sleeps for a minute, and no tick has work. */
  lemma SleepsAMinute(env: Env, s: EngineState, now: u64, t: u64)
    requires Consistent(s) && IsEarliestDue(s.state, None)
    ensures SleepFor(None, now) == 60 * 1000 && Next(env, s, Ticked(t)) == (s, NOTHING)
  {
    QuietTick(env, s, t);
  }

  /** Undisturbed, the engine task sleeps exactly until a tick has work: no earlier one has, every later one has. */
  lemma SleepsUntilWork(env: Env, s: EngineState, deadline: Option<u64>, now: u64, t: u64)
    requires Consistent(s) && IsEarliestDue(s.state, deadline) && deadline.Some? && now <= t < U64_MAX
    ensures Next(env, s, Ticked(t)) == (s, NOTHING) <==> t < now + SleepFor(deadline, now)
  {
    TickIdleIff(env, s, t, deadline);
  }
}
