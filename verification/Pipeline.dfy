/**
 * The three tasks joined by two bounded queues, as interleaved steps. A task that has to wait
 * for room in a queue, or for an item, simply has no step until there is one.
 */
module Pipeline {
  import opened Prelude
  import opened Catalog
  import opened Values
  import opened EngineSpec
  import opened EngineRuns
  import opened EngineTask
  import opened Ingest
  import opened Rotation

  /** What stays fixed over an execution; the daemon's queues both hold 4096 items. */
  datatype Setup = Setup(
    fp: Fp, cat: SignalCatalog, env: Env, start: EngineState, serialize: Serializer, sampleCap: nat, recordCap: nat)

  /** How a record becomes a line of output, if it does. */
  type Serializer = LogRecord -> Option<Line>

  /** `pending` are the samples of the last datagram still to be sent to the engine. */
  datatype IngestSide = IngestSide(running: bool, pending: seq<Sample>, framesDecoded: nat)

  /** Where the engine task is: about to tick, sending the records of a step, waiting, or finished. */
  datatype Spot =
    | Top
    | Emitting(left: seq<LogRecord>, counted: bool, afterTick: bool)
    | Selecting
    | Closed

  datatype EngineSide = EngineSide(engine: EngineState, spot: Spot, samples: nat, records: CounterTable)

  datatype OutputSide = OutputSide(running: bool, recordsWritten: nat, writeErrors: nat)

  /** What has happened so far; no step ever reads it. `written` are the lines handed to the rotating writer. */
  datatype Past = Past(decoded: seq<Sample>, events: Run, delivered: seq<LogRecord>, written: seq<Line>)

  datatype System = System(
    stop: bool, ingest: IngestSide, sampleQueue: seq<Sample>, task: EngineSide, recordQueue: seq<LogRecord>,
    output: OutputSide, past: Past)

  datatype Move =
    | RaiseStop
    | Datagram(bytes: seq<byte>)
    | ForwardSample
    | StopIngest
    | EngineTick(now: u64)
    | EngineReceive(now: u64)
    | EngineWake
    | EngineClose
    | CountRecord
    | SendRecord
    | EndEmit
    | WriteRecord(ok: bool)
    | CloseOutput

  function Initially(c: Setup): System {
    System(false, IngestSide(true, [], 0), [], EngineSide(c.start, Top, 0, map[]), [], OutputSide(true, 0, 0),
           Past([], [], [], []))
  }

  /** The ingest task receives a datagram, once it has sent the samples of the last one. */
  function ReceiveDatagram(c: Setup, s: System, bytes: seq<byte>): System {
    var samples := SamplesOf(c.fp, c.cat, bytes);
    s.(ingest := s.ingest.(pending := samples, framesDecoded := s.ingest.framesDecoded + |samples|),
       past := s.past.(decoded := s.past.decoded + samples))
  }

  /** The engine task evaluates an event and turns to sending its records. */
  function HandleEvent(c: Setup, s: System, e: Event, queue: seq<Sample>, samples: nat): System {
    var (engine, report) := Next(c.env, s.task.engine, e);
    s.(sampleQueue := queue, past := s.past.(events := s.past.events + [e]),
       task := s.task.(engine := engine, samples := samples, spot := Emitting(report.records, false, e.Ticked?)))
  }

  /** Moves of the ingest task and of the stop flag. */
  function IngestMove(c: Setup, s: System, m: Move): Option<System> {
    match m
    case RaiseStop => Some(s.(stop := true))
    case Datagram(bytes) =>
      if s.ingest.running && s.ingest.pending == [] then Some(ReceiveDatagram(c, s, bytes)) else None
    case ForwardSample =>
      if s.ingest.running && s.ingest.pending != [] && |s.sampleQueue| < c.sampleCap then
        Some(s.(sampleQueue := s.sampleQueue + [s.ingest.pending[0]],
                ingest := s.ingest.(pending := s.ingest.pending[1..])))
      else None
    case StopIngest =>
      if s.ingest.running && s.ingest.pending == [] && s.stop then Some(s.(ingest := s.ingest.(running := false)))
      else None
    case _ => None
  }

  /** The engine task about to tick, or waiting. */
  function EngineMove(c: Setup, s: System, m: Move): Option<System> {
    match m
    case EngineTick(now) =>
      if s.task.spot.Top? then Some(HandleEvent(c, s, Ticked(now), s.sampleQueue, s.task.samples)) else None
    case EngineReceive(now) =>
      if s.task.spot.Selecting? && s.sampleQueue != [] then
        Some(HandleEvent(c, s, Sampled(s.sampleQueue[0], now), s.sampleQueue[1..], s.task.samples + 1))
      else None
    case EngineWake => if s.task.spot.Selecting? then Some(s.(task := s.task.(spot := Top))) else None
    case EngineClose =>
      if s.task.spot.Selecting? && s.sampleQueue == [] && !s.ingest.running then
        Some(s.(task := s.task.(spot := Closed)))
      else None
    case _ => None
  }

  /** The engine task sending the records of a step, each counted first. */
  function EmitMove(c: Setup, s: System, m: Move): Option<System> {
    match s.task.spot
    case Emitting(left, counted, afterTick) =>
      (match m
       case CountRecord =>
         if left != [] && !counted then
           Some(s.(task := s.task.(records := Bump(s.task.records, left[0].ruleId),
                                   spot := Emitting(left, true, afterTick))))
         else None
       case SendRecord =>
         if left != [] && counted && |s.recordQueue| < c.recordCap then
           Some(s.(recordQueue := s.recordQueue + [left[0]],
                   task := s.task.(spot := Emitting(left[1..], false, afterTick))))
         else None
       case EndEmit =>
         if left == [] then Some(s.(task := s.task.(spot := if afterTick then Selecting else Top))) else None
       case _ => None)
    case _ => None
  }

  /** The output task takes a record, serialises it and writes the line, which succeeds if `ok`. */
  function OutputMove(c: Setup, s: System, m: Move): Option<System> {
    match m
    case WriteRecord(ok) =>
      if s.output.running && s.recordQueue != [] then
        var record := s.recordQueue[0];
        var line := if ok then c.serialize(record) else None;
        var past := s.past.(delivered := s.past.delivered + [record]);
        match line {
          case Some(l) =>
            Some(s.(recordQueue := s.recordQueue[1..], past := past.(written := past.written + [l]),
                    output := s.output.(recordsWritten := s.output.recordsWritten + 1)))
          case None =>
            Some(s.(recordQueue := s.recordQueue[1..], past := past,
                    output := s.output.(writeErrors := s.output.writeErrors + 1)))
        }
      else None
    case CloseOutput =>
      if s.output.running && s.recordQueue == [] && s.task.spot.Closed? then
        Some(s.(output := s.output.(running := false)))
      else None
    case _ => None
  }

  /** The state after a move, if the move can be made. */
  function Make(c: Setup, s: System, m: Move): Option<System> {
    if m.RaiseStop? || m.Datagram? || m.ForwardSample? || m.StopIngest? then IngestMove(c, s, m)
    else if m.EngineTick? || m.EngineReceive? || m.EngineWake? || m.EngineClose? then EngineMove(c, s, m)
    else if m.CountRecord? || m.SendRecord? || m.EndEmit? then EmitMove(c, s, m)
    else OutputMove(c, s, m)
  }

  type Mover = (System, Move) -> Option<System>

  /** The state after a list of moves, if each of them could be made in turn. */
  function Follow(f: Mover, s: System, moves: seq<Move>): Option<System> {
    if moves == [] then Some(s)
    else
      match Follow(f, s, moves[..|moves| - 1])
      case None => None
      case Some(t) => f(t, moves[|moves| - 1])
  }

  function MoverOf(c: Setup): Mover {
    (s, m) => Make(c, s, m)
  }

  function Reached(c: Setup, moves: seq<Move>): Option<System> {
    Follow(MoverOf(c), Initially(c), moves)
  }

  // ---- what every step keeps --------------------------------------------

  function LeftOf(spot: Spot): seq<LogRecord> {
    if spot.Emitting? then spot.left else []
  }

  /** The record being sent has been counted. */
  function CountedOf(spot: Spot): seq<LogRecord> {
    if spot.Emitting? && spot.counted && spot.left != [] then [spot.left[0]] else []
  }

  /** Samples are in the engine's past, in the queue, or still to be forwarded, in this order. */
  predicate SamplesKept(s: System) {
    match s
    case System(_, ingest, queue, task, _, _, past) =>
      && Consumed(past.events) + queue + ingest.pending == past.decoded
      && ingest.framesDecoded == |past.decoded|
      && task.samples == |Consumed(past.events)|
  }

  /** Records are with the output, in the queue, or still to be sent, in this order. */
  predicate RecordsKept(c: Setup, s: System) {
    match s
    case System(_, _, _, task, queue, output, past) =>
      && task.engine == After(c.env, c.start, past.events)
      && past.delivered + queue + LeftOf(task.spot) == Total(c.env, c.start, past.events).records
      && output.recordsWritten + output.writeErrors == |past.delivered|
      && output.recordsWritten == |past.written|
  }

  /** The records counted so far: those with the output, those in the queue, and the one being sent. */
  function CountedRecords(s: System): seq<LogRecord> {
    s.past.delivered + s.recordQueue + CountedOf(s.task.spot)
  }

  predicate RecordsCounted(s: System) {
    s.task.records == Bumps(map[], RecordIds(CountedRecords(s)))
  }

  /** Queues stay within bounds, and a task only finishes after those that send to it. */
  predicate Orderly(c: Setup, s: System) {
    match s
    case System(_, ingest, samples, task, records, output, _) =>
      && |samples| <= c.sampleCap && |records| <= c.recordCap
      && (!ingest.running ==> ingest.pending == [])
      && (task.spot.Closed? ==> !ingest.running && samples == [])
      && (!output.running ==> task.spot.Closed? && records == [])
  }

  /** An item moves from the head of what is left to the tail of the queue. */
  lemma IntoQueue<T>(done: seq<T>, queue: seq<T>, left: seq<T>)
    requires left != []
    ensures done + (queue + [left[0]]) + left[1..] == done + queue + left
  {
  }

  /** An item moves from the head of the queue to the tail of what is done. */
  lemma OutOfQueue<T>(done: seq<T>, queue: seq<T>, left: seq<T>)
    requires queue != []
    ensures (done + [queue[0]]) + queue[1..] + left == done + queue + left
  {
  }

  lemma SamplesKeptByEvent(c: Setup, s: System, e: Event, queue: seq<Sample>, samples: nat)
    requires SamplesKept(s)
    requires match e
             case Sampled(sample, _) => s.sampleQueue == [sample] + queue && samples == s.task.samples + 1
             case _ => queue == s.sampleQueue && samples == s.task.samples
    ensures SamplesKept(HandleEvent(c, s, e, queue, samples))
  {
    ConsumedSnoc(s.past.events, e);
    if e.Sampled? {
      OutOfQueue(Consumed(s.past.events), s.sampleQueue, s.ingest.pending);
    } else {
      assert Consumed(s.past.events) + [] == Consumed(s.past.events);
    }
  }

  lemma SamplesKeptByDatagram(c: Setup, s: System, bytes: seq<byte>)
    requires SamplesKept(s) && s.ingest.pending == []
    ensures SamplesKept(ReceiveDatagram(c, s, bytes))
  {
    var kept, samples := Consumed(s.past.events) + s.sampleQueue, SamplesOf(c.fp, c.cat, bytes);
    assert kept + [] == kept;
  }

  lemma SamplesKeptByForward(c: Setup, s: System)
    requires SamplesKept(s) && IngestMove(c, s, ForwardSample).Some?
    ensures SamplesKept(IngestMove(c, s, ForwardSample).value)
  {
    IntoQueue(Consumed(s.past.events), s.sampleQueue, s.ingest.pending);
  }

  /** What samples are where does not depend on anything else. */
  lemma SamplesKeptAlike(s: System, t: System)
    requires SamplesKept(s)
    requires t.ingest.pending == s.ingest.pending && t.ingest.framesDecoded == s.ingest.framesDecoded
    requires t.sampleQueue == s.sampleQueue && t.task.samples == s.task.samples
    requires t.past.events == s.past.events && t.past.decoded == s.past.decoded
    ensures SamplesKept(t)
  {
  }

  lemma SamplesKeptByMove(c: Setup, s: System, m: Move)
    requires SamplesKept(s) && Make(c, s, m).Some?
    ensures SamplesKept(Make(c, s, m).value)
  {
    match m
    case Datagram(bytes) => SamplesKeptByDatagram(c, s, bytes);
    case ForwardSample => SamplesKeptByForward(c, s);
    case EngineTick(now) => SamplesKeptByEvent(c, s, Ticked(now), s.sampleQueue, s.task.samples);
    case EngineReceive(now) =>
      SamplesKeptByEvent(c, s, Sampled(s.sampleQueue[0], now), s.sampleQueue[1..], s.task.samples + 1);
    case _ => SamplesKeptAlike(s, Make(c, s, m).value);
  }

  lemma RecordsKeptByEvent(c: Setup, s: System, e: Event, queue: seq<Sample>, samples: nat)
    requires RecordsKept(c, s) && LeftOf(s.task.spot) == []
    ensures RecordsKept(c, HandleEvent(c, s, e, queue, samples))
  {
    AfterSnoc(c.env, c.start, s.past.events, e);
    TotalSnoc(c.env, c.start, s.past.events, e);
    assert s.past.delivered + s.recordQueue + [] == s.past.delivered + s.recordQueue;
  }

  lemma RecordsKeptBySend(c: Setup, s: System)
    requires RecordsKept(c, s) && EmitMove(c, s, SendRecord).Some?
    ensures RecordsKept(c, EmitMove(c, s, SendRecord).value)
  {
    IntoQueue(s.past.delivered, s.recordQueue, s.task.spot.left);
  }

  lemma RecordsKeptByWrite(c: Setup, s: System, ok: bool)
    requires RecordsKept(c, s) && OutputMove(c, s, WriteRecord(ok)).Some?
    ensures RecordsKept(c, OutputMove(c, s, WriteRecord(ok)).value)
  {
    OutOfQueue(s.past.delivered, s.recordQueue, LeftOf(s.task.spot));
  }

  /** Where records are does not depend on anything else. */
  lemma RecordsKeptAlike(c: Setup, s: System, t: System)
    requires RecordsKept(c, s)
    requires t.task.engine == s.task.engine && LeftOf(t.task.spot) == LeftOf(s.task.spot)
    requires t.recordQueue == s.recordQueue
    requires t.output.recordsWritten == s.output.recordsWritten && t.output.writeErrors == s.output.writeErrors
    requires t.past.events == s.past.events && t.past.delivered == s.past.delivered && t.past.written == s.past.written
    ensures RecordsKept(c, t)
  {
  }

  lemma RecordsKeptByOthers(c: Setup, s: System, m: Move)
    requires RecordsKept(c, s) && Make(c, s, m).Some?
    requires !m.EngineTick? && !m.EngineReceive? && !m.SendRecord? && !m.WriteRecord?
    ensures RecordsKept(c, Make(c, s, m).value)
  {
    RecordsKeptAlike(c, s, Make(c, s, m).value);
  }

  lemma RecordsKeptByMove(c: Setup, s: System, m: Move)
    requires RecordsKept(c, s) && Make(c, s, m).Some?
    ensures RecordsKept(c, Make(c, s, m).value)
  {
    match m
    case EngineTick(now) => RecordsKeptByEvent(c, s, Ticked(now), s.sampleQueue, s.task.samples);
    case EngineReceive(now) =>
      RecordsKeptByEvent(c, s, Sampled(s.sampleQueue[0], now), s.sampleQueue[1..], s.task.samples + 1);
    case SendRecord => RecordsKeptBySend(c, s);
    case WriteRecord(ok) => RecordsKeptByWrite(c, s, ok);
    case _ => RecordsKeptByOthers(c, s, m);
  }

  /** Counting a record adds it to those counted; any other move only passes records on. */
  lemma CountedByMove(c: Setup, s: System, m: Move)
    requires Make(c, s, m).Some?
    ensures m.CountRecord? ==> s.task.spot.Emitting? && s.task.spot.left != []
    ensures var t := Make(c, s, m).value;
            if m.CountRecord?
            then t.task.records == Bump(s.task.records, s.task.spot.left[0].ruleId)
                 && CountedRecords(t) == CountedRecords(s) + [s.task.spot.left[0]]
            else t.task.records == s.task.records && CountedRecords(t) == CountedRecords(s)
  {
    var past, queue, sent := s.past.delivered, s.recordQueue, CountedOf(s.task.spot);
    match m
    case SendRecord => IntoQueue(past, queue, sent);
    case WriteRecord(_) => OutOfQueue(past, queue, sent);
    case _ =>
  }

  lemma RecordsCountedByMove(c: Setup, s: System, m: Move)
    requires RecordsCounted(s) && Make(c, s, m).Some?
    ensures RecordsCounted(Make(c, s, m).value)
  {
    CountedByMove(c, s, m);
    if m.CountRecord? {
      var r := s.task.spot.left[0];
      assert RecordIds(CountedRecords(s) + [r]) == RecordIds(CountedRecords(s)) + [r.ruleId];
      BumpsSnoc(map[], RecordIds(CountedRecords(s)), r.ruleId);
    }
  }

  lemma OrderlyAfterMove(c: Setup, s: System, m: Move)
    requires Orderly(c, s) && Make(c, s, m).Some?
    ensures Orderly(c, Make(c, s, m).value)
  {
  }

  predicate Conserved(c: Setup, s: System) {
    SamplesKept(s) && RecordsKept(c, s) && RecordsCounted(s) && Orderly(c, s)
  }

  lemma MoveConserves(c: Setup, s: System, m: Move)
    requires Conserved(c, s) && Make(c, s, m).Some?
    ensures Conserved(c, Make(c, s, m).value)
  {
    SamplesKeptByMove(c, s, m);
    RecordsKeptByMove(c, s, m);
    RecordsCountedByMove(c, s, m);
    OrderlyAfterMove(c, s, m);
  }

  /** Under any interleaving no sample and no record is lost, duplicated or reordered. */
  lemma {:induction false} AlwaysConserved(c: Setup, moves: seq<Move>)
    requires Reached(c, moves).Some?
    ensures Conserved(c, Reached(c, moves).value)
  {
    if moves != [] {
      var n := |moves| - 1;
      AlwaysConserved(c, moves[..n]);
      MoveConserves(c, Reached(c, moves[..n]).value, moves[n]);
    }
  }

  /** The datagrams received over a list of moves. */
  function Datagrams(moves: seq<Move>): seq<seq<byte>> {
    if moves == [] then []
    else Datagrams(moves[..|moves| - 1]) + match moves[|moves| - 1] { case Datagram(bytes) => [bytes] case _ => [] }
  }

  lemma DecodedByMove(c: Setup, s: System, m: Move)
    requires Make(c, s, m).Some?
    ensures Make(c, s, m).value.past.decoded ==
            s.past.decoded + match m { case Datagram(bytes) => SamplesOf(c.fp, c.cat, bytes) case _ => [] }
  {
  }

  lemma AllSamplesSnoc(c: Setup, datagrams: seq<seq<byte>>, bytes: seq<byte>)
    ensures AllSamples(c.fp, c.cat, datagrams + [bytes]) ==
            AllSamples(c.fp, c.cat, datagrams) + SamplesOf(c.fp, c.cat, bytes)
  {
    assert (datagrams + [bytes])[..|datagrams|] == datagrams;
  }

  /** The samples that entered are those of the datagrams, in order. */
  lemma {:induction false} DecodedAll(c: Setup, moves: seq<Move>)
    requires Reached(c, moves).Some?
    ensures Reached(c, moves).value.past.decoded == AllSamples(c.fp, c.cat, Datagrams(moves))
  {
    if moves != [] {
      var n := |moves| - 1;
      DecodedAll(c, moves[..n]);
      DecodedByMove(c, Reached(c, moves[..n]).value, moves[n]);
      match moves[n]
      case Datagram(bytes) => AllSamplesSnoc(c, Datagrams(moves[..n]), bytes);
      case _ =>
        assert Datagrams(moves[..n]) + [] == Datagrams(moves[..n]);
    }
  }

  /** While a task has something to send, the receiving task is there to take it. */
  lemma ReceiversOutlive(c: Setup, moves: seq<Move>)
    requires Reached(c, moves).Some?
    ensures var s := Reached(c, moves).value;
            && (s.ingest.pending != [] ==> s.ingest.running && !s.task.spot.Closed?)
            && (s.task.spot.Emitting? ==> s.output.running)
  {
    AlwaysConserved(c, moves);
  }

  // ---- draining ---------------------------------------------------------

  predicate Finished(s: System) {
    !s.ingest.running && s.task.spot.Closed? && !s.output.running
  }

  /** The moves that make headway once the stop flag is up: no new datagram, no timer. */
  predicate Draining(m: Move) {
    !m.RaiseStop? && !m.Datagram? && !m.EngineWake?
  }

  /** A draining move that can be made now. */
  function NextMove(s: System, now: u64): Move {
    if s.output.running && s.recordQueue != [] then WriteRecord(true)
    else
      match s.task.spot
      case Top => EngineTick(now)
      case Emitting(left, counted, _) => if left == [] then EndEmit else if counted then SendRecord else CountRecord
      case Closed => CloseOutput
      case Selecting =>
        if s.sampleQueue != [] then EngineReceive(now)
        else if !s.ingest.running then EngineClose
        else if s.ingest.pending != [] then ForwardSample
        else StopIngest
  }

  /** No deadlock: after stop some draining move can be made until all three tasks have finished. */
  lemma NeverStuck(c: Setup, s: System, now: u64)
    requires Orderly(c, s) && s.stop && !Finished(s) && c.sampleCap >= 1 && c.recordCap >= 1
    ensures Draining(NextMove(s, now)) && Make(c, s, NextMove(s, now)).Some?
    ensures Make(c, s, NextMove(s, now)).value.stop
  {
  }

  function Bit(b: bool): nat {
    if b then 1 else 0
  }

  /** Work ahead of the ingest task, of the engine task's queue, of its current round, of its sends, of the output. */
  function Work(s: System): (nat, nat, nat, nat, nat) {
    (|s.ingest.pending| + Bit(s.ingest.running),
     |s.sampleQueue| + Bit(!s.task.spot.Closed?),
     (match s.task.spot
      case Emitting(_, _, afterTick) => if afterTick then 1 else 3
      case Top => 2
      case _ => 0),
     2 * |LeftOf(s.task.spot)| - |CountedOf(s.task.spot)|,
     |s.recordQueue| + Bit(s.output.running))
  }

  predicate Less(a: (nat, nat, nat, nat, nat), b: (nat, nat, nat, nat, nat)) {
    || a.0 < b.0
    || (a.0 == b.0 && a.1 < b.1)
    || (a.0 == b.0 && a.1 == b.1 && a.2 < b.2)
    || (a.0 == b.0 && a.1 == b.1 && a.2 == b.2 && a.3 < b.3)
    || (a.0 == b.0 && a.1 == b.1 && a.2 == b.2 && a.3 == b.3 && a.4 < b.4)
  }

  /** Every draining move leaves less work. */
  lemma DrainingLeavesLess(c: Setup, s: System, m: Move)
    requires Draining(m) && Make(c, s, m).Some?
    ensures Less(Work(Make(c, s, m).value), Work(s))
  {
  }

  /**
   * The tasks cannot drain for ever: no schedule, from any point `i` on, does without new
   * datagrams, timers and stop requests.
   */
  lemma {:induction false} NoEndlessDrain(c: Setup, states: nat -> System, moves: nat -> Move, i: nat)
    requires forall k: nat :: k >= i ==> Draining(moves(k)) && Make(c, states(k), moves(k)) == Some(states(k + 1))
    ensures false
    decreases Work(states(i)).0, Work(states(i)).1, Work(states(i)).2, Work(states(i)).3, Work(states(i)).4
  {
    assert Draining(moves(i)) && Make(c, states(i), moves(i)) == Some(states(i + 1));
    DrainingLeavesLess(c, states(i), moves(i));
    NoEndlessDrain(c, states, moves, i + 1);
  }

  type Measure = System -> (nat, nat, nat, nat, nat)

  /** From a good state the chosen move can be made, leads to a good state, and leaves less work. */
  ghost predicate Headway(f: Mover, good: System -> bool, next: System -> Move, work: Measure) {
    forall t :: good(t) && !Finished(t) ==>
      && Draining(next(t)) && f(t, next(t)).Some?
      && good(f(t, next(t)).value) && Less(work(f(t, next(t)).value), work(t))
  }

  lemma {:induction false} HeadwayFinishes(
      f: Mover, good: System -> bool, next: System -> Move, work: Measure, from: System, moves: seq<Move>, s: System)
    returns (rest: seq<Move>, end: System)
    requires Headway(f, good, next, work) && Follow(f, from, moves) == Some(s) && good(s)
    ensures forall i :: 0 <= i < |rest| ==> Draining(rest[i])
    ensures Follow(f, from, moves + rest) == Some(end) && Finished(end)
    decreases work(s).0, work(s).1, work(s).2, work(s).3, work(s).4
  {
    if Finished(s) {
      rest, end := [], s;
      assert moves + rest == moves;
    } else {
      var m := next(s);
      assert (moves + [m])[..|moves|] == moves;
      rest, end := HeadwayFinishes(f, good, next, work, from, moves + [m], f(s, m).value);
      assert moves + ([m] + rest) == moves + [m] + rest;
      rest := [m] + rest;
    }
  }

  lemma DrainsMakeHeadway(c: Setup, now: u64)
    requires c.sampleCap >= 1 && c.recordCap >= 1
    ensures Headway(MoverOf(c), t => Orderly(c, t) && t.stop, t => NextMove(t, now), t => Work(t))
  {
    forall t | Orderly(c, t) && t.stop && !Finished(t)
      ensures var m := NextMove(t, now);
              && Draining(m) && Make(c, t, m).Some?
              && Orderly(c, Make(c, t, m).value) && Make(c, t, m).value.stop
              && Less(Work(Make(c, t, m).value), Work(t))
    {
      NeverStuck(c, t, now);
      OrderlyAfterMove(c, t, NextMove(t, now));
      DrainingLeavesLess(c, t, NextMove(t, now));
    }
  }

  /** From any state reached with the stop flag up, draining moves finish all three tasks. */
  lemma DrainsToTheEnd(c: Setup, moves: seq<Move>, now: u64) returns (rest: seq<Move>, end: System)
    requires Reached(c, moves).Some? && Reached(c, moves).value.stop && c.sampleCap >= 1 && c.recordCap >= 1
    ensures forall i :: 0 <= i < |rest| ==> Draining(rest[i])
    ensures Reached(c, moves + rest) == Some(end) && Finished(end)
  {
    AlwaysConserved(c, moves);
    DrainsMakeHeadway(c, now);
    rest, end := HeadwayFinishes(
      MoverOf(c), t => Orderly(c, t) && t.stop, t => NextMove(t, now), t => Work(t), Initially(c), moves,
      Reached(c, moves).value);
  }

  /**
   * Once all tasks have finished: the engine saw exactly the samples of all datagrams in
   * order, the output saw exactly the records the engine made of them in order, and the
   * counters of the three tasks agree, in total and per rule.
   */
  lemma EndOfRun(c: Setup, moves: seq<Move>, id: string)
    requires Reached(c, moves).Some? && Finished(Reached(c, moves).value)
    ensures var s := Reached(c, moves).value;
            && Consumed(s.past.events) == AllSamples(c.fp, c.cat, Datagrams(moves))
            && s.past.delivered == Total(c.env, c.start, s.past.events).records
            && s.ingest.framesDecoded == s.task.samples
            && s.output.recordsWritten + s.output.writeErrors == Sum(s.task.records)
            && Count(s.task.records, id) == |OnlyRecords(s.past.delivered, id)|
  {
    var s := Reached(c, moves).value;
    AlwaysConserved(c, moves);
    DecodedAll(c, moves);
    assert Consumed(s.past.events) + [] + [] == Consumed(s.past.events);
    assert s.past.delivered + [] + [] == s.past.delivered;
    RecordCounts(map[], s.past.delivered, id);
    SumOfBumps(RecordIds(s.past.delivered));
  }

  /** All counters together. */
  ghost function Sum(c: CounterTable): nat
    decreases |c|
  {
    if c == map[] then 0
    else
      var id :| id in c;
      c[id] + Sum(c - {id})
  }

  lemma {:induction false} SumSplit(c: CounterTable, id: string)
    requires id in c
    ensures Sum(c) == c[id] + Sum(c - {id})
    decreases |c|
  {
    var k :| k in c && Sum(c) == c[k] + Sum(c - {k});
    if k != id {
      SumSplit(c - {k}, id);
      SumSplit(c - {id}, k);
      assert c - {k} - {id} == c - {id} - {k};
    }
  }

  lemma SumOfBump(c: CounterTable, id: string)
    ensures Sum(Bump(c, id)) == Sum(c) + 1
  {
    SumSplit(Bump(c, id), id);
    assert Bump(c, id) - {id} == c - {id};
    if id in c {
      SumSplit(c, id);
    } else {
      assert c - {id} == c;
    }
  }

  lemma {:induction false} SumOfBumps(ids: seq<string>)
    ensures Sum(Bumps(map[], ids)) == |ids|
  {
    if ids != [] {
      SumOfBumps(ids[..|ids| - 1]);
      SumOfBump(Bumps(map[], ids[..|ids| - 1]), ids[|ids| - 1]);
    }
  }
}
