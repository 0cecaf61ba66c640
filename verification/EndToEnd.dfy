/** From datagrams to records: what a whole finished execution delivers for one rule. */
module EndToEnd {
  import opened Prelude
  import opened Condition
  import opened Rules
  import opened EngineSpec
  import opened EngineRuns
  import opened EngineTask
  import opened NonInterference
  import opened Ingest
  import opened Rotation
  import opened Retention
  import opened Pipeline

  lemma {:induction false} OnlyRecordsConcat(a: seq<LogRecord>, b: seq<LogRecord>, id: string)
    ensures OnlyRecords(a + b, id) == OnlyRecords(a, id) + OnlyRecords(b, id)
  {
    if b == [] {
      assert a + b == a;
    } else {
      assert (a + b)[..|a + b| - 1] == a + b[..|b| - 1];
      OnlyRecordsConcat(a, b[..|b| - 1], id);
    }
  }

  /** The events an execution feeds the engine are samples and ticks. */
  predicate NoSwaps(h: Run) {
    forall i :: 0 <= i < |h| ==> !h[i].Swapped?
  }

  /** One more event: what the engine with only `id` records is `id`'s share. */
  lemma NextRecordsAlone(env: Env, s: EngineState, h: Run, e: Event, id: string)
    requires Consistent(s) && ValidEvents(h) && ValidEvent(e)
    ensures Next(env, After(env, AloneState(s, id), AloneRun(h, id)), AloneEvent(e, id)).1.records
         == OnlyRecords(Next(env, After(env, s, h), e).1.records, id)
  {
    RunAlone(env, s, h, |h|, id);
    RunConsistent(env, s, h, |h|);
    AloneNext(env, After(env, s, h), e, id);
  }

  function RecordsOf(env: Env, s: EngineState, h: Run): seq<LogRecord> {
    Total(env, s, h).records
  }

  lemma RecordsSnoc(env: Env, s: EngineState, h: Run, e: Event)
    ensures RecordsOf(env, s, h + [e]) == RecordsOf(env, s, h) + Next(env, After(env, s, h), e).1.records
  {
    TotalSnoc(env, s, h, e);
  }

  lemma OneMoreShare(total: seq<LogRecord>, r: seq<LogRecord>, alone: seq<LogRecord>, own: seq<LogRecord>, id: string)
    requires OnlyRecords(total, id) == alone && OnlyRecords(r, id) == own
    ensures OnlyRecords(total + r, id) == alone + own
  {
    OnlyRecordsConcat(total, r, id);
  }

  lemma AloneRunSnoc(h: Run, e: Event, id: string)
    ensures AloneRun(h + [e], id) == AloneRun(h, id) + [AloneEvent(e, id)]
  {
  }

  /** What one more event adds to the records of a run, in company and alone. */
  lemma NextRecords(env: Env, s: EngineState, h: Run, e: Event, id: string)
    returns (r: seq<LogRecord>, own: seq<LogRecord>)
    requires Consistent(s) && ValidEvents(h) && ValidEvent(e)
    ensures RecordsOf(env, s, h + [e]) == RecordsOf(env, s, h) + r && own == OnlyRecords(r, id)
    ensures RecordsOf(env, AloneState(s, id), AloneRun(h, id) + [AloneEvent(e, id)])
         == RecordsOf(env, AloneState(s, id), AloneRun(h, id)) + own
  {
    RecordsSnoc(env, s, h, e);
    RecordsSnoc(env, AloneState(s, id), AloneRun(h, id), AloneEvent(e, id));
    NextRecordsAlone(env, s, h, e, id);
    r := Next(env, After(env, s, h), e).1.records;
    own := OnlyRecords(r, id);
  }

  lemma RecordsAloneSnoc(env: Env, s: EngineState, h: Run, e: Event, id: string)
    requires Consistent(s) && ValidEvents(h) && ValidEvent(e)
    requires OnlyRecords(RecordsOf(env, s, h), id) == RecordsOf(env, AloneState(s, id), AloneRun(h, id))
    ensures OnlyRecords(RecordsOf(env, s, h + [e]), id) == RecordsOf(env, AloneState(s, id), AloneRun(h + [e], id))
  {
    var r, own := NextRecords(env, s, h, e, id);
    AloneRunSnoc(h, e, id);
    OneMoreShare(RecordsOf(env, s, h), r, RecordsOf(env, AloneState(s, id), AloneRun(h, id)), own, id);
  }

  /** Rule `id`'s records over a run are all the records of the engine that has only this rule. */
  lemma {:induction false} RecordsAlone(env: Env, s: EngineState, h: Run, id: string)
    requires Consistent(s) && ValidEvents(h)
    ensures OnlyRecords(RecordsOf(env, s, h), id) == RecordsOf(env, AloneState(s, id), AloneRun(h, id))
  {
    if h == [] {
      assert AloneRun(h, id) == [];
    } else {
      var g, e := h[..|h| - 1], h[|h| - 1];
      assert h == g + [e];
      RecordsAlone(env, s, g, id);
      RecordsAloneSnoc(env, s, g, e, id);
    }
  }

  lemma EventByMove(c: Setup, s: System, m: Move)
    requires Make(c, s, m).Some? && NoSwaps(s.past.events)
    ensures NoSwaps(Make(c, s, m).value.past.events)
  {
  }

  lemma {:induction false} NeverSwaps(c: Setup, moves: seq<Move>)
    requires Reached(c, moves).Some?
    ensures NoSwaps(Reached(c, moves).value.past.events)
  {
    if moves != [] {
      var n := |moves| - 1;
      NeverSwaps(c, moves[..n]);
      EventByMove(c, Reached(c, moves[..n]).value, moves[n]);
    }
  }

  /**
   * When all tasks have finished, whatever the interleaving was, the output has seen of each
   * rule exactly the records an engine with this one rule makes of the samples of all
   * datagrams, in order, and of the same ticks.
   */
  lemma DeliveredAlone(c: Setup, moves: seq<Move>, id: string)
    requires Reached(c, moves).Some? && Finished(Reached(c, moves).value) && Consistent(c.start)
    ensures var s := Reached(c, moves).value;
            && Consumed(s.past.events) == AllSamples(c.fp, c.cat, Datagrams(moves))
            && OnlyRecords(s.past.delivered, id)
               == RecordsOf(c.env, AloneState(c.start, id), AloneRun(s.past.events, id))
  {
    EndOfRun(c, moves, id);
    NeverSwaps(c, moves);
    RecordsAlone(c.env, c.start, Reached(c, moves).value.past.events, id);
  }

  // ---- down to the files ------------------------------------------------

  /** No write fails, other than for a record that does not serialise. */
  predicate NoIoFailure(moves: seq<Move>) {
    forall i :: 0 <= i < |moves| ==> moves[i] != WriteRecord(false)
  }

  function Serialized(ser: Serializer, records: seq<LogRecord>): seq<Option<Line>> {
    seq(|records|, i requires 0 <= i < |records| => ser(records[i]))
  }

  /** Only a successful write of a record that serialises adds a line. */
  lemma WrittenByMove(c: Setup, s: System, m: Move)
    requires Make(c, s, m).Some? && m != WriteRecord(false)
    ensures var past, past' := s.past, Make(c, s, m).value.past;
            if m.WriteRecord?
            then s.recordQueue != [] && past'.delivered == past.delivered + [s.recordQueue[0]]
                 && past'.written == past.written
                    + match c.serialize(s.recordQueue[0]) { case Some(line) => [line] case None => [] }
            else past'.delivered == past.delivered && past'.written == past.written
  {
  }

  lemma SerializedSnoc(ser: Serializer, records: seq<LogRecord>, record: LogRecord)
    ensures Lines(Serialized(ser, records + [record])) ==
            Lines(Serialized(ser, records)) + match ser(record) { case Some(line) => [line] case None => [] }
  {
    assert Serialized(ser, records + [record]) == Serialized(ser, records) + [ser(record)];
    LinesSnoc(Serialized(ser, records), ser(record));
  }

  /** The lines written are the delivered records that serialise, in order. */
  lemma {:induction false} WrittenIsDelivered(c: Setup, moves: seq<Move>)
    requires Reached(c, moves).Some? && NoIoFailure(moves)
    ensures var past := Reached(c, moves).value.past; past.written == Lines(Serialized(c.serialize, past.delivered))
  {
    if moves != [] {
      var n := |moves| - 1;
      WrittenIsDelivered(c, moves[..n]);
      var s := Reached(c, moves[..n]).value;
      WrittenByMove(c, s, moves[n]);
      if moves[n].WriteRecord? {
        SerializedSnoc(c.serialize, s.past.delivered, s.recordQueue[0]);
      }
    }
  }

  /**
   * From datagrams to files: when all tasks have finished and no write has failed, the kept
   * files are a suffix of what the directory held and then the serialised records of the
   * engine's run on the samples of all datagrams; every other record counts as an error.
   */
  lemma FilesAtEnd(c: Setup, moves: seq<Move>, maxBytes: nat, maxFiles: nat, d: Files<byte>)
    requires Reached(c, moves).Some? && Finished(Reached(c, moves).value) && NoIoFailure(moves)
    requires maxFiles >= 1 && 0 in d
    ensures var s := Reached(c, moves).value;
            var lines := Lines(Serialized(c.serialize, RecordsOf(c.env, c.start, s.past.events)));
            && Consumed(s.past.events) == AllSamples(c.fp, c.cat, Datagrams(moves))
            && s.past.written == lines && s.output.recordsWritten == |lines|
            && s.output.writeErrors == |RecordsOf(c.env, c.start, s.past.events)| - |lines|
            && IsSuffix(Retained(WrittenAll(maxBytes, maxFiles, d, s.past.written), maxFiles),
                        Retained(d, maxFiles) + Stream(lines))
  {
    EndOfRun(c, moves, "");
    AlwaysConserved(c, moves);
    WrittenIsDelivered(c, moves);
    KeepsSuffix(maxBytes, maxFiles, d, Reached(c, moves).value.past.written);
  }
}
