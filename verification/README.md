# Verified model of the telemetry daemon

The daemon receives vehicle signals in UDP datagrams, decodes them with a catalog, feeds the
samples to a rule engine, and writes the records the rules make to size-rotated files. This
project models those parts in Dafny and proves what they promise over all inputs and all runs.
`dafny verify dfyconfig.toml` checks everything.

## How it is organised

Each part that the source writes as code changing state (the byte cursor, the encoder and decoder
loops, the catalog builder, the syntax-tree worklist, the rule compiler, the rule engine, the
rotating writer, the loops of the three tasks) is a method or a class with methods. Its contract ties the result
or the new state to a specification function, and the lemmas prove what that function means.

| files | what they hold |
|---|---|
| `Prelude`, `Bytes` | machine words with saturating arithmetic; integers as bytes in both orders |
| `Catalog`, `Values`, `ValueMeaning`, `FloatRoundTrip` | catalog tables; payload and value conversion; what payloads mean; rounding of doubles |
| `Packet`, `PacketTheorems`, `WireLayout` | packets as frames: cursor, decoder, encoder; round trips, reports, cut and padded datagrams; the bytes of each field |
| `Condition`, `Rules`, `Compile` | condition check and evaluation; rule set validation |
| `EngineSpec`, `Engine` | the engine as a state machine that scans all rules; the engine object with its watcher index |
| `EngineRuns`, `History`, `NonInterference`, `SwapTransparency`, `Cadence`, `Reconstruction`, `Gating` | theorems about whole runs of samples, ticks and swaps |
| `Rotation`, `Retention` | the rotating writer; what its files hold after any number of lines |
| `Ingest`, `EngineTask`, `Pipeline`, `EndToEnd` | the loops of the three tasks; the tasks interleaved over bounded queues |

## What is proved

1. **The engine is its history.** In every reachable state the engine's table of latest values,
   every rule's last logged value and due time, and every report equal what can be read off the
   complete log of events and reports, with no state kept in between (`EngineMatchesHistory`). The
   object with its per-signal index refines the machine that scans every rule.
2. **Rules do not disturb each other.** Over any run a rule's records, errors and stale skips are
   those of an engine that has this rule alone (`RunNonInterference`); `DeliveredAlone` carries this
   through the concurrent pipeline to what the output task receives.
3. **Swaps.** Swapping in the same definitions, in any order and under any version, changes nothing
   but the version in later records; over a chain of swaps a rule keeps its state exactly as long
   as its definition stays.
4. **Cadence.** No drift: while no slot is missed, the due time is the first one plus the interval
   in the rule's definition for every firing (`SteadyCadence`). No bursts over whole runs, the deadline
   contract, and the one exception: with the clock at its last value a due rule fires at every tick.
5. **What is recorded.** What each rule reports at each sample and tick follows from its definition
   and the log alone: the deadband, the maximum age, and what its condition's program returns on the
   last samples of its signals (`WatchingRuleReports`, `DueRuleReports`, `SampleObeysCondition`,
   `TickObeysCondition`). So the last record of an unconditional `on_change` rule is within the
   deadband of the signal's latest value, and consecutive records are further apart.
6. **Wire format.** Encoding and parsing are inverse both ways; every byte of a packet has its place;
   every frame is exactly one of sample, error and unknown, as the catalog and its payload say; a cut
   datagram decodes to a prefix; appended bytes only add a trailing-bytes report.
7. **Values.** Payload to value to payload, including rounded arithmetic of doubles for raw values
   within 2^46, and the exact condition beyond that for the default scaling; value to payload to value
   exactly when the enum keys parse to distinct integers, and through whole packets.
8. **Rotation.** Lost bytes, then kept bytes, are the initial contents and then every line written;
   from an empty directory the files hold whole lines, nothing is lost before all files exist, and
   each pair of neighbouring files exceeds the limit.
9. **Pipeline.** Under any interleaving and any queue bounds of at least one, nothing is lost,
   duplicated or reordered; after stop the tasks never deadlock and drain to the end; the counters
   of the three tasks agree. `FilesAtEnd` follows the datagrams down to the rotated files.
10. **Validation.** The worklist check accepts exactly the allowed trees; a rule set compiles exactly
    when it is valid; each compiled rule has the timing, deadband, unit and condition its document
    asks for and meets everything the engine relies on; which faults are reported is known exactly.

## Where the code and its documentation differ

- README.md:53 of the repository says up to `max_files` files are kept. The rotation never touches
  a file whose index is `max_files` or more, so after `max_files` is lowered old files stay.
  `FileLimitIff`: the number of files stays within the limit, whatever is written, if and only if no
  such file exists at the start. `LeftoverExample` makes three files under a limit of two.
- crates/protocol/src/wire.rs:349 calls `encode_value` the inverse of `decode_value`. Two catalog keys
  such as `"1"` and `"01"` name the same raw value, and then a label decodes to another one:
  `LabelsRoundTripIff` gives the exact condition and `CollidingKeysLoseLabel` an instance. An integer
  payload is lost when the arithmetic of doubles rounds it away, in two ways whose exact conditions
  are proved. A 64-bit integer may round in the cast: with the default scale and offset a payload survives if and only if
  its raw value has at most 53 significant bits (`PayloadSurvivesIff`, instance `WidePayloadChanges`).
  A large offset may swallow a narrow raw value: with scale one and a whole offset the payload of a
  raw value below 2^53 survives if and only if their sum has at most 53 significant bits
  (`OffsetPayloadSurvivesIff`, instance `NarrowPayloadChanges`). For any scale, offsets within 2^50
  scale steps and raw values within 2^46 are safe (`PayloadSurvivesRounding`).
- The cadence comment at crates/rules/src/engine.rs:183-184 promises no burst. At the largest clock
  value saturation keeps the due time at the clock, and a due rule fires at every tick, in any state
  (`BurstAtClockEnd`, `RecordBurstAtClockEnd`). `NoBurstIff`: runs within a clock bound have no bursts
  if and only if the bound is below that value.
- docs/RULES.md:80 says every failure is reported at once. Each rule is reported once, for the first
  fault checked, its condition for the first faulty node visited, and the rules of an oversized set
  not at all. `EveryFaultReportedIff`: every fault of every rule, those of its condition included, is
  reported if and only if no rule has two faults, and the set is within the limit or has no fault.
  `OversizedExample`, `RepeatedExample`, `TwoFaultsExample` and `ConditionFaultsExample` are instances.

## Model

| member | source | states |
|---|---|---|
| Bytes.BeReadWrite | crates/protocol/src/wire.rs:126-136 | reading big-endian bytes and writing the value back gives the same bytes |
| Bytes.LeIsReversedBe | crates/protocol/src/wire.rs:223-226 | little-endian reading is big-endian reading of the reversed bytes |
| Catalog.NewSignal | crates/protocol/src/catalog.rs:158-208 | succeeds exactly on valid definitions, and then both enum tables are the ones the entries determine; an error is that of the first check that fails |
| Catalog.BuildTables | crates/protocol/src/catalog.rs:184-201 | fails on the first bad key, range, empty or repeated label; otherwise the tables hold every entry |
| Catalog.LabelTableFinds | crates/protocol/src/catalog.rs:197-199 | with distinct labels every label finds its own key |
| Catalog.RawTableFinds | crates/protocol/src/catalog.rs:200 | a raw value finds the label of the last entry whose key parses to it |
| Catalog.DecimalParses | crates/protocol/src/catalog.rs:185-187 | the decimal text of every integer within i128, a leading minus sign included, parses to that integer |
| Catalog.NewCatalog | crates/protocol/src/catalog.rs:271-296 | succeeds exactly on valid documents: non-blank model, distinct ids and names, valid signals; an error is that of the first bad signal: repeated id, repeated name, or its own |
| Catalog.ByIdFindsExactly | crates/protocol/src/catalog.rs:310-312 | lookup by id finds a signal if and only if it is in the document under that id |
| Catalog.ByNameFindsExactly | crates/protocol/src/catalog.rs:314-316 | lookup by name finds a signal if and only if it is in the document under that name |
| Values.IntWriteRead | crates/protocol/src/wire.rs:244-272 | two's complement: what is written reads back, any width, sign and byte order |
| Values.IntReadWrite | crates/protocol/src/wire.rs:219-238 | what is read writes back to the same bytes and is in range |
| Values.FitsIsIntRange | crates/protocol/src/catalog.rs:55-68 | an integer fits the wire type exactly when it is in the catalog's range of that type |
| Values.RawWriteRead | crates/protocol/src/wire.rs:219-286 | a raw integer is written exactly when it fits its wire type, and then reads back |
| Values.RawReadWrite | crates/protocol/src/wire.rs:219-286 | an integer payload of the right size reads to a raw value that writes the same payload |
| Values.ByteOrdersMirror | crates/protocol/src/wire.rs:223-226 | one byte order is the other with the bytes reversed, reading and writing |
| Values.PayloadRoundTrip | crates/protocol/src/wire.rs:289-321 | a bool or enum payload that decodes encodes back to the same bytes |
| Values.LabelSurvivesIff | crates/protocol/src/wire.rs:302-305 | a label survives encoding and decoding exactly when no later entry has the same parsed key |
| Values.LabelsRoundTripIff | crates/protocol/src/catalog.rs:184-201 | all labels survive exactly when the parsed keys are distinct |
| Values.CollidingKeysLoseLabel | crates/protocol/src/catalog.rs:184-201 | a concrete catalog entry whose label decodes to another label |
| Values.NumberRejectedIff | crates/protocol/src/wire.rs:365-392 | an integer signal rejects a number exactly when its rounded raw value is out of range, and never clamps it |
| Values.NumberWithinHalfStep | crates/protocol/src/wire.rs:365-392 | in exact arithmetic an encoded number decodes to within half a scale step |
| ValueMeaning.WrongLength | crates/protocol/src/wire.rs:291-297 | a payload of another size is refused with the expected and the actual size |
| ValueMeaning.DecodedBool | crates/protocol/src/wire.rs:300-301 | the bytes 0 and 1 are false and true, any other byte is invalid |
| ValueMeaning.DecodedEnum | crates/protocol/src/wire.rs:302-305 | an enum payload is the label of the last entry with its raw value, and invalid without one |
| ValueMeaning.DecodedNumber | crates/protocol/src/wire.rs:306-318 | a number, float or integer, is the raw value times the scale plus the offset, rounded at each step, and invalid exactly when a step is not finite |
| ValueMeaning.DecodedExactly | crates/protocol/src/wire.rs:306-314 | in exact arithmetic an integer payload is its raw value times the scale plus the offset |
| ValueMeaning.KindsMustMatch | crates/protocol/src/wire.rs:382-387 | a value of another kind than the signal is refused as such |
| ValueMeaning.EncodedBool | crates/protocol/src/wire.rs:356 | booleans are written as the bytes 0 and 1 |
| ValueMeaning.EncodedLabel | crates/protocol/src/wire.rs:357-364 | a label is written as the key of its entry; any other text is an unknown label |
| ValueMeaning.HalvesAwayFromZero | crates/protocol/src/wire.rs:379 | rounding takes halves away from zero |
| ValueMeaning.FloatsMirror | crates/protocol/src/wire.rs:239-285 | for float payloads, too, one byte order is the other with the bytes reversed, reading and writing |
| ValueMeaning.FloatsSurvive | crates/protocol/src/wire.rs:365-376 | in exact arithmetic, a number of a float signal decodes to itself when the scaled number converts to bytes and back |
| FloatRoundTrip.PayloadSurvivesRounding | crates/protocol/src/wire.rs:306-318 | with every double operation rounding, an integer payload of any width with a raw value within 2^46 survives decoding and encoding |
| FloatRoundTrip.NarrowPayloadSurvives | crates/protocol/src/wire.rs:306-318 | so does every payload of a type of at most 32 bits |
| FloatRoundTrip.NumberWithinOneStep | crates/protocol/src/wire.rs:365-381 | with rounding, an encoded number whose raw value is within 2^46 steps decodes to within one scale step |
| FloatRoundTrip.ExactIffRepresentable | crates/protocol/src/wire.rs:308 | the cast of a 64-bit integer to a double is exact exactly when it has at most 53 significant bits |
| FloatRoundTrip.PayloadSurvivesIff | crates/protocol/src/wire.rs:306-318 | with default scale and offset, an integer payload of any width survives exactly when its raw value has at most 53 significant bits |
| FloatRoundTrip.OffsetPayloadSurvivesIff | crates/protocol/src/wire.rs:306-318 | with scale one and a whole offset, a payload with a raw value below 2^53 survives exactly when raw value plus offset has at most 53 significant bits |
| FloatRoundTrip.SmallOffsetSurvives | crates/protocol/src/wire.rs:306-318 | so it does whenever offset and sum are within 2^53 |
| FloatRoundTrip.NarrowPayloadChanges | crates/protocol/src/wire.rs:306-318 | a one-byte payload with offset 2^54: raw value 1 comes back as 0 |
| FloatRoundTrip.LeastUnrepresentable | crates/protocol/src/wire.rs:308 | 2^53 + 1 is the least positive integer that is not a double |
| FloatRoundTrip.WidePayloadChanges | crates/protocol/src/wire.rs:306-318 | the payload of 2^53 + 1 does not survive when its cast rounds down |
| Packet.Reader.Take | crates/protocol/src/wire.rs:115-120 | gives exactly the next bytes and moves past them, or fails exactly when too few remain and stays |
| Packet.Reader.NextFrame | crates/protocol/src/wire.rs:167-183 | a frame is readable exactly when enough bytes remain, and the id is reported whenever two bytes remain |
| Packet.DecodePacket | crates/protocol/src/wire.rs:144-210 | the result is the header check, then each split frame interpreted in order, then the stop report |
| Packet.DecodeFrame | crates/protocol/src/wire.rs:167-200 | one round: a cut report exactly when no frame is complete, else the next frame's sample, error or unknown count |
| Packet.DecodeComplete | crates/protocol/src/wire.rs:166-201 | the loop splits off and interprets exactly the complete frames, and tells why it stopped |
| Packet.DecodeFrames | crates/protocol/src/wire.rs:165-209 | the loop over the frames equals splitting all frames first and interpreting them after |
| Packet.EncodePacket | crates/protocol/src/wire.rs:409-440 | the specified bytes, or the specified error in the order the limits are checked |
| PacketTheorems.EncodeSucceedsIff | crates/protocol/src/wire.rs:409-437 | encoding succeeds exactly within the frame, payload and datagram limits |
| PacketTheorems.EncodeThenParse | crates/protocol/src/wire.rs:144-210 | an encoded packet parses to exactly its frames with nothing cut and nothing left |
| PacketTheorems.ParseThenEncode | crates/protocol/src/wire.rs:409-440 | a datagram that parses with nothing cut and nothing left is the encoding of its frames |
| PacketTheorems.DecodeOfEncode | crates/protocol/src/wire.rs:144-210 | decoding an encoded packet visits exactly the frames and reports no stop error |
| PacketTheorems.ReadingsRoundTripIff | crates/protocol/src/wire.rs:396-406 | a packet of encoded values decodes to exactly those values, in order and nothing else, exactly when each value survives its own encoding |
| PacketTheorems.BoolsAndLabelsSurvive | crates/protocol/src/wire.rs:355-364 | booleans always survive, and labels exactly when they survive the catalog's tables |
| PacketTheorems.FramesAccounted | crates/protocol/src/wire.rs:184-200 | samples, errors and unknown signals add up to the frames, and error indices strictly increase |
| PacketTheorems.ErrorAtIff | crates/protocol/src/wire.rs:188-200 | a frame index has an error exactly when that frame is one of a known signal and does not decode |
| PacketTheorems.FrameReports | crates/protocol/src/wire.rs:184-200 | a frame of an unknown signal has no error; one of a known signal has none if its payload decodes, and otherwise exactly one, with its index, its id and the reason |
| PacketTheorems.DatagramReports | crates/protocol/src/wire.rs:165-209 | the same of every complete frame of a whole datagram |
| PacketTheorems.UnknownCounted | crates/protocol/src/wire.rs:184-187 | unknown signals are counted by complete frame |
| PacketTheorems.SamplesDecoded | crates/protocol/src/wire.rs:188-194 | the samples are the values of the known frames that decode, in order, whatever the others are |
| PacketTheorems.DatagramTotals | crates/protocol/src/wire.rs:165-209 | the same of a whole datagram: its samples, and its number of unknown frames |
| PacketTheorems.SampleInOrder | crates/protocol/src/wire.rs:189-194 | a frame's sample sits right behind the samples of the earlier frames |
| PacketTheorems.PacketAccounted | crates/protocol/src/wire.rs:165-209 | truncated and trailing never both occur, stop errors come last, and the totals add up |
| PacketTheorems.CutKeepsPrefix | crates/protocol/src/wire.rs:165-209 | a datagram cut to any length of at least four decodes to a prefix |
| PacketTheorems.PaddingOnlyTrails | crates/protocol/src/wire.rs:202-208 | bytes appended within the limit change only the trailing-bytes report |
| WireLayout.BigEndianPlaces | crates/protocol/src/wire.rs:130-136 | in a big-endian number the first byte counts most |
| WireLayout.SignedReads | crates/protocol/src/wire.rs:231-238 | two's complement: a set top bit takes off 256 to the number of bytes |
| WireLayout.EncodedHeader | crates/protocol/src/wire.rs:425-428 | an encoded packet starts with "TE", version 1 and the number of frames, and is as long as its frames make it |
| WireLayout.EncodedFrame | crates/protocol/src/wire.rs:429-438 | each frame sits behind the earlier ones: two bytes of id, eight of timestamp, one of length, the payload |
| WireLayout.EncodeErrorIs | crates/protocol/src/wire.rs:409-433 | which error encoding fails with: the first exceeded limit, or the first payload that is too long |
| WireLayout.HeaderVerdict | crates/protocol/src/wire.rs:145-163 | what a datagram is rejected for, byte by byte, in the order of the checks |
| WireLayout.ScanLeaves | crates/protocol/src/wire.rs:166-183 | complete frames lie one behind the other; scanning stops where the last one ends, for want of a complete frame or of frames to read |
| WireLayout.StopReport | crates/protocol/src/wire.rs:167-208 | what is reported behind the frame errors: a cut frame, with its id if two bytes of it are there, or the number of trailing bytes |
| Condition.CheckAst | crates/rules/src/condition.rs:98-142 | the worklist returns what the recursive definition does, and terminates |
| Condition.CheckAcceptsExactly | crates/rules/src/condition.rs:98-142 | accepted exactly when all nodes are allowed and the depth is within the limit; names are strictly sorted and exactly those that occur |
| Condition.SortedUnique | crates/rules/src/condition.rs:99-141 | a strictly sorted list is determined by its members |
| Condition.CompileCondition | crates/rules/src/condition.rs:50-63 | succeeds exactly on sources within 512 characters, not blank, that parse to an allowed tree of at most 24 levels, and then holds that tree and exactly the identifiers that occur in it |
| Condition.ConditionAcceptsExactly | crates/rules/src/condition.rs:50-63 | the same of the specified result, and an error names a requirement the source fails |
| Condition.CompiledUnique | crates/rules/src/condition.rs:28-32 | a compiled condition is determined by its source: there is one tree and one list of signals |
| Condition.FirstErrorIsFirst | crates/rules/src/condition.rs:98-142 | of all faults of all nodes of a tree, below faulty nodes too, the check reports the first in its visiting order |
| Condition.ConditionReportsFirst | crates/rules/src/condition.rs:50-63 | of all faults of a source (length, blank text, syntax, every faulty node) the first is reported, and none exactly on success |
| Condition.EvaluateCondition | crates/rules/src/condition.rs:72-93 | a missing signal gives false before the program runs; otherwise the result is what the program's outcome on the listed signals' values says: its boolean, not-a-boolean, or its failure |
| Condition.VerdictExactly | crates/rules/src/condition.rs:72-93 | the four cases over the interpreter alone, for the context that binds exactly the listed signals, booleans to booleans, numbers to floats, labels to strings |
| Condition.ProgramFullyBound | crates/rules/src/condition.rs:76-88 | when the program runs, every identifier in its tree is bound |
| Condition.EvaluateLocal | crates/rules/src/condition.rs:72-93 | the verdict depends on the values of the referenced signals only |
| Compile.CompileRule | crates/rules/src/compile.rs:196-258 | the first fault in source order, or the rule compiled as written: exactly its interval, its maximum age or three intervals, its deadband or none, the catalog's unit, and the condition compiled from its own source |
| Compile.SpecAsWritten | crates/rules/src/compile.rs:205-258 | the same of the specified result: timing and deadband, unit and condition are those the rule's own fields ask for |
| Compile.CompileRuleIff | crates/rules/src/compile.rs:196-258 | a rule compiles exactly when it is valid, stated without the order of checks |
| Compile.CompileRules | crates/rules/src/compile.rs:153-168 | one report per rule in order; a repeated id hides other faults |
| Compile.CompileRuleset | crates/rules/src/compile.rs:126-187 | a compiled set in the same order, each rule compiled as written, exactly when there is no error, else all errors |
| Compile.NoErrorsIff | crates/rules/src/compile.rs:126-187 | no error exactly on valid sets: newer, right model, at most 256 rules, distinct ids, all rules valid |
| Compile.SetErrorIff | crates/rules/src/compile.rs:133-151 | the errors about the set as a whole, each reported exactly when it applies: not newer, another model, too many rules |
| Compile.RuleErrorsCount | crates/rules/src/compile.rs:157-166 | exactly one error for each repeated or invalid rule |
| Compile.RuleErrorAt | crates/rules/src/compile.rs:157-166 | the error of a bad rule stands behind those of the earlier bad rules and names it |
| Compile.EveryBadRuleReportedIff | crates/rules/src/compile.rs:147-166 | every failing rule is named by some error exactly when the set is not oversized or no rule fails |
| Compile.ReportIsFirstFault | crates/rules/src/compile.rs:196-251 | of all faults of a rule, each stated by itself, exactly the first one checked is reported |
| Compile.FaultFreeIff | crates/rules/src/compile.rs:196-251 | a rule has no fault exactly when it is valid and its id is new |
| Compile.ReportsAgainstFaults | crates/rules/src/compile.rs:157-166 | the reports are all faults when no rule has two, and fewer than the faults otherwise |
| Compile.EveryFaultReportedIff | crates/rules/src/compile.rs:126-187 | every fault of every rule is reported exactly when no rule has two faults and an oversized set has none |
| Compile.OversizedExample | crates/rules/src/compile.rs:147-151 | an oversized set whose faults go unreported |
| Compile.RepeatedExample | crates/rules/src/compile.rs:158-161 | a repeated id that hides a second fault |
| Compile.TwoFaultsExample | crates/rules/src/compile.rs:198-203 | a single rule with two faults, one of them reported |
| Compile.ConditionFaultsExample | crates/rules/src/condition.rs:107-139 | a condition with an unknown signal and a field access: only the field access is reported |
| Compile.CompiledIsWellFormed | crates/rules/src/compile.rs:172-177 | a compiled set meets every precondition of the engine |
| Rules.WellFormedAsAsked | crates/rules/src/compile.rs:205-241 | every rule of a well-formed set has the behaviour its own definition asks for |
| EngineSpec.ByIdFinds | crates/rules/src/engine.rs:86-87 | with distinct ids each rule is found under its id |
| EngineSpec.NextConsistent | crates/rules/src/engine.rs:84-206 | every operation keeps one state per active rule and a due time for exactly the periodic ones |
| EngineSpec.StepInRuleOrder | crates/rules/src/engine.rs:137-204 | in a report, what a rule has to tell stands right behind what the earlier rules of the document have |
| Engine.RuleEngine.constructor | crates/rules/src/engine.rs:65-75 | a new engine has the empty rule set, no values and no states |
| Engine.RuleEngine.ApplyRuleset | crates/rules/src/engine.rs:84-120 | the new state is the specified swap, and the index again lists exactly the watchers |
| Engine.ReconcileStates | crates/rules/src/engine.rs:88-108 | the loop keeps the state of unchanged definitions and starts every other rule afresh |
| Engine.BuildIndex | crates/rules/src/engine.rs:110-118 | the index lists, per signal, exactly the matching rules in rule order |
| Engine.WatchersExact | crates/rules/src/engine.rs:59-60 | the listed indices are exactly the on-change rules of the signal, strictly increasing |
| Engine.RuleEngine.OnSample | crates/rules/src/engine.rs:123-162 | visiting only the watchers gives the state and report of visiting every rule; WatchingRuleReports, SampleRecord and SampleObeysCondition say what they are |
| Engine.RuleEngine.Tick | crates/rules/src/engine.rs:165-206 | state and report are those of stepping every rule at this clock reading; NextSlot, DueRuleReports, TickRecord and TickObeysCondition say what they are |
| Engine.RuleEngine.NextDeadlineMs | crates/rules/src/engine.rs:209-211 | the least due time of all states, none exactly when no rule has one |
| Engine.NextWatcher | crates/rules/src/engine.rs:134-137 | passing over the rules between two watchers changes nothing |
| Engine.HalfwayStates | crates/rules/src/engine.rs:169-204 | updating states one rule at a time equals updating all at once, for distinct ids |
| EngineRuns.StepShare | crates/rules/src/engine.rs:137-160 | a rule's new state and its part of a report follow from its own state alone |
| EngineRuns.OnlyReports | crates/rules/src/engine.rs:169-205 | the entries of a report that carry a rule's id are what that rule reports |
| NonInterference.AloneNext | crates/rules/src/engine.rs:84-206 | one event in the engine with one rule is that rule's part of the event in the full engine |
| NonInterference.RunNonInterference | crates/rules/src/engine.rs:84-206 | over any run each rule reports as if it were alone |
| SwapTransparency.SwapKeepsState | crates/rules/src/engine.rs:84-119 | the same definitions in any order keep the latest values and every state |
| SwapTransparency.SwapExactly | crates/rules/src/engine.rs:84-120 | rule by rule: a rule with the very definition it had keeps its state; any other has logged nothing and, if periodic, is first due one interval from now; values stay; nothing is reported |
| SwapTransparency.SameCompilation | crates/rules/src/compile.rs:196-258 | equal definitions compile to equal rules under one catalog |
| SwapTransparency.SwapInvisible | crates/rules/src/engine.rs:84-119 | after swapping in a set compiled from the same definitions, latest values and states are kept and every later report of every rule is the same but for the version |
| SwapTransparency.SwapChain | crates/rules/src/engine.rs:89-108 | over a chain of swaps a rule keeps its state while its definition is in every set, and is otherwise fresh from the last swap that brought it |
| History.LatestTableExact | crates/rules/src/engine.rs:125-132 | the table has exactly the last sample of each sampled signal |
| History.SinceExact | crates/rules/src/engine.rs:89-97 | the computed swap is where the current definition became active |
| History.LoggedIffRecorded | crates/rules/src/engine.rs:151-203 | the last logged value changes exactly when a record is made, to the recorded value |
| History.EngineMatchesHistory | crates/rules/src/engine.rs:84-206 | in every reachable state the engine and its reports are what the full logs determine |
| Reconstruction.LastRecordReconstructs | crates/rules/src/engine.rs:137-160 | an unconditional on-change rule's last record is within its definition's deadband of the signal's last sample |
| Reconstruction.PassingSampleReconstructs | crates/rules/src/engine.rs:137-160 | after a sample that an on-change rule's condition lets pass, its last record is within the deadband of that sample |
| Reconstruction.RecordsDiffer | crates/rules/src/engine.rs:144-152 | a new record differs from the rule's last one by more than its definition's deadband |
| Reconstruction.SampleRecord | crates/rules/src/engine.rs:151-159 | a record at a sample repeats that sample, and only watchers of its signal make one |
| Reconstruction.WatchingRuleReports | crates/rules/src/engine.rs:137-160 | at a sample of its signal an on-change rule reports nothing while the value is within the deadband of its last record, else what its condition decides; without a record the last one stays as it was |
| Reconstruction.OthersSilentAtSample | crates/rules/src/engine.rs:133-140 | no other rule reports anything at that sample |
| Reconstruction.TickRecord | crates/rules/src/engine.rs:192-203 | a record at a tick repeats the signal's last sample, received within the definition's maximum age, or three intervals |
| Reconstruction.DueRuleReports | crates/rules/src/engine.rs:180-203 | a due rule reports nothing without a value, a stale skip for an old one, else as its condition decides |
| Reconstruction.OthersSilentAtTick | crates/rules/src/engine.rs:169-182 | at a tick, on-change rules and rules that are not due report nothing |
| Reconstruction.LastValueAfter | crates/rules/src/engine.rs:151-201 | a rule's last recorded value changes exactly when it makes a record, to the recorded value |
| Gating.GateExactly | crates/rules/src/engine.rs:233-248 | over the log and the interpreter alone: no condition passes; a signal never sampled gives false; otherwise the program's outcome on the last samples decides |
| Gating.SampleObeysCondition | crates/rules/src/engine.rs:151-159 | a changed sample of a rule with a condition is recorded, dropped or an error that says why, as the program decides on the last samples, this one included |
| Gating.TickObeysCondition | crates/rules/src/engine.rs:199-203 | so is the last sample of a rule that is due, if it is fresh |
| Gating.NameCompiles | crates/rules/src/condition.rs:98-142 | a source that is the bare name of a signal compiles to that condition |
| Gating.SampleGatedBySwitch | crates/rules/src/engine.rs:151-159 | with a condition that is the name of a boolean signal, a changed sample is recorded if and only if that signal was last true |
| Gating.TickGatedBySwitch | crates/rules/src/engine.rs:199-203 | the same for a due tick |
| Cadence.ReschedulePasses | crates/rules/src/engine.rs:185-190 | the next due time passes the clock exactly when the clock is not at its end |
| Cadence.NextSlot | crates/rules/src/engine.rs:180-190 | a due rule moves on by one interval of its definition, or to one interval from now when that slot has gone by too; one that is not due keeps its due time |
| Cadence.FirstSlot | crates/rules/src/engine.rs:98-104 | a rule newly in force is first due one interval from the swap |
| Cadence.SteadyCadence | crates/rules/src/engine.rs:183-190 | no drift: over any run in which no slot is missed and the definition stays, the due time is the first one plus an interval for every firing |
| Cadence.DueAfterFiring | crates/rules/src/engine.rs:98-190 | across any swaps, a later due time is an interval behind the earlier one and behind its firing |
| Cadence.NoBurst | crates/rules/src/engine.rs:165-190 | n firings of one interval below the largest clock value span more than n - 2 intervals, over any run |
| Cadence.NoBurstIff | crates/rules/src/engine.rs:165-190 | over all runs within a clock bound firings are spread out exactly when the bound is below the largest clock value |
| Cadence.RecordFires | crates/rules/src/engine.rs:169-203 | a rule that makes a record at a tick is periodic and due |
| Cadence.NoRecordBurst | crates/rules/src/engine.rs:165-203 | n records that a rule makes at ticks below the largest clock value span more than n - 2 intervals |
| Cadence.BurstAtClockEnd | crates/rules/src/engine.rs:185-190 | at the largest clock value an active periodic rule fires at every tick of any run of ticks |
| Cadence.RecordBurstAtClockEnd | crates/rules/src/engine.rs:185-203 | at the largest clock value an unconditional rule with a fresh value makes a record at every tick |
| Cadence.TickIdleIff | crates/rules/src/engine.rs:208-211 | a tick changes and reports nothing exactly before the deadline |
| Cadence.TickSettles | crates/rules/src/engine.rs:165-206 | a second tick at the same reading does nothing |
| Cadence.DueWindowAfterTick | crates/rules/src/engine.rs:185-190 | after a reachable tick every due time is after the clock and at most an interval ahead |
| Cadence.SampleKeepsDeadline | crates/telemetryd/src/engine_task.rs:47-57 | a sample never moves the deadline the engine task sleeps on |
| Rotation.RotatedFiles | crates/telemetryd/src/output.rs:72-93 | what a rotation leaves at each index, gaps and a single file included |
| Rotation.RotationExactly | crates/telemetryd/src/output.rs:72-93 | the same spelled out: an empty current file, every kept index has what was one below, the last kept file goes only if another takes its place, nothing else is touched |
| Rotation.RotatingWriter.Open | crates/telemetryd/src/output.rs:27-39 | the directory is as found, with an empty current file if there was none; at least one file is kept |
| Rotation.RotatingWriter.WriteAll | crates/telemetryd/src/output.rs:56-57 | whatever part stays in the buffer, the flushed current file is the old one and the data |
| Rotation.RotatingWriter.Rotate | crates/telemetryd/src/output.rs:72-93 | the shifting loop leaves exactly the rotated directory, an empty buffer and size zero |
| Rotation.RotatingWriter.WriteLine | crates/telemetryd/src/output.rs:51-60 | the line and its newline end the current file, after a rotation exactly when due, and the size is that file's length |
| Rotation.WrittenExactly | crates/telemetryd/src/output.rs:51-60 | a line and its newline go behind the current file, or first in a new one if that file is not empty and would pass the limit |
| Rotation.RotatingWriter.WriteBatch | crates/telemetryd/src/output.rs:110-131 | a batch's serialised records are written in order after the earlier ones; written and failed records add up |
| Rotation.RotatingWriter.Drain | crates/telemetryd/src/output.rs:108-143 | every serialised record is written in order and flushed; written and failed records add up |
| Retention.RotateAccounts | crates/telemetryd/src/output.rs:72-93 | a rotation loses at most the last kept file and reorders nothing |
| Retention.WritesAccounted | crates/telemetryd/src/output.rs:51-93 | lost bytes, then kept bytes, are the initial contents and then every line written |
| Retention.KeepsSuffix | crates/telemetryd/src/output.rs:51-93 | the kept files are a suffix of the initial contents and everything written |
| Retention.OnlyKeptIff | crates/telemetryd/src/output.rs:72-93 | files beyond the kept indices are neither made nor removed |
| Retention.FileLimitIff | crates/telemetryd/src/output.rs:72-93 | at most `max_files` files exist whatever is written, exactly when the directory had none beyond the kept indices |
| Retention.LeftoverExceeds | crates/telemetryd/src/output.rs:51-93 | with a file beyond them, `max_files` full lines make one file too many |
| Retention.LeftoverExample | crates/telemetryd/src/output.rs:74-83 | a limit lowered to two, an old fourth file, two full lines: three files |
| Retention.FiledAllAsBytes | crates/telemetryd/src/output.rs:51-60 | keeping lines apart and joining them at the end gives the same files |
| Retention.RetentionBound | crates/telemetryd/src/output.rs:51-93 | from an empty directory: exactly the last lines, all of them until every file exists, and more than the limit per pair of files |
| Retention.NeighboursExceed | crates/telemetryd/src/output.rs:49-60 | from an empty directory, every file and the next younger one together exceed the limit |
| Retention.FileBound | crates/telemetryd/src/output.rs:49-60 | every file is within the limit or is one line and its newline |
| Ingest.SeenDecodesAlike | crates/telemetryd/src/ingest.rs:59-75 | an oversize datagram is rejected as such, never cut to a valid length; others are seen whole |
| Ingest.DatagramShare | crates/telemetryd/src/ingest.rs:75-94 | a datagram's samples are those of its frames that are known and decode, in order; its problems are its reported errors, or the one it is rejected for |
| Ingest.OneMoreDatagram | crates/telemetryd/src/ingest.rs:68-94 | its samples go behind the earlier ones and it adds its own share to every count |
| Ingest.IngestStats.Receive | crates/telemetryd/src/ingest.rs:68-94 | one datagram's samples, and every total moved by exactly its share |
| Ingest.IngestStats.RunUdp | crates/telemetryd/src/ingest.rs:64-106 | the samples of all datagrams are forwarded in order and counted |
| EngineTask.EngineStats.Emit | crates/telemetryd/src/engine_task.rs:67-84 | all records are sent in order and every entry is counted under its rule |
| EngineTask.EngineStats.Run | crates/telemetryd/src/engine_task.rs:35-65 | the loop is the engine run of its ticks and samples: records, state and counters |
| EngineTask.RoundEvents | crates/telemetryd/src/engine_task.rs:44-60 | every round ticks exactly once, and its sample, if any, follows its tick; nothing else happens |
| EngineTask.SamplesAreArrivals | crates/telemetryd/src/engine_task.rs:51-56 | the engine takes in exactly the samples that arrive, in order |
| EngineTask.ReportsInOrder | crates/telemetryd/src/engine_task.rs:45-55 | each event adds its own report behind those of the earlier ones |
| EngineTask.CountersAreShares | crates/telemetryd/src/engine_task.rs:67-84 | a rule's counters are the numbers of its own records, errors and skips |
| EngineTask.SleepsUntilWork | crates/telemetryd/src/engine_task.rs:47-60 | an undisturbed sleep ends exactly when a tick first has work |
| EngineTask.SleepsAMinute | crates/telemetryd/src/engine_task.rs:47-49 | without any deadline it sleeps for a minute, and no tick has work |
| Pipeline.MoveConserves | crates/telemetryd/src/engine_task.rs:44-84 | every step of every task keeps all samples and records, in order, and the counters |
| Pipeline.AlwaysConserved | crates/telemetryd/src/ingest.rs:64-106 | under any interleaving nothing is lost, duplicated or reordered |
| Pipeline.DecodedAll | crates/telemetryd/src/ingest.rs:88-94 | the samples that entered are those of the datagrams received |
| Pipeline.ReceiversOutlive | crates/telemetryd/src/ingest.rs:92-94 | a task with something to send always has a receiver |
| Pipeline.NeverStuck | crates/telemetryd/src/main.rs:120-134 | after stop some draining step can be made until all tasks have finished |
| Pipeline.DrainingLeavesLess | crates/telemetryd/src/engine_task.rs:44-65 | every draining step leaves less work |
| Pipeline.NoEndlessDrain | crates/telemetryd/src/engine_task.rs:44-65 | no schedule drains for ever: from every point on it takes new datagrams, timers or stop requests |
| Pipeline.DrainsToTheEnd | crates/telemetryd/src/output.rs:124-143 | from every state reached after stop the tasks can finish |
| Pipeline.EndOfRun | crates/telemetryd/src/output.rs:96-100 | at the end all samples were seen, all records delivered, and the counters agree in total and per rule |
| EndToEnd.DeliveredAlone | crates/telemetryd/src/engine_task.rs:44-84 | whatever the interleaving, a rule's delivered records are those of an engine with that rule alone |
| EndToEnd.FilesAtEnd | crates/telemetryd/src/output.rs:108-143 | without failed writes, the kept files are a suffix of the initial contents and the serialised records of the run; all other records count as errors |

## Left out

- The engine's numbers are `real`: rounding of the deadband difference `new - last` is not modelled.
- Float payloads: the conversion between payload bits and doubles is a parameter, so NaN bits and the
  sign of zero are not modelled, and no byte identity is claimed for float signals.
- Values.NumberWithinHalfStep: stated for exact arithmetic; NumberWithinOneStep is the bound with rounding.
- ValueMeaning.FloatsSurvive: stated for exact arithmetic and bits that convert back; with rounding, scaling alone may change a float.
- FloatRoundTrip.PayloadSurvivesRounding: asks for offsets within 2^50 scale steps and scales away from the ends of the range of doubles, which can be read off the catalog; beyond 2^46, scalings other than the default are not treated.
- Compile.EveryFaultReportedIff: a fault that several nodes of one condition commit (the same unknown name, the same disallowed construct, being too deep) counts once; a blank source is not also judged on its syntax; and the parts of a macro are not judged, since it binds names of its own.
- The CEL parser and interpreter are function parameters; the syntax tree is a datatype in which lists,
  maps and structs are one kind of node with their items, and a macro is a leaf.
- The thread with a big stack and the `Internal` compile error that stands for its failure.
- Text of error messages and the metric label strings; errors are datatype values.
- Rotation.RotatingWriter.WriteLine: file operations do not fail, and sizes are unbounded, so the overflow of a 64-bit file length is not modelled.
- Rotation.RotatingWriter.Drain: an I/O error is not modelled; a write error is a record that does not serialise. In the pipeline a write may also fail, and then nothing of the line is written. `sync` flushes; persistence by the operating system is not modelled.
- Ingest.IngestStats.RunUdp: the loop runs over the list of datagrams received before the stop; the periodic log line is not modelled.
- EngineTask.EngineStats.Run: what wakes the loop, and the clock readings, are a given list; waiting and sending to a bounded queue are modelled in the pipeline.
- Pipeline.NoEndlessDrain: fairness of `select!` is not modelled, so a schedule that keeps taking datagrams or timers after stop is excluded by hypothesis.
- In the pipeline the socket, the shutdown timeout and the failure of a task are not modelled.
- JSON and TOML parsing, configuration, signals, tracing and the command line.
- The simulator, whose packets the codec theorems cover, and the cloud service, a scaffold.
