/** Rule set validation: all-or-nothing compilation with every failure reported. */
module Compile {
  import opened Prelude
  import opened Catalog
  import opened Condition
  import opened Rules

  const MAX_RULES := 256
  const MIN_INTERVAL_MS := 100

  datatype RuleFault =
    | BadId | UnknownRuleSignal | TimingOnChangeRule | BadDeadband | DeadbandNotNumeric
    | DeadbandOnPeriodicRule | NoInterval | ShortInterval | ZeroMaxAge | DuplicateRuleId

  datatype ValidationError =
    | NotNewer(got: u64, active: u64)
    | ModelMismatch(setModel: string, vehicle: string)
    | TooManyRules(count: nat)
    | InvalidRule(rule: string, fault: RuleFault)
    | InvalidCondition(rule: string, reason: ConditionError)

  predicate IsRuleIdChar(c: char) { 'a' <= c <= 'z' || '0' <= c <= '9' || c == '_' }

  predicate IsValidRuleId(id: string) {
    1 <= |id| <= 64 && forall c :: c in id ==> IsRuleIdChar(c)
  }

  // ---- one rule ---------------------------------------------------------

  /** The first fault of a rule, its condition aside. */
  function FaultOf(rule: Rule, cat: SignalCatalog): Option<RuleFault> {
    if !IsValidRuleId(rule.id) then Some(BadId)
    else if cat.ByName(rule.signal).None? then Some(UnknownRuleSignal)
    else if rule.mode.ModeOnChange? then
      if rule.intervalMs.Some? || rule.maxAgeMs.Some? then Some(TimingOnChangeRule)
      else if rule.deadband.None? then None
      else if rule.deadband.value.NonFinite? || rule.deadband.value.r < 0.0 then Some(BadDeadband)
      else if !cat.ByName(rule.signal).value.Kind().KindNum? then Some(DeadbandNotNumeric)
      else None
    else
      if rule.deadband.Some? then Some(DeadbandOnPeriodicRule)
      else if rule.intervalMs.None? then Some(NoInterval)
      else if rule.intervalMs.value < MIN_INTERVAL_MS then Some(ShortInterval)
      else if rule.maxAgeMs == Some(0) then Some(ZeroMaxAge)
      else None
  }

  function CompileRuleSpec(parse: Parser, rule: Rule, cat: SignalCatalog): Result<CompiledRule, ValidationError> {
    var fault := FaultOf(rule, cat);
    if fault.Some? then Err(InvalidRule(rule.id, fault.value))
    else
      var unit := cat.ByName(rule.signal).value.def.unit;
      if rule.condition.None? then Ok(CompiledRule(rule, None, unit, BehaviourOf(rule)))
      else
        match ConditionSpec(parse, rule.condition.value, cat)
        case Err(reason) => Err(InvalidCondition(rule.id, reason))
        case Ok(c) => Ok(CompiledRule(rule, Some(c), unit, BehaviourOf(rule)))
  }

  /**
   * A rule as compiled: its definition, exactly the timing or deadband its fields ask for, the
   * catalog's unit, and the condition compiled from its own source.
   */
  ghost predicate CompiledAsWritten(parse: Parser, rule: Rule, cat: SignalCatalog, c: CompiledRule) {
    && c.def == rule
    && BehavesAsAsked(rule, c.behaviour)
    && cat.ByName(rule.signal).Some? && c.unit == cat.ByName(rule.signal).value.def.unit
    && match rule.condition
       case None => c.condition == None
       case Some(source) =>
         AcceptedSource(parse, source, cat) && c.condition.Some? && CompiledOf(parse, source, c.condition.value)
  }

  /** Whatever compiles is compiled as written. */
  lemma SpecAsWritten(parse: Parser, rule: Rule, cat: SignalCatalog)
    ensures var r := CompileRuleSpec(parse, rule, cat);
            r.Ok? ==> CompiledAsWritten(parse, rule, cat, r.value)
  {
    if rule.condition.Some? {
      ConditionAcceptsExactly(parse, rule.condition.value, cat);
    }
  }

  method CompileRule(parse: Parser, rule: Rule, cat: SignalCatalog) returns (r: Result<CompiledRule, ValidationError>)
    ensures r.Ok? ==> CompiledAsWritten(parse, rule, cat, r.value)
    ensures r == CompileRuleSpec(parse, rule, cat)
  {
    SpecAsWritten(parse, rule, cat);
    if !IsValidRuleId(rule.id) {
      return Err(InvalidRule(rule.id, BadId));
    }
    var signal := cat.ByName(rule.signal);
    if signal.None? {
      return Err(InvalidRule(rule.id, UnknownRuleSignal));
    }
    var behaviour;
    if rule.mode.ModeOnChange? {
      if rule.intervalMs.Some? || rule.maxAgeMs.Some? {
        return Err(InvalidRule(rule.id, TimingOnChangeRule));
      }
      var deadband := rule.deadband.GetOr(Finite(0.0));
      if deadband.NonFinite? || deadband.r < 0.0 {
        return Err(InvalidRule(rule.id, BadDeadband));
      }
      if rule.deadband.Some? && !signal.value.Kind().KindNum? {
        return Err(InvalidRule(rule.id, DeadbandNotNumeric));
      }
      behaviour := OnChange(deadband.r);
    } else {
      if rule.deadband.Some? {
        return Err(InvalidRule(rule.id, DeadbandOnPeriodicRule));
      }
      if rule.intervalMs.None? {
        return Err(InvalidRule(rule.id, NoInterval));
      }
      var intervalMs := rule.intervalMs.value;
      if intervalMs < MIN_INTERVAL_MS {
        return Err(InvalidRule(rule.id, ShortInterval));
      }
      var maxAgeMs: u64 := rule.maxAgeMs.GetOr(SatTriple(intervalMs));
      if maxAgeMs == 0 {
        return Err(InvalidRule(rule.id, ZeroMaxAge));
      }
      behaviour := Periodic(intervalMs, maxAgeMs);
    }
    var condition: Option<CompiledCondition> := None;
    if rule.condition.Some? {
      var c := CompileCondition(parse, rule.condition.value, cat);
      if c.Err? {
        return Err(InvalidCondition(rule.id, c.error));
      }
      condition := Some(c.value);
    }
    r := Ok(CompiledRule(rule, condition, signal.value.def.unit, behaviour));
  }

  /** The rule checks as docs/RULES.md lists them. */
  predicate ValidRule(parse: Parser, rule: Rule, cat: SignalCatalog) {
    && IsValidRuleId(rule.id)
    && cat.ByName(rule.signal).Some?
    && (rule.mode.ModeOnChange? ==>
          && rule.intervalMs.None? && rule.maxAgeMs.None?
          && (rule.deadband.Some? ==>
                && cat.ByName(rule.signal).value.Kind().KindNum?
                && rule.deadband.value.Finite? && rule.deadband.value.r >= 0.0))
    && (rule.mode.ModePeriodic? ==>
          && rule.deadband.None?
          && rule.intervalMs.Some? && rule.intervalMs.value >= MIN_INTERVAL_MS
          && (rule.maxAgeMs.Some? ==> rule.maxAgeMs.value > 0))
    && (rule.condition.Some? ==> ConditionSpec(parse, rule.condition.value, cat).Ok?)
  }

  /** A rule compiles exactly when it is valid; the result carries it, and an error names it. */
  lemma CompileRuleIff(parse: Parser, rule: Rule, cat: SignalCatalog)
    ensures var r := CompileRuleSpec(parse, rule, cat);
            && (r.Ok? <==> ValidRule(parse, rule, cat))
            && (r.Ok? ==>
                  && r.value.def == rule && r.value.behaviour == BehaviourOf(rule) && SoundBehaviour(r.value.behaviour)
                  && (r.value.condition.Some? <==> rule.condition.Some?))
            && (r.Err? ==> ErrorNames(r.error, rule.id))
  {
  }

  /** The error is about the rule called `id`. */
  predicate ErrorNames(e: ValidationError, id: string) {
    (e.InvalidRule? || e.InvalidCondition?) && e.rule == id
  }

  // ---- a rule set -------------------------------------------------------

  function SetErrors(ruleset: RuleSet, model: string, active: Option<u64>): seq<ValidationError> {
    (if active.Some? && ruleset.version <= active.value then [NotNewer(ruleset.version, active.value)] else [])
    + (if ruleset.model != ANY_MODEL && ruleset.model != model then [ModelMismatch(ruleset.model, model)] else [])
  }

  predicate Repeated(rules: seq<Rule>, i: nat)
    requires i < |rules|
  {
    exists j :: 0 <= j < i && rules[j].id == rules[i].id
  }

  /** The report for rule `i`: a repeated id hides any other problem of the rule. */
  function ReportFor(parse: Parser, rules: seq<Rule>, i: nat, cat: SignalCatalog): Result<CompiledRule, ValidationError>
    requires i < |rules|
  {
    if Repeated(rules, i) then Err(InvalidRule(rules[i].id, DuplicateRuleId)) else CompileRuleSpec(parse, rules[i], cat)
  }

  function RuleErrors(parse: Parser, rules: seq<Rule>, n: nat, cat: SignalCatalog): seq<ValidationError>
    requires n <= |rules|
  {
    if n == 0 then []
    else
      var r := ReportFor(parse, rules, n - 1, cat);
      RuleErrors(parse, rules, n - 1, cat) + (if r.Err? then [r.error] else [])
  }

  /** Everything wrong with a rule set; the rules of an oversized set are not looked at. */
  function AllErrors(parse: Parser, ruleset: RuleSet, cat: SignalCatalog, model: string, active: Option<u64>)
    : seq<ValidationError>
  {
    SetErrors(ruleset, model, active)
    + if |ruleset.rules| > MAX_RULES then [TooManyRules(|ruleset.rules|)]
      else RuleErrors(parse, ruleset.rules, |ruleset.rules|, cat)
  }

  predicate Reported(errors: seq<ValidationError>, id: string) {
    exists k :: 0 <= k < |errors| && ErrorNames(errors[k], id)
  }

  /** `rules` were compiled one for one from `defs`. */
  predicate CompiledFrom(parse: Parser, cat: SignalCatalog, rules: seq<CompiledRule>, defs: seq<Rule>) {
    && |rules| == |defs|
    && forall i :: 0 <= i < |rules| ==> CompileRuleSpec(parse, defs[i], cat) == Ok(rules[i])
  }

  lemma AllAsWritten(parse: Parser, cat: SignalCatalog, rules: seq<CompiledRule>, defs: seq<Rule>)
    requires CompiledFrom(parse, cat, rules, defs)
    ensures forall i :: 0 <= i < |rules| ==> CompiledAsWritten(parse, defs[i], cat, rules[i])
  {
    forall i | 0 <= i < |rules| ensures CompiledAsWritten(parse, defs[i], cat, rules[i]) {
      SpecAsWritten(parse, defs[i], cat);
    }
  }

  method CompileRuleset(parse: Parser, ruleset: RuleSet, cat: SignalCatalog, model: string, active: Option<u64>)
    returns (r: Result<CompiledRuleSet, seq<ValidationError>>)
    ensures var errors := AllErrors(parse, ruleset, cat, model, active);
            if errors == []
            then r.Ok? && r.value.version == ruleset.version && r.value.model == ruleset.model
                 && CompiledFrom(parse, cat, r.value.rules, ruleset.rules)
            else r == Err(errors)
    ensures r.Ok? ==>
              |r.value.rules| == |ruleset.rules|
              && forall i :: 0 <= i < |r.value.rules| ==>
                   CompiledAsWritten(parse, ruleset.rules[i], cat, r.value.rules[i])
  {
    var errors: seq<ValidationError> := [];
    if active.Some? && ruleset.version <= active.value {
      errors := errors + [NotNewer(ruleset.version, active.value)];
    }
    if ruleset.model != ANY_MODEL && ruleset.model != model {
      errors := errors + [ModelMismatch(ruleset.model, model)];
    }
    assert errors == SetErrors(ruleset, model, active);
    if |ruleset.rules| > MAX_RULES {
      errors := errors + [TooManyRules(|ruleset.rules|)];
      return Err(errors);
    }
    var compiled, ruleErrors := CompileRules(parse, ruleset.rules, cat);
    errors := errors + ruleErrors;
    r := if errors == [] then Ok(CompiledRuleSet(ruleset.version, ruleset.model, compiled)) else Err(errors);
    if r.Ok? {
      AllAsWritten(parse, cat, compiled, ruleset.rules);
    }
  }

  function IdsBefore(rules: seq<Rule>, n: nat): set<string>
    requires n <= |rules|
  {
    if n == 0 then {} else IdsBefore(rules, n - 1) + {rules[n - 1].id}
  }

  lemma {:induction false} RepeatedIff(rules: seq<Rule>, n: nat, i: nat)
    requires n <= i < |rules|
    ensures rules[i].id in IdsBefore(rules, n) <==> exists j :: 0 <= j < n && rules[j].id == rules[i].id
  {
    if n > 0 {
      RepeatedIff(rules, n - 1, i);
    }
  }

  /** The pass over the rules: ids of failing rules count as seen, too. */
  method CompileRules(parse: Parser, rules: seq<Rule>, cat: SignalCatalog)
    returns (compiled: seq<CompiledRule>, errors: seq<ValidationError>)
    ensures errors == RuleErrors(parse, rules, |rules|, cat)
    ensures errors == [] ==> CompiledFrom(parse, cat, compiled, rules)
  {
    compiled, errors := [], [];
    var seen: set<string> := {};
    for i := 0 to |rules|
      invariant seen == IdsBefore(rules, i)
      invariant errors == RuleErrors(parse, rules, i, cat)
      invariant errors == [] ==> CompiledFrom(parse, cat, compiled, rules[..i])
    {
      var rule := rules[i];
      RepeatedIff(rules, i, i);
      if rule.id in seen {
        errors := errors + [InvalidRule(rule.id, DuplicateRuleId)];
        continue;
      }
      seen := seen + {rule.id};
      var c := CompileRule(parse, rule, cat);
      match c
      case Ok(compiledRule) => compiled := compiled + [compiledRule];
      case Err(e) => errors := errors + [e];
    }
    assert rules[..|rules|] == rules;
  }

  // ---- what the rules of a set amount to --------------------------------

  predicate BadRule(parse: Parser, rules: seq<Rule>, i: nat, cat: SignalCatalog)
    requires i < |rules|
  {
    Repeated(rules, i) || !ValidRule(parse, rules[i], cat)
  }

  function BadCount(parse: Parser, rules: seq<Rule>, n: nat, cat: SignalCatalog): nat
    requires n <= |rules|
  {
    if n == 0 then 0 else BadCount(parse, rules, n - 1, cat) + if BadRule(parse, rules, n - 1, cat) then 1 else 0
  }

  /** One error for each repeated or invalid rule, none for the others. */
  lemma {:induction false} RuleErrorsCount(parse: Parser, rules: seq<Rule>, n: nat, cat: SignalCatalog)
    requires n <= |rules|
    ensures |RuleErrors(parse, rules, n, cat)| == BadCount(parse, rules, n, cat)
    ensures RuleErrors(parse, rules, n, cat) == [] <==> forall i :: 0 <= i < n ==> !BadRule(parse, rules, i, cat)
  {
    if n > 0 {
      RuleErrorsCount(parse, rules, n - 1, cat);
      CompileRuleIff(parse, rules[n - 1], cat);
    }
  }

  /** The error of a bad rule names it and sits behind the errors of the earlier bad rules. */
  lemma {:induction false} RuleErrorAt(parse: Parser, rules: seq<Rule>, n: nat, i: nat, cat: SignalCatalog)
    requires i < n <= |rules| && BadRule(parse, rules, i, cat)
    ensures var k, errors := BadCount(parse, rules, i, cat), RuleErrors(parse, rules, n, cat);
            k < |errors| && ReportFor(parse, rules, i, cat) == Err(errors[k]) && ErrorNames(errors[k], rules[i].id)
  {
    RuleErrorsCount(parse, rules, n, cat);
    RuleErrorsCount(parse, rules, n - 1, cat);
    CompileRuleIff(parse, rules[i], cat);
    if i < n - 1 {
      RuleErrorAt(parse, rules, n - 1, i, cat);
    }
  }

  /** A rule set a vehicle may run. */
  predicate ValidSet(parse: Parser, ruleset: RuleSet, cat: SignalCatalog, model: string, active: Option<u64>) {
    && (active.Some? ==> ruleset.version > active.value)
    && (ruleset.model == ANY_MODEL || ruleset.model == model)
    && |ruleset.rules| <= MAX_RULES
    && (forall i :: 0 <= i < |ruleset.rules| ==> ValidRule(parse, ruleset.rules[i], cat))
    && (forall i, j :: 0 <= i < j < |ruleset.rules| ==> ruleset.rules[i].id != ruleset.rules[j].id)
  }

  /** Compilation reports no error exactly on valid sets. */
  lemma NoErrorsIff(parse: Parser, ruleset: RuleSet, cat: SignalCatalog, model: string, active: Option<u64>)
    ensures AllErrors(parse, ruleset, cat, model, active) == [] <==> ValidSet(parse, ruleset, cat, model, active)
  {
    RuleErrorsCount(parse, ruleset.rules, |ruleset.rules|, cat);
    NoBadRuleIff(parse, ruleset.rules, cat);
  }

  lemma NoBadRuleIff(parse: Parser, rules: seq<Rule>, cat: SignalCatalog)
    ensures (forall i :: 0 <= i < |rules| ==> !BadRule(parse, rules, i, cat))
            <==> (forall i :: 0 <= i < |rules| ==> ValidRule(parse, rules[i], cat))
                 && (forall i, j :: 0 <= i < j < |rules| ==> rules[i].id != rules[j].id)
  {
    if forall i :: 0 <= i < |rules| ==> !BadRule(parse, rules, i, cat) {
      forall i, j | 0 <= i < j < |rules|
        ensures rules[i].id != rules[j].id
      {
        assert !BadRule(parse, rules, j, cat);
      }
      forall i | 0 <= i < |rules|
        ensures ValidRule(parse, rules[i], cat)
      {
        assert !BadRule(parse, rules, i, cat);
      }
    }
  }

  /** What compilation accepts is what the engine relies on, with the rules in document order. */
  lemma CompiledIsWellFormed(
      parse: Parser, ruleset: RuleSet, cat: SignalCatalog, model: string, active: Option<u64>, out: CompiledRuleSet)
    requires ValidSet(parse, ruleset, cat, model, active) && CompiledFrom(parse, cat, out.rules, ruleset.rules)
    ensures WellFormed(out)
    ensures |out.rules| == |ruleset.rules| && forall i :: 0 <= i < |out.rules| ==> out.rules[i].def == ruleset.rules[i]
  {
    forall i | 0 <= i < |out.rules|
      ensures out.rules[i].def == ruleset.rules[i]
      ensures out.rules[i].behaviour == BehaviourOf(ruleset.rules[i]) && SoundBehaviour(out.rules[i].behaviour)
      ensures out.rules[i].condition.Some? <==> ruleset.rules[i].condition.Some?
    {
      CompileRuleIff(parse, ruleset.rules[i], cat);
    }
  }

  lemma {:induction false} ReportsAboutRules(parse: Parser, rules: seq<Rule>, n: nat, cat: SignalCatalog)
    requires n <= |rules|
    ensures forall e :: e in RuleErrors(parse, rules, n, cat) ==> IsAboutRule(e)
  {
    if n > 0 {
      ReportsAboutRules(parse, rules, n - 1, cat);
      CompileRuleIff(parse, rules[n - 1], cat);
    }
  }

  /**
   * What a set is refused for as a whole, each exactly when it applies: it is not newer than the
   * active one, it is for another model, or it has too many rules.
   */
  lemma SetErrorIff(
      parse: Parser, ruleset: RuleSet, cat: SignalCatalog, model: string, active: Option<u64>, e: ValidationError)
    requires !IsAboutRule(e)
    ensures e in AllErrors(parse, ruleset, cat, model, active) <==>
              match e
              case NotNewer(got, before) => got == ruleset.version && active == Some(before) && got <= before
              case ModelMismatch(setModel, vehicle) =>
                setModel == ruleset.model && vehicle == model && setModel != "*" && setModel != vehicle
              case TooManyRules(count) => count == |ruleset.rules| > 256
              case _ => false
  {
    ReportsAboutRules(parse, ruleset.rules, |ruleset.rules|, cat);
  }

  /** Every failing rule is named by some error exactly when the set is not oversized or has no failing rule. */
  lemma EveryBadRuleReportedIff(parse: Parser, ruleset: RuleSet, cat: SignalCatalog, model: string, active: Option<u64>)
    ensures var rules, errors := ruleset.rules, AllErrors(parse, ruleset, cat, model, active);
            (forall i :: 0 <= i < |rules| && BadRule(parse, rules, i, cat) ==> Reported(errors, rules[i].id))
            <==> |rules| <= MAX_RULES || forall i :: 0 <= i < |rules| ==> !BadRule(parse, rules, i, cat)
  {
    var rules, head := ruleset.rules, SetErrors(ruleset, model, active);
    var errors := AllErrors(parse, ruleset, cat, model, active);
    forall i | 0 <= i < |rules| && BadRule(parse, rules, i, cat)
      ensures Reported(errors, rules[i].id) <==> |rules| <= MAX_RULES
    {
      if |rules| <= MAX_RULES {
        RuleErrorAt(parse, rules, |rules|, i, cat);
        assert ErrorNames(errors[|head| + BadCount(parse, rules, i, cat)], rules[i].id);
      }
    }
  }

  // ---- every fault, in no particular order of checks --------------------

  function If(b: bool, e: ValidationError): seq<ValidationError> {
    if b then [e] else []
  }

  /** Every fault of rule `i`, each by its own requirement and whether or not another one is violated too. */
  function FaultsOf(parse: Parser, rules: seq<Rule>, i: nat, cat: SignalCatalog): seq<ValidationError>
    requires i < |rules|
  {
    var r := rules[i];
    NamingFaults(Repeated(rules, i), r, cat) + ModeFaults(r, cat) + ConditionFaults(parse, r, cat)
  }

  function NamingFaults(repeated: bool, r: Rule, cat: SignalCatalog): seq<ValidationError> {
    If(repeated, InvalidRule(r.id, DuplicateRuleId))
    + If(!IsValidRuleId(r.id), InvalidRule(r.id, BadId))
    + If(cat.ByName(r.signal).None?, InvalidRule(r.id, UnknownRuleSignal))
  }

  function ModeFaults(r: Rule, cat: SignalCatalog): seq<ValidationError> {
    if r.mode.ModeOnChange? then
      If(r.intervalMs.Some? || r.maxAgeMs.Some?, InvalidRule(r.id, TimingOnChangeRule))
      + If(r.deadband.Some? && (r.deadband.value.NonFinite? || r.deadband.value.r < 0.0),
           InvalidRule(r.id, BadDeadband))
      + If(r.deadband.Some? && cat.ByName(r.signal).Some? && !cat.ByName(r.signal).value.Kind().KindNum?,
           InvalidRule(r.id, DeadbandNotNumeric))
    else
      If(r.deadband.Some?, InvalidRule(r.id, DeadbandOnPeriodicRule))
      + If(r.intervalMs.None?, InvalidRule(r.id, NoInterval))
      + If(r.intervalMs.Some? && r.intervalMs.value < MIN_INTERVAL_MS, InvalidRule(r.id, ShortInterval))
      + If(r.maxAgeMs == Some(0), InvalidRule(r.id, ZeroMaxAge))
  }

  function ConditionFaults(parse: Parser, r: Rule, cat: SignalCatalog): seq<ValidationError> {
    match r.condition
    case None => []
    case Some(source) =>
      var faults := SourceFaults(parse, source, cat);
      seq(|faults|, i requires 0 <= i < |faults| => InvalidCondition(r.id, faults[i]))
  }

  /** What is listed for each of the first `n` rules, one after the other. */
  type Lister = nat -> seq<ValidationError>

  function Listed(f: Lister, n: nat): seq<ValidationError> {
    if n == 0 then [] else Listed(f, n - 1) + f(n - 1)
  }

  function FaultLister(parse: Parser, rules: seq<Rule>, cat: SignalCatalog): Lister {
    (i: nat) => if i < |rules| then FaultsOf(parse, rules, i, cat) else []
  }

  function AllFaults(parse: Parser, rules: seq<Rule>, cat: SignalCatalog): seq<ValidationError> {
    Listed(FaultLister(parse, rules, cat), |rules|)
  }

  /** Without a mode fault the rule's requirements on interval, age and deadband hold, given a known signal. */
  lemma FirstModeFault(r: Rule, cat: SignalCatalog)
    requires IsValidRuleId(r.id) && cat.ByName(r.signal).Some?
    ensures var fs := ModeFaults(r, cat);
            if fs == [] then FaultOf(r, cat) == None
            else FaultOf(r, cat).Some? && fs[0] == InvalidRule(r.id, FaultOf(r, cat).value)
  {
  }

  /** A rule is reported exactly when it has a fault, and the report is one of its faults: the first one checked. */
  lemma ReportIsFirstFault(parse: Parser, rules: seq<Rule>, i: nat, cat: SignalCatalog)
    requires i < |rules|
    ensures var fs, r := FaultsOf(parse, rules, i, cat), ReportFor(parse, rules, i, cat);
            if fs == [] then r.Ok? else r == Err(fs[0])
  {
    FirstConditionFault(parse, rules[i], cat);
    if !Repeated(rules, i) && IsValidRuleId(rules[i].id) && cat.ByName(rules[i].signal).Some? {
      FirstModeFault(rules[i], cat);
    }
  }

  lemma FirstConditionFault(parse: Parser, r: Rule, cat: SignalCatalog)
    ensures var fs := ConditionFaults(parse, r, cat);
            if r.condition.None? then fs == []
            else
              match ConditionSpec(parse, r.condition.value, cat)
              case Ok(_) => fs == []
              case Err(reason) => fs != [] && fs[0] == InvalidCondition(r.id, reason)
  {
    if r.condition.Some? {
      ConditionReportsFirst(parse, r.condition.value, cat);
    }
  }

  /** A rule has no fault exactly when it is valid and its id is new. */
  lemma FaultFreeIff(parse: Parser, rules: seq<Rule>, i: nat, cat: SignalCatalog)
    requires i < |rules|
    ensures FaultsOf(parse, rules, i, cat) == [] <==> !BadRule(parse, rules, i, cat)
  {
    ReportIsFirstFault(parse, rules, i, cat);
    CompileRuleIff(parse, rules[i], cat);
  }

  function FirstOnly(fs: seq<ValidationError>): seq<ValidationError> {
    if fs == [] then [] else [fs[0]]
  }

  function FirstLister(f: Lister): Lister {
    (i: nat) => FirstOnly(f(i))
  }

  function ErrorList(r: Result<CompiledRule, ValidationError>): seq<ValidationError> {
    if r.Err? then [r.error] else []
  }

  lemma {:induction false} ReportsListed(parse: Parser, rules: seq<Rule>, n: nat, cat: SignalCatalog, g: Lister)
    requires n <= |rules| && forall i: nat :: i < n ==> g(i) == ErrorList(ReportFor(parse, rules, i, cat))
    ensures RuleErrors(parse, rules, n, cat) == Listed(g, n)
  {
    if n > 0 {
      ReportsListed(parse, rules, n - 1, cat, g);
      assert g(n - 1) == ErrorList(ReportFor(parse, rules, n - 1, cat));
    }
  }

  lemma FirstFaultListed(parse: Parser, rules: seq<Rule>, i: nat, cat: SignalCatalog)
    requires i < |rules|
    ensures FirstLister(FaultLister(parse, rules, cat))(i) == ErrorList(ReportFor(parse, rules, i, cat))
  {
    ReportIsFirstFault(parse, rules, i, cat);
    assert FaultLister(parse, rules, cat)(i) == FaultsOf(parse, rules, i, cat);
  }

  lemma ReportsAreFirstFaults(parse: Parser, rules: seq<Rule>, cat: SignalCatalog)
    ensures RuleErrors(parse, rules, |rules|, cat) == Listed(FirstLister(FaultLister(parse, rules, cat)), |rules|)
  {
    var g := FirstLister(FaultLister(parse, rules, cat));
    forall i: nat | i < |rules|
      ensures g(i) == ErrorList(ReportFor(parse, rules, i, cat))
    {
      FirstFaultListed(parse, rules, i, cat);
    }
    ReportsListed(parse, rules, |rules|, cat, g);
  }

  /** Listing only the first of each loses nothing exactly when there is never a second. */
  lemma {:induction false} FirstsAgainstAll(f: Lister, n: nat)
    ensures var firsts := Listed(FirstLister(f), n);
            && |firsts| <= |Listed(f, n)|
            && (if forall i: nat :: i < n ==> |f(i)| <= 1 then firsts == Listed(f, n) else |firsts| < |Listed(f, n)|)
  {
    if n > 0 {
      FirstsAgainstAll(f, n - 1);
      if |f(n - 1)| == 1 {
        assert f(n - 1) == [f(n - 1)[0]];
      }
    }
  }

  /** No rule has two faults. */
  predicate SingleFaults(parse: Parser, rules: seq<Rule>, cat: SignalCatalog) {
    forall i :: 0 <= i < |rules| ==> |FaultsOf(parse, rules, i, cat)| <= 1
  }

  /** The reports are fewer than the faults, unless no rule has two: then they are the faults. */
  lemma ReportsAgainstFaults(parse: Parser, rules: seq<Rule>, cat: SignalCatalog)
    ensures var reports, faults := RuleErrors(parse, rules, |rules|, cat), AllFaults(parse, rules, cat);
            if SingleFaults(parse, rules, cat) then reports == faults else |reports| < |faults|
  {
    var f := FaultLister(parse, rules, cat);
    ReportsAreFirstFaults(parse, rules, cat);
    FirstsAgainstAll(f, |rules|);
    forall i: nat | i < |rules| ensures f(i) == FaultsOf(parse, rules, i, cat) {
    }
  }

  predicate IsAboutRule(e: ValidationError) {
    e.InvalidRule? || e.InvalidCondition?
  }

  lemma RuleFaultsAboutRules(parse: Parser, rules: seq<Rule>, i: nat, cat: SignalCatalog, e: ValidationError)
    requires i < |rules| && e in FaultsOf(parse, rules, i, cat)
    ensures IsAboutRule(e)
  {
    var r := rules[i];
    if e in ModeFaults(r, cat) {
      ModeFaultsAboutRules(r, cat, e);
    }
  }

  lemma ModeFaultsAboutRules(r: Rule, cat: SignalCatalog, e: ValidationError)
    requires e in ModeFaults(r, cat)
    ensures IsAboutRule(e)
  {
  }

  lemma {:induction false} ListedFrom(f: Lister, n: nat, e: ValidationError) returns (i: nat)
    requires e in Listed(f, n)
    ensures i < n && e in f(i)
  {
    if e in f(n - 1) {
      i := n - 1;
    } else {
      i := ListedFrom(f, n - 1, e);
    }
  }

  lemma FaultsAboutRules(parse: Parser, rules: seq<Rule>, cat: SignalCatalog)
    ensures forall e :: e in AllFaults(parse, rules, cat) ==> IsAboutRule(e)
  {
    forall e | e in AllFaults(parse, rules, cat) ensures IsAboutRule(e) {
      var i := ListedFrom(FaultLister(parse, rules, cat), |rules|, e);
      RuleFaultsAboutRules(parse, rules, i, cat, e);
    }
  }

  /** Every fault is reported, as often as it occurs. */
  predicate EveryFaultReported(faults: seq<ValidationError>, errors: seq<ValidationError>) {
    multiset(faults) <= multiset(errors)
  }

  /** Errors about the set as a whole are no help in reporting faults of rules. */
  lemma OnlyReportsCount(head: seq<ValidationError>, reports: seq<ValidationError>, faults: seq<ValidationError>)
    requires (forall e :: e in faults ==> IsAboutRule(e)) && (forall e :: e in head ==> !IsAboutRule(e))
    requires |reports| < |faults|
    ensures !EveryFaultReported(faults, head + reports)
  {
    if EveryFaultReported(faults, head + reports) {
      assert multiset(head + reports) == multiset(head) + multiset(reports);
      forall e ensures multiset(faults)[e] <= multiset(reports)[e] {
        if e in multiset(faults) {
          assert e in faults && e !in head;
        }
      }
      SubmultisetSize(multiset(faults), multiset(reports));
    }
  }

  lemma SubmultisetSize<T>(a: multiset<T>, b: multiset<T>)
    requires a <= b
    ensures |a| <= |b|
  {
    assert b == a + (b - a);
  }

  /**
   * docs/RULES.md has every failure reported at once. That holds of the rules of a set if and
   * only if the set is within the limit, or nothing is wrong with any rule, and no rule has
   * two faults.
   */
  lemma EveryFaultReportedIff(
      parse: Parser, ruleset: RuleSet, cat: SignalCatalog, model: string, active: Option<u64>)
    ensures var rules := ruleset.rules;
            EveryFaultReported(AllFaults(parse, rules, cat), AllErrors(parse, ruleset, cat, model, active))
            <==> (|rules| <= MAX_RULES || AllFaults(parse, rules, cat) == []) && SingleFaults(parse, rules, cat)
  {
    var rules := ruleset.rules;
    var faults, single := AllFaults(parse, rules, cat), SingleFaults(parse, rules, cat);
    ReportsAgainstFaults(parse, rules, cat);
    FaultsAboutRules(parse, rules, cat);
    SetErrorsAboutSet(ruleset, model, active);
    ReportedIff(SetErrors(ruleset, model, active), |rules|, RuleErrors(parse, rules, |rules|, cat), faults, single);
  }

  lemma SetErrorsAboutSet(ruleset: RuleSet, model: string, active: Option<u64>)
    ensures forall e :: e in SetErrors(ruleset, model, active) ==> !IsAboutRule(e)
  {
  }

  lemma ReportedIff(
      head: seq<ValidationError>, count: nat, reports: seq<ValidationError>, faults: seq<ValidationError>, single: bool)
    requires (forall e :: e in faults ==> IsAboutRule(e)) && (forall e :: e in head ==> !IsAboutRule(e))
    requires if single then reports == faults else |reports| < |faults|
    ensures EveryFaultReported(faults, head + if count > MAX_RULES then [TooManyRules(count)] else reports)
            <==> (count <= MAX_RULES || faults == []) && single
  {
    if count > MAX_RULES {
      var errors := head + [TooManyRules(count)];
      assert errors == errors + [];
      if faults != [] {
        OnlyReportsCount(errors, [], faults);
      }
    } else if !single {
      OnlyReportsCount(head, reports, faults);
    } else {
      assert multiset(head + faults) == multiset(head) + multiset(faults);
    }
  }

  /** An oversized set of faulty rules: none of their faults is reported. */
  lemma OversizedExample(parse: Parser, cat: SignalCatalog, rule: Rule, model: string)
    requires rule.id == ""
    ensures var rules := seq(257, _ => rule);
            !EveryFaultReported(AllFaults(parse, rules, cat),
                                AllErrors(parse, RuleSet(1, model, rules), cat, model, None))
  {
    var rules := seq(257, _ => rule);
    EveryFaultReportedIff(parse, RuleSet(1, model, rules), cat, model, None);
    assert InvalidRule("", BadId) in FaultsOf(parse, rules, 256, cat);
    assert Listed(FaultLister(parse, rules, cat), 257) != [];
  }

  /** A repeated id hides that the second rule's id is invalid. */
  lemma RepeatedExample(parse: Parser, cat: SignalCatalog, rule: Rule, model: string)
    requires rule.id == ""
    ensures var rules := [rule, rule];
            !EveryFaultReported(AllFaults(parse, rules, cat),
                                AllErrors(parse, RuleSet(1, model, rules), cat, model, None))
  {
    var rules := [rule, rule];
    EveryFaultReportedIff(parse, RuleSet(1, model, rules), cat, model, None);
    assert rules[0].id == rules[1].id;
    assert |FaultsOf(parse, rules, 1, cat)| >= 2;
  }

  /** One rule with an invalid id and an unknown signal: only the id is reported. */
  lemma TwoFaultsExample(parse: Parser, cat: SignalCatalog, rule: Rule, model: string)
    requires rule.id == "" && cat.ByName(rule.signal).None?
    ensures AllErrors(parse, RuleSet(1, model, [rule]), cat, model, None) == [InvalidRule("", BadId)]
    ensures InvalidRule("", UnknownRuleSignal) in FaultsOf(parse, [rule], 0, cat)
    ensures !EveryFaultReported(AllFaults(parse, [rule], cat),
                                AllErrors(parse, RuleSet(1, model, [rule]), cat, model, None))
  {
    EveryFaultReportedIff(parse, RuleSet(1, model, [rule]), cat, model, None);
    assert RuleErrors(parse, [rule], 0, cat) == [];
    assert |FaultsOf(parse, [rule], 0, cat)| >= 2;
  }

  /** One rule with two faults in its condition, an unknown signal and a field access: only the latter is reported. */
  lemma ConditionFaultsExample(
      parse: Parser, cat: SignalCatalog, rule: Rule, model: string, source: string, x: string, operand: Expr)
    requires FaultOf(rule, cat) == None && rule.condition == Some(source)
    requires |source| <= MAX_CONDITION_CHARS && !IsBlank(source) && cat.ByName(x).None?
    requires parse(source) == Ok(Call("_&&_", None, [Ident(x), Select(operand)]))
    ensures AllErrors(parse, RuleSet(1, model, [rule]), cat, model, None)
         == [InvalidCondition(rule.id, Ast(FieldAccess))]
    ensures InvalidCondition(rule.id, Ast(UnknownSignal(x))) in FaultsOf(parse, [rule], 0, cat)
    ensures !EveryFaultReported(AllFaults(parse, [rule], cat),
                                AllErrors(parse, RuleSet(1, model, [rule]), cat, model, None))
  {
    ExampleTreeFaults(cat, x, operand);
    ExampleFaultList(parse, cat, rule, source, UnknownSignal(x), FieldAccess);
    ReportIsFirstFault(parse, [rule], 0, cat);
    EveryFaultReportedIff(parse, RuleSet(1, model, [rule]), cat, model, None);
    assert RuleErrors(parse, [rule], 0, cat) == [];
  }

  lemma ExampleTreeFaults(cat: SignalCatalog, x: string, operand: Expr)
    requires cat.ByName(x).None?
    ensures var faults := TreeFaults(Call("_&&_", None, [Ident(x), Select(operand)]), 1, cat);
            First(faults) == Some(FieldAccess) && UnknownSignal(x) in faults
  {
    var args := [Ident(x), Select(operand)];
    assert ForestFaults([Ident(x)], 2, cat) == TreeFaults(Ident(x), 2, cat) + ForestFaults([Ident(x)][..0], 2, cat);
    assert args[..1] == [Ident(x)];
    assert UnknownSignal(x) in TreeFaults(Ident(x), 2, cat);
    assert ForestFaults(args, 2, cat) == TreeFaults(Select(operand), 2, cat) + ForestFaults([Ident(x)], 2, cat);
  }

  /** The list of a rule that has only condition faults: it starts with `first`, and also has `other`. */
  lemma ExampleFaultList(
      parse: Parser, cat: SignalCatalog, rule: Rule, source: string, other: AstError, first: AstError)
    requires FaultOf(rule, cat) == None && rule.condition == Some(source)
    requires |source| <= MAX_CONDITION_CHARS && !IsBlank(source) && parse(source).Ok? && other != first
    requires var tree := TreeFaults(parse(source).value, 1, cat); First(tree) == Some(first) && other in tree
    ensures var faults := FaultsOf(parse, [rule], 0, cat);
            && |faults| >= 2 && faults[0] == InvalidCondition(rule.id, Ast(first))
            && InvalidCondition(rule.id, Ast(other)) in faults
  {
    var tree := Distinct(TreeFaults(parse(source).value, 1, cat));
    DistinctExact(TreeFaults(parse(source).value, 1, cat));
    var k :| 0 <= k < |tree| && tree[k] == other;
    ConditionFaultAt(parse, cat, rule, source, 0);
    ConditionFaultAt(parse, cat, rule, source, k);
    OnlyConditionFaults(parse, cat, rule);
  }

  lemma ConditionFaultAt(parse: Parser, cat: SignalCatalog, rule: Rule, source: string, k: nat)
    requires rule.condition == Some(source)
    requires |source| <= MAX_CONDITION_CHARS && !IsBlank(source) && parse(source).Ok?
    requires k < |Distinct(TreeFaults(parse(source).value, 1, cat))|
    ensures var tree, faults := Distinct(TreeFaults(parse(source).value, 1, cat)), ConditionFaults(parse, rule, cat);
            |faults| == |tree| && faults[k] == InvalidCondition(rule.id, Ast(tree[k]))
  {
  }

  lemma OnlyConditionFaults(parse: Parser, cat: SignalCatalog, rule: Rule)
    requires FaultOf(rule, cat) == None
    ensures FaultsOf(parse, [rule], 0, cat) == ConditionFaults(parse, rule, cat)
  {
    FirstModeFault(rule, cat);
  }
}
