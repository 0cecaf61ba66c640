/** Rule documents and their compiled form. */
module Rules {
  import opened Prelude
  import opened Condition

  const ANY_MODEL := "*"

  datatype Mode = ModeOnChange | ModePeriodic

  /** One rule, exactly as written in the rule set document. */
  datatype Rule = Rule(
    id: string, signal: string, mode: Mode, intervalMs: Option<u64>, maxAgeMs: Option<u64>,
    deadband: Option<F64>, condition: Option<string>)

  datatype RuleSet = RuleSet(version: u64, model: string, rules: seq<Rule>)

  datatype Behaviour = OnChange(deadband: real) | Periodic(intervalMs: u64, maxAgeMs: u64)

  /** A rule that passed compilation, with what the engine needs at hand. */
  datatype CompiledRule = CompiledRule(
    def: Rule, condition: Option<CompiledCondition>, unit: Option<string>, behaviour: Behaviour)
  {
    function Id(): string { def.id }
  }

  /** The rules in force together, in document order, under one version. */
  datatype CompiledRuleSet = CompiledRuleSet(version: u64, model: string, rules: seq<CompiledRule>)

  /** The rule set in force before any is loaded. */
  const EMPTY_RULESET := CompiledRuleSet(0, ANY_MODEL, [])

  predicate DistinctIds(rules: seq<CompiledRule>) {
    forall i, j :: 0 <= i < j < |rules| ==> rules[i].Id() != rules[j].Id()
  }

  /** The behaviour a definition asks for; a missing field takes its documented default. */
  function BehaviourOf(def: Rule): Behaviour {
    match def.mode
    case ModeOnChange =>
      OnChange(if def.deadband.Some? && def.deadband.value.Finite? then def.deadband.value.r else 0.0)
    case ModePeriodic =>
      var interval: u64 := def.intervalMs.GetOr(0);
      Periodic(interval, def.maxAgeMs.GetOr(SatTriple(interval)))
  }

  /** The deadband a rule asks for: the finite one it gives, otherwise none at all. */
  function AskedDeadband(def: Rule): real {
    match def.deadband
    case Some(Finite(r)) => r
    case _ => 0.0
  }

  /** The age up to which a periodic rule uses a value: the one it gives, otherwise three of its intervals. */
  function AskedMaxAge(def: Rule): u64 {
    match (def.maxAgeMs, def.intervalMs)
    case (Some(maxAgeMs), _) => maxAgeMs
    case (None, Some(intervalMs)) => if intervalMs + intervalMs + intervalMs <= U64_MAX then 3 * intervalMs else U64_MAX
    case (None, None) => 0
  }

  /** A compiled behaviour is the one the rule's own fields ask for. */
  predicate BehavesAsAsked(def: Rule, b: Behaviour) {
    match def.mode
    case ModeOnChange => b == OnChange(AskedDeadband(def))
    case ModePeriodic => def.intervalMs.Some? && b == Periodic(def.intervalMs.value, AskedMaxAge(def))
  }

  predicate SoundBehaviour(b: Behaviour) {
    match b
    case OnChange(deadband) => deadband >= 0.0
    case Periodic(intervalMs, maxAgeMs) => intervalMs >= 1 && maxAgeMs >= 1
  }

  /** What the engine relies on in every rule set it is given. */
  predicate WellFormed(ruleset: CompiledRuleSet) {
    && DistinctIds(ruleset.rules)
    && forall i :: 0 <= i < |ruleset.rules| ==>
         && ruleset.rules[i].behaviour == BehaviourOf(ruleset.rules[i].def)
         && SoundBehaviour(ruleset.rules[i].behaviour)
         && (ruleset.rules[i].condition.Some? <==> ruleset.rules[i].def.condition.Some?)
  }

  /** In a well-formed rule set every rule behaves as its own definition asks. */
  lemma WellFormedAsAsked(ruleset: CompiledRuleSet, i: nat)
    requires WellFormed(ruleset) && i < |ruleset.rules|
    ensures BehavesAsAsked(ruleset.rules[i].def, ruleset.rules[i].behaviour)
  {
    assert SoundBehaviour(ruleset.rules[i].behaviour);
  }
}
