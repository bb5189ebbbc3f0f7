/** The class `DefenseRulePersistence` (evolution/defense_rule_persistence.py); its methods carry
    out the steps of `RuleBreaker`.  Locks and the file on disk are left aside. */
module RulePersistence {
  import opened RuleBreaker

  /** The counters and the promotion of `record_trigger`. */
  method CountTrigger(v0: Version, blocked: bool) returns (v: Version)
    ensures v == Triggered(v0, blocked)
  {
    v := v0.(triggers := v0.triggers + 1);
    if blocked {
      v := v.(blocks := v.blocks + 1);
    } else {
      v := v.(falsePositives := v.falsePositives + 1);
    }
    if v.state == Monitoring && v.triggers >= 10 {
      if 10 * v.blocks >= 8 * v.triggers {
        v := v.(state := Active);
      }
    }
  }

  class DefenseRulePersistence {
    const cfg: Settings
    var rules: map<RuleId, seq<Version>>
    var activeVersions: map<RuleId, nat>
    var circuitBreakerTriggers: nat
    var autoRollbacks: nat

    ghost function State(): Rules
      reads this
    {
      Rules(rules, activeVersions, circuitBreakerTriggers, autoRollbacks)
    }

    ghost predicate Valid()
      reads this
    {
      Sound(State(), cfg)
    }

    constructor (cfg: Settings)
      ensures this.cfg == cfg && State() == NO_RULES && Valid()
    {
      this.cfg := cfg;
      rules, activeVersions, circuitBreakerTriggers, autoRollbacks := map[], map[], 0, 0;
      new;
      NoRulesIsSound(cfg);
    }

    method DeployRule(id: RuleId)
      requires Valid()
      modifies this
      ensures Valid() && State() == Deploy(old(State()), id)
    {
      DeployKeeps(State(), id, cfg);
      var before := if id in rules then rules[id] else [];
      activeVersions := activeVersions[id := |before|];
      rules := rules[id := before + [FRESH_VERSION]];
      assert State() == Deploy(old(State()), id);
    }

    method RecordRuleTrigger(id: RuleId, blocked: bool)
      requires Valid()
      modifies this
      ensures Valid() && State() == RecordTrigger(old(State()), id, blocked)
    {
      RecordTriggerKeeps(State(), id, blocked, cfg);
      if id !in activeVersions {
        return;
      }
      var i := activeVersions[id];
      var v := CountTrigger(rules[id][i], blocked);
      rules := rules[id := rules[id][i := v]];
      assert State() == RecordTrigger(old(State()), id, blocked);
    }

    /** The search loop of `_rollback_to_previous`. */
    method FallBack(id: RuleId) returns (found: bool)
      requires ActiveInRange(State())
      modifies this
      ensures State() == RollbackToPrevious(old(State()), id)
      ensures found <==> State() != old(State())
    {
      found := false;
      if id !in rules || rules[id] == [] {
        return;
      }
      var versions := rules[id];
      var i := |versions| - 1;
      while i > 0 && versions[i - 1].state != Active
        invariant 0 <= i <= |versions| - 1
        invariant LatestActive(versions, |versions| - 1) == LatestActive(versions, i)
      {
        i := i - 1;
      }
      if i > 0 {
        var v := versions[i - 1].(state := Active, circuit := Closed, failures := 0);
        rules := rules[id := versions[i - 1 := v]];
        activeVersions := activeVersions[id := i - 1];
        autoRollbacks := autoRollbacks + 1;
        found := true;
      }
    }

    method RollbackRule(id: RuleId) returns (found: bool)
      requires Valid()
      modifies this
      ensures Valid() && State() == RollbackToPrevious(old(State()), id)
      ensures found <==> State() != old(State())
    {
      RollbackKeeps(State(), id, cfg);
      found := FallBack(id);
    }

    method TriggerCircuitBreak(id: RuleId, i: nat)
      requires i < |VersionsOf(State(), id)| && ActiveInRange(State())
      modifies this
      ensures State() == CircuitBreak(old(State()), id, i, cfg)
    {
      rules := rules[id := rules[id][i := rules[id][i].(circuit := Open, state := CircuitBroken)]];
      circuitBreakerTriggers := circuitBreakerTriggers + 1;
      activeVersions := activeVersions - {id};
      if cfg.autoRollback {
        var found := FallBack(id);
      }
    }

    /** The result tells whether the failure broke the circuit. */
    method RecordRuleFailure(id: RuleId, now: real) returns (broke: bool)
      requires Valid()
      modifies this
      ensures Valid() && State() == RecordFailure(old(State()), id, now, cfg)
      ensures broke <==> id in old(activeVersions) && Breaks(Failed(old(rules)[id][old(activeVersions)[id]], now), cfg)
    {
      RecordFailureKeeps(State(), id, now, cfg);
      broke := false;
      if id !in activeVersions {
        return;
      }
      var i := activeVersions[id];
      var v := rules[id][i];
      v := v.(failures := v.failures + 1, lastFailure := now);
      rules := rules[id := rules[id][i := v]];
      assert State() == Replace(old(State()), id, i, Failed(old(rules)[id][i], now));
      if cfg.breakerEnabled && v.circuit == Closed && v.failures >= FAILURE_THRESHOLD {
        TriggerCircuitBreak(id, i);
        broke := true;
      }
      assert State() == RecordFailure(old(State()), id, now, cfg);
    }

    method AttemptHalfOpening(id: RuleId, now: real) returns (ok: bool)
      requires Valid()
      modifies this
      ensures Valid() && State() == AttemptHalfOpen(old(State()), id, now)
      ensures var versions := VersionsOf(old(State()), id);
              ok <==> exists i :: 0 <= i < |versions| && Cooled(versions[i], now)
    {
      AttemptHalfOpenKeeps(State(), id, now, cfg);
      ok := false;
      var versions := if id in rules then rules[id] else [];
      var i := 0;
      while i < |versions| && !Cooled(versions[i], now)
        invariant 0 <= i <= |versions|
        invariant FirstCooled(versions, 0, now) == FirstCooled(versions, i, now)
      {
        i := i + 1;
      }
      if i < |versions| {
        rules := rules[id := versions[i := versions[i].(circuit := HalfOpen, failures := 0)]];
        activeVersions := activeVersions[id := i];
        ok := true;
      }
    }

    /** `is_circuit_broken`. */
    method CheckCircuitBroken(id: RuleId) returns (broken: bool)
      requires Valid()
      ensures broken <==> id !in activeVersions && exists i: nat :: IsBroken(State(), id, i)
    {
      CircuitBrokenExactly(State(), id, cfg);
      if id in activeVersions {
        return rules[id][activeVersions[id]].circuit == Open;
      }
      broken := false;
      var versions := if id in rules then rules[id] else [];
      for i := 0 to |versions|
        invariant broken ==> exists j: nat :: IsBroken(State(), id, j)
        invariant !broken ==> forall j :: 0 <= j < i ==> versions[j].state != CircuitBroken
      {
        if versions[i].state == CircuitBroken {
          broken := true;
          assert IsBroken(State(), id, i);
        }
      }
      assert broken ==> exists i: nat :: IsBroken(State(), id, i);
    }
  }
}
