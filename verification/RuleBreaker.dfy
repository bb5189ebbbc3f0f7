/** Rule versions and their circuit breaker (evolution/defense_rule_persistence.py), without the
    reload from disk.  A version object is known by its rule and its index in the rule's list;
    the active version of a rule is an index into that list.
 */
module RuleBreaker {

  type RuleId = string

  datatype RuleState = Draft | Pending | Deployed | Monitoring | Active | CircuitBroken | RolledBack | Deprecated

  datatype Circuit = Closed | Open | HalfOpen

  datatype Version = Version(state: RuleState, circuit: Circuit, triggers: nat, blocks: nat, falsePositives: nat,
                             failures: nat, lastFailure: real)

  const FAILURE_THRESHOLD := 5
  const COOLDOWN_SECONDS := 60.0

  const FRESH_VERSION := Version(Monitoring, Closed, 0, 0, 0, 0, 0.0)

  datatype Settings = Settings(breakerEnabled: bool, autoRollback: bool)

  datatype Rules = Rules(versions: map<RuleId, seq<Version>>, active: map<RuleId, nat>,
                         breakerTriggers: nat, autoRollbacks: nat)

  const NO_RULES := Rules(map[], map[], 0, 0)

  function VersionsOf(r: Rules, id: RuleId): seq<Version> {
    if id in r.versions then r.versions[id] else []
  }

  ghost predicate ActiveInRange(r: Rules) {
    forall id :: id in r.active ==> r.active[id] < |VersionsOf(r, id)|
  }

  function Replace(r: Rules, id: RuleId, i: nat, v: Version): Rules
    requires i < |VersionsOf(r, id)|
  {
    r.(versions := r.versions[id := r.versions[id][i := v]])
  }

  // ----- the operations

  function Deploy(r: Rules, id: RuleId): Rules {
    var before := VersionsOf(r, id);
    r.(versions := r.versions[id := before + [FRESH_VERSION]], active := r.active[id := |before|])
  }

  /** One more trigger; a monitored version with ten triggers, four fifths of them blocked, is active. */
  function Triggered(v: Version, blocked: bool): Version {
    var w := if blocked then v.(triggers := v.triggers + 1, blocks := v.blocks + 1)
             else v.(triggers := v.triggers + 1, falsePositives := v.falsePositives + 1);
    if w.state == Monitoring && w.triggers >= 10 && 10 * w.blocks >= 8 * w.triggers then w.(state := Active) else w
  }

  function RecordTrigger(r: Rules, id: RuleId, blocked: bool): Rules
    requires ActiveInRange(r)
  {
    if id !in r.active then r
    else Replace(r, id, r.active[id], Triggered(r.versions[id][r.active[id]], blocked))
  }

  /** The latest ACTIVE version below bound. */
  function LatestActive(versions: seq<Version>, bound: nat): (i: int)
    requires bound <= |versions|
    ensures -1 <= i < bound
    ensures i >= 0 ==> versions[i].state == Active
    ensures forall j :: i < j < bound ==> versions[j].state != Active
  {
    if bound == 0 then -1
    else if versions[bound - 1].state == Active then bound - 1
    else LatestActive(versions, bound - 1)
  }

  /** `_rollback_to_previous` looks at all versions but the last. */
  function RollbackToPrevious(r: Rules, id: RuleId): Rules {
    var versions := VersionsOf(r, id);
    var i := if versions == [] then -1 else LatestActive(versions, |versions| - 1);
    if i < 0 then r
    else
      Replace(r, id, i, versions[i].(state := Active, circuit := Closed, failures := 0)).(
        active := r.active[id := i], autoRollbacks := r.autoRollbacks + 1)
  }

  function Failed(v: Version, now: real): Version {
    v.(failures := v.failures + 1, lastFailure := now)
  }

  predicate Breaks(v: Version, cfg: Settings) {
    cfg.breakerEnabled && v.circuit == Closed && v.failures >= FAILURE_THRESHOLD
  }

  function CircuitBreak(r: Rules, id: RuleId, i: nat, cfg: Settings): Rules
    requires i < |VersionsOf(r, id)|
  {
    var broken := Replace(r, id, i, r.versions[id][i].(circuit := Open, state := CircuitBroken));
    var r1 := broken.(breakerTriggers := r.breakerTriggers + 1, active := r.active - {id});
    if cfg.autoRollback then RollbackToPrevious(r1, id) else r1
  }

  function RecordFailure(r: Rules, id: RuleId, now: real, cfg: Settings): Rules
    requires ActiveInRange(r)
  {
    if id !in r.active then r
    else
      var i := r.active[id];
      var r1 := Replace(r, id, i, Failed(r.versions[id][i], now));
      if Breaks(r1.versions[id][i], cfg) then CircuitBreak(r1, id, i, cfg) else r1
  }

  predicate Cooled(v: Version, now: real) {
    v.state == CircuitBroken && v.circuit == Open && now - v.lastFailure >= COOLDOWN_SECONDS
  }

  /** The first broken version, from index i on, that has cooled down. */
  function FirstCooled(versions: seq<Version>, i: nat, now: real): (k: nat)
    requires i <= |versions|
    ensures i <= k <= |versions|
    ensures k < |versions| ==> Cooled(versions[k], now)
    ensures forall j :: i <= j < k ==> !Cooled(versions[j], now)
    decreases |versions| - i
  {
    if i == |versions| || Cooled(versions[i], now) then i else FirstCooled(versions, i + 1, now)
  }

  function AttemptHalfOpen(r: Rules, id: RuleId, now: real): Rules {
    var versions := VersionsOf(r, id);
    var i := FirstCooled(versions, 0, now);
    if i == |versions| then r
    else Replace(r, id, i, versions[i].(circuit := HalfOpen, failures := 0)).(active := r.active[id := i])
  }

  predicate IsCircuitBroken(r: Rules, id: RuleId)
    requires ActiveInRange(r)
  {
    if id in r.active then r.versions[id][r.active[id]].circuit == Open
    else exists i :: 0 <= i < |VersionsOf(r, id)| && VersionsOf(r, id)[i].state == CircuitBroken
  }

  // ----- the invariant

  ghost predicate SoundVersion(v: Version, cfg: Settings) {
    && (v.state == Monitoring || v.state == Active || v.state == CircuitBroken)
    && (v.state == CircuitBroken <==> v.circuit != Closed)
    && (cfg.breakerEnabled && v.circuit == Closed ==> v.failures < FAILURE_THRESHOLD)
    && v.triggers == v.blocks + v.falsePositives
  }

  ghost predicate IsBroken(r: Rules, id: RuleId, i: nat) {
    i < |VersionsOf(r, id)| && VersionsOf(r, id)[i].state == CircuitBroken
  }

  /** The broken versions, as pairs of rule and index. */
  ghost function Broken(r: Rules): (b: set<(RuleId, nat)>)
    ensures forall id, i: nat :: (id, i) in b <==> IsBroken(r, id, i)
  {
    set id, i: nat | id in r.versions && 0 <= i < |r.versions[id]| && IsBroken(r, id, i) :: (id, i)
  }

  /** All versions are sound, except perhaps version i of rule id. */
  ghost predicate SoundBut(r: Rules, id: RuleId, i: nat, cfg: Settings) {
    forall other, j :: other in r.versions && 0 <= j < |r.versions[other]| && (other, j) != (id, i) ==>
      SoundVersion(r.versions[other][j], cfg)
  }

  ghost predicate AllSound(r: Rules, cfg: Settings) {
    forall id, i :: id in r.versions && 0 <= i < |r.versions[id]| ==> SoundVersion(r.versions[id][i], cfg)
  }

  /** No active version is OPEN. */
  ghost predicate NoneOpen(r: Rules) {
    ActiveInRange(r) && forall id :: id in r.active ==> r.versions[id][r.active[id]].circuit != Open
  }

  ghost predicate Sound(r: Rules, cfg: Settings) {
    && NoneOpen(r)
    && AllSound(r, cfg)
    && r.breakerTriggers == |Broken(r)|
  }

  /** Versions are never forgotten, and a broken one stays broken. */
  ghost predicate Grows(r: Rules, r': Rules) {
    && (forall id :: id in r.versions ==> id in r'.versions && |r.versions[id]| <= |r'.versions[id]|)
    && Broken(r) <= Broken(r')
  }

  lemma ReplaceKeepsBroken(r: Rules, id: RuleId, i: nat, v: Version)
    requires i < |VersionsOf(r, id)|
    ensures v.state == CircuitBroken ==> Broken(Replace(r, id, i, v)) == Broken(r) + {(id, i)}
    ensures (v.state == CircuitBroken <==> r.versions[id][i].state == CircuitBroken) ==>
              Broken(Replace(r, id, i, v)) == Broken(r)
  {
  }

  lemma ReplaceKeepsSound(r: Rules, id: RuleId, i: nat, v: Version, cfg: Settings)
    requires i < |VersionsOf(r, id)| && SoundBut(r, id, i, cfg)
    ensures SoundBut(Replace(r, id, i, v), id, i, cfg)
    ensures SoundVersion(v, cfg) ==> AllSound(Replace(r, id, i, v), cfg)
  {
  }

  lemma BrokenDependsOnVersions(r: Rules, r': Rules)
    requires r.versions == r'.versions
    ensures Broken(r) == Broken(r')
  {
  }

  /** An operation that replaces one version by a sound one, broken only if the old one was, and
      leaves the active version of that rule as it was or at the new version, keeps everything. */
  lemma OneVersionKeeps(r: Rules, id: RuleId, i: nat, v: Version, r': Rules, cfg: Settings)
    requires Sound(r, cfg) && i < |VersionsOf(r, id)|
    requires SoundVersion(v, cfg) && v.circuit != Open
    requires v.state == CircuitBroken <==> r.versions[id][i].state == CircuitBroken
    requires r'.versions == Replace(r, id, i, v).versions && r'.breakerTriggers == r.breakerTriggers
    requires r'.active == r.active || r'.active == r.active[id := i]
    ensures Sound(r', cfg) && Broken(r') == Broken(r) && Grows(r, r')
  {
    ReplaceKeepsSound(r, id, i, v, cfg);
    ReplaceKeepsBroken(r, id, i, v);
    BrokenDependsOnVersions(Replace(r, id, i, v), r');
    ActiveStaysUnbroken(r, id, i, v, r');
  }

  lemma ActiveStaysUnbroken(r: Rules, id: RuleId, i: nat, v: Version, r': Rules)
    requires NoneOpen(r) && i < |VersionsOf(r, id)| && v.circuit != Open
    requires r'.versions == Replace(r, id, i, v).versions
    requires r'.active == r.active || r'.active == r.active[id := i]
    ensures NoneOpen(r')
  {
  }

  lemma DeployKeepsSound(r: Rules, id: RuleId, cfg: Settings)
    requires AllSound(r, cfg)
    ensures AllSound(Deploy(r, id), cfg)
  {
  }

  lemma DeployKeepsBroken(r: Rules, id: RuleId)
    ensures Broken(Deploy(r, id)) == Broken(r)
  {
  }

  lemma DeployKeeps(r: Rules, id: RuleId, cfg: Settings)
    requires Sound(r, cfg)
    ensures Sound(Deploy(r, id), cfg) && Grows(r, Deploy(r, id))
  {
    DeployKeepsBroken(r, id);
    DeployKeepsSound(r, id, cfg);
  }

  lemma RecordTriggerKeeps(r: Rules, id: RuleId, blocked: bool, cfg: Settings)
    requires Sound(r, cfg)
    ensures Sound(RecordTrigger(r, id, blocked), cfg) && Grows(r, RecordTrigger(r, id, blocked))
  {
    if id in r.active {
      var i := r.active[id];
      var v := Triggered(r.versions[id][i], blocked);
      assert SoundVersion(r.versions[id][i], cfg);
      OneVersionKeeps(r, id, i, v, RecordTrigger(r, id, blocked), cfg);
    }
  }

  lemma RollbackKeeps(r: Rules, id: RuleId, cfg: Settings)
    requires Sound(r, cfg)
    ensures Sound(RollbackToPrevious(r, id), cfg) && Grows(r, RollbackToPrevious(r, id))
    ensures Broken(RollbackToPrevious(r, id)) == Broken(r)
  {
    var versions := VersionsOf(r, id);
    var i := if versions == [] then -1 else LatestActive(versions, |versions| - 1);
    if i >= 0 {
      var v := versions[i].(state := Active, circuit := Closed, failures := 0);
      assert SoundVersion(versions[i], cfg);
      OneVersionKeeps(r, id, i, v, RollbackToPrevious(r, id), cfg);
    }
  }

  /** The version and its rule just after the break, before any fallback. */
  function Tripped(r: Rules, id: RuleId, i: nat): Rules
    requires i < |VersionsOf(r, id)|
  {
    Replace(r, id, i, r.versions[id][i].(circuit := Open, state := CircuitBroken)).(
      breakerTriggers := r.breakerTriggers + 1, active := r.active - {id})
  }

  lemma TrippedKeeps(r: Rules, id: RuleId, i: nat, cfg: Settings)
    requires i < |VersionsOf(r, id)| && ActiveInRange(r) && r.breakerTriggers == |Broken(r)|
    requires forall other :: other in r.active && other != id ==> r.versions[other][r.active[other]].circuit != Open
    requires SoundBut(r, id, i, cfg) && !IsBroken(r, id, i)
    requires r.versions[id][i].triggers == r.versions[id][i].blocks + r.versions[id][i].falsePositives
    ensures Sound(Tripped(r, id, i), cfg) && Broken(Tripped(r, id, i)) == Broken(r) + {(id, i)}
  {
    var v := r.versions[id][i].(circuit := Open, state := CircuitBroken);
    var broken := Replace(r, id, i, v);
    ReplaceKeepsSound(r, id, i, v, cfg);
    ReplaceKeepsBroken(r, id, i, v);
    assert (id, i) !in Broken(r);
    BrokenDependsOnVersions(broken, Tripped(r, id, i));
  }

  lemma CircuitBreakKeeps(r: Rules, id: RuleId, i: nat, cfg: Settings)
    requires i < |VersionsOf(r, id)| && Sound(Tripped(r, id, i), cfg)
    ensures Sound(CircuitBreak(r, id, i, cfg), cfg)
    ensures Broken(CircuitBreak(r, id, i, cfg)) == Broken(Tripped(r, id, i))
    ensures Grows(Tripped(r, id, i), CircuitBreak(r, id, i, cfg))
  {
    RollbackKeeps(Tripped(r, id, i), id, cfg);
  }

  /** The effect of a failure that breaks the active version. */
  lemma FailureBreaks(r: Rules, id: RuleId, now: real, cfg: Settings)
    requires Sound(r, cfg) && id in r.active
    requires Breaks(Failed(r.versions[id][r.active[id]], now), cfg)
    ensures var i := r.active[id];
            var r1 := Replace(r, id, i, Failed(r.versions[id][i], now));
            && RecordFailure(r, id, now, cfg) == CircuitBreak(r1, id, i, cfg)
            && Sound(Tripped(r1, id, i), cfg) && Broken(Tripped(r1, id, i)) == Broken(r) + {(id, i)}
            && (id, i) !in Broken(r) && Grows(r, Tripped(r1, id, i))
  {
    var i := r.active[id];
    var v := Failed(r.versions[id][i], now);
    assert SoundVersion(r.versions[id][i], cfg);
    assert !IsBroken(r, id, i);
    ReplaceKeepsBroken(r, id, i, v);
    ReplaceKeepsSound(r, id, i, v, cfg);
    TrippedKeeps(Replace(r, id, i, v), id, i, cfg);
  }

  lemma RecordFailureKeeps(r: Rules, id: RuleId, now: real, cfg: Settings)
    requires Sound(r, cfg)
    ensures Sound(RecordFailure(r, id, now, cfg), cfg) && Grows(r, RecordFailure(r, id, now, cfg))
  {
    if id in r.active {
      var i := r.active[id];
      var v := Failed(r.versions[id][i], now);
      if Breaks(v, cfg) {
        FailureBreaks(r, id, now, cfg);
        CircuitBreakKeeps(Replace(r, id, i, v), id, i, cfg);
      } else {
        assert SoundVersion(r.versions[id][i], cfg);
        OneVersionKeeps(r, id, i, v, RecordFailure(r, id, now, cfg), cfg);
      }
    }
  }

  lemma AttemptHalfOpenKeeps(r: Rules, id: RuleId, now: real, cfg: Settings)
    requires Sound(r, cfg)
    ensures Sound(AttemptHalfOpen(r, id, now), cfg) && Grows(r, AttemptHalfOpen(r, id, now))
  {
    var versions := VersionsOf(r, id);
    var i := FirstCooled(versions, 0, now);
    if i < |versions| {
      var v := versions[i].(circuit := HalfOpen, failures := 0);
      assert SoundVersion(versions[i], cfg);
      OneVersionKeeps(r, id, i, v, AttemptHalfOpen(r, id, now), cfg);
    }
  }

  // ----- runs

  datatype Event =
    | Deploying(id: RuleId)
    | Triggering(id: RuleId, blocked: bool)
    | Failing(id: RuleId, now: real)
    | RollingBack(id: RuleId)
    | HalfOpening(id: RuleId, now: real)

  function Step(r: Rules, e: Event, cfg: Settings): Rules
    requires ActiveInRange(r)
  {
    match e
    case Deploying(id) => Deploy(r, id)
    case Triggering(id, blocked) => RecordTrigger(r, id, blocked)
    case Failing(id, now) => RecordFailure(r, id, now, cfg)
    case RollingBack(id) => RollbackToPrevious(r, id)
    case HalfOpening(id, now) => AttemptHalfOpen(r, id, now)
  }

  lemma StepKeeps(r: Rules, e: Event, cfg: Settings)
    requires Sound(r, cfg)
    ensures Sound(Step(r, e, cfg), cfg) && Grows(r, Step(r, e, cfg))
  {
    match e
    case Deploying(id) => DeployKeeps(r, id, cfg);
    case Triggering(id, blocked) => RecordTriggerKeeps(r, id, blocked, cfg);
    case Failing(id, now) => RecordFailureKeeps(r, id, now, cfg);
    case RollingBack(id) => RollbackKeeps(r, id, cfg);
    case HalfOpening(id, now) => AttemptHalfOpenKeeps(r, id, now, cfg);
  }

  ghost predicate Reaches(r: Rules, events: seq<Event>, r': Rules, cfg: Settings)
    decreases |events|
  {
    if events == [] then r == r'
    else ActiveInRange(r) && Reaches(Step(r, events[0], cfg), events[1..], r', cfg)
  }

  /** In every run from no rules at all, every state is sound and no broken version is repaired. */
  lemma {:induction false} EveryRunIsSound(r: Rules, events: seq<Event>, r': Rules, cfg: Settings)
    requires Sound(r, cfg) && Reaches(r, events, r', cfg)
    ensures Sound(r', cfg) && Broken(r) <= Broken(r')
    decreases |events|
  {
    if events == [] {
    } else {
      StepKeeps(r, events[0], cfg);
      EveryRunIsSound(Step(r, events[0], cfg), events[1..], r', cfg);
    }
  }

  lemma NoRulesIsSound(cfg: Settings)
    ensures Sound(NO_RULES, cfg)
  {
  }

  /** `is_circuit_broken` holds exactly when the rule has no active version but a broken one. */
  lemma CircuitBrokenExactly(r: Rules, id: RuleId, cfg: Settings)
    requires Sound(r, cfg)
    ensures IsCircuitBroken(r, id) <==> id !in r.active && exists i: nat :: IsBroken(r, id, i)
  {
    if id !in r.active && IsCircuitBroken(r, id) {
      var i :| 0 <= i < |VersionsOf(r, id)| && VersionsOf(r, id)[i].state == CircuitBroken;
      assert IsBroken(r, id, i);
    }
  }

  /** Where a rule falls back to. */
  lemma RollbackChooses(r: Rules, id: RuleId)
    requires id !in r.active
    ensures var vs, r' := VersionsOf(r, id), RollbackToPrevious(r, id);
            && (id in r'.active <==> exists j :: 0 <= j < |vs| - 1 && vs[j].state == Active)
            && (id in r'.active ==>
                  var j := r'.active[id];
                  && 0 <= j < |vs| - 1 && vs[j].state == Active
                  && r'.versions[id][j] == vs[j].(circuit := Closed, failures := 0)
                  && forall k :: j < k < |vs| - 1 ==> vs[k].state != Active)
  {
  }

  /** After the break of version i a rule has an active version exactly when it may fall back, and some
      other version but the last is ACTIVE. */
  lemma FallbackExactly(r: Rules, id: RuleId, i: nat, cfg: Settings)
    requires i < |VersionsOf(r, id)|
    ensures var vs := VersionsOf(r, id);
            id in CircuitBreak(r, id, i, cfg).active <==>
            cfg.autoRollback && exists j :: 0 <= j < |vs| - 1 && j != i && vs[j].state == Active
  {
    var vs, t := VersionsOf(r, id), Tripped(r, id, i);
    RollbackChooses(t, id);
    forall j | 0 <= j < |vs| ensures VersionsOf(t, id)[j].state == Active <==> j != i && vs[j].state == Active {
    }
  }

  /** The failure that breaks a version breaks that one only, and counts once. */
  lemma BreakCountsOnce(r: Rules, id: RuleId, now: real, cfg: Settings)
    requires Sound(r, cfg) && id in r.active
    requires Breaks(Failed(r.versions[id][r.active[id]], now), cfg)
    ensures var i, r' := r.active[id], RecordFailure(r, id, now, cfg);
            && Broken(r') == Broken(r) + {(id, i)} && (id, i) !in Broken(r)
            && Sound(r', cfg) && r'.breakerTriggers == r.breakerTriggers + 1
  {
    var i := r.active[id];
    FailureBreaks(r, id, now, cfg);
    CircuitBreakKeeps(Replace(r, id, i, Failed(r.versions[id][i], now)), id, i, cfg);
  }

  lemma BrokenOrActive(r: Rules, id: RuleId, i: nat, cfg: Settings)
    requires Sound(r, cfg) && (id, i) in Broken(r)
    ensures IsCircuitBroken(r, id) <==> id !in r.active
  {
    CircuitBrokenExactly(r, id, cfg);
    assert IsBroken(r, id, i);
  }

  lemma FailedVersions(r: Rules, id: RuleId, i: nat, v: Version)
    requires i < |VersionsOf(r, id)| && v.state == r.versions[id][i].state
    ensures var vs, vs' := VersionsOf(r, id), VersionsOf(Replace(r, id, i, v), id);
            |vs'| == |vs| && forall j :: 0 <= j < |vs| ==> vs'[j].state == vs[j].state
  {
  }

  /** At the threshold the active version is broken, once and for all; the rule then falls back to
      the latest earlier ACTIVE version, if it may and there is one, and is otherwise circuit broken. */
  lemma FailureAtThreshold(r: Rules, id: RuleId, now: real, cfg: Settings)
    requires Sound(r, cfg) && id in r.active && cfg.breakerEnabled
    requires r.versions[id][r.active[id]].circuit == Closed
    requires r.versions[id][r.active[id]].failures == FAILURE_THRESHOLD - 1
    ensures var i, vs, r' := r.active[id], r.versions[id], RecordFailure(r, id, now, cfg);
            && Broken(r') == Broken(r) + {(id, i)} && (id, i) !in Broken(r)
            && r'.breakerTriggers == r.breakerTriggers + 1
            && (id in r'.active <==>
                  cfg.autoRollback && exists j :: 0 <= j < |vs| - 1 && j != i && vs[j].state == Active)
            && ActiveInRange(r') && (IsCircuitBroken(r', id) <==> id !in r'.active)
  {
    var i, vs := r.active[id], r.versions[id];
    var v := Failed(vs[i], now);
    BreakCountsOnce(r, id, now, cfg);
    FailedVersions(r, id, i, v);
    FallbackExactly(Replace(r, id, i, v), id, i, cfg);
    BrokenOrActive(RecordFailure(r, id, now, cfg), id, i, cfg);
  }

  // ----- what each operation does, version by version

  /** All other rules are as before, and so are the other versions of this one. */
  ghost predicate OthersStay(r: Rules, r': Rules, id: RuleId, i: nat) {
    && (forall other :: other != id ==> (other in r'.versions <==> other in r.versions))
    && (forall other :: other != id ==> (other in r'.active <==> other in r.active))
    && (forall other :: other != id && other in r.versions ==> r'.versions[other] == r.versions[other])
    && (forall other :: other != id && other in r.active ==> r'.active[other] == r.active[other])
    && (forall j :: 0 <= j < |VersionsOf(r, id)| && j != i && j < |VersionsOf(r', id)| ==>
          VersionsOf(r', id)[j] == VersionsOf(r, id)[j])
  }

  /** A deployed version is new, monitored, unused and active. */
  lemma DeployExactly(r: Rules, id: RuleId)
    ensures var n, r' := |VersionsOf(r, id)|, Deploy(r, id);
            && |VersionsOf(r', id)| == n + 1 && OthersStay(r, r', id, n)
            && id in r'.active && r'.active[id] == n
            && r'.versions[id][n] == Version(Monitoring, Closed, 0, 0, 0, 0, 0.0)
            && r'.breakerTriggers == r.breakerTriggers && r'.autoRollbacks == r.autoRollbacks
  {
  }

  /** A trigger is counted at the active version, as a block or a false positive. */
  lemma TriggerExactly(r: Rules, id: RuleId, blocked: bool)
    requires ActiveInRange(r)
    ensures id !in r.active ==> RecordTrigger(r, id, blocked) == r
    ensures id in r.active ==>
              var i, r' := r.active[id], RecordTrigger(r, id, blocked);
              && |VersionsOf(r', id)| == |r.versions[id]| && OthersStay(r, r', id, i) && r'.active == r.active
              && (var v, w := r.versions[id][i], r'.versions[id][i];
                  && w.triggers == v.triggers + 1
                  && w.blocks == (if blocked then v.blocks + 1 else v.blocks)
                  && w.falsePositives == (if blocked then v.falsePositives else v.falsePositives + 1)
                  && w.circuit == v.circuit && w.failures == v.failures && w.lastFailure == v.lastFailure
                  && w.state == (if v.state == Monitoring && w.triggers >= 10 && 5 * w.blocks >= 4 * w.triggers
                                 then Active else v.state))
              && r'.breakerTriggers == r.breakerTriggers && r'.autoRollbacks == r.autoRollbacks
  {
  }

  function AfterTriggers(r: Rules, id: RuleId, blocks: seq<bool>): (r': Rules)
    requires ActiveInRange(r)
    ensures ActiveInRange(r')
  {
    if blocks == [] then r
    else RecordTrigger(AfterTriggers(r, id, blocks[..|blocks| - 1]), id, blocks[|blocks| - 1])
  }

  function CountTrue(blocks: seq<bool>): nat {
    if blocks == [] then 0
    else CountTrue(blocks[..|blocks| - 1]) + if blocks[|blocks| - 1] then 1 else 0
  }

  /** At least four fifths of ten or more triggers were blocked. */
  ghost predicate Proven(blocks: seq<bool>) {
    |blocks| >= 10 && 5 * CountTrue(blocks) >= 4 * |blocks|
  }

  /** What a version that was just deployed has become after these triggers. */
  ghost predicate Monitored(v: Version, blocks: seq<bool>) {
    && v.triggers == |blocks| && v.blocks == CountTrue(blocks) && v.falsePositives == |blocks| - CountTrue(blocks)
    && v.circuit == Closed && v.failures == 0
    && v.state == if exists k :: 0 <= k <= |blocks| && Proven(blocks[..k]) then Active else Monitoring
  }

  lemma ProvenLater(blocks: seq<bool>)
    requires blocks != []
    ensures var front := blocks[..|blocks| - 1];
            (exists k :: 0 <= k <= |blocks| && Proven(blocks[..k])) <==>
            Proven(blocks) || exists k :: 0 <= k <= |front| && Proven(front[..k])
  {
    var front := blocks[..|blocks| - 1];
    assert blocks[..|blocks|] == blocks;
    forall k | 0 <= k <= |front| ensures front[..k] == blocks[..k] {
    }
    if exists k :: 0 <= k <= |blocks| && Proven(blocks[..k]) {
      var k :| 0 <= k <= |blocks| && Proven(blocks[..k]);
      if k <= |front| {
        assert Proven(front[..k]);
      }
    }
    if exists k :: 0 <= k <= |front| && Proven(front[..k]) {
      var k :| 0 <= k <= |front| && Proven(front[..k]);
      assert Proven(blocks[..k]);
    }
  }

  /** A version is promoted exactly when, at some moment since its deployment, it had proven itself; its
      counters are those of all its triggers. */
  lemma {:induction false} PromotionExactly(r: Rules, id: RuleId, blocks: seq<bool>)
    requires ActiveInRange(r)
    ensures var n, r' := |VersionsOf(r, id)|, AfterTriggers(Deploy(r, id), id, blocks);
            id in r'.active && r'.active[id] == n && n < |VersionsOf(r', id)| && Monitored(r'.versions[id][n], blocks)
  {
    if blocks == [] {
      assert blocks[..0] == [];
    } else {
      var front, last := blocks[..|blocks| - 1], blocks[|blocks| - 1];
      PromotionExactly(r, id, front);
      TriggerExactly(AfterTriggers(Deploy(r, id), id, front), id, last);
      ProvenLater(blocks);
    }
  }

  /** The latest ACTIVE version but the last becomes the active one, with a closed circuit. */
  lemma RollbackExactly(r: Rules, id: RuleId)
    ensures var vs, r' := VersionsOf(r, id), RollbackToPrevious(r, id);
            if exists j :: 0 <= j < |vs| - 1 && vs[j].state == Active then
              && id in r'.active && r'.active[id] < |vs| - 1 && |VersionsOf(r', id)| == |vs|
              && (var j := r'.active[id];
                  && vs[j].state == Active && (forall k :: j < k < |vs| - 1 ==> vs[k].state != Active)
                  && VersionsOf(r', id)[j] == vs[j].(circuit := Closed, failures := 0) && OthersStay(r, r', id, j))
              && r'.autoRollbacks == r.autoRollbacks + 1 && r'.breakerTriggers == r.breakerTriggers
            else r' == r
  {
  }

  /** Half-opening takes the first broken version whose last failure is a minute ago. */
  lemma HalfOpenExactly(r: Rules, id: RuleId, now: real)
    ensures var vs, r' := VersionsOf(r, id), AttemptHalfOpen(r, id, now);
            if exists j :: 0 <= j < |vs| && vs[j].state == CircuitBroken && vs[j].circuit == Open
                           && now >= vs[j].lastFailure + 60.0 then
              && id in r'.active && r'.active[id] < |vs| && |VersionsOf(r', id)| == |vs|
              && (var j := r'.active[id];
                  && vs[j].state == CircuitBroken && vs[j].circuit == Open && now >= vs[j].lastFailure + 60.0
                  && VersionsOf(r', id)[j] == vs[j].(circuit := HalfOpen, failures := 0) && OthersStay(r, r', id, j)
                  && forall k :: 0 <= k < j ==>
                       !(vs[k].state == CircuitBroken && vs[k].circuit == Open && now >= vs[k].lastFailure + 60.0))
              && r'.autoRollbacks == r.autoRollbacks && r'.breakerTriggers == r.breakerTriggers
            else r' == r
  {
    var vs := VersionsOf(r, id);
    forall j | 0 <= j < |vs|
      ensures Cooled(vs[j], now) <==>
              vs[j].state == CircuitBroken && vs[j].circuit == Open && now >= vs[j].lastFailure + 60.0
    {
    }
  }

  /** A failure that does not break is counted at the active version, with its time. */
  lemma FailureCounts(r: Rules, id: RuleId, now: real, cfg: Settings)
    requires ActiveInRange(r)
    ensures id !in r.active ==> RecordFailure(r, id, now, cfg) == r
    ensures id in r.active ==>
              var i := r.active[id];
              var v := r.versions[id][i];
              !(cfg.breakerEnabled && v.circuit == Closed && v.failures >= 4) ==>
                var r' := RecordFailure(r, id, now, cfg);
                && |VersionsOf(r', id)| == |r.versions[id]| && OthersStay(r, r', id, i) && r'.active == r.active
                && r'.versions[id][i] == v.(failures := v.failures + 1, lastFailure := now)
                && r'.breakerTriggers == r.breakerTriggers && r'.autoRollbacks == r.autoRollbacks
  {
  }

  /** One that breaks opens the circuit of the active version, the fifth failure of a deployed one. */
  lemma FailureTrips(r: Rules, id: RuleId, now: real, cfg: Settings)
    requires ActiveInRange(r) && id in r.active && cfg.breakerEnabled
    requires r.versions[id][r.active[id]].circuit == Closed && r.versions[id][r.active[id]].failures >= 4
    ensures var i, r' := r.active[id], RecordFailure(r, id, now, cfg);
            var v := r.versions[id][i];
            && |VersionsOf(r', id)| == |r.versions[id]|
            && r'.versions[id][i] == Version(CircuitBroken, Open, v.triggers, v.blocks, v.falsePositives,
                                             v.failures + 1, now)
            && r'.breakerTriggers == r.breakerTriggers + 1
            && (!cfg.autoRollback ==> id !in r'.active && OthersStay(r, r', id, i))
            && (id !in r'.active ==> r'.autoRollbacks == r.autoRollbacks)
            && (id in r'.active ==> r'.autoRollbacks == r.autoRollbacks + 1)
  {
    var i := r.active[id];
    var r1 := Replace(r, id, i, Failed(r.versions[id][i], now));
    var t := Tripped(r1, id, i);
    assert VersionsOf(t, id)[i].state == CircuitBroken;
    RollbackExactly(t, id);
  }
}
