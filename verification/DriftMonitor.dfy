/** `EvolutionDriftMonitor` (evolution/evolution_validation.py): snapshots, stagnation and spike
    alerts, and the cumulative drift.
 */
module DriftMonitor {
  import opened DriftMetric

  datatype Snapshot = Snapshot(roundIdx: int, redWeights: Weights, totalEvents: int)

  datatype AlertKind = Stagnation | Recovery | Spike | Oscillation

  datatype Alert = Alert(kind: AlertKind, roundIdx: int)

  /** The change rate that snapshot i brought. */
  ghost function ChangeAt(snaps: seq<Snapshot>, i: nat): real
    requires 1 <= i < |snaps|
  {
    Rate(snaps[i - 1].redWeights, snaps[i].redWeights)
  }

  /** The sum of all change rates. */
  ghost function TotalDrift(snaps: seq<Snapshot>): real {
    if |snaps| < 2 then 0.0 else TotalDrift(snaps[..|snaps| - 1]) + ChangeAt(snaps, |snaps| - 1)
  }

  /** How many of the latest changes in a row stayed below the threshold. */
  ghost function TrailingRun(snaps: seq<Snapshot>, threshold: real): nat {
    if |snaps| < 2 || ChangeAt(snaps, |snaps| - 1) >= threshold then 0
    else TrailingRun(snaps[..|snaps| - 1], threshold) + 1
  }

  /** The cumulative drift is at least the distance between the first and the last snapshot. */
  lemma {:induction false} DriftCoversDistance(snaps: seq<Snapshot>)
    requires snaps != []
    ensures TotalDrift(snaps) >= Rate(snaps[0].redWeights, snaps[|snaps| - 1].redWeights)
    decreases |snaps|
  {
    var last := |snaps| - 1;
    if last == 0 {
      RateZero(snaps[0].redWeights, snaps[0].redWeights);
    } else {
      DriftCoversDistance(snaps[..last]);
      RateTriangle(snaps[0].redWeights, snaps[last - 1].redWeights, snaps[last].redWeights);
    }
  }

  /** One more snapshot adds its rate. */
  lemma DriftAppend(all: seq<Snapshot>, front: seq<Snapshot>, x: Snapshot)
    requires all == front + [x] && front != []
    ensures TotalDrift(all) == TotalDrift(front) + Rate(front[|front| - 1].redWeights, x.redWeights)
  {
    assert all[..|all| - 1] == front;
  }

  /** The drift of a run that goes on from where another ended adds up. */
  lemma {:induction false} DriftAddsUp(a: seq<Snapshot>, b: seq<Snapshot>)
    requires a != [] && b != [] && a[|a| - 1] == b[0]
    ensures TotalDrift(a + b[1..]) == TotalDrift(a) + TotalDrift(b)
  {
    if |b| == 1 {
      assert a + b[1..] == a;
    } else {
      var front, x := b[..|b| - 1], b[|b| - 1];
      DriftAddsUp(a, front);
      assert a + b[1..] == a + front[1..] + [x];
      DriftAppend(a + b[1..], a + front[1..], x);
      DriftAppend(b, front, x);
    }
  }

  /** Every change after snapshot lo, up to snapshot hi, is below the threshold. */
  ghost predicate AllBelow(snaps: seq<Snapshot>, threshold: real, lo: nat, hi: nat)
    requires hi < |snaps|
  {
    forall i :: lo < i <= hi ==> ChangeAt(snaps, i) < threshold
  }

  /** A run of n means exactly that the last n changes were all below the threshold. */
  lemma {:induction false} TrailingRunExact(snaps: seq<Snapshot>, threshold: real, n: nat)
    ensures TrailingRun(snaps, threshold) >= n
       <==> n == 0 || (n < |snaps| && AllBelow(snaps, threshold, |snaps| - 1 - n, |snaps| - 1))
    decreases n
  {
    if n > 0 && |snaps| >= 2 {
      var front, last := snaps[..|snaps| - 1], |snaps| - 1;
      TrailingRunExact(front, threshold, n - 1);
      forall i | 1 <= i < last ensures ChangeAt(front, i) == ChangeAt(snaps, i) {
      }
    }
  }

  /** Distances add up at most as the changes between. */
  lemma {:induction false} SegmentDistance(snaps: seq<Snapshot>, threshold: real, lo: nat, hi: nat)
    requires lo <= hi < |snaps| && AllBelow(snaps, threshold, lo, hi)
    ensures Rate(snaps[lo].redWeights, snaps[hi].redWeights) <= Multiple(hi - lo, threshold)
    decreases hi - lo
  {
    if lo == hi {
      RateZero(snaps[lo].redWeights, snaps[lo].redWeights);
    } else {
      SegmentDistance(snaps, threshold, lo, hi - 1);
      assert ChangeAt(snaps, hi) < threshold;
      RateTriangle(snaps[lo].redWeights, snaps[hi - 1].redWeights, snaps[hi].redWeights);
    }
  }

  /** n times x. */
  ghost function Multiple(n: nat, x: real): real {
    if n == 0 then 0.0 else Multiple(n - 1, x) + x
  }

  lemma {:induction false} MultipleIsProduct(n: nat, x: real)
    ensures Multiple(n, x) == n as real * x
  {
    if n == 0 {
    } else {
      MultipleIsProduct(n - 1, x);
    }
  }

  /** A stagnation run bounds how far the weights have moved since it began. */
  lemma StagnationBoundsMovement(snaps: seq<Snapshot>, threshold: real, n: nat)
    requires TrailingRun(snaps, threshold) >= n && snaps != []
    ensures n < |snaps|
    ensures Rate(snaps[|snaps| - 1 - n].redWeights, snaps[|snaps| - 1].redWeights) <= n as real * threshold
  {
    TrailingRunExact(snaps, threshold, n);
    assert AllBelow(snaps, threshold, |snaps| - 1 - n, |snaps| - 1);
    SegmentDistance(snaps, threshold, |snaps| - 1 - n, |snaps| - 1);
    MultipleIsProduct(n, threshold);
  }

  // ----- oscillation

  predicate Rises(a: Weights, b: Weights, key: string) {
    At(b, key) > At(a, key) * 1.1
  }

  predicate Falls(a: Weights, b: Weights, key: string) {
    !Rises(a, b, key) && At(b, key) < At(a, key) * 0.9
  }

  /** `_get_main_direction` of `_compute_weight_direction`: what most of the changing weights do. */
  function MainDirection(a: Weights, b: Weights): (d: int)
    ensures -1 <= d <= 1
  {
    var rising := set key | key in a.Keys + b.Keys && Rises(a, b, key);
    var falling := set key | key in a.Keys + b.Keys && Falls(a, b, key);
    if |rising| > |falling| then 1 else if |falling| > |rising| then -1 else 0
  }

  /** The main direction counts the keys whose weight rises by more than a tenth against those whose weight
      falls by more than a tenth. */
  lemma MainDirectionExactly(a: Weights, b: Weights)
    ensures var up := set key | key in a.Keys + b.Keys && 10.0 * At(b, key) > 11.0 * At(a, key);
            var down := set key | key in a.Keys + b.Keys && 10.0 * At(b, key) <= 11.0 * At(a, key)
                                  && 10.0 * At(b, key) < 9.0 * At(a, key);
            && (MainDirection(a, b) == 1 <==> |up| > |down|) && (MainDirection(a, b) == -1 <==> |down| > |up|)
  {
    assert (set key | key in a.Keys + b.Keys && Rises(a, b, key)) ==
           set key | key in a.Keys + b.Keys && 10.0 * At(b, key) > 11.0 * At(a, key);
    assert (set key | key in a.Keys + b.Keys && Falls(a, b, key)) ==
           set key | key in a.Keys + b.Keys && 10.0 * At(b, key) <= 11.0 * At(a, key)
                     && 10.0 * At(b, key) < 9.0 * At(a, key);
  }

  function DirectionAt(snaps: seq<Snapshot>, i: nat): int
    requires 1 <= i < |snaps|
  {
    MainDirection(snaps[i - 1].redWeights, snaps[i].redWeights)
  }

  predicate Opposed(d: int, e: int) {
    d != 0 && e != 0 && d != e
  }

  /** How often the direction turns between neighbouring changes, from change lo to change hi. */
  function Turns(snaps: seq<Snapshot>, lo: nat, hi: nat): nat
    requires 1 <= lo <= hi < |snaps|
    decreases hi - lo
  {
    if lo == hi then 0
    else
      Turns(snaps, lo, hi - 1) + if Opposed(DirectionAt(snaps, hi - 1), DirectionAt(snaps, hi)) then 1 else 0
  }

  /** At change i the direction is the opposite of the one before. */
  ghost predicate TurnsAt(snaps: seq<Snapshot>, i: int)
    requires 2 <= i < |snaps|
  {
    var d, e := DirectionAt(snaps, i - 1), DirectionAt(snaps, i);
    (d == 1 && e == -1) || (d == -1 && e == 1)
  }

  ghost function TurningPoints(snaps: seq<Snapshot>, lo: nat, hi: nat): set<int>
    requires 1 <= lo <= hi < |snaps|
  {
    set i | lo < i <= hi && TurnsAt(snaps, i)
  }

  lemma OnePointMore(snaps: seq<Snapshot>, lo: nat, hi: nat)
    requires 1 <= lo < hi < |snaps|
    ensures TurningPoints(snaps, lo, hi) == TurningPoints(snaps, lo, hi - 1) + if TurnsAt(snaps, hi) then {hi} else {}
    ensures hi !in TurningPoints(snaps, lo, hi - 1)
  {
  }

  lemma {:induction false} TurnsExactly(snaps: seq<Snapshot>, lo: nat, hi: nat)
    requires 1 <= lo <= hi < |snaps|
    ensures Turns(snaps, lo, hi) == |TurningPoints(snaps, lo, hi)|
    decreases hi - lo
  {
    if lo == hi {
      assert TurningPoints(snaps, lo, hi) == {};
    } else {
      TurnsExactly(snaps, lo, hi - 1);
      OnePointMore(snaps, lo, hi);
      assert Opposed(DirectionAt(snaps, hi - 1), DirectionAt(snaps, hi)) <==> TurnsAt(snaps, hi);
    }
  }

  /** All changes within the window are large, and the direction turns at all but one of the chances. */
  ghost predicate Oscillates(snaps: seq<Snapshot>, threshold: real, window: int) {
    && 4 <= window <= |snaps|
    && (forall i :: |snaps| - window < i < |snaps| ==> ChangeAt(snaps, i) > threshold * 5.0)
    && Turns(snaps, |snaps| - window + 1, |snaps| - 1) >= window - 3
  }

  /** The same snapshot never calls for both a stagnation and an oscillation alert. */
  lemma OscillationIsNoStagnation(snaps: seq<Snapshot>, threshold: real, window: int)
    requires threshold >= 0.0 && Oscillates(snaps, threshold, window)
    ensures TrailingRun(snaps, threshold) == 0
  {
    assert ChangeAt(snaps, |snaps| - 1) > threshold * 5.0;
  }

  /** The checks of `_detect_oscillation` and `_is_oscillating`. */
  method FindOscillation(snaps: seq<Snapshot>, threshold: real, window: int) returns (found: bool)
    ensures found <==> Oscillates(snaps, threshold, window)
  {
    if |snaps| < window || window < 2 {
      return false;
    }
    var first := |snaps| - window + 1;
    var large := AllLarge(snaps, first, threshold * 5.0);
    if !large || window - 1 < 3 {
      return false;
    }
    var turns := CountTurns(snaps, first);
    found := turns >= window - 3;
  }

  method AllLarge(snaps: seq<Snapshot>, first: nat, bound: real) returns (large: bool)
    requires 1 <= first <= |snaps|
    ensures large <==> forall i :: first <= i < |snaps| ==> ChangeAt(snaps, i) > bound
  {
    large := true;
    for i := first to |snaps|
      invariant large <==> forall j :: first <= j < i ==> ChangeAt(snaps, j) > bound
    {
      var change := ComputeWeightChangeRate(snaps[i - 1].redWeights, snaps[i].redWeights);
      assert change == ChangeAt(snaps, i);
      if change <= bound {
        large := false;
      }
    }
  }

  method CountTurns(snaps: seq<Snapshot>, first: nat) returns (turns: nat)
    requires 1 <= first < |snaps|
    ensures turns == Turns(snaps, first, |snaps| - 1)
  {
    turns := 0;
    var previous := DirectionAt(snaps, first);
    for i := first + 1 to |snaps|
      invariant turns == Turns(snaps, first, i - 1) && previous == DirectionAt(snaps, i - 1)
    {
      var current := DirectionAt(snaps, i);
      if Opposed(previous, current) {
        turns := turns + 1;
      }
      previous := current;
    }
  }

  // ----- learning effectiveness

  function SumOf(changes: seq<real>): real {
    if changes == [] then 0.0 else SumOf(changes[..|changes| - 1]) + changes[|changes| - 1]
  }

  ghost function Changes(snaps: seq<Snapshot>): (changes: seq<real>)
    ensures |changes| == if |snaps| == 0 then 0 else |snaps| - 1
  {
    if |snaps| < 2 then [] else Changes(snaps[..|snaps| - 1]) + [ChangeAt(snaps, |snaps| - 1)]
  }

  lemma {:induction false} DriftIsSum(snaps: seq<Snapshot>)
    ensures SumOf(Changes(snaps)) == TotalDrift(snaps)
  {
    if |snaps| >= 2 {
      DriftIsSum(snaps[..|snaps| - 1]);
      assert Changes(snaps)[..|snaps| - 2] == Changes(snaps[..|snaps| - 1]);
    }
  }

  function Mean(changes: seq<real>): real
    requires changes != []
  {
    SumOf(changes) / |changes| as real
  }

  /** The mean of the later half of the changes over that of the earlier half. */
  function Convergence(changes: seq<real>): real {
    var mid := |changes| / 2;
    if mid == 0 then 1.0
    else
      var early, late := Mean(changes[..mid]), Mean(changes[mid..]);
      if early > 0.0 then late / early else 1.0
  }

  /** The later half moves less than four fifths of the earlier one. */
  ghost predicate Calms(changes: seq<real>) {
    var mid := |changes| / 2;
    mid > 0 && Mean(changes[..mid]) > 0.0 && Mean(changes[mid..]) < 0.8 * Mean(changes[..mid])
  }

  lemma ConvergesExactly(changes: seq<real>)
    ensures Convergence(changes) < 0.8 <==> Calms(changes)
  {
    var mid := |changes| / 2;
    if mid > 0 && Mean(changes[..mid]) > 0.0 {
      QuotientBelow(Mean(changes[mid..]), Mean(changes[..mid]));
    }
  }

  lemma SignOfProduct(a: real, y: real)
    requires y > 0.0
    ensures a * y < 0.0 <==> a < 0.0
  {
  }

  lemma QuotientBelow(x: real, y: real)
    requires y > 0.0
    ensures x / y < 0.8 <==> x < 0.8 * y
  {
    var q := x / y;
    assert q * y == x;
    assert (q - 0.8) * y == x - 0.8 * y;
    SignOfProduct(q - 0.8, y);
  }

  /** The loop over neighbouring snapshots. */
  method ListChanges(snaps: seq<Snapshot>) returns (changes: seq<real>)
    requires snaps != []
    ensures changes == Changes(snaps)
  {
    changes := [];
    for i := 1 to |snaps|
      invariant changes == Changes(snaps[..i])
    {
      var change := ComputeWeightChangeRate(snaps[i - 1].redWeights, snaps[i].redWeights);
      assert snaps[..i + 1][..i] == snaps[..i];
      changes := changes + [change];
    }
    assert snaps[..|snaps|] == snaps;
  }

  function PerRound(drift: real, rounds: nat): real {
    if rounds > 0 then drift / rounds as real else 0.0
  }

  function PerEvent(drift: real, events: int): real {
    if events > 0 then drift / events as real else 0.0
  }

  /** The alerts of critical severity are those of a stagnation. */
  function Critical(alerts: seq<Alert>): nat {
    if alerts == [] then 0
    else Critical(alerts[..|alerts| - 1]) + if alerts[|alerts| - 1].kind == Stagnation then 1 else 0
  }

  ghost predicate CriticalAt(alerts: seq<Alert>, i: int) {
    0 <= i < |alerts| && alerts[i].kind == Stagnation
  }

  ghost function CriticalPlaces(alerts: seq<Alert>): set<int> {
    set i | 0 <= i < |alerts| && CriticalAt(alerts, i)
  }

  lemma {:induction false} CriticalExactly(alerts: seq<Alert>)
    ensures Critical(alerts) == |CriticalPlaces(alerts)|
  {
    if alerts == [] {
      assert CriticalPlaces(alerts) == {};
    } else {
      var last := |alerts| - 1;
      CriticalExactly(alerts[..last]);
      assert CriticalPlaces(alerts) ==
             CriticalPlaces(alerts[..last]) + if alerts[last].kind == Stagnation then {last} else {};
    }
  }

  lemma {:induction false} SumsJoin(a: seq<real>, b: seq<real>)
    ensures SumOf(a + b) == SumOf(a) + SumOf(b)
    ensures |b| == 1 ==> SumOf(b) == b[0]
  {
    if b == [] {
      assert a + b == a;
    } else {
      assert (a + b)[..|a + b| - 1] == a + b[..|b| - 1];
      SumsJoin(a, b[..|b| - 1]);
    }
  }

  /** A mean times the number of items is their sum. */
  lemma MeanExactly(changes: seq<real>)
    requires changes != []
    ensures Mean(changes) * |changes| as real == SumOf(changes)
  {
    QuotientBack(SumOf(changes), |changes| as real);
  }

  /** The convergence times the mean of the earlier half is the mean of the later, if that was not idle. */
  lemma ConvergenceExactly(changes: seq<real>, early: seq<real>, late: seq<real>)
    requires changes == early + late && |early| <= |late| <= |early| + 1
    ensures if early == [] || Mean(early) <= 0.0 then Convergence(changes) == 1.0
            else Convergence(changes) * Mean(early) == Mean(late)
  {
    assert early == changes[..|changes| / 2] && late == changes[|changes| / 2..];
    if early != [] && Mean(early) > 0.0 {
      QuotientBack(Mean(late), Mean(early));
    }
  }

  lemma QuotientBack(x: real, y: real)
    requires y > 0.0
    ensures x / y * y == x
  {
  }

  /** Per round and per event: times their number the total, and nothing without any. */
  lemma RatesPer(drift: real, n: nat, events: int)
    ensures if n > 0 then PerRound(drift, n) * n as real == drift else PerRound(drift, n) == 0.0
    ensures if events > 0 then PerEvent(drift, events) * events as real == drift else PerEvent(drift, events) == 0.0
  {
    if n > 0 {
      QuotientBack(drift, n as real);
    }
    if events > 0 {
      QuotientBack(drift, events as real);
    }
  }

  /** The figures of `get_learning_effectiveness` that do not need a logarithm. */
  datatype Effectiveness = Unavailable | Effectiveness(totalRounds: nat, totalDrift: real, averageDrift: real,
    driftPerEvent: real, convergence: real, isConverging: bool, stagnation: nat, totalAlerts: nat,
    criticalAlerts: nat)

  /** The total drift covers the distance travelled, and the run converges exactly when it calms. */
  ghost predicate Assessed(snaps: seq<Snapshot>, e: Effectiveness)
    requires |snaps| >= 2 && e.Effectiveness?
  {
    var events := snaps[|snaps| - 1].totalEvents - snaps[0].totalEvents;
    && e.totalRounds == |snaps| && e.totalDrift == TotalDrift(snaps)
    && e.totalDrift >= Rate(snaps[0].redWeights, snaps[|snaps| - 1].redWeights)
    && e.averageDrift == PerRound(e.totalDrift, |snaps| - 1) && e.driftPerEvent == PerEvent(e.totalDrift, events)
    && e.convergence == Convergence(Changes(snaps)) && (e.isConverging <==> Calms(Changes(snaps)))
  }

  method Assess(snaps: seq<Snapshot>, stagnation: nat, alerts: seq<Alert>) returns (e: Effectiveness)
    requires |snaps| >= 2
    ensures e.Effectiveness? && Assessed(snaps, e)
    ensures e.stagnation == stagnation && e.totalAlerts == |alerts| && e.criticalAlerts == Critical(alerts)
  {
    var changes := ListChanges(snaps);
    DriftIsSum(snaps);
    DriftCoversDistance(snaps);
    ConvergesExactly(changes);
    var drift, ratio := SumOf(changes), Convergence(changes);
    var events := snaps[|snaps| - 1].totalEvents - snaps[0].totalEvents;
    e := Effectiveness(|snaps|, drift, PerRound(drift, |changes|), PerEvent(drift, events), ratio, ratio < 0.8,
                       stagnation, |alerts|, Critical(alerts));
  }

  // ----- alerts

  datatype Thresholds = Thresholds(stagnation: real, rounds: int, spike: real, window: int)

  /** A run of small changes is long enough, or such a run has just ended. */
  function StagnationAlerts(run0: nat, run: nat, rounds: int, roundIdx: int): seq<Alert> {
    if run > 0 then (if run >= rounds then [Alert(Stagnation, roundIdx)] else [])
    else if run0 >= rounds then [Alert(Recovery, roundIdx)] else []
  }

  /** The alerts a new snapshot calls for, from the runs before and after it. */
  ghost function Called(before: seq<Snapshot>, after: seq<Snapshot>, th: Thresholds): seq<Alert> {
    if |after| < 2 then []
    else
      var roundIdx := after[|after| - 1].roundIdx;
      StagnationAlerts(TrailingRun(before, th.stagnation), TrailingRun(after, th.stagnation), th.rounds, roundIdx)
      + (if ChangeAt(after, |after| - 1) > th.spike then [Alert(Spike, roundIdx)] else [])
      + (if Oscillates(after, th.stagnation, th.window) then [Alert(Oscillation, roundIdx)] else [])
  }

  lemma CalledParts(before: seq<Snapshot>, after: seq<Snapshot>, th: Thresholds, run0: nat, run: nat, change: real,
                    spikes: seq<Alert>, turns: seq<Alert>)
    requires |after| >= 2 && run0 == TrailingRun(before, th.stagnation) && run == TrailingRun(after, th.stagnation)
    requires change == ChangeAt(after, |after| - 1)
    requires spikes == if change > th.spike then [Alert(Spike, after[|after| - 1].roundIdx)] else []
    requires turns == if Oscillates(after, th.stagnation, th.window)
                      then [Alert(Oscillation, after[|after| - 1].roundIdx)] else []
    ensures Called(before, after, th) ==
            StagnationAlerts(run0, run, th.rounds, after[|after| - 1].roundIdx) + spikes + turns
  {
  }

  /** The last n changes were all below the threshold, for a positive n that is at least the given one. */
  ghost predicate Stagnates(snaps: seq<Snapshot>, threshold: real, rounds: int) {
    var n := if rounds < 1 then 1 else rounds;
    n < |snaps| && AllBelow(snaps, threshold, |snaps| - 1 - n, |snaps| - 1)
  }

  /** When each alert is called for: stagnation when the last changes were all small; recovery when the last
      change is not, but those before it were; a spike for a large change; and oscillation. */
  ghost predicate Due(kind: AlertKind, before: seq<Snapshot>, after: seq<Snapshot>, th: Thresholds)
    requires |after| >= 2
  {
    var change := Rate(after[|after| - 2].redWeights, after[|after| - 1].redWeights);
    match kind
    case Stagnation => Stagnates(after, th.stagnation, th.rounds)
    case Recovery => change >= th.stagnation && (th.rounds <= 0 || Stagnates(before, th.stagnation, th.rounds))
    case Spike => change > th.spike
    case Oscillation =>
      && 4 <= th.window <= |after|
      && (forall i :: |after| - th.window < i < |after| ==> ChangeAt(after, i) > 5.0 * th.stagnation)
      && |TurningPoints(after, |after| - th.window + 1, |after| - 1)| >= th.window - 3
  }

  lemma RunMeansStagnation(snaps: seq<Snapshot>, threshold: real, rounds: int)
    ensures TrailingRun(snaps, threshold) > 0 && TrailingRun(snaps, threshold) >= rounds
       <==> Stagnates(snaps, threshold, rounds)
  {
    TrailingRunExact(snaps, threshold, if rounds < 1 then 1 else rounds);
  }

  lemma OscillationDue(before: seq<Snapshot>, after: seq<Snapshot>, th: Thresholds)
    requires |after| >= 2
    ensures Oscillates(after, th.stagnation, th.window) <==> Due(Oscillation, before, after, th)
  {
    if 4 <= th.window <= |after| {
      TurnsExactly(after, |after| - th.window + 1, |after| - 1);
    }
  }

  lemma StagnationAlertsExactly(run0: nat, run: nat, rounds: int, roundIdx: int, a: Alert)
    ensures |StagnationAlerts(run0, run, rounds, roundIdx)| <= 1
    ensures a in StagnationAlerts(run0, run, rounds, roundIdx) <==>
            a.roundIdx == roundIdx && ((a.kind == Stagnation && run > 0 && run >= rounds)
                                       || (a.kind == Recovery && run == 0 && run0 >= rounds))
  {
  }

  lemma InOneOfThree(a: seq<Alert>, b: seq<Alert>, c: seq<Alert>, x: Alert)
    ensures x in a + b + c <==> x in a || x in b || x in c
  {
  }

  lemma RecoveryDue(before: seq<Snapshot>, after: seq<Snapshot>, th: Thresholds)
    requires |after| >= 2
    ensures TrailingRun(after, th.stagnation) == 0 && TrailingRun(before, th.stagnation) >= th.rounds
       <==> Due(Recovery, before, after, th)
  {
    RunMeansStagnation(before, th.stagnation, th.rounds);
    assert ChangeAt(after, |after| - 1) == Rate(after[|after| - 2].redWeights, after[|after| - 1].redWeights);
  }

  /** A snapshot raises exactly the alerts that are due, for its own round. */
  lemma CalledExactly(before: seq<Snapshot>, after: seq<Snapshot>, th: Thresholds, a: Alert)
    requires |after| >= 2
    ensures a in Called(before, after, th) <==>
            a.roundIdx == after[|after| - 1].roundIdx && Due(a.kind, before, after, th)
  {
    var roundIdx, last := after[|after| - 1].roundIdx, |after| - 1;
    var run0, run := TrailingRun(before, th.stagnation), TrailingRun(after, th.stagnation);
    var spikes := if ChangeAt(after, last) > th.spike then [Alert(Spike, roundIdx)] else [];
    var turns := if Oscillates(after, th.stagnation, th.window) then [Alert(Oscillation, roundIdx)] else [];
    InOneOfThree(StagnationAlerts(run0, run, th.rounds, roundIdx), spikes, turns, a);
    StagnationAlertsExactly(run0, run, th.rounds, roundIdx, a);
    RunMeansStagnation(after, th.stagnation, th.rounds);
    RecoveryDue(before, after, th);
    OscillationDue(before, after, th);
  }

  // ----- the monitor

  class EvolutionDriftMonitor {
    const stagnationThreshold: real
    const stagnationRounds: int
    const spikeThreshold: real
    const oscillationWindow: int
    var snapshots: seq<Snapshot>
    var alerts: seq<Alert>
    var consecutiveStagnation: nat

    ghost predicate Valid()
      reads this
    {
      consecutiveStagnation == TrailingRun(snapshots, stagnationThreshold)
    }

    constructor (stagnationThreshold: real, stagnationRounds: int, spikeThreshold: real, oscillationWindow: int)
      ensures Valid() && snapshots == [] && alerts == []
      ensures this.stagnationThreshold == stagnationThreshold && this.stagnationRounds == stagnationRounds
      ensures this.spikeThreshold == spikeThreshold && this.oscillationWindow == oscillationWindow
    {
      this.stagnationThreshold, this.stagnationRounds := stagnationThreshold, stagnationRounds;
      this.spikeThreshold, this.oscillationWindow := spikeThreshold, oscillationWindow;
      snapshots, alerts, consecutiveStagnation := [], [], 0;
    }

    ghost function Settings(): Thresholds {
      Thresholds(stagnationThreshold, stagnationRounds, spikeThreshold, oscillationWindow)
    }

    method RecordSnapshot(snapshot: Snapshot)
      requires Valid()
      modifies this
      ensures Valid() && snapshots == old(snapshots) + [snapshot]
      ensures alerts == old(alerts) + Called(old(snapshots), snapshots, Settings())
    {
      ghost var before := snapshots;
      snapshots := snapshots + [snapshot];
      assert snapshots[..|snapshots| - 1] == before;
      if |snapshots| >= 2 {
        DetectAnomalies(before);
      }
    }

    /** `_detect_anomalies`, for the latest snapshot. */
    method DetectAnomalies(ghost before: seq<Snapshot>)
      requires |snapshots| >= 2 && before == snapshots[..|snapshots| - 1]
      requires consecutiveStagnation == TrailingRun(before, stagnationThreshold)
      modifies this`consecutiveStagnation, this`alerts
      ensures Valid() && alerts == old(alerts) + Called(before, snapshots, Settings())
    {
      var current := snapshots[|snapshots| - 1];
      var rate := ComputeWeightChangeRate(snapshots[|snapshots| - 2].redWeights, current.redWeights);
      DetectStagnation(rate, current.roundIdx);
      ghost var alerts1 := alerts;
      DetectSpike(rate, current.roundIdx);
      ghost var alerts2 := alerts;
      DetectOscillation(current.roundIdx);
      assert rate == ChangeAt(snapshots, |snapshots| - 1);
      CalledParts(before, snapshots, Settings(), old(consecutiveStagnation), consecutiveStagnation, rate,
                  alerts2[|alerts1|..], alerts[|alerts2|..]);
    }

    method DetectStagnation(changeRate: real, roundIdx: int)
      modifies this`consecutiveStagnation, this`alerts
      ensures consecutiveStagnation == if changeRate < stagnationThreshold then old(consecutiveStagnation) + 1 else 0
      ensures alerts == old(alerts) +
                StagnationAlerts(old(consecutiveStagnation), consecutiveStagnation, stagnationRounds, roundIdx)
    {
      if changeRate < stagnationThreshold {
        consecutiveStagnation := consecutiveStagnation + 1;
        if consecutiveStagnation >= stagnationRounds {
          alerts := alerts + [Alert(Stagnation, roundIdx)];
        }
      } else {
        if consecutiveStagnation >= stagnationRounds {
          alerts := alerts + [Alert(Recovery, roundIdx)];
        }
        consecutiveStagnation := 0;
      }
    }

    method DetectSpike(changeRate: real, roundIdx: int)
      modifies this`alerts
      ensures alerts == old(alerts) + if changeRate > spikeThreshold then [Alert(Spike, roundIdx)] else []
    {
      if changeRate > spikeThreshold {
        alerts := alerts + [Alert(Spike, roundIdx)];
      }
    }

    method DetectOscillation(roundIdx: int)
      modifies this`alerts
      ensures alerts == old(alerts) +
        if Oscillates(snapshots, stagnationThreshold, oscillationWindow) then [Alert(Oscillation, roundIdx)] else []
    {
      var found := FindOscillation(snapshots, stagnationThreshold, oscillationWindow);
      if found {
        alerts := alerts + [Alert(Oscillation, roundIdx)];
      }
    }

    /** `get_learning_effectiveness`; unavailable below two snapshots. */
    method LearningEffectiveness() returns (e: Effectiveness)
      requires Valid()
      ensures e.Unavailable? <==> |snapshots| < 2
      ensures e.Effectiveness? ==>
                && Assessed(snapshots, e) && e.stagnation == TrailingRun(snapshots, stagnationThreshold)
                && e.totalAlerts == |alerts| && e.criticalAlerts == Critical(alerts)
    {
      if |snapshots| < 2 {
        return Unavailable;
      }
      e := Assess(snapshots, consecutiveStagnation, alerts);
    }
  }
}
