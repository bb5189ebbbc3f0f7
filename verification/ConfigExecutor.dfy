/** `DefenseRuleExecutor` (evolution/defense_executor.py): execution with a snapshot in its three modes,
    automatic rollback on failure, statistics, and `rollback_last`.
 */
module ConfigExecutor {
  import opened ConfigTree
  import opened Wrappers

  datatype Target = LightpoolSeccomp | StrongpoolConfig | RuntimeGuard | EbpfNetwork | AuditConfig

  datatype Update = Update(id: string, target: Target, action: Action, key: string, value: Json)

  datatype Status = Success | Failed | RolledBack | Skipped

  datatype Entry = Entry(update: Update, status: Status, snapshot: Option<Json>)

  datatype Stats = Stats(total: nat, success: nat, failed: nat, rolledBack: nat, skipped: nat)

  datatype Mode = DryRun | Simulate | ApplyMode

  datatype Settings = Settings(mode: Mode, autoVerify: bool, autoRollback: bool, confirmHighRisk: bool)

  /** The configuration files; a target without a file is absent. */
  type Files = map<Target, Json>

  datatype Executor = Executor(files: Files, history: seq<Entry>, stats: Stats)

  function FileOf(files: Files, t: Target): Option<Json> {
    if t in files then Some(files[t]) else None
  }

  predicate HighRisk(u: Update) {
    || (u.target == LightpoolSeccomp && u.action == Remove)
    || (u.target == RuntimeGuard && u.action == Disable)
    || (u.target == AuditConfig && u.action == Disable)
  }

  /** Python's truth value of a loaded snapshot. */
  predicate Truthy(snapshot: Option<Json>) {
    match snapshot
    case None => false
    case Some(Null) => false
    case Some(Bool(b)) => b
    case Some(Num(n)) => n != 0.0
    case Some(Str(s)) => s != ""
    case Some(Arr(items)) => items != []
    case Some(Obj(fields)) => fields != map[]
  }

  /** `_actual_apply`: read, update, write back; on an exception nothing is written. */
  function AppliedTo(files: Files, u: Update): Outcome<Files> {
    var config := if u.target in files then files[u.target] else EMPTY_CONFIG;
    match Apply(config, Split(u.key), u.action, u.value)
    case Raised => Raised
    case Ok(c) => Ok(files[u.target := c])
  }

  /** `_verify_applied`. */
  function Verified(files: Files, u: Update): Outcome<bool> {
    if u.target !in files then Ok(false) else Verify(files[u.target], Split(u.key), u.action, u.value)
  }

  /** `_simulate_apply`: the update on the snapshot, or on an empty configuration if that is empty.  What
      comes out must be an object. */
  function Simulated(snapshot: Option<Json>, u: Update): Outcome<Json> {
    match Apply(if Truthy(snapshot) then snapshot.value else EMPTY_CONFIG, Split(u.key), u.action, u.value)
    case Raised => Raised
    case Ok(c) => if c.Obj? then Ok(c) else Raised
  }

  /** The snapshot that is kept for a rollback.  A simulation changes the very object that it keeps. */
  function Kept(files: Files, u: Update, cfg: Settings): Option<Json> {
    var snapshot := FileOf(files, u.target);
    if cfg.mode == Simulate && Truthy(snapshot) && Simulated(snapshot, u).Ok? then
      Some(Simulated(snapshot, u).value)
    else snapshot
  }

  /** The files after the attempt, and whether it went through. */
  function Attempt(files: Files, u: Update, cfg: Settings): (Files, bool) {
    match cfg.mode
    case DryRun => (files, u.key != "" && (u.value != Null || u.action == Remove))
    case Simulate => (files, Simulated(FileOf(files, u.target), u).Ok?)
    case ApplyMode =>
      match AppliedTo(files, u)
      case Raised => (files, false)
      case Ok(files') => (files', !cfg.autoVerify || Verified(files', u) == Ok(true))
  }

  function Execute(x: Executor, u: Update, confirmed: bool, cfg: Settings): Executor {
    if HighRisk(u) && cfg.confirmHighRisk && !confirmed then
      x.(history := x.history + [Entry(u, Skipped, None)], stats := x.stats.(skipped := x.stats.skipped + 1))
    else
      var snapshot := Kept(x.files, u, cfg);
      var (files, ok) := Attempt(x.files, u, cfg);
      if ok then
        Executor(files, x.history + [Entry(u, Success, snapshot)],
                 x.stats.(total := x.stats.total + 1, success := x.stats.success + 1))
      else if cfg.autoRollback && Truthy(snapshot) then
        Executor(files[u.target := snapshot.value], x.history + [Entry(u, RolledBack, snapshot)],
                 x.stats.(total := x.stats.total + 1, rolledBack := x.stats.rolledBack + 1))
      else
        Executor(files, x.history + [Entry(u, Failed, snapshot)],
                 x.stats.(total := x.stats.total + 1, failed := x.stats.failed + 1))
  }

  // ----- rollback_last

  predicate Undoable(e: Entry) {
    e.status == Success && Truthy(e.snapshot)
  }

  /** Undo entry i, if it is a success with a non-empty snapshot. */
  function UndoOne(x: Executor, i: nat): Executor
    requires i < |x.history|
  {
    var e := x.history[i];
    if Undoable(e) then
      x.(files := x.files[e.update.target := e.snapshot.value], history := x.history[i := e.(status := RolledBack)])
    else x
  }

  /** Undo the entries from hi - 1 down to lo. */
  function UndoRange(x: Executor, lo: nat, hi: nat): (r: Executor)
    requires lo <= hi <= |x.history|
    ensures |r.history| == |x.history|
    decreases hi - lo
  {
    if lo == hi then x else UndoRange(UndoOne(x, hi - 1), lo, hi - 1)
  }

  /** Where the slice `history[-count:]` begins; for count 0 it is the whole list. */
  function WindowStart(length: nat, count: int): (lo: nat)
    ensures lo <= length
  {
    if count > 0 then (if count <= length then length - count else 0)
    else if -count <= length then -count else length
  }

  ghost function CountUndoable(history: seq<Entry>, lo: nat, hi: nat): nat
    requires lo <= hi <= |history|
    decreases hi - lo
  {
    if lo == hi then 0 else CountUndoable(history, lo + 1, hi) + if Undoable(history[lo]) then 1 else 0
  }

  function RollbackLast(x: Executor, count: int): Executor {
    UndoRange(x, WindowStart(|x.history|, count), |x.history|)
  }

  // ----- statistics

  ghost predicate StatsBalance(x: Executor) {
    && x.stats.total == x.stats.success + x.stats.failed + x.stats.rolledBack
    && |x.history| == x.stats.total + x.stats.skipped
  }

  // ----- the contents before each execution

  /** The files agree everywhere but at t. */
  ghost predicate SameElsewhere(a: Files, b: Files, t: Target) {
    forall s :: s != t ==> FileOf(a, s) == FileOf(b, s)
  }

  /** Execution i led from pre[i] to pre[i + 1]: a success may change its own target, whose former
      content it keeps as snapshot; anything else changed nothing. */
  ghost predicate Traced(e: Entry, before: Files, after: Files) {
    if e.status == Success then
      e.snapshot == FileOf(before, e.update.target) && SameElsewhere(before, after, e.update.target)
    else before == after
  }

  /** pre[i] is the state of the files before execution i, and the last one is the present. */
  ghost predicate History(x: Executor, pre: seq<Files>) {
    && |pre| == |x.history| + 1 && pre[|x.history|] == x.files
    && forall i :: 0 <= i < |x.history| ==> Traced(x.history[i], pre[i], pre[i + 1])
  }

  /** In a successful APPLY the verification never fails, so an execution fails only by an
      exception of the update itself, before anything is written; only APPLY writes. */
  lemma AttemptExact(files: Files, u: Update, cfg: Settings)
    ensures var (files', ok) := Attempt(files, u, cfg);
            && (!ok || cfg.mode != ApplyMode ==> files' == files)
            && SameElsewhere(files, files', u.target)
            && (cfg.mode == ApplyMode ==> (ok <==> AppliedTo(files, u).Ok?))
            && (!ok || cfg.mode != Simulate ==> Kept(files, u, cfg) == FileOf(files, u.target))
  {
    var config := if u.target in files then files[u.target] else EMPTY_CONFIG;
    if cfg.mode == ApplyMode && Apply(config, Split(u.key), u.action, u.value).Ok? {
      ApplyVerifies(config, Split(u.key), u.action, u.value);
    }
  }

  // ----- what an execution comes to, from its update and the files

  /** Parts without dots that, joined with dots, make the key: the place the update is meant for. */
  ghost predicate PartsOf(parts: Path, key: string) {
    parts != [] && DotFree(parts) && Joined(parts) == key
  }

  /** What stands at a place after an update of it. */
  ghost predicate Holds(config: Json, parts: Path, u: Update) {
    match u.action
    case Remove => ValueAt(config, parts) == None
    case Disable => ValueAt(config, parts) == Some(Bool(false))
    case Enable => ValueAt(config, parts) == Some(Bool(true))
    case _ => ValueAt(config, parts) == Some(u.value)
  }

  /** The file of the update's target holds what it was to leave, at the place its key names. */
  ghost predicate TookEffect(files: Files, u: Update) {
    u.target in files && exists parts :: PartsOf(parts, u.key) && Holds(files[u.target], parts, u)
  }

  ghost predicate SameOffPath(before: Json, after: Json, parts: Path) {
    forall other :: !Comparable(parts, other) ==> ValueAt(after, other) == ValueAt(before, other)
  }

  lemma PartsAreSplit(parts: Path, key: string)
    requires PartsOf(parts, key)
    ensures Split(key) == parts
  {
    SplitOfJoined(parts);
  }

  lemma UpdateHolds(config: Json, parts: Path, u: Update)
    requires PartsOf(parts, u.key) && Apply(config, Split(u.key), u.action, u.value).Ok?
    ensures Holds(Apply(config, Split(u.key), u.action, u.value).value, parts, u)
    ensures SameOffPath(config, Apply(config, Split(u.key), u.action, u.value).value, parts)
  {
    PartsAreSplit(parts, u.key);
    ApplyWrites(config, parts, u.action, u.value);
    forall other | !Comparable(parts, other)
      ensures ValueAt(Apply(config, parts, u.action, u.value).value, other) == ValueAt(config, other)
    {
      ApplyFrames(config, parts, u.action, u.value, other);
    }
  }

  /** A success in APPLY has written the value at the place that the dotted key names, and nothing off that
      path or in another file; in SIMULATE the same has happened to the snapshot kept. */
  lemma SuccessWrites(x: Executor, u: Update, confirmed: bool, cfg: Settings, parts: Path)
    requires PartsOf(parts, u.key)
    requires Execute(x, u, confirmed, cfg).history[|x.history|].status == Success
    ensures var x' := Execute(x, u, confirmed, cfg);
            cfg.mode == ApplyMode ==>
              && u.target in x'.files && Holds(x'.files[u.target], parts, u)
              && SameElsewhere(x.files, x'.files, u.target)
              && SameOffPath(if u.target in x.files then x.files[u.target] else EMPTY_CONFIG,
                             x'.files[u.target], parts)
    ensures var kept := Execute(x, u, confirmed, cfg).history[|x.history|].snapshot;
            cfg.mode == Simulate && Truthy(FileOf(x.files, u.target)) ==>
              && kept.Some? && Holds(kept.value, parts, u) && SameOffPath(x.files[u.target], kept.value, parts)
  {
    var config := if u.target in x.files then x.files[u.target] else EMPTY_CONFIG;
    if Apply(config, Split(u.key), u.action, u.value).Ok? {
      UpdateHolds(config, parts, u);
    }
  }

  /** Python takes for false what is null, zero or empty. */
  lemma TruthyExactly(snapshot: Option<Json>)
    ensures Truthy(snapshot) <==>
            snapshot.Some? && snapshot.value !in {Null, Bool(false), Num(0.0), Str(""), Arr([]), EMPTY_CONFIG}
  {
  }

  /** The executions of high risk: removing a system-call rule, disabling the runtime guard or the audit. */
  ghost predicate Risky(u: Update) {
    (u.target, u.action) in {(LightpoolSeccomp, Remove), (RuntimeGuard, Disable), (AuditConfig, Disable)}
  }

  /** Whether the update can be made: in a dry run by its fields alone, otherwise by the configuration. */
  ghost predicate Feasible(files: Files, u: Update, mode: Mode, parts: Path)
    requires parts != []
  {
    var config := if u.target in files then files[u.target] else EMPTY_CONFIG;
    match mode
    case DryRun => u.key != "" && (u.value != Null || u.action == Remove)
    case ApplyMode => ObjectsAbove(config, parts) && ContainerFits(config, parts, u.action)
    case Simulate =>
      || !Truthy(Some(config))
      || (config.Obj? && ObjectsAbove(config, parts) && ContainerFits(config, parts, u.action))
  }

  lemma {:induction false} ObjectsStay(config: Json, path: Path, action: Action, value: Json)
    requires path != [] && Apply(config, path, action, value).Ok?
    ensures Apply(config, path, action, value).value.Obj? <==> config.Obj?
  {
  }

  lemma SimulationExactly(snapshot: Option<Json>, u: Update, parts: Path)
    requires PartsOf(parts, u.key)
    ensures Simulated(snapshot, u).Ok? <==>
            || !Truthy(snapshot)
            || (snapshot.value.Obj? && ObjectsAbove(snapshot.value, parts)
                && ContainerFits(snapshot.value, parts, u.action))
  {
    PartsAreSplit(parts, u.key);
    if Truthy(snapshot) {
      ApplySucceedsExactly(snapshot.value, parts, u.action, u.value);
      if Apply(snapshot.value, parts, u.action, u.value).Ok? {
        ObjectsStay(snapshot.value, parts, u.action, u.value);
      }
    } else {
      FreshPathFits(parts, u.action, u.value);
      ObjectsStay(EMPTY_CONFIG, parts, u.action, u.value);
    }
  }

  /** What becomes of an execution: skipped for want of a confirmation, otherwise a success exactly when the
      update is feasible, and else rolled back when that is asked for and there is something to roll back to. */
  lemma StatusExactly(x: Executor, u: Update, confirmed: bool, cfg: Settings, parts: Path)
    requires PartsOf(parts, u.key)
    ensures Execute(x, u, confirmed, cfg).history[|x.history|].status ==
            if Risky(u) && cfg.confirmHighRisk && !confirmed then Skipped
            else if Feasible(x.files, u, cfg.mode, parts) then Success
            else if cfg.autoRollback && Truthy(FileOf(x.files, u.target)) then RolledBack
            else Failed
  {
    var config := if u.target in x.files then x.files[u.target] else EMPTY_CONFIG;
    AttemptExact(x.files, u, cfg);
    PartsAreSplit(parts, u.key);
    ApplySucceedsExactly(config, parts, u.action, u.value);
    SimulationExactly(FileOf(x.files, u.target), u, parts);
  }

  /** In every mode the books balance. */
  lemma ExecuteBalances(x: Executor, u: Update, confirmed: bool, cfg: Settings)
    requires StatsBalance(x)
    ensures StatsBalance(Execute(x, u, confirmed, cfg))
    ensures cfg.mode != ApplyMode ==> Execute(x, u, confirmed, cfg).files == x.files
  {
    AttemptExact(x.files, u, cfg);
    if Truthy(FileOf(x.files, u.target)) {
      assert x.files[u.target := FileOf(x.files, u.target).value] == x.files;
    }
  }

  /** What an execution that is not simulated appends to the history: the content it met, unless it was
      skipped, and no other file than its target changed. */
  lemma ExecuteTraced(x: Executor, u: Update, confirmed: bool, cfg: Settings)
    requires cfg.mode != Simulate
    ensures var x' := Execute(x, u, confirmed, cfg);
            var e := x'.history[|x.history|];
            && x'.history == x.history + [e] && e.update == u && Traced(e, x.files, x'.files)
            && (e.status != Skipped ==> e.snapshot == FileOf(x.files, u.target))
  {
    AttemptExact(x.files, u, cfg);
    if Truthy(FileOf(x.files, u.target)) {
      assert x.files[u.target := FileOf(x.files, u.target).value] == x.files;
    }
  }

  /** Every execution but a simulated one extends the history. */
  lemma ExecuteKeeps(x: Executor, pre: seq<Files>, u: Update, confirmed: bool, cfg: Settings)
    requires History(x, pre) && cfg.mode != Simulate
    ensures var x' := Execute(x, u, confirmed, cfg); History(x', pre + [x'.files])
  {
    var x' := Execute(x, u, confirmed, cfg);
    ExecuteTraced(x, u, confirmed, cfg);
    forall i | 0 <= i < |x'.history| ensures Traced(x'.history[i], (pre + [x'.files])[i], (pre + [x'.files])[i + 1]) {
      if i < |x.history| {
        assert Traced(x.history[i], pre[i], pre[i + 1]);
      }
    }
  }

  /** Rolling back a simulated success writes the simulated configuration: the files are as before exactly
      when there was no snapshot to simulate on, or the simulation ends with nothing to write or with no change. */
  lemma SimulatedRollbackExactly(x: Executor, u: Update, confirmed: bool, cfg: Settings)
    requires cfg.mode == Simulate
    requires Execute(x, u, confirmed, cfg).history[|x.history|].status == Success
    ensures var snapshot := FileOf(x.files, u.target);
            var x' := Execute(x, u, confirmed, cfg);
            && x'.files == x.files
            && (RollbackLast(x', 1).files == x.files <==>
                  !Truthy(snapshot) || Simulated(snapshot, u) == Ok(EMPTY_CONFIG)
                  || Simulated(snapshot, u) == Ok(snapshot.value))
  {
    var x' := Execute(x, u, confirmed, cfg);
    var n := |x.history|;
    assert UndoRange(x', n, n + 1) == UndoRange(UndoOne(x', n), n, n) == UndoOne(x', n);
    var kept := x'.history[n].snapshot;
    if Truthy(FileOf(x.files, u.target)) && Truthy(kept) {
      assert x.files[u.target := kept.value][u.target] == kept.value;
      if kept == FileOf(x.files, u.target) {
        assert x.files[u.target := kept.value] == x.files;
      }
    }
  }

  /** A file with {"a": 1}, and the change of "a" to 2. */
  const ONE := Executor(map[EbpfNetwork := Obj(map["a" := Num(1.0)])], [], Stats(0, 0, 0, 0, 0))

  const TO_TWO := Update("u", EbpfNetwork, Change, "a", Num(2.0))

  lemma AppliedToOne()
    ensures Apply(ONE.files[EbpfNetwork], Split("a"), Change, Num(2.0)) == Ok(Obj(map["a" := Num(2.0)]))
    ensures Truthy(FileOf(ONE.files, EbpfNetwork)) && Truthy(Some(Obj(map["a" := Num(2.0)])))
  {
    assert "a"[1..] == "" && Split("") == [""];
    assert ['a'] + "" == "a" && Split("a") == ["a"];
    assert "a" in map["a" := Num(1.0)] && "a" in map["a" := Num(2.0)];
    assert map["a" := Num(1.0)]["a" := Num(2.0)] == map["a" := Num(2.0)];
  }

  /** Simulated on that file and rolled back, the change is made. */
  lemma SimulationCanWrite(cfg: Settings)
    requires cfg.mode == Simulate
    ensures var x' := Execute(ONE, TO_TWO, false, cfg);
            x'.files == ONE.files && RollbackLast(x', 1).files == map[EbpfNetwork := Obj(map["a" := Num(2.0)])]
  {
    var x' := Execute(ONE, TO_TWO, false, cfg);
    AppliedToOne();
    assert UndoRange(x', 0, 1) == UndoRange(UndoOne(x', 0), 0, 0) == UndoOne(x', 0);
  }

  lemma SameFiles(a: Files, b: Files)
    requires forall t :: FileOf(a, t) == FileOf(b, t)
    ensures a == b
  {
    forall t ensures t in a <==> t in b {
      assert FileOf(a, t) == FileOf(b, t);
    }
    forall t | t in a ensures a[t] == b[t] {
      assert FileOf(a, t) == FileOf(b, t);
    }
  }

  /** Undoing an execution whose outcome is in place brings back what was before it. */
  lemma UndoRestores(x: Executor, i: nat, before: Files)
    requires i < |x.history| && Traced(x.history[i], before, x.files)
    requires x.history[i].status == Success ==> Truthy(x.history[i].snapshot)
    ensures UndoOne(x, i).files == before
  {
    var e := x.history[i];
    if e.status == Success {
      SameFiles(UndoOne(x, i).files, before);
    }
  }

  /** Nothing in the window is a success that cannot be undone. */
  ghost predicate WindowUndoable(history: seq<Entry>, lo: nat) {
    forall i :: lo <= i < |history| && history[i].status == Success ==> Truthy(history[i].snapshot)
  }

  /** Rolling back the latest executions restores all files to what they were before the oldest. */
  lemma {:induction false} UndoRangeRestores(x: Executor, pre: seq<Files>, lo: nat, hi: nat)
    requires lo <= hi <= |x.history| && |pre| == |x.history| + 1 && pre[hi] == x.files
    requires forall i :: 0 <= i < hi ==> Traced(x.history[i], pre[i], pre[i + 1])
    requires forall i :: lo <= i < hi && x.history[i].status == Success ==> Truthy(x.history[i].snapshot)
    ensures UndoRange(x, lo, hi).files == pre[lo]
    ensures UndoRange(x, lo, hi).history[..lo] == x.history[..lo]
    ensures UndoRange(x, lo, hi).history[hi..] == x.history[hi..]
    ensures forall i :: lo <= i < hi ==> UndoRange(x, lo, hi).history[i].status != Success
    ensures UndoRange(x, lo, hi).stats == x.stats
    decreases hi - lo
  {
    if lo == hi {
    } else {
      UndoRestores(x, hi - 1, pre[hi - 1]);
      var x1 := UndoOne(x, hi - 1);
      assert x1.history[..lo] == x.history[..lo] && x1.history[hi..] == x.history[hi..];
      UndoRangeRestores(x1, pre, lo, hi - 1);
      var r := UndoRange(x1, lo, hi - 1);
      assert r.history[hi - 1] == x1.history[hi - 1] by {
        assert r.history[hi - 1..][0] == x1.history[hi - 1..][0];
      }
      assert r.history[hi..] == r.history[hi - 1..][1..] == x1.history[hi - 1..][1..] == x1.history[hi..];
    }
  }

  /** The history after a complete rollback: from lo on the files stay as they were before lo. */
  ghost function Rewound(pre: seq<Files>, lo: nat): seq<Files>
    requires lo < |pre|
  {
    pre[..lo] + seq(|pre| - lo, _ => pre[lo])
  }

  lemma RollbackRestores(x: Executor, pre: seq<Files>, count: int)
    requires History(x, pre) && StatsBalance(x)
    requires WindowUndoable(x.history, WindowStart(|x.history|, count))
    ensures var lo := WindowStart(|x.history|, count);
            && RollbackLast(x, count).files == pre[lo]
            && History(RollbackLast(x, count), Rewound(pre, lo))
            && StatsBalance(RollbackLast(x, count))
  {
    var n, lo := |x.history|, WindowStart(|x.history|, count);
    UndoRangeRestores(x, pre, lo, n);
    var r, pre' := RollbackLast(x, count), Rewound(pre, lo);
    forall i | 0 <= i < n ensures Traced(r.history[i], pre'[i], pre'[i + 1]) {
      if i < lo {
        assert r.history[i] == r.history[..lo][i] == x.history[..lo][i];
        assert Traced(x.history[i], pre[i], pre[i + 1]);
      }
    }
  }

  /** A rollback of no execution is one of all: the slice `[-0:]` is the whole list. */
  lemma RollbackOfNone(x: Executor, pre: seq<Files>)
    ensures RollbackLast(x, 0) == RollbackLast(x, |x.history|)
    ensures History(x, pre) && StatsBalance(x) && WindowUndoable(x.history, 0) ==> RollbackLast(x, 0).files == pre[0]
  {
    if History(x, pre) && StatsBalance(x) && WindowUndoable(x.history, 0) {
      RollbackRestores(x, pre, 0);
    }
  }

  /** Applied to {"a": 1}, a change of "a" to 2 is taken back by a rollback of no execution. */
  lemma RollbackOfNoneCanUndo(cfg: Settings)
    requires cfg.mode == ApplyMode
    ensures var x' := Execute(ONE, TO_TWO, false, cfg);
            x'.files == map[EbpfNetwork := Obj(map["a" := Num(2.0)])] && RollbackLast(x', 0).files == ONE.files
  {
    var x' := Execute(ONE, TO_TWO, false, cfg);
    AppliedToOne();
    assert History(ONE, [ONE.files]);
    ExecuteKeeps(ONE, [ONE.files], TO_TWO, false, cfg);
    ExecuteBalances(ONE, TO_TWO, false, cfg);
    RollbackOfNone(x', [ONE.files, x'.files]);
  }

  // ----- whole batches

  /** `execute_updates`. */
  function ExecuteAll(x: Executor, updates: seq<Update>, confirmed: set<string>, cfg: Settings): (r: Executor)
    ensures |r.history| == |x.history| + |updates|
  {
    if updates == [] then x
    else
      var u := updates[|updates| - 1];
      Execute(ExecuteAll(x, updates[..|updates| - 1], confirmed, cfg), u, u.id in confirmed, cfg)
  }

  /** The files after each prefix of a batch. */
  ghost function FilesAlong(x: Executor, updates: seq<Update>, confirmed: set<string>, cfg: Settings): (pre: seq<Files>)
    ensures |pre| == |updates| + 1
  {
    seq(|updates| + 1, i requires 0 <= i <= |updates| => ExecuteAll(x, updates[..i], confirmed, cfg).files)
  }

  lemma {:induction false} BatchIsTraced(x: Executor, updates: seq<Update>, confirmed: set<string>, cfg: Settings)
    requires x.history == [] && StatsBalance(x)
    ensures var r := ExecuteAll(x, updates, confirmed, cfg);
            StatsBalance(r) && (cfg.mode != Simulate ==> History(r, FilesAlong(x, updates, confirmed, cfg)))
    decreases |updates|
  {
    var pre := FilesAlong(x, updates, confirmed, cfg);
    assert updates[..|updates|] == updates;
    if updates == [] {
    } else {
      var front, u := updates[..|updates| - 1], updates[|updates| - 1];
      BatchIsTraced(x, front, confirmed, cfg);
      var before := ExecuteAll(x, front, confirmed, cfg);
      ExecuteBalances(before, u, u.id in confirmed, cfg);
      if cfg.mode != Simulate {
        ExecuteKeeps(before, FilesAlong(x, front, confirmed, cfg), u, u.id in confirmed, cfg);
      }
      forall i | 0 <= i < |updates| ensures front[..i] == updates[..i] {
      }
      assert pre == FilesAlong(x, front, confirmed, cfg) + [ExecuteAll(x, updates, confirmed, cfg).files];
    }
  }

  /** Rolling back the last n updates of a batch leaves the files as the rest of the batch left them. */
  lemma RollbackUndoesBatch(x: Executor, updates: seq<Update>, n: nat, confirmed: set<string>, cfg: Settings)
    requires x.history == [] && StatsBalance(x) && 0 < n <= |updates| && cfg.mode != Simulate
    requires WindowUndoable(ExecuteAll(x, updates, confirmed, cfg).history, |updates| - n)
    ensures RollbackLast(ExecuteAll(x, updates, confirmed, cfg), n).files
         == ExecuteAll(x, updates[..|updates| - n], confirmed, cfg).files
  {
    BatchIsTraced(x, updates, confirmed, cfg);
    RollbackRestores(ExecuteAll(x, updates, confirmed, cfg), FilesAlong(x, updates, confirmed, cfg), n);
  }

  // ----- what exactly comes back, target by target

  /** The first success on t in a window, if any. */
  ghost function FirstSuccess(history: seq<Entry>, lo: nat, hi: nat, t: Target): Option<nat>
    requires lo <= hi <= |history|
    decreases hi - lo
  {
    if lo == hi then None
    else if history[lo].status == Success && history[lo].update.target == t then Some(lo)
    else FirstSuccess(history, lo + 1, hi, t)
  }

  ghost function FirstUndoable(history: seq<Entry>, lo: nat, hi: nat, t: Target): Option<nat>
    requires lo <= hi <= |history|
    decreases hi - lo
  {
    if lo == hi then None
    else if Undoable(history[lo]) && history[lo].update.target == t then Some(lo)
    else FirstUndoable(history, lo + 1, hi, t)
  }

  lemma {:induction false} FirstUndoableLast(history: seq<Entry>, lo: nat, hi: nat, t: Target)
    requires lo < hi <= |history|
    ensures FirstUndoable(history, lo, hi, t) ==
            if FirstUndoable(history, lo, hi - 1, t).Some? then FirstUndoable(history, lo, hi - 1, t)
            else if Undoable(history[hi - 1]) && history[hi - 1].update.target == t then Some(hi - 1) else None
    decreases hi - lo
  {
    if lo == hi - 1 {
    } else {
      FirstUndoableLast(history, lo + 1, hi, t);
    }
  }

  lemma {:induction false} FirstUndoableFrame(history: seq<Entry>, history': seq<Entry>, lo: nat, hi: nat, t: Target)
    requires lo <= hi <= |history| == |history'| && history[..hi] == history'[..hi]
    ensures FirstUndoable(history, lo, hi, t) == FirstUndoable(history', lo, hi, t)
    decreases hi - lo
  {
    if lo == hi {
    } else {
      assert history[lo] == history[..hi][lo] == history'[..hi][lo];
      FirstUndoableFrame(history, history', lo + 1, hi, t);
    }
  }

  /** A rollback leaves in each file the oldest snapshot it can put back, or the file as it is. */
  lemma {:induction false} UndoPerTarget(x: Executor, lo: nat, hi: nat, t: Target)
    requires lo <= hi <= |x.history|
    ensures FileOf(UndoRange(x, lo, hi).files, t) ==
            match FirstUndoable(x.history, lo, hi, t)
            case None => FileOf(x.files, t)
            case Some(i) => if i < |x.history| then x.history[i].snapshot else None
    decreases hi - lo
  {
    if lo == hi {
    } else {
      var x1 := UndoOne(x, hi - 1);
      UndoPerTarget(x1, lo, hi - 1, t);
      FirstUndoableLast(x.history, lo, hi, t);
      assert x1.history[..hi - 1] == x.history[..hi - 1];
      FirstUndoableFrame(x1.history, x.history, lo, hi - 1, t);
      FirstUndoableRange(x.history, lo, hi - 1, t);
    }
  }

  lemma {:induction false} FirstUndoableRange(history: seq<Entry>, lo: nat, hi: nat, t: Target)
    requires lo <= hi <= |history|
    ensures FirstUndoable(history, lo, hi, t).Some? ==>
              var i := FirstUndoable(history, lo, hi, t).value;
              lo <= i < hi && Undoable(history[i]) && history[i].update.target == t
    decreases hi - lo
  {
    if lo == hi {
    } else {
      FirstUndoableRange(history, lo + 1, hi, t);
    }
  }

  lemma {:induction false} FirstSuccessOrigin(x: Executor, pre: seq<Files>, lo: nat, t: Target)
    requires History(x, pre) && lo <= |x.history|
    ensures match FirstSuccess(x.history, lo, |x.history|, t)
            case None => FileOf(x.files, t) == FileOf(pre[lo], t) &&
                         FirstUndoable(x.history, lo, |x.history|, t) == None
            case Some(i) => lo <= i < |x.history| && x.history[i].snapshot == FileOf(pre[lo], t) &&
                            FirstUndoable(x.history, lo, |x.history|, t) ==
                              (if Truthy(x.history[i].snapshot) then Some(i)
                               else FirstUndoable(x.history, i + 1, |x.history|, t))
    decreases |x.history| - lo
  {
    if lo == |x.history| {
    } else {
      assert Traced(x.history[lo], pre[lo], pre[lo + 1]);
      if !(x.history[lo].status == Success && x.history[lo].update.target == t) {
        FirstSuccessOrigin(x, pre, lo + 1, t);
        assert FileOf(pre[lo], t) == FileOf(pre[lo + 1], t);
      }
    }
  }

  /** Exactly when a rollback restores target t to its content before the window: there was no
      success on t, or the first one has a non-empty snapshot, or no success on t can be undone
      and the file happens to be as it was. */
  lemma RollbackRestoresExactly(x: Executor, pre: seq<Files>, count: int, t: Target)
    requires History(x, pre)
    ensures var n, lo := |x.history|, WindowStart(|x.history|, count);
            FileOf(RollbackLast(x, count).files, t) == FileOf(pre[lo], t) <==>
            match FirstSuccess(x.history, lo, n, t)
            case None => true
            case Some(i) =>
              && i < n
              && (|| Truthy(x.history[i].snapshot)
                  || (FirstUndoable(x.history, lo, n, t) == None && FileOf(x.files, t) == x.history[i].snapshot))
  {
    var n, lo := |x.history|, WindowStart(|x.history|, count);
    UndoPerTarget(x, lo, n, t);
    FirstSuccessOrigin(x, pre, lo, t);
    FirstUndoableRange(x.history, lo, n, t);
  }

  /** An update that creates a configuration file is not taken back. */
  lemma CreationIsNotRolledBack(u: Update, cfg: Settings)
    requires cfg.mode == ApplyMode && !HighRisk(u) && u.action == Add
    ensures var x := Execute(Executor(map[], [], Stats(0, 0, 0, 0, 0)), u, false, cfg);
            u.target in RollbackLast(x, 1).files
  {
    var empty := Executor(map[], [], Stats(0, 0, 0, 0, 0));
    FreshPathFits(Split(u.key), u.action, u.value);
    AttemptExact(map[], u, cfg);
    var x := Execute(empty, u, false, cfg);
    assert x.history == [Entry(u, Success, None)];
    assert UndoRange(x, 0, 1) == UndoOne(x, 0) == x;
  }

  // ----- the class

  class DefenseRuleExecutor {
    const cfg: Settings
    var files: Files
    var history: seq<Entry>
    var stats: Stats
    var confirmed: set<string>

    ghost function State(): Executor
      reads this
    {
      Executor(files, history, stats)
    }

    constructor (cfg: Settings, files: Files)
      ensures this.cfg == cfg && State() == Executor(files, [], Stats(0, 0, 0, 0, 0)) && confirmed == {}
      ensures History(State(), [files]) && StatsBalance(State())
    {
      this.cfg, this.files, history, confirmed := cfg, files, [], {};
      stats := Stats(0, 0, 0, 0, 0);
    }

    method ConfirmUpdate(id: string)
      modifies this`confirmed
      ensures confirmed == old(confirmed) + {id}
    {
      confirmed := confirmed + {id};
    }

    method ExecuteUpdate(u: Update) returns (result: Entry)
      modifies this`files, this`history, this`stats
      ensures State() == Execute(old(State()), u, u.id in confirmed, cfg)
      ensures history == old(history) + [result] && result.update == u
      ensures result.status == Skipped <==> Risky(u) && cfg.confirmHighRisk && u.id !in confirmed
      ensures result.status == Success && cfg.mode == ApplyMode ==> TookEffect(files, u)
    {
      ghost var parts := Split(u.key);
      SplitJoins(u.key);
      StatusExactly(State(), u, u.id in confirmed, cfg, parts);
      if Execute(State(), u, u.id in confirmed, cfg).history[|history|].status == Success {
        SuccessWrites(State(), u, u.id in confirmed, cfg, parts);
      }
      if HighRisk(u) && cfg.confirmHighRisk && u.id !in confirmed {
        stats := stats.(skipped := stats.skipped + 1);
        result := Entry(u, Skipped, None);
        history := history + [result];
        return;
      }
      var snapshot, ok := PerformUpdate(u);
      var status := Success;
      if !ok {
        status := Failed;
        if cfg.autoRollback && Truthy(snapshot) {
          files := files[u.target := snapshot.value];
          status := RolledBack;
          stats := stats.(rolledBack := stats.rolledBack + 1);
        }
      }
      stats := stats.(total := stats.total + 1);
      if status == Success {
        stats := stats.(success := stats.success + 1);
      } else if status == Failed {
        stats := stats.(failed := stats.failed + 1);
      }
      result := Entry(u, status, snapshot);
      history := history + [result];
    }

    /** `execute_updates`. */
    method ExecuteUpdates(updates: seq<Update>) returns (results: seq<Entry>)
      modifies this`files, this`history, this`stats
      ensures State() == ExecuteAll(old(State()), updates, confirmed, cfg)
      ensures history == old(history) + results && |results| == |updates|
    {
      results := [];
      for i := 0 to |updates|
        invariant State() == ExecuteAll(old(State()), updates[..i], confirmed, cfg)
        invariant history == old(history) + results && |results| == i
      {
        assert updates[..i + 1][..i] == updates[..i];
        var result := ExecuteUpdate(updates[i]);
        results := results + [result];
      }
      assert updates[..|updates|] == updates;
    }

    /** Take a snapshot and `_execute_by_mode`; ok tells whether no exception was raised. */
    method PerformUpdate(u: Update) returns (snapshot: Option<Json>, ok: bool)
      modifies this`files
      ensures (files, ok) == Attempt(old(files), u, cfg) && snapshot == Kept(old(files), u, cfg)
    {
      snapshot := FileOf(files, u.target);
      match cfg.mode
      case DryRun =>
        ok := u.key != "" && (u.value != Null || u.action == Remove);
      case Simulate =>
        var config := Simulated(snapshot, u);
        ok := config.Ok?;
        if ok && Truthy(snapshot) {
          snapshot := Some(config.value);
        }
      case ApplyMode =>
        match AppliedTo(files, u)
        case Raised =>
          ok := false;
        case Ok(files') =>
          files := files';
          ok := true;
          if cfg.autoVerify {
            var verified := Verified(files, u);
            ok := verified == Ok(true);
          }
    }

    method RollbackLastExecutions(count: int) returns (rolledBack: nat)
      modifies this`files, this`history
      ensures State() == RollbackLast(old(State()), count)
      ensures rolledBack == CountUndoable(old(history), WindowStart(|old(history)|, count), |old(history)|)
    {
      rolledBack := 0;
      var lo, i := WindowStart(|history|, count), |history|;
      while i > lo
        invariant lo <= i <= |history| == |old(history)| && stats == old(stats)
        invariant UndoRange(State(), lo, i) == RollbackLast(old(State()), count)
        invariant forall j :: 0 <= j < i ==> history[j] == old(history)[j]
        invariant rolledBack == CountUndoable(old(history), i, |old(history)|)
      {
        i := i - 1;
        var e := history[i];
        assert e == old(history)[i];
        if e.status == Success && Truthy(e.snapshot) {
          files := files[e.update.target := e.snapshot.value];
          history := history[i := e.(status := RolledBack)];
          rolledBack := rolledBack + 1;
        }
      }
    }
  }
}
