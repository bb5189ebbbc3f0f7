/** Whole runs of `DefenseRuleExecutor` (evolution/defense_executor.py): executions, confirmations and
    rollbacks in any order.
 */
module ConfigRuns {
  import opened ConfigExecutor
  import opened ConfigTree
  import opened Wrappers

  datatype Event =
    | Executing(u: Update)
    | Confirming(id: string)
    | RollingBack(count: int)

  /** An update, and whether it was confirmed when it was executed. */
  datatype Execution = Execution(update: Update, confirmed: bool)

  /** The executor with its past: for each execution the files it met, and whether a rollback went over it
      since (then it is None); and how many executions the rollbacks have undone. */
  datatype World = World(x: Executor, confirmed: set<string>, met: seq<Files>, kept: seq<Option<Execution>>,
                         undone: nat)

  const NO_STATS := Stats(0, 0, 0, 0, 0)

  function Start(files: Files): World {
    World(Executor(files, [], NO_STATS), {}, [], [], 0)
  }

  ghost function Step(w: World, e: Event, cfg: Settings): World {
    match e
    case Executing(u) =>
      var confirmed := u.id in w.confirmed;
      World(Execute(w.x, u, confirmed, cfg), w.confirmed, w.met + [w.x.files],
            w.kept + [Some(Execution(u, confirmed))], w.undone)
    case Confirming(id) => w.(confirmed := w.confirmed + {id})
    case RollingBack(count) =>
      var lo := WindowStart(|w.x.history|, count);
      w.(x := RollbackLast(w.x, count), kept := Cleared(w.kept, lo),
         undone := w.undone + CountUndoable(w.x.history, lo, |w.x.history|))
  }

  ghost function Run(events: seq<Event>, files: Files, cfg: Settings): World {
    if events == [] then Start(files)
    else Step(Run(events[..|events| - 1], files, cfg), events[|events| - 1], cfg)
  }

  function Cleared(kept: seq<Option<Execution>>, lo: nat): (r: seq<Option<Execution>>)
    ensures |r| == |kept| && forall i :: 0 <= i < |kept| ==> r[i] == if i < lo then kept[i] else None
  {
    seq(|kept|, i requires 0 <= i < |kept| => if i < lo then kept[i] else None)
  }

  // ----- what a rollback leaves alone

  /** Undoing changes the files and the status of what it undoes, and nothing else. */
  lemma {:induction false} UndoRangeFrame(x: Executor, lo: nat, hi: nat)
    requires lo <= hi <= |x.history|
    ensures var r := UndoRange(x, lo, hi);
            && r.stats == x.stats
            && forall i :: 0 <= i < |x.history| ==>
                 r.history[i] == if lo <= i < hi && Undoable(x.history[i]) then x.history[i].(status := RolledBack)
                                 else x.history[i]
    decreases hi - lo
  {
    if lo == hi {
    } else {
      UndoRangeFrame(UndoOne(x, hi - 1), lo, hi - 1);
    }
  }

  // ----- the statistics

  /** The number of entries of a status. */
  function Count(history: seq<Entry>, s: Status): nat {
    if history == [] then 0
    else Count(history[..|history| - 1], s) + if history[|history| - 1].status == s then 1 else 0
  }

  /** What the counters say of the history: rollbacks change no counter, so each undone execution still counts as
      a success there, and not as rolled back. */
  ghost predicate BooksBalance(w: World) {
    && StatsBalance(w.x)
    && w.x.stats.success == Count(w.x.history, Success) + w.undone
    && w.x.stats.rolledBack + w.undone == Count(w.x.history, RolledBack)
    && w.x.stats.failed == Count(w.x.history, Failed)
    && w.x.stats.skipped == Count(w.x.history, Skipped)
  }

  lemma {:induction false} CountUndone(history: seq<Entry>, history': seq<Entry>, lo: nat, s: Status)
    requires lo <= |history| == |history'|
    requires forall i :: 0 <= i < |history| ==>
               history'[i] == if lo <= i && Undoable(history[i]) then history[i].(status := RolledBack) else history[i]
    ensures var n := CountUndoable(history, lo, |history|);
            match s
            case Success => Count(history', s) + n == Count(history, s)
            case RolledBack => Count(history', s) == Count(history, s) + n
            case _ => Count(history', s) == Count(history, s)
    decreases |history|
  {
    if history == [] {
    } else if lo == |history| {
      assert history' == history;
    } else {
      var last := |history| - 1;
      CountUndone(history[..last], history'[..last], lo, s);
      CountUndoableLast(history, lo);
    }
  }

  lemma {:induction false} CountUndoableLast(history: seq<Entry>, lo: nat)
    requires lo < |history|
    ensures var last := |history| - 1;
            CountUndoable(history, lo, |history|) ==
              CountUndoable(history[..last], lo, last) + if Undoable(history[last]) then 1 else 0
    decreases |history| - lo
  {
    if lo == |history| - 1 {
    } else {
      CountUndoableLast(history, lo + 1);
    }
  }

  /** A counter for each entry appended, by its status. */
  ghost predicate CountedOn(before: Stats, after: Stats, s: Status) {
    match s
    case Success => after == before.(total := before.total + 1, success := before.success + 1)
    case Failed => after == before.(total := before.total + 1, failed := before.failed + 1)
    case RolledBack => after == before.(total := before.total + 1, rolledBack := before.rolledBack + 1)
    case Skipped => after == before.(skipped := before.skipped + 1)
  }

  lemma ExecutionCounts(x: Executor, u: Update, confirmed: bool, cfg: Settings)
    ensures var x' := Execute(x, u, confirmed, cfg);
            var e := x'.history[|x.history|];
            x'.history == x.history + [e] && CountedOn(x.stats, x'.stats, e.status)
  {
  }

  lemma CountsAppend(history: seq<Entry>, e: Entry)
    ensures Count(history + [e], Success) == Count(history, Success) + if e.status == Success then 1 else 0
    ensures Count(history + [e], RolledBack) == Count(history, RolledBack) + if e.status == RolledBack then 1 else 0
    ensures Count(history + [e], Failed) == Count(history, Failed) + if e.status == Failed then 1 else 0
    ensures Count(history + [e], Skipped) == Count(history, Skipped) + if e.status == Skipped then 1 else 0
  {
    assert (history + [e])[..|history|] == history;
  }

  lemma ExecutionBalances(w: World, u: Update, cfg: Settings)
    requires BooksBalance(w)
    ensures BooksBalance(Step(w, Executing(u), cfg))
  {
    var confirmed := u.id in w.confirmed;
    ExecutionCounts(w.x, u, confirmed, cfg);
    CountsAppend(w.x.history, Execute(w.x, u, confirmed, cfg).history[|w.x.history|]);
  }

  lemma RollbackBalances(w: World, count: int, cfg: Settings)
    requires BooksBalance(w)
    ensures BooksBalance(Step(w, RollingBack(count), cfg))
  {
    var lo, history' := WindowStart(|w.x.history|, count), RollbackLast(w.x, count).history;
    UndoRangeFrame(w.x, lo, |w.x.history|);
    CountUndone(w.x.history, history', lo, Success);
    CountUndone(w.x.history, history', lo, RolledBack);
    CountUndone(w.x.history, history', lo, Failed);
    CountUndone(w.x.history, history', lo, Skipped);
  }

  lemma StepBalances(w: World, e: Event, cfg: Settings)
    requires BooksBalance(w)
    ensures BooksBalance(Step(w, e, cfg))
  {
    match e
    case Executing(u) =>
      ExecutionBalances(w, u, cfg);
    case Confirming(id) =>
    case RollingBack(count) =>
      RollbackBalances(w, count, cfg);
  }

  /** In every run, in every mode, the counters and the history differ by exactly the executions undone. */
  lemma {:induction false} EveryRunBalances(events: seq<Event>, files: Files, cfg: Settings)
    ensures BooksBalance(Run(events, files, cfg))
  {
    if events == [] {
    } else {
      var front := events[..|events| - 1];
      EveryRunBalances(front, files, cfg);
      StepBalances(Run(front, files, cfg), events[|events| - 1], cfg);
    }
  }

  // ----- what a rollback puts back

  /** Whatever was not skipped keeps the content it met. */
  ghost predicate Remembers(w: World) {
    && |w.met| == |w.kept| == |w.x.history|
    && forall i :: 0 <= i < |w.x.history| ==> RemembersAt(w, i)
  }

  ghost predicate RemembersAt(w: World, i: nat)
    requires i < |w.met| == |w.x.history|
  {
    w.x.history[i].status != Skipped ==> w.x.history[i].snapshot == FileOf(w.met[i], w.x.history[i].update.target)
  }

  lemma StepRemembers(w: World, e: Event, cfg: Settings)
    requires Remembers(w) && cfg.mode != Simulate
    ensures Remembers(Step(w, e, cfg))
  {
    var w' := Step(w, e, cfg);
    match e
    case Executing(u) =>
      ExecuteTraced(w.x, u, u.id in w.confirmed, cfg);
      forall i | 0 <= i < |w'.x.history| ensures RemembersAt(w', i) {
        assert i < |w.x.history| ==> RemembersAt(w, i);
      }
    case Confirming(id) =>
      forall i | 0 <= i < |w'.x.history| ensures RemembersAt(w', i) {
        assert RemembersAt(w, i);
      }
    case RollingBack(count) =>
      UndoRangeFrame(w.x, WindowStart(|w.x.history|, count), |w.x.history|);
      forall i | 0 <= i < |w'.x.history| ensures RemembersAt(w', i) {
        assert RemembersAt(w, i);
      }
  }

  lemma {:induction false} EveryRunRemembers(events: seq<Event>, files: Files, cfg: Settings)
    requires cfg.mode != Simulate
    ensures Remembers(Run(events, files, cfg))
  {
    if events == [] {
    } else {
      var front := events[..|events| - 1];
      EveryRunRemembers(front, files, cfg);
      StepRemembers(Run(front, files, cfg), events[|events| - 1], cfg);
    }
  }

  /** In every run that is not simulated, whatever was executed and rolled back before: a rollback leaves in each
      file what was there when the oldest execution that it undoes there began. */
  lemma RollbackPutsBack(events: seq<Event>, files: Files, cfg: Settings, count: int, t: Target)
    requires cfg.mode != Simulate
    ensures var w := Run(events, files, cfg);
            FileOf(Step(w, RollingBack(count), cfg).x.files, t) ==
              match FirstUndoable(w.x.history, WindowStart(|w.x.history|, count), |w.x.history|, t)
              case None => FileOf(w.x.files, t)
              case Some(i) => if i < |w.met| then FileOf(w.met[i], t) else None
  {
    var w := Run(events, files, cfg);
    var n, lo := |w.x.history|, WindowStart(|w.x.history|, count);
    EveryRunRemembers(events, files, cfg);
    UndoPerTarget(w.x, lo, n, t);
    FirstUndoableRange(w.x.history, lo, n, t);
    if FirstUndoable(w.x.history, lo, n, t).Some? {
      assert RemembersAt(w, FirstUndoable(w.x.history, lo, n, t).value);
    }
  }

  /** A dry run changes no file, not even by rollbacks. */
  lemma {:induction false} DryRunWritesNothing(events: seq<Event>, files: Files, cfg: Settings)
    requires cfg.mode == DryRun
    ensures Run(events, files, cfg).x.files == files
    ensures forall i :: 0 <= i < |Run(events, files, cfg).met| ==> Run(events, files, cfg).met[i] == files
  {
    if events == [] {
    } else {
      var front, e := events[..|events| - 1], events[|events| - 1];
      var w := Run(front, files, cfg);
      DryRunWritesNothing(front, files, cfg);
      match e
      case Executing(u) =>
        ExecuteTraced(w.x, u, u.id in w.confirmed, cfg);
        AttemptExact(w.x.files, u, cfg);
        EveryRunBalances(front, files, cfg);
        ExecuteBalances(w.x, u, u.id in w.confirmed, cfg);
      case Confirming(id) =>
      case RollingBack(count) =>
        var n, lo := |w.x.history|, WindowStart(|w.x.history|, count);
        forall t ensures FileOf(Step(w, e, cfg).x.files, t) == FileOf(files, t) {
          EveryRunRemembers(front, files, cfg);
          FirstUndoableRange(w.x.history, lo, n, t);
          RollbackPutsBack(front, files, cfg, count, t);
        }
        SameFiles(Step(w, e, cfg).x.files, files);
    }
  }

  // ----- what is left of a file whose successes were all undone

  /** As Traced, but only a snapshot that can be put back has to be the content before. */
  ghost predicate Loosely(e: Entry, before: Files, after: Files) {
    if e.status == Success then
      && SameElsewhere(before, after, e.update.target)
      && (Undoable(e) ==> e.snapshot == FileOf(before, e.update.target))
    else before == after
  }

  /** The history, less what was undone, leads from pre[0] to the present files. */
  ghost predicate Explained(x: Executor, pre: seq<Files>) {
    && |pre| == |x.history| + 1 && pre[|x.history|] == x.files
    && forall i :: 0 <= i < |x.history| ==> Loosely(x.history[i], pre[i], pre[i + 1])
  }

  /** State k of the trace when the window from lo on is undone. */
  ghost function Undone(x: Executor, pre: seq<Files>, lo: nat, k: nat): Files
    requires k <= |x.history| && |pre| == |x.history| + 1
  {
    if k <= lo then pre[k] else UndoRange(x.(files := pre[k]), lo, k).files
  }

  lemma UndoneNext(x: Executor, pre: seq<Files>, lo: nat, k: nat, t: Target)
    requires lo <= k < |x.history| && |pre| == |x.history| + 1 && Loosely(x.history[k], pre[k], pre[k + 1])
    requires x.history[k].update.target == t && x.history[k].status == Success ==> Undoable(x.history[k])
    ensures FileOf(Undone(x, pre, lo, k), t) == FileOf(Undone(x, pre, lo, k + 1), t)
  {
    UndoPerTarget(x.(files := pre[k]), lo, k, t);
    UndoPerTarget(x.(files := pre[k + 1]), lo, k + 1, t);
    FirstUndoableLast(x.history, lo, k + 1, t);
    FirstUndoableRange(x.history, lo, k, t);
  }

  /** What a rollback makes of an entry in its window. */
  ghost function EntryUndone(e: Entry): Entry {
    if Undoable(e) then e.(status := RolledBack) else e
  }

  lemma UndoneLoosely(x: Executor, pre: seq<Files>, lo: nat, k: nat)
    requires lo <= k < |x.history| && |pre| == |x.history| + 1 && Loosely(x.history[k], pre[k], pre[k + 1])
    ensures Loosely(EntryUndone(x.history[k]), Undone(x, pre, lo, k), Undone(x, pre, lo, k + 1))
  {
    var e := x.history[k];
    forall t | t != e.update.target || e.status != Success || Undoable(e)
      ensures FileOf(Undone(x, pre, lo, k), t) == FileOf(Undone(x, pre, lo, k + 1), t)
    {
      UndoneNext(x, pre, lo, k, t);
    }
    if e.status != Success || Undoable(e) {
      SameFiles(Undone(x, pre, lo, k), Undone(x, pre, lo, k + 1));
    }
  }

  lemma RollbackExplained(x: Executor, pre: seq<Files>, count: int) returns (pre': seq<Files>)
    requires Explained(x, pre)
    ensures Explained(RollbackLast(x, count), pre') && pre'[0] == pre[0]
  {
    var n, lo := |x.history|, WindowStart(|x.history|, count);
    var r := RollbackLast(x, count);
    pre' := seq(n + 1, k requires 0 <= k <= n => Undone(x, pre, lo, k));
    UndoRangeFrame(x, lo, n);
    assert x.(files := x.files) == x;
    forall k | 0 <= k < n ensures Loosely(r.history[k], pre'[k], pre'[k + 1]) {
      assert Loosely(x.history[k], pre[k], pre[k + 1]);
      if lo <= k {
        UndoneLoosely(x, pre, lo, k);
      }
    }
  }

  lemma ExecutionExplained(x: Executor, pre: seq<Files>, u: Update, confirmed: bool, cfg: Settings)
    requires Explained(x, pre) && cfg.mode != Simulate
    ensures var x' := Execute(x, u, confirmed, cfg); Explained(x', pre + [x'.files])
  {
    var x' := Execute(x, u, confirmed, cfg);
    ExecuteTraced(x, u, confirmed, cfg);
    forall i | 0 <= i < |x'.history| ensures Loosely(x'.history[i], (pre + [x'.files])[i], (pre + [x'.files])[i + 1]) {
      assert i < |x.history| ==> Loosely(x.history[i], pre[i], pre[i + 1]);
    }
  }

  lemma {:induction false} EveryRunExplained(events: seq<Event>, files: Files, cfg: Settings) returns (pre: seq<Files>)
    requires cfg.mode != Simulate
    ensures Explained(Run(events, files, cfg).x, pre) && pre[0] == files
  {
    if events == [] {
      pre := [files];
    } else {
      var front := events[..|events| - 1];
      var w := Run(front, files, cfg);
      pre := EveryRunExplained(front, files, cfg);
      match events[|events| - 1]
      case Executing(u) =>
        ExecutionExplained(w.x, pre, u, u.id in w.confirmed, cfg);
        pre := pre + [Execute(w.x, u, u.id in w.confirmed, cfg).files];
      case Confirming(id) =>
      case RollingBack(count) =>
        pre := RollbackExplained(w.x, pre, count);
    }
  }

  ghost predicate NoSuccessLeft(history: seq<Entry>, t: Target) {
    forall i :: 0 <= i < |history| && history[i].status == Success ==> history[i].update.target != t
  }

  lemma {:induction false} UntouchedSince(x: Executor, pre: seq<Files>, k: nat, t: Target)
    requires Explained(x, pre) && k <= |x.history| && NoSuccessLeft(x.history, t)
    ensures FileOf(pre[k], t) == FileOf(pre[0], t)
  {
    if k == 0 {
    } else {
      UntouchedSince(x, pre, k - 1, t);
      assert Loosely(x.history[k - 1], pre[k - 1], pre[k]);
    }
  }

  /** In every run that is not simulated: a file for which the history has no success, or none any more, has the
      content it had at the start. */
  lemma NothingLeftNothingChanged(events: seq<Event>, files: Files, cfg: Settings, t: Target)
    requires cfg.mode != Simulate && NoSuccessLeft(Run(events, files, cfg).x.history, t)
    ensures FileOf(Run(events, files, cfg).x.files, t) == FileOf(files, t)
  {
    var x := Run(events, files, cfg).x;
    var pre := EveryRunExplained(events, files, cfg);
    UntouchedSince(x, pre, |x.history|, t);
  }

  // ----- rolling back is as if never executed

  function EffectOn(files: Files, u: Update, confirmed: bool, cfg: Settings): Files {
    Execute(Executor(files, [], NO_STATS), u, confirmed, cfg).files
  }

  /** The files when only the kept executions are made. */
  function Replay(kept: seq<Option<Execution>>, files: Files, cfg: Settings): Files {
    if kept == [] then files
    else
      var before := Replay(kept[..|kept| - 1], files, cfg);
      match kept[|kept| - 1]
      case None => before
      case Some(e) => EffectOn(before, e.update, e.confirmed, cfg)
  }

  ghost function Replays(kept: seq<Option<Execution>>, files: Files, cfg: Settings): (pre: seq<Files>)
    ensures |pre| == |kept| + 1
  {
    seq(|kept| + 1, k requires 0 <= k <= |kept| => Replay(kept[..k], files, cfg))
  }

  lemma ReplaysAppend(kept: seq<Option<Execution>>, e: Execution, files: Files, cfg: Settings)
    ensures Replays(kept + [Some(e)], files, cfg) ==
            Replays(kept, files, cfg) + [EffectOn(Replay(kept, files, cfg), e.update, e.confirmed, cfg)]
  {
    var longer := kept + [Some(e)];
    forall k | 0 <= k <= |kept| ensures longer[..k] == kept[..k] {
    }
    assert longer[..|longer|] == longer && longer[..|kept|] == kept;
  }

  lemma {:induction false} ReplayCleared(kept: seq<Option<Execution>>, lo: nat, k: nat, files: Files, cfg: Settings)
    requires lo <= k <= |kept|
    ensures Replay(Cleared(kept, lo)[..k], files, cfg) == Replay(kept[..lo], files, cfg)
    decreases k
  {
    var cleared := Cleared(kept, lo);
    if k == lo {
      assert cleared[..k] == kept[..lo];
    } else {
      ReplayCleared(kept, lo, k - 1, files, cfg);
      assert cleared[..k][..k - 1] == cleared[..k - 1];
    }
  }

  lemma ReplaysCleared(kept: seq<Option<Execution>>, lo: nat, files: Files, cfg: Settings)
    requires lo <= |kept|
    ensures Replays(Cleared(kept, lo), files, cfg) == Rewound(Replays(kept, files, cfg), lo)
  {
    var cleared := Cleared(kept, lo);
    forall k | 0 <= k <= |kept|
      ensures Replay(cleared[..k], files, cfg) == Rewound(Replays(kept, files, cfg), lo)[k]
    {
      if k < lo {
        assert cleared[..k] == kept[..k];
      } else {
        ReplayCleared(kept, lo, k, files, cfg);
      }
    }
  }

  /** Every rollback of the run finds a non-empty snapshot for each success in its window. */
  ghost predicate RollbacksUndoable(events: seq<Event>, files: Files, cfg: Settings) {
    events == [] ||
    (var front, e := events[..|events| - 1], events[|events| - 1];
     && RollbacksUndoable(front, files, cfg)
     && (e.RollingBack? ==>
           var history := Run(front, files, cfg).x.history; WindowUndoable(history, WindowStart(|history|, e.count))))
  }

  /** The replays of what is kept trace the history. */
  ghost predicate Replayed(w: World, files: Files, cfg: Settings) {
    |w.kept| == |w.x.history| && History(w.x, Replays(w.kept, files, cfg))
  }

  lemma ReplayedFiles(w: World, files: Files, cfg: Settings)
    requires Replayed(w, files, cfg)
    ensures Replay(w.kept, files, cfg) == w.x.files
  {
    assert w.kept[..|w.kept|] == w.kept;
  }

  lemma ExecutionReplayed(w: World, u: Update, files: Files, cfg: Settings)
    requires Replayed(w, files, cfg) && cfg.mode != Simulate
    ensures Replayed(Step(w, Executing(u), cfg), files, cfg)
  {
    var confirmed := u.id in w.confirmed;
    ReplayedFiles(w, files, cfg);
    ReplaysAppend(w.kept, Execution(u, confirmed), files, cfg);
    ExecuteKeeps(w.x, Replays(w.kept, files, cfg), u, confirmed, cfg);
  }

  lemma RollbackReplayed(w: World, count: int, files: Files, cfg: Settings)
    requires Replayed(w, files, cfg) && StatsBalance(w.x)
    requires WindowUndoable(w.x.history, WindowStart(|w.x.history|, count))
    ensures Replayed(Step(w, RollingBack(count), cfg), files, cfg)
  {
    ReplaysCleared(w.kept, WindowStart(|w.x.history|, count), files, cfg);
    RollbackRestores(w.x, Replays(w.kept, files, cfg), count);
  }

  lemma {:induction false} EveryRunReplayed(events: seq<Event>, files: Files, cfg: Settings)
    requires cfg.mode != Simulate && RollbacksUndoable(events, files, cfg)
    ensures Replayed(Run(events, files, cfg), files, cfg)
  {
    if events == [] {
    } else {
      var front := events[..|events| - 1];
      var w := Run(front, files, cfg);
      EveryRunReplayed(front, files, cfg);
      match events[|events| - 1]
      case Executing(u) =>
        ExecutionReplayed(w, u, files, cfg);
      case Confirming(id) =>
      case RollingBack(count) =>
        EveryRunBalances(front, files, cfg);
        RollbackReplayed(w, count, files, cfg);
    }
  }

  /** If its rollbacks find what they need, a run leaves the files as they are when the executions that a rollback
      has gone over are never made. */
  lemma AsIfNeverExecuted(events: seq<Event>, files: Files, cfg: Settings)
    requires cfg.mode != Simulate && RollbacksUndoable(events, files, cfg)
    ensures Run(events, files, cfg).x.files == Replay(Run(events, files, cfg).kept, files, cfg)
  {
    EveryRunReplayed(events, files, cfg);
    ReplayedFiles(Run(events, files, cfg), files, cfg);
  }
}
