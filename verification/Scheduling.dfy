/** What repeated scheduling passes can complete: the mathematics behind `AgentOrchestrator::run`. */
module Scheduling {
  import opened TaskGraph

  /** v is pending and everything it depends on is completed. */
  predicate Ready(tasks: Table, v: Id) {
    && v in tasks && tasks[v].status == Pending
    && forall u :: u in tasks[v].dependencies ==> u in tasks && tasks[u].status == Completed
  }

  /** after is before with exactly the ready tasks completed. */
  ghost predicate Pass(before: Table, after: Table) {
    && after.Keys == before.Keys
    && forall v :: v in before ==>
         if Ready(before, v) then after[v] == before[v].(status := Completed, result := after[v].result)
         else after[v] == before[v]
  }

  /** v is not completed by k passes from the given table: it is not pending, or it waits for an
      unknown task or for a task not completed one pass earlier. */
  ghost predicate Blocked(tasks: Table, v: Id, k: nat)
    requires v in tasks
    decreases k
  {
    && tasks[v].status != Completed
    && (k == 0 || tasks[v].status != Pending || WaitsFor(tasks, v, k))
  }

  ghost predicate WaitsFor(tasks: Table, v: Id, k: nat)
    requires v in tasks && k > 0
    decreases k, 0
  {
    exists u :: u in tasks[v].dependencies && (u !in tasks || Blocked(tasks, u, k - 1))
  }

  lemma {:induction false} BlockedShrinks(tasks: Table, v: Id, k: nat)
    requires v in tasks && Blocked(tasks, v, k + 1)
    ensures Blocked(tasks, v, k)
    decreases k
  {
    if k > 0 && tasks[v].status == Pending {
      var u :| u in tasks[v].dependencies && (u !in tasks || Blocked(tasks, u, k));
      if u in tasks {
        BlockedShrinks(tasks, u, k - 1);
      }
      assert WaitsFor(tasks, v, k);
    }
  }

  /** The table after k passes: completed are exactly the tasks that were not blocked for k passes,
      and all others are untouched. */
  ghost predicate AfterPasses(start: Table, now: Table, k: nat) {
    && now.Keys == start.Keys
    && forall v :: v in start ==>
         && (now[v].status == Completed <==> !Blocked(start, v, k))
         && (now[v].status != Completed ==> now[v] == start[v])
         && now[v] == start[v].(status := now[v].status, result := now[v].result)
  }

  lemma ReadyIffUnblocked(start: Table, now: Table, k: nat, v: Id)
    requires AfterPasses(start, now, k) && v in start && Blocked(start, v, k)
    ensures Ready(now, v) <==> !Blocked(start, v, k + 1)
  {
  }

  /** One more pass. */
  lemma PassAdvances(start: Table, now: Table, next: Table, k: nat)
    requires AfterPasses(start, now, k) && Pass(now, next)
    ensures AfterPasses(start, next, k + 1)
  {
    forall v | v in start
      ensures next[v].status == Completed <==> !Blocked(start, v, k + 1)
    {
      if Blocked(start, v, k) {
        ReadyIffUnblocked(start, now, k, v);
      } else if Blocked(start, v, k + 1) {
        BlockedShrinks(start, v, k);
      }
    }
  }

  /** Once nothing is ready, further passes change nothing. */
  lemma {:induction false} Quiescent(start: Table, now: Table, k: nat, more: nat)
    requires AfterPasses(start, now, k) && forall v :: !Ready(now, v)
    ensures AfterPasses(start, now, k + more)
    decreases more
  {
    if more == 0 {
    } else {
      assert Pass(now, now);
      PassAdvances(start, now, now, k);
      Quiescent(start, now, k + 1, more - 1);
    }
  }

  lemma NoPasses(tasks: Table)
    ensures AfterPasses(tasks, tasks, 0)
  {
  }

  // ----- in terms of the dependency graph

  ghost predicate AllPending(tasks: Table) {
    forall v :: v in tasks ==> tasks[v].status == Pending
  }

  /** A chain of k + 1 known tasks, each depending on the next. */
  ghost predicate Chain(tasks: Table, path: seq<Id>, k: nat) {
    |path| == k + 1 && DependencyPath(tasks, path) && forall v :: v in path ==> v in tasks
  }

  /** In a pending graph, being blocked for k passes means heading a chain of k + 1 tasks. */
  lemma {:induction false} BlockedHeadsChain(tasks: Table, v: Id, k: nat) returns (path: seq<Id>)
    requires AllPending(tasks) && DependenciesKnown(tasks) && v in tasks && Blocked(tasks, v, k)
    ensures Chain(tasks, path, k) && path[0] == v
    decreases k
  {
    if k == 0 {
      path := [v];
    } else {
      var u :| u in tasks[v].dependencies && (u !in tasks || Blocked(tasks, u, k - 1));
      assert Edge(tasks, v, u);
      var rest := BlockedHeadsChain(tasks, u, k - 1);
      path := [v] + rest;
    }
  }

  lemma {:induction false} ChainBlocks(tasks: Table, path: seq<Id>, k: nat)
    requires AllPending(tasks) && Chain(tasks, path, k)
    ensures path[0] in tasks && Blocked(tasks, path[0], k)
    decreases k
  {
    assert path[0] in path;
    if k == 0 {
    } else {
      assert Edge(tasks, path[0], path[1]);
      PathSuffix(tasks, path, 1);
      ChainBlocks(tasks, path[1..], k - 1);
      assert WaitsFor(tasks, path[0], k);
    }
  }

  /** A chain in a sortable graph never repeats a task, so it is no longer than the graph. */
  lemma ChainsAreShort(tasks: Table, path: seq<Id>, k: nat)
    requires Acyclic(tasks) && Chain(tasks, path, k)
    ensures k < |tasks|
  {
    forall i, j | 0 <= i < j < |path| ensures path[i] != path[j] {
      PathSuffix(tasks, path, i);
      var loop := path[i..][..j - i];
      forall m | 0 <= m < |loop| - 1 ensures Edge(tasks, loop[m], loop[m + 1]) {
        assert Edge(tasks, path[i + m], path[i + m + 1]);
      }
      assert Edge(tasks, path[j - 1], path[j]);
      assert !Cycle(tasks, loop);
    }
    DistinctFits(path, tasks.Keys);
  }

  ghost predicate NoneBlocked(tasks: Table, k: nat) {
    forall v :: v in tasks ==> !Blocked(tasks, v, k)
  }

  /** k passes complete a pending graph with known dependencies exactly when it has no chain of
      k + 1 tasks. */
  lemma PassesSufficeExactly(tasks: Table, k: nat)
    requires AllPending(tasks) && DependenciesKnown(tasks)
    ensures NoneBlocked(tasks, k) <==> forall path :: !Chain(tasks, path, k)
  {
    if !NoneBlocked(tasks, k) {
      var v :| v in tasks && Blocked(tasks, v, k);
      var path := BlockedHeadsChain(tasks, v, k);
    }
    forall path ensures Chain(tasks, path, k) ==> !NoneBlocked(tasks, k) {
      if Chain(tasks, path, k) {
        ChainBlocks(tasks, path, k);
      }
    }
  }

  lemma {:induction false} CycleBlocks(tasks: Table, cycle: seq<Id>, i: nat, k: nat)
    requires AllPending(tasks) && Cycle(tasks, cycle) && i < |cycle|
    ensures cycle[i] in tasks && Blocked(tasks, cycle[i], k)
    decreases k
  {
    var next := if i + 1 < |cycle| then i + 1 else 0;
    assert Edge(tasks, cycle[i], cycle[next]);
    if k == 0 {
    } else {
      CycleBlocks(tasks, cycle, next, k - 1);
      assert WaitsFor(tasks, cycle[i], k);
    }
  }

  /** The sort predicts the scheduler: a sortable pending graph is completed by as many passes as
      it has tasks, and an unsortable one by no number of passes. */
  lemma SortPredictsScheduling(tasks: Table, k: nat)
    requires AllPending(tasks)
    ensures Sortable(tasks) && |tasks| <= k ==> NoneBlocked(tasks, k)
    ensures !Sortable(tasks) ==> !NoneBlocked(tasks, k)
  {
    if Sortable(tasks) && |tasks| <= k {
      forall path ensures !Chain(tasks, path, k) {
        if Chain(tasks, path, k) {
          ChainsAreShort(tasks, path, k);
        }
      }
      PassesSufficeExactly(tasks, k);
    }
    if !DependenciesKnown(tasks) {
      var v, u :| Edge(tasks, v, u) && u !in tasks;
      assert k > 0 ==> WaitsFor(tasks, v, k);
      assert Blocked(tasks, v, k);
    } else if !Acyclic(tasks) {
      var cycle :| Cycle(tasks, cycle);
      CycleBlocks(tasks, cycle, 0, k);
    }
  }

  /** While a sortable graph that began pending is not completed, every pass finds a ready task. */
  lemma EveryPassFindsWork(start: Table, now: Table, k: nat)
    requires AfterPasses(start, now, k) && AllPending(start) && Sortable(start)
    ensures (exists v :: v in now && now[v].status != Completed) <==> exists v :: Ready(now, v)
  {
    if forall v :: !Ready(now, v) {
      Quiescent(start, now, k, |start|);
      SortPredictsScheduling(start, k + |start|);
    } else {
      var v :| Ready(now, v);
      assert v in now && now[v].status == Pending;
    }
  }

  // ----- growing the graph

  /** Adding a task under a fresh id to a sortable graph keeps it sortable if and only if the graph
      already has everything the task depends on. */
  lemma AddedTaskSorts(tasks: Table, id: Id, task: Task)
    requires Sortable(tasks) && id !in tasks
    ensures Sortable(tasks[id := task]) <==> forall u :: u in task.dependencies ==> u in tasks
  {
    var more := tasks[id := task];
    if forall u :: u in task.dependencies ==> u in tasks {
      forall v, u | Edge(more, v, u) ensures u in tasks {
        assert v != id ==> Edge(tasks, v, u);
      }
      forall path ensures !Cycle(more, path) {
        if Cycle(more, path) {
          OldCycle(tasks, id, task, path);
        }
      }
    } else if DependenciesKnown(more) {
      var u :| u in task.dependencies && u !in tasks;
      assert Edge(more, id, u);
      assert Cycle(more, [id]);
    }
  }

  /** A cycle cannot use a task that nothing depends on. */
  lemma OldCycle(tasks: Table, id: Id, task: Task, path: seq<Id>)
    requires DependenciesKnown(tasks) && id !in tasks && forall u :: u in task.dependencies ==> u in tasks
    requires Cycle(tasks[id := task], path)
    ensures Cycle(tasks, path)
  {
    var more := tasks[id := task];
    forall i | 0 <= i < |path| ensures path[i] in tasks {
      var before := if i > 0 then path[i - 1] else path[|path| - 1];
      assert Edge(more, before, path[i]);
      assert before != id ==> Edge(tasks, before, path[i]);
    }
    forall i | 0 <= i < |path| - 1 ensures Edge(tasks, path[i], path[i + 1]) {
      assert Edge(more, path[i], path[i + 1]);
    }
  }
}
