/** `TaskDAG` of agent/orchestrator.cpp: the task table and Kahn's topological sort.
    A dependency list may name a task more than once, or name an unknown task.
 */
module TaskGraph {
  import opened Sequences

  type Id = string

  datatype Status = Pending | Running | Completed | Failed | Cancelled

  datatype Task = Task(role: int, description: string, dependencies: seq<Id>, status: Status, result: string)

  type Table = map<Id, Task>

  // ----- what the sort decides

  /** v depends directly on u. */
  ghost predicate Edge(tasks: Table, v: Id, u: Id) {
    v in tasks && u in tasks[v].dependencies
  }

  /** Each element of the path depends on the next one. */
  ghost predicate DependencyPath(tasks: Table, path: seq<Id>) {
    forall i :: 0 <= i < |path| - 1 ==> Edge(tasks, path[i], path[i + 1])
  }

  ghost predicate Cycle(tasks: Table, path: seq<Id>) {
    |path| > 0 && DependencyPath(tasks, path) && Edge(tasks, path[|path| - 1], path[0])
  }

  ghost predicate Acyclic(tasks: Table) {
    forall path :: !Cycle(tasks, path)
  }

  ghost predicate DependenciesKnown(tasks: Table) {
    forall v, u :: Edge(tasks, v, u) ==> u in tasks
  }

  ghost predicate Sortable(tasks: Table) {
    DependenciesKnown(tasks) && Acyclic(tasks)
  }

  ghost function Elements(s: seq<Id>): set<Id> {
    set x | x in s
  }

  /** Every task of the order comes after everything it depends on. */
  ghost predicate DependenciesFirst(tasks: Table, order: seq<Id>) {
    forall i, u :: 0 <= i < |order| && Edge(tasks, order[i], u) ==> u in order[..i]
  }

  ghost predicate TopologicalOrder(tasks: Table, order: seq<Id>) {
    NoDuplicates(order) && Elements(order) == tasks.Keys && DependenciesFirst(tasks, order)
  }

  // ----- counting

  function Count(s: seq<Id>, x: Id): nat {
    if s == [] then 0 else Count(s[..|s| - 1], x) + if s[|s| - 1] == x then 1 else 0
  }

  /** The number of dependency entries that are not yet in done. */
  ghost function Missing(s: seq<Id>, done: set<Id>): nat {
    if s == [] then 0 else Missing(s[..|s| - 1], done) + if s[|s| - 1] in done then 0 else 1
  }

  lemma {:induction false} CountZero(s: seq<Id>, x: Id)
    ensures Count(s, x) == 0 <==> x !in s
  {
    if s == [] {
    } else {
      var rest := s[..|s| - 1];
      CountZero(rest, x);
      assert s == rest + [s[|s| - 1]];
    }
  }

  lemma {:induction false} MissingZero(s: seq<Id>, done: set<Id>)
    ensures Missing(s, done) == 0 <==> forall x :: x in s ==> x in done
  {
    if s == [] {
    } else {
      var rest := s[..|s| - 1];
      MissingZero(rest, done);
      assert s == rest + [s[|s| - 1]];
    }
  }

  lemma {:induction false} MissingNone(s: seq<Id>)
    ensures Missing(s, {}) == |s|
  {
    if s == [] {
    } else {
      MissingNone(s[..|s| - 1]);
    }
  }

  /** Finishing one more task removes all its entries. */
  lemma {:induction false} MissingStep(s: seq<Id>, done: set<Id>, x: Id)
    requires x !in done
    ensures Missing(s, done + {x}) == Missing(s, done) - Count(s, x)
  {
    if s == [] {
    } else {
      MissingStep(s[..|s| - 1], done, x);
    }
  }

  lemma CountPrefix(s: seq<Id>, j: nat, x: Id)
    requires j < |s|
    ensures Count(s[..j + 1], x) == Count(s[..j], x) + if s[j] == x then 1 else 0
  {
    assert s[..j + 1][..j] == s[..j];
  }

  lemma {:induction false} CountMonotone(s: seq<Id>, j: nat, x: Id)
    requires j <= |s|
    ensures Count(s[..j], x) <= Count(s, x)
    decreases |s| - j
  {
    if j < |s| {
      CountMonotone(s, j + 1, x);
      CountPrefix(s, j, x);
    } else {
      assert s[..j] == s;
    }
  }

  // ----- cycles

  lemma {:induction false} DistinctFits(s: seq<Id>, universe: set<Id>)
    requires NoDuplicates(s) && Elements(s) <= universe
    ensures |s| <= |universe|
    decreases |s|
  {
    if s == [] {
    } else {
      var last, rest := s[|s| - 1], s[..|s| - 1];
      assert forall x :: x in rest ==> x in s;
      DistinctFits(rest, universe - {last});
    }
  }

  lemma PathSuffix(tasks: Table, path: seq<Id>, i: nat)
    requires i <= |path| && DependencyPath(tasks, path)
    ensures DependencyPath(tasks, path[i..])
  {
  }

  /** v depends on a member of left. */
  ghost predicate DependsInto(tasks: Table, v: Id, left: set<Id>) {
    exists u :: u in left && Edge(tasks, v, u)
  }

  lemma ClosingTheCycle(tasks: Table, path: seq<Id>, u: Id) returns (cycle: seq<Id>)
    requires |path| > 0 && DependencyPath(tasks, path) && Edge(tasks, path[|path| - 1], u) && u in path
    ensures Cycle(tasks, cycle)
  {
    var i :| 0 <= i < |path| && path[i] == u;
    PathSuffix(tasks, path, i);
    cycle := path[i..];
  }

  lemma ExtendPath(tasks: Table, path: seq<Id>, u: Id)
    requires |path| > 0 && DependencyPath(tasks, path) && Edge(tasks, path[|path| - 1], u)
    requires NoDuplicates(path) && u !in path
    ensures DependencyPath(tasks, path + [u]) && NoDuplicates(path + [u])
    ensures Elements(path + [u]) == Elements(path) + {u}
  {
  }

  /** A non-empty set in which everything depends on another member contains a cycle. */
  lemma {:induction false} WalkFindsCycle(tasks: Table, left: set<Id>, path: seq<Id>) returns (cycle: seq<Id>)
    requires forall v :: v in left ==> DependsInto(tasks, v, left)
    requires |path| > 0 && NoDuplicates(path) && Elements(path) <= left && DependencyPath(tasks, path)
    ensures Cycle(tasks, cycle)
    decreases |left| - |path|
  {
    assert path[|path| - 1] in Elements(path);
    var u :| u in left && Edge(tasks, path[|path| - 1], u);
    if u in path {
      cycle := ClosingTheCycle(tasks, path, u);
    } else {
      ExtendPath(tasks, path, u);
      DistinctFits(path + [u], left);
      cycle := WalkFindsCycle(tasks, left, path + [u]);
    }
  }

  /** Along a dependency path inside an order, positions only go down. */
  lemma {:induction false} PathDescends(tasks: Table, order: seq<Id>, path: seq<Id>, i: nat)
    requires DependenciesFirst(tasks, order) && DependencyPath(tasks, path) && |path| > 0
    requires i < |order| && order[i] == path[0]
    ensures exists j :: 0 <= j <= i && order[j] == path[|path| - 1]
    decreases |path|
  {
    if |path| == 1 {
    } else {
      assert Edge(tasks, path[0], path[1]);
      var j :| 0 <= j < i && order[..i][j] == path[1];
      PathSuffix(tasks, path, 1);
      PathDescends(tasks, order, path[1..], j);
    }
  }

  lemma OrderExcludesCycles(tasks: Table, order: seq<Id>)
    requires TopologicalOrder(tasks, order)
    ensures Sortable(tasks)
  {
    forall v, u | Edge(tasks, v, u) ensures u in tasks {
      assert v in Elements(order);
      var i :| 0 <= i < |order| && order[i] == v;
      assert u in order[..i];
      assert u in Elements(order);
    }
    forall path ensures !Cycle(tasks, path) {
      if |path| > 0 && DependencyPath(tasks, path) {
        CycleImpossible(tasks, order, path);
      }
    }
  }

  lemma CycleImpossible(tasks: Table, order: seq<Id>, path: seq<Id>)
    requires TopologicalOrder(tasks, order) && DependencyPath(tasks, path) && |path| > 0
    ensures !Edge(tasks, path[|path| - 1], path[0])
  {
    var start := path[|path| - 1];
    if Edge(tasks, start, path[0]) {
      assert start in Elements(order);
      var i :| 0 <= i < |order| && order[i] == start;
      var j :| 0 <= j < i && order[..i][j] == path[0];
      PathDescends(tasks, order, path, j);
    }
  }

  /** v depends on an unknown task or on one outside done. */
  ghost predicate Stuck(tasks: Table, done: set<Id>, v: Id) {
    exists u :: Edge(tasks, v, u) && (u !in tasks || u !in done)
  }

  /** Each task left out depends on an unknown task or on another task left out. */
  ghost predicate LeftOutAreStuck(tasks: Table, done: set<Id>) {
    forall v :: v in tasks && v !in done ==> Stuck(tasks, done, v)
  }

  lemma StuckStaysOut(tasks: Table, done: set<Id>, v: Id)
    requires DependenciesKnown(tasks) && Stuck(tasks, done, v)
    ensures DependsInto(tasks, v, tasks.Keys - done)
  {
  }

  lemma LeftOutExcludesSortable(tasks: Table, done: set<Id>)
    requires done <= tasks.Keys && done != tasks.Keys && LeftOutAreStuck(tasks, done)
    ensures !Sortable(tasks)
  {
    if DependenciesKnown(tasks) {
      var left := tasks.Keys - done;
      forall v | v in left ensures DependsInto(tasks, v, left) {
        StuckStaysOut(tasks, done, v);
      }
      assert !(tasks.Keys <= done);
      var v :| v in tasks.Keys && v !in done;
      var cycle := WalkFindsCycle(tasks, left, [v]);
    }
  }
}
