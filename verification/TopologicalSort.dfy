/** Kahn's algorithm as coded in `TaskDAG::topological_sort` (agent/orchestrator.cpp): counters,
    adjacency lists and a queue.  The hash tables are walked in an arbitrary order.
 */
module TopologicalSort {
  import opened Sequences
  import opened TaskGraph

  type Counters = map<Id, int>
  type Adjacency = map<Id, seq<Id>>

  function SuccessorsOf(adj: Adjacency, u: Id): seq<Id> {
    if u in adj then adj[u] else []
  }

  /** How often adj lists v under u. */
  ghost function Listed(adj: Adjacency, u: Id, v: Id): nat {
    Count(SuccessorsOf(adj, u), v)
  }

  /** adj lists v under u once for every time v names u as a dependency. */
  ghost predicate AdjacencyOf(tasks: Table, adj: Adjacency, seen: set<Id>) {
    forall u, v :: Listed(adj, u, v) == if v in seen && v in tasks then Count(tasks[v].dependencies, u) else 0
  }

  /** adj is adj0 with v recorded under each of the dependencies. */
  ghost predicate Recorded(adj0: Adjacency, adj: Adjacency, v: Id, dependencies: seq<Id>) {
    forall u, w :: Listed(adj, u, w) == Listed(adj0, u, w) + if w == v then Count(dependencies, u) else 0
  }

  lemma CountAppend(s: seq<Id>, x: Id, y: Id)
    ensures Count(s + [x], y) == Count(s, y) + if x == y then 1 else 0
  {
  }

  lemma RecordOne(adj0: Adjacency, adj: Adjacency, v: Id, dependencies: seq<Id>, j: nat)
    requires j < |dependencies| && Recorded(adj0, adj, v, dependencies[..j])
    ensures var dep := dependencies[j];
            Recorded(adj0, adj[dep := SuccessorsOf(adj, dep) + [v]], v, dependencies[..j + 1])
  {
    var dep := dependencies[j];
    var next := adj[dep := SuccessorsOf(adj, dep) + [v]];
    forall u, w
      ensures Listed(next, u, w) == Listed(adj0, u, w) + if w == v then Count(dependencies[..j + 1], u) else 0
    {
      CountPrefix(dependencies, j, u);
      CountAppend(SuccessorsOf(adj, dep), v, w);
      assert Listed(adj, u, w) == Listed(adj0, u, w) + if w == v then Count(dependencies[..j], u) else 0;
    }
  }

  lemma RecordedNothing(adj: Adjacency, v: Id, dependencies: seq<Id>)
    requires dependencies == []
    ensures Recorded(adj, adj, v, dependencies)
  {
    assert forall u :: Count(dependencies, u) == 0;
  }

  /** The inner building loop: record v under each of its dependencies. */
  method AddEdges(adj0: Adjacency, v: Id, dependencies: seq<Id>) returns (adj: Adjacency)
    ensures Recorded(adj0, adj, v, dependencies)
  {
    adj := adj0;
    RecordedNothing(adj, v, dependencies[..0]);
    for j := 0 to |dependencies|
      invariant Recorded(adj0, adj, v, dependencies[..j])
    {
      var dep := dependencies[j];
      RecordOne(adj0, adj, v, dependencies, j);
      adj := adj[dep := SuccessorsOf(adj, dep) + [v]];
    }
    assert dependencies[..|dependencies|] == dependencies;
  }

  lemma RecordTask(tasks: Table, adj0: Adjacency, adj: Adjacency, seen: set<Id>, v: Id)
    requires v in tasks && v !in seen && AdjacencyOf(tasks, adj0, seen)
    requires Recorded(adj0, adj, v, tasks[v].dependencies)
    ensures AdjacencyOf(tasks, adj, seen + {v})
  {
  }

  /** The tables cover the tasks in seen. */
  ghost predicate Built(tasks: Table, inDegree: Counters, adj: Adjacency, seen: set<Id>) {
    && inDegree.Keys == seen <= tasks.Keys
    && (forall v :: v in inDegree ==> inDegree[v] == |tasks[v].dependencies|)
    && AdjacencyOf(tasks, adj, seen)
  }

  method EnterTask(tasks: Table, inDegree0: Counters, adj0: Adjacency, ghost seen: set<Id>, v: Id)
    returns (inDegree: Counters, adj: Adjacency)
    requires v in tasks && v !in seen && Built(tasks, inDegree0, adj0, seen)
    ensures Built(tasks, inDegree, adj, seen + {v})
  {
    inDegree := inDegree0[v := |tasks[v].dependencies|];
    adj := AddEdges(adj0, v, tasks[v].dependencies);
    RecordTask(tasks, adj0, adj, seen, v);
  }

  lemma NothingBuilt(tasks: Table)
    ensures Built(tasks, map[], map[], {})
  {
  }

  /** The first loop: in-degrees and adjacency lists. */
  method BuildGraph(tasks: Table) returns (inDegree: Counters, adj: Adjacency)
    ensures Built(tasks, inDegree, adj, tasks.Keys)
  {
    inDegree, adj := map[], map[];
    NothingBuilt(tasks);
    var todo := tasks.Keys;
    ghost var seen: set<Id> := {};
    while todo != {}
      invariant seen == tasks.Keys - todo && todo <= tasks.Keys
      invariant Built(tasks, inDegree, adj, seen)
      decreases |todo|
    {
      var v :| v in todo;
      inDegree, adj := EnterTask(tasks, inDegree, adj, seen, v);
      seen := seen + {v};
      todo := todo - {v};
    }
  }

  /** The second loop: the tasks that depend on nothing. */
  method InitialQueue(inDegree: Counters) returns (queue: seq<Id>)
    ensures NoDuplicates(queue)
    ensures forall v :: v in queue <==> v in inDegree && inDegree[v] == 0
  {
    queue := [];
    var todo := inDegree.Keys;
    while todo != {}
      invariant todo <= inDegree.Keys && NoDuplicates(queue)
      invariant forall v :: v in queue <==> v in inDegree && v !in todo && inDegree[v] == 0
      decreases |todo|
    {
      var v :| v in todo;
      if inDegree[v] == 0 {
        queue := queue + [v];
      }
      todo := todo - {v};
    }
  }

  /** The innermost loop: count down every successor, queueing those that reach zero. */
  method Release(successors: seq<Id>, inDegree0: Counters, queue0: seq<Id>)
    returns (inDegree: Counters, queue: seq<Id>)
    requires NoDuplicates(queue0)
    requires forall v :: v in successors ==> v in inDegree0
    requires forall v :: v in inDegree0 ==> Count(successors, v) <= inDegree0[v]
    requires forall v :: v in queue0 ==> v in inDegree0 && inDegree0[v] == 0
    ensures inDegree.Keys == inDegree0.Keys
    ensures forall v :: v in inDegree ==> inDegree[v] == inDegree0[v] - Count(successors, v)
    ensures NoDuplicates(queue)
    ensures forall v :: v in queue <==> v in queue0 || (v in inDegree && inDegree[v] == 0 < inDegree0[v])
  {
    inDegree, queue := inDegree0, queue0;
    for j := 0 to |successors|
      invariant inDegree.Keys == inDegree0.Keys
      invariant forall v :: v in inDegree ==> inDegree[v] == inDegree0[v] - Count(successors[..j], v)
      invariant NoDuplicates(queue)
      invariant forall v :: v in queue <==> v in queue0 || (v in inDegree && inDegree[v] == 0 < inDegree0[v])
    {
      var v := successors[j];
      forall w ensures Count(successors[..j + 1], w) == Count(successors[..j], w) + if v == w then 1 else 0 {
        CountPrefix(successors, j, w);
      }
      CountMonotone(successors, j + 1, v);
      inDegree := inDegree[v := inDegree[v] - 1];
      if inDegree[v] == 0 {
        queue := queue + [v];
      }
    }
    assert successors[..|successors|] == successors;
  }

  /** The state between two rounds of the main loop. */
  ghost predicate Sorting(tasks: Table, inDegree: Counters, queue: seq<Id>, order: seq<Id>) {
    && NoDuplicates(order + queue)
    && inDegree.Keys == tasks.Keys
    && (forall v :: v in tasks ==> inDegree[v] == Missing(tasks[v].dependencies, Elements(order)))
    && (forall v :: v in order || v in queue <==> v in tasks && inDegree[v] == 0)
    && DependenciesFirst(tasks, order)
  }

  lemma StartOfSorting(tasks: Table, inDegree: Counters, queue: seq<Id>)
    requires inDegree.Keys == tasks.Keys && NoDuplicates(queue)
    requires forall v :: v in tasks ==> inDegree[v] == |tasks[v].dependencies|
    requires forall v :: v in queue <==> v in inDegree && inDegree[v] == 0
    ensures Sorting(tasks, inDegree, queue, [])
  {
    assert [] + queue == queue;
    assert Elements([]) == {};
    forall v | v in tasks ensures inDegree[v] == Missing(tasks[v].dependencies, Elements([])) {
      MissingNone(tasks[v].dependencies);
    }
  }

  lemma OrderExtends(tasks: Table, inDegree: Counters, queue: seq<Id>, order: seq<Id>)
    requires Sorting(tasks, inDegree, queue, order) && queue != []
    ensures queue[0] in tasks && queue[0] !in order && queue[0] !in queue[1..] && NoDuplicates(queue[1..])
    ensures DependenciesFirst(tasks, order + [queue[0]])
    ensures Elements(order + [queue[0]]) == Elements(order) + {queue[0]}
  {
    var u, longer := queue[0], order + [queue[0]];
    assert (order + queue)[|order|] == u;
    forall i | 0 <= i < |order| ensures order[i] != u {
      assert (order + queue)[i] == order[i];
    }
    forall i | 0 <= i < |queue| ensures (order + queue)[|order| + i] == queue[i] {
    }
    MissingZero(tasks[u].dependencies, Elements(order));
    forall i, x | 0 <= i < |longer| && Edge(tasks, longer[i], x) ensures x in longer[..i] {
      if i < |order| {
        assert longer[..i] == order[..i];
      } else {
        assert longer[..i] == order;
        assert x in Elements(order);
      }
    }
  }

  lemma CountsCoverSuccessors(tasks: Table, inDegree: Counters, adj: Adjacency, queue: seq<Id>, order: seq<Id>)
    requires Sorting(tasks, inDegree, queue, order) && AdjacencyOf(tasks, adj, tasks.Keys) && queue != []
    ensures var s := SuccessorsOf(adj, queue[0]);
            && (forall v :: v in s ==> v in inDegree)
            && (forall v :: v in inDegree ==> Count(s, v) == Count(tasks[v].dependencies, queue[0]))
            && (forall v :: v in inDegree ==>
                  inDegree[v] - Count(s, v) == Missing(tasks[v].dependencies, Elements(order + [queue[0]])))
  {
    var u, s := queue[0], SuccessorsOf(adj, queue[0]);
    OrderExtends(tasks, inDegree, queue, order);
    forall v ensures v in s ==> v in inDegree {
      CountZero(s, v);
      assert Listed(adj, u, v) == if v in tasks then Count(tasks[v].dependencies, u) else 0;
    }
    forall v | v in inDegree
      ensures Count(s, v) == Count(tasks[v].dependencies, u)
      ensures inDegree[v] - Count(s, v) == Missing(tasks[v].dependencies, Elements(order + [u]))
    {
      assert Listed(adj, u, v) == Count(tasks[v].dependencies, u);
      MissingStep(tasks[v].dependencies, Elements(order), u);
    }
  }

  lemma RoundKeepsSorting(tasks: Table, inDegree: Counters, queue: seq<Id>, order: seq<Id>,
                          inDegree': Counters, queue': seq<Id>)
    requires Sorting(tasks, inDegree, queue, order) && queue != []
    requires inDegree'.Keys == tasks.Keys && NoDuplicates(queue')
    requires forall v :: v in tasks ==>
               inDegree'[v] == Missing(tasks[v].dependencies, Elements(order + [queue[0]])) <= inDegree[v]
    requires forall v :: v in queue' <==> v in queue[1..] || (v in tasks && inDegree'[v] == 0 < inDegree[v])
    ensures Sorting(tasks, inDegree', queue', order + [queue[0]])
  {
    var u, longer := queue[0], order + [queue[0]];
    OrderExtends(tasks, inDegree, queue, order);
    forall v ensures v in longer || v in queue' <==> v in tasks && inDegree'[v] == 0 {
      assert v in queue <==> v == u || v in queue[1..];
      assert v in longer <==> v == u || v in order;
    }
    Disjointly(tasks, inDegree, queue, order, inDegree', queue');
    Concatenates(longer, queue');
  }

  lemma Disjointly(tasks: Table, inDegree: Counters, queue: seq<Id>, order: seq<Id>,
                   inDegree': Counters, queue': seq<Id>)
    requires Sorting(tasks, inDegree, queue, order) && queue != [] && inDegree'.Keys == tasks.Keys
    requires forall v :: v in queue' <==> v in queue[1..] || (v in tasks && inDegree'[v] == 0 < inDegree[v])
    ensures NoDuplicates(order + [queue[0]]) && forall v :: v in order + [queue[0]] ==> v !in queue'
  {
    var longer := order + [queue[0]];
    OrderExtends(tasks, inDegree, queue, order);
    forall i, j | 0 <= i < j < |longer| ensures longer[i] != longer[j] {
      assert longer[i] == (order + queue)[i] && longer[j] == (order + queue)[j];
    }
    forall v | v in longer ensures v !in queue' {
      assert v in order || v in queue;
      if v in queue[1..] {
        QueueDisjoint(order, queue, v);
      }
    }
  }

  lemma Concatenates(a: seq<Id>, b: seq<Id>)
    requires NoDuplicates(a) && NoDuplicates(b) && forall v :: v in a ==> v !in b
    ensures NoDuplicates(a + b)
  {
    forall i, j | 0 <= i < j < |a + b| ensures (a + b)[i] != (a + b)[j] {
      if i < |a| <= j {
        assert a[i] in a && b[j - |a|] in b;
      }
    }
  }

  lemma QueueDisjoint(order: seq<Id>, queue: seq<Id>, x: Id)
    requires NoDuplicates(order + queue) && queue != [] && x in queue[1..]
    ensures x != queue[0] && x !in order
  {
    var k :| 0 <= k < |queue| - 1 && queue[1..][k] == x;
    assert (order + queue)[|order| + k + 1] == x;
    assert (order + queue)[|order|] == queue[0];
    forall i | 0 <= i < |order| ensures order[i] != x {
      assert (order + queue)[i] == order[i];
    }
  }

  lemma {:induction false} DistinctSize(s: seq<Id>)
    requires NoDuplicates(s)
    ensures |Elements(s)| == |s|
  {
    if s != [] {
      var last, rest := s[|s| - 1], s[..|s| - 1];
      DistinctSize(rest);
      assert Elements(s) == Elements(rest) + {last};
    } else {
      assert Elements(s) == {};
    }
  }

  /** When the queue runs dry, the tasks left out are stuck, so the sort has decided the graph. */
  lemma SortDecides(tasks: Table, inDegree: Counters, order: seq<Id>)
    requires Sorting(tasks, inDegree, [], order)
    ensures NoDuplicates(order) && Elements(order) <= tasks.Keys && LeftOutAreStuck(tasks, Elements(order))
    ensures |order| == |tasks| ==> TopologicalOrder(tasks, order) && Sortable(tasks)
    ensures |order| != |tasks| ==> !Sortable(tasks)
  {
    var done := Elements(order);
    assert order + [] == order;
    forall v | v in tasks && v !in done ensures Stuck(tasks, done, v) {
      MissingZero(tasks[v].dependencies, done);
      var u :| u in tasks[v].dependencies && u !in done;
      assert Edge(tasks, v, u);
    }
    DistinctSize(order);
    if |order| == |tasks| {
      SubsetOfEqualSize(done, tasks.Keys);
      OrderExcludesCycles(tasks, order);
    } else {
      LeftOutExcludesSortable(tasks, done);
    }
  }

  lemma SubsetOfEqualSize(a: set<Id>, b: set<Id>)
    requires a <= b && |a| == |b|
    ensures a == b
  {
    assert |b - a| == |b| - |a|;
  }

  /** One round of the main loop: move the front of the queue to the order, release its successors. */
  method Round(tasks: Table, adj: Adjacency, inDegree0: Counters, queue0: seq<Id>, order0: seq<Id>)
    returns (inDegree: Counters, queue: seq<Id>, order: seq<Id>)
    requires Sorting(tasks, inDegree0, queue0, order0) && AdjacencyOf(tasks, adj, tasks.Keys) && queue0 != []
    ensures Sorting(tasks, inDegree, queue, order) && order == order0 + [queue0[0]]
  {
    OrderExtends(tasks, inDegree0, queue0, order0);
    CountsCoverSuccessors(tasks, inDegree0, adj, queue0, order0);
    var u := queue0[0];
    order := order0 + [u];
    assert forall v :: v in queue0[1..] ==> v in queue0;
    inDegree, queue := Release(SuccessorsOf(adj, u), inDegree0, queue0[1..]);
    RoundKeepsSorting(tasks, inDegree0, queue0, order0, inDegree, queue);
  }

  /** `TaskDAG::topological_sort`. */
  method Sort(tasks: Table) returns (ok: bool, order: seq<Id>)
    ensures ok <==> Sortable(tasks)
    ensures ok ==> TopologicalOrder(tasks, order)
    ensures NoDuplicates(order) && Elements(order) <= tasks.Keys && DependenciesFirst(tasks, order)
    ensures LeftOutAreStuck(tasks, Elements(order))
  {
    order := [];
    var inDegree, adj := BuildGraph(tasks);
    var queue := InitialQueue(inDegree);
    StartOfSorting(tasks, inDegree, queue);
    while queue != []
      invariant Sorting(tasks, inDegree, queue, order)
      decreases |tasks| - |order|
    {
      inDegree, queue, order := Round(tasks, adj, inDegree, queue, order);
      RoomLeft(tasks, inDegree, queue, order);
    }
    SortDecides(tasks, inDegree, order);
    ok := |order| == |tasks|;
  }

  lemma RoomLeft(tasks: Table, inDegree: Counters, queue: seq<Id>, order: seq<Id>)
    requires Sorting(tasks, inDegree, queue, order)
    ensures |order| <= |tasks|
  {
    forall i | 0 <= i < |order| ensures (order + queue)[i] == order[i] && order[i] in tasks {
    }
    DistinctFits(order, tasks.Keys);
  }
}
