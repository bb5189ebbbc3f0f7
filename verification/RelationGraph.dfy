/** `SemanticMemoryStore` (evolution/memory_enhancement.py): the relation graph over the memories
    and its depth-bounded traversal, which looks every memory up in the context manager.
 */
module RelationGraph {
  import opened ContextModel
  import opened ContextEffects
  import opened ContextManager
  import opened Wrappers

  type Graph = map<Id, set<Id>>

  function Neighbours(g: Graph, v: Id): set<Id> {
    if v in g then g[v] else {}
  }

  ghost predicate Symmetric(g: Graph) {
    forall v, w :: w in Neighbours(g, v) ==> v in Neighbours(g, w)
  }

  // ----- distance

  /** w can be reached from v in exactly n steps. */
  ghost predicate Walk(g: Graph, v: Id, w: Id, n: nat)
    decreases n
  {
    if n == 0 then v == w else exists u :: Walk(g, v, u, n - 1) && w in Neighbours(g, u)
  }

  ghost predicate WithinHops(g: Graph, v: Id, w: Id, depth: int) {
    exists n: nat :: n <= depth && Walk(g, v, w, n)
  }

  lemma {:induction false} WalkFromFront(g: Graph, v: Id, u: Id, w: Id, n: nat)
    requires u in Neighbours(g, v) && Walk(g, u, w, n)
    ensures Walk(g, v, w, n + 1)
    decreases n
  {
    if n == 0 {
      assert Walk(g, v, v, 0);
    } else {
      var x :| Walk(g, u, x, n - 1) && w in Neighbours(g, x);
      WalkFromFront(g, v, u, x, n - 1);
    }
  }

  /** In a symmetric graph, being within reach is mutual. */
  lemma {:induction false} WalkBackwards(g: Graph, v: Id, w: Id, n: nat)
    requires Symmetric(g) && Walk(g, v, w, n)
    ensures Walk(g, w, v, n)
    decreases n
  {
    if n == 0 {
    } else {
      var u :| Walk(g, v, u, n - 1) && w in Neighbours(g, u);
      WalkBackwards(g, v, u, n - 1);
      assert u in Neighbours(g, w);
      WalkFromFront(g, w, u, v, n - 1);
    }
  }

  // ----- the traversal, without the look-ups

  /** A queue entry: a node and the number of hops it was found at. */
  type Entry = (Id, nat)

  ghost predicate Justified(g: Graph, start: Id, queue: seq<Entry>) {
    forall i :: 0 <= i < |queue| ==> Walk(g, start, queue[i].0, queue[i].1)
  }

  /** The hops in the queue do not fall, span at most one step, and start at d or later. */
  ghost predicate Ordered(queue: seq<Entry>, d: nat) {
    && (forall i, j :: 0 <= i <= j < |queue| ==> queue[i].1 <= queue[j].1)
    && (forall i :: 0 <= i < |queue| ==> d <= queue[i].1 <= d + 1)
  }

  /** w will be visited no later than at level n. */
  ghost predicate Covered(levels: map<Id, nat>, queue: seq<Entry>, w: Id, n: nat) {
    if w in levels then levels[w] <= n else (w, n) in queue
  }

  /** Each visited node carries the hops of a walk to it, at most d. */
  ghost predicate Reached(g: Graph, start: Id, depth: int, levels: map<Id, nat>, d: nat) {
    forall v :: v in levels ==> levels[v] <= d && levels[v] <= depth && Walk(g, start, v, levels[v])
  }

  /** v has been expanded: its neighbours within the depth are covered. */
  ghost predicate Expanded(g: Graph, depth: int, levels: map<Id, nat>, queue: seq<Entry>, v: Id)
    requires v in levels
  {
    levels[v] < depth ==> forall w :: w in Neighbours(g, v) ==> Covered(levels, queue, w, levels[v] + 1)
  }

  ghost predicate Explored(g: Graph, start: Id, depth: int, levels: map<Id, nat>, queue: seq<Entry>) {
    && (forall v :: v in levels ==> Expanded(g, depth, levels, queue, v))
    && (0 <= depth ==> Covered(levels, queue, start, 0))
  }

  ghost predicate Traversing(g: Graph, start: Id, depth: int, levels: map<Id, nat>, queue: seq<Entry>, d: nat) {
    && Justified(g, start, queue) && Ordered(queue, d)
    && Reached(g, start, depth, levels, d) && Explored(g, start, depth, levels, queue)
  }

  lemma TraversalStarts(g: Graph, start: Id, depth: int)
    ensures Traversing(g, start, depth, map[], [(start, 0)], 0)
  {
  }

  /** Skipping an entry that is beyond the depth or already visited. */
  lemma SkipKeeps(g: Graph, start: Id, depth: int, levels: map<Id, nat>, queue: seq<Entry>, d: nat)
    requires Traversing(g, start, depth, levels, queue, d) && queue != []
    requires queue[0].0 in levels || queue[0].1 > depth
    ensures Traversing(g, start, depth, levels, queue[1..], queue[0].1)
  {
  }

  /** more extends rest by the unvisited neighbours, one hop further. */
  ghost predicate Pushed(rest: seq<Entry>, more: seq<Entry>, visited: set<Id>, neighbours: set<Id>, n: nat) {
    && rest <= more
    && (forall i :: |rest| <= i < |more| ==> more[i].1 == n && more[i].0 in neighbours && more[i].0 !in visited)
    && (forall w :: w in neighbours && w !in visited ==> (w, n) in more)
  }

  lemma VisitCovers(levels: map<Id, nat>, queue: seq<Entry>, more: seq<Entry>, d: nat, w: Id, n: nat)
    requires queue != [] && Ordered(queue, d) && Covered(levels, queue, w, n) && queue[1..] <= more
    requires queue[0].0 !in levels
    ensures Covered(levels[queue[0].0 := queue[0].1], more, w, n)
  {
  }

  /** Visiting the front entry and pushing its unvisited neighbours. */
  lemma VisitKeeps(g: Graph, start: Id, depth: int, levels: map<Id, nat>, queue: seq<Entry>, d: nat, more: seq<Entry>)
    requires Traversing(g, start, depth, levels, queue, d) && queue != []
    requires queue[0].0 !in levels && queue[0].1 <= depth
    requires Pushed(queue[1..], more, levels.Keys + {queue[0].0}, Neighbours(g, queue[0].0), queue[0].1 + 1)
    ensures Traversing(g, start, depth, levels[queue[0].0 := queue[0].1], more, queue[0].1)
  {
    var (x, dx) := queue[0];
    assert Walk(g, start, x, dx) && d <= dx;
    PushedEntries(g, start, queue, d, more, levels.Keys + {x});
    forall v | v in levels ensures Expanded(g, depth, levels[x := dx], more, v) {
      assert Expanded(g, depth, levels, queue, v);
      StaysExpanded(g, depth, levels, queue, d, more, v);
    }
    FrontExpanded(g, depth, levels, queue, d, more);
    if 0 <= depth {
      VisitCovers(levels, queue, more, d, start, 0);
    }
  }

  lemma PushedEntries(g: Graph, start: Id, queue: seq<Entry>, d: nat, more: seq<Entry>, visited: set<Id>)
    requires Justified(g, start, queue) && Ordered(queue, d) && queue != []
    requires Pushed(queue[1..], more, visited, Neighbours(g, queue[0].0), queue[0].1 + 1)
    ensures Justified(g, start, more) && Ordered(more, queue[0].1)
  {
  }

  lemma FrontExpanded(g: Graph, depth: int, levels: map<Id, nat>, queue: seq<Entry>, d: nat, more: seq<Entry>)
    requires queue != [] && Ordered(queue, d) && forall v :: v in levels ==> levels[v] <= d
    requires Pushed(queue[1..], more, levels.Keys + {queue[0].0}, Neighbours(g, queue[0].0), queue[0].1 + 1)
    ensures Expanded(g, depth, levels[queue[0].0 := queue[0].1], more, queue[0].0)
  {
  }

  lemma StaysExpanded(g: Graph, depth: int, levels: map<Id, nat>, queue: seq<Entry>, d: nat, more: seq<Entry>, v: Id)
    requires queue != [] && Ordered(queue, d) && queue[0].0 !in levels && queue[1..] <= more
    requires v in levels && Expanded(g, depth, levels, queue, v)
    ensures Expanded(g, depth, levels[queue[0].0 := queue[0].1], more, v)
  {
  }

  /** Once the queue is empty every node within the depth is visited, at its distance. */
  lemma {:induction false} AllReached(g: Graph, start: Id, depth: int, levels: map<Id, nat>, w: Id, n: nat)
    requires Explored(g, start, depth, levels, [])
    requires n <= depth && Walk(g, start, w, n)
    ensures w in levels && levels[w] <= n
    decreases n
  {
    if n == 0 {
      assert Covered(levels, [], start, 0);
    } else {
      var u :| Walk(g, start, u, n - 1) && w in Neighbours(g, u);
      AllReached(g, start, depth, levels, u, n - 1);
      assert Expanded(g, depth, levels, [], u);
      assert Covered(levels, [], w, levels[u] + 1);
    }
  }

  /** levels maps exactly the nodes within the depth, each to its distance from the start. */
  ghost predicate Distances(g: Graph, start: Id, depth: int, levels: map<Id, nat>) {
    && (forall w :: w in levels <==> WithinHops(g, start, w, depth))
    && (forall w :: w in levels ==> Walk(g, start, w, levels[w]))
    && (forall w, n: nat :: w in levels && Walk(g, start, w, n) ==> levels[w] <= n)
  }

  lemma TraversalEnds(g: Graph, start: Id, depth: int, levels: map<Id, nat>, d: nat)
    requires Traversing(g, start, depth, levels, [], d)
    ensures Distances(g, start, depth, levels)
  {
    forall w ensures w in levels <==> WithinHops(g, start, w, depth) {
      if WithinHops(g, start, w, depth) {
        var n: nat :| n <= depth && Walk(g, start, w, n);
        AllReached(g, start, depth, levels, w, n);
      }
    }
    forall w, n: nat | w in levels && Walk(g, start, w, n) ensures levels[w] <= n {
      if n <= depth {
        AllReached(g, start, depth, levels, w, n);
      }
    }
  }

  // ----- the store

  /** The neighbours still to visit are appended, in any order. */
  method PushNeighbours(rest: seq<Entry>, visited: set<Id>, neighbours: set<Id>, n: nat) returns (more: seq<Entry>)
    ensures Pushed(rest, more, visited, neighbours, n)
  {
    more := rest;
    var todo := neighbours;
    while todo != {}
      invariant todo <= neighbours && Pushed(rest, more, visited, neighbours - todo, n)
      decreases |todo|
    {
      var w :| w in todo;
      if w !in visited {
        more := more + [(w, n)];
      }
      todo := todo - {w};
    }
    assert neighbours - todo == neighbours;
  }

  ghost function Ids(s: seq<Memory>): set<Id> {
    set i | 0 <= i < |s| :: s[i].id
  }

  lemma IdsAppend(s: seq<Memory>, m: Memory)
    requires DistinctIds(s) && m.id !in Ids(s)
    ensures DistinctIds(s + [m]) && Ids(s + [m]) == Ids(s) + {m.id}
  {
    forall i | 0 <= i < |s| ensures s[i].id in Ids(s) && (s + [m])[i] == s[i] {
    }
    assert (s + [m])[|s|] == m;
    assert Ids(s) <= Ids(s + [m]) by {
      forall id | id in Ids(s) ensures id in Ids(s + [m]) {
        var i :| 0 <= i < |s| && s[i].id == id;
        assert (s + [m])[i].id == id;
      }
    }
    assert m.id in Ids(s + [m]);
  }

  /** The visited nodes, the start excepted, are those answered and those missing. */
  ghost predicate Accounted(related: seq<Memory>, missing: set<Id>, visited: set<Id>, start: Id) {
    DistinctIds(related) && Ids(related) !! missing && Ids(related) + missing == visited - {start}
  }

  /** What was answered, and what was missing, since the context was c0: a missing id was not held
      then, or has overflowed since. */
  ghost predicate Judged(c0: Context, c: Context, visited: set<Id>, missing: set<Id>, start: Id) {
    Moves(c0, c) && forall id :: id in visited && id != start ==> JudgedId(c0, c, missing, id)
  }

  ghost predicate JudgedId(c0: Context, c: Context, missing: set<Id>, id: Id) {
    if id in missing then !Held(c0, id) || Overflowed(c, |c0.overflow|, id) else Held(c0, id)
  }

  lemma JudgementGrows(c0: Context, c: Context, c': Context, visited: set<Id>, missing: set<Id>, missing': set<Id>,
                       start: Id, current: Id)
    requires Judged(c0, c, visited, missing, start) && Moves(c, c') && current !in visited
    requires missing' == if current != start && !Held(c, current) then missing + {current} else missing
    requires current !in missing
    ensures Judged(c0, c', visited + {current}, missing', start)
  {
    MovesCompose(c0, c, c');
    forall id | id in visited + {current} && id != start ensures JudgedId(c0, c', missing', id) {
      if id == current {
        assert MovesId(c0, c, id);
        if Overflowed(c, |c0.overflow|, id) {
          OverflowedStays(c, c', |c0.overflow|, id);
        }
      } else {
        assert JudgedId(c0, c, missing, id);
        if id in missing && Overflowed(c, |c0.overflow|, id) {
          OverflowedStays(c, c', |c0.overflow|, id);
        }
      }
    }
  }

  lemma NothingJudged(c: Context, start: Id)
    ensures Judged(c, c, {}, {}, start)
  {
  }

  /** The answers come in the order of their levels. */
  ghost predicate Ranked(related: seq<Memory>, levels: map<Id, nat>) {
    && (forall i :: 0 <= i < |related| ==> related[i].id in levels)
    && (forall i, j :: 0 <= i <= j < |related| ==> levels[related[i].id] <= levels[related[j].id])
  }

  /** One more answer, for the given id. */
  ghost predicate OneMore(before: seq<Memory>, after: seq<Memory>, id: Id) {
    |after| == |before| + 1 && before <= after && after[|before|].id == id
  }

  lemma RankingGrows(related: seq<Memory>, related': seq<Memory>, levels: map<Id, nat>, current: Id, hops: nat)
    requires Ranked(related, levels) && current !in levels && forall v :: v in levels ==> levels[v] <= hops
    requires related' == related || OneMore(related, related', current)
    ensures Ranked(related', levels[current := hops])
  {
  }

  /** All nodes of the queue lie in the graph, or are the start. */
  ghost predicate KnownNodes(g: Graph, start: Id, queue: seq<Entry>) {
    forall i :: 0 <= i < |queue| ==> queue[i].0 in g.Keys + {start}
  }

  lemma PushedAreKnown(g: Graph, start: Id, current: Id, queue: seq<Entry>, more: seq<Entry>, visited: set<Id>, n: nat)
    requires Symmetric(g) && queue != [] && Pushed(queue[1..], more, visited, Neighbours(g, current), n)
    requires KnownNodes(g, start, queue)
    ensures KnownNodes(g, start, more)
  {
    forall i | 0 <= i < |more| ensures more[i].0 in g.Keys + {start} {
      if i < |queue| - 1 {
        assert more[i] == queue[1..][i];
      } else {
        assert current in Neighbours(g, more[i].0);
      }
    }
  }

  /** Replace the front entry, just visited, by its unvisited neighbours at the end. */
  method Expand(g: Graph, ghost start: Id, ghost depth: int, queue: seq<Entry>, visited: set<Id>,
                ghost levels: map<Id, nat>, ghost d: nat) returns (more: seq<Entry>)
    requires Symmetric(g) && Traversing(g, start, depth, levels, queue, d) && KnownNodes(g, start, queue)
    requires queue != [] && queue[0].0 !in levels && queue[0].1 <= depth && visited == levels.Keys + {queue[0].0}
    ensures Traversing(g, start, depth, levels[queue[0].0 := queue[0].1], more, queue[0].1)
    ensures KnownNodes(g, start, more)
  {
    var (current, hops) := queue[0];
    more := PushNeighbours(queue[1..], visited, Neighbours(g, current), hops + 1);
    VisitKeeps(g, start, depth, levels, queue, d, more);
    PushedAreKnown(g, start, current, queue, more, visited, hops + 1);
  }

  lemma RelationAdded(g: Graph, id1: Id, id2: Id)
    requires Symmetric(g)
    ensures var g1 := g[id1 := Neighbours(g, id1) + {id2}];
            var g2 := g1[id2 := Neighbours(g1, id2) + {id1}];
            && Symmetric(g2)
            && forall v, w :: w in Neighbours(g2, v) <==>
                 w in Neighbours(g, v) || (v == id1 && w == id2) || (v == id2 && w == id1)
  {
    var g1 := g[id1 := Neighbours(g, id1) + {id2}];
    var g2 := g1[id2 := Neighbours(g1, id2) + {id1}];
    assert forall v, w :: w in Neighbours(g2, v) <==>
                 w in Neighbours(g, v) || (v == id1 && w == id2) || (v == id2 && w == id1);
  }

  /** Every id held is known to the store, and every known id is held or was lost to overflow. */
  ghost predicate Tracked(c: Context, allIds: set<Id>) {
    forall id :: TrackedId(c, allIds, id)
  }

  ghost predicate TrackedId(c: Context, allIds: set<Id>, id: Id) {
    (Held(c, id) ==> id in allIds) && (id in allIds ==> Held(c, id) || Overflowed(c, 0, id))
  }

  lemma HeldIsTracked(c: Context, id: Id, allIds: set<Id>)
    requires Tracked(c, allIds) && Held(c, id)
    ensures id in allIds
  {
    assert TrackedId(c, allIds, id);
  }

  lemma TrackedAfterMoves(c: Context, c': Context, allIds: set<Id>)
    requires Tracked(c, allIds) && Moves(c, c')
    ensures Tracked(c', allIds)
  {
    forall id ensures TrackedId(c', allIds, id) {
      assert TrackedId(c, allIds, id) && MovesId(c, c', id);
      if Overflowed(c, 0, id) {
        OverflowedStays(c, c', 0, id);
      }
    }
  }

  lemma TrackedAfterAdd(c: Context, m: Memory, ranks: Rankings, lim: Limits, allIds: set<Id>)
    requires lim.archiveMax >= 1 && Tracked(c, allIds)
    ensures Tracked(Add(c, m, ranks, lim), allIds + {m.id})
  {
    forall id ensures TrackedId(Admit(c, m), allIds + {m.id}, id) {
      assert TrackedId(c, allIds, id);
      AdmitHolds(c, m, id);
      if Overflowed(c, 0, id) {
        OverflowedStays(c, Admit(c, m), 0, id);
      }
    }
    AddMoves(c, m, ranks, lim);
    TrackedAfterMoves(Admit(c, m), Add(c, m, ranks, lim), allIds + {m.id});
  }

  lemma TrackedAfterDelete(c: Context, id: Id, lim: Limits, allIds: set<Id>)
    requires Sound(c, lim) && Tracked(c, allIds)
    ensures Tracked(Delete(c, id), if Held(c, id) then allIds - {id} else allIds)
  {
    DeleteKeeps(c, id, lim);
    var left := if Held(c, id) then allIds - {id} else allIds;
    forall other ensures TrackedId(Delete(c, id), left, other) {
      assert TrackedId(c, allIds, other);
      HasWithout(c.main, id, other);
      HasWithout(c.archive, id, other);
      if Overflowed(c, 0, other) {
        OverflowedStays(c, Delete(c, id), 0, other);
      }
    }
  }

  /** The fields that `update` is given. */
  datatype Change = Change(content: Option<string>, tags: Option<seq<string>>, importance: Option<real>)

  function Given<T>(o: Option<T>, otherwise: T): T {
    if o.Some? then o.value else otherwise
  }

  function Changed(m: Memory, change: Change): (r: Memory)
    ensures r.id == m.id
  {
    m.(content := Given(change.content, m.content), tags := Given(change.tags, m.tags),
       importance := Given(change.importance, m.importance), version := m.version + 1)
  }

  /** `update`: fetch, change, add again; nothing but the fetch if the id is not held. */
  function Updated(c: Context, id: Id, change: Change, moment: Moment, readding: Rankings, lim: Limits): Context
    requires lim.archiveMax >= 1
  {
    var fetched := Get(c, id, moment.now, moment.ranks, lim);
    if Held(c, id) then Add(fetched, Changed(Fetched(c, id, moment.now), change), readding, lim) else fetched
  }

  /** An entry with the given fields in place of its own, and one more version. */
  ghost predicate Revises(e: Memory, m: Memory, change: Change) {
    && e.id == m.id && e.version == m.version + 1
    && e.content == (match change.content case Some(x) => x case None => m.content)
    && e.tags == (match change.tags case Some(x) => x case None => m.tags)
    && e.importance == (match change.importance case Some(x) => x case None => m.importance)
  }

  lemma OnlyOne(s: seq<Memory>, m: Memory, e: Memory)
    requires DistinctIds(s) && m in s && e in s && e.id == m.id
    ensures e == m
  {
  }

  /** The entry that is looked up, in whatever level it is. */
  lemma FetchedEntry(c: Context, now: real, lim: Limits, m: Memory)
    requires Sound(c, lim) && InContext(c, m)
    ensures Held(c, m.id)
    ensures Fetched(c, m.id, now) ==
            if m in c.main then m.(accessCount := m.accessCount + 1, lastAccessed := now) else m
  {
    if m in c.main {
      assert Has(c.main, m.id);
      OnlyOne(c.main, m, Lookup(c.main, m.id));
    } else {
      assert Has(c.archive, m.id);
      OnlyOne(c.archive, m, Lookup(c.archive, m.id));
    }
  }

  /** After an addition every entry held is the one added, or one of another id held before. */
  lemma AddedEntries(c: Context, m: Memory, ranks: Rankings, lim: Limits, e: Memory)
    requires lim.archiveMax >= 1 && Sound(c, lim) && InContext(Add(c, m, ranks, lim), e)
    ensures e == m || (e.id != m.id && InContext(c, e))
  {
    if Has(c.main, m.id) {
      assert !Has(c.archive, m.id);
    } else {
      EvictionKeepsEntries(Admit(c, m), ranks, lim, e);
    }
  }

  /** An update leaves, of the entry it is for, exactly the revised one, with an access more if it was in the main
      context; and it leaves every other record as it was. */
  lemma UpdatedExactly(c: Context, m: Memory, change: Change, moment: Moment, readding: Rankings, lim: Limits,
                       e: Memory)
    requires lim.archiveMax >= 1 && Sound(c, lim) && InContext(c, m)
    requires InContext(Updated(c, m.id, change, moment, readding, lim), e)
    ensures e.id == m.id ==>
              && Revises(e, m, change)
              && e.accessCount == (if m in c.main then m.accessCount + 1 else m.accessCount)
              && e.lastAccessed == (if m in c.main then moment.now else m.lastAccessed)
    ensures e.id != m.id ==> RecordIn(c, e)
  {
    var fetched := Get(c, m.id, moment.now, moment.ranks, lim);
    FetchedEntry(c, moment.now, lim, m);
    GetKeeps(c, m.id, moment.now, moment.ranks, lim);
    GetKeepsRecords(c, m.id, moment.now, moment.ranks, lim);
    AddedEntries(fetched, Changed(Fetched(c, m.id, moment.now), change), readding, lim, e);
  }

  lemma ReaddingTracks(c: Context, m: Memory, ranks: Rankings, lim: Limits, allIds: set<Id>)
    requires lim.archiveMax >= 1 && Tracked(c, allIds) && m.id in allIds
    ensures Tracked(Add(c, m, ranks, lim), allIds)
  {
    TrackedAfterAdd(c, m, ranks, lim, allIds);
    assert allIds + {m.id} == allIds;
  }

  lemma UpdateTracks(c: Context, id: Id, change: Change, moment: Moment, readding: Rankings, lim: Limits,
                     allIds: set<Id>)
    requires lim.archiveMax >= 1 && Tracked(c, allIds)
    ensures Tracked(Updated(c, id, change, moment, readding, lim), allIds)
  {
    var fetched := Get(c, id, moment.now, moment.ranks, lim);
    assert Tracked(fetched, allIds) by {
      GetMoves(c, id, moment.now, moment.ranks, lim);
      TrackedAfterMoves(c, fetched, allIds);
    }
    if Held(c, id) {
      HeldIsTracked(c, id, allIds);
      ReaddingTracks(fetched, Changed(Fetched(c, id, moment.now), change), readding, lim, allIds);
    }
  }

  method ChangeEntry(m: Memory, change: Change) returns (r: Memory)
    ensures r == Changed(m, change)
  {
    r := m;
    if change.content.Some? {
      r := r.(content := change.content.value);
    }
    if change.tags.Some? {
      r := r.(tags := change.tags.value);
    }
    if change.importance.Some? {
      r := r.(importance := change.importance.value);
    }
    r := r.(version := r.version + 1);
  }

  /** Since c0 no record has changed, and each answer is a record of c0. */
  ghost predicate Recorded(c0: Context, c: Context, related: seq<Memory>) {
    Records(c0, c) && forall r :: r in related ==> RecordIn(c0, r)
  }

  lemma NothingRecorded(c: Context)
    ensures Recorded(c, c, [])
  {
    forall e | InContext(c, e) ensures RecordIn(c, e) {
      assert SameRecord(e, e);
    }
  }

  lemma RecordingGoesOn(c0: Context, c: Context, related: seq<Memory>, id: Id, moment: Moment, lim: Limits)
    requires lim.archiveMax >= 1 && Recorded(c0, c, related)
    ensures Recorded(c0, Get(c, id, moment.now, moment.ranks, lim), related)
    ensures Held(c, id) ==>
              Recorded(c0, Get(c, id, moment.now, moment.ranks, lim), related + [Fetched(c, id, moment.now)])
  {
    GetKeepsRecords(c, id, moment.now, moment.ranks, lim);
    RecordsCompose(c0, c, Get(c, id, moment.now, moment.ranks, lim));
    if Held(c, id) {
      var found := Fetched(c, id, moment.now);
      var x :| InContext(c, x) && SameRecord(found, x);
      var m :| InContext(c0, m) && SameRecord(x, m);
      assert SameRecord(found, m);
    }
  }

  class SemanticMemoryStore {
    const context: VirtualContextManager
    var allIds: set<Id>
    var graph: Graph

    ghost predicate Valid()
      reads this, context
    {
      context.Valid() && Symmetric(graph) && Tracked(context.State(), allIds)
    }

    constructor (lim: Limits)
      requires lim.archiveMax >= 1
      ensures Valid() && fresh(context) && context.lim == lim && allIds == {} && graph == map[]
    {
      context := new VirtualContextManager(lim);
      allIds, graph := {}, map[];
    }

    /** `add`, for a generated id. */
    method AddMemory(m: Memory, ranks: Rankings)
      requires Valid()
      modifies this`allIds, context
      ensures Valid() && context.State() == Add(old(context.State()), m, ranks, context.lim)
      ensures allIds == old(allIds) + {m.id}
    {
      TrackedAfterAdd(context.State(), m, ranks, context.lim, allIds);
      context.AddMemory(m, ranks);
      allIds := allIds + {m.id};
    }

    /** `update`: fetch, change, add again. */
    method UpdateMemory(id: Id, change: Change, moment: Moment, readding: Rankings)
      returns (ok: bool)
      requires Valid()
      modifies context
      ensures Valid() && ok == Held(old(context.State()), id)
      ensures context.State() == Updated(old(context.State()), id, change, moment, readding, context.lim)
    {
      UpdateTracks(context.State(), id, change, moment, readding, context.lim, allIds);
      var found := context.GetMemory(id, moment.now, moment.ranks);
      ok := found.Some?;
      if ok {
        var m := ChangeEntry(found.value, change);
        context.AddMemory(m, readding);
      }
    }

    method DeleteMemory(id: Id) returns (ok: bool)
      requires Valid()
      modifies this`allIds, context
      ensures Valid() && ok == Held(old(context.State()), id) && context.State() == Delete(old(context.State()), id)
      ensures allIds == if ok then old(allIds) - {id} else old(allIds)
    {
      TrackedAfterDelete(context.State(), id, context.lim, allIds);
      ok := context.DeleteMemory(id);
      if ok {
        allIds := allIds - {id};
      }
    }

    method AddRelation(id1: Id, id2: Id) returns (ok: bool)
      requires Valid()
      modifies this`graph
      ensures Valid() && ok == (id1 in allIds && id2 in allIds)
      ensures forall v, w :: w in Neighbours(graph, v) <==>
                w in Neighbours(old(graph), v) || (ok && ((v == id1 && w == id2) || (v == id2 && w == id1)))
    {
      ok := id1 in allIds && id2 in allIds;
      if ok {
        RelationAdded(graph, id1, id2);
        graph := graph[id1 := Neighbours(graph, id1) + {id2}];
        graph := graph[id2 := Neighbours(graph, id2) + {id1}];
      }
    }

    /** `get_related`.  Every node within the depth is visited once, in order of distance, and looked
        up in the context manager; the answer lists those found, nearest first, the start excepted.
        Each look-up has its own moment, and as each node is looked up once, one for each id.
        A missing one was not in the memory, or was pushed out of it by the recalls themselves. */
    method GetRelated(start: Id, depth: int, moments: Id -> Moment)
      returns (related: seq<Memory>, ghost levels: map<Id, nat>, ghost missing: set<Id>)
      requires Valid()
      modifies context
      ensures context.Valid() && Distances(graph, start, depth, levels)
      ensures Accounted(related, missing, levels.Keys, start) && Ranked(related, levels)
      ensures Judged(old(context.State()), context.State(), levels.Keys, missing, start)
      ensures Recorded(old(context.State()), context.State(), related)
    {
      var queue: seq<Entry> := [(start, 0)];
      var visited: set<Id> := {};
      ghost var d: nat := 0;
      ghost var universe, c0 := graph.Keys + {start}, context.State();
      related, levels, missing := [], map[], {};
      TraversalStarts(graph, start, depth);
      NothingJudged(c0, start);
      NothingRecorded(c0);
      while queue != []
        invariant context.Valid() && Traversing(graph, start, depth, levels, queue, d)
        invariant visited == levels.Keys && KnownNodes(graph, start, queue)
        invariant Accounted(related, missing, visited, start) && Ranked(related, levels)
        invariant Judged(c0, context.State(), visited, missing, start)
        invariant Recorded(c0, context.State(), related)
        decreases universe - visited, |queue|
      {
        var (current, hops) := queue[0];
        if current in visited || hops > depth {
          SkipKeeps(graph, start, depth, levels, queue, d);
          queue := queue[1..];
        } else {
          assert current in universe;
          ghost var related0 := related;
          related, missing := LookUp(start, current, related, missing, visited, moments(current), c0);
          RankingGrows(related0, related, levels, current, hops);
          visited := visited + {current};
          queue := Expand(graph, start, depth, queue, visited, levels, d);
          levels := levels[current := hops];
        }
        d := hops;
      }
      TraversalEnds(graph, start, depth, levels, d);
    }

    /** Look a visited node up, unless it is the start. */
    method LookUp(start: Id, current: Id, related0: seq<Memory>, ghost missing0: set<Id>, ghost visited: set<Id>,
                  moment: Moment, ghost c0: Context)
      returns (related: seq<Memory>, ghost missing: set<Id>)
      requires context.Valid() && Accounted(related0, missing0, visited, start) && current !in visited
      requires Judged(c0, context.State(), visited, missing0, start) && Recorded(c0, context.State(), related0)
      modifies context
      ensures context.Valid() && Accounted(related, missing, visited + {current}, start)
      ensures Judged(c0, context.State(), visited + {current}, missing, start)
      ensures related == related0 || OneMore(related0, related, current)
      ensures Recorded(c0, context.State(), related)
    {
      related, missing := related0, missing0;
      ghost var c := context.State();
      if current != start {
        GetMoves(c, current, moment.now, moment.ranks, context.lim);
        RecordingGoesOn(c0, c, related, current, moment, context.lim);
        var found := context.GetMemory(current, moment.now, moment.ranks);
        if found.Some? {
          IdsAppend(related, found.value);
          related := related + [found.value];
        } else {
          missing := missing + {current};
        }
      } else {
        StaysPut(c);
      }
      JudgementGrows(c0, c, context.State(), visited, missing0, missing, start, current);
    }
  }

  lemma StaysPut(c: Context)
    ensures Moves(c, c)
  {
  }
}
