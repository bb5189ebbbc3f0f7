/** What each operation of the two-level memory (evolution/memory_enhancement.py) does to the two levels, entry by
    entry and in order; and what a search leaves of every entry.
 */
module ContextEffects {
  import opened ContextModel

  // ----- one entry of a level

  ghost predicate InContext(c: Context, e: Memory) {
    e in c.main || e in c.archive
  }

  lemma WithoutCons(s: seq<Memory>, x: Memory, rest: seq<Memory>, id: Id)
    requires s == [x] + rest
    ensures Without(s, id) == (if x.id == id then [] else [x]) + Without(rest, id)
    ensures x.id == id ==> Has(s, id) && Lookup(s, id) == x
    ensures x.id != id && Has(rest, id) ==> Has(s, id) && Lookup(s, id) == Lookup(rest, id)
  {
    assert s[0] == x && s[1..] == rest;
    HasHeadOrTail(s, id);
  }

  lemma DistinctRest(s: seq<Memory>, x: Memory, rest: seq<Memory>)
    requires DistinctIds(s) && s == [x] + rest
    ensures DistinctIds(rest) && !Has(rest, x.id)
  {
    assert s[0] == x;
    forall i | 0 <= i < |rest| ensures rest[i] == s[i + 1] && rest[i].id != x.id {
      assert s[0].id != s[i + 1].id;
    }
  }

  /** An entry that stands between others is found by its id, and without it they are left in order. */
  lemma {:induction false} TakenOut(s: seq<Memory>, a: seq<Memory>, m: Memory, b: seq<Memory>)
    requires DistinctIds(s) && s == a + [m] + b
    ensures Has(s, m.id) && Lookup(s, m.id) == m && Without(s, m.id) == a + b
    decreases |a|
  {
    if a == [] {
      assert s == [m] + b && a + b == b;
      DistinctRest(s, m, b);
      WithoutKeeps(b, m.id);
      WithoutCons(s, m, b, m.id);
    } else {
      var x, rest := a[0], a[1..] + [m] + b;
      assert s == [x] + rest && a + b == [x] + (a[1..] + b);
      DistinctRest(s, x, rest);
      TakenOut(rest, a[1..], m, b);
      WithoutCons(s, x, rest, m.id);
    }
  }

  // ----- tokens

  ghost predicate AlphanumericAt(s: string, i: int) {
    0 <= i < |s| && ('a' <= s[i] <= 'z' || 'A' <= s[i] <= 'Z' || '0' <= s[i] <= '9')
  }

  ghost function AlphanumericPlaces(s: string, from: nat): set<int> {
    set i | from <= i < |s| && AlphanumericAt(s, i)
  }

  lemma {:induction false} CountExactly(s: string, from: nat)
    requires from <= |s|
    ensures CountAlphanumeric(s[from..]) == |AlphanumericPlaces(s, from)|
    decreases |s| - from
  {
    if from == |s| {
      assert AlphanumericPlaces(s, from) == {};
    } else {
      CountExactly(s, from + 1);
      assert s[from..][1..] == s[from + 1..];
      assert AlphanumericPlaces(s, from) ==
             AlphanumericPlaces(s, from + 1) + if AlphanumericAt(s, from) then {from} else {};
    }
  }

  /** A text costs one token more than a quarter of its letters and digits and two thirds of its other characters,
      rounded down; the empty text costs nothing. */
  lemma TokensOfText(s: string)
    ensures var en, n := |AlphanumericPlaces(s, 0)|, EstimateTokens(s);
            if s == "" then n == 0
            else 12 * (n - 1) <= 3 * en + 8 * (|s| - en) < 12 * n
  {
    CountExactly(s, 0);
    assert s[0..] == s;
  }

  /** The tokens of a level add up. */
  lemma {:induction false} TokensJoin(a: seq<Memory>, b: seq<Memory>)
    ensures Tokens(a + b) == Tokens(a) + Tokens(b)
    ensures |b| == 1 ==> Tokens(b) == EstimateTokens(b[0].content)
  {
    if b == [] {
      assert a + b == a;
    } else {
      assert (a + b)[..|a + b| - 1] == a + b[..|b| - 1];
      TokensJoin(a, b[..|b| - 1]);
    }
  }

  // ----- eviction

  /** Paging out takes an entry from its place to the young end of the archive; a full archive loses its oldest. */
  lemma PageOutExactly(c: Context, a: seq<Memory>, m: Memory, b: seq<Memory>, lim: Limits)
    requires lim.archiveMax >= 1 && DistinctIds(c.main) && c.main == a + [m] + b
    ensures PageOut(c, m.id, lim) ==
            if |c.archive| < lim.archiveMax
            then Context(a + b, c.archive + [m], c.pageOuts + 1, c.pageIns, c.overflow, c.archiveDeletes)
            else Context(a + b, c.archive[1..] + [m], c.pageOuts + 1, c.pageIns, c.overflow + [c.archive[0]],
                         c.archiveDeletes)
  {
    TakenOut(c.main, a, m, b);
  }

  /** m is the first entry of least rank. */
  ghost predicate FirstLeast(a: seq<Memory>, m: Memory, b: seq<Memory>, rank: Ranking) {
    && (forall i :: 0 <= i < |a| ==> rank(m) < rank(a[i]))
    && (forall i :: 0 <= i < |b| ==> rank(m) <= rank(b[i]))
  }

  lemma VictimAppend(s: seq<Memory>, front: seq<Memory>, last: Memory, rank: Ranking)
    requires s == front + [last] && front != []
    ensures Victim(s, rank) == if rank(last) < rank(Victim(front, rank)) then last else Victim(front, rank)
  {
    assert s[..|s| - 1] == front && s[|s| - 1] == last;
  }

  lemma LeastAfterAll(a: seq<Memory>, m: Memory, rank: Ranking)
    requires forall i :: 0 <= i < |a| ==> rank(m) < rank(a[i])
    ensures Victim(a + [m], rank) == m
  {
    if a != [] {
      VictimAppend(a + [m], a, m, rank);
    }
  }

  lemma {:induction false} VictimExactly(s: seq<Memory>, a: seq<Memory>, m: Memory, b: seq<Memory>, rank: Ranking)
    requires s == a + [m] + b && FirstLeast(a, m, b, rank)
    ensures Victim(s, rank) == m
    decreases |b|
  {
    if b == [] {
      assert s == a + [m];
      LeastAfterAll(a, m, rank);
    } else {
      var front := b[..|b| - 1];
      assert s == (a + [m] + front) + [b[|b| - 1]];
      VictimExactly(a + [m] + front, a, m, front, rank);
      VictimAppend(s, a + [m] + front, b[|b| - 1], rank);
    }
  }

  /** Within the budget nothing is evicted; over it the first entry of least rank goes, unless its id is empty, and
      the eviction goes on. */
  lemma EvictionExactly(c: Context, ranks: Rankings, lim: Limits, a: seq<Memory>, m: Memory, b: seq<Memory>)
    requires lim.archiveMax >= 1 && DistinctIds(c.main)
    ensures Tokens(c.main) <= lim.budget || c.main == [] ==> Enforce(c, ranks, lim) == c
    ensures Tokens(c.main) > lim.budget && c.main == a + [m] + b && FirstLeast(a, m, b, ranks(c.pageOuts)) ==>
              Enforce(c, ranks, lim) ==
                if m.id == "" then c else Enforce(PageOut(c, m.id, lim), ranks, lim)
  {
    if c.main == a + [m] + b && FirstLeast(a, m, b, ranks(c.pageOuts)) {
      VictimExactly(c.main, a, m, b, RankAt(ranks, c.pageOuts));
    }
  }

  lemma {:induction false} EvictionKeepsEntries(c: Context, ranks: Rankings, lim: Limits, e: Memory)
    requires lim.archiveMax >= 1
    ensures InContext(Enforce(c, ranks, lim), e) ==> InContext(c, e)
    ensures Enforce(c, ranks, lim).pageIns == c.pageIns
    decreases |c.main|
  {
    if Tokens(c.main) > lim.budget && c.main != [] {
      var id := Victim(c.main, RankAt(ranks, c.pageOuts)).id;
      if id != "" {
        RemovalShrinks(c.main, id);
        EvictionKeepsEntries(PageOut(c, id, lim), ranks, lim, e);
      }
    }
  }

  // ----- adding, recalling, looking up, deleting

  /** The state with one more entry at the young end of the main context. */
  ghost function With(c: Context, m: Memory): Context {
    Context(c.main + [m], c.archive, c.pageOuts, c.pageIns, c.overflow, c.archiveDeletes)
  }

  /** As well, after m has left the archive, where it stood between a and b. */
  ghost function Fetching(c: Context, a: seq<Memory>, m: Memory, b: seq<Memory>): Context {
    Context(c.main + [m], a + b, c.pageOuts, c.pageIns + 1, c.overflow, c.archiveDeletes)
  }

  /** An entry of the main context is replaced and becomes its youngest; another one is admitted, leaving the
      archive if it was there, and then the budget is enforced. */
  lemma AddExactly(c: Context, m: Memory, ranks: Rankings, lim: Limits, a: seq<Memory>, x: Memory, b: seq<Memory>)
    requires lim.archiveMax >= 1 && Sound(c, lim) && x.id == m.id
    ensures c.main == a + [x] + b ==> Add(c, m, ranks, lim) == c.(main := a + b + [m])
    ensures c.archive == a + [x] + b ==> Add(c, m, ranks, lim) == Enforce(Fetching(c, a, m, b), ranks, lim)
    ensures !Has(c.main, m.id) && !Has(c.archive, m.id) ==> Add(c, m, ranks, lim) == Enforce(With(c, m), ranks, lim)
  {
    WithoutKeeps(c.main, m.id);
    WithoutKeeps(c.archive, m.id);
    if c.main == a + [x] + b {
      TakenOut(c.main, a, x, b);
    }
    if c.archive == a + [x] + b {
      TakenOut(c.archive, a, x, b);
    }
  }

  /** Recalling takes an entry from its place in the archive to the young end of the main context, counts as a
      page-in, and enforces the budget; if the entry fits, that is all. */
  lemma RecallExactly(c: Context, ranks: Rankings, lim: Limits, a: seq<Memory>, m: Memory, b: seq<Memory>)
    requires lim.archiveMax >= 1 && Sound(c, lim) && c.archive == a + [m] + b
    ensures Recall(c, m.id, ranks, lim) == Enforce(Fetching(c, a, m, b), ranks, lim)
    ensures Recall(c, m.id, ranks, lim).pageIns == c.pageIns + 1
    ensures Tokens(c.main) + EstimateTokens(m.content) <= lim.budget ==>
              Recall(c, m.id, ranks, lim) == Fetching(c, a, m, b)
  {
    TakenOut(c.archive, a, m, b);
    WithoutKeeps(c.main, m.id);
    TokensJoin(c.main, [m]);
    EvictionKeepsEntries(Fetching(c, a, m, b), ranks, lim, m);
  }

  /** A look-up touches an entry of the main context, which becomes its youngest, and recalls one of the archive. */
  lemma GetExactly(c: Context, now: real, ranks: Rankings, lim: Limits, a: seq<Memory>, m: Memory, b: seq<Memory>)
    requires lim.archiveMax >= 1 && Sound(c, lim)
    ensures c.main == a + [m] + b ==>
              var touched := m.(accessCount := m.accessCount + 1, lastAccessed := now);
              Get(c, m.id, now, ranks, lim) == c.(main := a + b + [touched]) && Held(c, m.id)
              && Fetched(c, m.id, now) == touched
    ensures c.archive == a + [m] + b ==>
              && Get(c, m.id, now, ranks, lim) == Enforce(Fetching(c, a, m, b), ranks, lim) && Held(c, m.id)
              && Fetched(c, m.id, now) == m
    ensures !Has(c.main, m.id) && !Has(c.archive, m.id) ==> Get(c, m.id, now, ranks, lim) == c && !Held(c, m.id)
  {
    if c.main == a + [m] + b {
      TakenOut(c.main, a, m, b);
    }
    if c.archive == a + [m] + b {
      TakenOut(c.archive, a, m, b);
      RecallExactly(c, ranks, lim, a, m, b);
    }
  }

  lemma DeleteExactly(c: Context, lim: Limits, a: seq<Memory>, m: Memory, b: seq<Memory>)
    requires Sound(c, lim)
    ensures c.main == a + [m] + b ==> Delete(c, m.id) == c.(main := a + b)
    ensures c.archive == a + [m] + b ==>
              Delete(c, m.id) == c.(archive := a + b, archiveDeletes := c.archiveDeletes + 1)
    ensures !Has(c.main, m.id) && !Has(c.archive, m.id) ==> Delete(c, m.id) == c
  {
    if c.main == a + [m] + b {
      TakenOut(c.main, a, m, b);
    }
    if c.archive == a + [m] + b {
      TakenOut(c.archive, a, m, b);
    }
  }

  // ----- searches

  /** One access more, at the time now, for the entry of that id, and the others as they were. */
  ghost predicate Touches(before: seq<Memory>, after: seq<Memory>, id: Id, now: real) {
    |after| == |before| && forall i :: 0 <= i < |before| ==>
      after[i] == if before[i].id == id then before[i].(accessCount := before[i].accessCount + 1, lastAccessed := now)
                  else before[i]
  }

  /** A hit that is not to be recalled, or is not archived, moves nothing and is touched where it stands. */
  lemma HitStays(c: Context, hit: Hit, lim: Limits)
    requires lim.archiveMax >= 1 && (!hit.recall || !Has(c.archive, hit.id))
    ensures var c' := TakeHit(c, hit, lim);
            && Touches(c.main, c'.main, hit.id, hit.moment.now)
            && Touches(c.archive, c'.archive, hit.id, hit.moment.now)
            && c'.pageOuts == c.pageOuts && c'.pageIns == c.pageIns && c'.overflow == c.overflow
            && c'.archiveDeletes == c.archiveDeletes
  {
  }

  lemma TouchLast(s: seq<Memory>, m: Memory, now: real)
    requires !Has(s, m.id)
    ensures TouchIn(s + [m], m.id, now) == s + [m.(accessCount := m.accessCount + 1, lastAccessed := now)]
  {
    assert forall i :: 0 <= i < |s| ==> s[i].id != m.id;
  }

  lemma TouchNone(s: seq<Memory>, id: Id, now: real)
    requires !Has(s, id)
    ensures TouchIn(s, id, now) == s
  {
    assert forall i :: 0 <= i < |s| ==> s[i].id != id;
  }

  /** An archived hit of high score is recalled: one page-in more, and touched where the eviction leaves it. */
  lemma HitRecalled(c: Context, hit: Hit, lim: Limits, a: seq<Memory>, m: Memory, b: seq<Memory>)
    requires lim.archiveMax >= 1 && Sound(c, lim) && hit.recall && c.archive == a + [m] + b && m.id == hit.id
    ensures var c', moved := TakeHit(c, hit, lim), Enforce(Fetching(c, a, m, b), hit.moment.ranks, lim);
            && c'.pageIns == c.pageIns + 1
            && Touches(moved.main, c'.main, hit.id, hit.moment.now)
            && Touches(moved.archive, c'.archive, hit.id, hit.moment.now)
            && c'.pageOuts == moved.pageOuts && c'.overflow == moved.overflow
  {
    RecallExactly(c, hit.moment.ranks, lim, a, m, b);
    TakenOut(c.archive, a, m, b);
  }

  /** If it fits, it ends at the young end of the main context with one access more, and nothing else changes. */
  lemma FittingHitRecalled(c: Context, hit: Hit, lim: Limits, a: seq<Memory>, m: Memory, b: seq<Memory>)
    requires lim.archiveMax >= 1 && Sound(c, lim) && hit.recall && c.archive == a + [m] + b && m.id == hit.id
    requires Tokens(c.main) + EstimateTokens(m.content) <= lim.budget
    ensures TakeHit(c, hit, lim) ==
              Context(c.main + [m.(accessCount := m.accessCount + 1, lastAccessed := hit.moment.now)], a + b,
                      c.pageOuts, c.pageIns + 1, c.overflow, c.archiveDeletes)
  {
    RecallExactly(c, hit.moment.ranks, lim, a, m, b);
    TakenOut(c.archive, a, m, b);
    TouchLast(c.main, m, hit.moment.now);
    TouchNone(a + b, m.id, hit.moment.now);
  }

  /** How many of the hits are for an id, and when the last of them was. */
  function HitsFor(hits: seq<Hit>, id: Id): nat {
    if hits == [] then 0
    else HitsFor(hits[..|hits| - 1], id) + if hits[|hits| - 1].id == id then 1 else 0
  }

  function LastHit(hits: seq<Hit>, id: Id, otherwise: real): real {
    if hits == [] then otherwise
    else if hits[|hits| - 1].id == id then hits[|hits| - 1].moment.now
    else LastHit(hits[..|hits| - 1], id, otherwise)
  }

  /** An entry with an access for each of the hits that are for it. */
  function Accessed(m: Memory, hits: seq<Hit>): Memory {
    m.(accessCount := m.accessCount + HitsFor(hits, m.id), lastAccessed := LastHit(hits, m.id, m.lastAccessed))
  }

  ghost predicate AccessedIn(c: Context, hits: seq<Hit>, e: Memory) {
    exists m :: InContext(c, m) && e == Accessed(m, hits)
  }

  lemma RecallKeepsEntries(c: Context, id: Id, ranks: Rankings, lim: Limits, e: Memory)
    requires lim.archiveMax >= 1
    ensures InContext(Recall(c, id, ranks, lim), e) ==> InContext(c, e)
  {
    if Has(c.archive, id) {
      EvictionKeepsEntries(Admit(c, Lookup(c.archive, id)), ranks, lim, e);
    }
  }

  lemma HitEntries(c: Context, hit: Hit, lim: Limits, e: Memory) returns (m: Memory)
    requires lim.archiveMax >= 1 && InContext(TakeHit(c, hit, lim), e)
    ensures InContext(c, m)
    ensures e == if m.id == hit.id then m.(accessCount := m.accessCount + 1, lastAccessed := hit.moment.now) else m
  {
    var c' := TakeHit(c, hit, lim);
    var c1 := if hit.recall then Recall(c, hit.id, hit.moment.ranks, lim) else c;
    if e in c'.main {
      var i :| 0 <= i < |c'.main| && c'.main[i] == e;
      m := c1.main[i];
    } else {
      var i :| 0 <= i < |c'.archive| && c'.archive[i] == e;
      m := c1.archive[i];
    }
    RecallKeepsEntries(c, hit.id, hit.moment.ranks, lim, m);
  }

  /** After any search every entry held is one held before, with one access more for each hit that was for it, and
      the time of the last of these. */
  lemma {:induction false} SearchEntries(c: Context, hits: seq<Hit>, lim: Limits, e: Memory)
    requires lim.archiveMax >= 1 && InContext(Search(c, hits, lim), e)
    ensures AccessedIn(c, hits, e)
  {
    if hits == [] {
      assert e == Accessed(e, hits);
    } else {
      var front, hit := hits[..|hits| - 1], hits[|hits| - 1];
      var x := HitEntries(Search(c, front, lim), hit, lim, e);
      SearchEntries(c, front, lim, x);
      var m :| InContext(c, m) && x == Accessed(m, front);
      assert e == Accessed(m, hits);
    }
  }

  // ----- what no look-up changes

  /** The same record, up to its accesses. */
  ghost predicate SameRecord(e: Memory, m: Memory) {
    e.id == m.id && e.content == m.content && e.importance == m.importance && e.tags == m.tags && e.version == m.version
  }

  ghost predicate RecordIn(c: Context, e: Memory) {
    exists m :: InContext(c, m) && SameRecord(e, m)
  }

  /** Every record of c' is one of c. */
  ghost predicate Records(c: Context, c': Context) {
    forall e :: InContext(c', e) ==> RecordIn(c, e)
  }

  lemma RecordsCompose(c: Context, c': Context, c'': Context)
    requires Records(c, c') && Records(c', c'')
    ensures Records(c, c'')
  {
    forall e | InContext(c'', e) ensures RecordIn(c, e) {
      var x :| InContext(c', x) && SameRecord(e, x);
      var m :| InContext(c, m) && SameRecord(x, m);
    }
  }

  /** A look-up changes no record, and finds one that is there. */
  lemma GetKeepsRecords(c: Context, id: Id, now: real, ranks: Rankings, lim: Limits)
    requires lim.archiveMax >= 1
    ensures Records(c, Get(c, id, now, ranks, lim))
    ensures Held(c, id) ==> RecordIn(c, Fetched(c, id, now))
  {
    forall e | InContext(Get(c, id, now, ranks, lim), e) ensures RecordIn(c, e) {
      if Has(c.main, id) {
        if e in c.main || e in c.archive {
          assert InContext(c, e) && SameRecord(e, e);
        } else {
          assert InContext(c, Lookup(c.main, id)) && SameRecord(e, Lookup(c.main, id));
        }
      } else {
        RecallKeepsEntries(c, id, ranks, lim, e);
        assert InContext(c, e) && SameRecord(e, e);
      }
    }
    if Held(c, id) {
      var m := if Has(c.main, id) then Lookup(c.main, id) else Lookup(c.archive, id);
      assert InContext(c, m) && SameRecord(Fetched(c, id, now), m);
    }
  }
}
