/** The two-level memory of evolution/memory_enhancement.py as functions on its state: a main
    context within a token budget, and a capped archive.  An ordered dictionary is a sequence of
    entries with distinct ids, oldest first.
 */
module ContextModel {

  type Id = string

  datatype Memory = Memory(id: Id, content: string, importance: real, accessCount: nat, lastAccessed: real,
                           tags: seq<string>, version: nat)

  /** `_select_for_page_out` ranks entries by importance and idle time at the moment of the call. */
  type Ranking = Memory -> real

  /** The clock goes on while a loop evicts: each eviction, by its number, has its own ranking. */
  type Rankings = nat -> Ranking

  function RankAt(ranks: Rankings, n: nat): Ranking {
    ranks(n)
  }

  /** When an entry is looked up, and the rankings of the evictions this causes. */
  datatype Moment = Moment(now: real, ranks: Rankings)

  datatype Limits = Limits(budget: int, archiveMax: int)

  /** The state, its counters, and beside them the history: entries pushed out of a full archive,
      and how many were deleted from the archive. */
  datatype Context = Context(main: seq<Memory>, archive: seq<Memory>, pageOuts: nat, pageIns: nat,
                             overflow: seq<Memory>, archiveDeletes: nat)

  const EMPTY_CONTEXT := Context([], [], 0, 0, [], 0)

  // ----- ordered dictionaries

  predicate Has(s: seq<Memory>, id: Id) {
    exists i :: 0 <= i < |s| && s[i].id == id
  }

  ghost predicate DistinctIds(s: seq<Memory>) {
    forall i, j :: 0 <= i < j < |s| ==> s[i].id != s[j].id
  }

  function Lookup(s: seq<Memory>, id: Id): (m: Memory)
    requires Has(s, id)
    ensures m in s && m.id == id
  {
    if s[0].id == id then s[0] else Lookup(s[1..], id)
  }

  function Without(s: seq<Memory>, id: Id): (r: seq<Memory>)
    ensures |r| <= |s| && !Has(r, id)
    ensures forall m :: m in r <==> m in s && m.id != id
  {
    if s == [] then []
    else if s[0].id == id then Without(s[1..], id)
    else
      var rest := Without(s[1..], id);
      assert forall m :: m in s <==> m == s[0] || m in s[1..];
      [s[0]] + rest
  }

  // ----- tokens

  predicate Alphanumeric(c: char) {
    'a' <= c <= 'z' || 'A' <= c <= 'Z' || '0' <= c <= '9'
  }

  function CountAlphanumeric(s: string): (n: nat)
    ensures n <= |s|
  {
    if s == [] then 0 else CountAlphanumeric(s[1..]) + if Alphanumeric(s[0]) then 1 else 0
  }

  /** int(en / 4 + other / 1.5) + 1, and nothing for the empty text. */
  function EstimateTokens(s: string): nat {
    var en := CountAlphanumeric(s);
    if s == "" then 0 else (3 * en + 8 * (|s| - en)) / 12 + 1
  }

  function Tokens(s: seq<Memory>): nat {
    if s == [] then 0 else Tokens(s[..|s| - 1]) + EstimateTokens(s[|s| - 1].content)
  }

  // ----- paging

  /** The first entry with the least rank. */
  function Victim(s: seq<Memory>, rank: Ranking): (m: Memory)
    requires s != []
    ensures m in s && forall x :: x in s ==> rank(m) <= rank(x)
  {
    if |s| == 1 then s[0]
    else
      var best, last := Victim(s[..|s| - 1], rank), s[|s| - 1];
      assert s == s[..|s| - 1] + [last];
      if rank(last) < rank(best) then last else best
  }

  function PageOut(c: Context, id: Id, lim: Limits): Context
    requires lim.archiveMax >= 1
  {
    if !Has(c.main, id) then c
    else
      var m := Lookup(c.main, id);
      var full := |c.archive| >= lim.archiveMax;
      c.(main := Without(c.main, id),
         archive := (if full then c.archive[1..] else c.archive) + [m],
         overflow := if full then c.overflow + [c.archive[0]] else c.overflow,
         pageOuts := c.pageOuts + 1)
  }

  /** `_enforce_budget`; an entry whose id is empty stops the eviction. */
  function Enforce(c: Context, ranks: Rankings, lim: Limits): Context
    requires lim.archiveMax >= 1
    decreases |c.main|
  {
    if Tokens(c.main) <= lim.budget || c.main == [] then c
    else
      var id := Victim(c.main, RankAt(ranks, c.pageOuts)).id;
      if id == "" then c
      else
        RemovalShrinks(c.main, id);
        Enforce(PageOut(c, id, lim), ranks, lim)
  }

  lemma {:induction false} RemovalShrinks(s: seq<Memory>, id: Id)
    requires Has(s, id)
    ensures |Without(s, id)| < |s|
  {
    if s[0].id != id {
      assert Has(s[1..], id) by {
        var i :| 0 <= i < |s| && s[i].id == id;
        assert s[1..][i - 1].id == id;
      }
      RemovalShrinks(s[1..], id);
    }
  }

  // ----- operations

  /** An entry becomes the youngest of the main context, leaving the archive if it was there. */
  function Admit(c: Context, m: Memory): Context {
    c.(main := Without(c.main, m.id) + [m],
       archive := Without(c.archive, m.id),
       pageIns := if Has(c.archive, m.id) then c.pageIns + 1 else c.pageIns)
  }

  function Add(c: Context, m: Memory, ranks: Rankings, lim: Limits): Context
    requires lim.archiveMax >= 1
  {
    if Has(c.main, m.id) then c.(main := Without(c.main, m.id) + [m])
    else Enforce(Admit(c, m), ranks, lim)
  }

  function Recall(c: Context, id: Id, ranks: Rankings, lim: Limits): Context
    requires lim.archiveMax >= 1
  {
    if !Has(c.archive, id) then c
    else Enforce(Admit(c, Lookup(c.archive, id)), ranks, lim)
  }

  function Touched(m: Memory, now: real): Memory {
    m.(accessCount := m.accessCount + 1, lastAccessed := now)
  }

  function Get(c: Context, id: Id, now: real, ranks: Rankings, lim: Limits): Context
    requires lim.archiveMax >= 1
  {
    if Has(c.main, id) then c.(main := Without(c.main, id) + [Touched(Lookup(c.main, id), now)])
    else Recall(c, id, ranks, lim)
  }

  predicate Held(c: Context, id: Id) {
    Has(c.main, id) || Has(c.archive, id)
  }

  /** The entry that `get` returns: only an entry of the main context is touched. */
  function Fetched(c: Context, id: Id, now: real): (m: Memory)
    requires Held(c, id)
    ensures m.id == id
  {
    if Has(c.main, id) then Touched(Lookup(c.main, id), now) else Lookup(c.archive, id)
  }

  /** An entry found by a search: touched where it stands, after being recalled if it came from
      the archive with a high enough score. */
  datatype Hit = Hit(id: Id, recall: bool, moment: Moment)

  function TouchIn(s: seq<Memory>, id: Id, now: real): (r: seq<Memory>)
    ensures |r| == |s| && forall i :: 0 <= i < |s| ==> r[i] == if s[i].id == id then Touched(s[i], now) else s[i]
  {
    seq(|s|, i requires 0 <= i < |s| => if s[i].id == id then Touched(s[i], now) else s[i])
  }

  function TakeHit(c: Context, hit: Hit, lim: Limits): Context
    requires lim.archiveMax >= 1
  {
    var c1 := if hit.recall then Recall(c, hit.id, hit.moment.ranks, lim) else c;
    c1.(main := TouchIn(c1.main, hit.id, hit.moment.now), archive := TouchIn(c1.archive, hit.id, hit.moment.now))
  }

  function Search(c: Context, hits: seq<Hit>, lim: Limits): Context
    requires lim.archiveMax >= 1
  {
    if hits == [] then c
    else TakeHit(Search(c, hits[..|hits| - 1], lim), hits[|hits| - 1], lim)
  }

  function Delete(c: Context, id: Id): Context {
    if Has(c.main, id) then c.(main := Without(c.main, id))
    else if Has(c.archive, id) then c.(archive := Without(c.archive, id), archiveDeletes := c.archiveDeletes + 1)
    else c
  }

  // ----- the invariant

  ghost predicate Separate(a: seq<Memory>, b: seq<Memory>) {
    forall id :: !(Has(a, id) && Has(b, id))
  }

  /** Distinct ids across both levels, a capped archive, and books that balance. */
  ghost predicate Sound(c: Context, lim: Limits) {
    && DistinctIds(c.main) && DistinctIds(c.archive) && Separate(c.main, c.archive)
    && |c.archive| <= lim.archiveMax
    && |c.archive| + c.pageIns + |c.overflow| + c.archiveDeletes == c.pageOuts
  }

  lemma HasHeadOrTail(s: seq<Memory>, id: Id)
    requires s != []
    ensures Has(s, id) <==> s[0].id == id || Has(s[1..], id)
  {
  }

  lemma {:induction false} WithoutDistinct(s: seq<Memory>, id: Id)
    requires DistinctIds(s)
    ensures DistinctIds(Without(s, id))
  {
    if s == [] {
    } else {
      WithoutDistinct(s[1..], id);
      var r := Without(s[1..], id);
      forall j | 0 <= j < |r| ensures r[j].id != s[0].id {
        assert r[j] in s[1..];
      }
    }
  }

  lemma HeadAndTail(s: seq<Memory>)
    requires s != []
    ensures s == [s[0]] + s[1..] && multiset(s) == multiset{s[0]} + multiset(s[1..])
  {
  }

  lemma {:induction false} WithoutContents(s: seq<Memory>, id: Id)
    requires DistinctIds(s)
    ensures Has(s, id) ==> multiset(s) == multiset(Without(s, id)) + multiset{Lookup(s, id)}
    ensures !Has(s, id) ==> Without(s, id) == s
  {
    if s == [] {
    } else {
      HasHeadOrTail(s, id);
      WithoutContents(s[1..], id);
      HeadAndTail(s);
      if s[0].id == id {
        assert !Has(s[1..], id);
      } else {
        HeadAndTail(Without(s, id));
      }
    }
  }

  lemma WithoutKeeps(s: seq<Memory>, id: Id)
    requires DistinctIds(s)
    ensures DistinctIds(Without(s, id))
    ensures |Without(s, id)| == |s| - if Has(s, id) then 1 else 0
    ensures Has(s, id) ==> multiset(s) == multiset(Without(s, id)) + multiset{Lookup(s, id)}
    ensures !Has(s, id) ==> Without(s, id) == s
  {
    WithoutDistinct(s, id);
    WithoutContents(s, id);
    if Has(s, id) {
      assert |multiset(s)| == |multiset(Without(s, id)) + multiset{Lookup(s, id)}|;
    }
  }

  lemma HasWithout(s: seq<Memory>, id: Id, other: Id)
    ensures Has(Without(s, id), other) <==> other != id && Has(s, other)
  {
  }

  lemma HasAppend(s: seq<Memory>, m: Memory, other: Id)
    ensures Has(s + [m], other) <==> other == m.id || Has(s, other)
  {
    assert (s + [m])[|s|] == m;
    if Has(s, other) {
      var i :| 0 <= i < |s| && s[i].id == other;
      assert (s + [m])[i].id == other;
    }
  }

  lemma AppendKeeps(s: seq<Memory>, m: Memory)
    requires DistinctIds(s) && !Has(s, m.id)
    ensures DistinctIds(s + [m])
  {
  }

  lemma HasTail(s: seq<Memory>, other: Id)
    requires s != [] && DistinctIds(s)
    ensures Has(s[1..], other) <==> Has(s, other) && other != s[0].id
  {
  }

  /** Everything the context holds or has lost to overflow. */
  ghost function Holdings(c: Context): multiset<Memory> {
    multiset(c.main) + multiset(c.archive) + multiset(c.overflow)
  }

  lemma PageOutKeeps(c: Context, id: Id, lim: Limits)
    requires lim.archiveMax >= 1 && Sound(c, lim)
    ensures Sound(PageOut(c, id, lim), lim) && Holdings(PageOut(c, id, lim)) == Holdings(c)
  {
    if Has(c.main, id) {
      var m, main := Lookup(c.main, id), Without(c.main, id);
      WithoutKeeps(c.main, id);
      forall other ensures Has(main, other) <==> other != id && Has(c.main, other) {
        HasWithout(c.main, id, other);
      }
      ArchivePushKeeps(c.archive, main, m, lim);
    }
  }

  /** Pushing an entry onto the archive, dropping the oldest when it is full. */
  lemma ArchivePushKeeps(archive: seq<Memory>, main: seq<Memory>, m: Memory, lim: Limits)
    requires lim.archiveMax >= 1 && |archive| <= lim.archiveMax
    requires DistinctIds(archive) && Separate(main, archive) && !Has(archive, m.id) && !Has(main, m.id)
    ensures var kept := if |archive| >= lim.archiveMax then archive[1..] else archive;
            && DistinctIds(kept + [m]) && Separate(main, kept + [m])
            && multiset(archive) == multiset(kept) + multiset(if |archive| >= lim.archiveMax then [archive[0]] else [])
  {
    var full := |archive| >= lim.archiveMax;
    var kept := if full then archive[1..] else archive;
    if full {
      assert archive == [archive[0]] + kept;
    }
    forall other ensures Has(kept, other) ==> Has(archive, other) {
      if full {
        HasTail(archive, other);
      }
    }
    AppendKeeps(kept, m);
    forall other ensures !(Has(main, other) && Has(kept + [m], other)) {
      HasAppend(kept, m, other);
    }
  }

  lemma {:induction false} EnforceKeeps(c: Context, ranks: Rankings, lim: Limits)
    requires lim.archiveMax >= 1 && Sound(c, lim)
    ensures Sound(Enforce(c, ranks, lim), lim) && Holdings(Enforce(c, ranks, lim)) == Holdings(c)
    decreases |c.main|
  {
    if Tokens(c.main) > lim.budget && c.main != [] {
      var id := Victim(c.main, RankAt(ranks, c.pageOuts)).id;
      if id != "" {
        PageOutKeeps(c, id, lim);
        RemovalShrinks(c.main, id);
        EnforceKeeps(PageOut(c, id, lim), ranks, lim);
      }
    }
  }

  // ----- every operation keeps the invariant

  /** Moving an entry to the young end of the main context, out of the archive if it was there. */
  lemma MoveToMainKeeps(c: Context, m: Memory, lim: Limits)
    requires Sound(c, lim)
    ensures DistinctIds(Without(c.main, m.id) + [m]) && DistinctIds(Without(c.archive, m.id))
    ensures Separate(Without(c.main, m.id) + [m], Without(c.archive, m.id))
    ensures |Without(c.archive, m.id)| == |c.archive| - if Has(c.archive, m.id) then 1 else 0
  {
    var main, archive := Without(c.main, m.id), Without(c.archive, m.id);
    WithoutKeeps(c.main, m.id);
    WithoutKeeps(c.archive, m.id);
    AppendKeeps(main, m);
    forall other ensures !(Has(main + [m], other) && Has(archive, other)) {
      HasWithout(c.main, m.id, other);
      HasWithout(c.archive, m.id, other);
      HasAppend(main, m, other);
    }
  }

  lemma AdmitKeeps(c: Context, m: Memory, lim: Limits)
    requires Sound(c, lim)
    ensures !Has(c.main, m.id) ==> Sound(Admit(c, m), lim)
    ensures !Has(c.main, m.id) && !Has(c.archive, m.id) ==> Holdings(Admit(c, m)) == Holdings(c) + multiset{m}
    ensures Has(c.archive, m.id) && m == Lookup(c.archive, m.id) ==> Holdings(Admit(c, m)) == Holdings(c)
  {
    MoveToMainKeeps(c, m, lim);
    WithoutKeeps(c.main, m.id);
    WithoutKeeps(c.archive, m.id);
  }

  lemma AddKeeps(c: Context, m: Memory, ranks: Rankings, lim: Limits)
    requires lim.archiveMax >= 1 && Sound(c, lim)
    ensures Sound(Add(c, m, ranks, lim), lim)
    ensures !Has(c.main, m.id) && !Has(c.archive, m.id) ==>
              Holdings(Add(c, m, ranks, lim)) == Holdings(c) + multiset{m}
  {
    if !Has(c.main, m.id) {
      AdmitKeeps(c, m, lim);
      EnforceKeeps(Admit(c, m), ranks, lim);
    } else {
      ReplaceKeeps(c, m, lim);
    }
  }

  lemma ReplaceKeeps(c: Context, m: Memory, lim: Limits)
    requires Sound(c, lim) && Has(c.main, m.id)
    ensures Sound(c.(main := Without(c.main, m.id) + [m]), lim)
  {
    MoveToMainKeeps(c, m, lim);
    WithoutKeeps(c.archive, m.id);
    assert Without(c.archive, m.id) == c.archive;
  }

  /** Recalling moves an entry; nothing is gained, and nothing lost but to overflow. */
  lemma RecallKeeps(c: Context, id: Id, ranks: Rankings, lim: Limits)
    requires lim.archiveMax >= 1 && Sound(c, lim)
    ensures Sound(Recall(c, id, ranks, lim), lim) && Holdings(Recall(c, id, ranks, lim)) == Holdings(c)
  {
    if Has(c.archive, id) {
      var m := Lookup(c.archive, id);
      AdmitKeeps(c, m, lim);
      EnforceKeeps(Admit(c, m), ranks, lim);
    }
  }

  lemma GetKeeps(c: Context, id: Id, now: real, ranks: Rankings, lim: Limits)
    requires lim.archiveMax >= 1 && Sound(c, lim)
    ensures Sound(Get(c, id, now, ranks, lim), lim)
  {
    if Has(c.main, id) {
      ReplaceKeeps(c, Touched(Lookup(c.main, id), now), lim);
    } else {
      RecallKeeps(c, id, ranks, lim);
    }
  }

  lemma TouchKeeps(s: seq<Memory>, id: Id, now: real, other: Id)
    ensures Has(TouchIn(s, id, now), other) <==> Has(s, other)
    ensures DistinctIds(s) ==> DistinctIds(TouchIn(s, id, now))
  {
  }

  lemma TakeHitKeeps(c: Context, hit: Hit, lim: Limits)
    requires lim.archiveMax >= 1 && Sound(c, lim)
    ensures Sound(TakeHit(c, hit, lim), lim)
  {
    var c1 := if hit.recall then Recall(c, hit.id, hit.moment.ranks, lim) else c;
    RecallKeeps(c, hit.id, hit.moment.ranks, lim);
    var main, archive := TouchIn(c1.main, hit.id, hit.moment.now), TouchIn(c1.archive, hit.id, hit.moment.now);
    forall other ensures !(Has(main, other) && Has(archive, other)) {
      TouchKeeps(c1.main, hit.id, hit.moment.now, other);
      TouchKeeps(c1.archive, hit.id, hit.moment.now, other);
    }
    TouchKeeps(c1.main, hit.id, hit.moment.now, "");
    TouchKeeps(c1.archive, hit.id, hit.moment.now, "");
  }

  lemma {:induction false} SearchKeeps(c: Context, hits: seq<Hit>, lim: Limits)
    requires lim.archiveMax >= 1 && Sound(c, lim)
    ensures Sound(Search(c, hits, lim), lim)
  {
    if hits == [] {
    } else {
      SearchKeeps(c, hits[..|hits| - 1], lim);
      TakeHitKeeps(Search(c, hits[..|hits| - 1], lim), hits[|hits| - 1], lim);
    }
  }

  lemma DeleteKeeps(c: Context, id: Id, lim: Limits)
    requires Sound(c, lim)
    ensures Sound(Delete(c, id), lim)
    ensures !Has(Delete(c, id).main, id) && !Has(Delete(c, id).archive, id)
  {
    WithoutKeeps(c.main, id);
    WithoutKeeps(c.archive, id);
    forall other ensures !(Has(Delete(c, id).main, other) && Has(Delete(c, id).archive, other)) {
      HasWithout(c.main, id, other);
      HasWithout(c.archive, id, other);
    }
  }

  // ----- nothing is lost but to overflow

  /** An entry of that id was pushed out of the archive, as number `from` or later. */
  ghost predicate Overflowed(c: Context, from: nat, id: Id) {
    exists i :: from <= i < |c.overflow| && c.overflow[i].id == id
  }

  ghost predicate MovesId(c: Context, c': Context, id: Id) {
    && (Held(c', id) ==> Held(c, id))
    && (Held(c, id) ==> Held(c', id) || Overflowed(c', |c.overflow|, id))
  }

  /** From c to c' entries move between the levels, or leave through a full archive. */
  ghost predicate Moves(c: Context, c': Context) {
    c.overflow <= c'.overflow && forall id :: MovesId(c, c', id)
  }

  lemma OverflowedStays(c: Context, c': Context, from: nat, id: Id)
    requires c.overflow <= c'.overflow && Overflowed(c, from, id)
    ensures Overflowed(c', from, id)
  {
  }

  lemma MovesCompose(c: Context, c': Context, c'': Context)
    requires Moves(c, c') && Moves(c', c'')
    ensures Moves(c, c'')
  {
    forall id ensures MovesId(c, c'', id) {
      assert MovesId(c, c', id) && MovesId(c', c'', id);
      if Overflowed(c', |c.overflow|, id) {
        OverflowedStays(c', c'', |c.overflow|, id);
      }
    }
  }

  lemma PageOutMoves(c: Context, id: Id, lim: Limits)
    requires lim.archiveMax >= 1
    ensures Moves(c, PageOut(c, id, lim))
  {
    if Has(c.main, id) {
      var c' := PageOut(c, id, lim);
      forall other ensures MovesId(c, c', other) {
        HasWithout(c.main, id, other);
        var full := |c.archive| >= lim.archiveMax;
        HasAppend(if full then c.archive[1..] else c.archive, Lookup(c.main, id), other);
        if full {
          HasHeadOrTail(c.archive, other);
          assert c'.overflow[|c.overflow|] == c.archive[0];
        }
      }
    }
  }

  lemma {:induction false} EnforceMoves(c: Context, ranks: Rankings, lim: Limits)
    requires lim.archiveMax >= 1
    ensures Moves(c, Enforce(c, ranks, lim))
    decreases |c.main|
  {
    if Tokens(c.main) > lim.budget && c.main != [] && Victim(c.main, RankAt(ranks, c.pageOuts)).id != "" {
      var id := Victim(c.main, RankAt(ranks, c.pageOuts)).id;
      PageOutMoves(c, id, lim);
      RemovalShrinks(c.main, id);
      EnforceMoves(PageOut(c, id, lim), ranks, lim);
      MovesCompose(c, PageOut(c, id, lim), Enforce(c, ranks, lim));
    }
  }

  lemma AdmitHolds(c: Context, m: Memory, id: Id)
    ensures Held(Admit(c, m), id) <==> id == m.id || Held(c, id)
  {
    HasWithout(c.main, m.id, id);
    HasWithout(c.archive, m.id, id);
    HasAppend(Without(c.main, m.id), m, id);
  }

  lemma RecallMoves(c: Context, id: Id, ranks: Rankings, lim: Limits)
    requires lim.archiveMax >= 1
    ensures Moves(c, Recall(c, id, ranks, lim))
  {
    if Has(c.archive, id) {
      var admitted := Admit(c, Lookup(c.archive, id));
      forall other ensures MovesId(c, admitted, other) {
        AdmitHolds(c, Lookup(c.archive, id), other);
      }
      EnforceMoves(admitted, ranks, lim);
      MovesCompose(c, admitted, Recall(c, id, ranks, lim));
    }
  }

  lemma GetMoves(c: Context, id: Id, now: real, ranks: Rankings, lim: Limits)
    requires lim.archiveMax >= 1
    ensures Moves(c, Get(c, id, now, ranks, lim))
  {
    if Has(c.main, id) {
      forall other ensures MovesId(c, Get(c, id, now, ranks, lim), other) {
        HasWithout(c.main, id, other);
        HasAppend(Without(c.main, id), Touched(Lookup(c.main, id), now), other);
      }
    } else {
      RecallMoves(c, id, ranks, lim);
    }
  }

  /** Adding holds the new id and everything held before, but for what overflows. */
  lemma AddMoves(c: Context, m: Memory, ranks: Rankings, lim: Limits)
    requires lim.archiveMax >= 1
    ensures Moves(Admit(c, m), Add(c, m, ranks, lim))
  {
    if Has(c.main, m.id) {
      forall other ensures MovesId(Admit(c, m), Add(c, m, ranks, lim), other) {
        HasWithout(c.archive, m.id, other);
        HasWithout(c.main, m.id, other);
        HasAppend(Without(c.main, m.id), m, other);
      }
    } else {
      EnforceMoves(Admit(c, m), ranks, lim);
    }
  }

  // ----- runs

  datatype Event =
    | Adding(m: Memory, ranks: Rankings)
    | Getting(id: Id, now: real, ranks: Rankings)
    | Searching(hits: seq<Hit>)
    | Deleting(id: Id)

  function Step(c: Context, e: Event, lim: Limits): Context
    requires lim.archiveMax >= 1
  {
    match e
    case Adding(m, ranks) => Add(c, m, ranks, lim)
    case Getting(id, now, ranks) => Get(c, id, now, ranks, lim)
    case Searching(hits) => Search(c, hits, lim)
    case Deleting(id) => Delete(c, id)
  }

  function Run(events: seq<Event>, lim: Limits): Context
    requires lim.archiveMax >= 1
  {
    if events == [] then EMPTY_CONTEXT else Step(Run(events[..|events| - 1], lim), events[|events| - 1], lim)
  }

  lemma StepKeeps(c: Context, e: Event, lim: Limits)
    requires lim.archiveMax >= 1 && Sound(c, lim)
    ensures Sound(Step(c, e, lim), lim)
  {
    match e
    case Adding(m, ranks) => AddKeeps(c, m, ranks, lim);
    case Getting(id, now, ranks) => GetKeeps(c, id, now, ranks, lim);
    case Searching(hits) => SearchKeeps(c, hits, lim);
    case Deleting(id) => DeleteKeeps(c, id, lim);
  }

  lemma {:induction false} EveryRunIsSound(events: seq<Event>, lim: Limits)
    requires lim.archiveMax >= 1
    ensures Sound(Run(events, lim), lim)
  {
    if events == [] {
    } else {
      EveryRunIsSound(events[..|events| - 1], lim);
      StepKeeps(Run(events[..|events| - 1], lim), events[|events| - 1], lim);
    }
  }
}
