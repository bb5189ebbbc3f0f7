/** The class `VirtualContextManager` (evolution/memory_enhancement.py), whose methods carry out
    the functions of `ContextModel`. */
module ContextManager {
  import opened ContextModel
  import opened ContextEffects
  import opened Wrappers

  /** `_current_main_tokens`. */
  method CountTokens(s: seq<Memory>) returns (total: nat)
    ensures total == Tokens(s)
  {
    total := 0;
    for i := 0 to |s|
      invariant total == Tokens(s[..i])
    {
      assert s[..i + 1][..i] == s[..i];
      total := total + EstimateTokens(s[i].content);
    }
    assert s[..|s|] == s;
  }

  /** `_select_for_page_out`: the first entry of least rank. */
  method SelectForPageOut(s: seq<Memory>, rank: Ranking) returns (id: Id)
    requires s != []
    ensures id == Victim(s, rank).id
  {
    var best := s[0];
    for i := 1 to |s|
      invariant best == Victim(s[..i], rank)
    {
      assert s[..i + 1][..i] == s[..i];
      if rank(s[i]) < rank(best) {
        best := s[i];
      }
    }
    assert s[..|s|] == s;
    id := best.id;
  }

  class VirtualContextManager {
    const lim: Limits
    var main: seq<Memory>
    var archive: seq<Memory>
    var pageOuts: nat
    var pageIns: nat
    ghost var overflow: seq<Memory>
    ghost var archiveDeletes: nat

    ghost function State(): Context
      reads this
    {
      Context(main, archive, pageOuts, pageIns, overflow, archiveDeletes)
    }

    ghost predicate Valid()
      reads this
    {
      lim.archiveMax >= 1 && Sound(State(), lim)
    }

    constructor (lim: Limits)
      requires lim.archiveMax >= 1
      ensures this.lim == lim && Valid() && State() == EMPTY_CONTEXT
    {
      this.lim := lim;
      main, archive, pageOuts, pageIns, overflow, archiveDeletes := [], [], 0, 0, [], 0;
    }

    method PageOutEntry(id: Id)
      requires lim.archiveMax >= 1
      modifies this
      ensures State() == PageOut(old(State()), id, lim)
    {
      if Has(main, id) {
        var m := Lookup(main, id);
        main := Without(main, id);
        if |archive| >= lim.archiveMax {
          overflow := overflow + [archive[0]];
          archive := archive[1..];
        }
        archive := archive + [m];
        pageOuts := pageOuts + 1;
      }
    }

    /** `_enforce_budget`. */
    method EnforceBudget(ranks: Rankings)
      requires lim.archiveMax >= 1
      modifies this
      ensures State() == Enforce(old(State()), ranks, lim)
    {
      var tokens := CountTokens(main);
      var stuck := false;
      while tokens > lim.budget && main != [] && !stuck
        invariant tokens == Tokens(main)
        invariant !stuck ==> Enforce(State(), ranks, lim) == Enforce(old(State()), ranks, lim)
        invariant stuck ==> State() == Enforce(old(State()), ranks, lim)
        decreases |main|, !stuck
      {
        var id := SelectForPageOut(main, RankAt(ranks, pageOuts));
        if id != "" {
          RemovalShrinks(main, id);
          PageOutEntry(id);
        } else {
          stuck := true;
        }
        tokens := CountTokens(main);
      }
    }

    /** The entry becomes the youngest of the main context. */
    method AdmitEntry(m: Memory)
      modifies this
      ensures State() == Admit(old(State()), m)
    {
      if Has(archive, m.id) {
        pageIns := pageIns + 1;
      }
      archive := Without(archive, m.id);
      main := Without(main, m.id) + [m];
    }

    method AddMemory(m: Memory, ranks: Rankings)
      requires Valid()
      modifies this
      ensures Valid() && State() == Add(old(State()), m, ranks, lim)
    {
      AddKeeps(State(), m, ranks, lim);
      if Has(main, m.id) {
        main := Without(main, m.id) + [m];
      } else {
        AdmitEntry(m);
        EnforceBudget(ranks);
      }
    }

    method RecallEntry(id: Id, ranks: Rankings)
      requires Valid()
      modifies this
      ensures Valid() && State() == Recall(old(State()), id, ranks, lim)
    {
      RecallKeeps(State(), id, ranks, lim);
      if Has(archive, id) {
        AdmitEntry(Lookup(archive, id));
        EnforceBudget(ranks);
      }
    }

    /** `get`: an archived entry is recalled, and returned even if it is at once paged out again. */
    method GetMemory(id: Id, now: real, ranks: Rankings) returns (found: Option<Memory>)
      requires Valid()
      modifies this
      ensures Valid() && State() == Get(old(State()), id, now, ranks, lim)
      ensures found == if Held(old(State()), id) then Some(Fetched(old(State()), id, now)) else None
    {
      GetKeeps(State(), id, now, ranks, lim);
      if Has(main, id) {
        var m := Touched(Lookup(main, id), now);
        main := Without(main, id) + [m];
        return Some(m);
      }
      if Has(archive, id) {
        var m := Lookup(archive, id);
        RecallEntry(id, ranks);
        return Some(m);
      }
      found := None;
    }

    method DeleteMemory(id: Id) returns (ok: bool)
      requires Valid()
      modifies this
      ensures Valid() && State() == Delete(old(State()), id)
      ensures ok <==> Has(old(main), id) || Has(old(archive), id)
    {
      DeleteKeeps(State(), id, lim);
      if Has(main, id) {
        main := Without(main, id);
        return true;
      }
      if Has(archive, id) {
        archive := Without(archive, id);
        archiveDeletes := archiveDeletes + 1;
        return true;
      }
      ok := false;
    }

    /** The loop of `search` over its ranked hits. */
    method TakeHits(hits: seq<Hit>)
      requires Valid()
      modifies this
      ensures Valid() && State() == Search(old(State()), hits, lim)
      ensures forall e :: InContext(State(), e) ==> AccessedIn(old(State()), hits, e)
    {
      for i := 0 to |hits|
        invariant Valid() && State() == Search(old(State()), hits[..i], lim)
      {
        TakeHitKeeps(State(), hits[i], lim);
        assert hits[..i + 1][..i] == hits[..i];
        if hits[i].recall {
          RecallEntry(hits[i].id, hits[i].moment.ranks);
        }
        var now := hits[i].moment.now;
        main, archive := TouchIn(main, hits[i].id, now), TouchIn(archive, hits[i].id, now);
      }
      assert hits[..|hits|] == hits;
      forall e | InContext(State(), e) ensures AccessedIn(old(State()), hits, e) {
        SearchEntries(old(State()), hits, lim, e);
      }
    }
  }
}
