/** What eviction evicts, and exactly when an operation of the memory ends over its token budget
    (evolution/memory_enhancement.py).
 */
module ContextBudget {
  import opened ContextModel

  // ----- token sums

  lemma {:induction false} TokensFront(s: seq<Memory>)
    requires s != []
    ensures Tokens(s) == EstimateTokens(s[0].content) + Tokens(s[1..])
    decreases |s|
  {
    if |s| == 1 {
    } else {
      var front := s[..|s| - 1];
      TokensFront(front);
      assert s[1..][..|s| - 2] == front[1..];
    }
  }

  lemma TokensCons(m: Memory, s: seq<Memory>)
    ensures Tokens([m] + s) == EstimateTokens(m.content) + Tokens(s)
  {
    TokensFront([m] + s);
    assert ([m] + s)[1..] == s;
  }

  lemma {:induction false} TokensWithout(s: seq<Memory>, id: Id)
    requires DistinctIds(s) && Has(s, id)
    ensures Tokens(s) == Tokens(Without(s, id)) + EstimateTokens(Lookup(s, id).content)
  {
    TokensFront(s);
    if s[0].id == id {
      HasTail(s, id);
      WithoutContents(s[1..], id);
    } else {
      HasHeadOrTail(s, id);
      TokensWithout(s[1..], id);
      TokensFront(Without(s, id));
    }
  }

  lemma TokensAppend(s: seq<Memory>, m: Memory)
    ensures Tokens(s + [m]) == Tokens(s) + EstimateTokens(m.content)
  {
    assert (s + [m])[..|s|] == s;
  }

  // ----- eviction, whatever the clock does

  function EvictOne(c: Context, ranks: Rankings, lim: Limits): Context
    requires lim.archiveMax >= 1
  {
    if c.main == [] then c else PageOut(c, Victim(c.main, RankAt(ranks, c.pageOuts)).id, lim)
  }

  /** Eviction stops for one of three reasons. */
  ghost predicate Settled(c: Context, ranks: Rankings, lim: Limits) {
    Tokens(c.main) <= lim.budget || c.main == [] || Victim(c.main, RankAt(ranks, c.pageOuts)).id == ""
  }

  lemma EnforceStep(c: Context, ranks: Rankings, lim: Limits)
    requires lim.archiveMax >= 1
    ensures Settled(c, ranks, lim) ==> Enforce(c, ranks, lim) == c
    ensures !Settled(c, ranks, lim) ==>
              && Enforce(c, ranks, lim) == Enforce(EvictOne(c, ranks, lim), ranks, lim)
              && |EvictOne(c, ranks, lim).main| < |c.main|
  {
    if !Settled(c, ranks, lim) {
      RemovalShrinks(c.main, Victim(c.main, RankAt(ranks, c.pageOuts)).id);
    }
  }

  /** No eviction is made too many: before the last one the context was still over budget, however the
      ranking changes meanwhile. */
  lemma {:induction false} LastEvictionNeeded(c: Context, ranks: Rankings, lim: Limits) returns (last: Context)
    requires lim.archiveMax >= 1 && !Settled(c, ranks, lim)
    ensures Tokens(last.main) > lim.budget && Enforce(c, ranks, lim) == EvictOne(last, ranks, lim)
    ensures last.main != [] && Enforce(last, ranks, lim) == Enforce(c, ranks, lim)
    decreases |c.main|
  {
    EnforceStep(c, ranks, lim);
    var next := EvictOne(c, ranks, lim);
    EnforceStep(next, ranks, lim);
    last := c;
    if !Settled(next, ranks, lim) {
      last := LastEvictionNeeded(next, ranks, lim);
    }
  }

  /** Eviction ends within a budget that is not negative, unless the next victim has the empty id. */
  lemma {:induction false} EnforceMeetsBudget(c: Context, ranks: Rankings, lim: Limits)
    requires lim.archiveMax >= 1
    ensures var r := Enforce(c, ranks, lim);
            && Settled(r, ranks, lim)
            && (!Has(c.main, "") ==> !Has(r.main, "") && (Tokens(r.main) > lim.budget <==> lim.budget < 0))
    decreases |c.main|
  {
    if !Settled(c, ranks, lim) {
      var v := Victim(c.main, RankAt(ranks, c.pageOuts));
      RemovalShrinks(c.main, v.id);
      HasWithout(c.main, v.id, "");
      EnforceMeetsBudget(PageOut(c, v.id, lim), ranks, lim);
    } else if c.main != [] && !Has(c.main, "") {
      var v := Victim(c.main, RankAt(ranks, c.pageOuts));
      var i :| 0 <= i < |c.main| && c.main[i] == v;
    }
  }

  // ----- the order of eviction, while the ranking stands still

  /** Entry i goes before entry j. */
  ghost predicate Earlier(s: seq<Memory>, rank: Ranking, i: nat, j: nat)
    requires i < |s| && j < |s|
  {
    rank(s[i]) < rank(s[j]) || (rank(s[i]) == rank(s[j]) && i < j)
  }

  lemma {:induction false} VictimIsEarliest(s: seq<Memory>, rank: Ranking) returns (i: nat)
    requires s != []
    ensures i < |s| && s[i] == Victim(s, rank)
    ensures forall j :: 0 <= j < |s| && j != i ==> Earlier(s, rank, i, j)
    decreases |s|
  {
    if |s| == 1 {
      i := 0;
    } else {
      var front, last := s[..|s| - 1], |s| - 1;
      var k := VictimIsEarliest(front, rank);
      i := if rank(s[last]) < rank(s[k]) then last else k;
      forall j | 0 <= j < |s| && j != i ensures Earlier(s, rank, i, j) {
        if j < last && j != k {
          assert Earlier(front, rank, k, j) && front[j] == s[j];
        }
      }
    }
  }

  function AtLeast(s: seq<Memory>, rank: Ranking, r: real): seq<Memory> {
    if s == [] then []
    else (if rank(s[0]) >= r then [s[0]] else []) + AtLeast(s[1..], rank, r)
  }

  /** The entries of s that do not go before e. */
  function NotBefore(s: seq<Memory>, rank: Ranking, e: Memory): seq<Memory> {
    if s == [] then []
    else if s[0].id == e.id then [s[0]] + AtLeast(s[1..], rank, rank(e))
    else (if rank(s[0]) > rank(e) then [s[0]] else []) + NotBefore(s[1..], rank, e)
  }

  lemma {:induction false} AtLeastExactly(s: seq<Memory>, rank: Ranking, r: real, m: Memory)
    ensures m in AtLeast(s, rank, r) <==> m in s && rank(m) >= r
  {
    if s == [] {
    } else {
      AtLeastExactly(s[1..], rank, r, m);
      assert m in s <==> m == s[0] || m in s[1..];
    }
  }

  /** Entry i is among them exactly when it does not go before entry j. */
  lemma {:induction false} NotBeforeExactly(s: seq<Memory>, rank: Ranking, i: nat, j: nat)
    requires DistinctIds(s) && i < |s| && j < |s|
    ensures s[i] in NotBefore(s, rank, s[j]) <==> !Earlier(s, rank, i, j)
    decreases |s|
  {
    var rest := s[1..];
    if j == 0 {
      AtLeastExactly(rest, rank, rank(s[0]), s[i]);
      if i > 0 {
        assert rest[i - 1] == s[i];
      }
    } else if i == 0 {
      NotThere(rest, rank, s[j], s[0]);
    } else {
      assert rest[i - 1] == s[i] && rest[j - 1] == s[j];
      NotBeforeExactly(rest, rank, i - 1, j - 1);
    }
  }

  lemma {:induction false} NotThere(s: seq<Memory>, rank: Ranking, e: Memory, m: Memory)
    requires m !in s
    ensures m !in NotBefore(s, rank, e)
  {
    if s == [] {
    } else {
      assert m !in s[1..];
      AtLeastExactly(s[1..], rank, rank(e), m);
      NotThere(s[1..], rank, e, m);
    }
  }

  lemma AtLeastWithout(s: seq<Memory>, rank: Ranking, r: real, v: Memory)
    requires DistinctIds(s) && (forall m :: m in s && m.id == v.id ==> m == v) && rank(v) < r
    ensures AtLeast(Without(s, v.id), rank, r) == AtLeast(s, rank, r)
  {
    if s != [] {
      AtLeastWithout(s[1..], rank, r, v);
    }
  }

  /** Taking away an entry that goes before e does not change what does not. */
  lemma {:induction false} EarlierGone(s: seq<Memory>, rank: Ranking, i: nat, j: nat)
    requires DistinctIds(s) && i < |s| && j < |s| && i != j && Earlier(s, rank, i, j)
    ensures NotBefore(Without(s, s[i].id), rank, s[j]) == NotBefore(s, rank, s[j])
    decreases |s|
  {
    var v, e, rest := s[i], s[j], s[1..];
    if i == 0 {
      HasTail(s, v.id);
      WithoutContents(rest, v.id);
    } else if j == 0 {
      assert rest[i - 1] == v;
      forall m | m in rest && m.id == v.id ensures m == v {
        var k :| 0 <= k < |rest| && rest[k] == m;
        assert s[k + 1].id == s[i].id;
      }
      AtLeastWithout(rest, rank, rank(e), v);
    } else {
      assert rest[i - 1] == v && rest[j - 1] == e;
      EarlierGone(rest, rank, i - 1, j - 1);
    }
  }

  lemma VictimGone(s: seq<Memory>, rank: Ranking, e: Memory)
    requires DistinctIds(s) && s != [] && e in s && e != Victim(s, rank)
    ensures NotBefore(Without(s, Victim(s, rank).id), rank, e) == NotBefore(s, rank, e)
    ensures e.id != Victim(s, rank).id
  {
    var i := VictimIsEarliest(s, rank);
    var j :| 0 <= j < |s| && s[j] == e;
    EarlierGone(s, rank, i, j);
  }

  lemma {:induction false} AllAtLeast(s: seq<Memory>, rank: Ranking, r: real)
    requires forall m :: m in s ==> rank(m) >= r
    ensures AtLeast(s, rank, r) == s
  {
    if s == [] {
    } else {
      AllAtLeast(s[1..], rank, r);
    }
  }

  lemma {:induction false} NothingBefore(s: seq<Memory>, rank: Ranking, i: nat)
    requires DistinctIds(s) && i < |s| && forall j :: 0 <= j < |s| && j != i ==> Earlier(s, rank, i, j)
    ensures NotBefore(s, rank, s[i]) == s
    decreases |s|
  {
    var rest := s[1..];
    if i == 0 {
      forall m | m in rest ensures rank(m) >= rank(s[0]) {
        var j :| 0 <= j < |rest| && rest[j] == m;
        assert Earlier(s, rank, 0, j + 1);
      }
      AllAtLeast(rest, rank, rank(s[0]));
    } else {
      assert Earlier(s, rank, i, 0);
      var k := i - 1;
      forall j | 0 <= j < |rest| && j != k ensures Earlier(rest, rank, k, j) {
        assert Earlier(s, rank, i, j + 1);
      }
      NothingBefore(rest, rank, k);
    }
  }

  lemma VictimHasNoneBefore(s: seq<Memory>, rank: Ranking)
    requires DistinctIds(s) && s != []
    ensures NotBefore(s, rank, Victim(s, rank)) == s
  {
    var i := VictimIsEarliest(s, rank);
    NothingBefore(s, rank, i);
  }

  ghost predicate Fixed(ranks: Rankings, rank: Ranking) {
    forall n: nat :: RankAt(ranks, n) == rank
  }

  lemma EvictionStep(c: Context, v: Memory, lim: Limits)
    requires lim.archiveMax >= 1 && DistinctIds(c.main) && v in c.main
    ensures PageOut(c, v.id, lim).main == Without(c.main, v.id)
    ensures DistinctIds(Without(c.main, v.id)) && |Without(c.main, v.id)| < |c.main|
  {
    var i :| 0 <= i < |c.main| && c.main[i] == v;
    assert Has(c.main, v.id);
    RemovalShrinks(c.main, v.id);
    WithoutDistinct(c.main, v.id);
  }

  /** What is left is all that does not go before the next victim, and every eviction was needed:
      with the evicted entry and those behind it the context was over budget. */
  ghost predicate ShortestPrefixGone(before: seq<Memory>, after: seq<Memory>, rank: Ranking, budget: int) {
    && (after != [] ==> after == NotBefore(before, rank, Victim(after, rank)))
    && (forall w :: w in after ==> w in before)
    && (forall w :: w in before && w !in after ==> Tokens(NotBefore(before, rank, w)) > budget)
  }

  /** Eviction takes away a shortest prefix of the order of rank and position. */
  lemma {:induction false} EvictsShortestPrefix(c: Context, ranks: Rankings, rank: Ranking, lim: Limits)
    requires lim.archiveMax >= 1 && DistinctIds(c.main) && Fixed(ranks, rank)
    ensures ShortestPrefixGone(c.main, Enforce(c, ranks, lim).main, rank, lim.budget)
    decreases |c.main|
  {
    assert RankAt(ranks, c.pageOuts) == rank;
    if c.main != [] {
      VictimHasNoneBefore(c.main, rank);
    }
    if !Settled(c, ranks, lim) {
      var v := Victim(c.main, rank);
      EvictionStep(c, v, lim);
      EvictsShortestPrefix(PageOut(c, v.id, lim), ranks, rank, lim);
      OneMoreGone(c.main, Enforce(c, ranks, lim).main, rank, lim.budget);
    }
  }

  lemma OneMoreGone(before: seq<Memory>, after: seq<Memory>, rank: Ranking, budget: int)
    requires before != [] && DistinctIds(before) && Tokens(before) > budget
    requires ShortestPrefixGone(Without(before, Victim(before, rank).id), after, rank, budget)
    ensures ShortestPrefixGone(before, after, rank, budget)
  {
    var v := Victim(before, rank);
    VictimHasNoneBefore(before, rank);
    if after != [] {
      assert Victim(after, rank) in Without(before, v.id);
      VictimGone(before, rank, Victim(after, rank));
    }
    forall w | w in before && w !in after ensures Tokens(NotBefore(before, rank, w)) > budget {
      if w != v {
        VictimGone(before, rank, w);
      }
    }
  }

  // ----- exactly when the budget is exceeded

  /** The entry with the empty id, and all that does not go before it, are too much. */
  ghost predicate StuckOverBudget(s: seq<Memory>, rank: Ranking, budget: int) {
    Has(s, "") && Tokens(NotBefore(s, rank, Lookup(s, ""))) > budget
  }

  lemma {:induction false} LookupUnique(s: seq<Memory>, m: Memory)
    requires DistinctIds(s) && m in s
    ensures Has(s, m.id) && Lookup(s, m.id) == m
  {
    var i :| 0 <= i < |s| && s[i] == m;
    assert Has(s, m.id);
    var j :| 0 <= j < |s| && s[j] == Lookup(s, m.id);
  }

  lemma {:induction false} AtLeastTokens(s: seq<Memory>, rank: Ranking, r: real)
    ensures Tokens(AtLeast(s, rank, r)) <= Tokens(s)
  {
    if s == [] {
    } else {
      AtLeastTokens(s[1..], rank, r);
      TokensFront(s);
      TokensCons(s[0], AtLeast(s[1..], rank, r));
      assert [] + AtLeast(s[1..], rank, r) == AtLeast(s[1..], rank, r);
    }
  }

  lemma {:induction false} NotBeforeTokens(s: seq<Memory>, rank: Ranking, e: Memory)
    ensures Tokens(NotBefore(s, rank, e)) <= Tokens(s)
  {
    if s == [] {
    } else {
      NotBeforeTokens(s[1..], rank, e);
      AtLeastTokens(s[1..], rank, rank(e));
      TokensFront(s);
      TokensCons(s[0], AtLeast(s[1..], rank, rank(e)));
      TokensCons(s[0], NotBefore(s[1..], rank, e));
      assert [] + NotBefore(s[1..], rank, e) == NotBefore(s[1..], rank, e);
    }
  }

  /** Evicting a victim with an id does not change whether the empty id stops the eviction. */
  lemma StuckStays(s: seq<Memory>, rank: Ranking, budget: int)
    requires DistinctIds(s) && s != [] && Victim(s, rank).id != ""
    ensures StuckOverBudget(Without(s, Victim(s, rank).id), rank, budget) <==> StuckOverBudget(s, rank, budget)
  {
    var v := Victim(s, rank);
    HasWithout(s, v.id, "");
    if Has(s, "") {
      var e := Lookup(s, "");
      VictimGone(s, rank, e);
      WithoutDistinct(s, v.id);
      LookupUnique(Without(s, v.id), e);
    }
  }

  /** For a ranking that stands still, eviction ends over budget if and only if the budget is negative,
      or the entry with the empty id and those that do not go before it exceed it. */
  lemma {:induction false} OverBudgetExactly(c: Context, ranks: Rankings, rank: Ranking, lim: Limits)
    requires lim.archiveMax >= 1 && DistinctIds(c.main) && Fixed(ranks, rank)
    ensures Tokens(Enforce(c, ranks, lim).main) > lim.budget <==>
            lim.budget < 0 || StuckOverBudget(c.main, rank, lim.budget)
    decreases |c.main|
  {
    assert RankAt(ranks, c.pageOuts) == rank;
    if Tokens(c.main) <= lim.budget {
      if Has(c.main, "") {
        NotBeforeTokens(c.main, rank, Lookup(c.main, ""));
      }
    } else if c.main != [] {
      var v := Victim(c.main, rank);
      EvictionStep(c, v, lim);
      if v.id == "" {
        LookupUnique(c.main, v);
        VictimHasNoneBefore(c.main, rank);
      } else {
        StuckStays(c.main, rank, lim.budget);
        OverBudgetExactly(PageOut(c, v.id, lim), ranks, rank, lim);
      }
    }
  }

  /** The entry with the empty id is never evicted. */
  lemma EmptyIdCanOverrun(rank: Ranking)
    ensures var m := Memory("", "x", 0.5, 0, 0.0, [], 1);
            var lim := Limits(0, 1);
            Tokens(Add(EMPTY_CONTEXT, m, _ => rank, lim).main) > lim.budget
  {
    var m := Memory("", "x", 0.5, 0, 0.0, [], 1);
    var c := Admit(EMPTY_CONTEXT, m);
    assert c.main == [m] && [m][..0] == [];
    assert CountAlphanumeric("x") == 1 by {
      assert "x"[1..] == "";
    }
    assert EstimateTokens("x") == 1;
    assert Enforce(c, _ => rank, Limits(0, 1)) == c;
  }

  // ----- the operations

  lemma AdmitDistinct(c: Context, m: Memory)
    requires DistinctIds(c.main)
    ensures DistinctIds(Admit(c, m).main)
  {
    WithoutDistinct(c.main, m.id);
    AppendKeeps(Without(c.main, m.id), m);
  }

  /** Adding an entry that is not in the main context: within the budget unless it is negative, if no id
      is empty; and for a ranking that stands still, exactly when. */
  lemma AddMeetsBudget(c: Context, m: Memory, ranks: Rankings, lim: Limits)
    requires lim.archiveMax >= 1 && !Has(c.main, m.id)
    ensures var after := Add(c, m, ranks, lim).main;
            !Has(c.main, "") && m.id != "" ==>
              !Has(after, "") && (Tokens(after) > lim.budget <==> lim.budget < 0)
  {
    HasWithout(c.main, m.id, "");
    HasAppend(Without(c.main, m.id), m, "");
    EnforceMeetsBudget(Admit(c, m), ranks, lim);
  }

  lemma AddOverBudgetExactly(c: Context, m: Memory, ranks: Rankings, rank: Ranking, lim: Limits)
    requires lim.archiveMax >= 1 && DistinctIds(c.main) && !Has(c.main, m.id) && Fixed(ranks, rank)
    ensures Tokens(Add(c, m, ranks, lim).main) > lim.budget <==>
            lim.budget < 0 || StuckOverBudget(c.main + [m], rank, lim.budget)
  {
    AdmitDistinct(c, m);
    WithoutContents(c.main, m.id);
    OverBudgetExactly(Admit(c, m), ranks, rank, lim);
  }

  lemma RecallMeetsBudget(c: Context, id: Id, ranks: Rankings, lim: Limits)
    requires lim.archiveMax >= 1 && Has(c.archive, id)
    ensures var after := Recall(c, id, ranks, lim).main;
            !Has(c.main, "") && id != "" ==>
              !Has(after, "") && (Tokens(after) > lim.budget <==> lim.budget < 0)
  {
    var m := Lookup(c.archive, id);
    HasWithout(c.main, m.id, "");
    HasAppend(Without(c.main, m.id), m, "");
    EnforceMeetsBudget(Admit(c, m), ranks, lim);
  }

  lemma RecallOverBudgetExactly(c: Context, id: Id, ranks: Rankings, rank: Ranking, lim: Limits)
    requires lim.archiveMax >= 1 && DistinctIds(c.main) && !Has(c.main, id) && Has(c.archive, id)
    requires Fixed(ranks, rank)
    ensures Tokens(Recall(c, id, ranks, lim).main) > lim.budget <==>
            lim.budget < 0 || StuckOverBudget(c.main + [Lookup(c.archive, id)], rank, lim.budget)
  {
    var m := Lookup(c.archive, id);
    AdmitDistinct(c, m);
    WithoutContents(c.main, m.id);
    OverBudgetExactly(Admit(c, m), ranks, rank, lim);
  }

  /** Replacing an entry of the main context exchanges its tokens and evicts nothing. */
  lemma ReplacementOverBudgetExactly(c: Context, m: Memory, ranks: Rankings, lim: Limits)
    requires lim.archiveMax >= 1 && DistinctIds(c.main) && Has(c.main, m.id)
    ensures Tokens(Add(c, m, ranks, lim).main) > lim.budget <==>
            Tokens(c.main) - EstimateTokens(Lookup(c.main, m.id).content) + EstimateTokens(m.content) > lim.budget
  {
    TokensWithout(c.main, m.id);
    TokensAppend(Without(c.main, m.id), m);
  }

  /** So a context within its budget can be replaced over it. */
  lemma ReplacementCanOverrun(ranks: Rankings)
    ensures var lim := Limits(1, 1);
            var c := Add(EMPTY_CONTEXT, Memory("a", "x", 0.5, 0, 0.0, [], 1), ranks, lim);
            && Tokens(c.main) <= lim.budget
            && Tokens(Add(c, Memory("a", "xxxx", 0.5, 0, 0.0, [], 2), ranks, lim).main) > lim.budget
  {
    var lim, m, n := Limits(1, 1), Memory("a", "x", 0.5, 0, 0.0, [], 1), Memory("a", "xxxx", 0.5, 0, 0.0, [], 2);
    CountX(1, "x");
    CountX(4, "xxxx");
    var c := Admit(EMPTY_CONTEXT, m);
    assert c.main == [m] && [m][..0] == [] && Tokens([m]) == 1;
    assert Add(EMPTY_CONTEXT, m, ranks, lim) == c;
    assert [m][0].id == "a";
    ReplacementOverBudgetExactly(c, n, ranks, lim);
  }

  lemma {:induction false} CountX(n: nat, s: string)
    requires |s| == n && forall i :: 0 <= i < n ==> s[i] == 'x'
    ensures CountAlphanumeric(s) == n
    decreases n
  {
    if n == 0 {
    } else {
      CountX(n - 1, s[1..]);
    }
  }
}
