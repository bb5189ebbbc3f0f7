/** The policy decision of evolution/policy_guard.py and its retrieval-enhanced variant in
    evolution/agent_policy_rag.py.  What comes of matching a rule's patterns against the call at hand is
    an input, the error of a malformed pattern included, and so is the risk score of the call.  The rule
    table is a dictionary, that is, a sequence of rules with distinct ids in the order of insertion.
 */
module PolicyDecision {
  import opened Wrappers
  import opened Sequences

  type RuleId = string

  datatype Action = Allow | LogOnly | RequireApproval | Deny

  datatype Rule = Rule(id: RuleId, action: Action, priority: int, enabled: bool, pattern: string)

  type Table = seq<Rule>

  datatype Match = Matches | NoMatch | Malformed

  type Matcher = Rule -> Match

  /** A final decision is one of Allow, RequireApproval and Deny; Allow is the weakest. */
  function Strictness(a: Action): nat {
    match a
    case Allow => 0
    case LogOnly => 0
    case RequireApproval => 1
    case Deny => 2
  }

  predicate Applies(r: Rule, matches: Matcher) {
    r.enabled && matches(r).Matches?
  }

  predicate Breaks(r: Rule, matches: Matcher) {
    r.enabled && matches(r).Malformed?
  }

  predicate Denies(r: Rule, matches: Matcher) {
    Applies(r, matches) && r.action == Deny
  }

  /** `_apply_rule_action`. */
  function ApplyRule(r: Rule, current: Action): Action {
    if r.action == Deny then Deny
    else if r.action == RequireApproval && current != Deny then RequireApproval
    else current
  }

  /** `_apply_risk_override`. */
  function RiskOverride(risk: real, current: Action): Action {
    if risk > 0.7 then Deny
    else if risk > 0.4 && current == Allow then RequireApproval
    else current
  }

  // ----- the order of the rules

  ghost predicate DistinctIds(t: Table) {
    forall i, j :: 0 <= i < j < |t| ==> t[i].id != t[j].id
  }

  /** a is looked at before b: lower priority number, or the same and inserted earlier. */
  ghost predicate ComesFirst(t: Table, a: Rule, b: Rule) {
    a.priority < b.priority || (a.priority == b.priority && Precedes(t, a, b))
  }

  function PriorityOf(r: Rule): real {
    r.priority as real
  }

  /** `sorted(rules, key=priority)`, which keeps the order of equals. */
  function ByPriority(t: Table): seq<Rule> {
    SortedBy(t, PriorityOf)
  }

  /** Sorting looks at the rules in the order of priority and insertion. */
  lemma SortedOrder(t: Table, a: Rule, b: Rule)
    requires DistinctIds(t) && a in t && b in t && a != b
    ensures Precedes(ByPriority(t), a, b) <==> ComesFirst(t, a, b)
  {
    Sequences.SortedOrder(t, PriorityOf, a, b);
  }

  // ----- the walk over the rules

  /** The matching loop from a given action on: it stops at a denial, and raises at a malformed pattern. */
  function Decide(rules: seq<Rule>, matches: Matcher, current: Action): Outcome<Action> {
    if rules == [] then Ok(current)
    else if Breaks(rules[0], matches) then Raised
    else if !Applies(rules[0], matches) then Decide(rules[1..], matches, current)
    else
      var next := ApplyRule(rules[0], current);
      if next == Deny then Ok(Deny) else Decide(rules[1..], matches, next)
  }

  /** d is the decision of the strictest applicable rule, or Allow. */
  ghost predicate Strictest(t: Table, matches: Matcher, d: Action) {
    && d != LogOnly
    && (forall r :: r in t && Applies(r, matches) ==> Strictness(r.action) <= Strictness(d))
    && (d == Allow || exists r :: r in t && Applies(r, matches) && r.action == d)
  }

  /** The decision of the rules alone. */
  ghost function Decision(t: Table, matches: Matcher): (d: Action)
    ensures Strictest(t, matches, d)
  {
    if exists r :: r in t && Applies(r, matches) && r.action == Deny then Deny
    else if exists r :: r in t && Applies(r, matches) && r.action == RequireApproval then RequireApproval
    else Allow
  }

  lemma StrictestIsUnique(t: Table, matches: Matcher, d: Action, d': Action)
    requires Strictest(t, matches, d) && Strictest(t, matches, d')
    ensures d == d'
  {
  }

  ghost predicate StrictestFrom(t: Table, matches: Matcher, current: Action, d: Action) {
    && d != LogOnly && Strictness(current) <= Strictness(d)
    && (forall r :: r in t && Applies(r, matches) ==> Strictness(r.action) <= Strictness(d))
    && (d == current || exists r :: r in t && Applies(r, matches) && r.action == d)
  }

  lemma {:induction false} DecideIsStrictest(rules: seq<Rule>, matches: Matcher, current: Action)
    requires current == Allow || current == RequireApproval
    ensures Decide(rules, matches, current).Ok? ==>
              StrictestFrom(rules, matches, current, Decide(rules, matches, current).value)
  {
    if rules != [] && !Breaks(rules[0], matches) {
      var h, rest := rules[0], rules[1..];
      assert forall r :: r in rules <==> r == h || r in rest;
      if !Applies(h, matches) {
        DecideIsStrictest(rest, matches, current);
      } else if ApplyRule(h, current) != Deny {
        DecideIsStrictest(rest, matches, ApplyRule(h, current));
      }
    }
  }

  /** It raises exactly when some malformed rule stands before every rule that denies. */
  lemma {:induction false} DecideRaisesExactly(rules: seq<Rule>, matches: Matcher, current: Action)
    requires NoDuplicates(rules) && (current == Allow || current == RequireApproval)
    ensures Decide(rules, matches, current).Raised? <==>
            exists r :: r in rules && BreaksBeforeDenials(rules, rules, matches, r)
  {
    if rules == [] {
    } else {
      var h, rest := rules[0], rules[1..];
      if Breaks(h, matches) {
        assert BreaksBeforeDenials(rules, rules, matches, h);
      } else if Denies(h, matches) {
        forall r | r in rules && Breaks(r, matches) ensures !Precedes(rules, r, h) {
          PrecedesMembers(rest, r, h);
        }
      } else {
        DecideRaisesExactly(rest, matches, if Applies(h, matches) then ApplyRule(h, current) else current);
        forall r | r in rest ensures BreaksBeforeDenials(rest, rest, matches, r) <==>
                                     BreaksBeforeDenials(rules, rules, matches, r)
        {
          WithoutHead(rules, matches, r);
        }
      }
    }
  }

  /** r is malformed and stands, in the list, before every rule of t that denies. */
  ghost predicate BreaksBeforeDenials(t: Table, list: seq<Rule>, matches: Matcher, r: Rule) {
    Breaks(r, matches) && forall d :: d in t && Denies(d, matches) ==> Precedes(list, r, d)
  }

  lemma WithoutHead(rules: seq<Rule>, matches: Matcher, r: Rule)
    requires rules != [] && r in rules[1..] && NoDuplicates(rules)
    requires !Breaks(rules[0], matches) && !Denies(rules[0], matches)
    ensures BreaksBeforeDenials(rules[1..], rules[1..], matches, r) <==> BreaksBeforeDenials(rules, rules, matches, r)
  {
    assert forall d :: d in rules <==> d == rules[0] || d in rules[1..];
    assert r != rules[0];
  }

  /** Some enabled rule has a malformed pattern, and is looked at before every rule that denies. */
  ghost predicate Raises(t: Table, matches: Matcher) {
    exists r :: r in t && RaisesAt(t, matches, r)
  }

  ghost predicate RaisesAt(t: Table, matches: Matcher, r: Rule) {
    Breaks(r, matches) && forall d :: d in t && Denies(d, matches) ==> ComesFirst(t, r, d)
  }

  /** `check_tool_call`: match by priority, then let the risk override. */
  function Check(t: Table, matches: Matcher, risk: real): Outcome<Action> {
    match Decide(ByPriority(t), matches, Allow)
    case Raised => Raised
    case Ok(d) => Ok(RiskOverride(risk, d))
  }

  /** The check raises exactly when a malformed rule comes before every denial; otherwise the order of
      the rules and the early stop play no part. */
  lemma CheckExactly(t: Table, matches: Matcher, risk: real)
    requires DistinctIds(t)
    ensures Check(t, matches, risk) ==
            if Raises(t, matches) then Raised else Ok(RiskOverride(risk, Decision(t, matches)))
  {
    var s := ByPriority(t);
    SortedNoDuplicates(t, PriorityOf);
    DecideRaisesExactly(s, matches, Allow);
    forall r ensures r in s && BreaksBeforeDenials(s, s, matches, r) <==> r in t && RaisesAt(t, matches, r) {
      SameOrder(t, matches, r);
    }
    if Decide(s, matches, Allow).Ok? {
      var d := Decide(s, matches, Allow).value;
      DecideIsStrictest(s, matches, Allow);
      SortedIsStrictest(t, matches, d);
      StrictestIsUnique(t, matches, d, Decision(t, matches));
    }
  }

  lemma SameOrder(t: Table, matches: Matcher, r: Rule)
    requires DistinctIds(t)
    ensures var s := ByPriority(t);
            r in s && BreaksBeforeDenials(s, s, matches, r) <==> r in t && RaisesAt(t, matches, r)
  {
    var s := ByPriority(t);
    SortedMembers(t, PriorityOf, r);
    forall d | r in t && Breaks(r, matches) && Denies(d, matches)
      ensures d in s <==> d in t
      ensures d in t ==> (Precedes(s, r, d) <==> ComesFirst(t, r, d))
    {
      SortedMembers(t, PriorityOf, d);
      if d in t {
        SortedOrder(t, r, d);
      }
    }
  }

  lemma SortedIsStrictest(t: Table, matches: Matcher, d: Action)
    requires StrictestFrom(ByPriority(t), matches, Allow, d)
    ensures Strictest(t, matches, d)
  {
    forall r ensures r in ByPriority(t) <==> r in t {
      SortedMembers(t, PriorityOf, r);
    }
  }

  /** An enabled rule whose pattern matches asks for this action. */
  ghost predicate Asked(t: Table, matches: Matcher, a: Action) {
    exists i :: 0 <= i < |t| && t[i].enabled && matches(t[i]) == Matches && t[i].action == a
  }

  /** Rule i is enabled and malformed, and is looked at before every enabled matching denial: at a lower priority
      number, or at the same one and inserted earlier. */
  ghost predicate RaisesFrom(t: Table, matches: Matcher, i: nat)
    requires i < |t|
  {
    && t[i].enabled && matches(t[i]) == Malformed
    && forall j :: 0 <= j < |t| && t[j].enabled && matches(t[j]) == Matches && t[j].action == Deny ==>
         t[i].priority < t[j].priority || (t[i].priority == t[j].priority && i < j)
  }

  lemma {:induction false} PrecedesByIndex(t: Table, i: nat, j: nat)
    requires DistinctIds(t) && i < |t| && j < |t| && i != j
    ensures Precedes(t, t[i], t[j]) <==> i < j
  {
    if i == 0 {
      assert t[j] == t[1..][j - 1];
    } else if j == 0 {
      assert t[0] !in t[1..] && t[0] != t[i];
      PrecedesMembers(t[1..], t[i], t[0]);
    } else {
      PrecedesByIndex(t[1..], i - 1, j - 1);
      assert t[0] != t[i];
    }
  }

  lemma RaisesByIndex(t: Table, matches: Matcher, i: nat)
    requires DistinctIds(t) && i < |t|
    ensures RaisesAt(t, matches, t[i]) <==> RaisesFrom(t, matches, i)
  {
    forall j | 0 <= j < |t| && j != i ensures ComesFirst(t, t[i], t[j]) <==>
                                              t[i].priority < t[j].priority || (t[i].priority == t[j].priority && i < j)
    {
      PrecedesByIndex(t, i, j);
    }
    if RaisesAt(t, matches, t[i]) {
      forall j | 0 <= j < |t| && Denies(t[j], matches) ensures ComesFirst(t, t[i], t[j]) {
        assert t[j] in t;
      }
    }
    if RaisesFrom(t, matches, i) {
      forall d | d in t && Denies(d, matches) ensures ComesFirst(t, t[i], d) {
        var j :| 0 <= j < |t| && t[j] == d;
        assert j != i;
      }
    }
  }

  /** The outcome of a check, from the rules and the risk alone.  It raises exactly when a malformed rule comes
      before every denial.  Otherwise a risk above 0.7 or a denial denies, a risk above 0.4 or a rule asking for
      approval needs one, and all else is allowed. */
  lemma CheckOutcome(t: Table, matches: Matcher, risk: real)
    requires DistinctIds(t)
    ensures Check(t, matches, risk) ==
            if exists i: nat :: i < |t| && RaisesFrom(t, matches, i) then Raised
            else if 10.0 * risk > 7.0 || Asked(t, matches, Deny) then Ok(Deny)
            else if 10.0 * risk > 4.0 || Asked(t, matches, RequireApproval) then Ok(RequireApproval)
            else Ok(Allow)
  {
    CheckExactly(t, matches, risk);
    forall i: nat | i < |t| ensures RaisesAt(t, matches, t[i]) <==> RaisesFrom(t, matches, i) {
      RaisesByIndex(t, matches, i);
    }
    forall a ensures Asked(t, matches, a) <==> exists r :: r in t && Applies(r, matches) && r.action == a {
    }
  }

  // ----- injected policies

  datatype Hit = Hit(docId: string, score: real, critical: bool)

  const MIN_SCORE := 0.3
  const TEMP_PRIORITY := 150

  function TempId(h: Hit): RuleId {
    "rag_temp_" + h.docId
  }

  /** The pattern holds the tool name as it is. */
  function TempPattern(toolName: string): string {
    ".*" + toolName + ".*"
  }

  function TempRule(h: Hit, toolName: string): Rule {
    Rule(TempId(h), if h.critical then RequireApproval else LogOnly, TEMP_PRIORITY, true, TempPattern(toolName))
  }

  predicate HasRule(t: Table, id: RuleId) {
    exists i :: 0 <= i < |t| && t[i].id == id
  }

  /** The table after the first n retrieved policies have been offered. */
  function Injected(t: Table, hits: seq<Hit>, n: nat, toolName: string): Table
    requires n <= |hits|
  {
    if n == 0 then t
    else
      var before, h := Injected(t, hits, n - 1, toolName), hits[n - 1];
      if h.score < MIN_SCORE || HasRule(before, TempId(h)) then before else before + [TempRule(h, toolName)]
  }

  ghost predicate Temporary(r: Rule, toolName: string) {
    r.priority == TEMP_PRIORITY && r.enabled && r.action != Deny && r.pattern == TempPattern(toolName)
  }

  /** Injection appends rules that do not deny, and changes nothing else. */
  lemma {:induction false} InjectionOnlyAdds(t: Table, hits: seq<Hit>, n: nat, toolName: string)
    requires n <= |hits| && DistinctIds(t)
    ensures var t' := Injected(t, hits, n, toolName);
            && DistinctIds(t') && t <= t'
            && forall i :: |t| <= i < |t'| ==> Temporary(t'[i], toolName)
  {
    if n > 0 {
      InjectionOnlyAdds(t, hits, n - 1, toolName);
    }
  }

  /** Each injected rule comes from a hit of sufficient score, and asks for approval exactly if that is critical. */
  ghost predicate FromHit(r: Rule, h: Hit, toolName: string) {
    && 10.0 * h.score >= 3.0
    && r == Rule("rag_temp_" + h.docId, if h.critical then RequireApproval else LogOnly, 150, true,
                 ".*" + toolName + ".*")
  }

  /** Injection adds a rule for each hit of sufficient score whose id is not taken, and no other. */
  lemma {:induction false} InjectedExactly(t: Table, hits: seq<Hit>, n: nat, toolName: string)
    requires n <= |hits| && DistinctIds(t)
    ensures var t' := Injected(t, hits, n, toolName);
            && t <= t'
            && (forall i :: |t| <= i < |t'| ==> exists k :: 0 <= k < n && FromHit(t'[i], hits[k], toolName))
            && (forall k :: 0 <= k < n && 10.0 * hits[k].score >= 3.0 ==> HasRule(t', "rag_temp_" + hits[k].docId))
  {
    if n > 0 {
      InjectedExactly(t, hits, n - 1, toolName);
      var before, t', h := Injected(t, hits, n - 1, toolName), Injected(t, hits, n, toolName), hits[n - 1];
      forall id | HasRule(before, id) ensures HasRule(t', id) {
        var i :| 0 <= i < |before| && before[i].id == id;
        assert t'[i] == before[i];
      }
      if t' != before {
        assert t' == before + [TempRule(h, toolName)] && FromHit(TempRule(h, toolName), h, toolName);
        assert t'[|before|].id == "rag_temp_" + h.docId;
      }
    }
  }

  /** The injected rules. */
  ghost function Added(t: Table, hits: seq<Hit>, toolName: string): seq<Rule>
    requires DistinctIds(t)
  {
    InjectionOnlyAdds(t, hits, |hits|, toolName);
    Injected(t, hits, |hits|, toolName)[|t|..]
  }

  lemma {:induction false} PrecedesInFront(t: Table, more: Table, a: Rule, b: Rule)
    requires b in t && b !in more
    ensures Precedes(t + more, a, b) <==> Precedes(t, a, b)
  {
    assert (t + more)[1..] == t[1..] + more;
    if t[0] != a {
      if b in t[1..] {
        PrecedesInFront(t[1..], more, a, b);
      } else {
        PrecedesMembers(t[1..] + more, a, b);
        PrecedesMembers(t[1..], a, b);
      }
    }
  }

  lemma IdsApart(t: Table, more: Table)
    requires DistinctIds(t + more)
    ensures forall r, x :: r in t && x in more ==> r.id != x.id
  {
    forall i, j | 0 <= i < |t| && 0 <= j < |more| ensures t[i].id != more[j].id {
      assert (t + more)[i].id != (t + more)[|t| + j].id;
    }
  }

  /** No denial, and so none of the rules of the table, gives way to the added rules; an added rule comes
      before a denial only with the lower priority number. */
  lemma AddedComesLast(t: Table, more: Table, matches: Matcher, r: Rule)
    requires DistinctIds(t + more) && forall x :: x in more ==> !Denies(x, matches) && x.priority == TEMP_PRIORITY
    ensures r in t ==> (RaisesAt(t + more, matches, r) <==> RaisesAt(t, matches, r))
    ensures r in more ==>
              (RaisesAt(t + more, matches, r) <==>
                 Breaks(r, matches) && forall d :: d in t && Denies(d, matches) ==> d.priority > TEMP_PRIORITY)
  {
    IdsApart(t, more);
    forall d | d in t && Denies(d, matches)
      ensures Precedes(t + more, r, d) <==> Precedes(t, r, d)
      ensures r in more ==> !Precedes(t, r, d)
    {
      PrecedesInFront(t, more, r, d);
      PrecedesMembers(t, r, d);
    }
  }

  lemma AddedMembers(t: Table, hits: seq<Hit>, toolName: string)
    requires DistinctIds(t)
    ensures Injected(t, hits, |hits|, toolName) == t + Added(t, hits, toolName)
    ensures DistinctIds(t + Added(t, hits, toolName))
    ensures forall r :: r in Added(t, hits, toolName) ==> Temporary(r, toolName)
  {
    InjectionOnlyAdds(t, hits, |hits|, toolName);
  }

  /** An enhanced check raises exactly when the plain one does, or an injected pattern is malformed and
      all denials have a priority number above that of the injected rules. */
  lemma EnhancedRaisesExactly(t: Table, hits: seq<Hit>, toolName: string, matches: Matcher)
    requires DistinctIds(t)
    ensures Raises(Injected(t, hits, |hits|, toolName), matches) <==>
            || Raises(t, matches)
            || ((exists r :: r in Added(t, hits, toolName) && Breaks(r, matches))
                && forall d :: d in t && Denies(d, matches) ==> d.priority > TEMP_PRIORITY)
  {
    var more := Added(t, hits, toolName);
    AddedMembers(t, hits, toolName);
    forall r
      ensures r in t ==> (RaisesAt(t + more, matches, r) <==> RaisesAt(t, matches, r))
      ensures r in more ==>
                (RaisesAt(t + more, matches, r) <==>
                   Breaks(r, matches) && forall d :: d in t && Denies(d, matches) ==> d.priority > TEMP_PRIORITY)
    {
      AddedComesLast(t, more, matches, r);
    }
  }

  /** If it does not raise, an enhanced check is never weaker than the plain one, which does not raise
      either, and denies exactly when the plain one denies. */
  lemma EnhancedIsNoWeaker(t: Table, hits: seq<Hit>, toolName: string, matches: Matcher, risk: real)
    requires DistinctIds(t) && !Raises(Injected(t, hits, |hits|, toolName), matches)
    ensures !Raises(t, matches)
    ensures var plain := RiskOverride(risk, Decision(t, matches));
            var enhanced := RiskOverride(risk, Decision(Injected(t, hits, |hits|, toolName), matches));
            Strictness(plain) <= Strictness(enhanced) && (enhanced == Deny <==> plain == Deny)
  {
    EnhancedRaisesExactly(t, hits, toolName, matches);
    AddedMembers(t, hits, toolName);
    var t' := t + Added(t, hits, toolName);
    assert forall r :: r in t ==> r in t';
    assert forall r :: r in t' && r !in t ==> r in Added(t, hits, toolName);
  }

  /** Exactly when it is stricter: an allowed call needs approval because a critical policy was injected. */
  lemma EnhancedExactly(t: Table, hits: seq<Hit>, toolName: string, matches: Matcher)
    requires DistinctIds(t)
    ensures Decision(Injected(t, hits, |hits|, toolName), matches) != Decision(t, matches) <==>
            && Decision(t, matches) == Allow
            && exists r :: r in Added(t, hits, toolName) && r.action == RequireApproval && Applies(r, matches)
  {
    AddedMembers(t, hits, toolName);
    var t' := t + Added(t, hits, toolName);
    assert forall r :: r in t' <==> r in t || r in Added(t, hits, toolName);
  }

  /** A tool name that is no pattern: the plain check denies the call, the enhanced check raises. */
  lemma EnhancedCanRaise()
    ensures var t := [Rule("deny_all", Deny, 200, true, ".*")];
            var hits := [Hit("d", 0.3, false)];
            var matches := (r: Rule) => if r.pattern == ".*run(.*" then Malformed else Matches;
            && Check(t, matches, 0.0) == Ok(Deny)
            && Check(Injected(t, hits, |hits|, "run("), matches, 0.0) == Raised
  {
    var d := Rule("deny_all", Deny, 200, true, ".*");
    var h := Hit("d", 0.3, false);
    var matches := (r: Rule) => if r.pattern == ".*run(.*" then Malformed else Matches;
    var r := TempRule(h, "run(");
    assert r.pattern == ".*run(.*" && TempId(h) == "rag_temp_d";
    assert Injected([d], [h], 0, "run(") == [d] && [d][0].id != TempId(h);
    assert Injected([d], [h], 1, "run(") == [d, r];
    assert ByPriority([d]) == [d] by {
      assert [d][1..] == [];
    }
    assert [d, r][1..] == [r] && [r][1..] == [] && ByPriority([r]) == [r];
    assert Insert(d, [r], PriorityOf) == [r] + Insert(d, [], PriorityOf);
    assert ByPriority([d, r]) == [r, d];
  }

  // ----- the guard

  function Put(t: Table, r: Rule): Table {
    if t == [] then [r]
    else if t[0].id == r.id then [r] + t[1..]
    else [t[0]] + Put(t[1..], r)
  }

  lemma {:induction false} PutNew(t: Table, r: Rule)
    requires !HasRule(t, r.id)
    ensures Put(t, r) == t + [r]
  {
    if t == [] {
    } else {
      assert t[0].id != r.id;
      forall i | 0 <= i < |t| - 1 ensures t[1..][i].id != r.id {
        assert t[i + 1].id != r.id;
      }
      PutNew(t[1..], r);
    }
  }

  /** A new version of a rule takes the place of the old one. */
  lemma {:induction false} PutReplaces(t: Table, r: Rule)
    requires DistinctIds(t) && HasRule(t, r.id)
    ensures |Put(t, r)| == |t|
    ensures forall i :: 0 <= i < |t| ==> Put(t, r)[i] == if t[i].id == r.id then r else t[i]
  {
    if t[0].id != r.id {
      assert HasRule(t[1..], r.id) by {
        var i :| 0 <= i < |t| && t[i].id == r.id;
        assert t[1..][i - 1].id == r.id;
      }
      PutReplaces(t[1..], r);
    }
  }

  lemma HeadOrTail(t: Table, x: Rule)
    requires t != []
    ensures x in t <==> x == t[0] || x in t[1..]
  {
  }

  lemma {:induction false} PutMembers(t: Table, r: Rule, x: Rule)
    requires DistinctIds(t)
    ensures x in Put(t, r) <==> x == r || (x in t && x.id != r.id)
  {
    if t == [] {
    } else {
      HeadOrTail(t, x);
      HeadOrTail(Put(t, r), x);
      if t[0].id == r.id {
        assert Put(t, r)[1..] == t[1..];
      } else {
        assert Put(t, r)[1..] == Put(t[1..], r);
        PutMembers(t[1..], r, x);
      }
    }
  }

  lemma {:induction false} PutKeeps(t: Table, r: Rule)
    requires DistinctIds(t)
    ensures DistinctIds(Put(t, r))
  {
    if t == [] {
    } else if t[0].id != r.id {
      var rest := Put(t[1..], r);
      PutKeeps(t[1..], r);
      forall j | 0 <= j < |rest| ensures rest[j].id != t[0].id {
        PutMembers(t[1..], r, rest[j]);
      }
    }
  }

  /** The rules whose id is not among the given ones, in their order. */
  function Keep(t: Table, ids: set<RuleId>): (s: Table)
    ensures forall r :: r in s <==> r in t && r.id !in ids
  {
    if t == [] then []
    else
      assert forall x :: x in t <==> x == t[0] || x in t[1..];
      (if t[0].id in ids then [] else [t[0]]) + Keep(t[1..], ids)
  }

  lemma {:induction false} KeepKeeps(t: Table, ids: set<RuleId>)
    requires DistinctIds(t)
    ensures DistinctIds(Keep(t, ids))
  {
    if t == [] {
    } else {
      KeepKeeps(t[1..], ids);
    }
  }

  lemma KeepCons(h: Rule, t: Table, ids: set<RuleId>)
    ensures Keep([h] + t, ids) == (if h.id in ids then [] else [h]) + Keep(t, ids)
  {
    assert ([h] + t)[1..] == t;
  }

  lemma Regroup(a: Table, b: Table, c: Table)
    ensures a + (b + c) == (a + b) + c
  {
  }

  /** What is kept is the table without the given ids, in its order. */
  lemma {:induction false} KeepJoins(a: Table, b: Table, ids: set<RuleId>)
    ensures Keep(a + b, ids) == Keep(a, ids) + Keep(b, ids)
  {
    if a == [] {
      assert a + b == b;
    } else {
      var h, rest := a[0], a[1..];
      assert a == [h] + rest;
      Regroup([h], rest, b);
      KeepCons(h, rest + b, ids);
      KeepCons(h, rest, ids);
      KeepJoins(rest, b, ids);
      Regroup(if h.id in ids then [] else [h], Keep(rest, ids), Keep(b, ids));
    }
  }

  lemma KeepOne(h: Rule, ids: set<RuleId>)
    ensures Keep([h], ids) == if h.id in ids then [] else [h]
  {
    assert [h] + [] == [h];
    KeepCons(h, [], ids);
  }

  lemma {:induction false} KeepTwice(t: Table, a: set<RuleId>, b: set<RuleId>)
    ensures Keep(Keep(t, a), b) == Keep(t, a + b)
  {
    if t == [] {
    } else {
      KeepTwice(t[1..], a, b);
      KeepCons(t[0], Keep(t[1..], a), b);
      assert [] + Keep(t[1..], a) == Keep(t[1..], a);
    }
  }

  lemma {:induction false} KeepNone(t: Table, ids: set<RuleId>)
    requires forall r :: r in t ==> r.id in ids
    ensures Keep(t, ids) == []
  {
    if t == [] {
    } else {
      KeepNone(t[1..], ids);
    }
  }

  lemma {:induction false} KeepFront(t: Table, more: Table, ids: set<RuleId>)
    requires (forall r :: r in t ==> r.id !in ids) && forall r :: r in more ==> r.id in ids
    ensures Keep(t + more, ids) == t
  {
    if t == [] {
      assert t + more == more;
      KeepNone(more, ids);
    } else {
      assert t + more == [t[0]] + (t[1..] + more);
      KeepCons(t[0], t[1..] + more, ids);
      KeepFront(t[1..], more, ids);
    }
  }

  /** The matching loop of `_match_policy_rules`, with its early stop on a denial. */
  method MatchRules(rules: seq<Rule>, matches: Matcher) returns (outcome: Outcome<Action>, matched: seq<RuleId>)
    ensures outcome == Decide(rules, matches, Allow)
    ensures forall id :: id in matched ==> exists r :: r in rules && r.id == id && Applies(r, matches)
    ensures outcome.Ok? && outcome.value != Deny ==>
              forall r :: r in rules && Applies(r, matches) ==> r.id in matched
  {
    var decision := Allow;
    matched := [];
    var i := 0;
    while i < |rules|
      invariant i <= |rules| && decision != Deny
      invariant Decide(rules, matches, Allow) == Decide(rules[i..], matches, decision)
      invariant forall id :: id in matched ==> exists r :: r in rules && r.id == id && Applies(r, matches)
      invariant forall j :: 0 <= j < i && Applies(rules[j], matches) ==> rules[j].id in matched
    {
      assert rules[i..][0] == rules[i] && rules[i..][1..] == rules[i + 1..];
      if Breaks(rules[i], matches) {
        return Raised, matched;
      }
      if Applies(rules[i], matches) {
        matched := matched + [rules[i].id];
        decision := ApplyRule(rules[i], decision);
        if decision == Deny {
          return Ok(Deny), matched;
        }
      }
      i := i + 1;
    }
    outcome := Ok(decision);
  }

  class PolicyGuard {
    var rules: Table

    ghost predicate Valid()
      reads this
    {
      DistinctIds(rules)
    }

    constructor ()
      ensures Valid() && rules == []
    {
      rules := [];
    }

    method AddRule(r: Rule)
      requires Valid()
      modifies this
      ensures Valid() && forall x :: x in rules <==> x == r || (x in old(rules) && x.id != r.id)
      ensures !HasRule(old(rules), r.id) ==> rules == old(rules) + [r]
      ensures HasRule(old(rules), r.id) ==>
                |rules| == |old(rules)| && forall i :: 0 <= i < |rules| ==>
                  rules[i] == if old(rules)[i].id == r.id then r else old(rules)[i]
    {
      PutKeeps(rules, r);
      forall x ensures x in Put(rules, r) <==> x == r || (x in rules && x.id != r.id) {
        PutMembers(rules, r, x);
      }
      if !HasRule(rules, r.id) {
        PutNew(rules, r);
      } else {
        PutReplaces(rules, r);
      }
      rules := Put(rules, r);
    }

    method RemoveRule(id: RuleId) returns (ok: bool)
      requires Valid()
      modifies this
      ensures Valid() && rules == Keep(old(rules), {id}) && ok == HasRule(old(rules), id)
      ensures forall x :: x in rules <==> x in old(rules) && x.id != id
    {
      ok := HasRule(rules, id);
      KeepKeeps(rules, {id});
      rules := Keep(rules, {id});
    }

    /** `check_tool_call` for a call with the given risk. */
    method CheckToolCall(matches: Matcher, risk: real) returns (outcome: Outcome<Action>)
      requires Valid()
      ensures outcome == Check(rules, matches, risk)
      ensures outcome == if Raises(rules, matches) then Raised else Ok(RiskOverride(risk, Decision(rules, matches)))
    {
      CheckExactly(rules, matches, risk);
      var matched;
      outcome, matched := MatchRules(ByPriority(rules), matches);
      if outcome.Ok? {
        outcome := Ok(RiskOverride(risk, outcome.value));
      }
    }

    /** `_inject_rag_policies`. */
    method InjectPolicies(hits: seq<Hit>, toolName: string) returns (tempIds: seq<RuleId>)
      requires Valid()
      modifies this
      ensures Valid() && rules == Injected(old(rules), hits, |hits|, toolName)
      ensures tempIds == IdsOf(Added(old(rules), hits, toolName))
    {
      tempIds := [];
      for n := 0 to |hits|
        invariant Valid() && rules == Injected(old(rules), hits, n, toolName)
        invariant old(rules) <= rules && tempIds == IdsOf(rules[|old(rules)|..])
      {
        if hits[n].score >= MIN_SCORE && !HasRule(rules, TempId(hits[n])) {
          var r := TempRule(hits[n], toolName);
          assert (rules + [r])[|old(rules)|..] == rules[|old(rules)|..] + [r];
          AddRule(r);
          tempIds := tempIds + [r.id];
        }
      }
    }

    /** `_remove_temp_policies`. */
    method RemovePolicies(ids: seq<RuleId>)
      requires Valid()
      modifies this
      ensures Valid() && rules == Keep(old(rules), set id | id in ids)
    {
      KeepFront(rules, [], {});
      assert rules + [] == rules;
      ghost var gone: set<RuleId> := {};
      for n := 0 to |ids|
        invariant Valid() && gone == (set id | id in ids[..n]) && rules == Keep(old(rules), gone)
      {
        KeepTwice(old(rules), gone, {ids[n]});
        var ok := RemoveRule(ids[n]);
        assert ids[..n + 1] == ids[..n] + [ids[n]];
        gone := gone + {ids[n]};
      }
      assert ids[..|ids|] == ids;
    }

    /** `_perform_rag_enhanced_check`: inject, check, clean up.  The rule table is left as found, order
        included, also when the check raises. */
    method CheckWithRag(hits: seq<Hit>, toolName: string, matches: Matcher, risk: real)
      returns (outcome: Outcome<Action>)
      requires Valid()
      modifies this
      ensures Valid() && rules == old(rules)
      ensures outcome == Check(Injected(old(rules), hits, |hits|, toolName), matches, risk)
      ensures outcome.Raised? <==> Raises(Injected(old(rules), hits, |hits|, toolName), matches)
      ensures outcome.Ok? ==>
                var plain := RiskOverride(risk, Decision(old(rules), matches));
                && Check(old(rules), matches, risk) == Ok(plain)
                && Strictness(plain) <= Strictness(outcome.value) && (outcome.value == Deny <==> plain == Deny)
    {
      var tempIds := InjectPolicies(hits, toolName);
      outcome := CheckToolCall(matches, risk);
      if outcome.Ok? {
        EnhancedIsNoWeaker(old(rules), hits, toolName, matches, risk);
        CheckExactly(old(rules), matches, risk);
      }
      Restored(old(rules), hits, toolName);
      RemovePolicies(tempIds);
    }
  }

  function IdsOf(t: Table): (ids: seq<RuleId>)
    ensures |ids| == |t| && forall i :: 0 <= i < |t| ==> ids[i] == t[i].id
  {
    seq(|t|, i requires 0 <= i < |t| => t[i].id)
  }

  /** Removing the injected ids restores the table. */
  lemma Restored(t: Table, hits: seq<Hit>, toolName: string)
    requires DistinctIds(t)
    ensures Keep(Injected(t, hits, |hits|, toolName), set id | id in IdsOf(Added(t, hits, toolName))) == t
  {
    AddedMembers(t, hits, toolName);
    var more := Added(t, hits, toolName);
    IdsApart(t, more);
    var ids := set id | id in IdsOf(more);
    forall r | r in more ensures r.id in ids {
      var j :| 0 <= j < |more| && more[j] == r;
      assert IdsOf(more)[j] == r.id;
    }
    forall r | r in t ensures r.id !in ids {
      IdNotAmong(r.id, more);
    }
    KeepFront(t, more, ids);
  }

  lemma IdNotAmong(id: RuleId, more: Table)
    requires forall r :: r in more ==> r.id != id
    ensures id !in IdsOf(more)
  {
    forall j | 0 <= j < |more| ensures IdsOf(more)[j] != id {
      assert more[j] in more;
    }
  }
}
