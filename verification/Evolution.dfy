/** The genetic loop of evolution/ga_loop.py over the population of evolution/population.py.
    Selection, mutation, crossover, evaluation and the coin tosses are inputs.
 */
module Evolution {
  import opened RealOrder
  import opened Sequences

  datatype Individual = Individual(id: string, fitness: real, gen: nat)

  // ----- sorting by fitness, best first

  ghost predicate Descending(s: seq<Individual>) {
    forall i, j :: 0 <= i < j < |s| ==> s[i].fitness >= s[j].fitness
  }

  function Unfitness(x: Individual): real {
    -x.fitness
  }

  /** `sorted(..., key=fitness, reverse=True)`, which keeps the order of equals. */
  function Sorted(s: seq<Individual>): (r: seq<Individual>)
    ensures |r| == |s|
  {
    SortedBy(s, Unfitness)
  }

  lemma SortedDescending(s: seq<Individual>)
    ensures Descending(Sorted(s))
  {
    SortedAscending(s, Unfitness);
    var r := Sorted(s);
    forall i, j | 0 <= i < j < |r| ensures r[i].fitness >= r[j].fitness {
      assert Unfitness(r[i]) <= Unfitness(r[j]);
    }
  }

  /** f is the best fitness in s. */
  ghost predicate IsBest(s: seq<Individual>, f: real) {
    (exists i :: 0 <= i < |s| && s[i].fitness == f) && forall i :: 0 <= i < |s| ==> s[i].fitness <= f
  }

  lemma HeadIsBest(s: seq<Individual>)
    requires s != []
    ensures IsBest(s, Sorted(s)[0].fitness)
  {
    var r := Sorted(s);
    SortedDescending(s);
    SortedMembers(s, Unfitness, r[0]);
    var k :| 0 <= k < |s| && s[k] == r[0];
    forall i | 0 <= i < |s| ensures s[i].fitness <= r[0].fitness {
      SortedMembers(s, Unfitness, s[i]);
      var j :| 0 <= j < |r| && r[j] == s[i];
    }
  }

  /** The best of a population: `max(individuals, key=fitness)`, as a fitness. */
  function BestFitness(s: seq<Individual>): (f: real)
    requires s != []
    ensures IsBest(s, f)
  {
    if |s| == 1 then s[0].fitness else Max(BestFitness(s[..|s| - 1]), s[|s| - 1].fitness)
  }

  function TotalFitness(s: seq<Individual>): real {
    if s == [] then 0.0 else s[0].fitness + TotalFitness(s[1..])
  }

  /** `avg_fitness`. */
  function Average(s: seq<Individual>): real {
    if s == [] then 0.0 else TotalFitness(s) / |s| as real
  }

  lemma {:induction false} InsertTotal(x: Individual, s: seq<Individual>)
    ensures TotalFitness(Insert(x, s, Unfitness)) == x.fitness + TotalFitness(s)
  {
    if s == [] {
      assert [x][1..] == [];
    } else if x.fitness >= s[0].fitness {
      assert ([x] + s)[1..] == s;
    } else {
      var rest := Insert(x, s[1..], Unfitness);
      InsertTotal(x, s[1..]);
      assert ([s[0]] + rest)[1..] == rest;
    }
  }

  lemma {:induction false} SortedTotal(s: seq<Individual>)
    ensures TotalFitness(Sorted(s)) == TotalFitness(s)
  {
    if s == [] {
    } else {
      SortedTotal(s[1..]);
      InsertTotal(s[0], Sorted(s[1..]));
    }
  }

  lemma SortedAverage(s: seq<Individual>)
    ensures Average(Sorted(s)) == Average(s)
  {
    SortedTotal(s);
  }

  lemma {:induction false} TotalBelow(s: seq<Individual>, f: real)
    requires forall i :: 0 <= i < |s| ==> s[i].fitness <= f
    ensures TotalFitness(s) <= |s| as real * f
  {
    if s == [] {
    } else {
      TotalBelow(s[1..], f);
      assert |s| as real * f == (|s| - 1) as real * f + f;
    }
  }

  /** The average is never above the best. */
  lemma AverageBelowBest(s: seq<Individual>)
    requires s != []
    ensures Average(s) <= BestFitness(s)
  {
    TotalBelow(s, BestFitness(s));
    QuotientBelow(TotalFitness(s), |s| as real, BestFitness(s));
  }

  lemma QuotientBelow(x: real, n: real, f: real)
    requires n > 0.0 && x <= n * f
    ensures x / n <= f
  {
    assert f - x / n == (n * f - x) / n;
  }

  lemma QuotientBack(x: real, y: real)
    requires y > 0.0
    ensures x / y * y == x
  {
  }

  /** The average times the number of individuals is their total, which adds up. */
  lemma AverageExactly(s: seq<Individual>)
    requires s != []
    ensures Average(s) * |s| as real == TotalFitness(s)
  {
    QuotientBack(TotalFitness(s), |s| as real);
  }

  lemma {:induction false} TotalJoins(a: seq<Individual>, b: seq<Individual>)
    ensures TotalFitness(a + b) == TotalFitness(a) + TotalFitness(b)
    ensures |a| == 1 ==> TotalFitness(a) == a[0].fitness
  {
    if a == [] {
      assert a + b == b;
    } else {
      assert (a + b)[1..] == a[1..] + b;
      TotalJoins(a[1..], b);
    }
  }

  lemma BestUnique(s: seq<Individual>, f: real, g: real)
    requires IsBest(s, f) && IsBest(s, g)
    ensures f == g
  {
  }

  // ----- one generation

  function Take(s: seq<Individual>, n: nat): seq<Individual> {
    if n <= |s| then s[..n] else s
  }

  function Least(x: nat, y: nat): nat {
    if x < y then x else y
  }

  function Elites(s: seq<Individual>, eliteCount: nat): (r: seq<Individual>)
    ensures |r| == Least(eliteCount, |s|)
  {
    Take(Sorted(s), eliteCount)
  }

  function NonElites(s: seq<Individual>, eliteCount: nat): seq<Individual> {
    if eliteCount <= |s| then Sorted(s)[eliteCount..] else []
  }

  /** chosen are the fittest of s, the fittest first, and others the rest. */
  ghost predicate Fittest(s: seq<Individual>, chosen: seq<Individual>, others: seq<Individual>) {
    && multiset(chosen) + multiset(others) == multiset(s) && Descending(chosen)
    && forall x, y :: x in chosen && y in others ==> x.fitness >= y.fitness
  }

  lemma CutDescending(r: seq<Individual>, front: seq<Individual>, back: seq<Individual>)
    requires Descending(r) && r == front + back
    ensures Fittest(r, front, back)
  {
    forall i, j | 0 <= i < j < |front| ensures front[i].fitness >= front[j].fitness {
      assert front[i] == r[i] && front[j] == r[j];
    }
    forall x, y | x in front && y in back ensures x.fitness >= y.fitness {
      var i :| 0 <= i < |front| && front[i] == x;
      var j :| 0 <= j < |back| && back[j] == y;
      assert r[i] == x && r[|front| + j] == y;
    }
  }

  lemma CutIsFittest(s: seq<Individual>, n: nat)
    requires n <= |s|
    ensures Fittest(s, Sorted(s)[..n], Sorted(s)[n..])
  {
    SortedDescending(s);
    SortedPermutes(s, Unfitness);
    CutDescending(Sorted(s), Sorted(s)[..n], Sorted(s)[n..]);
  }

  /** The elites are the fittest, as many as there are to be, and the others are all the rest. */
  lemma ElitesExactly(s: seq<Individual>, eliteCount: nat)
    ensures |Elites(s, eliteCount)| == Least(eliteCount, |s|)
    ensures Fittest(s, Elites(s, eliteCount), NonElites(s, eliteCount))
  {
    CutIsFittest(s, Least(eliteCount, |s|));
    if eliteCount > |s| {
      assert Sorted(s)[..|s|] == Sorted(s) && Sorted(s)[|s|..] == [];
    }
  }

  lemma TakeKeepsBest(s: seq<Individual>, n: nat, f: real)
    requires n >= 1 && IsBest(s, f) && Descending(s)
    ensures IsBest(Take(s, n), f) && Take(s, n) != []
  {
    var i :| 0 <= i < |s| && s[i].fitness == f;
    assert s[0].fitness >= s[i].fitness;
    assert Take(s, n)[0] == s[0];
  }

  lemma SortKeepsBest(s: seq<Individual>, f: real)
    requires IsBest(s, f)
    ensures IsBest(Sorted(s), f)
  {
    SortedDescending(s);
    HeadIsBest(s);
    BestUnique(s, f, Sorted(s)[0].fitness);
  }

  lemma PoolBest(a: seq<Individual>, b: seq<Individual>, f: real)
    requires IsBest(a, f)
    ensures IsBest(a + b, if b == [] then f else Max(f, BestFitness(b)))
  {
    var i :| 0 <= i < |a| && a[i].fitness == f;
    assert (a + b)[i].fitness == f;
    if b != [] {
      var j :| 0 <= j < |b| && b[j].fitness == BestFitness(b);
      assert (a + b)[|a| + j].fitness == BestFitness(b);
    }
  }

  // ----- offspring

  /** The operators of the loop.  What they return may differ from generation to generation and, for the
      children, from place to place, also for a parent that was selected twice. */
  datatype Operators = Operators(
    select: (nat, seq<Individual>, int) -> seq<Individual>,
    crosses: (nat, nat) -> bool,
    cross: (nat, nat, Individual, Individual) -> Individual,
    single: (nat, nat, Individual) -> Individual)

  /** The child made at parent `i`, and the parent to go on with: a crossing uses up two neighbours. */
  function ChildAt(gen: nat, parents: seq<Individual>, ops: Operators, i: nat): (r: (Individual, nat))
    requires i < |parents|
    ensures i < r.1 <= |parents| && r.1 <= i + 2
  {
    if ops.crosses(gen, i) && i + 1 < |parents| then
      (ops.cross(gen, i, parents[i], parents[i + 1]), i + 2)
    else
      (ops.single(gen, i, parents[i]), i + 1)
  }

  /** The children of the parents from `i` on: between half of these, rounded up, and all of them. */
  function Offspring(gen: nat, parents: seq<Individual>, ops: Operators, i: nat): (r: seq<Individual>)
    requires i <= |parents|
    ensures |r| <= |parents| - i <= 2 * |r|
    decreases |parents| - i
  {
    if i == |parents| then [] else
    var (child, next) := ChildAt(gen, parents, ops, i);
    [child] + Offspring(gen, parents, ops, next)
  }

  /** The places from i on at which a child is made: behind a crossing that finds a neighbour the next parent is
      passed over. */
  ghost predicate Placed(gen: nat, n: nat, ops: Operators, i: nat, places: seq<nat>) {
    && (places == [] <==> i >= n) && (places != [] ==> places[0] == i && places[|places| - 1] < n)
    && (forall k :: 0 <= k < |places| - 1 ==>
          places[k + 1] == places[k] + if ops.crosses(gen, places[k]) && places[k] + 1 < n then 2 else 1)
    && (places != [] ==>
          var last := places[|places| - 1]; last + 1 == n || (last + 2 == n && ops.crosses(gen, last)))
  }

  ghost predicate MadeOf(gen: nat, parents: seq<Individual>, ops: Operators, p: nat, child: Individual)
    requires p < |parents|
  {
    child == if p + 1 < |parents| && ops.crosses(gen, p) then ops.cross(gen, p, parents[p], parents[p + 1])
             else ops.single(gen, p, parents[p])
  }

  /** The children are made, in order, at these places, of the parents that stand there. */
  lemma {:induction false} OffspringExactly(gen: nat, parents: seq<Individual>, ops: Operators, i: nat)
    returns (places: seq<nat>)
    requires i <= |parents|
    ensures Placed(gen, |parents|, ops, i, places) && |Offspring(gen, parents, ops, i)| == |places|
    ensures forall k :: 0 <= k < |places| ==>
              places[k] < |parents| && MadeOf(gen, parents, ops, places[k], Offspring(gen, parents, ops, i)[k])
    decreases |parents| - i
  {
    if i == |parents| {
      places := [];
    } else {
      var (child, next) := ChildAt(gen, parents, ops, i);
      var rest := OffspringExactly(gen, parents, ops, next);
      places := [i] + rest;
      assert Offspring(gen, parents, ops, i) == [child] + Offspring(gen, parents, ops, next);
    }
  }

  /** `_produce_offspring`. */
  method ProduceOffspring(gen: nat, parents: seq<Individual>, ops: Operators) returns (offspring: seq<Individual>)
    ensures offspring == Offspring(gen, parents, ops, 0)
  {
    offspring := [];
    var i := 0;
    while |offspring| < |parents| && i < |parents|
      invariant |offspring| <= i <= |parents|
      invariant offspring + Offspring(gen, parents, ops, i) == Offspring(gen, parents, ops, 0)
      decreases |parents| - i
    {
      var child;
      ghost var was := i;
      if ops.crosses(gen, i) && i + 1 < |parents| {
        child := ops.cross(gen, i, parents[i], parents[i + 1]);
        i := i + 2;
      } else {
        child := ops.single(gen, i, parents[i]);
        i := i + 1;
      }
      Shift(offspring, child, Offspring(gen, parents, ops, i));
      assert (child, i) == ChildAt(gen, parents, ops, was);
      offspring := offspring + [child];
    }
  }

  lemma Shift(a: seq<Individual>, x: Individual, b: seq<Individual>)
    ensures a + [x] + b == a + ([x] + b)
  {
  }

  // ----- what is left of a pool

  function Aged(xs: seq<Individual>, gen: nat): (r: seq<Individual>)
    ensures |r| == |xs| && forall i :: 0 <= i < |xs| ==> r[i] == xs[i].(gen := gen)
  {
    seq(|xs|, i requires 0 <= i < |xs| => xs[i].(gen := gen))
  }

  /** What a generation leaves of its pool: the best `size`, sorted. */
  function Survivors(pool: seq<Individual>, size: nat, gen: nat): (r: seq<Individual>)
    ensures |r| == Least(size, |pool|)
  {
    Sorted(Take(Sorted(Aged(pool, gen)), size))
  }

  /** The survivors are the fittest of the pool, all of the present generation. */
  lemma SurvivorsExactly(pool: seq<Individual>, size: nat, gen: nat) returns (dropped: seq<Individual>)
    ensures |Survivors(pool, size, gen)| == Least(size, |pool|)
    ensures Fittest(Aged(pool, gen), Survivors(pool, size, gen), dropped)
  {
    var aged := Aged(pool, gen);
    var n := Least(size, |pool|);
    CutIsFittest(aged, n);
    var kept := Sorted(aged)[..n];
    assert Take(Sorted(aged), size) == kept;
    dropped := Sorted(aged)[n..];
    SortedPermutes(kept, Unfitness);
    SortedDescending(kept);
    forall x | x in Sorted(kept) ensures x in kept {
      SortedMembers(kept, Unfitness, x);
    }
  }

  lemma {:induction false} AgedBest(xs: seq<Individual>, gen: nat)
    requires xs != []
    ensures BestFitness(Aged(xs, gen)) == BestFitness(xs)
  {
  }

  /** The elites hold the best. */
  lemma ElitesBest(before: seq<Individual>, eliteCount: nat)
    requires before != [] && eliteCount >= 1
    ensures Elites(before, eliteCount) != [] && BestFitness(Elites(before, eliteCount)) == BestFitness(before)
  {
    var f := BestFitness(before);
    SortKeepsBest(before, f);
    SortedDescending(before);
    TakeKeepsBest(Sorted(before), eliteCount, f);
    BestUnique(Elites(before, eliteCount), f, BestFitness(Elites(before, eliteCount)));
  }

  /** Ageing, trimming and sorting keep the best. */
  lemma SurvivorsBest(pool: seq<Individual>, size: nat, age: nat)
    requires pool != [] && size >= 1
    ensures var trimmed := Take(Sorted(Aged(pool, age)), size);
            trimmed != [] && Survivors(pool, size, age) != []
            && BestFitness(trimmed) == BestFitness(pool) == BestFitness(Survivors(pool, size, age))
  {
    var g := BestFitness(pool);
    AgedBest(pool, age);
    var aged := Aged(pool, age);
    SortKeepsBest(aged, g);
    SortedDescending(aged);
    TakeKeepsBest(Sorted(aged), size, g);
    var trimmed := Take(Sorted(aged), size);
    BestUnique(trimmed, g, BestFitness(trimmed));
    SortKeepsBest(trimmed, g);
    BestUnique(Sorted(trimmed), g, BestFitness(Sorted(trimmed)));
  }

  /** The best fitness of the survivors: exactly the larger of the best before and the best among the
      offspring. */
  lemma EvolvedBest(before: seq<Individual>, offspring: seq<Individual>, size: nat, eliteCount: nat, age: nat)
    requires before != [] && size >= 1 && eliteCount >= 1
    ensures var after := Survivors(Elites(before, eliteCount) + offspring, size, age);
            after != [] && BestFitness(after) ==
              if offspring == [] then BestFitness(before) else Max(BestFitness(before), BestFitness(offspring))
  {
    var elites := Elites(before, eliteCount);
    var f := BestFitness(before);
    ElitesBest(before, eliteCount);
    PoolBest(elites, offspring, f);
    var best := if offspring == [] then f else Max(f, BestFitness(offspring));
    BestUnique(elites + offspring, best, BestFitness(elites + offspring));
    SurvivorsBest(elites + offspring, size, age);
  }

  // ----- one pass

  /** A selector that returns as many parents as asked for, if there is anyone to select. */
  ghost predicate FullSelection(ops: Operators) {
    forall g: nat, s, n :: |ops.select(g, s, n)| == if s == [] || n < 0 then 0 else n
  }

  /** The elites and half of the rest, rounded up, up to the full size. */
  ghost predicate WithinBounds(n: nat, size: nat, eliteCount: nat) {
    eliteCount <= size && eliteCount + (size - eliteCount + 1) / 2 <= n <= size
  }

  function Parents(gen: nat, before: seq<Individual>, ops: Operators, size: nat, eliteCount: nat): seq<Individual> {
    ops.select(gen, NonElites(before, eliteCount), size - eliteCount)
  }

  /** The population one pass makes of `before`. */
  function NextGeneration(gen: nat, before: seq<Individual>, ops: Operators, size: nat, eliteCount: nat)
    : seq<Individual>
  {
    var parents := Parents(gen, before, ops, size, eliteCount);
    Survivors(Elites(before, eliteCount) + Offspring(gen, parents, ops, 0), size, gen)
  }

  ghost predicate Improves(before: seq<Individual>, after: seq<Individual>)
    requires before != []
  {
    after != [] && BestFitness(after) >= BestFitness(before)
  }

  /** Every pass keeps the best, whatever the operators return. */
  lemma PassKeeps(gen: nat, before: seq<Individual>, ops: Operators, size: nat, eliteCount: nat)
    requires before != [] && size >= 1 && eliteCount >= 1
    ensures Improves(before, NextGeneration(gen, before, ops, size, eliteCount))
  {
    var offspring := Offspring(gen, Parents(gen, before, ops, size, eliteCount), ops, 0);
    EvolvedBest(before, offspring, size, eliteCount, gen);
  }

  // ----- the size of the population

  function HalfUp(x: nat): nat {
    (x + 1) / 2
  }

  /** The next generation is what is left of the pool of the elites and the offspring of parents selected among
      the others, as many as there are places left. */
  lemma PassPool(gen: nat, before: seq<Individual>, ops: Operators, size: nat, eliteCount: nat, pool: seq<Individual>)
    requires pool == Elites(before, eliteCount)
                       + Offspring(gen, ops.select(gen, NonElites(before, eliteCount), size - eliteCount), ops, 0)
    ensures NextGeneration(gen, before, ops, size, eliteCount) == Survivors(pool, size, gen)
  {
  }

  lemma PoolSize(before: seq<Individual>, eliteCount: nat, offspring: seq<Individual>, pool: seq<Individual>)
    requires pool == Elites(before, eliteCount) + offspring
    ensures |pool| == Least(eliteCount, |before|) + |offspring|
  {
  }

  lemma ChildrenCount(gen: nat, parents: seq<Individual>, ops: Operators)
    ensures HalfUp(|parents|) <= |Offspring(gen, parents, ops, 0)| <= |parents|
  {
  }

  /** The size after a pass, whatever the operators return, and the number of children for the number of
      parents. */
  lemma PassSize(gen: nat, before: seq<Individual>, parents: seq<Individual>, ops: Operators, size: nat,
                 eliteCount: nat)
    requires parents == Parents(gen, before, ops, size, eliteCount)
    ensures |NextGeneration(gen, before, ops, size, eliteCount)| ==
            Least(size, Least(eliteCount, |before|) + |Offspring(gen, parents, ops, 0)|)
    ensures HalfUp(|parents|) <= |Offspring(gen, parents, ops, 0)| <= |parents|
  {
    var offspring := Offspring(gen, parents, ops, 0);
    var pool := Elites(before, eliteCount) + offspring;
    ChildrenCount(gen, parents, ops);
    PoolSize(before, eliteCount, offspring, pool);
    PassPool(gen, before, ops, size, eliteCount, pool);
  }

  /** So a pass stays within the bounds if and only if the elites there are and the children are enough. */
  lemma SizeBounds(n: nat, before: nat, children: nat, size: nat, eliteCount: nat)
    requires n == Least(size, Least(eliteCount, before) + children)
    ensures WithinBounds(n, size, eliteCount) <==>
            eliteCount <= size && Least(eliteCount, before) + children >= eliteCount + HalfUp(size - eliteCount)
  {
  }

  lemma {:induction false} AllCross(gen: nat, parents: seq<Individual>, ops: Operators, i: nat)
    requires i <= |parents| && forall k: nat :: ops.crosses(gen, k)
    ensures |Offspring(gen, parents, ops, i)| == HalfUp(|parents| - i)
    decreases |parents| - i
  {
    if i == |parents| {
    } else {
      AllCross(gen, parents, ops, ChildAt(gen, parents, ops, i).1);
    }
  }

  /** The bounds hold after a pass with these tosses of the coin. */
  ghost predicate BoundsFor(gen: nat, before: seq<Individual>, ops: Operators, size: nat, eliteCount: nat,
                            crosses: (nat, nat) -> bool)
  {
    WithinBounds(|NextGeneration(gen, before, ops.(crosses := crosses), size, eliteCount)|, size, eliteCount)
  }

  /** The bounds hold for every toss of the coin if and only if the elites there are and half of the
      parents, rounded up, are enough: a condition on what the selector returned. */
  lemma SizeGuaranteedExactly(gen: nat, before: seq<Individual>, ops: Operators, size: nat, eliteCount: nat)
    requires eliteCount <= size
    ensures (forall crosses :: BoundsFor(gen, before, ops, size, eliteCount, crosses)) <==>
            Least(eliteCount, |before|) + HalfUp(|Parents(gen, before, ops, size, eliteCount)|)
              >= eliteCount + HalfUp(size - eliteCount)
  {
    var parents := Parents(gen, before, ops, size, eliteCount);
    forall crosses
      ensures Least(eliteCount, |before|) + HalfUp(|parents|) >= eliteCount + HalfUp(size - eliteCount) ==>
                BoundsFor(gen, before, ops, size, eliteCount, crosses)
    {
      BoundsHold(gen, before, ops, ops.(crosses := crosses), size, eliteCount);
    }
    var always := (g: nat, i: nat) => true;
    WorstToss(gen, before, ops, ops.(crosses := always), size, eliteCount);
    assert BoundsFor(gen, before, ops, size, eliteCount, always) ==>
             Least(eliteCount, |before|) + HalfUp(|parents|) >= eliteCount + HalfUp(size - eliteCount);
  }

  lemma BoundsHold(gen: nat, before: seq<Individual>, ops: Operators, ops': Operators, size: nat, eliteCount: nat)
    requires eliteCount <= size && ops'.select == ops.select
    ensures var parents := Parents(gen, before, ops, size, eliteCount);
            Least(eliteCount, |before|) + HalfUp(|parents|) >= eliteCount + HalfUp(size - eliteCount) ==>
              WithinBounds(|NextGeneration(gen, before, ops', size, eliteCount)|, size, eliteCount)
  {
    var parents := Parents(gen, before, ops', size, eliteCount);
    PassSize(gen, before, parents, ops', size, eliteCount);
    SizeBounds(|NextGeneration(gen, before, ops', size, eliteCount)|, |before|,
               |Offspring(gen, parents, ops', 0)|, size, eliteCount);
  }

  lemma WorstToss(gen: nat, before: seq<Individual>, ops: Operators, ops': Operators, size: nat, eliteCount: nat)
    requires eliteCount <= size && ops'.select == ops.select && forall k: nat :: ops'.crosses(gen, k)
    ensures var parents := Parents(gen, before, ops, size, eliteCount);
            WithinBounds(|NextGeneration(gen, before, ops', size, eliteCount)|, size, eliteCount) ==>
              Least(eliteCount, |before|) + HalfUp(|parents|) >= eliteCount + HalfUp(size - eliteCount)
  {
    var parents := Parents(gen, before, ops', size, eliteCount);
    PassSize(gen, before, parents, ops', size, eliteCount);
    AllCross(gen, parents, ops', 0);
    SizeBounds(|NextGeneration(gen, before, ops', size, eliteCount)|, |before|,
               |Offspring(gen, parents, ops', 0)|, size, eliteCount);
  }

  lemma FullParents(gen: nat, before: seq<Individual>, ops: Operators, size: nat, eliteCount: nat)
    requires FullSelection(ops) && eliteCount < |before| && eliteCount < size
    ensures |Parents(gen, before, ops, size, eliteCount)| == size - eliteCount
  {
    assert NonElites(before, eliteCount) != [];
  }

  /** For a selector that returns as many as asked for the condition holds. */
  lemma FullSelectionSuffices(gen: nat, before: seq<Individual>, ops: Operators, size: nat, eliteCount: nat)
    requires FullSelection(ops) && eliteCount < |before| && eliteCount < size
    ensures WithinBounds(|NextGeneration(gen, before, ops, size, eliteCount)|, size, eliteCount)
  {
    FullParents(gen, before, ops, size, eliteCount);
    BoundsHold(gen, before, ops, ops, size, eliteCount);
  }

  /** A selector that returns no one twice, as roulette selection without any fitness does, lets no
      population grow. */
  lemma ScarceSelection(gen: nat, before: seq<Individual>, ops: Operators, size: nat, eliteCount: nat)
    requires |Parents(gen, before, ops, size, eliteCount)| <= |NonElites(before, eliteCount)|
    ensures |NextGeneration(gen, before, ops, size, eliteCount)| <= |before|
  {
    PassSize(gen, before, Parents(gen, before, ops, size, eliteCount), ops, size, eliteCount);
  }

  /** So three individuals of a population for twenty stay below the bound. */
  lemma RouletteCanFail(gen: nat, before: seq<Individual>, ops: Operators)
    requires |before| == 3 && |Parents(gen, before, ops, 20, 2)| <= |NonElites(before, 2)|
    ensures !WithinBounds(|NextGeneration(gen, before, ops, 20, 2)|, 20, 2)
  {
    ScarceSelection(gen, before, ops, 20, 2);
  }

  // ----- the population

  class Population {
    const size: nat
    const eliteCount: nat
    var individuals: seq<Individual>
    var generation: nat
    var bestFitnessHistory: seq<real>
    var avgFitnessHistory: seq<real>

    constructor (size: nat, eliteCount: nat)
      ensures this.size == size && this.eliteCount == eliteCount
      ensures individuals == [] && generation == 0 && bestFitnessHistory == [] && avgFitnessHistory == []
    {
      this.size, this.eliteCount := size, eliteCount;
      individuals, generation, bestFitnessHistory, avgFitnessHistory := [], 0, [], [];
    }

    method Add(x: Individual)
      modifies this`individuals
      ensures individuals == old(individuals) + [x.(gen := generation)]
    {
      individuals := individuals + [x.(gen := generation)];
    }

    method AddMany(xs: seq<Individual>)
      modifies this`individuals
      ensures individuals == old(individuals) + Aged(xs, generation)
    {
      for i := 0 to |xs|
        invariant individuals == old(individuals) + Aged(xs[..i], generation)
      {
        assert Aged(xs[..i + 1], generation) == Aged(xs[..i], generation) + [xs[i].(gen := generation)];
        Add(xs[i]);
      }
      assert xs[..|xs|] == xs;
    }

    method Trim()
      modifies this`individuals
      ensures individuals == Take(Sorted(old(individuals)), size)
    {
      individuals := Sorted(individuals);
      if |individuals| > size {
        individuals := individuals[..size];
      }
    }

    /** Sort in place. */
    method SortByFitness()
      modifies this`individuals
      ensures individuals == Sorted(old(individuals))
    {
      individuals := Sorted(individuals);
    }

    /** Clear, refill and trim. */
    method Refill(xs: seq<Individual>)
      modifies this`individuals
      ensures individuals == Take(Sorted(Aged(xs, generation)), size)
    {
      individuals := [];
      AddMany(xs);
      assert individuals == Aged(xs, generation);
      Trim();
    }

    method NextGeneration()
      modifies this`generation, this`bestFitnessHistory, this`avgFitnessHistory
      ensures generation == old(generation) + 1
      ensures avgFitnessHistory == old(avgFitnessHistory) + [Average(individuals)]
      ensures bestFitnessHistory == old(bestFitnessHistory) +
                if individuals == [] then [] else [BestFitness(individuals)]
    {
      generation := generation + 1;
      if |individuals| != 0 {
        bestFitnessHistory := bestFitnessHistory + [BestFitness(individuals)];
      }
      avgFitnessHistory := avgFitnessHistory + [Average(individuals)];
    }

    /** The tail of a pass of `run`: refill with `xs`, count the generation, sort. */
    method Replace(xs: seq<Individual>)
      requires size >= 1 && xs != []
      modifies this
      ensures individuals == Survivors(xs, size, old(generation)) && generation == old(generation) + 1
      ensures individuals != [] && bestFitnessHistory == old(bestFitnessHistory) + [BestFitness(individuals)]
      ensures avgFitnessHistory == old(avgFitnessHistory) + [Average(individuals)]
    {
      SurvivorsBest(xs, size, generation);
      SortedAverage(Take(Sorted(Aged(xs, generation)), size));
      Refill(xs);
      NextGeneration();
      SortByFitness();
    }
  }

  // ----- the loop

  ghost predicate NonDecreasing(h: seq<real>) {
    forall i, j :: 0 <= i <= j < |h| ==> h[i] <= h[j]
  }

  /** A history followed by the best of today never falls. */
  ghost predicate Climbs(history: seq<real>, best: real) {
    NonDecreasing(history + [best])
  }

  lemma ClimbOn(history: seq<real>, f: real, g: real)
    requires Climbs(history, f) && f <= g
    ensures Climbs(history + [g], g)
  {
    var h := history + [f];
    assert forall i :: 0 <= i < |history| ==> history[i] == h[i];
    assert forall i :: 0 <= i < |history| ==> history[i] <= h[|history|];
  }

  class GaLoop {
    const population: Population
    const ops: Operators

    constructor (population: Population, ops: Operators)
      ensures this.population == population && this.ops == ops
    {
      this.population, this.ops := population, ops;
    }

    /** One pass of the loop in `run`. */
    method Evolve()
      requires population.size >= 1 && population.eliteCount >= 1 && population.individuals != []
      modifies population
      ensures population.individuals ==
                NextGeneration(old(population.generation), old(population.individuals), ops, population.size,
                               population.eliteCount)
      ensures population.individuals != [] && population.generation == old(population.generation) + 1
      ensures population.bestFitnessHistory ==
                old(population.bestFitnessHistory) + [BestFitness(population.individuals)]
      ensures population.avgFitnessHistory == old(population.avgFitnessHistory) + [Average(population.individuals)]
    {
      var p := population;
      var parents := Parents(p.generation, p.individuals, ops, p.size, p.eliteCount);
      var offspring := ProduceOffspring(p.generation, parents, ops);
      ElitesBest(p.individuals, p.eliteCount);
      p.Replace(Elites(p.individuals, p.eliteCount) + offspring);
    }

    /** The same pass, seen through what it does to the best fitness and the size. */
    method Pass()
      requires population.size >= 1 && population.eliteCount >= 1 && population.individuals != []
      modifies population
      ensures Improves(old(population.individuals), population.individuals)
      ensures population.individuals != [] ==>
                population.bestFitnessHistory ==
                  old(population.bestFitnessHistory) + [BestFitness(population.individuals)]
      ensures Least(population.size, Least(population.eliteCount, |old(population.individuals)|))
           <= |population.individuals| <= population.size
      ensures FullSelection(ops) && population.eliteCount < |old(population.individuals)|
                && population.eliteCount < population.size ==>
                WithinBounds(|population.individuals|, population.size, population.eliteCount)
    {
      ghost var gen, before := population.generation, population.individuals;
      PassKeeps(gen, before, ops, population.size, population.eliteCount);
      PassSize(gen, before, Parents(gen, before, ops, population.size, population.eliteCount), ops,
               population.size, population.eliteCount);
      if FullSelection(ops) && population.eliteCount < |before| && population.eliteCount < population.size {
        FullSelectionSuffices(gen, before, ops, population.size, population.eliteCount);
      }
      Evolve();
    }

    /** `run`, also on a population that has run before: however the operators behave, with at least one elite
        the best fitness never falls; the run ends before its time exactly at the target; the population neither
        outgrows its size nor loses its elites, and a selector that always returns as many as asked for keeps
        it above the middle between the two. */
    method Run(maxGenerations: nat, target: real) returns (best: real)
      requires population.size >= 1 && population.eliteCount >= 1 && population.individuals != []
      modifies population
      ensures population.individuals != [] && best == BestFitness(population.individuals)
      ensures old(population.bestFitnessHistory) <= population.bestFitnessHistory
      ensures Climbs(old(population.bestFitnessHistory), BestFitness(old(population.individuals))) ==>
                Climbs(population.bestFitnessHistory, best)
      ensures var added := population.bestFitnessHistory[|old(population.bestFitnessHistory)|..];
              && Climbs([BestFitness(old(population.individuals))] + added, best)
              && (added == [] <==> maxGenerations == 0) && |added| <= maxGenerations
              && (added != [] ==> added[|added| - 1] == best)
              && (forall i :: 0 <= i < |added| - 1 ==> added[i] < target)
              && (|added| < maxGenerations ==> best >= target)
      ensures maxGenerations == 0 ==> population.individuals == old(population.individuals)
      ensures maxGenerations > 0 ==>
                Least(population.size, Least(population.eliteCount, |old(population.individuals)|))
                  <= |population.individuals| <= population.size
      ensures FullSelection(ops) && population.eliteCount < |old(population.individuals)|
                && population.eliteCount < population.size && maxGenerations > 0 ==>
                WithinBounds(|population.individuals|, population.size, population.eliteCount)
    {
      var p := population;
      ghost var earlier, first := p.bestFitnessHistory, BestFitness(p.individuals);
      ghost var added: seq<real> := [];
      best := BestFitness(p.individuals);
      var gen, done := 0, false;
      while gen < maxGenerations && !done
        invariant p.individuals != [] && best == BestFitness(p.individuals)
        invariant p.bestFitnessHistory == earlier + added && |added| == gen <= maxGenerations
        invariant Climbs(earlier, first) ==> Climbs(earlier + added, best)
        invariant Climbs([first] + added, best)
        invariant gen == 0 ==> !done && p.individuals == old(p.individuals)
        invariant gen > 0 ==> added[gen - 1] == best && (done <==> best >= target)
        invariant forall i :: 0 <= i < gen - 1 ==> added[i] < target
        invariant gen > 0 ==> Least(p.size, Least(p.eliteCount, |old(p.individuals)|)) <= |p.individuals| <= p.size
        invariant gen > 0 && FullSelection(ops) && p.eliteCount < |old(p.individuals)| && p.eliteCount < p.size ==>
                    WithinBounds(|p.individuals|, p.size, p.eliteCount)
        decreases maxGenerations - gen
      {
        Pass();
        ghost var now := BestFitness(p.individuals);
        if Climbs(earlier, first) {
          ClimbOn(earlier + added, best, now);
        }
        ClimbOn([first] + added, best, now);
        assert earlier + added + [now] == earlier + (added + [now]);
        assert [first] + added + [now] == [first] + (added + [now]);
        added := added + [now];
        best := BestFitness(p.individuals);
        gen := gen + 1;
        done := best >= target;
      }
    }
  }
}
