/** The weight change rate of evolution/evolution_validation.py, over the reals, and why it is a
    distance: for all weight maps, with any keys and either sign, it obeys the triangle inequality.
 */
module DriftMetric {
  import opened RealOrder

  type Weights = map<string, real>

  /** A weight that is absent counts as zero. */
  function At(w: Weights, key: string): real {
    if key in w then w[key] else 0.0
  }

  function Difference(a: Weights, b: Weights, key: string): real {
    Abs(At(b, key) - At(a, key))
  }

  function Larger(a: Weights, b: Weights, key: string): real {
    Max(Abs(At(a, key)), Abs(At(b, key)))
  }

  ghost function SumDifference(a: Weights, b: Weights, keys: set<string>): real {
    if keys == {} then 0.0
    else
      var key :| key in keys;
      Difference(a, b, key) + SumDifference(a, b, keys - {key})
  }

  ghost function SumLarger(a: Weights, b: Weights, keys: set<string>): real {
    if keys == {} then 0.0
    else
      var key :| key in keys;
      Larger(a, b, key) + SumLarger(a, b, keys - {key})
  }

  /** The rate, as a quotient of two sums over all keys. */
  ghost function Rate(a: Weights, b: Weights): (r: real) {
    RateOf(SumDifference(a, b, a.Keys + b.Keys), SumLarger(a, b, a.Keys + b.Keys))
  }

  function RateOf(difference: real, weight: real): real {
    if weight == 0.0 then 0.0 else Min(1.0, difference / weight)
  }

  // ----- sums do not depend on the order of the keys

  lemma {:induction false} SumTakeOut(a: Weights, b: Weights, keys: set<string>, x: string)
    requires x in keys
    ensures SumDifference(a, b, keys) == Difference(a, b, x) + SumDifference(a, b, keys - {x})
    decreases keys
  {
    var key :| key in keys && SumDifference(a, b, keys) == Difference(a, b, key) + SumDifference(a, b, keys - {key});
    if key == x {
    } else {
      SumTakeOut(a, b, keys - {key}, x);
      SumTakeOut(a, b, keys - {x}, key);
      assert keys - {key} - {x} == keys - {x} - {key};
    }
  }

  lemma {:induction false} LargerTakeOut(a: Weights, b: Weights, keys: set<string>, x: string)
    requires x in keys
    ensures SumLarger(a, b, keys) == Larger(a, b, x) + SumLarger(a, b, keys - {x})
    decreases keys
  {
    var key :| key in keys && SumLarger(a, b, keys) == Larger(a, b, key) + SumLarger(a, b, keys - {key});
    if key == x {
    } else {
      LargerTakeOut(a, b, keys - {key}, x);
      LargerTakeOut(a, b, keys - {x}, key);
      assert keys - {key} - {x} == keys - {x} - {key};
    }
  }

  /** Keys with weight zero on both sides do not matter. */
  lemma {:induction false} SumsOverMoreKeys(a: Weights, b: Weights, keys: set<string>)
    requires a.Keys + b.Keys <= keys
    ensures SumDifference(a, b, keys) == SumDifference(a, b, a.Keys + b.Keys)
    ensures SumLarger(a, b, keys) == SumLarger(a, b, a.Keys + b.Keys)
    decreases keys
  {
    if keys != a.Keys + b.Keys {
      var x :| x in keys && x !in a.Keys + b.Keys;
      SumTakeOut(a, b, keys, x);
      LargerTakeOut(a, b, keys, x);
      SumsOverMoreKeys(a, b, keys - {x});
    }
  }

  lemma {:induction false} SumsSymmetric(a: Weights, b: Weights, keys: set<string>)
    ensures SumDifference(a, b, keys) == SumDifference(b, a, keys)
    ensures SumLarger(a, b, keys) == SumLarger(b, a, keys)
    decreases keys
  {
    if keys == {} {
    } else {
      var x :| x in keys;
      SumTakeOut(a, b, keys, x);
      SumTakeOut(b, a, keys, x);
      LargerTakeOut(a, b, keys, x);
      LargerTakeOut(b, a, keys, x);
      SumsSymmetric(a, b, keys - {x});
    }
  }

  /** Differences p, q, r of three points, with weights mp, mq, mr, obey the triangle inequality
      and each weight exceeds another by at most half the slack. */
  ghost predicate Triangular(p: real, q: real, r: real, mp: real, mq: real, mr: real) {
    && 0.0 <= p <= 2.0 * mp && 0.0 <= q <= 2.0 * mq && 0.0 <= r <= 2.0 * mr && r <= p + q
    && 2.0 * mp <= 2.0 * mr + p + q - r && 2.0 * mq <= 2.0 * mr + p + q - r
  }

  lemma PointTriangular(a: Weights, b: Weights, c: Weights, key: string)
    ensures Triangular(Difference(a, b, key), Difference(b, c, key), Difference(a, c, key),
                       Larger(a, b, key), Larger(b, c, key), Larger(a, c, key))
  {
  }

  lemma TriangularAdds(p: real, q: real, r: real, mp: real, mq: real, mr: real,
                       p': real, q': real, r': real, mp': real, mq': real, mr': real)
    requires Triangular(p, q, r, mp, mq, mr) && Triangular(p', q', r', mp', mq', mr')
    ensures Triangular(p + p', q + q', r + r', mp + mp', mq + mq', mr + mr')
  {
  }

  ghost predicate SumsTriangular(a: Weights, b: Weights, c: Weights, keys: set<string>) {
    Triangular(SumDifference(a, b, keys), SumDifference(b, c, keys), SumDifference(a, c, keys),
               SumLarger(a, b, keys), SumLarger(b, c, keys), SumLarger(a, c, keys))
  }

  lemma SumsGrow(a: Weights, b: Weights, c: Weights, keys: set<string>, x: string)
    requires x in keys && SumsTriangular(a, b, c, keys - {x})
    ensures SumsTriangular(a, b, c, keys)
  {
    var rest := keys - {x};
    PointTriangular(a, b, c, x);
    TriangularAdds(Difference(a, b, x), Difference(b, c, x), Difference(a, c, x),
                   Larger(a, b, x), Larger(b, c, x), Larger(a, c, x),
                   SumDifference(a, b, rest), SumDifference(b, c, rest), SumDifference(a, c, rest),
                   SumLarger(a, b, rest), SumLarger(b, c, rest), SumLarger(a, c, rest));
    SumTakeOut(a, b, keys, x);
    SumTakeOut(b, c, keys, x);
    SumTakeOut(a, c, keys, x);
    LargerTakeOut(a, b, keys, x);
    LargerTakeOut(b, c, keys, x);
    LargerTakeOut(a, c, keys, x);
  }

  lemma {:induction false} SumInequalities(a: Weights, b: Weights, c: Weights, keys: set<string>)
    ensures SumsTriangular(a, b, c, keys)
    decreases keys
  {
    if keys == {} {
    } else {
      var x :| x in keys;
      SumInequalities(a, b, c, keys - {x});
      SumsGrow(a, b, c, keys, x);
    }
  }

  // ----- the quotient

  lemma QuotientGrows(x: real, m: real, n: real)
    requires x >= 0.0 && 0.0 < m <= n
    ensures x / n <= x / m
  {
  }

  lemma CrossMultiply(x: real, y: real, m: real, n: real)
    requires m > 0.0 && n > 0.0 && x * n <= y * m
    ensures x / m <= y / n
  {
  }

  lemma QuotientNonNegative(x: real, m: real)
    requires x >= 0.0 && m > 0.0
    ensures x / m >= 0.0
  {
  }

  lemma QuotientSplits(x: real, y: real, m: real)
    requires m > 0.0
    ensures (x + y) / m == x / m + y / m
  {
  }

  lemma QuotientTriangle(p: real, q: real, r: real, mp: real, mq: real, mr: real)
    requires Triangular(p, q, r, mp, mq, mr) && 0.0 < mp && 0.0 < mq && 0.0 < mr
    ensures r / mr <= p / mp + q / mq
  {
    var d := (p + q - r) / 2.0;
    var m := mr + d;
    QuotientGrows(p, mp, m);
    QuotientGrows(q, mq, m);
    assert (r + 2.0 * d) * mr - r * m == d * (2.0 * mr - r);
    CrossMultiply(r, p + q, mr, m);
    QuotientSplits(p, q, m);
  }

  lemma RateOfTriangle(p: real, q: real, r: real, mp: real, mq: real, mr: real)
    requires Triangular(p, q, r, mp, mq, mr)
    ensures RateOf(r, mr) <= RateOf(p, mp) + RateOf(q, mq)
  {
    if mp > 0.0 {
      QuotientNonNegative(p, mp);
    }
    if mq > 0.0 {
      QuotientNonNegative(q, mq);
    }
    if mr > 0.0 {
      if mp > 0.0 && mq > 0.0 {
        QuotientTriangle(p, q, r, mp, mq, mr);
      } else if mp > 0.0 {
        QuotientTriangle(p, 0.0, r, mp, mp, mr);
      } else if mq > 0.0 {
        QuotientTriangle(0.0, q, r, mq, mq, mr);
      }
    }
  }

  // ----- the rate is a distance

  lemma RateSymmetric(a: Weights, b: Weights)
    ensures Rate(a, b) == Rate(b, a)
  {
    SumsSymmetric(a, b, a.Keys + b.Keys);
    assert a.Keys + b.Keys == b.Keys + a.Keys;
  }

  lemma RateInUnitInterval(a: Weights, b: Weights)
    ensures 0.0 <= Rate(a, b) <= 1.0
  {
    var keys := a.Keys + b.Keys;
    SumInequalities(a, b, b, keys);
    var d, m := SumDifference(a, b, keys), SumLarger(a, b, keys);
    assert m > 0.0 ==> d / m >= 0.0;
  }

  lemma RateTriangle(a: Weights, b: Weights, c: Weights)
    ensures Rate(a, c) <= Rate(a, b) + Rate(b, c)
  {
    var keys := a.Keys + b.Keys + c.Keys;
    SumsOverMoreKeys(a, b, keys);
    SumsOverMoreKeys(b, c, keys);
    SumsOverMoreKeys(a, c, keys);
    SumInequalities(a, b, c, keys);
    RateOfTriangle(SumDifference(a, b, keys), SumDifference(b, c, keys), SumDifference(a, c, keys),
                   SumLarger(a, b, keys), SumLarger(b, c, keys), SumLarger(a, c, keys));
  }

  lemma {:induction false} NoDifference(a: Weights, b: Weights, keys: set<string>)
    ensures SumDifference(a, b, keys) == 0.0 <==> forall key :: key in keys ==> At(a, key) == At(b, key)
    ensures SumDifference(a, b, keys) >= 0.0
    decreases keys
  {
    if keys == {} {
    } else {
      var x :| x in keys;
      SumTakeOut(a, b, keys, x);
      NoDifference(a, b, keys - {x});
    }
  }

  /** The rate is zero exactly for maps that agree on every weight. */
  lemma RateZero(a: Weights, b: Weights)
    ensures Rate(a, b) == 0.0 <==> forall key :: At(a, key) == At(b, key)
  {
    var keys := a.Keys + b.Keys;
    NoDifference(a, b, keys);
    SumInequalities(a, b, b, keys);
    var d, m := SumDifference(a, b, keys), SumLarger(a, b, keys);
    if m > 0.0 {
      assert d / m * m == d;
    }
    assert forall key :: key !in keys ==> At(a, key) == At(b, key);
  }

  // ----- the size of the rate

  lemma {:induction false} SumsAreBounds(a: Weights, b: Weights, keys: set<string>)
    ensures 0.0 <= SumDifference(a, b, keys) && 0.0 <= SumLarger(a, b, keys)
    ensures SumLarger(a, b, keys) == 0.0 ==> SumDifference(a, b, keys) == 0.0
    decreases keys
  {
    if keys == {} {
    } else {
      var x :| x in keys;
      SumsAreBounds(a, b, keys - {x});
      SumTakeOut(a, b, keys, x);
      LargerTakeOut(a, b, keys, x);
    }
  }

  lemma SignOfProduct(x: real, m: real)
    requires m > 0.0
    ensures x * m < 0.0 <==> x < 0.0
    ensures x * m == 0.0 <==> x == 0.0
  {
  }

  lemma QuotientTimes(d: real, m: real)
    requires d >= 0.0 && m > 0.0
    ensures d / m * m == d && (d / m < 1.0 <==> d < m)
  {
    var q := d / m;
    assert (q - 1.0) * m == d - m;
    SignOfProduct(q - 1.0, m);
  }

  lemma RateOfSize(d: real, m: real)
    requires d >= 0.0 && m >= 0.0
    ensures RateOf(d, m) == if m == 0.0 then 0.0 else if d < m then d / m else 1.0
  {
    if m > 0.0 {
      QuotientTimes(d, m);
    }
  }

  /** The rate is the quotient of the total difference by the total weight, but never more than one. */
  lemma RateSize(a: Weights, b: Weights)
    ensures var d, m := SumDifference(a, b, a.Keys + b.Keys), SumLarger(a, b, a.Keys + b.Keys);
            Rate(a, b) == if m == 0.0 then 0.0 else if d < m then d / m else 1.0
  {
    SumsAreBounds(a, b, a.Keys + b.Keys);
    RateOfSize(SumDifference(a, b, a.Keys + b.Keys), SumLarger(a, b, a.Keys + b.Keys));
  }

  lemma SizedProduct(r: real, d: real, m: real)
    requires d >= 0.0 && m >= 0.0 && r == if m == 0.0 then 0.0 else if d < m then d / m else 1.0
    ensures r * m == if d < m then d else m
  {
    if m > 0.0 {
      QuotientTimes(d, m);
    }
  }

  /** So the rate times the total weight is the smaller of the total difference and that weight. */
  lemma RateTimesWeight(a: Weights, b: Weights, r: real, d: real, m: real)
    requires r == Rate(a, b)
    requires d == SumDifference(a, b, a.Keys + b.Keys) && m == SumLarger(a, b, a.Keys + b.Keys)
    ensures r * m == if d < m then d else m
  {
    SumsAreBounds(a, b, a.Keys + b.Keys);
    RateSize(a, b);
    SizedProduct(r, d, m);
  }

  /** The totals add up key by key: over one key they are the difference and the larger weight, and over
      keys that are disjoint they are the sum. */
  lemma TotalsOfOne(a: Weights, b: Weights, key: string)
    ensures var x, y := if key in a then a[key] else 0.0, if key in b then b[key] else 0.0;
            && SumDifference(a, b, {key}) == (if x < y then y - x else x - y)
            && (x >= 0.0 && y >= 0.0 ==> SumLarger(a, b, {key}) == if x < y then y else x)
            && (x <= 0.0 && y <= 0.0 ==> SumLarger(a, b, {key}) == if x < y then -x else -y)
            && (x <= 0.0 <= y ==> SumLarger(a, b, {key}) == if -x < y then y else -x)
            && (y <= 0.0 <= x ==> SumLarger(a, b, {key}) == if x < -y then -y else x)
  {
    SumTakeOut(a, b, {key}, key);
    LargerTakeOut(a, b, {key}, key);
  }

  lemma {:induction false} TotalsAddUp(a: Weights, b: Weights, keys: set<string>, more: set<string>)
    requires keys !! more
    ensures SumDifference(a, b, keys + more) == SumDifference(a, b, keys) + SumDifference(a, b, more)
    ensures SumLarger(a, b, keys + more) == SumLarger(a, b, keys) + SumLarger(a, b, more)
    decreases more
  {
    if more == {} {
      assert keys + more == keys;
    } else {
      var x :| x in more;
      TotalsAddUp(a, b, keys, more - {x});
      assert keys + more - {x} == keys + (more - {x});
      SumTakeOut(a, b, keys + more, x);
      SumTakeOut(a, b, more, x);
      LargerTakeOut(a, b, keys + more, x);
      LargerTakeOut(a, b, more, x);
    }
  }

  /** One weight that grows from x to y changes at the rate 1 - x / y. */
  lemma RateOfGrowth(key: string, x: real, y: real)
    requires 0.0 < x <= y
    ensures Rate(map[key := x], map[key := y]) == 1.0 - x / y
  {
    var a, b := map[key := x], map[key := y];
    assert a.Keys + b.Keys == {key};
    TotalsOfOne(a, b, key);
    RateSize(a, b);
    QuotientSplits(y - x, x, y);
    QuotientOfSame(y);
  }

  lemma QuotientOfSame(y: real)
    requires y > 0.0
    ensures y / y == 1.0
  {
    assert (y / y - 1.0) * y == 0.0;
    SignOfProduct(y / y - 1.0, y);
  }

  /** Weights that share no key, nor a non-zero weight, are as far apart as can be. */
  lemma {:induction false} NothingShared(a: Weights, b: Weights, keys: set<string>)
    requires forall key :: key in keys ==> At(a, key) == 0.0 || At(b, key) == 0.0
    ensures SumDifference(a, b, keys) == SumLarger(a, b, keys)
    ensures SumLarger(a, b, keys) == 0.0 <==> forall key :: key in keys ==> At(a, key) == 0.0 == At(b, key)
    ensures SumLarger(a, b, keys) >= 0.0
    decreases keys
  {
    if keys == {} {
    } else {
      var x :| x in keys;
      NothingShared(a, b, keys - {x});
      SumTakeOut(a, b, keys, x);
      LargerTakeOut(a, b, keys, x);
    }
  }

  lemma RateOfStrangers(a: Weights, b: Weights, key: string)
    requires forall k :: At(a, k) == 0.0 || At(b, k) == 0.0
    requires At(a, key) != 0.0 || At(b, key) != 0.0
    ensures Rate(a, b) == 1.0
  {
    var keys := a.Keys + b.Keys;
    assert key in keys;
    NothingShared(a, b, keys);
    RateSize(a, b);
  }

  // ----- the loop

  lemma TakeOut(a: Weights, b: Weights, keys: set<string>, x: string)
    requires x in keys
    ensures SumDifference(a, b, keys) == Abs(At(b, x) - At(a, x)) + SumDifference(a, b, keys - {x})
    ensures SumLarger(a, b, keys) == Max(Abs(At(a, x)), Abs(At(b, x))) + SumLarger(a, b, keys - {x})
  {
    SumTakeOut(a, b, keys, x);
    LargerTakeOut(a, b, keys, x);
  }

  /** The loop of `_compute_weight_change_rate`; the keys come in any order. */
  method AddUp(prev: Weights, curr: Weights, keys: set<string>) returns (totalDiff: real, totalWeight: real)
    ensures totalDiff == SumDifference(prev, curr, keys) && totalWeight == SumLarger(prev, curr, keys)
  {
    totalDiff, totalWeight := 0.0, 0.0;
    var todo := keys;
    while todo != {}
      invariant totalDiff + SumDifference(prev, curr, todo) == SumDifference(prev, curr, keys)
      invariant totalWeight + SumLarger(prev, curr, todo) == SumLarger(prev, curr, keys)
      decreases |todo|
    {
      var key :| key in todo;
      TakeOut(prev, curr, todo, key);
      totalDiff := totalDiff + Abs(At(curr, key) - At(prev, key));
      totalWeight := totalWeight + Max(Abs(At(prev, key)), Abs(At(curr, key)));
      todo := todo - {key};
    }
  }

  /** `_compute_weight_change_rate`. */
  method ComputeWeightChangeRate(prev: Weights, curr: Weights) returns (rate: real)
    ensures rate == Rate(prev, curr)
  {
    var keys := prev.Keys + curr.Keys;
    if keys == {} {
      return 0.0;
    }
    var totalDiff, totalWeight := AddUp(prev, curr, keys);
    if totalWeight == 0.0 {
      return 0.0;
    }
    rate := Min(1.0, totalDiff / totalWeight);
  }
}
