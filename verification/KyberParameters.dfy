/** Which parameter sets of the key encapsulation of evolution/post_quantum_crypto.py always recover the
    message, whatever is drawn: exactly those with twice the noise limit below q//2.
 */
module KyberParameters {
  import opened NegacyclicRing
  import opened Polynomials
  import opened ModuleVectors
  import opened MessageBits
  import opened KyberKem

  /** The small integers behind the secrets and errors of one exchange. */
  datatype Choice = Choice(s: seq<Vec>, e: seq<Vec>, r: seq<Vec>, e1: seq<Vec>, e2: Vec)

  ghost predicate SmallVectors(xs: seq<Vec>, k: nat, n: nat, bound: int) {
    Vectors(xs, k, n) && forall i :: 0 <= i < k ==> Bounded(xs[i], bound)
  }

  /** What centred binomial sampling can return. */
  ghost predicate Admissible(c: Choice, p: Params) {
    && SmallVectors(c.s, p.k, p.n, p.eta1) && SmallVectors(c.e, p.k, p.n, p.eta1)
    && SmallVectors(c.r, p.k, p.n, p.eta1) && SmallVectors(c.e1, p.k, p.n, p.eta2)
    && |c.e2| == p.n && Bounded(c.e2, p.eta2)
  }

  /** Every bounded polynomial can be drawn. */
  lemma {:induction false} DrawsReach(v: Vec, eta: nat) returns (draws: seq<nat>)
    requires Bounded(v, eta)
    ensures Draws(draws, eta, |v|) && CbdValues(draws, eta) == v
  {
    draws := [];
    if v != [] {
      var rest, x := v[..|v| - 1], v[|v| - 1];
      var front := DrawsReach(rest, eta);
      var j := x + eta;
      OnesCount(j);
      PowerMonotone(j, 2 * eta);
      draws := front + [PowerOfTwo(j) - 1];
      assert CbdValues(draws, eta) == CbdValues(front, eta) + [x] == rest + [x];
    }
  }

  lemma {:induction false} OnesCount(j: nat)
    ensures PowerOfTwo(j) >= 1 && PopCount(PowerOfTwo(j) - 1) == j
  {
    if j > 0 {
      OnesCount(j - 1);
    }
  }

  lemma {:induction false} PowerMonotone(i: nat, j: nat)
    requires i <= j
    ensures PowerOfTwo(i) <= PowerOfTwo(j)
    decreases j
  {
    if i < j {
      PowerMonotone(i, j - 1);
    }
  }

  /** The noise of the residues that the coded operations work with. */
  ghost function NoiseOf(c: Choice, p: Params): (w: Vec)
    requires p.q >= 1 && Admissible(c, p)
    ensures |w| == p.n
  {
    Noise(ReduceEach(c.s, p.q), ReduceEach(c.e, p.q), ReduceEach(c.r, p.q), ReduceEach(c.e1, p.q),
          Reduce(c.e2, p.q), p.k, p.n)
  }

  ghost predicate Recovers(m: Bytes, c: Choice, p: Params)
    requires p.q >= 1
  {
    |m| == 32 && Admissible(c, p) ==> MessageSurvives(m, NoiseOf(c, p), p)
  }

  ghost predicate AlwaysRecovers(p: Params)
    requires p.q >= 1
  {
    forall m, c :: Recovers(m, c, p)
  }

  // ----- sums at the top coefficient

  function Sum(v: Vec): int {
    if v == [] then 0 else Sum(v[..|v| - 1]) + v[|v| - 1]
  }

  /** The sum of all coefficients of the first j vectors. */
  function Total(xs: seq<Vec>, j: nat): int
    requires j <= |xs|
  {
    if j == 0 then 0 else Total(xs, j - 1) + Sum(xs[j - 1])
  }

  lemma {:induction false} ConstantSum(x: Vec, g: int, i: nat)
    requires 1 <= |x| && i <= |x|
    ensures Convolution(x, Constant(g, |x|), i, |x| - 1) == g * Sum(x[..i])
  {
    if i > 0 {
      ConstantSum(x, g, i - 1);
      assert x[..i][..i - 1] == x[..i - 1];
      assert g * (Sum(x[..i - 1]) + x[i - 1]) == g * Sum(x[..i - 1]) + x[i - 1] * g;
    }
  }

  lemma WholeSum(x: Vec, g: int, n: nat)
    requires 1 <= n == |x|
    ensures Convolution(x, Constant(g, n), n, n - 1) == g * Sum(x)
  {
    var y := x[..n];
    assert y == x;
    ConstantSum(x, g, n);
  }

  /** The top coefficient of a product with a constant polynomial: nothing wraps around. */
  lemma TopOfProduct(x: Vec, c: Vec, g: int, n: nat)
    requires 1 <= n == |x| && c == Constant(g, n)
    ensures Mul(x, c)[n - 1] == g * Sum(x)
  {
    WholeSum(x, g, n);
    MulIsConvolution(x, c, n, n - 1);
  }

  ghost function Constants(g: int, k: nat, n: nat): (xs: seq<Vec>)
    ensures Vectors(xs, k, n) && forall i :: 0 <= i < k ==> xs[i] == Constant(g, n)
  {
    seq(k, _ => Constant(g, n))
  }

  lemma {:induction false} TopOfDot(xs: seq<Vec>, g: int, k: nat, n: nat, j: nat)
    requires Vectors(xs, k, n) && 1 <= n && j <= k
    ensures Dot(xs, Constants(g, k, n), k, n, j)[n - 1] == g * Total(xs, j)
  {
    if j > 0 {
      TopOfDot(xs, g, k, n, j - 1);
      TopOfProduct(xs[j - 1], Constants(g, k, n)[j - 1], g, n);
      assert g * (Total(xs, j - 1) + Sum(xs[j - 1])) == g * Total(xs, j - 1) + g * Sum(xs[j - 1]);
    }
  }

  lemma TopOfNoise(e: seq<Vec>, e1: seq<Vec>, e2: Vec, g: int, k: nat, n: nat)
    requires Vectors(e, k, n) && Vectors(e1, k, n) && |e2| == n && 1 <= n
    ensures var c := Constants(g, k, n);
            Noise(c, e, c, e1, e2, k, n)[n - 1] == g * Total(e, k) + e2[n - 1] - g * Total(e1, k)
  {
    TopOfDot(e, g, k, n, k);
    DotCommutes(Constants(g, k, n), e1, k, n, k);
    TopOfDot(e1, g, k, n, k);
  }

  // ----- bounded vectors with a given sum

  function Clamp(x: int, bound: int): (y: int)
    requires bound >= 0
    ensures -bound <= y <= bound
  {
    if x > bound then bound else if x < -bound then -bound else x
  }

  lemma ClampLeaves(total: int, n: nat, bound: nat)
    requires n >= 1 && -(n * bound) <= total <= n * bound
    ensures -((n - 1) * bound) <= total - Clamp(total, bound) <= (n - 1) * bound
  {
    assert n * bound == (n - 1) * bound + bound;
    assert (n - 1) * bound >= 0;
  }

  lemma {:induction false} VectorWithSum(n: nat, bound: nat, total: int) returns (v: Vec)
    requires -(n * bound) <= total <= n * bound
    ensures |v| == n && Bounded(v, bound) && Sum(v) == total
  {
    v := [];
    if n > 0 {
      ClampLeaves(total, n, bound);
      var rest := VectorWithSum(n - 1, bound, total - Clamp(total, bound));
      v := rest + [Clamp(total, bound)];
      assert v[..n - 1] == rest;
    }
  }

  lemma {:induction false} VectorsWithTotal(k: nat, n: nat, bound: nat, total: int) returns (xs: seq<Vec>)
    requires -(k * (n * bound)) <= total <= k * (n * bound)
    ensures SmallVectors(xs, k, n, bound) && Total(xs, k) == total
  {
    xs := [];
    if k > 0 {
      ClampLeaves(total, k, n * bound);
      var rest := VectorsWithTotal(k - 1, n, bound, total - Clamp(total, n * bound));
      var v := VectorWithSum(n, bound, Clamp(total, n * bound));
      xs := rest + [v];
      TotalOfFront(rest, v, k - 1);
    }
  }

  lemma {:induction false} TotalOfFront(xs: seq<Vec>, v: Vec, j: nat)
    requires j <= |xs|
    ensures Total(xs + [v], j) == Total(xs, j)
  {
    if j > 0 {
      TotalOfFront(xs, v, j - 1);
    }
  }

  // ----- a choice that loses a bit

  /** Noise of this size always loses a bit that is set. */
  lemma LostBit(v: int, q: int)
    requires q >= 1 && v >= 0 && q / 2 <= 2 * v <= q + q / 2
    ensures !Survives(true, Centred(-v, q), q)
  {
    if v == 0 {
      ModUnique(0, 0, 0, q);
    } else {
      ModUnique(-v, -1, q - v, q);
    }
  }

  lemma ProductGrows(d: nat, a: nat, b: nat)
    ensures a >= b ==> d * a >= d * b
  {
    if a >= b {
      assert d * a - d * b == d * (a - b);
    }
  }

  lemma CeilingDivides(x: nat, d: nat, limit: nat) returns (t: nat)
    requires d >= 1 && x <= d * limit
    ensures x <= d * t <= x + d - 1 && t <= limit
  {
    t := (x + d - 1) / d;
    assert x + d - 1 == d * t + (x + d - 1) % d;
    ProductGrows(d, t, limit + 1);
    assert d * (limit + 1) == d * limit + d;
  }

  lemma LimitFactors(n: nat, k: nat, eta1: nat, eta2: nat)
    ensures n * k * eta1 * (eta1 + eta2) == eta1 * (k * (n * eta1) + k * (n * eta2))
  {
    var a := n * k;
    assert k * (n * eta1) == a * eta1 && k * (n * eta2) == a * eta2;
    assert a * eta1 * (eta1 + eta2) == eta1 * (a * (eta1 + eta2));
    assert a * (eta1 + eta2) == a * eta1 + a * eta2;
  }

  /** Steps of eta1 from eta2 on. */
  lemma TargetInSteps(q: int, eta1: nat, eta2: nat, limit: nat) returns (t: nat)
    requires q >= 1 && 1 <= eta1 && 2 * eta1 <= q + 1 && 2 * eta2 < q / 2 <= 2 * (eta1 * limit + eta2)
    ensures t <= limit && q / 2 <= 2 * (eta1 * t + eta2) <= q + q / 2
  {
    t := CeilingDivides((q / 2 + 1) / 2 - eta2, eta1, limit);
  }

  lemma ProductNotZero(a: nat, b: nat)
    ensures a * b >= 1 ==> a >= 1 && b >= 1
  {
    assert a == 0 || b == 0 ==> a * b == 0;
  }

  /** The noise limit is reached in steps too small to jump over the range where a bit is lost. */
  lemma TargetNoise(p: Params, limit: nat) returns (g: nat, t: nat, u: nat)
    requires p.q >= 1 && 2 * (p.eta1 * limit + p.eta2) >= p.q / 2 && (limit >= 1 ==> limit >= p.eta1)
    ensures g <= p.eta1 && u <= p.eta2 && t <= limit
    ensures p.q / 2 <= 2 * (g * t + u) <= p.q + p.q / 2
  {
    var v := (p.q / 2 + 1) / 2;
    if v <= p.eta2 {
      g, t, u := 0, 0, v;
    } else {
      ProductNotZero(p.eta1, limit);
      if 2 * p.eta1 <= p.q + 1 {
        t := TargetInSteps(p.q, p.eta1, p.eta2, limit);
        g, u := p.eta1, p.eta2;
      } else {
        g, t, u := 1, v, 0;
        assert g * t == v;
      }
    }
  }

  /** The largest sum that e and e1 can have together. */
  function SumLimit(p: Params): nat {
    p.k * (p.n * p.eta1) + p.k * (p.n * p.eta2)
  }

  lemma SumLimitIsLarge(p: Params)
    requires p.n >= 1 && SumLimit(p) >= 1
    ensures p.eta1 <= SumLimit(p)
  {
    ProductNotZero(p.k, p.n * p.eta1);
    ProductNotZero(p.k, p.n * p.eta2);
    ProductGrows(p.eta1, p.n, 1);
    ProductGrows(p.n * p.eta1, p.k, 1);
  }

  ghost function TopOnly(u: int, n: nat): (v: Vec)
    requires n >= 1
    ensures |v| == n && v[n - 1] == u && forall i :: 0 <= i < n - 1 ==> v[i] == 0
  {
    Zero(n - 1) + [u]
  }

  /** An admissible choice with a given noise at the top coefficient. */
  lemma ChoiceWithNoise(p: Params, g: nat, t1: nat, t2: nat, u: nat) returns (c: Choice)
    requires p.n >= 1 && g <= p.eta1 && u <= p.eta2
    requires t1 <= p.k * (p.n * p.eta1) && t2 <= p.k * (p.n * p.eta2)
    ensures Admissible(c, p)
    ensures Noise(c.s, c.e, c.r, c.e1, c.e2, p.k, p.n)[p.n - 1] == 0 - (g * (t1 + t2) + u)
  {
    var e := VectorsWithTotal(p.k, p.n, p.eta1, 0 - t1);
    var e1 := VectorsWithTotal(p.k, p.n, p.eta2, t2);
    var constants, e2 := Constants(g, p.k, p.n), TopOnly(0 - u, p.n);
    c := Choice(constants, e, constants, e1, e2);
    TopOfNoise(e, e1, e2, g, p.k, p.n);
    AddsUp(g, t1, t2, u);
  }

  lemma AddsUp(g: nat, t1: nat, t2: nat, u: nat)
    ensures g * (0 - t1) + (0 - u) - g * t2 == 0 - (g * (t1 + t2) + u)
  {
    assert g * (0 - t1) == 0 - g * t1 && g * (t1 + t2) == g * t1 + g * t2;
  }

  /** A message whose last bit is set. */
  lemma LastBitSet() returns (m: Bytes)
    ensures |m| == 32 && MessageBit(m, 255)
  {
    SetBitEffect(0, 7, 7);
    SetBitSize(0, 7, 8);
    ByteSize();
    var b: Byte := SetBit(0, 7);
    m := seq(32, _ => b);
  }

  lemma LimitIsReached(p: Params)
    requires p.n >= 1
    ensures NoiseLimit(p) == p.eta1 * SumLimit(p) + p.eta2 && (SumLimit(p) >= 1 ==> SumLimit(p) >= p.eta1)
  {
    LimitFactors(p.n, p.k, p.eta1, p.eta2);
    if SumLimit(p) >= 1 {
      SumLimitIsLarge(p);
    }
  }

  lemma InTwo(t: nat, most1: nat, most2: nat) returns (t1: nat, t2: nat)
    requires t <= most1 + most2
    ensures t1 <= most1 && t2 <= most2 && t1 + t2 == t
  {
    t1 := if t <= most1 then t else most1;
    t2 := t - t1;
  }

  /** Sums for e and e1 and a last summand for e2 that hit the range. */
  lemma TargetSums(p: Params, most1: nat, most2: nat) returns (g: nat, t1: nat, t2: nat, u: nat, v: nat)
    requires p.q >= 1 && p.n >= 1 && 2 * NoiseLimit(p) >= p.q / 2
    requires most1 == p.k * (p.n * p.eta1) && most2 == p.k * (p.n * p.eta2)
    ensures g <= p.eta1 && u <= p.eta2 && t1 <= most1 && t2 <= most2
    ensures v == g * (t1 + t2) + u && p.q / 2 <= 2 * v <= p.q + p.q / 2
  {
    LimitIsReached(p);
    var t;
    g, t, u := TargetNoise(p, most1 + most2);
    t1, t2 := InTwo(t, most1, most2);
    v := g * t + u;
  }

  ghost predicate TopNoise(c: Choice, p: Params, v: nat) {
    && p.q >= 1 && p.n >= 1 && Admissible(c, p)
    && Noise(c.s, c.e, c.r, c.e1, c.e2, p.k, p.n)[p.n - 1] == 0 - v
    && p.q / 2 <= 2 * v <= p.q + p.q / 2
  }

  lemma TargetChoice(p: Params) returns (c: Choice, v: nat)
    requires p.q >= 1 && p.n >= 1 && 2 * NoiseLimit(p) >= p.q / 2
    ensures TopNoise(c, p, v)
  {
    var g, t1, t2, u;
    g, t1, t2, u, v := TargetSums(p, p.k * (p.n * p.eta1), p.k * (p.n * p.eta2));
    c := ChoiceWithNoise(p, g, t1, t2, u);
  }

  lemma ChoiceSharesNoise(c: Choice, p: Params)
    requires p.q >= 1 && Admissible(c, p)
    ensures Congruent(Noise(c.s, c.e, c.r, c.e1, c.e2, p.k, p.n), NoiseOf(c, p), p.q)
  {
    ResiduesShareNoise(ReduceEach(c.s, p.q), c.s, ReduceEach(c.e, p.q), c.e, ReduceEach(c.r, p.q), c.r,
                       ReduceEach(c.e1, p.q), c.e1, Reduce(c.e2, p.q), c.e2, p.k, p.n, p.q);
  }

  lemma LosingChoice(p: Params) returns (m: Bytes, c: Choice)
    requires p.Valid() && p.n == 256 && 2 * NoiseLimit(p) >= p.q / 2
    ensures !Recovers(m, c, p)
  {
    var v;
    c, v := TargetChoice(p);
    m := LastBitSet();
    Loses(m, c, p, v);
  }

  lemma Loses(m: Bytes, c: Choice, p: Params, v: nat)
    requires p.n == 256 && TopNoise(c, p, v) && |m| == 32 && MessageBit(m, 255)
    ensures !Recovers(m, c, p)
  {
    var small, noise := Noise(c.s, c.e, c.r, c.e1, c.e2, p.k, p.n), NoiseOf(c, p);
    ChoiceSharesNoise(c, p);
    LostAtTop(m, small, noise, v, p);
  }

  lemma LostAtTop(m: Bytes, small: Vec, noise: Vec, v: nat, p: Params)
    requires |m| == 32 && MessageBit(m, 255) && p.q >= 1 && p.n == 256 == |small| && Congruent(small, noise, p.q)
    requires small[255] == 0 - v && p.q / 2 <= 2 * v <= p.q + p.q / 2
    ensures !MessageSurvives(m, noise, p)
  {
    LostBit(v, p.q);
    assert Reduce(small, p.q)[255] == Reduce(noise, p.q)[255];
  }

  lemma AdmissibleRecovers(p: Params, m: Bytes, c: Choice)
    requires p.Valid() && p.n == 256 && 2 * NoiseLimit(p) < p.q / 2
    ensures Recovers(m, c, p)
  {
    if |m| == 32 && Admissible(c, p) {
      SmallParametersAlwaysRecover(ReduceEach(c.s, p.q), c.s, ReduceEach(c.e, p.q), c.e, m,
                                   ReduceEach(c.r, p.q), c.r, ReduceEach(c.e1, p.q), c.e1,
                                   Reduce(c.e2, p.q), c.e2, p);
    }
  }

  /** Every message survives everything that can be drawn if and only if twice the noise limit is below
      q // 2. */
  lemma ParametersRecoverExactly(p: Params)
    requires p.Valid() && p.n == 256
    ensures AlwaysRecovers(p) <==> 2 * NoiseLimit(p) < p.q / 2
  {
    if 2 * NoiseLimit(p) < p.q / 2 {
      forall m, c ensures Recovers(m, c, p) {
        AdmissibleRecovers(p, m, c);
      }
    } else {
      var m, c := LosingChoice(p);
    }
  }
}
