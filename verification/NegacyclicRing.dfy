/** The ring Z[X]/(X^n + 1), on coefficient sequences of length n.

    Polynomials are exact integer vectors here; reduction modulo q is a homomorphism out of
    this ring and is treated in module `Polynomials`.  The product is the sum of a_t * X^t * b,
    where multiplication by X rotates the coefficients and negates the one that wraps around.
 */
module NegacyclicRing {

  type Vec = seq<int>

  function Zero(n: nat): (v: Vec)
    ensures |v| == n
  {
    seq(n, _ => 0)
  }

  function One(n: nat): (v: Vec)
    requires n >= 1
    ensures |v| == n
  {
    [1] + Zero(n - 1)
  }

  function Plus(a: Vec, b: Vec): (r: Vec)
    requires |a| == |b|
    ensures |r| == |a|
  {
    seq(|a|, i requires 0 <= i < |a| => a[i] + b[i])
  }

  function Minus(a: Vec, b: Vec): (r: Vec)
    requires |a| == |b|
    ensures |r| == |a|
  {
    seq(|a|, i requires 0 <= i < |a| => a[i] - b[i])
  }

  function Scale(c: int, a: Vec): (r: Vec)
    ensures |r| == |a|
  {
    seq(|a|, i requires 0 <= i < |a| => c * a[i])
  }

  /** Multiplication by X: rotate by one and negate the coefficient that wraps. */
  function TimesX(a: Vec): (r: Vec)
    ensures |r| == |a|
  {
    seq(|a|, i requires 0 <= i < |a| => if i == 0 then -a[|a| - 1] else a[i - 1])
  }

  function XPow(a: Vec, t: nat): (r: Vec)
    ensures |r| == |a|
  {
    if t == 0 then a else TimesX(XPow(a, t - 1))
  }

  /** The first i terms of a * x, that is, the sum of a[t] * X^t * x for t < i. */
  function Acc(a: Vec, x: Vec, i: nat): (r: Vec)
    requires i <= |a|
    ensures |r| == |x|
  {
    if i == 0 then Zero(|x|) else Plus(Acc(a, x, i - 1), Scale(a[i - 1], XPow(x, i - 1)))
  }

  function Mul(a: Vec, b: Vec): (r: Vec)
    ensures |r| == |b|
  {
    Acc(a, b, |a|)
  }

  // ----- multiplication by a fixed polynomial is linear and commutes with X

  lemma ScaleDistributes(c: int, x: Vec, y: Vec)
    requires |x| == |y|
    ensures Scale(c, Plus(x, y)) == Plus(Scale(c, x), Scale(c, y))
  {
    forall i | 0 <= i < |x|
      ensures Scale(c, Plus(x, y))[i] == Plus(Scale(c, x), Scale(c, y))[i]
    {
      assert c * (x[i] + y[i]) == c * x[i] + c * y[i];
    }
  }

  lemma ScaleCommutes(c: int, d: int, x: Vec)
    ensures Scale(c, Scale(d, x)) == Scale(d, Scale(c, x))
  {
    forall i | 0 <= i < |x|
      ensures Scale(c, Scale(d, x))[i] == Scale(d, Scale(c, x))[i]
    {
      assert c * (d * x[i]) == d * (c * x[i]);
    }
  }

  lemma TimesXLinear(x: Vec, y: Vec, c: int)
    requires |x| == |y|
    ensures TimesX(Plus(x, y)) == Plus(TimesX(x), TimesX(y))
    ensures TimesX(Scale(c, x)) == Scale(c, TimesX(x))
  {
  }

  lemma PlusInterchanges(a: Vec, b: Vec, c: Vec, d: Vec)
    requires |a| == |b| == |c| == |d|
    ensures Plus(Plus(a, b), Plus(c, d)) == Plus(Plus(a, c), Plus(b, d))
  {
  }

  lemma {:induction false} XPowLinear(x: Vec, y: Vec, c: int, t: nat)
    requires |x| == |y|
    ensures XPow(Plus(x, y), t) == Plus(XPow(x, t), XPow(y, t))
    ensures XPow(Scale(c, x), t) == Scale(c, XPow(x, t))
  {
    if t > 0 {
      XPowLinear(x, y, c, t - 1);
      TimesXLinear(XPow(x, t - 1), XPow(y, t - 1), c);
    }
  }

  lemma {:induction false} XPowTimesX(x: Vec, t: nat)
    ensures XPow(TimesX(x), t) == TimesX(XPow(x, t))
  {
    if t > 0 {
      XPowTimesX(x, t - 1);
    }
  }

  lemma {:induction false} AccPlus(a: Vec, x: Vec, y: Vec, i: nat)
    requires i <= |a| && |x| == |y|
    ensures Acc(a, Plus(x, y), i) == Plus(Acc(a, x, i), Acc(a, y, i))
  {
    if i > 0 {
      AccPlus(a, x, y, i - 1);
      XPowLinear(x, y, 0, i - 1);
      var c, u, v := a[i - 1], XPow(x, i - 1), XPow(y, i - 1);
      ScaleDistributes(c, u, v);
      PlusInterchanges(Acc(a, x, i - 1), Acc(a, y, i - 1), Scale(c, u), Scale(c, v));
    } else {
      assert Zero(|x|) == Plus(Zero(|x|), Zero(|x|));
    }
  }

  lemma {:induction false} AccScale(a: Vec, c: int, x: Vec, i: nat)
    requires i <= |a|
    ensures Acc(a, Scale(c, x), i) == Scale(c, Acc(a, x, i))
  {
    if i > 0 {
      AccScale(a, c, x, i - 1);
      XPowLinear(x, x, c, i - 1);
      ScaleCommutes(a[i - 1], c, XPow(x, i - 1));
      ScaleDistributes(c, Acc(a, x, i - 1), Scale(a[i - 1], XPow(x, i - 1)));
    } else {
      assert Zero(|x|) == Scale(c, Zero(|x|));
    }
  }

  lemma {:induction false} AccTimesX(a: Vec, x: Vec, i: nat)
    requires i <= |a|
    ensures Acc(a, TimesX(x), i) == TimesX(Acc(a, x, i))
  {
    if i > 0 {
      AccTimesX(a, x, i - 1);
      XPowTimesX(x, i - 1);
      var u, v, c := Acc(a, x, i - 1), XPow(x, i - 1), a[i - 1];
      TimesXLinear(u, Scale(c, v), 0);
      TimesXLinear(v, v, c);
    } else {
      assert TimesX(Zero(|x|)) == Zero(|x|);
    }
  }

  lemma {:induction false} AccXPow(a: Vec, x: Vec, i: nat, t: nat)
    requires i <= |a|
    ensures Acc(a, XPow(x, t), i) == XPow(Acc(a, x, i), t)
  {
    if t > 0 {
      AccXPow(a, x, i, t - 1);
      AccTimesX(a, XPow(x, t - 1), i);
    }
  }

  lemma ZeroScale(x: Vec)
    ensures Scale(0, x) == Zero(|x|)
  {
  }

  /** Multiplications by two polynomials commute as operators. */
  lemma {:induction false} OperatorsCommute(b: Vec, a: Vec, x: Vec, i: nat)
    requires i <= |a|
    ensures Mul(b, Acc(a, x, i)) == Acc(a, Mul(b, x), i)
  {
    if i > 0 {
      OperatorsCommute(b, a, x, i - 1);
      var c, w := a[i - 1], XPow(x, i - 1);
      calc {
        Mul(b, Plus(Acc(a, x, i - 1), Scale(c, w)));
        { AccPlus(b, Acc(a, x, i - 1), Scale(c, w), |b|); }
        Plus(Mul(b, Acc(a, x, i - 1)), Mul(b, Scale(c, w)));
        { AccScale(b, c, w, |b|); }
        Plus(Mul(b, Acc(a, x, i - 1)), Scale(c, Mul(b, w)));
        { AccXPow(b, x, |b|, i - 1); }
        Plus(Acc(a, Mul(b, x), i - 1), Scale(c, XPow(Mul(b, x), i - 1)));
      }
    } else {
      ZeroScale(Zero(|x|));
      AccScale(b, 0, Zero(|x|), |b|);
      ZeroScale(Acc(b, Zero(|x|), |b|));
    }
  }

  lemma {:induction false} XPowOne(n: nat, t: nat)
    requires t < n
    ensures XPow(One(n), t) == Zero(t) + [1] + Zero(n - 1 - t)
  {
    if t > 0 {
      XPowOne(n, t - 1);
    }
  }

  lemma UnitStep(a: Vec, i: nat)
    requires i < |a|
    ensures Plus(a[..i] + Zero(|a| - i), Scale(a[i], Zero(i) + [1] + Zero(|a| - 1 - i)))
         == a[..i + 1] + Zero(|a| - i - 1)
  {
  }

  lemma {:induction false} AccOne(a: Vec, i: nat)
    requires i <= |a| && |a| >= 1
    ensures Acc(a, One(|a|), i) == a[..i] + Zero(|a| - i)
  {
    if i > 0 {
      AccOne(a, i - 1);
      XPowOne(|a|, i - 1);
      UnitStep(a, i - 1);
    }
  }

  lemma MulOne(a: Vec)
    requires |a| >= 1
    ensures Mul(a, One(|a|)) == a
  {
    AccOne(a, |a|);
  }

  // ----- the ring laws

  lemma MulCommutes(a: Vec, b: Vec)
    requires |a| == |b|
    ensures Mul(a, b) == Mul(b, a)
  {
    if |a| >= 1 {
      MulOne(a);
      MulOne(b);
      OperatorsCommute(b, a, One(|a|), |a|);
    } else {
      assert Mul(a, b) == [] == Mul(b, a);
    }
  }

  lemma MulAssociates(a: Vec, b: Vec, c: Vec)
    requires |a| == |b| == |c|
    ensures Mul(Mul(a, b), c) == Mul(a, Mul(b, c))
  {
    MulCommutes(Mul(a, b), c);
    MulCommutes(c, b);
    OperatorsCommute(c, a, b, |a|);
  }

  lemma MulDistributes(a: Vec, b: Vec, c: Vec)
    requires |a| == |b| == |c|
    ensures Mul(a, Plus(b, c)) == Plus(Mul(a, b), Mul(a, c))
    ensures Mul(Plus(b, c), a) == Plus(Mul(b, a), Mul(c, a))
    ensures Mul(a, Minus(b, c)) == Minus(Mul(a, b), Mul(a, c))
  {
    AccPlus(a, b, c, |a|);
    MulCommutes(a, Plus(b, c));
    MulCommutes(a, b);
    MulCommutes(a, c);
    assert Minus(b, c) == Plus(b, Scale(-1, c));
    AccPlus(a, b, Scale(-1, c), |a|);
    AccScale(a, -1, c, |a|);
    assert Minus(Mul(a, b), Mul(a, c)) == Plus(Mul(a, b), Scale(-1, Mul(a, c)));
  }

  // ----- coefficients

  /** Coefficient j of b continued to negative indices by X^n = -1. */
  function Wrapped(b: Vec, j: int): int
    requires -|b| <= j < |b|
  {
    if j >= 0 then b[j] else -b[j + |b|]
  }

  lemma {:induction false} XPowCoefficient(b: Vec, t: nat, k: nat)
    requires t <= |b| && k < |b|
    ensures XPow(b, t)[k] == Wrapped(b, k - t)
  {
    if t > 0 {
      XPowCoefficient(b, t - 1, if k == 0 then |b| - 1 else k - 1);
    }
  }

  /** The textbook negacyclic convolution: coefficient k of the first i terms of a * b. */
  function Convolution(a: Vec, b: Vec, i: nat, k: nat): int
    requires i <= |a| == |b| && k < |b|
  {
    if i == 0 then 0 else Convolution(a, b, i - 1, k) + a[i - 1] * Wrapped(b, k - (i - 1))
  }

  lemma {:induction false} MulIsConvolution(a: Vec, b: Vec, i: nat, k: nat)
    requires i <= |a| == |b| && k < |b|
    ensures Acc(a, b, i)[k] == Convolution(a, b, i, k)
  {
    if i > 0 {
      MulIsConvolution(a, b, i - 1, k);
      XPowCoefficient(b, i - 1, k);
    }
  }

  // ----- sizes

  ghost predicate Bounded(a: Vec, bound: int) {
    forall i :: 0 <= i < |a| ==> -bound <= a[i] <= bound
  }

  lemma ProductBound(x: int, y: int, a: int, b: int)
    requires a >= 0 && b >= 0
    requires -a <= x <= a && -b <= y <= b
    ensures -(a * b) <= x * y <= a * b
  {
  }

  lemma {:induction false} ConvolutionBound(a: Vec, b: Vec, i: nat, k: nat, ba: nat, bb: nat)
    requires i <= |a| == |b| && k < |b|
    requires Bounded(a, ba) && Bounded(b, bb)
    ensures -(i * (ba * bb)) <= Convolution(a, b, i, k) <= i * (ba * bb)
  {
    if i > 0 {
      ConvolutionBound(a, b, i - 1, k, ba, bb);
      ProductBound(a[i - 1], Wrapped(b, k - (i - 1)), ba, bb);
      assert i * (ba * bb) == (i - 1) * (ba * bb) + ba * bb;
    }
  }

  /** A product of polynomials bounded by ba and bb is bounded by n * ba * bb. */
  lemma MulBound(a: Vec, b: Vec, ba: nat, bb: nat)
    requires |a| == |b|
    requires Bounded(a, ba) && Bounded(b, bb)
    ensures Bounded(Mul(a, b), |a| * (ba * bb))
  {
    forall k | 0 <= k < |b|
      ensures -(|a| * (ba * bb)) <= Mul(a, b)[k] <= |a| * (ba * bb)
    {
      MulIsConvolution(a, b, |a|, k);
      ConvolutionBound(a, b, |a|, k, ba, bb);
    }
  }
}
