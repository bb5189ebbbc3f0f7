/** Vectors and k-by-k matrices over the negacyclic ring, and the cancellation at the heart of
    the key encapsulation: in v - s^T u the matrix A drops out, whatever it is.
 */
module ModuleVectors {
  import opened NegacyclicRing

  ghost predicate Vectors(xs: seq<Vec>, k: nat, n: nat) {
    |xs| == k && forall i :: 0 <= i < k ==> |xs[i]| == n
  }

  ghost predicate SquareMatrix(A: seq<seq<Vec>>, k: nat, n: nat) {
    |A| == k && forall i :: 0 <= i < k ==> Vectors(A[i], k, n)
  }

  /** The inner product of the first j entries. */
  ghost function Dot(xs: seq<Vec>, ys: seq<Vec>, k: nat, n: nat, j: nat): (r: Vec)
    requires Vectors(xs, k, n) && Vectors(ys, k, n) && j <= k
    ensures |r| == n
  {
    if j == 0 then Zero(n) else Plus(Dot(xs, ys, k, n, j - 1), Mul(xs[j - 1], ys[j - 1]))
  }

  ghost function PlusEach(xs: seq<Vec>, ys: seq<Vec>, k: nat, n: nat): (r: seq<Vec>)
    requires Vectors(xs, k, n) && Vectors(ys, k, n)
    ensures Vectors(r, k, n)
  {
    seq(k, i requires 0 <= i < k => Plus(xs[i], ys[i]))
  }

  ghost function TimesEach(xs: seq<Vec>, w: Vec, k: nat, n: nat): (r: seq<Vec>)
    requires Vectors(xs, k, n) && |w| == n
    ensures Vectors(r, k, n)
  {
    seq(k, i requires 0 <= i < k => Mul(xs[i], w))
  }

  function Column(A: seq<seq<Vec>>, j: nat): (c: seq<Vec>)
    requires forall i :: 0 <= i < |A| ==> j < |A[i]|
    ensures |c| == |A|
  {
    seq(|A|, i requires 0 <= i < |A| => A[i][j])
  }

  /** A * s. */
  ghost function MatVec(A: seq<seq<Vec>>, s: seq<Vec>, k: nat, n: nat): (r: seq<Vec>)
    requires SquareMatrix(A, k, n) && Vectors(s, k, n)
    ensures Vectors(r, k, n)
  {
    seq(k, i requires 0 <= i < k => Dot(A[i], s, k, n, k))
  }

  /** The first i terms of A^T * r. */
  ghost function TransposeVec(A: seq<seq<Vec>>, r: seq<Vec>, k: nat, n: nat, i: nat): (u: seq<Vec>)
    requires SquareMatrix(A, k, n) && Vectors(r, k, n) && i <= k
    ensures Vectors(u, k, n)
  {
    seq(k, j requires 0 <= j < k => Dot(Column(A, j), r, k, n, i))
  }

  lemma {:induction false} DotCommutes(xs: seq<Vec>, ys: seq<Vec>, k: nat, n: nat, j: nat)
    requires Vectors(xs, k, n) && Vectors(ys, k, n) && j <= k
    ensures Dot(xs, ys, k, n, j) == Dot(ys, xs, k, n, j)
  {
    if j > 0 {
      DotCommutes(xs, ys, k, n, j - 1);
      MulCommutes(xs[j - 1], ys[j - 1]);
    }
  }

  lemma {:induction false} DotDistributes(xs: seq<Vec>, ys: seq<Vec>, zs: seq<Vec>, k: nat, n: nat, j: nat)
    requires Vectors(xs, k, n) && Vectors(ys, k, n) && Vectors(zs, k, n) && j <= k
    ensures Dot(zs, PlusEach(xs, ys, k, n), k, n, j) == Plus(Dot(zs, xs, k, n, j), Dot(zs, ys, k, n, j))
  {
    if j > 0 {
      DotDistributes(xs, ys, zs, k, n, j - 1);
      MulDistributes(zs[j - 1], xs[j - 1], ys[j - 1]);
      PlusInterchanges(Dot(zs, xs, k, n, j - 1), Dot(zs, ys, k, n, j - 1),
                       Mul(zs[j - 1], xs[j - 1]), Mul(zs[j - 1], ys[j - 1]));
    } else {
      assert Zero(n) == Plus(Zero(n), Zero(n));
    }
  }

  /** A common factor can be taken out of an inner product. */
  lemma {:induction false} DotFactor(row: seq<Vec>, s: seq<Vec>, w: Vec, k: nat, n: nat, j: nat)
    requires Vectors(row, k, n) && Vectors(s, k, n) && |w| == n && j <= k
    ensures Dot(s, TimesEach(row, w, k, n), k, n, j) == Mul(Dot(row, s, k, n, j), w)
  {
    if j > 0 {
      DotFactor(row, s, w, k, n, j - 1);
      var a, b := row[j - 1], s[j - 1];
      MulAssociates(b, a, w);
      MulCommutes(a, b);
      MulDistributes(w, Dot(row, s, k, n, j - 1), Mul(a, b));
    } else {
      MulCommutes(Zero(n), w);
      ZeroScale(Zero(n));
      AccScale(w, 0, Zero(n), |w|);
      ZeroScale(Mul(w, Zero(n)));
    }
  }

  lemma TransposeStep(A: seq<seq<Vec>>, r: seq<Vec>, k: nat, n: nat, i: nat)
    requires SquareMatrix(A, k, n) && Vectors(r, k, n) && i < k
    ensures TransposeVec(A, r, k, n, i + 1)
         == PlusEach(TransposeVec(A, r, k, n, i), TimesEach(A[i], r[i], k, n), k, n)
  {
  }

  lemma AdjointStep(A: seq<seq<Vec>>, s: seq<Vec>, r: seq<Vec>, k: nat, n: nat, i: nat)
    requires SquareMatrix(A, k, n) && Vectors(s, k, n) && Vectors(r, k, n) && i < k
    ensures Dot(s, TransposeVec(A, r, k, n, i + 1), k, n, k)
         == Plus(Dot(s, TransposeVec(A, r, k, n, i), k, n, k), Mul(MatVec(A, s, k, n)[i], r[i]))
  {
    var u, row := TransposeVec(A, r, k, n, i), TimesEach(A[i], r[i], k, n);
    TransposeStep(A, r, k, n, i);
    DotDistributes(u, row, s, k, n, k);
    DotFactor(A[i], s, r[i], k, n, k);
  }

  /** Exchange of the double sum: (A s)^T r = s^T (A^T r). */
  lemma {:induction false} Adjoint(A: seq<seq<Vec>>, s: seq<Vec>, r: seq<Vec>, k: nat, n: nat, i: nat)
    requires SquareMatrix(A, k, n) && Vectors(s, k, n) && Vectors(r, k, n) && i <= k
    ensures Dot(MatVec(A, s, k, n), r, k, n, i) == Dot(s, TransposeVec(A, r, k, n, i), k, n, k)
  {
    if i > 0 {
      Adjoint(A, s, r, k, n, i - 1);
      AdjointStep(A, s, r, k, n, i - 1);
    } else {
      DotZero(s, TransposeVec(A, r, k, n, 0), k, n, k);
    }
  }

  lemma {:induction false} DotZero(s: seq<Vec>, zs: seq<Vec>, k: nat, n: nat, j: nat)
    requires Vectors(s, k, n) && Vectors(zs, k, n) && j <= k
    requires forall i :: 0 <= i < k ==> zs[i] == Zero(n)
    ensures Dot(s, zs, k, n, j) == Zero(n)
  {
    if j > 0 {
      DotZero(s, zs, k, n, j - 1);
      ZeroScale(Zero(n));
      AccScale(s[j - 1], 0, Zero(n), n);
      ZeroScale(Mul(s[j - 1], Zero(n)));
    }
  }

  // ----- the cancellation

  /** t = A s + e. */
  ghost function PublicT(A: seq<seq<Vec>>, s: seq<Vec>, e: seq<Vec>, k: nat, n: nat): (t: seq<Vec>)
    requires SquareMatrix(A, k, n) && Vectors(s, k, n) && Vectors(e, k, n)
    ensures Vectors(t, k, n)
  {
    PlusEach(e, MatVec(A, s, k, n), k, n)
  }

  /** u = A^T r + e1. */
  ghost function CipherU(A: seq<seq<Vec>>, r: seq<Vec>, e1: seq<Vec>, k: nat, n: nat): (u: seq<Vec>)
    requires SquareMatrix(A, k, n) && Vectors(r, k, n) && Vectors(e1, k, n)
    ensures Vectors(u, k, n)
  {
    PlusEach(e1, TransposeVec(A, r, k, n, k), k, n)
  }

  /** v = t^T r + e2 + m, for a message polynomial m. */
  ghost function CipherV(t: seq<Vec>, r: seq<Vec>, e2: Vec, m: Vec, k: nat, n: nat): (v: Vec)
    requires Vectors(t, k, n) && Vectors(r, k, n) && |e2| == |m| == n
    ensures |v| == n
  {
    Plus(Plus(e2, Dot(t, r, k, n, k)), m)
  }

  /** e^T r + e2 - s^T e1: all that is left beside the message after decryption. */
  ghost function Noise(s: seq<Vec>, e: seq<Vec>, r: seq<Vec>, e1: seq<Vec>, e2: Vec, k: nat, n: nat): (w: Vec)
    requires Vectors(s, k, n) && Vectors(e, k, n) && Vectors(r, k, n) && Vectors(e1, k, n) && |e2| == n
    ensures |w| == n
  {
    Minus(Plus(Dot(e, r, k, n, k), e2), Dot(s, e1, k, n, k))
  }

  lemma Regroup(e2: Vec, x: Vec, y: Vec, m: Vec, z: Vec)
    requires |e2| == |x| == |y| == |m| == |z|
    ensures Minus(Plus(Plus(e2, Plus(x, y)), m), Plus(z, y)) == Plus(m, Minus(Plus(x, e2), z))
  {
  }

  lemma Cancellation(A: seq<seq<Vec>>, s: seq<Vec>, e: seq<Vec>, r: seq<Vec>, e1: seq<Vec>, e2: Vec, m: Vec,
                     k: nat, n: nat)
    requires SquareMatrix(A, k, n) && Vectors(s, k, n) && Vectors(e, k, n)
    requires Vectors(r, k, n) && Vectors(e1, k, n) && |e2| == |m| == n
    ensures Minus(CipherV(PublicT(A, s, e, k, n), r, e2, m, k, n), Dot(s, CipherU(A, r, e1, k, n), k, n, k))
         == Plus(m, Noise(s, e, r, e1, e2, k, n))
  {
    var As, Atr := MatVec(A, s, k, n), TransposeVec(A, r, k, n, k);
    DotCommutes(PublicT(A, s, e, k, n), r, k, n, k);
    DotDistributes(e, As, r, k, n, k);
    DotCommutes(r, e, k, n, k);
    DotCommutes(r, As, k, n, k);
    Adjoint(A, s, r, k, n, k);
    DotDistributes(e1, Atr, s, k, n, k);
    Regroup(e2, Dot(e, r, k, n, k), Dot(s, Atr, k, n, k), m, Dot(s, e1, k, n, k));
  }

  // ----- sizes

  lemma {:induction false} DotBound(xs: seq<Vec>, ys: seq<Vec>, k: nat, n: nat, j: nat, mx: nat, my: nat)
    requires Vectors(xs, k, n) && Vectors(ys, k, n) && j <= k
    requires forall i :: 0 <= i < k ==> Bounded(xs[i], mx) && Bounded(ys[i], my)
    ensures Bounded(Dot(xs, ys, k, n, j), j * (n * (mx * my)))
  {
    if j > 0 {
      DotBound(xs, ys, k, n, j - 1, mx, my);
      MulBound(xs[j - 1], ys[j - 1], mx, my);
      assert j * (n * (mx * my)) == (j - 1) * (n * (mx * my)) + n * (mx * my);
    }
  }

  /** Secrets bounded by eta1 and errors bounded by eta2 leave noise of at most
      n * k * eta1 * (eta1 + eta2) + eta2. */
  lemma NoiseBound(s: seq<Vec>, e: seq<Vec>, r: seq<Vec>, e1: seq<Vec>, e2: Vec, k: nat, n: nat,
                   eta1: nat, eta2: nat)
    requires Vectors(s, k, n) && Vectors(e, k, n) && Vectors(r, k, n) && Vectors(e1, k, n) && |e2| == n
    requires forall i :: 0 <= i < k ==> Bounded(s[i], eta1) && Bounded(e[i], eta1) && Bounded(r[i], eta1)
    requires forall i :: 0 <= i < k ==> Bounded(e1[i], eta2)
    requires Bounded(e2, eta2)
    ensures Bounded(Noise(s, e, r, e1, e2, k, n), n * k * eta1 * (eta1 + eta2) + eta2)
  {
    var x, z := Dot(e, r, k, n, k), Dot(s, e1, k, n, k);
    DotBound(e, r, k, n, k, eta1, eta1);
    DotBound(s, e1, k, n, k, eta1, eta2);
    NoiseFactors(k, n, eta1, eta2);
    SumBound(x, e2, z, k * (n * (eta1 * eta1)), eta2, k * (n * (eta1 * eta2)));
  }

  lemma NoiseFactors(k: nat, n: nat, eta1: nat, eta2: nat)
    ensures k * (n * (eta1 * eta1)) + eta2 + k * (n * (eta1 * eta2)) == n * k * eta1 * (eta1 + eta2) + eta2
  {
  }

  lemma SumBound(x: Vec, y: Vec, z: Vec, mx: int, my: int, mz: int)
    requires |x| == |y| == |z| && Bounded(x, mx) && Bounded(y, my) && Bounded(z, mz)
    ensures Bounded(Minus(Plus(x, y), z), mx + my + mz)
  {
  }
}
