/** The class `Polynomial` of evolution/post_quantum_crypto.py: coefficients modulo q, in the
    ring Z_q[X]/(X^n + 1).  Every operation is tied to the exact ring of `NegacyclicRing`
    through `Reduce`, which is shown to be a ring homomorphism.
 */
module Polynomials {
  import opened NegacyclicRing

  // ----- arithmetic modulo q

  lemma ModUnique(x: int, k: int, r: int, q: int)
    requires q >= 1 && x == q * k + r && 0 <= r < q
    ensures x % q == r
  {
    var d := k - x / q;
    assert q * d == q * k - q * (x / q) == x % q - r;
    MultipleIsFar(q, d);
  }

  lemma MultipleIsFar(q: int, d: int)
    requires q >= 1
    ensures d >= 1 ==> q * d >= q
    ensures d <= -1 ==> q * d <= -q
  {
  }

  lemma ModShift(x: int, d: int, q: int)
    requires q >= 1
    ensures (x + q * d) % q == x % q
  {
    assert q * (x / q + d) == q * (x / q) + q * d;
    ModUnique(x + q * d, x / q + d, x % q, q);
  }

  lemma ModAdd(x: int, y: int, q: int)
    requires q >= 1
    ensures (x % q + y) % q == (x + y) % q
  {
    ModShift(x % q + y, x / q, q);
    assert x + y == x % q + y + q * (x / q);
  }

  lemma ModSub(x: int, y: int, q: int)
    requires q >= 1
    ensures (x % q - y % q) % q == (x - y) % q
  {
    var dx, dy := x / q, y / q;
    assert x == q * dx + x % q && y == q * dy + y % q;
    assert q * (dx - dy) == q * dx - q * dy;
    ModShift(x % q - y % q, dx - dy, q);
  }

  function Reduce(v: Vec, q: int): (r: Vec)
    requires q >= 1
    ensures |r| == |v|
  {
    seq(|v|, i requires 0 <= i < |v| => v[i] % q)
  }

  lemma ReduceTwice(v: Vec, q: int)
    requires q >= 1
    ensures Reduce(Reduce(v, q), q) == Reduce(v, q)
  {
  }

  ghost predicate Canonical(p: Vec, n: nat, q: int) {
    |p| == n && forall i :: 0 <= i < n ==> 0 <= p[i] < q
  }

  lemma CanonicalIsReduced(p: Vec, n: nat, q: int)
    requires q >= 1 && |p| == n
    ensures Canonical(p, n, q) <==> Reduce(p, q) == p
  {
    forall i | 0 <= i < n ensures 0 <= p[i] < q <==> p[i] % q == p[i] {
      if 0 <= p[i] < q {
        ModUnique(p[i], 0, p[i], q);
      }
    }
    if Reduce(p, q) == p {
      assert forall i :: 0 <= i < n ==> Reduce(p, q)[i] == p[i] % q;
    }
  }

  /** The constructor: pad with zeros, cut to length n, reduce every coefficient. */
  function Polynomial(c: Vec, n: nat, q: int): (p: Vec)
    requires q >= 1
    ensures Canonical(p, n, q)
    ensures |c| == n ==> p == Reduce(c, q)
  {
    Reduce((c + Zero(n))[..n], q)
  }

  function Add(a: Vec, b: Vec, n: nat, q: int): (r: Vec)
    requires q >= 1 && |a| == |b| == n
    ensures Canonical(r, n, q) && r == Reduce(Plus(a, b), q)
  {
    var sum := seq(n, i requires 0 <= i < n => (a[i] + b[i]) % q);
    assert sum == Reduce(Plus(a, b), q);
    ReduceTwice(Plus(a, b), q);
    Polynomial(sum, n, q)
  }

  function Sub(a: Vec, b: Vec, n: nat, q: int): (r: Vec)
    requires q >= 1 && |a| == |b| == n
    ensures Canonical(r, n, q) && r == Reduce(Minus(a, b), q)
  {
    var difference := seq(n, i requires 0 <= i < n => (a[i] - b[i]) % q);
    assert difference == Reduce(Minus(a, b), q);
    ReduceTwice(Minus(a, b), q);
    Polynomial(difference, n, q)
  }

  /** What `__mul__` computes (see method `Multiply`). */
  function Times(a: Vec, b: Vec, q: int): (r: Vec)
    requires q >= 1
    ensures |r| == |b|
  {
    Reduce(Mul(a, b), q)
  }

  // ----- the convolution loop

  /** Coefficient m of the plain product, over the first i coefficients of a. */
  function Plain(a: Vec, b: Vec, i: nat, m: nat): int
    requires i <= |a| == |b|
  {
    if i == 0 then 0
    else Plain(a, b, i - 1, m) + if 0 <= m - (i - 1) < |b| then a[i - 1] * b[m - (i - 1)] else 0
  }

  /** Subtracting the upper half of the plain product gives the negacyclic one. */
  lemma {:induction false} FoldUpperHalf(a: Vec, b: Vec, i: nat, k: nat)
    requires i <= |a| == |b| && k < |b|
    ensures Plain(a, b, i, k) - Plain(a, b, i, k + |b|) == Convolution(a, b, i, k)
  {
    if i == 0 {
    } else {
      FoldUpperHalf(a, b, i - 1, k);
      var j := k - (i - 1);
      assert j < 0 ==> a[i - 1] * Wrapped(b, j) == -(a[i - 1] * b[j + |b|]);
    }
  }

  lemma FoldedCoefficient(a: Vec, b: Vec, q: int, k: nat)
    requires q >= 1 && k < |a| == |b|
    ensures (Plain(a, b, |a|, k) % q - Plain(a, b, |a|, k + |b|) % q) % q == Times(a, b, q)[k]
  {
    FoldUpperHalf(a, b, |a|, k);
    MulIsConvolution(a, b, |a|, k);
    ModSub(Plain(a, b, |a|, k), Plain(a, b, |a|, k + |b|), q);
  }

  /** The inner convolution loop: row i of the schoolbook product. */
  method AddRow(conv: array<int>, i: nat, c: int, b: Vec, q: int)
    requires q >= 1 && i + |b| <= conv.Length
    modifies conv
    ensures forall m :: 0 <= m < conv.Length ==>
              conv[m] == if i <= m < i + |b| then (old(conv[m]) + c * b[m - i]) % q else old(conv[m])
  {
    for j := 0 to |b|
      invariant forall m :: 0 <= m < conv.Length ==>
                  conv[m] == if i <= m < i + j then (old(conv[m]) + c * b[m - i]) % q else old(conv[m])
    {
      conv[i + j] := (conv[i + j] + c * b[j]) % q;
    }
  }

  lemma RowStep(a: Vec, b: Vec, i: nat, m: nat, q: int)
    requires q >= 1 && i < |a| == |b|
    ensures Plain(a, b, i + 1, m) % q
         == if i <= m < i + |b| then (Plain(a, b, i, m) % q + a[i] * b[m - i]) % q else Plain(a, b, i, m) % q
  {
    if i <= m < i + |b| {
      ModAdd(Plain(a, b, i, m), a[i] * b[m - i], q);
    }
  }

  /** The convolution loops of `Polynomial.__mul__`, accumulating modulo q. */
  method PlainProduct(a: Vec, b: Vec, n: nat, q: int) returns (c: seq<int>)
    requires q >= 1 && |a| == |b| == n
    ensures |c| == 2 * n
    ensures forall m :: 0 <= m < 2 * n ==> c[m] == Plain(a, b, n, m) % q
  {
    var conv := new int[2 * n](_ => 0);
    for i := 0 to n
      invariant forall m :: 0 <= m < 2 * n ==> conv[m] == Plain(a, b, i, m) % q
    {
      if a[i] != 0 {
        AddRow(conv, i, a[i], b, q);
      }
      forall m | 0 <= m < 2 * n ensures conv[m] == Plain(a, b, i + 1, m) % q {
        RowStep(a, b, i, m, q);
      }
    }
    c := conv[..];
  }

  /** The reduction loop of `Polynomial.__mul__`: X^n = -1 folds the upper half onto the lower. */
  method FoldUpper(conv: seq<int>, n: nat, q: int) returns (r: Vec)
    requires q >= 1 && |conv| == 2 * n
    ensures |r| == n && forall k :: 0 <= k < n ==> r[k] == (conv[k] - conv[k + n]) % q
  {
    var result := new int[n];
    for i := 0 to n
      invariant forall k :: 0 <= k < i ==> result[k] == (conv[k] - conv[k + n]) % q
    {
      result[i] := (conv[i] - conv[i + n]) % q;
    }
    r := result[..];
  }

  /** `Polynomial.__mul__`, ending in the constructor's own reduction. */
  method Multiply(a: Vec, b: Vec, n: nat, q: int) returns (r: Vec)
    requires q >= 1 && Canonical(a, n, q) && Canonical(b, n, q)
    ensures r == Times(a, b, q) && Canonical(r, n, q)
  {
    var conv := PlainProduct(a, b, n, q);
    var result := FoldUpper(conv, n, q);
    forall k | 0 <= k < n ensures result[k] == Times(a, b, q)[k] {
      FoldedCoefficient(a, b, q, k);
    }
    assert result == Times(a, b, q);
    ReduceTwice(Mul(a, b), q);
    r := Polynomial(result, n, q);
  }

  // ----- reduction is a homomorphism

  function Quotient(v: Vec, q: int): (r: Vec)
    requires q >= 1
    ensures |r| == |v|
  {
    seq(|v|, i requires 0 <= i < |v| => v[i] / q)
  }

  lemma Divide(v: Vec, q: int)
    requires q >= 1
    ensures v == Plus(Reduce(v, q), Scale(q, Quotient(v, q)))
  {
  }

  lemma ReduceShift(v: Vec, d: Vec, q: int)
    requires q >= 1 && |v| == |d|
    ensures Reduce(Plus(v, Scale(q, d)), q) == Reduce(v, q)
  {
    forall i | 0 <= i < |v| ensures (v[i] + q * d[i]) % q == v[i] % q {
      ModShift(v[i], d[i], q);
    }
  }

  lemma AddHomomorphic(a: Vec, b: Vec, q: int)
    requires q >= 1 && |a| == |b|
    ensures Add(Reduce(a, q), Reduce(b, q), |a|, q) == Reduce(Plus(a, b), q)
  {
    forall i | 0 <= i < |a| ensures (a[i] % q + b[i] % q) % q == (a[i] + b[i]) % q {
      ModAdd(a[i], b[i] % q, q);
      ModAdd(b[i], a[i], q);
    }
  }

  lemma SubHomomorphic(a: Vec, b: Vec, q: int)
    requires q >= 1 && |a| == |b|
    ensures Sub(Reduce(a, q), Reduce(b, q), |a|, q) == Reduce(Minus(a, b), q)
  {
    forall i | 0 <= i < |a| ensures (a[i] % q - b[i] % q) % q == (a[i] - b[i]) % q {
      ModSub(a[i], b[i], q);
    }
  }

  lemma ReduceRight(a: Vec, b: Vec, q: int)
    requires q >= 1 && |a| == |b|
    ensures Times(a, Reduce(b, q), q) == Times(a, b, q)
  {
    var r, d := Reduce(b, q), Quotient(b, q);
    Divide(b, q);
    AccPlus(a, r, Scale(q, d), |a|);
    AccScale(a, q, d, |a|);
    ReduceShift(Mul(a, r), Mul(a, d), q);
  }

  lemma TimesHomomorphic(a: Vec, b: Vec, q: int)
    requires q >= 1 && |a| == |b|
    ensures Times(Reduce(a, q), Reduce(b, q), q) == Times(a, b, q)
  {
    ReduceRight(Reduce(a, q), b, q);
    MulCommutes(Reduce(a, q), b);
    ReduceRight(b, a, q);
    MulCommutes(b, a);
  }

  // ----- the laws of the coded operations

  lemma TimesCommutes(a: Vec, b: Vec, n: nat, q: int)
    requires q >= 1 && Canonical(a, n, q) && Canonical(b, n, q)
    ensures Times(a, b, q) == Times(b, a, q)
  {
    MulCommutes(a, b);
  }

  lemma TimesAssociates(a: Vec, b: Vec, c: Vec, n: nat, q: int)
    requires q >= 1 && Canonical(a, n, q) && Canonical(b, n, q) && Canonical(c, n, q)
    ensures Times(Times(a, b, q), c, q) == Times(a, Times(b, c, q), q)
  {
    MulCommutes(Times(a, b, q), c);
    ReduceRight(c, Mul(a, b), q);
    MulCommutes(c, Mul(a, b));
    MulAssociates(a, b, c);
    ReduceRight(a, Mul(b, c), q);
  }

  lemma TimesDistributes(a: Vec, b: Vec, c: Vec, n: nat, q: int)
    requires q >= 1 && Canonical(a, n, q) && Canonical(b, n, q) && Canonical(c, n, q)
    ensures Times(a, Add(b, c, n, q), q) == Add(Times(a, b, q), Times(a, c, q), n, q)
    ensures Times(a, Sub(b, c, n, q), q) == Sub(Times(a, b, q), Times(a, c, q), n, q)
  {
    ReduceRight(a, Plus(b, c), q);
    ReduceRight(a, Minus(b, c), q);
    MulDistributes(a, b, c);
    AddHomomorphic(Mul(a, b), Mul(a, c), q);
    SubHomomorphic(Mul(a, b), Mul(a, c), q);
  }

  // ----- serialisation: two little-endian bytes a coefficient

  type Byte = x: int | 0 <= x < 256

  function ToBytes(p: Vec): (s: seq<Byte>)
    requires forall i :: 0 <= i < |p| ==> 0 <= p[i] < 65536
    ensures |s| == 2 * |p|
  {
    if p == [] then [] else ToBytes(p[..|p| - 1]) + [p[|p| - 1] % 256, p[|p| - 1] / 256]
  }

  function Word(lo: int, hi: int): int {
    lo + 256 * hi
  }

  function FromBytes(data: seq<Byte>, n: nat, q: int): (p: Vec)
    requires q >= 1 && |data| >= 2 * n
    ensures Canonical(p, n, q)
  {
    Polynomial(seq(n, i requires 0 <= i < n => Word(data[2 * i], data[2 * i + 1])), n, q)
  }

  /** Coefficient i takes the bytes 2i and 2i + 1, the low one first. */
  lemma {:induction false} BytesOfCoefficient(p: Vec, i: nat)
    requires forall j :: 0 <= j < |p| ==> 0 <= p[j] < 65536
    requires i < |p|
    ensures ToBytes(p)[2 * i] == p[i] % 256 && ToBytes(p)[2 * i + 1] == p[i] / 256
  {
    if i < |p| - 1 {
      BytesOfCoefficient(p[..|p| - 1], i);
    }
  }

  /** Coefficient i is read from the bytes 2i and 2i + 1, the low one first, modulo q. */
  lemma CoefficientOfBytes(data: seq<Byte>, n: nat, q: int, i: nat)
    requires q >= 1 && |data| >= 2 * n && i < n
    ensures FromBytes(data, n, q)[i] == (data[2 * i] + 256 * data[2 * i + 1]) % q
  {
    var words := seq(n, j requires 0 <= j < n => Word(data[2 * j], data[2 * j + 1]));
    assert FromBytes(data, n, q) == Polynomial(words, n, q);
    assert words[i] == Word(data[2 * i], data[2 * i + 1]);
  }

  lemma BytesRoundTrip(p: Vec, n: nat, q: int)
    requires 1 <= q <= 65536 && Canonical(p, n, q)
    ensures FromBytes(ToBytes(p), n, q) == p
  {
    var data := ToBytes(p);
    forall i | 0 <= i < n ensures Word(data[2 * i], data[2 * i + 1]) == p[i] {
      BytesOfCoefficient(p, i);
    }
    assert seq(n, i requires 0 <= i < n => Word(data[2 * i], data[2 * i + 1])) == p;
    CanonicalIsReduced(p, n, q);
  }
}
