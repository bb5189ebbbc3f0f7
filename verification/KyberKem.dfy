/** `KyberKEM` of evolution/post_quantum_crypto.py: key generation, encapsulation and
    decapsulation, with the hash, the matrix expansion and all random choices as inputs.
 */
module KyberKem {
  import opened NegacyclicRing
  import opened Polynomials
  import opened ModuleVectors
  import opened MessageBits

  type Bytes = seq<Byte>
  type Hash = Bytes -> Bytes

  datatype Params = Params(n: nat, k: nat, q: int, eta1: nat, eta2: nat) {
    /** A message has 256 bits, an index of the expanded matrix one byte, a serialised coefficient two. */
    ghost predicate Valid() {
      n <= 256 && k <= 256 && 1 <= q <= 65536
    }
  }

  const DEFAULT_PARAMS := Params(256, 2, 3329, 3, 2)

  datatype PublicKey = PublicKey(t: seq<Vec>, rho: Bytes)
  datatype PrivateKey = PrivateKey(s: seq<Vec>, publicKey: PublicKey, z: Bytes)
  datatype Ciphertext = Ciphertext(u: seq<Vec>, v: Vec)

  ghost predicate CanonicalVectors(xs: seq<Vec>, p: Params) {
    |xs| == p.k && forall i :: 0 <= i < p.k ==> Canonical(xs[i], p.n, p.q)
  }

  ghost predicate CanonicalMatrix(A: seq<seq<Vec>>, p: Params) {
    |A| == p.k && forall i :: 0 <= i < p.k ==> CanonicalVectors(A[i], p)
  }

  ghost function ReduceEach(xs: seq<Vec>, q: int): (r: seq<Vec>)
    requires q >= 1
    ensures |r| == |xs| && forall i :: 0 <= i < |xs| ==> r[i] == Reduce(xs[i], q)
  {
    seq(|xs|, i requires 0 <= i < |xs| => Reduce(xs[i], q))
  }

  // ----- centred binomial sampling

  /** The number of ones in the binary form of x, `bin(x).count('1')`. */
  function PopCount(x: nat): nat {
    if x == 0 then 0 else x % 2 + PopCount(x / 2)
  }

  /** The places of the ones of x below a width. */
  ghost function Ones(x: nat, width: nat): set<nat> {
    set t: nat | t < width && BitOf(x, t)
  }

  ghost function Shifted(s: set<nat>): set<nat> {
    set t | t in s :: t + 1
  }

  lemma ShiftedOne(s: set<nat>, t: nat)
    requires t in s
    ensures Shifted(s) == Shifted(s - {t}) + {t + 1} && t + 1 !in Shifted(s - {t})
  {
    assert t + 1 in Shifted(s);
    forall u | u in Shifted(s) ensures u in Shifted(s - {t}) + {t + 1} {
      if u != t + 1 {
        assert u - 1 in s - {t};
      }
    }
  }

  lemma {:induction false} ShiftedSize(s: set<nat>)
    ensures |Shifted(s)| == |s|
    decreases s
  {
    if s == {} {
      assert Shifted(s) == {};
    } else {
      var t :| t in s;
      ShiftedOne(s, t);
      ShiftedSize(s - {t});
    }
  }

  /** The ones of x are those of its half, one place further, and perhaps the lowest. */
  lemma OnesStep(x: nat, width: nat)
    requires width >= 1
    ensures Ones(x, width) == Shifted(Ones(x / 2, width - 1)) + (if x % 2 == 1 then {0} else {})
    ensures 0 !in Shifted(Ones(x / 2, width - 1))
  {
    var half := Ones(x / 2, width - 1);
    forall t: nat ensures t in Shifted(half) <==> t > 0 && t < width && BitOf(x, t) {
      if t > 0 {
        assert t - 1 in half <==> t < width && BitOf(x, t);
        if t - 1 in half {
          assert (t - 1) + 1 in Shifted(half);
        }
      }
    }
  }

  /** The count is the number of places that hold a one. */
  lemma {:induction false} PopCountExact(x: nat, width: nat)
    requires x < PowerOfTwo(width)
    ensures PopCount(x) == |Ones(x, width)|
  {
    if width == 0 {
      assert Ones(x, width) == {};
    } else {
      PopCountExact(x / 2, width - 1);
      ShiftedSize(Ones(x / 2, width - 1));
      OnesStep(x, width);
    }
  }

  lemma {:induction false} PopCountBound(x: nat, width: nat)
    requires x < PowerOfTwo(width)
    ensures PopCount(x) <= width
  {
    if x == 0 {
    } else {
      PopCountBound(x / 2, width - 1);
    }
  }

  function CbdValues(draws: seq<nat>, eta: nat): (v: Vec)
    ensures |v| == |draws|
  {
    seq(|draws|, i requires 0 <= i < |draws| => PopCount(draws[i]) - eta)
  }

  /** A draw is what `randbits(2 * eta)` can return. */
  ghost predicate Draws(draws: seq<nat>, eta: nat, n: nat) {
    |draws| == n && forall i :: 0 <= i < n ==> draws[i] < PowerOfTwo(2 * eta)
  }

  lemma CbdBound(draws: seq<nat>, eta: nat, n: nat)
    requires Draws(draws, eta, n)
    ensures Bounded(CbdValues(draws, eta), eta)
  {
    forall i | 0 <= i < n ensures PopCount(draws[i]) <= 2 * eta {
      PopCountBound(draws[i], 2 * eta);
    }
  }

  /** `sample_cbd`: each coefficient is the number of ones in its draw less eta, a small value, modulo q. */
  method SampleCbd(draws: seq<nat>, eta: nat, n: nat, q: int) returns (p: Vec)
    requires q >= 1 && Draws(draws, eta, n)
    ensures p == Reduce(CbdValues(draws, eta), q) && Bounded(CbdValues(draws, eta), eta)
    ensures |p| == n && forall i :: 0 <= i < n ==> p[i] == (|Ones(draws[i], 2 * eta)| - eta) % q
  {
    var coeffs: seq<int> := [];
    for i := 0 to n
      invariant |coeffs| == i
      invariant forall j :: 0 <= j < i ==> coeffs[j] == Reduce(CbdValues(draws, eta), q)[j]
    {
      coeffs := coeffs + [(PopCount(draws[i]) - eta) % q];
    }
    CbdBound(draws, eta, n);
    assert coeffs == Reduce(CbdValues(draws, eta), q);
    ReduceTwice(CbdValues(draws, eta), q);
    p := Polynomial(coeffs, n, q);
    forall i | 0 <= i < n ensures p[i] == (|Ones(draws[i], 2 * eta)| - eta) % q {
      PopCountExact(draws[i], 2 * eta);
    }
  }

  // ----- congruence modulo q

  ghost predicate Congruent(a: Vec, b: Vec, q: int)
    requires q >= 1
  {
    |a| == |b| && Reduce(a, q) == Reduce(b, q)
  }

  lemma CongruentPlus(a: Vec, a': Vec, b: Vec, b': Vec, q: int)
    requires q >= 1 && |a| == |b| && Congruent(a, a', q) && Congruent(b, b', q)
    ensures Congruent(Plus(a, b), Plus(a', b'), q)
    ensures Congruent(Minus(a, b), Minus(a', b'), q)
  {
    AddHomomorphic(a, b, q);
    AddHomomorphic(a', b', q);
    SubHomomorphic(a, b, q);
    SubHomomorphic(a', b', q);
  }

  lemma CongruentMul(a: Vec, a': Vec, b: Vec, b': Vec, q: int)
    requires q >= 1 && |a| == |b| && Congruent(a, a', q) && Congruent(b, b', q)
    ensures Congruent(Mul(a, b), Mul(a', b'), q)
  {
    TimesHomomorphic(a, b, q);
    TimesHomomorphic(a', b', q);
  }

  ghost predicate CongruentEach(xs: seq<Vec>, ys: seq<Vec>, q: int)
    requires q >= 1
  {
    |xs| == |ys| && forall i :: 0 <= i < |xs| ==> Congruent(xs[i], ys[i], q)
  }

  lemma CongruentStep(sum: Vec, sum': Vec, a: Vec, a': Vec, b: Vec, b': Vec, q: int)
    requires q >= 1 && |sum| == |a| == |b|
    requires Congruent(sum, sum', q) && Congruent(a, a', q) && Congruent(b, b', q)
    ensures Congruent(Plus(sum, Mul(a, b)), Plus(sum', Mul(a', b')), q)
  {
    CongruentMul(a, a', b, b', q);
    CongruentPlus(sum, sum', Mul(a, b), Mul(a', b'), q);
  }

  lemma CongruentVectors(xs: seq<Vec>, xs': seq<Vec>, k: nat, n: nat, q: int)
    requires q >= 1 && Vectors(xs, k, n) && CongruentEach(xs, xs', q)
    ensures Vectors(xs', k, n)
  {
    forall i | 0 <= i < k ensures |xs'[i]| == n {
      assert Congruent(xs[i], xs'[i], q);
    }
  }

  lemma {:induction false} CongruentDot(xs: seq<Vec>, xs': seq<Vec>, ys: seq<Vec>, ys': seq<Vec>,
                                        k: nat, n: nat, j: nat, q: int)
    requires q >= 1 && j <= k && Vectors(xs, k, n) && Vectors(ys, k, n)
    requires CongruentEach(xs, xs', q) && CongruentEach(ys, ys', q)
    ensures Vectors(xs', k, n) && Vectors(ys', k, n)
    ensures Congruent(Dot(xs, ys, k, n, j), Dot(xs', ys', k, n, j), q)
  {
    CongruentVectors(xs, xs', k, n, q);
    CongruentVectors(ys, ys', k, n, q);
    if j == 0 {
    } else {
      CongruentDot(xs, xs', ys, ys', k, n, j - 1, q);
      CongruentStep(Dot(xs, ys, k, n, j - 1), Dot(xs', ys', k, n, j - 1),
                    xs[j - 1], xs'[j - 1], ys[j - 1], ys'[j - 1], q);
    }
  }

  lemma ReducedIsCongruent(v: Vec, q: int)
    requires q >= 1
    ensures Congruent(v, Reduce(v, q), q)
  {
  }

  // ----- what the three operations compute

  ghost function EncodedMessage(m: Bytes, p: Params): (v: Vec)
    requires |m| == 32 && p.n <= 256 && p.q >= 1
    ensures |v| == p.n
  {
    seq(p.n, i requires 0 <= i < p.n => Encode(MessageBit(m, i), p.q))
  }

  ghost function KeygenT(A: seq<seq<Vec>>, s: seq<Vec>, e: seq<Vec>, p: Params): (t: seq<Vec>)
    requires p.Valid() && CanonicalMatrix(A, p) && CanonicalVectors(s, p) && CanonicalVectors(e, p)
    ensures CanonicalVectors(t, p)
  {
    ReduceEach(PublicT(A, s, e, p.k, p.n), p.q)
  }

  ghost function EncapsCiphertext(A: seq<seq<Vec>>, t: seq<Vec>, m: Bytes, r: seq<Vec>, e1: seq<Vec>, e2: Vec,
                                  p: Params): (ct: Ciphertext)
    requires p.Valid() && CanonicalMatrix(A, p) && CanonicalVectors(t, p) && |m| == 32
    requires CanonicalVectors(r, p) && CanonicalVectors(e1, p) && Canonical(e2, p.n, p.q)
    ensures CanonicalCiphertext(ct, p)
  {
    Ciphertext(ReduceEach(CipherU(A, r, e1, p.k, p.n), p.q),
               Reduce(CipherV(t, r, e2, EncodedMessage(m, p), p.k, p.n), p.q))
  }

  ghost predicate CanonicalCiphertext(ct: Ciphertext, p: Params) {
    CanonicalVectors(ct.u, p) && Canonical(ct.v, p.n, p.q)
  }

  ghost function DecapsPolynomial(ct: Ciphertext, s: seq<Vec>, p: Params): (v: Vec)
    requires p.Valid() && CanonicalCiphertext(ct, p) && CanonicalVectors(s, p)
    ensures Canonical(v, p.n, p.q)
  {
    Reduce(Minus(ct.v, Dot(s, ct.u, p.k, p.n, p.k)), p.q)
  }

  /** m is the message the threshold decoder reads from v. */
  ghost predicate DecodesTo(v: Vec, m: Bytes, p: Params)
    requires p.q >= 1 && Canonical(v, p.n, p.q)
  {
    |m| == 32 && forall i :: 0 <= i < 256 ==> (MessageBit(m, i) <==> i < p.n && DecodeBit(v[i], p.q))
  }

  // ----- correctness of decapsulation

  /** Whatever the matrix, v - s^T u is the encoded message plus the noise. */
  lemma DecapsSeesMessagePlusNoise(A: seq<seq<Vec>>, s: seq<Vec>, e: seq<Vec>, m: Bytes,
                                   r: seq<Vec>, e1: seq<Vec>, e2: Vec, p: Params)
    requires p.Valid() && CanonicalMatrix(A, p) && CanonicalVectors(s, p) && CanonicalVectors(e, p) && |m| == 32
    requires CanonicalVectors(r, p) && CanonicalVectors(e1, p) && Canonical(e2, p.n, p.q)
    ensures DecapsPolynomial(EncapsCiphertext(A, KeygenT(A, s, e, p), m, r, e1, e2, p), s, p)
         == Reduce(Plus(EncodedMessage(m, p), Noise(s, e, r, e1, e2, p.k, p.n)), p.q)
  {
    var k, n, q, mu := p.k, p.n, p.q, EncodedMessage(m, p);
    var T, U := PublicT(A, s, e, k, n), CipherU(A, r, e1, k, n);
    var t, u := ReduceEach(T, q), ReduceEach(U, q);
    ReducedEach(T, q);
    ReducedEach(U, q);
    SameEach(s, q);
    SameEach(r, q);
    CongruentDot(T, t, r, r, k, n, k, q);
    CongruentDot(U, u, s, s, k, n, k, q);
    DotCommutes(U, s, k, n, k);
    DotCommutes(u, s, k, n, k);
    CongruentPlus(e2, e2, Dot(T, r, k, n, k), Dot(t, r, k, n, k), q);
    CongruentPlus(Plus(e2, Dot(T, r, k, n, k)), Plus(e2, Dot(t, r, k, n, k)), mu, mu, q);
    var V, V' := CipherV(T, r, e2, mu, k, n), CipherV(t, r, e2, mu, k, n);
    ReducedIsCongruent(V', q);
    CongruentPlus(V, Reduce(V', q), Dot(s, U, k, n, k), Dot(s, u, k, n, k), q);
    Cancellation(A, s, e, r, e1, e2, mu, k, n);
  }

  lemma ReducedEach(xs: seq<Vec>, q: int)
    requires q >= 1
    ensures CongruentEach(xs, ReduceEach(xs, q), q)
  {
    forall i | 0 <= i < |xs| ensures Congruent(xs[i], ReduceEach(xs, q)[i], q) {
      ReducedIsCongruent(xs[i], q);
    }
  }

  lemma SameEach(xs: seq<Vec>, q: int)
    requires q >= 1
    ensures CongruentEach(xs, xs, q)
  {
  }

  /** Every bit of the message survives the noise it meets, and no bit lies beyond the
      n coefficients that carry the message. */
  ghost predicate MessageSurvives(m: Bytes, noise: Vec, p: Params)
    requires |m| == 32 && p.q >= 1 && |noise| == p.n
  {
    && (forall i :: 0 <= i < 256 && i < p.n ==> Survives(MessageBit(m, i), Centred(noise[i], p.q), p.q))
    && (forall i :: p.n <= i < 256 ==> !MessageBit(m, i))
  }

  /** Decapsulation recovers the encapsulated message exactly when that message survives the
      noise e^T r + e2 - s^T e1; the matrix plays no part. */
  lemma DecapsRecoversExactly(A: seq<seq<Vec>>, s: seq<Vec>, e: seq<Vec>, m: Bytes,
                              r: seq<Vec>, e1: seq<Vec>, e2: Vec, m': Bytes, p: Params)
    requires p.Valid() && CanonicalMatrix(A, p) && CanonicalVectors(s, p) && CanonicalVectors(e, p) && |m| == 32
    requires CanonicalVectors(r, p) && CanonicalVectors(e1, p) && Canonical(e2, p.n, p.q)
    requires DecodesTo(DecapsPolynomial(EncapsCiphertext(A, KeygenT(A, s, e, p), m, r, e1, e2, p), s, p), m', p)
    ensures m' == m <==> MessageSurvives(m, Noise(s, e, r, e1, e2, p.k, p.n), p)
  {
    DecapsSeesMessagePlusNoise(A, s, e, m, r, e1, e2, p);
    DecodesExactly(m, Noise(s, e, r, e1, e2, p.k, p.n), m', p);
  }

  /** The threshold decoder reads m from m plus noise exactly when m survives the noise. */
  lemma DecodesExactly(m: Bytes, noise: Vec, m': Bytes, p: Params)
    requires p.Valid() && |m| == 32 && |noise| == p.n
    requires Canonical(Reduce(Plus(EncodedMessage(m, p), noise), p.q), p.n, p.q)
    requires DecodesTo(Reduce(Plus(EncodedMessage(m, p), noise), p.q), m', p)
    ensures m' == m <==> MessageSurvives(m, noise, p)
  {
    var v := Reduce(Plus(EncodedMessage(m, p), noise), p.q);
    forall i | 0 <= i < p.n
      ensures DecodeBit(v[i], p.q) == MessageBit(m, i)
         <==> Survives(MessageBit(m, i), Centred(noise[i], p.q), p.q)
    {
      DecodeExact(MessageBit(m, i), noise[i], p.q);
    }
    if MessageSurvives(m, noise, p) {
      SameMessage(m, m');
    }
  }

  /** The noise bound of a parameter set. */
  function NoiseLimit(p: Params): nat {
    p.n * p.k * p.eta1 * (p.eta1 + p.eta2) + p.eta2
  }

  /** Small secrets and errors, given by the integers of which they are the residues. */
  ghost predicate SmallResidues(xs: seq<Vec>, zs: seq<Vec>, eta: nat, p: Params)
    requires p.q >= 1
  {
    && Vectors(zs, p.k, p.n) && xs == ReduceEach(zs, p.q)
    && forall i :: 0 <= i < p.k ==> Bounded(zs[i], eta)
  }

  lemma NoiseIsCongruent(s: seq<Vec>, zs: seq<Vec>, e: seq<Vec>, ze: seq<Vec>, r: seq<Vec>, zr: seq<Vec>,
                         e1: seq<Vec>, ze1: seq<Vec>, e2: Vec, ze2: Vec, k: nat, n: nat, q: int)
    requires q >= 1 && Vectors(zs, k, n) && Vectors(ze, k, n) && Vectors(zr, k, n) && Vectors(ze1, k, n)
    requires |ze2| == n && Congruent(ze2, e2, q) && CongruentEach(zs, s, q) && CongruentEach(ze, e, q)
    requires CongruentEach(zr, r, q) && CongruentEach(ze1, e1, q)
    ensures Vectors(s, k, n) && Vectors(e, k, n) && Vectors(r, k, n) && Vectors(e1, k, n)
    ensures Congruent(Noise(zs, ze, zr, ze1, ze2, k, n), Noise(s, e, r, e1, e2, k, n), q)
  {
    CongruentDot(ze, e, zr, r, k, n, k, q);
    CongruentDot(zs, s, ze1, e1, k, n, k, q);
    CongruentPlus(Dot(ze, zr, k, n, k), Dot(e, r, k, n, k), ze2, e2, q);
    CongruentPlus(Plus(Dot(ze, zr, k, n, k), ze2), Plus(Dot(e, r, k, n, k), e2),
                  Dot(zs, ze1, k, n, k), Dot(s, e1, k, n, k), q);
  }

  /** The integers behind the secrets and errors: their noise is the noise of the residues. */
  lemma ResiduesShareNoise(s: seq<Vec>, zs: seq<Vec>, e: seq<Vec>, ze: seq<Vec>, r: seq<Vec>, zr: seq<Vec>,
                           e1: seq<Vec>, ze1: seq<Vec>, e2: Vec, ze2: Vec, k: nat, n: nat, q: int)
    requires q >= 1 && Vectors(zs, k, n) && Vectors(ze, k, n) && Vectors(zr, k, n) && Vectors(ze1, k, n)
    requires s == ReduceEach(zs, q) && e == ReduceEach(ze, q) && r == ReduceEach(zr, q) && e1 == ReduceEach(ze1, q)
    requires |ze2| == n && e2 == Reduce(ze2, q)
    ensures Vectors(s, k, n) && Vectors(e, k, n) && Vectors(r, k, n) && Vectors(e1, k, n)
    ensures Congruent(Noise(zs, ze, zr, ze1, ze2, k, n), Noise(s, e, r, e1, e2, k, n), q)
  {
    ReducedEach(zs, q);
    ReducedEach(ze, q);
    ReducedEach(zr, q);
    ReducedEach(ze1, q);
    ReducedIsCongruent(ze2, q);
    NoiseIsCongruent(s, zs, e, ze, r, zr, e1, ze1, e2, ze2, k, n, q);
  }

  lemma NoiseWithinLimit(s: seq<Vec>, e: seq<Vec>, r: seq<Vec>, e1: seq<Vec>, e2: Vec, p: Params)
    requires Vectors(s, p.k, p.n) && Vectors(e, p.k, p.n) && Vectors(r, p.k, p.n) && Vectors(e1, p.k, p.n)
    requires |e2| == p.n && Bounded(e2, p.eta2)
    requires forall i :: 0 <= i < p.k ==> Bounded(s[i], p.eta1) && Bounded(e[i], p.eta1) && Bounded(r[i], p.eta1)
    requires forall i :: 0 <= i < p.k ==> Bounded(e1[i], p.eta2)
    ensures Bounded(Noise(s, e, r, e1, e2, p.k, p.n), NoiseLimit(p))
  {
    NoiseBound(s, e, r, e1, e2, p.k, p.n, p.eta1, p.eta2);
  }

  /** For n = 256 and a parameter set whose noise limit is below a quarter of q, every message
      survives every choice of centred binomial secrets and errors. */
  lemma SmallParametersAlwaysRecover(s: seq<Vec>, zs: seq<Vec>, e: seq<Vec>, ze: seq<Vec>, m: Bytes,
                                     r: seq<Vec>, zr: seq<Vec>, e1: seq<Vec>, ze1: seq<Vec>, e2: Vec, ze2: Vec,
                                     p: Params)
    requires p.Valid() && p.n == 256 && 2 * NoiseLimit(p) < p.q / 2 && |m| == 32
    requires SmallResidues(s, zs, p.eta1, p) && SmallResidues(e, ze, p.eta1, p) && SmallResidues(r, zr, p.eta1, p)
    requires SmallResidues(e1, ze1, p.eta2, p)
    requires |ze2| == p.n && Bounded(ze2, p.eta2) && e2 == Reduce(ze2, p.q)
    ensures MessageSurvives(m, Noise(s, e, r, e1, e2, p.k, p.n), p)
  {
    var k, n := p.k, p.n;
    ResiduesShareNoise(s, zs, e, ze, r, zr, e1, ze1, e2, ze2, k, n, p.q);
    var small, noise := Noise(zs, ze, zr, ze1, ze2, k, n), Noise(s, e, r, e1, e2, k, n);
    NoiseWithinLimit(zs, ze, zr, ze1, ze2, p);
    SmallNoiseMeansSurvival(m, small, noise, p);
  }

  lemma SmallNoiseMeansSurvival(m: Bytes, small: Vec, noise: Vec, p: Params)
    requires |m| == 32 && p.q >= 1 && p.n == 256 == |small| && Congruent(small, noise, p.q)
    requires Bounded(small, NoiseLimit(p)) && 2 * NoiseLimit(p) < p.q / 2
    ensures MessageSurvives(m, noise, p)
  {
    var limit := NoiseLimit(p);
    forall i | 0 <= i < 256 ensures Survives(MessageBit(m, i), Centred(noise[i], p.q), p.q) {
      assert -limit <= small[i] <= limit;
      assert Reduce(small, p.q)[i] == Reduce(noise, p.q)[i];
      SmallNoiseSurvives(MessageBit(m, i), small[i], p.q);
    }
  }

  // ----- the default parameter set is outside that guarantee

  lemma {:induction false} ConstantConvolution(c: int, n: nat, i: nat)
    requires i <= n && n >= 1
    ensures Convolution(Constant(c, n), Constant(c, n), i, n - 1) == i * (c * c)
  {
    if i == 0 {
    } else {
      ConstantConvolution(c, n, i - 1);
      assert Wrapped(Constant(c, n), n - 1 - (i - 1)) == c;
      assert i * (c * c) == (i - 1) * (c * c) + c * c;
    }
  }

  ghost function Constant(c: int, n: nat): (v: Vec)
    ensures |v| == n
  {
    seq(n, _ => c)
  }

  /** With the default parameters some admissible secrets and errors lose a bit of every message. */
  lemma DefaultParametersCanFail(m: Bytes) returns (s: seq<Vec>, e: seq<Vec>, r: seq<Vec>, e1: seq<Vec>, e2: Vec)
    requires |m| == 32
    ensures Vectors(s, 2, 256) && Vectors(e, 2, 256) && Vectors(r, 2, 256) && Vectors(e1, 2, 256) && |e2| == 256
    ensures forall i :: 0 <= i < 2 ==> Bounded(s[i], 3) && Bounded(e[i], 3) && Bounded(r[i], 3)
    ensures forall i :: 0 <= i < 2 ==> Bounded(e1[i], 2)
    ensures Bounded(e2, 2)
    ensures !MessageSurvives(m, Noise(s, e, r, e1, e2, 2, 256), DEFAULT_PARAMS)
  {
    var z, c := Zero(256), Constant(3, 256);
    s, e, r, e1, e2 := [z, z], [c, z], [c, z], [z, z], z;
    ConstantNoise(3, 256);
    assert Centred(2304, 3329) == -1025;
  }

  lemma ConstantNoise(a: int, n: nat)
    requires n >= 1
    ensures var z, c := Zero(n), Constant(a, n);
            Noise([z, z], [c, z], [c, z], [z, z], z, 2, n)[n - 1] == n * (a * a)
  {
    var z, c := Zero(n), Constant(a, n);
    DotOfFirst(c, z, n);
    DotOfFirst(z, z, n);
    ProductWithZero(z, n);
    SquareOfConstant(a, c, n);
  }

  lemma SquareOfConstant(a: int, c: Vec, n: nat)
    requires n >= 1 && c == Constant(a, n)
    ensures Mul(c, c)[n - 1] == n * (a * a)
  {
    ConstantConvolution(a, n, n);
    MulIsConvolution(c, c, n, n - 1);
  }

  lemma DotOfFirst(a: Vec, z: Vec, n: nat)
    requires |a| == n && z == Zero(n)
    ensures Dot([a, z], [a, z], 2, n, 2) == Mul(a, a)
  {
    ProductWithZero(z, n);
    var x := Mul(a, a);
    assert Dot([a, z], [a, z], 2, n, 1) == Plus(z, x) == x;
    assert Plus(x, z) == x;
  }

  lemma ProductWithZero(z: Vec, n: nat)
    requires z == Zero(n)
    ensures Mul(z, z) == z
  {
    ZeroScale(z);
    AccScale(z, 0, z, n);
    ZeroScale(Mul(z, z));
  }
}
