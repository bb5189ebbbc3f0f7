/** The coded key encapsulation of evolution/post_quantum_crypto.py as methods with the source's
    accumulation loops, and the hybrid exchange built on it.
 */
module HybridExchange {
  import opened NegacyclicRing
  import opened Polynomials
  import opened ModuleVectors
  import opened MessageBits
  import opened KyberKem

  /** start plus (or minus) the first j products, modulo q. */
  ghost function Partial(start: Vec, xs: seq<Vec>, ys: seq<Vec>, p: Params, j: nat, plus: bool): (r: Vec)
    requires p.q >= 1 && Vectors(xs, p.k, p.n) && Vectors(ys, p.k, p.n) && |start| == p.n && j <= p.k
    ensures Canonical(r, p.n, p.q)
  {
    var sum := Dot(xs, ys, p.k, p.n, j);
    Reduce(if plus then Plus(start, sum) else Minus(start, sum), p.q)
  }

  lemma PartialStep(start: Vec, xs: seq<Vec>, ys: seq<Vec>, p: Params, j: nat)
    requires p.q >= 1 && Vectors(xs, p.k, p.n) && Vectors(ys, p.k, p.n) && |start| == p.n && j < p.k
    ensures Partial(start, xs, ys, p, j + 1, true)
         == Add(Partial(start, xs, ys, p, j, true), Times(xs[j], ys[j], p.q), p.n, p.q)
    ensures Partial(start, xs, ys, p, j + 1, false)
         == Sub(Partial(start, xs, ys, p, j, false), Times(xs[j], ys[j], p.q), p.n, p.q)
  {
    var sum, term := Dot(xs, ys, p.k, p.n, j), Mul(xs[j], ys[j]);
    AddHomomorphic(Plus(start, sum), term, p.q);
    assert Plus(Plus(start, sum), term) == Plus(start, Plus(sum, term));
    SubHomomorphic(Minus(start, sum), term, p.q);
    assert Minus(Minus(start, sum), term) == Minus(start, Plus(sum, term));
  }

  lemma PartialStart(start: Vec, xs: seq<Vec>, ys: seq<Vec>, p: Params, plus: bool)
    requires p.q >= 1 && Vectors(xs, p.k, p.n) && Vectors(ys, p.k, p.n) && Canonical(start, p.n, p.q)
    ensures Partial(start, xs, ys, p, 0, plus) == start
  {
  }

  /** `acc + x * y`. */
  method PlusProduct(acc: Vec, x: Vec, y: Vec, p: Params) returns (r: Vec)
    requires p.q >= 1 && |acc| == p.n && Canonical(x, p.n, p.q) && Canonical(y, p.n, p.q)
    ensures r == Add(acc, Times(x, y, p.q), p.n, p.q)
  {
    var product := Multiply(x, y, p.n, p.q);
    r := Add(acc, product, p.n, p.q);
  }

  /** `acc - x * y`. */
  method MinusProduct(acc: Vec, x: Vec, y: Vec, p: Params) returns (r: Vec)
    requires p.q >= 1 && |acc| == p.n && Canonical(x, p.n, p.q) && Canonical(y, p.n, p.q)
    ensures r == Sub(acc, Times(x, y, p.q), p.n, p.q)
  {
    var product := Multiply(x, y, p.n, p.q);
    r := Sub(acc, product, p.n, p.q);
  }

  method AddNext(acc: Vec, ghost start: Vec, xs: seq<Vec>, ys: seq<Vec>, p: Params, j: nat) returns (next: Vec)
    requires p.q >= 1 && |start| == p.n && CanonicalVectors(xs, p) && CanonicalVectors(ys, p) && j < p.k
    requires acc == Partial(start, xs, ys, p, j, true)
    ensures next == Partial(start, xs, ys, p, j + 1, true)
  {
    PartialStep(start, xs, ys, p, j);
    next := PlusProduct(acc, xs[j], ys[j], p);
  }

  method SubtractNext(acc: Vec, ghost start: Vec, xs: seq<Vec>, ys: seq<Vec>, p: Params, j: nat) returns (next: Vec)
    requires p.q >= 1 && |start| == p.n && CanonicalVectors(xs, p) && CanonicalVectors(ys, p) && j < p.k
    requires acc == Partial(start, xs, ys, p, j, false)
    ensures next == Partial(start, xs, ys, p, j + 1, false)
  {
    PartialStep(start, xs, ys, p, j);
    next := MinusProduct(acc, xs[j], ys[j], p);
  }

  /** The loop `acc = acc + xs[j] * ys[j]`, from a given start. */
  method AccumulateProducts(start: Vec, xs: seq<Vec>, ys: seq<Vec>, p: Params) returns (acc: Vec)
    requires p.q >= 1 && Canonical(start, p.n, p.q) && CanonicalVectors(xs, p) && CanonicalVectors(ys, p)
    ensures acc == Reduce(Plus(start, Dot(xs, ys, p.k, p.n, p.k)), p.q)
  {
    acc := start;
    PartialStart(start, xs, ys, p, true);
    for j := 0 to p.k
      invariant acc == Partial(start, xs, ys, p, j, true)
    {
      acc := AddNext(acc, start, xs, ys, p, j);
    }
  }

  /** The loop `acc = acc - xs[j] * ys[j]` of `decaps`. */
  method SubtractProducts(start: Vec, xs: seq<Vec>, ys: seq<Vec>, p: Params) returns (acc: Vec)
    requires p.q >= 1 && Canonical(start, p.n, p.q) && CanonicalVectors(xs, p) && CanonicalVectors(ys, p)
    ensures acc == Reduce(Minus(start, Dot(xs, ys, p.k, p.n, p.k)), p.q)
  {
    acc := start;
    PartialStart(start, xs, ys, p, false);
    for j := 0 to p.k
      invariant acc == Partial(start, xs, ys, p, j, false)
    {
      acc := SubtractNext(acc, start, xs, ys, p, j);
    }
  }

  /** `keygen`: the public key is t = A s + e for the matrix expanded from rho. */
  method Keygen(expand: Bytes -> seq<seq<Vec>>, rho: Bytes, z: Bytes, s: seq<Vec>, e: seq<Vec>, p: Params)
    returns (pk: PublicKey, sk: PrivateKey)
    requires p.Valid() && CanonicalMatrix(expand(rho), p) && CanonicalVectors(s, p) && CanonicalVectors(e, p)
    ensures pk == PublicKey(KeygenT(expand(rho), s, e, p), rho)
    ensures sk == PrivateKey(s, pk, z)
  {
    var A := expand(rho);
    var t: seq<Vec> := [];
    for i := 0 to p.k
      invariant |t| == i
      invariant forall x :: 0 <= x < i ==> t[x] == KeygenT(A, s, e, p)[x]
    {
      var ti := AccumulateProducts(e[i], A[i], s, p);
      t := t + [ti];
    }
    assert t == KeygenT(A, s, e, p);
    pk := PublicKey(t, rho);
    sk := PrivateKey(s, pk, z);
  }

  function VectorBytes(xs: seq<Vec>): Bytes
    requires forall i, j :: 0 <= i < |xs| && 0 <= j < |xs[i]| ==> 0 <= xs[i][j] < 65536
  {
    if xs == [] then [] else VectorBytes(xs[..|xs| - 1]) + ToBytes(xs[|xs| - 1])
  }

  function CiphertextBytes(ct: Ciphertext, p: Params): Bytes
    requires p.Valid() && CanonicalCiphertext(ct, p)
  {
    VectorBytes(ct.u) + ToBytes(ct.v)
  }

  /** What the shared key is the hash of, m || ct. */
  function KeyInput(m: Bytes, ct: Ciphertext, p: Params): Bytes
    requires p.Valid() && CanonicalCiphertext(ct, p)
  {
    m + CiphertextBytes(ct, p)
  }

  lemma KeyInputParts(m: Bytes, ct: Ciphertext, p: Params)
    requires p.Valid() && CanonicalCiphertext(ct, p)
    ensures KeyInput(m, ct, p) == m + VectorBytes(ct.u) + ToBytes(ct.v)
  {
  }

  function SharedKey(hash: Hash, m: Bytes, ct: Ciphertext, p: Params): Bytes
    requires p.Valid() && CanonicalCiphertext(ct, p)
  {
    hash(KeyInput(m, ct, p))
  }

  /** `encaps` for given message and randomness. */
  method Encaps(expand: Bytes -> seq<seq<Vec>>, hash: Hash, pk: PublicKey, m: Bytes,
                r: seq<Vec>, e1: seq<Vec>, e2: Vec, p: Params)
    returns (ct: Ciphertext, key: Bytes)
    requires p.Valid() && CanonicalMatrix(expand(pk.rho), p) && CanonicalVectors(pk.t, p) && |m| == 32
    requires CanonicalVectors(r, p) && CanonicalVectors(e1, p) && Canonical(e2, p.n, p.q)
    ensures ct == EncapsCiphertext(expand(pk.rho), pk.t, m, r, e1, e2, p)
    ensures key == SharedKey(hash, m, ct, p) == hash(m + VectorBytes(ct.u) + ToBytes(ct.v))
  {
    var A := expand(pk.rho);
    ghost var expected := EncapsCiphertext(A, pk.t, m, r, e1, e2, p);
    var u: seq<Vec> := [];
    for j := 0 to p.k
      invariant |u| == j
      invariant forall x :: 0 <= x < j ==> u[x] == expected.u[x]
    {
      var uj := AccumulateProducts(e1[j], Column(A, j), r, p);
      u := u + [uj];
    }
    assert u == expected.u;
    var v0 := AccumulateProducts(e2, pk.t, r, p);
    var half := p.q / 2;
    var message := seq(p.n, i requires 0 <= i < p.n => if MessageBit(m, i) then half else 0);
    assert message == EncodedMessage(m, p);
    AddHomomorphic(Plus(e2, Dot(pk.t, r, p.k, p.n, p.k)), message, p.q);
    var v := Add(v0, Polynomial(message, p.n, p.q), p.n, p.q);
    ct := Ciphertext(u, v);
    KeyInputParts(m, ct, p);
    key := SharedKey(hash, m, ct, p);
  }

  /** `decaps`: the key is derived from whatever message the decoder reads. */
  method Decaps(hash: Hash, ct: Ciphertext, sk: PrivateKey, p: Params) returns (key: Bytes)
    requires p.Valid() && CanonicalCiphertext(ct, p) && CanonicalVectors(sk.s, p)
    ensures exists m :: DecodesTo(DecapsPolynomial(ct, sk.s, p), m, p) && key == SharedKey(hash, m, ct, p)
                     && key == hash(m + VectorBytes(ct.u) + ToBytes(ct.v))
  {
    var mPrime := SubtractProducts(ct.v, sk.s, ct.u, p);
    var m := DecodeMessage(mPrime, p.n, p.q);
    KeyInputParts(m, ct, p);
    key := SharedKey(hash, m, ct, p);
    assert DecodesTo(DecapsPolynomial(ct, sk.s, p), m, p);
  }

  // ----- the hybrid exchange

  datatype Initiator = Initiator(classicPk: Bytes, pk: PublicKey, sk: PrivateKey)
  datatype Responder = Responder(classicPk: Bytes, ct: Ciphertext, sharedKey: Bytes)

  function Ascii(text: string): (s: Bytes)
    ensures |s| == |text| && forall i :: 0 <= i < |text| && text[i] as int < 256 ==> s[i] == text[i] as int
  {
    seq(|text|, i requires 0 <= i < |text| => text[i] as int % 256)
  }

  /** What the mixed key is the hash of. */
  function MixedInput(hash: Hash, initiatorPk: Bytes, responderPk: Bytes, pqcShared: Bytes): Bytes {
    hash(initiatorPk + responderPk + Ascii("ecdh_shared")) + pqcShared + Ascii("hybrid_key_exchange_v1")
  }

  function MixedKey(hash: Hash, initiatorPk: Bytes, responderPk: Bytes, pqcShared: Bytes): Bytes {
    hash(MixedInput(hash, initiatorPk, responderPk, pqcShared))
  }

  method Respond(expand: Bytes -> seq<seq<Vec>>, hash: Hash, init: Initiator, responderPrivate: Bytes, m: Bytes,
                 r: seq<Vec>, e1: seq<Vec>, e2: Vec, p: Params) returns (resp: Responder)
    requires p.Valid() && CanonicalMatrix(expand(init.pk.rho), p) && CanonicalVectors(init.pk.t, p) && |m| == 32
    requires CanonicalVectors(r, p) && CanonicalVectors(e1, p) && Canonical(e2, p.n, p.q)
    ensures resp.ct == EncapsCiphertext(expand(init.pk.rho), init.pk.t, m, r, e1, e2, p)
    ensures resp.classicPk == hash(responderPrivate)
    ensures resp.sharedKey == MixedKey(hash, init.classicPk, resp.classicPk, SharedKey(hash, m, resp.ct, p))
    ensures resp.sharedKey == hash(hash(init.classicPk + resp.classicPk + Ascii("ecdh_shared"))
                                     + hash(m + VectorBytes(resp.ct.u) + ToBytes(resp.ct.v))
                                     + Ascii("hybrid_key_exchange_v1"))
  {
    var classicPk := hash(responderPrivate);
    var ct, pqcShared := Encaps(expand, hash, init.pk, m, r, e1, e2, p);
    resp := Responder(classicPk, ct, MixedKey(hash, init.classicPk, classicPk, pqcShared));
  }

  method Finalize(hash: Hash, init: Initiator, resp: Responder, p: Params) returns (key: Bytes)
    requires p.Valid() && CanonicalCiphertext(resp.ct, p) && CanonicalVectors(init.sk.s, p)
    ensures exists m :: DecodesTo(DecapsPolynomial(resp.ct, init.sk.s, p), m, p)
                     && key == MixedKey(hash, init.classicPk, resp.classicPk, SharedKey(hash, m, resp.ct, p))
                     && key == hash(hash(init.classicPk + resp.classicPk + Ascii("ecdh_shared"))
                                      + hash(m + VectorBytes(resp.ct.u) + ToBytes(resp.ct.v))
                                      + Ascii("hybrid_key_exchange_v1"))
  {
    var pqcShared := Decaps(hash, resp.ct, init.sk, p);
    key := MixedKey(hash, init.classicPk, resp.classicPk, pqcShared);
  }

  ghost predicate Collision(hash: Hash, x: Bytes, y: Bytes) {
    x != y && hash(x) == hash(y)
  }

  /** The two hash inputs that differ when the messages do. */
  ghost predicate KeysCollide(hash: Hash, a: Bytes, b: Bytes, m: Bytes, m': Bytes, ct: Ciphertext, p: Params)
    requires p.Valid() && CanonicalCiphertext(ct, p)
  {
    || Collision(hash, KeyInput(m, ct, p), KeyInput(m', ct, p))
    || Collision(hash, MixedInput(hash, a, b, SharedKey(hash, m, ct, p)),
                 MixedInput(hash, a, b, SharedKey(hash, m', ct, p)))
  }

  lemma MixedInputDetermines(hash: Hash, a: Bytes, b: Bytes, k: Bytes, k': Bytes)
    requires MixedInput(hash, a, b, k) == MixedInput(hash, a, b, k')
    ensures k == k'
  {
    var c, tail := hash(a + b + Ascii("ecdh_shared")), Ascii("hybrid_key_exchange_v1");
    assert k == (c + k + tail)[|c|..|c| + |k|];
    assert k' == (c + k' + tail)[|c|..|c| + |k'|];
  }

  lemma TailsAgree(a: Bytes, b: Bytes, a': Bytes, b': Bytes)
    requires |a| == |a'| && a + b == a' + b'
    ensures a == a' && b == b'
  {
    assert a == (a + b)[..|a|] && a' == (a' + b')[..|a'|];
    assert b == (a + b)[|a|..] && b' == (a' + b')[|a'|..];
  }

  lemma LastBytes(front: Bytes, x: Vec, front': Bytes, x': Vec, p: Params)
    requires p.Valid() && Canonical(x, p.n, p.q) && Canonical(x', p.n, p.q)
    requires |front| == |front'| && front + ToBytes(x) == front' + ToBytes(x')
    ensures front == front' && x == x'
  {
    TailsAgree(front, ToBytes(x), front', ToBytes(x'));
    BytesRoundTrip(x, p.n, p.q);
    BytesRoundTrip(x', p.n, p.q);
  }

  ghost predicate InRange(xs: seq<Vec>, p: Params) {
    && (forall i :: 0 <= i < |xs| ==> |xs[i]| == p.n)
    && (forall i, j :: 0 <= i < |xs| && 0 <= j < |xs[i]| ==> 0 <= xs[i][j] < p.q)
  }

  lemma VectorBytesAppend(xs: seq<Vec>, front: seq<Vec>, x: Vec, p: Params)
    requires p.Valid() && InRange(xs, p) && xs == front + [x]
    ensures InRange(front, p) && Canonical(x, p.n, p.q) && VectorBytes(xs) == VectorBytes(front) + ToBytes(x)
  {
    assert front == xs[..|xs| - 1] && x == xs[|xs| - 1];
  }

  lemma BytesDetermineStep(xs: seq<Vec>, front: seq<Vec>, x: Vec, xs': seq<Vec>, front': seq<Vec>, x': Vec, p: Params)
    requires p.Valid() && InRange(xs, p) && InRange(xs', p) && xs == front + [x] && xs' == front' + [x']
    requires InRange(front, p) && InRange(front', p)
    requires |VectorBytes(front)| == |VectorBytes(front')|
    requires VectorBytes(front) == VectorBytes(front') ==> front == front'
    ensures |VectorBytes(xs)| == |VectorBytes(xs')|
    ensures VectorBytes(xs) == VectorBytes(xs') ==> xs == xs'
  {
    VectorBytesAppend(xs, front, x, p);
    VectorBytesAppend(xs', front', x', p);
    if VectorBytes(xs) == VectorBytes(xs') {
      LastBytes(VectorBytes(front), x, VectorBytes(front'), x', p);
    }
  }

  lemma {:induction false} BytesDetermine(xs: seq<Vec>, xs': seq<Vec>, p: Params)
    requires p.Valid() && |xs| == |xs'| && InRange(xs, p) && InRange(xs', p)
    ensures |VectorBytes(xs)| == |VectorBytes(xs')|
    ensures VectorBytes(xs) == VectorBytes(xs') ==> xs == xs'
  {
    if xs == [] {
    } else {
      var last := |xs| - 1;
      assert xs == xs[..last] + [xs[last]] && xs' == xs'[..last] + [xs'[last]];
      BytesDetermine(xs[..last], xs'[..last], p);
      BytesDetermineStep(xs, xs[..last], xs[last], xs', xs'[..last], xs'[last], p);
    }
  }

  lemma InRangeJoin(xs: seq<Vec>, ys: seq<Vec>, p: Params)
    requires InRange(xs, p) && InRange(ys, p)
    ensures InRange(xs + ys, p)
  {
  }

  lemma Regroup<T>(a: seq<T>, b: seq<T>, c: seq<T>)
    ensures a + (b + c) == (a + b) + c
  {
  }

  /** A vector is written polynomial by polynomial, in order. */
  lemma {:induction false} VectorBytesJoin(xs: seq<Vec>, ys: seq<Vec>, p: Params)
    requires p.Valid() && InRange(xs, p) && InRange(ys, p)
    ensures InRange(xs + ys, p) && VectorBytes(xs + ys) == VectorBytes(xs) + VectorBytes(ys)
  {
    InRangeJoin(xs, ys, p);
    if ys == [] {
      assert xs + ys == xs;
    } else {
      var front, y := ys[..|ys| - 1], ys[|ys| - 1];
      assert ys == front + [y];
      Regroup(xs, front, [y]);
      VectorBytesAppend(xs + ys, xs + front, y, p);
      VectorBytesAppend(ys, front, y, p);
      VectorBytesJoin(xs, front, p);
      Regroup(VectorBytes(xs), VectorBytes(front), ToBytes(y));
    }
  }

  lemma VectorBytesOfOne(x: Vec, p: Params)
    requires p.Valid() && Canonical(x, p.n, p.q)
    ensures InRange([x], p) && VectorBytes([x]) == ToBytes(x)
  {
    assert [x][..0] == [];
  }

  /** The hash input of the shared key holds the message and the whole ciphertext. */
  lemma KeyInputDetermines(m: Bytes, m': Bytes, ct: Ciphertext, ct': Ciphertext, p: Params)
    requires p.Valid() && CanonicalCiphertext(ct, p) && CanonicalCiphertext(ct', p)
    requires |m| == |m'| && KeyInput(m, ct, p) == KeyInput(m', ct', p)
    ensures m == m' && ct == ct'
  {
    TailsAgree(m, CiphertextBytes(ct, p), m', CiphertextBytes(ct', p));
    BytesDetermine(ct.u, ct'.u, p);
    TailsAgree(VectorBytes(ct.u), ToBytes(ct.v), VectorBytes(ct'.u), ToBytes(ct'.v));
    BytesRoundTrip(ct.v, p.n, p.q);
    BytesRoundTrip(ct'.v, p.n, p.q);
  }

  /** Two mixed keys agree exactly when the messages do, or one of two named pairs of inputs collides. */
  lemma MixedKeyDetermines(hash: Hash, a: Bytes, b: Bytes, m: Bytes, m': Bytes, ct: Ciphertext, p: Params)
    requires p.Valid() && CanonicalCiphertext(ct, p) && |m| == |m'|
    ensures MixedKey(hash, a, b, SharedKey(hash, m, ct, p)) == MixedKey(hash, a, b, SharedKey(hash, m', ct, p))
       <==> m == m' || KeysCollide(hash, a, b, m, m', ct, p)
  {
    var k, k' := SharedKey(hash, m, ct, p), SharedKey(hash, m', ct, p);
    if MixedInput(hash, a, b, k) == MixedInput(hash, a, b, k') {
      MixedInputDetermines(hash, a, b, k, k');
      if KeyInput(m, ct, p) == KeyInput(m', ct, p) {
        KeyInputDetermines(m, m', ct, ct, p);
      }
    }
  }

  /** All that the two parties have seen of each other. */
  datatype Transcript = Transcript(initiatorPk: Bytes, responderPk: Bytes, m: Bytes, ct: Ciphertext)

  ghost predicate WellFormed(x: Transcript, p: Params) {
    p.Valid() && CanonicalCiphertext(x.ct, p) && |x.initiatorPk| == |x.responderPk| == |x.m| == 32
  }

  function KeyOf(hash: Hash, x: Transcript, p: Params): Bytes
    requires p.Valid() && CanonicalCiphertext(x.ct, p)
  {
    MixedKey(hash, x.initiatorPk, x.responderPk, SharedKey(hash, x.m, x.ct, p))
  }

  function ClassicInput(x: Transcript): Bytes {
    x.initiatorPk + x.responderPk + Ascii("ecdh_shared")
  }

  /** One of the three pairs of hash inputs on the way to the two keys collides. */
  ghost predicate TranscriptsCollide(hash: Hash, x: Transcript, y: Transcript, p: Params)
    requires WellFormed(x, p) && WellFormed(y, p)
  {
    || Collision(hash, ClassicInput(x), ClassicInput(y))
    || Collision(hash, KeyInput(x.m, x.ct, p), KeyInput(y.m, y.ct, p))
    || Collision(hash, MixedInput(hash, x.initiatorPk, x.responderPk, SharedKey(hash, x.m, x.ct, p)),
                 MixedInput(hash, y.initiatorPk, y.responderPk, SharedKey(hash, y.m, y.ct, p)))
  }

  /** With digests of 32 bytes a mixed key binds the whole transcript: equal keys come from equal public keys,
      messages and ciphertexts, or from a collision. */
  lemma KeyBindsTranscript(hash: Hash, x: Transcript, y: Transcript, p: Params)
    requires WellFormed(x, p) && WellFormed(y, p) && forall z :: |hash(z)| == 32
    requires KeyOf(hash, x, p) == KeyOf(hash, y, p)
    ensures x == y || TranscriptsCollide(hash, x, y, p)
  {
    if !TranscriptsCollide(hash, x, y, p) {
      var tail := Ascii("hybrid_key_exchange_v1");
      var kx, ky := SharedKey(hash, x.m, x.ct, p), SharedKey(hash, y.m, y.ct, p);
      TailsAgree(hash(ClassicInput(x)) + kx, tail, hash(ClassicInput(y)) + ky, tail);
      TailsAgree(hash(ClassicInput(x)), kx, hash(ClassicInput(y)), ky);
      KeyInputDetermines(x.m, y.m, x.ct, y.ct, p);
      ClassicInputDetermines(x, y);
    }
  }

  lemma ClassicInputDetermines(x: Transcript, y: Transcript)
    requires ClassicInput(x) == ClassicInput(y)
    requires |x.initiatorPk| == |y.initiatorPk| && |x.responderPk| == |y.responderPk|
    ensures x.initiatorPk == y.initiatorPk && x.responderPk == y.responderPk
  {
    var tail := Ascii("ecdh_shared");
    TailsAgree(x.initiatorPk + x.responderPk, tail, y.initiatorPk + y.responderPk, tail);
    TailsAgree(x.initiatorPk, x.responderPk, y.initiatorPk, y.responderPk);
  }

  /** One whole run of initiate, respond and finalize.  The two parties hold the same key if and only if
      the message survives the noise, or the run meets a collision of the hash between the inputs for
      the message and for another one, the one that the initiator decodes. */
  method RunExchange(expand: Bytes -> seq<seq<Vec>>, hash: Hash, rho: Bytes, z: Bytes, classicPrivate: Bytes,
                     responderPrivate: Bytes, s: seq<Vec>, e: seq<Vec>, m: Bytes,
                     r: seq<Vec>, e1: seq<Vec>, e2: Vec, p: Params)
    returns (init: Initiator, resp: Responder, initiatorKey: Bytes)
    requires p.Valid() && CanonicalMatrix(expand(rho), p) && CanonicalVectors(s, p) && CanonicalVectors(e, p)
    requires |m| == 32 && CanonicalVectors(r, p) && CanonicalVectors(e1, p) && Canonical(e2, p.n, p.q)
    ensures init.pk == PublicKey(KeygenT(expand(rho), s, e, p), rho) && init.sk.s == s
    ensures init.classicPk == hash(classicPrivate) && resp.classicPk == hash(responderPrivate)
    ensures resp.ct == EncapsCiphertext(expand(rho), init.pk.t, m, r, e1, e2, p)
    ensures exists m' ::
              && DecodesTo(DecapsPolynomial(resp.ct, s, p), m', p)
              && (m' == m <==> MessageSurvives(m, Noise(s, e, r, e1, e2, p.k, p.n), p))
              && (initiatorKey == resp.sharedKey <==>
                    m' == m || KeysCollide(hash, init.classicPk, resp.classicPk, m, m', resp.ct, p))
  {
    var pk, sk := Keygen(expand, rho, z, s, e, p);
    init := Initiator(hash(classicPrivate), pk, sk);
    resp := Respond(expand, hash, init, responderPrivate, m, r, e1, e2, p);
    initiatorKey := Finalize(hash, init, resp, p);
    ghost var m' :| DecodesTo(DecapsPolynomial(resp.ct, sk.s, p), m', p)
      && initiatorKey == MixedKey(hash, init.classicPk, resp.classicPk, SharedKey(hash, m', resp.ct, p));
    DecapsRecoversExactly(expand(rho), s, e, m, r, e1, e2, m', p);
    MixedKeyDetermines(hash, init.classicPk, resp.classicPk, m, m', resp.ct, p);
  }

  // ----- from the random bits on

  ghost function CbdEach(draws: seq<seq<nat>>, eta: nat): (v: seq<Vec>)
    ensures |v| == |draws| && forall i :: 0 <= i < |draws| ==> v[i] == CbdValues(draws[i], eta)
  {
    seq(|draws|, i requires 0 <= i < |draws| => CbdValues(draws[i], eta))
  }

  ghost predicate DrawsEach(draws: seq<seq<nat>>, eta: nat, p: Params) {
    |draws| == p.k && forall i :: 0 <= i < p.k ==> Draws(draws[i], eta, p.n)
  }

  /** `[Polynomial.sample_cbd(...) for _ in range(k)]`. */
  method SampleVector(draws: seq<seq<nat>>, eta: nat, p: Params) returns (xs: seq<Vec>)
    requires p.Valid() && DrawsEach(draws, eta, p)
    ensures SmallResidues(xs, CbdEach(draws, eta), eta, p) && CanonicalVectors(xs, p)
  {
    xs := [];
    for i := 0 to p.k
      invariant |xs| == i
      invariant forall j :: 0 <= j < i ==> xs[j] == Reduce(CbdValues(draws[j], eta), p.q)
      invariant forall j :: 0 <= j < i ==> Bounded(CbdValues(draws[j], eta), eta)
    {
      var x := SampleCbd(draws[i], eta, p.n, p.q);
      xs := xs + [x];
    }
    assert xs == ReduceEach(CbdEach(draws, eta), p.q);
  }

  /** With small parameters both parties hold the same key, whatever was drawn at random. */
  method RunFromDraws(expand: Bytes -> seq<seq<Vec>>, hash: Hash, rho: Bytes, z: Bytes, classicPrivate: Bytes,
                      responderPrivate: Bytes, m: Bytes, ds: seq<seq<nat>>, de: seq<seq<nat>>, dr: seq<seq<nat>>,
                      de1: seq<seq<nat>>, de2: seq<nat>, p: Params)
    returns (initiatorKey: Bytes, responderKey: Bytes)
    requires p.Valid() && CanonicalMatrix(expand(rho), p) && |m| == 32
    requires DrawsEach(ds, p.eta1, p) && DrawsEach(de, p.eta1, p) && DrawsEach(dr, p.eta1, p)
    requires DrawsEach(de1, p.eta2, p) && Draws(de2, p.eta2, p.n)
    ensures p.n == 256 && 2 * NoiseLimit(p) < p.q / 2 ==> initiatorKey == responderKey
  {
    var s := SampleVector(ds, p.eta1, p);
    var e := SampleVector(de, p.eta1, p);
    var r := SampleVector(dr, p.eta1, p);
    var e1 := SampleVector(de1, p.eta2, p);
    var e2 := SampleCbd(de2, p.eta2, p.n, p.q);
    if p.n == 256 && 2 * NoiseLimit(p) < p.q / 2 {
      SmallParametersAlwaysRecover(s, CbdEach(ds, p.eta1), e, CbdEach(de, p.eta1), m, r, CbdEach(dr, p.eta1),
                                   e1, CbdEach(de1, p.eta2), e2, CbdValues(de2, p.eta2), p);
    }
    var init, resp;
    init, resp, initiatorKey :=
      RunExchange(expand, hash, rho, z, classicPrivate, responderPrivate, s, e, m, r, e1, e2, p);
    responderKey := resp.sharedKey;
  }
}
