/** The message side of the key encapsulation: the 256 bits of a 32-byte message, and the
    threshold decoder that reads one bit from one noisy coefficient.
 */
module MessageBits {
  import opened Polynomials

  function PowerOfTwo(n: nat): nat {
    if n == 0 then 1 else 2 * PowerOfTwo(n - 1)
  }

  /** Bit t of b, (b >> t) & 1. */
  predicate BitOf(b: nat, t: nat) {
    if t == 0 then b % 2 == 1 else BitOf(b / 2, t - 1)
  }

  /** b | (1 << t). */
  function SetBit(b: nat, t: nat): nat {
    if t > 0 then 2 * SetBit(b / 2, t - 1) + b % 2
    else if b % 2 == 1 then b else b + 1
  }

  lemma {:induction false} SetBitEffect(b: nat, t: nat, u: nat)
    ensures BitOf(SetBit(b, t), u) <==> u == t || BitOf(b, u)
  {
    if t > 0 && u > 0 {
      SetBitEffect(b / 2, t - 1, u - 1);
    }
  }

  lemma MultipleOf(d: int, m: nat)
    ensures d >= 1 ==> d * m >= m
    ensures d <= -1 ==> d * m + m <= 0
  {
    if d >= 1 {
      assert (d - 1) * m >= 0;
    } else if d <= -1 {
      assert (-d - 1) * m >= 0;
    }
  }

  lemma QuotientIs(x: nat, m: nat, q: nat, r: nat)
    requires r < m && x == m * q + r
    ensures x / m == q
  {
    var k := x / m;
    assert x == k * m + x % m;
    assert (k - q) * m == r - x % m;
    MultipleOf(k - q, m);
  }

  lemma HalfQuotient(x: nat, m: nat)
    requires m >= 1
    ensures x / 2 / m == x / (2 * m)
  {
    var q, r := x / (2 * m), x % (2 * m);
    assert x / 2 == m * q + r / 2;
    QuotientIs(x / 2, m, q, r / 2);
  }

  /** Bit t is the parity after a shift by t places. */
  lemma {:induction false} BitOfExactly(b: nat, t: nat)
    ensures PowerOfTwo(t) >= 1 && (BitOf(b, t) <==> b / PowerOfTwo(t) % 2 == 1)
  {
    if t == 0 {
    } else {
      BitOfExactly(b / 2, t - 1);
      HalfQuotient(b, PowerOfTwo(t - 1));
    }
  }

  lemma Doubled(b: nat, c: nat, h: nat)
    ensures b < 2 * h ==> b / 2 < h
    ensures c < h ==> 2 * c + b % 2 < 2 * h
  {
  }

  lemma {:induction false} SetBitSize(b: nat, t: nat, n: nat)
    requires t < n && b < PowerOfTwo(n)
    ensures SetBit(b, t) < PowerOfTwo(n)
  {
    var h := PowerOfTwo(n - 1);
    assert PowerOfTwo(n) == 2 * h;
    if t == 0 {
      Doubled(b, b / 2, h);
    } else {
      Doubled(b, SetBit(b / 2, t - 1), h);
      SetBitSize(b / 2, t - 1, n - 1);
    }
  }

  lemma {:induction false} SameBits(b: nat, c: nat, n: nat)
    requires b < PowerOfTwo(n) && c < PowerOfTwo(n)
    requires forall t :: 0 <= t < n ==> BitOf(b, t) == BitOf(c, t)
    ensures b == c
  {
    if n == 0 {
    } else {
      forall t | 0 <= t < n - 1 ensures BitOf(b / 2, t) == BitOf(c / 2, t) {
        assert BitOf(b, t + 1) == BitOf(c, t + 1);
      }
      SameBits(b / 2, c / 2, n - 1);
      assert BitOf(b, 0) == BitOf(c, 0);
    }
  }

  lemma {:induction false} ZeroBits(t: nat)
    ensures !BitOf(0, t)
  {
    if t == 0 {
    } else {
      ZeroBits(t - 1);
    }
  }

  lemma ByteSize()
    ensures PowerOfTwo(8) == 256
  {
  }

  /** Bit i of a message, least significant bit first. */
  predicate MessageBit(m: seq<Byte>, i: nat)
    requires |m| == 32 && i < 256
  {
    BitOf(m[i / 8], i % 8)
  }

  lemma SameMessage(m: seq<Byte>, m': seq<Byte>)
    requires |m| == |m'| == 32
    requires forall i :: 0 <= i < 256 ==> MessageBit(m, i) == MessageBit(m', i)
    ensures m == m'
  {
    forall j | 0 <= j < 32 ensures m[j] == m'[j] {
      forall t | 0 <= t < 8 ensures BitOf(m[j], t) == BitOf(m'[j], t) {
        assert MessageBit(m, 8 * j + t) == MessageBit(m', 8 * j + t);
      }
      ByteSize();
      SameBits(m[j], m'[j], 8);
    }
  }

  // ----- the threshold decoder

  function Abs(x: int): int {
    if x < 0 then -x else x
  }

  function Min(x: int, y: int): int {
    if x < y then x else y
  }

  /** Whether a coefficient in [0, q) is nearer to q/2 than to 0. */
  predicate DecodeBit(c: int, q: int)
    requires q >= 1 && 0 <= c < q
  {
    var toZero := Min(c, q - c);
    var toHalf := Min(Abs(c - q / 2), q - Abs(c - q / 2));
    toHalf < toZero
  }

  /** The representative of x modulo q nearest to zero, in (-q/2, q/2]. */
  function Centred(x: int, q: int): (w: int)
    requires q >= 1
  {
    if 2 * (x % q) > q then x % q - q else x % q
  }

  /** The noise that bit b survives. */
  predicate Survives(b: bool, w: int, q: int)
    requires q >= 1
  {
    var h := q / 2;
    if b then -h < 2 * w < q - h else h - q <= 2 * w <= h
  }

  function Encode(b: bool, q: int): int
    requires q >= 1
  {
    if b then q / 2 else 0
  }

  lemma CentredIsCongruent(x: int, y: int, q: int)
    requires q >= 1
    ensures -q < 2 * Centred(x, q) <= q
    ensures (y + x) % q == (y + Centred(x, q)) % q
  {
    ModAdd(x, y, q);
    ModShift(y + x % q, -1, q);
  }

  lemma CentredUnique(x: int, w: int, q: int)
    requires q >= 1 && x % q == w % q && -q < 2 * w <= q
    ensures Centred(x, q) == w
  {
    if w < 0 {
      ModUnique(w, -1, w + q, q);
    } else {
      ModUnique(w, 0, w, q);
    }
  }

  /** Decoding is exact: it returns the encoded bit if and only if the noise is survivable. */
  lemma DecodeExact(b: bool, x: int, q: int)
    requires q >= 1
    ensures DecodeBit((Encode(b, q) + x) % q, q) == b <==> Survives(b, Centred(x, q), q)
  {
    var w, y := Centred(x, q), Encode(b, q);
    CentredIsCongruent(x, y, q);
    var c := y + w;
    if c < 0 {
      ModUnique(c, -1, c + q, q);
    } else if c >= q {
      ModUnique(c, 1, c - q, q);
    } else {
      ModUnique(c, 0, c, q);
    }
  }

  /** In particular noise below a quarter of q is always survived. */
  lemma SmallNoiseSurvives(b: bool, w: int, q: int)
    requires q >= 1 && 2 * Abs(w) < q / 2
    ensures Survives(b, Centred(w, q), q)
  {
    CentredUnique(w, w, q);
  }

  /** The decoding loop of `decaps`, over a 32-byte buffer. */
  method DecodeMessage(p: seq<int>, n: nat, q: int) returns (m: seq<Byte>)
    requires q >= 1 && Canonical(p, n, q)
    ensures |m| == 32
    ensures forall i :: 0 <= i < 256 ==> (MessageBit(m, i) <==> i < n && DecodeBit(p[i], q))
  {
    var buffer: array<Byte> := new Byte[32](_ => 0);
    assert forall t :: 0 <= t < 8 ==> !BitOf(0, t) by {
      forall t | 0 <= t < 8 ensures !BitOf(0, t) { ZeroBits(t); }
    }
    var limit := Min(n, 256);
    for i := 0 to limit
      invariant forall x :: 0 <= x < 256 ==>
                  (BitOf(buffer[x / 8], x % 8) <==> x < i && DecodeBit(p[x], q))
    {
      if DecodeBit(p[i], q) {
        ghost var before := buffer[..];
        ByteSize();
        SetBitSize(buffer[i / 8], i % 8, 8);
        buffer[i / 8] := SetBit(buffer[i / 8], i % 8);
        forall x | 0 <= x < 256
          ensures BitOf(buffer[x / 8], x % 8) <==> x < i + 1 && DecodeBit(p[x], q)
        {
          assert BitOf(before[x / 8], x % 8) <==> x < i && DecodeBit(p[x], q);
          SetBitEffect(before[i / 8], i % 8, x % 8);
        }
      }
    }
    m := buffer[..];
  }
}
