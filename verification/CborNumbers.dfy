/** Rounding to the numbers of the client's language. */
module CborNumbers {
  import opened Bits
  import opened Cbor

  /** The numbers of the client's language: up to 2^53 times a power of two. */
  ghost predicate Representable(m: nat) {
    exists k: nat, e: nat {:trigger Scaled(k, e)} :: k <= MAX_SAFE && m == Scaled(k, e)
  }

  function Scaled(k: nat, e: nat): nat { k * Pow2(e) }

  function Exponent(n: nat): nat {
    if n < MAX_SAFE then 0 else 1 + Exponent(n / 2)
  }

  /** The upper 53 bits. */
  function Mantissa(n: nat): nat {
    if n < MAX_SAFE then n else Mantissa(n / 2)
  }

  lemma {:induction false} MantissaBelow(n: nat)
    ensures Unit(n) == Pow2(Exponent(n)) && Mantissa(n) < MAX_SAFE && (Exponent(n) > 0 ==> 2 * Mantissa(n) >= MAX_SAFE)
    ensures Mantissa(n) * Unit(n) <= n < (Mantissa(n) + 1) * Unit(n)
  {
    if n >= MAX_SAFE {
      MantissaBelow(n / 2);
      Doubled(n, Mantissa(n / 2), Unit(n / 2));
      if n / 2 < MAX_SAFE { assert Mantissa(n / 2) == n / 2; }
    }
  }

  lemma Doubled(n: nat, m: nat, u: nat)
    requires m * u <= n / 2 < (m + 1) * u
    ensures m * (2 * u) <= n < (m + 1) * (2 * u)
  {
    var low, high := m * u, (m + 1) * u;
    assert m * (2 * u) == 2 * low && (m + 1) * (2 * u) == 2 * high;
  }

  lemma Quotient(n: nat, u: nat, q: nat)
    requires q * u <= n < (q + 1) * u
    ensures u > 0 && n / u == q && n % u == n - q * u
  {
    assert u > 0;
    var d := n / u;
    if d < q { Larger(d + 1, q, u); }
    if d > q { Larger(q + 1, d, u); }
  }

  lemma Larger(a: nat, b: nat, u: nat)
    requires a <= b
    ensures a * u <= b * u
  {
  }

  lemma Regrouped(a: nat, b: nat, c: nat)
    ensures a * (b * c) == a * b * c
  {
  }

  /** Between neighbours there is no other number. */
  lemma NoneBetween(k: nat, e: nat, q: nat, top: nat)
    requires k <= MAX_SAFE && (top > 0 ==> 2 * q >= MAX_SAFE)
    ensures Scaled(k, e) <= q * Pow2(top) || Scaled(k, e) >= (q + 1) * Pow2(top)
  {
    if e >= top {
      Pow2Add(e - top, top);
      Multiple(k, Pow2(e - top), q, Pow2(top));
    } else {
      Pow2Monotone(e, top);
      Below(k, Pow2(e), q, Pow2(top));
    }
  }

  lemma Multiple(k: nat, p: nat, q: nat, u: nat)
    ensures k * (p * u) <= q * u || k * (p * u) >= (q + 1) * u
  {
    Regrouped(k, p, u);
    var c := k * p;
    if c <= q { Larger(c, q, u); } else { Larger(q + 1, c, u); }
  }

  lemma Below(k: nat, p: nat, q: nat, u: nat)
    requires k <= 2 * q && 2 * p <= u
    ensures k * p <= q * u
  {
    Larger(k, 2 * q, p);
    Regrouped(q, 2, p);
    Larger(2 * p, u, q);
  }

  /** Rounding gives a number of the client's language, none is nearer, and of two it is the one with an even last bit. */
  lemma RoundedNearest(n: nat, m: nat)
    ensures Representable(Rounded(n))
    ensures Representable(m) ==> Apart(Rounded(n), n) <= Apart(m, n)
    ensures Representable(m) && m != Rounded(n) && Apart(Rounded(n), n) == Apart(m, n) ==> Rounded(n) % (2 * Unit(n)) == 0
  {
    var e, q := Exponent(n), Mantissa(n);
    MantissaBelow(n);
    RoundedOfTwo(n, Unit(n), q);
    assert Rounded(n) == Scaled(q, e) || Rounded(n) == Scaled(q + 1, e);
    if Representable(m) {
      var k: nat, e': nat :| k <= MAX_SAFE && m == Scaled(k, e');
      NoneBetween(k, e', q, e);
      Nearest(n, Unit(n), q, Rounded(n), m);
    }
  }

  predicate OfTwo(n: nat, u: nat, q: nat, rounded: nat) {
    var r := n - q * u;
    rounded == if 2 * r < u || (2 * r == u && q % 2 == 0) then q * u else (q + 1) * u
  }

  lemma RoundedOfTwo(n: nat, u: nat, q: nat)
    requires u == Unit(n) && q * u <= n < (q + 1) * u
    ensures OfTwo(n, u, q, Rounded(n))
  {
    Quotient(n, u, q);
  }

  lemma Nearest(n: nat, u: nat, q: nat, rounded: nat, m: nat)
    requires q * u <= n < (q + 1) * u && OfTwo(n, u, q, rounded) && (m <= q * u || m >= (q + 1) * u)
    ensures u > 0 && Apart(rounded, n) <= Apart(m, n)
    ensures m != rounded && Apart(rounded, n) == Apart(m, n) ==> rounded % (2 * u) == 0
  {
    assert (q + 1) * u == q * u + u;
    Even(q, u);
    Even(q + 1, u);
  }

  lemma Even(q: nat, u: nat)
    requires u > 0
    ensures q % 2 == 0 ==> q * u % (2 * u) == 0
  {
    if q % 2 == 0 {
      var h := q / 2;
      Regrouped(h, 2, u);
      Quotient(q * u, 2 * u, h);
    }
  }

  function Apart(m: nat, n: nat): nat {
    if m < n then n - m else m - n
  }
}
