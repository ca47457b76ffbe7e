/** Power-of-two bucket counts: masking a hash, testing for a power of two and rounding up to one. */
module GrowthPolicy {
  import opened Bits

  ghost predicate IsPow2(n: nat) {
    exists k: nat :: n == Pow2(k)
  }

  function Ones(k: nat): nat {
    Pow2(k) - 1
  }

  function ShiftRight(x: nat, k: nat): nat {
    if k == 0 then x else ShiftRight(x / 2, k - 1)
  }

  // Masking.

  lemma ModDouble(h: nat, p: nat)
    requires p > 0
    ensures h % (2 * p) == h % 2 + 2 * (h / 2 % p)
  {
    var q, r := h / 2 / p, h / 2 % p;
    assert h / 2 == p * q + r;
    assert h == (2 * p) * q + (h % 2 + 2 * r);
    ModUnique(h, 2 * p, q, h % 2 + 2 * r);
  }

  lemma {:induction false} ModUnique(h: nat, m: nat, q: nat, r: nat)
    requires h == m * q + r && r < m
    ensures h % m == r
  {
    var q', r' := h / m, h % m;
    assert h == m * q' + r';
    if q < q' {
      Multiples(m, q, q');
    } else if q' < q {
      Multiples(m, q', q);
    }
  }

  lemma {:induction false} Multiples(m: nat, a: nat, b: nat)
    requires a < b
    ensures m * a + m <= m * b
    decreases b
  {
    if a + 1 < b {
      Multiples(m, a, b - 1);
    }
    assert m * b == m * (b - 1) + m;
  }

  lemma ModSuccessor(a: nat, n: nat)
    requires n > 0
    ensures (a + 1) % n == if a % n + 1 == n then 0 else a % n + 1
  {
    var q, r := a / n, a % n;
    assert a == n * q + r;
    if r + 1 == n {
      MulSuccessor(n, q);
      ModUnique(a + 1, n, q + 1, 0);
    } else {
      ModUnique(a + 1, n, q, r + 1);
    }
  }

  lemma MulSuccessor(n: nat, q: nat)
    ensures n * (q + 1) == n * q + n
  {
  }

  /** A mask of k ones selects the remainder modulo 2^k. */
  lemma {:induction false} MaskIsMod(h: nat, k: nat)
    ensures And(h, Ones(k)) == h % Pow2(k)
    decreases k
  {
    if k > 0 {
      MaskIsMod(h / 2, k - 1);
      ModDouble(h, Pow2(k - 1));
      assert Ones(k) / 2 == Ones(k - 1) && Ones(k) % 2 == 1;
    }
  }

  lemma {:induction false} MaskBound(h: nat, k: nat)
    ensures And(h, Ones(k)) < Pow2(k)
    decreases k
  {
    if k > 0 {
      MaskBound(h / 2, k - 1);
      assert Ones(k) / 2 == Ones(k - 1);
    }
  }

  /** Dropping high bits first does not change the low ones. */
  lemma {:induction false} TruncatedMask(h: nat, k: nat, m: nat)
    requires k <= m
    ensures And(And(h, Ones(m)), Ones(k)) == And(h, Ones(k))
    decreases k
  {
    if k > 0 {
      TruncatedMask(h / 2, k - 1, m - 1);
      assert Ones(k) / 2 == Ones(k - 1) && Ones(k) % 2 == 1;
      assert Ones(m) / 2 == Ones(m - 1) && Ones(m) % 2 == 1;
      var x := And(h, Ones(m));
      assert x / 2 == And(h / 2, Ones(m - 1)) && x % 2 == h % 2;
    }
  }

  predicate IsPowerOfTwo(value: nat) {
    value != 0 && And(value, value - 1) == 0
  }

  lemma {:induction false} AndSelf(m: nat)
    ensures And(m, m) == m
  {
    if m > 0 { AndSelf(m / 2); }
  }

  lemma {:induction false} PowerOfTwoTest(value: nat)
    ensures IsPowerOfTwo(value) <==> IsPow2(value)
  {
    if value > 1 {
      PowerOfTwoTest(value / 2);
      if value % 2 == 1 {
        assert (value - 1) / 2 == value / 2;
        AndSelf(value / 2);
        assert !IsPow2(value) by { forall k: nat ensures value != Pow2(k) { } }
      } else {
        assert (value - 1) / 2 == value / 2 - 1;
        if IsPow2(value) {
          var k: nat :| value == Pow2(k);
          assert value / 2 == Pow2(k - 1);
        }
        if IsPow2(value / 2) {
          var k: nat :| value / 2 == Pow2(k);
          assert value == Pow2(k + 1);
        }
      }
    } else if value == 1 {
      assert value == Pow2(0);
    }
  }

  // Rounding up.

  lemma {:induction false} ShiftTwice(x: nat, a: nat, b: nat)
    ensures ShiftRight(ShiftRight(x, a), b) == ShiftRight(x, a + b)
    decreases a
  {
    if a > 0 { ShiftTwice(x / 2, a - 1, b); }
  }

  lemma {:induction false} ShiftOnes(i: nat, d: nat)
    requires d <= i
    ensures ShiftRight(Ones(i), d) == Ones(i - d)
    decreases d
  {
    if d > 0 {
      assert Ones(i) / 2 == Ones(i - 1);
      ShiftOnes(i - 1, d - 1);
    }
  }

  lemma {:induction false} OrShift(a: nat, b: nat, k: nat)
    ensures ShiftRight(Or(a, b), k) == Or(ShiftRight(a, k), ShiftRight(b, k))
    decreases k
  {
    if k > 0 {
      OrShift(a / 2, b / 2, k - 1);
      assert Or(a, b) / 2 == Or(a / 2, b / 2);
    }
  }

  lemma {:induction false} OrLow(u: nat, t: nat)
    ensures Or(u, Ones(t)) == ShiftLeft(ShiftRight(u, t), t) + Ones(t)
    decreases t
  {
    if t == 0 {
      OrZero(u);
    } else {
      OrLow(u / 2, t - 1);
      assert Ones(t) / 2 == Ones(t - 1) && Ones(t) % 2 == 1;
    }
  }

  lemma {:induction false} OrZero(u: nat)
    ensures Or(u, 0) == u
  {
    if u > 0 { OrZero(u / 2); }
  }

  lemma {:induction false} OnesJoin(i: nat, t: nat)
    ensures ShiftLeft(Ones(i), t) + Ones(t) == Ones(i + t)
    decreases t
  {
    if t > 0 { OnesJoin(i, t - 1); }
  }

  /** x has bit length L and its top m bits are ones. */
  predicate TopOnes(x: nat, L: nat, m: nat) {
    m <= L && ShiftRight(x, L - m) == Ones(m)
  }

  /** One smearing step doubles the run of ones at the top, up to the bit length. */
  lemma Smear(x: nat, L: nat, i: nat)
    requires 0 < i <= L && TopOnes(x, L, i)
    ensures TopOnes(Or(x, ShiftRight(x, i)), L, if 2 * i < L then 2 * i else L)
  {
    var j := if 2 * i < L then 2 * i else L;
    var s, t := L - j, j - i;
    OrShift(x, ShiftRight(x, i), s);
    ShiftTwice(x, i, s);
    ShiftTwice(x, L - i, i + s - (L - i));
    ShiftOnes(i, i + s - (L - i));
    assert ShiftRight(ShiftRight(x, i), s) == Ones(t);
    OrLow(ShiftRight(x, s), t);
    ShiftTwice(x, s, t);
    OnesJoin(i, t);
  }

  lemma {:induction false} BitLength(x: nat) returns (L: nat)
    requires x > 0
    ensures L > 0 && Pow2(L - 1) <= x < Pow2(L) && TopOnes(x, L, 1)
  {
    if x == 1 {
      L := 1;
    } else {
      L := BitLength(x / 2);
      L := L + 1;
      assert ShiftRight(x, L - 1) == ShiftRight(x / 2, L - 2);
    }
  }

  /** The least power of two not below the value, for every value that has one in 64 bits. */
  method RoundUpToPowerOfTwo(value: nat) returns (r: nat)
    requires value <= Pow2(63)
    ensures IsPow2(r) && r >= value && r <= Pow2(63)
    ensures forall k: nat :: Pow2(k) >= value ==> Pow2(k) >= r
  {
    PowerOfTwoTest(value);
    if IsPowerOfTwo(value) {
      return value;
    }
    if value == 0 {
      assert Pow2(0) == 1;
      Pow2Monotone(0, 63);
      return 1;
    }
    assert value != 1 by { assert Pow2(0) == 1; }
    ghost var L := BitLength(value - 1);
    LeastPowerAbove(value, L);
    var ones := SmearBits(value - 1, L);
    r := ones + 1;
  }

  /** The smearing loop of a 64-bit word: shifts of 1, 2, 4, 8, 16 and 32. */
  method SmearBits(value: nat, ghost L: nat) returns (x: nat)
    requires 0 < L <= 64 && TopOnes(value, L, 1)
    ensures x == Ones(L)
  {
    x := value;
    var i: nat := 1;
    while i < 64
      invariant i in {1, 2, 4, 8, 16, 32, 64}
      invariant TopOnes(x, L, if i < L then i else L)
      decreases 64 - i
    {
      if i <= L {
        Smear(x, L, i);
      } else {
        SmearDone(x, L, i);
      }
      x := Or(x, ShiftRight(x, i));
      i := i * 2;
    }
  }

  lemma LeastPowerAbove(value: nat, L: nat)
    requires L > 0 && Pow2(L - 1) < value <= Pow2(L) && value <= Pow2(63)
    ensures L <= 63 && Pow2(L) <= Pow2(63)
    ensures forall k: nat :: Pow2(k) >= value ==> Pow2(k) >= Pow2(L)
  {
    if L > 63 {
      Pow2Monotone(63, L - 1);
    }
    Pow2Monotone(L, 63);
    forall k: nat | Pow2(k) >= value ensures Pow2(k) >= Pow2(L) {
      if k < L { Pow2Monotone(k, L - 1); } else { Pow2Monotone(L, k); }
    }
  }

  lemma {:induction false} ShiftToZero(L: nat, i: nat)
    requires i >= L
    ensures ShiftRight(Ones(L), i) == 0
    decreases i
  {
    if L > 0 {
      assert Ones(L) / 2 == Ones(L - 1);
      ShiftToZero(L - 1, i - 1);
    } else if i > 0 {
      ShiftToZero(0, i - 1);
    }
  }

  lemma SmearDone(x: nat, L: nat, i: nat)
    requires i > L && TopOnes(x, L, L)
    ensures Or(x, ShiftRight(x, i)) == x
  {
    assert x == Ones(L);
    ShiftToZero(L, i);
    OrZero(x);
  }
}
