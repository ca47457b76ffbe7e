/** Bitwise operations on unbounded naturals, as the fixed-width operators of the source act on them. */
module Bits {

  function Pow2(k: nat): (p: nat)
    ensures p >= 1
  {
    if k == 0 then 1 else 2 * Pow2(k - 1)
  }

  lemma {:induction false} Pow2Add(j: nat, k: nat)
    ensures Pow2(j + k) == Pow2(j) * Pow2(k)
  {
    if j > 0 {
      Pow2Add(j - 1, k);
      assert Pow2(j + k) == 2 * (Pow2(j - 1) * Pow2(k));
    }
  }

  lemma {:induction false} Pow2Monotone(j: nat, k: nat)
    requires j <= k
    ensures Pow2(j) <= Pow2(k)
    ensures j < k ==> 2 * Pow2(j) <= Pow2(k)
  {
    if j < k {
      Pow2Monotone(j, k - 1);
    }
  }

  function Xor(a: nat, b: nat): nat
    decreases a + b
  {
    if a == 0 && b == 0 then 0
    else (if a % 2 == b % 2 then 0 else 1) + 2 * Xor(a / 2, b / 2)
  }

  function And(a: nat, b: nat): nat
  {
    if a == 0 || b == 0 then 0
    else (if a % 2 == 1 && b % 2 == 1 then 1 else 0) + 2 * And(a / 2, b / 2)
  }

  function Or(a: nat, b: nat): nat
    decreases a + b
  {
    if a == 0 && b == 0 then 0
    else (if a % 2 == 0 && b % 2 == 0 then 0 else 1) + 2 * Or(a / 2, b / 2)
  }

  lemma {:induction false} XorInvolutive(a: nat, b: nat)
    ensures Xor(Xor(a, b), b) == a
    decreases a + b
  {
    if a != 0 || b != 0 {
      XorInvolutive(a / 2, b / 2);
      var x := Xor(a, b);
      assert x / 2 == Xor(a / 2, b / 2);
    }
  }

  lemma XorDigit(a: nat, b: nat, x: nat, y: nat)
    requires x < 2 && y < 2
    ensures Xor(x + 2 * a, y + 2 * b) == (if x == y then 0 else 1) + 2 * Xor(a, b)
  {
    assert (x + 2 * a) / 2 == a && (y + 2 * b) / 2 == b;
  }

  /** x shifted left by k bits. */
  function ShiftLeft(x: nat, k: nat): nat {
    if k == 0 then x else 2 * ShiftLeft(x, k - 1)
  }

  lemma {:induction false} XorBelow(k: nat, low: nat, low': nat)
    requires low < Pow2(k) && low' < Pow2(k)
    ensures Xor(low, low') < Pow2(k)
    decreases k
  {
    if k > 0 { XorBelow(k - 1, low / 2, low' / 2); }
  }

  /** Exclusive or acts on the low k bits and on the remaining bits separately. */
  lemma {:induction false} XorSplit(k: nat, low: nat, high: nat, low': nat, high': nat)
    requires low < Pow2(k) && low' < Pow2(k)
    ensures Xor(low + ShiftLeft(high, k), low' + ShiftLeft(high', k)) == Xor(low, low') + ShiftLeft(Xor(high, high'), k)
    decreases k
  {
    if k > 0 {
      XorSplit(k - 1, low / 2, high, low' / 2, high');
      XorCarry(low, low', ShiftLeft(high, k - 1), ShiftLeft(high', k - 1), ShiftLeft(Xor(high, high'), k - 1));
    }
  }

  lemma XorCarry(low: nat, low': nat, top: nat, top': nat, rest: nat)
    requires Xor(low / 2 + top, low' / 2 + top') == Xor(low / 2, low' / 2) + rest
    ensures Xor(low + 2 * top, low' + 2 * top') == Xor(low, low') + 2 * rest
  {
    var d, d' := low % 2, low' % 2;
    XorDigit(low / 2, low' / 2, d, d');
    XorDigit(low / 2 + top, low' / 2 + top', d, d');
    assert low == d + 2 * (low / 2) && low' == d' + 2 * (low' / 2);
  }

  lemma Widths()
    ensures Pow2(8) == 0x100 && Pow2(16) == 0x10000 && Pow2(32) == 0x1_0000_0000
    ensures Pow2(64) == 0x1_0000_0000_0000_0000
  {
    assert Pow2(8) == 256;
    Pow2Add(8, 8);
    Pow2Add(16, 16);
    Pow2Add(32, 32);
  }

  /** The value an integer takes in 32 bits, two's complement. */
  function Int32(x: int): int {
    var m := x % 0x1_0000_0000;
    if m < 0x8000_0000 then m else m - 0x1_0000_0000
  }

  lemma Int32Same(x: nat)
    requires x < 0x8000_0000
    ensures Int32(x) == x
  {
  }
}
