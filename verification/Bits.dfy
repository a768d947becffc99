/** Bitwise OR of unsigned machine words, as natural numbers. */
module Bits {

  function Pow2(k: nat): (r: nat)
    ensures r > 0
  {
    if k == 0 then 1 else 2 * Pow2(k - 1)
  }

  predicate Bit(x: nat, k: nat) {
    if k == 0 then x % 2 == 1 else Bit(x / 2, k - 1)
  }

  function BitOr(a: nat, b: nat): nat
    decreases a + b
  {
    if a == 0 && b == 0 then 0
    else (if a % 2 == 1 || b % 2 == 1 then 1 else 0) + 2 * BitOr(a / 2, b / 2)
  }

  lemma {:induction false} OrBit(a: nat, b: nat, k: nat)
    ensures Bit(BitOr(a, b), k) <==> Bit(a, k) || Bit(b, k)
    decreases k
  {
    if a == 0 && b == 0 {
      ZeroBit(k);
    } else {
      assert BitOr(a, b) / 2 == BitOr(a / 2, b / 2);
      if k > 0 { OrBit(a / 2, b / 2, k - 1); }
    }
  }

  lemma {:induction false} ZeroBit(k: nat)
    ensures !Bit(0, k)
  {
    if k > 0 { ZeroBit(k - 1); }
  }

  lemma {:induction false} OrZero(a: nat)
    ensures BitOr(a, 0) == a && BitOr(0, a) == a
  {
    if a > 0 { OrZero(a / 2); }
  }

  function Shr(a: nat, k: nat): nat {
    if k == 0 then a else Shr(a / 2, k - 1)
  }

  /** Shifting right commutes with OR. */
  lemma {:induction false} OrShr(a: nat, b: nat, k: nat)
    ensures Shr(BitOr(a, b), k) == BitOr(Shr(a, k), Shr(b, k))
    decreases k
  {
    if k > 0 {
      assert BitOr(a, b) / 2 == BitOr(a / 2, b / 2);
      OrShr(a / 2, b / 2, k - 1);
    }
  }

  lemma ShrBy4(a: nat, k: nat)
    requires k >= 4
    ensures Shr(a, k) == Shr(a / 16, k - 4)
  {
    assert Shr(a, k) == Shr(a / 2 / 2, k - 2);
    assert Shr(a / 2 / 2, k - 2) == Shr(a / 2 / 2 / 2 / 2, k - 4);
  }

  lemma ShrBy12(a: nat)
    ensures Shr(a, 12) == a / 4096
  {
    ShrBy4(a, 12);
    ShrBy4(a / 16, 8);
    ShrBy4(a / 16 / 16, 4);
  }

  lemma {:induction false} ShiftedBitClear(a: nat, k: nat, j: nat)
    requires j < k
    ensures !Bit(a * Pow2(k), j)
    decreases j
  {
    assert a * Pow2(k) == 2 * (a * Pow2(k - 1));
    if j > 0 { ShiftedBitClear(a, k - 1, j - 1); }
  }

  lemma Pow2At12()
    ensures Pow2(12) == 4096
  {
    assert Pow2(4) == 16; assert Pow2(8) == 256;
  }

  /** Number below bit `k` and number from bit `k` on do not meet: OR is addition. */
  lemma {:induction false} OrApart(x: nat, h: nat, k: nat)
    requires x < Pow2(k)
    ensures BitOr(x, h * Pow2(k)) == x + h * Pow2(k)
    decreases k
  {
    if k == 0 {
      OrZero(h);
    } else {
      var y := h * Pow2(k - 1);
      assert h * Pow2(k) == 2 * y;
      OrApart(x / 2, h, k - 1);
      OrEven(x, y);
    }
  }

  lemma OrEven(x: nat, y: nat)
    ensures BitOr(x, 2 * y) == x % 2 + 2 * BitOr(x / 2, y)
  {
    if x == 0 && y == 0 { OrZero(0); } else { assert 2 * y / 2 == y; }
  }

  lemma {:induction false} HighBitClear(x: nat, k: nat, b: nat)
    requires x < Pow2(k) && k <= b
    ensures !Bit(x, b)
    decreases b
  {
    if b == 0 {
    } else if k == 0 {
      ZeroBit(b);
    } else {
      HighBitClear(x / 2, k - 1, b - 1);
    }
  }

  lemma Pow2At40()
    ensures Pow2(40) == 0x100_0000_0000 && Pow2(52) == 0x10_0000_0000_0000
  {
    Pow2At12();
    assert Pow2(16) == 0x1_0000; assert Pow2(20) == 0x10_0000; assert Pow2(24) == 0x100_0000;
    assert Pow2(28) == 0x1000_0000; assert Pow2(32) == 0x1_0000_0000; assert Pow2(36) == 0x10_0000_0000;
    assert Pow2(44) == 0x1000_0000_0000; assert Pow2(48) == 0x1_0000_0000_0000;
  }
}
