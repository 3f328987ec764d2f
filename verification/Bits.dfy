/**
 Bitwise operations on non-negative integers, read least significant bit first.
 The C++ code applies `^`, `|` and `&` to `uint8_t` and `uint16_t`; here the
 same operations are defined on integers so that they mix freely with lengths.
 */
module Bits {

  /** Exclusive or. */
  function Xor(a: nat, b: nat): nat
    decreases a + b
  {
    if a == 0 && b == 0 then 0 else (if a % 2 == b % 2 then 0 else 1) + 2 * Xor(a / 2, b / 2)
  }

  lemma {:induction false} XorZero(a: nat)
    ensures Xor(a, 0) == a && Xor(0, a) == a
    decreases a
  {
    if a != 0 { XorZero(a / 2); }
  }

  lemma {:induction false} XorComm(a: nat, b: nat)
    ensures Xor(a, b) == Xor(b, a)
    decreases a + b
  {
    if a + b != 0 { XorComm(a / 2, b / 2); }
  }

  lemma {:induction false} XorSelf(a: nat)
    ensures Xor(a, a) == 0
    decreases a
  {
    if a != 0 { XorSelf(a / 2); }
  }

  lemma {:induction false} XorAssoc(a: nat, b: nat, c: nat)
    ensures Xor(Xor(a, b), c) == Xor(a, Xor(b, c))
    decreases a + b + c
  {
    if a + b + c != 0 {
      XorAssoc(a / 2, b / 2, c / 2);
      XorStep(a, b);
      XorStep(b, c);
      XorStep(Xor(a, b), c);
      XorStep(a, Xor(b, c));
      SameHalves(Xor(Xor(a, b), c), Xor(a, Xor(b, c)));
    }
  }

  lemma SameHalves(l: nat, r: nat)
    requires l % 2 == r % 2 && l / 2 == r / 2
    ensures l == r
  {
  }

  /** The lowest bit and the rest of an exclusive or, for all arguments. */
  lemma XorStep(a: nat, b: nat)
    ensures Xor(a, b) % 2 == if a % 2 == b % 2 then 0 else 1
    ensures Xor(a, b) / 2 == Xor(a / 2, b / 2)
  {
  }

  /** Applying the same operand twice gives the first operand back. */
  lemma XorCancel(a: nat, b: nat)
    ensures Xor(Xor(a, b), b) == a
  {
    XorAssoc(a, b, b);
    XorSelf(b);
    XorZero(a);
  }

  function Pow2(n: nat): (r: nat)
    ensures r >= 1
  {
    if n == 0 then 1 else 2 * Pow2(n - 1)
  }

  /** An exclusive or is no wider than its operands. */
  lemma {:induction false} XorWidth(a: nat, b: nat, n: nat)
    requires a < Pow2(n) && b < Pow2(n)
    ensures Xor(a, b) < Pow2(n)
    decreases n
  {
    if n != 0 { XorWidth(a / 2, b / 2, n - 1); }
  }

  lemma Pow2Values()
    ensures Pow2(8) == 256 && Pow2(16) == 65536
  {
    assert Pow2(4) == 16;
    assert Pow2(8) == 256;
    assert Pow2(12) == 4096;
  }

  /** `a >> k`. */
  function Shift(a: nat, k: nat): nat
    decreases k
  {
    if k == 0 then a else Shift(a, k - 1) / 2
  }

  /** Is bit `k` set? */
  predicate Bit(a: nat, k: nat) {
    Shift(a, k) % 2 == 1
  }

  lemma {:induction false} ShiftHalf(a: nat, k: nat)
    ensures Shift(a / 2, k) == Shift(a, k + 1)
  {
    if k != 0 { ShiftHalf(a, k - 1); }
  }

  lemma {:induction false} ShiftOut(a: nat, n: nat)
    requires a < Pow2(n)
    ensures Shift(a, n) == 0
  {
    if n != 0 {
      ShiftOut(a / 2, n - 1);
      ShiftHalf(a, n - 1);
    }
  }

  /** `a | (1 << k)`. */
  function SetBit(a: nat, k: nat): nat
    decreases k
  {
    if k == 0 then (if a % 2 == 1 then a else a + 1) else a % 2 + 2 * SetBit(a / 2, k - 1)
  }

  lemma {:induction false} BitOfSetBit(a: nat, k: nat, j: nat)
    ensures Bit(SetBit(a, k), j) == (j == k || Bit(a, j))
    decreases k
  {
    var r := SetBit(a, k);
    if j != 0 {
      ShiftHalf(a, j - 1);
      ShiftHalf(r, j - 1);
      if k == 0 {
        assert r / 2 == a / 2;
      } else {
        assert r / 2 == SetBit(a / 2, k - 1);
        BitOfSetBit(a / 2, k - 1, j - 1);
      }
    }
  }

  lemma {:induction false} SetBitWidth(a: nat, k: nat, n: nat)
    requires a < Pow2(n) && k < n
    ensures SetBit(a, k) < Pow2(n)
    decreases n
  {
    var p := Pow2(n - 1);
    assert Pow2(n) == 2 * p;
    if k != 0 {
      SetBitWidth(a / 2, k - 1, n - 1);
      assert SetBit(a / 2, k - 1) < p;
    }
  }

  lemma {:induction false} BitOfZero(k: nat)
    ensures !Bit(0, k)
  {
    ShiftOfZero(k);
  }

  lemma {:induction false} ShiftOfZero(k: nat)
    ensures Shift(0, k) == 0
  {
    if k != 0 { ShiftOfZero(k - 1); }
  }
}
