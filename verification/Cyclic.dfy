/**
 32-bit cyclic sequence and frame numbers (modules/transport/Packet.cpp:152-154).

 `Wrap` sends an unbounded number to its 32-bit residue. The lemmas say for
 which unbounded numbers the wrapped comparison and subtraction give the answer
 the unbounded ones would give.
 */
module Cyclic {
  const MOD: int := 0x1_0000_0000
  const HALF: int := 0x8000_0000

  type byte = x: int | 0 <= x < 256
  type u16 = x: int | 0 <= x < 0x1_0000
  type u32 = x: int | 0 <= x < 0x1_0000_0000
  type u64 = x: int | 0 <= x < 0x1_0000_0000_0000_0000

  function Wrap(x: int): u32 {
    x % MOD
  }

  /** Unsigned 32-bit `a - b`. */
  function Sub(a: u32, b: u32): u32 {
    (a - b) % MOD
  }

  /** Unsigned 32-bit `a + n`. */
  function Add(a: u32, n: int): u32 {
    (a + n) % MOD
  }

  /** `static_cast<int32_t>`. */
  function Signed(x: u32): int {
    if x < HALF then x else x - MOD
  }

  /** `seqNewerThan`: is `a` newer than `b`? */
  predicate SeqNewer(a: u32, b: u32) {
    Signed(Sub(a, b)) > 0
  }

  /** Two unbounded numbers close enough for the cyclic comparison to be meaningful. */
  predicate Near(x: int, y: int) {
    -HALF < x - y < HALF
  }

  lemma SubWrapped(x: int, y: int)
    requires 0 <= x - y < MOD
    ensures Sub(Wrap(x), Wrap(y)) == x - y
  {
    DifferenceModulo(x, y);
  }

  lemma DifferenceModulo(x: int, y: int)
    ensures Sub(Wrap(x), Wrap(y)) == (x - y) % MOD
  {
    var k, j := x / MOD, y / MOD;
    assert x % MOD - y % MOD == (x - y) - MOD * (k - j);
    ShiftModulo(x - y, k - j);
  }

  lemma ShiftModulo(x: int, k: int)
    ensures (x - MOD * k) % MOD == x % MOD
  {
    var q, r := x / MOD, x % MOD;
    assert x - MOD * k == MOD * (q - k) + r;
    QuotientUnique(x - MOD * k, q - k, r);
  }

  lemma QuotientUnique(x: int, q: int, r: int)
    requires x == MOD * q + r && 0 <= r < MOD
    ensures x % MOD == r && x / MOD == q
  {
  }

  lemma AddWrapped(x: int, n: int)
    ensures Add(Wrap(x), n) == Wrap(x + n)
  {
    assert Wrap(x) + n == (x + n) - MOD * (x / MOD);
    ShiftModulo(x + n, x / MOD);
  }

  /** Within half a turn, the cyclic comparison agrees with the unbounded one. */
  lemma NewerMeansGreater(x: int, y: int)
    requires Near(x, y)
    ensures SeqNewer(Wrap(x), Wrap(y)) <==> x > y
  {
    DifferenceModulo(x, y);
    if x < y {
      QuotientUnique(x - y, -1, x - y + MOD);
    }
  }

  /** For any two numbers, `SeqNewer` looks only at their distance modulo a full turn. */
  lemma NewerByDistance(x: int, y: int)
    ensures SeqNewer(Wrap(x), Wrap(y)) <==> 0 < (x - y) % MOD < HALF
  {
    DifferenceModulo(x, y);
  }

  /** Numbers less than a full turn apart are not identified by wrapping. */
  lemma WrapInjective(x: int, y: int)
    requires -MOD < x - y < MOD
    ensures Wrap(x) == Wrap(y) <==> x == y
  {
    DifferenceModulo(x, y);
    if x < y {
      QuotientUnique(x - y, -1, x - y + MOD);
    }
  }

  /** `SeqNewer` is not an order on all of uint32: it has a cycle of length three, and
      two numbers exactly half a turn apart are both "not newer" than each other. */
  lemma NewerIsNotAnOrder()
    ensures exists a: u32, b: u32, c: u32 :: SeqNewer(b, a) && SeqNewer(c, b) && SeqNewer(a, c)
    ensures exists a: u32, b: u32 :: a != b && !SeqNewer(a, b) && !SeqNewer(b, a)
  {
    assert SeqNewer(0x6000_0000, 0) && SeqNewer(0xC000_0000, 0x6000_0000) && SeqNewer(0, 0xC000_0000);
    assert !SeqNewer(0, HALF) && !SeqNewer(HALF, 0);
  }
}
