/**
  Machine integers of the C sources, and the bit operations that the arithmetic of those sources
  relies on.

  A C expression over a machine type is written here over `int` and stored in a variable of one of
  the types below, so that every store is checked against the width of the C type.  A right shift by
  k bits is `/ 2^k` (Dafny's division rounds down for a positive divisor, which is what an arithmetic
  shift does), and a mask with 2^k - 1 is `% 2^k`.
 */
module Machine {
  import opened Residues

  type u8 = x: int | 0 <= x < 0x100
  type u16 = x: int | 0 <= x < 0x1_0000
  type u32 = x: int | 0 <= x < 0x1_0000_0000
  type u64 = x: int | 0 <= x < 0x1_0000_0000_0000_0000
  type i64 = x: int | -0x8000_0000_0000_0000 <= x < 0x8000_0000_0000_0000

  const TWO_32 := 0x1_0000_0000
  const TWO_64 := 0x1_0000_0000_0000_0000

  /** Unsigned arithmetic of 32 bits. */
  function Word32(n: int): u32 {
    n % TWO_32
  }

  /** The conversion of an unsigned word to int. */
  function Signed(n: u32): int {
    if n < 0x8000_0000 then n else n - TWO_32
  }

  /** 2 to the power n. */
  function Pow2(n: nat): (r: int)
    ensures r > 0
  {
    if n == 0 then 1 else 2 * Pow2(n - 1)
  }

  /** x is representable in n bits and a sign. */
  predicate Fits(x: int, n: nat) {
    -Pow2(n) <= x < Pow2(n)
  }

  /** Exclusive or of two integers of n bits and a sign, in two's complement. */
  function Xor(x: int, y: int, n: nat): int
    decreases n
  {
    if n == 0 then (if x == y then 0 else -1)
    else 2 * Xor(x / 2, y / 2, n - 1) + (if x % 2 == y % 2 then 0 else 1)
  }

  /** Conjunction of two integers of n bits and a sign, in two's complement. */
  function And(x: int, y: int, n: nat): int
    decreases n
  {
    if n == 0 then (if x == y then x else 0)
    else 2 * And(x / 2, y / 2, n - 1) + (if x % 2 == 1 && y % 2 == 1 then 1 else 0)
  }

  /** Disjunction of two integers of n bits and a sign, in two's complement. */
  function Or(x: int, y: int, n: nat): int
    decreases n
  {
    if n == 0 then (if x == y then x else -1)
    else 2 * Or(x / 2, y / 2, n - 1) + (if x % 2 == 0 && y % 2 == 0 then 0 else 1)
  }

  lemma {:induction false} XorFits(x: int, y: int, n: nat)
    requires Fits(x, n) && Fits(y, n)
    ensures Fits(Xor(x, y, n), n)
    ensures x >= 0 && y >= 0 ==> Xor(x, y, n) >= 0
    decreases n
  {
    if n > 0 {
      XorFits(x / 2, y / 2, n - 1);
    }
  }

  /** The lowest bit of an exclusive or, and the rest of it. */
  lemma XorHalves(x: int, y: int, n: nat)
    requires n > 0
    ensures Xor(x, y, n) / 2 == Xor(x / 2, y / 2, n - 1)
    ensures Xor(x, y, n) % 2 == if x % 2 == y % 2 then 0 else 1
  {
  }

  lemma {:induction false} XorCommutes(x: int, y: int, n: nat)
    ensures Xor(x, y, n) == Xor(y, x, n)
    decreases n
  {
    if n > 0 {
      XorCommutes(x / 2, y / 2, n - 1);
    }
  }

  lemma {:induction false} XorCancels(x: int, y: int, n: nat)
    requires Fits(x, n) && Fits(y, n)
    ensures Xor(Xor(x, y, n), y, n) == x
    decreases n
  {
    if n > 0 {
      XorHalves(x, y, n);
      XorCancels(x / 2, y / 2, n - 1);
    }
  }

  lemma XorSelfInverse(x: int, y: int, n: nat)
    requires Fits(x, n) && Fits(y, n)
    ensures Xor(Xor(x, y, n), y, n) == x
    ensures Xor(x, Xor(x, y, n), n) == y
    ensures Xor(y, Xor(x, y, n), n) == x
  {
    XorCancels(x, y, n);
    XorCancels(y, x, n);
    XorCommutes(x, y, n);
    XorCommutes(Xor(x, y, n), x, n);
    XorCommutes(Xor(x, y, n), y, n);
  }

  lemma {:induction false} XorWithZero(x: int, n: nat)
    requires Fits(x, n)
    ensures Xor(x, 0, n) == x
    decreases n
  {
    if n > 0 {
      XorWithZero(x / 2, n - 1);
    }
  }

  lemma {:induction false} XorZero(x: int, y: int, n: nat)
    requires Fits(x, n) && Fits(y, n)
    ensures Xor(x, y, n) == 0 <==> x == y
    decreases n
  {
    if n > 0 {
      XorZero(x / 2, y / 2, n - 1);
    }
  }

  /** A mask of all ones keeps its argument, a mask of zeros clears it. */
  lemma {:induction false} AndMask(x: int, n: nat)
    requires Fits(x, n)
    ensures And(0, x, n) == 0
    ensures And(-1, x, n) == x
    ensures x >= 0 ==> And(Pow2(n) - 1, x, n) == x
    decreases n
  {
    if n > 0 {
      AndMask(x / 2, n - 1);
    }
  }

  lemma {:induction false} OrZero(x: int, y: int, n: nat)
    requires 0 <= x < Pow2(n) && 0 <= y < Pow2(n)
    ensures 0 <= Or(x, y, n) < Pow2(n)
    ensures Or(x, y, n) == 0 <==> x == 0 && y == 0
    decreases n
  {
    if n > 0 {
      OrZero(x / 2, y / 2, n - 1);
    }
  }

  lemma {:induction false} Pow2Adds(m: nat, n: nat)
    ensures Pow2(m + n) == Pow2(m) * Pow2(n)
    decreases m
  {
    if m > 0 {
      Pow2Adds(m - 1, n);
      assert 2 * (Pow2(m - 1) * Pow2(n)) == Pow2(m) * Pow2(n);
    }
  }

  lemma Widths()
    ensures Pow2(64) == TWO_64
    ensures Pow2(8) == 0x100 && Pow2(16) == 0x1_0000 && Pow2(31) == 0x8000_0000 && Pow2(32) == TWO_32
    ensures Pow2(63) == 0x8000_0000_0000_0000
  {
    assert Pow2(4) == 16;
    Pow2Adds(4, 4);
    Pow2Adds(8, 8);
    Pow2Adds(16, 16);
    Pow2Adds(32, 32);
    assert Pow2(64) == 2 * Pow2(63) && Pow2(32) == 2 * Pow2(31);
  }

  /** The mask that a flag selects is all ones or all zeros, so that three exclusive ors exchange
      two words, or leave them. */
  lemma MaskedExchange(x: int, y: int, b: int, n: nat)
    requires Fits(x, n) && Fits(y, n) && 0 <= b <= 1
    ensures var t := And(-b, Xor(x, y, n), n);
            (Xor(x, t, n), Xor(y, t, n)) == if b == 1 then (y, x) else (x, y)
  {
    XorFits(x, y, n);
    AndMask(Xor(x, y, n), n);
    XorSelfInverse(x, y, n);
    XorWithZero(x, n);
    XorWithZero(y, n);
  }

  // Bits.

  /** Bit i of a number that is not negative. */
  function BitOf(x: int, i: nat): int {
    x / Pow2(i) % 2
  }

  /** Dividing by 2 and then by a power of two. */
  lemma HalfThen(x: int, p: int)
    requires p > 0
    ensures x / 2 / p == x / (2 * p)
  {
    var y := x / 2;
    var q, r, s := y / p, y % p, x % 2;
    assert y == q * p + r && x == 2 * y + s;
    assert x == q * (2 * p) + (2 * r + s) by {
      assert 2 * (q * p) == q * (2 * p);
    }
    assert 0 <= 2 * r + s < 2 * p;
    DivModUnique(x, 2 * p, q, 2 * r + s);
  }

  lemma BitAbove(x: int, i: nat)
    requires i > 0
    ensures BitOf(x, i) == BitOf(x / 2, i - 1)
  {
    HalfThen(x, Pow2(i - 1));
  }

  lemma {:induction false} XorBit(x: int, y: int, n: nat, i: nat)
    requires i < n
    ensures BitOf(Xor(x, y, n), i) == (BitOf(x, i) + BitOf(y, i)) % 2
    decreases n
  {
    XorHalves(x, y, n);
    if i > 0 {
      XorBit(x / 2, y / 2, n - 1, i - 1);
      BitAbove(Xor(x, y, n), i);
      BitAbove(x, i);
      BitAbove(y, i);
    }
  }

  lemma {:induction false} AndBit(x: int, y: int, n: nat, i: nat)
    requires i < n
    ensures BitOf(And(x, y, n), i) == BitOf(x, i) * BitOf(y, i)
    decreases n
  {
    var r := And(x, y, n);
    assert r / 2 == And(x / 2, y / 2, n - 1) && r % 2 == (x % 2) * (y % 2);
    if i > 0 {
      AndBit(x / 2, y / 2, n - 1, i - 1);
      BitAbove(r, i);
      BitAbove(x, i);
      BitAbove(y, i);
    }
  }

  lemma {:induction false} AndFits(x: int, y: int, n: nat)
    requires 0 <= x < Pow2(n) && 0 <= y < Pow2(n)
    ensures 0 <= And(x, y, n) < Pow2(n)
    decreases n
  {
    if n > 0 {
      AndFits(x / 2, y / 2, n - 1);
    }
  }

  lemma OrHalves(x: int, y: int, n: nat)
    requires n > 0
    ensures Or(x, y, n) == 2 * Or(x / 2, y / 2, n - 1) + (if x % 2 == 0 && y % 2 == 0 then 0 else 1)
  {
  }

  lemma Doubled(b: int, p: int)
    ensures b * (2 * p) == 2 * (b * p) && 2 * (b * p) / 2 == b * p && 2 * (b * p) % 2 == 0
  {
  }

  /** Numbers without a bit in common: joining them is adding them. */
  lemma {:induction false} OrDisjoint(a: nat, b: nat, k: nat, n: nat)
    requires k <= n && a < Pow2(k) && b < Pow2(n - k)
    ensures Or(a, b * Pow2(k), n) == a + b * Pow2(k)
    decreases n
  {
    hide Or;
    if k == 0 {
      OrWithZero(b, n);
    } else {
      OrDisjoint(a / 2, b, k - 1, n - 1);
      Doubled(b, Pow2(k - 1));
      OrHalves(a, b * Pow2(k), n);
    }
  }

  lemma {:induction false} OrWithZero(x: int, n: nat)
    requires 0 <= x < Pow2(n)
    ensures Or(0, x, n) == x
    decreases n
  {
    if n > 0 {
      OrWithZero(x / 2, n - 1);
    }
  }

  lemma HalfOfParts(x: nat, p: int)
    requires p > 0
    ensures x / 2 % p == x % (2 * p) / 2 && x % 2 == x % (2 * p) % 2
  {
    var q, r := x / (2 * p), x % (2 * p);
    assert x == q * (2 * p) + r && q * (2 * p) == 2 * (q * p);
    DivModUnique(x / 2, p, q, r / 2);
  }

  /** The bits of a number below 2^n, and of what is left above. */
  lemma {:induction false} LowBit(x: nat, n: nat, i: nat)
    requires i < n
    ensures BitOf(x % Pow2(n), i) == BitOf(x, i)
    decreases i
  {
    var r := x % Pow2(n);
    HalfOfParts(x, Pow2(n - 1));
    if i > 0 {
      hide BitOf, Pow2;
      LowBit(x / 2, n - 1, i - 1);
      BitAbove(x, i);
      BitAbove(r, i);
    }
  }

  lemma HighBit(x: int, n: nat, i: nat)
    ensures BitOf(x / Pow2(n), i) == BitOf(x, n + i)
  {
    hide Pow2;
    DivideTwice(x, n, i);
  }

  lemma {:induction false} DivideTwice(x: int, m: nat, n: nat)
    ensures x / Pow2(m) / Pow2(n) == x / Pow2(m + n)
    decreases m
  {
    if m == 0 {
      assert x / 1 == x;
    } else {
      HalfThen(x, Pow2(m - 1));
      HalfThen(x, Pow2(m + n - 1));
      DivideTwice(x / 2, m - 1, n);
    }
  }
}
