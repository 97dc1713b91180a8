/** What the functions and constants of SHA-512 are: bit by bit, and as roots of the first primes (FIPS 180-4). */
module HashLaws {
  import opened Machine
  import opened Limbs
  import opened Residues
  import opened Sha512

  // Bits.

  /** Bit i of a rotation to the right by c is bit i + c, counted around. */
  lemma RotateBits(x: word, c: nat, i: nat)
    requires 0 < c < 64 && i < 64
    ensures BitOf(RotateRight(x, c), i) == BitOf(x, (i + c) % 64)
  {
    hide Pow2, BitOf, Or;
    var p, q := Pow2(c), Pow2(64 - c);
    var a, b := x / p, x % p;
    Rotated(x, c);
    RotateFits(x, c);
    var r := a + b * q;
    if i < 64 - c {
      DivModUnique(r, q, b, a);
      LowBit(r, 64 - c, i);
      HighBit(x, c, i);
    } else {
      var j := i - (64 - c);
      DivModUnique(r, q, b, a);
      HighBit(r, 64 - c, j);
      LowBit(x, c, j);
      assert (i + c) % 64 == j;
    }
  }

  /** Bit i of a shift to the right by c is bit i + c, if there is one. */
  lemma ShiftBits(x: word, c: nat, i: nat)
    requires 0 < c < 64 && i < 64
    ensures BitOf(ShiftRight(x, c), i) == if i + c < 64 then BitOf(x, i + c) else 0
  {
    hide Pow2, BitOf;
    HighBit(x, c, i);
    if i + c >= 64 {
      NoHighBits(x, i + c);
    }
  }

  lemma NoHighBits(x: word, i: nat)
    requires i >= 64
    ensures BitOf(x, i) == 0
  {
    hide Pow2;
    Widths();
    Pow2Adds(64, i - 64);
    MulMonotone(Pow2(64), 1, Pow2(i - 64));
    DivModUnique(x, Pow2(i), 0, x);
  }

  lemma {:induction false} NotBit(x: int, n: nat, i: nat)
    requires 0 <= x < Pow2(n) && i < n
    ensures BitOf(Pow2(n) - 1 - x, i) == 1 - BitOf(x, i)
    decreases n
  {
    var y := Pow2(n) - 1 - x;
    assert y / 2 == Pow2(n - 1) - 1 - x / 2 && y % 2 == 1 - x % 2;
    if i > 0 {
      hide BitOf;
      NotBit(x / 2, n - 1, i - 1);
      BitAbove(x, i);
      BitAbove(y, i);
    } else {
      LowestBit(x);
      LowestBit(y);
    }
  }

  lemma LowestBit(x: int)
    ensures BitOf(x, 0) == x % 2
  {
    assert Pow2(0) == 1 && x / 1 == x;
  }

  lemma Xor3Bits(x: word, y: word, z: word, i: nat)
    requires i < 64
    ensures BitOf(Xor3(x, y, z), i) == (BitOf(x, i) + BitOf(y, i) + BitOf(z, i)) % 2
  {
    hide BitOf, Xor;
    XorBit(x, y, 64, i);
    XorBit(Xor2(x, y), z, 64, i);
  }

  lemma BitIsBit(x: int, i: nat)
    ensures 0 <= BitOf(x, i) <= 1
  {
  }

  lemma BothBits(x: word, y: word, i: nat)
    requires i < 64
    ensures BitOf(Both(x, y), i) == if BitOf(x, i) == 1 then BitOf(y, i) else 0
  {
    hide BitOf, And;
    AndBit(x, y, 64, i);
    BitIsBit(x, i);
  }

  /** Where bit i of x is set, the choice is y, and elsewhere z. */
  lemma ChooseBits(x: word, y: word, z: word, i: nat)
    requires i < 64
    ensures BitOf(SHA_512.choose(x, y, z), i) == if BitOf(x, i) == 1 then BitOf(y, i) else BitOf(z, i)
  {
    hide BitOf, Xor, Both;
    Widths();
    BothBits(x, y, i);
    BothBits(Complement(x), z, i);
    NotBit(x, 64, i);
    BitIsBit(x, i);
    BitIsBit(y, i);
    BitIsBit(z, i);
    XorBit(Both(x, y), Both(Complement(x), z), 64, i);
  }

  /** Bit i of the majority is set where at least two of three are. */
  lemma MajorityBits(x: word, y: word, z: word, i: nat)
    requires i < 64
    ensures BitOf(SHA_512.majority(x, y, z), i) == if BitOf(x, i) + BitOf(y, i) + BitOf(z, i) >= 2 then 1 else 0
  {
    hide BitOf, Xor3, Both;
    BothBits(x, y, i);
    BothBits(x, z, i);
    BothBits(y, z, i);
    BitIsBit(x, i);
    BitIsBit(y, i);
    BitIsBit(z, i);
    Xor3Bits(Both(x, y), Both(x, z), Both(y, z), i);
  }

  /** The four mixing functions of section 4.1.3, bit by bit. */
  lemma SigmaBits(x: word, i: nat)
    requires i < 64
    ensures BitOf(SHA_512.big0(x), i)
            == (BitOf(x, (i + 28) % 64) + BitOf(x, (i + 34) % 64) + BitOf(x, (i + 39) % 64)) % 2
    ensures BitOf(SHA_512.big1(x), i)
            == (BitOf(x, (i + 14) % 64) + BitOf(x, (i + 18) % 64) + BitOf(x, (i + 41) % 64)) % 2
    ensures BitOf(SHA_512.small0(x), i)
            == (BitOf(x, (i + 1) % 64) + BitOf(x, (i + 8) % 64) + if i + 7 < 64 then BitOf(x, i + 7) else 0) % 2
    ensures BitOf(SHA_512.small1(x), i)
            == (BitOf(x, (i + 19) % 64) + BitOf(x, (i + 61) % 64) + if i + 6 < 64 then BitOf(x, i + 6) else 0) % 2
  {
    hide BitOf, Xor3, RotateRight, ShiftRight;
    forall c | c in {28, 34, 39, 14, 18, 41, 1, 8, 19, 61}
      ensures BitOf(RotateRight(x, c), i) == BitOf(x, (i + c) % 64)
    {
      RotateBits(x, c, i);
    }
    ShiftBits(x, 7, i);
    ShiftBits(x, 6, i);
    Xor3Bits(RotateRight(x, 28), RotateRight(x, 34), RotateRight(x, 39), i);
    Xor3Bits(RotateRight(x, 14), RotateRight(x, 18), RotateRight(x, 41), i);
    Xor3Bits(RotateRight(x, 1), RotateRight(x, 8), ShiftRight(x, 7), i);
    Xor3Bits(RotateRight(x, 19), RotateRight(x, 61), ShiftRight(x, 6), i);
  }

  /** Words with the same bits are the same. */
  lemma {:induction false} SameBits(x: int, y: int, n: nat)
    requires 0 <= x < Pow2(n) && 0 <= y < Pow2(n)
    requires forall i :: 0 <= i < n ==> BitOf(x, i) == BitOf(y, i)
    ensures x == y
    decreases n
  {
    if n > 0 {
      forall i | 0 <= i < n - 1 ensures BitOf(x / 2, i) == BitOf(y / 2, i) {
        BitAbove(x, i + 1);
        BitAbove(y, i + 1);
      }
      SameBits(x / 2, y / 2, n - 1);
      assert BitOf(x, 0) == x % 2 && BitOf(y, 0) == y % 2;
    }
  }

  // Roots of primes.

  const PRIMES_0: seq<nat> := [2, 3, 5, 7, 11, 13, 17, 19, 23, 29, 31, 37, 41, 43, 47, 53]
  const PRIMES_1: seq<nat> := [59, 61, 67, 71, 73, 79, 83, 89, 97, 101, 103, 107, 109, 113, 127, 131]
  const PRIMES_2: seq<nat> := [137, 139, 149, 151, 157, 163, 167, 173, 179, 181, 191, 193, 197, 199, 211, 223]
  const PRIMES_3: seq<nat> := [227, 229, 233, 239, 241, 251, 257, 263, 269, 271, 277, 281, 283, 293, 307, 311]
  const PRIMES_4: seq<nat> := [313, 317, 331, 337, 347, 349, 353, 359, 367, 373, 379, 383, 389, 397, 401, 409]
  const PRIMES := PRIMES_0 + PRIMES_1 + PRIMES_2 + PRIMES_3 + PRIMES_4

  ghost predicate Prime(n: int) {
    n >= 2 && forall d :: 2 <= d < n ==> n % d != 0
  }

  /** No small prime divides n, but perhaps n itself. */
  predicate Passes(n: int) {
    && (n == 2 || n % 2 != 0) && (n == 3 || n % 3 != 0) && (n == 5 || n % 5 != 0) && (n == 7 || n % 7 != 0)
    && (n == 11 || n % 11 != 0) && (n == 13 || n % 13 != 0) && (n == 17 || n % 17 != 0) && (n == 19 || n % 19 != 0)
  }

  lemma PrimePasses(n: int)
    requires Prime(n)
    ensures Passes(n)
  {
    forall d | d in {2, 3, 5, 7, 11, 13, 17, 19} ensures n == d || n % d != 0 {
      DivModUnique(n, d, n / d, n % d);
    }
  }

  /** Below 23^2 the eight primes before 23 decide. */
  lemma PassesIfPrime(n: int)
    requires 2 <= n < 529
    ensures Prime(n) <==> Passes(n)
  {
    hide Passes;
    if Prime(n) {
      PrimePasses(n);
    } else {
      var d :| 2 <= d < n && n % d == 0;
      Factors(n, d, n / d);
    }
  }

  lemma Factors(n: int, d: int, e: int)
    requires n == d * e && 2 <= d < n < 529
    ensures !Passes(n)
  {
    assert e >= 2 by {
      if e <= 1 {
        MulMonotone(d, e, 1);
      }
    }
    if d < 23 {
      SmallFactor(n, d, e);
    } else {
      if e >= 23 {
        MulMonotone(d, 23, e);
      }
      MulMonotone(e, 2, d);
      SmallFactor(n, e, d);
    }
  }

  lemma SmallFactor(n: int, d: int, e: int)
    requires n == d * e && 2 <= d < 23 && e >= 2
    ensures !Passes(n)
  {
    var s := if d % 2 == 0 then 2 else if d % 3 == 0 then 3 else if d % 5 == 0 then 5 else if d % 7 == 0 then 7 else d;
    assert s in {2, 3, 5, 7, 11, 13, 17, 19} && d % s == 0 && s <= d;
    var c := d / s;
    assert d == s * c;
    assert s * c * e == s * (c * e);
    DivModUnique(n, s, c * e, 0);
    MulMonotone(d, 2, e);
  }

  /** Between q and p no number passes. */
  predicate Gap(q: nat, p: nat) {
    || (q <= 2 && p == q + 1)
    || (&& 2 < q < p <= q + 14 && q % 2 == 1
        && (q + 2 < p ==> !Passes(q + 2)) && (q + 4 < p ==> !Passes(q + 4)) && (q + 6 < p ==> !Passes(q + 6))
        && (q + 8 < p ==> !Passes(q + 8)) && (q + 10 < p ==> !Passes(q + 10)) && (q + 12 < p ==> !Passes(q + 12)))
  }

  lemma NothingBetween(q: nat, m: nat, p: nat)
    requires Gap(q, p) && q < m < p
    ensures !Passes(m)
  {
    hide Passes;
    if m % 2 == 0 {
      EvenFails(m);
    } else {
      assert m in {q + 2, q + 4, q + 6, q + 8, q + 10, q + 12};
    }
  }

  lemma EvenFails(m: nat)
    requires m % 2 == 0 && m != 2
    ensures !Passes(m)
  {
  }

  lemma {:induction false} NoneLeftOut(ps: seq<nat>, t: nat, n: nat)
    requires t < |ps| && ps[0] == 2 && forall i :: 0 < i < |ps| ==> Gap(ps[i - 1], ps[i])
    requires 2 <= n <= ps[t] && Passes(n)
    ensures n in ps
    decreases t
  {
    hide Passes, Gap;
    if t > 0 {
      if n <= ps[t - 1] {
        NoneLeftOut(ps, t - 1, n);
      } else if n < ps[t] {
        NothingBetween(ps[t - 1], n, ps[t]);
      }
    }
  }

  /** a 2^64 + k is the integer part of 2^64 times the cube root of p: k is the first 64 bits of its fraction. */
  predicate CubeRoot(k: word, p: nat, a: nat) {
    var x := a * TWO_64 + k;
    (x * x) * x <= p * (TWO_64 * TWO_64 * TWO_64) < ((x + 1) * (x + 1)) * (x + 1)
  }

  predicate SquareRoot(k: word, p: nat, a: nat) {
    var x := a * TWO_64 + k;
    x * x <= p * (TWO_64 * TWO_64) < (x + 1) * (x + 1)
  }

  /** A prime by the test, and the constant that belongs to it. */
  ghost predicate GoodRow(k: word, p: nat) {
    2 <= p <= 409 && Passes(p) && exists a: nat :: CubeRoot(k, p, a)
  }

  lemma Row(k: word, q: nat, p: nat, a: nat)
    requires 2 <= p <= 409 && Passes(p) && Gap(q, p) && CubeRoot(k, p, a)
    ensures GoodRow(k, p) && Gap(q, p)
  {
    hide Passes, CubeRoot;
  }

  lemma Rows0(t: nat)
    requires t < 16
    ensures |K_0| == |PRIMES_0| == 16 && GoodRow(K_0[t], PRIMES_0[t])
    ensures Gap(if t > 0 then PRIMES_0[t - 1] else 1, PRIMES_0[t])
  {
    hide GoodRow;
    if
    case t == 0 => Row(0x428a2f98d728ae22, 1, 2, 1);
    case t == 1 => Row(0x7137449123ef65cd, 2, 3, 1);
    case t == 2 => Row(0xb5c0fbcfec4d3b2f, 3, 5, 1);
    case t == 3 => Row(0xe9b5dba58189dbbc, 5, 7, 1);
    case t == 4 => Row(0x3956c25bf348b538, 7, 11, 2);
    case t == 5 => Row(0x59f111f1b605d019, 11, 13, 2);
    case t == 6 => Row(0x923f82a4af194f9b, 13, 17, 2);
    case t == 7 => Row(0xab1c5ed5da6d8118, 17, 19, 2);
    case t == 8 => Row(0xd807aa98a3030242, 19, 23, 2);
    case t == 9 => Row(0x12835b0145706fbe, 23, 29, 3);
    case t == 10 => Row(0x243185be4ee4b28c, 29, 31, 3);
    case t == 11 => Row(0x550c7dc3d5ffb4e2, 31, 37, 3);
    case t == 12 => Row(0x72be5d74f27b896f, 37, 41, 3);
    case t == 13 => Row(0x80deb1fe3b1696b1, 41, 43, 3);
    case t == 14 => Row(0x9bdc06a725c71235, 43, 47, 3);
    case t == 15 => Row(0xc19bf174cf692694, 47, 53, 3);
  }

  lemma Rows1(t: nat)
    requires t < 16
    ensures |K_1| == |PRIMES_1| == 16 && GoodRow(K_1[t], PRIMES_1[t])
    ensures Gap(if t > 0 then PRIMES_1[t - 1] else 53, PRIMES_1[t])
  {
    hide GoodRow;
    if
    case t == 0 => Row(0xe49b69c19ef14ad2, 53, 59, 3);
    case t == 1 => Row(0xefbe4786384f25e3, 59, 61, 3);
    case t == 2 => Row(0x0fc19dc68b8cd5b5, 61, 67, 4);
    case t == 3 => Row(0x240ca1cc77ac9c65, 67, 71, 4);
    case t == 4 => Row(0x2de92c6f592b0275, 71, 73, 4);
    case t == 5 => Row(0x4a7484aa6ea6e483, 73, 79, 4);
    case t == 6 => Row(0x5cb0a9dcbd41fbd4, 79, 83, 4);
    case t == 7 => Row(0x76f988da831153b5, 83, 89, 4);
    case t == 8 => Row(0x983e5152ee66dfab, 89, 97, 4);
    case t == 9 => Row(0xa831c66d2db43210, 97, 101, 4);
    case t == 10 => Row(0xb00327c898fb213f, 101, 103, 4);
    case t == 11 => Row(0xbf597fc7beef0ee4, 103, 107, 4);
    case t == 12 => Row(0xc6e00bf33da88fc2, 107, 109, 4);
    case t == 13 => Row(0xd5a79147930aa725, 109, 113, 4);
    case t == 14 => Row(0x06ca6351e003826f, 113, 127, 5);
    case t == 15 => Row(0x142929670a0e6e70, 127, 131, 5);
  }

  lemma Rows2(t: nat)
    requires t < 16
    ensures |K_2| == |PRIMES_2| == 16 && GoodRow(K_2[t], PRIMES_2[t])
    ensures Gap(if t > 0 then PRIMES_2[t - 1] else 131, PRIMES_2[t])
  {
    hide GoodRow;
    if
    case t == 0 => Row(0x27b70a8546d22ffc, 131, 137, 5);
    case t == 1 => Row(0x2e1b21385c26c926, 137, 139, 5);
    case t == 2 => Row(0x4d2c6dfc5ac42aed, 139, 149, 5);
    case t == 3 => Row(0x53380d139d95b3df, 149, 151, 5);
    case t == 4 => Row(0x650a73548baf63de, 151, 157, 5);
    case t == 5 => Row(0x766a0abb3c77b2a8, 157, 163, 5);
    case t == 6 => Row(0x81c2c92e47edaee6, 163, 167, 5);
    case t == 7 => Row(0x92722c851482353b, 167, 173, 5);
    case t == 8 => Row(0xa2bfe8a14cf10364, 173, 179, 5);
    case t == 9 => Row(0xa81a664bbc423001, 179, 181, 5);
    case t == 10 => Row(0xc24b8b70d0f89791, 181, 191, 5);
    case t == 11 => Row(0xc76c51a30654be30, 191, 193, 5);
    case t == 12 => Row(0xd192e819d6ef5218, 193, 197, 5);
    case t == 13 => Row(0xd69906245565a910, 197, 199, 5);
    case t == 14 => Row(0xf40e35855771202a, 199, 211, 5);
    case t == 15 => Row(0x106aa07032bbd1b8, 211, 223, 6);
  }

  lemma Rows3(t: nat)
    requires t < 16
    ensures |K_3| == |PRIMES_3| == 16 && GoodRow(K_3[t], PRIMES_3[t])
    ensures Gap(if t > 0 then PRIMES_3[t - 1] else 223, PRIMES_3[t])
  {
    hide GoodRow;
    if
    case t == 0 => Row(0x19a4c116b8d2d0c8, 223, 227, 6);
    case t == 1 => Row(0x1e376c085141ab53, 227, 229, 6);
    case t == 2 => Row(0x2748774cdf8eeb99, 229, 233, 6);
    case t == 3 => Row(0x34b0bcb5e19b48a8, 233, 239, 6);
    case t == 4 => Row(0x391c0cb3c5c95a63, 239, 241, 6);
    case t == 5 => Row(0x4ed8aa4ae3418acb, 241, 251, 6);
    case t == 6 => Row(0x5b9cca4f7763e373, 251, 257, 6);
    case t == 7 => Row(0x682e6ff3d6b2b8a3, 257, 263, 6);
    case t == 8 => Row(0x748f82ee5defb2fc, 263, 269, 6);
    case t == 9 => Row(0x78a5636f43172f60, 269, 271, 6);
    case t == 10 => Row(0x84c87814a1f0ab72, 271, 277, 6);
    case t == 11 => Row(0x8cc702081a6439ec, 277, 281, 6);
    case t == 12 => Row(0x90befffa23631e28, 281, 283, 6);
    case t == 13 => Row(0xa4506cebde82bde9, 283, 293, 6);
    case t == 14 => Row(0xbef9a3f7b2c67915, 293, 307, 6);
    case t == 15 => Row(0xc67178f2e372532b, 307, 311, 6);
  }

  lemma Rows4(t: nat)
    requires t < 16
    ensures |K_4| == |PRIMES_4| == 16 && GoodRow(K_4[t], PRIMES_4[t])
    ensures Gap(if t > 0 then PRIMES_4[t - 1] else 311, PRIMES_4[t])
  {
    hide GoodRow;
    if
    case t == 0 => Row(0xca273eceea26619c, 311, 313, 6);
    case t == 1 => Row(0xd186b8c721c0c207, 313, 317, 6);
    case t == 2 => Row(0xeada7dd6cde0eb1e, 317, 331, 6);
    case t == 3 => Row(0xf57d4f7fee6ed178, 331, 337, 6);
    case t == 4 => Row(0x06f067aa72176fba, 337, 347, 7);
    case t == 5 => Row(0x0a637dc5a2c898a6, 347, 349, 7);
    case t == 6 => Row(0x113f9804bef90dae, 349, 353, 7);
    case t == 7 => Row(0x1b710b35131c471b, 353, 359, 7);
    case t == 8 => Row(0x28db77f523047d84, 359, 367, 7);
    case t == 9 => Row(0x32caab7b40c72493, 367, 373, 7);
    case t == 10 => Row(0x3c9ebe0a15c9bebc, 373, 379, 7);
    case t == 11 => Row(0x431d67c49c100d4c, 379, 383, 7);
    case t == 12 => Row(0x4cc5d4becb3e42b6, 383, 389, 7);
    case t == 13 => Row(0x597f299cfc657e2a, 389, 397, 7);
    case t == 14 => Row(0x5fcb6fab3ad6faec, 397, 401, 7);
    case t == 15 => Row(0x6c44198c4a475817, 401, 409, 7);
  }

  lemma AllRows(t: nat)
    requires t < 80
    ensures |SHA_512.k| == |PRIMES| == 80 && GoodRow(SHA_512.k[t], PRIMES[t])
    ensures t > 0 ==> Gap(PRIMES[t - 1], PRIMES[t])
  {
    hide GoodRow, Gap;
    Sizes();
    FifthOf(K_0, K_1, K_2, K_3, K_4, t);
    FifthOf(PRIMES_0, PRIMES_1, PRIMES_2, PRIMES_3, PRIMES_4, t);
    if t > 0 {
      FifthOf(PRIMES_0, PRIMES_1, PRIMES_2, PRIMES_3, PRIMES_4, t - 1);
    }
    if t < 16 {
      Rows0(t);
    } else if t < 32 {
      Rows1(t - 16);
    } else if t < 48 {
      Rows2(t - 32);
    } else if t < 64 {
      Rows3(t - 48);
    } else {
      Rows4(t - 64);
    }
  }

  lemma FifthOf<T>(a: seq<T>, b: seq<T>, c: seq<T>, d: seq<T>, e: seq<T>, t: nat)
    requires |a| == |b| == |c| == |d| == |e| == 16 && t < 80
    ensures var s := a + b + c + d + e;
            |s| == 80 && s[t] == if t < 16 then a[t] else if t < 32 then b[t - 16] else if t < 48 then c[t - 32]
                                 else if t < 64 then d[t - 48] else e[t - 64]
  {
  }

  lemma Sizes()
    ensures |K_0| == |K_1| == |K_2| == |K_3| == |K_4| == 16
    ensures |PRIMES_0| == |PRIMES_1| == |PRIMES_2| == |PRIMES_3| == |PRIMES_4| == 16
    ensures PRIMES_0[0] == 2 && PRIMES_0[15] == 53 && PRIMES_1[15] == 131
    ensures PRIMES_2[15] == 223 && PRIMES_3[15] == 311 && PRIMES_4[15] == 409
  {
  }

  lemma {:induction false} Increasing(ps: seq<nat>, s: nat, t: nat)
    requires s < t < |ps| && forall i :: 0 < i < |ps| ==> ps[i - 1] < ps[i]
    ensures ps[s] < ps[t]
    decreases t
  {
    if s < t - 1 {
      Increasing(ps, s, t - 1);
    }
  }

  lemma GapIsUp(q: nat, p: nat)
    requires Gap(q, p)
    ensures q < p
  {
  }

  /** The first 80 primes: they are primes, in order, and none is left out. */
  lemma FirstPrimes()
    ensures |PRIMES| == 80
    ensures forall t :: 0 <= t < 80 ==> Prime(PRIMES[t])
    ensures forall s, t :: 0 <= s < t < 80 ==> PRIMES[s] < PRIMES[t]
    ensures forall n: int :: Prime(n) && n <= PRIMES[79] ==> n in PRIMES
  {
    hide Prime, Passes, CubeRoot, Gap;
    Sizes();
    forall t | 0 <= t < 80 ensures Prime(PRIMES[t]) {
      AllRows(t);
      PassesIfPrime(PRIMES[t]);
    }
    forall i | 0 < i < 80 ensures Gap(PRIMES[i - 1], PRIMES[i]) && PRIMES[i - 1] < PRIMES[i] {
      AllRows(i);
      GapIsUp(PRIMES[i - 1], PRIMES[i]);
    }
    forall s, t | 0 <= s < t < 80 ensures PRIMES[s] < PRIMES[t] {
      Increasing(PRIMES, s, t);
    }
    forall n: int | Prime(n) && n <= PRIMES[79] ensures n in PRIMES {
      AtLeastTwo(n);
      PassesIfPrime(n);
      NoneLeftOut(PRIMES, 79, n);
    }
  }

  lemma AtLeastTwo(n: int)
    requires Prime(n)
    ensures n >= 2
  {
  }

  /** Constant t is the first 64 bits of the fraction of the cube root of prime t. */
  lemma ConstantsAreRoots(t: nat)
    requires t < 80
    ensures |SHA_512.k| == |PRIMES| == 80 && exists a: nat :: CubeRoot(SHA_512.k[t], PRIMES[t], a)
  {
    hide CubeRoot, Passes;
    AllRows(t);
  }

  lemma SquareRow(i: nat, k: word, p: nat, a: nat)
    requires i < |INITIAL| && i < |PRIMES| && INITIAL[i] == k && PRIMES[i] == p && SquareRoot(k, p, a)
    ensures SquareRoot(INITIAL[i], PRIMES[i], a)
  {
  }

  /** Initial word i is the first 64 bits of the fraction of the square root of prime i. */
  lemma InitialAreRoots(i: nat)
    requires i < 8
    ensures |INITIAL| == 8 && |PRIMES| == 80 && exists a: nat :: SquareRoot(INITIAL[i], PRIMES[i], a)
  {
    hide SquareRoot;
    if
    case i == 0 => SquareRow(i, 0x6a09e667f3bcc908, 2, 1);
    case i == 1 => SquareRow(i, 0xbb67ae8584caa73b, 3, 1);
    case i == 2 => SquareRow(i, 0x3c6ef372fe94f82b, 5, 2);
    case i == 3 => SquareRow(i, 0xa54ff53a5f1d36f1, 7, 2);
    case i == 4 => SquareRow(i, 0x510e527fade682d1, 11, 3);
    case i == 5 => SquareRow(i, 0x9b05688c2b3e6c1f, 13, 3);
    case i == 6 => SquareRow(i, 0x1f83d9abfb41bd6b, 17, 4);
    case i == 7 => SquareRow(i, 0x5be0cd19137e2179, 19, 4);
  }

  /** Nothing but the functions of SHA_512 has these bits. */
  lemma BitsDecide(x: word, y: word)
    requires forall i :: 0 <= i < 64 ==> BitOf(x, i) == BitOf(y, i)
    ensures x == y
  {
    Widths();
    SameBits(x, y, 64);
  }

  // The steps of section 6.4.2.

  /** The schedule: the words of the block, then sums of earlier words. */
  lemma ScheduleForm(f: Functions, block: seq<word>, t: nat)
    requires |block| == 16
    ensures t < 16 ==> Schedule(f, block, t) == block[t]
    ensures t >= 16 ==> Schedule(f, block, t)
                        == (f.small1(Schedule(f, block, t - 2)) + Schedule(f, block, t - 7)
                            + f.small0(Schedule(f, block, t - 15)) + Schedule(f, block, t - 16)) % TWO_64
  {
    if t >= 16 {
      FourTerms(f.small1(Schedule(f, block, t - 2)), Schedule(f, block, t - 7),
                f.small0(Schedule(f, block, t - 15)), Schedule(f, block, t - 16));
    }
  }

  lemma FourTerms(x: word, y: word, z: word, u: word)
    ensures Plus(Plus(Plus(x, y), z), u) == (x + y + z + u) % TWO_64
  {
    assert Plus(x, y) == (x + y) % TWO_64;
    hide Plus;
    SumOnce(x + y, z);
    SumOnce(x + y + z, u);
  }

  lemma SumOnce(n: int, u: word)
    ensures Plus(n % TWO_64, u) == (n + u) % TWO_64
  {
    ModSum(n, u, TWO_64);
    DivModUnique(u, TWO_64, 0, u);
  }

  /** One round on a, b, c, d, e, f, g and h. */
  lemma RoundForm(fs: Functions, a: word, b: word, c: word, d: word, e: word, f: word, g: word, h: word, k: word,
                  w: word)
    ensures var t1 := h + fs.big1(e) + fs.choose(e, f, g) + k + w;
            var t2 := fs.big0(a) + fs.majority(a, b, c);
            Round(fs, [a, b, c, d, e, f, g, h], k, w)
            == [(t1 + t2) % TWO_64, a, b, c, (d + t1) % TWO_64, e, f, g]
  {
    hide Plus;
    var t1 := h + fs.big1(e) + fs.choose(e, f, g) + k + w;
    var t2 := fs.big0(a) + fs.majority(a, b, c);
    FourTerms(h, fs.big1(e), fs.choose(e, f, g), k);
    SumOnce(h + fs.big1(e) + fs.choose(e, f, g) + k, w);
    SumBoth(t1, fs.big0(a), fs.majority(a, b, c));
    SumAfter(d, t1);
  }

  lemma SumBoth(n: int, x: word, y: word)
    ensures 0 <= n % TWO_64 < TWO_64 && Plus(n % TWO_64, Plus(x, y)) == (n + (x + y)) % TWO_64
  {
    ModSum(n, x + y, TWO_64);
  }

  lemma SumAfter(d: word, n: int)
    ensures 0 <= n % TWO_64 < TWO_64 && Plus(d, n % TWO_64) == (d + n) % TWO_64
  {
    SumOnce(n, d);
  }

  /** The padded message: whole blocks, as few as possible; the message, a one bit, zeros, and at the end the number of
      bits of the message (section 5.1.2). */
  lemma PaddingForm(m: seq<u8>)
    requires |m| < TWO_64
    ensures var p := Padded(m);
            && |p| % 128 == 0 && |m| + 17 <= |p| < |m| + 17 + 128
            && p[..|m|] == m && p[|m|] == 0x80 && (forall i :: |m| < i < |p| - 16 ==> p[i] == 0)
            && BigEndian(p[|p| - 16..]) == 8 * |m|
    ensures BigEndian([0x12, 0x34, 0x56]) == 0x12_3456
  {
    hide Bytes, BigEndian;
    RoomForLength();
    BytesRoundTrip(8 * |m|, 16);
    var p := Padded(m);
    assert p[|p| - 16..] == Bytes(8 * |m|, 16);
    ThreeBytes();
  }

  lemma ThreeBytes()
    ensures BigEndian([0x12, 0x34, 0x56]) == 0x12_3456
  {
    var a, b, c: seq<u8> := [0x12], [0x12, 0x34], [0x12, 0x34, 0x56];
    assert a[..0] == [] && b[..1] == a && c[..2] == b;
    assert BigEndian(a) == 0x12 && BigEndian(b) == 0x1234;
  }

  lemma RoomForLength()
    ensures 8 * TWO_64 < Pow(0x100, 16)
  {
    hide Pow;
    EightBytes();
    PowAdds(0x100, 8, 8);
  }
}
