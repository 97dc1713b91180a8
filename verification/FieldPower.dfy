/** Fixed addition chains: the inverse and the root candidate of a field element. */
module FieldPower {
  import opened Machine
  import opened Limbs
  import opened Residues
  import opened Field25519

  /** x^e in the field.  With x in the measure, powers with a constant exponent are not written out. */
  function FPow(x: int, e: nat): int
    decreases e, x
  {
    if e == 0 then Mod(1) else FMul(FPow(x, e - 1), x)
  }

  method S(o: array<i64>, a: array<i64>)
    requires o.Length == 16 && Bounded(a[..], FACTOR)
    modifies o
    ensures Reduced(o[..]) && Bounded(o[..], PRODUCT)
    ensures Fe(o[..]) == FMul(old(Fe(a[..])), old(Fe(a[..])))
  {
    M(o, a, a);
  }

  method Set25519(r: array<i64>, a: array<i64>)
    requires r.Length == 16 && a.Length == 16
    modifies r
    ensures r[..] == old(a[..])
  {
    ghost var s := a[..];
    for i := 0 to 16
      invariant forall k :: 0 <= k < i ==> r[k] == s[k]
      invariant forall k :: i <= k < 16 ==> a[k] == s[k]
    {
      r[i] := a[i];
    }
  }

  lemma {:induction false} FPowAdds(x: int, d: nat, e: nat)
    ensures FPow(x, d + e) == FMul(FPow(x, d), FPow(x, e))
    decreases e
  {
    hide FMul, Mod;
    if e == 0 {
      FPowRange(x, d);
      FMulLaws(FPow(x, d), Mod(1), 0);
    } else {
      FPowAdds(x, d, e - 1);
      FMulLaws(FPow(x, d), FPow(x, e - 1), x);
    }
  }

  lemma FPowRange(x: int, e: nat)
    ensures 0 <= FPow(x, e) < P
  {
    hide Mod;
    ModRange(1);
    if e > 0 {
      ModRange(FPow(x, e - 1) * x);
    }
  }

  lemma FPowOne(x: int)
    requires 0 <= x < P
    ensures FPow(x, 1) == x
  {
    hide FMul, Mod;
    FMulLaws(x, x, x);
    assert FPow(x, 1) == FMul(FPow(x, 0), x);
  }

  /** Squaring doubles the exponent, and one more factor adds one. */
  lemma ChainStep(x: int, e: nat)
    requires 0 <= x < P
    ensures FPow(x, 2 * e) == FMul(FPow(x, e), FPow(x, e))
    ensures FPow(x, 2 * e + 1) == FMul(FPow(x, 2 * e), x)
  {
    hide FMul, Mod;
    FPowAdds(x, e, e);
  }

  /** The leading bits of n: all but the lowest k. */
  function Leading(n: nat, k: nat): nat
    decreases k
  {
    if k == 0 then n else Leading(n, k - 1) / 2
  }

  /** A number that is all ones above bit k stays so. */
  lemma {:induction false} LeadingOnes(n: nat, k: nat, m: nat, a: nat)
    requires k <= a <= m && Leading(n, k) == Pow2(m - k) - 1
    ensures Leading(n, a) == Pow2(m - a) - 1
    decreases a
  {
    if k < a {
      LeadingOnes(n, k, m, a - 1);
      assert Pow2(m - a + 1) == 2 * Pow2(m - a);
    }
  }

  lemma OnesAbove(n: nat, k: nat, m: nat, a: nat)
    requires k <= a < m && Leading(n, k) == Pow2(m - k) - 1
    ensures Leading(n, a) == 2 * Leading(n, a + 1) + 1
  {
    hide Leading;
    LeadingOnes(n, k, m, a);
    LeadingOnes(n, k, m, a + 1);
    assert Pow2(m - a) == 2 * Pow2(m - a - 1);
  }

  lemma HighPowers()
    ensures Pow2(250) == (P + 19) / 32
  {
    hide Pow2;
    Widths();
    Pow2Adds(63, 63);
    Pow2Adds(63, 62);
    Pow2Adds(31, 31);
    Pow2Adds(125, 125);
  }

  lemma LowBitsOfInverse()
    ensures Leading(P - 2, 5) == Pow2(250) - 1 && Leading(P - 2, 4) % 2 == 0 && Leading(P - 2, 3) % 2 == 1
    ensures Leading(P - 2, 2) % 2 == 0 && Leading(P - 2, 1) % 2 == 1 && (P - 2) % 2 == 1
  {
    hide Pow2;
    HighPowers();
    assert Leading(P - 2, 1) == (P - 2) / 2;
    assert Leading(P - 2, 2) == (P - 2) / 4;
    assert Leading(P - 2, 3) == (P - 2) / 8;
    assert Leading(P - 2, 4) == (P - 2) / 16;
  }

  lemma LowBitsOfRoot()
    ensures Leading((P - 5) / 8, 2) == Pow2(250) - 1 && Leading((P - 5) / 8, 1) % 2 == 0 && (P - 5) / 8 % 2 == 1
  {
    hide Pow2;
    HighPowers();
    assert Leading((P - 5) / 8, 1) == (P - 5) / 16;
  }

  /** The bits of p - 2: all ones but bits 2 and 4. */
  lemma InverseBits(a: nat)
    requires a <= 253
    ensures Leading(P - 2, a) == 2 * Leading(P - 2, a + 1) + (if a == 2 || a == 4 then 0 else 1)
  {
    hide Pow2;
    LowBitsOfInverse();
    if a >= 5 {
      OnesAbove(P - 2, 5, 255, a);
    }
  }

  /** The bits of (p - 5) / 8: all ones but bit 1. */
  lemma RootBits(a: nat)
    requires a <= 250
    ensures Leading((P - 5) / 8, a) == 2 * Leading((P - 5) / 8, a + 1) + (if a == 1 then 0 else 1)
  {
    hide Pow2;
    LowBitsOfRoot();
    if a >= 2 {
      OnesAbove((P - 5) / 8, 2, 252, a);
    }
  }

  lemma TopBits()
    ensures Leading(P - 2, 254) == 1 && Leading((P - 5) / 8, 251) == 1
    ensures Leading(P - 2, 0) == P - 2 && Leading((P - 5) / 8, 0) == (P - 5) / 8
  {
    hide Pow2;
    LowBitsOfInverse();
    LowBitsOfRoot();
    LeadingOnes(P - 2, 5, 255, 254);
    LeadingOnes((P - 5) / 8, 2, 252, 251);
    PowTwoOne();
  }

  lemma PowTwoOne()
    ensures Pow2(1) == 2
  {
  }

  method Inv25519(o: array<i64>, i: array<i64>)
    requires o.Length == 16 && Bounded(i[..], FACTOR)
    modifies o
    ensures Reduced(o[..]) && Bounded(o[..], PRODUCT)
    ensures Fe(o[..]) == FPow(old(Fe(i[..])), P - 2)
  {
    hide Mod, FMul, FPow, Leading, Value;
    var c := new i64[16](_ => 0);
    Set25519(c, i);
    ghost var s := i[..];
    ghost var x := Fe(s);
    ModRange(Value(s));
    FPowOne(x);
    TopBits();
    for a := 254 downto 0
      invariant i[..] == s
      invariant Fe(c[..]) == FPow(x, Leading(P - 2, a))
      invariant Bounded(c[..], FACTOR) && (a < 254 ==> Reduced(c[..]) && Bounded(c[..], PRODUCT))
    {
      InverseBits(a);
      ChainStep(x, Leading(P - 2, a + 1));
      S(c, c);
      if a != 2 && a != 4 {
        M(c, c, i);
      }
    }
    Set25519(o, c);
  }

  method Pow2523(o: array<i64>, i: array<i64>)
    requires o.Length == 16 && Bounded(i[..], FACTOR)
    modifies o
    ensures Reduced(o[..]) && Bounded(o[..], PRODUCT)
    ensures Fe(o[..]) == FPow(old(Fe(i[..])), (P - 5) / 8)
  {
    hide Mod, FMul, FPow, Leading, Value;
    var c := new i64[16](_ => 0);
    Set25519(c, i);
    ghost var s := i[..];
    ghost var x := Fe(s);
    ModRange(Value(s));
    FPowOne(x);
    TopBits();
    for a := 251 downto 0
      invariant i[..] == s
      invariant Fe(c[..]) == FPow(x, Leading((P - 5) / 8, a))
      invariant Bounded(c[..], FACTOR) && (a < 251 ==> Reduced(c[..]) && Bounded(c[..], PRODUCT))
    {
      RootBits(a);
      ChainStep(x, Leading((P - 5) / 8, a + 1));
      S(c, c);
      if a != 1 {
        M(c, c, i);
      }
    }
    Set25519(o, c);
  }
}
