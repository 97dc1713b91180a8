/** Fermat's theorem: a modulus without zero divisors divides the inner binomial coefficients of its row. */
module Fermat {
  import opened Limbs
  import opened Congruence

  // Binomial coefficients.

  function Choose(n: nat, k: nat): nat {
    if k == 0 then 1 else if n == 0 then 0 else Choose(n - 1, k - 1) + Choose(n - 1, k)
  }

  lemma {:induction false} ChooseAbsorbs(n: nat, k: nat)
    requires n > 0 && k > 0
    ensures Choose(n, k) * k == n * Choose(n - 1, k - 1)
    decreases n
  {
    if n == 1 {
      assert Choose(0, k) == 0 && Choose(1, k) == Choose(0, k - 1);
    } else if k == 1 {
      ChooseAbsorbs(n - 1, 1);
      assert Choose(n - 1, 0) == Choose(n - 2, 0) == 1;
    } else {
      ChooseAbsorbs(n - 1, k);
      ChooseAbsorbs(n - 1, k - 1);
      AbsorbStep(n, k, Choose(n - 1, k - 1), Choose(n - 1, k), Choose(n - 2, k - 2), Choose(n - 2, k - 1));
    }
  }

  lemma AbsorbStep(n: int, k: int, a: int, b: int, c: int, d: int)
    requires a * (k - 1) == (n - 1) * c && b * k == (n - 1) * d && a == c + d
    ensures (a + b) * k == n * a
  {
    assert (a + b) * k == a * (k - 1) + a + b * k;
    assert (n - 1) * c + (n - 1) * d == (n - 1) * a;
  }

  lemma {:induction false} ChooseNone(n: nat, k: nat)
    requires k > n
    ensures Choose(n, k) == 0
    decreases n
  {
    if n > 0 {
      ChooseNone(n - 1, k - 1);
      ChooseNone(n - 1, k);
    }
  }

  /** The first m terms of the expansion of (x + 1)^n. */
  function Terms(x: int, n: nat, m: nat): int
    decreases m
  {
    if m == 0 then 0 else Terms(x, n, m - 1) + Choose(n, m - 1) * Pow(x, m - 1)
  }

  lemma {:induction false} TermsStep(x: int, n: nat, m: nat)
    ensures Terms(x, n + 1, m + 1) == Terms(x, n, m + 1) + x * Terms(x, n, m)
    decreases m
  {
    if m == 0 {
      assert Terms(x, n + 1, 0) == Terms(x, n, 0) == 0 && Choose(n + 1, 0) == Choose(n, 0) == 1;
    } else {
      TermsStep(x, n, m - 1);
      var a, b, w := Choose(n, m - 1), Choose(n, m), Pow(x, m - 1);
      assert Choose(n + 1, m) == a + b && Pow(x, m) == x * w;
      assert Terms(x, n + 1, m + 1) == Terms(x, n + 1, m) + (a + b) * (x * w);
      assert Terms(x, n, m + 1) == Terms(x, n, m) + b * (x * w);
      assert x * Terms(x, n, m) == x * (Terms(x, n, m - 1) + a * w);
      Spreads(x, Terms(x, n, m - 1), a, b, w);
    }
  }

  lemma Spreads(x: int, t: int, a: int, b: int, w: int)
    ensures x * (t + a * w) == x * t + a * (x * w)
    ensures (a + b) * (x * w) == a * (x * w) + b * (x * w)
  {
  }

  lemma {:induction false} Binomial(x: int, n: nat)
    ensures Pow(x + 1, n) == Terms(x, n, n + 1)
    decreases n
  {
    if n == 0 {
      FirstTerm(x, 0);
    } else {
      Binomial(x, n - 1);
      TermsStep(x, n - 1, n);
      ChooseNone(n - 1, n);
      OneMore(x, Terms(x, n - 1, n));
    }
  }

  lemma OneMore(x: int, t: int)
    ensures (x + 1) * t == t + x * t
  {
  }

  // Fermat's theorem.

  lemma InnerVanishes(m: modulus, k: nat)
    requires Domain(m) && 0 < k < m
    ensures Cong(m, Choose(m, k), 0)
  {
    hide Cong, Domain, Choose;
    ChooseAbsorbs(m, k);
    Multiple(m, Choose(m - 1, k - 1));
    Factor(m, Choose(m, k), k);
    Small(m, k, 0);
  }

  lemma {:induction false} TermsVanish(m: modulus, x: int, k: nat)
    requires Domain(m) && 1 <= k <= m
    ensures Cong(m, Terms(x, m, k), 1)
    decreases k
  {
    hide Cong, Domain, Choose, Pow;
    if k == 1 {
      FirstTerm(x, m);
      Refl(m, 1);
    } else {
      TermsVanish(m, x, k - 1);
      InnerVanishes(m, k - 1);
      TimesZero(m, Choose(m, k - 1), Pow(x, k - 1));
      Plus(m, Terms(x, m, k - 1), 1, Choose(m, k - 1) * Pow(x, k - 1), 0);
    }
  }

  lemma FirstTerm(x: int, n: nat)
    ensures Terms(x, n, 1) == 1
  {
    assert Terms(x, n, 0) == 0 && Choose(n, 0) == 1 && Pow(x, 0) == 1;
  }

  lemma {:induction false} ChooseAll(n: nat)
    ensures Choose(n, n) == 1
    decreases n
  {
    if n > 0 {
      ChooseAll(n - 1);
      ChooseNone(n - 1, n);
    }
  }

  lemma PowerOfSum(m: modulus, x: int)
    requires Domain(m)
    ensures Cong(m, Pow(x + 1, m), Pow(x, m) + 1)
  {
    hide Cong, Domain, Choose, Pow;
    Binomial(x, m);
    TermsVanish(m, x, m);
    ChooseAll(m);
    Refl(m, Pow(x, m));
    Plus(m, Terms(x, m, m), 1, Pow(x, m), Pow(x, m));
  }

  lemma {:induction false} LittleFermat(m: modulus, x: nat)
    requires Domain(m)
    ensures Cong(m, Pow(x, m), x)
    decreases x
  {
    hide Cong, Domain;
    if x == 0 {
      PowerOfZero(m);
      Refl(m, 0);
    } else {
      LittleFermat(m, x - 1);
      PowerOfSum(m, x - 1);
      Refl(m, 1);
      Plus(m, Pow(x - 1, m), x - 1, 1, 1);
      Chain(m, Pow(x, m), Pow(x - 1, m) + 1, x);
    }
  }

  lemma PowerOfZero(n: nat)
    requires n > 0
    ensures Pow(0, n) == 0
  {
  }

  lemma PowerInverts(m: modulus, z: int)
    requires Domain(m) && 0 < z < m
    ensures Cong(m, z * Pow(z, m - 2), 1)
  {
    hide Cong, Domain, Pow;
    LittleFermat(m, z);
    SplitPower(z, m);
    var w := z * Pow(z, m - 2);
    Refl(m, z);
    Plus(m, z * w, z, z, z);
    assert z * w - z == z * (w - 1) && z - z == 0;
    Factor(m, z, w - 1);
    Small(m, z, 0);
    Refl(m, 1);
    Plus(m, w - 1, 0, 1, 1);
  }

  lemma SplitPower(z: int, n: nat)
    requires n >= 2
    ensures Pow(z, n) == z * (z * Pow(z, n - 2))
  {
    assert Pow(z, n - 1) == z * Pow(z, n - 2);
  }
}
