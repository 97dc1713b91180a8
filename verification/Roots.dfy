/** Which numbers decode: exactly the Y of the points of the curve, if p has no zero divisors and d is no square. */
module Roots {
  import opened Machine
  import opened Options
  import opened Limbs
  import opened Residues
  import opened Field25519
  import opened FieldCodec
  import opened FieldPower
  import opened Edwards
  import opened EdwardsLaws
  import opened PointCodec
  import opened Completeness
  import opened Congruence
  import opened Encodings
  import Fermat

  // Powers modulo m.

  lemma {:induction false} PowCong(m: modulus, a: int, b: int, e: nat)
    requires Cong(m, a, b)
    ensures Cong(m, Pow(a, e), Pow(b, e))
    decreases e
  {
    hide Cong;
    if e == 0 {
      Refl(m, 1);
    } else {
      PowCong(m, a, b, e - 1);
      Times(m, a, b, Pow(a, e - 1), Pow(b, e - 1));
    }
  }

  lemma {:induction false} PowOfProduct(a: int, b: int, e: nat)
    ensures Pow(a * b, e) == Pow(a, e) * Pow(b, e)
    decreases e
  {
    hide Pow;
    if e == 0 {
      PowZero(a * b);
      PowZero(a);
      PowZero(b);
    } else {
      PowOfProduct(a, b, e - 1);
      PowStep(a * b, e);
      PowStep(a, e);
      PowStep(b, e);
      Interleave(a, b, Pow(a, e - 1), Pow(b, e - 1));
    }
  }

  lemma PowZero(a: int)
    ensures Pow(a, 0) == 1
  {
  }

  lemma PowStep(a: int, e: nat)
    requires e > 0
    ensures Pow(a, e) == a * Pow(a, e - 1)
  {
  }

  lemma Interleave(a: int, b: int, x: int, y: int)
    ensures (a * b) * (x * y) == (a * x) * (b * y)
  {
    assert (a * b) * (x * y) == a * (b * (x * y)) && b * (x * y) == x * (b * y);
  }

  lemma PowTwo(a: int)
    ensures Pow(a, 2) == a * a && Pow(a, 1) == a
  {
    assert Pow(a, 1) == a;
  }

  /** Fermat's theorem for numbers that are not 0. */
  lemma FermatOne(m: modulus, z: int)
    requires Domain(m) && !Cong(m, z, 0)
    ensures Cong(m, Pow(z, m - 1), 1)
  {
    hide Cong, Domain, Pow;
    var r := z % m;
    Remainder(m, z);
    Small(m, r, 0);
    Fermat.PowerInverts(m, r);
    PowStep(r, m - 1);
    PowCong(m, z, r, m - 1);
    Chain(m, Pow(z, m - 1), Pow(r, m - 1), 1);
  }

  lemma Remainder(m: modulus, z: int)
    ensures 0 <= z % m < m && Cong(m, z, z % m) && (Cong(m, z, 0) <==> z % m == 0)
  {
    ModTwice(z, m);
    DivModUnique(0, m, 0, 0);
  }

  /** A square has a fourth root of 1 as its power (m - 1) / 4, up to the sign. */
  lemma QuarterPower(m: modulus, s: int, j: nat)
    requires Domain(m) && !Cong(m, s, 0) && m == 4 * j + 1
    ensures var e := Pow(s * s, j); Cong(m, e, 1) || Cong(m, e, -1)
  {
    hide Cong, Domain, Pow;
    var e := Pow(s * s, j);
    PowOfProduct(s, s, j);
    PowAdds(s, j, j);
    PowAdds(s, 2 * j, 2 * j);
    assert e * e == Pow(s, m - 1);
    FermatOne(m, s);
    Refl(m, 1);
    Plus(m, e * e, 1, 1, 1);
    assert (e - 1) * (e + 1) == e * e - 1;
    Factor(m, e - 1, e + 1);
    Refl(m, -1);
    if Cong(m, e - 1, 0) {
      Plus(m, e - 1, 0, 1, 1);
    } else {
      Plus(m, e + 1, 0, -1, -1);
    }
  }

  /** u v^3 (u v^7)^k squared and times v is u (u v^7)^(2 k + 1). */
  lemma CandidateSquared(u: int, v: int, k: nat)
    ensures var a := u * Pow(v, 7);
            var c := u * Pow(v, 3) * Pow(a, k);
            v * (c * c) == u * Pow(a, 2 * k + 1)
  {
    hide Pow;
    var a := u * Pow(v, 7);
    var t, w := Pow(v, 3), Pow(a, k);
    PowAdds(a, k, k);
    PowStep(a, 2 * k + 1);
    PowAdds(v, 3, 3);
    PowStep(v, 7);
    assert v * (t * t) == Pow(v, 7);
    SquareSpread(u, v, t, w);
    assert Pow(a, 2 * k + 1) == a * (w * w);
  }

  lemma SquareSpread(u: int, v: int, t: int, w: int)
    ensures var c := u * t * w; v * (c * c) == u * ((u * (v * (t * t))) * (w * w))
  {
    Interleave(u * t, w, u * t, w);
    Interleave(u, t, u, t);
    Regroup(u, v, t * t, w * w);
  }

  lemma Regroup(u: int, v: int, q: int, y: int)
    ensures v * (((u * u) * q) * y) == u * ((u * (v * q)) * y)
  {
    var z := q * y;
    assert ((u * u) * q) * y == (u * u) * z && (u * u) * z == u * (u * z);
    assert (u * (v * q)) * y == (u * v) * z by {
      assert u * (v * q) == (u * v) * q;
    }
    assert v * (u * (u * z)) == u * ((u * v) * z) by {
      assert (u * v) * z == v * (u * z);
      Exchange2(u, v, u * z);
    }
  }

  lemma Exchange2(u: int, v: int, w: int)
    ensures v * (u * w) == u * (v * w)
  {
  }

  /** If v x^2 is u, the candidate is a root of u / v, or of -u / v. */
  lemma CandidateIsRoot(m: modulus, u: int, v: int, x: int, k: nat)
    requires Domain(m) && m == 8 * k + 5 && Cong(m, v * (x * x), u) && !Cong(m, v, 0)
    ensures var c := u * Pow(v, 3) * Pow(u * Pow(v, 7), k);
            Cong(m, v * (c * c), u) || Cong(m, v * (c * c), -u)
  {
    hide Cong, Domain, Pow;
    var a := u * Pow(v, 7);
    var c := u * Pow(v, 3) * Pow(a, k);
    var e := Pow(a, 2 * k + 1);
    CandidateSquared(u, v, k);
    Refl(m, u);
    if Cong(m, u, 0) {
      TimesZero(m, u, e);
      Chain(m, v * (c * c), 0, 0);
      Chain(m, u, 0, 0);
      Chain(m, v * (c * c), 0, u);
    } else {
      var s := Pow(v, 4) * x;
      SquareOfRoot(m, u, v, x);
      RootNotZero(m, u, v, x);
      QuarterPower(m, s, 2 * k + 1);
      PowCong(m, a, s * s, 2 * k + 1);
      if Cong(m, Pow(s * s, 2 * k + 1), 1) {
        Chain(m, e, Pow(s * s, 2 * k + 1), 1);
        Times(m, u, u, e, 1);
      } else {
        Chain(m, e, Pow(s * s, 2 * k + 1), -1);
        Times(m, u, u, e, -1);
      }
    }
  }

  /** u v^7 is the square of v^4 x. */
  lemma SquareOfRoot(m: modulus, u: int, v: int, x: int)
    requires Cong(m, v * (x * x), u)
    ensures Cong(m, u * Pow(v, 7), (Pow(v, 4) * x) * (Pow(v, 4) * x))
  {
    hide Cong, Pow;
    var w := Pow(v, 7);
    Refl(m, w);
    Times(m, v * (x * x), u, w, w);
    PowAdds(v, 4, 4);
    PowStep(v, 8);
    Interleave(Pow(v, 4), x, Pow(v, 4), x);
    assert (v * (x * x)) * w == (v * w) * (x * x);
    Chain(m, (v * (x * x)) * w, u * w, u * w);
  }

  lemma RootNotZero(m: modulus, u: int, v: int, x: int)
    requires Domain(m) && Cong(m, v * (x * x), u) && !Cong(m, u, 0) && !Cong(m, v, 0)
    ensures !Cong(m, Pow(v, 4) * x, 0)
  {
    hide Cong, Domain, Pow;
    if Cong(m, Pow(v, 4) * x, 0) {
      Factor(m, Pow(v, 4), x);
      if Cong(m, x, 0) {
        TimesZero(m, x, x);
        TimesZero(m, v, x * x);
        Chain(m, v * (x * x), u, u);
        Chain(m, u, v * (x * x), 0);
      } else {
        PowTwo(v);
        PowAdds(v, 2, 2);
        Factor(m, v * v, v * v);
        Factor(m, v, v);
      }
    }
  }

  // The decoder.

  lemma FieldPow(x: int, e: nat)
    ensures Cong(P, FPow(x, e), Pow(x, e))
  {
    hide Cong, FPow, Pow, Mod;
    FPowIsPow(x, e);
    ModIsCong(Pow(x, e));
  }

  lemma FieldProduct(a: int, a': int, b: int, b': int)
    requires Cong(P, a, a') && Cong(P, b, b')
    ensures Cong(P, FMul(a, b), a' * b')
  {
    hide Cong, Mod;
    ModIsCong(a * b);
    Times(P, a, a', b, b');
    Chain(P, FMul(a, b), a * b, a' * b');
  }

  lemma CandidateValue(u: int, v: int)
    ensures Cong(P, RootCandidate(u, v), u * Pow(v, 3) * Pow(u * Pow(v, 7), (P - 5) / 8))
  {
    hide Cong, Mod, FMul, FPow, Pow;
    var k := (P - 5) / 8;
    Refl(P, u);
    FieldPow(v, 3);
    FieldPow(v, 7);
    FieldProduct(u, u, FPow(v, 3), Pow(v, 3));
    FieldProduct(u, u, FPow(v, 7), Pow(v, 7));
    var a := FMul(u, FPow(v, 7));
    FieldPow(a, k);
    PowCong(P, a, u * Pow(v, 7), k);
    Chain(P, FPow(a, k), Pow(a, k), Pow(u * Pow(v, 7), k));
    FieldProduct(FMul(u, FPow(v, 3)), u * Pow(v, 3), FPow(a, k), Pow(u * Pow(v, 7), k));
  }

  /** Equal field elements, and opposite ones. */
  lemma FieldEqual(w: int, u: int)
    requires 0 <= w < P && 0 <= u < P
    ensures Cong(P, w, u) <==> w == u
    ensures Cong(P, w, -u) <==> w == FSub(0, u)
  {
    hide Cong, Mod;
    Small(P, w, u);
    FSubRange(0, u);
    ModIsCong(-u);
    Small(P, w, FSub(0, u));
    assert FSub(0, u) == Mod(-u);
    if Cong(P, w, -u) {
      Chain(P, Mod(-u), -u, -u);
      Chain(P, w, -u, Mod(-u));
    }
    if w == Mod(-u) {
      Refl(P, w);
      Chain(P, w, Mod(-u), -u);
    }
  }

  lemma TestValue(x: int, v: int, c: int, w: int)
    requires Cong(P, x, c) && Cong(P, v, w)
    ensures Cong(P, FMul(FMul(x, x), v), w * (c * c)) && 0 <= FMul(FMul(x, x), v) < P
  {
    hide Cong, Mod, FMul;
    FieldProduct(x, c, x, c);
    FieldProduct(FMul(x, x), c * c, v, w);
    FMulRange(FMul(x, x), v);
    Commutes(c * c, w);
  }

  lemma FoundIsRoot(u: int, v: int)
    requires 0 <= u < P && Root(u, v).Some?
    ensures var r := Root(u, v).value; 0 <= r < P && Cong(P, v * (r * r), u)
  {
    hide Cong, Mod, FMul, FSub, Fe, Root;
    RootIsRoot(u, v);
    var r := Root(u, v).value;
    Refl(P, r);
    Refl(P, v);
    TestValue(r, v, r, v);
    Chain(P, FMul(FMul(r, r), v), v * (r * r), v * (r * r));
  }

  /** The test value of the candidate is u or -u. */
  lemma CandidatePasses(u: int, v: int, c: int, y: int)
    requires 0 <= u < P && Cong(P, y, c) && (Cong(P, v * (c * c), u) || Cong(P, v * (c * c), -u))
    ensures var w := FMul(FMul(y, y), v); w == u || w == FSub(0, u)
  {
    hide Cong, Mod, FMul, FSub;
    Refl(P, v);
    TestValue(y, v, c, v);
    var w := FMul(FMul(y, y), v);
    FieldEqual(w, u);
    if Cong(P, v * (c * c), u) {
      Chain(P, w, v * (c * c), u);
    } else {
      Chain(P, w, v * (c * c), -u);
    }
  }

  lemma RootIsFound(u: int, v: int, x: int)
    requires NoZeroDivisors() && 0 <= u < P && !Cong(P, v, 0) && Cong(P, v * (x * x), u)
    ensures Root(u, v).Some?
  {
    hide Cong, Domain, NoZeroDivisors, Mod, FMul, FPow, Pow, FSub, Fe, RootCandidate;
    Premises();
    var k := Eighth();
    CandidateIsRoot(P, u, v, x, k);
    CandidateValue(u, v);
    CandidatePasses(u, v, u * Pow(v, 3) * Pow(u * Pow(v, 7), k), RootCandidate(u, v));
  }

  lemma Eighth() returns (k: nat)
    ensures k == (P - 5) / 8 && P == 8 * k + 5
  {
    k := (P - 5) / 8;
  }

  /** The program finds a root of u / v exactly when there is one. */
  lemma RootExactly(u: int, v: int)
    requires NoZeroDivisors() && 0 <= u < P && !Cong(P, v, 0)
    ensures Root(u, v).Some? <==> exists x :: 0 <= x < P && Cong(P, v * (x * x), u)
  {
    hide Cong, NoZeroDivisors, Root;
    if Root(u, v).Some? {
      FoundIsRoot(u, v);
    }
    if x :| 0 <= x < P && Cong(P, v * (x * x), u) {
      RootIsFound(u, v, x);
    }
  }

  lemma FractionOf(y: int)
    ensures Cong(P, FSub(FMul(y, y), 1), y * y - 1)
    ensures Cong(P, FAdd(1, FMul(FMul(y, y), Fe(D_LIMBS))), 1 + CurveD() * (y * y))
  {
    hide Cong, Mod, FMul, CurveD, Fe;
    var q, d, t := FMul(y, y), CurveD(), FMul(FMul(y, y), Fe(D_LIMBS));
    Refl(P, y);
    Refl(P, 1);
    FieldProduct(y, y, y, y);
    DValue();
    ModIsCong(d);
    FieldProduct(q, y * y, Fe(D_LIMBS), d);
    Commutes(y * y, d);
    SumsInField(q, y * y, t, d * (y * y));
  }

  lemma SumsInField(q: int, a: int, t: int, b: int)
    requires Cong(P, q, a) && Cong(P, t, b)
    ensures Cong(P, FSub(q, 1), a - 1) && Cong(P, FAdd(1, t), 1 + b)
  {
    hide Cong, Mod;
    Refl(P, 1);
    Plus(P, q, a, 1, 1);
    Plus(P, 1, 1, t, b);
    ModIsCong(q - 1);
    ModIsCong(1 + t);
    Chain(P, FSub(q, 1), q - 1, a - 1);
    Chain(P, FAdd(1, t), 1 + t, 1 + b);
  }

  lemma DValue()
    ensures Fe(D_LIMBS) == Mod(CurveD())
  {
  }

  /** Bytes decode exactly when their Y is that of a point of the curve. */
  lemma DecodesExactly(b: seq<u8>)
    requires |b| == 32 && NoZeroDivisors() && DIsNoSquare()
    ensures DecodeNegated(b).Some? <==> exists x :: 0 <= x < P && OnAffine(P, CurveD(), x, DecodeY(b))
  {
    hide Cong, Domain, NoZeroDivisors, DIsNoSquare, NoSquare, Mod, FMul, FSub, FAdd, Fe, Root, DecodeY, CurveD;
    var y, d := DecodeY(b), CurveD();
    var u, v := FSub(FMul(y, y), 1), FAdd(1, FMul(FMul(y, y), Fe(D_LIMBS)));
    Premises();
    RootExists();
    FractionOf(y);
    FactorOfX(P, d, Fe(I_LIMBS), y);
    FSubRange(FMul(y, y), 1);
    if Cong(P, v, 0) {
      Chain(P, v, 1 + d * (y * y), 1 + d * (y * y));
      Chain(P, 1 + d * (y * y), v, 0);
    }
    RootExactly(u, v);
    forall x ensures Cong(P, v * (x * x), u) <==> OnAffine(P, d, x, y) {
      SameEquation(u, v, x, y, d);
    }
  }

  lemma SameEquation(u: int, v: int, x: int, y: int, d: int)
    requires Cong(P, u, y * y - 1) && Cong(P, v, 1 + d * (y * y))
    ensures Cong(P, v * (x * x), u) <==> OnAffine(P, d, x, y)
  {
    hide Cong;
    var w := 1 + d * (y * y);
    Refl(P, x * x);
    Times(P, v, w, x * x, x * x);
    Commutes(w, x * x);
    Chain(P, v * (x * x), w * (x * x), w * (x * x));
    Chain(P, u, y * y - 1, y * y - 1);
    if Cong(P, v * (x * x), u) {
      Chain(P, v * (x * x), u, y * y - 1);
      Chain(P, w * (x * x), v * (x * x), y * y - 1);
    }
    if OnAffine(P, d, x, y) {
      Chain(P, v * (x * x), w * (x * x), y * y - 1);
      Chain(P, v * (x * x), y * y - 1, u);
    }
  }
}
