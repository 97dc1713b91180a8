/** Positional numbers: the value of a sequence of limbs, least significant first. */
module Limbs {

  /** b to the power e. */
  function Pow(b: int, e: nat): (r: int)
    ensures b > 0 ==> r > 0
  {
    if e == 0 then 1 else b * Pow(b, e - 1)
  }

  lemma PowOne(b: int)
    ensures Pow(b, 1) == b
  {
  }

  lemma {:induction false} PowAdds(b: int, d: nat, e: nat)
    ensures Pow(b, d + e) == Pow(b, d) * Pow(b, e)
    decreases d
  {
    if d > 0 {
      PowAdds(b, d - 1, e);
      calc {
        Pow(b, d + e);
        b * Pow(b, d - 1 + e);
        b * (Pow(b, d - 1) * Pow(b, e));
        (b * Pow(b, d - 1)) * Pow(b, e);
      }
    }
  }

  lemma Distribute(a: int, x: int, y: int)
    ensures a * (x + y) == a * x + a * y
  {
  }

  lemma Exchange(a: int, b: int, c: int, d: int)
    ensures (a * b) * (c * d) == (a * c) * (b * d)
  {
    assert (a * b) * (c * d) == a * (b * (c * d));
    assert b * (c * d) == c * (b * d);
  }

  lemma MulMonotone(a: int, x: int, y: int)
    requires a >= 0 && x <= y
    ensures a * x <= a * y
  {
    assert a * (y - x) >= 0;
  }

  /** The number whose limbs, in base b, are s.  Limbs may be negative or exceed the base. */
  function Eval(b: int, s: seq<int>): int
  {
    if s == [] then 0 else s[0] + b * Eval(b, s[1..])
  }

  /** Every limb is a digit of base b. */
  ghost predicate Digits(b: int, s: seq<int>) {
    forall k :: 0 <= k < |s| ==> 0 <= s[k] < b
  }

  lemma {:induction false} EvalAppend(b: int, s: seq<int>, t: seq<int>)
    ensures Eval(b, s + t) == Eval(b, s) + Pow(b, |s|) * Eval(b, t)
    decreases |s|
  {
    if s == [] {
      assert s + t == t;
    } else {
      assert (s + t)[1..] == s[1..] + t;
      EvalAppend(b, s[1..], t);
      AppendStep(b, Eval(b, s[1..]), Pow(b, |s| - 1), Eval(b, t));
    }
  }

  lemma AppendStep(b: int, u: int, p: int, v: int)
    ensures b * (u + p * v) == b * u + (b * p) * v
  {
  }

  lemma EvalOne(b: int, x: int)
    ensures Eval(b, [x]) == x
  {
    assert [x][1..] == [];
  }

  lemma EvalSplit(b: int, s: seq<int>, k: nat)
    requires k <= |s|
    ensures Eval(b, s) == Eval(b, s[..k]) + Pow(b, k) * Eval(b, s[k..])
  {
    assert s == s[..k] + s[k..];
    EvalAppend(b, s[..k], s[k..]);
  }

  /** One more limb at the top. */
  lemma EvalSnoc(b: int, s: seq<int>, k: nat)
    requires k < |s|
    ensures Eval(b, s[..k + 1]) == Eval(b, s[..k]) + s[k] * Pow(b, k)
  {
    assert s[..k + 1] == s[..k] + [s[k]];
    EvalAppend(b, s[..k], [s[k]]);
    EvalOne(b, s[k]);
  }

  lemma EvalUpdate(b: int, s: seq<int>, k: nat, x: int)
    requires k < |s|
    ensures Eval(b, s[k := x]) == Eval(b, s) + (x - s[k]) * Pow(b, k)
  {
    var t := s[k := x];
    EvalSplit(b, s, k);
    EvalSplit(b, t, k);
    assert t[..k] == s[..k] && s[k..][1..] == t[k..][1..];
    assert Eval(b, t[k..]) == Eval(b, s[k..]) + (x - s[k]);
    UpdateStep(Pow(b, k), Eval(b, s[k..]), x - s[k]);
  }

  lemma UpdateStep(p: int, u: int, d: int)
    ensures p * (u + d) == p * u + d * p
  {
  }

  lemma {:induction false} EvalLinear(b: int, x: seq<int>, y: seq<int>, z: seq<int>, c: int)
    requires |x| == |y| == |z| && forall k :: 0 <= k < |x| ==> z[k] == x[k] + c * y[k]
    ensures Eval(b, z) == Eval(b, x) + c * Eval(b, y)
    decreases |x|
  {
    if x != [] {
      EvalLinear(b, x[1..], y[1..], z[1..], c);
      LinearStep(b, x[0], y[0], Eval(b, x[1..]), Eval(b, y[1..]), c);
    }
  }

  lemma LinearStep(b: int, x: int, y: int, u: int, v: int, c: int)
    ensures x + c * y + b * (u + c * v) == x + b * u + c * (y + b * v)
  {
    assert c * (b * v) == b * (c * v);
  }

  /** Adding c - d to limb j and moving k units of limb j + 1 out of it. */
  lemma CarryOut(b: int, s: seq<int>, j: nat, c: int, d: int, k: int)
    requires j < |s|
    ensures Eval(b, s[j := s[j] + c - d - k * b]) + k * Pow(b, j + 1) == Eval(b, s) + c * Pow(b, j) - d * Pow(b, j)
  {
    hide Eval;
    EvalUpdate(b, s, j, s[j] + c - d - k * b);
    CarryWeights(b, c, d, k, Pow(b, j));
  }

  lemma CarryWeights(b: int, c: int, d: int, k: int, p: int)
    ensures (c - d - k * b) * p + k * (b * p) == c * p - d * p
  {
  }

  lemma Negate(x: int, p: int)
    ensures -x * p == -(x * p)
  {
  }

  /** Moving k units of limb i + 1 out of limb i leaves the number as it was. */
  lemma CarryKeepsValue(b: int, s: seq<int>, i: nat, k: int)
    requires i + 1 < |s|
    ensures Eval(b, s[i + 1 := s[i + 1] + k][i := s[i] - k * b]) == Eval(b, s)
  {
    var t := s[i + 1 := s[i + 1] + k];
    EvalUpdate(b, s, i + 1, s[i + 1] + k);
    EvalUpdate(b, t, i, s[i] - k * b);
    assert k * Pow(b, i + 1) == k * b * Pow(b, i);
  }

  lemma {:induction false} EvalZeros(b: int, s: seq<int>)
    requires forall k :: 0 <= k < |s| ==> s[k] == 0
    ensures Eval(b, s) == 0
    decreases |s|
  {
    if s != [] {
      EvalZeros(b, s[1..]);
    }
  }

  /** Digits of base b represent exactly the numbers below b^|s|. */
  lemma {:induction false} EvalDigits(b: int, s: seq<int>)
    requires b > 0 && Digits(b, s)
    ensures 0 <= Eval(b, s) < Pow(b, |s|)
    decreases |s|
  {
    if s != [] {
      assert Digits(b, s[1..]);
      EvalDigits(b, s[1..]);
      DigitsStep(b, s[0], Eval(b, s[1..]), Pow(b, |s| - 1));
    }
  }

  lemma DigitsStep(b: int, x: int, v: int, p: int)
    requires 0 <= x < b && 0 <= v < p
    ensures 0 <= x + b * v < b * p
  {
    MulMonotone(b, 0, v);
    MulMonotone(b, v + 1, p);
  }

  /** 1 + b + ... + b^(k - 1). */
  function Ones(b: int, k: nat): int {
    if k == 0 then 0 else 1 + b * Ones(b, k - 1)
  }

  /** How large a number with limbs of absolute value at most n can be. */
  lemma {:induction false} EvalMagnitude(b: int, s: seq<int>, n: int)
    requires b > 0 && n >= 0 && forall k :: 0 <= k < |s| ==> -n <= s[k] <= n
    ensures -(n * Ones(b, |s|)) <= Eval(b, s) <= n * Ones(b, |s|)
    decreases |s|
  {
    if s != [] {
      EvalMagnitude(b, s[1..], n);
      MagnitudeStep(b, Eval(b, s[1..]), n, Ones(b, |s| - 1));
    }
  }

  lemma MagnitudeStep(b: int, v: int, n: int, o: int)
    requires b > 0 && -(n * o) <= v <= n * o
    ensures -(n * (1 + b * o)) <= b * v - n && n + b * v <= n * (1 + b * o)
  {
    assert n * (1 + b * o) == n + b * (n * o);
    MulMonotone(b, v, n * o);
    MulMonotone(b, -(n * o), v);
  }

  /** A number has only one sequence of digits of a given length. */
  lemma {:induction false} DigitsUnique(b: int, s: seq<int>, t: seq<int>)
    requires b > 0 && |s| == |t| && Digits(b, s) && Digits(b, t)
    requires Eval(b, s) == Eval(b, t)
    ensures s == t
    decreases |s|
  {
    if s != [] {
      SameDigit(b, s[0], Eval(b, s[1..]), t[0], Eval(b, t[1..]));
      assert Digits(b, s[1..]) && Digits(b, t[1..]);
      DigitsUnique(b, s[1..], t[1..]);
      assert s == [s[0]] + s[1..] && t == [t[0]] + t[1..];
    }
  }

  lemma SameDigit(b: int, x: int, u: int, y: int, v: int)
    requires 0 <= x < b && 0 <= y < b && x + b * u == y + b * v
    ensures x == y && u == v
  {
    assert b * (u - v) == y - x;
    assert u - v >= 1 ==> b * (u - v) >= b;
    assert u - v <= -1 ==> b * (u - v) <= -b;
  }

  // Schoolbook multiplication.

  /** The part of x * y made of the rows before i and the first j columns of row i. */
  ghost function Partial(b: int, x: seq<int>, y: seq<int>, i: nat, j: nat): int
    requires i <= |x| && j <= |y|
  {
    Eval(b, x[..i]) * Eval(b, y) + (if i < |x| then x[i] * Pow(b, i) * Eval(b, y[..j]) else 0)
  }

  lemma PartialAtRow(b: int, x: seq<int>, y: seq<int>, i: nat)
    requires i <= |x|
    ensures Partial(b, x, y, i, 0) == Eval(b, x[..i]) * Eval(b, y)
  {
    hide Eval;
    EvalZeros(b, y[..0]);
  }

  lemma PartialStart(b: int, t: seq<int>, x: seq<int>, y: seq<int>)
    requires forall k :: 0 <= k < |t| ==> t[k] == 0
    ensures Eval(b, t) == Partial(b, x, y, 0, 0)
  {
    EvalZeros(b, t);
  }

  lemma PartialRow(b: int, x: seq<int>, y: seq<int>, i: nat)
    requires i < |x|
    ensures Partial(b, x, y, i, |y|) == Partial(b, x, y, i + 1, 0)
  {
    hide Eval;
    assert y[..|y|] == y;
    PartialAtRow(b, x, y, i + 1);
    EvalSnoc(b, x, i);
    Distribute(Eval(b, y), Eval(b, x[..i]), x[i] * Pow(b, i));
  }

  /** Adding x[i] * y[j] to limb i + j. */
  lemma ProductStep(b: int, t: seq<int>, x: seq<int>, y: seq<int>, i: nat, j: nat)
    requires i < |x| && j < |y| && i + j < |t|
    ensures Eval(b, t[i + j := t[i + j] + x[i] * y[j]]) - Eval(b, t)
            == Partial(b, x, y, i, j + 1) - Partial(b, x, y, i, j)
  {
    hide Eval;
    var p, q := Pow(b, i), Pow(b, j);
    EvalUpdate(b, t, i + j, t[i + j] + x[i] * y[j]);
    EvalSnoc(b, y, j);
    PowAdds(b, i, j);
    Distribute(x[i] * p, Eval(b, y[..j]), y[j] * q);
    Exchange(x[i], p, y[j], q);
  }

  lemma {:induction false} PowGrows(m: nat, n: nat)
    requires m <= n
    ensures Pow(0x100, m) <= Pow(0x100, n)
    decreases n
  {
    if m < n {
      PowGrows(m, n - 1);
    }
  }
}
