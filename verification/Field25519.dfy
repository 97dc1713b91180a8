/**
  Arithmetic modulo p = 2^255 - 19 on sixteen signed limbs of 16 bits with lazy carries.
  The number that an array of limbs stands for is `Value`; `Fe` is its residue modulo p.
 */
module Field25519 {
  import opened Machine
  import opened Limbs
  import opened Residues

  const RADIX := 0x1_0000
  const P := 0x7fff_ffff_ffff_ffff_ffff_ffff_ffff_ffff_ffff_ffff_ffff_ffff_ffff_ffff_ffff_ffed
  const TWO_256 := 0x1_0000_0000_0000_0000_0000_0000_0000_0000_0000_0000_0000_0000_0000_0000_0000_0000
  /** How large the limbs of a factor may be, and a bound on those of a product. */
  const FACTOR := 0x400_0000
  const PRODUCT := 0x2_0000
  const TWO_52 := 0x10_0000_0000_0000
  const TWO_62 := 0x4000_0000_0000_0000

  function Value(s: seq<int>): int {
    Eval(RADIX, s)
  }

  /** The residue of an integer modulo p, in [0, p). */
  function Mod(v: int): int {
    v % P
  }

  /** The field element that an array of limbs stands for. */
  function Fe(s: seq<int>): int {
    Mod(Value(s))
  }

  // The ring operations of the field.

  function FAdd(x: int, y: int): int {
    Mod(x + y)
  }

  function FSub(x: int, y: int): int {
    Mod(x - y)
  }

  function FMul(x: int, y: int): int {
    Mod(x * y)
  }

  lemma FMulLaws(x: int, y: int, z: int)
    ensures FMul(x, y) == FMul(y, x)
    ensures FMul(FMul(x, y), z) == FMul(x, FMul(y, z))
    ensures 0 <= x < P ==> FMul(Mod(1), x) == x
  {
    hide Mod;
    Commutes(x, y);
    FMulAssociates(x, y, z);
    if 0 <= x < P {
      FMulOne(x);
    }
  }

  lemma Commutes(x: int, y: int)
    ensures x * y == y * x
  {
  }

  lemma FMulAssociates(x: int, y: int, z: int)
    ensures FMul(FMul(x, y), z) == FMul(x, FMul(y, z))
  {
    MulAssociates(x, y, z, P);
  }

  lemma FMulOne(x: int)
    requires 0 <= x < P
    ensures FMul(Mod(1), x) == x
  {
    DivModUnique(1, P, 0, 1);
    DivModUnique(x, P, 0, x);
  }

  lemma ModRange(v: int)
    ensures 0 <= Mod(v) < P
  {
    ModTwice(v, P);
  }

  /** No limb exceeds n in absolute value. */
  ghost predicate Bounded(s: seq<int>, n: int) {
    |s| == 16 && forall k :: 0 <= k < 16 ==> -n <= s[k] <= n
  }

  /** The shape of every product: all limbs are digits, but the lowest may be off by 38. */
  ghost predicate Reduced(s: seq<int>) {
    |s| == 16 && -38 <= s[0] <= 65535 + 38 && forall k :: 1 <= k < 16 ==> 0 <= s[k] < RADIX
  }

  /** What one carry pass makes of the number v. */
  ghost predicate Carried(v: int, s: seq<int>) {
    && |s| == 16
    && 0 <= s[0] - 38 * (v / TWO_256) < RADIX
    && (forall k :: 1 <= k < 16 ==> 0 <= s[k] < RADIX)
    && Value(s) == v % TWO_256 + 38 * (v / TWO_256)
  }

  lemma Powers()
    ensures Pow(RADIX, 16) == TWO_256 == 2 * P + 38
    ensures Ones(RADIX, 16) * 65535 == TWO_256 - 1
  {
    assert Pow(RADIX, 4) == 0x1_0000_0000_0000_0000;
    assert Pow(RADIX, 8) == 0x1_0000_0000_0000_0000 * 0x1_0000_0000_0000_0000 by { PowAdds(RADIX, 4, 4); }
    PowAdds(RADIX, 8, 8);
    OnesTimes(RADIX, 16);
  }

  lemma {:induction false} OnesTimes(b: int, k: nat)
    ensures Ones(b, k) * (b - 1) == Pow(b, k) - 1
    decreases k
  {
    if k > 0 {
      OnesTimes(b, k - 1);
      assert (b * Ones(b, k - 1)) * (b - 1) == b * (Ones(b, k - 1) * (b - 1));
    }
  }

  method Car25519(o: array<i64>)
    requires Bounded(o[..], TWO_62)
    modifies o
    ensures Carried(old(Value(o[..])), o[..])
  {
    hide Carried, Eval;
    ghost var v := Value(o[..]);
    var i := 0;
    while i < 16
      invariant 0 <= i <= 16 && o.Length == 16
      invariant i < 16 ==> Value(o[..]) == v
      invariant i < 16 ==> -TWO_62 - 0x8000_0000_0000 <= o[i] <= TWO_62 + 0x8000_0000_0000
      invariant i < 16 ==> forall k :: 0 <= k < i ==> 0 <= o[k] < RADIX
      invariant forall k :: i < k < 16 ==> -TWO_62 <= o[k] <= TWO_62
      invariant i == 16 ==> Carried(v, o[..])
    {
      ghost var s := o[..];
      o[i] := o[i] + 0x1_0000;
      var c: i64 := o[i] / 0x1_0000;
      var next := if i < 15 then i + 1 else 0;
      var extra: i64 := if i == 15 then 37 * (c - 1) else 0;
      o[next] := o[next] + (c - 1 + extra);
      o[i] := o[i] - c * 0x1_0000;
      if i < 15 {
        CarryKeepsValue(RADIX, s, i, c - 1);
        assert o[..] == s[i + 1 := s[i + 1] + (c - 1)][i := s[i] - (c - 1) * RADIX];
      } else {
        assert o[..] == s[0 := s[0] + 38 * (c - 1)][15 := s[15] - (c - 1) * RADIX];
        WrapAround(s, c - 1);
      }
      i := i + 1;
    }
  }

  /** The carry out of the highest limb comes back multiplied by 38. */
  lemma WrapAround(s: seq<int>, k: int)
    requires |s| == 16 && forall j :: 0 <= j < 15 ==> 0 <= s[j] < RADIX
    requires 0 <= s[15] - k * RADIX < RADIX
    ensures Carried(Value(s), s[0 := s[0] + 38 * k][15 := s[15] - k * RADIX])
  {
    var d := s[15 := s[15] - k * RADIX];
    var t := d[0 := s[0] + 38 * k];
    assert t == s[0 := s[0] + 38 * k][15 := s[15] - k * RADIX];
    Powers();
    EvalUpdate(RADIX, s, 15, s[15] - k * RADIX);
    EvalUpdate(RADIX, d, 0, s[0] + 38 * k);
    EvalDigits(RADIX, d);
    assert k * RADIX * Pow(RADIX, 15) == k * Pow(RADIX, 16);
    DivModUnique(Value(s), TWO_256, k, Value(d));
  }

  /** A carry pass keeps the residue. */
  lemma CarriedSameResidue(v: int, s: seq<int>)
    requires Carried(v, s)
    ensures Fe(s) == Mod(v)
  {
    Powers();
    SameResidue(v, Value(s), 2 * (v / TWO_256), P);
  }

  /** Two carry passes bring any limbs below 2^62 to reduced form. */
  lemma CarriedTwice(s: seq<int>, t: seq<int>, u: seq<int>)
    requires Bounded(s, TWO_62) && Carried(Value(s), t) && Carried(Value(t), u)
    ensures Reduced(u) && Bounded(u, PRODUCT) && Fe(u) == Fe(s)
  {
    Powers();
    EvalMagnitude(RADIX, s, TWO_62);
    assert -0x8000_0000_0000 <= Value(s) / TWO_256 <= 0x8000_0000_0000;
    assert -1 <= Value(t) / TWO_256 <= 1;
    CarriedSameResidue(Value(s), t);
    CarriedSameResidue(Value(t), u);
  }

  method A(o: array<i64>, a: array<i64>, b: array<i64>)
    requires o.Length == 16 && Bounded(a[..], TWO_62 - 1) && Bounded(b[..], TWO_62 - 1)
    modifies o
    ensures forall k :: 0 <= k < 16 ==> o[k] == old(a[k]) + old(b[k])
    ensures Fe(o[..]) == FAdd(old(Fe(a[..])), old(Fe(b[..])))
  {
    ghost var x, y := a[..], b[..];
    for i := 0 to 16
      invariant forall k :: 0 <= k < i ==> o[k] == x[k] + y[k]
      invariant forall k :: i <= k < 16 ==> a[k] == x[k] && b[k] == y[k]
    {
      o[i] := a[i] + b[i];
    }
    EvalLinear(RADIX, x, y, o[..], 1);
    ModSum(Value(x), Value(y), P);
  }

  method Z(o: array<i64>, a: array<i64>, b: array<i64>)
    requires o.Length == 16 && Bounded(a[..], TWO_62 - 1) && Bounded(b[..], TWO_62 - 1)
    modifies o
    ensures forall k :: 0 <= k < 16 ==> o[k] == old(a[k]) - old(b[k])
    ensures Fe(o[..]) == FSub(old(Fe(a[..])), old(Fe(b[..])))
  {
    ghost var x, y := a[..], b[..];
    for i := 0 to 16
      invariant forall k :: 0 <= k < i ==> o[k] == x[k] - y[k]
      invariant forall k :: i <= k < 16 ==> a[k] == x[k] && b[k] == y[k]
    {
      o[i] := a[i] - b[i];
    }
    EvalLinear(RADIX, x, y, o[..], -1);
    ModSum(Value(x), Value(y), P);
  }

  /** The 31 column sums of a product. */
  method Columns(a: array<i64>, b: array<i64>) returns (t: array<i64>)
    requires Bounded(a[..], FACTOR) && Bounded(b[..], FACTOR)
    ensures fresh(t) && t.Length == 31
    ensures Value(t[..]) == Partial(RADIX, a[..], b[..], 16, 0)
    ensures forall k :: 0 <= k < 31 ==> -(16 * TWO_52) <= t[k] <= 16 * TWO_52
  {
    hide Eval, Partial;
    t := new i64[31](_ => 0);
    ghost var x, y := a[..], b[..];
    PartialStart(RADIX, t[..], x, y);
    for i := 0 to 16
      invariant Value(t[..]) == Partial(RADIX, x, y, i, 0)
      invariant forall k :: 0 <= k < 31 ==> -(i * TWO_52) <= t[k] <= i * TWO_52
    {
      for j := 0 to 16
        invariant Value(t[..]) == Partial(RADIX, x, y, i, j)
        invariant forall k :: 0 <= k < i + j ==> -((i + 1) * TWO_52) <= t[k] <= (i + 1) * TWO_52
        invariant forall k :: i + j <= k < 31 ==> -(i * TWO_52) <= t[k] <= i * TWO_52
      {
        ProductBound(a[i], b[j]);
        ProductStep(RADIX, t[..], x, y, i, j);
        var ab: i64 := a[i] * b[j];
        t[i + j] := t[i + j] + ab;
      }
      PartialRow(RADIX, x, y, i);
    }
  }

  method M(o: array<i64>, a: array<i64>, b: array<i64>)
    requires o.Length == 16 && Bounded(a[..], FACTOR) && Bounded(b[..], FACTOR)
    modifies o
    ensures Reduced(o[..]) && Bounded(o[..], PRODUCT)
    ensures Fe(o[..]) == FMul(old(Fe(a[..])), old(Fe(b[..])))
  {
    hide Mod, FMul, Eval, Partial, Carried, Reduced;
    ghost var x, y := a[..], b[..];
    var t := Columns(a, b);
    ghost var u := t[..];
    assert forall k :: 0 <= k < 31 ==> -(16 * TWO_52) <= u[k] <= 16 * TWO_52;
    for i := 0 to 15
      invariant forall k :: 0 <= k < i ==> t[k] == u[k] + 38 * u[k + 16]
      invariant forall k :: i <= k < 31 ==> t[k] == u[k]
    {
      var d: i64 := 38 * t[i + 16];
      t[i] := t[i] + d;
    }
    ghost var w := t[..];
    for i := 0 to 16
      invariant t[..] == w
      invariant forall k :: 0 <= k < i ==> o[k] == w[k]
    {
      o[i] := t[i];
    }
    ghost var s := o[..];
    Fold(u, s);
    Car25519(o);
    ghost var s' := o[..];
    CarriedBounded(s, s');
    Car25519(o);
    CarriedTwice(s, s', o[..]);
    FeProduct(x, y, u);
  }

  lemma FeProduct(x: seq<int>, y: seq<int>, u: seq<int>)
    requires |x| == |y| == 16 && Value(u) == Partial(RADIX, x, y, 16, 0)
    ensures Mod(Value(u)) == FMul(Fe(x), Fe(y))
  {
    assert x[..16] == x;
    ModProduct(Value(x), Value(y), P);
  }

  lemma ProductBound(x: int, y: int)
    requires -FACTOR <= x <= FACTOR && -FACTOR <= y <= FACTOR
    ensures -TWO_52 <= x * y <= TWO_52
  {
    if x >= 0 {
      MulMonotone(x, y, FACTOR);
      MulMonotone(x, -FACTOR, y);
    } else {
      MulMonotone(-x, y, FACTOR);
      MulMonotone(-x, -FACTOR, y);
    }
  }

  /** The upper fifteen limbs weigh 2^256, which is 38 modulo p. */
  lemma Fold(u: seq<int>, s: seq<int>)
    requires |u| == 31 && |s| == 16 && s[15] == u[15]
    requires forall k :: 0 <= k < 15 ==> s[k] == u[k] + 38 * u[k + 16]
    requires forall k :: 0 <= k < 31 ==> -(16 * TWO_52) <= u[k] <= 16 * TWO_52
    ensures Fe(s) == Mod(Value(u)) && Bounded(s, TWO_62)
  {
    var lo, hi := u[..16], u[16..];
    Powers();
    EvalSplit(RADIX, u, 16);
    EvalSplit(RADIX, lo, 15);
    EvalSplit(RADIX, s, 15);
    assert lo[15..] == s[15..];
    EvalLinear(RADIX, lo[..15], hi, s[..15], 38);
    SameResidue(Value(u), Value(s), 2 * Value(hi), P);
  }

  lemma CarriedBounded(s: seq<int>, t: seq<int>)
    requires Bounded(s, TWO_62) && Carried(Value(s), t)
    ensures Bounded(t, TWO_62)
  {
    Powers();
    EvalMagnitude(RADIX, s, TWO_62);
  }
}
