/**
  Points of the twisted Edwards curve -x^2 + y^2 = 1 + d x^2 y^2 in extended coordinates
  (X, Y, Z, T), as four residues, and the same points held in arrays of limbs.
 */
module Edwards {
  import opened Machine
  import opened Limbs
  import opened Field25519
  import opened FieldCodec
  import opened FieldPower

  datatype Point = Point(x: int, y: int, z: int, t: int)

  /** Limbs of the curve constant 2d. */
  const D2_LIMBS: seq<int> := [0xf159, 0x26b2, 0x9b94, 0xebd6, 0xb156, 0x8283, 0x149a, 0x00e0,
                               0xd130, 0xeef3, 0x80f2, 0x198e, 0xfce7, 0x56df, 0xd9dc, 0x2406]

  const ZERO := Point(0, 1, 1, 0)

  /** Section 5.1.4 of RFC 8032. */
  function AddPoints(p: Point, q: Point): Point {
    var a := FMul(FSub(p.y, p.x), FSub(q.y, q.x));
    var b := FMul(FAdd(p.x, p.y), FAdd(q.x, q.y));
    var c := FMul(FMul(p.t, q.t), Fe(D2_LIMBS));
    var zz := FMul(p.z, q.z);
    var d := FAdd(zz, zz);
    var e, f, g, h := FSub(b, a), FSub(d, c), FAdd(d, c), FAdd(b, a);
    Point(FMul(e, f), FMul(h, g), FMul(g, f), FMul(e, h))
  }

  /** Four arrays of limbs, as the C code passes them. */
  datatype Gf4 = Gf4(x: array<i64>, y: array<i64>, z: array<i64>, t: array<i64>) {
    ghost predicate Distinct() {
      && x.Length == y.Length == z.Length == t.Length == 16
      && x != y && x != z && x != t && y != z && y != t && z != t
    }

    /** Every coordinate is small enough to be an operand of a sum that is then multiplied. */
    ghost predicate Small()
      reads x, y, z, t
    {
      && Bounded(x[..], PRODUCT) && Bounded(y[..], PRODUCT)
      && Bounded(z[..], PRODUCT) && Bounded(t[..], PRODUCT)
    }

    ghost function View(): Point
      reads x, y, z, t
    {
      Point(Fe(x[..]), Fe(y[..]), Fe(z[..]), Fe(t[..]))
    }

    ghost function Repr(): set<object> {
      {x, y, z, t}
    }
  }

  method NewGf(s: seq<i64>) returns (a: array<i64>)
    requires |s| == 16
    ensures fresh(a) && a[..] == s
  {
    a := new i64[16](i requires 0 <= i < 16 => s[i]);
  }

  method NewZero() returns (a: array<i64>)
    ensures fresh(a) && a.Length == 16
  {
    a := new i64[16](_ => 0);
  }

  /** The first two products of an addition. */
  method AddDiagonals(p: Gf4, q: Gf4) returns (a: array<i64>, b: array<i64>)
    requires p.Distinct() && q.Distinct() && p.Small() && q.Small()
    ensures fresh(a) && fresh(b) && a != b && Reduced(a[..]) && Reduced(b[..])
    ensures Fe(a[..]) == FMul(FSub(Fe(p.y[..]), Fe(p.x[..])), FSub(Fe(q.y[..]), Fe(q.x[..])))
    ensures Fe(b[..]) == FMul(FAdd(Fe(p.x[..]), Fe(p.y[..])), FAdd(Fe(q.x[..]), Fe(q.y[..])))
  {
    hide Fe, FMul, FAdd, FSub;
    a := NewZero();
    b := NewZero();
    var t := NewZero();
    Z(a, p.y, p.x);
    Z(t, q.y, q.x);
    M(a, a, t);
    A(b, p.x, p.y);
    A(t, q.x, q.y);
    M(b, b, t);
  }

  /** The other two products, doubled and scaled by 2d. */
  method AddScaled(p: Gf4, q: Gf4) returns (c: array<i64>, d: array<i64>)
    requires p.Distinct() && q.Distinct() && p.Small() && q.Small()
    ensures fresh(c) && fresh(d) && c != d && Reduced(c[..]) && Bounded(d[..], 0x4_0000)
    ensures Fe(c[..]) == FMul(FMul(Fe(p.t[..]), Fe(q.t[..])), Fe(D2_LIMBS))
    ensures Fe(d[..]) == FAdd(FMul(Fe(p.z[..]), Fe(q.z[..])), FMul(Fe(p.z[..]), Fe(q.z[..])))
  {
    hide Fe, FMul, FAdd, FSub;
    c := NewZero();
    d := NewZero();
    var d2 := NewGf(D2_LIMBS);
    M(c, p.t, q.t);
    M(c, c, d2);
    M(d, p.z, q.z);
    A(d, d, d);
  }

  /** Differences and sums of the four products. */
  method AddMixed(a: array<i64>, b: array<i64>, c: array<i64>, d: array<i64>)
    returns (e: array<i64>, f: array<i64>, g: array<i64>, h: array<i64>)
    requires Reduced(a[..]) && Reduced(b[..]) && Reduced(c[..]) && Bounded(d[..], 0x4_0000)
    ensures fresh(e) && fresh(f) && fresh(g) && fresh(h)
    ensures Bounded(e[..], FACTOR) && Bounded(f[..], FACTOR) && Bounded(g[..], FACTOR) && Bounded(h[..], FACTOR)
    ensures Fe(e[..]) == FSub(Fe(b[..]), Fe(a[..])) && Fe(f[..]) == FSub(Fe(d[..]), Fe(c[..]))
    ensures Fe(g[..]) == FAdd(Fe(d[..]), Fe(c[..])) && Fe(h[..]) == FAdd(Fe(b[..]), Fe(a[..]))
  {
    hide Fe, FMul, FAdd, FSub;
    e := NewZero();
    f := NewZero();
    g := NewZero();
    h := NewZero();
    Z(e, b, a);
    Z(f, d, c);
    A(g, d, c);
    A(h, b, a);
  }

  /** p := p + q.  The two points may be the same arrays. */
  method AddInPlace(p: Gf4, q: Gf4)
    requires p.Distinct() && q.Distinct() && p.Small() && q.Small()
    requires p == q || p.Repr() !! q.Repr()
    modifies p.x, p.y, p.z, p.t
    ensures p.Small()
    ensures p.View() == AddPoints(old(p.View()), old(q.View()))
  {
    hide Fe, FMul, FAdd, FSub, Bounded, Reduced;
    var a, b := AddDiagonals(p, q);
    var c, d := AddScaled(p, q);
    var e, f, g, h := AddMixed(a, b, c, d);
    M(p.x, e, f);
    M(p.y, h, g);
    M(p.z, g, f);
    M(p.t, e, h);
  }

  method Cswap(p: Gf4, q: Gf4, b: int)
    requires p.Distinct() && q.Distinct() && p.Repr() !! q.Repr() && 0 <= b <= 1
    requires p.Small() && q.Small()
    modifies p.x, p.y, p.z, p.t, q.x, q.y, q.z, q.t
    ensures p.Small() && q.Small()
    ensures p.View() == old(if b == 1 then q.View() else p.View())
    ensures q.View() == old(if b == 1 then p.View() else q.View())
  {
    hide Fe, Bounded;
    Sel25519(p.x, q.x, b);
    Sel25519(p.y, q.y, b);
    Sel25519(p.z, q.z, b);
    Sel25519(p.t, q.t, b);
  }
}
