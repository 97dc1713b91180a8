/** The one-time authenticator of section 2.5 of RFC 8439, on seventeen limbs of 8 bits. */
module Poly1305 {
  import opened Machine
  import opened Limbs
  import opened Residues
  import opened FieldCodec

  const Q := 0x3_ffff_ffff_ffff_ffff_ffff_ffff_ffff_fffb
  const TWO_128 := 0x1_0000_0000_0000_0000_0000_0000_0000_0000
  const TWO_130 := 0x4_0000_0000_0000_0000_0000_0000_0000_0000
  const TWO_136 := 0x100_0000_0000_0000_0000_0000_0000_0000_0000

  /** 2^136 - Q. */
  const MINUSP: seq<u32> := [5, 0, 0, 0, 0, 0, 0, 0, 0, 0, 0, 0, 0, 0, 0, 0, 252]

  // What the authenticator is.

  /** The first half of the key, with the bits cleared that the standard wants cleared. */
  function Clamp(k: seq<u8>): (r: seq<u8>)
    requires |k| >= 16
    ensures |r| == 16
  {
    seq(16, i requires 0 <= i < 16 =>
      if i % 4 == 3 then k[i] % 16 else if i % 4 == 0 && i > 0 then k[i] / 4 * 4 else k[i])
  }

  /** The accumulator after the message m, one block of at most 16 bytes at a time; every block has a
      one above its highest byte. */
  function Accumulate(m: seq<u8>, r: int, acc: int): int
    decreases |m|
  {
    if m == [] then acc
    else
      var n := if |m| < 16 then |m| else 16;
      Accumulate(m[n..], r, (acc + LittleEndian(m[..n]) + Pow(0x100, n)) * r % Q)
  }

  function Tag(m: seq<u8>, k: seq<u8>): int
    requires |k| == 32
  {
    (Accumulate(m, LittleEndian(Clamp(k)), 0) + LittleEndian(k[16..])) % TWO_128
  }

  /** The blocks of a message as numbers: 16 bytes each, the last one perhaps fewer, with a one above them. */
  function Blocks(m: seq<u8>): (bs: seq<int>)
    ensures |bs| == (|m| + 15) / 16
  {
    seq((|m| + 15) / 16, i requires 0 <= i < (|m| + 15) / 16 => BlockAt(m, i))
  }

  function BlockAt(m: seq<u8>, i: nat): int
    requires 16 * i < |m|
  {
    var end := if |m| < 16 * i + 16 then |m| else 16 * i + 16;
    LittleEndian(m[16 * i..end]) + Pow(0x100, end - 16 * i)
  }

  /** b_1 r^n + b_2 r^(n - 1) + ... + b_n r. */
  function Polynomial(bs: seq<int>, r: int): int
    decreases |bs|
  {
    if bs == [] then 0 else bs[0] * Pow(r, |bs|) + Polynomial(bs[1..], r)
  }

  lemma FirstBlock(m: seq<u8>)
    requires m != []
    ensures var n := if |m| < 16 then |m| else 16;
            Blocks(m) == [LittleEndian(m[..n]) + Pow(0x100, n)] + Blocks(m[n..])
  {
    hide Eval, Pow;
    var n := if |m| < 16 then |m| else 16;
    var rest := m[n..];
    assert |Blocks(m)| == 1 + |Blocks(rest)|;
    assert m[0..n] == m[..n];
    forall i | 0 < i < |Blocks(m)| ensures Blocks(m)[i] == Blocks(rest)[i - 1] {
      var end := if |m| < 16 * i + 16 then |m| else 16 * i + 16;
      Further(m, 16 * (i - 1), end - 16);
    }
  }

  lemma Further(m: seq<u8>, a: nat, b: nat)
    requires a <= b && b + 16 <= |m|
    ensures m[16..][a..b] == m[a + 16..b + 16]
  {
  }

  /** The accumulator is the polynomial at r, modulo Q. */
  lemma {:induction false} AccumulateIsPolynomial(m: seq<u8>, r: int, acc: int)
    requires 0 <= acc < Q
    ensures Accumulate(m, r, acc) == (acc * Pow(r, |Blocks(m)|) + Polynomial(Blocks(m), r)) % Q
    decreases |m|
  {
    hide Eval, Blocks, BlockAt;
    if m == [] {
      assert Pow(r, 0) == 1;
      DivModUnique(acc, Q, 0, acc);
    } else {
      var n := if |m| < 16 then |m| else 16;
      FirstBlock(m);
      var b, rest := LittleEndian(m[..n]) + Pow(0x100, n), Blocks(m[n..]);
      ModTwice((acc + b) * r, Q);
      AccumulateIsPolynomial(m[n..], r, (acc + b) * r % Q);
      assert Blocks(m)[1..] == rest;
      HornerStep(acc, b, r, Pow(r, |rest|), Polynomial(rest, r));
    }
  }

  lemma HornerStep(acc: int, b: int, r: int, p: int, t: int)
    ensures ((acc + b) * r % Q * p + t) % Q == (acc * (r * p) + (b * (r * p) + t)) % Q
  {
    var y := (acc + b) * r;
    var k := y / Q;
    assert y == Q * k + y % Q;
    assert y * p == acc * (r * p) + b * (r * p);
    assert y * p == (k * p) * Q + y % Q * p by {
      assert (Q * k + y % Q) * p == (Q * k) * p + y % Q * p && (Q * k) * p == (k * p) * Q;
    }
    SameResidue(y * p + t, y % Q * p + t, k * p, Q);
  }

  /** The tag in one formula (section 2.5 of RFC 8439). */
  lemma TagIsPolynomial(m: seq<u8>, k: seq<u8>)
    requires |k| == 32
    ensures Q == 4 * TWO_128 - 5
    ensures Tag(m, k) == (Polynomial(Blocks(m), LittleEndian(Clamp(k))) % Q + LittleEndian(k[16..])) % TWO_128
  {
    hide Accumulate, Polynomial, Eval, Pow, Clamp, Blocks;
    AccumulateIsPolynomial(m, LittleEndian(Clamp(k)), 0);
  }

  /** Bit b of byte i is bit 8 i + b of the number. */
  lemma {:induction false} ByteBit(s: seq<u8>, i: nat, b: nat)
    requires i < |s| && b < 8
    ensures LittleEndian(s) >= 0 && BitOf(LittleEndian(s), 8 * i + b) == BitOf(s[i], b)
    decreases i
  {
    hide BitOf, Pow2;
    EvalDigits(0x100, s);
    var x, rest := LittleEndian(s), LittleEndian(s[1..]);
    Widths();
    EvalDigits(0x100, s[1..]);
    DivModUnique(x, 0x100, rest, s[0]);
    if i == 0 {
      LowBit(x, 8, b);
    } else {
      ByteBit(s[1..], i - 1, b);
      HighBit(x, 8, 8 * (i - 1) + b);
    }
  }

  /** Bit j of the clamped key: the upper four of bytes 3, 7, 11 and 15 and the lower two of bytes 4, 8 and 12 are
      cleared, the others are those of the key. */
  lemma ClampedBits(k: seq<u8>, j: nat)
    requires |k| == 32 && j < 128
    ensures LittleEndian(Clamp(k)) >= 0 && LittleEndian(k[..16]) >= 0
    ensures BitOf(LittleEndian(Clamp(k)), j)
            == if j % 32 >= 28 || (j % 32 < 2 && j >= 32) then 0 else BitOf(LittleEndian(k[..16]), j)
  {
    hide BitOf, Eval;
    var i, b := j / 8, j % 8;
    ByteBit(Clamp(k), i, b);
    ByteBit(k[..16], i, b);
    ByteMasks(k[i], b);
    assert j % 32 == 8 * (i % 4) + b;
  }

  lemma ByteMasks(x: u8, b: nat)
    requires b < 8
    ensures BitOf(x % 16, b) == if b < 4 then BitOf(x, b) else 0
    ensures BitOf(x / 4 * 4, b) == if b < 2 then 0 else BitOf(x, b)
  {
    hide BitOf, Pow2;
    LittlePowers();
    if b < 4 {
      LowBit(x, 4, b);
    } else {
      HighBit(x % 16, 4, b - 4);
      NoBits(b - 4);
    }
    HighBit(x, 2, b - 2 + if b < 2 then 2 else 0);
    HighBit(x / 4 * 4, 2, b - 2 + if b < 2 then 2 else 0);
    if b < 2 {
      LowBit(x / 4 * 4, 2, b);
      NoBits(b);
    }
  }

  lemma LittlePowers()
    ensures Pow2(2) == 4 && Pow2(4) == 16
  {
  }

  lemma NoBits(b: nat)
    ensures BitOf(0, b) == 0
  {
    hide Pow2;
    DivModUnique(0, Pow2(b), 0, 0);
  }

  lemma Weights()
    ensures Pow(0x100, 16) == TWO_128 && Pow(0x100, 17) == TWO_136
  {
    hide Pow;
    SquareBase(8);
    Eight([0, 0, 0, 0, 0, 0, 0, 0]);
    PowAdds(0x100, 16, 1);
    PowOne(0x100);
  }

  method Add1305(h: array<u32>, c: array<u32>)
    requires h.Length == 17 && c.Length == 17 && h != c
    requires forall j :: 0 <= j < 17 ==> h[j] <= 0x4000_0000 && c[j] <= 0x4000_0000
    modifies h
    ensures Digits(0x100, h[..])
    ensures LittleEndian(h[..]) == (old(LittleEndian(h[..])) + LittleEndian(c[..])) % TWO_136
  {
    hide Eval, Pow, Adding;
    var u: u32 := 0;
    ghost var x, y := h[..], c[..];
    AddStart(x, y);
    for j := 0 to 17
      invariant Adding(x, y, h[..], j, u) && u <= 0x100_0000
      invariant forall k :: 0 <= k < j ==> 0 <= h[k] < 0x100
      invariant forall k :: j <= k < 17 ==> h[k] == x[k]
    {
      ghost var t, v := h[..], u;
      u := u + (h[j] + c[j]);
      h[j] := u % 0x100;
      u := u / 0x100;
      AddStep(x, y, t, j, v, u);
      assert h[..] == t[j := t[j] + v + y[j] - u * 0x100];
    }
    AddEnd(x, y, h[..], u);
  }

  /** Limbs before j of x + y are in t, and u is carried to limb j. */
  ghost predicate Adding(x: seq<int>, y: seq<int>, t: seq<int>, j: int, u: int) {
    && |x| == |y| == |t| == 17 && 0 <= j <= 17
    && LittleEndian(t) + u * Pow(0x100, j) == LittleEndian(x) + LittleEndian(y[..j])
  }

  lemma AddStart(x: seq<int>, y: seq<int>)
    requires |x| == |y| == 17
    ensures Adding(x, y, x, 0, 0)
  {
    assert y[..0] == [];
  }

  lemma AddStep(x: seq<int>, y: seq<int>, t: seq<int>, j: nat, u: int, k: int)
    requires Adding(x, y, t, j, u) && j < 17
    ensures Adding(x, y, t[j := t[j] + u + y[j] - k * 0x100], j + 1, k)
  {
    hide Eval, Pow;
    CarryOut(0x100, t, j, u, -y[j], k);
    EvalSnoc(0x100, y, j);
    Negate(y[j], Pow(0x100, j));
  }

  lemma AddEnd(x: seq<int>, y: seq<int>, t: seq<int>, u: int)
    requires Adding(x, y, t, 17, u) && Digits(0x100, t)
    ensures LittleEndian(t) == (LittleEndian(x) + LittleEndian(y)) % TWO_136
  {
    hide Eval, Pow;
    assert y[..17] == y;
    Weights();
    EvalDigits(0x100, t);
    DivModUnique(LittleEndian(x) + LittleEndian(y), TWO_136, u, LittleEndian(t));
  }

  // The lazy multiplication: limbs that would go above 2^136 come back multiplied by 320.

  /** The coefficient of h[j] in limb i of h * r. */
  function Coefficient(r: seq<int>, i: int, j: int): int
    requires |r| == 17 && 0 <= i < 17 && 0 <= j < 17
  {
    if j <= i then r[i - j] else 320 * r[i + 17 - j]
  }

  /** The first n terms of limb i. */
  function Dot(h: seq<int>, r: seq<int>, i: int, n: nat): int
    requires |h| == |r| == 17 && 0 <= i < 17 && n <= 17
  {
    if n == 0 then 0 else Dot(h, r, i, n - 1) + h[n - 1] * Coefficient(r, i, n - 1)
  }

  /** r shifted by n limbs, wrapped around. */
  ghost function Row(r: seq<int>, n: nat): (s: seq<int>)
    requires |r| == 17 && n < 17
    ensures |s| == 17
  {
    seq(17, i requires 0 <= i < 17 => Coefficient(r, i, n))
  }

  ghost function Columns(h: seq<int>, r: seq<int>, n: nat): (s: seq<int>)
    requires |h| == |r| == 17 && n <= 17
    ensures |s| == 17
  {
    seq(17, i requires 0 <= i < 17 => Dot(h, r, i, n))
  }

  /** Shifting by one limb multiplies by 256, modulo Q. */
  lemma RowShift(r: seq<int>, n: nat)
    requires |r| == 17 && n < 16
    ensures LittleEndian(Row(r, n + 1)) == 0x100 * LittleEndian(Row(r, n)) - (TWO_136 - 320) * r[16 - n]
  {
    hide Pow;
    var s, t := Row(r, n), Row(r, n + 1);
    assert t[1..] == s[..16];
    assert s[..16 + 1] == s;
    EvalSnoc(0x100, s, 16);
    Weights();
  }

  lemma {:induction false} RowResidue(r: seq<int>, n: nat)
    requires |r| == 17 && n < 17
    ensures LittleEndian(Row(r, n)) % Q == Pow(0x100, n) * LittleEndian(r) % Q
    decreases n
  {
    hide Eval;
    if n == 0 {
      assert Row(r, 0) == r;
    } else {
      RowResidue(r, n - 1);
      RowShift(r, n - 1);
      var v := LittleEndian(Row(r, n - 1));
      SameResidue(0x100 * v, LittleEndian(Row(r, n)), 64 * r[16 - (n - 1)], Q);
      ModProductLeft(v, 0x100, Q);
      ModProductLeft(Pow(0x100, n - 1) * LittleEndian(r), 0x100, Q);
      assert 0x100 * (Pow(0x100, n - 1) * LittleEndian(r)) == Pow(0x100, n) * LittleEndian(r);
    }
  }

  lemma {:induction false} ColumnsResidue(h: seq<int>, r: seq<int>, n: nat)
    requires |h| == |r| == 17 && n <= 17
    ensures LittleEndian(Columns(h, r, n)) % Q == LittleEndian(h[..n]) * LittleEndian(r) % Q
    decreases n
  {
    hide Eval, Pow, Coefficient;
    if n == 0 {
      EvalZeros(0x100, Columns(h, r, 0));
      EvalZeros(0x100, h[..0]);
    } else {
      ColumnsResidue(h, r, n - 1);
      RowResidue(r, n - 1);
      EvalLinear(0x100, Columns(h, r, n - 1), Row(r, n - 1), Columns(h, r, n), h[n - 1]);
      EvalSnoc(0x100, h, n - 1);
      AddMultiple(LittleEndian(Columns(h, r, n - 1)), LittleEndian(h[..n - 1]), LittleEndian(r),
                  h[n - 1], LittleEndian(Row(r, n - 1)), Pow(0x100, n - 1));
    }
  }

  lemma AddMultiple(x: int, e: int, r: int, c: int, row: int, p: int)
    requires x % Q == e * r % Q && row % Q == p * r % Q
    ensures (x + c * row) % Q == (e + c * p) * r % Q
  {
    ModSum(x, c * row, Q);
    ModSum(e * r, c * (p * r), Q);
    ModProductLeft(row, c, Q);
    ModProductLeft(p * r, c, Q);
    assert (e + c * p) * r == e * r + c * (p * r);
  }

  /** A limb of the accumulator before a multiplication, and of the clamped key. */
  ghost predicate Octets(s: seq<int>) {
    |s| == 17 && Digits(0x100, s)
  }

  const TERM := 20_808_000

  lemma TermBound(h: int, r: int)
    requires 0 <= h < 0x100 && 0 <= r <= 320 * 0xff
    ensures 0 <= h * r <= TERM
  {
    MulMonotone(r, h, 0xff);
    MulMonotone(r, 0, h);
    assert h * r == r * h;
  }

  /** h := h * r, with limbs of up to 29 bits. */
  method Multiply(h: array<u32>, r: array<u32>)
    requires Octets(h[..]) && Octets(r[..]) && h != r
    modifies h
    ensures h.Length == 17 && forall k :: 0 <= k < 17 ==> h[k] <= 17 * TERM
    ensures LittleEndian(h[..]) % Q == old(LittleEndian(h[..])) * LittleEndian(r[..]) % Q
  {
    hide Eval, Coefficient;
    var x := new u32[17](_ => 0);
    ghost var s, t := h[..], r[..];
    for i := 0 to 17
      invariant h[..] == s && r[..] == t
      invariant forall k :: 0 <= k < i ==> x[k] == Dot(s, t, k, 17) && x[k] <= 17 * TERM
    {
      x[i] := 0;
      for j := 0 to 17
        invariant h[..] == s && r[..] == t
        invariant x[i] == Dot(s, t, i, j) && x[i] <= j * TERM
        invariant forall k :: 0 <= k < i ==> x[k] == Dot(s, t, k, 17) && x[k] <= 17 * TERM
      {
        CoefficientBound(t, i, j);
        TermBound(s[j], Coefficient(t, i, j));
        var c: u32 := if j <= i then r[i - j] else 320 * (r[i + 17 - j] as int);
        CoefficientIs(t, i, j, c);
        var term: u32 := (h[j] as int) * c;
        x[i] := x[i] + term;
      }
    }
    ghost var w := x[..];
    for i := 0 to 17
      invariant x[..] == w && r[..] == t
      invariant forall k :: 0 <= k < i ==> h[k] == w[k]
    {
      h[i] := x[i];
    }
    assert h[..] == Columns(s, t, 17);
    assert s[..17] == s;
    ColumnsResidue(s, t, 17);
  }

  lemma CoefficientBound(r: seq<int>, i: int, j: int)
    requires Octets(r) && 0 <= i < 17 && 0 <= j < 17
    ensures 0 <= Coefficient(r, i, j) <= 320 * 0xff
  {
  }

  lemma CoefficientIs(r: seq<int>, i: int, j: int, c: int)
    requires |r| == 17 && 0 <= i < 17 && 0 <= j < 17
    requires c == if j <= i then r[i - j] else 320 * r[i + 17 - j]
    ensures c == Coefficient(r, i, j)
  {
  }

  // The partial reduction.

  /** Limbs 0 to 15 of t hold the sum of start and of limbs 0 to 15 of x, up to limb j. */
  ghost predicate Carrying(x: seq<int>, start: int, t: seq<int>, j: int, u: int) {
    && |x| == |t| == 17 && 0 <= j <= 16
    && LittleEndian(t) + u * Pow(0x100, j) == LittleEndian(x) + start
  }

  lemma CarryStart(x: seq<int>, u: int)
    requires |x| == 17
    ensures Carrying(x, u, x, 0, u)
  {
  }

  lemma CarryStep(x: seq<int>, start: int, t: seq<int>, j: nat, u: int, k: int)
    requires Carrying(x, start, t, j, u) && j < 16
    ensures Carrying(x, start, t[j := t[j] + u - 0 - k * 0x100], j + 1, k)
  {
    hide Eval, Pow;
    CarryOut(0x100, t, j, u, 0, k);
  }

  lemma CarryEnd(x: seq<int>, start: int, t: seq<int>, u: int)
    requires Carrying(x, start, t, 16, u) && t[16] == x[16]
    ensures LittleEndian(t[..16]) + (u + t[16]) * TWO_128 == LittleEndian(x) + start
  {
    hide Eval, Pow;
    assert t[..17] == t;
    EvalSnoc(0x100, t, 16);
    Weights();
    Distribute(TWO_128, u, t[16]);
  }

  /** Adds start at limb 0 and carries through the lower sixteen limbs. */
  method Propagate(h: array<u32>, start: u32) returns (u: u32)
    requires h.Length == 17 && start <= 0x4000_0000 && forall k :: 0 <= k < 16 ==> h[k] <= 0x4000_0000
    modifies h
    ensures forall k :: 0 <= k < 16 ==> 0 <= h[k] < 0x100
    ensures h[16] == old(h[16]) && u <= 0x80_0000
    ensures LittleEndian(h[..16]) + (u + h[16]) * TWO_128 == old(LittleEndian(h[..])) + start
  {
    hide Eval, Pow, Carrying;
    ghost var x := h[..];
    u := start;
    CarryStart(x, u);
    for j := 0 to 16
      invariant Carrying(x, start, h[..], j, u) && u <= (if j == 0 then 0x4000_0000 else 0x80_0000)
      invariant forall k :: 0 <= k < j ==> 0 <= h[k] < 0x100
      invariant forall k :: j <= k < 17 ==> h[k] == x[k]
    {
      ghost var t, v := h[..], u;
      u := u + h[j];
      h[j] := u % 0x100;
      u := u / 0x100;
      CarryStep(x, start, t, j, v, u);
      assert h[..] == t[j := t[j] + v - 0 - u * 0x100];
    }
    CarryEnd(x, start, h[..], u);
  }

  /** The accumulator between blocks: sixteen bytes, and a little above them. */
  ghost predicate Settled(s: seq<int>) {
    && |s| == 17 && (forall k :: 0 <= k < 16 ==> 0 <= s[k] < 0x100) && 0 <= s[16] <= 4
    && 0 <= LittleEndian(s) < TWO_130 + 0x2000_0000
  }

  /** Brings the limbs of a product back to bytes, and the number below 2^130 + 2^29. */
  method PartialReduce(h: array<u32>)
    requires h.Length == 17 && forall k :: 0 <= k < 17 ==> h[k] <= 17 * TERM
    modifies h
    ensures Settled(h[..])
    ensures LittleEndian(h[..]) % Q == old(LittleEndian(h[..])) % Q
  {
    hide Eval, Pow;
    ghost var v := LittleEndian(h[..]);
    var u := Propagate(h, 0);
    u := u + h[16];
    h[16] := u % 4;
    ghost var top, low := u, LittleEndian(h[..16]);
    EvalDigits(0x100, h[..16]);
    SplitTop(h[..]);
    u := 5 * (u / 4);
    ghost var before := h[..];
    var carry := Propagate(h, u);
    assert h[16] == top % 4;
    u := carry + h[16];
    h[16] := u;
    SplitTop(h[..]);
    TopFolded(v, low, top, LittleEndian(h[..16]), u);
    EvalDigits(0x100, h[..16]);
    Weights();
    SmallTop(LittleEndian(h[..16]), u, low, top);
  }

  lemma SplitTop(s: seq<int>)
    requires |s| == 17
    ensures LittleEndian(s) == LittleEndian(s[..16]) + s[16] * TWO_128
  {
    hide Eval, Pow;
    assert s[..16 + 1] == s;
    EvalSnoc(0x100, s, 16);
    Weights();
  }

  /** 2^130 is 5 modulo Q. */
  lemma TopFolded(v: int, low: int, top: int, low': int, top': int)
    requires low + top * TWO_128 == v
    requires low' + top' * TWO_128 == low + top % 4 * TWO_128 + 5 * (top / 4)
    ensures (low' + top' * TWO_128) % Q == v % Q
  {
    SameResidue(v, low' + top' * TWO_128, top / 4, Q);
  }

  lemma SmallTop(low': int, top': int, low: int, top: int)
    requires 0 <= low' < TWO_128 && 0 <= top' && 0 <= low < TWO_128 && 0 <= top < 400_000_000
    requires low' + top' * TWO_128 == low + top % 4 * TWO_128 + 5 * (top / 4)
    ensures top' <= 4 && low' + top' * TWO_128 < TWO_130 + 0x2000_0000
  {
  }

  /** The next block of the message, with a one above it. */
  method LoadBlock(c: array<u32>, m: seq<u8>) returns (n: nat)
    requires c.Length == 17 && m != []
    modifies c
    ensures n == if |m| < 16 then |m| else 16
    ensures Octets(c[..]) && LittleEndian(c[..]) == LittleEndian(m[..n]) + Pow(0x100, n)
  {
    hide Eval, Pow;
    for j := 0 to 17
      invariant forall k :: 0 <= k < j ==> c[k] == 0
    {
      c[j] := 0;
    }
    n := 0;
    while n < 16 && n < |m|
      invariant n <= 16 && n <= |m|
      invariant forall k :: 0 <= k < n ==> c[k] == m[k]
      invariant forall k :: n <= k < 17 ==> c[k] == 0
    {
      c[n] := m[n];
      n := n + 1;
    }
    c[n] := 1;
    BlockValue(c[..], m[..n]);
  }

  lemma BlockValue(c: seq<int>, b: seq<int>)
    requires |c| == 17 && |b| <= 16 && c[|b|] == 1
    requires (forall k :: 0 <= k < |b| ==> c[k] == b[k]) && forall k :: |b| < k < 17 ==> c[k] == 0
    ensures LittleEndian(c) == LittleEndian(b) + Pow(0x100, |b|)
  {
    hide Eval, Pow;
    var n := |b|;
    assert c[..n] == b;
    EvalSplit(0x100, c, n + 1);
    EvalZeros(0x100, c[n + 1..]);
    EvalSnoc(0x100, c, n);
    assert Pow(0x100, n + 1) * 0 == 0;
  }

  lemma BlockBound(c: seq<u8>)
    requires |c| <= 16
    ensures 0 <= LittleEndian(c) + Pow(0x100, |c|) <= 2 * TWO_128
  {
    hide Eval, Pow;
    EvalDigits(0x100, c);
    Weights();
    PowGrows(|c|, 16);
  }

  /** One block absorbed. */
  method Absorb(h: array<u32>, r: array<u32>, c: array<u32>, m: seq<u8>) returns (n: nat)
    requires Settled(h[..]) && Octets(r[..]) && c.Length == 17 && m != []
    requires h != r && h != c && r != c
    modifies h, c
    ensures n == if |m| < 16 then |m| else 16
    ensures Settled(h[..])
    ensures LittleEndian(h[..]) % Q
            == (old(LittleEndian(h[..])) % Q + LittleEndian(m[..n]) + Pow(0x100, n)) * LittleEndian(r[..]) % Q
  {
    hide Eval, Pow;
    ghost var v, w := LittleEndian(h[..]), LittleEndian(r[..]);
    n := LoadBlock(c, m);
    ghost var b := LittleEndian(c[..]);
    BlockBound(m[..n]);
    Add1305(h, c);
    DivModUnique(v + b, TWO_136, 0, v + b);
    Multiply(h, r);
    PartialReduce(h);
    AbsorbResidue(v, b, w);
  }

  lemma AbsorbResidue(v: int, b: int, w: int)
    ensures (v % Q + b) * w % Q == (v + b) * w % Q
  {
    SameResidue((v + b) * w, (v % Q + b) * w, v / Q * w, Q);
    assert (v + b) - (v % Q + b) == v / Q * Q;
    assert (v + b) * w - (v % Q + b) * w == (v / Q * Q) * w;
    assert (v / Q * Q) * w == v / Q * w * Q;
  }

  lemma AccumulateStep(m: seq<u8>, r: int, acc: int, n: nat)
    requires m != [] && n == if |m| < 16 then |m| else 16
    ensures Accumulate(m, r, acc) == Accumulate(m[n..], r, (acc + LittleEndian(m[..n]) + Pow(0x100, n)) * r % Q)
  {
  }

  /** The conditional subtraction: h if h < Q, and h - Q otherwise. */
  method FullReduce(h: array<u32>)
    requires Settled(h[..])
    modifies h
    ensures Octets(h[..]) && LittleEndian(h[..]) == old(LittleEndian(h[..])) % Q
  {
    hide Eval, Pow, Xor, And;
    var g := new u32[17](_ => 0);
    var minusp := new u32[17](i requires 0 <= i < 17 => MINUSP[i]);
    assert minusp[..] == MINUSP;
    ghost var x := h[..];
    for j := 0 to 17
      invariant h[..] == x && minusp[..] == MINUSP
      invariant forall k :: 0 <= k < j ==> g[k] == x[k]
    {
      g[j] := h[j];
    }
    Add1305(h, minusp);
    ghost var y := h[..];
    MinusPValue();
    HighBitTells(x, y);
    var s: u32 := (0 - h[16] / 0x80) % TWO_32;
    for j := 0 to 17
      invariant g[..] == x
      invariant forall k :: 0 <= k < j ==> h[k] == if y[16] >= 0x80 then x[k] else y[k]
      invariant forall k :: j <= k < 17 ==> h[k] == y[k]
    {
      SelectWord(g[j], h[j], s);
      h[j] := Xor(h[j], And(s, Xor(g[j], h[j], 32), 32), 32);
    }
    assert h[..] == if y[16] >= 0x80 then x else y;
  }

  lemma SelectWord(g: u32, h: u32, s: u32)
    requires s == 0 || s == TWO_32 - 1
    ensures Xor(h, And(s, Xor(g, h, 32), 32), 32) == if s == 0 then h else g
  {
    hide Xor, And;
    Widths();
    XorFits(g, h, 32);
    AndMask(Xor(g, h, 32), 32);
    XorWithZero(h, 32);
    XorSelfInverse(g, h, 32);
  }

  lemma MinusPValue()
    ensures LittleEndian(MINUSP) == TWO_136 - Q
  {
    hide Eval, Pow;
    SplitTop(MINUSP);
    EvalZeros(0x100, MINUSP[..16][1..]);
    FirstByte(MINUSP[..16]);
  }

  lemma FirstByte(s: seq<int>)
    requires s != []
    ensures LittleEndian(s) == s[0] + 0x100 * LittleEndian(s[1..])
  {
  }

  /** After adding 2^136 - Q, the highest bit is set exactly when the number was below Q. */
  lemma HighBitTells(x: seq<int>, y: seq<int>)
    requires Settled(x) && |y| == 17 && Digits(0x100, y)
    requires LittleEndian(y) == (LittleEndian(x) + (TWO_136 - Q)) % TWO_136
    ensures LittleEndian(x) % Q == LittleEndian(if y[16] >= 0x80 then x else y)
  {
    hide Eval, Pow;
    var v := LittleEndian(x);
    SplitTop(y);
    EvalDigits(0x100, y[..16]);
    Weights();
    if v < Q {
      DivModUnique(v + (TWO_136 - Q), TWO_136, 0, v + (TWO_136 - Q));
      DivModUnique(v, Q, 0, v);
    } else {
      DivModUnique(v + (TWO_136 - Q), TWO_136, 1, v - Q);
      DivModUnique(v, Q, 1, v - Q);
    }
  }

  method OneTimeAuth(out: array<u8>, m: seq<u8>, k: seq<u8>)
    requires out.Length == 16 && |k| == 32
    modifies out
    ensures LittleEndian(out[..]) == Tag(m, k)
  {
    hide Eval, Pow, Accumulate, Settled, Octets;
    var r, h, c := new u32[17](_ => 0), new u32[17](_ => 0), new u32[17](_ => 0);
    LoadKey(r, k);
    ghost var w := LittleEndian(Clamp(k));
    ZeroSettled(h[..]);
    var pos := 0;
    while pos < |m|
      invariant pos <= |m| && Octets(r[..]) && LittleEndian(r[..]) == w
      invariant Settled(h[..])
      invariant Accumulate(m[pos..], w, LittleEndian(h[..]) % Q) == Accumulate(m, w, 0)
    {
      ghost var v := LittleEndian(h[..]);
      var n := Absorb(h, r, c, m[pos..]);
      AccumulateStep(m[pos..], w, v % Q, n);
      assert m[pos..][n..] == m[pos + n..];
      pos := pos + n;
    }
    AccumulateDone(w, LittleEndian(h[..]) % Q);
    assert m[pos..] == [];
    FullReduce(h);
    AddPad(out, h, c, k);
  }

  lemma AccumulateDone(r: int, acc: int)
    ensures Accumulate([], r, acc) == acc
  {
  }

  lemma ZeroSettled(h: seq<int>)
    requires |h| == 17 && forall k :: 0 <= k < 17 ==> h[k] == 0
    ensures Settled(h) && LittleEndian(h) % Q == 0
  {
    EvalZeros(0x100, h);
  }

  /** The first half of the key, clamped. */
  method LoadKey(r: array<u32>, k: seq<u8>)
    requires r.Length == 17 && |k| == 32
    modifies r
    ensures Octets(r[..]) && LittleEndian(r[..]) == LittleEndian(Clamp(k))
  {
    hide Eval, Pow;
    r[16] := 0;
    for j := 0 to 16
      invariant r[16] == 0 && forall i :: 0 <= i < j ==> r[i] == k[i]
    {
      r[j] := k[j];
    }
    r[3] := r[3] % 16;
    r[4] := r[4] / 4 * 4;
    r[7] := r[7] % 16;
    r[8] := r[8] / 4 * 4;
    r[11] := r[11] % 16;
    r[12] := r[12] / 4 * 4;
    r[15] := r[15] % 16;
    ClampedBytes(r[..], k);
    SplitTop(r[..]);
  }

  lemma ClampedBytes(r: seq<int>, k: seq<u8>)
    requires |r| == 17 && |k| >= 16
    requires forall i :: 0 <= i < 16 && (i % 4 == 1 || i % 4 == 2 || i == 0) ==> r[i] == k[i]
    requires r[3] == k[3] % 16 && r[7] == k[7] % 16 && r[11] == k[11] % 16 && r[15] == k[15] % 16
    requires r[4] == k[4] / 4 * 4 && r[8] == k[8] / 4 * 4 && r[12] == k[12] / 4 * 4
    ensures r[..16] == Clamp(k)
  {
    forall i | 0 <= i < 16
      ensures r[..16][i] == Clamp(k)[i]
    {
    }
  }

  /** Adds the second half of the key, and keeps the lower sixteen bytes. */
  method AddPad(out: array<u8>, h: array<u32>, c: array<u32>, k: seq<u8>)
    requires out.Length == 16 && Octets(h[..]) && c.Length == 17 && |k| == 32 && h != c
    modifies out, h, c
    ensures LittleEndian(out[..]) == (old(LittleEndian(h[..])) + LittleEndian(k[16..])) % TWO_128
  {
    hide Eval, Pow;
    ghost var v := LittleEndian(h[..]);
    ghost var x := h[..];
    for j := 0 to 16
      invariant h[..] == x
      invariant forall i :: 0 <= i < j ==> c[i] == k[i + 16]
    {
      c[j] := k[j + 16];
    }
    c[16] := 0;
    assert c[..16] == k[16..];
    SplitTop(c[..]);
    Add1305(h, c);
    ghost var y := h[..];
    for j := 0 to 16
      invariant h[..] == y
      invariant forall i :: 0 <= i < j ==> out[i] == y[i]
    {
      out[j] := h[j] % 0x100;
    }
    assert out[..] == y[..16];
    SplitTop(y);
    EvalDigits(0x100, y[..16]);
    Weights();
    LowerHalf(v + LittleEndian(k[16..]), LittleEndian(y[..16]), y[16]);
  }

  lemma LowerHalf(v: int, low: int, top: int)
    requires 0 <= low < TWO_128 && low + top * TWO_128 == v % TWO_136
    ensures low == v % TWO_128
  {
    DivModUnique(v, TWO_128, v / TWO_136 * 0x100 + top, low);
  }
}
