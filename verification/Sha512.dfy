/** SHA-512 (FIPS 180-4): the standard's definition, and the incremental program. */
module Sha512 {
  import opened Machine
  import opened Limbs
  import opened Residues

  type word = u64

  // The six functions of section 4.1.3 and the constants of section 4.2.3.

  /** (x >> c) | (x << (64 - c)), in 64 bits. */
  function RotateRight(x: word, c: nat): word
    requires 0 < c < 64
  {
    RotateFits(x, c);
    Or(x / Pow2(c), x * Pow2(64 - c) % TWO_64, 64)
  }

  function Xor2(x: word, y: word): word {
    Widths();
    XorFits(x, y, 64);
    Xor(x, y, 64)
  }

  function Xor3(x: word, y: word, z: word): word {
    Xor2(Xor2(x, y), z)
  }

  function Both(x: word, y: word): word {
    Widths();
    AndFits(x, y, 64);
    And(x, y, 64)
  }

  function Complement(x: word): word {
    TWO_64 - 1 - x
  }

  function ShiftRight(x: word, c: nat): word
    requires c < 64
  {
    ShiftFits(x, c);
    x / Pow2(c)
  }

  /** (x & y) ^ (~x & z). */
  function Choose(x: word, y: word, z: word): word {
    Xor2(Both(x, y), Both(Complement(x), z))
  }

  /** (x & y) ^ (x & z) ^ (y & z). */
  function Majority(x: word, y: word, z: word): word {
    Xor3(Both(x, y), Both(x, z), Both(y, z))
  }

  function BigSigma0(x: word): word {
    Xor3(RotateRight(x, 28), RotateRight(x, 34), RotateRight(x, 39))
  }

  function BigSigma1(x: word): word {
    Xor3(RotateRight(x, 14), RotateRight(x, 18), RotateRight(x, 41))
  }

  function SmallSigma0(x: word): word {
    Xor3(RotateRight(x, 1), RotateRight(x, 8), ShiftRight(x, 7))
  }

  function SmallSigma1(x: word): word {
    Xor3(RotateRight(x, 19), RotateRight(x, 61), ShiftRight(x, 6))
  }

  lemma QuotientBelow(x: int, p: int, q: int)
    requires 0 <= x < p * q && p > 0
    ensures 0 <= x / p < q
  {
    var k := x / p;
    assert x == p * k + x % p;
    if k >= q {
      MulMonotone(p, q, k);
    } else if k < 0 {
      MulMonotone(p, k, -1);
    }
  }

  lemma ShiftFits(x: word, c: nat)
    ensures 0 <= x / Pow2(c) <= x
  {
    hide Pow2;
    var p := Pow2(c);
    MulMonotone(x + 1, 1, p);
    QuotientBelow(x, p, x + 1);
  }

  /** What a left shift keeps in 64 bits. */
  lemma ShiftedOut(x: word, c: nat)
    requires 0 < c < 64
    ensures x * Pow2(64 - c) % TWO_64 == x % Pow2(c) * Pow2(64 - c) && 0 <= x % Pow2(c) < Pow2(c)
  {
    hide Pow2;
    Widths();
    Pow2Adds(c, 64 - c);
    var p, q := Pow2(c), Pow2(64 - c);
    ShiftedParts(x, p, q);
    DivModUnique(x * q, TWO_64, x / p, x % p * q);
  }

  lemma ShiftedParts(x: int, p: int, q: int)
    requires p > 0 && q > 0
    ensures x * q == (x / p) * (p * q) + x % p * q && 0 <= x % p * q < p * q && 0 <= x % p < p
  {
    var a, r := x / p, x % p;
    assert x == p * a + r;
    assert (p * a + r) * q == (p * a) * q + r * q && (p * a) * q == a * (p * q);
    MulMonotone(q, r, p - 1);
    MulMonotone(q, 0, r);
  }

  /** A rotation moves the lower bits above the others. */
  lemma Rotated(x: word, c: nat)
    requires 0 < c < 64
    ensures Or(x / Pow2(c), x * Pow2(64 - c) % TWO_64, 64) == x / Pow2(c) + x % Pow2(c) * Pow2(64 - c)
    ensures 0 <= x / Pow2(c) < Pow2(64 - c) && 0 <= x % Pow2(c) < Pow2(c)
  {
    hide Pow2, Or;
    Widths();
    Pow2Adds(c, 64 - c);
    ShiftFits(x, c);
    ShiftedOut(x, c);
    var p, q := Pow2(c), Pow2(64 - c);
    QuotientBelow(x, p, q);
    OrDisjoint(x / p, x % p, 64 - c, 64);
  }

  lemma RotateFits(x: word, c: nat)
    requires 0 < c < 64
    ensures 0 <= Or(x / Pow2(c), x * Pow2(64 - c) % TWO_64, 64) < TWO_64
  {
    hide Pow2, Or;
    Widths();
    Pow2Adds(c, 64 - c);
    Rotated(x, c);
    var p, q := Pow2(c), Pow2(64 - c);
    assert x % p * q <= (p - 1) * q;
  }

  /** The functions and constants, so that what follows holds whatever they are. */
  datatype Functions = Functions(choose: (word, word, word) -> word, majority: (word, word, word) -> word,
                                 big0: word -> word, big1: word -> word,
                                 small0: word -> word, small1: word -> word, k: seq<word>)

  const K_0: seq<word> := [
    0x428a2f98d728ae22, 0x7137449123ef65cd, 0xb5c0fbcfec4d3b2f, 0xe9b5dba58189dbbc,
    0x3956c25bf348b538, 0x59f111f1b605d019, 0x923f82a4af194f9b, 0xab1c5ed5da6d8118,
    0xd807aa98a3030242, 0x12835b0145706fbe, 0x243185be4ee4b28c, 0x550c7dc3d5ffb4e2,
    0x72be5d74f27b896f, 0x80deb1fe3b1696b1, 0x9bdc06a725c71235, 0xc19bf174cf692694]
  const K_1: seq<word> := [
    0xe49b69c19ef14ad2, 0xefbe4786384f25e3, 0x0fc19dc68b8cd5b5, 0x240ca1cc77ac9c65,
    0x2de92c6f592b0275, 0x4a7484aa6ea6e483, 0x5cb0a9dcbd41fbd4, 0x76f988da831153b5,
    0x983e5152ee66dfab, 0xa831c66d2db43210, 0xb00327c898fb213f, 0xbf597fc7beef0ee4,
    0xc6e00bf33da88fc2, 0xd5a79147930aa725, 0x06ca6351e003826f, 0x142929670a0e6e70]
  const K_2: seq<word> := [
    0x27b70a8546d22ffc, 0x2e1b21385c26c926, 0x4d2c6dfc5ac42aed, 0x53380d139d95b3df,
    0x650a73548baf63de, 0x766a0abb3c77b2a8, 0x81c2c92e47edaee6, 0x92722c851482353b,
    0xa2bfe8a14cf10364, 0xa81a664bbc423001, 0xc24b8b70d0f89791, 0xc76c51a30654be30,
    0xd192e819d6ef5218, 0xd69906245565a910, 0xf40e35855771202a, 0x106aa07032bbd1b8]
  const K_3: seq<word> := [
    0x19a4c116b8d2d0c8, 0x1e376c085141ab53, 0x2748774cdf8eeb99, 0x34b0bcb5e19b48a8,
    0x391c0cb3c5c95a63, 0x4ed8aa4ae3418acb, 0x5b9cca4f7763e373, 0x682e6ff3d6b2b8a3,
    0x748f82ee5defb2fc, 0x78a5636f43172f60, 0x84c87814a1f0ab72, 0x8cc702081a6439ec,
    0x90befffa23631e28, 0xa4506cebde82bde9, 0xbef9a3f7b2c67915, 0xc67178f2e372532b]
  const K_4: seq<word> := [
    0xca273eceea26619c, 0xd186b8c721c0c207, 0xeada7dd6cde0eb1e, 0xf57d4f7fee6ed178,
    0x06f067aa72176fba, 0x0a637dc5a2c898a6, 0x113f9804bef90dae, 0x1b710b35131c471b,
    0x28db77f523047d84, 0x32caab7b40c72493, 0x3c9ebe0a15c9bebc, 0x431d67c49c100d4c,
    0x4cc5d4becb3e42b6, 0x597f299cfc657e2a, 0x5fcb6fab3ad6faec, 0x6c44198c4a475817]
  const K := K_0 + K_1 + K_2 + K_3 + K_4

  const SHA_512 := Functions(Choose, Majority, BigSigma0, BigSigma1, SmallSigma0, SmallSigma1, K)

  /** The initial hash value of section 5.3.5, and the bytes that the program keeps it in. */
  const INITIAL: seq<word> := [
    0x6a09e667f3bcc908, 0xbb67ae8584caa73b, 0x3c6ef372fe94f82b, 0xa54ff53a5f1d36f1,
    0x510e527fade682d1, 0x9b05688c2b3e6c1f, 0x1f83d9abfb41bd6b, 0x5be0cd19137e2179]
  const IV_ROWS: seq<seq<u8>> := [
    [0x6a, 0x09, 0xe6, 0x67, 0xf3, 0xbc, 0xc9, 0x08],
    [0xbb, 0x67, 0xae, 0x85, 0x84, 0xca, 0xa7, 0x3b],
    [0x3c, 0x6e, 0xf3, 0x72, 0xfe, 0x94, 0xf8, 0x2b],
    [0xa5, 0x4f, 0xf5, 0x3a, 0x5f, 0x1d, 0x36, 0xf1],
    [0x51, 0x0e, 0x52, 0x7f, 0xad, 0xe6, 0x82, 0xd1],
    [0x9b, 0x05, 0x68, 0x8c, 0x2b, 0x3e, 0x6c, 0x1f],
    [0x1f, 0x83, 0xd9, 0xab, 0xfb, 0x41, 0xbd, 0x6b],
    [0x5b, 0xe0, 0xcd, 0x19, 0x13, 0x7e, 0x21, 0x79]]

  function Iv(i: nat): u8
    requires i < 64
  {
    IV_ROWS[i / 8][i % 8]
  }

  function Plus(x: word, y: word): word {
    (x + y) % TWO_64
  }

  // The standard.

  /** Word t of the message schedule (section 6.4.2, step 1). */
  function Schedule(f: Functions, block: seq<word>, t: nat): word
    requires |block| == 16
  {
    if t < 16 then block[t]
    else Plus(Plus(Plus(f.small1(Schedule(f, block, t - 2)), Schedule(f, block, t - 7)),
                   f.small0(Schedule(f, block, t - 15))), Schedule(f, block, t - 16))
  }

  /** One round on the working variables a to h (step 3). */
  function Round(f: Functions, s: seq<word>, k: word, w: word): (r: seq<word>)
    requires |s| == 8
    ensures |r| == 8
  {
    var t1 := Plus(Plus(Plus(Plus(s[7], f.big1(s[4])), f.choose(s[4], s[5], s[6])), k), w);
    var t2 := Plus(f.big0(s[0]), f.majority(s[0], s[1], s[2]));
    [Plus(t1, t2), s[0], s[1], s[2], Plus(s[3], t1), s[4], s[5], s[6]]
  }

  function Rounds(f: Functions, s: seq<word>, block: seq<word>, t: nat): (r: seq<word>)
    requires |s| == 8 && |block| == 16 && t <= |f.k|
    ensures |r| == 8
    decreases t
  {
    if t == 0 then s else Round(f, Rounds(f, s, block, t - 1), f.k[t - 1], Schedule(f, block, t - 1))
  }

  /** The intermediate hash value after one more block (step 4). */
  function Compress(f: Functions, s: seq<word>, block: seq<word>): (r: seq<word>)
    requires |s| == 8 && |block| == 16 && |f.k| == 80
    ensures |r| == 8
  {
    SumWords(Rounds(f, s, block, |f.k|), s)
  }

  function SumWords(t: seq<word>, s: seq<word>): (r: seq<word>)
    requires |t| == |s|
    ensures |r| == |s|
  {
    seq(|s|, i requires 0 <= i < |s| => Plus(t[i], s[i]))
  }

  /** The number that bytes represent, most significant first. */
  function BigEndian(b: seq<u8>): (r: nat)
    decreases |b|
  {
    if b == [] then 0 else BigEndian(b[..|b| - 1]) * 0x100 + b[|b| - 1]
  }

  /** The lowest n bytes of a number, most significant first. */
  function Bytes(x: nat, n: nat): (r: seq<u8>)
    ensures |r| == n
    decreases n
  {
    if n == 0 then [] else Bytes(x / 0x100, n - 1) + [x % 0x100]
  }

  function Word(b: seq<u8>): word
    requires |b| == 8
  {
    BigEndianBound(b);
    BigEndian(b)
  }

  function Words(b: seq<u8>, n: nat): (r: seq<word>)
    requires |b| == 8 * n
    ensures |r| == n
  {
    seq(n, i requires 0 <= i < n => Word(b[8 * i..8 * i + 8]))
  }

  /** The fold over the whole blocks of a message; a partial block at the end is ignored. */
  function HashBlocks(f: Functions, s: seq<word>, m: seq<u8>): (r: seq<word>)
    requires |s| == 8 && |f.k| == 80
    ensures |r| == 8
    decreases |m|
  {
    if |m| < 128 then s
    else HashBlocks(f, Compress(f, s, Words(m[..128], 16)), m[128..])
  }

  /** Section 5.1.2: a one bit, zeros, and the length in bits in 16 bytes, up to a whole block. */
  function Padded(m: seq<u8>): seq<u8> {
    m + [0x80] + seq((111 - |m|) % 128, _ => 0) + Bytes(8 * |m|, 16)
  }

  function Digest(f: Functions, m: seq<u8>): seq<word>
    requires |f.k| == 80
  {
    HashBlocks(f, INITIAL, Padded(m))
  }

  lemma {:induction false} BigEndianBound(b: seq<u8>)
    ensures BigEndian(b) < Pow(0x100, |b|)
    ensures |b| == 8 ==> BigEndian(b) < TWO_64
    decreases |b|
  {
    if b != [] {
      BigEndianBound(b[..|b| - 1]);
      assert BigEndian(b) <= (Pow(0x100, |b| - 1) - 1) * 0x100 + 0xff;
    }
    if |b| == 8 {
      EightBytes();
    }
  }

  lemma EightBytes()
    ensures Pow(0x100, 8) == TWO_64
  {
    assert Pow(0x100, 4) == TWO_32;
    PowAdds(0x100, 4, 4);
  }

  lemma {:induction false} BytesRoundTrip(x: nat, n: nat)
    requires x < Pow(0x100, n)
    ensures BigEndian(Bytes(x, n)) == x
    decreases n
  {
    if n > 0 {
      BytesRoundTrip(x / 0x100, n - 1);
      assert Bytes(x, n)[..n - 1] == Bytes(x / 0x100, n - 1);
    }
  }

  // The program.

  /** Reads a word, most significant byte first. */
  method Load64(x: seq<u8>) returns (u: word)
    requires |x| == 8
    ensures u == Word(x)
  {
    u := 0;
    for i := 0 to 8
      invariant u == BigEndian(x[..i])
    {
      BigEndianBound(x[..i + 1]);
      assert x[..i + 1][..i] == x[..i];
      BelowWord(x[..i + 1]);
      u := (u as int) * 0x100 + x[i];
    }
    assert x[..8] == x;
  }

  lemma BelowWord(b: seq<u8>)
    requires |b| <= 8
    ensures BigEndian(b) < TWO_64
  {
    BigEndianBound(b);
    EightBytes();
    PowGrows(|b|, 8);
  }

  /** Writes a word, most significant byte first, at offset o. */
  method Store64(x: array<u8>, o: nat, w: word)
    requires o + 8 <= x.Length
    modifies x
    ensures x[..] == old(x[..o]) + Bytes(w, 8) + old(x[o + 8..])
  {
    var u: word := w;
    var i := 8;
    ghost var s := x[..];
    while i > 0
      invariant 0 <= i <= 8
      invariant Bytes(w, 8) == Bytes(u, i) + x[o + i..o + 8]
      invariant x[..o] == s[..o] && x[o + 8..] == s[o + 8..]
    {
      ghost var done := x[o + i..o + 8];
      i := i - 1;
      x[o + i] := u % 0x100;
      assert x[o + i..o + 8] == [u % 0x100] + done;
      u := u / 0x100;
    }
    assert x[..] == x[..o] + x[o..o + 8] + x[o + 8..];
  }

  /** The words of the schedule from t up. */
  ghost function Window(f: Functions, block: seq<word>, t: nat): (r: seq<word>)
    requires |block| == 16
    ensures |r| == 16
  {
    seq<word>(16, k requires 0 <= k < 16 => Schedule(f, block, t + k))
  }

  lemma PlusOrder(a: word, b: word, c: word, d: word)
    ensures Plus(d, Plus(Plus(b, c), a)) == Plus(Plus(Plus(a, b), c), d)
  {
    PlusThree(b, c, a);
    PlusThree(a, b, c);
    var x := a + b + c;
    PlusWrapped(x, d);
    assert b + c + a == x;
  }

  lemma PlusThree(a: word, b: word, c: word)
    ensures Plus(Plus(a, b), c) == (a + b + c) % TWO_64
  {
    PlusWrapped(a + b, c);
  }

  /** Reductions inside a sum do not matter. */
  lemma PlusWrapped(x: int, y: int)
    ensures (x % TWO_64 + y) % TWO_64 == (x + y) % TWO_64 && (y + x % TWO_64) % TWO_64 == (x + y) % TWO_64
  {
    SameResidue(x + y, x % TWO_64 + y, x / TWO_64, TWO_64);
  }

  lemma ScheduleStep(f: Functions, block: seq<word>, t: nat)
    requires |block| == 16 && t >= 16
    ensures Schedule(f, block, t) ==
            Plus(Schedule(f, block, t - 16),
                 Plus(Plus(Schedule(f, block, t - 7), f.small0(Schedule(f, block, t - 15))),
                      f.small1(Schedule(f, block, t - 2))))
  {
    hide Plus;
    PlusOrder(f.small1(Schedule(f, block, t - 2)), Schedule(f, block, t - 7), f.small0(Schedule(f, block, t - 15)),
              Schedule(f, block, t - 16));
  }

  /** The in-place rewriting of the window after every sixteen rounds. */
  method Reschedule(f: Functions, w: array<word>, ghost block: seq<word>, ghost t: nat)
    requires w.Length == 16 && |block| == 16 && w[..] == Window(f, block, t)
    modifies w
    ensures w[..] == Window(f, block, t + 16)
  {
    hide Plus, Schedule;
    for j := 0 to 16
      invariant forall k :: 0 <= k < j ==> w[k] == Schedule(f, block, t + 16 + k)
      invariant forall k :: j <= k < 16 ==> w[k] == Schedule(f, block, t + k)
    {
      var w1, w9, w14 := (j + 1) % 16, (j + 9) % 16, (j + 14) % 16;
      assert w[w1] == Schedule(f, block, t + 16 + j - 15);
      assert w[w9] == Schedule(f, block, t + 16 + j - 7);
      assert w[w14] == Schedule(f, block, t + 16 + j - 2);
      ScheduleStep(f, block, t + 16 + j);
      w[j] := Plus(w[j], Plus(Plus(w[w9], f.small0(w[w1])), f.small1(w[w14])));
    }
  }

  lemma PlusAssociates(a: word, b: word, c: word)
    ensures Plus(Plus(a, b), c) == Plus(a, Plus(b, c))
  {
    PlusWrapped(a + b, c);
    PlusWrapped(b + c, a);
  }

  /** The new working variables, before they move up. */
  method NextVariables(f: Functions, a: array<word>, b: array<word>, k: word, w: word)
    requires a.Length == 8 && b.Length == 8 && a != b
    modifies b
    ensures var t := Plus(Plus(Plus(Plus(a[7], f.big1(a[4])), f.choose(a[4], a[5], a[6])), k), w);
            && b[7] == Plus(t, Plus(f.big0(a[0]), f.majority(a[0], a[1], a[2]))) && b[3] == Plus(a[3], t)
            && forall i :: 0 <= i < 7 && i != 3 ==> b[i] == a[i]
  {
    hide Plus;
    for j := 0 to 8
      invariant forall i :: 0 <= i < j ==> b[i] == a[i]
    {
      b[j] := a[j];
    }
    var t := Plus(Plus(Plus(Plus(a[7], f.big1(a[4])), f.choose(a[4], a[5], a[6])), k), w);
    PlusAssociates(t, f.big0(a[0]), f.majority(a[0], a[1], a[2]));
    b[7] := Plus(Plus(t, f.big0(a[0])), f.majority(a[0], a[1], a[2]));
    b[3] := Plus(b[3], t);
  }

  /** One round on the array of working variables, which moves up by one place. */
  method RoundInPlace(f: Functions, a: array<word>, b: array<word>, k: word, w: word)
    requires a.Length == 8 && b.Length == 8 && a != b
    modifies a, b
    ensures a[..] == Round(f, old(a[..]), k, w)
  {
    hide Plus, Round;
    ghost var s := a[..];
    NextVariables(f, a, b, k, w);
    ghost var r := b[..];
    for j := 0 to 8
      invariant b[..] == r
      invariant forall i :: 1 <= i <= j && i < 8 ==> a[i] == r[i - 1]
      invariant j == 8 ==> a[0] == r[7]
    {
      a[(j + 1) % 8] := b[j];
    }
    RotatedRound(f, s, k, w, r, a[..]);
  }

  lemma RotatedRound(f: Functions, s: seq<word>, k: word, w: word, r: seq<word>, a: seq<word>)
    requires |s| == |r| == |a| == 8 && a[0] == r[7] && forall i :: 1 <= i < 8 ==> a[i] == r[i - 1]
    requires var t := Plus(Plus(Plus(Plus(s[7], f.big1(s[4])), f.choose(s[4], s[5], s[6])), k), w);
             && r[7] == Plus(t, Plus(f.big0(s[0]), f.majority(s[0], s[1], s[2]))) && r[3] == Plus(s[3], t)
             && forall i :: 0 <= i < 7 && i != 3 ==> r[i] == s[i]
    ensures a == Round(f, s, k, w)
  {
    hide Plus;
  }

  /** The eighty rounds on one block. */
  method EightyRounds(f: Functions, a: array<word>, b: array<word>, w: array<word>, ghost block: seq<word>)
    requires a.Length == 8 && b.Length == 8 && w.Length == 16 && a != b && a != w && b != w
    requires |f.k| == 80 && |block| == 16 && w[..] == block
    modifies a, b, w
    ensures a[..] == Rounds(f, old(a[..]), block, |f.k|)
  {
    hide Rounds, Round, Schedule, Plus;
    ghost var s := a[..];
    RoundsStart(f, s, block);
    for i := 0 to 80
      invariant a[..] == Rounds(f, s, block, i)
      invariant w[..] == Window(f, block, i / 16 * 16)
    {
      RoundsStep(f, s, block, i);
      assert w[i % 16] == Schedule(f, block, i);
      RoundInPlace(f, a, b, f.k[i], w[i % 16]);
      if i % 16 == 15 {
        Reschedule(f, w, block, i / 16 * 16);
        assert i / 16 * 16 + 16 == (i + 1) / 16 * 16;
      }
    }
  }

  lemma RoundsStart(f: Functions, s: seq<word>, block: seq<word>)
    requires |s| == 8 && |block| == 16
    ensures Rounds(f, s, block, 0) == s && Window(f, block, 0) == block
  {
  }

  lemma RoundsStep(f: Functions, s: seq<word>, block: seq<word>, t: nat)
    requires |s| == 8 && |block| == 16 && t < |f.k|
    ensures Rounds(f, s, block, t + 1) == Round(f, Rounds(f, s, block, t), f.k[t], Schedule(f, block, t))
  {
    hide Round, Schedule;
  }

  /** The state bytes, as words. */
  function State(x: seq<u8>): seq<word>
    requires |x| == 64
  {
    Words(x, 8)
  }

  method LoadWords(x: seq<u8>, w: array<word>)
    requires |x| == 8 * w.Length
    modifies w
    ensures w[..] == Words(x, w.Length)
  {
    hide Word;
    for i := 0 to w.Length
      invariant forall k :: 0 <= k < i ==> w[k] == Word(x[8 * k..8 * k + 8])
    {
      w[i] := Load64(x[8 * i..8 * i + 8]);
    }
  }

  method StoreWords(x: array<u8>, z: array<word>)
    requires x.Length == 64 && z.Length == 8
    modifies x
    ensures State(x[..]) == z[..]
  {
    hide Bytes, Word;
    for i := 0 to 8
      invariant forall k :: 0 <= k < i ==> Word(x[8 * k..8 * k + 8]) == z[k]
    {
      ghost var before := x[..];
      Store64(x, 8 * i, z[i]);
      StoredWord(z[i]);
      assert x[8 * i..8 * i + 8] == Bytes(z[i], 8);
      assert forall k :: 0 <= k < i ==> x[8 * k..8 * k + 8] == before[8 * k..8 * k + 8];
    }
  }

  lemma StoredWord(w: word)
    ensures Word(Bytes(w, 8)) == w
  {
    EightBytes();
    BytesRoundTrip(w, 8);
  }

  /** Absorbs the whole blocks of m, and tells how many bytes are left. */
  method Hashblocks(f: Functions, x: array<u8>, m: seq<u8>) returns (n: nat)
    requires x.Length == 64 && |f.k| == 80
    modifies x
    ensures n == |m| % 128
    ensures State(x[..]) == HashBlocks(f, State(old(x[..])), m)
  {
    hide HashBlocks, Compress, Plus, Word, Rounds;
    var z, b, a, w := new word[8](_ => 0), new word[8](_ => 0), new word[8](_ => 0), new word[16](_ => 0);
    ghost var s := State(x[..]);
    LoadWords(x[..], z);
    LoadWords(x[..], a);
    n := |m|;
    var pos := 0;
    while n >= 128
      invariant pos + n == |m| && n % 128 == |m| % 128
      invariant x[..] == old(x[..])
      invariant a[..] == z[..] && HashBlocks(f, z[..], m[pos..]) == HashBlocks(f, s, m)
    {
      ghost var before := z[..];
      LoadWords(m[pos..pos + 128], w);
      EightyRounds(f, a, b, w, w[..]);
      AbsorbBlock(f, before, m[pos..]);
      AddInPlace(a, z);
      assert m[pos..][..128] == m[pos..pos + 128] && m[pos..][128..] == m[pos + 128..];
      CompressIs(f, before, Words(m[pos..pos + 128], 16), a[..]);
      pos := pos + 128;
      n := n - 128;
    }
    NothingLeft(f, z[..], m[pos..]);
    StoreWords(x, z);
  }

  /** The addition that ends a block: both arrays become the sum. */
  method AddInPlace(a: array<word>, z: array<word>)
    requires a.Length == 8 && z.Length == 8 && a != z
    modifies a, z
    ensures forall i :: 0 <= i < 8 ==> a[i] == Plus(old(a[i]), old(z[i])) && z[i] == a[i]
  {
    hide Plus;
    for i := 0 to 8
      invariant forall k :: 0 <= k < i ==> a[k] == Plus(old(a[k]), old(z[k])) && z[k] == a[k]
      invariant forall k :: i <= k < 8 ==> a[k] == old(a[k]) && z[k] == old(z[k])
    {
      a[i] := Plus(a[i], z[i]);
      z[i] := a[i];
    }
  }

  lemma CompressIs(f: Functions, s: seq<word>, block: seq<word>, a: seq<word>)
    requires |s| == |a| == 8 && |block| == 16 && |f.k| == 80
    requires forall i :: 0 <= i < 8 ==> a[i] == Plus(Rounds(f, s, block, |f.k|)[i], s[i])
    ensures a == Compress(f, s, block)
  {
    hide Plus, Rounds;
  }

  lemma AbsorbBlock(f: Functions, s: seq<word>, m: seq<u8>)
    requires |s| == 8 && |f.k| == 80 && |m| >= 128
    ensures HashBlocks(f, s, m) == HashBlocks(f, Compress(f, s, Words(m[..128], 16)), m[128..])
  {
    hide Compress, Word;
  }

  lemma NothingLeft(f: Functions, s: seq<word>, m: seq<u8>)
    requires |s| == 8 && |f.k| == 80 && |m| < 128
    ensures HashBlocks(f, s, m) == s
  {
  }

  // Padding.

  /** Only the lower n bytes of a number matter, and the bytes above them come from the quotient. */
  lemma {:induction false} BytesSplit(x: nat, m: nat, n: nat)
    ensures Pow(0x100, n) > 0 && x / Pow(0x100, n) >= 0
    ensures Bytes(x, m + n) == Bytes(x / Pow(0x100, n), m) + Bytes(x % Pow(0x100, n), n)
    decreases n
  {
    if n == 0 {
      assert x / 1 == x;
    } else {
      var p := Pow(0x100, n - 1);
      BytesSplit(x / 0x100, m, n - 1);
      DivideTwice(x, p);
      assert Bytes(x, m + n) == Bytes(x / 0x100, m + (n - 1)) + [x % 0x100];
    }
  }

  /** Dividing by 256 and then by p. */
  lemma DivideTwice(x: nat, p: int)
    requires p > 0
    ensures x / 0x100 / p == x / (0x100 * p) >= 0
    ensures x % (0x100 * p) >= 0 && x % (0x100 * p) / 0x100 == x / 0x100 % p
    ensures x % (0x100 * p) % 0x100 == x % 0x100
  {
    var y := x / 0x100;
    var q, r, s := y / p, y % p, x % 0x100;
    assert x == q * (0x100 * p) + (0x100 * r + s) by {
      assert y == q * p + r;
      assert 0x100 * (q * p) == q * (0x100 * p);
    }
    DivModUnique(x, 0x100 * p, q, 0x100 * r + s);
    if q < 0 {
      MulMonotone(p, q, -1);
    }
  }

  lemma LengthBytes(b: word)
    ensures b / 0x2000_0000_0000_0000 < 0x100
    ensures Bytes(8 * b, 16) == seq(7, _ => 0) + [b / 0x2000_0000_0000_0000] + Bytes(8 * b % TWO_64, 8)
  {
    EightBytes();
    BytesSplit(8 * b, 8, 8);
    var q := b / 0x2000_0000_0000_0000;
    assert 8 * b / TWO_64 == q;
    assert Pow(0x100, 1) == 0x100;
    BytesSplit(q, 7, 1);
    BytesOfZero(7);
    assert Bytes(q, 1) == Bytes(q / 0x100, 0) + [q];
    assert Bytes(q, 8) == seq(7, _ => 0) + [q];
  }

  lemma {:induction false} BytesOfZero(n: nat)
    ensures Bytes(0, n) == seq(n, _ => 0)
    decreases n
  {
    if n > 0 {
      BytesOfZero(n - 1);
    }
  }

  /** Hashing a number of whole blocks and then the rest is hashing them in one go. */
  lemma {:induction false} HashBlocksAppend(f: Functions, s: seq<word>, p: seq<u8>, q: seq<u8>)
    requires |s| == 8 && |f.k| == 80 && |p| % 128 == 0
    ensures HashBlocks(f, s, p + q) == HashBlocks(f, HashBlocks(f, s, p), q)
    decreases |p|
  {
    hide Compress, Words;
    if |p| == 0 {
      assert p + q == q;
    } else {
      assert (p + q)[..128] == p[..128] && (p + q)[128..] == p[128..] + q;
      HashBlocksAppend(f, Compress(f, s, Words(p[..128], 16)), p[128..], q);
    }
  }

  /** The part of the message that fills no block does not change the state. */
  lemma PartialBlockIgnored(f: Functions, s: seq<word>, p: seq<u8>, q: seq<u8>)
    requires |s| == 8 && |f.k| == 80 && |p| % 128 == 0 && |q| < 128
    ensures HashBlocks(f, s, p + q) == HashBlocks(f, s, p)
  {
    HashBlocksAppend(f, s, p, q);
    NothingLeft(f, HashBlocks(f, s, p), q);
  }

  /** Eight bytes, written out. */
  lemma WordOf(b: seq<u8>)
    requires |b| == 8
    ensures Word(b) ==
            ((((((b[0] as int * 0x100 + b[1]) * 0x100 + b[2]) * 0x100 + b[3]) * 0x100 + b[4]) * 0x100 + b[5]) * 0x100
                        + b[6]) * 0x100 + b[7]
  {
    assert b[..7][..6] == b[..6] && b[..6][..5] == b[..5] && b[..5][..4] == b[..4];
    assert b[..4][..3] == b[..3] && b[..3][..2] == b[..2] && b[..2][..1] == b[..1] && b[..1][..0] == [];
    assert BigEndian(b[..1]) == b[0];
    assert BigEndian(b[..2]) == BigEndian(b[..1]) * 0x100 + b[1];
    assert BigEndian(b[..3]) == BigEndian(b[..2]) * 0x100 + b[2];
    assert BigEndian(b[..4]) == BigEndian(b[..3]) * 0x100 + b[3];
    assert BigEndian(b[..5]) == BigEndian(b[..4]) * 0x100 + b[4];
    assert BigEndian(b[..6]) == BigEndian(b[..5]) * 0x100 + b[5];
    assert BigEndian(b[..7]) == BigEndian(b[..6]) * 0x100 + b[6];
  }

  /** The bytes that the initial hash value is kept in. */
  lemma InitialState()
    ensures var iv := seq(64, i requires 0 <= i < 64 => Iv(i)); State(iv) == INITIAL
  {
    hide Word, Iv;
    var iv := seq(64, i requires 0 <= i < 64 => Iv(i));
    forall k | 0 <= k < 8
      ensures State(iv)[k] == INITIAL[k]
    {
      RowWord(k);
      IvRow(k);
      assert iv[8 * k..8 * k + 8] == IV_ROWS[k];
    }
  }

  lemma IvRow(k: nat)
    requires k < 8
    ensures |IV_ROWS[k]| == 8 && forall j :: 0 <= j < 8 ==> Iv(8 * k + j) == IV_ROWS[k][j]
  {
    forall j | 0 <= j < 8
      ensures Iv(8 * k + j) == IV_ROWS[k][j]
    {
      assert (8 * k + j) / 8 == k && (8 * k + j) % 8 == j;
    }
  }

  lemma RowWord(k: nat)
    requires k < 8
    ensures |IV_ROWS[k]| == 8 && Word(IV_ROWS[k]) == INITIAL[k]
  {
    hide Word;
    WordOf(IV_ROWS[k]);
  }

  /** The unfinished block of the message, padded: one block, or two when the length does not fit. */
  function Tail(m: seq<u8>): seq<u8>
    requires |m| < TWO_64
  {
    var r := |m| % 128;
    m[|m| - r..] + [0x80] + seq(TailLength(r) - r - 10, _ => 0) + LengthField(|m|)
  }

  function TailLength(r: nat): nat {
    if r < 112 then 128 else 256
  }

  /** The length in bits, in nine bytes. */
  function LengthField(b: word): (r: seq<u8>)
    ensures |r| == 9
  {
    LengthBytes(b);
    [b / 0x2000_0000_0000_0000] + Bytes(8 * b % TWO_64, 8)
  }

  lemma ZerosNeeded(l: nat)
    ensures (111 - l) % 128 == TailLength(l % 128) - l % 128 - 17
  {
    var q, r := l / 128, l % 128;
    assert l == 128 * q + r;
    if r < 112 {
      DivModUnique(111 - l, 128, -q, 111 - r);
    } else {
      DivModUnique(111 - l, 128, -q - 1, 239 - r);
    }
  }

  lemma TailCompletes(m: seq<u8>)
    requires |m| < TWO_64
    ensures Padded(m) == m[..|m| - |m| % 128] + Tail(m)
    ensures |Tail(m)| == if |m| % 128 < 112 then 128 else 256
  {
    hide Bytes;
    var r, l := |m| % 128, |m|;
    ZerosNeeded(l);
    LengthBytes(l);
    assert Bytes(8 * l, 16) == seq(7, _ => 0) + LengthField(l);
    var z := TailLength(r) - r - 17;
    assert seq(z, _ => 0) + seq(7, _ => 0) == seq(z + 7, _ => 0);
    assert m == m[..l - r] + m[l - r..];
  }

  /** Whole blocks first, then the padded tail: the digest of the standard. */
  lemma TwoStepDigest(f: Functions, m: seq<u8>)
    requires |f.k| == 80 && |m| < TWO_64
    ensures HashBlocks(f, HashBlocks(f, INITIAL, m), Tail(m)) == Digest(f, m)
  {
    hide HashBlocks, Tail, Padded;
    var p := m[..|m| - |m| % 128];
    var q := m[|m| - |m| % 128..];
    assert m == p + q;
    PartialBlockIgnored(f, INITIAL, p, q);
    TailCompletes(m);
    HashBlocksAppend(f, INITIAL, p, Tail(m));
  }

  /** The bytes of words, most significant byte first. */
  function Unload(z: seq<word>): (r: seq<u8>)
    requires |z| == 8
    ensures |r| == 64
  {
    seq<u8>(64, i requires 0 <= i < 64 => Bytes(z[i / 8], 8)[i % 8])
  }

  lemma {:induction false} BytesOfNumber(b: seq<u8>)
    ensures Bytes(BigEndian(b), |b|) == b
    decreases |b|
  {
    if b != [] {
      BytesOfNumber(b[..|b| - 1]);
      assert b == b[..|b| - 1] + [b[|b| - 1]];
    }
  }

  /** The state words determine the state bytes. */
  lemma UnloadState(x: seq<u8>)
    requires |x| == 64
    ensures Unload(State(x)) == x
  {
    hide Bytes, Word;
    var z := State(x);
    forall i | 0 <= i < 64
      ensures Unload(z)[i] == x[i]
    {
      var k := i / 8;
      BytesOfWord(x[8 * k..8 * k + 8]);
      assert Bytes(z[k], 8) == x[8 * k..8 * k + 8];
    }
  }

  lemma BytesOfWord(b: seq<u8>)
    requires |b| == 8
    ensures Bytes(Word(b), 8) == b
  {
    BytesOfNumber(b);
  }

  method CryptoHash(f: Functions, out: array<u8>, m: seq<u8>)
    requires out.Length == 64 && |f.k| == 80 && |m| < TWO_64
    modifies out
    ensures out[..] == Unload(Digest(f, m))
  {
    hide HashBlocks, Words, Bytes, INITIAL, Iv;
    InitialState();
    var h := new u8[64](i requires 0 <= i < 64 => Iv(i));
    assert h[..] == seq(64, i requires 0 <= i < 64 => Iv(i));
    var rest := Hashblocks(f, h, m);
    var tail := MakeTail(m);
    ghost var state := State(h[..]);
    rest := Hashblocks(f, h, tail[..]);
    TwoStepDigest(f, m);
    UnloadState(h[..]);
    ghost var bytes := h[..];
    for i := 0 to 64
      invariant h[..] == bytes
      invariant forall k :: 0 <= k < i ==> out[k] == bytes[k]
    {
      out[i] := h[i];
    }
    assert out[..] == bytes;
  }

  /** crypto_hash with the functions and the constants of the standard. */
  method CryptoHash512(out: array<u8>, m: seq<u8>)
    requires out.Length == 64 && |m| < TWO_64
    modifies out
    ensures out[..] == Unload(Digest(SHA_512, m))
  {
    hide Digest;
    CryptoHash(SHA_512, out, m);
  }

  /** The last block or two, as the program builds them in a buffer. */
  method MakeTail(m: seq<u8>) returns (t: array<u8>)
    requires |m| < TWO_64
    ensures fresh(t) && t[..] == Tail(m)
  {
    hide Bytes;
    var b := |m|;
    var n := |m| % 128;
    var x := new u8[256](_ => 0);
    for i := 0 to n
      invariant forall k :: 0 <= k < i ==> x[k] == m[|m| - n + k]
      invariant forall k :: i <= k < 256 ==> x[k] == 0
    {
      x[i] := m[|m| - n + i];
    }
    x[n] := 0x80;
    ghost var r := n;
    n := 256 - 128 * (if n < 112 then 1 else 0);
    x[n - 9] := b / 0x2000_0000_0000_0000 % 0x100;
    ghost var before := x[..];
    Store64(x, n - 8, 8 * b % TWO_64);
    t := new u8[n](i requires 0 <= i < n reads x => x[i]);
    assert x[..n] == before[..n - 8] + Bytes(8 * b % TWO_64, 8);
    LengthBytes(b);
    assert before[..n - 8] == m[|m| - r..] + [0x80] + seq(TailLength(r) - r - 10, _ => 0) + [b / 0x2000_0000_0000_0000];
    assert t[..] == x[..n];
  }
}
