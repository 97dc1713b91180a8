/** Verification of an ed25519 signature (section 5.1.7 of RFC 8032). */
module SignOpen {
  import opened Machine
  import opened Limbs
  import opened Residues
  import opened Field25519
  import opened FieldCodec
  import opened Edwards
  import opened EdwardsLaws
  import opened Ladder
  import opened PointCodec
  import opened GroupOrder
  import Sha512

  /** The lowest n bytes of a number, least significant first. */
  function LowBytes(v: nat, n: nat): (r: seq<u8>)
    ensures |r| == n
    decreases n
  {
    if n == 0 then [] else [v % 0x100] + LowBytes(v / 0x100, n - 1)
  }

  /** The hash of the commitment, the key and the message, modulo the order, as 32 bytes. */
  function Challenge(f: Sha512.Functions, sm: seq<u8>, pk: seq<u8>): (r: seq<u8>)
    requires |f.k| == 80 && |sm| >= 64 && |pk| == 32
    ensures |r| == 32
  {
    var digest := Sha512.Unload(Sha512.Digest(f, sm[..32] + pk + sm[64..]));
    LowBytes(LittleEndian(digest) % ORDER, 32)
  }

  /** h times the negative of the key, plus s times the base point. */
  function Recovered(a: Point, h: seq<u8>, s: seq<u8>): Point
    requires |h| == |s| == 32
  {
    AddPoints(Rounds(a, h, 0).0, Rounds(Base(), s, 0).0)
  }

  /** The point that is compared with the commitment. */
  function RecoveredPoint(f: Sha512.Functions, sm: seq<u8>, pk: seq<u8>): Point
    requires |f.k| == 80 && |sm| >= 64 && |pk| == 32 && DecodeNegated(pk).Some?
  {
    var a, h, s := DecodeNegated(pk).value, Challenge(f, sm, pk), sm[32..64];
    Recovered(a, h, s)
  }

  /** The signature is accepted: the key decodes, and the recovered commitment encodes to the first
      32 bytes. */
  predicate Accepted(f: Sha512.Functions, sm: seq<u8>, pk: seq<u8>)
    requires |f.k| == 80 && |pk| == 32
  {
    && |sm| >= 64
    && DecodeNegated(pk).Some?
    && Encode(RecoveredPoint(f, sm, pk)) == LittleEndian(sm[..32])
  }

  lemma {:induction false} LowBytesUnique(s: seq<u8>)
    ensures LittleEndian(s) >= 0 && LowBytes(LittleEndian(s), |s|) == s
    decreases |s|
  {
    if s != [] {
      LowBytesUnique(s[1..]);
      assert s == [s[0]] + s[1..];
      var v := LittleEndian(s[1..]);
      assert LittleEndian(s) == s[0] + 0x100 * v;
      hide Eval;
      DivModUnique(s[0] + 0x100 * v, 0x100, v, s[0]);
    }
  }

  method NewPoint() returns (q: Gf4)
    ensures fresh(q.x) && fresh(q.y) && fresh(q.z) && fresh(q.t) && q.Distinct()
  {
    var x := NewZero();
    var y := NewZero();
    var z := NewZero();
    var t := NewZero();
    q := Gf4(x, y, z, t);
  }

  /** The challenge, computed from the buffer that holds the commitment, the key and the message. */
  method HashChallenge(f: Sha512.Functions, m: seq<u8>) returns (h: seq<u8>)
    requires |f.k| == 80 && |m| < TWO_64
    ensures |h| == 32 && h == LowBytes(LittleEndian(Sha512.Unload(Sha512.Digest(f, m))) % ORDER, 32)
  {
    hide Eval, Sha512.Digest, Sha512.Unload, LowBytes;
    var d := new u8[64](_ => 0);
    Sha512.CryptoHash(f, d, m);
    Reduce(d);
    h := d[..32];
    LowBytesUnique(h);
  }

  /** The bytes of h times a, plus s times the base point. */
  method RecoverCommitment(q: Gf4, h: seq<u8>, s: seq<u8>) returns (t: array<u8>)
    requires q.Distinct() && q.Small() && |h| == |s| == 32
    modifies q.x, q.y, q.z, q.t
    ensures fresh(t) && t.Length == 32
    ensures LittleEndian(t[..]) == Encode(Recovered(old(q.View()), h, s))
  {
    hide Eval, Encode, Rounds, AddPoints, Base, Fe, Bounded;
    var p := NewPoint();
    Scalarmult(p, q, h);
    Scalarbase(q, s);
    AddInPlace(p, q);
    t := new u8[32](_ => 0);
    Pack(t, p);
  }

  predicate AllZero(s: seq<u8>) {
    forall i :: 0 <= i < |s| ==> s[i] == 0
  }

  method CryptoSignOpen(f: Sha512.Functions, m: array<u8>, sm: seq<u8>, pk: seq<u8>) returns (rc: int, mlen: u64)
    requires |f.k| == 80 && |pk| == 32 && m.Length >= |sm| && |sm| < TWO_64
    modifies m
    ensures rc == if Accepted(f, sm, pk) then 0 else -1
    ensures rc == 0 ==> mlen == |sm| - 64 && m[..mlen] == sm[64..]
    ensures rc != 0 ==> mlen == TWO_64 - 1
    ensures rc != 0 && |sm| >= 64 && DecodeNegated(pk).Some? ==> AllZero(m[..|sm| - 64])
  {
    hide Eval, Encode, DecodeNegated, Recovered, LowBytes, Sha512.Digest, Sha512.Unload, Bounded;
    mlen := TWO_64 - 1;
    var n := |sm|;
    if n < 64 {
      return -1, mlen;
    }
    var q := NewPoint();
    var bad := Unpackneg(q, pk);
    if bad != 0 {
      return -1, mlen;
    }
    CopyOver(m, sm, pk);
    var h := HashChallenge(f, m[..n]);
    assert m[..n] == sm[..32] + pk + sm[64..];
    var t := RecoverCommitment(q, h, sm[32..64]);
    n := n - 64;
    SameNumber(sm[..32], t[..]);
    var differs := Verify32(sm[..32], t[..]);
    if differs != 0 {
      for i := 0 to n
        invariant forall k :: 0 <= k < i ==> m[k] == 0
      {
        m[i] := 0;
      }
      return -1, mlen;
    }
    for i := 0 to n
      invariant forall k :: 0 <= k < i ==> m[k] == sm[k + 64]
    {
      m[i] := sm[i + 64];
    }
    assert m[..n] == sm[64..];
    return 0, n;
  }

  lemma SameNumber(s: seq<u8>, t: seq<u8>)
    requires |s| == |t|
    ensures LittleEndian(s) == LittleEndian(t) <==> s == t
  {
    hide Eval;
    if LittleEndian(s) == LittleEndian(t) {
      DigitsUnique(0x100, s, t);
    }
  }

  /** The signed message with the key in place of the second half of the signature. */
  method CopyOver(m: array<u8>, sm: seq<u8>, pk: seq<u8>)
    requires |pk| == 32 && |sm| >= 64 && m.Length >= |sm|
    modifies m
    ensures m[..|sm|] == sm[..32] + pk + sm[64..]
  {
    for i := 0 to |sm|
      invariant forall k :: 0 <= k < i ==> m[k] == sm[k]
    {
      m[i] := sm[i];
    }
    for i := 0 to 32
      invariant forall k :: 0 <= k < |sm| && (k < 32 || k >= 32 + i) ==> m[k] == sm[k]
      invariant forall k :: 0 <= k < i ==> m[k + 32] == pk[k]
    {
      m[i + 32] := pk[i];
    }
  }

  /** In any structure that represents the addition formulas, what is compared with the commitment is
      challenge times the negated key plus response times the base point. */
  lemma RecoveredMeaning<G(!new)>(good: Point -> bool, phi: Point -> G, op: (G, G) -> G, e: G,
                                  a: Point, h: seq<u8>, s: seq<u8>)
    requires Represents(good, phi, op, e) && good(a) && good(Base()) && |h| == |s| == 32
    ensures LittleEndian(h) >= 0 && LittleEndian(s) >= 0
    ensures phi(Recovered(a, h, s))
            == op(Times(op, e, LittleEndian(h), phi(a)), Times(op, e, LittleEndian(s), phi(Base())))
  {
    hide Rounds, AddPoints, Times, Eval, Base;
    LadderComputesMultiple(good, phi, op, e, a, h);
    LadderComputesMultiple(good, phi, op, e, Base(), s);
  }

  /** Every point computed while a signature is checked is on the curve. */
  lemma RecoveredOnCurve(pk: seq<u8>, h: seq<u8>, s: seq<u8>)
    requires |pk| == |h| == |s| == 32 && DecodeNegated(pk).Some?
    ensures OnCurve(DecodeNegated(pk).value) && OnCurve(Recovered(DecodeNegated(pk).value, h, s))
    ensures forall i: nat :: i <= 256 ==>
              && OnCurve(Rounds(DecodeNegated(pk).value, h, i).0) && OnCurve(Rounds(DecodeNegated(pk).value, h, i).1)
              && OnCurve(Rounds(Base(), s, i).0) && OnCurve(Rounds(Base(), s, i).1)
  {
    hide OnCurve, DecodeNegated, Rounds, AddPoints, Base;
    var a := DecodeNegated(pk).value;
    DecodedPoint(pk);
    BaseOnCurve();
    forall i: nat | i <= 256
      ensures OnCurve(Rounds(a, h, i).0) && OnCurve(Rounds(a, h, i).1)
      ensures OnCurve(Rounds(Base(), s, i).0) && OnCurve(Rounds(Base(), s, i).1)
    {
      LadderStaysOnCurve(a, h, i);
      LadderStaysOnCurve(Base(), s, i);
    }
    AddKeepsCurve(Rounds(a, h, 0).0, Rounds(Base(), s, 0).0);
  }
}
