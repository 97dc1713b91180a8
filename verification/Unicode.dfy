/** Conversion between UTF-8 and UTF-16, with an output buffer that may have to grow. */
module Unicode {
  import opened Machine
  import opened Options
  import opened Codec

  const MAX_LEN := 2048

  type units = seq<u16>

  // Characters and their two encodings (section 3 of RFC 3629, section 2 of RFC 2781).

  predicate High(u: int) {
    0xD800 <= u <= 0xDBFF
  }

  predicate Low(u: int) {
    0xDC00 <= u <= 0xDFFF
  }

  /** A code point; those that are not surrogates are characters. */
  type point = c: int | 0 <= c <= 0x10_FFFF

  predicate Scalar(c: int) {
    0 <= c <= 0x10_FFFF && !High(c) && !Low(c)
  }

  function Utf8(c: point): (s: bytes)
    ensures 1 <= |s| <= 4
  {
    if c < 0x80 then [c]
    else if c < 0x800 then [0xC0 + c / 0x40, 0x80 + c % 0x40]
    else if c < 0x1_0000 then [0xE0 + c / 0x1000, 0x80 + c / 0x40 % 0x40, 0x80 + c % 0x40]
    else [0xF0 + c / 0x4_0000, 0x80 + c / 0x1000 % 0x40, 0x80 + c / 0x40 % 0x40, 0x80 + c % 0x40]
  }

  function Utf16(c: point): (s: units)
    ensures 1 <= |s| <= 2
  {
    if c < 0x1_0000 then [c] else [0xD800 + (c - 0x1_0000) / 0x400, 0xDC00 + (c - 0x1_0000) % 0x400]
  }

  /** A character is one unit, or a high and a low surrogate with ten bits each of what is above 2^16. */
  lemma SurrogatePair(c: point)
    requires Scalar(c)
    ensures var u := Utf16(c);
            if |u| == 1 then c < 0x1_0000 && u[0] == c && !High(c) && !Low(c)
            else
              var hi: int, lo: int := u[0], u[1];
              High(hi) && Low(lo) && c == 0x1_0000 + (hi - 0xD800) * 0x400 + (lo - 0xDC00)
  {
  }

  function Utf8All(cs: seq<point>): bytes
    decreases |cs|
  {
    if cs == [] then [] else Utf8All(cs[..|cs| - 1]) + Utf8(cs[|cs| - 1])
  }

  function Utf16All(cs: seq<point>): units
    decreases |cs|
  {
    if cs == [] then [] else Utf16All(cs[..|cs| - 1]) + Utf16(cs[|cs| - 1])
  }

  predicate Scalars(cs: seq<point>) {
    forall k :: 0 <= k < |cs| ==> Scalar(cs[k])
  }

  /** Well-formed UTF-8: the encoding of some characters. */
  ghost predicate WellFormed(s: bytes) {
    exists cs: seq<point> :: Scalars(cs) && Utf8All(cs) == s
  }

  // The program's test of one character.

  function Trailing(b: u8): (n: nat)
    ensures n <= 5
  {
    if b < 0xC0 then 0 else if b < 0xE0 then 1 else if b < 0xF0 then 2 else if b < 0xF8 then 3
    else if b < 0xFC then 4 else 5
  }

  predicate Continuation(b: u8) {
    0x80 <= b <= 0xBF
  }

  /** The second byte must be in a narrower range after some first bytes. */
  predicate SecondByte(first: u8, a: u8) {
    if first == 0xE0 then a >= 0xA0
    else if first == 0xED then a <= 0x9F
    else if first == 0xF0 then a >= 0x90
    else if first == 0xF4 then a <= 0x8F
    else a >= 0x80
  }

  predicate IsLegal(s: bytes)
    requires s != []
  {
    && |s| <= 4
    && (|s| >= 4 ==> Continuation(s[3]))
    && (|s| >= 3 ==> Continuation(s[2]))
    && (|s| >= 2 ==> Continuation(s[1]) && SecondByte(s[0], s[1]))
    && !(0x80 <= s[0] < 0xC2) && s[0] <= 0xF4
  }

  /** The magic values taken off at the end. */
  function Offset(extra: nat): int
    requires extra <= 3
  {
    if extra == 0 then 0 else if extra == 1 then 0x3080 else if extra == 2 then 0xE_2080 else 0x3C8_2080
  }

  function Gathered(s: bytes): int
    decreases |s|
  {
    if s == [] then 0 else 0x40 * Gathered(s[..|s| - 1]) + s[|s| - 1]
  }

  /** The code point that the program gathers from the bytes of a character. */
  function Value(s: bytes): int
    requires 1 <= |s| <= 4
  {
    Gathered(s) - Offset(|s| - 1)
  }

  function At(s: bytes, i: nat): int
    requires i < |s|
  {
    s[i]
  }

  lemma ValueOf(s: bytes)
    requires 1 <= |s| <= 4
    ensures |s| == 1 ==> Value(s) == At(s, 0)
    ensures |s| == 2 ==> Value(s) == 0x40 * (At(s, 0) - 0xC0) + (At(s, 1) - 0x80)
    ensures |s| == 3 ==> Value(s) == 0x1000 * (At(s, 0) - 0xE0) + 0x40 * (At(s, 1) - 0x80) + (At(s, 2) - 0x80)
    ensures |s| == 4 ==> Value(s) == 0x4_0000 * (At(s, 0) - 0xF0) + 0x1000 * (At(s, 1) - 0x80)
                                     + 0x40 * (At(s, 2) - 0x80) + (At(s, 3) - 0x80)
  {
    assert Gathered([]) == 0;
    assert s[..1] == [s[0]] && s[..1][..0] == [];
    assert Gathered(s[..1]) == At(s, 0);
    if |s| >= 2 {
      assert s[..2][..1] == s[..1];
      assert Gathered(s[..2]) == 0x40 * At(s, 0) + At(s, 1);
    }
    if |s| >= 3 {
      assert s[..3][..2] == s[..2];
      assert Gathered(s[..3]) == 0x40 * (0x40 * At(s, 0) + At(s, 1)) + At(s, 2);
    }
    if |s| >= 4 {
      assert s[..4][..3] == s[..3];
      assert Gathered(s[..4]) == 0x40 * (0x40 * (0x40 * At(s, 0) + At(s, 1)) + At(s, 2)) + At(s, 3);
    }
    assert s[..|s|] == s;
  }

  lemma LegalPair(s: bytes)
    requires |s| == 2 && |s| == Trailing(s[0]) + 1 && IsLegal(s)
    ensures Scalar(Value(s)) && Utf8(Value(s)) == s
  {
    ValueOf(s);
    assert Value(s) / 0x40 == At(s, 0) - 0xC0 && Value(s) % 0x40 == At(s, 1) - 0x80;
  }

  lemma LegalTriple(s: bytes)
    requires |s| == 3 && |s| == Trailing(s[0]) + 1 && IsLegal(s)
    ensures Scalar(Value(s)) && Utf8(Value(s)) == s
  {
    ValueOf(s);
    var v := Value(s);
    assert v / 0x40 == 0x40 * (At(s, 0) - 0xE0) + (At(s, 1) - 0x80) && v / 0x1000 == At(s, 0) - 0xE0;
  }

  lemma LegalQuadruple(s: bytes)
    requires |s| == 4 && |s| == Trailing(s[0]) + 1 && IsLegal(s)
    ensures Scalar(Value(s)) && Utf8(Value(s)) == s
  {
    ValueOf(s);
    var v := Value(s);
    assert v / 0x40 == 0x1000 * (At(s, 0) - 0xF0) + 0x40 * (At(s, 1) - 0x80) + (At(s, 2) - 0x80);
    assert v / 0x1000 == 0x40 * (At(s, 0) - 0xF0) + (At(s, 1) - 0x80) && v / 0x4_0000 == At(s, 0) - 0xF0;
  }

  /** What the test accepts is the encoding of a character, and its value is that character: the branches for
      surrogates and for values above 0x10FFFF are never taken. */
  lemma LegalIsCharacter(s: bytes)
    requires s != [] && |s| == Trailing(s[0]) + 1 && IsLegal(s)
    ensures Scalar(Value(s)) && Utf8(Value(s)) == s
  {
    if |s| == 1 {
      ValueOf(s);
    } else {
      hide Value, Utf8, Scalar;
      if |s| == 2 {
        LegalPair(s);
      } else if |s| == 3 {
        LegalTriple(s);
      } else {
        LegalQuadruple(s);
      }
    }
  }

  /** The encoding of a character passes the test. */
  lemma CharacterIsLegal(c: point)
    requires Scalar(c)
    ensures var s := Utf8(c); |s| == Trailing(s[0]) + 1 && IsLegal(s)
  {
  }

  // Strings of characters.

  lemma Snoc(cs: seq<point>, c: point)
    ensures Utf8All(cs + [c]) == Utf8All(cs) + Utf8(c) && Utf16All(cs + [c]) == Utf16All(cs) + Utf16(c)
  {
    assert (cs + [c])[..|cs|] == cs;
  }

  lemma {:induction false} First(cs: seq<point>)
    requires cs != []
    ensures Utf8All(cs) == Utf8(cs[0]) + Utf8All(cs[1..])
    ensures Utf16All(cs) == Utf16(cs[0]) + Utf16All(cs[1..])
    decreases |cs|
  {
    hide Utf8, Utf16, Utf8All, Utf16All;
    var init, last := cs[..|cs| - 1], cs[|cs| - 1];
    if |cs| == 1 {
      Snoc([], last);
      Nothing();
      assert [] + [last] == cs && cs[1..] == [];
    } else {
      First(init);
      Snoc(init, last);
      Snoc(init[1..], last);
      assert init + [last] == cs && init[1..] + [last] == cs[1..];
    }
  }

  /** A character at the front can be taken off. */
  lemma TakeOff(s: bytes, c: point)
    requires Scalar(c) && |Utf8(c)| <= |s| && s[..|Utf8(c)|] == Utf8(c)
    ensures WellFormed(s) <==> WellFormed(s[|Utf8(c)|..])
  {
    hide Utf8, Utf8All, IsLegal, Value, Trailing;
    var t := s[|Utf8(c)|..];
    if WellFormed(t) {
      var cs: seq<point> :| Scalars(cs) && Utf8All(cs) == t;
      First([c] + cs);
      assert ([c] + cs)[1..] == cs && s == Utf8(c) + t;
      assert Scalars([c] + cs) && Utf8All([c] + cs) == s;
    }
    if WellFormed(s) {
      var cs := StartsWith(s);
      CharacterIsLegal(c);
      CharacterIsLegal(cs[0]);
      assert s[0] == Utf8(c)[0];
      assert s[..|Utf8(c)|] == s[..|Utf8(cs[0])|];
      assert Utf8All(cs[1..]) == t;
      assert Scalars(cs[1..]);
    }
  }

  lemma StartsWith(s: bytes) returns (cs: seq<point>)
    requires WellFormed(s) && s != []
    ensures cs != [] && Scalars(cs) && Utf8All(cs) == s
    ensures |Utf8(cs[0])| <= |s| && s[..|Utf8(cs[0])|] == Utf8(cs[0]) && s[0] == Utf8(cs[0])[0]
    ensures s[|Utf8(cs[0])|..] == Utf8All(cs[1..])
  {
    hide Utf8;
    cs :| Scalars(cs) && Utf8All(cs) == s;
    First(cs);
  }

  /** Whatever the program refuses is not well-formed. */
  lemma Refused(s: bytes)
    requires s != [] && (Trailing(s[0]) >= |s| || !IsLegal(s[..Trailing(s[0]) + 1]))
    ensures !WellFormed(s)
  {
    hide Utf8, Utf8All, IsLegal, Value, Trailing;
    if WellFormed(s) {
      var cs := StartsWith(s);
      CharacterIsLegal(cs[0]);
    }
  }

  lemma NothingIsWellFormed()
    ensures WellFormed([])
  {
    assert Scalars([]) && Utf8All([]) == [];
  }

  // UTF-8 to UTF-16.

  datatype ConversionResult = ConversionOK | SourceExhausted | TargetExhausted | SourceIllegal

  /** The source up to s and the target up to t hold the same characters, and the rest of the source decides. */
  ghost predicate Converted8(src: bytes, s: nat, dst: units, t: nat, cs: seq<point>) {
    && s <= |src| && t <= |dst| && Scalars(cs)
    && src[..s] == Utf8All(cs) && dst[..t] == Utf16All(cs)
    && (WellFormed(src) <==> WellFormed(src[s..]))
  }

  /** Adds up the bytes of a character, six bits at a time. */
  method Gather(s: bytes) returns (ch: u32)
    requires 1 <= |s| <= 4 && Value(s) >= 0
    ensures ch == Value(s)
  {
    hide Value;
    ch := 0;
    var sum: u32, i := s[0] as int, 1;
    Single(s);
    while i < |s|
      invariant 1 <= i <= |s| && sum == Gathered(s[..i])
      invariant sum < 0x1_0000_0000 / 0x100_0000
                      * (if i == 1 then 1 else if i == 2 then 0x41 else if i == 3 then 0x1041 else 0x4_1041)
    {
      assert s[..i + 1][..i] == s[..i];
      sum := sum * 0x40;
      sum := sum + s[i];
      i := i + 1;
    }
    assert s[..i] == s;
    SumIsValue(s);
    ch := sum - Offset(|s| - 1);
  }

  lemma Single(s: bytes)
    requires s != []
    ensures Gathered(s[..1]) == s[0]
  {
    assert s[..1][..0] == [] && Gathered([]) == 0;
  }

  lemma SumIsValue(s: bytes)
    requires 1 <= |s| <= 4
    ensures Value(s) == Gathered(s) - Offset(|s| - 1)
  {
  }

  lemma Advance8(src: bytes, s: nat, was: units, t: nat, cs: seq<point>, now: units, c: point)
    requires Converted8(src, s, was, t, cs) && Scalar(c)
    requires s + |Utf8(c)| <= |src| && src[s..s + |Utf8(c)|] == Utf8(c)
    requires t + |Utf16(c)| <= |now| && now[..t] == was[..t] && now[t..t + |Utf16(c)|] == Utf16(c)
    ensures Converted8(src, s + |Utf8(c)|, now, t + |Utf16(c)|, cs + [c])
  {
    hide Utf8, Utf16, Utf8All, Utf16All, WellFormed;
    var m, n := |Utf8(c)|, |Utf16(c)|;
    Snoc(cs, c);
    TakeOff(src[s..], c);
    assert src[s..][m..] == src[s + m..] && src[s..][..m] == src[s..s + m];
    assert src[..s + m] == src[..s] + src[s..s + m];
    assert now[..t + n] == now[..t] + now[t..t + n];
  }

  method ConvertUTF8toUTF16(src: bytes, s0: nat, dst: array<u16>, t0: nat, targetEnd: nat, ghost cs0: seq<point>)
      returns (result: ConversionResult, s: nat, t: nat, ghost cs: seq<point>)
    requires t0 <= targetEnd <= dst.Length && Converted8(src, s0, dst[..], t0, cs0)
    modifies dst
    ensures Converted8(src, s, dst[..], t, cs) && t <= targetEnd && s >= s0 && cs0 <= cs
    ensures result == ConversionOK ==> s == |src|
    ensures result == SourceExhausted || result == SourceIllegal ==> !WellFormed(src)
    ensures result == TargetExhausted ==>
              s < |src| && s + Trailing(src[s]) < |src|
              && var next := src[s..s + Trailing(src[s]) + 1];
                 IsLegal(next) && Scalar(Value(next)) && t + |Utf16(Value(next))| > targetEnd
  {
    hide Utf8, IsLegal, Utf8All, Utf16All, WellFormed, Trailing;
    result, s, t, cs := ConversionOK, s0, t0, cs0;
    while s < |src|
      invariant t <= targetEnd && s >= s0 && cs0 <= cs && Converted8(src, s, dst[..], t, cs)
      decreases |src| - s
    {
      var extra := Trailing(src[s]);
      assert src[s..][0] == src[s];
      if extra >= |src| - s {
        Refused(src[s..]);
        result := SourceExhausted;
        return;
      }
      var next := src[s..s + extra + 1];
      assert src[s..][..extra + 1] == next;
      if !IsLegal(next) {
        Refused(src[s..]);
        result := SourceIllegal;
        return;
      }
      LegalIsCharacter(next);
      var ch := Gather(next);
      ghost var c: point := ch;
      ghost var was := dst[..];
      if t >= targetEnd {
        result := TargetExhausted;
        return;
      }
      if ch <= 0xFFFF {
        if 0xD800 <= ch <= 0xDFFF {
          assert false;
        }
        dst[t] := ch;
        assert dst[..][t..t + 1] == Utf16(c);
        Advance8(src, s, was, t, cs, dst[..], c);
        t := t + 1;
      } else if ch > 0x10_FFFF {
        assert false;
      } else {
        if t + 1 >= targetEnd {
          result := TargetExhausted;
          return;
        }
        dst[t], dst[t + 1] := 0xD800 + (ch - 0x1_0000) / 0x400, 0xDC00 + (ch - 0x1_0000) % 0x400;
        assert dst[..][t..t + 2] == Utf16(c);
        Advance8(src, s, was, t, cs, dst[..], c);
        t := t + 2;
      }
      s, cs := s + extra + 1, cs + [c];
    }
  }

  function Round8(n: nat): (r: nat)
    ensures n <= r < n + 8 && r % 8 == 0
  {
    (n + 7) / 8 * 8
  }

  /** A character needs no more units than bytes. */
  lemma {:induction false} NoMoreUnits(cs: seq<point>)
    ensures |Utf16All(cs)| <= |Utf8All(cs)|
    decreases |cs|
  {
    if cs != [] {
      NoMoreUnits(cs[..|cs| - 1]);
    }
  }

  /** The conversion for internal use: the first buffer is always large enough, also for the terminator. */
  method Utf8To16(text: bytes) returns (ok: bool, out: array<u16>, n: nat)
    ensures ok <==> WellFormed(text)
    ensures ok ==> n < out.Length && out[n] == 0
                   && exists cs: seq<point> :: Scalars(cs) && Utf8All(cs) == text && Utf16All(cs) == out[..n]
  {
    hide Utf8, Utf16, Utf8All, Utf16All, WellFormed, IsLegal, Value;
    out := new u16[Round8(2 * |text| + 2) / 2];
    ghost var cs: seq<point> := [];
    Nothing();
    assert text[0..] == text && text[..0] == [] && out[..][..0] == [];
    var result, s, t;
    result, s, t, cs := ConvertUTF8toUTF16(text, 0, out, 0, out.Length, cs);
    NoMoreUnits(cs);
    assert t == |Utf16All(cs)| && s == |Utf8All(cs)|;
    if result == TargetExhausted {
      assert false;
    }
    ok := result == ConversionOK;
    n := t;
    if ok {
      assert text[s..] == [] && text[..s] == text;
      NothingIsWellFormed();
      out[n] := 0;
      assert out[..n] == Utf16All(cs);
    }
  }

  lemma Nothing()
    ensures Utf8All([]) == [] && Utf16All([]) == []
  {
  }

  // UTF-16 to UTF-8, leniently: a surrogate that has no partner stands for itself.

  /** The first code point and the units it takes. */
  function Next(us: units): (r: (point, nat))
    requires us != []
    ensures 1 <= r.1 <= |us|
  {
    if High(us[0]) && |us| > 1 && Low(us[1]) then (((us[0] as int) - 0xD800) * 0x400 + (us[1] - 0xDC00) + 0x1_0000, 2)
    else (us[0], 1)
  }

  /** All code points; there are none if the last unit waits for a partner. */
  function Points(us: units): Option<seq<point>>
    decreases |us|
  {
    if us == [] then Some([])
    else if High(us[0]) && |us| == 1 then None
    else
      var (c, n) := Next(us);
      match Points(us[n..])
      case None => None
      case Some(cs) => Some([c] + cs)
  }

  /** Whole characters come back as they were. */
  lemma {:induction false} PointsInverts(cs: seq<point>)
    requires Scalars(cs)
    ensures Points(Utf16All(cs)) == Some(cs)
    decreases |cs|
  {
    hide Utf16All;
    if cs == [] {
      Nothing();
    } else {
      First(cs);
      PointsInverts(cs[1..]);
      var c, rest := cs[0], Utf16All(cs[1..]);
      assert Scalar(c);
      assert (Utf16(c) + rest)[|Utf16(c)|..] == rest;
      NextIs(c, rest);
      assert [c] + cs[1..] == cs;
    }
  }

  lemma NextIs(c: point, rest: units)
    requires Scalar(c)
    ensures var us := Utf16(c) + rest;
            us != [] && Next(us) == (c, |Utf16(c)|) && !(High(us[0]) && |us| == 1)
  {
  }

  ghost function Prefixed(cs: seq<point>, rest: Option<seq<point>>): Option<seq<point>> {
    if rest.None? then None else Some(cs + rest.value)
  }

  /** The source up to s and the target up to t hold the same code points. */
  ghost predicate Converted16(src: units, s: nat, dst: bytes, t: nat, cs: seq<point>) {
    s <= |src| && t <= |dst| && dst[..t] == Utf8All(cs) && Points(src) == Prefixed(cs, Points(src[s..]))
  }

  lemma PointsNext(us: units)
    requires us != [] && !(High(us[0]) && |us| == 1)
    ensures Points(us) == Prefixed([Next(us).0], Points(us[Next(us).1..]))
  {
  }

  lemma Advance16(src: units, s: nat, was: bytes, t: nat, cs: seq<point>, now: bytes)
    requires Converted16(src, s, was, t, cs) && s < |src| && !(High(src[s]) && s + 1 == |src|)
    requires var (c, n) := Next(src[s..]);
             t + |Utf8(c)| <= |now| && now[..t] == was[..t] && now[t..t + |Utf8(c)|] == Utf8(c)
    ensures var (c, n) := Next(src[s..]); Converted16(src, s + n, now, t + |Utf8(c)|, cs + [c])
  {
    hide Utf8, Utf8All, Next, Points;
    var (c, n) := Next(src[s..]);
    Snoc(cs, c);
    PointsNext(src[s..]);
    assert src[s..][n..] == src[s + n..];
    assert now[..t + |Utf8(c)|] == now[..t] + now[t..t + |Utf8(c)|];
    var rest := Points(src[s + n..]);
    if rest.Some? {
      assert cs + ([c] + rest.value) == cs + [c] + rest.value;
    }
  }

  method ConvertUTF16toUTF8(src: units, s0: nat, dst: array<u8>, t0: nat, targetEnd: nat, ghost cs0: seq<point>)
      returns (result: ConversionResult, s: nat, t: nat, ghost cs: seq<point>)
    requires t0 <= targetEnd <= dst.Length && Converted16(src, s0, dst[..], t0, cs0)
    modifies dst
    ensures Converted16(src, s, dst[..], t, cs) && t <= targetEnd && s >= s0 && cs0 <= cs
    ensures result == ConversionOK ==> s == |src|
    ensures result == SourceExhausted ==> Points(src) == None
    ensures result == TargetExhausted ==>
              s < |src| && t + |Utf8(Next(src[s..]).0)| > targetEnd && !(High(src[s]) && s + 1 == |src|)
    ensures result != SourceIllegal
  {
    hide Utf8, Utf8All, Points;
    result, s, t, cs := ConversionOK, s0, t0, cs0;
    while s < |src|
      invariant t <= targetEnd && s >= s0 && cs0 <= cs && Converted16(src, s, dst[..], t, cs)
      decreases |src| - s
    {
      var ch: int, taken := src[s], 1;
      if High(ch) {
        if s + 1 < |src| {
          var ch2: int := src[s + 1];
          if Low(ch2) {
            ch := (ch - 0xD800) * 0x400 + (ch2 - 0xDC00) + 0x1_0000;
            taken := 2;
          }
        } else {
          LastIsHigh(src, s);
          result := SourceExhausted;
          return;
        }
      }
      assert src[s..][0] == src[s] && (s + 1 < |src| ==> src[s..][1] == src[s + 1]);
      assert Next(src[s..]) == (ch, taken);
      var bytesToWrite := if ch < 0x80 then 1 else if ch < 0x800 then 2 else if ch < 0x1_0000 then 3 else 4;
      SizeOf(ch);
      if t + bytesToWrite > targetEnd {
        result := TargetExhausted;
        return;
      }
      ghost var was := dst[..];
      WritePoint(dst, t, ch, bytesToWrite);
      Advance16(src, s, was, t, cs, dst[..]);
      s, t, cs := s + taken, t + bytesToWrite, cs + [ch];
    }
  }

  lemma SizeOf(c: point)
    ensures |Utf8(c)| == if c < 0x80 then 1 else if c < 0x800 then 2 else if c < 0x1_0000 then 3 else 4
  {
  }

  lemma LastIsHigh(src: units, s: nat)
    requires s + 1 == |src| && High(src[s])
    ensures Points(src[s..]) == None
  {
  }

  /** The bytes of a code point, the last one first. */
  method WritePoint(dst: array<u8>, t: nat, c: point, n: nat)
    requires n == |Utf8(c)| && t + n <= dst.Length
    modifies dst
    ensures dst[..t] == old(dst[..t]) && dst[t..t + n] == Utf8(c)
  {
    var ch, k: int := c as int, t + n;
    while k > t + 1
      invariant t + 1 <= k <= t + n
      invariant forall j :: 0 <= j < t ==> dst[j] == old(dst[j])
      invariant ch == (if k == t + n then c else if k == t + n - 1 then c / 0x40
                       else if k == t + n - 2 then c / 0x1000 else c / 0x4_0000)
      invariant forall j :: k <= j < t + n ==> dst[j] == Utf8(c)[j - t]
    {
      k := k - 1;
      dst[k] := 0x80 + ch % 0x40;
      ch := ch / 0x40;
    }
    dst[t] := if n == 1 then ch else if n == 2 then 0xC0 + ch else if n == 3 then 0xE0 + ch else 0xF0 + ch;
  }

  /** The next size of a buffer that was too small. */
  function Grow(size: nat): nat {
    Round8(2 * size - size / 2)
  }

  /** The largest size that a buffer can grow to. */
  function Largest(size: nat): (r: nat)
    requires size >= 8
    ensures r >= size
    decreases MAX_LEN - size
  {
    if Grow(size) > MAX_LEN then size else Largest(Grow(size))
  }

  /** realloc. */
  method Enlarge(out: array<u8>, t: nat, size: nat) returns (grown: array<u8>)
    requires t <= out.Length && t <= size
    ensures fresh(grown) && grown.Length == size && grown[..t] == out[..t]
  {
    grown := new u8[size];
    for i := 0 to t
      invariant forall j :: 0 <= j < i ==> grown[j] == out[j]
    {
      grown[i] := out[i];
    }
  }

  /** The conversion for callers: it succeeds exactly when no surrogate waits at the end and the largest buffer holds
      the result and its terminator, however often the buffer had to grow on the way. */
  method Utf16To8(text: units) returns (ok: bool, out: array<u8>, n: nat)
    ensures ok <==> Points(text).Some? && |Utf8All(Points(text).value)| < Largest(Round8(|text| + 1))
    ensures ok ==> n < out.Length && out[n] == 0 && out[..n] == Utf8All(Points(text).value)
  {
    hide Utf8, Utf8All, Points, Next, Converted16;
    var size := Round8(|text| + 1);
    out := new u8[size];
    var targetEnd := size - 1;
    var s, t, result := 0, 0, TargetExhausted;
    ghost var cs: seq<point> := [];
    Begin(text, out[..]);
    while true
      invariant fresh(out) && size == out.Length && targetEnd == size - 1 && t <= targetEnd && size >= 8
      invariant Largest(size) == Largest(Round8(|text| + 1))
      invariant Converted16(text, s, out[..], t, cs)
      decreases MAX_LEN - size
    {
      result, s, t, cs := ConvertUTF16toUTF8(text, s, out, t, targetEnd, cs);
      if result == ConversionOK {
        break;
      }
      if result != TargetExhausted {
        return false, out, 0;
      }
      var bigger := (2 * size - size / 2 + 7) / 8 * 8;
      if bigger > MAX_LEN {
        DoesNotFit(text, s, out[..], t, cs, size);
        return false, out, 0;
      }
      ghost var was := out[..];
      out := Enlarge(out, t, bigger);
      assert out[..][..t] == was[..t];
      SameSoFar(text, s, was, t, cs, out[..]);
      size, targetEnd := bigger, bigger - 1;
    }
    Finished(text, s, out[..], t, cs);
    ok, n := true, t;
    assert out[..][..n] == out[..n];
    out[n] := 0;
  }

  lemma Begin(src: units, dst: bytes)
    ensures Converted16(src, 0, dst, 0, [])
  {
    Nothing();
    assert src[0..] == src && dst[..0] == [];
    assert Points(src).Some? ==> [] + Points(src).value == Points(src).value;
  }

  lemma SameSoFar(src: units, s: nat, dst: bytes, t: nat, cs: seq<point>, now: bytes)
    requires Converted16(src, s, dst, t, cs) && t <= |now| && now[..t] == dst[..t]
    ensures Converted16(src, s, now, t, cs)
  {
  }

  lemma Finished(src: units, s: nat, dst: bytes, t: nat, cs: seq<point>)
    requires Converted16(src, s, dst, t, cs) && s == |src|
    ensures t <= |dst| && Points(src) == Some(cs) && dst[..t] == Utf8All(cs)
  {
    assert src[s..] == [] && cs + [] == cs;
  }

  lemma DoesNotFit(src: units, s: nat, dst: bytes, t: nat, cs: seq<point>, size: nat)
    requires Converted16(src, s, dst, t, cs) && s < |src| && !(High(src[s]) && s + 1 == |src|)
    requires t + |Utf8(Next(src[s..]).0)| >= size
    ensures Points(src).Some? ==> |Utf8All(Points(src).value)| >= size
  {
    hide Utf8, Utf8All, Next, Points;
    var (c, n) := Next(src[s..]);
    PointsNext(src[s..]);
    var rest := Points(src[s..][n..]);
    if rest.Some? {
      Snoc(cs, c);
      assert cs + ([c] + rest.value) == cs + [c] + rest.value;
      Longer(cs + [c], rest.value);
    }
  }

  lemma {:induction false} Longer(cs: seq<point>, ds: seq<point>)
    ensures |Utf8All(cs + ds)| >= |Utf8All(cs)|
    decreases |ds|
  {
    if ds == [] {
      assert cs + ds == cs;
    } else {
      var init, last := ds[..|ds| - 1], ds[|ds| - 1];
      Longer(cs, init);
      Snoc(cs + init, last);
      assert cs + init + [last] == cs + ds;
    }
  }

  /** There and back: a text of characters is what its UTF-16 form is converted back to. */
  lemma BackAndForth(cs: seq<point>)
    requires Scalars(cs)
    ensures Points(Utf16All(cs)).Some? && Utf8All(Points(Utf16All(cs)).value) == Utf8All(cs)
  {
    PointsInverts(cs);
  }
}
