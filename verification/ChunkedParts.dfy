/** The converse of `ChunkedBody`: what the parser takes as a whole message is a well-formed one. */
module ChunkedParts {
  import opened Machine
  import opened Options
  import opened Codec
  import opened Chunked
  import opened ChunkedBody

  /** The chunks that are complete, and the line that was begun: how its size is written, the size, and its
      extensions. */
  datatype Head = Head(cs: seq<Chunk>, size: bytes, n: u64, es: seq<Extension>)

  /** How far a message was read: what stands open. */
  datatype Part =
    | AtSize(h: Head)
    | AtName(h: Head, name: bytes)
    | AtValue(h: Head, name: bytes, token: bytes)
    | AtQuoted(h: Head, name: bytes, token: bytes, q: seq<QuotedChar>)
    | AtPair(h: Head, name: bytes, token: bytes, q: seq<QuotedChar>)
    | AtClosed(h: Head)
    | AtLineCr(h: Head)
    | AtData(h: Head, data: bytes)
    | AtDataEnd(h: Head, data: bytes)
    | AtDataCr(h: Head, data: bytes)
    | AtTrailer(h: Head, fs: seq<Trailer>)
    | AtFieldName(h: Head, fs: seq<Trailer>, name: bytes)
    | AtBlanks(h: Head, fs: seq<Trailer>, name: bytes, blanks: bytes)
    | AtEmptyCr(h: Head, fs: seq<Trailer>, name: bytes, blanks: bytes)
    | AtContent(h: Head, fs: seq<Trailer>, name: bytes, blanks: bytes, content: bytes)
    | AtContentCr(h: Head, fs: seq<Trailer>, name: bytes, blanks: bytes, content: bytes)
    | AtLastCr(h: Head, fs: seq<Trailer>)

  function HeadBytes(h: Head): bytes {
    ChunksBytes(h.cs) + h.size + ExtensionsBytes(h.es)
  }

  function LineBytes(h: Head): bytes {
    HeadBytes(h) + [CR, LF]
  }

  /** What was read. */
  function Written(p: Part): bytes {
    match p
    case AtSize(h) => HeadBytes(h)
    case AtName(h, name) => HeadBytes(h) + [SEMICOLON] + name
    case AtValue(h, name, token) => HeadBytes(h) + [SEMICOLON] + name + [EQUALS] + token
    case AtQuoted(h, name, token, q) => HeadBytes(h) + [SEMICOLON] + name + [EQUALS] + token + [QUOTE] + QuotedBytes(q)
    case AtPair(h, name, token, q) =>
      HeadBytes(h) + [SEMICOLON] + name + [EQUALS] + token + [QUOTE] + QuotedBytes(q) + [BACKSLASH]
    case AtClosed(h) => HeadBytes(h)
    case AtLineCr(h) => HeadBytes(h) + [CR]
    case AtData(h, data) => LineBytes(h) + data
    case AtDataEnd(h, data) => LineBytes(h) + data
    case AtDataCr(h, data) => LineBytes(h) + data + [CR]
    case AtTrailer(h, fs) => LineBytes(h) + TrailersBytes(fs)
    case AtFieldName(h, fs, name) => LineBytes(h) + TrailersBytes(fs) + name
    case AtBlanks(h, fs, name, blanks) => LineBytes(h) + TrailersBytes(fs) + name + [COLON] + blanks
    case AtEmptyCr(h, fs, name, blanks) => LineBytes(h) + TrailersBytes(fs) + name + [COLON] + blanks + [CR]
    case AtContent(h, fs, name, blanks, content) =>
      LineBytes(h) + TrailersBytes(fs) + name + [COLON] + blanks + content
    case AtContentCr(h, fs, name, blanks, content) =>
      LineBytes(h) + TrailersBytes(fs) + name + [COLON] + blanks + content + [CR]
    case AtLastCr(h, fs) => LineBytes(h) + TrailersBytes(fs) + [CR]
  }

  ghost predicate GoodChunks(cs: seq<Chunk>) {
    forall k :: 0 <= k < |cs| ==> GoodChunk(cs[k])
  }

  ghost predicate GoodHead(h: Head) {
    GoodChunks(h.cs) && AllGood(h.es) && GoodSize(h.size, h.n)
  }

  /** The line is complete. */
  ghost predicate GoodLine(h: Head) {
    GoodHead(h) && GoodExtensions(h.es)
  }

  predicate Blanks(s: bytes) {
    forall k :: 0 <= k < |s| ==> Blank(s[k])
  }

  predicate GoodContent(s: bytes) {
    (forall k :: 0 <= k < |s| ==> ContentChar(s[k])) && (s != [] ==> !Blank(s[0]))
  }

  predicate Ordinary(name: bytes) {
    IsToken(name) && !IsSpecial(Lowered(name))
  }

  /** The last line, and complete fields. */
  ghost predicate GoodEnd(h: Head, fs: seq<Trailer>) {
    GoodLine(h) && h.n == 0 && GoodTrailers(fs)
  }

  ghost predicate Good(p: Part) {
    match p
    case AtSize(h) => GoodChunks(h.cs) && h.es == [] && if h.size == [] then h.n == 0 else GoodSize(h.size, h.n)
    case AtName(h, name) => GoodHead(h) && AllToken(name)
    case AtValue(h, name, token) => GoodHead(h) && AllToken(name) && AllToken(token)
    case AtQuoted(h, name, token, q) => GoodHead(h) && AllToken(name) && AllToken(token) && GoodQuoted(q)
    case AtPair(h, name, token, q) => GoodHead(h) && AllToken(name) && AllToken(token) && GoodQuoted(q)
    case AtClosed(h) => GoodLine(h)
    case AtLineCr(h) => GoodLine(h)
    case AtData(h, data) => GoodLine(h) && |data| < h.n
    case AtDataEnd(h, data) => GoodLine(h) && |data| == h.n && data != []
    case AtDataCr(h, data) => GoodLine(h) && |data| == h.n && data != []
    case AtTrailer(h, fs) => GoodEnd(h, fs)
    case AtFieldName(h, fs, name) => GoodEnd(h, fs) && IsToken(name)
    case AtBlanks(h, fs, name, blanks) => GoodEnd(h, fs) && Ordinary(name) && Blanks(blanks)
    case AtEmptyCr(h, fs, name, blanks) => GoodEnd(h, fs) && Ordinary(name) && Blanks(blanks)
    case AtContent(h, fs, name, blanks, content) =>
      GoodEnd(h, fs) && Ordinary(name) && Blanks(blanks) && GoodContent(content) && content != []
    case AtContentCr(h, fs, name, blanks, content) =>
      GoodEnd(h, fs) && Ordinary(name) && Blanks(blanks) && GoodContent(content) && content != []
    case AtLastCr(h, fs) => GoodEnd(h, fs)
  }

  /** Where a field may begin, after these. */
  function Between(fs: seq<Trailer>): State {
    if fs == [] then FieldStart else if fs[|fs| - 1].content == [] then EmptyLine else ContentLine
  }

  function ConfOf(p: Part): Conf {
    match p
    case AtSize(h) => Conf(if h.size == [] then SizeDigit else Size, h.n)
    case AtName(h, name) => Conf(AfterName(name), h.n)
    case AtValue(h, _, token) => Conf(AfterToken(token), h.n)
    case AtQuoted(h, _, _, _) => Conf(Quoted, h.n)
    case AtPair(h, _, _, _) => Conf(QuotedPair, h.n)
    case AtClosed(h) => Conf(QuotedDone, h.n)
    case AtLineCr(h) => Conf(AlmostDone, h.n)
    case AtData(h, data) => Conf(if data == [] then BodyStart else Body, if |data| <= h.n then h.n - |data| else 0)
    case AtDataEnd(_, _) => Conf(DataAlmostDone, 0)
    case AtDataCr(_, _) => Conf(DataAlmostDone1, 0)
    case AtTrailer(_, fs) => Conf(Between(fs), 0)
    case AtFieldName(_, _, name) => Conf(NameState(name), 0)
    case AtBlanks(_, _, _, _) => Conf(ContentStart, 0)
    case AtEmptyCr(_, _, _, _) => Conf(EmptyCr, 0)
    case AtContent(_, _, _, _, _) => Conf(Content, 0)
    case AtContentCr(_, _, _, _, _) => Conf(ContentCr, 0)
    case AtLastCr(_, _) => Conf(HeadersAlmostDone, 0)
  }

  /** With one more byte, p has become q. */
  ghost predicate Grows(p: Part, b: u8, q: Part) {
    Good(q) && Written(q) == Written(p) + [b] && ConfOf(q) == Step(ConfOf(p), b).0
  }

  // Sizes and extensions.

  lemma SizeGrows(size: bytes, n: u64, b: u8, m: u64)
    requires if size == [] then n == 0 else GoodSize(size, n)
    requires HexDigit(b) >= 0 && MulAdd(n, HexDigit(b)) == Some(m)
    ensures GoodSize(size + [b], m)
  {
    hide HexDigit, MulAdd, Spells, Number;
    var d: digit := HexDigit(b);
    DigitIsSpelled(b);
    MulAddExact(n, d);
    var ds: seq<digit> := [];
    if size == [] {
      NoNumber();
    } else {
      ds :| SpellsAll(size, ds) && Number(ds) == n;
    }
    NumberSnoc(ds, d);
    assert SpellsAll(size + [b], ds + [d]);
  }

  lemma AdvanceSize(p: Part, b: u8) returns (q: Part)
    requires Good(p) && p.AtSize? && !Over(Step(ConfOf(p), b).0.state)
    ensures Grows(p, b, q)
  {
    hide HexDigit, MulAdd, GoodSize, ChunksBytes;
    var h := p.h;
    assert ExtensionsBytes([]) == [] && HeadBytes(h) == ChunksBytes(h.cs) + h.size;
    if HexDigit(b) >= 0 {
      var m := MulAdd(h.n, HexDigit(b)).value;
      SizeGrows(h.size, h.n, b, m);
      q := AtSize(h.(size := h.size + [b], n := m));
      assert HeadBytes(q.h) == ChunksBytes(h.cs) + (h.size + [b]);
    } else if b == CR {
      q := AtLineCr(h);
    } else {
      q := AtName(h, []);
    }
  }

  lemma OneMoreExtension(h: Head, e: Extension)
    requires GoodHead(h) && GoodExtension(e)
    ensures var k := h.(es := h.es + [e]);
            GoodHead(k) && HeadBytes(k) == HeadBytes(h) + ExtensionBytes(e) && (!Bare(e) ==> GoodLine(k))
  {
    hide ExtensionBytes, ChunksBytes, GoodSize, GoodChunk, GoodExtension;
    assert (h.es + [e])[..|h.es|] == h.es;
    assert ExtensionsBytes(h.es + [e]) == ExtensionsBytes(h.es) + ExtensionBytes(e);
  }

  lemma AdvanceName(p: Part, b: u8) returns (q: Part)
    requires Good(p) && p.AtName? && !Over(Step(ConfOf(p), b).0.state)
    ensures Grows(p, b, q)
  {
    hide HeadBytes, GoodSize, TokenChar, GoodChunk;
    var h, e := p.h, Extension(p.name, NoValue);
    if b == CR || b == SEMICOLON {
      OneMoreExtension(h, e);
      var k := h.(es := h.es + [e]);
      q := if b == CR then AtLineCr(k) else AtName(k, []);
      assert HeadBytes(h) + ([SEMICOLON] + p.name) == HeadBytes(h) + [SEMICOLON] + p.name;
    } else if b == EQUALS {
      q := AtValue(h, p.name, []);
    } else {
      q := AtName(h, p.name + [b]);
    }
  }

  lemma ValueWritten(h: Head, name: bytes, token: bytes, o: Option<seq<QuotedChar>>)
    ensures HeadBytes(h) + ExtensionBytes(Extension(name, Given(token, o)))
            == HeadBytes(h) + [SEMICOLON] + name + [EQUALS] + token + MaybeQuoted(o)
  {
    hide HeadBytes, MaybeQuoted;
  }

  lemma AdvanceValue(p: Part, b: u8) returns (q: Part)
    requires Good(p) && p.AtValue? && !Over(Step(ConfOf(p), b).0.state)
    ensures Grows(p, b, q)
  {
    hide HeadBytes, GoodSize, TokenChar, GoodChunk, ExtensionBytes;
    var h, e := p.h, Extension(p.name, Given(p.token, None));
    if b == CR || b == SEMICOLON {
      OneMoreExtension(h, e);
      ValueWritten(h, p.name, p.token, None);
      var k := h.(es := h.es + [e]);
      q := if b == CR then AtLineCr(k) else AtName(k, []);
    } else if b == QUOTE {
      q := AtQuoted(h, p.name, p.token, []);
      assert QuotedBytes([]) == [];
    } else {
      q := AtValue(h, p.name, p.token + [b]);
    }
  }

  lemma QuotedSnoc(q: seq<QuotedChar>, c: QuotedChar)
    ensures QuotedBytes(q + [c]) == QuotedBytes(q) + if c.Text? then [c.b] else [BACKSLASH, c.b]
  {
    assert (q + [c])[..|q|] == q;
  }

  lemma AdvanceQuoted(p: Part, b: u8) returns (q: Part)
    requires Good(p) && (p.AtQuoted? || p.AtPair?) && !Over(Step(ConfOf(p), b).0.state)
    ensures Grows(p, b, q)
  {
    hide HeadBytes, GoodSize, TokenChar, GoodChunk, ExtensionBytes, QuotedBytes;
    var h := p.h;
    if p.AtPair? {
      QuotedSnoc(p.q, Pair(b));
      q := AtQuoted(h, p.name, p.token, p.q + [Pair(b)]);
      assert [BACKSLASH, b] == [BACKSLASH] + [b];
    } else if b == QUOTE {
      var e := Extension(p.name, Given(p.token, Some(p.q)));
      OneMoreExtension(h, e);
      ValueWritten(h, p.name, p.token, Some(p.q));
      q := AtClosed(h.(es := h.es + [e]));
      Closing(HeadBytes(h) + [SEMICOLON] + p.name + [EQUALS] + p.token, [QUOTE], QuotedBytes(p.q));
    } else if b == BACKSLASH {
      q := AtPair(h, p.name, p.token, p.q);
    } else {
      QuotedSnoc(p.q, Text(b));
      q := AtQuoted(h, p.name, p.token, p.q + [Text(b)]);
    }
  }

  lemma Closing(a: bytes, x: bytes, y: bytes)
    ensures a + (x + y + x) == a + x + y + x
  {
  }

  lemma AdvanceLine(p: Part, b: u8) returns (q: Part)
    requires Good(p) && (p.AtClosed? || p.AtLineCr?) && !Over(Step(ConfOf(p), b).0.state)
    ensures Grows(p, b, q)
  {
    hide HeadBytes, GoodSize, GoodChunk;
    var h := p.h;
    if p.AtLineCr? {
      assert HeadBytes(h) + [CR] + [LF] == HeadBytes(h) + [CR, LF];
      if h.n == 0 {
        q := AtTrailer(h, []);
        assert TrailersBytes([]) == [];
      } else {
        q := AtData(h, []);
      }
    } else if b == CR {
      q := AtLineCr(h);
    } else {
      q := AtName(h, []);
    }
  }

  // Data.

  lemma AdvanceData(p: Part, b: u8) returns (q: Part)
    requires Good(p) && p.AtData? && !Over(Step(ConfOf(p), b).0.state)
    ensures Grows(p, b, q)
  {
    hide HeadBytes, GoodSize, GoodChunk;
    var h, data := p.h, p.data + [b];
    q := if |data| == h.n then AtDataEnd(h, data) else AtData(h, data);
    assert LineBytes(h) + p.data + [b] == LineBytes(h) + data;
  }

  lemma AdvanceDataEnd(p: Part, b: u8) returns (q: Part)
    requires Good(p) && (p.AtDataEnd? || p.AtDataCr?) && !Over(Step(ConfOf(p), b).0.state)
    ensures Grows(p, b, q)
  {
    hide GoodSize, HeadBytes, LineBytes, GoodExtensions;
    var h, data := p.h, p.data;
    if p.AtDataEnd? {
      q := AtDataCr(h, data);
    } else {
      q := AtSize(Head(h.cs + [Chunk(h.size, h.es, data)], [], 0, []));
      ChunkWritten(h, data);
    }
  }

  lemma ChunkWritten(h: Head, data: bytes)
    ensures HeadBytes(Head(h.cs + [Chunk(h.size, h.es, data)], [], 0, [])) == LineBytes(h) + data + [CR] + [LF]
  {
    hide ExtensionsBytes;
    var c := Chunk(h.size, h.es, data);
    assert (h.cs + [c])[..|h.cs|] == h.cs;
    NoExtensions();
    hide ChunksBytes;
    assert ChunksBytes(h.cs + [c]) == ChunksBytes(h.cs) + ChunkBytes(c) by {
      MoreChunks(h.cs, c);
    }
    Grouped(ChunksBytes(h.cs), h.size, ExtensionsBytes(h.es), data);
  }

  lemma MoreChunks(cs: seq<Chunk>, c: Chunk)
    ensures ChunksBytes(cs + [c]) == ChunksBytes(cs) + ChunkBytes(c)
  {
    hide ChunkBytes;
    assert (cs + [c])[..|cs|] == cs;
  }

  lemma NoExtensions()
    ensures ExtensionsBytes([]) == []
  {
  }

  lemma Grouped(a: bytes, x: bytes, y: bytes, d: bytes)
    ensures a + (x + y + [CR, LF] + d + [CR, LF]) + [] + [] == a + x + y + [CR, LF] + d + [CR] + [LF]
  {
    assert [CR] + [LF] == [CR, LF];
    assert a + (x + y + [CR, LF] + d + [CR, LF]) == a + x + y + [CR, LF] + d + ([CR] + [LF]);
  }

  // The trailer.

  /** The letters of the special names are token characters, also as capitals. */
  lemma SpecialIsToken(name: bytes, b: u8)
    requires StartsSpecial(name + [Lower(b)])
    ensures TokenChar(b)
  {
    var k :| 0 <= k < |SPECIAL| && name + [Lower(b)] <= Ascii(SPECIAL[k]);
    assert Ascii(SPECIAL[k])[|name|] == Lower(b);
    LettersOf(k, |name|);
  }

  lemma LettersOf(k: nat, i: nat)
    requires k < |SPECIAL| && i < |SPECIAL[k]|
    ensures var b := Ascii(SPECIAL[k])[i]; 97 <= b <= 122 || b == 45
  {
    assert 'a' <= SPECIAL[k][i] <= 'z' || SPECIAL[k][i] == '-';
    assert 'a' as int == 97 && 'z' as int == 122 && '-' as int == 45;
  }

  /** A byte with which a name of a field goes on is a token character. */
  lemma NameGoesOn(name: bytes, b: u8)
    requires IsToken(name) && b != COLON && !Over(Step(Conf(NameState(name), 0), b).0.state)
    ensures TokenChar(b)
  {
    hide TokenChar, IsSpecial, StartsSpecial;
    if StartsSpecial(Lowered(name) + [Lower(b)]) {
      SpecialIsToken(Lowered(name), b);
    }
    SpecialEnds(Lowered(name) + [Lower(b)], 0);
  }

  lemma NameBegins(st: State, b: u8)
    requires Ready(st) && b != CR && !Over(Step(Conf(st, 0), b).0.state)
    ensures TokenChar(b)
  {
    hide TokenChar, IsSpecial, StartsSpecial;
    if StartsSpecial([] + [Lower(b)]) {
      SpecialIsToken([], b);
    }
    SpecialEnds([] + [Lower(b)], 0);
  }

  lemma BetweenIsReady(fs: seq<Trailer>)
    ensures Ready(Between(fs))
  {
  }

  lemma AdvanceTrailer(p: Part, b: u8) returns (q: Part)
    requires Good(p) && p.AtTrailer? && !Over(Step(ConfOf(p), b).0.state)
    ensures Grows(p, b, q)
  {
    hide LineBytes, GoodLine, TokenChar, IsSpecial, StartsSpecial, NameState, TrailersBytes, GoodTrailers;
    var c := ConfOf(p);
    BetweenIsReady(p.fs);
    if b == CR {
      q := AtLastCr(p.h, p.fs);
    } else {
      NameBegins(c.state, b);
      FirstOfName(c, b);
      q := AtFieldName(p.h, p.fs, [b]);
    }
  }

  lemma AdvanceFieldName(p: Part, b: u8) returns (q: Part)
    requires Good(p) && p.AtFieldName? && !Over(Step(ConfOf(p), b).0.state)
    ensures Grows(p, b, q)
  {
    hide LineBytes, GoodLine, TokenChar, IsSpecial, StartsSpecial, TrailersBytes, GoodTrailers, Run;
    var c := ConfOf(p);
    var a := LineBytes(p.h) + TrailersBytes(p.fs);
    if b == COLON {
      ColonOfField(c, p.name);
      q := AtBlanks(p.h, p.fs, p.name, []);
      assert a + p.name + [COLON] + [] == a + p.name + [COLON];
    } else {
      NameGoesOn(p.name, b);
      NameStep(c, p.name, b);
      q := AtFieldName(p.h, p.fs, p.name + [b]);
      assert a + p.name + [b] == a + (p.name + [b]);
    }
  }

  lemma ColonOfField(c: Conf, name: bytes)
    requires c.state == NameState(name) && !Over(Step(c, COLON).0.state)
    ensures !IsSpecial(Lowered(name)) && Step(c, COLON).0 == Conf(ContentStart, c.len)
  {
    hide IsSpecial, StartsSpecial;
    SpecialEnds(Lowered(name), COLON);
    SpecialEnds(Lowered(name) + [COLON], 0);
    assert Lower(COLON) == COLON;
  }

  lemma OneMoreField(fs: seq<Trailer>, f: Trailer)
    requires GoodTrailers(fs) && GoodTrailer(f)
    ensures GoodTrailers(fs + [f]) && TrailersBytes(fs + [f]) == TrailersBytes(fs) + TrailerBytes(f)
  {
    hide GoodTrailer, TrailerBytes;
    assert (fs + [f])[..|fs|] == fs;
  }

  lemma FieldWritten(a: bytes, t: bytes, f: Trailer)
    ensures a + (t + TrailerBytes(f)) == a + t + f.name + [COLON] + f.blanks + f.content + [CR] + [LF]
  {
    assert [CR] + [LF] == [CR, LF];
  }

  lemma AdvanceBlanks(p: Part, b: u8) returns (q: Part)
    requires Good(p) && p.AtBlanks? && !Over(Step(ConfOf(p), b).0.state)
    ensures Grows(p, b, q)
  {
    hide LineBytes, GoodLine, Ordinary, TrailersBytes, GoodTrailers;
    var a := LineBytes(p.h) + TrailersBytes(p.fs) + p.name + [COLON];
    if Blank(b) {
      q := AtBlanks(p.h, p.fs, p.name, p.blanks + [b]);
      assert a + p.blanks + [b] == a + (p.blanks + [b]);
    } else if b == CR {
      q := AtEmptyCr(p.h, p.fs, p.name, p.blanks);
    } else {
      q := AtContent(p.h, p.fs, p.name, p.blanks, [b]);
    }
  }

  lemma AdvanceEmptyCr(p: Part, b: u8) returns (q: Part)
    requires Good(p) && p.AtEmptyCr? && !Over(Step(ConfOf(p), b).0.state)
    ensures Grows(p, b, q)
  {
    hide LineBytes, GoodLine, Ordinary, TrailersBytes, GoodTrailers, Blanks, TrailerBytes;
    var f := Trailer(p.name, p.blanks, []);
    OrdinaryField(f);
    OneMoreField(p.fs, f);
    FieldWritten(LineBytes(p.h), TrailersBytes(p.fs), f);
    var a := LineBytes(p.h) + TrailersBytes(p.fs) + p.name + [COLON] + p.blanks;
    assert a + [] == a;
    q := AtTrailer(p.h, p.fs + [f]);
  }

  lemma OrdinaryField(f: Trailer)
    requires Ordinary(f.name) && Blanks(f.blanks) && GoodContent(f.content)
    ensures GoodTrailer(f)
  {
  }

  lemma AdvanceContent(p: Part, b: u8) returns (q: Part)
    requires Good(p) && p.AtContent? && !Over(Step(ConfOf(p), b).0.state)
    ensures Grows(p, b, q)
  {
    hide LineBytes, GoodLine, Ordinary, TrailersBytes, GoodTrailers, Blanks;
    var a := LineBytes(p.h) + TrailersBytes(p.fs) + p.name + [COLON] + p.blanks;
    if b == CR {
      q := AtContentCr(p.h, p.fs, p.name, p.blanks, p.content);
    } else {
      q := AtContent(p.h, p.fs, p.name, p.blanks, p.content + [b]);
      assert a + p.content + [b] == a + (p.content + [b]);
    }
  }

  lemma AdvanceContentCr(p: Part, b: u8) returns (q: Part)
    requires Good(p) && p.AtContentCr? && !Over(Step(ConfOf(p), b).0.state)
    ensures Grows(p, b, q)
  {
    hide LineBytes, GoodLine, Ordinary, TrailersBytes, GoodTrailers, Blanks, TrailerBytes;
    var f := Trailer(p.name, p.blanks, p.content);
    OrdinaryField(f);
    OneMoreField(p.fs, f);
    FieldWritten(LineBytes(p.h), TrailersBytes(p.fs), f);
    q := AtTrailer(p.h, p.fs + [f]);
  }

  // All of it.

  lemma Advance(p: Part, b: u8) returns (q: Part)
    requires Good(p) && !Over(Step(ConfOf(p), b).0.state)
    ensures Grows(p, b, q)
  {
    hide Grows, Good;
    match p
    case AtSize(_) => q := AdvanceSize(p, b);
    case AtName(_, _) => q := AdvanceName(p, b);
    case AtValue(_, _, _) => q := AdvanceValue(p, b);
    case AtQuoted(_, _, _, _) => q := AdvanceQuoted(p, b);
    case AtPair(_, _, _, _) => q := AdvanceQuoted(p, b);
    case AtClosed(_) => q := AdvanceLine(p, b);
    case AtLineCr(_) => q := AdvanceLine(p, b);
    case AtData(_, _) => q := AdvanceData(p, b);
    case AtDataEnd(_, _) => q := AdvanceDataEnd(p, b);
    case AtDataCr(_, _) => q := AdvanceDataEnd(p, b);
    case AtTrailer(_, _) => q := AdvanceTrailer(p, b);
    case AtFieldName(_, _, _) => q := AdvanceFieldName(p, b);
    case AtBlanks(_, _, _, _) => q := AdvanceBlanks(p, b);
    case AtEmptyCr(_, _, _, _) => q := AdvanceEmptyCr(p, b);
    case AtContent(_, _, _, _, _) => q := AdvanceContent(p, b);
    case AtContentCr(_, _, _, _, _) => q := AdvanceContentCr(p, b);
    case AtLastCr(_, _) =>
  }

  lemma OverStays(c: Conf, b: u8)
    requires Over(c.state)
    ensures Over(Step(c, b).0.state)
  {
  }

  lemma Begun()
    ensures var p := AtSize(Head([], [], 0, []));
            Good(p) && Written(p) == [] && ConfOf(p) == START && Run(START, []).0 == START
  {
  }

  /** As long as parsing goes on, what was read is the beginning of a well-formed message, and the state says how
      much of it. */
  lemma {:induction false} Parsed(s: bytes) returns (p: Part)
    requires !Over(Run(START, s).0.state)
    ensures Good(p) && Written(p) == s && ConfOf(p) == Run(START, s).0
    decreases |s|
  {
    hide Step, Good, Written, ConfOf, Over;
    if s == [] {
      p := AtSize(Head([], [], 0, []));
      Begun();
    } else {
      var init, last := s[..|s| - 1], s[|s| - 1];
      if Over(Run(START, init).0.state) {
        OverStays(Run(START, init).0, last);
      }
      var o := Parsed(init);
      p := Advance(o, last);
      assert s == init + [last];
    }
  }

  /** The message ends with the last of these bytes. */
  predicate Completes(s: bytes) {
    s != [] && Run(START, s).0.state == Complete && !Over(Run(START, s[..|s| - 1]).0.state)
  }

  ghost predicate WellFormed(cs: seq<Chunk>, last: bytes, es: seq<Extension>, fs: seq<Trailer>) {
    GoodChunks(cs) && GoodSize(last, 0) && GoodExtensions(es) && GoodTrailers(fs)
  }

  lemma OnlyTheEndCompletes(p: Part, b: u8)
    requires Good(p) && Step(ConfOf(p), b).0.state == Complete
    ensures p.AtLastCr? && b == LF
  {
    hide Good, Written, HexDigit, MulAdd, IsSpecial, StartsSpecial, TokenChar;
  }

  /** Before its last byte a well-formed message is not complete. */
  lemma AlmostComplete(cs: seq<Chunk>, last: bytes, es: seq<Extension>, fs: seq<Trailer>)
    requires WellFormed(cs, last, es, fs)
    ensures var s := Message(cs, last, es, fs); s != [] && !Over(Run(START, s[..|s| - 1]).0.state)
  {
    hide Run, ChunksBytes, Line, GoodChunk, GoodExtensions, GoodSize, GoodTrailers, TrailersBytes, ChunksEvents;
    hide TrailersEvents, ExtensionsEvents;
    var c, x, h := Conf(FieldStart, 0), ChunksEvents(cs), ExtensionsEvents(es) + [Header(0)];
    ChunksRun(cs);
    LineRun(last, 0, es);
    LeadsOn(START, ChunksBytes(cs), START, x, Line(last, es), c, h);
    var d, y := TrailersRun(fs);
    LeadsOn(START, ChunksBytes(cs) + Line(last, es), c, x + h, TrailersBytes(fs), d, y);
    LeadsWith(d, CR);
    LeadsOn(START, ChunksBytes(cs) + Line(last, es) + TrailersBytes(fs), d, x + h + y, [CR],
            Step(d, CR).0, Step(d, CR).1);
    var s, t := Message(cs, last, es, fs), ChunksBytes(cs) + Line(last, es) + TrailersBytes(fs) + [CR];
    assert s == t + [LF] && s[..|s| - 1] == t;
  }

  lemma CompleteIsWellFormed(s: bytes) returns (cs: seq<Chunk>, last: bytes, es: seq<Extension>, fs: seq<Trailer>)
    requires Completes(s)
    ensures WellFormed(cs, last, es, fs) && s == Message(cs, last, es, fs)
  {
    hide Run, Message, Good, WellFormed, Over, Step, Written, ConfOf;
    var init, b := s[..|s| - 1], s[|s| - 1];
    var p := Parsed(init);
    LastStep(s);
    OnlyTheEndCompletes(p, b);
    Finished(p);
    assert s == init + [b];
    cs, last, es, fs := p.h.cs, p.h.size, p.h.es, p.fs;
  }

  lemma WellFormedCompletes(cs: seq<Chunk>, last: bytes, es: seq<Extension>, fs: seq<Trailer>)
    requires WellFormed(cs, last, es, fs)
    ensures Completes(Message(cs, last, es, fs))
  {
    hide Run, Message, WellFormed, Over;
    AlmostComplete(cs, last, es, fs);
    Decoded(cs, last, es, fs);
  }

  /** A message is complete exactly with the last byte of a well-formed one: no line ends without CR and LF, no size
      is more or less than the data, nothing else is let through. */
  lemma CompletesExactly(s: bytes)
    ensures Completes(s) <==> exists cs, last, es, fs :: WellFormed(cs, last, es, fs) && s == Message(cs, last, es, fs)
  {
    hide Completes, Message, WellFormed;
    if Completes(s) {
      var cs, last, es, fs := CompleteIsWellFormed(s);
    }
    if cs, last, es, fs :| WellFormed(cs, last, es, fs) && s == Message(cs, last, es, fs) {
      WellFormedCompletes(cs, last, es, fs);
    }
  }

  lemma LastStep(s: bytes)
    requires s != []
    ensures Run(START, s).0 == Step(Run(START, s[..|s| - 1]).0, s[|s| - 1]).0
  {
  }

  lemma Decoded(cs: seq<Chunk>, last: bytes, es: seq<Extension>, fs: seq<Trailer>)
    requires WellFormed(cs, last, es, fs)
    ensures Run(START, Message(cs, last, es, fs)).0.state == Complete
  {
    hide Run, Message, GoodChunk, GoodExtensions, GoodSize, GoodTrailers, MessageEvents;
    BodyIsDecoded(cs, last, es, fs);
  }

  lemma Finished(p: Part)
    requires Good(p) && p.AtLastCr?
    ensures var h := p.h;
            WellFormed(h.cs, h.size, h.es, p.fs) && Written(p) + [LF] == Message(h.cs, h.size, h.es, p.fs)
  {
    hide GoodChunk, GoodExtensions, GoodSize, GoodTrailers, ChunksBytes, ExtensionsBytes, TrailersBytes;
    var h := p.h;
    var a, x, y, t := ChunksBytes(h.cs), h.size, ExtensionsBytes(h.es), TrailersBytes(p.fs);
    assert [CR] + [LF] == [CR, LF];
    assert a + x + y + [CR, LF] == a + (x + y + [CR, LF]);
    assert a + (x + y + [CR, LF]) + t + [CR] + [LF] == a + (x + y + [CR, LF]) + t + [CR, LF];
  }

  /** The grammar is wider than that of section 4.1.1 of RFC 7230: an extension needs no name if another one follows
      it, none if it has a value; a value may be empty, and a quoted string may follow a token directly. */
  lemma OddExtensions()
    ensures var bare, unnamed := Extension([], NoValue), Extension([], Given([97], None));
            GoodExtensions([bare, unnamed]) && !Standard(bare) && !Standard(unnamed)
    ensures var empty, joined := Extension([97], Given([], None)), Extension([97], Given([97], Some([])));
            GoodExtensions([empty, joined]) && !Standard(empty) && !Standard(joined)
    ensures !GoodExtensions([Extension([], NoValue)])
  {
  }
}
