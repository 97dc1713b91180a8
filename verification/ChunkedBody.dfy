/** Well-formed chunked bodies (section 4.1 of RFC 7230), from the first size to the end of the message. */
module ChunkedBody {
  import opened Machine
  import opened Options
  import opened Codec
  import opened Chunked

  // Sizes.

  type digit = d: int | 0 <= d < 16

  const LOWER := "0123456789abcdef"
  const UPPER := "0123456789ABCDEF"

  /** A byte is the letter for a digit. */
  predicate Spells(b: u8, d: digit) {
    b == LOWER[d] as int || b == UPPER[d] as int
  }

  predicate SpellsAll(s: bytes, ds: seq<digit>) {
    |s| == |ds| && forall k :: 0 <= k < |s| ==> Spells(s[k], ds[k])
  }

  /** The number that digits represent, most significant first. */
  function Number(ds: seq<digit>): nat
    decreases |ds|
  {
    if ds == [] then 0 else 16 * Number(ds[..|ds| - 1]) + ds[|ds| - 1]
  }

  lemma DigitSpelled(b: u8, d: digit)
    requires Spells(b, d)
    ensures HexDigit(b) == d
  {
    assert LOWER[d] as int == if d < 10 then 48 + d else 87 + d;
    assert UPPER[d] as int == if d < 10 then 48 + d else 55 + d;
  }

  lemma DigitIsSpelled(b: u8)
    ensures HexDigit(b) >= 0 ==> Spells(b, HexDigit(b))
  {
    var d := HexDigit(b);
    if d >= 0 {
      assert LOWER[d] as int == if d < 10 then 48 + d else 87 + d;
      assert UPPER[d] as int == if d < 10 then 48 + d else 55 + d;
    }
  }

  /** What is no letter for a digit is not taken for one: it cannot begin a size, and it ends one. */
  lemma NoDigit(b: u8, n: u64)
    requires forall d: digit :: !Spells(b, d)
    ensures HexDigit(b) == -1
    ensures Run(START, [b]) == (Conf(Failed(HPE_INVALID_CHUNK_SIZE), 0), [])
    ensures !Run(Conf(Size, n), [b]).0.state.Size?
  {
    DigitIsSpelled(b);
    RunOne(START, b);
    RunOne(Conf(Size, n), b);
  }

  lemma MulAddExact(len: u64, d: int)
    requires 0 <= d < 16
    ensures MulAdd(len, d) == if 16 * len + d < TWO_64 then Some(16 * len + d) else None
  {
  }

  /** The size is read exactly, however many digits it has, in small letters or capitals or both; it is refused
      exactly when it is 2^64 or more. */
  lemma {:induction false} SizeIsExact(s: bytes, ds: seq<digit>)
    requires s != [] && SpellsAll(s, ds)
    ensures Run(START, s).1 == []
    ensures Number(ds) < TWO_64 ==> Run(START, s).0 == Conf(Size, Number(ds))
    ensures Number(ds) >= TWO_64 ==> Run(START, s).0.state == Failed(HPE_INVALID_CHUNK_SIZE)
    decreases |s|
  {
    hide HexDigit, MulAdd, Spells;
    var init, d := s[..|s| - 1], ds[|ds| - 1];
    var head := ds[..|ds| - 1];
    DigitSpelled(s[|s| - 1], d);
    if init == [] {
      RunNothing(START);
      assert Number(head) == 0;
      MulAddExact(0, d);
    } else {
      SizeIsExact(init, head);
      if Number(head) < TWO_64 {
        MulAddExact(Number(head), d);
      }
    }
  }

  /** A number written in base 16. */
  function Hex(letters: string, n: nat): bytes
    requires letters == LOWER || letters == UPPER
  {
    (if n < 16 then [] else Hex(letters, n / 16)) + [letters[n % 16] as int]
  }

  function DigitsOf(n: nat): seq<digit> {
    (if n < 16 then [] else DigitsOf(n / 16)) + [n % 16]
  }

  lemma NumberSnoc(ds: seq<digit>, d: digit)
    ensures Number(ds + [d]) == 16 * Number(ds) + d
  {
    assert (ds + [d])[..|ds|] == ds;
  }

  lemma {:induction false} HexSpells(letters: string, n: nat)
    requires letters == LOWER || letters == UPPER
    ensures SpellsAll(Hex(letters, n), DigitsOf(n)) && Number(DigitsOf(n)) == n
  {
    hide Number;
    if n >= 16 {
      HexSpells(letters, n / 16);
      NumberSnoc(DigitsOf(n / 16), n % 16);
    } else {
      NumberSnoc([], n);
      assert Number([]) == 0 by {
        NoNumber();
      }
    }
  }

  lemma NoNumber()
    ensures Number([]) == 0
  {
  }

  function Zeros(k: nat): (s: bytes)
    ensures |s| == k && forall i :: 0 <= i < k ==> s[i] == '0' as int
  {
    seq(k, _ => '0' as int)
  }

  lemma {:induction false} LeadingZeros(k: nat, ds: seq<digit>)
    ensures Number(seq(k, _ => 0) + ds) == Number(ds)
    decreases |ds|, k
  {
    var z := seq(k, _ => 0);
    if ds == [] {
      assert z + [] == z;
      if k > 0 {
        LeadingZeros(k - 1, []);
        assert z[..k - 1] == seq(k - 1, _ => 0) == seq(k - 1, _ => 0) + [];
      }
    } else {
      LeadingZeros(k, ds[..|ds| - 1]);
      assert (z + ds)[..k + |ds| - 1] == z + ds[..|ds| - 1];
    }
  }

  /** Every number below 2^64 is read from its numeral, whatever the case of the letters and with any zeros before. */
  lemma NumeralIsRead(letters: string, n: nat, k: nat)
    requires letters == LOWER || letters == UPPER
    ensures var s := Zeros(k) + Hex(letters, n);
            if n < TWO_64 then Run(START, s) == (Conf(Size, n), [])
            else Run(START, s).0.state == Failed(HPE_INVALID_CHUNK_SIZE)
  {
    hide Run, Number, Hex, DigitsOf;
    HexSpells(letters, n);
    LeadingZeros(k, DigitsOf(n));
    var s, ds := Zeros(k) + Hex(letters, n), seq(k, _ => 0) + DigitsOf(n);
    assert s != [] by {
      SomeLetter(letters, n);
    }
    assert SpellsAll(s, ds) by {
      assert forall i :: 0 <= i < k ==> Spells(Zeros(k)[i], 0);
    }
    SizeIsExact(s, ds);
  }

  lemma SomeLetter(letters: string, n: nat)
    requires letters == LOWER || letters == UPPER
    ensures Hex(letters, n) != []
  {
  }

  // Classes of bytes.

  const MARKS := "!#$%&'*+-.^_`|~"

  predicate Between(lo: char, b: u8, hi: char) {
    lo as int <= b <= hi as int
  }

  lemma MarksAreToken(b: u8)
    ensures TokenChar(b) && !Between('0', b, '9') && !Between('a', b, 'z') && !Between('A', b, 'Z')
            <==> exists k :: 0 <= k < |MARKS| && b == MARKS[k] as int
  {
    var codes := [33, 35, 36, 37, 38, 39, 42, 43, 45, 46, 94, 95, 96, 124, 126];
    assert forall k :: 0 <= k < |MARKS| ==> codes[k] == MARKS[k] as int;
    if TokenChar(b) && !Between('0', b, '9') && !Between('a', b, 'z') && !Between('A', b, 'Z') {
      assert b in codes;
    }
  }

  /** The characters of a token (section 3.2.6 of RFC 7230), and what the other classes leave out. */
  lemma Classes(b: u8)
    ensures TokenChar(b) <==> Between('0', b, '9') || Between('a', b, 'z') || Between('A', b, 'Z')
                              || exists k :: 0 <= k < |MARKS| && b == MARKS[k] as int
    ensures !ContentChar(b) <==> (b < ' ' as int && b != '\t' as int) || b == 127
    ensures !QuotedText(b) <==> (b < ' ' as int && b != '\t' as int) || b == '\"' as int || b == '\\' as int
    ensures !Escapable(b) <==> (b < ' ' as int && b != '\t' as int) || b == 127
  {
    MarksAreToken(b);
  }

  // Well-formed bodies.

  datatype QuotedChar = Text(b: u8) | Pair(b: u8)
  /** A value as the parser takes it: token characters, perhaps none, and after them perhaps a quoted string. */
  datatype ExtensionValue = NoValue | Given(token: bytes, quoted: Option<seq<QuotedChar>>)
  datatype Extension = Extension(name: bytes, value: ExtensionValue)

  /** A chunk: how its size is written, its extensions, and its data. */
  datatype Chunk = Chunk(size: bytes, extensions: seq<Extension>, data: bytes)

  predicate AllToken(s: bytes) {
    forall k :: 0 <= k < |s| ==> TokenChar(s[k])
  }

  predicate IsToken(s: bytes) {
    s != [] && AllToken(s)
  }

  predicate GoodQuoted(q: seq<QuotedChar>) {
    forall k :: 0 <= k < |q| ==> if q[k].Text? then QuotedText(q[k].b) else Escapable(q[k].b)
  }

  predicate GoodValue(v: ExtensionValue) {
    v.Given? ==> AllToken(v.token) && (v.quoted.Some? ==> GoodQuoted(v.quoted.value))
  }

  predicate GoodExtension(e: Extension) {
    AllToken(e.name) && GoodValue(e.value)
  }

  predicate AllGood(es: seq<Extension>) {
    forall k :: 0 <= k < |es| ==> GoodExtension(es[k])
  }

  /** Nothing but the semicolon. */
  predicate Bare(e: Extension) {
    e.name == [] && e.value.NoValue?
  }

  /** The extensions that the parser takes: any, but that the line does not end with a bare semicolon. */
  predicate GoodExtensions(es: seq<Extension>) {
    AllGood(es) && (es != [] ==> !Bare(es[|es| - 1]))
  }

  /** An extension of section 4.1.1 of RFC 7230: it has a name, and its value is a token or a quoted string. */
  predicate Standard(e: Extension) {
    && IsToken(e.name) && GoodValue(e.value)
    && (e.value.Given? ==> (e.value.token == [] <==> e.value.quoted.Some?))
  }

  lemma StandardIsGood(es: seq<Extension>)
    requires forall k :: 0 <= k < |es| ==> Standard(es[k])
    ensures GoodExtensions(es)
  {
  }

  /** A numeral of any length. */
  ghost predicate GoodSize(size: bytes, n: nat) {
    size != [] && n < TWO_64 && exists ds :: SpellsAll(size, ds) && Number(ds) == n
  }

  /** A field of the trailer: its name, the blanks after the colon, and its content. */
  datatype Trailer = Trailer(name: bytes, blanks: bytes, content: bytes)

  predicate GoodTrailer(f: Trailer) {
    && IsToken(f.name) && !IsSpecial(Lowered(f.name))
    && (forall k :: 0 <= k < |f.blanks| ==> Blank(f.blanks[k]))
    && (forall k :: 0 <= k < |f.content| ==> ContentChar(f.content[k]))
    && (f.content != [] ==> !Blank(f.content[0]))
  }

  predicate GoodTrailers(fs: seq<Trailer>) {
    forall k :: 0 <= k < |fs| ==> GoodTrailer(fs[k])
  }

  function Lowered(s: bytes): (r: bytes)
    ensures |r| == |s|
  {
    seq<u8>(|s|, i requires 0 <= i < |s| => Lower(s[i]))
  }

  function TrailerBytes(f: Trailer): bytes {
    f.name + [COLON] + f.blanks + f.content + [CR, LF]
  }

  function TrailersBytes(fs: seq<Trailer>): bytes
    decreases |fs|
  {
    if fs == [] then [] else TrailersBytes(fs[..|fs| - 1]) + TrailerBytes(fs[|fs| - 1])
  }

  ghost predicate GoodChunk(c: Chunk) {
    GoodSize(c.size, |c.data|) && GoodExtensions(c.extensions) && c.data != []
  }

  function QuotedBytes(q: seq<QuotedChar>): bytes
    decreases |q|
  {
    if q == [] then []
    else QuotedBytes(q[..|q| - 1]) + if q[|q| - 1].Text? then [q[|q| - 1].b] else [BACKSLASH, q[|q| - 1].b]
  }

  function MaybeQuoted(o: Option<seq<QuotedChar>>): bytes {
    if o.Some? then [QUOTE] + QuotedBytes(o.value) + [QUOTE] else []
  }

  /** A value as it is written, quotes and backslashes included. */
  function ValueBytes(v: ExtensionValue): bytes {
    if v.NoValue? then [] else v.token + MaybeQuoted(v.quoted)
  }

  function ExtensionBytes(e: Extension): bytes {
    [SEMICOLON] + e.name + if e.value.NoValue? then [] else [EQUALS] + ValueBytes(e.value)
  }

  function ExtensionsBytes(es: seq<Extension>): bytes
    decreases |es|
  {
    if es == [] then [] else ExtensionsBytes(es[..|es| - 1]) + ExtensionBytes(es[|es| - 1])
  }

  function Line(size: bytes, es: seq<Extension>): bytes {
    size + ExtensionsBytes(es) + [CR, LF]
  }

  function ChunkBytes(c: Chunk): bytes {
    Line(c.size, c.extensions) + c.data + [CR, LF]
  }

  function ChunksBytes(cs: seq<Chunk>): bytes
    decreases |cs|
  {
    if cs == [] then [] else ChunksBytes(cs[..|cs| - 1]) + ChunkBytes(cs[|cs| - 1])
  }

  // What the callbacks have to be told.

  function ExtensionEvents(e: Extension): seq<Event> {
    BytesOf(NameSpan, e.name) + [NameDone]
    + if e.value.NoValue? then [] else BytesOf(ValueSpan, ValueBytes(e.value)) + [ValueDone]
  }

  function ExtensionsEvents(es: seq<Extension>): seq<Event>
    decreases |es|
  {
    if es == [] then [] else ExtensionsEvents(es[..|es| - 1]) + ExtensionEvents(es[|es| - 1])
  }

  function ChunkEvents(c: Chunk): seq<Event>
    requires |c.data| < TWO_64
  {
    ExtensionsEvents(c.extensions) + [Header(|c.data|)] + (BytesOf(BodySpan, c.data) + [ChunkDone])
  }

  function ChunksEvents(cs: seq<Chunk>): seq<Event>
    requires forall k :: 0 <= k < |cs| ==> GoodChunk(cs[k])
    decreases |cs|
  {
    if cs == [] then []
    else
      assert GoodChunk(cs[|cs| - 1]);
      ChunksEvents(cs[..|cs| - 1]) + ChunkEvents(cs[|cs| - 1])
  }

  function TrailerEvents(f: Trailer): seq<Event> {
    BytesOf(FieldSpan, f.name) + [FieldDone] + BytesOf(ContentSpan, f.content) + [ContentDone]
  }

  function TrailersEvents(fs: seq<Trailer>): seq<Event>
    decreases |fs|
  {
    if fs == [] then [] else TrailersEvents(fs[..|fs| - 1]) + TrailerEvents(fs[|fs| - 1])
  }

  function MessageEvents(cs: seq<Chunk>, es: seq<Extension>, fs: seq<Trailer>): seq<Event>
    requires forall k :: 0 <= k < |cs| ==> GoodChunk(cs[k])
  {
    ChunksEvents(cs) + (ExtensionsEvents(es) + [Header(0)]) + TrailersEvents(fs) + [ChunkDone, MessageDone]
  }

  /** From c the bytes lead to d, and these events are reported. */
  ghost predicate Leads(c: Conf, s: bytes, d: Conf, es: seq<Event>) {
    Run(c, s) == (d, es)
  }

  lemma LeadsOn(c: Conf, s: bytes, d: Conf, x: seq<Event>, t: bytes, e: Conf, y: seq<Event>)
    requires Leads(c, s, d, x) && Leads(d, t, e, y)
    ensures Leads(c, s + t, e, x + y)
    ensures x == [] ==> Leads(c, s + t, e, y)
    ensures y == [] ==> Leads(c, s + t, e, x)
  {
    hide Run;
    RunAppend(c, s, t);
    assert [] + y == y && x + [] == x;
  }

  lemma LeadsNowhere(c: Conf)
    ensures Leads(c, [], c, [])
  {
    RunNothing(c);
  }

  lemma LeadsWith(c: Conf, b: u8)
    ensures Leads(c, [b], Step(c, b).0, Step(c, b).1)
  {
    hide Step, Run;
    RunOne(c, b);
  }

  /** States in which the line of a chunk may go on with an extension or, but for the first, end; and the reports that
      are still due. */
  predicate LineState(st: State) {
    st in {Extensions, Size, Name, ValueStart, Value, QuotedDone}
  }

  function LineDue(st: State): seq<Event> {
    if st == Name || st == Extensions then [NameDone]
    else if st == Value then [ValueDone]
    else if st == ValueStart then [NameDone, ValueDone]
    else []
  }

  lemma {:induction false} TokenRun(c: Conf, s: bytes, st: State)
    requires IsToken(s) && ((st == Name && c.state == Extensions) || (st == Value && c.state == ValueStart))
    ensures var es := BytesOf(SpanOf(st), s);
            Leads(c, s, Conf(st, c.len), if st == Name then es else [NameDone] + es)
    decreases |s|
  {
    hide Run, TokenChar, Step;
    var init, last := s[..|s| - 1], s[|s| - 1];
    var d := Conf(st, c.len);
    var k := SpanOf(st);
    assert init + [last] == s && TokenChar(last);
    assert BytesOf(k, s) == BytesOf(k, init) + BytesOf(k, [last]);
    if init == [] {
      TokenStep(c, last, st);
      LeadsWith(c, last);
      assert s == [last];
    } else {
      TokenRun(c, init, st);
      TokenStep(d, last, st);
      LeadsWith(d, last);
      var x := if st == Name then BytesOf(NameSpan, init) else [NameDone] + BytesOf(ValueSpan, init);
      LeadsOn(c, init, d, x, [last], d, BytesOf(k, [last]));
      Regroup([NameDone], BytesOf(k, init), BytesOf(k, [last]));
    }
  }

  lemma TokenStep(c: Conf, b: u8, st: State)
    requires TokenChar(b)
    requires if st == Name then c.state in {Extensions, Name} else st == Value && c.state in {ValueStart, Value}
    ensures var es := BytesOf(SpanOf(st), [b]);
            Step(c, b) == (Conf(st, c.len), if c.state == ValueStart then [NameDone] + es else es)
  {
    TokenIsPlain(b);
    var e := if st == Name then NameByte(b) else ValueByte(b);
    assert BytesOf(SpanOf(st), [b]) == [e];
  }

  lemma TokenIsPlain(b: u8)
    requires TokenChar(b)
    ensures b !in {CR, LF, SEMICOLON, EQUALS, QUOTE, 32}
  {
  }

  lemma ValueBytesSnoc(s: bytes, t: bytes)
    ensures BytesOf(ValueSpan, s + t) == BytesOf(ValueSpan, s) + BytesOf(ValueSpan, t)
  {
  }

  /** One byte between the quotes. */
  lemma QuotedStep(c: Conf, b: u8, st: State)
    requires (c.state == Quoted && ((st == Quoted && QuotedText(b)) || (st == QuotedPair && b == BACKSLASH)))
             || (c.state == QuotedPair && st == Quoted && Escapable(b))
    ensures Leads(c, [b], Conf(st, c.len), BytesOf(ValueSpan, [b]))
  {
    LeadsWith(c, b);
    assert BytesOf(ValueSpan, [b]) == [ValueByte(b)];
  }

  lemma {:induction false} QuotedRun(c: Conf, q: seq<QuotedChar>)
    requires GoodQuoted(q) && c.state == Quoted
    ensures Leads(c, QuotedBytes(q), c, BytesOf(ValueSpan, QuotedBytes(q)))
    decreases |q|
  {
    hide Run, BytesOf, Leads;
    if q == [] {
      LeadsNowhere(c);
      NoBytes(ValueSpan);
    } else {
      var init, last := q[..|q| - 1], q[|q| - 1];
      var s := QuotedBytes(init);
      QuotedRun(c, init);
      if last.Text? {
        QuotedStep(c, last.b, Quoted);
        LeadsOn(c, s, c, BytesOf(ValueSpan, s), [last.b], c, BytesOf(ValueSpan, [last.b]));
        ValueBytesSnoc(s, [last.b]);
      } else {
        var d := Conf(QuotedPair, c.len);
        QuotedStep(c, BACKSLASH, QuotedPair);
        QuotedStep(d, last.b, Quoted);
        ValueBytesSnoc([BACKSLASH], [last.b]);
        LeadsOn(c, [BACKSLASH], d, BytesOf(ValueSpan, [BACKSLASH]), [last.b], c, BytesOf(ValueSpan, [last.b]));
        assert [BACKSLASH] + [last.b] == [BACKSLASH, last.b];
        LeadsOn(c, s, c, BytesOf(ValueSpan, s), [BACKSLASH, last.b], c, BytesOf(ValueSpan, [BACKSLASH, last.b]));
        ValueBytesSnoc(s, [BACKSLASH, last.b]);
      }
    }
  }

  /** Where a value may be after its token. */
  function AfterToken(token: bytes): State {
    if token == [] then ValueStart else Value
  }

  function TokenEvents(token: bytes): seq<Event> {
    if token == [] then [] else [NameDone] + BytesOf(ValueSpan, token)
  }

  lemma MaybeTokenRun(c: Conf, token: bytes)
    requires AllToken(token) && c.state == ValueStart
    ensures Leads(c, token, Conf(AfterToken(token), c.len), TokenEvents(token))
  {
    hide Leads, BytesOf;
    if token == [] {
      LeadsNowhere(c);
    } else {
      TokenRun(c, token, Value);
    }
  }

  /** A value in quotes is complete with the closing quote, any other with the byte behind it. */
  lemma ValueRun(c: Conf, v: ExtensionValue) returns (d: Conf, es: seq<Event>)
    requires !v.NoValue? && GoodValue(v) && c.state == ValueStart
    ensures LineState(d.state) && d.state != Extensions && d.len == c.len && Leads(c, ValueBytes(v), d, es)
    ensures es + LineDue(d.state) == [NameDone] + (BytesOf(ValueSpan, ValueBytes(v)) + [ValueDone])
  {
    hide Run, QuotedBytes, BytesOf, AllToken, Leads;
    var t := v.token;
    var m := Conf(AfterToken(t), c.len);
    MaybeTokenRun(c, t);
    NoBytes(ValueSpan);
    if v.quoted.None? {
      d, es := m, TokenEvents(t);
      assert t + [] == t;
      assert [] + [NameDone, ValueDone] == [NameDone] + ([] + [ValueDone]);
      Regroup([NameDone], BytesOf(ValueSpan, t), [ValueDone]);
    } else {
      var q, s := Conf(Quoted, c.len), QuotedBytes(v.quoted.value);
      d := Conf(QuotedDone, c.len);
      var o := OpenQuote(m, t);
      QuotedRun(q, v.quoted.value);
      CloseQuote(q);
      var x, y := BytesOf(ValueSpan, [QUOTE]), BytesOf(ValueSpan, s);
      LeadsOn(c, t, m, TokenEvents(t), [QUOTE], q, o);
      LeadsOn(c, t + [QUOTE], q, TokenEvents(t) + o, s, q, y);
      LeadsOn(c, t + [QUOTE] + s, q, TokenEvents(t) + o + y, [QUOTE], d, x + [ValueDone]);
      es := TokenEvents(t) + o + y + (x + [ValueDone]);
      ValueBytesSnoc(t, [QUOTE]);
      ValueBytesSnoc(t + [QUOTE], s);
      ValueBytesSnoc(t + [QUOTE] + s, [QUOTE]);
      assert ValueBytes(v) == t + [QUOTE] + s + [QUOTE];
      assert es + [] == es;
    }
  }

  /** The opening quote, behind a token or not. */
  lemma OpenQuote(c: Conf, token: bytes) returns (es: seq<Event>)
    requires c.state == AfterToken(token)
    ensures Leads(c, [QUOTE], Conf(Quoted, c.len), es)
    ensures TokenEvents(token) + es == [NameDone] + (BytesOf(ValueSpan, token) + BytesOf(ValueSpan, [QUOTE]))
  {
    LeadsWith(c, QUOTE);
    assert BytesOf(ValueSpan, [QUOTE]) == [ValueByte(QUOTE)];
    if token == [] {
      es := [NameDone] + BytesOf(ValueSpan, [QUOTE]);
      NoBytes(ValueSpan);
    } else {
      es := BytesOf(ValueSpan, [QUOTE]);
    }
  }

  lemma CloseQuote(c: Conf)
    requires c.state == Quoted
    ensures Leads(c, [QUOTE], Conf(QuotedDone, c.len), BytesOf(ValueSpan, [QUOTE]) + [ValueDone])
  {
    LeadsWith(c, QUOTE);
    assert BytesOf(ValueSpan, [QUOTE]) == [ValueByte(QUOTE)];
    assert [ValueByte(QUOTE)] + [ValueDone] == [ValueByte(QUOTE), ValueDone];
  }

  lemma SemicolonStep(c: Conf)
    requires LineState(c.state)
    ensures Leads(c, [SEMICOLON], Conf(Extensions, c.len), LineDue(c.state))
  {
    LeadsWith(c, SEMICOLON);
    assert [NameDone] + [ValueDone] == [NameDone, ValueDone];
  }

  function AfterName(name: bytes): State {
    if name == [] then Extensions else Name
  }

  lemma MaybeNameRun(c: Conf, name: bytes)
    requires AllToken(name) && c.state == Extensions
    ensures Leads(c, name, Conf(AfterName(name), c.len), BytesOf(NameSpan, name))
  {
    hide Leads, BytesOf;
    if name == [] {
      LeadsNowhere(c);
      NoBytes(NameSpan);
    } else {
      TokenRun(c, name, Name);
    }
  }

  /** An extension leaves the size alone and the line where another one may follow; its name and its value are
      reported whole. */
  lemma ExtensionRun(c: Conf, x: Extension) returns (d: Conf, es: seq<Event>)
    requires GoodExtension(x) && LineState(c.state)
    ensures LineState(d.state) && (d.state == Extensions ==> Bare(x)) && d.len == c.len
    ensures Leads(c, ExtensionBytes(x), d, es)
    ensures es + LineDue(d.state) == LineDue(c.state) + ExtensionEvents(x)
  {
    hide Leads, QuotedBytes, AllToken, BytesOf, ValueBytes;
    var e, n, v := Conf(Extensions, c.len), Conf(AfterName(x.name), c.len), Conf(ValueStart, c.len);
    var due, name := LineDue(c.state), BytesOf(NameSpan, x.name);
    SemicolonStep(c);
    MaybeNameRun(e, x.name);
    LeadsOn(c, [SEMICOLON], e, due, x.name, n, name);
    var head := [SEMICOLON] + x.name;
    if x.value.NoValue? {
      d, es := n, due + name;
      assert head + [] == head;
      assert due + name + [NameDone] == due + (name + [NameDone] + []);
    } else {
      EqualsStep(n);
      LeadsOn(c, head, n, due + name, [EQUALS], v, []);
      var ys;
      d, ys := ValueRun(v, x.value);
      LeadsOn(c, head + [EQUALS], v, due + name, ValueBytes(x.value), d, ys);
      es := due + name + ys;
      assert head + [EQUALS] + ValueBytes(x.value) == ExtensionBytes(x);
      Regroup(due + name, ys, LineDue(d.state));
      var rest := BytesOf(ValueSpan, ValueBytes(x.value)) + [ValueDone];
      assert due + name + ([NameDone] + rest) == due + (name + [NameDone] + rest);
    }
  }

  lemma EqualsStep(n: Conf)
    requires n.state == Name || n.state == Extensions
    ensures Leads(n, [EQUALS], Conf(ValueStart, n.len), [])
  {
    LeadsWith(n, EQUALS);
  }

  lemma {:induction false} ExtensionsRun(c: Conf, xs: seq<Extension>) returns (d: Conf, es: seq<Event>)
    requires AllGood(xs) && LineState(c.state) && c.state != Extensions && LineDue(c.state) == []
    ensures LineState(d.state) && (d.state == Extensions ==> xs != [] && Bare(xs[|xs| - 1])) && d.len == c.len
    ensures Leads(c, ExtensionsBytes(xs), d, es)
    ensures es + LineDue(d.state) == ExtensionsEvents(xs)
    decreases |xs|
  {
    hide Leads, ExtensionBytes, GoodExtension, ExtensionEvents, LineState, LineDue, Bare;
    if xs == [] {
      d, es := c, [];
      LeadsNowhere(c);
    } else {
      var init, last := xs[..|xs| - 1], xs[|xs| - 1];
      var m, x := ExtensionsRun(c, init);
      var y;
      d, y := ExtensionRun(m, last);
      LeadsOn(c, ExtensionsBytes(init), m, x, ExtensionBytes(last), d, y);
      es := x + y;
      Regroup(x, y, LineDue(d.state));
      Regroup(x, LineDue(m.state), ExtensionEvents(last));
    }
  }

  /** Where the parser goes after the header of a chunk. */
  function AfterHeader(n: u64): Conf {
    Conf(if n == 0 then FieldStart else BodyStart, n)
  }

  /** The line before the data: size, extensions, CR and LF. */
  lemma LineRun(size: bytes, n: u64, xs: seq<Extension>)
    requires GoodSize(size, n) && GoodExtensions(xs)
    ensures Leads(START, Line(size, xs), AfterHeader(n), ExtensionsEvents(xs) + [Header(n)])
  {
    hide Run, ExtensionsBytes, AllGood, HexDigit, SpellsAll, Number;
    var c := Conf(Size, n);
    var ds :| SpellsAll(size, ds) && Number(ds) == n;
    SizeIsExact(size, ds);
    assert Leads(START, size, c, []);
    var d, es := ExtensionsRun(c, xs);
    LeadsOn(START, size, c, [], ExtensionsBytes(xs), d, es);
    EndOfLine(d);
    LeadsOn(START, size + ExtensionsBytes(xs), d, [] + es, [CR, LF], AfterHeader(n), LineDue(d.state) + [Header(n)]);
    Regroup([] + es, LineDue(d.state), [Header(n)]);
    assert [] + es == es;
  }

  lemma EndOfLine(d: Conf)
    requires LineState(d.state) && d.state != Extensions
    ensures Leads(d, [CR, LF], AfterHeader(d.len), LineDue(d.state) + [Header(d.len)])
  {
    hide Run, HexDigit, TokenChar;
    var a := Conf(AlmostDone, d.len);
    assert HexDigit(CR) == -1 by {
      CrIsNoDigit();
    }
    LeadsWith(d, CR);
    LeadsWith(a, LF);
    assert [NameDone] + [ValueDone] == [NameDone, ValueDone];
    LeadsOn(d, [CR], a, LineDue(d.state), [LF], AfterHeader(d.len), [Header(d.len)]);
    assert [CR] + [LF] == [CR, LF];
  }

  lemma CrIsNoDigit()
    ensures HexDigit(CR) == -1
  {
  }

  lemma DataRun(data: bytes)
    requires data != [] && |data| < TWO_64
    ensures Leads(Conf(BodyStart, |data|), data + [CR, LF], START, BytesOf(BodySpan, data) + [ChunkDone])
  {
    hide Run;
    var c, d, e := Conf(BodyStart, |data|), Conf(DataAlmostDone, 0), Conf(DataAlmostDone1, 0);
    StartIsBody(c, data);
    BodyRun(Conf(Body, |data|), data);
    LeadsWith(d, CR);
    LeadsWith(e, LF);
    LeadsOn(d, [CR], e, [], [LF], START, [ChunkDone]);
    assert [CR] + [LF] == [CR, LF];
    LeadsOn(c, data, d, BytesOf(BodySpan, data), [CR, LF], START, [ChunkDone]);
  }

  lemma ChunkRun(c: Chunk)
    requires GoodChunk(c)
    ensures |c.data| < TWO_64 && Leads(START, ChunkBytes(c), START, ChunkEvents(c))
  {
    hide Leads, Line, GoodExtensions, GoodSize, BytesOf, ExtensionsEvents;
    assert |c.data| < TWO_64 by {
      SizeOfChunk(c);
    }
    LineRun(c.size, |c.data|, c.extensions);
    DataRun(c.data);
    LeadsOn(START, Line(c.size, c.extensions), Conf(BodyStart, |c.data|),
            ExtensionsEvents(c.extensions) + [Header(|c.data|)],
            c.data + [CR, LF], START, BytesOf(BodySpan, c.data) + [ChunkDone]);
    assert Line(c.size, c.extensions) + (c.data + [CR, LF]) == ChunkBytes(c);
  }

  lemma SizeOfChunk(c: Chunk)
    requires GoodChunk(c)
    ensures |c.data| < TWO_64
  {
  }

  lemma {:induction false} ChunksRun(cs: seq<Chunk>)
    requires forall k :: 0 <= k < |cs| ==> GoodChunk(cs[k])
    ensures Leads(START, ChunksBytes(cs), START, ChunksEvents(cs))
    decreases |cs|
  {
    hide Leads, ChunkBytes, GoodChunk, ChunkEvents;
    if cs == [] {
      LeadsNowhere(START);
    } else {
      var init, last := cs[..|cs| - 1], cs[|cs| - 1];
      ChunksRun(init);
      ChunkRun(last);
      LeadsOn(START, ChunksBytes(init), START, ChunksEvents(init), ChunkBytes(last), START, ChunkEvents(last));
    }
  }

  // The trailer.

  /** Where a field may begin, and the report of the field before it that is still due. */
  predicate Ready(st: State) {
    st in {FieldStart, EmptyLine, ContentLine}
  }

  function Due(st: State): seq<Event> {
    if st == FieldStart then [] else [ContentDone]
  }

  /** The state after these bytes of a name. */
  function NameState(name: bytes): State {
    if IsSpecial(Lowered(name)) then FieldColon(Lowered(name))
    else if StartsSpecial(Lowered(name)) then Field(Lowered(name))
    else FieldGeneral
  }

  /** No special name goes on after another one, and none has a colon in it. */
  lemma SpecialEnds(name: bytes, b: u8)
    ensures IsSpecial(name) ==> !StartsSpecial(name + [b])
    ensures b == COLON ==> !StartsSpecial(name + [b])
    ensures StartsSpecial(name + [b]) ==> StartsSpecial(name)
    ensures IsSpecial(name) ==> StartsSpecial(name)
  {
    if StartsSpecial(name + [b]) {
      var k :| 0 <= k < |SPECIAL| && name + [b] <= Ascii(SPECIAL[k]);
      assert name <= Ascii(SPECIAL[k]) && Ascii(SPECIAL[k])[|name|] == b;
      NoColonIn(k);
      if IsSpecial(name) {
        var j :| 0 <= j < |SPECIAL| && name == Ascii(SPECIAL[j]);
        NoneStartsAnother(j, k);
      }
    }
  }

  lemma NoColonIn(k: nat)
    requires k < |SPECIAL|
    ensures forall i :: 0 <= i < |Ascii(SPECIAL[k])| ==> Ascii(SPECIAL[k])[i] != COLON
  {
    forall i | 0 <= i < |SPECIAL[k]| ensures Ascii(SPECIAL[k])[i] != COLON {
      assert SPECIAL[k][i] != ':' && SPECIAL[k][i] < '{';
    }
  }

  lemma NoneStartsAnother(j: nat, k: nat)
    requires j < |SPECIAL| && k < |SPECIAL| && |SPECIAL[j]| < |SPECIAL[k]|
    ensures !(Ascii(SPECIAL[j]) <= Ascii(SPECIAL[k]))
  {
    assert SPECIAL[j][0] != SPECIAL[k][0] || SPECIAL[j][3] != SPECIAL[k][3];
    assert forall i :: i in {0, 3} ==> SPECIAL[j][i] < '{' && SPECIAL[k][i] < '{';
    assert forall i :: i in {0, 3} ==> Ascii(SPECIAL[j])[i] == SPECIAL[j][i] as int;
    assert forall i :: i in {0, 3} ==> Ascii(SPECIAL[k])[i] == SPECIAL[k][i] as int;
  }

  /** One more byte of a name. */
  lemma NameStep(c: Conf, name: bytes, b: u8)
    requires TokenChar(b) && c.state == NameState(name)
    ensures Step(c, b) == (Conf(NameState(name + [b]), c.len), [FieldByte(b)])
  {
    hide IsSpecial, StartsSpecial;
    TokenIsPlain(b);
    SpecialEnds(Lowered(name), Lower(b));
    SpecialEnds(Lowered(name) + [Lower(b)], 0);
    assert Lowered(name + [b]) == Lowered(name) + [Lower(b)];
  }

  lemma FirstOfName(c: Conf, b: u8)
    requires TokenChar(b) && Ready(c.state)
    ensures Step(c, b) == (Conf(NameState([b]), c.len), Due(c.state) + [FieldByte(b)])
  {
    hide IsSpecial, StartsSpecial;
    TokenIsPlain(b);
    assert Lowered([b]) == [Lower(b)] && [] + [Lower(b)] == [Lower(b)];
    assert [] + [FieldByte(b)] == [FieldByte(b)];
  }

  lemma {:induction false} NameRun(c: Conf, name: bytes)
    requires IsToken(name) && Ready(c.state)
    ensures Leads(c, name, Conf(NameState(name), c.len), Due(c.state) + BytesOf(FieldSpan, name))
    decreases |name|
  {
    hide Run, TokenChar, NameState, Step;
    var init, last := name[..|name| - 1], name[|name| - 1];
    assert init + [last] == name && TokenChar(last);
    assert BytesOf(FieldSpan, name) == BytesOf(FieldSpan, init) + [FieldByte(last)];
    if init == [] {
      FirstOfName(c, last);
      LeadsWith(c, last);
      assert name == [last] && BytesOf(FieldSpan, init) == [] && BytesOf(FieldSpan, name) == [FieldByte(last)];
    } else {
      NameRun(c, init);
      var d, e := Conf(NameState(init), c.len), Conf(NameState(name), c.len);
      NameStep(d, init, last);
      LeadsWith(d, last);
      LeadsOn(c, init, d, Due(c.state) + BytesOf(FieldSpan, init), [last], e, [FieldByte(last)]);
      Regroup(Due(c.state), BytesOf(FieldSpan, init), [FieldByte(last)]);
    }
  }

  lemma ColonRun(c: Conf, name: bytes)
    requires c.state == NameState(name) && !IsSpecial(Lowered(name))
    ensures Leads(c, [COLON], Conf(ContentStart, c.len), [FieldDone])
  {
    hide IsSpecial, StartsSpecial, Run;
    SpecialEnds(Lowered(name), COLON);
    SpecialEnds(Lowered(name) + [COLON], 0);
    assert Lower(COLON) == COLON;
    LeadsWith(c, COLON);
  }

  lemma {:induction false} BlanksRun(c: Conf, s: bytes)
    requires c.state == ContentStart && forall k :: 0 <= k < |s| ==> Blank(s[k])
    ensures Leads(c, s, c, [])
    decreases |s|
  {
    hide Run;
    if s == [] {
      LeadsNowhere(c);
    } else {
      var init, last := s[..|s| - 1], s[|s| - 1];
      assert s == init + [last];
      BlanksRun(c, init);
      LeadsWith(c, last);
      LeadsOn(c, init, c, [], [last], c, []);
    }
  }

  lemma {:induction false} ContentRun(c: Conf, s: bytes)
    requires c.state == ContentStart && s != [] && !Blank(s[0])
    requires forall k :: 0 <= k < |s| ==> ContentChar(s[k])
    ensures Leads(c, s, Conf(Content, c.len), BytesOf(ContentSpan, s))
    decreases |s|
  {
    hide Run, Step, ContentChar;
    var init, last := s[..|s| - 1], s[|s| - 1];
    var d := Conf(Content, c.len);
    assert s == init + [last] && BytesOf(ContentSpan, s) == BytesOf(ContentSpan, init) + [ContentByte(last)];
    if init == [] {
      ContentStep(c, last);
      LeadsWith(c, last);
      assert s == [last] && BytesOf(ContentSpan, init) == [] && BytesOf(ContentSpan, s) == [ContentByte(last)];
    } else {
      ContentRun(c, init);
      ContentStep(d, last);
      LeadsWith(d, last);
      LeadsOn(c, init, d, BytesOf(ContentSpan, init), [last], d, [ContentByte(last)]);
    }
  }

  lemma ContentStep(c: Conf, b: u8)
    requires ContentChar(b) && (c.state == Content || (c.state == ContentStart && !Blank(b)))
    ensures Step(c, b) == (Conf(Content, c.len), [ContentByte(b)])
  {
  }

  /** The content of a field and the end of its line; that the field is complete is reported later. */
  lemma RestOfField(c: Conf, s: bytes) returns (d: Conf)
    requires c.state == ContentStart && (s != [] ==> !Blank(s[0]))
    requires forall k :: 0 <= k < |s| ==> ContentChar(s[k])
    ensures Leads(c, s + [CR, LF], d, BytesOf(ContentSpan, s)) && d.len == c.len && d.state in {EmptyLine, ContentLine}
  {
    hide Run;
    assert [CR] + [LF] == [CR, LF] && BytesOf(ContentSpan, s) + [] == BytesOf(ContentSpan, s);
    if s == [] {
      var e := Conf(EmptyCr, c.len);
      d := Conf(EmptyLine, c.len);
      LeadsWith(c, CR);
      LeadsWith(e, LF);
      LeadsOn(c, [CR], e, [], [LF], d, []);
      assert s + [CR, LF] == [CR, LF] && BytesOf(ContentSpan, s) == [];
    } else {
      var b, e := Conf(Content, c.len), Conf(ContentCr, c.len);
      d := Conf(ContentLine, c.len);
      ContentRun(c, s);
      LeadsWith(b, CR);
      LeadsWith(e, LF);
      LeadsOn(b, [CR], e, [], [LF], d, []);
      LeadsOn(c, s, b, BytesOf(ContentSpan, s), [CR, LF], d, []);
    }
  }

  lemma TrailerRun(c: Conf, f: Trailer) returns (d: Conf, es: seq<Event>)
    requires GoodTrailer(f) && Ready(c.state)
    ensures Leads(c, TrailerBytes(f), d, es) && d.len == c.len && Ready(d.state)
    ensures es + Due(d.state) == Due(c.state) + TrailerEvents(f)
  {
    hide Leads, IsToken, IsSpecial, NameState, BytesOf;
    var n, v := Conf(NameState(f.name), c.len), Conf(ContentStart, c.len);
    var xs, ys := Due(c.state) + BytesOf(FieldSpan, f.name), BytesOf(ContentSpan, f.content);
    NameRun(c, f.name);
    ColonRun(n, f.name);
    BlanksRun(v, f.blanks);
    d := RestOfField(v, f.content);
    LeadsOn(c, f.name, n, xs, [COLON], v, [FieldDone]);
    LeadsOn(c, f.name + [COLON], v, xs + [FieldDone], f.blanks, v, []);
    LeadsOn(c, f.name + [COLON] + f.blanks, v, xs + [FieldDone] + [], f.content + [CR, LF], d, ys);
    es := xs + [FieldDone] + [] + ys;
    assert f.name + [COLON] + f.blanks + (f.content + [CR, LF]) == TrailerBytes(f);
    assert es + [ContentDone] == Due(c.state) + TrailerEvents(f);
  }

  lemma {:induction false} TrailersRun(fs: seq<Trailer>) returns (d: Conf, es: seq<Event>)
    requires GoodTrailers(fs)
    ensures Leads(Conf(FieldStart, 0), TrailersBytes(fs), d, es) && d.len == 0 && Ready(d.state)
    ensures es + Due(d.state) == TrailersEvents(fs)
    decreases |fs|
  {
    hide Leads, TrailerBytes, GoodTrailer, TrailerEvents;
    var c := Conf(FieldStart, 0);
    if fs == [] {
      d, es := c, [];
      LeadsNowhere(c);
    } else {
      var init, last := fs[..|fs| - 1], fs[|fs| - 1];
      var m, xs := TrailersRun(init);
      var ys;
      d, ys := TrailerRun(m, last);
      LeadsOn(c, TrailersBytes(init), m, xs, TrailerBytes(last), d, ys);
      es := xs + ys;
      Regroup(xs, ys, Due(d.state));
      Regroup(xs, Due(m.state), TrailerEvents(last));
    }
  }

  lemma EndRun(c: Conf)
    requires Ready(c.state)
    ensures Leads(c, [CR, LF], Conf(Complete, c.len), Due(c.state) + [ChunkDone, MessageDone])
  {
    hide Run;
    var d, e := Conf(HeadersAlmostDone, c.len), Conf(Complete, c.len);
    LeadsWith(c, CR);
    LeadsWith(d, LF);
    assert Step(c, CR) == (d, Due(c.state)) by {
      var none: seq<Event> := [];
      assert [ContentDone] + none == [ContentDone];
    }
    LeadsOn(c, [CR], d, Due(c.state), [LF], e, [ChunkDone, MessageDone]);
    assert [CR] + [LF] == [CR, LF];
  }

  /** A whole message body: chunks, the last chunk, the trailer and the empty line. */
  function Message(cs: seq<Chunk>, last: bytes, es: seq<Extension>, fs: seq<Trailer>): bytes {
    ChunksBytes(cs) + Line(last, es) + TrailersBytes(fs) + [CR, LF]
  }

  /** A well-formed chunked body, however its sizes are written, whatever extensions it has and with any trailer,
      is reported as the extensions, the data that it encodes and the fields of its trailer, and ends the message. */
  lemma BodyIsDecoded(cs: seq<Chunk>, last: bytes, es: seq<Extension>, fs: seq<Trailer>)
    requires forall k :: 0 <= k < |cs| ==> GoodChunk(cs[k])
    requires GoodSize(last, 0) && GoodExtensions(es) && GoodTrailers(fs)
    ensures Run(START, Message(cs, last, es, fs)) == (Conf(Complete, 0), MessageEvents(cs, es, fs))
  {
    hide Run, ChunksBytes, Line, GoodChunk, GoodExtensions, GoodSize, GoodTrailers, TrailersBytes, ChunksEvents;
    hide TrailersEvents, ExtensionsEvents;
    var c, x, h := Conf(FieldStart, 0), ChunksEvents(cs), ExtensionsEvents(es) + [Header(0)];
    ChunksRun(cs);
    LineRun(last, 0, es);
    LeadsOn(START, ChunksBytes(cs), START, x, Line(last, es), c, h);
    var d, y := TrailersRun(fs);
    LeadsOn(START, ChunksBytes(cs) + Line(last, es), c, x + h, TrailersBytes(fs), d, y);
    EndRun(d);
    var z := [ChunkDone, MessageDone];
    LeadsOn(START, ChunksBytes(cs) + Line(last, es) + TrailersBytes(fs), d, x + h + y,
            [CR, LF], Conf(Complete, 0), Due(d.state) + z);
    Regroup(x + h, y, Due(d.state));
    Regroup(x + h + y, Due(d.state), z);
  }

  /** The same, for the program: in whatever pieces the body arrives, it ends the message, and the callbacks get the
      extensions, the data and the trailer. */
  method ReadBody(pieces: seq<bytes>, ghost cs: seq<Chunk>, ghost last: bytes, ghost es: seq<Extension>,
                  ghost fs: seq<Trailer>)
    returns (h: Parser, err: nat)
    requires forall k :: 0 <= k < |cs| ==> GoodChunk(cs[k])
    requires GoodSize(last, 0) && GoodExtensions(es) && GoodTrailers(fs)
    requires Concat(pieces) == Message(cs, last, es, fs)
    ensures fresh(h) && h.current == Complete && err == 0 && Told(h.calls) == MessageEvents(cs, es, fs)
  {
    hide Run, Message, MessageEvents, GoodChunk, GoodExtensions, GoodSize, GoodTrailers, Told, MissingAll;
    h := new Parser();
    BodyIsDecoded(cs, last, es, fs);
    NothingTold();
    err := h.ExecuteAll(pieces);
    MissingOnce(START, pieces);
    NoBytes(FieldSpan);
    assert [] + Run(START, Concat(pieces)).1 == Run(START, Concat(pieces)).1;
    assert Told(h.calls) + [] == Told(h.calls);
  }

  lemma NothingTold()
    ensures Told([]) == []
  {
  }
}
