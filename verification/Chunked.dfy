/**
  The chunked transfer coding (section 4.1 of RFC 7230) as the HTTP parser reads it in strict mode, with
  callbacks that return 0: the sizes, the extensions, the data, the trailer and the spans that are reported.
 */
module Chunked {
  import opened Machine
  import opened Options
  import opened Codec

  const HPE_STRICT := 2
  const HPE_LF_EXPECTED := 3
  const HPE_INVALID_HEADER_TOKEN := 10
  const HPE_INVALID_CHUNK_SIZE := 12
  const HPE_CR_EXPECTED := 25

  const CR: u8 := '\r' as int
  const LF: u8 := '\n' as int
  const TAB: u8 := '\t' as int
  const SPACE: u8 := ' ' as int
  const COLON: u8 := ':' as int
  const SEMICOLON: u8 := ';' as int
  const EQUALS: u8 := '=' as int
  const QUOTE: u8 := '\"' as int
  const BACKSLASH: u8 := '\\' as int

  /**
    The states between two bytes.  A trailer field has a name (Field while it may still be one of the special names,
    then FieldGeneral), blanks, content and the end of its line.  The content of a special field and what follows the
    message are not modelled: in Special and Complete the bytes are handed on.
   */
  datatype State =
    | SizeDigit | Size | Extensions | Name | ValueStart | Value | Quoted | QuotedPair | QuotedDone
    | AlmostDone | BodyStart | Body | DataAlmostDone | DataAlmostDone1
    | FieldStart | Field(prefix: bytes) | FieldColon(name: bytes) | FieldGeneral
    | ContentStart | EmptyCr | EmptyLine | Content | ContentCr | ContentLine | HeadersAlmostDone
    | Special(field: bytes) | Complete | Failed(code: nat) | FailedInName

  /** What is reported, byte by byte. */
  datatype Event =
    | BodyByte(b: u8) | NameByte(b: u8) | ValueByte(b: u8) | Header(n: u64) | ChunkDone | NameDone | ValueDone
    | FieldByte(b: u8) | FieldDone | ContentByte(b: u8) | ContentDone | MessageDone | Beyond(b: u8)

  datatype Conf = Conf(state: State, len: u64)

  const START := Conf(SizeDigit, 0)

  function HexDigit(b: u8): (d: int)
    ensures -1 <= d < 16
  {
    if 48 <= b <= 57 then b - 48 else if 65 <= b <= 70 then b - 55 else if 97 <= b <= 102 then b - 87 else -1
  }

  predicate TokenChar(b: u8) {
    b == 33 || 35 <= b <= 39 || b == 42 || b == 43 || b == 45 || b == 46 || 48 <= b <= 57 || 65 <= b <= 90
    || 94 <= b <= 122 || b == 124 || b == 126
  }

  predicate QuotedText(b: u8) {
    b == 9 || (b >= 32 && b != QUOTE && b != BACKSLASH)
  }

  predicate Escapable(b: u8) {
    b == 9 || (b >= 32 && b != 127)
  }

  /** The program's two tests against overflow. */
  function MulAdd(len: u64, d: int): Option<u64>
    requires 0 <= d < 16
  {
    if len > 0xffff_ffff_ffff_ffff / 16 then None
    else if len * 16 > 0xffff_ffff_ffff_ffff - d then None
    else Some(len * 16 + d)
  }

  /** The fields whose content the parser looks into. */
  const SPECIAL: seq<string> := ["connection", "content-length", "proxy-connection", "transfer-encoding", "upgrade"]

  function Lower(b: u8): u8 {
    if 65 <= b <= 90 then b + 32 else b
  }

  predicate IsSpecial(name: bytes) {
    exists k :: 0 <= k < |SPECIAL| && name == Ascii(SPECIAL[k])
  }

  /** The start of a special name. */
  predicate StartsSpecial(name: bytes) {
    exists k :: 0 <= k < |SPECIAL| && name <= Ascii(SPECIAL[k])
  }

  predicate ContentChar(b: u8) {
    b == TAB || 32 <= b <= 126 || b >= 128
  }

  predicate Blank(b: u8) {
    b == TAB || b == SPACE
  }

  // One byte.

  function OnDigit(len: u64, d: int): Conf
    requires 0 <= d < 16
  {
    match MulAdd(len, d)
    case None => Conf(Failed(HPE_INVALID_CHUNK_SIZE), len)
    case Some(n) => Conf(Size, n)
  }

  function AfterSize(len: u64, b: u8): Conf {
    if b == LF then Conf(Failed(HPE_CR_EXPECTED), len)
    else if b == CR then Conf(AlmostDone, len)
    else if b == SEMICOLON then Conf(Extensions, len)
    else Conf(Failed(HPE_INVALID_CHUNK_SIZE), len)
  }

  function InName(len: u64, b: u8): (Conf, seq<Event>) {
    if b == LF then (Conf(Failed(HPE_CR_EXPECTED), len), [NameDone])
    else if b == CR then (Conf(AlmostDone, len), [NameDone])
    else if b == SEMICOLON then (Conf(Extensions, len), [NameDone])
    else if b == EQUALS then (Conf(ValueStart, len), [])
    else if TokenChar(b) then (Conf(Name, len), [NameByte(b)])
    else (Conf(Failed(HPE_STRICT), len), [])
  }

  function InValue(len: u64, b: u8): (Conf, seq<Event>) {
    if b == LF then (Conf(Failed(HPE_CR_EXPECTED), len), [ValueDone])
    else if b == CR then (Conf(AlmostDone, len), [ValueDone])
    else if b == SEMICOLON then (Conf(Extensions, len), [ValueDone])
    else if b == QUOTE then (Conf(Quoted, len), [ValueByte(b)])
    else if TokenChar(b) then (Conf(Value, len), [ValueByte(b)])
    else (Conf(Failed(HPE_STRICT), len), [])
  }

  function InQuoted(len: u64, b: u8): (Conf, seq<Event>) {
    if b == QUOTE then (Conf(QuotedDone, len), [ValueByte(b), ValueDone])
    else if b == BACKSLASH then (Conf(QuotedPair, len), [ValueByte(b)])
    else if QuotedText(b) then (Conf(Quoted, len), [ValueByte(b)])
    else (Conf(Failed(HPE_STRICT), len), [])
  }

  /** A data byte; the length counts what is still to come. */
  function InBody(len: u64, b: u8): (Conf, seq<Event>) {
    if len <= 1 then (Conf(DataAlmostDone, 0), [BodyByte(b)]) else (Conf(Body, len - 1), [BodyByte(b)])
  }

  function InGeneral(len: u64, b: u8): (Conf, seq<Event>) {
    if TokenChar(b) then (Conf(FieldGeneral, len), [FieldByte(b)])
    else if b == COLON then (Conf(ContentStart, len), [FieldDone])
    else (Conf(FailedInName, len), [])
  }

  /** One more byte of a name of which this prefix was read. */
  function InField(prefix: bytes, len: u64, b: u8): (Conf, seq<Event>) {
    var name := prefix + [Lower(b)];
    if IsSpecial(name) then (Conf(FieldColon(name), len), [FieldByte(b)])
    else if StartsSpecial(name) then (Conf(Field(name), len), [FieldByte(b)])
    else InGeneral(len, b)
  }

  function AtField(len: u64, b: u8): (Conf, seq<Event>) {
    if b == LF || b == COLON then (Conf(Failed(HPE_INVALID_HEADER_TOKEN), len), [])
    else if b == CR then (Conf(HeadersAlmostDone, len), [])
    else InField([], len, b)
  }

  function InContent(len: u64, b: u8): (Conf, seq<Event>) {
    if ContentChar(b) then (Conf(Content, len), [ContentByte(b)])
    else if b == CR then (Conf(ContentCr, len), [])
    else (Conf(Failed(if b == LF then HPE_CR_EXPECTED else HPE_INVALID_HEADER_TOKEN), len), [])
  }

  /** The first byte after the line of a field; a blank would continue it. */
  function AfterField(len: u64, b: u8): (Conf, seq<Event>) {
    if Blank(b) then (Conf(Failed(HPE_INVALID_HEADER_TOKEN), len), [])
    else (AtField(len, b).0, [ContentDone] + AtField(len, b).1)
  }

  function InTrailer(st: State, len: u64, b: u8): (Conf, seq<Event>) {
    match st
    case Field(prefix) => InField(prefix, len, b)
    case FieldColon(name) =>
      if b == COLON then (Conf(Special(name), len), [FieldDone])
      else if b == SPACE then (Conf(Failed(HPE_INVALID_HEADER_TOKEN), len), [])
      else InGeneral(len, b)
    case FieldGeneral => InGeneral(len, b)
    case ContentStart =>
      if Blank(b) then (Conf(ContentStart, len), [])
      else if b == LF then (Conf(Failed(HPE_INVALID_HEADER_TOKEN), len), [])
      else if b == CR then (Conf(EmptyCr, len), [])
      else InContent(len, b)
    case EmptyCr => (Conf(if b == LF then EmptyLine else Failed(HPE_STRICT), len), [])
    case EmptyLine => AfterField(len, b)
    case Content => InContent(len, b)
    case ContentCr => (Conf(if b == LF then ContentLine else Failed(HPE_LF_EXPECTED), len), [])
    case ContentLine => AfterField(len, b)
    case HeadersAlmostDone =>
      if b == LF then (Conf(Complete, len), [ChunkDone, MessageDone]) else (Conf(Failed(HPE_STRICT), len), [])
    case _ => AtField(len, b)
  }

  predicate InTrailerState(st: State) {
    st in {FieldStart, FieldGeneral, ContentStart, EmptyCr, EmptyLine, Content, ContentCr, ContentLine,
           HeadersAlmostDone}
    || st.Field? || st.FieldColon?
  }

  /** Parsing went wrong, or went where the model does not follow. */
  predicate Over(st: State) {
    st.Failed? || st.FailedInName? || st.Special? || st.Complete?
  }

  function Step(c: Conf, b: u8): (Conf, seq<Event>) {
    match c.state
    case SizeDigit =>
      (if HexDigit(b) >= 0 then OnDigit(c.len, HexDigit(b)) else Conf(Failed(HPE_INVALID_CHUNK_SIZE), c.len), [])
    case Size => (if HexDigit(b) >= 0 then OnDigit(c.len, HexDigit(b)) else AfterSize(c.len, b), [])
    case Extensions => if b == CR || b == SPACE then (Conf(Failed(HPE_STRICT), c.len), []) else InName(c.len, b)
    case Name => InName(c.len, b)
    case ValueStart => (InValue(c.len, b).0, [NameDone] + InValue(c.len, b).1)
    case Value => InValue(c.len, b)
    case Quoted => InQuoted(c.len, b)
    case QuotedPair =>
      if Escapable(b) then (Conf(Quoted, c.len), [ValueByte(b)]) else (Conf(Failed(HPE_STRICT), c.len), [])
    case QuotedDone =>
      (if b == LF then Conf(Failed(HPE_CR_EXPECTED), c.len)
       else if b == CR then Conf(AlmostDone, c.len)
       else if b == SEMICOLON then Conf(Extensions, c.len)
       else Conf(Failed(HPE_STRICT), c.len), [])
    case AlmostDone =>
      if b == LF then (Conf(if c.len == 0 then FieldStart else BodyStart, c.len), [Header(c.len)])
      else (Conf(Failed(HPE_STRICT), c.len), [])
    case BodyStart => InBody(c.len, b)
    case Body => InBody(c.len, b)
    case DataAlmostDone =>
      (if b == LF then Conf(Failed(HPE_CR_EXPECTED), c.len)
       else if b == CR then Conf(DataAlmostDone1, c.len)
       else Conf(Failed(HPE_STRICT), c.len), [])
    case DataAlmostDone1 => if b == LF then (START, [ChunkDone]) else (Conf(Failed(HPE_STRICT), c.len), [])
    case Special(_) => (c, [Beyond(b)])
    case Complete => (c, [Beyond(b)])
    case Failed(_) => (c, [])
    case FailedInName => (c, [])
    case _ => InTrailer(c.state, c.len, b)
  }

  lemma LineSteps(len: u64, b: u8)
    ensures Step(Conf(EmptyLine, len), b) == Step(Conf(ContentLine, len), b) == AfterField(len, b)
    ensures Step(Conf(FieldStart, len), b) == AtField(len, b)
  {
  }

  /** Any number of bytes. */
  function Run(c: Conf, s: bytes): (Conf, seq<Event>)
    decreases |s|
  {
    if s == [] then (c, [])
    else
      var (d, es) := Run(c, s[..|s| - 1]);
      (Step(d, s[|s| - 1]).0, es + Step(d, s[|s| - 1]).1)
  }

  lemma {:induction false} RunAppend(c: Conf, s: bytes, t: bytes)
    ensures Run(c, s + t).0 == Run(Run(c, s).0, t).0
    ensures Run(c, s + t).1 == Run(c, s).1 + Run(Run(c, s).0, t).1
    decreases |t|
  {
    hide Step;
    if t == [] {
      assert s + t == s;
    } else {
      var init, last := t[..|t| - 1], t[|t| - 1];
      RunAppend(c, s, init);
      assert (s + t)[..|s + t| - 1] == s + init && (s + t)[|s + t| - 1] == last;
    }
  }

  lemma RunOne(c: Conf, b: u8)
    ensures Run(c, [b]) == Step(c, b)
  {
    hide Step;
    assert [b][..0] == [] && Run(c, []) == (c, []);
    assert [] + Step(c, b).1 == Step(c, b).1;
  }

  lemma {:induction false} FailedStays(c: Conf, s: bytes)
    requires c.state.Failed? || c.state.FailedInName?
    ensures Run(c, s) == (c, [])
    decreases |s|
  {
    if s != [] {
      FailedStays(c, s[..|s| - 1]);
      var none: seq<Event> := [];
      assert none + none == none;
    }
  }

  // The parser.

  datatype Call = OnBody(s: bytes) | OnExtensionName(s: bytes) | OnExtensionValue(s: bytes) | OnChunkHeader(n: u64)
    | OnChunkComplete | OnNameComplete | OnValueComplete | OnHeaderField(s: bytes) | OnHeaderFieldComplete
    | OnHeaderValue(s: bytes) | OnHeaderValueComplete | OnMessageComplete | HandOn(s: bytes)

  datatype Span = BodySpan | NameSpan | ValueSpan | FieldSpan | ContentSpan | NoSpan

  function SpanOf(st: State): Span {
    match st
    case Body => BodySpan
    case Name => NameSpan
    case Value => ValueSpan
    case Quoted => ValueSpan
    case QuotedPair => ValueSpan
    case Field(_) => FieldSpan
    case FieldColon(_) => FieldSpan
    case FieldGeneral => FieldSpan
    case Content => ContentSpan
    case _ => NoSpan
  }

  function BytesOf(k: Span, s: bytes): (es: seq<Event>)
    ensures k != NoSpan ==> |es| == |s|
  {
    match k
    case NoSpan => []
    case BodySpan => seq(|s|, i requires 0 <= i < |s| => BodyByte(s[i]))
    case NameSpan => seq(|s|, i requires 0 <= i < |s| => NameByte(s[i]))
    case ValueSpan => seq(|s|, i requires 0 <= i < |s| => ValueByte(s[i]))
    case FieldSpan => seq(|s|, i requires 0 <= i < |s| => FieldByte(s[i]))
    case ContentSpan => seq(|s|, i requires 0 <= i < |s| => ContentByte(s[i]))
  }

  function Reported(c: Call): seq<Event> {
    match c
    case OnBody(s) => BytesOf(BodySpan, s)
    case OnExtensionName(s) => BytesOf(NameSpan, s)
    case OnExtensionValue(s) => BytesOf(ValueSpan, s)
    case OnChunkHeader(n) => [Header(n)]
    case OnChunkComplete => [ChunkDone]
    case OnNameComplete => [NameDone]
    case OnValueComplete => [ValueDone]
    case OnHeaderField(s) => BytesOf(FieldSpan, s)
    case OnHeaderFieldComplete => [FieldDone]
    case OnHeaderValue(s) => BytesOf(ContentSpan, s)
    case OnHeaderValueComplete => [ContentDone]
    case OnMessageComplete => [MessageDone]
    case HandOn(s) => seq(|s|, i requires 0 <= i < |s| => Beyond(s[i]))
  }

  /** What the callbacks were told, whatever the pieces. */
  function Told(cs: seq<Call>): seq<Event>
    decreases |cs|
  {
    if cs == [] then [] else Told(cs[..|cs| - 1]) + Reported(cs[|cs| - 1])
  }

  lemma ToldSnoc(cs: seq<Call>, c: Call)
    ensures Told(cs + [c]) == Told(cs) + Reported(c)
  {
    assert (cs + [c])[..|cs|] == cs;
  }

  lemma BytesSplit(k: Span, s: bytes, t: bytes)
    ensures BytesOf(k, s + t) == BytesOf(k, s) + BytesOf(k, t)
  {
  }

  lemma {:induction false} BodyRun(c: Conf, s: bytes)
    requires c.state == Body && |s| <= c.len && c.len > 0
    ensures Run(c, s).0 == if |s| < c.len then Conf(Body, c.len - |s|) else Conf(DataAlmostDone, 0)
    ensures Run(c, s).1 == BytesOf(BodySpan, s)
    decreases |s|
  {
    if s != [] {
      var init, last := s[..|s| - 1], s[|s| - 1];
      BodyRun(c, init);
      BytesSplit(BodySpan, init, [last]);
      assert init + [last] == s;
      assert BytesOf(BodySpan, [last]) == [BodyByte(last)];
    }
  }

  lemma {:induction false} BeyondRun(c: Conf, s: bytes)
    requires c.state.Special? || c.state.Complete?
    ensures Run(c, s) == (c, Reported(HandOn(s)))
    decreases |s|
  {
    hide Step;
    if s == [] {
      assert Reported(HandOn(s)) == [];
    } else {
      var init, last := s[..|s| - 1], s[|s| - 1];
      BeyondRun(c, init);
      StaysBeyond(c, last);
      assert Reported(HandOn(s)) == Reported(HandOn(init)) + [Beyond(last)];
    }
  }

  lemma StaysBeyond(c: Conf, b: u8)
    requires c.state.Special? || c.state.Complete?
    ensures Step(c, b) == (c, [Beyond(b)])
  {
  }

  // What an invalid name loses.

  /** The part of a field name that was read last and not reported, when b comes after it. */
  function OpenStep(d: Conf, open: bytes, b: u8): bytes {
    var st := Step(d, b).0.state;
    if SpanOf(st) == FieldSpan then (if SpanOf(d.state) == FieldSpan then open else []) + [b]
    else if st.FailedInName? && (SpanOf(d.state) == FieldSpan || d.state.FailedInName?) then open
    else []
  }

  /** The part of an unfinished field name that lies in s. */
  function OpenName(c: Conf, s: bytes): bytes
    decreases |s|
  {
    if s == [] then []
    else OpenStep(Run(c, s[..|s| - 1]).0, OpenName(c, s[..|s| - 1]), s[|s| - 1])
  }

  /** What is never reported of s: a byte that cannot stand in a name makes the parser forget the part of the name
      that came in the same piece. */
  function Missing(c: Conf, s: bytes): bytes {
    if Run(c, s).0.state.FailedInName? then OpenName(c, s) else []
  }

  lemma OpenSnoc(c: Conf, s: bytes, b: u8)
    ensures OpenName(c, s + [b]) == OpenStep(Run(c, s).0, OpenName(c, s), b)
  {
    hide OpenStep, Run;
    assert (s + [b])[..|s|] == s;
  }

  lemma {:induction false} OpenAfterFailure(c: Conf, s: bytes, t: bytes)
    requires Run(c, s).0.state.FailedInName?
    ensures OpenName(c, s + t) == OpenName(c, s) && Run(c, s + t) == Run(c, s)
    decreases |t|
  {
    hide Run, OpenName, Step, OpenStep;
    if t == [] {
      assert s + t == s;
    } else {
      var init, last := t[..|t| - 1], t[|t| - 1];
      OpenAfterFailure(c, s, init);
      assert s + t == s + init + [last];
      OpenSnoc(c, s + init, last);
      RunAppend(c, s + init, [last]);
      RunOne(Run(c, s).0, last);
      StaysLost(Run(c, s).0, OpenName(c, s), last);
      assert Run(c, s).1 + [] == Run(c, s).1;
    }
  }

  lemma StaysLost(d: Conf, open: bytes, b: u8)
    requires d.state.FailedInName?
    ensures Step(d, b) == (d, []) && OpenStep(d, open, b) == open
  {
  }

  /** The span of a field name starts where the name, or the piece, starts; what is lost is what it held. */
  ghost predicate NameKept(was: State, st: State, lost: bytes, data: bytes, spanWas: nat, spanIs: nat, p: nat)
    requires spanWas <= p < |data|
  {
    var open := SpanOf(was) == FieldSpan;
    && (SpanOf(st) == FieldSpan ==> spanIs == if open then spanWas else p)
    && (st.FailedInName? && !was.FailedInName? ==> lost == if open then data[spanWas..p] else [])
  }

  /** What was lost, and what the open span of a field name holds, is the part of the name in this piece. */
  ghost predicate NameIn(c: Conf, st: State, lost: bytes, data: bytes, spanPos: nat, p: nat)
    requires spanPos <= p <= |data|
  {
    && (SpanOf(st) == FieldSpan ==> OpenName(c, data[..p]) == data[spanPos..p])
    && (st.FailedInName? && p > 0 ==> OpenName(c, data[..p]) == lost)
  }

  lemma NameOn(c: Conf, d: Conf, e: Conf, was: bytes, lost: bytes, data: bytes, spanWas: nat, spanIs: nat, p: nat)
    requires spanWas <= p < |data| && spanIs <= p + 1 && !Over(d.state)
    requires NameIn(c, d.state, was, data, spanWas, p) && NameKept(d.state, e.state, lost, data, spanWas, spanIs, p)
    requires Run(c, data[..p]).0 == d && e == Step(d, data[p]).0
    ensures NameIn(c, e.state, lost, data, spanIs, p + 1)
  {
    hide Run, OpenName, Step;
    assert data[..p + 1] == data[..p] + [data[p]];
    OpenSnoc(c, data[..p], data[p]);
    if SpanOf(e.state) == FieldSpan {
      assert data[spanIs..p + 1] == data[spanIs..p] + [data[p]];
    }
  }

  /** A length is waited for only while it is not zero. */
  predicate Sensible(c: Conf) {
    c.state in {BodyStart, Body} ==> c.len > 0
  }

  class Parser {
    var current: State
    var contentLength: u64
    var spanActive: bool
    var calls: seq<Call>
    ghost var lost: bytes

    ghost function Now(): Conf
      reads this
    {
      Conf(current, contentLength)
    }

    ghost predicate Valid()
      reads this
    {
      Sensible(Now()) && (current.FailedInName? || (spanActive <==> SpanOf(current) != NoSpan))
    }

    constructor ()
      ensures Valid() && Now() == START && calls == []
    {
      current, contentLength, spanActive, calls, lost := SizeDigit, 0, false, [], [];
    }

    /** The bytes of the open span that were not reported yet, or never will be. */
    ghost function Pending(data: bytes, spanPos: nat, p: nat): seq<Event>
      reads `current, `spanActive, `lost
      requires spanPos <= p <= |data|
    {
      if current.FailedInName? then BytesOf(FieldSpan, lost)
      else if spanActive then BytesOf(SpanOf(current), data[spanPos..p])
      else []
    }

    method Report(c: Call)
      modifies `calls
      ensures calls == old(calls) + [c] && Told(calls) == Told(old(calls)) + Reported(c)
    {
      ToldSnoc(calls, c);
      calls := calls + [c];
    }

    /** Calls back with the bytes of the open span. */
    method ReportSpan(s: bytes)
      requires SpanOf(current) != NoSpan
      modifies `calls
      ensures Told(calls) == Told(old(calls)) + BytesOf(SpanOf(current), s)
    {
      var call := if current == Body then OnBody(s) else if current == Name then OnExtensionName(s)
                  else if current == Content then OnHeaderValue(s)
                  else if current.Field? || current.FieldColon? || current == FieldGeneral then OnHeaderField(s)
                  else OnExtensionValue(s);
      Report(call);
    }

    /** Where a byte leads, and everything that is reported or kept for a report. */
    twostate predicate Stepped(data: bytes, spanWas: nat, spanIs: nat, p: nat)
      reads this
      requires spanWas <= p < |data| && spanIs <= p + 1
    {
      && Valid() && Now() == Step(old(Now()), data[p]).0
      && Told(calls) + Pending(data, spanIs, p + 1)
         == old(Told(calls) + Pending(data, spanWas, p)) + Step(old(Now()), data[p]).1
    }

    method VisitName(data: bytes, p: nat, spanPos: nat)
      requires Valid() && current == Name && spanPos <= p < |data|
      modifies this
      ensures Stepped(data, spanPos, spanPos, p) && SpanOf(current) != FieldSpan && !current.FailedInName?
    {
      hide Told, BytesOf;
      var b := data[p];
      if TokenChar(b) {
        assert data[spanPos..p + 1] == data[spanPos..p] + [b];
        BytesSplit(NameSpan, data[spanPos..p], [b]);
        OneByte(b);
        return;
      }
      ReportSpan(data[spanPos..p]);
      spanActive := false;
      if b == LF {
        Report(OnNameComplete);
        current := Failed(HPE_CR_EXPECTED);
      } else if b == CR {
        Report(OnNameComplete);
        current := AlmostDone;
      } else if b == SEMICOLON {
        Report(OnNameComplete);
        current := Extensions;
      } else if b == EQUALS {
        current := ValueStart;
      } else {
        current := Failed(HPE_STRICT);
      }
    }

    method VisitValue(data: bytes, p: nat, spanPos: nat)
      requires Valid() && current == Value && spanPos <= p < |data|
      modifies this
      ensures Stepped(data, spanPos, spanPos, p) && SpanOf(current) != FieldSpan && !current.FailedInName?
    {
      hide Told, BytesOf;
      var b := data[p];
      if TokenChar(b) || b == QUOTE {
        assert data[spanPos..p + 1] == data[spanPos..p] + [b];
        BytesSplit(ValueSpan, data[spanPos..p], [b]);
        OneByte(b);
        if b == QUOTE {
          current := Quoted;
        }
        return;
      }
      ReportSpan(data[spanPos..p]);
      spanActive := false;
      if b == LF {
        Report(OnValueComplete);
        current := Failed(HPE_CR_EXPECTED);
      } else if b == CR {
        Report(OnValueComplete);
        current := AlmostDone;
      } else if b == SEMICOLON {
        Report(OnValueComplete);
        current := Extensions;
      } else {
        current := Failed(HPE_STRICT);
      }
    }

    method VisitQuoted(data: bytes, p: nat, spanPos: nat)
      requires Valid() && current in {Quoted, QuotedPair} && spanPos <= p < |data|
      modifies this
      ensures Stepped(data, spanPos, spanPos, p) && SpanOf(current) != FieldSpan && !current.FailedInName?
    {
      hide Told, BytesOf;
      var b := data[p];
      assert data[spanPos..p + 1] == data[spanPos..p] + [b];
      BytesSplit(ValueSpan, data[spanPos..p], [b]);
      OneByte(b);
      if current == QuotedPair {
        if Escapable(b) {
          current := Quoted;
        } else {
          ReportSpan(data[spanPos..p]);
          spanActive := false;
          current := Failed(HPE_STRICT);
        }
      } else if b == QUOTE {
        ReportSpan(data[spanPos..p + 1]);
        spanActive := false;
        Report(OnValueComplete);
        current := QuotedDone;
      } else if b == BACKSLASH {
        current := QuotedPair;
      } else if !QuotedText(b) {
        ReportSpan(data[spanPos..p]);
        spanActive := false;
        current := Failed(HPE_STRICT);
      }
    }

    /** A state in which no span is open. */
    method VisitPlain(data: bytes, p: nat, spanPos: nat)
      requires Valid() && current in {SizeDigit, Size, QuotedDone, AlmostDone, DataAlmostDone, DataAlmostDone1}
      requires spanPos <= p < |data|
      modifies this
      ensures Stepped(data, spanPos, spanPos, p) && SpanOf(current) == NoSpan && !current.FailedInName?
    {
      hide Told;
      var b := data[p];
      if current == SizeDigit || current == Size {
        VisitSize(b);
      } else if current == QuotedDone {
        current := if b == LF then Failed(HPE_CR_EXPECTED) else if b == CR then AlmostDone
                   else if b == SEMICOLON then Extensions else Failed(HPE_STRICT);
      } else if current == AlmostDone {
        if b == LF {
          Report(OnChunkHeader(contentLength));
          current := if contentLength == 0 then FieldStart else BodyStart;
        } else {
          current := Failed(HPE_STRICT);
        }
      } else if current == DataAlmostDone {
        current := if b == LF then Failed(HPE_CR_EXPECTED) else if b == CR then DataAlmostDone1 else Failed(HPE_STRICT);
      } else if b == LF {
        Report(OnChunkComplete);
        contentLength := 0;
        current := SizeDigit;
      } else {
        current := Failed(HPE_STRICT);
      }
    }

    /** Another digit of the size, or what follows the size. */
    method VisitSize(b: u8)
      requires Valid() && current in {SizeDigit, Size}
      modifies `current, `contentLength
      ensures Valid() && Now() == Step(old(Now()), b).0 && SpanOf(current) == NoSpan && !current.FailedInName?
    {
      var d := HexDigit(b);
      if d >= 0 {
        var sum := MulAdd(contentLength, d);
        if sum.None? {
          current := Failed(HPE_INVALID_CHUNK_SIZE);
        } else {
          current, contentLength := Size, sum.value;
        }
      } else if current == SizeDigit {
        current := Failed(HPE_INVALID_CHUNK_SIZE);
      } else if b == LF {
        current := Failed(HPE_CR_EXPECTED);
      } else if b == CR {
        current := AlmostDone;
      } else if b == SEMICOLON {
        current := Extensions;
      } else {
        current := Failed(HPE_INVALID_CHUNK_SIZE);
      }
    }

    /** One more byte of a field name, as part of the open span. */
    method Extend(data: bytes, p: nat, spanPos: nat, st: State)
      requires Valid() && SpanOf(current) == FieldSpan && SpanOf(st) == FieldSpan && spanPos <= p < |data|
      modifies `current
      ensures Valid() && current == st
      ensures Pending(data, spanPos, p + 1) == old(Pending(data, spanPos, p)) + [FieldByte(data[p])]
    {
      hide BytesOf;
      assert data[spanPos..p + 1] == data[spanPos..p] + [data[p]];
      BytesSplit(FieldSpan, data[spanPos..p], [data[p]]);
      OneByte(data[p]);
      current := st;
    }

    /** A byte that does not go on with a special name. */
    method VisitGeneral(data: bytes, p: nat, spanPos: nat)
      requires Valid() && SpanOf(current) == FieldSpan && spanPos <= p < |data|
      modifies this
      ensures Valid() && Now() == InGeneral(contentLength, data[p]).0 && contentLength == old(contentLength)
      ensures Told(calls) + Pending(data, spanPos, p + 1)
              == old(Told(calls) + Pending(data, spanPos, p)) + InGeneral(contentLength, data[p]).1
      ensures current.FailedInName? ==> lost == data[spanPos..p]
    {
      hide Told, BytesOf;
      var b := data[p];
      if TokenChar(b) {
        Extend(data, p, spanPos, FieldGeneral);
      } else if b == COLON {
        ReportSpan(data[spanPos..p]);
        spanActive := false;
        Report(OnHeaderFieldComplete);
        current := ContentStart;
      } else {
        lost := data[spanPos..p];
        current := FailedInName;
      }
    }

    method VisitField(data: bytes, p: nat, spanPos: nat)
      requires Valid() && SpanOf(current) == FieldSpan && spanPos <= p < |data|
      modifies this
      ensures Stepped(data, spanPos, spanPos, p) && NameKept(old(current), current, lost, data, spanPos, spanPos, p)
    {
      hide Told, BytesOf, InGeneral, IsSpecial, StartsSpecial;
      var b := data[p];
      if current.Field? {
        var name := current.prefix + [Lower(b)];
        if IsSpecial(name) {
          Extend(data, p, spanPos, FieldColon(name));
        } else if StartsSpecial(name) {
          Extend(data, p, spanPos, Field(name));
        } else {
          VisitGeneral(data, p, spanPos);
        }
      } else if current.FieldColon? && b == COLON {
        ReportSpan(data[spanPos..p]);
        spanActive := false;
        Report(OnHeaderFieldComplete);
        current := Special(current.name);
      } else if current.FieldColon? && b == SPACE {
        ReportSpan(data[spanPos..p]);
        spanActive := false;
        current := Failed(HPE_INVALID_HEADER_TOKEN);
      } else {
        VisitGeneral(data, p, spanPos);
      }
    }

    /** The first byte of a field, or of the end of the trailer. */
    method VisitFieldStart(data: bytes, p: nat, spanWas: nat) returns (spanPos: nat)
      requires Valid() && current == FieldStart && spanWas <= p < |data|
      modifies this
      ensures spanPos <= p + 1 && Stepped(data, spanWas, spanPos, p)
      ensures NameKept(old(current), current, lost, data, spanWas, spanPos, p)
    {
      hide Told, BytesOf, InField;
      spanPos := spanWas;
      if data[p] == LF || data[p] == COLON {
        current := Failed(HPE_INVALID_HEADER_TOKEN);
      } else if data[p] == CR {
        current := HeadersAlmostDone;
      } else {
        spanPos, spanActive, current := p, true, Field([]);
        EmptySpan(FieldSpan, data, p);
        VisitField(data, p, p);
      }
    }

    method VisitContent(data: bytes, p: nat, spanPos: nat)
      requires Valid() && current == Content && spanPos <= p < |data|
      modifies this
      ensures Stepped(data, spanPos, spanPos, p) && SpanOf(current) != FieldSpan && !current.FailedInName?
    {
      hide Told, BytesOf;
      var b := data[p];
      if ContentChar(b) {
        assert data[spanPos..p + 1] == data[spanPos..p] + [b];
        BytesSplit(ContentSpan, data[spanPos..p], [b]);
        OneByte(b);
        return;
      }
      ReportSpan(data[spanPos..p]);
      spanActive := false;
      current := if b == CR then ContentCr
                 else Failed(if b == LF then HPE_CR_EXPECTED else HPE_INVALID_HEADER_TOKEN);
    }

    /** The blanks before the content of a field, and its first byte. */
    method VisitContentStart(data: bytes, p: nat, spanWas: nat) returns (spanPos: nat)
      requires Valid() && current == ContentStart && spanWas <= p < |data|
      modifies this
      ensures spanPos <= p + 1 && Stepped(data, spanWas, spanPos, p)
      ensures NameKept(old(current), current, lost, data, spanWas, spanPos, p)
    {
      hide Told, BytesOf, InContent;
      spanPos := spanWas;
      var b := data[p];
      if Blank(b) {
      } else if b == LF {
        current := Failed(HPE_INVALID_HEADER_TOKEN);
      } else if b == CR {
        current := EmptyCr;
      } else {
        spanPos, spanActive, current := p, true, Content;
        EmptySpan(ContentSpan, data, p);
        VisitContent(data, p, p);
      }
    }

    /** Tells that a field is complete. */
    method CompleteField()
      requires Valid() && current in {EmptyLine, ContentLine}
      modifies this
      ensures Valid() && Now() == Conf(FieldStart, old(contentLength)) && !spanActive
      ensures Told(calls) == Told(old(calls)) + [ContentDone]
    {
      hide Told, BytesOf;
      ghost var told := Told(calls);
      if current == EmptyLine {
        Report(OnHeaderValue([]));
        NoBytes(ContentSpan);
        assert told + [] == told;
      }
      Report(OnHeaderValueComplete);
      current := FieldStart;
    }

    /** The first byte after the line of a field. */
    method VisitAfterField(data: bytes, p: nat, spanWas: nat) returns (spanPos: nat)
      requires Valid() && current in {EmptyLine, ContentLine} && spanWas <= p < |data|
      modifies this
      ensures spanPos <= p + 1 && Stepped(data, spanWas, spanPos, p)
      ensures NameKept(old(current), current, lost, data, spanWas, spanPos, p)
    {
      hide Told, BytesOf, AtField, Step;
      spanPos := spanWas;
      ghost var c, told := Now(), Told(calls);
      LineSteps(contentLength, data[p]);
      assert told + [] == told;
      if Blank(data[p]) {
        current := Failed(HPE_INVALID_HEADER_TOKEN);
        return;
      }
      CompleteField();
      assert Told(calls) + [] == Told(calls);
      spanPos := VisitFieldStart(data, p, spanWas);
      Regroup(told, [ContentDone], AtField(c.len, data[p]).1);
    }

    /** A state of the trailer in which one byte decides and no span is open. */
    method VisitLine(data: bytes, p: nat, spanPos: nat)
      requires Valid() && current in {EmptyCr, ContentCr, HeadersAlmostDone} && spanPos <= p < |data|
      modifies this
      ensures Stepped(data, spanPos, spanPos, p) && SpanOf(current) == NoSpan && !current.FailedInName?
    {
      hide Told;
      var b := data[p];
      if current == EmptyCr {
        current := if b == LF then EmptyLine else Failed(HPE_STRICT);
      } else if current == ContentCr {
        current := if b == LF then ContentLine else Failed(HPE_LF_EXPECTED);
      } else if b == LF {
        Report(OnChunkComplete);
        Report(OnMessageComplete);
        current := Complete;
      } else {
        current := Failed(HPE_STRICT);
      }
    }

    /** One byte of the trailer. */
    method VisitTrailer(data: bytes, p: nat, spanWas: nat) returns (spanPos: nat)
      requires Valid() && InTrailerState(current) && spanWas <= p < |data|
      modifies this
      ensures spanPos <= p + 1 && Stepped(data, spanWas, spanPos, p)
      ensures NameKept(old(current), current, lost, data, spanWas, spanPos, p)
    {
      hide Step, Told, BytesOf;
      spanPos := spanWas;
      if current == FieldStart {
        spanPos := VisitFieldStart(data, p, spanPos);
      } else if current.Field? || current.FieldColon? || current == FieldGeneral {
        VisitField(data, p, spanPos);
      } else if current == ContentStart {
        spanPos := VisitContentStart(data, p, spanPos);
      } else if current == Content {
        VisitContent(data, p, spanPos);
      } else if current == EmptyLine || current == ContentLine {
        spanPos := VisitAfterField(data, p, spanPos);
      } else {
        VisitLine(data, p, spanPos);
      }
    }

    /** One byte outside the data. */
    method Visit(data: bytes, p: nat, spanWas: nat) returns (spanPos: nat)
      requires Valid() && current !in {BodyStart, Body} && !Over(current) && spanWas <= p < |data|
      modifies this
      ensures spanPos <= p + 1 && Stepped(data, spanWas, spanPos, p)
      ensures NameKept(old(current), current, lost, data, spanWas, spanPos, p)
    {
      hide Told, BytesOf, InName, InValue, InTrailer;
      spanPos := spanWas;
      if InTrailerState(current) {
        spanPos := VisitTrailer(data, p, spanPos);
      } else if current == Extensions {
        if data[p] == CR || data[p] == SPACE {
          current := Failed(HPE_STRICT);
        } else {
          spanPos, spanActive, current := p, true, Name;
          EmptySpan(NameSpan, data, p);
          VisitName(data, p, p);
        }
      } else if current == Name {
        VisitName(data, p, spanPos);
      } else if current == ValueStart {
        spanPos, spanActive, current := p, true, Value;
        EmptySpan(ValueSpan, data, p);
        Report(OnNameComplete);
        VisitValue(data, p, p);
      } else if current == Value {
        VisitValue(data, p, spanPos);
      } else if current == Quoted || current == QuotedPair {
        VisitQuoted(data, p, spanPos);
      } else {
        VisitPlain(data, p, spanPos);
      }
    }

    /** As much of the data as there is. */
    method VisitBody(data: bytes, p: nat, spanWas: nat) returns (q: nat, spanPos: nat)
      requires Valid() && current in {BodyStart, Body} && spanWas <= p < |data|
      modifies this
      ensures p < q <= |data| && spanPos <= q && Valid() && Now() == Run(old(Now()), data[p..q]).0
      ensures Told(calls) + Pending(data, spanPos, q)
              == old(Told(calls) + Pending(data, spanWas, p)) + Run(old(Now()), data[p..q]).1
      ensures SpanOf(current) != FieldSpan && !current.FailedInName?
    {
      hide Told, BytesOf, Run;
      spanPos := spanWas;
      ghost var c := Now();
      if current == BodyStart {
        spanPos, spanActive, current := p, true, Body;
        EmptySpan(BodySpan, data, p);
      }
      var avail := |data| - p;
      q := if avail >= contentLength then p + contentLength else |data|;
      BodyPiece(c, contentLength, data, spanPos, p, q);
      if avail >= contentLength {
        contentLength := 0;
        ReportSpan(data[spanPos..q]);
        spanActive := false;
        current := DataAlmostDone;
      } else {
        contentLength := contentLength - avail;
      }
    }

    /** Reads on until the piece is used up or parsing fails. */
    method Consume(data: bytes) returns (p: nat, spanPos: nat)
      requires Valid() && !current.Failed? && !current.FailedInName?
      modifies this
      ensures spanPos <= p <= |data| && Valid() && Now() == Run(old(Now()), data[..p]).0
      ensures Told(calls) + Pending(data, spanPos, p) == old(Told(calls)) + Run(old(Now()), data[..p]).1
      ensures NameIn(old(Now()), current, lost, data, spanPos, p) && (current.FailedInName? ==> p > 0)
      ensures current.Failed? || current.FailedInName? || p == |data|
    {
      hide Told, BytesOf, Run, Step, Reported, OpenName;
      ghost var c, told := Now(), Told(calls);
      RunNothing(c);
      assert data[..0] == [] && told + [] == told;
      EmptySpan(SpanOf(current), data, 0);
      NoOpenName(c);
      p, spanPos := 0, 0;
      while p < |data| && !current.Failed? && !current.FailedInName?
        invariant spanPos <= p <= |data| && Valid() && Now() == Run(c, data[..p]).0
        invariant Told(calls) + Pending(data, spanPos, p) == told + Run(c, data[..p]).1
        invariant p == 0 ==> SpanOf(current) == FieldSpan || !current.FailedInName?
        invariant NameIn(c, current, lost, data, spanPos, p) && (current.FailedInName? ==> p > 0)
        decreases |data| - p
      {
        ghost var was := p;
        if Over(current) {
          BeyondRun(Now(), data[p..]);
          Report(HandOn(data[p..]));
          assert data[p..|data|] == data[p..];
          p := |data|;
        } else if current == BodyStart || current == Body {
          p, spanPos := VisitBody(data, p, spanPos);
        } else {
          p, spanPos := VisitOne(c, data, p, spanPos);
        }
        RunAppend(c, data[..was], data[was..p]);
        assert data[..was] + data[was..p] == data[..p];
        Regroup(told, Run(c, data[..was]).1, Run(Run(c, data[..was]).0, data[was..p]).1);
      }
    }

    /** One byte, with what it does to an open name. */
    method VisitOne(ghost c: Conf, data: bytes, p: nat, spanWas: nat) returns (q: nat, spanPos: nat)
      requires Valid() && current !in {BodyStart, Body} && !Over(current) && spanWas <= p < |data|
      requires Now() == Run(c, data[..p]).0 && NameIn(c, current, lost, data, spanWas, p)
      modifies this
      ensures q == p + 1 && spanPos <= q && Valid() && Now() == Run(old(Now()), data[p..q]).0
      ensures Told(calls) + Pending(data, spanPos, q)
              == old(Told(calls) + Pending(data, spanWas, p)) + Run(old(Now()), data[p..q]).1
      ensures NameIn(c, current, lost, data, spanPos, q)
    {
      hide Told, BytesOf, Run, Step, Reported, OpenName, NameIn;
      ghost var d, was := Now(), lost;
      RunOne(d, data[p]);
      assert data[p..p + 1] == [data[p]];
      spanPos := Visit(data, p, spanWas);
      NameOn(c, d, Now(), was, lost, data, spanWas, spanPos, p);
      q := p + 1;
    }

    /** Feeds a piece of the input; an open span is reported up to its end. */
    method Execute(data: bytes) returns (err: nat)
      requires Valid()
      modifies this
      ensures Valid() && Now() == Run(old(Now()), data).0
      ensures Told(calls) + BytesOf(FieldSpan, Missing(old(Now()), data))
              == Told(old(calls)) + Run(old(Now()), data).1
      ensures err == if current.FailedInName? then HPE_INVALID_HEADER_TOKEN
                     else if current.Failed? then current.code else 0
    {
      hide Told, BytesOf, Run, Step, Reported, OpenName;
      ghost var c, told := Now(), Told(calls);
      EmptySpan(FieldSpan, data, 0);
      assert data[0..0] == [];
      if current.Failed? || current.FailedInName? {
        FailedStays(c, data);
        NothingMissing(c, data);
        return if current.Failed? then current.code else HPE_INVALID_HEADER_TOKEN;
      }
      var p, spanPos := Consume(data);
      assert data[..p] + data[p..] == data;
      RunAppend(c, data[..p], data[p..]);
      if current.Failed? || current.FailedInName? {
        FailedStays(Now(), data[p..]);
        assert Run(c, data[..p]).1 + [] == Run(c, data[..p]).1;
        if current.FailedInName? {
          OpenAfterFailure(c, data[..p], data[p..]);
        }
        return if current.Failed? then current.code else HPE_INVALID_HEADER_TOKEN;
      }
      assert data[..p] == data;
      if spanActive {
        ReportSpan(data[spanPos..]);
        assert data[spanPos..p] == data[spanPos..];
      }
      err := 0;
    }

    /** The state depends on the input only, not on the pieces it came in, and so do the reports, but for a name that
        turns out to be invalid. */
    method ExecuteAll(pieces: seq<bytes>) returns (err: nat)
      requires Valid()
      modifies this
      ensures Valid() && Now() == Run(old(Now()), Concat(pieces)).0
      ensures !current.Failed? && !current.FailedInName? ==> err == 0
      ensures Told(calls) + BytesOf(FieldSpan, MissingAll(old(Now()), pieces))
              == Told(old(calls)) + Run(old(Now()), Concat(pieces)).1
    {
      hide Told, Run, Step, BytesOf, Missing;
      err := 0;
      ghost var c, told := Now(), Told(calls);
      RunNothing(c);
      NoBytes(FieldSpan);
      assert pieces[..0] == [] && told + [] == told;
      for i := 0 to |pieces|
        invariant Valid() && Now() == Run(c, Concat(pieces[..i])).0
        invariant !current.Failed? && !current.FailedInName? ==> err == 0
        invariant Told(calls) + BytesOf(FieldSpan, MissingAll(c, pieces[..i])) == told + Run(c, Concat(pieces[..i])).1
      {
        ghost var before, was := Told(calls), Now();
        err := Execute(pieces[i]);
        assert pieces[..i + 1][..i] == pieces[..i];
        RunAppend(c, Concat(pieces[..i]), pieces[i]);
        OnePieceMore(c, pieces, i, told, before, Told(calls));
      }
      assert pieces[..|pieces|] == pieces;
    }
  }

  /** What is never reported, when the input comes in these pieces. */
  function MissingAll(c: Conf, pieces: seq<bytes>): bytes
    decreases |pieces|
  {
    if pieces == [] then []
    else
      var init := pieces[..|pieces| - 1];
      MissingAll(c, init) + Missing(Run(c, Concat(init)).0, pieces[|pieces| - 1])
  }

  lemma OnePieceMore(c: Conf, pieces: seq<bytes>, i: nat, told: seq<Event>, before: seq<Event>, after: seq<Event>)
    requires i < |pieces|
    requires before + BytesOf(FieldSpan, MissingAll(c, pieces[..i])) == told + Run(c, Concat(pieces[..i])).1
    requires var d := Run(c, Concat(pieces[..i])).0;
             after + BytesOf(FieldSpan, Missing(d, pieces[i])) == before + Run(d, pieces[i]).1
    ensures after + BytesOf(FieldSpan, MissingAll(c, pieces[..i + 1])) == told + Run(c, Concat(pieces[..i + 1])).1
  {
    hide Run, BytesOf, Missing;
    var d := Run(c, Concat(pieces[..i])).0;
    assert pieces[..i + 1][..i] == pieces[..i];
    RunAppend(c, Concat(pieces[..i]), pieces[i]);
    MissingOnce(c, pieces[..i]);
    var lost := MissingAll(c, pieces[..i]);
    NoBytes(FieldSpan);
    if lost == [] {
      assert [] + Missing(d, pieces[i]) == Missing(d, pieces[i]);
      assert before + [] == before;
      Regroup(told, Run(c, Concat(pieces[..i])).1, Run(d, pieces[i]).1);
    } else {
      FailedStays(d, pieces[i]);
      NothingMissing(d, pieces[i]);
      assert after + [] == after && before + [] == before && lost + [] == lost;
      assert Run(c, Concat(pieces[..i])).1 + [] == Run(c, Concat(pieces[..i])).1;
    }
  }

  /** Only the piece in which a name turns out to be invalid loses anything. */
  lemma {:induction false} MissingOnce(c: Conf, pieces: seq<bytes>)
    ensures MissingAll(c, pieces) != [] ==> Run(c, Concat(pieces)).0.state.FailedInName?
    decreases |pieces|
  {
    hide Run, Step, OpenName;
    if pieces != [] {
      var init, last := pieces[..|pieces| - 1], pieces[|pieces| - 1];
      MissingOnce(c, init);
      RunAppend(c, Concat(init), last);
      if MissingAll(c, init) != [] {
        FailedStays(Run(c, Concat(init)).0, last);
      }
    }
  }

  lemma NoOpenName(c: Conf)
    ensures OpenName(c, []) == []
  {
  }

  lemma {:induction false} NothingMissing(c: Conf, s: bytes)
    requires c.state.Failed? || c.state.FailedInName?
    ensures Missing(c, s) == []
    decreases |s|
  {
    hide Run, Step;
    FailedStays(c, s);
    if s != [] {
      var init := s[..|s| - 1];
      FailedStays(c, init);
      NothingMissing(c, init);
      RunOne(c, s[|s| - 1]);
      FailedStays(c, [s[|s| - 1]]);
    }
  }

  lemma NoBytes(k: Span)
    ensures BytesOf(k, []) == []
  {
  }

  function Concat(pieces: seq<bytes>): bytes
    decreases |pieces|
  {
    if pieces == [] then [] else Concat(pieces[..|pieces| - 1]) + pieces[|pieces| - 1]
  }

  lemma RunNothing(c: Conf)
    ensures Run(c, []) == (c, [])
  {
  }

  lemma Regroup(a: seq<Event>, b: seq<Event>, c: seq<Event>)
    ensures a + b + c == a + (b + c)
  {
  }

  lemma StartIsBody(c: Conf, s: bytes)
    requires c.state in {BodyStart, Body} && s != []
    ensures Run(c, s) == Run(Conf(Body, c.len), s)
  {
    hide Run;
    RunAppend(c, s[..1], s[1..]);
    RunAppend(Conf(Body, c.len), s[..1], s[1..]);
    assert s[..1] + s[1..] == s && s[..1] == [s[0]];
    RunOne(c, s[0]);
    RunOne(Conf(Body, c.len), s[0]);
  }

  lemma BodyPiece(c: Conf, len: u64, data: bytes, o: nat, p: nat, q: nat)
    requires c.state in {BodyStart, Body} && c.len == len && o <= p < q <= |data| && q - p <= len
    ensures Run(c, data[p..q]).0 == if q - p < len then Conf(Body, len - (q - p)) else Conf(DataAlmostDone, 0)
    ensures BytesOf(BodySpan, data[o..q]) == BytesOf(BodySpan, data[o..p]) + Run(c, data[p..q]).1
  {
    hide BytesOf, Run;
    StartIsBody(c, data[p..q]);
    BodyRun(Conf(Body, len), data[p..q]);
    Slices(data, o, p, q);
    BytesSplit(BodySpan, data[o..p], data[p..q]);
  }

  lemma EmptySpan(k: Span, data: bytes, p: nat)
    requires p <= |data|
    ensures BytesOf(k, data[p..p]) == []
  {
  }

  lemma OneByte(b: u8)
    ensures BytesOf(NameSpan, [b]) == [NameByte(b)] && BytesOf(ValueSpan, [b]) == [ValueByte(b)]
    ensures BytesOf(BodySpan, [b]) == [BodyByte(b)]
    ensures BytesOf(FieldSpan, [b]) == [FieldByte(b)] && BytesOf(ContentSpan, [b]) == [ContentByte(b)]
  {
  }

  // When the reports do not depend on the cuts.

  lemma {:induction false} OpenGrows(c: Conf, s: bytes, t: bytes)
    ensures |OpenName(Run(c, s).0, t)| <= |OpenName(c, s + t)|
    decreases |t|
  {
    hide Run, Step;
    if t != [] {
      var init, last := t[..|t| - 1], t[|t| - 1];
      OpenGrows(c, s, init);
      RunAppend(c, s, init);
      assert s + t == s + init + [last] && t == init + [last];
      OpenSnoc(c, s + init, last);
      OpenSnoc(Run(c, s).0, init, last);
    }
  }

  /** Cutting never loses more. */
  lemma {:induction false} CutsLoseLess(c: Conf, pieces: seq<bytes>)
    ensures |MissingAll(c, pieces)| <= |Missing(c, Concat(pieces))|
    decreases |pieces|
  {
    hide Run, OpenName;
    if pieces != [] {
      var init, last := pieces[..|pieces| - 1], pieces[|pieces| - 1];
      var d := Run(c, Concat(init)).0;
      CutsLoseLess(c, init);
      MissingOnce(c, init);
      RunAppend(c, Concat(init), last);
      OpenGrows(c, Concat(init), last);
      if d.state.FailedInName? {
        NothingMissing(d, last);
        OpenAfterFailure(c, Concat(init), last);
      }
    }
  }

  function Singles(s: bytes): seq<bytes> {
    seq(|s|, i requires 0 <= i < |s| => [s[i]])
  }

  lemma {:induction false} SinglesLoseNothing(c: Conf, s: bytes)
    ensures Concat(Singles(s)) == s && MissingAll(c, Singles(s)) == []
    decreases |s|
  {
    hide Run, Step, Missing;
    if s != [] {
      var init, last := s[..|s| - 1], s[|s| - 1];
      SinglesLoseNothing(c, init);
      assert Singles(s)[..|s| - 1] == Singles(init);
      OneLosesNothing(Run(c, init).0, last);
    }
  }

  lemma OneLosesNothing(d: Conf, b: u8)
    ensures Missing(d, [b]) == []
  {
    hide Run, Step;
    RunOne(d, b);
    RunNothing(d);
    NoOpenName(d);
    assert [] + [b] == [b];
    OpenSnoc(d, [], b);
  }

  lemma OnePiece(c: Conf, s: bytes)
    ensures Concat([s]) == s && MissingAll(c, [s]) == Missing(c, s)
  {
    hide Run, Missing;
    RunNothing(c);
    assert [s][..0] == [] && [] + s == s && Concat([]) == [] && MissingAll(c, []) == [];
    assert [] + Missing(c, s) == Missing(c, s);
  }

  /** A byte that neither goes on with the field name that is being read nor ends it; a space after a special name
      ends it, with an error. */
  predicate BreaksName(st: State, b: u8) {
    SpanOf(st) == FieldSpan && !TokenChar(b) && b != COLON && !(st.FieldColon? && b == SPACE)
  }

  /** Such a byte stands in s, with some of the name before it. */
  ghost predicate NameBroken(c: Conf, s: bytes) {
    exists k :: 0 < k < |s| && BreaksName(Run(c, s[..k]).0.state, s[k])
  }

  lemma BreaksExactly(d: Conf, b: u8)
    requires SpanOf(d.state) == FieldSpan
    ensures Step(d, b).0.state.FailedInName? <==> BreaksName(d.state, b)
  {
    hide IsSpecial, StartsSpecial;
    if d.state.Field? {
      var name := d.state.prefix + [Lower(b)];
      if IsSpecial(name) || StartsSpecial(name) {
        SpecialToken(d.state.prefix, b);
      }
    }
  }

  /** Special names consist of bytes that may stand in a name. */
  lemma SpecialToken(prefix: bytes, b: u8)
    requires var name := prefix + [Lower(b)]; IsSpecial(name) || StartsSpecial(name)
    ensures TokenChar(b)
  {
    var name := prefix + [Lower(b)];
    var k :| 0 <= k < |SPECIAL| && name <= Ascii(SPECIAL[k]);
    assert name[|prefix|] == Lower(b) == Ascii(SPECIAL[k])[|prefix|];
    SpecialChars(k, |prefix|);
  }

  lemma SpecialChars(k: nat, i: nat)
    requires k < |SPECIAL| && i < |SPECIAL[k]|
    ensures var c := Ascii(SPECIAL[k])[i]; c == 45 || 97 <= c <= 122
  {
    assert SPECIAL[k][i] == '-' || 'a' <= SPECIAL[k][i] <= 'z';
  }

  lemma OpenNotEmpty(c: Conf, s: bytes)
    requires s != [] && SpanOf(Run(c, s).0.state) == FieldSpan
    ensures OpenName(c, s) != []
  {
    hide Step;
  }

  lemma BrokenSnoc(c: Conf, s: bytes, b: u8)
    ensures NameBroken(c, s + [b]) <==> NameBroken(c, s) || (s != [] && BreaksName(Run(c, s).0.state, b))
  {
    hide Run, BreaksName;
    var all := s + [b];
    assert all[..|s|] == s && all[|s|] == b;
    forall k | 0 < k < |s| ensures all[..k] == s[..k] && all[k] == s[k] {
    }
    if s != [] && BreaksName(Run(c, s).0.state, b) {
      assert BreaksName(Run(c, all[..|s|]).0.state, all[|s|]);
    }
    if NameBroken(c, s) {
      var k :| 0 < k < |s| && BreaksName(Run(c, s[..k]).0.state, s[k]);
      assert BreaksName(Run(c, all[..k]).0.state, all[k]);
    }
    if NameBroken(c, all) {
      var k :| 0 < k < |all| && BreaksName(Run(c, all[..k]).0.state, all[k]);
      assert k == |s| || BreaksName(Run(c, s[..k]).0.state, s[k]);
    }
  }

  /** Something goes unreported exactly when a name that was begun is broken. */
  lemma {:induction false} MissingIfBroken(c: Conf, s: bytes)
    ensures Missing(c, s) != [] <==> NameBroken(c, s)
    decreases |s|
  {
    hide Step, Run, OpenName, BreaksName, NameBroken;
    if s == [] {
      RunNothing(c);
      NoOpenName(c);
      assert !NameBroken(c, s) by {
        Unbroken(c);
      }
    } else {
      var init, last := s[..|s| - 1], s[|s| - 1];
      var d := Run(c, init).0;
      assert init + [last] == s;
      MissingIfBroken(c, init);
      BrokenSnoc(c, init, last);
      RunAppend(c, init, [last]);
      RunOne(d, last);
      OpenSnoc(c, init, last);
      LastBreaks(c, init, last);
    }
  }

  lemma Unbroken(c: Conf)
    ensures !NameBroken(c, [])
  {
  }

  lemma LastBreaks(c: Conf, s: bytes, b: u8)
    ensures var d := Run(c, s).0;
            var open := if Step(d, b).0.state.FailedInName? then OpenStep(d, OpenName(c, s), b) else [];
            open != [] <==> Missing(c, s) != [] || (s != [] && BreaksName(d.state, b))
  {
    hide Step, Run, OpenName, BreaksName;
    var d := Run(c, s).0;
    if d.state.FailedInName? {
      StaysLost(d, OpenName(c, s), b);
      NotOpen(d.state, b);
    } else if SpanOf(d.state) == FieldSpan {
      BreaksExactly(d, b);
      NoOpenName(c);
      if s != [] {
        OpenNotEmpty(c, s);
      }
    } else {
      NotOpen(d.state, b);
    }
  }

  lemma NotOpen(st: State, b: u8)
    requires SpanOf(st) != FieldSpan
    ensures !BreaksName(st, b)
  {
  }

  /** All ways to cut the input give the same reports exactly when nowhere in it a field name that was begun meets a
      byte that neither goes on with it nor ends it. */
  lemma CutsMatter(c: Conf, s: bytes)
    ensures (forall p, q :: Concat(p) == s && Concat(q) == s ==> MissingAll(c, p) == MissingAll(c, q))
            <==> !NameBroken(c, s)
  {
    hide Missing, MissingAll, Concat, NameBroken;
    OnePiece(c, s);
    SinglesLoseNothing(c, s);
    MissingIfBroken(c, s);
    if Missing(c, s) == [] {
      forall p, q | Concat(p) == s && Concat(q) == s ensures MissingAll(c, p) == MissingAll(c, q) {
        CutsLoseLess(c, p);
        CutsLoseLess(c, q);
      }
    }
  }

  /** "a(" is such an input: in one piece the parser fails without a word of the name. */
  lemma NameForgotten()
    ensures Missing(Conf(FieldStart, 0), [97, 40]) == [97]
    ensures MissingAll(Conf(FieldStart, 0), [[97], [40]]) == []
  {
    hide Run, Step, OpenName, MissingAll, Singles, Concat;
    var c := Conf(FieldStart, 0);
    NameOfA();
    Twice(c, 97, 40);
    SinglesLoseNothing(c, [97, 40]);
    assert Singles([97, 40]) == [[97], [40]] by {
      TwoSingles(97, 40);
    }
  }

  lemma TwoSingles(a: u8, b: u8)
    ensures Singles([a, b]) == [[a], [b]]
  {
  }

  lemma NameOfA()
    ensures var d := Conf(FieldGeneral, 0);
            Step(Conf(FieldStart, 0), 97) == (d, [FieldByte(97)]) && Step(d, 40) == (Conf(FailedInName, 0), [])
  {
    hide IsSpecial, StartsSpecial;
    NotSpecial(97);
    var none: bytes := [];
    assert none + [Lower(97)] == [97];
  }

  lemma Twice(c: Conf, a: u8, b: u8)
    ensures Run(c, [a, b]).0 == Step(Step(c, a).0, b).0
    ensures OpenName(c, [a, b]) == OpenStep(Step(c, a).0, OpenStep(c, [], a), b)
  {
    hide Step, OpenStep, Run, OpenName;
    RunOne(c, a);
    RunNothing(c);
    NoOpenName(c);
    assert [a, b] == [a] + [b] && [a] == [] + [a];
    RunAppend(c, [a], [b]);
    RunOne(Step(c, a).0, b);
    OpenSnoc(c, [], a);
    OpenSnoc(c, [a], b);
  }

  /** No special name starts with an "a". */
  lemma NotSpecial(a: u8)
    requires a == 97
    ensures !IsSpecial([a]) && !StartsSpecial([a])
  {
    forall k | 0 <= k < |SPECIAL| ensures !([a] <= Ascii(SPECIAL[k])) {
      assert SPECIAL[k][0] in {'c', 'p', 't', 'u'};
      assert Ascii(SPECIAL[k])[0] == SPECIAL[k][0] as int;
    }
  }
}
