/**
  The other side of the SFTP protocol (version 3): how a client writes its requests and reads the replies.  Numbers and
  letters are written out here, so that the server has to agree with them.
 */
module SftpClient {
  import opened Machine
  import opened Options
  import opened Protocol
  import opened Codec
  import opened SftpTable
  import opened SftpProtocol
  import SftpPath
  import PathLaws

  // Reading attributes and listings.

  datatype Attributes = Attributes(flags: u32, size: Option<u64>, owner: Option<(u32, u32)>, mode: Option<u32>,
                                   times: Option<(u32, u32)>, extensions: seq<(bytes, bytes)>)

  datatype Shown = Shown(name: bytes, longname: bytes, attributes: Attributes)

  function ReadPair(s: bytes, c: Cursor): ((u32, u32), Cursor) {
    var (a, d) := TakeU32(s, c);
    var (b, e) := TakeU32(s, d);
    ((a, b), e)
  }

  function ReadExtensions(s: bytes, c: Cursor, n: nat): (seq<(bytes, bytes)>, Cursor)
    decreases n
  {
    if n == 0 || c.bad then ([], c)
    else
      var (k, d) := TakeString(s, c);
      var (v, e) := TakeString(s, d);
      var (rest, end) := ReadExtensions(s, e, n - 1);
      ([(k, v)] + rest, end)
  }

  function MaybeU64(there: bool, s: bytes, c: Cursor): (Option<u64>, Cursor) {
    if there then (Some(TakeU64(s, c).0), TakeU64(s, c).1) else (None, c)
  }

  function MaybeU32(there: bool, s: bytes, c: Cursor): (Option<u32>, Cursor) {
    if there then (Some(TakeU32(s, c).0), TakeU32(s, c).1) else (None, c)
  }

  function MaybePair(there: bool, s: bytes, c: Cursor): (Option<(u32, u32)>, Cursor) {
    if there then (Some(ReadPair(s, c).0), ReadPair(s, c).1) else (None, c)
  }

  function MaybeExtensions(there: bool, s: bytes, c: Cursor): (seq<(bytes, bytes)>, Cursor) {
    if there then ReadExtensions(s, TakeU32(s, c).1, TakeU32(s, c).0) else ([], c)
  }

  /** The fields that the flags announce (section 5 of the SFTP draft). */
  function ReadAttributes(s: bytes, c: Cursor): (Attributes, Cursor) {
    var (flags, c0) := TakeU32(s, c);
    var (size, c1) := MaybeU64(Flag(flags, 1), s, c0);
    var (owner, c2) := MaybePair(Flag(flags, 2), s, c1);
    var (mode, c3) := MaybeU32(Flag(flags, 4), s, c2);
    var (times, c4) := MaybePair(Flag(flags, 8), s, c3);
    var (more, c5) := MaybeExtensions(Flag(flags, 0x8000_0000), s, c4);
    (Attributes(flags, size, owner, mode, times, more), c5)
  }

  function ReadEntry(s: bytes, c: Cursor): (Shown, Cursor) {
    var (name, d) := TakeString(s, c);
    var (longname, e) := TakeString(s, d);
    var (a, end) := ReadAttributes(s, e);
    (Shown(name, longname, a), end)
  }

  /** As many entries as the count says. */
  function ReadEntries(s: bytes, c: Cursor, n: nat): (seq<Shown>, Cursor)
    decreases n
  {
    if n == 0 then ([], c)
    else
      var (xs, d) := ReadEntries(s, c, n - 1);
      var (x, e) := ReadEntry(s, d);
      (xs + [x], e)
  }

  datatype Listing = Listing(kind: u8, id: u32, entries: seq<Shown>)

  function ReadListing(s: bytes): (Listing, Cursor) {
    var (kind, c) := TakeU8(s, Cursor(0, false));
    var (id, d) := TakeU32(s, c);
    var (count, e) := TakeU32(s, d);
    var (entries, end) := ReadEntries(s, e, count);
    (Listing(kind, id, entries), end)
  }

  function AllShown(w: World, es: seq<Entry>): seq<Shown>
    decreases |es|
  {
    if es == [] then [] else AllShown(w, es[..|es| - 1]) + [ShownOf(w, es[|es| - 1])]
  }

  // Attributes.

  function PairFields(xs: seq<(bytes, bytes)>): seq<Field>
    decreases |xs|
  {
    if xs == [] then [] else [Str(xs[0].0), Str(xs[0].1)] + PairFields(xs[1..])
  }

  function SizeFields(o: Option<u64>): (fs: seq<Field>)
    ensures AllStorable(fs)
  {
    if o.Some? then [U64(o.value)] else []
  }

  function ModeFields(o: Option<u32>): (fs: seq<Field>)
    ensures AllStorable(fs)
  {
    if o.Some? then [U32(o.value)] else []
  }

  function TwoFields(o: Option<(u32, u32)>): (fs: seq<Field>)
    ensures AllStorable(fs)
  {
    if o.Some? then [U32(o.value.0), U32(o.value.1)] else []
  }

  function MoreFields(there: bool, xs: seq<(bytes, bytes)>): seq<Field>
    requires |xs| < TWO_32
  {
    if there then [U32(|xs|)] + PairFields(xs) else []
  }

  /** The flags say which fields there are, and everything can be written. */
  ghost predicate Coherent(a: Attributes) {
    && (Flag(a.flags, 1) <==> a.size.Some?) && (Flag(a.flags, 2) <==> a.owner.Some?)
    && (Flag(a.flags, 4) <==> a.mode.Some?) && (Flag(a.flags, 8) <==> a.times.Some?)
    && (!Flag(a.flags, 0x8000_0000) ==> a.extensions == [])
    && |a.extensions| < TWO_32 && AllStorable(PairFields(a.extensions))
  }

  function AttributeFields(a: Attributes): seq<Field>
    requires |a.extensions| < TWO_32
  {
    [U32(a.flags)] + SizeFields(a.size) + TwoFields(a.owner) + ModeFields(a.mode) + TwoFields(a.times)
    + MoreFields(Flag(a.flags, 0x8000_0000), a.extensions)
  }

  lemma {:induction false} PairsReadBack(xs: seq<(bytes, bytes)>, before: bytes, after: bytes)
    requires AllStorable(PairFields(xs))
    ensures var e := EncodeAll(PairFields(xs));
            ReadExtensions(before + e + after, Cursor(|before|, false), |xs|) == (xs, Cursor(|before| + |e|, false))
    decreases |xs|
  {
    hide TakeString, EncodeAll, Encode;
    if xs == [] {
      EncodeNothing();
    } else {
      var k, v, rest := Str(xs[0].0), Str(xs[0].1), PairFields(xs[1..]);
      var all := PairFields(xs);
      assert all[0] == k && all[1] == v && all[2..] == rest && all == [k, v] + rest;
      assert forall i :: 0 <= i < |rest| ==> rest[i] == all[i + 2];
      EncodeNothing();
      EncodeSnoc([], k);
      EncodeSnoc([k], v);
      assert [] + [k] == [k] && [k] + [v] == [k, v];
      EncodeAppend([k, v], rest);
      var x, y, z := Encode(k), Encode(v), EncodeAll(rest);
      assert EncodeAll(all) == x + y + z;
      PairsReadBack(xs[1..], before + x + y, after);
      TakeStr(xs[0].0, before, y + z + after);
      TakeStr(xs[0].1, before + x, z + after);
      FiveParts(before, x, y, z, after);
      assert [xs[0]] + xs[1..] == xs;
    }
  }

  lemma SizeReadsBack(o: Option<u64>, before: bytes, after: bytes)
    ensures var e := EncodeAll(SizeFields(o));
            MaybeU64(o.Some?, before + e + after, Cursor(|before|, false)) == (o, Cursor(|before| + |e|, false))
  {
    hide EncodeAll, TakeU64;
    EncodeNothing();
    if o.Some? {
      OneField(U64(o.value), before, after);
    }
  }

  lemma ModeReadsBack(o: Option<u32>, before: bytes, after: bytes)
    ensures var e := EncodeAll(ModeFields(o));
            MaybeU32(o.Some?, before + e + after, Cursor(|before|, false)) == (o, Cursor(|before| + |e|, false))
  {
    hide EncodeAll, TakeU32;
    EncodeNothing();
    if o.Some? {
      OneField(U32(o.value), before, after);
    }
  }

  lemma PairReadsBack(o: Option<(u32, u32)>, before: bytes, after: bytes)
    ensures var e := EncodeAll(TwoFields(o));
            MaybePair(o.Some?, before + e + after, Cursor(|before|, false)) == (o, Cursor(|before| + |e|, false))
  {
    hide EncodeAll, TakeU32;
    EncodeNothing();
    if o.Some? {
      var a, b := U32(o.value.0), U32(o.value.1);
      EncodeSnoc([a], b);
      assert [a] + [b] == [a, b];
      var x, y := EncodeAll([a]), EncodeAll([b]);
      OneField(a, before, y + after);
      OneField(b, before + x, after);
      assert before + x + (y + after) == before + (x + y) + after == before + x + y + after;
    }
  }

  lemma MoreReadsBack(there: bool, xs: seq<(bytes, bytes)>, before: bytes, after: bytes)
    requires |xs| < TWO_32 && AllStorable(PairFields(xs)) && (!there ==> xs == [])
    ensures AllStorable(MoreFields(there, xs))
    ensures var e := EncodeAll(MoreFields(there, xs));
            MaybeExtensions(there, before + e + after, Cursor(|before|, false)) == (xs, Cursor(|before| + |e|, false))
  {
    hide EncodeAll, TakeU32, PairFields, ReadExtensions, Encode;
    EncodeNothing();
    if there {
      var n, rest := U32(|xs|), PairFields(xs);
      EncodeAppend([n], rest);
      var x, y := EncodeAll([n]), EncodeAll(rest);
      OneField(n, before, y + after);
      PairsReadBack(xs, before + x, after);
      assert before + x + (y + after) == before + (x + y) + after == before + x + y + after;
    }
  }

  lemma Flattened(x0: bytes, x1: bytes, x2: bytes, x3: bytes, x4: bytes, x5: bytes, before: bytes, after: bytes)
    ensures var s := before + (x0 + x1 + x2 + x3 + x4 + x5) + after;
            && s == before + x0 + (x1 + x2 + x3 + x4 + x5 + after)
            && s == before + x0 + x1 + (x2 + x3 + x4 + x5 + after)
            && s == before + x0 + x1 + x2 + (x3 + x4 + x5 + after)
            && s == before + x0 + x1 + x2 + x3 + (x4 + x5 + after)
            && s == before + x0 + x1 + x2 + x3 + x4 + (x5 + after)
            && s == before + x0 + x1 + x2 + x3 + x4 + x5 + after
  {
  }

  lemma AttributeBytes(a: Attributes)
    requires Coherent(a)
    ensures AllStorable(AttributeFields(a)) && AllStorable(MoreFields(Flag(a.flags, 0x8000_0000), a.extensions))
    ensures EncodeAll(AttributeFields(a))
            == EncodeAll([U32(a.flags)]) + EncodeAll(SizeFields(a.size)) + EncodeAll(TwoFields(a.owner))
               + EncodeAll(ModeFields(a.mode)) + EncodeAll(TwoFields(a.times))
               + EncodeAll(MoreFields(Flag(a.flags, 0x8000_0000), a.extensions))
  {
    hide EncodeAll, Flag, PairFields;
    var f0, f1, f2 := [U32(a.flags)], SizeFields(a.size), TwoFields(a.owner);
    var f3, f4, f5 := ModeFields(a.mode), TwoFields(a.times), MoreFields(Flag(a.flags, 0x8000_0000), a.extensions);
    MoreReadsBack(Flag(a.flags, 0x8000_0000), a.extensions, [], []);
    EncodeAppend(f0, f1);
    EncodeAppend(f0 + f1, f2);
    EncodeAppend(f0 + f1 + f2, f3);
    EncodeAppend(f0 + f1 + f2 + f3, f4);
    EncodeAppend(f0 + f1 + f2 + f3 + f4, f5);
  }

  /** Whatever attributes are written, with any flags, are read back, and no byte more. */
  lemma AttributesReadBack(a: Attributes, before: bytes, after: bytes)
    requires Coherent(a)
    ensures AllStorable(AttributeFields(a))
    ensures var e := EncodeAll(AttributeFields(a));
            ReadAttributes(before + e + after, Cursor(|before|, false)) == (a, Cursor(|before| + |e|, false))
  {
    hide EncodeAll, Encode, TakeU32, MaybeU64, MaybeU32, MaybePair, MaybeExtensions, Flag, PairFields, AttributeFields;
    hide SizeFields, TwoFields, ModeFields, MoreFields;
    AttributeBytes(a);
    var more := Flag(a.flags, 0x8000_0000);
    var x0, x1, x2 := EncodeAll([U32(a.flags)]), EncodeAll(SizeFields(a.size)), EncodeAll(TwoFields(a.owner));
    var x3, x4 := EncodeAll(ModeFields(a.mode)), EncodeAll(TwoFields(a.times));
    var x5 := EncodeAll(MoreFields(more, a.extensions));
    Flattened(x0, x1, x2, x3, x4, x5, before, after);
    OneField(U32(a.flags), before, x1 + x2 + x3 + x4 + x5 + after);
    SizeReadsBack(a.size, before + x0, x2 + x3 + x4 + x5 + after);
    PairReadsBack(a.owner, before + x0 + x1, x3 + x4 + x5 + after);
    ModeReadsBack(a.mode, before + x0 + x1 + x2, x4 + x5 + after);
    PairReadsBack(a.times, before + x0 + x1 + x2 + x3, x5 + after);
    MoreReadsBack(more, a.extensions, before + x0 + x1 + x2 + x3 + x4, after);
  }

  /** The server skips the attributes of a request: it goes to where a reader of them would end, and notices if they
      are cut short where the reader does. */
  lemma SkippedAsRead(s: bytes, c: Cursor)
    ensures TakeAttrs(s, c) == ReadAttributes(s, c).1
  {
    hide TakeU32, TakeU64, TakeString, Flag, TakePairs, ReadExtensions;
    var flags, c0 := TakeU32(s, c).0, TakeU32(s, c).1;
    var c1 := MaybeU64(Flag(flags, 1), s, c0).1;
    var c2 := MaybePair(Flag(flags, 2), s, c1).1;
    var c3 := MaybeU32(Flag(flags, 4), s, c2).1;
    var c4 := MaybePair(Flag(flags, 8), s, c3).1;
    PairsSkipped(s, TakeU32(s, c4).1, TakeU32(s, c4).0);
  }

  lemma {:induction false} PairsSkipped(s: bytes, c: Cursor, n: nat)
    ensures TakePairs(s, c, n) == ReadExtensions(s, c, n).1
    decreases n
  {
    hide TakeString;
    if n > 0 && !c.bad {
      PairsSkipped(s, TakeString(s, TakeString(s, c).1).1, n - 1);
    }
  }

  // Entries.

  /** What a client is told about an object: its size, its times, and a mode that makes it a directory (type 4) with
      rwxr-xr-x or a file (type 8) with rw-r--r--. */
  function Told(st: Stat): Attributes {
    var mode := if st.dir then 4 * 0x1000 + 7 * 64 + 5 * 8 + 5 else 8 * 0x1000 + 6 * 64 + 4 * 8 + 4;
    Attributes(1 + 4 + 8, Some(st.size), None, Some(mode), Some((st.mtime, st.mtime)), [])
  }

  lemma ToldIsCoherent(st: Stat)
    ensures Coherent(Told(st)) && AttributeFields(Told(st)) == Attrs(st)
  {
    assert Flag(13, 1) && !Flag(13, 2) && Flag(13, 4) && Flag(13, 8) && !Flag(13, 0x8000_0000);
    assert PairFields([]) == [];
  }

  function ShownOf(w: World, e: Entry): Shown {
    Shown(e.name, Longname(w, e.name, e.st), Told(e.st))
  }

  lemma EntryReadsBack(w: World, e: Entry, before: bytes, after: bytes)
    ensures var x := EncodeAll(EntryFields(w, e));
            ReadEntry(before + x + after, Cursor(|before|, false))
            == (ShownOf(w, e), Cursor(|before| + |x|, false))
  {
    hide EncodeAll, TakeString, Longname, ReadAttributes, Told, Encode, Attrs;
    var n, l := Str(e.name), Str(Longname(w, e.name, e.st));
    EncodeNothing();
    EncodeSnoc([n], l);
    assert [n] + [l] == [n, l];
    EncodeAppend([n, l], Attrs(e.st));
    ToldIsCoherent(e.st);
    var x, y, z := EncodeAll([n]), Encode(l), EncodeAll(Attrs(e.st));
    OneField(n, before, y + z + after);
    TakeStr(e.name, before, y + z + after);
    TakeStr(Longname(w, e.name, e.st), before + x, z + after);
    AttributesReadBack(Told(e.st), before + x + y, after);
    FiveParts(before, x, y, z, after);
  }

  lemma {:induction false} EntriesReadBack(w: World, es: seq<Entry>, before: bytes, after: bytes)
    ensures var x := EncodeAll(EntriesFields(w, es));
            ReadEntries(before + x + after, Cursor(|before|, false), |es|)
            == (AllShown(w, es), Cursor(|before| + |x|, false))
    decreases |es|
  {
    hide EncodeAll, EntriesFields, EntryFields, ReadEntry, ShownOf;
    if es == [] {
      NothingListed(w, []);
    } else {
      var init, last := es[..|es| - 1], es[|es| - 1];
      assert es == init + [last];
      EntriesSnoc(w, init, last);
      var x, y := EncodeAll(EntriesFields(w, init)), EncodeAll(EntryFields(w, last));
      EntriesReadBack(w, init, before, y + after);
      EntryReadsBack(w, last, before + x, after);
      assert before + x + (y + after) == before + x + y + after == before + (x + y) + after;
    }
  }

  /** A client that follows the count of a listing reply gets the entries that were found, with their attributes, and
      ends where the reply ends. */
  lemma ListingReadsBack(w: World, id: u32, es: seq<Entry>, after: bytes)
    requires |es| < TWO_32
    ensures var r := EncodeAll(NameReply(w, id, es));
            ReadListing(r + after) == (Listing(FXP_NAME, id, AllShown(w, es)), Cursor(|r|, false))
  {
    hide EncodeAll, EntriesFields, Big32, ReadEntries, NameReply, Value32;
    NameFields(w, id, es);
    var s := EncodeAll(NameReply(w, id, es)) + after;
    var x := EncodeAll(EntriesFields(w, es));
    var head := [FXP_NAME] + Big32(id) + Big32(|es|);
    assert s == head + x + after && s[0] == FXP_NAME && s[1..5] == Big32(id) && s[5..9] == Big32(|es|);
    Value32Inverts(id);
    Value32Inverts(|es|);
    EntriesReadBack(w, es, head, after);
  }

  // The line of an entry.

  function Decimal(s: bytes): nat
    requires forall k :: 0 <= k < |s| ==> '0' as int <= s[k] <= '9' as int
    decreases |s|
  {
    if s == [] then 0 else 10 * Decimal(s[..|s| - 1]) + (s[|s| - 1] - '0' as int)
  }

  /** A size is shown as its decimal numeral, without zeros before it. */
  lemma {:induction false} DigitsAreDecimal(n: nat)
    ensures var s := Digits(n);
            && (forall k :: 0 <= k < |s| ==> '0' as int <= s[k] <= '9' as int)
            && Decimal(s) == n && (n > 0 ==> s[0] != '0' as int)
  {
    if n >= 10 {
      DigitsAreDecimal(n / 10);
      assert Digits(n)[..|Digits(n)| - 1] == Digits(n / 10);
    } else {
      assert Digits(n)[..0] == [];
    }
  }

  lemma {:induction false} FewDigits(n: nat, k: nat)
    requires k > 0 && n < TenTo(k)
    ensures |Digits(n)| <= k
    decreases k
  {
    if n >= 10 {
      assert TenTo(k) == 10 * TenTo(k - 1) && TenTo(0) == 1;
      hide TenTo;
      FewDigits(n / 10, k - 1);
    }
  }

  function TenTo(k: nat): nat {
    if k == 0 then 1 else 10 * TenTo(k - 1)
  }

  lemma {:induction false} SpacesAre(n: int)
    ensures |Spaces(n)| == if n < 0 then 0 else n
    ensures forall k :: 0 <= k < |Spaces(n)| ==> Spaces(n)[k] == ' ' as int
    decreases n
  {
    if n > 0 {
      SpacesAre(n - 1);
    }
  }

  lemma Pieces(m: bytes, p: bytes, d: bytes, t: bytes, e: bytes)
    requires |m| == 23
    ensures var s := m + (p + d) + [32] + t + [32] + e;
            && |s| == 23 + |p| + |d| + 1 + |t| + 1 + |e| && s[0] == m[0]
            && s[23..23 + |p|] == p && s[23 + |p|..23 + |p| + |d|] == d
            && s[|s| - |e|..] == e && s[|s| - |e| - 1 - |t|..|s| - |e| - 1] == t
  {
  }

  function LineStart(dir: bool): (m: bytes)
    ensures |m| == 23 && (m[0] == 'd' as int <==> dir)
  {
    var mode := Ascii(if dir then "drwxr-xr-x" else "-rw-r--r--");
    assert mode[0] == if dir then 'd' as int else '-' as int;
    mode + Ascii(" 1 byok byok ")
  }

  lemma LineParts(w: World, e: name, st: Stat)
    ensures var d := Digits(st.size);
            Longname(w, e, st) == LineStart(st.dir) + (Spaces(10 - |d|) + d) + [32] + w.when(st.mtime) + [32] + e
  {
    hide Digits, Spaces, Ascii;
    SizeIsShort(st.size);
    SpacesAre(10 - |Digits(st.size)|);
    var d := Digits(st.size);
    var s := LineStart(st.dir) + (Spaces(10 - |d|) + d) + [32] + w.when(st.mtime) + [32] + e;
    assert s[..|s|] == s;
  }

  /** The line fits its buffer: ten characters for the kind, " 1 byok byok ", the size with spaces before it up to ten
      characters, the time, and the whole name. */
  lemma LineIsWhole(w: World, e: name, st: Stat)
    ensures var s, d, t := Longname(w, e, st), Digits(st.size), w.when(st.mtime);
            var pad := if |d| < 10 then 10 - |d| else 0;
            && |s| == 23 + pad + |d| + 1 + |t| + 1 + |e|
            && (s[0] == 'd' as int <==> st.dir)
            && (forall k :: 23 <= k < 23 + pad ==> s[k] == ' ' as int)
            && s[23 + pad..23 + pad + |d|] == d
            && s[|s| - |e|..] == e && s[|s| - |e| - 1 - |t|..|s| - |e| - 1] == t
  {
    hide Digits, Spaces, LineStart, Longname;
    LineParts(w, e, st);
    var p, d := Spaces(10 - |Digits(st.size)|), Digits(st.size);
    SpacesAre(10 - |d|);
    Pieces(LineStart(st.dir), p, d, w.when(st.mtime), e);
    var s := Longname(w, e, st);
    forall k | 23 <= k < 23 + |p| ensures s[k] == ' ' as int {
      assert s[k] == s[23..23 + |p|][k - 23];
    }
  }

  lemma SizeIsShort(n: size)
    ensures |Digits(n)| <= 19
  {
    assert TenTo(5) == 100_000;
    assert TenTo(10) == 100_000 * 100_000;
    assert TenTo(15) == 1_000_000_000_000_000;
    assert TenTo(19) == 10_000_000_000_000_000_000;
    FewDigits(n, 19);
  }

  // Replies.

  datatype Reply =
    | IsVersion(version: u32)
    | IsStatus(id: u32, code: u32, message: bytes, language: bytes)
    | IsHandle(id: u32, handle: bytes)
    | IsData(id: u32, data: bytes)
    | IsNames(id: u32, entries: seq<Shown>)
    | IsAttributes(id: u32, attributes: Attributes)
    | Unreadable

  /** What follows the kind of a reply and the number of its request (sections 4 and 7 of the draft). */
  function ReadRest(kind: u8, id: u32, s: bytes, c: Cursor): (Reply, Cursor) {
    if kind == 2 then (IsVersion(id), c)
    else if kind == 101 then
      var (code, c1) := TakeU32(s, c);
      var (message, c2) := TakeString(s, c1);
      var (language, c3) := TakeString(s, c2);
      (IsStatus(id, code, message, language), c3)
    else if kind == 102 then
      var (handle, c1) := TakeString(s, c);
      (IsHandle(id, handle), c1)
    else if kind == 103 then
      var (data, c1) := TakeString(s, c);
      (IsData(id, data), c1)
    else if kind == 104 then
      var (count, c1) := TakeU32(s, c);
      var (entries, c2) := ReadEntries(s, c1, count);
      (IsNames(id, entries), c2)
    else if kind == 105 then
      var (a, c1) := ReadAttributes(s, c);
      (IsAttributes(id, a), c1)
    else (Unreadable, c)
  }

  /** A reply has to end where its last field ends. */
  function DecodeReply(s: bytes): Reply {
    var (kind, c) := TakeU8(s, Cursor(0, false));
    var (id, d) := TakeU32(s, c);
    var (r, end) := ReadRest(kind, id, s, d);
    if end == Cursor(|s|, false) then r else Unreadable
  }

  lemma StatusReadsBack(id: u32, code: u32, msg: string)
    requires |msg| <= 64
    ensures DecodeReply(EncodeAll(Status(id, code, msg))) == IsStatus(id, code, Ascii(msg), [])
  {
    hide EncodeAll, FieldAt, TakeU8, TakeU32, TakeString, Ascii;
    var fs := Status(id, code, msg);
    WholeMessage(fs);
    assert Take(fs[0], EncodeAll(fs), FieldAt(fs, 0)) == (U8(101), FieldAt(fs, 1));
    assert Take(fs[1], EncodeAll(fs), FieldAt(fs, 1)) == (U32(id), FieldAt(fs, 2));
    assert Take(fs[2], EncodeAll(fs), FieldAt(fs, 2)) == (U32(code), FieldAt(fs, 3));
    assert Take(fs[3], EncodeAll(fs), FieldAt(fs, 3)) == (Str(Ascii(msg)), FieldAt(fs, 4));
    assert Take(fs[4], EncodeAll(fs), FieldAt(fs, 4)) == (Str([]), FieldAt(fs, 5));
  }

  lemma HandleReadsBack(id: u32, i: nat)
    requires i < MAX_HANDLES
    ensures DecodeReply(EncodeAll(HandleReply(id, i))) == IsHandle(id, Big32(i))
  {
    hide EncodeAll, FieldAt, TakeU8, TakeU32, TakeString, Big32;
    var fs := HandleReply(id, i);
    WholeMessage(fs);
    assert Take(fs[0], EncodeAll(fs), FieldAt(fs, 0)) == (U8(102), FieldAt(fs, 1));
    assert Take(fs[1], EncodeAll(fs), FieldAt(fs, 1)) == (U32(id), FieldAt(fs, 2));
    assert Take(fs[2], EncodeAll(fs), FieldAt(fs, 2)) == (Str(Big32(i)), FieldAt(fs, 3));
  }

  lemma DataReadsBack(id: u32, d: bytes)
    requires |d| < TWO_32
    ensures DecodeReply(EncodeAll([U8(FXP_DATA), U32(id), Str(d)])) == IsData(id, d)
  {
    hide EncodeAll, FieldAt, TakeU8, TakeU32, TakeString;
    var fs := [U8(103), U32(id), Str(d)];
    WholeMessage(fs);
    assert Take(fs[0], EncodeAll(fs), FieldAt(fs, 0)) == (U8(103), FieldAt(fs, 1));
    assert Take(fs[1], EncodeAll(fs), FieldAt(fs, 1)) == (U32(id), FieldAt(fs, 2));
    assert Take(fs[2], EncodeAll(fs), FieldAt(fs, 2)) == (Str(d), FieldAt(fs, 3));
  }

  /** The kind of a message and its number, and where the rest of it starts. */
  lemma HeadReadsBack(kind: u8, id: u32, rest: seq<Field>)
    requires AllStorable(rest)
    ensures var s := EncodeAll([U8(kind), U32(id)] + rest);
            && TakeU8(s, Cursor(0, false)) == (kind, Cursor(1, false))
            && TakeU32(s, Cursor(1, false)) == (id, Cursor(5, false))
            && |s| == 5 + |EncodeAll(rest)| && s == s[..5] + EncodeAll(rest)
  {
    hide EncodeAll, Big32, Value32;
    HeadFields(kind, id, rest);
    Value32Inverts(id);
    var s := EncodeAll([U8(kind), U32(id)] + rest);
    assert s[1..5] == Big32(id);
  }

  lemma AttrsReadBack(id: u32, st: Stat)
    ensures DecodeReply(EncodeAll([U8(FXP_ATTRS), U32(id)] + Attrs(st))) == IsAttributes(id, Told(st))
  {
    hide EncodeAll, TakeU32, TakeU8, ReadAttributes, Attrs, Told;
    HeadReadsBack(105, id, Attrs(st));
    ToldIsCoherent(st);
    var s := EncodeAll([U8(105), U32(id)] + Attrs(st));
    AttributesReadBack(Told(st), s[..5], []);
    assert s[..5] + EncodeAll(Attrs(st)) + [] == s;
  }

  lemma NamesReadBack(w: World, id: u32, es: seq<Entry>)
    requires |es| < TWO_32
    ensures DecodeReply(EncodeAll(NameReply(w, id, es))) == IsNames(id, AllShown(w, es))
  {
    hide EncodeAll, NameReply, ReadEntries, AllShown, TakeU32;
    ListingReadsBack(w, id, es, []);
    var s := EncodeAll(NameReply(w, id, es));
    assert s + [] == s;
  }

  lemma RealPathReadsBack(w: World, root: bytes, id: u32, p: bytes)
    ensures var v, found := Virtual(p), w.stat(Real(root, p));
            DecodeReply(EncodeAll(RealPathReply(w, root, id, p)))
            == IsNames(id, [Shown(v, v, Told(if found.Some? then found.value else Stat(0, true, 0)))])
  {
    hide EncodeAll, TakeU8, TakeU32, TakeString, ReadAttributes, Attrs, Told, Encode, Real, Virtual;
    LimitedFits(p);
    var found := w.stat(Real(root, p));
    var st := if found.Some? then found.value else Stat(0, true, 0);
    var v := Str(Virtual(p));
    var head, rest := [U8(104), U32(id), U32(1), v, v], Attrs(st);
    var h, z := EncodeAll(head), EncodeAll(rest);
    EncodeAppend(head, rest);
    assert RealPathReply(w, root, id, p) == head + rest;
    var s := h + z;
    assert [] + h + z == s && h + z + [] == s;
    EachField(head, [], z);
    var a, b, d := FieldPlace(head, [], 1), FieldPlace(head, [], 2), FieldPlace(head, [], 3);
    var e := FieldPlace(head, [], 4);
    assert Take(head[0], s, Cursor(0, false)) == (U8(104), Cursor(a, false));
    assert Take(head[1], s, Cursor(a, false)) == (U32(id), Cursor(b, false));
    assert Take(head[2], s, Cursor(b, false)) == (U32(1), Cursor(d, false));
    assert Take(head[3], s, Cursor(d, false)) == (v, Cursor(e, false));
    assert Take(head[4], s, Cursor(e, false)) == (v, Cursor(|h|, false));
    ToldIsCoherent(st);
    AttributesReadBack(Told(st), h, []);
    var c := Cursor(d, false);
    OneEntry(s, c);
    assert ReadEntry(s, c) == (Shown(Virtual(p), Virtual(p), Told(st)), Cursor(|s|, false));
  }

  lemma OneEntry(s: bytes, c: Cursor)
    ensures ReadEntries(s, c, 1) == ([ReadEntry(s, c).0], ReadEntry(s, c).1)
  {
    hide ReadEntry;
    assert ReadEntries(s, c, 0) == ([], c);
    assert [] + [ReadEntry(s, c).0] == [ReadEntry(s, c).0];
  }

  // Requests.

  ghost predicate Sendable(q: Request) {
    match q
    case AskVersion => true
    case AskRealPath(_, p) => |p| < TWO_32
    case AskStat(_, p) => |p| < TWO_32
    case AskFStat(_, h) => |h| < TWO_32
    case AskSetStat(_) => true
    case AskOpenDir(_, p) => |p| < TWO_32
    case AskReadDir(_, h) => |h| < TWO_32
    case AskOpen(_, p, _) => |p| < TWO_32
    case AskRead(_, h, _, _) => |h| < TWO_32
    case AskWrite(_, h, _, d) => |h| < TWO_32 && |d| < TWO_32
    case AskClose(_, h) => |h| < TWO_32
    case AskChange(_, kind, p) => kind in {13, 14, 15} && |p| < TWO_32
    case AskRename(_, p1, p2) => |p1| < TWO_32 && |p2| < TWO_32
    case AskUnknown(_) => false
    case Malformed(_) => false
  }

  /** A request as a client writes it (section 6 of the draft); to open a file it may give any attributes. */
  function RequestFields(q: Request, a: Attributes): (fs: seq<Field>)
    requires Sendable(q) && Coherent(a)
    ensures AllStorable(fs)
  {
    hide AttributeFields, EncodeAll;
    AttributeBytes(a);
    match q
    case AskVersion => [U8(1), U32(3)]
    case AskRealPath(id, p) => [U8(16), U32(id), Str(p)]
    case AskStat(id, p) => [U8(17), U32(id), Str(p)]
    case AskFStat(id, h) => [U8(8), U32(id), Str(h)]
    case AskSetStat(id) => [U8(9), U32(id)]
    case AskOpenDir(id, p) => [U8(11), U32(id), Str(p)]
    case AskReadDir(id, h) => [U8(12), U32(id), Str(h)]
    case AskOpen(id, p, flags) => [U8(3), U32(id), Str(p), U32(flags)] + AttributeFields(a)
    case AskRead(id, h, off, want) => [U8(5), U32(id), Str(h), U64(off), U32(want)]
    case AskWrite(id, h, off, d) => [U8(6), U32(id), Str(h), U64(off), Str(d)]
    case AskClose(id, h) => [U8(4), U32(id), Str(h)]
    case AskChange(id, kind, p) => [U8(kind), U32(id), Str(p)]
    case AskRename(id, p1, p2) => [U8(18), U32(id), Str(p1), Str(p2)]
  }

  function RequestBytes(q: Request, a: Attributes): bytes
    requires Sendable(q) && Coherent(a)
  {
    EncodeAll(RequestFields(q, a))
  }

  /** A request about one string, whatever follows it. */
  lemma StringRequest(kind: u8, id: u32, t: bytes, after: bytes)
    requires |t| < TWO_32
    ensures var s := EncodeAll([U8(kind), U32(id), Str(t)]) + after;
            && TakeU8(s, Cursor(0, false)) == (kind, Cursor(1, false))
            && TakeU32(s, Cursor(1, false)) == (id, Cursor(5, false))
            && TakeString(s, Cursor(5, false)) == (t, Cursor(|s| - |after|, false))
  {
    hide EncodeAll, Encode, Big32, Value32;
    var e := EncodeAll([Str(t)]);
    EncodeNothing();
    EncodeSnoc([], Str(t));
    assert [] + [Str(t)] == [Str(t)] && [] + Encode(Str(t)) == Encode(Str(t));
    HeadFields(kind, id, [Str(t)]);
    Value32Inverts(id);
    assert [U8(kind), U32(id)] + [Str(t)] == [U8(kind), U32(id), Str(t)];
    var head := [kind] + Big32(id);
    var s := EncodeAll([U8(kind), U32(id), Str(t)]) + after;
    assert s == head + e + after && s[1..5] == Big32(id);
    TakeStr(t, head, after);
  }

  /** Two more fields behind the string. */
  lemma TwoMore(kind: u8, id: u32, t: bytes, x: Field, y: Field)
    requires |t| < TWO_32 && Storable(x) && Storable(y)
    ensures var head, s := EncodeAll([U8(kind), U32(id), Str(t)]), EncodeAll([U8(kind), U32(id), Str(t), x, y]);
            && s == head + (EncodeAll([x]) + EncodeAll([y]))
            && (var c := Take(x, s, Cursor(|head|, false));
                c.0 == x && !c.1.bad && Take(y, s, c.1) == (y, Cursor(|s|, false)))
  {
    hide EncodeAll, Encode, Take;
    var h := [U8(kind), U32(id), Str(t)];
    var a, b, c := EncodeAll(h), EncodeAll([x]), EncodeAll([y]);
    EncodeAppend([x], [y]);
    EncodeAppend(h, [x] + [y]);
    assert h + ([x] + [y]) == [U8(kind), U32(id), Str(t), x, y];
    OneField(x, a, c);
    OneField(y, a + b, []);
    assert a + b + c == a + (b + c) && a + b + c + [] == a + b + c;
  }

  lemma OneMore(kind: u8, id: u32, t: bytes, x: Field)
    requires |t| < TWO_32 && Storable(x)
    ensures var head, s := EncodeAll([U8(kind), U32(id), Str(t)]), EncodeAll([U8(kind), U32(id), Str(t), x]);
            s == head + EncodeAll([x]) && Take(x, s, Cursor(|head|, false)) == (x, Cursor(|s|, false))
  {
    hide EncodeAll, Encode, Take;
    var h := [U8(kind), U32(id), Str(t)];
    var a, b := EncodeAll(h), EncodeAll([x]);
    EncodeAppend(h, [x]);
    assert h + [x] == [U8(kind), U32(id), Str(t), x];
    OneField(x, a, []);
    assert a + b + [] == a + b;
  }

  lemma OpenReadsBack(id: u32, p: bytes, flags: u32, a: Attributes)
    requires |p| < TWO_32 && Coherent(a)
    ensures Parse(RequestBytes(AskOpen(id, p, flags), a)) == AskOpen(id, p, flags)
  {
    hide EncodeAll, TakeU8, TakeU32, TakeString, TakeAttrs, ReadAttributes, AttributeFields;
    var h, rest := [U8(3), U32(id), Str(p)], AttributeFields(a);
    AttributeBytes(a);
    var x, y, z := EncodeAll(h), EncodeAll([U32(flags)]), EncodeAll(rest);
    EncodeAppend(h, [U32(flags)]);
    EncodeAppend(h + [U32(flags)], rest);
    assert h + [U32(flags)] + rest == RequestFields(AskOpen(id, p, flags), a);
    var s := x + y + z;
    StringRequest(3, id, p, y + z);
    OneField(U32(flags), x, z);
    AttributesReadBack(a, x + y, []);
    assert s == x + (y + z) && s + [] == s;
    SkippedAsRead(s, Cursor(|x + y|, false));
    assert Take(U32(flags), s, Cursor(|x|, false)) == (U32(flags), Cursor(|x + y|, false));
  }

  lemma ReadAndWriteReadBack(id: u32, h: bytes, off: u64, want: u32, d: bytes, a: Attributes)
    requires |h| < TWO_32 && |d| < TWO_32 && Coherent(a)
    ensures Parse(RequestBytes(AskRead(id, h, off, want), a)) == AskRead(id, h, off, want)
    ensures Parse(RequestBytes(AskWrite(id, h, off, d), a)) == AskWrite(id, h, off, d)
  {
    hide EncodeAll, TakeU8, TakeU32, TakeU64, TakeString, AttributeFields;
    var n := EncodeAll([U8(5), U32(id), Str(h)]);
    var m := EncodeAll([U8(6), U32(id), Str(h)]);
    StringRequest(5, id, h, EncodeAll([U64(off)]) + EncodeAll([U32(want)]));
    TwoMore(5, id, h, U64(off), U32(want));
    StringRequest(6, id, h, EncodeAll([U64(off)]) + EncodeAll([Str(d)]));
    TwoMore(6, id, h, U64(off), Str(d));
  }

  lemma RenameReadsBack(id: u32, p1: bytes, p2: bytes, a: Attributes)
    requires |p1| < TWO_32 && |p2| < TWO_32 && Coherent(a)
    ensures Parse(RequestBytes(AskRename(id, p1, p2), a)) == AskRename(id, p1, p2)
  {
    hide EncodeAll, TakeU8, TakeU32, TakeString, AttributeFields;
    StringRequest(18, id, p1, EncodeAll([Str(p2)]));
    OneMore(18, id, p1, Str(p2));
  }

  lemma HeadOnly(kind: u8, id: u32)
    ensures var s := EncodeAll([U8(kind), U32(id)]);
            && TakeU8(s, Cursor(0, false)) == (kind, Cursor(1, false))
            && TakeU32(s, Cursor(1, false)) == (id, Cursor(5, false))
  {
    hide EncodeAll, TakeU8, TakeU32;
    HeadReadsBack(kind, id, []);
    assert [U8(kind), U32(id)] + [] == [U8(kind), U32(id)];
  }

  /** The server takes every request for what the client meant. */
  lemma RequestReadsBack(q: Request, a: Attributes)
    requires Sendable(q) && Coherent(a)
    ensures Parse(RequestBytes(q, a)) == q
  {
    hide EncodeAll, TakeU8, TakeU32, TakeString, TakeAttrs, AttributeFields;
    match q
    case AskVersion => HeadOnly(1, 3);
    case AskSetStat(id) => HeadOnly(9, id);
    case AskOpen(id, p, flags) => OpenReadsBack(id, p, flags, a);
    case AskRead(id, h, off, want) => ReadAndWriteReadBack(id, h, off, want, [], a);
    case AskWrite(id, h, off, d) => ReadAndWriteReadBack(id, h, off, 0, d, a);
    case AskRename(id, p1, p2) => RenameReadsBack(id, p1, p2, a);
    case AskRealPath(id, p) => PlainRequest(16, id, p);
    case AskStat(id, p) => PlainRequest(17, id, p);
    case AskFStat(id, h) => PlainRequest(8, id, h);
    case AskOpenDir(id, p) => PlainRequest(11, id, p);
    case AskReadDir(id, h) => PlainRequest(12, id, h);
    case AskClose(id, h) => PlainRequest(4, id, h);
    case AskChange(id, kind, p) => PlainRequest(kind, id, p);
  }

  lemma PlainRequest(kind: u8, id: u32, t: bytes)
    requires |t| < TWO_32
    ensures var s := EncodeAll([U8(kind), U32(id), Str(t)]);
            && TakeU8(s, Cursor(0, false)) == (kind, Cursor(1, false))
            && TakeU32(s, Cursor(1, false)) == (id, Cursor(5, false))
            && TakeString(s, Cursor(5, false)) == (t, Cursor(|s|, false))
  {
    hide EncodeAll, TakeU8, TakeU32, TakeString;
    StringRequest(kind, id, t, []);
    assert EncodeAll([U8(kind), U32(id), Str(t)]) + [] == EncodeAll([U8(kind), U32(id), Str(t)]);
  }

  /** LSTAT is taken for STAT and FSETSTAT for SETSTAT; other kinds are unknown. */
  lemma OtherKinds(kind: u8, id: u32, p: bytes)
    requires |p| < TWO_32
    ensures var q := Parse(EncodeAll([U8(kind), U32(id), Str(p)]));
            && (kind == 7 ==> q == AskStat(id, p)) && (kind == 10 ==> q == AskSetStat(id))
            && (kind == 0 || kind == 2 || kind > 18 ==> q == AskUnknown(id))
  {
    hide EncodeAll, TakeU8, TakeU32, TakeString, TakeAttrs;
    PlainRequest(kind, id, p);
  }

  // Requests that end too soon.

  lemma {:induction false} PairsAgree(xs: seq<(bytes, bytes)>, s: bytes, c: Cursor)
    requires TakeAll(PairFields(xs), s, c).1.bad
    ensures TakePairs(s, c, |xs|).bad
    decreases |xs|
  {
    hide TakeString;
    if !c.bad && xs != [] {
      var fs, rest := PairFields(xs), PairFields(xs[1..]);
      assert fs[1..][1..] == rest;
      var d := TakeString(s, TakeString(s, c).1).1;
      assert TakeAll(fs, s, c).1 == TakeAll(rest, s, d).1;
      PairsAgree(xs[1..], s, d);
    }
  }

  lemma {:induction false} TakeAllAppend(fs: seq<Field>, gs: seq<Field>, s: bytes, c: Cursor)
    ensures TakeAll(fs + gs, s, c).1 == TakeAll(gs, s, TakeAll(fs, s, c).1).1
    decreases |fs|
  {
    hide Take;
    if fs == [] {
      assert fs + gs == gs;
    } else {
      assert (fs + gs)[1..] == fs[1..] + gs;
      TakeAllAppend(fs[1..], gs, s, Take(fs[0], s, c).1);
    }
  }

  lemma PairsStayBad(s: bytes, c: Cursor, n: nat)
    requires c.bad
    ensures TakePairs(s, c, n).bad
  {
  }

  lemma AttrsStayBad(s: bytes, c: Cursor)
    requires TakeU32(s, c).1.bad
    ensures TakeAttrs(s, c).bad
  {
    hide Flag;
  }

  /** The fields but for the extensions. */
  function FixedFields(a: Attributes): (fs: seq<Field>)
    ensures AllStorable(fs)
  {
    [U32(a.flags)] + SizeFields(a.size) + TwoFields(a.owner) + ModeFields(a.mode) + TwoFields(a.times)
  }

  /** Where the server is after these, if it has read the flags. */
  lemma FixedCursor(a: Attributes, s: bytes, c: Cursor)
    requires Coherent(a) && TakeU32(s, c).0 == a.flags
    ensures var d := TakeAll(FixedFields(a), s, c).1;
            TakeAttrs(s, c) == if Flag(a.flags, 0x8000_0000) then TakePairs(s, TakeU32(s, d).1, TakeU32(s, d).0) else d
  {
    hide TakeU32, TakeU64, TakePairs, PairFields, Flag;
    var f0, f1, f2, f3, f4 := [U32(a.flags)], SizeFields(a.size), TwoFields(a.owner), ModeFields(a.mode),
                              TwoFields(a.times);
    TakeAllAppend(f0, f1, s, c);
    TakeAllAppend(f0 + f1, f2, s, c);
    TakeAllAppend(f0 + f1 + f2, f3, s, c);
    TakeAllAppend(f0 + f1 + f2 + f3, f4, s, c);
    assert TakeAll(f0, s, c).1 == TakeU32(s, c).1;
    forall o: Option<(u32, u32)>, e: Cursor
      ensures TakeAll(TwoFields(o), s, e).1 == if o.Some? then TakeU32(s, TakeU32(s, e).1).1 else e
    {
      TwoTaken(o, s, e);
    }
    forall e: Cursor
      ensures TakeAll(SizeFields(a.size), s, e).1 == if a.size.Some? then TakeU64(s, e).1 else e
      ensures TakeAll(ModeFields(a.mode), s, e).1 == if a.mode.Some? then TakeU32(s, e).1 else e
    {
    }
  }

  lemma TwoTaken(o: Option<(u32, u32)>, s: bytes, e: Cursor)
    ensures TakeAll(TwoFields(o), s, e).1 == if o.Some? then TakeU32(s, TakeU32(s, e).1).1 else e
  {
    hide TakeU32, TakeAll;
    var fs := TwoFields(o);
    NothingTaken(s, e);
    if o.Some? {
      NothingTaken(s, TakeU32(s, TakeU32(s, e).1).1);
      FirstTaken(fs, s, e);
      FirstTaken(fs[1..], s, TakeU32(s, e).1);
      assert fs[1..][1..] == [];
    }
  }

  lemma FirstTaken(fs: seq<Field>, s: bytes, c: Cursor)
    requires fs != []
    ensures TakeAll(fs, s, c).1 == TakeAll(fs[1..], s, Take(fs[0], s, c).1).1
  {
    hide Take;
  }

  lemma NothingTaken(s: bytes, c: Cursor)
    ensures TakeAll([], s, c).1 == c
  {
  }

  /** Attributes that are cut short anywhere are noticed to be so. */
  lemma CutAttributes(a: Attributes, before: bytes, m: nat)
    requires Coherent(a) && AllStorable(AttributeFields(a)) && m < |EncodeAll(AttributeFields(a))|
    ensures TakeAttrs(before + EncodeAll(AttributeFields(a))[..m], Cursor(|before|, false)).bad
  {
    hide EncodeAll, Encode, TakeU32, TakeAttrs, TakePairs, PairFields, Flag, FixedFields, TakeAll;
    var fixed, more := FixedFields(a), MoreFields(Flag(a.flags, 0x8000_0000), a.extensions);
    AttributeBytes(a);
    SplitFields(a);
    var x, y := EncodeAll(fixed), EncodeAll(more);
    var s := before + EncodeAll(AttributeFields(a))[..m];
    var c := Cursor(|before|, false);
    assert EncodeAll(AttributeFields(a)) == x + y;
    FlagsOrBad(a, before, m);
    if TakeU32(s, c).1.bad {
      AttrsStayBad(s, c);
    } else {
      FixedCursor(a, s, c);
      if m < |x| {
        assert (x + y)[..m] == x[..m];
        AllTruncationNoticed(fixed, before, m);
        var d := TakeAll(fixed, s, c).1;
        BadStays(U32(0), s, d);
        PairsStayBad(s, TakeU32(s, d).1, TakeU32(s, d).0);
      } else {
        CutMore(a, before, x, m - |x|);
        assert (x + y)[..m] == x + y[..m - |x|];
        assert before + (x + y[..m - |x|]) == before + x + y[..m - |x|];
        TakeAllInverts(fixed, before, y[..m - |x|]);
      }
    }
  }

  lemma SplitFields(a: Attributes)
    requires Coherent(a) && AllStorable(MoreFields(Flag(a.flags, 0x8000_0000), a.extensions))
    ensures var more := MoreFields(Flag(a.flags, 0x8000_0000), a.extensions);
            AttributeFields(a) == FixedFields(a) + more
            && EncodeAll(FixedFields(a) + more) == EncodeAll(FixedFields(a)) + EncodeAll(more)
  {
    hide EncodeAll, Flag, PairFields;
    EncodeAppend(FixedFields(a), MoreFields(Flag(a.flags, 0x8000_0000), a.extensions));
  }

  lemma FlagsOrBad(a: Attributes, before: bytes, m: nat)
    requires Coherent(a) && AllStorable(AttributeFields(a)) && m < |EncodeAll(AttributeFields(a))|
    ensures var s := before + EncodeAll(AttributeFields(a))[..m];
            var (flags, d) := TakeU32(s, Cursor(|before|, false));
            d.bad || (flags == a.flags && d == Cursor(|before| + 4, false))
  {
    hide EncodeAll, Big32, Value32, Flag, PairFields;
    AttributeBytes(a);
    OneField(U32(a.flags), [], []);
    var e := EncodeAll(AttributeFields(a));
    var s := before + e[..m];
    assert e[..4] == Big32(a.flags);
    if m >= 4 {
      assert s[|before|..|before| + 4] == e[..4];
      Value32Inverts(a.flags);
    }
  }

  lemma CutMore(a: Attributes, before: bytes, x: bytes, m: nat)
    requires Coherent(a)
    requires AllStorable(MoreFields(Flag(a.flags, 0x8000_0000), a.extensions))
    requires m < |EncodeAll(MoreFields(Flag(a.flags, 0x8000_0000), a.extensions))|
    ensures var s := before + x + EncodeAll(MoreFields(Flag(a.flags, 0x8000_0000), a.extensions))[..m];
            var d := Cursor(|before| + |x|, false);
            Flag(a.flags, 0x8000_0000) && TakePairs(s, TakeU32(s, d).1, TakeU32(s, d).0).bad
  {
    hide EncodeAll, Encode, TakePairs, PairFields, Flag, TakeU32;
    EncodeNothing();
    var count, pairs := U32(|a.extensions|), PairFields(a.extensions);
    EncodeAppend([count], pairs);
    var e, f := EncodeAll([count]), EncodeAll(pairs);
    var t, d := before + x, Cursor(|before| + |x|, false);
    if m < |e| {
      assert (e + f)[..m] == e[..m];
      OneField(count, t, []);
      TruncationNoticed(count, t, m);
      assert TakeU32(t + e[..m], d).1.bad;
      PairsStayBad(t + e[..m], TakeU32(t + e[..m], d).1, TakeU32(t + e[..m], d).0);
    } else {
      var k := m - |e|;
      assert (e + f)[..m] == e + f[..k] && t + (e + f[..k]) == t + e + f[..k];
      OneField(count, t, f[..k]);
      AllTruncationNoticed(pairs, t + e, k);
      PairsAgree(a.extensions, t + e + f[..k], Cursor(|t + e|, false));
    }
  }

  /** A request that ends too soon, but with its number, is malformed; and if it is about a handle alone, the handle is
      taken for an empty one, which there is not. */
  lemma CutIsNoticed(q: Request, a: Attributes, n: nat)
    requires Sendable(q) && Coherent(a) && 5 <= n < |RequestBytes(q, a)| && !q.AskVersion? && !q.AskSetStat?
    ensures Parse(RequestBytes(q, a)[..n])
            == if q.AskFStat? then AskFStat(q.id, []) else if q.AskReadDir? then AskReadDir(q.id, [])
               else if q.AskClose? then AskClose(q.id, []) else Malformed(q.id)
  {
    hide EncodeAll, TakeU8, TakeU32, TakeString, TakeU64, TakeAttrs, AttributeFields, TakeAll, RequestFields, Parse;
    if q.AskOpen? {
      CutOpen(q, a, n);
    } else {
      CutFields(q, a, n);
    }
  }

  /** The kind and the number of a message that has at least these. */
  lemma HeadOfCut(fs: seq<Field>, n: nat)
    requires AllStorable(fs) && |fs| >= 2 && fs[0].U8? && fs[1].U32? && 5 <= n <= |EncodeAll(fs)|
    ensures var s := EncodeAll(fs)[..n];
            && TakeU8(s, Cursor(0, false)) == (fs[0].b, Cursor(1, false))
            && TakeU32(s, Cursor(1, false)) == (fs[1].v, Cursor(5, false))
  {
    hide EncodeAll, Big32, Value32;
    var rest := fs[2..];
    assert fs == [U8(fs[0].b), U32(fs[1].v)] + rest;
    assert AllStorable(rest);
    HeadFields(fs[0].b, fs[1].v, rest);
    Value32Inverts(fs[1].v);
    var s := EncodeAll(fs)[..n];
    assert s[1..5] == Big32(fs[1].v);
  }

  /** The cursors of a list of up to five fields. */
  lemma Cursors(fs: seq<Field>, s: bytes)
    requires 3 <= |fs| <= 5
    ensures var c3 := Take(fs[2], s, Take(fs[1], s, Take(fs[0], s, Cursor(0, false)).1).1).1;
            && (|fs| == 3 ==> TakeAll(fs, s, Cursor(0, false)).1 == c3)
            && (|fs| == 4 ==> TakeAll(fs, s, Cursor(0, false)).1 == Take(fs[3], s, c3).1)
            && (|fs| == 5 ==> TakeAll(fs, s, Cursor(0, false)).1 == Take(fs[4], s, Take(fs[3], s, c3).1).1)
  {
    hide Take, TakeAll;
    var c0 := Cursor(0, false);
    var c1 := Take(fs[0], s, c0).1;
    var c2 := Take(fs[1], s, c1).1;
    var c3 := Take(fs[2], s, c2).1;
    FirstTaken(fs, s, c0);
    FirstTaken(fs[1..], s, c1);
    FirstTaken(fs[2..], s, c2);
    assert fs[1..][1..] == fs[2..] && fs[2..][1..] == fs[3..];
    if |fs| == 3 {
      NothingTaken(s, c3);
      assert fs[3..] == [];
    } else {
      var c4 := Take(fs[3], s, c3).1;
      FirstTaken(fs[3..], s, c3);
      assert fs[3..][1..] == fs[4..];
      if |fs| == 4 {
        NothingTaken(s, c4);
        assert fs[4..] == [];
      } else {
        FirstTaken(fs[4..], s, c4);
        assert fs[4..][1..] == [];
        NothingTaken(s, Take(fs[4], s, c4).1);
      }
    }
  }

  lemma CutFields(q: Request, a: Attributes, n: nat)
    requires Sendable(q) && Coherent(a) && 5 <= n < |RequestBytes(q, a)|
    requires !q.AskVersion? && !q.AskSetStat? && !q.AskOpen?
    ensures Parse(RequestBytes(q, a)[..n])
            == if q.AskFStat? then AskFStat(q.id, []) else if q.AskReadDir? then AskReadDir(q.id, [])
               else if q.AskClose? then AskClose(q.id, []) else Malformed(q.id)
  {
    hide EncodeAll, TakeU8, TakeU32, TakeU64, TakeAttrs, AttributeFields, TakeAll, Coherent;
    var fs := RequestFields(q, a);
    var s := EncodeAll(fs)[..n];
    HeadOfCut(fs, n);
    AllTruncationNoticed(fs, [], n);
    assert [] + s == s;
    Cursors(fs, s);
  }

  lemma CutOpen(q: Request, a: Attributes, n: nat)
    requires Sendable(q) && Coherent(a) && 5 <= n < |RequestBytes(q, a)| && q.AskOpen?
    ensures Parse(RequestBytes(q, a)[..n]) == Malformed(q.id)
  {
    hide EncodeAll, TakeU8, TakeU32, TakeString, TakeAttrs, AttributeFields, TakeAll, Encode;
    AttributeBytes(a);
    var h, rest := [U8(3), U32(q.id), Str(q.path), U32(q.flags)], AttributeFields(a);
    var x, y := EncodeAll(h), EncodeAll(rest);
    EncodeAppend(h, rest);
    assert RequestFields(q, a) == h + rest;
    var s := (x + y)[..n];
    HeadOfCut(h + rest, n);
    Cursors(h, s);
    if n < |x| {
      assert s == x[..n] && [] + x[..n] == x[..n];
      AllTruncationNoticed(h, [], n);
      var c := TakeU32(s, TakeString(s, Cursor(5, false)).1).1;
      BadStays(U32(0), s, c);
      AttrsStayBad(s, c);
    } else {
      assert s == x + y[..n - |x|] && [] + x + y[..n - |x|] == s;
      TakeAllInverts(h, [], y[..n - |x|]);
      CutAttributes(a, x, n - |x|);
    }
  }

  // Answers.

  /** What a client reads in the reply to a request. */
  function Answer(w: World, root: bytes, s: Files, q: Request): Reply
    requires |s.handles| == MAX_HANDLES
  {
    DecodeReply(EncodeAll(React(w, root, s, q).1))
  }

  predicate Says(r: Reply, id: u32, code: u32) {
    r.IsStatus? && r.id == id && r.code == code
  }

  /** The status codes of section 7 of the draft. */
  const OK := 0
  const END_OF_FILE := 1
  const NO_SUCH_FILE := 2
  const PERMISSION_DENIED := 3
  const FAILURE := 4
  const BAD_MESSAGE := 5
  const UNSUPPORTED := 8

  function CodeOf(e: Errno): u32 {
    match e
    case ENOENT => NO_SUCH_FILE
    case EACCES => PERMISSION_DENIED
    case OTHER => FAILURE
  }

  /** Any status the server writes is read with its code. */
  lemma StatusIsRead(id: u32, code: u32, msg: string)
    requires |msg| <= 64
    ensures Says(DecodeReply(EncodeAll(Status(id, code, msg))), id, code)
  {
    hide EncodeAll, DecodeReply, Status, Ascii;
    StatusReadsBack(id, code, msg);
  }

  lemma AllStatusesAreRead(id: u32)
    ensures forall code: u32, msg: string :: |msg| <= 64 ==>
              Says(DecodeReply(EncodeAll(Status(id, code, msg))), id, code)
  {
    hide EncodeAll, DecodeReply, Status, Says;
    forall code: u32, msg: string | |msg| <= 64 ensures Says(DecodeReply(EncodeAll(Status(id, code, msg))), id, code) {
      StatusIsRead(id, code, msg);
    }
  }

  /** Asking about a path or a handle: the attributes, or the reason why there are none. */
  lemma StatIsAnswered(w: World, root: bytes, s: Files, id: u32, p: bytes, h: bytes)
    requires |s.handles| == MAX_HANDLES
    ensures var f := Real(root, p);
            var r := Answer(w, root, s, AskStat(id, p));
            if w.stat(f).Some? then r == IsAttributes(id, Told(w.stat(f).value)) else Says(r, id, CodeOf(w.errno(f)))
    ensures var x := Lookup(s.handles, h);
            var r := Answer(w, root, s, AskFStat(id, h));
            if x.None? then Says(r, id, FAILURE)
            else if w.stat(x.value.path).Some? then r == IsAttributes(id, Told(w.stat(x.value.path).value))
            else Says(r, id, CodeOf(w.errno(x.value.path)))
    ensures Answer(w, root, s, AskRealPath(id, p))
            == IsNames(id, [Shown(Virtual(p), Virtual(p),
                                  Told(if w.stat(Real(root, p)).Some? then w.stat(Real(root, p)).value
                                       else Stat(0, true, 0)))])
  {
    hide EncodeAll, DecodeReply, Status, Attrs, Told, Real, Virtual, Lookup, RealPathReply, Says;
    AllStatusesAreRead(id);
    RealPathReadsBack(w, root, id, p);
    var f, x := Real(root, p), Lookup(s.handles, h);
    if w.stat(f).Some? {
      AttrsReadBack(id, w.stat(f).value);
    }
    if x.Some? && w.stat(x.value.path).Some? {
      AttrsReadBack(id, w.stat(x.value.path).value);
    }
  }

  /** Nothing but a READDIR, a CLOSE, an OPEN or an OPENDIR, and calls to the file system, changes the server. */
  lemma AskingChangesNothing(w: World, root: bytes, s: Files, q: Request)
    requires |s.handles| == MAX_HANDLES
    requires !q.AskOpen? && !q.AskOpenDir? && !q.AskReadDir? && !q.AskClose?
    ensures var t := React(w, root, s, q).0; t == s.(calls := t.calls)
    ensures !q.AskWrite? && !q.AskChange? && !q.AskRename? ==> React(w, root, s, q).0 == s
  {
    hide Real, Virtual, RealPathReply, StatReply, ReadReply, Status;
  }

  /** OK after a WRITE means that these bytes were given to the file of the handle at this offset and were taken. */
  lemma WriteIsAnswered(w: World, root: bytes, s: Files, id: u32, h: bytes, off: u64, d: bytes)
    requires |s.handles| == MAX_HANDLES
    ensures var q := AskWrite(id, h, off, d);
            var (f, t, r) := (FileOf(s.handles, h), React(w, root, s, q).0, Answer(w, root, s, q));
            if f.Some? && w.seek(f.value, off) then
              && t == Called(s, Fwrite(f.value, off, d))
              && Says(r, id, if w.fwrite(f.value, off, d) then OK else FAILURE)
            else t == s && Says(r, id, FAILURE)
  {
    hide EncodeAll, DecodeReply, Status, Lookup, Says;
    AllStatusesAreRead(id);
  }

  /** OK after a CLOSE means that the handle is free and its object closed. */
  lemma CloseIsAnswered(w: World, root: bytes, s: Files, id: u32, h: bytes)
    requires |s.handles| == MAX_HANDLES
    ensures var q, x := AskClose(id, h), Lookup(s.handles, h);
            var t, r := React(w, root, s, q).0, Answer(w, root, s, q);
            if x.Some? then
              && Says(r, id, OK) && t.open == s.open - {x.value.obj} && Lookup(t.handles, h) == None
              && (forall g :: |g| == 4 && g != h ==> Lookup(t.handles, g) == Lookup(s.handles, g))
            else Says(r, id, FAILURE) && t == s
  {
    hide EncodeAll, DecodeReply, Status, Says, Value32;
    AllStatusesAreRead(id);
    forall g: bytes | |g| == 4 && g != h && |h| == 4 ensures Value32(g) != Value32(h) {
      Big32Inverts(g);
      Big32Inverts(h);
    }
  }

  /** OK after a REMOVE, MKDIR, RMDIR or RENAME means that the file system did it, to these paths. */
  lemma ChangeIsAnswered(w: World, root: bytes, s: Files, id: u32, kind: int, p: bytes, p2: bytes)
    requires |s.handles| == MAX_HANDLES
    ensures var q, f := AskChange(id, kind, p), Real(root, p);
            var t, r := React(w, root, s, q).0, Answer(w, root, s, q);
            if Virtual(p) == ['/' as int] then t == s && Says(r, id, PERMISSION_DENIED)
            else t == Called(s, Change(kind, f)) && Says(r, id, if w.change(kind, f) then OK else CodeOf(w.errno(f)))
    ensures var q, f, g := AskRename(id, p, p2), Real(root, p), Real(root, p2);
            var t, r := React(w, root, s, q).0, Answer(w, root, s, q);
            if Virtual(p) == ['/' as int] || Virtual(p2) == ['/' as int] then t == s && Says(r, id, PERMISSION_DENIED)
            else if w.stat(g).Some? then t == s && Says(r, id, FAILURE)
            else t == Called(s, Rename(f, g)) && Says(r, id, if w.rename(f, g) then OK else CodeOf(w.errno(f)))
  {
    hide EncodeAll, DecodeReply, Status, Says, Real, Virtual;
    AllStatusesAreRead(id);
  }

  /** The bits of an OPEN (section 6.3 of the draft). */
  const FOR_WRITING := 0x2
  const CREATE := 0x8
  const EMPTY_IT := 0x10
  const ONLY_NEW := 0x20

  /** Why a file that could be looked up like this is not opened, if so. */
  predicate Refused(found: Option<Stat>, flags: u32) {
    if found.Some? then found.value.dir || Flag(flags, ONLY_NEW) else !Flag(flags, CREATE)
  }

  /** The handle in the reply to an OPEN stands for the new file, opened as it was asked for: it is emptied if the
      client wants to write and says so or there was none, and never if it only reads. */
  lemma OpenIsAnswered(w: World, root: bytes, s: Files, id: u32, p: bytes, flags: u32)
    requires |s.handles| == MAX_HANDLES
    ensures var q, f := AskOpen(id, p, flags), Real(root, p);
            var found := w.stat(f);
            var mode := if !Flag(flags, FOR_WRITING) then Read
                        else if found.None? || Flag(flags, EMPTY_IT) then Truncate else Update;
            var t, r := React(w, root, s, q).0, Answer(w, root, s, q);
            if Virtual(p) == ['/' as int] || FreeFrom(s.handles, 0) == -1 || Refused(found, flags) then
              && t == s && r.IsStatus? && r.id == id
              && r.code == if Virtual(p) != ['/' as int] && FreeFrom(s.handles, 0) != -1 && found.None?
                           then NO_SUCH_FILE else FAILURE
            else if w.fopen(f, mode) then
              && r.IsHandle? && r.id == id && Lookup(s.handles, r.handle) == None
              && Lookup(t.handles, r.handle) == Some(OpenFile(s.next, f))
              && t == s.(handles := t.handles, open := s.open + {s.next}, next := s.next + 1,
                         calls := s.calls + [Fopen(f, mode)])
            else Says(r, id, CodeOf(w.errno(f))) && t == Called(s, Fopen(f, mode))
  {
    hide EncodeAll, DecodeReply, Status, HandleReply, Real, Virtual, Flag, Value32, Big32;
    AllStatusesAreRead(id);
    var i := FreeFrom(s.handles, 0);
    if i != -1 {
      HandleReadsBack(id, i);
      Value32Inverts(i);
    }
  }

  lemma OpenDirIsAnswered(w: World, root: bytes, s: Files, id: u32, p: bytes)
    requires |s.handles| == MAX_HANDLES
    ensures var q, f := AskOpenDir(id, p), Real(root, p);
            var t, r := React(w, root, s, q).0, Answer(w, root, s, q);
            if FreeFrom(s.handles, 0) == -1 then t == s && Says(r, id, FAILURE)
            else if w.list(f).None? then t == s && Says(r, id, CodeOf(w.errno(f)))
            else
              && r.IsHandle? && r.id == id && Lookup(s.handles, r.handle) == None
              && Lookup(t.handles, r.handle) == Some(OpenDir(s.next, f)) && t.rest == s.rest[s.next := w.list(f).value]
              && t == s.(handles := t.handles, open := s.open + {s.next}, next := s.next + 1, rest := t.rest)
  {
    hide EncodeAll, DecodeReply, Status, HandleReply, Real, Virtual, Value32, Big32;
    AllStatusesAreRead(id);
    var i := FreeFrom(s.handles, 0);
    if i != -1 {
      HandleReadsBack(id, i);
      Value32Inverts(i);
    }
  }

  /** READ gives bytes of the file from the offset on, no more than asked for, 32000 at most, and all there are up to
      that; END_OF_FILE only if there are none, or none were asked for. */
  lemma ReadIsAnswered(w: World, root: bytes, s: Files, id: u32, h: bytes, off: u64, want: u32)
    requires |s.handles| == MAX_HANDLES
    ensures var f := FileOf(s.handles, h);
            var r := Answer(w, root, s, AskRead(id, h, off, want));
            if f.Some? && w.seek(f.value, off) then
              var d := w.fread(f.value, off);
              if want == 0 || d == [] then Says(r, id, END_OF_FILE)
              else && r.IsData? && r.id == id && r.data <= d && 0 < |r.data| <= want && |r.data| <= 32000
                   && (|r.data| == want || |r.data| == 32000 || r.data == d)
            else Says(r, id, FAILURE)
  {
    hide EncodeAll, DecodeReply, Status, Says, Lookup;
    AllStatusesAreRead(id);
    var f := FileOf(s.handles, h);
    if f.Some? && w.seek(f.value, off) {
      var d := w.fread(f.value, off);
      DataReadsBack(id, d[..SftpPath.Min(|d|, SftpPath.Min(want, MAX_READ))]);
    }
  }

  /** READDIR gives the entries of the next batch, with their attributes and lines, or the end. */
  lemma ListingIsAnswered(w: World, root: bytes, s: Files, id: u32, h: bytes)
    requires |s.handles| == MAX_HANDLES
    ensures var x := Lookup(s.handles, h);
            var r := Answer(w, root, s, AskReadDir(id, h));
            if x.Some? && x.value.OpenDir? && x.value.obj in s.rest then
              var es := Batch(w, x.value.path, s.rest[x.value.obj]);
              if es == [] then Says(r, id, END_OF_FILE) else r == IsNames(id, AllShown(w, es))
            else Says(r, id, FAILURE)
  {
    hide EncodeAll, DecodeReply, Status, Says, Lookup, NameReply, Batch, AllShown, BatchEnd;
    AllStatusesAreRead(id);
    var x := Lookup(s.handles, h);
    if x.Some? && x.value.OpenDir? && x.value.obj in s.rest {
      var es := Batch(w, x.value.path, s.rest[x.value.obj]);
      BatchOf(w, x.value.path, s.rest[x.value.obj]);
      NamesReadBack(w, id, es);
    }
  }

  /** Everything else. */
  lemma OthersAreAnswered(w: World, root: bytes, s: Files, id: u32)
    requires |s.handles| == MAX_HANDLES
    ensures Answer(w, root, s, AskVersion) == IsVersion(3)
    ensures Says(Answer(w, root, s, AskSetStat(id)), id, OK)
    ensures Says(Answer(w, root, s, AskUnknown(id)), id, UNSUPPORTED)
    ensures Says(Answer(w, root, s, Malformed(id)), id, BAD_MESSAGE)
  {
    hide EncodeAll, Status, Says, TakeU8, TakeU32;
    AllStatusesAreRead(id);
    HeadReadsBack(2, 3, []);
    assert [U8(2), U32(3)] + [] == [U8(2), U32(3)];
    EncodeNothing();
  }

  /** An entry is looked up in its directory. */
  lemma ChildIsInside(path: bytes, e: name)
    requires '/' as int !in e
    ensures SftpPath.Components(Child(path, e)) == SftpPath.Components(path) + [e[..SftpPath.Min(|e|, 200)]]
  {
    hide SftpPath.Components;
    var c := e[..SftpPath.Min(|e|, 200)];
    PathLaws.ComponentsSplit(path, c);
    PathLaws.ComponentsOfName(c);
  }
}
