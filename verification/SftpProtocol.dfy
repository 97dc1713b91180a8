/**
  The SFTP server (version 3) as a function: what a request asks for, what is replied, what becomes of the handles,
  and what the file system is asked to do.  The answers of the file system are a record of functions.
 */
module SftpProtocol {
  import opened Machine
  import opened Options
  import opened Protocol
  import opened Codec
  import opened SftpTable
  import SftpPath
  import PathLaws

  const FXP_INIT := 1
  const FXP_VERSION := 2
  const FXP_OPEN := 3
  const FXP_CLOSE := 4
  const FXP_READ := 5
  const FXP_WRITE := 6
  const FXP_LSTAT := 7
  const FXP_FSTAT := 8
  const FXP_SETSTAT := 9
  const FXP_FSETSTAT := 10
  const FXP_OPENDIR := 11
  const FXP_READDIR := 12
  const FXP_REMOVE := 13
  const FXP_MKDIR := 14
  const FXP_RMDIR := 15
  const FXP_REALPATH := 16
  const FXP_STAT := 17
  const FXP_RENAME := 18
  const FXP_STATUS := 101
  const FXP_HANDLE := 102
  const FXP_DATA := 103
  const FXP_NAME := 104
  const FXP_ATTRS := 105

  const FX_OK := 0
  const FX_EOF := 1
  const FX_NO_SUCH_FILE := 2
  const FX_PERMISSION_DENIED := 3
  const FX_FAILURE := 4
  const FX_BAD_MESSAGE := 5
  const FX_OP_UNSUPPORTED := 8

  type size = n: int | 0 <= n < 0x8000_0000_0000_0000
  type stamp = s: bytes | |s| <= 23 witness []

  datatype Stat = Stat(size: size, dir: bool, mtime: u32)
  datatype Errno = ENOENT | EACCES | OTHER
  /** What the C library answers while one request is handled. */
  datatype World = World(
    stat: bytes -> Option<Stat>,
    list: bytes -> Option<seq<name>>,
    fopen: (bytes, Mode) -> bool,
    seek: (nat, u64) -> bool,
    fread: (nat, u64) -> bytes,
    fwrite: (nat, u64, bytes) -> bool,
    change: (int, bytes) -> bool,
    rename: (bytes, bytes) -> bool,
    errno: bytes -> Errno,
    when: u32 -> stamp)

  function ErrnoStatus(e: Errno): u32 {
    match e
    case ENOENT => FX_NO_SUCH_FILE
    case EACCES => FX_PERMISSION_DENIED
    case OTHER => FX_FAILURE
  }

  // Replies.

  function Status(id: u32, code: u32, msg: string): (fs: seq<Field>)
    requires |msg| <= 64
    ensures AllStorable(fs)
  {
    [U8(FXP_STATUS), U32(id), U32(code), Str(Ascii(msg)), Str([])]
  }

  function Attrs(st: Stat): (fs: seq<Field>)
    ensures AllStorable(fs)
  {
    [U32(13), U64(st.size), U32(if st.dir then 16877 else 33188), U32(st.mtime), U32(st.mtime)]
  }

  function HandleReply(id: u32, i: nat): (fs: seq<Field>)
    requires i < MAX_HANDLES
    ensures AllStorable(fs)
  {
    [U8(FXP_HANDLE), U32(id), Str(Big32(i))]
  }

  function Digits(n: nat): (s: bytes)
    ensures |s| >= 1 && forall k :: 0 <= k < |s| ==> s[k] != 0
  {
    if n < 10 then [48 + n] else Digits(n / 10) + [48 + n % 10]
  }

  function Spaces(n: int): bytes
    decreases n
  {
    if n <= 0 then [] else [32] + Spaces(n - 1)
  }

  /** The line that a client shows for an entry, cut to the 400 bytes of its buffer. */
  function Longname(w: World, e: bytes, st: Stat): (s: bytes)
    ensures |s| <= 399
  {
    var mode := Ascii(if st.dir then "drwxr-xr-x" else "-rw-r--r--");
    var size := Spaces(10 - |Digits(st.size)|) + Digits(st.size);
    var s := mode + Ascii(" 1 byok byok ") + size + [32] + w.when(st.mtime) + [32] + e;
    s[..SftpPath.Min(|s|, 399)]
  }

  /** The path under which the entry of a directory is looked up: the name is cut to 200 bytes. */
  function Child(path: bytes, e: bytes): bytes {
    path + [SftpPath.SLASH] + e[..SftpPath.Min(|e|, 200)]
  }

  datatype Entry = Entry(name: name, st: Stat)

  /** The entries that a listing shows: those whose look-up succeeds, in order. */
  function Listed(w: World, path: bytes, names: seq<name>): seq<Entry>
    decreases |names|
  {
    if names == [] then []
    else
      var e := names[|names| - 1];
      var found := w.stat(Child(path, e));
      Listed(w, path, names[..|names| - 1]) + if found.Some? then [Entry(e, found.value)] else []
  }

  function EntryFields(w: World, e: Entry): (fs: seq<Field>)
    ensures AllStorable(fs) && |fs| == 7
  {
    [Str(e.name), Str(Longname(w, e.name, e.st))] + Attrs(e.st)
  }

  function EntriesFields(w: World, es: seq<Entry>): (fs: seq<Field>)
    ensures AllStorable(fs) && |fs| == 7 * |es|
    decreases |es|
  {
    if es == [] then [] else EntriesFields(w, es[..|es| - 1]) + EntryFields(w, es[|es| - 1])
  }

  function NameReply(w: World, id: u32, es: seq<Entry>): (fs: seq<Field>)
    requires |es| < TWO_32
    ensures AllStorable(fs)
  {
    [U8(FXP_NAME), U32(id), U32(|es|)] + EntriesFields(w, es)
  }

  // Sizes.

  ghost predicate AtMost(fs: seq<Field>, b: nat) {
    AllStorable(fs) && forall k :: 0 <= k < |fs| ==> |Encode(fs[k])| <= b
  }

  lemma {:induction false} SizeBound(fs: seq<Field>, b: nat)
    requires AtMost(fs, b)
    ensures |EncodeAll(fs)| <= b * |fs|
    decreases |fs|
  {
    hide Encode;
    if fs != [] {
      assert forall k :: 0 <= k < |fs[1..]| ==> fs[1..][k] == fs[k + 1];
      SizeBound(fs[1..], b);
      assert b * |fs| == b * |fs[1..]| + b;
    }
  }

  lemma EntrySize(w: World, e: Entry)
    ensures |EncodeAll(EntryFields(w, e))| <= 702
  {
    hide EncodeAll, Longname;
    var a, b, c := [Str(e.name)], [Str(Longname(w, e.name, e.st))], Attrs(e.st);
    SizeBound(a, 259);
    SizeBound(b, 403);
    SizeBound(c, 8);
    EncodeAppend(a, b);
    EncodeAppend(a + b, c);
    assert a + b + c == EntryFields(w, e);
  }

  lemma ListedSnoc(w: World, path: bytes, names: seq<name>, e: name)
    ensures var found := w.stat(Child(path, e));
            Listed(w, path, names + [e]) == Listed(w, path, names) + if found.Some? then [Entry(e, found.value)] else []
  {
    assert (names + [e])[..|names|] == names;
  }

  lemma EntriesSnoc(w: World, es: seq<Entry>, e: Entry)
    ensures EntriesFields(w, es + [e]) == EntriesFields(w, es) + EntryFields(w, e)
    ensures EncodeAll(EntriesFields(w, es + [e])) == EncodeAll(EntriesFields(w, es)) + EncodeAll(EntryFields(w, e))
  {
    hide EncodeAll, EntryFields;
    assert (es + [e])[..|es|] == es;
    EncodeAppend(EntriesFields(w, es), EntryFields(w, e));
  }

  lemma {:induction false} ListedAppend(w: World, path: bytes, a: seq<name>, b: seq<name>)
    ensures Listed(w, path, a + b) == Listed(w, path, a) + Listed(w, path, b)
    decreases |b|
  {
    if b == [] {
      assert a + b == a;
    } else {
      var init, last := b[..|b| - 1], b[|b| - 1];
      ListedAppend(w, path, a, init);
      ListedSnoc(w, path, a + init, last);
      assert a + init + [last] == a + b;
    }
  }

  // Attributes of a request are skipped.

  function Flag(flags: u32, bit: u32): bool
    requires bit > 0
  {
    flags / bit % 2 == 1
  }

  function TakePairs(s: bytes, c: Cursor, n: nat): Cursor
    decreases n
  {
    if n == 0 || c.bad then c else TakePairs(s, TakeString(s, TakeString(s, c).1).1, n - 1)
  }

  function TakeAttrs(s: bytes, c: Cursor): Cursor {
    var (flags, c0) := TakeU32(s, c);
    var c1 := if Flag(flags, 1) then TakeU64(s, c0).1 else c0;
    var c2 := if Flag(flags, 2) then TakeU32(s, TakeU32(s, c1).1).1 else c1;
    var c3 := if Flag(flags, 4) then TakeU32(s, c2).1 else c2;
    var c4 := if Flag(flags, 8) then TakeU32(s, TakeU32(s, c3).1).1 else c3;
    if Flag(flags, 0x8000_0000) then (var (n, c5) := TakeU32(s, c4); TakePairs(s, c5, n)) else c4
  }


  // Batches of a listing.

  /** How long a listing reply is with these entries. */
  function Written(w: World, es: seq<Entry>): nat {
    9 + |EncodeAll(EntriesFields(w, es))|
  }

  /** How many names are taken for one reply, of which k are already: names are taken until 32 entries were found or
      the reply leaves less than 1200 bytes of the buffer. */
  function BatchEnd(w: World, path: bytes, names: seq<name>, k: nat): (n: nat)
    requires k <= |names|
    ensures k <= n <= |names|
    decreases |names| - k
  {
    var es := Listed(w, path, names[..k]);
    if k == |names| || |es| >= 32 || Written(w, es) >= REPLY_CAP - 1200 then k else BatchEnd(w, path, names, k + 1)
  }

  /** The entries of the next reply. */
  function Batch(w: World, path: bytes, names: seq<name>): seq<Entry> {
    Listed(w, path, names[..BatchEnd(w, path, names, 0)])
  }

  /** The names that each reply takes until the end, asked from time n on: the file system may answer each request
      differently. */
  function Shares(world: nat -> World, n: nat, path: bytes, names: seq<name>): (r: seq<seq<name>>)
    ensures r != []
    decreases |names|
  {
    var w := world(n);
    var k := BatchEnd(w, path, names, 0);
    if Batch(w, path, names) == [] then [names]
    else
      assert names[..0] == [];
      [names[..k]] + Shares(world, n + 1, path, names[k..])
  }

  /** The entries of all replies until the end, reply by reply. */
  function Batches(world: nat -> World, n: nat, path: bytes, names: seq<name>): seq<seq<Entry>>
    decreases |names|
  {
    var w := world(n);
    var k := BatchEnd(w, path, names, 0);
    if Batch(w, path, names) == [] then []
    else
      assert names[..0] == [];
      [Batch(w, path, names)] + Batches(world, n + 1, path, names[k..])
  }

  function Flat<T>(bs: seq<seq<T>>): seq<T>
    decreases |bs|
  {
    if bs == [] then [] else bs[0] + Flat(bs[1..])
  }

  /** A batch has at most 32 entries, and fits; it is empty only if no entry is left. */
  lemma {:induction false} BatchFits(w: World, path: bytes, names: seq<name>, k: nat)
    requires k <= |names| && var es := Listed(w, path, names[..k]); |es| <= 32 && Written(w, es) <= REPLY_CAP
    ensures var n := BatchEnd(w, path, names, k);
            var es := Listed(w, path, names[..n]);
            |es| <= 32 && Written(w, es) <= REPLY_CAP && (es == [] ==> n == |names|)
    decreases |names| - k
  {
    hide EncodeAll, EntriesFields, Listed;
    var es := Listed(w, path, names[..k]);
    if k == |names| || |es| >= 32 || Written(w, es) >= REPLY_CAP - 1200 {
      if es == [] {
        NothingListed(w, path);
      }
    } else {
      OneMoreFits(w, path, names, k);
      BatchFits(w, path, names, k + 1);
    }
  }

  lemma OneMoreFits(w: World, path: bytes, names: seq<name>, k: nat)
    requires k < |names|
    ensures var es, fs := Listed(w, path, names[..k]), Listed(w, path, names[..k + 1]);
            |fs| <= |es| + 1 && Written(w, fs) <= Written(w, es) + 702
  {
    hide EncodeAll, EntriesFields, EntryFields, Listed, Child;
    var es := Listed(w, path, names[..k]);
    var found := w.stat(Child(path, names[k]));
    assert names[..k + 1] == names[..k] + [names[k]];
    ListedSnoc(w, path, names[..k], names[k]);
    assert es + [] == es;
    if found.Some? {
      EntriesSnoc(w, es, Entry(names[k], found.value));
      EntrySize(w, Entry(names[k], found.value));
    }
  }

  lemma NothingListed(w: World, path: bytes)
    ensures Listed(w, path, []) == [] && EncodeAll(EntriesFields(w, [])) == [] && Written(w, []) == 9
  {
  }

  /** Every batch shows what could be looked up of its share when it was its turn, 1 to 32 entries; and of the last
      share nothing could. */
  ghost predicate InTurn(world: nat -> World, n: nat, path: bytes, shares: seq<seq<name>>, bs: seq<seq<Entry>>) {
    && |shares| == |bs| + 1
    && (forall i :: 0 <= i < |bs| ==> bs[i] == Listed(world(n + i), path, shares[i]) && 1 <= |bs[i]| <= 32)
    && Listed(world(n + |bs|), path, shares[|bs|]) == []
  }

  lemma InTurnCons(world: nat -> World, n: nat, path: bytes, share: seq<name>, shares: seq<seq<name>>,
                   bs: seq<seq<Entry>>)
    requires InTurn(world, n + 1, path, shares, bs) && 1 <= |Listed(world(n), path, share)| <= 32
    ensures InTurn(world, n, path, [share] + shares, [Listed(world(n), path, share)] + bs)
  {
    hide Listed;
    var all, more := [share] + shares, [Listed(world(n), path, share)] + bs;
    forall i | 0 <= i < |more| ensures more[i] == Listed(world(n + i), path, all[i]) && 1 <= |more[i]| <= 32 {
      if i > 0 {
        assert more[i] == bs[i - 1] && all[i] == shares[i - 1] && n + 1 + (i - 1) == n + i;
      }
    }
    assert all[|more|] == shares[|bs|] && n + 1 + |bs| == n + |more|;
  }

  /** Asking until the end goes through every name of the directory once and in order, and shows it exactly if its
      look-up succeeds when it is its turn, 1 to 32 at a time; the last request finds nothing more. */
  lemma {:induction false} BatchesAreAll(world: nat -> World, n: nat, path: bytes, names: seq<name>)
    ensures Flat(Shares(world, n, path, names)) == names
    ensures InTurn(world, n, path, Shares(world, n, path, names), Batches(world, n, path, names))
    decreases |names|
  {
    hide Listed, BatchEnd, Written, InTurn, Flat;
    var k := BatchEnd(world(n), path, names, 0);
    BatchOf(world(n), path, names);
    NothingListed(world(n), path);
    assert names[..0] == [];
    if Batch(world(n), path, names) == [] {
      assert names[..k] == names;
      LastTurn(world, n, path, names);
    } else {
      var shares, bs := Shares(world, n + 1, path, names[k..]), Batches(world, n + 1, path, names[k..]);
      BatchesAreAll(world, n + 1, path, names[k..]);
      InTurnCons(world, n, path, names[..k], shares, bs);
      FlatCons(names[..k], shares);
      assert names[..k] + names[k..] == names;
    }
  }

  lemma LastTurn(world: nat -> World, n: nat, path: bytes, names: seq<name>)
    requires Listed(world(n), path, names) == []
    ensures InTurn(world, n, path, [names], []) && Flat([names]) == names
  {
    hide Listed;
    FlatCons(names, []);
    assert [names] + [] == [names] && names + [] == names;
  }

  lemma FlatCons<T>(a: seq<T>, bs: seq<seq<T>>)
    ensures Flat([a] + bs) == a + Flat(bs)
  {
    assert ([a] + bs)[1..] == bs;
  }

  /** If the file system does not change its answers, the replies together show what a listing in one piece shows. */
  lemma {:induction false} SteadyListing(world: nat -> World, n: nat, path: bytes, names: seq<name>)
    requires forall i :: i >= n ==> world(i) == world(n)
    ensures Flat(Batches(world, n, path, names)) == Listed(world(n), path, names)
    decreases |names|
  {
    hide Listed, BatchEnd, Written;
    var w := world(n);
    var k := BatchEnd(w, path, names, 0);
    assert names[..0] == [];
    NothingListed(w, path);
    BatchFits(w, path, names, 0);
    if Batch(w, path, names) == [] {
      assert names[..k] == names;
    } else {
      SteadyListing(world, n + 1, path, names[k..]);
      assert names[..k] + names[k..] == names;
      ListedAppend(w, path, names[..k], names[k..]);
      var bs := Batches(world, n, path, names);
      assert bs[0] == Batch(w, path, names) && bs[1..] == Batches(world, n + 1, path, names[k..]);
    }
  }

  // Requests.

  datatype Request =
    | AskVersion
    | AskRealPath(id: u32, path: bytes)
    | AskStat(id: u32, path: bytes)
    | AskFStat(id: u32, handle: bytes)
    | AskSetStat(id: u32)
    | AskOpenDir(id: u32, path: bytes)
    | AskReadDir(id: u32, handle: bytes)
    | AskOpen(id: u32, path: bytes, flags: u32)
    | AskRead(id: u32, handle: bytes, off: u64, want: u32)
    | AskWrite(id: u32, handle: bytes, off: u64, data: bytes)
    | AskClose(id: u32, handle: bytes)
    | AskChange(id: u32, kind: int, path: bytes)
    | AskRename(id: u32, path: bytes, target: bytes)
    | AskUnknown(id: u32)
    | Malformed(id: u32)

  predicate PathKind(kind: int) {
    kind in {FXP_REALPATH, FXP_STAT, FXP_LSTAT, FXP_OPENDIR, FXP_OPEN, FXP_REMOVE, FXP_RMDIR, FXP_MKDIR}
  }

  predicate HandleKind(kind: int) {
    kind in {FXP_FSTAT, FXP_READDIR, FXP_CLOSE, FXP_READ, FXP_WRITE}
  }

  function ParsePath(kind: int, id: u32, s: bytes, c: Cursor): Request {
    var (p, c1) := TakeString(s, c);
    var (flags, c2) := if kind == FXP_OPEN then TakeU32(s, c1) else (0, c1);
    var c3 := if kind == FXP_OPEN then TakeAttrs(s, c2) else c2;
    if c3.bad then Malformed(id)
    else if kind == FXP_REALPATH then AskRealPath(id, p)
    else if kind == FXP_STAT || kind == FXP_LSTAT then AskStat(id, p)
    else if kind == FXP_OPENDIR then AskOpenDir(id, p)
    else if kind == FXP_OPEN then AskOpen(id, p, flags)
    else AskChange(id, kind, p)
  }

  /** A handle that cannot be read is a bad handle, not a malformed request. */
  function ParseHandle(kind: int, id: u32, s: bytes, c: Cursor): Request {
    var (h, c1) := TakeString(s, c);
    if kind == FXP_FSTAT then AskFStat(id, h)
    else if kind == FXP_READDIR then AskReadDir(id, h)
    else if kind == FXP_CLOSE then AskClose(id, h)
    else
      var (off, c2) := TakeU64(s, c1);
      if kind == FXP_READ then
        var (want, c3) := TakeU32(s, c2);
        if c3.bad then Malformed(id) else AskRead(id, h, off, want)
      else
        var (d, c3) := TakeString(s, c2);
        if c3.bad then Malformed(id) else AskWrite(id, h, off, d)
  }

  function ParseOther(kind: int, id: u32, s: bytes, c: Cursor): Request {
    if kind == FXP_RENAME then
      var (p1, c1) := TakeString(s, c);
      var (p2, c2) := TakeString(s, c1);
      if c2.bad then Malformed(id) else AskRename(id, p1, p2)
    else if kind == FXP_SETSTAT || kind == FXP_FSETSTAT then AskSetStat(id)
    else AskUnknown(id)
  }

  function ParseBody(kind: int, id: u32, s: bytes, c: Cursor): Request {
    if PathKind(kind) then ParsePath(kind, id, s, c)
    else if HandleKind(kind) then ParseHandle(kind, id, s, c)
    else ParseOther(kind, id, s, c)
  }

  function Parse(s: bytes): Request {
    var (kind, c) := TakeU8(s, Cursor(0, false));
    if kind == FXP_INIT then AskVersion
    else
      var (id, c1) := TakeU32(s, c);
      ParseBody(kind, id, s, c1)
  }

  // The server.

  /** What a handle of four bytes stands for. */
  function Lookup(t: seq<Option<Owned>>, h: bytes): (x: Option<Owned>)
    ensures x.Some? ==> |h| == 4 && Value32(h) < |t| && x == t[Value32(h)]
  {
    if |h| == 4 && Value32(h) < |t| then t[Value32(h)] else None
  }

  function FileOf(t: seq<Option<Owned>>, h: bytes): Option<nat> {
    var x := Lookup(t, h);
    if x.Some? && x.value.OpenFile? then Some(x.value.obj) else None
  }

  function Virtual(p: bytes): bytes {
    SftpPath.Limited(p, SftpPath.PATH_MAX)
  }

  function Real(root: bytes, p: bytes): bytes {
    SftpPath.Full(root, Virtual(p))
  }

  function RealPathReply(w: World, root: bytes, id: u32, p: bytes): (fs: seq<Field>)
    ensures AtMost(fs, 500) && |fs| == 10 && fs[0].U8? && fs[1] == U32(id)
  {
    hide SftpPath.Limited;
    var found := w.stat(Real(root, p));
    LimitedFits(p);
    [U8(FXP_NAME), U32(id), U32(1), Str(Virtual(p)), Str(Virtual(p))]
    + Attrs(if found.Some? then found.value else Stat(0, true, 0))
  }

  function StatReply(w: World, id: u32, path: bytes, msg: string): (fs: seq<Field>)
    requires |msg| <= 64
    ensures AllStorable(fs)
  {
    var found := w.stat(path);
    if found.None? then Status(id, ErrnoStatus(w.errno(path)), msg) else [U8(FXP_ATTRS), U32(id)] + Attrs(found.value)
  }

  function OpenMode(flags: u32, exists_: bool): Mode {
    if !Flag(flags, 2) then Read else if Flag(flags, 16) || !exists_ then Truncate else Update
  }

  /** Why a file is not even opened, if so. */
  function Refusal(w: World, v: bytes, f: bytes, flags: u32, full: bool): (r: Option<(u32, string)>)
    ensures r.Some? ==> |r.value.1| <= 64
  {
    var found := w.stat(f);
    if v == [SftpPath.SLASH] then Some((FX_FAILURE, "is a directory"))
    else if full then Some((FX_FAILURE, "too many open handles"))
    else if found.Some? && found.value.dir then Some((FX_FAILURE, "is a directory"))
    else if Flag(flags, 32) && found.Some? then Some((FX_FAILURE, "already exists"))
    else if found.None? && !Flag(flags, 8) then Some((FX_NO_SUCH_FILE, "no such file"))
    else None
  }

  /** A new object takes a handle. */
  function Hold(s: Files, i: nat, x: Owned): Files
    requires i < |s.handles|
  {
    s.(handles := s.handles[i := Some(x)], open := s.open + {s.next}, next := s.next + 1)
  }

  function Called(s: Files, c: Call): Files {
    s.(calls := s.calls + [c])
  }

  function ReactOpen(w: World, root: bytes, s: Files, id: u32, p: bytes, flags: u32): (r: (Files, seq<Field>))
    requires |s.handles| == MAX_HANDLES
    ensures AllStorable(r.1)
  {
    var f, i := Real(root, p), FreeFrom(s.handles, 0);
    var refusal := Refusal(w, Virtual(p), f, flags, i == -1);
    if refusal.Some? then (s, Status(id, refusal.value.0, refusal.value.1))
    else
      var mode := OpenMode(flags, w.stat(f).Some?);
      var t := Called(s, Fopen(f, mode));
      if !w.fopen(f, mode) then (t, Status(id, ErrnoStatus(w.errno(f)), "cannot open"))
      else (Hold(t, i, OpenFile(s.next, f)), HandleReply(id, i))
  }

  function ReactOpenDir(w: World, root: bytes, s: Files, id: u32, p: bytes): (r: (Files, seq<Field>))
    requires |s.handles| == MAX_HANDLES
    ensures AllStorable(r.1)
  {
    var f, i := Real(root, p), FreeFrom(s.handles, 0);
    if i == -1 then (s, Status(id, FX_FAILURE, "too many open handles"))
    else if w.list(f).None? then (s, Status(id, ErrnoStatus(w.errno(f)), "cannot open directory"))
    else (Hold(s, i, OpenDir(s.next, f)).(rest := s.rest[s.next := w.list(f).value]), HandleReply(id, i))
  }

  function ReactReadDir(w: World, s: Files, id: u32, h: bytes): (r: (Files, seq<Field>))
    ensures AllStorable(r.1)
  {
    var x := Lookup(s.handles, h);
    if x.None? || x.value.OpenFile? || x.value.obj !in s.rest then (s, Status(id, FX_FAILURE, "bad handle"))
    else
      var names := s.rest[x.value.obj];
      var es := Batch(w, x.value.path, names);
      BatchOf(w, x.value.path, names);
      (s.(rest := s.rest[x.value.obj := names[BatchEnd(w, x.value.path, names, 0)..]]),
       if es == [] then Status(id, FX_EOF, "end of directory") else NameReply(w, id, es))
  }

  lemma BatchOf(w: World, path: bytes, names: seq<name>)
    ensures var es := Batch(w, path, names);
            |es| <= 32 && Written(w, es) <= REPLY_CAP && (es == [] ==> BatchEnd(w, path, names, 0) == |names|)
  {
    hide Listed, BatchEnd, Written;
    assert names[..0] == [];
    NothingListed(w, path);
    BatchFits(w, path, names, 0);
  }

  function ReadReply(w: World, id: u32, f: nat, off: u64, want: u32): (fs: seq<Field>)
    ensures AllStorable(fs)
  {
    if !w.seek(f, off) then Status(id, FX_FAILURE, "seek failed")
    else
      var data := w.fread(f, off);
      var got := data[..SftpPath.Min(|data|, SftpPath.Min(want, MAX_READ))];
      if got == [] then Status(id, FX_EOF, "end of file") else [U8(FXP_DATA), U32(id), Str(got)]
  }

  function ReactWrite(w: World, s: Files, id: u32, h: bytes, off: u64, d: bytes): (r: (Files, seq<Field>))
    ensures AllStorable(r.1)
  {
    var f := FileOf(s.handles, h);
    if f.None? then (s, Status(id, FX_FAILURE, "bad handle"))
    else if !w.seek(f.value, off) then (s, Status(id, FX_FAILURE, "write failed"))
    else
      var t := Called(s, Fwrite(f.value, off, d));
      (t, if w.fwrite(f.value, off, d) then Status(id, FX_OK, "") else Status(id, FX_FAILURE, "write failed"))
  }

  function ReactClose(s: Files, id: u32, h: bytes): (r: (Files, seq<Field>))
    ensures AllStorable(r.1)
  {
    var x := Lookup(s.handles, h);
    if x.None? then (s, Status(id, FX_FAILURE, "bad handle"))
    else (s.(handles := s.handles[Value32(h) := None], open := s.open - {x.value.obj}), Status(id, FX_OK, ""))
  }

  function ReactChange(w: World, root: bytes, s: Files, id: u32, kind: int, p: bytes): (r: (Files, seq<Field>))
    ensures AllStorable(r.1)
  {
    var f := Real(root, p);
    if Virtual(p) == [SftpPath.SLASH] then (s, Status(id, FX_PERMISSION_DENIED, "not the root"))
    else (Called(s, Change(kind, f)),
          if w.change(kind, f) then Status(id, FX_OK, "")
          else Status(id, ErrnoStatus(w.errno(f)), if kind == FXP_MKDIR then "cannot create" else "cannot remove"))
  }

  function ReactRename(w: World, root: bytes, s: Files, id: u32, p1: bytes, p2: bytes): (r: (Files, seq<Field>))
    ensures AllStorable(r.1)
  {
    var f1, f2 := Real(root, p1), Real(root, p2);
    if Virtual(p1) == [SftpPath.SLASH] || Virtual(p2) == [SftpPath.SLASH] then
      (s, Status(id, FX_PERMISSION_DENIED, "not the root"))
    else if w.stat(f2).Some? then (s, Status(id, FX_FAILURE, "target exists"))
    else (Called(s, Rename(f1, f2)),
          if w.rename(f1, f2) then Status(id, FX_OK, "") else Status(id, ErrnoStatus(w.errno(f1)), "rename failed"))
  }

  /** What becomes of a request: the new state, and the fields of the reply. */
  function React(w: World, root: bytes, s: Files, q: Request): (r: (Files, seq<Field>))
    requires |s.handles| == MAX_HANDLES
    ensures AllStorable(r.1)
  {
    match q
    case AskVersion => (s, [U8(FXP_VERSION), U32(3)])
    case AskRealPath(id, p) => (s, RealPathReply(w, root, id, p))
    case AskStat(id, p) => (s, StatReply(w, id, Real(root, p), "no such file"))
    case AskFStat(id, h) =>
      var x := Lookup(s.handles, h);
      (s, if x.None? then Status(id, FX_FAILURE, "bad handle") else StatReply(w, id, x.value.path, "stat failed"))
    case AskSetStat(id) => (s, Status(id, FX_OK, ""))
    case AskOpenDir(id, p) => ReactOpenDir(w, root, s, id, p)
    case AskReadDir(id, h) => ReactReadDir(w, s, id, h)
    case AskOpen(id, p, flags) => ReactOpen(w, root, s, id, p, flags)
    case AskRead(id, h, off, want) =>
      var f := FileOf(s.handles, h);
      (s, if f.None? then Status(id, FX_FAILURE, "bad handle") else ReadReply(w, id, f.value, off, want))
    case AskWrite(id, h, off, d) => ReactWrite(w, s, id, h, off, d)
    case AskClose(id, h) => ReactClose(s, id, h)
    case AskChange(id, kind, p) => ReactChange(w, root, s, id, kind, p)
    case AskRename(id, p1, p2) => ReactRename(w, root, s, id, p1, p2)
    case AskUnknown(id) => (s, Status(id, FX_OP_UNSUPPORTED, "not supported"))
    case Malformed(id) => (s, Status(id, FX_BAD_MESSAGE, "malformed request"))
  }

  lemma LimitedFits(p: bytes)
    ensures |Virtual(p)| < SftpPath.PATH_MAX
  {
    hide SftpPath.Stacked;
  }

  /** The state and everything sent, after one more request. */
  function Served(w: World, root: bytes, q: Request, s: Files, sent: seq<bytes>): (Files, seq<bytes>)
    requires |s.handles| == MAX_HANDLES
  {
    var (t, fs) := React(w, root, s, q);
    (t, sent + [EncodeAll(fs)])
  }

  // What the server keeps.

  /** A reply of the right shape: it fits, starts with a kind and gives the number of its request back. */
  lemma ReplyFits(w: World, root: bytes, s: Files, q: Request)
    requires |s.handles| == MAX_HANDLES
    ensures var fs := React(w, root, s, q).1;
            && |fs| >= 2 && fs[0].U8? && (!q.AskVersion? ==> fs[1] == U32(q.id))
            && |EncodeAll(fs)| <= REPLY_CAP
  {
    hide EncodeAll, Listed, BatchEnd, Batch, ReactReadDir, ReactOpen, ReactOpenDir, ReactClose, ReactWrite, ReactChange;
    hide ReactRename, StatReply, RealPathReply, Real, Status, Lookup, ReadReply;
    var fs := React(w, root, s, q).1;
    if q.AskReadDir? {
      NamesFit(w, s, q.id, q.handle);
    } else if q.AskRead? && FileOf(s.handles, q.handle).Some? {
      DataFits(w, q.id, FileOf(s.handles, q.handle).value, q.off, q.want);
    } else if q.AskVersion? {
      SizeBound(fs, 500);
    } else {
      SmallFits(w, root, s, q);
      SmallBound(fs, q.id);
    }
  }

  lemma StatusIsSmall(id: u32, code: u32, msg: string)
    requires |msg| <= 64
    ensures AtMost(Status(id, code, msg), 500) && |Status(id, code, msg)| == 5
  {
  }

  lemma NamesFit(w: World, s: Files, id: u32, h: bytes)
    ensures var fs := ReactReadDir(w, s, id, h).1;
            |fs| >= 2 && fs[0].U8? && fs[1] == U32(id) && |EncodeAll(fs)| <= REPLY_CAP
  {
    hide EncodeAll, Encode, Ascii, BatchEnd, Batch, EntriesFields, Big32;
    var x := Lookup(s.handles, h);
    StatusIsSmall(id, FX_FAILURE, "bad handle");
    StatusIsSmall(id, FX_EOF, "end of directory");
    SizeBound(Status(id, FX_FAILURE, "bad handle"), 500);
    SizeBound(Status(id, FX_EOF, "end of directory"), 500);
    if x.Some? && x.value.OpenDir? && x.value.obj in s.rest {
      var names := s.rest[x.value.obj];
      BatchOf(w, x.value.path, names);
      NameFields(w, id, Batch(w, x.value.path, names));
    }
  }

  lemma DataFits(w: World, id: u32, f: nat, off: u64, want: u32)
    ensures var fs := ReadReply(w, id, f, off, want);
            |fs| >= 2 && fs[0].U8? && fs[1] == U32(id) && |EncodeAll(fs)| <= REPLY_CAP
  {
    hide EncodeAll, Encode, Ascii, Big32;
    StatusIsSmall(id, FX_FAILURE, "seek failed");
    StatusIsSmall(id, FX_EOF, "end of file");
    SizeBound(Status(id, FX_FAILURE, "seek failed"), 500);
    SizeBound(Status(id, FX_EOF, "end of file"), 500);
    var data := w.fread(f, off);
    DataFields(id, data[..SftpPath.Min(|data|, SftpPath.Min(want, MAX_READ))]);
  }

  /** A reply of a few short fields to this request. */
  ghost predicate Small(fs: seq<Field>, id: u32) {
    AtMost(fs, 500) && 2 <= |fs| <= 12 && fs[0].U8? && fs[1] == U32(id)
  }

  lemma SmallReplies(id: u32)
    ensures forall code: u32, msg: string :: |msg| <= 64 ==> Small(Status(id, code, msg), id)
    ensures forall st: Stat :: Small([U8(FXP_ATTRS), U32(id)] + Attrs(st), id)
    ensures forall i: nat :: i < MAX_HANDLES ==> Small(HandleReply(id, i), id)
  {
  }

  lemma SmallOpen(w: World, root: bytes, s: Files, id: u32, p: bytes, flags: u32)
    requires |s.handles| == MAX_HANDLES
    ensures Small(ReactOpen(w, root, s, id, p, flags).1, id)
  {
    hide Real, Virtual, Small, Flag, Status, HandleReply, OpenMode, Hold;
    SmallReplies(id);
  }

  lemma SmallTable(w: World, root: bytes, s: Files, id: u32, p: bytes, h: bytes, off: u64, d: bytes)
    requires |s.handles| == MAX_HANDLES
    ensures Small(ReactOpenDir(w, root, s, id, p).1, id) && Small(ReactClose(s, id, h).1, id)
    ensures Small(ReactWrite(w, s, id, h, off, d).1, id)
  {
    hide Real, Small, Status, HandleReply, Hold;
    SmallReplies(id);
  }

  lemma SmallPath(w: World, root: bytes, s: Files, id: u32, kind: int, p: bytes, p2: bytes, msg: string)
    requires |msg| <= 64
    ensures Small(ReactChange(w, root, s, id, kind, p).1, id) && Small(ReactRename(w, root, s, id, p, p2).1, id)
    ensures Small(StatReply(w, id, p, msg), id)
  {
    hide Real, Virtual, Small, Status, Attrs;
    SmallReplies(id);
  }

  lemma SmallFits(w: World, root: bytes, s: Files, q: Request)
    requires |s.handles| == MAX_HANDLES && !q.AskReadDir? && !q.AskVersion?
    requires q.AskRead? ==> FileOf(s.handles, q.handle).None?
    ensures Small(React(w, root, s, q).1, q.id)
  {
    hide Small, ReactOpen, ReactOpenDir, ReactClose, ReactWrite, ReactChange, ReactRename, StatReply, RealPathReply;
    hide Real, Status, Lookup, ReactReadDir, ReadReply;
    SmallReplies(q.id);
    match q
    case AskRealPath(id, p) => SmallRealPath(w, root, id, p);
    case AskStat(id, p) => SmallPath(w, root, s, id, 0, Real(root, p), [], "no such file");
    case AskFStat(id, h) =>
      if Lookup(s.handles, h).Some? {
        SmallPath(w, root, s, id, 0, Lookup(s.handles, h).value.path, [], "stat failed");
      }
    case AskOpen(id, p, flags) => SmallOpen(w, root, s, id, p, flags);
    case AskOpenDir(id, p) => SmallTable(w, root, s, id, p, [], 0, []);
    case AskClose(id, h) => SmallTable(w, root, s, id, [], h, 0, []);
    case AskWrite(id, h, off, d) => SmallTable(w, root, s, id, [], h, off, d);
    case AskChange(id, kind, p) => SmallPath(w, root, s, id, kind, p, [], "");
    case AskRename(id, p1, p2) => SmallPath(w, root, s, id, 0, p1, p2, "");
    case _ =>
  }

  lemma SmallRealPath(w: World, root: bytes, id: u32, p: bytes)
    ensures Small(RealPathReply(w, root, id, p), id)
  {
    hide RealPathReply;
  }

  lemma SmallBound(fs: seq<Field>, id: u32)
    requires Small(fs, id)
    ensures |EncodeAll(fs)| <= REPLY_CAP
  {
    hide EncodeAll, Encode;
    SizeBound(fs, 500);
  }

  lemma NameFields(w: World, id: u32, es: seq<Entry>)
    requires |es| < TWO_32
    ensures EncodeAll(NameReply(w, id, es)) == [FXP_NAME] + Big32(id) + Big32(|es|) + EncodeAll(EntriesFields(w, es))
  {
    hide Big32, EntriesFields;
    var fs := [U32(|es|)] + EntriesFields(w, es);
    assert fs[1..] == EntriesFields(w, es);
    assert EncodeAll(fs) == Big32(|es|) + EncodeAll(EntriesFields(w, es));
    HeadFields(FXP_NAME, id, fs);
    assert [U8(FXP_NAME), U32(id)] + fs == NameReply(w, id, es);
  }

  lemma HeadFields(kind: u8, id: u32, fs: seq<Field>)
    requires AllStorable(fs)
    ensures AllStorable([U8(kind), U32(id)] + fs)
    ensures EncodeAll([U8(kind), U32(id)] + fs) == [kind] + Big32(id) + EncodeAll(fs)
  {
    hide Big32;
    var all := [U8(kind), U32(id)] + fs;
    assert all[1..] == [U32(id)] + fs && all[1..][1..] == fs;
    assert AllStorable(all[1..]);
    assert EncodeAll(all) == [kind] + EncodeAll(all[1..]);
    assert EncodeAll(all[1..]) == Big32(id) + EncodeAll(fs);
  }

  lemma DataFields(id: u32, got: bytes)
    requires |got| <= MAX_READ
    ensures EncodeAll([U8(FXP_DATA), U32(id), Str(got)]) == [FXP_DATA] + Big32(id) + Big32(|got|) + got
  {
    hide Big32;
    EncodeNothing();
    EncodeSnoc([], Str(got));
    HeadFields(FXP_DATA, id, [Str(got)]);
    assert [] + [Str(got)] == [Str(got)];
    assert [U8(FXP_DATA), U32(id)] + [Str(got)] == [U8(FXP_DATA), U32(id), Str(got)];
    Joined([FXP_DATA] + Big32(id), Big32(|got|), got);
  }

  /** A handle stands for the same object until it is closed; only opening takes a free one, the first. */
  lemma HandlesStay(w: World, root: bytes, s: Files, q: Request, i: nat)
    requires |s.handles| == MAX_HANDLES && i < MAX_HANDLES
    ensures var t := React(w, root, s, q).0;
            && |t.handles| == MAX_HANDLES
            && (s.handles[i].Some? && t.handles[i] != s.handles[i] ==>
                  q.AskClose? && |q.handle| == 4 && Value32(q.handle) == i && t.handles[i] == None)
            && (s.handles[i].None? && t.handles[i].Some? ==>
                  (q.AskOpen? || q.AskOpenDir?) && i == FreeFrom(s.handles, 0) && t.handles[i].value.obj == s.next)
  {
    hide Real, Virtual, Batch, BatchEnd, RealPathReply, StatReply, ReadReply, NameReply, Flag;
  }

  /** The paths of a call are below the root directory. */
  ghost predicate Placed(root: bytes, c: Call) {
    match c
    case Fopen(path, _) => PathLaws.Below(root, path)
    case Fwrite(_, _, _) => true
    case Change(_, path) => PathLaws.Below(root, path)
    case Rename(a, b) => PathLaws.Below(root, a) && PathLaws.Below(root, b)
  }

  ghost predicate AllPlaced(root: bytes, calls: seq<Call>) {
    forall k :: 0 <= k < |calls| ==> Placed(root, calls[k])
  }

  /** The names that are printed lead to something strictly below the root, or to a path that is refused as the root. */
  ghost predicate ContainedPath(p: bytes) {
    Virtual(p) == [SftpPath.SLASH] || PathLaws.Inside(PathLaws.Names(p, SftpPath.PATH_MAX))
  }

  /** What the request would open or change is contained. */
  ghost predicate Contained(q: Request) {
    match q
    case AskOpen(_, p, _) => ContainedPath(p)
    case AskChange(_, _, p) => ContainedPath(p)
    case AskRename(_, p1, p2) => ContainedPath(p1) && ContainedPath(p2)
    case _ => true
  }

  /** A path is contained unless a NUL leaves nothing, one dot or two of one of its names; so without NUL it is. */
  lemma HarmlessIsContained(p: bytes)
    requires PathLaws.Harmless(p) || 0 !in p
    ensures ContainedPath(p)
  {
    hide PathLaws.Harmless, PathLaws.Inside, PathLaws.Names, SftpPath.Limited;
    if 0 !in p {
      PathLaws.NulFreeIsHarmless(p);
    }
    PathLaws.StrictlyBelow(p);
  }

  /** A request makes at most one call.  It names something strictly below the root exactly when the request is
      contained; a file is opened for writing only if the client asked for it, and emptied only if it asked for that
      or there was none; nothing is renamed to a name that exists; and bytes are written only to a file that a handle
      stands for. */
  lemma CallsAreCareful(w: World, root: bytes, s: Files, q: Request)
    requires |s.handles| == MAX_HANDLES
    ensures var calls := React(w, root, s, q).0.calls;
            || calls == s.calls
            || (var c := calls[|s.calls|];
                calls == s.calls + [c] && Careful(w, root, s, q, c) && (Placed(root, c) <==> Contained(q)))
  {
    hide PathLaws.Below, Real, Virtual, Batch, BatchEnd, RealPathReply, StatReply, ReadReply, NameReply, Flag;
    hide PathLaws.Inside, PathLaws.Names;
    if q.AskOpen? || q.AskChange? || q.AskRename? {
      RealIsBelow(root, q.path);
      if q.AskRename? {
        RealIsBelow(root, q.target);
      }
    }
  }

  lemma RealIsBelow(root: bytes, p: bytes)
    ensures PathLaws.Below(root, Real(root, p)) <==> PathLaws.Inside(PathLaws.Names(p, SftpPath.PATH_MAX))
  {
    PathLaws.BelowExactly(root, p);
  }

  ghost predicate Careful(w: World, root: bytes, s: Files, q: Request, c: Call) {
    match c
    case Fopen(path, mode) =>
      && q.AskOpen? && path == Real(root, q.path) && (mode != Read ==> Flag(q.flags, 2))
      && (mode == Truncate ==> Flag(q.flags, 16) || w.stat(path).None?)
      && (w.stat(path).Some? ==> !w.stat(path).value.dir && !Flag(q.flags, 32))
      && (w.stat(path).None? ==> Flag(q.flags, 8))
    case Fwrite(o, off, d) =>
      && q.AskWrite? && off == q.off && d == q.data && w.seek(o, off)
      && exists k, path :: 0 <= k < |s.handles| && s.handles[k] == Some(OpenFile(o, path))
    case Change(kind, path) => q.AskChange? && kind == q.kind && path == Real(root, q.path)
    case Rename(a, b) => q.AskRename? && a == Real(root, q.path) && b == Real(root, q.target) && w.stat(b).None?
  }

  /** All calls stay strictly below the root exactly when a request that makes one is contained. */
  lemma StaysPlaced(w: World, root: bytes, s: Files, q: Request)
    requires |s.handles| == MAX_HANDLES
    ensures var calls := React(w, root, s, q).0.calls;
            AllPlaced(root, calls) <==> AllPlaced(root, s.calls) && (calls == s.calls || Contained(q))
  {
    hide React, Placed, Contained, Careful;
    CallsAreCareful(w, root, s, q);
    var calls := React(w, root, s, q).0.calls;
    if calls != s.calls {
      assert forall k :: 0 <= k < |s.calls| ==> calls[k] == s.calls[k];
      assert forall k :: 0 <= k < |calls| ==> calls[k] == if k < |s.calls| then s.calls[k] else calls[|s.calls|];
    }
  }

  /** Two requests that are not contained.  "..", a NUL and "/x" name what is beside the root directory; NUL, "/" and
      NUL name the root itself; and the file system is asked all the same, whatever the state of the server. */
  lemma NulLeavesTheRoot(w: World, root: bytes, s: Files, id: u32)
    requires |s.handles| == MAX_HANDLES
    ensures var q := AskChange(id, FXP_REMOVE, [46, 46, 0, 47, 120]);
            var c := Change(FXP_REMOVE, root + [47, 46, 46, 47, 120]);
            React(w, root, s, q).0.calls == s.calls + [c] && !Placed(root, c) && !Contained(q)
    ensures var q := AskChange(id, FXP_RMDIR, [0, 47, 0]);
            var c := Change(FXP_RMDIR, root + [47, 47]);
            React(w, root, s, q).0.calls == s.calls + [c] && !Placed(root, c) && !Contained(q)
  {
    hide PathLaws.Below, PathLaws.Inside, PathLaws.Names, SftpPath.Limited, PathLaws.Safe, PathLaws.EndsAt;
    hide PathLaws.Balanced, SftpPath.Components;
    PathLaws.NulMisleads();
    var p1, p2 := [46, 46, 0, 47, 120], [0, 47, 0];
    RealIsBelow(root, p1);
    RealIsBelow(root, p2);
    PathLaws.Confined(p1, SftpPath.PATH_MAX);
    PathLaws.Confined(p2, SftpPath.PATH_MAX);
    NotInside(PathLaws.Names(p1, SftpPath.PATH_MAX));
    NotInside(PathLaws.Names(p2, SftpPath.PATH_MAX));
  }

  lemma NotInside(ts: seq<bytes>)
    ensures PathLaws.Inside(ts) <==> PathLaws.Balanced(ts) && PathLaws.Downs(ts) - PathLaws.Ups(ts) > 0
  {
  }
}
