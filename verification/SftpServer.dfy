/** The SFTP server as a program: requests are read from a packet, and one reply is written for each. */
module SftpServer {
  import opened Machine
  import opened Options
  import opened Protocol
  import opened Codec
  import opened SftpTable
  import opened SftpProtocol
  import SftpPath
  import K = SftpClient

  method SkipAttrs(r: Reader)
    modifies r
    ensures r.At() == TakeAttrs(r.p, old(r.At()))
  {
    hide TakeU32, TakeU64, TakeString, Flag;
    var flags := r.GetU32();
    if Flag(flags, 1) {
      var size := r.GetU64();
    }
    if Flag(flags, 2) {
      var uid := r.GetU32();
      var gid := r.GetU32();
    }
    if Flag(flags, 4) {
      var permissions := r.GetU32();
    }
    if Flag(flags, 8) {
      var atime := r.GetU32();
      var mtime := r.GetU32();
    }
    if Flag(flags, 0x8000_0000) {
      var n := r.GetU32();
      ghost var start := r.At();
      var i := 0;
      while i < n && !r.bad
        invariant 0 <= i <= n && TakePairs(r.p, r.At(), n - i) == TakePairs(r.p, start, n)
      {
        var key := r.GetString();
        var value := r.GetString();
        i := i + 1;
      }
    }
  }

  class Sftpd {
    const root: bytes
    const reply: array<u8>
    const table: Table
    var sent: seq<bytes>

    ghost predicate Sound()
      reads table`owner, table.h, table.disk`open, table.disk`next, table.disk`rest
    {
      && reply.Length == REPLY_CAP && |root| < SftpPath.ROOT_MAX && 0 !in root && table.Valid()
    }

    /** The table is in order, and no call ever named the root or anything outside it. */
    ghost predicate Ready()
      reads table`owner, table.h, table.disk
    {
      Sound() && AllPlaced(root, table.disk.calls)
    }

    /** The root is stored in 128 bytes. */
    constructor (path: bytes, disk: Disk)
      requires 0 !in path && disk.Valid() && disk.open == {} && disk.calls == []
      ensures Ready() && sent == [] && table.disk == disk && fresh(reply) && fresh(table) && fresh(table.h)
      ensures root == path[..SftpPath.Min(|path|, SftpPath.ROOT_MAX - 1)]
      ensures table.Handles() == seq(MAX_HANDLES, i => None)
    {
      root := path[..SftpPath.Min(|path|, SftpPath.ROOT_MAX - 1)];
      reply := new u8[REPLY_CAP];
      table := new Table(disk);
      sent := [];
    }

    /** Sends the reply with these fields; all of them fit. */
    method SendFields(fs: seq<Field>)
      requires reply.Length == REPLY_CAP && AllStorable(fs) && |EncodeAll(fs)| <= REPLY_CAP
      modifies `sent, reply
      ensures sent == old(sent) + [EncodeAll(fs)]
    {
      hide EncodeAll;
      var w := new Writer(reply, 0, REPLY_CAP);
      PutAll(w, fs);
      assert [] + EncodeAll(fs) == EncodeAll(fs);
      Send(w);
    }

    method Send(w: Writer)
      requires w.Valid() && w.p == reply
      modifies `sent
      ensures sent == old(sent) + [w.Contents()]
    {
      sent := sent + [reply[w.base..w.base + w.len]];
    }

    method SendSmall(fs: seq<Field>)
      requires reply.Length == REPLY_CAP && AtMost(fs, 500) && |fs| <= 12
      modifies `sent, reply
      ensures sent == old(sent) + [EncodeAll(fs)] && |EncodeAll(fs)| <= REPLY_CAP
    {
      hide EncodeAll, Encode;
      SizeBound(fs, 500);
      SendFields(fs);
    }

    /** A status reply. */
    method Tell(id: u32, code: u32, msg: string)
      requires reply.Length == REPLY_CAP && |msg| <= 64
      modifies `sent, reply
      ensures sent == old(sent) + [EncodeAll(Status(id, code, msg))]
    {
      hide EncodeAll, Ascii;
      SendSmall(Status(id, code, msg));
    }

    method OnRealPath(w: World, id: u32, p: bytes)
      requires Sound()
      modifies `sent, reply
      ensures sent == old(sent) + [EncodeAll(RealPathReply(w, root, id, p))]
    {
      hide EncodeAll, SftpPath.Limited, Attrs;
      var v, f := SftpPath.Locate(root, p);
      var found := w.stat(f);
      var st := if found.Some? then found.value else Stat(0, true, 0);
      ghost var fs := RealPathReply(w, root, id, p);
      SendSmall([U8(FXP_NAME), U32(id), U32(1), Str(v), Str(v)] + Attrs(st));
    }

    /** Attributes, or a status for the error. */
    method SendStat(w: World, id: u32, path: bytes, msg: string)
      requires reply.Length == REPLY_CAP && |msg| <= 64
      modifies `sent, reply
      ensures sent == old(sent) + [EncodeAll(StatReply(w, id, path, msg))]
    {
      hide EncodeAll, Ascii;
      var st := w.stat(path);
      if st.None? {
        Tell(id, ErrnoStatus(w.errno(path)), msg);
      } else {
        SendSmall([U8(FXP_ATTRS), U32(id)] + Attrs(st.value));
      }
    }

    method OnStat(w: World, id: u32, p: bytes)
      requires Sound()
      modifies `sent, reply
      ensures sent == old(sent) + [EncodeAll(StatReply(w, id, Real(root, p), "no such file"))]
    {
      hide EncodeAll, SftpPath.Limited, StatReply;
      var v, f := SftpPath.Locate(root, p);
      SendStat(w, id, f, "no such file");
    }

    method OnFStat(w: World, id: u32, hs: bytes)
      requires Sound()
      modifies `sent, reply
      ensures var x := Lookup(table.Handles(), hs);
              sent == old(sent) + [EncodeAll(if x.None? then Status(id, FX_FAILURE, "bad handle")
                                             else StatReply(w, id, x.value.path, "stat failed"))]
    {
      hide EncodeAll, Ascii, StatReply, Table.Owns, Table.AllBut, Views;
      var path := GetPath(hs);
      if path.None? {
        Tell(id, FX_FAILURE, "bad handle");
      } else {
        SendStat(w, id, path.value, "stat failed");
      }
    }

    /** The path that a handle was opened with. */
    method GetPath(hs: bytes) returns (path: Option<bytes>)
      requires Sound()
      ensures var x := Lookup(table.Handles(), hs); path == if x.Some? then Some(x.value.path) else None
    {
      var i := table.GetHandle(hs);
      assert i != -1 ==> table.Handles()[i] == View(table.h[i]) && table.AllBut(-1);
      path := if i == -1 then None else Some(table.h[i].path);
    }

    /** A refusal leaves the handles and the open objects as they were; a success takes the first free handle. */
    method OnOpenDir(w: World, id: u32, p: bytes)
      requires Sound()
      modifies `sent, reply, table, table.h, table.disk
      ensures Sound()
      ensures var (t, fs) := ReactOpenDir(w, root, old(table.State()), id, p);
              table.State() == t && sent == old(sent) + [EncodeAll(fs)]
    {
      hide EncodeAll, SftpPath.Limited, SftpPath.Full, Ascii, Table.Owns, Table.AllBut, Views;
      var v, f := SftpPath.Locate(root, p);
      var k := table.AllocHandle();
      if k == -1 {
        Tell(id, FX_FAILURE, "too many open handles");
        return;
      }
      var names := w.list(f);
      if names.None? {
        table.Release(k);
        Tell(id, ErrnoStatus(w.errno(f)), "cannot open directory");
        return;
      }
      ghost var o := table.HoldDir(k, f, names.value);
      SendSmall(HandleReply(id, k));
    }

    /** A refusal leaves the handles and the open objects as they were; a success takes the first free handle. */
    method OnOpen(w: World, id: u32, p: bytes, flags: u32)
      requires Sound()
      modifies `sent, reply, table, table.h, table.disk
      ensures Sound()
      ensures var (t, fs) := ReactOpen(w, root, old(table.State()), id, p, flags);
              table.State() == t && sent == old(sent) + [EncodeAll(fs)]
    {
      hide EncodeAll, SftpPath.Limited, SftpPath.Full, Ascii, Table.Owns, Table.AllBut, Views, Flag;
      var v, f := SftpPath.Locate(root, p);
      if v == [SftpPath.SLASH] {
        Tell(id, FX_FAILURE, "is a directory");
        return;
      }
      var k := table.AllocHandle();
      if k == -1 {
        Tell(id, FX_FAILURE, "too many open handles");
        return;
      }
      var st := w.stat(f);
      if st.Some? && st.value.dir {
        table.Release(k);
        Tell(id, FX_FAILURE, "is a directory");
        return;
      }
      if Flag(flags, 32) && st.Some? {
        table.Release(k);
        Tell(id, FX_FAILURE, "already exists");
        return;
      }
      if st.None? && !Flag(flags, 8) {
        table.Release(k);
        Tell(id, FX_NO_SUCH_FILE, "no such file");
        return;
      }
      var mode := Read;
      if Flag(flags, 2) {
        mode := if Flag(flags, 16) || st.None? then Truncate else Update;
      }
      Fetch(w, id, k, f, mode);
    }

    /** Opens the file for the marked slot, if the file system lets it. */
    method Fetch(w: World, id: u32, k: nat, f: bytes, mode: Mode)
      requires reply.Length == REPLY_CAP && |root| < SftpPath.ROOT_MAX && 0 !in root && k < MAX_HANDLES
      requires table.Owns(table.Handles()) && table.AllBut(k) && table.h[k] == MARKED
      modifies `sent, reply, table, table.h, table.disk
      ensures Sound()
      ensures var s := Called(old(table.State()), Fopen(f, mode));
              if w.fopen(f, mode) then
                && table.State() == Hold(s, k, OpenFile(s.next, f))
                && sent == old(sent) + [EncodeAll(HandleReply(id, k))]
              else
                && table.State() == s
                && sent == old(sent) + [EncodeAll(Status(id, ErrnoStatus(w.errno(f)), "cannot open"))]
    {
      hide EncodeAll, Ascii, Table.Owns, Table.AllBut, Views;
      table.disk.Ask(Fopen(f, mode));
      if !w.fopen(f, mode) {
        table.Release(k);
        Tell(id, ErrnoStatus(w.errno(f)), "cannot open");
        return;
      }
      ghost var o := table.HoldFile(k, f);
      SendSmall(HandleReply(id, k));
    }

    method OnClose(id: u32, hs: bytes)
      requires Sound()
      modifies `sent, reply, table, table.h, table.disk
      ensures Sound()
      ensures var (t, fs) := ReactClose(old(table.State()), id, hs);
              table.State() == t && sent == old(sent) + [EncodeAll(fs)]
    {
      hide EncodeAll, Ascii, Table.AllBut, Views;
      var i := table.GetHandle(hs);
      if i == -1 {
        Tell(id, FX_FAILURE, "bad handle");
        return;
      }
      table.CloseHandle(i);
      Tell(id, FX_OK, "");
    }

    /** The file that a handle stands for. */
    method GetFile(hs: bytes) returns (f: Option<nat>)
      requires Sound()
      ensures f == FileOf(table.Handles(), hs)
    {
      var i := table.GetHandle(hs);
      f := if i == -1 then None else table.h[i].f;
      assert i != -1 ==> table.Handles()[i] == View(table.h[i]) && table.AllBut(-1);
    }

    /** At most MAX_READ bytes, read straight into the reply. */
    method OnRead(w: World, id: u32, hs: bytes, off: u64, want: u32)
      requires Sound()
      modifies `sent, reply
      ensures var f := FileOf(table.Handles(), hs);
              sent == old(sent) + [EncodeAll(if f.None? then Status(id, FX_FAILURE, "bad handle")
                                             else ReadReply(w, id, f.value, off, want))]
    {
      hide EncodeAll, Ascii, Table.Owns, Table.AllBut, Views;
      var f := GetFile(hs);
      if f.None? {
        Tell(id, FX_FAILURE, "bad handle");
        return;
      }
      if !w.seek(f.value, off) {
        Tell(id, FX_FAILURE, "seek failed");
        return;
      }
      var data := w.fread(f.value, off);
      var got := data[..SftpPath.Min(|data|, if want > MAX_READ then MAX_READ else want)];
      if got == [] {
        Tell(id, FX_EOF, "end of file");
        return;
      }
      SendData(id, got);
    }

    /** The data reply: the length is written when the data is known. */
    method MakeData(id: u32, got: bytes) returns (w: Writer)
      requires reply.Length == REPLY_CAP && 0 < |got| <= MAX_READ
      modifies reply
      ensures fresh(w) && w.Valid() && w.p == reply && w.Contents() == [FXP_DATA] + Big32(id) + Big32(|got|) + got
    {
      hide Big32, EncodeAll;
      HeadFields(FXP_DATA, id, []);
      EncodeNothing();
      assert [U8(FXP_DATA), U32(id)] + [] == [U8(FXP_DATA), U32(id)];
      w := new Writer(reply, 0, REPLY_CAP);
      PutAll(w, [U8(FXP_DATA), U32(id)]);
      ghost var head := w.Contents();
      assert head == [FXP_DATA] + Big32(id);
      var lenpos := w.len;
      w.PutU32(0);
      w.PutBytes(got);
      PatchMiddle(head, Big32(0), got);
      Patch(w, lenpos, |got|);
    }

    method SendData(id: u32, got: bytes)
      requires reply.Length == REPLY_CAP && 0 < |got| <= MAX_READ
      modifies `sent, reply
      ensures sent == old(sent) + [EncodeAll([U8(FXP_DATA), U32(id), Str(got)])]
    {
      hide Big32, EncodeAll;
      var w := MakeData(id, got);
      DataFields(id, got);
      Send(w);
    }

    method OnWrite(w: World, id: u32, hs: bytes, off: u64, d: bytes)
      requires Sound()
      modifies `sent, reply, table.disk`calls
      ensures Sound()
      ensures var (t, fs) := ReactWrite(w, old(table.State()), id, hs, off, d);
              table.State() == t && sent == old(sent) + [EncodeAll(fs)]
    {
      hide EncodeAll, Ascii, Table.Owns, Table.AllBut, Views;
      var f := GetFile(hs);
      if f.None? {
        Tell(id, FX_FAILURE, "bad handle");
        return;
      }
      if !w.seek(f.value, off) {
        Tell(id, FX_FAILURE, "write failed");
        return;
      }
      table.disk.Ask(Fwrite(f.value, off, d));
      if !w.fwrite(f.value, off, d) {
        Tell(id, FX_FAILURE, "write failed");
      } else {
        Tell(id, FX_OK, "");
      }
    }

    /** Remove, remove a directory, make a directory; refused if the path is normalised to "/". */
    method OnChange(w: World, id: u32, kind: int, p: bytes)
      requires Sound()
      modifies `sent, reply, table.disk`calls
      ensures Sound()
      ensures var (t, fs) := ReactChange(w, root, old(table.State()), id, kind, p);
              table.State() == t && sent == old(sent) + [EncodeAll(fs)]
    {
      hide EncodeAll, Ascii, Table.Owns, Table.AllBut, SftpPath.Limited, SftpPath.Full;
      var v, f := SftpPath.Locate(root, p);
      if v == [SftpPath.SLASH] {
        Tell(id, FX_PERMISSION_DENIED, "not the root");
        return;
      }
      table.disk.Ask(Change(kind, f));
      if !w.change(kind, f) {
        Tell(id, ErrnoStatus(w.errno(f)), if kind == FXP_MKDIR then "cannot create" else "cannot remove");
      } else {
        Tell(id, FX_OK, "");
      }
    }

    /** Refused if one of the paths is normalised to "/", or if the target exists. */
    method OnRename(w: World, id: u32, p1: bytes, p2: bytes)
      requires Sound()
      modifies `sent, reply, table.disk`calls
      ensures Sound()
      ensures var (t, fs) := ReactRename(w, root, old(table.State()), id, p1, p2);
              table.State() == t && sent == old(sent) + [EncodeAll(fs)]
    {
      hide EncodeAll, Ascii, Table.Owns, Table.AllBut, SftpPath.Limited, SftpPath.Full;
      var v1, f1 := SftpPath.Locate(root, p1);
      var v2, f2 := SftpPath.Locate(root, p2);
      if v1 == [SftpPath.SLASH] || v2 == [SftpPath.SLASH] {
        Tell(id, FX_PERMISSION_DENIED, "not the root");
        return;
      }
      if w.stat(f2).Some? {
        Tell(id, FX_FAILURE, "target exists");
        return;
      }
      table.disk.Ask(Rename(f1, f2));
      if !w.rename(f1, f2) {
        Tell(id, ErrnoStatus(w.errno(f1)), "rename failed");
      } else {
        Tell(id, FX_OK, "");
      }
    }

    /** One entry of a listing; there is room for it. */
    method PutEntry(w: World, b: Writer, e: Entry)
      requires b.Valid() && |b.Contents()| + 702 <= b.cap
      modifies b, b.p
      ensures b.Valid() && b.Contents() == old(b.Contents()) + EncodeAll(EntryFields(w, e))
    {
      hide EncodeAll, EntryFields;
      EntrySize(w, e);
      PutAll(b, EntryFields(w, e));
    }

    /** Up to 32 entries, as long as there is room; those that cannot be looked up are passed over. */
    method PutEntries(w: World, b: Writer, o: nat, path: bytes) returns (cnt: nat, ghost k: nat)
      requires table.disk.Valid() && o in table.disk.open && o in table.disk.rest
      requires b.Valid() && b.p == reply && b.cap == REPLY_CAP && b.len == 9
      modifies b, reply, table.disk`rest
      ensures table.disk.Valid() && b.Valid() && k == BatchEnd(w, path, old(table.disk.rest[o]), 0)
      ensures table.disk.rest == old(table.disk.rest)[o := old(table.disk.rest[o])[k..]]
      ensures var es := Batch(w, path, old(table.disk.rest[o]));
              cnt == |es| && b.Contents() == old(b.Contents()) + EncodeAll(EntriesFields(w, es))
    {
      hide EncodeAll, EntriesFields, EntryFields, Listed, Child;
      ghost var names := table.disk.rest[o];
      ghost var was := table.disk.rest;
      cnt, k := 0, 0;
      NothingListed(w, path);
      assert names[..0] == [] && names[0..] == names;
      assert was[o := names] == was;
      while cnt < 32 && b.len < REPLY_CAP - 1200
        invariant table.disk.Valid() && b.Valid() && k <= |names|
        invariant table.disk.rest == was[o := names[k..]]
        invariant BatchEnd(w, path, names, k) == BatchEnd(w, path, names, 0)
        invariant cnt == |Listed(w, path, names[..k])| && b.len == Written(w, Listed(w, path, names[..k]))
        invariant b.Contents() == old(b.Contents()) + EncodeAll(EntriesFields(w, Listed(w, path, names[..k])))
        decreases |names| - k
      {
        var e := table.disk.Readdir(o);
        if e.None? {
          assert k == |names|;
          return;
        }
        assert names[..k + 1] == names[..k] + [e.value];
        ListedSnoc(w, path, names[..k], e.value);
        k := k + 1;
        var st := w.stat(Child(path, e.value));
        if st.None? {
          assert Listed(w, path, names[..k]) == Listed(w, path, names[..k - 1]);
          continue;
        }
        EntriesSnoc(w, Listed(w, path, names[..k - 1]), Entry(e.value, st.value));
        PutEntry(w, b, Entry(e.value, st.value));
        assert |b.Contents()| == b.len;
        cnt := cnt + 1;
      }
    }

    /** The next entries of a directory, or the end of it. */
    method OnReadDir(w: World, id: u32, hs: bytes)
      requires Sound()
      modifies `sent, reply, table.disk`rest
      ensures Sound()
      ensures var (t, fs) := ReactReadDir(w, old(table.State()), id, hs);
              table.State() == t && sent == old(sent) + [EncodeAll(fs)]
    {
      hide EncodeAll, Ascii, Listed, NameReply, Big32, EntriesFields, Status, Correspond, Table.AllBut, Views, Batch;
      var dir := GetDir(hs);
      if dir.None? {
        Tell(id, FX_FAILURE, "bad handle");
        return;
      }
      var o, path := dir.value.0, dir.value.1;
      ghost var rest := table.disk.rest;
      ghost var names := rest[o];
      var b := BeginNames(id);
      var cnt;
      ghost var k;
      cnt, k := PutEntries(w, b, o, path);
      ReadOn(table.Handles(), table.owner, table.disk.open, rest, o, names[k..]);
      BatchOf(w, path, names);
      if cnt == 0 {
        Tell(id, FX_EOF, "end of directory");
        return;
      }
      SendNames(w, b, id, cnt, Batch(w, path, names));
    }

    /** The directory that a handle stands for. */
    method GetDir(hs: bytes) returns (d: Option<(nat, bytes)>)
      requires Sound()
      ensures var x := Lookup(table.Handles(), hs);
              d == if x.Some? && x.value.OpenDir? then Some((x.value.obj, x.value.path)) else None
      ensures d.Some? ==> table.disk.Valid() && d.value.0 in table.disk.open && d.value.0 in table.disk.rest
    {
      var i := table.GetHandle(hs);
      assert i != -1 ==> table.Handles()[i] == View(table.h[i]) && table.AllBut(-1);
      d := if i == -1 || !table.h[i].isdir then None else Some((table.h[i].d.value, table.h[i].path));
    }

    /** One request of a listing, and whether the reply says that there may be more. */
    method ListMore(w: World, id: u32, hs: bytes) returns (more: bool)
      requires Sound() && Lookup(table.Handles(), hs).Some? && Lookup(table.Handles(), hs).value.OpenDir?
      requires Lookup(table.Handles(), hs).value.obj in table.disk.rest
      modifies `sent, reply, table.disk`rest
      ensures Sound() && table.Handles() == old(table.Handles())
      ensures var x := Lookup(table.Handles(), hs).value;
              var names := old(table.disk.rest)[x.obj];
              var es := Batch(w, x.path, names);
              && table.disk.rest == old(table.disk.rest)[x.obj := names[BatchEnd(w, x.path, names, 0)..]]
              && more == (es != []) && |es| < TWO_32 && (!more ==> BatchEnd(w, x.path, names, 0) == |names|)
              && sent == old(sent) + [EncodeAll(if more then NameReply(w, id, es)
                                                else Status(id, FX_EOF, "end of directory"))]
    {
      hide Listed, EncodeAll, Ascii, Table.AllBut, Views, BatchEnd, Batch, Correspond, Big32;
      ghost var x := Lookup(table.Handles(), hs).value;
      ghost var names := table.disk.rest[x.obj];
      OnReadDir(w, id, hs);
      BatchOf(w, x.path, names);
      ReplyKind(Status(id, FX_EOF, "end of directory"));
      ReplyKind(NameReply(w, id, Batch(w, x.path, names)));
      more := sent[|sent| - 1][0] != FXP_STATUS;
    }

    /** A client that asks until the end, while the file system answers each request as it may at the time, gets the
        batches of the directory in replies of 1 to 32 entries, and then the end; every name was looked up once, in
        order, and shown if that succeeded. */
    method ListToTheEnd(world: nat -> World, id: u32, hs: bytes) returns (n: nat)
      requires Sound() && Lookup(table.Handles(), hs).Some? && Lookup(table.Handles(), hs).value.OpenDir?
      requires Lookup(table.Handles(), hs).value.obj in table.disk.rest
      modifies `sent, reply, table.disk`rest
      ensures Sound() && table.Handles() == old(table.Handles())
      ensures var x := Lookup(table.Handles(), hs).value;
              var names := old(table.disk.rest)[x.obj];
              var shares, bs := Shares(world, 0, x.path, names), Batches(world, 0, x.path, names);
              && n == |shares| && Flat(shares) == names && InTurn(world, 0, x.path, shares, bs)
              && table.disk.rest == old(table.disk.rest)[x.obj := []]
              && sent == old(sent) + ListingReplies(world, 0, id, bs)
                         + [EncodeAll(Status(id, FX_EOF, "end of directory"))]
    {
      hide Listed, EncodeAll, Ascii, Table.AllBut, Views, Batches, Shares, BatchEnd, Batch, ListingReplies, Flat;
      hide Status, NameReply, Sound, Table.Owns;
      ghost var x := Lookup(table.Handles(), hs).value;
      ghost var was := table.disk.rest;
      ghost var names := was[x.obj];
      ghost var bs := Batches(world, 0, x.path, names);
      ghost var end := [EncodeAll(Status(id, FX_EOF, "end of directory"))];
      ghost var all := old(sent) + ListingReplies(world, 0, id, bs) + end;
      BatchesAreAll(world, 0, x.path, names);
      assert was[x.obj := names] == was;
      var more := true;
      n := 0;
      while more
        invariant Sound() && table.Handles() == old(table.Handles())
        invariant table.disk.rest == was[x.obj := names]
        invariant if more then n + |Batches(world, n, x.path, names)| == |bs|
                               && sent + ListingReplies(world, n, id, Batches(world, n, x.path, names)) + end == all
                  else n == |bs| + 1 && names == [] && sent == all
        decreases |names|, more
      {
        NextReply(world, n, id, x.path, names, sent);
        more := ListMore(world(n), id, hs);
        names := names[BatchEnd(world(n), x.path, names, 0)..];
        n := n + 1;
      }
    }

    /** One request of a client, and the reply as the client reads it. */
    method AskFor(w: World, q: Request) returns (r: K.Reply)
      requires Sound() && K.Sendable(q)
      modifies `sent, reply, table, table.h, table.disk
      ensures Sound() && |table.State().handles| == |old(table.State()).handles| == MAX_HANDLES
      ensures table.State() == React(w, root, old(table.State()), q).0
      ensures r == K.Answer(w, root, old(table.State()), q)
    {
      hide EncodeAll, Parse, React, K.RequestFields, K.DecodeReply, K.RequestBytes, K.Coherent, Contained, AllPlaced;
      hide Correspond, Table.AllBut, Views;
      K.ToldIsCoherent(Stat(0, false, 0));
      ghost var s := table.State();
      var pkt := K.RequestBytes(q, K.Told(Stat(0, false, 0)));
      K.RequestReadsBack(q, K.Told(Stat(0, false, 0)));
      Handle(w, pkt);
      r := K.DecodeReply(sent[|sent| - 1]);
    }

    /** A client that reads a file from the start, going on behind what it has until it is told that the file ends, has
        exactly the contents of the file, whatever amounts it asks for. */
    method Download(world: nat -> World, id: u32, hs: bytes, wants: nat -> u32, ghost f: nat, ghost contents: bytes)
      returns (got: bytes)
      requires Sound() && FileOf(table.Handles(), hs) == Some(f) && |contents| < 0x8000_0000_0000_0000
      requires forall n :: wants(n) > 0
      requires forall n :: Serves(world(n), f, contents)
      modifies `sent, reply, table, table.h, table.disk
      ensures Sound() && table.State() == old(table.State())
      ensures got == contents
    {
      hide EncodeAll, React, K.Answer, Correspond, Table.AllBut, Views, FileOf;
      var n := 0;
      var more := true;
      got := [];
      ghost var s := table.State();
      assert FileOf(s.handles, hs) == Some(f);
      FileHandle(s.handles, hs);
      while more
        invariant Sound() && table.State() == s
        invariant |got| <= |contents| && got == contents[..|got|] && (!more ==> got == contents)
        decreases |contents| - |got|, more
      {
        var q := AskRead(id, hs, |got|, wants(n));
        K.ReadIsAnswered(world(n), root, s, id, hs, |got|, wants(n));
        K.AskingChangesNothing(world(n), root, s, q);
        ServedAt(world(n), f, contents, |got|);
        var r := AskFor(world(n), q);
        if r.IsData? {
          GoesOn(contents, got, r.data);
          got := got + r.data;
        } else {
          more := false;
        }
        n := n + 1;
      }
    }

    /** A client that writes chunk after chunk, each behind the one before, and is told OK each time, has given the file
        exactly these bytes at these places; and it is told OK if the file system takes them. */
    method Upload(world: nat -> World, id: u32, hs: bytes, chunks: seq<bytes>, ghost f: nat) returns (ok: bool)
      requires Sound() && FileOf(table.Handles(), hs) == Some(f)
      requires forall k :: 0 <= k < |chunks| ==> |chunks[k]| < TWO_32
      requires |Flat(chunks)| < 0x8000_0000_0000_0000
      modifies `sent, reply, table, table.h, table.disk
      ensures Sound() && table.State() == old(table.State()).(calls := table.disk.calls)
      ensures ok ==> table.disk.calls == old(table.disk.calls) + Writes(f, chunks)
      ensures (forall n :: Takes(world(n), f)) ==> ok
    {
      hide EncodeAll, React, K.Answer, Correspond, Table.AllBut, Views, FileOf, Flat;
      var n, off := 0, 0;
      ghost var s := table.State();
      ghost var calls := s.calls;
      assert FileOf(s.handles, hs) == Some(f);
      FileHandle(s.handles, hs);
      assert chunks[..0] == [] && calls + [] == calls;
      assert Flat(chunks[..0]) == [] by {
        FlatNothing();
      }
      ok := true;
      while ok && n < |chunks|
        invariant Sound() && n <= |chunks| && table.State() == s.(calls := table.disk.calls)
        invariant |Flat(chunks[..n])| <= |Flat(chunks)|
        invariant ok ==> off == |Flat(chunks[..n])| && table.disk.calls == calls + Writes(f, chunks[..n])
        invariant (forall m :: Takes(world(m), f)) ==> ok
      {
        FlatSnoc(chunks, n);
        var q := AskWrite(id, hs, off, chunks[n]);
        K.WriteIsAnswered(world(n), root, table.State(), id, hs, off, chunks[n]);
        if forall m :: Takes(world(m), f) {
          assert Takes(world(n), f);
          TakenAt(world(n), f, off, chunks[n]);
        }
        WritesSnoc(f, chunks, n);
        assert calls + Writes(f, chunks[..n]) + [Fwrite(f, off, chunks[n])] == calls + Writes(f, chunks[..n + 1]);
        var r := AskFor(world(n), q);
        ok := r.IsStatus? && r.code == K.OK;
        off := off + |chunks[n]|;
        n := n + 1;
      }
      assert chunks[..|chunks|] == chunks;
    }

    method BeginNames(id: u32) returns (b: Writer)
      requires reply.Length == REPLY_CAP
      modifies reply
      ensures fresh(b) && b.Valid() && b.p == reply && b.cap == REPLY_CAP
      ensures b.Contents() == [FXP_NAME] + Big32(id) + Big32(0)
    {
      hide Big32, EncodeAll;
      HeadFields(FXP_NAME, id, []);
      EncodeNothing();
      assert [U8(FXP_NAME), U32(id)] + [] == [U8(FXP_NAME), U32(id)];
      b := new Writer(reply, 0, REPLY_CAP);
      PutAll(b, [U8(FXP_NAME), U32(id)]);
      ghost var head := b.Contents();
      assert head == [FXP_NAME] + Big32(id);
      b.PutU32(0);
    }

    /** The count is written over the zero that held its place. */
    method SendNames(w: World, b: Writer, id: u32, cnt: nat, ghost es: seq<Entry>)
      requires b.Valid() && b.p == reply && b.cap == REPLY_CAP && cnt == |es| <= 32
      requires b.Contents() == [FXP_NAME] + Big32(id) + Big32(0) + EncodeAll(EntriesFields(w, es))
      modifies `sent, reply
      ensures sent == old(sent) + [EncodeAll(NameReply(w, id, es))]
    {
      hide Big32, EncodeAll, EntriesFields;
      ghost var names := EncodeAll(EntriesFields(w, es));
      PatchMiddle([FXP_NAME] + Big32(id), Big32(0), names);
      assert |b.Contents()| == b.len;
      Patch(b, 5, cnt);
      NameFields(w, id, es);
      Send(b);
    }

    /** Requests about a path. */
    method HandlePath(w: World, kind: int, id: u32, r: Reader)
      requires Sound() && PathKind(kind)
      modifies `sent, reply, table, table.h, table.disk, r
      ensures Sound()
      ensures var q := ParsePath(kind, id, r.p, old(r.At()));
              (table.State(), sent) == Served(w, root, q, old(table.State()), old(sent))
    {
      hide EncodeAll, TakeString, TakeAttrs, TakeU32, Correspond, Table.AllBut, Views, Status;
      hide RealPathReply, StatReply, ReactOpen, ReactOpenDir, ReactChange;
      var p := r.GetString();
      var flags := 0;
      if kind == FXP_OPEN {
        flags := r.GetU32();
        SkipAttrs(r);
      }
      if r.bad {
        Tell(id, FX_BAD_MESSAGE, "malformed request");
      } else if kind == FXP_REALPATH {
        OnRealPath(w, id, p);
      } else if kind == FXP_STAT || kind == FXP_LSTAT {
        OnStat(w, id, p);
      } else if kind == FXP_OPENDIR {
        OnOpenDir(w, id, p);
      } else if kind == FXP_OPEN {
        OnOpen(w, id, p, flags);
      } else {
        OnChange(w, id, kind, p);
      }
    }

    /** Requests about a handle. */
    method HandleHandle(w: World, kind: int, id: u32, r: Reader)
      requires Sound() && HandleKind(kind)
      modifies `sent, reply, table, table.h, table.disk, r
      ensures Sound()
      ensures var q := ParseHandle(kind, id, r.p, old(r.At()));
              (table.State(), sent) == Served(w, root, q, old(table.State()), old(sent))
    {
      hide EncodeAll, TakeString, TakeU64, TakeU32, Correspond, Table.AllBut, Views, Status;
      hide StatReply, ReactReadDir, ReactClose, ReactWrite, ReadReply, Lookup, FileOf;
      var hs := r.GetString();
      if kind == FXP_FSTAT {
        OnFStat(w, id, hs);
      } else if kind == FXP_READDIR {
        OnReadDir(w, id, hs);
      } else if kind == FXP_CLOSE {
        OnClose(id, hs);
      } else {
        var off := r.GetU64();
        if kind == FXP_READ {
          var want := r.GetU32();
          if r.bad {
            Tell(id, FX_BAD_MESSAGE, "malformed request");
          } else {
            OnRead(w, id, hs, off, want);
          }
        } else {
          var d := r.GetString();
          if r.bad {
            Tell(id, FX_BAD_MESSAGE, "malformed request");
          } else {
            OnWrite(w, id, hs, off, d);
          }
        }
      }
    }

    method SendVersion()
      requires reply.Length == REPLY_CAP
      modifies `sent, reply
      ensures sent == old(sent) + [EncodeAll([U8(FXP_VERSION), U32(3)])]
    {
      hide EncodeAll;
      SendSmall([U8(FXP_VERSION), U32(3)]);
    }

    /** Requests that are neither about one path nor about a handle. */
    method HandleOther(w: World, kind: int, id: u32, r: Reader)
      requires Sound()
      modifies `sent, reply, table.disk`calls, r
      ensures Sound()
      ensures var q := ParseOther(kind, id, r.p, old(r.At()));
              (table.State(), sent) == Served(w, root, q, old(table.State()), old(sent))
    {
      hide EncodeAll, TakeString, Correspond, Table.AllBut, Views, Status, ReactRename;
      if kind == FXP_RENAME {
        var p1 := r.GetString();
        var p2 := r.GetString();
        if r.bad {
          Tell(id, FX_BAD_MESSAGE, "malformed request");
        } else {
          OnRename(w, id, p1, p2);
        }
      } else if kind == FXP_SETSTAT || kind == FXP_FSETSTAT {
        Tell(id, FX_OK, "");
      } else {
        Tell(id, FX_OP_UNSUPPORTED, "not supported");
      }
    }

    /** Every request, whatever its bytes, has exactly the effect and the one reply that the server as a function gives
        it, and the reply fits; all calls stay strictly below the root as long as requests that make one are
        contained. */
    method Handle(w: World, pkt: bytes)
      requires Sound()
      modifies `sent, reply, table, table.h, table.disk
      ensures Sound()
      ensures Ready() <==> old(Ready()) && (table.disk.calls == old(table.disk.calls) || Contained(Parse(pkt)))
      ensures (table.State(), sent) == Served(w, root, Parse(pkt), old(table.State()), old(sent))
      ensures |sent| == |old(sent)| + 1 && |sent[|old(sent)|]| <= REPLY_CAP
    {
      hide EncodeAll, TakeString, TakeU32, Correspond, Table.AllBut, Views, React, AllPlaced, Status;
      hide ParsePath, ParseHandle, ParseOther, Contained;
      ReplyFits(w, root, table.State(), Parse(pkt));
      StaysPlaced(w, root, table.State(), Parse(pkt));
      var r := new Reader(pkt);
      var kind := r.GetU8();
      if kind == FXP_INIT {
        SendVersion();
        assert React(w, root, old(table.State()), AskVersion) == (table.State(), [U8(FXP_VERSION), U32(3)]) by {
          ReactVersion(w, root, table.State());
        }
        return;
      }
      var id := r.GetU32();
      if PathKind(kind) {
        HandlePath(w, kind, id, r);
      } else if HandleKind(kind) {
        HandleHandle(w, kind, id, r);
      } else {
        HandleOther(w, kind, id, r);
      }
    }
  }

  lemma FileHandle(t: seq<Option<Owned>>, h: bytes)
    requires FileOf(t, h).Some?
    ensures |h| == 4
  {
  }

  /** The file has these contents: reading at an offset gives what is there from the offset on. */
  ghost predicate Serves(w: World, f: nat, contents: bytes) {
    forall off: u64 :: w.seek(f, off) && w.fread(f, off) == contents[SftpPath.Min(off, |contents|)..]
  }

  lemma ServedAt(w: World, f: nat, contents: bytes, off: u64)
    requires Serves(w, f, contents) && off <= |contents|
    ensures w.seek(f, off) && w.fread(f, off) == contents[off..]
  {
    assert SftpPath.Min(off, |contents|) == off;
  }

  /** The file takes whatever is written. */
  ghost predicate Takes(w: World, f: nat) {
    forall off: u64, d: bytes :: w.seek(f, off) && w.fwrite(f, off, d)
  }

  lemma TakenAt(w: World, f: nat, off: u64, d: bytes)
    requires Takes(w, f)
    ensures w.seek(f, off) && w.fwrite(f, off, d)
  {
  }

  /** What follows what is there. */
  lemma GoesOn(contents: bytes, got: bytes, d: bytes)
    requires |got| <= |contents| && got == contents[..|got|] && d <= contents[|got|..]
    ensures |got + d| <= |contents| && got + d == contents[..|got + d|]
  {
    assert contents[|got|..][..|d|] == contents[|got|..|got| + |d|];
    assert contents[..|got| + |d|] == contents[..|got|] + contents[|got|..|got| + |d|];
  }

  /** Chunks written one behind the other. */
  ghost function Writes(f: nat, chunks: seq<bytes>): seq<Call>
    requires |Flat(chunks)| < TWO_64
    decreases |chunks|
  {
    if chunks == [] then []
    else
      FlatSnoc(chunks, |chunks| - 1);
      var init := chunks[..|chunks| - 1];
      Writes(f, init) + [Fwrite(f, |Flat(init)|, chunks[|chunks| - 1])]
  }

  lemma WritesSnoc(f: nat, chunks: seq<bytes>, n: nat)
    requires n < |chunks| && |Flat(chunks)| < TWO_64
    ensures |Flat(chunks[..n])| <= |Flat(chunks[..n + 1])| < TWO_64
    ensures Writes(f, chunks[..n + 1]) == Writes(f, chunks[..n]) + [Fwrite(f, |Flat(chunks[..n])|, chunks[n])]
  {
    hide Flat;
    FlatSnoc(chunks, n);
    assert chunks[..n + 1][..n] == chunks[..n];
  }

  lemma FlatSnoc(chunks: seq<bytes>, n: nat)
    requires n < |chunks|
    ensures chunks[..n + 1] == chunks[..n] + [chunks[n]]
    ensures |Flat(chunks[..n + 1])| == |Flat(chunks[..n])| + |chunks[n]|
    ensures |Flat(chunks[..n + 1])| <= |Flat(chunks)|
  {
    hide Flat;
    assert chunks[..n + 1] == chunks[..n] + [chunks[n]];
    assert chunks == chunks[..n + 1] + chunks[n + 1..];
    FlatAppend(chunks[..n], [chunks[n]]);
    FlatAppend(chunks[..n + 1], chunks[n + 1..]);
    FlatCons(chunks[n], []);
    FlatNothing();
    assert [chunks[n]] + [] == [chunks[n]];
  }

  lemma FlatNothing()
    ensures Flat<u8>([]) == []
  {
  }

  lemma {:induction false} FlatAppend(a: seq<bytes>, b: seq<bytes>)
    ensures Flat(a + b) == Flat(a) + Flat(b)
    decreases |a|
  {
    if a == [] {
      assert a + b == b;
    } else {
      FlatAppend(a[1..], b);
      assert (a + b)[1..] == a[1..] + b;
    }
  }

  lemma ReactVersion(w: World, root: bytes, s: Files)
    requires |s.handles| == MAX_HANDLES
    ensures React(w, root, s, AskVersion) == (s, [U8(FXP_VERSION), U32(3)])
  {
  }

  /** The replies that carry these batches, from time n on. */
  ghost function ListingReplies(world: nat -> World, n: nat, id: u32, bs: seq<seq<Entry>>): seq<bytes>
    decreases |bs|
  {
    if bs == [] || |bs[0]| >= TWO_32 then []
    else [EncodeAll(NameReply(world(n), id, bs[0]))] + ListingReplies(world, n + 1, id, bs[1..])
  }

  /** The next reply is the first of those still to come. */
  lemma NextReply(world: nat -> World, n: nat, id: u32, path: bytes, names: seq<name>, sofar: seq<bytes>)
    ensures var k, es := BatchEnd(world(n), path, names, 0), Batch(world(n), path, names);
            var bs := Batches(world, n, path, names);
            |es| < TWO_32
            && if es == [] then bs == [] && ListingReplies(world, n, id, bs) == []
               else k > 0 && var rest := Batches(world, n + 1, path, names[k..]);
                    |bs| == |rest| + 1 && sofar + ListingReplies(world, n, id, bs)
                    == sofar + [EncodeAll(NameReply(world(n), id, es))] + ListingReplies(world, n + 1, id, rest)
  {
    hide BatchEnd, Listed, EncodeAll, NameReply;
    BatchOf(world(n), path, names);
    NothingListed(world(n), path);
    assert names[..0] == [];
    var k, es := BatchEnd(world(n), path, names, 0), Batch(world(n), path, names);
    if es != [] {
      var bs := Batches(world, n, path, names);
      assert bs[0] == es && bs[1..] == Batches(world, n + 1, path, names[k..]);
      var rest := ListingReplies(world, n + 1, id, bs[1..]);
      assert sofar + ([EncodeAll(NameReply(world(n), id, es))] + rest)
             == sofar + [EncodeAll(NameReply(world(n), id, es))] + rest;
    }
  }

  lemma ReplyKind(fs: seq<Field>)
    requires AllStorable(fs) && fs != [] && fs[0].U8?
    ensures EncodeAll(fs) != [] && EncodeAll(fs)[0] == fs[0].b
  {
  }

  /** Overwrites four bytes of what was written. */
  method Patch(w: Writer, o: nat, v: u32)
    requires w.Valid() && o + 4 <= w.len
    modifies w.p
    ensures w.Valid() && w.Contents() == old(w.Contents()[..o]) + Big32(v) + old(w.Contents()[o + 4..])
  {
    hide Big32;
    ghost var was := w.p[..];
    CopyInto(w.p, w.base + o, Big32(v));
    Patched(was, w.p[..], w.base, w.len, o, Big32(v));
  }

  lemma Patched(was: bytes, now: bytes, base: nat, len: nat, o: nat, d: bytes)
    requires base + len <= |was| && o + |d| <= len && now == was[..base + o] + d + was[base + o + |d|..]
    ensures now[base..base + len] == was[base..base + len][..o] + d + was[base..base + len][o + |d|..]
  {
    var t := was[base..base + len];
    var r := t[..o] + d + t[o + |d|..];
    assert |r| == len && |now| == |was|;
    forall i | 0 <= i < len ensures now[base + i] == r[i] {
      if i >= o + |d| {
        assert r[i] == t[i] == was[base + i];
      }
    }
    assert now[base..base + len] == r;
  }

  lemma PatchMiddle(a: bytes, b: bytes, c: bytes)
    ensures (a + b + c)[..|a|] == a && (a + b + c)[|a| + |b|..] == c
  {
  }
}
