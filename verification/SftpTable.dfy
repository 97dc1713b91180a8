/** The open objects of the file system, and the fixed table of handles that owns them. */
module SftpTable {
  import opened Machine
  import opened Options
  import opened Codec

  const MAX_HANDLES := 8

  type name = s: bytes | 0 < |s| <= 255 && 0 !in s witness [65]

  /** "rb", "r+b" and "w+b". */
  datatype Mode = Read | Update | Truncate

  /** What the program asks the file system to do, whether or not that succeeds. */
  datatype Call =
    | Fopen(path: bytes, mode: Mode)
    | Fwrite(obj: nat, off: u64, data: bytes)
    | Change(kind: int, path: bytes)
    | Rename(source: bytes, target: bytes)

  /** The part of the C library that knows what is open and what it was asked to do.  An object can be closed only
      while it is open, and a number is given to one object only. */
  class Disk {
    ghost var open: set<nat>
    ghost var calls: seq<Call>
    var next: nat
    var rest: map<nat, seq<name>>

    ghost predicate Valid()
      reads `open, `next
    {
      forall o :: o in open ==> o < next
    }

    constructor ()
      ensures Valid() && open == {} && calls == []
    {
      open, calls, next, rest := {}, [], 0, map[];
    }

    method Ask(ghost c: Call)
      modifies `calls
      ensures calls == old(calls) + [c]
    {
      calls := calls + [c];
    }

    method OpenFile() returns (o: nat)
      requires Valid()
      modifies `open, `next
      ensures Valid() && o == old(next) && next == o + 1 && o !in old(open) && open == old(open) + {o}
    {
      o := next;
      open, next := open + {o}, next + 1;
    }

    method Opendir(names: seq<name>) returns (o: nat)
      requires Valid()
      modifies `open, `next, `rest
      ensures Valid() && o == old(next) && next == o + 1 && o !in old(open) && open == old(open) + {o}
      ensures rest == old(rest)[o := names]
    {
      o := next;
      open, next, rest := open + {o}, next + 1, rest[o := names];
    }

    /** fclose and closedir. */
    method Close(o: nat)
      requires Valid() && o in open
      modifies `open
      ensures Valid() && open == old(open) - {o}
    {
      open := open - {o};
    }

    method Readdir(o: nat) returns (e: Option<name>)
      requires Valid() && o in open && o in rest
      modifies `rest
      ensures if old(rest[o]) == [] then e == None && rest == old(rest)
              else e == Some(old(rest[o])[0]) && rest == old(rest)[o := old(rest[o])[1..]]
    {
      if rest[o] == [] {
        e := None;
      } else {
        e := Some(rest[o][0]);
        rest := rest[o := rest[o][1..]];
      }
    }
  }

  /** All that decides what the server does next: what the handles stand for, what is open, what is still to be read
      of each directory, and what the file system was asked to do. */
  datatype Files = Files(handles: seq<Option<Owned>>, open: set<nat>, next: nat, rest: map<nat, seq<name>>,
                         calls: seq<Call>)

  /** The first free handle, or -1. */
  function FreeFrom(t: seq<Option<Owned>>, k: nat): (i: int)
    requires k <= |t|
    ensures -1 <= i < |t| && (i >= 0 ==> k <= i && t[i].None?)
    ensures forall j :: k <= j < (if i == -1 then |t| else i) ==> t[j].Some?
    decreases |t| - k
  {
    if k == |t| then -1 else if t[k].None? then k else FreeFrom(t, k + 1)
  }

  datatype Slot = Slot(used: bool, isdir: bool, f: Option<nat>, d: Option<nat>, path: bytes)

  /** What a handle stands for. */
  datatype Owned = OpenFile(obj: nat, path: bytes) | OpenDir(obj: nat, path: bytes)

  /** A slot never holds a file and a directory, and says which it holds. */
  predicate Sound(s: Slot) {
    s.used ==> (s.f.None? || s.d.None?) && (s.isdir <==> s.d.Some?)
  }

  /** A used slot holds something. */
  predicate Complete(s: Slot) {
    s.used ==> s.f.Some? || s.d.Some?
  }

  function View(s: Slot): Option<Owned> {
    if !s.used then None
    else if s.d.Some? then Some(OpenDir(s.d.value, s.path))
    else if s.f.Some? then Some(OpenFile(s.f.value, s.path))
    else None
  }

  function Views(s: seq<Slot>): (t: seq<Option<Owned>>)
    ensures |t| == |s| && forall i :: 0 <= i < |s| ==> t[i] == View(s[i])
  {
    seq(|s|, i requires 0 <= i < |s| => View(s[i]))
  }

  lemma ViewsUpdate(s: seq<Slot>, i: nat, x: Slot)
    requires i < |s|
    ensures Views(s[i := x]) == Views(s)[i := View(x)]
  {
  }

  /** Handles and open objects correspond one to one. */
  ghost predicate Correspond(t: seq<Option<Owned>>, owner: map<nat, nat>, open: set<nat>, rest: map<nat, seq<name>>) {
    && owner.Keys == open
    && (forall o :: o in owner ==> owner[o] < |t| && t[owner[o]].Some? && t[owner[o]].value.obj == o)
    && (forall i :: 0 <= i < |t| && t[i].Some? ==>
          t[i].value.obj in owner && owner[t[i].value.obj] == i && (t[i].value.OpenDir? ==> t[i].value.obj in rest))
  }

  /** Reading on in a directory does not disturb the table. */
  lemma ReadOn(t: seq<Option<Owned>>, owner: map<nat, nat>, open: set<nat>, rest: map<nat, seq<name>>, o: nat,
               names: seq<name>)
    requires Correspond(t, owner, open, rest)
    ensures Correspond(t, owner, open, rest[o := names])
  {
  }

  const MARKED := Slot(true, false, None, None, [])

  class Table {
    const h: array<Slot>
    const disk: Disk
    /** The slot of every open object. */
    ghost var owner: map<nat, nat>

    /** What the client can refer to, handle by handle. */
    ghost function Handles(): (t: seq<Option<Owned>>)
      reads h
      ensures |t| == h.Length
    {
      Views(h[..])
    }

    ghost function State(): Files
      reads h, disk
    {
      Files(Handles(), disk.open, disk.next, disk.rest, disk.calls)
    }

    ghost predicate Owns(t: seq<Option<Owned>>)
      reads `owner, disk`open, disk`next, disk`rest
    {
      |t| == MAX_HANDLES && disk.Valid() && Correspond(t, owner, disk.open, disk.rest)
    }

    /** Every slot is in order, but for slot i, which may be marked only. */
    ghost predicate AllBut(i: int)
      reads h
    {
      forall k :: 0 <= k < h.Length ==> Sound(h[k]) && (k != i ==> Complete(h[k]))
    }

    ghost predicate Valid()
      reads `owner, h, disk`open, disk`next, disk`rest
    {
      Owns(Handles()) && AllBut(-1)
    }

    constructor (disk: Disk)
      requires disk.Valid() && disk.open == {}
      ensures Valid() && this.disk == disk && fresh(h) && Handles() == seq(MAX_HANDLES, i => None)
    {
      this.disk := disk;
      this.h := new Slot[MAX_HANDLES](i => Slot(false, false, None, None, []));
      this.owner := map[];
    }

    /** Stores a slot. */
    method Place(i: nat, x: Slot)
      requires i < h.Length
      modifies h
      ensures h[i] == x && forall k :: 0 <= k < h.Length && k != i ==> h[k] == old(h[k])
      ensures Handles() == old(Handles())[i := View(x)]
    {
      ViewsUpdate(h[..], i, x);
      h[i] := x;
      assert h[..] == old(h[..])[i := x];
    }

    /** The first free slot, cleared and marked; the client does not see it yet. */
    method AllocHandle() returns (i: int)
      requires Valid()
      modifies h
      ensures Handles() == old(Handles()) && Owns(Handles()) && AllBut(i)
      ensures h.Length == MAX_HANDLES && i == FreeFrom(Handles(), 0) && (i != -1 ==> h[i] == MARKED)
    {
      i := 0;
      while i < MAX_HANDLES
        invariant 0 <= i <= MAX_HANDLES && FreeFrom(Handles(), i) == FreeFrom(Handles(), 0)
        invariant h[..] == old(h[..]) && Valid()
      {
        assert Handles()[i] == View(h[i]);
        if !h[i].used {
          Place(i, MARKED);
          assert Handles() == old(Handles());
          return;
        }
        i := i + 1;
      }
      i := -1;
    }

    /** Gives up a marked slot. */
    method Release(i: nat)
      requires Owns(Handles()) && AllBut(i) && i < MAX_HANDLES && h[i] == MARKED
      modifies h
      ensures Valid() && Handles() == old(Handles())
    {
      Place(i, h[i].(used := false));
      assert Handles() == old(Handles());
    }

    /** A handle of four bytes that names a used slot. */
    method GetHandle(hs: bytes) returns (i: int)
      requires Valid()
      ensures i != -1 <==> |hs| == 4 && Value32(hs) < MAX_HANDLES && Handles()[Value32(hs)].Some?
      ensures i != -1 ==> i == Value32(hs) && h[i].used
    {
      if |hs| != 4 {
        return -1;
      }
      var k := Value32(hs);
      assert k < MAX_HANDLES ==> Handles()[k] == View(h[k]) && Complete(h[k]);
      i := if k < MAX_HANDLES && h[k].used then k else -1;
    }

    /** The marked slot gets an open file. */
    method HoldFile(i: nat, path: bytes) returns (ghost o: nat)
      requires Owns(Handles()) && AllBut(i) && i < MAX_HANDLES && h[i] == MARKED
      modifies this, h, disk`open, disk`next
      ensures Valid() && o == old(disk.next) && disk.next == o + 1
      ensures o !in old(disk.open) && disk.open == old(disk.open) + {o}
      ensures Handles() == old(Handles())[i := Some(OpenFile(o, path))]
    {
      var file := disk.OpenFile();
      o := file;
      Place(i, h[i].(f := Some(file), path := path));
      owner := owner[o := i];
    }

    /** The marked slot gets an open directory. */
    method HoldDir(i: nat, path: bytes, names: seq<name>) returns (ghost o: nat)
      requires Owns(Handles()) && AllBut(i) && i < MAX_HANDLES && h[i] == MARKED
      modifies this, h, disk`open, disk`next, disk`rest
      ensures Valid() && o == old(disk.next) && disk.next == o + 1
      ensures o !in old(disk.open) && disk.open == old(disk.open) + {o} && disk.rest == old(disk.rest)[o := names]
      ensures Handles() == old(Handles())[i := Some(OpenDir(o, path))]
    {
      var dir := disk.Opendir(names);
      o := dir;
      Place(i, h[i].(isdir := true, d := Some(dir), path := path));
      owner := owner[o := i];
    }

    /** Closes what the handle owns and frees the slot. */
    method CloseHandle(i: nat)
      requires Valid() && i < MAX_HANDLES && h[i].used
      modifies this, h, disk`open
      ensures Valid()
      ensures old(Handles())[i].Some? && disk.open == old(disk.open) - {old(Handles())[i].value.obj}
      ensures Handles() == old(Handles())[i := None]
    {
      ghost var x := Handles()[i];
      assert x == View(h[i]) && Complete(h[i]) && Sound(h[i]);
      if h[i].f.Some? {
        disk.Close(h[i].f.value);
      }
      if h[i].d.Some? {
        disk.Close(h[i].d.value);
      }
      Place(i, h[i].(used := false));
      owner := owner - {x.value.obj};
    }

    /** The end of the session: everything that is open is closed, once. */
    method Free()
      requires Valid()
      modifies this, h, disk`open
      ensures disk.open == {}
    {
      for i := 0 to MAX_HANDLES
        invariant Valid() && forall k :: 0 <= k < i ==> Handles()[k] == None
      {
        if h[i].used {
          CloseHandle(i);
        }
      }
    }
  }
}
