/** Whole runs: any number of backing files, any number of handles on each of them, opened and closed
    at will, and any sequence of calls. Every run is one that ordinary sparse files could have made. */
module FileSystem {
  import opened SymbolicArith
  import opened ByteSeqs
  import opened ContentEnc
  import opened BlockLayout
  import opened DiskImage
  import opened OpenFileTable
  import opened EncryptedFile

  datatype Op =
    | Open(inode: nat)
    | Close(h: nat)
    | Read(h: nat, off: nat, length: nat)
    | Write(h: nat, off: nat, data: Bytes)
    | SetSize(h: nat, size: nat)
    | Allocate(h: nat, off: nat, size: nat, mode: nat)
    | GetSize(h: nat)

  datatype Result = Result(errno: Errno, count: nat, out: Bytes)

  datatype Handle = Handle(inode: nat, released: bool)

  // --- the reference: plain byte files ---------------------------------------------------

  /** The plain contents of all files, and the handles handed out so far. */
  datatype State = State(files: seq<Bytes>, handles: seq<Handle>)

  /** What callers must respect: handles come from Open, are closed once and not read after closing, and
      requests are not empty. */
  predicate Callable(nfiles: nat, hs: seq<Handle>, op: Op) {
    match op
    case Open(q) => q < nfiles
    case Close(h) => h < |hs| && !hs[h].released
    case Read(h, _, length) => h < |hs| && !hs[h].released && length > 0
    case Write(h, _, data) => h < |hs| && data != []
    case SetSize(h, _) => h < |hs|
    case Allocate(h, _, size, _) => h < |hs| && size > 0
    case GetSize(h) => h < |hs| && !hs[h].released
  }

  function NextHandles(hs: seq<Handle>, op: Op): seq<Handle> {
    match op
    case Open(q) => hs + [Handle(q, false)]
    case Close(h) => if h < |hs| then hs[h := hs[h].(released := true)] else hs
    case _ => hs
  }

  predicate AllCallable(nfiles: nat, hs: seq<Handle>, ops: seq<Op>)
    decreases ops
  {
    ops == [] || (Callable(nfiles, hs, ops[0]) && AllCallable(nfiles, NextHandles(hs, ops[0]), ops[1..]))
  }

  /** How one call changes the content of the file it addresses. */
  ghost predicate Effect(e: Enc, p: Bytes, released: bool, op: Op, r: Result, p': Bytes)
    requires e.plainBS > 0
  {
    match op
    case Read(_, off, length) => ReadOutcome(e, p, off, length, r.out, r.errno) && p' == p
    case Write(_, off, data) =>
      WriteOutcome(e, p, data, off, r.errno, p') && r.count == (if r.errno == OK then |data| else 0)
      && (r.errno == EMSGSIZE <==> |data| > e.maxKernelWrite)
      && (r.errno == EBADF <==> released && |data| <= e.maxKernelWrite)
      && (data != [] && (r.errno == OK || r.errno == EFBIG) ==> (r.errno == EFBIG <==> TooFar(e, off, |data|)))
    case SetSize(_, size) =>
      if released then r.errno == EBADF && p' == p else TruncateOutcome(e, p, size, r.errno, p')
    case Allocate(_, off, size, mode) =>
      AllocateOutcome(e, p, off, size, mode, r.errno, p')
      && (r.errno == EOPNOTSUPP <==> mode != 0 && mode != 1)
      && (r.errno == EBADF <==> released && (mode == 0 || mode == 1))
    case GetSize(_) => r.errno == OK && r.count == |p| && p' == p
    case _ => false
  }

  /** One call in a system of plain files: it affects only the file of its handle. */
  ghost predicate Step(e: Enc, s: State, op: Op, r: Result, s': State)
    requires e.plainBS > 0
  {
    && s'.handles == NextHandles(s.handles, op)
    && |s'.files| == |s.files|
    && r.errno != EIO
    && match op
       case Open(_) => r.errno == OK && s'.files == s.files
       case Close(_) => r.errno == OK && s'.files == s.files
       case _ =>
         op.h < |s.handles| && var q := s.handles[op.h].inode;
         q < |s.files|
         && Effect(e, s.files[q], s.handles[op.h].released, op, r, s'.files[q])
         && forall i :: 0 <= i < |s.files| && i != q ==> s'.files[i] == s.files[i]
  }

  /** An operation on one handle that answers and changes its file as promised is a step. */
  lemma FileStep(e: Enc, s: State, op: Op, r: Result, p: Bytes)
    requires e.plainBS > 0 && !op.Open? && !op.Close? && op.h < |s.handles| && s.handles[op.h].inode < |s.files|
    requires var h := s.handles[op.h]; r.errno != EIO && Effect(e, s.files[h.inode], h.released, op, r, p)
    ensures Step(e, s, op, r, s.(files := s.files[s.handles[op.h].inode := p]))
  {
    hide Effect;
  }

  /** How many open handles backing file q has. */
  function OpenCount(hs: seq<Handle>, q: nat): nat {
    if hs == [] then 0
    else OpenCount(hs[..|hs| - 1], q) + if hs[|hs| - 1] == Handle(q, false) then 1 else 0
  }

  lemma CountOpen(hs: seq<Handle>, x: Handle, q: nat)
    ensures OpenCount(hs + [x], q) == OpenCount(hs, q) + if x == Handle(q, false) then 1 else 0
  {
    assert (hs + [x])[..|hs|] == hs;
  }

  lemma {:induction false} CountClose(hs: seq<Handle>, h: nat, q: nat)
    requires h < |hs| && !hs[h].released
    ensures OpenCount(hs[h := hs[h].(released := true)], q) == OpenCount(hs, q) - if hs[h].inode == q then 1 else 0
  {
    var hs' := hs[h := hs[h].(released := true)];
    var n := |hs| - 1;
    if h == n {
      assert hs'[..n] == hs[..n];
    } else {
      assert hs'[..n] == hs[..n][h := hs[h].(released := true)];
      CountClose(hs[..n], h, q);
    }
  }

  lemma {:induction false} CountPositive(hs: seq<Handle>, h: nat)
    requires h < |hs| && !hs[h].released
    ensures OpenCount(hs, hs[h].inode) > 0
  {
    if h < |hs| - 1 {
      CountPositive(hs[..|hs| - 1], h);
    }
  }

  // --- the implementation: encrypted files --------------------------------------------------

  class Mount {
    const e: Enc
    const disks: seq<BackingFile>
    const table: Table
    const reliable: bool // no backing file ever refuses space
    const prealloc: bool
    const numCPU: nat
    var handles: seq<File>
    ghost var abs: State
    ghost var Repr: set<object>

    ghost predicate FileOK(q: nat)
      requires e.plainBS > 0 && q < |disks|
      reads this, disks
    {
      q < |abs.files| && WellFormed(e, disks[q].bytes) && Content(e, disks[q].bytes) == abs.files[q]
    }

    /** The table has an entry for exactly the files with open handles, and counts them. */
    ghost predicate EntryOK(q: nat)
      requires q < |disks|
      reads this, table, table.entries.Values, disks
    {
      if q in table.entries then
        && table.entries[q].refCount == OpenCount(abs.handles, q) > 0
        && (table.entries[q].id.Some? ==> HeaderOf(disks[q].bytes) == table.entries[q].id)
      else OpenCount(abs.handles, q) == 0
    }

    ghost predicate HandleOK(h: nat)
      requires e.plainBS > 0 && h < |handles|
      reads this, handles, table, disks
    {
      var f := handles[h];
      && h < |abs.handles| && abs.handles[h] == Handle(f.qIno, f.released)
      && f.qIno < |disks| && f.e == e && f.fd == disks[f.qIno] && f.table == table
      && (!f.released ==> f.qIno in table.entries && f.entry == table.entries[f.qIno] && f.TracksEnd())
    }

    ghost predicate Owned()
      reads this, table
    {
      && (forall d :: d in disks ==> d in Repr && d.reliable == reliable)
      && (forall f :: f in handles ==> f in Repr && f.entry in Repr)
      && (forall q :: q in table.entries ==> q < |disks| && table.entries[q] in Repr)
    }

    ghost predicate Distinct()
      reads this, table
    {
      && (forall i, j :: 0 <= i < j < |disks| ==> disks[i] != disks[j])
      && (forall q, r :: q in table.entries && r in table.entries && q != r ==> table.entries[q] != table.entries[r])
      && (forall g, h :: 0 <= g < h < |handles| ==> handles[g] != handles[h])
    }

    ghost predicate Valid()
      reads this, Repr
    {
      && e.Valid()
      && this in Repr && table in Repr && Owned() && Distinct()
      && |abs.files| == |disks| && |abs.handles| == |handles|
      && (forall q: nat :: q < |disks| ==> FileOK(q))
      && (forall q: nat :: q < |disks| ==> EntryOK(q))
      && (forall h: nat :: h < |handles| ==> HandleOK(h))
    }

    constructor (e: Enc, disks: seq<BackingFile>, reliable: bool, prealloc: bool, numCPU: nat)
      requires e.Valid()
      requires forall d :: d in disks ==> d.bytes == [] && d.reliable == reliable
      requires forall i, j :: 0 <= i < j < |disks| ==> disks[i] != disks[j]
      ensures this.e == e && this.disks == disks && this.reliable == reliable && fresh(Repr - set d | d in disks)
      ensures Valid() && abs == State(seq(|disks|, _ => []), [])
    {
      this.e, this.disks, this.reliable, this.prealloc, this.numCPU := e, disks, reliable, prealloc, numCPU;
      var t := new Table();
      table := t;
      handles := [];
      abs := State(seq(|disks|, _ => []), []);
      Repr := {this, t} + set d | d in disks;
    }

    /** A copy of what the backing files hold. */
    method Snapshot() returns (backing: seq<Bytes>)
      requires Valid()
      ensures |backing| == |abs.files|
      ensures forall i: nat :: i < |backing| ==> WellFormed(e, backing[i]) && Content(e, backing[i]) == abs.files[i]
    {
      hide Content, WellFormed;
      backing := [];
      for q := 0 to |disks|
        invariant |backing| == q
        invariant forall i: nat :: i < q ==> WellFormed(e, backing[i]) && Content(e, backing[i]) == abs.files[i]
      {
        assert FileOK(q);
        backing := backing + [disks[q].bytes];
      }
    }

    /** A new handle on file q, whose entry was just registered, keeps the invariant. */
    twostate lemma AfterOpen(q: nat, new f: File)
      requires old(Valid()) && q < |disks|
      requires handles == old(handles) + [f] && abs == old(abs).(handles := old(abs).handles + [Handle(q, false)])
      requires f.e == e && f.fd == disks[q] && f.qIno == q && f.table == table && !f.released
      requires f.lastOpCount == 0 && f.lastWrittenOffset == 0
      requires table.entries == old(table.entries)[q := f.entry] && table.writeOpCount == old(table.writeOpCount)
      requires q in old(table.entries) ==> f.entry == old(table.entries)[q]
      requires f.entry.refCount == (if q in old(table.entries) then old(table.entries[q].refCount) else 0) + 1
      requires f.entry.id == if q in old(table.entries) then old(table.entries[q].id) else None
      requires forall i :: i in old(table.entries) && i != q ==>
                 table.entries[i].refCount == old(table.entries[i].refCount) && table.entries[i].id == old(table.entries[i].id)
      requires forall i: nat :: i < |disks| ==> disks[i].bytes == old(disks[i].bytes)
      requires forall h: nat :: h < |old(handles)| ==> unchanged(old(handles)[h])
      requires this in Repr && table in Repr && Owned() && Distinct()
      ensures Valid()
    {
      hide Content, WellFormed, HeaderOf, OpenCount, Aead.Ideal;
      forall i: nat | i < |disks| ensures FileOK(i) { assert old(FileOK(i)); }
      forall i: nat | i < |disks| ensures EntryOK(i) {
        CountOpen(old(abs).handles, Handle(q, false), i);
        assert old(EntryOK(i));
      }
      forall h: nat | h < |handles| ensures HandleOK(h) {
        assert h < |old(handles)| ==> old(HandleOK(h)) && handles[h] == old(handles[h]);
      }
    }

    method DoOpen(q: nat)
      requires Valid() && q < |disks|
      modifies Repr
      ensures fresh(Repr - old(Repr)) && Valid()
      ensures abs == State(old(abs).files, old(abs).handles + [Handle(q, false)])
    {
      hide Content, WellFormed, HeaderOf, OpenCount, Aead.Ideal;
      hide Mount.Valid, Mount.FileOK, Mount.EntryOK, Mount.HandleOK, Mount.Owned, Mount.Distinct;
      ReadyToOpen(q);
      var entry := table.Register(q);
      var f := new File(e, disks[q], q, entry, table, prealloc, numCPU);
      handles := handles + [f];
      abs := State(abs.files, abs.handles + [Handle(q, false)]);
      Repr := Repr + {f, entry};
      OpenOwned(q, f);
      AfterOpen(q, f);
    }

    lemma ReadyToOpen(q: nat)
      requires Valid()
      ensures this in Repr && table in Repr && (q in table.entries ==> table.entries[q] in Repr) && Owned() && Distinct()
    {
    }

    /** A new handle on an old or a new entry keeps ownership and the absence of aliases. */
    twostate lemma OpenOwned(q: nat, new f: File)
      requires old(Owned()) && old(Distinct()) && q < |disks| && f !in old(handles)
      requires handles == old(handles) + [f] && Repr == old(Repr) + {f, f.entry}
      requires table.entries == old(table.entries)[q := f.entry]
      requires if q in old(table.entries) then f.entry == old(table.entries)[q] else f.entry !in old(table.entries).Values
      ensures Owned() && Distinct()
    {
    }

    /** Release: the last handle of a file takes the table entry, and the cached file ID, with it. */
    method DoClose(h: nat)
      requires Valid() && h < |handles| && !handles[h].released
      modifies Repr
      ensures Repr == old(Repr) && Valid()
      ensures abs == State(old(abs).files, NextHandles(old(abs).handles, Close(h)))
    {
      hide Content, WellFormed, HeaderOf, OpenCount, Aead.Ideal;
      var f := handles[h];
      assert HandleOK(h) && EntryOK(f.qIno);
      f.released := true;
      table.Unregister(f.qIno);
      abs := State(abs.files, NextHandles(abs.handles, Close(h)));
      forall i: nat | i < |disks| ensures FileOK(i) { assert old(FileOK(i)); }
      forall i: nat | i < |disks| ensures EntryOK(i) {
        CountClose(old(abs).handles, h, i);
        assert old(EntryOK(i));
      }
      forall g: nat | g < |handles| ensures HandleOK(g) {
        assert old(HandleOK(g)) && EntryOK(handles[g].qIno);
        if !handles[g].released {
          CountPositive(abs.handles, g);
        }
      }
    }

    /** What a call through handle h may have changed: the handle, its file, the ID cached for that file,
        and the lock counter. */
    twostate predicate OnlyTouched(h: nat)
      requires h < |old(handles)| && old(handles[h].qIno < |disks|)
      reads this, Repr, table, handles, disks, table.entries.Values
    {
      var q := old(handles[h].qIno);
      && handles == old(handles) && Repr == old(Repr) && table.entries == old(table.entries)
      && table.writeOpCount >= old(table.writeOpCount)
      && handles[h].released == old(handles[h].released)
      && (forall g: nat :: g < |handles| && g != h ==>
            && handles[g].released == old(handles[g].released)
            && handles[g].lastOpCount == old(handles[g].lastOpCount)
            && handles[g].lastWrittenOffset == old(handles[g].lastWrittenOffset))
      && (forall i: nat :: i < |disks| && i != q ==> disks[i].bytes == old(disks[i].bytes))
      && (forall i :: i in table.entries ==> table.entries[i].refCount == old(table.entries[i].refCount))
      && (forall i :: i in table.entries && i != q ==> table.entries[i].id == old(table.entries[i].id))
      && (handles[h].released ==> disks[q].bytes == old(disks[q].bytes))
      && (handles[h].released && q in table.entries ==> table.entries[q].id == old(table.entries[q].id))
    }

    /** After such a call the invariant holds again, with new content for that one file. */
    twostate lemma AfterCall(h: nat)
      requires old(Valid()) && h < |old(handles)| && old(HandleOK(h)) && OnlyTouched(h)
      requires var q := handles[h].qIno; abs == old(abs).(files := old(abs).files[q := Content(e, disks[q].bytes)])
      requires !handles[h].released ==> handles[h].Inv() && handles[h].TracksEnd()
      requires table.writeOpCount == old(table.writeOpCount) ==>
                 |Content(e, disks[handles[h].qIno].bytes)| == |old(Content(e, disks[handles[h].qIno].bytes))|
      ensures Valid()
    {
      hide Content, WellFormed, HeaderOf, OpenCount, Aead.Ideal;
      var q := handles[h].qIno;
      forall i: nat | i < |disks| ensures FileOK(i) { assert old(FileOK(i)); }
      forall i: nat | i < |disks| ensures EntryOK(i) { assert old(EntryOK(i)); }
      forall g: nat | g < |handles| ensures HandleOK(g) {
        assert old(HandleOK(g)) && old(FileOK(handles[g].qIno)) && FileOK(handles[g].qIno);
      }
    }

    /** What a call through handle h may rely on: its file is in order, and nothing else is an alias of
        what it changes. */
    lemma Ready(h: nat)
      requires Valid() && h < |abs.handles|
      ensures e.Valid() && h < |handles| && HandleOK(h) && this in Repr && table in Repr
      ensures var f := handles[h];
              && f.e == e && f.table == table && f.qIno < |disks| && f.qIno < |abs.files| && f.fd == disks[f.qIno]
              && f in Repr && f.fd in Repr && f.entry in Repr && f.fd.reliable == reliable
              && abs.handles[h] == Handle(f.qIno, f.released) && f.Plain() == abs.files[f.qIno]
              && (!f.released ==> f.Inv() && f.TracksEnd() && f.qIno in table.entries && f.entry == table.entries[f.qIno])
              && (forall g: nat :: g < |handles| && g != h ==> handles[g] != f)
              && (forall i: nat :: i < |disks| && i != f.qIno ==> disks[i] != f.fd)
              && (!f.released ==> forall i :: i in table.entries && i != f.qIno ==> table.entries[i] != f.entry)
    {
      hide Content, WellFormed, HeaderOf, OpenCount, Aead.Ideal;
      var f := handles[h];
      assert HandleOK(h) && FileOK(f.qIno) && EntryOK(f.qIno);
    }

    method DoRead(h: nat, off: nat, length: nat) returns (r: Result)
      requires Valid() && Callable(|disks|, abs.handles, Read(h, off, length))
      modifies Repr
      ensures Repr == old(Repr) && Valid()
      ensures Step(e, old(abs), Read(h, off, length), r, abs) && (reliable ==> r.errno != EDEV)
    {
      hide Content, WellFormed, HeaderOf, OpenCount, Aead.Ideal, ReadOutcome, WriteOutcome, TruncateOutcome, AllocateOutcome, TooFar;
      hide Mount.Valid, Mount.FileOK, Mount.EntryOK, Mount.HandleOK, Mount.Owned, Mount.Distinct, Step;
      Ready(h);
      var f := handles[h];
      var out, errno := f.Read(off, length);
      r := Result(errno, 0, out);
      FileStep(e, abs, Read(h, off, length), r, f.Plain());
      AfterCall(h);
    }

    method DoWrite(h: nat, off: nat, data: Bytes) returns (r: Result)
      requires Valid() && Callable(|disks|, abs.handles, Write(h, off, data))
      modifies Repr
      ensures Repr == old(Repr) && Valid()
      ensures Step(e, old(abs), Write(h, off, data), r, abs) && (reliable ==> r.errno != EDEV)
    {
      hide Content, WellFormed, HeaderOf, OpenCount, Aead.Ideal, ReadOutcome, WriteOutcome, TruncateOutcome, AllocateOutcome, TooFar;
      hide Mount.Valid, Mount.FileOK, Mount.EntryOK, Mount.HandleOK, Mount.Owned, Mount.Distinct, Step;
      Ready(h);
      var f := handles[h];
      var n, errno := f.Write(data, off);
      r := Result(errno, n, []);
      FileStep(e, abs, Write(h, off, data), r, f.Plain());
      abs := abs.(files := abs.files[f.qIno := f.Plain()]);
      AfterCall(h);
    }

    method DoSetSize(h: nat, size: nat) returns (r: Result)
      requires Valid() && Callable(|disks|, abs.handles, SetSize(h, size))
      modifies Repr
      ensures Repr == old(Repr) && Valid()
      ensures Step(e, old(abs), SetSize(h, size), r, abs) && (reliable ==> r.errno != EDEV)
    {
      hide Content, WellFormed, HeaderOf, OpenCount, Aead.Ideal, ReadOutcome, WriteOutcome, TruncateOutcome, AllocateOutcome, TooFar;
      hide Mount.Valid, Mount.FileOK, Mount.EntryOK, Mount.HandleOK, Mount.Owned, Mount.Distinct, Step;
      Ready(h);
      var f := handles[h];
      var errno := f.SetSize(size);
      r := Result(errno, 0, []);
      FileStep(e, abs, SetSize(h, size), r, f.Plain());
      abs := abs.(files := abs.files[f.qIno := f.Plain()]);
      AfterCall(h);
    }

    method DoAllocate(h: nat, off: nat, size: nat, mode: nat) returns (r: Result)
      requires Valid() && Callable(|disks|, abs.handles, Allocate(h, off, size, mode))
      modifies Repr
      ensures Repr == old(Repr) && Valid()
      ensures Step(e, old(abs), Allocate(h, off, size, mode), r, abs) && (reliable ==> r.errno != EDEV)
    {
      hide Content, WellFormed, HeaderOf, OpenCount, Aead.Ideal, ReadOutcome, WriteOutcome, TruncateOutcome, AllocateOutcome, TooFar;
      hide Mount.Valid, Mount.FileOK, Mount.EntryOK, Mount.HandleOK, Mount.Owned, Mount.Distinct, Step;
      Ready(h);
      var f := handles[h];
      var errno := f.Allocate(off, size, mode);
      r := Result(errno, 0, []);
      FileStep(e, abs, Allocate(h, off, size, mode), r, f.Plain());
      abs := abs.(files := abs.files[f.qIno := f.Plain()]);
      AfterCall(h);
    }

    method Call(op: Op) returns (r: Result)
      requires Valid() && Callable(|disks|, abs.handles, op)
      modifies Repr
      ensures fresh(Repr - old(Repr)) && Valid()
      ensures Step(e, old(abs), op, r, abs) && abs.handles == NextHandles(old(abs).handles, op)
      ensures reliable ==> r.errno != EDEV
    {
      hide Content, WellFormed, HeaderOf, OpenCount, Aead.Ideal;
      r := Result(OK, 0, []);
      match op {
        case Open(q) => DoOpen(q);
        case Close(h) =>
          assert HandleOK(h);
          DoClose(h);
        case Read(h, off, length) => r := DoRead(h, off, length);
        case Write(h, off, data) => r := DoWrite(h, off, data);
        case SetSize(h, size) => r := DoSetSize(h, size);
        case Allocate(h, off, size, mode) => r := DoAllocate(h, off, size, mode);
        case GetSize(h) =>
          assert HandleOK(h) && FileOK(handles[h].qIno);
          ReportedSize(e, handles[h].fd.bytes);
          r := Result(OK, e.CipherSizeToPlainSize(|handles[h].fd.bytes|), []);
      }
    }
  }

  /** A trace of states of plain files that explains the results of a run. */
  ghost predicate Explains(e: Enc, trace: seq<State>, ops: seq<Op>, results: seq<Result>)
    requires e.plainBS > 0
  {
    && |results| == |ops| && |trace| == |ops| + 1
    && forall i :: 0 <= i < |ops| ==> Step(e, trace[i], ops[i], results[i], trace[i + 1])
  }

  // --- runs without trouble -------------------------------------------------------------------

  /** The content of a plain file after a call on it. */
  function Apply(p: Bytes, op: Op): Bytes {
    match op
    case Write(_, off, data) => Splice(p, off, data)
    case SetSize(_, size) => Resize(p, size)
    case Allocate(_, off, size, mode) => if mode == 0 && |p| < off + size then Resize(p, off + size) else p
    case _ => p
  }

  predicate OnFile(s: State, op: Op) {
    !op.Open? && !op.Close? && op.h < |s.handles| && s.handles[op.h].inode < |s.files|
  }

  function FileOf(s: State, op: Op): Bytes
    requires OnFile(s, op)
  {
    s.files[s.handles[op.h].inode]
  }

  function PlainNext(s: State, op: Op): State {
    State(if OnFile(s, op) then s.files[s.handles[op.h].inode := Apply(FileOf(s, op), op)] else s.files,
          NextHandles(s.handles, op))
  }

  /** The reference at its simplest: a function of the calls alone. */
  function PlainAfter(nfiles: nat, ops: seq<Op>): State {
    if ops == [] then State(seq(nfiles, _ => []), []) else PlainNext(PlainAfter(nfiles, ops[..|ops| - 1]), ops[|ops| - 1])
  }

  /** The result a plain file gives. */
  predicate Answers(s: State, op: Op, r: Result) {
    && r.errno == OK
    && (op.Read? && OnFile(s, op) ==> r.out == Slice(FileOf(s, op), op.off, op.off + op.length))
    && (op.Write? ==> r.count == |op.data|)
    && (op.GetSize? && OnFile(s, op) ==> r.count == |FileOf(s, op)|)
  }

  /** The ciphertext of everything below `end` lies at legal file offsets. */
  predicate InReach(e: Enc, end: nat)
    requires e.plainBS > 0
  {
    end == 0 || e.BlockNoToCipherOff(Quot(end - 1, e.plainBS)) <= MaxInt64
  }

  /** Nothing about the call itself gives cause for an error. */
  predicate Tame(e: Enc, s: State, op: Op)
    requires e.plainBS > 0
  {
    op.Open? || op.Close? ||
    (&& OnFile(s, op) && !s.handles[op.h].released
     && match op
        case Read(_, off, length) => length <= e.maxKernelWrite && InReach(e, off + 1)
        case Write(_, off, data) => |data| <= e.maxKernelWrite && InReach(e, off + |data|)
        case SetSize(_, size) => InReach(e, size)
        case Allocate(_, off, size, mode) => (mode == 0 || mode == 1) && InReach(e, off + size)
        case _ => true)
  }

  predicate TameRun(e: Enc, nfiles: nat, ops: seq<Op>)
    requires e.plainBS > 0
  {
    forall i :: 0 <= i < |ops| ==> Tame(e, PlainAfter(nfiles, ops[..i]), ops[i])
  }

  /** A tame call can only fail because the device does. */
  lemma TameSucceeds(e: Enc, s: State, op: Op, r: Result, s': State)
    requires e.plainBS > 0 && Step(e, s, op, r, s') && Tame(e, s, op) && r.errno != EDEV
    ensures r.errno == OK
  {
    hide Splice, Resize, Padded, WholeBlocks, Times, Quot, NoPadNeeded;
  }

  /** A call that succeeds does what it does to a plain file. */
  lemma StepIsPlain(e: Enc, s: State, op: Op, r: Result, s': State)
    requires e.plainBS > 0 && Step(e, s, op, r, s') && r.errno == OK
    ensures s' == PlainNext(s, op) && Answers(s, op, r)
  {
    hide Splice, Padded, WholeBlocks, Times, Quot, NoPadNeeded;
    if !op.Open? && !op.Close? {
      var q := s.handles[op.h].inode;
      if op.SetSize? && op.size <= |s.files[q]| {
        assert Resize(s.files[q], op.size) == s.files[q][..op.size];
      }
      assert s'.files[q] == Apply(s.files[q], op);
      assert s'.files == s.files[q := s'.files[q]];
    }
  }

  lemma {:induction false} TameRunIsPlain(e: Enc, nfiles: nat, trace: seq<State>, ops: seq<Op>, results: seq<Result>, n: nat)
    requires e.plainBS > 0 && Explains(e, trace, ops, results) && trace[0] == State(seq(nfiles, _ => []), [])
    requires TameRun(e, nfiles, ops) && n <= |ops| && forall i :: 0 <= i < |results| ==> results[i].errno != EDEV
    ensures trace[n] == PlainAfter(nfiles, ops[..n])
    ensures forall i :: 0 <= i < n ==> Answers(PlainAfter(nfiles, ops[..i]), ops[i], results[i])
  {
    hide Step, Answers, Tame;
    if n > 0 {
      TameRunIsPlain(e, nfiles, trace, ops, results, n - 1);
      assert ops[..n][..n - 1] == ops[..n - 1];
      TameSucceeds(e, trace[n - 1], ops[n - 1], results[n - 1], trace[n]);
      StepIsPlain(e, trace[n - 1], ops[n - 1], results[n - 1], trace[n]);
    }
  }

  /** A mount over `nfiles` empty backing files. */
  method FreshMount(e: Enc, nfiles: nat, reliable: bool, prealloc: bool, numCPU: nat) returns (m: Mount)
    requires e.Valid()
    ensures fresh(m.Repr) && m.Valid() && m.e == e && |m.disks| == nfiles && m.reliable == reliable
    ensures m.abs == State(seq(nfiles, _ => []), [])
  {
    var disks: seq<BackingFile> := [];
    while |disks| < nfiles
      invariant |disks| <= nfiles
      invariant forall d :: d in disks ==> fresh(d) && d.bytes == [] && d.reliable == reliable
      invariant forall i, j :: 0 <= i < j < |disks| ==> disks[i] != disks[j]
    {
      var d := new BackingFile(reliable);
      disks := disks + [d];
    }
    m := new Mount(e, disks, reliable, prealloc, numCPU);
  }

  /** Any run over fresh files: the results of every sequence of calls are those of plain sparse files,
      and in the end the backing files are well formed and decrypt to what those plain files hold. */
  method Run(e: Enc, nfiles: nat, reliable: bool, prealloc: bool, numCPU: nat, ops: seq<Op>)
    returns (results: seq<Result>, backing: seq<Bytes>, ghost trace: seq<State>)
    requires e.Valid() && AllCallable(nfiles, [], ops)
    ensures Explains(e, trace, ops, results)
    ensures reliable ==> forall i :: 0 <= i < |results| ==> results[i].errno != EDEV
    ensures trace[0] == State(seq(nfiles, _ => []), [])
    ensures reliable && TameRun(e, nfiles, ops) ==>
              && trace[|ops|] == PlainAfter(nfiles, ops)
              && forall i :: 0 <= i < |ops| ==> Answers(PlainAfter(nfiles, ops[..i]), ops[i], results[i])
    ensures |backing| == |trace[|ops|].files|
    ensures forall q: nat :: q < |backing| ==> WellFormed(e, backing[q]) && Content(e, backing[q]) == trace[|ops|].files[q]
  {
    hide Content, WellFormed, Step, Mount.Valid, Answers, TameRun, PlainAfter, NextHandles, Callable;
    var m := FreshMount(e, nfiles, reliable, prealloc, numCPU);
    results, trace := [], [m.abs];
    for i := 0 to |ops|
      invariant fresh(m.Repr) && m.Valid()
      invariant |results| == i && |trace| == i + 1 && trace[i] == m.abs
      invariant reliable ==> forall k :: 0 <= k < i ==> results[k].errno != EDEV
      invariant AllCallable(nfiles, m.abs.handles, ops[i..])
      invariant trace[0] == State(seq(nfiles, _ => []), [])
      invariant forall k :: 0 <= k < i ==> Step(e, trace[k], ops[k], results[k], trace[k + 1])
    {
      assert ops[i..][0] == ops[i] && ops[i..][1..] == ops[i + 1..];
      var r := m.Call(ops[i]);
      results, trace := results + [r], trace + [m.abs];
    }
    backing := m.Snapshot();
    if reliable && TameRun(e, nfiles, ops) {
      TameRunIsPlain(e, nfiles, trace, ops, results, |ops|);
      assert ops[..|ops|] == ops;
    }
  }
}
