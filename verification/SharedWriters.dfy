/** -sharedstorage: any number of mounts write to one backing file. They coordinate only by byte-range
    locks on the backing file; a write is a lock, a read of each partial block, a write that may reach
    the disk in pieces, and an unlock, and the steps of different mounts interleave freely.
    Every interleaving amounts to whole plaintext writes in some serial order. */
module SharedWriters {
  import opened SymbolicArith
  import opened ByteSeqs
  import opened ContentEnc
  import opened BlockLayout
  import opened ContentOps

  type MountId = nat

  datatype Request = Request(off: nat, data: Bytes)
  {
    function First(e: Enc): nat requires e.plainBS > 0 { Quot(off, e.plainBS) }
    function Last(e: Enc): nat requires e.plainBS > 0 && data != [] { Quot(off + |data| - 1, e.plainBS) }

    /** The part of block k that the request covers, as an offset into the block and the data for it. */
    function Skip(e: Enc, k: nat): nat { Max(off, Times(k, e.plainBS)) - Times(k, e.plainBS) }
    function Part(e: Enc, k: nat): Bytes {
      Slice(data, Max(off, Times(k, e.plainBS)) - off, Max(off, Times(k, e.plainBS) + e.plainBS) - off)
    }
  }

  datatype Range = Range(start: nat, len: nat)
  {
    predicate Overlaps(other: Range) { start < other.start + other.len && other.start < start + len }
  }

  /** Ranges overlap exactly if some byte is in both. */
  lemma OverlapsExactly(a: Range, b: Range)
    requires a.len > 0 && b.len > 0
    ensures a.Overlaps(b) <==> exists x: nat :: InRange(a, x) && InRange(b, x)
  {
    if a.Overlaps(b) {
      var x := if a.start < b.start then b.start else a.start;
      assert InRange(a, x) && InRange(b, x);
    }
  }

  predicate InRange(r: Range, x: nat) { r.start <= x < r.start + r.len }

  /** What one mount is doing. `parts` holds the new content of the first blocks of the request;
      `done` counts the bytes of the ciphertext `ct` that have reached the disk. */
  datatype Writer =
    | Idle
    | Reading(req: Request, parts: seq<Bytes>)
    | Writing(req: Request, ct: Bytes, done: nat)
    | Failed

  /** `body` is the backing file behind its header; `log` lists the finished writes. */
  datatype State = State(body: Bytes, locks: map<MountId, Range>, writers: map<MountId, Writer>, log: seq<Request>)
  {
    function WriterOf(m: MountId): Writer { if m in writers then writers[m] else Idle }

    /** Part of what the mount writes is on disk. */
    predicate Mid(m: MountId) { WriterOf(m).Writing? && WriterOf(m).done > 0 }
  }

  datatype Action =
    | Lock(m: MountId, req: Request)
    | ReadBlock(m: MountId)
    | Seal(m: MountId, ct: Bytes)
    | WriteSome(m: MountId, n: nat)
    | Unlock(m: MountId)
    | GiveUp(m: MountId) // a read, the preallocation or the whole write was refused

  /** The file all mounts work on: its ID, and its plaintext before the run. */
  datatype File = File(e: Enc, id: Bytes, initial: Bytes)

  /** The ciphertext range of all blocks of a request, whole blocks. */
  function LockRange(e: Enc, req: Request): Range
    requires e.plainBS > 0 && req.data != []
  {
    RangeBlocks(e, req.off, |req.data|);
    TimesMono(req.First(e), req.Last(e), e.CipherBS());
    Range(e.BlockNoToCipherOff(req.First(e)),
          e.BlockNoToCipherOff(req.Last(e)) + e.CipherBS() - e.BlockNoToCipherOff(req.First(e)))
  }

  /** The request is split, and its range locked, as ExplodePlainRange and JointCiphertextRange do it. */
  lemma SplitsAsTiled(e: Enc, req: Request, blocks: seq<IntraBlock>)
    requires e.plainBS > 0 && req.data != [] && Tiles(e.plainBS, req.off, |req.data|, blocks)
    ensures |blocks| == req.Last(e) - req.First(e) + 1
    ensures forall i :: 0 <= i < |blocks| ==> blocks[i].blockNo == req.First(e) + i && SplitAt(e, req, blocks[i])
    ensures JointCiphertextRange(e, blocks) == (LockRange(e, req).start, LockRange(e, req).len)
  {
    hide Quot, Times, SplitAt;
    LastTile(e, req.off, |req.data|, blocks);
    forall i | 0 <= i < |blocks| ensures SplitAt(e, req, blocks[i]) {
      SplitTile(e, req, blocks, i);
    }
  }

  lemma SplitTile(e: Enc, req: Request, blocks: seq<IntraBlock>, i: nat)
    requires e.plainBS > 0 && req.data != [] && Tiles(e.plainBS, req.off, |req.data|, blocks) && i < |blocks|
    ensures SplitAt(e, req, blocks[i])
  {
    hide Times, Tiles;
    TileInData(e, req.off, |req.data|, blocks, i);
    var b := blocks[i];
    var lo := Times(b.blockNo, e.plainBS);
    assert b.skip == req.Skip(e, b.blockNo);
    assert Slice(req.data, lo + b.skip - req.off, Max(req.off, lo + e.plainBS) - req.off)
        == req.data[lo + b.skip - req.off..lo + b.skip - req.off + b.length];
  }

  /** This part of one block is what the request has for it. */
  ghost predicate SplitAt(e: Enc, req: Request, b: IntraBlock) {
    var pos := Times(b.blockNo, e.plainBS) + b.skip - req.off;
    && b.skip == req.Skip(e, b.blockNo)
    && 0 <= pos && pos + b.length <= |req.data| && req.Part(e, b.blockNo) == req.data[pos..pos + b.length]
  }

  function ApplyAll(p: Bytes, log: seq<Request>): (r: Bytes)
    decreases log
  {
    if log == [] then p
    else var req := log[|log| - 1]; Splice(ApplyAll(p, log[..|log| - 1]), req.off, req.data)
  }

  /** One step of one mount, as the source takes it. */
  ghost predicate Next(f: File, s: State, a: Action, s': State)
    requires f.e.plainBS > 0
  {
    var e, w := f.e, s.WriterOf(a.m);
    match a
    case Lock(m, req) =>
      // writes inside the file; the lock is granted when no other mount holds an overlapping one
      && w.Idle? && req.data != [] && req.off + |req.data| <= |f.initial|
      && (forall o :: o in s.locks && o != m ==> !s.locks[o].Overlaps(LockRange(e, req)))
      && s' == s.(locks := s.locks[m := LockRange(e, req)], writers := s.writers[m := Reading(req, [])])
    case ReadBlock(m) =>
      && w.Reading? && w.req.data != [] && w.req.First(e) + |w.parts| <= w.req.Last(e)
      && var k := w.req.First(e) + |w.parts|;
         var skip, part := w.req.Skip(e, k), w.req.Part(e, k);
         if skip > 0 || |part| < e.plainBS then
           match e.DecryptBlock(Chunk(s.body, e.CipherBS(), k), k, f.id)
           case None => s' == s.(writers := s.writers[m := Failed])
           case Some(was) => s' == s.(writers := s.writers[m := w.(parts := w.parts + [Splice(was, skip, part)])])
         else s' == s.(writers := s.writers[m := w.(parts := w.parts + [part])])
    case Seal(m, ct) =>
      && w.Reading? && w.req.data != [] && |w.parts| == w.req.Last(e) - w.req.First(e) + 1
      && |ct| == Times(|w.parts| - 1, e.CipherBS()) + |w.parts[|w.parts| - 1]| + e.BlockOverhead()
      && (forall i: nat {:trigger w.parts[i]} :: i < |w.parts| ==>
            e.DecryptBlock(Chunk(ct, e.CipherBS(), i), w.req.First(e) + i, f.id) == Some(w.parts[i]))
      && s' == s.(writers := s.writers[m := Writing(w.req, ct, 0)])
    case WriteSome(m, n) =>
      && w.Writing? && w.done + n <= |w.ct| && n > 0
      && s' == s.(body := Splice(s.body, Times(w.req.First(e), e.CipherBS()) + w.done, w.ct[w.done..w.done + n]),
                  writers := s.writers[m := w.(done := w.done + n)])
    case Unlock(m) =>
      && w.Writing? && w.done == |w.ct|
      && s' == s.(locks := s.locks - {m}, writers := s.writers[m := Idle], log := s.log + [w.req])
    case GiveUp(m) =>
      && (w.Reading? || (w.Writing? && w.done == 0))
      && s' == s.(locks := s.locks - {m}, writers := s.writers[m := Idle])
  }

  // --- the invariant ---------------------------------------------------------------------

  ghost predicate Holds(e: Enc, w: Writer, k: nat)
    requires e.plainBS > 0
  {
    (w.Reading? || w.Writing?) && w.req.data != [] && w.req.First(e) <= k <= w.req.Last(e)
  }

  /** Block k of the body stores block k of p. */
  ghost predicate Stored(f: File, body: Bytes, p: Bytes, k: nat) {
    f.e.DecryptBlock(Chunk(body, f.e.CipherBS(), k), k, f.id) == Some(Chunk(p, f.e.plainBS, k))
  }

  /** Block k is stored as p has it, or some mount is in the middle of writing it. */
  ghost predicate Settled(f: File, s: State, p: Bytes, k: nat)
    requires f.e.plainBS > 0
  {
    Stored(f, s.body, p, k) || exists m: MountId :: s.Mid(m) && Holds(f.e, s.WriterOf(m), k)
  }

  ghost predicate WriterOK(f: File, s: State, p: Bytes, m: MountId)
    requires f.e.plainBS > 0
  {
    match s.WriterOf(m)
    case Idle => m !in s.locks
    case Failed => false
    case Reading(req, parts) =>
      && req.data != [] && req.off + |req.data| <= |p|
      && m in s.locks && s.locks[m] == LockRange(f.e, req)
      && |parts| <= req.Last(f.e) - req.First(f.e) + 1
      && forall i: nat :: i < |parts| ==> parts[i] == Chunk(Splice(p, req.off, req.data), f.e.plainBS, req.First(f.e) + i)
    case Writing(req, ct, done) =>
      && req.data != [] && req.off + |req.data| <= |p|
      && m in s.locks && s.locks[m] == LockRange(f.e, req)
      && req.First(f.e) <= req.Last(f.e)
      && SealsBlocks(f.e, ct, f.id, Splice(p, req.off, req.data), req.First(f.e), req.Last(f.e))
      && done <= |ct|
      && var at := Times(req.First(f.e), f.e.CipherBS());
         at + |ct| <= |s.body| && s.body[at..at + done] == ct[..done]
  }

  ghost predicate Inv(f: File, s: State)
    requires f.e.plainBS > 0
  {
    var p := ApplyAll(f.initial, s.log);
    && f.e.Valid()
    && |p| == |f.initial| && |s.body| == f.e.BodyLen(|p|)
    && (forall m: MountId :: WriterOK(f, s, p, m))
    && (forall m, o :: m in s.locks && o in s.locks && m != o ==> !s.locks[m].Overlaps(s.locks[o]))
    && (forall k: nat :: k < f.e.NumBlocks(|p|) ==> Settled(f, s, p, k))
  }

  // --- preservation ------------------------------------------------------------------------

  /** Locks that do not overlap protect different blocks. */
  lemma DisjointBlocks(e: Enc, a: Request, b: Request, k: nat)
    requires e.plainBS > 0 && a.data != [] && b.data != []
    requires a.First(e) <= k <= a.Last(e) && b.First(e) <= k <= b.Last(e)
    ensures LockRange(e, a).Overlaps(LockRange(e, b))
  {
    hide Times, Quot;
    TimesMono(a.First(e), k, e.CipherBS());
    TimesMono(k, a.Last(e), e.CipherBS());
    TimesMono(b.First(e), k, e.CipherBS());
    TimesMono(k, b.Last(e), e.CipherBS());
  }

  lemma OneHolder(f: File, s: State, m: MountId, o: MountId, k: nat)
    requires f.e.plainBS > 0 && Inv(f, s)
    requires Holds(f.e, s.WriterOf(m), k) && Holds(f.e, s.WriterOf(o), k)
    ensures m == o
  {
    hide Times, Quot, Stored, SealsBlocks, ApplyAll;
    var p := ApplyAll(f.initial, s.log);
    assert WriterOK(f, s, p, m) && WriterOK(f, s, p, o);
    DisjointBlocks(f.e, s.WriterOf(m).req, s.WriterOf(o).req, k);
  }

  lemma LockKeepsInv(f: File, s: State, a: Action, s': State)
    requires f.e.plainBS > 0 && Inv(f, s) && a.Lock? && Next(f, s, a, s')
    ensures Inv(f, s')
  {
    hide Times, Quot, Stored, SealsBlocks, ApplyAll, LockRange, Aead.Ideal;
    var p := ApplyAll(f.initial, s.log);
    RangeBlocks(f.e, a.req.off, |a.req.data|);
    forall m: MountId ensures WriterOK(f, s', p, m) {
      assert WriterOK(f, s, p, m);
    }
    forall k: nat | k < f.e.NumBlocks(|p|) ensures Settled(f, s', p, k) {
      assert Settled(f, s, p, k);
      if !Stored(f, s.body, p, k) {
        var m: MountId :| s.Mid(m) && Holds(f.e, s.WriterOf(m), k);
        assert s'.WriterOf(m) == s.WriterOf(m);
      }
    }
  }

  /** A block under a lock that nobody is writing is stored as the plaintext has it. */
  lemma ReadsCurrent(f: File, s: State, m: MountId, k: nat)
    requires f.e.plainBS > 0 && Inv(f, s)
    requires s.WriterOf(m).Reading? && Holds(f.e, s.WriterOf(m), k)
    ensures k < f.e.NumBlocks(|f.initial|) && Stored(f, s.body, ApplyAll(f.initial, s.log), k)
  {
    hide Stored, SealsBlocks, ApplyAll, LockRange, Aead.Ideal;
    var p, req := ApplyAll(f.initial, s.log), s.WriterOf(m).req;
    assert WriterOK(f, s, p, m);
    RangeBlocks(f.e, req.off, |req.data|);
    TimesMono(k, req.Last(f.e), f.e.plainBS);
    LongerThan(f.e, |p|, k);
    assert Settled(f, s, p, k);
    if !Stored(f, s.body, p, k) {
      var o: MountId :| s.Mid(o) && Holds(f.e, s.WriterOf(o), k);
      OneHolder(f, s, m, o, k);
    }
  }

  /** A window on a written file is the old window with the data that falls into it merged in. */
  lemma MergeWindow(p: Bytes, off: nat, data: Bytes, lo: nat, hi: nat)
    requires data != [] && off < hi && lo < off + |data| && lo < hi
    ensures var part := Slice(data, Max(off, lo) - off, hi - off);
            && Slice(Splice(p, off, data), lo, hi) == Splice(Slice(p, lo, hi), Max(off, lo) - lo, part)
            && (off <= lo && |part| >= hi - lo ==> Slice(Splice(p, off, data), lo, hi) == part)
  {
    hide Splice, Slice;
    var at, end := Max(off, lo), Min(off + |data|, hi);
    SliceMerge(p, off, data, lo, hi, at, end - at);
    SliceClipped(data, at - off, hi - off, end - off);
    if off <= lo && end - at >= hi - lo {
      SliceInside(p, off, data, lo, hi);
    }
  }

  /** Merging the data into the old content of a block gives the new content; a whole block needs no merging. */
  lemma MergedPart(e: Enc, p: Bytes, req: Request, k: nat)
    requires e.plainBS > 0 && req.data != [] && req.First(e) <= k <= req.Last(e)
    ensures var merged := Chunk(Splice(p, req.off, req.data), e.plainBS, k);
            && merged == Splice(Chunk(p, e.plainBS, k), req.Skip(e, k), req.Part(e, k))
            && (req.Skip(e, k) == 0 && |req.Part(e, k)| >= e.plainBS ==> merged == req.Part(e, k))
  {
    hide Times, Quot, Splice, Slice;
    RangeBlocks(e, req.off, |req.data|);
    TimesMono(req.First(e), k, e.plainBS);
    TimesMono(k, req.Last(e), e.plainBS);
    var lo, hi := Times(k, e.plainBS), Times(k, e.plainBS) + e.plainBS;
    assert Max(req.off, hi) == hi;
    MergeWindow(p, req.off, req.data, lo, hi);
  }

  /** A mount that reads a block gets the merged block: nothing of it is being written by another mount. */
  lemma ReadAppends(f: File, s: State, a: Action, s': State)
    requires f.e.plainBS > 0 && Inv(f, s) && a.ReadBlock? && Next(f, s, a, s')
    ensures var w, p := s.WriterOf(a.m), ApplyAll(f.initial, s.log);
            && w.Reading? && w.req.First(f.e) + |w.parts| <= w.req.Last(f.e)
            && var part := Chunk(Splice(p, w.req.off, w.req.data), f.e.plainBS, w.req.First(f.e) + |w.parts|);
               s' == s.(writers := s.writers[a.m := w.(parts := w.parts + [part])])
  {
    hide Times, Quot, ApplyAll, LockRange, Splice, Chunk, Aead.Ideal, Request.Skip, Request.Part, Inv;
    var p, w := ApplyAll(f.initial, s.log), s.WriterOf(a.m);
    var k := w.req.First(f.e) + |w.parts|;
    ReadsCurrent(f, s, a.m, k);
    MergedPart(f.e, p, w.req, k);
  }

  lemma ReadKeepsInv(f: File, s: State, a: Action, s': State)
    requires f.e.plainBS > 0 && Inv(f, s) && a.ReadBlock? && Next(f, s, a, s')
    ensures Inv(f, s')
  {
    hide Times, Quot, SealsBlocks, ApplyAll, LockRange, Splice, Chunk, Aead.Ideal, Next;
    var p := ApplyAll(f.initial, s.log);
    ReadAppends(f, s, a, s');
    forall m: MountId ensures WriterOK(f, s', p, m) {
      assert WriterOK(f, s, p, m);
    }
    forall j: nat | j < f.e.NumBlocks(|p|) ensures Settled(f, s', p, j) {
      assert Settled(f, s, p, j);
      if !Stored(f, s.body, p, j) {
        var m: MountId :| s.Mid(m) && Holds(f.e, s.WriterOf(m), j);
        assert s'.WriterOf(m) == s.WriterOf(m);
      }
    }
  }

  /** A mount that has sealed its blocks has written nothing yet. */
  lemma SealedWriter(f: File, s: State, s': State, p: Bytes, m: MountId, ct: Bytes)
    requires f.e.plainBS > 0 && WriterOK(f, s, p, m) && s.WriterOf(m).Reading?
    requires var req := s.WriterOf(m).req;
             && s'.WriterOf(m) == Writing(req, ct, 0) && s'.locks == s.locks && req.First(f.e) <= req.Last(f.e)
             && SealsBlocks(f.e, ct, f.id, Splice(p, req.off, req.data), req.First(f.e), req.Last(f.e))
             && Times(req.First(f.e), f.e.CipherBS()) + |ct| <= |s'.body|
    ensures WriterOK(f, s', p, m)
  {
    hide Times, Quot, SealsBlocks, LockRange, Splice, Chunk;
    var at := Times(s.WriterOf(m).req.First(f.e), f.e.CipherBS());
    assert s'.body[at..at + 0] == ct[..0];
  }

  lemma SealKeepsInv(f: File, s: State, a: Action, s': State)
    requires f.e.plainBS > 0 && Inv(f, s) && a.Seal? && Next(f, s, a, s')
    ensures Inv(f, s')
  {
    hide Times, Quot, SealsBlocks, ApplyAll, LockRange, Splice, Chunk, Aead.Ideal;
    var p, w := ApplyAll(f.initial, s.log), s.WriterOf(a.m);
    assert WriterOK(f, s, p, a.m);
    RangeBlocks(f.e, w.req.off, |w.req.data|);
    SealedRequest(f, p, w.req, w.parts, a.ct);
    forall m: MountId ensures WriterOK(f, s', p, m) {
      assert WriterOK(f, s, p, m);
      if m == a.m {
        SealedWriter(f, s, s', p, m, a.ct);
      } else {
        OtherPiece(f, s, s', p, m);
      }
    }
    forall j: nat | j < f.e.NumBlocks(|p|) ensures Settled(f, s', p, j) {
      assert Settled(f, s, p, j);
      if !Stored(f, s.body, p, j) {
        var m: MountId :| s.Mid(m) && Holds(f.e, s.WriterOf(m), j);
        assert s'.WriterOf(m) == s.WriterOf(m);
      }
    }
  }

  /** The sealed blocks of a request inside the file end where its last block ends. */
  lemma {:induction false} SealedRequest(f: File, p: Bytes, req: Request, parts: seq<Bytes>, ct: Bytes)
    requires f.e.plainBS > 0 && req.data != [] && req.off + |req.data| <= |p|
    requires req.First(f.e) <= req.Last(f.e) && |parts| == req.Last(f.e) - req.First(f.e) + 1
    requires forall i: nat :: i < |parts| ==> parts[i] == Chunk(Splice(p, req.off, req.data), f.e.plainBS, req.First(f.e) + i)
    requires |ct| == Times(|parts| - 1, f.e.CipherBS()) + |parts[|parts| - 1]| + f.e.BlockOverhead()
    requires forall i: nat {:trigger parts[i]} :: i < |parts| ==>
               f.e.DecryptBlock(Chunk(ct, f.e.CipherBS(), i), req.First(f.e) + i, f.id) == Some(parts[i])
    ensures SealsBlocks(f.e, ct, f.id, Splice(p, req.off, req.data), req.First(f.e), req.Last(f.e))
    ensures Times(req.First(f.e), f.e.CipherBS()) + |ct| <= f.e.BodyLen(|p|)
  {
    hide Times, Quot, Splice, Chunk;
    var p', first, last := Splice(p, req.off, req.data), req.First(f.e), req.Last(f.e);
    forall k: nat | first <= k <= last
      ensures f.e.DecryptBlock(Chunk(ct, f.e.CipherBS(), k - first), k, f.id) == Some(Chunk(p', f.e.plainBS, k))
    {
      assert parts[k - first] == Chunk(p', f.e.plainBS, k);
    }
    RangeBlocks(f.e, req.off, |req.data|);
    WrittenEnd(f.e, p, req.off, req.data, first, last, ct);
    WrittenLength(f.e, |p|, req.off + |req.data|, last);
  }

  /** A piece written inside the blocks first..last leaves every other block as it was. */
  lemma PieceInBlocks(e: Enc, body: Bytes, first: nat, last: nat, at: nat, piece: Bytes, k: nat)
    requires first <= last && !(first <= k <= last)
    requires Times(first, e.CipherBS()) <= at && at + |piece| <= |body|
    requires at + |piece| <= Times(last, e.CipherBS()) + e.CipherBS()
    ensures Chunk(Splice(body, at, piece), e.CipherBS(), k) == Chunk(body, e.CipherBS(), k)
  {
    var c := e.CipherBS();
    if k < first {
      TimesMono(k, first, c);
      SliceBefore(body, at, piece, Times(k, c), Times(k, c) + c);
    } else {
      TimesMono(last, k, c);
      SliceAfter(body, at, piece, Times(k, c), Times(k, c) + c);
    }
  }

  /** What the invariant says about a mount in the middle of its write. */
  lemma WritingFacts(f: File, s: State, m: MountId)
    requires f.e.plainBS > 0 && Inv(f, s) && s.WriterOf(m).Writing?
    ensures var w := s.WriterOf(m);
            && w.req.data != [] && w.req.First(f.e) <= w.req.Last(f.e) && w.done <= |w.ct|
            && Times(w.req.First(f.e), f.e.CipherBS()) + |w.ct| <= |s.body|
            && Times(w.req.First(f.e), f.e.CipherBS()) + |w.ct| <= Times(w.req.Last(f.e), f.e.CipherBS()) + f.e.CipherBS()
  {
    hide Times, Quot, ApplyAll, LockRange, Chunk, Aead.Ideal;
    var p, w := ApplyAll(f.initial, s.log), s.WriterOf(m);
    assert WriterOK(f, s, p, m);
    RangeBlocks(f.e, w.req.off, |w.req.data|);
    WrittenEnd(f.e, p, w.req.off, w.req.data, w.req.First(f.e), w.req.Last(f.e), w.ct);
  }

  /** Two mounts that write at the same time write to disjoint parts of the body. */
  lemma WritesApart(f: File, s: State, m: MountId, o: MountId)
    requires f.e.plainBS > 0 && Inv(f, s) && m != o && s.WriterOf(m).Writing? && s.WriterOf(o).Writing?
    ensures var a, b, c := s.WriterOf(m), s.WriterOf(o), f.e.CipherBS();
            || Times(a.req.First(f.e), c) + |a.ct| <= Times(b.req.First(f.e), c)
            || Times(b.req.First(f.e), c) + |b.ct| <= Times(a.req.First(f.e), c)
  {
    hide Times, Quot, ApplyAll, Inv, Aead.Ideal;
    WritingFacts(f, s, m);
    WritingFacts(f, s, o);
    var a, b := s.WriterOf(m).req, s.WriterOf(o).req;
    if a.First(f.e) <= b.First(f.e) {
      if b.First(f.e) <= a.Last(f.e) {
        OneHolder(f, s, m, o, b.First(f.e));
      }
      TimesMono(a.Last(f.e), b.First(f.e), f.e.CipherBS());
    } else {
      if a.First(f.e) <= b.Last(f.e) {
        OneHolder(f, s, m, o, a.First(f.e));
      }
      TimesMono(b.Last(f.e), a.First(f.e), f.e.CipherBS());
    }
  }

  lemma PieceElsewhere(body: Bytes, at: nat, piece: Bytes, lo: nat, hi: nat)
    requires at + |piece| <= |body| && lo <= hi <= |body| && (at + |piece| <= lo || hi <= at)
    ensures Splice(body, at, piece)[lo..hi] == body[lo..hi]
  {
  }

  lemma PieceAppended(body: Bytes, at: nat, ct: Bytes, done: nat, n: nat)
    requires done + n <= |ct| && at + |ct| <= |body| && body[at..at + done] == ct[..done]
    ensures Splice(body, at + done, ct[done..done + n])[at..at + done + n] == ct[..done + n]
  {
    var body' := Splice(body, at + done, ct[done..done + n]);
    forall i | 0 <= i < done + n ensures body'[at + i] == ct[i] {
      if i < done {
        assert body[at..at + done][i] == ct[..done][i];
      }
    }
  }

  lemma WriteKeepsWriters(f: File, s: State, a: Action, s': State, m: MountId)
    requires f.e.plainBS > 0 && Inv(f, s) && a.WriteSome? && Next(f, s, a, s')
    ensures WriterOK(f, s', ApplyAll(f.initial, s.log), m)
  {
    hide Times, Quot, ApplyAll, Splice, Aead.Ideal, Inv, WriterOK;
    WritersOK(f, s, m);
    if m == a.m {
      OwnPiece(f, s, s', ApplyAll(f.initial, s.log), m, a.n);
    } else {
      if s.WriterOf(m).Writing? {
        PieceOfOther(f, s, a, m);
      }
      OtherPiece(f, s, s', ApplyAll(f.initial, s.log), m);
    }
  }

  /** A mount that writes the next piece of its ciphertext has written so much more of it. */
  lemma OwnPiece(f: File, s: State, s': State, p: Bytes, m: MountId, n: nat)
    requires f.e.plainBS > 0 && WriterOK(f, s, p, m) && s.WriterOf(m).Writing?
    requires var w := s.WriterOf(m);
             && w.done + n <= |w.ct| && s'.WriterOf(m) == w.(done := w.done + n) && s'.locks == s.locks
             && s'.body == Splice(s.body, Times(w.req.First(f.e), f.e.CipherBS()) + w.done, w.ct[w.done..w.done + n])
    ensures WriterOK(f, s', p, m)
  {
    hide Times, Quot, SealsBlocks, LockRange, Splice, Chunk;
    var w := s.WriterOf(m);
    PieceAppended(s.body, Times(w.req.First(f.e), f.e.CipherBS()), w.ct, w.done, n);
  }

  lemma OtherPiece(f: File, s: State, s': State, p: Bytes, m: MountId)
    requires f.e.plainBS > 0 && WriterOK(f, s, p, m) && s'.WriterOf(m) == s.WriterOf(m) && s'.locks == s.locks
    requires var w := s.WriterOf(m);
             w.Writing? ==>
               && |s'.body| == |s.body|
               && var lo := Times(w.req.First(f.e), f.e.CipherBS());
                  lo + w.done <= |s.body| && s'.body[lo..lo + w.done] == s.body[lo..lo + w.done]
    ensures WriterOK(f, s', p, m)
  {
    hide Times, Quot, SealsBlocks, LockRange, Splice, Chunk;
  }

  lemma WritersOK(f: File, s: State, m: MountId)
    requires f.e.plainBS > 0 && Inv(f, s)
    ensures WriterOK(f, s, ApplyAll(f.initial, s.log), m)
  {
    hide WriterOK, ApplyAll, Settled;
  }

  /** What one mount has written so far is not touched by a write of another. */
  lemma PieceOfOther(f: File, s: State, a: Action, m: MountId)
    requires f.e.plainBS > 0 && Inv(f, s) && a.WriteSome? && s.WriterOf(a.m).Writing?
    requires s.WriterOf(a.m).done + a.n <= |s.WriterOf(a.m).ct| && m != a.m && s.WriterOf(m).Writing?
    ensures var w, o, c := s.WriterOf(a.m), s.WriterOf(m), f.e.CipherBS();
            var at, lo := Times(w.req.First(f.e), c) + w.done, Times(o.req.First(f.e), c);
            var body' := Splice(s.body, at, w.ct[w.done..w.done + a.n]);
            |body'| == |s.body| && lo + o.done <= |s.body| && body'[lo..lo + o.done] == s.body[lo..lo + o.done]
  {
    hide Times, Quot, Inv, Splice, Aead.Ideal;
    WritingFacts(f, s, a.m);
    WritingFacts(f, s, m);
    WritesApart(f, s, a.m, m);
    var w, o, c := s.WriterOf(a.m), s.WriterOf(m), f.e.CipherBS();
    var at, lo := Times(w.req.First(f.e), c) + w.done, Times(o.req.First(f.e), c);
    PieceElsewhere(s.body, at, w.ct[w.done..w.done + a.n], lo, lo + o.done);
  }

  lemma WriteKeepsInv(f: File, s: State, a: Action, s': State)
    requires f.e.plainBS > 0 && Inv(f, s) && a.WriteSome? && Next(f, s, a, s')
    ensures Inv(f, s')
  {
    hide Times, Quot, SealsBlocks, ApplyAll, LockRange, Splice, Chunk, Aead.Ideal, WriterOK;
    var p, w := ApplyAll(f.initial, s.log), s.WriterOf(a.m);
    WritingFacts(f, s, a.m);
    var at := Times(w.req.First(f.e), f.e.CipherBS());
    forall m: MountId ensures WriterOK(f, s', p, m) {
      WriteKeepsWriters(f, s, a, s', m);
    }
    forall j: nat | j < f.e.NumBlocks(|p|) ensures Settled(f, s', p, j) {
      assert Settled(f, s, p, j);
      if Holds(f.e, w, j) {
        assert Holds(f.e, s'.WriterOf(a.m), j);
      } else if Stored(f, s.body, p, j) {
        PieceInBlocks(f.e, s.body, w.req.First(f.e), w.req.Last(f.e), at + w.done, w.ct[w.done..w.done + a.n], j);
      } else {
        var m: MountId :| s.Mid(m) && Holds(f.e, s.WriterOf(m), j);
        assert s'.WriterOf(m) == s.WriterOf(m);
      }
    }
  }

  /** A write inside the file does not change the blocks it does not touch. */
  lemma UntouchedBlock(e: Enc, p: Bytes, req: Request, k: nat)
    requires e.plainBS > 0 && req.data != [] && req.off + |req.data| <= |p| && !(req.First(e) <= k <= req.Last(e))
    ensures Chunk(Splice(p, req.off, req.data), e.plainBS, k) == Chunk(p, e.plainBS, k)
  {
    hide Times, Quot;
    RangeBlocks(e, req.off, |req.data|);
    var lo := Times(k, e.plainBS);
    if k < req.First(e) {
      TimesMono(k, req.First(e), e.plainBS);
      SliceBefore(p, req.off, req.data, lo, lo + e.plainBS);
    } else {
      TimesMono(req.Last(e), k, e.plainBS);
      SliceAfter(p, req.off, req.data, lo, lo + e.plainBS);
    }
  }

  /** Writes to different blocks commute, as far as the blocks of the second are concerned. */
  lemma WriteElsewhere(e: Enc, p: Bytes, first: Request, second: Request, k: nat)
    requires e.plainBS > 0 && first.data != [] && second.data != [] && first.off + |first.data| <= |p|
    requires !(first.First(e) <= k <= first.Last(e)) && second.First(e) <= k <= second.Last(e)
    ensures Chunk(Splice(Splice(p, first.off, first.data), second.off, second.data), e.plainBS, k)
         == Chunk(Splice(p, second.off, second.data), e.plainBS, k)
  {
    hide Times, Quot, Splice, Chunk, Request.Skip, Request.Part;
    UntouchedBlock(e, p, first, k);
    MergedPart(e, p, second, k);
    MergedPart(e, Splice(p, first.off, first.data), second, k);
  }

  /** Once all of the ciphertext is on disk, the blocks of the request store their new content. */
  lemma FinishedBlock(f: File, s: State, m: MountId, k: nat)
    requires f.e.plainBS > 0 && Inv(f, s) && Holds(f.e, s.WriterOf(m), k)
    requires s.WriterOf(m).Writing? && s.WriterOf(m).done == |s.WriterOf(m).ct|
    ensures var req := s.WriterOf(m).req;
            Stored(f, s.body, Splice(ApplyAll(f.initial, s.log), req.off, req.data), k)
  {
    hide Times, Quot, ApplyAll, LockRange, Chunk, Aead.Ideal;
    var p, w, e := ApplyAll(f.initial, s.log), s.WriterOf(m), f.e;
    assert WriterOK(f, s, p, m);
    var first, last := w.req.First(e), w.req.Last(e);
    var at := Times(first, e.CipherBS());
    assert s.body == Splice(s.body, at, w.ct) by {
      forall i | 0 <= i < |s.body| ensures s.body[i] == Splice(s.body, at, w.ct)[i] {
        if at <= i < at + |w.ct| {
          assert s.body[at..at + |w.ct|][i - at] == w.ct[i - at];
        }
      }
    }
    RangeBlocks(e, w.req.off, |w.req.data|);
    WrittenEnd(e, p, w.req.off, w.req.data, first, last, w.ct);
    WrittenReach(e, |p|, w.req.off + |w.req.data|, last, at + |w.ct|, k);
    WrittenChunk(s.body, e.CipherBS(), first, w.ct, k);
  }

  /** A write that another mount is preparing or carrying out stays good when this one takes effect. */
  lemma OthersStillOK(f: File, s: State, m: MountId, o: MountId)
    requires f.e.plainBS > 0 && Inv(f, s) && m != o && s.WriterOf(m).Writing?
    ensures var p, req := ApplyAll(f.initial, s.log), s.WriterOf(m).req;
            WriterOK(f, s, Splice(p, req.off, req.data), o)
  {
    hide Times, Quot, ApplyAll, LockRange, Chunk, Aead.Ideal, Request.First, Request.Last;
    var p, req, w := ApplyAll(f.initial, s.log), s.WriterOf(m).req, s.WriterOf(o);
    assert WriterOK(f, s, p, m) && WriterOK(f, s, p, o);
    if w.Reading? || w.Writing? {
      forall k: nat | w.req.First(f.e) <= k <= w.req.Last(f.e)
        ensures Chunk(Splice(Splice(p, req.off, req.data), w.req.off, w.req.data), f.e.plainBS, k)
             == Chunk(Splice(p, w.req.off, w.req.data), f.e.plainBS, k)
      {
        if req.First(f.e) <= k <= req.Last(f.e) {
          OneHolder(f, s, m, o, k);
        }
        WriteElsewhere(f.e, p, req, w.req, k);
      }
    }
  }

  lemma UnlockKeepsInv(f: File, s: State, a: Action, s': State)
    requires f.e.plainBS > 0 && Inv(f, s) && a.Unlock? && Next(f, s, a, s')
    ensures Inv(f, s')
  {
    hide Times, Quot, SealsBlocks, LockRange, Chunk, Aead.Ideal;
    var p, w := ApplyAll(f.initial, s.log), s.WriterOf(a.m);
    assert s'.log[..|s.log|] == s.log;
    var p' := ApplyAll(f.initial, s'.log);
    assert p' == Splice(p, w.req.off, w.req.data);
    assert WriterOK(f, s, p, a.m);
    forall m: MountId ensures WriterOK(f, s', p', m) {
      if m != a.m {
        OthersStillOK(f, s, a.m, m);
        assert s'.WriterOf(m) == s.WriterOf(m);
      }
    }
    forall j: nat | j < f.e.NumBlocks(|p'|) ensures Settled(f, s', p', j) {
      assert Settled(f, s, p, j);
      if Holds(f.e, w, j) {
        FinishedBlock(f, s, a.m, j);
      } else if Stored(f, s.body, p, j) {
        UntouchedBlock(f.e, p, w.req, j);
      } else {
        var m: MountId :| s.Mid(m) && Holds(f.e, s.WriterOf(m), j);
        assert s'.WriterOf(m) == s.WriterOf(m);
      }
    }
  }

  /** A mount that has written nothing may give up. */
  lemma GiveUpKeepsInv(f: File, s: State, a: Action, s': State)
    requires f.e.plainBS > 0 && Inv(f, s) && a.GiveUp? && Next(f, s, a, s')
    ensures Inv(f, s')
  {
    hide Times, Quot, SealsBlocks, ApplyAll, LockRange, Splice, Chunk, Aead.Ideal;
    var p := ApplyAll(f.initial, s.log);
    forall m: MountId ensures WriterOK(f, s', p, m) {
      assert WriterOK(f, s, p, m);
    }
    forall j: nat | j < f.e.NumBlocks(|p|) ensures Settled(f, s', p, j) {
      assert Settled(f, s, p, j);
      if !Stored(f, s.body, p, j) {
        var m: MountId :| s.Mid(m) && Holds(f.e, s.WriterOf(m), j);
        assert s'.WriterOf(m) == s.WriterOf(m);
      }
    }
  }

  // --- whole runs ---------------------------------------------------------------------------

  ghost predicate IsRun(f: File, states: seq<State>, actions: seq<Action>)
    requires f.e.plainBS > 0
  {
    && |states| == |actions| + 1
    && forall i :: 0 <= i < |actions| ==> Next(f, states[i], actions[i], states[i + 1])
  }

  /** All mounts idle, nothing locked, and the body stores the initial plaintext. */
  ghost predicate Initial(f: File, s: State)
    requires f.e.plainBS > 0
  {
    s.locks == map[] && s.writers == map[] && s.log == [] && f.e.Encodes(s.body, f.id, f.initial)
  }

  lemma StepKeepsInv(f: File, s: State, a: Action, s': State)
    requires f.e.plainBS > 0 && Inv(f, s) && Next(f, s, a, s')
    ensures Inv(f, s')
  {
    hide Inv, Next;
    match a {
      case Lock(_, _) => LockKeepsInv(f, s, a, s');
      case ReadBlock(_) => ReadKeepsInv(f, s, a, s');
      case Seal(_, _) => SealKeepsInv(f, s, a, s');
      case WriteSome(_, _) => WriteKeepsInv(f, s, a, s');
      case Unlock(_) => UnlockKeepsInv(f, s, a, s');
      case GiveUp(_) => GiveUpKeepsInv(f, s, a, s');
    }
  }

  lemma {:induction false} RunKeepsInv(f: File, states: seq<State>, actions: seq<Action>, i: nat)
    requires f.e.Valid() && IsRun(f, states, actions) && Initial(f, states[0]) && i < |states|
    ensures Inv(f, states[i])
  {
    if i == 0 {
      var s := states[0];
      assert forall m: MountId :: WriterOK(f, s, f.initial, m);
      assert forall k: nat :: k < f.e.NumBlocks(|f.initial|) ==> Settled(f, s, f.initial, k);
    } else {
      RunKeepsInv(f, states, actions, i - 1);
      StepKeepsInv(f, states[i - 1], actions[i - 1], states[i]);
    }
  }

  /** No update is lost: whenever no mount is in the middle of a write, the file holds exactly what the
      finished writes leave behind when they are carried out whole, one after the other; and no mount ever
      finds a block it cannot decrypt. */
  lemma NoLostUpdate(f: File, states: seq<State>, actions: seq<Action>, i: nat)
    requires f.e.Valid() && IsRun(f, states, actions) && Initial(f, states[0]) && i < |states|
    ensures forall m: MountId :: !states[i].WriterOf(m).Failed?
    ensures (forall m: MountId :: !states[i].Mid(m)) ==>
              f.e.Encodes(states[i].body, f.id, ApplyAll(f.initial, states[i].log))
  {
    var s := states[i];
    RunKeepsInv(f, states, actions, i);
    var p := ApplyAll(f.initial, s.log);
    forall m: MountId ensures !s.WriterOf(m).Failed? { assert WriterOK(f, s, p, m); }
    if forall m: MountId :: !s.Mid(m) {
      forall k: nat | k < f.e.NumBlocks(|p|)
        ensures f.e.DecryptBlock(Chunk(s.body, f.e.CipherBS(), k), k, f.id) == Some(Chunk(p, f.e.plainBS, k))
      {
        assert Settled(f, s, p, k);
      }
    }
  }
}
