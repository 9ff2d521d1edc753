/** One open handle of the forward-mode file system (internal/fusefrontend: file.go,
    file_allocate_truncate.go, file_holes.go). The backing file holds ciphertext; every operation is
    proved to change the plaintext it stands for as the same call changes an ordinary sparse file. */
module EncryptedFile {
  import opened SymbolicArith
  import opened ByteSeqs
  import opened ContentEnc
  import opened BlockLayout
  import opened ContentOps
  import opened DiskImage
  import opened OpenFileTable

  /** EDEV stands for whatever errno the backing file system returned, such as ENOSPC. */
  datatype Errno = OK | EIO | EFBIG | EMSGSIZE | EBADF | EOPNOTSUPP | EDEV

  const MaxInt64 := 0x7FFF_FFFF_FFFF_FFFF

  /** A file of the backing file system. Writing, allocation and truncation may be refused, and then
      change nothing; on a reliable device they are not. */
  class BackingFile {
    const reliable: bool
    var bytes: Bytes
    ghost var reserved: set<(nat, nat)> // offset and length of all space reserved so far

    constructor (reliable: bool)
      ensures bytes == [] && this.reliable == reliable
    {
      this.reliable, bytes, reserved := reliable, [], {};
    }

    /** Reads up to `len` bytes; fewer at the end of the file. */
    function ReadAt(off: nat, len: nat): Bytes
      reads this
    {
      Slice(bytes, off, off + len)
    }

    method WriteAt(data: Bytes, off: nat) returns (ok: bool)
      modifies this`bytes
      ensures reliable ==> ok
      ensures bytes == if ok then Splice(old(bytes), off, data) else old(bytes)
    {
      ok := *;
      ok := ok || reliable;
      if ok {
        bytes := Splice(bytes, off, data);
      }
    }

    method Ftruncate(n: nat) returns (ok: bool)
      modifies this`bytes
      ensures reliable ==> ok
      ensures bytes == if ok then Resize(old(bytes), n) else old(bytes)
    {
      ok := *;
      ok := ok || reliable;
      if ok {
        bytes := Resize(bytes, n);
      }
    }

    /** fallocate(2) with FALLOC_FL_KEEP_SIZE: reserves space, leaves contents and size alone. */
    method Fallocate(off: nat, len: nat) returns (ok: bool)
      modifies this`reserved
      ensures reliable ==> ok
      ensures reserved == if ok then old(reserved) + {(off, len)} else old(reserved)
    {
      ok := *;
      ok := ok || reliable;
      if ok {
        reserved := reserved + {(off, len)};
      }
    }
  }

  datatype FileID = Corrupt | Empty | Found(id: Bytes)

  /** The plaintext padded with zeros to the next block boundary. */
  function Padded(e: Enc, p: Bytes): Bytes
    requires e.plainBS > 0
  {
    Resize(p, Times(e.NumBlocks(|p|), e.plainBS))
  }

  class File {
    const e: Enc
    const fd: BackingFile
    const qIno: nat
    const entry: Entry
    const table: Table
    const prealloc: bool // neither -noprealloc nor a file system on which fallocate is broken
    const numCPU: nat
    var lastWrittenOffset: nat
    var lastOpCount: nat
    var released: bool

    constructor (e: Enc, fd: BackingFile, qIno: nat, entry: Entry, table: Table, prealloc: bool, numCPU: nat)
      ensures this.e == e && this.fd == fd && this.qIno == qIno && this.entry == entry && this.table == table
      ensures this.prealloc == prealloc && this.numCPU == numCPU
      ensures lastWrittenOffset == 0 && lastOpCount == 0 && !released
    {
      this.e, this.fd, this.qIno, this.entry, this.table := e, fd, qIno, entry, table;
      this.prealloc, this.numCPU := prealloc, numCPU;
      lastWrittenOffset, lastOpCount, released := 0, 0, false;
    }

    ghost function Plain(): Bytes
      requires e.plainBS > 0
      reads fd
    {
      Content(e, fd.bytes)
    }

    /** The layout invariant, and a cached file ID is the one on disk. */
    ghost predicate Inv()
      reads fd, entry
    {
      && e.Valid()
      && WellFormed(e, fd.bytes)
      && (entry.id.Some? ==> HeaderOf(fd.bytes) == entry.id)
    }

    // --- header --------------------------------------------------------------------

    /** A file with no more than a header counts as empty. */
    function ReadFileID(): FileID
      reads fd
    {
      if |fd.ReadAt(0, HeaderLen + 1)| < HeaderLen + 1 then Empty
      else match ParseHeader(fd.bytes[..HeaderLen])
           case None => Corrupt
           case Some(id) => Found(id)
    }

    method CreateHeader() returns (id: Option<Bytes>)
      modifies fd
      ensures old(fd.reserved) <= fd.reserved
      ensures id.None? ==> fd.bytes == old(fd.bytes)
      ensures id.Some? ==> ValidID(id.value) && fd.bytes == Splice(old(fd.bytes), 0, Pack(id.value))
      ensures fd.reliable ==> id.Some?
    {
      ghost var one := seq(HeaderIDLen, _ => 1);
      assert one[0] != Zeros(HeaderIDLen)[0];
      var newID: Bytes :| |newID| == HeaderIDLen && newID != Zeros(HeaderIDLen); // random; zero is taken never to occur
      if prealloc {
        var ok := fd.Fallocate(0, HeaderLen);
        if !ok {
          return None;
        }
      }
      assert prealloc ==> (0, 18) in fd.reserved;
      var ok := fd.WriteAt(Pack(newID), 0);
      return if ok then Some(newID) else None;
    }

    // --- reading --------------------------------------------------------------------

    method DoRead(off: nat, length: nat) returns (out: Bytes, errno: Errno)
      requires Inv() && 0 < length <= e.maxKernelWrite
      modifies (if entry.id.None? then {entry} else {})`id
      ensures Inv()
      ensures old(entry.id).Some? ==> entry.id == old(entry.id)
      ensures errno == OK ==> out == Slice(Plain(), off, off + length)
      ensures var far := e.BlockNoToCipherOff(Quot(off, e.plainBS)) > MaxInt64;
              errno == if far && (old(entry.id).Some? || Plain() != []) then EFBIG else OK
      ensures errno == OK && Plain() != [] ==> entry.id.Some?
    {
      EmptyContent(e, fd.bytes);
      var fileID;
      if entry.id.Some? {
        fileID := entry.id.value;
      } else {
        match ReadFileID() {
          case Empty => return [], OK;
          case Corrupt => return [], EIO;
          case Found(id) =>
            fileID := id;
            entry.id := Some(id);
        }
      }
      out, errno := ReadBlocks(fileID, off, length);
    }

    /** The second half of doRead: fetch the ciphertext blocks in one go, decrypt, crop. */
    method ReadBlocks(fileID: Bytes, off: nat, length: nat) returns (out: Bytes, errno: Errno)
      requires Inv() && HeaderOf(fd.bytes) == Some(fileID) && 0 < length <= e.maxKernelWrite
      ensures errno == OK ==> out == Slice(Plain(), off, off + length)
      ensures errno == if e.BlockNoToCipherOff(Quot(off, e.plainBS)) > MaxInt64 then EFBIG else OK
    {
      hide Content, WellFormed, Times, Quot, Tiles, Enc.DecryptAll, Enc.DecryptBlock, Aead.Ideal, HeaderOf;
      var blocks := ExplodePlainRange(e, off, length);
      RequestRange(e, off, length, blocks);
      ReadAndCrop(e, fd.bytes, fileID, blocks[0].blockNo, blocks[|blocks| - 1].blockNo + 1, off, length);
      var (alignedOffset, alignedLength) := JointCiphertextRange(e, blocks);
      if alignedOffset > MaxInt64 {
        return [], EFBIG;
      }
      assert alignedLength <= CReqSize(e); // the pooled buffer is long enough
      var ciphertext := fd.ReadAt(alignedOffset, alignedLength);
      if |ciphertext| == 0 {
        NothingDecrypted(e, blocks[0].blockNo, fileID);
        return [], OK;
      }
      var plaintext, cap := DecryptBlocks(e, ciphertext, blocks[0].blockNo, fileID);
      if plaintext.None? {
        return [], EIO;
      }
      assert cap == PReqSize(e); // the plaintext buffer did not grow, so the pool takes it back
      return Crop(plaintext.value, blocks[0].skip, length), OK;
    }

    // --- writing --------------------------------------------------------------------

    /** Reads the file ID, or creates a header if the file is empty. */
    method EnsureFileID() returns (fileWasEmpty: bool, errno: Errno)
      requires Inv() && entry.id.None?
      modifies fd, entry`id
      ensures old(fd.reserved) <= fd.reserved
      ensures Inv() && Plain() == old(Plain())
      ensures errno == OK || errno == EDEV
      ensures errno == OK ==> entry.id.Some?
      ensures fileWasEmpty <==> Plain() == []
      ensures fd.reliable ==> errno != EDEV
    {
      EmptyContent(e, fd.bytes);
      match ReadFileID() {
        case Corrupt => return false, EIO;
        case Found(id) =>
          entry.id := Some(id);
          return false, OK;
        case Empty =>
          ghost var before := fd.bytes;
          var id := CreateHeader();
          if id.None? {
            return true, EDEV;
          }
          FreshHeader(e, before, id.value);
          entry.id := id;
          return true, OK;
      }
    }

    /** The new content of one block: a partial block is read from disk and the data merged into it. */
    method NewBlock(b: IntraBlock, blockData: Bytes) returns (block: Bytes, errno: Errno)
      requires Inv() && entry.id.Some? && |blockData| == b.length && b.skip + b.length <= e.plainBS
      ensures errno == OK ==> block == Splice(Chunk(Plain(), e.plainBS, b.blockNo), b.skip, blockData)
      ensures errno == if FarPart(e, b) then EFBIG else OK
    {
      hide Content, WellFormed, Times, Quot;
      e.BlockFitsRequest();
      if b.skip > 0 || b.length < e.plainBS {
        QuotUnique(Times(b.blockNo, e.plainBS), e.plainBS, b.blockNo);
        var oldData;
        oldData, errno := DoRead(Times(b.blockNo, e.plainBS), e.plainBS);
        if errno != OK {
          return [], errno;
        }
        block := MergeBlocks(e, oldData, blockData, b.skip);
      } else {
        block, errno := blockData, OK;
      }
    }

    /** The block loop of doWrite: the new content of every block the write touches. */
    method CollectBlocks(data: Bytes, off: nat, blocks: seq<IntraBlock>) returns (toEncrypt: seq<Bytes>, errno: Errno)
      requires Inv() && entry.id.Some? && Tiles(e.plainBS, off, |data|, blocks)
      ensures errno == OK ==>
                |toEncrypt| == |blocks| && forall i :: 0 <= i < |blocks| ==>
                  toEncrypt[i] == Chunk(Splice(Plain(), off, data), e.plainBS, blocks[i].blockNo)
      ensures errno == if (exists i :: 0 <= i < |blocks| && FarPart(e, blocks[i])) then EFBIG else OK
    {
      hide Content, WellFormed, Times, Splice, Slice, FarPart;
      toEncrypt, errno := [], OK;
      ghost var p := Plain();
      var pos: nat := 0;
      for i := 0 to |blocks|
        invariant |toEncrypt| == i && errno == OK
        invariant forall j :: 0 <= j < i ==> !FarPart(e, blocks[j])
        invariant i < |blocks| ==> off + pos == Times(blocks[i].blockNo, e.plainBS) + blocks[i].skip
        invariant forall j :: 0 <= j < i ==> toEncrypt[j] == Chunk(Splice(p, off, data), e.plainBS, blocks[j].blockNo)
      {
        MergedTile(e, p, off, data, blocks, i, pos);
        var block;
        block, errno := NewBlock(blocks[i], data[pos..pos + blocks[i].length]);
        if errno != OK {
          return;
        }
        assert block == Chunk(Splice(p, off, data), e.plainBS, blocks[i].blockNo);
        pos := pos + blocks[i].length;
        toEncrypt := toEncrypt + [block];
      }
    }

    /** Splits a write into blocks first..last and collects their new content. */
    method PlanWrite(data: Bytes, off: nat) returns (parts: seq<Bytes>, first: nat, last: nat, errno: Errno)
      requires Inv() && entry.id.Some? && 0 < |data| <= e.maxKernelWrite
      ensures first <= last && Covers(e, off, |data|, first, last) && last == Quot(off + |data| - 1, e.plainBS)
      ensures e.BlockNoToCipherOff(first) <= e.BlockNoToCipherOff(last)
      ensures errno == OK ==> NewBlocks(e, Splice(Plain(), off, data), first, last, parts)
      ensures errno == OK ==> Times(|parts|, e.CipherBS()) <= CReqSize(e)
      ensures errno == OK || errno == EFBIG
      ensures TooFar(e, off, |data|) <==> errno == EFBIG || e.BlockNoToCipherOff(first) > MaxInt64
    {
      hide Content, WellFormed, Times, Quot, Splice, Slice, NewBlocks, TooFar;
      var blocks := ExplodePlainRange(e, off, |data|);
      FarTiles(e, off, |data|, blocks);
      LastTile(e, off, |data|, blocks);
      RequestFitsBuffers(e, off, |data|, blocks);
      first, last := blocks[0].blockNo, blocks[|blocks| - 1].blockNo;
      parts, errno := CollectBlocks(data, off, blocks);
      if errno == OK {
        CollectedBlocks(e, Plain(), off, data, blocks, parts);
      }
    }

    /** The ciphertext of a write: the new content of the touched blocks, sealed. */
    method SealWrite(data: Bytes, off: nat) returns (ciphertext: Bytes, cap: nat, first: nat, last: nat, errno: Errno)
      requires Inv() && entry.id.Some? && 0 < |data| <= e.maxKernelWrite
      ensures first <= last && Covers(e, off, |data|, first, last) && last == Quot(off + |data| - 1, e.plainBS)
      ensures e.BlockNoToCipherOff(first) <= e.BlockNoToCipherOff(last)
      ensures errno == OK ==> SealsBlocks(e, ciphertext, entry.id.value, Splice(Plain(), off, data), first, last)
      ensures errno == OK ==> |ciphertext| <= CReqSize(e) == cap
      ensures errno == OK || errno == EFBIG
      ensures TooFar(e, off, |data|) <==> errno == EFBIG || e.BlockNoToCipherOff(first) > MaxInt64
    {
      hide Content, WellFormed, Times, Quot, Splice, Covers, Enc.DecryptBlock, Aead.Ideal, TooFar;
      var parts;
      parts, first, last, errno := PlanWrite(data, off);
      if errno != OK {
        return [], 0, first, last, errno;
      }
      ciphertext, cap := EncryptBlocks(e, parts, first, entry.id.value, numCPU);
      SealedParts(e, ciphertext, entry.id.value, Splice(Plain(), off, data), first, last, parts);
      SealedLength(e, parts);
    }

    method DoWrite(data: Bytes, off: nat) returns (n: nat, errno: Errno)
      requires Inv() && 0 < |data| <= e.maxKernelWrite && NoPadNeeded(e, |Plain()|, off)
      modifies fd, entry`id
      ensures old(fd.reserved) <= fd.reserved
      ensures Inv()
      ensures errno == OK ==> n == |data| && Plain() == Splice(old(Plain()), off, data)
      ensures errno != OK ==> n == 0 && Plain() == old(Plain()) && Refused(e, errno, off + |data|)
      ensures errno == OK || errno == EFBIG ==> (errno == EFBIG <==> TooFar(e, off, |data|))
      ensures fd.reliable ==> errno != EDEV
    {
      hide Content, WellFormed, NoPadNeeded, Covers, SealsBlocks, Times, Quot, TooFar;
      FarIsRefused(e, off, |data|);
      var fileWasEmpty := false;
      if entry.id.None? {
        fileWasEmpty, errno := EnsureFileID();
        if errno != OK {
          return 0, errno;
        }
      }
      var ciphertext, cap, first, last;
      ciphertext, cap, first, last, errno := SealWrite(data, off);
      if errno != OK {
        return 0, errno;
      }
      var cOff := e.BlockNoToCipherOff(first);
      if cOff > MaxInt64 {
        return 0, EFBIG;
      }
      if prealloc {
        var ok := fd.Fallocate(cOff, |ciphertext|);
        if !ok {
          if fileWasEmpty { // kill the header again
            EmptyDisk(e);
            entry.id := None;
            var _ := fd.Ftruncate(0);
          }
          return 0, EDEV;
        }
      }
      WriteDisk(e, fd.bytes, entry.id.value, off, data, first, last, ciphertext);
      assert prealloc ==> (cOff, |ciphertext|) in fd.reserved; // no write of blocks runs out of space half-way
      var ok := fd.WriteAt(ciphertext, cOff);
      assert cap == CReqSize(e); // the ciphertext buffer did not grow, so the pool takes it back
      if !ok {
        return 0, EDEV;
      }
      return |data|, OK;
    }

    // --- holes ----------------------------------------------------------------------

    /** Pads the last block with zeros. Does nothing if it is full. */
    method ZeroPad(plainSize: nat) returns (errno: Errno)
      requires Inv() && plainSize == |Plain()|
      modifies fd, entry`id
      ensures old(fd.reserved) <= fd.reserved
      ensures Inv()
      ensures errno == OK ==> Plain() == Padded(e, old(Plain())) && Rem(|Plain()|, e.plainBS) == 0
      ensures errno != OK ==> Plain() == old(Plain()) && Rem(|Plain()|, e.plainBS) > 0 && Refused(e, errno, |Padded(e, Plain())|)
      ensures fd.reliable ==> errno != EDEV
    {
      hide Content, WellFormed, Times, Quot;
      e.BlockFitsRequest();
      PaddedFacts(e, Plain());
      var lastBlockLen := Rem(plainSize, e.plainBS);
      if lastBlockLen == 0 {
        return OK;
      }
      var missing := e.plainBS - lastBlockLen;
      ghost var p := Plain();
      var n;
      n, errno := DoWrite(Zeros(missing), plainSize);
      assert Splice(p, |p|, Zeros(missing)) == Padded(e, p);
    }

    /** Pads the last block if a write at `targetOff` would leave a gap behind it. */
    method WritePadHole(targetOff: nat) returns (errno: Errno)
      requires Inv()
      modifies fd, entry`id
      ensures Inv()
      ensures errno == OK ==> NoPadNeeded(e, |Plain()|, targetOff)
      ensures errno == OK ==> Plain() == if NoPadNeeded(e, |old(Plain())|, targetOff) then old(Plain()) else Padded(e, old(Plain()))
      ensures errno != OK ==> Plain() == old(Plain()) && !NoPadNeeded(e, |Plain()|, targetOff)
                              && Refused(e, errno, |Padded(e, Plain())|)
      ensures fd.reliable ==> errno != EDEV
    {
      ReportedSize(e, fd.bytes);
      PaddedFacts(e, Plain());
      var plainSize := e.CipherSizeToPlainSize(|fd.bytes|);
      var nextBlock := e.PlainOffToBlockNo(plainSize);
      var targetBlock := e.PlainOffToBlockNo(targetOff);
      if targetBlock <= nextBlock {
        return OK;
      }
      errno := ZeroPad(plainSize);
    }

    // --- entry points: read and write -----------------------------------------------

    method Read(off: nat, length: nat) returns (out: Bytes, errno: Errno)
      requires Inv() && length > 0
      modifies (if entry.id.None? then {entry} else {})`id
      ensures Inv()
      ensures ReadOutcome(e, Plain(), off, length, out, errno) && errno != EIO && errno != EDEV
      ensures errno == EFBIG <==> length <= e.maxKernelWrite && e.BlockNoToCipherOff(Quot(off, e.plainBS)) > MaxInt64
                                  && (old(entry.id).Some? || Plain() != [])
    {
      if length > e.maxKernelWrite {
        return [], EMSGSIZE;
      }
      out, errno := DoRead(off, length);
    }

    /** What the handle remembers of its last write is true as long as no lock was taken since. */
    ghost predicate TracksEnd()
      requires e.plainBS > 0
      reads this, fd, table
    {
      && lastOpCount <= table.writeOpCount
      && (lastOpCount == 0 ==> lastWrittenOffset == 0)
      && (0 < lastOpCount == table.writeOpCount ==> lastWrittenOffset < |Plain()|)
    }

    predicate IsConsecutiveWrite(off: nat)
      reads this, table
    {
      table.writeOpCount == lastOpCount + 1 && off == lastWrittenOffset + 1
    }

    /** First step of Write, under the lock: pad the last block unless this is a streaming write. */
    method PadForWrite(off: nat) returns (errno: Errno)
      requires Inv()
      requires lastOpCount == 0 ==> lastWrittenOffset == 0
      requires 0 < lastOpCount && lastOpCount + 1 == table.writeOpCount ==> lastWrittenOffset < |Plain()|
      modifies fd, entry`id
      ensures Inv()
      ensures errno == OK ==> NoPadNeeded(e, |Plain()|, off)
      ensures errno == OK ==> Plain() == if NoPadNeeded(e, |old(Plain())|, off) then old(Plain()) else Padded(e, old(Plain()))
      ensures errno != OK ==> Plain() == old(Plain()) && !NoPadNeeded(e, |Plain()|, off)
                              && Refused(e, errno, |Padded(e, Plain())|)
      ensures fd.reliable ==> errno != EDEV
    {
      if !IsConsecutiveWrite(off) {
        errno := WritePadHole(off);
      } else {
        ConsecutiveWriteNeedsNoPadding(e, |Plain()|, lastOpCount, lastWrittenOffset);
        errno := OK;
      }
    }

    method Write(data: Bytes, off: nat) returns (n: nat, errno: Errno)
      requires e.Valid() && data != [] && (!released ==> Inv() && TracksEnd())
      modifies this`lastOpCount, this`lastWrittenOffset, fd, entry`id, table`writeOpCount
      ensures !released ==> Inv() && TracksEnd()
      ensures released ==> fd.bytes == old(fd.bytes) && entry.id == old(entry.id)
      ensures WriteOutcome(e, old(Plain()), data, off, errno, Plain())
      ensures n == if errno == OK then |data| else 0
      ensures errno == EMSGSIZE <==> |data| > e.maxKernelWrite
      ensures errno == EBADF <==> released && |data| <= e.maxKernelWrite
      ensures errno == OK || errno == EFBIG ==> (errno == EFBIG <==> TooFar(e, off, |data|))
      ensures Locked(old(table.writeOpCount), table.writeOpCount, errno)
      ensures errno != EIO && (fd.reliable ==> errno != EDEV)
      ensures table.writeOpCount == old(table.writeOpCount) ==> Plain() == old(Plain())
    {
      hide Content, WellFormed, NoPadNeeded, Padded, Times, Quot, TooFar;
      if |data| > e.maxKernelWrite {
        return 0, EMSGSIZE;
      }
      if released {
        return 0, EBADF;
      }
      table.Lock();
      ghost var p := Plain();
      errno := PadForWrite(off);
      if errno != OK {
        PaddedBefore(e, p, off, errno, off + |data|);
        FarPadding(e, p, off, |data|, errno);
        return 0, errno;
      }
      assert Splice(Plain(), off, data) == Splice(p, off, data) by {
        WriteAfterPadding(e, p, data, off);
      }
      n, errno := DoWrite(data, off);
      if errno == OK {
        lastOpCount := table.writeOpCount;
        lastWrittenOffset := off + |data| - 1;
      }
    }

    // --- truncation and allocation ---------------------------------------------------

    /** Gives a file without content a new header. */
    method NewHeader() returns (errno: Errno)
      requires Inv() && Plain() == []
      modifies fd, entry`id
      ensures old(fd.reserved) <= fd.reserved
      ensures Inv() && Plain() == []
      ensures (errno == OK && fd.bytes != []) || errno == EDEV
      ensures fd.reliable ==> errno != EDEV
    {
      EmptyContent(e, fd.bytes);
      ghost var before := fd.bytes;
      var id := CreateHeader();
      if id.None? {
        return EDEV;
      }
      FreshHeader(e, before, id.value);
      entry.id := id;
      return OK;
    }

    /** Sets a block-aligned size past a block-aligned end: the new blocks become holes. */
    method GrowAligned(oldPlainSz: nat, newPlainSz: nat) returns (errno: Errno)
      requires Inv() && |Plain()| < newPlainSz && (oldPlainSz == 0 <==> Plain() == [])
      requires Rem(|Plain()|, e.plainBS) == 0 && Rem(newPlainSz, e.plainBS) == 0
      modifies fd, entry`id
      ensures old(fd.reserved) <= fd.reserved
      ensures Inv()
      ensures errno == OK ==> Plain() == Resize(old(Plain()), newPlainSz)
      ensures errno != OK ==> errno == EDEV && Plain() == old(Plain())
      ensures fd.reliable ==> errno != EDEV
    {
      hide Content, WellFormed, Times, Quot;
      EmptyContent(e, fd.bytes);
      if oldPlainSz == 0 {
        errno := NewHeader();
        if errno != OK {
          return;
        }
      }
      QuotFacts(newPlainSz, e.plainBS);
      GrowDisk(e, fd.bytes, Quot(newPlainSz, e.plainBS));
      var ok := fd.Ftruncate(e.PlainSizeToCipherSize(newPlainSz));
      return if ok then OK else EDEV;
    }

    /** The rest of growing a file whose last block is full. */
    method GrowFromBoundary(oldPlainSz: nat, newPlainSz: nat) returns (errno: Errno)
      requires Inv() && |Plain()| < newPlainSz && (oldPlainSz == 0 <==> Plain() == []) && Rem(|Plain()|, e.plainBS) == 0
      modifies fd, entry`id
      ensures old(fd.reserved) <= fd.reserved
      ensures Inv()
      ensures errno == OK ==> Plain() == Resize(old(Plain()), newPlainSz)
      ensures errno != OK ==> Refused(e, errno, newPlainSz) && Plain() == old(Plain())
      ensures fd.reliable ==> errno != EDEV
    {
      hide Content, WellFormed, Times, Quot, Rem;
      if Rem(newPlainSz, e.plainBS) == 0 {
        errno := GrowAligned(oldPlainSz, newPlainSz);
      } else {
        GrowByByte(Plain(), newPlainSz);
        var n;
        n, errno := DoWrite([0], newPlainSz - 1);
      }
    }

    method TruncateGrowFile(oldPlainSz: nat, newPlainSz: nat) returns (errno: Errno)
      requires Inv() && oldPlainSz == |Plain()| < newPlainSz
      modifies fd, entry`id
      ensures old(fd.reserved) <= fd.reserved
      ensures Inv() && GrowOutcome(e, old(Plain()), newPlainSz, errno, Plain())
      ensures fd.reliable ==> errno != EDEV
    {
      hide Content, WellFormed, Refused, Padded, Times, Quot;
      ghost var p := Plain();
      GrowFacts(e, p, newPlainSz);
      if oldPlainSz > 0 && e.PlainOffToBlockNo(oldPlainSz - 1) == e.PlainOffToBlockNo(newPlainSz - 1) {
        var n;
        n, errno := DoWrite([0], newPlainSz - 1);
        return;
      }
      PaddedFacts(e, p);
      errno := ZeroPad(oldPlainSz);
      if errno != OK {
        RefusedMono(e, errno, |Padded(e, p)|, newPlainSz);
        return;
      }
      errno := GrowFromBoundary(oldPlainSz, newPlainSz);
    }

    /** Cuts the file to its first k blocks and then appends `data`, the rest of the last block. */
    method CutAndAppend(k: nat, data: Bytes) returns (errno: Errno)
      requires Inv() && Plain() != [] && Times(k, e.plainBS) <= |Plain()| && |data| <= e.maxKernelWrite
      modifies fd, entry`id
      ensures Inv()
      ensures errno == OK ==> Plain() == old(Plain())[..Times(k, e.plainBS)] + data
      ensures errno != OK ==> Refused(e, errno, Times(k, e.plainBS) + |data|)
                              && (Plain() == old(Plain()) || Plain() == old(Plain())[..Times(k, e.plainBS)])
      ensures fd.reliable ==> errno != EDEV
    {
      hide Content, WellFormed, Times, Quot;
      EmptyContent(e, fd.bytes);
      CutDisk(e, fd.bytes, k);
      var ok := fd.Ftruncate(e.BlockNoToCipherOff(k));
      if !ok {
        return EDEV;
      }
      if |data| > 0 {
        ghost var p := Plain();
        QuotUnique(|p|, e.plainBS, k);
        var n;
        n, errno := DoWrite(data, Times(k, e.plainBS));
        assert Splice(p, |p|, data) == p + data;
      } else {
        return OK;
      }
    }

    /** Shrinks to a size that is not zero: keep the whole blocks and write the rest of the last one anew. */
    method Shrink(newSize: nat) returns (errno: Errno)
      requires Inv() && 0 < newSize < |Plain()|
      modifies fd, entry`id
      ensures Inv()
      ensures errno == OK ==> Plain() == old(Plain())[..newSize]
      ensures errno != OK ==> Refused(e, errno, newSize)
                              && (Plain() == old(Plain()) || Plain() == WholeBlocks(e, old(Plain()), newSize))
      ensures fd.reliable ==> errno != EDEV
    {
      hide Content, WellFormed, Times, Quot;
      e.BlockFitsRequest();
      QuotFacts(newSize, e.plainBS);
      var blockNo := e.PlainOffToBlockNo(newSize);
      var plainOff := e.BlockNoToPlainOff(blockNo);
      var lastBlockLen := newSize - plainOff;
      var data := [];
      ghost var p := Plain();
      if lastBlockLen > 0 {
        QuotUnique(plainOff, e.plainBS, blockNo);
        QuotUnique(newSize - 1, e.plainBS, blockNo);
        data, errno := DoRead(plainOff, lastBlockLen);
        if errno != OK {
          return;
        }
      }
      assert data == p[plainOff..newSize] && p[..newSize] == p[..plainOff] + data;
      errno := CutAndAppend(blockNo, data);
    }

    method Truncate(newSize: nat) returns (errno: Errno)
      requires Inv()
      modifies fd, entry`id
      ensures Inv() && TruncateOutcome(e, old(Plain()), newSize, errno, Plain())
      ensures fd.reliable ==> errno != EDEV
    {
      if newSize == 0 {
        var ok := fd.Ftruncate(0);
        if !ok {
          return EDEV;
        }
        entry.id := None;
        return OK;
      }
      ReportedSize(e, fd.bytes);
      var oldSize := e.CipherSizeToPlainSize(|fd.bytes|);
      if newSize == oldSize {
        return OK;
      }
      if newSize > oldSize {
        errno := TruncateGrowFile(oldSize, newSize);
      } else {
        errno := Shrink(newSize);
      }
    }

    /** The truncation part of setAttr. */
    method SetSize(newSize: nat) returns (errno: Errno)
      requires e.Valid() && (!released ==> Inv())
      modifies fd, entry`id, table`writeOpCount
      ensures !released ==> Inv()
      ensures released ==> fd.bytes == old(fd.bytes) && entry.id == old(entry.id)
      ensures if released then errno == EBADF && Plain() == old(Plain())
              else TruncateOutcome(e, old(Plain()), newSize, errno, Plain())
      ensures Locked(old(table.writeOpCount), table.writeOpCount, errno)
      ensures errno != EIO && (fd.reliable ==> errno != EDEV)
      ensures table.writeOpCount == old(table.writeOpCount) ==> Plain() == old(Plain())
    {
      if released {
        return EBADF;
      }
      table.Lock();
      errno := Truncate(newSize);
    }

    ghost predicate SpaceFor(off: nat, sz: nat)
      requires e.plainBS > 0 && sz > 0
      reads fd
    {
      exists r :: r in fd.reserved && r.0 == e.BlockNoToCipherOff(Quot(off, e.plainBS)) && r.0 + r.1 == e.PlainSizeToCipherSize(off + sz)
    }

    /** Reserves the ciphertext space of a plaintext range: from its first block to where a file that ends with the
        range would end. */
    method AllocateSpace(off: nat, sz: nat) returns (ok: bool)
      requires e.plainBS > 0 && sz > 0
      modifies fd`reserved
      ensures fd.reliable ==> ok
      ensures old(fd.reserved) <= fd.reserved && (ok ==> SpaceFor(off, sz))
    {
      var blocks := ExplodePlainRange(e, off, sz);
      var firstBlock, lastBlock := blocks[0], blocks[|blocks| - 1];
      TimesMono(firstBlock.blockNo, lastBlock.blockNo, e.CipherBS());
      var cipherOff := e.BlockNoToCipherOff(firstBlock.blockNo);
      var cipherSz := e.BlockNoToCipherOff(lastBlock.blockNo) - cipherOff + e.BlockOverhead() + lastBlock.skip + lastBlock.length;
      TileEnd(e, off, sz, blocks);
      ok := fd.Fallocate(cipherOff, cipherSz);
    }

    /** fallocate(2): mode 0 also sets the size; other modes than 0 and keep-size are not supported. */
    method Allocate(off: nat, sz: nat, mode: nat) returns (errno: Errno)
      requires e.Valid() && sz > 0 && (!released ==> Inv())
      modifies fd, entry`id, table`writeOpCount
      ensures !released ==> Inv()
      ensures released ==> fd.bytes == old(fd.bytes) && entry.id == old(entry.id)
      ensures AllocateOutcome(e, old(Plain()), off, sz, mode, errno, Plain())
      ensures errno == EOPNOTSUPP <==> mode != 0 && mode != 1
      ensures errno == EBADF <==> released && (mode == 0 || mode == 1)
      ensures errno == OK ==> SpaceFor(off, sz)
      ensures Locked(old(table.writeOpCount), table.writeOpCount, errno)
      ensures errno != EIO && (fd.reliable ==> errno != EDEV)
      ensures table.writeOpCount == old(table.writeOpCount) ==> Plain() == old(Plain())
    {
      hide Content, WellFormed;
      if mode != FallocDefault && mode != FallocKeepSize {
        return EOPNOTSUPP;
      }
      if released {
        return EBADF;
      }
      table.Lock();
      var ok := AllocateSpace(off, sz);
      if !ok {
        return EDEV;
      }
      if mode == FallocKeepSize {
        return OK;
      }
      ReportedSize(e, fd.bytes);
      var oldPlainSz := e.CipherSizeToPlainSize(|fd.bytes|);
      if off + sz <= oldPlainSz {
        return OK;
      }
      errno := TruncateGrowFile(oldPlainSz, off + sz);
    }
  }

  // --- what an ordinary sparse file would do ----------------------------------------------

  ghost predicate ReadOutcome(e: Enc, p: Bytes, off: nat, length: nat, out: Bytes, errno: Errno)
    requires e.plainBS > 0
  {
    if length > e.maxKernelWrite then errno == EMSGSIZE
    else
      || (errno == OK && out == Slice(p, off, off + length))
      || (errno == EFBIG && e.BlockNoToCipherOff(Quot(off, e.plainBS)) > MaxInt64)
  }

  /** A write takes effect as a whole. If it is refused, at most the zero padding of the last block,
      needed for a write past the end of the file, has been done. */
  ghost predicate WriteOutcome(e: Enc, p: Bytes, data: Bytes, off: nat, errno: Errno, p': Bytes)
    requires e.plainBS > 0
  {
    || (errno == OK && p' == Splice(p, off, data))
    || ((errno == EMSGSIZE || errno == EBADF) && p' == p)
    || (Refused(e, errno, off + |data|) && (p' == p || (!NoPadNeeded(e, |p|, off) && p' == Padded(e, p))))
  }

  ghost predicate GrowOutcome(e: Enc, p: Bytes, n: nat, errno: Errno, p': Bytes)
    requires e.plainBS > 0
  {
    || (errno == OK && p' == Resize(p, n))
    || (Refused(e, errno, n) && (p' == p || p' == Padded(e, p)))
  }

  /** A refused shrink may already have cut the file down to the last whole block. */
  ghost predicate TruncateOutcome(e: Enc, p: Bytes, n: nat, errno: Errno, p': Bytes)
    requires e.plainBS > 0
  {
    if n > |p| then GrowOutcome(e, p, n, errno, p')
    else
      || (errno == OK && p' == p[..n])
      || (errno == EDEV && p' == p)
      || (n < |p| && Refused(e, errno, n) && (p' == p || p' == WholeBlocks(e, p, n)))
  }

  /** The whole blocks among the first n bytes. */
  function WholeBlocks(e: Enc, p: Bytes, n: nat): Bytes
    requires e.plainBS > 0 && n <= |p|
  {
    QuotFacts(n, e.plainBS);
    p[..Times(Quot(n, e.plainBS), e.plainBS)]
  }

  const FallocDefault := 0
  const FallocKeepSize := 1

  /** Mode 0 also sets the size, mode 1 keeps it. */
  ghost predicate AllocateOutcome(e: Enc, p: Bytes, off: nat, sz: nat, mode: nat, errno: Errno, p': Bytes)
    requires e.plainBS > 0
  {
    if errno == OK then p' == if mode == 0 && |p| < off + sz then Resize(p, off + sz) else p
    else
      || ((errno == EOPNOTSUPP || errno == EBADF || errno == EDEV) && p' == p)
      || (mode == 0 && |p| < off + sz && GrowOutcome(e, p, off + sz, errno, p'))
  }

  /** The exclusive lock was taken, once, unless the call was rejected up front. */
  predicate Locked(before: nat, after: nat, errno: Errno) {
    after == if errno == EMSGSIZE || errno == EBADF || errno == EOPNOTSUPP then before else before + 1
  }

  /** The errors a write of bytes below `end` can meet: the backing file system refused, or the
      ciphertext offset does not fit a file offset. In particular, never a failure to decrypt. */
  predicate Refused(e: Enc, errno: Errno, end: nat)
    requires e.plainBS > 0
  {
    errno == EDEV || (errno == EFBIG && end > 0 && e.BlockNoToCipherOff(Quot(end - 1, e.plainBS)) > MaxInt64)
  }

  /** The last part of a range ends where a file that ends with the range would end. */
  lemma TileEnd(e: Enc, off: nat, len: nat, blocks: seq<IntraBlock>)
    requires e.plainBS > 0 && len > 0 && Tiles(e.plainBS, off, len, blocks)
    ensures var last := blocks[|blocks| - 1];
            && blocks[0].blockNo == Quot(off, e.plainBS)
            && e.BlockNoToCipherOff(last.blockNo) + e.BlockOverhead() + last.skip + last.length == e.PlainSizeToCipherSize(off + len)
  {
    hide Times, Quot;
    LastTile(e, off, len, blocks);
    QuotFacts(off + len - 1, e.plainBS);
  }

  /** A write reaches too far: its first block, or a last block that has to be read first, lies at a ciphertext
      offset that does not fit a file offset. */
  predicate TooFar(e: Enc, off: nat, len: nat)
    requires e.plainBS > 0 && len > 0
  {
    || e.BlockNoToCipherOff(Quot(off, e.plainBS)) > 0x7FFF_FFFF_FFFF_FFFF
    || (Rem(off + len, e.plainBS) > 0 && e.BlockNoToCipherOff(Quot(off + len - 1, e.plainBS)) > 0x7FFF_FFFF_FFFF_FFFF)
  }

  /** A part of a block, so that the block has to be read, at such an offset. */
  predicate FarPart(e: Enc, b: IntraBlock) {
    (b.skip > 0 || b.length < e.plainBS) && e.BlockNoToCipherOff(b.blockNo) > MaxInt64
  }

  lemma FarTiles(e: Enc, off: nat, len: nat, blocks: seq<IntraBlock>)
    requires e.plainBS > 0 && len > 0 && Tiles(e.plainBS, off, len, blocks)
    ensures TooFar(e, off, len) <==>
            e.BlockNoToCipherOff(blocks[0].blockNo) > MaxInt64 || exists i :: 0 <= i < |blocks| && FarPart(e, blocks[i])
  {
    hide Times, Quot, Rem, Enc.BlockNoToCipherOff;
    var n := |blocks| - 1;
    var last, size := blocks[n], e.plainBS;
    LastTile(e, off, len, blocks);
    if last.skip + last.length == size {
      assert Times(last.blockNo + 1, size) == Times(last.blockNo, size) + size by { TimesMore(last.blockNo, size); }
      QuotUnique(off + len, size, last.blockNo + 1);
    } else {
      QuotUnique(off + len, size, last.blockNo);
      assert FarPart(e, last) <==> e.BlockNoToCipherOff(last.blockNo) > MaxInt64;
    }
    forall i | 0 <= i < |blocks| && FarPart(e, blocks[i]) ensures i == 0 || (i == n && last.skip == 0) {}
  }

  lemma TimesMore(k: nat, size: nat)
    ensures Times(k + 1, size) == Times(k, size) + size
  {
  }

  lemma FarIsRefused(e: Enc, off: nat, len: nat)
    requires e.plainBS > 0 && len > 0
    ensures TooFar(e, off, len) ==> Refused(e, EFBIG, off + len)
  {
    hide Times, Quot, Rem;
    QuotMono(off, off + len - 1, e.plainBS);
    TimesMono(Quot(off, e.plainBS), Quot(off + len - 1, e.plainBS), e.CipherBS());
  }

  /** The block that is padded comes before the blocks of the write. */
  lemma FarPadding(e: Enc, p: Bytes, off: nat, len: nat, errno: Errno)
    requires e.plainBS > 0 && len > 0 && |Padded(e, p)| <= off && Refused(e, errno, |Padded(e, p)|)
    ensures errno == EFBIG ==> TooFar(e, off, len)
  {
    hide Times, Quot, Rem, Padded;
    if errno == EFBIG {
      var end := |Padded(e, p)|;
      QuotMono(end - 1, off, e.plainBS);
      TimesMono(Quot(end - 1, e.plainBS), Quot(off, e.plainBS), e.CipherBS());
    }
  }

  /** The part of `t` that starts after `skip` bytes and has up to `length` bytes. */
  function Crop(t: Bytes, skip: nat, length: nat): Bytes {
    if |t| > skip + length then t[skip..skip + length] else if |t| > skip then t[skip..] else []
  }

  lemma CropBlocks(p: Bytes, lo: nat, hi: nat, off: nat, length: nat)
    requires lo <= off && off + length <= hi
    ensures Slice(p, off, off + length) == Crop(Slice(p, lo, hi), off - lo, length)
  {
    var t, skip := Slice(p, lo, hi), off - lo;
    if |t| > skip + length {
      SubSlice(p, lo, Min(hi, |p|), skip, skip + length);
    } else if |t| > skip {
      assert Min(hi, |p|) == Min(off + length, |p|);
      SubSlice(p, lo, Min(hi, |p|), skip, |t|);
    } else {
      assert Min(off, |p|) == Min(off + length, |p|);
    }
  }

  /** The ciphertext and plaintext ranges of the whole blocks of a request. */
  lemma RequestRange(e: Enc, off: nat, length: nat, blocks: seq<IntraBlock>)
    requires e.plainBS > 0 && Rem(e.maxKernelWrite, e.plainBS) == 0
    requires Tiles(e.plainBS, off, length, blocks) && length <= e.maxKernelWrite
    ensures |blocks| > 0
    ensures var first, last := blocks[0].blockNo, blocks[|blocks| - 1].blockNo;
            && first == Quot(off, e.plainBS) <= last
            && JointCiphertextRange(e, blocks).0 + JointCiphertextRange(e, blocks).1 == e.BlockNoToCipherOff(last + 1)
            && JointCiphertextRange(e, blocks).1 <= CReqSize(e)
            && Times(last + 1, e.plainBS) - Times(first, e.plainBS) <= PReqSize(e)
            && Times(first, e.plainBS) + blocks[0].skip == off
            && off + length <= Times(last + 1, e.plainBS)
  {
    TilesCover(e, off, length, blocks);
    RequestFitsBuffers(e, off, length, blocks);
    TimesAdd(blocks[0].blockNo, |blocks|, e.CipherBS());
    TimesAdd(blocks[0].blockNo, |blocks|, e.plainBS);
  }

  /** What doRead relies on: reading whole blocks, decrypting and cropping them gives the requested part. */
  lemma ReadAndCrop(e: Enc, disk: Bytes, id: Bytes, first: nat, next: nat, off: nat, length: nat)
    requires e.plainBS > 0 && WellFormed(e, disk) && HeaderOf(disk) == Some(id)
    requires first <= next && Times(first, e.plainBS) <= off && off + length <= Times(next, e.plainBS)
    ensures e.BlockNoToCipherOff(first) <= e.BlockNoToCipherOff(next)
    ensures var t := e.DecryptAll(Slice(disk, e.BlockNoToCipherOff(first), e.BlockNoToCipherOff(next)), first, id);
            && t.Some?
            && |t.value| <= Times(next, e.plainBS) - Times(first, e.plainBS)
            && Crop(t.value, off - Times(first, e.plainBS), length) == Slice(Content(e, disk), off, off + length)
  {
    hide WellFormed, Content, Times, Enc.DecryptAll;
    ReadDisk(e, disk, id, first, next);
    CropBlocks(Content(e, disk), Times(first, e.plainBS), Times(next, e.plainBS), off, length);
  }

  /** The new content of a block under a write: the old block with its part of the data merged in. */
  lemma MergedTile(e: Enc, p: Bytes, off: nat, data: Bytes, blocks: seq<IntraBlock>, i: nat, pos: nat)
    requires e.plainBS > 0 && Tiles(e.plainBS, off, |data|, blocks) && i < |blocks|
    requires off + pos == Times(blocks[i].blockNo, e.plainBS) + blocks[i].skip
    ensures var b := blocks[i];
            && pos + b.length <= |data|
            && Chunk(Splice(p, off, data), e.plainBS, b.blockNo)
               == Splice(Chunk(p, e.plainBS, b.blockNo), b.skip, data[pos..pos + b.length])
            && (i + 1 < |blocks| ==> off + pos + b.length == Times(blocks[i + 1].blockNo, e.plainBS) + blocks[i + 1].skip)
  {
    hide Times, Splice;
    TileInData(e, off, |data|, blocks, i);
    var b := blocks[i];
    var lo := Times(b.blockNo, e.plainBS);
    SliceMerge(p, off, data, lo, lo + e.plainBS, lo + b.skip, b.length);
  }

  lemma CollectedBlocks(e: Enc, p: Bytes, off: nat, data: Bytes, blocks: seq<IntraBlock>, parts: seq<Bytes>)
    requires e.plainBS > 0 && Tiles(e.plainBS, off, |data|, blocks) && |parts| == |blocks|
    requires forall i :: 0 <= i < |blocks| ==> parts[i] == Chunk(Splice(p, off, data), e.plainBS, blocks[i].blockNo)
    ensures NewBlocks(e, Splice(p, off, data), blocks[0].blockNo, blocks[|blocks| - 1].blockNo, parts)
  {
    hide Times, Splice, Chunk;
    forall i | 0 <= i < |blocks|
      ensures parts[i] == Chunk(Splice(p, off, data), e.plainBS, blocks[0].blockNo + i)
      ensures 0 < |parts[i]| <= e.plainBS && (i < |blocks| - 1 ==> |parts[i]| == e.plainBS)
    {
      TileLength(e, p, off, data, blocks, i);
    }
  }

  /** A block of the request is not empty in the written file, and all but the last are full. */
  lemma TileLength(e: Enc, p: Bytes, off: nat, data: Bytes, blocks: seq<IntraBlock>, i: nat)
    requires e.plainBS > 0 && Tiles(e.plainBS, off, |data|, blocks) && i < |blocks|
    ensures var c := |Chunk(Splice(p, off, data), e.plainBS, blocks[i].blockNo)|;
            0 < c <= e.plainBS && (i < |blocks| - 1 ==> c == e.plainBS)
  {
    hide Times, Splice;
    TileInData(e, off, |data|, blocks, i);
  }

  lemma SealedLength(e: Enc, parts: seq<Bytes>)
    requires parts != [] && |parts[|parts| - 1]| <= e.plainBS
    ensures Times(|parts| - 1, e.CipherBS()) + |parts[|parts| - 1]| + e.BlockOverhead() <= Times(|parts|, e.CipherBS())
  {
  }

  lemma PaddedFacts(e: Enc, p: Bytes)
    requires e.plainBS > 0
    ensures |p| <= |Padded(e, p)| == Times(e.NumBlocks(|p|), e.plainBS)
    ensures Rem(|Padded(e, p)|, e.plainBS) == 0
    ensures Rem(|p|, e.plainBS) == 0 ==> Padded(e, p) == p
    ensures Rem(|p|, e.plainBS) > 0 ==> |Padded(e, p)| == |p| + e.plainBS - Rem(|p|, e.plainBS)
  {
    var n, nb, q := |p|, e.NumBlocks(|p|), Quot(|p|, e.plainBS);
    BlockBounds(e, n);
    QuotFacts(n, e.plainBS);
    QuotUnique(Times(nb, e.plainBS), e.plainBS, nb);
    if n > 0 {
      NumBlocksUnique(e, n, if Rem(n, e.plainBS) == 0 then q else q + 1);
    }
  }

  /** The streaming shortcut is sound: when a write directly follows the last one in time and space, the
      padding it skips would have done nothing. This includes the zero state of a new handle. */
  lemma ConsecutiveWriteNeedsNoPadding(e: Enc, size: nat, lastOpCount: nat, lastWrittenOffset: nat)
    requires e.plainBS > 0
    requires if lastOpCount == 0 then lastWrittenOffset == 0 else lastWrittenOffset < size
    ensures NoPadNeeded(e, size, lastWrittenOffset + 1)
  {
    if lastOpCount > 0 {
      QuotMono(lastWrittenOffset + 1, size, e.plainBS);
    } else {
      QuotFacts(1, e.plainBS);
    }
  }

  /** A gap in front of a write starts no earlier than the padded end of the file. */
  lemma PaddedBefore(e: Enc, p: Bytes, off: nat, errno: Errno, end: nat)
    requires e.plainBS > 0 && !NoPadNeeded(e, |p|, off) && off < end
    ensures |Padded(e, p)| <= off
    ensures Refused(e, errno, |Padded(e, p)|) ==> Refused(e, errno, end)
  {
    PaddedFacts(e, p);
    QuotFacts(|p|, e.plainBS);
    QuotFacts(off, e.plainBS);
    TimesMono(Quot(|p|, e.plainBS), Quot(off, e.plainBS), e.plainBS);
    if |Padded(e, p)| > 0 {
      RefusedMono(e, errno, |Padded(e, p)|, end);
    }
  }

  lemma RefusedMono(e: Enc, errno: Errno, a: nat, b: nat)
    requires e.plainBS > 0 && a <= b
    ensures Refused(e, errno, a) ==> Refused(e, errno, b)
  {
    if a > 0 {
      QuotMono(a - 1, b - 1, e.plainBS);
      TimesMono(Quot(a - 1, e.plainBS), Quot(b - 1, e.plainBS), e.CipherBS());
    }
  }

  /** Writing past the padding is the same as writing past the unpadded end. */
  lemma WriteAfterPadding(e: Enc, p: Bytes, data: Bytes, off: nat)
    requires e.plainBS > 0 && data != []
    ensures !NoPadNeeded(e, |p|, off) ==> Splice(Padded(e, p), off, data) == Splice(p, off, data)
  {
    if !NoPadNeeded(e, |p|, off) {
      PaddedFacts(e, p);
      PaddedBefore(e, p, off, OK, off + |data|);
    }
  }

  lemma GrowByByte(p: Bytes, n: nat)
    requires |p| < n
    ensures Splice(p, n - 1, [0]) == Resize(p, n)
  {
  }

  /** Growing within the last block needs no padding; growing past it starts at the padded end. */
  lemma GrowFacts(e: Enc, p: Bytes, n: nat)
    requires e.plainBS > 0 && |p| < n
    ensures Splice(p, n - 1, [0]) == Resize(p, n)
    ensures |p| > 0 && Quot(|p| - 1, e.plainBS) == Quot(n - 1, e.plainBS) ==> NoPadNeeded(e, |p|, n - 1)
    ensures |p| == 0 || Quot(|p| - 1, e.plainBS) != Quot(n - 1, e.plainBS) ==>
              |Padded(e, p)| < n && Resize(Padded(e, p), n) == Resize(p, n)
  {
    GrowByByte(p, n);
    PaddedFacts(e, p);
    if |Padded(e, p)| <= n {
      assert Resize(Padded(e, p), n) == Resize(p, n);
    }
    if |p| > 0 {
      QuotMono(|p| - 1, |p|, e.plainBS);
      QuotMono(|p| - 1, n - 1, e.plainBS);
      QuotFacts(n - 1, e.plainBS);
      TimesMono(Quot(|p| - 1, e.plainBS), Quot(n - 1, e.plainBS), e.plainBS);
      TimesMono(e.NumBlocks(|p|), Quot(n - 1, e.plainBS) + 1, e.plainBS);
      if Quot(|p| - 1, e.plainBS) < Quot(n - 1, e.plainBS) {
        TimesMono(e.NumBlocks(|p|), Quot(n - 1, e.plainBS), e.plainBS);
      }
    }
  }
}
