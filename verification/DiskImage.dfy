/** The bytes of a backing file and the plaintext they stand for. */
module DiskImage {
  import opened SymbolicArith
  import opened ByteSeqs
  import opened ContentEnc
  import opened BlockLayout

  function HeaderOf(disk: Bytes): Option<Bytes> {
    if |disk| < HeaderLen then None else ParseHeader(disk[..HeaderLen])
  }

  function Body(disk: Bytes): Bytes {
    if |disk| < HeaderLen then [] else disk[HeaderLen..]
  }

  /** The plaintext of a backing file: what decrypting all of its blocks yields. */
  function Content(e: Enc, disk: Bytes): Bytes
    requires e.plainBS > 0
  {
    match HeaderOf(disk)
    case None => []
    case Some(id) =>
      match e.DecryptAll(Body(disk), 0, id)
      case None => []
      case Some(p) => p
  }

  /** The on-disk layout: an empty file, or a valid header followed by blocks that all decrypt, every
      one of them full except perhaps the last. A header without blocks is an empty file too. */
  ghost predicate WellFormed(e: Enc, disk: Bytes)
    requires e.plainBS > 0
  {
    disk == [] || (HeaderOf(disk).Some? && e.Encodes(Body(disk), HeaderOf(disk).value, Content(e, disk)))
  }

  lemma StoredContent(e: Enc, disk: Bytes, id: Bytes, p: Bytes)
    requires e.plainBS > 0 && HeaderOf(disk) == Some(id) && e.Encodes(Body(disk), id, p)
    ensures WellFormed(e, disk) && Content(e, disk) == p
  {
    BlockBounds(e, |p|);
    DecryptRange(e, Body(disk), id, p, 0, e.NumBlocks(|p|));
    assert Slice(Body(disk), 0, Times(e.NumBlocks(|p|), e.CipherBS())) == Body(disk);
    assert Slice(p, 0, Times(e.NumBlocks(|p|), e.plainBS)) == p;
  }

  /** In a well-formed file every block is a hole or was sealed under its own number and the file's ID,
      if the cipher opens only what it has sealed. */
  lemma BlocksAreSealedOrHoles(e: Enc, disk: Bytes, k: nat)
    requires e.plainBS > 0 && WellFormed(e, disk) && HeaderOf(disk).Some? && k < e.NumBlocks(|Content(e, disk)|)
    requires forall n: Bytes, c: Bytes, a: Bytes {:trigger e.aead.open(n, c, a)} ::
               e.aead.open(n, c, a).Some? ==> c == e.aead.seal(n, e.aead.open(n, c, a).value, a)
    ensures var block := Chunk(Body(disk), e.CipherBS(), k);
            || block == Zeros(e.CipherBS())
            || exists nonce: Bytes :: |nonce| == e.ivLen && nonce != Zeros(e.ivLen)
                 && block == e.EncryptBlockNonce(Chunk(Content(e, disk), e.plainBS, k), k, HeaderOf(disk).value, nonce)
  {
    hide Content, Times, Enc.DecryptAll;
    var p, block := Content(e, disk), Chunk(Body(disk), e.CipherBS(), k);
    BlockBounds(e, |p|);
    TimesMono(k, e.NumBlocks(|p|) - 1, e.plainBS);
    TimesMono(k, e.NumBlocks(|p|) - 1, e.CipherBS());
    if block != Zeros(e.CipherBS()) {
      var nonce := block[..e.ivLen];
      assert block == nonce + block[e.ivLen..];
      assert block == e.EncryptBlockNonce(Chunk(p, e.plainBS, k), k, HeaderOf(disk).value, nonce);
    }
  }

  /** The size reported for a well-formed file is the length of its plaintext. */
  lemma ReportedSize(e: Enc, disk: Bytes)
    requires e.plainBS > 0 && WellFormed(e, disk)
    ensures e.CipherSizeToPlainSize(|disk|) == |Content(e, disk)|
  {
    if disk != [] {
      BodySize(e, |Content(e, disk)|);
    }
  }

  lemma SliceBody(disk: Bytes, lo: nat, hi: nat)
    requires |disk| >= HeaderLen && lo <= hi
    ensures Slice(disk, HeaderLen + lo, HeaderLen + hi) == Slice(Body(disk), lo, hi)
  {
    hide Slice;
    SliceDrop(disk, HeaderLen, lo, hi);
  }

  lemma ResizeBody(disk: Bytes, n: nat)
    requires |disk| >= HeaderLen
    ensures Body(Resize(disk, HeaderLen + n)) == Resize(Body(disk), n)
    ensures HeaderOf(Resize(disk, HeaderLen + n)) == HeaderOf(disk)
  {
    hide ParseHeader;
    assert Resize(disk, HeaderLen + n)[..HeaderLen] == disk[..HeaderLen];
  }

  /** Reading the blocks that cover a request and decrypting them yields their plaintext. */
  lemma ReadDisk(e: Enc, disk: Bytes, id: Bytes, first: nat, next: nat)
    requires e.plainBS > 0 && WellFormed(e, disk) && HeaderOf(disk) == Some(id) && first <= next
    ensures e.BlockNoToCipherOff(first) <= e.BlockNoToCipherOff(next) && Times(first, e.plainBS) <= Times(next, e.plainBS)
    ensures e.DecryptAll(Slice(disk, e.BlockNoToCipherOff(first), e.BlockNoToCipherOff(next)), first, id)
         == Some(Slice(Content(e, disk), Times(first, e.plainBS), Times(next, e.plainBS)))
  {
    hide Content, Times, Enc.DecryptAll;
    DecryptRange(e, Body(disk), id, Content(e, disk), first, next);
    SliceBody(disk, Times(first, e.CipherBS()), Times(next, e.CipherBS()));
  }

  lemma SpliceBody(disk: Bytes, at: nat, ct: Bytes)
    requires |disk| >= HeaderLen
    ensures Body(Splice(disk, HeaderLen + at, ct)) == Splice(Body(disk), at, ct)
    ensures HeaderOf(Splice(disk, HeaderLen + at, ct)) == HeaderOf(disk)
  {
    hide ParseHeader;
    var disk' := Splice(disk, HeaderLen + at, ct);
    assert disk'[..HeaderLen] == disk[..HeaderLen];
    assert disk'[HeaderLen..] == Splice(disk[HeaderLen..], at, ct);
  }

  /** Writing the sealed blocks of a write in place changes the plaintext as the write should. */
  lemma WriteDisk(e: Enc, disk: Bytes, id: Bytes, off: nat, data: Bytes, first: nat, last: nat, ct: Bytes)
    requires e.Valid() && WellFormed(e, disk) && HeaderOf(disk) == Some(id)
    requires NoPadNeeded(e, |Content(e, disk)|, off)
    requires first <= last && Covers(e, off, |data|, first, last)
    requires SealsBlocks(e, ct, id, Splice(Content(e, disk), off, data), first, last)
    ensures var disk' := Splice(disk, e.BlockNoToCipherOff(first), ct);
            WellFormed(e, disk') && HeaderOf(disk') == Some(id) && Content(e, disk') == Splice(Content(e, disk), off, data)
  {
    hide Content, Splice, Enc.DecryptAll, Times, Quot;
    QuotUnique(off, e.plainBS, first);
    NoPadIsReachable(e, |Content(e, disk)|, off);
    OverwriteBlocks(e, Body(disk), id, Content(e, disk), off, data, first, last, ct);
    SpliceBody(disk, Times(first, e.CipherBS()), ct);
    StoredContent(e, Splice(disk, e.BlockNoToCipherOff(first), ct), id, Splice(Content(e, disk), off, data));
  }

  /** A fresh header on a file without content leaves it without content. */
  lemma FreshHeader(e: Enc, disk: Bytes, id: Bytes)
    requires e.plainBS > 0 && ValidID(id) && |disk| <= HeaderLen
    ensures var disk' := Splice(disk, 0, Pack(id));
            WellFormed(e, disk') && HeaderOf(disk') == Some(id) && Content(e, disk') == [] && |disk'| == HeaderLen
  {
    var disk' := Splice(disk, 0, Pack(id));
    assert disk' == Pack(id) && disk'[..HeaderLen] == disk';
    HeaderRoundTrip(disk', id);
    StoredContent(e, disk', id, []);
  }

  lemma EmptyDisk(e: Enc)
    requires e.plainBS > 0
    ensures WellFormed(e, []) && Content(e, []) == []
  {
  }

  /** A file with content is longer than its header, and one without is not. */
  lemma EmptyContent(e: Enc, disk: Bytes)
    requires e.plainBS > 0 && WellFormed(e, disk)
    ensures Content(e, disk) == [] <==> |disk| <= HeaderLen
  {
  }

  lemma CutDisk(e: Enc, disk: Bytes, k: nat)
    requires e.plainBS > 0 && WellFormed(e, disk) && disk != [] && Times(k, e.plainBS) <= |Content(e, disk)|
    ensures var disk' := Resize(disk, e.BlockNoToCipherOff(k));
            WellFormed(e, disk') && HeaderOf(disk') == HeaderOf(disk)
            && Content(e, disk') == Content(e, disk)[..Times(k, e.plainBS)]
  {
    CutBlocks(e, Body(disk), HeaderOf(disk).value, Content(e, disk), k);
    ResizeBody(disk, Times(k, e.CipherBS()));
    StoredContent(e, Resize(disk, e.BlockNoToCipherOff(k)), HeaderOf(disk).value, Content(e, disk)[..Times(k, e.plainBS)]);
  }

  lemma GrowDisk(e: Enc, disk: Bytes, m: nat)
    requires e.Valid() && WellFormed(e, disk) && disk != []
    requires var n := |Content(e, disk)|; Rem(n, e.plainBS) == 0 && n < Times(m, e.plainBS)
    ensures e.PlainSizeToCipherSize(Times(m, e.plainBS)) == e.BlockNoToCipherOff(m)
    ensures var disk' := Resize(disk, e.BlockNoToCipherOff(m));
            WellFormed(e, disk') && HeaderOf(disk') == HeaderOf(disk)
            && Content(e, disk') == Resize(Content(e, disk), Times(m, e.plainBS))
  {
    hide Content, Resize, Enc.DecryptAll, Enc.DecryptBlock, Enc.PlainOffToCipherOff, Times, Quot, Rem;
    var p, q := Content(e, disk), Quot(|Content(e, disk)|, e.plainBS);
    QuotFacts(|p|, e.plainBS);
    FullBody(e, q);
    FullBody(e, m);
    if m <= q {
      TimesMono(m, q, e.plainBS);
      assert false;
    }
    TimesMono(q, m - 1, e.plainBS);
    GrowHoles(e, Body(disk), HeaderOf(disk).value, p, m);
    ResizeBody(disk, Times(m, e.CipherBS()));
    StoredContent(e, Resize(disk, e.BlockNoToCipherOff(m)), HeaderOf(disk).value, Resize(p, Times(m, e.plainBS)));
    BodyLenIsCipherSize(e, Times(m, e.plainBS));
  }
}
