/** Reverse mode (internal/fusefrontend_reverse, internal/pathiv): reading the encrypted view of a plain file.
    Nonces are derived from the path and the block number, so the view is one fixed ciphertext. */
module ReverseFile {
  import opened SymbolicArith
  import opened ByteSeqs
  import opened ContentEnc
  import opened BlockLayout
  import opened ContentOps
  import opened DiskImage

  const BlockIVLen := 16

  /** BlockIV: the block number is added to the low half of block 0's IV, in 64-bit arithmetic. */
  function BlockIV(block0IV: Bytes, blockNo: nat): (iv: Bytes)
    requires |block0IV| == BlockIVLen
    ensures |iv| == BlockIVLen
  {
    block0IV[..8] + BE(FromBE(block0IV[8..]) + blockNo, 8)
  }

  /** No two blocks of a file share an IV. */
  lemma IVsDiffer(iv: Bytes, k: U64, j: U64)
    requires |iv| == BlockIVLen
    ensures BlockIV(iv, k) == BlockIV(iv, j) <==> k == j
    ensures BlockIV(iv, 0) == iv
  {
    hide BE, FromBE;
    var low := FromBE(iv[8..]);
    assert Pow256(8) == 0x1_0000_0000_0000_0000;
    BEofFromBE(iv[8..]);
    assert iv == iv[..8] + iv[8..];
    if BlockIV(iv, k) == BlockIV(iv, j) {
      assert BE(low + k, 8) == BlockIV(iv, k)[8..] && BE(low + j, 8) == BlockIV(iv, j)[8..];
      BEMod(low + k, 8);
      BEMod(low + j, 8);
      SumsDiffer(low, k, j);
    }
  }

  lemma SumsDiffer(low: nat, k: U64, j: U64)
    requires (low + k) % 0x1_0000_0000_0000_0000 == (low + j) % 0x1_0000_0000_0000_0000
    ensures k == j
  {
  }

  /** The ciphertext blocks of a plaintext, numbered from `first`. */
  function SealFrom(e: Enc, p: Bytes, first: nat, id: Bytes, iv: Bytes): Bytes
    requires e.plainBS > 0 && |iv| == BlockIVLen
    decreases |p|
  {
    if p == [] then []
    else
      var n := Min(e.plainBS, |p|);
      e.EncryptBlockNonce(p[..n], first, id, BlockIV(iv, first)) + SealFrom(e, p[n..], first + 1, id, iv)
  }

  /** The encrypted view: an empty file stays empty, any other gets a header. */
  function View(e: Enc, p: Bytes, id: Bytes, iv: Bytes): Bytes
    requires e.plainBS > 0 && |iv| == BlockIVLen && |id| == HeaderIDLen
  {
    if p == [] then [] else Pack(id) + SealFrom(e, p, 0, id, iv)
  }

  ghost predicate Setting(e: Enc, iv: Bytes) {
    e.Valid() && e.plainBS > 0 && e.ivLen == BlockIVLen && |iv| == BlockIVLen
  }

  // --- the shape of the view -------------------------------------------------------------------------------------

  lemma SealedBlock(e: Enc, p: Bytes, blockNo: nat, id: Bytes, iv: Bytes)
    requires Setting(e, iv) && p != []
    ensures |e.EncryptBlockNonce(p, blockNo, id, BlockIV(iv, blockNo))| == |p| + e.BlockOverhead()
  {
  }

  lemma SealStep(e: Enc, p: Bytes, first: nat, id: Bytes, iv: Bytes) returns (c: Bytes)
    requires Setting(e, iv) && p != []
    ensures var n := Min(e.plainBS, |p|);
            && |c| == n + e.BlockOverhead() && c == e.EncryptBlockNonce(p[..n], first, id, BlockIV(iv, first))
            && SealFrom(e, p, first, id, iv) == c + SealFrom(e, p[n..], first + 1, id, iv)
  {
    hide BlockIV, Enc.EncryptBlockNonce, Enc.Valid;
    var n := Min(e.plainBS, |p|);
    SealedBlock(e, p[..n], first, id, iv);
    c := e.EncryptBlockNonce(p[..n], first, id, BlockIV(iv, first));
  }

  /** Whole blocks can be sealed on their own. */
  lemma {:induction false} SealConcat(e: Enc, a: Bytes, b: Bytes, first: nat, id: Bytes, iv: Bytes, k: nat)
    requires Setting(e, iv) && e.plainBS > 0 && |iv| == BlockIVLen && |a| == Times(k, e.plainBS)
    ensures |SealFrom(e, a, first, id, iv)| == Times(k, e.CipherBS())
    ensures SealFrom(e, a + b, first, id, iv) == SealFrom(e, a, first, id, iv) + SealFrom(e, b, first + k, id, iv)
    decreases k
  {
    hide SealFrom, Enc.Valid, Enc.EncryptBlockNonce, BlockIV, Setting;
    if k == 0 {
      SealNothing(e, first, id, iv);
      assert a + b == b && a == [];
    } else {
      var bs := e.plainBS;
      var c := SealStep(e, a, first, id, iv);
      var d := SealStep(e, a + b, first, id, iv);
      assert (a + b)[..bs] == a[..bs] && (a + b)[bs..] == a[bs..] + b;
      SealConcat(e, a[bs..], b, first + 1, id, iv, k - 1);
      Associate(c, SealFrom(e, a[bs..], first + 1, id, iv), SealFrom(e, b, first + k, id, iv));
    }
  }

  lemma Associate(a: Bytes, b: Bytes, c: Bytes)
    ensures a + (b + c) == a + b + c
  {
  }

  lemma {:induction false} SealLength(e: Enc, p: Bytes, first: nat, id: Bytes, iv: Bytes)
    requires Setting(e, iv)
    ensures |SealFrom(e, p, first, id, iv)| == e.BodyLen(|p|)
    decreases |p|
  {
    hide SealFrom, Enc.Valid, Enc.EncryptBlockNonce, BlockIV;
    SealNothing(e, first, id, iv);
    if p != [] {
      var n := Min(e.plainBS, |p|);
      var _ := SealStep(e, p, first, id, iv);
      SealLength(e, p[n..], first + 1, id, iv);
      BlockBounds(e, |p[n..]|);
      NumBlocksUnique(e, |p|, e.NumBlocks(|p[n..]|) + 1);
    }
  }

  /** The view has the size that the size translation predicts. */
  lemma ViewSize(e: Enc, p: Bytes, id: Bytes, iv: Bytes)
    requires Setting(e, iv) && |id| == HeaderIDLen
    ensures |View(e, p, id, iv)| == e.PlainSizeToCipherSize(|p|)
  {
    if p != [] {
      SealLength(e, p, 0, id, iv);
      BodyLenIsCipherSize(e, |p|);
    }
  }

  // --- reading -----------------------------------------------------------------------------------------------------

  /** encryptBlocks */
  method EncryptPlain(e: Enc, plaintext: Bytes, firstBlockNo: nat, id: Bytes, iv: Bytes) returns (out: Bytes)
    requires e.plainBS > 0 && |iv| == BlockIVLen
    ensures out == SealFrom(e, plaintext, firstBlockNo, id, iv)
  {
    hide BlockIV, Enc.EncryptBlockNonce;
    out := [];
    var inBuf, blockNo := plaintext, firstBlockNo;
    while inBuf != []
      invariant out + SealFrom(e, inBuf, blockNo, id, iv) == SealFrom(e, plaintext, firstBlockNo, id, iv)
      decreases |inBuf|
    {
      var n := Min(e.plainBS, |inBuf|);
      var c := e.EncryptBlockNonce(inBuf[..n], blockNo, id, BlockIV(iv, blockNo));
      Associate(out, c, SealFrom(e, inBuf[n..], blockNo + 1, id, iv));
      out := out + c;
      inBuf, blockNo := inBuf[n..], blockNo + 1;
    }
  }

  method ExplodeCipherRange(e: Enc, offset: nat, length: nat) returns (blocks: seq<IntraBlock>)
    requires e.plainBS > 0 && offset >= HeaderLen
    ensures length == 0 ==> blocks == []
    ensures length > 0 ==> Tiles(e.CipherBS(), offset - HeaderLen, length, blocks)
  {
    hide Tiles, Times, Quot;
    blocks := [];
    var off, len := offset, length;
    while len > 0
      invariant 0 <= len && off + len == offset + length
      invariant blocks == [] ==> off == offset
      invariant blocks != [] ==> off > offset
      invariant blocks != [] ==> Tiles(e.CipherBS(), offset - HeaderLen, off - offset, blocks)
      invariant blocks != [] && len > 0 ==>
                  var b := blocks[|blocks| - 1]; b.skip + b.length == e.CipherBS()
    {
      QuotFacts(off - HeaderLen, e.CipherBS());
      var blockNo := e.CipherOffToBlockNo(off);
      var skip := off - e.BlockNoToCipherOff(blockNo);
      var maxLen := e.CipherBS() - skip;
      var b := IntraBlock(blockNo, skip, if len < maxLen then len else maxLen);
      if blocks == [] {
        TilesStart(e.CipherBS(), off - HeaderLen, b);
      } else {
        TilesExtend(e.CipherBS(), offset - HeaderLen, off - offset, blocks, b);
      }
      assert [] + [b] == [b];
      blocks := blocks + [b];
      off := off + b.length;
      len := len - b.length;
    }
  }

  /** Sealing the whole blocks first..next gives that part of the view's body. */
  lemma SealRange(e: Enc, p: Bytes, id: Bytes, iv: Bytes, first: nat, next: nat)
    requires Setting(e, iv) && first <= next
    ensures Times(first, e.plainBS) <= Times(next, e.plainBS) && Times(first, e.CipherBS()) <= Times(next, e.CipherBS())
    ensures SealFrom(e, Slice(p, Times(first, e.plainBS), Times(next, e.plainBS)), first, id, iv) ==
            Slice(SealFrom(e, p, 0, id, iv), Times(first, e.CipherBS()), Times(next, e.CipherBS()))
  {
    hide SealFrom, Times, Enc.Valid;
    TimesMono(first, next, e.plainBS);
    TimesMono(first, next, e.CipherBS());
    var lo, hi := Times(first, e.plainBS), Times(next, e.plainBS);
    if |p| <= lo {
      SealShort(e, p, 0, id, iv, first);
      assert Slice(p, lo, hi) == [];
      SealNothing(e, first, id, iv);
    } else {
      assert p == p[..lo] + p[lo..];
      SealConcat(e, p[..lo], p[lo..], 0, id, iv, first);
      if hi < |p| {
        TimesAdd(first, next - first, e.plainBS);
        TimesAdd(first, next - first, e.CipherBS());
        assert p[lo..] == p[lo..hi] + p[hi..];
        SealConcat(e, p[lo..hi], p[hi..], first, id, iv, next - first);
        assert Slice(p, lo, hi) == p[lo..hi];
        Middle(SealFrom(e, p[..lo], 0, id, iv), SealFrom(e, p[lo..hi], first, id, iv), SealFrom(e, p[hi..], next, id, iv));
      } else {
        assert Slice(p, lo, hi) == p[lo..];
        SealShort(e, p, 0, id, iv, next);
        Last(SealFrom(e, p[..lo], 0, id, iv), SealFrom(e, p[lo..], first, id, iv), Times(next, e.CipherBS()));
      }
    }
  }

  lemma Middle(a: Bytes, b: Bytes, c: Bytes)
    ensures Slice(a + (b + c), |a|, |a| + |b|) == b
  {
    assert (a + (b + c))[|a|..|a| + |b|] == b;
  }

  lemma Last(a: Bytes, b: Bytes, hi: nat)
    requires |a + b| <= hi
    ensures Slice(a + b, |a|, hi) == b
  {
    assert (a + b)[|a|..] == b;
  }

  lemma SealNothing(e: Enc, first: nat, id: Bytes, iv: Bytes)
    requires e.plainBS > 0 && |iv| == BlockIVLen
    ensures SealFrom(e, [], first, id, iv) == []
  {
  }

  lemma {:induction false} SealShort(e: Enc, p: Bytes, first: nat, id: Bytes, iv: Bytes, k: nat)
    requires Setting(e, iv) && |p| <= Times(k, e.plainBS)
    ensures |SealFrom(e, p, first, id, iv)| <= Times(k, e.CipherBS())
    decreases k
  {
    hide SealFrom, Enc.Valid, Enc.EncryptBlockNonce, BlockIV;
    SealNothing(e, first, id, iv);
    if p != [] {
      var n := Min(e.plainBS, |p|);
      var _ := SealStep(e, p, first, id, iv);
      SealShort(e, p[n..], first + 1, id, iv, k - 1);
    }
  }

  class File {
    const e: Enc
    const backing: Bytes  // the plain file
    const id: Bytes
    const block0IV: Bytes

    ghost predicate Valid() {
      Setting(e, block0IV) && |id| == HeaderIDLen
    }

    constructor (e: Enc, backing: Bytes, id: Bytes, block0IV: Bytes)
      requires Setting(e, block0IV) && |id| == HeaderIDLen
      ensures Valid() && this.e == e && this.backing == backing && this.id == id && this.block0IV == block0IV
    {
      this.e, this.backing, this.id, this.block0IV := e, backing, id, block0IV;
    }

    /** readBackingFile: the part of the view's body at this ciphertext range. */
    method ReadBackingFile(off: nat, length: nat) returns (out: Bytes)
      requires Valid() && off >= HeaderLen && length > 0
      ensures out == Slice(SealFrom(e, backing, 0, id, block0IV), off - HeaderLen, off - HeaderLen + length)
    {
      hide SealFrom, Enc.Valid, Times, Tiles;
      var blocks := ExplodeCipherRange(e, off, length);
      RangeOfTiles(e.CipherBS(), off - HeaderLen, length, blocks);
      var first, next, skip := blocks[0].blockNo, blocks[|blocks| - 1].blockNo + 1, blocks[0].skip;
      TimesMono(first, next, e.plainBS);
      var alignedOffset := e.BlockNoToPlainOff(first);
      var alignedLength := e.BlockNoToPlainOff(next) - alignedOffset;
      var plaintext := Slice(backing, alignedOffset, alignedOffset + alignedLength);
      var ciphertext := EncryptPlain(e, plaintext, first, id, block0IV);
      SealRange(e, backing, id, block0IV, first, next);
      ghost var body := SealFrom(e, backing, 0, id, block0IV);
      CropSlice(body, Times(first, e.CipherBS()), Times(next, e.CipherBS()), skip, length);
      if |ciphertext| > skip + length {
        out := ciphertext[skip..skip + length];
      } else if |ciphertext| > skip {
        out := ciphertext[skip..];
      } else {
        out := [];
      }
    }

    /** Read: the requested part of the header, then of the body. */
    method Read(off: nat, length: nat) returns (out: Bytes)
      requires Valid()
      ensures backing != [] ==> out == Slice(View(e, backing, id, block0IV), off, off + length)
      ensures backing == [] ==> out == if off + length <= HeaderLen then Slice(Pack(id), off, off + length) else []
    {
      hide SealFrom, Enc.Valid, Pack;
      ghost var body := SealFrom(e, backing, 0, id, block0IV);
      out := [];
      var at, len := off, length;
      if at < HeaderLen {
        var header := Pack(id);
        var end := Min(at + len, |header|);
        header := header[at..end];
        out := header;
        at := at + |header|;
        len := len - |header|;
      }
      BodyNonempty();
      HeaderThenBody(Pack(id), body, off, length);
      if len > 0 {
        var fileData := ReadBackingFile(at, len);
        if |fileData| == 0 {
          return [];
        }
        out := out + fileData;
      }
    }

    lemma BodyNonempty()
      requires Valid()
      ensures SealFrom(e, backing, 0, id, block0IV) == [] <==> backing == []
    {
      hide Enc.EncryptBlockNonce, BlockIV;
      SealNothing(e, 0, id, block0IV);
      if backing != [] {
        var c := SealStep(e, backing, 0, id, block0IV);
      }
    }
  }

  /** The whole blocks that hold a tiled range. */
  lemma RangeOfTiles(size: nat, off: nat, len: nat, blocks: seq<IntraBlock>)
    requires size > 0 && Tiles(size, off, len, blocks)
    ensures |blocks| > 0
    ensures var first, next := blocks[0].blockNo, blocks[|blocks| - 1].blockNo + 1;
            && first < next && Times(first, size) + blocks[0].skip == off && off + len <= Times(next, size)
  {
  }

  lemma CropSlice(body: Bytes, lo: nat, hi: nat, skip: nat, length: nat)
    requires lo + skip + length <= hi
    ensures var c := Slice(body, lo, hi);
            && Slice(c, skip, skip + length) == Slice(body, lo + skip, lo + skip + length)
            && (|c| > skip + length ==> c[skip..skip + length] == Slice(c, skip, skip + length))
            && (skip < |c| <= skip + length ==> c[skip..] == Slice(c, skip, skip + length))
            && (|c| <= skip ==> Slice(c, skip, skip + length) == [])
  {
    if lo < |body| {
      var end := Min(hi, |body|) - lo;
      SubSlice(body, lo, lo + end, Min(skip, end), Min(skip + length, end));
    }
  }

  /** A window on a header and a body is the window on the header followed by what is left for the body. */
  lemma HeaderThenBody(h: Bytes, body: Bytes, off: nat, length: nat)
    ensures var part := Slice(h, off, off + length);
            Slice(h + body, off, off + length) ==
            part + if off + length > |h| then Slice(body, Max(off - |h|, 0), off + length - |h|) else []
  {
    hide Slice;
    var end := off + length;
    if end <= |h| {
      SliceAppend(h, body, off, end);
      assert Slice(h, off, end) + [] == Slice(h, off, end);
    } else if off <= |h| {
      SliceAcross(h, body, off, end);
    } else {
      SlicePast(h, body, off, end);
      assert [] + Slice(body, off - |h|, end - |h|) == Slice(body, off - |h|, end - |h|);
    }
  }

  // --- decrypting the view ---------------------------------------------------------------------------------------------

  lemma NextTimes(k: nat, d: nat)
    ensures Times(k + 1, d) == Times(k, d) + d
  {
  }

  /** Block k of the view is block k of the file, sealed under its own IV. */
  lemma ViewBlock(e: Enc, p: Bytes, id: Bytes, iv: Bytes, k: nat)
    requires Setting(e, iv) && k < e.NumBlocks(|p|)
    ensures Chunk(p, e.plainBS, k) != []
    ensures Chunk(SealFrom(e, p, 0, id, iv), e.CipherBS(), k) == e.EncryptBlockNonce(Chunk(p, e.plainBS, k), k, id, BlockIV(iv, k))
  {
    hide SealFrom, Enc.Valid, Enc.EncryptBlockNonce, BlockIV, Times;
    NextTimes(k, e.plainBS);
    NextTimes(k, e.CipherBS());
    BlockBounds(e, |p|);
    TimesMono(k, e.NumBlocks(|p|) - 1, e.plainBS);
    SealRange(e, p, id, iv, k, k + 1);
    var x := Chunk(p, e.plainBS, k);
    var c := SealStep(e, x, k, id, iv);
    assert x[..|x|] == x && x[|x|..] == [];
    SealNothing(e, k + 1, id, iv);
    assert c + [] == c;
  }

  /** Block k of the view as forward mode reads it back. */
  lemma ViewBlockReads(e: Enc, p: Bytes, id: Bytes, iv: Bytes, k: nat)
    requires Setting(e, iv) && k < e.NumBlocks(|p|)
    ensures e.DecryptBlock(Chunk(SealFrom(e, p, 0, id, iv), e.CipherBS(), k), k, id) == Some(Chunk(p, e.plainBS, k)) <==>
            Readable(e, p, id, iv, k)
  {
    hide SealFrom, BlockIV, Times;
    ViewBlock(e, p, id, iv, k);
    var x, nonce := Chunk(p, e.plainBS, k), BlockIV(iv, k);
    if nonce != Zeros(BlockIVLen) {
      e.BlockRoundTrip(x, k, id, nonce);
    } else {
      assert e.EncryptBlockNonce(x, k, id, nonce)[..BlockIVLen] == nonce;
    }
  }

  /** Its IV is not zero; or the sealed block happens to be what forward mode takes for a hole, and stands for one. */
  ghost predicate Readable(e: Enc, p: Bytes, id: Bytes, iv: Bytes, k: nat)
    requires e.plainBS > 0 && |iv| == BlockIVLen
  {
    || BlockIV(iv, k) != Zeros(BlockIVLen)
    || (&& e.EncryptBlockNonce(Chunk(p, e.plainBS, k), k, id, BlockIV(iv, k)) == Zeros(e.CipherBS())
        && Chunk(p, e.plainBS, k) == Zeros(e.plainBS))
  }

  ghost predicate AllReadable(e: Enc, p: Bytes, id: Bytes, iv: Bytes)
    requires e.plainBS > 0 && |iv| == BlockIVLen
  {
    forall k: nat :: k < e.NumBlocks(|p|) ==> Readable(e, p, id, iv, k)
  }

  /** Forward mode sees a well-formed file with the plaintext as its content, and decrypts the body to it, if and only
      if every block is readable. */
  lemma ForwardReadsView(e: Enc, p: Bytes, id: Bytes, iv: Bytes)
    requires Setting(e, iv) && ValidID(id) && p != []
    ensures WellFormed(e, View(e, p, id, iv)) && Content(e, View(e, p, id, iv)) == p <==> AllReadable(e, p, id, iv)
    ensures AllReadable(e, p, id, iv) ==> e.DecryptAll(Body(View(e, p, id, iv)), 0, id) == Some(p)
  {
    hide SealFrom, Enc.Valid, Enc.EncryptBlockNonce, BlockIV, Times, Enc.DecryptBlock, Enc.DecryptAll, Pack, ParseHeader, Readable;
    var view, body := View(e, p, id, iv), SealFrom(e, p, 0, id, iv);
    assert view[..HeaderLen] == Pack(id) && Body(view) == body;
    HeaderRoundTrip(view[..HeaderLen], id);
    SealLength(e, p, 0, id, iv);
    forall k: nat | k < e.NumBlocks(|p|)
      ensures e.DecryptBlock(Chunk(body, e.CipherBS(), k), k, id) == Some(Chunk(p, e.plainBS, k)) <==> Readable(e, p, id, iv, k)
    {
      ViewBlockReads(e, p, id, iv, k);
    }
    if AllReadable(e, p, id, iv) {
      StoredContent(e, view, id, p);
    }
  }

  // --- which IVs are zero --------------------------------------------------------------------------------------------

  /** The low half of block k's IV, as a number. */
  function LowHalf(iv: Bytes, k: nat): nat
    requires |iv| == BlockIVLen
  {
    (FromBE(iv[8..]) + k) % 0x1_0000_0000_0000_0000
  }

  /** The IV of block k is zero exactly if the upper half of block 0's IV is, and the lower half plus k is 0 modulo 2^64. */
  lemma ZeroIV(iv: Bytes, k: nat)
    requires |iv| == BlockIVLen
    ensures BlockIV(iv, k) == Zeros(BlockIVLen) <==> iv[..8] == Zeros(8) && LowHalf(iv, k) == 0
  {
    var low := BE(FromBE(iv[8..]) + k, 8);
    BEZero(FromBE(iv[8..]) + k, 8);
    assert Pow256(8) == 0x1_0000_0000_0000_0000;
    hide BE, FromBE;
    assert BlockIV(iv, k)[..8] == iv[..8] && BlockIV(iv, k)[8..] == low;
    assert Zeros(BlockIVLen)[..8] == Zeros(8) && Zeros(BlockIVLen)[8..] == Zeros(8);
    assert Zeros(BlockIVLen) == Zeros(8) + Zeros(8);
  }

  /** What a caller can check: the upper half is not zero, or the lower half does not run through 0 within n blocks. */
  ghost predicate UsableIV(iv: Bytes, n: nat)
    requires |iv| == BlockIVLen
  {
    iv[..8] != Zeros(8) || forall k: nat :: k < n ==> LowHalf(iv, k) != 0
  }

  /** With such an IV the file is read back; and only with such an IV, if no sealed block is all zero bytes. */
  lemma ForwardReadsUsableView(e: Enc, p: Bytes, id: Bytes, iv: Bytes)
    requires Setting(e, iv) && ValidID(id) && p != []
    ensures UsableIV(iv, e.NumBlocks(|p|)) ==> WellFormed(e, View(e, p, id, iv)) && Content(e, View(e, p, id, iv)) == p
    ensures WellFormed(e, View(e, p, id, iv)) && Content(e, View(e, p, id, iv)) == p
            && (forall k: nat :: k < e.NumBlocks(|p|) ==> Chunk(SealFrom(e, p, 0, id, iv), e.CipherBS(), k) != Zeros(e.CipherBS()))
            ==> UsableIV(iv, e.NumBlocks(|p|))
  {
    hide WellFormed, Content, View, BlockIV, LowHalf, SealFrom, Enc.EncryptBlockNonce, Chunk, Enc.Valid;
    forall k: nat | k < e.NumBlocks(|p|)
      ensures BlockIV(iv, k) == Zeros(BlockIVLen) <==> iv[..8] == Zeros(8) && LowHalf(iv, k) == 0
      ensures Readable(e, p, id, iv, k) ==>
                BlockIV(iv, k) != Zeros(BlockIVLen) || Chunk(SealFrom(e, p, 0, id, iv), e.CipherBS(), k) == Zeros(e.CipherBS())
      ensures BlockIV(iv, k) != Zeros(BlockIVLen) ==> Readable(e, p, id, iv, k)
    {
      ZeroIV(iv, k);
      ViewBlock(e, p, id, iv, k);
    }
    ForwardReadsView(e, p, id, iv);
  }

  /** The input that fails: with an all-zero IV for block 0, no file of one byte can be read back. */
  lemma ZeroIVUnreadable(e: Enc, x: Byte, id: Bytes)
    requires Setting(e, Zeros(BlockIVLen)) && ValidID(id) && e.plainBS > 1
    ensures var view := View(e, [x], id, Zeros(BlockIVLen)); !(WellFormed(e, view) && Content(e, view) == [x])
  {
    var iv := Zeros(BlockIVLen);
    ForwardReadsView(e, [x], id, iv);
    BEZero(0, 8);
    assert iv[8..] == Zeros(8) && iv[..8] == Zeros(8);
    ZeroValue(8);
    ZeroIV(iv, 0);
    hide WellFormed, Content, View, BlockIV, BE, FromBE;
    NumBlocksUnique(e, 1, 1);
    assert |Chunk([x], e.plainBS, 0)| == 1;
    assert !Readable(e, [x], id, iv, 0);
  }

  lemma {:induction false} ZeroValue(w: nat)
    ensures FromBE(Zeros(w)) == 0
  {
    if w > 0 {
      assert Zeros(w)[..w - 1] == Zeros(w - 1);
      ZeroValue(w - 1);
    }
  }
}
