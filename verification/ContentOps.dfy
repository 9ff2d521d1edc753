/** The working parts of internal/contentenc: splitting requests into blocks, sealing and opening
    block sequences, and merging a partial write into an old block. */
module ContentOps {
  import opened SymbolicArith
  import opened ByteSeqs
  import opened ContentEnc
  import opened BlockLayout

  // --- request splitting ---------------------------------------------------------

  /** `blocks` cut the range [off, off + len) into consecutively numbered parts of `size` that leave
      out nothing and overlap nowhere: only the first may skip bytes and only the last may end early. */
  ghost predicate Tiles(size: nat, off: nat, len: nat, blocks: seq<IntraBlock>)
  {
    && |blocks| > 0
    && (forall i :: 0 <= i < |blocks| ==>
          && blocks[i].blockNo == blocks[0].blockNo + i
          && blocks[i].length > 0
          && blocks[i].skip + blocks[i].length <= size
          && (i > 0 ==> blocks[i].skip == 0)
          && (i < |blocks| - 1 ==> blocks[i].skip + blocks[i].length == size))
    && Times(blocks[0].blockNo, size) + blocks[0].skip == off
    && var last := blocks[|blocks| - 1];
       Times(last.blockNo, size) + last.skip + last.length == off + len
  }

  /** The part of one block that starts at `off`. */
  ghost predicate PartAt(size: nat, off: nat, b: IntraBlock)
    requires size > 0
  {
    b.blockNo == Quot(off, size) && b.skip == Rem(off, size) && 0 < b.length <= size - b.skip
  }

  lemma TilesStart(size: nat, off: nat, b: IntraBlock)
    requires size > 0 && PartAt(size, off, b)
    ensures Tiles(size, off, b.length, [b])
  {
    QuotFacts(off, size);
  }

  lemma TilesExtend(size: nat, off: nat, len: nat, blocks: seq<IntraBlock>, b: IntraBlock)
    requires size > 0 && Tiles(size, off, len, blocks) && PartAt(size, off + len, b)
    requires var last := blocks[|blocks| - 1]; last.skip + last.length == size
    ensures Tiles(size, off, len + b.length, blocks + [b])
  {
    var last := blocks[|blocks| - 1];
    assert Times(last.blockNo + 1, size) == Times(last.blockNo, size) + size;
    QuotUnique(off + len, size, last.blockNo + 1);
  }

  method ExplodePlainRange(e: Enc, offset: nat, length: nat) returns (blocks: seq<IntraBlock>)
    requires e.plainBS > 0
    ensures length == 0 ==> blocks == []
    ensures length > 0 ==> Tiles(e.plainBS, offset, length, blocks)
  {
    hide Tiles, Times, Quot;
    blocks := [];
    var off, len := offset, length;
    while len > 0
      invariant 0 <= len && off + len == offset + length
      invariant blocks == [] ==> off == offset
      invariant blocks != [] ==> off > offset
      invariant blocks != [] ==> Tiles(e.plainBS, offset, off - offset, blocks)
      invariant blocks != [] && len > 0 ==>
                  var b := blocks[|blocks| - 1]; b.skip + b.length == e.plainBS
    {
      QuotFacts(off, e.plainBS);
      var blockNo := e.PlainOffToBlockNo(off);
      var skip := off - e.BlockNoToPlainOff(blockNo);
      var b := IntraBlock(blockNo, skip, Min(len, e.plainBS - skip));
      if blocks == [] {
        TilesStart(e.plainBS, off, b);
      } else {
        TilesExtend(e.plainBS, offset, off - offset, blocks, b);
      }
      assert [] + [b] == [b];
      blocks := blocks + [b];
      off := off + b.length;
      len := len - b.length;
    }
  }

  /** Parts that tile a range cover exactly the blocks that hold it. */
  lemma TilesCover(e: Enc, off: nat, len: nat, blocks: seq<IntraBlock>)
    requires e.plainBS > 0 && Tiles(e.plainBS, off, len, blocks)
    ensures var first, last := blocks[0].blockNo, blocks[|blocks| - 1].blockNo;
            first <= last && Covers(e, off, len, first, last) && first == Quot(off, e.plainBS)
  {
    QuotUnique(off, e.plainBS, blocks[0].blockNo);
    TimesMono(blocks[0].blockNo, blocks[|blocks| - 1].blockNo, e.plainBS);
  }

  /** Where the data of one part of a write lies. */
  lemma TileInData(e: Enc, off: nat, len: nat, blocks: seq<IntraBlock>, i: nat)
    requires e.plainBS > 0 && Tiles(e.plainBS, off, len, blocks) && i < |blocks|
    ensures var b := blocks[i];
            var at := Times(b.blockNo, e.plainBS) + b.skip;
            && off <= at && at + b.length <= off + len && b.skip + b.length <= e.plainBS
            && (b.skip == 0 || at == off)
            && (b.skip + b.length == e.plainBS || at + b.length == off + len)
            && (i + 1 < |blocks| ==> at + b.length == Times(blocks[i + 1].blockNo, e.plainBS) + blocks[i + 1].skip)
  {
    TimesMono(blocks[0].blockNo, blocks[i].blockNo, e.plainBS);
    TimesMono(blocks[i].blockNo, blocks[|blocks| - 1].blockNo, e.plainBS);
    if i + 1 < |blocks| {
      assert blocks[i + 1].blockNo == blocks[i].blockNo + 1;
    }
  }

  lemma LastTile(e: Enc, off: nat, len: nat, blocks: seq<IntraBlock>)
    requires e.plainBS > 0 && Tiles(e.plainBS, off, len, blocks)
    ensures var first, last := blocks[0].blockNo, blocks[|blocks| - 1].blockNo;
            && first <= last && Covers(e, off, len, first, last)
            && first == Quot(off, e.plainBS) && last == Quot(off + len - 1, e.plainBS)
    ensures forall i :: 0 <= i < |blocks| ==>
              e.BlockNoToCipherOff(blocks[i].blockNo) <= e.BlockNoToCipherOff(blocks[|blocks| - 1].blockNo)
  {
    TilesCover(e, off, len, blocks);
    var last := blocks[|blocks| - 1].blockNo;
    QuotUnique(off + len - 1, e.plainBS, last);
    forall i | 0 <= i < |blocks|
      ensures e.BlockNoToCipherOff(blocks[i].blockNo) <= e.BlockNoToCipherOff(last)
    {
      TimesMono(blocks[i].blockNo, last, e.CipherBS());
    }
  }

  /** The ciphertext range of all the blocks of a request, whole blocks. */
  function JointCiphertextRange(e: Enc, blocks: seq<IntraBlock>): (r: (nat, nat))
    requires |blocks| > 0 && blocks[0].blockNo <= blocks[|blocks| - 1].blockNo
  {
    var offset := e.BlockNoToCipherOff(blocks[0].blockNo);
    TimesMono(blocks[0].blockNo, blocks[|blocks| - 1].blockNo, e.CipherBS());
    (offset, e.BlockNoToCipherOff(blocks[|blocks| - 1].blockNo) + e.CipherBS() - offset)
  }

  // --- request buffers ---------------------------------------------------------------

  /** The sizes of the pooled request buffers: one block more than the largest aligned request. */
  function CReqSize(e: Enc): nat requires e.plainBS > 0 { Times(Quot(e.maxKernelWrite, e.plainBS), e.CipherBS()) + e.CipherBS() }
  function PReqSize(e: Enc): nat { e.maxKernelWrite + e.plainBS }

  /** The capacity of a buffer with `len` bytes in it after n more were written: it grows when they do not fit.
      A pooled buffer that has grown cannot be put back; the pool panics on any other capacity than its own. */
  function CapAfter(cap: nat, len: nat, n: nat): nat { if len + n <= cap then cap else 2 * cap + n }

  /** No permitted request touches more blocks than the pooled buffers hold. */
  lemma RequestFitsBuffers(e: Enc, off: nat, len: nat, blocks: seq<IntraBlock>)
    requires e.plainBS > 0 && Rem(e.maxKernelWrite, e.plainBS) == 0
    requires Tiles(e.plainBS, off, len, blocks) && len <= e.maxKernelWrite
    ensures |blocks| <= Quot(e.maxKernelWrite, e.plainBS) + 1
    ensures Times(|blocks|, e.CipherBS()) <= CReqSize(e)
    ensures Times(|blocks|, e.plainBS) <= PReqSize(e)
  {
    var q, n := Quot(e.maxKernelWrite, e.plainBS), |blocks|;
    QuotFacts(e.maxKernelWrite, e.plainBS);
    TimesAdd(blocks[0].blockNo, n - 1, e.plainBS);
    if n > q + 1 {
      TimesMono(q + 1, n - 1, e.plainBS);
      assert false;
    }
    TimesMono(n, q + 1, e.plainBS);
    TimesMono(n, q + 1, e.CipherBS());
  }

  // --- nonces ---------------------------------------------------------------------

  /** A random nonce. The all-zero nonce marks a hole and is taken never to occur. */
  method RandomNonce(e: Enc) returns (nonce: Bytes)
    requires e.ivLen > 0
    ensures |nonce| == e.ivLen && nonce != Zeros(e.ivLen)
  {
    ghost var one := seq(e.ivLen, _ => 1);
    assert one[0] != Zeros(e.ivLen)[0];
    nonce :| |nonce| == e.ivLen && nonce != Zeros(e.ivLen);
  }

  // --- block sequences --------------------------------------------------------------

  ghost predicate SealedAs(e: Enc, c: Bytes, p: Bytes, blockNo: nat, id: Bytes) {
    e.DecryptBlock(c, blockNo, id) == Some(p) && |c| == |p| + e.BlockOverhead()
  }

  method EncryptBlock(e: Enc, plaintext: Bytes, blockNo: nat, id: Bytes) returns (c: Bytes)
    requires e.Valid() && plaintext != []
    ensures SealedAs(e, c, plaintext, blockNo, id)
  {
    var nonce := RandomNonce(e);
    c := e.EncryptBlockNonce(plaintext, blockNo, id, nonce);
    e.BlockRoundTrip(plaintext, blockNo, id, nonce);
  }

  /** Seals in[low..high] into the same slots of `out`; block number `first` belongs to slot 0. */
  method DoEncryptBlocks(e: Enc, plaintextBlocks: seq<Bytes>, out: array<Bytes>, low: nat, high: nat, first: nat, id: Bytes)
    requires e.Valid() && low <= high <= |plaintextBlocks| == out.Length
    requires forall i :: low <= i < high ==> plaintextBlocks[i] != []
    modifies out
    ensures forall i :: low <= i < high ==> SealedAs(e, out[i], plaintextBlocks[i], first + i, id)
    ensures forall i :: 0 <= i < out.Length && !(low <= i < high) ==> out[i] == old(out[i])
  {
    for n := low to high
      invariant forall i :: low <= i < n ==> SealedAs(e, out[i], plaintextBlocks[i], first + i, id)
      invariant forall i :: 0 <= i < out.Length && !(low <= i < n) ==> out[i] == old(out[i])
    {
      out[n] := EncryptBlock(e, plaintextBlocks[n], first + n, id);
    }
  }

  const EncryptMaxSplit := 2

  /** Splits the blocks into groups that are sealed independently; the last group takes the remainder. */
  method EncryptBlocksParallel(e: Enc, plaintextBlocks: seq<Bytes>, out: array<Bytes>, numCPU: nat, first: nat, id: Bytes)
    requires e.Valid() && numCPU > 0 && |plaintextBlocks| == out.Length
    requires forall i :: 0 <= i < |plaintextBlocks| ==> plaintextBlocks[i] != []
    modifies out
    ensures forall i :: 0 <= i < out.Length ==> SealedAs(e, out[i], plaintextBlocks[i], first + i, id)
  {
    var ncpu := if numCPU > EncryptMaxSplit then EncryptMaxSplit else numCPU;
    var groupSize := |plaintextBlocks| / ncpu;
    assert ncpu * groupSize <= |plaintextBlocks|;
    ghost var done := 0;
    for i := 0 to ncpu
      invariant done == if i == ncpu then |plaintextBlocks| else i * groupSize
      invariant forall j :: 0 <= j < done ==> SealedAs(e, out[j], plaintextBlocks[j], first + j, id)
    {
      var low := i * groupSize;
      var high := if i == ncpu - 1 then |plaintextBlocks| else (i + 1) * groupSize;
      DoEncryptBlocks(e, plaintextBlocks, out, low, high, first, id);
      done := high;
    }
  }

  lemma ChunkAppend(s: Bytes, v: Bytes, size: nat, n: nat, k: nat)
    requires |s| == Times(n, size) && |v| <= size && k <= n
    ensures k < n ==> Chunk(s + v, size, k) == Chunk(s, size, k)
    ensures k == n ==> Chunk(s + v, size, k) == v
  {
    TimesMono(k, n, size);
    SliceAppend(s, v, Times(k, size), Times(k, size) + size);
  }

  /** Appends the sealed blocks one after the other, as the source does into a pooled buffer. */
  method JoinBlocks(blocks: seq<Bytes>, size: nat, pool: nat) returns (ct: Bytes, cap: nat)
    requires blocks != []
    requires forall i :: 0 <= i < |blocks| - 1 ==> |blocks[i]| == size
    requires |blocks[|blocks| - 1]| <= size
    ensures |ct| == Times(|blocks| - 1, size) + |blocks[|blocks| - 1]|
    ensures cap == pool <==> |ct| <= pool
    ensures forall k: nat {:trigger Chunk(ct, size, k)} {:trigger blocks[k]} :: k < |blocks| ==> Chunk(ct, size, k) == blocks[k]
  {
    ct, cap := [], pool;
    var i := 0;
    while i < |blocks|
      invariant 0 <= i <= |blocks| && (cap == pool <==> |ct| <= pool) && cap >= pool
      invariant i < |blocks| ==> |ct| == Times(i, size)
      invariant i == |blocks| ==> |ct| == Times(i - 1, size) + |blocks[i - 1]|
      invariant forall k: nat {:trigger Chunk(ct, size, k)} {:trigger blocks[k]} :: k < i ==> Chunk(ct, size, k) == blocks[k]
    {
      forall k: nat | k <= i
        ensures Chunk(ct + blocks[i], size, k) == blocks[k]
      {
        ChunkAppend(ct, blocks[i], size, i, k);
      }
      cap := CapAfter(cap, |ct|, |blocks[i]|);
      ct := ct + blocks[i];
      i := i + 1;
    }
  }

  /** Seals consecutive blocks, all full but perhaps the last, into one ciphertext. */
  method EncryptBlocks(e: Enc, plaintextBlocks: seq<Bytes>, first: nat, id: Bytes, numCPU: nat) returns (ct: Bytes, cap: nat)
    requires e.Valid() && plaintextBlocks != []
    requires forall i :: 0 <= i < |plaintextBlocks| ==> 0 < |plaintextBlocks[i]| <= e.plainBS
    requires forall i :: 0 <= i < |plaintextBlocks| - 1 ==> |plaintextBlocks[i]| == e.plainBS
    ensures var n := |plaintextBlocks|;
            |ct| == Times(n - 1, e.CipherBS()) + |plaintextBlocks[n - 1]| + e.BlockOverhead()
    ensures cap == CReqSize(e) <==> |ct| <= CReqSize(e)
    ensures forall i: nat {:trigger Chunk(ct, e.CipherBS(), i)} {:trigger plaintextBlocks[i]} :: i < |plaintextBlocks| ==>
              e.DecryptBlock(Chunk(ct, e.CipherBS(), i), first + i, id) == Some(plaintextBlocks[i])
  {
    hide Times, Chunk, Enc.DecryptBlock;
    var n := |plaintextBlocks|;
    var out := new Bytes[n](_ => []);
    if n >= 32 && numCPU >= 2 {
      EncryptBlocksParallel(e, plaintextBlocks, out, numCPU, first, id);
    } else {
      DoEncryptBlocks(e, plaintextBlocks, out, 0, n, first, id);
    }
    assert forall i :: 0 <= i < n ==> SealedAs(e, out[..][i], plaintextBlocks[i], first + i, id);
    ct, cap := JoinBlocks(out[..], e.CipherBS(), CReqSize(e));
  }

  /** `parts` are the blocks first..last of the plaintext `p`, all full except perhaps the last. */
  ghost predicate NewBlocks(e: Enc, p: Bytes, first: nat, last: nat, parts: seq<Bytes>) {
    && |parts| == last - first + 1
    && forall i :: 0 <= i < |parts| ==>
         && parts[i] == Chunk(p, e.plainBS, first + i)
         && 0 < |parts[i]| <= e.plainBS
         && (i < |parts| - 1 ==> |parts[i]| == e.plainBS)
  }

  /** Sealing the new blocks one by one seals the range of blocks. */
  lemma SealedParts(e: Enc, ct: Bytes, id: Bytes, p: Bytes, first: nat, last: nat, parts: seq<Bytes>)
    requires e.plainBS > 0 && first <= last && NewBlocks(e, p, first, last, parts)
    requires |ct| == Times(|parts| - 1, e.CipherBS()) + |parts[|parts| - 1]| + e.BlockOverhead()
    requires forall i: nat {:trigger parts[i]} :: i < |parts| ==>
               e.DecryptBlock(Chunk(ct, e.CipherBS(), i), first + i, id) == Some(parts[i])
    ensures SealsBlocks(e, ct, id, p, first, last)
  {
    forall k: nat | first <= k <= last
      ensures e.DecryptBlock(Chunk(ct, e.CipherBS(), k - first), k, id) == Some(Chunk(p, e.plainBS, k))
    {
      assert parts[k - first] == Chunk(p, e.plainBS, k);
    }
  }

  lemma BehindBlock(e: Enc, out: Bytes, ct: Bytes, first: nat, id: Bytes)
    requires e.plainBS > 0 && ct != []
    ensures var n := Min(e.CipherBS(), |ct|);
            Behind(out, e.DecryptAll(ct, first, id))
            == match e.DecryptBlock(ct[..n], first, id)
               case None => None
               case Some(p) => Behind(out + p, e.DecryptAll(ct[n..], first + 1, id))
  {
    var n := Min(e.CipherBS(), |ct|);
    var p, rest := e.DecryptBlock(ct[..n], first, id), e.DecryptAll(ct[n..], first + 1, id);
    if p.Some? && rest.Some? {
      assert out + (p.value + rest.value) == (out + p.value) + rest.value;
    }
  }

  lemma NothingDecrypted(e: Enc, first: nat, id: Bytes)
    requires e.plainBS > 0
    ensures e.DecryptAll([], first, id) == Some([])
  {
  }

  /** Opens a block sequence. Fails exactly when some block does not open. */
  method DecryptBlocks(e: Enc, ciphertext: Bytes, first: nat, id: Bytes) returns (plaintext: Option<Bytes>, cap: nat)
    requires e.plainBS > 0
    ensures plaintext == e.DecryptAll(ciphertext, first, id)
    ensures plaintext.Some? ==> (cap == PReqSize(e) <==> |plaintext.value| <= PReqSize(e))
  {
    hide Enc.DecryptBlock, Enc.DecryptAll;
    var rest, out, blockNo := ciphertext, [], first;
    cap := PReqSize(e);
    ghost var all := e.DecryptAll(ciphertext, first, id);
    BehindNothing(all);
    while rest != []
      invariant Behind(out, e.DecryptAll(rest, blockNo, id)) == all
      invariant (cap == PReqSize(e) <==> |out| <= PReqSize(e)) && cap >= PReqSize(e)
      decreases |rest|
    {
      var n := Min(e.CipherBS(), |rest|);
      var p := e.DecryptBlock(rest[..n], blockNo, id);
      BehindBlock(e, out, rest, blockNo, id);
      if p.None? {
        return None, cap;
      }
      cap := CapAfter(cap, |out|, |p.value|);
      rest, out, blockNo := rest[n..], out + p.value, blockNo + 1;
    }
    NothingDecrypted(e, blockNo, id);
    assert out + [] == out;
    return Some(out), cap;
  }

  /** Copies newData over oldData at `offset`; a gap between them reads as zeros. */
  method MergeBlocks(e: Enc, oldData: Bytes, newData: Bytes, offset: nat) returns (merged: Bytes)
    requires |oldData| <= e.plainBS && offset + |newData| <= e.plainBS
    ensures merged == Splice(oldData, offset, newData)
  {
    if |oldData| == 0 && offset == 0 {
      assert Splice(oldData, offset, newData) == newData;
      return newData;
    }
    var out := new Byte[e.plainBS](_ => 0);
    forall i | 0 <= i < |oldData| { out[i] := oldData[i]; }
    forall i | 0 <= i < |newData| { out[offset + i] := newData[i]; }
    merged := out[..Max(|oldData|, offset + |newData|)];
    assert merged == Splice(oldData, offset, newData);
  }
}
