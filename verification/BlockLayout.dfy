/** What the block geometry guarantees: the two size translations, reading a range of blocks,
    and overwriting a range of blocks, all over the plaintext that a body stores. */
module BlockLayout {
  import opened SymbolicArith
  import opened ByteSeqs
  import opened ContentEnc

  // --- sizes ------------------------------------------------------------------

  /** A plaintext of n bytes ends in block NumBlocks(n) - 1, and so does the body that stores it. */
  lemma BlockBounds(e: Enc, n: nat)
    requires e.plainBS > 0
    ensures var nb := e.NumBlocks(n);
            && (n > 0 ==> nb > 0 && Times(nb - 1, e.plainBS) < n)
            && n <= Times(nb, e.plainBS)
            && (n > 0 ==> Times(nb - 1, e.CipherBS()) + e.BlockOverhead() < e.BodyLen(n))
            && (n > 0 ==> e.BodyLen(n) - Times(nb - 1, e.CipherBS()) == n - Times(nb - 1, e.plainBS) + e.BlockOverhead())
            && e.BodyLen(n) <= Times(nb, e.CipherBS())
  {
    var nb := e.NumBlocks(n);
    TimesSplit(nb, e.plainBS, e.BlockOverhead());
    if n > 0 {
      QuotFacts(n - 1, e.plainBS);
      TimesSplit(nb - 1, e.plainBS, e.BlockOverhead());
    }
  }

  lemma NumBlocksUnique(e: Enc, n: nat, nb: nat)
    requires e.plainBS > 0 && nb > 0
    requires Times(nb - 1, e.plainBS) < n <= Times(nb, e.plainBS)
    ensures e.NumBlocks(n) == nb
  {
    QuotUnique(n - 1, e.plainBS, nb - 1);
  }

  lemma NumBlocksMono(e: Enc, a: nat, b: nat)
    requires e.plainBS > 0 && a <= b
    ensures e.NumBlocks(a) <= e.NumBlocks(b) && e.BodyLen(a) <= e.BodyLen(b)
  {
    if a > 0 {
      QuotMono(a - 1, b - 1, e.plainBS);
    }
    TimesMono(e.NumBlocks(a), e.NumBlocks(b), e.BlockOverhead());
  }

  lemma BodyLenIsCipherSize(e: Enc, n: nat)
    requires e.plainBS > 0 && n > 0
    ensures e.PlainSizeToCipherSize(n) == HeaderLen + e.BodyLen(n)
  {
    QuotFacts(n - 1, e.plainBS);
    TimesSplit(Quot(n - 1, e.plainBS), e.plainBS, e.BlockOverhead());
  }

  /** An incomplete last block is measured as if it held one byte of plaintext. */
  lemma PadLastBlock(e: Enc, nb: nat, last: nat)
    requires e.plainBS > 0 && nb > 0 && 0 < last <= e.CipherBS()
    ensures e.PaddedCipherSize(HeaderLen + Times(nb - 1, e.CipherBS()) + last)
         == HeaderLen + Times(nb - 1, e.CipherBS()) + if last <= e.BlockOverhead() then e.BlockOverhead() + 1 else last
  {
    var c := e.CipherBS();
    QuotUnique(Times(nb - 1, c) + last, c, if last < c then nb - 1 else nb);
  }

  /** Measuring a body of nb blocks whose last block holds `last` bytes of ciphertext. */
  lemma MeasureBody(e: Enc, nb: nat, last: nat)
    requires e.plainBS > 0 && nb > 0 && 0 < last <= e.CipherBS()
    ensures var size := HeaderLen + Times(nb - 1, e.CipherBS()) + last;
            var plain := if last <= e.BlockOverhead() then 1 else last - e.BlockOverhead();
            && e.TotalOverhead(e.PaddedCipherSize(size)) <= e.PaddedCipherSize(size)
            && e.CipherSizeToPlainSize(size) == Times(nb - 1, e.plainBS) + plain
  {
    PadLastBlock(e, nb, last);
    var padded := e.PaddedCipherSize(HeaderLen + Times(nb - 1, e.CipherBS()) + last);
    QuotUnique(padded - 1 - HeaderLen, e.CipherBS(), nb - 1);
    TimesSplit(nb - 1, e.plainBS, e.BlockOverhead());
  }

  /** Splits any size past the header into whole blocks and the length of the last one. */
  lemma SplitSize(e: Enc, size: nat) returns (nb: nat, last: nat)
    requires e.plainBS > 0 && size > HeaderLen
    ensures nb > 0 && 0 < last <= e.CipherBS()
    ensures size == HeaderLen + Times(nb - 1, e.CipherBS()) + last
  {
    QuotFacts(size - 1 - HeaderLen, e.CipherBS());
    nb := Quot(size - 1 - HeaderLen, e.CipherBS()) + 1;
    last := size - HeaderLen - Times(nb - 1, e.CipherBS());
  }

  /** The reported size of a well-formed file is the length of its plaintext. */
  lemma BodySize(e: Enc, n: nat)
    requires e.plainBS > 0
    ensures e.CipherSizeToPlainSize(HeaderLen + e.BodyLen(n)) == n
  {
    if n > 0 {
      BlockBounds(e, n);
      MeasureBody(e, e.NumBlocks(n), e.BodyLen(n) - Times(e.NumBlocks(n) - 1, e.CipherBS()));
    }
  }

  /** Translating a plaintext size there and back changes nothing. */
  lemma SizeRoundTrip(e: Enc, n: nat)
    requires e.plainBS > 0
    ensures e.CipherSizeToPlainSize(e.PlainSizeToCipherSize(n)) == n
  {
    if n > 0 {
      BodyLenIsCipherSize(e, n);
      BodySize(e, n);
    }
  }

  /** The "overhead exceeds the file" exit is never taken, whatever size the file has. */
  lemma OverheadExitUnreachable(e: Enc, size: nat)
    requires e.plainBS > 0 && size > HeaderLen
    ensures e.TotalOverhead(e.PaddedCipherSize(size)) <= e.PaddedCipherSize(size)
  {
    var nb, last := SplitSize(e, size);
    MeasureBody(e, nb, last);
  }

  lemma PlainSizeMonotone(e: Enc, a: nat, b: nat)
    requires e.plainBS > 0 && a < b
    ensures e.PlainSizeToCipherSize(a) < e.PlainSizeToCipherSize(b)
  {
    BodyLenIsCipherSize(e, b);
    if a > 0 {
      BodyLenIsCipherSize(e, a);
      QuotMono(a - 1, b - 1, e.plainBS);
      TimesMono(e.NumBlocks(a), e.NumBlocks(b), e.BlockOverhead());
    }
  }

  /** Monotone over all ciphertext sizes, those no plaintext has included. */
  lemma CipherSizeMonotone(e: Enc, a: nat, b: nat)
    requires e.plainBS > 0 && a <= b
    ensures e.CipherSizeToPlainSize(a) <= e.CipherSizeToPlainSize(b)
  {
    hide Times;
    if a > HeaderLen {
      var na, la := SplitSize(e, a);
      var nb, lb := SplitSize(e, b);
      if nb < na {
        TimesMono(nb - 1, na - 1, e.CipherBS());
        assert false;
      }
      TimesMono(na - 1, nb - 1, e.plainBS);
      MeasureBody(e, na, la);
      MeasureBody(e, nb, lb);
    }
  }

  // --- reading blocks -----------------------------------------------------------

  lemma ChunkFromSlice(s: Bytes, size: nat, lo: nat, hi: nat)
    requires lo < hi && size > 0
    requires Times(lo, size) < |s|
    ensures Times(lo, size) + size == Times(lo + 1, size) <= Times(hi, size)
    ensures var t := Slice(s, Times(lo, size), Times(hi, size));
            var n := Min(size, |t|);
            && t != []
            && t[..n] == Chunk(s, size, lo)
            && t[n..] == Slice(s, Times(lo + 1, size), Times(hi, size))
  {
    TimesMono(lo, hi, size);
  }

  lemma DecryptStep(e: Enc, body: Bytes, id: Bytes, p: Bytes, lo: nat, hi: nat)
    requires e.plainBS > 0 && lo < hi
    requires Times(lo, e.plainBS) < |p| && Times(lo, e.CipherBS()) < |body|
    requires e.DecryptBlock(Chunk(body, e.CipherBS(), lo), lo, id) == Some(Chunk(p, e.plainBS, lo))
    requires Times(lo + 1, e.CipherBS()) <= Times(hi, e.CipherBS()) && Times(lo + 1, e.plainBS) <= Times(hi, e.plainBS)
    requires e.DecryptAll(Slice(body, Times(lo + 1, e.CipherBS()), Times(hi, e.CipherBS())), lo + 1, id)
          == Some(Slice(p, Times(lo + 1, e.plainBS), Times(hi, e.plainBS)))
    ensures e.DecryptAll(Slice(body, Times(lo, e.CipherBS()), Times(hi, e.CipherBS())), lo, id)
         == Some(Slice(p, Times(lo, e.plainBS), Times(hi, e.plainBS)))
  {
    hide Times, Slice, Chunk, Enc.DecryptBlock;
    ChunkFromSlice(body, e.CipherBS(), lo, hi);
    ChunkFromSlice(p, e.plainBS, lo, hi);
    var u := Slice(p, Times(lo, e.plainBS), Times(hi, e.plainBS));
    assert u == u[..Min(e.plainBS, |u|)] + u[Min(e.plainBS, |u|)..];
  }

  /** Decrypting the blocks lo..hi-1 of a body, as far as they exist, gives exactly the plaintext they store. */
  lemma {:induction false} DecryptRange(e: Enc, body: Bytes, id: Bytes, p: Bytes, lo: nat, hi: nat)
    requires e.plainBS > 0 && e.Encodes(body, id, p) && lo <= hi
    ensures Times(lo, e.CipherBS()) <= Times(hi, e.CipherBS()) && Times(lo, e.plainBS) <= Times(hi, e.plainBS)
    ensures e.DecryptAll(Slice(body, Times(lo, e.CipherBS()), Times(hi, e.CipherBS())), lo, id)
         == Some(Slice(p, Times(lo, e.plainBS), Times(hi, e.plainBS)))
    decreases hi - lo
  {
    hide Times, Quot, Chunk, Enc.DecryptBlock;
    TimesMono(lo, hi, e.CipherBS());
    TimesMono(lo, hi, e.plainBS);
    if |p| <= Times(lo, e.plainBS) {
      BlocksUpTo(e, |p|, lo);
      assert Slice(body, Times(lo, e.CipherBS()), Times(hi, e.CipherBS())) == [];
      assert Slice(p, Times(lo, e.plainBS), Times(hi, e.plainBS)) == [];
    } else if lo == hi {
      assert Slice(body, Times(lo, e.CipherBS()), Times(hi, e.CipherBS())) == [];
      assert Slice(p, Times(lo, e.plainBS), Times(hi, e.plainBS)) == [];
    } else {
      LongerThan(e, |p|, lo);
      DecryptRange(e, body, id, p, lo + 1, hi);
      DecryptStep(e, body, id, p, lo, hi);
    }
  }

  /** The blocks determine the plaintext: a body stores at most one. */
  lemma EncodesUnique(e: Enc, body: Bytes, id: Bytes, p: Bytes, q: Bytes)
    requires e.Valid() && e.Encodes(body, id, p) && e.Encodes(body, id, q)
    ensures p == q
  {
    hide Enc.DecryptAll, Enc.DecryptBlock;
    BodySize(e, |p|);
    BodySize(e, |q|);
    BlockBounds(e, |p|);
    DecryptRange(e, body, id, p, 0, e.NumBlocks(|p|));
    DecryptRange(e, body, id, q, 0, e.NumBlocks(|p|));
  }

  // --- writing blocks -----------------------------------------------------------

  /** A write at `off` may go straight to the blocks: it starts no later than the block in which
      the file ends, or the file ends on a block boundary and the gap becomes a hole. */
  predicate NoPadNeeded(e: Enc, size: nat, off: nat)
    requires e.plainBS > 0
  {
    Quot(off, e.plainBS) <= Quot(size, e.plainBS) || Rem(size, e.plainBS) == 0
  }

  /** The same condition on the number of the first block that is written. */
  predicate Reachable(e: Enc, n: nat, first: nat)
    requires e.plainBS > 0
  {
    Times(first, e.plainBS) <= n || n == Times(e.NumBlocks(n), e.plainBS)
  }

  lemma NoPadIsReachable(e: Enc, n: nat, off: nat)
    requires e.plainBS > 0
    ensures NoPadNeeded(e, n, off) <==> Reachable(e, n, Quot(off, e.plainBS))
  {
    QuotFacts(n, e.plainBS);
    var first, q, nb := Quot(off, e.plainBS), Quot(n, e.plainBS), e.NumBlocks(n);
    if first <= q {
      TimesMono(first, q, e.plainBS);
    } else {
      TimesMono(q, first, e.plainBS);
    }
    if Rem(n, e.plainBS) == 0 && n > 0 {
      NumBlocksUnique(e, n, q);
    }
    if n == Times(nb, e.plainBS) {
      QuotUnique(n, e.plainBS, nb);
    }
  }

  /** `ct` seals the plaintext blocks first, first+1, ... of `p`, up to and including block `last`. */
  ghost predicate SealsBlocks(e: Enc, ct: Bytes, id: Bytes, p: Bytes, first: nat, last: nat)
    requires e.plainBS > 0 && first <= last
  {
    && |ct| == Times(last - first, e.CipherBS()) + |Chunk(p, e.plainBS, last)| + e.BlockOverhead()
    && forall k: nat {:trigger Chunk(p, e.plainBS, k)} :: first <= k <= last ==>
         e.DecryptBlock(Chunk(ct, e.CipherBS(), k - first), k, id) == Some(Chunk(p, e.plainBS, k))
  }

  /** The blocks first..last are the ones that hold the byte range [off, off + len). */
  predicate Covers(e: Enc, off: nat, len: nat, first: nat, last: nat)
    requires e.plainBS > 0
  {
    && len > 0
    && Times(first, e.plainBS) <= off < Times(first, e.plainBS) + e.plainBS
    && Times(last, e.plainBS) < off + len <= Times(last, e.plainBS) + e.plainBS
  }

  lemma RangeBlocks(e: Enc, off: nat, len: nat)
    requires e.plainBS > 0 && len > 0
    ensures Quot(off, e.plainBS) <= Quot(off + len - 1, e.plainBS)
    ensures Covers(e, off, len, Quot(off, e.plainBS), Quot(off + len - 1, e.plainBS))
  {
    QuotFacts(off, e.plainBS);
    QuotFacts(off + len - 1, e.plainBS);
    QuotMono(off, off + len - 1, e.plainBS);
  }

  lemma LongerThan(e: Enc, n: nat, k: nat)
    requires e.plainBS > 0 && n > Times(k, e.plainBS)
    ensures k < e.NumBlocks(n) && Times(k, e.CipherBS()) < e.BodyLen(n)
  {
    BlockBounds(e, n);
    var nb := e.NumBlocks(n);
    if nb <= k {
      TimesMono(nb, k, e.plainBS);
    }
    TimesMono(k, nb - 1, e.CipherBS());
  }

  /** The length of the body after a write that ends at `end`, in block `last`. */
  lemma WrittenLength(e: Enc, n: nat, end: nat, last: nat)
    requires e.plainBS > 0
    requires Times(last, e.plainBS) < end <= Times(last, e.plainBS) + e.plainBS
    ensures var n' := Max(n, end);
            var tail := Min(n' - Times(last, e.plainBS), e.plainBS);
            Max(e.BodyLen(n), Times(last, e.CipherBS()) + tail + e.BlockOverhead()) == e.BodyLen(n')
    ensures n <= Times(last, e.plainBS) + e.plainBS ==>
              e.NumBlocks(Max(n, end)) == last + 1
              && e.BodyLen(n) <= Times(last, e.CipherBS()) + Max(n, end) - Times(last, e.plainBS) + e.BlockOverhead()
    ensures n > Times(last, e.plainBS) + e.plainBS ==> Times(last, e.CipherBS()) + e.CipherBS() < e.BodyLen(n)
  {
    var n' := Max(n, end);
    if n <= Times(last, e.plainBS) + e.plainBS {
      NumBlocksUnique(e, n', last + 1);
      NumBlocksMono(e, n, n');
      BlockBounds(e, n');
    } else {
      LongerThan(e, n, last + 1);
    }
  }

  /** A block in front of a write that needs no padding, and inside the file, is full. */
  lemma FullBlock(e: Enc, n: nat, first: nat, k: nat)
    requires e.plainBS > 0 && Reachable(e, n, first)
    requires k < first && Times(k, e.plainBS) < n
    ensures k < e.NumBlocks(n)
    ensures Times(k, e.plainBS) + e.plainBS <= n && Times(k, e.CipherBS()) + e.CipherBS() <= e.BodyLen(n)
  {
    var nb := e.NumBlocks(n);
    LongerThan(e, n, k);
    TimesMono(k, first, e.plainBS);
    TimesMono(k, nb, e.plainBS);
    BlockBounds(e, n);
    if k + 1 < nb {
      TimesMono(k, nb - 1, e.CipherBS());
    }
  }

  /** Blocks in front of the write and inside the file are untouched. */
  lemma {:induction false} KeptBefore(e: Enc, body: Bytes, p: Bytes, off: nat, data: Bytes, first: nat, ct: Bytes, k: nat)
    requires e.plainBS > 0 && |body| == e.BodyLen(|p|) && Reachable(e, |p|, first)
    requires Times(first, e.plainBS) <= off && k < first && Times(k, e.plainBS) < |p|
    ensures k < e.NumBlocks(|p|)
    ensures Chunk(Splice(body, Times(first, e.CipherBS()), ct), e.CipherBS(), k) == Chunk(body, e.CipherBS(), k)
    ensures Chunk(Splice(p, off, data), e.plainBS, k) == Chunk(p, e.plainBS, k)
  {
    hide Times, Splice;
    var s, c := e.plainBS, e.CipherBS();
    FullBlock(e, |p|, first, k);
    TimesMono(k, first, s);
    TimesMono(k, first, c);
    SliceBefore(body, Times(first, c), ct, Times(k, c), Times(k, c) + c);
    SliceBefore(p, off, data, Times(k, s), Times(k, s) + s);
  }

  /** Blocks between the old end of the file and the write become holes. */
  lemma HoleBefore(e: Enc, body: Bytes, p: Bytes, off: nat, data: Bytes, first: nat, ct: Bytes, k: nat)
    requires e.plainBS > 0 && |body| == e.BodyLen(|p|)
    requires Times(first, e.plainBS) <= off && k < first && |p| <= Times(k, e.plainBS)
    ensures Chunk(Splice(body, Times(first, e.CipherBS()), ct), e.CipherBS(), k) == Zeros(e.CipherBS())
    ensures Chunk(Splice(p, off, data), e.plainBS, k) == Zeros(e.plainBS)
  {
    var s, c := e.plainBS, e.CipherBS();
    TimesMono(k, first, s);
    TimesMono(k, first, c);
    BlocksUpTo(e, |p|, k);
    SliceGap(body, Times(first, c), ct, Times(k, c), Times(k, c) + c);
    SliceGap(p, off, data, Times(k, s), Times(k, s) + s);
  }

  lemma BlocksUpTo(e: Enc, n: nat, k: nat)
    requires e.plainBS > 0 && n <= Times(k, e.plainBS)
    ensures e.NumBlocks(n) <= k && e.BodyLen(n) <= Times(k, e.CipherBS())
  {
    BlockBounds(e, n);
    var nb := e.NumBlocks(n);
    if nb > k {
      TimesMono(k, nb - 1, e.plainBS);
    } else {
      TimesMono(nb, k, e.CipherBS());
    }
  }

  /** Blocks under the write hold the sealed blocks. */
  lemma {:induction false} WrittenChunk(s: Bytes, size: nat, first: nat, ct: Bytes, k: nat)
    requires first <= k
    requires Times(k, size) + size <= Times(first, size) + |ct| || |s| <= Times(first, size) + |ct|
    ensures Chunk(Splice(s, Times(first, size), ct), size, k) == Chunk(ct, size, k - first)
  {
    TimesAdd(k - first, first, size);
    SliceInside(s, Times(first, size), ct, Times(k, size), Times(k, size) + size);
  }

  /** The sealed blocks reach past the old body, or past the end of block k. */
  lemma WrittenReach(e: Enc, n: nat, end: nat, last: nat, cEnd: nat, k: nat)
    requires e.plainBS > 0 && k <= last
    requires Times(last, e.plainBS) < end <= Times(last, e.plainBS) + e.plainBS
    requires cEnd == Times(last, e.CipherBS()) + Min(Max(n, end) - Times(last, e.plainBS), e.plainBS) + e.BlockOverhead()
    ensures Times(k, e.CipherBS()) + e.CipherBS() <= cEnd || e.BodyLen(n) <= cEnd
  {
    WrittenLength(e, n, end, last);
    TimesMono(k, last, e.CipherBS());
  }

  /** Blocks behind the write keep their bytes. */
  lemma KeptAfter(e: Enc, body: Bytes, p: Bytes, off: nat, data: Bytes, at: nat, ct: Bytes, last: nat, k: nat)
    requires e.plainBS > 0 && last < k
    requires off + |data| <= Times(last, e.plainBS) + e.plainBS <= |p|
    requires at + |ct| == Times(last, e.CipherBS()) + e.CipherBS() <= |body|
    ensures Chunk(Splice(body, at, ct), e.CipherBS(), k) == Chunk(body, e.CipherBS(), k)
    ensures Chunk(Splice(p, off, data), e.plainBS, k) == Chunk(p, e.plainBS, k)
  {
    var s, c := e.plainBS, e.CipherBS();
    TimesMono(last, k, c);
    TimesMono(last, k, s);
    SliceAfter(body, at, ct, Times(k, c), Times(k, c) + c);
    SliceAfter(p, off, data, Times(k, s), Times(k, s) + s);
  }

  /** Where the sealed blocks of a write end in the body. */
  lemma WrittenEnd(e: Enc, p: Bytes, off: nat, data: Bytes, first: nat, last: nat, ct: Bytes)
    requires e.plainBS > 0 && first <= last && Covers(e, off, |data|, first, last)
    requires |ct| == Times(last - first, e.CipherBS()) + |Chunk(Splice(p, off, data), e.plainBS, last)| + e.BlockOverhead()
    ensures Times(first, e.CipherBS()) + |ct|
         == Times(last, e.CipherBS()) + Min(Max(|p|, off + |data|) - Times(last, e.plainBS), e.plainBS) + e.BlockOverhead()
  {
    TimesAdd(last - first, first, e.CipherBS());
  }

  lemma {:induction false} StoredBlock(e: Enc, body: Bytes, id: Bytes, p: Bytes, off: nat, data: Bytes, first: nat, last: nat, ct: Bytes, k: nat)
    requires e.Valid() && e.Encodes(body, id, p) && Reachable(e, |p|, first)
    requires first <= last && Covers(e, off, |data|, first, last)
    requires SealsBlocks(e, ct, id, Splice(p, off, data), first, last)
    requires k < e.NumBlocks(|Splice(p, off, data)|)
    ensures e.DecryptBlock(Chunk(Splice(body, Times(first, e.CipherBS()), ct), e.CipherBS(), k), k, id)
         == Some(Chunk(Splice(p, off, data), e.plainBS, k))
  {
    hide Times;
    if k < first {
      if Times(k, e.plainBS) < |p| {
        KeptBefore(e, body, p, off, data, first, ct, k);
      } else {
        HoleBefore(e, body, p, off, data, first, ct, k);
        assert |Zeros(e.CipherBS())| > 0;
      }
    } else if k <= last {
      WrittenEnd(e, p, off, data, first, last, ct);
      WrittenReach(e, |p|, off + |data|, last, Times(first, e.CipherBS()) + |ct|, k);
      WrittenChunk(body, e.CipherBS(), first, ct, k);
    } else {
      WrittenEnd(e, p, off, data, first, last, ct);
      WrittenLength(e, |p|, off + |data|, last);
      KeptAfter(e, body, p, off, data, Times(first, e.CipherBS()), ct, last, k);
    }
  }

  /** Overwriting the blocks first..last with sealed blocks of the new plaintext stores the new plaintext. */
  lemma OverwriteBlocks(e: Enc, body: Bytes, id: Bytes, p: Bytes, off: nat, data: Bytes, first: nat, last: nat, ct: Bytes)
    requires e.Valid() && e.Encodes(body, id, p) && Reachable(e, |p|, first)
    requires first <= last && Covers(e, off, |data|, first, last)
    requires SealsBlocks(e, ct, id, Splice(p, off, data), first, last)
    ensures e.Encodes(Splice(body, Times(first, e.CipherBS()), ct), id, Splice(p, off, data))
  {
    hide Times, Chunk, Reachable, Enc.DecryptBlock;
    var p', body' := Splice(p, off, data), Splice(body, Times(first, e.CipherBS()), ct);
    WrittenEnd(e, p, off, data, first, last, ct);
    WrittenLength(e, |p|, off + |data|, last);
    forall k: nat | k < e.NumBlocks(|p'|)
      ensures e.DecryptBlock(Chunk(body', e.CipherBS(), k), k, id) == Some(Chunk(p', e.plainBS, k))
    {
      StoredBlock(e, body, id, p, off, data, first, last, ct, k);
    }
  }

  // --- blocks out of place ---------------------------------------------------------

  /** One block that does not decrypt makes every range it lies in unreadable. */
  lemma {:induction false} BadBlock(e: Enc, body: Bytes, id: Bytes, lo: nat, hi: nat, j: nat)
    requires e.plainBS > 0 && lo <= j < hi && Times(j, e.CipherBS()) < |body|
    requires e.DecryptBlock(Chunk(body, e.CipherBS(), j), j, id) == None
    ensures Times(lo, e.CipherBS()) <= Times(hi, e.CipherBS())
    ensures e.DecryptAll(Slice(body, Times(lo, e.CipherBS()), Times(hi, e.CipherBS())), lo, id) == None
    decreases j - lo
  {
    hide Times, Slice, Chunk, Enc.DecryptBlock;
    TimesMono(lo, j, e.CipherBS());
    TimesMono(lo, hi, e.CipherBS());
    ChunkFromSlice(body, e.CipherBS(), lo, hi);
    if lo < j {
      BadBlock(e, body, id, lo + 1, hi, j);
    }
  }

  /** A sealed block that is found at another position or in another file is never read, and the file holds nothing. */
  lemma MovedBlock(e: Enc, body: Bytes, id: Bytes, lo: nat, hi: nat, j: U64, p: Bytes, k: U64, kd: Bytes, nonce: Bytes)
    requires e.plainBS > 0 && p != [] && |nonce| == e.ivLen && nonce != Zeros(e.ivLen) && lo <= j < hi
    requires Chunk(body, e.CipherBS(), j) == e.EncryptBlockNonce(p, k, kd, nonce) && (k, kd) != (j, id)
    requires e.aead.Tells(nonce, p, e.ConcatAD(k, kd), e.ConcatAD(j, id))
    ensures Times(lo, e.CipherBS()) <= Times(hi, e.CipherBS())
    ensures e.DecryptAll(Slice(body, Times(lo, e.CipherBS()), Times(hi, e.CipherBS())), lo, id) == None
    ensures forall q: Bytes :: j < e.NumBlocks(|q|) ==> !e.Encodes(body, id, q)
  {
    hide Times, Enc.ConcatAD;
    e.BlockBound(p, k, kd, nonce, j, id);
    assert |e.EncryptBlockNonce(p, k, kd, nonce)| > 0;
    BadBlock(e, body, id, lo, hi, j);
  }

  // --- shrinking and growing ------------------------------------------------------

  lemma ChunkOfCut(s: Bytes, size: nat, k: nat, j: nat)
    requires j < k && Times(k, size) <= |s|
    ensures Chunk(s[..Times(k, size)], size, j) == Chunk(s, size, j)
  {
    hide Times;
    TimesMono(j, k, size);
    SlicePrefix(s, Times(k, size), Times(j, size), Times(j, size) + size);
  }

  /** Cutting a body after k blocks that are all full stores the plaintext cut after the same k blocks. */
  lemma {:induction false} CutBlocks(e: Enc, body: Bytes, id: Bytes, p: Bytes, k: nat)
    requires e.plainBS > 0 && e.Encodes(body, id, p) && Times(k, e.plainBS) <= |p|
    ensures Times(k, e.CipherBS()) <= |body|
    ensures e.Encodes(body[..Times(k, e.CipherBS())], id, p[..Times(k, e.plainBS)])
  {
    hide Times, Quot, Chunk, Enc.DecryptBlock;
    var s, c := e.plainBS, e.CipherBS();
    FullBody(e, k);
    NumBlocksMono(e, Times(k, s), |p|);
    var body', p' := body[..Times(k, c)], p[..Times(k, s)];
    forall j: nat | j < k
      ensures e.DecryptBlock(Chunk(body', c, j), j, id) == Some(Chunk(p', s, j))
    {
      ChunkOfCut(body, c, k, j);
      ChunkOfCut(p, s, k, j);
    }
  }

  lemma {:induction false} FullBody(e: Enc, k: nat)
    requires e.plainBS > 0
    ensures e.NumBlocks(Times(k, e.plainBS)) == k && e.BodyLen(Times(k, e.plainBS)) == Times(k, e.CipherBS())
  {
    if k > 0 {
      NumBlocksUnique(e, Times(k, e.plainBS), k);
    }
    TimesSplit(k, e.plainBS, e.BlockOverhead());
  }

  /** Extending an aligned body by zero bytes up to m blocks adds holes, which store zeros. */
  lemma GrowHoles(e: Enc, body: Bytes, id: Bytes, p: Bytes, m: nat)
    requires e.Valid() && e.Encodes(body, id, p)
    requires m > 0 && |p| <= Times(m - 1, e.plainBS) && |p| == Times(e.NumBlocks(|p|), e.plainBS)
    ensures e.Encodes(Resize(body, Times(m, e.CipherBS())), id, Resize(p, Times(m, e.plainBS)))
  {
    var s, c := e.plainBS, e.CipherBS();
    var off, ct, data := Times(m - 1, s), Zeros(c), Zeros(s);
    BlocksUpTo(e, |p|, m - 1);
    var p' := Splice(p, off, data);
    assert Slice(p', off, off + s) == data by { SliceInside(p, off, data, off, off + s); assert Slice(data, 0, s) == data; }
    assert Chunk(p', s, m - 1) == data;
    assert Chunk(ct, c, 0) == ct;
    assert |ct| > 0;
    assert SealsBlocks(e, ct, id, p', m - 1, m - 1);
    OverwriteBlocks(e, body, id, p, off, data, m - 1, m - 1, ct);
    assert Splice(body, Times(m - 1, c), ct) == Resize(body, Times(m, c));
    assert p' == Resize(p, Times(m, s));
  }
}
