/** Content encryption (internal/contentenc): block geometry, the file header, and the
    translation between a plaintext and the sealed blocks that store it.
    The block size, nonce length and request limit stay symbolic throughout. */
module ContentEnc {
  import opened SymbolicArith
  import opened ByteSeqs

  const HeaderLen := 18
  const HeaderVersionLen := 2
  const HeaderIDLen := 16
  const CurrentVersion := 2
  const AuthTagLen := 16

  // --- authenticated encryption ----------------------------------------------

  /** An AEAD cipher under a fixed key. Both functions take (nonce, text, associated data). */
  datatype Aead = Aead(seal: (Bytes, Bytes, Bytes) -> Bytes, open: (Bytes, Bytes, Bytes) -> Option<Bytes>)
  {
    /** All the proofs use of a cipher: the tag has a fixed length and Open undoes Seal. */
    ghost predicate Ideal() {
      forall n: Bytes, p: Bytes, a: Bytes {:trigger seal(n, p, a)} ::
        |seal(n, p, a)| == |p| + AuthTagLen && open(n, seal(n, p, a), a) == Some(p)
    }

    /** What authentication is for, for the texts at hand: sealed with `a`, it does not open with anything else. (No
        cipher with a tag of fixed length does this for all texts at once.) */
    predicate Tells(n: Bytes, p: Bytes, a: Bytes, b: Bytes) {
      open(n, seal(n, p, a), b).Some? ==> a == b
    }
  }

  // --- file header -----------------------------------------------------------

  predicate ValidID(id: Bytes) {
    |id| == HeaderIDLen && id != Zeros(HeaderIDLen)
  }

  function Pack(id: Bytes): (r: Bytes)
    requires |id| == HeaderIDLen
    ensures |r| == HeaderLen
  {
    BE(CurrentVersion, HeaderVersionLen) + id
  }

  function ParseHeader(buf: Bytes): (r: Option<Bytes>) {
    if |buf| != HeaderLen || buf == Zeros(HeaderLen) then None
    else if FromBE(buf[..HeaderVersionLen]) != CurrentVersion then None
    else if buf[HeaderVersionLen..] == Zeros(HeaderIDLen) then None
    else Some(buf[HeaderVersionLen..])
  }

  /** Packing and parsing are inverse to each other: a header is accepted exactly if packing made it. */
  lemma HeaderRoundTrip(buf: Bytes, id: Bytes)
    ensures ParseHeader(buf) == Some(id) <==> ValidID(id) && buf == Pack(id)
    ensures |id| == HeaderIDLen ==> Pack(id) == [0, 2] + id
  {
    if ParseHeader(buf) == Some(id) {
      var v := buf[..HeaderVersionLen];
      assert v[..1][..0] == [] && FromBE(v[..1]) == v[0];
      assert FromBE(v) == FromBE(v[..1]) * 256 + v[1];
      assert v == BE(CurrentVersion, HeaderVersionLen) == [0, 2];
      assert buf == v + id;
    }
    if ValidID(id) && buf == Pack(id) {
      FromBEofBE(CurrentVersion, HeaderVersionLen);
      assert buf[..HeaderVersionLen] == BE(CurrentVersion, HeaderVersionLen) == [0, 2];
      assert buf[HeaderVersionLen..] == id;
      assert buf[1] == 2;
    }
  }

  // --- geometry and block encryption -------------------------------------------

  /** A part of one block: `length` bytes from offset `skip` of block `blockNo`. */
  datatype IntraBlock = IntraBlock(blockNo: nat, skip: nat, length: nat)

  datatype Enc = Enc(plainBS: nat, ivLen: nat, maxKernelWrite: nat, aead: Aead)
  {
    ghost predicate Valid() {
      && plainBS > 0 && ivLen > 0
      && maxKernelWrite > 0 && Rem(maxKernelWrite, plainBS) == 0
      && aead.Ideal()
    }

    lemma BlockFitsRequest()
      requires Valid()
      ensures plainBS <= maxKernelWrite
    {
      if maxKernelWrite < plainBS {
        QuotUnique(maxKernelWrite, plainBS, 0);
      }
    }

    function BlockOverhead(): nat { ivLen + AuthTagLen }
    function CipherBS(): nat { plainBS + BlockOverhead() }

    function PlainOffToBlockNo(off: nat): nat requires plainBS > 0 { Quot(off, plainBS) }
    function CipherOffToBlockNo(off: nat): nat requires off >= HeaderLen { Quot(off - HeaderLen, CipherBS()) }
    function BlockNoToCipherOff(k: nat): nat { HeaderLen + Times(k, CipherBS()) }
    function BlockNoToPlainOff(k: nat): nat { Times(k, plainBS) }

    function PlainOffToCipherOff(off: nat): nat
      requires plainBS > 0
    {
      BlockNoToCipherOff(PlainOffToBlockNo(off)) + Rem(off, plainBS) + BlockOverhead()
    }

    function PlainSizeToCipherSize(n: nat): nat
      requires plainBS > 0
    {
      if n == 0 then 0 else PlainOffToCipherOff(n - 1) + 1
    }

    /** The size actually measured: an incomplete last block counts as one byte of plaintext. */
    function PaddedCipherSize(size: nat): (r: nat)
      requires size > HeaderLen
      ensures r >= size
    {
      QuotFacts(size - HeaderLen, CipherBS());
      var last := Rem(size - HeaderLen, CipherBS());
      if 0 < last <= BlockOverhead() then size - last + BlockOverhead() + 1 else size
    }

    function TotalOverhead(size: nat): nat
      requires size > HeaderLen
    {
      Times(CipherOffToBlockNo(size - 1) + 1, BlockOverhead()) + HeaderLen
    }

    function CipherSizeToPlainSize(size: nat): nat
    {
      if size <= HeaderLen then 0
      else
        var padded := PaddedCipherSize(size);
        var overhead := TotalOverhead(padded);
        if overhead > padded then 0 else padded - overhead
    }

    // --- one block -----------------------------------------------------------

    function ConcatAD(blockNo: nat, id: Bytes): Bytes { BE(blockNo, 8) + id }

    /** A full block of zero bytes is a file hole and stands for a block of zeros. */
    function DecryptBlock(c: Bytes, blockNo: nat, id: Bytes): Option<Bytes> {
      if c == [] then Some([])
      else if c == Zeros(CipherBS()) then Some(Zeros(plainBS))
      else if |c| < ivLen then None
      else if c[..ivLen] == Zeros(ivLen) then None
      else aead.open(c[..ivLen], c[ivLen..], ConcatAD(blockNo, id))
    }

    function EncryptBlockNonce(p: Bytes, blockNo: nat, id: Bytes, nonce: Bytes): Bytes {
      if p == [] then [] else nonce + aead.seal(nonce, p, ConcatAD(blockNo, id))
    }

    lemma BlockRoundTrip(p: Bytes, blockNo: nat, id: Bytes, nonce: Bytes)
      requires Valid() && p != [] && |nonce| == ivLen && nonce != Zeros(ivLen)
      ensures DecryptBlock(EncryptBlockNonce(p, blockNo, id, nonce), blockNo, id) == Some(p)
      ensures |EncryptBlockNonce(p, blockNo, id, nonce)| == |p| + BlockOverhead()
    {
      var c := EncryptBlockNonce(p, blockNo, id, nonce);
      assert c[..ivLen] == nonce;
      assert c[ivLen..] == aead.seal(nonce, p, ConcatAD(blockNo, id));
      assert Zeros(CipherBS())[..ivLen] == Zeros(ivLen);
    }

    /** The associated data determines the block number and the file. */
    lemma ADInjective(k: U64, id: Bytes, j: U64, jd: Bytes)
      ensures ConcatAD(k, id) == ConcatAD(j, jd) <==> k == j && id == jd
    {
      if ConcatAD(k, id) == ConcatAD(j, jd) {
        assert Pow256(8) == 0x1_0000_0000_0000_0000;
        assert BE(k, 8) == ConcatAD(k, id)[..8] && BE(j, 8) == ConcatAD(j, jd)[..8];
        FromBEofBE(k, 8);
        FromBEofBE(j, 8);
        assert id == ConcatAD(k, id)[8..] && jd == ConcatAD(j, jd)[8..];
      }
    }

    /** A sealed block decrypts nowhere but in its own place: under its number, in its file. */
    lemma BlockBound(p: Bytes, k: U64, id: Bytes, nonce: Bytes, j: U64, jd: Bytes)
      requires p != [] && |nonce| == ivLen && nonce != Zeros(ivLen)
      requires aead.Tells(nonce, p, ConcatAD(k, id), ConcatAD(j, jd))
      ensures DecryptBlock(EncryptBlockNonce(p, k, id, nonce), j, jd).Some? ==> k == j && id == jd
    {
      hide ConcatAD;
      var c := EncryptBlockNonce(p, k, id, nonce);
      assert c[..ivLen] == nonce && c[ivLen..] == aead.seal(nonce, p, ConcatAD(k, id));
      assert Zeros(CipherBS())[..ivLen] == Zeros(ivLen);
      ADInjective(k, id, j, jd);
    }

    // --- a whole body ----------------------------------------------------------

    function NumBlocks(n: nat): nat
      requires plainBS > 0
    {
      if n == 0 then 0 else Quot(n - 1, plainBS) + 1
    }

    function BodyLen(n: nat): nat
      requires plainBS > 0
    {
      n + Times(NumBlocks(n), BlockOverhead())
    }

    /** `body` stores the plaintext `p`: cut into ciphertext blocks, each one decrypts under its own
        number to the matching plaintext block, so every block but the last is full. */
    ghost predicate Encodes(body: Bytes, id: Bytes, p: Bytes)
      requires plainBS > 0
    {
      && |body| == BodyLen(|p|)
      && forall k: nat {:trigger Chunk(body, CipherBS(), k)} {:trigger Chunk(p, plainBS, k)} ::
           k < NumBlocks(|p|) ==> DecryptBlock(Chunk(body, CipherBS(), k), k, id) == Some(Chunk(p, plainBS, k))
    }

    function DecryptAll(ct: Bytes, first: nat, id: Bytes): Option<Bytes>
      requires plainBS > 0
      decreases |ct|
    {
      if ct == [] then Some([])
      else
        var n := Min(CipherBS(), |ct|);
        match DecryptBlock(ct[..n], first, id)
        case None => None
        case Some(p) =>
          match DecryptAll(ct[n..], first + 1, id)
          case None => None
          case Some(rest) => Some(p + rest)
    }
  }
}
