/** The info-chunk of carter/blobmeta: a record cut into 512-byte sealed units that carry no clear text. */
module InfoChunk {
  import opened SymbolicArith
  import opened ByteSeqs
  import opened ContentEnc
  import opened MetaRecord

  const UnitSize := 512
  const UnitNonceLen := 16
  const UnitPlainLen := 480
  const Unit0HdrLen := 4
  const Unit0Payload := 476
  const UnitNPayload := 480
  const FormatVersion: Byte := 3
  const FlagMore := 0x01
  const MaxInfoChunkUnits := 256

  const AadSuffix: Bytes := [99, 97, 114, 116, 101, 114, 45, 98, 108, 111, 98, 109, 101, 116, 97, 45, 118, 49]

  lemma Suffix()
    ensures AadSuffix == Ascii("carter-blobmeta-v1")
  {
  }

  /** What AES-GCM guarantees on top of Open undoing Seal: the plaintext is a tag shorter than what it came from. */
  ghost predicate Exact(a: Aead) {
    && a.Ideal()
    && forall n: Bytes, c: Bytes, d: Bytes {:trigger a.open(n, c, d)} ::
         a.open(n, c, d).Some? ==> |a.open(n, c, d).value| + AuthTagLen == |c|
  }

  ghost predicate ExactFamily(gcm: Bytes -> Aead) {
    forall k: Bytes {:trigger gcm(k)} :: |k| == KeyLen ==> Exact(gcm(k))
  }

  function UnitCountFor(metaLen: nat): (n: nat)
    ensures n >= 1
  {
    if metaLen <= Unit0Payload then 1 else 1 + (metaLen - Unit0Payload + UnitNPayload - 1) / UnitNPayload
  }

  /** The count is the least that holds the record; records of legal length stay far below the limit. */
  lemma UnitCountLeast(metaLen: nat)
    ensures var n := UnitCountFor(metaLen);
            && metaLen <= Unit0Payload + (n - 1) * UnitNPayload
            && (n > 1 ==> Unit0Payload + (n - 2) * UnitNPayload < metaLen)
            && (metaLen <= 0xFFFF ==> n <= 137 < MaxInfoChunkUnits)
  {
  }

  function UnitAAD(uuid: Uuid, index: nat): Bytes { uuid + BE(index, 4) + AadSuffix }

  /** The associated data determines the file and the position. */
  lemma AADInjective(u: Uuid, i: U32, v: Uuid, j: U32)
    ensures UnitAAD(u, i) == UnitAAD(v, j) <==> u == v && i == j
  {
    if UnitAAD(u, i) == UnitAAD(v, j) {
      var a, b := UnitAAD(u, i), UnitAAD(v, j);
      assert u == a[..16] && v == b[..16];
      assert BE(i, 4) == a[16..20] && BE(j, 4) == b[16..20];
      assert Pow256(4) == 0x1_0000_0000;
      FromBEofBE(i, 4);
      FromBEofBE(j, 4);
    }
  }

  /** Where unit i's share of the record begins. */
  function ShareStart(i: nat): nat { if i == 0 then 0 else Unit0Payload + (i - 1) * UnitNPayload }

  /** Unit i's share of the record; empty past its end. */
  function Share(tlv: Bytes, i: nat): Bytes { Slice(tlv, ShareStart(i), ShareStart(i + 1)) }

  function UnitHeader(tlv: Bytes): (h: Bytes)
    ensures |h| == Unit0HdrLen
  {
    [FormatVersion, if UnitCountFor(|tlv|) > 1 then FlagMore else 0] + BE(|tlv|, 2)
  }

  function Padded(s: Bytes): (r: Bytes)
    requires |s| <= UnitPlainLen
    ensures |r| == UnitPlainLen
  {
    s + Zeros(UnitPlainLen - |s|)
  }

  /** The plaintext of unit i. */
  function UnitPlain(tlv: Bytes, i: nat): (r: Bytes)
    ensures |r| == UnitPlainLen
  {
    Padded(if i == 0 then UnitHeader(tlv) + Share(tlv, 0) else Share(tlv, i))
  }

  function Unit(chunk: Bytes, i: nat): Bytes
    requires (i + 1) * UnitSize <= |chunk|
  {
    chunk[i * UnitSize..(i + 1) * UnitSize]
  }

  /** A sealed record: unit after unit, each under a nonce of its own and bound to uuid and position. */
  ghost predicate SealsRecord(gcm: Aead, uuid: Uuid, tlv: Bytes, chunk: Bytes) {
    var n := UnitCountFor(|tlv|);
    && |chunk| == n * UnitSize
    && forall i :: 0 <= i < n ==> SealsUnit(gcm, uuid, tlv, i, Unit(chunk, i))
  }

  ghost predicate SealsUnit(gcm: Aead, uuid: Uuid, tlv: Bytes, i: nat, unit: Bytes) {
    |unit| == UnitSize && unit[UnitNonceLen..] == gcm.seal(unit[..UnitNonceLen], UnitPlain(tlv, i), UnitAAD(uuid, i))
  }

  method SealUnit(gcm: Aead, uuid: Uuid, tlv: Bytes, n: nat, i: nat) returns (unit: Bytes)
    requires gcm.Ideal() && n == UnitCountFor(|tlv|) && i < n && |tlv| <= 0xFFFF
    ensures SealsUnit(gcm, uuid, tlv, i, unit)
  {
    hide UnitPlain, UnitAAD;
    var plain := PlainOf(tlv, n, i);
    var nonce := RandomBytes(UnitNonceLen);
    unit := nonce + gcm.seal(nonce, plain, UnitAAD(uuid, i));
    assert unit[..UnitNonceLen] == nonce && unit[UnitNonceLen..] == gcm.seal(nonce, plain, UnitAAD(uuid, i));
  }

  lemma UnitsAppend(chunk: Bytes, more: Bytes, n: nat)
    requires n * UnitSize <= |chunk|
    ensures forall i :: 0 <= i < n ==> Unit(chunk + more, i) == Unit(chunk, i)
    ensures n * UnitSize == |chunk| && |more| == UnitSize ==> Unit(chunk + more, n) == more
  {
  }

  /** SealInfoChunk: refuses exactly bad keys, invalid records and records too long to frame. */
  method SealInfoChunk(gcm: Bytes -> Aead, key: Bytes, rec: Record) returns (chunk: Option<Bytes>)
    requires ExactFamily(gcm)
    ensures chunk.Some? <==> |key| == KeyLen && Validate(rec) && |Encoded(Fields(rec))| <= MaxRecordLen
    ensures chunk.Some? ==> SealsRecord(gcm(key), rec.fileUUID, Encoded(Fields(rec)), chunk.value)
  {
    hide Validate, Encoded, Fields, SealsUnit, Unit;
    if |key| != KeyLen {
      return None;
    }
    var m := Marshal(rec);
    if m.None? {
      return None;
    }
    var tlv := m.value;
    UnitCountLeast(|tlv|);
    var n := UnitCountFor(|tlv|);
    var out: Bytes := [];
    for i := 0 to n
      invariant |out| == i * UnitSize
      invariant forall j :: 0 <= j < i ==> SealsUnit(gcm(key), rec.fileUUID, tlv, j, Unit(out, j))
    {
      var unit := SealUnit(gcm(key), rec.fileUUID, tlv, n, i);
      assert |unit| == UnitSize by { UnitLength(gcm(key), rec.fileUUID, tlv, i, unit); }
      UnitsAppend(out, unit, i);
      out := out + unit;
    }
    return Some(out);
  }

  lemma UnitLength(gcm: Aead, uuid: Uuid, tlv: Bytes, i: nat, unit: Bytes)
    requires SealsUnit(gcm, uuid, tlv, i, unit)
    ensures |unit| == UnitSize
  {
  }

  /** One turn of SealInfoChunk's loop: a zeroed buffer with the header and the unit's share copied in. */
  method PlainOf(tlv: Bytes, n: nat, i: nat) returns (plain: Bytes)
    requires n == UnitCountFor(|tlv|) && i < n && |tlv| <= 0xFFFF
    ensures plain == UnitPlain(tlv, i)
  {
    UnitCountLeast(|tlv|);
    plain := Zeros(UnitPlainLen);
    if i == 0 {
      plain := plain[0 := FormatVersion];
      if n > 1 {
        plain := plain[1 := FlagMore];
      }
      var share := tlv[..Min(|tlv|, Unit0Payload)];
      plain := plain[..2] + BE(|tlv|, 2) + share + plain[Unit0HdrLen + |share|..];
    } else {
      var start := Unit0Payload + (i - 1) * UnitNPayload;
      var share := tlv[start..Min(|tlv|, start + UnitNPayload)];
      plain := share + plain[|share|..];
    }
  }

  // --- decoding -----------------------------------------------------------------------------------------

  function OpenUnit(gcm: Aead, uuid: Uuid, index: nat, unit: Bytes): (r: Option<Bytes>)
    requires Exact(gcm)
    ensures r.Some? ==> |r.value| == UnitPlainLen
  {
    if |unit| != UnitSize then None
    else gcm.open(unit[..UnitNonceLen], unit[UnitNonceLen..], UnitAAD(uuid, index))
  }

  datatype Head = Head(more: bool, metaLen: U16, payload: Bytes)

  function ParseUnit0(plain: Bytes): (h: Option<Head>)
    requires |plain| == UnitPlainLen
    ensures h.Some? ==> |h.value.payload| == Unit0Payload
  {
    if plain[0] != FormatVersion then None
    else Some(Head(plain[1] % 2 == FlagMore, U16Of(plain[2..4]), plain[Unit0HdrLen..]))
  }

  /** Byte 0 is the format version 3, bit 0 of byte 1 says that there are more units, bytes 2 and 3 hold the length. */
  lemma Unit0Layout(plain: Bytes)
    requires |plain| == UnitPlainLen
    ensures ParseUnit0(plain).Some? <==> plain[0] == 3
    ensures ParseUnit0(plain).Some? ==>
              var h := ParseUnit0(plain).value;
              && (h.more <==> (plain[1] as bv8) & 1 == 1)
              && h.metaLen == (plain[2] as int) * 256 + plain[3] as int && h.payload == plain[4..]
  {
    LowBit(plain[1]);
    var l := plain[2..4];
    assert l[..1][..0] == [] && FromBE(l[..1]) == l[0];
  }

  lemma LowBit(b: Byte)
    ensures (b as bv8) & 1 == 1 <==> b % 2 == 1
  {
    var x := b as bv8;
    assert x & 1 == x % 2;
  }

  /** The record bytes gathered from units 0 to i. */
  function Gathered(gcm: Aead, uuid: Uuid, chunk: Bytes, head: Head, i: nat): (r: Option<Bytes>)
    requires Exact(gcm) && |head.payload| == Unit0Payload && (i + 1) * UnitSize <= |chunk|
    ensures r.Some? ==> |r.value| == Min(head.metaLen, ShareStart(i + 1))
  {
    if i == 0 then Some(head.payload[..Min(head.metaLen, Unit0Payload)])
    else
      match Gathered(gcm, uuid, chunk, head, i - 1)
      case None => None
      case Some(tlv) =>
        match OpenUnit(gcm, uuid, i, Unit(chunk, i))
        case None => None
        case Some(p) => Some(tlv + p[..Min(head.metaLen - |tlv|, UnitNPayload)])
  }

  function HeadOf(gcm: Aead, uuid: Uuid, chunk: Bytes): (h: Option<Head>)
    requires Exact(gcm)
    ensures h.Some? ==> |h.value.payload| == Unit0Payload && |chunk| >= UnitSize
  {
    if |chunk| < UnitSize then None
    else
      match OpenUnit(gcm, uuid, 0, Unit(chunk, 0))
      case None => None
      case Some(p) => ParseUnit0(p)
  }

  /** The reference for reading a chunk off the front of a byte string: the record bytes and the unit count. */
  function TlvOf(gcm: Aead, uuid: Uuid, chunk: Bytes): Option<(Bytes, nat)>
    requires Exact(gcm)
  {
    match HeadOf(gcm, uuid, chunk)
    case None => None
    case Some(head) =>
      var n := UnitCountFor(head.metaLen);
      if (n > 1) != head.more || |chunk| < n * UnitSize then None
      else
        match Gathered(gcm, uuid, chunk, head, n - 1)
        case None => None
        case Some(tlv) => Some((tlv, n))
  }

  ghost function Decoded(gcm: Bytes -> Aead, key: Bytes, uuid: Uuid, chunk: Bytes): Option<(Record, nat)>
    requires ExactFamily(gcm)
  {
    if |key| != KeyLen then None
    else
      match TlvOf(gcm(key), uuid, chunk)
      case None => None
      case Some((tlv, n)) =>
        match Unmarshaled(tlv)
        case None => None
        case Some(rec) => Some((rec, n * UnitSize))
  }

  method DecodeInfoChunk(gcm: Bytes -> Aead, key: Bytes, uuid: Uuid, chunk: Bytes) returns (r: Option<(Record, nat)>)
    requires ExactFamily(gcm)
    ensures r == Decoded(gcm, key, uuid, chunk)
  {
    hide Unmarshaled, OpenUnit, ParseUnit0, Exact, UnitCountFor;
    if |key| != KeyLen || |chunk| < UnitSize {
      return None;
    }
    var plain0 := OpenUnit(gcm(key), uuid, 0, Unit(chunk, 0));
    if plain0.None? {
      return None;
    }
    var head := ParseUnit0(plain0.value);
    if head.None? {
      return None;
    }
    var n := UnitCountFor(head.value.metaLen);
    if (n > 1) != head.value.more {
      return None;
    }
    UnitCountLeast(head.value.metaLen);
    if |chunk| < n * UnitSize {
      return None;
    }
    var tlv := head.value.payload[..Min(head.value.metaLen, Unit0Payload)];
    for i := 1 to n
      invariant Gathered(gcm(key), uuid, chunk, head.value, i - 1) == Some(tlv)
    {
      var p := OpenUnit(gcm(key), uuid, i, Unit(chunk, i));
      if p.None? {
        GatherFails(gcm(key), uuid, chunk, head.value, i, n - 1);
        return None;
      }
      tlv := tlv + p.value[..Min(head.value.metaLen - |tlv|, UnitNPayload)];
    }
    var rec := UnmarshalRecord(tlv);
    return if rec.None? then None else Some((rec.value, n * UnitSize));
  }

  lemma {:induction false} GatherFails(gcm: Aead, uuid: Uuid, chunk: Bytes, head: Head, i: nat, m: nat)
    requires Exact(gcm) && |head.payload| == Unit0Payload && i <= m && (m + 1) * UnitSize <= |chunk|
    requires Gathered(gcm, uuid, chunk, head, i) == None
    ensures Gathered(gcm, uuid, chunk, head, m) == None
  {
    if i < m {
      GatherFails(gcm, uuid, chunk, head, i, m - 1);
    }
  }

  // --- reading from a file --------------------------------------------------------------------------------

  datatype IoError = NoError | EOF

  /** ReadAt of an in-memory reader: a short read reports the end of the data; a full one that stops
      right there may report it too. */
  method ReadAt(data: Bytes, off: nat, want: nat) returns (got: Bytes, err: IoError)
    ensures got == Slice(data, off, off + want)
    ensures |got| < want ==> err == EOF
  {
    got := Slice(data, off, off + want);
    var atEnd: bool := *;
    err := if |got| < want || atEnd then EOF else NoError;
  }

  method ReadFullAt(data: Bytes, want: nat, off: nat) returns (buf: Option<Bytes>)
    requires want > 0
    ensures buf == if off + want <= |data| then Some(data[off..off + want]) else None
  {
    var got: Bytes := [];
    while |got| < want
      invariant got == Slice(data, off, off + |got|) && (|got| == 0 || |got| == want)
      decreases want - |got|
    {
      var more, err := ReadAt(data, off + |got|, want - |got|);
      assert [] + more == more;
      got := got + more;
      if err == EOF {
        return if |got| == want then Some(got) else None;
      }
    }
    return Some(got);
  }

  /** ReadInfoChunk: reads unit 0, learns the length, reads the rest. It succeeds exactly when decoding the
      whole of the data in memory does, with the same record and content offset. */
  method ReadInfoChunk(gcm: Bytes -> Aead, key: Bytes, uuid: Uuid, data: Bytes) returns (r: Option<(Record, nat)>)
    requires ExactFamily(gcm)
    ensures r == Decoded(gcm, key, uuid, data)
  {
    hide Unmarshaled, OpenUnit, ParseUnit0, Exact, UnitCountFor;
    if |key| != KeyLen {
      return None;
    }
    var buf0 := ReadFullAt(data, UnitSize, 0);
    if buf0.None? {
      return None;
    }
    var plain0 := OpenUnit(gcm(key), uuid, 0, buf0.value);
    if plain0.None? {
      return None;
    }
    var head := ParseUnit0(plain0.value);
    if head.None? {
      return None;
    }
    var n := UnitCountFor(head.value.metaLen);
    if (n > 1) != head.value.more {
      return None;
    }
    UnitCountLeast(head.value.metaLen);
    if n == 1 {
      var rec := UnmarshalRecord(head.value.payload[..Min(head.value.metaLen, Unit0Payload)]);
      return if rec.None? then None else Some((rec.value, UnitSize));
    }
    r := ReadRest(gcm, key, uuid, data, head.value, n);
  }

  lemma RestUnit(data: Bytes, rest: Bytes, n: nat, i: nat)
    requires 1 <= i < n && n * UnitSize <= |data| && rest == data[UnitSize..n * UnitSize]
    ensures i * UnitSize <= |rest| && rest[(i - 1) * UnitSize..i * UnitSize] == Unit(data, i)
  {
    SubSlice(data, UnitSize, n * UnitSize, (i - 1) * UnitSize, i * UnitSize);
  }

  /** Reads and opens the units after the first, one after the other. */
  method GatherRest(gcm: Aead, uuid: Uuid, data: Bytes, head: Head, n: nat) returns (r: Option<Bytes>)
    requires Exact(gcm) && |head.payload| == Unit0Payload && n == UnitCountFor(head.metaLen) > 1
    ensures r == if n * UnitSize > |data| then None else Gathered(gcm, uuid, data, head, n - 1)
  {
    hide OpenUnit, Exact, UnitCountFor, Unit;
    UnitCountLeast(head.metaLen);
    var rest := ReadFullAt(data, (n - 1) * UnitSize, UnitSize);
    if rest.None? {
      return None;
    }
    var tlv := head.payload;
    assert head.payload[..Unit0Payload] == head.payload;
    for i := 1 to n
      invariant Gathered(gcm, uuid, data, head, i - 1) == Some(tlv)
    {
      var off := (i - 1) * UnitSize;
      RestUnit(data, rest.value, n, i);
      var p := OpenUnit(gcm, uuid, i, rest.value[off..off + UnitSize]);
      if p.None? {
        GatherFails(gcm, uuid, data, head, i, n - 1);
        return None;
      }
      tlv := tlv + p.value[..Min(head.metaLen - |tlv|, UnitNPayload)];
    }
    return Some(tlv);
  }

  /** ReadInfoChunk for more than one unit. */
  method ReadRest(gcm: Bytes -> Aead, key: Bytes, uuid: Uuid, data: Bytes, head: Head, n: nat) returns (r: Option<(Record, nat)>)
    requires ExactFamily(gcm) && |key| == KeyLen && HeadOf(gcm(key), uuid, data) == Some(head)
    requires n == UnitCountFor(head.metaLen) > 1 && head.more
    ensures r == Decoded(gcm, key, uuid, data)
  {
    hide Unmarshaled, HeadOf, Exact, UnitCountFor, Gathered;
    var tlv := GatherRest(gcm(key), uuid, data, head, n);
    if tlv.None? {
      return None;
    }
    var rec := UnmarshalRecord(tlv.value);
    return if rec.None? then None else Some((rec.value, n * UnitSize));
  }

  // --- round trip -------------------------------------------------------------------------------------------

  lemma OpenSealed(gcm: Aead, uuid: Uuid, tlv: Bytes, i: nat, unit: Bytes)
    requires Exact(gcm) && SealsUnit(gcm, uuid, tlv, i, unit)
    ensures OpenUnit(gcm, uuid, i, unit) == Some(UnitPlain(tlv, i))
  {
    hide UnitPlain, UnitAAD;
  }

  lemma HeadOfPlain(tlv: Bytes)
    requires |tlv| <= 0xFFFF
    ensures ParseUnit0(UnitPlain(tlv, 0)).Some?
    ensures var h := ParseUnit0(UnitPlain(tlv, 0)).value;
            && h.more == (UnitCountFor(|tlv|) > 1) && h.metaLen == |tlv|
            && h.payload[..Min(|tlv|, Unit0Payload)] == Share(tlv, 0)
  {
    var p := UnitPlain(tlv, 0);
    assert p[2..4] == BE(|tlv|, 2);
    IntegersRoundTrip(|tlv|, 0, 0);
    assert p[Unit0HdrLen..][..Min(|tlv|, Unit0Payload)] == Share(tlv, 0);
  }

  lemma {:induction false} GatherSealed(gcm: Aead, uuid: Uuid, tlv: Bytes, chunk: Bytes, head: Head, i: nat)
    requires Exact(gcm) && |tlv| <= 0xFFFF && i < UnitCountFor(|tlv|) && (i + 1) * UnitSize <= |chunk|
    requires forall j :: 0 <= j <= i ==> SealsUnit(gcm, uuid, tlv, j, Unit(chunk, j))
    requires ParseUnit0(UnitPlain(tlv, 0)) == Some(head)
    ensures Gathered(gcm, uuid, chunk, head, i) == Some(tlv[..Min(|tlv|, ShareStart(i + 1))])
  {
    hide SealsUnit, Exact, OpenUnit, ParseUnit0, UnitCountFor, Unit, UnitPlain, UnitAAD;
    HeadOfPlain(tlv);
    if i == 0 {
      assert Share(tlv, 0) == tlv[..Min(|tlv|, ShareStart(1))];
    } else {
      GatherSealed(gcm, uuid, tlv, chunk, head, i - 1);
      OpenSealed(gcm, uuid, tlv, i, Unit(chunk, i));
      UnitCountLeast(|tlv|);
      NextShare(tlv, i);
    }
  }

  lemma NextShare(tlv: Bytes, i: nat)
    requires i > 0 && ShareStart(i) < |tlv|
    ensures var had := tlv[..ShareStart(i)];
            had + UnitPlain(tlv, i)[..Min(|tlv| - |had|, UnitNPayload)] == tlv[..Min(|tlv|, ShareStart(i + 1))]
  {
    assert UnitPlain(tlv, i)[..Min(|tlv| - ShareStart(i), UnitNPayload)] == Share(tlv, i);
  }

  lemma HeadOfSealed(gcm: Aead, uuid: Uuid, tlv: Bytes, chunk: Bytes)
    requires Exact(gcm) && |chunk| >= UnitSize && SealsUnit(gcm, uuid, tlv, 0, Unit(chunk, 0))
    ensures HeadOf(gcm, uuid, chunk) == ParseUnit0(UnitPlain(tlv, 0))
  {
    OpenSealed(gcm, uuid, tlv, 0, Unit(chunk, 0));
  }

  /** A unit that was sealed for another file or another position does not open. */
  lemma MovedUnit(gcm: Aead, u: Uuid, tlv: Bytes, i: U32, unit: Bytes, v: Uuid, j: U32)
    requires Exact(gcm) && SealsUnit(gcm, u, tlv, i, unit) && (u, i) != (v, j)
    requires gcm.Tells(unit[..UnitNonceLen], UnitPlain(tlv, i), UnitAAD(u, i), UnitAAD(v, j))
    ensures OpenUnit(gcm, v, j, unit) == None
  {
    hide UnitAAD, UnitPlain;
    AADInjective(u, i, v, j);
  }

  /** One unit that does not open makes the chunk unreadable. */
  lemma BadUnit(gcm: Aead, uuid: Uuid, chunk: Bytes, j: nat)
    requires Exact(gcm) && (j + 1) * UnitSize <= |chunk| && OpenUnit(gcm, uuid, j, Unit(chunk, j)) == None
    requires j == 0 || (HeadOf(gcm, uuid, chunk).Some? && j < UnitCountFor(HeadOf(gcm, uuid, chunk).value.metaLen))
    ensures TlvOf(gcm, uuid, chunk) == None
  {
    hide OpenUnit, Unit, UnitCountFor, ParseUnit0;
    if j > 0 {
      var head := HeadOf(gcm, uuid, chunk).value;
      var n := UnitCountFor(head.metaLen);
      if n * UnitSize <= |chunk| {
        assert Gathered(gcm, uuid, chunk, head, j) == None;
        GatherFails(gcm, uuid, chunk, head, j, n - 1);
      }
    }
  }

  lemma TlvGathered(gcm: Aead, uuid: Uuid, data: Bytes, head: Head, tlv: Bytes)
    requires Exact(gcm) && HeadOf(gcm, uuid, data) == Some(head) && |head.payload| == Unit0Payload
    requires var n := UnitCountFor(head.metaLen);
             && n >= 1 && (n > 1) == head.more && n * UnitSize <= |data|
             && Gathered(gcm, uuid, data, head, n - 1) == Some(tlv)
    ensures TlvOf(gcm, uuid, data) == Some((tlv, UnitCountFor(head.metaLen)))
  {
    hide HeadOf, Gathered, UnitCountFor, Exact;
  }

  /** A sealed record is read back, whatever bytes follow it. */
  lemma TlvOfSealed(gcm: Aead, uuid: Uuid, tlv: Bytes, chunk: Bytes, more: Bytes)
    requires Exact(gcm) && |tlv| <= 0xFFFF && SealsRecord(gcm, uuid, tlv, chunk)
    ensures TlvOf(gcm, uuid, chunk + more) == Some((tlv, UnitCountFor(|tlv|)))
  {
    hide SealsUnit, Exact, Unit, UnitPlain, ParseUnit0, Gathered, UnitCountFor, Share, HeadOf, TlvOf;
    var n := UnitCountFor(|tlv|);
    var all := chunk + more;
    UnitsAppend(chunk, more, n);
    HeadOfSealed(gcm, uuid, tlv, all);
    HeadOfPlain(tlv);
    var head := ParseUnit0(UnitPlain(tlv, 0)).value;
    GatherSealed(gcm, uuid, tlv, all, head, n - 1);
    UnitCountLeast(|tlv|);
    assert Min(|tlv|, ShareStart(n)) == |tlv| && tlv[..|tlv|] == tlv;
    TlvGathered(gcm, uuid, all, head, tlv);
  }

  /** Sealing and then decoding gives the record back, with the content right behind the chunk. */
  lemma InfoChunkRoundTrip(gcm: Bytes -> Aead, key: Bytes, rec: Record, chunk: Bytes, more: Bytes)
    requires ExactFamily(gcm) && |key| == KeyLen && Validate(rec) && |Encoded(Fields(rec))| <= MaxRecordLen
    requires SealsRecord(gcm(key), rec.fileUUID, Encoded(Fields(rec)), chunk)
    ensures Decoded(gcm, key, rec.fileUUID, chunk + more) == Some((Normalized(rec), |chunk|))
  {
    TlvOfSealed(gcm(key), rec.fileUUID, Encoded(Fields(rec)), chunk, more);
    RecordRoundTrip(rec);
  }
}
