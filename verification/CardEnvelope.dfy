/** Card Envelope frames (carter/proto/card.go): their byte form, the request counter, and when a response is
    accepted. Base64 on top of the APDUs is not part of the model. */
module CardEnvelope {
  import opened ByteSeqs

  const Magic0: Byte := 0xC5
  const Magic1: Byte := 0x02
  const Version1: Byte := 0x01
  const DirectionRequest: Byte := 0x00
  const DirectionResponse: Byte := 0x01
  const InsProtected: Byte := 0x8A
  const HeaderSize := 14
  const IvLen := 16
  const AesBlockLen := 16

  datatype Frame = Frame(
    role: Byte, direction: Byte, command: Byte, sequence: I64,
    instanceID: Bytes, clientID: Bytes, sessionID: Bytes, requestID: Bytes, iv: Bytes, ciphertext: Bytes, mac: Bytes)
  {
    /** Every field fits its 16-bit length. */
    predicate Fits() {
      && |instanceID| <= 0xFFFF && |clientID| <= 0xFFFF && |sessionID| <= 0xFFFF && |requestID| <= 0xFFFF
      && |iv| <= 0xFFFF && |ciphertext| <= 0xFFFF && |mac| <= 0xFFFF
    }

    function Header(): (h: Bytes)
      ensures |h| == HeaderSize
    {
      [Magic0, Magic1, Version1, role, direction, command] + PutI64(sequence)
    }

    function Fields(): seq<Bytes> { [instanceID, clientID, sessionID, requestID, iv, ciphertext] }

    function Encode(includeMac: bool): Bytes {
      Header() + Prefixed(Fields() + if includeMac then [mac] else [])
    }
  }

  /** writeLP: the length is written modulo 2^16. */
  function WriteLP(data: Bytes): Bytes { BE(|data|, 2) + data }

  function Prefixed(fields: seq<Bytes>): Bytes {
    if fields == [] then [] else WriteLP(fields[0]) + Prefixed(fields[1..])
  }

  /** The first n length-prefixed fields of a buffer; what follows is not looked at. */
  function ReadFields(buf: Bytes, n: nat): (r: Option<seq<Bytes>>)
    ensures r.Some? ==> |r.value| == n
  {
    if n == 0 then Some([])
    else if |buf| < 2 then None
    else
      var l := U16Of(buf[..2]);
      if 2 + l > |buf| then None
      else
        match ReadFields(buf[2 + l..], n - 1)
        case None => None
        case Some(rest) => Some([buf[2..2 + l]] + rest)
  }

  lemma {:induction false} ReadPrefixed(fields: seq<Bytes>, more: Bytes)
    requires forall i :: 0 <= i < |fields| ==> |fields[i]| <= 0xFFFF
    ensures ReadFields(Prefixed(fields) + more, |fields|) == Some(fields)
  {
    if fields != [] {
      hide WriteLP, U16Of;
      var rest := Prefixed(fields[1..]) + more;
      assert Prefixed(fields) + more == WriteLP(fields[0]) + rest;
      FrontLP(fields[0], rest);
      ReadPrefixed(fields[1..], more);
      assert [fields[0]] + fields[1..] == fields;
    }
  }

  lemma FrontLP(f: Bytes, rest: Bytes)
    requires |f| <= 0xFFFF
    ensures var buf := WriteLP(f) + rest;
            && |buf| >= 2 + |f| && U16Of(buf[..2]) == |f| && buf[2..2 + |f|] == f && buf[2 + |f|..] == rest
  {
    var buf := WriteLP(f) + rest;
    assert buf[..2] == BE(|f|, 2);
    IntegersRoundTrip(|f|, 0, 0);
  }

  lemma FrameLength(f: Frame)
    ensures |f.Encode(true)| == HeaderSize + 14 + |f.instanceID| + |f.clientID| + |f.sessionID| + |f.requestID|
                                + |f.iv| + |f.ciphertext| + |f.mac|
  {
    var a := f.Fields() + [f.mac];
    assert |Prefixed(a[7..])| == 0;
    assert |Prefixed(a[6..])| == 2 + |f.mac| by { assert a[6..][1..] == a[7..]; }
    assert |Prefixed(a[5..])| == 2 + |f.ciphertext| + |Prefixed(a[6..])| by { assert a[5..][1..] == a[6..]; }
    assert |Prefixed(a[4..])| == 2 + |f.iv| + |Prefixed(a[5..])| by { assert a[4..][1..] == a[5..]; }
    assert |Prefixed(a[3..])| == 2 + |f.requestID| + |Prefixed(a[4..])| by { assert a[3..][1..] == a[4..]; }
    assert |Prefixed(a[2..])| == 2 + |f.sessionID| + |Prefixed(a[3..])| by { assert a[2..][1..] == a[3..]; }
    assert |Prefixed(a[1..])| == 2 + |f.clientID| + |Prefixed(a[2..])| by { assert a[1..][1..] == a[2..]; }
  }

  /** decodeCEFrame reads its seven fields one after the other. */
  method DecodeCEFrame(data: Bytes) returns (f: Option<Frame>)
    ensures f == Decoded(data)
  {
    hide U16Of, ReadI64;
    if |data| < HeaderSize || data[0] != Magic0 || data[1] != Magic1 || data[2] != Version1 {
      return None;
    }
    var off := HeaderSize;
    var got: seq<Bytes> := [];
    BehindNothing(ReadFields(data[HeaderSize..], 7));
    for i := 0 to 7
      invariant HeaderSize <= off <= |data| && |got| == i
      invariant ReadFields(data[HeaderSize..], 7) == Behind(got, ReadFields(data[off..], 7 - i))
    {
      ReadStep(data, off, 7 - i, got);
      if off + 2 > |data| {
        return None;
      }
      var l := U16Of(data[off..off + 2]);
      off := off + 2;
      if off + l > |data| {
        return None;
      }
      got := got + [data[off..off + l]];
      off := off + l;
    }
    assert got + [] == got;
    return Some(Frame(data[3], data[4], data[5], ReadI64(data[6..14]), got[0], got[1], got[2], got[3], got[4], got[5], got[6]));
  }

  lemma ReadStep(data: Bytes, off: nat, n: nat, got: seq<Bytes>)
    requires off <= |data| && n > 0
    ensures var rest := ReadFields(data[off..], n);
            if off + 2 > |data| || off + 2 + U16Of(data[off..off + 2]) > |data| then rest == None
            else
              var end := off + 2 + U16Of(data[off..off + 2]);
              Behind(got, rest) == Behind(got + [data[off + 2..end]], ReadFields(data[end..], n - 1))
  {
    var buf := data[off..];
    if |buf| >= 2 {
      assert buf[..2] == data[off..off + 2];
      var l := U16Of(buf[..2]);
      if 2 + l <= |buf| {
        assert buf[2..2 + l] == data[off + 2..off + 2 + l] && buf[2 + l..] == data[off + 2 + l..];
        BehindMore(got, buf[2..2 + l], ReadFields(buf[2 + l..], n - 1));
      }
    }
  }

  function Decoded(data: Bytes): Option<Frame> {
    if |data| < HeaderSize || data[0] != Magic0 || data[1] != Magic1 || data[2] != Version1 then None
    else
      match ReadFields(data[HeaderSize..], 7)
      case None => None
      case Some(g) => Some(Frame(data[3], data[4], data[5], ReadI64(data[6..14]), g[0], g[1], g[2], g[3], g[4], g[5], g[6]))
  }

  /** Decoding undoes the wire encoding; bytes behind the frame are ignored. */
  lemma FrameRoundTrip(f: Frame, more: Bytes)
    requires f.Fits()
    ensures Decoded(f.Encode(true) + more) == Some(f)
  {
    var fields := f.Fields() + [f.mac];
    var data := f.Encode(true) + more;
    assert data[HeaderSize..] == Prefixed(fields) + more;
    ReadPrefixed(fields, more);
    assert data[6..14] == PutI64(f.sequence);
    IntegersRoundTrip(0, 0, f.sequence);
  }

  /** A length and the bytes it counts, written back, are the bytes they were read from. */
  lemma RewrittenLP(buf: Bytes)
    requires |buf| >= 2 && 2 + U16Of(buf[..2]) <= |buf|
    ensures var n := 2 + U16Of(buf[..2]); WriteLP(buf[2..n]) == buf[..n]
  {
    hide BE;
    var n := 2 + U16Of(buf[..2]);
    BEofFromBE(buf[..2]);
    assert |buf[2..n]| == n - 2;
    assert buf[..2] + buf[2..n] == buf[..n];
  }

  lemma PrefixThenPrefix(buf: Bytes, n: nat, more: Bytes)
    requires n <= |buf| && more <= buf[n..]
    ensures buf[..n] + more <= buf
  {
    assert buf == buf[..n] + buf[n..];
    assert buf[n..][..|more|] == more;
  }

  lemma PrefixedNone()
    ensures Prefixed([]) == []
  {
  }

  lemma PrefixedMore(field: Bytes, rest: seq<Bytes>)
    ensures Prefixed([field] + rest) == WriteLP(field) + Prefixed(rest)
  {
    assert ([field] + rest)[1..] == rest;
  }

  lemma {:induction false} PrefixedRead(buf: Bytes, n: nat)
    ensures ReadFields(buf, n).Some? ==> Prefixed(ReadFields(buf, n).value) <= buf
  {
    hide WriteLP, U16Of, Prefixed;
    PrefixedNone();
    if n > 0 && |buf| >= 2 && 2 + U16Of(buf[..2]) <= |buf| {
      var l: nat := U16Of(buf[..2]);
      var rest := ReadFields(buf[2 + l..], n - 1);
      PrefixedRead(buf[2 + l..], n - 1);
      if rest.Some? {
        RewrittenLP(buf);
        PrefixedMore(buf[2..2 + l], rest.value);
        PrefixThenPrefix(buf, 2 + l, Prefixed(rest.value));
      }
    }
  }

  lemma I64Back(b: Bytes)
    requires |b| == 8
    ensures PutI64(ReadI64(b)) == b
  {
    BEofFromBE(b);
    assert Pow256(8) == 0x1_0000_0000_0000_0000;
  }

  /** The buffers that decode to a frame are exactly those that start with its wire encoding. */
  lemma DecodesExactly(data: Bytes, f: Frame)
    ensures Decoded(data) == Some(f) <==> f.Fits() && f.Encode(true) <= data
  {
    hide ReadFields, Prefixed, U16Of, PutI64, ReadI64;
    if Decoded(data) == Some(f) {
      DecodedFits(data);
      I64Back(data[6..14]);
      var g := ReadFields(data[HeaderSize..], 7).value;
      PrefixedRead(data[HeaderSize..], 7);
      assert f.Fields() + [f.mac] == g;
      assert f.Header() == data[..HeaderSize];
      assert data == data[..HeaderSize] + data[HeaderSize..];
    }
    if f.Fits() && f.Encode(true) <= data {
      FrameRoundTrip(f, data[|f.Encode(true)|..]);
      assert data == f.Encode(true) + data[|f.Encode(true)|..];
    }
  }

  lemma HeaderInjective(f: Frame, g: Frame)
    requires f.Header() == g.Header()
    ensures f.role == g.role && f.direction == g.direction && f.command == g.command && f.sequence == g.sequence
  {
    hide PutI64;
    var a, b := f.Header(), g.Header();
    assert a[3] == f.role && a[4] == f.direction && a[5] == f.command;
    assert b[3] == g.role && b[4] == g.direction && b[5] == g.command;
    assert a[6..14] == PutI64(f.sequence) && b[6..14] == PutI64(g.sequence);
    IntegersRoundTrip(0, 0, f.sequence);
    IntegersRoundTrip(0, 0, g.sequence);
  }

  /** What every frame starts with. */
  lemma FrameStarts(f: Frame, includeMac: bool)
    ensures [0xC5, 0x02, 0x01, f.role, f.direction, f.command] + BE(if f.sequence < 0 then f.sequence + 0x1_0000_0000_0000_0000 else f.sequence, 8)
         <= f.Encode(includeMac)
  {
    hide Prefixed, BE;
  }

  /** The MAC input says everything about a frame but its MAC. */
  lemma MacInputInjective(f: Frame, g: Frame)
    requires f.Fits() && g.Fits() && f.Encode(false) == g.Encode(false)
    ensures f == g.(mac := f.mac)
  {
    hide Frame.Header, Prefixed, ReadFields;
    var a, b := f.Encode(false), g.Encode(false);
    assert a[..HeaderSize] == f.Header() && b[..HeaderSize] == g.Header();
    HeaderInjective(f, g);
    assert a[HeaderSize..] == Prefixed(f.Fields()) + [] by { assert f.Fields() + [] == f.Fields(); }
    assert b[HeaderSize..] == Prefixed(g.Fields()) + [] by { assert g.Fields() + [] == g.Fields(); }
    ReadPrefixed(f.Fields(), []);
    ReadPrefixed(g.Fields(), []);
    SameFields(f, g);
  }

  lemma SameFields(f: Frame, g: Frame)
    requires f.Fields() == g.Fields()
    ensures f.instanceID == g.instanceID && f.clientID == g.clientID && f.sessionID == g.sessionID
    ensures f.requestID == g.requestID && f.iv == g.iv && f.ciphertext == g.ciphertext
  {
    var s, t := f.Fields(), g.Fields();
    assert s[0] == t[0] && s[1] == t[1] && s[2] == t[2] && s[3] == t[3] && s[4] == t[4] && s[5] == t[5];
  }

  // --- padding and block cipher ---------------------------------------------------------------------------------

  function Pad(data: Bytes): (r: Bytes)
    ensures |r| > 0 && |r| % AesBlockLen == 0
  {
    var pad := AesBlockLen - |data| % AesBlockLen;
    data + seq(pad, _ => pad)
  }

  /** pkcs7Unpad: only the last byte is looked at. */
  function Unpad(data: Bytes): Option<Bytes> {
    if |data| == 0 || |data| % AesBlockLen != 0 then None
    else
      var pad := data[|data| - 1];
      if pad < 1 || pad > AesBlockLen || pad > |data| then None else Some(data[..|data| - pad])
  }

  /** PKCS #7: at least one byte and at most a block, each of which says how many there are. */
  lemma PadExactly(data: Bytes)
    ensures var n := |Pad(data)| - |data|;
            1 <= n <= 16 && |Pad(data)| % 16 == 0 && data <= Pad(data) && forall i :: |data| <= i < |Pad(data)| ==> Pad(data)[i] == n
  {
  }

  lemma PadRoundTrip(data: Bytes)
    ensures Unpad(Pad(data)) == Some(data)
  {
    var pad := AesBlockLen - |data| % AesBlockLen;
    assert Pad(data)[|Pad(data)| - 1] == pad;
    assert Pad(data)[..|data|] == data;
  }

  /** The primitives: a MAC over (key, message), and CBC over (key, iv, blocks) and back. */
  datatype Crypto = Crypto(mac: (Bytes, Bytes) -> Bytes, cbc: (Bytes, Bytes, Bytes) -> Bytes, uncbc: (Bytes, Bytes, Bytes) -> Bytes)
  {
    ghost predicate Ideal() {
      && (forall k: Bytes, m: Bytes {:trigger mac(k, m)} :: |mac(k, m)| == 32)
      && (forall k: Bytes, iv: Bytes, p: Bytes {:trigger cbc(k, iv, p)} :: |cbc(k, iv, p)| == |p| && uncbc(k, iv, cbc(k, iv, p)) == p)
    }
  }

  // --- sessions ------------------------------------------------------------------------------------------------------

  /** What a session fixes: identities and the four derived keys. */
  datatype Identity = Identity(instanceID: Bytes, clientID: Bytes, sessionID: Bytes, role: Byte,
                               requestEncKey: Bytes, requestMacKey: Bytes, responseEncKey: Bytes, responseMacKey: Bytes)
  {
    predicate Fits() { |instanceID| <= 0xFFFF && |clientID| <= 0xFFFF && |sessionID| <= 0xFFFF }
  }

  datatype Request = Request(apdu: Bytes, sequence: I64, requestID: Bytes, command: Byte)

  /** The counter in 64-bit arithmetic. */
  function Successor(s: I64): I64 {
    if s == 0x7FFF_FFFF_FFFF_FFFF then -0x8000_0000_0000_0000 else s + 1
  }

  function Nth(n: nat): I64 { if n == 0 then 0 else Successor(Nth(n - 1)) }

  lemma {:induction false} NthIs(n: nat)
    requires n < 0x1_0000_0000_0000_0000
    ensures Nth(n) == if n < 0x8000_0000_0000_0000 then n else n - 0x1_0000_0000_0000_0000
  {
    if n > 0 {
      NthIs(n - 1);
    }
  }

  function ToCommandAPDU(frame: Bytes): Option<Bytes> {
    if |frame| <= 255 then Some([0x80, InsProtected, 0, 0, |frame|] + frame + [0])
    else if |frame| > 0xFFFF then None
    else Some([0x80, InsProtected, 0, 0, 0] + BE(|frame|, 2) + frame + [0, 0])
  }

  /** The card's reading of a command: class, instruction and parameters of a protected command, then the data
      behind a one-byte length, or behind a zero and a two-byte length, then the expected length, all zeros. */
  function ReadCommand(apdu: Bytes): Option<Bytes> {
    if |apdu| < 6 || apdu[..4] != [0x80, 0x8A, 0x00, 0x00] then None
    else if apdu[4] != 0 || |apdu| == 6 then
      var n: nat := apdu[4];
      if |apdu| == 5 + n + 1 && apdu[5 + n] == 0 then Some(apdu[5..5 + n]) else None
    else if |apdu| < 7 then None
    else
      var high: nat, low: nat := apdu[5], apdu[6];
      var n := high * 256 + low;
      if |apdu| == 7 + n + 2 && apdu[7 + n] == 0 && apdu[7 + n + 1] == 0 then Some(apdu[7..7 + n]) else None
  }

  /** Every frame that is sent arrives, and only frames too long for an extended APDU are not sent. */
  lemma CommandArrives(frame: Bytes)
    ensures ToCommandAPDU(frame).Some? <==> |frame| <= 0xFFFF
    ensures ToCommandAPDU(frame).Some? ==> ReadCommand(ToCommandAPDU(frame).value) == Some(frame)
  {
    if |frame| <= 255 {
      var apdu := ToCommandAPDU(frame).value;
      assert apdu[..4] == [0x80, 0x8A, 0x00, 0x00] && apdu[4] == |frame|;
      assert apdu[5..5 + |frame|] == frame;
    } else if |frame| <= 0xFFFF {
      var apdu := ToCommandAPDU(frame).value;
      var l := BE(|frame|, 2);
      assert BE(|frame| / 256, 1) == BE(|frame| / 256 / 256, 0) + [|frame| / 256 % 256];
      assert l == [|frame| / 256, |frame| % 256];
      assert apdu[..4] == [0x80, 0x8A, 0x00, 0x00] && apdu[4] == 0 && apdu[5] == l[0] && apdu[6] == l[1];
      assert apdu[7..7 + |frame|] == frame;
    }
  }

  /** A response is looked at exactly if the card reports success. */
  lemma StatusChecked(apdu: Bytes, data: Bytes)
    ensures FromResponseAPDU(apdu) == Some(data) <==> apdu == data + [0x90, 0x00]
  {
    if FromResponseAPDU(apdu) == Some(data) {
      assert apdu == apdu[..|apdu| - 2] + [apdu[|apdu| - 2], apdu[|apdu| - 1]];
    }
    if apdu == data + [0x90, 0x00] {
      assert apdu[..|apdu| - 2] == data;
    }
  }

  function FromResponseAPDU(apdu: Bytes): Option<Bytes> {
    if |apdu| < 2 || apdu[|apdu| - 2] != 0x90 || apdu[|apdu| - 1] != 0x00 then None else Some(apdu[..|apdu| - 2])
  }

  datatype Opened = Rejected | Panicked | Plain(text: Bytes)

  /** The frame whose MAC a response to this request has to carry. */
  function Expected(id: Identity, f: Frame): Frame {
    f.(role := id.role, direction := DirectionResponse, clientID := id.clientID, mac := [])
  }

  /** OpenCEResponse: every check, in order; a wrong IV length would only be noticed by the cipher. */
  function OpenResponse(c: Crypto, id: Identity, req: Request, apdu: Bytes): Opened {
    match FromResponseAPDU(apdu)
    case None => Rejected
    case Some(data) =>
      match Decoded(data)
      case None => Rejected
      case Some(f) =>
        if f.requestID != req.requestID || f.command != req.command || f.sequence != req.sequence
           || f.sessionID != id.sessionID || f.instanceID != id.instanceID then Rejected
        else if c.mac(id.responseMacKey, Expected(id, f).Encode(false)) != f.mac then Rejected
        else if |f.ciphertext| == 0 || |f.ciphertext| % AesBlockLen != 0 then Rejected
        else if |f.iv| != IvLen then Panicked
        else
          match Unpad(c.uncbc(id.responseEncKey, f.iv, f.ciphertext))
          case None => Rejected
          case Some(p) => Plain(p)
  }

  /** The response the card makes to a request, with an IV of its choice. */
  function CardResponse(c: Crypto, id: Identity, req: Request, iv: Bytes, plain: Bytes): Frame {
    var f := Frame(id.role, 1, req.command, req.sequence, id.instanceID, id.clientID, id.sessionID,
                   req.requestID, iv, c.cbc(id.responseEncKey, iv, Pad(plain)), []);
    f.(mac := c.mac(id.responseMacKey, f.Encode(false)))
  }

  /** The card's own response opens to what it put in. */
  lemma ResponseRoundTrip(c: Crypto, id: Identity, req: Request, iv: Bytes, plain: Bytes)
    requires c.Ideal() && id.Fits() && |req.requestID| <= 0xFFFF && |iv| == IvLen && |Pad(plain)| <= 0xFFFF
    ensures OpenResponse(c, id, req, CardResponse(c, id, req, iv, plain).Encode(true) + [0x90, 0x00]) == Plain(plain)
  {
    var f := CardResponse(c, id, req, iv, plain);
    var apdu := f.Encode(true) + [0x90, 0x00];
    assert apdu[..|apdu| - 2] == f.Encode(true) + [];
    FrameRoundTrip(f, []);
    PadRoundTrip(plain);
    hide Pad, Unpad, Decoded, Prefixed;
    var bare := f.(mac := []);
    assert Expected(id, f) == bare;
    assert bare.Encode(false) == f.Encode(false);
  }

  /** The requests and plaintexts for which the card has made a response under this session's keys. */
  datatype Issue = Issue(req: Request, iv: Bytes, plain: Bytes)

  /** With an unforgeable MAC, any message that comes with its right tag is one the card has tagged. */
  ghost predicate Unforged(c: Crypto, id: Identity, issued: set<Issue>, f: Frame) {
    c.mac(id.responseMacKey, Expected(id, f).Encode(false)) == f.mac ==>
      exists i :: i in issued && Expected(id, f).Encode(false) == CardResponse(c, id, i.req, i.iv, i.plain).Encode(false)
  }

  /** Then every accepted response was made by the card for exactly this request, it opens to what the card put
      in, and the cipher never trips over its IV. */
  lemma AcceptedWasIssued(c: Crypto, id: Identity, req: Request, apdu: Bytes, issued: set<Issue>)
    requires c.Ideal() && id.Fits()
    requires forall i :: i in issued ==> |i.iv| == IvLen && |i.req.requestID| <= 0xFFFF && |Pad(i.plain)| <= 0xFFFF
    requires forall f: Frame :: FromResponseAPDU(apdu).Some? && Decoded(FromResponseAPDU(apdu).value) == Some(f) ==> Unforged(c, id, issued, f)
    ensures OpenResponse(c, id, req, apdu) != Panicked
    ensures OpenResponse(c, id, req, apdu).Plain? ==>
              exists i :: i in issued && i.plain == OpenResponse(c, id, req, apdu).text
                          && i.req.requestID == req.requestID && i.req.command == req.command && i.req.sequence == req.sequence
  {
    if FromResponseAPDU(apdu).None? || Decoded(FromResponseAPDU(apdu).value).None? {
      return;
    }
    var data := FromResponseAPDU(apdu).value;
    var f := Decoded(data).value;
    if c.mac(id.responseMacKey, Expected(id, f).Encode(false)) == f.mac {
      var i :| i in issued && Expected(id, f).Encode(false) == CardResponse(c, id, i.req, i.iv, i.plain).Encode(false);
      var g := CardResponse(c, id, i.req, i.iv, i.plain);
      DecodedFits(data);
      MacInputInjective(Expected(id, f), g);
      PadRoundTrip(i.plain);
      assert f.iv == i.iv && f.ciphertext == c.cbc(id.responseEncKey, i.iv, Pad(i.plain));
    }
  }

  lemma DecodedFits(data: Bytes)
    requires Decoded(data).Some?
    ensures Decoded(data).value.Fits()
  {
    ReadFit(data[HeaderSize..], 7);
  }

  lemma {:induction false} ReadFit(buf: Bytes, n: nat)
    ensures ReadFields(buf, n).Some? ==> forall i :: 0 <= i < n ==> |ReadFields(buf, n).value[i]| <= 0xFFFF
  {
    if n > 0 && |buf| >= 2 && 2 + U16Of(buf[..2]) <= |buf| {
      ReadFit(buf[2 + U16Of(buf[..2])..], n - 1);
    }
  }

  // --- requests --------------------------------------------------------------------------------------------------------

  /** A request frame as the card will find it: for this session, authentic, and holding the command and its payload. */
  ghost predicate Carries(c: Crypto, id: Identity, req: Request, plaintext: Bytes) {
    exists f: Frame ::
      && ReadCommand(req.apdu) == Some(f.Encode(true))
      && f.role == id.role && f.direction == 0 && f.command == req.command && f.sequence == req.sequence
      && f.instanceID == id.instanceID && f.clientID == id.clientID && f.sessionID == id.sessionID && f.requestID == req.requestID
      && f.mac == c.mac(id.requestMacKey, f.Encode(false))
      && Unpad(c.uncbc(id.requestEncKey, f.iv, f.ciphertext)) == Some([req.command] + plaintext)
  }

  class Session {
    const id: Identity
    const c: Crypto
    var sequence: I64
    ghost var count: nat  // requests numbered so far

    ghost predicate Valid()
      reads this
    {
      c.Ideal() && sequence == Nth(count)
    }

    constructor (c: Crypto, id: Identity)
      requires c.Ideal()
      ensures Valid() && count == 0 && this.id == id && this.c == c
    {
      this.c, this.id, sequence, count := c, id, 0, 0;
    }

    method NextSequence() returns (n: I64)
      requires Valid()
      modifies this
      ensures Valid() && count == old(count) + 1 && n == Nth(old(count))
    {
      n := sequence;
      sequence := Successor(sequence);
      count := count + 1;
    }

    method BuildCERequest(command: Byte, plaintext: Bytes) returns (req: Option<Request>)
      requires Valid()
      modifies this
      ensures Valid() && count == old(count) + 1
      ensures req.Some? ==> req.value.sequence == Nth(old(count)) && req.value.command == command
                            && Carries(c, id, req.value, plaintext)
      ensures req.Some? <==> 112 + |id.instanceID| + |id.clientID| + |id.sessionID| + |Pad([command] + plaintext)| <= 0xFFFF
    {
      hide Unpad, Nth;
      var n := NextSequence();
      var requestID := RandomBytes(36);
      var iv := RandomBytes(IvLen);
      var framed := [command] + plaintext;
      PadRoundTrip(framed);
      var ciphertext := c.cbc(id.requestEncKey, iv, Pad(framed));
      var f := Frame(id.role, DirectionRequest, command, n, id.instanceID, id.clientID, id.sessionID, requestID, iv, ciphertext, []);
      var sent := f.(mac := c.mac(id.requestMacKey, f.Encode(false)));
      assert sent.Encode(false) == f.Encode(false);
      FrameLength(sent);
      CommandArrives(sent.Encode(true));
      var apdu := ToCommandAPDU(sent.Encode(true));
      if apdu.None? {
        return None;
      }
      req := Some(Request(apdu.value, n, requestID, command));
    }
  }

  predicate Accepts(c: Crypto, id: Identity, req: Request, apdu: Bytes) { OpenResponse(c, id, req, apdu).Plain? }

  /** Any number of requests of one session short of 2^64 are numbered differently, and no response is accepted for
      two of them, whatever the MAC is worth. */
  method BuildAll(c: Crypto, id: Identity, commands: seq<(Byte, Bytes)>) returns (reqs: seq<Option<Request>>)
    requires c.Ideal() && |commands| < 0x1_0000_0000_0000_0000
    ensures |reqs| == |commands|
    ensures forall i, j :: 0 <= i < j < |reqs| && reqs[i].Some? && reqs[j].Some? ==> reqs[i].value.sequence != reqs[j].value.sequence
    ensures forall i :: 0 <= i < |reqs| && reqs[i].Some? ==> Carries(c, id, reqs[i].value, commands[i].1)
    ensures forall i, j, apdu :: 0 <= i < j < |reqs| && reqs[i].Some? && reqs[j].Some? ==>
              !(Accepts(c, id, reqs[i].value, apdu) && Accepts(c, id, reqs[j].value, apdu))
  {
    hide Nth, Carries;
    var s := new Session(c, id);
    reqs := [];
    for k := 0 to |commands|
      invariant fresh(s) && s.Valid() && s.c == c && s.id == id && s.count == k && |reqs| == k
      invariant forall i :: 0 <= i < k && reqs[i].Some? ==> reqs[i].value.sequence == Nth(i) && Carries(c, id, reqs[i].value, commands[i].1)
    {
      var r := s.BuildCERequest(commands[k].0, commands[k].1);
      reqs := reqs + [r];
    }
    forall i, j | 0 <= i < j < |reqs| && reqs[i].Some? && reqs[j].Some? ensures reqs[i].value.sequence != reqs[j].value.sequence {
      NthIs(i);
      NthIs(j);
    }
  }
}
