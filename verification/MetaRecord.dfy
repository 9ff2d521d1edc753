/** The per-file metadata record of carter/blobmeta and its tag-length-value form. Strings are byte
    strings, as in the source. All error kinds are folded into None. */
module MetaRecord {
  import opened ByteSeqs

  type Uuid = s: Bytes | |s| == 16 witness Zeros(16)

  const CurrentSchema: U16 := 1
  const NameMax := 255
  const SymlinkTargetMax := 4096
  const MaxRecordLen := 0xFFFF

  const TypeRegular: Byte := 1
  const TypeDir: Byte := 2
  const TypeSymlink: Byte := 3

  const TagSchemaVersion: Byte := 0x01
  const TagFileUUID: Byte := 0x02
  const TagParentDirID: Byte := 0x03
  const TagName: Byte := 0x04
  const TagType: Byte := 0x05
  const TagMode: Byte := 0x06
  const TagUID: Byte := 0x07
  const TagGID: Byte := 0x08
  const TagAtime: Byte := 0x09
  const TagMtime: Byte := 0x0A
  const TagCtime: Byte := 0x0B
  const TagBtime: Byte := 0x0C
  const TagSize: Byte := 0x0D
  const TagSymlinkTarget: Byte := 0x0E
  const TagXattr: Byte := 0x0F

  datatype Xattr = Xattr(name: Bytes, value: Bytes)

  datatype Record = Record(
    schemaVersion: U16, fileUUID: Uuid, parentDirID: Uuid, name: Bytes, fileType: Byte,
    mode: U32, uid: U32, gid: U32, atime: I64, mtime: I64, ctime: I64, btime: I64, size: I64,
    symlinkTarget: Bytes, xattrs: seq<Xattr>)

  const RootDirUUID: Uuid := [67, 65, 82, 84, 69, 82, 45, 82, 79, 79, 84, 0, 0, 0, 0, 0]

  predicate IsRoot(r: Record) {
    r.fileType == TypeDir && r.fileUUID == RootDirUUID && r.parentDirID == Zeros(16)
  }

  // --- validation ---------------------------------------------------------------------------------

  predicate Cont(s: Bytes, i: nat, lo: Byte, hi: Byte) { i < |s| && lo <= s[i] <= hi }

  /** utf8.ValidString: well-formed UTF-8, no surrogates, nothing overlong. */
  predicate ValidUtf8(s: Bytes) {
    if s == [] then true
    else if s[0] < 0x80 then ValidUtf8(s[1..])
    else if 0xC2 <= s[0] <= 0xDF then Cont(s, 1, 0x80, 0xBF) && ValidUtf8(s[2..])
    else if 0xE0 <= s[0] <= 0xEF then
      && Cont(s, 1, if s[0] == 0xE0 then 0xA0 else 0x80, if s[0] == 0xED then 0x9F else 0xBF)
      && Cont(s, 2, 0x80, 0xBF) && ValidUtf8(s[3..])
    else if 0xF0 <= s[0] <= 0xF4 then
      && Cont(s, 1, if s[0] == 0xF0 then 0x90 else 0x80, if s[0] == 0xF4 then 0x8F else 0xBF)
      && Cont(s, 2, 0x80, 0xBF) && Cont(s, 3, 0x80, 0xBF) && ValidUtf8(s[4..])
    else false
  }

  // --- UTF-8 -----------------------------------------------------------------------------------------

  /** The code points that have an encoding: all but the surrogates. */
  predicate Scalar(c: nat) { c <= 0xD7FF || 0xE000 <= c <= 0x10FFFF }

  /** The encoding of one of them: the bits of the code point in groups of six, and in front how many there are. */
  function Utf8(c: nat): (r: Bytes)
    requires Scalar(c)
    ensures r != []
  {
    if c < 0x80 then [c]
    else if c < 0x800 then [0xC0 + c / 64, 0x80 + c % 64]
    else if c < 0x10000 then [0xE0 + c / 64 / 64, 0x80 + c / 64 % 64, 0x80 + c % 64]
    else [0xF0 + c / 64 / 64 / 64, 0x80 + c / 64 / 64 % 64, 0x80 + c / 64 % 64, 0x80 + c % 64]
  }

  ghost predicate Scalars(cs: seq<nat>) { forall i :: 0 <= i < |cs| ==> Scalar(cs[i]) }

  function Utf8All(cs: seq<nat>): Bytes
    requires Scalars(cs)
  {
    if cs == [] then [] else Utf8(cs[0]) + Utf8All(cs[1..])
  }

  /** What follows the encoding of a code point decides. */
  lemma Utf8Front(c: nat, rest: Bytes)
    requires Scalar(c)
    ensures ValidUtf8(Utf8(c) + rest) <==> ValidUtf8(rest)
  {
    var u := Utf8(c);
    var s := u + rest;
    assert s[0] == u[0] && s[|u|..] == rest;
    assert |u| > 1 ==> s[1] == u[1];
    assert |u| > 2 ==> s[2] == u[2];
    assert |u| > 3 ==> s[3] == u[3];
  }

  /** The code point at the front of a well-formed string, from its bytes by arithmetic. */
  lemma FrontScalar(s: Bytes) returns (c: nat)
    requires s != [] && ValidUtf8(s)
    ensures Scalar(c) && Utf8(c) <= s && ValidUtf8(s[|Utf8(c)|..])
  {
    if s[0] < 0x80 {
      c := s[0];
    } else if s[0] < 0xE0 {
      c := Point(s[0] - 0xC0, s[1]);
    } else if s[0] < 0xF0 {
      var d := Point(s[0] - 0xE0, s[1]);
      c := Point(d, s[2]);
    } else {
      var d := Point(s[0] - 0xF0, s[1]);
      var d' := Point(d, s[2]);
      c := Point(d', s[3]);
    }
  }

  /** Six more bits. */
  lemma Point(high: nat, b: Byte) returns (c: nat)
    requires 0x80 <= b <= 0xBF
    ensures c == high * 64 + (b as int - 0x80) && c / 64 == high && 0x80 + c % 64 == b
  {
    var low: nat := b as int - 0x80;
    c := high * 64 + low;
  }

  lemma {:induction false} EncodedIsValid(cs: seq<nat>)
    requires Scalars(cs)
    ensures ValidUtf8(Utf8All(cs))
  {
    if cs != [] {
      hide ValidUtf8, Utf8;
      EncodedIsValid(cs[1..]);
      Utf8Front(cs[0], Utf8All(cs[1..]));
    } else {
      assert ValidUtf8([]);
    }
  }

  lemma {:induction false} ValidIsEncoded(s: Bytes) returns (cs: seq<nat>)
    requires ValidUtf8(s)
    ensures Scalars(cs) && Utf8All(cs) == s
    decreases |s|
  {
    hide ValidUtf8, Utf8;
    cs := [];
    if s != [] {
      var c := FrontScalar(s);
      var rest := s[|Utf8(c)|..];
      var more := ValidIsEncoded(rest);
      cs := [c] + more;
      assert cs[1..] == more && s == Utf8(c) + rest;
    }
  }

  /** A string is accepted exactly if it encodes some sequence of code points. */
  lemma Utf8Exactly(s: Bytes)
    ensures ValidUtf8(s) <==> exists cs: seq<nat> :: Scalars(cs) && Utf8All(cs) == s
  {
    hide ValidUtf8, Utf8All;
    if ValidUtf8(s) {
      var cs := ValidIsEncoded(s);
    }
    if cs: seq<nat> :| Scalars(cs) && Utf8All(cs) == s {
      EncodedIsValid(cs);
    }
  }

  /** The first byte says how many there are. */
  lemma Utf8Len(c: nat)
    requires Scalar(c)
    ensures var u := Utf8(c); |u| == if u[0] < 0x80 then 1 else if u[0] < 0xE0 then 2 else if u[0] < 0xF0 then 3 else 4
  {
  }

  /** Code points are told apart by their encodings, whatever follows. */
  lemma FrontUnique(c: nat, d: nat, x: Bytes, y: Bytes)
    requires Scalar(c) && Scalar(d) && Utf8(c) + x == Utf8(d) + y
    ensures c == d && x == y
  {
    hide Utf8;
    var u, v := Utf8(c), Utf8(d);
    var s, t := u + x, v + y;
    assert s[0] == u[0] && t[0] == v[0];
    Utf8Len(c);
    Utf8Len(d);
    assert s[..|u|] == u && t[..|v|] == v;
    assert s[|u|..] == x && t[|v|..] == y;
    SameBytes(c, d);
  }

  lemma SameBytes(c: nat, d: nat)
    requires Scalar(c) && Scalar(d) && Utf8(c) == Utf8(d)
    ensures c == d
  {
    var u, v := Utf8(c), Utf8(d);
    assert u[0] == v[0];
    if |u| > 1 {
      assert u[|u| - 1] == v[|u| - 1] && c % 64 == d % 64;
      if |u| > 2 {
        assert u[|u| - 2] == v[|u| - 2] && c / 64 % 64 == d / 64 % 64;
        if |u| > 3 {
          assert u[1] == v[1] && c / 64 / 64 % 64 == d / 64 / 64 % 64;
        }
      }
    }
  }

  /** The code points of a name are determined by its bytes. */
  lemma {:induction false} Utf8Injective(cs: seq<nat>, ds: seq<nat>)
    requires Scalars(cs) && Scalars(ds) && Utf8All(cs) == Utf8All(ds)
    ensures cs == ds
  {
    hide Utf8;
    if cs != [] && ds != [] {
      FrontUnique(cs[0], ds[0], Utf8All(cs[1..]), Utf8All(ds[1..]));
      Utf8Injective(cs[1..], ds[1..]);
      assert cs == [cs[0]] + cs[1..] && ds == [ds[0]] + ds[1..];
    }
  }

  predicate ValidName(name: Bytes, isRoot: bool) {
    if name == [] then isRoot
    else |name| <= NameMax && ValidUtf8(name) && 0x2F !in name && 0 !in name && name != [0x2E] && name != [0x2E, 0x2E]
  }

  /** A byte below 0x80 is in a string exactly if it is one of its code points. */
  lemma {:induction false} PlainByte(cs: seq<nat>, b: Byte)
    requires Scalars(cs) && b < 0x80
    ensures b in Utf8All(cs) <==> b in cs
  {
    if cs != [] {
      PlainByte(cs[1..], b);
      assert b in Utf8(cs[0]) <==> b == cs[0];
      assert cs == [cs[0]] + cs[1..];
    }
  }

  /** A name other than the root's: up to 255 bytes that encode code points, none of them a slash or zero, and not
      one of the two directory links. */
  lemma NameExactly(name: Bytes, cs: seq<nat>)
    requires Scalars(cs) && Utf8All(cs) == name
    ensures ValidName(name, false) <==>
            0 < |name| <= 255 && 0x2F !in cs && 0 !in cs && cs != [0x2E] && cs != [0x2E, 0x2E]
    ensures ValidName(name, true) <==> name == [] || ValidName(name, false)
  {
    hide ValidUtf8, Utf8;
    PlainByte(cs, 0x2F);
    PlainByte(cs, 0);
    EncodedIsValid(cs);
    Dots();
    if name == [0x2E] {
      Utf8Injective(cs, [0x2E]);
    }
    if name == [0x2E, 0x2E] {
      Utf8Injective(cs, [0x2E, 0x2E]);
    }
  }

  lemma Dots()
    ensures Utf8All([0x2E]) == [0x2E] && Utf8All([0x2E, 0x2E]) == [0x2E, 0x2E]
  {
    assert [0x2E, 0x2E][1..] == [0x2E] && [0x2E][1..] == [];
  }

  predicate ValidXattr(x: Xattr) { x.name != [] && 2 + |x.name| + |x.value| <= 0xFFFF }

  predicate Validate(r: Record) {
    && r.fileType in {TypeRegular, TypeDir, TypeSymlink}
    && ValidName(r.name, IsRoot(r))
    && (if r.fileType == TypeSymlink
        then r.symlinkTarget != [] && |r.symlinkTarget| <= SymlinkTargetMax && ValidUtf8(r.symlinkTarget)
        else r.symlinkTarget == [])
    && (forall i :: 0 <= i < |r.xattrs| ==> ValidXattr(r.xattrs[i]))
  }

  /** What a valid record is: one of three kinds, of which only links have a target, with a name and attributes that can
      be stored. */
  lemma ValidExactly(r: Record)
    ensures Validate(r) <==>
            && 1 <= r.fileType <= 3 && ValidName(r.name, IsRoot(r))
            && (r.fileType == 3 <==> r.symlinkTarget != []) && |r.symlinkTarget| <= 4096 && ValidUtf8(r.symlinkTarget)
            && forall x :: x in r.xattrs ==> ValidXattr(x)
  {
    hide ValidName, IsRoot;
    assert ValidUtf8([]);
  }

  // --- framing ----------------------------------------------------------------------------------------

  datatype Field = Field(tag: Byte, value: Bytes)

  predicate Framed(fs: seq<Field>) { forall i :: 0 <= i < |fs| ==> |fs[i].value| <= 0xFFFF }

  function TLV(f: Field): Bytes { [f.tag] + BE(|f.value|, 2) + f.value }

  function Encoded(fs: seq<Field>): Bytes {
    if fs == [] then [] else TLV(fs[0]) + Encoded(fs[1..])
  }

  /** The length of the value of the field at the front of the buffer. */
  function FrontLen(buf: Bytes): U16
    requires |buf| >= 3
  {
    U16Of(buf[1..3])
  }

  predicate HasFront(buf: Bytes) { |buf| >= 3 && 3 + FrontLen(buf) <= |buf| }

  function Front(buf: Bytes): (f: Field)
    requires HasFront(buf)
    ensures |f.value| <= 0xFFFF
  {
    Field(buf[0], buf[3..3 + FrontLen(buf)])
  }

  function AfterFront(buf: Bytes): Bytes
    requires HasFront(buf)
  {
    buf[3 + FrontLen(buf)..]
  }

  /** The fields of a buffer, unless it is truncated. */
  function Split(buf: Bytes): Option<seq<Field>> {
    if buf == [] then Some([])
    else if !HasFront(buf) then None
    else
      match Split(AfterFront(buf))
      case None => None
      case Some(rest) => Some([Front(buf)] + rest)
  }

  lemma FrontOfTLV(f: Field, rest: Bytes)
    requires |f.value| <= 0xFFFF
    ensures HasFront(TLV(f) + rest) && Front(TLV(f) + rest) == f && AfterFront(TLV(f) + rest) == rest
  {
    var buf := TLV(f) + rest;
    assert buf[1..3] == BE(|f.value|, 2);
    IntegersRoundTrip(|f.value|, 0, 0);
    assert buf[3..3 + |f.value|] == f.value && buf[3 + |f.value|..] == rest;
  }

  lemma TLVofFront(buf: Bytes)
    requires HasFront(buf)
    ensures buf == TLV(Front(buf)) + AfterFront(buf)
  {
    var b := buf[1..3];
    assert FromBE(b[..1]) == b[0] by { assert b[..1][..0] == []; }
    assert FromBE(b) == FromBE(b[..1]) * 256 + b[1];
    assert BE(FrontLen(buf), 2) == BE(b[0], 1) + [b[1]] == b by { assert BE(b[0], 1) == BE(0, 0) + [b[0]]; }
  }

  /** Splitting and encoding are inverse to each other. */
  lemma {:induction false} SplitEncoded(fs: seq<Field>)
    requires Framed(fs)
    ensures Split(Encoded(fs)) == Some(fs)
  {
    if fs != [] {
      FrontOfTLV(fs[0], Encoded(fs[1..]));
      SplitEncoded(fs[1..]);
      assert [fs[0]] + fs[1..] == fs;
    }
  }

  lemma {:induction false} EncodedSplit(buf: Bytes)
    ensures Split(buf).Some? ==> Framed(Split(buf).value) && Encoded(Split(buf).value) == buf
  {
    if buf != [] && HasFront(buf) {
      EncodedSplit(AfterFront(buf));
      TLVofFront(buf);
    }
  }

  lemma {:induction false} EncodedAppend(fs: seq<Field>, f: Field)
    ensures Encoded(fs + [f]) == Encoded(fs) + TLV(f)
  {
    if fs == [] {
      assert Encoded([f][1..]) == [];
    } else {
      EncodedAppend(fs[1..], f);
      assert (fs + [f])[1..] == fs[1..] + [f];
    }
  }

  // --- what the fields mean ---------------------------------------------------------------------------

  function ParseXattr(val: Bytes): Option<Xattr> {
    if |val| < 2 then None
    else
      var nl := U16Of(val[..2]);
      if 2 + nl > |val| then None else Some(Xattr(val[2..2 + nl], val[2 + nl..]))
  }

  /** A known tag with a value it can carry. */
  predicate FieldOk(f: Field) {
    if f.tag == TagSchemaVersion then |f.value| == 2
    else if f.tag == TagFileUUID || f.tag == TagParentDirID then |f.value| == 16
    else if f.tag == TagType then |f.value| == 1
    else if f.tag == TagMode || f.tag == TagUID || f.tag == TagGID then |f.value| == 4
    else if f.tag == TagXattr then ParseXattr(f.value).Some?
    else f.tag == TagName || TagAtime <= f.tag <= TagSymlinkTarget
  }

  /** Only known tags, and only extended attributes repeat. */
  ghost predicate Good(fs: seq<Field>) {
    && (forall i :: 0 <= i < |fs| ==> FieldOk(fs[i]))
    && (forall i, j :: 0 <= i < j < |fs| && fs[i].tag == fs[j].tag ==> fs[i].tag == TagXattr)
  }

  ghost predicate HasTag(fs: seq<Field>, tag: Byte) { exists i :: 0 <= i < |fs| && fs[i].tag == tag }

  ghost predicate Complete(fs: seq<Field>) {
    HasTag(fs, TagFileUUID) && HasTag(fs, TagParentDirID) && HasTag(fs, TagName) && HasTag(fs, TagType)
  }

  /** The value under a tag; the empty string if there is none. */
  function Value(fs: seq<Field>, tag: Byte): Bytes {
    if fs == [] then []
    else if fs[|fs| - 1].tag == tag then fs[|fs| - 1].value
    else Value(fs[..|fs| - 1], tag)
  }

  function XattrsOf(fs: seq<Field>): seq<Xattr> {
    if fs == [] then []
    else
      var f, before := fs[|fs| - 1], XattrsOf(fs[..|fs| - 1]);
      if f.tag == TagXattr && ParseXattr(f.value).Some? then before + [ParseXattr(f.value).value] else before
  }

  function U16At(b: Bytes): U16 { if |b| == 2 then U16Of(b) else 0 }

  function U32At(b: Bytes): U32 { if |b| == 4 then U32Of(b) else 0 }

  function UuidAt(b: Bytes): Uuid { if |b| == 16 then b else Zeros(16) }

  function ByteAt(b: Bytes): Byte { if |b| == 1 then b[0] else 0 }

  /** The record that a list of fields describes; absent fields are zero or empty. */
  function RecordOf(fs: seq<Field>): Record {
    Record(U16At(Value(fs, TagSchemaVersion)), UuidAt(Value(fs, TagFileUUID)), UuidAt(Value(fs, TagParentDirID)),
           Value(fs, TagName), ByteAt(Value(fs, TagType)),
           U32At(Value(fs, TagMode)), U32At(Value(fs, TagUID)), U32At(Value(fs, TagGID)),
           ReadI64(Value(fs, TagAtime)), ReadI64(Value(fs, TagMtime)), ReadI64(Value(fs, TagCtime)),
           ReadI64(Value(fs, TagBtime)), ReadI64(Value(fs, TagSize)), Value(fs, TagSymlinkTarget), XattrsOf(fs))
  }

  /** The reference for decoding: which byte strings are records, and what they say. */
  ghost function Unmarshaled(buf: Bytes): Option<Record> {
    match Split(buf)
    case None => None
    case Some(fs) => if Good(fs) && Complete(fs) && Validate(RecordOf(fs)) then Some(RecordOf(fs)) else None
  }

  // --- decoding -----------------------------------------------------------------------------------------

  /** The switch in UnmarshalRecord: one field stored into the record. */
  function Store(r: Record, tag: Byte, val: Bytes): Option<Record> {
    if tag == TagSchemaVersion then if |val| != 2 then None else Some(r.(schemaVersion := U16Of(val)))
    else if tag == TagFileUUID then if |val| != 16 then None else Some(r.(fileUUID := val))
    else if tag == TagParentDirID then if |val| != 16 then None else Some(r.(parentDirID := val))
    else if tag == TagName then Some(r.(name := val))
    else if tag == TagType then if |val| != 1 then None else Some(r.(fileType := val[0]))
    else if tag == TagMode then if |val| != 4 then None else Some(r.(mode := U32Of(val)))
    else if tag == TagUID then if |val| != 4 then None else Some(r.(uid := U32Of(val)))
    else if tag == TagGID then if |val| != 4 then None else Some(r.(gid := U32Of(val)))
    else if tag == TagAtime then Some(r.(atime := ReadI64(val)))
    else if tag == TagMtime then Some(r.(mtime := ReadI64(val)))
    else if tag == TagCtime then Some(r.(ctime := ReadI64(val)))
    else if tag == TagBtime then Some(r.(btime := ReadI64(val)))
    else if tag == TagSize then Some(r.(size := ReadI64(val)))
    else if tag == TagSymlinkTarget then Some(r.(symlinkTarget := val))
    else if tag == TagXattr then
      match ParseXattr(val)
      case None => None
      case Some(x) => Some(r.(xattrs := r.xattrs + [x]))
    else None
  }

  lemma ValueAppend(fs: seq<Field>, f: Field, tag: Byte)
    ensures Value(fs + [f], tag) == if f.tag == tag then f.value else Value(fs, tag)
  {
    assert (fs + [f])[..|fs|] == fs;
  }

  lemma StoreField(fs: seq<Field>, f: Field)
    ensures Store(RecordOf(fs), f.tag, f.value) == if FieldOk(f) then Some(RecordOf(fs + [f])) else None
  {
    hide Value, ReadI64, U16Of, U32Of, ParseXattr, Zeros;
    forall t: Byte ensures Value(fs + [f], t) == if f.tag == t then f.value else Value(fs, t) { ValueAppend(fs, f, t); }
    assert (fs + [f])[..|fs|] == fs;
  }

  const Blank := Record(0, Zeros(16), Zeros(16), [], 0, 0, 0, 0, 0, 0, 0, 0, 0, [], [])

  /** A list that starts badly stays bad. */
  lemma BadPrefix(fs: seq<Field>, f: Field, rest: seq<Field>)
    requires !FieldOk(f) || (f.tag != TagXattr && HasTag(fs, f.tag))
    ensures !Good(fs + [f] + rest)
  {
    var all := fs + [f] + rest;
    assert all[|fs|] == f;
    if FieldOk(f) {
      var i :| 0 <= i < |fs| && fs[i].tag == f.tag;
      assert all[i] == fs[i];
    }
  }

  method UnmarshalRecord(buf: Bytes) returns (r: Option<Record>)
    ensures r == Unmarshaled(buf)
  {
    hide Good, HasTag, Store, FieldOk, RecordOf, Split, U16Of, Unmarshaled, Validate, Behind;
    Untouched(buf);
    var rec, got: set<Byte> := Blank, {};
    ghost var fs: seq<Field> := [];
    var i := 0;
    while i < |buf|
      invariant 0 <= i <= |buf| && Good(fs) && rec == RecordOf(fs)
      invariant forall t: Byte :: t in got <==> t != TagXattr && HasTag(fs, t)
      invariant Split(buf) == Behind(fs, Split(buf[i..]))
    {
      SplitStep(buf, i);
      if i + 3 > |buf| {
        Cut(buf, fs, i);
        return None;
      }
      var tag, l := buf[i], U16Of(buf[i + 1..i + 3]);
      i := i + 3;
      if i + l > |buf| {
        Cut(buf, fs, i - 3);
        return None;
      }
      var val := buf[i..i + l];
      i := i + l;
      ghost var f := Field(tag, val);
      var repeated := tag != TagXattr && tag in got;
      if tag != TagXattr {
        got := got + {tag};
      }
      var stored := Store(rec, tag, val);
      StoreField(fs, f);
      if repeated || stored.None? {
        Refused(buf, fs, f, i);
        return None;
      }
      rec := stored.value;
      Taken(fs, f);
      BehindMore(fs, f, Split(buf[i..]));
      fs := fs + [f];
    }
    AllTaken(buf, fs);
    return if TagFileUUID in got && TagParentDirID in got && TagName in got && TagType in got && Validate(rec)
      then Some(rec) else None;
  }

  lemma Untouched(buf: Bytes)
    ensures Split(buf) == Behind([], Split(buf[0..])) && Good([]) && RecordOf([]) == Blank
    ensures forall t: Byte :: !HasTag([], t)
  {
    assert buf[0..] == buf;
    BehindNothing(Split(buf));
  }

  lemma Cut(buf: Bytes, fs: seq<Field>, i: nat)
    requires i <= |buf| && Split(buf) == Behind(fs, Split(buf[i..])) && Split(buf[i..]) == None
    ensures Unmarshaled(buf) == None
  {
  }

  lemma AllTaken(buf: Bytes, fs: seq<Field>)
    requires Split(buf) == Behind(fs, Split(buf[|buf|..])) && Good(fs)
    ensures Unmarshaled(buf) == if Complete(fs) && Validate(RecordOf(fs)) then Some(RecordOf(fs)) else None
  {
    assert buf[|buf|..] == [] && fs + [] == fs;
  }

  lemma SplitStep(buf: Bytes, i: nat)
    requires i < |buf|
    ensures i + 3 > |buf| || i + 3 + U16Of(buf[i + 1..i + 3]) > |buf| ==> Split(buf[i..]) == None
    ensures i + 3 <= |buf| && i + 3 + U16Of(buf[i + 1..i + 3]) <= |buf| ==>
              var j := i + 3 + U16Of(buf[i + 1..i + 3]);
              Split(buf[i..]) == Behind([Field(buf[i], buf[i + 3..j])], Split(buf[j..]))
  {
    var b := buf[i..];
    if |b| >= 3 {
      assert b[1..3] == buf[i + 1..i + 3];
      if HasFront(b) {
        var j := i + 3 + FrontLen(b);
        assert b[3..3 + FrontLen(b)] == buf[i + 3..j] && AfterFront(b) == buf[j..];
      }
    }
  }

  lemma Taken(fs: seq<Field>, f: Field)
    requires Good(fs) && FieldOk(f) && (f.tag == TagXattr || !HasTag(fs, f.tag))
    ensures Good(fs + [f])
    ensures forall t: Byte :: HasTag(fs + [f], t) <==> HasTag(fs, t) || t == f.tag
  {
    forall t: Byte ensures HasTag(fs + [f], t) <==> HasTag(fs, t) || t == f.tag {
      if HasTag(fs, t) {
        var i :| 0 <= i < |fs| && fs[i].tag == t;
        assert (fs + [f])[i].tag == t;
      }
      assert (fs + [f])[|fs|] == f;
    }
  }

  lemma Refused(buf: Bytes, fs: seq<Field>, f: Field, i: nat)
    requires i <= |buf| && (!FieldOk(f) || (f.tag != TagXattr && HasTag(fs, f.tag)))
    requires Split(buf) == Behind(fs, Behind([f], Split(buf[i..])))
    ensures Unmarshaled(buf) == None
  {
    hide Split, Good, Complete, Validate, RecordOf, FieldOk, HasTag;
    if Split(buf[i..]).Some? {
      var rest := Split(buf[i..]).value;
      BadPrefix(fs, f, rest);
      assert fs + ([f] + rest) == fs + [f] + rest;
    }
  }

  // --- encoding -----------------------------------------------------------------------------------------

  function EffectiveSchema(r: Record): U16 { if r.schemaVersion == 0 then CurrentSchema else r.schemaVersion }

  /** What a record reads back as: version 0 is written as the current one. */
  function Normalized(r: Record): Record { r.(schemaVersion := EffectiveSchema(r)) }

  function IdentityFields(r: Record): seq<Field> {
    [Field(TagSchemaVersion, BE(EffectiveSchema(r), 2)), Field(TagFileUUID, r.fileUUID),
     Field(TagParentDirID, r.parentDirID), Field(TagName, r.name), Field(TagType, [r.fileType])]
  }

  function OwnerFields(r: Record): seq<Field> {
    [Field(TagMode, BE(r.mode, 4)), Field(TagUID, BE(r.uid, 4)), Field(TagGID, BE(r.gid, 4))]
  }

  function TimeFields(r: Record): seq<Field> {
    [Field(TagAtime, PutI64(r.atime)), Field(TagMtime, PutI64(r.mtime)), Field(TagCtime, PutI64(r.ctime)),
     Field(TagBtime, PutI64(r.btime)), Field(TagSize, PutI64(r.size))]
  }

  function FixedFields(r: Record): (fs: seq<Field>)
    ensures |fs| == 13
  {
    IdentityFields(r) + OwnerFields(r) + TimeFields(r)
  }

  function SymlinkFields(r: Record): seq<Field> {
    if r.fileType == TypeSymlink then [Field(TagSymlinkTarget, r.symlinkTarget)] else []
  }

  function XattrField(x: Xattr): Field { Field(TagXattr, BE(|x.name|, 2) + x.name + x.value) }

  /** An attribute is valid exactly if it has a name and its value fits the 16-bit length of a field. */
  lemma XattrFits(x: Xattr)
    ensures ValidXattr(x) <==> x.name != [] && Framed([XattrField(x)])
  {
    if Framed([XattrField(x)]) {
      assert |[XattrField(x)][0].value| <= 0xFFFF;
    }
  }

  function XattrFields(xs: seq<Xattr>): (fs: seq<Field>)
    ensures |fs| == |xs| && forall i :: 0 <= i < |xs| ==> fs[i] == XattrField(xs[i])
  {
    seq(|xs|, i requires 0 <= i < |xs| => XattrField(xs[i]))
  }

  function Fields(r: Record): seq<Field> { FixedFields(r) + SymlinkFields(r) + XattrFields(r.xattrs) }

  /** The tags in the order in which they are written, and the width of their values. */
  lemma FieldOrder(r: Record)
    ensures var fs := Fields(r);
            && (forall i :: 0 <= i < 13 ==> fs[i].tag == i + 1)
            && |fs[0].value| == 2 && |fs[1].value| == |fs[2].value| == 16 && fs[3].value == r.name && fs[4].value == [r.fileType]
            && (forall i :: 5 <= i < 8 ==> |fs[i].value| == 4) && (forall i :: 8 <= i < 13 ==> |fs[i].value| == 8)
            && |fs| == 13 + (if r.fileType == 3 then 1 else 0) + |r.xattrs|
            && (r.fileType == 3 ==> fs[13] == Field(14, r.symlinkTarget))
            && forall i :: |fs| - |r.xattrs| <= i < |fs| ==> fs[i].tag == 15
  {
    FixedOrder(r);
    hide FixedFields;
    var fs := Fields(r);
    assert forall i :: 0 <= i < 13 ==> fs[i] == FixedFields(r)[i];
  }

  lemma FixedOrder(r: Record)
    ensures var fs := FixedFields(r);
            && (forall i :: 0 <= i < 13 ==> fs[i].tag == i + 1)
            && |fs[0].value| == 2 && |fs[1].value| == |fs[2].value| == 16 && fs[3].value == r.name && fs[4].value == [r.fileType]
            && (forall i :: 5 <= i < 8 ==> |fs[i].value| == 4) && (forall i :: 8 <= i < 13 ==> |fs[i].value| == 8)
  {
    hide BE;
    var a, b, c := IdentityFields(r), OwnerFields(r), TimeFields(r);
    var fs := FixedFields(r);
    assert fs[0] == a[0] && fs[1] == a[1] && fs[2] == a[2] && fs[3] == a[3] && fs[4] == a[4];
    assert fs[5] == b[0] && fs[6] == b[1] && fs[7] == b[2];
    assert fs[8] == c[0] && fs[9] == c[1] && fs[10] == c[2] && fs[11] == c[3] && fs[12] == c[4];
  }

  /** appendTLV, with the list of fields written so far. */
  method AppendTLV(dst: Bytes, tag: Byte, value: Bytes, ghost fs: seq<Field>) returns (r: Bytes, ghost fs': seq<Field>)
    requires |value| <= 0xFFFF && dst == Encoded(fs)
    ensures r == Encoded(fs + [Field(tag, value)]) && fs' == fs + [Field(tag, value)]
  {
    EncodedAppend(fs, Field(tag, value));
    return dst + [tag] + BE(|value|, 2) + value, fs + [Field(tag, value)];
  }

  method AppendIdentity(r: Record) returns (buf: Bytes)
    requires Validate(r)
    ensures buf == Encoded(IdentityFields(r))
  {
    assert |r.name| <= 0xFFFF;
    hide Encoded, BE, Validate;
    ghost var fs: seq<Field> := [];
    assert [] == Encoded([]);
    buf, fs := AppendTLV([], TagSchemaVersion, BE(EffectiveSchema(r), 2), []);
    buf, fs := AppendTLV(buf, TagFileUUID, r.fileUUID, fs);
    buf, fs := AppendTLV(buf, TagParentDirID, r.parentDirID, fs);
    buf, fs := AppendTLV(buf, TagName, r.name, fs);
    buf, fs := AppendTLV(buf, TagType, [r.fileType], fs);
    assert fs == IdentityFields(r);
  }

  method AppendOwner(r: Record, dst: Bytes, ghost before: seq<Field>) returns (buf: Bytes)
    requires dst == Encoded(before)
    ensures buf == Encoded(before + OwnerFields(r))
  {
    hide Encoded, BE;
    ghost var fs := before;
    buf, fs := AppendTLV(dst, TagMode, BE(r.mode, 4), fs);
    buf, fs := AppendTLV(buf, TagUID, BE(r.uid, 4), fs);
    buf, fs := AppendTLV(buf, TagGID, BE(r.gid, 4), fs);
    assert fs == before + OwnerFields(r);
  }

  method AppendTimes(r: Record, dst: Bytes, ghost before: seq<Field>) returns (buf: Bytes)
    requires dst == Encoded(before)
    ensures buf == Encoded(before + TimeFields(r))
  {
    hide Encoded, PutI64;
    ghost var fs := before;
    buf, fs := AppendTLV(dst, TagAtime, PutI64(r.atime), fs);
    buf, fs := AppendTLV(buf, TagMtime, PutI64(r.mtime), fs);
    buf, fs := AppendTLV(buf, TagCtime, PutI64(r.ctime), fs);
    buf, fs := AppendTLV(buf, TagBtime, PutI64(r.btime), fs);
    buf, fs := AppendTLV(buf, TagSize, PutI64(r.size), fs);
    assert fs == before + TimeFields(r);
  }

  method Marshal(r: Record) returns (buf: Option<Bytes>)
    ensures buf.Some? <==> Validate(r) && |Encoded(Fields(r))| <= MaxRecordLen
    ensures buf.Some? ==> buf.value == Encoded(Fields(r))
  {
    hide Encoded, BE, IdentityFields, OwnerFields, TimeFields, ValidUtf8;
    if !Validate(r) {
      return None;
    }
    var b := AppendIdentity(r);
    b := AppendOwner(r, b, IdentityFields(r));
    b := AppendTimes(r, b, IdentityFields(r) + OwnerFields(r));
    ghost var fs := FixedFields(r);
    hide FixedFields;
    assert fs + [] == fs;
    if r.fileType == TypeSymlink {
      b, fs := AppendTLV(b, TagSymlinkTarget, r.symlinkTarget, fs);
    }
    for i := 0 to |r.xattrs|
      invariant fs == FixedFields(r) + SymlinkFields(r) + XattrFields(r.xattrs[..i]) && b == Encoded(fs)
    {
      var x := r.xattrs[i];
      assert ValidXattr(x);
      b, fs := AppendTLV(b, TagXattr, BE(|x.name|, 2) + x.name + x.value, fs);
      assert XattrFields(r.xattrs[..i + 1]) == XattrFields(r.xattrs[..i]) + [XattrField(x)];
    }
    assert r.xattrs[..|r.xattrs|] == r.xattrs;
    return if |b| > MaxRecordLen then None else Some(b);
  }

  // --- round trip -----------------------------------------------------------------------------------------

  lemma {:induction false} ValueAt(fs: seq<Field>, k: nat)
    requires Good(fs) && k < |fs| && fs[k].tag != TagXattr
    ensures Value(fs, fs[k].tag) == fs[k].value
  {
    if k < |fs| - 1 {
      ValueAt(fs[..|fs| - 1], k);
    }
  }

  lemma {:induction false} ValueMissing(fs: seq<Field>, tag: Byte)
    requires !HasTag(fs, tag)
    ensures Value(fs, tag) == []
  {
    if fs != [] {
      var before := fs[..|fs| - 1];
      forall i | 0 <= i < |before| ensures before[i].tag != tag { assert before[i] == fs[i]; }
      ValueMissing(before, tag);
    }
  }

  lemma XattrRoundTrip(x: Xattr)
    requires ValidXattr(x)
    ensures ParseXattr(XattrField(x).value) == Some(x)
  {
    var v := XattrField(x).value;
    assert v[..2] == BE(|x.name|, 2);
    IntegersRoundTrip(|x.name|, 0, 0);
    assert v[2..2 + |x.name|] == x.name && v[2 + |x.name|..] == x.value;
  }

  lemma {:induction false} NoXattrs(fs: seq<Field>)
    requires !HasTag(fs, TagXattr)
    ensures XattrsOf(fs) == []
  {
    if fs != [] {
      var before := fs[..|fs| - 1];
      forall i | 0 <= i < |before| ensures before[i].tag != TagXattr { assert before[i] == fs[i]; }
      NoXattrs(before);
    }
  }

  lemma {:induction false} XattrsRoundTrip(fs: seq<Field>, xs: seq<Xattr>)
    requires !HasTag(fs, TagXattr) && forall i :: 0 <= i < |xs| ==> ValidXattr(xs[i])
    ensures XattrsOf(fs + XattrFields(xs)) == xs
  {
    hide ParseXattr, BE, HasTag;
    var all := fs + XattrFields(xs);
    if xs == [] {
      assert all == fs;
      NoXattrs(fs);
    } else {
      var n := |xs| - 1;
      assert all[..|all| - 1] == fs + XattrFields(xs[..n]);
      XattrsRoundTrip(fs, xs[..n]);
      XattrRoundTrip(xs[n]);
    }
  }

  lemma FixedTags(r: Record)
    requires Validate(r)
    ensures forall k :: 0 <= k < 13 ==> FixedFields(r)[k].tag == k + 1 && FieldOk(FixedFields(r)[k])
                                        && |FixedFields(r)[k].value| <= 0xFFFF
  {
    hide BE, PutI64, ValidUtf8;
  }

  lemma FieldAt(r: Record, k: nat)
    requires Validate(r) && k < |Fields(r)|
    ensures FieldOk(Fields(r)[k]) && |Fields(r)[k].value| <= 0xFFFF
    ensures var n := |FixedFields(r) + SymlinkFields(r)|;
            Fields(r)[k].tag == (if k < 13 then k + 1 else if k < n then TagSymlinkTarget else TagXattr)
  {
    FixedTags(r);
    hide FixedFields, ValidUtf8;
    if k >= |FixedFields(r) + SymlinkFields(r)| {
      var x := r.xattrs[k - |FixedFields(r) + SymlinkFields(r)|];
      assert ValidXattr(x);
      XattrRoundTrip(x);
    }
  }

  lemma FieldsGood(r: Record)
    requires Validate(r)
    ensures Good(Fields(r)) && Framed(Fields(r)) && Complete(Fields(r))
    ensures HasTag(Fields(r), TagSymlinkTarget) <==> r.fileType == TypeSymlink
    ensures !HasTag(FixedFields(r) + SymlinkFields(r), TagXattr)
  {
    hide FixedFields, XattrFields, FieldOk, Validate;
    var fs, head := Fields(r), FixedFields(r) + SymlinkFields(r);
    forall k | 0 <= k < |fs|
      ensures FieldOk(fs[k]) && |fs[k].value| <= 0xFFFF
      ensures fs[k].tag == (if k < 13 then k + 1 else if k < |head| then TagSymlinkTarget else TagXattr)
    {
      FieldAt(r, k);
    }
    assert fs[1].tag == TagFileUUID && fs[2].tag == TagParentDirID && fs[3].tag == TagName && fs[4].tag == TagType;
    if r.fileType == TypeSymlink {
      assert fs[13].tag == TagSymlinkTarget;
    }
    forall k | 0 <= k < |head| ensures head[k].tag != TagXattr { assert head[k] == fs[k]; }
  }

  lemma IdentityBack(r: Record)
    requires Good(Fields(r))
    ensures var fs := Fields(r);
            && U16At(Value(fs, TagSchemaVersion)) == EffectiveSchema(r)
            && Value(fs, TagFileUUID) == r.fileUUID && Value(fs, TagParentDirID) == r.parentDirID
            && Value(fs, TagName) == r.name && Value(fs, TagType) == [r.fileType]
  {
    hide Value, Good, BE, PutI64, XattrFields, SymlinkFields;
    var fs := Fields(r);
    ValueAt(fs, 0);
    ValueAt(fs, 1);
    ValueAt(fs, 2);
    ValueAt(fs, 3);
    ValueAt(fs, 4);
    IntegersRoundTrip(EffectiveSchema(r), 0, 0);
  }

  lemma OwnerBack(r: Record)
    requires Good(Fields(r))
    ensures var fs := Fields(r);
            && U32At(Value(fs, TagMode)) == r.mode && U32At(Value(fs, TagUID)) == r.uid && U32At(Value(fs, TagGID)) == r.gid
  {
    hide Value, Good, BE, PutI64, XattrFields, SymlinkFields;
    var fs := Fields(r);
    ValueAt(fs, 5);
    ValueAt(fs, 6);
    ValueAt(fs, 7);
    IntegersRoundTrip(0, r.mode, 0);
    IntegersRoundTrip(0, r.uid, 0);
    IntegersRoundTrip(0, r.gid, 0);
  }

  lemma TimesBack(r: Record)
    requires Good(Fields(r))
    ensures var fs := Fields(r);
            && ReadI64(Value(fs, TagAtime)) == r.atime && ReadI64(Value(fs, TagMtime)) == r.mtime
            && ReadI64(Value(fs, TagCtime)) == r.ctime && ReadI64(Value(fs, TagBtime)) == r.btime
            && ReadI64(Value(fs, TagSize)) == r.size
  {
    hide Value, Good, BE, PutI64, ReadI64, XattrFields, SymlinkFields;
    var fs := Fields(r);
    ValueAt(fs, 8);
    ValueAt(fs, 9);
    ValueAt(fs, 10);
    ValueAt(fs, 11);
    ValueAt(fs, 12);
    IntegersRoundTrip(0, 0, r.atime);
    IntegersRoundTrip(0, 0, r.mtime);
    IntegersRoundTrip(0, 0, r.ctime);
    IntegersRoundTrip(0, 0, r.btime);
    IntegersRoundTrip(0, 0, r.size);
  }

  lemma SymlinkBack(r: Record)
    requires Validate(r)
    ensures Value(Fields(r), TagSymlinkTarget) == r.symlinkTarget
  {
    hide FixedFields, XattrFields, ValidUtf8, Value;
    FieldsGood(r);
    if r.fileType == TypeSymlink {
      assert Fields(r)[13] == Field(TagSymlinkTarget, r.symlinkTarget);
      ValueAt(Fields(r), 13);
    } else {
      ValueMissing(Fields(r), TagSymlinkTarget);
    }
  }

  /** Decoding undoes encoding. */
  lemma RecordRoundTrip(r: Record)
    requires Validate(r)
    ensures Unmarshaled(Encoded(Fields(r))) == Some(r.(schemaVersion := if r.schemaVersion == 0 then 1 else r.schemaVersion))
  {
    hide Value, XattrsOf, Good, HasTag, Encoded, Split, ReadI64, U16At, U32At, FixedFields, SymlinkFields, XattrFields;
    FieldsGood(r);
    SplitEncoded(Fields(r));
    IdentityBack(r);
    OwnerBack(r);
    TimesBack(r);
    SymlinkBack(r);
    assert forall i :: 0 <= i < |r.xattrs| ==> ValidXattr(r.xattrs[i]);
    XattrsRoundTrip(FixedFields(r) + SymlinkFields(r), r.xattrs);
    assert RecordOf(Fields(r)) == Normalized(r);
  }

  // --- lengths ----------------------------------------------------------------------------------------------

  lemma {:induction false} EncodedConcat(a: seq<Field>, b: seq<Field>)
    ensures Encoded(a + b) == Encoded(a) + Encoded(b)
  {
    hide TLV;
    if a == [] {
      assert a + b == b;
    } else {
      EncodedConcat(a[1..], b);
      assert (a + b)[0] == a[0] && (a + b)[1..] == a[1..] + b;
      Reassociate(TLV(a[0]), Encoded(a[1..]), Encoded(b));
    }
  }

  lemma EncodedOne(f: Field)
    ensures |Encoded([f])| == 3 + |f.value|
  {
    assert Encoded([f][1..]) == [];
  }

  lemma EncodedFirst(fs: seq<Field>)
    requires fs != []
    ensures |Encoded(fs)| == 3 + |fs[0].value| + |Encoded(fs[1..])|
  {
  }

  lemma IdentityLength(r: Record)
    ensures |Encoded(IdentityFields(r))| == 50 + |r.name|
  {
    hide Encoded, BE;
    var fs := IdentityFields(r);
    EncodedFirst(fs);
    EncodedFirst(fs[1..]);
    EncodedFirst(fs[2..]);
    EncodedFirst(fs[3..]);
    EncodedOne(fs[4]);
    assert fs[1..][1..] == fs[2..] && fs[2..][1..] == fs[3..] && fs[3..][1..] == [fs[4]];
  }

  lemma OwnerLength(r: Record)
    ensures |Encoded(OwnerFields(r))| == 21
  {
    hide Encoded, BE;
    var fs := OwnerFields(r);
    EncodedFirst(fs);
    EncodedFirst(fs[1..]);
    EncodedOne(fs[2]);
    assert fs[1..][1..] == [fs[2]];
  }

  lemma TimeLength(r: Record)
    ensures |Encoded(TimeFields(r))| == 55
  {
    hide Encoded, PutI64;
    var fs := TimeFields(r);
    EncodedFirst(fs);
    EncodedFirst(fs[1..]);
    EncodedFirst(fs[2..]);
    EncodedFirst(fs[3..]);
    EncodedOne(fs[4]);
    assert fs[1..][1..] == fs[2..] && fs[2..][1..] == fs[3..] && fs[3..][1..] == [fs[4]];
  }

  function XattrsLen(xs: seq<Xattr>): nat {
    if xs == [] then 0 else XattrsLen(xs[..|xs| - 1]) + 5 + |xs[|xs| - 1].name| + |xs[|xs| - 1].value|
  }

  lemma {:induction false} XattrsLength(xs: seq<Xattr>)
    ensures |Encoded(XattrFields(xs))| == XattrsLen(xs)
  {
    if xs != [] {
      hide Encoded, BE;
      var n := |xs| - 1;
      XattrsLength(xs[..n]);
      assert XattrFields(xs) == XattrFields(xs[..n]) + [XattrField(xs[n])];
      EncodedConcat(XattrFields(xs[..n]), [XattrField(xs[n])]);
      EncodedOne(XattrField(xs[n]));
    } else {
      assert XattrFields(xs) == [];
    }
  }

  /** The length of an encoded record, from its parts. */
  function RecordLen(r: Record): nat {
    126 + |r.name| + (if r.fileType == TypeSymlink then 3 + |r.symlinkTarget| else 0) + XattrsLen(r.xattrs)
  }

  lemma RecordLength(r: Record)
    ensures |Encoded(Fields(r))| == RecordLen(r)
  {
    hide Encoded, IdentityFields, OwnerFields, TimeFields;
    IdentityLength(r);
    OwnerLength(r);
    TimeLength(r);
    XattrsLength(r.xattrs);
    EncodedConcat(IdentityFields(r), OwnerFields(r));
    EncodedConcat(IdentityFields(r) + OwnerFields(r), TimeFields(r));
    EncodedConcat(FixedFields(r), SymlinkFields(r));
    EncodedConcat(FixedFields(r) + SymlinkFields(r), XattrFields(r.xattrs));
    if r.fileType == TypeSymlink {
      EncodedOne(SymlinkFields(r)[0]);
    } else {
      EncodedNone();
    }
  }

  lemma EncodedNone()
    ensures Encoded([]) == []
  {
  }

  /** Whatever is accepted is a valid record. It can be stored again exactly if it is no longer than a record may be,
      which optional fields absent so far can bring about; and then storing it loses nothing. */
  lemma AcceptedIsStable(buf: Bytes)
    requires Unmarshaled(buf).Some?
    ensures var r := Unmarshaled(buf).value;
            && Validate(r) && (|Encoded(Fields(r))| <= MaxRecordLen <==> RecordLen(r) <= MaxRecordLen)
            && Unmarshaled(Encoded(Fields(r))) == Some(Normalized(r))
  {
    RecordLength(Unmarshaled(buf).value);
    RecordRoundTrip(Unmarshaled(buf).value);
  }

  /** Only the required fields, and one large attribute. */
  function BareFields(x: Xattr): seq<Field> {
    [Field(TagFileUUID, Zeros(16)), Field(TagParentDirID, Zeros(16)), Field(TagName, [97]), Field(TagType, [TypeRegular])]
    + XattrFields([x])
  }

  lemma BareGood(x: Xattr)
    requires ValidXattr(x)
    ensures Good(BareFields(x)) && Framed(BareFields(x)) && Complete(BareFields(x))
  {
    hide XattrField, HasTag;
    BareTags(x);
    BareOk(x);
    var fs := BareFields(x);
    assert fs[0].tag == TagFileUUID && fs[1].tag == TagParentDirID && fs[2].tag == TagName && fs[3].tag == TagType && fs[4].tag == TagXattr;
  }

  lemma BareOk(x: Xattr)
    requires ValidXattr(x)
    ensures |BareFields(x)| == 5 && BareFields(x)[4].tag == TagXattr
    ensures forall i :: 0 <= i < 5 ==> FieldOk(BareFields(x)[i]) && |BareFields(x)[i].value| <= 0xFFFF
  {
    XattrRoundTrip(x);
  }

  lemma BareTags(x: Xattr)
    ensures Complete(BareFields(x))
    ensures !HasTag(BareFields(x), TagSymlinkTarget) && !HasTag(BareFields(x)[..4], TagXattr)
  {
    var fs := BareFields(x);
    assert fs[0].tag == TagFileUUID && fs[1].tag == TagParentDirID && fs[2].tag == TagName && fs[3].tag == TagType && fs[4].tag == TagXattr;
  }

  /** A buffer of legal length that is accepted, but whose record is too long to be stored again. */
  lemma AcceptedTooLong(x: Xattr) returns (buf: Bytes)
    requires |x.name| == 1 && |x.value| == 65483
    ensures |buf| == MaxRecordLen && Unmarshaled(buf).Some? && |Encoded(Fields(Unmarshaled(buf).value))| > MaxRecordLen
  {
    hide Encoded, BE, Good, Complete, HasTag, Value, XattrsOf, Split, Zeros;
    var fs := BareFields(x);
    buf := Encoded(fs);
    BareGood(x);
    BareTags(x);
    SplitEncoded(fs);
    ValueAt(fs, 0);
    ValueAt(fs, 1);
    ValueAt(fs, 2);
    ValueAt(fs, 3);
    ValueMissing(fs, TagSymlinkTarget);
    assert fs == fs[..4] + XattrFields([x]);
    XattrsRoundTrip(fs[..4], [x]);
    BareLength(x);
    var r := RecordOf(fs);
    BareValid(r);
    RecordLength(r);
    assert XattrsLen([x]) == XattrsLen([x][..0]) + 5 + |x.name| + |x.value|;
  }

  lemma BareLength(x: Xattr)
    ensures |Encoded(BareFields(x))| == 51 + |x.name| + |x.value|
  {
    hide Encoded, BE, Zeros;
    var fs := BareFields(x);
    EncodedFirst(fs);
    EncodedFirst(fs[1..]);
    EncodedFirst(fs[2..]);
    EncodedFirst(fs[3..]);
    EncodedOne(fs[4]);
    assert fs[1..][1..] == fs[2..] && fs[2..][1..] == fs[3..] && fs[3..][1..] == [fs[4]];
  }

  lemma BareValid(r: Record)
    requires r.name == [97] && r.fileType == TypeRegular && r.symlinkTarget == [] && |r.xattrs| == 1 && ValidXattr(r.xattrs[0])
    ensures Validate(r)
  {
    assert ValidUtf8([97][1..]);
  }
}
