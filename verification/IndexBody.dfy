/** The on-disk form of the index (carter/fsindex): a little-endian header and length-prefixed records, sealed
    as one piece. */
module IndexBody {
  import opened ByteSeqs
  import opened MetaRecord
  import opened FsIndex

  const CacheFormat := 1
  const SealNonceLen := 16
  const SealAD: Bytes := [99, 97, 114, 116, 101, 114, 45, 102, 115, 105, 110, 100, 101, 120, 45, 118, 49]

  lemma SealText()
    ensures SealAD == Ascii("carter-fsindex-v1")
  {
  }

  // --- little-endian integers -----------------------------------------------------------------------------------

  /** The low `w` bytes of `v`, least significant byte first. */
  function LE(v: nat, w: nat): (r: Bytes)
    ensures |r| == w
  {
    if w == 0 then [] else [v % 256] + LE(v / 256, w - 1)
  }

  function FromLE(s: Bytes): (r: nat)
    ensures r < Pow256(|s|)
  {
    if s == [] then 0 else s[0] + 256 * FromLE(s[1..])
  }

  lemma {:induction false} FromLEofLE(v: nat, w: nat)
    requires v < Pow256(w)
    ensures FromLE(LE(v, w)) == v
  {
    if w > 0 {
      FromLEofLE(v / 256, w - 1);
    }
  }

  // --- the records ------------------------------------------------------------------------------------------------

  function Frame(t: Bytes): Bytes { LE(|t|, 4) + t }

  function Frames(ts: seq<Bytes>): Bytes {
    if ts == [] then [] else Frame(ts[0]) + Frames(ts[1..])
  }

  function Body(gen: nat, count: nat, ts: seq<Bytes>): Bytes {
    LE(CacheFormat, 4) + LE(gen, 8) + LE(count, 4) + Frames(ts)
  }

  lemma {:induction false} FramesAppend(ts: seq<Bytes>, t: Bytes)
    ensures Frames(ts + [t]) == Frames(ts) + Frame(t)
  {
    hide Frame;
    if ts == [] {
      assert Frames([t][1..]) == [];
    } else {
      FramesAppend(ts[1..], t);
      assert (ts + [t])[1..] == ts[1..] + [t];
    }
  }

  /** The first n records of a buffer; what follows them is ignored. */
  ghost function DecodeRecs(buf: Bytes, n: nat): Option<seq<Record>> {
    if n == 0 then Some([])
    else if |buf| < 4 || 4 + FromLE(buf[..4]) > |buf| then None
    else
      var l := FromLE(buf[..4]);
      match Unmarshaled(buf[4..4 + l])
      case None => None
      case Some(r) =>
        match DecodeRecs(buf[4 + l..], n - 1)
        case None => None
        case Some(rs) => Some([r] + rs)
  }

  lemma FrontFrame(t: Bytes, rest: Bytes)
    requires |t| < 0x1_0000_0000
    ensures var buf := Frame(t) + rest;
            FromLE(buf[..4]) == |t| && buf[4..4 + |t|] == t && buf[4 + |t|..] == rest
  {
    var buf := Frame(t) + rest;
    assert buf[..4] == LE(|t|, 4);
    assert Pow256(4) == 0x1_0000_0000;
    FromLEofLE(|t|, 4);
  }

  predicate Short(ts: seq<Bytes>) { forall i :: 0 <= i < |ts| ==> |ts[i]| < 0x1_0000_0000 }

  /** As many records as were framed come back. */
  lemma {:induction false} DecodeFrames(ts: seq<Bytes>, rs: seq<Record>)
    requires Short(ts) && |rs| == |ts| && forall i :: 0 <= i < |ts| ==> Unmarshaled(ts[i]) == Some(rs[i])
    ensures DecodeRecs(Frames(ts), |ts|) == Some(rs)
  {
    hide LE, FromLE, Unmarshaled;
    if ts != [] {
      FrontFrame(ts[0], Frames(ts[1..]));
      DecodeFrames(ts[1..], rs[1..]);
      assert [rs[0]] + rs[1..] == rs;
    }
  }

  /** Asking for more records than were framed is refused, so a record dropped on the way out is noticed. */
  lemma {:induction false} DecodeTooMany(ts: seq<Bytes>, n: nat)
    requires Short(ts) && n > |ts|
    ensures DecodeRecs(Frames(ts), n) == None
  {
    hide LE, FromLE, Unmarshaled;
    if ts != [] {
      FrontFrame(ts[0], Frames(ts[1..]));
      DecodeTooMany(ts[1..], n - 1);
    }
  }

  // --- the whole body ------------------------------------------------------------------------------------------------

  ghost function DecodedBody(body: Bytes): Option<seq<Record>> {
    if |body| < 16 || FromLE(body[..4]) != CacheFormat then None
    else DecodeRecs(body[16..], FromLE(body[12..16]))
  }

  lemma DecodeOfBody(gen: nat, count: nat, ts: seq<Bytes>)
    requires count < 0x1_0000_0000
    ensures DecodedBody(Body(gen, count, ts)) == DecodeRecs(Frames(ts), count)
  {
    var body := Body(gen, count, ts);
    assert Pow256(4) == 0x1_0000_0000;
    assert body[..4] == LE(CacheFormat, 4) && body[12..16] == LE(count, 4) && body[16..] == Frames(ts);
    FromLEofLE(CacheFormat, 4);
    FromLEofLE(count, 4);
  }

  lemma BodyStarts(gen: nat, count: nat, ts: seq<Bytes>)
    ensures [1, 0, 0, 0] <= Body(gen, count, ts)
  {
    assert LE(1, 4) == [1] + LE(0, 3) && LE(0, 3) == [0] + LE(0, 2) && LE(0, 2) == [0] + LE(0, 1) && LE(0, 1) == [0] + LE(0, 0);
  }

  lemma GenBack(gen: U64, count: nat, ts: seq<Bytes>)
    ensures |Body(gen, count, ts)| >= 16 && FromLE(Body(gen, count, ts)[4..12]) == gen
  {
    hide LE, FromLE;
    assert Body(gen, count, ts)[4..12] == LE(gen, 8);
    assert Pow256(8) == 0x1_0000_0000_0000_0000;
    FromLEofLE(gen, 8);
  }

  lemma {:induction false} LEofFromLE(s: Bytes)
    ensures LE(FromLE(s), |s|) == s
  {
    if s != [] {
      LEofFromLE(s[1..]);
      assert FromLE(s) % 256 == s[0] && FromLE(s) / 256 == FromLE(s[1..]);
    }
  }

  /** Whatever is decoded was framed: a buffer yields n records exactly if it starts with n framed ones. */
  lemma {:induction false} DecodesOnlyFrames(buf: Bytes, n: nat) returns (ts: seq<Bytes>)
    requires DecodeRecs(buf, n).Some?
    ensures |ts| == n == |DecodeRecs(buf, n).value| && Short(ts) && Frames(ts) <= buf
    ensures forall i :: 0 <= i < n ==> Unmarshaled(ts[i]) == Some(DecodeRecs(buf, n).value[i])
  {
    hide LE, FromLE, Unmarshaled;
    ts := [];
    if n > 0 {
      var l := FromLE(buf[..4]);
      var more := DecodesOnlyFrames(buf[4 + l..], n - 1);
      ts := [buf[4..4 + l]] + more;
      assert Pow256(4) == 0x1_0000_0000;
      LEofFromLE(buf[..4]);
      assert ts[1..] == more;
      assert Frame(ts[0]) == buf[..4 + l];
      assert buf == buf[..4 + l] + buf[4 + l..];
    }
  }

  /** Whatever is accepted as a body is one, up to what follows the last record. */
  lemma DecodesOnlyBodies(body: Bytes) returns (gen: nat, ts: seq<Bytes>)
    requires DecodedBody(body).Some?
    ensures Body(gen, |ts|, ts) <= body && Short(ts) && |ts| == |DecodedBody(body).value|
    ensures forall i :: 0 <= i < |ts| ==> Unmarshaled(ts[i]) == Some(DecodedBody(body).value[i])
  {
    hide LE, FromLE, Unmarshaled, Frames, DecodeRecs;
    gen := FromLE(body[4..12]);
    ts := DecodesOnlyFrames(body[16..], FromLE(body[12..16]));
    LEofFromLE(body[..4]);
    LEofFromLE(body[4..12]);
    LEofFromLE(body[12..16]);
    assert body == body[..4] + body[4..12] + body[12..16] + body[16..];
  }

  /** A record that Marshal accepts. */
  predicate Storable(r: Record) { Validate(r) && |Encoded(Fields(r))| <= MaxRecordLen }

  function Tlvs(rs: seq<Record>): (ts: seq<Bytes>)
    ensures |ts| == |rs| && forall i :: 0 <= i < |rs| ==> ts[i] == Encoded(Fields(rs[i]))
  {
    seq(|rs|, i requires 0 <= i < |rs| => Encoded(Fields(rs[i])))
  }

  function AllNormalized(rs: seq<Record>): (r: seq<Record>)
    ensures |r| == |rs| && forall i :: 0 <= i < |rs| ==> r[i] == Normalized(rs[i])
  {
    seq(|rs|, i requires 0 <= i < |rs| => Normalized(rs[i]))
  }

  /** The records `kept` went into the body; `count` is what its header claims. */
  ghost predicate Encodes(body: Bytes, gen: nat, count: nat, kept: seq<Record>) {
    body == Body(gen, count, Tlvs(kept)) && forall i :: 0 <= i < |kept| ==> Storable(kept[i])
  }

  /** A body decodes to what was put in if nothing was dropped, and not at all otherwise. */
  lemma BodyRoundTrip(body: Bytes, gen: nat, count: nat, kept: seq<Record>)
    requires Encodes(body, gen, count, kept) && |kept| <= count < 0x1_0000_0000
    ensures DecodedBody(body) == if |kept| == count then Some(AllNormalized(kept)) else None
  {
    hide Encoded, Fields, Unmarshaled, Validate, DecodedBody, DecodeRecs, Body, Frames;
    DecodeOfBody(gen, count, Tlvs(kept));
    assert Short(Tlvs(kept)) by {
      forall i | 0 <= i < |kept| ensures |Tlvs(kept)[i]| < 0x1_0000_0000 { assert Storable(kept[i]); }
    }
    if |kept| == count {
      forall i | 0 <= i < |kept| ensures Unmarshaled(Tlvs(kept)[i]) == Some(AllNormalized(kept)[i]) {
        assert Storable(kept[i]);
        RecordRoundTrip(kept[i]);
      }
      DecodeFrames(Tlvs(kept), AllNormalized(kept));
    } else {
      DecodeTooMany(Tlvs(kept), count);
    }
  }

  /** A list shows every record of the table exactly once. */
  ghost predicate ListsAll(rs: seq<Record>, m: Recs) {
    && (forall i :: 0 <= i < |rs| ==> rs[i].fileUUID in m && m[rs[i].fileUUID] == rs[i])
    && (forall i, j :: 0 <= i < j < |rs| ==> rs[i].fileUUID != rs[j].fileUUID)
    && (forall u :: u in m ==> exists i :: 0 <= i < |rs| && rs[i].fileUUID == u)
  }

  function StorableOnes(recs: Recs): Recs { map u | u in recs && Storable(recs[u]) :: recs[u] }

  /** The records of the table outside `todo`: those that marshal are in `kept`, the others dropped. */
  ghost predicate Sifted(recs: Recs, todo: set<Uuid>, kept: seq<Record>, dropped: nat) {
    && todo <= recs.Keys && |kept| + dropped + |todo| == |recs|
    && (forall i :: 0 <= i < |kept| ==>
          Storable(kept[i]) && kept[i].fileUUID !in todo && kept[i].fileUUID in recs && recs[kept[i].fileUUID] == kept[i])
    && (forall i, j :: 0 <= i < j < |kept| ==> kept[i].fileUUID != kept[j].fileUUID)
    && (forall u :: u in recs && u !in todo && Storable(recs[u]) ==> exists i :: 0 <= i < |kept| && kept[i].fileUUID == u)
    && (dropped == 0 <==> forall u :: u in recs && u !in todo ==> Storable(recs[u]))
  }

  lemma SiftOne(recs: Recs, todo: set<Uuid>, kept: seq<Record>, dropped: nat, u: Uuid)
    requires Filed(recs) && Sifted(recs, todo, kept, dropped) && u in todo
    ensures if Storable(recs[u]) then Sifted(recs, todo - {u}, kept + [recs[u]], dropped) else Sifted(recs, todo - {u}, kept, dropped + 1)
  {
    hide Storable;
    if Storable(recs[u]) {
      var kept' := kept + [recs[u]];
      assert kept'[|kept|].fileUUID == u;
      forall v | v in recs && v !in todo - {u} && Storable(recs[v]) ensures exists i :: 0 <= i < |kept'| && kept'[i].fileUUID == v {
        if v != u {
          var i :| 0 <= i < |kept| && kept[i].fileUUID == v;
          assert kept'[i] == kept[i];
        }
      }
    }
  }

  /** The records as they read back. */
  function Refreshed(recs: Recs): Recs { map u | u in recs :: Normalized(recs[u]) }

  lemma RefreshedLists(recs: Recs, kept: seq<Record>)
    requires Filed(recs) && ListsAll(kept, recs)
    ensures ListsAll(AllNormalized(kept), Refreshed(recs))
  {
    hide EffectiveSchema;
    var rs := AllNormalized(kept);
    assert forall i :: 0 <= i < |rs| ==> rs[i].fileUUID == kept[i].fileUUID;
    forall u | u in recs ensures exists i :: 0 <= i < |rs| && rs[i].fileUUID == u {
      var i :| 0 <= i < |kept| && kept[i].fileUUID == u;
      assert rs[i].fileUUID == u;
    }
  }

  lemma BodyOfTable(recs: Recs, gen: nat, body: Bytes, kept: seq<Record>)
    requires Filed(recs) && |recs| < 0x1_0000_0000 && Encodes(body, gen, |recs|, kept) && |kept| <= |recs|
    requires ListsAll(kept, StorableOnes(recs))
    requires |kept| == |recs| <==> forall u :: u in recs ==> Storable(recs[u])
    ensures if forall u :: u in recs ==> Storable(recs[u])
            then DecodedBody(body).Some? && ListsAll(DecodedBody(body).value, Refreshed(recs))
            else DecodedBody(body) == None
  {
    hide Storable, DecodedBody, Encodes;
    BodyRoundTrip(body, gen, |recs|, kept);
    if forall u :: u in recs ==> Storable(recs[u]) {
      assert StorableOnes(recs) == recs;
      RefreshedLists(recs, kept);
    }
  }

  /** encodeBody: the records in whatever order the map yields them; those that do not marshal are dropped, but
      the header still counts them. */
  method EncodeBody(gen: nat, recs: Recs) returns (body: Bytes)
    requires Filed(recs)
    ensures exists kept :: Encodes(body, gen, |recs|, kept) && ListsAll(kept, StorableOnes(recs))
    ensures |recs| < 0x1_0000_0000 ==> (DecodedBody(body).Some? <==> forall u :: u in recs ==> Storable(recs[u]))
    ensures |recs| < 0x1_0000_0000 && DecodedBody(body).Some? ==> ListsAll(DecodedBody(body).value, Refreshed(recs))
  {
    hide Storable, Encoded, Fields, Frames, LE, Validate, Filed, Sifted, ListsAll, DecodedBody, Refreshed;
    body := LE(CacheFormat, 4) + LE(gen, 8) + LE(|recs|, 4);
    ghost var kept: seq<Record> := [];
    ghost var header := body;
    ghost var dropped: nat := 0;
    var todo := recs.Keys;
    NoFrames();
    SiftedNone(recs);
    while todo != {}
      invariant Sifted(recs, todo, kept, dropped) && body == header + Frames(Tlvs(kept))
    {
      var u :| u in todo;
      SiftOne(recs, todo, kept, dropped, u);
      assert u in recs by { SiftedKnown(recs, todo, kept, dropped); }
      todo := todo - {u};
      var tlv := Marshal(recs[u]);
      MarshalsStorable(recs[u], tlv);
      if tlv.None? {
        dropped := dropped + 1;
      } else {
        body := body + LE(|tlv.value|, 4) + tlv.value;
        FramesAppend(Tlvs(kept), tlv.value);
        assert Tlvs(kept + [recs[u]]) == Tlvs(kept) + [tlv.value];
        kept := kept + [recs[u]];
      }
    }
    SiftedAll(recs, kept, dropped);
    assert Encodes(body, gen, |recs|, kept);
    if |recs| < 0x1_0000_0000 {
      BodyOfTable(recs, gen, body, kept);
    }
  }

  lemma SiftedNone(recs: Recs)
    ensures Sifted(recs, recs.Keys, [], 0)
  {
  }

  lemma SiftedAll(recs: Recs, kept: seq<Record>, dropped: nat)
    requires Sifted(recs, {}, kept, dropped)
    ensures ListsAll(kept, StorableOnes(recs))
    ensures |kept| <= |recs| && (|kept| == |recs| <==> forall u :: u in recs ==> Storable(recs[u]))
    ensures forall i :: 0 <= i < |kept| ==> Storable(kept[i])
  {
    hide Storable;
  }

  lemma SiftedKnown(recs: Recs, todo: set<Uuid>, kept: seq<Record>, dropped: nat)
    requires Sifted(recs, todo, kept, dropped)
    ensures todo <= recs.Keys
  {
  }

  lemma NoFrames()
    ensures Frames([]) == []
  {
  }

  lemma MarshalsStorable(r: Record, tlv: Option<Bytes>)
    requires tlv.Some? <==> Validate(r) && |Encoded(Fields(r))| <= MaxRecordLen
    ensures tlv.Some? <==> Storable(r)
  {
  }

  // --- building an index from a list ---------------------------------------------------------------------------------

  function Puts(rs: seq<Record>): (ops: seq<Op>)
    ensures |ops| == |rs| && forall i :: 0 <= i < |rs| ==> ops[i] == Put(rs[i])
  {
    seq(|rs|, i requires 0 <= i < |rs| => Put(rs[i]))
  }

  lemma PutsBefore(rs: seq<Record>)
    requires rs != []
    ensures Puts(rs)[..|rs| - 1] == Puts(rs[..|rs| - 1])
  {
  }

  /** A list that shows records of the table, none of them twice. */
  ghost predicate ListsSome(rs: seq<Record>, m: Recs) {
    && (forall i :: 0 <= i < |rs| ==> rs[i].fileUUID in m && m[rs[i].fileUUID] == rs[i])
    && (forall i, j :: 0 <= i < j < |rs| ==> rs[i].fileUUID != rs[j].fileUUID)
  }

  lemma {:induction false} PutsHold(rs: seq<Record>, m: Recs)
    requires ListsSome(rs, m)
    ensures forall u :: u in RecsAfter(Puts(rs)) ==> u in m && RecsAfter(Puts(rs))[u] == m[u]
    ensures forall i :: 0 <= i < |rs| ==> rs[i].fileUUID in RecsAfter(Puts(rs))
  {
    if rs != [] {
      PutsBefore(rs);
      PutsHold(rs[..|rs| - 1], m);
      assert forall i :: 0 <= i < |rs| - 1 ==> rs[..|rs| - 1][i] == rs[i];
    }
  }

  lemma {:induction false} PutsKnown(rs: seq<Record>, u: Uuid)
    requires forall i :: 0 <= i < |rs| ==> rs[i].fileUUID != u
    ensures u !in RecsAfter(Puts(rs))
  {
    if rs != [] {
      PutsBefore(rs);
      assert forall i :: 0 <= i < |rs| - 1 ==> rs[..|rs| - 1][i] == rs[i];
      PutsKnown(rs[..|rs| - 1], u);
    }
  }

  /** Putting every record of a table into an empty index gives the table, in whatever order. */
  lemma PutsBuild(rs: seq<Record>, m: Recs)
    requires ListsAll(rs, m)
    ensures RecsAfter(Puts(rs)) == m
  {
    PutsHold(rs, m);
  }

  // --- the entries of a table ------------------------------------------------------------------------------------------

  /** The entry of the last record of a list at a place, the root left aside. */
  function LastAt(rs: seq<Record>, p: Uuid, n: Bytes): Option<Entry> {
    if rs == [] then None
    else
      var r := rs[|rs| - 1];
      if !IsRoot(r) && r.parentDirID == p && r.name == n then Some(EntryOf(r)) else LastAt(rs[..|rs| - 1], p, n)
  }

  lemma {:induction false} FindAfterPuts(rs: seq<Record>, m: Recs, p: Uuid, n: Bytes)
    requires ListsSome(rs, m)
    ensures Find(ChildrenAfter(Puts(rs)), p, n) == LastAt(rs, p, n)
  {
    hide PutChildren;
    if rs != [] {
      var k := |rs| - 1;
      PutsBefore(rs);
      FindAfterPuts(rs[..k], m, p, n);
      PutsKnown(rs[..k], rs[k].fileUUID);
      FindAfterPut(RecsAfter(Puts(rs[..k])), ChildrenAfter(Puts(rs[..k])), rs[k], p, n);
    }
  }

  lemma {:induction false} LastAtSome(rs: seq<Record>, m: Recs, p: Uuid, n: Bytes)
    requires ListsSome(rs, m)
    ensures LastAt(rs, p, n).Some? ==> EntryAt(m, p, n, LastAt(rs, p, n).value)
    ensures LastAt(rs, p, n).None? ==>
              forall i :: 0 <= i < |rs| && !IsRoot(rs[i]) ==> !(rs[i].parentDirID == p && rs[i].name == n)
  {
    if rs != [] {
      LastAtSome(rs[..|rs| - 1], m, p, n);
      assert forall i :: 0 <= i < |rs| - 1 ==> rs[..|rs| - 1][i] == rs[i];
    }
  }

  /** Where a record other than the root lives, one such record is found. */
  ghost predicate FindsSome(recs: Recs, children: Children) {
    forall p: Uuid, n: Bytes, e: Entry {:trigger EntryAt(recs, p, n, e)} ::
      EntryAt(recs, p, n, e) ==> Find(children, p, n).Some? && EntryAt(recs, p, n, Find(children, p, n).value)
  }

  /** An index filled from any list of a table holds the table and finds a record in every place; it finds exactly
      the records of the table if and only if no two of them share a place. */
  ghost predicate ShowsTable(recs: Recs, children: Children, table: Recs) {
    && recs == table && Sound(recs, children) && FindsSome(recs, children)
    && (FindsExactly(recs, children) <==> Apart(table))
  }

  lemma PutsFindSome(rs: seq<Record>, m: Recs, p: Uuid, n: Bytes)
    requires ListsAll(rs, m)
    ensures var found := Find(ChildrenAfter(Puts(rs)), p, n);
            && (found.Some? ==> EntryAt(m, p, n, found.value))
            && ((exists e :: EntryAt(m, p, n, e)) ==> found.Some?)
  {
    hide Find;
    FindAfterPuts(rs, m, p, n);
    LastAtSome(rs, m, p, n);
    if e :| EntryAt(m, p, n, e) {
      var i :| 0 <= i < |rs| && rs[i].fileUUID == e.uuid;
    }
  }

  lemma PutsFindExactly(rs: seq<Record>, m: Recs)
    requires ListsAll(rs, m)
    ensures ShowsTable(RecsAfter(Puts(rs)), ChildrenAfter(Puts(rs)), m)
  {
    hide Find, RecsAfter, ChildrenAfter;
    PutsBuild(rs, m);
    ListsFiled(rs, m);
    RunSound(Puts(rs));
    var children := ChildrenAfter(Puts(rs));
    forall p: Uuid, n: Bytes
      ensures Find(children, p, n).Some? ==> EntryAt(m, p, n, Find(children, p, n).value)
      ensures forall e :: EntryAt(m, p, n, e) ==> Find(children, p, n).Some?
    {
      PutsFindSome(rs, m, p, n);
    }
    if Apart(m) {
      forall p: Uuid, n: Bytes, e: Entry ensures Find(children, p, n) == Some(e) <==> EntryAt(m, p, n, e) {
        if EntryAt(m, p, n, e) {
          assert Find(children, p, n).value.uuid == e.uuid;
        }
      }
    } else {
      var u, v :| u in m && v in m && u != v && !IsRoot(m[u]) && !IsRoot(m[v]) && SamePlace(m[u], m[v]);
      SharedPlaceNotExact(m, children, u, v);
    }
  }

  lemma SharedPlaceNotExact(m: Recs, children: Children, u: Uuid, v: Uuid)
    requires Filed(m) && u in m && v in m && u != v && !IsRoot(m[u]) && !IsRoot(m[v]) && SamePlace(m[u], m[v])
    ensures !FindsExactly(m, children)
  {
    hide Find;
    var p, n := m[u].parentDirID, m[u].name;
    assert EntryAt(m, p, n, EntryOf(m[u])) && EntryAt(m, p, n, EntryOf(m[v]));
    assert Find(children, p, n) != Some(EntryOf(m[u])) || Find(children, p, n) != Some(EntryOf(m[v]));
  }

  lemma ListsFiled(rs: seq<Record>, m: Recs)
    requires ListsAll(rs, m)
    ensures Filed(m)
  {
  }

  // --- the order of the records ------------------------------------------------------------------------------------------

  lemma ListOf(m: Recs) returns (rs: seq<Record>)
    requires Filed(m)
    ensures ListsAll(rs, m)
    decreases |m|
  {
    rs := [];
    if m != map[] {
      var u :| u in m;
      rs := ListUpTo(m, u);
    }
  }

  /** A list of the table with this record last. */
  lemma ListUpTo(m: Recs, u: Uuid) returns (rs: seq<Record>)
    requires Filed(m) && u in m
    ensures ListsAll(rs, m) && rs != [] && rs[|rs| - 1] == m[u]
    decreases |m|, 0
  {
    var rest := m - {u};
    assert rest.Keys == m.Keys - {u};
    var before := ListOf(rest);
    rs := before + [m[u]];
    OneMoreListed(m, rest, m[u], before);
  }

  lemma OneMoreListed(m: Recs, rest: Recs, r: Record, before: seq<Record>)
    requires r.fileUUID in m && m[r.fileUUID] == r && ListsAll(before, rest)
    requires rest.Keys == m.Keys - {r.fileUUID} && forall v :: v in rest ==> rest[v] == m[v]
    ensures ListsAll(before + [r], m)
  {
    var rs := before + [r];
    forall i | 0 <= i < |rs| ensures rs[i].fileUUID in m && m[rs[i].fileUUID] == rs[i] {
      assert i < |before| ==> rs[i] == before[i];
    }
    forall v | v in m ensures exists i :: 0 <= i < |rs| && rs[i].fileUUID == v {
      if v == r.fileUUID {
        assert rs[|before|] == r;
      } else {
        assert v in rest.Keys;
        var i :| 0 <= i < |before| && before[i].fileUUID == v;
        assert rs[i] == before[i];
      }
    }
  }

  ghost predicate SameEntries(a: Children, b: Children) {
    forall p: Uuid, n: Bytes {:trigger Find(a, p, n)} {:trigger Find(b, p, n)} :: Find(a, p, n) == Find(b, p, n)
  }

  /** The record that is put last is found. */
  lemma PutLast(m: Recs, u: Uuid) returns (rs: seq<Record>)
    requires Filed(m) && u in m && !IsRoot(m[u])
    ensures ListsAll(rs, m) && Find(ChildrenAfter(Puts(rs)), m[u].parentDirID, m[u].name) == Some(EntryOf(m[u]))
  {
    rs := ListUpTo(m, u);
    FindAfterPuts(rs, m, m[u].parentDirID, m[u].name);
  }

  /** Two orders of one table that has two records in one place: each order finds another one of them. The tree file
      lists the records in the order of a map, so a load and a rebuild can differ in this. */
  lemma OrderMatters(m: Recs, u: Uuid, v: Uuid) returns (rs: seq<Record>, rs': seq<Record>)
    requires Filed(m) && u in m && v in m && u != v && !IsRoot(m[u]) && !IsRoot(m[v]) && SamePlace(m[u], m[v])
    ensures ListsAll(rs, m) && ListsAll(rs', m)
    ensures Find(ChildrenAfter(Puts(rs)), m[u].parentDirID, m[u].name) == Some(EntryOf(m[u]))
    ensures Find(ChildrenAfter(Puts(rs')), m[u].parentDirID, m[u].name) == Some(EntryOf(m[v]))
  {
    rs := PutLast(m, u);
    rs' := PutLast(m, v);
  }

  /** The table determines the entries, whatever the order, if and only if no two records share a place. */
  lemma EntriesDetermined(m: Recs)
    requires Filed(m)
    ensures Apart(m) <==>
            forall rs, rs' :: ListsAll(rs, m) && ListsAll(rs', m) ==> SameEntries(ChildrenAfter(Puts(rs)), ChildrenAfter(Puts(rs')))
  {
    hide Find, ListsAll, ChildrenAfter;
    if Apart(m) {
      forall rs, rs' | ListsAll(rs, m) && ListsAll(rs', m) ensures SameEntries(ChildrenAfter(Puts(rs)), ChildrenAfter(Puts(rs'))) {
        forall p: Uuid, n: Bytes ensures Find(ChildrenAfter(Puts(rs)), p, n) == Find(ChildrenAfter(Puts(rs')), p, n) {
          PutsFindSome(rs, m, p, n);
          PutsFindSome(rs', m, p, n);
        }
      }
    } else {
      var u, v :| u in m && v in m && u != v && !IsRoot(m[u]) && !IsRoot(m[v]) && SamePlace(m[u], m[v]);
      var rs, rs' := OrderMatters(m, u, v);
      assert !SameEntries(ChildrenAfter(Puts(rs)), ChildrenAfter(Puts(rs')));
    }
  }

  method AddAll(idx: Index, rs: seq<Record>)
    requires idx.recs == map[] && idx.children == map[]
    modifies idx
    ensures idx.recs == RecsAfter(Puts(rs)) && idx.children == ChildrenAfter(Puts(rs))
  {
    for i := 0 to |rs|
      invariant idx.recs == RecsAfter(Puts(rs[..i])) && idx.children == ChildrenAfter(Puts(rs[..i]))
    {
      assert rs[..i + 1][..i] == rs[..i];
      PutsBefore(rs[..i + 1]);
      idx.PutLocked(rs[i]);
    }
    assert rs[..|rs|] == rs;
  }

  lemma DecodeStep(body: Bytes, off: nat, n: nat, done: seq<Record>)
    requires off <= |body| && n > 0
    ensures var rest := DecodeRecs(body[off..], n);
            if off + 4 > |body| then rest == None
            else
              var l := FromLE(body[off..off + 4]);
              if off + 4 + l > |body| || Unmarshaled(body[off + 4..off + 4 + l]).None? then rest == None
              else Behind(done, rest) ==
                   Behind(done + [Unmarshaled(body[off + 4..off + 4 + l]).value], DecodeRecs(body[off + 4 + l..], n - 1))
  {
    hide Unmarshaled, FromLE;
    var buf := body[off..];
    if |buf| >= 4 {
      assert buf[..4] == body[off..off + 4];
      var l := FromLE(buf[..4]);
      if 4 + l <= |buf| {
        assert buf[4..4 + l] == body[off + 4..off + 4 + l] && buf[4 + l..] == body[off + 4 + l..];
        var r, rest := Unmarshaled(buf[4..4 + l]), DecodeRecs(buf[4 + l..], n - 1);
        if r.Some? {
          BehindMore(done, r.value, rest);
        }
      }
    }
  }

  /** decodeBody, into a new index. */
  method DecodeBody(idx: Index, body: Bytes) returns (ok: bool)
    requires idx.recs == map[] && idx.children == map[]
    modifies idx
    ensures ok <==> DecodedBody(body).Some?
    ensures ok ==> idx.recs == RecsAfter(Puts(DecodedBody(body).value)) && idx.children == ChildrenAfter(Puts(DecodedBody(body).value))
    ensures ok ==> forall gen: U64, count: nat, ts: seq<Bytes> :: body == Body(gen, count, ts) ==> idx.gen == gen
  {
    hide Unmarshaled, FromLE, DecodeRecs, RecsAfter, ChildrenAfter;
    if |body| < 16 || FromLE(body[..4]) != CacheFormat {
      return false;
    }
    idx.gen := FromLE(body[4..12]);
    var n := FromLE(body[12..16]);
    var off := 16;
    ghost var done: seq<Record> := [];
    NothingPut(body[16..], n);
    for i := 0 to n
      invariant 16 <= off <= |body|
      invariant DecodedBody(body) == Behind(done, DecodeRecs(body[off..], n - i))
      invariant idx.recs == RecsAfter(Puts(done)) && idx.children == ChildrenAfter(Puts(done))
      invariant idx.gen == FromLE(body[4..12])
    {
      DecodeStep(body, off, n - i, done);
      if off + 4 > |body| {
        return false;
      }
      var l := FromLE(body[off..off + 4]);
      off := off + 4;
      if off + l > |body| {
        return false;
      }
      var rec := UnmarshalRecord(body[off..off + l]);
      if rec.None? {
        return false;
      }
      off := off + l;
      PutMore(done, rec.value);
      idx.PutLocked(rec.value);
      done := done + [rec.value];
    }
    AllDecoded(done, body[off..]);
    forall gen: U64, count: nat, ts: seq<Bytes> | body == Body(gen, count, ts) ensures idx.gen == gen { GenBack(gen, count, ts); }
    return true;
  }

  lemma NothingPut(buf: Bytes, n: nat)
    ensures RecsAfter(Puts([])) == map[] && ChildrenAfter(Puts([])) == map[]
    ensures DecodeRecs(buf, n) == Behind([], DecodeRecs(buf, n))
  {
    BehindNothing(DecodeRecs(buf, n));
  }

  lemma PutMore(done: seq<Record>, rec: Record)
    ensures RecsAfter(Puts(done + [rec])) == RecsAfter(Puts(done))[rec.fileUUID := rec]
    ensures ChildrenAfter(Puts(done + [rec])) == PutChildren(RecsAfter(Puts(done)), ChildrenAfter(Puts(done)), rec)
  {
    PutsBefore(done + [rec]);
    assert (done + [rec])[..|done|] == done;
  }

  lemma AllDecoded(done: seq<Record>, rest: Bytes)
    ensures Behind(done, DecodeRecs(rest, 0)) == Some(done)
  {
    assert done + [] == done;
  }
}
