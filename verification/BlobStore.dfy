/** The backing store of carter/blobstore: one blob per file, laid out as the clear file UUID, the sealed
    info-chunk and the content, filed under an id derived from the UUID. Replacing a blob is atomic.
    Ids stand for the hex path names. */
module BlobStore {
  import opened SymbolicArith
  import opened ByteSeqs
  import opened ContentEnc
  import opened MetaRecord
  import opened InfoChunk

  const PrefixLen := 16

  /** Card-derived names and keys. The id is a keyed hash of the UUID, taken to be injective. */
  datatype Keys = Keys(blobID: Uuid -> Uuid, metaKey: Uuid -> Bytes, gcm: Bytes -> Aead)
  {
    ghost predicate Valid() {
      && ExactFamily(gcm)
      && (forall u: Uuid {:trigger metaKey(u)} :: |metaKey(u)| == KeyLen)
      && (forall u: Uuid, v: Uuid {:trigger blobID(u), blobID(v)} :: blobID(u) == blobID(v) ==> u == v)
    }

    /** The metadata of a blob, read under the UUID it is expected to carry, and where its content begins. */
    ghost function MetaOf(uuid: Uuid, blob: Bytes): Option<(Record, nat)>
      requires Valid()
    {
      if |blob| < PrefixLen || blob[..PrefixLen] != uuid then None
      else
        match Decoded(gcm, metaKey(uuid), uuid, blob[PrefixLen..])
        case None => None
        case Some((rec, len)) => Some((rec, PrefixLen + len))
    }

    /** What a scan sees in a blob: its UUID, taken from the blob itself, and its record. */
    ghost function ScanOf(blob: Bytes): Option<(Uuid, Record)>
      requires Valid()
    {
      if |blob| < PrefixLen then None
      else
        match MetaOf(blob[..PrefixLen], blob)
        case None => None
        case Some((rec, off)) => if rec.fileUUID != blob[..PrefixLen] then None else Some((blob[..PrefixLen], rec))
    }

    ghost function Content(uuid: Uuid, blob: Bytes): Bytes
      requires Valid()
    {
      match MetaOf(uuid, blob)
      case None => []
      case Some((rec, off)) => if off <= |blob| then blob[off..] else []
    }

    /** A newly written blob shows the record and the content that went into it. */
    lemma WrittenBlob(rec: Record, chunk: Bytes, content: Bytes)
      requires Valid() && Validate(rec) && |Encoded(Fields(rec))| <= MaxRecordLen
      requires SealsRecord(gcm(metaKey(rec.fileUUID)), rec.fileUUID, Encoded(Fields(rec)), chunk)
      ensures var blob := rec.fileUUID + chunk + content;
              && MetaOf(rec.fileUUID, blob) == Some((Normalized(rec), PrefixLen + |chunk|))
              && Content(rec.fileUUID, blob) == content
              && ScanOf(blob) == Some((rec.fileUUID, Normalized(rec)))
    {
      hide Decoded, SealsRecord, Validate, Encoded, Fields, ExactFamily;
      var blob := rec.fileUUID + chunk + content;
      assert blob[..PrefixLen] == rec.fileUUID && blob[PrefixLen..] == chunk + content;
      InfoChunkRoundTrip(gcm, metaKey(rec.fileUUID), rec, chunk, content);
      assert blob[PrefixLen + |chunk|..] == content;
    }
  }

  // --- the store as a table of records ---------------------------------------------------------------------

  /** Blobs that a scan can read lie where their UUID says. Unreadable ones may lie anywhere. */
  ghost predicate WellPlaced(keys: Keys, files: map<Uuid, Bytes>)
    requires keys.Valid()
  {
    forall id :: id in files && keys.ScanOf(files[id]).Some? ==> id == keys.blobID(keys.ScanOf(files[id]).value.0)
  }

  ghost predicate IsStored(keys: Keys, files: map<Uuid, Bytes>, u: Uuid)
    requires keys.Valid()
  {
    && keys.blobID(u) in files
    && keys.ScanOf(files[keys.blobID(u)]).Some? && keys.ScanOf(files[keys.blobID(u)]).value.0 == u
  }

  /** The records of all readable blobs. */
  ghost function Records(keys: Keys, files: map<Uuid, Bytes>): map<Uuid, Record>
    requires keys.Valid()
  {
    var uuids := set id | id in files && keys.ScanOf(files[id]).Some? :: keys.ScanOf(files[id]).value.0;
    map u | u in uuids && IsStored(keys, files, u) :: keys.ScanOf(files[keys.blobID(u)]).value.1
  }

  lemma RecordsAre(keys: Keys, files: map<Uuid, Bytes>)
    requires keys.Valid()
    ensures var m := Records(keys, files);
            && (forall u: Uuid :: IsStored(keys, files, u) ==> u in m)
            && (forall u: Uuid :: u in m ==> IsStored(keys, files, u) && keys.ScanOf(files[keys.blobID(u)]) == Some((u, m[u])))
  {
    hide Keys.ScanOf;
    var uuids := set id | id in files && keys.ScanOf(files[id]).Some? :: keys.ScanOf(files[id]).value.0;
    assert forall u: Uuid :: IsStored(keys, files, u) ==> u in uuids;
  }

  lemma RecordsAfterWrite(keys: Keys, files: map<Uuid, Bytes>, u: Uuid, rec: Record, blob: Bytes)
    requires keys.Valid() && WellPlaced(keys, files) && keys.ScanOf(blob) == Some((u, rec))
    ensures var after := files[keys.blobID(u) := blob];
            WellPlaced(keys, after) && Records(keys, after) == Records(keys, files)[u := rec]
  {
    var after := files[keys.blobID(u) := blob];
    hide Keys.ScanOf, Records;
    RecordsAre(keys, files);
    RecordsAre(keys, after);
    forall v: Uuid ensures IsStored(keys, after, v) <==> v == u || IsStored(keys, files, v) {
      assert keys.blobID(u) == keys.blobID(v) ==> u == v;
    }
  }

  lemma RecordsAfterDelete(keys: Keys, files: map<Uuid, Bytes>, u: Uuid)
    requires keys.Valid() && WellPlaced(keys, files)
    ensures var after := files - {keys.blobID(u)};
            WellPlaced(keys, after) && Records(keys, after) == Records(keys, files) - {u}
  {
    var after := files - {keys.blobID(u)};
    hide Keys.ScanOf, Records;
    RecordsAre(keys, files);
    RecordsAre(keys, after);
    forall v: Uuid ensures IsStored(keys, after, v) <==> v != u && IsStored(keys, files, v) {
      assert keys.blobID(u) == keys.blobID(v) ==> u == v;
    }
  }

  /** A list of visits that shows every record exactly once. */
  ghost predicate Lists(visits: seq<(Uuid, Record)>, m: map<Uuid, Record>) {
    && (forall i :: 0 <= i < |visits| ==> visits[i].0 in m && m[visits[i].0] == visits[i].1)
    && (forall i, j :: 0 <= i < j < |visits| ==> visits[i].0 != visits[j].0)
    && (forall u :: u in m ==> exists i :: 0 <= i < |visits| && visits[i].0 == u)
  }

  class Store {
    const keys: Keys
    const reliable: bool // the device never refuses a write
    var files: map<Uuid, Bytes>

    constructor (keys: Keys, reliable: bool)
      requires keys.Valid()
      ensures this.keys == keys && this.reliable == reliable && files == map[] && Valid()
    {
      this.keys, this.reliable := keys, reliable;
      files := map[];
    }

    ghost predicate Valid()
      reads this
    {
      keys.Valid() && WellPlaced(keys, files)
    }

    ghost function Blob(uuid: Uuid): Bytes
      reads this
    {
      if keys.blobID(uuid) in files then files[keys.blobID(uuid)] else []
    }

    ghost function Meta(uuid: Uuid): Option<(Record, nat)>
      reads this
      requires keys.Valid()
    {
      keys.MetaOf(uuid, Blob(uuid))
    }

    method ReadMeta(uuid: Uuid) returns (r: Option<(Record, nat)>)
      requires keys.Valid()
      ensures r == Meta(uuid)
    {
      hide Decoded;
      var id := keys.blobID(uuid);
      if id !in files {
        return None;
      }
      var f := files[id];
      if |f| < PrefixLen || f[..PrefixLen] != uuid {
        return None;
      }
      var m := ReadInfoChunk(keys.gcm, keys.metaKey(uuid), uuid, f[PrefixLen..]);
      return if m.None? then None else Some((m.value.0, PrefixLen + m.value.1));
    }

    /** What a write to one blob leaves behind: this record and content there, everything else as it was. */
    twostate predicate Wrote(uuid: Uuid, rec: Record, content: Bytes)
      requires keys.Valid()
      reads this
    {
      && Meta(uuid).Some? && Meta(uuid).value.0 == rec && keys.Content(uuid, Blob(uuid)) == content
      && (forall v: Uuid :: v != uuid ==> Blob(v) == old(Blob(v)))
    }

    /** The blob of a record: its UUID in the clear, the record sealed under the file's own key, and the content. */
    ghost predicate LaidOut(rec: Record, content: Bytes)
      reads this
    {
      exists chunk: Bytes ::
        && SealsRecord(keys.gcm(keys.metaKey(rec.fileUUID)), rec.fileUUID, Encoded(Fields(rec)), chunk)
        && Blob(rec.fileUUID) == rec.fileUUID + chunk + content
    }

    /** WriteMeta: a whole new blob, or no change at all. The device may refuse the write. */
    method WriteMeta(rec: Record, content: Bytes) returns (ok: bool)
      requires Valid()
      modifies this
      ensures Valid() && (!ok ==> files == old(files))
      ensures ok ==> Validate(rec) && |Encoded(Fields(rec))| <= MaxRecordLen
      ensures reliable && Validate(rec) && |Encoded(Fields(rec))| <= MaxRecordLen ==> ok
      ensures ok ==> Wrote(rec.fileUUID, Normalized(rec), content)
      ensures ok ==> LaidOut(rec, content)
      ensures ok ==> Records(keys, files) == old(Records(keys, files))[rec.fileUUID := Normalized(rec)]
    {
      hide Decoded, SealsRecord, Validate, Encoded, Fields, ExactFamily, WellPlaced, Records, Keys.ScanOf, Keys.MetaOf, Keys.Content;
      if !Validate(rec) {
        return false;
      }
      var chunk := SealInfoChunk(keys.gcm, keys.metaKey(rec.fileUUID), rec);
      if chunk.None? {
        return false;
      }
      var written: bool := *;
      if !written && !reliable {
        return false;
      }
      var blob := rec.fileUUID + chunk.value + content;
      keys.WrittenBlob(rec, chunk.value, content);
      RecordsAfterWrite(keys, files, rec.fileUUID, Normalized(rec), blob);
      files := files[keys.blobID(rec.fileUUID) := blob];
      return true;
    }

    /** ReplaceMeta: new metadata in front of the old content, however many units either takes. */
    method ReplaceMeta(rec: Record) returns (ok: bool)
      requires Valid()
      modifies this
      ensures Valid() && (!ok ==> files == old(files))
      ensures ok ==> old(Meta(rec.fileUUID)).Some? && Validate(rec) && |Encoded(Fields(rec))| <= MaxRecordLen
      ensures reliable && old(Meta(rec.fileUUID)).Some? && Validate(rec) && |Encoded(Fields(rec))| <= MaxRecordLen ==> ok
      ensures ok ==> Wrote(rec.fileUUID, Normalized(rec), old(keys.Content(rec.fileUUID, Blob(rec.fileUUID))))
      ensures ok ==> Records(keys, files) == old(Records(keys, files))[rec.fileUUID := Normalized(rec)]
    {
      hide Decoded, Encoded, Fields, ExactFamily, WellPlaced, Records, Keys.MetaOf;
      var m := ReadMeta(rec.fileUUID);
      if m.None? {
        return false;
      }
      MetaNeedsBlob(rec.fileUUID);
      var f := files[keys.blobID(rec.fileUUID)];
      var content := if |f| > m.value.1 then f[m.value.1..] else [];
      assert content == keys.Content(rec.fileUUID, Blob(rec.fileUUID));
      ok := WriteMeta(rec, content);
    }

    lemma MetaNeedsBlob(uuid: Uuid)
      requires keys.Valid() && Meta(uuid).Some?
      ensures keys.blobID(uuid) in files
    {
    }

    method Delete(uuid: Uuid) returns (ok: bool)
      requires Valid()
      modifies this
      ensures Valid() && (!ok ==> files == old(files)) && (reliable ==> ok)
      ensures ok ==> Blob(uuid) == [] && (forall v: Uuid :: v != uuid ==> Blob(v) == old(Blob(v)))
      ensures ok ==> Records(keys, files) == old(Records(keys, files)) - {uuid}
    {
      hide WellPlaced, Records;
      ok := *;
      ok := ok || reliable;
      if ok {
        RecordsAfterDelete(keys, files, uuid);
        files := files - {keys.blobID(uuid)};
      }
    }

    /** readBlobAt: the UUID comes from the blob and is checked against the record inside. */
    method ReadBlobAt(id: Uuid) returns (r: Option<(Uuid, Record)>, contentSize: nat)
      requires keys.Valid() && id in files
      ensures r == keys.ScanOf(files[id])
      ensures r.Some? ==> contentSize == |keys.Content(r.value.0, files[id])|
    {
      hide Decoded;
      var f := files[id];
      if |f| < PrefixLen {
        return None, 0;
      }
      var uuid := f[..PrefixLen];
      var m := ReadInfoChunk(keys.gcm, keys.metaKey(uuid), uuid, f[PrefixLen..]);
      if m.None? || m.value.0.fileUUID != uuid {
        return None, 0;
      }
      return Some((uuid, m.value.0)), Max(|f| - PrefixLen - m.value.1, 0);
    }

    /** The visits so far, with their sizes, come from these ids, in this order, and from nothing else in `done`. */
    ghost predicate Seen(visits: seq<(Uuid, Record)>, sizes: seq<nat>, ids: seq<Uuid>, done: set<Uuid>)
      reads this
      requires keys.Valid()
    {
      && |ids| == |visits| == |sizes|
      && (forall i :: 0 <= i < |ids| ==>
            && ids[i] in done && ids[i] in files && keys.ScanOf(files[ids[i]]) == Some(visits[i])
            && sizes[i] == |keys.Content(visits[i].0, files[ids[i]])|)
      && (forall i, j :: 0 <= i < j < |ids| ==> ids[i] != ids[j])
      && (forall id :: id in done && id in files && keys.ScanOf(files[id]).Some? ==> id in ids)
    }

    /** Scan: bucket after bucket, every readable blob once. A bucket that cannot be listed ends it. */
    method Scan() returns (visits: seq<(Uuid, Record)>, sizes: seq<nat>, ok: bool)
      requires Valid()
      ensures reliable ==> ok
      ensures ok ==> Lists(visits, Records(keys, files)) && |sizes| == |visits|
      ensures ok ==> forall i :: 0 <= i < |visits| ==> sizes[i] == |keys.Content(visits[i].0, Blob(visits[i].0))|
    {
      hide Keys.ScanOf, Keys.Content, Records, WellPlaced, Keys.Valid, Lists;
      visits, sizes := [], [];
      ghost var ids: seq<Uuid>, done: set<Uuid> := [], {};
      for bucket := 0 to 256
        invariant Seen(visits, sizes, ids, done)
        invariant forall id :: id in files && id[0] < bucket ==> id in done
        invariant forall id :: id in done ==> id[0] < bucket
      {
        var listed: bool := *;
        if !listed && !reliable {
          return visits, sizes, false;
        }
        var ents := set id | id in files && id[0] == bucket;
        while ents != {}
          invariant Seen(visits, sizes, ids, done)
          invariant ents <= files.Keys && forall id :: id in ents ==> id[0] == bucket && id !in done
          invariant forall id :: id in files && id[0] <= bucket ==> id in done || id in ents
          invariant forall id :: id in done ==> id[0] <= bucket
        {
          var id :| id in ents;
          ents := ents - {id};
          var r, size := ReadBlobAt(id);
          if r.Some? {
            visits, sizes := visits + [r.value], sizes + [size];
            ids := ids + [id];
          }
          done := done + {id};
        }
      }
      AllSeen(visits, sizes, ids, done);
      return visits, sizes, true;
    }

    lemma AllSeen(visits: seq<(Uuid, Record)>, sizes: seq<nat>, ids: seq<Uuid>, done: set<Uuid>)
      requires Valid() && Seen(visits, sizes, ids, done) && files.Keys <= done
      ensures Lists(visits, Records(keys, files))
      ensures forall i :: 0 <= i < |visits| ==> sizes[i] == |keys.Content(visits[i].0, Blob(visits[i].0))|
    {
      hide Keys.ScanOf, Keys.Content, Records;
      RecordsAre(keys, files);
      var m := Records(keys, files);
      forall i | 0 <= i < |visits| ensures ids[i] == keys.blobID(visits[i].0) && visits[i].0 in m && m[visits[i].0] == visits[i].1 {
        assert ids[i] == keys.blobID(visits[i].0);
      }
      forall u: Uuid | u in m ensures exists i :: 0 <= i < |visits| && visits[i].0 == u {
        assert keys.blobID(u) in ids;
        var i :| 0 <= i < |ids| && ids[i] == keys.blobID(u);
        assert visits[i].0 == u;
      }
    }
  }
}
