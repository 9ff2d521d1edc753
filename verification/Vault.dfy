/** Crash safety of the index cache (carter/fsindex with carter/blobstore): blobs, the sealed tree file and the
    dirty marker survive a crash; the index in memory does not. Each step is atomic, and the process may die
    between any two of them. */
module Vault {
  import opened ByteSeqs
  import opened ContentEnc
  import opened MetaRecord
  import opened BlobStore
  import opened FsIndex
  import opened IndexBody

  /** unseal */
  function Unsealed(gcm: Aead, raw: Bytes): Option<Bytes> {
    if |raw| < SealNonceLen + AuthTagLen then None
    else gcm.open(raw[..SealNonceLen], raw[SealNonceLen..], SealAD)
  }

  method Seal(gcm: Aead, body: Bytes) returns (raw: Bytes)
    requires gcm.Ideal()
    ensures Unsealed(gcm, raw) == Some(body) && |raw| == 16 + |body| + 16
  {
    var nonce := RandomBytes(SealNonceLen);
    raw := nonce + gcm.seal(nonce, body, SealAD);
    assert raw[..SealNonceLen] == nonce && raw[SealNonceLen..] == gcm.seal(nonce, body, SealAD);
  }

  /** The records in a tree file, if it loads at all. */
  ghost function TreeList(gcm: Aead, raw: Bytes): Option<seq<Record>> {
    match Unsealed(gcm, raw)
    case None => None
    case Some(body) => DecodedBody(body)
  }

  /** The index shows what the blobs hold; a version 0 in memory stands for the current one on disk. */
  ghost predicate Mirrors(recs: Recs, blobs: Recs) {
    && recs.Keys == blobs.Keys
    && forall u :: u in recs ==> Normalized(recs[u]) == blobs[u] && recs[u].fileUUID == u
  }

  lemma MirrorPut(recs: Recs, blobs: Recs, rec: Record)
    requires Mirrors(recs, blobs)
    ensures Mirrors(recs[rec.fileUUID := rec], blobs[rec.fileUUID := Normalized(rec)])
  {
  }

  lemma MirrorRemove(recs: Recs, blobs: Recs, u: Uuid)
    requires Mirrors(recs, blobs)
    ensures Mirrors(recs - {u}, blobs - {u})
  {
  }

  lemma MirrorRefreshed(recs: Recs, blobs: Recs)
    requires Mirrors(recs, blobs)
    ensures Filed(recs) && |recs| == |blobs| && Refreshed(recs) == blobs
  {
    assert |recs.Keys| == |blobs.Keys|;
  }

  /** The sealed tree of any index loads as that index, unless a record had to be dropped: then it does not
      load at all. */
  method SealTree(gcm: Aead, gen: nat, recs: Recs) returns (raw: Bytes)
    requires gcm.Ideal() && Filed(recs) && |recs| < 0x1_0000_0000
    ensures TreeList(gcm, raw).Some? <==> forall u :: u in recs ==> Storable(recs[u])
    ensures TreeList(gcm, raw).Some? ==> ListsAll(TreeList(gcm, raw).value, Refreshed(recs))
  {
    hide Storable, DecodedBody, ListsAll, Unsealed, Filed, Aead.Ideal;
    var body := EncodeBody(gen, recs);
    raw := Seal(gcm, body);
  }

  /** What this program leaves in blobs: no record claims version 0. And the count in the tree file is 32 bits wide. */
  ghost predicate Plain(blobs: Recs) {
    && |blobs| < 0x1_0000_0000
    && forall u :: u in blobs ==> blobs[u].schemaVersion != 0 && blobs[u].fileUUID == u
  }

  /** Where the process is in its batch. */
  datatype Phase = Down | Idle | Batch | PendingPut(rec: Record) | PendingRemove(uuid: Uuid) | Saved

  class Vault {
    const store: Store
    const gcm: Aead           // under K_idx
    var tree: Option<Bytes>
    var dirty: bool
    var idx: Index
    var phase: Phase

    ghost function Blobs(): Recs
      reads store
      requires store.Valid()
    {
      Records(store.keys, store.files)
    }

    /** The table the index has to reach to be in step with the blobs. */
    ghost function Due(): Recs
      reads this, idx
    {
      match phase
      case PendingPut(rec) => idx.recs[rec.fileUUID := rec]
      case PendingRemove(uuid) => idx.recs - {uuid}
      case _ => idx.recs
    }

    /** A tree file without a dirty marker is either unusable or up to date. */
    ghost predicate TreeFresh()
      reads this, store
      requires store.Valid()
    {
      tree.Some? && TreeList(gcm, tree.value).Some? ==> ListsAll(TreeList(gcm, tree.value).value, Blobs())
    }

    /** A start finds a tree it can use. */
    ghost predicate Loadable()
      reads this, store
      requires store.Valid()
    {
      !dirty && tree.Some? && TreeList(gcm, tree.value).Some? && RootDirUUID in Blobs()
    }

    ghost predicate Inv()
      reads this, store, idx
    {
      && store.Valid() && gcm.Ideal() && Plain(Blobs())
      && (!dirty || phase == Saved ==> TreeFresh())
      && (phase.Batch? || phase.PendingPut? || phase.PendingRemove? ==> dirty)
      && (!phase.Down? ==> Mirrors(Due(), Blobs()))
    }

    constructor (store: Store, gcm: Aead)
      requires store.Valid() && gcm.Ideal() && Plain(Records(store.keys, store.files))
      ensures Inv() && fresh(idx) && this.store == store && phase == Down
    {
      this.store, this.gcm := store, gcm;
      tree, dirty, phase := None, false, Down;
      idx := new Index();
    }

    /** The process dies; only the disk is left. */
    method Crash()
      requires Inv()
      modifies this`phase, this`idx
      ensures Inv() && fresh(idx) && phase == Down
    {
      hide Mirrors, Records, Store.Valid, TreeList, Plain, Aead.Ideal;
      phase := Down;
      idx := new Index();
    }

    method MarkDirty() returns (ok: bool)
      requires Inv() && (phase == Idle || phase == Batch)
      modifies this`dirty, this`phase
      ensures Inv() && phase == (if ok then Batch else old(phase)) && (store.reliable ==> ok)
    {
      hide Mirrors, Records, Store.Valid, TreeList, Plain, Aead.Ideal;
      ok := *;
      ok := ok || store.reliable;
      if ok {
        dirty := true;
        phase := Batch;
      }
    }

    /** Save, first half: the tree file is replaced, or not. */
    method WriteTree() returns (ok: bool)
      requires Inv() && (phase == Batch || phase == Idle)
      modifies this`tree, this`phase, idx`gen
      ensures Inv() && phase == (if ok then Saved else old(phase)) && (store.reliable ==> ok)
      ensures if ok then tree.Some? && (TreeList(gcm, tree.value).Some? <==> forall u :: u in idx.recs ==> Storable(idx.recs[u]))
              else tree == old(tree)
      ensures idx.gen == old(idx.gen) + 1
    {
      hide Mirrors, Records, Store.Valid, TreeList, Storable, ListsAll, Aead.Ideal, Filed, Refreshed;
      MirrorRefreshed(idx.recs, Blobs());
      idx.gen := idx.gen + 1;
      var raw := SealTree(gcm, idx.gen, idx.recs);
      ok := *;
      ok := ok || store.reliable;
      if ok {
        tree := Some(raw);
        phase := Saved;
      }
    }

    /** Save, second half: the marker is removed; that it may fail to go away does no harm. */
    method ClearDirty()
      requires Inv() && phase == Saved
      modifies this`dirty, this`phase
      ensures Inv() && phase == Idle && (store.reliable ==> !dirty)
    {
      hide Mirrors, Records, Store.Valid, TreeList, Plain, Aead.Ideal;
      var gone: bool := *;
      if gone || store.reliable {
        dirty := false;
      }
      phase := Idle;
    }

    /** Tree files count their records in 32 bits; larger vaults are not considered. */
    predicate HasRoom()
      reads this, idx
    {
      |idx.recs| < 0xFFFF_FFFF
    }

    /** A blob is created or replaced inside a batch; the index does not know yet. */
    method WriteBlob(rec: Record, content: Bytes) returns (ok: bool)
      requires Inv() && phase == Batch && HasRoom()
      modifies store, this`phase
      ensures store.reliable && Validate(rec) && |Encoded(Fields(rec))| <= MaxRecordLen ==> ok
      ensures Inv() && phase == if ok then PendingPut(rec) else Batch
      ensures Blobs() == if ok then old(Blobs())[rec.fileUUID := Normalized(rec)] else old(Blobs())
    {
      hide Mirrors, Records, TreeList, Plain, Aead.Ideal, Keys.Valid, WellPlaced, Store.Wrote, Store.Meta, Encoded, Fields, Validate, Vault.TreeFresh;
      ghost var before := Blobs();
      ok := store.WriteMeta(rec, content);
      if ok {
        Blobwise(rec, before);
        phase := PendingPut(rec);
      }
    }

    method ReplaceBlob(rec: Record) returns (ok: bool)
      requires Inv() && phase == Batch && HasRoom()
      modifies store, this`phase
      ensures store.reliable && Validate(rec) && |Encoded(Fields(rec))| <= MaxRecordLen && old(store.Meta(rec.fileUUID)).Some? ==> ok
      ensures Inv() && phase == if ok then PendingPut(rec) else Batch
      ensures Blobs() == if ok then old(Blobs())[rec.fileUUID := Normalized(rec)] else old(Blobs())
    {
      hide Mirrors, Records, TreeList, Plain, Aead.Ideal, Keys.Valid, WellPlaced, Store.Wrote, Store.Meta, Encoded, Fields, Validate, Vault.TreeFresh;
      ghost var before := Blobs();
      ok := store.ReplaceMeta(rec);
      if ok {
        Blobwise(rec, before);
        phase := PendingPut(rec);
      }
    }

    lemma Blobwise(rec: Record, before: Recs)
      requires Mirrors(idx.recs, before) && Plain(before) && HasRoom()
      ensures Mirrors(idx.recs[rec.fileUUID := rec], before[rec.fileUUID := Normalized(rec)])
      ensures Plain(before[rec.fileUUID := Normalized(rec)])
    {
      MirrorPut(idx.recs, before, rec);
      MirrorRefreshed(idx.recs, before);
    }

    method DeleteBlob(uuid: Uuid) returns (ok: bool)
      requires Inv() && phase == Batch
      modifies store, this`phase
      ensures store.reliable ==> ok
      ensures Inv() && phase == if ok then PendingRemove(uuid) else Batch
      ensures Blobs() == if ok then old(Blobs()) - {uuid} else old(Blobs())
    {
      hide Mirrors, Records, TreeList, Plain, Aead.Ideal, Keys.Valid, WellPlaced, Store.Blob, Vault.TreeFresh;
      ghost var before := Blobs();
      ok := store.Delete(uuid);
      if ok {
        MirrorRemove(idx.recs, before, uuid);
        Fewer(before, uuid);
        phase := PendingRemove(uuid);
      }
    }

    lemma Fewer(m: Recs, u: Uuid)
      requires Plain(m)
      ensures Plain(m - {u})
    {
      assert (m - {u}).Keys == m.Keys - {u};
    }

    /** The index follows the blob. */
    method Mirror()
      requires Inv() && (phase.PendingPut? || phase.PendingRemove?)
      modifies this`phase, idx`recs, idx`children
      ensures Inv() && phase == Batch
    {
      hide Mirrors, Records, Store.Valid, TreeList, Plain, Aead.Ideal;
      match phase {
        case PendingPut(rec) => idx.PutLocked(rec);
        case PendingRemove(uuid) => idx.Drop(uuid);
      }
      phase := Batch;
    }

    /** The index shows the records of the blobs, and exactly their entries if and only if no two share a place. */
    ghost predicate ShowsBlobs(i: Index)
      reads i, store
      requires store.Valid()
    {
      ShowsTable(i.recs, i.children, Blobs())
    }

    /** Load: refuses a marked, missing, unreadable or rootless tree. */
    method Load() returns (i: Index, ok: bool)
      requires Inv()
      ensures fresh(i) && (ok ==> ShowsBlobs(i))
      ensures ok <==> Loadable()
    {
      hide Records, ListsAll, Mirrors, Plain, Store.Valid, DecodedBody, Aead.Ideal, RecsAfter, ChildrenAfter, ShowsTable;
      i := new Index();
      if dirty || tree.None? {
        return i, false;
      }
      var body := Unsealed(gcm, tree.value);
      if body.None? {
        return i, false;
      }
      ok := DecodeBody(i, body.value);
      if !ok {
        return;
      }
      PutsFindExactly(DecodedBody(body.value).value, Blobs());
      ShowsRecs(i);
      ok := RootDirUUID in i.recs;
    }

    lemma ShowsRecs(i: Index)
      requires store.Valid() && ShowsBlobs(i)
      ensures i.recs == Blobs()
    {
      hide Records;
    }

    /** Rebuild: the index of a full scan. */
    method Rebuild() returns (i: Index, ok: bool)
      requires store.Valid()
      ensures fresh(i) && (ok ==> ShowsBlobs(i) && RootDirUUID in Blobs())
      ensures store.reliable && RootDirUUID in Blobs() ==> ok
    {
      hide Records, ListsAll, Lists, Store.Valid, RecsAfter, ChildrenAfter, Sound, FindsSome, FindsExactly, Apart;
      i := new Index();
      var visits, _, scanned := store.Scan();
      if !scanned {
        return i, false;
      }
      var rs := seq(|visits|, k requires 0 <= k < |visits| => visits[k].1);
      ScanLists(visits, rs);
      AddAll(i, rs);
      PutsFindExactly(rs, Blobs());
      ok := RootDirUUID in i.recs;
    }

    lemma ScanLists(visits: seq<(Uuid, Record)>, rs: seq<Record>)
      requires store.Valid() && Lists(visits, Blobs())
      requires |rs| == |visits| && forall k :: 0 <= k < |rs| ==> rs[k] == visits[k].1
      ensures ListsAll(rs, Blobs())
    {
      hide Keys.ScanOf, Records;
      BlobsFiled();
      forall u: Uuid | u in Blobs() ensures exists k :: 0 <= k < |rs| && rs[k].fileUUID == u {
        var k :| 0 <= k < |visits| && visits[k].0 == u;
        assert rs[k].fileUUID == u;
      }
    }

    lemma BlobsFiled()
      requires store.Valid()
      ensures Filed(Blobs())
    {
      RecordsAre(store.keys, store.files);
    }

    /** LoadOrRebuild. If the process comes up, its index is that of a rebuild from the blobs; only a missing root
        blob, a failing device or its own death between the two halves of the save keep it down. */
    method Start(dies: bool) returns (ok: bool, scanned: bool)
      requires Inv() && phase == Down
      modifies this`tree, this`dirty, this`idx, this`phase
      ensures Inv() && ok == (phase == Idle) && (ok ==> ShowsBlobs(idx)) && fresh(idx)
      ensures !ok ==> phase == Down
      ensures store.reliable && !dies && RootDirUUID in Blobs() ==> ok
      ensures scanned <==> !old(Loadable())
      ensures !scanned ==> ok && tree == old(tree) && dirty == old(dirty)
    {
      hide Records, ListsAll, Mirrors, Plain, Store.Valid, TreeList, Aead.Ideal, ShowsTable;
      var i, found := Load();
      scanned := !found;
      if !found {
        i, ok := Rebuild();
        idx := i;
        if !ok {
          return;
        }
        InStep(i);
        phase := Idle;
        var written := WriteTree();
        if !written || dies {
          phase := Down;
          return false, true;
        }
        ClearDirty();
      } else {
        InStep(i);
        idx := i;
        phase := Idle;
      }
      return true, scanned;
    }

    /** Once the index is saved on a reliable device, the next start after a crash uses the tree and does not scan,
        unless there is no root or a record was too long to be stored. */
    method SaveAndRestart(dies: bool) returns (ok: bool, scanned: bool)
      requires Inv() && (phase == Batch || phase == Idle) && store.reliable
      modifies this, idx
      ensures Inv() && (ok ==> ShowsBlobs(idx))
      ensures scanned <==> RootDirUUID !in Blobs() || exists u :: u in old(idx.recs) && !Storable(old(idx.recs)[u])
      ensures !scanned ==> ok
    {
      hide Records, ListsAll, Mirrors, Plain, Store.Valid, TreeList, Aead.Ideal, ShowsTable, Storable;
      var _ := WriteTree();
      ClearDirty();
      Crash();
      ok, scanned := Start(dies);
    }

    lemma InStep(i: Index)
      requires store.Valid() && Plain(Blobs()) && ShowsBlobs(i)
      ensures Mirrors(i.recs, Blobs())
    {
      hide Records;
    }
  }

  // --- whole runs ------------------------------------------------------------------------------------------------------

  datatype Action =
    | Boot(dies: bool) | Kill | Mark
    | Write(rec: Record, content: Bytes) | Replace(rec: Record) | Delete(uuid: Uuid)
    | Follow | Tree | Clear

  /** What an action may do to the blobs: nothing, or exactly what it says to one record. */
  ghost predicate BlobStep(a: Action, before: Recs, after: Recs) {
    || after == before
    || (match a
        case Write(rec, _) => after == before[rec.fileUUID := Normalized(rec)]
        case Replace(rec) => after == before[rec.fileUUID := Normalized(rec)]
        case Delete(uuid) => after == before - {uuid}
        case _ => false)
  }

  /** What an index shows: its records and its entries. */
  datatype Sight = Sight(recs: Recs, children: Children)

  /** One action, if the process is in a phase for it; and what a successful start shows. */
  method Perform(v: Vault, a: Action) returns (shown: Option<Sight>)
    requires v.Inv()
    modifies v, v.store, v.idx
    ensures v.Inv() && (v.idx == old(v.idx) || fresh(v.idx))
    ensures BlobStep(a, old(v.Blobs()), v.Blobs())
    ensures old(v.phase) == Batch && old(v.HasRoom()) && v.store.reliable && a.Write? && Storable(a.rec) ==>
              v.Blobs() == old(v.Blobs())[a.rec.fileUUID := Normalized(a.rec)]
    ensures old(v.phase) == Batch && v.store.reliable && a.Delete? ==> v.Blobs() == old(v.Blobs()) - {a.uuid}
    ensures (old(v.phase).PendingPut? || old(v.phase).PendingRemove?) && a == Follow ==> v.phase == Batch
    ensures (old(v.phase) == Idle || old(v.phase) == Batch) && v.store.reliable ==> (a == Mark ==> v.phase == Batch) && (a == Tree ==> v.phase == Saved)
    ensures old(v.phase) == Saved && a == Clear ==> v.phase == Idle
    ensures v.phase == Down <==> a == Kill || (old(v.phase) == Down && shown.None?)
    ensures old(v.phase) == Down && a == Boot(false) && v.store.reliable && RootDirUUID in v.Blobs() ==> shown.Some?
    ensures shown.Some? ==> a.Boot? && ShowsTable(shown.value.recs, shown.value.children, v.Blobs())
  {
    hide Records, Mirrors, Plain, Store.Valid, ShowsTable, Aead.Ideal, Vault.TreeFresh, Vault.Due;
    shown := None;
    match a {
      case Boot(dies) =>
        if v.phase == Down {
          var ok, _ := v.Start(dies);
          if ok {
            shown := Some(Sight(v.idx.recs, v.idx.children));
          }
        }
      case Kill => v.Crash();
      case Mark =>
        if v.phase == Idle || v.phase == Batch {
          var _ := v.MarkDirty();
        }
      case Write(rec, content) =>
        if v.phase == Batch && v.HasRoom() {
          var _ := v.WriteBlob(rec, content);
        }
      case Replace(rec) =>
        if v.phase == Batch && v.HasRoom() {
          var _ := v.ReplaceBlob(rec);
        }
      case Delete(uuid) =>
        if v.phase == Batch {
          var _ := v.DeleteBlob(uuid);
        }
      case Follow =>
        if v.phase.PendingPut? || v.phase.PendingRemove? {
          v.Mirror();
        }
      case Tree =>
        if v.phase == Batch || v.phase == Idle {
          var _ := v.WriteTree();
        }
      case Clear =>
        if v.phase == Saved {
          v.ClearDirty();
        }
    }
  }

  /** No process is up before action k: none has been started since the last crash. */
  predicate IsDown(actions: seq<Action>, shown: seq<Option<Sight>>, k: nat)
    requires k <= |actions| && k <= |shown|
  {
    k == 0 || actions[k - 1] == Kill || (IsDown(actions, shown, k - 1) && shown[k - 1].None?)
  }

  lemma NoneUp(actions: seq<Action>)
    ensures IsDown(actions, [], 0)
  {
  }

  lemma DownNext(actions: seq<Action>, shown: seq<Option<Sight>>, k: nat)
    requires k < |actions| && k < |shown|
    ensures IsDown(actions, shown, k + 1) <==> actions[k] == Kill || (IsDown(actions, shown, k) && shown[k].None?)
  {
  }

  /** A start that has everything it needs: a reliable device, no sudden death, and a root. */
  ghost predicate Bootable(store: Store, actions: seq<Action>, shown: seq<Option<Sight>>, blobs: seq<Recs>, k: nat)
    requires k < |actions| && k <= |shown| && k + 1 < |blobs|
  {
    store.reliable && actions[k] == Boot(false) && IsDown(actions, shown, k) && RootDirUUID in blobs[k + 1]
  }

  lemma {:induction false} DownIgnoresLater(actions: seq<Action>, shown: seq<Option<Sight>>, s: Option<Sight>, k: nat)
    requires k <= |actions| && k <= |shown|
    ensures IsDown(actions, shown + [s], k) == IsDown(actions, shown, k)
  {
    if k > 0 {
      DownIgnoresLater(actions, shown, s, k - 1);
    }
  }

  /** Any run of batches, crashes and restarts. `blobs` is what the blobs hold before the run and after each action:
      every start that succeeds shows exactly what they hold at that moment. */
  method Run(store: Store, gcm: Aead, actions: seq<Action>) returns (shown: seq<Option<Sight>>, ghost blobs: seq<Recs>)
    requires store.Valid() && gcm.Ideal() && Plain(Records(store.keys, store.files))
    modifies store
    ensures store.Valid() && |shown| == |actions| && |blobs| == |actions| + 1
    ensures blobs[0] == old(Records(store.keys, store.files)) && blobs[|actions|] == Records(store.keys, store.files)
    ensures forall k :: 0 <= k < |actions| ==> BlobStep(actions[k], blobs[k], blobs[k + 1])
    ensures forall k :: 0 <= k < |actions| && shown[k].Some? ==> actions[k].Boot? && ShowsTable(shown[k].value.recs, shown[k].value.children, blobs[k + 1])
    ensures forall k :: 0 <= k < |actions| && Bootable(store, actions, shown, blobs, k) ==> shown[k].Some?
  {
    hide Records, Plain, BlobStep, ShowsTable, Aead.Ideal, Mirrors, Vault.TreeFresh, WellPlaced, Keys.Valid, Vault.Due, IsDown;
    NoneUp(actions);
    var v := new Vault(store, gcm);
    shown, blobs := [], [v.Blobs()];
    for i := 0 to |actions|
      invariant fresh(v) && fresh(v.idx) && v.store == store && v.Inv() && |shown| == i && |blobs| == i + 1
      invariant blobs[0] == old(Records(store.keys, store.files)) && blobs[i] == v.Blobs()
      invariant forall k :: 0 <= k < i ==> BlobStep(actions[k], blobs[k], blobs[k + 1])
      invariant forall k :: 0 <= k < i && shown[k].Some? ==> actions[k].Boot? && ShowsTable(shown[k].value.recs, shown[k].value.children, blobs[k + 1])
      invariant forall k :: 0 <= k < i && Bootable(store, actions, shown, blobs, k) ==> shown[k].Some?
      invariant v.phase == Down <==> IsDown(actions, shown, i)
    {
      var s := Perform(v, actions[i]);
      ghost var before, held := shown, blobs;
      shown, blobs := shown + [s], blobs + [v.Blobs()];
      forall k | 0 <= k <= i ensures IsDown(actions, shown, k) == IsDown(actions, before, k) {
        DownIgnoresLater(actions, before, s, k);
      }
      DownNext(actions, shown, i);
      assert forall k :: 0 <= k < i ==> Bootable(store, actions, shown, blobs, k) == Bootable(store, actions, before, held, k);
    }
  }
}
