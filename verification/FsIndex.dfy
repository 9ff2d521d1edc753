/** The index of carter/fsindex: records by UUID and, for each directory, entries by name. */
module FsIndex {
  import opened ByteSeqs
  import opened MetaRecord

  datatype Entry = Entry(name: Bytes, uuid: Uuid, fileType: Byte)

  type Recs = map<Uuid, Record>
  type Children = map<Uuid, map<Bytes, Entry>>

  function Find(children: Children, parent: Uuid, name: Bytes): Option<Entry> {
    if parent in children && name in children[parent] then Some(children[parent][name]) else None
  }

  // --- the updates as functions -------------------------------------------------------------------------------

  function Unlinked(children: Children, parent: Uuid, name: Bytes): Children {
    if parent in children then children[parent := children[parent] - {name}] else children
  }

  function Linked(children: Children, parent: Uuid, e: Entry): Children {
    children[parent := (if parent in children then children[parent] else map[])[e.name := e]]
  }

  predicate SamePlace(a: Record, b: Record) { a.parentDirID == b.parentDirID && a.name == b.name }

  function EntryOf(r: Record): Entry { Entry(r.name, r.fileUUID, r.fileType) }

  /** putLocked: the old place is cleared if the record has moved, and all but the root get an entry. */
  function PutChildren(recs: Recs, children: Children, rec: Record): Children {
    var cleared :=
      if rec.fileUUID in recs && !SamePlace(recs[rec.fileUUID], rec)
      then Unlinked(children, recs[rec.fileUUID].parentDirID, recs[rec.fileUUID].name)
      else children;
    if IsRoot(rec) then cleared else Linked(cleared, rec.parentDirID, EntryOf(rec))
  }

  function RemoveChildren(recs: Recs, children: Children, uuid: Uuid): Children {
    if uuid in recs then Unlinked(children, recs[uuid].parentDirID, recs[uuid].name) - {uuid} else children
  }

  // --- what the index promises ----------------------------------------------------------------------------------

  /** Records are filed under their own UUID. */
  ghost predicate Filed(recs: Recs) { forall u :: u in recs ==> recs[u].fileUUID == u }

  /** Every entry names a live record with that parent and that name. */
  ghost predicate Sound(recs: Recs, children: Children) {
    forall p: Uuid, n: Bytes {:trigger Find(children, p, n)} :: Find(children, p, n).Some? ==>
      var e := Find(children, p, n).value;
      e.name == n && e.uuid in recs && recs[e.uuid].parentDirID == p && recs[e.uuid].name == n
  }

  /** Every live record other than the root is found under its parent and name. */
  ghost predicate Complete(recs: Recs, children: Children) {
    forall u :: u in recs && !IsRoot(recs[u]) ==> Find(children, recs[u].parentDirID, recs[u].name) == Some(EntryOf(recs[u]))
  }

  /** No two live records share a place. */
  ghost predicate Unique(recs: Recs) {
    forall u, v :: u in recs && v in recs && u != v ==> !SamePlace(recs[u], recs[v])
  }

  /** No two live records that get entries share a place. */
  ghost predicate Apart(recs: Recs) {
    forall u, v :: u in recs && v in recs && u != v && !IsRoot(recs[u]) && !IsRoot(recs[v]) ==> !SamePlace(recs[u], recs[v])
  }

  /** At most one record is the root: a directory under a fixed UUID, with nothing above it. */
  lemma OneRoot(recs: Recs, u: Uuid)
    requires Filed(recs) && u in recs
    ensures IsRoot(recs[u]) <==>
            u == Ascii("CARTER-ROOT") + Zeros(5) && recs[u].fileType == 2 && forall i :: 0 <= i < 16 ==> recs[u].parentDirID[i] == 0
  {
    assert recs[u].parentDirID == Zeros(16) <==> forall i :: 0 <= i < 16 ==> recs[u].parentDirID[i] == 0;
  }

  ghost predicate RootKept(recs: Recs) { RootDirUUID in recs ==> IsRoot(recs[RootDirUUID]) }

  lemma FindUnlinked(children: Children, parent: Uuid, name: Bytes, p: Uuid, n: Bytes)
    ensures Find(Unlinked(children, parent, name), p, n) == if p == parent && n == name then None else Find(children, p, n)
  {
  }

  lemma FindLinked(children: Children, parent: Uuid, e: Entry, p: Uuid, n: Bytes)
    ensures Find(Linked(children, parent, e), p, n) == if p == parent && n == e.name then Some(e) else Find(children, p, n)
  {
  }

  /** Where entries are found after a put. */
  lemma FindAfterPut(recs: Recs, children: Children, rec: Record, p: Uuid, n: Bytes)
    ensures Find(PutChildren(recs, children, rec), p, n) ==
            if !IsRoot(rec) && p == rec.parentDirID && n == rec.name then Some(EntryOf(rec))
            else if rec.fileUUID in recs && !SamePlace(recs[rec.fileUUID], rec)
                    && p == recs[rec.fileUUID].parentDirID && n == recs[rec.fileUUID].name then None
            else Find(children, p, n)
  {
    hide Unlinked, Linked, Find;
    if rec.fileUUID in recs && !SamePlace(recs[rec.fileUUID], rec) {
      FindUnlinked(children, recs[rec.fileUUID].parentDirID, recs[rec.fileUUID].name, p, n);
      FindLinked(Unlinked(children, recs[rec.fileUUID].parentDirID, recs[rec.fileUUID].name), rec.parentDirID, EntryOf(rec), p, n);
    } else {
      FindLinked(children, rec.parentDirID, EntryOf(rec), p, n);
    }
  }

  lemma FindAfterRemove(recs: Recs, children: Children, uuid: Uuid, p: Uuid, n: Bytes)
    requires uuid in recs
    ensures Find(RemoveChildren(recs, children, uuid), p, n) ==
            if p == uuid || (p == recs[uuid].parentDirID && n == recs[uuid].name) then None else Find(children, p, n)
  {
  }

  /** Soundness needs no assumption at all. */
  lemma PutSound(recs: Recs, children: Children, rec: Record)
    requires Filed(recs) && Sound(recs, children)
    ensures Filed(recs[rec.fileUUID := rec]) && Sound(recs[rec.fileUUID := rec], PutChildren(recs, children, rec))
  {
    hide PutChildren, Find;
    forall p: Uuid, n: Bytes | Find(PutChildren(recs, children, rec), p, n).Some?
      ensures var e, after := Find(PutChildren(recs, children, rec), p, n).value, recs[rec.fileUUID := rec];
              e.name == n && e.uuid in after && after[e.uuid].parentDirID == p && after[e.uuid].name == n
    {
      FindAfterPut(recs, children, rec, p, n);
    }
  }

  lemma RemoveSound(recs: Recs, children: Children, uuid: Uuid)
    requires Filed(recs) && Sound(recs, children)
    ensures Filed(recs - {uuid}) && Sound(recs - {uuid}, RemoveChildren(recs, children, uuid))
  {
    if uuid in recs {
      hide RemoveChildren, Find;
      forall p: Uuid, n: Bytes | Find(RemoveChildren(recs, children, uuid), p, n).Some?
        ensures var e, after := Find(RemoveChildren(recs, children, uuid), p, n).value, recs - {uuid};
                e.name == n && e.uuid in after && after[e.uuid].parentDirID == p && after[e.uuid].name == n
      {
        FindAfterRemove(recs, children, uuid, p, n);
      }
    } else {
      assert recs - {uuid} == recs && RemoveChildren(recs, children, uuid) == children;
    }
  }

  /** Another record that gets an entry has this place. */
  ghost predicate Taken(recs: Recs, u: Uuid, r: Record) {
    exists v :: v in recs && v != u && !IsRoot(recs[v]) && SamePlace(recs[v], r)
  }

  ghost predicate HasChild(recs: Recs, uuid: Uuid) {
    exists v :: v in recs && v != uuid && !IsRoot(recs[v]) && recs[v].parentDirID == uuid
  }

  /** A put takes no other record's entry: neither at its new place nor, if the record moves, at its old one. */
  ghost predicate PutSpares(recs: Recs, rec: Record) {
    var u := rec.fileUUID;
    && (!IsRoot(rec) ==> !Taken(recs, u, rec))
    && (u in recs && !SamePlace(recs[u], rec) ==> !Taken(recs, u, recs[u]))
  }

  ghost predicate RemoveSpares(recs: Recs, uuid: Uuid) {
    uuid in recs ==> !HasChild(recs, uuid) && !Taken(recs, uuid, recs[uuid])
  }

  /** A root that replaces, in the same place, a record with an entry leaves that entry behind. */
  predicate PutStrands(recs: Recs, rec: Record) {
    IsRoot(rec) && rec.fileUUID in recs && !IsRoot(recs[rec.fileUUID]) && SamePlace(recs[rec.fileUUID], rec)
  }

  /** A put keeps every record findable exactly when it takes no other record's entry. */
  lemma PutComplete(recs: Recs, children: Children, rec: Record)
    requires Filed(recs) && Complete(recs, children)
    ensures Complete(recs[rec.fileUUID := rec], PutChildren(recs, children, rec)) <==> PutSpares(recs, rec)
  {
    hide PutChildren, Find, IsRoot;
    var after, tree, u := recs[rec.fileUUID := rec], PutChildren(recs, children, rec), rec.fileUUID;
    if !IsRoot(rec) && Taken(recs, u, rec) {
      var v :| v in recs && v != u && !IsRoot(recs[v]) && SamePlace(recs[v], rec);
      FindAfterPut(recs, children, rec, rec.parentDirID, rec.name);
      assert after[v] == recs[v];
    } else if u in recs && !SamePlace(recs[u], rec) && Taken(recs, u, recs[u]) {
      var v :| v in recs && v != u && !IsRoot(recs[v]) && SamePlace(recs[v], recs[u]);
      FindAfterPut(recs, children, rec, recs[u].parentDirID, recs[u].name);
      assert after[v] == recs[v];
    } else {
      forall v | v in after && !IsRoot(after[v]) ensures Find(tree, after[v].parentDirID, after[v].name) == Some(EntryOf(after[v])) {
        FindAfterPut(recs, children, rec, after[v].parentDirID, after[v].name);
        assert v != u ==> after[v] == recs[v];
      }
    }
  }

  /** A removal does exactly when nothing else lives in what is removed or in its place. */
  lemma RemoveComplete(recs: Recs, children: Children, uuid: Uuid)
    requires Filed(recs) && Complete(recs, children)
    ensures Complete(recs - {uuid}, RemoveChildren(recs, children, uuid)) <==> RemoveSpares(recs, uuid)
  {
    hide RemoveChildren, Find, IsRoot;
    var after, tree := recs - {uuid}, RemoveChildren(recs, children, uuid);
    if uuid !in recs {
      RemoveNothing(recs, children, uuid);
    } else if HasChild(recs, uuid) {
      var v :| v in recs && v != uuid && !IsRoot(recs[v]) && recs[v].parentDirID == uuid;
      FindAfterRemove(recs, children, uuid, uuid, recs[v].name);
      assert v in after;
    } else if Taken(recs, uuid, recs[uuid]) {
      var v :| v in recs && v != uuid && !IsRoot(recs[v]) && SamePlace(recs[v], recs[uuid]);
      FindAfterRemove(recs, children, uuid, recs[v].parentDirID, recs[v].name);
      assert v in after;
    } else {
      forall v | v in after && !IsRoot(after[v]) ensures Find(tree, after[v].parentDirID, after[v].name) == Some(EntryOf(after[v])) {
        FindAfterRemove(recs, children, uuid, after[v].parentDirID, after[v].name);
      }
    }
  }

  lemma RemoveNothing(recs: Recs, children: Children, uuid: Uuid)
    requires uuid !in recs
    ensures recs - {uuid} == recs && RemoveChildren(recs, children, uuid) == children
  {
  }

  /** The root has no entry. */
  ghost predicate RootHidden(recs: Recs, children: Children) {
    forall p: Uuid, n: Bytes {:trigger Find(children, p, n)} ::
      Find(children, p, n).Some? && Find(children, p, n).value.uuid in recs ==> !IsRoot(recs[Find(children, p, n).value.uuid])
  }

  lemma PutHidesRoot(recs: Recs, children: Children, rec: Record)
    requires Filed(recs) && Sound(recs, children) && Complete(recs, children) && RootHidden(recs, children)
    ensures RootHidden(recs[rec.fileUUID := rec], PutChildren(recs, children, rec)) <==> !PutStrands(recs, rec)
  {
    hide PutChildren, Find, IsRoot;
    var after, tree := recs[rec.fileUUID := rec], PutChildren(recs, children, rec);
    if PutStrands(recs, rec) {
      FindAfterPut(recs, children, rec, rec.parentDirID, rec.name);
    } else {
      forall p: Uuid, n: Bytes | Find(tree, p, n).Some? && Find(tree, p, n).value.uuid in after
        ensures !IsRoot(after[Find(tree, p, n).value.uuid])
      {
        FindAfterPut(recs, children, rec, p, n);
      }
    }
  }

  lemma RemoveHidesRoot(recs: Recs, children: Children, uuid: Uuid)
    requires RootHidden(recs, children)
    ensures RootHidden(recs - {uuid}, RemoveChildren(recs, children, uuid))
  {
    if uuid in recs {
      hide RemoveChildren, Find, IsRoot;
      var after, tree := recs - {uuid}, RemoveChildren(recs, children, uuid);
      forall p: Uuid, n: Bytes | Find(tree, p, n).Some? && Find(tree, p, n).value.uuid in after
        ensures !IsRoot(after[Find(tree, p, n).value.uuid])
      {
        FindAfterRemove(recs, children, uuid, p, n);
      }
    }
  }

  /** Exactly the live records other than the root are found, each at its place. */
  ghost predicate FindsExactly(recs: Recs, children: Children) {
    forall p: Uuid, n: Bytes, e: Entry {:trigger Find(children, p, n), EntryAt(recs, p, n, e)} ::
      Find(children, p, n) == Some(e) <==> EntryAt(recs, p, n, e)
  }

  ghost predicate EntryAt(recs: Recs, p: Uuid, n: Bytes, e: Entry) {
    && e.uuid in recs && !IsRoot(recs[e.uuid])
    && recs[e.uuid].parentDirID == p && recs[e.uuid].name == n
    && e.name == n && e.fileType == recs[e.uuid].fileType
  }

  /** Lookup is exact exactly if all records are found, entries name live records, and the root has none. */
  lemma ExactlyFound(recs: Recs, children: Children)
    requires Filed(recs)
    ensures FindsExactly(recs, children) <==> Sound(recs, children) && Complete(recs, children) && RootHidden(recs, children)
  {
    hide Find, IsRoot;
    if FindsExactly(recs, children) {
      forall p: Uuid, n: Bytes | Find(children, p, n).Some? ensures EntryAt(recs, p, n, Find(children, p, n).value) {}
      forall u | u in recs && !IsRoot(recs[u])
        ensures Find(children, recs[u].parentDirID, recs[u].name) == Some(EntryOf(recs[u]))
      {
        assert EntryAt(recs, recs[u].parentDirID, recs[u].name, EntryOf(recs[u]));
      }
    }
    if Sound(recs, children) && Complete(recs, children) && RootHidden(recs, children) {
      forall p: Uuid, n: Bytes, e: Entry ensures Find(children, p, n) == Some(e) <==> EntryAt(recs, p, n, e) {}
    }
  }

  // --- whole runs ---------------------------------------------------------------------------------------------------

  datatype Op = Put(rec: Record) | Remove(uuid: Uuid)

  function Next(recs: Recs, op: Op): Recs {
    match op
    case Put(rec) => recs[rec.fileUUID := rec]
    case Remove(uuid) => recs - {uuid}
  }

  function NextChildren(recs: Recs, children: Children, op: Op): Children {
    match op
    case Put(rec) => PutChildren(recs, children, rec)
    case Remove(uuid) => RemoveChildren(recs, children, uuid)
  }

  function RecsAfter(ops: seq<Op>): Recs {
    if ops == [] then map[] else Next(RecsAfter(ops[..|ops| - 1]), ops[|ops| - 1])
  }

  function ChildrenAfter(ops: seq<Op>): Children {
    if ops == [] then map[]
    else NextChildren(RecsAfter(ops[..|ops| - 1]), ChildrenAfter(ops[..|ops| - 1]), ops[|ops| - 1])
  }

  /** After any run whatsoever, every entry names a live record with that parent and name. */
  lemma {:induction false} RunSound(ops: seq<Op>)
    ensures Filed(RecsAfter(ops)) && Sound(RecsAfter(ops), ChildrenAfter(ops))
  {
    if ops != [] {
      var before := ops[..|ops| - 1];
      RunSound(before);
      hide PutChildren, RemoveChildren;
      match ops[|ops| - 1] {
        case Put(rec) => PutSound(RecsAfter(before), ChildrenAfter(before), rec);
        case Remove(uuid) => RemoveSound(RecsAfter(before), ChildrenAfter(before), uuid);
      }
    }
  }

  // --- when lookup stays exact ------------------------------------------------------------------------------------

  /** What a caller can check before a step: it takes no other record's entry and strands none. */
  ghost predicate StepKeeps(recs: Recs, op: Op) {
    match op
    case Put(rec) => PutSpares(recs, rec) && !PutStrands(recs, rec)
    case Remove(uuid) => RemoveSpares(recs, uuid)
  }

  /** From an exact index, one step leads to an exact index exactly under that condition. */
  lemma StepExact(recs: Recs, children: Children, op: Op)
    requires Filed(recs) && FindsExactly(recs, children)
    ensures FindsExactly(Next(recs, op), NextChildren(recs, children, op)) <==> StepKeeps(recs, op)
  {
    hide FindsExactly, Sound, Complete, RootHidden, PutChildren, RemoveChildren, PutSpares, PutStrands, RemoveSpares;
    ExactlyFound(recs, children);
    match op {
      case Put(rec) =>
        PutSound(recs, children, rec);
        PutComplete(recs, children, rec);
        PutHidesRoot(recs, children, rec);
      case Remove(uuid) =>
        RemoveSound(recs, children, uuid);
        RemoveComplete(recs, children, uuid);
        RemoveHidesRoot(recs, children, uuid);
    }
    ExactlyFound(Next(recs, op), NextChildren(recs, children, op));
  }

  ghost predicate ExactAfter(ops: seq<Op>) { FindsExactly(RecsAfter(ops), ChildrenAfter(ops)) }

  lemma OneMoreStep(ops: seq<Op>, k: nat)
    requires k < |ops|
    ensures RecsAfter(ops[..k + 1]) == Next(RecsAfter(ops[..k]), ops[k])
    ensures ChildrenAfter(ops[..k + 1]) == NextChildren(RecsAfter(ops[..k]), ChildrenAfter(ops[..k]), ops[k])
  {
    assert ops[..k + 1][..k] == ops[..k];
  }

  /** Lookup has been exact at every moment of a run exactly if every step kept the condition. */
  lemma RunExact(ops: seq<Op>)
    ensures (forall k :: 0 <= k <= |ops| ==> ExactAfter(ops[..k])) <==>
            (forall k :: 0 <= k < |ops| ==> StepKeeps(RecsAfter(ops[..k]), ops[k]))
  {
    hide FindsExactly, StepKeeps, Next, NextChildren;
    if forall k :: 0 <= k <= |ops| ==> ExactAfter(ops[..k]) {
      forall k | 0 <= k < |ops| ensures StepKeeps(RecsAfter(ops[..k]), ops[k]) {
        assert ExactAfter(ops[..k]) && ExactAfter(ops[..k + 1]);
        StepAfter(ops, k);
      }
    }
    if forall k :: 0 <= k < |ops| ==> StepKeeps(RecsAfter(ops[..k]), ops[k]) {
      forall k | 0 <= k <= |ops| ensures ExactAfter(ops[..k]) {
        KeptRunExact(ops, k);
      }
    }
  }

  lemma StepAfter(ops: seq<Op>, k: nat)
    requires k < |ops| && ExactAfter(ops[..k])
    ensures ExactAfter(ops[..k + 1]) <==> StepKeeps(RecsAfter(ops[..k]), ops[k])
  {
    hide FindsExactly, StepKeeps, Next, NextChildren;
    RunSound(ops[..k]);
    OneMoreStep(ops, k);
    StepExact(RecsAfter(ops[..k]), ChildrenAfter(ops[..k]), ops[k]);
  }

  lemma {:induction false} KeptRunExact(ops: seq<Op>, k: nat)
    requires k <= |ops| && forall i :: 0 <= i < k ==> StepKeeps(RecsAfter(ops[..i]), ops[i])
    ensures ExactAfter(ops[..k])
  {
    if k > 0 {
      KeptRunExact(ops, k - 1);
      StepAfter(ops, k - 1);
    }
  }

  // --- what a whole run loses --------------------------------------------------------------------------------------

  /** A step writes or clears the entry at this place. */
  ghost predicate Touches(recs: Recs, op: Op, p: Uuid, n: Bytes) {
    match op
    case Put(rec) =>
      || (!IsRoot(rec) && rec.parentDirID == p && rec.name == n)
      || (rec.fileUUID in recs && !SamePlace(recs[rec.fileUUID], rec)
          && recs[rec.fileUUID].parentDirID == p && recs[rec.fileUUID].name == n)
    case Remove(uuid) => uuid in recs && (uuid == p || (recs[uuid].parentDirID == p && recs[uuid].name == n))
  }

  /** Since the last put of record u, no step has touched its place. */
  ghost predicate Untouched(ops: seq<Op>, u: Uuid) {
    u in RecsAfter(ops) && ops != [] &&
    (var k := |ops| - 1;
     (ops[k].Put? && ops[k].rec.fileUUID == u)
     || (Untouched(ops[..k], u) && var r := RecsAfter(ops)[u]; !Touches(RecsAfter(ops[..k]), ops[k], r.parentDirID, r.name)))
  }

  /** After any run, a live record other than the root is found exactly if its place has not been touched since
      it was last put. */
  lemma {:induction false} FoundIfUntouched(ops: seq<Op>, u: Uuid)
    requires u in RecsAfter(ops) && !IsRoot(RecsAfter(ops)[u])
    ensures var r := RecsAfter(ops)[u];
            Find(ChildrenAfter(ops), r.parentDirID, r.name) == Some(EntryOf(r)) <==> Untouched(ops, u)
  {
    var k := |ops| - 1;
    var recs, children, r := RecsAfter(ops[..k]), ChildrenAfter(ops[..k]), RecsAfter(ops)[u];
    RunSound(ops);
    RunSound(ops[..k]);
    hide PutChildren, RemoveChildren, Find, IsRoot;
    if !(ops[k].Put? && ops[k].rec.fileUUID == u) {
      FoundIfUntouched(ops[..k], u);
    }
    match ops[k] {
      case Put(rec) => FindAfterPut(recs, children, rec, r.parentDirID, r.name);
      case Remove(uuid) =>
        if uuid in recs {
          FindAfterRemove(recs, children, uuid, r.parentDirID, r.name);
        } else {
          RemoveNothing(recs, children, uuid);
        }
    }
  }

  // --- callers that keep the rules ---------------------------------------------------------------------------------

  /** Places are never shared, only empty directories are removed, and the root stays the root. */
  ghost predicate Legal(ops: seq<Op>) {
    ops == [] ||
    (var n := |ops| - 1;
     Legal(ops[..n]) && Unique(RecsAfter(ops)) && LegalStep(RecsAfter(ops[..n]), ops[n]))
  }

  ghost predicate LegalStep(recs: Recs, op: Op) {
    match op
    case Put(rec) => rec.fileUUID == RootDirUUID ==> IsRoot(rec)
    case Remove(uuid) => forall u :: u in recs && u != uuid ==> recs[u].parentDirID != uuid
  }

  lemma LegalStepKeeps(recs: Recs, op: Op)
    requires Filed(recs) && Unique(recs) && RootKept(recs) && Unique(Next(recs, op)) && LegalStep(recs, op)
    ensures StepKeeps(recs, op) && RootKept(Next(recs, op))
  {
    match op {
      case Put(rec) =>
        var after := Next(recs, op);
        forall v | v in recs && v != rec.fileUUID ensures !SamePlace(recs[v], rec) {
          assert !SamePlace(after[v], after[rec.fileUUID]);
        }
      case Remove(_) =>
    }
  }

  /** A run that keeps these rules meets the condition at every step, so lookup is exact throughout. */
  lemma {:induction false} LegalRunFindsExactly(ops: seq<Op>)
    requires Legal(ops)
    ensures FindsExactly(RecsAfter(ops), ChildrenAfter(ops)) && Unique(RecsAfter(ops)) && RootKept(RecsAfter(ops))
  {
    if ops != [] {
      var k := |ops| - 1;
      LegalRunFindsExactly(ops[..k]);
      RunSound(ops[..k]);
      assert ops[..k + 1] == ops;
      OneMoreStep(ops, k);
      LegalStepKeeps(RecsAfter(ops[..k]), ops[k]);
      StepAfter(ops, k);
    }
  }

  /** Two records in one place: removing the first one's record hides the second, which is still live. */
  lemma SharedPlaceLosesEntry(a: Record, b: Record)
    requires a.fileUUID != b.fileUUID && SamePlace(a, b) && !IsRoot(a) && !IsRoot(b)
    ensures var ops := [Put(a), Put(b), Remove(a.fileUUID)];
            b.fileUUID in RecsAfter(ops) && Find(ChildrenAfter(ops), b.parentDirID, b.name) == None
  {
    var ops := [Put(a), Put(b), Remove(a.fileUUID)];
    var two, one := ops[..2], ops[..1];
    assert two == [Put(a), Put(b)] && two[..1] == one == [Put(a)] && one[..0] == [];
    assert RecsAfter(one) == map[][a.fileUUID := a];
    assert RecsAfter(two) == RecsAfter(one)[b.fileUUID := b];
    FindAfterRemove(RecsAfter(ops[..2]), ChildrenAfter(ops[..2]), a.fileUUID, b.parentDirID, b.name);
  }

  /** A file in the place of the root: renaming the root hides the file, though no two records share a place any more. */
  lemma RenamedRootLosesEntry(root: Record, file: Record, renamed: Record)
    requires IsRoot(root) && IsRoot(renamed) && !IsRoot(file) && file.fileUUID != RootDirUUID
    requires SamePlace(root, file) && renamed.name != root.name
    ensures var ops := [Put(root), Put(file), Put(renamed)];
            && file.fileUUID in RecsAfter(ops) && Find(ChildrenAfter(ops), file.parentDirID, file.name) == None
            && Unique(RecsAfter(ops)) && RootKept(RecsAfter(ops))
  {
    var ops := [Put(root), Put(file), Put(renamed)];
    var two, one := ops[..2], ops[..1];
    assert two == [Put(root), Put(file)] && two[..1] == one == [Put(root)] && one[..0] == [];
    assert RecsAfter(one) == map[][root.fileUUID := root];
    assert RecsAfter(two) == RecsAfter(one)[file.fileUUID := file];
    FindAfterPut(RecsAfter(two), ChildrenAfter(two), renamed, file.parentDirID, file.name);
  }

  /** Such records exist, and the codec accepts them. */
  lemma RenamedRoot(root: Record, file: Record) returns (r: Record, f: Record, renamed: Record)
    requires Validate(root) && IsRoot(root) && Validate(file) && file.fileType == TypeRegular && file.fileUUID != RootDirUUID
    ensures Validate(r) && Validate(f) && Validate(renamed)
    ensures IsRoot(r) && IsRoot(renamed) && !IsRoot(f) && f.fileUUID == file.fileUUID
    ensures SamePlace(r, f) && renamed.name != r.name
  {
    assert ValidUtf8([97][1..]) && ValidUtf8([98][1..]);
    r, f, renamed := root.(name := [97]), file.(name := [97], parentDirID := Zeros(16)), root.(name := [98]);
  }

  // --- the index object ------------------------------------------------------------------------------------------------

  class Index {
    var gen: nat
    var recs: Recs
    var children: Children

    constructor ()
      ensures gen == 0 && recs == map[] && children == map[]
    {
      gen, recs, children := 0, map[], map[];
    }

    method Lookup(parent: Uuid, name: Bytes) returns (e: Option<Entry>)
      ensures e == Find(children, parent, name)
    {
      if parent !in children {
        return None;
      }
      var m := children[parent];
      return if name in m then Some(m[name]) else None;
    }

    method PutLocked(rec: Record)
      modifies this`recs, this`children
      ensures recs == old(recs)[rec.fileUUID := rec] && children == PutChildren(old(recs), old(children), rec)
    {
      if rec.fileUUID in recs && (recs[rec.fileUUID].parentDirID != rec.parentDirID || recs[rec.fileUUID].name != rec.name) {
        var was := recs[rec.fileUUID];
        if was.parentDirID in children {
          children := children[was.parentDirID := children[was.parentDirID] - {was.name}];
        }
      }
      recs := recs[rec.fileUUID := rec];
      if !IsRoot(rec) {
        var m := if rec.parentDirID in children then children[rec.parentDirID] else map[];
        children := children[rec.parentDirID := m[rec.name := Entry(rec.name, rec.fileUUID, rec.fileType)]];
      }
    }

    method Drop(uuid: Uuid)
      modifies this`recs, this`children
      ensures recs == old(recs) - {uuid} && children == RemoveChildren(old(recs), old(children), uuid)
    {
      if uuid !in recs {
        return;
      }
      var r := recs[uuid];
      if r.parentDirID in children {
        children := children[r.parentDirID := children[r.parentDirID] - {r.name}];
      }
      recs := recs - {uuid};
      children := children - {uuid};
    }
  }

  /** Any run on a new index leaves what the reference says. */
  method Run(ops: seq<Op>) returns (idx: Index)
    ensures idx.recs == RecsAfter(ops) && idx.children == ChildrenAfter(ops)
  {
    idx := new Index();
    for i := 0 to |ops|
      invariant fresh(idx) && idx.recs == RecsAfter(ops[..i]) && idx.children == ChildrenAfter(ops[..i])
    {
      assert ops[..i + 1][..i] == ops[..i];
      match ops[i] {
        case Put(rec) => idx.PutLocked(rec);
        case Remove(uuid) => idx.Drop(uuid);
      }
    }
    assert ops[..|ops|] == ops;
  }
}
