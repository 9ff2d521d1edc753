/** -sharedstorage: who creates the file header. Mounts read and create it in steps that interleave
    freely, under byte-range locks; each caches the file ID it has seen. Headers are written atomically.
    Apart from two branches, at most one header is ever created and all cached IDs are the one on disk;
    with either branch allowed, some run breaks this. */
module SharedHeader {
  import opened ByteSeqs
  import opened ContentEnc

  type MountId = nat
  type ID = nat

  /** `Zeroed` is what growing a file without a header by ftruncate(2) leaves: a header of zeros. */
  datatype Header = Absent | Zeroed | Present(id: ID)

  /** `created` counts the headers ever written. */
  datatype Disk = Disk(header: Header, size: nat, created: nat)
  {
    function Ftruncate(n: nat): Disk {
      Disk(if n < HeaderLen then Absent else if header.Absent? then Zeroed else header, n, created)
    }
    function WriteHeader(id: ID): Disk { Disk(Present(id), if size < HeaderLen then HeaderLen else size, created + 1) }
  }

  /** Where a mount is within the operation it is carrying out. */
  datatype Phase =
    | Idle
    | HeaderLocked                       // doWrite: holds the lock on the header range
    | MustCreate                         // doWrite: found the file empty
    | HaveID(id: ID, fileWasEmpty: bool) // doWrite: ID read or created, not yet cached
    | InWrite(fileWasEmpty: bool)        // doWrite: about to write data
    | HasRead(id: ID)                    // doRead: ID read, not yet cached
    | AllLocked                          // truncate to zero: holds the lock on the whole file
    | Shrinking                          // truncate: found the file longer than the new size
    | Growing                            // truncateGrowFile: found the file empty, new size aligned
    | Grown(id: ID)                      // truncateGrowFile: header created, not yet cached

  datatype State = State(disk: Disk, lock: Option<MountId>, phase: map<MountId, Phase>, cached: map<MountId, ID>)
  {
    function PhaseOf(m: MountId): Phase { if m in phase then phase[m] else Idle }
    function Go(m: MountId, p: Phase): State { this.(phase := phase[m := p]) }
  }

  datatype Action =
    | BeginWrite(m: MountId)       // lock the header range, or go on if the ID is cached
    | ReadHeaderLocked(m: MountId)
    | CreateHeader(m: MountId, id: ID)
    | CacheID(m: MountId)
    | PutData(m: MountId, end: nat)
    | EndWrite(m: MountId)
    | RollBack(m: MountId)         // preallocation failed after the header was created
    | ReadID(m: MountId)
    | BeginTruncate(m: MountId)    // lock the whole file
    | CutToHeader(m: MountId)
    | BeginShrink(m: MountId)
    | Cut(m: MountId, end: nat)
    | BeginGrow(m: MountId)
    | GrowHeader(m: MountId, id: ID)
    | Forget(m: MountId)           // the last close drops the table entry and with it the ID
    | GiveUp(m: MountId)           // an operation fails before it has changed anything

  /** The header-range lock and the whole-file lock exclude each other and themselves. */
  predicate LockFree(s: State) { s.lock == None }

  ghost predicate Next(s: State, a: Action, s': State) {
    var p, d := s.PhaseOf(a.m), s.disk;
    match a
    case BeginWrite(m) =>
      && p.Idle?
      && if m in s.cached then s' == s.Go(m, InWrite(false))
         else LockFree(s) && s' == s.(lock := Some(m)).Go(m, HeaderLocked)
    case ReadHeaderLocked(m) =>
      && p.HeaderLocked?
      && (match d.header
          case Absent => s' == s.Go(m, MustCreate)
          case Present(id) => s' == s.Go(m, HaveID(id, false))
          case Zeroed => s' == s.(lock := None).Go(m, Idle)) // corrupt header: EIO
    case CreateHeader(m, id) =>
      p.MustCreate? && s' == s.(disk := d.WriteHeader(id)).Go(m, HaveID(id, true))
    case CacheID(m) =>
      || (p.HaveID? && s' == s.(cached := s.cached[m := p.id]).Go(m, InWrite(p.fileWasEmpty)))
      || (p.HasRead? && s' == s.(cached := s.cached[m := p.id]).Go(m, Idle))
      || (p.Grown? && s' == s.(cached := s.cached[m := p.id]).Go(m, Idle))
    case PutData(m, end) =>
      p.InWrite? && end > HeaderLen && s' == s.(disk := d.(size := if d.size < end then end else d.size))
    case EndWrite(m) =>
      p.InWrite? && s' == s.(lock := if s.lock == Some(m) then None else s.lock).Go(m, Idle)
    case RollBack(m) =>
      p.InWrite? && p.fileWasEmpty
      && s' == s.(disk := d.Ftruncate(0), cached := s.cached - {m}, lock := None).Go(m, Idle)
    case ReadID(m) =>
      && p.Idle? && m !in s.cached
      && (match d.header
          case Present(id) => s' == s.Go(m, HasRead(id))
          case _ => s' == s)
    case BeginTruncate(m) =>
      p.Idle? && LockFree(s) && s' == s.(lock := Some(m)).Go(m, AllLocked)
    case CutToHeader(m) =>
      && p.AllLocked?
      && var cut := m in s.cached || d.size > HeaderLen;
         s' == s.(disk := if cut then d.Ftruncate(HeaderLen) else d, lock := None).Go(m, Idle)
    case BeginShrink(m) => p.Idle? && d.size > HeaderLen && s' == s.Go(m, Shrinking)
    case Cut(m, end) => p.Shrinking? && end >= HeaderLen && s' == s.(disk := d.Ftruncate(end)).Go(m, Idle)
    case BeginGrow(m) => p.Idle? && d.size <= HeaderLen && s' == s.Go(m, Growing)
    case GrowHeader(m, id) => p.Growing? && s' == s.(disk := d.WriteHeader(id)).Go(m, Grown(id))
    case Forget(m) => p.Idle? && s' == s.(cached := s.cached - {m})
    case GiveUp(m) =>
      && (p.HeaderLocked? || p.MustCreate? || p.AllLocked? || p.Shrinking? || p.Growing?)
      && s' == s.(lock := if s.lock == Some(m) then None else s.lock).Go(m, Idle)
  }

  /** The property: one header at most, and every cached ID is the one on disk. */
  ghost predicate Agree(s: State) {
    && s.disk.created <= 1
    && forall m :: m in s.cached ==> s.disk.header == Present(s.cached[m])
  }

  // --- the invariant of runs without the two branches ------------------------------------------

  ghost predicate PhaseOK(s: State, m: MountId) {
    var p := s.PhaseOf(m);
    && !p.Growing? && !p.Grown?
    && (p.HeaderLocked? || p.MustCreate? || p.HaveID? || p.AllLocked? ==> s.lock == Some(m))
    && (p.MustCreate? ==> s.disk.header.Absent?)
    && ((p.HaveID? || p.HasRead?) ==> s.disk.header == Present(p.id))
    && (p.InWrite? ==> m in s.cached)
    && (p.Shrinking? ==> s.disk.header.Present?)
  }

  ghost predicate Inv(s: State) {
    && ((s.disk.header == Absent && s.disk.size == 0 && s.disk.created == 0)
        || (s.disk.header.Present? && s.disk.size >= HeaderLen && s.disk.created == 1))
    && Agree(s)
    && forall m: MountId :: PhaseOK(s, m)
  }

  predicate Risky(a: Action) { a.RollBack? || a.BeginGrow? }

  lemma StepKeepsInv(s: State, a: Action, s': State)
    requires Inv(s) && Next(s, a, s') && !Risky(a)
    ensures Inv(s')
  {
    assert PhaseOK(s, a.m);
    forall m: MountId ensures PhaseOK(s', m) {
      assert PhaseOK(s, m);
    }
  }

  // --- whole runs ---------------------------------------------------------------------------

  /** Which of the two branches a run may use. */
  datatype Branches = Branches(rollBack: bool, growFromEmpty: bool)

  predicate Allowed(b: Branches, a: Action) {
    (a.RollBack? ==> b.rollBack) && (a.BeginGrow? ==> b.growFromEmpty)
  }

  const Start := State(Disk(Absent, 0, 0), None, map[], map[])

  ghost predicate IsRun(b: Branches, states: seq<State>, actions: seq<Action>) {
    && |states| == |actions| + 1 && states[0] == Start
    && forall i :: 0 <= i < |actions| ==> Allowed(b, actions[i]) && Next(states[i], actions[i], states[i + 1])
  }

  lemma {:induction false} RunKeepsInv(states: seq<State>, actions: seq<Action>, i: nat)
    requires IsRun(Branches(false, false), states, actions) && i < |states|
    ensures Inv(states[i])
  {
    if i > 0 {
      RunKeepsInv(states, actions, i - 1);
      StepKeepsInv(states[i - 1], actions[i - 1], states[i]);
    }
  }

  ghost predicate AlwaysAgree(b: Branches) {
    forall states: seq<State>, actions: seq<Action> :: IsRun(b, states, actions) ==> Agree(states[|states| - 1])
  }

  /** Mounts 0 and 1 both find the file empty and both create a header, without a lock. */
  lemma TwoGrow(b: Branches) returns (states: seq<State>, actions: seq<Action>)
    requires b.growFromEmpty
    ensures IsRun(b, states, actions) && !Agree(states[|states| - 1])
  {
    var s0 := Start;
    var s1 := s0.Go(0, Growing);
    var s2 := s1.Go(1, Growing);
    var s3 := s2.(disk := s2.disk.WriteHeader(7)).Go(0, Grown(7));
    var s4 := s3.(disk := s3.disk.WriteHeader(8)).Go(1, Grown(8));
    states := [s0, s1, s2, s3, s4];
    actions := [BeginGrow(0), BeginGrow(1), GrowHeader(0, 7), GrowHeader(1, 8)];
  }

  /** Mount 1 reads and caches the ID that mount 0 created and then rolls back. */
  lemma ReadThenRollBack(b: Branches) returns (states: seq<State>, actions: seq<Action>)
    requires b.rollBack
    ensures IsRun(b, states, actions) && !Agree(states[|states| - 1])
  {
    hide Next, Agree, State.PhaseOf;
    var s1, s2, s3, s4 := FirstWrite(7);
    var s5, s6, s7 := ReadBeforeRollBack(s4, 0, 1, 7);
    states := [Start, s1, s2, s3, s4, s5, s6, s7];
    actions := [BeginWrite(0), ReadHeaderLocked(0), CreateHeader(0, 7), CacheID(0), ReadID(1), CacheID(1), RollBack(0)];
  }

  /** Mount 0 creates the header of a new file and is about to write data. */
  lemma FirstWrite(id: ID) returns (s1: State, s2: State, s3: State, s4: State)
    ensures Next(Start, BeginWrite(0), s1) && Next(s1, ReadHeaderLocked(0), s2)
    ensures Next(s2, CreateHeader(0, id), s3) && Next(s3, CacheID(0), s4)
    ensures s4.PhaseOf(0) == InWrite(true) && s4.PhaseOf(1) == Idle && 1 !in s4.cached && s4.disk.header == Present(id)
  {
    s1 := Start.(lock := Some(0)).Go(0, HeaderLocked);
    s2 := s1.Go(0, MustCreate);
    s3 := s2.(disk := s2.disk.WriteHeader(id)).Go(0, HaveID(id, true));
    s4 := s3.(cached := s3.cached[0 := id]).Go(0, InWrite(true));
  }

  /** Mount o caches the ID that mount m then takes back. */
  lemma ReadBeforeRollBack(s4: State, m: MountId, o: MountId, id: ID) returns (s5: State, s6: State, s7: State)
    requires m != o && s4.PhaseOf(m) == InWrite(true) && s4.PhaseOf(o) == Idle && o !in s4.cached
    requires s4.disk.header == Present(id)
    ensures Next(s4, ReadID(o), s5) && Next(s5, CacheID(o), s6) && Next(s6, RollBack(m), s7) && !Agree(s7)
  {
    s5 := s4.Go(o, HasRead(id));
    s6 := s5.(cached := s5.cached[o := id]).Go(o, Idle);
    s7 := s6.(disk := s6.disk.Ftruncate(0), cached := s6.cached - {m}, lock := None).Go(m, Idle);
    assert o in s7.cached;
  }

  /** Header agreement holds in every run exactly if neither branch is used. */
  lemma HeaderAgreement(b: Branches)
    ensures AlwaysAgree(b) <==> !b.rollBack && !b.growFromEmpty
  {
    if b.growFromEmpty {
      var states, actions := TwoGrow(b);
    } else if b.rollBack {
      var states, actions := ReadThenRollBack(b);
    } else {
      forall states: seq<State>, actions: seq<Action> | IsRun(b, states, actions)
        ensures Agree(states[|states| - 1])
      {
        RunKeepsInv(states, actions, |states| - 1);
      }
    }
  }
}
