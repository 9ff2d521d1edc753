/** The streaming shortcut of File.Write when calls on any number of handles and files interleave. A handle
    remembers where its last write ended and how many write locks had been taken by then, on all files together;
    a write that follows directly skips the padding of the last block. Only sizes matter here. Taking a file's lock and
    counting it are two steps. Truncation by path changes the size without taking the lock. */
module StreamingWrites {
  import opened SymbolicArith
  import opened ContentEnc
  import opened BlockLayout
  import opened EncryptedFile

  type FileId = nat
  type HandleId = nat
  type ThreadId = nat

  datatype Handle = Handle(file: FileId, lastOpCount: nat, lastWrittenOffset: nat)

  /** A call that takes the content lock. */
  datatype Call = Write(h: HandleId, off: nat, len: nat) | SetSize(h: HandleId)

  /** Where a thread is within its call. */
  datatype Phase =
    | Idle
    | Locked(call: Call)  // holds the lock of the file
    | Counted(call: Call) // the lock has been counted
    | MustPad(call: Call) // not a streaming write: the last block may need padding
    | Ready(call: Call)   // about to write the data
    | Wrote(call: Call)   // data written, the handle not yet updated
    | Done(call: Call)    // about to release the lock

  datatype State = State(opCount: nat, sizes: map<FileId, nat>, handles: map<HandleId, Handle>,
                         holders: map<FileId, ThreadId>, phases: map<ThreadId, Phase>)
  {
    function SizeOf(f: FileId): nat { if f in sizes then sizes[f] else 0 }
    function HandleOf(h: HandleId): Handle { if h in handles then handles[h] else Handle(0, 0, 0) }
    function PhaseOf(t: ThreadId): Phase { if t in phases then phases[t] else Idle }
    function Go(t: ThreadId, p: Phase): State { this.(phases := phases[t := p]) }
    function FileOf(c: Call): FileId { HandleOf(c.h).file }

    /** What the thread that holds the lock of a file is doing. */
    function Holder(f: FileId): Phase { if f in holders then PhaseOf(holders[f]) else Idle }
  }

  datatype Action =
    | Open(h: HandleId, f: FileId)
    | Close(h: HandleId)
    | Acquire(t: ThreadId, call: Call)
    | Count(t: ThreadId)
    | Check(t: ThreadId)           // isConsecutiveWrite
    | Pad(t: ThreadId)             // writePadHole
    | PutData(t: ThreadId)         // doWrite
    | Remember(t: ThreadId)        // the handle notes the end of the write and the count
    | Resize(t: ThreadId, n: nat)  // truncation or allocation, complete or in part
    | Fail(t: ThreadId)
    | Release(t: ThreadId)
    | TruncatePath(f: FileId, n: nat)

  function PadSize(e: Enc, size: nat, off: nat): nat
    requires e.plainBS > 0
  {
    if NoPadNeeded(e, size, off) then size else Times(e.NumBlocks(size), e.plainBS)
  }

  predicate Follows(s: State, c: Call)
    requires c.Write?
  {
    s.opCount == s.HandleOf(c.h).lastOpCount + 1 && c.off == s.HandleOf(c.h).lastWrittenOffset + 1
  }

  ghost predicate Next(e: Enc, s: State, a: Action, s': State)
    requires e.plainBS > 0
  {
    match a
    case Open(h, f) => h !in s.handles && s' == s.(handles := s.handles[h := Handle(f, 0, 0)])
    case Close(h) =>
      && (forall t: ThreadId :: s.PhaseOf(t).Idle? || s.PhaseOf(t).call.h != h)
      && s' == s.(handles := s.handles - {h})
    case Acquire(t, c) =>
      && s.PhaseOf(t).Idle? && c.h in s.handles && s.FileOf(c) !in s.holders && (c.Write? ==> c.len > 0)
      && s' == s.(holders := s.holders[s.FileOf(c) := t]).Go(t, Locked(c))
    case Count(t) =>
      s.PhaseOf(t).Locked? && s' == s.(opCount := s.opCount + 1).Go(t, Counted(s.PhaseOf(t).call))
    case Check(t) =>
      && s.PhaseOf(t).Counted?
      && var c := s.PhaseOf(t).call;
         c.Write? && s' == s.Go(t, if Follows(s, c) then Ready(c) else MustPad(c))
    case Pad(t) =>
      && s.PhaseOf(t).MustPad?
      && var c := s.PhaseOf(t).call;
         c.Write? && s' == s.(sizes := s.sizes[s.FileOf(c) := PadSize(e, s.SizeOf(s.FileOf(c)), c.off)]).Go(t, Ready(c))
    case PutData(t) =>
      && s.PhaseOf(t).Ready?
      && var c := s.PhaseOf(t).call;
         c.Write? && s' == s.(sizes := s.sizes[s.FileOf(c) := Max(s.SizeOf(s.FileOf(c)), c.off + c.len)]).Go(t, Wrote(c))
    case Remember(t) =>
      && s.PhaseOf(t).Wrote?
      && var c := s.PhaseOf(t).call;
         c.Write? && c.len > 0
         && s' == s.(handles := s.handles[c.h := Handle(s.FileOf(c), s.opCount, c.off + c.len - 1)]).Go(t, Done(c))
    case Resize(t, n) =>
      && s.PhaseOf(t).Counted?
      && var c := s.PhaseOf(t).call;
         c.SetSize? && s' == s.(sizes := s.sizes[s.FileOf(c) := n]).Go(t, Done(c))
    case Fail(t) =>
      && (s.PhaseOf(t).Counted? || s.PhaseOf(t).MustPad? || s.PhaseOf(t).Ready?)
      && s' == s.Go(t, Done(s.PhaseOf(t).call))
    case Release(t) =>
      s.PhaseOf(t).Done? && s' == s.(holders := s.holders - {s.FileOf(s.PhaseOf(t).call)}).Go(t, Idle)
    case TruncatePath(f, n) => s' == s.(sizes := s.sizes[f := n])
  }

  /** The property: a write that goes ahead, with or without the shortcut, leaves no short block behind a gap. */
  ghost predicate Safe(e: Enc, s: State)
    requires e.plainBS > 0
  {
    forall t: ThreadId :: s.PhaseOf(t).Ready? && s.PhaseOf(t).call.Write? ==>
      NoPadNeeded(e, s.SizeOf(s.FileOf(s.PhaseOf(t).call)), s.PhaseOf(t).call.off)
  }

  // --- the invariant of runs without truncation by path ------------------------------------------

  /** A thread in a call holds the lock of its file, and the file is as far as the call has got. */
  ghost predicate ThreadOK(e: Enc, s: State, t: ThreadId)
    requires e.plainBS > 0
  {
    var p := s.PhaseOf(t);
    p.Idle? ||
    (var c := p.call;
     var f := s.FileOf(c);
     && c.h in s.handles && f in s.holders && s.holders[f] == t && (c.Write? ==> c.len > 0)
     && (p.Ready? || p.MustPad? || p.Wrote? ==> c.Write?)
     && (!p.Locked? ==> s.opCount > 0)
     && (p.Ready? ==> NoPadNeeded(e, s.SizeOf(f), c.off))
     && (p.Wrote? ==> c.off + c.len <= s.SizeOf(f)))
  }

  ghost predicate LockOK(s: State, f: FileId) {
    f in s.holders ==> !s.Holder(f).Idle? && s.FileOf(s.Holder(f).call) == f
  }

  /** What a handle remembers is inside the file unless some call on the file has been counted since. */
  ghost predicate HandleOK(s: State, h: HandleId) {
    h in s.handles ==>
      var x := s.handles[h];
      var p, inside := s.Holder(x.file), x.lastWrittenOffset < s.SizeOf(x.file);
      && x.lastOpCount <= s.opCount && (x.lastOpCount == 0 ==> x.lastWrittenOffset == 0)
      && (p.Counted? || p.MustPad? || p.Ready? || p.Wrote? ==> x.lastOpCount < s.opCount)
      && (p.Counted? && 0 < x.lastOpCount && x.lastOpCount + 1 == s.opCount ==> inside)
      && (0 < x.lastOpCount == s.opCount ==> inside)
  }

  ghost predicate Inv(e: Enc, s: State)
    requires e.plainBS > 0
  {
    && (forall t: ThreadId :: ThreadOK(e, s, t))
    && (forall f: FileId :: LockOK(s, f))
    && (forall h: HandleId :: HandleOK(s, h))
  }

  lemma PaddedIsEnough(e: Enc, size: nat, off: nat)
    requires e.plainBS > 0
    ensures NoPadNeeded(e, PadSize(e, size, off), off)
  {
    hide Times;
    var nb := e.NumBlocks(size);
    QuotUnique(Times(nb, e.plainBS), e.plainBS, nb);
  }

  /** No two threads are in calls on one file. */
  lemma OneHolder(e: Enc, s: State, t: ThreadId, u: ThreadId)
    requires e.plainBS > 0 && Inv(e, s) && t != u && !s.PhaseOf(t).Idle? && !s.PhaseOf(u).Idle?
    ensures s.FileOf(s.PhaseOf(t).call) != s.FileOf(s.PhaseOf(u).call)
  {
    assert ThreadOK(e, s, t) && ThreadOK(e, s, u);
  }

  lemma StepKeepsOwn(e: Enc, s: State, a: Action, s': State)
    requires e.plainBS > 0 && Inv(e, s) && Next(e, s, a, s') && !a.Open? && !a.Close? && !a.TruncatePath?
    ensures ThreadOK(e, s', a.t)
  {
    hide NoPadNeeded, PadSize;
    assert ThreadOK(e, s, a.t);
    if a.Check? {
      SkipsNothing(e, s, a.t);
    } else if a.Pad? {
      var c := s.PhaseOf(a.t).call;
      PaddedIsEnough(e, s.SizeOf(s.FileOf(c)), c.off);
    }
  }

  /** A step of one thread does not touch the file, the lock and the handle of a call of another. */
  lemma OthersUntouched(e: Enc, s: State, a: Action, s': State, t: ThreadId)
    requires e.plainBS > 0 && Inv(e, s) && Next(e, s, a, s') && !a.TruncatePath?
    requires (a.Open? || a.Close? || a.t != t) && !s.PhaseOf(t).Idle?
    ensures var c := s.PhaseOf(t).call;
            var f := s.FileOf(c);
            && s'.PhaseOf(t) == s.PhaseOf(t) && s'.opCount >= s.opCount && c.h in s'.handles && s'.FileOf(c) == f
            && f in s'.holders && s'.holders[f] == t && s'.SizeOf(f) == s.SizeOf(f)
  {
    hide NoPadNeeded, PadSize;
    assert ThreadOK(e, s, t);
    if !a.Open? && !a.Close? {
      assert ThreadOK(e, s, a.t);
      if !a.Acquire? {
        OneHolder(e, s, t, a.t);
      }
    }
  }

  lemma StepKeepsOther(e: Enc, s: State, a: Action, s': State, t: ThreadId)
    requires e.plainBS > 0 && Inv(e, s) && Next(e, s, a, s') && !a.TruncatePath?
    requires a.Open? || a.Close? || a.t != t
    ensures ThreadOK(e, s', t)
  {
    hide NoPadNeeded, PadSize, LockOK, HandleOK;
    assert ThreadOK(e, s, t);
    if !s.PhaseOf(t).Idle? {
      OthersUntouched(e, s, a, s', t);
    }
  }

  /** Where the shortcut is taken, the padding would have done nothing. */
  lemma SkipsNothing(e: Enc, s: State, t: ThreadId)
    requires e.plainBS > 0 && Inv(e, s) && s.PhaseOf(t).Counted? && s.PhaseOf(t).call.Write?
    ensures var c := s.PhaseOf(t).call; Follows(s, c) ==> NoPadNeeded(e, s.SizeOf(s.FileOf(c)), c.off)
  {
    hide NoPadNeeded;
    var c := s.PhaseOf(t).call;
    assert ThreadOK(e, s, t) && HandleOK(s, c.h);
    if Follows(s, c) {
      ConsecutiveWriteNeedsNoPadding(e, s.SizeOf(s.FileOf(c)), s.HandleOf(c.h).lastOpCount, s.HandleOf(c.h).lastWrittenOffset);
    }
  }

  lemma StepKeepsOwnLock(e: Enc, s: State, a: Action, s': State, f: FileId)
    requires e.plainBS > 0 && Inv(e, s) && Next(e, s, a, s') && !a.TruncatePath?
    requires f !in s.holders || (!a.Open? && !a.Close? && s.holders[f] == a.t)
    ensures LockOK(s', f)
  {
    hide NoPadNeeded, PadSize, HandleOK;
    assert LockOK(s, f);
    if !a.Open? && !a.Close? {
      assert ThreadOK(e, s, a.t);
    }
  }

  lemma StepKeepsLock(e: Enc, s: State, a: Action, s': State, f: FileId)
    requires e.plainBS > 0 && Inv(e, s) && Next(e, s, a, s') && !a.TruncatePath?
    ensures LockOK(s', f)
  {
    hide ThreadOK, HandleOK, Next;
    if f !in s.holders || (!a.Open? && !a.Close? && s.holders[f] == a.t) {
      StepKeepsOwnLock(e, s, a, s', f);
    } else {
      assert LockOK(s, f);
      OthersUntouched(e, s, a, s', s.holders[f]);
    }
  }

  /** Steps outside a call on the file of a handle. */
  lemma StepKeepsIdleHandle(e: Enc, s: State, a: Action, s': State, h: HandleId)
    requires e.plainBS > 0 && Inv(e, s) && Next(e, s, a, s') && !a.TruncatePath? && h in s'.handles
    requires s'.handles[h].file !in s.holders
    ensures HandleOK(s', h)
  {
    hide NoPadNeeded, PadSize;
    assert HandleOK(s, h);
    if !a.Open? && !a.Close? {
      assert ThreadOK(e, s, a.t);
    }
  }

  /** Steps of the thread that is in a call on the file of a handle. */
  lemma StepKeepsHeldHandle(e: Enc, s: State, a: Action, s': State, h: HandleId)
    requires e.plainBS > 0 && Inv(e, s) && Next(e, s, a, s') && !a.Open? && !a.Close? && !a.TruncatePath? && h in s'.handles
    requires var f := s'.handles[h].file; f in s.holders && s.holders[f] == a.t
    ensures HandleOK(s', h)
  {
    hide NoPadNeeded, PadSize;
    assert HandleOK(s, h) && LockOK(s, s'.handles[h].file) && ThreadOK(e, s, a.t);
  }

  lemma StepKeepsHandle(e: Enc, s: State, a: Action, s': State, h: HandleId)
    requires e.plainBS > 0 && Inv(e, s) && Next(e, s, a, s') && !a.TruncatePath?
    ensures HandleOK(s', h)
  {
    hide NoPadNeeded, PadSize;
    if h in s'.handles {
      var f := s'.handles[h].file;
      if f !in s.holders {
        StepKeepsIdleHandle(e, s, a, s', h);
      } else if a.Open? || a.Close? || s.holders[f] != a.t {
        assert HandleOK(s, h) && LockOK(s, f) && ThreadOK(e, s, s.holders[f]);
        OthersUntouched(e, s, a, s', s.holders[f]);
        assert a.Open? || s'.handles[h] == s.handles[h] by { assert a.Remember? ==> ThreadOK(e, s, a.t); }
      } else {
        StepKeepsHeldHandle(e, s, a, s', h);
      }
    }
  }

  lemma StepKeepsInv(e: Enc, s: State, a: Action, s': State)
    requires e.plainBS > 0 && Inv(e, s) && Next(e, s, a, s') && !a.TruncatePath?
    ensures Inv(e, s')
  {
    hide ThreadOK, LockOK, HandleOK, Next;
    forall t: ThreadId ensures ThreadOK(e, s', t) {
      if a.Open? || a.Close? || a.t != t {
        StepKeepsOther(e, s, a, s', t);
      } else {
        StepKeepsOwn(e, s, a, s');
      }
    }
    forall f: FileId ensures LockOK(s', f) { StepKeepsLock(e, s, a, s', f); }
    forall h: HandleId ensures HandleOK(s', h) { StepKeepsHandle(e, s, a, s', h); }
  }

  // --- whole runs ---------------------------------------------------------------------------------

  /** A new process: files of any size, nothing open. */
  predicate Initial(s: State) { s.opCount == 0 && s.handles == map[] && s.holders == map[] && s.phases == map[] }

  ghost predicate IsRun(e: Enc, byPath: bool, states: seq<State>, actions: seq<Action>)
    requires e.plainBS > 0
  {
    && |states| == |actions| + 1 && Initial(states[0])
    && forall i :: 0 <= i < |actions| ==> (actions[i].TruncatePath? ==> byPath) && Next(e, states[i], actions[i], states[i + 1])
  }

  ghost predicate AlwaysSafe(e: Enc, byPath: bool)
    requires e.plainBS > 0
  {
    forall states: seq<State>, actions: seq<Action> :: IsRun(e, byPath, states, actions) ==> Safe(e, states[|states| - 1])
  }

  lemma {:induction false} RunKeepsInv(e: Enc, states: seq<State>, actions: seq<Action>, i: nat)
    requires e.plainBS > 0 && IsRun(e, false, states, actions) && i < |states|
    ensures Inv(e, states[i])
  {
    if i > 0 {
      RunKeepsInv(e, states, actions, i - 1);
      StepKeepsInv(e, states[i - 1], actions[i - 1], states[i]);
    }
  }

  /** Thread 0 begins to write the first block of file 0 through a new handle 0. */
  lemma BeginBlock(e: Enc, s0: State, c: Call) returns (s1: State, s2: State, s3: State, s4: State)
    requires e.plainBS > 0 && Initial(s0) && c == Write(0, 0, e.plainBS)
    ensures Next(e, s0, Open(0, 0), s1) && Next(e, s1, Acquire(0, c), s2)
    ensures Next(e, s2, Count(0), s3) && Next(e, s3, Check(0), s4)
    ensures s4.opCount == 1 && 0 in s4.handles && s4.handles[0].file == 0 && s4.PhaseOf(0) == MustPad(c)
  {
    hide NoPadNeeded, PadSize;
    s1 := s0.(handles := s0.handles[0 := Handle(0, 0, 0)]);
    s2 := s1.(holders := s1.holders[0 := 0]).Go(0, Locked(c));
    s3 := s2.(opCount := 1).Go(0, Counted(c));
    s4 := s3.Go(0, MustPad(c));
  }

  /** Thread 0 finishes that write. */
  lemma EndBlock(e: Enc, s4: State, c: Call) returns (s5: State, s6: State, s7: State, s8: State)
    requires e.plainBS > 0 && c == Write(0, 0, e.plainBS)
    requires s4.opCount == 1 && 0 in s4.handles && s4.handles[0].file == 0 && s4.PhaseOf(0) == MustPad(c)
    ensures Next(e, s4, Pad(0), s5) && Next(e, s5, PutData(0), s6)
    ensures Next(e, s6, Remember(0), s7) && Next(e, s7, Release(0), s8)
    ensures s8.opCount == 1 && 0 in s8.handles && s8.handles[0] == Handle(0, 1, e.plainBS - 1)
    ensures 0 !in s8.holders && s8.PhaseOf(0).Idle?
  {
    hide NoPadNeeded, PadSize;
    s5 := s4.(sizes := s4.sizes[0 := PadSize(e, s4.SizeOf(0), 0)]).Go(0, Ready(c));
    s6 := s5.(sizes := s5.sizes[0 := Max(s5.SizeOf(0), e.plainBS)]).Go(0, Wrote(c));
    s7 := s6.(handles := s6.handles[0 := Handle(0, 1, e.plainBS - 1)]).Go(0, Done(c));
    s8 := s7.(holders := s7.holders - {0}).Go(0, Idle);
  }

  /** The file is cut by path before the next block is written, and the handle does not notice. */
  lemma CutBehindHandle(e: Enc, s8: State, c: Call) returns (s9: State, s10: State, s11: State, s12: State)
    requires e.plainBS > 1 && c == Write(0, e.plainBS, 1)
    requires s8.opCount == 1 && 0 in s8.handles && s8.handles[0] == Handle(0, 1, e.plainBS - 1)
    requires 0 !in s8.holders && s8.PhaseOf(0).Idle?
    ensures Next(e, s8, TruncatePath(0, 1), s9) && Next(e, s9, Acquire(0, c), s10)
    ensures Next(e, s10, Count(0), s11) && Next(e, s11, Check(0), s12) && !Safe(e, s12)
  {
    hide NoPadNeeded, PadSize;
    s9 := s8.(sizes := s8.sizes[0 := 1]);
    s10 := s9.(holders := s9.holders[0 := 0]).Go(0, Locked(c));
    s11 := s10.(opCount := 2).Go(0, Counted(c));
    s12 := s11.Go(0, Ready(c));
    ShortBlockNeedsPadding(e);
    assert s12.PhaseOf(0) == Ready(c) && s12.SizeOf(0) == 1;
  }

  lemma ShortBlockNeedsPadding(e: Enc)
    requires e.plainBS > 1
    ensures !NoPadNeeded(e, 1, e.plainBS)
  {
    QuotUnique(1, e.plainBS, 0);
    QuotUnique(e.plainBS, e.plainBS, 1);
  }

  /** A run with truncation by path in which a write skips padding that is needed. */
  lemma TruncatedBehindHandle(e: Enc) returns (states: seq<State>, actions: seq<Action>)
    requires e.plainBS > 1
    ensures IsRun(e, true, states, actions) && !Safe(e, states[|states| - 1])
  {
    hide Next, Safe, State.PhaseOf;
    var s0, block, byte := State(0, map[], map[], map[], map[]), Write(0, 0, e.plainBS), Write(0, e.plainBS, 1);
    var s1, s2, s3, s4 := BeginBlock(e, s0, block);
    var s5, s6, s7, s8 := EndBlock(e, s4, block);
    var s9, s10, s11, s12 := CutBehindHandle(e, s8, byte);
    states := [s0, s1, s2, s3, s4, s5, s6, s7, s8, s9, s10, s11, s12];
    actions := [Open(0, 0), Acquire(0, block), Count(0), Check(0), Pad(0), PutData(0), Remember(0), Release(0),
                TruncatePath(0, 1), Acquire(0, byte), Count(0), Check(0)];
  }

  lemma InvSafe(e: Enc, s: State)
    requires e.plainBS > 0 && Inv(e, s)
    ensures Safe(e, s)
  {
    hide NoPadNeeded;
    forall t: ThreadId | s.PhaseOf(t).Ready? && s.PhaseOf(t).call.Write?
      ensures NoPadNeeded(e, s.SizeOf(s.FileOf(s.PhaseOf(t).call)), s.PhaseOf(t).call.off)
    {
      assert ThreadOK(e, s, t);
    }
  }

  lemma BytesAreSafe(e: Enc, s: State)
    requires e.plainBS == 1
    ensures Safe(e, s)
  {
    forall size: nat, off: nat ensures NoPadNeeded(e, size, off) { QuotFacts(size, 1); }
  }

  /** The shortcut is safe in every interleaving exactly if files are not truncated by path, or blocks are single bytes. */
  lemma ShortcutSafe(e: Enc, byPath: bool)
    requires e.plainBS > 0
    ensures AlwaysSafe(e, byPath) <==> !byPath || e.plainBS == 1
  {
    hide NoPadNeeded, Next;
    if !byPath {
      forall states: seq<State>, actions: seq<Action> | IsRun(e, byPath, states, actions) ensures Safe(e, states[|states| - 1]) {
        RunKeepsInv(e, states, actions, |states| - 1);
        InvSafe(e, states[|states| - 1]);
      }
    } else if e.plainBS == 1 {
      forall s: State ensures Safe(e, s) { BytesAreSafe(e, s); }
    } else {
      var states, actions := TruncatedBehindHandle(e);
    }
  }
}
