/** Inode number translation (internal/inomap): 15 bits of namespace and 48 bits of inode number, or a counter
    above 2^63 once either does not fit. */
module InoMap {
  import opened ByteSeqs

  const MaxNamespaceId := 0x7FFF
  const MaxPassthruIno := 0xFFFF_FFFF_FFFF
  const SpillSpaceStart := 0x8000_0000_0000_0000
  const MaxU64 := 0xFFFF_FFFF_FFFF_FFFF

  datatype Namespace = Namespace(dev: U64, tag: Byte)
  datatype QIno = QIno(ns: Namespace, ino: U64)

  /** uint64(ns)<<48 | ino: the two parts do not overlap. */
  function Passthru(ns: nat, ino: U64): U64
    requires ns <= MaxNamespaceId && ino <= MaxPassthruIno
  {
    ns * 0x1_0000_0000_0000 + ino
  }

  lemma PassthruInjective(a: nat, i: U64, b: nat, j: U64)
    requires a <= MaxNamespaceId && i <= MaxPassthruIno && b <= MaxNamespaceId && j <= MaxPassthruIno
    ensures Passthru(a, i) < SpillSpaceStart
    ensures Passthru(a, i) == Passthru(b, j) ==> a == b && i == j
  {
  }

  class InoMap {
    var namespaceMap: map<Namespace, nat>
    var namespaceNext: nat
    var spillMap: map<QIno, U64>
    var spillNext: U64
    ghost var loose: set<U64>  // numbers handed out by NextSpillIno alone

    ghost predicate Valid()
      reads this
    {
      && namespaceNext <= MaxNamespaceId && SpillSpaceStart <= spillNext
      && (forall n :: n in namespaceMap ==> namespaceMap[n] < namespaceNext)
      && (forall m, n :: m in namespaceMap && n in namespaceMap && m != n ==> namespaceMap[m] != namespaceMap[n])
      && (forall q :: q in spillMap ==> SpillSpaceStart <= spillMap[q] < spillNext && spillMap[q] !in loose)
      && (forall p, q :: p in spillMap && q in spillMap && p != q ==> spillMap[p] != spillMap[q])
      && (forall q :: q in spillMap && q.ino <= MaxPassthruIno ==> q.ns !in namespaceMap && namespaceNext >= MaxNamespaceId)
      && (forall x :: x in loose ==> SpillSpaceStart <= x < spillNext)
    }

    /** The number an input has been given, if any. */
    ghost function Number(q: QIno): Option<U64>
      reads this
      requires Valid()
    {
      if q in spillMap then Some(spillMap[q])
      else if q.ino <= MaxPassthruIno && q.ns in namespaceMap then Some(Passthru(namespaceMap[q.ns], q.ino))
      else None
    }

    constructor (rootDev: U64)
      ensures Valid() && loose == {} && spillMap == map[] && spillNext == SpillSpaceStart
      ensures namespaceMap == (if rootDev > 0 then map[Namespace(rootDev, 0) := 0] else map[]) && namespaceNext == |namespaceMap|
    {
      namespaceMap, namespaceNext, spillMap, spillNext := map[], 0, map[], SpillSpaceStart;
      loose := {};
      if rootDev > 0 {
        namespaceMap := map[Namespace(rootDev, 0) := 0];
        namespaceNext := 1;
      }
    }

    /** The next number of the spill space, or a panic once it is used up. */
    method Draw() returns (out: Option<U64>)
      requires Valid()
      modifies this`spillNext
      ensures Valid()
      ensures out.None? <==> old(spillNext) == MaxU64
      ensures out.None? ==> spillNext == old(spillNext)
      ensures out.Some? ==> out.value == old(spillNext) && spillNext == old(spillNext) + 1
    {
      if spillNext == MaxU64 {
        return None;
      }
      spillNext := spillNext + 1;
      return Some(spillNext - 1);
    }

    /** All numbers given out stay what they were. */
    twostate predicate Keeps()
      reads this
      requires old(Valid()) && Valid()
    {
      && (forall q :: old(Number(q)).Some? ==> Number(q) == old(Number(q)))
      && old(loose) <= loose
      && (forall n :: n in old(namespaceMap) ==> n in namespaceMap && namespaceMap[n] == old(namespaceMap[n]))
    }

    method NextSpillIno() returns (out: Option<U64>)
      requires Valid()
      modifies this`spillNext, this`loose
      ensures Valid() && Keeps() && old(spillNext) <= spillNext <= old(spillNext) + 1
      ensures out.Some? ==> out.value !in old(loose) && loose == old(loose) + {out.value}
      ensures out.None? ==> loose == old(loose) && old(spillNext) == MaxU64
      ensures forall q :: Number(q) == old(Number(q))
    {
      out := Draw();
      if out.Some? {
        loose := loose + {out.value};
      }
    }

    method Spill(q: QIno) returns (out: Option<U64>)
      requires Valid() && (q.ino <= MaxPassthruIno ==> q.ns !in namespaceMap && namespaceNext >= MaxNamespaceId)
      modifies this`spillNext, this`spillMap
      ensures Valid() && Keeps() && old(spillNext) <= spillNext <= old(spillNext) + 1
      ensures out.Some? ==> Number(q) == out
      ensures out.None? ==> old(spillNext) == MaxU64
    {
      if q in spillMap {
        return Some(spillMap[q]);
      }
      out := Draw();
      if out.Some? {
        spillMap := spillMap[q := out.value];
      }
    }

    method Translate(q: QIno) returns (out: Option<U64>)
      requires Valid()
      modifies this`namespaceMap, this`namespaceNext, this`spillMap, this`spillNext
      ensures Valid() && Keeps() && old(spillNext) <= spillNext <= old(spillNext) + 1
      ensures out.Some? ==> Number(q) == out
      ensures out.None? ==> old(spillNext) == MaxU64
      ensures q.ino <= MaxPassthruIno && q.ns in namespaceMap ==> out == Some(Passthru(namespaceMap[q.ns], q.ino))
      ensures (namespaceMap, namespaceNext) == NextNames(old(namespaceMap), old(namespaceNext), Call.Translate(q))
    {
      if q.ino > MaxPassthruIno {
        out := Spill(q);
        return;
      }
      if q.ns in namespaceMap {
        return Some(Passthru(namespaceMap[q.ns], q.ino));
      }
      if namespaceNext >= MaxNamespaceId {
        out := Spill(q);
        return;
      }
      Enter(q.ns);
      return Some(Passthru(namespaceMap[q.ns], q.ino));
    }

    /** The next namespace number for a namespace not met before. */
    method Enter(ns: Namespace)
      requires Valid() && ns !in namespaceMap && namespaceNext < MaxNamespaceId
      modifies this`namespaceMap, this`namespaceNext
      ensures Valid() && Keeps()
      ensures namespaceMap == old(namespaceMap)[ns := old(namespaceNext)] && namespaceNext == old(namespaceNext) + 1
    {
      namespaceMap := namespaceMap[ns := namespaceNext];
      namespaceNext := namespaceNext + 1;
    }

    /** Different inputs have different numbers, and none of them is a loose one. */
    lemma NumbersDiffer(p: QIno, q: QIno)
      requires Valid() && Number(p).Some? && Number(q).Some?
      ensures Number(p) == Number(q) ==> p == q
      ensures Number(p).value !in loose
    {
      if p !in spillMap {
        PassthruInjective(namespaceMap[p.ns], p.ino, 0, 0);
      }
      if q !in spillMap {
        PassthruInjective(namespaceMap[q.ns], q.ino, 0, 0);
      }
      if p !in spillMap && q !in spillMap {
        PassthruInjective(namespaceMap[p.ns], p.ino, namespaceMap[q.ns], q.ino);
      }
    }

    /** This call has been answered with this number. */
    ghost predicate Given(call: Call, out: U64)
      reads this
      requires Valid()
    {
      match call
      case Translate(q) => Number(q) == Some(out)
      case NextSpill => out in loose
    }

    method Perform(call: Call) returns (out: Option<U64>)
      requires Valid()
      modifies this
      ensures Valid() && Keeps() && (out.Some? ==> Given(call, out.value))
      ensures old(spillNext) <= spillNext <= old(spillNext) + 1 && (out.None? ==> old(spillNext) == MaxU64)
      ensures forall c: Call, x: U64 {:trigger Given(c, x)} :: old(Given(c, x)) ==> Given(c, x)
      ensures call == NextSpill && out.Some? ==> out.value !in old(loose)
      ensures call.Translate? && call.q.ino <= MaxPassthruIno && call.q.ns in namespaceMap ==>
                out == Some(Passthru(namespaceMap[call.q.ns], call.q.ino))
      ensures (namespaceMap, namespaceNext) == NextNames(old(namespaceMap), old(namespaceNext), call)
    {
      match call {
        case Translate(q) => out := Translate(q);
        case NextSpill => out := NextSpillIno();
      }
    }

    lemma NamesBelow()
      requires Valid()
      ensures namespaceNext <= MaxNamespaceId
    {
    }

    /** An answer to a translation differs from all answers to other calls. */
    lemma AnswersDiffer(c: Call, x: U64, d: Call, y: U64)
      requires Valid() && Given(c, x) && Given(d, y) && (c.Translate? || d.Translate?)
      ensures x == y <==> c == d
    {
      hide InoMap.Valid, InoMap.Number;
      if c.Translate? && d.Translate? {
        NumbersDiffer(c.q, d.q);
      } else if c.Translate? {
        NumbersDiffer(c.q, c.q);
      } else {
        NumbersDiffer(d.q, d.q);
      }
    }

    /** All answers so far are the numbers of their calls. */
    ghost predicate AllGiven(calls: seq<Call>, outs: seq<Option<U64>>)
      reads this
      requires Valid()
    {
      |outs| <= |calls| && forall i :: 0 <= i < |outs| && outs[i].Some? ==> Given(calls[i], outs[i].value)
    }

    lemma NoneGiven(calls: seq<Call>)
      requires Valid()
      ensures AllGiven(calls, []) && Consistent([], [])
    {
    }

    method PerformRooted(call: Call, ghost root: Option<Namespace>) returns (out: Option<U64>)
      requires Valid() && Rooted(root, namespaceMap, namespaceNext)
      modifies this
      ensures Valid() && (out.Some? ==> Given(call, out.value)) && old(loose) <= loose
      ensures old(spillNext) <= spillNext <= old(spillNext) + 1 && (out.None? ==> old(spillNext) == MaxU64)
      ensures forall c: Call, x: U64 {:trigger Given(c, x)} :: old(Given(c, x)) ==> Given(c, x)
      ensures call == NextSpill && out.Some? ==> out.value !in old(loose) && out.value in loose
      ensures Rooted(NextRoot(root, call), namespaceMap, namespaceNext)
      ensures call.Translate? && call.q.ino <= MaxPassthruIno && NextRoot(root, call) == Some(call.q.ns) ==> out == Some(call.q.ino)
    {
      hide InoMap.Valid, InoMap.Number, NextRoot, Rooted, NextNames;
      NamesBelow();
      StillRooted(root, namespaceMap, namespaceNext, call);
      out := Perform(call);
    }

    /** The next call of a run. */
    method Answer(calls: seq<Call>, outs: seq<Option<U64>>, ghost root: Option<Namespace>) returns (out: Option<U64>)
      requires Valid() && Rooted(root, namespaceMap, namespaceNext) && AllGiven(calls, outs)
      requires |outs| < |calls| && Consistent(calls[..|outs|], outs)
      modifies this
      ensures Valid() && AllGiven(calls, outs + [out]) && Consistent(calls[..|outs| + 1], outs + [out])
      ensures old(spillNext) <= spillNext <= old(spillNext) + 1 && (out.None? ==> old(spillNext) == MaxU64)
      ensures var call := calls[|outs|];
              && Rooted(NextRoot(root, call), namespaceMap, namespaceNext)
              && (call.Translate? && call.q.ino <= MaxPassthruIno && NextRoot(root, call) == Some(call.q.ns) ==> out == Some(call.q.ino))
    {
      hide InoMap.Valid, InoMap.Number, NextRoot, Rooted, Consistent;
      var k := |outs|;
      assert forall i :: 0 <= i < k && outs[i].Some? ==> Given(calls[i], outs[i].value);
      out := PerformRooted(calls[k], root);
      forall i | 0 <= i < k && outs[i].Some? && out.Some? ensures outs[i] == out <==> SameInput(calls[i], calls[k]) {
        if calls[i].Translate? || calls[k].Translate? {
          AnswersDiffer(calls[i], outs[i].value, calls[k], out.value);
        }
      }
      OneMore(calls, k, outs, out);
    }
  }

  // --- whole runs ---------------------------------------------------------------------------------------------

  datatype Call = Translate(q: QIno) | NextSpill

  /** Equal inputs get equal numbers, different inputs different ones, and a spill number is never met again. */
  ghost predicate Consistent(calls: seq<Call>, outs: seq<Option<U64>>)
    requires |outs| == |calls|
  {
    forall i, j :: 0 <= i < j < |calls| && outs[i].Some? && outs[j].Some? ==> (outs[i] == outs[j] <==> SameInput(calls[i], calls[j]))
  }

  predicate SameInput(c: Call, d: Call) { c == d && c.Translate? }

  /** The namespace whose inode numbers stay as they are: that of the root device, or, if none is given, the one that is
      met first. */
  function RootOf(rootDev: U64, calls: seq<Call>): Option<Namespace> {
    if calls == [] then if rootDev > 0 then Some(Namespace(rootDev, 0)) else None
    else NextRoot(RootOf(rootDev, calls[..|calls| - 1]), calls[|calls| - 1])
  }

  function NextRoot(root: Option<Namespace>, call: Call): Option<Namespace> {
    if root.None? && call.Translate? && call.q.ino <= MaxPassthruIno then Some(call.q.ns) else root
  }

  /** The namespaces after a call: numbered in the order in which they are met, as long as there are numbers. */
  function NextNames(names: map<Namespace, nat>, next: nat, call: Call): (map<Namespace, nat>, nat) {
    if call.Translate? && call.q.ino <= MaxPassthruIno && call.q.ns !in names && next < MaxNamespaceId
    then (names[call.q.ns := next], next + 1)
    else (names, next)
  }

  /** The namespace `root`, if there is one yet, is number 0. */
  ghost predicate Rooted(root: Option<Namespace>, names: map<Namespace, nat>, next: nat) {
    match root
    case None => names == map[] && next == 0
    case Some(ns) => ns in names && names[ns] == 0
  }

  lemma StillRooted(root: Option<Namespace>, names: map<Namespace, nat>, next: nat, call: Call)
    requires Rooted(root, names, next)
    ensures var (names', next') := NextNames(names, next, call);
            var root' := NextRoot(root, call);
            && Rooted(root', names', next')
            && (call.Translate? && root' == Some(call.q.ns) ==> call.q.ns in names' && names'[call.q.ns] == 0)
  {
  }

  /** Call i asks for an inode of that namespace, up to 48 bits. */
  predicate OnRoot(rootDev: U64, calls: seq<Call>, i: nat)
    requires i < |calls|
  {
    calls[i].Translate? && calls[i].q.ino <= MaxPassthruIno && RootOf(rootDev, calls[..i + 1]) == Some(calls[i].q.ns)
  }

  /** Any run: numbers are consistent, and those of the root device pass through as they are. */
  method Run(rootDev: U64, calls: seq<Call>) returns (outs: seq<Option<U64>>)
    ensures |outs| == |calls| && Consistent(calls, outs)
    ensures forall i :: 0 <= i < |calls| && OnRoot(rootDev, calls, i) ==> outs[i] == Some(calls[i].q.ino)
    ensures |calls| < 0x8000_0000_0000_0000 ==> None !in outs
  {
    hide InoMap.Valid, Consistent, RootOf, NextRoot, Rooted, InoMap.AllGiven, InoMap.Given, InoMap.Number, SameInput;
    var m := new InoMap(rootDev);
    outs := [];
    NoCalls(rootDev);
    m.NoneGiven(calls);
    assert calls[..0] == [];
    for k := 0 to |calls|
      invariant fresh(m) && m.Valid() && |outs| == k && m.AllGiven(calls, outs) && Consistent(calls[..k], outs)
      invariant Rooted(RootOf(rootDev, calls[..k]), m.namespaceMap, m.namespaceNext)
      invariant m.spillNext <= SpillSpaceStart + k
      invariant |calls| < 0x8000_0000_0000_0000 ==> forall i :: 0 <= i < k ==> outs[i].Some?
      invariant forall i :: 0 <= i < k && OnRoot(rootDev, calls, i) ==> outs[i] == Some(calls[i].q.ino)
    {
      OneMoreRoot(rootDev, calls, k);
      var out := m.Answer(calls, outs, RootOf(rootDev, calls[..k]));
      assert OnRoot(rootDev, calls, k) ==> out == Some(calls[k].q.ino);
      outs := outs + [out];
    }
    assert calls[..|calls|] == calls;
  }

  lemma NoCalls(rootDev: U64)
    ensures var names := if rootDev > 0 then map[Namespace(rootDev, 0) := 0] else map[];
            Rooted(RootOf(rootDev, []), names, |names|)
  {
  }

  lemma OneMoreRoot(rootDev: U64, calls: seq<Call>, k: nat)
    requires k < |calls|
    ensures RootOf(rootDev, calls[..k + 1]) == NextRoot(RootOf(rootDev, calls[..k]), calls[k])
  {
    assert calls[..k + 1][..k] == calls[..k];
  }

  lemma OneMore(calls: seq<Call>, k: nat, outs: seq<Option<U64>>, out: Option<U64>)
    requires k < |calls| && |outs| == k && Consistent(calls[..k], outs)
    requires forall i :: 0 <= i < k && outs[i].Some? && out.Some? ==> (outs[i] == out <==> SameInput(calls[i], calls[k]))
    ensures Consistent(calls[..k + 1], outs + [out])
  {
  }
}
