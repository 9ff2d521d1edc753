/** The card client of internal/externalenc: keys are derived on the card in small batches, kept in the
    key cache, and handed out as ciphers. Sequential; the relay to the card may fail at any call. */
module KeyClient {
  import opened SymbolicArith
  import opened ByteSeqs
  import opened ContentEnc
  import opened KeyCache

  const MaxBlockKeyBatch := 3
  const DefaultBlockCount := 64

  /** x in 64-bit arithmetic. */
  function Wrap(x: nat): U64 {
    if x < 0x1_0000_0000_0000_0000 then x else Wrap(x - 0x1_0000_0000_0000_0000)
  }

  lemma {:induction false} WrapIsMod(x: nat)
    ensures Wrap(x) == x % 0x1_0000_0000_0000_0000
  {
    if x >= 0x1_0000_0000_0000_0000 {
      WrapIsMod(x - 0x1_0000_0000_0000_0000);
    }
  }

  lemma {:induction false} WrapAdd(x: nat, i: nat)
    ensures Wrap(Wrap(x) + i) == Wrap(x + i)
  {
    if x >= 0x1_0000_0000_0000_0000 {
      WrapAdd(x - 0x1_0000_0000_0000_0000, i);
    }
  }

  /** The card: one 32-byte key per index, the same in every session. */
  datatype Card = Card(key: U64 -> Bytes)
  {
    ghost predicate Valid() { forall i: U64 {:trigger key(i)} :: |key(i)| == KeyLen }
  }

  /** The number of keys to prefetch, 64 if none is configured. */
  function BlockCount(configured: int): (n: nat)
    ensures n > 0
  {
    if configured <= 0 then DefaultBlockCount else configured
  }

  // --- batches --------------------------------------------------------------------------------

  datatype KeyBatch = KeyBatch(start: U64, count: nat)

  /** The indices start, start + 1, ... in 64-bit arithmetic. */
  function Range(start: U64, n: nat): (r: seq<U64>)
    ensures |r| == n
    ensures forall i :: 0 <= i < n ==> r[i] == Wrap(start + i)
  {
    seq<U64>(n, i requires 0 <= i => Wrap(start + i))
  }

  function Covered(batches: seq<KeyBatch>): seq<U64> {
    if batches == [] then []
    else Covered(batches[..|batches| - 1]) + Range(batches[|batches| - 1].start, batches[|batches| - 1].count)
  }

  lemma NoneCovered(start: U64)
    ensures Covered([]) == Range(start, 0) && Wrap(start) == start
  {
  }

  lemma OneMoreCovered(batches: seq<KeyBatch>, b: KeyBatch)
    ensures Covered(batches + [b]) == Covered(batches) + Range(b.start, b.count)
  {
    assert (batches + [b])[..|batches|] == batches;
  }

  lemma RangeAppend(start: U64, n: nat, m: nat)
    ensures Range(start, n) + Range(Wrap(start + n), m) == Range(start, n + m)
  {
    hide Wrap;
    var r := Range(Wrap(start + n), m);
    forall i | 0 <= i < m ensures r[i] == Wrap(start + n + i) {
      WrapAdd(start + n, i);
    }
  }

  /** planKeyBatches: the batches cover the range, in order and without overlap. */
  method PlanKeyBatches(start: U64, count: int) returns (batches: seq<KeyBatch>)
    ensures Covered(batches) == Range(start, Max(count, 0))
    ensures forall b :: b in batches ==> 1 <= b.count <= MaxBlockKeyBatch
    ensures |batches| == Batches(count)
  {
    hide Wrap, Range, Covered;
    batches := [];
    NoneCovered(start);
    if count <= 0 {
      return;
    }
    var remaining: nat := count;
    var idx := start;
    while remaining > 0
      invariant remaining <= count && idx == Wrap(start + (count - remaining))
      invariant Covered(batches) == Range(start, count - remaining)
      invariant forall b :: b in batches ==> 1 <= b.count <= MaxBlockKeyBatch
      invariant if remaining > 0 then count - remaining == 3 * |batches| else |batches| == (count + 2) / 3
    {
      var batch := Min(remaining, MaxBlockKeyBatch);
      WrapAdd(start + (count - remaining), batch);
      RangeAppend(start, count - remaining, batch);
      OneMoreCovered(batches, KeyBatch(idx, batch));
      batches := batches + [KeyBatch(idx, batch)];
      idx := Wrap(idx + batch);
      remaining := remaining - batch;
    }
  }

  // --- the card's replies -----------------------------------------------------------------------

  /** The payload of a DERIVE_BLOCK_KEYS reply: the keys of the range, one after the other. */
  function ReplyPayload(card: Card, start: U64, count: nat): Bytes {
    if count == 0 then [] else ReplyPayload(card, start, count - 1) + card.key(Wrap(start + (count - 1)))
  }

  lemma {:induction false} ReplyHolds(card: Card, start: U64, count: nat)
    requires card.Valid()
    ensures |ReplyPayload(card, start, count)| == 32 * count
    ensures forall i :: 0 <= i < count ==>
              ReplyPayload(card, start, count)[32 * i..32 * (i + 1)] == card.key(Wrap(start + i))
  {
    if count > 0 {
      ReplyHolds(card, start, count - 1);
      var p, k := ReplyPayload(card, start, count - 1), card.key(Wrap(start + (count - 1)));
      forall i | 0 <= i < count ensures (p + k)[32 * i..32 * (i + 1)] == card.key(Wrap(start + i)) {
        if i < count - 1 {
          assert (p + k)[32 * i..32 * (i + 1)] == p[32 * i..32 * (i + 1)];
        } else {
          assert |p| == 32 * i && (p + k)[|p|..|p| + 32] == k;
        }
      }
    }
  }

  method DecodeDeriveBlockKeysResponse(payload: Bytes, count: nat) returns (keys: Option<seq<Bytes>>)
    ensures keys.Some? <==> |payload| == 32 * count
    ensures keys.Some? ==> |keys.value| == count
                           && forall i :: 0 <= i < count ==> keys.value[i] == payload[32 * i..32 * (i + 1)]
  {
    if |payload| != 32 * count {
      return None;
    }
    var ks: seq<Bytes> := [];
    for i := 0 to count
      invariant |ks| == i && forall j :: 0 <= j < i ==> ks[j] == payload[32 * j..32 * (j + 1)]
    {
      ks := ks + [payload[32 * i..32 * (i + 1)]];
    }
    return Some(ks);
  }

  /** Every cached key is the card's. */
  ghost predicate Sound(card: Card, s: seq<Item>) {
    forall i :: 0 <= i < |s| ==> s[i].index < 0x1_0000_0000_0000_0000 && s[i].key == card.key(s[i].index)
  }

  /** A fetched map holds the card's keys and nothing else, for exactly this range. */
  ghost predicate KeysOf(card: Card, keys: map<U64, Bytes>, range: seq<U64>) {
    && (forall k :: k in keys ==> keys[k] == card.key(k))
    && (forall k :: k in keys <==> k in range)
  }

  // --- the way to the card ----------------------------------------------------------------------

  /** Which attempts to set up a session fail, and which round trips for keys, counted from the start. */
  datatype Faults = Faults(establish: nat -> bool, derive: nat -> bool)

  /** The first faulty round trip among n from number t on; t + n if there is none. */
  function FirstFault(derive: nat -> bool, t: nat, n: nat): (u: nat)
    ensures t <= u <= t + n && (u < t + n ==> derive(u))
    ensures forall i :: t <= i < u ==> !derive(i)
    decreases n
  {
    if n == 0 || derive(t) then t else FirstFault(derive, t + 1, n - 1)
  }

  /** How many round trips it takes to fetch `count` keys. */
  function Batches(count: int): nat { (Max(count, 0) + MaxBlockKeyBatch - 1) / MaxBlockKeyBatch }

  /** Keys that take b round trips arrive from a client with this session after these many attempts and trips. */
  predicate Arrives(f: Faults, session: bool, attempts: nat, trips: nat, b: nat) {
    var attempts' := if session then attempts else attempts + 1;
    var u := FirstFault(f.derive, trips, b);
    && (session || !f.establish(attempts))
    && (u == trips + b || (!f.establish(attempts') && FirstFault(f.derive, u + 1, b) == u + 1 + b))
  }

  /** Sessions can be set up, and no two faulty round trips are closer than a fetch is long. */
  ghost predicate Calm(f: Faults, b: nat) {
    && (forall t: nat :: !f.establish(t))
    && (forall t: nat, u: nat :: t < u <= t + b && f.derive(t) ==> !f.derive(u))
  }

  /** Setting up a session first makes no difference. */
  lemma SessionFirst(f: Faults, attempts: nat, trips: nat, b: nat)
    ensures Arrives(f, false, attempts, trips, b) <==> !f.establish(attempts) && Arrives(f, true, attempts + 1, trips, b)
  {
  }

  class Client {
    const card: Card
    const faults: Faults
    const maxBlockCount: nat
    const cache: Cache
    var session: bool
    var attempts: nat // sessions asked for so far
    var trips: nat    // round trips for keys so far

    ghost predicate Valid()
      reads this, cache, cache.Repr
    {
      && card.Valid() && maxBlockCount > 0 && cache.capacity == 4096
      && this !in cache.Repr && cache.Valid() && Sound(card, cache.abs)
    }

    constructor (card: Card, maxBlockCount: int, faults: Faults)
      requires card.Valid()
      ensures Valid() && fresh(cache) && fresh(cache.Repr) && this.card == card && this.faults == faults && session
      ensures this.maxBlockCount == BlockCount(maxBlockCount) == if maxBlockCount > 0 then maxBlockCount else 64
      ensures cache.capacity == 4096 && attempts == 0 && trips == 0
    {
      this.card, this.faults := card, faults;
      this.maxBlockCount := BlockCount(maxBlockCount);
      this.cache := new Cache(4096);
      this.session := true;
      this.attempts, this.trips := 0, 0;
    }

    method EstablishSession() returns (ok: bool)
      modifies this`session, this`attempts
      ensures ok == !faults.establish(old(attempts)) && attempts == old(attempts) + 1
      ensures session == (ok || old(session))
    {
      ok := !faults.establish(attempts);
      attempts := attempts + 1;
      if ok {
        session := true;
      }
    }

    /** One round trip to the card; counts outside 1..3 are not even sent. */
    method DeriveBlockKeys(start: U64, count: nat) returns (keys: Option<seq<Bytes>>)
      requires card.Valid()
      modifies this`trips
      ensures 1 <= count <= MaxBlockKeyBatch ==> keys.Some? == !faults.derive(old(trips)) && trips == old(trips) + 1
      ensures !(1 <= count <= MaxBlockKeyBatch) ==> keys.None? && trips == old(trips)
      ensures keys.Some? ==> |keys.value| == count && forall i :: 0 <= i < count ==> keys.value[i] == card.key(Wrap(start + i))
    {
      if !(1 <= count <= MaxBlockKeyBatch) {
        return None;
      }
      trips := trips + 1;
      if faults.derive(trips - 1) {
        return None;
      }
      ReplyHolds(card, start, count);
      keys := DecodeDeriveBlockKeysResponse(ReplyPayload(card, start, count), count);
    }

    /** The card's keys for exactly the range, unless one of the round trips it takes is faulty. */
    method FetchBlockKeys(start: U64, count: int) returns (keys: Option<map<U64, Bytes>>)
      requires card.Valid()
      modifies this`trips
      ensures keys.Some? ==> KeysOf(card, keys.value, Range(start, Max(count, 0)))
      ensures !session ==> keys.None? && trips == old(trips)
      ensures session ==> var u := FirstFault(faults.derive, old(trips), Batches(count));
                          && (keys.Some? <==> u == old(trips) + Batches(count))
                          && trips == if keys.Some? then u else u + 1
    {
      hide FirstFault, KeysOf, Covered, Range, Wrap;
      if !session {
        return None;
      }
      var m: map<U64, Bytes> := map[];
      NoKeysYet();
      var batches := PlanKeyBatches(start, count);
      for n := 0 to |batches|
        invariant trips == old(trips) + n && KeysOf(card, m, Covered(batches[..n]))
        invariant forall t :: old(trips) <= t < trips ==> !faults.derive(t)
      {
        var b := batches[n];
        var derived := DeriveBlockKeys(b.start, b.count);
        if derived.None? {
          return None;
        }
        m := AddKeys(m, b, derived.value, batches[..n]);
        CoverMore(batches, n);
      }
      assert batches[..|batches|] == batches;
      return Some(m);
    }

    lemma NoKeysYet()
      ensures KeysOf(card, map[], Covered([]))
    {
    }

    lemma CoverMore(batches: seq<KeyBatch>, n: nat)
      requires n < |batches|
      ensures Covered(batches[..n + 1]) == Covered(batches[..n]) + Range(batches[n].start, batches[n].count)
    {
      assert batches[..n + 1][..n] == batches[..n];
    }

    /** The inner loop of fetchBlockKeys: one batch more in the map. */
    method AddKeys(had: map<U64, Bytes>, b: KeyBatch, derived: seq<Bytes>, ghost before: seq<KeyBatch>) returns (m: map<U64, Bytes>)
      requires KeysOf(card, had, Covered(before)) && |derived| == b.count
      requires forall i :: 0 <= i < b.count ==> derived[i] == card.key(Wrap(b.start + i))
      ensures KeysOf(card, m, Covered(before) + Range(b.start, b.count))
    {
      hide Covered, Wrap;
      m := had;
      assert Covered(before) + Range(b.start, 0) == Covered(before);
      for i := 0 to |derived|
        invariant KeysOf(card, m, Covered(before) + Range(b.start, i))
      {
        m := m[Wrap(b.start + i) := derived[i]];
        assert Range(b.start, i + 1) == Range(b.start, i) + [Wrap(b.start + i)];
      }
    }

    /** waitForKeys: a broken session is re-established, and the fetch repeated, exactly once. */
    method WaitForKeys(start: U64, count: int) returns (keys: Option<map<U64, Bytes>>)
      requires card.Valid()
      modifies this`session, this`attempts, this`trips
      ensures keys.Some? ==> session && keys.value != map[] && KeysOf(card, keys.value, Range(start, Max(count, 0)))
      ensures keys.Some? <==> count > 0 && Arrives(faults, old(session), old(attempts), old(trips), Batches(count))
      ensures keys.None? && count > 0 ==> Refused(Batches(count))
      ensures attempts >= old(attempts) && trips >= old(trips)
    {
      hide KeysOf, FirstFault, Batches;
      if !session {
        var ok := EstablishSession();
        if !ok {
          return None;
        }
      }
      keys := FetchBlockKeys(start, count);
      if keys.None? {
        var ok := EstablishSession();
        if !ok {
          return None;
        }
        keys := FetchBlockKeys(start, count);
      }
      if keys.Some? {
        NoKeysOnlyForNoRange(keys.value, Range(start, Max(count, 0)));
      }
      if keys.Some? && |keys.value| == 0 {
        return None;
      }
    }

    lemma NoKeysOnlyForNoRange(keys: map<U64, Bytes>, range: seq<U64>)
      requires KeysOf(card, keys, range)
      ensures |keys| == 0 <==> |range| == 0
    {
      if range != [] {
        assert range[0] in keys;
      }
      if keys != map[] {
        var k :| k in keys;
        assert k in range;
      }
    }

    lemma OneIsLeast()
      requires Valid()
      ensures Batches(1) <= Batches(maxBlockCount)
    {
    }

    /** What it takes for a call to fail: an attempt at a session was faulty, or two round trips within one
        fetch of each other were. */
    twostate predicate Refused(b: nat)
      reads this
    {
      || (exists t :: old(attempts) <= t < attempts && faults.establish(t))
      || (exists t, u :: old(trips) <= t < u < trips && u <= t + b && faults.derive(t) && faults.derive(u))
    }

    method Purge()
      requires Valid()
      modifies cache.Repr
      ensures Valid() && cache.abs == [] && cache.Repr == old(cache.Repr)
    {
      cache.Purge();
    }

    /** A key that was not cached: not yet put, or no further back than the puts there have been. */
    ghost predicate StoredSoFar(keys: map<U64, Bytes>, rest: set<U64>, t: U64)
      requires t in keys && |rest| <= |keys|
      reads cache
    {
      if t in rest then !Has(cache.abs, t)
      else |keys| <= cache.capacity ==> Has(cache.abs, t) && Find(cache.abs, t) < |keys| - |rest|
    }

    /** Puts every fetched key into the cache, in whatever order the map yields them, and picks out the
        cipher for `index`. If all of them fit into the cache, those that are new to it are there at the end. */
    method StoreKeys(keys: map<U64, Bytes>, index: U64) returns (target: Option<Gcm>)
      requires Valid() && index in keys && !Has(cache.abs, index)
      requires forall k :: k in keys ==> keys[k] == card.key(k)
      modifies cache.Repr
      ensures Valid() && fresh(cache.Repr - old(cache.Repr))
      ensures target == Some(Gcm(card.key(index)))
      ensures |keys| <= cache.capacity ==> forall k :: k in keys && !Has(old(cache.abs), k) ==> Has(cache.abs, k)
    {
      hide Cache.Valid, Find, AfterPut;
      target := None;
      var rest := keys.Keys;
      while rest != {}
        invariant Valid() && fresh(cache.Repr - old(cache.Repr)) && rest <= keys.Keys && |rest| <= |keys|
        invariant target == if index in rest then None else Some(Gcm(card.key(index)))
        invariant forall t :: t in keys && !Has(old(cache.abs), t) ==> StoredSoFar(keys, rest, t)
      {
        ghost var before := cache.abs;
        var k :| k in rest;
        ghost var todo := rest;
        rest := rest - {k};
        var aead := cache.Put(k, keys[k]);
        PutSound(card, before, cache.capacity, k);
        forall t | t in keys && !Has(old(cache.abs), t) ensures StoredSoFar(keys, rest, t) {
          if t == k {
            PutInFront(before, cache.capacity, k, keys[k]);
          } else {
            PutKeepsNear(before, cache.capacity, k, keys[k], t);
          }
        }
        if k == index && aead.Some? {
          target := aead;
        }
      }
    }

    method Lookup(index: U64) returns (aead: Option<Gcm>, key: Bytes, found: bool)
      requires Valid()
      modifies cache.Repr
      ensures Valid() && cache.Repr == old(cache.Repr)
      ensures found == Has(old(cache.abs), index) == Has(cache.abs, index)
      ensures found ==> key == card.key(index) && aead == Some(Gcm(key))
      ensures !found ==> cache.abs == old(cache.abs)
    {
      GetSound(card, cache.abs, index);
      hide Cache.Linked, Cache.Indexed, Cache.Keyed, Cache.Abstracts, Find, AfterGet;
      aead, key, found := cache.Get(index);
    }

    /** Before the call the key was not at hand: not cached, or without a session to go with it. */
    twostate predicate Lacks(k: U64)
      reads this, cache
    {
      !old(session) || !Has(old(cache.abs), k)
    }

    /** The cipher for a block: from the cache, or fetched together with the blocks that follow. */
    method GetBlockAEAD(index: U64) returns (aead: Option<Gcm>)
      requires Valid()
      modifies this`session, this`attempts, this`trips, cache.Repr
      ensures Valid() && fresh(cache.Repr - old(cache.Repr))
      ensures aead == if aead.Some? then Some(Gcm(card.key(index))) else None
      ensures aead.None? ==> Refused(Batches(maxBlockCount))
      ensures aead.Some? <==> !Lacks(index) || Arrives(faults, old(session), old(attempts), old(trips), Batches(maxBlockCount))
      ensures attempts >= old(attempts) && trips >= old(trips)
      ensures aead.Some? && maxBlockCount <= cache.capacity ==> Has(cache.abs, index)
      ensures aead.Some? && maxBlockCount <= cache.capacity && Lacks(index) ==>
                forall k :: k in Range(index, maxBlockCount) && Lacks(k) ==> Has(cache.abs, k)
    {
      hide Cache.Valid, Find, Arrives, FirstFault;
      SessionFirst(faults, attempts, trips, Batches(maxBlockCount));
      if !session {
        Purge();
        var ok := EstablishSession();
        if !ok {
          return None;
        }
      }
      var hit, _, found := Lookup(index);
      if found {
        return hit;
      }
      var keys := WaitForKeys(index, maxBlockCount);
      if keys.None? {
        return None;
      }
      assert Range(index, maxBlockCount)[0] == index;
      AtMostRange(keys.value, Range(index, maxBlockCount));
      aead := StoreKeys(keys.value, index);
    }

    /** The key of a block. Without a failure on the way it is only missing when a prefetch of
        maxBlockCount keys can push it out of the cache again. */
    method GetBlockKey(index: U64) returns (key: Option<Bytes>)
      requires Valid()
      modifies this`session, this`attempts, this`trips, cache.Repr
      ensures Valid() && fresh(cache.Repr - old(cache.Repr))
      ensures key.Some? ==> key.value == card.key(index)
      ensures key.None? ==> Refused(Batches(maxBlockCount)) || maxBlockCount > cache.capacity
    {
      hide Cache.Valid, Find;
      var _, k, found := Lookup(index);
      if found {
        return Some(k);
      }
      var aead := GetBlockAEAD(index);
      if aead.None? {
        return None;
      }
      var _, k', found' := Lookup(index);
      return if found' then Some(k') else None;
    }

    /** A single key, never prefetching. */
    method DeriveKeyCached(index: U64) returns (key: Option<Bytes>)
      requires Valid()
      modifies this`session, this`attempts, this`trips, cache.Repr
      ensures Valid() && fresh(cache.Repr - old(cache.Repr))
      ensures key.Some? ==> key.value == card.key(index) && Has(cache.abs, index)
      ensures key.None? ==> Refused(Batches(1))
      ensures key.Some? <==> Has(old(cache.abs), index) || Arrives(faults, old(session), old(attempts), old(trips), Batches(1))
      ensures attempts >= old(attempts) && trips >= old(trips)
    {
      hide Cache.Valid, Find, Arrives, FirstFault;
      SessionFirst(faults, attempts, trips, Batches(1));
      var _, k, found := Lookup(index);
      if found {
        return Some(k);
      }
      if !session {
        var ok := EstablishSession();
        if !ok {
          return None;
        }
      }
      var keys := WaitForKeys(index, 1);
      if keys.None? {
        return None;
      }
      assert Range(index, 1)[0] == index;
      var _ := StoreKey(index, keys.value[index]);
      return Some(keys.value[index]);
    }

    method StoreKey(index: U64, key: Bytes) returns (aead: Option<Gcm>)
      requires Valid() && !Has(cache.abs, index) && key == card.key(index)
      modifies cache.Repr
      ensures Valid() && fresh(cache.Repr - old(cache.Repr)) && Has(cache.abs, index)
    {
      hide Cache.Valid, Find, AfterPut;
      PutSound(card, cache.abs, cache.capacity, index);
      PutInFront(cache.abs, cache.capacity, index, key);
      aead := cache.Put(index, key);
    }

    /** Wipe: no cached key and no session is left. */
    method Wipe()
      requires Valid()
      modifies this`session, cache.Repr
      ensures Valid() && cache.abs == [] && !session && cache.Repr == old(cache.Repr)
    {
      Purge();
      session := false;
    }
  }

  // --- ExternalAEAD -----------------------------------------------------------------------------

  /** The block number that content encryption puts in front of the associated data. */
  function ExtractBlockIndex(ad: Bytes): U64 {
    if |ad| >= 8 then
      assert Pow256(8) == 0x1_0000_0000_0000_0000;
      FromBE(ad[..8])
    else 0
  }

  /** The cipher the file system sees: each block under the card's key for its number. */
  function External(card: Card, gcm: Bytes -> Aead): Aead {
    Aead((n, p, a) => gcm(card.key(ExtractBlockIndex(a))).seal(n, p, a),
         (n, c, a) => gcm(card.key(ExtractBlockIndex(a))).open(n, c, a))
  }

  ghost predicate IdealFamily(gcm: Bytes -> Aead) {
    forall k: Bytes {:trigger gcm(k)} :: |k| == KeyLen ==> gcm(k).Ideal()
  }

  /** One ideal cipher per key makes the composite ideal: all that the file layer asks for. */
  lemma ExternalIsIdeal(card: Card, gcm: Bytes -> Aead)
    requires card.Valid() && IdealFamily(gcm)
    ensures External(card, gcm).Ideal()
  {
    var e := External(card, gcm);
    forall n: Bytes, p: Bytes, a: Bytes
      ensures |e.seal(n, p, a)| == |p| + AuthTagLen && e.open(n, e.seal(n, p, a), a) == Some(p)
    {
      var g := gcm(card.key(ExtractBlockIndex(a)));
      assert g.Ideal() && e.seal(n, p, a) == g.seal(n, p, a);
    }
  }

  /** What content encryption puts in front is what is taken out again. */
  lemma ExtractsBlock(e: Enc, k: U64, id: Bytes)
    ensures ExtractBlockIndex(e.ConcatAD(k, id)) == k
  {
    assert Pow256(8) == 0x1_0000_0000_0000_0000;
    assert e.ConcatAD(k, id)[..8] == BE(k, 8);
    FromBEofBE(k, 8);
  }

  /** So content encryption over the card seals and opens each block under the card's key for its number. */
  lemma BlocksUnderTheirKeys(e: Enc, card: Card, gcm: Bytes -> Aead, k: U64, id: Bytes, p: Bytes, nonce: Bytes, c: Bytes)
    requires e.aead == External(card, gcm)
    ensures e.EncryptBlockNonce(p, k, id, nonce) == e.(aead := gcm(card.key(k))).EncryptBlockNonce(p, k, id, nonce)
    ensures e.DecryptBlock(c, k, id) == e.(aead := gcm(card.key(k))).DecryptBlock(c, k, id)
  {
    ExtractsBlock(e, k, id);
  }

  datatype Op =
    | Seal(nonce: Bytes, plain: Bytes, ad: Bytes)
    | Open(nonce: Bytes, cipher: Bytes, ad: Bytes)
    | Key(index: U64)
    | WipeAll

  datatype Reply = Failed | Done(result: Option<Bytes>)

  /** The reference: no cache, no batches, no sessions. */
  function Answer(card: Card, gcm: Bytes -> Aead, op: Op): Option<Bytes> {
    match op
    case Seal(n, p, a) => Some(External(card, gcm).seal(n, p, a))
    case Open(n, c, a) => External(card, gcm).open(n, c, a)
    case Key(index) => Some(card.key(index))
    case WipeAll => None
  }

  method Perform(c: Client, gcm: Bytes -> Aead, op: Op) returns (r: Reply)
    requires c.Valid()
    modifies c, c.cache.Repr
    ensures c.Valid() && fresh(c.cache.Repr - old(c.cache.Repr))
    ensures r == Failed || r == Done(Answer(c.card, gcm, op))
    ensures r == Failed ==> c.Refused(Batches(c.maxBlockCount))
    ensures op == WipeAll ==> c.cache.abs == [] && !c.session
  {
    hide Client.Valid;
    match op {
      case Seal(n, p, a) =>
        var aead := c.GetBlockAEAD(ExtractBlockIndex(a));
        return if aead.None? then Failed else Done(Some(gcm(aead.value.key).seal(n, p, a)));
      case Open(n, ct, a) =>
        var aead := c.GetBlockAEAD(ExtractBlockIndex(a));
        return if aead.None? then Failed else Done(gcm(aead.value.key).open(n, ct, a));
      case Key(index) =>
        c.OneIsLeast();
        var key := c.DeriveKeyCached(index);
        return if key.None? then Failed else Done(key);
      case WipeAll =>
        c.Wipe();
        return Done(None);
    }
  }

  /** Any run on a new client: whatever was hit, evicted, wiped or re-established in between, every call that
      succeeds answers as the reference does; and none fails on a calm way to the card. */
  method Run(card: Card, maxBlockCount: int, faults: Faults, gcm: Bytes -> Aead, ops: seq<Op>) returns (replies: seq<Reply>)
    requires card.Valid()
    ensures |replies| == |ops|
    ensures forall i :: 0 <= i < |ops| ==> replies[i] == Failed || replies[i] == Done(Answer(card, gcm, ops[i]))
    ensures Calm(faults, Batches(BlockCount(maxBlockCount))) ==> Failed !in replies
  {
    hide Client.Valid, Batches;
    var c := new Client(card, maxBlockCount, faults);
    replies := [];
    for k := 0 to |ops|
      invariant c.Valid() && c.card == card && c.faults == faults && c.maxBlockCount == BlockCount(maxBlockCount)
      invariant fresh(c) && fresh(c.cache.Repr) && |replies| == k
      invariant forall i :: 0 <= i < k ==> replies[i] == Failed || replies[i] == Done(Answer(card, gcm, ops[i]))
      invariant Calm(faults, Batches(BlockCount(maxBlockCount))) ==> Failed !in replies
    {
      var r := Perform(c, gcm, ops[k]);
      replies := replies + [r];
    }
  }

  /** In any run, a call for block k of any file fails or is carried out under the card's key for k. */
  lemma RunUsesBlockKeys(card: Card, gcm: Bytes -> Aead, ops: seq<Op>, replies: seq<Reply>, i: nat, e: Enc, k: U64, id: Bytes)
    requires |replies| == |ops| && i < |ops|
    requires forall j :: 0 <= j < |ops| ==> replies[j] == Failed || replies[j] == Done(Answer(card, gcm, ops[j]))
    requires (ops[i].Seal? || ops[i].Open?) && ops[i].ad == e.ConcatAD(k, id)
    ensures replies[i] == Failed || replies[i] == Done(
              if ops[i].Seal? then Some(gcm(card.key(k)).seal(ops[i].nonce, ops[i].plain, ops[i].ad))
              else gcm(card.key(k)).open(ops[i].nonce, ops[i].cipher, ops[i].ad))
  {
    ExtractsBlock(e, k, id);
  }

  /** Open undoes Seal, however far apart in a run the two calls are. */
  lemma OpenUndoesSeal(card: Card, gcm: Bytes -> Aead, ops: seq<Op>, replies: seq<Reply>, i: nat, j: nat)
    requires card.Valid() && IdealFamily(gcm) && |replies| == |ops| && i < |ops| && j < |ops|
    requires forall k :: 0 <= k < |ops| ==> replies[k] == Failed || replies[k] == Done(Answer(card, gcm, ops[k]))
    requires ops[i].Seal? && replies[i].Done? && replies[i].result.Some? && replies[j].Done?
    requires ops[j] == Open(ops[i].nonce, replies[i].result.value, ops[i].ad)
    ensures replies[j] == Done(Some(ops[i].plain))
  {
    ExternalIsIdeal(card, gcm);
  }

  lemma PutSound(card: Card, s: seq<Item>, capacity: nat, k: U64)
    requires Sound(card, s)
    ensures Sound(card, AfterPut(s, capacity, k, card.key(k)))
  {
  }

  lemma GetSound(card: Card, s: seq<Item>, k: nat)
    requires Sound(card, s)
    ensures Sound(card, AfterGet(s, k)) && (Has(AfterGet(s, k), k) <==> Has(s, k))
  {
  }

  lemma AtMostRange(keys: map<U64, Bytes>, range: seq<U64>)
    requires forall k :: k in keys ==> k in range
    ensures |keys| <= |range|
  {
    Cardinality(keys.Keys, range);
  }

  lemma {:induction false} Cardinality(s: set<U64>, range: seq<U64>)
    requires forall k :: k in s ==> k in range
    ensures |s| <= |range|
  {
    if range == [] {
      assert s == {};
    } else {
      Cardinality(s - {range[0]}, range[1..]);
    }
  }
}
