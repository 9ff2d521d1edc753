/** The key cache of internal/externalenc: a map from block index to entry, and the entries threaded on
    a doubly linked list from most to least recently used. Keys live in heap arrays that the cache
    overwrites with zeros before it lets go of them. */
module KeyCache {
  import opened ByteSeqs

  /** An AES-GCM instance, identified by the key it was built from. */
  datatype Gcm = Gcm(key: Bytes)

  predicate AesKeyLen(n: nat) { n == 16 || n == 24 || n == 32 }

  // --- the reference: a sequence, most recently used first ----------------------------------

  datatype Item = Item(index: nat, key: Bytes)

  /** The position of `index`, or the length of the sequence if it is not there. */
  function Find(s: seq<Item>, index: nat): (i: nat)
    ensures i <= |s|
    ensures i < |s| ==> s[i].index == index
    ensures forall j :: 0 <= j < i ==> s[j].index != index
  {
    if s == [] || s[0].index == index then 0 else 1 + Find(s[1..], index)
  }

  predicate Has(s: seq<Item>, index: nat) { Find(s, index) < |s| }

  /** The sequence with element i moved to the front. */
  function ToFront<T>(s: seq<T>, i: nat): (r: seq<T>)
    requires i < |s|
    ensures |r| == |s|
  {
    [s[i]] + (s[..i] + s[i + 1..])
  }

  /** get: a hit moves to the front. */
  function AfterGet(s: seq<Item>, index: nat): seq<Item> {
    if Has(s, index) then ToFront(s, Find(s, index)) else s
  }

  /** put: a present index keeps its place; otherwise the last item makes room if need be. */
  function AfterPut(s: seq<Item>, capacity: nat, index: nat, key: Bytes): seq<Item> {
    if Has(s, index) then s[Find(s, index) := Item(index, key)]
    else [Item(index, key)] + if |s| >= capacity && |s| > 0 then s[..|s| - 1] else s
  }

  lemma FindIs(s: seq<Item>, index: nat, i: nat)
    requires i <= |s| && (forall j :: 0 <= j < i ==> s[j].index != index)
    requires i < |s| ==> s[i].index == index
    ensures Find(s, index) == i
  {
  }

  /** An item just put is in front. */
  lemma PutInFront(s: seq<Item>, capacity: nat, index: nat, key: Bytes)
    requires !Has(s, index)
    ensures Find(AfterPut(s, capacity, index, key), index) == 0 && Has(AfterPut(s, capacity, index, key), index)
  {
  }

  /** Putting another index brings `t` one step closer to eviction at most, and never brings it in. */
  lemma PutKeepsNear(s: seq<Item>, capacity: nat, index: nat, key: Bytes, t: nat)
    requires index != t
    ensures !Has(s, t) ==> !Has(AfterPut(s, capacity, index, key), t)
    ensures Has(s, t) && Find(s, t) + 1 < capacity ==>
              && Has(AfterPut(s, capacity, index, key), t)
              && Find(AfterPut(s, capacity, index, key), t) <= Find(s, t) + 1
  {
    var r, i := AfterPut(s, capacity, index, key), Find(s, t);
    if Has(s, index) {
      FindIs(r, t, i);
    } else if i < |s| && i + 1 < capacity {
      FindIs(r, t, i + 1);
    } else if i == |s| {
      FindIs(r, t, |r|);
    }
  }

  /** Puts in the given order, each index with the key that `key` gives it. */
  function PutAll(s: seq<Item>, capacity: nat, order: seq<nat>, key: nat -> Bytes): seq<Item> {
    if order == [] then s
    else
      var last := order[|order| - 1];
      AfterPut(PutAll(s, capacity, order[..|order| - 1], key), capacity, last, key(last))
  }

  predicate NoDuplicates(order: seq<nat>) { forall i, j :: 0 <= i < j < |order| ==> order[i] != order[j] }

  lemma {:induction false} PutAllNear(s: seq<Item>, capacity: nat, order: seq<nat>, key: nat -> Bytes, p: nat)
    requires NoDuplicates(order) && |order| <= capacity && p < |order| && !Has(s, order[p])
    ensures Has(PutAll(s, capacity, order, key), order[p])
    ensures Find(PutAll(s, capacity, order, key), order[p]) <= |order| - 1 - p
  {
    hide Find, AfterPut;
    var n := |order| - 1;
    var before := PutAll(s, capacity, order[..n], key);
    if p < n {
      PutAllNear(s, capacity, order[..n], key, p);
      PutKeepsNear(before, capacity, order[n], key(order[n]), order[p]);
    } else {
      PutAllAbsent(s, capacity, order[..n], key, order[p]);
      PutInFront(before, capacity, order[n], key(order[n]));
    }
  }

  lemma {:induction false} PutAllAbsent(s: seq<Item>, capacity: nat, order: seq<nat>, key: nat -> Bytes, t: nat)
    requires t !in order && !Has(s, t)
    ensures !Has(PutAll(s, capacity, order, key), t)
  {
    hide Find, AfterPut;
    if order != [] {
      var n := |order| - 1;
      PutAllAbsent(s, capacity, order[..n], key, t);
      PutKeepsNear(PutAll(s, capacity, order[..n], key), capacity, order[n], key(order[n]), t);
    }
  }

  function Upto(n: nat): (r: seq<nat>)
    ensures |r| == n && forall i :: 0 <= i < n ==> r[i] == i
  {
    seq(n, i requires 0 <= i => i)
  }

  /** The newest indices below n, newest first, as many as fit. */
  ghost predicate Newest(s: seq<Item>, capacity: nat, n: nat) {
    && |s| == (if n < capacity then n else capacity)
    && forall i :: 0 <= i < |s| ==> s[i].index == n - 1 - i
  }

  lemma PutNext(s: seq<Item>, capacity: nat, n: nat, key: Bytes)
    requires capacity > 0 && Newest(s, capacity, n)
    ensures Newest(AfterPut(s, capacity, n, key), capacity, n + 1)
  {
    assert forall i :: 0 <= i < |s| ==> s[i].index != n;
    assert !Has(s, n);
  }

  /** Counting up into an empty cache leaves the last `capacity` numbers, the newest first. */
  lemma {:induction false} PutAllUpto(capacity: nat, n: nat, key: nat -> Bytes)
    requires capacity > 0
    ensures Newest(PutAll([], capacity, Upto(n), key), capacity, n)
  {
    if n > 0 {
      hide Newest, AfterPut;
      PutAllUpto(capacity, n - 1, key);
      assert Upto(n)[..n - 1] == Upto(n - 1);
      PutNext(PutAll([], capacity, Upto(n - 1), key), capacity, n - 1, key(n - 1));
    }
  }

  /** Every batch of n keys, put in every order into every cache, leaves a wanted new key in place. */
  ghost predicate BatchAlwaysFits(capacity: nat, n: nat, key: nat -> Bytes) {
    forall s: seq<Item>, order: seq<nat>, p: nat ::
      NoDuplicates(order) && |order| == n && p < n && !Has(s, order[p]) ==> Has(PutAll(s, capacity, order, key), order[p])
  }

  /** That holds exactly when the batch is no larger than the cache. */
  lemma BatchFits(capacity: nat, n: nat, key: nat -> Bytes)
    requires capacity > 0
    ensures BatchAlwaysFits(capacity, n, key) <==> n <= capacity
  {
    if n <= capacity {
      forall s: seq<Item>, order: seq<nat>, p: nat
        | NoDuplicates(order) && |order| == n && p < n && !Has(s, order[p])
        ensures Has(PutAll(s, capacity, order, key), order[p])
      {
        PutAllNear(s, capacity, order, key, p);
      }
    } else {
      PutAllUpto(capacity, n, key);
      assert !Has([], Upto(n)[0]) && !Has(PutAll([], capacity, Upto(n), key), Upto(n)[0]);
    }
  }

  // --- the implementation -----------------------------------------------------------------

  class Entry {
    const blockIndex: nat
    var key: array?<Byte>
    var aead: Option<Gcm>
    var prev: Entry?
    var next: Entry?

    constructor (blockIndex: nat, key: array<Byte>, aead: Gcm, next: Entry?)
      ensures this.blockIndex == blockIndex && this.key == key && this.aead == Some(aead)
      ensures this.prev == null && this.next == next
    {
      this.blockIndex, this.key, this.aead, this.prev, this.next := blockIndex, key, Some(aead), null, next;
    }
  }

  method NewEntry(index: nat, key: Bytes, next: Entry?) returns (e: Entry)
    ensures fresh(e) && e.key != null && fresh(e.key) && e.key[..] == key
    ensures e.blockIndex == index && e.aead == Some(Gcm(key)) && e.prev == null && e.next == next
  {
    var a := Copy(key);
    e := new Entry(index, a, Gcm(key), next);
  }

  ghost predicate AllZero(a: array<Byte>)
    reads a
  {
    forall i :: 0 <= i < a.Length ==> a[i] == 0
  }

  method Zero(a: array<Byte>)
    modifies a
    ensures AllZero(a)
  {
    for i := 0 to a.Length
      invariant forall j :: 0 <= j < i ==> a[j] == 0
    {
      a[i] := 0;
    }
  }

  method Copy(s: Bytes) returns (a: array<Byte>)
    ensures fresh(a) && a[..] == s
  {
    a := new Byte[|s|](i requires 0 <= i < |s| => s[i]);
    assert a[..] == s;
  }

  class Cache {
    const capacity: nat
    var items: map<nat, Entry>
    var head: Entry?
    var tail: Entry?
    ghost var abs: seq<Item>          // the abstract value
    ghost var list: seq<Entry>        // the entries in list order
    ghost var keys: set<array<Byte>>  // every key array the cache has ever allocated
    ghost var Repr: set<object>

    /** The links `prev` and `next` spell out `list`. */
    ghost predicate Linked()
      reads this`head, this`tail, this`list, list`prev, list`next
    {
      && head == EntryAt(list, 0) && tail == EntryAt(list, |list| - 1)
      && Distinct(list)
      && (forall i :: 0 <= i < |list| ==> list[i].prev == EntryAt(list, i - 1) && list[i].next == EntryAt(list, i + 1))
    }

    /** The map holds exactly the entries of the list. */
    ghost predicate Indexed()
      reads this`items, this`list
    {
      && |items| == |list|
      && (forall x :: x in list ==> x.blockIndex in items && items[x.blockIndex] == x)
      && (forall k :: k in items ==> items[k] in list && items[k].blockIndex == k)
    }

    /** Each entry owns a key array of its own; all other key arrays have been zeroed. */
    ghost predicate Keyed()
      reads this`list, this`keys, list`key, list`aead, keys
    {
      && (forall x :: x in list ==> x.key != null && x.key in keys && x.aead == Some(Gcm(x.key[..])))
      && (forall x, y :: x in list && y in list && x != y ==> x.key != y.key)
      && (forall a :: a in keys ==> AllZero(a) || exists x :: x in list && x.key == a)
    }

    ghost predicate Abstracts()
      reads this`abs, this`list, this`keys, list`key, keys
    {
      && |abs| == |list|
      && forall i :: 0 <= i < |list| ==>
           && abs[i].index == list[i].blockIndex
           && list[i].key != null && list[i].key in keys && abs[i].key == list[i].key[..]
    }

    ghost predicate Owned()
      reads this`Repr, this`list, this`keys
    {
      && this in Repr
      && (forall x :: x in list ==> x in Repr)
      && (forall a :: a in keys ==> a in Repr)
    }

    ghost predicate Valid()
      reads this, Repr
    {
      && Owned() && Linked() && Indexed() && Keyed() && Abstracts()
      && 0 < capacity && |list| <= capacity
    }

    constructor (capacity: int)
      ensures Valid() && fresh(Repr) && abs == [] && keys == {}
      ensures this.capacity == if capacity <= 0 then 4096 else capacity
    {
      this.capacity := if capacity <= 0 then 4096 else capacity;
      items, head, tail := map[], null, null;
      abs, list, keys := [], [], {};
      Repr := {this};
    }

    twostate lemma BypassedLinks(i: nat)
      requires old(Linked()) && i < |old(list)| && list == Without(old(list), i)
      requires forall k :: 0 <= k < |old(list)| && k != i ==>
                 && old(list)[k].next == (if k == i - 1 then old(list[i].next) else old(list[k].next))
                 && old(list)[k].prev == (if k == i + 1 then old(list[i].prev) else old(list[k].prev))
      ensures forall k :: 0 <= k < |list| ==> list[k].prev == EntryAt(list, k - 1) && list[k].next == EntryAt(list, k + 1)
    {
      hide Distinct;
      forall k | 0 <= k < |list|
        ensures list[k].prev == EntryAt(list, k - 1) && list[k].next == EntryAt(list, k + 1)
      {
        var j := if k < i then k else k + 1;
        assert list[k] == old(list)[j];
      }
    }

    /** Bypassing entry i in both directions leaves the rest of the list linked. */
    twostate lemma Bypassed(i: nat)
      requires old(Linked()) && i < |old(list)| && list == Without(old(list), i)
      requires head == (if i == 0 then old(list[i].next) else old(head))
      requires tail == (if i == |old(list)| - 1 then old(list[i].prev) else old(tail))
      requires forall k :: 0 <= k < |old(list)| && k != i ==>
                 && old(list)[k].next == (if k == i - 1 then old(list[i].next) else old(list[k].next))
                 && old(list)[k].prev == (if k == i + 1 then old(list[i].prev) else old(list[k].prev))
      ensures Linked()
    {
      hide Distinct;
      StillDistinct(old(list), i);
      assert head == EntryAt(list, 0) && tail == EntryAt(list, |list| - 1);
      BypassedLinks(i);
    }

    /** The first half of unlinking: what came before e leads past it. */
    method BypassNext(e: Entry, ghost i: nat)
      requires Distinct(list) && i < |list| && list[i] == e && e.prev == EntryAt(list, i - 1)
      modifies this`head, list`next
      ensures head == if i == 0 then old(e.next) else old(head)
      ensures forall k :: 0 <= k < |list| ==> list[k].next == if k == i - 1 then old(e.next) else old(list[k].next)
    {
      if e.prev != null {
        e.prev.next := e.next;
      } else {
        head := e.next;
      }
    }

    /** The second half: what comes after e leads back past it. */
    method BypassPrev(e: Entry, ghost i: nat)
      requires Distinct(list) && i < |list| && list[i] == e && e.next == EntryAt(list, i + 1)
      modifies this`tail, list`prev
      ensures tail == if i == |list| - 1 then old(e.prev) else old(tail)
      ensures forall k :: 0 <= k < |list| ==> list[k].prev == if k == i + 1 then old(e.prev) else old(list[k].prev)
    {
      if e.next != null {
        e.next.prev := e.prev;
      } else {
        tail := e.prev;
      }
    }

    /** Takes an entry off the list; its own links are left as they were. */
    method Unlink(e: Entry, ghost i: nat)
      requires Linked() && i < |list| && list[i] == e
      modifies this`head, this`tail, this`list, list`prev, list`next
      ensures list == Without(old(list), i) && Linked()
    {
      hide Distinct, Without;
      BypassNext(e, i);
      BypassPrev(e, i);
      list := Without(list, i);
      Bypassed(i);
    }

    /** The links after an entry was put in front. */
    twostate lemma Pushed(e: Entry)
      requires old(Linked()) && e !in old(list) && list == [e] + old(list)
      requires e.prev == null && e.next == old(head)
      requires head == e && tail == if old(list) == [] then e else old(tail)
      requires forall k :: 0 <= k < |old(list)| ==>
                 && old(list)[k].next == old(list[k].next)
                 && old(list)[k].prev == if k == 0 then e else old(list[k].prev)
      ensures Linked()
    {
      forall k | 0 <= k < |list|
        ensures list[k].prev == EntryAt(list, k - 1) && list[k].next == EntryAt(list, k + 1)
      {
        assert k > 0 ==> list[k] == old(list)[k - 1];
      }
    }

    /** Puts a detached entry in front. */
    method PushFront(e: Entry)
      requires Linked() && e !in list
      modifies this`head, this`tail, this`list, e`prev, e`next, list`prev
      ensures list == [e] + old(list) && Linked()
    {
      e.prev := null;
      e.next := head;
      if head != null {
        head.prev := e;
      }
      head := e;
      if tail == null {
        tail := e;
      }
      list := [e] + list;
      Pushed(e);
    }

    /** The position of an entry in the list is that of its index in the abstract value. */
    lemma PositionOf(index: nat)
      requires Valid()
      ensures Has(abs, index) <==> index in items
      ensures index in items ==> list[Find(abs, index)] == items[index]
    {
      var i := Find(abs, index);
      if i < |abs| {
        assert list[i] in list;
      }
      if index in items {
        var j :| 0 <= j < |list| && list[j] == items[index];
        assert abs[j].index == index;
      }
    }

    /** Moves an entry to the front of the list, unless it is there already. */
    method MoveToFront(e: Entry, ghost i: nat)
      requires Linked() && i < |list| && list[i] == e
      modifies this`head, this`tail, this`list, list`prev, list`next
      ensures list == ToFront(old(list), i) && Linked()
    {
      hide Cache.Linked, EntryAt;
      FirstIsHead(i);
      if e == head {
        assert ToFront(list, 0) == list;
      } else {
        Unlink(e, i);
        StillDistinct(old(list), i);
        PushFront(e);
      }
    }

    lemma FirstIsHead(i: nat)
      requires Linked() && i < |list|
      ensures Distinct(list) && (list[i] == head <==> i == 0)
    {
    }

    twostate lemma ReorderedValue(i: nat)
      requires old(Abstracts()) && i < |old(list)|
      requires list == ToFront(old(list), i) && abs == ToFront(old(abs), i) && keys == old(keys)
      requires forall x :: x in old(list) ==> x.key == old(x.key)
      requires forall a :: a in keys ==> a[..] == old(a[..])
      ensures Abstracts()
    {
      forall k | 0 <= k < |list|
        ensures abs[k].index == list[k].blockIndex && list[k].key != null && list[k].key in keys && abs[k].key == list[k].key[..]
      {
        var j := if k == 0 then i else if k <= i then k - 1 else k;
        assert list[k] == old(list)[j] && abs[k] == old(abs)[j];
      }
    }

    /** Only the entries of the list matter to the keys, not their order. */
    twostate lemma ReorderedKeys()
      requires old(Keyed()) && keys == old(keys) && (forall x :: x in list <==> x in old(list))
      requires forall x :: x in old(list) ==> x.key == old(x.key) && x.aead == old(x.aead)
      requires forall a :: a in keys ==> a[..] == old(a[..])
      ensures Keyed()
    {
      forall a | a in keys ensures AllZero(a) || exists x :: x in list && x.key == a {
        if old(AllZero(a)) {
          StillZero(a);
        } else {
          var x :| x in old(list) && old(x.key) == a;
        }
      }
    }

    /** Reordering the list and the abstract value alike keeps map, keys and values in order. */
    twostate lemma Reordered(i: nat)
      requires old(Owned() && Indexed() && Keyed() && Abstracts()) && i < |old(list)|
      requires list == ToFront(old(list), i) && abs == ToFront(old(abs), i)
      requires items == old(items) && keys == old(keys) && Repr == old(Repr)
      requires forall x :: x in old(list) ==> x.key == old(x.key) && x.aead == old(x.aead)
      requires forall a :: a in keys ==> a[..] == old(a[..])
      ensures Owned() && Indexed() && Keyed() && Abstracts()
    {
      hide ToFront, Cache.Abstracts, Cache.Keyed;
      ReorderedValue(i);
      SameEntries(old(list), i);
      ReorderedKeys();
    }

    /** Makes entry i the most recently used. */
    method Promote(e: Entry, ghost i: nat)
      requires Valid() && i < |list| && list[i] == e
      modifies this`head, this`tail, this`list, this`abs, list`prev, list`next
      ensures Valid() && i < |old(abs)| && abs == ToFront(old(abs), i)
    {
      hide Cache.Linked, EntryAt, ToFront;
      assert |abs| == |list|;
      MoveToFront(e, i);
      abs := ToFront(abs, i);
      hide Cache.Owned, Cache.Indexed, Cache.Keyed, Cache.Abstracts;
      Reordered(i);
    }

    method Get(index: nat) returns (aead: Option<Gcm>, key: Bytes, ok: bool)
      requires Valid()
      modifies this`head, this`tail, this`list, this`abs, list`prev, list`next
      ensures Valid()
      ensures ok == Has(old(abs), index)
      ensures ok ==> key == old(abs)[Find(old(abs), index)].key && aead == Some(Gcm(key))
      ensures abs == AfterGet(old(abs), index)
    {
      hide Cache.Linked, EntryAt, ToFront;
      PositionOf(index);
      if index !in items {
        return None, [], false;
      }
      var e := items[index];
      aead, key, ok := e.aead, e.key[..], true;
      Promote(e, Find(abs, index));
    }

    twostate lemma StillZero(a: array<Byte>)
      requires old(AllZero(a)) && a[..] == old(a[..])
      ensures AllZero(a)
    {
      forall k | 0 <= k < a.Length ensures a[k] == 0 { assert a[..][k] == old(a[..])[k]; }
    }

    /** Dropping entry i keeps the map in step with the list. */
    twostate lemma RemovedItem(i: nat)
      requires old(Indexed()) && i < |old(list)| && Distinct(old(list)) && list == Without(old(list), i)
      requires items == old(items) - {old(list)[i].blockIndex}
      ensures Indexed()
    {
      hide Distinct;
      StillDistinct(old(list), i);
      assert items.Keys == old(items).Keys - {old(list)[i].blockIndex};
      forall k | k in items ensures items[k] in list && items[k].blockIndex == k {
        var j :| 0 <= j < |old(list)| && old(list)[j] == items[k];
        assert list[if j < i then j else j - 1] == items[k];
      }
    }

    /** Dropping entry i keeps the abstract value in step with the list. */
    twostate lemma RemovedValue(i: nat)
      requires old(Abstracts()) && i < |old(list)| && list == Without(old(list), i) && abs == Without(old(abs), i)
      requires forall x :: x in list && x in old(list) ==> x.key == old(x.key) && (old(x.key) in old(keys) ==> x.key in keys && x.key[..] == old(x.key[..]))
      ensures Abstracts()
    {
      forall k | 0 <= k < |list|
        ensures abs[k].index == list[k].blockIndex && list[k].key != null && list[k].key in keys && abs[k].key == list[k].key[..]
      {
        var j := if k < i then k else k + 1;
        assert list[k] == old(list)[j] && abs[k] == old(abs)[j];
      }
    }

    /** Dropping entry i after zeroing its key leaves no stray key behind. */
    twostate lemma RemovedKey(i: nat)
      requires old(Keyed()) && i < |old(list)| && Distinct(old(list))
      requires list == Without(old(list), i) && keys == old(keys)
      requires forall x :: x in list && x in old(list) ==> x.key == old(x.key) && x.aead == old(x.aead)
      requires forall a :: a in keys && a != old(list[i].key) ==> a[..] == old(a[..])
      requires AllZero(old(list[i].key))
      ensures Keyed()
    {
      StillDistinct(old(list), i);
      forall a | a in keys ensures AllZero(a) || exists x :: x in list && x.key == a {
        if a != old(list[i].key) {
          if old(AllZero(a)) {
            StillZero(a);
          } else {
            var j :| 0 <= j < |old(list)| && old(list[j].key) == a;
            assert list[if j < i then j else j - 1] == old(list)[j];
          }
        }
      }
    }

    twostate lemma Removed(i: nat)
      requires old(Owned() && Indexed() && Keyed() && Abstracts()) && i < |old(list)| && Distinct(old(list))
      requires list == Without(old(list), i) && abs == Without(old(abs), i)
      requires items == old(items) - {old(list)[i].blockIndex} && keys == old(keys) && Repr == old(Repr)
      requires forall x :: x in old(list) && x != old(list)[i] ==> x.key == old(x.key) && x.aead == old(x.aead)
      requires forall a :: a in keys && a != old(list[i].key) ==> a[..] == old(a[..])
      requires AllZero(old(list[i].key))
      ensures Owned() && Indexed() && Keyed() && Abstracts()
    {
      hide Distinct, Without;
      StillDistinct(old(list), i);
      RemovedKey(i);
      hide Cache.Indexed;
      RemovedItem(i);
      hide Cache.Abstracts;
      RemovedValue(i);
    }

    lemma LastIsTail()
      requires Linked()
      ensures tail == null <==> list == []
      ensures list != [] ==> list[|list| - 1] == tail
    {
    }

    lemma HasKey(i: nat)
      requires Abstracts() && i < |list|
      ensures |abs| == |list| && list[i].key != null
    {
    }

    method ZeroEntry(e: Entry)
      modifies e`key, e`aead, e.key
      ensures e.key == null && e.aead == None
      ensures old(e.key) != null ==> AllZero(old(e.key))
    {
      if e.key != null {
        Zero(e.key);
        e.key := null;
      }
      e.aead := None;
    }

    method RemoveEntry(e: Entry, ghost i: nat)
      requires Valid() && i < |list| && list[i] == e
      modifies this`head, this`tail, this`list, this`items, this`abs, list`prev, list`next, e`key, e`aead, e.key
      ensures Valid() && i < |old(abs)| && abs == Without(old(abs), i)
    {
      hide Cache.Linked, EntryAt, Without, Distinct, Cache.Owned, Cache.Indexed, Cache.Keyed, Cache.Abstracts;
      FirstIsHead(i);
      HasKey(i);
      abs := Without(abs, i);
      Unlink(e, i);
      items := items - {e.blockIndex};
      ZeroEntry(e);
      Removed(i);
    }

    /** Giving entry i a new key array, its old one zeroed, keeps keys and values in order. */
    twostate lemma Rekeyed(i: nat, new a: array<Byte>)
      requires old(Owned() && Indexed() && Keyed() && Abstracts()) && i < |old(list)| && Distinct(list)
      requires list == old(list) && items == old(items) && a !in old(keys) && keys == old(keys) + {a}
      requires Repr == old(Repr) + {a} && abs == old(abs)[i := Item(list[i].blockIndex, a[..])]
      requires list[i].key == a && list[i].aead == Some(Gcm(a[..]))
      requires forall x :: x in list && x != list[i] ==> x.key == old(x.key) && x.aead == old(x.aead)
      requires forall b :: b in old(keys) && b != old(list[i].key) ==> b[..] == old(b[..])
      requires AllZero(old(list[i].key))
      ensures Owned() && Indexed() && Keyed() && Abstracts()
    {
      forall b | b in keys ensures AllZero(b) || exists x :: x in list && x.key == b {
        if b == a {
          assert list[i] in list;
        } else if b != old(list[i].key) {
          if old(AllZero(b)) {
            StillZero(b);
          } else {
            var x :| x in list && old(x.key) == b;
          }
        }
      }
    }

    twostate lemma StillLinked()
      requires old(Linked()) && list == old(list) && head == old(head) && tail == old(tail)
      requires forall x :: x in list ==> x.prev == old(x.prev) && x.next == old(x.next)
      ensures Linked()
    {
      hide Distinct, EntryAt;
    }

    /** put, for an index that is present: a new key in the same place. */
    method Rekey(e: Entry, key: Bytes, ghost i: nat)
      requires Valid() && i < |list| && list[i] == e
      modifies this`keys, this`Repr, this`abs, e`key, e`aead, e.key
      ensures Valid() && i < |old(abs)| && abs == old(abs)[i := Item(e.blockIndex, key)] && fresh(Repr - old(Repr))
    {
      hide Cache.Linked, EntryAt, Distinct, Cache.Owned, Cache.Indexed, Cache.Keyed, Cache.Abstracts;
      FirstIsHead(i);
      HasKey(i);
      Zero(e.key);
      var a := Copy(key);
      e.key, e.aead := a, Some(Gcm(key));
      keys, Repr, abs := keys + {a}, Repr + {a}, abs[i := Item(e.blockIndex, key)];
      StillLinked();
      Rekeyed(i, a);
    }

    twostate lemma AddedItem(new e: Entry)
      requires old(Indexed()) && e.blockIndex !in old(items)
      requires list == [e] + old(list) && items == old(items)[e.blockIndex := e]
      ensures Indexed()
    {
      assert items.Keys == old(items).Keys + {e.blockIndex};
      forall x | x in list ensures x.blockIndex in items && items[x.blockIndex] == x {
        assert x == e || x in old(list);
      }
      forall k | k in items ensures items[k] in list && items[k].blockIndex == k {
        assert k == e.blockIndex || items[k] in old(list);
      }
    }

    twostate lemma AddedValue(new e: Entry, new a: array<Byte>)
      requires old(Abstracts())
      requires list == [e] + old(list) && keys == old(keys) + {a} && e.key == a
      requires abs == [Item(e.blockIndex, a[..])] + old(abs)
      requires forall x :: x in old(list) ==> x.key == old(x.key)
      requires forall b :: b in old(keys) ==> b[..] == old(b[..])
      ensures Abstracts()
    {
      forall k | 0 <= k < |list|
        ensures abs[k].index == list[k].blockIndex && list[k].key != null && list[k].key in keys && abs[k].key == list[k].key[..]
      {
        assert k > 0 ==> list[k] == old(list)[k - 1] && abs[k] == old(abs)[k - 1];
      }
    }

    twostate lemma AddedKey(new e: Entry, new a: array<Byte>)
      requires old(Keyed()) && e !in old(list) && a !in old(keys)
      requires list == [e] + old(list) && keys == old(keys) + {a}
      requires e.key == a && e.aead == Some(Gcm(a[..]))
      requires forall x :: x in old(list) ==> x.key == old(x.key) && x.aead == old(x.aead)
      requires forall b :: b in old(keys) ==> b[..] == old(b[..])
      ensures Keyed()
    {
      forall b | b in keys ensures AllZero(b) || exists x :: x in list && x.key == b {
        if b == a {
          assert list[0] == e;
        } else if old(AllZero(b)) {
          StillZero(b);
        } else {
          var x :| x in old(list) && old(x.key) == b;
          assert x in list;
        }
      }
    }

    /** A new entry in front, with a key array of its own, keeps map, keys and values in order. */
    twostate lemma Added(new e: Entry, new a: array<Byte>)
      requires old(Owned() && Indexed() && Keyed() && Abstracts())
      requires e !in old(list) && e.blockIndex !in old(items) && a !in old(keys)
      requires list == [e] + old(list) && items == old(items)[e.blockIndex := e] && keys == old(keys) + {a}
      requires Repr == old(Repr) + {e, a} && abs == [Item(e.blockIndex, a[..])] + old(abs)
      requires e.key == a && e.aead == Some(Gcm(a[..]))
      requires forall x :: x in old(list) ==> x.key == old(x.key) && x.aead == old(x.aead)
      requires forall b :: b in old(keys) ==> b[..] == old(b[..])
      ensures Owned() && Indexed() && Keyed() && Abstracts()
    {
      hide Cache.Abstracts, Cache.Keyed, Cache.Indexed;
      AddedItem(e);
      AddedValue(e, a);
      AddedKey(e, a);
    }

    /** put, for an absent index once there is room. */
    method Insert(index: nat, key: Bytes)
      requires Valid() && index !in items && |list| < capacity
      modifies this`head, this`tail, this`list, this`items, this`keys, this`Repr, this`abs, list`prev
      ensures Valid() && abs == [Item(index, key)] + old(abs) && fresh(Repr - old(Repr))
    {
      hide Cache.Linked, EntryAt, Distinct, Cache.Owned, Cache.Keyed, Cache.Abstracts, Cache.Indexed;
      var e := NewEntry(index, key, head);
      PushFront(e);
      keys, Repr, abs := keys + {e.key}, Repr + {e, e.key}, [Item(index, key)] + abs;
      items := items[index := e];
      Added(e, e.key);
    }

    /** Drops the least recently used entry if the cache is full. */
    method MakeRoom()
      requires Valid()
      modifies this`head, this`tail, this`list, this`items, this`abs, list, keys
      ensures Valid() && |list| < capacity
      ensures abs == if |old(abs)| < capacity then old(abs) else old(abs)[..|old(abs)| - 1]
    {
      hide Cache.Linked, EntryAt, Distinct;
      LastIsTail();
      if |items| >= capacity && tail != null {
        RemoveEntry(tail, |list| - 1);
      }
    }

    method Put(index: nat, key: Bytes) returns (aead: Option<Gcm>)
      requires Valid()
      modifies Repr
      ensures Valid() && fresh(Repr - old(Repr))
      ensures aead == if |key| == 16 || |key| == 24 || |key| == 32 then Some(Gcm(key)) else None
      ensures abs == if AesKeyLen(|key|) then AfterPut(old(abs), capacity, index, key) else old(abs)
    {
      hide Cache.Linked, EntryAt, Distinct, Cache.Keyed, Cache.Indexed, Find;
      if !AesKeyLen(|key|) {
        return None;
      }
      aead := Some(Gcm(key));
      PositionOf(index);
      if index in items {
        Rekey(items[index], key, Find(abs, index));
        return;
      }
      MakeRoom();
      PositionOf(index);
      Insert(index, key);
    }

    /** Entries from n on still hold their keys; every other key array is zero. */
    ghost predicate ZeroedBefore(n: nat)
      reads this`list, this`keys, list`key, keys
    {
      && n <= |list|
      && (forall i :: n <= i < |list| ==> list[i].key != null && list[i].key in keys)
      && (forall a :: a in keys ==> AllZero(a) || exists i :: n <= i < |list| && list[i].key == a)
    }

    lemma NoneZeroedYet()
      requires Keyed()
      ensures ZeroedBefore(0)
    {
      forall a | a in keys && !AllZero(a) ensures exists i :: 0 <= i < |list| && list[i].key == a {
        var x :| x in list && x.key == a;
        var i :| 0 <= i < |list| && list[i] == x;
      }
    }

    lemma AllWiped()
      requires ZeroedBefore(|list|)
      ensures forall a :: a in keys ==> AllZero(a)
    {
    }

    /** purge wipes entry n. */
    method Wipe(e: Entry, ghost n: nat)
      requires ZeroedBefore(n) && n < |list| && list[n] == e && Distinct(list)
      modifies e`key, e`aead, keys
      ensures ZeroedBefore(n + 1)
    {
      ZeroEntry(e);
      forall a | a in keys && !AllZero(a) ensures exists i :: n + 1 <= i < |list| && list[i].key == a {
        var i :| n <= i < |list| && old(list[i].key) == a;
      }
    }

    /** The list can be walked from the head by following `next`. */
    lemma Successor(n: nat)
      requires Linked()
      ensures head == EntryAt(list, 0) && Distinct(list)
      ensures n < |list| ==> list[n].next == EntryAt(list, n + 1)
    {
    }

    /** purge's walk: wipes every entry. */
    method WipeAll()
      requires Linked() && Keyed()
      modifies list`key, list`aead, keys
      ensures forall a :: a in keys ==> AllZero(a)
    {
      hide Cache.Linked, Cache.Keyed, Distinct, Cache.ZeroedBefore, AllZero;
      NoneZeroedYet();
      Successor(0);
      ghost var n := 0;
      var curr := head;
      while curr != null
        invariant Linked() && n <= |list| && curr == EntryAt(list, n) && ZeroedBefore(n)
        decreases |list| - n
      {
        Successor(n);
        var next := curr.next;
        Wipe(curr, n);
        curr := next;
        n := n + 1;
      }
      AllWiped();
    }

    lemma NothingLeft()
      requires items == map[] && head == null && tail == null && list == [] && abs == []
      requires forall a :: a in keys ==> AllZero(a)
      ensures Linked() && Indexed() && Keyed() && Abstracts()
    {
    }

    method Purge()
      requires Valid()
      modifies this`head, this`tail, this`list, this`items, this`abs, list`key, list`aead, keys
      ensures Valid() && abs == [] && forall a :: a in keys ==> AllZero(a)
    {
      hide Cache.Linked, Cache.Indexed, Cache.Keyed, Cache.Abstracts, AllZero;
      WipeAll();
      items, head, tail, list, abs := map[], null, null, [], [];
      NothingLeft();
    }
  }

  // --- whole runs ---------------------------------------------------------------------------

  datatype Op = GetOp(index: nat) | PutOp(index: nat, key: Bytes) | PurgeOp

  /** What a call returns: the cipher and, for a successful get, the key. */
  datatype Reply = Reply(aead: Option<Gcm>, key: Option<Bytes>)

  /** The reference: replies and final contents of a run, on plain sequences. */
  function Replay(s: seq<Item>, capacity: nat, ops: seq<Op>): (r: (seq<Item>, seq<Reply>))
    ensures |r.1| == |ops|
    decreases |ops|
  {
    if ops == [] then (s, [])
    else
      var (before, replies) := Replay(s, capacity, ops[..|ops| - 1]);
      var (after, reply) := Next(before, capacity, ops[|ops| - 1]);
      (after, replies + [reply])
  }

  function Next(s: seq<Item>, capacity: nat, op: Op): (seq<Item>, Reply) {
    match op
    case GetOp(index) =>
      (AfterGet(s, index),
       if Has(s, index) then Reply(Some(Gcm(s[Find(s, index)].key)), Some(s[Find(s, index)].key)) else Reply(None, None))
    case PutOp(index, key) =>
      if AesKeyLen(|key|) then (AfterPut(s, capacity, index, key), Reply(Some(Gcm(key)), None))
      else (s, Reply(None, None))
    case PurgeOp => ([], Reply(None, None))
  }

  /** The key that the last successful put gave to an index, if it was put at all. */
  function LastPut(ops: seq<Op>, index: nat): Option<Bytes> {
    if ops == [] then None
    else
      match ops[|ops| - 1]
      case PutOp(i, key) =>
        if i == index && AesKeyLen(|key|) then Some(key) else LastPut(ops[..|ops| - 1], index)
      case _ => LastPut(ops[..|ops| - 1], index)
  }

  /** Never more than `capacity` items, never two for one index, and no key but the one last put. */
  ghost predicate IsCache(s: seq<Item>, capacity: nat, last: nat -> Option<Bytes>) {
    && |s| <= capacity
    && (forall i, j :: 0 <= i < j < |s| ==> s[i].index != s[j].index)
    && (forall i :: 0 <= i < |s| ==> last(s[i].index) == Some(s[i].key))
  }

  lemma GetKeepsCache(s: seq<Item>, capacity: nat, last: nat -> Option<Bytes>, index: nat)
    requires IsCache(s, capacity, last)
    ensures IsCache(AfterGet(s, index), capacity, last)
  {
    if Has(s, index) {
      var i := Find(s, index);
      var r := ToFront(s, i);
      forall j: nat | j < |r| ensures r[j] == s[if j == 0 then i else if j <= i then j - 1 else j] {}
      assert IsCache(r, capacity, last);
    }
  }

  lemma PutKeepsCache(s: seq<Item>, capacity: nat, last: nat -> Option<Bytes>, last': nat -> Option<Bytes>,
                                         index: nat, key: Bytes)
    requires IsCache(s, capacity, last) && capacity > 0
    requires last'(index) == Some(key) && forall i :: i != index ==> last'(i) == last(i)
    ensures IsCache(AfterPut(s, capacity, index, key), capacity, last')
  {
  }

  /** The reference is a cache, after any run. */
  lemma {:induction false} ReplayIsCache(capacity: nat, ops: seq<Op>)
    requires capacity > 0
    ensures IsCache(Replay([], capacity, ops).0, capacity, i => LastPut(ops, i))
  {
    if ops != [] {
      var before := ops[..|ops| - 1];
      var s := Replay([], capacity, before).0;
      var last, last' := i => LastPut(before, i), i => LastPut(ops, i);
      ReplayIsCache(capacity, before);
      hide AfterGet, AfterPut;
      match ops[|ops| - 1] {
        case GetOp(index) =>
          GetKeepsCache(s, capacity, last, index);
        case PutOp(index, key) =>
          if AesKeyLen(|key|) {
            PutKeepsCache(s, capacity, last, last', index, key);
          }
        case PurgeOp =>
      }
    }
  }

  // --- least recently used ------------------------------------------------------------------

  /** The last call uses t: a get that was answered with a key, or a put of an index that was not there. A put that
      gives a cached index a new key is not a use. */
  predicate Uses(capacity: nat, ops: seq<Op>, t: nat)
    requires ops != []
  {
    var k := |ops| - 1;
    match ops[k]
    case GetOp(index) => index == t && Replay([], capacity, ops).1[k].key.Some?
    case PutOp(index, key) => index == t && AesKeyLen(|key|) && !Has(Replay([], capacity, ops[..k]).0, t)
    case PurgeOp => false
  }

  /** The number of the last call that used t, counted from 1; 0 if there was none since the last purge. */
  function LastUse(capacity: nat, ops: seq<Op>, t: nat): (n: nat)
    ensures n <= |ops|
  {
    if ops == [] || ops[|ops| - 1].PurgeOp? then 0
    else if Uses(capacity, ops, t) then |ops|
    else LastUse(capacity, ops[..|ops| - 1], t)
  }

  /** The cache holds the most recently used indices, in the order of their last use: whatever else has been used
      did not fit and was used before all of them. */
  ghost predicate IsLru(s: seq<Item>, capacity: nat, use: nat -> nat) {
    && InOrder(s, use)
    && forall t: nat :: if Has(s, t) then use(t) > 0 else use(t) > 0 ==> LeftOut(s, capacity, use, t)
  }

  ghost predicate InOrder(s: seq<Item>, use: nat -> nat) {
    forall i, j :: 0 <= i < j < |s| ==> use(s[i].index) > use(s[j].index)
  }

  ghost predicate LeftOut(s: seq<Item>, capacity: nat, use: nat -> nat, t: nat) {
    |s| == capacity && forall i :: 0 <= i < |s| ==> use(t) < use(s[i].index)
  }

  /** Index t is used at time `now`, later than everything else. */
  ghost predicate UsedNow(use: nat -> nat, use': nat -> nat, t: nat, now: nat) {
    use'(t) == now && forall u: nat :: (u != t ==> use'(u) == use(u)) && use(u) < now
  }

  lemma GetKeepsLru(s: seq<Item>, capacity: nat, use: nat -> nat, use': nat -> nat, index: nat, now: nat)
    requires IsLru(s, capacity, use) && Has(s, index) && UsedNow(use, use', index, now)
    ensures IsLru(AfterGet(s, index), capacity, use')
  {
    hide Find, AfterGet, InOrder, LeftOut;
    var r := AfterGet(s, index);
    GetKeepsOrder(s, use, use', index, now);
    forall t: nat ensures if Has(r, t) then use'(t) > 0 else use'(t) > 0 ==> LeftOut(r, capacity, use', t) {
      SameItems(s, index, t);
      if !Has(s, t) && use'(t) > 0 {
        GetLeavesOut(s, capacity, use, use', index, now, t);
      }
    }
  }

  lemma GetKeepsOrder(s: seq<Item>, use: nat -> nat, use': nat -> nat, index: nat, now: nat)
    requires InOrder(s, use) && Has(s, index) && UsedNow(use, use', index, now)
    ensures InOrder(AfterGet(s, index), use')
  {
    hide Find, AfterGet;
    var i, r := Find(s, index), AfterGet(s, index);
    GetMoves(s, index);
    forall j | 0 < j < |r| ensures r[j].index != index && use'(r[j].index) < now {
      var k := if j <= i then j - 1 else j;
      assert r[j] == s[k] && use(s[k].index) != use(s[i].index);
    }
    forall a, b | 0 <= a < b < |r| ensures use'(r[a].index) > use'(r[b].index) {
      if a > 0 {
        assert use'(r[a].index) == use(r[a].index) && use'(r[b].index) == use(r[b].index);
      }
    }
  }

  lemma GetLeavesOut(s: seq<Item>, capacity: nat, use: nat -> nat, use': nat -> nat, index: nat, now: nat, t: nat)
    requires Has(s, index) && UsedNow(use, use', index, now) && !Has(s, t) && LeftOut(s, capacity, use, t)
    ensures LeftOut(AfterGet(s, index), capacity, use', t)
  {
    hide Find, AfterGet;
    var i, r := Find(s, index), AfterGet(s, index);
    GetMoves(s, index);
    forall j | 0 <= j < |r| ensures use'(t) < use'(r[j].index) {
      var k := if j == 0 then i else if j <= i then j - 1 else j;
      assert r[j] == s[k] && use(t) < use(s[k].index);
    }
  }

  /** Where the items are after a hit. */
  lemma GetMoves(s: seq<Item>, index: nat)
    requires Has(s, index)
    ensures var i, r := Find(s, index), AfterGet(s, index);
            |r| == |s| && forall j :: 0 <= j < |r| ==> r[j] == s[if j == 0 then i else if j <= i then j - 1 else j]
  {
    hide Find;
    var i, r := Find(s, index), AfterGet(s, index);
    forall j | 0 <= j < |r| ensures r[j] == s[if j == 0 then i else if j <= i then j - 1 else j] {
      ToFrontAt(s, i, j);
    }
  }

  lemma ToFrontAt<T>(s: seq<T>, i: nat, j: nat)
    requires i < |s| && j < |s|
    ensures ToFront(s, i)[j] == s[if j == 0 then i else if j <= i then j - 1 else j]
  {
    if j > 0 {
      var rest := s[..i] + s[i + 1..];
      assert ToFront(s, i)[j] == rest[j - 1];
      if j <= i {
        assert rest[j - 1] == s[..i][j - 1];
      } else {
        assert rest[j - 1] == s[i + 1..][j - 1 - i];
      }
    }
  }

  /** Moving an item to the front keeps what is there. */
  lemma SameItems(s: seq<Item>, index: nat, t: nat)
    requires Has(s, index)
    ensures Has(AfterGet(s, index), t) <==> Has(s, t)
  {
    hide AfterGet;
    var i, r := Find(s, index), AfterGet(s, index);
    GetMoves(s, index);
    if Has(s, t) {
      var j := Find(s, t);
      assert r[if j == i then 0 else if j < i then j + 1 else j] == s[j];
    }
  }

  lemma NewKeepsLru(s: seq<Item>, capacity: nat, use: nat -> nat, use': nat -> nat, index: nat, key: Bytes, now: nat)
    requires IsLru(s, capacity, use) && 0 < capacity && |s| <= capacity && !Has(s, index) && UsedNow(use, use', index, now) && now > 0
    ensures IsLru(AfterPut(s, capacity, index, key), capacity, use')
  {
    hide Find, AfterPut, InOrder, LeftOut;
    var r := AfterPut(s, capacity, index, key);
    NewKeepsOrder(s, capacity, use, use', index, key, now);
    forall t: nat ensures if Has(r, t) then use'(t) > 0 else use'(t) > 0 ==> LeftOut(r, capacity, use', t) {
      PutInFront(s, capacity, index, key);
      if t != index {
        PutKeepsNear(s, capacity, index, key, t);
        if !Has(r, t) && use'(t) > 0 {
          NewLeavesOut(s, capacity, use, use', index, key, now, t);
        }
      }
    }
  }

  /** Where the items are after a put of a new index. */
  lemma PutMoves(s: seq<Item>, capacity: nat, index: nat, key: Bytes)
    requires !Has(s, index) && capacity > 0
    ensures var r := AfterPut(s, capacity, index, key);
            && |r| == (if |s| < capacity then |s| + 1 else |s|) && r[0].index == index
            && forall j :: 0 < j < |r| ==> r[j] == s[j - 1] && r[j].index != index
  {
    hide Find;
    var r := AfterPut(s, capacity, index, key);
    forall j | 0 < j < |r| ensures r[j] == s[j - 1] && r[j].index != index {
      HasAt(s, j - 1);
    }
  }

  lemma NewKeepsOrder(s: seq<Item>, capacity: nat, use: nat -> nat, use': nat -> nat, index: nat, key: Bytes, now: nat)
    requires InOrder(s, use) && 0 < capacity && |s| <= capacity && !Has(s, index) && UsedNow(use, use', index, now)
    ensures InOrder(AfterPut(s, capacity, index, key), use')
  {
    hide Find, AfterPut;
    PutMoves(s, capacity, index, key);
    var r := AfterPut(s, capacity, index, key);
    forall a, b | 0 <= a < b < |r| ensures use'(r[a].index) > use'(r[b].index) {
      assert r[b] == s[b - 1] && use'(r[b].index) == use(s[b - 1].index);
      if a > 0 {
        assert r[a] == s[a - 1] && use'(r[a].index) == use(s[a - 1].index);
      }
    }
  }

  lemma NewLeavesOut(s: seq<Item>, capacity: nat, use: nat -> nat, use': nat -> nat, index: nat, key: Bytes, now: nat, t: nat)
    requires IsLru(s, capacity, use) && 0 < capacity && |s| <= capacity && !Has(s, index) && UsedNow(use, use', index, now)
    requires t != index && use(t) > 0 && !Has(AfterPut(s, capacity, index, key), t)
    ensures LeftOut(AfterPut(s, capacity, index, key), capacity, use', t)
  {
    hide Find, AfterPut;
    PutMoves(s, capacity, index, key);
    var r := AfterPut(s, capacity, index, key);
    if Has(s, t) {
      KeptInPut(s, capacity, index, key, t);
    }
    forall j | 0 <= j < |r| ensures use'(t) < use'(r[j].index) {
      if j > 0 {
        assert r[j] == s[j - 1] && use(t) < use(s[j - 1].index);
      }
    }
  }

  /** A put drops nothing but the last item of a full cache. */
  lemma KeptInPut(s: seq<Item>, capacity: nat, index: nat, key: Bytes, t: nat)
    requires !Has(s, index) && Has(s, t)
    ensures Find(s, t) < |s| - 1 || |s| < capacity ==> Has(AfterPut(s, capacity, index, key), t)
  {
    if Find(s, t) < |s| - 1 || |s| < capacity {
      assert AfterPut(s, capacity, index, key)[Find(s, t) + 1] == s[Find(s, t)];
    }
  }

  lemma RekeyKeepsLru(s: seq<Item>, capacity: nat, use: nat -> nat, index: nat, key: Bytes)
    requires IsLru(s, capacity, use) && Has(s, index)
    ensures IsLru(AfterPut(s, capacity, index, key), capacity, use)
  {
    hide Find;
    var r := AfterPut(s, capacity, index, key);
    assert |r| == |s| && forall j :: 0 <= j < |r| ==> r[j].index == s[j].index;
    forall t: nat ensures Has(r, t) <==> Has(s, t) { SameIndices(r, s, t); }
  }

  lemma SameIndices(r: seq<Item>, s: seq<Item>, t: nat)
    requires |r| == |s| && forall j :: 0 <= j < |r| ==> r[j].index == s[j].index
    ensures Find(r, t) == Find(s, t)
  {
    FindIs(r, t, Find(s, t));
  }

  lemma LruExtensional(s: seq<Item>, capacity: nat, use: nat -> nat, use': nat -> nat)
    requires IsLru(s, capacity, use) && forall t: nat :: use'(t) == use(t)
    ensures IsLru(s, capacity, use')
  {
    hide Find;
  }

  /** After any run the cache holds the most recently used indices in order. */
  lemma {:induction false} ReplayIsLru(capacity: nat, ops: seq<Op>)
    requires capacity > 0
    ensures IsLru(Replay([], capacity, ops).0, capacity, t => LastUse(capacity, ops, t))
  {
    hide AfterGet, AfterPut, IsLru, Find, IsCache;
    if ops == [] || ops[|ops| - 1].PurgeOp? {
      NothingUsed(capacity, t => LastUse(capacity, ops, t));
    } else {
      var before := ops[..|ops| - 1];
      var s := Replay([], capacity, before).0;
      var use, use' := t => LastUse(capacity, before, t), t => LastUse(capacity, ops, t);
      ReplayIsLru(capacity, before);
      FewerThan(capacity, before);
      match ops[|ops| - 1] {
        case GetOp(index) =>
          if Has(s, index) {
            GetKeepsLru(s, capacity, use, use', index, |ops|);
          } else {
            MissKeeps(s, index);
            LruExtensional(s, capacity, use, use');
          }
        case PutOp(index, key) =>
          if !AesKeyLen(|key|) {
            LruExtensional(s, capacity, use, use');
          } else if Has(s, index) {
            RekeyKeepsLru(s, capacity, use, index, key);
            LruExtensional(AfterPut(s, capacity, index, key), capacity, use, use');
          } else {
            NewKeepsLru(s, capacity, use, use', index, key, |ops|);
          }
      }
    }
  }

  lemma MissKeeps(s: seq<Item>, index: nat)
    requires !Has(s, index)
    ensures AfterGet(s, index) == s
  {
  }

  lemma NothingUsed(capacity: nat, use: nat -> nat)
    requires forall t: nat :: use(t) == 0
    ensures IsLru([], capacity, use)
  {
  }

  lemma FewerThan(capacity: nat, ops: seq<Op>)
    requires capacity > 0
    ensures |Replay([], capacity, ops).0| <= capacity
  {
    ReplayIsCache(capacity, ops);
  }

  /** Enough other indices were used after t to fill the cache. */
  ghost predicate Displaced(capacity: nat, ops: seq<Op>, t: nat) {
    exists us: seq<nat> :: |us| == capacity && NoDuplicates(us)
                           && forall i :: 0 <= i < |us| ==> LastUse(capacity, ops, us[i]) > LastUse(capacity, ops, t)
  }

  /** After any run an index is cached exactly if it has been used since the last purge and not been displaced. */
  lemma CachedExactly(capacity: nat, ops: seq<Op>, t: nat)
    requires capacity > 0
    ensures Has(Replay([], capacity, ops).0, t) <==> LastUse(capacity, ops, t) > 0 && !Displaced(capacity, ops, t)
  {
    hide Find, LastUse, Replay, IsLru;
    var s, use := Replay([], capacity, ops).0, u => LastUse(capacity, ops, u);
    ReplayIsLru(capacity, ops);
    FewerThan(capacity, ops);
    if Has(s, t) {
      LruCached(s, capacity, use, t);
    } else if use(t) > 0 {
      var us := LruLeftOut(s, capacity, use, t);
    } else {
      LruUsed(s, capacity, use, t);
    }
  }

  lemma LruUsed(s: seq<Item>, capacity: nat, use: nat -> nat, t: nat)
    requires IsLru(s, capacity, use)
    ensures Has(s, t) ==> use(t) > 0
  {
    hide Find;
  }

  lemma LruCached(s: seq<Item>, capacity: nat, use: nat -> nat, t: nat)
    requires IsLru(s, capacity, use) && |s| <= capacity && Has(s, t)
    ensures use(t) > 0
    ensures forall us: seq<nat> :: NoDuplicates(us) && (forall i :: 0 <= i < |us| ==> use(us[i]) > use(t)) ==> |us| < capacity
  {
    hide Find;
    var p := Find(s, t);
    forall us: seq<nat> | NoDuplicates(us) && forall i :: 0 <= i < |us| ==> use(us[i]) > use(t) ensures |us| < capacity {
      forall i | 0 <= i < |us| ensures Find(s, us[i]) < p {
        UsedLater(s, capacity, use, t, us[i]);
      }
      Pigeonhole(s, us, p);
    }
  }

  lemma UsedLater(s: seq<Item>, capacity: nat, use: nat -> nat, t: nat, u: nat)
    requires IsLru(s, capacity, use) && Has(s, t) && use(u) > use(t)
    ensures Find(s, u) < Find(s, t)
  {
    hide Find;
    assert !LeftOut(s, capacity, use, u) by { assert use(s[Find(s, t)].index) == use(t); }
  }

  lemma LruLeftOut(s: seq<Item>, capacity: nat, use: nat -> nat, t: nat) returns (us: seq<nat>)
    requires IsLru(s, capacity, use) && !Has(s, t) && use(t) > 0
    ensures |us| == capacity && NoDuplicates(us) && forall i :: 0 <= i < |us| ==> use(us[i]) > use(t)
  {
    hide Find;
    us := seq(|s|, i requires 0 <= i < |s| => s[i].index);
    forall i, j | 0 <= i < j < |us| ensures us[i] != us[j] {
      assert use(s[i].index) > use(s[j].index);
    }
  }

  /** What a get answers after any run: the key last put, exactly if the index is still cached. */
  lemma GetAnswers(capacity: nat, ops: seq<Op>, t: nat)
    requires capacity > 0
    ensures Replay([], capacity, ops + [GetOp(t)]).1[|ops|] ==
            if LastUse(capacity, ops, t) > 0 && !Displaced(capacity, ops, t) && LastPut(ops, t).Some?
            then Reply(Some(Gcm(LastPut(ops, t).value)), LastPut(ops, t)) else Reply(None, None)
  {
    hide Find, AfterGet, LastUse, Displaced;
    assert (ops + [GetOp(t)])[..|ops|] == ops;
    CachedExactly(capacity, ops, t);
    ReplayIsCache(capacity, ops);
    var s := Replay([], capacity, ops).0;
    assert Has(s, t) ==> LastPut(ops, t) == Some(s[Find(s, t)].key);
  }

  /** Different indices have different positions. */
  lemma {:induction false} Pigeonhole(s: seq<Item>, us: seq<nat>, p: nat)
    requires NoDuplicates(us) && p <= |s| && forall i :: 0 <= i < |us| ==> Find(s, us[i]) < p
    ensures |us| <= p
  {
    hide Find;
    if us != [] {
      assert Find(s, us[0]) < p;
      if i :| 0 <= i < |us| && Find(s, us[i]) == p - 1 {
        var rest := us[..i] + us[i + 1..];
        forall j | 0 <= j < |rest| ensures Find(s, rest[j]) < p - 1 {
          assert rest[j] == us[if j < i then j else j + 1];
        }
        Pigeonhole(s, rest, p - 1);
      } else {
        Pigeonhole(s, us, p - 1);
      }
    }
  }

  /** A put of a new index into a full cache drops exactly the index whose last use lies furthest back. */
  lemma EvictsLeastRecent(capacity: nat, ops: seq<Op>, index: nat, key: Bytes, t: nat)
    requires capacity > 0 && AesKeyLen(|key|)
    requires !Has(Replay([], capacity, ops).0, index) && Has(Replay([], capacity, ops).0, t)
    ensures Has(Replay([], capacity, ops + [PutOp(index, key)]).0, t) <==>
            || |Replay([], capacity, ops).0| < capacity
            || exists u: nat :: Has(Replay([], capacity, ops).0, u) && LastUse(capacity, ops, u) < LastUse(capacity, ops, t)
  {
    hide Find, LastUse, AfterPut, IsLru;
    assert (ops + [PutOp(index, key)])[..|ops|] == ops;
    ReplayIsLru(capacity, ops);
    ReplayIsCache(capacity, ops);
    EvictsLast(Replay([], capacity, ops).0, capacity, u => LastUse(capacity, ops, u), index, key, t);
  }

  lemma EvictsLast(s: seq<Item>, capacity: nat, use: nat -> nat, index: nat, key: Bytes, t: nat)
    requires 0 < capacity && |s| <= capacity && IsLru(s, capacity, use) && !Has(s, index) && Has(s, t)
    ensures Has(AfterPut(s, capacity, index, key), t) <==>
            |s| < capacity || exists u: nat :: Has(s, u) && use(u) < use(t)
  {
    hide Find, AfterPut;
    KeptInPut(s, capacity, index, key, t);
    HasAt(s, |s| - 1);
    if |s| == capacity {
      DroppedInPut(s, capacity, index, key);
    }
  }

  lemma HasAt(s: seq<Item>, i: nat)
    requires i < |s|
    ensures Has(s, s[i].index)
  {
  }

  lemma DroppedInPut(s: seq<Item>, capacity: nat, index: nat, key: Bytes)
    requires |s| == capacity > 0 && !Has(s, index) && forall i, j :: 0 <= i < j < |s| ==> s[i].index != s[j].index
    ensures !Has(AfterPut(s, capacity, index, key), s[|s| - 1].index)
  {
    HasAt(s, |s| - 1);
  }

  method Perform(c: Cache, op: Op) returns (reply: Reply)
    requires c.Valid()
    modifies c.Repr
    ensures c.Valid() && fresh(c.Repr - old(c.Repr))
    ensures (c.abs, reply) == Next(old(c.abs), c.capacity, op)
  {
    hide Cache.Linked, Cache.Indexed, Cache.Keyed, Cache.Abstracts, EntryAt, AfterGet, AfterPut, Find;
    match op {
      case GetOp(index) =>
        var aead, key, ok := c.Get(index);
        return if ok then Reply(aead, Some(key)) else Reply(None, None);
      case PutOp(index, key) =>
        var aead := c.Put(index, key);
        return Reply(aead, None);
      case PurgeOp =>
        c.Purge();
        return Reply(None, None);
    }
  }

  /** Any run of calls on a new cache replies exactly as the reference does. */
  method Run(capacity: int, ops: seq<Op>) returns (c: Cache, replies: seq<Reply>)
    ensures c.Valid() && (c.abs, replies) == Replay([], c.capacity, ops)
  {
    hide Cache.Valid;
    c := new Cache(capacity);
    replies := [];
    for i := 0 to |ops|
      invariant c.Valid() && fresh(c.Repr) && (c.abs, replies) == Replay([], c.capacity, ops[..i])
    {
      assert ops[..i + 1][..i] == ops[..i];
      var reply := Perform(c, ops[i]);
      replies := replies + [reply];
    }
    assert ops[..|ops|] == ops;
  }

  /** The sequence without element i. */
  function Without<T>(s: seq<T>, i: nat): (r: seq<T>)
    requires i < |s|
    ensures |r| == |s| - 1
  {
    s[..i] + s[i + 1..]
  }

  lemma SameEntries(list: seq<Entry>, i: nat)
    requires i < |list|
    ensures forall x :: x in ToFront(list, i) <==> x in list
  {
    forall x | x in list ensures x in ToFront(list, i) {
      var j :| 0 <= j < |list| && list[j] == x;
      assert ToFront(list, i)[if j == i then 0 else if j < i then j + 1 else j] == x;
    }
  }

  ghost predicate Distinct(list: seq<Entry>) {
    forall i, j :: 0 <= i < j < |list| ==> list[i] != list[j]
  }

  lemma StillDistinct(list: seq<Entry>, i: nat)
    requires Distinct(list) && i < |list|
    ensures Distinct(Without(list, i)) && list[i] !in Without(list, i)
  {
  }

  ghost function EntryAt(list: seq<Entry>, i: int): Entry? {
    if 0 <= i < |list| then list[i] else null
  }
}
