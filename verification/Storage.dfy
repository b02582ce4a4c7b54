/**
 The in-memory storage: a list of packets sorted by the octets of their full names, a pool of free entry objects whose
 total is the capacity, and the cleanup index of the replacement policy.
 */
module Storage {
  import opened Wrappers
  import opened Names
  import opened WireNames
  import opened Matching
  import opened PacketIndex
  import opened Cleanup

  const MIN_CAPACITY := 16

  /** End of the run of packets from `k` on whose Data name starts with `prefix`. */
  function RunEnd(es: seq<Entry>, prefix: Name, k: nat): (r: nat)
    requires k <= |es|
    ensures k <= r <= |es|
    ensures forall i | k <= i < r :: prefix <= es[i].data.name
    ensures r < |es| ==> !(prefix <= es[r].data.name)
    decreases |es| - k
  {
    if k < |es| && prefix <= es[k].data.name then RunEnd(es, prefix, k + 1) else k
  }

  /** Every stored packet whose name has the prefix holds it in the same octets. */
  predicate PrefixSameForm(es: seq<Entry>, prefix: Name, key: Key) {
    forall e | e in es && prefix <= e.data.name :: key <= e.wires
  }

  /** The run that prefix erasure removes. */
  function Run(es: seq<Entry>, prefix: Name, key: Key): (nat, nat) {
    var k := LowerBound(es, key);
    (k, RunEnd(es, prefix, k))
  }

  /**
   Where packets hold the prefix in its own octets, the run that prefix erasure removes is exactly
   the packets whose Data name has the prefix, unless the prefix is itself a stored full name and
   there are such packets: then it is empty.
   */
  lemma EraseIsExactIff(es: seq<Entry>, prefix: Name, key: Key)
    requires Sorted(es) && Spells(key, prefix) && PrefixSameForm(es, prefix, key)
    ensures var (k, end) := Run(es, prefix, key);
            (forall i | 0 <= i < |es| :: k <= i < end <==> prefix <= es[i].data.name) <==>
            !(HasKey(es, key) && exists i | 0 <= i < |es| :: prefix <= es[i].data.name)
  {
    hide KeyLess, FullName, KeyOf, AllWires, NameOf;
    var (k, end) := Run(es, prefix, key);
    KeyAtLowerBound(es, key);
    if HasKey(es, key) {
      OwnNameTooShort(es[k], prefix, key);
    } else {
      forall i | 0 <= i < |es| && prefix <= es[i].data.name
        ensures k <= i < end
      {
        ErasedWithRun(es, prefix, key, i);
      }
    }
  }

  /** A packet that holds the prefix in its own octets is in the run, unless the prefix is a stored full name. */
  lemma ErasedWithRun(es: seq<Entry>, prefix: Name, key: Key, i: nat)
    requires Sorted(es) && Spells(key, prefix) && !HasKey(es, key)
    requires i < |es| && key <= es[i].wires
    ensures var (k, end) := Run(es, prefix, key); k <= i < end
  {
    hide KeyLess, FullName, AllWires, NameOf;
    var (k, end) := Run(es, prefix, key);
    PrefixNotBefore(es, key, i);
    if end <= i {
      PrefixRun(es, key, end, i);
      WiresPrefixIsPrefix(es[end], prefix, key);
    }
  }

  lemma OwnNameTooShort(e: Entry, prefix: Name, key: Key)
    requires Kept(e) && Spells(key, prefix) && KeyOf(e) == key
    ensures !(prefix <= e.data.name)
  {
  }

  lemma WiresPrefixIsPrefix(e: Entry, prefix: Name, key: Key)
    requires Kept(e) && Spells(key, prefix) && key <= KeyOf(e) && key != KeyOf(e)
    ensures prefix <= e.data.name
  {
    assert key <= e.wires;
    PrefixSpelled(key, e.wires);
  }

  /** The packet goes with the prefix, whatever else is stored short of the prefix itself. */
  ghost predicate ErasedFromEveryStore(e: Entry, prefix: Name, key: Key) {
    forall es, i | Sorted(es) && 0 <= i < |es| && es[i] == e && !HasKey(es, key) ::
      var (k, end) := Run(es, prefix, key); k <= i < end
  }

  /** A packet named under the prefix is erased from every store exactly if it holds the prefix's own octets. */
  lemma ErasedFromEveryStoreIff(e: Entry, prefix: Name, key: Key)
    requires Kept(e) && Spells(key, prefix) && prefix <= e.data.name
    ensures ErasedFromEveryStore(e, prefix, key) <==> key <= e.wires
  {
    hide KeyLess, FullName, AllWires, NameOf, Sorted;
    if key <= e.wires {
      forall es, i | Sorted(es) && 0 <= i < |es| && es[i] == e && !HasKey(es, key)
        ensures var (k, end) := Run(es, prefix, key); k <= i < end
      {
        ErasedWithRun(es, prefix, key, i);
      }
    } else {
      NameWithinFullName(e.data, prefix);
      var es := Misleading(e, prefix, key);
      MisledErasure(es, e, prefix, key);
    }
  }

  lemma NameWithinFullName(d: Data, prefix: Name)
    requires prefix <= d.name
    ensures prefix <= FullName(d)
  {
  }

  lemma MisledErasure(es: seq<Entry>, e: Entry, prefix: Name, key: Key)
    requires Spells(key, prefix) && Misleads(es, e, prefix, key)
    ensures !ErasedFromEveryStore(e, prefix, key)
  {
    hide KeyLess, AllWires, NameOf;
    var (k, end) := Run(es, prefix, key);
    KeyAtLowerBound(es, key);
    if k == 0 {
      if prefix <= es[0].data.name {
        NameWithinFullName(es[0].data, prefix);
      }
      assert !HasKey(es, key) by {
        if KeyOf(es[0]) == key {
          SpelledPrefix(es[0], prefix, key);
        }
      }
      assert es[2] == e && !(k <= 2 < end);
    } else {
      assert es[0] == e && !HasKey(es, key) && !(k <= 0 < end);
    }
  }

  /** A capacity the storage can have: a limit below the minimum is exceeded once an erasure has shrunk it. */
  predicate CapacityOk(capacity: nat, limit: nat) {
    if capacity < MIN_CAPACITY then capacity == limit else capacity <= limit || capacity == MIN_CAPACITY
  }

  class InMemoryStorage {
    const policy: Policy
    const limit: nat
    var cache: seq<Entry>
    var capacity: nat
    var nPackets: nat
    var freeEntries: seq<nat>
    var nextId: nat
    var cleanupIndex: seq<Slot>
    ghost var log: Log

    /** What holds even while the capacity is being changed. */
    ghost predicate Consistent()
      reads this
    {
      && Sorted(cache)
      && EntriesApart(cache, freeEntries, nextId)
      && nPackets == |cache|
      && Possible(policy, log)
      && cleanupIndex == IndexAfter(policy, log)
      && forall id :: InUse(log, id) <==> InCache(cache, id)
    }

    ghost predicate Valid()
      reads this
    {
      && Consistent()
      && |cache| + |freeEntries| == capacity
      && CapacityOk(capacity, limit)
    }

    /** `init`. */
    constructor (policy: Policy, limit: nat)
      ensures Valid() && this.policy == policy && this.limit == limit
      ensures cache == [] && capacity == (if limit < MIN_CAPACITY then limit else MIN_CAPACITY) && log == []
    {
      this.policy, this.limit := policy, limit;
      cache, nPackets, cleanupIndex, log := [], 0, [], [];
      var start := if limit < MIN_CAPACITY then limit else MIN_CAPACITY;
      capacity, nextId := start, start;
      freeEntries := seq(start, i => i);
    }

    /** `freeEntry` together with the removal from the cleanup index that goes with it. */
    method FreeEntry(k: nat, e: Event)
      requires Consistent() && k < |cache|
      requires e == Erased(cache[k].id) || (e == Evicted(cache[k].id) && Victim(policy, cleanupIndex, e.id))
      modifies this
      ensures Consistent() && capacity == old(capacity) && nextId == old(nextId)
      ensures cache == RemoveAt(old(cache), k) && log == old(log) + [e]
      ensures freeEntries == old(freeEntries) + [old(cache)[k].id]
    {
      hide InUse, Possible, IndexAfter, KeyLess, KeyOf, Victim;
      RemoveAtSorted(cache, k);
      ApartAfterRemoval(cache, freeEntries, nextId, k);
      LogStep(policy, log, e);
      assert InCache(cache, cache[k].id);
      freeEntries := freeEntries + [cache[k].id];
      nPackets := nPackets - 1;
      cleanupIndex := Without(cleanupIndex, cache[k].id);
      cache := RemoveAt(cache, k);
      log := log + [e];
    }

    /** `evictItem` of the three policies; it fails only on an empty storage. */
    method EvictItem() returns (evicted: bool)
      requires Consistent()
      modifies this
      ensures Consistent() && capacity == old(capacity) && nextId == old(nextId)
      ensures evicted <==> old(cache) != []
      ensures evicted ==> exists k | 0 <= k < |old(cache)| ::
                && cache == RemoveAt(old(cache), k)
                && log == old(log) + [Evicted(old(cache)[k].id)]
                && freeEntries == old(freeEntries) + [old(cache)[k].id]
      ensures !evicted ==> cache == old(cache) && log == old(log) && freeEntries == old(freeEntries)
    {
      hide InUse, Possible, IndexAfter, KeyLess, KeyOf, Sorted, EntriesApart;
      IndexIsInUse(policy, log);
      assert cache != [] ==> InCache(cache, cache[0].id) && Indexed(cleanupIndex, cache[0].id);
      if cleanupIndex == [] {
        return false;
      }
      var slot := cleanupIndex[0];
      if policy.Lfu? {
        LeastFrequent(cleanupIndex);
        slot :| slot in cleanupIndex && forall t | t in cleanupIndex :: slot.frequency <= t.frequency;
      }
      assert Victim(policy, cleanupIndex, slot.id);
      assert Indexed(cleanupIndex, slot.id);
      assert InCache(cache, slot.id);
      var k :| 0 <= k < |cache| && cache[k].id == slot.id;
      FreeEntry(k, Evicted(slot.id));
      return true;
    }

    /**
     `setCapacity`. Evictions bring the packets down to the new capacity and never fail, so the
     error for that is never thrown; the pool then grows or shrinks to match.
     */
    method SetCapacity(newCapacity: nat)
      requires Consistent() && |cache| + |freeEntries| == capacity
      modifies this
      ensures Consistent() && |cache| + |freeEntries| == capacity
      ensures capacity == if newCapacity < MIN_CAPACITY then MIN_CAPACITY else newCapacity
      ensures |cache| == if old(|cache|) < capacity then old(|cache|) else capacity
      ensures |cache| == old(|cache|) ==> cache == old(cache) && log == old(log)
    {
      hide InUse, Possible, IndexAfter, KeyLess, KeyOf, Sorted, EntriesApart;
      var oldCapacity := capacity;
      capacity := if newCapacity < MIN_CAPACITY then MIN_CAPACITY else newCapacity;
      while |cache| > capacity
        invariant Consistent() && capacity == if newCapacity < MIN_CAPACITY then MIN_CAPACITY else newCapacity
        invariant |cache| + |freeEntries| == oldCapacity
        invariant |cache| <= old(|cache|) && (|cache| >= capacity || |cache| == old(|cache|))
        invariant |cache| == old(|cache|) ==> cache == old(cache) && log == old(log)
      {
        var evicted := EvictItem();
        assert evicted;
      }
      AdjustPool(oldCapacity);
    }

    /** The two loops of `setCapacity` that allocate or delete free entry objects. */
    method AdjustPool(oldCapacity: nat)
      requires Consistent() && |cache| + |freeEntries| == oldCapacity && |cache| <= capacity
      modifies `freeEntries, `nextId
      ensures Consistent() && |cache| + |freeEntries| == capacity
    {
      hide InUse, Possible, IndexAfter, KeyLess, KeyOf, Sorted;
      if capacity >= oldCapacity {
        for i := oldCapacity to capacity
          invariant Consistent() && |cache| + |freeEntries| == i
        {
          freeEntries := freeEntries + [nextId];
          nextId := nextId + 1;
        }
      } else {
        for i := oldCapacity downto capacity
          invariant Consistent() && |cache| + |freeEntries| == i
        {
          freeEntries := freeEntries[..|freeEntries| - 1];
        }
      }
    }

    /** Takes an entry from the pool, fills it and files it, as `insert` does once there is room. */
    method AddEntry(data: Data, wires: Key) returns (id: nat)
      requires Consistent() && freeEntries != [] && Spells(wires, data.name)
      requires !HasKey(cache, wires + [DigestWire(data.digest)])
      modifies this
      ensures Consistent() && capacity == old(capacity)
      ensures cache == InsertSorted(old(cache), Entry(id, data, wires, true))
      ensures log == old(log) + [Inserted(id)]
      ensures freeEntries == old(freeEntries)[..|old(freeEntries)| - 1]
    {
      hide InUse, Possible, IndexAfter, KeyLess, KeyOf, InsertAt, AllWires, NameOf;
      id := freeEntries[|freeEntries| - 1];
      var e := Entry(id, data, wires, true);
      InsertedKey(data, wires);
      InsertSortedSorted(cache, e);
      var k := LowerBound(cache, KeyOf(e));
      ApartAfterInsertion(cache, freeEntries, nextId, k, e);
      InCacheAfterInsertion(cache, k, e);
      assert !InCache(cache, id);
      LogStep(policy, log, Inserted(id));
      freeEntries := freeEntries[..|freeEntries| - 1];
      nPackets := nPackets + 1;
      cache := InsertSorted(cache, e);
      cleanupIndex := cleanupIndex + [Slot(id, 0)];
      log := log + [Inserted(id)];
    }

    /** The packet is newly filed and nothing but possibly one victim of the policy is gone. */
    twostate predicate Inserts(data: Data, wires: Key, id: nat)
      reads this
    {
      if old(|cache| < capacity || capacity < limit) then
        && cache == InsertSorted(old(cache), Entry(id, data, wires, true))
        && log == old(log) + [Inserted(id)]
      else
        exists k | 0 <= k < |old(cache)| ::
          && cache == InsertSorted(RemoveAt(old(cache), k), Entry(id, data, wires, true))
          && log == old(log) + [Evicted(old(cache)[k].id)] + [Inserted(id)]
    }

    /**
     `insert`. A full storage doubles its capacity up to the limit, and at the limit evicts; either
     way a free entry is there to take, unless the capacity is zero or, as after an erasure under a
     limit below the minimum, beyond the limit: a full storage then neither grows nor evicts, and the
     assertion that the pool is not empty fails.
     */
    method Insert(data: Data, wires: Key) returns (ok: bool)
      requires Valid() && Spells(wires, data.name)
      modifies this
      ensures Valid()
      ensures var known := HasKey(old(cache), wires + [DigestWire(data.digest)]);
              && (ok <==> known || old(|cache| < capacity || 0 < capacity <= limit))
              && (known || !ok ==> cache == old(cache) && log == old(log) && capacity == old(capacity))
              && (!known && ok ==> exists id :: Inserts(data, wires, id))
              && capacity == if !known && old(|cache| == capacity < limit)
                             then (if 2 * old(capacity) < limit then 2 * old(capacity) else limit)
                             else old(capacity)
    {
      hide InUse, Possible, IndexAfter, KeyLess, Sorted, EntriesApart, InsertSorted, LowerBound, AllWires, NameOf;
      var key := wires + [DigestWire(data.digest)];
      InsertedKey(data, wires);
      KeyAtLowerBound(cache, key);
      var k := LowerBound(cache, key);
      if k < |cache| && KeyOf(cache[k]) == key {
        return true;
      }
      var doesReachLimit := limit == capacity;
      if nPackets >= capacity && !doesReachLimit {
        SetCapacity(if 2 * capacity < limit then 2 * capacity else limit);
      }
      if nPackets >= capacity && doesReachLimit {
        var _ := EvictItem();
        assert !HasKey(cache, key);
      }
      if freeEntries == [] {
        return false;
      }
      var id := AddEntry(data, wires);
      assert Inserts(data, wires, id);
      return true;
    }

    /** `afterAccess`. */
    method AfterAccess(id: nat)
      requires Consistent() && InCache(cache, id)
      modifies `cleanupIndex, `log
      ensures Consistent() && log == old(log) + [Accessed(id)]
    {
      hide InUse, Possible, IndexAfter, KeyLess, KeyOf, Sorted, EntriesApart;
      LogStep(policy, log, Accessed(id));
      cleanupIndex := Apply(policy, cleanupIndex, Accessed(id));
      log := log + [Accessed(id)];
    }

    /** The timer set by `insert` fires: the packet no longer counts as fresh. */
    method MarkStale(k: nat)
      requires Valid() && k < |cache|
      modifies `cache
      ensures Valid() && cache == Staled(old(cache), k)
    {
      hide InUse, Possible, IndexAfter, Sorted, EntriesApart, InCache, Staled;
      StaledKeeps(cache, freeEntries, nextId, k);
      cache := Staled(cache, k);
    }

    /**
     `find(Name)`: the packet at the lower bound of the name's octets, if the name is a prefix of its
     full name. No packet that holds the name in these octets comes before it, or is there when none
     is returned.
     */
    method FindName(name: Name, key: Key) returns (r: Option<Data>)
      requires Valid() && Spells(key, name)
      modifies `cleanupIndex, `log
      ensures Valid()
      ensures r.Some? ==> exists k | 0 <= k < |cache| ::
                && r.value == cache[k].data && log == old(log) + [Accessed(cache[k].id)]
                && name <= FullName(cache[k].data)
                && forall i | 0 <= i < k :: KeyLess(KeyOf(cache[i]), key) && !(key <= KeyOf(cache[i]))
      ensures r.None? ==> log == old(log) && forall e | e in cache :: !(key <= KeyOf(e))
    {
      hide InUse, Possible, IndexAfter, KeyLess, KeyOf, EntriesApart, FullName, AllWires, NameOf;
      var k := LowerBound(cache, key);
      if k == |cache| || !(name <= FullName(cache[k].data)) {
        forall e | e in cache
          ensures !(key <= KeyOf(e))
        {
          var i :| 0 <= i < |cache| && cache[i] == e;
          if key <= KeyOf(e) {
            PrefixNotBefore(cache, key, i);
            PrefixRun(cache, key, k, i);
            SpelledPrefix(cache[k], name, key);
          }
        }
        return None;
      }
      forall i | 0 <= i < k
        ensures !(key <= KeyOf(cache[i]))
      {
        if key <= KeyOf(cache[i]) {
          PrefixNotBefore(cache, key, i);
        }
      }
      assert InCache(cache, cache[k].id);
      AfterAccess(cache[k].id);
      return Some(cache[k].data);
    }

    /** `findNextFresh`. */
    method FindNextFresh(from: nat) returns (k: nat)
      requires from <= |cache|
      ensures from <= k <= |cache|
      ensures forall i | from <= i < k :: !cache[i].isFresh
      ensures k < |cache| ==> cache[k].isFresh
    {
      k := from;
      while k < |cache|
        invariant from <= k <= |cache|
        invariant forall i | from <= i < k :: !cache[i].isFresh
      {
        if cache[k].isFresh {
          return;
        }
        k := k + 1;
      }
    }

    /** `selectChild`: stale packets are skipped when freshness is asked for. */
    method SelectChild(q: Query, startingPoint: nat) returns (r: Option<nat>)
      requires startingPoint <= |cache|
      ensures r == SelectedFrom(cache, q, startingPoint)
    {
      hide FullName, MatchesData;
      var candidate := Candidate(q, startingPoint);
      if candidate == |cache| {
        return None;
      }
      if MatchesData(q, cache[candidate].data) {
        return Some(candidate);
      }
      while true
        invariant startingPoint <= candidate < |cache|
        invariant SelectedFrom(cache, q, startingPoint) == WalkRight(cache, q, candidate)
        decreases |cache| - candidate
      {
        candidate := Candidate(q, candidate + 1);
        if candidate == |cache| || !(q.name <= FullName(cache[candidate].data)) {
          break;
        }
        if MatchesData(q, cache[candidate].data) {
          return Some(candidate);
        }
      }
      return None;
    }

    /** The next packet to look at. */
    method Candidate(q: Query, from: nat) returns (c: nat)
      requires from <= |cache|
      ensures c == NextCandidate(cache, q, from)
    {
      if !q.mustBeFresh {
        return from;
      }
      c := FindNextFresh(from);
      FirstFresh(cache, q, from, c);
    }

    /** `find(Interest)`. A packet located by its full name is returned without `afterAccess`. */
    method FindInterest(q: Query, key: Key) returns (r: Option<Data>)
      requires Valid() && Spells(key, q.name)
      modifies `cleanupIndex, `log
      ensures Valid()
      ensures r == (match FindResult(cache, q, key) case None => None case Some(k) => Some(cache[k].data))
      ensures log == if HasKey(cache, key) || r.None? then old(log)
                     else old(log) + [Accessed(cache[FindResult(cache, q, key).value].id)]
      ensures r.Some? ==> AsksFor(q, r.value)
      ensures SameForm(cache, q, key) && !NamesStale(cache, q, key) ==>
                r == (match LinearScan(cache, q) case None => None case Some(k) =>
                        if k < |cache| then Some(cache[k].data) else None)
    {
      hide InUse, Possible, IndexAfter, KeyLess, KeyOf, EntriesApart, LinearScan, Satisfies, AllWires, NameOf,
        NamesStale, SameForm, AsksFor, SelectedFrom;
      KeyAtLowerBound(cache, key);
      FoundIsAskedFor(cache, q, key);
      if SameForm(cache, q, key) {
        FindIsLinearScanIff(cache, q, key);
      }
      var k := LowerBound(cache, key);
      if k < |cache| && KeyOf(cache[k]) == key {
        return Some(cache[k].data);
      }
      if k == |cache| {
        return None;
      }
      var found := SelectChild(q, if k == 0 then 0 else k - 1);
      if found.None? {
        return None;
      }
      assert InCache(cache, cache[found.value].id);
      AfterAccess(cache[found.value].id);
      return Some(cache[found.value].data);
    }

    /**
     `erase` by prefix: the run of packets from the lower bound whose Data name has the prefix goes,
     nothing is evicted, and a mostly empty storage halves its capacity.
     */
    method ErasePrefix(prefix: Name, key: Key)
      requires Valid() && Spells(key, prefix)
      modifies this
      ensures Valid()
      ensures var (k, end) := Run(old(cache), prefix, key); cache == Cut(old(cache), k, end)
      ensures old(log) <= log && forall i | |old(log)| <= i < |log| :: log[i].Erased?
      ensures Shrinks()
    {
      hide InUse, Possible, IndexAfter, KeyLess, KeyOf, Sorted, EntriesApart, Cut, RemoveAt;
      var k := LowerBound(cache, key);
      CutNothing(cache, k);
      ghost var end := RunEnd(cache, prefix, k);
      ghost var i := k;
      while k < |cache| && prefix <= cache[k].data.name
        invariant Consistent() && capacity == old(capacity)
        invariant k <= i <= end && cache == Cut(old(cache), k, i)
        invariant |cache| + |freeEntries| == capacity
        invariant old(log) <= log && forall i | |old(log)| <= i < |log| :: log[i].Erased?
        decreases |cache|
      {
        CutStep(old(cache), k, i);
        FreeEntry(k, Erased(cache[k].id));
        i := i + 1;
      }
      CutStep(old(cache), k, i);
      Shrink();
    }

    /** `erase` of one packet by its full name. */
    method EraseExact(key: Key)
      requires Valid() && AllWires(key)
      modifies this
      ensures Valid()
      ensures !HasKey(old(cache), key) ==> cache == old(cache) && log == old(log) && capacity == old(capacity)
      ensures HasKey(old(cache), key) ==>
                && LowerBound(old(cache), key) < |old(cache)|
                && cache == RemoveAt(old(cache), LowerBound(old(cache), key))
                && log == old(log) + [Erased(old(cache)[LowerBound(old(cache), key)].id)]
                && Shrinks()
    {
      hide InUse, Possible, IndexAfter, KeyLess, KeyOf, EntriesApart, AllWires;
      KeyAtLowerBound(cache, key);
      var k := LowerBound(cache, key);
      if k == |cache| || KeyOf(cache[k]) != key {
        return;
      }
      FreeEntry(k, Erased(cache[k].id));
      Shrink();
    }

    /** The capacity after an erasure that left the packets now stored. */
    twostate predicate Shrinks()
      reads this
    {
      capacity == if old(capacity) - |cache| > 2 * |cache| then HalvedCapacity(old(capacity)) else old(capacity)
    }

    /** The end of `erase`: halving never evicts, since the packets fit three times over. */
    method Shrink()
      requires Valid()
      modifies this
      ensures Valid() && Shrinks() && cache == old(cache) && log == old(log)
    {
      hide InUse, Possible, IndexAfter, KeyLess, KeyOf, Sorted, EntriesApart;
      if |freeEntries| > 2 * nPackets {
        SetCapacity(capacity / 2);
      }
    }
  }

  /** The list without the packets from `k` up to `i`. */
  function Cut(es: seq<Entry>, k: nat, i: nat): seq<Entry>
    requires k <= i <= |es|
  {
    es[..k] + es[i..]
  }

  lemma CutNothing(es: seq<Entry>, k: nat)
    requires k <= |es|
    ensures Cut(es, k, k) == es
  {
  }

  lemma CutStep(es: seq<Entry>, k: nat, i: nat)
    requires k <= i <= |es|
    ensures |Cut(es, k, i)| == |es| - i + k
    ensures i < |es| ==> Cut(es, k, i)[k] == es[i] && RemoveAt(Cut(es, k, i), k) == Cut(es, k, i + 1)
  {
  }

  function HalvedCapacity(capacity: nat): nat {
    if capacity / 2 < MIN_CAPACITY then MIN_CAPACITY else capacity / 2
  }

  /**
   From a capacity within the limit, the halved capacity is within the limit for every limit of at
   least the minimum capacity, and for a smaller one it never is.
   */
  lemma HalvingRespectsLimitIff(limit: nat)
    ensures (forall capacity | 0 <= capacity <= limit :: HalvedCapacity(capacity) <= limit) <==>
            limit >= MIN_CAPACITY
    ensures limit < MIN_CAPACITY ==> forall capacity | 0 <= capacity <= limit :: HalvedCapacity(capacity) > limit
  {
    assert limit < MIN_CAPACITY ==> HalvedCapacity(limit) > limit;
  }

  /** The list with the packet at `k` no longer fresh. */
  function Staled(es: seq<Entry>, k: nat): (r: seq<Entry>)
    requires k < |es|
    ensures |r| == |es|
  {
    es[k := es[k].(isFresh := false)]
  }

  lemma StaledKeeps(es: seq<Entry>, pool: seq<nat>, nextId: nat, k: nat)
    requires k < |es| && Sorted(es) && EntriesApart(es, pool, nextId)
    ensures var r := Staled(es, k);
            && Sorted(r) && EntriesApart(r, pool, nextId)
            && forall id :: InCache(r, id) <==> InCache(es, id)
  {
    hide KeyLess, DigestWire, Spells;
    var r := Staled(es, k);
    forall i | 0 <= i < |r|
      ensures r[i].id == es[i].id && KeyOf(r[i]) == KeyOf(es[i]) && Kept(r[i])
    {
      assert es[i] in es;
    }
    forall id
      ensures InCache(r, id) <==> InCache(es, id)
    {
      if InCache(es, id) {
        var i :| 0 <= i < |es| && es[i].id == id;
        assert r[i].id == id;
      }
    }
  }

  lemma {:induction false} FirstFresh(es: seq<Entry>, q: Query, from: nat, c: nat)
    requires q.mustBeFresh && from <= c <= |es| && (forall i | from <= i < c :: !es[i].isFresh)
    requires c < |es| ==> es[c].isFresh
    ensures NextCandidate(es, q, from) == c
    decreases c - from
  {
    if from < c {
      FirstFresh(es, q, from + 1, c);
    }
  }

  /** The key a packet is filed under. */
  lemma InsertedKey(data: Data, wires: Key)
    requires Spells(wires, data.name)
    ensures AllWires(wires + [DigestWire(data.digest)])
    ensures forall id, isFresh :: KeyOf(Entry(id, data, wires, isFresh)) == wires + [DigestWire(data.digest)]
  {
    hide DigestWire;
    KeySpells(Entry(0, data, wires, true));
  }
}
