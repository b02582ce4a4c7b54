/** The forwarder's Content Store: an ordered table of packets with a least-recently-used queue. */
module ContentStore {
  import opened Wrappers
  import opened Tlv
  import opened WireNames
  import opened Matching
  import opened PacketIndex
  import opened Cleanup
  import opened ContentRange

  // ---- placing a packet ----

  /** The first position whose packet does not come before `e`. */
  function PlaceOf(es: seq<Entry>, e: Entry): (k: nat)
    ensures k <= |es|
    ensures forall i | 0 <= i < k :: DataLess(es[i], e)
    ensures k < |es| ==> !DataLess(es[k], e)
  {
    if es == [] || !DataLess(es[0], e) then 0 else 1 + PlaceOf(es[1..], e)
  }

  /** Packets are equivalent in the order only if their full names have the same octets. */
  lemma DataLessConnected(a: Entry, b: Entry)
    requires Kept(a) && Kept(b)
    ensures KeyOf(a) == KeyOf(b) || DataLess(a, b) || DataLess(b, a)
    ensures KeyOf(a) == KeyOf(b) ==> !DataLess(a, b)
  {
    hide KeyLess, DigestWire, Memcmp;
    var x, y := DigestWire(a.data.digest), DigestWire(b.data.digest);
    KeyLessConnected(a.wires, b.wires);
    KeyLessIrreflexive(a.wires);
    MemcmpSelf(x);
    KeySpells(a);
    KeySpells(b);
    assert KeyOf(a)[|a.wires|] == x && KeyOf(b)[|b.wires|] == y;
    assert KeyOf(a)[..|a.wires|] == a.wires && KeyOf(b)[..|b.wires|] == b.wires;
    WireConnected(x, y);
  }

  lemma DataLessTransitive(a: Entry, b: Entry, c: Entry)
    requires DataLess(a, b) && DataLess(b, c)
    ensures DataLess(a, c)
  {
    hide KeyLess, DigestWire, Memcmp;
    if KeyLess(a.wires, b.wires) && KeyLess(b.wires, c.wires) {
      KeyLessTransitive(a.wires, b.wires, c.wires);
    }
    if a.wires == b.wires == c.wires {
      KeyLessIrreflexive(a.wires);
      MemcmpTransitive(DigestWire(a.data.digest), DigestWire(b.data.digest), DigestWire(c.data.digest));
    }
  }

  /** A packet is known exactly if it is the one at its place. */
  lemma KnownAtPlace(es: seq<Entry>, e: Entry)
    requires InOrder(es) && Kept(e)
    ensures var k := PlaceOf(es, e);
            && (HasKey(es, KeyOf(e)) <==> k < |es| && !DataLess(e, es[k]))
            && (k < |es| && !DataLess(e, es[k]) ==> KeyOf(es[k]) == KeyOf(e))
  {
    hide DataLess, KeyOf, Kept;
    var k := PlaceOf(es, e);
    if HasKey(es, KeyOf(e)) {
      var i :| 0 <= i < |es| && KeyOf(es[i]) == KeyOf(e);
      DataLessConnected(es[i], e);
      DataLessConnected(e, es[i]);
      if k < i {
        DataLessConnected(es[k], e);
        if DataLess(e, es[k]) {
          DataLessTransitive(e, es[k], es[i]);
        }
      }
    }
    if k < |es| {
      DataLessConnected(e, es[k]);
    }
  }

  lemma PlacedInOrder(es: seq<Entry>, e: Entry)
    requires InOrder(es) && Kept(e) && !HasKey(es, KeyOf(e))
    ensures InOrder(InsertAt(es, PlaceOf(es, e), e))
  {
    hide DataLess, KeyOf, Kept;
    var k := PlaceOf(es, e);
    KnownAtPlace(es, e);
    var more := InsertAt(es, k, e);
    forall i, j | 0 <= i < j < |more|
      ensures DataLess(more[i], more[j])
    {
      assert i < k ==> more[i] == es[i];
      assert i > k ==> more[i] == es[i - 1];
      assert j < k ==> more[j] == es[j];
      assert j > k ==> more[j] == es[j - 1];
      if i == k && k < j - 1 {
        DataLessTransitive(e, es[k], es[j - 1]);
      }
    }
  }

  lemma RemovedInOrder(es: seq<Entry>, k: nat)
    requires InOrder(es) && k < |es|
    ensures InOrder(RemoveAt(es, k))
  {
    hide DataLess, Kept;
    var rest := RemoveAt(es, k);
    assert forall i | 0 <= i < |rest| :: rest[i] == es[if i < k then i else i + 1];
  }

  /** The list with the freshness of one packet set. */
  function Refreshed(es: seq<Entry>, k: nat, isFresh: bool): (r: seq<Entry>)
    requires k < |es|
    ensures |r| == |es|
  {
    es[k := es[k].(isFresh := isFresh)]
  }

  lemma RefreshedKeeps(es: seq<Entry>, nextId: nat, k: nat, isFresh: bool)
    requires k < |es| && InOrder(es) && EntriesApart(es, [], nextId)
    ensures var r := Refreshed(es, k, isFresh);
            && InOrder(r) && EntriesApart(r, [], nextId)
            && forall id :: InCache(r, id) <==> InCache(es, id)
  {
    hide KeyLess, DigestWire, Spells, Memcmp;
    var r := Refreshed(es, k, isFresh);
    forall i | 0 <= i < |r|
      ensures r[i].id == es[i].id && r[i].wires == es[i].wires && r[i].data == es[i].data && Kept(r[i])
    {
      assert es[i] in es;
    }
    forall id
      ensures InCache(r, id) <==> InCache(es, id)
    {
      if InCache(es, id) {
        var i :| 0 <= i < |es| && es[i].id == id;
        assert r[i].id == id;
      }
    }
  }

  // ---- the store ----

  /** What a lookup ends in; it throws when the name asked for has no successor. */
  datatype Lookup = Hit(at: nat) | Miss | Threw

  class ContentStore {
    var limit: nat
    var shouldAdmit: bool
    var shouldServe: bool
    var table: seq<Entry>
    var nextId: nat
    var queue: seq<Slot>
    ghost var log: Log

    ghost predicate Consistent()
      reads this
    {
      && InOrder(table)
      && EntriesApart(table, [], nextId)
      && Possible(Lru, log)
      && queue == IndexAfter(Lru, log)
      && forall id :: InUse(log, id) <==> InCache(table, id)
    }

    ghost predicate Valid()
      reads this
    {
      Consistent() && |table| <= limit
    }

    constructor (limit: nat)
      ensures Valid() && this.limit == limit && shouldAdmit && shouldServe && table == [] && log == []
    {
      this.limit, shouldAdmit, shouldServe := limit, true, true;
      table, nextId, queue, log := [], 0, [], [];
    }

    /** One packet leaves the table and the queue. */
    method Remove(k: nat, e: Event)
      requires Consistent() && k < |table|
      requires e == Erased(table[k].id) || (e == Evicted(table[k].id) && Victim(Lru, queue, e.id))
      modifies `table, `queue, `log
      ensures Consistent() && table == RemoveAt(old(table), k) && log == old(log) + [e]
    {
      hide InUse, Possible, IndexAfter, DataLess, Kept, Victim;
      RemovedInOrder(table, k);
      ApartAfterRemoval(table, [], nextId, k);
      LogStep(Lru, log, e);
      assert InCache(table, table[k].id);
      queue := Without(queue, table[k].id);
      table := RemoveAt(table, k);
      log := log + [e];
    }

    /** `evictEntries`: from the front of the queue, until the table fits the limit. */
    method EvictEntries()
      requires Consistent()
      modifies `table, `queue, `log
      ensures Valid() && old(log) <= log && (forall i | |old(log)| <= i < |log| :: log[i].Evicted?)
      ensures |log| - |old(log)| == |old(table)| - |table|
      ensures |table| == if |old(table)| < limit then |old(table)| else limit
      ensures |old(table)| <= limit ==> table == old(table)
      ensures |old(table)| == limit + 1 ==> exists k | 0 <= k < |old(table)| ::
                table == RemoveAt(old(table), k) && log == old(log) + [Evicted(old(table)[k].id)]
    {
      hide InUse, Possible, IndexAfter, InOrder, EntriesApart;
      while |table| > limit
        invariant Consistent() && old(log) <= log && |log| - |old(log)| == |old(table)| - |table| >= 0
        invariant forall i | |old(log)| <= i < |log| :: log[i].Evicted?
        invariant |table| >= limit || |table| == |old(table)|
        invariant |old(table)| == |table| ==> table == old(table) && log == old(log)
        invariant |old(table)| == |table| + 1 ==> exists k | 0 <= k < |old(table)| ::
                    table == RemoveAt(old(table), k) && log == old(log) + [Evicted(old(table)[k].id)]
      {
        IndexIsInUse(Lru, log);
        assert InCache(table, table[0].id) && Indexed(queue, table[0].id);
        var oldest := queue[0].id;
        assert Indexed(queue, oldest) && InCache(table, oldest);
        var k :| 0 <= k < |table| && table[k].id == oldest;
        Remove(k, Evicted(oldest));
      }
    }

    /** `setLimit`. */
    method SetLimit(newLimit: nat)
      requires Valid()
      modifies `limit, `table, `queue, `log
      ensures Valid() && limit == newLimit
      ensures |table| == if |old(table)| < limit then |old(table)| else limit
      ensures old(log) <= log && (forall i | |old(log)| <= i < |log| :: log[i].Evicted?)
    {
      limit := newLimit;
      EvictEntries();
    }

    /** The packet moves to the back of the queue. */
    method Use(id: nat)
      requires Consistent() && InCache(table, id)
      modifies `queue, `log
      ensures Consistent() && log == old(log) + [Accessed(id)]
    {
      hide InUse, Possible, IndexAfter, InOrder, EntriesApart;
      LogStep(Lru, log, Accessed(id));
      queue := Apply(Lru, queue, Accessed(id));
      log := log + [Accessed(id)];
    }

    /** Files a packet that is not in the table yet. */
    method Add(e: Entry)
      requires Consistent() && Kept(e) && !HasKey(table, KeyOf(e)) && e.id == nextId
      modifies `table, `nextId, `queue, `log
      ensures Consistent() && log == old(log) + [Inserted(e.id)]
      ensures table == InsertAt(old(table), PlaceOf(old(table), e), e)
    {
      hide InUse, Possible, IndexAfter, DataLess, KeyOf, Kept, InsertAt, PlaceOf;
      var k := PlaceOf(table, e);
      PlacedInOrder(table, e);
      ApartAfterInsertion(table, [nextId], nextId + 1, k, e);
      InCacheAfterInsertion(table, k, e);
      assert !InCache(table, nextId);
      LogStep(Lru, log, Inserted(nextId));
      queue := queue + [Slot(nextId, 0)];
      log := log + [Inserted(nextId)];
      table := InsertAt(table, k, e);
      nextId := nextId + 1;
    }

    /** The packet is filed and, if the table was full, the victim of the policy is gone. */
    twostate predicate Inserts(e: Entry)
      reads this
    {
      var more := InsertAt(old(table), PlaceOf(old(table), e), e);
      if |more| <= limit then table == more && log == old(log) + [Inserted(e.id)]
      else exists k | 0 <= k < |more| ::
             table == RemoveAt(more, k) && log == old(log) + [Inserted(e.id)] + [Evicted(more[k].id)]
    }

    /** The packet that was there is fresh again and most recently used. */
    twostate predicate Refreshes(e: Entry)
      reads this
    {
      exists k | 0 <= k < |old(table)| ::
        && KeyOf(old(table)[k]) == KeyOf(e)
        && table == Refreshed(old(table), k, old(table)[k].data.freshnessPeriod >= 0)
        && log == old(log) + [Accessed(old(table)[k].id)]
    }

    /** `insert`; `noCache` when a tag on the packet forbids caching it. */
    method Insert(data: Data, wires: Key, noCache: bool)
      requires Valid() && Spells(wires, data.name)
      modifies `table, `nextId, `queue, `log
      ensures Valid()
      ensures var e := Entry(old(nextId), data, wires, data.freshnessPeriod >= 0);
              if !shouldAdmit || limit == 0 || noCache then table == old(table) && log == old(log)
              else if HasKey(old(table), KeyOf(e)) then Refreshes(e)
              else Inserts(e)
    {
      hide InUse, Possible, IndexAfter, DataLess, KeyOf, PlaceOf, InOrder, EntriesApart, Refreshed, InsertAt;
      if !shouldAdmit || limit == 0 || noCache {
        return;
      }
      var e := Entry(nextId, data, wires, data.freshnessPeriod >= 0);
      var k := PlaceOf(table, e);
      KnownAtPlace(table, e);
      if k < |table| && !DataLess(e, table[k]) {
        var id := table[k].id;
        RefreshedKeeps(table, nextId, k, table[k].data.freshnessPeriod >= 0);
        assert InCache(table, id);
        table := Refreshed(table, k, table[k].data.freshnessPeriod >= 0);
        Use(id);
      } else {
        Add(e);
        EvictEntries();
      }
    }

    /** Time passes the moment until which a packet is fresh. */
    method MarkStale(k: nat)
      requires Valid() && k < |table|
      modifies `table
      ensures Valid() && table == Refreshed(old(table), k, false)
    {
      hide InUse, Possible, IndexAfter, InOrder, EntriesApart, InCache, Refreshed;
      RefreshedKeeps(table, nextId, k, false);
      table := Refreshed(table, k, false);
    }

    /** What a lookup ends in on a table that may be served from. */
    function LookupResult(q: Query, key: Key): Lookup
      reads this
    {
      if !Succeeds(key) then Threw
      else match Found(table, q, key) case None => Miss case Some(k) => Hit(k)
    }

    /** The first packet in a range that satisfies the Interest. */
    method Seek(q: Query, first: nat, last: nat) returns (r: Option<nat>)
      requires first <= last <= |table|
      ensures var k := ScanFrom(table, q, first);
              r == if k.Some? && k.value < last then k else None
    {
      hide Satisfies;
      var i := first;
      while i != last
        invariant first <= i <= last
        invariant forall j | first <= j < i :: !Satisfies(q, table[j])
        decreases last - i
      {
        if Satisfies(q, table[i]) {
          ScanSkips(table, q, first, i);
          return Some(i);
        }
        i := i + 1;
      }
      ScanSkips(table, q, first, last);
      return None;
    }

    /** `findImpl`, for a query whose range runs forward: beyond that `std::find_if` is not defined. */
    method Find(q: Query, key: Key) returns (r: Lookup)
      requires Valid() && Spells(key, q.name)
      requires Succeeds(key) ==> SearchRange(table, key).0 <= SearchRange(table, key).1
      modifies `queue, `log
      ensures Valid()
      ensures r == if !shouldServe || limit == 0 then Miss else LookupResult(q, key)
      ensures log == if r.Hit? && r.at < |table| then old(log) + [Accessed(table[r.at].id)] else old(log)
    {
      hide InUse, Possible, IndexAfter, InOrder, EntriesApart, ScanFrom, Bound, Succeeds, Spells, NextKey;
      if !shouldServe || limit == 0 {
        return Miss;
      }
      if !Succeeds(key) {
        return Threw;
      }
      var first, last := Bound(table, key), |table|;
      if key != [] {
        last := Bound(table, NextKey(key));
      }
      var found := Seek(q, first, last);
      if found.None? {
        return Miss;
      }
      assert InCache(table, table[found.value].id);
      Use(table[found.value].id);
      return Hit(found.value);
    }

    /** `eraseImpl`: from the front of the range, at most `max` packets. */
    method Erase(key: Key, max: nat) returns (nErased: Option<nat>)
      requires Valid() && AllWires(key)
      requires Succeeds(key) ==> SearchRange(table, key).0 <= SearchRange(table, key).1
      modifies `table, `queue, `log
      ensures Valid()
      ensures nErased.Some? <==> Succeeds(key)
      ensures nErased.None? ==> table == old(table) && log == old(log)
      ensures nErased.Some? ==>
                var (first, last) := SearchRange(old(table), key);
                && nErased.value == (if last - first < max then last - first else max)
                && table == CutOut(old(table), first, nErased.value)
      ensures nErased.Some? ==>
                && old(log) <= log && |log| == |old(log)| + nErased.value
                && forall i | |old(log)| <= i < |log| :: log[i].Erased?
      ensures nErased.Some? && Forward(key) ==>
                && (forall e | e in old(table) && e !in table :: Covered(key, e))
                && (nErased.value < max ==> forall e | e in table :: !Covered(key, e))
    {
      hide InUse, Possible, IndexAfter, InOrder, EntriesApart, Bound, Succeeds, AllWires, Covered, Forward, CutOut,
        RemoveAt, NextKey;
      if !Succeeds(key) {
        return None;
      }
      var first, last := Bound(table, key), |table|;
      if key != [] {
        last := Bound(table, NextKey(key));
      }
      var n := 0;
      CutNothing(table, first);
      while first + n != last && n < max
        invariant n <= max && first + n <= last && Valid()
        invariant table == CutOut(old(table), first, n)
        invariant old(log) <= log && |log| == |old(log)| + n
        invariant forall i | |old(log)| <= i < |log| :: log[i].Erased?
        decreases max - n
      {
        CutOneMore(old(table), first, n);
        Remove(first, Erased(table[first].id));
        n := n + 1;
      }
      if Forward(key) {
        ErasedCovered(old(table), key, n);
      }
      return Some(n);
    }
  }

  /** The list without `n` packets from `k` on. */
  function CutOut(es: seq<Entry>, k: nat, n: nat): seq<Entry>
    requires k + n <= |es|
  {
    es[..k] + es[k + n..]
  }

  lemma CutNothing(es: seq<Entry>, k: nat)
    requires k <= |es|
    ensures CutOut(es, k, 0) == es
  {
  }

  lemma CutOneMore(es: seq<Entry>, k: nat, n: nat)
    requires k + n < |es|
    ensures var less := CutOut(es, k, n);
            |less| == |es| - n && RemoveAt(less, k) == CutOut(es, k, n + 1)
  {
  }

  /** Only packets that are covered go, and all of them if the whole range goes. */
  lemma ErasedCovered(es: seq<Entry>, key: Key, n: nat)
    requires InOrder(es) && AllWires(key) && Succeeds(key) && Forward(key)
    requires SearchRange(es, key).0 + n <= SearchRange(es, key).1 <= |es|
    ensures var (first, last) := SearchRange(es, key);
            var less := CutOut(es, first, n);
            && (forall e | e in es && e !in less :: Covered(key, e))
            && (first + n == last ==> forall e | e in less :: !Covered(key, e))
  {
    hide InOrder, SearchRange, Covered, Succeeds, Forward, AllWires;
    forall i | 0 <= i < |es|
      ensures var (first, last) := SearchRange(es, key);
              first <= i < last <==> Covered(key, es[i])
    {
      RangeIsCovered(es, key, i);
    }
    var first := SearchRange(es, key).0;
    var less := CutOut(es, first, n);
    forall i | 0 <= i < |es| && !(first <= i < first + n)
      ensures es[i] in less
    {
      assert less[if i < first then i else i - n] == es[i];
    }
  }
}
