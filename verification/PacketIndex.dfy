/**
 Packets in the order of the octets of their full names, as the in-memory storage keeps them, and
 what its searches find in that order.
 */
module PacketIndex {
  import opened Wrappers
  import opened Tlv
  import opened Blocks
  import opened Names
  import opened WireForms
  import opened WireNames
  import opened Matching

  /**
   A cached packet: the entry object that holds it, the octets its name's components were decoded
   from, and whether it still counts as fresh.
   */
  datatype Entry = Entry(id: nat, data: Data, wires: Key, isFresh: bool)

  /** The octets of the implicit digest component, which the library makes itself. */
  function DigestWire(d: Digest): Bytes {
    Encode(IMPLICIT_SHA256_DIGEST, d)
  }

  /** The octets of the full name. */
  function KeyOf(e: Entry): (key: Key)
    ensures |key| == |e.wires| + 1
  {
    e.wires + [DigestWire(e.data.digest)]
  }

  predicate Kept(e: Entry) {
    Spells(e.wires, e.data.name)
  }

  lemma KeySpells(e: Entry)
    requires Kept(e)
    ensures Spells(KeyOf(e), FullName(e.data))
  {
    hide Encode, ReadHead;
    MakeElementIsElement(IMPLICIT_SHA256_DIGEST, e.data.digest);
  }

  // ---- the order ----

  predicate Sorted(es: seq<Entry>) {
    && (forall e | e in es :: Kept(e))
    && (forall i, j | 0 <= i < j < |es| :: KeyLess(KeyOf(es[i]), KeyOf(es[j])))
  }

  /** `lower_bound`: the first position whose full name is not before the key. */
  function LowerBound(es: seq<Entry>, key: Key): (k: nat)
    ensures k <= |es|
    ensures forall i | 0 <= i < k :: KeyLess(KeyOf(es[i]), key)
    ensures k < |es| ==> !KeyLess(KeyOf(es[k]), key)
  {
    if es == [] || !KeyLess(KeyOf(es[0]), key) then 0
    else 1 + LowerBound(es[1..], key)
  }

  /** Behind the lower bound nothing is smaller, and only the bound itself can be equal. */
  lemma LowerBoundSplits(es: seq<Entry>, key: Key)
    requires Sorted(es) && AllWires(key)
    ensures var k := LowerBound(es, key);
            && (forall i | k <= i < |es| :: KeyLessEq(key, KeyOf(es[i])))
            && (forall i | k < i < |es| :: KeyLess(key, KeyOf(es[i])))
            && (forall i | 0 <= i < k :: KeyOf(es[i]) != key)
  {
    hide KeyLess, KeyOf, AllWires, NameOf;
    var k := LowerBound(es, key);
    KeyLessIrreflexive(key);
    if k < |es| {
      var first := KeyOf(es[k]);
      KeySpells(es[k]);
      KeyLessConnected(key, first);
      forall i | k < i < |es|
        ensures KeyLess(key, KeyOf(es[i]))
      {
        if key != first {
          KeyLessTransitive(key, first, KeyOf(es[i]));
        }
      }
    }
  }

  predicate HasKey(es: seq<Entry>, key: Key) {
    exists i | 0 <= i < |es| :: KeyOf(es[i]) == key
  }

  /** Exactly one packet can have a given key, and only the lower bound can be it. */
  lemma KeyAtLowerBound(es: seq<Entry>, key: Key)
    requires Sorted(es) && AllWires(key)
    ensures var k := LowerBound(es, key);
            HasKey(es, key) <==> k < |es| && KeyOf(es[k]) == key
    ensures forall i | 0 <= i < |es| && KeyOf(es[i]) == key :: i == LowerBound(es, key)
  {
    hide KeyLess, KeyOf;
    LowerBoundSplits(es, key);
    KeyLessIrreflexive(key);
  }

  /** The packets a key is a prefix of start at the lower bound of that key. */
  lemma PrefixNotBefore(es: seq<Entry>, key: Key, i: nat)
    requires i < |es| && key <= KeyOf(es[i])
    ensures LowerBound(es, key) <= i
  {
    hide KeyLess, KeyOf;
    KeyPrefix(key, KeyOf(es[i]));
  }

  /** Between the lower bound of a key and a packet it is a prefix of, it is a prefix of all. */
  lemma PrefixRun(es: seq<Entry>, key: Key, i: nat, j: nat)
    requires Sorted(es) && AllWires(key) && LowerBound(es, key) <= i <= j < |es|
    requires key <= KeyOf(es[j])
    ensures key <= KeyOf(es[i])
  {
    hide KeyLess, KeyOf;
    LowerBoundSplits(es, key);
    KeyContiguous(key, key, KeyOf(es[i]), KeyOf(es[j]));
  }

  /** A prefix in octets is a prefix of the full name. */
  lemma KeyPrefixIsPrefix(e: Entry, key: Key)
    requires Kept(e) && key <= KeyOf(e)
    ensures NameOf(key) <= FullName(e.data)
  {
    hide KeyOf, AllWires;
    KeySpells(e);
    PrefixSpelled(key, KeyOf(e));
  }

  // ---- removing and inserting ----

  function RemoveAt(es: seq<Entry>, k: nat): (r: seq<Entry>)
    requires k < |es|
    ensures |r| == |es| - 1
  {
    es[..k] + es[k + 1..]
  }

  lemma RemoveAtSorted(es: seq<Entry>, k: nat)
    requires Sorted(es) && k < |es|
    ensures Sorted(RemoveAt(es, k))
  {
    hide KeyLess, KeyOf, Kept;
    var rest := RemoveAt(es, k);
    forall i, j | 0 <= i < j < |rest|
      ensures KeyLess(KeyOf(rest[i]), KeyOf(rest[j]))
    {
      assert rest[i] == es[if i < k then i else i + 1];
      assert rest[j] == es[if j < k then j else j + 1];
    }
  }

  function InsertAt(es: seq<Entry>, k: nat, e: Entry): (r: seq<Entry>)
    requires k <= |es|
    ensures |r| == |es| + 1
  {
    es[..k] + [e] + es[k..]
  }

  /** The list with `e` put where its full name belongs. */
  function InsertSorted(es: seq<Entry>, e: Entry): (r: seq<Entry>)
    ensures |r| == |es| + 1
  {
    InsertAt(es, LowerBound(es, KeyOf(e)), e)
  }

  lemma InsertSortedSorted(es: seq<Entry>, e: Entry)
    requires Sorted(es) && Kept(e) && !HasKey(es, KeyOf(e))
    ensures Sorted(InsertSorted(es, e))
  {
    hide KeyLess, KeyOf, Spells;
    var key := KeyOf(e);
    var k := LowerBound(es, key);
    assert AllWires(key) by {
      KeySpells(e);
      SpellsWires(key, FullName(e.data));
    }
    LowerBoundSplits(es, key);
    var more := InsertSorted(es, e);
    forall i, j | 0 <= i < j < |more|
      ensures KeyLess(KeyOf(more[i]), KeyOf(more[j]))
    {
      assert i < k ==> more[i] == es[i];
      assert i > k ==> more[i] == es[i - 1];
      assert j < k ==> more[j] == es[j];
      assert j > k ==> more[j] == es[j - 1];
      if i < k < j {
        assert KeyLess(KeyOf(es[i]), KeyOf(es[j - 1]));
      }
    }
  }

  lemma SpellsWires(key: Key, name: Name)
    requires Spells(key, name)
    ensures AllWires(key)
  {
  }

  // ---- entry objects ----

  predicate InCache(es: seq<Entry>, id: nat) {
    exists e | e in es :: e.id == id
  }

  /** Every entry object below `nextId` in use is in exactly one place. */
  predicate EntriesApart(es: seq<Entry>, pool: seq<nat>, nextId: nat) {
    && (forall i, j | 0 <= i < j < |es| :: es[i].id != es[j].id)
    && (forall i, j | 0 <= i < j < |pool| :: pool[i] != pool[j])
    && (forall i, j | 0 <= i < |es| && 0 <= j < |pool| :: es[i].id != pool[j])
    && (forall i | 0 <= i < |es| :: es[i].id < nextId)
    && (forall j | 0 <= j < |pool| :: pool[j] < nextId)
  }

  lemma ApartAfterRemoval(es: seq<Entry>, pool: seq<nat>, nextId: nat, k: nat)
    requires EntriesApart(es, pool, nextId) && k < |es|
    ensures EntriesApart(RemoveAt(es, k), pool + [es[k].id], nextId)
    ensures forall id :: InCache(RemoveAt(es, k), id) <==> InCache(es, id) && id != es[k].id
  {
    var rest := RemoveAt(es, k);
    assert forall i | 0 <= i < |rest| :: rest[i] == es[if i < k then i else i + 1];
    forall id
      ensures InCache(rest, id) <==> InCache(es, id) && id != es[k].id
    {
      if InCache(es, id) && id != es[k].id {
        var i :| 0 <= i < |es| && es[i].id == id;
        assert rest[if i < k then i else i - 1] == es[i];
      }
    }
  }

  lemma ApartAfterInsertion(es: seq<Entry>, pool: seq<nat>, nextId: nat, k: nat, e: Entry)
    requires k <= |es| && pool != [] && EntriesApart(es, pool, nextId) && e.id == pool[|pool| - 1]
    ensures EntriesApart(InsertAt(es, k, e), pool[..|pool| - 1], nextId)
  {
    var more := InsertAt(es, k, e);
    assert forall i | 0 <= i < |more| :: more[i] == if i < k then es[i] else if i == k then e else es[i - 1];
  }

  lemma InCacheAfterInsertion(es: seq<Entry>, k: nat, e: Entry)
    requires k <= |es|
    ensures forall id :: InCache(InsertAt(es, k, e), id) <==> InCache(es, id) || id == e.id
  {
    var more := InsertAt(es, k, e);
    forall id
      ensures InCache(more, id) <==> InCache(es, id) || id == e.id
    {
      if InCache(es, id) {
        var i :| 0 <= i < |es| && es[i].id == id;
        assert more[if i < k then i else i + 1] == es[i];
      }
      assert more[k] == e;
    }
  }

  // ---- answering a query by linear search ----

  /** The packet satisfies the Interest: it matches and, when freshness is asked for, is fresh. */
  predicate Satisfies(q: Query, e: Entry) {
    MatchesData(q, e.data) && (q.mustBeFresh ==> e.isFresh)
  }

  /** The first position from `from` on whose packet satisfies the Interest. */
  function ScanFrom(es: seq<Entry>, q: Query, from: nat): (r: Option<nat>)
    requires from <= |es|
    ensures r.Some? ==> from <= r.value < |es| && Satisfies(q, es[r.value])
    ensures r.Some? ==> forall i | from <= i < r.value :: !Satisfies(q, es[i])
    ensures r.None? ==> forall i | from <= i < |es| :: !Satisfies(q, es[i])
    decreases |es| - from
  {
    if from == |es| then None
    else if Satisfies(q, es[from]) then Some(from)
    else ScanFrom(es, q, from + 1)
  }

  /** The leftmost packet that satisfies the Interest. */
  function LinearScan(es: seq<Entry>, q: Query): Option<nat> {
    ScanFrom(es, q, 0)
  }

  lemma {:induction false} ScanSkips(es: seq<Entry>, q: Query, from: nat, to: nat)
    requires from <= to <= |es| && forall i | from <= i < to :: !Satisfies(q, es[i])
    ensures ScanFrom(es, q, from) == ScanFrom(es, q, to)
    decreases |es| - from
  {
    if from < to {
      ScanSkips(es, q, from + 1, to);
    }
  }

  // ---- answering a query by the index ----

  /** The next position `selectChild` looks at: `findNextFresh` when freshness is asked for. */
  function NextCandidate(es: seq<Entry>, q: Query, from: nat): (c: nat)
    requires from <= |es|
    ensures from <= c <= |es|
    ensures forall i | from <= i < c :: q.mustBeFresh && !es[i].isFresh
    ensures c < |es| ==> (q.mustBeFresh ==> es[c].isFresh)
    decreases |es| - from
  {
    if from < |es| && q.mustBeFresh && !es[from].isFresh then NextCandidate(es, q, from + 1) else from
  }

  /** The loop of `selectChild`, behind a candidate that does not match. */
  function WalkRight(es: seq<Entry>, q: Query, c: nat): (r: Option<nat>)
    requires c < |es|
    ensures r.Some? ==> c < r.value < |es| && Satisfies(q, es[r.value])
    decreases |es| - c
  {
    var d := NextCandidate(es, q, c + 1);
    if d == |es| || !(q.name <= FullName(es[d].data)) then None
    else if MatchesData(q, es[d].data) then Some(d)
    else WalkRight(es, q, d)
  }

  /** `selectChild`. */
  function SelectedFrom(es: seq<Entry>, q: Query, start: nat): (r: Option<nat>)
    requires start <= |es|
    ensures r.Some? ==> start <= r.value < |es| && Satisfies(q, es[r.value])
  {
    var c := NextCandidate(es, q, start);
    if c == |es| then None
    else if MatchesData(q, es[c].data) then Some(c)
    else WalkRight(es, q, c)
  }

  /** Where `find(Interest)` starts to look: just before the lower bound. */
  function StartingPoint(es: seq<Entry>, key: Key): (start: nat)
    ensures start <= |es|
  {
    var k := LowerBound(es, key);
    if k == 0 then 0 else k - 1
  }

  /** `find(Interest)`: an exact key, else what the walk from the lower bound selects. */
  function FindResult(es: seq<Entry>, q: Query, key: Key): (r: Option<nat>)
    ensures r.Some? ==> r.value < |es|
  {
    var k := LowerBound(es, key);
    if k == |es| then None
    else if KeyOf(es[k]) == key then Some(k)
    else SelectedFrom(es, q, StartingPoint(es, key))
  }

  lemma {:induction false} WalkReaches(es: seq<Entry>, q: Query, c: nat, j: nat)
    requires c < j < |es| && ScanFrom(es, q, c + 1) == Some(j)
    requires forall i | c < i <= j :: q.name <= FullName(es[i].data)
    ensures WalkRight(es, q, c) == Some(j)
    decreases |es| - c
  {
    hide MatchesData, FullName;
    var d := NextCandidate(es, q, c + 1);
    assert d <= j;
    ScanSkips(es, q, c + 1, d);
    if d < j {
      ScanSkips(es, q, d, d + 1);
      WalkReaches(es, q, d, j);
    }
  }

  /** The walk finds the first packet that satisfies, if it stays under the Interest's name till there. */
  lemma SelectReaches(es: seq<Entry>, q: Query, start: nat, j: nat)
    requires start <= j < |es| && ScanFrom(es, q, start) == Some(j)
    requires forall i | start < i <= j :: q.name <= FullName(es[i].data)
    ensures SelectedFrom(es, q, start) == Some(j)
  {
    hide MatchesData, FullName, WalkRight;
    var c := NextCandidate(es, q, start);
    assert c <= j;
    ScanSkips(es, q, start, c);
    if c < j {
      ScanSkips(es, q, c, c + 1);
      WalkReaches(es, q, c, j);
    }
  }

  /** A packet held in the query's own octets, and all before it from the lower bound on, are walked over. */
  lemma SelectFinds(es: seq<Entry>, q: Query, key: Key, j: nat)
    requires Sorted(es) && Spells(key, q.name) && j < |es| && key <= KeyOf(es[j]) && Satisfies(q, es[j])
    ensures LowerBound(es, key) <= j
    ensures SelectedFrom(es, q, StartingPoint(es, key)) == ScanFrom(es, q, StartingPoint(es, key))
  {
    hide MatchesData, FullName, KeyLess, KeyOf, Spells, SelectedFrom;
    PrefixNotBefore(es, key, j);
    var start := StartingPoint(es, key);
    var first := ScanFrom(es, q, start).value;
    SpellsWires(key, q.name);
    forall i | start < i <= first
      ensures q.name <= FullName(es[i].data)
    {
      PrefixRun(es, key, i, j);
      SpelledPrefix(es[i], q.name, key);
    }
    SelectReaches(es, q, start, first);
  }

  lemma SpelledPrefix(e: Entry, name: Name, key: Key)
    requires Kept(e) && Spells(key, name) && key <= KeyOf(e)
    ensures name <= FullName(e.data)
  {
    KeyPrefixIsPrefix(e, key);
  }

  // ---- when the index finds what a linear search finds ----

  /** Every stored packet that satisfies the Interest holds its name in the same octets. */
  predicate SameForm(es: seq<Entry>, q: Query, key: Key) {
    forall e | e in es && Satisfies(q, e) :: key <= KeyOf(e)
  }

  /** Nothing before the lower bound satisfies the Interest. */
  lemma NoneBeforeBound(es: seq<Entry>, q: Query, key: Key)
    requires SameForm(es, q, key)
    ensures forall i | 0 <= i < LowerBound(es, key) :: !Satisfies(q, es[i])
  {
    hide KeyLess, KeyOf, Satisfies;
    forall i | 0 <= i < LowerBound(es, key)
      ensures !Satisfies(q, es[i])
    {
      if Satisfies(q, es[i]) {
        PrefixNotBefore(es, key, i);
      }
    }
  }

  /** The Interest asks for freshness and names in full a packet that is stale or never fresh. */
  predicate NamesStale(es: seq<Entry>, q: Query, key: Key) {
    q.mustBeFresh && exists e | e in es :: KeyOf(e) == key && (!e.isFresh || e.data.freshnessPeriod <= 0)
  }

  /**
   Where the packets that satisfy the Interest hold its name in its own octets, `find(Interest)` is
   the linear search, except when it asks for freshness and names in full a packet that is stale or
   never fresh: that packet is returned all the same.
   */
  lemma FindIsLinearScanIff(es: seq<Entry>, q: Query, key: Key)
    requires Sorted(es) && Spells(key, q.name) && SameForm(es, q, key)
    ensures FindResult(es, q, key) == LinearScan(es, q) <==> !NamesStale(es, q, key)
  {
    hide KeyLess, KeyOf, Satisfies, SelectedFrom, AllWires, NameOf, Sorted;
    SpellsWires(key, q.name);
    KeyAtLowerBound(es, key);
    NoneBeforeBound(es, q, key);
    var k := LowerBound(es, key);
    if HasKey(es, key) {
      NamedInFull(es, q, key, k);
    } else {
      ScanSkips(es, q, 0, StartingPoint(es, key));
      var r := LinearScan(es, q);
      if r.Some? {
        SelectFinds(es, q, key, r.value);
      }
    }
  }

  /** The exact hit is what a linear search finds, unless it is stale or never fresh. */
  lemma NamedInFull(es: seq<Entry>, q: Query, key: Key, k: nat)
    requires Sorted(es) && Spells(key, q.name)
    requires k < |es| && KeyOf(es[k]) == key && forall i | 0 <= i < k :: !Satisfies(q, es[i])
    ensures LinearScan(es, q) == Some(k) <==> !NamesStale(es, q, key)
  {
    hide KeyLess, KeyOf, MatchesData, AllWires, NameOf;
    KeySpells(es[k]);
    MatchesInFull(q, es[k].data);
    ScanSkips(es, q, 0, k);
    KeyAtLowerBound(es, key);
  }

  /** Whatever the forms, an Interest is only ever answered with a packet it asks for. */
  lemma FoundIsAskedFor(es: seq<Entry>, q: Query, key: Key)
    requires Sorted(es) && Spells(key, q.name)
    ensures FindResult(es, q, key).Some? ==> AsksFor(q, es[FindResult(es, q, key).value].data)
  {
    hide KeyLess, KeyOf, SelectedFrom, AllWires, NameOf, AsksFor, MatchesData;
    var r := FindResult(es, q, key);
    if r.Some? {
      var e := es[r.value];
      if KeyOf(e) == key {
        KeySpells(e);
        NamedIsAskedFor(q, e.data);
      } else {
        MatchesDataIff(q, e.data);
      }
    }
  }

  lemma NamedIsAskedFor(q: Query, d: Data)
    requires q.name == FullName(d)
    ensures AsksFor(q, d)
  {
  }

  lemma MatchesInFull(q: Query, d: Data)
    requires q.name == FullName(d)
    ensures MatchesData(q, d) <==> !(q.mustBeFresh && d.freshnessPeriod <= 0)
  {
  }

  /** In shortest form throughout, the condition holds for every Interest. */
  lemma ShortestSameForm(es: seq<Entry>, q: Query)
    requires forall e | e in es :: e.wires == ShortestKey(e.data.name)
    ensures SameForm(es, q, ShortestKey(q.name))
  {
    hide Encode, MatchesData;
    forall e | e in es && Satisfies(q, e)
      ensures ShortestKey(q.name) <= KeyOf(e)
    {
      MatchesDataPrefix(q, e.data);
      assert KeyOf(e) == ShortestKey(FullName(e.data));
    }
  }

  // ---- the condition is exact ----

  /** The packet, or one that serves as well, is found whatever else is stored. */
  ghost predicate FoundInEveryStore(e: Entry, q: Query, key: Key) {
    forall es | Sorted(es) && e in es :: FindResult(es, q, key).Some?
  }

  /** A store that misleads the search: it starts and stops at packets of other names, or behind the packet. */
  ghost predicate Misleads(es: seq<Entry>, e: Entry, name: Name, key: Key) {
    && Sorted(es) && e in es
    && (if LowerBound(es, key) == |es| then |es| == 1
        else && LowerBound(es, key) == 0 && |es| == 3 && es[2] == e && es[0].isFresh && es[1].isFresh
             && !(name <= FullName(es[0].data)) && !(name <= FullName(es[1].data)))
  }

  lemma MisledSearch(es: seq<Entry>, e: Entry, q: Query, key: Key)
    requires Spells(key, q.name) && Misleads(es, e, q.name, key)
    ensures FindResult(es, q, key).None?
  {
    hide KeyLess, KeyOf, FullName, Spells, MatchesData;
    if LowerBound(es, key) == 0 {
      if KeyOf(es[0]) == key {
        SpelledPrefix(es[0], q.name, key);
      }
      forall i | 0 <= i < 2
        ensures !MatchesData(q, es[i].data)
      {
        if MatchesData(q, es[i].data) {
          MatchesDataPrefix(q, es[i].data);
        }
      }
      assert NextCandidate(es, q, 0) == 0 && NextCandidate(es, q, 1) == 1;
    }
  }

  /** A fresh packet with the given octets for a name. */
  function Received(wires: Key, digest: Digest): Entry {
    Entry(0, Data(NameOf(wires), digest, 0), wires, true)
  }

  const ALL_ZEROS: Digest := seq(DIGEST_SIZE, _ => 0)
  const ALL_ONES: Digest := seq(DIGEST_SIZE, _ => 255)

  lemma DigestsInOrder()
    ensures DigestWire(ALL_ZEROS) != DigestWire(ALL_ONES)
    ensures Memcmp(DigestWire(ALL_ZEROS), DigestWire(ALL_ONES)) < 0
  {
    hide Encode;
    assert Memcmp(ALL_ZEROS, ALL_ONES) < 0;
    WireCompareTells(Component(IMPLICIT_SHA256_DIGEST, ALL_ZEROS), Component(IMPLICIT_SHA256_DIGEST, ALL_ONES));
    MemcmpSelf(DigestWire(ALL_ZEROS));
  }

  /** The digest component is in shortest form, so another encoding of it comes behind. */
  lemma OtherFormBehindDigest(w: Bytes, digest: Digest)
    requires IsWire(w) && ComponentOf(w) == Component(IMPLICIT_SHA256_DIGEST, digest) && w != DigestWire(digest)
    ensures Memcmp(DigestWire(digest), w) < 0
  {
    hide ReadHead, Encode;
    ShortestFirst(w);
    MemcmpOrder(DigestWire(digest), w);
  }

  /** Two packets of another name lie in order behind the key and before the packet. */
  lemma TwoBetweenMislead(e: Entry, name: Name, key: Key, i: nat, x: Bytes)
    requires Kept(e) && Spells(key, name) && i < |key| && i < |e.wires| && key[..i] == e.wires[..i]
    requires IsWire(x) && Memcmp(key[i], x) < 0 && Memcmp(x, e.wires[i]) < 0 && ComponentOf(x) != name[i]
    ensures var wires := key[..i] + [x];
            Misleads([Received(wires, ALL_ZEROS), Received(wires, ALL_ONES), e], e, name, key)
  {
    hide KeyLess, ReadHead, Encode, Memcmp;
    var wires := key[..i] + [x];
    var a, b := Received(wires, ALL_ZEROS), Received(wires, ALL_ONES);
    var es := [a, b, e];
    MemcmpSelf(x);
    DigestsInOrder();
    KeyDifference(KeyOf(a), KeyOf(b), i + 1);
    KeyDifference(KeyOf(a), KeyOf(e), i);
    KeyDifference(KeyOf(b), KeyOf(e), i);
    MemcmpAsymmetric(key[i], x);
    KeyDifference(KeyOf(a), key, i);
    assert FullName(a.data)[i] == FullName(b.data)[i] == ComponentOf(x);
    assert LowerBound(es, key) == 0;
  }

  /** Such a store exists for every packet that holds the name in other octets. */
  lemma Misleading(e: Entry, name: Name, key: Key) returns (es: seq<Entry>)
    requires Kept(e) && Spells(key, name) && name <= FullName(e.data) && !(key <= KeyOf(e))
    ensures Misleads(es, e, name, key)
  {
    hide KeyLess, ReadHead, Memcmp, IsWire;
    KeySpells(e);
    var k := KeyOf(e);
    var i := Parting(key, k);
    assert key[i] in key && k[i] in k;
    assert ComponentOf(key[i]) == name[i] == FullName(e.data)[i] == ComponentOf(k[i]);
    WireConnected(key[i], k[i]);
    KeyDifference(k, key, i);
    if Memcmp(k[i], key[i]) < 0 {
      es := [e];
      assert LowerBound(es, key) == 1;
    } else {
      if i == |e.wires| {
        OtherFormBehindDigest(key[i], e.data.digest);
      }
      MemcmpOrder(key[i], k[i]);
      var x := AnotherBetween(key[i], k[i]);
      MemcmpOrder(key[i], x);
      MemcmpOrder(x, k[i]);
      assert k[..i] == e.wires[..i];
      TwoBetweenMislead(e, name, key, i, x);
      es := [Received(key[..i] + [x], ALL_ZEROS), Received(key[..i] + [x], ALL_ONES), e];
    }
  }

  /** A packet that satisfies the Interest is found in every store exactly if it holds the Interest's own octets. */
  lemma FoundInEveryStoreIff(e: Entry, q: Query, key: Key)
    requires Kept(e) && Spells(key, q.name) && Satisfies(q, e)
    ensures FoundInEveryStore(e, q, key) <==> key <= KeyOf(e)
  {
    hide KeyLess, KeyOf, FullName, MatchesData, SelectedFrom, Spells, Sorted;
    if key <= KeyOf(e) {
      forall es | Sorted(es) && e in es
        ensures FindResult(es, q, key).Some?
      {
        var j :| 0 <= j < |es| && es[j] == e;
        SelectFinds(es, q, key, j);
      }
    } else {
      MatchesDataPrefix(q, e.data);
      var es := Misleading(e, q.name, key);
      MisledSearch(es, e, q, key);
    }
  }
}
