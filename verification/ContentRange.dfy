/**
 The order of the forwarder's Content Store, by the octets of names and then of digests, and the
 range of packets that a search or an erasure by name looks at.
 */
module ContentRange {
  import opened Wrappers
  import opened Tlv
  import opened Blocks
  import opened Names
  import opened WireForms
  import opened WireNames
  import opened Successors
  import opened Matching
  import opened PacketIndex

  /** `compareDataWithData`: by name, then by implicit digest. */
  predicate DataLess(a: Entry, b: Entry) {
    || KeyLess(a.wires, b.wires)
    || (a.wires == b.wires && Memcmp(DigestWire(a.data.digest), DigestWire(b.data.digest)) < 0)
  }

  /** The query's name without its last component, and that component's octets. */
  function Front(key: Key): Key
    requires key != []
  {
    key[..|key| - 1]
  }

  function Last(key: Key): Bytes
    requires key != []
  {
    key[|key| - 1]
  }

  predicate IsFullName(key: Key) {
    key != [] && IsImplicitDigest(ComponentOf(Last(key)))
  }

  /** A stored packet comes before a query (`compareQueryWithData`). */
  predicate Before(e: Entry, key: Key) {
    if IsFullName(key) then
      || KeyLess(e.wires, Front(key))
      || (e.wires == Front(key) && Memcmp(DigestWire(e.data.digest), Last(key)) < 0)
    else KeyLess(e.wires, key)
  }

  predicate InOrder(es: seq<Entry>) {
    && (forall e | e in es :: Kept(e))
    && (forall i, j | 0 <= i < j < |es| :: DataLess(es[i], es[j]))
  }

  /** `lower_bound` with a query name. */
  function Bound(es: seq<Entry>, key: Key): (k: nat)
    ensures k <= |es|
  {
    if es == [] || !Before(es[0], key) then 0 else 1 + Bound(es[1..], key)
  }

  lemma {:induction false} BoundIs(es: seq<Entry>, key: Key)
    ensures var k := Bound(es, key);
            && (forall i | 0 <= i < k :: Before(es[i], key))
            && (k < |es| ==> !Before(es[k], key))
  {
    hide Before;
    if es != [] && Before(es[0], key) {
      BoundIs(es[1..], key);
    }
  }

  lemma BeforeEarlier(a: Entry, b: Entry, key: Key)
    requires DataLess(a, b) && Before(b, key)
    ensures Before(a, key)
  {
    hide KeyLess, DigestWire, ComponentOf, Memcmp;
    var bound := if IsFullName(key) then Front(key) else key;
    KeyLessIrreflexive(bound);
    if KeyLess(a.wires, b.wires) && KeyLess(b.wires, bound) {
      KeyLessTransitive(a.wires, b.wires, bound);
    }
    if IsFullName(key) && a.wires == b.wires == bound {
      MemcmpTransitive(DigestWire(a.data.digest), DigestWire(b.data.digest), Last(key));
    }
  }

  /** The bound splits the table. */
  lemma BoundSplits(es: seq<Entry>, key: Key, i: nat)
    requires InOrder(es) && i < |es|
    ensures i < Bound(es, key) <==> Before(es[i], key)
  {
    hide Before, DataLess, Kept, Bound;
    BoundIs(es, key);
    var k := Bound(es, key);
    if k < i && Before(es[i], key) {
      BeforeEarlier(es[k], es[i], key);
    }
  }

  // ---- the successor ----

  /** `Component::getSuccessor` gives a component; otherwise the one it makes is refused as invalid. */
  predicate HasSuccessor(c: Component) {
    && 1 <= c.typ <= NAME_COMPONENT_MAX && |c.value| + 1 < TWO_64
    && (c.typ in {IMPLICIT_SHA256_DIGEST, PARAMETERS_SHA256_DIGEST} ==>
          |c.value| == DIGEST_SIZE || Increment(c.value).1)
  }

  /** That is: if and only if what it makes is a valid component. */
  lemma HasSuccessorIff(c: Component)
    ensures HasSuccessor(c) <==> |c.value| + 1 < TWO_64 && ValidComponent(ComponentSuccessor(c))
  {
  }

  predicate Succeeds(key: Key) {
    key == [] || HasSuccessor(ComponentOf(Last(key)))
  }

  /** The octets of the successor of the last component, newly made and so in shortest form. */
  function NextLast(key: Key): Bytes
    requires key != []
  {
    var s := ComponentSuccessor(ComponentOf(Last(key)));
    Encode(s.typ, s.value)
  }

  /** `Name::getSuccessor`. */
  function NextKey(key: Key): Key
    requires key != []
  {
    Front(key) + [NextLast(key)]
  }

  /** `findPrefixRange`. */
  function SearchRange(es: seq<Entry>, key: Key): (nat, nat) {
    (Bound(es, key), if key == [] then |es| else Bound(es, NextKey(key)))
  }

  /** The digest that ends the query has no successor of its length. */
  predicate AllOnes(key: Key)
    requires key != []
  {
    Increment(ComponentOf(Last(key)).value).1
  }

  lemma SuccessorIs(c: Component)
    requires HasSuccessor(c)
    ensures var s := ComponentSuccessor(c);
            && 1 <= s.typ <= NAME_COMPONENT_MAX && |s.value| < TWO_64
            && ComponentLess(c, s)
            && (IsImplicitDigest(c) ==>
                  s == if Increment(c.value).1 then Component(PARAMETERS_SHA256_DIGEST, Zeros(DIGEST_SIZE))
                       else Component(IMPLICIT_SHA256_DIGEST, Increment(c.value).0))
            && (IsImplicitDigest(s) <==> IsImplicitDigest(c) && !Increment(c.value).1)
  {
    hide Increment, Memcmp;
    NextValueIs(c.value);
    if !Increment(c.value).1 {
      IncrementGreater(c.value);
    }
  }

  lemma NextIsWire(key: Key)
    requires key != [] && Succeeds(key)
    ensures IsWire(NextLast(key)) && ComponentOf(NextLast(key)) == ComponentSuccessor(ComponentOf(Last(key)))
    ensures Front(NextKey(key)) == Front(key) && Last(NextKey(key)) == NextLast(key)
    ensures IsFullName(NextKey(key)) <==> IsFullName(key) && !AllOnes(key)
  {
    hide ReadHead, Encode, ComponentSuccessor, Increment, ComponentLess;
    var c := ComponentOf(Last(key));
    SuccessorIs(c);
    var s := ComponentSuccessor(c);
    MakeElementIsElement(s.typ, s.value);
  }

  // ---- does the range run forward ----

  /** The last component's octets come before those of its successor, or do not matter. */
  predicate Forward(key: Key) {
    || key == []
    || (IsFullName(key) && AllOnes(key))
    || Memcmp(Last(key), NextLast(key)) < 0
  }

  /** In shortest form they always do. */
  lemma ShortestForward(key: Key)
    requires key != [] && Succeeds(key)
    requires var c := ComponentOf(Last(key)); Last(key) == Encode(c.typ, c.value)
    ensures Forward(key)
  {
    hide Encode, ReadHead, ComponentSuccessor, ComponentLess, Increment, Memcmp;
    var c := ComponentOf(Last(key));
    SuccessorIs(c);
    WireCompareTells(c, ComponentSuccessor(c));
  }

  ghost predicate AlwaysForward(key: Key) {
    forall es | InOrder(es) :: SearchRange(es, key).0 <= SearchRange(es, key).1
  }

  /** The range runs forward in every table exactly under this condition on the query alone. */
  lemma RangeForwardIff(key: Key)
    requires AllWires(key) && Succeeds(key)
    ensures AlwaysForward(key) <==> Forward(key)
  {
    hide KeyLess, ReadHead, Encode, Increment, Memcmp, Bound, InOrder, Before, IsFullName, ComponentSuccessor;
    if Forward(key) {
      forall es | InOrder(es)
        ensures SearchRange(es, key).0 <= SearchRange(es, key).1
      {
        RangeForward(es, key);
      }
    } else {
      var e := AtSuccessor(key);
      BackwardTable(key, e);
    }
  }

  lemma RangeForward(es: seq<Entry>, key: Key)
    requires AllWires(key) && Succeeds(key) && Forward(key)
    ensures SearchRange(es, key).0 <= SearchRange(es, key).1
  {
    hide Bound, Before, NextKey, Forward;
    var (first, last) := SearchRange(es, key);
    if key != [] {
      BoundIs(es, key);
      BoundIs(es, NextKey(key));
      if last < |es| {
        BeforeSuccessor(es[last], key);
      }
    }
  }

  lemma BeforeSuccessor(e: Entry, key: Key)
    requires key != [] && AllWires(key) && Succeeds(key) && Forward(key)
    ensures Before(e, key) ==> Before(e, NextKey(key))
  {
    hide KeyLess, ReadHead, Encode, Increment, Memcmp, NextLast, ComponentSuccessor;
    NextIsWire(key);
    var p, w, s := Front(key), Last(key), NextLast(key);
    assert key == p + [w];
    if !IsFullName(key) {
      MemcmpSelf(w);
      KeyDifference(key, NextKey(key), |p|);
      if KeyLess(e.wires, key) {
        KeyLessTransitive(e.wires, key, NextKey(key));
      }
    } else if AllOnes(key) {
      KeyPrefix(p, p + [s]);
      if KeyLess(e.wires, p) {
        KeyLessTransitive(e.wires, p, p + [s]);
      }
    } else if Memcmp(DigestWire(e.data.digest), w) < 0 {
      MemcmpTransitive(DigestWire(e.data.digest), w, s);
    }
  }

  /** The packet named by the successor: before the query and not before the successor. */
  lemma AtSuccessor(key: Key) returns (e: Entry)
    requires AllWires(key) && Succeeds(key) && !Forward(key)
    ensures Kept(e) && Before(e, key) && !Before(e, NextKey(key))
  {
    hide KeyLess, Encode, Memcmp, ReadHead, Increment, IsWire, ComponentLess;
    NextIsWire(key);
    var c := ComponentOf(Last(key));
    SuccessorIs(c);
    ComponentOrder(c, c, c);
    var p, w, s := Front(key), Last(key), NextLast(key);
    assert key == p + [w] && NextKey(key) == p + [s];
    assert w in key;
    WireConnected(w, s);
    KeyLessIrreflexive(p);
    KeyLessIrreflexive(NextKey(key));
    MemcmpSelf(s);
    if IsFullName(key) {
      var digest := ComponentSuccessor(c).value;
      e := Entry(0, Data(NameOf(p), digest, 0), p, true);
      assert DigestWire(digest) == s;
    } else {
      e := Entry(0, Data(NameOf(p + [s]), ALL_ZEROS, 0), p + [s], true);
      KeyDifference(p + [s], key, |p|);
    }
  }

  lemma BackwardTable(key: Key, e: Entry)
    requires key != [] && Kept(e) && Before(e, key) && !Before(e, NextKey(key))
    ensures !AlwaysForward(key)
  {
    hide Before, NextKey, Kept;
    var es := [e];
    assert InOrder(es) && SearchRange(es, key) == (1, 0);
  }

  // ---- what the range holds ----

  /** Behind the octets of the query's front the packet's name goes on. */
  predicate GoesOn(key: Key, e: Entry)
    requires key != []
  {
    Front(key) <= e.wires && |e.wires| >= |key|
  }

  /** What a search or erasure by the query looks at. */
  predicate Covered(key: Key, e: Entry) {
    if IsFullName(key) then
      || (&& e.wires == Front(key) && Memcmp(DigestWire(e.data.digest), Last(key)) >= 0
          && (AllOnes(key) || Memcmp(DigestWire(e.data.digest), NextLast(key)) < 0))
      || (AllOnes(key) && GoesOn(key, e) && Memcmp(e.wires[|key| - 1], NextLast(key)) < 0)
    else
      || key <= e.wires
      || (GoesOn(key, e) && Squeezed(Last(key), e.wires[|key| - 1], NextLast(key)))
  }

  /** The range is exactly that, for every query that has a range. */
  lemma RangeIsCovered(es: seq<Entry>, key: Key, i: nat)
    requires InOrder(es) && i < |es| && AllWires(key) && Succeeds(key) && Forward(key)
    ensures var (first, last) := SearchRange(es, key);
            first <= i < last <==> Covered(key, es[i])
  {
    hide InOrder, Bound, Before, NextKey, Covered, Forward;
    BoundSplits(es, key, i);
    assert Kept(es[i]) by {
      OrderedKept(es, i);
    }
    if key == [] {
      CoveredAll(es[i]);
    } else {
      BoundSplits(es, NextKey(key), i);
      BetweenIsCovered(es[i], key);
    }
  }

  lemma OrderedKept(es: seq<Entry>, i: nat)
    requires InOrder(es) && i < |es|
    ensures Kept(es[i])
  {
  }

  lemma CoveredAll(e: Entry)
    ensures !Before(e, []) && Covered([], e)
  {
  }

  lemma BetweenIsCovered(e: Entry, key: Key)
    requires Kept(e) && key != [] && AllWires(key) && Succeeds(key) && Forward(key)
    ensures !Before(e, key) && Before(e, NextKey(key)) <==> Covered(key, e)
  {
    hide KeyLess, ReadHead, Encode, Increment, Memcmp, NextLast, IsWire, Squeezed;
    NextIsWire(key);
    var p, w, s := Front(key), Last(key), NextLast(key);
    assert key == p + [w] && w in key;
    KeyLessIrreflexive(p);
    if !IsFullName(key) {
      KeyRange(p, w, s, e.wires);
    } else if AllOnes(key) {
      KeyBelow(p, s, e.wires);
    }
  }

  /** The keys from `p` up to `p + [s]`: `p` itself, and what goes on with a smaller component. */
  lemma {:induction false} KeyBelow(p: Key, s: Bytes, z: Key)
    ensures !KeyLess(z, p) && KeyLess(z, p + [s]) <==>
            z == p || (p <= z && |z| > |p| && Memcmp(z[|p|], s) < 0)
  {
    hide Memcmp;
    MemcmpSelf(s);
    var y := p + [s];
    if z != [] {
      if p == [] {
        assert y == [s] && y[1..] == [] && !KeyLess(z[1..], []);
      } else {
        assert y[1..] == p[1..] + [s];
        KeyBelow(p[1..], s, z[1..]);
        assert p == [p[0]] + p[1..] && z == [z[0]] + z[1..];
      }
    }
  }

  // ---- searching ----

  /** `findImpl`: the first packet in the range that satisfies the Interest. */
  function Found(es: seq<Entry>, q: Query, key: Key): (r: Option<nat>)
    ensures r.Some? ==> r.value < |es|
  {
    var (first, last) := SearchRange(es, key);
    var r := ScanFrom(es, q, first);
    if r.Some? && r.value < last then r else None
  }

  /** The range search finds what a linear search would exactly if the range covers that packet. */
  lemma FoundIsLinearScanIff(es: seq<Entry>, q: Query, key: Key)
    requires InOrder(es) && AllWires(key) && Succeeds(key) && Forward(key)
    ensures Found(es, q, key) == LinearScan(es, q) <==>
            (LinearScan(es, q).Some? ==> Covered(key, es[LinearScan(es, q).value]))
  {
    hide InOrder, Satisfies, Covered, Forward, SearchRange, AllWires, Succeeds;
    var (first, last) := SearchRange(es, key);
    var r := LinearScan(es, q);
    if r.Some? {
      RangeIsCovered(es, key, r.value);
      if first <= r.value {
        ScanSkips(es, q, 0, first);
      }
    }
  }

  /**
   A packet that satisfies the Interest is covered exactly if it holds the Interest's own octets, or
   its last component is squeezed in: a longer encoding of the same component before the successor.
   Under a full name only the last digest of all covers packets whose own names have it as prefix.
   */
  lemma SatisfyingCoveredIff(e: Entry, q: Query, key: Key)
    requires Kept(e) && Spells(key, q.name) && Succeeds(key) && Satisfies(q, e)
    ensures Covered(key, e) <==>
            if !IsFullName(key) then
              key <= e.wires || (GoesOn(key, e) && Squeezed(Last(key), e.wires[|key| - 1], NextLast(key)))
            else if FullName(e.data) == q.name then KeyOf(e) == key
            else AllOnes(key) && GoesOn(key, e) && Memcmp(e.wires[|key| - 1], NextLast(key)) < 0
  {
    hide KeyLess, ReadHead, Encode, Increment, Memcmp, IsWire, ComponentSuccessor;
    if IsFullName(key) {
      MatchesDataPrefix(q, e.data);
      var p, w, d := Front(key), Last(key), e.data.digest;
      assert key == p + [w] && w in key;
      assert ComponentOf(w) == q.name[|key| - 1];
      if FullName(e.data) == q.name {
        assert |e.wires| == |p| && ComponentOf(w) == Component(IMPLICIT_SHA256_DIGEST, d);
        OwnDigestCovered(w, d);
        SuccessorIs(ComponentOf(w));
        assert KeyOf(e) == key <==> e.wires == p && DigestWire(d) == w;
      } else {
        assert |e.wires| > |p|;
      }
    }
  }

  /** Of the encodings of a digest only the shortest does not come behind the stored digest. */
  lemma OwnDigestCovered(w: Bytes, digest: Digest)
    requires IsWire(w) && ComponentOf(w) == Component(IMPLICIT_SHA256_DIGEST, digest)
    ensures Memcmp(DigestWire(digest), w) >= 0 <==> DigestWire(digest) == w
    ensures !Increment(digest).1 ==>
              Memcmp(DigestWire(digest), Encode(IMPLICIT_SHA256_DIGEST, Increment(digest).0)) < 0
  {
    hide ReadHead, Encode, Increment, Memcmp;
    MemcmpSelf(w);
    if DigestWire(digest) != w {
      OtherFormBehindDigest(w, digest);
    }
    if !Increment(digest).1 {
      IncrementGreater(digest);
      WireCompareTells(Component(IMPLICIT_SHA256_DIGEST, digest),
                       Component(IMPLICIT_SHA256_DIGEST, Increment(digest).0));
    }
  }

  // ---- valid names in shortest form ----

  /** The name goes on, where the query ends in a digest, with any digest. */
  predicate UnderDigest(query: Name, name: Name) {
    && query != [] && |query| <= |name| && query[..|query| - 1] <= name
    && name[|query| - 1].typ == IMPLICIT_SHA256_DIGEST
  }

  /** What valid names in shortest form are covered by: nothing is squeezed in. */
  predicate CoveredName(query: Name, d: Data) {
    if EndsInDigest(query) then
      FullName(d) == query || (Increment(query[|query| - 1].value).1 && UnderDigest(query, d.name))
    else query <= d.name
  }

  /** A valid component below the successor and not below the component is that component. */
  lemma OnlyComponent(c: Component, x: Component)
    requires ValidComponent(c) && ValidComponent(x) && |c.value| + 1 < TWO_64 && |x.value| < TWO_64
    ensures var s := ComponentSuccessor(c);
            var w, z, next := Encode(c.typ, c.value), Encode(x.typ, x.value), Encode(s.typ, s.value);
            && (Memcmp(z, w) >= 0 && Memcmp(z, next) < 0 <==> x == c)
            && !Squeezed(w, z, next)
  {
    hide Encode, Memcmp, ComponentSuccessor, ComponentLess, Increment;
    var s := ComponentSuccessor(c);
    ComponentSuccessorImmediate(c, x);
    SuccessorIs(c);
    ComponentOrder(c, x, c);
    WireCompareTells(x, c);
    WireCompareTells(c, x);
    WireCompareTells(x, s);
  }

  /** The first component behind all digests is the first parameters digest. */
  lemma BelowParametersDigest(x: Component)
    requires ValidComponent(x) && |x.value| < TWO_64
    ensures var s := Component(PARAMETERS_SHA256_DIGEST, Zeros(DIGEST_SIZE));
            Memcmp(Encode(x.typ, x.value), Encode(s.typ, s.value)) < 0 <==> x.typ == IMPLICIT_SHA256_DIGEST
  {
    hide Encode, Memcmp;
    var s := Component(PARAMETERS_SHA256_DIGEST, Zeros(DIGEST_SIZE));
    WireCompareTells(x, s);
    if |x.value| == DIGEST_SIZE {
      ZerosFirst(x.value);
    }
  }

  lemma ShortestPrefix(a: Name, b: Name)
    requires Encodable(a) && Encodable(b)
    ensures ShortestKey(a) <= ShortestKey(b) <==> a <= b
    ensures ShortestKey(a) == ShortestKey(b) <==> a == b
  {
    hide Encode, ReadHead, IsWire;
    ShortestSpells(a);
    ShortestSpells(b);
    if ShortestKey(a) <= ShortestKey(b) {
      PrefixSpelled(ShortestKey(a), ShortestKey(b));
    }
  }

  /** A name that can be searched for and one that can be stored, both valid. */
  predicate Usual(query: Name, name: Name) {
    && ValidName(query) && ValidName(name) && Encodable(query) && Encodable(name)
    && forall c | c in query :: |c.value| + 1 < TWO_64
  }

  /** The parts of a query in shortest form. */
  lemma ShortestParts(query: Name)
    requires query != [] && Encodable(query)
    ensures var key, c := ShortestKey(query), query[|query| - 1];
            && Front(key) == ShortestKey(query[..|query| - 1]) && Last(key) == Encode(c.typ, c.value)
            && ComponentOf(Last(key)) == c && (IsFullName(key) <==> EndsInDigest(query))
  {
    hide Encode, ReadHead, IsWire;
    ShortestSpells(query);
    assert ComponentOf(ShortestKey(query)[|query| - 1]) == NameOf(ShortestKey(query))[|query| - 1];
  }

  /** In shortest form the range covers what the names say. */
  lemma CoveredShortest(e: Entry, query: Name)
    requires Usual(query, e.data.name) && e.wires == ShortestKey(e.data.name)
    ensures Covered(ShortestKey(query), e) <==> CoveredName(query, e.data)
  {
    hide Encode, ReadHead, IsWire, Memcmp, ComponentSuccessor, Increment, ShortestKey, Squeezed;
    var key, name := ShortestKey(query), e.data.name;
    ShortestPrefix(query, name);
    if query != [] {
      var n := |query|;
      ShortestParts(query);
      GoesOnShortest(e, query);
      assert query[n - 1] in query;
      if |name| >= n {
        assert name[n - 1] in name;
        OnlyComponent(query[n - 1], name[n - 1]);
      }
      if EndsInDigest(query) {
        CoveredDigest(e, query);
      }
    }
  }

  lemma GoesOnShortest(e: Entry, query: Name)
    requires query != [] && Usual(query, e.data.name) && e.wires == ShortestKey(e.data.name)
    ensures GoesOn(ShortestKey(query), e) <==> query[..|query| - 1] <= e.data.name && |e.data.name| >= |query|
    ensures e.wires == Front(ShortestKey(query)) <==> e.data.name == query[..|query| - 1]
    ensures |e.data.name| >= |query| ==>
              var x := e.data.name[|query| - 1]; e.wires[|query| - 1] == Encode(x.typ, x.value)
  {
    hide Encode, ReadHead, IsWire;
    ShortestParts(query);
    assert Encodable(query[..|query| - 1]);
    ShortestPrefix(query[..|query| - 1], e.data.name);
  }

  lemma CoveredDigest(e: Entry, query: Name)
    requires Usual(query, e.data.name) && e.wires == ShortestKey(e.data.name) && EndsInDigest(query)
    ensures Covered(ShortestKey(query), e) <==> CoveredName(query, e.data)
  {
    hide Encode, ReadHead, IsWire, Memcmp, ComponentSuccessor, Increment, ShortestKey, ValidComponent;
    var c, d := query[|query| - 1], Component(IMPLICIT_SHA256_DIGEST, e.data.digest);
    ShortestParts(query);
    GoesOnShortest(e, query);
    assert c in query;
    DigestsValid(c, d);
    SuccessorIs(c);
    OnlyComponent(c, d);
    BelowParametersDigest(d);
    assert FullName(e.data) == query <==> e.data.name == query[..|query| - 1] && d == c by {
      assert query == query[..|query| - 1] + [c];
    }
    if |e.data.name| >= |query| {
      assert e.data.name[|query| - 1] in e.data.name;
      BelowParametersDigest(e.data.name[|query| - 1]);
    }
  }

  lemma DigestsValid(c: Component, d: Component)
    requires IsImplicitDigest(c) && IsImplicitDigest(d)
    ensures ValidComponent(c) && ValidComponent(d) && HasSuccessor(c)
  {
  }

  /** The packet is merely named under the full name asked for, and that is not the last of all. */
  predicate Overlooked(query: Name, d: Data) {
    EndsInDigest(query) && !Increment(query[|query| - 1].value).1 && FullName(d) != query
  }

  /**
   In shortest form throughout, the range search finds what a linear search would, except for an
   Interest with a full name whose leftmost match is a packet merely named under it.
   */
  lemma FoundShortestIff(es: seq<Entry>, q: Query)
    requires InOrder(es) && Usual(q.name, [])
    requires forall e | e in es :: Usual(q.name, e.data.name) && e.wires == ShortestKey(e.data.name)
    ensures Found(es, q, ShortestKey(q.name)) == LinearScan(es, q) <==>
            !(LinearScan(es, q).Some? && Overlooked(q.name, es[LinearScan(es, q).value].data))
  {
    hide InOrder, MatchesData, Covered, SearchRange, ShortestKey, Increment, ReadHead, Memcmp, NextLast, Found;
    var key := ShortestKey(q.name);
    ShortestSpells(q.name);
    SpellsWires(key, q.name);
    if q.name != [] {
      ShortestParts(q.name);
      assert q.name[|q.name| - 1] in q.name;
      ShortestForward(key);
    }
    FoundIsLinearScanIff(es, q, key);
    var r := LinearScan(es, q);
    if r.Some? {
      var e := es[r.value];
      CoveredShortest(e, q.name);
      MatchesDataPrefix(q, e.data);
    }
  }
}
