/**
 Inputs on which the code departs from what its documentation or tests suggest. Each is an instance
 of a lemma that says exactly when this happens.
 */
module Counterexamples {
  import opened Wrappers
  import opened Tlv
  import opened Blocks
  import opened Names
  import opened Successors
  import opened WireForms
  import opened WireNames
  import opened Matching
  import opened PacketIndex
  import opened ReflexiveNames
  import opened PitTokens
  import LpPacket
  import Storage
  import ContentRange
  import Forwarder

  const GENERIC_A := Component(GENERIC_NAME_COMPONENT, [97])
  const GENERIC_B := Component(GENERIC_NAME_COMPONENT, [98])
  const GENERIC_C := Component(GENERIC_NAME_COMPONENT, [99])
  const RN := Component(REFLEXIVE_NAME_COMPONENT, [1])
  const PACKET := Data([], ALL_ZEROS, 0)

  /** A type number of three octets where one would do is read, and re-encoded shorter. */
  lemma LongTypeNumber()
    ensures var s: Bytes := [253, 0, 8, 0];
            && Parse(s).ending.AllRead? && Parse(s).elements == [Element(8, [], s)]
            && Reencode(Parse(s).elements) != s
            && var h := Held(Component(8, []), Some(s));
               HeldWell(h) && !Tells(Some(Memcmp(s, Encode(8, []))), h.component, h.component)
  {
    var s: Bytes := [253, 0, 8, 0];
    var e := Element(8, [], s);
    assert s[1..] == [0, 8, 0] && s[3..] == [0] && s[4..] == [];
    assert ReadVarNumber(s) == Some(Reading(8, 3));
    assert ReadVarNumber([0]) == Some(Reading(0, 1));
    assert ReadType(s) == Some(Reading(8, 3));
    assert s[..4] == s && s[4..4] == [];
    assert ReadHead(s) == (AllRead, e);
    ParseNothing();
    assert Parse(s).elements == [e] + [] == [e];
    assert !IsShortest(e);
    ReencodeIffShortest(s);
    var h := Held(Component(8, []), Some(s));
    assert HeldWell(h);
    WireCompareNeedsShortest(h);
  }

  /** Values whose lengths differ by 2^31 compare the wrong way round without wires. */
  lemma HugeComponent()
    ensures var a, b := Component(8, Zeros(0x8000_0000)), Component(8, []);
            !Tells(CompareFields(a, b), a, b)
  {
    hide CompareFields, Tells;
    CompareFieldsTells(Component(8, Zeros(0x8000_0000)), Component(8, []));
  }

  /** A stale packet named in full is returned to an Interest that asks for freshness. */
  lemma StaleFullName()
    ensures var e, q := Entry(0, PACKET, [], false), Query(FullName(PACKET), false, true);
            Sorted([e]) && FindResult([e], q, KeyOf(e)) == Some(0) && LinearScan([e], q) == None
  {
    hide KeyLess;
    var e, q := Entry(0, PACKET, [], false), Query(FullName(PACKET), false, true);
    var es := [e];
    KeyLessIrreflexive(KeyOf(e));
    assert LowerBound(es, KeyOf(e)) == 0;
    assert !Satisfies(q, es[0]);
  }

  /** Erasing by a prefix that is itself a stored full name leaves packets named under it. */
  lemma EraseStopsAtFullName()
    ensures var e := Entry(0, PACKET, [], true);
            var below := Entry(1, Data(FullName(PACKET), ALL_ZEROS, 0), KeyOf(e), true);
            var es, prefix := [e, below], FullName(PACKET);
            var (k, end) := Storage.Run(es, prefix, KeyOf(e));
            Sorted(es) && prefix <= es[1].data.name && !(k <= 1 < end)
  {
    hide KeyLess, Encode, ReadHead;
    var e := Entry(0, PACKET, [], true);
    var below := Entry(1, Data(FullName(PACKET), ALL_ZEROS, 0), KeyOf(e), true);
    var es := [e, below];
    KeySpells(e);
    KeyPrefix(KeyOf(e), KeyOf(below));
    assert Sorted(es);
    KeyLessIrreflexive(KeyOf(e));
    assert LowerBound(es, KeyOf(e)) == 0;
    assert !(FullName(PACKET) <= es[0].data.name);
  }

  /** The octets of /a with a type number of `width` octets. */
  function Letter(value: Byte, width: nat): Bytes
    requires width in {1, 3}
  {
    WireOf(GENERIC_NAME_COMPONENT, width, [value], 1)
  }

  lemma LetterReads(value: Byte, width: nat)
    requires width in {1, 3}
    ensures Spells([Letter(value, width)], [Component(GENERIC_NAME_COMPONENT, [value])])
    ensures Letter(value, 1) == [8, 1, value] && Letter(value, 3) == [253, 0, 8, 1, value]
  {
    WireOfReads(GENERIC_NAME_COMPONENT, width, [value], 1);
  }

  /** /b and /c in shortest form, and /a with a type number of three octets. */
  function Letters(digest: Digest): seq<Entry> {
    [Received([Letter(98, 1)], digest), Received([Letter(99, 1)], digest), Received([Letter(97, 3)], digest)]
  }

  lemma LettersInOrder(digest: Digest)
    ensures Sorted(Letters(digest)) && LowerBound(Letters(digest), [Letter(97, 1)]) == 0
    ensures var es := Letters(digest);
            && |es| == 3 && es[0].isFresh && es[1].isFresh
            && es[0].data.name == [GENERIC_B] && es[1].data.name == [GENERIC_C] && es[2].data.name == [GENERIC_A]
  {
    hide ReadHead, WireOf, Encode, KeyLess;
    LetterReads(97, 1);
    LetterReads(97, 3);
    LetterReads(98, 1);
    LetterReads(99, 1);
    var es, key := Letters(digest), [Letter(97, 1)];
    KeyDifference(KeyOf(es[0]), KeyOf(es[1]), 0);
    KeyDifference(KeyOf(es[1]), KeyOf(es[2]), 0);
    KeyDifference(KeyOf(es[0]), KeyOf(es[2]), 0);
    KeyDifference(KeyOf(es[0]), key, 0);
  }

  lemma LettersMislead(digest: Digest)
    ensures Misleads(Letters(digest), Letters(digest)[2], [GENERIC_A], [Letter(97, 1)])
  {
    hide Sorted, Letter, Letters;
    LettersInOrder(digest);
    var es := Letters(digest);
    assert FullName(es[0].data)[0] == GENERIC_B && FullName(es[1].data)[0] == GENERIC_C;
  }

  /** /a stored with a long type number lies behind /b and /c, and is not found there. */
  lemma LongTypeStored(digest: Digest)
    ensures var es, q, key := Letters(digest), Query([GENERIC_A], false, false), [Letter(97, 1)];
            && Sorted(es) && Spells(key, q.name)
            && FindResult(es, q, key) == None && LinearScan(es, q) == Some(2)
  {
    hide Sorted, Letter, KeyOf, Spells, FindResult, Letters, Misleads;
    var es, q, key := Letters(digest), Query([GENERIC_A], false, false), [Letter(97, 1)];
    LetterReads(97, 1);
    LettersInOrder(digest);
    LettersMislead(digest);
    MisledSearch(es, es[2], q, key);
    ScanSkips(es, q, 0, 2);
  }

  /** A packet whose own name ends in a digest is not found under that name. */
  lemma NameEndsInDigest()
    ensures var e := Received([DigestWire(ALL_ZEROS)], ALL_ZEROS);
            var q := Query(e.data.name, false, false);
            && Kept(e) && Satisfies(q, e)
            && ContentRange.Found([e], q, e.wires) == None && LinearScan([e], q) == Some(0)
  {
    hide Increment, KeyLess, ReadHead, Encode, ContentRange.Found, ContentRange.Covered, ContentRange.NextLast, Memcmp;
    var e := Received([DigestWire(ALL_ZEROS)], ALL_ZEROS);
    var q, es := Query(e.data.name, false, false), [e];
    MakeElementIsElement(IMPLICIT_SHA256_DIGEST, ALL_ZEROS);
    assert ComponentOf(e.wires[0]) == Component(IMPLICIT_SHA256_DIGEST, ALL_ZEROS);
    assert e.data.name == [ComponentOf(e.wires[0])];
    assert Satisfies(q, es[0]) && ContentRange.InOrder(es);
    ZerosIncrement();
    ContentRange.ShortestForward(e.wires);
    ContentRange.FoundIsLinearScanIff(es, q, e.wires);
    ContentRange.SatisfyingCoveredIff(e, q, e.wires);
  }

  /** An invalid digest component is squeezed in before the successor: erasing by the last valid one takes it along. */
  lemma InvalidDigestSqueezedIn()
    ensures var ones := Component(PARAMETERS_SHA256_DIGEST, ALL_ONES);
            var e := Received([Encode(PARAMETERS_SHA256_DIGEST, Zeros(DIGEST_SIZE + 1))], ALL_ZEROS);
            Kept(e) && ContentRange.Covered(ShortestKey([ones]), e) && !([ones] <= e.data.name)
  {
    hide Increment, Encode, ReadHead, Memcmp;
    var ones, longer := Component(PARAMETERS_SHA256_DIGEST, ALL_ONES), Component(PARAMETERS_SHA256_DIGEST, Zeros(33));
    var e, key := Received([Encode(PARAMETERS_SHA256_DIGEST, Zeros(33))], ALL_ZEROS), ShortestKey([ones]);
    MakeElementIsElement(ones.typ, ones.value);
    MakeElementIsElement(longer.typ, longer.value);
    assert e.data.name == [longer];
    OnesOverflow(DIGEST_SIZE);
    assert ContentRange.NextLast(key) == Encode(3, []);
    WireCompareTells(ones, longer);
    WireCompareTells(longer, Component(3, []));
  }

  lemma {:induction false} OnesOverflow(n: nat)
    ensures Increment(seq(n, _ => 255)).1
  {
    if n > 0 {
      var ones: Bytes := seq(n, _ => 255);
      assert ones[..n - 1] == seq(n - 1, _ => 255);
      OnesOverflow(n - 1);
    }
  }

  lemma ZerosIncrement()
    ensures !Increment(ALL_ZEROS).1
  {
    var z := ALL_ZEROS;
    assert z[|z| - 1] == 0;
  }

  /** A link-layer packet with an empty fragment and nothing else cannot be encoded. */
  lemma EmptyFragment()
    ensures var fs := [LpPacket.Field(LpPacket.FRAGMENT, [])];
            LpPacket.Ordered(fs) && LpPacket.EncodePacket(fs) == None
  {
    LpPacket.FragmentKnown([]);
    ParseNothing();
  }

  /** A filter matches a name with a reflexive component in the middle of its prefix. */
  lemma ReflexiveInside()
    ensures var prefix, name := [GENERIC_A, GENERIC_B], [GENERIC_A, RN, GENERIC_B];
            Matches(prefix, name) && !(prefix <= name)
  {
    var prefix, name := [GENERIC_A, GENERIC_B], [GENERIC_A, RN, GENERIC_B];
    assert prefix[..1] + [RN] + prefix[1..] == name;
    ReflexiveComponentIsTransparent(prefix, prefix, 1, RN);
    assert name[1] == RN && prefix[1] == GENERIC_B;
  }

  /** Of three pending Interests of one name the first is finalized: the last is found then, not the second. */
  lemma NewestEntryIsFound(name: Name)
    requires Forwarder.Addressable(name)
    ensures var a := Forwarder.PitEntry(Query(name, false, false), []);
            var b := Forwarder.PitEntry(Query(name, false, true), []);
            var c := Forwarder.PitEntry(Query(name, true, true), []);
            Forwarder.FindBasedOnName(Forwarder.Erased([a, b, c], 0), name) == Some(c)
  {
    hide Forwarder.LastBeside, Forwarder.TreeNode, Forwarder.Addressable;
    var a := Forwarder.PitEntry(Query(name, false, false), []);
    var b := Forwarder.PitEntry(Query(name, false, true), []);
    var c := Forwarder.PitEntry(Query(name, true, true), []);
    var pit := [a, b, c];
    assert pit[2].query.name == pit[0].query.name;
    assert Forwarder.LastBeside(pit, 0) == 2;
    assert Forwarder.Erased(pit, 0) == [c, b];
  }

  /** The fifth octet of a token is lost. */
  lemma FiveOctetToken(beyond: Memory)
    ensures var t: Bytes := [1, 2, 3, 4, 5];
            LittleEndian(FromLittleEndian(Seen(t, beyond)), TOKEN_SIZE) != t
  {
    hide LittleEndian, FromLittleEndian;
    TokenRestoredIff([1, 2, 3, 4, 5], beyond);
  }
}
