/**
 The Interest packet: what `wireEncode` writes, what `wireDecode` accepts, and that decoding an
 encoded Interest restores every field.
 */
module InterestCodec {
  import opened Wrappers
  import opened Tlv
  import opened Blocks
  import opened Names

  const INTEREST := 5
  const NAME := 7
  const NONCE := 10
  const INTEREST_LIFETIME := 12
  const MUST_BE_FRESH := 18
  const FORWARDING_HINT := 30
  const DELEGATION := 31
  const CAN_BE_PREFIX := 33
  const HOP_LIMIT := 34
  const APPLICATION_PARAMETERS := 36
  const INTEREST_SIGNATURE_INFO := 44
  const INTEREST_SIGNATURE_VALUE := 46

  const DEFAULT_INTEREST_LIFETIME := 4000

  type Nonce = b: Bytes | |b| == 4 witness [0, 0, 0, 0]

  /** A 64-bit signed count of milliseconds. */
  type Milliseconds = n: int | -0x8000_0000_0000_0000 <= n < 0x8000_0000_0000_0000

  /** The parameters keep the octets they were received or built with. */
  datatype Interest = Interest(
    name: Name,
    canBePrefix: bool,
    mustBeFresh: bool,
    forwardingHint: seq<Name>,
    nonce: Option<Nonce>,
    lifetime: Milliseconds,
    hopLimit: Option<Byte>,
    parameters: seq<Element>)

  /** An Interest as it is after the name has been read: every other field at its default. */
  function Bare(name: Name): Interest {
    Interest(name, false, false, [], None, DEFAULT_INTEREST_LIFETIME, None, [])
  }

  /** `tlv::isCriticalType`. */
  predicate IsCriticalType(typ: nat) {
    typ <= 31 || typ % 2 == 1
  }

  // ---- names ----

  function NameElements(n: Name): (es: seq<Element>)
    ensures |es| == |n|
  {
    seq(|n|, i requires 0 <= i < |n| => MakeElement(n[i].typ, n[i].value))
  }

  /** The TLV-VALUE of a name. */
  function NameValue(n: Name): Bytes {
    Wires(NameElements(n))
  }

  /** `Name(const Block&)`: sub-elements become components without further checks. */
  function ReadName(value: Bytes): Option<Name> {
    var parsed := Parse(value);
    if parsed.ending.AllRead? then
      Some(seq(|parsed.elements|, i requires 0 <= i < |parsed.elements| =>
        Component(parsed.elements[i].typ, parsed.elements[i].value)))
    else None
  }

  /** Names whose components have types and lengths that TLV can express. */
  predicate EncodableName(n: Name) {
    forall c | c in n :: 0 < c.typ < TWO_32 && |c.value| < TWO_64
  }

  lemma NameRoundTrip(n: Name)
    requires EncodableName(n)
    ensures ReadName(NameValue(n)) == Some(n)
  {
    hide Parse, IsElement, Encode;
    var es := NameElements(n);
    forall e | e in es
      ensures IsElement(e)
    {
      var i :| 0 <= i < |es| && es[i] == e;
      assert n[i] in n;
      MakeElementIsElement(n[i].typ, n[i].value);
    }
    ParseWires(es);
    assert ReadName(NameValue(n)).value == n;
  }

  /** `findParametersDigestComponent`: the position of the only one, -1 for none, -2 for several. */
  function DigestIndex(n: Name): (k: int)
    ensures -2 <= k < |n|
    ensures k >= 0 ==> IsParametersDigest(n[k])
  {
    if n == [] then -1
    else
      var k := DigestIndex(n[..|n| - 1]);
      if !IsParametersDigest(n[|n| - 1]) then k
      else if k == -1 then |n| - 1
      else -2
  }

  predicate IsParametersDigest(c: Component) {
    c.typ == PARAMETERS_SHA256_DIGEST && |c.value| == DIGEST_SIZE
  }

  // ---- forwarding hints ----

  function HintElements(hint: seq<Name>): (es: seq<Element>)
    ensures |es| == |hint|
  {
    seq(|hint|, i requires 0 <= i < |hint| => MakeElement(NAME, NameValue(hint[i])))
  }

  function HintValue(hint: seq<Name>): Bytes {
    Wires(HintElements(hint))
  }

  /** The first sub-element of a type, as `Block::get` finds it. */
  function FirstOfType(es: seq<Element>, typ: nat): Option<Element> {
    if es == [] then None
    else if es[0].typ == typ then Some(es[0])
    else FirstOfType(es[1..], typ)
  }

  /** One element of a ForwardingHint: a name, an old-style delegation, or something ignorable. */
  function ReadDelegation(e: Element): Result<seq<Name>> {
    if e.typ == NAME then
      match ReadName(e.value)
      case None => Failure
      case Some(n) => Success([n])
    else if e.typ == DELEGATION then
      var parsed := Parse(e.value);
      if !parsed.ending.AllRead? then Failure
      else
        match FirstOfType(parsed.elements, NAME)
        case None => Failure
        case Some(inner) =>
          match ReadName(inner.value)
          case None => Failure
          case Some(n) => Success([n])
    else if IsCriticalType(e.typ) then Failure
    else Success([])
  }

  function ReadDelegations(es: seq<Element>): Result<seq<Name>> {
    if es == [] then Success([])
    else
      match ReadDelegation(es[0])
      case Failure => Failure
      case Success(first) =>
        match ReadDelegations(es[1..])
        case Failure => Failure
        case Success(rest) => Success(first + rest)
  }

  function ReadHint(value: Bytes): Result<seq<Name>> {
    var parsed := Parse(value);
    if parsed.ending.AllRead? then ReadDelegations(parsed.elements) else Failure
  }

  /** The delegations read before one is rejected. */
  function DelegationsSoFar(es: seq<Element>): seq<Name> {
    if es == [] then []
    else
      match ReadDelegation(es[0])
      case Failure => []
      case Success(first) => first + DelegationsSoFar(es[1..])
  }

  function HintSoFar(value: Bytes): seq<Name> {
    var parsed := Parse(value);
    if parsed.ending.AllRead? then DelegationsSoFar(parsed.elements) else []
  }

  predicate EncodableHint(hint: seq<Name>) {
    forall n | n in hint :: EncodableName(n) && |NameValue(n)| < TWO_64
  }

  lemma HintRoundTrip(hint: seq<Name>)
    requires EncodableHint(hint)
    ensures ReadHint(HintValue(hint)) == Success(hint)
  {
    hide NameValue, Parse, IsElement, ReadDelegations, Encode;
    var es := HintElements(hint);
    forall e | e in es
      ensures IsElement(e)
    {
      var i :| 0 <= i < |es| && es[i] == e;
      assert hint[i] in hint;
      MakeElementIsElement(NAME, NameValue(hint[i]));
    }
    ParseWires(es);
    DelegationsRoundTrip(hint);
  }

  lemma {:induction false} DelegationsRoundTrip(hint: seq<Name>)
    requires EncodableHint(hint)
    ensures ReadDelegations(HintElements(hint)) == Success(hint)
  {
    hide NameValue, ReadName, Encode;
    if hint != [] {
      assert HintElements(hint)[1..] == HintElements(hint[1..]);
      DelegationsRoundTrip(hint[1..]);
      assert hint[0] in hint;
      NameRoundTrip(hint[0]);
      assert hint == [hint[0]] + hint[1..];
    }
  }

  // ---- lifetime ----

  function ToUint64(n: Milliseconds): (r: nat)
    ensures r < TWO_64
  {
    if n < 0 then n + TWO_64 else n
  }

  function ToInt64(n: nat): Milliseconds
    requires n < TWO_64
  {
    if n < 0x8000_0000_0000_0000 then n else n - TWO_64
  }

  function ReadLifetime(value: Bytes): Option<Milliseconds> {
    match ReadNonNegativeInteger(value)
    case None => None
    case Some(n) => if n < TWO_64 then Some(ToInt64(n)) else None
  }

  // ---- the elements of an Interest, in order ----

  function Flag(present: bool, typ: nat): seq<Element> {
    if present then [MakeElement(typ, [])] else []
  }

  function HintField(hint: seq<Name>): seq<Element> {
    if hint == [] then [] else [MakeElement(FORWARDING_HINT, HintValue(hint))]
  }

  function NonceField(nonce: Option<Nonce>): seq<Element> {
    match nonce case None => [] case Some(n) => [MakeElement(NONCE, n)]
  }

  function LifetimeField(lifetime: Milliseconds): seq<Element> {
    if lifetime == DEFAULT_INTEREST_LIFETIME then []
    else [MakeElement(INTEREST_LIFETIME, NonNegativeInteger(ToUint64(lifetime)))]
  }

  function HopLimitField(hopLimit: Option<Byte>): seq<Element> {
    match hopLimit case None => [] case Some(h) => [MakeElement(HOP_LIMIT, [h])]
  }

  /** The elements that follow the name. */
  function Fields(i: Interest): seq<Element> {
    Flag(i.canBePrefix, CAN_BE_PREFIX) + Flag(i.mustBeFresh, MUST_BE_FRESH)
    + HintField(i.forwardingHint) + NonceField(i.nonce) + LifetimeField(i.lifetime)
    + HopLimitField(i.hopLimit) + i.parameters
  }

  function InterestValue(i: Interest): Bytes {
    Wires([MakeElement(NAME, NameValue(i.name))] + Fields(i))
  }

  // ---- decoding ----

  /** The fields read so far and the rank of the last recognised element. */
  datatype State = State(interest: Interest, last: nat)

  /** One round of the loop of `wireDecode`. */
  function DecodeField(s: State, e: Element): Result<State> {
    var i := s.interest;
    if e.typ == CAN_BE_PREFIX then
      if s.last >= 2 || e.value != [] then Failure else Success(State(i.(canBePrefix := true), 2))
    else if e.typ == MUST_BE_FRESH then
      if s.last >= 3 || e.value != [] then Failure else Success(State(i.(mustBeFresh := true), 3))
    else if e.typ == FORWARDING_HINT then
      if s.last >= 4 then Failure
      else
        match ReadHint(e.value)
        case Failure => Failure
        case Success(hint) => Success(State(i.(forwardingHint := i.forwardingHint + hint), 4))
    else if e.typ == NONCE then
      if s.last >= 5 || |e.value| != 4 then Failure
      else Success(State(i.(nonce := Some(e.value)), 5))
    else if e.typ == INTEREST_LIFETIME then
      if s.last >= 6 then Failure
      else
        match ReadLifetime(e.value)
        case None => Failure
        case Some(lifetime) => Success(State(i.(lifetime := lifetime), 6))
    else if e.typ == HOP_LIMIT then
      if s.last >= 7 then Success(s)
      else if |e.value| != 1 then Failure
      else Success(State(i.(hopLimit := Some(e.value[0])), 7))
    else if e.typ == APPLICATION_PARAMETERS then
      if s.last >= 8 then Success(s)
      else Success(State(i.(parameters := i.parameters + [e]), 8))
    else if IsCriticalType(e.typ) then Failure
    else if i.parameters != [] then Success(State(i.(parameters := i.parameters + [e]), s.last))
    else Success(s)
  }

  function DecodeFields(s: State, es: seq<Element>): Result<State>
    decreases es
  {
    if es == [] then Success(s)
    else
      match DecodeField(s, es[0])
      case Failure => Failure
      case Success(s') => DecodeFields(s', es[1..])
  }

  /** What the fields are left at when an element is rejected: a forwarding hint may be half read. */
  function FieldsSoFar(s: State, es: seq<Element>): Interest
    decreases es
  {
    if es == [] then s.interest
    else
      match DecodeField(s, es[0])
      case Success(s') => FieldsSoFar(s', es[1..])
      case Failure =>
        var i := s.interest;
        if es[0].typ == FORWARDING_HINT && s.last < 4
        then i.(forwardingHint := i.forwardingHint + HintSoFar(es[0].value)) else i
  }

  /** What `wireDecode` makes of the fields, whether it throws or not; `None` when it does not get to them. */
  function FieldsLeft(e: Element): Option<Interest> {
    var parsed := Parse(e.value);
    if e.typ != INTEREST || !parsed.ending.AllRead? then None
    else if parsed.elements == [] || parsed.elements[0].typ != NAME then None
    else
      var name := ReadName(parsed.elements[0].value);
      if name.None? || name.value == [] || DigestIndex(name.value) == -2 then None
      else Some(FieldsSoFar(State(Bare(name.value), 1), parsed.elements[1..]))
  }

  /** `isParametersDigestValid`; `sha` stands for SHA-256. */
  predicate DigestValid(sha: Bytes -> Digest, i: Interest) {
    var k := DigestIndex(i.name);
    if k < 0 then k == -1 && i.parameters == []
    else i.parameters != [] && i.name[k].value == sha(Wires(i.parameters))
  }

  /** `wireDecode` of a block, with the automatic digest check. */
  function Decode(sha: Bytes -> Digest, e: Element): Result<Interest> {
    var parsed := Parse(e.value);
    if e.typ != INTEREST || !parsed.ending.AllRead? then Failure
    else if parsed.elements == [] || parsed.elements[0].typ != NAME then Failure
    else
      match ReadName(parsed.elements[0].value)
      case None => Failure
      case Some(name) =>
        if name == [] || DigestIndex(name) == -2 then Failure
        else
          match DecodeFields(State(Bare(name), 1), parsed.elements[1..])
          case Failure => Failure
          case Success(s) => if DigestValid(sha, s.interest) then Success(s.interest) else Failure
  }

  // ---- what is accepted ----

  /** The elements of an Interest in the order they must have; other types have no place in it. */
  const FIELD_ORDER: seq<nat> := [7, 33, 18, 30, 10, 12, 34, 36]

  /** The place of a type in that order, from one; zero if it has none. */
  function PlaceOf(typ: nat): nat {
    if typ == 7 then 1 else if typ == 33 then 2 else if typ == 18 then 3 else if typ == 30 then 4
    else if typ == 10 then 5 else if typ == 12 then 6 else if typ == 34 then 7 else if typ == 36 then 8 else 0
  }

  lemma PlacesInOrder(typ: nat)
    ensures PlaceOf(typ) > 0 <==> typ in FIELD_ORDER
    ensures PlaceOf(typ) > 0 ==> PlaceOf(typ) <= |FIELD_ORDER| && FIELD_ORDER[PlaceOf(typ) - 1] == typ
  {
  }

  /** The furthest place reached by the name and the elements behind it. */
  function Furthest(es: seq<Element>): nat {
    if es == [] then 1
    else
      var before, place := Furthest(es[..|es| - 1]), PlaceOf(es[|es| - 1].typ);
      if place > before then place else before
  }

  /** The element may follow: what an Interest decoder asks of it, given the furthest place so far. */
  predicate MayFollow(furthest: nat, e: Element) {
    if e.typ in {33, 18, 30, 10, 12} then
      && furthest < PlaceOf(e.typ)
      && (e.typ in {33, 18} ==> e.value == [])
      && (e.typ == 30 ==> ReadHint(e.value).Success?)
      && (e.typ == 10 ==> |e.value| == 4)
      && (e.typ == 12 ==> |e.value| in {1, 2, 4, 8})
    else if e.typ == 34 then furthest >= 7 || |e.value| == 1
    else e.typ > 31 && e.typ % 2 == 0
  }

  lemma LifetimeSizes(value: Bytes)
    ensures ReadLifetime(value).Some? <==> |value| in {1, 2, 4, 8}
  {
    hide FromBigEndian;
    if |value| in {1, 2, 4, 8} {
      FastIsBigEndian(|value|, value);
      FromBigEndianBound(value[..|value|]);
      PowBelow(0, 0);
      PowBelow(|value|, 8);
    }
  }

  lemma FieldFollows(s: State, e: Element)
    ensures DecodeField(s, e).Success? <==> MayFollow(s.last, e)
    ensures DecodeField(s, e).Success? ==>
              DecodeField(s, e).value.last == if PlaceOf(e.typ) > s.last then PlaceOf(e.typ) else s.last
  {
    hide ReadHint, ReadLifetime;
    LifetimeSizes(e.value);
  }

  lemma {:induction false} FieldsFollow(s: State, seen: seq<Element>, es: seq<Element>)
    requires s.last == Furthest(seen)
    ensures DecodeFields(s, es).Success? <==>
            forall i | 0 <= i < |es| :: MayFollow(Furthest(seen + es[..i]), es[i])
    decreases |es|
  {
    hide DecodeField, MayFollow, PlaceOf, Furthest;
    if es != [] {
      var e := es[0];
      FieldFollows(s, e);
      assert es[..0] == [] && seen + [] == seen;
      if MayFollow(s.last, e) {
        FurthestMore(seen, e);
        FieldsFollow(DecodeField(s, e).value, seen + [e], es[1..]);
        forall i | 0 <= i < |es[1..]|
          ensures seen + [e] + es[1..][..i] == seen + es[..i + 1] && es[1..][i] == es[i + 1]
        {
        }
      }
    }
  }

  lemma FurthestMore(seen: seq<Element>, e: Element)
    ensures Furthest(seen + [e]) == if PlaceOf(e.typ) > Furthest(seen) then PlaceOf(e.typ) else Furthest(seen)
  {
    hide PlaceOf;
    assert (seen + [e])[..|seen|] == seen;
  }

  /**
   Which element lists behind the name are accepted: a recognised critical element only behind all of
   earlier place, and well formed; HopLimit and ApplicationParameters anywhere, HopLimit of one octet
   unless it comes too late to matter; of other types only those that may be ignored, so no second name.
   */
  lemma FieldsAcceptedIff(name: Name, es: seq<Element>)
    ensures DecodeFields(State(Bare(name), 1), es).Success? <==>
            forall i | 0 <= i < |es| :: MayFollow(Furthest(es[..i]), es[i])
  {
    hide DecodeFields, MayFollow;
    FieldsFollow(State(Bare(name), 1), [], es);
    forall i | 0 <= i < |es|
      ensures [] + es[..i] == es[..i]
    {
    }
  }

  /** What the fields come from, by the types on the wire. */
  ghost predicate ComesFrom(i: Interest, was: Interest, es: seq<Element>) {
    && i.name == was.name
    && (i.canBePrefix <==> was.canBePrefix || exists e | e in es :: e.typ == 33)
    && (i.mustBeFresh <==> was.mustBeFresh || exists e | e in es :: e.typ == 18)
    && (if exists e | e in es :: e.typ == 10 then exists e | e in es :: e.typ == 10 && i.nonce == Some(e.value)
        else i.nonce == was.nonce)
    && (if exists e | e in es :: e.typ == 12
        then exists e | e in es :: e.typ == 12 && Some(i.lifetime) == ReadLifetime(e.value)
        else i.lifetime == was.lifetime)
    && (|| i.hopLimit == was.hopLimit
        || exists e | e in es :: e.typ == 34 && |e.value| == 1 && i.hopLimit == Some(e.value[0]))
  }

  lemma OneComesFrom(s: State, e: Element)
    requires DecodeField(s, e).Success?
    ensures ComesFrom(DecodeField(s, e).value.interest, s.interest, [e])
  {
    hide ReadHint, ReadLifetime;
    assert e in [e];
  }

  lemma ComesFromMore(i: Interest, middle: Interest, was: Interest, e: Element, es: seq<Element>)
    requires ComesFrom(middle, was, [e]) && ComesFrom(i, middle, es)
    ensures ComesFrom(i, was, [e] + es)
  {
    hide ReadLifetime;
    assert e in [e] + es;
    assert forall f | f in es :: f in [e] + es;
  }

  lemma {:induction false} FieldsComeFrom(s: State, es: seq<Element>)
    requires DecodeFields(s, es).Success?
    ensures ComesFrom(DecodeFields(s, es).value.interest, s.interest, es)
    decreases |es|
  {
    hide DecodeField, ComesFrom;
    if es == [] {
      NothingComesFrom(s.interest);
    } else {
      var s' := DecodeField(s, es[0]).value;
      OneComesFrom(s, es[0]);
      FieldsComeFrom(s', es[1..]);
      ComesFromMore(DecodeFields(s, es).value.interest, s'.interest, s.interest, es[0], es[1..]);
      assert es == [es[0]] + es[1..];
    }
  }

  lemma NothingComesFrom(i: Interest)
    ensures ComesFrom(i, i, [])
  {
  }

  // ---- forwarding hints of the old format ----

  /** A delegation as it used to be written: a preference, then the name. */
  function OldDelegation(preference: Element, n: Name): Element {
    MakeElement(31, Wires([preference, MakeElement(NAME, NameValue(n))]))
  }

  function OldElements(preferences: seq<Element>, hint: seq<Name>): (es: seq<Element>)
    requires |preferences| == |hint|
    ensures |es| == |hint|
  {
    if hint == [] then []
    else [OldDelegation(preferences[0], hint[0])] + OldElements(preferences[1..], hint[1..])
  }

  lemma OldDelegationReads(preference: Element, n: Name)
    requires IsElement(preference) && preference.typ != NAME && EncodableName(n) && |NameValue(n)| < TWO_64
    ensures ReadDelegation(OldDelegation(preference, n)) == Success([n])
  {
    hide NameValue, ReadName, Encode, Parse, IsElement, Wires;
    var inner := MakeElement(NAME, NameValue(n));
    var es := [preference, inner];
    MakeElementIsElement(NAME, NameValue(n));
    ParseWires(es);
    assert es[1..] == [inner];
    assert FirstOfType(es, NAME) == Some(inner);
    NameRoundTrip(n);
  }

  lemma {:induction false} OldElementsRead(preferences: seq<Element>, hint: seq<Name>)
    requires |preferences| == |hint| && EncodableHint(hint)
    requires forall p | p in preferences :: IsElement(p) && p.typ != NAME
    ensures ReadDelegations(OldElements(preferences, hint)) == Success(hint)
  {
    hide IsElement, OldDelegation, ReadDelegation, ReadDelegations, NameValue, EncodableName;
    if hint == [] {
      ReadNoDelegations();
    } else {
      assert hint[0] in hint && preferences[0] in preferences;
      OldDelegationReads(preferences[0], hint[0]);
      OldElementsRead(preferences[1..], hint[1..]);
      ReadDelegationsCons(OldDelegation(preferences[0], hint[0]), OldElements(preferences[1..], hint[1..]), hint);
    }
  }

  lemma ReadNoDelegations()
    ensures ReadDelegations([]) == Success([])
  {
  }

  lemma ReadDelegationsCons(e: Element, es: seq<Element>, hint: seq<Name>)
    requires hint != [] && ReadDelegation(e) == Success([hint[0]]) && ReadDelegations(es) == Success(hint[1..])
    ensures ReadDelegations([e] + es) == Success(hint)
  {
    hide ReadDelegation;
    assert ([e] + es)[1..] == es;
    assert hint == [hint[0]] + hint[1..];
  }

  /** Hints of the old format are still read as the same names. */
  lemma OldHintReads(preferences: seq<Element>, hint: seq<Name>)
    requires |preferences| == |hint| && EncodableHint(hint)
    requires forall p | p in preferences :: IsElement(p) && p.typ != NAME
    requires forall e | e in OldElements(preferences, hint) :: |e.value| < TWO_64
    ensures ReadHint(Wires(OldElements(preferences, hint))) == Success(hint)
  {
    hide IsElement, Parse, ReadDelegations, Wires;
    var es := OldElements(preferences, hint);
    OldAreElements(preferences, hint);
    ParseWires(es);
    OldElementsRead(preferences, hint);
  }

  /** The element stands for that name: it is the name, or it is an old-style delegation whose first name that is. */
  ghost predicate StandsFor(e: Element, n: Name) {
    if e.typ == 7 then ReadName(e.value) == Some(n)
    else
      var parsed := Parse(e.value);
      && parsed.ending.AllRead?
      && exists k | 0 <= k < |parsed.elements| ::
           && parsed.elements[k].typ == 7 && ReadName(parsed.elements[k].value) == Some(n)
           && forall j | 0 <= j < k :: parsed.elements[j].typ != 7
  }

  /** The names and delegations among the elements of a hint. */
  function Named(es: seq<Element>): seq<Element> {
    if es == [] then []
    else if es[0].typ in {7, 31} then [es[0]] + Named(es[1..])
    else Named(es[1..])
  }

  lemma {:induction false} FirstOfTypeIs(es: seq<Element>, typ: nat)
    ensures FirstOfType(es, typ).None? <==> forall e | e in es :: e.typ != typ
    ensures FirstOfType(es, typ).Some? ==>
              exists k | 0 <= k < |es| ::
                && es[k].typ == typ && es[k] == FirstOfType(es, typ).value
                && forall j | 0 <= j < k :: es[j].typ != typ
  {
    if es != [] && es[0].typ != typ {
      FirstOfTypeIs(es[1..], typ);
      if FirstOfType(es[1..], typ).Some? {
        var k :| 0 <= k < |es[1..]| && es[1..][k].typ == typ && es[1..][k] == FirstOfType(es[1..], typ).value
                 && forall j | 0 <= j < k :: es[1..][j].typ != typ;
        assert es[k + 1] == es[1..][k] && forall j | 0 < j < k + 1 :: es[j] == es[1..][j - 1];
      }
    }
  }

  lemma DelegationIff(e: Element)
    ensures e.typ in {7, 31} ==> (ReadDelegation(e).Success? <==> exists n :: StandsFor(e, n))
    ensures e.typ in {7, 31} && ReadDelegation(e).Success? ==>
              |ReadDelegation(e).value| == 1 && StandsFor(e, ReadDelegation(e).value[0])
    ensures e.typ !in {7, 31} ==>
              ReadDelegation(e) == if e.typ > 31 && e.typ % 2 == 0 then Success([]) else Failure
  {
    hide ReadName, Parse, FirstOfType;
    FirstOfTypeIs(Parse(e.value).elements, 7);
    if e.typ == 7 && ReadName(e.value).Some? {
      assert StandsFor(e, ReadName(e.value).value);
    }
    if e.typ == 31 && ReadDelegation(e).Success? {
      assert StandsFor(e, ReadDelegation(e).value[0]);
    }
  }

  /**
   A hint is accepted if and only if each of its elements is a readable name, a delegation whose first
   name is readable, or of an ignorable type; it is then the names they stand for, in their order.
   */
  lemma {:induction false} HintAcceptedIff(es: seq<Element>)
    ensures ReadDelegations(es).Success? <==>
              forall e | e in es ::
                if e.typ in {7, 31} then exists n :: StandsFor(e, n) else e.typ > 31 && e.typ % 2 == 0
    ensures ReadDelegations(es).Success? ==>
              && |ReadDelegations(es).value| == |Named(es)|
              && forall j | 0 <= j < |Named(es)| :: StandsFor(Named(es)[j], ReadDelegations(es).value[j])
  {
    hide ReadDelegation, StandsFor;
    if es != [] {
      DelegationIff(es[0]);
      HintAcceptedIff(es[1..]);
      assert es == [es[0]] + es[1..];
    }
  }

  /** A hint that is rejected leaves the names read before the element at fault. */
  lemma {:induction false} DelegationsLeft(es: seq<Element>, k: nat)
    requires k <= |es| && ReadDelegations(es[..k]).Success? && (k < |es| ==> ReadDelegation(es[k]).Failure?)
    ensures DelegationsSoFar(es) == ReadDelegations(es[..k]).value
    decreases k
  {
    hide ReadDelegation;
    if k > 0 {
      assert es[..k][0] == es[0] && es[..k][1..] == es[1..][..k - 1];
      DelegationsLeft(es[1..], k - 1);
    }
  }

  lemma HintLeft(es: seq<Element>, k: nat)
    requires (forall e | e in es :: IsElement(e)) && k <= |es|
    requires ReadDelegations(es[..k]).Success? && (k < |es| ==> ReadDelegation(es[k]).Failure?)
    ensures HintSoFar(Wires(es)) == ReadDelegations(es[..k]).value
    ensures k == |es| ==> ReadHint(Wires(es)) == Success(HintSoFar(Wires(es)))
  {
    hide IsElement, ReadDelegation, ReadDelegations, DelegationsSoFar, Parse, Wires;
    ParseWires(es);
    DelegationsLeft(es, k);
    assert es[..|es|] == es;
  }

  lemma {:induction false} FieldsLeftAt(s: State, es: seq<Element>, k: nat)
    requires k <= |es| && DecodeFields(s, es[..k]).Success?
    requires k < |es| ==> DecodeField(DecodeFields(s, es[..k]).value, es[k]).Failure?
    ensures var s' := DecodeFields(s, es[..k]).value;
            FieldsSoFar(s, es) ==
              if k < |es| && es[k].typ == 30 && s'.last < PlaceOf(30)
              then s'.interest.(forwardingHint := s'.interest.forwardingHint + HintSoFar(es[k].value))
              else s'.interest
    decreases k
  {
    hide DecodeField, HintSoFar;
    if k > 0 {
      assert es[..k][0] == es[0] && es[..k][1..] == es[1..][..k - 1];
      FieldsLeftAt(DecodeField(s, es[0]).value, es[1..], k - 1);
    }
  }

  /**
   The object that `wireDecode` leaves behind: on success the decoded Interest; when element `k` behind
   the name is rejected, the fields of the elements before it and the names of a hint read in part.
   */
  lemma DecodingLeaves(sha: Bytes -> Digest, e: Element, name: Element, es: seq<Element>, k: nat)
    requires e.typ == INTEREST && Parse(e.value) == Parsed([name] + es, AllRead)
    requires name.typ == 7 && ReadName(name.value).Some?
    requires ReadName(name.value).value != [] && DigestIndex(ReadName(name.value).value) != -2
    requires var s := State(Bare(ReadName(name.value).value), 1);
             && k <= |es| && DecodeFields(s, es[..k]).Success?
             && (k < |es| ==> DecodeField(DecodeFields(s, es[..k]).value, es[k]).Failure?)
    ensures var s := DecodeFields(State(Bare(ReadName(name.value).value), 1), es[..k]).value;
            FieldsLeft(e) ==
              if k < |es| && es[k].typ == 30 && s.last < PlaceOf(30)
              then Some(s.interest.(forwardingHint := s.interest.forwardingHint + HintSoFar(es[k].value)))
              else Some(s.interest)
    ensures Decode(sha, e).Success? ==> FieldsLeft(e) == Some(Decode(sha, e).value)
  {
    hide DecodeField, DecodeFields, FieldsSoFar, HintSoFar, Parse, ReadName, Bare, DigestIndex, DigestValid;
    var s := State(Bare(ReadName(name.value).value), 1);
    FieldsLeftAt(s, es, k);
    assert ([name] + es)[1..] == es;
    if Decode(sha, e).Success? {
      assert es[..|es|] == es;
      FieldsLeftAt(s, es, |es|);
    }
  }

  /** It is left alone if and only if the name is not reached or not accepted. */
  lemma NothingDecodedIff(sha: Bytes -> Digest, e: Element)
    ensures var es := Parse(e.value).elements;
            FieldsLeft(e).Some? <==>
              && e.typ == 5 && Parse(e.value).ending.AllRead? && es != [] && es[0].typ == 7
              && ReadName(es[0].value).Some? && ReadName(es[0].value).value != []
              && DigestIndex(ReadName(es[0].value).value) >= -1
    ensures FieldsLeft(e).None? ==> Decode(sha, e).Failure?
  {
    hide FieldsSoFar, DecodeFields, Parse, ReadName, Bare, DigestValid;
  }

  lemma {:induction false} OldAreElements(preferences: seq<Element>, hint: seq<Name>)
    requires |preferences| == |hint| && forall e | e in OldElements(preferences, hint) :: |e.value| < TWO_64
    ensures forall e | e in OldElements(preferences, hint) :: IsElement(e)
  {
    hide IsElement, Encode, Wires, NameValue;
    if hint != [] {
      var es := OldElements(preferences, hint);
      assert es[1..] == OldElements(preferences[1..], hint[1..]);
      OldAreElements(preferences[1..], hint[1..]);
      assert es[0] in es;
      MakeElementIsElement(31, es[0].value);
    }
  }

  // ---- round trip ----

  /** What may follow ApplicationParameters and still be kept by the decoder. */
  predicate IsTrailing(e: Element) {
    !IsCriticalType(e.typ) && e.typ != HOP_LIMIT && e.typ != APPLICATION_PARAMETERS
  }

  predicate WellFormedParameters(ps: seq<Element>) {
    && (forall p | p in ps :: IsElement(p))
    && (ps != [] ==> ps[0].typ == APPLICATION_PARAMETERS)
    && (forall k | 1 <= k < |ps| :: IsTrailing(ps[k]))
  }

  /** Fields that can be written as TLV. */
  predicate EncodableFields(i: Interest) {
    && EncodableName(i.name)
    && EncodableHint(i.forwardingHint)
    && i.nonce.Some?
    && WellFormedParameters(i.parameters)
    && |InterestValue(i)| < TWO_64
  }

  /** Interests that `wireEncode` can turn into a packet that `wireDecode` accepts. */
  predicate Encodable(sha: Bytes -> Digest, i: Interest) {
    EncodableFields(i) && i.name != [] && DigestValid(sha, i)
  }

  lemma {:induction false} DecodeAppend(s: State, a: seq<Element>, b: seq<Element>)
    requires DecodeFields(s, a).Success?
    ensures DecodeFields(s, a + b) == DecodeFields(DecodeFields(s, a).value, b)
    decreases a
  {
    hide DecodeField;
    if a == [] {
      assert a + b == b;
    } else {
      assert (a + b)[1..] == a[1..] + b;
      DecodeAppend(DecodeField(s, a[0]).value, a[1..], b);
    }
  }

  lemma DecodeOne(s: State, e: Element)
    ensures DecodeFields(s, [e]) == DecodeField(s, e)
  {
    hide DecodeField;
    assert [e][1..] == [];
    match DecodeField(s, e)
    case Failure =>
    case Success(s') => assert DecodeFields(s', []) == Success(s');
  }

  lemma {:induction false} DecodeParameters(s: State, ps: seq<Element>)
    requires s.interest.parameters != [] && s.last == 8
    requires forall p | p in ps :: IsTrailing(p)
    ensures DecodeFields(s, ps) == Success(State(s.interest.(parameters := s.interest.parameters + ps), 8))
    decreases ps
  {
    hide ReadHint, ReadLifetime;
    if ps == [] {
      assert s.interest.parameters + [] == s.interest.parameters;
    } else {
      var grown := s.interest.parameters + [ps[0]];
      assert ps[0] in ps;
      assert DecodeField(s, ps[0]) == Success(State(s.interest.(parameters := grown), 8));
      DecodeParameters(State(s.interest.(parameters := grown), 8), ps[1..]);
      assert grown + ps[1..] == s.interest.parameters + ps;
    }
  }

  /** The rank after an optional field of rank `k`. */
  function Rank(present: bool, k: nat, last: nat): nat {
    if present then k else last
  }

  lemma DecodeFlags(i: Interest)
    requires !i.canBePrefix && !i.mustBeFresh
    ensures forall c, m :: DecodeFields(State(i, 1), Flag(c, CAN_BE_PREFIX) + Flag(m, MUST_BE_FRESH))
              == Success(State(i.(canBePrefix := c, mustBeFresh := m), Rank(m, 3, Rank(c, 2, 1))))
  {
    hide ReadHint, ReadLifetime, Encode;
    forall c, m
      ensures DecodeFields(State(i, 1), Flag(c, CAN_BE_PREFIX) + Flag(m, MUST_BE_FRESH))
              == Success(State(i.(canBePrefix := c, mustBeFresh := m), Rank(m, 3, Rank(c, 2, 1))))
    {
      var s := State(i.(canBePrefix := c), Rank(c, 2, 1));
      DecodeOne(State(i, 1), MakeElement(CAN_BE_PREFIX, []));
      assert DecodeFields(State(i, 1), Flag(c, CAN_BE_PREFIX)) == Success(s);
      DecodeAppend(State(i, 1), Flag(c, CAN_BE_PREFIX), Flag(m, MUST_BE_FRESH));
      DecodeOne(s, MakeElement(MUST_BE_FRESH, []));
    }
  }

  lemma DecodeHintField(s: State, hint: seq<Name>)
    requires s.last < 4 && s.interest.forwardingHint == [] && EncodableHint(hint)
    ensures DecodeFields(s, HintField(hint))
            == Success(State(s.interest.(forwardingHint := hint), Rank(hint != [], 4, s.last)))
  {
    hide ReadHint, HintValue, ReadLifetime, Encode;
    if hint != [] {
      HintRoundTrip(hint);
      DecodeOne(s, MakeElement(FORWARDING_HINT, HintValue(hint)));
      assert [] + hint == hint;
    }
  }

  lemma DecodeNonceField(s: State, nonce: Nonce)
    requires s.last < 5
    ensures DecodeFields(s, NonceField(Some(nonce))) == Success(State(s.interest.(nonce := Some(nonce)), 5))
  {
    hide ReadHint, ReadLifetime, Encode;
    DecodeOne(s, MakeElement(NONCE, nonce));
  }

  lemma DecodeLifetimeField(s: State, lifetime: Milliseconds)
    requires s.last < 6 && s.interest.lifetime == DEFAULT_INTEREST_LIFETIME
    ensures DecodeFields(s, LifetimeField(lifetime))
            == Success(State(s.interest.(lifetime := lifetime),
                             Rank(lifetime != DEFAULT_INTEREST_LIFETIME, 6, s.last)))
  {
    hide ReadHint, Encode, NonNegativeInteger, ReadNonNegativeInteger;
    if lifetime != DEFAULT_INTEREST_LIFETIME {
      NonNegativeIntegerRoundTrip(ToUint64(lifetime));
      DecodeOne(s, MakeElement(INTEREST_LIFETIME, NonNegativeInteger(ToUint64(lifetime))));
    }
  }

  lemma DecodeHopLimitField(s: State, hopLimit: Option<Byte>)
    requires s.last < 7 && s.interest.hopLimit.None?
    ensures DecodeFields(s, HopLimitField(hopLimit))
            == Success(State(s.interest.(hopLimit := hopLimit), Rank(hopLimit.Some?, 7, s.last)))
  {
    hide ReadHint, ReadLifetime, Encode;
    if hopLimit.Some? {
      DecodeOne(s, MakeElement(HOP_LIMIT, [hopLimit.value]));
    }
  }

  lemma DecodeParametersField(s: State, ps: seq<Element>)
    requires s.last < 8 && s.interest.parameters == [] && WellFormedParameters(ps)
    ensures DecodeFields(s, ps)
            == Success(State(s.interest.(parameters := ps), Rank(ps != [], 8, s.last)))
  {
    hide ReadHint, ReadLifetime;
    if ps != [] {
      var s' := State(s.interest.(parameters := [ps[0]]), 8);
      assert [] + [ps[0]] == [ps[0]];
      assert DecodeField(s, ps[0]) == Success(s');
      forall p | p in ps[1..]
        ensures IsTrailing(p)
      {
        var k :| 0 <= k < |ps[1..]| && ps[1..][k] == p;
        assert ps[k + 1] == p;
      }
      DecodeParameters(s', ps[1..]);
      assert [ps[0]] + ps[1..] == ps;
    }
  }

  /** Every field that follows the name is restored. */
  lemma DecodeAllFields(i: Interest)
    requires EncodableHint(i.forwardingHint) && i.nonce.Some? && WellFormedParameters(i.parameters)
    ensures exists last :: DecodeFields(State(Bare(i.name), 1), Fields(i)) == Success(State(i, last))
  {
    hide DecodeFields, Flag, HintField, NonceField, LifetimeField, HopLimitField;
    var f1 := Flag(i.canBePrefix, CAN_BE_PREFIX) + Flag(i.mustBeFresh, MUST_BE_FRESH);
    var f2 := f1 + HintField(i.forwardingHint);
    var f3 := f2 + NonceField(i.nonce);
    var f4 := f3 + LifetimeField(i.lifetime);
    var f5 := f4 + HopLimitField(i.hopLimit);
    var s0 := State(Bare(i.name), 1);
    DecodeFlags(s0.interest);
    var s1 := State(s0.interest.(canBePrefix := i.canBePrefix, mustBeFresh := i.mustBeFresh),
                    Rank(i.mustBeFresh, 3, Rank(i.canBePrefix, 2, 1)));
    assert DecodeFields(s0, f1) == Success(s1);
    DecodeHintField(s1, i.forwardingHint);
    DecodeAppend(s0, f1, HintField(i.forwardingHint));
    var s2 := DecodeFields(s0, f2).value;
    DecodeNonceField(s2, i.nonce.value);
    DecodeAppend(s0, f2, NonceField(i.nonce));
    var s3 := DecodeFields(s0, f3).value;
    DecodeLifetimeField(s3, i.lifetime);
    DecodeAppend(s0, f3, LifetimeField(i.lifetime));
    var s4 := DecodeFields(s0, f4).value;
    DecodeHopLimitField(s4, i.hopLimit);
    DecodeAppend(s0, f4, HopLimitField(i.hopLimit));
    var s5 := DecodeFields(s0, f5).value;
    DecodeParametersField(s5, i.parameters);
    DecodeAppend(s0, f5, i.parameters);
    assert DecodeFields(s0, Fields(i)) == Success(State(i, Rank(i.parameters != [], 8, s5.last)));
  }

  lemma {:induction false} WiresBound(es: seq<Element>, e: Element)
    requires e in es
    ensures |e.wire| <= |Wires(es)|
  {
    if e != es[0] {
      WiresBound(es[1..], e);
    }
  }

  /** Everything the encoder lines up is an element that can be read back. */
  lemma ElementsAreSound(i: Interest)
    requires EncodableFields(i)
    ensures forall e | e in [MakeElement(NAME, NameValue(i.name))] + Fields(i) :: IsElement(e)
  {
    hide IsElement, Encode, NameValue, HintValue, NonNegativeInteger, DigestValid;
    var es := [MakeElement(NAME, NameValue(i.name))] + Fields(i);
    forall e | e in es
      ensures IsElement(e)
    {
      WiresBound(es, e);
      if e !in i.parameters {
        assert e.typ in {NAME, CAN_BE_PREFIX, MUST_BE_FRESH, FORWARDING_HINT, NONCE, INTEREST_LIFETIME, HOP_LIMIT};
        assert e == MakeElement(e.typ, e.value);
        MakeElementIsElement(e.typ, e.value);
      }
    }
  }

  /** Decoding what was encoded restores the Interest, whatever its fields. */
  lemma InterestRoundTrip(sha: Bytes -> Digest, i: Interest)
    requires Encodable(sha, i)
    ensures Decode(sha, MakeElement(INTEREST, InterestValue(i))) == Success(i)
    ensures IsElement(MakeElement(INTEREST, InterestValue(i)))
  {
    hide IsElement, Encode, Parse, Fields, DecodeFields, DigestIndex, NameValue, ReadName;
    var es := [MakeElement(NAME, NameValue(i.name))] + Fields(i);
    MakeElementIsElement(INTEREST, InterestValue(i));
    ElementsAreSound(i);
    ParseWires(es);
    NameRoundTrip(i.name);
    assert es[1..] == Fields(i);
    DecodeAllFields(i);
  }

  /** A packet with an empty name is written but never accepted. */
  lemma EmptyNameRejected(sha: Bytes -> Digest, i: Interest)
    requires EncodableFields(i) && i.name == []
    ensures Decode(sha, MakeElement(INTEREST, InterestValue(i))).Failure?
  {
    hide IsElement, Encode, Parse, Fields, DecodeFields, NameValue, ReadName;
    var es := [MakeElement(NAME, NameValue(i.name))] + Fields(i);
    ElementsAreSound(i);
    ParseWires(es);
    NameRoundTrip(i.name);
  }

  // ---- what decoding guarantees ----

  /** The parameters gathered so far, in a state of the decoder. */
  predicate SoundState(s: State) {
    && EncodableHint(s.interest.forwardingHint)
    && WellFormedParameters(s.interest.parameters)
    && (s.interest.parameters != [] <==> s.last == 8)
    && s.last <= 8
  }

  /** A name that was read can be written again, in no more octets. */
  lemma ReadNameSound(value: Bytes)
    requires ReadName(value).Some?
    ensures EncodableName(ReadName(value).value)
    ensures |NameValue(ReadName(value).value)| <= |value|
  {
    hide IsElement, Encode, Parse;
    var es := Parse(value).elements;
    var n := ReadName(value).value;
    ParseSound(value);
    forall c | c in n
      ensures 0 < c.typ < TWO_32 && |c.value| < TWO_64
    {
      var i :| 0 <= i < |n| && n[i] == c;
      ElementRange(es[i]);
    }
    WiresOfMade(es, NameElements(n));
    ReencodeLength(es);
  }

  lemma ElementRange(e: Element)
    requires IsElement(e)
    ensures 0 < e.typ < TWO_32 && |e.value| < TWO_64
  {
    hide ReadHead;
  }

  lemma ReadDelegationSound(e: Element)
    requires IsElement(e) && ReadDelegation(e).Success?
    ensures EncodableHint(ReadDelegation(e).value)
  {
    hide IsElement, Parse, ReadName, NameValue, EncodableName;
    ElementRange(e);
    if e.typ == NAME {
      ReadNameSound(e.value);
    } else if e.typ == DELEGATION {
      var es := Parse(e.value).elements;
      ParseSound(e.value);
      FirstOfTypeIn(es, NAME);
      var inner := FirstOfType(es, NAME).value;
      ElementRange(inner);
      ReadNameSound(inner.value);
    }
  }

  lemma {:induction false} FirstOfTypeIn(es: seq<Element>, typ: nat)
    ensures FirstOfType(es, typ).Some? ==> FirstOfType(es, typ).value in es
  {
    if es != [] && es[0].typ != typ {
      FirstOfTypeIn(es[1..], typ);
    }
  }

  lemma {:induction false} ReadDelegationsSound(es: seq<Element>)
    requires (forall e | e in es :: IsElement(e)) && ReadDelegations(es).Success?
    ensures EncodableHint(ReadDelegations(es).value)
  {
    hide IsElement, ReadDelegation, NameValue, EncodableName;
    if es != [] {
      ReadDelegationSound(es[0]);
      ReadDelegationsSound(es[1..]);
    }
  }

  lemma ReadHintSound(value: Bytes)
    requires ReadHint(value).Success?
    ensures EncodableHint(ReadHint(value).value)
  {
    hide IsElement, Parse, ReadDelegations, EncodableHint;
    ParseSound(value);
    ReadDelegationsSound(Parse(value).elements);
  }

  lemma DecodeFieldSound(s: State, e: Element)
    requires SoundState(s) && IsElement(e) && DecodeField(s, e).Success?
    ensures SoundState(DecodeField(s, e).value)
    ensures DecodeField(s, e).value.interest.name == s.interest.name
  {
    hide IsElement, ReadHint, ReadLifetime, EncodableName, NameValue;
    if e.typ == FORWARDING_HINT {
      ReadHintSound(e.value);
    }
  }

  lemma {:induction false} DecodeFieldsSound(s: State, es: seq<Element>)
    requires SoundState(s) && (forall e | e in es :: IsElement(e)) && DecodeFields(s, es).Success?
    ensures SoundState(DecodeFields(s, es).value)
    ensures DecodeFields(s, es).value.interest.name == s.interest.name
    decreases es
  {
    hide IsElement, DecodeField, SoundState;
    if es != [] {
      DecodeFieldSound(s, es[0]);
      DecodeFieldsSound(DecodeField(s, es[0]).value, es[1..]);
    }
  }

  lemma EncodableNothing()
    ensures EncodableHint([])
  {
  }

  /** A decoded Interest has a name and parameters fit for encoding, and a matching digest. */
  lemma DecodeSound(sha: Bytes -> Digest, e: Element)
    requires Decode(sha, e).Success?
    ensures var i := Decode(sha, e).value;
            && i.name != [] && EncodableName(i.name) && EncodableHint(i.forwardingHint)
            && WellFormedParameters(i.parameters) && DigestValid(sha, i)
  {
    hide IsElement, Parse, DecodeFields, DigestValid, ReadName, EncodableName, EncodableHint, NameValue;
    var es := Parse(e.value).elements;
    ParseSound(e.value);
    var name := ReadName(es[0].value).value;
    ReadNameSound(es[0].value);
    EncodableNothing();
    DecodeFieldsSound(State(Bare(name), 1), es[1..]);
  }

  /** What the three kinds of answer of `findParametersDigestComponent` mean. */
  lemma {:induction false} DigestIndexMeaning(n: Name)
    ensures DigestIndex(n) == -1 <==> forall j | 0 <= j < |n| :: !IsParametersDigest(n[j])
    ensures DigestIndex(n) >= 0 ==> forall j | 0 <= j < |n| :: IsParametersDigest(n[j]) <==> j == DigestIndex(n)
    ensures DigestIndex(n) == -2 <==>
            exists j, k | 0 <= j < k < |n| :: IsParametersDigest(n[j]) && IsParametersDigest(n[k])
  {
    if n != [] {
      var front, last := n[..|n| - 1], |n| - 1;
      DigestIndexMeaning(front);
      assert forall j | 0 <= j < last :: front[j] == n[j];
      if DigestIndex(front) >= 0 && IsParametersDigest(n[last]) {
        assert IsParametersDigest(n[DigestIndex(front)]) && IsParametersDigest(n[last]);
      }
      if DigestIndex(front) == -2 {
        var j, k :| 0 <= j < k < last && IsParametersDigest(front[j]) && IsParametersDigest(front[k]);
        assert IsParametersDigest(n[j]) && IsParametersDigest(n[k]);
      }
    }
  }
}
