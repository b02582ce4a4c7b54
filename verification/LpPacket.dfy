/** NDNLPv2 packets: a list of fields kept in sort order, and its wire form. */
module LpPacket {
  import opened Wrappers
  import opened Tlv
  import opened Blocks

  const LP_PACKET := 100
  const FRAGMENT := 80
  const ACK := 836
  const INTEREST := 5
  const DATA := 6

  const FIELD_SET: set<nat> :=
    {FRAGMENT, 81, 82, 83, 98, 800, 812, 816, 820, 832, ACK, 840, 844, 848}

  datatype Field = Field(typ: nat, value: Bytes)

  // ---- field information ----

  predicate IsRecognized(typ: nat) {
    typ in FIELD_SET
  }

  /** Unknown fields that a receiver may skip. */
  predicate CanIgnore(typ: nat) {
    !IsRecognized(typ) && 800 <= typ <= 959 && typ % 4 == 0
  }

  predicate IsRepeatable(typ: nat) {
    typ == ACK
  }

  /** The fragment is sorted behind every header. */
  function LocationSortOrder(typ: nat): nat {
    if typ == FRAGMENT then 2 else 1
  }

  /** `compareFieldSortOrder`. */
  predicate FieldLess(a: nat, b: nat) {
    || LocationSortOrder(a) < LocationSortOrder(b)
    || (LocationSortOrder(a) == LocationSortOrder(b) && a < b)
  }

  // ---- lists of fields ----

  predicate IsKnown(f: Field) {
    IsRecognized(f.typ) || CanIgnore(f.typ)
  }

  /** `b` may directly follow `a`: a repetition if allowed, else a later field. */
  predicate MayFollow(a: Field, b: Field) {
    if a.typ == b.typ then IsRepeatable(b.typ) else FieldLess(a.typ, b.typ)
  }

  /** What `wireDecode` checks, element by element against the one before. */
  predicate Accepted(fs: seq<Field>) {
    && (forall i | 0 <= i < |fs| :: IsKnown(fs[i]))
    && (forall i | 0 < i < |fs| :: MayFollow(fs[i - 1], fs[i]))
  }

  /** Order over the whole list. */
  predicate Ordered(fs: seq<Field>) {
    && (forall f | f in fs :: IsKnown(f))
    && (forall i, j | 0 <= i < j < |fs| :: MayFollow(fs[i], fs[j]))
  }

  /** Checking neighbours is enough to order the whole list. */
  lemma AcceptedIffOrdered(fs: seq<Field>)
    ensures Accepted(fs) <==> Ordered(fs)
  {
    if Accepted(fs) {
      forall i, j | 0 <= i < j < |fs|
        ensures MayFollow(fs[i], fs[j])
      {
        AcceptedFollows(fs, i, j);
      }
    }
  }

  lemma {:induction false} AcceptedFollows(fs: seq<Field>, i: nat, j: nat)
    requires Accepted(fs) && i < j < |fs|
    ensures MayFollow(fs[i], fs[j])
    decreases j
  {
    if i < j - 1 {
      AcceptedFollows(fs, i, j - 1);
    }
    assert MayFollow(fs[j - 1], fs[j]);
  }

  /** The fields a packet may hold: five of one-octet types, and every fourth type of the three-octet block. */
  lemma KnownTypes(f: Field)
    ensures IsKnown(f) <==> f.typ in {80, 81, 82, 83, 98} || (800 <= f.typ <= 959 && f.typ % 4 == 0)
  {
  }

  /** Nothing but the fragment may come last behind a higher type, and only Ack (836) may repeat. */
  predicate InTypeOrder(a: nat, b: nat) {
    a != 80 && (b == 80 || a < b || (a == 836 && b == 836))
  }

  /**
   Which lists are accepted, by their types alone: only known fields, no field behind the fragment,
   header types never descending, and equal neighbours only for Ack.
   */
  lemma AcceptedByTypes(fs: seq<Field>)
    ensures Accepted(fs) <==>
            && (forall i | 0 <= i < |fs| :: IsKnown(fs[i]))
            && (forall i | 0 < i < |fs| :: InTypeOrder(fs[i - 1].typ, fs[i].typ))
    ensures Accepted(fs) <==>
            && (forall f | f in fs :: IsKnown(f))
            && (forall i, j | 0 <= i < j < |fs| :: InTypeOrder(fs[i].typ, fs[j].typ))
  {
    hide IsKnown;
    AcceptedIffOrdered(fs);
    forall a: Field, b: Field
      ensures MayFollow(a, b) <==> InTypeOrder(a.typ, b.typ)
    {
    }
  }

  /** So the fragment, if there is one, is the last field, and each type but Ack is there once. */
  lemma FragmentIsLast(fs: seq<Field>, i: nat)
    requires Accepted(fs) && i < |fs| && fs[i].typ == 80
    ensures i == |fs| - 1
  {
    hide IsKnown, MayFollow;
    AcceptedByTypes(fs);
    assert i < |fs| - 1 ==> InTypeOrder(fs[i].typ, fs[i + 1].typ);
  }

  /** The values of one field, in order: what `count`, `get` and `list` look at. */
  function ValuesOf(fs: seq<Field>, typ: nat): seq<Bytes> {
    if fs == [] then []
    else (if fs[0].typ == typ then [fs[0].value] else []) + ValuesOf(fs[1..], typ)
  }

  lemma {:induction false} ValuesOfAppend(a: seq<Field>, b: seq<Field>, typ: nat)
    ensures ValuesOf(a + b, typ) == ValuesOf(a, typ) + ValuesOf(b, typ)
  {
    if a == [] {
      assert a + b == b;
    } else {
      assert (a + b)[1..] == a[1..] + b;
      ValuesOfAppend(a[1..], b, typ);
    }
  }

  lemma {:induction false} NoValues(fs: seq<Field>, typ: nat)
    ensures ValuesOf(fs, typ) == [] <==> forall f | f in fs :: f.typ != typ
  {
    if fs != [] {
      NoValues(fs[1..], typ);
    }
  }

  /** In an ordered list a field that is not repeatable occurs at most once. */
  lemma {:induction false} AtMostOnce(fs: seq<Field>, typ: nat)
    requires Ordered(fs) && !IsRepeatable(typ)
    ensures |ValuesOf(fs, typ)| <= 1
  {
    if fs != [] {
      assert forall i, j | 0 <= i < j < |fs[1..]| :: fs[1..][i] == fs[i + 1] && fs[1..][j] == fs[j + 1];
      AtMostOnce(fs[1..], typ);
      if fs[0].typ == typ {
        forall f | f in fs[1..]
          ensures f.typ != typ
        {
          var j :| 0 <= j < |fs[1..]| && fs[1..][j] == f;
          assert MayFollow(fs[0], fs[j + 1]);
        }
        NoValues(fs[1..], typ);
      }
    }
  }

  // ---- inserting ----

  /** `std::upper_bound`: the first position whose field comes after `typ`. */
  function UpperBound(fs: seq<Field>, typ: nat): (k: nat)
    ensures k <= |fs|
    ensures forall i | 0 <= i < k :: !FieldLess(typ, fs[i].typ)
    ensures k < |fs| ==> FieldLess(typ, fs[k].typ)
  {
    if fs == [] || FieldLess(typ, fs[0].typ) then 0 else 1 + UpperBound(fs[1..], typ)
  }

  function Inserted(fs: seq<Field>, f: Field): seq<Field> {
    var k := UpperBound(fs, f.typ);
    fs[..k] + [f] + fs[k..]
  }

  /** Everything at or behind the upper bound comes after `typ`. */
  lemma BehindBound(fs: seq<Field>, typ: nat, j: nat)
    requires Ordered(fs) && UpperBound(fs, typ) <= j < |fs|
    ensures FieldLess(typ, fs[j].typ)
  {
    hide UpperBound, IsKnown;
    var k := UpperBound(fs, typ);
    assert j > k ==> MayFollow(fs[k], fs[j]);
  }

  /** Everything before the upper bound may be followed by a new field, unless it repeats it. */
  lemma BeforeBound(fs: seq<Field>, f: Field, i: nat)
    requires i < UpperBound(fs, f.typ)
    requires fs[i].typ != f.typ || IsRepeatable(f.typ)
    ensures MayFollow(fs[i], f)
  {
    hide UpperBound;
  }

  lemma InsertedOrdered(fs: seq<Field>, f: Field)
    requires Ordered(fs) && IsKnown(f)
    requires !IsRepeatable(f.typ) ==> ValuesOf(fs, f.typ) == []
    ensures Ordered(Inserted(fs, f))
  {
    hide UpperBound, IsKnown, MayFollow, FieldLess, ValuesOf;
    var k := UpperBound(fs, f.typ);
    forall i | 0 <= i < k
      ensures MayFollow(fs[i], f)
    {
      NoValues(fs, f.typ);
      assert fs[i] in fs;
      BeforeBound(fs, f, i);
    }
    forall j | k <= j < |fs|
      ensures MayFollow(f, fs[j])
    {
      BehindBound(fs, f.typ, j);
      LessFollows(f, fs[j]);
    }
    OrderedInserted(fs, f, k);
  }

  lemma LessFollows(a: Field, b: Field)
    requires FieldLess(a.typ, b.typ)
    ensures MayFollow(a, b)
  {
  }

  lemma OrderedInserted(fs: seq<Field>, f: Field, k: nat)
    requires Ordered(fs) && IsKnown(f) && k <= |fs|
    requires forall i | 0 <= i < k :: MayFollow(fs[i], f)
    requires forall j | k <= j < |fs| :: MayFollow(f, fs[j])
    ensures Ordered(fs[..k] + [f] + fs[k..])
  {
    hide IsKnown, MayFollow;
    var more := fs[..k] + [f] + fs[k..];
    assert forall i | 0 <= i < |more| :: more[i] == if i < k then fs[i] else if i == k then f else fs[i - 1];
  }

  /** A new value goes behind the earlier values of its field and leaves other fields alone. */
  lemma InsertedValues(fs: seq<Field>, f: Field, typ: nat)
    requires Ordered(fs)
    ensures ValuesOf(Inserted(fs, f), typ) == ValuesOf(fs, typ) + if typ == f.typ then [f.value] else []
  {
    hide UpperBound, Ordered, FieldLess, ValuesOf;
    var k := UpperBound(fs, f.typ);
    SplitValues(fs[..k], f, fs[k..], typ);
    assert fs == fs[..k] + fs[k..];
    if typ == f.typ {
      forall g | g in fs[k..]
        ensures g.typ != typ
      {
        var i :| 0 <= i < |fs[k..]| && fs[k..][i] == g;
        BehindBound(fs, typ, k + i);
        NotLess(typ);
      }
      NoValues(fs[k..], typ);
    }
  }

  lemma NotLess(typ: nat)
    ensures !FieldLess(typ, typ)
  {
  }

  lemma SplitValues(a: seq<Field>, f: Field, b: seq<Field>, typ: nat)
    ensures ValuesOf(a + [f] + b, typ)
            == ValuesOf(a, typ) + (if typ == f.typ then [f.value] else []) + ValuesOf(b, typ)
    ensures ValuesOf(a + b, typ) == ValuesOf(a, typ) + ValuesOf(b, typ)
  {
    hide ValuesOf;
    ValuesOfAppend(a, b, typ);
    ValuesOfAppend(a + [f], b, typ);
    ValuesOfAppend(a, [f], typ);
    ValuesOfOne(f, typ);
  }

  lemma ValuesOfOne(f: Field, typ: nat)
    ensures ValuesOf([f], typ) == if f.typ == typ then [f.value] else []
  {
    assert [f][1..] == [];
  }

  // ---- removing ----

  /** `Block::remove`: the list without any field of the type. */
  function Cleared(fs: seq<Field>, typ: nat): (r: seq<Field>)
    ensures forall f | f in r :: f in fs && f.typ != typ
  {
    if fs == [] then []
    else if fs[0].typ == typ then Cleared(fs[1..], typ)
    else [fs[0]] + Cleared(fs[1..], typ)
  }

  lemma {:induction false} ClearedOrdered(fs: seq<Field>, typ: nat)
    requires Ordered(fs)
    ensures Ordered(Cleared(fs, typ))
  {
    hide IsKnown, MayFollow;
    if fs != [] {
      OrderedTail(fs);
      ClearedOrdered(fs[1..], typ);
      var rest := Cleared(fs[1..], typ);
      if fs[0].typ != typ {
        forall f | f in rest
          ensures MayFollow(fs[0], f)
        {
          var j :| 0 <= j < |fs[1..]| && fs[1..][j] == f;
          assert fs[j + 1] == f;
        }
        OrderedCons(fs[0], rest);
      }
    }
  }

  lemma OrderedTail(fs: seq<Field>)
    requires Ordered(fs) && fs != []
    ensures Ordered(fs[1..])
  {
    hide IsKnown, MayFollow;
    assert forall i | 0 <= i < |fs[1..]| :: fs[1..][i] == fs[i + 1];
  }

  lemma OrderedCons(f: Field, fs: seq<Field>)
    requires Ordered(fs) && IsKnown(f) && forall g | g in fs :: MayFollow(f, g)
    ensures Ordered([f] + fs)
  {
    hide IsKnown, MayFollow;
    var more := [f] + fs;
    assert forall i | 1 <= i < |more| :: more[i] == fs[i - 1];
  }

  lemma {:induction false} ClearedValues(fs: seq<Field>, typ: nat, other: nat)
    ensures ValuesOf(Cleared(fs, typ), other) == if other == typ then [] else ValuesOf(fs, other)
  {
    if fs != [] {
      ClearedValues(fs[1..], typ, other);
      if fs[0].typ != typ {
        assert ([fs[0]] + Cleared(fs[1..], typ))[1..] == Cleared(fs[1..], typ);
      }
    }
  }

  function Dropped(fs: seq<Field>, k: nat): seq<Field>
    requires k < |fs|
  {
    fs[..k] + fs[k + 1..]
  }

  lemma DroppedOrdered(fs: seq<Field>, k: nat)
    requires Ordered(fs) && k < |fs|
    ensures Ordered(Dropped(fs, k))
  {
    hide IsKnown, MayFollow;
    var rest := Dropped(fs, k);
    assert forall i | 0 <= i < |rest| :: rest[i] == fs[if i < k then i else i + 1];
  }

  lemma DroppedValues(fs: seq<Field>, k: nat, typ: nat)
    requires k < |fs|
    ensures ValuesOf(Dropped(fs, k), typ)
            == ValuesOf(fs[..k], typ) + ValuesOf(fs[k + 1..], typ)
    ensures ValuesOf(fs, typ)
            == ValuesOf(fs[..k], typ) + (if fs[k].typ == typ then [fs[k].value] else []) + ValuesOf(fs[k + 1..], typ)
  {
    hide ValuesOf;
    assert fs == fs[..k] + [fs[k]] + fs[k + 1..];
    SplitValues(fs[..k], fs[k], fs[k + 1..], typ);
  }

  // ---- wire form ----

  function Made(fs: seq<Field>): seq<Element> {
    if fs == [] then [] else [MakeElement(fs[0].typ, fs[0].value)] + Made(fs[1..])
  }

  function FieldsOf(es: seq<Element>): (fs: seq<Field>)
    ensures |fs| == |es|
  {
    if es == [] then [] else [Field(es[0].typ, es[0].value)] + FieldsOf(es[1..])
  }

  /** A packet without header: `wireEncode` returns the network packet itself. */
  predicate IsBare(fs: seq<Field>) {
    |fs| == 1 && fs[0].typ == FRAGMENT
  }

  /** `None` when the fragment of a bare packet holds no network packet. */
  function EncodePacket(fs: seq<Field>): Option<Element> {
    if IsBare(fs) then
      var parsed := Parse(fs[0].value);
      if parsed.ending.AllRead? && parsed.elements != [] then Some(parsed.elements[0]) else None
    else
      Some(MakeElement(LP_PACKET, Wires(Made(fs))))
  }

  function DecodePacket(e: Element): Option<seq<Field>> {
    if e.typ == INTEREST || e.typ == DATA then Some([Field(FRAGMENT, e.wire)])
    else if e.typ != LP_PACKET then None
    else
      var parsed := Parse(e.value);
      if parsed.ending.AllRead? && Accepted(FieldsOf(parsed.elements))
      then Some(FieldsOf(parsed.elements)) else None
  }

  /** The packet fits in a buffer whose size is a 64-bit number. */
  predicate Fits(fs: seq<Field>) {
    |Wires(Made(fs))| < TWO_64
  }

  lemma {:induction false} MadeFields(fs: seq<Field>)
    ensures FieldsOf(Made(fs)) == fs
  {
    if fs != [] {
      MadeFields(fs[1..]);
      assert ([MakeElement(fs[0].typ, fs[0].value)] + Made(fs[1..]))[1..] == Made(fs[1..]);
    }
  }

  lemma {:induction false} MadeElements(fs: seq<Field>)
    requires Fits(fs) && forall f | f in fs :: 0 < f.typ < TWO_32
    ensures forall e | e in Made(fs) :: IsElement(e)
  {
    hide IsElement, Encode;
    if fs != [] {
      var e := MakeElement(fs[0].typ, fs[0].value);
      assert Made(fs)[1..] == Made(fs[1..]);
      MadeElements(fs[1..]);
      MakeElementIsElement(fs[0].typ, fs[0].value);
    }
  }

  lemma KnownType(f: Field)
    requires IsKnown(f)
    ensures 0 < f.typ < TWO_32
  {
  }

  /** A packet with headers is read back field for field. */
  lemma HeaderRoundTrip(fs: seq<Field>)
    requires Ordered(fs) && Fits(fs)
    ensures DecodePacket(MakeElement(LP_PACKET, Wires(Made(fs)))) == Some(fs)
  {
    hide Encode, Wires, Made, IsElement, Parse, IsKnown, MayFollow, IsRecognized;
    forall f | f in fs
      ensures 0 < f.typ < TWO_32
    {
      KnownType(f);
    }
    MadeElements(fs);
    ParseWires(Made(fs));
    MadeFields(fs);
    AcceptedIffOrdered(fs);
  }

  /** The fragment is exactly one Interest or Data. */
  predicate CarriesOnePacket(fragment: Bytes) {
    var parsed := Parse(fragment);
    parsed.ending.AllRead? && |parsed.elements| == 1 && parsed.elements[0].typ in {INTEREST, DATA}
  }

  lemma BareRoundTripIff(fs: seq<Field>)
    requires IsBare(fs)
    ensures EncodePacket(fs).Some? && DecodePacket(EncodePacket(fs).value) == Some(fs)
            <==> CarriesOnePacket(fs[0].value)
  {
    hide Accepted, ReadHead, IsElement;
    var v := fs[0].value;
    assert fs == [Field(FRAGMENT, v)];
    var parsed := Parse(v);
    if parsed.ending.AllRead? && parsed.elements != [] {
      var es := parsed.elements;
      ParseSound(v);
      assert v == es[0].wire + Wires(es[1..]);
      LongerThanValue(es[0]);
      if es[0].typ in {INTEREST, DATA} {
        OnlyOne(es);
      } else if es[0].typ == LP_PACKET && Parse(es[0].value).ending.AllRead? {
        ShorterInside(es[0].value);
      }
    }
  }

  lemma LongerThanValue(e: Element)
    requires IsElement(e)
    ensures 2 <= |e.wire| && |e.value| < |e.wire|
  {
  }

  lemma OnlyOne(es: seq<Element>)
    requires es != [] && forall e | e in es :: IsElement(e)
    ensures es[0].wire == Wires(es) <==> |es| == 1
  {
    hide IsElement, ReadHead;
    if |es| > 1 {
      LongerThanValue(es[1]);
      assert Wires(es[1..]) == es[1].wire + Wires(es[1..][1..]);
      assert |Wires(es)| > |es[0].wire|;
    } else {
      assert es[1..] == [];
    }
  }

  lemma ShorterInside(s: Bytes)
    requires Parse(s).ending.AllRead?
    ensures forall f | f in FieldsOf(Parse(s).elements) :: |f.value| < |s|
  {
    hide ReadHead, Parse;
    ParseSound(s);
    ValuesShorter(Parse(s).elements);
  }

  lemma {:induction false} ValuesShorter(es: seq<Element>)
    requires forall e | e in es :: IsElement(e)
    ensures forall f | f in FieldsOf(es) :: |f.value| < |Wires(es)|
  {
    hide IsElement, ReadHead;
    if es != [] {
      LongerThanValue(es[0]);
      ValuesShorter(es[1..]);
    }
  }

  /**
   Encoding and decoding gives the same fields back exactly when the packet has a header, or its
   fragment is one whole Interest or Data.
   */
  lemma PacketRoundTripIff(fs: seq<Field>)
    requires Ordered(fs) && Fits(fs)
    ensures EncodePacket(fs).Some? && DecodePacket(EncodePacket(fs).value) == Some(fs)
            <==> !IsBare(fs) || CarriesOnePacket(fs[0].value)
  {
    hide Parse, DecodePacket;
    if IsBare(fs) {
      BareRoundTripIff(fs);
    } else {
      HeaderRoundTrip(fs);
    }
  }

  /** A bare Interest or Data passes through unchanged. */
  lemma NetworkPacketRoundTrip(e: Element)
    requires IsElement(e) && e.typ in {INTEREST, DATA}
    ensures DecodePacket(e).Some? && EncodePacket(DecodePacket(e).value) == Some(e)
  {
    hide Parse, IsElement;
    assert Wires([e]) == e.wire by {
      assert [e][1..] == [];
    }
    ParseWires([e]);
  }

  // ---- the packet object ----

  class Packet {
    var elements: seq<Field>
    /** The encoded packet, kept until a field changes. */
    var wire: Option<Element>

    ghost predicate Valid()
      reads this
    {
      && Ordered(elements)
      && (wire.Some? ==> wire.value.typ == LP_PACKET && DecodePacket(wire.value) == Some(elements))
    }

    constructor ()
      ensures Valid() && elements == []
    {
      elements, wire := [], None;
    }

    method Count(typ: nat) returns (n: nat)
      ensures n == |ValuesOf(elements, typ)|
    {
      n := 0;
      for i := 0 to |elements|
        invariant n == |ValuesOf(elements[..i], typ)|
      {
        NextValue(elements, i, typ);
        if elements[i].typ == typ {
          n := n + 1;
        }
      }
      assert elements[..|elements|] == elements;
    }

    /** `None` is the exception for an index out of range. */
    method Get(typ: nat, index: nat) returns (r: Option<Bytes>)
      ensures var vs := ValuesOf(elements, typ);
              r == if index < |vs| then Some(vs[index]) else None
    {
      var k := Occurrence(typ, index);
      r := if k.Some? then Some(elements[k.value].value) else None;
    }

    /** The position of the `index`-th field of a type. */
    method Occurrence(typ: nat, index: nat) returns (k: Option<nat>)
      ensures k.None? <==> |ValuesOf(elements, typ)| <= index
      ensures k.Some? ==> k.value < |elements| && elements[k.value].typ == typ
      ensures k.Some? ==> |ValuesOf(elements[..k.value], typ)| == index
      ensures k.Some? ==> index < |ValuesOf(elements, typ)|
      ensures k.Some? ==> ValuesOf(elements, typ)[index] == elements[k.value].value
    {
      hide ValuesOf;
      var count := 0;
      NoValues([], typ);
      for i := 0 to |elements|
        invariant count == |ValuesOf(elements[..i], typ)| <= index
      {
        NextValue(elements, i, typ);
        if elements[i].typ == typ {
          if count == index {
            DroppedValues(elements, i, typ);
            return Some(i);
          }
          count := count + 1;
        }
      }
      assert elements[..|elements|] == elements;
      k := None;
    }

    /** Fails when the field is there and cannot be repeated; otherwise appends to its values. */
    method Add(typ: nat, value: Bytes) returns (ok: bool)
      requires Valid() && IsRecognized(typ)
      modifies this
      ensures Valid()
      ensures ok <==> IsRepeatable(typ) || old(ValuesOf(elements, typ)) == []
      ensures !ok ==> elements == old(elements)
      ensures ok ==> forall t: nat ::
                ValuesOf(elements, t) == old(ValuesOf(elements, t)) + if t == typ then [value] else []
    {
      hide ValuesOf, Ordered;
      var n := Count(typ);
      if !IsRepeatable(typ) && n > 0 {
        return false;
      }
      var f := Field(typ, value);
      InsertedOrdered(elements, f);
      forall t: nat
        ensures ValuesOf(Inserted(elements, f), t)
                == ValuesOf(elements, t) + if t == typ then [value] else []
      {
        InsertedValues(elements, f, t);
      }
      elements, wire := Inserted(elements, f), None;
      ok := true;
    }

    method Clear(typ: nat)
      requires Valid()
      modifies this
      ensures Valid()
      ensures forall t: nat ::
                ValuesOf(elements, t) == if t == typ then [] else old(ValuesOf(elements, t))
    {
      hide ValuesOf, Ordered;
      ClearedOrdered(elements, typ);
      forall t: nat
        ensures ValuesOf(Cleared(elements, typ), t) == if t == typ then [] else ValuesOf(elements, t)
      {
        ClearedValues(elements, typ, t);
      }
      elements, wire := Cleared(elements, typ), None;
    }

    /** Never fails: the field has the one value afterwards, and no other field changes. */
    method Set(typ: nat, value: Bytes)
      requires Valid() && IsRecognized(typ)
      modifies this
      ensures Valid()
      ensures forall t: nat ::
                ValuesOf(elements, t) == if t == typ then [value] else old(ValuesOf(elements, t))
    {
      hide ValuesOf, Ordered;
      Clear(typ);
      var ok := Add(typ, value);
      assert ok;
    }

    /** Fails when there are not that many; otherwise takes one value out. */
    method Remove(typ: nat, index: nat) returns (ok: bool)
      requires Valid()
      modifies this
      ensures Valid()
      ensures ok <==> index < |old(ValuesOf(elements, typ))|
      ensures !ok ==> elements == old(elements)
      ensures ok ==>
                ValuesOf(elements, typ)
                == old(ValuesOf(elements, typ)[..index] + ValuesOf(elements, typ)[index + 1..])
      ensures ok ==> forall t: nat | t != typ :: ValuesOf(elements, t) == old(ValuesOf(elements, t))
    {
      hide ValuesOf, Ordered;
      var found := Occurrence(typ, index);
      if found.None? {
        return false;
      }
      var k := found.value;
      DroppedOrdered(elements, k);
      forall t: nat
        ensures t != typ ==> ValuesOf(Dropped(elements, k), t) == ValuesOf(elements, t)
        ensures t == typ ==>
                  ValuesOf(Dropped(elements, k), t)
                  == ValuesOf(elements, t)[..index] + ValuesOf(elements, t)[index + 1..]
      {
        DroppedValues(elements, k, t);
      }
      elements, wire := Dropped(elements, k), None;
      ok := true;
    }

    /** Accepts exactly what `DecodePacket` does; a failure leaves the packet as it was. */
    method WireDecode(e: Element) returns (ok: bool)
      requires Valid() && IsElement(e)
      modifies this
      ensures Valid()
      ensures ok <==> DecodePacket(e).Some?
      ensures elements == if ok then DecodePacket(e).value else old(elements)
    {
      hide Parse, IsElement, IsKnown, MayFollow, FieldLess;
      if e.typ == INTEREST || e.typ == DATA {
        elements, wire := [Field(FRAGMENT, e.wire)], None;
        FragmentKnown(e.wire);
        return true;
      }
      if e.typ != LP_PACKET {
        return false;
      }
      var good, es := ParseBlock(e.value, []);
      if !good {
        return false;
      }
      var fs := FieldsOf(es);
      for i := 0 to |fs|
        invariant forall j | 0 <= j < i :: IsKnown(fs[j])
        invariant forall j | 0 < j < i :: MayFollow(fs[j - 1], fs[j])
      {
        if !IsKnown(fs[i]) || (i > 0 && !MayFollow(fs[i - 1], fs[i])) {
          return false;
        }
      }
      AcceptedIffOrdered(fs);
      elements, wire := fs, Some(e);
      ok := true;
    }

    /** Either the bare network packet, or an LpPacket from which the same fields are decoded. */
    method WireEncode() returns (r: Option<Element>)
      requires Valid() && Fits(elements)
      modifies this
      ensures Valid() && elements == old(elements)
      ensures IsBare(elements) ==> r == EncodePacket(elements)
      ensures !IsBare(elements) ==> r.Some? && r.value.typ == LP_PACKET
      ensures !IsBare(elements) ==> DecodePacket(r.value) == Some(elements)
      ensures !IsBare(elements) && old(wire).None? ==> r == EncodePacket(elements)
      ensures !IsBare(elements) && old(wire).Some? ==> r == old(wire)
    {
      hide Parse, Ordered, Wires, Made, Fits, DecodePacket;
      if IsBare(elements) {
        var good, inner := ParseBlock(elements[0].value, []);
        return if good && inner != [] then Some(inner[0]) else None;
      }
      if wire.None? {
        HeaderRoundTrip(elements);
        wire := Some(MakeElement(LP_PACKET, Wires(Made(elements))));
      }
      r := wire;
    }
  }

  lemma FragmentKnown(fragment: Bytes)
    ensures Ordered([Field(FRAGMENT, fragment)])
  {
  }

  lemma NextValue(fs: seq<Field>, i: nat, typ: nat)
    requires i < |fs|
    ensures ValuesOf(fs[..i + 1], typ)
            == ValuesOf(fs[..i], typ) + if fs[i].typ == typ then [fs[i].value] else []
  {
    hide ValuesOf;
    assert fs[..i + 1] == fs[..i] + [fs[i]];
    ValuesOfAppend(fs[..i], [fs[i]], typ);
    ValuesOfOne(fs[i], typ);
  }
}
