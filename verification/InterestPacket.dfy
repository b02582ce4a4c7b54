/** The reverse encoder of the Interest packet: fields are prepended last to first. */
module InterestPacket {
  import opened Tlv
  import opened Encoding
  import opened Blocks
  import opened Names
  import opened InterestCodec

  // ---- prepending blocks ----

  /** `prependBinaryBlock`; `prependEmptyBlock` is the case of an empty value. */
  method PrependBinaryBlock(encoder: Encoder, typ: nat, value: Bytes) returns (length: nat)
    requires encoder.Valid() && typ < TWO_64 && |value| < TWO_64
    modifies encoder, encoder.buffer
    ensures encoder.Valid() && (encoder.buffer == old(encoder.buffer) || fresh(encoder.buffer))
    ensures encoder.Contents() == Encode(typ, value) + old(encoder.Contents())
    ensures length == EncodedSize(typ, |value|)
  {
    hide VarNumber, SizeOfVarNumber, Overwrite;
    Associate4(VarNumber(typ), VarNumber(|value|), value, encoder.Contents());
    length := encoder.PrependRange(value);
    var l := encoder.PrependVarNumber(length);
    var t := encoder.PrependVarNumber(typ);
    length := length + l + t;
  }

  lemma Associate4(a: Bytes, b: Bytes, c: Bytes, d: Bytes)
    ensures a + (b + (c + d)) == a + b + c + d
  {
  }

  /** The end of `prependNestedBlock` and of packet encoders: length and type before a written value. */
  method PrependHeader(encoder: Encoder, typ: nat, ghost value: Bytes, ghost rest: Bytes, written: nat)
    returns (length: nat)
    requires encoder.Valid() && typ < TWO_64 && written == |value| < TWO_64
    requires encoder.Contents() == value + rest
    modifies encoder, encoder.buffer
    ensures encoder.Valid() && (encoder.buffer == old(encoder.buffer) || fresh(encoder.buffer))
    ensures encoder.Contents() == Encode(typ, value) + rest
    ensures length == EncodedSize(typ, |value|)
  {
    hide VarNumber, SizeOfVarNumber, Overwrite;
    Associate4(VarNumber(typ), VarNumber(|value|), value, rest);
    var l := encoder.PrependVarNumber(written);
    var t := encoder.PrependVarNumber(typ);
    length := written + l + t;
  }

  lemma {:induction false} WiresSplit(es: seq<Element>, i: nat)
    requires i < |es|
    ensures Wires(es[i..]) == es[i].wire + Wires(es[i + 1..])
    ensures |Wires(es[i..])| <= |Wires(es)|
  {
    assert es[i..][1..] == es[i + 1..];
    if i > 0 {
      WiresSplit(es, i - 1);
      assert es[i - 1..][1..] == es[i..];
    } else {
      assert es[0..] == es;
    }
  }

  /** `Name::wireEncode`: components in reverse, then the header. */
  method PrependName(encoder: Encoder, n: Name) returns (length: nat)
    requires encoder.Valid() && EncodableName(n) && |NameValue(n)| < TWO_64
    modifies encoder, encoder.buffer
    ensures encoder.Valid() && (encoder.buffer == old(encoder.buffer) || fresh(encoder.buffer))
    ensures encoder.Contents() == Encode(NAME, NameValue(n)) + old(encoder.Contents())
    ensures length == |Encode(NAME, NameValue(n))|
  {
    hide Encode, EncodedSize, Overwrite;
    ghost var es := NameElements(n);
    ghost var rest := encoder.Contents();
    var i := |n|;
    length := 0;
    while i > 0
      invariant 0 <= i <= |n|
      invariant encoder.Valid() && (encoder.buffer == old(encoder.buffer) || fresh(encoder.buffer))
      invariant encoder.Contents() == Wires(es[i..]) + rest && length == |Wires(es[i..])|
    {
      i := i - 1;
      WiresSplit(es, i);
      assert n[i] in n;
      Associative(es[i].wire, Wires(es[i + 1..]), rest);
      var more := PrependBinaryBlock(encoder, n[i].typ, n[i].value);
      length := length + more;
    }
    assert es[0..] == es;
    length := PrependHeader(encoder, NAME, NameValue(n), rest, length);
  }

  /** `prependNestedBlock` over the delegations of a forwarding hint. */
  method PrependHint(encoder: Encoder, hint: seq<Name>) returns (length: nat)
    requires encoder.Valid() && EncodableHint(hint) && |HintValue(hint)| < TWO_64
    modifies encoder, encoder.buffer
    ensures encoder.Valid() && (encoder.buffer == old(encoder.buffer) || fresh(encoder.buffer))
    ensures encoder.Contents() == Encode(FORWARDING_HINT, HintValue(hint)) + old(encoder.Contents())
    ensures length == |Encode(FORWARDING_HINT, HintValue(hint))|
  {
    hide Encode, EncodedSize, Overwrite, NameValue;
    ghost var es := HintElements(hint);
    ghost var rest := encoder.Contents();
    var i := |hint|;
    length := 0;
    while i > 0
      invariant 0 <= i <= |hint|
      invariant encoder.Valid() && (encoder.buffer == old(encoder.buffer) || fresh(encoder.buffer))
      invariant encoder.Contents() == Wires(es[i..]) + rest && length == |Wires(es[i..])|
    {
      i := i - 1;
      WiresSplit(es, i);
      assert hint[i] in hint;
      Associative(es[i].wire, Wires(es[i + 1..]), rest);
      var more := PrependName(encoder, hint[i]);
      length := length + more;
    }
    assert es[0..] == es;
    length := PrependHeader(encoder, FORWARDING_HINT, HintValue(hint), rest, length);
  }

  /** The parameters, in reverse; blocks with a wire encoding are copied as they are. */
  method PrependParameters(encoder: Encoder, ps: seq<Element>) returns (length: nat)
    requires encoder.Valid()
    modifies encoder, encoder.buffer
    ensures encoder.Valid() && (encoder.buffer == old(encoder.buffer) || fresh(encoder.buffer))
    ensures encoder.Contents() == Wires(ps) + old(encoder.Contents()) && length == |Wires(ps)|
  {
    hide Overwrite;
    ghost var rest := encoder.Contents();
    var i := |ps|;
    length := 0;
    while i > 0
      invariant 0 <= i <= |ps|
      invariant encoder.Valid() && (encoder.buffer == old(encoder.buffer) || fresh(encoder.buffer))
      invariant encoder.Contents() == Wires(ps[i..]) + rest && length == |Wires(ps[i..])|
    {
      i := i - 1;
      WiresSplit(ps, i);
      Associative(ps[i].wire, Wires(ps[i + 1..]), rest);
      var more := encoder.PrependRange(ps[i].wire);
      length := length + more;
    }
    assert ps[0..] == ps;
  }

  /** An optional block. */
  function Optional(present: bool, typ: nat, value: Bytes): Bytes {
    if present then Encode(typ, value) else []
  }

  method PrependOptional(encoder: Encoder, present: bool, typ: nat, value: Bytes,
                         ghost after: Bytes, ghost rest: Bytes)
    returns (length: nat)
    requires encoder.Valid() && typ < TWO_64 && |value| < TWO_64
    requires encoder.Contents() == after + rest
    modifies encoder, encoder.buffer
    ensures encoder.Valid() && (encoder.buffer == old(encoder.buffer) || fresh(encoder.buffer))
    ensures encoder.Contents() == Optional(present, typ, value) + after + rest
    ensures length == |Optional(present, typ, value)|
  {
    hide Encode, EncodedSize, Overwrite;
    length := 0;
    if present {
      length := PrependBinaryBlock(encoder, typ, value);
    }
    Associative(Optional(present, typ, value), after, rest);
  }

  // ---- the octets of an Interest, field by field ----

  function FromHopLimit(i: Interest): Bytes {
    Optional(i.hopLimit.Some?, HOP_LIMIT, if i.hopLimit.Some? then [i.hopLimit.value] else [])
    + Wires(i.parameters)
  }

  function FromNonce(i: Interest): Bytes
    requires i.nonce.Some?
  {
    Encode(NONCE, i.nonce.value)
    + (Optional(i.lifetime != DEFAULT_INTEREST_LIFETIME, INTEREST_LIFETIME,
                NonNegativeInteger(ToUint64(i.lifetime)))
       + FromHopLimit(i))
  }

  function FromFlags(i: Interest): Bytes
    requires i.nonce.Some?
  {
    Optional(i.canBePrefix, CAN_BE_PREFIX, [])
    + (Optional(i.mustBeFresh, MUST_BE_FRESH, [])
       + (Optional(i.forwardingHint != [], FORWARDING_HINT, HintValue(i.forwardingHint)) + FromNonce(i)))
  }

  lemma {:induction false} WiresAppend(a: seq<Element>, b: seq<Element>)
    ensures Wires(a + b) == Wires(a) + Wires(b)
  {
    if a == [] {
      assert a + b == b;
    } else {
      assert (a + b)[1..] == a[1..] + b;
      WiresAppend(a[1..], b);
    }
  }

  lemma WiresOne(e: Element)
    ensures Wires([e]) == e.wire && Wires([]) == []
  {
    assert [e][1..] == [];
  }

  lemma WiresOfFields(i: Interest)
    requires i.nonce.Some?
    ensures Wires(Flag(i.canBePrefix, CAN_BE_PREFIX)) == Optional(i.canBePrefix, CAN_BE_PREFIX, [])
    ensures Wires(Flag(i.mustBeFresh, MUST_BE_FRESH)) == Optional(i.mustBeFresh, MUST_BE_FRESH, [])
    ensures Wires(HintField(i.forwardingHint))
            == Optional(i.forwardingHint != [], FORWARDING_HINT, HintValue(i.forwardingHint))
    ensures Wires(NonceField(i.nonce)) == Encode(NONCE, i.nonce.value)
    ensures Wires(LifetimeField(i.lifetime))
            == Optional(i.lifetime != DEFAULT_INTEREST_LIFETIME, INTEREST_LIFETIME,
                        NonNegativeInteger(ToUint64(i.lifetime)))
    ensures Wires(HopLimitField(i.hopLimit) + i.parameters) == FromHopLimit(i)
  {
    hide Encode, Wires, HintValue, NonNegativeInteger;
    forall e: Element
      ensures Wires([e]) == e.wire
    {
      WiresOne(e);
    }
    WiresOne(MakeElement(CAN_BE_PREFIX, []));
    WiresAppend(HopLimitField(i.hopLimit), i.parameters);
  }

  lemma Regroup<T>(a: seq<T>, b: seq<T>, c: seq<T>, d: seq<T>, e: seq<T>, f: seq<T>, g: seq<T>)
    ensures a + b + c + d + e + f + g == a + (b + (c + (d + (e + (f + g)))))
  {
  }

  lemma InterestValueInParts(i: Interest)
    requires i.nonce.Some?
    ensures InterestValue(i) == Encode(NAME, NameValue(i.name)) + FromFlags(i)
  {
    hide Encode, Wires, NameValue, HintValue, NonNegativeInteger, Flag, HintField, NonceField,
         LifetimeField, HopLimitField, FromHopLimit, Optional;
    WiresOfFields(i);
    var hop := HopLimitField(i.hopLimit) + i.parameters;
    var life := LifetimeField(i.lifetime) + hop;
    var nonce := NonceField(i.nonce) + life;
    var hint := HintField(i.forwardingHint) + nonce;
    var must := Flag(i.mustBeFresh, MUST_BE_FRESH) + hint;
    Regroup(Flag(i.canBePrefix, CAN_BE_PREFIX), Flag(i.mustBeFresh, MUST_BE_FRESH),
            HintField(i.forwardingHint), NonceField(i.nonce), LifetimeField(i.lifetime),
            HopLimitField(i.hopLimit), i.parameters);
    WiresAppend(LifetimeField(i.lifetime), hop);
    WiresAppend(NonceField(i.nonce), life);
    WiresAppend(HintField(i.forwardingHint), nonce);
    WiresAppend(Flag(i.mustBeFresh, MUST_BE_FRESH), hint);
    WiresAppend(Flag(i.canBePrefix, CAN_BE_PREFIX), must);
    WiresOne(MakeElement(NAME, NameValue(i.name)));
    WiresAppend([MakeElement(NAME, NameValue(i.name))], Fields(i));
  }

  /** The two conditions under which `wireEncode` refuses to encode. */
  predicate DigestPresenceOk(i: Interest) {
    DigestIndex(i.name) == -1 <==> i.parameters == []
  }

  /** `Interest::wireEncode(EncodingBuffer&)` after its sanity checks: every field, last one first. */
  method WriteInterest(encoder: Encoder, i: Interest) returns (length: nat)
    requires encoder.Valid() && i.nonce.Some?
    requires EncodableName(i.name) && EncodableHint(i.forwardingHint) && |InterestValue(i)| < TWO_64
    modifies encoder, encoder.buffer
    ensures encoder.Valid() && (encoder.buffer == old(encoder.buffer) || fresh(encoder.buffer))
    ensures encoder.Contents() == Encode(INTEREST, InterestValue(i)) + old(encoder.Contents())
    ensures length == |Encode(INTEREST, InterestValue(i))|
  {
    hide Encode, EncodedSize, Overwrite, NameValue, HintValue, NonNegativeInteger, InterestValue,
         EncodableName, EncodableHint, Wires;
    InterestValueInParts(i);
    EncodeBounds(i);
    ghost var rest := encoder.Contents();
    length := PrependParameters(encoder, i.parameters);
    var more := PrependOptional(encoder, i.hopLimit.Some?, HOP_LIMIT,
                                if i.hopLimit.Some? then [i.hopLimit.value] else [],
                                Wires(i.parameters), rest);
    length := length + more;
    more := PrependLifetimeAndNonce(encoder, i, rest);
    length := length + more;
    more := PrependSelectors(encoder, i, rest);
    length := length + more;
    Associative(Encode(NAME, NameValue(i.name)), FromFlags(i), rest);
    more := PrependName(encoder, i.name);
    length := length + more;
    length := PrependHeader(encoder, INTEREST, InterestValue(i), rest, length);
  }

  /** No part of a packet is longer than the packet. */
  lemma EncodeBounds(i: Interest)
    requires i.nonce.Some?
    ensures |NameValue(i.name)| <= |Encode(NAME, NameValue(i.name))|
    ensures |HintValue(i.forwardingHint)| <= |Encode(FORWARDING_HINT, HintValue(i.forwardingHint))|
    ensures |FromFlags(i)| >= |Optional(i.forwardingHint != [], FORWARDING_HINT, HintValue(i.forwardingHint))|
    ensures i.forwardingHint == [] ==> HintValue(i.forwardingHint) == []
  {
    hide VarNumber, SizeOfVarNumber, NameValue, NonNegativeInteger;
  }

  method PrependLifetimeAndNonce(encoder: Encoder, i: Interest, ghost rest: Bytes) returns (length: nat)
    requires encoder.Valid() && i.nonce.Some? && encoder.Contents() == FromHopLimit(i) + rest
    modifies encoder, encoder.buffer
    ensures encoder.Valid() && (encoder.buffer == old(encoder.buffer) || fresh(encoder.buffer))
    ensures encoder.Contents() == FromNonce(i) + rest
    ensures length == |FromNonce(i)| - |FromHopLimit(i)|
  {
    hide Encode, EncodedSize, Overwrite, NonNegativeInteger, FromHopLimit;
    length := PrependOptional(encoder, i.lifetime != DEFAULT_INTEREST_LIFETIME, INTEREST_LIFETIME,
                              NonNegativeInteger(ToUint64(i.lifetime)), FromHopLimit(i), rest);
    var more := PrependOptional(encoder, true, NONCE, i.nonce.value,
                                Optional(i.lifetime != DEFAULT_INTEREST_LIFETIME, INTEREST_LIFETIME,
                                         NonNegativeInteger(ToUint64(i.lifetime))) + FromHopLimit(i), rest);
    length := length + more;
  }

  method PrependSelectors(encoder: Encoder, i: Interest, ghost rest: Bytes) returns (length: nat)
    requires encoder.Valid() && i.nonce.Some? && encoder.Contents() == FromNonce(i) + rest
    requires EncodableHint(i.forwardingHint) && |HintValue(i.forwardingHint)| < TWO_64
    modifies encoder, encoder.buffer
    ensures encoder.Valid() && (encoder.buffer == old(encoder.buffer) || fresh(encoder.buffer))
    ensures encoder.Contents() == FromFlags(i) + rest
    ensures length == |FromFlags(i)| - |FromNonce(i)|
  {
    hide Encode, EncodedSize, Overwrite, HintValue, FromNonce, EncodableHint;
    length := 0;
    ghost var hint := Optional(i.forwardingHint != [], FORWARDING_HINT, HintValue(i.forwardingHint));
    Associative(hint, FromNonce(i), rest);
    if i.forwardingHint != [] {
      length := PrependHint(encoder, i.forwardingHint);
    }
    var more := PrependOptional(encoder, i.mustBeFresh, MUST_BE_FRESH, [], hint + FromNonce(i), rest);
    length := length + more;
    more := PrependOptional(encoder, i.canBePrefix, CAN_BE_PREFIX, [],
                            Optional(i.mustBeFresh, MUST_BE_FRESH, []) + (hint + FromNonce(i)), rest);
    length := length + more;
  }
}
