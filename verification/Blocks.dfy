/**
 TLV elements and blocks: reading one element from a buffer, splitting a TLV-VALUE into
 sub-elements, and encoding a tree of blocks into one shared buffer.
 */
module Blocks {
  import opened Wrappers
  import opened Tlv
  import opened Encoding

  /** A TLV element found in a buffer, with the octets it occupies. */
  datatype Element = Element(typ: nat, value: Bytes, wire: Bytes)

  /** The shortest encoding of an element. */
  function Encode(typ: nat, value: Bytes): (wire: Bytes)
    ensures |wire| == EncodedSize(typ, |value|)
  {
    VarNumber(typ) + VarNumber(|value|) + value
  }

  /** What the estimator and `Block`'s constructors compute for the same element. */
  function EncodedSize(typ: nat, length: nat): nat {
    SizeOfVarNumber(typ) + SizeOfVarNumber(length) + length
  }

  function MakeElement(typ: nat, value: Bytes): Element {
    Element(typ, value, Encode(typ, value))
  }

  /** Why `parse` stopped. */
  datatype Ending = AllRead | BadNumber | Overrun

  datatype Parsed = Parsed(elements: seq<Element>, ending: Ending)

  /** Reads TLV-TYPE and TLV-LENGTH; `Overrun` when TLV-LENGTH exceeds what is left. */
  function ReadHead(s: Bytes): (r: (Ending, Element))
    ensures r.0.AllRead? ==> r.1.wire <= s && 2 <= |r.1.wire| && |r.1.value| + 2 <= |r.1.wire|
    ensures r.0.AllRead? ==> 0 < r.1.typ < TWO_32 && |r.1.value| < TWO_64
    ensures r.0.AllRead? ==> r.1.value == r.1.wire[|r.1.wire| - |r.1.value|..]
  {
    var none := Element(0, [], []);
    match ReadType(s)
    case None => (BadNumber, none)
    case Some(t) =>
      match ReadVarNumber(s[t.size..])
      case None => (BadNumber, none)
      case Some(l) =>
        var pos := t.size + l.size;
        if l.number > |s| - pos then (Overrun, none)
        else
          var wire := s[..pos + l.number];
          assert wire[pos..] == s[pos..pos + l.number];
          (AllRead, Element(t.number, wire[pos..], wire))
  }

  /** `Block::fromBuffer`: the element at the front of `s`. */
  function FromBuffer(s: Bytes): (r: Option<Element>)
    ensures r.Some? ==> r.value.wire <= s && 2 <= |r.value.wire| && |r.value.value| < |r.value.wire|
  {
    var (ending, element) := ReadHead(s);
    if ending.AllRead? then Some(element) else None
  }

  /** The sub-elements of a TLV-VALUE, up to its end or to the first that cannot be read. */
  function Parse(s: Bytes): Parsed
    decreases |s|
  {
    if s == [] then Parsed([], AllRead)
    else
      var (ending, element) := ReadHead(s);
      if !ending.AllRead? then Parsed([], ending)
      else
        var rest := Parse(s[|element.wire|..]);
        Parsed([element] + rest.elements, rest.ending)
  }

  /**
   What `parse` reports and leaves behind on a block that already holds `elements`: it trusts a list
   that is not empty; an overrun clears the list; an unreadable number leaves what was found so far.
   */
  function ParseResult(value: Bytes, elements: seq<Element>): (bool, seq<Element>) {
    var parsed := Parse(value);
    if elements != [] then (true, elements)
    else (parsed.ending.AllRead?, if parsed.ending.Overrun? then [] else parsed.elements)
  }

  /** `Block::parse`. */
  method ParseBlock(value: Bytes, elements: seq<Element>)
    returns (ok: bool, parsed: seq<Element>)
    ensures (ok, parsed) == ParseResult(value, elements)
  {
    hide ReadHead;
    if elements != [] || value == [] {
      return true, elements;
    }
    parsed := [];
    var begin := 0;
    assert value[begin..] == value;
    while begin != |value|
      invariant begin <= |value|
      invariant Parse(value) == After(parsed, Parse(value[begin..]))
      decreases |value| - begin
    {
      var (ending, element) := ReadHead(value[begin..]);
      ParseStep(value, begin, parsed);
      if ending.BadNumber? {
        return false, parsed;
      }
      if ending.Overrun? {
        return false, [];
      }
      parsed := parsed + [element];
      begin := begin + |element.wire|;
    }
    assert value[begin..] == [] && parsed + [] == parsed;
    ok := true;
  }

  /** A split that continues one which has found `es`. */
  function After(es: seq<Element>, rest: Parsed): Parsed {
    Parsed(es + rest.elements, rest.ending)
  }

  lemma ParseStep(value: Bytes, begin: nat, es: seq<Element>)
    requires begin < |value|
    ensures var (ending, e) := ReadHead(value[begin..]);
            After(es, Parse(value[begin..])) ==
              if ending.AllRead? then After(es + [e], Parse(value[begin + |e.wire|..]))
              else Parsed(es, ending)
  {
    hide ReadHead;
    var (ending, e) := ReadHead(value[begin..]);
    if ending.AllRead? {
      assert value[begin..][|e.wire|..] == value[begin + |e.wire|..];
      var rest := Parse(value[begin + |e.wire|..]);
      assert es + ([e] + rest.elements) == es + [e] + rest.elements;
    }
  }

  /**
   Calling `parse` again after it threw succeeds, with a truncated element list, exactly when
   some element had been read and the rest started with an unreadable number.
   */
  lemma ParseRetry(value: Bytes)
    ensures var (ok1, first) := ParseResult(value, []);
            var (ok2, second) := ParseResult(value, first);
            && second == first
            && (ok1 ==> ok2)
            && (!ok1 ==> (ok2 <==> Parse(value).ending.BadNumber? && Parse(value).elements != []))
  {
  }

  // ---- reading back ----

  /** `e` is exactly what its own octets say. */
  predicate IsElement(e: Element) {
    ReadHead(e.wire) == (AllRead, e)
  }

  function Wires(es: seq<Element>): Bytes {
    if es == [] then [] else es[0].wire + Wires(es[1..])
  }

  lemma ReadVarNumberExtend(s: Bytes, rest: Bytes)
    requires ReadVarNumber(s).Some?
    ensures ReadVarNumber(s + rest) == ReadVarNumber(s)
  {
    if s[0] >= 253 {
      var len := ReadVarNumber(s).value.size - 1;
      FastIsBigEndian(len, s[1..]);
      FastIsBigEndian(len, (s + rest)[1..]);
      assert (s + rest)[1..][..len] == s[1..][..len];
    }
  }

  /** An element is read back from its octets whatever follows them. */
  lemma ReadHeadExtend(e: Element, rest: Bytes)
    requires IsElement(e)
    ensures ReadHead(e.wire + rest) == (AllRead, e)
  {
    hide ReadVarNumber;
    var s := e.wire + rest;
    var t := ReadType(e.wire).value;
    var l := ReadVarNumber(e.wire[t.size..]).value;
    ReadVarNumberExtend(e.wire, rest);
    assert s[t.size..] == e.wire[t.size..] + rest;
    ReadVarNumberExtend(e.wire[t.size..], rest);
    var pos := t.size + l.size;
    assert s[..pos + l.number] == e.wire[..pos + l.number] == e.wire;
  }

  lemma MakeElementIsElement(typ: nat, value: Bytes)
    requires 0 < typ < TWO_32 && |value| < TWO_64
    ensures IsElement(MakeElement(typ, value))
  {
    hide ReadVarNumber, VarNumber, SizeOfVarNumber;
    var wire := Encode(typ, value);
    VarNumberRoundTrip(typ, VarNumber(|value|) + value);
    assert wire == VarNumber(typ) + (VarNumber(|value|) + value);
    assert wire[SizeOfVarNumber(typ)..] == VarNumber(|value|) + value;
    VarNumberRoundTrip(|value|, value);
    assert wire[..|wire|] == wire && wire[|wire| - |value|..] == value;
  }

  /** Splitting the concatenated octets of any elements gives those elements back. */
  lemma {:induction false} ParseWires(es: seq<Element>)
    requires forall e | e in es :: IsElement(e)
    ensures Parse(Wires(es)) == Parsed(es, AllRead)
  {
    hide ReadHead, IsElement, Parse;
    if es == [] {
      ParseNothing();
    } else {
      ParseCons(es[0], Wires(es[1..]));
      ParseWires(es[1..]);
    }
  }

  lemma ParseNothing()
    ensures Parse([]) == Parsed([], AllRead)
  {
  }

  lemma ParseCons(e: Element, rest: Bytes)
    requires IsElement(e)
    ensures Parse(e.wire + rest) == After([e], Parse(rest))
  {
    hide ReadHead;
    ReadHeadExtend(e, rest);
    assert (e.wire + rest)[|e.wire|..] == rest;
  }

  /** A split loses nothing: the elements found are sound and their octets are the input. */
  lemma {:induction false} ParseSound(s: Bytes)
    requires Parse(s).ending.AllRead?
    ensures Wires(Parse(s).elements) == s
    ensures forall e | e in Parse(s).elements :: IsElement(e)
    decreases |s|
  {
    hide ReadHead;
    if s != [] {
      var e := ReadHead(s).1;
      var rest := s[|e.wire|..];
      ParseSound(rest);
      ReadHeadSelf(s);
      assert Parse(s).elements[1..] == Parse(rest).elements;
      assert s == e.wire + rest;
    }
  }

  /**
   A block without sub-elements parses if and only if its value is elements one after the other; it then
   has those. Sub-elements that are there already are trusted.
   */
  lemma ParsesIff(value: Bytes, es: seq<Element>)
    ensures ParseResult(value, []) == (true, es) <==> (forall e | e in es :: IsElement(e)) && Wires(es) == value
    ensures es != [] ==> ParseResult(value, es) == (true, es)
  {
    hide Parse, IsElement, Wires;
    if ParseResult(value, []) == (true, es) {
      ParseSound(value);
    }
    if (forall e | e in es :: IsElement(e)) && Wires(es) == value {
      ParseWires(es);
    }
  }

  lemma ReadHeadSelf(s: Bytes)
    requires ReadHead(s).0.AllRead?
    ensures IsElement(ReadHead(s).1)
  {
    hide ReadVarNumber;
    var e := ReadHead(s).1;
    var t := ReadType(s).value;
    var l := ReadVarNumber(s[t.size..]).value;
    ReadVarNumberPrefix(s, e.wire);
    assert e.wire[t.size..] <= s[t.size..];
    ReadVarNumberPrefix(s[t.size..], e.wire[t.size..]);
    assert e.wire[..|e.wire|] == e.wire;
  }

  lemma ReadVarNumberPrefix(s: Bytes, p: Bytes)
    requires ReadVarNumber(s).Some? && p <= s && ReadVarNumber(s).value.size <= |p|
    ensures ReadVarNumber(p) == ReadVarNumber(s)
  {
    if s[0] >= 253 {
      var len := ReadVarNumber(s).value.size - 1;
      FastIsBigEndian(len, s[1..]);
      FastIsBigEndian(len, p[1..]);
      assert p[1..][..len] == s[1..][..len];
    }
  }

  // ---- re-encoding ----

  /** TLV-TYPE and TLV-LENGTH take as few octets as possible. */
  predicate IsShortest(e: Element) {
    |e.wire| == EncodedSize(e.typ, |e.value|)
  }

  /** Encoding anew the types and values of `es`. */
  function Reencode(es: seq<Element>): Bytes {
    if es == [] then [] else Encode(es[0].typ, es[0].value) + Reencode(es[1..])
  }

  lemma ShortestIsEncode(e: Element)
    requires IsElement(e)
    ensures EncodedSize(e.typ, |e.value|) <= |e.wire|
    ensures IsShortest(e) <==> e.wire == Encode(e.typ, e.value)
  {
    hide ReadVarNumber, VarNumber, SizeOfVarNumber;
    var t := ReadType(e.wire).value;
    var l := ReadVarNumber(e.wire[t.size..]).value;
    ReadVarNumberShortest(e.wire);
    ReadVarNumberShortest(e.wire[t.size..]);
    assert e.wire == e.wire[..t.size] + e.wire[t.size..][..l.size] + e.value;
  }

  lemma {:induction false} ReencodeLength(es: seq<Element>)
    requires forall e | e in es :: IsElement(e)
    ensures |Reencode(es)| <= |Wires(es)|
    ensures |Reencode(es)| == |Wires(es)| <==> forall e | e in es :: IsShortest(e)
    ensures (forall e | e in es :: IsShortest(e)) ==> Reencode(es) == Wires(es)
  {
    hide ReadHead, IsElement;
    if es != [] {
      ShortestIsEncode(es[0]);
      ReencodeLength(es[1..]);
      assert forall e :: e in es <==> e == es[0] || e in es[1..];
    }
  }

  /** Re-encoding what was split off gives the same octets exactly for shortest-form input. */
  lemma ReencodeIffShortest(s: Bytes)
    requires Parse(s).ending.AllRead?
    ensures Reencode(Parse(s).elements) == s <==>
            forall e | e in Parse(s).elements :: IsShortest(e)
  {
    ParseSound(s);
    ReencodeLength(Parse(s).elements);
  }

  /** The element list survives encoding and splitting, type by type and value by value. */
  lemma {:induction false} ParseReencoded(es: seq<Element>)
    requires forall e | e in es :: 0 < e.typ < TWO_32 && |e.value| < TWO_64
    ensures Parse(Reencode(es)).ending.AllRead?
    ensures |Parse(Reencode(es)).elements| == |es|
    ensures forall i | 0 <= i < |es| ::
              Parse(Reencode(es)).elements[i] == MakeElement(es[i].typ, es[i].value)
  {
    var made := seq(|es|, i requires 0 <= i < |es| => MakeElement(es[i].typ, es[i].value));
    WiresOfMade(es, made);
    forall e | e in made
      ensures IsElement(e)
    {
      var i :| 0 <= i < |made| && made[i] == e;
      MakeElementIsElement(es[i].typ, es[i].value);
    }
    ParseWires(made);
  }

  lemma {:induction false} WiresOfMade(es: seq<Element>, made: seq<Element>)
    requires |es| == |made|
    requires forall i | 0 <= i < |es| :: made[i] == MakeElement(es[i].typ, es[i].value)
    ensures Wires(made) == Reencode(es)
  {
    if es != [] {
      WiresOfMade(es[1..], made[1..]);
    }
  }

  // ---- block trees ----

  /** Where a block lies in the buffer it was encoded into. */
  datatype Place = Place(begin: nat, valueBegin: nat, end: nat)

  /**
   `value` is present when the block owns a buffer (`hasValue`); otherwise the TLV-VALUE is given
   by `elements`. `size` is the block's `m_size`, `place` its iterators into a wire buffer.
   */
  datatype Block = Block(typ: nat, value: Option<Bytes>, size: nat, place: Option<Place>,
                         elements: seq<Block>)

  /** Blocks as their constructors build them: a buffered block's size covers its shortest form. */
  ghost predicate WellFormed(b: Block) {
    && 0 < b.typ < TWO_32
    && match b.value
       case Some(v) => EncodedSize(b.typ, |v|) <= b.size
       case None => forall e | e in b.elements :: WellFormed(e)
  }

  /** Every buffered block met by the encoder is in shortest form. */
  ghost predicate Tight(b: Block) {
    match b.value
    case Some(v) => b.size == EncodedSize(b.typ, |v|)
    case None => forall e | e in b.elements :: Tight(e)
  }

  function BlockValue(b: Block): Bytes
    decreases b, 0
  {
    match b.value
    case Some(v) => v
    case None => EncodeAll(b.elements)
  }

  function EncodeBlock(b: Block): Bytes
    decreases b, 1
  {
    Encode(b.typ, BlockValue(b))
  }

  function EncodeAll(bs: seq<Block>): Bytes
    decreases bs
  {
    if bs == [] then [] else EncodeBlock(bs[0]) + EncodeAll(bs[1..])
  }

  /** The blocks of a list as elements. */
  function AsElements(bs: seq<Block>): (es: seq<Element>)
    ensures |es| == |bs|
  {
    seq(|bs|, i requires 0 <= i < |bs| => MakeElement(bs[i].typ, BlockValue(bs[i])))
  }

  /**
   The octets of a list of blocks are read back as those blocks, in order, with their types and
   values; and so, level by level, is a whole tree.
   */
  lemma {:induction false} EncodeAllReadBack(bs: seq<Block>)
    requires forall b | b in bs :: 0 < b.typ < TWO_32 && |BlockValue(b)| < TWO_64
    ensures EncodeAll(bs) == Wires(AsElements(bs))
    ensures Parse(EncodeAll(bs)) == Parsed(AsElements(bs), AllRead)
    decreases bs
  {
    hide BlockValue, Parse, ReadHead, Encode;
    if bs == [] {
      ParseNothing();
      assert AsElements(bs) == [];
    } else {
      var es := AsElements(bs);
      EncodeAllReadBack(bs[1..]);
      assert es[1..] == AsElements(bs[1..]);
      assert bs[0] in bs;
      MakeElementIsElement(bs[0].typ, BlockValue(bs[0]));
      ParseCons(es[0], EncodeAll(bs[1..]));
      assert [es[0]] + es[1..] == es;
    }
  }

  /** A block that is encoded is read back with its type and value. */
  lemma EncodeBlockReadBack(b: Block)
    requires 0 < b.typ < TWO_32 && |BlockValue(b)| < TWO_64
    ensures FromBuffer(EncodeBlock(b)) == Some(Element(b.typ, BlockValue(b), EncodeBlock(b)))
    ensures b.value.Some? ==> BlockValue(b) == b.value.value
    ensures b.value.None? && (forall e | e in b.elements :: 0 < e.typ < TWO_32 && |BlockValue(e)| < TWO_64) ==>
              Parse(BlockValue(b)) == Parsed(AsElements(b.elements), AllRead)
  {
    hide Parse, ReadHead, Encode;
    MakeElementIsElement(b.typ, BlockValue(b));
    if b.value.None? && (forall e | e in b.elements :: 0 < e.typ < TWO_32 && |BlockValue(e)| < TWO_64) {
      EncodeAllReadBack(b.elements);
    }
  }

  /** `Block::encode(EncodingEstimator&)`. */
  function Estimate(b: Block): nat
    decreases b, 1
  {
    match b.value
    case Some(_) => b.size
    case None =>
      var len := EstimateAll(b.elements);
      EncodedSize(b.typ, len)
  }

  function EstimateAll(bs: seq<Block>): nat
    decreases bs
  {
    if bs == [] then 0 else Estimate(bs[0]) + EstimateAll(bs[1..])
  }

  /** The estimate is never too small, and exact when buffered blocks are in shortest form. */
  lemma {:induction false} EstimateCovers(b: Block)
    requires WellFormed(b)
    ensures |EncodeBlock(b)| <= Estimate(b)
    ensures Tight(b) ==> |EncodeBlock(b)| == Estimate(b)
    decreases b, 1
  {
    if b.value.None? {
      EstimateAllCovers(b.elements);
    }
  }

  lemma {:induction false} EstimateAllCovers(bs: seq<Block>)
    requires forall b | b in bs :: WellFormed(b)
    ensures |EncodeAll(bs)| <= EstimateAll(bs)
    ensures (forall b | b in bs :: Tight(b)) ==> |EncodeAll(bs)| == EstimateAll(bs)
    decreases bs
  {
    if bs != [] {
      EstimateCovers(bs[0]);
      EstimateAllCovers(bs[1..]);
    }
  }

  /**
   `b'` is `b` after encoding into a buffer holding `bytes`: it and, level by level, every block
   below it lies at or behind `low`, and the octets at its place are its own encoding.
   */
  ghost predicate Placed(b: Block, b': Block, bytes: Bytes, low: nat)
    decreases b
  {
    && b'.typ == b.typ
    && b'.value == Some(BlockValue(b))
    && b'.size == |EncodeBlock(b)|
    && b'.place.Some?
    && var p := b'.place.value;
    && low <= p.begin <= p.valueBegin <= p.end <= |bytes|
    && bytes[p.begin..p.end] == EncodeBlock(b)
    && bytes[p.valueBegin..p.end] == BlockValue(b)
    && (if b.value.Some? then b'.elements == b.elements
        else |b'.elements| == |b.elements|
             && forall i | 0 <= i < |b.elements| ::
                  Placed(b.elements[i], b'.elements[i], bytes, p.valueBegin))
  }

  /** Writing in front of `low` moves nothing. */
  lemma {:induction false} PlacedFrame(b: Block, b': Block, bytes: Bytes, low: nat,
                                       bytes': Bytes, low': nat)
    requires Placed(b, b', bytes, low)
    requires low' <= low <= |bytes| == |bytes'| && bytes[low..] == bytes'[low..]
    ensures Placed(b, b', bytes', low')
    decreases b
  {
    var p := b'.place.value;
    SliceBehind(bytes, bytes', low, p.begin, p.end);
    SliceBehind(bytes, bytes', low, p.valueBegin, p.end);
    if b.value.None? {
      assert bytes[p.valueBegin..] == bytes[low..][p.valueBegin - low..];
      assert bytes'[p.valueBegin..] == bytes'[low..][p.valueBegin - low..];
      forall i | 0 <= i < |b.elements|
        ensures Placed(b.elements[i], b'.elements[i], bytes', p.valueBegin)
      {
        PlacedFrame(b.elements[i], b'.elements[i], bytes, p.valueBegin, bytes', p.valueBegin);
      }
    }
  }

  lemma SliceBehind(bytes: Bytes, bytes': Bytes, low: nat, i: nat, j: nat)
    requires low <= i <= j <= |bytes| == |bytes'| && bytes[low..] == bytes'[low..]
    ensures bytes[i..j] == bytes'[i..j]
  {
    forall k | i <= k < j
      ensures bytes[k] == bytes'[k]
    {
      assert bytes[k] == bytes[low..][k - low] == bytes'[low..][k - low];
    }
  }

  ghost predicate PlacedAll(bs: seq<Block>, bs': seq<Block>, bytes: Bytes, low: nat) {
    |bs'| == |bs| && forall i | 0 <= i < |bs| :: Placed(bs[i], bs'[i], bytes, low)
  }

  lemma PlacedAllFrame(bs: seq<Block>, bs': seq<Block>, bytes: Bytes, low: nat,
                       bytes': Bytes, low': nat)
    requires PlacedAll(bs, bs', bytes, low)
    requires low' <= low <= |bytes| == |bytes'| && bytes[low..] == bytes'[low..]
    ensures PlacedAll(bs, bs', bytes', low')
  {
    forall i | 0 <= i < |bs|
      ensures Placed(bs[i], bs'[i], bytes', low')
    {
      PlacedFrame(bs[i], bs'[i], bytes, low, bytes', low');
    }
  }

  lemma {:induction false} EncodeAllSplit(bs: seq<Block>, i: nat)
    requires i < |bs|
    ensures EncodeAll(bs[i..]) == EncodeBlock(bs[i]) + EncodeAll(bs[i + 1..])
    ensures |EncodeAll(bs[i..])| <= |EncodeAll(bs)|
  {
    assert bs[i..][1..] == bs[i + 1..];
    if i > 0 {
      EncodeAllSplit(bs, i - 1);
      assert bs[i - 1..][1..] == bs[i..];
    } else {
      assert bs[0..] == bs;
    }
  }

  /** One more element in front of placed ones. */
  lemma PlacedCons(bs: seq<Block>, bs': seq<Block>, b: Block, b': Block, bytes: Bytes, low: nat)
    requires |EncodeBlock(b)| <= low <= |bytes|
    requires PlacedAll(bs, bs', bytes, low)
    requires Placed(b, b', Overwrite(bytes, EncodeBlock(b), low - |EncodeBlock(b)|),
                    low - |EncodeBlock(b)|)
    ensures PlacedAll([b] + bs, [b'] + bs',
                      Overwrite(bytes, EncodeBlock(b), low - |EncodeBlock(b)|),
                      low - |EncodeBlock(b)|)
  {
    hide EncodeBlock, Placed;
    var at := low - |EncodeBlock(b)|;
    OverwriteBefore(bytes, EncodeBlock(b), at, low);
    PlacedAllFrame(bs, bs', bytes, low, Overwrite(bytes, EncodeBlock(b), at), at);
  }

  /** The reversed loop of `Block::encode(EncodingBuffer&)` over the sub-elements. */
  method EncodeElements(bs: seq<Block>, encoder: Encoder) returns (bs': seq<Block>, len: nat)
    requires encoder.Valid() && forall b | b in bs :: WellFormed(b)
    requires |EncodeAll(bs)| <= encoder.begin && |EncodeAll(bs)| < TWO_64
    modifies encoder, encoder.buffer
    ensures encoder.Valid() && encoder.WroteInFront(EncodeAll(bs)) && len == |EncodeAll(bs)|
    ensures PlacedAll(bs, bs', encoder.buffer[..], encoder.begin)
    decreases bs, 0
  {
    hide EncodeBlock, Placed, WellFormed;
    bs', len := [], 0;
    var i := |bs|;
    while i > 0
      invariant 0 <= i <= |bs|
      invariant encoder.Valid() && encoder.WroteInFront(EncodeAll(bs[i..]))
      invariant len == |EncodeAll(bs[i..])|
      invariant PlacedAll(bs[i..], bs', encoder.buffer[..], encoder.begin)
    {
      i := i - 1;
      EncodeAllSplit(bs, i);
      OverwriteTwice(old(encoder.buffer[..]), EncodeAll(bs[i + 1..]), EncodeBlock(bs[i]), encoder.begin);
      ghost var bytes, low := encoder.buffer[..], encoder.begin;
      var b', more := EncodeInto(bs[i], encoder);
      PlacedCons(bs[i + 1..], bs', bs[i], b', bytes, low);
      assert bs[i..] == [bs[i]] + bs[i + 1..];
      bs', len := [b'] + bs', len + more;
    }
    assert bs[0..] == bs;
  }

  /** Writing the header in front of a written TLV-VALUE places the whole block. */
  lemma PlaceBlock(b: Block, b': Block, bytes: Bytes, end: nat)
    requires |BlockValue(b)| <= |EncodeBlock(b)| <= end <= |bytes|
    requires b' == Block(b.typ, Some(BlockValue(b)), |EncodeBlock(b)|,
                         Some(Place(end - |EncodeBlock(b)|, end - |BlockValue(b)|, end)), b'.elements)
    requires if b.value.Some? then b'.elements == b.elements
             else PlacedAll(b.elements, b'.elements,
                            Overwrite(bytes, BlockValue(b), end - |BlockValue(b)|), end - |BlockValue(b)|)
    ensures Placed(b, b', Overwrite(bytes, EncodeBlock(b), end - |EncodeBlock(b)|), end - |EncodeBlock(b)|)
  {
    hide VarNumber, SizeOfVarNumber, Overwrite;
    var value, all := BlockValue(b), EncodeBlock(b);
    var head := all[..|all| - |value|];
    assert all == head + value;
    var begin, valueBegin := end - |all|, end - |value|;
    var mid := Overwrite(bytes, value, valueBegin);
    var bytes' := Overwrite(bytes, all, begin);
    OverwriteTwice(bytes, value, head, valueBegin);
    OverwriteBefore(mid, head, begin, end);
    OverwriteBefore(bytes, all, begin, end);
    OverwriteBefore(bytes, value, valueBegin, end);
    SliceBehind(mid, bytes', valueBegin, valueBegin, end);
    if b.value.None? {
      PlacedAllFrame(b.elements, b'.elements, mid, valueBegin, bytes', valueBegin);
    }
  }

  /** TLV-VALUE, then TLV-LENGTH, then TLV-TYPE, each written in front. */
  lemma WriteBlock(b: Block, bytes: Bytes, end: nat)
    requires |EncodeBlock(b)| <= end <= |bytes|
    ensures var v := BlockValue(b);
            var l := VarNumber(|v|);
            var t := VarNumber(b.typ);
            && |EncodeBlock(b)| == |v| + |l| + |t|
            && v == (if b.value.Some? then b.value.value else EncodeAll(b.elements))
            && Overwrite(Overwrite(Overwrite(bytes, v, end - |v|), l, end - |v| - |l|), t, end - |v| - |l| - |t|)
               == Overwrite(bytes, EncodeBlock(b), end - |EncodeBlock(b)|)
  {
    hide VarNumber, SizeOfVarNumber, Overwrite;
    var v := BlockValue(b);
    var l, t := VarNumber(|v|), VarNumber(b.typ);
    OverwriteTwice(bytes, v, l, end - |v|);
    OverwriteTwice(bytes, l + v, t, end - |v| - |l|);
    Associative(t, l, v);
  }

  /** `Block::encode(EncodingBuffer&)`, given room for the whole encoding in front of the window. */
  method EncodeInto(b: Block, encoder: Encoder) returns (b': Block, len: nat)
    requires encoder.Valid() && WellFormed(b)
    requires |EncodeBlock(b)| <= encoder.begin && |EncodeBlock(b)| < TWO_64
    modifies encoder, encoder.buffer
    ensures encoder.Valid() && encoder.WroteInFront(EncodeBlock(b)) && len == |EncodeBlock(b)|
    ensures Placed(b, b', encoder.buffer[..], encoder.begin)
    decreases b, 1
  {
    hide EncodeBlock, BlockValue, VarNumber, SizeOfVarNumber, Placed, Overwrite;
    var end := encoder.begin;
    ghost var bytes := encoder.buffer[..];
    WriteBlock(b, bytes, end);
    var elements := b.elements;
    if b.value.Some? {
      len := encoder.PrependRange(b.value.value);
    } else {
      elements, len := EncodeElements(b.elements, encoder);
    }
    var valueBegin := encoder.begin;
    var lengthSize := encoder.PrependVarNumber(len);
    var typeSize := encoder.PrependVarNumber(b.typ);
    len := len + lengthSize + typeSize;
    b' := Block(b.typ, Some(BlockValue(b)), len, Some(Place(encoder.begin, valueBegin, end)), elements);
    PlaceBlock(b, b', bytes, end);
  }

  /**
   `Block::encode`: a block that has a wire is left alone. Otherwise the estimate sizes the buffer, so
   it is never replaced while the tree is being written, and every block below ends up with its own
   octets.
   */
  method EncodeTree(b: Block) returns (b': Block, buffer: Option<array<Byte>>)
    requires WellFormed(b) && |EncodeBlock(b)| < TWO_64
    ensures buffer.None? <==> b.place.Some?
    ensures buffer.None? ==> b' == b
    ensures buffer.Some? ==>
              var octets := buffer.value;
              && fresh(octets) && octets.Length == Estimate(b) >= |EncodeBlock(b)|
              && octets[Estimate(b) - |EncodeBlock(b)|..] == EncodeBlock(b)
              && Placed(b, b', octets[..], Estimate(b) - |EncodeBlock(b)|)
  {
    hide EncodeBlock, Placed, WellFormed, Overwrite, Estimate;
    if b.place.Some? {
      return b, None;
    }
    EstimateCovers(b);
    var encoder := new Encoder(Estimate(b), 0);
    buffer := Some(encoder.buffer);
    OverwriteLast(encoder.buffer[..], EncodeBlock(b));
    var len;
    b', len := EncodeInto(b, encoder);
  }
}
