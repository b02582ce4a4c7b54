/**
 The encodings of one element: TLV-TYPE and TLV-LENGTH each in any of four widths, of which decoding
 accepts all that are wide enough.
 */
module WireForms {
  import opened Wrappers
  import opened Tlv
  import opened Encoding
  import opened Blocks

  /** The number in a VAR-NUMBER of `width` octets fits. */
  predicate Fits(n: nat, width: nat) {
    match width
    case 1 => n < 253
    case 3 => n < TWO_16
    case 5 => n < TWO_32
    case 9 => n < TWO_64
    case _ => false
  }

  /** The VAR-NUMBER of `width` octets for `n`. */
  function Form(n: nat, width: nat): (s: Bytes)
    requires Fits(n, width)
    ensures |s| == width
  {
    match width
    case 1 => [n]
    case 3 => [253] + BigEndian(n, 2)
    case 5 => [254] + BigEndian(n, 4)
    case 9 => [255] + BigEndian(n, 8)
  }

  /** Every form is read as its number. */
  lemma FormReads(n: nat, width: nat, rest: Bytes)
    requires Fits(n, width)
    ensures ReadVarNumber(Form(n, width) + rest) == Some(Reading(n, width))
  {
    hide BigEndian, FromBigEndian;
    var s := Form(n, width) + rest;
    if width > 1 {
      var len := width - 1;
      PowBelow(len, len);
      BigEndianRoundTrip(n, len);
      assert s[1..][..len] == BigEndian(n, len);
      FastIsBigEndian(len, s[1..]);
    }
  }

  /** Whatever is read as a number starts with a form of it. */
  lemma ReadIsForm(s: Bytes)
    requires ReadVarNumber(s).Some?
    ensures var r := ReadVarNumber(s).value;
            Fits(r.number, r.size) && s[..r.size] == Form(r.number, r.size)
  {
    hide BigEndian, FromBigEndian;
    if s[0] >= 253 {
      var len := ReadVarNumber(s).value.size - 1;
      FastIsBigEndian(len, s[1..]);
      FromBigEndianBound(s[1..][..len]);
      PowBelow(len, len);
      FromBigEndianRoundTrip(s[1..][..len]);
      assert s[..len + 1] == [s[0]] + s[1..][..len];
    }
  }

  /** Wider forms come later, and among equally wide ones the smaller number comes first. */
  lemma FormOrder(m: nat, width: nat, n: nat, width': nat)
    requires Fits(m, width) && Fits(n, width')
    requires width < width' || (width == width' && m < n)
    ensures LexLess(Form(m, width), Form(n, width'))
  {
    hide BigEndian, FromBigEndian;
    var a, b := Form(m, width), Form(n, width');
    if width < width' || width == 1 {
      assert LessAt(a, b, 0);
    } else {
      var len := width - 1;
      PowBelow(len, len);
      BigEndianRoundTrip(m, len);
      BigEndianRoundTrip(n, len);
      BigEndianOrder(BigEndian(m, len), BigEndian(n, len));
      LexLessPrepend([a[0]], BigEndian(m, len), BigEndian(n, len));
    }
  }

  /** The octets are one whole element. */
  predicate IsWire(w: Bytes) {
    var (ending, e) := ReadHead(w);
    ending.AllRead? && e.wire == w
  }

  /** The element with TLV-TYPE and TLV-LENGTH in the given widths. */
  function WireOf(typ: nat, width: nat, value: Bytes, width': nat): Bytes
    requires Fits(typ, width) && Fits(|value|, width')
  {
    Form(typ, width) + Form(|value|, width') + value
  }

  lemma WireOfReads(typ: nat, width: nat, value: Bytes, width': nat)
    requires Fits(typ, width) && Fits(|value|, width') && 0 < typ < TWO_32
    ensures var w := WireOf(typ, width, value, width');
            IsWire(w) && ReadHead(w).1 == Element(typ, value, w)
  {
    hide Form, ReadVarNumber;
    var w := WireOf(typ, width, value, width');
    assert w == Form(typ, width) + (Form(|value|, width') + value);
    FormReads(typ, width, Form(|value|, width') + value);
    assert w[width..] == Form(|value|, width') + value;
    FormReads(|value|, width', value);
    assert w[..|w|] == w && w[width + width'..] == value;
  }

  /** Every element is one of these. */
  lemma IsWireOf(w: Bytes) returns (width: nat, width': nat)
    requires IsWire(w)
    ensures var e := ReadHead(w).1;
            && Fits(e.typ, width) && Fits(|e.value|, width') && 0 < e.typ < TWO_32
            && w == WireOf(e.typ, width, e.value, width')
  {
    hide Form, ReadVarNumber, Fits;
    var t := ReadType(w).value;
    var l := ReadVarNumber(w[t.size..]).value;
    width, width' := t.size, l.size;
    ReadIsForm(w);
    ReadIsForm(w[t.size..]);
    assert w == w[..t.size] + w[t.size..][..l.size] + w[t.size + l.size..];
  }

  /** Two encodings of one element compare by the width of TLV-TYPE, then by that of TLV-LENGTH. */
  lemma WireOfOrder(typ: nat, width: nat, value: Bytes, width': nat,
                    typ2: nat, width2: nat, value2: Bytes, width2': nat)
    requires Fits(typ, width) && Fits(|value|, width') && Fits(typ2, width2) && Fits(|value2|, width2')
    requires
      || width < width2 || (width == width2 && typ < typ2)
      || (width == width2 && typ == typ2 && (width' < width2' || (width' == width2' && |value| < |value2|)))
    ensures LexLess(WireOf(typ, width, value, width'), WireOf(typ2, width2, value2, width2'))
  {
    hide Form, Fits;
    var t, t2 := Form(typ, width), Form(typ2, width2);
    var l, l2 := Form(|value|, width'), Form(|value2|, width2');
    Associative(t, l, value);
    Associative(t2, l2, value2);
    if width == width2 && typ == typ2 {
      FormOrder(|value|, width', |value2|, width2');
      LexLessAppend(l, l2, value, value2);
      LexLessPrepend(t, l + value, l2 + value2);
    } else {
      FormOrder(typ, width, typ2, width2);
      LexLessAppend(t, t2, l + value, l2 + value2);
    }
  }

  /** Between two encodings of one element there is always the encoding of another. */
  lemma AnotherBetween(w: Bytes, w': Bytes) returns (x: Bytes)
    requires IsWire(w) && IsWire(w') && LexLess(w, w')
    requires ReadHead(w).1.typ == ReadHead(w').1.typ && ReadHead(w).1.value == ReadHead(w').1.value
    ensures IsWire(x) && LexLess(w, x) && LexLess(x, w')
    ensures ReadHead(x).1.typ != ReadHead(w).1.typ || ReadHead(x).1.value != ReadHead(w).1.value
  {
    hide WireOf, IsWire, ReadHead, LexLess;
    var e := ReadHead(w).1;
    var k, m := IsWireOf(w);
    var k', m' := IsWireOf(w');
    LexLessAsymmetric(w, w');
    if k' < k || (k' == k && m' < m) {
      WireOfOrder(e.typ, k', e.value, m', e.typ, k, e.value, m);
      assert false;
    }
    var value: Bytes := if k < k' || e.value != [] then [] else [0];
    var typ := if k == k' then e.typ else if e.typ > 1 then 1 else 2;
    var width := if k < k' && e.typ > 1 then k' else k;
    var width' := if k < k' then 1 else if e.value != [] then m' else m;
    x := WireOf(typ, width, value, width');
    WireOfReads(typ, width, value, width');
    WireOfOrder(e.typ, k, e.value, m, typ, width, value, width');
    WireOfOrder(typ, width, value, width', e.typ, k', e.value, m');
  }

  /** The shortest encoding of an element comes first. */
  lemma ShortestFirst(w: Bytes)
    requires IsWire(w)
    ensures var e := ReadHead(w).1;
            w == Encode(e.typ, e.value) || LexLess(Encode(e.typ, e.value), w)
  {
    hide ReadHead, LexLess, BigEndian, IsWire;
    var e := ReadHead(w).1;
    var k, m := IsWireOf(w);
    var k', m' := SizeOfVarNumber(e.typ), SizeOfVarNumber(|e.value|);
    assert Encode(e.typ, e.value) == WireOf(e.typ, k', e.value, m');
    if k' < k || (k' == k && m' < m) {
      WireOfOrder(e.typ, k', e.value, m', e.typ, k, e.value, m);
    }
  }

  // ---- why reading an element ends ----

  /** The octets start with a TLV-TYPE and a TLV-LENGTH in some form. */
  predicate HasHeader(s: Bytes, typ: nat, width: nat, length: nat, width': nat) {
    Fits(typ, width) && Fits(length, width') && 0 < typ < TWO_32 && Form(typ, width) + Form(length, width') <= s
  }

  /** Then the element is read if its value is there as well, and otherwise it overruns. */
  lemma HeaderDecides(s: Bytes, typ: nat, width: nat, length: nat, width': nat)
    requires HasHeader(s, typ, width, length, width')
    ensures var (ending, e) := ReadHead(s);
            var pos := width + width';
            if pos + length <= |s| then ending.AllRead? && e == Element(typ, s[pos..pos + length], s[..pos + length])
            else ending.Overrun?
  {
    hide Form, ReadVarNumber, Fits;
    var t, l := Form(typ, width), Form(length, width');
    assert t <= s;
    assert s == t + s[width..];
    FormReads(typ, width, s[width..]);
    assert s[width..][..width'] == (t + l)[width..] == l;
    assert s[width..] == l + s[width + width'..];
    FormReads(length, width', s[width + width'..]);
  }

  lemma HeaderIsThere(s: Bytes)
    requires !ReadHead(s).0.BadNumber?
    ensures exists typ, width, length, width' :: HasHeader(s, typ, width, length, width')
  {
    hide Form, ReadVarNumber, Fits;
    var t := ReadType(s).value;
    var l := ReadVarNumber(s[t.size..]).value;
    ReadIsForm(s);
    ReadIsForm(s[t.size..]);
    assert s[..t.size] + s[t.size..][..l.size] <= s;
    assert HasHeader(s, t.number, t.size, l.number, l.size);
  }

  /** A number is unreadable exactly when there is no such header. */
  lemma BadNumberIff(s: Bytes)
    ensures ReadHead(s).0.BadNumber? <==>
            forall typ, width, length, width' :: !HasHeader(s, typ, width, length, width')
  {
    hide HasHeader, ReadHead;
    if !ReadHead(s).0.BadNumber? {
      HeaderIsThere(s);
    }
    forall typ, width, length, width' | HasHeader(s, typ, width, length, width')
      ensures !ReadHead(s).0.BadNumber?
    {
      HeaderDecides(s, typ, width, length, width');
    }
  }
}
