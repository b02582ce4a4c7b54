/**
 Name components and names: the canonical order of NDN Packet Format 0.3, and the comparison that
 works on wire octets instead.
 */
module Names {
  import opened Wrappers
  import opened Tlv
  import opened Encoding
  import opened Blocks

  datatype Component = Component(typ: nat, value: Bytes)

  type Name = seq<Component>

  const IMPLICIT_SHA256_DIGEST := 1
  const PARAMETERS_SHA256_DIGEST := 2
  const GENERIC_NAME_COMPONENT := 8
  const NAME_COMPONENT_MAX := 65535
  const DIGEST_SIZE := 32

  /** A SHA-256 digest. */
  type Digest = d: Bytes | |d| == DIGEST_SIZE witness seq(DIGEST_SIZE, _ => 0)

  // ---- canonical order ----

  /** Components compare by type, then by length, then octet by octet. */
  predicate ComponentLess(a: Component, b: Component) {
    || a.typ < b.typ
    || (a.typ == b.typ && |a.value| < |b.value|)
    || (a.typ == b.typ && |a.value| == |b.value| && Memcmp(a.value, b.value) < 0)
  }

  /** Names compare at the first component that differs; a proper prefix comes first. */
  predicate NameLess(a: Name, b: Name) {
    b != [] && (a == [] || if a[0] == b[0] then NameLess(a[1..], b[1..]) else ComponentLess(a[0], b[0]))
  }

  predicate NameLessEq(a: Name, b: Name) {
    a == b || NameLess(a, b)
  }

  lemma ComponentOrder(a: Component, b: Component, c: Component)
    ensures !ComponentLess(a, a)
    ensures a == b || ComponentLess(a, b) || ComponentLess(b, a)
    ensures !(ComponentLess(a, b) && ComponentLess(b, a))
    ensures ComponentLess(a, b) && ComponentLess(b, c) ==> ComponentLess(a, c)
  {
    MemcmpOrder(a.value, a.value);
    MemcmpOrder(a.value, b.value);
    MemcmpOrder(b.value, a.value);
    MemcmpOrder(b.value, c.value);
    MemcmpOrder(a.value, c.value);
    if |a.value| == |b.value| {
      BigEndianOrder(a.value, b.value);
      BigEndianOrder(b.value, a.value);
    }
    if |a.value| == |b.value| == |c.value| {
      BigEndianOrder(b.value, c.value);
      BigEndianOrder(a.value, c.value);
    }
  }

  lemma {:induction false} NameLessConnected(a: Name, b: Name)
    ensures a == b || NameLess(a, b) || NameLess(b, a)
    ensures !(NameLess(a, b) && NameLess(b, a))
  {
    if a != [] && b != [] {
      if a[0] == b[0] {
        NameLessConnected(a[1..], b[1..]);
        assert a == [a[0]] + a[1..] && b == [b[0]] + b[1..];
      } else {
        ComponentOrder(a[0], b[0], a[0]);
      }
    }
  }

  lemma {:induction false} NameLessTransitive(a: Name, b: Name, c: Name)
    requires NameLess(a, b) && NameLess(b, c)
    ensures NameLess(a, c)
  {
    if a != [] {
      if a[0] == b[0] == c[0] {
        NameLessTransitive(a[1..], b[1..], c[1..]);
      } else {
        ComponentOrder(a[0], b[0], c[0]);
        ComponentOrder(b[0], a[0], c[0]);
      }
    }
  }

  // ---- comparing components as they are held ----

  /** A component together with its wire encoding, if it has one. */
  datatype Held = Held(component: Component, wire: Option<Bytes>)

  /** The wire, if any, is one whole element carrying this type and value. */
  ghost predicate HeldWell(h: Held) {
    && 0 < h.component.typ <= NAME_COMPONENT_MAX && |h.component.value| < TWO_64
    && (h.wire.Some? ==> IsElement(Element(h.component.typ, h.component.value, h.wire.value)))
  }

  ghost predicate HeldShortest(h: Held) {
    h.wire.Some? ==> h.wire.value == Encode(h.component.typ, h.component.value)
  }

  /** Conversion of an integer to a 32-bit `int`. */
  function ToInt32(n: int): int {
    if n % TWO_32 < 0x8000_0000 then n % TWO_32 else n % TWO_32 - TWO_32
  }

  /**
   The comparison used when a wire is missing. Differences of unsigned sizes are narrowed to
   `int`; a size difference that narrows to zero would make `memcmp` read past the shorter value.
   */
  function CompareFields(a: Component, b: Component): Option<int> {
    var cmpType := ToInt32(a.typ - b.typ);
    if cmpType != 0 then Some(cmpType)
    else
      var cmpSize := ToInt32(|a.value| - |b.value|);
      if cmpSize != 0 then Some(cmpSize)
      else if |a.value| != |b.value| then None
      else Some(Memcmp(a.value, b.value))
  }

  /** `Component::compare`. */
  function Compare(a: Held, b: Held): Option<int> {
    if a.wire.Some? && b.wire.Some? then Some(Memcmp(a.wire.value, b.wire.value))
    else CompareFields(a.component, b.component)
  }

  /** A comparison result that tells the canonical order. */
  predicate Tells(r: Option<int>, a: Component, b: Component) {
    && r.Some?
    && (r.value < 0 <==> ComponentLess(a, b))
    && (r.value > 0 <==> ComponentLess(b, a))
    && (r.value == 0 <==> a == b)
  }

  lemma MemcmpEqualLength(a: Bytes, b: Bytes)
    requires |a| == |b|
    ensures Memcmp(a, b) == 0 <==> a == b
    ensures Memcmp(a, b) < 0 <==> Memcmp(b, a) > 0
  {
    MemcmpOrder(a, b);
    MemcmpOrder(b, a);
  }

  /** Earlier in canonical order means smaller at an octet both shortest encodings have. */
  lemma EncodeOrder(a: Component, b: Component)
    requires a.typ < TWO_64 && b.typ < TWO_64 && |a.value| < TWO_64 && |b.value| < TWO_64
    requires ComponentLess(a, b)
    ensures LexLess(Encode(a.typ, a.value), Encode(b.typ, b.value))
  {
    hide VarNumber, SizeOfVarNumber, LexLess, Memcmp;
    var ta, tb := VarNumber(a.typ), VarNumber(b.typ);
    var la, lb := VarNumber(|a.value|), VarNumber(|b.value|);
    Associative(ta, la, a.value);
    Associative(tb, lb, b.value);
    if a.typ < b.typ {
      VarNumberOrder(a.typ, b.typ);
      LexLessAppend(ta, tb, la + a.value, lb + b.value);
    } else {
      if |a.value| < |b.value| {
        VarNumberOrder(|a.value|, |b.value|);
        LexLessAppend(la, lb, a.value, b.value);
      } else {
        MemcmpOrder(a.value, b.value);
        LexLessPrepend(la, a.value, b.value);
      }
      LexLessPrepend(ta, la + a.value, lb + b.value);
    }
  }

  /** Comparing the octets of shortest-form wires is comparing in canonical order. */
  lemma WireCompareTells(a: Component, b: Component)
    requires a.typ < TWO_64 && b.typ < TWO_64 && |a.value| < TWO_64 && |b.value| < TWO_64
    ensures Tells(Some(Memcmp(Encode(a.typ, a.value), Encode(b.typ, b.value))), a, b)
  {
    hide Encode, LexLess;
    var wa, wb := Encode(a.typ, a.value), Encode(b.typ, b.value);
    MemcmpOrder(wa, wb);
    ComponentOrder(a, b, a);
    if ComponentLess(a, b) {
      EncodeOrder(a, b);
      LexLessAsymmetric(wa, wb);
    } else if ComponentLess(b, a) {
      EncodeOrder(b, a);
      LexLessAsymmetric(wb, wa);
    }
  }

  /**
   A held wire compares like the canonical order against the shortest form of its own component
   only if it is that form: longer headers break the fast comparison.
   */
  lemma WireCompareNeedsShortest(h: Held)
    requires HeldWell(h) && h.wire.Some?
    ensures var shortest := Encode(h.component.typ, h.component.value);
            Tells(Some(Memcmp(h.wire.value, shortest)), h.component, h.component) <==> HeldShortest(h)
  {
    hide IsElement, ReadHead;
    var c := h.component;
    var e, s := Element(c.typ, c.value, h.wire.value), MakeElement(c.typ, c.value);
    MakeElementIsElement(c.typ, c.value);
    MemcmpOrder(e.wire, s.wire);
    ComponentOrder(c, c, c);
    if e.wire <= s.wire {
      ElementPrefix(e, s);
    } else if s.wire <= e.wire {
      ElementPrefix(s, e);
    }
  }

  /** No element's octets are a proper prefix of another's. */
  lemma ElementPrefix(e: Element, f: Element)
    requires IsElement(e) && IsElement(f) && e.wire <= f.wire
    ensures e == f
  {
    hide ReadHead;
    assert f.wire == e.wire + f.wire[|e.wire|..];
    ReadHeadExtend(e, f.wire[|e.wire|..]);
  }

  /** The sign of a size difference survives narrowing to `int`. */
  predicate SizeDifferenceFits(d: int) {
    d == 0 || (if d > 0 then 0 < d % TWO_32 < 0x8000_0000 else d % TWO_32 >= 0x8000_0000)
  }

  /** The field-wise comparison is right exactly when a deciding size difference fits an `int`. */
  lemma CompareFieldsTells(a: Component, b: Component)
    requires a.typ <= NAME_COMPONENT_MAX && b.typ <= NAME_COMPONENT_MAX
    ensures Tells(CompareFields(a, b), a, b) <==>
            a.typ != b.typ || SizeDifferenceFits(|a.value| - |b.value|)
  {
    if |a.value| == |b.value| {
      MemcmpEqualLength(a.value, b.value);
      MemcmpEqualLength(b.value, a.value);
    }
  }

  /**
   `Component::compare` of shortest forms tells the canonical order exactly when both wires are
   there, or the field-wise comparison is right.
   */
  lemma CompareTells(a: Held, b: Held)
    requires HeldWell(a) && HeldWell(b) && HeldShortest(a) && HeldShortest(b)
    ensures Tells(Compare(a, b), a.component, b.component) <==>
            || (a.wire.Some? && b.wire.Some?)
            || a.component.typ != b.component.typ
            || SizeDifferenceFits(|a.component.value| - |b.component.value|)
  {
    hide IsElement, ReadHead, Encode, CompareFields, Memcmp, ComponentLess;
    WireCompareTells(a.component, b.component);
    CompareFieldsTells(a.component, b.component);
  }

  // ---- comparing names ----

  function ComponentsOf(held: seq<Held>): (n: Name)
    ensures |n| == |held|
  {
    seq(|held|, i requires 0 <= i < |held| => held[i].component)
  }

  /** The components `[pos, pos + count)` of a name, cut at its end. */
  function SubName<T>(n: seq<T>, pos: nat, count: nat): seq<T>
    requires pos <= |n|
  {
    if count < |n| - pos then n[pos..pos + count] else n[pos..]
  }

  /** `Name::compare` of whole names; `None` where a component comparison is not defined. */
  function NameCompare(a: seq<Held>, b: seq<Held>): Option<int> {
    if a == [] || b == [] then Some(ToInt32(|a| - |b|))
    else
      var c := Compare(a[0], b[0]);
      if c == Some(0) then NameCompare(a[1..], b[1..]) else c
  }

  /** Every pair of components is held so that their comparison tells the canonical order. */
  ghost predicate Comparable(a: seq<Held>, b: seq<Held>) {
    forall x, y | x in a && y in b :: Tells(Compare(x, y), x.component, y.component)
  }

  /** A comparison result that tells the canonical order of names. */
  predicate TellsNames(r: int, x: Name, y: Name) {
    && (r < 0 <==> NameLess(x, y))
    && (r > 0 <==> NameLess(y, x))
    && (r == 0 <==> x == y)
  }

  /** `Name::compare` of two ranges: the whole comparison of the two sub-names. */
  method CompareNames(a: seq<Held>, pos1: nat, count1: nat, b: seq<Held>, pos2: nat, count2: nat)
    returns (r: Option<int>)
    requires pos1 <= |a| && pos2 <= |b|
    ensures r == NameCompare(SubName(a, pos1, count1), SubName(b, pos2, count2))
  {
    hide Compare, ToInt32, SubName;
    var n1 := if count1 < |a| - pos1 then count1 else |a| - pos1;
    var n2 := if count2 < |b| - pos2 then count2 else |b| - pos2;
    var count := if n1 < n2 then n1 else n2;
    ghost var x, y := SubName(a, pos1, count1), SubName(b, pos2, count2);
    SubNameIs(a, pos1, count1);
    SubNameIs(b, pos2, count2);
    assert x[0..] == x && y[0..] == y;
    var i := 0;
    while i < count
      invariant 0 <= i <= count
      invariant NameCompare(x, y) == NameCompare(x[i..], y[i..])
    {
      r := Compare(a[pos1 + i], b[pos2 + i]);
      assert x[i..][1..] == x[i + 1..] && y[i..][1..] == y[i + 1..];
      if r != Some(0) {
        return;
      }
      i := i + 1;
    }
    r := Some(ToInt32(n1 - n2));
  }

  lemma SubNameIs<T>(n: seq<T>, pos: nat, count: nat)
    requires pos <= |n|
    ensures var k := if count < |n| - pos then count else |n| - pos;
            && |SubName(n, pos, count)| == k
            && forall i | 0 <= i < k :: SubName(n, pos, count)[i] == n[pos + i]
  {
  }

  /**
   Where component comparisons are right, `Name::compare` tells the canonical order exactly when
   the names differ before the end of both, or the difference of their lengths fits an `int`.
   */
  lemma {:induction false} NameCompareTells(a: seq<Held>, b: seq<Held>)
    requires Comparable(a, b)
    ensures var r := NameCompare(a, b);
            var x, y := ComponentsOf(a), ComponentsOf(b);
            && r.Some?
            && (TellsNames(r.value, x, y) <==> !(x <= y || y <= x) || SizeDifferenceFits(|x| - |y|))
  {
    hide Compare, ComponentLess, SizeDifferenceFits, ToInt32;
    var x, y := ComponentsOf(a), ComponentsOf(b);
    if a == [] || b == [] {
      CountsDecide(x, y, 0);
    } else {
      assert a[0] in a && b[0] in b;
      assert x[1..] == ComponentsOf(a[1..]) && y[1..] == ComponentsOf(b[1..]);
      NameCompareTells(a[1..], b[1..]);
      assert x == [x[0]] + x[1..] && y == [y[0]] + y[1..];
    }
  }

  /** When one name is a prefix of the other, the narrowed difference of their lengths decides. */
  lemma CountsDecide(x: Name, y: Name, count: nat)
    requires count == if |x| < |y| then |x| else |y|
    requires x[..count] == y[..count]
    ensures x <= y || y <= x
    ensures TellsNames(ToInt32(|x| - |y|), x, y) <==> SizeDifferenceFits(|x| - |y|)
  {
    hide NameLess;
    assert x[..|x|] == x && y[..|y|] == y;
    ProperPrefix(x, y);
    ProperPrefix(y, x);
  }

  /** A prefix comes before whatever extends it. */
  lemma {:induction false} ProperPrefix(x: Name, y: Name)
    ensures x <= y ==> NameLessEq(x, y)
    ensures x <= y && x != y ==> NameLess(x, y) && !NameLess(y, x)
    ensures x == y ==> !NameLess(x, y)
  {
    if x != [] && x <= y {
      assert x[1..] <= y[1..];
      ProperPrefix(x[1..], y[1..]);
      assert x == [x[0]] + x[1..] && y == [y[0]] + y[1..];
    }
  }

  /** `Name::isPrefixOf`. */
  method IsPrefixOf(a: Name, b: Name) returns (r: bool)
    ensures r <==> a <= b
  {
    if |a| > |b| {
      return false;
    }
    var i := 0;
    while i < |a|
      invariant 0 <= i <= |a| <= |b|
      invariant a[..i] == b[..i]
    {
      if a[i] != b[i] {
        return false;
      }
      assert a[..i + 1] == a[..i] + [a[i]] && b[..i + 1] == b[..i] + [b[i]];
      i := i + 1;
    }
    return true;
  }

  /** `Name::equals`. */
  method Equals(a: Name, b: Name) returns (r: bool)
    ensures r <==> a == b
  {
    if |a| != |b| {
      return false;
    }
    var i := 0;
    while i < |a|
      invariant 0 <= i <= |a|
      invariant a[..i] == b[..i]
    {
      if a[i] != b[i] {
        return false;
      }
      assert a[..i + 1] == a[..i] + [a[i]] && b[..i + 1] == b[..i] + [b[i]];
      i := i + 1;
    }
    assert a[..|a|] == a && b[..|b|] == b;
    return true;
  }
}
