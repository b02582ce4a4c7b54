/**
 Successors in the canonical order: big-endian increment with carry, extension of the value when
 it overflows, and the hand-over to the next type for fixed-length digest components.
 */
module Successors {
  import opened Tlv
  import opened Encoding
  import opened Blocks
  import opened Names

  function Zeros(n: nat): (s: Bytes)
    ensures |s| == n
    ensures forall i | 0 <= i < n :: s[i] == 0
  {
    seq(n, _ => 0)
  }

  /** Components accepted by `Component::ensureValid`. */
  predicate ValidComponent(c: Component) {
    && 1 <= c.typ <= NAME_COMPONENT_MAX
    && (c.typ in {IMPLICIT_SHA256_DIGEST, PARAMETERS_SHA256_DIGEST} ==> |c.value| == DIGEST_SIZE)
  }

  predicate ValidName(n: Name) {
    forall c | c in n :: ValidComponent(c)
  }

  /** The value plus one in as many octets, and whether the carry ran out of them. */
  function Increment(v: Bytes): (r: (Bytes, bool))
    ensures |r.0| == |v|
  {
    if v == [] then ([], true)
    else
      var front, last := v[..|v| - 1], v[|v| - 1];
      if last == 255 then
        var (up, overflow) := Increment(front);
        (up + [0], overflow)
      else (front + [last + 1], false)
  }

  /** Adding one to an octet drops the carry. */
  function Bump(b: Byte): Byte {
    if b == 255 then 0 else b + 1
  }

  lemma {:induction false} IncrementIsPlusOne(v: Bytes)
    ensures var (r, overflow) := Increment(v);
            && (overflow <==> FromBigEndian(v) + 1 == Pow256(|v|))
            && (if overflow then r == Zeros(|v|) else FromBigEndian(r) == FromBigEndian(v) + 1)
  {
    if v != [] {
      var front, last := v[..|v| - 1], v[|v| - 1];
      IncrementIsPlusOne(front);
      FromBigEndianBound(front);
      var (r, overflow) := Increment(v);
      assert r[..|v| - 1] == if last == 255 then Increment(front).0 else front;
    }
  }

  /** The next value: one longer, all zero, once every octet is at its maximum. */
  function NextValue(v: Bytes): Bytes {
    var (r, overflow) := Increment(v);
    if overflow then r + [0] else r
  }

  /** `ComponentType::getMinValue`. */
  function MinValue(typ: nat): Bytes {
    if typ in {IMPLICIT_SHA256_DIGEST, PARAMETERS_SHA256_DIGEST} then Zeros(DIGEST_SIZE) else []
  }

  /** `Component::getSuccessor`. */
  function ComponentSuccessor(c: Component): Component {
    if c.typ in {IMPLICIT_SHA256_DIGEST, PARAMETERS_SHA256_DIGEST} && Increment(c.value).1 then
      Component(c.typ + 1, MinValue(c.typ + 1))
    else Component(c.typ, NextValue(c.value))
  }

  /**
   `getSuccessorImpl`: the carry loop prepends the changed octets, then the unchanged front, and
   an overflow appends one more octet before length and type are written.
   */
  method SuccessorWire(c: Component) returns (isOverflow: bool, wire: Bytes)
    requires ValidComponent(c) && |c.value| + 1 < TWO_64
    ensures isOverflow == Increment(c.value).1
    ensures wire == Encode(c.typ, NextValue(c.value))
  {
    hide VarNumber, SizeOfVarNumber, Overwrite, Increment, NextValue;
    var encoder := new Encoder(EncodedSize(c.typ, |c.value|) + 9, 9);
    isOverflow := WriteNextValue(c.value, encoder);
    NextValueIs(c.value);
    Associative(VarNumber(c.typ), VarNumber(encoder.end - encoder.begin), encoder.Contents());
    var _ := encoder.PrependVarNumber(encoder.end - encoder.begin);
    var _ := encoder.PrependVarNumber(c.typ);
    wire := encoder.buffer[encoder.begin..encoder.end];
  }

  method WriteNextValue(v: Bytes, encoder: Encoder) returns (isOverflow: bool)
    requires encoder.Valid() && encoder.Contents() == []
    modifies encoder, encoder.buffer
    ensures encoder.Valid() && (encoder.buffer == old(encoder.buffer) || fresh(encoder.buffer))
    ensures isOverflow == Increment(v).1 && encoder.Contents() == NextValue(v)
  {
    hide Overwrite, Increment, Carried, NextValue;
    isOverflow := true;
    var i := |v|;
    CarryStart(v);
    while isOverflow && i > 0
      invariant 0 <= i <= |v|
      invariant encoder.Valid() && (encoder.buffer == old(encoder.buffer) || fresh(encoder.buffer))
      invariant Carried(v, i, isOverflow, encoder.Contents())
    {
      CarryStep(v, i, encoder.Contents());
      var newValue := Bump(v[i - 1]);
      var _ := encoder.PrependRange([newValue]);
      isOverflow := newValue == 0;
      i := i - 1;
    }
    CarryDone(v, i, isOverflow, encoder.Contents());
    var _ := encoder.PrependRange(v[..i]);
    if isOverflow {
      var _ := encoder.AppendRange([0]);
    }
  }

  /** `tail` is what the increment makes of `v[i..]`, with the carry still to go into `v[..i]`. */
  ghost predicate Carried(v: Bytes, i: nat, carry: bool, tail: Bytes)
    requires i <= |v|
  {
    Increment(v) == if carry then (Increment(v[..i]).0 + tail, Increment(v[..i]).1)
                    else (v[..i] + tail, false)
  }

  lemma CarryStart(v: Bytes)
    ensures Carried(v, |v|, true, [])
  {
    assert v[..|v|] == v;
    assert Increment(v).0 + [] == Increment(v).0;
  }

  lemma CarryStep(v: Bytes, i: nat, tail: Bytes)
    requires 0 < i <= |v| && Carried(v, i, true, tail)
    ensures var newValue := Bump(v[i - 1]);
            Carried(v, i - 1, newValue == 0, [newValue] + tail)
  {
    assert v[..i][..i - 1] == v[..i - 1];
    var newValue := Bump(v[i - 1]);
    if newValue == 0 {
      Associative(Increment(v[..i - 1]).0, [0], tail);
    } else {
      Associative(v[..i - 1], [newValue], tail);
    }
  }

  lemma CarryDone(v: Bytes, i: nat, carry: bool, tail: Bytes)
    requires i <= |v| && Carried(v, i, carry, tail) && (carry ==> i == 0)
    ensures carry == Increment(v).1
    ensures NextValue(v) == if carry then v[..i] + tail + [0] else v[..i] + tail
  {
    if carry {
      assert v[..0] == [];
      assert [] + tail == tail;
    }
  }

  // ---- immediate successors ----

  /** No value of the same length lies between `v` and its increment. */
  lemma IncrementImmediate(v: Bytes, z: Bytes)
    requires |z| == |v| && Memcmp(v, z) < 0
    ensures !Increment(v).1
    ensures Increment(v).0 == z || Memcmp(Increment(v).0, z) < 0
  {
    hide LexLess, Increment;
    IncrementIsPlusOne(v);
    MemcmpOrder(v, z);
    BigEndianOrder(v, z);
    FromBigEndianBound(z);
    var r := Increment(v).0;
    if !Increment(v).1 {
      MemcmpOrder(r, z);
      BigEndianOrder(r, z);
    }
  }

  lemma IncrementGreater(v: Bytes)
    requires !Increment(v).1
    ensures Memcmp(v, Increment(v).0) < 0
  {
    hide LexLess, Increment;
    IncrementIsPlusOne(v);
    MemcmpOrder(v, Increment(v).0);
    BigEndianOrder(v, Increment(v).0);
  }

  /** All-zero octets come first among equally long strings. */
  lemma ZerosFirst(z: Bytes)
    ensures Memcmp(z, Zeros(|z|)) >= 0
  {
    hide LexLess;
    MemcmpOrder(z, Zeros(|z|));
    BigEndianOrder(z, Zeros(|z|));
    ZerosValue(|z|);
  }

  lemma {:induction false} ZerosValue(n: nat)
    ensures FromBigEndian(Zeros(n)) == 0
  {
    if n > 0 {
      assert Zeros(n)[..n - 1] == Zeros(n - 1);
      ZerosValue(n - 1);
    }
  }

  /**
   The successor of a valid component is valid, greater, and no valid component lies between:
   across increments, length extension, and the change of type.
   */
  lemma ComponentSuccessorImmediate(c: Component, z: Component)
    requires ValidComponent(c) && ValidComponent(z)
    ensures ValidComponent(ComponentSuccessor(c))
    ensures ComponentLess(c, ComponentSuccessor(c))
    ensures ComponentLess(c, z) ==> !ComponentLess(z, ComponentSuccessor(c))
  {
    hide Memcmp, Increment, FromBigEndian, Pow256, NextValue;
    var s := ComponentSuccessor(c);
    var (r, overflow) := Increment(c.value);
    NextValueIs(c.value);
    if !overflow {
      IncrementGreater(c.value);
    }
    if ComponentLess(c, z) {
      if z.typ == c.typ && |z.value| == |c.value| {
        IncrementImmediate(c.value, z.value);
        MemcmpEqualLength(r, z.value);
        MemcmpEqualLength(z.value, r);
      } else if s.typ == z.typ && |s.value| == |z.value| {
        ZerosFirst(z.value);
      }
    }
  }

  lemma NextValueIs(v: Bytes)
    ensures NextValue(v) == if Increment(v).1 then Zeros(|v| + 1) else Increment(v).0
  {
    IncrementIsPlusOne(v);
  }

  /** `Name::getSuccessor`. */
  function NameSuccessor(n: Name): Name {
    if n == [] then [Component(IMPLICIT_SHA256_DIGEST, Zeros(DIGEST_SIZE))]
    else n[..|n| - 1] + [ComponentSuccessor(n[|n| - 1])]
  }

  lemma PrefixRangeOne(c: Component, z: Name)
    requires ValidComponent(c) && ValidName(z) && z != []
    ensures [c] <= z <==> NameLessEq([c], z) && NameLess(z, [ComponentSuccessor(c)])
  {
    hide ComponentSuccessor, ComponentLess;
    var x, y := [c], [ComponentSuccessor(c)];
    ComponentSuccessorImmediate(c, z[0]);
    ComponentOrder(c, c, c);
    ComponentOrder(z[0], z[0], z[0]);
    assert y[1..] == [] && !NameLess(z[1..], y[1..]);
    assert NameLess(z, y) <==> z[0] != y[0] && ComponentLess(z[0], y[0]);
    if z[0] == c {
      assert [c] <= z;
      ProperPrefix(x, z);
    } else {
      assert NameLess(x, z) <==> ComponentLess(c, z[0]);
    }
  }

  lemma {:induction false} PrefixRangeFrom(p: Name, c: Component, z: Name)
    requires ValidName(p) && ValidComponent(c) && ValidName(z)
    ensures p + [c] <= z <==>
            NameLessEq(p + [c], z) && NameLess(z, p + [ComponentSuccessor(c)])
  {
    hide ComponentSuccessor, ComponentLess;
    var x, y := p + [c], p + [ComponentSuccessor(c)];
    if z != [] {
      if p == [] {
        assert x == [c] && y == [ComponentSuccessor(c)];
        PrefixRangeOne(c, z);
      } else {
        assert x[1..] == p[1..] + [c] && y[1..] == p[1..] + [ComponentSuccessor(c)];
        PrefixRangeFrom(p[1..], c, z[1..]);
        assert x == [x[0]] + x[1..] && z == [z[0]] + z[1..];
        ComponentOrder(x[0], z[0], x[0]);
      }
    }
  }

  /**
   For a non-empty name, the names it is a prefix of are exactly those from it up to, and not
   including, its successor.
   */
  lemma PrefixRange(x: Name, z: Name)
    requires x != [] && ValidName(x) && ValidName(z)
    ensures x <= z <==> NameLessEq(x, z) && NameLess(z, NameSuccessor(x))
  {
    var p, c := x[..|x| - 1], x[|x| - 1];
    assert x == p + [c];
    PrefixRangeFrom(p, c, z);
  }

  /** Nothing valid lies strictly between `x` and its successor. */
  ghost predicate ImmediateSuccessor(x: Name) {
    forall z | ValidName(z) && NameLess(x, z) :: !NameLess(z, NameSuccessor(x))
  }

  /**
   The documented definition of `getSuccessor`, that nothing lies between a name and its
   successor, holds only for the empty name: every other name is followed by its own extensions.
   */
  lemma ImmediateOnlyForEmptyName(x: Name)
    requires ValidName(x)
    ensures NameLess(x, NameSuccessor(x)) && ValidName(NameSuccessor(x))
    ensures ImmediateSuccessor(x) <==> x == []
  {
    hide ComponentLess, ComponentSuccessor;
    if x == [] {
      var first := Component(IMPLICIT_SHA256_DIGEST, Zeros(DIGEST_SIZE));
      forall z | ValidName(z) && NameLess(x, z)
        ensures !NameLess(z, [first])
      {
        FirstComponent(z[0]);
      }
    } else {
      var last := x[|x| - 1];
      ComponentSuccessorImmediate(last, last);
      PrefixRange(x, x);
      var z := x + [Component(GENERIC_NAME_COMPONENT, [])];
      ProperPrefix(x, z);
      PrefixRange(x, z);
      assert !ImmediateSuccessor(x);
    }
  }

  /** No valid component comes before the all-zero implicit digest. */
  lemma FirstComponent(c: Component)
    requires ValidComponent(c)
    ensures !ComponentLess(c, Component(IMPLICIT_SHA256_DIGEST, Zeros(DIGEST_SIZE)))
  {
    if c.typ == IMPLICIT_SHA256_DIGEST {
      ZerosFirst(c.value);
    }
  }
}
