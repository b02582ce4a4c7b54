/**
 Names as the octets of their components: what `Name::compare` orders by when, as in every decoded
 packet, each component has its wire encoding.
 */
module WireNames {
  import opened Wrappers
  import opened Tlv
  import opened Blocks
  import opened Names
  import opened WireForms

  /** The octets of each component. */
  type Key = seq<Bytes>

  predicate AllWires(key: Key) {
    forall w | w in key :: IsWire(w)
  }

  function ComponentOf(w: Bytes): Component {
    Component(ReadHead(w).1.typ, ReadHead(w).1.value)
  }

  function NameOf(key: Key): (name: Name)
    ensures |name| == |key|
  {
    seq(|key|, i requires 0 <= i < |key| => ComponentOf(key[i]))
  }

  /** The key holds the name, each component in one of its encodings. */
  predicate Spells(key: Key, name: Name) {
    AllWires(key) && NameOf(key) == name
  }

  /** Keys compare at the first component whose octets differ; a proper prefix comes first. */
  predicate KeyLess(a: Key, b: Key) {
    b != [] && (a == [] || if a[0] == b[0] then KeyLess(a[1..], b[1..]) else Memcmp(a[0], b[0]) < 0)
  }

  predicate KeyLessEq(a: Key, b: Key) {
    a == b || KeyLess(a, b)
  }

  // ---- a strict total order ----

  /** Elements are told apart by `memcmp`, since none is a prefix of another. */
  lemma WireConnected(a: Bytes, b: Bytes)
    requires IsWire(a) && IsWire(b)
    ensures Memcmp(a, b) == 0 <==> a == b
    ensures Memcmp(a, b) < 0 <==> Memcmp(b, a) > 0
    ensures Memcmp(a, b) > 0 <==> Memcmp(b, a) < 0
  {
    hide ReadHead;
    MemcmpOrder(a, b);
    MemcmpOrder(b, a);
    if a <= b {
      ElementPrefix(ReadHead(a).1, ReadHead(b).1);
    }
    if b <= a {
      ElementPrefix(ReadHead(b).1, ReadHead(a).1);
    }
  }

  lemma {:induction false} KeyLessIrreflexive(a: Key)
    ensures !KeyLess(a, a)
  {
    if a != [] {
      KeyLessIrreflexive(a[1..]);
    }
  }

  lemma {:induction false} KeyLessConnected(a: Key, b: Key)
    requires AllWires(a) && AllWires(b)
    ensures a == b || KeyLess(a, b) || KeyLess(b, a)
    ensures !(KeyLess(a, b) && KeyLess(b, a))
  {
    hide IsWire;
    if a != [] && b != [] {
      WireConnected(a[0], b[0]);
      KeyLessConnected(a[1..], b[1..]);
      assert a == [a[0]] + a[1..] && b == [b[0]] + b[1..];
    }
  }

  lemma {:induction false} KeyLessTransitive(a: Key, b: Key, c: Key)
    requires KeyLess(a, b) && KeyLess(b, c)
    ensures KeyLess(a, c)
  {
    if a != [] {
      if a[0] == b[0] == c[0] {
        KeyLessTransitive(a[1..], b[1..], c[1..]);
      } else if a[0] != b[0] && b[0] != c[0] {
        MemcmpTransitive(a[0], b[0], c[0]);
        MemcmpSelf(a[0]);
      }
    }
  }

  /** A key comes before whatever extends it. */
  lemma {:induction false} KeyPrefix(x: Key, y: Key)
    ensures x <= y ==> KeyLessEq(x, y) && !KeyLess(y, x)
  {
    if x == [] || !(x <= y) {
    } else {
      assert x[1..] <= y[1..];
      KeyPrefix(x[1..], y[1..]);
      assert x == [x[0]] + x[1..] && y == [y[0]] + y[1..];
    }
  }

  /** The keys that share a prefix lie next to each other. */
  lemma {:induction false} KeyContiguous(p: Key, x: Key, y: Key, z: Key)
    requires p <= x && p <= z && KeyLessEq(x, y) && KeyLessEq(y, z)
    ensures p <= y
  {
    if p != [] && x != y && y != z {
      assert x[0] == p[0] == z[0];
      MemcmpAsymmetric(x[0], y[0]);
      KeyContiguous(p[1..], x[1..], y[1..], z[1..]);
      assert p == [p[0]] + p[1..] && y == [y[0]] + y[1..];
    }
  }

  /** The first component that differs decides. */
  lemma {:induction false} KeyDifference(x: Key, y: Key, i: nat)
    requires i < |x| && i < |y| && x[..i] == y[..i] && x[i] != y[i]
    ensures KeyLess(x, y) <==> Memcmp(x[i], y[i]) < 0
  {
    if i > 0 {
      assert x[0] == x[..i][0] == y[..i][0] == y[0];
      assert x[1..][..i - 1] == x[..i][1..] && y[1..][..i - 1] == y[..i][1..];
      KeyDifference(x[1..], y[1..], i - 1);
    }
  }

  /** Where two keys part that are no prefixes of each other. */
  lemma {:induction false} Parting(x: Key, y: Key) returns (i: nat)
    requires !(x <= y) && !(y <= x)
    ensures i < |x| && i < |y| && x[..i] == y[..i] && x[i] != y[i]
  {
    i := 0;
    while i < |x| && i < |y| && x[i] == y[i]
      invariant i <= |x| && i <= |y| && x[..i] == y[..i]
    {
      assert x[..i + 1] == x[..i] + [x[i]] && y[..i + 1] == y[..i] + [y[i]];
      i := i + 1;
    }
    assert x[..|x|] == x && y[..|y|] == y;
  }

  /** The component is strictly between two others in `memcmp` order. */
  predicate Squeezed(w: Bytes, x: Bytes, s: Bytes) {
    Memcmp(w, x) < 0 && Memcmp(x, s) < 0
  }

  /** The keys from `p + [w]` up to `p + [s]`: those it is a prefix of, and those squeezed in. */
  lemma {:induction false} KeyRange(p: Key, w: Bytes, s: Bytes, z: Key)
    requires AllWires(z) && IsWire(w) && IsWire(s) && Memcmp(w, s) < 0
    ensures !KeyLess(z, p + [w]) && KeyLess(z, p + [s]) <==>
            || p + [w] <= z
            || (p <= z && |z| > |p| && Squeezed(w, z[|p|], s))
  {
    hide IsWire, Memcmp;
    var x, y := p + [w], p + [s];
    if z != [] {
      if p == [] {
        WireConnected(w, z[0]);
        WireConnected(z[0], s);
        WireConnected(w, s);
        assert x == [w] && y == [s] && x[1..] == [] && y[1..] == [];
        assert !KeyLess(z[1..], []);
        assert z == [z[0]] + z[1..];
      } else if z[0] == p[0] {
        assert x[1..] == p[1..] + [w] && y[1..] == p[1..] + [s];
        KeyRange(p[1..], w, s, z[1..]);
        assert x == [x[0]] + x[1..] && z == [z[0]] + z[1..];
      } else {
        assert x[0] == y[0] == p[0] != z[0];
      }
    }
  }

  lemma MemcmpTransitive(a: Bytes, b: Bytes, c: Bytes)
    requires Memcmp(a, b) < 0 && Memcmp(b, c) < 0
    ensures Memcmp(a, c) < 0
  {
    hide Memcmp;
    MemcmpOrder(a, b);
    MemcmpOrder(b, c);
    MemcmpOrder(a, c);
    LexLessTransitive(a, b, c);
  }

  lemma MemcmpAsymmetric(a: Bytes, b: Bytes)
    ensures !(Memcmp(a, b) < 0 && Memcmp(b, a) < 0)
  {
    hide Memcmp;
    MemcmpOrder(a, b);
    MemcmpOrder(b, a);
    if LexLess(a, b) {
      LexLessAsymmetric(a, b);
    }
  }

  lemma MemcmpSelf(a: Bytes)
    ensures Memcmp(a, a) == 0
  {
    MemcmpOrder(a, a);
  }

  // ---- octets and components ----

  /** A prefix of the octets is a prefix of the name. */
  lemma PrefixSpelled(a: Key, b: Key)
    requires a <= b
    ensures NameOf(a) <= NameOf(b)
  {
    hide ReadHead;
  }

  /** The key in shortest form. */
  function ShortestKey(name: Name): (key: Key)
    ensures |key| == |name|
  {
    seq(|name|, i requires 0 <= i < |name| => Encode(name[i].typ, name[i].value))
  }

  /** Components that can be encoded at all. */
  predicate Encodable(name: Name) {
    forall c | c in name :: 0 < c.typ < TWO_32 && |c.value| < TWO_64
  }

  lemma ShortestSpells(name: Name)
    requires Encodable(name)
    ensures Spells(ShortestKey(name), name)
  {
    hide ReadHead, Encode;
    var key := ShortestKey(name);
    forall i | 0 <= i < |name|
      ensures IsWire(key[i]) && ComponentOf(key[i]) == name[i]
    {
      assert name[i] in name;
      MakeElementIsElement(name[i].typ, name[i].value);
    }
  }

  /** In shortest form the order of the octets is the canonical order of the names. */
  lemma {:induction false} ShortestIsCanonical(a: Name, b: Name)
    requires Encodable(a) && Encodable(b)
    ensures KeyLess(ShortestKey(a), ShortestKey(b)) <==> NameLess(a, b)
  {
    hide Encode, ComponentLess, Memcmp;
    var x, y := ShortestKey(a), ShortestKey(b);
    if a != [] && b != [] {
      WireCompareTells(a[0], b[0]);
      MemcmpSelf(x[0]);
      assert x[1..] == ShortestKey(a[1..]) && y[1..] == ShortestKey(b[1..]);
      ShortestIsCanonical(a[1..], b[1..]);
    }
  }

  // ---- what `Name::compare` does ----

  /** The components of a decoded name: each with the octets it was decoded from. */
  function HeldAs(key: Key): (held: seq<Held>)
    ensures |held| == |key|
  {
    seq(|key|, i requires 0 <= i < |key| => Held(ComponentOf(key[i]), Some(key[i])))
  }

  /**
   On names with wires `Name::compare` is the order of keys, exactly when the keys part or the
   difference of the lengths fits an `int`.
   */
  lemma {:induction false} NameCompareByKey(a: Key, b: Key)
    requires AllWires(a) && AllWires(b)
    ensures var r := NameCompare(HeldAs(a), HeldAs(b));
            && r.Some?
            && ((r.value < 0 <==> KeyLess(a, b)) && (r.value > 0 <==> KeyLess(b, a)) <==>
                !(a <= b || b <= a) || SizeDifferenceFits(|a| - |b|))
  {
    hide IsWire, ReadHead;
    if a != [] && b != [] {
      WireConnected(a[0], b[0]);
      assert HeldAs(a)[1..] == HeldAs(a[1..]) && HeldAs(b)[1..] == HeldAs(b[1..]);
      NameCompareByKey(a[1..], b[1..]);
      assert a == [a[0]] + a[1..] && b == [b[0]] + b[1..];
    }
  }

  /** The component is in shortest form, with a type that names may use. */
  ghost predicate HeldUsual(h: Held) {
    HeldWell(h) && HeldShortest(h)
  }

  ghost predicate AllUsual(a: seq<Held>) {
    forall h | h in a :: HeldUsual(h)
  }

  /** Types that names may use, and sizes whose differences fit an `int`. */
  predicate ComponentsFit(a: seq<Held>, b: Name) {
    forall h, c | h in a && c in b ::
      c.typ <= NAME_COMPONENT_MAX && SizeDifferenceFits(|h.component.value| - |c.value|)
  }

  /**
   A name made up locally may lack wires. Against a name in shortest form it still compares like its
   own shortest form, as long as size differences fit an `int`.
   */
  lemma NameCompareWithoutWires(a: seq<Held>, b: Name)
    requires Encodable(b) && AllUsual(a) && ComponentsFit(a, b)
    requires SizeDifferenceFits(|a| - |b|)
    ensures var r := NameCompare(a, HeldAs(ShortestKey(b)));
            var x, y := ShortestKey(ComponentsOf(a)), ShortestKey(b);
            r.Some? && (r.value < 0 <==> KeyLess(x, y)) && (r.value > 0 <==> KeyLess(y, x))
  {
    hide ReadHead, Encode, KeyLess, NameLess, NameCompare, SizeDifferenceFits, Comparable, AllUsual, ComponentsFit,
      ShortestKey, Encodable;
    ComparableShortest(a, b);
    HeldShortestIs(b);
    NameCompareTells(a, HeldAs(ShortestKey(b)));
    ComponentsEncodable(a);
    ShortestIsCanonical(ComponentsOf(a), b);
    ShortestIsCanonical(b, ComponentsOf(a));
  }

  lemma HeldShortestIs(b: Name)
    requires Encodable(b)
    ensures ComponentsOf(HeldAs(ShortestKey(b))) == b
    ensures forall i | 0 <= i < |b| :: HeldAs(ShortestKey(b))[i] == Held(b[i], Some(Encode(b[i].typ, b[i].value)))
  {
    hide ReadHead, Encode;
    ShortestSpells(b);
    assert forall i | 0 <= i < |b| :: NameOf(ShortestKey(b))[i] == b[i];
  }

  lemma ComparableShortest(a: seq<Held>, b: Name)
    requires Encodable(b) && AllUsual(a) && ComponentsFit(a, b)
    ensures Comparable(a, HeldAs(ShortestKey(b)))
  {
    hide ReadHead, Encode, Compare, SizeDifferenceFits, Tells, IsElement, ShortestKey, HeldAs;
    HeldShortestIs(b);
    forall x, y | x in a && y in HeldAs(ShortestKey(b))
      ensures Tells(Compare(x, y), x.component, y.component)
    {
      var i :| 0 <= i < |b| && HeldAs(ShortestKey(b))[i] == y;
      assert b[i] in b;
      MakeElementIsElement(b[i].typ, b[i].value);
      CompareTells(x, y);
    }
  }

  lemma ComponentsEncodable(a: seq<Held>)
    requires AllUsual(a)
    ensures Encodable(ComponentsOf(a))
  {
    hide IsElement;
    forall c | c in ComponentsOf(a)
      ensures 0 < c.typ < TWO_32 && |c.value| < TWO_64
    {
      var i :| 0 <= i < |a| && ComponentsOf(a)[i] == c;
      assert a[i] in a;
    }
  }
}
