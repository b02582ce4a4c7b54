/** PIT tokens on the wire, and which Interests take part in reflexive forwarding. */
module PitTokens {
  import opened Wrappers
  import opened Tlv
  import opened Names
  import opened ReflexiveNames

  const TOKEN_SIZE := 4
  const LENGTH_MIN := 1
  const LENGTH_MAX := 32

  /** What `PitToken::validate` accepts. */
  predicate IsPitToken(t: Bytes) {
    LENGTH_MIN <= |t| <= LENGTH_MAX
  }

  /** Least significant octet first. */
  function LittleEndian(n: nat, size: nat): (s: Bytes)
    ensures |s| == size
  {
    if size == 0 then [] else [n % 256] + LittleEndian(n / 256, size - 1)
  }

  function FromLittleEndian(s: Bytes): nat {
    if s == [] then 0 else s[0] + 256 * FromLittleEndian(s[1..])
  }

  /** `n >> (8 * i)`. */
  function ShiftRight(n: nat, i: nat): nat {
    if i == 0 then n else ShiftRight(n, i - 1) / 256
  }

  method SetPitToken(value: nat) returns (t: Bytes)
    requires value < TWO_32
    ensures t == LittleEndian(value, TOKEN_SIZE) && IsPitToken(t)
  {
    t := [];
    for i := 0 to TOKEN_SIZE
      invariant t + LittleEndian(ShiftRight(value, i), TOKEN_SIZE - i) == LittleEndian(value, TOKEN_SIZE)
    {
      var byte: Byte := ShiftRight(value, i) % 256;
      assert LittleEndian(ShiftRight(value, i), TOKEN_SIZE - i)
          == [byte] + LittleEndian(ShiftRight(value, i + 1), TOKEN_SIZE - i - 1);
      t := t + [byte];
    }
  }

  /** Four octets of memory. */
  type Memory = b: Bytes | |b| == TOKEN_SIZE witness [0, 0, 0, 0]

  /**
   The four octets that are read of a token, whatever its length: those beyond its end are whatever
   memory holds there.
   */
  function Seen(t: Bytes, beyond: Memory): (s: Bytes)
    ensures |s| == TOKEN_SIZE
    ensures |t| == TOKEN_SIZE ==> s == t
  {
    (t + beyond)[..TOKEN_SIZE]
  }

  method ReadPitToken(t: Bytes, beyond: Memory) returns (value: nat)
    ensures value == FromLittleEndian(Seen(t, beyond)) && value < TWO_32
  {
    hide Pow256, FromLittleEndian;
    value := 0;
    ghost var head := Seen(t, beyond);
    PowBelow(0, 0);
    StartReading(head);
    for i := 0 to TOKEN_SIZE
      invariant value < Pow256(i)
      invariant Reads(value, i, head)
    {
      var octet := if i < |t| then t[i] else beyond[i - |t|];
      // The new octet and the bits read so far do not overlap, so `|=` adds.
      ReadOctet(value, i, head);
      value := value + octet * Pow256(i);
    }
    StopReading(value, head);
  }

  /** `value` holds the first `i` octets. */
  ghost predicate Reads(value: nat, i: nat, head: Bytes)
    requires i <= |head|
  {
    value + Pow256(i) * FromLittleEndian(head[i..]) == FromLittleEndian(head)
  }

  lemma StartReading(head: Bytes)
    ensures Pow256(0) == 1 && Reads(0, 0, head)
  {
    assert head[0..] == head;
  }

  lemma StopReading(value: nat, head: Bytes)
    requires Reads(value, |head|, head)
    ensures value == FromLittleEndian(head)
  {
    assert head[|head|..] == [];
  }

  lemma ReadOctet(value: nat, i: nat, head: Bytes)
    requires i < |head| && value < Pow256(i) && Reads(value, i, head)
    ensures value + head[i] * Pow256(i) < Pow256(i + 1)
    ensures Reads(value + head[i] * Pow256(i), i + 1, head)
  {
    hide Pow256, FromLittleEndian;
    NextOctet(head, i);
    AddOctet(value, i, head[i], FromLittleEndian(head[i + 1..]));
  }

  lemma NextOctet(head: Bytes, i: nat)
    requires i < |head|
    ensures FromLittleEndian(head[i..]) == head[i] + 256 * FromLittleEndian(head[i + 1..])
  {
    assert head[i..][1..] == head[i + 1..];
  }

  lemma AddOctet(value: nat, i: nat, b: Byte, rest: nat)
    requires value < Pow256(i)
    ensures value + b * Pow256(i) < Pow256(i + 1)
    ensures value + Pow256(i) * (b + 256 * rest) == value + b * Pow256(i) + Pow256(i + 1) * rest
  {
    var p := Pow256(i);
    assert b * p <= 255 * p;
    assert p * (b + 256 * rest) == b * p + 256 * p * rest;
  }

  lemma {:induction false} LittleEndianRoundTrip(n: nat, size: nat)
    requires n < Pow256(size)
    ensures FromLittleEndian(LittleEndian(n, size)) == n
  {
    if size > 0 {
      LittleEndianRoundTrip(n / 256, size - 1);
      assert LittleEndian(n, size)[1..] == LittleEndian(n / 256, size - 1);
    }
  }

  lemma {:induction false} FromLittleEndianRoundTrip(s: Bytes)
    ensures LittleEndian(FromLittleEndian(s), |s|) == s
  {
    if s != [] {
      FromLittleEndianRoundTrip(s[1..]);
    }
  }

  /** A token value survives the wire. */
  lemma TokenRoundTrip(value: nat)
    requires value < TWO_32
    ensures FromLittleEndian(LittleEndian(value, TOKEN_SIZE)) == value
  {
    PowBelow(0, 0);
    LittleEndianRoundTrip(value, TOKEN_SIZE);
  }

  /** The least significant octet comes first on the wire. */
  lemma {:induction false} TokenOctets(n: nat, size: nat, i: nat)
    requires i < size
    ensures LittleEndian(n, size)[i] == n / Pow256(i) % 256
  {
    if i > 0 {
      TokenOctets(n / 256, size - 1, i - 1);
      DivideTwice(n, Pow256(i - 1));
    }
  }

  lemma DivideTwice(n: nat, p: nat)
    requires p > 0
    ensures n / 256 / p == n / (256 * p)
  {
    var q, r := n / 256 / p, n / 256 % p;
    assert n == 256 * (n / 256) + n % 256;
    assert n / 256 == p * q + r;
    assert 256 * (p * q + r) == (256 * p) * q + 256 * r;
    QuotientIs(n, 256 * p, q, 256 * r + n % 256);
  }

  lemma QuotientIs(n: nat, d: nat, q: nat, r: nat)
    requires d > 0 && n == d * q + r && r < d
    ensures n / d == q
  {
    var q' := n / d;
    assert n == d * q' + n % d;
    Multiples(d, q', q);
    Multiples(d, q, q');
  }

  lemma Multiples(d: nat, a: nat, b: nat)
    ensures a < b ==> d * a + d <= d * b
  {
    if a < b {
      assert d * b == d * a + d + d * (b - a - 1);
    }
  }

  /** Reading a token and setting it again restores it exactly when it has four octets. */
  lemma TokenRestoredIff(t: Bytes, beyond: Memory)
    ensures LittleEndian(FromLittleEndian(Seen(t, beyond)), TOKEN_SIZE) == t <==> |t| == TOKEN_SIZE
  {
    hide LittleEndian, FromLittleEndian;
    FromLittleEndianRoundTrip(Seen(t, beyond));
    var r := LittleEndian(FromLittleEndian(Seen(t, beyond)), TOKEN_SIZE);
  }

  // ---- kinds of Interest ----

  /** The four digits of the reserved reflexive name. */
  const RN9999: nat := 960051513

  /** `Malformed` is the exception `toNumber` throws. */
  datatype Kind = Plain | Reflexive | FromProducer | Malformed

  /** `None` when the number of a marker-form component is asked for. */
  function IsRN9999(c: Component): Option<bool> {
    if !IsReflexive(c) then Some(false)
    else if !IsNumber(c) then None
    else Some(ReadNonNegativeInteger(c.value) == Some(RN9999))
  }

  function FindRN9999(name: Name): Option<bool> {
    if name == [] then Some(false)
    else
      var first := IsRN9999(name[0]);
      if first == Some(false) then FindRN9999(name[1..]) else first
  }

  function KindOf(name: Name): Kind {
    var scan := FindRN9999(name);
    if scan.None? then Malformed
    else if scan.value then FromProducer
    else if FirstReflexive(name) < |name| then Reflexive
    else Plain
  }

  method ScanRN9999(name: Name) returns (r: Option<bool>)
    ensures r == FindRN9999(name)
  {
    hide IsRN9999;
    for i := 0 to |name|
      invariant FindRN9999(name[i..]) == FindRN9999(name)
    {
      assert name[i..][1..] == name[i + 1..];
      var one := IsRN9999(name[i]);
      if one != Some(false) {
        return one;
      }
    }
    r := Some(false);
  }

  /** The reserved component is the text "9999" as a number of four or eight octets, and nothing else. */
  lemma ReservedComponent(c: Component)
    ensures IsRN9999(c) == Some(true) <==>
            c.typ == REFLEXIVE_NAME_COMPONENT
            && (c.value == [57, 57, 57, 57] || c.value == [0, 0, 0, 0, 57, 57, 57, 57])
  {
    hide ReadNumberFast, FromBigEndian, BigEndian;
    if IsNumber(c) {
      var v := c.value;
      FastIsBigEndian(|v|, v);
      assert v[..|v|] == v;
      FromBigEndianRoundTrip(v);
      FromBigEndianBound(v);
      PowBelow(0, 0);
      ReservedOctets();
      if FromBigEndian(v) == RN9999 {
        assert v == BigEndian(RN9999, |v|);
      }
    }
  }

  lemma ReservedOctets()
    ensures BigEndian(RN9999, 4) == [57, 57, 57, 57]
    ensures BigEndian(RN9999, 8) == [0, 0, 0, 0, 57, 57, 57, 57]
    ensures FromBigEndian([57, 57, 57, 57]) == RN9999
    ensures FromBigEndian([0, 0, 0, 0, 57, 57, 57, 57]) == RN9999
  {
    assert BigEndian(RN9999, 2) == [57, 57];
    assert BigEndian(RN9999 / 0x10000, 2) == [57, 57];
    PowBelow(0, 0);
    assert BigEndian(RN9999, 4) == [57, 57, 57, 57];
    assert BigEndian(0, 1) == [0];
    assert BigEndian(0, 2) == [0, 0];
    assert BigEndian(0, 4) == [0, 0, 0, 0];
    assert BigEndian(57, 5) == BigEndian(0, 4) + [57];
    BigEndianRoundTrip(RN9999, 4);
    BigEndianRoundTrip(RN9999, 8);
  }

  /** The reserved component on the wire. */
  predicate IsReserved(c: Component) {
    c.typ == 59 && (c.value == [57, 57, 57, 57] || c.value == [0, 0, 0, 0, 57, 57, 57, 57])
  }

  /** A reflexive component in marker form, of which no number can be read. */
  predicate IsMarked(c: Component) {
    c.typ == 59 && |c.value| in {3, 5, 9} && c.value[0] == 0
  }

  lemma ComponentKinds(c: Component)
    ensures IsRN9999(c) == if IsReserved(c) then Some(true) else if IsMarked(c) then None else Some(false)
    ensures IsReserved(c) || IsMarked(c) ==> IsReflexive(c)
  {
    hide ReadNonNegativeInteger;
    ReservedComponent(c);
  }

  /** The first reserved or marked component; the length of the name if there is none. */
  function FirstTelling(name: Name): (k: nat)
    ensures k <= |name|
    ensures forall i | 0 <= i < k :: !IsReserved(name[i]) && !IsMarked(name[i])
    ensures k < |name| ==> IsReserved(name[k]) || IsMarked(name[k])
  {
    if name == [] || IsReserved(name[0]) || IsMarked(name[0]) then 0 else 1 + FirstTelling(name[1..])
  }

  /** The scan ends there. */
  lemma {:induction false} ScanEnds(name: Name)
    ensures var k := FirstTelling(name);
            FindRN9999(name) == if k == |name| then Some(false) else if IsReserved(name[k]) then Some(true) else None
  {
    hide IsReserved, IsMarked, IsRN9999;
    if name != [] {
      ComponentKinds(name[0]);
      ScanEnds(name[1..]);
    }
  }

  lemma NotBoth(c: Component)
    ensures !(IsReserved(c) && IsMarked(c))
  {
  }

  /** A reserved component comes before any in marker form. */
  ghost predicate ReservedFirst(name: Name) {
    exists i | 0 <= i < |name| :: IsReserved(name[i]) && forall j | 0 <= j < i :: !IsMarked(name[j])
  }

  /** The other way round. */
  ghost predicate MarkedFirst(name: Name) {
    exists i | 0 <= i < |name| :: IsMarked(name[i]) && forall j | 0 <= j < i :: !IsReserved(name[j])
  }

  lemma TellingFirst(name: Name)
    ensures var k := FirstTelling(name);
            && (ReservedFirst(name) <==> k < |name| && IsReserved(name[k]))
            && (MarkedFirst(name) <==> k < |name| && IsMarked(name[k]))
  {
    hide IsReserved, IsMarked;
    var k := FirstTelling(name);
    if k < |name| {
      NotBoth(name[k]);
    }
  }

  /**
   What the forwarder takes an Interest for, by the components of its name: one of the producer if a
   reserved component comes before any in marker form, malformed the other way round, else a
   consumer's reflexive one if some component is reflexive.
   */
  lemma KindIff(name: Name)
    ensures KindOf(name).FromProducer? <==> ReservedFirst(name)
    ensures KindOf(name).Malformed? <==> MarkedFirst(name)
    ensures KindOf(name).Reflexive? <==>
            (exists c | c in name :: IsReflexive(c)) && forall c | c in name :: !IsReserved(c) && !IsMarked(c)
    ensures KindOf(name).Plain? <==> forall c | c in name :: !IsReflexive(c)
  {
    hide IsReserved, IsMarked, IsReflexive, FindRN9999, FirstReflexive, FirstTelling, ReservedFirst, MarkedFirst;
    ScanEnds(name);
    TellingFirst(name);
    var k, m := FirstReflexive(name), FirstTelling(name);
    if m < |name| {
      NotBoth(name[m]);
      ComponentKinds(name[m]);
      assert name[m] in name;
    }
    if k < |name| {
      assert name[k] in name;
    }
  }
}
