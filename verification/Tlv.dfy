/**
 Octets and the numbers of the NDN-TLV encoding: big-endian integers, VAR-NUMBER and
 NonNegativeInteger, with the byte order (`memcmp`) they induce.
 */
module Tlv {
  import opened Wrappers

  type Byte = b: int | 0 <= b < 256

  type Bytes = seq<Byte>

  const TWO_8 := 0x100
  const TWO_16 := 0x1_0000
  const TWO_32 := 0x1_0000_0000
  const TWO_64 := 0x1_0000_0000_0000_0000

  // ---- byte order ----

  /** `a` and `b` differ at some common position, and at the first such position `a` is smaller. */
  ghost predicate LexLess(a: Bytes, b: Bytes) {
    exists k :: LessAt(a, b, k)
  }

  ghost predicate LessAt(a: Bytes, b: Bytes, k: nat) {
    k < |a| && k < |b| && a[..k] == b[..k] && a[k] < b[k]
  }

  /** `std::memcmp` over the length of the shorter argument. */
  function Memcmp(a: Bytes, b: Bytes): int {
    if a == [] || b == [] then 0
    else if a[0] != b[0] then a[0] - b[0]
    else Memcmp(a[1..], b[1..])
  }

  lemma {:induction false} MemcmpOrder(a: Bytes, b: Bytes)
    ensures Memcmp(a, b) < 0 <==> LexLess(a, b)
    ensures Memcmp(a, b) > 0 <==> LexLess(b, a)
    ensures Memcmp(a, b) == 0 <==> a <= b || b <= a
  {
    if a == [] || b == [] {
    } else if a[0] != b[0] {
      if a[0] < b[0] {
        assert LessAt(a, b, 0);
      } else {
        assert LessAt(b, a, 0);
      }
      assert forall k | LessAt(a, b, k) :: k == 0;
      assert forall k | LessAt(b, a, k) :: k == 0;
    } else {
      MemcmpOrder(a[1..], b[1..]);
      LessAtTail(a, b);
      LessAtTail(b, a);
      assert a == [a[0]] + a[1..] && b == [b[0]] + b[1..];
    }
  }

  lemma LessAtTail(a: Bytes, b: Bytes)
    requires a != [] && b != [] && a[0] == b[0]
    ensures LexLess(a, b) <==> LexLess(a[1..], b[1..])
  {
    if LexLess(a, b) {
      var k: nat :| LessAt(a, b, k);
      assert a[1..][..k - 1] == a[..k][1..] == b[..k][1..] == b[1..][..k - 1];
      assert LessAt(a[1..], b[1..], k - 1);
    }
    if LexLess(a[1..], b[1..]) {
      var k: nat :| LessAt(a[1..], b[1..], k);
      assert a[..k + 1] == [a[0]] + a[1..][..k];
      assert b[..k + 1] == [b[0]] + b[1..][..k];
      assert LessAt(a, b, k + 1);
    }
  }

  lemma LexLessAppend(a: Bytes, b: Bytes, x: Bytes, y: Bytes)
    requires LexLess(a, b)
    ensures LexLess(a + x, b + y)
  {
    var k: nat :| LessAt(a, b, k);
    assert (a + x)[..k] == a[..k] && (b + y)[..k] == b[..k];
    assert LessAt(a + x, b + y, k);
  }

  lemma LexLessPrepend(p: Bytes, a: Bytes, b: Bytes)
    requires LexLess(a, b)
    ensures LexLess(p + a, p + b)
  {
    var k: nat :| LessAt(a, b, k);
    assert (p + a)[..|p| + k] == p + a[..k];
    assert (p + b)[..|p| + k] == p + b[..k];
    assert LessAt(p + a, p + b, |p| + k);
  }

  lemma LexLessAsymmetric(a: Bytes, b: Bytes)
    requires LexLess(a, b)
    ensures !LexLess(b, a) && !(a <= b) && !(b <= a)
  {
    MemcmpOrder(a, b);
  }

  lemma LexLessTransitive(a: Bytes, b: Bytes, c: Bytes)
    requires LexLess(a, b) && LexLess(b, c)
    ensures LexLess(a, c)
  {
    var j: nat :| LessAt(a, b, j);
    var k: nat :| LessAt(b, c, k);
    var m := if j < k then j else k;
    assert a[..m] == a[..j][..m] && b[..m] == b[..j][..m] == b[..k][..m] && c[..m] == c[..k][..m];
    assert j < k ==> b[j] == b[..k][j] && c[j] == c[..k][j];
    assert k < j ==> a[k] == a[..j][k] && b[k] == b[..j][k];
    assert LessAt(a, c, m);
  }

  // ---- big-endian integers ----

  function Pow256(k: nat): (p: nat)
    ensures p > 0
  {
    if k == 0 then 1 else 256 * Pow256(k - 1)
  }

  /** The low `size` octets of `n`, most significant first. */
  function BigEndian(n: nat, size: nat): (s: Bytes)
    ensures |s| == size
  {
    if size == 0 then [] else BigEndian(n / 256, size - 1) + [n % 256]
  }

  function FromBigEndian(s: Bytes): nat {
    if s == [] then 0 else FromBigEndian(s[..|s| - 1]) * 256 + s[|s| - 1]
  }

  lemma {:induction false} FromBigEndianBound(s: Bytes)
    ensures FromBigEndian(s) < Pow256(|s|)
  {
    if s != [] {
      FromBigEndianBound(s[..|s| - 1]);
    }
  }

  lemma {:induction false} BigEndianRoundTrip(n: nat, size: nat)
    requires n < Pow256(size)
    ensures FromBigEndian(BigEndian(n, size)) == n
  {
    if size > 0 {
      var s := BigEndian(n, size);
      assert s[..size - 1] == BigEndian(n / 256, size - 1);
      BigEndianRoundTrip(n / 256, size - 1);
    }
  }

  lemma {:induction false} FromBigEndianRoundTrip(s: Bytes)
    ensures BigEndian(FromBigEndian(s), |s|) == s
  {
    if s != [] {
      FromBigEndianRoundTrip(s[..|s| - 1]);
      assert s == s[..|s| - 1] + [s[|s| - 1]];
    }
  }

  /** On equally long strings the byte order is the numeric order. */
  lemma {:induction false} BigEndianOrder(a: Bytes, b: Bytes)
    requires |a| == |b|
    ensures FromBigEndian(a) < FromBigEndian(b) <==> LexLess(a, b)
    ensures FromBigEndian(a) == FromBigEndian(b) <==> a == b
  {
    if a != [] {
      var n := |a| - 1;
      var a', b' := a[..n], b[..n];
      BigEndianOrder(a', b');
      assert a == a' + [a[n]] && b == b' + [b[n]];
      if LexLess(a', b') {
        LexLessAppend(a', b', [a[n]], [b[n]]);
      }
      if a' == b' && a[n] < b[n] {
        assert LessAt(a, b, n);
      }
      if LexLess(a, b) {
        var k: nat :| LessAt(a, b, k);
        if k < n {
          assert a'[..k] == a[..k] && b'[..k] == b[..k];
          assert LessAt(a', b', k);
        }
      }
    }
  }

  // ---- reading numbers ----

  /** Outcome of reading a number: its value and how many octets it took. */
  datatype Reading = Reading(number: nat, size: nat)

  /** The native value of 2, 4 or 8 octets stored most significant first. */
  function Native16(s: Bytes): nat
    requires |s| >= 2
  {
    var high: nat := s[0];
    high * 0x100 + s[1]
  }

  function Native32(s: Bytes): nat
    requires |s| >= 4
  {
    Native16(s) * TWO_16 + Native16(s[2..])
  }

  function Native64(s: Bytes): nat
    requires |s| >= 8
  {
    Native32(s) * TWO_32 + Native32(s[4..])
  }

  /** `readNumber` on contiguous storage: copy 1, 2, 4 or 8 octets and swap to native order. */
  function ReadNumberFast(size: nat, s: Bytes): Option<Reading>
    requires size in {1, 2, 4, 8}
  {
    if size > |s| then None
    else if size == 1 then Some(Reading(s[0], 1))
    else if size == 2 then Some(Reading(Native16(s), 2))
    else if size == 4 then Some(Reading(Native32(s), 4))
    else Some(Reading(Native64(s), 8))
  }

  /** `readNumber` on any other iterator: shift the octets in one by one, in 64 bits. */
  method ReadNumberSlow(size: nat, s: Bytes, begin: nat)
    returns (ok: bool, number: nat, pos: nat)
    requires size in {1, 2, 4, 8}
    requires begin <= |s|
    ensures ok <==> begin + size <= |s|
    ensures ok ==> pos == begin + size && number == FromBigEndian(s[begin..pos])
    ensures ok ==> ReadNumberFast(size, s[begin..]) == Some(Reading(number, size))
    ensures !ok ==> pos == |s| && ReadNumberFast(size, s[begin..]) == None
  {
    number, pos := 0, begin;
    var count := 0;
    while pos != |s| && count < size
      invariant pos == begin + count <= |s| && count <= size
      invariant number == FromBigEndian(s[begin..pos])
      decreases size - count
    {
      assert s[begin..pos + 1][..count] == s[begin..pos];
      FromBigEndianBound(s[begin..pos]);
      PowBelow(count, 7);
      number := number * 256 % TWO_64 + s[pos];
      pos, count := pos + 1, count + 1;
    }
    ok := count == size;
    if ok {
      assert s[begin..][..size] == s[begin..pos];
      FastIsBigEndian(size, s[begin..]);
    }
  }

  lemma {:induction false} PowBelow(j: nat, k: nat)
    requires j <= k
    ensures Pow256(j) <= Pow256(k)
    ensures Pow256(1) == TWO_8 && Pow256(2) == TWO_16 && Pow256(4) == TWO_32
    ensures Pow256(7) == 0x100_0000_0000_0000 && Pow256(8) == TWO_64
    decreases k - j
  {
    assert Pow256(2) == TWO_16;
    assert Pow256(4) == TWO_32;
    assert Pow256(6) == 0x1_0000_0000_0000;
    if j < k {
      PowBelow(j + 1, k);
    }
  }

  lemma FastIsBigEndian(size: nat, s: Bytes)
    requires size in {1, 2, 4, 8} && size <= |s|
    ensures ReadNumberFast(size, s) == Some(Reading(FromBigEndian(s[..size]), size))
  {
    forall k | 0 < k <= size
      ensures FromBigEndian(s[..k]) == FromBigEndian(s[..k - 1]) * 256 + s[k - 1]
    {
      assert s[..k][..k - 1] == s[..k - 1];
    }
    assert FromBigEndian(s[..1]) == s[0];
    if size > 1 {
      assert FromBigEndian(s[..2]) == Native16(s);
    }
    if size > 2 {
      assert FromBigEndian(s[..3]) == Native16(s) * 256 + s[2];
      assert FromBigEndian(s[..4]) == Native32(s);
    }
    if size > 4 {
      assert FromBigEndian(s[..5]) == Native32(s) * 256 + s[4];
      assert FromBigEndian(s[..6]) == Native32(s) * TWO_16 + Native16(s[4..]);
      assert FromBigEndian(s[..7]) == FromBigEndian(s[..6]) * 256 + s[6];
    }
  }

  /** `tlv::readVarNumber`; longer forms than needed are accepted. */
  function ReadVarNumber(s: Bytes): (r: Option<Reading>)
    ensures r.Some? ==> 1 <= r.value.size <= |s| && r.value.number < TWO_64
  {
    if s == [] then None
    else if s[0] < 253 then Some(Reading(s[0], 1))
    else
      var len := if s[0] == 253 then 2 else if s[0] == 254 then 4 else 8;
      match ReadNumberFast(len, s[1..])
      case None => None
      case Some(r) => Some(Reading(r.number, 1 + len))
  }

  /** `tlv::readType`: a VAR-NUMBER that is neither zero nor wider than 32 bits. */
  function ReadType(s: Bytes): (r: Option<Reading>)
    ensures r.Some? ==> 1 <= r.value.size <= |s| && 1 <= r.value.number < TWO_32
  {
    match ReadVarNumber(s)
    case None => None
    case Some(r) => if r.number == 0 || r.number >= TWO_32 then None else Some(r)
  }

  // ---- VAR-NUMBER ----

  /** `Estimator::prependVarNumber` and `tlv::sizeOfVarNumber`. */
  function SizeOfVarNumber(n: nat): (k: nat)
    ensures k in {1, 3, 5, 9}
  {
    if n < 253 then 1 else if n < TWO_16 then 3 else if n < TWO_32 then 5 else 9
  }

  /** The octets `Encoder::prependVarNumber` writes: the shortest form. */
  function VarNumber(n: nat): (s: Bytes)
    ensures |s| == SizeOfVarNumber(n)
  {
    if n < 253 then [n]
    else if n < TWO_16 then [253] + BigEndian(n, 2)
    else if n < TWO_32 then [254] + BigEndian(n, 4)
    else [255] + BigEndian(n, 8)
  }

  /** What was written is read back, whatever octets follow. */
  lemma VarNumberRoundTrip(n: nat, rest: Bytes)
    requires n < TWO_64
    ensures ReadVarNumber(VarNumber(n) + rest) == Some(Reading(n, SizeOfVarNumber(n)))
  {
    var s := VarNumber(n) + rest;
    if n >= 253 {
      var len := SizeOfVarNumber(n) - 1;
      PowBelow(0, 0);
      BigEndianRoundTrip(n, len);
      assert s[1..][..len] == BigEndian(n, len);
      FastIsBigEndian(len, s[1..]);
    }
  }

  /**
   Reading never takes fewer octets than the shortest form, and takes exactly that many only if
   the octets read are the shortest form.
   */
  lemma ReadVarNumberShortest(s: Bytes)
    requires ReadVarNumber(s).Some?
    ensures var r := ReadVarNumber(s).value;
            && SizeOfVarNumber(r.number) <= r.size
            && (s[..r.size] == VarNumber(r.number) <==> SizeOfVarNumber(r.number) == r.size)
  {
    var r := ReadVarNumber(s).value;
    if s[0] < 253 {
      assert s[..1] == [s[0]];
    } else {
      var len := r.size - 1;
      FastIsBigEndian(len, s[1..]);
      FromBigEndianBound(s[1..][..len]);
      PowBelow(0, 0);
      FromBigEndianRoundTrip(s[1..][..len]);
      assert s[..r.size] == [s[0]] + s[1..][..len];
    }
  }

  /**
   VAR-NUMBER encoding is order-preserving and prefix-free: smaller numbers are smaller at a
   position that both encodings have.
   */
  lemma VarNumberOrder(m: nat, n: nat)
    requires m < n < TWO_64
    ensures LexLess(VarNumber(m), VarNumber(n))
  {
    if VarNumber(m)[0] != VarNumber(n)[0] {
      assert LessAt(VarNumber(m), VarNumber(n), 0);
    } else {
      var len := SizeOfVarNumber(n) - 1;
      PowBelow(0, 0);
      BigEndianRoundTrip(m, len);
      BigEndianRoundTrip(n, len);
      BigEndianOrder(BigEndian(m, len), BigEndian(n, len));
      LexLessPrepend([VarNumber(n)[0]], BigEndian(m, len), BigEndian(n, len));
    }
  }

  // ---- NonNegativeInteger ----

  /** `Estimator::prependNonNegativeInteger` and `tlv::sizeOfNonNegativeInteger`. */
  function SizeOfNonNegativeInteger(n: nat): (k: nat)
    ensures k in {1, 2, 4, 8}
  {
    if n < TWO_8 then 1 else if n < TWO_16 then 2 else if n < TWO_32 then 4 else 8
  }

  function NonNegativeInteger(n: nat): (s: Bytes)
    ensures |s| == SizeOfNonNegativeInteger(n)
  {
    BigEndian(n, SizeOfNonNegativeInteger(n))
  }

  /** `readNonNegativeInteger` over a whole TLV-VALUE. */
  function ReadNonNegativeInteger(value: Bytes): (r: Option<nat>) {
    if |value| !in {1, 2, 4, 8} then None
    else
      match ReadNumberFast(|value|, value)
      case None => None
      case Some(r) => Some(r.number)
  }

  lemma NonNegativeIntegerRoundTrip(n: nat)
    requires n < TWO_64
    ensures ReadNonNegativeInteger(NonNegativeInteger(n)) == Some(n)
  {
    var size := SizeOfNonNegativeInteger(n);
    var s := BigEndian(n, size);
    PowBelow(0, 0);
    BigEndianRoundTrip(n, size);
    FastIsBigEndian(size, s);
    assert s[..size] == s;
  }
}
