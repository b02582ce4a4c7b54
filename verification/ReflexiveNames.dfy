/**
 Reflexive name components (TLV-TYPE 59) and the filters that look through them. The naming
 convention is the library's default, which decodes both marker and typed numbers.
 */
module ReflexiveNames {
  import opened Wrappers
  import opened Tlv
  import opened Names

  const REFLEXIVE_NAME_COMPONENT := 59
  const SEGMENT_MARKER: Byte := 0

  predicate IsNumber(c: Component) {
    |c.value| in {1, 2, 4, 8}
  }

  predicate IsNumberWithMarker(c: Component, marker: Byte) {
    |c.value| in {2, 3, 5, 9} && c.value[0] == marker
  }

  predicate IsReflexive(c: Component) {
    c.typ == REFLEXIVE_NAME_COMPONENT && (IsNumberWithMarker(c, SEGMENT_MARKER) || IsNumber(c))
  }

  /** The position of the first reflexive component; the length of the name if there is none. */
  function FirstReflexive(name: Name): (k: nat)
    ensures k <= |name|
    ensures forall i | 0 <= i < k :: !IsReflexive(name[i])
    ensures k < |name| ==> IsReflexive(name[k])
  {
    if name == [] || IsReflexive(name[0]) then 0 else 1 + FirstReflexive(name[1..])
  }

  /** The name without its first reflexive component. */
  function Stripped(name: Name): Name {
    var k := FirstReflexive(name);
    if k == |name| then name else name[..k] + name[k + 1..]
  }

  /** There is only one first position. */
  lemma FirstReflexiveUnique(name: Name, k: nat)
    requires k <= |name|
    requires forall i | 0 <= i < k :: !IsReflexive(name[i])
    requires k < |name| ==> IsReflexive(name[k])
    ensures FirstReflexive(name) == k
  {
    hide IsReflexive, FirstReflexive;
    var j := FirstReflexive(name);
  }

  method IsReflexiveName(name: Name) returns (r: bool)
    ensures r <==> exists c | c in name :: IsReflexive(c)
    ensures r <==> FirstReflexive(name) < |name|
  {
    hide IsReflexive, FirstReflexive;
    ghost var k := FirstReflexive(name);
    for i := 0 to |name|
      invariant forall j | 0 <= j < i :: !IsReflexive(name[j])
    {
      if IsReflexive(name[i]) {
        return true;
      }
    }
    r := false;
  }

  method GetNonReflexiveName(name: Name) returns (r: Name)
    ensures r == Stripped(name)
  {
    hide IsReflexive, FirstReflexive;
    var reflexive := IsReflexiveName(name);
    if !reflexive {
      return name;
    }
    r := name;
    for i := 0 to |name|
      invariant forall j | 0 <= j < i :: !IsReflexive(name[j])
    {
      if IsReflexive(name[i]) {
        FirstReflexiveUnique(name, i);
        return name[..i] + name[i + 1..];
      }
    }
  }

  /** A regular expression: does it match that many components of a name from a position on? */
  type Regex = (Name, nat, nat) -> bool

  /** The number of components left to the regular expression is an unsigned 64-bit difference. */
  predicate FilterAccepts(prefix: Name, regex: Option<Regex>, name: Name) {
    && Matches(prefix, name)
    && (regex.Some? ==> regex.value(name, |prefix|, (|name| - |prefix|) % TWO_64))
  }

  /** `InterestFilter::doesMatch`. */
  method DoesMatch(prefix: Name, regex: Option<Regex>, name: Name) returns (r: bool)
    ensures r <==> FilterAccepts(prefix, regex, name)
  {
    hide FirstReflexive;
    var a := IsReflexiveName(prefix);
    var b := IsReflexiveName(name);
    if a || b {
      var lhs := GetNonReflexiveName(prefix);
      var rhs := GetNonReflexiveName(name);
      r := IsPrefixOf(lhs, rhs);
    } else {
      r := IsPrefixOf(prefix, name);
    }
    r := r && (regex.None? || regex.value(name, |prefix|, (|name| - |prefix|) % TWO_64));
  }

  /** Both sides are compared without their first reflexive component. */
  predicate Matches(prefix: Name, name: Name) {
    Stripped(prefix) <= Stripped(name)
  }

  /** A name that starts with the prefix always matches. */
  lemma PrefixMatches(prefix: Name, name: Name)
    requires prefix <= name
    ensures Matches(prefix, name)
  {
    hide IsReflexive, FirstReflexive;
    var a, b := FirstReflexive(prefix), FirstReflexive(name);
    if a < |prefix| {
      FirstReflexiveUnique(name, a);
    } else {
      assert a <= b;
    }
  }

  /**
   The name's first reflexive component sits behind the prefix, or is the one the prefix has at the
   same place.
   */
  predicate Aligned(prefix: Name, name: Name) {
    var a, b := FirstReflexive(prefix), FirstReflexive(name);
    if a == |prefix| then b >= |prefix| || b == |name|
    else b == a && a < |name| && name[a] == prefix[a]
  }

  /** Matching is the plain prefix test exactly when the reflexive components are aligned. */
  lemma MatchesIsPrefixIff(prefix: Name, name: Name)
    ensures Matches(prefix, name) && Aligned(prefix, name) <==> prefix <= name
  {
    hide IsReflexive, FirstReflexive;
    var a, b := FirstReflexive(prefix), FirstReflexive(name);
    if prefix <= name {
      PrefixMatches(prefix, name);
      if a < |prefix| {
        FirstReflexiveUnique(name, a);
      }
    }
    if Matches(prefix, name) && Aligned(prefix, name) {
      if a == |prefix| {
        StrippedPrefix(name, |prefix|);
      } else {
        Reinserted(prefix, name, a);
      }
    }
  }

  lemma StrippedPrefix(name: Name, n: nat)
    requires n <= |Stripped(name)|
    requires FirstReflexive(name) >= n || FirstReflexive(name) == |name|
    ensures n <= |name| && Stripped(name)[..n] == name[..n]
  {
    hide FirstReflexive;
  }

  lemma Reinserted(prefix: Name, name: Name, a: nat)
    requires a < |prefix| && a < |name| && prefix[a] == name[a]
    requires prefix[..a] + prefix[a + 1..] <= name[..a] + name[a + 1..]
    ensures prefix <= name
  {
    var p, n := prefix[..a] + prefix[a + 1..], name[..a] + name[a + 1..];
    forall i | 0 <= i < |prefix|
      ensures prefix[i] == name[i]
    {
      var j := if i < a then i else i - 1;
      assert i != a ==> prefix[i] == p[j] && name[i] == n[j];
    }
  }

  /**
   Inserting a reflexive component anywhere in a name does not change which filters without
   reflexive components it matches.
   */
  lemma ReflexiveComponentIsTransparent(prefix: Name, name: Name, k: nat, r: Component)
    requires k <= |name| && IsReflexive(r)
    requires forall c | c in prefix :: !IsReflexive(c)
    requires forall c | c in name :: !IsReflexive(c)
    ensures Matches(prefix, name[..k] + [r] + name[k..]) <==> prefix <= name
  {
    hide IsReflexive, FirstReflexive;
    var more := name[..k] + [r] + name[k..];
    FirstReflexiveUnique(prefix, |prefix|);
    assert forall i | 0 <= i < k :: more[i] == name[i];
    FirstReflexiveUnique(more, k);
    assert more[..k] + more[k + 1..] == name;
  }
}
