/**
 The Interest object as applications use it: setters that keep the parameters digest in the name
 up to date and drop the cached wire, and `wireEncode`/`wireDecode` that fill the cache.
 */
module InterestObject {
  import opened Wrappers
  import opened Tlv
  import opened Encoding
  import opened Blocks
  import opened Names
  import opened InterestCodec
  import opened InterestPacket

  /** The name with its parameters digest set to `digest`. */
  function WithDigest(n: Name, digest: Digest): Name
    requires DigestIndex(n) != -2
  {
    var c := Component(PARAMETERS_SHA256_DIGEST, digest);
    if DigestIndex(n) == -1 then n + [c] else n[DigestIndex(n) := c]
  }

  /** The name without its parameters digest, if it has one. */
  function WithoutDigest(n: Name): Name
    requires DigestIndex(n) != -2
  {
    if DigestIndex(n) == -1 then n else n[..DigestIndex(n)] + n[DigestIndex(n) + 1..]
  }

  lemma WithDigestHasIt(n: Name, digest: Digest)
    requires DigestIndex(n) != -2
    ensures var n' := WithDigest(n, digest);
            && DigestIndex(n') >= 0 && n'[DigestIndex(n')].value == digest
            && (EncodableName(n) ==> EncodableName(n'))
  {
    hide DigestIndex;
    var n' := WithDigest(n, digest);
    var k := if DigestIndex(n) == -1 then |n| else DigestIndex(n);
    DigestIndexMeaning(n);
    DigestIndexMeaning(n');
    assert forall j | 0 <= j < |n'| && j != k :: n'[j] == n[j];
    assert IsParametersDigest(n'[k]);
  }

  lemma WithoutDigestHasNone(n: Name)
    requires DigestIndex(n) != -2
    ensures DigestIndex(WithoutDigest(n)) == -1
    ensures DigestIndex(n) == -1 ==> WithoutDigest(n) == n
    ensures EncodableName(n) ==> EncodableName(WithoutDigest(n))
  {
    hide DigestIndex;
    var k, n' := DigestIndex(n), WithoutDigest(n);
    DigestIndexMeaning(n);
    DigestIndexMeaning(n');
    if k >= 0 {
      forall j | 0 <= j < |n'|
        ensures !IsParametersDigest(n'[j]) && n'[j] in n
      {
        assert n'[j] == if j < k then n[j] else n[j + 1];
      }
    }
  }

  /** `findFirstParameter`: the position of the first parameter of a type, or the end. */
  function FindParameter(ps: seq<Element>, typ: nat): (k: nat)
    ensures k <= |ps|
    ensures k < |ps| ==> ps[k].typ == typ
    ensures forall j | 0 <= j < k :: ps[j].typ != typ
  {
    if ps == [] || ps[0].typ == typ then 0 else 1 + FindParameter(ps[1..], typ)
  }

  /** The first parameter of that type has the same value. */
  predicate HoldsAlready(ps: seq<Element>, p: Element) {
    var k := FindParameter(ps, p.typ);
    k < |ps| && ps[k].value == p.value
  }

  /** Replacing or inserting a trailing element behind the first keeps parameters well formed. */
  lemma ParametersStayWellFormed(ps: seq<Element>, k: nat, p: Element)
    requires WellFormedParameters(ps) && 1 <= k <= |ps| && IsElement(p) && IsTrailing(p)
    ensures WellFormedParameters(ps[..k] + [p] + ps[k..])
    ensures k < |ps| ==> WellFormedParameters(ps[k := p])
  {
    hide IsElement;
    var more := ps[..k] + [p] + ps[k..];
    assert forall j | 1 <= j < |more| :: more[j] == if j < k then ps[j] else if j == k then p else ps[j - 1];
  }

  // ---- the digest in the name ----

  /** The components that are no parameters digest, in order. */
  function WithoutAnyDigest(n: Name): Name {
    if n == [] then []
    else (if IsParametersDigest(n[0]) then [] else [n[0]]) + WithoutAnyDigest(n[1..])
  }

  lemma {:induction false} WithoutAnyAppend(a: Name, b: Name)
    ensures WithoutAnyDigest(a + b) == WithoutAnyDigest(a) + WithoutAnyDigest(b)
  {
    if a == [] {
      assert a + b == b;
    } else {
      assert (a + b)[1..] == a[1..] + b;
      WithoutAnyAppend(a[1..], b);
    }
  }

  lemma {:induction false} NoneToDrop(n: Name)
    requires forall c | c in n :: !IsParametersDigest(c)
    ensures WithoutAnyDigest(n) == n
  {
    if n != [] {
      NoneToDrop(n[1..]);
      assert n == [n[0]] + n[1..];
    }
  }

  /** Around the digest at `k` nothing is lost. */
  lemma DropsOne(n: Name, k: nat)
    requires k < |n| && IsParametersDigest(n[k])
    requires forall j | 0 <= j < |n| && j != k :: !IsParametersDigest(n[j])
    ensures WithoutAnyDigest(n) == n[..k] + n[k + 1..]
  {
    hide WithoutAnyDigest, IsParametersDigest;
    SplitAround(n, k);
    WithoutAnyAppend(n[..k], [n[k]] + n[k + 1..]);
    WithoutAnyAppend([n[k]], n[k + 1..]);
    DropsDigest(n[k]);
    NoneToDrop(n[..k]);
    NoneToDrop(n[k + 1..]);
  }

  lemma SplitAround(n: Name, k: nat)
    requires k < |n|
    ensures n == n[..k] + ([n[k]] + n[k + 1..])
  {
  }

  lemma DropsDigest(c: Component)
    requires IsParametersDigest(c)
    ensures WithoutAnyDigest([c]) == []
  {
    assert [c][1..] == [];
  }

  /** Unsetting the parameters keeps every other component, in order. */
  lemma WithoutDigestKeepsOthers(n: Name)
    requires DigestIndex(n) != -2
    ensures WithoutDigest(n) == WithoutAnyDigest(n)
  {
    hide DigestIndex;
    DigestIndexMeaning(n);
    if DigestIndex(n) == -1 {
      NoneToDrop(n);
    } else {
      DropsOne(n, DigestIndex(n));
    }
  }

  /**
   A new digest goes behind the name, and another takes the place of the old one; all other
   components stay where they are, so taking it out again gives the same as before.
   */
  lemma WithDigestKeepsOthers(n: Name, digest: Digest)
    requires DigestIndex(n) != -2
    ensures var n' := WithDigest(n, digest);
            && DigestIndex(n') != -2
            && (DigestIndex(n) == -1 ==> n < n' && |n'| == |n| + 1 && DigestIndex(n') == |n|)
            && (DigestIndex(n) >= 0 ==> |n'| == |n| && DigestIndex(n') == DigestIndex(n)
                                        && forall j | 0 <= j < |n| && j != DigestIndex(n) :: n'[j] == n[j])
            && WithoutDigest(n') == WithoutDigest(n)
  {
    hide DigestIndex;
    WithDigestHasIt(n, digest);
    var n' := WithDigest(n, digest);
    var k := if DigestIndex(n) == -1 then |n| else DigestIndex(n);
    DigestIndexMeaning(n);
    DigestIndexMeaning(n');
    assert forall j | 0 <= j < |n'| && j != k :: n'[j] == n[j] && !IsParametersDigest(n'[j]);
    assert n'[..k] == n[..k];
    if DigestIndex(n) == -1 {
      assert n[..k] == n && n'[k + 1..] == [];
    } else {
      assert n'[k + 1..] == n[k + 1..];
    }
  }

  // ---- signature elements ----

  /** Where `setSignatureInfo` puts its element: over the old one, else before the signature value. */
  ghost function ParametersWithInfo(ps: seq<Element>, info: Element): seq<Element> {
    var base := if ps == [] then [MakeElement(APPLICATION_PARAMETERS, [])] else ps;
    var k := FindParameter(base, INTEREST_SIGNATURE_INFO);
    var v := FindParameter(base, INTEREST_SIGNATURE_VALUE);
    if k < |base| then base[k := info] else base[..v] + [info] + base[v..]
  }

  ghost function ParametersWithValue(ps: seq<Element>, value: Element): seq<Element> {
    var k := FindParameter(ps, INTEREST_SIGNATURE_INFO);
    var v := FindParameter(ps, INTEREST_SIGNATURE_VALUE);
    if v < |ps| then ps[v := value]
    else if k < |ps| then ps[..k + 1] + [value] + ps[k + 1..]
    else ps
  }

  /** The elements of other types, in order. */
  function OtherThan(ps: seq<Element>, typ: nat): seq<Element> {
    if ps == [] then []
    else (if ps[0].typ == typ then [] else [ps[0]]) + OtherThan(ps[1..], typ)
  }

  lemma {:induction false} OtherThanAppend(a: seq<Element>, b: seq<Element>, typ: nat)
    ensures OtherThan(a + b, typ) == OtherThan(a, typ) + OtherThan(b, typ)
  {
    if a == [] {
      assert a + b == b;
    } else {
      assert (a + b)[1..] == a[1..] + b;
      OtherThanAppend(a[1..], b, typ);
    }
  }

  /** An element of the type put in, or in the place of another of it, changes no other. */
  lemma OtherThanInserted(ps: seq<Element>, k: nat, p: Element)
    requires k <= |ps|
    ensures OtherThan(ps[..k] + [p] + ps[k..], p.typ) == OtherThan(ps, p.typ)
    ensures k < |ps| && ps[k].typ == p.typ ==> OtherThan(ps[k := p], p.typ) == OtherThan(ps, p.typ)
  {
    hide OtherThan;
    assert ps == ps[..k] + ps[k..];
    OtherThanAppend(ps[..k], ps[k..], p.typ);
    OtherThanAppend(ps[..k] + [p], ps[k..], p.typ);
    OtherThanAppend(ps[..k], [p], p.typ);
    OtherThanOne(p);
    if k < |ps| && ps[k].typ == p.typ {
      assert ps[k := p] == ps[..k] + ([p] + ps[k + 1..]);
      assert ps == ps[..k] + ([ps[k]] + ps[k + 1..]);
      OtherThanAppend(ps[..k], [p] + ps[k + 1..], p.typ);
      OtherThanAppend([p], ps[k + 1..], p.typ);
      OtherThanAppend(ps[..k], [ps[k]] + ps[k + 1..], p.typ);
      OtherThanAppend([ps[k]], ps[k + 1..], p.typ);
      OtherThanOne(ps[k]);
    }
  }

  lemma OtherThanOne(p: Element)
    ensures OtherThan([p], p.typ) == []
  {
    assert [p][1..] == [];
  }

  lemma FindParameterIs(ps: seq<Element>, typ: nat, k: nat)
    requires k <= |ps| && (k < |ps| ==> ps[k].typ == typ) && forall j | 0 <= j < k :: ps[j].typ != typ
    ensures FindParameter(ps, typ) == k
  {
    hide FindParameter;
    var j := FindParameter(ps, typ);
  }

  /**
   The signature info is the first of its type then, elements of other types stay as they were, and a
   new one comes directly before the signature value, or last if there is none.
   */
  lemma InfoIsPlaced(ps: seq<Element>, info: Element)
    requires info.typ == INTEREST_SIGNATURE_INFO
    ensures var base := if ps == [] then [MakeElement(APPLICATION_PARAMETERS, [])] else ps;
            var ps' := ParametersWithInfo(ps, info);
            var k := FindParameter(ps', INTEREST_SIGNATURE_INFO);
            && k < |ps'| && ps'[k] == info
            && OtherThan(ps', INTEREST_SIGNATURE_INFO) == OtherThan(base, INTEREST_SIGNATURE_INFO)
            && ((forall p | p in base :: p.typ != INTEREST_SIGNATURE_INFO) ==>
                  && |ps'| == |base| + 1
                  && FindParameter(ps', INTEREST_SIGNATURE_VALUE) == k + 1)
            && ((exists p | p in base :: p.typ == INTEREST_SIGNATURE_INFO) ==> |ps'| == |base|)
  {
    hide OtherThan, Encode, FindParameter;
    var base := if ps == [] then [MakeElement(APPLICATION_PARAMETERS, [])] else ps;
    var ps' := ParametersWithInfo(ps, info);
    var k, v := FindParameter(base, INTEREST_SIGNATURE_INFO), FindParameter(base, INTEREST_SIGNATURE_VALUE);
    if k < |base| {
      OtherThanInserted(base, k, info);
      FindParameterIs(ps', INTEREST_SIGNATURE_INFO, k);
      assert base[k] in base;
    } else {
      OtherThanInserted(base, v, info);
      FindParameterIs(ps', INTEREST_SIGNATURE_INFO, v);
      assert forall j | v < j < |ps'| :: ps'[j] == base[j - 1];
      FindParameterIs(ps', INTEREST_SIGNATURE_VALUE, v + 1);
    }
  }

  /** The same for the signature value, which if new comes directly behind the first signature info. */
  lemma ValueIsPlaced(ps: seq<Element>, value: Element)
    requires value.typ == INTEREST_SIGNATURE_VALUE && FindParameter(ps, INTEREST_SIGNATURE_INFO) < |ps|
    ensures var ps' := ParametersWithValue(ps, value);
            var k := FindParameter(ps', INTEREST_SIGNATURE_VALUE);
            && k < |ps'| && ps'[k] == value
            && OtherThan(ps', INTEREST_SIGNATURE_VALUE) == OtherThan(ps, INTEREST_SIGNATURE_VALUE)
            && ((forall p | p in ps :: p.typ != INTEREST_SIGNATURE_VALUE) ==>
                  |ps'| == |ps| + 1 && k == FindParameter(ps', INTEREST_SIGNATURE_INFO) + 1)
            && ((exists p | p in ps :: p.typ == INTEREST_SIGNATURE_VALUE) ==> |ps'| == |ps|)
  {
    hide OtherThan, FindParameter;
    var ps' := ParametersWithValue(ps, value);
    var k, v := FindParameter(ps, INTEREST_SIGNATURE_INFO), FindParameter(ps, INTEREST_SIGNATURE_VALUE);
    if v < |ps| {
      OtherThanInserted(ps, v, value);
      FindParameterIs(ps', INTEREST_SIGNATURE_VALUE, v);
      assert ps[v] in ps;
    } else {
      OtherThanInserted(ps, k + 1, value);
      FindParameterIs(ps', INTEREST_SIGNATURE_INFO, k);
      FindParameterIs(ps', INTEREST_SIGNATURE_VALUE, k + 1);
    }
  }

  /** What the encoder wrote is read back as one block. */
  lemma WrittenBlock(i: Interest, bytes: Bytes)
    requires |InterestValue(i)| < TWO_64 && bytes == Encode(INTEREST, InterestValue(i)) + []
    ensures FromBuffer(bytes) == Some(MakeElement(INTEREST, InterestValue(i)))
  {
    hide InterestValue, Encode, ReadHead;
    assert bytes == Encode(INTEREST, InterestValue(i));
    MakeElementIsElement(INTEREST, InterestValue(i));
  }

  lemma PresenceIsValidity(sha: Bytes -> Digest, i: Interest)
    requires DigestPresenceOk(i) && (i.parameters != [] ==> DigestValid(sha, i))
    ensures i.name != [] || i.parameters == [] ==> DigestValid(sha, i)
    ensures i.name == [] ==> i.parameters == []
  {
  }

  class InterestObject {
    const sha: Bytes -> Digest
    var name: Name
    var canBePrefix: bool
    var mustBeFresh: bool
    var forwardingHint: seq<Name>
    var nonce: Option<Nonce>
    var lifetime: Milliseconds
    var hopLimit: Option<Byte>
    var parameters: seq<Element>
    var wire: Option<Element>

    ghost function Fields(): Interest
      reads this
    {
      Interest(name, canBePrefix, mustBeFresh, forwardingHint, nonce, lifetime, hopLimit, parameters)
    }

    /**
     Parameters start with ApplicationParameters and are covered by the only parameters digest in
     the name; a cached wire decodes to the current fields.
     */
    ghost predicate Valid()
      reads this
    {
      && EncodableName(name) && EncodableHint(forwardingHint)
      && WellFormedParameters(parameters)
      && DigestIndex(name) != -2
      && (parameters != [] ==> DigestValid(sha, Fields()))
      && (wire.Some? ==> Decode(sha, wire.value) == Success(Fields()))
    }

    constructor (sha: Bytes -> Digest)
      ensures Valid() && Fields() == Bare([]) && this.sha == sha
    {
      this.sha := sha;
      name, canBePrefix, mustBeFresh, forwardingHint := [], false, false, [];
      nonce, lifetime, hopLimit, parameters, wire := None, DEFAULT_INTEREST_LIFETIME, None, [], None;
    }

    /** `addOrReplaceParametersDigestComponent`. */
    method AddOrReplaceDigest()
      requires parameters != [] && DigestIndex(name) != -2
      modifies `name
      ensures name == WithDigest(old(name), sha(Wires(parameters)))
      ensures DigestValid(sha, Fields()) && DigestIndex(name) >= 0
      ensures old(EncodableName(name)) ==> EncodableName(name)
    {
      hide DigestIndex;
      WithDigestHasIt(name, sha(Wires(parameters)));
      name := WithDigest(name, sha(Wires(parameters)));
    }

    method SetName(n: Name) returns (ok: bool)
      requires Valid() && EncodableName(n)
      modifies this
      ensures Valid()
      ensures ok <==> DigestIndex(n) != -2
      ensures !ok ==> Fields() == old(Fields()) && wire == old(wire)
      ensures ok ==> Fields() == old(Fields()).(name :=
                if old(parameters) == [] || n == old(name) then n else WithDigest(n, sha(Wires(old(parameters)))))
    {
      hide DigestIndex, Decode, EncodableName, EncodableHint, WellFormedParameters;
      if DigestIndex(n) == -2 {
        return false;
      }
      if n != name {
        name := n;
        if parameters != [] {
          AddOrReplaceDigest();
        }
        wire := None;
      }
      ok := true;
    }

    method SetCanBePrefix(b: bool)
      requires Valid()
      modifies this
      ensures Valid() && Fields() == old(Fields()).(canBePrefix := b)
    {
      hide DigestIndex, Decode, EncodableName, EncodableHint, WellFormedParameters;
      if b != canBePrefix {
        canBePrefix, wire := b, None;
      }
    }

    method SetMustBeFresh(b: bool)
      requires Valid()
      modifies this
      ensures Valid() && Fields() == old(Fields()).(mustBeFresh := b)
    {
      hide DigestIndex, Decode, EncodableName, EncodableHint, WellFormedParameters;
      if b != mustBeFresh {
        mustBeFresh, wire := b, None;
      }
    }

    method SetForwardingHint(hint: seq<Name>)
      requires Valid() && EncodableHint(hint)
      modifies this
      ensures Valid() && Fields() == old(Fields()).(forwardingHint := hint)
    {
      hide DigestIndex, Decode, EncodableName, EncodableHint, WellFormedParameters;
      forwardingHint, wire := hint, None;
    }

    method SetNonce(n: Option<Nonce>)
      requires Valid()
      modifies this
      ensures Valid() && Fields() == old(Fields()).(nonce := n)
    {
      hide DigestIndex, Decode, EncodableName, EncodableHint, WellFormedParameters;
      if n != nonce {
        nonce, wire := n, None;
      }
    }

    /** `getNonce`; `random` is the value generated if there is none yet. */
    method GetNonce(random: Nonce) returns (n: Nonce)
      requires Valid()
      modifies this
      ensures Valid()
      ensures Fields() == old(Fields()).(nonce := Some(n))
      ensures n == if old(nonce).Some? then old(nonce).value else random
      ensures old(nonce).Some? ==> wire == old(wire)
    {
      hide DigestIndex, Decode, EncodableName, EncodableHint, WellFormedParameters;
      if nonce.None? {
        nonce, wire := Some(random), None;
      }
      n := nonce.value;
    }

    method SetInterestLifetime(l: Milliseconds) returns (ok: bool)
      requires Valid()
      modifies this
      ensures Valid()
      ensures ok <==> l >= 0
      ensures Fields() == if ok then old(Fields()).(lifetime := l) else old(Fields())
    {
      hide DigestIndex, Decode, EncodableName, EncodableHint, WellFormedParameters;
      if l < 0 {
        return false;
      }
      if l != lifetime {
        lifetime, wire := l, None;
      }
      ok := true;
    }

    method SetHopLimit(h: Option<Byte>)
      requires Valid()
      modifies this
      ensures Valid() && Fields() == old(Fields()).(hopLimit := h)
    {
      hide DigestIndex, Decode, EncodableName, EncodableHint, WellFormedParameters;
      if h != hopLimit {
        hopLimit, wire := h, None;
      }
    }

    /** The parameters became `ps`, and the digest in the name follows them. */
    twostate predicate ChangesParameters(ps: seq<Element>)
      reads this
    {
      && old(DigestIndex(name)) != -2
      && Fields() == old(Fields()).(parameters := ps,
                                    name := WithDigest(old(name), sha(Wires(ps))))
    }

    /** `setApplicationParametersInternal`. */
    method SetApplicationParameters(p: Element)
      requires Valid() && IsElement(p) && p.typ == APPLICATION_PARAMETERS
      modifies this
      ensures Valid() && ChangesParameters([p] + if old(parameters) == [] then [] else old(parameters)[1..])
    {
      hide DigestIndex, Decode, EncodableName, EncodableHint, IsElement;
      ghost var was := parameters;
      if parameters == [] {
        parameters := [p];
      } else {
        parameters := parameters[0 := p];
        assert parameters == [p] + was[1..];
      }
      AddOrReplaceDigest();
      wire := None;
    }

    method UnsetApplicationParameters()
      requires Valid()
      modifies this
      ensures Valid()
      ensures old(DigestIndex(name)) != -2
      ensures Fields() == old(Fields()).(parameters := [], name := WithoutDigest(old(name)))
    {
      hide DigestIndex, Decode, EncodableName, EncodableHint, IsElement, WithoutDigest, DigestValid;
      WithoutDigestHasNone(name);
      parameters := [];
      if DigestIndex(name) >= 0 {
        name := WithoutDigest(name);
      }
      wire := None;
    }

    method SetSignatureInfo(info: Element)
      requires Valid() && IsElement(info) && info.typ == INTEREST_SIGNATURE_INFO
      modifies this
      ensures Valid()
      ensures if HoldsAlready(old(parameters), info) then Fields() == old(Fields()) && wire == old(wire)
              else ChangesParameters(ParametersWithInfo(old(parameters), info))
    {
      hide DigestIndex, Decode, EncodableName, EncodableHint, IsElement, Encode;
      if parameters == [] {
        MakeElementIsElement(APPLICATION_PARAMETERS, []);
        parameters := [MakeElement(APPLICATION_PARAMETERS, [])];
      }
      var k := FindParameter(parameters, INTEREST_SIGNATURE_INFO);
      var v := FindParameter(parameters, INTEREST_SIGNATURE_VALUE);
      if k < |parameters| {
        if parameters[k].value == info.value {
          return;
        }
        ParametersStayWellFormed(parameters, k, info);
        parameters := parameters[k := info];
      } else {
        ParametersStayWellFormed(parameters, v, info);
        parameters := parameters[..v] + [info] + parameters[v..];
      }
      AddOrReplaceDigest();
      wire := None;
    }

    /** `setSignatureValueInternal`; there must be a signature info already. */
    method SetSignatureValue(value: Element) returns (ok: bool)
      requires Valid() && IsElement(value) && value.typ == INTEREST_SIGNATURE_VALUE
      modifies this
      ensures Valid()
      ensures ok <==> exists p | p in old(parameters) :: p.typ == INTEREST_SIGNATURE_INFO
      ensures if !ok || HoldsAlready(old(parameters), value) then Fields() == old(Fields()) && wire == old(wire)
              else ChangesParameters(ParametersWithValue(old(parameters), value))
    {
      hide DigestIndex, Decode, EncodableName, EncodableHint, IsElement;
      var k := FindParameter(parameters, INTEREST_SIGNATURE_INFO);
      if k == |parameters| {
        return false;
      }
      ok := true;
      var v := FindParameter(parameters, INTEREST_SIGNATURE_VALUE);
      if v < |parameters| {
        if parameters[v].value == value.value {
          return;
        }
        ParametersStayWellFormed(parameters, v, value);
        parameters := parameters[v := value];
      } else {
        ParametersStayWellFormed(parameters, k + 1, value);
        parameters := parameters[..k + 1] + [value] + parameters[k + 1..];
      }
      AddOrReplaceDigest();
      wire := None;
    }

    /**
     `wireDecode`. On success the object is what was decoded and caches the block. When an element is
     rejected midway, the block is already cached and the fields hold what was read up to there.
     */
    method WireDecode(e: Element) returns (ok: bool)
      modifies this
      ensures ok <==> Decode(sha, e).Success?
      ensures ok ==> Valid() && Decode(sha, e) == Success(Fields()) && wire == Some(e)
      ensures wire == if e.typ == INTEREST then Some(e) else old(wire)
      ensures Fields() == if FieldsLeft(e).Some? then FieldsLeft(e).value else old(Fields())
    {
      hide DigestIndex, EncodableName, EncodableHint, IsElement, Parse, DecodeField, DigestValid, ReadName,
           WellFormedParameters, HintSoFar;
      if e.typ != INTEREST {
        return false;
      }
      wire := Some(e);
      var parsed := Parse(e.value);
      if !parsed.ending.AllRead? || parsed.elements == [] || parsed.elements[0].typ != NAME {
        return false;
      }
      var tempName := ReadName(parsed.elements[0].value);
      if tempName.None? || tempName.value == [] || DigestIndex(tempName.value) == -2 {
        return false;
      }
      var es := parsed.elements[1..];
      var state := State(Bare(tempName.value), 1);
      ghost var start := state;
      var k := 0;
      assert es[0..] == es;
      while k < |es|
        invariant 0 <= k <= |es|
        invariant DecodeFields(start, es) == DecodeFields(state, es[k..])
        invariant FieldsSoFar(start, es) == FieldsSoFar(state, es[k..])
      {
        assert es[k..][1..] == es[k + 1..];
        var next := DecodeField(state, es[k]);
        if next.Failure? {
          var i := state.interest;
          if es[k].typ == FORWARDING_HINT && state.last < 4 {
            i := i.(forwardingHint := i.forwardingHint + HintSoFar(es[k].value));
          }
          Assign(i);
          return false;
        }
        state := next.value;
        k := k + 1;
      }
      Assign(state.interest);
      ok := DigestValid(sha, state.interest);
      if ok {
        DecodeSound(sha, e);
        DigestValidIndex(state.interest);
      }
    }

    /** Sets every field, as the decoder does one by one. */
    method Assign(i: Interest)
      modifies this
      ensures Fields() == i && wire == old(wire)
    {
      name, canBePrefix, mustBeFresh, forwardingHint := i.name, i.canBePrefix, i.mustBeFresh, i.forwardingHint;
      nonce, lifetime, hopLimit, parameters := i.nonce, i.lifetime, i.hopLimit, i.parameters;
    }

    lemma DigestValidIndex(i: Interest)
      requires DigestValid(sha, i)
      ensures DigestIndex(i.name) != -2
    {
    }

    /**
     `wireEncode`; `random` is the nonce generated if there is none yet. It refuses to encode when
     the digest in the name and the parameters do not go together. With an empty name it throws as
     well, but leaves behind a cached wire that no decoder accepts.
     */
    method WireEncode(random: Nonce) returns (ok: bool)
      requires Valid()
      requires |InterestValue(Fields().(nonce := Some(if nonce.Some? then nonce.value else random)))| < TWO_64
      modifies this
      ensures ok <==> old(wire).Some? || (DigestPresenceOk(old(Fields())) && old(name) != [])
      ensures old(wire).Some? ==> Fields() == old(Fields()) && wire == old(wire)
      ensures ok ==> Valid() && wire.Some?
      ensures ok && old(wire).None? ==>
                && Fields() == old(Fields()).(nonce := Some(if old(nonce).Some? then old(nonce).value else random))
                && wire.value.wire == Encode(INTEREST, InterestValue(Fields()))
      ensures !ok && !DigestPresenceOk(old(Fields())) ==> Fields() == old(Fields()) && wire.None?
      ensures !ok && DigestPresenceOk(old(Fields())) ==> wire.Some? && Decode(sha, wire.value).Failure?
    {
      hide DigestIndex, EncodableName, EncodableHint, IsElement, Parse, DigestValid, ReadName,
           WellFormedParameters, Encode, InterestValue, Decode, Overwrite;
      if wire.Some? {
        return true;
      }
      var current := Interest(name, canBePrefix, mustBeFresh, forwardingHint, nonce, lifetime, hopLimit, parameters);
      if !DigestPresenceOk(current) {
        return false;
      }
      var _ := GetNonce(random);
      var i := Interest(name, canBePrefix, mustBeFresh, forwardingHint, nonce, lifetime, hopLimit, parameters);
      var encoder := new Encoder(EncodedSize(INTEREST, |InterestValue(i)|), 0);
      var length := WriteInterest(encoder, i);
      var block := FromBuffer(encoder.buffer[encoder.begin..encoder.end]);
      WrittenBlock(i, encoder.Contents());
      PresenceIsValidity(sha, i);
      if name != [] {
        InterestRoundTrip(sha, i);
      } else {
        EmptyNameRejected(sha, i);
      }
      ok := WireDecode(block.value);
    }
  }
}
