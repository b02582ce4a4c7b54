/** The four maps with which a forwarder translates PIT tokens between its two sides. */
module TokenTables {
  import opened Wrappers
  import opened Tlv
  import opened Names

  datatype Table = Table(nameToToken: map<Name, nat>, nameToPrev: map<Name, nat>,
                         tokenToName: map<nat, Name>, prevToName: map<nat, Name>)

  const EMPTY := Table(map[], map[], map[], map[])

  /** Zero is never a token. */
  const RESERVED: set<nat> := {0}

  /** What `generateToken` looks for. */
  predicate IsNewToken(t: Table, token: nat) {
    token !in RESERVED && token !in t.tokenToName && token < TWO_32
  }

  /** The first usable word among the random words the loop sees; `None` when it has to draw more. */
  function FirstNew(t: Table, draws: seq<nat>): (r: Option<nat>)
    ensures r.None? <==> forall w | w in draws :: !IsNewToken(t, w)
    ensures r.Some? ==> r.value in draws && IsNewToken(t, r.value)
  {
    if draws == [] then None
    else if IsNewToken(t, draws[0]) then Some(draws[0])
    else FirstNew(t, draws[1..])
  }

  /** Words are looked at in the order they are drawn. */
  lemma {:induction false} FirstNewIsFirst(t: Table, draws: seq<nat>, i: nat)
    requires i < |draws| && IsNewToken(t, draws[i]) && forall j | 0 <= j < i :: !IsNewToken(t, draws[j])
    ensures FirstNew(t, draws) == Some(draws[i])
  {
    hide IsNewToken;
    if i > 0 {
      assert draws[1..][i - 1] == draws[i];
      FirstNewIsFirst(t, draws[1..], i - 1);
    }
  }

  function Created(t: Table, name: Name, prev: nat, token: nat): Table {
    Table(t.nameToToken[name := token], t.nameToPrev[name := prev],
          t.tokenToName[token := name], t.prevToName[prev := name])
  }

  /**
   Names and own tokens correspond one to one, zero is not among the tokens, every name has a
   previous token, and a previous token leads to the last name that came with it.
   */
  predicate TableOk(t: Table) {
    && t.nameToToken.Keys == t.nameToPrev.Keys
    && NamesBack(t.nameToToken, t.tokenToName)
    && KeysBack(t.tokenToName, t.nameToToken)
    && (forall k | k in t.tokenToName :: 0 < k < TWO_32)
    && KeysBack(t.prevToName, t.nameToPrev)
    && (forall n | n in t.nameToPrev :: t.nameToPrev[n] in t.prevToName)
  }

  predicate NamesBack(f: map<Name, nat>, g: map<nat, Name>) {
    forall n | n in f :: f[n] in g && g[f[n]] == n
  }

  predicate KeysBack(g: map<nat, Name>, f: map<Name, nat>) {
    forall k | k in g :: g[k] in f && f[g[k]] == k
  }

  /** Every translation of `t` is still there in `t'`. */
  predicate Extends(t: Table, t': Table) {
    && (forall n | n in t.nameToToken :: n in t'.nameToToken && t'.nameToToken[n] == t.nameToToken[n])
    && (forall n | n in t.nameToPrev :: n in t'.nameToPrev && t'.nameToPrev[n] == t.nameToPrev[n])
    && (forall k | k in t.tokenToName :: k in t'.tokenToName && t'.tokenToName[k] == t.tokenToName[k])
  }

  lemma CreatedOk(t: Table, name: Name, prev: nat, token: nat)
    requires TableOk(t) && name !in t.nameToToken && IsNewToken(t, token)
    ensures TableOk(Created(t, name, prev, token)) && Extends(t, Created(t, name, prev, token))
  {
    hide NamesBack, KeysBack;
    NamesBackCreated(t.nameToToken, t.tokenToName, name, token);
    KeysBackCreated(t.tokenToName, t.nameToToken, name, token);
    KeysBackCreated(t.prevToName, t.nameToPrev, name, prev);
  }

  lemma NamesBackCreated(f: map<Name, nat>, g: map<nat, Name>, name: Name, k: nat)
    requires NamesBack(f, g) && k !in g
    ensures NamesBack(f[name := k], g[k := name])
  {
  }

  lemma KeysBackCreated(g: map<nat, Name>, f: map<Name, nat>, name: Name, k: nat)
    requires KeysBack(g, f) && name !in f
    ensures KeysBack(g[k := name], f[name := k])
  {
  }

  /** Translating a name to its token and back, either way, is the identity. */
  lemma TokenBijection(t: Table, n: Name, m: Name)
    requires TableOk(t) && n in t.nameToToken && m in t.nameToToken
    ensures t.nameToToken[n] == t.nameToToken[m] <==> n == m
  {
    hide KeysBack;
    assert t.tokenToName[t.nameToToken[n]] == n;
  }

  class PitAssist {
    var nameToToken: map<Name, nat>
    var nameToPrev: map<Name, nat>
    var tokenToName: map<nat, Name>
    var prevToName: map<nat, Name>

    ghost function Now(): Table
      reads this
    {
      Table(nameToToken, nameToPrev, tokenToName, prevToName)
    }

    constructor ()
      ensures Now() == EMPTY && TableOk(Now())
    {
      nameToToken, nameToPrev, tokenToName, prevToName := map[], map[], map[], map[];
    }

    /** Draws words until one is neither reserved nor in use. */
    method GenerateToken(draws: seq<nat>) returns (token: Option<nat>)
      requires forall w | w in draws :: w < TWO_32
      ensures token == FirstNew(Now(), draws)
    {
      for i := 0 to |draws|
        invariant FirstNew(Now(), draws[i..]) == FirstNew(Now(), draws)
      {
        assert draws[i..][1..] == draws[i + 1..];
        assert draws[i] in draws;
        if draws[i] in RESERVED {
          continue;
        }
        if draws[i] !in tokenToName {
          return Some(draws[i]);
        }
      }
      token := None;
    }

    /** Inserts a name with a new token; the translations there were are kept if the name is new. */
    method CreateName(name: Name, prev: nat, draws: seq<nat>) returns (token: Option<nat>)
      requires forall w | w in draws :: w < TWO_32
      modifies this
      ensures token == FirstNew(old(Now()), draws)
      ensures Now() == if token.Some? then Created(old(Now()), name, prev, token.value) else old(Now())
      ensures old(TableOk(Now())) && name !in old(nameToToken) ==> TableOk(Now()) && Extends(old(Now()), Now())
    {
      hide TableOk, Extends;
      token := GenerateToken(draws);
      if token.None? {
        ExtendsSelf(Now());
        return;
      }
      if TableOk(Now()) && name !in nameToToken {
        CreatedOk(Now(), name, prev, token.value);
      }
      nameToToken := nameToToken[name := token.value];
      tokenToName := tokenToName[token.value := name];
      nameToPrev := nameToPrev[name := prev];
      prevToName := prevToName[prev := name];
    }
  }

  lemma ExtendsSelf(t: Table)
    ensures Extends(t, t)
  {
  }
}
