/** Data packets and the part of an Interest that selects Data. */
module Matching {
  import opened Names

  /** A signed Data packet; `digest` is the SHA-256 of its wire encoding. */
  datatype Data = Data(name: Name, digest: Digest, freshnessPeriod: int)

  /** `Data::getFullName`: the name with the implicit digest appended. */
  function FullName(d: Data): Name {
    d.name + [Component(IMPLICIT_SHA256_DIGEST, d.digest)]
  }

  /** The fields of an Interest that decide which Data satisfies it. */
  datatype Query = Query(name: Name, canBePrefix: bool, mustBeFresh: bool)

  /** `Component::isImplicitSha256Digest`. */
  predicate IsImplicitDigest(c: Component) {
    c.typ == IMPLICIT_SHA256_DIGEST && |c.value| == DIGEST_SIZE
  }

  predicate EndsInDigest(name: Name) {
    name != [] && IsImplicitDigest(name[|name| - 1])
  }

  /** `Interest::matchesData`. */
  predicate MatchesData(q: Query, d: Data) {
    && (if |q.name| == |d.name| + 1 then
          IsImplicitDigest(q.name[|q.name| - 1]) && q.name == FullName(d)
        else if q.canBePrefix then q.name <= d.name
        else q.name == d.name)
    && !(q.mustBeFresh && d.freshnessPeriod <= 0)
  }

  /** Data is only ever selected by a prefix of its full name. */
  lemma MatchesDataPrefix(q: Query, d: Data)
    requires MatchesData(q, d)
    ensures q.name == FullName(d) || q.name <= d.name
    ensures q.name <= FullName(d)
  {
  }

  /** The freshness that can be told from the packet alone. */
  predicate MayBeFresh(q: Query, d: Data) {
    q.mustBeFresh ==> d.freshnessPeriod > 0
  }

  /** The packet is named in full, has the Interest's own name or, only with CanBePrefix, one that extends it. */
  predicate AsksFor(q: Query, d: Data) {
    q.name == FullName(d) || q.name == d.name || (q.canBePrefix && q.name <= d.name)
  }

  /** Which Data an Interest selects. */
  lemma MatchesDataIff(q: Query, d: Data)
    ensures MatchesData(q, d) <==> MayBeFresh(q, d) && AsksFor(q, d)
  {
    if q.name == FullName(d) {
      assert q.name[|q.name| - 1] == Component(IMPLICIT_SHA256_DIGEST, d.digest);
    }
  }

  /** CanBePrefix only adds packets: those with longer names. */
  lemma CanBePrefixAdds(q: Query, d: Data)
    ensures MatchesData(q.(canBePrefix := false), d) ==> MatchesData(q.(canBePrefix := true), d)
    ensures MatchesData(q.(canBePrefix := true), d) && !MatchesData(q.(canBePrefix := false), d) <==>
            MayBeFresh(q, d) && q.name < d.name
  {
    MatchesDataIff(q.(canBePrefix := false), d);
    MatchesDataIff(q.(canBePrefix := true), d);
    FullNameExtends(d);
  }

  /** Without CanBePrefix the length of the Data name decides, and packets of equally long names share it. */
  lemma ExactAnswers(q: Query, d: Data, e: Data)
    requires !q.canBePrefix && MatchesData(q, d) && MatchesData(q, e)
    ensures |d.name| == |q.name| || q.name == FullName(d)
    ensures |d.name| == |e.name| ==> d.name == e.name
  {
    MatchesDataIff(q, d);
    MatchesDataIff(q, e);
    FullNameExtends(d);
    FullNameExtends(e);
  }

  /** The full name is the name and one more component, which tells packets of one name apart. */
  lemma FullNameExtends(d: Data)
    ensures d.name < FullName(d) && |FullName(d)| == |d.name| + 1 && EndsInDigest(FullName(d))
    ensures FullName(d)[..|d.name|] == d.name
    ensures forall e: Data :: FullName(e) == FullName(d) <==> e.name == d.name && e.digest == d.digest
  {
    forall e: Data | FullName(e) == FullName(d)
      ensures e.name == d.name && e.digest == d.digest
    {
      assert FullName(e)[..|e.name|] == e.name && FullName(d)[..|d.name|] == d.name;
      assert FullName(e)[|e.name|].value == e.digest && FullName(d)[|d.name|].value == d.digest;
    }
  }
}
