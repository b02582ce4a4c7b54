/** Nack severity, and the record a Face keeps for each pending Interest. */
module PendingInterests {
  import opened Wrappers
  import opened Tlv
  import opened Matching

  // ---- Nack reasons ----

  const NONE := 0
  const CONGESTION := 50
  const DUPLICATE := 100
  const NO_ROUTE := 150

  /** `reason` is the number on the wire, `query` the nacked Interest. */
  datatype Nack = Nack(query: Query, reason: nat)

  /** `NackHeader::getReason`: unknown codes read as none. */
  function Reason(n: Nack): nat {
    if n.reason in {CONGESTION, DUPLICATE, NO_ROUTE} then n.reason else NONE
  }

  predicate IsLessSevere(x: nat, y: nat) {
    if x == NONE then false
    else if y == NONE then true
    else x < y
  }

  predicate LessSevere(a: Nack, b: Nack) {
    IsLessSevere(Reason(a), Reason(b))
  }

  /** A strict total order on reasons: the lower number is less severe, and `NONE` is the most severe. */
  lemma SeverityIsStrictOrder(x: nat, y: nat, z: nat)
    ensures x != NONE && y != NONE ==> (IsLessSevere(x, y) <==> x < y)
    ensures IsLessSevere(CONGESTION, DUPLICATE) && IsLessSevere(DUPLICATE, NO_ROUTE) && IsLessSevere(NO_ROUTE, NONE)
    ensures !IsLessSevere(x, x)
    ensures IsLessSevere(x, y) && IsLessSevere(y, z) ==> IsLessSevere(x, z)
    ensures x != y ==> (IsLessSevere(x, y) <==> !IsLessSevere(y, x))
    ensures x != NONE <==> IsLessSevere(x, NONE)
  {
  }

  /** One Nack is less severe if it carries one of the three known codes, and the other a higher one or none of them. */
  lemma LessSevereIff(a: Nack, b: Nack)
    ensures LessSevere(a, b) <==>
              a.reason in {50, 100, 150} && (b.reason in {50, 100, 150} ==> a.reason < b.reason)
  {
  }

  /** `ns[b]` is less severe than every earlier Nack, and no later one is less severe. */
  predicate EarliestLeastSevere(ns: seq<Nack>, b: nat) {
    && b < |ns|
    && (forall i | 0 <= i < b :: LessSevere(ns[b], ns[i]))
    && (forall i | b < i < |ns| :: !LessSevere(ns[i], ns[b]))
  }

  ghost predicate IsEarliestLeastSevere(ns: seq<Nack>, n: Nack) {
    exists b: nat | b < |ns| :: EarliestLeastSevere(ns, b) && ns[b] == n
  }

  /** That names one Nack of the list. */
  lemma EarliestLeastSevereUnique(ns: seq<Nack>, m: Nack, n: Nack)
    requires IsEarliestLeastSevere(ns, m) && IsEarliestLeastSevere(ns, n)
    ensures m == n
  {
    hide LessSevere;
    var a: nat :| a < |ns| && EarliestLeastSevere(ns, a) && ns[a] == m;
    var b: nat :| b < |ns| && EarliestLeastSevere(ns, b) && ns[b] == n;
    assert a == b;
  }

  // ---- records ----

  datatype Origin = App | Forwarder

  datatype Outcome = OnData | OnNack | OnTimeout

  /**
   `token` is the PIT token on the Interest. `nNotNacked` and `least` are the record's counters;
   `forwarded` and `nacks` are history: how many destinations the Interest went to, and the Nacks
   that came back.
   */
  datatype Pending = Pending(id: nat, origin: Origin, query: Query, token: Option<Bytes>,
                             callbacks: set<Outcome>,
                             nNotNacked: int, least: Option<Nack>,
                             forwarded: nat, nacks: seq<Nack>)

  function NewPending(id: nat, origin: Origin, query: Query, token: Option<Bytes>, callbacks: set<Outcome>): Pending {
    Pending(id, origin, query, token, callbacks, 0, None, 0, [])
  }

  function RecordForwarding(p: Pending): Pending {
    p.(nNotNacked := p.nNotNacked + 1, forwarded := p.forwarded + 1)
  }

  /** The updated record, and the Nack to pass on once every destination has nacked. */
  function RecordNack(p: Pending, n: Nack): (Pending, Option<Nack>) {
    var left := p.nNotNacked - 1;
    var least := if p.least.None? || LessSevere(n, p.least.value) then Some(n) else p.least;
    (p.(nNotNacked := left, least := least, nacks := p.nacks + [n]),
     if left > 0 then None else least)
  }

  /** The counters agree with the history. */
  ghost predicate Tracked(p: Pending) {
    && p.nNotNacked == p.forwarded - |p.nacks|
    && (p.least.None? <==> p.nacks == [])
    && (p.least.Some? ==> IsEarliestLeastSevere(p.nacks, p.least.value))
  }

  /** Fewer Nacks than destinations. */
  predicate Awaiting(p: Pending) {
    |p.nacks| < p.forwarded
  }

  lemma ForwardingTracked(p: Pending)
    requires Tracked(p)
    ensures Tracked(RecordForwarding(p))
    ensures Awaiting(p) || |p.nacks| == p.forwarded ==> Awaiting(RecordForwarding(p))
  {
  }

  /**
   While other destinations remain, a Nack is kept back; the last one releases the earliest of the
   least severe Nacks received.
   */
  lemma NackReleases(p: Pending, n: Nack)
    requires Tracked(p)
    ensures var (p', out) := RecordNack(p, n);
            && Tracked(p')
            && (|p'.nacks| < p.forwarded ==> out.None? && Awaiting(p'))
            && (|p'.nacks| >= p.forwarded ==> out.Some?)
            && (out.Some? ==> IsEarliestLeastSevere(p.nacks + [n], out.value))
  {
    hide LessSevere;
    var ns := p.nacks + [n];
    if p.least.None? {
      assert ns == [n];
      assert EarliestLeastSevere(ns, 0) && ns[0] == n;
    } else {
      var b: nat :| b < |p.nacks| && EarliestLeastSevere(p.nacks, b) && p.nacks[b] == p.least.value;
      if LessSevere(n, p.least.value) {
        LessThanAll(p.nacks, b, n);
        assert EarliestLeastSevere(ns, |p.nacks|) && ns[|p.nacks|] == n;
      } else {
        assert EarliestLeastSevere(ns, b) && ns[b] == p.least.value;
      }
    }
  }

  lemma LessThanAll(ns: seq<Nack>, b: nat, n: Nack)
    requires EarliestLeastSevere(ns, b) && LessSevere(n, ns[b])
    ensures forall i | 0 <= i < |ns| :: LessSevere(n, ns[i])
  {
  }

  function RecordNacks(p: Pending, ns: seq<Nack>): Pending
    decreases |ns|
  {
    if ns == [] then p else RecordNacks(RecordNack(p, ns[0]).0, ns[1..])
  }

  /**
   A record forwarded to k destinations: the first k - 1 Nacks release nothing, the k-th releases
   the earliest least severe of all k, and the counter never goes below zero on the way.
   */
  lemma KthNackReleases(p: Pending, ns: seq<Nack>, i: nat)
    requires Tracked(p) && p.nacks == [] && |ns| == p.forwarded && i < |ns|
    ensures var (p', out) := RecordNack(RecordNacks(p, ns[..i]), ns[i]);
            && p'.nNotNacked == |ns| - i - 1
            && (i < |ns| - 1 ==> out.None?)
            && (i == |ns| - 1 ==> out.Some? && IsEarliestLeastSevere(ns, out.value))
  {
    hide RecordNack, RecordNacks, IsEarliestLeastSevere;
    NacksTracked(p, ns[..i]);
    var q := RecordNacks(p, ns[..i]);
    NackReleases(q, ns[i]);
    NackCounts(q, ns[i]);
    assert q.nacks == ns[..i];
    assert ns[..i] + [ns[i]] == ns[..i + 1];
    assert i == |ns| - 1 ==> ns[..i + 1] == ns;
  }

  lemma NackCounts(p: Pending, n: Nack)
    requires Tracked(p)
    ensures var p' := RecordNack(p, n).0;
            && p'.nNotNacked == p.forwarded - |p.nacks| - 1
            && p'.nacks == p.nacks + [n] && p'.forwarded == p.forwarded
  {
  }

  lemma {:induction false} NacksTracked(p: Pending, ns: seq<Nack>)
    requires Tracked(p)
    ensures Tracked(RecordNacks(p, ns))
    ensures RecordNacks(p, ns).nacks == p.nacks + ns
    ensures RecordNacks(p, ns).forwarded == p.forwarded
    decreases |ns|
  {
    hide RecordNack, Tracked;
    if ns != [] {
      NackReleases(p, ns[0]);
      NackCounts(p, ns[0]);
      NacksTracked(RecordNack(p, ns[0]).0, ns[1..]);
      assert p.nacks + [ns[0]] + ns[1..] == p.nacks + ns;
    }
  }
}
