/**
 The pending-Interest side of a Face as a state machine: calls from the application post tasks,
 tasks run in the order they were posted, and packets and timeouts arrive in between.
 */
module FaceRuns {
  import opened Wrappers
  import opened Tlv
  import opened Names
  import opened Matching
  import opened PendingInterests
  import opened ReflexiveNames

  const MAX_NDN_PACKET_SIZE := 8800

  datatype Filter = Filter(id: nat, prefix: Name, allowsLoopback: bool)

  /** An Interest as `expressInterest` was given it; the token is its PIT token tag. */
  datatype Request = Request(query: Query, token: Option<Bytes>, callbacks: set<Outcome>)

  /** `size` is the length of the encoded packet that will be sent. */
  datatype Task =
    | Express(id: nat, request: Request, size: nat)
    | RemovePending(id: nat)
    | RemoveAll
    | PutData(data: Data, size: nat)
    | PutNack(nack: Nack, size: nat)
    | SetFilter(filter: Filter)
    | UnsetFilter(id: nat)
    | Shutdown

  datatype Output =
    | DataCallback(id: nat, data: Data)
    | NackCallback(id: nat, nack: Nack)
    | TimeoutCallback(id: nat)
    | InterestCallback(filter: nat, query: Query, token: Option<Bytes>)
    | SentInterest(id: nat, query: Query, token: Option<Bytes>)
    | SentData(data: Data)
    | SentNack(nack: Nack)

  /**
   `expressed` and `removed` are history: the Interest behind every identifier handed to the
   application, and the identifiers taken out of the table without an answer.
   */
  datatype State = State(pending: seq<Pending>, lastId: nat,
                         filters: seq<Filter>, lastFilterId: nat,
                         tasks: seq<Task>, log: seq<Output>,
                         expressed: map<nat, Request>, removed: set<nat>)

  /**
   `RunTask` runs the oldest task; `shutsDown` says whether an exception it throws leaves through
   `processEvents`, which shuts the Face down, or through an event loop of the application.
   `Register` is the success of a prefix registration, which sets a filter at once.
   */
  datatype Event =
    | CallExpress(request: Request, size: nat)
    | CallCancel(id: nat)
    | CallRemoveAll
    | CallPutData(data: Data, size: nat)
    | CallPutNack(nack: Nack, size: nat)
    | CallSetFilter(prefix: Name, allowsLoopback: bool)
    | CallUnsetFilter(id: nat)
    | CallShutdown
    | RunTask(shutsDown: bool)
    | Register(prefix: Name, allowsLoopback: bool)
    | ReceiveInterest(query: Query, token: Option<Bytes>)
    | ReceiveData(data: Data)
    | ReceiveNack(nack: Nack)
    | Timeout(id: nat)

  const INITIAL := State([], 0, [], 0, [], [], map[], {})

  // ---- operations on the table ----

  /** `Interest::matchesInterest` compares exactly the three fields of a query. */
  predicate MatchesInterest(a: Query, b: Query) {
    a.name == b.name && a.canBePrefix == b.canBePrefix && a.mustBeFresh == b.mustBeFresh
  }

  function Put(ps: seq<Pending>, p: Pending): seq<Pending> {
    if ps == [] || p.id < ps[0].id then [p] + ps else [ps[0]] + Put(ps[1..], p)
  }

  function Without(ps: seq<Pending>, id: nat): seq<Pending> {
    if ps == [] then []
    else (if ps[0].id == id then [] else [ps[0]]) + Without(ps[1..], id)
  }

  function Unsatisfied(ps: seq<Pending>, d: Data): seq<Pending> {
    if ps == [] then []
    else (if MatchesData(ps[0].query, d) then [] else [ps[0]]) + Unsatisfied(ps[1..], d)
  }

  /** The callback, if the record belongs to the application and has one. */
  function Notify(p: Pending, on: Outcome, o: Output): seq<Output> {
    if p.origin.App? && on in p.callbacks then [o] else []
  }

  function DataCallbacks(ps: seq<Pending>, d: Data): seq<Output> {
    if ps == [] then []
    else (if MatchesData(ps[0].query, d) then Notify(ps[0], OnData, DataCallback(ps[0].id, d)) else [])
         + DataCallbacks(ps[1..], d)
  }

  /** Data from the application goes out if the forwarder asked for it or nobody did. */
  predicate ShouldSendData(ps: seq<Pending>, d: Data) {
    || (exists p | p in ps :: MatchesData(p.query, d) && p.origin.Forwarder?)
    || !(exists p | p in ps :: MatchesData(p.query, d) && p.origin.App?)
  }

  /** A record after a Nack: unchanged if it is for another Interest, gone if released. */
  function NackOne(p: Pending, n: Nack): (seq<Pending>, Option<Nack>) {
    if !MatchesInterest(n.query, p.query) then ([p], None)
    else
      var (p', out) := RecordNack(p, n);
      (if out.None? then [p'] else [], out)
  }

  function AfterNack(ps: seq<Pending>, n: Nack): seq<Pending> {
    if ps == [] then [] else NackOne(ps[0], n).0 + AfterNack(ps[1..], n)
  }

  function NackCallbacks(ps: seq<Pending>, n: Nack): seq<Output> {
    if ps == [] then []
    else
      var out := NackOne(ps[0], n).1;
      (if out.Some? then Notify(ps[0], OnNack, NackCallback(ps[0].id, out.value)) else [])
      + NackCallbacks(ps[1..], n)
  }

  /** The Nack for the forwarder: from the last released record that came from it. */
  function OutNack(ps: seq<Pending>, n: Nack): Option<Nack> {
    if ps == [] then None
    else
      var rest := OutNack(ps[1..], n);
      if rest.Some? then rest
      else if ps[0].origin.Forwarder? then NackOne(ps[0], n).1
      else None
  }

  predicate FilterMatches(f: Filter, p: Pending) {
    (p.origin.Forwarder? || f.allowsLoopback) && Matches(f.prefix, p.query.name)
  }

  function Dispatched(fs: seq<Filter>, p: Pending): Pending
    decreases |fs|
  {
    if fs == [] then p
    else Dispatched(fs[1..], if FilterMatches(fs[0], p) then RecordForwarding(p) else p)
  }

  function DispatchLog(fs: seq<Filter>, p: Pending): seq<Output> {
    if fs == [] then []
    else (if FilterMatches(fs[0], p) then [InterestCallback(fs[0].id, p.query, p.token)] else [])
         + DispatchLog(fs[1..], p)
  }

  function PutFilter(fs: seq<Filter>, f: Filter): seq<Filter> {
    if fs == [] || f.id < fs[0].id then [f] + fs else [fs[0]] + PutFilter(fs[1..], f)
  }

  function WithoutFilter(fs: seq<Filter>, id: nat): seq<Filter> {
    if fs == [] then []
    else (if fs[0].id == id then [] else [fs[0]]) + WithoutFilter(fs[1..], id)
  }

  // ---- steps ----

  function Enter(s: State, p: Pending, sent: seq<Output>): State {
    s.(pending := Put(s.pending, Dispatched(s.filters, p)),
       log := s.log + sent + DispatchLog(s.filters, p))
  }

  function Satisfy(s: State, d: Data): State {
    s.(pending := Unsatisfied(s.pending, d), log := s.log + DataCallbacks(s.pending, d))
  }

  function NackRecords(s: State, n: Nack): State {
    s.(pending := AfterNack(s.pending, n), log := s.log + NackCallbacks(s.pending, n))
  }

  /** Takes every record out of the table. */
  function Cleared(s: State): State {
    s.(pending := [], removed := s.removed + Ids(s.pending))
  }

  /** An oversized packet throws. */
  function Send(s: State, o: Output, size: nat, shutsDown: bool): State {
    if size <= MAX_NDN_PACKET_SIZE then s.(log := s.log + [o])
    else if shutsDown then Cleared(s)
    else s
  }

  function NewRecord(id: nat, r: Request): Pending {
    RecordForwarding(NewPending(id, App, r.query, r.token, r.callbacks))
  }

  /** The record is in the table before an oversized Interest throws. */
  function RunExpress(s: State, id: nat, r: Request, size: nat, shutsDown: bool): State {
    if size <= MAX_NDN_PACKET_SIZE then Enter(s, NewRecord(id, r), [SentInterest(id, r.query, r.token)])
    else
      var s' := s.(pending := Put(s.pending, NewRecord(id, r)));
      if shutsDown then Cleared(s') else s'
  }

  function Perform(s: State, t: Task, shutsDown: bool): State {
    match t
    case Express(id, r, size) => RunExpress(s, id, r, size, shutsDown)
    case RemovePending(id) =>
      s.(pending := Without(s.pending, id), removed := s.removed + Ids(s.pending) * {id})
    case RemoveAll => Cleared(s)
    case PutData(d, size) =>
      var s' := Satisfy(s, d);
      if ShouldSendData(s.pending, d) then Send(s', SentData(d), size, shutsDown) else s'
    case PutNack(n, size) =>
      var s' := NackRecords(s, n);
      var out := OutNack(s.pending, n);
      if out.Some? then Send(s', SentNack(out.value), size, shutsDown) else s'
    case SetFilter(f) => s.(filters := PutFilter(s.filters, f))
    case UnsetFilter(id) => s.(filters := WithoutFilter(s.filters, id))
    case Shutdown => Cleared(s)
  }

  function Expire(s: State, id: nat): State {
    if exists p | p in s.pending :: p.id == id then
      var p := RecordOf(s.pending, id);
      s.(pending := Without(s.pending, id), log := s.log + Notify(p, OnTimeout, TimeoutCallback(id)))
    else s
  }

  function RecordOf(ps: seq<Pending>, id: nat): (p: Pending)
    requires exists p | p in ps :: p.id == id
    ensures p in ps && p.id == id
  {
    if ps[0].id == id then ps[0] else RecordOf(ps[1..], id)
  }

  function Post(s: State, t: Task): State {
    s.(tasks := s.tasks + [t])
  }

  /** An event that cannot happen in a state (no task, no such record, no such handle) changes nothing. */
  function Step(s: State, e: Event): State {
    match e
    case CallExpress(r, size) =>
      var id := s.lastId + 1;
      Post(s, Express(id, r, size)).(lastId := id, expressed := s.expressed[id := r])
    case CallCancel(id) => if id in s.expressed then Post(s, RemovePending(id)) else s
    case CallRemoveAll => Post(s, RemoveAll)
    case CallPutData(d, size) => Post(s, PutData(d, size))
    case CallPutNack(n, size) => Post(s, PutNack(n, size))
    case CallSetFilter(prefix, loopback) =>
      var id := s.lastFilterId + 1;
      Post(s, SetFilter(Filter(id, prefix, loopback))).(lastFilterId := id)
    case CallUnsetFilter(id) => Post(s, UnsetFilter(id))
    case CallShutdown => Post(s, Shutdown)
    case RunTask(shutsDown) =>
      if s.tasks == [] then s else Perform(s.(tasks := s.tasks[1..]), s.tasks[0], shutsDown)
    case Register(prefix, loopback) =>
      var id := s.lastFilterId + 1;
      s.(filters := PutFilter(s.filters, Filter(id, prefix, loopback)), lastFilterId := id)
    case ReceiveInterest(q, token) =>
      var id := s.lastId + 1;
      Enter(s.(lastId := id), NewPending(id, Forwarder, q, token, {}), [])
    case ReceiveData(d) => Satisfy(s, d)
    case ReceiveNack(n) => NackRecords(s, n)
    case Timeout(id) => Expire(s, id)
  }

  function Run(s: State, es: seq<Event>): State {
    if es == [] then s else Step(Run(s, es[..|es| - 1]), es[|es| - 1])
  }

  // ---- the invariant ----

  function Ids(ps: seq<Pending>): set<nat> {
    set p | p in ps :: p.id
  }

  ghost function Queued(ts: seq<Task>): set<nat> {
    set t | t in ts && t.Express? :: t.id
  }

  predicate Ascending(ps: seq<Pending>) {
    ps == [] || ((forall p | p in ps[1..] :: ps[0].id < p.id) && Ascending(ps[1..]))
  }

  /** Zero for outputs that do not answer an expressed Interest. */
  function CallbackId(o: Output): nat {
    match o
    case DataCallback(id, _) => id
    case NackCallback(id, _) => id
    case TimeoutCallback(id) => id
    case _ => 0
  }

  /** No identifier is called back twice. */
  predicate Distinct(log: seq<Output>) {
    forall i, j | 0 <= i < j < |log| && CallbackId(log[i]) != 0 :: CallbackId(log[i]) != CallbackId(log[j])
  }

  /** A callback is one that the expressed Interest has, and what is sent is that Interest with its token. */
  predicate Answers(o: Output, expressed: map<nat, Request>) {
    match o
    case DataCallback(id, d) =>
      id in expressed && OnData in expressed[id].callbacks && MatchesData(expressed[id].query, d)
    case NackCallback(id, n) =>
      id in expressed && OnNack in expressed[id].callbacks && MatchesInterest(n.query, expressed[id].query)
    case TimeoutCallback(id) => id in expressed && OnTimeout in expressed[id].callbacks
    case SentInterest(id, q, token) =>
      id in expressed && q == expressed[id].query && token == expressed[id].token
    case _ => true
  }

  ghost predicate RecordOk(p: Pending, expressed: map<nat, Request>) {
    && Tracked(p)
    && (forall n | n in p.nacks :: MatchesInterest(n.query, p.query))
    && (p.origin.App? <==> p.id in expressed)
    && (p.origin.App? ==> expressed[p.id] == Request(p.query, p.token, p.callbacks))
    && (Awaiting(p) || (p.origin.Forwarder? && p.forwarded == 0 && p.nacks == []))
  }

  ghost predicate TableOk(ps: seq<Pending>, lastId: nat, expressed: map<nat, Request>) {
    && Ascending(ps)
    && (forall p | p in ps :: 0 < p.id <= lastId && RecordOk(p, expressed))
  }

  /** Each queued Interest is posted once, and never behind a task that removes it. */
  ghost predicate QueueOk(ts: seq<Task>, ids: set<nat>, lastId: nat, expressed: map<nat, Request>) {
    && (forall t | t in ts && t.Express? ::
          0 < t.id <= lastId && t.id !in ids && t.id in expressed && expressed[t.id] == t.request)
    && (forall i, j | 0 <= i < j < |ts| && ts[i].Express? && ts[j].Express? :: ts[i].id != ts[j].id)
    && (forall i, j | 0 <= i < j < |ts| && ts[i].RemovePending? && ts[j].Express? :: ts[i].id != ts[j].id)
    && (forall t | t in ts && t.RemovePending? :: t.id in expressed)
  }

  ghost predicate LogOk(log: seq<Output>, live: set<nat>, lastId: nat, expressed: map<nat, Request>) {
    && Distinct(log)
    && (forall o | o in log :: CallbackId(o) <= lastId && CallbackId(o) !in live && Answers(o, expressed))
  }

  ghost predicate Inv(s: State) {
    && TableOk(s.pending, s.lastId, s.expressed)
    && QueueOk(s.tasks, Ids(s.pending), s.lastId, s.expressed)
    && LogOk(s.log, Ids(s.pending) + Queued(s.tasks), s.lastId, s.expressed)
    && (forall id | id in s.expressed :: 0 < id <= s.lastId)
  }

  // ---- records leaving the table ----

  /** `after` is what is left of `before` once `out` has been reported. */
  ghost predicate Left(before: seq<Pending>, after: seq<Pending>, out: seq<Output>,
                       lastId: nat, expressed: map<nat, Request>)
  {
    && TableOk(after, lastId, expressed)
    && Ids(after) <= Ids(before)
    && Distinct(out)
    && (forall o | o in out :: Answers(o, expressed)
          && (CallbackId(o) == 0 || (CallbackId(o) in Ids(before) && CallbackId(o) !in Ids(after))))
  }

  lemma LeftKeeps(s: State, after: seq<Pending>, out: seq<Output>)
    requires Inv(s) && Left(s.pending, after, out, s.lastId, s.expressed)
    ensures Inv(s.(pending := after, log := s.log + out))
  {
    hide TableOk, Answers, RecordOk;
    var log := s.log + out;
    forall o | o in s.pending
      ensures 0 < o.id <= s.lastId
    {
      TableIds(s.pending, s.lastId, s.expressed, o);
    }
    DistinctAppend(s.log, out);
  }

  lemma TableIds(ps: seq<Pending>, lastId: nat, expressed: map<nat, Request>, p: Pending)
    requires TableOk(ps, lastId, expressed) && p in ps
    ensures 0 < p.id <= lastId
  {
  }

  lemma DistinctAppend(a: seq<Output>, b: seq<Output>)
    requires Distinct(a) && Distinct(b)
    requires forall o, u | o in a && u in b && CallbackId(o) != 0 :: CallbackId(o) != CallbackId(u)
    ensures Distinct(a + b)
  {
    hide CallbackId;
    var c := a + b;
    forall i, j | 0 <= i < j < |c| && CallbackId(c[i]) != 0
      ensures CallbackId(c[i]) != CallbackId(c[j])
    {
      assert c[i] == if i < |a| then a[i] else b[i - |a|];
      assert c[j] == if j < |a| then a[j] else b[j - |a|];
    }
  }

  /** One record in front: it stays, or leaves with at most its own callback. */
  lemma LeftCons(p: Pending, before: seq<Pending>, after: seq<Pending>, out: seq<Output>,
                 head: seq<Pending>, first: seq<Output>, lastId: nat, expressed: map<nat, Request>)
    requires TableOk([p] + before, lastId, expressed)
    requires Left(before, after, out, lastId, expressed)
    requires |head| <= 1 && (forall q | q in head :: q.id == p.id && RecordOk(q, expressed))
    requires |first| <= 1 && (forall o | o in first :: Answers(o, expressed) && CallbackId(o) == p.id)
    requires head == [] || first == []
    ensures Left([p] + before, head + after, first + out, lastId, expressed)
  {
    hide RecordOk, Answers, CallbackId;
    assert ([p] + before)[1..] == before;
    assert p in [p] + before;
    IdsAppend([p], before);
    IdsAppend(head, after);
    if head != [] {
      assert head == [head[0]];
      assert (head + after)[1..] == after;
      forall q | q in after
        ensures p.id < q.id
      {
        assert q.id in Ids(after);
      }
    } else {
      assert head + after == after;
    }
    if first != [] {
      assert first == [first[0]];
      assert p.id !in Ids(before);
    }
    DistinctAppend(first, out);
  }

  lemma IdsAppend(a: seq<Pending>, b: seq<Pending>)
    ensures Ids(a + b) == Ids(a) + Ids(b)
  {
  }

  lemma LeftNothing(lastId: nat, expressed: map<nat, Request>)
    ensures Left([], [], [], lastId, expressed)
  {
  }

  lemma {:induction false} UnsatisfiedLeft(ps: seq<Pending>, d: Data, lastId: nat, expressed: map<nat, Request>)
    requires TableOk(ps, lastId, expressed)
    ensures Left(ps, Unsatisfied(ps, d), DataCallbacks(ps, d), lastId, expressed)
  {
    hide Left, MatchesData;
    if ps == [] {
      LeftNothing(lastId, expressed);
    } else {
      assert ps == [ps[0]] + ps[1..];
      UnsatisfiedLeft(ps[1..], d, lastId, expressed);
      var gone := MatchesData(ps[0].query, d);
      LeftCons(ps[0], ps[1..], Unsatisfied(ps[1..], d), DataCallbacks(ps[1..], d),
               if gone then [] else [ps[0]],
               if gone then Notify(ps[0], OnData, DataCallback(ps[0].id, d)) else [], lastId, expressed);
    }
  }

  /** What is left of a record after a Nack is in order, and what it releases answers the Interest. */
  lemma NackOneOk(p: Pending, n: Nack, expressed: map<nat, Request>)
    requires RecordOk(p, expressed)
    ensures var (head, out) := NackOne(p, n);
            && |head| <= 1 && (forall q | q in head :: q.id == p.id && RecordOk(q, expressed))
            && (out.Some? ==> head == [] && MatchesInterest(out.value.query, p.query))
  {
    hide Tracked, EarliestLeastSevere;
    if MatchesInterest(n.query, p.query) {
      NackReleases(p, n);
      NackCounts(p, n);
    }
  }

  lemma {:induction false} NackLeft(ps: seq<Pending>, n: Nack, lastId: nat, expressed: map<nat, Request>)
    requires TableOk(ps, lastId, expressed)
    ensures Left(ps, AfterNack(ps, n), NackCallbacks(ps, n), lastId, expressed)
  {
    hide Left, NackOne;
    if ps == [] {
      LeftNothing(lastId, expressed);
    } else {
      assert ps == [ps[0]] + ps[1..];
      NackLeft(ps[1..], n, lastId, expressed);
      NackOneOk(ps[0], n, expressed);
      var (head, out) := NackOne(ps[0], n);
      LeftCons(ps[0], ps[1..], AfterNack(ps[1..], n), NackCallbacks(ps[1..], n), head,
               if out.Some? then Notify(ps[0], OnNack, NackCallback(ps[0].id, out.value)) else [],
               lastId, expressed);
    }
  }

  lemma {:induction false} WithoutLeft(ps: seq<Pending>, id: nat, lastId: nat, expressed: map<nat, Request>)
    requires TableOk(ps, lastId, expressed)
    ensures Left(ps, Without(ps, id), [], lastId, expressed)
    ensures Ids(Without(ps, id)) == Ids(ps) - {id}
  {
    hide Left, RecordOk;
    if ps == [] {
      LeftNothing(lastId, expressed);
    } else {
      assert ps == [ps[0]] + ps[1..];
      WithoutLeft(ps[1..], id, lastId, expressed);
      var head := if ps[0].id == id then [] else [ps[0]];
      var none: seq<Output> := [];
      LeftCons(ps[0], ps[1..], Without(ps[1..], id), none, head, none, lastId, expressed);
      assert none + none == none;
      IdsAppend([ps[0]], ps[1..]);
      IdsAppend(head, Without(ps[1..], id));
    }
  }

  lemma ExpireLeft(s: State, id: nat)
    requires Inv(s) && id in Ids(s.pending)
    ensures var p := RecordOf(s.pending, id);
            Left(s.pending, Without(s.pending, id), Notify(p, OnTimeout, TimeoutCallback(id)),
                 s.lastId, s.expressed)
  {
    hide LogOk, QueueOk;
    WithoutLeft(s.pending, id, s.lastId, s.expressed);
  }

  // ---- records entering the table ----

  lemma {:induction false} PutOk(ps: seq<Pending>, p: Pending, lastId: nat, expressed: map<nat, Request>)
    requires TableOk(ps, lastId, expressed) && p.id !in Ids(ps)
    requires 0 < p.id <= lastId && RecordOk(p, expressed)
    ensures TableOk(Put(ps, p), lastId, expressed)
    ensures Ids(Put(ps, p)) == Ids(ps) + {p.id}
  {
    hide RecordOk, Ids;
    if ps != [] && ps[0].id < p.id {
      var rest := Put(ps[1..], p);
      IdsCons(ps);
      PutOk(ps[1..], p, lastId, expressed);
      IdsCons([ps[0]] + rest);
      assert ([ps[0]] + rest)[1..] == rest;
      forall q | q in rest
        ensures ps[0].id < q.id
      {
        IdIn(rest, q);
        if q.id != p.id {
          IdOf(ps[1..], q.id);
        }
      }
    } else {
      assert ([p] + ps)[1..] == ps;
      IdsCons([p] + ps);
      if ps != [] {
        IdIn(ps, ps[0]);
      }
    }
  }

  lemma IdsCons(ps: seq<Pending>)
    requires ps != []
    ensures Ids(ps) == {ps[0].id} + Ids(ps[1..])
  {
    assert ps == [ps[0]] + ps[1..];
    IdsAppend([ps[0]], ps[1..]);
  }

  lemma IdIn(ps: seq<Pending>, p: Pending)
    requires p in ps
    ensures p.id in Ids(ps)
  {
  }

  lemma IdOf(ps: seq<Pending>, id: nat)
    requires id in Ids(ps)
    ensures exists p | p in ps :: p.id == id
  {
  }

  lemma {:induction false} DispatchedOk(fs: seq<Filter>, p: Pending)
    requires Tracked(p) && p.nacks == []
    ensures var q := Dispatched(fs, p);
            && Tracked(q) && q.nacks == [] && q.forwarded >= p.forwarded
            && q.id == p.id && q.origin == p.origin && q.query == p.query && q.token == p.token
            && q.callbacks == p.callbacks
    decreases |fs|
  {
    hide Tracked, FilterMatches;
    if fs != [] {
      ForwardingTracked(p);
      DispatchedOk(fs[1..], if FilterMatches(fs[0], p) then RecordForwarding(p) else p);
    }
  }

  lemma {:induction false} DispatchLogOk(fs: seq<Filter>, p: Pending)
    ensures forall o | o in DispatchLog(fs, p) :: o.InterestCallback?
  {
    if fs != [] {
      DispatchLogOk(fs[1..], p);
    }
  }

  /** An identifier that was handed out but has not been used for anything yet. */
  ghost predicate Unused(s: State, id: nat) {
    && 0 < id <= s.lastId
    && id !in Ids(s.pending) + Queued(s.tasks)
    && (forall o | o in s.log :: CallbackId(o) != id)
  }

  /** What a step may add: callbacks only for records that were in the table, and new identifiers. */
  ghost predicate Grows(s: State, s': State, extra: set<nat>) {
    && s.log <= s'.log
    && (forall i | |s.log| <= i < |s'.log| :: CallbackId(s'.log[i]) in {0} + Ids(s.pending))
    && s.lastId <= s'.lastId
    && (forall id | id in Ids(s'.pending) + Queued(s'.tasks) ::
          id in Ids(s.pending) + Queued(s.tasks) + extra || id > s.lastId)
  }

  /** Outputs that call nobody back. */
  predicate Silent(out: seq<Output>, expressed: map<nat, Request>) {
    forall o | o in out :: CallbackId(o) == 0 && Answers(o, expressed)
  }

  lemma LogSilent(log: seq<Output>, out: seq<Output>, live: set<nat>, lastId: nat, expressed: map<nat, Request>)
    requires LogOk(log, live, lastId, expressed) && 0 !in live && Silent(out, expressed)
    ensures LogOk(log + out, live, lastId, expressed)
    ensures forall i | |log| <= i < |log + out| :: CallbackId((log + out)[i]) == 0
  {
    hide CallbackId, Answers;
    DistinctAppend(log, out);
  }

  /** One more live identifier, if it was never called back. */
  lemma LogMoreLive(log: seq<Output>, live: set<nat>, id: nat, lastId: nat, expressed: map<nat, Request>)
    requires LogOk(log, live, lastId, expressed) && forall o | o in log :: CallbackId(o) != id
    ensures LogOk(log, live + {id}, lastId, expressed)
  {
    hide Distinct, CallbackId, Answers;
  }

  lemma QueueMore(ts: seq<Task>, ids: set<nat>, id: nat, lastId: nat, expressed: map<nat, Request>)
    requires QueueOk(ts, ids, lastId, expressed) && id !in Queued(ts)
    ensures QueueOk(ts, ids + {id}, lastId, expressed)
  {
  }

  lemma LiveIds(s: State)
    requires Inv(s)
    ensures forall id | id in Ids(s.pending) + Queued(s.tasks) :: 0 < id <= s.lastId
  {
    hide RecordOk, LogOk;
  }

  lemma EnterKeeps(s: State, p: Pending, sent: seq<Output>)
    requires Inv(s) && Unused(s, p.id) && RecordOk(Dispatched(s.filters, p), s.expressed)
    requires Tracked(p) && p.nacks == [] && Silent(sent, s.expressed)
    ensures Inv(Enter(s, p, sent)) && Grows(s, Enter(s, p, sent), {p.id})
  {
    hide RecordOk, TableOk, QueueOk, LogOk, Dispatched, DispatchLog, Tracked, Put;
    var live := Ids(s.pending) + Queued(s.tasks);
    var out := DispatchLog(s.filters, p);
    DispatchedOk(s.filters, p);
    DispatchLogOk(s.filters, p);
    PutOk(s.pending, Dispatched(s.filters, p), s.lastId, s.expressed);
    QueueMore(s.tasks, Ids(s.pending), p.id, s.lastId, s.expressed);
    LiveIds(s);
    LogMoreLive(s.log, live, p.id, s.lastId, s.expressed);
    assert Ids(s.pending) + {p.id} + Queued(s.tasks) == live + {p.id};
    LogSilent(s.log, sent + out, live + {p.id}, s.lastId, s.expressed);
    assert s.log + sent + out == s.log + (sent + out);
  }

  lemma LeftGrows(s: State, after: seq<Pending>, out: seq<Output>)
    requires Inv(s) && Left(s.pending, after, out, s.lastId, s.expressed)
    ensures var s' := s.(pending := after, log := s.log + out); Inv(s') && Grows(s, s', {})
  {
    hide TableOk, QueueOk, LogOk;
    LeftKeeps(s, after, out);
    var s' := s.(pending := after, log := s.log + out);
    forall i | |s.log| <= i < |s'.log|
      ensures CallbackId(s'.log[i]) in {0} + Ids(s.pending)
    {
      assert s'.log[i] == out[i - |s.log|];
    }
  }

  lemma ClearGrows(s: State)
    requires Inv(s)
    ensures Inv(Cleared(s)) && Grows(s, Cleared(s), {})
  {
    hide Inv, Grows;
    assert s.log + [] == s.log;
    LeftOfClear(s);
    LeftGrows(s, [], []);
    RemovedGrows(s, s.(pending := []), s.removed + Ids(s.pending), {});
  }

  lemma LeftOfClear(s: State)
    ensures Left(s.pending, [], [], s.lastId, s.expressed)
  {
  }

  /** The history of removals does not matter to the invariant. */
  lemma RemovedGrows(s: State, s1: State, removed: set<nat>, extra: set<nat>)
    requires Inv(s1) && Grows(s, s1, extra)
    ensures Inv(s1.(removed := removed)) && Grows(s, s1.(removed := removed), extra)
  {
  }

  /** Sending reports no callback; when the packet is too large the table may be cleared. */
  lemma SendGrows(s: State, s1: State, o: Output, size: nat, shutsDown: bool)
    requires Inv(s1) && Grows(s, s1, {}) && (o.SentData? || o.SentNack?)
    ensures Inv(Send(s1, o, size, shutsDown)) && Grows(s, Send(s1, o, size, shutsDown), {})
  {
    hide TableOk, QueueOk, LogOk;
    if size > MAX_NDN_PACKET_SIZE {
      ClearGrows(s1);
    } else {
      LiveIds(s1);
      LogSilent(s1.log, [o], Ids(s1.pending) + Queued(s1.tasks), s1.lastId, s1.expressed);
    }
  }

  lemma ExpressKeeps(s: State, id: nat, r: Request, size: nat, shutsDown: bool)
    requires Inv(s) && Unused(s, id) && id in s.expressed && s.expressed[id] == r
    ensures var s' := RunExpress(s, id, r, size, shutsDown); Inv(s') && Grows(s, s', {id})
  {
    hide Inv, Grows, Unused, Enter, Cleared;
    var p := NewRecord(id, r);
    if size <= MAX_NDN_PACKET_SIZE {
      DispatchedOk(s.filters, p);
      EnterKeeps(s, p, [SentInterest(id, r.query, r.token)]);
    } else {
      var alone := s.(filters := []);
      FiltersGrow(s, []);
      UnusedAlone(s, id);
      EnterKeeps(alone, p, []);
      EnterAlone(s, p);
      ClearGrows(s.(pending := Put(s.pending, p)));
      if shutsDown {
        GrowsThenClear(s, s.(pending := Put(s.pending, p)), {id});
      }
    }
  }

  lemma UnusedAlone(s: State, id: nat)
    requires Unused(s, id)
    ensures Unused(s.(filters := []), id)
  {
  }

  /** Without filters a record is only put. */
  lemma EnterAlone(s: State, p: Pending)
    requires Inv(Enter(s.(filters := []), p, [])) && Grows(s.(filters := []), Enter(s.(filters := []), p, []), {p.id})
    ensures var s' := s.(pending := Put(s.pending, p)); Inv(s') && Grows(s, s', {p.id})
  {
    hide TableOk, QueueOk, LogOk, Put;
    assert s.log + [] + [] == s.log;
  }

  lemma GrowsThenClear(s: State, s1: State, extra: set<nat>)
    requires Grows(s, s1, extra)
    ensures Grows(s, Cleared(s1), extra)
  {
  }

  lemma IncomingKeeps(s: State, q: Query, token: Option<Bytes>)
    requires Inv(s)
    ensures var s' := Step(s, ReceiveInterest(q, token)); Inv(s') && Grows(s, s', {})
  {
    hide Inv, Grows, Unused, Enter;
    var id := s.lastId + 1;
    var s1 := s.(lastId := id);
    NextId(s);
    var p := NewPending(id, Forwarder, q, token, {});
    DispatchedOk(s.filters, p);
    EnterKeeps(s1, p, []);
    GrowsFromNextId(s, s1, Enter(s1, p, []));
  }

  /** The next identifier has not been used for anything. */
  lemma NextId(s: State)
    requires Inv(s)
    ensures var id := s.lastId + 1;
            Inv(s.(lastId := id)) && Unused(s.(lastId := id), id) && id !in s.expressed
  {
    hide TableOk, Answers, Distinct;
    LiveIds(s);
    TableMore(s.pending, s.lastId, s.lastId + 1, s.expressed, s.expressed);
  }

  lemma GrowsFromNextId(s: State, s1: State, s2: State)
    requires s1 == s.(lastId := s.lastId + 1) && Grows(s1, s2, {s.lastId + 1})
    ensures Grows(s, s2, {})
  {
  }

  lemma TableMore(ps: seq<Pending>, lastId: nat, more: nat,
                  expressed: map<nat, Request>, expressed': map<nat, Request>)
    requires TableOk(ps, lastId, expressed) && lastId <= more
    requires forall id | id in expressed :: id in expressed' && expressed'[id] == expressed[id]
    requires forall id | id in expressed' :: id in expressed || id > lastId
    ensures TableOk(ps, more, expressed')
  {
    hide Tracked;
  }

  lemma PerformKeeps(s: State, t: Task, shutsDown: bool)
    requires Inv(s)
    requires t.Express? ==> Unused(s, t.id) && t.id in s.expressed && s.expressed[t.id] == t.request
    ensures Inv(Perform(s, t, shutsDown))
    ensures Grows(s, Perform(s, t, shutsDown), if t.Express? then {t.id} else {})
  {
    hide TableOk, QueueOk, LogOk, Grows, Left, RunExpress, Send, ShouldSendData, OutNack, Unused, Cleared;
    match t {
      case Express(id, r, size) => ExpressKeeps(s, id, r, size, shutsDown);
      case RemovePending(id) =>
        WithoutLeft(s.pending, id, s.lastId, s.expressed);
        LeftGrows(s, Without(s.pending, id), []);
        assert s.log + [] == s.log;
        RemovedGrows(s, s.(pending := Without(s.pending, id)), s.removed + Ids(s.pending) * {id}, {});
      case PutData(d, size) =>
        UnsatisfiedLeft(s.pending, d, s.lastId, s.expressed);
        LeftGrows(s, Unsatisfied(s.pending, d), DataCallbacks(s.pending, d));
        SendGrows(s, Satisfy(s, d), SentData(d), size, shutsDown);
      case PutNack(n, size) =>
        NackLeft(s.pending, n, s.lastId, s.expressed);
        LeftGrows(s, AfterNack(s.pending, n), NackCallbacks(s.pending, n));
        var out := OutNack(s.pending, n);
        if out.Some? {
          SendGrows(s, NackRecords(s, n), SentNack(out.value), size, shutsDown);
        }
      case SetFilter(f) => FiltersGrow(s, PutFilter(s.filters, f));
      case UnsetFilter(id) => FiltersGrow(s, WithoutFilter(s.filters, id));
      case RemoveAll => ClearGrows(s);
      case Shutdown => ClearGrows(s);
    }
  }

  lemma FiltersGrow(s: State, fs: seq<Filter>)
    requires Inv(s)
    ensures Inv(s.(filters := fs)) && Grows(s, s.(filters := fs), {})
  {
  }

  // ---- queued tasks ----

  lemma PostKeeps(s: State, t: Task)
    requires Inv(s) && !t.Express?
    requires t.RemovePending? ==> t.id in s.expressed
    ensures Inv(Post(s, t)) && Grows(s, Post(s, t), {})
  {
    hide TableOk, LogOk;
    assert Queued(s.tasks + [t]) == Queued(s.tasks);
  }

  lemma CallExpressKeeps(s: State, r: Request, size: nat)
    requires Inv(s)
    ensures var s' := Step(s, CallExpress(r, size)); Inv(s') && Grows(s, s', {})
  {
    hide TableOk, CallbackId, Answers;
    var id := s.lastId + 1;
    var t := Express(id, r, size);
    var expressed := s.expressed[id := r];
    LiveIds(s);
    TableMore(s.pending, s.lastId, id, s.expressed, expressed);
    assert Queued(s.tasks + [t]) == Queued(s.tasks) + {id};
    LogMore(s.log, Ids(s.pending) + Queued(s.tasks), id, s.lastId, s.expressed, expressed);
    assert Ids(s.pending) + Queued(s.tasks + [t]) == Ids(s.pending) + Queued(s.tasks) + {id};
  }

  lemma LogMore(log: seq<Output>, live: set<nat>, id: nat, lastId: nat,
                expressed: map<nat, Request>, expressed': map<nat, Request>)
    requires LogOk(log, live, lastId, expressed) && id == lastId + 1 && id !in expressed
    requires forall i | i in expressed :: i in expressed' && expressed'[i] == expressed[i]
    ensures LogOk(log, live + {id}, id, expressed')
  {
    hide Distinct, MatchesData, MatchesInterest;
  }

  /** The task at the head of the queue is ready to run on what is left. */
  lemma PopKeeps(s: State)
    requires Inv(s) && s.tasks != []
    ensures var t, s1 := s.tasks[0], s.(tasks := s.tasks[1..]);
            && Inv(s1) && Grows(s, s1, {})
            && (t.Express? ==> t.id in Queued(s.tasks) && Unused(s1, t.id)
                               && t.id in s.expressed && s.expressed[t.id] == t.request)
            && (t.RemovePending? ==> t.id !in Queued(s1.tasks) && t.id in s.expressed)
  {
    hide TableOk, Answers, CallbackId, Distinct;
    var t, ts := s.tasks[0], s.tasks[1..];
    assert t in s.tasks;
    assert forall i | 0 <= i < |ts| :: ts[i] == s.tasks[i + 1];
    assert Queued(ts) <= Queued(s.tasks);
    forall u | u in ts && u.Express? && (t.Express? || t.RemovePending?)
      ensures u.id != t.id
    {
      var i :| 0 <= i < |ts| && ts[i] == u;
      assert s.tasks[i + 1] == u;
    }
  }

  // ---- every step, every run ----

  lemma StepKeeps(s: State, e: Event)
    requires Inv(s)
    ensures Inv(Step(s, e)) && Grows(s, Step(s, e), {})
  {
    hide Inv, Grows, Left, Perform, Unused, Enter;
    match e {
      case CallExpress(r, size) => CallExpressKeeps(s, r, size);
      case RunTask(shutsDown) =>
        if s.tasks != [] {
          PopKeeps(s);
          var s1 := s.(tasks := s.tasks[1..]);
          PerformKeeps(s1, s.tasks[0], shutsDown);
          var put := if s.tasks[0].Express? then {s.tasks[0].id} else {};
          GrowsFromQueue(s, s1, Perform(s1, s.tasks[0], shutsDown), put);
        } else {
          GrowsSame(s);
        }
      case Register(prefix, loopback) =>
        var id := s.lastFilterId + 1;
        var fs := PutFilter(s.filters, Filter(id, prefix, loopback));
        FiltersGrow(s, fs);
        FilterIds(s, s.(filters := fs), id);
      case ReceiveInterest(q, token) => IncomingKeeps(s, q, token);
      case ReceiveData(d) =>
        TableOfInv(s);
        UnsatisfiedLeft(s.pending, d, s.lastId, s.expressed);
        LeftGrows(s, Unsatisfied(s.pending, d), DataCallbacks(s.pending, d));
      case ReceiveNack(n) =>
        TableOfInv(s);
        NackLeft(s.pending, n, s.lastId, s.expressed);
        LeftGrows(s, AfterNack(s.pending, n), NackCallbacks(s.pending, n));
      case Timeout(id) =>
        if exists p | p in s.pending :: p.id == id {
          var p := RecordOf(s.pending, id);
          ExpireLeft(s, id);
          LeftGrows(s, Without(s.pending, id), Notify(p, OnTimeout, TimeoutCallback(id)));
        } else {
          GrowsSame(s);
        }
      case CallCancel(id) =>
        if id in s.expressed {
          PostKeeps(s, RemovePending(id));
        } else {
          GrowsSame(s);
        }
      case CallRemoveAll => PostKeeps(s, RemoveAll);
      case CallPutData(d, size) => PostKeeps(s, PutData(d, size));
      case CallPutNack(n, size) => PostKeeps(s, PutNack(n, size));
      case CallSetFilter(prefix, loopback) =>
        var t := SetFilter(Filter(s.lastFilterId + 1, prefix, loopback));
        PostKeeps(s, t);
        FilterIds(s, Post(s, t), s.lastFilterId + 1);
      case CallUnsetFilter(id) => PostKeeps(s, UnsetFilter(id));
      case CallShutdown => PostKeeps(s, Shutdown);
    }
  }

  lemma TableOfInv(s: State)
    requires Inv(s)
    ensures TableOk(s.pending, s.lastId, s.expressed)
  {
  }

  lemma FilterIds(s: State, s1: State, id: nat)
    requires Inv(s1) && Grows(s, s1, {})
    ensures Inv(s1.(lastFilterId := id)) && Grows(s, s1.(lastFilterId := id), {})
  {
  }

  lemma GrowsSame(s: State)
    ensures Grows(s, s, {})
  {
  }

  lemma GrowsFromQueue(s: State, s1: State, s2: State, extra: set<nat>)
    requires s1 == s.(tasks := s1.tasks)
    requires Grows(s, s1, {}) && Grows(s1, s2, extra) && extra <= Queued(s.tasks)
    ensures Grows(s, s2, {})
  {
  }

  lemma {:induction false} RunKeeps(s: State, es: seq<Event>)
    requires Inv(s)
    ensures Inv(Run(s, es))
  {
    hide Inv, Step;
    if es != [] {
      RunKeeps(s, es[..|es| - 1]);
      StepKeeps(Run(s, es[..|es| - 1]), es[|es| - 1]);
    }
  }

  lemma InitialInv()
    ensures Inv(INITIAL)
  {
  }

  /** In every run each expressed Interest is called back at most once, and with its own answer. */
  lemma AtMostOneCallback(es: seq<Event>)
    ensures var s := Run(INITIAL, es);
            Distinct(s.log) && forall o | o in s.log :: Answers(o, s.expressed)
  {
    hide Run, TableOk, QueueOk;
    InitialInv();
    RunKeeps(INITIAL, es);
  }

  /** In every run the next record to be put has an identifier of its own. */
  lemma PutNeverCollides(es: seq<Event>)
    ensures var s := Run(INITIAL, es);
            && s.lastId + 1 !in Ids(s.pending) + Queued(s.tasks) && s.lastId + 1 !in s.expressed
            && (s.tasks != [] && s.tasks[0].Express? ==>
                  s.tasks[0].id != 0 && s.tasks[0].id !in Ids(s.pending) + Queued(s.tasks[1..]))
  {
    hide Run, TableOk, QueueOk, LogOk;
    InitialInv();
    RunKeeps(INITIAL, es);
    var s := Run(INITIAL, es);
    LiveIds(s);
    if s.tasks != [] {
      PopKeeps(s);
    }
  }

  // ---- after an Interest is gone ----

  /** Handed out, and neither waiting in the queue nor in the table. */
  ghost predicate Retired(s: State, id: nat) {
    0 < id <= s.lastId && id !in Ids(s.pending) + Queued(s.tasks)
  }

  /** Nothing is reported for `id` after the first `from` outputs. */
  predicate SilentAbout(log: seq<Output>, from: nat, id: nat) {
    forall i | from <= i < |log| :: CallbackId(log[i]) != id
  }

  lemma {:induction false} RetiredForever(s: State, es: seq<Event>, id: nat)
    requires Inv(s) && Retired(s, id)
    ensures Retired(Run(s, es), id)
    ensures s.log <= Run(s, es).log && SilentAbout(Run(s, es).log, |s.log|, id)
  {
    hide Inv, Step;
    if es != [] {
      var s1 := Run(s, es[..|es| - 1]);
      RetiredForever(s, es[..|es| - 1], id);
      RunKeeps(s, es[..|es| - 1]);
      StepKeeps(s1, es[|es| - 1]);
      var s2 := Step(s1, es[|es| - 1]);
      forall i | |s.log| <= i < |s2.log|
        ensures CallbackId(s2.log[i]) != id
      {
        assert i < |s1.log| ==> s2.log[i] == s1.log[i];
      }
    }
  }

  /** Once a cancelled Interest's removal has run, nothing is ever reported for it again. */
  lemma NoneAfterCancel(es: seq<Event>, shutsDown: bool, more: seq<Event>, id: nat)
    requires var s := Run(INITIAL, es); s.tasks != [] && s.tasks[0] == RemovePending(id)
    ensures var s := Step(Run(INITIAL, es), RunTask(shutsDown));
            Retired(s, id) && SilentAbout(Run(s, more).log, |s.log|, id)
  {
    hide Run, TableOk, QueueOk, LogOk;
    InitialInv();
    RunKeeps(INITIAL, es);
    var s := Run(INITIAL, es);
    PopKeeps(s);
    StepKeeps(s, RunTask(shutsDown));
    WithoutLeft(s.pending, id, s.lastId, s.expressed);
    RetiredForever(Step(s, RunTask(shutsDown)), more, id);
  }

  /** Once a removal of everything has run, only Interests expressed after it can be called back. */
  lemma NoneAfterClear(es: seq<Event>, shutsDown: bool, more: seq<Event>, id: nat)
    requires var s := Run(INITIAL, es); s.tasks != [] && (s.tasks[0].RemoveAll? || s.tasks[0].Shutdown?)
    requires var s := Run(INITIAL, es); 0 < id <= s.lastId && id !in Queued(s.tasks[1..])
    ensures var s := Step(Run(INITIAL, es), RunTask(shutsDown));
            Retired(s, id) && SilentAbout(Run(s, more).log, |s.log|, id)
  {
    hide Run, TableOk, QueueOk, LogOk;
    InitialInv();
    RunKeeps(INITIAL, es);
    var s := Run(INITIAL, es);
    StepKeeps(s, RunTask(shutsDown));
    RetiredForever(Step(s, RunTask(shutsDown)), more, id);
  }

  // ---- Data and Nacks in a run ----

  lemma {:induction false} SameId(ps: seq<Pending>, p: Pending, q: Pending)
    requires Ascending(ps) && p in ps && q in ps && p.id == q.id
    ensures p == q
  {
    if p != ps[0] && q != ps[0] {
      SameId(ps[1..], p, q);
    }
  }

  lemma {:induction false} UnsatisfiedExactly(ps: seq<Pending>, d: Data)
    ensures forall p :: p in Unsatisfied(ps, d) <==> p in ps && !MatchesData(p.query, d)
  {
    hide MatchesData;
    if ps != [] {
      UnsatisfiedExactly(ps[1..], d);
      assert ps == [ps[0]] + ps[1..];
    }
  }

  /** The application asked for Data under this identifier, and this Data matches. */
  predicate WantsData(p: Pending, id: nat, d: Data) {
    p.id == id && p.origin.App? && OnData in p.callbacks && MatchesData(p.query, d)
  }

  lemma {:induction false} DataCallbacksExactly(ps: seq<Pending>, d: Data, id: nat)
    ensures DataCallback(id, d) in DataCallbacks(ps, d) <==> exists p | p in ps :: WantsData(p, id, d)
  {
    hide MatchesData;
    if ps != [] {
      DataCallbacksExactly(ps[1..], d, id);
      var head := if MatchesData(ps[0].query, d) then Notify(ps[0], OnData, DataCallback(ps[0].id, d)) else [];
      assert DataCallbacks(ps, d) == head + DataCallbacks(ps[1..], d);
      assert DataCallback(id, d) in head <==> WantsData(ps[0], id, d);
      assert forall p | p in ps :: p == ps[0] || p in ps[1..];
    }
  }

  /**
   In every run arriving Data removes exactly the records it matches, leaves all others as they
   were, and calls back exactly the applications that asked for it.
   */
  lemma DataAnswersExactly(es: seq<Event>, d: Data, p: Pending)
    requires p in Run(INITIAL, es).pending
    ensures var s := Run(INITIAL, es);
            var s' := Step(s, ReceiveData(d));
            && (MatchesData(p.query, d) ==> p.id !in Ids(s'.pending))
            && (!MatchesData(p.query, d) ==> p in s'.pending)
            && (DataCallback(p.id, d) in s'.log[|s.log|..] <==> WantsData(p, p.id, d))
  {
    hide Run, QueueOk, LogOk, RecordOk, MatchesData;
    InitialInv();
    RunKeeps(INITIAL, es);
    var s := Run(INITIAL, es);
    UnsatisfiedExactly(s.pending, d);
    DataCallbacksExactly(s.pending, d, p.id);
    forall q | q in s.pending && q.id == p.id
      ensures q == p
    {
      SameId(s.pending, p, q);
    }
    assert (s.log + DataCallbacks(s.pending, d))[|s.log|..] == DataCallbacks(s.pending, d);
  }

  /**
   In every run a pending Interest is released by a Nack exactly when that is the last destination,
   with the earliest least severe Nack it received.
   */
  lemma NackReleasedInRun(es: seq<Event>, p: Pending, n: Nack)
    requires p in Run(INITIAL, es).pending
    ensures var out := NackOne(p, n).1;
            && (out.Some? <==> MatchesInterest(n.query, p.query) && |p.nacks| + 1 >= p.forwarded)
            && (out.Some? ==> IsEarliestLeastSevere(p.nacks + [n], out.value))
  {
    hide Run, QueueOk, LogOk, Tracked, IsEarliestLeastSevere, RecordNack;
    InitialInv();
    RunKeeps(INITIAL, es);
    NackReleases(p, n);
    NackCounts(p, n);
  }

  /**
   `recordNack` asserts that its counter stays non-negative. In every run that holds exactly for
   records that were dispatched somewhere; every expressed Interest was.
   */
  lemma NackCounterIff(es: seq<Event>, p: Pending, n: Nack)
    requires p in Run(INITIAL, es).pending
    ensures RecordNack(p, n).0.nNotNacked >= 0 <==> p.forwarded > 0
    ensures p.origin.App? ==> p.forwarded > 0
  {
    hide Run, QueueOk, LogOk;
    InitialInv();
    RunKeeps(INITIAL, es);
  }

  /** An incoming Interest that matches no filter is such a record. */
  lemma NackCounterFails(q: Query, token: Option<Bytes>, n: Nack)
    ensures var s := Run(INITIAL, [ReceiveInterest(q, token)]);
            |s.pending| == 1 && RecordNack(s.pending[0], n).0.nNotNacked < 0
  {
    assert [ReceiveInterest(q, token)][..0] == [];
    assert Run(INITIAL, []) == INITIAL;
  }
}
