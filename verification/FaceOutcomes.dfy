/** What becomes of every expressed Interest: exactly one callback, unless it was taken out. */
module FaceOutcomes {
  import opened Wrappers
  import opened Tlv
  import opened Matching
  import opened PendingInterests
  import opened FaceRuns

  const ALL: set<Outcome> := {OnData, OnNack, OnTimeout}

  ghost predicate Called(log: seq<Output>, id: nat) {
    exists o | o in log :: CallbackId(o) == id
  }

  /** Waiting to be put, or in the table. */
  ghost function Live(s: State): set<nat> {
    Ids(s.pending) + Queued(s.tasks)
  }

  /** Expressed with a callback for every outcome. */
  ghost predicate Wants(s: State, id: nat) {
    id in s.expressed && s.expressed[id].callbacks == ALL
  }

  /** A removed Interest is gone without a callback; any other is live or was called back. */
  ghost predicate Accounts(s: State) {
    && (forall id | id in s.removed :: Retired(s, id) && !Called(s.log, id))
    && (forall id | Wants(s, id) :: id in Live(s) + s.removed || Called(s.log, id))
  }

  /** What a step must show: who leaves is called back or removed, and not both. */
  ghost predicate Covers(s: State, s': State) {
    && s.log <= s'.log && s.removed <= s'.removed
    && (forall id | id in s'.removed - s.removed ::
          id in Live(s) && id !in Live(s') && forall o | o in s'.log[|s.log|..] :: CallbackId(o) != id)
    && (forall id | Wants(s', id) ::
          || id in Live(s') + s'.removed
          || (Wants(s, id) && (id in Live(s) ==> Called(s'.log, id))))
  }

  lemma CoversKeeps(s: State, s': State)
    requires Inv(s) && Accounts(s) && Grows(s, s', {}) && Covers(s, s')
    ensures Accounts(s')
  {
    hide TableOk, QueueOk, Answers, CallbackId, Distinct;
    LiveIds(s);
    forall o | o in s'.log
      ensures o in s.log || o in s'.log[|s.log|..]
    {
      assert s'.log == s.log + s'.log[|s.log|..];
    }
    forall id | id in s'.removed
      ensures Retired(s', id) && !Called(s'.log, id)
    {
      assert id in s.removed || id in s'.removed - s.removed;
      forall o | o in s'.log[|s.log|..]
        ensures CallbackId(o) != id
      {
        var i :| |s.log| <= i < |s'.log| && s'.log[i] == o;
      }
    }
    forall id | Wants(s', id)
      ensures id in Live(s') + s'.removed || Called(s'.log, id)
    {
      if Called(s.log, id) {
        var o :| o in s.log && CallbackId(o) == id;
        assert o in s'.log;
      }
    }
  }

  // ---- records that are answered ----

  /** Every record that leaves had no callback to call, or calls one. */
  ghost predicate Answered(before: seq<Pending>, after: seq<Pending>, out: seq<Output>) {
    forall p | p in before && p.origin.App? && p.callbacks == ALL :: p.id in Ids(after) || Called(out, p.id)
  }

  lemma AnsweredCons(p: Pending, before: seq<Pending>, after: seq<Pending>, out: seq<Output>,
                     head: seq<Pending>, first: seq<Output>)
    requires Answered(before, after, out)
    requires p.origin.App? && p.callbacks == ALL ==> p.id in Ids(head) || Called(first, p.id)
    ensures Answered([p] + before, head + after, first + out)
  {
    hide CallbackId;
    IdsAppend(head, after);
    forall q | q in [p] + before && q.origin.App? && q.callbacks == ALL
      ensures q.id in Ids(head + after) || Called(first + out, q.id)
    {
      if q in before && Called(out, q.id) {
        var o :| o in out && CallbackId(o) == q.id;
        assert o in first + out;
      } else if q == p && Called(first, q.id) {
        var o :| o in first && CallbackId(o) == q.id;
        assert o in first + out;
      }
    }
  }

  lemma OneCall(o: Output)
    ensures Called([o], CallbackId(o))
  {
    assert o in [o];
  }

  lemma {:induction false} DataAnswered(ps: seq<Pending>, d: Data)
    ensures Answered(ps, Unsatisfied(ps, d), DataCallbacks(ps, d))
  {
    hide MatchesData, Answered;
    if ps == [] {
      AnsweredNothing();
    } else {
      assert ps == [ps[0]] + ps[1..];
      DataAnswered(ps[1..], d);
      var gone := MatchesData(ps[0].query, d);
      OneCall(DataCallback(ps[0].id, d));
      AnsweredCons(ps[0], ps[1..], Unsatisfied(ps[1..], d), DataCallbacks(ps[1..], d),
                   if gone then [] else [ps[0]],
                   if gone then Notify(ps[0], OnData, DataCallback(ps[0].id, d)) else []);
    }
  }

  lemma AnsweredNothing()
    ensures Answered([], [], [])
  {
  }

  lemma {:induction false} NackAnswered(ps: seq<Pending>, n: Nack)
    ensures Answered(ps, AfterNack(ps, n), NackCallbacks(ps, n))
  {
    hide Answered, RecordNack;
    if ps == [] {
      AnsweredNothing();
    } else {
      assert ps == [ps[0]] + ps[1..];
      NackAnswered(ps[1..], n);
      var (head, out) := NackOne(ps[0], n);
      NackOneStays(ps[0], n);
      if out.Some? {
        OneCall(NackCallback(ps[0].id, out.value));
      }
      AnsweredCons(ps[0], ps[1..], AfterNack(ps[1..], n), NackCallbacks(ps[1..], n), head,
                   if out.Some? then Notify(ps[0], OnNack, NackCallback(ps[0].id, out.value)) else []);
    }
  }

  lemma NackOneStays(p: Pending, n: Nack)
    ensures NackOne(p, n).1.None? ==> p.id in Ids(NackOne(p, n).0)
  {
    var (head, out) := NackOne(p, n);
    if out.None? {
      assert head[0] in head && head[0].id == p.id;
    }
  }

  lemma AnsweredKeeps(s: State, after: seq<Pending>, out: seq<Output>)
    requires Inv(s) && Accounts(s) && Left(s.pending, after, out, s.lastId, s.expressed)
    requires Answered(s.pending, after, out)
    ensures Accounts(s.(pending := after, log := s.log + out))
  {
    hide QueueOk, LogOk, Answers, CallbackId, Accounts;
    var s' := s.(pending := after, log := s.log + out);
    LeftGrows(s, after, out);
    assert s'.log[|s.log|..] == out;
    forall id | Wants(s', id)
      ensures id in Live(s') + s'.removed || (Wants(s, id) && (id in Live(s) ==> Called(s'.log, id)))
    {
      if id in Ids(s.pending) {
        var p :| p in s.pending && p.id == id;
        assert RecordOk(p, s.expressed);
        if Called(out, id) {
          var o :| o in out && CallbackId(o) == id;
          assert o in s'.log;
        }
      }
    }
    CoversKeeps(s, s');
  }

  // ---- records that are taken out ----

  lemma RemovedKeeps(s: State, after: seq<Pending>)
    requires Inv(s) && Accounts(s) && Left(s.pending, after, [], s.lastId, s.expressed)
    ensures Accounts(s.(pending := after, removed := s.removed + (Ids(s.pending) - Ids(after))))
  {
    hide TableOk, QueueOk, LogOk, Accounts;
    var removed := s.removed + (Ids(s.pending) - Ids(after));
    var s' := s.(pending := after, removed := removed);
    LeftGrows(s, after, []);
    assert s.log + [] == s.log;
    RemovedGrows(s, s.(pending := after), removed, {});
    assert Ids(s.pending) !! Queued(s.tasks) by { QueueApart(s); }
    assert s'.log[|s.log|..] == [];
    CoversKeeps(s, s');
  }

  lemma QueueApart(s: State)
    requires Inv(s)
    ensures Ids(s.pending) !! Queued(s.tasks)
  {
    hide TableOk, LogOk;
  }

  lemma ClearedKeeps(s: State)
    requires Inv(s) && Accounts(s)
    ensures Accounts(Cleared(s))
  {
    hide Inv, Accounts;
    LeftOfClear(s);
    RemovedKeeps(s, []);
    assert Ids(s.pending) - Ids([]) == Ids(s.pending);
  }

  // ---- the other steps ----

  /** A step that moves identifiers between queue and table, or adds queued ones. */
  lemma MovedKeeps(s: State, s': State)
    requires Inv(s) && Accounts(s) && Grows(s, s', {}) && s'.removed == s.removed
    requires Live(s) <= Live(s')
    requires forall id | id in s'.expressed ::
               id in Live(s') || (id in s.expressed && s'.expressed[id] == s.expressed[id])
    ensures Accounts(s')
  {
    hide Inv, Accounts;
    CoversKeeps(s, s');
  }

  lemma SendKeeps(s: State, o: Output, size: nat, shutsDown: bool)
    requires Inv(s) && Accounts(s) && (o.SentData? || o.SentNack?)
    ensures Accounts(Send(s, o, size, shutsDown))
  {
    hide Inv, Accounts;
    if size <= MAX_NDN_PACKET_SIZE {
      GrowsSame(s);
      SendGrows(s, s, o, size, shutsDown);
      MovedKeeps(s, Send(s, o, size, shutsDown));
    } else if shutsDown {
      ClearedKeeps(s);
    }
  }

  lemma {:induction false} PutIdsOf(ps: seq<Pending>, p: Pending)
    ensures Ids(Put(ps, p)) == Ids(ps) + {p.id}
  {
    hide Ids;
    if ps != [] && ps[0].id <= p.id {
      PutIdsOf(ps[1..], p);
      IdsCons(ps);
      IdsCons([ps[0]] + Put(ps[1..], p));
      assert ([ps[0]] + Put(ps[1..], p))[1..] == Put(ps[1..], p);
    } else {
      IdsCons([p] + ps);
      assert ([p] + ps)[1..] == ps;
    }
  }

  lemma DispatchedId(fs: seq<Filter>, p: Pending)
    requires Tracked(p) && p.nacks == []
    ensures Dispatched(fs, p).id == p.id
  {
    hide Dispatched, Tracked;
    DispatchedOk(fs, p);
  }

  lemma IncomingAccounts(s: State, q: Query, token: Option<Bytes>)
    requires Inv(s) && Accounts(s)
    ensures Accounts(Step(s, ReceiveInterest(q, token)))
  {
    hide Inv, Accounts, Dispatched, DispatchLog, Put, Ids, Grows;
    var p := NewPending(s.lastId + 1, Forwarder, q, token, {});
    DispatchedId(s.filters, p);
    PutIdsOf(s.pending, Dispatched(s.filters, p));
    IncomingKeeps(s, q, token);
    MovedKeeps(s, Step(s, ReceiveInterest(q, token)));
  }

  /** The oldest task expresses an Interest. */
  lemma ExpressAccounts(s: State, shutsDown: bool)
    requires Inv(s) && Accounts(s) && s.tasks != [] && s.tasks[0].Express?
    ensures Accounts(Step(s, RunTask(shutsDown)))
  {
    hide Inv, Accounts, Dispatched, DispatchLog, Put, Ids, Grows;
    var t, s1 := s.tasks[0], s.(tasks := s.tasks[1..]);
    var p := NewRecord(t.id, t.request);
    StepKeeps(s, RunTask(shutsDown));
    DispatchedId(s.filters, p);
    PutIdsOf(s.pending, Dispatched(s.filters, p));
    PutIdsOf(s.pending, p);
    QueueCons(s.tasks);
    if t.size <= MAX_NDN_PACKET_SIZE || !shutsDown {
      MovedKeeps(s, Step(s, RunTask(shutsDown)));
    } else {
      var s2 := s1.(pending := Put(s.pending, p));
      StepKeeps(s, RunTask(false));
      MovedKeeps(s, s2);
      ClearedKeeps(s2);
    }
  }

  lemma QueueCons(ts: seq<Task>)
    requires ts != []
    ensures Queued(ts) == Queued(ts[1..]) + if ts[0].Express? then {ts[0].id} else {}
  {
    assert ts == [ts[0]] + ts[1..];
  }

  /** Any other task. */
  lemma PerformAccounts(s: State, t: Task, shutsDown: bool)
    requires Inv(s) && Accounts(s) && !t.Express?
    ensures Accounts(Perform(s, t, shutsDown))
  {
    hide Inv, Accounts, Grows, Left, Answered, Send, ShouldSendData, OutNack, Cleared, PutFilter, WithoutFilter;
    TableOfInv(s);
    match t {
      case RemovePending(id) =>
        WithoutLeft(s.pending, id, s.lastId, s.expressed);
        RemovedKeeps(s, Without(s.pending, id));
        assert Ids(s.pending) - Ids(Without(s.pending, id)) == Ids(s.pending) * {id};
      case PutData(d, size) =>
        DataAccounts(s, d);
        SendKeeps(Satisfy(s, d), SentData(d), size, shutsDown);
      case PutNack(n, size) =>
        NackAccounts(s, n);
        var out := OutNack(s.pending, n);
        if out.Some? {
          SendKeeps(NackRecords(s, n), SentNack(out.value), size, shutsDown);
        }
      case SetFilter(f) => FiltersAccount(s, PutFilter(s.filters, f), s.lastFilterId);
      case UnsetFilter(id) => FiltersAccount(s, WithoutFilter(s.filters, id), s.lastFilterId);
      case RemoveAll => ClearedKeeps(s);
      case Shutdown => ClearedKeeps(s);
    }
  }

  lemma DataAccounts(s: State, d: Data)
    requires Inv(s) && Accounts(s)
    ensures Inv(Satisfy(s, d)) && Accounts(Satisfy(s, d))
  {
    hide Inv, Accounts, Grows, Left, Answered;
    TableOfInv(s);
    UnsatisfiedLeft(s.pending, d, s.lastId, s.expressed);
    LeftGrows(s, Unsatisfied(s.pending, d), DataCallbacks(s.pending, d));
    DataAnswered(s.pending, d);
    AnsweredKeeps(s, Unsatisfied(s.pending, d), DataCallbacks(s.pending, d));
  }

  lemma NackAccounts(s: State, n: Nack)
    requires Inv(s) && Accounts(s)
    ensures Inv(NackRecords(s, n)) && Accounts(NackRecords(s, n))
  {
    hide Inv, Accounts, Grows, Left, Answered;
    TableOfInv(s);
    NackLeft(s.pending, n, s.lastId, s.expressed);
    LeftGrows(s, AfterNack(s.pending, n), NackCallbacks(s.pending, n));
    NackAnswered(s.pending, n);
    AnsweredKeeps(s, AfterNack(s.pending, n), NackCallbacks(s.pending, n));
  }

  lemma FiltersAccount(s: State, fs: seq<Filter>, lastFilterId: nat)
    requires Accounts(s)
    ensures Accounts(s.(filters := fs, lastFilterId := lastFilterId))
  {
    hide Called;
  }

  lemma ExpireAccounts(s: State, id: nat)
    requires Inv(s) && Accounts(s)
    ensures Accounts(Expire(s, id))
  {
    hide Accounts, Grows, Left, QueueOk, LogOk, RecordOk;
    if exists p | p in s.pending :: p.id == id {
      var p := RecordOf(s.pending, id);
      var out := Notify(p, OnTimeout, TimeoutCallback(id));
      ExpireLeft(s, id);
      WithoutLeft(s.pending, id, s.lastId, s.expressed);
      OneCall(TimeoutCallback(id));
      forall q | q in s.pending && q.origin.App? && q.callbacks == ALL
        ensures q.id in Ids(Without(s.pending, id)) || Called(out, q.id)
      {
        if q.id == id {
          SameId(s.pending, p, q);
        }
      }
      AnsweredKeeps(s, Without(s.pending, id), out);
    }
  }

  lemma PostAccounts(s: State, t: Task)
    requires Inv(s) && Accounts(s) && !t.Express? && (t.RemovePending? ==> t.id in s.expressed)
    ensures Accounts(Post(s, t))
  {
    hide Inv, Accounts, Grows;
    PostKeeps(s, t);
    assert Queued(s.tasks + [t]) == Queued(s.tasks);
    MovedKeeps(s, Post(s, t));
  }

  lemma CallExpressAccounts(s: State, r: Request, size: nat)
    requires Inv(s) && Accounts(s)
    ensures Accounts(Step(s, CallExpress(r, size)))
  {
    hide Inv, Accounts, Grows;
    CallExpressKeeps(s, r, size);
    var id := s.lastId + 1;
    assert Queued(s.tasks + [Express(id, r, size)]) == Queued(s.tasks) + {id};
    MovedKeeps(s, Step(s, CallExpress(r, size)));
  }

  lemma StepAccounts(s: State, e: Event)
    requires Inv(s) && Accounts(s)
    ensures Accounts(Step(s, e))
  {
    hide Inv, Accounts, Perform, Expire, Enter, Satisfy, NackRecords, Grows;
    match e {
      case CallExpress(r, size) => CallExpressAccounts(s, r, size);
      case RunTask(shutsDown) =>
        if s.tasks != [] {
          if s.tasks[0].Express? {
            ExpressAccounts(s, shutsDown);
          } else {
            PopKeeps(s);
            PopAccounts(s);
            PerformAccounts(s.(tasks := s.tasks[1..]), s.tasks[0], shutsDown);
          }
        }
      case Register(prefix, loopback) =>
        var id := s.lastFilterId + 1;
        FiltersAccount(s, PutFilter(s.filters, Filter(id, prefix, loopback)), id);
      case ReceiveInterest(q, token) => IncomingAccounts(s, q, token);
      case ReceiveData(d) => DataAccounts(s, d);
      case ReceiveNack(n) => NackAccounts(s, n);
      case Timeout(id) => ExpireAccounts(s, id);
      case CallCancel(id) =>
        if id in s.expressed {
          PostAccounts(s, RemovePending(id));
        }
      case CallRemoveAll => PostAccounts(s, RemoveAll);
      case CallPutData(d, size) => PostAccounts(s, PutData(d, size));
      case CallPutNack(n, size) => PostAccounts(s, PutNack(n, size));
      case CallSetFilter(prefix, loopback) =>
        var t := SetFilter(Filter(s.lastFilterId + 1, prefix, loopback));
        PostAccounts(s, t);
        FiltersAccount(Post(s, t), s.filters, s.lastFilterId + 1);
      case CallUnsetFilter(id) => PostAccounts(s, UnsetFilter(id));
      case CallShutdown => PostAccounts(s, Shutdown);
    }
  }

  lemma PopAccounts(s: State)
    requires Accounts(s) && s.tasks != [] && !s.tasks[0].Express?
    ensures Accounts(s.(tasks := s.tasks[1..]))
  {
    hide Called;
    QueueCons(s.tasks);
  }

  lemma {:induction false} RunAccounts(es: seq<Event>)
    ensures Accounts(Run(INITIAL, es))
  {
    hide Inv, Accounts, Step;
    if es == [] {
      InitialAccounts();
    } else {
      InitialInv();
      RunKeeps(INITIAL, es[..|es| - 1]);
      RunAccounts(es[..|es| - 1]);
      StepAccounts(Run(INITIAL, es[..|es| - 1]), es[|es| - 1]);
    }
  }

  lemma InitialAccounts()
    ensures Accounts(INITIAL)
  {
  }

  /** The positions of the log at which an identifier is called back. */
  ghost function CallsOf(log: seq<Output>, id: nat): set<nat> {
    set i: nat | i < |log| && CallbackId(log[i]) == id
  }

  /**
   In every run an Interest expressed with all callbacks that is neither queued nor in the table has
   been called back exactly once, unless a cancellation, a removal of everything, a shutdown or an
   oversized packet took it out of the table; then it has not been called back at all.
   */
  lemma ExactlyOneCallback(es: seq<Event>, id: nat)
    requires var s := Run(INITIAL, es); Wants(s, id) && id !in Live(s)
    ensures var s := Run(INITIAL, es);
            |CallsOf(s.log, id)| == if id in s.removed then 0 else 1
  {
    hide Run, TableOk, QueueOk, Answers;
    InitialInv();
    RunKeeps(INITIAL, es);
    RunAccounts(es);
    var s := Run(INITIAL, es);
    if Called(s.log, id) {
      var o :| o in s.log && CallbackId(o) == id;
      var i :| 0 <= i < |s.log| && s.log[i] == o;
      assert CallsOf(s.log, id) == {i};
    } else {
      forall i: nat | i < |s.log|
        ensures CallbackId(s.log[i]) != id
      {
        assert s.log[i] in s.log;
      }
      assert CallsOf(s.log, id) == {};
    }
  }
}
