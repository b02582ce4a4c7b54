/** The Face's tables and event handlers, each proved to take the step of the state machine. */
module Face {
  import opened Wrappers
  import opened Tlv
  import opened Names
  import opened Matching
  import opened PendingInterests
  import opened ReflexiveNames
  import opened FaceRuns

  class Face {
    /** The pending-Interest table, in the order of its identifiers. */
    var pending: seq<Pending>
    var lastId: nat
    var filters: seq<Filter>
    var lastFilterId: nat
    var tasks: seq<Task>
    /** Callbacks invoked and packets sent. */
    var log: seq<Output>
    ghost var expressed: map<nat, Request>
    ghost var removed: set<nat>

    ghost function Now(): State
      reads this
    {
      State(pending, lastId, filters, lastFilterId, tasks, log, expressed, removed)
    }

    constructor ()
      ensures Now() == INITIAL && Inv(Now())
    {
      pending, lastId, filters, lastFilterId, tasks, log := [], 0, [], 0, [], [];
      expressed, removed := map[], {};
      new;
      InitialInv();
    }

    // ---- calls from the application ----

    method ExpressInterest(r: Request, size: nat) returns (id: nat)
      requires Inv(Now())
      modifies this
      ensures Inv(Now()) && Now() == Step(old(Now()), CallExpress(r, size))
      ensures id == lastId && id !in old(expressed)
    {
      hide Inv, Grows;
      StepKeeps(Now(), CallExpress(r, size));
      NextId(Now());
      id := lastId + 1;
      lastId := id;
      expressed := expressed[id := r];
      tasks := tasks + [Express(id, r, size)];
    }

    /** The handle is one that `ExpressInterest` gave out. */
    method Cancel(id: nat)
      requires Inv(Now()) && id in expressed
      modifies this
      ensures Inv(Now()) && Now() == Step(old(Now()), CallCancel(id))
    {
      StepKeeps(Now(), CallCancel(id));
      tasks := tasks + [RemovePending(id)];
    }

    method PutDataPacket(data: Data, size: nat)
      requires Inv(Now())
      modifies this
      ensures Inv(Now()) && Now() == Step(old(Now()), CallPutData(data, size))
    {
      StepKeeps(Now(), CallPutData(data, size));
      tasks := tasks + [PutData(data, size)];
    }

    method PutNackPacket(nack: Nack, size: nat)
      requires Inv(Now())
      modifies this
      ensures Inv(Now()) && Now() == Step(old(Now()), CallPutNack(nack, size))
    {
      StepKeeps(Now(), CallPutNack(nack, size));
      tasks := tasks + [PutNack(nack, size)];
    }

    // ---- the event loop ----

    /** Runs the oldest posted task; `shutsDown` as in the event. */
    method RunOne(shutsDown: bool)
      requires Inv(Now()) && tasks != []
      modifies this
      ensures Inv(Now()) && Now() == Step(old(Now()), RunTask(shutsDown))
    {
      hide Inv, Grows, RunExpress, Satisfy, NackRecords, Send, ShouldSendData, OutNack, WithoutFilter, PutFilter;
      StepKeeps(Now(), RunTask(shutsDown));
      var task := tasks[0];
      tasks := tasks[1..];
      match task {
        case Express(id, r, size) => DoExpress(id, r, size, shutsDown);
        case RemovePending(id) =>
          removed := removed + Ids(pending) * {id};
          Erase(id);
        case RemoveAll => Clear();
        case PutData(d, size) =>
          var shouldSend := SatisfyPendingInterests(d);
          if shouldSend {
            DoSend(SentData(d), size, shutsDown);
          }
        case PutNack(n, size) =>
          var out := NackPendingInterests(n);
          if out.Some? {
            DoSend(SentNack(out.value), size, shutsDown);
          }
        case SetFilter(f) => filters := PutFilter(filters, f);
        case UnsetFilter(id) => filters := WithoutFilter(filters, id);
        case Shutdown => Clear();
      }
    }

    /** The record is put and counted before the packet is encoded, which may throw. */
    method DoExpress(id: nat, r: Request, size: nat, shutsDown: bool)
      modifies this
      ensures Now() == RunExpress(old(Now()), id, r, size, shutsDown)
    {
      hide Dispatched, DispatchLog, Put;
      var p := NewRecord(id, r);
      if size > MAX_NDN_PACKET_SIZE {
        PutRecord(p);
        if shutsDown {
          Clear();
        }
        return;
      }
      log := log + [SentInterest(id, r.query, r.token)];
      var q := DispatchInterest(p);
      PutRecord(q);
    }

    method Clear()
      modifies this
      ensures Now() == Cleared(old(Now()))
    {
      removed := removed + Ids(pending);
      pending := [];
    }

    method DoSend(o: Output, size: nat, shutsDown: bool)
      modifies this
      ensures Now() == Send(old(Now()), o, size, shutsDown)
    {
      if size <= MAX_NDN_PACKET_SIZE {
        log := log + [o];
      } else if shutsDown {
        Clear();
      }
    }

    /** The success of a prefix registration sets the filter at once. */
    method RegisterFilter(prefix: Name, allowsLoopback: bool) returns (id: nat)
      requires Inv(Now())
      modifies this
      ensures Inv(Now()) && Now() == Step(old(Now()), Register(prefix, allowsLoopback)) && id == lastFilterId
    {
      hide Inv, Grows, PutFilter;
      StepKeeps(Now(), Register(prefix, allowsLoopback));
      id := lastFilterId + 1;
      lastFilterId := id;
      filters := PutFilter(filters, Filter(id, prefix, allowsLoopback));
    }

    method ReceiveInterestPacket(query: Query, token: Option<Bytes>)
      requires Inv(Now())
      modifies this
      ensures Inv(Now()) && Now() == Step(old(Now()), ReceiveInterest(query, token))
    {
      hide Inv, Dispatched, DispatchLog, Put, Grows;
      StepKeeps(Now(), ReceiveInterest(query, token));
      lastId := lastId + 1;
      var p := DispatchInterest(NewPending(lastId, Forwarder, query, token, {}));
      PutRecord(p);
      assert old(log) + [] == old(log);
    }

    method ReceiveDataPacket(data: Data)
      requires Inv(Now())
      modifies this
      ensures Inv(Now()) && Now() == Step(old(Now()), ReceiveData(data))
    {
      hide Inv;
      StepKeeps(Now(), ReceiveData(data));
      var _ := SatisfyPendingInterests(data);
    }

    method ReceiveNackPacket(nack: Nack)
      requires Inv(Now())
      modifies this
      ensures Inv(Now()) && Now() == Step(old(Now()), ReceiveNack(nack))
    {
      hide Inv;
      StepKeeps(Now(), ReceiveNack(nack));
      var _ := NackPendingInterests(nack);
    }

    /** A record's lifetime is over; records that left the table have no timer any more. */
    method TimeoutRecord(k: nat)
      requires Inv(Now()) && k < |pending|
      modifies this
      ensures Inv(Now()) && Now() == Step(old(Now()), Timeout(old(pending)[k].id))
    {
      hide LogOk, QueueOk, RecordOk, Ascending, Without, Grows, RecordOf;
      var p := pending[k];
      StepKeeps(Now(), Timeout(p.id));
      RecordOfUnique(pending, k);
      log := log + Notify(p, OnTimeout, TimeoutCallback(p.id));
      Erase(p.id);
    }

    // ---- the tables ----

    /** `RecordContainer::put` for an identifier that is not in the table. */
    method PutRecord(p: Pending)
      modifies `pending
      ensures pending == Put(old(pending), p)
    {
      hide Put;
      var ps, i := pending, 0;
      while i < |ps| && ps[i].id <= p.id
        invariant 0 <= i <= |ps|
        invariant ps[..i] + Put(ps[i..], p) == Put(ps, p)
      {
        PutLater(ps[..i], ps[i..], p);
        assert ps[..i + 1] == ps[..i] + [ps[i]];
        i := i + 1;
      }
      PutHere(ps[i..], p);
      pending := ps[..i] + ([p] + ps[i..]);
    }

    method Erase(id: nat)
      modifies `pending
      ensures pending == Without(old(pending), id)
    {
      var i := 0;
      while i < |pending|
        invariant 0 <= i <= |pending|
        invariant pending[..i] + Without(pending[i..], id) == Without(old(pending), id)
        decreases |pending| - i
      {
        if pending[i].id == id {
          Drop(pending, i);
          pending := pending[..i] + pending[i + 1..];
        } else {
          Keep(pending[..i], pending[i], Without(pending[i + 1..], id));
          assert pending[..i + 1] == pending[..i] + [pending[i]];
          i := i + 1;
        }
      }
      assert pending[..i] + [] == pending;
    }

    /** Removes every record the Data satisfies; tells whether the Data is to go to the forwarder. */
    method SatisfyPendingInterests(d: Data) returns (shouldSend: bool)
      modifies `pending, `log
      ensures Now() == Satisfy(old(Now()), d)
      ensures shouldSend <==> ShouldSendData(old(pending), d)
    {
      hide MatchesData, Unsatisfied, DataCallbacks, Found;
      var hasAppMatch, hasForwarderMatch := false, false;
      var i := 0;
      while i < |pending|
        invariant 0 <= i <= |pending|
        invariant pending[..i] + Unsatisfied(pending[i..], d) == Unsatisfied(old(pending), d)
        invariant log + DataCallbacks(pending[i..], d) == old(log) + DataCallbacks(old(pending), d)
        invariant Found(hasAppMatch, App, pending[i..], d) <==> Found(false, App, old(pending), d)
        invariant Found(hasForwarderMatch, Forwarder, pending[i..], d)
                  <==> Found(false, Forwarder, old(pending), d)
        decreases |pending| - i
      {
        var p := pending[i];
        FoundCons(hasAppMatch, App, pending[i..], d);
        FoundCons(hasForwarderMatch, Forwarder, pending[i..], d);
        SatisfyHead(pending[..i], log, pending[i..], d);
        if !MatchesData(p.query, d) {
          assert pending[..i + 1] == pending[..i] + [p];
          i := i + 1;
        } else {
          if p.origin == App {
            hasAppMatch := true;
          } else {
            hasForwarderMatch := true;
          }
          Drop(pending, i);
          log := log + Notify(p, OnData, DataCallback(p.id, d));
          pending := pending[..i] + pending[i + 1..];
        }
      }
      SatisfyNone(hasAppMatch, hasForwarderMatch, d);
      FoundBoth(old(pending), d);
      assert pending[..i] + [] == pending;
      shouldSend := hasForwarderMatch || !hasAppMatch;
    }

    /** Records the Nack everywhere; the result is the Nack to send to the forwarder, if any. */
    method NackPendingInterests(n: Nack) returns (outNack: Option<Nack>)
      modifies `pending, `log
      ensures Now() == NackRecords(old(Now()), n)
      ensures outNack == OutNack(old(pending), n)
    {
      hide RecordNack;
      outNack := None;
      var i := 0;
      while i < |pending|
        invariant 0 <= i <= |pending|
        invariant pending[..i] + AfterNack(pending[i..], n) == AfterNack(old(pending), n)
        invariant log + NackCallbacks(pending[i..], n) == old(log) + NackCallbacks(old(pending), n)
        invariant Later(outNack, OutNack(pending[i..], n)) == OutNack(old(pending), n)
        decreases |pending| - i
      {
        var p := pending[i];
        var (head, out) := NackOne(p, n);
        if out.None? {
          Keep(pending[..i], head[0], AfterNack(pending[i + 1..], n));
          assert pending[i := head[0]][..i + 1] == pending[..i] + [head[0]];
          pending := pending[i := head[0]];
          i := i + 1;
        } else {
          if p.origin == Forwarder {
            outNack := out;
          }
          Drop(pending, i);
          Say(log, Notify(p, OnNack, NackCallback(p.id, out.value)), NackCallbacks(pending[i + 1..], n));
          log := log + Notify(p, OnNack, NackCallback(p.id, out.value));
          pending := pending[..i] + pending[i + 1..];
        }
      }
      assert pending[..i] + [] == pending;
    }

    /** Calls every matching filter, counting each as a destination. */
    method DispatchInterest(entry: Pending) returns (p: Pending)
      modifies `log
      ensures p == Dispatched(filters, entry)
      ensures log == old(log) + DispatchLog(filters, entry)
    {
      hide FilterMatches;
      p := entry;
      for i := 0 to |filters|
        invariant Dispatched(filters[i..], p) == Dispatched(filters, entry)
        invariant log + DispatchLog(filters[i..], p) == old(log) + DispatchLog(filters, entry)
      {
        var matches := Accepts(filters[i], p);
        if matches {
          var call := InterestCallback(filters[i].id, p.query, p.token);
          Say(log, [call], DispatchLog(filters[i + 1..], p));
          log := log + [call];
          ForwardingDispatch(filters[i + 1..], p);
          p := RecordForwarding(p);
        }
      }
    }

    method Accepts(f: Filter, p: Pending) returns (r: bool)
      ensures r <==> FilterMatches(f, p)
    {
      if p.origin != Forwarder && !f.allowsLoopback {
        return false;
      }
      r := DoesMatch(f.prefix, None, p.query.name);
    }
  }

  // ---- list bookkeeping ----

  lemma Keep(kept: seq<Pending>, p: Pending, rest: seq<Pending>)
    ensures kept + ([p] + rest) == kept + [p] + rest
  {
  }

  lemma PutLater(kept: seq<Pending>, ps: seq<Pending>, p: Pending)
    requires ps != [] && ps[0].id <= p.id
    ensures kept + Put(ps, p) == kept + [ps[0]] + Put(ps[1..], p)
  {
    Keep(kept, ps[0], Put(ps[1..], p));
  }

  lemma PutHere(ps: seq<Pending>, p: Pending)
    requires ps != [] ==> p.id < ps[0].id
    ensures Put(ps, p) == [p] + ps
  {
  }

  lemma SatisfyHead(kept: seq<Pending>, log: seq<Output>, ps: seq<Pending>, d: Data)
    requires ps != []
    ensures MatchesData(ps[0].query, d) ==> Unsatisfied(ps, d) == Unsatisfied(ps[1..], d)
    ensures MatchesData(ps[0].query, d) ==>
              log + DataCallbacks(ps, d)
              == log + Notify(ps[0], OnData, DataCallback(ps[0].id, d)) + DataCallbacks(ps[1..], d)
    ensures !MatchesData(ps[0].query, d) ==>
              kept + Unsatisfied(ps, d) == kept + [ps[0]] + Unsatisfied(ps[1..], d)
    ensures !MatchesData(ps[0].query, d) ==> DataCallbacks(ps, d) == DataCallbacks(ps[1..], d)
  {
    hide MatchesData, Notify;
    Keep(kept, ps[0], Unsatisfied(ps[1..], d));
    Say(log, Notify(ps[0], OnData, DataCallback(ps[0].id, d)), DataCallbacks(ps[1..], d));
  }

  lemma SatisfyNone(app: bool, forwarder: bool, d: Data)
    ensures Unsatisfied([], d) == [] && DataCallbacks([], d) == []
    ensures Found(app, App, [], d) <==> app
    ensures Found(forwarder, Forwarder, [], d) <==> forwarder
  {
  }

  lemma FoundBoth(ps: seq<Pending>, d: Data)
    ensures ShouldSendData(ps, d) <==> Found(false, Forwarder, ps, d) || !Found(false, App, ps, d)
  {
    hide MatchesData;
  }

  lemma Drop(ps: seq<Pending>, i: nat)
    requires i < |ps|
    ensures var less := ps[..i] + ps[i + 1..]; less[..i] == ps[..i] && less[i..] == ps[i..][1..]
  {
  }

  lemma Say(log: seq<Output>, now: seq<Output>, rest: seq<Output>)
    ensures log + (now + rest) == log + now + rest
  {
  }

  function Later(earlier: Option<Nack>, later: Option<Nack>): Option<Nack> {
    if later.Some? then later else earlier
  }

  predicate Found(already: bool, origin: Origin, ps: seq<Pending>, d: Data) {
    already || exists p | p in ps :: MatchesData(p.query, d) && p.origin == origin
  }

  lemma FoundCons(already: bool, origin: Origin, ps: seq<Pending>, d: Data)
    requires ps != []
    ensures Found(already, origin, ps, d)
            <==> Found(already || (MatchesData(ps[0].query, d) && ps[0].origin == origin), origin, ps[1..], d)
  {
    hide MatchesData;
    assert ps == [ps[0]] + ps[1..];
  }

  /** Counting a destination does not change which filters match. */
  lemma {:induction false} ForwardingDispatch(fs: seq<Filter>, p: Pending)
    ensures DispatchLog(fs, RecordForwarding(p)) == DispatchLog(fs, p)
  {
    if fs != [] {
      ForwardingDispatch(fs[1..], p);
    }
  }

  lemma {:induction false} RecordOfUnique(ps: seq<Pending>, k: nat)
    requires Ascending(ps) && k < |ps|
    ensures RecordOf(ps, ps[k].id) == ps[k]
  {
    if k > 0 {
      assert ps[k] == ps[1..][k - 1];
      RecordOfUnique(ps[1..], k - 1);
    }
  }
}
