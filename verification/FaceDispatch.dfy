/**
 What a Face does with the packets it is given, exactly: which filters it calls for an Interest, and
 what of the application's Data and Nacks it passes on to the forwarder.
 */
module FaceDispatch {
  import opened Wrappers
  import opened Tlv
  import opened Names
  import opened Matching
  import opened PendingInterests
  import opened ReflexiveNames
  import opened FaceRuns

  // ---- filter identifiers ----

  predicate AscendingFilters(fs: seq<Filter>) {
    forall i, j | 0 <= i < j < |fs| :: fs[i].id < fs[j].id
  }

  predicate HasFilter(fs: seq<Filter>, id: nat) {
    exists f | f in fs :: f.id == id
  }

  /** Filters are in order of their identifiers, and those still to be set have identifiers of their own. */
  ghost predicate FiltersOk(s: State) {
    && AscendingFilters(s.filters)
    && (forall f | f in s.filters :: 0 < f.id <= s.lastFilterId)
    && (forall t | t in s.tasks && t.SetFilter? ::
          0 < t.filter.id <= s.lastFilterId && !HasFilter(s.filters, t.filter.id))
    && (forall i, j | 0 <= i < j < |s.tasks| && s.tasks[i].SetFilter? && s.tasks[j].SetFilter? ::
          s.tasks[i].filter.id != s.tasks[j].filter.id)
  }

  lemma {:induction false} PutFilterIs(fs: seq<Filter>, f: Filter)
    requires AscendingFilters(fs) && !HasFilter(fs, f.id)
    ensures AscendingFilters(PutFilter(fs, f))
    ensures forall g :: g in PutFilter(fs, f) <==> g in fs || g == f
  {
    if fs != [] && fs[0].id <= f.id {
      var rest := fs[1..];
      assert fs[0] in fs && fs[0].id < f.id;
      PutFilterIs(rest, f);
      var r := PutFilter(rest, f);
      assert PutFilter(fs, f) == [fs[0]] + r;
      forall j | 0 <= j < |r|
        ensures fs[0].id < r[j].id
      {
        assert r[j] in r;
      }
      assert fs == [fs[0]] + rest;
    } else {
      assert PutFilter(fs, f) == [f] + fs;
    }
  }

  lemma {:induction false} WithoutFilterIs(fs: seq<Filter>, id: nat)
    requires AscendingFilters(fs)
    ensures AscendingFilters(WithoutFilter(fs, id))
    ensures forall g :: g in WithoutFilter(fs, id) <==> g in fs && g.id != id
  {
    if fs != [] {
      var rest := fs[1..];
      WithoutFilterIs(rest, id);
      var r := WithoutFilter(rest, id);
      forall j | 0 <= j < |r|
        ensures fs[0].id < r[j].id
      {
        assert r[j] in r;
      }
      assert fs == [fs[0]] + rest;
    }
  }

  /** The filters of a step that sets or unsets none. */
  lemma SameFilters(s: State, s': State)
    requires FiltersOk(s) && s'.filters == s.filters && s'.lastFilterId == s.lastFilterId
    requires s'.tasks == s.tasks || (s.tasks != [] && s'.tasks == s.tasks[1..])
             || exists t: Task :: !t.SetFilter? && s'.tasks == s.tasks + [t]
    ensures FiltersOk(s')
  {
  }

  lemma TaskFilters(s: State, shutsDown: bool)
    requires FiltersOk(s) && s.tasks != []
    ensures FiltersOk(Step(s, RunTask(shutsDown)))
  {
    hide Put, Dispatched, DispatchLog, Unsatisfied, AfterNack, OutNack, Without, ShouldSendData, PutFilter,
      WithoutFilter, DataCallbacks, NackCallbacks, AscendingFilters;
    var t, s1 := s.tasks[0], s.(tasks := s.tasks[1..]);
    var s' := Step(s, RunTask(shutsDown));
    SameFilters(s, s1);
    if t.SetFilter? {
      assert t in s.tasks;
      PutFilterIs(s.filters, t.filter);
      forall u | u in s'.tasks && u.SetFilter?
        ensures !HasFilter(s'.filters, u.filter.id)
      {
        var i :| 0 <= i < |s.tasks[1..]| && s.tasks[1..][i] == u;
        assert s.tasks[i + 1] == u;
      }
    } else if t.UnsetFilter? {
      WithoutFilterIs(s.filters, t.id);
    } else {
      SameFilters(s1, s');
    }
  }

  lemma RegisteredFilters(s: State, prefix: Name, loopback: bool)
    requires FiltersOk(s)
    ensures FiltersOk(Step(s, Register(prefix, loopback)))
  {
    hide PutFilter, AscendingFilters;
    PutFilterIs(s.filters, Filter(s.lastFilterId + 1, prefix, loopback));
  }

  lemma PostedFilters(s: State, prefix: Name, loopback: bool)
    requires FiltersOk(s)
    ensures FiltersOk(Step(s, CallSetFilter(prefix, loopback)))
  {
    hide AscendingFilters;
    var f := Filter(s.lastFilterId + 1, prefix, loopback);
    assert Step(s, CallSetFilter(prefix, loopback)).tasks == s.tasks + [SetFilter(f)];
  }

  lemma StepFilters(s: State, e: Event)
    requires FiltersOk(s)
    ensures FiltersOk(Step(s, e))
  {
    hide Put, Dispatched, DispatchLog, Unsatisfied, AfterNack, Without, DataCallbacks, NackCallbacks, PutFilter,
      Perform, FiltersOk;
    match e {
      case RunTask(shutsDown) =>
        if s.tasks != [] {
          TaskFilters(s, shutsDown);
        }
      case Register(prefix, loopback) => RegisteredFilters(s, prefix, loopback);
      case CallSetFilter(prefix, loopback) => PostedFilters(s, prefix, loopback);
      case _ => SameFilters(s, Step(s, e));
    }
  }

  /** In every run filter identifiers are distinct, and so are the invariants of the table kept. */
  lemma {:induction false} RunFilters(es: seq<Event>)
    ensures FiltersOk(Run(INITIAL, es)) && Inv(Run(INITIAL, es))
  {
    hide Step, FiltersOk, Inv;
    InitialInv();
    RunKeeps(INITIAL, es);
    if es == [] {
      NoFilters();
    } else {
      RunFilters(es[..|es| - 1]);
      StepFilters(Run(INITIAL, es[..|es| - 1]), es[|es| - 1]);
    }
  }

  lemma NoFilters()
    ensures FiltersOk(INITIAL)
  {
  }

  /** In every run a filter is there once its task has run or its registration succeeded, until it is unset. */
  lemma FiltersInRunIff(es: seq<Event>, e: Event, g: Filter)
    ensures var s := Run(INITIAL, es);
            var s' := Step(s, e);
            g in s'.filters <==>
              if e.Register? then g in s.filters || g == Filter(s.lastFilterId + 1, e.prefix, e.allowsLoopback)
              else if e.RunTask? && s.tasks != [] && s.tasks[0].SetFilter? then g in s.filters || g == s.tasks[0].filter
              else if e.RunTask? && s.tasks != [] && s.tasks[0].UnsetFilter?
              then g in s.filters && g.id != s.tasks[0].id
              else g in s.filters
  {
    hide Put, Dispatched, DispatchLog, Unsatisfied, AfterNack, OutNack, Without, ShouldSendData, PutFilter,
      WithoutFilter, DataCallbacks, NackCallbacks, AscendingFilters, Run, Inv;
    RunFilters(es);
    var s := Run(INITIAL, es);
    if e.Register? {
      PutFilterIs(s.filters, Filter(s.lastFilterId + 1, e.prefix, e.allowsLoopback));
    } else if e.RunTask? && s.tasks != [] {
      var t := s.tasks[0];
      assert t in s.tasks;
      if t.SetFilter? {
        PutFilterIs(s.filters, t.filter);
      } else if t.UnsetFilter? {
        WithoutFilterIs(s.filters, t.id);
      }
    }
  }

  // ---- Interests ----

  /** The filter takes an Interest of that name; one that the application itself expressed only with loopback. */
  predicate Takes(f: Filter, name: Name, own: bool) {
    Matches(f.prefix, name) && (own ==> f.allowsLoopback)
  }

  /** Exactly the filters that take the Interest are called, each once, in the order of their identifiers. */
  ghost predicate CallsExactly(out: seq<Output>, fs: seq<Filter>, q: Query, token: Option<Bytes>, own: bool) {
    && (forall f | f in fs :: InterestCallback(f.id, q, token) in out <==> Takes(f, q.name, own))
    && (forall o | o in out :: o.InterestCallback? && HasFilter(fs, o.filter) && o.query == q && o.token == token)
    && (forall i, j | 0 <= i < j < |out| ::
          out[i].InterestCallback? && out[j].InterestCallback? && out[i].filter < out[j].filter)
  }

  lemma {:induction false} DispatchCalls(fs: seq<Filter>, p: Pending)
    requires AscendingFilters(fs)
    ensures CallsExactly(DispatchLog(fs, p), fs, p.query, p.token, p.origin.App?)
  {
    hide Matches, CallsExactly;
    if fs == [] {
      CallsNobody(p.query, p.token, p.origin.App?);
    } else {
      var rest := fs[1..];
      DispatchCalls(rest, p);
      CallsOneMore(fs[0], rest, DispatchLog(rest, p), p.query, p.token, p.origin.App?);
      assert fs == [fs[0]] + rest;
    }
  }

  lemma CallsNobody(q: Query, token: Option<Bytes>, own: bool)
    ensures CallsExactly([], [], q, token, own)
  {
  }

  lemma CallsOneMore(f: Filter, fs: seq<Filter>, out: seq<Output>, q: Query, token: Option<Bytes>, own: bool)
    requires CallsExactly(out, fs, q, token, own) && forall g | g in fs :: f.id < g.id
    ensures var head := if Takes(f, q.name, own) then [InterestCallback(f.id, q, token)] else [];
            CallsExactly(head + out, [f] + fs, q, token, own)
  {
    hide Takes;
    var head := if Takes(f, q.name, own) then [InterestCallback(f.id, q, token)] else [];
    forall j | 0 <= j < |out|
      ensures out[j].InterestCallback? && f.id < out[j].filter
    {
      assert out[j] in out;
      var g :| g in fs && g.id == out[j].filter;
    }
    forall g | g in [f] + fs
      ensures InterestCallback(g.id, q, token) in head + out <==> Takes(g, q.name, own)
    {
      if g in fs {
        assert InterestCallback(g.id, q, token) !in head;
      } else {
        assert InterestCallback(f.id, q, token) !in out;
      }
    }
    forall o | o in head + out
      ensures o.InterestCallback? && HasFilter([f] + fs, o.filter) && o.query == q && o.token == token
    {
      if o in out {
        var g :| g in fs && g.id == o.filter;
        assert g in [f] + fs;
      } else {
        assert f in [f] + fs;
      }
    }
  }

  lemma {:induction false} DispatchCounts(fs: seq<Filter>, p: Pending)
    ensures Dispatched(fs, p).forwarded == p.forwarded + |DispatchLog(fs, p)|
    ensures Dispatched(fs, p).id == p.id && Dispatched(fs, p).query == p.query && Dispatched(fs, p).origin == p.origin
    decreases |fs|
  {
    hide Matches;
    if fs != [] {
      var p1 := if FilterMatches(fs[0], p) then RecordForwarding(p) else p;
      DispatchCounts(fs[1..], p1);
      SameLog(fs[1..], p, p1);
    }
  }

  lemma {:induction false} SameLog(fs: seq<Filter>, p: Pending, p1: Pending)
    requires p1.origin == p.origin && p1.query == p.query && p1.token == p.token
    ensures DispatchLog(fs, p1) == DispatchLog(fs, p)
  {
    hide Matches;
    if fs != [] {
      SameLog(fs[1..], p, p1);
    }
  }

  lemma {:induction false} PutHasIt(ps: seq<Pending>, p: Pending)
    ensures p in Put(ps, p)
  {
    if ps != [] && p.id >= ps[0].id {
      PutHasIt(ps[1..], p);
    }
  }

  /** The record is in the table and was sent to `n` destinations. */
  ghost predicate SentTo(s: State, id: nat, q: Query, n: nat) {
    exists p | p in s.pending :: p.id == id && p.query == q && p.forwarded == n
  }

  /**
   In every run an Interest from the forwarder is passed to exactly the filters that take its name,
   each once, and its record counts them.
   */
  lemma InterestCallsExactly(es: seq<Event>, q: Query, token: Option<Bytes>)
    ensures var s := Run(INITIAL, es);
            var s' := Step(s, ReceiveInterest(q, token));
            && s.log <= s'.log
            && CallsExactly(s'.log[|s.log|..], s.filters, q, token, false)
            && SentTo(s', s.lastId + 1, q, |s'.log| - |s.log|)
  {
    hide Put, Dispatched, DispatchLog, Run, Inv, CallsExactly, AscendingFilters;
    RunFilters(es);
    var s := Run(INITIAL, es);
    var p := NewPending(s.lastId + 1, PendingInterests.Forwarder, q, token, {});
    DispatchCalls(s.filters, p);
    DispatchCounts(s.filters, p);
    PutHasIt(s.pending, Dispatched(s.filters, p));
    var out := DispatchLog(s.filters, p);
    assert s.log + [] + out == s.log + out;
    assert (s.log + out)[|s.log|..] == out;
  }

  /**
   In every run, when the task of an expressed Interest runs, the Interest is sent and passed to
   exactly the filters that allow loopback and take its name; an oversized one is neither.
   */
  lemma ExpressCallsExactly(es: seq<Event>, shutsDown: bool)
    requires var s := Run(INITIAL, es); s.tasks != [] && s.tasks[0].Express?
    ensures var s := Run(INITIAL, es);
            var s', t := Step(s, RunTask(shutsDown)), s.tasks[0];
            if t.size > MAX_NDN_PACKET_SIZE then
              && s'.log == s.log
              && if shutsDown then s'.pending == [] else SentTo(s', t.id, t.request.query, 1)
            else && s.log <= s'.log && |s'.log| > |s.log|
                 && s'.log[|s.log|] == SentInterest(t.id, t.request.query, t.request.token)
                 && CallsExactly(s'.log[|s.log| + 1..], s.filters, t.request.query, t.request.token, true)
                 && SentTo(s', t.id, t.request.query, |s'.log| - |s.log|)
  {
    hide Put, Dispatched, DispatchLog, Run, Inv, CallsExactly, AscendingFilters;
    RunFilters(es);
    var s := Run(INITIAL, es);
    var t := s.tasks[0];
    if t.size <= MAX_NDN_PACKET_SIZE {
      var p := NewRecord(t.id, t.request);
      DispatchCalls(s.filters, p);
      DispatchCounts(s.filters, p);
      PutHasIt(s.pending, Dispatched(s.filters, p));
      var sent, out := SentInterest(t.id, t.request.query, t.request.token), DispatchLog(s.filters, p);
      LogParts(s.log, sent, out);
    } else {
      PutHasIt(s.pending, NewRecord(t.id, t.request));
    }
  }

  lemma LogParts(log: seq<Output>, o: Output, out: seq<Output>)
    ensures log <= log + [o] + out && |log + [o] + out| == |log| + 1 + |out|
    ensures (log + [o] + out)[|log|] == o && (log + [o] + out)[|log| + 1..] == out
  {
  }

  // ---- Data from the application ----

  /** What a task adds to the log. */
  function Added(s: State, s': State): seq<Output>
    requires s.log <= s'.log
  {
    s'.log[|s.log|..]
  }

  /**
   In every run Data that the application puts takes out exactly the records it matches and calls
   their applications; it goes to the forwarder if and only if it fits and a record of the forwarder
   matches, or no record of the application does.
   */
  lemma PutDataExactly(es: seq<Event>, shutsDown: bool, d: Data, size: nat)
    requires var s := Run(INITIAL, es); s.tasks != [] && s.tasks[0] == PutData(d, size)
    ensures var s := Run(INITIAL, es);
            var s' := Step(s, RunTask(shutsDown));
            && s.log <= s'.log
            && (SentData(d) in Added(s, s') <==>
                  && size <= MAX_NDN_PACKET_SIZE
                  && ((exists p | p in s.pending :: p.origin.Forwarder? && MatchesData(p.query, d))
                      || (forall p | p in s.pending && p.origin.App? :: !MatchesData(p.query, d))))
            && (forall id :: DataCallback(id, d) in Added(s, s') <==> exists p | p in s.pending :: WantsData(p, id, d))
            && (forall p | p in s'.pending :: p in s.pending && !MatchesData(p.query, d))
            && (if size > MAX_NDN_PACKET_SIZE && shutsDown && ShouldSendData(s.pending, d) then s'.pending == []
                else forall p | p in s.pending && !MatchesData(p.query, d) :: p in s'.pending)
  {
    hide Run, Inv, MatchesData, DataCallbacks, Unsatisfied;
    var s := Run(INITIAL, es);
    var s' := Step(s, RunTask(shutsDown));
    var out := DataCallbacks(s.pending, d);
    UnsatisfiedExactly(s.pending, d);
    forall id
      ensures DataCallback(id, d) in out <==> exists p | p in s.pending :: WantsData(p, id, d)
    {
      DataCallbacksExactly(s.pending, d, id);
    }
    NothingSent(s.pending, d);
    assert s'.log == s.log + out || s'.log == s.log + out + [SentData(d)];
    AddedIs(s.log, out, SentData(d));
  }

  lemma AddedIs(log: seq<Output>, out: seq<Output>, o: Output)
    ensures (log + out)[|log|..] == out && (log + out + [o])[|log|..] == out + [o]
    ensures log <= log + out && log <= log + out + [o]
  {
  }

  lemma {:induction false} NothingSent(ps: seq<Pending>, d: Data)
    ensures forall o | o in DataCallbacks(ps, d) :: o.DataCallback?
  {
    hide MatchesData;
    if ps != [] {
      NothingSent(ps[1..], d);
    }
  }

  // ---- Nacks ----

  /** The Nack releases the record: it is for its Interest and the last one outstanding. */
  predicate Releases(p: Pending, n: Nack) {
    n.query == p.query && |p.nacks| + 1 >= p.forwarded
  }

  /** The record had one destination less to hear from. */
  predicate HasRecorded(p: Pending, n: Nack, p': Pending) {
    p'.id == p.id && p'.origin == p.origin && p'.query == p.query && p'.forwarded == p.forwarded
    && p'.nacks == p.nacks + [n]
  }

  lemma NackOneIs(p: Pending, n: Nack)
    requires Tracked(p)
    ensures var (ps, out) := NackOne(p, n);
            && (out.Some? <==> Releases(p, n))
            && (Releases(p, n) ==> ps == [] && IsEarliestLeastSevere(p.nacks + [n], out.value))
            && (n.query != p.query ==> ps == [p])
            && (n.query == p.query && !Releases(p, n) ==> |ps| == 1 && HasRecorded(p, n, ps[0]))
  {
    hide Tracked, IsEarliestLeastSevere;
    NackReleases(p, n);
    NackCounts(p, n);
  }

  /** Who is called back, and with what. */
  ghost predicate WantsNack(p: Pending, id: nat, n: Nack, m: Nack) {
    && p.id == id && p.origin.App? && OnNack in p.callbacks && Releases(p, n)
    && IsEarliestLeastSevere(p.nacks + [n], m)
  }

  lemma {:induction false} NackCallbacksExactly(ps: seq<Pending>, n: Nack, id: nat, m: Nack)
    requires forall p | p in ps :: Tracked(p)
    ensures NackCallback(id, m) in NackCallbacks(ps, n) <==> exists p | p in ps :: WantsNack(p, id, n, m)
    ensures forall o | o in NackCallbacks(ps, n) :: o.NackCallback?
  {
    hide Tracked, IsEarliestLeastSevere, NackOne, Releases;
    if ps != [] {
      var p := ps[0];
      NackCallbacksExactly(ps[1..], n, id, m);
      NackOneIs(p, n);
      var out := NackOne(p, n).1;
      var head := if out.Some? then Notify(p, OnNack, NackCallback(p.id, out.value)) else [];
      assert NackCallbacks(ps, n) == head + NackCallbacks(ps[1..], n);
      if Releases(p, n) && IsEarliestLeastSevere(p.nacks + [n], m) {
        EarliestLeastSevereUnique(p.nacks + [n], m, out.value);
      }
      assert NackCallback(id, m) in head <==> WantsNack(p, id, n, m);
      assert forall r | r in ps :: r == p || r in ps[1..];
    }
  }

  /** What goes to the forwarder: nothing, or what a released record of the forwarder says. */
  lemma {:induction false} OutNackIs(ps: seq<Pending>, n: Nack)
    requires forall p | p in ps :: Tracked(p)
    ensures OutNack(ps, n).Some? <==> exists p | p in ps :: p.origin.Forwarder? && Releases(p, n)
    ensures OutNack(ps, n).Some? ==>
              exists p | p in ps :: p.origin.Forwarder? && Releases(p, n)
                && IsEarliestLeastSevere(p.nacks + [n], OutNack(ps, n).value)
  {
    hide Tracked, IsEarliestLeastSevere, NackOne, Releases;
    if ps != [] {
      OutNackIs(ps[1..], n);
      NackOneIs(ps[0], n);
      assert ps[0] in ps;
      assert forall r | r in ps :: r == ps[0] || r in ps[1..];
    }
  }

  lemma TrackedInRun(s: State)
    requires Inv(s)
    ensures forall p | p in s.pending :: Tracked(p)
  {
    hide QueueOk, LogOk, Tracked;
  }

  /**
   In every run a Nack that the application puts goes to the forwarder if and only if it fits and a
   record that came from the forwarder is released; it is then the earliest least severe Nack of such
   a record. Applications are called back exactly for their own released Interests.
   */
  lemma PutNackExactly(es: seq<Event>, shutsDown: bool, n: Nack, size: nat)
    requires var s := Run(INITIAL, es); s.tasks != [] && s.tasks[0] == PutNack(n, size)
    ensures var s := Run(INITIAL, es);
            var s' := Step(s, RunTask(shutsDown));
            && s.log <= s'.log
            && ((exists o | o in Added(s, s') :: o.SentNack?) <==>
                  size <= MAX_NDN_PACKET_SIZE && exists p | p in s.pending :: p.origin.Forwarder? && Releases(p, n))
            && (forall o | o in Added(s, s') && o.SentNack? ::
                  exists p | p in s.pending :: p.origin.Forwarder? && Releases(p, n)
                    && IsEarliestLeastSevere(p.nacks + [n], o.nack))
            && (forall id, m :: NackCallback(id, m) in Added(s, s') <==>
                                exists p | p in s.pending :: WantsNack(p, id, n, m))
  {
    hide Run, Inv, NackCallbacks, AfterNack, OutNack, IsEarliestLeastSevere, Releases, Tracked, WantsNack;
    InitialInv();
    RunKeeps(INITIAL, es);
    var s := Run(INITIAL, es);
    var s' := Step(s, RunTask(shutsDown));
    TrackedInRun(s);
    var out := NackCallbacks(s.pending, n);
    OutNackIs(s.pending, n);
    forall id, m
      ensures NackCallback(id, m) in out <==> exists p | p in s.pending :: WantsNack(p, id, n, m)
    {
      NackCallbacksExactly(s.pending, n, id, m);
    }
    NackCallbacksExactly(s.pending, n, 0, n);
    var sent := OutNack(s.pending, n);
    var o := SentNack(if sent.Some? then sent.value else n);
    AddedIs(s.log, out, o);
    assert s'.log == if sent.Some? && size <= MAX_NDN_PACKET_SIZE then s.log + out + [o] else s.log + out;
    assert sent.Some? && size <= MAX_NDN_PACKET_SIZE ==> o in Added(s, s');
  }

  lemma {:induction false} AfterNackIs(ps: seq<Pending>, n: Nack, p: Pending)
    requires p in ps && forall r | r in ps :: Tracked(r)
    ensures n.query != p.query ==> p in AfterNack(ps, n)
    ensures n.query == p.query && !Releases(p, n) ==>
              exists p' | p' in AfterNack(ps, n) :: HasRecorded(p, n, p')
  {
    hide Tracked, NackOne, HasRecorded, Releases;
    NackOneIs(p, n);
    if p == ps[0] {
      var head := NackOne(p, n).0;
      assert AfterNack(ps, n) == head + AfterNack(ps[1..], n);
      if n.query == p.query && !Releases(p, n) {
        assert head[0] in AfterNack(ps, n);
      }
    } else {
      AfterNackIs(ps[1..], n, p);
    }
  }

  /**
   In every run a Nack from the forwarder leaves the records of other Interests as they were, is
   counted in those that still wait, and takes out and calls back those it is the last one for.
   */
  lemma NackAnswersExactly(es: seq<Event>, n: Nack, p: Pending)
    requires p in Run(INITIAL, es).pending
    ensures var s := Run(INITIAL, es);
            var s' := Step(s, ReceiveNack(n));
            && s.log <= s'.log
            && (n.query != p.query ==> p in s'.pending)
            && (n.query == p.query && !Releases(p, n) ==>
                  exists p' | p' in s'.pending :: HasRecorded(p, n, p'))
            && (Releases(p, n) ==> p.id !in Ids(s'.pending))
            && (forall m :: NackCallback(p.id, m) in Added(s, s') <==> WantsNack(p, p.id, n, m))
  {
    hide Run, QueueOk, LogOk, NackCallbacks, AfterNack, IsEarliestLeastSevere, Releases, Tracked, WantsNack,
      HasRecorded;
    InitialInv();
    RunKeeps(INITIAL, es);
    var s := Run(INITIAL, es);
    TrackedInRun(s);
    AfterNackIs(s.pending, n, p);
    var out := NackCallbacks(s.pending, n);
    AddedIs(s.log, out, SentNack(n));
    forall m
      ensures NackCallback(p.id, m) in out <==> WantsNack(p, p.id, n, m)
    {
      NackCallbacksExactly(s.pending, n, p.id, m);
      forall r | r in s.pending && WantsNack(r, p.id, n, m)
        ensures r == p
      {
        WantsId(r, p.id, n, m);
        SameId(s.pending, p, r);
      }
    }
    if Releases(p, n) {
      ReleasedGone(s.pending, n, p);
    }
  }

  lemma WantsId(p: Pending, id: nat, n: Nack, m: Nack)
    requires WantsNack(p, id, n, m)
    ensures p.id == id
  {
  }

  lemma {:induction false} ReleasedGone(ps: seq<Pending>, n: Nack, p: Pending)
    requires Ascending(ps) && p in ps && Releases(p, n) && forall r | r in ps :: Tracked(r)
    ensures p.id !in Ids(AfterNack(ps, n))
  {
    hide Tracked, NackOne, Releases;
    var head, rest := NackOne(ps[0], n).0, AfterNack(ps[1..], n);
    IdsAppend(head, rest);
    NackOneId(ps[0], n);
    if p == ps[0] {
      NackOneIs(p, n);
      AfterNackIds(ps[1..], n);
    } else {
      ReleasedGone(ps[1..], n, p);
    }
  }

  lemma NackOneId(p: Pending, n: Nack)
    ensures forall r | r in NackOne(p, n).0 :: r.id == p.id
  {
  }

  lemma {:induction false} AfterNackIds(ps: seq<Pending>, n: Nack)
    ensures Ids(AfterNack(ps, n)) <= Ids(ps)
  {
    hide NackOne;
    if ps != [] {
      AfterNackIds(ps[1..], n);
      NackOneId(ps[0], n);
      IdsAppend(NackOne(ps[0], n).0, AfterNack(ps[1..], n));
      IdsAppend([ps[0]], ps[1..]);
      assert ps == [ps[0]] + ps[1..];
    }
  }

  // ---- timeouts ----

  /** In every run a timeout takes out its own record, and tells its application if that wants to know. */
  lemma TimeoutExactly(es: seq<Event>, id: nat, p: Pending)
    requires p in Run(INITIAL, es).pending
    ensures var s := Run(INITIAL, es);
            var s' := Step(s, Timeout(id));
            && s.log <= s'.log
            && (p.id == id ==> p.id !in Ids(s'.pending))
            && (p.id != id ==> p in s'.pending)
            && (p.id == id ==>
                  Added(s, s') == if p.origin.App? && OnTimeout in p.callbacks then [TimeoutCallback(id)] else [])
  {
    hide Run, QueueOk, LogOk, RecordOk, Without;
    InitialInv();
    RunKeeps(INITIAL, es);
    var s := Run(INITIAL, es);
    if exists r | r in s.pending :: r.id == id {
      WithoutIs(s.pending, id);
      if p.id == id {
        SameId(s.pending, p, RecordOf(s.pending, id));
      }
    }
  }

  lemma {:induction false} WithoutIs(ps: seq<Pending>, id: nat)
    ensures forall p :: p in Without(ps, id) <==> p in ps && p.id != id
  {
    if ps != [] {
      WithoutIs(ps[1..], id);
    }
  }
}
