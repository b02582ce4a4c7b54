/**
 The producer, its Face and the network together: what the Face receives is what the network sent to
 it, and what the Face sends enters the network.
 */
module ReflexiveExchange {
  import opened Wrappers
  import opened Tlv
  import opened Names
  import opened Matching
  import opened PendingInterests
  import opened PitTokens
  import opened Forwarder
  import opened DataForwarding
  import F = FaceRuns
  import P = Producer
  import N = ReflexiveNetwork

  /** The network, the end at which the producer's Face hangs, and the producer's setting. */
  datatype Scene = Scene(link: map<N.End, N.End>, size: nat, home: N.End, producer: P.Setting)

  datatype Whole = Whole(net: N.Net, app: P.System)

  /**
   Anything in the network but at the producer's end, anything at the producer but packets from the
   network, and packets between the two, which may be late, repeated or lost.
   */
  datatype Event =
    | InNetwork(ofNet: N.Event)
    | AtProducer(ofApp: P.Event)
    | InterestToProducer(message: N.Message)
    | InterestFromProducer(interest: F.Output, beyond: Memory, draws: seq<nat>, choice: Choice)
    | DataToProducer(packet: N.DataMessage)
    | DataFromProducer(data: Data, late: Late)

  /** A token as it is on the wire, and as a forwarder reads it there. */
  function Octets(token: Option<nat>): Option<Bytes> {
    if token.Some? then Some(LittleEndian(token.value, TOKEN_SIZE)) else None
  }

  function ReadOff(tag: Option<Bytes>, beyond: Memory): Option<nat> {
    if tag.Some? then Some(FromLittleEndian(Seen(tag.value, beyond))) else None
  }

  predicate IsFromHome(k: Scene, e: N.Event) {
    (e.FromApplication? || e.DataFromApplication?) && e.at == k.home
  }

  predicate IsPacket(e: P.Event) {
    e.AtFace? && (e.event.ReceiveInterest? || e.event.ReceiveData?)
  }

  /** What an event is for the network. */
  function NetEvent(k: Scene, w: Whole, e: Event): Option<N.Event> {
    match e
    case InNetwork(event) => if IsFromHome(k, event) then None else Some(event)
    case InterestFromProducer(o, beyond, draws, choice) =>
      if o in w.app.face.log && o.SentInterest?
      then Some(N.FromApplication(k.home, o.query, ReadOff(o.token, beyond), draws, choice)) else None
    case DataFromProducer(d, late) =>
      if F.SentData(d) in w.app.face.log then Some(N.DataFromApplication(k.home, d, None, late)) else None
    case _ => None
  }

  /** What it is for the producer. */
  function AppEvent(k: Scene, w: Whole, e: Event): Option<P.Event> {
    match e
    case AtProducer(event) => if IsPacket(event) then None else Some(event)
    case InterestToProducer(m) =>
      if m in w.net.sent && m.at == k.home
      then Some(P.AtFace(F.ReceiveInterest(m.query, Octets(m.token)))) else None
    case DataToProducer(m) =>
      if m in w.net.data && m.at == k.home then Some(P.AtFace(F.ReceiveData(m.data))) else None
    case _ => None
  }

  function Step(k: Scene, w: Whole, e: Event): Whole {
    var net, app := NetEvent(k, w, e), AppEvent(k, w, e);
    Whole(if net.Some? then N.Step(k.link, w.net, net.value) else w.net,
          if app.Some? then P.Step(k.producer, w.app, app.value) else w.app)
  }

  function Run(k: Scene, es: seq<Event>): Whole {
    if es == [] then Whole(N.Start(k.size), P.START) else Step(k, Run(k, es[..|es| - 1]), es[|es| - 1])
  }

  lemma NetOneMore(link: map<N.End, N.End>, s: N.Net, ns: seq<N.Event>, e: N.Event)
    ensures N.Run(link, s, []) == s && N.Run(link, s, ns + [e]) == N.Step(link, N.Run(link, s, ns), e)
  {
    hide N.Step;
    assert (ns + [e])[..|ns|] == ns;
  }

  lemma AppOneMore(k: P.Setting, ps: seq<P.Event>, e: P.Event)
    ensures P.Run(k, []) == P.START && P.Run(k, ps + [e]) == P.Step(k, P.Run(k, ps), e)
  {
    hide P.Step;
    assert (ps + [e])[..|ps|] == ps;
  }

  /** Every run of the whole is a run of the network and a run of the producer. */
  lemma {:induction false} RunsProject(k: Scene, es: seq<Event>) returns (ns: seq<N.Event>, ps: seq<P.Event>)
    ensures Run(k, es).net == N.Run(k.link, N.Start(k.size), ns)
    ensures Run(k, es).app == P.Run(k.producer, ps)
  {
    hide N.Step, P.Step, NetEvent, AppEvent, N.Run, P.Run, N.Start;
    ns, ps := [], [];
    if es == [] {
      NetOneMore(k.link, N.Start(k.size), [], N.DropEntry(0, Query([], false, false)));
      AppOneMore(k.producer, [], P.AtFace(F.CallShutdown));
    } else {
      ns, ps := RunsProject(k, es[..|es| - 1]);
      var w, e := Run(k, es[..|es| - 1]), es[|es| - 1];
      if NetEvent(k, w, e).Some? {
        NetOneMore(k.link, N.Start(k.size), ns, NetEvent(k, w, e).value);
        ns := ns + [NetEvent(k, w, e).value];
      }
      if AppEvent(k, w, e).Some? {
        AppOneMore(k.producer, ps, AppEvent(k, w, e).value);
        ps := ps + [AppEvent(k, w, e).value];
      }
    }
  }

  // ---- where the Interests that the producer sees come from ----

  /** The network sent this Interest to the producer's Face. */
  ghost predicate FromNetwork(k: Scene, net: N.Net, q: Query, tag: Option<Bytes>) {
    exists m | m in net.sent :: m.at == k.home && m.query == q && tag == Octets(m.token)
  }

  /** It was expressed on that Face itself, and a filter that allows loopback matched it. */
  ghost predicate FromOwnFace(face: F.State, q: Query, tag: Option<Bytes>) {
    exists id | id in face.expressed :: face.expressed[id].query == q && face.expressed[id].token == tag
  }

  ghost predicate CallbacksOk(k: Scene, w: Whole) {
    forall o | o in w.app.face.log && o.InterestCallback? ::
      FromNetwork(k, w.net, o.query, o.token) || FromOwnFace(w.app.face, o.query, o.token)
  }

  lemma {:induction false} DispatchedAre(fs: seq<F.Filter>, p: Pending)
    ensures forall o | o in F.DispatchLog(fs, p) :: o.InterestCallback? && o.query == p.query && o.token == p.token
  {
    hide F.FilterMatches;
    if fs != [] {
      DispatchedAre(fs[1..], p);
    }
  }

  /** A new Interest callback is for an Interest just received, or for one expressed on the Face. */
  lemma NewCallbacks(f: F.State, e: F.Event, o: F.Output)
    requires F.Inv(f) && o in F.Step(f, e).log && o !in f.log && o.InterestCallback?
    ensures e == F.ReceiveInterest(o.query, o.token) || FromOwnFace(f, o.query, o.token)
  {
    hide F.Perform, F.Put, F.Dispatched, F.DispatchLog, F.Unsatisfied, F.AfterNack, F.Without, F.PutFilter,
      F.DataCallbacks, F.NackCallbacks, F.Inv, FromOwnFace;
    match e {
      case ReceiveInterest(q, token) =>
        DispatchedAre(f.filters, NewPending(f.lastId + 1, PendingInterests.Forwarder, q, token, {}));
      case RunTask(shutsDown) => TaskCallbacks(f, shutsDown, o);
      case ReceiveData(d) => NoInterestCallbacks(f.pending, d, o);
      case ReceiveNack(n) => NoInterestCallbacksNack(f.pending, n, o);
      case _ =>
    }
  }

  lemma TaskCallbacks(f: F.State, shutsDown: bool, o: F.Output)
    requires F.Inv(f) && f.tasks != [] && o.InterestCallback? && o !in f.log
    requires o in F.Perform(f.(tasks := f.tasks[1..]), f.tasks[0], shutsDown).log
    ensures FromOwnFace(f, o.query, o.token)
  {
    hide F.Perform, F.TableOk, F.LogOk, F.Queued;
    var t, g := f.tasks[0], f.(tasks := f.tasks[1..]);
    assert t in f.tasks;
    if t.Express? {
      assert f.expressed[t.id] == t.request;
      ExpressCallbacks(g, t, shutsDown, o);
    } else {
      QuietTask(g, t, shutsDown, o);
    }
  }

  lemma ExpressCallbacks(f: F.State, t: F.Task, shutsDown: bool, o: F.Output)
    requires t.Express? && o.InterestCallback? && o !in f.log && o in F.Perform(f, t, shutsDown).log
    ensures o.query == t.request.query && o.token == t.request.token
  {
    hide F.Put, F.Dispatched, F.DispatchLog;
    DispatchedAre(f.filters, F.NewRecord(t.id, t.request));
  }

  lemma QuietTask(f: F.State, t: F.Task, shutsDown: bool, o: F.Output)
    requires o.InterestCallback? && !t.Express?
    ensures o in F.Perform(f, t, shutsDown).log ==> o in f.log
  {
    hide F.Unsatisfied, F.AfterNack, F.Without, F.ShouldSendData, F.PutFilter, F.WithoutFilter, F.DataCallbacks,
      F.NackCallbacks, F.OutNack;
    match t {
      case PutData(d, _) => NoInterestCallbacks(f.pending, d, o);
      case PutNack(n, _) => NoInterestCallbacksNack(f.pending, n, o);
      case _ =>
    }
  }

  lemma {:induction false} NoInterestCallbacks(ps: seq<Pending>, d: Data, o: F.Output)
    requires o.InterestCallback?
    ensures o !in F.DataCallbacks(ps, d)
  {
    hide MatchesData;
    if ps != [] {
      NoInterestCallbacks(ps[1..], d, o);
    }
  }

  lemma {:induction false} NoInterestCallbacksNack(ps: seq<Pending>, n: Nack, o: F.Output)
    requires o.InterestCallback?
    ensures o !in F.NackCallbacks(ps, n)
  {
    hide F.NackOne;
    if ps != [] {
      NoInterestCallbacksNack(ps[1..], n, o);
    }
  }

  /** The producer's reaction to an output posts tasks and reports nothing. */
  lemma DeliveryIsQuiet(k: P.Setting, s: P.System, beyond: Memory)
    requires F.Inv(s.face)
    ensures P.Step(k, s, P.Deliver(beyond)).face.log == s.face.log
    ensures forall id | id in s.face.expressed ::
              && id in P.Step(k, s, P.Deliver(beyond)).face.expressed
              && P.Step(k, s, P.Deliver(beyond)).face.expressed[id] == s.face.expressed[id]
  {
    hide F.Inv, P.Copied, F.Step, P.PerformOne;
    if s.seen < |s.face.log| {
      var o, s0 := s.face.log[s.seen], s.(seen := s.seen + 1);
      if o.InterestCallback? && o.filter == k.filter {
        var a := P.Arrived(o.query, o.token);
        var (app, calls) := P.AfterInterest(s.app, a, beyond);
        var acts := if s.app.flag then s.acts else s.acts + [P.GotI1(a)];
        PerformIsQuiet(k, s0.(app := app, acts := acts), calls);
      } else if o.DataCallback? && o.id in s.own {
        var (app, calls) := P.AfterData(s.app, beyond);
        PerformIsQuiet(k, s0.(app := app, acts := s.acts + [P.GotRD(o.id)]), calls);
      }
    }
  }

  lemma PerformIsQuiet(k: P.Setting, s: P.System, calls: seq<P.Call>)
    requires F.Inv(s.face) && |calls| <= 1
    ensures P.Perform(k, s, calls).face.log == s.face.log
    ensures forall id | id in s.face.expressed ::
              && id in P.Perform(k, s, calls).face.expressed
              && P.Perform(k, s, calls).face.expressed[id] == s.face.expressed[id]
  {
    hide F.Inv, F.Step;
    if calls == [] {
      P.PerformSingle(k, s, P.PutD1([]));
    } else {
      assert calls == [calls[0]];
      P.PerformSingle(k, s, calls[0]);
      match calls[0] {
        case ExpressRI(which, token) => P.ExpressFace(s.face, P.RequestOf(k, which, token), k.riSize);
        case PutD1(name) => P.PutFace(s.face, Data(name, k.digest, 10000), k.d1Size);
      }
    }
  }

  lemma StepCallbacks(k: Scene, w: Whole, e: Event)
    requires CallbacksOk(k, w) && F.Inv(w.app.face) && N.Inv(k.link, w.net)
    ensures CallbacksOk(k, Step(k, w, e))
  {
    hide F.Inv, F.Step, N.Inv, N.Step, Octets;
    var w' := Step(k, w, e);
    SentGrows(k, w, e);
    forall o | o in w'.app.face.log && o.InterestCallback?
      ensures FromNetwork(k, w'.net, o.query, o.token) || FromOwnFace(w'.app.face, o.query, o.token)
    {
      var app := AppEvent(k, w, e);
      if app.Some? && app.value.AtFace? {
        P.KeepsExpressed(w.app.face, app.value.event);
        if o !in w.app.face.log {
          NewCallbacks(w.app.face, app.value.event, o);
          if app.value.event == F.ReceiveInterest(o.query, o.token) {
            assert e.message in w'.net.sent;
          }
        }
      } else if app.Some? {
        DeliveryIsQuiet(k.producer, w.app, app.value.beyond);
      }
      if o in w.app.face.log && FromOwnFace(w.app.face, o.query, o.token) {
        var id :| id in w.app.face.expressed && w.app.face.expressed[id].query == o.query
                  && w.app.face.expressed[id].token == o.token;
        assert id in w'.app.face.expressed;
      }
    }
  }

  lemma SentGrows(k: Scene, w: Whole, e: Event)
    requires N.Inv(k.link, w.net)
    ensures w.net.sent <= Step(k, w, e).net.sent
  {
    hide N.Inv, N.Step, P.Step, AppEvent;
    var net := NetEvent(k, w, e);
    if net.Some? {
      N.StepKeeps(k.link, w.net, net.value);
    }
  }

  lemma {:induction false} RunCallbacks(k: Scene, es: seq<Event>)
    ensures CallbacksOk(k, Run(k, es))
  {
    hide Step, CallbacksOk, F.Inv, N.Inv;
    if es == [] {
      StartCallbacks(k);
    } else {
      var w := Run(k, es[..|es| - 1]);
      RunCallbacks(k, es[..|es| - 1]);
      InvOfRun(k, es[..|es| - 1]);
      StepCallbacks(k, w, es[|es| - 1]);
    }
  }

  lemma StartCallbacks(k: Scene)
    ensures CallbacksOk(k, Run(k, []))
  {
  }

  lemma InvOfRun(k: Scene, es: seq<Event>)
    ensures F.Inv(Run(k, es).app.face) && N.Inv(k.link, Run(k, es).net)
  {
    hide Run, F.Inv, N.Inv, N.Run, P.Run;
    var ns, ps := RunsProject(k, es);
    P.RunKeeps(k.producer, ps);
    N.StartInv(k.link, k.size);
    N.RunKeeps(k.link, N.Start(k.size), ns);
  }

  // ---- the producer's reflexive Interests ----

  /** I1 of the exchange came over the network with a reflexive name. */
  ghost predicate IsFirst(k: Scene, w: Whole, i1: P.Arrived) {
    && P.GotI1(i1) in w.app.acts && KindOf(i1.query.name).Reflexive?
    && !FromOwnFace(w.app.face, i1.query, i1.tag)
  }

  /**
   In every run of the whole, each reflexive Interest that the producer's Face sends follows I1 and
   carries the token that the forwarder at the producer's end gave to the name of I1.
   */
  lemma ProducerUsesNodeToken(k: Scene, es: seq<Event>, o: F.Output, beyond: Memory)
    requires var w := Run(k, es); o in w.app.face.log && o.SentInterest? && o.id in w.app.own
    ensures var w := Run(k, es);
            && (exists i1 :: P.GotI1(i1) in w.app.acts)
            && forall i1 | IsFirst(k, w, i1) ::
                 && N.Knows(w.net, k.home.node, i1.query.name)
                 && ReadOff(o.token, beyond) == Some(N.TokenOf(w.net, k.home.node, i1.query.name))
  {
    hide Run, F.Inv, N.Inv, P.Run, N.Run, KindOf;
    var w := Run(k, es);
    var ns, ps := RunsProject(k, es);
    P.SentTokenIff(k.producer, ps, o);
    RunCallbacks(k, es);
    InvOfRun(k, es);
    var i1 :| P.GotI1(i1) in w.app.acts && F.InterestCallback(k.producer.filter, i1.query, i1.tag) in w.app.face.log
              && i1.tag.Some? && (o.token == i1.tag <==> |i1.tag.value| == TOKEN_SIZE);
    forall a | IsFirst(k, w, a)
      ensures N.Knows(w.net, k.home.node, a.query.name)
      ensures ReadOff(o.token, beyond) == Some(N.TokenOf(w.net, k.home.node, a.query.name))
    {
      P.OneFirst(k.producer, ps, a, i1);
      assert FromNetwork(k, w.net, i1.query, i1.tag);
      var m :| m in w.net.sent && m.at == k.home && m.query == i1.query && i1.tag == Octets(m.token);
      TokenOfMessage(k, w.net, m, beyond);
    }
  }

  lemma TokenOfMessage(k: Scene, net: N.Net, m: N.Message, beyond: Memory)
    requires N.Inv(k.link, net) && m in net.sent && m.at == k.home && KindOf(m.query.name).Reflexive?
    ensures N.Knows(net, k.home.node, m.query.name) && m.token == Some(N.TokenOf(net, k.home.node, m.query.name))
    ensures ReadOff(Octets(m.token), beyond) == m.token
  {
    hide KindOf, N.PastOk, N.RecordsOk, LittleEndian, FromLittleEndian;
    assert N.MessageOk(net, m);
    var token := N.TokenOf(net, k.home.node, m.query.name);
    assert NodeOk(net.nodes[k.home.node]);
    assert token < TWO_32;
    TokenRoundTrip(token);
  }

  /** What becomes of a reflexive Interest that enters at the producer's end, after any further runs. */
  ghost predicate GoesBack(k: Scene, net: N.Net, runs: seq<seq<N.Event>>, q: Query, n: Name, token: nat) {
    var trace, p := N.States(k.link, net, runs), N.AtNode(k.home, token);
    && (N.AllRight(k.link, trace, q, n, p) <==> N.TokensAgree(k.link, trace, q, n, p))
    && (N.AllRight(k.link, trace, q, n, p) ==> N.OnTrack(k.link, N.Last(net, trace), n, N.Walk(k.link, trace, q, p)))
    && ((k.home.node, n) in net.born && net.born[(k.home.node, n)] < |runs|
        && N.WayLeadsHome(k.link, trace, q, n, p) ==>
          exists a | a in N.Last(net, trace).asked ::
            a.name == n && a.at !in k.link && N.Walk(k.link, trace, q, p) == N.AtApplication(a.at, a.token))
  }

  /**
   So RI1 and RI2 alike, in every run of the whole and with any further run of the network before
   each hop, go back for the name of I1: every hop is right if and only if the tokens agree on the
   way, and where the way leads home they reach an application that asked for I1.
   */
  lemma ReflexiveInterestsGoBack(k: Scene, es: seq<Event>, o: F.Output, beyond: Memory, runs: seq<seq<N.Event>>)
    requires var w := Run(k, es); o in w.app.face.log && o.SentInterest? && o.id in w.app.own
    requires KindOf(o.query.name).FromProducer?
    ensures var w := Run(k, es);
            forall i1 | IsFirst(k, w, i1) ::
              && ReadOff(o.token, beyond).Some?
              && GoesBack(k, w.net, runs, o.query, i1.query.name, ReadOff(o.token, beyond).value)
  {
    hide Run, F.Inv, N.Inv, P.Run, N.Run, KindOf, IsFirst, ReadOff, GoesBack;
    var w := Run(k, es);
    ProducerUsesNodeToken(k, es, o, beyond);
    forall i1 | IsFirst(k, w, i1)
      ensures GoesBack(k, w.net, runs, o.query, i1.query.name, N.TokenOf(w.net, k.home.node, i1.query.name))
    {
      var ns, ps := RunsProject(k, es);
      NameGoesBack(k, ns, runs, o.query, i1.query.name);
    }
  }

  lemma NameGoesBack(k: Scene, ns: seq<N.Event>, runs: seq<seq<N.Event>>, q: Query, n: Name)
    requires N.Knows(N.Run(k.link, N.Start(k.size), ns), k.home.node, n) && KindOf(q.name).FromProducer?
    ensures var net := N.Run(k.link, N.Start(k.size), ns);
            GoesBack(k, net, runs, q, n, N.TokenOf(net, k.home.node, n))
  {
    hide N.Run, KindOf, N.States, N.AllRight, N.TokensAgree, N.Walk, N.WayLeadsHome, N.Last, N.OnTrack;
    var net := N.Run(k.link, N.Start(k.size), ns);
    N.ReflexiveInterestRightIff(k.link, k.size, ns, runs, q, n, k.home);
    var trace, p := N.States(k.link, net, runs), N.AtNode(k.home, N.TokenOf(net, k.home.node, n));
    if (k.home.node, n) in net.born && net.born[(k.home.node, n)] < |runs| && N.WayLeadsHome(k.link, trace, q, n, p) {
      N.ReflexiveInterestReachesConsumer(k.link, k.size, ns, runs, q, n, k.home);
    }
  }
}
