/**
 The way of Data through the network: the answer to a reflexive Interest goes back over the nodes
 that Interest passed, and the answer to the first Interest goes to the application that sent it.
 */
module ReflexiveData {
  import opened Wrappers
  import opened Names
  import opened Matching
  import opened PitTokens
  import opened TokenTables
  import opened Forwarder
  import opened DataForwarding
  import opened ReflexiveNetwork

  // ---- where reflexive Interests have passed ----

  /** The passage at the node before. */
  predicate Precedes(link: map<End, End>, p: Passage, h: Passage) {
    h.inside in link && p.outside == link[h.inside] && p.query == h.query && p.time < h.time
  }

  /** A reflexive Interest came from the node before, or from an application that sent it. */
  ghost predicate PassageOk(link: map<End, End>, s: Net, h: Passage) {
    && h.time < s.clock && h.outside.node == h.inside.node
    && (if h.inside in link then exists p | p in s.passages :: Precedes(link, p, h)
        else exists k :: Asked(h.inside, h.query.name, k) in s.asked)
  }

  ghost predicate CameThrough(s: Net, m: Message) {
    KindOf(m.query.name).FromProducer? ==> exists h | h in s.passages :: h.outside == m.at && h.query == m.query
  }

  ghost predicate PassagesOk(link: map<End, End>, s: Net) {
    && (forall h | h in s.passages :: PassageOk(link, s, h))
    && (forall m | m in s.sent :: CameThrough(s, m))
  }

  /** What was so stays so. */
  lemma PassagesMore(link: map<End, End>, s: Net, s': Net)
    requires PassagesOk(link, s)
    requires s.passages <= s'.passages && s.asked <= s'.asked && s.clock <= s'.clock
    ensures forall h | h in s.passages :: PassageOk(link, s', h)
    ensures forall m | m in s.sent :: CameThrough(s', m)
  {
    hide Precedes, KindOf;
    forall h | h in s.passages
      ensures PassageOk(link, s', h)
    {
      assert PassageOk(link, s, h);
      if h.inside in link {
        var p :| p in s.passages && Precedes(link, p, h);
        assert p in s'.passages;
      } else {
        var k :| Asked(h.inside, h.query.name, k) in s.asked;
        assert Asked(h.inside, h.query.name, k) in s'.asked;
      }
    }
    forall m | m in s.sent
      ensures CameThrough(s', m)
    {
      assert CameThrough(s, m);
    }
  }

  lemma ArrivePassages(link: map<End, End>, s: Net, at: End, q: Query, token: Option<nat>, draws: seq<nat>,
                       choice: Choice)
    requires PassagesOk(link, s) && at.node < |s.nodes| && NodeOk(s.nodes[at.node])
    requires KindOf(q.name).FromProducer? ==>
               if at in link then exists p | p in s.passages :: p.outside == link[at] && p.query == q
               else exists k :: Asked(at, q.name, k) in s.asked
    ensures PassagesOk(link, Arrive(s, at, q, token, draws, choice))
  {
    hide Receive, KindOf, NodeOk, PassageOk, CameThrough;
    var s' := Arrive(s, at, q, token, draws, choice);
    var out := Receive(s.nodes[at.node], at.face, q, token, draws, choice).1;
    PassagesMore(link, s, s');
    forall h | h in s'.passages && h !in s.passages
      ensures PassageOk(link, s', h)
    {
      NewPassage(link, s, s', at, q, h);
    }
    forall m | m in s'.sent && m !in s.sent
      ensures CameThrough(s', m)
    {
      var o :| o in out && o.SendInterest? && m == Message(End(at.node, o.face), o.query, o.token);
      ReceiveSends(s.nodes[at.node], at.face, q, token, draws, choice, o);
      NewMessage(s', at, q, out, s.clock, o, m);
    }
  }

  lemma NewPassage(link: map<End, End>, s: Net, s': Net, at: End, q: Query, h: Passage)
    requires PassagesOk(link, s) && s.passages <= s'.passages && s.asked <= s'.asked && s.clock < s'.clock
    requires h.inside == at && h.query == q && h.outside.node == at.node && h.time == s.clock
    requires if at in link then exists p | p in s.passages :: p.outside == link[at] && p.query == q
             else exists k :: Asked(at, q.name, k) in s.asked
    ensures PassageOk(link, s', h)
  {
    hide CameThrough;
    if at in link {
      var p :| p in s.passages && p.outside == link[at] && p.query == q;
      assert PassageOk(link, s, p);
      assert Precedes(link, p, h);
    } else {
      var k :| Asked(at, q.name, k) in s.asked;
      assert Asked(h.inside, h.query.name, k) in s'.asked;
    }
  }

  lemma NewMessage(s': Net, at: End, q: Query, out: seq<Output>, time: nat, o: Output, m: Message)
    requires PassagesOf(at, q, out, time) <= s'.passages
    requires o in out && o.SendInterest? && o.query == q && m == Message(End(at.node, o.face), o.query, o.token)
    ensures CameThrough(s', m)
  {
    hide KindOf;
    if KindOf(q.name).FromProducer? {
      assert Passage(at, q, End(at.node, o.face), time) in s'.passages;
    }
  }

  lemma StepPassages(link: map<End, End>, s: Net, e: Event)
    requires Inv(link, s) && PassagesOk(link, s)
    ensures PassagesOk(link, Step(link, s, e))
  {
    hide Inv, Arrive, PassageOk, CameThrough, NodeOk, ReceiveData, Forget, ForgetEntry, KindOf;
    match e {
      case FromApplication(at, q, token, draws, choice) =>
        if at.node < |s.nodes| && at !in link {
          var s1 := s.(asked := s.asked + {Asked(at, q.name, Number(token))});
          PassagesMore(link, s, s1);
          NodeInOrder(link, s, at.node);
          assert Asked(at, q.name, Number(token)) in s1.asked;
          ArrivePassages(link, s1, at, q, token, draws, choice);
        }
      case Deliver(at, m, draws, choice) =>
        if at.node < |s.nodes| && at in link && link[at] == m.at && m in s.sent {
          NodeInOrder(link, s, at.node);
          Delivered(link, s, m);
          ArrivePassages(link, s, at, m.query, m.token, draws, choice);
        }
      case _ =>
        PassagesMore(link, s, Step(link, s, e));
    }
  }

  lemma Delivered(link: map<End, End>, s: Net, m: Message)
    requires PassagesOk(link, s) && m in s.sent
    ensures KindOf(m.query.name).FromProducer? ==>
              exists p | p in s.passages :: p.outside == m.at && p.query == m.query
  {
    hide PassageOk, KindOf;
    assert CameThrough(s, m);
  }

  /** In every run each passage of a reflexive Interest has a past. */
  lemma {:induction false} RunPassages(link: map<End, End>, size: nat, es: seq<Event>)
    ensures Inv(link, Run(link, Start(size), es)) && PassagesOk(link, Run(link, Start(size), es))
  {
    hide Inv, Step, PassageOk, CameThrough;
    StartInv(link, size);
    RunKeeps(link, Start(size), es);
    if es != [] {
      var s := Run(link, Start(size), es[..|es| - 1]);
      RunPassages(link, size, es[..|es| - 1]);
      StepPassages(link, s, es[|es| - 1]);
    }
  }

  // ---- the way back ----

  /** The passages of one reflexive Interest, the latest first, up to the application that sent it. */
  ghost predicate Route(link: map<End, End>, s: Net, route: seq<Passage>) {
    && route != []
    && (forall h | h in route :: h in s.passages && h.outside.node == h.inside.node)
    && (forall i | 0 <= i < |route| - 1 :: Precedes(link, route[i + 1], route[i]))
    && var first := route[|route| - 1];
       first.inside !in link && exists k :: Asked(first.inside, first.query.name, k) in s.asked
  }

  lemma {:induction false} RouteExists(link: map<End, End>, s: Net, h: Passage) returns (route: seq<Passage>)
    requires PassagesOk(link, s) && h in s.passages
    ensures route != [] && route[0] == h && Route(link, s, route)
    decreases h.time
  {
    hide CameThrough;
    assert PassageOk(link, s, h);
    if h.inside in link {
      var p :| p in s.passages && Precedes(link, p, h);
      var rest := RouteExists(link, s, p);
      route := [h] + rest;
      RouteCons(link, s, h, rest);
    } else {
      route := [h];
    }
  }

  lemma RouteCons(link: map<End, End>, s: Net, h: Passage, rest: seq<Passage>)
    requires Route(link, s, rest) && Precedes(link, rest[0], h) && h in s.passages && h.outside.node == h.inside.node
    ensures Route(link, s, [h] + rest)
  {
    hide Precedes;
    var route := [h] + rest;
    assert route[|route| - 1] == rest[|rest| - 1];
    forall i | 0 <= i < |route| - 1
      ensures Precedes(link, route[i + 1], route[i])
    {
      assert route[i + 1] == rest[i];
      assert i > 0 ==> route[i] == rest[i - 1];
    }
  }

  /** The network when Data gets to a node, with the in-records that have expired there. */
  datatype Moment = Moment(net: Net, late: Late)

  /** Data that comes back where the Interest went out is sent back where it had come in. */
  ghost predicate SentBack(m: Moment, h: Passage, d: Data) {
    && h.inside.node < |m.net.nodes|
    && DataGoesTo(m.net.nodes[h.inside.node], h.outside.face, d, m.late, h.inside.face)
  }

  /** The face the Interest came in at still waits for this Data, and is not the one it went out at. */
  ghost predicate StillOpen(m: Moment, h: Passage, d: Data) {
    && h.inside.node < |m.net.nodes| && h.inside.face != h.outside.face
    && exists q, r :: HasRecord(m.net.nodes[h.inside.node].pit, q, r) && MatchesData(q, d)
                      && r.face == h.inside.face && (q, r.face) !in m.late
  }

  lemma SentBackIff(m: Moment, h: Passage, d: Data)
    ensures SentBack(m, h, d) <==> StillOpen(m, h, d)
  {
    hide MatchesData, HasRecord, DataGoesTo;
    if h.inside.node < |m.net.nodes| {
      DataGoesToIff(m.net.nodes[h.inside.node], h.outside.face, d, m.late, h.inside.face);
    }
  }

  /** Data that gets to a node at `from` is sent from node to node, one in each moment, and leaves at `to`. */
  ghost predicate Travels(link: map<End, End>, trace: seq<Moment>, d: Data, from: End, to: End)
    decreases |trace|
  {
    trace != [] && from.node < |trace[0].net.nodes| &&
    exists f ::
      && DataGoesTo(trace[0].net.nodes[from.node], from.face, d, trace[0].late, f)
      && var e := End(from.node, f);
         if e in link then Travels(link, trace[1..], d, link[e], to) else e == to
  }

  ghost predicate AllSentBack(trace: seq<Moment>, route: seq<Passage>, d: Data)
    requires |trace| == |route|
  {
    forall i | 0 <= i < |route| :: SentBack(trace[i], route[i], d)
  }

  ghost predicate AllOpen(trace: seq<Moment>, route: seq<Passage>, d: Data)
    requires |trace| == |route|
  {
    forall i | 0 <= i < |route| :: StillOpen(trace[i], route[i], d)
  }

  /** The Data goes back over the whole route exactly if every node on it still waits where the Interest came in. */
  lemma RouteRetracedIff(link: map<End, End>, s: Net, route: seq<Passage>, trace: seq<Moment>, d: Data)
    requires Route(link, s, route) && WiringOk(link, |s.nodes|) && |trace| == |route|
    ensures AllSentBack(trace, route, d) <==> AllOpen(trace, route, d)
    ensures AllOpen(trace, route, d) ==> Travels(link, trace, d, route[0].outside, route[|route| - 1].inside)
  {
    hide SentBack, StillOpen, Travels, Route;
    forall i | 0 <= i < |route|
      ensures SentBack(trace[i], route[i], d) <==> StillOpen(trace[i], route[i], d)
    {
      SentBackIff(trace[i], route[i], d);
    }
    if AllOpen(trace, route, d) {
      RouteTravels(link, s, route, trace, d);
    }
  }

  lemma {:induction false} RouteTravels(link: map<End, End>, s: Net, route: seq<Passage>, trace: seq<Moment>, d: Data)
    requires Route(link, s, route) && WiringOk(link, |s.nodes|) && |trace| == |route| && AllSentBack(trace, route, d)
    ensures Travels(link, trace, d, route[0].outside, route[|route| - 1].inside)
    decreases |route|
  {
    hide DataGoesTo;
    var h := route[0];
    assert SentBack(trace[0], h, d) && h in route && h.outside == End(h.inside.node, h.outside.face);
    if |route| > 1 {
      assert Precedes(link, route[1], route[0]);
      RouteTail(link, s, route);
      forall i | 0 <= i < |route[1..]|
        ensures SentBack(trace[1..][i], route[1..][i], d)
      {
        assert SentBack(trace[i + 1], route[i + 1], d);
      }
      RouteTravels(link, s, route[1..], trace[1..], d);
    }
  }

  lemma RouteTail(link: map<End, End>, s: Net, route: seq<Passage>)
    requires Route(link, s, route) && |route| > 1
    ensures Route(link, s, route[1..]) && route[1..][|route| - 2] == route[|route| - 1]
  {
    hide Precedes;
    var rest := route[1..];
    assert rest[|rest| - 1] == route[|route| - 1];
    forall i | 0 <= i < |rest| - 1
      ensures Precedes(link, rest[i + 1], rest[i])
    {
      assert Precedes(link, route[i + 2], route[i + 1]);
    }
  }

  /**
   In every run each reflexive Interest that a node sent out has come by a route from an application
   that sent it. Data that answers it, whatever happens in the network in between, goes back over
   that route to that application exactly if at every node the face it came in at still waits.
   */
  lemma ReplyRetracesIff(link: map<End, End>, size: nat, es: seq<Event>, h: Passage) returns (route: seq<Passage>)
    requires WiringOk(link, size) && h in Run(link, Start(size), es).passages
    ensures route != [] && route[0] == h && Route(link, Run(link, Start(size), es), route)
    ensures forall trace: seq<Moment>, d: Data | |trace| == |route| ::
              && (AllSentBack(trace, route, d) <==> AllOpen(trace, route, d))
              && (AllOpen(trace, route, d) ==> Travels(link, trace, d, h.outside, route[|route| - 1].inside))
  {
    hide Inv, Run, PassagesOk, Route, AllSentBack, AllOpen, Travels, WiringOk;
    RunPassages(link, size, es);
    var s := Run(link, Start(size), es);
    SameSize(link, size, es);
    route := RouteExists(link, s, h);
    forall trace: seq<Moment>, d: Data | |trace| == |route|
      ensures AllSentBack(trace, route, d) <==> AllOpen(trace, route, d)
      ensures AllOpen(trace, route, d) ==> Travels(link, trace, d, h.outside, route[|route| - 1].inside)
    {
      RouteRetracedIff(link, s, route, trace, d);
    }
  }

  lemma SameSize(link: map<End, End>, size: nat, es: seq<Event>)
    ensures |Run(link, Start(size), es).nodes| == size
  {
    hide Inv, Run;
    StartInv(link, size);
    RunKeeps(link, Start(size), es);
  }

  /** When it is sent on, a reflexive Interest leaves an in-record for the face it came in at. */
  lemma PassageIsRecorded(v: Node, face: nat, q: Query, sent: Option<nat>, draws: seq<nat>, choice: Choice, o: Output)
    requires NodeOk(v) && KindOf(q.name).FromProducer? && o.SendInterest?
    requires o in Receive(v, face, q, sent, draws, choice).1
    ensures HasRecord(Receive(v, face, q, sent, draws, choice).0.pit, q, InRecord(face, sent, o.token, true))
  {
    hide Entered, Position, PitOk, KindOf, TableOk, TagsOk, WithRecord;
    EnteredOk(v.pit, q);
    var pit := Entered(v.pit, q);
    var k, r := Position(pit, q), InRecord(face, sent, o.token, true);
    assert k < |pit|;
    FacesOf(pit, k);
    WithRecordOk(pit[k].inRecords, r);
    assert Recorded(pit, q, r)[k].query == q && r in Recorded(pit, q, r)[k].inRecords;
  }

  lemma FacesOf(pit: seq<PitEntry>, k: nat)
    requires PitOk(pit) && k < |pit|
    ensures DistinctFaces(pit[k].inRecords)
  {
    assert pit[k] in pit;
  }

  // ---- Data for the first Interest ----

  /** The face on which the name first came still waits for the Data. */
  ghost predicate FirstStillWaits(m: Moment, j: nat, n: Name, d: Data) {
    && j < |m.net.nodes| && n in m.net.nodes[j].first
    && exists q, r :: HasRecord(m.net.nodes[j].pit, q, r) && MatchesData(q, d)
                      && r.face == m.net.nodes[j].first[n] && (q, r.face) !in m.late
  }

  /** That holds at every node on the way the name came, when the Data gets there. */
  ghost predicate WayStillWaits(link: map<End, End>, s: Net, trace: seq<Moment>, j: nat, n: Name, d: Data)
    decreases |trace|
  {
    && Knows(s, j, n) && n in s.nodes[j].first
    && trace != [] && ReflexiveNetwork.Grows(s, trace[0].net) && FirstStillWaits(trace[0], j, n, d)
    && var e := End(j, s.nodes[j].first[n]);
       (e in link ==> WayStillWaits(link, s, trace[1..], link[e].node, n, d))
  }

  /**
   Data for the first Interest, from anywhere but the face the name first came on, goes from node to
   node to the application whose Interest made the name known, as long as the first face still waits
   at each: it need not be the newest.
   */
  lemma {:induction false} DataReachesSource(link: map<End, End>, s: Net, trace: seq<Moment>, at: End, n: Name, d: Data)
    requires Inv(link, s) && WiringOk(link, |s.nodes|) && WayStillWaits(link, s, trace, at.node, n, d)
    requires at.face != s.nodes[at.node].first[n]
    ensures Travels(link, trace, d, at, Source(link, s, at.node, n).at)
    decreases |trace|
  {
    hide Inv, ReflexiveNetwork.Grows, DataGoesTo, HasRecord, MatchesData;
    PastOfInv(link, s, at.node, n);
    var t, f := trace[0], s.nodes[at.node].first[n];
    var e := End(at.node, f);
    SamePast(s, t.net, at.node, n);
    SizesAgree(s, t.net);
    DataGoesToIff(t.net.nodes[at.node], at.face, d, t.late, f);
    SourceStep(link, s, at.node, n);
    if e in link {
      PastOfInv(link, s, link[e].node, n);
      assert link[link[e]] == e;
      DataReachesSource(link, s, trace[1..], link[e], n, d);
    }
  }

  /** In every run, so does the Data the producer sends in the end, to an application that asked for the name. */
  lemma DataReachesConsumer(link: map<End, End>, size: nat, es: seq<Event>, trace: seq<Moment>, at: End, n: Name,
                            d: Data)
    requires WiringOk(link, size)
    requires var s := Run(link, Start(size), es);
             WayStillWaits(link, s, trace, at.node, n, d) && at.face != s.nodes[at.node].first[n]
    ensures var s := Run(link, Start(size), es);
            exists a | a in s.asked :: a.name == n && a.at !in link && Travels(link, trace, d, at, a.at)
  {
    hide Inv, Run, WayStillWaits, Travels, WiringOk;
    StartInv(link, size);
    RunKeeps(link, Start(size), es);
    SameSize(link, size, es);
    var s := Run(link, Start(size), es);
    WaysKnown(link, s, trace, at.node, n, d);
    DataReachesSource(link, s, trace, at, n, d);
    var a := Source(link, s, at.node, n);
  }

  lemma WaysKnown(link: map<End, End>, s: Net, trace: seq<Moment>, j: nat, n: Name, d: Data)
    requires WayStillWaits(link, s, trace, j, n, d)
    ensures Knows(s, j, n) && n in s.nodes[j].first
  {
  }

  lemma SizesAgree(s: Net, t: Net)
    requires ReflexiveNetwork.Grows(s, t)
    ensures |s.nodes| == |t.nodes|
  {
  }
}
