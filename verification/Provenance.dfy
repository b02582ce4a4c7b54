/**
 Where the packets of an exchange come from: what enters the network at the producer's end was sent by
 the producer's Face, and what the Face reports to the producer came out of the network.
 */
module Provenance {
  import opened Names
  import opened Matching
  import opened PitTokens
  import opened Forwarder
  import DataForwarding
  import PendingInterests
  import opened ReflexiveExchange
  import F = FaceRuns
  import P = Producer
  import N = ReflexiveNetwork

  // ---- the producer's log and the network's history only grow ----

  lemma LogGrows(k: Scene, w: Whole, e: Event)
    requires F.Inv(w.app.face)
    ensures w.app.face.log <= Step(k, w, e).app.face.log
  {
    hide F.Inv, F.Step, N.Step, P.Told, NetEvent, AppEvent;
    var app := AppEvent(k, w, e);
    if app.Some? && app.value.AtFace? {
      F.StepKeeps(w.app.face, app.value.event);
    } else if app.Some? {
      DeliveryIsQuiet(k.producer, w.app, app.value.beyond);
    }
  }

  lemma DataGrows(k: Scene, w: Whole, e: Event)
    requires N.Inv(k.link, w.net)
    ensures w.net.data <= Step(k, w, e).net.data
  {
    hide N.Inv, N.Step, P.Step, AppEvent, NetEvent;
    var net := NetEvent(k, w, e);
    if net.Some? {
      N.StepKeeps(k.link, w.net, net.value);
    }
  }

  // ---- Interests that enter at the producer's end ----

  /** The Face has sent an Interest of that name, with a token that reads so. */
  ghost predicate SentByFace(face: F.State, name: Name, token: nat) {
    exists o, beyond: Memory ::
      o in face.log && o.SentInterest? && o.query.name == name && Number(ReadOff(o.token, beyond)) == token
  }

  lemma SentStays(face: F.State, face': F.State, name: Name, token: nat)
    requires SentByFace(face, name, token) && face.log <= face'.log
    ensures SentByFace(face', name, token)
  {
    hide ReadOff;
    var o, beyond: Memory :| o in face.log && o.SentInterest? && o.query.name == name
                             && Number(ReadOff(o.token, beyond)) == token;
    assert o in face'.log;
  }

  lemma AskedBefore(k: Scene, w: Whole, e: Event, a: N.Asked)
    requires a in Step(k, w, e).net.asked && a !in w.net.asked && a.at == k.home
    ensures SentByFace(w.app.face, a.name, a.token)
  {
    hide Receive, DataForwarding.ReceiveData, N.SentBy, N.PassagesOf, P.Step, ReadOff, SentByFace, AppEvent;
    assert e.InterestFromProducer?;
    Witness(w.app.face, e.interest, e.beyond);
  }

  lemma Witness(face: F.State, o: F.Output, beyond: Memory)
    requires o in face.log && o.SentInterest?
    ensures SentByFace(face, o.query.name, Number(ReadOff(o.token, beyond)))
  {
    hide ReadOff;
  }

  /** In every run, an Interest that entered the network at the producer's end was sent by its Face. */
  lemma {:induction false} AskedAreSent(k: Scene, es: seq<Event>, a: N.Asked)
    requires a in Run(k, es).net.asked && a.at == k.home
    ensures SentByFace(Run(k, es).app.face, a.name, a.token)
  {
    hide Step, SentByFace, F.Inv, N.Inv;
    if es != [] {
      var w, e := Run(k, es[..|es| - 1]), es[|es| - 1];
      InvOfRun(k, es[..|es| - 1]);
      if a in w.net.asked {
        AskedAreSent(k, es[..|es| - 1], a);
      } else {
        AskedBefore(k, w, e, a);
      }
      LogGrows(k, w, e);
      SentStays(w.app.face, Run(k, es).app.face, a.name, a.token);
    }
  }

  // ---- Data in the network ----

  /** In the course of the run an application elsewhere has sent that Data. */
  ghost predicate EnteredElsewhere(k: Scene, es: seq<Event>, d: Data) {
    exists e | e in es ::
      e.InNetwork? && e.ofNet.DataFromApplication? && e.ofNet.data == d && e.ofNet.at != k.home
  }

  lemma ElsewhereStays(k: Scene, es: seq<Event>, d: Data)
    requires es != [] && EnteredElsewhere(k, es[..|es| - 1], d)
    ensures EnteredElsewhere(k, es, d)
  {
    var e :| e in es[..|es| - 1] && e.InNetwork? && e.ofNet.DataFromApplication? && e.ofNet.data == d
             && e.ofNet.at != k.home;
    assert e in es;
  }

  /** New Data in the network is Data that was there, that the Face has sent, or that enters elsewhere. */
  lemma NewData(k: Scene, w: Whole, e: Event, m: N.DataMessage)
    requires m in Step(k, w, e).net.data && m !in w.net.data
    ensures || (exists m' | m' in w.net.data :: m'.data == m.data)
            || F.SentData(m.data) in w.app.face.log
            || (e.InNetwork? && e.ofNet.DataFromApplication? && e.ofNet.data == m.data && e.ofNet.at != k.home)
  {
    hide Receive, DataForwarding.ReceiveData, N.SentBy, N.PassagesOf, P.Step, AppEvent, ReadOff;
    var net := NetEvent(k, w, e);
    if net.Some? && net.value.DeliverData? {
      assert net.value.packet in w.net.data;
    }
  }

  /** In every run, all Data in the network was sent by the producer's Face or entered elsewhere. */
  lemma {:induction false} DataProvenance(k: Scene, es: seq<Event>, m: N.DataMessage)
    requires m in Run(k, es).net.data
    ensures F.SentData(m.data) in Run(k, es).app.face.log || EnteredElsewhere(k, es, m.data)
  {
    hide Step, EnteredElsewhere, F.Inv, N.Inv;
    if es != [] {
      var before := es[..|es| - 1];
      var w, e := Run(k, before), es[|es| - 1];
      InvOfRun(k, before);
      LogGrows(k, w, e);
      if exists m' | m' in w.net.data :: m'.data == m.data {
        var m' :| m' in w.net.data && m'.data == m.data;
        DataProvenance(k, before, m');
        if EnteredElsewhere(k, before, m.data) {
          ElsewhereStays(k, es, m.data);
        }
      } else {
        NewData(k, w, e, m);
        EntersNow(k, es, m.data);
      }
    }
  }

  lemma EntersNow(k: Scene, es: seq<Event>, d: Data)
    requires es != []
    ensures var e := es[|es| - 1];
            e.InNetwork? && e.ofNet.DataFromApplication? && e.ofNet.data == d && e.ofNet.at != k.home ==>
              EnteredElsewhere(k, es, d)
  {
    assert es[|es| - 1] in es;
  }

  // ---- Data that is reported to the producer ----

  /** The network sent this Data to the producer's Face. */
  ghost predicate DataFromNetwork(k: Scene, net: N.Net, d: Data) {
    exists m | m in net.data :: m.at == k.home && m.data == d
  }

  /** The event carries out an earlier call that put this Data on the Face. */
  predicate PutsData(w: Whole, e: Event, d: Data) {
    && e.AtProducer? && e.ofApp.AtFace? && e.ofApp.event.RunTask?
    && w.app.face.tasks != [] && w.app.face.tasks[0].PutData? && w.app.face.tasks[0].data == d
  }

  ghost predicate PutOnFace(k: Scene, es: seq<Event>, d: Data) {
    exists i | 0 <= i < |es| :: PutsData(Run(k, es[..i]), es[i], d)
  }

  lemma PutStays(k: Scene, es: seq<Event>, d: Data)
    requires es != [] && PutOnFace(k, es[..|es| - 1], d)
    ensures PutOnFace(k, es, d)
  {
    hide Run, PutsData;
    var before := es[..|es| - 1];
    var i :| 0 <= i < |before| && PutsData(Run(k, before[..i]), before[i], d);
    assert before[..i] == es[..i] && before[i] == es[i];
  }

  lemma {:induction false} CallbacksCarry(ps: seq<PendingInterests.Pending>, d: Data, o: F.Output)
    ensures o in F.DataCallbacks(ps, d) ==> o.DataCallback? && o.data == d
  {
    hide MatchesData;
    if ps != [] {
      CallbacksCarry(ps[1..], d, o);
    }
  }

  lemma {:induction false} NacksCarryNone(ps: seq<PendingInterests.Pending>, n: PendingInterests.Nack, o: F.Output)
    ensures o in F.NackCallbacks(ps, n) ==> !o.DataCallback?
  {
    hide F.NackOne;
    if ps != [] {
      NacksCarryNone(ps[1..], n, o);
    }
  }

  /** A new Data callback is for Data just received or just put. */
  lemma NewDataCallback(f: F.State, e: F.Event, o: F.Output)
    requires o in F.Step(f, e).log && o !in f.log && o.DataCallback?
    ensures || e == F.ReceiveData(o.data)
            || (e.RunTask? && f.tasks != [] && f.tasks[0].PutData? && f.tasks[0].data == o.data)
  {
    hide F.Perform, F.Put, F.Dispatched, F.DispatchLog, F.Unsatisfied, F.AfterNack, F.Without, F.PutFilter,
      F.DataCallbacks, F.NackCallbacks;
    match e {
      case ReceiveInterest(q, token) =>
        DispatchedAre(f.filters,
                      PendingInterests.NewPending(f.lastId + 1, PendingInterests.Forwarder, q, token, {}));
      case RunTask(shutsDown) => if f.tasks != [] {
        TaskDataCallback(f.(tasks := f.tasks[1..]), f.tasks[0], shutsDown, o);
      }
      case ReceiveData(d) => CallbacksCarry(f.pending, d, o);
      case ReceiveNack(n) => NacksCarryNone(f.pending, n, o);
      case _ =>
    }
  }

  lemma TaskDataCallback(f: F.State, t: F.Task, shutsDown: bool, o: F.Output)
    requires o in F.Perform(f, t, shutsDown).log && o !in f.log && o.DataCallback?
    ensures t.PutData? && t.data == o.data
  {
    hide F.Put, F.Dispatched, F.DispatchLog, F.Unsatisfied, F.AfterNack, F.Without, F.ShouldSendData, F.PutFilter,
      F.WithoutFilter, F.DataCallbacks, F.NackCallbacks, F.OutNack;
    match t {
      case Express(id, r, _) => DispatchedAre(f.filters, F.NewRecord(id, r));
      case PutData(d, _) => CallbacksCarry(f.pending, d, o);
      case PutNack(n, _) => NacksCarryNone(f.pending, n, o);
      case _ =>
    }
  }

  lemma StepDataCallback(k: Scene, w: Whole, e: Event, o: F.Output)
    requires F.Inv(w.app.face) && o in Step(k, w, e).app.face.log && o !in w.app.face.log && o.DataCallback?
    ensures DataFromNetwork(k, w.net, o.data) || PutsData(w, e, o.data)
  {
    hide F.Inv, F.Step, N.Step, P.Told, NetEvent, Octets;
    var app := AppEvent(k, w, e);
    if app.value.AtFace? {
      NewDataCallback(w.app.face, app.value.event, o);
      if e.DataToProducer? {
        assert e.packet in w.net.data;
      }
    } else {
      DeliveryIsQuiet(k.producer, w.app, app.value.beyond);
    }
  }

  /** In every run, Data that the Face reports came out of the network at its end, or was put on the Face itself. */
  lemma {:induction false} ReportedData(k: Scene, es: seq<Event>, o: F.Output)
    requires o in Run(k, es).app.face.log && o.DataCallback?
    ensures DataFromNetwork(k, Run(k, es).net, o.data) || PutOnFace(k, es, o.data)
  {
    hide Step, F.Inv, N.Inv, PutOnFace, PutsData;
    if es != [] {
      var before := es[..|es| - 1];
      var w, e := Run(k, before), es[|es| - 1];
      InvOfRun(k, before);
      DataGrows(k, w, e);
      if o in w.app.face.log {
        ReportedData(k, before, o);
        if PutOnFace(k, before, o.data) {
          PutStays(k, es, o.data);
        }
      } else {
        StepDataCallback(k, w, e, o);
        if PutsData(w, e, o.data) {
          PutsNow(k, es, o.data);
        }
      }
    }
  }

  lemma PutsNow(k: Scene, es: seq<Event>, d: Data)
    requires es != [] && PutsData(Run(k, es[..|es| - 1]), es[|es| - 1], d)
    ensures PutOnFace(k, es, d)
  {
    hide Run, PutsData;
  }

  /**
   So a reply that the producer gets for a reflexive Interest was, in every run, put on its own Face,
   sent by it before, or sent by an application elsewhere and carried here by the network.
   */
  lemma RepliesComeFromElsewhere(k: Scene, es: seq<Event>, o: F.Output)
    requires o in Run(k, es).app.face.log && o.DataCallback?
    ensures || PutOnFace(k, es, o.data)
            || F.SentData(o.data) in Run(k, es).app.face.log
            || EnteredElsewhere(k, es, o.data)
  {
    hide Run, PutOnFace, EnteredElsewhere;
    ReportedData(k, es, o);
    if DataFromNetwork(k, Run(k, es).net, o.data) {
      var m :| m in Run(k, es).net.data && m.at == k.home && m.data == o.data;
      DataProvenance(k, es, m);
    }
  }
}
