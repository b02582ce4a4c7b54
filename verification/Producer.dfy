/**
 The demo producer on top of a Face: it answers the first Interest (I1) by two reflexive Interests
 (RI1, RI2), one after the other, and then sends the Data (D1). The same Face serves others too:
 prefix registration expresses command Interests on it, and the certificate has a filter of its own.
 */
module Producer {
  import opened Wrappers
  import opened Tlv
  import opened Names
  import opened Matching
  import opened PendingInterests
  import opened PitTokens
  import F = FaceRuns

  /** An Interest as the callback sees it, with the token tag it came with. */
  datatype Arrived = Arrived(query: Query, tag: Option<Bytes>)

  /** A default Interest. */
  const NO_INTEREST := Arrived(Query([], false, false), None)

  /** The stored Interest: I1, or a default one before it has come. */
  function First(interest: Option<Arrived>): Arrived {
    if interest.Some? then interest.value else NO_INTEREST
  }

  /** `interest`, once set, is I1; `incomingRD` counts Data callbacks. */
  datatype Fields = Fields(flag: bool, interest: Option<Arrived>, incomingRD: nat)

  datatype Call = ExpressRI(which: nat, token: Bytes) | PutD1(name: Name)

  /** The token of a tag, read and set again. */
  function Copied(tag: Bytes, beyond: Memory): Bytes {
    LittleEndian(FromLittleEndian(Seen(tag, beyond)), TOKEN_SIZE)
  }

  function Reflected(tag: Option<Bytes>, which: nat, beyond: Memory): seq<Call> {
    if tag.None? then [] else [ExpressRI(which, Copied(tag.value, beyond))]
  }

  function AfterInterest(p: Fields, a: Arrived, beyond: Memory): (Fields, seq<Call>) {
    if p.flag then (p, []) else (Fields(true, Some(a), p.incomingRD), Reflected(a.tag, 1, beyond))
  }

  function AfterData(p: Fields, beyond: Memory): (Fields, seq<Call>) {
    var n := p.incomingRD + 1;
    var i1 := First(p.interest);
    (p.(incomingRD := n),
     if n == 1 then Reflected(i1.tag, 2, beyond)
     else if n == 2 then [PutD1(i1.query.name)]
     else [])
  }

  class Producer {
    var flag: bool
    var interest: Option<Arrived>
    var incomingRD: nat

    ghost function Now(): Fields
      reads this
    {
      Fields(flag, interest, incomingRD)
    }

    constructor ()
      ensures Now() == Fields(false, None, 0)
    {
      flag, interest, incomingRD := false, None, 0;
    }

    /** Only the first Interest is answered. */
    method OnInterest(a: Arrived, beyond: Memory) returns (calls: seq<Call>)
      modifies this
      ensures (Now(), calls) == AfterInterest(old(Now()), a, beyond)
    {
      calls := [];
      if !flag {
        interest := Some(a);
        calls := Reflect(a, 1, beyond);
        flag := true;
      }
    }

    method Reflect(a: Arrived, which: nat, beyond: Memory) returns (calls: seq<Call>)
      ensures calls == Reflected(a.tag, which, beyond)
    {
      if a.tag.None? {
        return [];
      }
      var value := ReadPitToken(a.tag.value, beyond);
      var token := SetPitToken(value);
      calls := [ExpressRI(which, token)];
    }

    method DataCallback(beyond: Memory) returns (calls: seq<Call>)
      modifies this
      ensures (Now(), calls) == AfterData(old(Now()), beyond)
    {
      incomingRD := incomingRD + 1;
      calls := [];
      if incomingRD == 1 {
        calls := Reflect(First(interest), 2, beyond);
      }
      if incomingRD == 2 {
        calls := [PutD1(First(interest).query.name)];
      }
    }
  }

  // ---- the producer and its Face ----

  datatype Act =
    | GotI1(interest: Arrived)
    | SentRI(which: nat, id: nat, token: Bytes)
    | GotRD(id: nat)
    | SentD1(name: Name)

  /**
   `own` holds the identifiers of the producer's own Interests; `seen` counts the outputs of the Face
   that have been delivered; `acts` is history.
   */
  datatype System = System(face: F.State, app: Fields, own: set<nat>, seen: nat, acts: seq<Act>)

  const START := System(F.INITIAL, Fields(false, None, 0), {}, 0, [])

  /** The identifier of the producer's filter, and what its packets look like; the signature makes the digest. */
  datatype Setting = Setting(filter: nat, ri: nat -> Query, riSize: nat, digest: Digest, d1Size: nat)

  /** Anything that happens at the Face, or the delivery of its next output to whom it belongs. */
  datatype Event =
    | AtFace(event: F.Event)
    | Deliver(beyond: Memory)

  function RequestOf(k: Setting, which: nat, token: Bytes): F.Request {
    F.Request(k.ri(which), Some(token), {OnData, OnNack, OnTimeout})
  }

  function Perform(k: Setting, s: System, calls: seq<Call>): System
    decreases |calls|
  {
    if calls == [] then s else Perform(k, PerformOne(k, s, calls[0]), calls[1..])
  }

  function PerformOne(k: Setting, s: System, c: Call): System {
    match c
    case ExpressRI(which, token) =>
      var id := s.face.lastId + 1;
      s.(face := F.Step(s.face, F.CallExpress(RequestOf(k, which, token), k.riSize)),
         own := s.own + {id}, acts := s.acts + [SentRI(which, id, token)])
    case PutD1(name) =>
      s.(face := F.Step(s.face, F.CallPutData(Data(name, k.digest, 10000), k.d1Size)),
         acts := s.acts + [SentD1(name)])
  }

  /** Callbacks of other filters and of Interests that others expressed do not reach the producer. */
  function Told(k: Setting, s: System, o: F.Output, beyond: Memory): System {
    match o
    case InterestCallback(filter, q, tag) =>
      if filter != k.filter then s
      else
        var (app, calls) := AfterInterest(s.app, Arrived(q, tag), beyond);
        Perform(k, s.(app := app, acts := if s.app.flag then s.acts else s.acts + [GotI1(Arrived(q, tag))]), calls)
    case DataCallback(id, _) =>
      if id !in s.own then s
      else
        var (app, calls) := AfterData(s.app, beyond);
        Perform(k, s.(app := app, acts := s.acts + [GotRD(id)]), calls)
    case _ => s
  }

  function Step(k: Setting, s: System, e: Event): System {
    match e
    case AtFace(event) => s.(face := F.Step(s.face, event))
    case Deliver(beyond) =>
      if s.seen < |s.face.log| then Told(k, s.(seen := s.seen + 1), s.face.log[s.seen], beyond) else s
  }

  function Run(k: Setting, es: seq<Event>): System {
    if es == [] then START else Step(k, Run(k, es[..|es| - 1]), es[|es| - 1])
  }

  /** The exchange, step by step. */
  function Exchange(i1: Arrived, id1: nat, token1: Bytes, id2: nat, token2: Bytes): seq<Act> {
    if i1.tag.None? then [GotI1(i1)]
    else [GotI1(i1), SentRI(1, id1, token1), GotRD(id1), SentRI(2, id2, token2), GotRD(id2), SentD1(i1.query.name)]
  }

  /** I1's token, but for octets that are lost or made up when it does not have four. */
  ghost predicate IsCopy(token: Bytes, tag: Bytes) {
    exists beyond: Memory :: token == Copied(tag, beyond)
  }

  /** How far the exchange has come, which Interests of the producer are out, and with which token. */
  ghost predicate Stage(k: Setting, s: System, i1: Arrived, id1: nat, token1: Bytes, id2: nat, token2: Bytes) {
    && s.app.flag && s.app.interest == Some(i1) && id1 != id2
    && F.InterestCallback(k.filter, i1.query, i1.tag) in s.face.log
    && if i1.tag.None? then s.acts == [GotI1(i1)] && s.own == {} && s.app.incomingRD == 0
       else
         && s.app.incomingRD <= 2
         && s.acts == Exchange(i1, id1, token1, id2, token2)[..2 + 2 * s.app.incomingRD]
         && s.own == (if s.app.incomingRD == 0 then {id1} else {id1, id2})
         && IsCopy(token1, i1.tag.value) && IsCopy(token2, i1.tag.value)
         && id1 in s.face.expressed && s.face.expressed[id1] == RequestOf(k, 1, token1)
         && (s.app.incomingRD > 0 ==> id2 in s.face.expressed && s.face.expressed[id2] == RequestOf(k, 2, token2))
  }

  /** Each Data the producer counted was a callback of its own. */
  ghost predicate Heard(s: System) {
    && s.seen <= |s.face.log|
    && (forall a | a in s.acts && a.GotRD? ::
          exists i | 0 <= i < s.seen :: s.face.log[i].DataCallback? && s.face.log[i].id == a.id)
  }

  ghost predicate Staged(k: Setting, s: System) {
    exists i1, id1, token1, id2, token2 :: Stage(k, s, i1, id1, token1, id2, token2)
  }

  ghost predicate Inv(k: Setting, s: System) {
    && F.Inv(s.face) && Heard(s)
    && (if s.app.flag then Staged(k, s) else s.acts == [] && s.own == {} && s.app.incomingRD == 0)
  }

  // ---- every step, every run ----

  /** What is expressed stays expressed. */
  lemma KeepsExpressed(f: F.State, e: F.Event)
    requires F.Inv(f)
    ensures forall id | id in f.expressed ::
              id in F.Step(f, e).expressed && F.Step(f, e).expressed[id] == f.expressed[id]
  {
    hide F.Put, F.Dispatched, F.DispatchLog, F.Unsatisfied, F.DataCallbacks, F.AfterNack, F.NackCallbacks, F.OutNack,
         F.Without, F.ShouldSendData, F.PutFilter, F.WithoutFilter, F.TableOk, F.QueueOk, F.LogOk;
  }

  lemma FaceKeeps(k: Setting, s: System, e: F.Event)
    requires Inv(k, s)
    ensures Inv(k, Step(k, s, AtFace(e)))
  {
    hide F.Inv, F.Step, Exchange, IsCopy;
    var s' := Step(k, s, AtFace(e));
    F.StepKeeps(s.face, e);
    KeepsExpressed(s.face, e);
    HeardSame(s, s');
    if s.app.flag {
      var i1, id1, token1, id2, token2 :| Stage(k, s, i1, id1, token1, id2, token2);
      assert Stage(k, s', i1, id1, token1, id2, token2);
    }
  }

  /** More outputs, or a delivery the producer does not act on. */
  lemma HeardSame(s: System, s': System)
    requires Heard(s) && s.face.log <= s'.face.log && s.seen <= s'.seen <= |s'.face.log| && s'.acts == s.acts
    ensures Heard(s')
  {
    forall a | a in s'.acts && a.GotRD?
      ensures exists i | 0 <= i < s'.seen :: s'.face.log[i].DataCallback? && s'.face.log[i].id == a.id
    {
      var i :| 0 <= i < s.seen && s.face.log[i].DataCallback? && s.face.log[i].id == a.id;
      assert s'.face.log[i] == s.face.log[i];
    }
  }

  /** What expressing a reflexive Interest does to the Face. */
  lemma ExpressFace(f: F.State, r: F.Request, size: nat)
    requires F.Inv(f)
    ensures var f' := F.Step(f, F.CallExpress(r, size));
            && F.Inv(f') && f'.log == f.log && f.lastId + 1 !in f.expressed
            && f'.expressed == f.expressed[f.lastId + 1 := r]
  {
    hide F.Inv, F.Grows;
    F.NextId(f);
    F.StepKeeps(f, F.CallExpress(r, size));
  }

  lemma PutFace(f: F.State, d: Data, size: nat)
    requires F.Inv(f)
    ensures var f' := F.Step(f, F.CallPutData(d, size));
            F.Inv(f') && f'.log == f.log && f'.expressed == f.expressed
  {
    hide F.Inv, F.Grows;
    F.StepKeeps(f, F.CallPutData(d, size));
  }

  lemma PerformSingle(k: Setting, s: System, c: Call)
    ensures Perform(k, s, [c]) == PerformOne(k, s, c) && Perform(k, s, []) == s
  {
    hide PerformOne;
    assert [c][1..] == [];
    assert Perform(k, PerformOne(k, s, c), []) == PerformOne(k, s, c);
  }

  lemma CopyIs(tag: Bytes, beyond: Memory)
    ensures IsCopy(Copied(tag, beyond), tag)
  {
  }

  lemma InterestKeeps(k: Setting, s: System, a: Arrived, beyond: Memory)
    requires Inv(k, s) && !s.app.flag && F.InterestCallback(k.filter, a.query, a.tag) in s.face.log
    ensures var (app, calls) := AfterInterest(s.app, a, beyond);
            Inv(k, Perform(k, s.(app := app, acts := s.acts + [GotI1(a)]), calls))
  {
    hide F.Inv, F.Step, Copied, IsCopy;
    var s1 := s.(app := AfterInterest(s.app, a, beyond).0, acts := s.acts + [GotI1(a)]);
    var id := s.face.lastId + 1;
    if a.tag.None? {
      PerformSingle(k, s1, PutD1([]));
      assert Stage(k, s1, a, 1, [], 2, []);
    } else {
      var token := Copied(a.tag.value, beyond);
      var c := ExpressRI(1, token);
      PerformSingle(k, s1, c);
      ExpressFace(s.face, RequestOf(k, 1, token), k.riSize);
      CopyIs(a.tag.value, beyond);
      var s2 := PerformOne(k, s1, c);
      assert s2.acts == Exchange(a, id, token, id + 1, token)[..2];
      assert Stage(k, s2, a, id, token, id + 1, token);
    }
  }

  /** A Data callback of the producer's own is for the Interest that is out and was not called back. */
  lemma NextCallback(k: Setting, s: System, i1: Arrived, id1: nat, token1: Bytes, id2: nat, token2: Bytes)
    requires F.Inv(s.face) && Heard(s) && Stage(k, s, i1, id1, token1, id2, token2)
    requires s.seen < |s.face.log| && s.face.log[s.seen].DataCallback? && s.face.log[s.seen].id in s.own
    ensures i1.tag.Some? && s.app.incomingRD < 2
    ensures s.face.log[s.seen].id == if s.app.incomingRD == 0 then id1 else id2
  {
    hide F.Inv, Heard, IsCopy;
    NotHeardYet(s);
    HeardIds(k, s, i1, id1, token1, id2, token2);
  }

  lemma HeardIds(k: Setting, s: System, i1: Arrived, id1: nat, token1: Bytes, id2: nat, token2: Bytes)
    requires Stage(k, s, i1, id1, token1, id2, token2)
    ensures s.app.incomingRD >= 1 ==> GotRD(id1) in s.acts
    ensures s.app.incomingRD == 2 ==> GotRD(id2) in s.acts
  {
    hide IsCopy;
    if s.app.incomingRD >= 1 {
      assert s.acts[2] == GotRD(id1);
    }
    if s.app.incomingRD == 2 {
      assert s.acts[4] == GotRD(id2);
    }
  }

  lemma NotHeardYet(s: System)
    requires F.Inv(s.face) && Heard(s)
    requires s.seen < |s.face.log| && s.face.log[s.seen].DataCallback?
    ensures GotRD(s.face.log[s.seen].id) !in s.acts
  {
    hide F.TableOk, F.QueueOk;
    var o := s.face.log[s.seen];
    assert o in s.face.log && F.Answers(o, s.face.expressed);
    assert F.CallbackId(o) == o.id && o.id > 0;
    forall i | 0 <= i < s.seen && s.face.log[i].DataCallback?
      ensures s.face.log[i].id != o.id
    {
      assert F.CallbackId(s.face.log[i]) == s.face.log[i].id;
    }
  }

  lemma FirstDataKeeps(k: Setting, s: System, i1: Arrived, id1: nat, token1: Bytes, id2: nat, token2: Bytes,
                       token: Bytes)
    requires F.Inv(s.face) && Stage(k, s, i1, id1, token1, id2, token2) && i1.tag.Some? && s.app.incomingRD == 0
    requires IsCopy(token, i1.tag.value)
    ensures var s1 := s.(seen := s.seen + 1, app := s.app.(incomingRD := 1), acts := s.acts + [GotRD(id1)]);
            var s2 := PerformOne(k, s1, ExpressRI(2, token));
            && F.Inv(s2.face) && Staged(k, s2) && s2.face.log == s.face.log && s2.seen == s.seen + 1 && s2.app.flag
            && s2.acts == s.acts + [GotRD(id1)] + [SentRI(2, s.face.lastId + 1, token)]
  {
    hide F.Inv, F.Step, IsCopy;
    ExpressFace(s.face, RequestOf(k, 2, token), k.riSize);
    var new' := s.face.lastId + 1;
    var s1 := s.(seen := s.seen + 1, app := s.app.(incomingRD := 1), acts := s.acts + [GotRD(id1)]);
    var s2 := PerformOne(k, s1, ExpressRI(2, token));
    assert s2.acts == Exchange(i1, id1, token1, new', token)[..4];
    assert Stage(k, s2, i1, id1, token1, new', token);
  }

  lemma SecondDataKeeps(k: Setting, s: System, i1: Arrived, id1: nat, token1: Bytes, id2: nat, token2: Bytes)
    requires F.Inv(s.face) && Stage(k, s, i1, id1, token1, id2, token2) && i1.tag.Some? && s.app.incomingRD == 1
    ensures var s1 := s.(seen := s.seen + 1, app := s.app.(incomingRD := 2), acts := s.acts + [GotRD(id2)]);
            var s2 := PerformOne(k, s1, PutD1(i1.query.name));
            && F.Inv(s2.face) && Staged(k, s2) && s2.face.log == s.face.log && s2.seen == s.seen + 1 && s2.app.flag
            && s2.acts == s.acts + [GotRD(id2)] + [SentD1(i1.query.name)]
  {
    hide F.Inv, F.Step, IsCopy;
    PutFace(s.face, Data(i1.query.name, k.digest, 10000), k.d1Size);
    var s1 := s.(seen := s.seen + 1, app := s.app.(incomingRD := 2), acts := s.acts + [GotRD(id2)]);
    var s2 := PerformOne(k, s1, PutD1(i1.query.name));
    assert s2.acts == Exchange(i1, id1, token1, id2, token2)[..6];
    assert Stage(k, s2, i1, id1, token1, id2, token2);
  }

  lemma DataKeeps(k: Setting, s: System, beyond: Memory)
    requires Inv(k, s) && s.app.flag
    requires s.seen < |s.face.log| && s.face.log[s.seen].DataCallback? && s.face.log[s.seen].id in s.own
    ensures Inv(k, Step(k, s, Deliver(beyond)))
  {
    hide F.Inv, F.Step, Copied, Heard, Exchange, PerformOne, Perform, IsCopy;
    var id := s.face.log[s.seen].id;
    var i1, id1, token1, id2, token2 :| Stage(k, s, i1, id1, token1, id2, token2);
    NextCallback(k, s, i1, id1, token1, id2, token2);
    var s1 := s.(seen := s.seen + 1, app := AfterData(s.app, beyond).0, acts := s.acts + [GotRD(id)]);
    var c := AfterData(s.app, beyond).1[0];
    assert AfterData(s.app, beyond).1 == [c];
    PerformSingle(k, s1, c);
    var s2 := PerformOne(k, s1, c);
    if s.app.incomingRD == 0 {
      var token := Copied(i1.tag.value, beyond);
      CopyIs(i1.tag.value, beyond);
      FirstDataKeeps(k, s, i1, id1, token1, id2, token2, token);
      HeardMore(s, s2, id, SentRI(2, s.face.lastId + 1, token));
    } else {
      SecondDataKeeps(k, s, i1, id1, token1, id2, token2);
      HeardMore(s, s2, id, SentD1(i1.query.name));
    }
  }

  lemma HeardMore(s: System, s': System, id: nat, last: Act)
    requires Heard(s) && s.seen < |s.face.log| && s.face.log[s.seen].DataCallback?
    requires s'.face.log == s.face.log && s'.seen == s.seen + 1 && id == s.face.log[s.seen].id
    requires s'.acts == s.acts + [GotRD(id)] + [last] && !last.GotRD?
    ensures Heard(s')
  {
    forall a | a in s'.acts && a.GotRD?
      ensures exists i | 0 <= i < s'.seen :: s'.face.log[i].DataCallback? && s'.face.log[i].id == a.id
    {
      if a in s.acts {
        var i :| 0 <= i < s.seen && s.face.log[i].DataCallback? && s.face.log[i].id == a.id;
        assert s'.face.log[i].id == a.id;
      } else {
        assert s'.face.log[s.seen].id == a.id;
      }
    }
  }

  lemma SeenOne(k: Setting, s: System)
    requires Inv(k, s) && s.seen < |s.face.log|
    ensures Inv(k, s.(seen := s.seen + 1))
  {
    hide F.Inv, Exchange, IsCopy;
    var s' := s.(seen := s.seen + 1);
    HeardSame(s, s');
    if s.app.flag {
      var i1, id1, token1, id2, token2 :| Stage(k, s, i1, id1, token1, id2, token2);
      assert Stage(k, s', i1, id1, token1, id2, token2);
    }
  }

  lemma StepKeeps(k: Setting, s: System, e: Event)
    requires Inv(k, s)
    ensures Inv(k, Step(k, s, e))
  {
    hide F.Inv, F.Step, Staged, Heard, Perform;
    match e {
      case AtFace(event) => FaceKeeps(k, s, event);
      case Deliver(beyond) =>
        if s.seen < |s.face.log| {
          var o := s.face.log[s.seen];
          var s1 := s.(seen := s.seen + 1);
          SeenOne(k, s);
          PerformSingle(k, s1, PutD1([]));
          if o.DataCallback? && o.id in s.own {
            DataKeeps(k, s, beyond);
          } else if o.InterestCallback? && o.filter == k.filter && !s.app.flag {
            assert o in s1.face.log;
            InterestKeeps(k, s1, Arrived(o.query, o.token), beyond);
          }
        }
    }
  }

  lemma {:induction false} RunKeeps(k: Setting, es: seq<Event>)
    ensures Inv(k, Run(k, es))
  {
    hide Inv, Step;
    if es == [] {
      StartInv(k);
    } else {
      RunKeeps(k, es[..|es| - 1]);
      StepKeeps(k, Run(k, es[..|es| - 1]), es[|es| - 1]);
    }
  }

  lemma StartInv(k: Setting)
    ensures Inv(k, START)
  {
    F.InitialInv();
  }

  /** The acts are a beginning of one exchange. */
  ghost predicate FollowsExchange(acts: seq<Act>) {
    acts == [] || exists i1, id1, token1, id2, token2 :: id1 != id2 && acts <= Exchange(i1, id1, token1, id2, token2)
  }

  /**
   In every run the producer's acts are a beginning of one exchange: I1, RI1, its Data, RI2, its
   Data, D1. So D1 is sent at most once, last, and never before both reflexive Data have come,
   whatever else is expressed, received and served on the same Face.
   */
  lemma ActsFollowExchange(k: Setting, es: seq<Event>)
    ensures FollowsExchange(Run(k, es).acts)
  {
    hide F.Inv, Run, IsCopy;
    RunKeeps(k, es);
    var s := Run(k, es);
    if s.app.flag {
      var i1, id1, token1, id2, token2 :| Stage(k, s, i1, id1, token1, id2, token2);
      assert s.acts <= Exchange(i1, id1, token1, id2, token2);
    }
  }

  /**
   In every run each reflexive Interest that the producer's Face sends carries a token; that is the
   token I1 came with to the producer's filter, if and only if I1's token has four octets.
   */
  lemma SentTokenIff(k: Setting, es: seq<Event>, o: F.Output)
    requires var s := Run(k, es); o in s.face.log && o.SentInterest? && o.id in s.own
    ensures var s := Run(k, es);
            exists i1 | GotI1(i1) in s.acts ::
              && F.InterestCallback(k.filter, i1.query, i1.tag) in s.face.log && i1.tag.Some?
              && (o.token == i1.tag <==> |i1.tag.value| == TOKEN_SIZE)
  {
    hide Run, IsCopy, F.TableOk, F.QueueOk;
    RunKeeps(k, es);
    var s := Run(k, es);
    var i1, id1, token1, id2, token2 :| Stage(k, s, i1, id1, token1, id2, token2);
    assert F.Answers(o, s.face.expressed);
    assert s.acts[0] == GotI1(i1);
    CopyRestoredIff(token1, i1.tag.value);
    CopyRestoredIff(token2, i1.tag.value);
  }

  /** There is one I1. */
  lemma OneFirst(k: Setting, es: seq<Event>, a: Arrived, b: Arrived)
    requires var s := Run(k, es); GotI1(a) in s.acts && GotI1(b) in s.acts
    ensures a == b
  {
    hide Run, F.Inv, IsCopy;
    RunKeeps(k, es);
    var s := Run(k, es);
    var i1, id1, token1, id2, token2 :| Stage(k, s, i1, id1, token1, id2, token2);
    assert forall i | 0 <= i < |s.acts| && s.acts[i].GotI1? :: s.acts[i] == GotI1(i1);
  }

  lemma CopyRestoredIff(token: Bytes, tag: Bytes)
    requires IsCopy(token, tag)
    ensures token == tag <==> |tag| == TOKEN_SIZE
  {
    hide LittleEndian, FromLittleEndian;
    var beyond: Memory :| token == Copied(tag, beyond);
    TokenRestoredIff(tag, beyond);
  }

  // ---- the exchange goes on ----

  /** What the producer adds when it hears of I1: a reflexive Interest with its token, if it has one. */
  ghost predicate AnswersI1(k: Setting, s: System, s': System, i1: Arrived) {
    if i1.tag.None? then s'.acts == [GotI1(i1)] && s'.face == s.face
    else exists token ::
           && IsCopy(token, i1.tag.value)
           && s'.acts == [GotI1(i1), SentRI(1, s.face.lastId + 1, token)]
           && s'.face.tasks == s.face.tasks + [F.Express(s.face.lastId + 1, RequestOf(k, 1, token), k.riSize)]
  }

  /** What it adds when it hears the first and the second reflexive Data: RI2, then D1. */
  ghost predicate AnswersRD(k: Setting, s: System, s': System, id: nat) {
    exists i1, token | GotI1(i1) in s.acts && i1.tag.Some? && IsCopy(token, i1.tag.value) ::
      if s.app.incomingRD == 0 then
        && s'.acts == s.acts + [GotRD(id)] + [SentRI(2, s.face.lastId + 1, token)]
        && s'.face.tasks == s.face.tasks + [F.Express(s.face.lastId + 1, RequestOf(k, 2, token), k.riSize)]
      else
        && s'.acts == s.acts + [GotRD(id)] + [SentD1(i1.query.name)]
        && s'.face.tasks == s.face.tasks + [F.PutData(Data(i1.query.name, k.digest, 10000), k.d1Size)]
  }

  /**
   In every run each callback that is the producer's takes the exchange on: the first Interest at its
   filter is answered with RI1, Data for RI1 with RI2, Data for RI2 with D1, each posted to the Face.
   Anything else changes neither its acts nor the Face.
   */
  lemma DeliveryAdvances(k: Setting, es: seq<Event>, beyond: Memory)
    requires var s := Run(k, es); s.seen < |s.face.log|
    ensures var s, s' := Run(k, es), Run(k, es + [Deliver(beyond)]);
            var o := s.face.log[s.seen];
            && s'.seen == s.seen + 1
            && if o.InterestCallback? && o.filter == k.filter && s.acts == []
               then AnswersI1(k, s, s', Arrived(o.query, o.token))
               else if o.DataCallback? && o.id in s.own then AnswersRD(k, s, s', o.id)
               else s'.acts == s.acts && s'.face == s.face
  {
    hide Run, F.Inv, IsCopy, F.Step, Perform, Copied, Heard, AnswersI1, AnswersRD;
    RunKeeps(k, es);
    OneMore(k, es, Deliver(beyond));
    var s := Run(k, es);
    var o, s1 := s.face.log[s.seen], s.(seen := s.seen + 1);
    NotYet(k, s);
    PerformSingle(k, s1, PutD1([]));
    if o.InterestCallback? && o.filter == k.filter && !s.app.flag {
      FirstAnswered(k, s, Arrived(o.query, o.token), beyond);
    } else if o.DataCallback? && o.id in s.own {
      DataAnswered(k, s, beyond);
    }
  }

  lemma OneMore(k: Setting, es: seq<Event>, e: Event)
    ensures Run(k, es + [e]) == Step(k, Run(k, es), e)
  {
    hide Step;
    assert (es + [e])[..|es|] == es;
  }

  /** Nothing was done before I1, and everything after. */
  lemma NotYet(k: Setting, s: System)
    requires Inv(k, s)
    ensures s.app.flag <==> s.acts != []
    ensures !s.app.flag ==> s.own == {}
  {
    hide F.Inv, IsCopy, Heard;
    if s.app.flag {
      var i1, id1, token1, id2, token2 :| Stage(k, s, i1, id1, token1, id2, token2);
      assert s.acts[0] == GotI1(i1);
    }
  }

  lemma FirstAnswered(k: Setting, s: System, a: Arrived, beyond: Memory)
    requires s.acts == [] && !s.app.flag
    ensures var s1 := s.(seen := s.seen + 1);
            var (app, calls) := AfterInterest(s.app, a, beyond);
            var s' := Perform(k, s1.(app := app, acts := s1.acts + [GotI1(a)]), calls);
            AnswersI1(k, s, s', a) && s'.seen == s.seen + 1
  {
    hide IsCopy, Copied, Perform;
    var s1 := s.(seen := s.seen + 1, app := AfterInterest(s.app, a, beyond).0, acts := s.acts + [GotI1(a)]);
    if a.tag.None? {
      PerformSingle(k, s1, PutD1([]));
    } else {
      var token := Copied(a.tag.value, beyond);
      CopyIs(a.tag.value, beyond);
      PerformSingle(k, s1, ExpressRI(1, token));
    }
  }

  lemma DataAnswered(k: Setting, s: System, beyond: Memory)
    requires Inv(k, s) && s.app.flag
    requires s.seen < |s.face.log| && s.face.log[s.seen].DataCallback? && s.face.log[s.seen].id in s.own
    ensures var s' := Step(k, s, Deliver(beyond)); AnswersRD(k, s, s', s.face.log[s.seen].id) && s'.seen == s.seen + 1
  {
    hide F.Inv, Copied, Heard, Exchange, Perform, IsCopy;
    var id := s.face.log[s.seen].id;
    var i1, id1, token1, id2, token2 :| Stage(k, s, i1, id1, token1, id2, token2);
    NextCallback(k, s, i1, id1, token1, id2, token2);
    I1Heard(k, s, i1, id1, token1, id2, token2);
    var s1 := s.(seen := s.seen + 1, app := AfterData(s.app, beyond).0, acts := s.acts + [GotRD(id)]);
    var token := Copied(i1.tag.value, beyond);
    CopyIs(i1.tag.value, beyond);
    PerformSingle(k, s1, if s.app.incomingRD == 0 then ExpressRI(2, token) else PutD1(i1.query.name));
  }

  lemma I1Heard(k: Setting, s: System, i1: Arrived, id1: nat, token1: Bytes, id2: nat, token2: Bytes)
    requires Stage(k, s, i1, id1, token1, id2, token2)
    ensures GotI1(i1) in s.acts
  {
    hide IsCopy;
    assert s.acts[0] == GotI1(i1);
  }
}
