/**
 A run in which every hop of a reflexive Interest is right and it still reaches nobody: two
 forwarders whose tokens for a name happen to match what the other had sent pass it back and forth.
 */
module Circling {
  import opened Wrappers
  import opened Matching
  import opened PitTokens
  import opened Forwarder
  import opened ReflexiveNetwork
  import opened Demo

  /** The name is asked for at node 0 with token 7, and node 1 draws 7 for it; node 0 draws 5. */
  const ASK := FromApplication(End(0, 1), I1, Some(7), [5], Forward(Some(2)))
  const TO_1 := Deliver(End(1, 1), Message(End(0, 2), I1, Some(5)), [7], Forward(Some(2)))
  /** Another consumer asks at node 1, which forwards to node 0; then that consumer is gone. */
  const ASK_AGAIN := FromApplication(End(1, 3), I1, Some(9), [], Forward(Some(1)))
  const GONE := DropRecord(1, I1, 3)
  const TO_0 := Deliver(End(0, 2), Message(End(1, 1), I1, Some(7)), [], Forward(None))

  /** What a forwarder that knows the name does with an Interest on a second face. */
  function Joined(q: Query, face: nat, sent: nat, token: nat, face': nat, sent': nat): Node {
    Fresh(q, face, sent, token).(pit := [PitEntry(q, [InRecord(face', Some(sent'), Some(token), true),
                                                      InRecord(face, Some(sent), Some(token), true)])])
  }

  lemma SecondFace(q: Query, face: nat, sent: nat, token: nat, face': nat, sent': nat, egress: Option<nat>)
    requires KindOf(q.name).Reflexive? && face' != face && NodeOk(Fresh(q, face, sent, token))
    ensures Receive(Fresh(q, face, sent, token), face', q, Some(sent'), [], Forward(egress))
            == (Joined(q, face, sent, token, face', sent'),
                if egress.Some? then [SendInterest(egress.value, q, Some(token))] else [])
    ensures NodeOk(Joined(q, face, sent, token, face', sent'))
    ensures Forget(Joined(q, face, sent, token, face', sent'), q, face') == Fresh(q, face, sent, token)
  {
    hide KindOf, Recorded, Entered, Position, NodeOk;
    var r, r' := InRecord(face, Some(sent), Some(token), true), InRecord(face', Some(sent'), Some(token), true);
    ReceiveOk(Fresh(q, face, sent, token), face', q, Some(sent'), [], Forward(egress));
    OneEntry(q, [r], r');
    OneEntry(q, [r', r], InRecord(face + face' + 1, None, None, false));
    assert [r'] + [r] == [r', r];
    WithoutFront(r', r);
  }

  lemma WithoutFront(a: InRecord, b: InRecord)
    requires a.face != b.face
    ensures WithoutFace([a, b], a.face) == [b]
  {
    assert [a, b][1..] == [b] && [b][1..] == [];
    assert WithoutFace([b], a.face) == [b] + [];
  }

  /** A node changes as it receives, and what it sends is sent. */
  lemma ArriveIs(s: Net, at: End, q: Query, token: Option<nat>, draws: seq<nat>, choice: Choice)
    requires at.node < |s.nodes|
    ensures var s' := Arrive(s, at, q, token, draws, choice);
            var (v, out) := Receive(s.nodes[at.node], at.face, q, token, draws, choice);
            && s'.nodes == s.nodes[at.node := v]
            && forall o | o in out && o.SendInterest? :: Message(End(at.node, o.face), o.query, o.token) in s'.sent
  {
    hide Receive, KindOf;
  }

  function After(es: seq<Event>): Net {
    Run(LINK, Start(2), es)
  }

  lemma AfterMore(es: seq<Event>, e: Event)
    ensures After(es + [e]) == Step(LINK, After(es), e)
  {
    hide Step;
    assert (es + [e])[..|es|] == es;
  }

  lemma AfterAsk()
    ensures var s := After([ASK]);
            && s.nodes == [Fresh(I1, 1, 7, 5), Forwarder.INITIAL] && NodeOk(Fresh(I1, 1, 7, 5))
            && Message(End(0, 2), I1, Some(5)) in s.sent
  {
    hide Receive, KindOf, Arrive, Fresh, NodeOk;
    DemoNames();
    FirstInterest(I1, 1, 7, 5, 2);
    AfterMore([], ASK);
    assert [] + [ASK] == [ASK];
    var s := Start(2).(asked := Start(2).asked + {Asked(End(0, 1), I1.name, 7)});
    assert s.nodes == [Forwarder.INITIAL, Forwarder.INITIAL];
    ArriveIs(s, End(0, 1), I1, Some(7), [5], Forward(Some(2)));
    assert SendInterest(2, I1, Some(5)) in [SendInterest(2, I1, Some(5))];
  }

  lemma AfterTo1()
    ensures var s := After([ASK, TO_1]);
            && s.nodes == [Fresh(I1, 1, 7, 5), Fresh(I1, 1, 5, 7)] && NodeOk(Fresh(I1, 1, 5, 7))
  {
    hide Receive, KindOf, Arrive, Fresh, NodeOk, Run;
    DemoNames();
    FirstInterest(I1, 1, 5, 7, 2);
    AfterAsk();
    AfterMore([ASK], TO_1);
    assert [ASK] + [TO_1] == [ASK, TO_1];
    ArriveIs(After([ASK]), End(1, 1), I1, Some(5), [7], Forward(Some(2)));
  }

  lemma AfterAskAgain()
    ensures var s := After([ASK, TO_1, ASK_AGAIN, GONE]);
            && s.nodes == [Fresh(I1, 1, 7, 5), Fresh(I1, 1, 5, 7)] && Message(End(1, 1), I1, Some(7)) in s.sent
  {
    hide Receive, KindOf, Arrive, Fresh, NodeOk, Run, Forget, Joined;
    DemoNames();
    AfterTo1();
    SecondFace(I1, 1, 5, 7, 3, 9, Some(1));
    AfterMore([ASK, TO_1], ASK_AGAIN);
    assert [ASK, TO_1] + [ASK_AGAIN] == [ASK, TO_1, ASK_AGAIN];
    AfterMore([ASK, TO_1, ASK_AGAIN], GONE);
    assert [ASK, TO_1, ASK_AGAIN] + [GONE] == [ASK, TO_1, ASK_AGAIN, GONE];
    var s := After([ASK, TO_1]);
    ArriveIs(s.(asked := s.asked + {Asked(End(1, 3), I1.name, 9)}), End(1, 3), I1, Some(9), [], Forward(Some(1)));
    assert SendInterest(1, I1, Some(7)) in [SendInterest(1, I1, Some(7))];
  }

  const STORY := [ASK, TO_1, ASK_AGAIN, GONE, TO_0]

  lemma AfterStory()
    ensures After(STORY).nodes == [Joined(I1, 1, 7, 5, 2, 7), Fresh(I1, 1, 5, 7)]
    ensures NodeOk(Joined(I1, 1, 7, 5, 2, 7)) && NodeOk(Fresh(I1, 1, 5, 7))
  {
    hide Receive, KindOf, Arrive, Fresh, NodeOk, Run, Joined;
    DemoNames();
    AfterAsk();
    AfterTo1();
    AfterAskAgain();
    SecondFace(I1, 1, 7, 5, 2, 7, None);
    AfterMore([ASK, TO_1, ASK_AGAIN, GONE], TO_0);
    assert [ASK, TO_1, ASK_AGAIN, GONE] + [TO_0] == STORY;
    ArriveIs(After([ASK, TO_1, ASK_AGAIN, GONE]), End(0, 2), I1, Some(7), [], Forward(None));
  }

  lemma StoryHops(s: Net)
    requires s.nodes == [Joined(I1, 1, 7, 5, 2, 7), Fresh(I1, 1, 5, 7)]
    requires NodeOk(Joined(I1, 1, 7, 5, 2, 7)) && NodeOk(Fresh(I1, 1, 5, 7))
    ensures NewestSentFirst(s, 0, I1.name) && NewestSentFirst(s, 1, I1.name)
    ensures forall face :: Hop(LINK, s, RI1, AtNode(End(0, face), 5)) == AtNode(End(1, 1), 7)
    ensures forall face :: Hop(LINK, s, RI1, AtNode(End(1, face), 7)) == AtNode(End(0, 2), 5)
  {
    hide Receive, KindOf, NodeOk, Addressable, ByName;
    DemoNames();
    var v, u := Joined(I1, 1, 7, 5, 2, 7), Fresh(I1, 1, 5, 7);
    assert v.pit[0].query.name == I1.name && u.pit[0].query.name == I1.name;
    assert ByName(v.pit, I1.name) == 0 && ByName(u.pit, I1.name) == 0;
    forall face
      ensures Hop(LINK, s, RI1, AtNode(End(0, face), 5)) == AtNode(End(1, 1), 7)
      ensures Hop(LINK, s, RI1, AtNode(End(1, face), 7)) == AtNode(End(0, 2), 5)
    {
      ReflectsToFront(v, face, RI1, I1.name, [], Hit);
      ReflectsToFront(u, face, RI1, I1.name, [], Hit);
    }
  }

  /**
   After this run the newest face at both nodes had sent the first token, so every hop is right. But
   node 0 has node 1 as its newest face, which learned the name later, and the walk never ends.
   */
  lemma {:induction false} WalkCircles(k: nat, face: nat)
    ensures var s := After(STORY);
            && NewestSentFirst(s, 0, I1.name) && NewestSentFirst(s, 1, I1.name)
            && Walk(LINK, seq(k, _ => s), RI1, AtNode(End(0, face), 5)).AtNode?
            && Walk(LINK, seq(k, _ => s), RI1, AtNode(End(1, face), 7)).AtNode?
  {
    hide Run, Hop, NewestSentFirst;
    var s := After(STORY);
    AfterStory();
    StoryHops(s);
    if k > 0 {
      assert seq(k, _ => s)[1..] == seq(k - 1, _ => s);
      WalkCircles(k - 1, 1);
      WalkCircles(k - 1, 2);
    }
  }
}
