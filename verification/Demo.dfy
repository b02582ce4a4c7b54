/** The demo's own exchange on two forwarders: its names, its token, and the way back to the consumer. */
module Demo {
  import opened Wrappers
  import opened Tlv
  import opened Names
  import opened Matching
  import opened ReflexiveNames
  import opened PitTokens
  import opened TokenTables
  import opened Forwarder
  import opened ReflexiveNetwork

  const EXAMPLE := Component(GENERIC_NAME_COMPONENT, [101, 120, 97, 109, 112, 108, 101])
  const TEST_APP := Component(GENERIC_NAME_COMPONENT, [116, 101, 115, 116, 65, 112, 112])
  const REFLECT := Component(GENERIC_NAME_COMPONENT, [114, 101, 102, 108, 101, 99, 116])
  const RN_1234 := Component(REFLEXIVE_NAME_COMPONENT, [49, 50, 51, 52])
  const RN_9999 := Component(REFLEXIVE_NAME_COMPONENT, [57, 57, 57, 57])

  /** /example/testApp/RN=1234 and /testApp/reflect/RN=9999. */
  const I1 := Query([EXAMPLE, TEST_APP, RN_1234], false, true)
  const RI1 := Query([TEST_APP, REFLECT, RN_9999], false, false)

  const CONSUMER_TOKEN := 2345

  /** Face 1 of node 0 is the consumer, face 2 of node 1 the producer. */
  const LINK := map[End(0, 2) := End(1, 1), End(1, 1) := End(0, 2)]

  const FIRST := FromApplication(End(0, 1), I1, Some(CONSUMER_TOKEN), [5], Forward(Some(2)))
  const SECOND := Deliver(End(1, 1), Message(End(0, 2), I1, Some(5)), [7], Forward(Some(2)))

  lemma DemoNames()
    ensures KindOf(I1.name).Reflexive? && Addressable(I1.name) && KindOf(RI1.name).FromProducer?
  {
    hide ReadNonNegativeInteger;
    var a, b := I1.name, RI1.name;
    assert a[1..] == [TEST_APP, RN_1234] && a[2..] == [RN_1234] && a[3..] == [];
    assert b[1..] == [REFLECT, RN_9999] && b[2..] == [RN_9999];
    ReservedComponent(RN_9999);
    ReservedComponent(RN_1234);
    assert FindRN9999([RN_1234]) == Some(false) by {
      assert [RN_1234][1..] == [];
      assert IsRN9999(RN_1234) == Some(false);
    }
    assert FindRN9999(a[1..]) == Some(false);
    assert FindRN9999([RN_9999]) == Some(true);
    assert FindRN9999(b[1..]) == Some(true);
    assert IsReflexive(a[2]);
    var k := FirstReflexive(a);
  }

  /** The first Interest of a forwarder that has seen nothing yet. */
  lemma FirstInterest(q: Query, face: nat, sent: nat, token: nat, egress: nat)
    requires KindOf(q.name).Reflexive? && IsNewToken(EMPTY, token)
    ensures Receive(Forwarder.INITIAL, face, q, Some(sent), [token], Forward(Some(egress)))
            == (Fresh(q, face, sent, token), [SendInterest(egress, q, Some(token))])
    ensures NodeOk(Fresh(q, face, sent, token))
  {
    hide KindOf, Recorded, Entered, Position, NodeOk;
    assert NodeOk(Forwarder.INITIAL) by { InitialOk(); }
    ReceiveOk(Forwarder.INITIAL, face, q, Some(sent), [token], Forward(Some(egress)));
    assert FirstNew(EMPTY, [token]) == Some(token);
    OneEntry(q, [], InRecord(face, Some(sent), Some(token), true));
    assert [InRecord(face, Some(sent), Some(token), true)] + [] == [InRecord(face, Some(sent), Some(token), true)];
  }

  lemma InitialOk()
    ensures NodeOk(Forwarder.INITIAL)
  {
  }

  function Fresh(q: Query, face: nat, sent: nat, token: nat): Node {
    Node(Created(EMPTY, q.name, sent, token), [PitEntry(q, [InRecord(face, Some(sent), Some(token), true)])],
         map[q.name := face])
  }

  /** Such a forwarder sends a reflexive Interest with its token back to that face, with that token. */
  lemma FreshReflects(q: Query, face: nat, sent: nat, token: nat, ri: Query, from: nat)
    requires Addressable(q.name) && KindOf(ri.name).FromProducer? && NodeOk(Fresh(q, face, sent, token))
    ensures var v := Fresh(q, face, sent, token);
            && Front(v, q.name) == Some(InRecord(face, Some(sent), Some(token), true))
            && Receive(v, from, ri, Some(token), [], Hit).1 == [SendInterest(face, ri, Some(sent))]
  {
    hide KindOf, Receive, NodeOk, Addressable, ByName;
    var v := Fresh(q, face, sent, token);
    assert v.pit[0].query.name == q.name;
    assert ByName(v.pit, q.name) == 0;
    ReflectsToFront(v, from, ri, q.name, [], Hit);
  }

  function AfterFirst(): Net {
    Net([Fresh(I1, 1, CONSUMER_TOKEN, 5), Forwarder.INITIAL], {Message(End(0, 2), I1, Some(5))}, {},
        {Asked(End(0, 1), I1.name, CONSUMER_TOKEN)}, {}, map[(0, I1.name) := 0], 1)
  }

  lemma FirstStep()
    ensures Step(LINK, Start(2), FIRST) == AfterFirst()
  {
    hide Receive, KindOf;
    DemoNames();
    FirstInterest(I1, 1, CONSUMER_TOKEN, 5, 2);
    assert Start(2).nodes == [Forwarder.INITIAL, Forwarder.INITIAL];
    var s := Step(LINK, Start(2), FIRST);
    assert s.nodes == AfterFirst().nodes;
    assert SentBy(0, [SendInterest(2, I1, Some(5))]) == {Message(End(0, 2), I1, Some(5))};
    assert s.sent == AfterFirst().sent && s.asked == AfterFirst().asked && s.born == AfterFirst().born;
  }

  lemma SecondStep()
    ensures var s := Step(LINK, AfterFirst(), SECOND);
            && s.nodes == [Fresh(I1, 1, CONSUMER_TOKEN, 5), Fresh(I1, 1, 5, 7)]
            && s.born == map[(0, I1.name) := 0, (1, I1.name) := 1]
  {
    hide Receive, KindOf;
    DemoNames();
    FirstInterest(I1, 1, 5, 7, 2);
  }

  /**
   Everything the walk asks for holds after these two steps, and the producer's reflexive Interest
   reaches the consumer with the consumer's token.
   */
  lemma DemoReachesConsumer()
    ensures var s := Run(LINK, Start(2), [FIRST, SECOND]);
            var p := AtNode(End(1, 2), 7);
            && WiringOk(LINK, 2) && Knows(s, 1, I1.name) && TokenOf(s, 1, I1.name) == 7
            && (1, I1.name) in s.born && s.born[(1, I1.name)] < 2
            && WayLeadsHome(LINK, [s, s], RI1, I1.name, p)
            && Walk(LINK, [s, s], RI1, p) == AtApplication(End(0, 1), CONSUMER_TOKEN)
  {
    hide Run, Walk, WayLeadsHome, Hop, LeadsHome, Fresh, Start;
    DemoRun();
    var s := Run(LINK, Start(2), [FIRST, SECOND]);
    DemoHops(s);
    WalkTwice(s, AtNode(End(1, 2), 7));
  }

  lemma DemoRun()
    ensures var s := Run(LINK, Start(2), [FIRST, SECOND]);
            && s.nodes == [Fresh(I1, 1, CONSUMER_TOKEN, 5), Fresh(I1, 1, 5, 7)]
            && s.born == map[(0, I1.name) := 0, (1, I1.name) := 1]
            && Knows(s, 0, I1.name) && Knows(s, 1, I1.name) && TokenOf(s, 1, I1.name) == 7
            && s.nodes[0].first[I1.name] == 1 && s.nodes[1].first[I1.name] == 1
  {
    hide ReflexiveNetwork.Step, Start, AfterFirst;
    FirstStep();
    SecondStep();
    assert [FIRST, SECOND][..1] == [FIRST] && [FIRST][..0] == [];
    assert Run(LINK, Start(2), []) == Start(2);
    assert Run(LINK, Start(2), [FIRST]) == AfterFirst();
  }

  lemma DemoHops(s: Net)
    requires s.nodes == [Fresh(I1, 1, CONSUMER_TOKEN, 5), Fresh(I1, 1, 5, 7)]
    ensures Hop(LINK, s, RI1, AtNode(End(1, 2), 7)) == AtNode(End(0, 2), 5)
    ensures Hop(LINK, s, RI1, AtNode(End(0, 2), 5)) == AtApplication(End(0, 1), CONSUMER_TOKEN)
    ensures LeadsHome(LINK, s, 1, I1.name) && LeadsHome(LINK, s, 0, I1.name)
  {
    hide Receive, KindOf, Front, NodeOk;
    DemoNames();
    FirstInterest(I1, 1, CONSUMER_TOKEN, 5, 2);
    FirstInterest(I1, 1, 5, 7, 2);
    FreshReflects(I1, 1, CONSUMER_TOKEN, 5, RI1, 2);
    FreshReflects(I1, 1, 5, 7, RI1, 2);
  }

  lemma WalkTwice(s: Net, p: Place)
    ensures Walk(LINK, [s, s], RI1, p) == Hop(LINK, s, RI1, Hop(LINK, s, RI1, p))
    ensures WayLeadsHome(LINK, [s, s], RI1, I1.name, p) <==>
            (p.AtNode? ==>
               && LeadsHome(LINK, s, p.at.node, I1.name)
               && var p' := Hop(LINK, s, RI1, p); (p'.AtNode? ==> LeadsHome(LINK, s, p'.at.node, I1.name)))
  {
    hide Hop, LeadsHome;
    assert [s, s][1..] == [s] && [s][1..] == [];
    var p' := Hop(LINK, s, RI1, p);
    assert Walk(LINK, [s], RI1, p') == Walk(LINK, [], RI1, Hop(LINK, s, RI1, p'));
    assert WayLeadsHome(LINK, [], RI1, I1.name, Hop(LINK, s, RI1, p'));
  }
}
