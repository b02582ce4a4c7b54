/**
 A network of forwarders in any topology. Consumers and producers are the faces without a link.
 Messages may be delivered late, repeatedly, out of order or never.
 */
module ReflexiveNetwork {
  import opened Wrappers
  import opened Names
  import opened Matching
  import opened PitTokens
  import opened TokenTables
  import opened Forwarder
  import opened DataForwarding

  /** A face of a forwarder. */
  datatype End = End(node: nat, face: nat)

  datatype Message = Message(at: End, query: Query, token: Option<nat>)

  datatype DataMessage = DataMessage(at: End, data: Data, token: Option<nat>)

  /** History: an application behind a face has sent an Interest with that token, zero if with none. */
  datatype Asked = Asked(at: End, name: Name, token: nat)

  /** History: a node took in a reflexive Interest at one face and sent it out at another. */
  datatype Passage = Passage(inside: End, query: Query, outside: End, time: nat)

  /** `sent` and `data` hold everything sent so far; `born` says when a node first saw a name. */
  datatype Net = Net(nodes: seq<Node>, sent: set<Message>, data: set<DataMessage>, asked: set<Asked>,
                     passages: set<Passage>, born: map<(nat, Name), nat>, clock: nat)

  datatype Event =
    | FromApplication(at: End, query: Query, token: Option<nat>, draws: seq<nat>, choice: Choice)
    | Deliver(at: End, message: Message, draws: seq<nat>, choice: Choice)
    | DataFromApplication(at: End, data: Data, token: Option<nat>, late: Late)
    | DeliverData(at: End, packet: DataMessage, late: Late)
    | DropRecord(node: nat, query: Query, face: nat)
    | DropEntry(node: nat, query: Query)

  /** Links join two different faces, both ways. */
  predicate WiringOk(link: map<End, End>, n: nat) {
    forall e | e in link :: link[e].node < n && link[e] in link && link[link[e]] == e
  }

  function Start(n: nat): Net {
    Net(seq(n, i => INITIAL), {}, {}, {}, {}, map[], 0)
  }

  function SentBy(node: nat, out: seq<Output>): set<Message> {
    set o | o in out && o.SendInterest? :: Message(End(node, o.face), o.query, o.token)
  }

  function PassagesOf(at: End, q: Query, out: seq<Output>, time: nat): set<Passage> {
    if KindOf(q.name).FromProducer?
    then set o | o in out && o.SendInterest? :: Passage(at, q, End(at.node, o.face), time) else {}
  }

  function Arrive(s: Net, at: End, q: Query, token: Option<nat>, draws: seq<nat>, choice: Choice): Net
    requires at.node < |s.nodes|
  {
    var (v, out) := Receive(s.nodes[at.node], at.face, q, token, draws, choice);
    var isNew := q.name in v.table.nameToToken && q.name !in s.nodes[at.node].table.nameToToken;
    s.(nodes := s.nodes[at.node := v], sent := s.sent + SentBy(at.node, out),
       passages := s.passages + PassagesOf(at, q, out, s.clock),
       born := if isNew then s.born[(at.node, q.name) := s.clock] else s.born, clock := s.clock + 1)
  }

  function ArriveData(s: Net, at: End, d: Data, token: Option<nat>, late: Late): Net
    requires at.node < |s.nodes|
  {
    var (v, out) := ReceiveData(s.nodes[at.node], at.face, d, token, late);
    s.(nodes := s.nodes[at.node := v],
       data := s.data + set o | o in out && o.SendData? :: DataMessage(End(at.node, o.face), d, o.token))
  }

  /** An event that cannot happen changes nothing. */
  function Step(link: map<End, End>, s: Net, e: Event): Net {
    match e
    case FromApplication(at, q, token, draws, choice) =>
      if at.node < |s.nodes| && at !in link
      then Arrive(s.(asked := s.asked + {Asked(at, q.name, Number(token))}), at, q, token, draws, choice)
      else s
    case Deliver(at, m, draws, choice) =>
      if at.node < |s.nodes| && at in link && link[at] == m.at && m in s.sent
      then Arrive(s, at, m.query, m.token, draws, choice)
      else s
    case DataFromApplication(at, d, token, late) =>
      if at.node < |s.nodes| && at !in link then ArriveData(s, at, d, token, late) else s
    case DeliverData(at, m, late) =>
      if at.node < |s.nodes| && at in link && link[at] == m.at && m in s.data
      then ArriveData(s, at, m.data, m.token, late)
      else s
    case DropRecord(node, q, face) =>
      if node < |s.nodes| then s.(nodes := s.nodes[node := Forget(s.nodes[node], q, face)]) else s
    case DropEntry(node, q) =>
      if node < |s.nodes| then s.(nodes := s.nodes[node := ForgetEntry(s.nodes[node], q)]) else s
  }

  function Run(link: map<End, End>, s: Net, es: seq<Event>): Net {
    if es == [] then s else Step(link, Run(link, s, es[..|es| - 1]), es[|es| - 1])
  }

  // ---- the invariant ----

  predicate Knows(s: Net, node: nat, n: Name) {
    node < |s.nodes| && n in s.nodes[node].table.nameToToken
  }

  function TokenOf(s: Net, node: nat, n: Name): nat
    requires Knows(s, node, n)
  {
    s.nodes[node].table.nameToToken[n]
  }

  /** What is behind a face is where an Interest `n` with that token came from. */
  predicate CameFrom(link: map<End, End>, s: Net, at: End, n: Name, token: nat) {
    if at in link then Knows(s, link[at].node, n) && TokenOf(s, link[at].node, n) == token
    else Asked(at, n, token) in s.asked
  }

  /** A name has a past: the token and face of its first Interest, from a node that knew it earlier. */
  predicate PastOk(link: map<End, End>, s: Net, j: nat, n: Name)
    requires Knows(s, j, n)
  {
    var v := s.nodes[j];
    && n in v.first && n in v.table.nameToPrev
    && (j, n) in s.born && s.born[(j, n)] < s.clock
    && CameFrom(link, s, End(j, v.first[n]), n, v.table.nameToPrev[n])
    && (End(j, v.first[n]) in link ==>
          var i := link[End(j, v.first[n])].node;
          (i, n) in s.born && s.born[(i, n)] < s.born[(j, n)])
  }

  predicate MessageOk(s: Net, m: Message) {
    KindOf(m.query.name).Reflexive? ==>
      Knows(s, m.at.node, m.query.name) && m.token == Some(TokenOf(s, m.at.node, m.query.name))
  }

  ghost predicate RecordsOk(link: map<End, End>, s: Net, j: nat)
    requires j < |s.nodes|
  {
    forall q, r | HasRecord(s.nodes[j].pit, q, r) && KindOf(q.name).Reflexive? ::
      CameFrom(link, s, End(j, r.face), q.name, Number(r.sent))
  }

  ghost predicate Inv(link: map<End, End>, s: Net) {
    && (forall j | 0 <= j < |s.nodes| :: NodeOk(s.nodes[j]))
    && (forall j, n | Knows(s, j, n) :: PastOk(link, s, j, n))
    && (forall m | m in s.sent :: MessageOk(s, m))
    && (forall j | 0 <= j < |s.nodes| :: RecordsOk(link, s, j))
    && (forall k | k in s.born :: Knows(s, k.0, k.1))
  }

  /** Translations, pasts and history, once there, never change. */
  predicate Grows(s: Net, s': Net) {
    && |s'.nodes| == |s.nodes|
    && (forall j | 0 <= j < |s.nodes| :: Forwarder.Grows(s.nodes[j], s'.nodes[j]))
    && s.asked <= s'.asked && s.sent <= s'.sent && s.clock <= s'.clock
    && s.data <= s'.data && s.passages <= s'.passages
    && (forall k | k in s.born :: k in s'.born && s'.born[k] == s.born[k])
  }

  lemma KnowsGrows(s: Net, s': Net, j: nat, n: Name)
    requires Grows(s, s') && Knows(s, j, n)
    ensures Knows(s', j, n) && TokenOf(s', j, n) == TokenOf(s, j, n)
  {
    assert Forwarder.Grows(s.nodes[j], s'.nodes[j]);
  }

  lemma CameFromGrows(link: map<End, End>, s: Net, s': Net, at: End, n: Name, token: nat)
    requires Grows(s, s') && CameFrom(link, s, at, n, token)
    ensures CameFrom(link, s', at, n, token)
  {
    hide Grows;
    if at in link {
      KnowsGrows(s, s', link[at].node, n);
    } else {
      assert s.asked <= s'.asked by { AskedGrows(s, s'); }
    }
  }

  lemma AskedGrows(s: Net, s': Net)
    requires Grows(s, s')
    ensures s.asked <= s'.asked
  {
  }

  lemma PastGrows(link: map<End, End>, s: Net, s': Net, j: nat, n: Name)
    requires Grows(s, s') && Knows(s, j, n) && PastOk(link, s, j, n)
    requires Knows(s', j, n) && n in s'.nodes[j].table.nameToPrev
    ensures PastOk(link, s', j, n)
  {
    hide CameFrom;
    assert Forwarder.Grows(s.nodes[j], s'.nodes[j]);
    CameFromGrows(link, s, s', End(j, s.nodes[j].first[n]), n, s.nodes[j].table.nameToPrev[n]);
  }

  // ---- every step ----

  /** `s'` differs from `s` at one node. */
  lemma NodeGrows(s: Net, s': Net, j: nat)
    requires j < |s.nodes| == |s'.nodes| && s'.nodes == s.nodes[j := s'.nodes[j]]
    requires Forwarder.Grows(s.nodes[j], s'.nodes[j])
    requires s.asked <= s'.asked && s.sent <= s'.sent && s.clock <= s'.clock
    requires s.data <= s'.data && s.passages <= s'.passages
    requires forall k | k in s.born :: k in s'.born && s'.born[k] == s.born[k]
    ensures Grows(s, s')
  {
    hide Extends;
    forall i | 0 <= i < |s.nodes|
      ensures Forwarder.Grows(s.nodes[i], s'.nodes[i])
    {
      ExtendsSelf(s.nodes[i].table);
    }
  }

  lemma ArriveGrows(link: map<End, End>, s: Net, at: End, q: Query, token: Option<nat>, draws: seq<nat>, choice: Choice)
    requires Inv(link, s) && at.node < |s.nodes|
    ensures Grows(s, Arrive(s, at, q, token, draws, choice))
  {
    hide PastOk, MessageOk, RecordsOk, NodeOk, Receive, Forwarder.Grows;
    ReceiveOk(s.nodes[at.node], at.face, q, token, draws, choice);
    NodeGrows(s, Arrive(s, at, q, token, draws, choice), at.node);
  }

  lemma ArriveKeeps(link: map<End, End>, s: Net, at: End, q: Query, token: Option<nat>, draws: seq<nat>, choice: Choice)
    requires Inv(link, s) && at.node < |s.nodes|
    requires KindOf(q.name).Reflexive? ==> CameFrom(link, s, at, q.name, Number(token))
    ensures Inv(link, Arrive(s, at, q, token, draws, choice))
  {
    hide NodeOk, Receive, KindOf, CameFrom, HasRecord, PastOk, MessageOk, RecordsOk, Grows, Knows, SentBy;
    var s' := Arrive(s, at, q, token, draws, choice);
    ArriveGrows(link, s, at, q, token, draws, choice);
    ReceiveOk(s.nodes[at.node], at.face, q, token, draws, choice);
    forall j, n | Knows(s', j, n)
      ensures PastOk(link, s', j, n)
    {
      ArrivePast(link, s, at, q, token, draws, choice, j, n);
    }
    forall m | m in s'.sent
      ensures MessageOk(s', m)
    {
      ArriveMessage(link, s, at, q, token, draws, choice, m);
    }
    forall j | 0 <= j < |s'.nodes|
      ensures RecordsOk(link, s', j)
    {
      ArriveRecords(link, s, at, q, token, draws, choice, j);
    }
    forall k | k in s'.born
      ensures Knows(s', k.0, k.1)
    {
      ArriveBorn(link, s, at, q, token, draws, choice, k);
    }
  }

  lemma ArriveBorn(link: map<End, End>, s: Net, at: End, q: Query, token: Option<nat>, draws: seq<nat>, choice: Choice,
                   k: (nat, Name))
    requires Inv(link, s) && at.node < |s.nodes|
    requires k in Arrive(s, at, q, token, draws, choice).born
    ensures Knows(Arrive(s, at, q, token, draws, choice), k.0, k.1)
  {
    hide NodeOk, Receive, PastOk, MessageOk, RecordsOk, Grows;
    ArriveGrows(link, s, at, q, token, draws, choice);
    if k in s.born {
      KnowsGrows(s, Arrive(s, at, q, token, draws, choice), k.0, k.1);
    }
  }

  lemma ArrivePast(link: map<End, End>, s: Net, at: End, q: Query, token: Option<nat>, draws: seq<nat>, choice: Choice,
                   j: nat, n: Name)
    requires Inv(link, s) && at.node < |s.nodes|
    requires KindOf(q.name).Reflexive? ==> CameFrom(link, s, at, q.name, Number(token))
    requires Knows(Arrive(s, at, q, token, draws, choice), j, n)
    ensures PastOk(link, Arrive(s, at, q, token, draws, choice), j, n)
  {
    hide Receive, KindOf, HasRecord, MessageOk, RecordsOk, TableOk, PitOk, Grows;
    var s' := Arrive(s, at, q, token, draws, choice);
    ArriveGrows(link, s, at, q, token, draws, choice);
    var v := s.nodes[at.node];
    ReceiveOk(v, at.face, q, token, draws, choice);
    if Knows(s, j, n) {
      KeysKnown(s'.nodes[j], n);
      PastGrows(link, s, s', j, n);
    } else {
      assert j == at.node;
      ReceiveLearns(v, at.face, q, token, draws, choice, n);
      assert KindOf(n).Reflexive?;
      CameFromGrows(link, s, s', at, n, Number(token));
      if at in link {
        KnowsGrows(s, s', link[at].node, n);
        assert PastOk(link, s, link[at].node, n);
      }
    }
  }

  lemma KeysKnown(v: Node, n: Name)
    requires NodeOk(v) && n in v.table.nameToToken
    ensures n in v.table.nameToPrev && n in v.first
  {
    hide NamesBack, KeysBack, PitOk;
  }

  lemma ArriveMessage(link: map<End, End>, s: Net, at: End, q: Query, token: Option<nat>, draws: seq<nat>,
                      choice: Choice, m: Message)
    requires Inv(link, s) && at.node < |s.nodes|
    requires m in Arrive(s, at, q, token, draws, choice).sent
    ensures MessageOk(Arrive(s, at, q, token, draws, choice), m)
  {
    hide NodeOk, Receive, PastOk, RecordsOk, KindOf, Grows;
    var s' := Arrive(s, at, q, token, draws, choice);
    ArriveGrows(link, s, at, q, token, draws, choice);
    var v := s.nodes[at.node];
    if m in s.sent {
      assert MessageOk(s, m);
      if KindOf(m.query.name).Reflexive? {
        KnowsGrows(s, s', m.at.node, m.query.name);
      }
    } else {
      var out := Receive(v, at.face, q, token, draws, choice).1;
      var o :| o in out && o.SendInterest? && m == Message(End(at.node, o.face), o.query, o.token);
      ReceiveSends(v, at.face, q, token, draws, choice, o);
    }
  }

  lemma ArriveRecords(link: map<End, End>, s: Net, at: End, q: Query, token: Option<nat>, draws: seq<nat>,
                      choice: Choice, j: nat)
    requires Inv(link, s) && at.node < |s.nodes| && j < |s.nodes|
    requires KindOf(q.name).Reflexive? ==> CameFrom(link, s, at, q.name, Number(token))
    ensures RecordsOk(link, Arrive(s, at, q, token, draws, choice), j)
  {
    hide NodeOk, Receive, PastOk, MessageOk, KindOf, HasRecord, CameFrom, Grows;
    var s' := Arrive(s, at, q, token, draws, choice);
    ArriveGrows(link, s, at, q, token, draws, choice);
    forall p, r | HasRecord(s'.nodes[j].pit, p, r) && KindOf(p.name).Reflexive?
      ensures CameFrom(link, s', End(j, r.face), p.name, Number(r.sent))
    {
      if j == at.node {
        ReceiveRecords(s.nodes[j], at.face, q, token, draws, choice, p, r);
      }
      if HasRecord(s.nodes[j].pit, p, r) {
        assert RecordsOk(link, s, j);
        CameFromGrows(link, s, s', End(j, r.face), p.name, Number(r.sent));
      } else {
        CameFromGrows(link, s, s', at, q.name, Number(token));
      }
    }
  }

  /** A step that adds no name, no message and no in-record. */
  lemma QuietKeeps(link: map<End, End>, s: Net, s': Net)
    requires Inv(link, s) && Grows(s, s') && s'.sent == s.sent && s'.born == s.born
    requires forall j | 0 <= j < |s'.nodes| :: NodeOk(s'.nodes[j]) && s'.nodes[j].table == s.nodes[j].table
    requires forall j, q, r | 0 <= j < |s'.nodes| && HasRecord(s'.nodes[j].pit, q, r) ::
               HasRecord(s.nodes[j].pit, q, r)
    ensures Inv(link, s')
  {
    hide NodeOk, KindOf, HasRecord, CameFrom, Forwarder.Grows;
    forall i, n | Knows(s', i, n)
      ensures PastOk(link, s', i, n)
    {
      assert Knows(s, i, n) && PastOk(link, s, i, n);
      PastGrows(link, s, s', i, n);
    }
    forall i | 0 <= i < |s'.nodes|
      ensures RecordsOk(link, s', i)
    {
      forall q, r | HasRecord(s'.nodes[i].pit, q, r) && KindOf(q.name).Reflexive?
        ensures CameFrom(link, s', End(i, r.face), q.name, Number(r.sent))
      {
        assert RecordsOk(link, s, i);
        CameFromGrows(link, s, s', End(i, r.face), q.name, Number(r.sent));
      }
    }
    forall m | m in s'.sent
      ensures MessageOk(s', m)
    {
      assert MessageOk(s, m);
    }
  }

  lemma DropKeeps(link: map<End, End>, s: Net, j: nat, v: Node)
    requires Inv(link, s) && j < |s.nodes| && NodeOk(v)
    requires v == s.nodes[j].(pit := v.pit)
    requires forall q, r | HasRecord(v.pit, q, r) :: HasRecord(s.nodes[j].pit, q, r)
    ensures Inv(link, s.(nodes := s.nodes[j := v])) && Grows(s, s.(nodes := s.nodes[j := v]))
  {
    hide NodeOk, HasRecord, PastOk, RecordsOk, MessageOk, Grows, Extends;
    var s' := s.(nodes := s.nodes[j := v]);
    ExtendsSelf(v.table);
    NodeGrows(s, s', j);
    QuietKeeps(link, s, s');
  }

  lemma DataKeeps(link: map<End, End>, s: Net, at: End, d: Data, token: Option<nat>, late: Late)
    requires Inv(link, s) && at.node < |s.nodes|
    ensures var s' := ArriveData(s, at, d, token, late); Inv(link, s') && Grows(s, s')
  {
    hide NodeOk, HasRecord, PastOk, RecordsOk, MessageOk, ReceiveData, Grows, Extends;
    var s' := ArriveData(s, at, d, token, late);
    var v := s'.nodes[at.node];
    ReceiveDataOk(s.nodes[at.node], at.face, d, token, late);
    ExtendsSelf(v.table);
    NodeGrows(s, s', at.node);
    QuietKeeps(link, s, s');
  }

  lemma AskKeeps(link: map<End, End>, s: Net, a: Asked)
    requires Inv(link, s)
    ensures var s' := s.(asked := s.asked + {a}); Inv(link, s') && Grows(s, s')
  {
    hide NodeOk, HasRecord, PastOk, RecordsOk, MessageOk, Grows;
    AskGrows(s, a);
    QuietKeeps(link, s, s.(asked := s.asked + {a}));
  }

  lemma AskGrows(s: Net, a: Asked)
    ensures Grows(s, s.(asked := s.asked + {a}))
  {
    hide Extends;
    forall j | 0 <= j < |s.nodes|
      ensures Forwarder.Grows(s.nodes[j], s.nodes[j])
    {
      ExtendsSelf(s.nodes[j].table);
    }
  }

  lemma GrowsTrans(a: Net, b: Net, c: Net)
    requires Grows(a, b) && Grows(b, c)
    ensures Grows(a, c)
  {
    forall j | 0 <= j < |a.nodes|
      ensures Forwarder.Grows(a.nodes[j], c.nodes[j])
    {
      assert Forwarder.Grows(a.nodes[j], b.nodes[j]) && Forwarder.Grows(b.nodes[j], c.nodes[j]);
    }
  }

  lemma GrowsSelf(s: Net)
    ensures Grows(s, s)
  {
    hide Extends;
    forall j | 0 <= j < |s.nodes|
      ensures Forwarder.Grows(s.nodes[j], s.nodes[j])
    {
      ExtendsSelf(s.nodes[j].table);
    }
  }

  lemma StepKeeps(link: map<End, End>, s: Net, e: Event)
    requires Inv(link, s)
    ensures Inv(link, Step(link, s, e)) && Grows(s, Step(link, s, e))
  {
    hide Inv, Grows, Arrive, KindOf;
    GrowsSelf(s);
    match e {
      case FromApplication(at, q, token, draws, choice) =>
        if at.node < |s.nodes| && at !in link {
          var s1 := s.(asked := s.asked + {Asked(at, q.name, Number(token))});
          AskKeeps(link, s, Asked(at, q.name, Number(token)));
          ArriveKeeps(link, s1, at, q, token, draws, choice);
          ArriveGrows(link, s1, at, q, token, draws, choice);
          GrowsTrans(s, s1, Arrive(s1, at, q, token, draws, choice));
        }
      case Deliver(at, m, draws, choice) =>
        if at.node < |s.nodes| && at in link && link[at] == m.at && m in s.sent {
          MessageOfInv(link, s, m);
          ArriveKeeps(link, s, at, m.query, m.token, draws, choice);
          ArriveGrows(link, s, at, m.query, m.token, draws, choice);
        }
      case DataFromApplication(at, d, token, late) =>
        if at.node < |s.nodes| && at !in link {
          DataKeeps(link, s, at, d, token, late);
        }
      case DeliverData(at, m, late) =>
        if at.node < |s.nodes| && at in link && link[at] == m.at && m in s.data {
          DataKeeps(link, s, at, m.data, m.token, late);
        }
      case DropRecord(node, q, face) =>
        if node < |s.nodes| {
          DropNode(link, s, node, q, face);
        }
      case DropEntry(node, q) =>
        if node < |s.nodes| {
          DropNode(link, s, node, q, 0);
        }
    }
  }

  lemma MessageOfInv(link: map<End, End>, s: Net, m: Message)
    requires Inv(link, s) && m in s.sent
    ensures MessageOk(s, m)
  {
  }

  lemma DropNode(link: map<End, End>, s: Net, j: nat, q: Query, face: nat)
    requires Inv(link, s) && j < |s.nodes|
    ensures var s' := s.(nodes := s.nodes[j := Forget(s.nodes[j], q, face)]); Inv(link, s') && Grows(s, s')
    ensures var s' := s.(nodes := s.nodes[j := ForgetEntry(s.nodes[j], q)]); Inv(link, s') && Grows(s, s')
  {
    hide NodeOk, PastOk, MessageOk, RecordsOk, HasRecord, Grows;
    var v := s.nodes[j];
    ForgetOk(v, q, face);
    PitOfNode(v);
    forall p, r | HasRecord(Forget(v, q, face).pit, p, r) || HasRecord(ForgetEntry(v, q).pit, p, r)
      ensures HasRecord(v.pit, p, r)
    {
      ForgetRecords(v, q, face, p, r);
    }
    DropKeeps(link, s, j, Forget(v, q, face));
    DropKeeps(link, s, j, ForgetEntry(v, q));
  }

  /** In every run, from any state in order, the network stays in order and forgets no translation. */
  lemma {:induction false} RunKeeps(link: map<End, End>, s: Net, es: seq<Event>)
    requires Inv(link, s)
    ensures Inv(link, Run(link, s, es)) && Grows(s, Run(link, s, es))
  {
    hide Inv, Grows, Step;
    GrowsSelf(s);
    if es != [] {
      var s1 := Run(link, s, es[..|es| - 1]);
      RunKeeps(link, s, es[..|es| - 1]);
      StepKeeps(link, s1, es[|es| - 1]);
      GrowsTrans(s, s1, Run(link, s, es));
    }
  }

  lemma StartInv(link: map<End, End>, n: nat)
    ensures Inv(link, Start(n))
  {
    assert NodeOk(INITIAL);
  }

  /** The message that an Interest from a consumer becomes at the next hop, if one is chosen. */
  function Onward(s': Net, at: End, q: Query, token: Option<nat>, choice: Choice): set<Message>
    requires KindOf(q.name).Reflexive? ==> Knows(s', at.node, q.name)
  {
    if ChosenFace(choice).None? then {}
    else {Message(End(at.node, ChosenFace(choice).value), q,
                  if KindOf(q.name).Reflexive? then Some(TokenOf(s', at.node, q.name))
                  else if choice.NextHop? then token else None)}
  }

  lemma ArriveLeaves(s: Net, at: End, q: Query, token: Option<nat>, draws: seq<nat>, choice: Choice)
    requires at.node < |s.nodes| && NodeOk(s.nodes[at.node]) && CanTake(s.nodes[at.node], q, draws)
    ensures var s' := Arrive(s, at, q, token, draws, choice);
            && (KindOf(q.name).Reflexive? ==> Knows(s', at.node, q.name))
            && s'.sent == s.sent + Onward(s', at, q, token, choice)
  {
    hide Receive, KindOf, NodeOk, CanTake;
    LeavesByChosenFace(s.nodes[at.node], at.face, q, token, draws, choice);
  }

  /**
   In every run an Interest from a consumer, whether the application is at this node or the Interest
   comes over a link, is sent on to the chosen next hop and nowhere else.
   */
  lemma InterestGoesOnward(link: map<End, End>, size: nat, es: seq<Event>, e: Event)
    requires e.FromApplication? || e.Deliver?
    requires var s := Run(link, Start(size), es);
             && e.at.node < |s.nodes|
             && (e.FromApplication? ==> e.at !in link)
             && (e.Deliver? ==> e.at in link && link[e.at] == e.message.at && e.message in s.sent)
             && CanTake(s.nodes[e.at.node], if e.Deliver? then e.message.query else e.query, e.draws)
    ensures var s, s' := Run(link, Start(size), es), Run(link, Start(size), es + [e]);
            var q, token := if e.Deliver? then e.message.query else e.query,
                            if e.Deliver? then e.message.token else e.token;
            && (KindOf(q.name).Reflexive? ==> Knows(s', e.at.node, q.name))
            && s'.sent == s.sent + Onward(s', e.at, q, token, e.choice)
  {
    hide Inv, KindOf, NodeOk, CanTake, Onward, Arrive, Run;
    StartInv(link, size);
    RunKeeps(link, Start(size), es);
    OneMore(link, Start(size), es, e);
    var s := Run(link, Start(size), es);
    NodeInOrder(link, s, e.at.node);
    match e {
      case FromApplication(at, q, token, draws, choice) =>
        ArriveLeaves(s.(asked := s.asked + {Asked(at, q.name, Number(token))}), at, q, token, draws, choice);
      case Deliver(at, m, draws, choice) =>
        ArriveLeaves(s, at, m.query, m.token, draws, choice);
    }
  }

  lemma NodeInOrder(link: map<End, End>, s: Net, j: nat)
    requires Inv(link, s) && j < |s.nodes|
    ensures NodeOk(s.nodes[j])
  {
  }

  lemma OneMore(link: map<End, End>, s: Net, es: seq<Event>, e: Event)
    ensures Run(link, s, es + [e]) == Step(link, Run(link, s, es), e)
  {
    hide Step;
    assert (es + [e])[..|es|] == es;
  }

  // ---- the way back ----

  /** Where a reflexive Interest is, and the token it carries. */
  datatype Place = AtNode(at: End, token: nat) | AtApplication(at: End, token: nat) | Gone

  /** What the forwarder at `p` does with a reflexive Interest from the producer side. */
  function Hop(link: map<End, End>, s: Net, q: Query, p: Place): Place {
    if !p.AtNode? || p.at.node >= |s.nodes| then p
    else
      var out := Receive(s.nodes[p.at.node], p.at.face, q, Some(p.token), [], Hit).1;
      if |out| != 1 || !out[0].SendInterest? then Gone
      else
        var e := End(p.at.node, out[0].face);
        if e in link then AtNode(link[e], Number(out[0].token)) else AtApplication(e, Number(out[0].token))
  }

  /** One hop in each state of the trace; anything may happen in the network in between. */
  function Walk(link: map<End, End>, trace: seq<Net>, q: Query, p: Place): Place
    decreases |trace|
  {
    if trace == [] then p else Walk(link, trace[1..], q, Hop(link, trace[0], q, p))
  }

  /** The newest face waiting for the name is the one its first Interest came from. */
  predicate FirstIsWaiting(s: Net, j: nat, n: Name) {
    && Knows(s, j, n) && n in s.nodes[j].first
    && Front(s.nodes[j], n).Some?
    && Front(s.nodes[j], n).value.face == s.nodes[j].first[n]
  }

  /** That holds at every node when the Interest gets there. */
  predicate WayIsOpen(link: map<End, End>, trace: seq<Net>, q: Query, n: Name, p: Place)
    decreases |trace|
  {
    p.AtNode? && trace != [] ==>
      FirstIsWaiting(trace[0], p.at.node, n) && WayIsOpen(link, trace[1..], q, n, Hop(link, trace[0], q, p))
  }

  /** The application whose Interest made the name known along the chain of first faces. */
  ghost function Source(link: map<End, End>, s: Net, j: nat, n: Name): (a: Asked)
    requires Inv(link, s) && Knows(s, j, n)
    ensures a in s.asked && a.name == n && a.at !in link
    decreases s.born[(j, n)]
  {
    assert PastOk(link, s, j, n);
    var v := s.nodes[j];
    var e := End(j, v.first[n]);
    if e in link then Source(link, s, link[e].node, n) else Asked(e, n, v.table.nameToPrev[n])
  }

  /** One hop: on to the node the name came from, with that node's token, or to the application. */
  lemma HopFollowsFirst(link: map<End, End>, s: Net, t: Net, q: Query, n: Name, at: End)
    requires Inv(link, s) && Inv(link, t) && Grows(s, t)
    requires Knows(s, at.node, n) && KindOf(q.name).FromProducer? && FirstIsWaiting(t, at.node, n)
    ensures var v := s.nodes[at.node];
            && PastOk(link, s, at.node, n)
            && var e := End(at.node, v.first[n]);
               Hop(link, t, q, AtNode(at, TokenOf(s, at.node, n)))
               == if e in link then AtNode(link[e], TokenOf(s, link[e].node, n))
                  else AtApplication(e, v.table.nameToPrev[n])
  {
    hide Receive, KindOf, NodeOk, Front, Inv, Grows;
    PastOfInv(link, s, at.node, n);
    PastOfInv(link, t, at.node, n);
    SamePast(s, t, at.node, n);
    ReflectsToFront(t.nodes[at.node], at.face, q, n, [], Hit);
  }

  lemma PastOfInv(link: map<End, End>, s: Net, j: nat, n: Name)
    requires Inv(link, s) && Knows(s, j, n)
    ensures PastOk(link, s, j, n) && NodeOk(s.nodes[j])
  {
  }

  lemma SamePast(s: Net, t: Net, j: nat, n: Name)
    requires Grows(s, t) && Knows(s, j, n)
    requires n in s.nodes[j].first && n in s.nodes[j].table.nameToPrev
    ensures Knows(t, j, n) && TokenOf(t, j, n) == TokenOf(s, j, n)
    ensures n in t.nodes[j].first && t.nodes[j].first[n] == s.nodes[j].first[n]
    ensures n in t.nodes[j].table.nameToPrev && t.nodes[j].table.nameToPrev[n] == s.nodes[j].table.nameToPrev[n]
  {
    assert Forwarder.Grows(s.nodes[j], t.nodes[j]);
  }

  /**
   Whatever happens in between, as long as the face of the first Interest is the newest waiting at
   each node on the way, a reflexive Interest carrying a node's token for a name reaches the
   application that asked for the name, carrying the token that application had sent.
   */
  lemma {:induction false} WalkReachesSource(link: map<End, End>, s: Net, trace: seq<Net>, q: Query, n: Name, at: End)
    requires Inv(link, s) && WiringOk(link, |s.nodes|)
    requires Knows(s, at.node, n) && KindOf(q.name).FromProducer?
    requires forall t | t in trace :: Inv(link, t) && Grows(s, t)
    requires (at.node, n) in s.born && |trace| > s.born[(at.node, n)]
    requires WayIsOpen(link, trace, q, n, AtNode(at, TokenOf(s, at.node, n)))
    ensures var a := Source(link, s, at.node, n);
            Walk(link, trace, q, AtNode(at, TokenOf(s, at.node, n))) == AtApplication(a.at, a.token)
    decreases |trace|
  {
    hide Inv, Grows, KindOf, Hop, FirstIsWaiting;
    HopFollowsFirst(link, s, trace[0], q, n, at);
    var e := End(at.node, s.nodes[at.node].first[n]);
    if e in link {
      WalkReachesSource(link, s, trace[1..], q, n, link[e]);
      SourceStep(link, s, at.node, n);
    } else {
      SourceStep(link, s, at.node, n);
      WalkStays(link, trace[1..], q, AtApplication(e, s.nodes[at.node].table.nameToPrev[n]));
    }
  }

  lemma SourceStep(link: map<End, End>, s: Net, j: nat, n: Name)
    requires Inv(link, s) && Knows(s, j, n) && PastOk(link, s, j, n)
    ensures var e := End(j, s.nodes[j].first[n]);
            Source(link, s, j, n) == if e in link then Source(link, s, link[e].node, n)
                                     else Asked(e, n, s.nodes[j].table.nameToPrev[n])
  {
    hide Inv;
  }

  lemma {:induction false} WalkStays(link: map<End, End>, trace: seq<Net>, q: Query, p: Place)
    requires !p.AtNode?
    ensures Walk(link, trace, q, p) == p
    decreases |trace|
  {
    if trace != [] {
      WalkStays(link, trace[1..], q, p);
    }
  }

  // ---- any newest face ----

  /** At a node with that node's token for the name, or at an application that sent that token with it. */
  predicate OnTrack(link: map<End, End>, s: Net, n: Name, p: Place) {
    match p
    case AtNode(at, token) => Knows(s, at.node, n) && TokenOf(s, at.node, n) == token
    case AtApplication(at, token) => at !in link && Asked(at, n, token) in s.asked
    case Gone => false
  }

  /** The newest face waiting for the name had sent the token of the first Interest of that name. */
  predicate NewestSentFirst(s: Net, j: nat, n: Name) {
    && Knows(s, j, n) && n in s.nodes[j].table.nameToPrev
    && Front(s.nodes[j], n).Some? && Number(Front(s.nodes[j], n).value.sent) == s.nodes[j].table.nameToPrev[n]
  }

  /** A hop from node `j` is right: the next node knows the token, or the application gets the one it sent. */
  predicate RightHop(link: map<End, End>, s: Net, j: nat, n: Name, next: Place) {
    match next
    case AtNode(_, _) => OnTrack(link, s, n, next)
    case AtApplication(_, token) =>
      j < |s.nodes| && Front(s.nodes[j], n).Some? && token == Number(Front(s.nodes[j], n).value.sent)
    case Gone => false
  }

  /** A hop is right exactly when the newest face had sent the first token. */
  lemma HopRightIff(link: map<End, End>, s: Net, q: Query, n: Name, at: End)
    requires Inv(link, s) && Knows(s, at.node, n) && KindOf(q.name).FromProducer?
    ensures var next := Hop(link, s, q, AtNode(at, TokenOf(s, at.node, n)));
            && (RightHop(link, s, at.node, n, next) <==> NewestSentFirst(s, at.node, n))
            && (NewestSentFirst(s, at.node, n) ==> OnTrack(link, s, n, next))
  {
    hide Receive, KindOf, NodeOk, Front, Inv;
    PastOfInv(link, s, at.node, n);
    ReflectsToFront(s.nodes[at.node], at.face, q, n, [], Hit);
    if Front(s.nodes[at.node], n).Some? {
      FrontCameFrom(link, s, at.node, n);
    }
  }

  /** Later states, in order. */
  ghost predicate Growing(link: map<End, End>, s: Net, trace: seq<Net>)
    decreases |trace|
  {
    trace != [] ==> Inv(link, trace[0]) && Grows(s, trace[0]) && Growing(link, trace[0], trace[1..])
  }

  function Last(s: Net, trace: seq<Net>): Net {
    if trace == [] then s else trace[|trace| - 1]
  }

  predicate AllRight(link: map<End, End>, trace: seq<Net>, q: Query, n: Name, p: Place)
    decreases |trace|
  {
    p.AtNode? && trace != [] ==>
      var next := Hop(link, trace[0], q, p);
      RightHop(link, trace[0], p.at.node, n, next) && AllRight(link, trace[1..], q, n, next)
  }

  /** At every node the walk visits, when it is there, the newest face had sent the first token. */
  predicate TokensAgree(link: map<End, End>, trace: seq<Net>, q: Query, n: Name, p: Place)
    decreases |trace|
  {
    p.AtNode? && trace != [] ==>
      NewestSentFirst(trace[0], p.at.node, n) && TokensAgree(link, trace[1..], q, n, Hop(link, trace[0], q, p))
  }

  lemma OnTrackGrows(link: map<End, End>, s: Net, t: Net, n: Name, p: Place)
    requires Grows(s, t) && OnTrack(link, s, n, p)
    ensures OnTrack(link, t, n, p)
  {
    hide Grows;
    if p.AtNode? {
      KnowsGrows(s, t, p.at.node, n);
    } else {
      AskedGrows(s, t);
    }
  }

  /**
   Whatever happens in between, every hop of the walk is right if and only if at every node on the
   way the newest face had sent the token of the first Interest of the name. Then the walk is never
   lost, and wherever it leaves the network it is at an application that asked for the name, with
   the token that application had sent.
   */
  lemma {:induction false} WalkRightIff(link: map<End, End>, s: Net, trace: seq<Net>, q: Query, n: Name, p: Place)
    requires OnTrack(link, s, n, p) && Growing(link, s, trace) && KindOf(q.name).FromProducer?
    ensures AllRight(link, trace, q, n, p) <==> TokensAgree(link, trace, q, n, p)
    ensures AllRight(link, trace, q, n, p) ==> OnTrack(link, Last(s, trace), n, Walk(link, trace, q, p))
    decreases |trace|
  {
    hide Inv, Grows, KindOf, Hop, RightHop, NewestSentFirst, OnTrack;
    if trace != [] {
      var t := trace[0];
      OnTrackGrows(link, s, t, n, p);
      var next := Hop(link, t, q, p);
      if p.AtNode? {
        AtNodeOnTrack(link, t, n, p);
        HopRightIff(link, t, q, n, p.at);
        if NewestSentFirst(t, p.at.node, n) {
          WalkRightIff(link, t, trace[1..], q, n, next);
        }
      } else {
        HopStays(link, t, q, p);
        WalkRightIff(link, t, trace[1..], q, n, p);
      }
    }
  }

  lemma AtNodeOnTrack(link: map<End, End>, s: Net, n: Name, p: Place)
    requires OnTrack(link, s, n, p) && p.AtNode?
    ensures Knows(s, p.at.node, n) && p == AtNode(p.at, TokenOf(s, p.at.node, n))
  {
  }

  lemma HopStays(link: map<End, End>, s: Net, q: Query, p: Place)
    requires !p.AtNode?
    ensures Hop(link, s, q, p) == p
  {
  }

  // ---- arrival ----

  /**
   The newest face waiting is the first one, or had sent the first token and is an application or a
   node that knew the name earlier.
   */
  predicate LeadsHome(link: map<End, End>, s: Net, j: nat, n: Name) {
    && Knows(s, j, n) && Front(s.nodes[j], n).Some?
    && var e := End(j, Front(s.nodes[j], n).value.face);
       || FirstIsWaiting(s, j, n)
       || (NewestSentFirst(s, j, n) && (e in link ==> Earlier(s, link[e].node, j, n)))
  }

  predicate Earlier(s: Net, i: nat, j: nat, n: Name) {
    (i, n) in s.born && (j, n) in s.born && s.born[(i, n)] < s.born[(j, n)]
  }

  /** That holds at every node when the Interest gets there. */
  predicate WayLeadsHome(link: map<End, End>, trace: seq<Net>, q: Query, n: Name, p: Place)
    decreases |trace|
  {
    p.AtNode? && trace != [] ==>
      LeadsHome(link, trace[0], p.at.node, n) && WayLeadsHome(link, trace[1..], q, n, Hop(link, trace[0], q, p))
  }

  lemma HopLeadsHome(link: map<End, End>, s: Net, q: Query, n: Name, at: End)
    requires Inv(link, s) && Knows(s, at.node, n) && KindOf(q.name).FromProducer? && LeadsHome(link, s, at.node, n)
    ensures var next := Hop(link, s, q, AtNode(at, TokenOf(s, at.node, n)));
            && OnTrack(link, s, n, next)
            && (next.AtNode? ==> Earlier(s, next.at.node, at.node, n))
  {
    hide Receive, KindOf, NodeOk, Front, Inv, Grows;
    PastOfInv(link, s, at.node, n);
    ReflectsToFront(s.nodes[at.node], at.face, q, n, [], Hit);
    if !FirstIsWaiting(s, at.node, n) {
      HopRightIff(link, s, q, n, at);
    }
  }

  lemma {:induction false} WalkArrives(link: map<End, End>, s: Net, trace: seq<Net>, q: Query, n: Name, at: End)
    requires Growing(link, s, trace) && KindOf(q.name).FromProducer? && Knows(s, at.node, n)
    requires (at.node, n) in s.born && s.born[(at.node, n)] < |trace|
    requires WayLeadsHome(link, trace, q, n, AtNode(at, TokenOf(s, at.node, n)))
    ensures var p := Walk(link, trace, q, AtNode(at, TokenOf(s, at.node, n)));
            p.AtApplication? && OnTrack(link, Last(s, trace), n, p)
    decreases |trace|
  {
    hide Inv, Grows, KindOf, Hop, LeadsHome, OnTrack;
    var t := trace[0];
    KnowsGrows(s, t, at.node, n);
    BornGrows(s, t, at.node, n);
    HopLeadsHome(link, t, q, n, at);
    var next := Hop(link, t, q, AtNode(at, TokenOf(s, at.node, n)));
    if next.AtNode? {
      AtNodeOnTrack(link, t, n, next);
      WalkArrives(link, t, trace[1..], q, n, next.at);
    } else {
      WalkStays(link, trace[1..], q, next);
      OnTrackLast(link, t, trace[1..], n, next);
      NotGone(link, t, n, next);
    }
  }

  lemma BornGrows(s: Net, t: Net, j: nat, n: Name)
    requires Grows(s, t) && (j, n) in s.born
    ensures (j, n) in t.born && t.born[(j, n)] == s.born[(j, n)]
  {
  }

  lemma NotGone(link: map<End, End>, s: Net, n: Name, p: Place)
    requires OnTrack(link, s, n, p)
    ensures !p.Gone?
  {
  }

  lemma {:induction false} OnTrackLast(link: map<End, End>, s: Net, trace: seq<Net>, n: Name, p: Place)
    requires OnTrack(link, s, n, p) && Growing(link, s, trace)
    ensures OnTrack(link, Last(s, trace), n, p)
    decreases |trace|
  {
    hide Inv, Grows, OnTrack;
    if trace != [] {
      OnTrackGrows(link, s, trace[0], n, p);
      OnTrackLast(link, trace[0], trace[1..], n, p);
    }
  }

  // ---- over runs ----

  /** The states a network is in after each of several further runs. */
  function States(link: map<End, End>, s: Net, runs: seq<seq<Event>>): (trace: seq<Net>)
    ensures |trace| == |runs|
    decreases |runs|
  {
    if runs == [] then []
    else
      var t := Run(link, s, runs[0]);
      [t] + States(link, t, runs[1..])
  }

  lemma {:induction false} StatesGrow(link: map<End, End>, s: Net, runs: seq<seq<Event>>)
    requires Inv(link, s)
    ensures Growing(link, s, States(link, s, runs))
    decreases |runs|
  {
    hide Inv, Grows, Run;
    if runs != [] {
      var t := Run(link, s, runs[0]);
      RunKeeps(link, s, runs[0]);
      StatesGrow(link, t, runs[1..]);
      assert ([t] + States(link, t, runs[1..]))[1..] == States(link, t, runs[1..]);
    }
  }

  /**
   In every run, from where a node knows the name, with any further run before each hop: if the way
   leads home, the reflexive Interest reaches an application that asked for the name, with the token
   that application had sent.
   */
  lemma ReflexiveInterestReachesConsumer(link: map<End, End>, size: nat, es: seq<Event>, runs: seq<seq<Event>>,
                                         q: Query, n: Name, at: End)
    requires KindOf(q.name).FromProducer?
    requires var s := Run(link, Start(size), es);
             && Knows(s, at.node, n) && (at.node, n) in s.born && s.born[(at.node, n)] < |runs|
             && WayLeadsHome(link, States(link, s, runs), q, n, AtNode(at, TokenOf(s, at.node, n)))
    ensures var s := Run(link, Start(size), es);
            var trace := States(link, s, runs);
            exists a | a in Last(s, trace).asked :: a.name == n && a.at !in link
              && Walk(link, trace, q, AtNode(at, TokenOf(s, at.node, n))) == AtApplication(a.at, a.token)
  {
    hide Inv, Grows, KindOf, Run, WayLeadsHome, Walk, Growing, States, Last;
    StartInv(link, size);
    RunKeeps(link, Start(size), es);
    var s := Run(link, Start(size), es);
    var trace := States(link, s, runs);
    StatesGrow(link, s, runs);
    WalkArrives(link, s, trace, q, n, at);
    var p := Walk(link, trace, q, AtNode(at, TokenOf(s, at.node, n)));
    assert Asked(p.at, n, p.token) in Last(s, trace).asked;
  }

  /** In every run every hop is right if and only if the tokens agree on the way; then it is not lost. */
  lemma ReflexiveInterestRightIff(link: map<End, End>, size: nat, es: seq<Event>, runs: seq<seq<Event>>,
                                  q: Query, n: Name, at: End)
    requires KindOf(q.name).FromProducer? && Knows(Run(link, Start(size), es), at.node, n)
    ensures var s := Run(link, Start(size), es);
            var trace, p := States(link, s, runs), AtNode(at, TokenOf(s, at.node, n));
            && (AllRight(link, trace, q, n, p) <==> TokensAgree(link, trace, q, n, p))
            && (AllRight(link, trace, q, n, p) ==> OnTrack(link, Last(s, trace), n, Walk(link, trace, q, p)))
  {
    hide Inv, Grows, KindOf, Run, AllRight, TokensAgree, Walk, Growing, States, Last;
    StartInv(link, size);
    RunKeeps(link, Start(size), es);
    var s := Run(link, Start(size), es);
    StatesGrow(link, s, runs);
    WalkRightIff(link, s, States(link, s, runs), q, n, AtNode(at, TokenOf(s, at.node, n)));
  }

  /** In every run, at every node, for every downstream that is waiting: what token its Data carries. */
  lemma DataTokenInRunIff(link: map<End, End>, size: nat, es: seq<Event>, j: nat, q: Query, r: InRecord, d: Data,
                          own: Option<nat>)
    requires var s := Run(link, Start(size), es); j < |s.nodes| && HasRecord(s.nodes[j].pit, q, r)
    ensures var v := Run(link, Start(size), es).nodes[j];
            var out := Answer(v, q, r.face, d, own).1;
            && |out| == 1 && out[0].SendData? && out[0].face == r.face
            && (r.tagged ==> OwnTag(v.table, q, r.sent).Some?)
            && (KindOf(q.name).Plain? ==> !r.tagged) && (KindOf(q.name).FromProducer? ==> r.tagged)
            && (out[0].token == Given(r.sent, own) <==> !r.tagged || OwnTag(v.table, q, r.sent) == Given(r.sent, own))
  {
    hide Run, NodeOk, PastOk, MessageOk, RecordsOk, Answer, OwnTag, HasRecord;
    StartInv(link, size);
    RunKeeps(link, Start(size), es);
    DataTokenIff(Run(link, Start(size), es).nodes[j], q, r, d, own);
  }

  /**
   The next node takes the reflexive Interest for the same name exactly when the newest face had
   sent the token of the first Interest of that name.
   */
  lemma NextNodeResolvesIff(link: map<End, End>, s: Net, j: nat, n: Name)
    requires Inv(link, s) && Knows(s, j, n) && Front(s.nodes[j], n).Some?
    requires End(j, Front(s.nodes[j], n).value.face) in link
    ensures var r := Front(s.nodes[j], n).value;
            var i := link[End(j, r.face)].node;
            && Knows(s, i, n)
            && n in s.nodes[j].table.nameToPrev
            && var prev, next := s.nodes[j].table.nameToPrev[n], s.nodes[i].table;
               (prev in next.tokenToName && next.tokenToName[prev] == n <==> Number(r.sent) == prev)
  {
    hide KindOf, Inv, Front;
    var v := s.nodes[j];
    var r := Front(v, n).value;
    PastOfInv(link, s, j, n);
    FrontCameFrom(link, s, j, n);
    var i := link[End(j, r.face)].node;
    PastOfInv(link, s, i, n);
    TokenResolves(s.nodes[i].table, n, v.table.nameToPrev[n]);
  }

  lemma FrontCameFrom(link: map<End, End>, s: Net, j: nat, n: Name)
    requires Inv(link, s) && Knows(s, j, n) && Front(s.nodes[j], n).Some?
    ensures CameFrom(link, s, End(j, Front(s.nodes[j], n).value.face), n, Number(Front(s.nodes[j], n).value.sent))
  {
    hide KindOf, PitOk, TableOk, MessageOk, PastOk, CameFrom;
    var v := s.nodes[j];
    assert HasRecord(v.pit, FindBasedOnName(v.pit, n).value.query, Front(v, n).value);
    assert RecordsOk(link, s, j) && NodeOk(v);
  }

  lemma TokenResolves(t: Table, n: Name, k: nat)
    requires TableOk(t) && n in t.nameToToken
    ensures k in t.tokenToName && t.tokenToName[k] == n <==> t.nameToToken[n] == k
  {
  }
}
