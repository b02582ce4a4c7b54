/** The forwarder's tables as the daemon updates them, proved to follow the node model. */
module Daemon {
  import opened Wrappers
  import opened Tlv
  import opened Names
  import opened Matching
  import opened PendingInterests
  import opened ReflexiveNames
  import opened PitTokens
  import opened TokenTables
  import opened Forwarder
  import opened DataForwarding

  class Daemon {
    const assist: PitAssist
    var pit: seq<PitEntry>
    ghost var first: map<Name, nat>

    ghost function Now(): Node
      reads this, assist
    {
      Node(assist.Now(), pit, first)
    }

    constructor ()
      ensures fresh(assist) && Now() == INITIAL && NodeOk(Now())
    {
      assist := new PitAssist();
      pit, first := [], map[];
    }

    method OnIncomingInterest(face: nat, q: Query, sent: Option<nat>, draws: seq<nat>, choice: Choice)
      returns (out: seq<Output>)
      requires NodeOk(Now()) && forall w | w in draws :: w < TWO_32
      modifies this, assist
      ensures NodeOk(Now()) && Forwarder.Grows(old(Now()), Now())
      ensures (Now(), out) == Receive(old(Now()), face, q, sent, draws, choice)
    {
      hide NodeOk, Forwarder.Grows, TableOk, Extends, PitOk, TagsOk, Entered, Position, Reflect, FindRN9999,
        FirstReflexive, Recorded, FirstNew;
      ReceiveOk(Now(), face, q, sent, draws, choice);
      PitOfNode(Now());
      EnteredOk(pit, q);
      InsertEntry(q);
      var scan := ScanRN9999(q.name);
      if scan.None? {
        return [];
      }
      if scan.value {
        out := OnSendingRI(face, q, sent);
        return;
      }
      var reflexive := IsReflexiveName(q.name);
      if reflexive && q.name !in assist.nameToToken {
        var token := assist.CreateName(q.name, Number(sent), draws);
        if token.None? {
          return [];
        }
        first := first[q.name := face];
      }
      match choice {
        case Loop(pointToPoint) =>
          out := if pointToPoint then [SendNack(face, q, DUPLICATE)] else [];
        case Hit =>
          out := [];
        case NextHopGone =>
          out := OnContentStoreMiss(face, q, sent, reflexive, choice);
        case NextHop(_) =>
          out := OnContentStoreMiss(face, q, sent, reflexive, choice);
        case Forward(_) =>
          out := OnContentStoreMiss(face, q, sent, reflexive, choice);
      }
    }

    /** The in-record shares the Interest whose tag is then set to the token for the next hop. */
    method OnContentStoreMiss(face: nat, q: Query, sent: Option<nat>, reflexive: bool, choice: Choice)
      returns (out: seq<Output>)
      requires PitOk(pit) && Position(pit, q) < |pit|
      requires reflexive ==> q.name in assist.nameToToken
      requires choice.NextHopGone? || choice.NextHop? || choice.Forward?
      modifies `pit
      ensures (Now(), out) == Continue(old(Now()), face, q, sent,
                                       if reflexive then Some(assist.nameToToken[q.name]) else None, choice)
    {
      hide Position, Recorded;
      InsertOrUpdateInRecord(q, InRecord(face, sent, sent, false));
      if choice.NextHopGone? {
        return [];
      }
      var tag := sent;
      if reflexive {
        tag := Some(assist.nameToToken[q.name]);
        Retag(q, InRecord(face, sent, sent, false), tag);
      }
      match choice {
        case NextHop(chosen) =>
          out := [SendInterest(chosen, q, tag)];
        case Forward(egress) =>
          // The strategy strips the token; a reflexive Interest gets it back on its way out.
          var token := if reflexive then tag else None;
          out := if egress.Some? then [SendInterest(egress.value, q, token)] else [];
      }
    }

    /** A reflexive Interest is sent to the in-record in front of the original Interest's entry. */
    method OnSendingRI(face: nat, q: Query, sent: Option<nat>) returns (out: seq<Output>)
      requires PitOk(pit) && Position(pit, q) < |pit|
      modifies `pit
      ensures (Now(), out) == Reflect(old(Now()), face, q, sent)
    {
      hide Position, Recorded;
      var token := Number(sent);
      if token == 0 {
        return [SendNack(face, q, NONE)];
      }
      if token !in assist.tokenToName {
        return [SendNack(face, q, NO_ROUTE)];
      }
      var name := assist.tokenToName[token];
      var original := FindEntryBasedOnName(name);
      if original.None? {
        return [];
      }
      if name !in assist.nameToPrev {
        return [];
      }
      var prev := Some(assist.nameToPrev[name]);
      InsertOrUpdateInRecord(q, InRecord(face, sent, prev, true));
      var rs := original.value.inRecords;
      out := if rs == [] then [] else [SendInterest(rs[0].face, q, prev)];
    }

    /** Data goes out with the token on the in-record, which is deleted. */
    method SendDataTo(q: Query, face: nat, d: Data, own: Option<nat>) returns (out: seq<Output>)
      requires NodeOk(Now()) && Position(pit, q) < |pit|
      modifies `pit
      ensures NodeOk(Now()) && (Now(), out) == Answer(old(Now()), q, face, d, own)
    {
      hide Position, NodeOk, RecordOf, WithoutFace, TableOk;
      ForgetOk(Now(), q, face);
      PitOfNode(Now());
      var k := PositionOf(q);
      var rs := pit[k].inRecords;
      assert pit[k] in pit;
      for i := 0 to |rs|
        invariant pit == old(pit)
        invariant forall j | 0 <= j < i :: rs[j].face != face
      {
        if rs[i].face == face {
          OneRecord(rs, rs[i]);
          WithoutOne(rs, i);
          pit := pit[k := PitEntry(q, rs[..i] + rs[i + 1..])];
          return [SendData(face, d, if rs[i].tag.Some? then rs[i].tag else own)];
        }
      }
      NoRecord(rs, face);
      assert pit[k := PitEntry(q, rs)] == pit;
      out := [SendData(face, d, own)];
    }

    /** `sendDataToAll` for the entry at `k`: the downstreams are noted first, then served one by one. */
    method SendDataToAll(k: nat, face: nat, d: Data, own: Option<nat>, late: Late) returns (out: seq<Output>)
      requires NodeOk(Now()) && k < |pit|
      modifies `pit
      ensures NodeOk(Now())
      ensures var e := old(pit)[k];
              && pit == old(pit)[k := PitEntry(e.query, Others(e.query, e.inRecords, face, late))]
              && Sent(out) == Replies(e.inRecords, DownstreamFaces(e, face, late), d, own)
    {
      hide Position, NodeOk, WithoutFace, Others, Left, Answer, Reply, Replies, Sent, DownstreamFaces;
      var q, rs := pit[k].query, pit[k].inRecords;
      var pending := PendingDownstreams(k, face, late);
      ghost var done: set<nat> := {};
      out := [];
      LeftAll(rs);
      SentNothing(rs, d, own);
      assert pit[k := PitEntry(q, rs)] == pit;
      while pending != {}
        invariant NodeOk(Now()) && pit == old(pit)[k := PitEntry(q, Left(rs, done))]
        invariant done + pending == DownstreamFaces(old(pit)[k], face, late) && done !! pending
        invariant Sent(out) == Replies(rs, done, d, own)
        decreases |pending|
      {
        var f :| f in pending;
        AnswerAt(Now(), k, f, d, own);
        var o := SendDataTo(q, f, d, own);
        LeftOne(rs, done, f);
        SameReply(rs, Left(rs, done), f, d, own);
        SentMore(out, o, rs, done, f, d, own);
        out := out + o;
        done, pending := done + {f}, pending - {f};
      }
      LeftIsOthers(old(pit)[k], face, late);
    }

    method PendingDownstreams(k: nat, face: nat, late: Late) returns (pending: set<nat>)
      requires k < |pit|
      ensures pending == DownstreamFaces(pit[k], face, late)
    {
      var q, rs := pit[k].query, pit[k].inRecords;
      pending := {};
      for i := 0 to |rs|
        invariant pending == set r | r in rs[..i] && IsDownstream(q, r, face, late) :: r.face
      {
        assert rs[..i + 1] == rs[..i] + [rs[i]];
        if IsDownstream(q, rs[i], face, late) {
          pending := pending + {rs[i].face};
        }
      }
      assert rs[..|rs|] == rs;
    }

    method FindAllDataMatches(d: Data) returns (ms: seq<PitEntry>)
      ensures ms == DataMatches(pit, d)
    {
      hide MatchesData, DataMatches;
      ms := [];
      assert pit[0..] == pit;
      for i := 0 to |pit|
        invariant ms + DataMatches(pit[i..], d) == DataMatches(pit, d)
      {
        MatchesFrom(pit, d, i, ms);
        if MatchesData(pit[i].query, d) {
          ms := ms + [pit[i]];
        }
      }
      MatchesFrom(pit, d, |pit|, ms);
    }

    /** Several entries match: all their in-records are cleared, and every downstream gets the Data as it is. */
    method SatisfyAll(face: nat, d: Data, own: Option<nat>, late: Late) returns (out: seq<Output>)
      modifies `pit
      ensures pit == Served(old(pit), d, face, late, false)
      ensures Sent(out) == set f | f in Waiting(old(pit), d, face, late) :: SendData(f, d, own)
    {
      hide MatchesData, DownstreamFaces, Waiting;
      var pending := {};
      WaitingNone(d, face, late);
      for i := 0 to |pit|
        invariant |pit| == |old(pit)| && pending == Waiting(old(pit)[..i], d, face, late)
        invariant forall j | 0 <= j < |pit| ::
                    pit[j] == if j < i then ServedEntry(old(pit)[j], d, face, late, false) else old(pit)[j]
      {
        WaitingMore(old(pit), i, d, face, late);
        if MatchesData(pit[i].query, d) {
          var more := PendingDownstreams(i, face, late);
          pending := pending + more;
          pit := pit[i := PitEntry(pit[i].query, [])];
        }
      }
      assert old(pit)[..|old(pit)|] == old(pit);
      out := SendToAll(pending, d, own);
    }

    method SendToAll(pending: set<nat>, d: Data, own: Option<nat>) returns (out: seq<Output>)
      ensures Sent(out) == set f | f in pending :: SendData(f, d, own)
    {
      out := [];
      var rest := pending;
      while rest != {}
        invariant rest <= pending
        invariant Sent(out) == set f | f in pending - rest :: SendData(f, d, own)
        decreases |rest|
      {
        var f :| f in rest;
        assert Sent(out + [SendData(f, d, own)]) == Sent(out) + {SendData(f, d, own)};
        out := out + [SendData(f, d, own)];
        rest := rest - {f};
      }
    }

    method OnIncomingData(face: nat, d: Data, own: Option<nat>, late: Late) returns (out: seq<Output>)
      requires NodeOk(Now())
      modifies `pit
      ensures NodeOk(Now()) && (Now(), Sent(out)) == ReceiveData(old(Now()), face, d, own, late)
    {
      hide NodeOk, MatchesData, Served, Sent, ReceiveData, Replies, DownstreamFaces, Waiting, Position, DataMatches;
      ReceiveDataOk(Now(), face, d, own, late);
      var ms := FindAllDataMatches(d);
      if |ms| == 1 {
        OneMatch(Now(), ms[0], face, d, own, late);
        var k := PositionOf(ms[0].query);
        out := SendDataToAll(k, face, d, own, late);
      } else {
        ManyMatches(Now(), face, d, own, late);
        out := SatisfyAll(face, d, own, late);
      }
    }

    // ---- the pending Interest table ----

    /** The last entry at the same name tree node takes the place of the erased one. */
    method EraseEntry(q: Query)
      requires NodeOk(Now()) && Position(pit, q) < |pit|
      modifies `pit
      ensures NodeOk(Now()) && Now() == ForgetEntry(old(Now()), q)
    {
      hide Position, NodeOk, TreeNode, LastBeside;
      ForgetOk(Now(), q, 0);
      var k := PositionOf(q);
      var node := TreeNode(pit[k].query.name);
      ghost var last := LastBeside(pit, k);
      var m := |pit| - 1;
      while TreeNode(pit[m].query.name) != node
        invariant last <= m < |pit|
        decreases m
      {
        m := m - 1;
      }
      var moved := pit[k := pit[m]];
      pit := moved[..m] + moved[m + 1..];
    }

    method InsertEntry(q: Query)
      modifies `pit
      ensures pit == Entered(old(pit), q)
    {
      for i := 0 to |pit|
        invariant pit == old(pit)
        invariant forall j | 0 <= j < i :: pit[j].query != q
      {
        if pit[i].query == q {
          return;
        }
      }
      pit := pit + [PitEntry(q, [])];
    }

    method FindEntryBasedOnName(name: Name) returns (e: Option<PitEntry>)
      ensures e == FindBasedOnName(pit, name)
    {
      hide ByName;
      ghost var k := ByName(pit, name);
      if !Addressable(name) {
        return None;
      }
      for i := 0 to |pit|
        invariant forall j | 0 <= j < i :: pit[j].query.name != name
      {
        if pit[i].query.name == name {
          return Some(pit[i]);
        }
      }
      e := None;
    }

    method InsertOrUpdateInRecord(q: Query, r: InRecord)
      requires PitOk(pit) && Position(pit, q) < |pit|
      modifies `pit
      ensures pit == Recorded(old(pit), q, r) && PitOk(pit) && Position(pit, q) < |pit|
    {
      hide Position, DistinctFaces;
      RecordedOk(pit, q, r);
      var k := PositionOf(q);
      var rs := pit[k].inRecords;
      assert pit[k] in pit;
      for i := 0 to |rs|
        invariant pit == old(pit)
        invariant forall j | 0 <= j < i :: rs[j].face != r.face
      {
        if rs[i].face == r.face {
          ReplacedOne(rs, i, r);
          pit := pit[k := PitEntry(q, rs[i := r])];
          PositionSame(old(pit), q, rs[i := r]);
          return;
        }
      }
      pit := pit[k := PitEntry(q, [r] + rs)];
      PositionSame(old(pit), q, [r] + rs);
    }

    /** Sets the tag of the Interest that the record just written holds. */
    method Retag(q: Query, r: InRecord, tag: Option<nat>)
      requires PitOk(pit) && Position(pit, q) < |pit|
      modifies `pit
      ensures forall was | PitOk(was) && Position(was, q) < |was| && old(pit) == Recorded(was, q, r) ::
                pit == Recorded(was, q, r.(tag := tag, tagged := true))
    {
      hide Position, DistinctFaces, WithRecord, PitOk, Recorded;
      ghost var before := pit;
      InsertOrUpdateInRecord(q, r.(tag := tag, tagged := true));
      forall was | PitOk(was) && Position(was, q) < |was| && before == Recorded(was, q, r)
        ensures pit == Recorded(was, q, r.(tag := tag, tagged := true))
      {
        RecordedTwice(was, q, r, r.(tag := tag, tagged := true));
      }
    }

    method PositionOf(q: Query) returns (k: nat)
      requires Position(pit, q) < |pit|
      ensures k == Position(pit, q)
    {
      hide Position;
      ghost var p := Position(pit, q);
      k := 0;
      while pit[k].query != q
        invariant 0 <= k <= p
        decreases p - k
      {
        k := k + 1;
      }
    }
  }

  lemma {:induction false} WithoutOne(rs: seq<InRecord>, i: nat)
    requires DistinctFaces(rs) && i < |rs|
    ensures WithoutFace(rs, rs[i].face) == rs[..i] + rs[i + 1..]
  {
    hide RecordOf;
    if i == 0 {
      NoRecord(rs[1..], rs[0].face);
    } else {
      assert forall j | 0 <= j < |rs[1..]| :: rs[1..][j] == rs[j + 1];
      WithoutOne(rs[1..], i - 1);
      FirstBack(rs, i);
    }
  }

  lemma FirstBack(rs: seq<InRecord>, i: nat)
    requires 0 < i < |rs|
    ensures [rs[0]] + (rs[1..][..i - 1] + rs[1..][i..]) == rs[..i] + rs[i + 1..]
  {
  }

  lemma {:induction false} NoRecord(rs: seq<InRecord>, face: nat)
    requires forall r | r in rs :: r.face != face
    ensures WithoutFace(rs, face) == rs && RecordOf(rs, face) == None
  {
    if rs != [] {
      NoRecord(rs[1..], face);
      assert rs == [rs[0]] + rs[1..];
    }
  }

  lemma ReplacedOne(rs: seq<InRecord>, i: nat, r: InRecord)
    requires DistinctFaces(rs) && i < |rs| && rs[i].face == r.face
    ensures WithRecord(rs, r) == rs[i := r]
  {
    assert rs[i] in rs;
    assert forall j | 0 <= j < |rs| && j != i :: rs[j].face != r.face;
  }

  lemma PositionSame(pit: seq<PitEntry>, q: Query, rs: seq<InRecord>)
    requires Position(pit, q) < |pit|
    ensures Position(pit[Position(pit, q) := PitEntry(q, rs)], q) == Position(pit, q)
  {
    hide Position;
    var k := Position(pit, q);
    var pit' := pit[k := PitEntry(q, rs)];
    var k' := Position(pit', q);
    assert pit'[k].query == q;
    assert forall i | 0 <= i < k :: pit'[i] == pit[i];
  }

  /** A second record of the same face replaces the first. */
  lemma RecordedTwice(pit: seq<PitEntry>, q: Query, a: InRecord, b: InRecord)
    requires PitOk(pit) && Position(pit, q) < |pit| && a.face == b.face
    requires Position(Recorded(pit, q, a), q) < |pit|
    ensures Recorded(Recorded(pit, q, a), q, b) == Recorded(pit, q, b)
  {
    hide Position, DistinctFaces, WithRecord;
    var k := Position(pit, q);
    var rs := pit[k].inRecords;
    PositionSame(pit, q, WithRecord(rs, a));
    assert pit[k] in pit;
    WithRecordTwice(rs, a, b);
  }

  lemma WithRecordTwice(rs: seq<InRecord>, a: InRecord, b: InRecord)
    requires DistinctFaces(rs) && a.face == b.face
    ensures WithRecord(WithRecord(rs, a), b) == WithRecord(rs, b)
  {
    hide DistinctFaces, WithRecord;
    WithRecordOk(rs, a);
    if o :| o in rs && o.face == a.face {
      var i :| 0 <= i < |rs| && rs[i] == o;
      ReplacedOne(rs, i, a);
      ReplacedOne(rs, i, b);
      ReplacedOne(rs[i := a], i, b);
      assert rs[i := a][i := b] == rs[i := b];
    } else {
      InFront(rs, a);
      InFront(rs, b);
      ReplacedOne([a] + rs, 0, b);
      assert ([a] + rs)[0 := b] == [b] + rs;
    }
  }
}
