/** What one forwarder does with Data: which entries it satisfies and which downstreams it goes to. */
module DataForwarding {
  import opened Wrappers
  import opened Matching
  import opened PitTokens
  import opened TokenTables
  import opened Forwarder

  /** In-records that have expired, by the query of their entry and their face. */
  type Late = set<(Query, nat)>

  /** `findAllDataMatches`. */
  function DataMatches(pit: seq<PitEntry>, d: Data): (ms: seq<PitEntry>)
    ensures forall e :: e in ms <==> e in pit && MatchesData(e.query, d)
  {
    if pit == [] then []
    else (if MatchesData(pit[0].query, d) then [pit[0]] else []) + DataMatches(pit[1..], d)
  }

  /** The in-record is of a downstream that Data from `face` goes to. */
  predicate IsDownstream(q: Query, r: InRecord, face: nat, late: Late) {
    r.face != face && (q, r.face) !in late
  }

  /** The in-records of the others, which are left. */
  function Others(q: Query, rs: seq<InRecord>, face: nat, late: Late): (rs': seq<InRecord>)
    ensures forall r | r in rs' :: r in rs
  {
    if rs == [] then []
    else (if IsDownstream(q, rs[0], face, late) then [] else [rs[0]]) + Others(q, rs[1..], face, late)
  }

  /** A matched entry when it is the only one: the downstreams served are taken out; else all are. */
  function ServedEntry(e: PitEntry, d: Data, face: nat, late: Late, alone: bool): PitEntry {
    if !MatchesData(e.query, d) then e
    else PitEntry(e.query, if alone then Others(e.query, e.inRecords, face, late) else [])
  }

  function Served(pit: seq<PitEntry>, d: Data, face: nat, late: Late, alone: bool): (pit': seq<PitEntry>)
    ensures |pit'| == |pit|
  {
    seq(|pit|, i requires 0 <= i < |pit| => ServedEntry(pit[i], d, face, late, alone))
  }

  /**
   `onIncomingData` past the scope check: each downstream of the one entry that matches gets the
   token of its own in-record; when several entries match, all get the token the Data has.
   */
  function ReceiveData(v: Node, face: nat, d: Data, own: Option<nat>, late: Late): (Node, set<Output>) {
    var ms := DataMatches(v.pit, d);
    var alone := |ms| == 1;
    (v.(pit := Served(v.pit, d, face, late, alone)),
     set e, r | e in ms && r in e.inRecords && IsDownstream(e.query, r, face, late) ::
       SendData(r.face, d, if alone then Given(r.tag, own) else own))
  }

  lemma {:induction false} OthersOk(q: Query, rs: seq<InRecord>, face: nat, late: Late)
    requires DistinctFaces(rs)
    ensures DistinctFaces(Others(q, rs, face, late))
  {
    if rs != [] {
      assert forall i | 0 <= i < |rs[1..]| :: rs[1..][i] == rs[i + 1];
      OthersOk(q, rs[1..], face, late);
      var rest := Others(q, rs[1..], face, late);
      forall i | 0 <= i < |rest|
        ensures rest[i].face != rs[0].face
      {
        assert rest[i] in rs[1..];
      }
    }
  }

  /** Data keeps the node in order, and changes nothing but which in-records are left. */
  lemma ReceiveDataOk(v: Node, face: nat, d: Data, own: Option<nat>, late: Late)
    requires NodeOk(v)
    ensures var v' := ReceiveData(v, face, d, own, late).0;
            && NodeOk(v') && v' == v.(pit := v'.pit)
            && forall q, r | HasRecord(v'.pit, q, r) :: HasRecord(v.pit, q, r)
  {
    hide TableOk, DistinctFaces, KindOf, TagOk, MatchesData, Others;
    var v' := ReceiveData(v, face, d, own, late).0;
    forall i | 0 <= i < |v.pit|
      ensures v'.pit[i].query == v.pit[i].query && DistinctFaces(v'.pit[i].inRecords)
      ensures forall r | r in v'.pit[i].inRecords :: r in v.pit[i].inRecords
    {
      assert v.pit[i] in v.pit;
      OthersOk(v.pit[i].query, v.pit[i].inRecords, face, late);
      NoFaces();
    }
    forall q, r | HasRecord(v'.pit, q, r)
      ensures HasRecord(v.pit, q, r)
    {
      var e :| e in v'.pit && e.query == q && r in e.inRecords;
      var i :| 0 <= i < |v'.pit| && v'.pit[i] == e;
      assert v.pit[i] in v.pit;
    }
    TagsFewer(v.table, v.pit, v'.pit);
  }

  lemma NoFaces()
    ensures DistinctFaces([])
  {
  }

  lemma TagsFewer(t: Table, pit: seq<PitEntry>, pit': seq<PitEntry>)
    requires TagsOk(t, pit) && forall q, r | HasRecord(pit', q, r) :: HasRecord(pit, q, r)
    ensures TagsOk(t, pit')
  {
    hide TagOk;
    forall e, r | e in pit' && r in e.inRecords
      ensures TagOk(t, e.query, r)
    {
      assert HasRecord(pit', e.query, r);
    }
  }

  /** The Data goes to a face. */
  ghost predicate DataGoesTo(v: Node, face: nat, d: Data, late: Late, to: nat) {
    exists o | o in ReceiveData(v, face, d, None, late).1 :: o.face == to
  }

  /** Exactly the faces with an in-record that it matches, but for the one it came from. */
  lemma DataGoesToIff(v: Node, face: nat, d: Data, late: Late, to: nat)
    ensures DataGoesTo(v, face, d, late, to) <==>
            to != face && exists q, r :: HasRecord(v.pit, q, r) && MatchesData(q, d) && r.face == to && (q, to) !in late
  {
    hide MatchesData;
    var outs := ReceiveData(v, face, d, None, late).1;
    if q, r :| HasRecord(v.pit, q, r) && MatchesData(q, d) && r.face == to && (q, to) !in late && to != face {
      var e :| e in v.pit && e.query == q && r in e.inRecords;
      var alone := |DataMatches(v.pit, d)| == 1;
      assert SendData(r.face, d, if alone then Given(r.tag, None) else None) in outs;
    }
    if DataGoesTo(v, face, d, late, to) {
      var o :| o in outs && o.face == to;
      var e, r :| e in DataMatches(v.pit, d) && r in e.inRecords && IsDownstream(e.query, r, face, late)
                  && r.face == o.face;
      assert HasRecord(v.pit, e.query, r);
    }
  }

  /** Which token the Data has on its way to each downstream. */
  lemma DataTokens(v: Node, face: nat, d: Data, own: Option<nat>, late: Late, q: Query, r: InRecord)
    requires HasRecord(v.pit, q, r) && MatchesData(q, d) && IsDownstream(q, r, face, late)
    ensures var alone := |DataMatches(v.pit, d)| == 1;
            SendData(r.face, d, if alone then Given(r.tag, own) else own) in ReceiveData(v, face, d, own, late).1
  {
    hide MatchesData, IsDownstream;
    var e :| e in v.pit && e.query == q && r in e.inRecords;
    assert e in DataMatches(v.pit, d);
  }

  /** It has no other there. */
  lemma DataTokensOnly(v: Node, face: nat, d: Data, own: Option<nat>, late: Late, o: Output)
    requires o in ReceiveData(v, face, d, own, late).1
    ensures o.SendData? && o.data == d
    ensures exists q, r ::
              && HasRecord(v.pit, q, r) && MatchesData(q, d) && IsDownstream(q, r, face, late) && o.face == r.face
              && o.token == if |DataMatches(v.pit, d)| == 1 then Given(r.tag, own) else own
  {
    hide MatchesData, IsDownstream;
    var alone := |DataMatches(v.pit, d)| == 1;
    var e, r :| e in DataMatches(v.pit, d) && r in e.inRecords && IsDownstream(e.query, r, face, late)
                && o == SendData(r.face, d, if alone then Given(r.tag, own) else own);
    assert HasRecord(v.pit, e.query, r);
  }

  /** The in-records that are left: of entries it does not match, and in a single match those not served. */
  lemma DataLeavesIff(v: Node, face: nat, d: Data, own: Option<nat>, late: Late, q: Query, r: InRecord)
    ensures HasRecord(ReceiveData(v, face, d, own, late).0.pit, q, r) <==>
            && HasRecord(v.pit, q, r)
            && (MatchesData(q, d) ==> |DataMatches(v.pit, d)| == 1 && !IsDownstream(q, r, face, late))
  {
    hide MatchesData, IsDownstream, Others, DataMatches;
    var pit' := ReceiveData(v, face, d, own, late).0.pit;
    if HasRecord(pit', q, r) {
      var e :| e in pit' && e.query == q && r in e.inRecords;
      var i :| 0 <= i < |pit'| && pit'[i] == e;
      OthersIff(q, v.pit[i].inRecords, face, late, r);
      assert v.pit[i] in v.pit;
    }
    if HasRecord(v.pit, q, r) {
      var e :| e in v.pit && e.query == q && r in e.inRecords;
      var i :| 0 <= i < |v.pit| && v.pit[i] == e;
      OthersIff(q, e.inRecords, face, late, r);
      assert pit'[i] in pit';
    }
  }

  lemma {:induction false} OthersIff(q: Query, rs: seq<InRecord>, face: nat, late: Late, r: InRecord)
    ensures r in Others(q, rs, face, late) <==> r in rs && !IsDownstream(q, r, face, late)
  {
    hide IsDownstream;
    if rs != [] {
      OthersIff(q, rs[1..], face, late, r);
    }
  }

  // ---- serving downstreams one by one ----

  ghost function Sent(out: seq<Output>): set<Output> {
    set o | o in out
  }

  function DownstreamFaces(e: PitEntry, face: nat, late: Late): set<nat> {
    set r | r in e.inRecords && IsDownstream(e.query, r, face, late) :: r.face
  }

  /** What `sendData` sends to a face. */
  function Reply(rs: seq<InRecord>, face: nat, d: Data, own: Option<nat>): Output {
    var r := RecordOf(rs, face);
    SendData(face, d, if r.Some? then Given(r.value.tag, own) else own)
  }

  ghost function Replies(rs: seq<InRecord>, faces: set<nat>, d: Data, own: Option<nat>): set<Output> {
    set f | f in faces :: Reply(rs, f, d, own)
  }

  /** The in-records of faces that were not served yet. */
  function Left(rs: seq<InRecord>, done: set<nat>): seq<InRecord> {
    if rs == [] then []
    else (if rs[0].face in done then [] else [rs[0]]) + Left(rs[1..], done)
  }

  lemma {:induction false} LeftAll(rs: seq<InRecord>)
    ensures Left(rs, {}) == rs
  {
    if rs != [] {
      LeftAll(rs[1..]);
      assert rs == [rs[0]] + rs[1..];
    }
  }

  lemma {:induction false} LeftOne(rs: seq<InRecord>, done: set<nat>, f: nat)
    requires f !in done
    ensures WithoutFace(Left(rs, done), f) == Left(rs, done + {f})
    ensures RecordOf(Left(rs, done), f) == RecordOf(rs, f)
  {
    if rs != [] {
      LeftOne(rs[1..], done, f);
      if rs[0].face in done {
        assert Left(rs, done) == Left(rs[1..], done) && Left(rs, done + {f}) == Left(rs[1..], done + {f});
      } else {
        assert Left(rs, done)[1..] == Left(rs[1..], done);
        assert rs[0].face == f ==> Left(rs, done + {f}) == Left(rs[1..], done + {f});
      }
    }
  }

  lemma {:induction false} LeftIsOthersOf(q: Query, rs: seq<InRecord>, done: set<nat>, face: nat, late: Late)
    requires forall r | r in rs :: r.face in done <==> IsDownstream(q, r, face, late)
    ensures Left(rs, done) == Others(q, rs, face, late)
  {
    if rs != [] {
      LeftIsOthersOf(q, rs[1..], done, face, late);
    }
  }

  lemma LeftIsOthers(e: PitEntry, face: nat, late: Late)
    ensures Left(e.inRecords, DownstreamFaces(e, face, late)) == Others(e.query, e.inRecords, face, late)
  {
    LeftIsOthersOf(e.query, e.inRecords, DownstreamFaces(e, face, late), face, late);
  }

  lemma SentMore(out: seq<Output>, o: seq<Output>, rs: seq<InRecord>, done: set<nat>, f: nat, d: Data, own: Option<nat>)
    requires Sent(out) == Replies(rs, done, d, own) && o == [Reply(rs, f, d, own)]
    ensures Sent(out + o) == Replies(rs, done + {f}, d, own)
  {
    hide Reply;
    assert Sent(out + o) == Sent(out) + {Reply(rs, f, d, own)};
  }

  lemma SentNothing(rs: seq<InRecord>, d: Data, own: Option<nat>)
    ensures Sent([]) == Replies(rs, {}, d, own)
  {
  }

  lemma SameReply(rs: seq<InRecord>, rs': seq<InRecord>, f: nat, d: Data, own: Option<nat>)
    requires RecordOf(rs', f) == RecordOf(rs, f)
    ensures Reply(rs', f, d, own) == Reply(rs, f, d, own)
  {
  }

  /** `sendData` for the entry at `k`. */
  lemma AnswerAt(v: Node, k: nat, f: nat, d: Data, own: Option<nat>)
    requires NodeOk(v) && k < |v.pit|
    ensures var e := v.pit[k];
            && Position(v.pit, e.query) == k
            && Answer(v, e.query, f, d, own)
               == (v.(pit := v.pit[k := PitEntry(e.query, WithoutFace(e.inRecords, f))]),
                   [Reply(e.inRecords, f, d, own)])
  {
    hide Position, NodeOk, RecordOf, WithoutFace;
    PositionAt(v, k);
  }

  lemma PositionAt(v: Node, k: nat)
    requires NodeOk(v) && k < |v.pit|
    ensures Position(v.pit, v.pit[k].query) == k
  {
    hide Position, TableOk, TagsOk, DistinctFaces;
    OneEntryPerQuery(v.pit, Position(v.pit, v.pit[k].query), k);
  }

  lemma MatchesFrom(pit: seq<PitEntry>, d: Data, i: nat, ms: seq<PitEntry>)
    requires i <= |pit|
    ensures i == |pit| ==> ms + DataMatches(pit[i..], d) == ms
    ensures i < |pit| ==> ms + DataMatches(pit[i..], d)
                          == ms + (if MatchesData(pit[i].query, d) then [pit[i]] else []) + DataMatches(pit[i + 1..], d)
  {
    hide MatchesData;
    if i < |pit| {
      assert pit[i..][1..] == pit[i + 1..];
    }
  }

  /** The faces that wait for the Data. */
  ghost function Waiting(pit: seq<PitEntry>, d: Data, face: nat, late: Late): set<nat> {
    set e, r | e in pit && MatchesData(e.query, d) && r in e.inRecords && IsDownstream(e.query, r, face, late) :: r.face
  }

  lemma WaitingNone(d: Data, face: nat, late: Late)
    ensures Waiting([], d, face, late) == {}
  {
  }

  lemma WaitingMore(pit: seq<PitEntry>, i: nat, d: Data, face: nat, late: Late)
    requires i < |pit|
    ensures Waiting(pit[..i + 1], d, face, late)
            == Waiting(pit[..i], d, face, late)
               + (if MatchesData(pit[i].query, d) then DownstreamFaces(pit[i], face, late) else {})
  {
    hide MatchesData, IsDownstream;
    assert pit[..i + 1] == pit[..i] + [pit[i]];
  }

  lemma OneMatch(v: Node, e: PitEntry, face: nat, d: Data, own: Option<nat>, late: Late)
    requires NodeOk(v) && DataMatches(v.pit, d) == [e]
    ensures var k := Position(v.pit, e.query);
            && k < |v.pit| && v.pit[k] == e
            && ReceiveData(v, face, d, own, late)
               == (v.(pit := v.pit[k := PitEntry(e.query, Others(e.query, e.inRecords, face, late))]),
                   Replies(e.inRecords, DownstreamFaces(e, face, late), d, own))
  {
    hide MatchesData, Others, NodeOk, Position, Served, Replies, DownstreamFaces;
    assert e in DataMatches(v.pit, d);
    var k :| 0 <= k < |v.pit| && v.pit[k] == e;
    PositionAt(v, k);
    ServedOne(v.pit, k, d, face, late);
    RepliesAre(v, e, face, d, own, late);
  }

  lemma ServedOne(pit: seq<PitEntry>, k: nat, d: Data, face: nat, late: Late)
    requires k < |pit| && DataMatches(pit, d) == [pit[k]]
    requires Position(pit, pit[k].query) == k
    ensures Served(pit, d, face, late, true)
            == pit[k := PitEntry(pit[k].query, Others(pit[k].query, pit[k].inRecords, face, late))]
  {
    hide MatchesData, Others, Position;
    assert pit[k] in DataMatches(pit, d);
    OnlyOne(pit, k, d);
  }

  lemma {:induction false} OnlyOne(pit: seq<PitEntry>, k: nat, d: Data)
    requires k < |pit| && |DataMatches(pit, d)| == 1 && MatchesData(pit[k].query, d)
    ensures forall i | 0 <= i < |pit| && i != k :: !MatchesData(pit[i].query, d)
  {
    hide MatchesData;
    if MatchesData(pit[0].query, d) {
      assert DataMatches(pit[1..], d) == [];
      forall i | 1 <= i < |pit|
        ensures !MatchesData(pit[i].query, d)
      {
        assert pit[i] in pit[1..];
        assert pit[i] !in DataMatches(pit[1..], d);
      }
    } else {
      assert DataMatches(pit, d) == DataMatches(pit[1..], d);
      OnlyOne(pit[1..], k - 1, d);
      assert forall i | 1 <= i < |pit| :: pit[i] == pit[1..][i - 1];
    }
  }

  lemma RepliesAre(v: Node, e: PitEntry, face: nat, d: Data, own: Option<nat>, late: Late)
    requires NodeOk(v) && e in v.pit && DataMatches(v.pit, d) == [e]
    ensures ReceiveData(v, face, d, own, late).1 == Replies(e.inRecords, DownstreamFaces(e, face, late), d, own)
  {
    hide MatchesData, Others, TableOk, TagsOk, RecordOf, Served, DataMatches, IsDownstream;
    forall r | r in e.inRecords
      ensures Reply(e.inRecords, r.face, d, own) == SendData(r.face, d, Given(r.tag, own))
    {
      OneRecord(e.inRecords, r);
    }
    var outs := ReceiveData(v, face, d, own, late).1;
    var replies := Replies(e.inRecords, DownstreamFaces(e, face, late), d, own);
    forall o | o in replies
      ensures o in outs
    {
      var f :| f in DownstreamFaces(e, face, late) && o == Reply(e.inRecords, f, d, own);
      var r :| r in e.inRecords && IsDownstream(e.query, r, face, late) && r.face == f;
      assert e in DataMatches(v.pit, d) && o == SendData(r.face, d, Given(r.tag, own));
    }
    forall o | o in outs
      ensures o in replies
    {
      var r :| r in e.inRecords && IsDownstream(e.query, r, face, late) && o == SendData(r.face, d, Given(r.tag, own));
      assert r.face in DownstreamFaces(e, face, late);
    }
  }

  lemma ManyMatches(v: Node, face: nat, d: Data, own: Option<nat>, late: Late)
    requires |DataMatches(v.pit, d)| != 1
    ensures ReceiveData(v, face, d, own, late)
            == (v.(pit := Served(v.pit, d, face, late, false)),
                set f | f in Waiting(v.pit, d, face, late) :: SendData(f, d, own))
  {
    hide MatchesData, Served, IsDownstream;
    var outs := ReceiveData(v, face, d, own, late).1;
    var all := set f | f in Waiting(v.pit, d, face, late) :: SendData(f, d, own);
    forall o | o in outs
      ensures o in all
    {
      var e, r :| e in DataMatches(v.pit, d) && r in e.inRecords && IsDownstream(e.query, r, face, late)
                  && o == SendData(r.face, d, own);
      assert r.face in Waiting(v.pit, d, face, late);
    }
    forall o | o in all
      ensures o in outs
    {
      var f :| f in Waiting(v.pit, d, face, late) && o == SendData(f, d, own);
      var e, r :| e in v.pit && MatchesData(e.query, d) && r in e.inRecords && IsDownstream(e.query, r, face, late)
                  && r.face == f;
      assert e in DataMatches(v.pit, d);
    }
    assert outs == all;
  }
}
