/**
 One forwarder's part in reflexive forwarding: the pending Interest table and the token maps, under
 the best-route strategy. A token is the number behind the four octets on the wire.
 */
module Forwarder {
  import opened Wrappers
  import opened Names
  import opened Matching
  import opened PendingInterests
  import opened PitTokens
  import opened TokenTables

  const MAX_DEPTH := 32

  /**
   `sent` is the token the Interest arrived with. `tag` is the token on the stored Interest, which
   the forwarder shares with the packet it goes on to modify; `tagged` is history: whether it did.
   */
  datatype InRecord = InRecord(face: nat, sent: Option<nat>, tag: Option<nat>, tagged: bool)

  datatype PitEntry = PitEntry(query: Query, inRecords: seq<InRecord>)

  /** `first` is history: the face on which the first Interest of each name in the table came. */
  datatype Node = Node(table: Table, pit: seq<PitEntry>, first: map<Name, nat>)

  const INITIAL := Node(EMPTY, [], map[])

  datatype Output =
    | SendInterest(face: nat, query: Query, token: Option<nat>)
    | SendNack(face: nat, query: Query, reason: nat)
    | SendData(face: nat, data: Data, token: Option<nat>)

  /**
   What happens to an Interest for reasons outside this model: a duplicate nonce, a Content Store
   hit, a next hop chosen by the application that is gone or there, or forwarding by the strategy to
   a face or to none.
   */
  datatype Choice =
    | Loop(pointToPoint: bool)
    | Hit
    | NextHopGone
    | NextHop(chosen: nat)
    | Forward(egress: Option<nat>)

  // ---- the pending Interest table ----

  function Position(pit: seq<PitEntry>, q: Query): (k: nat)
    ensures k <= |pit|
    ensures k < |pit| ==> pit[k].query == q
    ensures forall i | 0 <= i < k :: pit[i].query != q
  {
    if pit == [] || pit[0].query == q then 0 else 1 + Position(pit[1..], q)
  }

  /** `Pit::insert`: the entry for a query, new at the end if there was none. */
  function Entered(pit: seq<PitEntry>, q: Query): (r: seq<PitEntry>)
    ensures Position(pit, q) < |r| && r[Position(pit, q)].query == q
  {
    if Position(pit, q) < |pit| then pit else pit + [PitEntry(q, [])]
  }

  /** The name tree node at which the entries of a name hang. */
  function TreeNode(name: Name): Name {
    var whole := if EndsInDigest(name) then name[..|name| - 1] else name;
    if |whole| > MAX_DEPTH then whole[..MAX_DEPTH] else whole
  }

  /** The entries at one name tree node, in the order of its list. */
  function AtTreeNode(pit: seq<PitEntry>, node: Name): seq<PitEntry> {
    if pit == [] then []
    else (if TreeNode(pit[0].query.name) == node then [pit[0]] else []) + AtTreeNode(pit[1..], node)
  }

  /** The last entry at the name tree node of the `k`-th. */
  function LastBeside(pit: seq<PitEntry>, k: nat): (m: nat)
    requires k < |pit|
    ensures k <= m < |pit| && TreeNode(pit[m].query.name) == TreeNode(pit[k].query.name)
    ensures forall i | m < i < |pit| :: TreeNode(pit[i].query.name) != TreeNode(pit[k].query.name)
    decreases |pit|
  {
    var last := |pit| - 1;
    if TreeNode(pit[last].query.name) == TreeNode(pit[k].query.name) then last
    else LastBeside(pit[..last], k)
  }

  /** The `m`-th entry takes the place of the `k`-th. */
  function Moved(pit: seq<PitEntry>, k: nat, m: nat): seq<PitEntry>
    requires k < |pit| && m < |pit|
  {
    var moved := pit[k := pit[m]];
    moved[..m] + moved[m + 1..]
  }

  /** `erasePitEntry`: the last entry of the list takes the place of the erased one. */
  function Erased(pit: seq<PitEntry>, k: nat): seq<PitEntry>
    requires k < |pit|
  {
    Moved(pit, k, LastBeside(pit, k))
  }

  /** Names whose entries hang at the name tree node of the whole name. */
  predicate Addressable(name: Name) {
    |name| <= MAX_DEPTH && !EndsInDigest(name)
  }

  function ByName(pit: seq<PitEntry>, name: Name): (k: nat)
    ensures k <= |pit|
    ensures k < |pit| ==> pit[k].query.name == name
    ensures forall i | 0 <= i < k :: pit[i].query.name != name
  {
    if pit == [] || pit[0].query.name == name then 0 else 1 + ByName(pit[1..], name)
  }

  /** `Pit::findBasedOnName`: the first entry of that name in the list of its name tree node. */
  function FindBasedOnName(pit: seq<PitEntry>, name: Name): Option<PitEntry> {
    var k := ByName(pit, name);
    if Addressable(name) && k < |pit| then Some(pit[k]) else None
  }

  lemma FindCons(pit: seq<PitEntry>, name: Name)
    requires pit != [] && Addressable(name)
    ensures FindBasedOnName(pit, name)
            == if pit[0].query.name == name then Some(pit[0]) else FindBasedOnName(pit[1..], name)
  {
    hide Addressable;
  }

  /** Only that list is searched. */
  lemma {:induction false} FoundAtTreeNode(pit: seq<PitEntry>, name: Name)
    requires Addressable(name)
    ensures FindBasedOnName(pit, name) == FindBasedOnName(AtTreeNode(pit, name), name)
  {
    hide FindBasedOnName, TreeNode;
    if pit != [] {
      var rest := AtTreeNode(pit[1..], name);
      FoundAtTreeNode(pit[1..], name);
      FindCons(pit, name);
      OwnTreeNode(name);
      if TreeNode(pit[0].query.name) == name {
        FindCons([pit[0]] + rest, name);
        assert ([pit[0]] + rest)[1..] == rest;
      } else {
        assert AtTreeNode(pit, name) == rest;
      }
    }
  }

  lemma OwnTreeNode(name: Name)
    requires Addressable(name)
    ensures TreeNode(name) == name
  {
  }

  /** `insertOrUpdateInRecord`: a face's record is replaced in place; a new face goes to the front. */
  function WithRecord(rs: seq<InRecord>, r: InRecord): seq<InRecord> {
    if exists o | o in rs :: o.face == r.face then Replaced(rs, r) else [r] + rs
  }

  function Replaced(rs: seq<InRecord>, r: InRecord): (rs': seq<InRecord>)
    ensures |rs'| == |rs|
    ensures forall i | 0 <= i < |rs| :: rs'[i] == if rs[i].face == r.face then r else rs[i]
  {
    if rs == [] then []
    else [if rs[0].face == r.face then r else rs[0]] + Replaced(rs[1..], r)
  }

  function Recorded(pit: seq<PitEntry>, q: Query, r: InRecord): (pit': seq<PitEntry>)
    requires Position(pit, q) < |pit|
    ensures |pit'| == |pit|
  {
    var k := Position(pit, q);
    pit[k := PitEntry(q, WithRecord(pit[k].inRecords, r))]
  }

  function WithoutFace(rs: seq<InRecord>, face: nat): (rs': seq<InRecord>)
    ensures forall r | r in rs' :: r in rs
  {
    if rs == [] then []
    else (if rs[0].face == face then [] else [rs[0]]) + WithoutFace(rs[1..], face)
  }

  // ---- Interests ----

  /** A token as the forwarder reads it: without one it reads zero. */
  function Number(token: Option<nat>): nat {
    if token.Some? then token.value else 0
  }

  /** The first Interest of a name fixes the tokens on both sides. */
  function Learned(v: Node, name: Name, face: nat, sent: Option<nat>, token: nat): Node {
    if name in v.table.nameToToken then v
    else v.(table := Created(v.table, name, Number(sent), token), first := v.first[name := face])
  }

  /** Records the Interest and sends it on. */
  function Admit(v: Node, q: Query, r: InRecord, out: Option<nat>, token: Option<nat>): (Node, seq<Output>)
    requires Position(v.pit, q) < |v.pit|
  {
    (v.(pit := Recorded(v.pit, q, r)), if out.Some? then [SendInterest(out.value, q, token)] else [])
  }

  /** An Interest from a consumer; `token` is the forwarder's own token for its name. */
  function Continue(v: Node, face: nat, q: Query, sent: Option<nat>, token: Option<nat>, choice: Choice)
    : (Node, seq<Output>)
    requires Position(v.pit, q) < |v.pit|
  {
    match choice
    case Loop(pointToPoint) => (v, if pointToPoint then [SendNack(face, q, DUPLICATE)] else [])
    case Hit => (v, [])
    case NextHopGone => Admit(v, q, InRecord(face, sent, sent, false), None, None)
    case NextHop(chosen) =>
      if token.Some? then Admit(v, q, InRecord(face, sent, token, true), Some(chosen), token)
      else Admit(v, q, InRecord(face, sent, sent, false), Some(chosen), sent)
    case Forward(egress) =>
      if token.Some? then Admit(v, q, InRecord(face, sent, token, true), egress, token)
      else Admit(v, q, InRecord(face, sent, sent, false), egress, None)
  }

  /** A reflexive Interest from the producer side goes back to where the name came from. */
  function Reflect(v: Node, face: nat, q: Query, sent: Option<nat>): (Node, seq<Output>)
    requires Position(v.pit, q) < |v.pit|
  {
    if Number(sent) == 0 then (v, [SendNack(face, q, NONE)])
    else if Number(sent) !in v.table.tokenToName then (v, [SendNack(face, q, NO_ROUTE)])
    else
      var name := v.table.tokenToName[Number(sent)];
      var original := FindBasedOnName(v.pit, name);
      if original.None? || name !in v.table.nameToPrev then (v, [])
      else
        var prev := Some(v.table.nameToPrev[name]);
        var rs := original.value.inRecords;
        Admit(v, q, InRecord(face, sent, prev, true), if rs == [] then None else Some(rs[0].face), prev)
  }

  /** `onIncomingInterest` once the Interest has passed the hop limit, scope and dead nonce checks. */
  function Receive(v: Node, face: nat, q: Query, sent: Option<nat>, draws: seq<nat>, choice: Choice)
    : (Node, seq<Output>)
  {
    var v1 := v.(pit := Entered(v.pit, q));
    match KindOf(q.name)
    case Malformed => (v1, [])
    case FromProducer => Reflect(v1, face, q, sent)
    case Plain => Continue(v1, face, q, sent, None, choice)
    case Reflexive =>
      var known := q.name in v.table.nameToToken;
      var drawn := FirstNew(v.table, draws);
      if !known && drawn.None? then (v1, [])
      else
        var v2 := Learned(v1, q.name, face, sent, if known then 0 else drawn.value);
        Continue(v2, face, q, sent, Some(v2.table.nameToToken[q.name]), choice)
  }

  /** A downstream is satisfied, nacked or expires. */
  function Forget(v: Node, q: Query, face: nat): Node {
    var k := Position(v.pit, q);
    if k == |v.pit| then v
    else v.(pit := v.pit[k := PitEntry(q, WithoutFace(v.pit[k].inRecords, face))])
  }

  /** The entry is finalized. */
  function ForgetEntry(v: Node, q: Query): Node {
    var k := Position(v.pit, q);
    if k == |v.pit| then v else v.(pit := Erased(v.pit, k))
  }

  // ---- Data ----

  function RecordOf(rs: seq<InRecord>, face: nat): (r: Option<InRecord>)
    ensures r.Some? ==> r.value in rs && r.value.face == face
    ensures r.None? ==> forall o | o in rs :: o.face != face
  {
    if rs == [] then None else if rs[0].face == face then Some(rs[0]) else RecordOf(rs[1..], face)
  }

  /** A token that is there, zero or not, replaces the one the Data has. */
  function Given(token: Option<nat>, own: Option<nat>): Option<nat> {
    if token.Some? then token else own
  }

  /**
   `Strategy::sendData` for the entry of `q`: Data that has the token `own` goes out with the token
   on the downstream's in-record, which is deleted.
   */
  function Answer(v: Node, q: Query, face: nat, d: Data, own: Option<nat>): (Node, seq<Output>) {
    var k := Position(v.pit, q);
    if k == |v.pit| then (v, [])
    else
      var r := RecordOf(v.pit[k].inRecords, face);
      (Forget(v, q, face), [SendData(face, d, if r.Some? then Given(r.value.tag, own) else own)])
  }

  // ---- the invariant of a node ----

  predicate PitOk(pit: seq<PitEntry>) {
    && (forall i, j | 0 <= i < j < |pit| :: pit[i].query != pit[j].query)
    && (forall e | e in pit :: DistinctFaces(e.inRecords))
  }

  predicate DistinctFaces(rs: seq<InRecord>) {
    forall i, j | 0 <= i < j < |rs| :: rs[i].face != rs[j].face
  }

  /** The token this forwarder sets on the stored Interest. */
  function OwnTag(t: Table, q: Query, sent: Option<nat>): Option<nat> {
    match KindOf(q.name)
    case Reflexive => if q.name in t.nameToToken then Some(t.nameToToken[q.name]) else None
    case FromProducer =>
      if Number(sent) in t.tokenToName && t.tokenToName[Number(sent)] in t.nameToPrev
      then Some(t.nameToPrev[t.tokenToName[Number(sent)]]) else None
    case _ => None
  }

  /** A stored Interest has the token it came with, or the one this forwarder sets. */
  predicate TagOk(t: Table, q: Query, r: InRecord) {
    && (if r.tagged then r.tag.Some? && OwnTag(t, q, r.sent) == r.tag else r.tag == r.sent)
    && (KindOf(q.name).FromProducer? ==> r.tagged)
  }

  predicate TagsOk(t: Table, pit: seq<PitEntry>) {
    forall e, r | e in pit && r in e.inRecords :: TagOk(t, e.query, r)
  }

  predicate NodeOk(v: Node) {
    && TableOk(v.table)
    && PitOk(v.pit)
    && TagsOk(v.table, v.pit)
    && v.first.Keys == v.table.nameToToken.Keys
    && (forall n | n in v.table.nameToToken :: KindOf(n).Reflexive?)
  }

  lemma PitOfNode(v: Node)
    requires NodeOk(v)
    ensures PitOk(v.pit)
  {
  }

  /** Translations and first faces, once there, never change. */
  predicate Grows(v: Node, v': Node) {
    Extends(v.table, v'.table) && forall n | n in v.first :: n in v'.first && v'.first[n] == v.first[n]
  }

  lemma EnteredOk(pit: seq<PitEntry>, q: Query)
    requires PitOk(pit)
    ensures PitOk(Entered(pit, q)) && Position(Entered(pit, q), q) == Position(pit, q)
    ensures forall t: Table | TagsOk(t, pit) :: TagsOk(t, Entered(pit, q))
  {
    hide Position, TagOk;
    var pit', k := Entered(pit, q), Position(pit, q);
    var k' := Position(pit', q);
    assert forall i | 0 <= i < |pit| :: pit'[i] == pit[i];
  }

  lemma RecordedTags(t: Table, pit: seq<PitEntry>, q: Query, r: InRecord)
    requires PitOk(pit) && Position(pit, q) < |pit| && TagsOk(t, pit) && TagOk(t, q, r)
    ensures TagsOk(t, Recorded(pit, q, r))
  {
    hide Position, DistinctFaces, TagOk, WithRecord;
    var k := Position(pit, q);
    assert pit[k] in pit;
    WithRecordOk(pit[k].inRecords, r);
    var pit' := Recorded(pit, q, r);
    forall e, o | e in pit' && o in e.inRecords
      ensures TagOk(t, e.query, o)
    {
      var i :| 0 <= i < |pit'| && pit'[i] == e;
      assert pit[i] in pit;
    }
  }

  /** More translations do not change the tokens set so far. */
  lemma TagsMore(t: Table, t': Table, pit: seq<PitEntry>)
    requires TagsOk(t, pit) && Extends(t, t')
    ensures TagsOk(t', pit)
  {
    hide KindOf;
  }

  lemma WithRecordOk(rs: seq<InRecord>, r: InRecord)
    requires DistinctFaces(rs)
    ensures DistinctFaces(WithRecord(rs, r))
    ensures forall o | o in WithRecord(rs, r) :: o == r || (o in rs && o.face != r.face)
    ensures r in WithRecord(rs, r)
  {
    var rs' := WithRecord(rs, r);
    if o :| o in rs && o.face == r.face {
      var k :| 0 <= k < |rs| && rs[k] == o;
      assert rs'[k] == r;
      forall i, j | 0 <= i < j < |rs'|
        ensures rs'[i].face != rs'[j].face
      {
        assert rs[i].face == rs'[i].face && rs[j].face == rs'[j].face;
      }
    } else {
      assert forall i | 1 <= i < |rs'| :: rs'[i] == rs[i - 1] && rs[i - 1] in rs;
    }
  }

  lemma RecordedOk(pit: seq<PitEntry>, q: Query, r: InRecord)
    requires PitOk(pit) && Position(pit, q) < |pit|
    ensures PitOk(Recorded(pit, q, r))
  {
    hide Position, DistinctFaces;
    var k := Position(pit, q);
    WithRecordOk(pit[k].inRecords, r);
  }

  lemma LearnedOk(v: Node, name: Name, face: nat, sent: Option<nat>, token: nat)
    requires NodeOk(v) && KindOf(name).Reflexive?
    requires name !in v.table.nameToToken ==> IsNewToken(v.table, token)
    ensures NodeOk(Learned(v, name, face, sent, token)) && Grows(v, Learned(v, name, face, sent, token))
    ensures name in Learned(v, name, face, sent, token).table.nameToToken
  {
    hide TableOk, Extends, PitOk, TagsOk, KindOf;
    if name !in v.table.nameToToken {
      CreatedOk(v.table, name, Number(sent), token);
      TagsMore(v.table, Created(v.table, name, Number(sent), token), v.pit);
    } else {
      ExtendsSelf(v.table);
    }
  }

  /** Every Interest keeps the node in order and its translations as they were. */
  lemma ReceiveOk(v: Node, face: nat, q: Query, sent: Option<nat>, draws: seq<nat>, choice: Choice)
    requires NodeOk(v)
    ensures var v' := Receive(v, face, q, sent, draws, choice).0; NodeOk(v') && Grows(v, v')
  {
    hide Entered, Position, Recorded, TableOk, Extends, PitOk, TagsOk, KindOf, NodeOk;
    EnteredNode(v, q);
    ExtendsSelf(v.table);
    var v1 := v.(pit := Entered(v.pit, q));
    AdmitOk(v1, q);
    match KindOf(q.name) {
      case Malformed =>
      case FromProducer =>
      case Plain =>
      case Reflexive =>
        var known := q.name in v.table.nameToToken;
        var drawn := FirstNew(v.table, draws);
        if known || drawn.Some? {
          var token := if known then 0 else drawn.value;
          LearnedOk(v1, q.name, face, sent, token);
          AdmitOk(Learned(v1, q.name, face, sent, token), q);
        }
    }
  }

  lemma EnteredNode(v: Node, q: Query)
    requires NodeOk(v)
    ensures NodeOk(v.(pit := Entered(v.pit, q)))
    ensures Position(Entered(v.pit, q), q) < |Entered(v.pit, q)|
  {
    hide Entered, Position, TableOk, PitOk, TagsOk, KindOf;
    EnteredOk(v.pit, q);
  }

  lemma AdmitOk(v: Node, q: Query)
    requires NodeOk(v) && Position(v.pit, q) < |v.pit|
    ensures forall r: InRecord | TagOk(v.table, q, r) :: NodeOk(v.(pit := Recorded(v.pit, q, r)))
  {
    hide TableOk, Position, PitOk, TagsOk, TagOk, Recorded;
    forall r: InRecord | TagOk(v.table, q, r)
      ensures NodeOk(v.(pit := Recorded(v.pit, q, r)))
    {
      RecordedOk(v.pit, q, r);
      RecordedTags(v.table, v.pit, q, r);
    }
  }

  lemma {:induction false} WithoutFaceOk(rs: seq<InRecord>, face: nat)
    requires DistinctFaces(rs)
    ensures DistinctFaces(WithoutFace(rs, face))
  {
    if rs != [] {
      assert forall i | 0 <= i < |rs[1..]| :: rs[1..][i] == rs[i + 1];
      WithoutFaceOk(rs[1..], face);
      var rest := WithoutFace(rs[1..], face);
      forall i | 0 <= i < |rest|
        ensures rest[i].face != rs[0].face
      {
        assert rest[i] in rs[1..];
      }
    }
  }

  /** Where the entries of the erased table come from. */
  lemma ErasedAt(pit: seq<PitEntry>, k: nat)
    requires k < |pit|
    ensures var m, less := LastBeside(pit, k), Erased(pit, k);
            && |less| == |pit| - 1
            && forall i | 0 <= i < |less| :: less[i] == pit[if i == k && k != m then m else if i < m then i else i + 1]
  {
    hide LastBeside, TreeNode;
  }

  /** The erased table holds the other entries and no more. */
  lemma ErasedEntries(pit: seq<PitEntry>, k: nat)
    requires k < |pit| && PitOk(pit)
    ensures PitOk(Erased(pit, k))
    ensures forall e :: e in Erased(pit, k) <==> e in pit && e != pit[k]
  {
    hide LastBeside, Erased, PitOk, TreeNode;
    ErasedAt(pit, k);
    ErasedOk(pit, k);
    var m, less := LastBeside(pit, k), Erased(pit, k);
    forall e | e in pit && e != pit[k]
      ensures e in less
    {
      var i :| 0 <= i < |pit| && pit[i] == e;
      assert less[if i == m then k else if i < m then i else i - 1] == pit[i];
    }
  }

  lemma ErasedOk(pit: seq<PitEntry>, k: nat)
    requires k < |pit| && PitOk(pit)
    ensures PitOk(Erased(pit, k))
    ensures forall e | e in Erased(pit, k) :: e in pit && e != pit[k]
  {
    hide LastBeside, Erased, DistinctFaces, TreeNode;
    ErasedAt(pit, k);
    var less := Erased(pit, k);
    forall i | 0 <= i < |less|
      ensures less[i] in pit && less[i].query != pit[k].query
    {
    }
  }

  /** In the list of its name tree node the last entry takes the place of the erased one; no other list changes. */
  lemma ErasedMovesLast(pit: seq<PitEntry>, k: nat, node: Name)
    requires k < |pit|
    ensures var list, i := AtTreeNode(pit, node), |AtTreeNode(pit[..k], node)|;
            if node != TreeNode(pit[k].query.name) then AtTreeNode(Erased(pit, k), node) == list
            else i < |list| && list[i] == pit[k]
                 && AtTreeNode(Erased(pit, k), node) == list[i := list[|list| - 1]][..|list| - 1]
  {
    hide AtTreeNode, TreeNode, LastBeside, Moved;
    var m := LastBeside(pit, k);
    var x, z := pit[..k], pit[m + 1..];
    SplitAt(pit, k);
    TreeNodeSplit(x, pit[k], pit[k + 1..], node);
    if TreeNode(pit[k].query.name) == node {
      NoneAtTreeNode(z, node);
    }
    if m == k {
      MovedNone(pit, k);
      TreeNodeSplit(x, pit[k], z, node);
    } else {
      MovedParts(pit, k, m);
      SplitTwice(pit, k, m);
      TreeNodeSplit(pit[k + 1..m], pit[m], z, node);
      TreeNodeSplit(x, pit[m], pit[k + 1..m] + z, node);
    }
  }

  lemma MovedNone(pit: seq<PitEntry>, k: nat)
    requires k < |pit|
    ensures Moved(pit, k, k) == pit[..k] + pit[k + 1..]
  {
    assert pit[k := pit[k]] == pit;
  }

  lemma SplitTwice(pit: seq<PitEntry>, k: nat, m: nat)
    requires k < m < |pit|
    ensures pit[k + 1..] == pit[k + 1..m] + [pit[m]] + pit[m + 1..]
  {
    SplitAt(pit[k + 1..], m - k - 1);
    Sliced(pit, k, m);
  }

  lemma SplitAt(pit: seq<PitEntry>, k: nat)
    requires k < |pit|
    ensures pit == pit[..k] + [pit[k]] + pit[k + 1..]
  {
  }

  lemma Sliced(pit: seq<PitEntry>, k: nat, m: nat)
    requires k < m < |pit|
    ensures pit[k + 1..][..m - k - 1] == pit[k + 1..m] && pit[k + 1..][m - k - 1] == pit[m]
    ensures pit[k + 1..][m - k..] == pit[m + 1..]
  {
  }

  lemma MovedParts(pit: seq<PitEntry>, k: nat, m: nat)
    requires k < m < |pit|
    ensures Moved(pit, k, m) == pit[..k] + [pit[m]] + (pit[k + 1..m] + pit[m + 1..])
  {
    var moved := pit[k := pit[m]];
    assert moved[..m] == pit[..k] + [pit[m]] + pit[k + 1..m];
    assert moved[m + 1..] == pit[m + 1..];
  }

  lemma TreeNodeSplit(a: seq<PitEntry>, e: PitEntry, b: seq<PitEntry>, node: Name)
    ensures AtTreeNode(a + b, node) == AtTreeNode(a, node) + AtTreeNode(b, node)
    ensures AtTreeNode(a + [e] + b, node)
            == AtTreeNode(a, node) + (if TreeNode(e.query.name) == node then [e] else []) + AtTreeNode(b, node)
  {
    hide TreeNode, AtTreeNode;
    TreeNodeAppend(a, b, node);
    TreeNodeAppend(a + [e], b, node);
    TreeNodeAppend(a, [e], node);
    TreeNodeOne(e, node);
  }

  /** A query that is already there adds nothing; a new entry comes last at its name tree node, and nowhere else. */
  lemma EnteredAtEnd(pit: seq<PitEntry>, q: Query, node: Name)
    ensures (exists e | e in pit :: e.query == q) ==> Entered(pit, q) == pit
    ensures (forall e | e in pit :: e.query != q) ==>
              AtTreeNode(Entered(pit, q), node)
              == AtTreeNode(pit, node) + if TreeNode(q.name) == node then [PitEntry(q, [])] else []
  {
    hide TreeNode, AtTreeNode;
    TreeNodeAppend(pit, [PitEntry(q, [])], node);
    TreeNodeOne(PitEntry(q, []), node);
  }

  lemma TreeNodeOne(e: PitEntry, node: Name)
    ensures AtTreeNode([e], node) == if TreeNode(e.query.name) == node then [e] else []
  {
    hide TreeNode;
    assert [e][1..] == [];
  }

  lemma TreeNodeCons(pit: seq<PitEntry>, node: Name)
    requires pit != []
    ensures AtTreeNode(pit, node)
            == (if TreeNode(pit[0].query.name) == node then [pit[0]] else []) + AtTreeNode(pit[1..], node)
  {
    hide TreeNode;
  }

  lemma {:induction false} TreeNodeAppend(a: seq<PitEntry>, b: seq<PitEntry>, node: Name)
    ensures AtTreeNode(a + b, node) == AtTreeNode(a, node) + AtTreeNode(b, node)
  {
    hide TreeNode, AtTreeNode;
    if a == [] {
      assert a + b == b;
      NoneAtTreeNode([], node);
    } else {
      assert (a + b)[1..] == a[1..] + b;
      TreeNodeAppend(a[1..], b, node);
      TreeNodeCons(a, node);
      TreeNodeCons(a + b, node);
    }
  }

  lemma {:induction false} NoneAtTreeNode(es: seq<PitEntry>, node: Name)
    requires forall e | e in es :: TreeNode(e.query.name) != node
    ensures AtTreeNode(es, node) == []
  {
    hide TreeNode;
    if es != [] {
      NoneAtTreeNode(es[1..], node);
    }
  }

  lemma ForgetOk(v: Node, q: Query, face: nat)
    requires NodeOk(v)
    ensures NodeOk(Forget(v, q, face)) && NodeOk(ForgetEntry(v, q))
  {
    hide TableOk, Position, DistinctFaces, KindOf, Erased, TagOk;
    var k := Position(v.pit, q);
    if k < |v.pit| {
      assert v.pit[k] in v.pit;
      WithoutFaceOk(v.pit[k].inRecords, face);
      ErasedEntries(v.pit, k);
      ForgottenTags(v, q, face, k);
    }
  }

  lemma ForgottenTags(v: Node, q: Query, face: nat, k: nat)
    requires k < |v.pit| && v.pit[k].query == q && TagsOk(v.table, v.pit)
    ensures TagsOk(v.table, v.pit[k := PitEntry(q, WithoutFace(v.pit[k].inRecords, face))])
  {
    hide TagOk;
    var pit' := v.pit[k := PitEntry(q, WithoutFace(v.pit[k].inRecords, face))];
    forall e, o | e in pit' && o in e.inRecords
      ensures TagOk(v.table, e.query, o)
    {
      var i :| 0 <= i < |pit'| && pit'[i] == e;
      assert v.pit[i] in v.pit;
    }
  }

  // ---- what an Interest leaves behind ----

  /** A name new to the table has the token and the face of this Interest as its past. */
  lemma ReceiveLearns(v: Node, face: nat, q: Query, sent: Option<nat>, draws: seq<nat>, choice: Choice, n: Name)
    requires NodeOk(v)
    requires n in Receive(v, face, q, sent, draws, choice).0.table.nameToToken
    ensures var v' := Receive(v, face, q, sent, draws, choice).0;
            && n in v'.table.nameToPrev && n in v'.first
            && (n !in v.table.nameToToken ==>
                  n == q.name && v'.table.nameToPrev[n] == Number(sent) && v'.first[n] == face)
  {
    hide Entered, Position, Recorded, PitOk, KindOf, NamesBack, KeysBack, Extends;
    ReceiveOk(v, face, q, sent, draws, choice);
    EnteredOk(v.pit, q);
  }

  /** `r` is in the entry for `q`. */
  predicate HasRecord(pit: seq<PitEntry>, q: Query, r: InRecord) {
    exists e | e in pit :: e.query == q && r in e.inRecords
  }

  lemma EnteredRecords(pit: seq<PitEntry>, q: Query, p: Query, r: InRecord)
    requires HasRecord(Entered(pit, q), p, r)
    ensures HasRecord(pit, p, r)
  {
    hide Position;
  }

  lemma RecordedRecords(pit: seq<PitEntry>, q: Query, new': InRecord, p: Query, r: InRecord)
    requires PitOk(pit) && Position(pit, q) < |pit|
    requires HasRecord(Recorded(pit, q, new'), p, r)
    ensures HasRecord(pit, p, r) || (p == q && r == new')
  {
    hide Position, WithRecord, DistinctFaces;
    var k := Position(pit, q);
    WithRecordOk(pit[k].inRecords, new');
    var e :| e in Recorded(pit, q, new') && e.query == p && r in e.inRecords;
    var i :| 0 <= i < |pit| && Recorded(pit, q, new')[i] == e;
    assert pit[i] in pit;
  }

  /** The entry is made, and at most one record written in it. */
  lemma ReceivePit(v: Node, face: nat, q: Query, sent: Option<nat>, draws: seq<nat>, choice: Choice)
    returns (tag: Option<nat>)
    requires NodeOk(v)
    ensures var pit := Entered(v.pit, q);
            var pit' := Receive(v, face, q, sent, draws, choice).0.pit;
            Position(pit, q) < |pit|
            && (pit' == pit || exists tagged :: pit' == Recorded(pit, q, InRecord(face, sent, tag, tagged)))
  {
    hide Entered, Position, Recorded, PitOk, KindOf, TableOk;
    EnteredOk(v.pit, q);
    tag := sent;
    match KindOf(q.name) {
      case Malformed =>
      case Plain =>
      case FromProducer =>
        if Number(sent) in v.table.tokenToName && v.table.tokenToName[Number(sent)] in v.table.nameToPrev {
          tag := Some(v.table.nameToPrev[v.table.tokenToName[Number(sent)]]);
        }
      case Reflexive =>
        var v' := Receive(v, face, q, sent, draws, choice).0;
        if (choice.Forward? || choice.NextHop?) && q.name in v'.table.nameToToken {
          tag := Some(v'.table.nameToToken[q.name]);
        }
    }
  }

  /** Every in-record was there before, or holds the face and token of this Interest. */
  lemma ReceiveRecords(v: Node, face: nat, q: Query, sent: Option<nat>, draws: seq<nat>, choice: Choice,
                       p: Query, r: InRecord)
    requires NodeOk(v)
    requires HasRecord(Receive(v, face, q, sent, draws, choice).0.pit, p, r)
    ensures HasRecord(v.pit, p, r) || (p == q && r.face == face && r.sent == sent)
  {
    hide Entered, Position, Recorded, PitOk, KindOf, HasRecord, TableOk, Created;
    EnteredOk(v.pit, q);
    var pit := Entered(v.pit, q);
    var pit' := Receive(v, face, q, sent, draws, choice).0.pit;
    var tag := ReceivePit(v, face, q, sent, draws, choice);
    if pit' != pit {
      var tagged :| pit' == Recorded(pit, q, InRecord(face, sent, tag, tagged));
      RecordedRecords(pit, q, InRecord(face, sent, tag, tagged), p, r);
    }
    if HasRecord(pit, p, r) {
      EnteredRecords(v.pit, q, p, r);
    }
  }

  /** A consumer's reflexive Interest leaves with this forwarder's own token for its name. */
  lemma ReceiveSends(v: Node, face: nat, q: Query, sent: Option<nat>, draws: seq<nat>, choice: Choice, o: Output)
    requires NodeOk(v) && o.SendInterest?
    requires o in Receive(v, face, q, sent, draws, choice).1
    ensures var v' := Receive(v, face, q, sent, draws, choice).0;
            && o.query == q
            && (KindOf(q.name).Reflexive? ==>
                  q.name in v'.table.nameToToken && o.token == Some(v'.table.nameToToken[q.name]))
  {
    hide Entered, Position, Recorded, PitOk, KindOf, TableOk;
    EnteredOk(v.pit, q);
  }

  /** The face an Interest from a consumer is to leave by. */
  function ChosenFace(choice: Choice): Option<nat> {
    match choice
    case NextHop(chosen) => Some(chosen)
    case Forward(egress) => egress
    case _ => None
  }

  /** A name of which this forwarder has, or can draw, a token if it needs one. */
  predicate CanTake(v: Node, q: Query, draws: seq<nat>) {
    match KindOf(q.name)
    case Plain => true
    case Reflexive => q.name in v.table.nameToToken || FirstNew(v.table, draws).Some?
    case _ => false
  }

  /**
   An Interest from a consumer leaves by the chosen face and no other, once: a reflexive one with this
   forwarder's token for its name, a plain one without token, or with its own to a next hop that the
   application chose. With nothing chosen nothing leaves.
   */
  lemma LeavesByChosenFace(v: Node, face: nat, q: Query, sent: Option<nat>, draws: seq<nat>, choice: Choice)
    requires NodeOk(v) && CanTake(v, q, draws)
    ensures var (v', out) := Receive(v, face, q, sent, draws, choice);
            && (forall o | o in out && o.SendInterest? :: ChosenFace(choice) == Some(o.face))
            && (KindOf(q.name).Reflexive? ==> q.name in v'.table.nameToToken)
            && (ChosenFace(choice).Some? ==>
                  out == [SendInterest(ChosenFace(choice).value, q,
                                       if KindOf(q.name).Reflexive? then Some(v'.table.nameToToken[q.name])
                                       else if choice.NextHop? then sent else None)])
            && (choice == Loop(true) <==> out == [SendNack(face, q, DUPLICATE)])
            && (ChosenFace(choice).None? && choice != Loop(true) ==> out == [])
  {
    hide Entered, Position, Recorded, PitOk, KindOf, TableOk, TagsOk;
    EnteredOk(v.pit, q);
  }

  /** The in-record at the front of the entry for a query. */
  function Newest(pit: seq<PitEntry>, q: Query): Option<InRecord> {
    var k := Position(pit, q);
    if k < |pit| && pit[k].inRecords != [] then Some(pit[k].inRecords[0]) else None
  }

  /** A record for the face is in the entry, and in front if the face is new there. */
  ghost predicate Waits(pit: seq<PitEntry>, pit': seq<PitEntry>, q: Query, face: nat, sent: Option<nat>) {
    exists tag, tagged ::
      var r := InRecord(face, sent, tag, tagged);
      && HasRecord(pit', q, r)
      && ((forall o | HasRecord(pit, q, o) :: o.face != face) ==> Newest(pit', q) == Some(r))
  }

  /** A loop or a hit leaves the in-records as they were; any other Interest then waits at its face. */
  lemma IsRecorded(v: Node, face: nat, q: Query, sent: Option<nat>, draws: seq<nat>, choice: Choice)
    requires NodeOk(v) && CanTake(v, q, draws)
    ensures var pit' := Receive(v, face, q, sent, draws, choice).0.pit;
            if choice.Loop? || choice.Hit? then forall p, r :: HasRecord(pit', p, r) <==> HasRecord(v.pit, p, r)
            else Waits(v.pit, pit', q, face, sent)
  {
    hide Entered, Position, PitOk, KindOf, TableOk, TagsOk, Recorded, HasRecord, Waits;
    EnteredOk(v.pit, q);
    var pit := Entered(v.pit, q);
    forall p, r
      ensures HasRecord(pit, p, r) <==> HasRecord(v.pit, p, r)
    {
      EnteredSame(v.pit, q, p, r);
    }
    if !choice.Loop? && !choice.Hit? {
      var v' := Receive(v, face, q, sent, draws, choice).0;
      var own := KindOf(q.name).Reflexive? && !choice.NextHopGone?;
      var r := InRecord(face, sent, if own then Some(v'.table.nameToToken[q.name]) else sent, own);
      assert v'.pit == Recorded(pit, q, r);
      RecordedWaits(v.pit, q, r);
    }
  }

  lemma RecordedWaits(pit: seq<PitEntry>, q: Query, r: InRecord)
    requires PitOk(pit)
    ensures Position(Entered(pit, q), q) < |Entered(pit, q)|
    ensures Waits(pit, Recorded(Entered(pit, q), q, r), q, r.face, r.sent)
  {
    hide Position, WithRecord, DistinctFaces, Entered;
    EnteredOk(pit, q);
    var pit1 := Entered(pit, q);
    var k := Position(pit1, q);
    var rs, pit' := pit1[k].inRecords, Recorded(pit1, q, r);
    assert pit1[k] in pit1;
    WithRecordOk(rs, r);
    assert pit'[k] == PitEntry(q, WithRecord(rs, r)) && pit'[k] in pit';
    assert HasRecord(pit', q, r);
    SamePosition(pit1, pit', q);
    if forall o | HasRecord(pit, q, o) :: o.face != r.face {
      forall o | o in rs
        ensures o.face != r.face
      {
        assert HasRecord(pit1, q, o);
        EnteredSame(pit, q, q, o);
      }
      InFront(rs, r);
    }
    assert r == InRecord(r.face, r.sent, r.tag, r.tagged);
  }

  lemma InFront(rs: seq<InRecord>, r: InRecord)
    requires forall o | o in rs :: o.face != r.face
    ensures WithRecord(rs, r) == [r] + rs
  {
  }

  lemma SamePosition(pit: seq<PitEntry>, pit': seq<PitEntry>, q: Query)
    requires |pit| == |pit'| && forall i | 0 <= i < |pit| :: pit[i].query == pit'[i].query
    ensures Position(pit, q) == Position(pit', q)
  {
    hide Position;
    var k, k' := Position(pit, q), Position(pit', q);
  }

  lemma EnteredSame(pit: seq<PitEntry>, q: Query, p: Query, r: InRecord)
    ensures HasRecord(Entered(pit, q), p, r) <==> HasRecord(pit, p, r)
  {
    hide Position;
    if HasRecord(pit, p, r) {
      var e :| e in pit && e.query == p && r in e.inRecords;
      assert e in Entered(pit, q);
    }
  }

  /** Forgetting takes out the records of one face in one entry, or of one entry, and no others. */
  lemma ForgetRecordsIff(v: Node, q: Query, face: nat, p: Query, r: InRecord)
    requires PitOk(v.pit)
    ensures HasRecord(Forget(v, q, face).pit, p, r) <==> HasRecord(v.pit, p, r) && !(p == q && r.face == face)
    ensures HasRecord(ForgetEntry(v, q).pit, p, r) <==> HasRecord(v.pit, p, r) && p != q
  {
    hide Position, Erased, DistinctFaces, WithoutFace;
    var k := Position(v.pit, q);
    if HasRecord(v.pit, p, r) {
      var e :| e in v.pit && e.query == p && r in e.inRecords;
      var i :| 0 <= i < |v.pit| && v.pit[i] == e;
      if k < |v.pit| {
        WithoutFaceIff(v.pit[k].inRecords, face, r);
        ErasedEntries(v.pit, k);
        if i != k {
          assert Forget(v, q, face).pit[i] == e;
        } else {
          assert Forget(v, q, face).pit[k].inRecords == WithoutFace(e.inRecords, face);
        }
      }
    }
    if k < |v.pit| {
      ForgottenOnly(v, q, face, p, r);
    }
  }

  lemma ForgottenOnly(v: Node, q: Query, face: nat, p: Query, r: InRecord)
    requires PitOk(v.pit) && Position(v.pit, q) < |v.pit|
    ensures HasRecord(Forget(v, q, face).pit, p, r) ==> HasRecord(v.pit, p, r) && !(p == q && r.face == face)
    ensures HasRecord(ForgetEntry(v, q).pit, p, r) ==> HasRecord(v.pit, p, r) && p != q
  {
    hide Position, Erased, DistinctFaces, WithoutFace;
    var k := Position(v.pit, q);
    assert v.pit[k] in v.pit;
    WithoutFaceIff(v.pit[k].inRecords, face, r);
    ErasedEntries(v.pit, k);
    if HasRecord(Forget(v, q, face).pit, p, r) {
      var e :| e in Forget(v, q, face).pit && e.query == p && r in e.inRecords;
      var i :| 0 <= i < |v.pit| && Forget(v, q, face).pit[i] == e;
      assert v.pit[i] in v.pit;
      if i != k {
        OneEntryPerQueryNot(v.pit, i, k);
      }
    }
    if HasRecord(ForgetEntry(v, q).pit, p, r) {
      var e :| e in ForgetEntry(v, q).pit && e.query == p && r in e.inRecords;
      var i :| 0 <= i < |v.pit| && v.pit[i] == e;
      assert i != k;
      OneEntryPerQueryNot(v.pit, i, k);
    }
  }

  lemma OneEntryPerQueryNot(pit: seq<PitEntry>, i: nat, k: nat)
    requires PitOk(pit) && i < |pit| && k < |pit| && i != k
    ensures pit[i].query != pit[k].query
  {
    if i < k {
      assert pit[i].query != pit[k].query;
    } else {
      assert pit[k].query != pit[i].query;
    }
  }

  lemma {:induction false} WithoutFaceIff(rs: seq<InRecord>, face: nat, r: InRecord)
    ensures r in WithoutFace(rs, face) <==> r in rs && r.face != face
  {
    if rs != [] {
      WithoutFaceIff(rs[1..], face, r);
    }
  }

  /** Forgetting leaves no new records. */
  lemma ForgetRecords(v: Node, q: Query, face: nat, p: Query, r: InRecord)
    requires PitOk(v.pit)
    requires HasRecord(Forget(v, q, face).pit, p, r) || HasRecord(ForgetEntry(v, q).pit, p, r)
    ensures HasRecord(v.pit, p, r)
  {
    hide Position, Erased;
    var k := Position(v.pit, q);
    if k < |v.pit| {
      assert v.pit[k] in v.pit;
      ErasedEntries(v.pit, k);
    }
  }

  // ---- reflexive Interests ----

  /** The face a reflexive Interest for `name` would be sent to. */
  function Front(v: Node, name: Name): Option<InRecord> {
    var original := FindBasedOnName(v.pit, name);
    if original.None? || original.value.inRecords == [] then None
    else Some(original.value.inRecords[0])
  }

  /**
   A reflexive Interest with the token this forwarder gave to `name` goes to the newest face waiting
   for that name, with the token that came with the first Interest of that name.
   */
  lemma ReflectsToFront(v: Node, face: nat, q: Query, name: Name, draws: seq<nat>, choice: Choice)
    requires NodeOk(v) && KindOf(q.name).FromProducer? && name in v.table.nameToToken
    ensures var out := Receive(v, face, q, Some(v.table.nameToToken[name]), draws, choice).1;
            out == if Front(v, name).Some?
                   then [SendInterest(Front(v, name).value.face, q, Some(v.table.nameToPrev[name]))] else []
  {
    hide Position, Recorded, PitOk, KindOf, ByName, KeysBack;
    EnteredOk(v.pit, q);
    var token := v.table.nameToToken[name];
    assert v.table.tokenToName[token] == name;
    EnteredByName(v.pit, q, name);
  }

  lemma EnteredByName(pit: seq<PitEntry>, q: Query, name: Name)
    requires q.name != name
    ensures FindBasedOnName(Entered(pit, q), name) == FindBasedOnName(pit, name)
  {
    hide Position, ByName;
    var k, k' := ByName(pit, name), ByName(Entered(pit, q), name);
    assert forall i | 0 <= i < |pit| :: Entered(pit, q)[i] == pit[i];
  }

  /** Without a token, or with one this forwarder never gave out, the answer is a Nack. */
  lemma UnknownTokenIsNacked(v: Node, face: nat, q: Query, sent: Option<nat>, draws: seq<nat>, choice: Choice)
    requires NodeOk(v) && KindOf(q.name).FromProducer?
    ensures var out := Receive(v, face, q, sent, draws, choice).1;
            && (Number(sent) == 0 <==> out == [SendNack(face, q, NONE)])
            && (Number(sent) != 0 && Number(sent) !in v.table.tokenToName <==> out == [SendNack(face, q, NO_ROUTE)])
  {
    hide Position, Recorded, PitOk, KindOf, ByName;
    EnteredOk(v.pit, q);
    assert Number(sent) in v.table.tokenToName ==> Number(sent) != 0;
  }

  /**
   The newest face gets its own token back exactly when it had sent the same token as the first
   Interest of that name.
   */
  lemma OwnTokenBackIff(v: Node, face: nat, q: Query, name: Name)
    requires NodeOk(v) && KindOf(q.name).FromProducer? && name in v.table.nameToToken
    requires Front(v, name).Some?
    ensures var r := Front(v, name).value;
            Receive(v, face, q, Some(v.table.nameToToken[name]), [], Hit).1 == [SendInterest(r.face, q, r.sent)]
            <==> r.sent == Some(v.table.nameToPrev[name])
  {
    hide Receive, Front, PitOk, KindOf;
    ReflectsToFront(v, face, q, name, [], Hit);
  }

  const FIRST_RECORD := InRecord(1, Some(11), Some(5), true)
  const SECOND_RECORD := InRecord(2, Some(22), Some(5), true)

  /** Two consumers, one name, two tokens: the second is reached with the token of the first. */
  lemma SecondConsumerGetsFirstToken(q: Query, ri: Query)
    requires KindOf(q.name).Reflexive? && Addressable(q.name) && KindOf(ri.name).FromProducer?
    ensures var v1 := Receive(INITIAL, 1, q, Some(11), [5], Forward(None)).0;
            var v2 := Receive(v1, 2, q, Some(22), [], Forward(None)).0;
            Receive(v2, 3, ri, Some(5), [], Hit).1 == [SendInterest(2, ri, Some(11))]
  {
    hide KindOf, Addressable, Receive, NodeOk, ByName;
    var v1 := FirstConsumer(q);
    var v2 := SecondConsumer(q, v1);
    ReflectsToFront(v2, 3, ri, q.name, [], Hit);
    assert v2.pit[0].query.name == q.name;
    assert ByName(v2.pit, q.name) == 0;
  }

  lemma FirstConsumer(q: Query) returns (v: Node)
    requires KindOf(q.name).Reflexive?
    ensures v == Receive(INITIAL, 1, q, Some(11), [5], Forward(None)).0 && NodeOk(v)
    ensures v.table == Created(EMPTY, q.name, 11, 5) && v.pit == [PitEntry(q, [FIRST_RECORD])]
  {
    hide KindOf, Recorded, Entered, Position;
    v := Receive(INITIAL, 1, q, Some(11), [5], Forward(None)).0;
    ReceiveOk(INITIAL, 1, q, Some(11), [5], Forward(None));
    assert FirstNew(EMPTY, [5]) == Some(5);
    OneEntry(q, [], FIRST_RECORD);
    assert [FIRST_RECORD] + [] == [FIRST_RECORD];
  }

  lemma SecondConsumer(q: Query, v: Node) returns (v': Node)
    requires KindOf(q.name).Reflexive? && NodeOk(v)
    requires v.table == Created(EMPTY, q.name, 11, 5) && v.pit == [PitEntry(q, [FIRST_RECORD])]
    ensures v' == Receive(v, 2, q, Some(22), [], Forward(None)).0 && NodeOk(v')
    ensures v'.table == v.table && v'.pit == [PitEntry(q, [SECOND_RECORD, FIRST_RECORD])]
  {
    hide KindOf, Recorded, Entered, Position, NodeOk;
    v' := Receive(v, 2, q, Some(22), [], Forward(None)).0;
    ReceiveOk(v, 2, q, Some(22), [], Forward(None));
    OneEntry(q, [FIRST_RECORD], SECOND_RECORD);
    assert [SECOND_RECORD] + [FIRST_RECORD] == [SECOND_RECORD, FIRST_RECORD];
  }

  /** The first consumer sent 11, and its Data carries 5. */
  lemma FirstConsumerGetsOtherToken(q: Query, d: Data, own: Option<nat>)
    requires KindOf(q.name).Reflexive?
    ensures var v := Receive(INITIAL, 1, q, Some(11), [5], Forward(None)).0;
            Answer(v, q, 1, d, own).1 == [SendData(1, d, Some(5))]
  {
    hide KindOf, Receive, NodeOk;
    var v := FirstConsumer(q);
    OneEntry(q, [], FIRST_RECORD);
  }

  /** A new face in a table with one entry. */
  lemma OneEntry(q: Query, rs: seq<InRecord>, r: InRecord)
    requires forall o | o in rs :: o.face != r.face
    ensures Entered([], q) == [PitEntry(q, [])] && Entered([PitEntry(q, rs)], q) == [PitEntry(q, rs)]
    ensures Position([PitEntry(q, rs)], q) == 0
    ensures Recorded([PitEntry(q, rs)], q, r) == [PitEntry(q, [r] + rs)]
  {
    var pit := [PitEntry(q, rs)];
    assert WithRecord(pit[0].inRecords, r) == [r] + rs;
  }

  /**
   Data for a downstream that is waiting carries back what that downstream sent exactly when this
   forwarder did not set a token on the stored Interest, or set that very token. It never does for
   plain Interests, always for those of the producer, and for every reflexive one it forwards.
   */
  lemma DataTokenIff(v: Node, q: Query, r: InRecord, d: Data, own: Option<nat>)
    requires NodeOk(v) && HasRecord(v.pit, q, r)
    ensures var out := Answer(v, q, r.face, d, own).1;
            && |out| == 1 && out[0].SendData? && out[0].face == r.face
            && (r.tagged ==> OwnTag(v.table, q, r.sent).Some?)
            && (KindOf(q.name).Plain? ==> !r.tagged) && (KindOf(q.name).FromProducer? ==> r.tagged)
            && (out[0].token == Given(r.sent, own) <==> !r.tagged || OwnTag(v.table, q, r.sent) == Given(r.sent, own))
  {
    hide Position, TableOk, RecordOf, KindOf;
    var e :| e in v.pit && e.query == q && r in e.inRecords;
    var i :| 0 <= i < |v.pit| && v.pit[i] == e;
    var k := Position(v.pit, q);
    OneEntryPerQuery(v.pit, i, k);
    OneRecord(e.inRecords, r);
  }

  lemma OneEntryPerQuery(pit: seq<PitEntry>, i: nat, k: nat)
    requires PitOk(pit) && i < |pit| && k < |pit| && pit[i].query == pit[k].query
    ensures i == k
  {
  }

  lemma OneRecord(rs: seq<InRecord>, r: InRecord)
    requires DistinctFaces(rs) && r in rs
    ensures RecordOf(rs, r.face) == Some(r)
  {
    hide RecordOf;
    var o := RecordOf(rs, r.face);
  }

  /** The record of a forwarded reflexive Interest is tagged, and its Data carries this forwarder's own token. */
  lemma ForwardedIsTagged(v: Node, face: nat, q: Query, sent: Option<nat>, draws: seq<nat>, egress: Option<nat>,
                          r: InRecord)
    requires NodeOk(v) && KindOf(q.name).Reflexive?
    requires q.name in v.table.nameToToken || FirstNew(v.table, draws).Some?
    requires var v' := Receive(v, face, q, sent, draws, Forward(egress)).0;
             HasRecord(v'.pit, q, r) && r.face == face
    ensures var v' := Receive(v, face, q, sent, draws, Forward(egress)).0;
            && r.sent == sent && r.tagged && q.name in v'.table.nameToToken
            && OwnTag(v'.table, q, sent) == Some(v'.table.nameToToken[q.name])
  {
    hide Entered, Position, Recorded, PitOk, KindOf, TableOk, TagsOk;
    EnteredOk(v.pit, q);
    var v' := Receive(v, face, q, sent, draws, Forward(egress)).0;
    OneRecordPerFace(Entered(v.pit, q), q, InRecord(face, sent, Some(v'.table.nameToToken[q.name]), true), r);
  }

  lemma OneRecordPerFace(pit: seq<PitEntry>, q: Query, new': InRecord, r: InRecord)
    requires PitOk(pit) && Position(pit, q) < |pit|
    requires HasRecord(Recorded(pit, q, new'), q, r) && r.face == new'.face
    ensures r == new'
  {
    hide Position, WithRecord, DistinctFaces;
    var k := Position(pit, q);
    WithRecordOk(pit[k].inRecords, new');
    var e :| e in Recorded(pit, q, new') && e.query == q && r in e.inRecords;
    var i :| 0 <= i < |pit| && Recorded(pit, q, new')[i] == e;
    assert i < k ==> pit[i].query != pit[k].query;
    assert i > k ==> pit[k].query != pit[i].query;
  }
}
