/**
 The cleanup index of the replacement policies, as a function of the history of the storage, and
 what that history says about the entry chosen for eviction.
 */
module Cleanup {
  datatype Policy = Fifo | Lru | Lfu

  /** What happened to an entry object; `Accessed` only when the storage calls `afterAccess`. */
  datatype Event = Inserted(id: nat) | Accessed(id: nat) | Erased(id: nat) | Evicted(id: nat)

  /** One element of the cleanup index; the frequency is used by LFU only. */
  datatype Slot = Slot(id: nat, frequency: nat)

  type Log = seq<Event>

  function Without(index: seq<Slot>, id: nat): (r: seq<Slot>)
    ensures forall i | 0 <= i < |r| :: r[i] in index && r[i].id != id
    ensures forall s | s in index && s.id != id :: s in r
    ensures (forall s | s in index :: s.id != id) ==> r == index
    ensures |r| <= |index|
  {
    if index == [] then []
    else if index[0].id == id then Without(index[1..], id)
    else [index[0]] + Without(index[1..], id)
  }

  function Touched(index: seq<Slot>, id: nat): (r: seq<Slot>)
    ensures |r| == |index|
    ensures forall i | 0 <= i < |r| ::
              r[i] == if index[i].id == id then Slot(id, index[i].frequency + 1) else index[i]
  {
    seq(|index|, i requires 0 <= i < |index| =>
      if index[i].id == id then Slot(id, index[i].frequency + 1) else index[i])
  }

  /** How `afterInsert`, `afterAccess`, `beforeErase` and `evictItem` change the index. */
  function Apply(policy: Policy, index: seq<Slot>, e: Event): seq<Slot> {
    match e
    case Inserted(id) => index + [Slot(id, 0)]
    case Accessed(id) =>
      (match policy
       case Fifo => index
       case Lru => Without(index, id) + [Slot(id, 0)]
       case Lfu => Touched(index, id))
    case Erased(id) => Without(index, id)
    case Evicted(id) => Without(index, id)
  }

  /** The index after a whole history. */
  function IndexAfter(policy: Policy, log: Log): seq<Slot> {
    if log == [] then [] else Apply(policy, IndexAfter(policy, log[..|log| - 1]), log[|log| - 1])
  }

  predicate Indexed(index: seq<Slot>, id: nat) {
    exists s | s in index :: s.id == id
  }

  /** The entry `evictItem` may choose: the front, or any of lowest frequency. */
  predicate Victim(policy: Policy, index: seq<Slot>, id: nat) {
    match policy
    case Fifo => index != [] && index[0].id == id
    case Lru => index != [] && index[0].id == id
    case Lfu => exists s | s in index ::
                  s.id == id && forall t | t in index :: s.frequency <= t.frequency
  }

  // ---- histories ----

  /** The entry is held: it was inserted and not taken out since. */
  predicate InUse(log: Log, id: nat) {
    log != [] &&
    match log[|log| - 1]
    case Inserted(x) => x == id || InUse(log[..|log| - 1], id)
    case Accessed(_) => InUse(log[..|log| - 1], id)
    case Erased(x) => x != id && InUse(log[..|log| - 1], id)
    case Evicted(x) => x != id && InUse(log[..|log| - 1], id)
  }

  /** When the entry was last used: inserted, or for LRU also accessed. */
  function LastUse(policy: Policy, log: Log, id: nat): (k: nat)
    ensures k <= |log|
  {
    if log == [] then 0
    else if log[|log| - 1] == Inserted(id) || (policy.Lru? && log[|log| - 1] == Accessed(id)) then |log|
    else LastUse(policy, log[..|log| - 1], id)
  }

  /** How often the entry was accessed since it was last inserted. */
  function AccessCount(log: Log, id: nat): nat {
    if log == [] || log[|log| - 1] == Inserted(id) then 0
    else AccessCount(log[..|log| - 1], id) + if log[|log| - 1] == Accessed(id) then 1 else 0
  }

  /**
   A history the storage can have: entries are inserted when free, used and taken out when held,
   and evicted only as the policy allows.
   */
  predicate Possible(policy: Policy, log: Log) {
    log == [] ||
    (Possible(policy, log[..|log| - 1]) && Allowed(policy, log[..|log| - 1], log[|log| - 1]))
  }

  predicate Allowed(policy: Policy, log: Log, e: Event) {
    match e
    case Inserted(id) => !InUse(log, id)
    case Accessed(id) => InUse(log, id)
    case Erased(id) => InUse(log, id)
    case Evicted(id) => Victim(policy, IndexAfter(policy, log), id)
  }

  // ---- what the index knows about the history ----

  /** Keys grow strictly along the index. */
  predicate OrderedBy(index: seq<Slot>, key: nat -> nat) {
    index == [] ||
    ((forall s | s in index[1..] :: key(index[0].id) < key(s.id)) && OrderedBy(index[1..], key))
  }

  lemma {:induction false} OrderedWithout(index: seq<Slot>, id: nat, key: nat -> nat)
    requires OrderedBy(index, key)
    ensures OrderedBy(Without(index, id), key)
  {
    if index != [] {
      OrderedWithout(index[1..], id, key);
      assert index[0].id != id ==> Without(index, id)[1..] == Without(index[1..], id);
    }
  }

  lemma {:induction false} OrderedAppend(index: seq<Slot>, s: Slot, key: nat -> nat)
    requires OrderedBy(index, key) && forall t | t in index :: key(t.id) < key(s.id)
    ensures OrderedBy(index + [s], key)
  {
    if index == [] {
      assert (index + [s])[1..] == [];
    } else {
      OrderedAppend(index[1..], s, key);
      assert (index + [s])[1..] == index[1..] + [s];
    }
  }

  lemma {:induction false} OrderedSameKeys(index: seq<Slot>, key: nat -> nat, key': nat -> nat)
    requires OrderedBy(index, key) && forall s | s in index :: key(s.id) == key'(s.id)
    ensures OrderedBy(index, key')
  {
    if index != [] {
      assert index[0] in index;
      OrderedSameKeys(index[1..], key, key');
    }
  }

  function UseKey(policy: Policy, log: Log): nat -> nat {
    (id: nat) => LastUse(policy, log, id)
  }

  /** The index holds exactly the entries held. */
  lemma {:induction false} IndexIsInUse(policy: Policy, log: Log)
    requires Possible(policy, log)
    ensures forall id :: Indexed(IndexAfter(policy, log), id) <==> InUse(log, id)
  {
    if log != [] {
      var before := log[..|log| - 1];
      IndexIsInUse(policy, before);
      var index := IndexAfter(policy, before);
      forall id
        ensures Indexed(IndexAfter(policy, log), id) <==> InUse(log, id)
      {
        ApplyIndexed(policy, index, log[|log| - 1], id);
        assert Indexed(index, id) <==> InUse(before, id);
        if log[|log| - 1].Evicted? {
          VictimIndexed(policy, index, log[|log| - 1].id);
        }
      }
    }
  }

  lemma VictimIndexed(policy: Policy, index: seq<Slot>, id: nat)
    requires Victim(policy, index, id)
    ensures Indexed(index, id)
  {
  }

  lemma ApplyIndexed(policy: Policy, index: seq<Slot>, e: Event, id: nat)
    requires e.Accessed? ==> Indexed(index, e.id)
    ensures Indexed(Apply(policy, index, e), id) <==>
            if e.Erased? || e.Evicted? then Indexed(index, id) && e.id != id
            else Indexed(index, id) || e.id == id
  {
    var next := Apply(policy, index, e);
    if Indexed(index, id) && e.id != id {
      var s :| s in index && s.id == id;
      if policy.Lfu? && e.Accessed? {
        assert Touched(index, e.id)[IndexOf(index, s)] == s;
      }
      assert s in next;
    }
    if (e.Inserted? || e.Accessed?) && e.id == id {
      if policy.Lfu? && e.Accessed? {
        var s :| s in index && s.id == id;
        assert Touched(index, id)[IndexOf(index, s)].id == id;
      } else if !(policy.Fifo? && e.Accessed?) {
        assert next[|next| - 1] == Slot(id, 0);
      }
    }
  }

  function IndexOf(index: seq<Slot>, s: Slot): (i: nat)
    requires s in index
    ensures i < |index| && index[i] == s
  {
    if index[0] == s then 0 else 1 + IndexOf(index[1..], s)
  }

  /** A new last use goes to the back; other entries keep their place. */
  lemma UseOrderStep(policy: Policy, log: Log, index: seq<Slot>)
    requires log != [] && !policy.Lfu?
    requires OrderedBy(index, UseKey(policy, log[..|log| - 1]))
    requires log[|log| - 1].Inserted? ==> !Indexed(index, log[|log| - 1].id)
    ensures OrderedBy(Apply(policy, index, log[|log| - 1]), UseKey(policy, log))
  {
    hide OrderedBy;
    var before, e := log[..|log| - 1], log[|log| - 1];
    var key, key' := UseKey(policy, before), UseKey(policy, log);
    if policy.Fifo? && e.Accessed? {
      OrderedSameKeys(index, key, key');
    } else {
      var rest := Without(index, e.id);
      OrderedWithout(index, e.id, key);
      OrderedSameKeys(rest, key, key');
      if e.Inserted? || e.Accessed? {
        OrderedAppend(rest, Slot(e.id, 0), key');
      }
    }
  }

  /** FIFO and LRU keep the index in order of last use. */
  lemma {:induction false} IndexInUseOrder(policy: Policy, log: Log)
    requires Possible(policy, log) && !policy.Lfu?
    ensures OrderedBy(IndexAfter(policy, log), UseKey(policy, log))
  {
    hide OrderedBy, Apply, UseKey;
    if log == [] {
      OrderedNothing(UseKey(policy, log));
    } else {
      var before := log[..|log| - 1];
      IndexInUseOrder(policy, before);
      IndexIsInUse(policy, before);
      UseOrderStep(policy, log, IndexAfter(policy, before));
    }
  }

  lemma OrderedNothing(key: nat -> nat)
    ensures OrderedBy([], key)
  {
  }

  /** LFU keeps the true number of accesses since insertion. */
  lemma {:induction false} IndexCountsAccesses(log: Log)
    requires Possible(Lfu, log)
    ensures forall s | s in IndexAfter(Lfu, log) :: s.frequency == AccessCount(log, s.id)
  {
    if log != [] {
      var before, e := log[..|log| - 1], log[|log| - 1];
      IndexCountsAccesses(before);
      IndexIsInUse(Lfu, before);
      var index := IndexAfter(Lfu, before);
      assert e.Inserted? ==> !Indexed(index, e.id);
      forall s | s in IndexAfter(Lfu, log)
        ensures s.frequency == AccessCount(log, s.id)
      {
      }
    }
  }

  /**
   In every possible history, each evicted entry was held, and among all entries then held it was
   the earliest inserted (FIFO), the least recently inserted or accessed (LRU), or one of the
   least often accessed (LFU).
   */
  lemma EvictedAsPromised(policy: Policy, log: Log, k: nat, other: nat)
    requires Possible(policy, log) && k < |log| && log[k].Evicted?
    requires InUse(log[..k], other)
    ensures var before, victim := log[..k], log[k].id;
            && InUse(before, victim)
            && if policy.Lfu? then AccessCount(before, victim) <= AccessCount(before, other)
               else other == victim
                    || LastUse(policy, before, victim) < LastUse(policy, before, other)
  {
    var before, victim := log[..k], log[k].id;
    PossiblePrefix(policy, log, k + 1);
    assert log[..k + 1][..k] == before;
    var index := IndexAfter(policy, before);
    IndexIsInUse(policy, before);
    VictimIndexed(policy, index, victim);
    assert Indexed(index, other);
    var s :| s in index && s.id == other;
    if policy.Lfu? {
      IndexCountsAccesses(before);
    } else {
      IndexInUseOrder(policy, before);
      if s != index[0] {
        assert s in index[1..];
        assert UseKey(policy, before)(index[0].id) < UseKey(policy, before)(s.id);
      }
    }
  }

  lemma {:induction false} PossiblePrefix(policy: Policy, log: Log, k: nat)
    requires Possible(policy, log) && k <= |log|
    ensures Possible(policy, log[..k])
    decreases |log| - k
  {
    if k == |log| {
      assert log[..k] == log;
    } else {
      PossiblePrefix(policy, log, k + 1);
      assert log[..k + 1][..k] == log[..k];
    }
  }

  /** One more event at the end of a history. */
  lemma LogStep(policy: Policy, log: Log, e: Event)
    ensures IndexAfter(policy, log + [e]) == Apply(policy, IndexAfter(policy, log), e)
    ensures Possible(policy, log + [e]) <==>
            Possible(policy, log) && Allowed(policy, log, e)
    ensures forall id :: InUse(log + [e], id) <==>
                         if e.Erased? || e.Evicted? then InUse(log, id) && e.id != id
                         else InUse(log, id) || (e.Inserted? && e.id == id)
  {
    assert (log + [e])[..|log|] == log;
  }

  /** LFU always finds an entry of lowest frequency. */
  lemma {:induction false} LeastFrequent(index: seq<Slot>)
    requires index != []
    ensures exists s | s in index :: forall t | t in index :: s.frequency <= t.frequency
  {
    if |index| == 1 {
      assert index[0] in index;
    } else {
      LeastFrequent(index[1..]);
      var s :| s in index[1..] && forall t | t in index[1..] :: s.frequency <= t.frequency;
      var m := if index[0].frequency < s.frequency then index[0] else s;
      assert m in index && forall t | t in index :: m.frequency <= t.frequency;
    }
  }
}
