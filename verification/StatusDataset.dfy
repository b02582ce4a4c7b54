/** Cutting a status dataset into segments while it is being appended. */
module StatusDataset {
  import opened Tlv

  const MAX_PAYLOAD_LENGTH := 8000

  datatype Segment = Segment(number: nat, content: Bytes, isFinal: bool)

  datatype Phase = Initial | Responded | Finalized

  function Concat(segments: seq<Segment>): Bytes {
    if segments == [] then [] else segments[0].content + Concat(segments[1..])
  }

  lemma {:induction false} ConcatSnoc(segments: seq<Segment>, last: Segment)
    ensures Concat(segments + [last]) == Concat(segments) + last.content
  {
    if segments == [] {
      assert segments + [last] == [last];
      assert [last][1..] == [];
    } else {
      assert (segments + [last])[1..] == segments[1..] + [last];
      ConcatSnoc(segments[1..], last);
    }
  }

  /** Full segments, numbered from zero, none of them final. */
  predicate Full(segments: seq<Segment>) {
    forall i | 0 <= i < |segments| ::
      segments[i].number == i && |segments[i].content| == MAX_PAYLOAD_LENGTH && !segments[i].isFinal
  }

  /** What a consumer that fetches segments up to the final one relies on. */
  predicate IsSegmentation(segments: seq<Segment>, bytes: Bytes) {
    && segments != []
    && var last := segments[|segments| - 1];
       && Full(segments[..|segments| - 1])
       && last.number == |segments| - 1 && last.isFinal
       && |last.content| <= MAX_PAYLOAD_LENGTH
       && (last.content == [] ==> |segments| == 1)
       && Concat(segments) == bytes
  }

  /** The bytes decide the segments. */
  lemma SegmentationUnique(a: seq<Segment>, b: seq<Segment>)
    requires IsSegmentation(a, Concat(a)) && IsSegmentation(b, Concat(b)) && Concat(a) == Concat(b)
    ensures a == b
  {
    var m, n := |a| - 1, |b| - 1;
    assert a == a[..m] + [a[m]] && b == b[..n] + [b[n]];
    ConcatSnoc(a[..m], a[m]);
    ConcatSnoc(b[..n], b[n]);
    FullLength(a[..m]);
    FullLength(b[..n]);
    SameFull(a[..m], b[..n], a[m].content, b[n].content);
  }

  lemma {:induction false} FullLength(segments: seq<Segment>)
    requires forall s | s in segments :: |s.content| == MAX_PAYLOAD_LENGTH
    ensures |Concat(segments)| == MAX_PAYLOAD_LENGTH * |segments|
  {
    if segments != [] {
      FullLength(segments[1..]);
    }
  }

  /** Equal bytes in full pieces are equal piece by piece, wherever the numbering starts. */
  lemma {:induction false} SameFull(a: seq<Segment>, b: seq<Segment>, x: Bytes, y: Bytes)
    requires |a| == |b| && Concat(a) + x == Concat(b) + y
    requires forall i | 0 <= i < |a| :: a[i].number == b[i].number && a[i].isFinal == b[i].isFinal
    requires forall i | 0 <= i < |a| :: |a[i].content| == |b[i].content|
    ensures a == b && x == y
  {
    if a != [] {
      var l := |a[0].content|;
      assert Concat(a) + x == a[0].content + (Concat(a[1..]) + x);
      assert Concat(b) + y == b[0].content + (Concat(b[1..]) + y);
      assert a[0].content == (Concat(a) + x)[..l] == b[0].content;
      assert Concat(a[1..]) + x == (Concat(a) + x)[l..] == Concat(b[1..]) + y;
      SameFull(a[1..], b[1..], x, y);
      assert a == [a[0]] + a[1..] && b == [b[0]] + b[1..];
    } else {
      assert Concat(a) + x == x && Concat(b) + y == y;
    }
  }

  class StatusDatasetContext {
    var buffer: Bytes
    var segmentNo: nat
    var phase: Phase
    /** Segments handed to the sender. */
    var sent: seq<Segment>
    var rejected: bool
    ghost var appended: Bytes

    ghost predicate Valid()
      reads this
    {
      && |buffer| <= MAX_PAYLOAD_LENGTH
      && (phase != Finalized ==>
            && !rejected
            && segmentNo == |sent| && Full(sent) && Concat(sent) + buffer == appended
            && (buffer == [] ==> sent == []))
      && (phase == Initial ==> appended == [] && sent == [] && buffer == [])
      && (phase == Finalized && !rejected ==> IsSegmentation(sent, appended))
      && (phase == Finalized && rejected ==> sent == [] && appended == [])
    }

    constructor ()
      ensures Valid() && phase == Initial
    {
      buffer, segmentNo, phase, sent, rejected := [], 0, Initial, [], false;
      appended := [];
    }

    /** Refused once finalized; otherwise the bytes follow what was appended before. */
    method Append(bytes: Bytes) returns (ok: bool)
      requires Valid()
      modifies this
      ensures Valid()
      ensures ok <==> old(phase) != Finalized
      ensures appended == if ok then old(appended) + bytes else old(appended)
      ensures phase == if ok then Responded else Finalized
      ensures old(sent) <= sent && rejected == old(rejected)
    {
      hide IsSegmentation, Concat;
      if phase == Finalized {
        return false;
      }
      phase := Responded;
      appended := appended + bytes;
      var rest := bytes;
      assert Concat(sent) + buffer + rest == appended;
      while rest != []
        invariant |buffer| <= MAX_PAYLOAD_LENGTH
        invariant segmentNo == |sent| && Full(sent)
        invariant Concat(sent) + buffer + rest == appended
        invariant buffer == [] ==> sent == []
        invariant old(sent) <= sent && rejected == old(rejected) && phase == Responded
        invariant appended == old(appended) + bytes
        decreases |rest|
      {
        if |buffer| == MAX_PAYLOAD_LENGTH {
          ConcatSnoc(sent, Segment(segmentNo, buffer, false));
          sent := sent + [Segment(segmentNo, buffer, false)];
          segmentNo := segmentNo + 1;
          buffer := [];
          Rejoin(Concat(sent), [], rest);
        }
        var n := if |rest| <= MAX_PAYLOAD_LENGTH - |buffer| then |rest| else MAX_PAYLOAD_LENGTH - |buffer|;
        Move(Concat(sent), buffer, rest, n);
        buffer := buffer + rest[..n];
        rest := rest[n..];
      }
      Rejoin(Concat(sent), buffer, []);
      ok := true;
    }

    /** Refused once finalized; otherwise the last segment goes out and the whole is complete. */
    method End() returns (ok: bool)
      requires Valid()
      modifies this
      ensures Valid()
      ensures ok <==> old(phase) != Finalized
      ensures ok ==> IsSegmentation(sent, appended)
      ensures !ok ==> sent == old(sent)
      ensures appended == old(appended) && phase == Finalized && rejected == old(rejected)
    {
      hide Concat;
      if phase == Finalized {
        return false;
      }
      phase := Finalized;
      ConcatSnoc(sent, Segment(segmentNo, buffer, true));
      assert (sent + [Segment(segmentNo, buffer, true)])[..|sent|] == sent;
      sent := sent + [Segment(segmentNo, buffer, true)];
      ok := true;
    }

    /** Possible only before anything else, so a rejected dataset has no segments. */
    method Reject() returns (ok: bool)
      requires Valid()
      modifies this
      ensures Valid()
      ensures ok <==> old(phase) == Initial
      ensures ok ==> phase == Finalized && rejected && sent == []
      ensures !ok ==> phase == old(phase) && rejected == old(rejected) && sent == old(sent)
    {
      if phase != Initial {
        return false;
      }
      phase, rejected := Finalized, true;
      ok := true;
    }
  }

  lemma Rejoin(a: Bytes, b: Bytes, c: Bytes)
    ensures a + [] + c == a + c && a + b + [] == a + b
  {
  }

  lemma Move(a: Bytes, buffer: Bytes, rest: Bytes, n: nat)
    requires n <= |rest|
    ensures a + (buffer + rest[..n]) + rest[n..] == a + buffer + rest
  {
    assert rest == rest[..n] + rest[n..];
  }
}
