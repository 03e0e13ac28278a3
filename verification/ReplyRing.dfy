/**
 * The reply ring over any run of commits: it is the tail of the entry's history, never
 * empty, never shorter than the floor and never longer than the byte budget allows.
 */
module ReplyRing {
  import opened Common
  import opened ClientEntry
  import opened ClientBook
  import opened MetadataLog
  import opened Protection

  const RING_MAX := 32

  /** The history an unbounded ring would hold: a repeat of the newest request replaces its reply. */
  function Recorded(history: seq<CachedReply>, reply: CachedReply): (after: seq<CachedReply>)
    ensures after != [] && after[|after| - 1] == reply
  {
    if history != [] && history[|history| - 1].header.request == reply.header.request
    then history[..|history| - 1] + [reply] else history + [reply]
  }

  /** The entry and its full history after a run of commits, each retained or refused by the table. */
  function Committed(e: Entry, history: seq<CachedReply>, replies: seq<CachedReply>): (Entry, seq<CachedReply>)
    requires Topped(e)
    decreases |replies|
  {
    if replies == [] then (e, history)
    else if ReceiptOutcome(e, e.user, replies[0].header).Cached? then
      ReceiptedTopped(e, replies[0]);
      Committed(Receipted(e, replies[0]), Recorded(history, replies[0]), replies[1..])
    else Committed(e, history, replies[1..])
  }

  ghost predicate Sized(replies: seq<CachedReply>) {
    forall i :: 0 <= i < |replies| ==> |replies[i].bytes| >= REPLY_HEADER_BYTES
  }

  /** The ring is a tail of the history, at least the floor long and at most the ceiling. */
  ghost predicate IsTail(ring: seq<CachedReply>, history: seq<CachedReply>) {
    && 0 < |ring| <= |history| && ring == history[|history| - |ring|..]
    && Min(|history|, REPLY_RING_CAPACITY) <= |ring| <= RING_MAX
  }

  lemma {:induction false} TrimBounded(ring: seq<CachedReply>)
    requires Sized(ring)
    ensures |Trim(ring)| <= RING_MAX
  {
    if Retainable(ring) {
      RingBytesAtLeast(ring);
    } else {
      assert forall i :: 0 <= i < |ring[1..]| ==> ring[1..][i] == ring[i + 1];
      TrimBounded(ring[1..]);
    }
  }

  /** A retained run of replies is a tail of what was pushed, no shorter than the floor. */
  lemma TrimIsTail(ring: seq<CachedReply>)
    requires ring != [] && Sized(ring)
    ensures 0 < |Trim(ring)| <= |ring| && Trim(ring) == ring[|ring| - |Trim(ring)|..]
    ensures Min(|ring|, REPLY_RING_CAPACITY) <= |Trim(ring)| <= RING_MAX
  {
    TrimBounded(ring);
    TrimNonEmpty(ring);
    var dropped := TrimKeepsNewest(ring);
    hide Trim, Retainable, Sized;
  }

  lemma TailOfTail(a: seq<CachedReply>, b: seq<CachedReply>, k: nat, d: nat)
    requires k <= |b| && a == b[k..] && d <= |a|
    ensures a[d..] == b[k + d..]
  {
  }

  lemma PushTail(ring: seq<CachedReply>, history: seq<CachedReply>, reply: CachedReply)
    requires IsTail(ring, history) && Sized(ring + [reply])
    ensures IsTail(Trim(ring + [reply]), history + [reply])
  {
    hide Trim, Sized;
    var pushed, after := ring + [reply], history + [reply];
    var k := |history| - |ring|;
    assert pushed == after[k..];
    TrimIsTail(pushed);
    TailOfTail(pushed, after, k, |pushed| - |Trim(pushed)|);
  }

  lemma ReplaceTail(ring: seq<CachedReply>, history: seq<CachedReply>, reply: CachedReply)
    requires IsTail(ring, history)
    ensures IsTail(ring[..|ring| - 1] + [reply], history[..|history| - 1] + [reply])
  {
    var after := history[..|history| - 1] + [reply];
    assert ring[..|ring| - 1] == history[|history| - |ring|..|history| - 1];
    assert ring[..|ring| - 1] + [reply] == after[|history| - |ring|..];
  }

  lemma ReceiptSized(e: Entry, reply: CachedReply)
    requires Topped(e) && reply.header.request >= e.watermark && Sized(e.ring) && |reply.bytes| >= REPLY_HEADER_BYTES
    ensures Sized(Receipted(e, reply).ring) && Sized(e.ring + [reply])
  {
    var lo, hi := ReceiptedShape(e, reply);
    hide Receipted, Topped;
    var after := Receipted(e, reply).ring;
    assert forall i :: 0 <= i < |after| - 1 ==> after[i] == e.ring[lo + i];
  }

  lemma ReceiptTail(e: Entry, history: seq<CachedReply>, reply: CachedReply)
    requires Topped(e) && reply.header.request >= e.watermark && IsTail(e.ring, history) && Sized(e.ring + [reply])
    ensures IsTail(Receipted(e, reply).ring, Recorded(history, reply))
  {
    assert e.ring[|e.ring| - 1] == history[|history| - 1];
    if reply.header.request == e.watermark {
      assert Caches(e.ring, e.watermark);
      ReplacedAtEnd(e.ring, reply);
      ReplaceTail(e.ring, history, reply);
      hide IsTail;
    } else {
      PushTail(e.ring, history, reply);
      hide IsTail, Trim;
    }
  }

  lemma {:induction false} CommittedTail(e: Entry, history: seq<CachedReply>, replies: seq<CachedReply>)
    requires Topped(e) && IsTail(e.ring, history) && Sized(e.ring) && Sized(replies)
    ensures var r := Committed(e, history, replies);
            Topped(r.0) && IsTail(r.0.ring, r.1) && |r.1| <= |history| + |replies|
    decreases |replies|
  {
    hide Receipted, IsTail, Recorded;
    if replies != [] {
      assert forall i :: 0 <= i < |replies[1..]| ==> replies[1..][i] == replies[i + 1];
      if ReceiptOutcome(e, e.user, replies[0].header).Cached? {
        ReceiptSized(e, replies[0]);
        ReceiptTail(e, history, replies[0]);
        ReceiptedTopped(e, replies[0]);
        RecordedLength(history, replies[0]);
        CommittedTail(Receipted(e, replies[0]), Recorded(history, replies[0]), replies[1..]);
      } else {
        CommittedTail(e, history, replies[1..]);
      }
    }
  }

  lemma RecordedLength(history: seq<CachedReply>, reply: CachedReply)
    ensures |Recorded(history, reply)| <= |history| + 1
  {
  }

  /**
   * From registration on, whatever commits arrive, the ring is never empty, ends with the newest
   * retained reply, keeps at least the five newest (or all) and at most thirty-two.
   */
  lemma RingBound(client: nat, user: nat, verifier: seq<Byte>, register: CachedReply, replies: seq<CachedReply>)
    requires RegisterReplyOk(client, register) && Sized([register]) && Sized(replies)
    ensures var e := Registration(client, user, verifier, register);
            && Topped(e)
            && var r := Committed(e, [register], replies);
            && 0 < |r.0.ring| <= RING_MAX && |r.0.ring| >= Min(|r.1|, REPLY_RING_CAPACITY)
            && |r.0.ring| <= |r.1| && r.0.ring == r.1[|r.1| - |r.0.ring|..]
            && r.0.Latest() == r.1[|r.1| - 1] && r.0.Latest().header.request == r.0.watermark
  {
    hide Committed;
    var e := Registration(client, user, verifier, register);
    assert IsTail(e.ring, [register]);
    CommittedTail(e, [register], replies);
  }

  /** Whatever commits arrive, in whatever order, neither the watermark nor the latest commit ever falls. */
  lemma {:induction false} CommitsNeverRegress(e: Entry, history: seq<CachedReply>, replies: seq<CachedReply>)
    requires Topped(e)
    ensures var r := Committed(e, history, replies).0; r.watermark >= e.watermark && r.latestCommit >= e.latestCommit
    decreases |replies|
  {
    hide Receipted, Recorded;
    if replies != [] {
      if ReceiptOutcome(e, e.user, replies[0].header).Cached? {
        ReceiptedTopped(e, replies[0]);
        CommitsNeverRegress(Receipted(e, replies[0]), Recorded(history, replies[0]), replies[1..]);
      } else {
        CommitsNeverRegress(e, history, replies[1..]);
      }
    }
  }
}
