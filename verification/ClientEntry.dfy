/**
 * One registered client: its immutable epoch and principal, the watermark of committed
 * requests, and the ring of cached replies that answers retries.
 */
module ClientEntry {
  import opened Common

  const REGISTER_REQUEST_ID := 0
  const RESERVED_CLIENT_ID := 0
  const EXPIRED_SESSION_REQUEST_ID := 0xFFFF_FFFF_FFFF_FFFF
  const CLIENTS_TABLE_SLOT_MAX := 0x1_0000
  const REPLY_RING_CAPACITY := 5
  const REPLY_RING_RETENTION_BYTES := 8 * 1024
  const REPLY_HEADER_BYTES := 256

  datatype Operation =
    | Register | Logout | UpdateUserResolved | DeleteUser
    | SendMessages | StoreConsumerOffset | DeleteConsumerOffset
    | CreateTopic | CreateTopicWithAssignments
    | CreatePartitions | CreatePartitionsWithAssignments
    | UpdateResource | UpdateStreamResolved | UpdateTopicResolved
    | DeleteSegments | TruncatePartition
    | OtherOperation(code: nat)
  {
    /** The client-facing operation a resolved one answers. */
    function RequestOperation(): Operation {
      match this
      case CreateTopicWithAssignments => CreateTopic
      case CreatePartitionsWithAssignments => CreatePartitions
      case UpdateStreamResolved => UpdateResource
      case UpdateTopicResolved => UpdateResource
      case UpdateUserResolved => UpdateResource
      case TruncatePartition => DeleteSegments
      case _ => this
    }

    /** The operations whose commit ends a session. */
    predicate EndsSession() {
      Logout? || UpdateUserResolved? || DeleteUser?
    }

    predicate IsPartitionReceipt() {
      SendMessages? || StoreConsumerOffset? || DeleteConsumerOffset?
    }
  }

  datatype ReplyHeader = ReplyHeader(client: nat, request: nat, commit: nat, operation: Operation, size: nat)

  /** A committed reply: its wire bytes and the header they carry. */
  datatype CachedReply = CachedReply(header: ReplyHeader, bytes: seq<Byte>)

  datatype Entry = Entry(
    verifier: seq<Byte>, endedOp: Option<nat>, epoch: nat, attachment: Option<nat>, user: nat,
    watermark: nat, window: nat, ring: seq<CachedReply>, client: nat, latestCommit: nat)
  {
    function Latest(): CachedReply
      requires ring != []
    {
      ring[|ring| - 1]
    }
  }

  // ----- Lookup -----

  predicate Caches(ring: seq<CachedReply>, request: nat) {
    exists i :: 0 <= i < |ring| && ring[i].header.request == request
  }

  /** The first cached reply for a request. */
  function FindCached(ring: seq<CachedReply>, request: nat): (found: Option<CachedReply>)
    ensures found.Some? <==> Caches(ring, request)
    ensures found.Some? ==> found.value in ring && found.value.header.request == request
  {
    if ring == [] then None
    else if ring[0].header.request == request then Some(ring[0])
    else
      assert forall i :: 0 < i < |ring| ==> ring[i] == ring[1..][i - 1];
      FindCached(ring[1..], request)
  }

  /** Requests and commits strictly increase along the ring. */
  ghost predicate Ordered(ring: seq<CachedReply>) {
    forall i, j :: 0 <= i < j < |ring| ==>
      ring[i].header.request < ring[j].header.request && ring[i].header.commit < ring[j].header.commit
  }

  /** In an ordered ring a request has one reply, wherever the search starts. */
  lemma {:induction false} FindCachedIs(ring: seq<CachedReply>, i: nat)
    requires Ordered(ring) && i < |ring|
    ensures FindCached(ring, ring[i].header.request) == Some(ring[i])
  {
    if i > 0 {
      assert ring[0].header.request < ring[i].header.request;
      assert ring[i] == ring[1..][i - 1];
      FindCachedIs(ring[1..], i - 1);
    }
  }

  // ----- Retention -----

  function RingBytes(ring: seq<CachedReply>): nat {
    if ring == [] then 0 else |ring[0].bytes| + RingBytes(ring[1..])
  }

  /** The ring is within budget, or no longer than the unconditional floor. */
  predicate Retainable(ring: seq<CachedReply>) {
    |ring| <= REPLY_RING_CAPACITY || RingBytes(ring) <= REPLY_RING_RETENTION_BYTES
  }

  /** The longest retainable run of newest replies. */
  function Trim(ring: seq<CachedReply>): (kept: seq<CachedReply>) {
    if Retainable(ring) then ring else Trim(ring[1..])
  }

  method TrimRing(ring: seq<CachedReply>) returns (kept: seq<CachedReply>)
    ensures kept == Trim(ring)
  {
    kept := ring;
    var bytes := 0;
    for i := 0 to |ring|
      invariant bytes + RingBytes(ring[i..]) == RingBytes(ring)
    {
      assert ring[i..][0] == ring[i] && ring[i..][1..] == ring[i + 1..];
      bytes := bytes + |ring[i].bytes|;
    }
    assert ring[|ring|..] == [];
    while |kept| > REPLY_RING_CAPACITY && bytes > REPLY_RING_RETENTION_BYTES
      invariant bytes == RingBytes(kept)
      invariant Trim(kept) == Trim(ring)
    {
      var dropped := kept[0];
      kept := kept[1..];
      bytes := bytes - |dropped.bytes|;
    }
  }

  /** Trimming drops oldest first, keeps the floor, and drops nothing the budget would have kept. */
  lemma {:induction false} TrimKeepsNewest(ring: seq<CachedReply>) returns (dropped: nat)
    ensures dropped <= |ring| && Trim(ring) == ring[dropped..]
    ensures Retainable(Trim(ring)) && |Trim(ring)| >= Min(|ring|, REPLY_RING_CAPACITY)
    ensures forall d :: 0 <= d < dropped ==> !Retainable(ring[d..])
  {
    if Retainable(ring) {
      dropped := 0;
      assert ring[0..] == ring;
    } else {
      var rest := TrimKeepsNewest(ring[1..]);
      dropped := rest + 1;
      assert ring[1..][rest..] == ring[dropped..];
      forall d | 0 <= d < dropped ensures !Retainable(ring[d..]) {
        if d == 0 {
          assert ring[0..] == ring;
        } else {
          assert ring[d..] == ring[1..][d - 1..];
        }
      }
    }
  }

  lemma {:induction false} RingBytesAtLeast(ring: seq<CachedReply>)
    requires forall i :: 0 <= i < |ring| ==> |ring[i].bytes| >= REPLY_HEADER_BYTES
    ensures RingBytes(ring) >= |ring| * REPLY_HEADER_BYTES
  {
    if ring != [] {
      assert forall i :: 0 <= i < |ring[1..]| ==> ring[1..][i] == ring[i + 1];
      RingBytesAtLeast(ring[1..]);
    }
  }

  // ----- Protection -----

  /** What every receipt in the ring must say. */
  predicate ReceiptOk(e: Entry, h: ReplyHeader) {
    && h.client == e.client && e.epoch <= h.commit && h.request <= e.watermark
    && (h.request == REGISTER_REQUEST_ID ==> h.operation.Register? && h.commit == e.epoch)
    && (h.request != REGISTER_REQUEST_ID ==> !h.operation.Register?)
  }

  /** The facts both recovery decoders insist on. */
  ghost predicate ValidProtection(e: Entry) {
    && e.client != 0 && e.epoch != 0 && e.epoch <= e.latestCommit
    && e.ring != []
    && e.Latest().header.request == e.watermark && e.Latest().header.commit == e.latestCommit
    && (e.endedOp.Some? ==>
          || e.latestCommit < e.endedOp.value
          || (e.latestCommit == e.endedOp.value && e.Latest().header.operation.EndsSession()))
    && (forall i :: 0 <= i < |e.ring| ==> ReceiptOk(e, e.ring[i].header))
    && Ordered(e.ring)
  }

  method ValidMetadataProtection(e: Entry) returns (valid: bool)
    ensures valid <==> ValidProtection(e)
  {
    if e.client == 0 || e.epoch == 0 || e.latestCommit < e.epoch {
      return false;
    }
    if e.ring == [] {
      return false;
    }
    var header := e.Latest().header;
    if header.request != e.watermark || header.commit != e.latestCommit
       || (e.endedOp.Some? && (e.endedOp.value < e.latestCommit
                               || (e.endedOp.value == e.latestCommit && !header.operation.EndsSession()))) {
      return false;
    }
    valid := ValidRing(e);
  }

  method ValidRing(e: Entry) returns (valid: bool)
    ensures valid <==> (forall i :: 0 <= i < |e.ring| ==> ReceiptOk(e, e.ring[i].header)) && Ordered(e.ring)
  {
    var previous: Option<(nat, nat)> := None;
    for i := 0 to |e.ring|
      invariant previous == if i == 0 then None else Some((e.ring[i - 1].header.request, e.ring[i - 1].header.commit))
      invariant forall j :: 0 <= j < i ==> ReceiptOk(e, e.ring[j].header)
      invariant Ordered(e.ring[..i])
    {
      var h := e.ring[i].header;
      assert e.ring[..i + 1] == e.ring[..i] + [e.ring[i]];
      if !ReceiptOk(e, h) {
        return false;
      }
      if previous.Some? && (h.request <= previous.value.0 || h.commit <= previous.value.1) {
        assert e.ring[i - 1].header.request == previous.value.0;
        return false;
      }
      previous := Some((h.request, h.commit));
    }
    assert e.ring[..|e.ring|] == e.ring;
    return true;
  }
}
