/**
 * The `DoViewChange` votes a view change collects: prepare headers, the suffix of
 * headers each sender describes, and the array seating one vote per replica.
 *
 * A bitset over suffix slots is the set of its one-bits. A header keeps the fields
 * the merge reads; `operation` 0 is the reserved operation that marks a blank.
 */
module Quorum {
  import opened Common

  const DVC_HEADERS_MAX := 128
  const QUORUM_REPLICATION_MAX := 3
  const CHECKSUM_UNSEALED := 0
  const OPERATION_RESERVED := 0

  datatype PrepareHeader = PrepareHeader(
    op: nat, view: nat, commit: nat, checksum: nat, parent: nat, timestamp: nat, operation: nat)

  /** The placeholder for a slot the sender does not hold. */
  function Blank(op: nat): PrepareHeader {
    PrepareHeader(op, 0, 0, 0, 0, 0, OPERATION_RESERVED)
  }

  predicate IsBlank(header: PrepareHeader) {
    header == Blank(header.op)
  }

  /** Headers run high-to-low; slot `i` is op `head - i` and bit `i` belongs to slot `i`. */
  datatype DvcSuffix = DvcSuffix(headers: seq<PrepareHeader>, nackBits: set<nat>, presentBits: set<nat>)

  datatype StoredDvc = StoredDvc(
    replica: nat, logView: nat, op: nat, commit: nat, suffix: DvcSuffix, untrustedLog: bool)
  {
    /** Slot index for `op`, `None` outside the sender's window. */
    function IndexOf(at: nat): Option<nat> {
      if at <= op && op - at < |suffix.headers| then Some(op - at) else None
    }

    predicate Covers(at: nat) {
      IndexOf(at).Some?
    }

    /** The header the sender holds at an op: none outside the window or on a blank. */
    function Held(at: nat): Option<PrepareHeader> {
      if Covers(at) && !IsBlank(suffix.headers[op - at]) then Some(suffix.headers[op - at]) else None
    }

    predicate Nacks(at: nat) {
      Covers(at) && op - at in suffix.nackBits
    }

    predicate OffersBody(at: nat) {
      Covers(at) && op - at in suffix.presentBits
    }

    /** The log-less vote a recovering replica casts. */
    predicate IsEmptyVote() {
      untrustedLog && logView == 0 && op == 0 && commit == 0 && suffix.headers == []
    }

    /** Every slot carries the op its position stands for. */
    predicate WellFormed() {
      forall i :: 0 <= i < |suffix.headers| ==> suffix.headers[i].op + i == op
    }
  }

  type Votes = seq<Option<StoredDvc>>

  /** Slot `r` holds the vote of replica `r`, decoded from a consecutive suffix. */
  ghost predicate Seated(q: Votes) {
    forall r :: 0 <= r < |q| && q[r].Some? ==> q[r].value.replica == r && q[r].value.WellFormed()
  }

  ghost function Reported(q: Votes): set<nat> {
    set r: nat | r < |q| && q[r].Some?
  }

  /** The votes whose senders trust their logs, in the same seats. */
  function TrustedOnly(q: Votes): Votes {
    seq(|q|, r requires 0 <= r < |q| => if q[r].Some? && !q[r].value.untrustedLog then q[r] else None)
  }

  /** Seats a vote; only an empty vote is ever replaced, and only by a real one. */
  method Record(votes: array<Option<StoredDvc>>, dvc: StoredDvc) returns (recorded: bool)
    requires dvc.replica < votes.Length
    modifies votes
    ensures recorded == (old(votes[dvc.replica]).None?
                         || (old(votes[dvc.replica]).value.IsEmptyVote() && !dvc.IsEmptyVote()))
    ensures recorded && old(votes[dvc.replica]).Some? ==>
      var lost := old(votes[dvc.replica]).value;
      && lost == StoredDvc(lost.replica, 0, 0, 0, lost.suffix, true) && lost.suffix.headers == []
      && (dvc.logView > 0 || dvc.op > 0 || dvc.commit > 0 || dvc.suffix.headers != [] || !dvc.untrustedLog)
    ensures votes[..] == if recorded then old(votes[..])[dvc.replica := Some(dvc)] else old(votes[..])
  {
    var seated := votes[dvc.replica];
    if seated.Some? && (!seated.value.IsEmptyVote() || dvc.IsEmptyVote()) {
      return false;
    }
    votes[dvc.replica] := Some(dvc);
    return true;
  }

  // ----- Quorum sizes -----

  function QuorumReplication(replicaCount: nat): nat {
    if replicaCount == 2 then 2 else Min((replicaCount + 1) / 2, QUORUM_REPLICATION_MAX)
  }

  function QuorumViewChange(replicaCount: nat): int {
    if replicaCount == 2 then 2 else replicaCount - QuorumReplication(replicaCount) + 1
  }

  function QuorumNackPrepare(replicaCount: nat): int {
    replicaCount - QuorumReplication(replicaCount) + 1
  }

  /**
   * Both proofs a view change relies on: a committed op is seen, and a nacked op never committed.
   * Replication takes the least half of the replicas, three at most and both of two, and the other
   * quorums no more than that leaves them.
   */
  lemma QuorumsOverlap(n: nat)
    requires 0 < n
    ensures QuorumNackPrepare(n) + QuorumReplication(n) == n + 1
    ensures QuorumViewChange(n) + QuorumReplication(n) > n
    ensures 1 <= QuorumReplication(n) <= n && 1 <= QuorumViewChange(n) <= n && 1 <= QuorumNackPrepare(n) <= n
    ensures n == 2 ==> QuorumReplication(n) == 2 && QuorumViewChange(n) == 2
    ensures n != 2 ==>
      && (2 * QuorumReplication(n) >= n || QuorumReplication(n) == 3) && 2 * (QuorumReplication(n) - 1) < n && QuorumReplication(n) <= 3
      && QuorumViewChange(n) + QuorumReplication(n) == n + 1
  {
  }

  // ----- Reading a suffix off the wire -----

  const PREPARE_HEADER_BYTES := 256

  /** Casts and validates one header's bytes. */
  type ParseHeader = seq<Byte> -> Option<PrepareHeader>

  datatype SuffixError =
    | NotHeaderMultiple(bodyLen: nat)
    | TooManyEntries(count: nat)
    | BitsetBeyondSuffix(count: nat)
    | MalformedHeader(index: nat)
    | OpOutOfOrder(index: nat, expected: nat, found: nat)
    | ChecksumMismatch(index: nat)
    | TimestampNotDecreasing(index: nat)
    | ChainBreak(index: nat)

  datatype SuffixResult = Decoded(suffix: DvcSuffix) | Rejected(error: SuffixError)

  function ChunkAt(body: seq<Byte>, i: nat): seq<Byte>
    requires PREPARE_HEADER_BYTES * (i + 1) <= |body|
  {
    body[PREPARE_HEADER_BYTES * i..PREPARE_HEADER_BYTES * (i + 1)]
  }

  /** The first `n` headers; a blank stands where a chunk does not parse. */
  function HeadersOf(body: seq<Byte>, parse: ParseHeader, n: nat): (headers: seq<PrepareHeader>)
    requires PREPARE_HEADER_BYTES * n <= |body|
    ensures |headers| == n
    ensures forall i :: 0 <= i < n ==>
      headers[i] == if parse(ChunkAt(body, i)).Some? then parse(ChunkAt(body, i)).value else Blank(0)
  {
    if n == 0 then []
    else
      var header := parse(ChunkAt(body, n - 1));
      HeadersOf(body, parse, n - 1) + [if header.Some? then header.value else Blank(0)]
  }

  // What a slot's header must satisfy, in the order the decoder asks.

  predicate InOrder(header: PrepareHeader, i: nat, headOp: nat) {
    header.op + i == headOp
  }

  predicate Identified(header: PrepareHeader, identity: PrepareHeader -> nat) {
    IsBlank(header) || header.checksum == CHECKSUM_UNSEALED || identity(header) == header.checksum
  }

  predicate Earlier(header: PrepareHeader, child: Option<PrepareHeader>) {
    IsBlank(header) || child.None? || header.timestamp < child.value.timestamp
  }

  predicate Chained(header: PrepareHeader, child: Option<PrepareHeader>) {
    || IsBlank(header) || child.None? || header.op + 1 != child.value.op
    || header.checksum == CHECKSUM_UNSEALED || child.value.parent == header.checksum
  }

  predicate SlotOk(header: PrepareHeader, i: nat, headOp: nat, child: Option<PrepareHeader>, identity: PrepareHeader -> nat) {
    InOrder(header, i, headOp) && Identified(header, identity) && Earlier(header, child) && Chained(header, child)
  }

  /** The nearest non-blank header above slot `i`. */
  function ChildAbove(headers: seq<PrepareHeader>, i: nat): (child: Option<PrepareHeader>)
    requires i <= |headers|
  {
    if i == 0 then None
    else if !IsBlank(headers[i - 1]) then Some(headers[i - 1])
    else ChildAbove(headers, i - 1)
  }

  /** Only the headers above a slot matter to it. */
  lemma {:induction false} ChildAbovePrefix(headers: seq<PrepareHeader>, more: seq<PrepareHeader>, i: nat)
    requires i <= |headers| <= |more| && headers == more[..|headers|]
    ensures ChildAbove(headers, i) == ChildAbove(more, i)
  {
    if i > 0 {
      assert headers[i - 1] == more[i - 1];
      ChildAbovePrefix(headers, more, i - 1);
    }
  }

  /** Chunk `i` parses and continues the chain above it. */
  ghost predicate ReadsAt(body: seq<Byte>, i: nat, headOp: nat, identity: PrepareHeader -> nat, parse: ParseHeader)
    requires PREPARE_HEADER_BYTES * (i + 1) <= |body|
  {
    && parse(ChunkAt(body, i)).Some?
    && SlotOk(parse(ChunkAt(body, i)).value, i, headOp, ChildAbove(HeadersOf(body, parse, i), i), identity)
  }

  /** The first `n` chunks read from the head down. */
  ghost predicate ReadsDown(body: seq<Byte>, n: nat, headOp: nat, identity: PrepareHeader -> nat, parse: ParseHeader) {
    PREPARE_HEADER_BYTES * n <= |body| && forall i: nat :: i < n ==> ReadsAt(body, i, headOp, identity, parse)
  }

  ghost predicate BodyOk(body: seq<Byte>, headOp: nat, nackBits: set<nat>, presentBits: set<nat>,
                         identity: PrepareHeader -> nat, parse: ParseHeader)
  {
    var count := |body| / PREPARE_HEADER_BYTES;
    && |body| % PREPARE_HEADER_BYTES == 0 && count <= DVC_HEADERS_MAX
    && (forall b :: b in nackBits + presentBits ==> b < count)
    && ReadsDown(body, count, headOp, identity, parse)
  }

  /** The error names the first thing wrong: everything the decoder asks before it holds. */
  ghost predicate Explains(error: SuffixError, body: seq<Byte>, headOp: nat, nackBits: set<nat>, presentBits: set<nat>,
                           identity: PrepareHeader -> nat, parse: ParseHeader)
  {
    var count := |body| / PREPARE_HEADER_BYTES;
    match error
    case NotHeaderMultiple(len) => len == |body| && |body| % PREPARE_HEADER_BYTES != 0
    case TooManyEntries(n) => n == count > DVC_HEADERS_MAX
    case BitsetBeyondSuffix(n) => n == count && exists b :: b in nackBits + presentBits && b >= count
    case MalformedHeader(i) => i < count && ReadsDown(body, i, headOp, identity, parse) && parse(ChunkAt(body, i)).None?
    case OpOutOfOrder(i, expected, found) =>
      && i < count && ReadsDown(body, i, headOp, identity, parse) && parse(ChunkAt(body, i)).Some?
      && var h := parse(ChunkAt(body, i)).value;
      !InOrder(h, i, headOp) && found == h.op && expected == SaturatingSub(headOp, i)
    case _ =>
      var i := error.index;
      && i < count && ReadsDown(body, i, headOp, identity, parse) && parse(ChunkAt(body, i)).Some?
      && var h, child := parse(ChunkAt(body, i)).value, ChildAbove(HeadersOf(body, parse, i), i);
      && InOrder(h, i, headOp)
      && (error.ChecksumMismatch? <==> !Identified(h, identity))
      && (error.TimestampNotDecreasing? ==> !Earlier(h, child))
      && (error.ChainBreak? ==> Earlier(h, child) && !Chained(h, child))
  }

  /**
   * Reads a suffix off the wire. Accepts exactly the bodies in which every slot carries its own op,
   * is its own identity, and continues the chain above; otherwise names the first thing wrong.
   */
  method DecodeSuffix(body: seq<Byte>, headOp: nat, nackBits: set<nat>, presentBits: set<nat>,
                      identity: PrepareHeader -> nat, parse: ParseHeader)
    returns (result: SuffixResult)
    requires forall b :: b in nackBits + presentBits ==> b < DVC_HEADERS_MAX
    ensures result.Decoded? <==> BodyOk(body, headOp, nackBits, presentBits, identity, parse)
    ensures result.Decoded? ==>
      result.suffix == DvcSuffix(HeadersOf(body, parse, |body| / PREPARE_HEADER_BYTES), nackBits, presentBits)
    ensures result.Rejected? ==> Explains(result.error, body, headOp, nackBits, presentBits, identity, parse)
  {
    hide ReadsDown, HeadersOf;
    if |body| % PREPARE_HEADER_BYTES != 0 {
      return Rejected(NotHeaderMultiple(|body|));
    }
    var count := |body| / PREPARE_HEADER_BYTES;
    if count > DVC_HEADERS_MAX {
      return Rejected(TooManyEntries(count));
    }
    if count < DVC_HEADERS_MAX && exists b :: b in nackBits + presentBits && b >= count {
      return Rejected(BitsetBeyondSuffix(count));
    }
    var headers, error := CheckSlots(body, count, headOp, nackBits, presentBits, identity, parse);
    if error.Some? {
      return Rejected(error.value);
    }
    return Decoded(DvcSuffix(headers, nackBits, presentBits));
  }

  method CheckSlots(body: seq<Byte>, count: nat, headOp: nat, ghost nackBits: set<nat>, ghost presentBits: set<nat>,
                    identity: PrepareHeader -> nat, parse: ParseHeader)
    returns (headers: seq<PrepareHeader>, error: Option<SuffixError>)
    requires count == |body| / PREPARE_HEADER_BYTES && |body| % PREPARE_HEADER_BYTES == 0
    ensures error.None? <==> ReadsDown(body, count, headOp, identity, parse)
    ensures error.None? ==> headers == HeadersOf(body, parse, count)
    ensures error.Some? ==> Explains(error.value, body, headOp, nackBits, presentBits, identity, parse)
  {
    hide SlotOk, InOrder, Identified, Earlier, Chained, ReadsDown, HeadersOf;
    headers := [];
    var child: Option<PrepareHeader> := None;
    NothingRead(body, headOp, identity, parse);
    for index := 0 to count
      invariant headers == HeadersOf(body, parse, index) && child == ChildAbove(headers, index)
      invariant ReadsDown(body, index, headOp, identity, parse)
    {
      var header := parse(body[PREPARE_HEADER_BYTES * index..PREPARE_HEADER_BYTES * (index + 1)]);
      ReadsNext(body, index, count, headOp, identity, parse);
      if header.None? {
        return headers, Some(MalformedHeader(index));
      }
      HeadersNext(body, index, parse);
      error := CheckSlot(header.value, index, headOp, child, identity);
      if error.Some? {
        return;
      }
      headers := headers + [header.value];
      if !IsBlank(header.value) {
        child := Some(header.value);
      }
    }
    error := None;
  }

  lemma NothingRead(body: seq<Byte>, headOp: nat, identity: PrepareHeader -> nat, parse: ParseHeader)
    ensures ReadsDown(body, 0, headOp, identity, parse) && HeadersOf(body, parse, 0) == []
  {
  }

  /** One more chunk reads down exactly when it reads; one that does not spoils every longer run. */
  lemma ReadsNext(body: seq<Byte>, i: nat, count: nat, headOp: nat, identity: PrepareHeader -> nat, parse: ParseHeader)
    requires i < count && PREPARE_HEADER_BYTES * count <= |body| && ReadsDown(body, i, headOp, identity, parse)
    ensures ReadsAt(body, i, headOp, identity, parse) ==> ReadsDown(body, i + 1, headOp, identity, parse)
    ensures !ReadsAt(body, i, headOp, identity, parse) ==> !ReadsDown(body, count, headOp, identity, parse)
  {
    hide ReadsAt;
  }

  lemma HeadersNext(body: seq<Byte>, i: nat, parse: ParseHeader)
    requires PREPARE_HEADER_BYTES * (i + 1) <= |body| && parse(ChunkAt(body, i)).Some?
    ensures var header, above := parse(ChunkAt(body, i)).value, HeadersOf(body, parse, i);
            && HeadersOf(body, parse, i + 1) == above + [header]
            && ChildAbove(above + [header], i + 1) == if IsBlank(header) then ChildAbove(above, i) else Some(header)
  {
    var above := HeadersOf(body, parse, i);
    ChildAbovePrefix(above, above + [parse(ChunkAt(body, i)).value], i);
  }

  /** The first thing wrong with a slot. */
  method CheckSlot(header: PrepareHeader, index: nat, headOp: nat, child: Option<PrepareHeader>, identity: PrepareHeader -> nat)
    returns (error: Option<SuffixError>)
    ensures error.None? <==> SlotOk(header, index, headOp, child, identity)
    ensures error.Some? ==>
      match error.value
      case OpOutOfOrder(i, expected, found) =>
        i == index && !InOrder(header, index, headOp) && found == header.op && expected == SaturatingSub(headOp, index)
      case ChecksumMismatch(i) => i == index && InOrder(header, index, headOp) && !Identified(header, identity)
      case TimestampNotDecreasing(i) =>
        i == index && InOrder(header, index, headOp) && Identified(header, identity) && !Earlier(header, child)
      case ChainBreak(i) =>
        i == index && InOrder(header, index, headOp) && Identified(header, identity) && Earlier(header, child) && !Chained(header, child)
      case _ => false
  {
    if headOp < index {
      return Some(OpOutOfOrder(index, 0, header.op));
    }
    if header.op != headOp - index {
      return Some(OpOutOfOrder(index, headOp - index, header.op));
    }
    if !IsBlank(header) {
      if header.checksum != CHECKSUM_UNSEALED && identity(header) != header.checksum {
        return Some(ChecksumMismatch(index));
      }
      if child.Some? {
        if header.timestamp >= child.value.timestamp {
          return Some(TimestampNotDecreasing(index));
        }
        if header.op + 1 == child.value.op && header.checksum != CHECKSUM_UNSEALED
           && child.value.parent != header.checksum {
          return Some(ChainBreak(index));
        }
      }
    }
    return None;
  }

  /** What a decoded body describes is what the merge indexes by: slot `i` is op `head - i`. */
  lemma DecodedIsWellFormed(dvc: StoredDvc, body: seq<Byte>, identity: PrepareHeader -> nat, parse: ParseHeader)
    requires BodyOk(body, dvc.op, dvc.suffix.nackBits, dvc.suffix.presentBits, identity, parse)
    requires dvc.suffix.headers == HeadersOf(body, parse, |body| / PREPARE_HEADER_BYTES)
    ensures dvc.WellFormed()
  {
    hide HeadersOf;
    forall i: nat | i < |dvc.suffix.headers| ensures dvc.suffix.headers[i].op + i == dvc.op {
      assert ReadsAt(body, i, dvc.op, identity, parse);
    }
  }
}
