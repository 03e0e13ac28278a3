/**
 * The message batch format: a 256-byte header and a blob of message frames, walked frame by
 * frame, checked for layout or for integrity, and read back record by record from a stream.
 */
module Batch {
  import opened Common
  import opened LeBytes

  const BATCH_HEADER_SIZE := 256
  const BATCH_MESSAGE_HEADER_SIZE := 48

  datatype BatchHeader = BatchHeader(
    partitionId: nat, baseOffset: nat, baseTimestamp: nat, originTimestamp: nat,
    batchLength: nat, batchChecksum: nat, messageCount: nat)
  {
    predicate Fits() {
      && partitionId < U64 && baseOffset < U64 && baseTimestamp < U64 && originTimestamp < U64
      && batchLength < U64 && batchChecksum < U64 && messageCount < 0x1_0000_0000
    }
  }

  const U64 := 0x1_0000_0000_0000_0000

  datatype FrameHeader = FrameHeader(
    checksum: nat, id: nat, offsetDelta: nat, timestampDelta: nat, userHeadersLength: nat, payloadLength: nat)
  {
    function TotalSize(): nat {
      BATCH_MESSAGE_HEADER_SIZE + userHeadersLength + payloadLength
    }
  }

  /** A frame and its byte range inside the blob. */
  datatype Frame = Frame(header: FrameHeader, payload: seq<Byte>, userHeaders: seq<Byte>, start: nat, end: nat)

  datatype BatchRef = BatchRef(header: BatchHeader, blob: seq<Byte>)

  datatype Integrity = Verify | LayoutOnly

  datatype WireError =
    | UnexpectedEof(need: nat, have: nat)
    | BadBatchLength
    | ReservedNotZero
    | FramesDoNotTile
    | InvalidBatchChecksum(stored: nat, computed: nat, baseOffset: nat)
    | InvalidMessageChecksum(stored: nat, computed: nat, offset: nat)

  // ----- Headers -----

  /** The six checksummed header fields, in the order they are hashed. */
  function MetaBytes(h: BatchHeader): seq<Byte> {
    Le(h.partitionId, 8) + Le(h.baseOffset, 8) + Le(h.baseTimestamp, 8) + Le(h.originTimestamp, 8)
    + Le(h.batchLength, 8) + Le(h.messageCount, 4)
  }

  function HeaderBytes(h: BatchHeader): (bytes: seq<Byte>)
    ensures |bytes| == BATCH_HEADER_SIZE
  {
    Le(h.partitionId, 8) + (Le(h.baseOffset, 8) + (Le(h.baseTimestamp, 8) + (Le(h.originTimestamp, 8)
    + (Le(h.batchLength, 8) + (Le(h.batchChecksum, 8) + (Le(h.messageCount, 4) + Zeros(204)))))))
  }

  function DecodeHeader(bytes: seq<Byte>): Result<BatchHeader, WireError> {
    if |bytes| < BATCH_HEADER_SIZE then Err(UnexpectedEof(BATCH_HEADER_SIZE, |bytes|))
    else
      var batchLength := FromLe(bytes[32..40]);
      if batchLength < BATCH_HEADER_SIZE then Err(BadBatchLength)
      else if !AllZero(bytes[52..256]) then Err(ReservedNotZero)
      else Ok(BatchHeader(FromLe(bytes[0..8]), FromLe(bytes[8..16]), FromLe(bytes[16..24]), FromLe(bytes[24..32]),
                          batchLength, FromLe(bytes[40..48]), FromLe(bytes[48..52])))
  }

  function DecodeFrameHeader(bytes: seq<Byte>): Result<FrameHeader, WireError> {
    if |bytes| < BATCH_MESSAGE_HEADER_SIZE then Err(UnexpectedEof(BATCH_MESSAGE_HEADER_SIZE, |bytes|))
    else if FromLe(bytes[40..48]) != 0 then Err(ReservedNotZero)
    else Ok(FrameHeader(FromLe(bytes[0..8]), FromLe(bytes[8..24]), FromLe(bytes[24..28]), FromLe(bytes[28..32]),
                        FromLe(bytes[32..36]), FromLe(bytes[36..40])))
  }

  // ----- Frames -----

  /** The frame at a position; `None` past the end and at the first malformed frame. */
  function FrameAt(blob: seq<Byte>, position: nat): (f: Option<Frame>)
    ensures f.Some? ==>
      && f.value.start == position && f.value.end == position + f.value.header.TotalSize() <= |blob|
      && f.value.payload + f.value.userHeaders == blob[position + BATCH_MESSAGE_HEADER_SIZE..f.value.end]
  {
    if position >= |blob| then None
    else
      match DecodeFrameHeader(blob[position..])
      case Err(_) => None
      case Ok(h) =>
        var start := position + BATCH_MESSAGE_HEADER_SIZE;
        var payloadEnd := start + h.payloadLength;
        var headersEnd := payloadEnd + h.userHeadersLength;
        if headersEnd > |blob| then None
        else Some(Frame(h, blob[start..payloadEnd], blob[payloadEnd..headersEnd], position, position + h.TotalSize()))
  }

  /** Every frame from a position on, until the walk stops. */
  function FramesFrom(blob: seq<Byte>, position: nat): seq<Frame>
    decreases |blob| - position
  {
    var f := FrameAt(blob, position);
    if f.None? then [] else [f.value] + FramesFrom(blob, f.value.end)
  }

  /** Where the walk stops. */
  function CoveredFrom(blob: seq<Byte>, position: nat): (end: nat)
    ensures position <= end && (position <= |blob| ==> end <= |blob|)
    decreases |blob| - position
  {
    var f := FrameAt(blob, position);
    if f.None? then position else CoveredFrom(blob, f.value.end)
  }

  class BatchIterator {
    const blob: seq<Byte>
    var position: nat

    constructor (blob: seq<Byte>)
      ensures this.blob == blob && position == 0
    {
      this.blob := blob;
      position := 0;
    }

    /** The next frame; the walk stays put once it has none. */
    method Next() returns (f: Option<Frame>)
      modifies this
      ensures f == FrameAt(blob, old(position))
      ensures position == if f.Some? then f.value.end else old(position)
    {
      if position >= |blob| {
        return None;
      }
      var header := DecodeFrameHeader(blob[position..]);
      if header.Err? {
        return None;
      }
      var h := header.value;
      var start := position + BATCH_MESSAGE_HEADER_SIZE;
      var payloadEnd := start + h.payloadLength;
      var headersEnd := payloadEnd + h.userHeadersLength;
      if headersEnd > |blob| {
        return None;
      }
      f := Some(Frame(h, blob[start..payloadEnd], blob[payloadEnd..headersEnd], position, position + h.TotalSize()));
      position := position + h.TotalSize();
    }
  }

  // ----- Checksums -----

  /** The stored checksum fields of a run of frames, in message order. */
  function ChecksumFields(blob: seq<Byte>, position: nat): seq<Byte>
    decreases |blob| - position
  {
    var f := FrameAt(blob, position);
    if f.None? then [] else blob[position..position + 8] + ChecksumFields(blob, f.value.end)
  }

  function BatchChecksum(h: BatchHeader, blob: seq<Byte>, hash: Hash): nat {
    hash(MetaBytes(h) + ChecksumFields(blob, 0))
  }

  /** The frame's stored checksum is the hash of the rest of the frame. */
  predicate FrameIntact(blob: seq<Byte>, f: Frame, hash: Hash)
    requires f.start + 8 <= f.end <= |blob|
  {
    hash(blob[f.start + 8..f.end]) == f.header.checksum
  }

  function SaturatingAdd(a: nat, b: nat): nat {
    Min(a + b, U64 - 1)
  }

  /** The first frame from a position on that fails its checksum. */
  function FirstCorrupt(h: BatchHeader, blob: seq<Byte>, position: nat, hash: Hash): Option<WireError>
    decreases |blob| - position
  {
    var f := FrameAt(blob, position);
    if f.None? then None
    else if !FrameIntact(blob, f.value, hash) then
      Some(InvalidMessageChecksum(f.value.header.checksum, hash(blob[f.value.start + 8..f.value.end]),
                                  SaturatingAdd(h.baseOffset, f.value.header.offsetDelta)))
    else FirstCorrupt(h, blob, f.value.end, hash)
  }

  /** The frames are as many as declared and cover the blob. */
  predicate Tiles(b: BatchRef) {
    |FramesFrom(b.blob, 0)| == b.header.messageCount && CoveredFrom(b.blob, 0) == |b.blob|
  }

  function Recomputed(b: BatchRef, hash: Hash): Result<nat, WireError> {
    match FirstCorrupt(b.header, b.blob, 0, hash)
    case Some(e) => Err(e)
    case None => if Tiles(b) then Ok(BatchChecksum(b.header, b.blob, hash)) else Err(FramesDoNotTile)
  }

  function DecodeBatch(body: seq<Byte>, integrity: Integrity, hash: Hash): Result<BatchRef, WireError> {
    match DecodeHeader(body)
    case Err(e) => Err(e)
    case Ok(h) =>
      if h.batchLength < BATCH_HEADER_SIZE then Err(BadBatchLength)
      else if |body| < h.batchLength then Err(UnexpectedEof(h.batchLength, |body|))
      else
        var batch := BatchRef(h, body[BATCH_HEADER_SIZE..h.batchLength]);
        match integrity
        case LayoutOnly => if Tiles(batch) then Ok(batch) else Err(FramesDoNotTile)
        case Verify =>
          match Recomputed(batch, hash)
          case Err(e) => Err(e)
          case Ok(computed) =>
            if h.batchChecksum != computed then Err(InvalidBatchChecksum(h.batchChecksum, computed, h.baseOffset)) else Ok(batch)
  }

  // ----- What acceptance means -----

  /** The bytes of a run of frames, one after another. */
  function Concatenated(blob: seq<Byte>, frames: seq<Frame>): seq<Byte>
    requires forall i :: 0 <= i < |frames| ==> frames[i].start <= frames[i].end <= |blob|
  {
    if frames == [] then [] else blob[frames[0].start..frames[0].end] + Concatenated(blob, frames[1..])
  }

  lemma {:induction false} WalkCovers(blob: seq<Byte>, position: nat)
    requires position <= |blob|
    ensures var frames := FramesFrom(blob, position);
            && (forall i :: 0 <= i < |frames| ==> position <= frames[i].start < frames[i].end <= |blob|)
            && (forall i :: 0 <= i < |frames| ==> FrameAt(blob, frames[i].start) == Some(frames[i]))
            && Concatenated(blob, frames) == blob[position..CoveredFrom(blob, position)]
    decreases |blob| - position
  {
    hide FrameAt;
    var f := FrameAt(blob, position);
    if f.Some? {
      WalkCovers(blob, f.value.end);
      var end := CoveredFrom(blob, position);
      assert FramesFrom(blob, position)[1..] == FramesFrom(blob, f.value.end);
      assert blob[position..f.value.end] + blob[f.value.end..end] == blob[position..end];
    }
  }

  lemma {:induction false} NoCorruptFrames(h: BatchHeader, blob: seq<Byte>, position: nat, hash: Hash)
    requires position <= |blob|
    ensures var frames := FramesFrom(blob, position);
            FirstCorrupt(h, blob, position, hash).None? <==>
              forall i :: 0 <= i < |frames| ==> frames[i].start + 8 <= frames[i].end <= |blob| && FrameIntact(blob, frames[i], hash)
    decreases |blob| - position
  {
    hide FrameAt;
    var f := FrameAt(blob, position);
    if f.Some? {
      NoCorruptFrames(h, blob, f.value.end, hash);
      var frames := FramesFrom(blob, position);
      assert frames[0] == f.value && frames[1..] == FramesFrom(blob, f.value.end);
      assert forall i :: 0 < i < |frames| ==> frames[i] == frames[1..][i - 1];
    }
  }

  /** An accepted batch is exactly its declared frames, end to end. */
  lemma AcceptedTiles(body: seq<Byte>, integrity: Integrity, hash: Hash)
    requires DecodeBatch(body, integrity, hash).Ok?
    ensures var b := DecodeBatch(body, integrity, hash).value;
            var frames := FramesFrom(b.blob, 0);
            && b.blob == body[BATCH_HEADER_SIZE..b.header.batchLength] && |frames| == b.header.messageCount
            && (forall i :: 0 <= i < |frames| ==> frames[i].start < frames[i].end <= |b.blob|)
            && Concatenated(b.blob, frames) == b.blob
  {
    hide FramesFrom, CoveredFrom, FirstCorrupt, BatchChecksum, DecodeHeader;
    var b := DecodeBatch(body, integrity, hash).value;
    WalkCovers(b.blob, 0);
    assert b.blob[0..|b.blob|] == b.blob;
  }

  /** Verification accepts exactly the layouts whose frames and header all carry their own hashes. */
  lemma VerifyIff(body: seq<Byte>, hash: Hash)
    ensures var layout := DecodeBatch(body, LayoutOnly, hash);
            var verified := DecodeBatch(body, Verify, hash);
            && (verified.Ok? ==> layout == verified)
            && (verified.Ok? <==>
                  && layout.Ok?
                  && (var b := layout.value;
                      var frames := FramesFrom(b.blob, 0);
                      && b.header.batchChecksum == BatchChecksum(b.header, b.blob, hash)
                      && forall i :: 0 <= i < |frames| ==>
                           frames[i].start + 8 <= frames[i].end <= |b.blob| && FrameIntact(b.blob, frames[i], hash)))
  {
    hide FramesFrom, CoveredFrom, FirstCorrupt, BatchChecksum;
    var h := DecodeHeader(body);
    hide DecodeHeader;
    if h.Ok? && BATCH_HEADER_SIZE <= h.value.batchLength <= |body| {
      var blob := body[BATCH_HEADER_SIZE..h.value.batchLength];
      NoCorruptFrames(h.value, blob, 0, hash);
    }
  }
}
