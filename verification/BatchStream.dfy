/** Encoding batches from messages, the loops that check them, and reading a stream of records back. */
module BatchStream {
  import opened Common
  import opened LeBytes
  import opened Batch

  // ----- The header round trip -----

  lemma HeaderParts(a: seq<Byte>, b: seq<Byte>, c: seq<Byte>, d: seq<Byte>, e: seq<Byte>, f: seq<Byte>, g: seq<Byte>, z: seq<Byte>, rest: seq<Byte>)
    requires |a| == 8 && |b| == 8 && |c| == 8 && |d| == 8 && |e| == 8 && |f| == 8 && |g| == 4 && |z| == 204
    ensures var x := a + (b + (c + (d + (e + (f + (g + z)))))) + rest;
            && |x| == 256 + |rest| && x[0..8] == a && x[8..16] == b && x[16..24] == c && x[24..32] == d && x[32..40] == e
            && x[40..48] == f && x[48..52] == g && x[52..256] == z
  {
  }

  lemma DecodeHeaderOf(h: BatchHeader, rest: seq<Byte>)
    requires h.Fits() && h.batchLength >= BATCH_HEADER_SIZE
    ensures DecodeHeader(HeaderBytes(h) + rest) == Ok(h)
  {
    Pow256Values();
    FromLeOfLe(h.partitionId, 8);
    FromLeOfLe(h.baseOffset, 8);
    FromLeOfLe(h.baseTimestamp, 8);
    FromLeOfLe(h.originTimestamp, 8);
    FromLeOfLe(h.batchLength, 8);
    FromLeOfLe(h.batchChecksum, 8);
    FromLeOfLe(h.messageCount, 4);
    hide Le, FromLe, Pow256, Zeros;
    HeaderParts(Le(h.partitionId, 8), Le(h.baseOffset, 8), Le(h.baseTimestamp, 8), Le(h.originTimestamp, 8),
                Le(h.batchLength, 8), Le(h.batchChecksum, 8), Le(h.messageCount, 4), Zeros(204), rest);
  }

  // ----- Frames from messages -----

  datatype Message = Message(checksum: nat, id: nat, offsetDelta: nat, timestampDelta: nat, payload: seq<Byte>, userHeaders: seq<Byte>) {
    predicate Fits() {
      && checksum < U64 && id < 0x1_0000_0000_0000_0000_0000_0000_0000_0000 && offsetDelta < 0x1_0000_0000
      && timestampDelta < 0x1_0000_0000 && |payload| < 0x1_0000_0000 && |userHeaders| < 0x1_0000_0000
    }

    function Header(): FrameHeader {
      FrameHeader(checksum, id, offsetDelta, timestampDelta, |userHeaders|, |payload|)
    }
  }

  function FrameHeaderBytes(h: FrameHeader): (bytes: seq<Byte>)
    ensures |bytes| == BATCH_MESSAGE_HEADER_SIZE
  {
    Le(h.checksum, 8) + (Le(h.id, 16) + (Le(h.offsetDelta, 4) + (Le(h.timestampDelta, 4)
    + (Le(h.userHeadersLength, 4) + (Le(h.payloadLength, 4) + Le(0, 8))))))
  }

  function MessageBytes(m: Message): (bytes: seq<Byte>)
    ensures |bytes| == m.Header().TotalSize()
  {
    FrameHeaderBytes(m.Header()) + (m.payload + m.userHeaders)
  }

  function BlobBytes(messages: seq<Message>): seq<Byte> {
    if messages == [] then [] else MessageBytes(messages[0]) + BlobBytes(messages[1..])
  }

  lemma FrameParts(a: seq<Byte>, b: seq<Byte>, c: seq<Byte>, d: seq<Byte>, e: seq<Byte>, f: seq<Byte>, z: seq<Byte>, rest: seq<Byte>)
    requires |a| == 8 && |b| == 16 && |c| == 4 && |d| == 4 && |e| == 4 && |f| == 4 && |z| == 8
    ensures var x := a + (b + (c + (d + (e + (f + z))))) + rest;
            && |x| == 48 + |rest| && x[0..8] == a && x[8..24] == b && x[24..28] == c && x[28..32] == d
            && x[32..36] == e && x[36..40] == f && x[40..48] == z && x[48..] == rest
  {
    var x := a + (b + (c + (d + (e + (f + z))))) + rest;
    assert x == a + b + c + d + e + f + z + rest;
    assert x[40..48] == z && x[48..] == rest;
  }

  lemma DecodeFrameHeaderOf(m: Message, rest: seq<Byte>)
    requires m.Fits()
    ensures DecodeFrameHeader(FrameHeaderBytes(m.Header()) + rest) == Ok(m.Header())
    ensures (FrameHeaderBytes(m.Header()) + rest)[0..8] == Le(m.checksum, 8)
  {
    Pow256Values();
    FromLeOfLe(m.checksum, 8);
    FromLeOfLe(m.id, 16);
    FromLeOfLe(m.offsetDelta, 4);
    FromLeOfLe(m.timestampDelta, 4);
    FromLeOfLe(|m.userHeaders|, 4);
    FromLeOfLe(|m.payload|, 4);
    FromLeOfLe(0, 8);
    hide Le, FromLe, Pow256;
    FrameParts(Le(m.checksum, 8), Le(m.id, 16), Le(m.offsetDelta, 4), Le(m.timestampDelta, 4),
               Le(|m.userHeaders|, 4), Le(|m.payload|, 4), Le(0, 8), rest);
  }

  /** The frame a message becomes at a position. */
  function FrameOf(m: Message, position: nat): Frame {
    Frame(m.Header(), m.payload, m.userHeaders, position, position + m.Header().TotalSize())
  }

  lemma FrameAtOf(before: seq<Byte>, m: Message, rest: seq<Byte>)
    requires m.Fits()
    ensures FrameAt(before + (MessageBytes(m) + rest), |before|) == Some(FrameOf(m, |before|))
  {
    var blob := before + (MessageBytes(m) + rest);
    var tail := m.payload + m.userHeaders + rest;
    assert blob[|before|..] == FrameHeaderBytes(m.Header()) + tail;
    DecodeFrameHeaderOf(m, tail);
    hide FrameHeaderBytes, DecodeFrameHeader;
    FrameBody(before, FrameHeaderBytes(m.Header()), m.payload, m.userHeaders, rest);
  }

  lemma FrameBody(before: seq<Byte>, head: seq<Byte>, payload: seq<Byte>, headers: seq<Byte>, rest: seq<Byte>)
    ensures var blob := before + (head + (payload + headers) + rest);
            var start := |before| + |head|;
            && |blob| == start + |payload| + |headers| + |rest|
            && blob[start..start + |payload|] == payload
            && blob[start + |payload|..start + |payload| + |headers|] == headers
  {
  }

  /** The frames of a blob built from messages, in order. */
  function FramesOf(messages: seq<Message>, position: nat): (frames: seq<Frame>)
    ensures |frames| == |messages|
  {
    if messages == [] then []
    else [FrameOf(messages[0], position)] + FramesOf(messages[1..], position + |MessageBytes(messages[0])|)
  }

  /** Walking a blob built from messages finds exactly those messages and covers it. */
  lemma {:induction false} WalkFindsMessages(before: seq<Byte>, messages: seq<Message>)
    requires forall i :: 0 <= i < |messages| ==> messages[i].Fits()
    ensures var blob := before + BlobBytes(messages);
            FramesFrom(blob, |before|) == FramesOf(messages, |before|) && CoveredFrom(blob, |before|) == |blob|
    decreases |messages|
  {
    hide FrameAt, MessageBytes;
    var blob := before + BlobBytes(messages);
    if messages == [] {
      NoFrameAtEnd(blob);
    } else {
      var head := MessageBytes(messages[0]);
      assert blob == before + (head + BlobBytes(messages[1..]));
      FrameAtOf(before, messages[0], BlobBytes(messages[1..]));
      assert blob == before + head + BlobBytes(messages[1..]);
      assert forall i :: 0 <= i < |messages| - 1 ==> messages[1..][i] == messages[i + 1];
      WalkFindsMessages(before + head, messages[1..]);
    }
  }

  lemma NoFrameAtEnd(blob: seq<Byte>)
    ensures FrameAt(blob, |blob|) == None
  {
  }

  // ----- Encoded records -----

  /** A batch as a producer builds it from messages. */
  function EncodedBatch(partitionId: nat, originTimestamp: nat, messages: seq<Message>, hash: Hash): BatchRef {
    var blob := BlobBytes(messages);
    var h := BatchHeader(partitionId, 0, 0, originTimestamp, BATCH_HEADER_SIZE + |blob|, 0, |messages|);
    BatchRef(h.(batchChecksum := BatchChecksum(h, blob, hash)), blob)
  }

  function RecordBytes(b: BatchRef): seq<Byte> {
    HeaderBytes(b.header) + b.blob
  }

  /** A record the format can carry: declared sizes are the real ones and the frames tile. */
  ghost predicate Encodable(b: BatchRef) {
    b.header.Fits() && b.header.batchLength == BATCH_HEADER_SIZE + |b.blob| && Tiles(b)
  }

  /** A record followed by anything decodes to itself. */
  lemma DecodeBatchOf(b: BatchRef, rest: seq<Byte>, hash: Hash)
    requires Encodable(b)
    ensures DecodeBatch(RecordBytes(b) + rest, LayoutOnly, hash) == Ok(b)
  {
    hide Tiles, HeaderBytes, DecodeHeader;
    var body := RecordBytes(b) + rest;
    assert body == HeaderBytes(b.header) + (b.blob + rest);
    DecodeHeaderOf(b.header, b.blob + rest);
    assert body[BATCH_HEADER_SIZE..b.header.batchLength] == b.blob;
  }

  /** What a producer encodes is layout-clean. */
  lemma EncodedTiles(partitionId: nat, originTimestamp: nat, messages: seq<Message>, hash: Hash)
    requires forall i :: 0 <= i < |messages| ==> messages[i].Fits()
    ensures Tiles(EncodedBatch(partitionId, originTimestamp, messages, hash))
    ensures FramesFrom(EncodedBatch(partitionId, originTimestamp, messages, hash).blob, 0) == FramesOf(messages, 0)
  {
    WalkFindsMessages([], messages);
    assert [] + BlobBytes(messages) == BlobBytes(messages);
  }

  function Stream(records: seq<BatchRef>): seq<Byte> {
    if records == [] then [] else RecordBytes(records[0]) + Stream(records[1..])
  }

  /** Steps through a buffer record by record; `None` at the first record it refuses. */
  function ReadStream(bytes: seq<Byte>, integrity: Integrity, hash: Hash): Option<seq<BatchRef>> {
    if bytes == [] then Some([])
    else
      match DecodeBatch(bytes, integrity, hash)
      case Err(_) => None
      case Ok(b) =>
        assert BATCH_HEADER_SIZE <= b.header.batchLength <= |bytes| by { StepIsInside(bytes, integrity, hash); }
        var rest := ReadStream(bytes[b.header.batchLength..], integrity, hash);
        if rest.None? then None else Some([b] + rest.value)
  }

  lemma StepIsInside(bytes: seq<Byte>, integrity: Integrity, hash: Hash)
    requires DecodeBatch(bytes, integrity, hash).Ok?
    ensures BATCH_HEADER_SIZE <= DecodeBatch(bytes, integrity, hash).value.header.batchLength <= |bytes|
  {
    hide Tiles, Recomputed, DecodeHeader;
  }

  /** A record verification accepts. */
  ghost predicate Intact(b: BatchRef, integrity: Integrity, hash: Hash) {
    integrity.Verify? ==> DecodeBatch(RecordBytes(b), Verify, hash) == Ok(b)
  }

  /** Verification looks at nothing past the record. */
  lemma VerifyIgnoresTail(b: BatchRef, rest: seq<Byte>, hash: Hash)
    requires Encodable(b) && DecodeBatch(RecordBytes(b), Verify, hash) == Ok(b)
    ensures DecodeBatch(RecordBytes(b) + rest, Verify, hash) == Ok(b)
  {
    hide FramesFrom, BatchChecksum, Encodable;
    assert RecordBytes(b) + [] == RecordBytes(b);
    DecodeBatchOf(b, [], hash);
    DecodeBatchOf(b, rest, hash);
    hide DecodeBatch, RecordBytes;
    VerifyIff(RecordBytes(b), hash);
    VerifyIff(RecordBytes(b) + rest, hash);
  }

  /** Stepping by each record's length recovers every record of a stream, at either integrity level. */
  lemma {:induction false} StreamRoundTrip(records: seq<BatchRef>, integrity: Integrity, hash: Hash)
    requires forall i :: 0 <= i < |records| ==> Encodable(records[i]) && Intact(records[i], integrity, hash)
    ensures ReadStream(Stream(records), integrity, hash) == Some(records)
    decreases |records|
  {
    hide DecodeBatch, Encodable, RecordBytes;
    if records != [] {
      var b, rest := records[0], Stream(records[1..]);
      if integrity.Verify? {
        VerifyIgnoresTail(b, rest, hash);
      } else {
        DecodeBatchOf(b, rest, hash);
      }
      assert forall i :: 0 <= i < |records| - 1 ==> records[1..][i] == records[i + 1];
      StreamRoundTrip(records[1..], integrity, hash);
      RecordLength(b);
      TakeOf(RecordBytes(b), rest);
      assert records == [records[0]] + records[1..];
    }
  }

  lemma RecordLength(b: BatchRef)
    requires Encodable(b)
    ensures |RecordBytes(b)| == b.header.batchLength > 0
  {
  }

  // ----- Producers pass verification -----

  /** The message's checksum field is the hash of the rest of its frame. */
  predicate SealedMessage(m: Message, hash: Hash) {
    m.checksum == hash(MessageBytes(m)[8..])
  }

  lemma {:induction false} SealedFramesIntact(before: seq<Byte>, messages: seq<Message>, hash: Hash, i: nat)
    requires i < |messages| && forall k :: 0 <= k < |messages| ==> SealedMessage(messages[k], hash)
    ensures var blob := before + BlobBytes(messages);
            var f := FramesOf(messages, |before|)[i];
            f.start + 8 <= f.end <= |blob| && FrameIntact(blob, f, hash)
    decreases |messages|
  {
    hide MessageBytes;
    var head := MessageBytes(messages[0]);
    var blob := before + BlobBytes(messages);
    if i == 0 {
      assert blob[|before| + 8..|before| + |head|] == head[8..];
    } else {
      assert blob == before + head + BlobBytes(messages[1..]);
      assert forall k :: 0 <= k < |messages| - 1 ==> messages[1..][k] == messages[k + 1];
      SealedFramesIntact(before + head, messages[1..], hash, i - 1);
    }
  }

  lemma EncodedEncodable(partitionId: nat, originTimestamp: nat, messages: seq<Message>, hash: Hash)
    requires forall i :: 0 <= i < |messages| ==> messages[i].Fits()
    requires partitionId < U64 && originTimestamp < U64 && |messages| < 0x1_0000_0000 && BATCH_HEADER_SIZE + |BlobBytes(messages)| < U64
    ensures var b := EncodedBatch(partitionId, originTimestamp, messages, hash);
            Encodable(b) && b.header.batchChecksum == BatchChecksum(b.header, b.blob, hash)
  {
    var b := EncodedBatch(partitionId, originTimestamp, messages, hash);
    EncodedTiles(partitionId, originTimestamp, messages, hash);
    hide Tiles, BlobBytes, Message.Fits;
    ChecksumIgnoresItself(b.header, b.blob, hash);
  }

  lemma EncodedIntact(partitionId: nat, originTimestamp: nat, messages: seq<Message>, hash: Hash)
    requires forall i :: 0 <= i < |messages| ==> messages[i].Fits() && SealedMessage(messages[i], hash)
    ensures var b := EncodedBatch(partitionId, originTimestamp, messages, hash);
            var frames := FramesFrom(b.blob, 0);
            forall i :: 0 <= i < |frames| ==> frames[i].start + 8 <= frames[i].end <= |b.blob| && FrameIntact(b.blob, frames[i], hash)
  {
    hide FramesFrom, BlobBytes, SealedMessage, Message.Fits, FramesOf, FrameIntact, BatchChecksum;
    EncodedTiles(partitionId, originTimestamp, messages, hash);
    assert [] + BlobBytes(messages) == BlobBytes(messages);
    forall i | 0 <= i < |messages|
      ensures var f := FramesOf(messages, 0)[i];
              f.start + 8 <= f.end <= |BlobBytes(messages)| && FrameIntact(BlobBytes(messages), f, hash)
    {
      SealedFramesIntact([], messages, hash, i);
    }
  }

  /** A batch a producer encodes from sealed messages decodes to itself under full verification. */
  lemma EncodedVerifies(partitionId: nat, originTimestamp: nat, messages: seq<Message>, hash: Hash)
    requires forall i :: 0 <= i < |messages| ==> messages[i].Fits() && SealedMessage(messages[i], hash)
    requires partitionId < U64 && originTimestamp < U64 && |messages| < 0x1_0000_0000 && BATCH_HEADER_SIZE + |BlobBytes(messages)| < U64
    ensures var b := EncodedBatch(partitionId, originTimestamp, messages, hash);
            Encodable(b) && DecodeBatch(RecordBytes(b), Verify, hash) == Ok(b)
  {
    hide *;
    var b := EncodedBatch(partitionId, originTimestamp, messages, hash);
    EncodedEncodable(partitionId, originTimestamp, messages, hash);
    EncodedIntact(partitionId, originTimestamp, messages, hash);
    DecodeBatchOf(b, [], hash);
    assert RecordBytes(b) + [] == RecordBytes(b);
    VerifyIff(RecordBytes(b), hash);
  }

  /** The stored checksum is not part of what it covers. */
  lemma ChecksumIgnoresItself(h: BatchHeader, blob: seq<Byte>, hash: Hash)
    ensures BatchChecksum(h, blob, hash) == BatchChecksum(h.(batchChecksum := 0), blob, hash)
  {
  }
}
