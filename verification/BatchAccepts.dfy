/** What the batch decoder accepts: nothing but an encoded header followed by encoded messages. */
module BatchAccepts {
  import opened Common
  import opened LeBytes
  import opened Batch
  import opened BatchStream

  lemma HeaderRebuilds(bytes: seq<Byte>)
    requires DecodeHeader(bytes).Ok?
    ensures var h := DecodeHeader(bytes).value;
      h.Fits() && h.batchLength >= BATCH_HEADER_SIZE && |bytes| >= BATCH_HEADER_SIZE && bytes[..BATCH_HEADER_SIZE] == HeaderBytes(h)
  {
    hide Le, FromLe, Pow256, Zeros;
    LeOfFromLe(bytes[0..8]);
    LeOfFromLe(bytes[8..16]);
    LeOfFromLe(bytes[16..24]);
    LeOfFromLe(bytes[24..32]);
    LeOfFromLe(bytes[32..40]);
    LeOfFromLe(bytes[40..48]);
    LeOfFromLe(bytes[48..52]);
    Pow256Values();
    ZerosAre(bytes[52..256]);
    HeaderJoins(bytes);
  }

  lemma ZerosAre(bytes: seq<Byte>)
    requires AllZero(bytes)
    ensures bytes == Zeros(|bytes|)
  {
  }

  lemma HeaderJoins(b: seq<Byte>)
    requires |b| >= 256
    ensures b[..256] == b[0..8] + (b[8..16] + (b[16..24] + (b[24..32] + (b[32..40] + (b[40..48] + (b[48..52] + b[52..256]))))))
  {
  }

  /** The checksummed bytes tell any two headers apart, by every field but the checksum itself. */
  lemma MetaCovers(h: BatchHeader, g: BatchHeader)
    requires h.Fits() && g.Fits() && MetaBytes(h) == MetaBytes(g)
    ensures h == g.(batchChecksum := h.batchChecksum)
  {
    MetaReads(h);
    MetaReads(g);
  }

  lemma MetaReads(h: BatchHeader)
    requires h.Fits()
    ensures var m := MetaBytes(h);
      && |m| == 44 && FromLe(m[0..8]) == h.partitionId && FromLe(m[8..16]) == h.baseOffset && FromLe(m[16..24]) == h.baseTimestamp
      && FromLe(m[24..32]) == h.originTimestamp && FromLe(m[32..40]) == h.batchLength && FromLe(m[40..44]) == h.messageCount
  {
    Pow256Values();
    FromLeOfLe(h.partitionId, 8);
    FromLeOfLe(h.baseOffset, 8);
    FromLeOfLe(h.baseTimestamp, 8);
    FromLeOfLe(h.originTimestamp, 8);
    FromLeOfLe(h.batchLength, 8);
    FromLeOfLe(h.messageCount, 4);
    hide Le, FromLe, Pow256;
    MetaParts(Le(h.partitionId, 8), Le(h.baseOffset, 8), Le(h.baseTimestamp, 8), Le(h.originTimestamp, 8), Le(h.batchLength, 8), Le(h.messageCount, 4));
  }

  lemma MetaParts(a: seq<Byte>, b: seq<Byte>, c: seq<Byte>, d: seq<Byte>, e: seq<Byte>, f: seq<Byte>)
    requires |a| == 8 && |b| == 8 && |c| == 8 && |d| == 8 && |e| == 8 && |f| == 4
    ensures var m := a + b + c + d + e + f;
      |m| == 44 && m[0..8] == a && m[8..16] == b && m[16..24] == c && m[24..32] == d && m[32..40] == e && m[40..44] == f
  {
  }

  lemma FrameHeaderRebuilds(bytes: seq<Byte>)
    requires DecodeFrameHeader(bytes).Ok?
    ensures var h := DecodeFrameHeader(bytes).value;
      && |bytes| >= BATCH_MESSAGE_HEADER_SIZE && bytes[..BATCH_MESSAGE_HEADER_SIZE] == FrameHeaderBytes(h)
      && h.checksum < U64 && h.id < 0x1_0000_0000_0000_0000_0000_0000_0000_0000 && h.offsetDelta < 0x1_0000_0000
      && h.timestampDelta < 0x1_0000_0000 && h.userHeadersLength < 0x1_0000_0000 && h.payloadLength < 0x1_0000_0000
  {
    hide Le, FromLe, Pow256;
    LeOfFromLe(bytes[0..8]);
    LeOfFromLe(bytes[8..24]);
    LeOfFromLe(bytes[24..28]);
    LeOfFromLe(bytes[28..32]);
    LeOfFromLe(bytes[32..36]);
    LeOfFromLe(bytes[36..40]);
    LeOfFromLe(bytes[40..48]);
    Pow256Values();
    FrameJoins(bytes);
  }

  lemma FrameJoins(b: seq<Byte>)
    requires |b| >= 48
    ensures b[..48] == b[0..8] + (b[8..24] + (b[24..28] + (b[28..32] + (b[32..36] + (b[36..40] + b[40..48])))))
  {
  }

  function MessageIn(f: Frame): Message {
    Message(f.header.checksum, f.header.id, f.header.offsetDelta, f.header.timestampDelta, f.payload, f.userHeaders)
  }

  lemma FrameRebuilds(blob: seq<Byte>, position: nat)
    requires FrameAt(blob, position).Some?
    ensures var f := FrameAt(blob, position).value;
      && MessageIn(f).Fits() && f.start < f.end <= |blob| && blob[f.start..f.end] == MessageBytes(MessageIn(f)) && f == FrameOf(MessageIn(f), position)
  {
    hide FrameHeaderBytes, DecodeFrameHeader;
    FrameHeaderRebuilds(blob[position..]);
    var f := FrameAt(blob, position).value;
    var start := position + BATCH_MESSAGE_HEADER_SIZE;
    assert blob[position..][..BATCH_MESSAGE_HEADER_SIZE] == blob[position..start];
    assert blob[position..f.end] == blob[position..start] + blob[start..f.end];
  }

  /** The part of a blob a walk covers is the encoding of the messages it finds. */
  lemma {:induction false} WalkRebuilds(blob: seq<Byte>, position: nat) returns (messages: seq<Message>)
    requires position <= |blob|
    ensures FramesFrom(blob, position) == FramesOf(messages, position)
    ensures (forall i :: 0 <= i < |messages| ==> messages[i].Fits()) && blob[position..CoveredFrom(blob, position)] == BlobBytes(messages)
    decreases |blob| - position
  {
    hide FrameAt, MessageBytes, FrameOf, MessageIn, Message.Fits;
    var f := FrameAt(blob, position);
    if f.None? {
      messages := [];
    } else {
      FrameRebuilds(blob, position);
      var rest := WalkRebuilds(blob, f.value.end);
      messages := [MessageIn(f.value)] + rest;
      assert messages[1..] == rest;
      var end := CoveredFrom(blob, position);
      assert blob[position..end] == blob[position..f.value.end] + blob[f.value.end..end];
    }
  }

  /** An accepted batch is the encoding of its header and of as many messages as it declares. */
  lemma BatchAcceptsOnlyEncodings(body: seq<Byte>, integrity: Integrity, hash: Hash) returns (messages: seq<Message>)
    requires DecodeBatch(body, integrity, hash).Ok?
    ensures var b := DecodeBatch(body, integrity, hash).value;
      && Encodable(b) && |messages| == b.header.messageCount && (forall i :: 0 <= i < |messages| ==> messages[i].Fits())
      && b.blob == BlobBytes(messages) && b.header.batchLength <= |body|
      && body[..b.header.batchLength] == HeaderBytes(b.header) + BlobBytes(messages)
  {
    hide FramesFrom, CoveredFrom, FirstCorrupt, BatchChecksum, DecodeHeader, HeaderBytes;
    HeaderRebuilds(body);
    var b := DecodeBatch(body, integrity, hash).value;
    messages := WalkRebuilds(b.blob, 0);
    assert b.blob[0..|b.blob|] == b.blob;
    assert body[..b.header.batchLength] == body[..BATCH_HEADER_SIZE] + body[BATCH_HEADER_SIZE..b.header.batchLength];
  }
}
