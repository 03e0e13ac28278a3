/** The batch checks as the source runs them: one walk over the frames, updating counters and a hasher. */
module BatchCodec {
  import opened Common
  import opened LeBytes
  import opened Batch

  /** The walk's progress: what has been seen and what is left add up to the whole. */
  lemma WalkStep(blob: seq<Byte>, position: nat)
    ensures var f := FrameAt(blob, position);
            f.Some? ==>
              && |FramesFrom(blob, position)| == 1 + |FramesFrom(blob, f.value.end)|
              && CoveredFrom(blob, position) == CoveredFrom(blob, f.value.end)
              && ChecksumFields(blob, position) == blob[position..position + 8] + ChecksumFields(blob, f.value.end)
    ensures FrameAt(blob, position).None? ==>
      FramesFrom(blob, position) == [] && CoveredFrom(blob, position) == position && ChecksumFields(blob, position) == []
  {
    hide FrameAt;
  }

  /** Hashes the header fields and each stored checksum field, in message order. */
  method CalculateBatchChecksum(h: BatchHeader, blob: seq<Byte>, hash: Hash) returns (checksum: nat)
    ensures checksum == BatchChecksum(h, blob, hash)
  {
    hide FrameAt, FramesFrom, CoveredFrom, ChecksumFields;
    var hashed := MetaBytes(h);
    var frames := new BatchIterator(blob);
    WalkStep(blob, 0);
    var f := frames.Next();
    while f.Some?
      invariant frames.blob == blob
      invariant hashed + ChecksumFields(blob, if f.Some? then f.value.start else frames.position) == MetaBytes(h) + ChecksumFields(blob, 0)
      invariant f.Some? ==> f == FrameAt(blob, f.value.start) && frames.position == f.value.end
      invariant f.None? ==> ChecksumFields(blob, frames.position) == []
      decreases |blob| - frames.position, f.Some?
    {
      WalkStep(blob, f.value.start);
      var field := blob[f.value.start..f.value.start + 8];
      assert hashed + (field + ChecksumFields(blob, f.value.end)) == hashed + field + ChecksumFields(blob, f.value.end);
      hashed := hashed + field;
      f := frames.Next();
      WalkStep(blob, frames.position);
    }
    assert hashed + [] == hashed;
    return hash(hashed);
  }

  /** Proves the frames tile, without touching any checksum. */
  method ValidateBatchLayout(b: BatchRef) returns (ok: bool)
    ensures ok == Tiles(b)
  {
    hide FrameAt, FramesFrom, CoveredFrom;
    var blob := b.blob;
    var counted, covered := 0, 0;
    var frames := new BatchIterator(blob);
    WalkStep(blob, 0);
    var f := frames.Next();
    while f.Some?
      invariant frames.blob == blob && covered == (if f.Some? then f.value.start else frames.position)
      invariant counted + |FramesFrom(blob, covered)| == |FramesFrom(blob, 0)| && CoveredFrom(blob, covered) == CoveredFrom(blob, 0)
      invariant f.Some? ==> f == FrameAt(blob, f.value.start) && frames.position == f.value.end
      invariant f.None? ==> FrameAt(blob, covered).None?
      decreases |blob| - frames.position, f.Some?
    {
      WalkStep(blob, covered);
      counted := counted + 1;
      covered := f.value.end;
      f := frames.Next();
    }
    WalkStep(blob, covered);
    return counted == b.header.messageCount && covered == |blob|;
  }

  lemma CorruptStep(h: BatchHeader, blob: seq<Byte>, position: nat, hash: Hash)
    ensures var f := FrameAt(blob, position);
            && (f.None? ==> FirstCorrupt(h, blob, position, hash) == None)
            && (f.Some? && FrameIntact(blob, f.value, hash) ==>
                  FirstCorrupt(h, blob, position, hash) == FirstCorrupt(h, blob, f.value.end, hash))
            && (f.Some? && !FrameIntact(blob, f.value, hash) ==>
                  FirstCorrupt(h, blob, position, hash) ==
                    Some(InvalidMessageChecksum(f.value.header.checksum, hash(blob[f.value.start + 8..f.value.end]),
                                                SaturatingAdd(h.baseOffset, f.value.header.offsetDelta))))
  {
    hide FrameAt;
  }

  /** What one walk has verified, counted and hashed up to a position, and what is left, make up the batch. */
  ghost predicate Progress(b: BatchRef, hash: Hash, covered: nat, verified: nat, hashed: seq<Byte>) {
    && hashed + ChecksumFields(b.blob, covered) == MetaBytes(b.header) + ChecksumFields(b.blob, 0)
    && verified + |FramesFrom(b.blob, covered)| == |FramesFrom(b.blob, 0)| && CoveredFrom(b.blob, covered) == CoveredFrom(b.blob, 0)
    && FirstCorrupt(b.header, b.blob, covered, hash) == FirstCorrupt(b.header, b.blob, 0, hash)
  }

  lemma ProgressStart(b: BatchRef, hash: Hash)
    ensures Progress(b, hash, 0, 0, MetaBytes(b.header))
  {
  }

  lemma ProgressNext(b: BatchRef, hash: Hash, covered: nat, verified: nat, hashed: seq<Byte>)
    requires Progress(b, hash, covered, verified, hashed) && FrameAt(b.blob, covered).Some?
    requires FrameIntact(b.blob, FrameAt(b.blob, covered).value, hash)
    ensures Progress(b, hash, FrameAt(b.blob, covered).value.end, verified + 1, hashed + b.blob[covered..covered + 8])
  {
    hide FrameAt, FramesFrom, CoveredFrom, ChecksumFields, FirstCorrupt, FrameIntact;
    WalkStep(b.blob, covered);
    CorruptStep(b.header, b.blob, covered, hash);
    var field, rest := b.blob[covered..covered + 8], ChecksumFields(b.blob, FrameAt(b.blob, covered).value.end);
    assert hashed + (field + rest) == hashed + field + rest;
  }

  lemma ProgressCorrupt(b: BatchRef, hash: Hash, covered: nat, verified: nat, hashed: seq<Byte>)
    requires Progress(b, hash, covered, verified, hashed) && FrameAt(b.blob, covered).Some?
    requires !FrameIntact(b.blob, FrameAt(b.blob, covered).value, hash)
    ensures var f := FrameAt(b.blob, covered).value;
            Recomputed(b, hash) == Err(InvalidMessageChecksum(f.header.checksum, hash(b.blob[f.start + 8..f.end]),
                                                              SaturatingAdd(b.header.baseOffset, f.header.offsetDelta)))
  {
    hide FrameAt, FramesFrom, CoveredFrom, ChecksumFields, FirstCorrupt, FrameIntact;
    CorruptStep(b.header, b.blob, covered, hash);
  }

  lemma ProgressDone(b: BatchRef, hash: Hash, covered: nat, verified: nat, hashed: seq<Byte>)
    requires Progress(b, hash, covered, verified, hashed) && FrameAt(b.blob, covered).None?
    ensures Recomputed(b, hash) ==
      if verified != b.header.messageCount || covered != |b.blob| then Err(FramesDoNotTile) else Ok(hash(hashed))
  {
    hide FrameAt, FramesFrom, CoveredFrom, ChecksumFields, FirstCorrupt;
    WalkStep(b.blob, covered);
    CorruptStep(b.header, b.blob, covered, hash);
    assert hashed + [] == hashed;
  }

  /** Verifies every message and recomputes the batch checksum in the same walk. */
  method VerifyAndRecomputeBatchChecksum(b: BatchRef, hash: Hash) returns (r: Result<nat, WireError>)
    ensures r == Recomputed(b, hash)
  {
    hide FrameAt, Progress, Recomputed, MetaBytes;
    var blob := b.blob;
    var hashed, verified, covered := MetaBytes(b.header), 0, 0;
    var frames := new BatchIterator(blob);
    ProgressStart(b, hash);
    var f := frames.Next();
    while f.Some?
      invariant frames.blob == blob && covered == (if f.Some? then f.value.start else frames.position)
      invariant Progress(b, hash, covered, verified, hashed)
      invariant f.Some? ==> f == FrameAt(blob, f.value.start) && frames.position == f.value.end
      invariant f.None? ==> FrameAt(blob, covered).None?
      decreases |blob| - frames.position, f.Some?
    {
      var stored := f.value.header.checksum;
      var expected := hash(blob[f.value.start + 8..f.value.end]);
      if expected != stored {
        ProgressCorrupt(b, hash, covered, verified, hashed);
        return Err(InvalidMessageChecksum(stored, expected, SaturatingAdd(b.header.baseOffset, f.value.header.offsetDelta)));
      }
      ProgressNext(b, hash, covered, verified, hashed);
      hashed := hashed + blob[f.value.start..f.value.start + 8];
      verified := verified + 1;
      covered := f.value.end;
      f := frames.Next();
    }
    ProgressDone(b, hash, covered, verified, hashed);
    if verified != b.header.messageCount || covered != |blob| {
      return Err(FramesDoNotTile);
    }
    return Ok(hash(hashed));
  }

  method DecodeBatchSliceWith(body: seq<Byte>, integrity: Integrity, hash: Hash) returns (r: Result<BatchRef, WireError>)
    ensures r == DecodeBatch(body, integrity, hash)
  {
    hide Tiles, Recomputed;
    var header := DecodeHeader(body);
    if header.Err? {
      return Err(header.error);
    }
    var h := header.value;
    if h.batchLength < BATCH_HEADER_SIZE {
      return Err(BadBatchLength);
    }
    if |body| < h.batchLength {
      return Err(UnexpectedEof(h.batchLength, |body|));
    }
    var batch := BatchRef(h, body[BATCH_HEADER_SIZE..h.batchLength]);
    match integrity
    case Verify =>
      var computed := VerifyAndRecomputeBatchChecksum(batch, hash);
      if computed.Err? {
        return Err(computed.error);
      }
      if h.batchChecksum != computed.value {
        return Err(InvalidBatchChecksum(h.batchChecksum, computed.value, h.baseOffset));
      }
      return Ok(batch);
    case LayoutOnly =>
      var ok := ValidateBatchLayout(batch);
      return if ok then Ok(batch) else Err(FramesDoNotTile);
  }

  // ----- Encoding in place -----

  function Spliced(s: seq<Byte>, at: nat, src: seq<Byte>): seq<Byte>
    requires at + |src| <= |s|
  {
    s[..at] + src + s[at + |src|..]
  }

  method CopyInto(bytes: array<Byte>, at: nat, src: seq<Byte>)
    requires at + |src| <= bytes.Length
    modifies bytes
    ensures bytes[..] == Spliced(old(bytes[..]), at, src)
  {
    for i := 0 to |src|
      invariant forall j :: 0 <= j < bytes.Length ==> bytes[j] == if at <= j < at + i then src[j - at] else old(bytes[j])
    {
      bytes[at + i] := src[i];
    }
  }

  /** Writes the header over the start of a buffer and leaves the rest of the buffer alone. */
  method EncodeInto(h: BatchHeader, bytes: array<Byte>)
    requires bytes.Length >= BATCH_HEADER_SIZE
    modifies bytes
    ensures bytes[..BATCH_HEADER_SIZE] == HeaderBytes(h)
    ensures bytes[BATCH_HEADER_SIZE..] == old(bytes[BATCH_HEADER_SIZE..])
  {
    ghost var start := bytes[..];
    CopyInto(bytes, 0, Zeros(BATCH_HEADER_SIZE));
    NothingWritten(start);
    hide *;
    ghost var p: seq<Byte> := [];
    Write(bytes, 0, Le(h.partitionId, 8), start, p);
    p := p + Le(h.partitionId, 8);
    Write(bytes, 8, Le(h.baseOffset, 8), start, p);
    p := p + Le(h.baseOffset, 8);
    Write(bytes, 16, Le(h.baseTimestamp, 8), start, p);
    p := p + Le(h.baseTimestamp, 8);
    Write(bytes, 24, Le(h.originTimestamp, 8), start, p);
    p := p + Le(h.originTimestamp, 8);
    Write(bytes, 32, Le(h.batchLength, 8), start, p);
    p := p + Le(h.batchLength, 8);
    Write(bytes, 40, Le(h.batchChecksum, 8), start, p);
    p := p + Le(h.batchChecksum, 8);
    Write(bytes, 48, Le(h.messageCount, 4), start, p);
    WrittenHeader(start, h);
    assert bytes[..BATCH_HEADER_SIZE] == bytes[..][..BATCH_HEADER_SIZE];
    assert bytes[BATCH_HEADER_SIZE..] == bytes[..][BATCH_HEADER_SIZE..] && start[BATCH_HEADER_SIZE..] == old(bytes[BATCH_HEADER_SIZE..]);
  }

  /** The buffer once a prefix of the header is written over its zeroed start. */
  ghost function Written(s: seq<Byte>, prefix: seq<Byte>): seq<Byte>
    requires |prefix| <= BATCH_HEADER_SIZE <= |s|
  {
    prefix + Zeros(BATCH_HEADER_SIZE - |prefix|) + s[BATCH_HEADER_SIZE..]
  }

  /** Writes the next field of the header. */
  method Write(bytes: array<Byte>, at: nat, field: seq<Byte>, ghost start: seq<Byte>, ghost prefix: seq<Byte>)
    requires |start| == bytes.Length >= BATCH_HEADER_SIZE && |prefix| == at && at + |field| <= BATCH_HEADER_SIZE
    requires bytes[..] == Written(start, prefix)
    modifies bytes
    ensures bytes[..] == Written(start, prefix + field)
  {
    SpliceNext(start, prefix, field);
    CopyInto(bytes, at, field);
  }

  lemma NothingWritten(s: seq<Byte>)
    requires |s| >= BATCH_HEADER_SIZE
    ensures Spliced(s, 0, Zeros(BATCH_HEADER_SIZE)) == Written(s, [])
  {
    hide Zeros;
  }

  lemma ZerosEqual(a: seq<Byte>, b: seq<Byte>)
    requires AllZero(a) && AllZero(b) && |a| == |b|
    ensures a == b
  {
    assert forall i :: 0 <= i < |a| ==> a[i] == b[i];
  }

  lemma SpliceNext(s: seq<Byte>, prefix: seq<Byte>, field: seq<Byte>)
    requires |prefix| + |field| <= BATCH_HEADER_SIZE <= |s|
    ensures Spliced(Written(s, prefix), |prefix|, field) == Written(s, prefix + field)
  {
    hide Zeros;
    var zeros := Zeros(BATCH_HEADER_SIZE - |prefix|);
    ZerosEqual(zeros[|field|..], Zeros(BATCH_HEADER_SIZE - |prefix| - |field|));
    var w := Written(s, prefix);
    assert w == prefix + (zeros + s[BATCH_HEADER_SIZE..]);
    assert w[..|prefix|] == prefix;
    assert w[|prefix| + |field|..] == zeros[|field|..] + s[BATCH_HEADER_SIZE..];
    assert prefix + field + (zeros[|field|..] + s[BATCH_HEADER_SIZE..]) == prefix + field + zeros[|field|..] + s[BATCH_HEADER_SIZE..];
  }

  lemma WrittenHeader(s: seq<Byte>, h: BatchHeader)
    requires |s| >= BATCH_HEADER_SIZE
    ensures var p := [] + Le(h.partitionId, 8) + Le(h.baseOffset, 8) + Le(h.baseTimestamp, 8) + Le(h.originTimestamp, 8)
                     + Le(h.batchLength, 8) + Le(h.batchChecksum, 8) + Le(h.messageCount, 4);
            && |p| == 52
            && Written(s, p)[..BATCH_HEADER_SIZE] == HeaderBytes(h) && Written(s, p)[BATCH_HEADER_SIZE..] == s[BATCH_HEADER_SIZE..]
  {
    hide Le, Zeros;
    var p := [] + Le(h.partitionId, 8) + Le(h.baseOffset, 8) + Le(h.baseTimestamp, 8) + Le(h.originTimestamp, 8)
             + Le(h.batchLength, 8) + Le(h.batchChecksum, 8) + Le(h.messageCount, 4);
    assert p + Zeros(204) == HeaderBytes(h);
    TakeOf(p + Zeros(204), s[BATCH_HEADER_SIZE..]);
  }
}
