/**
 * Pulling artifacts chunk by chunk: whatever duplicate, reordered, empty or overrunning
 * frames arrive, every buffer stays a prefix of its artifact and the pull ends in exact copies.
 */
module StateTransfer {
  import opened Common
  import opened LeBytes
  import opened StateManifest

  /** One artifact of an accepted target and the bytes received so far. */
  datatype ArtifactProgress = ArtifactProgress(entry: StateArtifact, buf: seq<Byte>) {
    predicate Complete() {
      |buf| == entry.len
    }
  }

  datatype Chunk = Chunk(index: nat, offset: nat, len: nat)

  datatype Frame = Frame(index: nat, offset: nat, payload: seq<Byte>)

  /** A 32-bit truncating cast. */
  function U32(n: nat): nat {
    n % 0x1_0000_0000
  }

  // ----- The cursor -----

  /** The first incomplete artifact; the length of the list if all are complete. */
  function FirstIncomplete(artifacts: seq<ArtifactProgress>): (k: nat)
    ensures k <= |artifacts| && (k < |artifacts| ==> !artifacts[k].Complete())
    ensures forall i :: 0 <= i < k ==> artifacts[i].Complete()
  {
    if artifacts == [] || !artifacts[0].Complete() then 0
    else
      var k := FirstIncomplete(artifacts[1..]);
      assert forall i :: 0 < i < k + 1 ==> artifacts[i] == artifacts[1..][i - 1];
      k + 1
  }

  /** No buffer is longer than its artifact. */
  ghost predicate Bounded(artifacts: seq<ArtifactProgress>) {
    forall i :: 0 <= i < |artifacts| ==> |artifacts[i].buf| <= artifacts[i].entry.len
  }

  function NextPendingChunk(artifacts: seq<ArtifactProgress>, chunkLenMax: nat): Option<Chunk>
    requires Bounded(artifacts)
  {
    var k := FirstIncomplete(artifacts);
    if k == |artifacts| then None
    else
      var offset := |artifacts[k].buf|;
      Some(Chunk(U32(k), offset, U32(Min(artifacts[k].entry.len - offset, chunkLenMax))))
  }

  /** A frame lands only at the frontier of the first incomplete artifact, with bytes that fit. */
  predicate Accepts(artifacts: seq<ArtifactProgress>, f: Frame) {
    && f.index < |artifacts| && f.index == FirstIncomplete(artifacts)
    && f.offset == |artifacts[f.index].buf| && f.offset + |f.payload| <= artifacts[f.index].entry.len
    && f.payload != []
  }

  function Appended(artifacts: seq<ArtifactProgress>, f: Frame): (after: seq<ArtifactProgress>)
    ensures |after| == |artifacts|
  {
    if Accepts(artifacts, f)
    then artifacts[f.index := artifacts[f.index].(buf := artifacts[f.index].buf + f.payload)]
    else artifacts
  }

  /** Appends one received chunk in place; `true` only when bytes landed. */
  method AppendChunk(artifacts: array<ArtifactProgress>, f: Frame) returns (landed: bool)
    modifies artifacts
    ensures landed == Accepts(old(artifacts[..]), f)
    ensures artifacts[..] == Appended(old(artifacts[..]), f)
  {
    var first := 0;
    while first < artifacts.Length && artifacts[first].Complete()
      invariant 0 <= first <= artifacts.Length
      invariant forall i :: 0 <= i < first ==> artifacts[i].Complete()
    {
      first := first + 1;
    }
    ghost var before := artifacts[..];
    assert first == FirstIncomplete(before) by { FirstIs(before, first); }
    if first != f.index || f.index >= artifacts.Length {
      return false;
    }
    var artifact := artifacts[f.index];
    if f.offset != |artifact.buf| || |artifact.buf| + |f.payload| > artifact.entry.len || f.payload == [] {
      return false;
    }
    artifacts[f.index] := artifact.(buf := artifact.buf + f.payload);
    return true;
  }

  lemma FirstIs(artifacts: seq<ArtifactProgress>, k: nat)
    requires k <= |artifacts| && (k < |artifacts| ==> !artifacts[k].Complete())
    requires forall i :: 0 <= i < k ==> artifacts[i].Complete()
    ensures FirstIncomplete(artifacts) == k
  {
  }

  // ----- Honest frames -----

  /** The frame carries the artifact's own bytes. */
  predicate Honest(files: seq<seq<Byte>>, f: Frame) {
    f.index < |files| && f.offset + |f.payload| <= |files[f.index]| ==>
      f.payload == files[f.index][f.offset..f.offset + |f.payload|]
  }

  /** Copying in manifest order: full copies, then a partial one, then nothing. */
  ghost predicate Copying(artifacts: seq<ArtifactProgress>, files: seq<seq<Byte>>) {
    && |artifacts| == |files|
    && (forall i :: 0 <= i < |files| ==> artifacts[i].entry.len == |files[i]| && artifacts[i].buf <= files[i])
    && (forall i :: FirstIncomplete(artifacts) < i < |files| ==> artifacts[i].buf == [])
  }

  /** Before the first incomplete artifact everything is an exact copy. */
  lemma CopiedSoFar(artifacts: seq<ArtifactProgress>, files: seq<seq<Byte>>)
    requires Copying(artifacts, files)
    ensures Bounded(artifacts) && forall i :: 0 <= i < FirstIncomplete(artifacts) ==> artifacts[i].buf == files[i]
  {
    forall i | 0 <= i < FirstIncomplete(artifacts) ensures artifacts[i].buf == files[i] {
      assert artifacts[i].Complete();
    }
  }

  /** An accepted frame sits exactly where the next request points. */
  lemma AcceptedIsRequested(artifacts: seq<ArtifactProgress>, files: seq<seq<Byte>>, f: Frame, chunkLenMax: nat)
    requires Copying(artifacts, files) && |files| <= STATE_MANIFEST_ENTRIES_MAX
    ensures Bounded(artifacts)
    ensures Accepts(artifacts, f) <==>
      && NextPendingChunk(artifacts, chunkLenMax).Some?
      && f.index == NextPendingChunk(artifacts, chunkLenMax).value.index
      && f.offset == NextPendingChunk(artifacts, chunkLenMax).value.offset
      && 0 < |f.payload| <= artifacts[f.index].entry.len - f.offset
  {
    CopiedSoFar(artifacts, files);
  }

  /** One honest frame, good or bad, keeps the copies. */
  lemma AppendKeepsCopying(artifacts: seq<ArtifactProgress>, files: seq<seq<Byte>>, f: Frame)
    requires Copying(artifacts, files) && Honest(files, f)
    ensures Copying(Appended(artifacts, f), files)
  {
    if Accepts(artifacts, f) {
      var k := f.index;
      var after := Appended(artifacts, f);
      PrefixGrows(artifacts[k].buf, files[k], f.payload);
      FirstMoves(artifacts, after, k);
    }
  }

  lemma PrefixGrows(buf: seq<Byte>, file: seq<Byte>, payload: seq<Byte>)
    requires buf <= file && |buf| + |payload| <= |file| && payload == file[|buf|..|buf| + |payload|]
    ensures buf + payload <= file
  {
  }

  /** Filling the first incomplete artifact can only move the frontier forward. */
  lemma FirstMoves(before: seq<ArtifactProgress>, after: seq<ArtifactProgress>, k: nat)
    requires |before| == |after| && k == FirstIncomplete(before) < |before|
    requires forall i :: 0 <= i < |before| && i != k ==> after[i] == before[i]
    ensures FirstIncomplete(after) >= k
  {
  }

  // ----- Progress -----

  function Remaining(artifacts: seq<ArtifactProgress>): nat
    requires Bounded(artifacts)
  {
    if artifacts == [] then 0
    else
      assert forall i :: 0 <= i < |artifacts| - 1 ==> artifacts[1..][i] == artifacts[i + 1];
      artifacts[0].entry.len - |artifacts[0].buf| + Remaining(artifacts[1..])
  }

  lemma {:induction false} RemainingAfter(artifacts: seq<ArtifactProgress>, k: nat, payload: seq<Byte>)
    requires Bounded(artifacts) && k < |artifacts| && |artifacts[k].buf| + |payload| <= artifacts[k].entry.len
    ensures var after := artifacts[k := artifacts[k].(buf := artifacts[k].buf + payload)];
            Bounded(after) && Remaining(after) == Remaining(artifacts) - |payload|
    decreases |artifacts|
  {
    var after := artifacts[k := artifacts[k].(buf := artifacts[k].buf + payload)];
    if k > 0 {
      assert forall i :: 0 <= i < |artifacts| - 1 ==> artifacts[1..][i] == artifacts[i + 1];
      RemainingAfter(artifacts[1..], k - 1, payload);
      assert after[1..] == artifacts[1..][k - 1 := artifacts[k].(buf := artifacts[k].buf + payload)];
    } else {
      assert after[1..] == artifacts[1..];
    }
  }

  /** Every landed frame takes its payload off what remains; every other frame takes nothing. */
  lemma AppendProgress(artifacts: seq<ArtifactProgress>, f: Frame)
    requires Bounded(artifacts)
    ensures Bounded(Appended(artifacts, f))
    ensures Remaining(Appended(artifacts, f)) == Remaining(artifacts) - if Accepts(artifacts, f) then |f.payload| else 0
  {
    if Accepts(artifacts, f) {
      RemainingAfter(artifacts, f.index, f.payload);
    }
  }

  lemma {:induction false} NothingRemains(artifacts: seq<ArtifactProgress>)
    requires Bounded(artifacts)
    ensures Remaining(artifacts) == 0 <==> FirstIncomplete(artifacts) == |artifacts|
    decreases |artifacts|
  {
    if artifacts != [] {
      assert forall i :: 0 <= i < |artifacts| - 1 ==> artifacts[1..][i] == artifacts[i + 1];
      NothingRemains(artifacts[1..]);
    }
  }

  // ----- Frame sequences -----

  function Received(artifacts: seq<ArtifactProgress>, frames: seq<Frame>): seq<ArtifactProgress>
    decreases |frames|
  {
    if frames == [] then artifacts else Received(Appended(artifacts, frames[0]), frames[1..])
  }

  function Landed(artifacts: seq<ArtifactProgress>, frames: seq<Frame>): nat
    decreases |frames|
  {
    if frames == [] then 0
    else (if Accepts(artifacts, frames[0]) then 1 else 0) + Landed(Appended(artifacts, frames[0]), frames[1..])
  }

  /** Over any frames with honest bytes the copies stay copies, and only so many frames can land. */
  lemma {:induction false} AnyFramesKeepCopying(artifacts: seq<ArtifactProgress>, files: seq<seq<Byte>>, frames: seq<Frame>)
    requires Copying(artifacts, files) && forall i :: 0 <= i < |frames| ==> Honest(files, frames[i])
    ensures Copying(Received(artifacts, frames), files)
    ensures Bounded(artifacts) && Bounded(Received(artifacts, frames))
    ensures Landed(artifacts, frames) + Remaining(Received(artifacts, frames)) <= Remaining(artifacts)
    decreases |frames|
  {
    hide Honest, Accepts, Appended;
    CopiedSoFar(artifacts, files);
    if frames != [] {
      AppendKeepsCopying(artifacts, files, frames[0]);
      LandedCounts(artifacts, frames[0]);
      assert forall i :: 0 <= i < |frames| - 1 ==> frames[1..][i] == frames[i + 1];
      AnyFramesKeepCopying(Appended(artifacts, frames[0]), files, frames[1..]);
    }
  }

  lemma LandedCounts(artifacts: seq<ArtifactProgress>, f: Frame)
    requires Bounded(artifacts)
    ensures Bounded(Appended(artifacts, f))
    ensures Remaining(Appended(artifacts, f)) <= Remaining(artifacts) - if Accepts(artifacts, f) then 1 else 0
  {
    AppendProgress(artifacts, f);
  }

  /** Once nothing is pending, every artifact is an exact copy and passes its integrity stamp. */
  lemma CompleteIsExact(artifacts: seq<ArtifactProgress>, files: seq<seq<Byte>>, chunkLenMax: nat, hash: Hash)
    requires Copying(artifacts, files) && Bounded(artifacts) && NextPendingChunk(artifacts, chunkLenMax).None?
    requires forall i :: 0 <= i < |files| ==> artifacts[i].entry.checksum == hash(files[i])
    ensures forall i :: 0 <= i < |files| ==> artifacts[i].buf == files[i] && VerifyStateArtifact(artifacts[i].entry, artifacts[i].buf, hash)
  {
    CopiedSoFar(artifacts, files);
  }

  predicate VerifyStateArtifact(entry: StateArtifact, bytes: seq<Byte>, hash: Hash) {
    |bytes| == entry.len && hash(bytes) == entry.checksum
  }

  /** An artifact stamped from a file accepts exactly the bytes that have that file's length and hash. */
  lemma StampAccepts(entry: StateArtifact, file: seq<Byte>, bytes: seq<Byte>, hash: Hash)
    requires entry.len == |file| && entry.checksum == hash(file)
    ensures VerifyStateArtifact(entry, bytes, hash) <==> |bytes| == |file| && hash(bytes) == hash(file)
  {
  }

  // ----- The lockstep loop -----

  /** Requests, receives and appends one chunk at a time until every artifact is copied. */
  method Pull(artifacts: array<ArtifactProgress>, files: seq<seq<Byte>>, chunkLenMax: nat)
    requires Copying(artifacts[..], files) && |files| <= STATE_MANIFEST_ENTRIES_MAX && 0 < chunkLenMax < 0x1_0000_0000
    modifies artifacts
    ensures artifacts.Length == |files| && forall i :: 0 <= i < |files| ==> artifacts[i].buf == files[i]
  {
    hide Accepts, Appended, Honest, NextPendingChunk;
    CopiedSoFar(artifacts[..], files);
    var next := NextPendingChunk(artifacts[..], chunkLenMax);
    while next.Some?
      invariant Copying(artifacts[..], files) && Bounded(artifacts[..]) && next == NextPendingChunk(artifacts[..], chunkLenMax)
      decreases Remaining(artifacts[..])
    {
      var chunk := next.value;
      RequestIsServed(artifacts[..], files, chunkLenMax);
      var frame := Frame(chunk.index, chunk.offset, files[chunk.index][chunk.offset..chunk.offset + chunk.len]);
      AppendKeepsCopying(artifacts[..], files, frame);
      LandedCounts(artifacts[..], frame);
      var landed := AppendChunk(artifacts, frame);
      CopiedSoFar(artifacts[..], files);
      next := NextPendingChunk(artifacts[..], chunkLenMax);
    }
    AllCopied(artifacts[..], files, chunkLenMax);
    assert forall i :: 0 <= i < |files| ==> artifacts[i] == artifacts[..][i];
  }

  /** The chunk requested next lies within its artifact, and the frame that answers it lands. */
  lemma RequestIsServed(artifacts: seq<ArtifactProgress>, files: seq<seq<Byte>>, chunkLenMax: nat)
    requires Copying(artifacts, files) && Bounded(artifacts) && |files| <= STATE_MANIFEST_ENTRIES_MAX && 0 < chunkLenMax < 0x1_0000_0000
    requires NextPendingChunk(artifacts, chunkLenMax).Some?
    ensures var chunk := NextPendingChunk(artifacts, chunkLenMax).value;
            && chunk.index < |files| && chunk.offset + chunk.len <= |files[chunk.index]| && 0 < chunk.len <= chunkLenMax
            && (chunk.len == chunkLenMax || chunk.offset + chunk.len == |files[chunk.index]|)
            && var frame := Frame(chunk.index, chunk.offset, files[chunk.index][chunk.offset..chunk.offset + chunk.len]);
            Honest(files, frame) && Accepts(artifacts, frame)
  {
  }

  lemma AllCopied(artifacts: seq<ArtifactProgress>, files: seq<seq<Byte>>, chunkLenMax: nat)
    requires Copying(artifacts, files) && Bounded(artifacts) && NextPendingChunk(artifacts, chunkLenMax).None?
    ensures forall i :: 0 <= i < |files| ==> artifacts[i].buf == files[i]
  {
    CopiedSoFar(artifacts, files);
  }
}
