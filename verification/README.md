# Iggy's replication core, modelled and proved in Dafny

Iggy replicates its metadata and its partitions with Viewstamped Replication. This project models
the decision logic of that replication core and proves what the source's comments and
documentation promise about it:

- **View change** (`Quorum`, `DvcMergeSpec`, `DvcMerge`, `DvcMergeTheorems`, `DvcOutcomes`, `DvcWaiting`,
  `DvcHistory`, `DvcClaims`, `DvcTrust`, `DvcGaps`, `MergedView`). From a quorum of `DoViewChange` votes
  the new primary decides, op by op, whether a possibly uncommitted op is kept, truncated, waited for or
  refused. The loops of the source are methods proved against specification functions; the theorems say
  exactly when a view starts, waits or is refused, with exactly which log, and which acknowledged ops
  survive, also when members of the acknowledging quorum lost their tails or their whole logs.
- **Client table** (`ClientEntry`, `ClientBook`, `Slots`, `ClientTable`, `Window`, `PartitionBook`,
  `ReplyRing`). Sessions, epochs, watermarks, the reply ring, the slot allocator and the partition
  window. The class `ClientTable` updates slots and index in place and is proved to act on its
  contents as the map functions of `ClientBook` and `PartitionBook` do.
- **At-most-once execution** (`MetadataLog`, `Preflight`, `AtMostOnce`, `Protection`, `Cluster`,
  `ClusterRuns`, `ClusterAnswers`, `ExpiryNumberGap`, `SessionFence`, `SessionLaws`). A state machine of a
  whole cluster: preflight, a prepare queue with parked requests, logout and lease expiry, in-order apply, revocation, finalization, re-registration,
  checkpoints, restarts, transfers and view changes. Every run executes each request at most once,
  with one exactly described exception.
- **Recovery** (`LeBytes`, `Snapshot`, `ClientWire`, `ClientWireCodec`, `Recovery`, `TableRecovery`,
  `DecoderLaws`). Every table a run can reach survives both its checkpoint and its transfer encoding, and
  neither decoder accepts anything but a description of the table it returns.
- **State transfer** (`StateManifest`, `StateTransfer`), **consumer-group assignment cache**
  (`AssignmentCache`, `RoundRobin`), **one-shot channel** (`OneShot`) and **message batches** (`Batch`,
  `BatchStream`, `BatchAccepts`, `BatchCodec`).

Hash functions, the message parser and the bind-verifier derivation are function-valued parameters:
nothing is assumed of them beyond their result ranges and what a theorem's hypothesis says. Bit sets of
the view-change suffix are sets of slot numbers; the 128-bit request window is an integer whose bits are
defined by halving. Integers are unbounded unless a width matters, and then it is written out. A cluster
log entry carries the reply bytes its op will produce, because every replica builds them from the prepare.
An op whose own session is over by the time it commits takes no effect, and its reply is not retained.

In the cluster machine a primary's prepare queue shows every op above the commit point it knows, because
view start and restart put the inherited suffix back into it (core/consensus/src/impls.rs:5335-5358).

One comment and the code it describes disagree: core/consensus/src/client_table.rs:929-932 says a
registration always moves the epoch fence, while `commit_register` keeps the epoch of a matching live
registration. The model follows the code.

## Findings

Five promises do not hold of the code as it stands. Each has a concrete input and a condition under
which the code does keep the promise; whether that condition is exact is said with each.

- An acknowledged op can be lost by a view change: when a canonical sender describes nothing
  (`DvcGaps.SilentCanonicalSenderDropsOpOne`), when the highest view is held only by a replica that lost
  its tail (`DvcGaps.LostTailDropsHeldOp`), or when every replica that acknowledged it votes without a
  log (`DvcGaps.ForgottenQuorumDropsTheOp`, `DvcGaps.ForgottenQuorumReplacesTheOp`). `DvcTrust.ViewChangeKeepsAcked`
  proves `DvcTrust.Reaches` exact for how far the head reaches. That the ops below it keep their content
  is proved one way only: when the trusted votes decide, or the highest view is not older than the
  acknowledging one.
- One client, epoch and request number can be logged twice: a client may use u64::MAX, the number its
  lease expiry is later logged under, and the expiry then replaces the request's cached reply
  (`ExpiryNumberGap`). `ClusterRuns.RunsRepeatIff` proves this exact: there is no other way.
  `ClusterRuns.RunsExecuteAtMostOnce` proves that refusing that number on arrival is enough.
- Committing a smaller capacity can cut off a live session (`ClientTable.CountedSessionCanBeCutOff`); it
  does not exactly when no occupied slot lies past the new end (`ClientTable.ResizeKeepsMirrorIff`).
- After exactly 2^64 changes the assignment counter reads as unmoved and a kept answer can be stale
  (`AssignmentCache.WrappedCounterKeepsStale`); with fewer changes `AssignmentCache.KeptAnswersAreCurrent`
  holds. This is one way: past 2^64 an answer may also happen to be current.
- Round-robin polling can skip a partition when its 64-bit cursor wraps
  (`AssignmentCache.WrappedRoundSkipsOne`); `AssignmentCache.RoundVisitsAllIff` is exact: the round does not
  cross the wrap, or the number of partitions divides 2^64.

## Model

| member | source | states |
|---|---|---|
| `Quorum.QuorumsOverlap` | core/consensus/src/impls.rs:2235-2269 | for every replica count, a replication quorum meets every view-change and every nack quorum; replication takes half rounded up, at most three and both of two |
| `Quorum.Record` | core/consensus/src/view_change_quorum.rs:247-257 | one vote per replica: a seat is filled once, and only an untrusted vote at view, op and commit 0 without headers is ever replaced, by a vote that says something |
| `Quorum.DecodeSuffix` | core/consensus/src/view_change_quorum.rs:366-463 | a body decodes exactly when its length, bit sets and every slot satisfy the format; otherwise the error is the first thing wrong, with everything asked before it in order |
| `Quorum.DecodedIsWellFormed` | core/consensus/src/view_change_quorum.rs:366-463 | in a decoded suffix slot i carries op head - i, which is what the merge indexes by |
| `DvcMerge.MergeCommitMax` | core/consensus/src/dvc_merge.rs:142-152 | the greatest of the votes' commit points, their heads less the prepare-queue ceiling and the commits their head headers carry: at least each bound and attained |
| `DvcMerge.LogViewCanonical` | core/consensus/src/dvc_merge.rs:159-161 | the highest log view any vote reports, none exactly when no vote is seated |
| `DvcMerge.CanonicalHeaderAt` | core/consensus/src/dvc_merge.rs:190-213 | the header the canonical senders hold at an op, whether any two differ, and whether one abstains |
| `DvcMerge.TallyOp` | core/consensus/src/dvc_merge.rs:216-307 | the counting loop's nack and copy totals are the sizes of the sets of nacking and body-serving replicas |
| `DvcMerge.NackCountIsCardinality` | core/consensus/src/dvc_merge.rs:216-307 | a replica is counted at most once, so counters can be compared with quorum sizes |
| `DvcMerge.CanonicalHeaders` | core/consensus/src/dvc_merge.rs:313-349 | the collected headers are the hash-chained canonical run, or the chain is refused |
| `DvcMerge.CommittedElsewhere` | core/consensus/src/dvc_merge.rs:371-441 | the collected claims are those of the specification, refused exactly on a dispute |
| `DvcMerge.DecideHead` | core/consensus/src/dvc_merge.rs:563-620 | the walk stops at the first op a nack quorum disowns, waits or refuses as specified |
| `DvcMerge.MergeDvcQuorum` | core/consensus/src/dvc_merge.rs:522-651 | the whole loop computes the specified merge for every set of votes |
| `DvcMerge.MergeViewChange` | core/consensus/src/dvc_merge.rs:466-511 | trusted senders first, then every replica with absence nacks off |
| `DvcMergeSpec.ScanHeadAboveCommit` | core/consensus/src/dvc_merge.rs:563-620 | no walk discards the commit point |
| `DvcMergeTheorems.MergeReadyIff` | core/consensus/src/dvc_merge.rs:522-651 | a view starts with a log if and only if a declarative condition on votes and log holds |
| `DvcMergeTheorems.TruncationNeedsNackQuorum` | core/consensus/src/dvc_merge.rs:572-589 | a head below the highest candidate has a nack quorum at the op just above it |
| `DvcMergeTheorems.CommittedOpsSurvive` | core/consensus/src/dvc_merge.rs:216-307 | if one replication quorum's reporting members hold or abstain on every op up to k, a ready view keeps all of them, each with its canonical header |
| `DvcMergeTheorems.DroppingAbsenceNacksKeepsMore` | core/consensus/src/dvc_merge.rs:53-60 | without absence nacks a ready merge has the same commit point and a head at least as high |
| `DvcOutcomes.NackersAreDisowners` | core/consensus/src/dvc_merge.rs:216-307 | the replicas counted as nacks are those whose own vote proves it: a nack bit, a prepare above its commit without a body, a log ending below the op, another prepare than the top view holds, or a prepare the top view truncated |
| `DvcOutcomes.RecoverableIsAdoptable` | core/consensus/src/dvc_merge.rs:190-307 | an op can be installed exactly when the top senders agree on one prepare of it and some sender has its body |
| `DvcOutcomes.CommitPointIs` | core/consensus/src/dvc_merge.rs:142-152 | the commit point is the one number that bounds every vote's commit, head less the ceiling and head header's commit, and is reached by one of them |
| `DvcOutcomes.EveryOutcome` | core/consensus/src/dvc_merge.rs:522-651 | what every quorum of votes decides, by slots, bits, commits, views and checksums: refuse a dead committed op, wait at or refuse an op neither dead nor recoverable, else start with the live ops below if they can be installed |
| `DvcOutcomes.OutcomeIff` | core/consensus/src/dvc_merge.rs:522-651 | the exact condition of each outcome: awaiting a quorum, awaiting repair at an op, refused at an op, started with a head |
| `DvcOutcomes.DisownedOpIsDropped` | core/consensus/src/dvc_merge.rs:572-589 | an uncommitted op that enough senders disown, each by any of the proofs, is dropped once the ops below are live |
| `DvcWaiting.NewerVoteSettlesIff` | core/consensus/src/dvc_merge.rs:591-625 | whatever a quorum is stuck at, one more vote of a newer view can start it exactly when nothing is known committed, or some op has a prepare too few senders reject and no two senders contest another committed op |
| `DvcWaiting.WaitAboveCommitCanEnd` | core/consensus/src/dvc_merge.rs:608-625 | a wait above the commit point can always end so if the senders do not contest what is committed |
| `DvcWaiting.NackArrives` | core/consensus/src/dvc_merge.rs:608-612 | a sender of the view whose log ends just below the awaited op settles a wait one nack short |
| `DvcWaiting.BodyArrives` | core/consensus/src/dvc_merge.rs:608-612 | a sender of the view that has the missing body lets the walk pass the awaited op |
| `DvcWaiting.ViewWaitsIff` | core/consensus/src/dvc_merge.rs:466-511 | a view change waits for repair exactly while a replica is missing and its trusted senders wait, and for a quorum exactly while both rules lack one |
| `DvcHistory.ReadyLogIsOneHistory` | core/consensus/src/dvc_merge.rs:313-441 | a ready log is one history: consecutive, hash-chained, unanimous, servable, above every commit, extended below by committed claims without gap or repeat |
| `DvcHistory.ElsewhereExtends` | core/consensus/src/dvc_merge.rs:371-441 | corroborated claims continue the installed chain downward and each is some stale sender's committed prepare |
| `DvcClaims.ElsewhereIsComplete` | core/consensus/src/dvc_merge.rs:371-441 | refused exactly when two stale senders report different prepares committed at one op that is not installed; otherwise a committed prepare they report is listed if and only if the entry above names it or a link is unsealed |
| `DvcTrust.ReadyByOneOfTwoRules` | core/consensus/src/dvc_merge.rs:466-511 | a view starts only from a trusted quorum alone or from every replica without absence nacks |
| `DvcTrust.UntrustedVotesChangeNothing` | core/consensus/src/dvc_merge.rs:466-511 | once the trusted senders settle the view, untrusted votes cannot change its log |
| `DvcTrust.AllTrustedStaysDeadlocked` | core/consensus/src/dvc_merge.rs:466-511 | with every sender trusted the second rule never runs |
| `DvcTrust.AckedSurviveIffDescribed` | core/consensus/src/dvc_merge.rs:522-651 | for ops up to k acknowledged in view v, the head reaches k exactly when canonical senders' windows reach every op above the commit point up to it, even if members of the acknowledging quorum vote without any log; unless the highest view is older than v, the kept headers are the acknowledged ones |
| `DvcTrust.TrustedViewKeepsAckedIff` | core/consensus/src/dvc_merge.rs:443-511 | under the trusted rule it survives exactly unless nothing is known committed and no canonical sender describes op 1 |
| `DvcTrust.ViewChangeKeepsAcked` | core/consensus/src/dvc_merge.rs:443-511 | both rules together: the head reaches an acknowledged op if and only if the deciding votes describe it, asking only trusted senders to have kept their tails; untrusted members may cast empty votes; its content is kept if the trusted votes decide or the highest view is not older than the acknowledging one |
| `DvcTrust.ViewFallsShortIffAllEmpty` | core/consensus/src/impls.rs:3871-3905 | the highest reported view is older than the acknowledging one exactly when every acknowledging replica voted empty and nobody else reached it |
| `DvcGaps.SilentCanonicalSenderDropsOpOne` | core/consensus/src/dvc_merge.rs:231-238 | three concrete votes: the view change starts empty because a canonical sender without a suffix turns two held copies of op 1 into nacks |
| `DvcGaps.SilentVotesAcked` | core/consensus/src/dvc_merge.rs:231-238 | those votes do describe an acknowledged op 1 |
| `DvcGaps.LostTailDropsHeldOp` | core/consensus/src/dvc_merge.rs:466-511 | three concrete votes: a lone highest view with a lost tail caps the head below an op another replica holds |
| `DvcGaps.LostTailVotesAcked` | core/consensus/src/dvc_merge.rs:466-511 | those votes do describe an acknowledged op 2 |
| `DvcGaps.ForgottenQuorumDropsTheOp` | core/consensus/src/dvc_merge.rs:443-511 | concrete votes: both acknowledging replicas vote empty and the view starts with an empty log |
| `DvcGaps.ForgottenQuorumReplacesTheOp` | core/consensus/src/dvc_merge.rs:443-511 | concrete votes: both acknowledging replicas vote empty and an older prepare of the same op takes its place |
| `DvcGaps.ForgottenVotesAcked` | core/consensus/src/impls.rs:3871-3905 | those votes meet the hypotheses of the survival theorem |
| `ClientEntry.TrimRing` | core/consensus/src/client_table.rs:1949-1955 | the in-place loop leaves the longest retainable run of newest replies |
| `ClientEntry.TrimKeepsNewest` | core/consensus/src/client_table.rs:138-176 | trimming drops oldest first, keeps the floor of five, and drops nothing the byte budget would have kept |
| `ClientEntry.ValidMetadataProtection` | core/consensus/src/client_table.rs:1855-1898 | the loop accepts exactly the entries both decoders may trust |
| `ClientEntry.FindCachedIs` | core/consensus/src/client_table.rs:1925-1931 | in an ordered ring a request has one reply, whatever the scan order |
| `ReplyRing.RingBound` | core/consensus/src/client_table.rs:1935-1955 | after any run of commits the ring is the tail of the full history, ends with the newest reply, and holds 5 (or all) to 32 replies |
| `ReplyRing.CommitsNeverRegress` | core/consensus/src/client_table.rs:1085-1157 | whatever replies are offered, neither the watermark nor the latest commit falls |
| `ClientBook.BindSession` | core/consensus/src/client_table.rs:629-655 | a credential binds exactly a live registration with that verifier and a zero or equal epoch |
| `Preflight.RequestPreflight` | core/consensus/src/metadata_helpers.rs:88-200 | when a request is dispatched, replayed, evicted, rejected or told to wait, in terms of its pending request, the catch-up gate and the table; dispatched only when nothing of its client is in flight, the primary is caught up and the table says New |
| `Preflight.RegisterPreflight` | core/consensus/src/metadata_helpers.rs:247-300 | when a registration is dispatched, answered with the original epoch, told to wait, or refused and why |
| `Preflight.FirstOf` | core/consensus/src/metadata_helpers.rs:101-123 | the pending request found for a client is the first of its in the queue, and none is missed |
| `Preflight.PendingRequest` | core/consensus/src/metadata_helpers.rs:101-123 | a client has a pending request exactly when the pipeline shows one, and a prepared one comes before a parked one |
| `MetadataLog.ApplySeeded` | core/metadata/src/impls/metadata.rs:921-1113 | applying any op leaves every entry with its latest reply; what each op does to a session is stated by `SessionLaws` |
| `AtMostOnce.OwnOpAdvances` | core/consensus/src/client_table.rs:1085-1157 | a client's own op only raises its watermark, ends its session or opens a newer epoch |
| `AtMostOnce.OthersLeaveEntry` | core/consensus/src/client_table.rs:704-722 | nobody else's op can lower a watermark or revive a session |
| `AtMostOnce.SettledEverAfter` | core/consensus/src/client_table.rs:940-1015 | once an admitted op is applied, no later table admits its number again, except for a request as its session's expiry |
| `AtMostOnce.DisciplinedLogRepeatsIff` | core/consensus/src/metadata_helpers.rs:122-137 | a log whose ops were each admitted against an earlier table, with nothing of their client since, repeats a client, epoch and request exactly where a lease expiry follows a request numbered u64::MAX |
| `AtMostOnce.DisciplinedLogHasNoRepeats` | core/consensus/src/metadata_helpers.rs:122-137 | such a log in which no client request carries the number reserved for expiries repeats no client, epoch and request |
| `Cluster.ApplySame` | core/metadata/src/impls/metadata.rs:921-1113 | replicas that agree on protection apply any op alike, however many replies each still caches |
| `ClusterRuns.NextKeepsInv` | core/consensus/src/metadata_helpers.rs:88-200 | every step of the cluster keeps every replica's table equal to its log prefix and the log disciplined |
| `MergedView.MergedHeadIsAStep` | core/consensus/src/dvc_merge.rs:466-511 | the merged head covers every committed op exactly when the deciding votes reach them; the cut at that head is then a step of the cluster that keeps the committed prefix |
| `ClusterRuns.AdmissionHolds` | core/consensus/src/metadata_helpers.rs:411-463 | what a primary admits against its own table, behind its own pipeline, the log admits |
| `ClusterRuns.LogOutKeepsInv` | core/metadata/src/impls/metadata.rs:3073-3170 | logout may run ahead of apply past ops the pipeline still shows, or wait behind a full queue |
| `ClusterRuns.ExpireKeepsInv` | core/metadata/src/impls/metadata.rs:3192-3240 | lease expiry is admitted like any op of its client |
| `ClusterRuns.RunsRepeatIff` | core/consensus/src/metadata_helpers.rs:88-200 | over every run a client, epoch and request number are in the log twice exactly where a session that used u64::MAX expires |
| `ExpiryNumberGap.ReservedNumberRepeats` | core/metadata/src/impls/metadata.rs:3192-3240 | a concrete run that ends with one client, epoch and request number logged as a request and as an expiry |
| `ExpiryNumberGap.ExpiryTakesTheReply` | core/consensus/src/client_table.rs:743-755 | in every such entry the expiry replaces the request's cached reply, so its retry is refused as another operation |
| `ClusterRuns.RunsExecuteAtMostOnce` | core/consensus/src/metadata_helpers.rs:88-200 | over every run in which no arriving request but a Logout is numbered u64::MAX, no client, epoch and request number is in the log twice |
| `ClusterRuns.RunsReplayTheExecution` | core/consensus/src/client_table.rs:940-1015 | a reply served as a duplicate by any replica is the reply the log's op of that client, epoch, number and operation produces |
| `ClusterRuns.RunsAnswerAlike` | core/consensus/src/client_table.rs:940-1015 | replicas at the same applied op give the same verdict on every request, up to a reply only one of them still caches |
| `ClusterAnswers.RunsAnswerExactly` | core/consensus/src/client_table.rs:940-1015 | over every run and replica, the verdict on any request: fenced or ahead by the order of epochs, new above the watermark, the very reply the ring holds under the same client-facing operation and a mismatch under another, applied when the ring has none; an ended session answers only its own Logout |
| `ClusterAnswers.RunsAdmitByTheLog` | core/consensus/src/client_table.rs:940-1015 | over every run, a live session's request is new to a replica exactly when every op the session ran in the applied log has a lower number |
| `ClusterAnswers.RetrySurvivesPreparation` | core/binary_protocol/src/consensus/operation.rs:136-152 | a retry is answered with the reply of whatever operation its request was prepared as |
| `ClusterAnswers.RunsRevoke` | core/metadata/src/impls/metadata.rs:1083-1130 | over every run, a replica that applied an account change admits no request of a session that user had before it |
| `ClusterAnswers.OnlyTheOpenPrimaryAppends` | core/consensus/src/metadata_helpers.rs:405-463 | requests, registrations and expiries enter the log only on an unceded, normal, settled primary that applied all it knows committed; a logout needs no catching up |
| `SessionFence.OverIsOver` | core/consensus/src/client_table.rs:629-722 | an epoch once ended, superseded or gone is never admitted, attached or bound again; a later registration has a higher epoch |
| `SessionFence.IdentityIsImmutable` | core/consensus/src/client_table.rs:178-203 | over every run epochs never fall, and while an epoch lasts its principal and verifier never change, its watermark never falls and its end never moves |
| `SessionFence.HandlesDieWithTheirSession` | core/consensus/src/client_table.rs:1473-1493 | every attachment of a session that is over is invalid for good |
| `SessionFence.ReloadDropsHandles` | core/consensus/src/client_table.rs:204-226 | a replaced table honours no earlier attachment |
| `SessionFence.LeavesByExactEpoch` | core/consensus/src/client_table.rs:771-794 | an entry leaves the table only by a finalization naming its exact epoch and end |
| `SessionLaws.EndsAndLeavesIff` | core/metadata/src/impls/metadata.rs:1010-1130 | an applied op ends a live session exactly if it is its own logout or expiry or an account change of its user by a session still live, at that very op; it removes an entry exactly if it finalizes its ended identity |
| `SessionLaws.OpensIff` | core/metadata/src/impls/metadata.rs:948-1008 | a client enters the table exactly by its own active registration, as a fresh session of that op |
| `SessionLaws.RefusedIff` | core/metadata/src/impls/metadata.rs:972-1113 | exactly which committed ops a replica cannot apply |
| `SessionLaws.RevokedInLog` | core/metadata/src/impls/metadata.rs:1083-1130 | from an account change on, every table of the log has that user's earlier sessions gone, superseded or ended at that op |
| `SessionLaws.RevocationIsFinal` | core/metadata/src/impls/metadata.rs:1083-1130 | over every later run of the table they stay so and are shut out |
| `SessionLaws.RevocationSparesOthers` | core/metadata/src/stm/authz.rs:116-131 | other users' sessions stay as they were, and an account change whose own session is over ends nobody's |
| `SessionLaws.LeavesIff` | core/consensus/src/client_table.rs:771-794 | over any step an entry leaves exactly when its ended session is finalized by its exact identity |
| `Protection.ReceiptedShape` | core/consensus/src/client_table.rs:1134-1157 | a receipt goes on top of a run of the older replies, and a repeat takes its own reply's place |
| `Protection.ApplyProtected` | core/consensus/src/client_table.rs:1855-1898 | applying an admitted op keeps every entry recoverable and every cached reply traceable to its op |
| `Protection.RecoveredProtected` | core/consensus/src/client_table.rs:850-927 | so does dropping older replies |
| `Recovery.RecoveryNeverForgets` | core/consensus/src/client_table.rs:940-1015 | after recovery every verdict is the same, except that a reply that is gone reads as already applied; New stays exactly New |
| `Recovery.LatestIsAnswered` | core/consensus/src/client_table.rs:1900-1909 | a live session's latest request is answered with its own reply after any recovery |
| `Snapshot.ToSnapshot` | core/consensus/src/client_table.rs:818-844 | the loop lists every occupied slot in slot order |
| `Snapshot.FromSnapshot` | core/consensus/src/client_table.rs:850-927 | the loop restores or refuses exactly as specified, error by error |
| `Snapshot.SnapshotRoundTrip` | core/consensus/src/client_table.rs:818-927 | a checkpoint restores every entry into its own slot with its latest reply, and the same index |
| `ClientWire.ReadEntryOf` | core/consensus/src/client_table.rs:1658-1806 | an encoded entry is read back as the entry without its oldest replies |
| `ClientWire.DecodeInvertsEncode` | core/consensus/src/client_table.rs:1658-1806 | decoding an encoded table succeeds and returns its entries in slot order |
| `ClientWire.ReencodeReproduces` | core/consensus/src/client_table.rs:1658-1700 | encoding the decoded table reproduces the bytes |
| `DecoderLaws.TransferAcceptsOnlyEncodings` | core/consensus/src/client_table.rs:1706-1806 | whatever decodes is the encoding of the table returned: within capacity, one entry a client, each consistent |
| `DecoderLaws.CheckpointAcceptsOnlyDescriptions` | core/consensus/src/client_table.rs:850-927 | whatever restores names every occupied slot once and describes it; slots and index are in step |
| `ClientWireCodec.EncodeTable` | core/consensus/src/client_table.rs:1658-1700 | the buffer loop writes the specified encoding |
| `ClientWireCodec.DecodeTable` | core/consensus/src/client_table.rs:1706-1806 | the cursor loop decodes or refuses as specified, and leaves index and slots mirrored |
| `ClientWireCodec.DecodeRing` | core/consensus/src/client_table.rs:1758-1770 | a ring is read reply by reply, failing at the first malformed one |
| `TableRecovery.DecodedSessions` | core/consensus/src/client_table.rs:1706-1806 | the decoded table's contents are the encoded table's, up to older replies |
| `TableRecovery.RunsTablesRecover` | core/consensus/src/client_table.rs:818-927 | for every run and replica, checkpoint and transfer both succeed, re-encoding reproduces the bytes, and no verdict is forgotten |
| `Slots.IndexCounts` | core/consensus/src/client_table.rs:555-561 | the index has exactly one name per occupied slot |
| `Slots.FreeSlotInRange` | core/consensus/src/client_table.rs:1427-1446 | below capacity a free slot exists under the cap, and the hole scan is skipped exactly when there is no hole |
| `Slots.LazyIsPreallocated` | core/consensus/src/client_table.rs:473-479 | over every run lazy growth seats every client in the slot preallocation would, within capacity |
| `Slots.EndedIdentitiesAre` | core/consensus/src/client_table.rs:704-722 | the sessions revocation reports are exactly those it ends |
| `ClientTable.Retain` | core/consensus/src/client_table.rs:1134-1157 | replacing or pushing a reply in place gives the specified entry |
| `ClientTable.Fold` | core/consensus/src/client_table.rs:1284-1302 | folding a request into an entry's window in place gives the specified entry |
| `ClientTable.ClientTable.WithinCapacity` | core/consensus/src/client_table.rs:1021-1077 | occupancy never exceeds capacity |
| `ClientTable.ClientTable.FirstFreeSlot` | core/consensus/src/client_table.rs:1436-1446 | the slot handed out is the lowest free one, grown only when there is no hole |
| `ClientTable.ClientTable.CommitRegister` | core/consensus/src/client_table.rs:1021-1077 | registers once; a full table, a conflicting owner or an ended identity is refused and changes nothing |
| `ClientTable.ClientTable.CommitReply` | core/consensus/src/client_table.rs:1085-1157 | the receipt is retained, or refused with its reason and no change |
| `ClientTable.ClientTable.CommitLogout` | core/consensus/src/client_table.rs:731-755 | the Logout receipt is retained before its session ends; a failure changes nothing |
| `ClientTable.ClientTable.EndSession` | core/consensus/src/client_table.rs:683-701 | ends exactly the named live session |
| `ClientTable.ClientTable.EndUserSessions` | core/consensus/src/client_table.rs:704-722 | the slot loop ends every live session of the user and lists exactly those |
| `ClientTable.ClientTable.ForgetSession` | core/consensus/src/client_table.rs:771-784 | frees the slot of exactly the named epoch |
| `ClientTable.ClientTable.FinalizeSession` | core/consensus/src/client_table.rs:786-794 | drops only a session that ended at the op named |
| `ClientTable.ClientTable.CommitCapacity` | core/consensus/src/client_table.rs:800-814 | when a capacity is accepted; the table stays sound, with the same contents, exactly when no occupied slot lies past it |
| `ClientTable.ResizeKeepsMirrorIff` | core/consensus/src/client_table.rs:808-811 | resizing keeps slots and index in step exactly when no occupied slot lies past the new end |
| `ClientTable.CountedSessionCanBeCutOff` | core/consensus/src/client_table.rs:800-814 | a concrete table that passes the occupancy check and still loses its session |
| `ClientTable.ClientTable.CheckRequest` | core/consensus/src/client_table.rs:940-1015 | the in-place lookup gives the specified verdict, fenced by epoch on the metadata plane only |
| `ClientTable.ClientTable.AttachSession` | core/consensus/src/client_table.rs:1473-1493 | a handle is given exactly to a live session of that epoch and user, and is valid |
| `ClientTable.ClientTable.BindSession` | core/consensus/src/client_table.rs:629-655 | binding succeeds or fails as specified and attaches |
| `ClientTable.ClientTable.CheckPartitionRequest` | core/consensus/src/client_table.rs:1162-1197 | the in-place lookup gives the specified partition verdict |
| `ClientTable.ClientTable.CommitRequest` | core/consensus/src/client_table.rs:1263-1320 | folds the identity in, or refuses without change |
| `ClientTable.ClientTable.CommitPartitionReply` | core/consensus/src/client_table.rs:1206-1248 | retains the receipt and answers with the first committed result, or refuses without change |
| `ClientTable.ClientTable.WatermarksSorted` | core/consensus/src/client_table.rs:1397-1417 | lists every entry once, ascending by client |
| `ClientTable.ClientTable.InstallWatermarks` | core/consensus/src/client_table.rs:1328-1392 | replaces the table atomically; a refused install leaves it untouched |
| `Window.FoldRefines` | core/consensus/src/client_table.rs:1284-1302 | shifting and marking the 128-bit word adds exactly one request to the set it stands for |
| `Window.WindowRefinesSet` | core/consensus/src/client_table.rs:1263-1320 | after any commits, in any order and with repeats, the watermark is the maximum and bit i is set iff watermark - i was committed |
| `Window.CheckedBySet` | core/consensus/src/client_table.rs:1840-1853 | the verdict is set membership inside the window |
| `Window.OrderIrrelevant` | core/consensus/src/client_table.rs:1250-1320 | the window depends only on which requests committed |
| `PartitionBook.CommitKeepsPinned` | core/consensus/src/client_table.rs:1233-1248 | a late lower request never displaces the pinned receipt; a newer one replaces it; a repeat of the pinned request is answered with its first result |
| `PartitionBook.AcceptsIff` | core/consensus/src/client_table.rs:1206-1248 | a receipt is taken exactly when it is a partition's own, from the known principal and session or from a new client with room for it |
| `PartitionBook.OnePrincipal` | core/consensus/src/client_table.rs:1206-1248 | over every run all a client got accepted came from one principal under one session |
| `PartitionBook.PinnedIsFirst` | core/consensus/src/client_table.rs:1233-1248 | over every run the pinned receipt is the first result of the client's highest accepted request |
| `PartitionBook.FoldMovesCommit` | core/consensus/src/client_table.rs:1284-1302 | in commit order a new request moves the latest commit and a repeat leaves the entry alone |
| `PartitionBook.CommittedWindow` | core/consensus/src/client_table.rs:1206-1320 | every entry's window is what its client's accepted requests make of it |
| `PartitionBook.PartitionVerdictBySet` | core/consensus/src/client_table.rs:1162-1197 | a partition admits a session's request exactly by membership among that client's accepted requests |
| `PartitionBook.PartitionAnswersExactly` | core/consensus/src/client_table.rs:1162-1197 | over every run the whole partition verdict: fenced, new, the pinned reply, a mismatch, or applied |
| `PartitionBook.ReceiptsTransferExactly` | core/consensus/src/client_table.rs:1328-1417 | a table reached by partition commits exports and installs as itself, replies included |
| `PartitionBook.InstallAcceptsOnlyExports` | core/consensus/src/client_table.rs:1328-1392 | an install that succeeds holds exactly the watermarks given, one a client, each as it was exported |
| `LeBytes.FromLeOfLe` | core/consensus/src/le_cursor.rs:59-90 | decoding inverts little-endian encoding for every integer that fits |
| `LeBytes.LeCursor.Take` | core/consensus/src/le_cursor.rs:48-57 | consumes exactly the bytes returned, nothing on failure |
| `LeBytes.LeCursor.ReadInt` | core/consensus/src/le_cursor.rs:59-90 | reads an integer of the given width or reports truncation |
| `LeBytes.SplitVerifiedTrailer` | core/consensus/src/le_cursor.rs:105-115 | accepts exactly the sealed bodies and returns what was sealed |
| `StateManifest.EncodeStateManifest` | core/consensus/src/state_manifest.rs:192-211 | the buffer loop writes the specified encoding |
| `StateManifest.DecodeStateManifest` | core/consensus/src/state_manifest.rs:225-258 | the cursor loop decodes or refuses as specified |
| `StateManifest.DecodeInvertsEncode` | core/consensus/src/state_manifest.rs:192-258 | for every list up to 65536, every entry length from 25 to 255 and any tail bytes, decode returns the list |
| `StateManifest.DecodeAcceptsOnlyEncodings` | core/consensus/src/state_manifest.rs:225-258 | whatever decodes is an encoding of the result, fully consumed |
| `StateTransfer.AppendChunk` | core/consensus/src/state_transfer.rs:151-185 | the in-place append accepts exactly the frontier frame and changes nothing else |
| `StateTransfer.AcceptedIsRequested` | core/consensus/src/state_transfer.rs:116-185 | a frame lands exactly where the next request points |
| `StateTransfer.RequestIsServed` | core/consensus/src/state_transfer.rs:116-130 | the next request is non-empty, inside its artifact, as long as allowed or up to its end, and the frame that answers it lands |
| `StateTransfer.AnyFramesKeepCopying` | core/consensus/src/state_transfer.rs:132-185 | over any frames with honest bytes buffers stay prefixes, full before the frontier and empty after it, and only as many frames land as bytes remain |
| `StateTransfer.AppendProgress` | core/consensus/src/state_transfer.rs:151-185 | each landed frame takes its payload off what remains, any other frame nothing |
| `StateTransfer.NothingRemains` | core/consensus/src/state_transfer.rs:116-130 | no byte remains exactly when no artifact is pending |
| `StateTransfer.Pull` | core/consensus/src/state_transfer.rs:116-185 | the lockstep loop ends, with exact copies |
| `StateTransfer.CompleteIsExact` | core/consensus/src/state_transfer.rs:187-196 | once nothing is pending every artifact is exact and passes its stamp |
| `StateTransfer.StampAccepts` | core/consensus/src/state_transfer.rs:187-196 | an artifact stamped from a file accepts exactly the bytes of that length and hash |
| `AssignmentCache.ConsumerGroupClientState.IsCurrentAssignment` | core/common/src/consumer_group_client_state.rs:113-128 | the scan answers whether the version and partition are current |
| `AssignmentCache.ConsumerGroupClientState.AssignmentSnapshot` | core/common/src/consumer_group_client_state.rs:92-104 | for a joined group, the captured partitions are exactly those current under the captured version |
| `AssignmentCache.ConsumerGroupClientState.DoApplyGroupAssignment` | core/common/src/consumer_group_client_state.rs:344-365 | publishes membership and assignment together, only for the session that asked |
| `AssignmentCache.ConsumerGroupClientState.DoClearSessionScoped` | core/common/src/consumer_group_client_state.rs:326-337 | drops what the session owned and moves the counter |
| `AssignmentCache.CursorIsInvisible` | core/common/src/consumer_group_client_state.rs:157-170 | moving a poll cursor changes no verdict |
| `AssignmentCache.CurrentAfter` | core/common/src/consumer_group_client_state.rs:113-365 | what is current after each change: exactly the assigned partitions under the assigned version, nothing after a drop, a leave or a reset, and no other group touched |
| `AssignmentCache.CursorRestarts` | core/common/src/consumer_group_client_state.rs:81-88 | a new generation restarts the poll cursor, the same one goes on |
| `AssignmentCache.RoundVisitsAllIff` | core/common/src/consumer_group_client_state.rs:157-170 | as many polls as partitions visit each once, exactly unless the cursor wraps in between and the partitions do not divide 2^64 |
| `AssignmentCache.WrappedRoundSkipsOne` | core/common/src/consumer_group_client_state.rs:157-170 | a concrete round of three that visits one partition twice and one never |
| `AssignmentCache.ConsumerGroupClientState.DoSetAssignment` | core/common/src/consumer_group_client_state.rs:144-149 | publishes the assignment and moves the counter |
| `AssignmentCache.ConsumerGroupClientState.NextGroupPartition` | core/common/src/consumer_group_client_state.rs:157-170 | answers and advances the poll cursor, leaving the counter alone |
| `AssignmentCache.StepKeepsInv` | core/common/src/consumer_group_client_state.rs:367-377 | every interleaved step keeps: under an unmoved count a kept answer is current and nobody is mid-change |
| `AssignmentCache.KeptAnswersAreCurrent` | core/common/src/consumer_group_client_state.rs:106-128 | in every interleaving an answer kept under an unchanged 64-bit count is current, unless 2^64 changes went by |
| `AssignmentCache.WrappedCounterKeepsStale` | core/common/src/consumer_group_client_state.rs:371-377 | a run of exactly 2^64 changes after which the kept answer is stale |
| `AssignmentCache.ResetFencesVersions` | core/common/src/consumer_group_client_state.rs:326-337 | a version captured before a session reset is never current again, whatever is assigned later |
| `AssignmentCache.ResetFencesEveryRun` | core/common/src/consumer_group_client_state.rs:326-365 | the same over every interleaving with a reset |
| `OneShot.Channel.Send` | core/consensus/src/oneshot.rs:141-182 | delivers or returns the value, wakes a waiting receiver; the remaining arms are unreachable |
| `OneShot.Channel.DropSender` | core/consensus/src/oneshot.rs:185-199 | cancels a receiver that got nothing and wakes it |
| `OneShot.Channel.PollReceiver` | core/consensus/src/oneshot.rs:201-235 | pending exactly while the sender lives, with the latest waker stored |
| `OneShot.Channel.DropReceiver` | core/consensus/src/oneshot.rs:243-248 | discards an undelivered value |
| `OneShot.ValuesAreConserved` | core/consensus/src/oneshot.rs:133-248 | over every interleaving each sent value is delivered, returned, discarded or still buffered, exactly once |
| `OneShot.SentOnce` | core/consensus/src/oneshot.rs:141-182 | over every interleaving at most one value is sent |
| `OneShot.PendingIsWoken` | core/consensus/src/oneshot.rs:147-234 | a pending receiver has a live sender holding its latest waker, and the sender's last call wakes it |
| `OneShot.PollAnswers` | core/consensus/src/oneshot.rs:201-235 | over every interleaving a poll waits exactly while the sender lives, resolves with the value sent and not yet picked up, and is otherwise canceled |
| `OneShot.DoneIsFinal` | core/consensus/src/oneshot.rs:224-241 | after completion every poll is canceled and nothing more is sent |
| `Batch.BatchIterator.Next` | core/binary_protocol/src/batch.rs:332-354 | steps to the next frame or stays put at the end or the first malformed one |
| `Batch.AcceptedTiles` | core/binary_protocol/src/batch.rs:391-422 | an accepted batch has exactly its declared number of frames, which concatenate to the blob |
| `Batch.VerifyIff` | core/binary_protocol/src/batch.rs:391-527 | verification accepts exactly the layouts whose frames and header carry their own hashes, with the same view |
| `BatchAccepts.BatchAcceptsOnlyEncodings` | core/binary_protocol/src/batch.rs:391-422 | an accepted batch is the encoding of its header and of as many messages as it declares |
| `BatchAccepts.MetaCovers` | core/binary_protocol/src/batch.rs:439-459 | the hashed header bytes tell any two headers apart by every field but the checksum |
| `BatchStream.DecodeHeaderOf` | core/binary_protocol/src/batch.rs:98-150 | the header decodes from its encoding |
| `BatchStream.WalkFindsMessages` | core/binary_protocol/src/batch.rs:245-354 | walking a blob built from messages finds exactly those messages |
| `BatchStream.EncodedVerifies` | core/binary_protocol/src/batch.rs:424-506 | a batch encoded from sealed messages passes full verification |
| `BatchStream.StreamRoundTrip` | core/binary_protocol/src/batch.rs:366-422 | stepping by batch length over concatenated records recovers every record, at either integrity level |
| `BatchCodec.EncodeInto` | core/binary_protocol/src/batch.rs:138-150 | the in-place writes produce the header and leave the rest of the buffer alone |
| `BatchCodec.CalculateBatchChecksum` | core/binary_protocol/src/batch.rs:439-459 | the streaming loop hashes the header fields and every stored checksum in order |
| `BatchCodec.VerifyAndRecomputeBatchChecksum` | core/binary_protocol/src/batch.rs:474-506 | the one-walk check returns the batch checksum, or the first corrupt frame, or that frames do not tile |
| `BatchCodec.ValidateBatchLayout` | core/binary_protocol/src/batch.rs:513-527 | accepts exactly the blobs whose frames tile |
| `BatchCodec.DecodeBatchSliceWith` | core/binary_protocol/src/batch.rs:391-422 | decodes or refuses as specified at either level |

## Left out

- `AssignmentCache.KeptAnswersAreCurrent`: excludes runs of 2^64 or more changes between two loads of the counter, for which `AssignmentCache.WrappedCounterKeepsStale` shows it false.
- `ClusterRuns.RunsExecuteAtMostOnce`: excludes runs in which a client request other than a Logout arrives numbered u64::MAX, for which `ExpiryNumberGap.ReservedNumberRepeats` shows it false.
- `DvcTrust.ViewChangeKeepsAcked`: does not say when an op keeps its content if every acknowledging replica forgot it, because an older prepare of that op may or may not be the same one; `DvcGaps.ForgottenQuorumReplacesTheOp` is a case where it is not.
- `MergedView.MergedHeadIsAStep`: relates the merged log to the cluster log by its head; the contents are tied by digest only where `DvcTrust.ViewChangeKeepsAcked` ties them.
- The cluster machine has one log, so a view change only cuts it; `MergedView.MergedHeadIsAStep` says when a merged head is such a cut.
- `TableRecovery.RunsTablesRecover`: assumes that reply bytes parse to their own headers and that fields fit the source's integer types.
- The cluster machine does not say that apply never stops a replica: an op the table refuses leaves that replica where it is.
- Prepare/ack replication, timeouts, journal repair and the write-ahead log: only the state admission and apply read is modelled.
- Retry-capacity reservation at registration, the account check and request decoding are parameters of preflight.
- The state machine behind the metadata log (streams, users, permissions): an op carries its reply and the user it revokes.
- `MergedLog::from_start_view`, which rebuilds a log from a `StartView` message: field copies.
- Casting and validating a header's bytes, and its identity checksum, are parameters of the suffix decoder.
- Counters that would wrap only past 2^32 frames in one batch or 2^64 session resets are unbounded.
- Topic cursors and send contexts of the consumer-group state, and the methods that register, deregister or invalidate one group: one-line updates, covered as changes of the interleaving model.
- Reservation sizes of buffers and `reserve_declared`: no effect on contents.
- msgpack encoding of snapshots, blake3 and XxHash3: library code; nothing is claimed about collisions.
- Observability, message transport, framing and namespaces: formatting, forwarding or one-step codecs.
