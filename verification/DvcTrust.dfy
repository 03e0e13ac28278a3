/**
 * Views started from senders some of which lost ops they acknowledged.
 *
 * An op acknowledged in view `v` by a replication quorum is followed into a later
 * merge through what each surviving sender can still say about it.
 */
module DvcTrust {
  import opened Common
  import opened Quorum
  import opened DvcMergeSpec
  import opened DvcMergeTheorems

  // ----- Which rule decided -----

  ghost function TrustedRule(quorums: MergeQuorums): MergeQuorums {
    quorums.(absenceNacks := true)
  }

  ghost function AllReplicasRule(quorums: MergeQuorums): MergeQuorums {
    quorums.(viewChange := quorums.replicaCount, absenceNacks := false)
  }

  /** A view starts only from a quorum of trusted senders alone, or from every replica without absence nacks. */
  lemma ReadyByOneOfTwoRules(q: Votes, quorums: MergeQuorums)
    requires MergeView(q, quorums).Ready?
    ensures || (&& |Reported(TrustedOnly(q))| >= quorums.viewChange
                && MergeView(q, quorums) == Merge(TrustedOnly(q), TrustedRule(quorums)))
            || (&& |Reported(q)| >= quorums.replicaCount
                && MergeView(q, quorums) == Merge(q, AllReplicasRule(quorums)))
  {
    hide Merge, Reported;
  }

  /** Once trusted senders settle a view, no untrusted vote changes its log. */
  lemma UntrustedVotesChangeNothing(q: Votes, other: Votes, quorums: MergeQuorums)
    requires TrustedOnly(q) == TrustedOnly(other)
    requires |Reported(TrustedOnly(q))| >= quorums.viewChange
    requires Merge(TrustedOnly(q), TrustedRule(quorums)).Ready?
    ensures MergeView(q, quorums) == MergeView(other, quorums) == Merge(TrustedOnly(q), TrustedRule(quorums))
  {
    hide Merge, Reported;
  }

  /** With every sender trusted the second rule never runs: a detected deadlock stays detected. */
  lemma AllTrustedStaysDeadlocked(q: Votes, quorums: MergeQuorums)
    requires forall r :: 0 <= r < |q| && q[r].Some? ==> !q[r].value.untrustedLog
    requires |Reported(q)| >= quorums.viewChange
    ensures MergeView(q, quorums) == Merge(q, TrustedRule(quorums))
  {
    hide Merge;
    assert TrustedOnly(q) == q;
  }

  // ----- What the senders of an acknowledged history can say -----

  /** Some canonical sender's window reaches the op. */
  ghost predicate Described(q: Votes, lv: nat, op: nat) {
    exists r: nat :: Canonical(q, lv, r) && q[r].value.Covers(op)
  }

  /** A sender that reached view `v` describes only its history, and later ones never disown it. */
  ghost predicate Faithful(dvc: StoredDvc, v: nat, k: nat, digest: nat -> nat) {
    dvc.logView >= v ==> forall op: nat {:trigger dvc.Held(op)} :: 0 < op <= k ==>
      && (dvc.Held(op).Some? ==> dvc.Held(op).value.checksum == digest(op))
      && (dvc.logView > v && dvc.Covers(op) && dvc.Held(op).None? ==> !dvc.Nacks(op))
  }

  /** A member of the acknowledging quorum journaled what it acknowledged. */
  ghost predicate Acknowledges(dvc: StoredDvc, v: nat, k: nat) {
    && dvc.logView >= v
    && forall op: nat {:trigger dvc.Held(op)} :: 0 < op <= k ==>
         !dvc.Nacks(op) && (dvc.Held(op).Some? ==> dvc.OffersBody(op) || op <= dvc.commit)
  }

  /** A member of the acknowledging quorum still has its log, or restarted without one and votes empty. */
  ghost predicate Member(dvc: StoredDvc, v: nat, k: nat) {
    Acknowledges(dvc, v, k) || dvc.IsEmptyVote()
  }

  ghost predicate AckedBy(q: Votes, acked: set<nat>, v: nat, k: nat, digest: nat -> nat) {
    && (forall r :: r in Reported(q) ==> Faithful(q[r].value, v, k, digest))
    && (forall r :: r in acked * Reported(q) ==> Member(q[r].value, v, k))
  }

  /** No sender that acknowledged the op, or adopted a later view, lost its tail. */
  ghost predicate KeptTails(q: Votes, acked: set<nat>, v: nat, k: nat) {
    forall r :: r in Reported(q) && (r in acked || q[r].value.logView > v) ==> q[r].value.op >= k
  }

  ghost predicate Sized(q: Votes, quorums: MergeQuorums, acked: set<nat>) {
    && acked <= Below(quorums.replicaCount) && Reported(q) <= Below(quorums.replicaCount)
    && |acked| + quorums.nackPrepare > quorums.replicaCount
  }

  // ----- No acknowledging member nacks -----

  lemma CanonicalDigest(q: Votes, lv: nat, acked: set<nat>, v: nat, k: nat, digest: nat -> nat, op: nat)
    requires AckedBy(q, acked, v, k, digest) && v <= lv && 0 < op <= k
    ensures Header(q, lv, op).Some? ==> Header(q, lv, op).value.checksum == digest(op)
    ensures Header(q, lv, op).None? && Described(q, lv, op) && v < lv ==> Abstained(q, lv, op)
  {
    hide IsBlank;
    if Header(q, lv, op).Some? {
      var r: nat :| Canonical(q, lv, r) && q[r].value.Held(op) == Header(q, lv, op);
      assert r in Reported(q);
    } else if Described(q, lv, op) && v < lv {
      var r: nat :| Canonical(q, lv, r) && q[r].value.Covers(op);
      assert r in Reported(q);
      assert AbstainsAt(q[r].value, op);
    }
  }

  lemma MemberDoesNotNack(dvc: StoredDvc, canonical: Option<PrepareHeader>, abstained: bool, lv: nat, absence: bool,
                          v: nat, k: nat, digest: nat -> nat, op: nat)
    requires Faithful(dvc, v, k, digest) && Acknowledges(dvc, v, k) && 0 < op <= k
    requires absence ==> dvc.op >= op
    requires canonical.Some? ==> canonical.value.checksum == digest(op)
    requires canonical.None? && dvc.logView < lv ==> abstained
    ensures !NackVote(dvc, canonical, abstained, lv, op, absence)
  {
    hide IsBlank, StoredDvc.Held;
    assert dvc.Held(op).Some? || dvc.Held(op).None?;
  }

  /** The empty vote says nothing about any op. */
  lemma EmptyVoteDoesNotNack(dvc: StoredDvc, canonical: Option<PrepareHeader>, abstained: bool, lv: nat, op: nat)
    requires dvc.IsEmptyVote() && 0 < op
    ensures !NackVote(dvc, canonical, abstained, lv, op, false)
  {
  }

  lemma NoAckedNacker(q: Votes, lv: nat, absence: bool, acked: set<nat>, v: nat, k: nat, digest: nat -> nat, op: nat)
    requires AckedBy(q, acked, v, k, digest) && TopView(q) == Some(lv) && 0 < op <= k
    requires absence ==> KeptTails(q, acked, v, k)
    requires Described(q, lv, op) || v == lv
    ensures acked !! Nackers(q, lv, op, absence)
  {
    hide NackVote, Faithful, Acknowledges, Header, Abstained, Described, TopView;
    forall r: nat | r in acked ensures r !in Nackers(q, lv, op, absence) {
      if r in Reported(q) {
        if q[r].value.IsEmptyVote() {
          EmptyVoteDoesNotNack(q[r].value, Header(q, lv, op), Abstained(q, lv, op), lv, op);
        } else {
          LogViewAtLeast(q[r].value, v, k);
          CanonicalDigest(q, lv, acked, v, k, digest, op);
          MemberDoesNotNack(q[r].value, Header(q, lv, op), Abstained(q, lv, op), lv, absence, v, k, digest, op);
        }
      }
    }
  }

  lemma LogViewAtLeast(dvc: StoredDvc, v: nat, k: nat)
    requires Acknowledges(dvc, v, k)
    ensures dvc.logView >= v
  {
  }

  // ----- Survival, exactly -----

  lemma DescribedReachesHead(q: Votes, lv: nat, op: nat, base: nat)
    requires Described(q, lv, op)
    ensures op <= HeadMax(q, lv, base)
  {
  }

  lemma HeldIsDescribed(q: Votes, lv: nat, op: nat)
    requires Header(q, lv, op).Some?
    ensures Described(q, lv, op)
  {
  }

  /** Every op up to a ready view's head is described by a canonical sender. */
  lemma KeptOpsAreDescribed(q: Votes, quorums: MergeQuorums, log: MergedLog)
    requires ReadyFor(q, quorums, log)
    ensures TopView(q).Some? && log.commitMax <= log.opHead
    ensures forall op: nat :: Max(log.commitMax, 1) <= op <= log.opHead ==> Described(q, TopView(q).value, op)
  {
    hide NackQuorum, ChainsDown, Elsewhere, CommitMax, HeadMax, TopView, Header, Reported, Described, Copiers, Conflict;
    var lv := TopView(q).value;
    forall op: nat | Max(log.commitMax, 1) <= op <= log.opHead ensures Described(q, lv, op) {
      assert Adoptable(q, lv, op);
      HeldIsDescribed(q, lv, op);
    }
  }

  /** A head below `k` is a nack quorum somebody in the acknowledging quorum must be part of. */
  lemma HeadCannotStopBelow(q: Votes, quorums: MergeQuorums, log: MergedLog, acked: set<nat>, v: nat, k: nat, digest: nat -> nat)
    requires ReadyFor(q, quorums, log) && Sized(q, quorums, acked)
    requires AckedBy(q, acked, v, k, digest)
    requires quorums.absenceNacks ==> KeptTails(q, acked, v, k)
    requires k <= HeadMax(q, TopView(q).value, log.commitMax)
    requires v == TopView(q).value || forall op: nat :: log.commitMax < op <= k ==> Described(q, TopView(q).value, op)
    ensures log.opHead >= k
  {
    hide *;
    if log.opHead < k {
      var dead := log.opHead + 1;
      StopIsNacked(q, quorums, log, k);
      NoAckedNacker(q, TopView(q).value, quorums.absenceNacks, acked, v, k, digest, dead);
      SizedMeans(q, quorums, acked);
      NoNackQuorumAgainst(q, quorums, TopView(q).value, dead, acked);
      assert false;
    }
  }

  lemma StopIsNacked(q: Votes, quorums: MergeQuorums, log: MergedLog, k: nat)
    requires ReadyFor(q, quorums, log) && log.opHead < k <= HeadMax(q, TopView(q).value, log.commitMax)
    ensures TopView(q).Some? && log.commitMax <= log.opHead
    ensures NackQuorum(q, quorums, TopView(q).value, log.opHead + 1)
  {
    hide NackQuorum, Adoptable, ChainsDown, Elsewhere, CommitMax, HeadMax, TopView, Reported;
  }

  lemma SizedMeans(q: Votes, quorums: MergeQuorums, acked: set<nat>)
    requires Sized(q, quorums, acked)
    ensures acked <= Below(quorums.replicaCount) && Reported(q) <= Below(quorums.replicaCount)
    ensures |acked| + quorums.nackPrepare > quorums.replicaCount
  {
  }

  /** The log holds the acknowledged prepare at this op, if it reaches it at all. */
  ghost predicate KeepsAt(log: MergedLog, op: nat, digest: nat -> nat) {
    op <= log.opHead ==> log.opHead - op < |log.headers| && log.headers[log.opHead - op].checksum == digest(op)
  }

  /** What a ready view keeps of an acknowledged history is that history, op by op. */
  ghost predicate KeepsHistory(log: MergedLog, k: nat, digest: nat -> nat) {
    forall op: nat :: log.commitMax < op <= k ==> KeepsAt(log, op, digest)
  }

  lemma KeptOpsAreTheAcked(q: Votes, quorums: MergeQuorums, log: MergedLog, acked: set<nat>, v: nat, k: nat, digest: nat -> nat)
    requires ReadyFor(q, quorums, log) && AckedBy(q, acked, v, k, digest) && v <= TopView(q).value
    ensures KeepsHistory(log, k, digest)
  {
    hide AckedBy, TopView, Header, ReadyFor;
    ReadyLogAboveCommit(q, quorums, log);
    forall op: nat | log.commitMax < op <= k ensures KeepsAt(log, op, digest) {
      if op <= log.opHead {
        ReadyLogHeaderAt(q, quorums, log, op);
      }
      CanonicalDigest(q, TopView(q).value, acked, v, k, digest, op);
    }
  }

  /**
   * Acknowledged ops survive a merge exactly as far as canonical senders describe them:
   * true of both rules, however many untrusted senders lost their tails or their whole logs.
   */
  lemma AckedSurviveIffDescribed(q: Votes, quorums: MergeQuorums, acked: set<nat>, v: nat, k: nat, digest: nat -> nat)
    requires Merge(q, quorums).Ready? && Sized(q, quorums, acked)
    requires AckedBy(q, acked, v, k, digest)
    requires quorums.absenceNacks ==> KeptTails(q, acked, v, k)
    ensures TopView(q).Some?
    ensures var log := Merge(q, quorums).log;
            && (log.opHead >= k <==> forall op: nat :: log.commitMax < op <= k ==> Described(q, TopView(q).value, op))
            && (v <= TopView(q).value ==> KeepsHistory(log, k, digest))
  {
    hide *;
    ReadyMerge(q, quorums);
    var log := Merge(q, quorums).log;
    KeptOpsAreDescribed(q, quorums, log);
    MaxWithOne(log.commitMax);
    if v <= TopView(q).value {
      KeptOpsAreTheAcked(q, quorums, log, acked, v, k, digest);
    }
    if forall op: nat :: log.commitMax < op <= k ==> Described(q, TopView(q).value, op) {
      if log.commitMax < k {
        DescribedReachesHead(q, TopView(q).value, k, log.commitMax);
        HeadCannotStopBelow(q, quorums, log, acked, v, k, digest);
      }
    }
  }

  lemma MaxWithOne(n: nat)
    ensures n <= Max(n, 1) <= n + 1
  {
  }

  // ----- Trusted senders -----

  /** A view-change quorum meets the acknowledging quorum, so the canonical view is no older. */
  lemma CanonicalViewReached(q: Votes, quorums: MergeQuorums, acked: set<nat>, v: nat, k: nat, digest: nat -> nat)
    returns (r: nat)
    requires Sized(q, quorums, acked) && AckedBy(q, acked, v, k, digest) && KeptTails(q, acked, v, k) && 0 < k
    requires |Reported(q)| + |acked| > quorums.replicaCount
    ensures r in acked * Reported(q) && TopView(q).Some? && v <= q[r].value.logView <= TopView(q).value
  {
    hide TopView, Faithful;
    QuorumsIntersect(acked, Reported(q), quorums.replicaCount);
    r :| r in acked && r in Reported(q);
    LogViewAtLeast(q[r].value, v, k);
  }

  /** One canonical window that reaches down to an op reaches everything above it, up to its head. */
  lemma DescribedUpward(q: Votes, lv: nat, low: nat, k: nat)
    requires Described(q, lv, low) && forall r: nat :: Canonical(q, lv, r) ==> q[r].value.op >= k
    ensures forall op: nat :: low <= op <= k ==> Described(q, lv, op)
  {
    var r: nat :| Canonical(q, lv, r) && q[r].value.Covers(low);
    forall op: nat | low <= op <= k ensures Described(q, lv, op) {
      assert q[r].value.Covers(op);
    }
  }

  lemma {:induction false} TrustedHeadReachesAcked(q: Votes, quorums: MergeQuorums, log: MergedLog, acked: set<nat>, v: nat, k: nat, digest: nat -> nat)
    requires ReadyFor(q, quorums, log) && Sized(q, quorums, acked)
    requires quorums.viewChange + |acked| > quorums.replicaCount
    requires AckedBy(q, acked, v, k, digest) && KeptTails(q, acked, v, k)
    requires k == 0 || log.commitMax >= 1 || Described(q, TopView(q).value, 1)
    ensures log.opHead >= k
  {
    hide Stops, ChainsDown, Elsewhere, CommitMax, HeadMax, TopView, Described, AckedBy, Sized, Reported;
    KeptOpsAreDescribed(q, quorums, log);
    MaxWithOne(log.commitMax);
    if log.commitMax < k {
      var lv := TopView(q).value;
      var member := CanonicalViewReached(q, quorums, acked, v, k, digest);
      TailsReach(q, lv, acked, v, k, member, log.commitMax);
      if v < lv {
        assert Described(q, lv, Max(log.commitMax, 1));
        DescribedUpward(q, lv, Max(log.commitMax, 1), k);
      }
      HeadCannotStopBelow(q, quorums, log, acked, v, k, digest);
    }
  }

  lemma TailsReach(q: Votes, lv: nat, acked: set<nat>, v: nat, k: nat, member: nat, base: nat)
    requires KeptTails(q, acked, v, k) && member in acked * Reported(q)
    requires v <= q[member].value.logView <= lv && TopView(q) == Some(lv)
    ensures v < lv ==> forall r: nat :: Canonical(q, lv, r) ==> q[r].value.op >= k
    ensures k <= HeadMax(q, lv, base)
  {
    hide HeadMax;
    if v < lv {
      forall r: nat | Canonical(q, lv, r) ensures q[r].value.op >= k {
        assert r in Reported(q);
      }
      var r :| 0 <= r < |q| && q[r].Some? && q[r].value.logView == lv;
      assert Canonical(q, lv, r);
    } else {
      assert Canonical(q, lv, member);
    }
  }

  /**
   * Plain VSR safety of the trusted rule, with its exact gap: an acknowledged op is kept
   * unless nothing is known committed and no canonical sender describes op 1.
   */
  lemma TrustedViewKeepsAckedIff(q: Votes, quorums: MergeQuorums, acked: set<nat>, v: nat, k: nat, digest: nat -> nat)
    requires Merge(q, quorums).Ready? && Sized(q, quorums, acked)
    requires quorums.viewChange + |acked| > quorums.replicaCount
    requires AckedBy(q, acked, v, k, digest) && KeptTails(q, acked, v, k)
    ensures TopView(q).Some?
    ensures var log := Merge(q, quorums).log;
            && (log.opHead >= k <==> k == 0 || log.commitMax >= 1 || Described(q, TopView(q).value, 1))
            && KeepsHistory(log, k, digest)
  {
    hide *;
    ReadyMerge(q, quorums);
    var log := Merge(q, quorums).log;
    KeptOpsAreDescribed(q, quorums, log);
    MaxOfZero();
    if k == 0 || log.commitMax >= 1 || Described(q, TopView(q).value, 1) {
      TrustedHeadReachesAcked(q, quorums, log, acked, v, k, digest);
    }
    if k == 0 {
      NothingToKeep(log, digest);
    } else {
      ReadyReports(q, quorums, log);
      var member := CanonicalViewReached(q, quorums, acked, v, k, digest);
      KeptOpsAreTheAcked(q, quorums, log, acked, v, k, digest);
    }
  }

  lemma ReadyReports(q: Votes, quorums: MergeQuorums, log: MergedLog)
    requires ReadyFor(q, quorums, log)
    ensures |Reported(q)| >= quorums.viewChange
  {
    hide Stops, ChainsDown, Elsewhere;
  }

  lemma NothingToKeep(log: MergedLog, digest: nat -> nat)
    ensures KeepsHistory(log, 0, digest)
  {
  }

  lemma MaxOfZero()
    ensures Max(0, 1) == 1
  {
  }

  // ----- Both rules together -----

  lemma TrustedSubset(q: Votes, quorums: MergeQuorums, acked: set<nat>, v: nat, k: nat, digest: nat -> nat)
    requires Sized(q, quorums, acked) && AckedBy(q, acked, v, k, digest)
    ensures Sized(TrustedOnly(q), TrustedRule(quorums), acked) && AckedBy(TrustedOnly(q), acked, v, k, digest)
  {
    hide Faithful, Acknowledges;
    var t := TrustedOnly(q);
    assert forall r :: r in Reported(t) ==> r in Reported(q) && t[r] == q[r];
  }

  /** A quorum of trusted senders settled the view by itself. */
  ghost predicate TrustedDecide(q: Votes, quorums: MergeQuorums) {
    |Reported(TrustedOnly(q))| >= quorums.viewChange && Merge(TrustedOnly(q), TrustedRule(quorums)).Ready?
  }

  /**
   * The deciding votes describe the history up to `k`: down to the commit point for a trusted
   * quorum, and every op above it when the logs of all replicas decide.
   */
  ghost predicate Reaches(q: Votes, quorums: MergeQuorums, commitMax: nat, k: nat) {
    if TrustedDecide(q, quorums) then
      k == 0 || commitMax >= 1 || (TopView(TrustedOnly(q)).Some? && Described(TrustedOnly(q), TopView(TrustedOnly(q)).value, 1))
    else
      TopView(q).Some? && forall op: nat :: commitMax < op <= k ==> Described(q, TopView(q).value, op)
  }

  lemma DecidingRule(q: Votes, quorums: MergeQuorums)
    requires MergeView(q, quorums).Ready?
    ensures MergeView(q, quorums) ==
      if TrustedDecide(q, quorums) then Merge(TrustedOnly(q), TrustedRule(quorums)) else Merge(q, AllReplicasRule(quorums))
  {
    hide Merge, Reported;
  }

  /**
   * Whichever rule starts the view, an acknowledged op survives it exactly under the rule's own
   * condition, and what survives is the acknowledged history. Only trusted senders are asked to
   * have kept their tails; untrusted members of the quorum may have lost any part of their log.
   */
  lemma ViewChangeKeepsAcked(q: Votes, quorums: MergeQuorums, acked: set<nat>, v: nat, k: nat, digest: nat -> nat)
    requires MergeView(q, quorums).Ready? && Sized(q, quorums, acked)
    requires quorums.viewChange + |acked| > quorums.replicaCount
    requires AckedBy(q, acked, v, k, digest) && KeptTails(TrustedOnly(q), acked, v, k)
    ensures var log := MergeView(q, quorums).log;
            && (log.opHead >= k <==> Reaches(q, quorums, log.commitMax, k))
            && (TrustedDecide(q, quorums) || (TopView(q).Some? && v <= TopView(q).value) ==> KeepsHistory(log, k, digest))
  {
    hide Merge, MergeView, AckedBy, KeptTails, TopView, Described, KeepsHistory, Reported, TrustedOnly;
    DecidingRule(q, quorums);
    RuleSizes(quorums);
    if TrustedDecide(q, quorums) {
      TrustedSubset(q, quorums, acked, v, k, digest);
      TrustedViewKeepsAckedIff(TrustedOnly(q), TrustedRule(quorums), acked, v, k, digest);
    } else {
      AllReplicasSized(q, quorums, acked);
      AckedSurviveIffDescribed(q, AllReplicasRule(quorums), acked, v, k, digest);
    }
  }

  /**
   * Once every replica reported, the highest log view falls short of the acknowledging view only if
   * every replica that acknowledged lost its whole log.
   */
  lemma ViewFallsShortIffAllEmpty(q: Votes, acked: set<nat>, v: nat, k: nat, digest: nat -> nat)
    requires AckedBy(q, acked, v, k, digest) && acked <= Reported(q) && acked != {} && 0 < v
    ensures TopView(q).Some?
    ensures TopView(q).value < v <==>
      (forall r :: r in acked ==> q[r].value.IsEmptyVote()) && forall r :: r in Reported(q) ==> q[r].value.logView < v
  {
    hide Faithful;
    var r :| r in acked;
    assert r in Reported(q);
    forall r | r in acked && TopView(q).value < v ensures q[r].value.IsEmptyVote() {
      assert r in acked * Reported(q);
      if Acknowledges(q[r].value, v, k) {
        LogViewAtLeast(q[r].value, v, k);
      }
    }
  }

  lemma RuleSizes(quorums: MergeQuorums)
    ensures TrustedRule(quorums).viewChange == quorums.viewChange
    ensures TrustedRule(quorums).replicaCount == quorums.replicaCount == AllReplicasRule(quorums).replicaCount
    ensures !AllReplicasRule(quorums).absenceNacks
  {
  }

  lemma AllReplicasSized(q: Votes, quorums: MergeQuorums, acked: set<nat>)
    requires Sized(q, quorums, acked)
    ensures Sized(q, AllReplicasRule(quorums), acked)
  {
  }
}
