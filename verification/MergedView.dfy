/**
 * A view change of the cluster, from the votes that decide it: the merged head is a place the
 * log may be cut exactly when the deciding votes describe every committed op.
 */
module MergedView {
  import opened Common
  import opened Quorum
  import opened DvcMergeSpec
  import opened DvcTrust
  import C = Cluster
  import R = ClusterRuns

  /** The committed prefix of the log was acknowledged in view `v` by one replication quorum. */
  ghost predicate CommittedAcked(s: C.State, q: Votes, quorums: MergeQuorums, acked: set<nat>, v: nat, digest: nat -> nat) {
    && Sized(q, quorums, acked) && quorums.viewChange + |acked| > quorums.replicaCount
    && AckedBy(q, acked, v, s.committed, digest) && KeptTails(TrustedOnly(q), acked, v, s.committed)
  }

  /**
   * Cutting the log at the merged head keeps every committed op exactly when the deciding votes
   * reach them. Then it is a step of the cluster, and the new view serves the committed history.
   */
  lemma MergedHeadIsAStep(s: C.State, q: Votes, quorums: MergeQuorums, acked: set<nat>, v: nat, digest: nat -> nat, primary: nat)
    requires C.Inv(s) && primary < |s.replicas| && MergeView(q, quorums).Ready?
    requires CommittedAcked(s, q, quorums, acked, v, digest) && MergeView(q, quorums).log.opHead <= |s.log|
    ensures var log := MergeView(q, quorums).log;
            s.committed <= log.opHead <==> Reaches(q, quorums, log.commitMax, s.committed)
    ensures var log := MergeView(q, quorums).log;
            Reaches(q, quorums, log.commitMax, s.committed) ==>
              var t := R.Stepped(s, C.ViewChange(primary, log.opHead));
              && t.log == s.log[..log.opHead] && t.primary == primary && t.committed == s.committed
              && t.log[..t.committed] == s.log[..s.committed]
    ensures TrustedDecide(q, quorums) || (TopView(q).Some? && v <= TopView(q).value) ==>
      KeepsHistory(MergeView(q, quorums).log, s.committed, digest)
  {
    hide C.Inv, MergeView, Reaches, KeepsHistory, Sized, AckedBy, KeptTails, TopView, TrustedDecide, R.Stepped;
    ViewChangeKeepsAcked(q, quorums, acked, v, s.committed, digest);
    var head := MergeView(q, quorums).log.opHead;
    if s.committed <= head {
      StepIs(s, primary, head);
    }
  }

  lemma StepIs(s: C.State, primary: nat, keep: nat)
    requires C.Inv(s) && primary < |s.replicas| && s.committed <= keep <= |s.log|
    ensures var t := R.Stepped(s, C.ViewChange(primary, keep));
            && t.log == s.log[..keep] && t.primary == primary && t.committed == s.committed
            && t.log[..t.committed] == s.log[..s.committed]
  {
    R.StepHolds(s, C.ViewChange(primary, keep));
    hide C.Inv;
    assert s.log[..keep][..s.committed] == s.log[..s.committed];
  }
}
