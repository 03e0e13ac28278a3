/**
 * What a merged view may rely on: the exact shape of a `Ready` outcome, survival of
 * acknowledged ops, and what untrusted logs can and cannot do.
 */
module DvcMergeTheorems {
  import opened Common
  import opened Quorum
  import opened DvcMergeSpec

  // ----- The walk, characterised -----

  /** Everything a finished walk proves about the ops it passed and the one it stopped at. */
  ghost predicate Stops(q: Votes, quorums: MergeQuorums, lv: nat, top: nat, from: nat, h: nat) {
    && (forall op :: from <= op <= h ==> !NackQuorum(q, quorums, lv, op) && Adoptable(q, lv, op))
    && (h < top ==> NackQuorum(q, quorums, lv, h + 1))
  }

  lemma {:induction false} ScanStops(q: Votes, quorums: MergeQuorums, lv: nat, cm: nat, top: nat, op: nat)
    requires 0 < op <= top + 1 && cm <= op && cm <= top
    ensures var d := Scan(q, quorums, lv, cm, top, op);
            d.Head? ==> op - 1 <= d.op <= top && cm <= d.op && Stops(q, quorums, lv, top, op, d.op)
    ensures var d := Scan(q, quorums, lv, cm, top, op); d.Halt? ==> !d.outcome.Ready?
    decreases top + 1 - op
  {
    hide NackQuorum, Adoptable;
    if op <= top && !NackQuorum(q, quorums, lv, op) && Adoptable(q, lv, op) {
      ScanStops(q, quorums, lv, cm, top, op + 1);
    }
  }

  lemma {:induction false} StopsScan(q: Votes, quorums: MergeQuorums, lv: nat, cm: nat, top: nat, op: nat, h: nat)
    requires 0 < op <= h + 1 && cm <= h <= top
    requires Stops(q, quorums, lv, top, op, h)
    ensures Scan(q, quorums, lv, cm, top, op) == Head(h)
    decreases top + 1 - op
  {
    hide NackQuorum, Adoptable;
    if op <= h {
      StopsScan(q, quorums, lv, cm, top, op + 1, h);
    }
  }

  /** Each header is the agreed canonical one for its op and names the next as parent. */
  ghost predicate ChainsDown(q: Votes, lv: nat, op: nat, floor: nat, hs: seq<PrepareHeader>) {
    && floor <= op && |hs| == op - floor + 1
    && (forall at :: floor <= at <= op ==> !Conflict(q, lv, at) && Header(q, lv, at) == Some(hs[op - at]))
    && (forall i :: 0 <= i < |hs| - 1 ==> hs[i].parent == hs[i + 1].checksum)
  }

  lemma {:induction false} ChainIsDown(q: Votes, lv: nat, op: nat, floor: nat)
    requires floor <= op
    ensures Chain(q, lv, op, floor).Some? ==> ChainsDown(q, lv, op, floor, Chain(q, lv, op, floor).value)
    decreases op - floor
  {
    hide Conflict, Header;
    if op > floor && Chain(q, lv, op, floor).Some? {
      ChainIsDown(q, lv, op - 1, floor);
      var hs := Chain(q, lv, op, floor).value;
      assert forall i :: 0 < i < |hs| ==> hs[i] == hs[1..][i - 1];
    }
  }

  lemma {:induction false} DownIsChain(q: Votes, lv: nat, op: nat, floor: nat, hs: seq<PrepareHeader>)
    requires ChainsDown(q, lv, op, floor, hs)
    ensures Chain(q, lv, op, floor) == Some(hs)
    decreases op - floor
  {
    hide Conflict, Header;
    assert Header(q, lv, op) == Some(hs[op - op]);
    if op == floor {
      assert hs == [hs[0]];
    } else {
      var rest := hs[1..];
      forall at | floor <= at <= op - 1 ensures Header(q, lv, at) == Some(rest[op - 1 - at]) {
        assert rest[op - 1 - at] == hs[op - at];
      }
      DownIsChain(q, lv, op - 1, floor, rest);
      assert hs[0].parent == hs[1].checksum;
      assert hs == [hs[0]] + rest;
    }
  }

  /** A view starts with `log` exactly under these conditions. */
  ghost predicate ReadyFor(q: Votes, quorums: MergeQuorums, log: MergedLog) {
    && |Reported(q)| >= quorums.viewChange && TopView(q).Some?
    && var lv := TopView(q).value;
    var cm := CommitMax(q, quorums.prepareQueueCeiling);
    var top := HeadMax(q, lv, cm);
    && log.commitMax == cm && cm <= log.opHead <= top
    && (top == 0 ==> log == MergedLog(0, 0, [], []))
    && (top > 0 ==>
          && Stops(q, quorums, lv, top, Max(cm, 1), log.opHead)
          && (if log.opHead == 0 then log.headers == []
              else ChainsDown(q, lv, log.opHead, Max(cm, 1), log.headers))
          && Elsewhere(q, lv, log.headers) == Some(log.committedElsewhere))
  }

  lemma ReadyMerge(q: Votes, quorums: MergeQuorums)
    ensures Merge(q, quorums).Ready? ==> ReadyFor(q, quorums, Merge(q, quorums).log)
  {
    hide Scan, Stops, Chain, ChainsDown, Elsewhere, CommitMax, HeadMax, TopView, Reported;
    if Merge(q, quorums).Ready? {
      var lv := TopView(q).value;
      var cm := CommitMax(q, quorums.prepareQueueCeiling);
      var top := HeadMax(q, lv, cm);
      if top > 0 {
        ScanStops(q, quorums, lv, cm, top, Max(cm, 1));
        var opHead := Scan(q, quorums, lv, cm, top, Max(cm, 1)).op;
        if opHead > 0 {
          ChainIsDown(q, lv, opHead, Max(cm, 1));
        }
      }
    }
  }

  lemma MergeReadyIff(q: Votes, quorums: MergeQuorums, log: MergedLog)
    ensures Merge(q, quorums) == Ready(log) <==> ReadyFor(q, quorums, log)
  {
    hide Scan, Stops, Chain, ChainsDown, Elsewhere, CommitMax, HeadMax, TopView, Reported;
    ReadyMerge(q, quorums);
    if ReadyFor(q, quorums, log) {
      var lv := TopView(q).value;
      var cm := CommitMax(q, quorums.prepareQueueCeiling);
      var top := HeadMax(q, lv, cm);
      if top > 0 {
        StopsScan(q, quorums, lv, cm, top, Max(cm, 1), log.opHead);
        if log.opHead > 0 {
          DownIsChain(q, lv, log.opHead, Max(cm, 1), log.headers);
        }
      }
    }
  }

  // ----- A nack quorum is the only way down -----

  lemma TruncationNeedsNackQuorum(q: Votes, quorums: MergeQuorums)
    requires Merge(q, quorums).Ready?
    ensures var lv := TopView(q).value;
            var log := Merge(q, quorums).log;
            log.opHead < HeadMax(q, lv, log.commitMax) ==> NackQuorum(q, quorums, lv, log.opHead + 1)
  {
    hide Merge, NackQuorum, Adoptable, ChainsDown, Elsewhere, CommitMax, HeadMax, TopView, Reported;
    ReadyMerge(q, quorums);
  }

  lemma AbsenceOnlyAddsNacks(q: Votes, quorums: MergeQuorums, lv: nat, op: nat)
    ensures NackQuorum(q, quorums.(absenceNacks := false), lv, op) ==> NackQuorum(q, quorums.(absenceNacks := true), lv, op)
  {
    hide Header, Abstained;
    assert Nackers(q, lv, op, false) <= Nackers(q, lv, op, true);
    SubsetCardinality(Nackers(q, lv, op, false), Nackers(q, lv, op, true));
  }

  /** Without absence nacks the merge keeps the same commit point and at least as much history. */
  lemma DroppingAbsenceNacksKeepsMore(q: Votes, quorums: MergeQuorums)
    requires Merge(q, quorums.(absenceNacks := true)).Ready?
    requires Merge(q, quorums.(absenceNacks := false)).Ready?
    ensures var with := Merge(q, quorums.(absenceNacks := true)).log;
            var without := Merge(q, quorums.(absenceNacks := false)).log;
            without.commitMax == with.commitMax && without.opHead >= with.opHead
  {
    hide *;
    ReadyMerge(q, quorums.(absenceNacks := true));
    ReadyMerge(q, quorums.(absenceNacks := false));
    HeadsCompare(q, quorums, Merge(q, quorums.(absenceNacks := true)).log, Merge(q, quorums.(absenceNacks := false)).log);
  }

  lemma HeadsCompare(q: Votes, quorums: MergeQuorums, with: MergedLog, without: MergedLog)
    requires ReadyFor(q, quorums.(absenceNacks := true), with)
    requires ReadyFor(q, quorums.(absenceNacks := false), without)
    ensures without.commitMax == with.commitMax && without.opHead >= with.opHead
  {
    hide Adoptable, NackQuorum, ChainsDown, Elsewhere, CommitMax, HeadMax, TopView, Reported;
    AbsenceOnlyAddsNacks(q, quorums, TopView(q).value, without.opHead + 1);
  }

  // ----- Acknowledged ops survive -----

  /** The member still vouches for the canonical prepare, or says nothing against it. */
  predicate HoldsOrAbstains(dvc: StoredDvc, checksum: nat, op: nat) {
    && !dvc.Nacks(op)
    && (dvc.Held(op).Some? ==>
          dvc.Held(op).value.checksum == checksum && (dvc.OffersBody(op) || op <= dvc.commit))
  }

  /** A replication quorum none of whose members nacks leaves too few replicas to nack. */
  lemma NoNackQuorumAgainst(q: Votes, quorums: MergeQuorums, lv: nat, op: nat, acked: set<nat>)
    requires acked <= Below(quorums.replicaCount) && Reported(q) <= Below(quorums.replicaCount)
    requires |acked| + quorums.nackPrepare > quorums.replicaCount
    requires acked !! Nackers(q, lv, op, quorums.absenceNacks)
    ensures !NackQuorum(q, quorums, lv, op)
  {
    var nackers := Nackers(q, lv, op, quorums.absenceNacks);
    assert nackers <= Reported(q);
    if |nackers| >= quorums.nackPrepare {
      QuorumsIntersect(acked, nackers, quorums.replicaCount);
      assert false;
    }
  }

  /**
   * If one replication quorum's reporting members hold every op up to `k` as the
   * canonical senders describe it, or abstain, no ready view drops any of them.
   */
  lemma CommittedOpsSurvive(q: Votes, quorums: MergeQuorums, acked: set<nat>, k: nat)
    requires acked <= Below(quorums.replicaCount) && Reported(q) <= Below(quorums.replicaCount)
    requires |acked| + quorums.nackPrepare > quorums.replicaCount
    requires Merge(q, quorums).Ready?
    requires forall op: nat :: Merge(q, quorums).log.commitMax < op <= k ==>
      && Header(q, TopView(q).value, op).Some?
      && forall r :: r in acked * Reported(q) ==>
           q[r].value.op >= op && HoldsOrAbstains(q[r].value, Header(q, TopView(q).value, op).value.checksum, op)
    ensures var log := Merge(q, quorums).log;
            && log.opHead >= k
            && forall op: nat :: log.commitMax < op <= k ==> InstalledAt(q, TopView(q).value, log, op)
  {
    hide *;
    ReadyMerge(q, quorums);
    var log := Merge(q, quorums).log;
    ReadyLogAboveCommit(q, quorums, log);
    if log.opHead < k {
      NobodyNacks(q, quorums, TopView(q).value, log.opHead + 1, acked);
      HeadNeedsNacks(q, quorums, log, k);
      assert false;
    }
    forall op: nat | log.commitMax < op <= k ensures InstalledAt(q, TopView(q).value, log, op) {
      ReadyLogHeaderAt(q, quorums, log, op);
    }
  }

  /** The log installs the canonical header of the op. */
  ghost predicate InstalledAt(q: Votes, lv: nat, log: MergedLog, op: nat) {
    op <= log.opHead && log.opHead - op < |log.headers| && Some(log.headers[log.opHead - op]) == Header(q, lv, op)
  }

  /** The installed header of one uncommitted op is the canonical one. */
  lemma ReadyLogHeaderAt(q: Votes, quorums: MergeQuorums, log: MergedLog, op: nat)
    requires ReadyFor(q, quorums, log) && log.commitMax < op <= log.opHead
    ensures TopView(q).Some? && InstalledAt(q, TopView(q).value, log, op)
  {
    hide Stops, Elsewhere, CommitMax, HeadMax, TopView, Header, Reported;
    var i := log.opHead - op;
    assert ChainsDown(q, TopView(q).value, log.opHead, Max(log.commitMax, 1), log.headers);
    assert i < |log.headers|;
  }

  lemma ReadyLogAboveCommit(q: Votes, quorums: MergeQuorums, log: MergedLog)
    requires ReadyFor(q, quorums, log)
    ensures TopView(q).Some? && log.commitMax <= log.opHead
  {
    hide Stops, Elsewhere, CommitMax, HeadMax, TopView, ChainsDown, Reported;
  }

  /** Stopping below an op some canonical sender holds takes a nack quorum just above the head. */
  lemma HeadNeedsNacks(q: Votes, quorums: MergeQuorums, log: MergedLog, k: nat)
    requires ReadyFor(q, quorums, log)
    requires log.opHead < k && Header(q, TopView(q).value, k).Some?
    ensures NackQuorum(q, quorums, TopView(q).value, log.opHead + 1)
  {
    hide ChainsDown, Elsewhere, CommitMax, HeadMax, TopView, Header, Reported, NackQuorum, Adoptable;
    HeaderBelowHead(q, TopView(q).value, k, log.commitMax);
  }

  /** Members that hold the canonical prepare, or abstain, are no nackers. */
  lemma NobodyNacks(q: Votes, quorums: MergeQuorums, lv: nat, op: nat, acked: set<nat>)
    requires acked <= Below(quorums.replicaCount) && Reported(q) <= Below(quorums.replicaCount)
    requires |acked| + quorums.nackPrepare > quorums.replicaCount
    requires Header(q, lv, op).Some?
    requires forall r :: r in acked * Reported(q) ==>
      q[r].value.op >= op && HoldsOrAbstains(q[r].value, Header(q, lv, op).value.checksum, op)
    ensures !NackQuorum(q, quorums, lv, op)
  {
    hide NackQuorum, Header, Abstained;
    assert acked !! Nackers(q, lv, op, quorums.absenceNacks);
    NoNackQuorumAgainst(q, quorums, lv, op, acked);
  }

  lemma HeaderBelowHead(q: Votes, lv: nat, op: nat, base: nat)
    requires Header(q, lv, op).Some?
    ensures op <= HeadMax(q, lv, base)
  {
    var r: nat :| r < |q| && Canonical(q, lv, r) && q[r].value.Held(op) == Header(q, lv, op);
    assert q[r].value.op >= op;
  }
}
