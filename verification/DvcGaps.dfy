/**
 * Concrete three-replica votes by which a view change loses an acknowledged op: a canonical
 * sender that describes nothing, a highest view whose only member lost its tail, and a quorum
 * that lost its whole logs. Where the head falls short the votes fail `DvcTrust.Reaches`; where
 * an older prepare takes the op's place the head reaches it and only its content is lost.
 */
module DvcGaps {
  import opened Common
  import opened Quorum
  import opened DvcMergeSpec
  import opened DvcMergeTheorems
  import opened DvcTrust

  /** Three replicas: replication 2, view change 2, nack 2. */
  const THREE := MergeQuorums(2, 2, 3, 127, true)

  const FIRST := PrepareHeader(1, 1, 0, 101, 100, 11, 9)
  const SECOND := PrepareHeader(2, 1, 1, 102, 101, 12, 9)

  function Digest(op: nat): nat {
    100 + op
  }

  /** A vote from `logView` whose log is `headers` down to op 1, all bodies at hand. */
  function Vote(replica: nat, logView: nat, commit: nat, headers: seq<PrepareHeader>, untrusted: bool): StoredDvc {
    StoredDvc(replica, logView, |headers|, commit, DvcSuffix(headers, {}, if |headers| == 1 then {0} else {0, 1}), untrusted)
  }

  function Log(n: nat): seq<PrepareHeader>
    requires 1 <= n <= 2
  {
    if n == 1 then [FIRST] else [SECOND, FIRST]
  }

  /** Such a vote vouches for both ops it holds, as acknowledged in view 1. */
  lemma VoteVouches(replica: nat, logView: nat, commit: nat, n: nat, untrusted: bool)
    requires 1 <= n <= 2 && 1 <= logView
    ensures var dvc := Vote(replica, logView, commit, Log(n), untrusted);
      && dvc.WellFormed() && dvc.Held(1) == Some(FIRST) && dvc.OffersBody(1) && !dvc.Nacks(1)
      && (n == 2 ==> dvc.Held(2) == Some(SECOND)) && (n == 1 ==> !dvc.Covers(2) && dvc.Held(2).None?)
      && Faithful(dvc, 1, 2, Digest) && Acknowledges(dvc, 1, 2)
  {
    var dvc := Vote(replica, logView, commit, Log(n), untrusted);
    assert dvc.suffix.headers[n - 1] == FIRST;
    forall op: nat | 0 < op <= 2
      ensures dvc.Held(op).Some? ==> dvc.Held(op).value.checksum == Digest(op) && dvc.OffersBody(op)
      ensures !dvc.Nacks(op)
    {
      assert op == 1 || op == 2;
    }
  }

  // ----- A canonical sender that describes nothing -----

  /**
   * Replica 0 reached view 2 but sends no suffix; replicas 1 and 2 hold op 1 from view 1
   * with its body. Nothing is known committed.
   */
  function SilentVotes(): Votes {
    [Some(StoredDvc(0, 2, 1, 0, DvcSuffix([], {}, {}), false)),
     Some(Vote(1, 1, 0, Log(1), false)),
     Some(Vote(2, 1, 0, Log(1), false))]
  }

  lemma SilentVotesSized()
    ensures Sized(SilentVotes(), THREE, {1, 2}) && KeptTails(SilentVotes(), {1, 2}, 1, 1)
  {
    assert |{1, 2}| == 2;
  }

  lemma SilentVotesAcked()
    ensures Seated(SilentVotes()) && AckedBy(SilentVotes(), {1, 2}, 1, 1, Digest)
  {
    VoteVouches(1, 1, 0, 1, false);
    VoteVouches(2, 1, 0, 1, false);
    var q := SilentVotes();
    forall r: nat | r < 3 ensures q[r].value.replica == r && q[r].value.WellFormed() && Faithful(q[r].value, 1, 1, Digest)
    {
      assert r == 0 || q[r] == Some(Vote(r, 1, 0, Log(1), false));
    }
    forall r: nat | 0 < r < 3 ensures Acknowledges(q[r].value, 1, 1) {
      assert q[r] == Some(Vote(r, 1, 0, Log(1), false));
    }
  }

  lemma SilentCounts()
    ensures TopView(SilentVotes()) == Some(2) && CommitMax(SilentVotes(), 127) == 0 && HeadMax(SilentVotes(), 2, 0) == 1
    ensures |Reported(SilentVotes())| == 3
  {
    var q := SilentVotes();
    assert q[0].value.logView == 2 && Canonical(q, 2, 0);
    assert Reported(q) == {0, 1, 2};
  }

  lemma SilentNacks()
    ensures NackQuorum(SilentVotes(), THREE, 2, 1)
  {
    var q := SilentVotes();
    VoteVouches(1, 1, 0, 1, false);
    VoteVouches(2, 1, 0, 1, false);
    assert Canonical(q, 2, 0);
    assert Header(q, 2, 1).None? && !Abstained(q, 2, 1);
    hide Header, Abstained, StoredDvc.Held;
    assert 1 in Nackers(q, 2, 1, true) && 2 in Nackers(q, 2, 1, true);
    SubsetCardinality({1, 2}, Nackers(q, 2, 1, true));
  }

  lemma SilentTrusted()
    ensures TrustedRule(THREE) == THREE
    ensures forall r :: 0 <= r < |SilentVotes()| && SilentVotes()[r].Some? ==> !SilentVotes()[r].value.untrustedLog
  {
  }

  lemma SilentElsewhere()
    ensures Elsewhere(SilentVotes(), 2, []) == Some([])
  {
    var q := SilentVotes();
    assert ClaimsOf(q[1].value, [], 1) == [] && ClaimsOf(q[2].value, [], 1) == [];
    assert AllClaims(q, 2, [], 1) == [];
    assert AllClaims(q, 2, [], 2) == [];
    assert AllClaims(q, 2, [], 3) == [];
  }

  lemma NackedFirstOpEmptiesTheLog(q: Votes, quorums: MergeQuorums, lv: nat)
    requires |Reported(q)| >= quorums.viewChange && TopView(q) == Some(lv)
    requires CommitMax(q, quorums.prepareQueueCeiling) == 0 && HeadMax(q, lv, 0) > 0
    requires NackQuorum(q, quorums, lv, 1) && Elsewhere(q, lv, []) == Some([])
    ensures ReadyFor(q, quorums, MergedLog(0, 0, [], []))
  {
    hide Reported, TopView, CommitMax, HeadMax, NackQuorum, Adoptable, Elsewhere;
  }

  /** Two copies of op 1 read as two nacks: the view starts with an empty log. */
  lemma SilentCanonicalSenderDropsOpOne()
    ensures MergeView(SilentVotes(), THREE) == Ready(MergedLog(0, 0, [], []))
  {
    SilentCounts();
    SilentNacks();
    SilentElsewhere();
    SilentTrusted();
    AllTrustedStaysDeadlocked(SilentVotes(), THREE);
    hide Reported, TopView, CommitMax, HeadMax, NackQuorum, Elsewhere, Merge, SilentVotes, ReadyFor;
    NackedFirstOpEmptiesTheLog(SilentVotes(), THREE, 2);
    MergeReadyIff(SilentVotes(), THREE, MergedLog(0, 0, [], []));
  }

  // ----- The highest view held only by a replica that lost its tail -----

  /**
   * Op 2 was acknowledged in view 1 by replicas 0 and 1. Replica 0 still holds it. Replica 1
   * and replica 2, alone in view 2, restarted and lost it.
   */
  function LostTailVotes(): Votes {
    [Some(Vote(0, 1, 1, Log(2), false)), Some(Vote(1, 1, 1, Log(1), true)), Some(Vote(2, 2, 1, Log(1), true))]
  }

  lemma LostTailVotesVouch()
    ensures forall r :: 0 <= r < 3 ==>
      var dvc := LostTailVotes()[r].value;
      && dvc.WellFormed() && dvc.Held(1) == Some(FIRST) && dvc.OffersBody(1) && !dvc.Nacks(1)
      && Faithful(dvc, 1, 2, Digest) && Acknowledges(dvc, 1, 2)
  {
    VoteVouches(0, 1, 1, 2, false);
    VoteVouches(1, 1, 1, 1, true);
    VoteVouches(2, 2, 1, 1, true);
    hide Vote;
  }

  lemma LostTailVotesSized()
    ensures Sized(LostTailVotes(), THREE, {0, 1}) && KeptTails(TrustedOnly(LostTailVotes()), {0, 1}, 1, 2)
  {
    var q := LostTailVotes();
    assert |{0, 1}| == 2;
    assert forall r :: r in Reported(TrustedOnly(q)) ==> r == 0;
  }

  lemma LostTailVotesAcked()
    ensures Seated(LostTailVotes()) && AckedBy(LostTailVotes(), {0, 1}, 1, 2, Digest)
  {
    LostTailVotesVouch();
    hide Faithful, Acknowledges, StoredDvc.Held, StoredDvc.WellFormed;
  }

  lemma LostTailCounts()
    ensures TopView(LostTailVotes()) == Some(2) && CommitMax(LostTailVotes(), 127) == 1
    ensures HeadMax(LostTailVotes(), 2, 1) == 1
    ensures |Reported(LostTailVotes())| == 3 && |Reported(TrustedOnly(LostTailVotes()))| == 1
  {
    var q := LostTailVotes();
    LostTailVote(0);
    LostTailVote(1);
    LostTailVote(2);
    LostTailReports();
    hide Vote, CommitBound, LostTailVotes, Reported;
    assert Canonical(q, 2, 2);
  }

  lemma LostTailVote(r: nat)
    requires r < 3
    ensures |LostTailVotes()| == 3 && LostTailVotes()[r].Some?
    ensures var dvc := LostTailVotes()[r].value;
            && dvc.logView == (if r == 2 then 2 else 1) && dvc.op == (if r == 0 then 2 else 1)
            && CommitBound(dvc, 127) == 1
  {
    assert r == 0 || r == 1 || r == 2;
  }

  lemma LostTailReports()
    ensures |Reported(LostTailVotes())| == 3 && |Reported(TrustedOnly(LostTailVotes()))| == 1
  {
    var q := LostTailVotes();
    assert Reported(q) == {0, 1, 2} && Reported(TrustedOnly(q)) == {0};
  }

  lemma LostTailAdopts()
    ensures Header(LostTailVotes(), 2, 1) == Some(FIRST) && !Conflict(LostTailVotes(), 2, 1)
    ensures 2 in Copiers(LostTailVotes(), 2, 1) && Nackers(LostTailVotes(), 2, 1, false) == {}
  {
    LostTailVotesVouch();
    hide StoredDvc.Held, Faithful, Acknowledges, Vote;
    var q := LostTailVotes();
    assert |q| == 3 && q[2].Some?;
    assert q[2].value.logView == 2 by { LostTailViews(); }
    assert Canonical(q, 2, 2);
    assert Header(q, 2, 1) == Some(FIRST);
    hide Header;
    forall r: nat | r < 3 ensures r !in Nackers(q, 2, 1, false) {
      assert q[r].value.Held(1) == Some(FIRST);
      LostTailViews();
    }
  }

  lemma LostTailViews()
    ensures LostTailVotes()[2].value.logView == 2
    ensures forall r :: 0 <= r < 3 ==> LostTailVotes()[r].value.op >= 1 && LostTailVotes()[r].value.Covers(1)
  {
  }

  lemma LostTailElsewhere()
    ensures Elsewhere(LostTailVotes(), 2, [FIRST]) == Some([])
  {
    var q := LostTailVotes();
    assert HasOp([FIRST], 1) by { assert [FIRST][0].op == 1; }
    assert ClaimsOf(q[0].value, [FIRST], 1) == [];
    assert ClaimsOf(q[0].value, [FIRST], 2) == [] && ClaimsOf(q[1].value, [FIRST], 1) == [];
    assert AllClaims(q, 2, [FIRST], 1) == [];
    assert AllClaims(q, 2, [FIRST], 2) == [];
    assert AllClaims(q, 2, [FIRST], 3) == [];
  }

  lemma LoneCommittedOp(q: Votes, quorums: MergeQuorums, lv: nat, h: PrepareHeader)
    requires |Reported(q)| >= quorums.viewChange && TopView(q) == Some(lv) && 0 < quorums.nackPrepare
    requires CommitMax(q, quorums.prepareQueueCeiling) == 1 && HeadMax(q, lv, 1) == 1
    requires Header(q, lv, 1) == Some(h) && !Conflict(q, lv, 1) && Copiers(q, lv, 1) != {}
    requires Nackers(q, lv, 1, quorums.absenceNacks) == {} && Elsewhere(q, lv, [h]) == Some([])
    ensures ReadyFor(q, quorums, MergedLog(1, 1, [h], []))
  {
    hide Reported, TopView, CommitMax, HeadMax, Nackers, Copiers, Header, Conflict, Elsewhere;
  }

  /** Every replica reported and one still holds op 2, yet the view starts at op 1. */
  lemma LostTailDropsHeldOp()
    ensures MergeView(LostTailVotes(), THREE) == Ready(MergedLog(1, 1, [FIRST], []))
  {
    LostTailCounts();
    LostTailAdopts();
    LostTailElsewhere();
    hide Reported, TopView, CommitMax, HeadMax, Nackers, Copiers, Header, Conflict, Elsewhere, Merge, LostTailVotes, ReadyFor;
    var log := MergedLog(1, 1, [FIRST], []);
    LoneCommittedOp(LostTailVotes(), AllReplicasRule(THREE), 2, FIRST);
    MergeReadyIff(LostTailVotes(), AllReplicasRule(THREE), log);
  }

  // ----- A quorum that lost its whole logs -----

  /** An older, uncommitted prepare of op 1. */
  const OLDER := PrepareHeader(1, 0, 0, 201, 200, 5, 9)

  /** What a replica barred from electing sends: no log at all. */
  function EmptyVote(replica: nat): StoredDvc {
    StoredDvc(replica, 0, 0, 0, DvcSuffix([], {}, {}), true)
  }

  /** Op 1 was acknowledged in view 1 by replicas 0 and 1, both restarted without their logs. Replica 2 never left view 0. */
  function ForgottenVotes(headers: seq<PrepareHeader>): Votes {
    [Some(EmptyVote(0)), Some(EmptyVote(1)), Some(Vote(2, 0, 0, headers, true))]
  }

  /** These votes meet every hypothesis of the survival theorem, for op 1 of view 1. */
  lemma ForgottenVotesAcked(headers: seq<PrepareHeader>)
    requires headers == [] || headers == [OLDER]
    ensures Seated(ForgottenVotes(headers)) && AckedBy(ForgottenVotes(headers), {0, 1}, 1, 1, Digest)
  {
    ForgottenVote(headers, 0);
    ForgottenVote(headers, 1);
    ForgottenVote(headers, 2);
    hide Acknowledges, Faithful, Vote, EmptyVote, StoredDvc.WellFormed, StoredDvc.IsEmptyVote;
  }

  lemma ForgottenVotesSized(headers: seq<PrepareHeader>)
    requires headers == [] || headers == [OLDER]
    ensures Sized(ForgottenVotes(headers), THREE, {0, 1}) && KeptTails(TrustedOnly(ForgottenVotes(headers)), {0, 1}, 1, 1)
  {
    assert |{0, 1}| == 2;
    ForgottenVote(headers, 0);
    ForgottenVote(headers, 1);
    ForgottenVote(headers, 2);
    hide Acknowledges, Faithful, Vote, EmptyVote, StoredDvc.WellFormed, StoredDvc.IsEmptyVote;
  }

  lemma ForgottenVote(headers: seq<PrepareHeader>, r: nat)
    requires r < 3 && (headers == [] || headers == [OLDER])
    ensures var dvc := ForgottenVotes(headers)[r].value;
            && dvc.replica == r && dvc.untrustedLog && dvc.WellFormed() && Faithful(dvc, 1, 1, Digest)
            && (r < 2 ==> dvc.IsEmptyVote())
  {
    assert r == 0 || r == 1 || r == 2;
  }

  lemma ForgottenCounts(headers: seq<PrepareHeader>)
    requires headers == [] || headers == [OLDER]
    ensures TopView(ForgottenVotes(headers)) == Some(0) && CommitMax(ForgottenVotes(headers), 127) == 0
    ensures HeadMax(ForgottenVotes(headers), 0, 0) == |headers|
    ensures |Reported(ForgottenVotes(headers))| == 3 && Reported(TrustedOnly(ForgottenVotes(headers))) == {}
  {
    var q := ForgottenVotes(headers);
    assert q[2].value.logView == 0 && Canonical(q, 0, 2);
    assert Reported(q) == {0, 1, 2};
    assert forall r: nat :: r < 3 ==> CommitBound(q[r].value, 127) == 0 && q[r].value.op <= |headers|;
  }

  /** With nothing left anywhere, the view starts with an empty log. */
  lemma ForgottenQuorumDropsTheOp()
    ensures MergeView(ForgottenVotes([]), THREE) == Ready(MergedLog(0, 0, [], []))
  {
    ForgottenCounts([]);
    ForgottenRule([]);
    hide Reported, TopView, CommitMax, HeadMax, Merge, MergeView, ForgottenVotes, Scan;
    MergeReadyIff(ForgottenVotes([]), AllReplicasRule(THREE), MergedLog(0, 0, [], []));
  }

  /** Nobody is below view 0, so nothing is claimed from elsewhere. */
  lemma {:induction false} NoClaimsBelowZero(q: Votes, installed: seq<PrepareHeader>, n: nat)
    requires n <= |q|
    ensures AllClaims(q, 0, installed, n) == []
  {
    if n > 0 {
      NoClaimsBelowZero(q, installed, n - 1);
    }
  }

  lemma NothingElsewhere(q: Votes, installed: seq<PrepareHeader>)
    ensures Elsewhere(q, 0, installed) == Some([])
  {
    NoClaimsBelowZero(q, installed, |q|);
  }

  /** No sender is trusted, so every replica's vote decides. */
  lemma ForgottenRule(headers: seq<PrepareHeader>)
    requires headers == [] || headers == [OLDER]
    ensures MergeView(ForgottenVotes(headers), THREE) == Merge(ForgottenVotes(headers), AllReplicasRule(THREE))
  {
    ForgottenCounts(headers);
    hide Merge, ForgottenVotes, Reported, TrustedOnly;
  }

  lemma OlderAdopts()
    ensures var q := ForgottenVotes([OLDER]);
            && Header(q, 0, 1) == Some(OLDER) && !Conflict(q, 0, 1) && 2 in Copiers(q, 0, 1)
            && Nackers(q, 0, 1, false) == {}
  {
    var q := ForgottenVotes([OLDER]);
    assert Canonical(q, 0, 2) && q[2].value.Held(1) == Some(OLDER) && q[2].value.OffersBody(1);
    assert q[0].value.Held(1).None? && q[1].value.Held(1).None?;
    assert Header(q, 0, 1) == Some(OLDER);
    hide Header;
    forall r: nat | r < 3 ensures r !in Nackers(q, 0, 1, false) {
      assert q[r].value.op < 1 || r == 2;
    }
  }

  lemma LoneFirstOp(q: Votes, quorums: MergeQuorums, lv: nat, h: PrepareHeader)
    requires |Reported(q)| >= quorums.viewChange && TopView(q) == Some(lv) && 0 < quorums.nackPrepare
    requires CommitMax(q, quorums.prepareQueueCeiling) == 0 && HeadMax(q, lv, 0) == 1
    requires Header(q, lv, 1) == Some(h) && !Conflict(q, lv, 1) && Copiers(q, lv, 1) != {}
    requires Nackers(q, lv, 1, quorums.absenceNacks) == {} && Elsewhere(q, lv, [h]) == Some([])
    ensures ReadyFor(q, quorums, MergedLog(1, 0, [h], []))
  {
    hide Reported, TopView, CommitMax, HeadMax, Nackers, Copiers, Header, Conflict, Elsewhere;
  }

  /** An older prepare of the same op takes its place: the head reaches op 1, the history is another. */
  lemma ForgottenQuorumReplacesTheOp()
    ensures MergeView(ForgottenVotes([OLDER]), THREE) == Ready(MergedLog(1, 0, [OLDER], []))
    ensures !KeepsHistory(MergedLog(1, 0, [OLDER], []), 1, Digest)
  {
    assert !KeepsAt(MergedLog(1, 0, [OLDER], []), 1, Digest);
    ForgottenRule([OLDER]);
    var log := MergedLog(1, 0, [OLDER], []);
    hide *;
    LoneOlder(log);
    MergeReadyIff(ForgottenVotes([OLDER]), AllReplicasRule(THREE), log);
  }

  lemma LoneOlder(log: MergedLog)
    requires log == MergedLog(1, 0, [OLDER], [])
    ensures ReadyFor(ForgottenVotes([OLDER]), AllReplicasRule(THREE), log)
  {
    ForgottenCounts([OLDER]);
    OlderAdopts();
    NothingElsewhere(ForgottenVotes([OLDER]), [OLDER]);
    hide Reported, TopView, CommitMax, HeadMax, Nackers, Copiers, Header, Conflict, Elsewhere, Merge, ForgottenVotes, ReadyFor;
    LoneFirstOp(ForgottenVotes([OLDER]), AllReplicasRule(THREE), 0, OLDER);
  }
}
