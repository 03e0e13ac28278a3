/**
 * What one more vote can do for a view that is waiting: when a sender of a newer view can settle
 * it, and what a body or a nack from the view itself brings.
 */
module DvcWaiting {
  import opened Common
  import opened Quorum
  import opened DvcMergeSpec
  import opened DvcTrust
  import opened DvcOutcomes

  ghost function Joined(q: Votes, r: nat, v: StoredDvc): Votes
    requires r < |q|
  {
    q[r := Some(v)]
  }

  lemma JoinedReports(q: Votes, r: nat, v: StoredDvc)
    requires r < |q| && q[r].None?
    ensures Reported(Joined(q, r, v)) == Reported(q) + {r} && r !in Reported(q)
    ensures |Reported(Joined(q, r, v))| == |Reported(q)| + 1
  {
    assert Reported(Joined(q, r, v)) == Reported(q) + {r};
  }

  lemma JoinedSeated(q: Votes, r: nat, v: StoredDvc)
    requires Seated(q) && r < |q| && v.replica == r && v.WellFormed()
    ensures Seated(Joined(q, r, v))
  {
    hide StoredDvc.WellFormed;
    assert Joined(q, r, v)[r] == Some(v);
  }

  // ----- A sender of a newer view -----

  /** The sender could not have acknowledged a newer view's prepare of the op with this checksum. */
  predicate Rejects(dvc: StoredDvc, op: nat, checksum: nat, absence: bool) {
    || (absence && EndsBelow(dvc, op)) || SaysNo(dvc, op) || CannotServe(dvc, op)
    || (HasPrepare(dvc, op) && PrepareAt(dvc, op).checksum != checksum)
  }

  ghost function Rejecters(q: Votes, op: nat, checksum: nat, absence: bool): set<nat> {
    set r: nat | r < |q| && q[r].Some? && Rejects(q[r].value, op, checksum, absence)
  }

  ghost predicate SaysCommitted(q: Votes, r: nat, h: PrepareHeader) {
    r < |q| && q[r].Some? && h in q[r].value.suffix.headers && h != Blank(h.op) && h.op <= q[r].value.commit
  }

  /** Senders that report one op committed report one prepare, whichever op but `except` it is. */
  ghost predicate OneStory(q: Votes, except: nat) {
    forall r: nat, s: nat, h: PrepareHeader, g: PrepareHeader ::
      SaysCommitted(q, r, h) && SaysCommitted(q, s, g) && h.op == g.op && h.op != except ==> h.checksum == g.checksum
  }

  ghost predicate CanAnchor(q: Votes, quorums: MergeQuorums, op: nat, checksum: nat) {
    |Rejecters(q, op, checksum, quorums.absenceNacks)| < quorums.nackPrepare && OneStory(q, op)
  }

  ghost predicate Newer(q: Votes, v: StoredDvc) {
    forall s :: 0 <= s < |q| && q[s].Some? ==> q[s].value.logView < v.logView
  }

  lemma OnlyNewerAtTop(q: Votes, r: nat, v: StoredDvc)
    requires r < |q| && q[r].None? && Newer(q, v)
    ensures forall s: nat :: AtTop(Joined(q, r, v), s) <==> s == r
  {
    var p := Joined(q, r, v);
    assert p[r] == Some(v);
    forall s: nat | AtTop(p, s) ensures s == r {
      assert p[s].value.logView >= p[r].value.logView;
    }
  }

  /** The vote that anchors a log of one op. */
  function Anchor(r: nat, view: nat, op: nat, checksum: nat): StoredDvc {
    StoredDvc(r, view, op, op, DvcSuffix([PrepareHeader(op, view, 0, checksum, 0, 0, 1)], {}, {0}), false)
  }

  lemma AnchorIs(r: nat, view: nat, op: nat, checksum: nat)
    ensures var v := Anchor(r, view, op, checksum);
            && v.WellFormed() && HasPrepare(v, op) && HasBody(v, op) && PrepareAt(v, op).checksum == checksum && !SaysNo(v, op)
  {
  }

  /** The senders of older views disown what they would reject. */
  lemma NewerDisowners(q: Votes, r: nat, v: StoredDvc, op: nat, absence: bool)
    requires r < |q| && q[r].None? && Newer(q, v) && HasPrepare(v, op)
    ensures Disowners(Joined(q, r, v), op, absence) - {r} == Rejecters(q, op, PrepareAt(v, op).checksum, absence)
    ensures r in Disowners(Joined(q, r, v), op, absence) ==> SaysNo(v, op) || CannotServe(v, op)
  {
    var p := Joined(q, r, v);
    OnlyNewerAtTop(q, r, v);
    hide AtTop, HasPrepare, SaysNo, CannotServe, Newer;
    assert p[r] == Some(v) && forall s: nat :: s < |q| && s != r ==> p[s] == q[s];
    assert Speaks(p, r, op);
    assert HasPrepare(p[r].value, op);
    forall s: nat | s < |q| && s != r && q[s].Some?
      ensures Disowns(p, s, op, absence) <==> Rejects(q[s].value, op, PrepareAt(v, op).checksum, absence)
    {
      NewerDisowns(q, r, v, s, op, absence);
    }
  }

  lemma NewerDisowns(q: Votes, r: nat, v: StoredDvc, s: nat, op: nat, absence: bool)
    requires r < |q| && q[r].None? && Newer(q, v) && HasPrepare(v, op) && s < |q| && q[s].Some?
    ensures Disowns(Joined(q, r, v), s, op, absence) <==> Rejects(q[s].value, op, PrepareAt(v, op).checksum, absence)
  {
    var p := Joined(q, r, v);
    OnlyNewerAtTop(q, r, v);
    hide AtTop, HasPrepare, SaysNo, CannotServe, Newer;
    assert p[r] == Some(v) && p[s] == q[s];
    assert AtTop(p, r) && Speaks(p, r, op);
    assert forall t: nat :: Speaks(p, t, op) ==> t == r;
    assert !HoldsTruncated(p, s, op);
  }

  /** Reports of older views are the reports a newer view's log is checked against. */
  lemma NewerReports(q: Votes, r: nat, v: StoredDvc, s: nat, h: PrepareHeader)
    requires r < |q| && q[r].None? && Newer(q, v)
    ensures ReportsCommitted(Joined(q, r, v), s, h) <==> SaysCommitted(q, s, h)
  {
    OnlyNewerAtTop(q, r, v);
    hide AtTop, Newer;
    var p := Joined(q, r, v);
    assert p[r] == Some(v) && (s < |q| && s != r ==> p[s] == q[s]);
  }

  /** A log anchored at `op` is contested exactly outside it. */
  lemma NewerUncontested(q: Votes, r: nat, v: StoredDvc, op: nat, head: nat)
    requires r < |q| && q[r].None? && Newer(q, v) && 0 < op <= head
    requires forall s :: 0 <= s < |q| && q[s].Some? ==> q[s].value.commit <= op
    ensures Uncontested(Joined(q, r, v), op, head) <==> OneStory(q, op)
  {
    var p := Joined(q, r, v);
    hide ReportsCommitted, Newer;
    forall s: nat, h: PrepareHeader
      ensures ReportsCommitted(p, s, h) <==> SaysCommitted(q, s, h)
      ensures SaysCommitted(q, s, h) ==> h.op <= op
    {
      NewerReports(q, r, v, s, h);
    }
    hide SaysCommitted;
  }

  lemma CommitPointOf(q: Votes, r: nat, v: StoredDvc, ceiling: nat, cm: nat, op: nat)
    requires r < |q| && q[r].None? && IsCommitPoint(q, ceiling, cm)
    ensures IsCommitPoint(Joined(q, r, v), ceiling, op) ==> cm <= op && Bounded(v, ceiling, op)
    ensures cm <= op && Bounded(v, ceiling, op) && v.commit == op ==> IsCommitPoint(Joined(q, r, v), ceiling, op)
    ensures IsCommitPoint(Joined(q, r, v), ceiling, op) ==> forall s :: 0 <= s < |q| && q[s].Some? ==> q[s].value.commit <= op
  {
    var p := Joined(q, r, v);
    assert p[r] == Some(v);
    if IsCommitPoint(p, ceiling, op) {
      forall s | 0 <= s < |q| && q[s].Some? ensures q[s].value.commit <= op && (Attains(q[s].value, ceiling, cm) ==> cm <= op) {
        assert p[s] == q[s];
        assert Bounded(p[s].value, ceiling, op);
      }
    }
    if cm <= op && Bounded(v, ceiling, op) && v.commit == op {
      forall s | 0 <= s < |p| && p[s].Some? ensures Bounded(p[s].value, ceiling, op) {
        assert s != r ==> p[s] == q[s] && Bounded(q[s].value, ceiling, cm);
      }
      assert Attains(p[r].value, ceiling, op);
    }
  }

  /** A vote that anchors an op few enough senders reject starts the view there. */
  lemma AnchorStarts(q: Votes, quorums: MergeQuorums, cm: nat, r: nat, v: StoredDvc, op: nat, checksum: nat)
    requires Seated(q) && r < |q| && q[r].None? && |Reported(q)| + 1 >= quorums.viewChange
    requires IsCommitPoint(q, quorums.prepareQueueCeiling, cm) && cm <= op && 0 < op
    requires Newer(q, v) && v == Anchor(r, v.logView, op, checksum) && CanAnchor(q, quorums, op, checksum)
    ensures Merge(Joined(q, r, v), quorums).Ready?
  {
    hide *;
    var p := Joined(q, r, v);
    AnchorPoint(q, quorums.prepareQueueCeiling, cm, r, v, op, checksum);
    CanAnchorMeans(q, quorums, op, checksum);
    AnchorIsLive(q, quorums, r, v, op, checksum);
    JoinedReports(q, r, v);
    WalkOfOne(p, quorums, op);
    NewerUncontested(q, r, v, op, op);
    InstallsOne(p, op);
    EveryOutcome(p, quorums, op, op, op + 1);
  }

  lemma CanAnchorMeans(q: Votes, quorums: MergeQuorums, op: nat, checksum: nat)
    requires CanAnchor(q, quorums, op, checksum)
    ensures |Rejecters(q, op, checksum, quorums.absenceNacks)| < quorums.nackPrepare && OneStory(q, op)
  {
  }

  lemma AnchorPoint(q: Votes, ceiling: nat, cm: nat, r: nat, v: StoredDvc, op: nat, checksum: nat)
    requires Seated(q) && r < |q| && q[r].None? && IsCommitPoint(q, ceiling, cm) && cm <= op
    requires Newer(q, v) && v == Anchor(r, v.logView, op, checksum)
    ensures var p := Joined(q, r, v); Seated(p) && IsCommitPoint(p, ceiling, op) && IsHighestOp(p, op, op)
    ensures forall s :: 0 <= s < |q| && q[s].Some? ==> q[s].value.commit <= op
  {
    var p := Joined(q, r, v);
    AnchorIs(r, v.logView, op, checksum);
    assert Bounded(v, ceiling, op) && v.op == op && v.commit == op && v.replica == r;
    CommitPointOf(q, r, v, ceiling, cm, op);
    OnlyNewerAtTop(q, r, v);
    hide Anchor, AtTop, IsCommitPoint, Newer, HasPrepare;
    assert p[r] == Some(v);
  }

  lemma WalkOfOne(p: Votes, quorums: MergeQuorums, op: nat)
    requires |Reported(p)| >= quorums.viewChange && |Reported(p)| > 0 && 0 < op
    requires IsCommitPoint(p, quorums.prepareQueueCeiling, op) && IsHighestOp(p, op, op) && Live(p, quorums, op)
    ensures Walks(p, quorums, op, op, op + 1)
  {
    hide IsCommitPoint, IsHighestOp, Live, Reported;
  }

  lemma InstallsOne(p: Votes, op: nat)
    ensures Uncontested(p, op, op) ==> Installable(p, op, op)
  {
    hide Uncontested, NamedFromAbove;
  }

  lemma AnchorIsLive(q: Votes, quorums: MergeQuorums, r: nat, v: StoredDvc, op: nat, checksum: nat)
    requires r < |q| && q[r].None? && Newer(q, v) && v == Anchor(r, v.logView, op, checksum)
    requires |Rejecters(q, op, checksum, quorums.absenceNacks)| < quorums.nackPrepare
    ensures Live(Joined(q, r, v), quorums, op)
  {
    var p := Joined(q, r, v);
    AnchorIs(r, v.logView, op, checksum);
    OnlyNewerAtTop(q, r, v);
    NewerDisowners(q, r, v, op, quorums.absenceNacks);
    hide Anchor, AtTop, Newer, HasPrepare, HasBody, SaysNo, Disowners, Rejecters;
    assert p[r] == Some(v);
    assert !CannotServe(v, op);
    assert Disowners(p, op, quorums.absenceNacks) == Disowners(p, op, quorums.absenceNacks) - {r};
    assert Serves(p, r, op, PrepareAt(p[r].value, op).checksum);
    assert Agreed(p, op) && Served(p, op);
  }

  /** Where nothing is known committed, a newer view without a log starts empty. */
  lemma EmptyStarts(q: Votes, quorums: MergeQuorums, r: nat, v: StoredDvc)
    requires Seated(q) && r < |q| && q[r].None? && |Reported(q)| + 1 >= quorums.viewChange
    requires IsCommitPoint(q, quorums.prepareQueueCeiling, 0) && Newer(q, v)
    requires v == StoredDvc(r, v.logView, 0, 0, DvcSuffix([], {}, {}), false)
    ensures Merge(Joined(q, r, v), quorums).Ready?
  {
    var p := Joined(q, r, v);
    JoinedReports(q, r, v);
    assert Bounded(v, quorums.prepareQueueCeiling, 0);
    CommitPointOf(q, r, v, quorums.prepareQueueCeiling, 0, 0);
    OnlyNewerAtTop(q, r, v);
    assert p[r] == Some(v);
    assert Seated(p);
    hide AtTop, IsCommitPoint, Newer, Seated, Merge, Reported, Live;
    assert IsHighestOp(p, 0, 0);
    assert Walks(p, quorums, 0, 0, 1);
    EveryOutcome(p, quorums, 0, 0, 1);
  }

  /** A view a newer sender starts is anchored at an op few enough of the others reject. */
  lemma StartIsAnchored(q: Votes, quorums: MergeQuorums, cm: nat, r: nat, v: StoredDvc) returns (op: nat, checksum: nat)
    requires Seated(q) && r < |q| && q[r].None? && IsCommitPoint(q, quorums.prepareQueueCeiling, cm) && 0 < cm
    requires Newer(q, v) && v.replica == r && v.WellFormed() && Merge(Joined(q, r, v), quorums).Ready?
    ensures cm <= op && CanAnchor(q, quorums, op, checksum)
  {
    hide *;
    var p := Joined(q, r, v);
    JoinedSeated(q, r, v);
    var head := Merge(p, quorums).log.opHead;
    OutcomeIff(p, quorums, head);
    var top;
    op, top := WalkOf(p, quorums, head);
    CommitPointOf(q, r, v, quorums.prepareQueueCeiling, cm, op);
    NewerUncontested(q, r, v, op, head);
    checksum := SpokenByNewer(q, quorums, r, v, op);
    CanAnchorIs(q, quorums, op, checksum);
  }

  lemma CanAnchorIs(q: Votes, quorums: MergeQuorums, op: nat, checksum: nat)
    requires |Rejecters(q, op, checksum, quorums.absenceNacks)| < quorums.nackPrepare && OneStory(q, op)
    ensures CanAnchor(q, quorums, op, checksum)
  {
  }

  lemma WalkOf(p: Votes, quorums: MergeQuorums, head: nat) returns (cm: nat, top: nat)
    requires StartsAt(p, quorums, head)
    ensures IsCommitPoint(p, quorums.prepareQueueCeiling, cm) && cm <= head
    ensures 0 < cm ==> Live(p, quorums, cm) && Uncontested(p, cm, head)
  {
    hide IsCommitPoint, Live, Uncontested, NamedFromAbove, AtTop, Reported, Dead;
    cm, top :| EndsAt(p, quorums, cm, top, head) && (top == 0 || Installable(p, cm, head));
  }

  lemma SpokenByNewer(q: Votes, quorums: MergeQuorums, r: nat, v: StoredDvc, op: nat) returns (checksum: nat)
    requires r < |q| && q[r].None? && Newer(q, v) && Live(Joined(q, r, v), quorums, op)
    ensures |Rejecters(q, op, checksum, quorums.absenceNacks)| < quorums.nackPrepare
  {
    var p := Joined(q, r, v);
    OnlyNewerAtTop(q, r, v);
    assert p[r] == Some(v);
    hide AtTop, HasPrepare, Newer, Serves, Disowners, Rejecters;
    assert HasPrepare(v, op);
    checksum := PrepareAt(v, op).checksum;
    NewerDisowners(q, r, v, op, quorums.absenceNacks);
    SubsetCardinality(Rejecters(q, op, checksum, quorums.absenceNacks), Disowners(p, op, quorums.absenceNacks));
  }

  /** The vote takes the empty seat from a newer view, and the view starts. */
  ghost predicate Settles(q: Votes, quorums: MergeQuorums, r: nat, v: StoredDvc)
    requires r < |q|
  {
    v.replica == r && v.WellFormed() && Newer(q, v) && Merge(Joined(q, r, v), quorums).Ready?
  }

  /**
   * Whatever a quorum of votes is stuck at, one more vote from a newer view can start it exactly when
   * nothing is known committed, or some op at or above the commit point has a prepare that too few
   * senders reject and no two senders tell different stories of another committed op.
   */
  lemma NewerVoteSettlesIff(q: Votes, quorums: MergeQuorums, cm: nat, r: nat)
    requires Seated(q) && r < |q| && q[r].None? && |Reported(q)| + 1 >= quorums.viewChange
    requires IsCommitPoint(q, quorums.prepareQueueCeiling, cm)
    ensures (exists v: StoredDvc :: Settles(q, quorums, r, v)) <==>
      cm == 0 || exists op: nat, checksum: nat :: cm <= op && CanAnchor(q, quorums, op, checksum)
  {
    var view := if TopView(q).Some? then TopView(q).value + 1 else 0;
    assert forall s :: 0 <= s < |q| && q[s].Some? ==> q[s].value.logView < view;
    hide Seated, IsCommitPoint, CanAnchor, Merge, Reported;
    if cm == 0 {
      var v := StoredDvc(r, view, 0, 0, DvcSuffix([], {}, {}), false);
      EmptyStarts(q, quorums, r, v);
      assert Settles(q, quorums, r, v);
    } else {
      if op: nat, checksum: nat :| cm <= op && CanAnchor(q, quorums, op, checksum) {
        var v := Anchor(r, view, op, checksum);
        AnchorIs(r, view, op, checksum);
        AnchorStarts(q, quorums, cm, r, v, op, checksum);
        assert Settles(q, quorums, r, v);
      }
      if v: StoredDvc :| Settles(q, quorums, r, v) {
        var op, checksum := StartIsAnchored(q, quorums, cm, r, v);
      }
    }
  }

  /**
   * A wait above the commit point can always end so, as long as the senders tell one story below it:
   * what the view already agrees on at its commit point can be anchored again.
   */
  lemma WaitAboveCommitCanEnd(q: Votes, quorums: MergeQuorums, cm: nat, top: nat, op: nat, r: nat) returns (v: StoredDvc)
    requires Seated(q) && r < |q| && q[r].None? && Walks(q, quorums, cm, top, op) && WaitsAt(q, quorums, op)
    requires cm < op && OneStory(q, cm)
    ensures Merge(q, quorums) == AwaitingRepair(op) && Settles(q, quorums, r, v)
  {
    hide *;
    OutcomeIff(q, quorums, op);
    WalkFacts(q, quorums, cm, top, op);
    if 0 < cm {
      var checksum := AgreedAnchor(q, quorums, cm);
      CanAnchorIs(q, quorums, cm, checksum);
      assert cm <= cm && CanAnchor(q, quorums, cm, checksum);
    }
    NewerVoteSettlesIff(q, quorums, cm, r);
    v :| Settles(q, quorums, r, v);
  }

  lemma WalkFacts(q: Votes, quorums: MergeQuorums, cm: nat, top: nat, op: nat)
    requires Walks(q, quorums, cm, top, op) && cm < op
    ensures |Reported(q)| >= quorums.viewChange && IsCommitPoint(q, quorums.prepareQueueCeiling, cm)
    ensures 0 < cm ==> Live(q, quorums, cm)
  {
    hide IsCommitPoint, IsHighestOp, Live, Reported;
  }

  lemma AgreedAnchor(q: Votes, quorums: MergeQuorums, cm: nat) returns (checksum: nat)
    requires Live(q, quorums, cm)
    ensures |Rejecters(q, cm, checksum, quorums.absenceNacks)| < quorums.nackPrepare
  {
    hide HasPrepare, SaysNo, CannotServe, HasBody;
    var r: nat :| AtTop(q, r) && HasPrepare(q[r].value, cm);
    var s := SomeoneSpeaks(q, cm, r);
    checksum := PrepareAt(q[s].value, cm).checksum;
    forall t | t in Rejecters(q, cm, checksum, quorums.absenceNacks) ensures t in Disowners(q, cm, quorums.absenceNacks) {
      assert AtTop(q, t) && HasPrepare(q[t].value, cm) ==> PrepareAt(q[t].value, cm).checksum == checksum;
      assert Disowns(q, t, cm, quorums.absenceNacks);
    }
    SubsetCardinality(Rejecters(q, cm, checksum, quorums.absenceNacks), Disowners(q, cm, quorums.absenceNacks));
  }

  // ----- A sender of the view itself -----

  ghost predicate OfTop(q: Votes, v: StoredDvc) {
    exists s: nat :: AtTop(q, s) && q[s].value.logView == v.logView
  }

  /** The vote has, with its body, the very prepare the top says. */
  ghost predicate Repeats(q: Votes, v: StoredDvc, op: nat) {
    && HasPrepare(v, op) && HasBody(v, op) && !SaysNo(v, op)
    && exists s: nat :: Speaks(q, s, op) && PrepareAt(q[s].value, op) == PrepareAt(v, op)
  }

  /** The vote is of the top's view and repeats what it says from `floor` to its own head. */
  ghost predicate Follows(q: Votes, v: StoredDvc, floor: nat) {
    && OfTop(q, v)
    && forall op: nat :: floor <= op <= v.op ==> Repeats(q, v, op)
  }

  lemma SameTop(q: Votes, r: nat, v: StoredDvc)
    requires r < |q| && q[r].None? && OfTop(q, v)
    ensures forall s: nat :: AtTop(Joined(q, r, v), s) <==> AtTop(q, s) || s == r
  {
    var p := Joined(q, r, v);
    var top: nat :| AtTop(q, top) && q[top].value.logView == v.logView;
    assert p[r] == Some(v) && p[top] == q[top] && forall s: nat :: s < |q| && s != r ==> p[s] == q[s];
    forall s: nat | AtTop(p, s) ensures AtTop(q, s) || s == r {
      assert p[s].value.logView >= p[top].value.logView;
    }
  }

  /** The new vote speaks for the top or leaves it to whoever did. */
  lemma SpeaksAgain(q: Votes, r: nat, v: StoredDvc, op: nat)
    requires r < |q| && q[r].None? && OfTop(q, v)
    requires v.op < op || Repeats(q, v, op)
    ensures forall s: nat, t: nat :: Speaks(q, s, op) && Speaks(Joined(q, r, v), t, op) ==>
      PrepareAt(Joined(q, r, v)[t].value, op) == PrepareAt(q[s].value, op)
    ensures (exists s: nat :: Speaks(q, s, op)) <==> exists t: nat :: Speaks(Joined(q, r, v), t, op)
  {
    var p := Joined(q, r, v);
    SameTop(q, r, v);
    assert v.op < op ==> !HasPrepare(v, op);
    assert p[r] == Some(v) && forall s: nat :: s < |q| && s != r ==> p[s] == q[s];
    hide HasPrepare, HasBody, SaysNo;
    forall s: nat, t: nat | Speaks(q, s, op) && Speaks(p, t, op) ensures PrepareAt(p[t].value, op) == PrepareAt(q[s].value, op) {
      if t == r {
        var u: nat :| Speaks(q, u, op) && PrepareAt(q[u].value, op) == PrepareAt(v, op);
        assert u == s;
      } else {
        assert AtTop(p, s) && AtTop(q, t);
      }
    }
    if s: nat :| Speaks(q, s, op) {
      assert AtTop(p, s) && p[s] == q[s];
      var t := SomeoneSpeaks(p, op, s);
    }
    if t: nat :| Speaks(p, t, op) {
      if t != r {
        var s := SomeoneSpeaks(q, op, t);
      }
    }
  }

  lemma DisownsAgain(q: Votes, r: nat, v: StoredDvc, s: nat, op: nat, absence: bool)
    requires r < |q| && q[r].None? && OfTop(q, v)
    requires (v.op < op || Repeats(q, v, op)) && s < |q| && q[s].Some?
    ensures Joined(q, r, v)[s] == q[s] && (Disowns(Joined(q, r, v), s, op, absence) <==> Disowns(q, s, op, absence))
  {
    var p := Joined(q, r, v);
    SameTop(q, r, v);
    SpeaksAgain(q, r, v, op);
    assert v.op < op ==> !HasSlot(v, op);
    assert p[r] == Some(v) && forall t: nat :: t < |q| && t != r ==> p[t] == q[t];
    assert HasPrepare(v, op) ==> HasSlot(v, op);
    hide AtTop, HasPrepare, HasBody, SaysNo, CannotServe, HasSlot, EndsBelow;
    assert HoldsAnother(p, s, op) <==> HoldsAnother(q, s, op) by {
      if t: nat :| Speaks(q, t, op) {
        var u: nat :| Speaks(p, u, op);
      }
    }
    TruncatedAgain(q, r, v, s, op);
  }

  lemma TruncatedAgain(q: Votes, r: nat, v: StoredDvc, s: nat, op: nat)
    requires r < |q| && q[r].None? && OfTop(q, v)
    requires (v.op < op || Repeats(q, v, op)) && s < |q| && q[s].Some?
    ensures Joined(q, r, v)[s] == q[s] && (HoldsTruncated(Joined(q, r, v), s, op) <==> HoldsTruncated(q, s, op))
  {
    var p := Joined(q, r, v);
    SameTop(q, r, v);
    assert v.op < op ==> !HasSlot(v, op);
    assert p[r] == Some(v) && forall t: nat :: t < |q| && t != r ==> p[t] == q[t];
    if Repeats(q, v, op) {
      var t: nat :| Speaks(q, t, op) && PrepareAt(q[t].value, op) == PrepareAt(v, op);
      assert AtTop(q, t) && AtTop(p, t) && HasSlot(q[t].value, op) && HasPrepare(q[t].value, op);
    } else {
      hide AtTop, HasPrepare, SaysNo, HasSlot;
    }
  }

  /** What a repeated op gains: its body, and no new doubt. */
  lemma RepeatedOp(q: Votes, quorums: MergeQuorums, r: nat, v: StoredDvc, op: nat)
    requires r < |q| && q[r].None? && OfTop(q, v) && Repeats(q, v, op)
    ensures Disowners(Joined(q, r, v), op, quorums.absenceNacks) == Disowners(q, op, quorums.absenceNacks)
    ensures Agreed(q, op) ==> Recoverable(Joined(q, r, v), op)
  {
    var p := Joined(q, r, v);
    var absence := quorums.absenceNacks;
    SameTop(q, r, v);
    assert p[r] == Some(v) && forall t: nat :: t < |q| && t != r ==> p[t] == q[t];
    assert !Disowns(p, r, op, absence);
    forall s: nat | s < |q| && q[s].Some? ensures p[s] == q[s] && (Disowns(p, s, op, absence) <==> Disowns(q, s, op, absence)) {
      DisownsAgain(q, r, v, s, op, absence);
    }
    assert Serves(p, r, op, PrepareAt(p[r].value, op).checksum);
    hide Disowns, HasPrepare, HasBody;
    assert Disowners(p, op, absence) == Disowners(q, op, absence);
    if Agreed(q, op) {
      AgreedAgain(q, r, v, op);
    }
  }

  lemma AgreedAgain(q: Votes, r: nat, v: StoredDvc, op: nat)
    requires r < |q| && q[r].None? && OfTop(q, v) && Repeats(q, v, op)
    requires Agreed(q, op)
    ensures Agreed(Joined(q, r, v), op)
  {
    var p := Joined(q, r, v);
    SameTop(q, r, v);
    assert p[r] == Some(v) && forall t: nat :: t < |q| && t != r ==> p[t] == q[t];
    hide HasPrepare, HasBody, SaysNo;
    var u: nat :| Speaks(q, u, op) && PrepareAt(q[u].value, op) == PrepareAt(v, op);
    forall t: nat | AtTop(p, t) && HasPrepare(p[t].value, op) ensures PrepareAt(p[t].value, op).checksum == PrepareAt(v, op).checksum {
      if t != r {
        assert AtTop(q, t) && AtTop(q, u);
      }
    }
  }

  /** An op above the new vote's head gains at most its absence. */
  lemma OpAbove(q: Votes, r: nat, v: StoredDvc, op: nat)
    requires r < |q| && q[r].None? && OfTop(q, v) && v.op < op
    ensures Disowners(Joined(q, r, v), op, true) == Disowners(q, op, true) + {r} && r !in Disowners(q, op, true)
  {
    var p := Joined(q, r, v);
    assert p[r] == Some(v) && forall t: nat :: t < |q| && t != r ==> p[t] == q[t];
    assert Disowns(p, r, op, true);
    forall s: nat | s < |q| && q[s].Some? ensures p[s] == q[s] && (Disowns(p, s, op, true) <==> Disowns(q, s, op, true)) {
      DisownsAgain(q, r, v, s, op, true);
    }
    hide Disowns;
    assert Disowners(p, op, true) == Disowners(q, op, true) + {r};
  }

  /** A follower's vote moves neither the commit point nor what can be installed below it. */
  lemma FollowerInstalls(q: Votes, r: nat, v: StoredDvc, cm: nat, head: nat)
    requires r < |q| && q[r].None? && Follows(q, v, Max(cm, 1)) && head <= v.op
    ensures Installable(Joined(q, r, v), cm, head) <==> Installable(q, cm, head)
  {
    var p := Joined(q, r, v);
    hide Repeats, ReportsCommitted, NamedFromAbove, OfTop, Max;
    forall op: nat | Max(cm, 1) <= op < head ensures NamedFromAbove(p, op) <==> NamedFromAbove(q, op) {
      assert Repeats(q, v, op) && Repeats(q, v, op + 1);
      NamedAgain(q, r, v, op);
    }
    forall s: nat, h: PrepareHeader ensures ReportsCommitted(p, s, h) <==> ReportsCommitted(q, s, h) {
      ReportsAgain(q, r, v, s, h);
    }
  }

  lemma NamedAgain(q: Votes, r: nat, v: StoredDvc, op: nat)
    requires r < |q| && q[r].None? && OfTop(q, v) && Repeats(q, v, op) && Repeats(q, v, op + 1)
    ensures NamedFromAbove(Joined(q, r, v), op) <==> NamedFromAbove(q, op)
  {
    var p := Joined(q, r, v);
    SpeaksAgain(q, r, v, op);
    SpeaksAgain(q, r, v, op + 1);
    hide AtTop, HasPrepare, HasBody, SaysNo;
    var s: nat :| Speaks(q, s, op);
    var t: nat :| Speaks(q, t, op + 1);
    var again: nat :| Speaks(p, again, op);
    var above: nat :| Speaks(p, above, op + 1);
    NamedMeans(q, op, s, t);
    NamedMeans(p, op, again, above);
  }

  lemma OneSpeaker(q: Votes, op: nat)
    ensures forall s: nat, t: nat :: Speaks(q, s, op) && Speaks(q, t, op) ==> s == t
  {
    hide AtTop, HasPrepare;
  }

  lemma NamedMeans(q: Votes, op: nat, s: nat, t: nat)
    requires Speaks(q, s, op) && Speaks(q, t, op + 1)
    ensures NamedFromAbove(q, op) <==> PrepareAt(q[t].value, op + 1).parent == PrepareAt(q[s].value, op).checksum
  {
    OneSpeaker(q, op);
    OneSpeaker(q, op + 1);
    hide HasPrepare;
  }

  lemma ReportsAgain(q: Votes, r: nat, v: StoredDvc, s: nat, h: PrepareHeader)
    requires r < |q| && q[r].None? && OfTop(q, v)
    ensures ReportsCommitted(Joined(q, r, v), s, h) <==> ReportsCommitted(q, s, h)
  {
    SameTop(q, r, v);
    var p := Joined(q, r, v);
    assert p[r] == Some(v) && (s < |q| && s != r ==> p[s] == q[s]);
    hide AtTop, OfTop;
  }

  /** With a follower's vote in, the commit point, the highest op and the live ops below its head stay. */
  lemma FollowerWalks(q: Votes, quorums: MergeQuorums, r: nat, v: StoredDvc, cm: nat, top: nat, op: nat)
    requires r < |q| && q[r].None? && Walks(q, quorums, cm, top, op) && Bounded(v, quorums.prepareQueueCeiling, cm)
    requires Follows(q, v, Max(cm, 1)) && v.op <= op && v.op <= top
    ensures var p := Joined(q, r, v);
      && |Reported(p)| >= quorums.viewChange && Reported(p) != {}
      && IsCommitPoint(p, quorums.prepareQueueCeiling, cm) && IsHighestOp(p, cm, top)
      && forall x: nat :: Max(cm, 1) <= x < op && x <= v.op ==> Live(p, quorums, x)
  {
    var p := Joined(q, r, v);
    JoinedReports(q, r, v);
    SameTop(q, r, v);
    assert p[r] == Some(v) && forall t: nat :: t < |q| && t != r ==> p[t] == q[t];
    hide AtTop, Repeats, Bounded, Attains, OfTop, Agreed, Served, Disowners;
    FollowerPoint(q, r, v, quorums.prepareQueueCeiling, cm);
    forall x: nat | Max(cm, 1) <= x < op && x <= v.op ensures Live(p, quorums, x) {
      assert Live(q, quorums, x) && Repeats(q, v, x);
      RepeatedOp(q, quorums, r, v, x);
    }
  }

  lemma FollowerPoint(q: Votes, r: nat, v: StoredDvc, ceiling: nat, cm: nat)
    requires r < |q| && q[r].None? && IsCommitPoint(q, ceiling, cm) && Bounded(v, ceiling, cm)
    ensures IsCommitPoint(Joined(q, r, v), ceiling, cm)
  {
    var p := Joined(q, r, v);
    assert p[r] == Some(v) && forall t: nat :: t < |q| && t != r ==> p[t] == q[t];
    hide Bounded, Attains;
    if s :| 0 <= s < |q| && q[s].Some? && Attains(q[s].value, ceiling, cm) {
      assert p[s] == q[s];
    }
  }

  /** The deciding nack: a sender of the view whose log ends just below the op settles a wait one proof short. */
  lemma NackArrives(q: Votes, quorums: MergeQuorums, r: nat, v: StoredDvc, cm: nat, top: nat, op: nat)
    requires Seated(q) && r < |q| && q[r].None? && v.replica == r && v.WellFormed()
    requires Walks(q, quorums, cm, top, op) && WaitsAt(q, quorums, op) && cm < op && quorums.absenceNacks
    requires |Disowners(q, op, true)| + 1 == quorums.nackPrepare
    requires Bounded(v, quorums.prepareQueueCeiling, cm) && Follows(q, v, Max(cm, 1)) && v.op == op - 1
    ensures var outcome := Merge(Joined(q, r, v), quorums);
      if Installable(q, cm, op - 1) then outcome.Ready? && outcome.log.opHead == op - 1 else outcome == Deadlocked(op - 1)
  {
    hide *;
    var p := Joined(q, r, v);
    WaitsBelow(q, quorums, cm, top, op);
    FollowsTop(q, v, Max(cm, 1));
    JoinedSeated(q, r, v);
    FollowerWalks(q, quorums, r, v, cm, top, op);
    OpAbove(q, r, v, op);
    DisownersGrow(q, r, v, op);
    FollowerInstalls(q, r, v, cm, op - 1);
    EnoughDisown(p, quorums, op);
    DisownedOpIsDropped(p, quorums, cm, top, op, Disowners(p, op, quorums.absenceNacks));
  }

  lemma WaitsBelow(q: Votes, quorums: MergeQuorums, cm: nat, top: nat, op: nat)
    requires Walks(q, quorums, cm, top, op) && WaitsAt(q, quorums, op)
    ensures 0 < op <= top && cm <= op && !Dead(q, quorums, op)
  {
    hide Walks, Dead, Reported;
    OneWalk(q, quorums, cm, top, op);
    WalkBounds(q, quorums, cm, top, op);
  }

  lemma FollowsTop(q: Votes, v: StoredDvc, floor: nat)
    requires Follows(q, v, floor)
    ensures OfTop(q, v)
  {
  }

  lemma DisownersGrow(q: Votes, r: nat, v: StoredDvc, op: nat)
    requires r < |q| && Disowners(Joined(q, r, v), op, true) == Disowners(q, op, true) + {r} && r !in Disowners(q, op, true)
    ensures |Disowners(Joined(q, r, v), op, true)| == |Disowners(q, op, true)| + 1
  {
  }

  lemma EnoughDisown(p: Votes, quorums: MergeQuorums, op: nat)
    ensures forall r :: r in Disowners(p, op, quorums.absenceNacks) ==> r < |p| && p[r].Some? && Disowns(p, r, op, quorums.absenceNacks)
  {
    hide Disowns;
  }

  /** The missing body: once a sender of the view has it, the walk passes the op, and ends there if it is the highest. */
  lemma BodyArrives(q: Votes, quorums: MergeQuorums, r: nat, v: StoredDvc, cm: nat, top: nat, op: nat)
    requires Seated(q) && r < |q| && q[r].None? && v.replica == r && v.WellFormed()
    requires Walks(q, quorums, cm, top, op) && WaitsAt(q, quorums, op) && Agreed(q, op)
    requires Bounded(v, quorums.prepareQueueCeiling, cm) && Follows(q, v, Max(cm, 1)) && v.op == op
    ensures var outcome := Merge(Joined(q, r, v), quorums);
      && (forall x: nat :: x <= op ==> outcome != AwaitingRepair(x))
      && (op == top ==>
            if Installable(q, cm, op) then outcome.Ready? && outcome.log.opHead == op else outcome == Deadlocked(op))
  {
    hide *;
    var p := Joined(q, r, v);
    WaitsBelow(q, quorums, cm, top, op);
    JoinedSeated(q, r, v);
    FollowerWalks(q, quorums, r, v, cm, top, op);
    FollowerInstalls(q, r, v, cm, op);
    LiveAgain(q, quorums, r, v, cm, op);
    PassesLive(p, quorums, cm, top, op);
  }

  lemma LiveAgain(q: Votes, quorums: MergeQuorums, r: nat, v: StoredDvc, cm: nat, op: nat)
    requires r < |q| && q[r].None? && Follows(q, v, Max(cm, 1)) && cm <= op == v.op && 0 < op && Agreed(q, op) && !Dead(q, quorums, op)
    ensures Live(Joined(q, r, v), quorums, op)
  {
    hide Repeats, Agreed, Served, Disowners, OfTop;
    RepeatedOp(q, quorums, r, v, op);
  }

  lemma PassesLive(p: Votes, quorums: MergeQuorums, cm: nat, top: nat, op: nat)
    requires Seated(p) && |Reported(p)| >= quorums.viewChange && Reported(p) != {}
    requires IsCommitPoint(p, quorums.prepareQueueCeiling, cm) && IsHighestOp(p, cm, top) && cm <= op <= top && 0 < op
    requires Live(p, quorums, op) && forall x: nat :: Max(cm, 1) <= x < op ==> Live(p, quorums, x)
    ensures var outcome := Merge(p, quorums);
      && (forall x: nat :: x <= op ==> outcome != AwaitingRepair(x))
      && (op == top ==>
            if Installable(p, cm, op) then outcome.Ready? && outcome.log.opHead == op else outcome == Deadlocked(op))
  {
    hide Seated, Reported, IsCommitPoint, AtTop, Live, Merge, Installable, Dead;
    var c, t, at := WalkExists(p, quorums);
    WalkPoint(p, quorums, c, t, at, cm, top);
    EveryOutcome(p, quorums, cm, top, at);
  }

  lemma WalkPoint(p: Votes, quorums: MergeQuorums, c: nat, t: nat, at: nat, cm: nat, top: nat)
    requires Walks(p, quorums, c, t, at)
    requires IsCommitPoint(p, quorums.prepareQueueCeiling, cm) && IsHighestOp(p, cm, top)
    ensures c == cm && t == top
  {
    hide IsCommitPoint, IsHighestOp, CommitMax, HeadMax, TopView, AtTop, Canonical, Live;
    TopIs(p);
    CommitPointIs(p, quorums.prepareQueueCeiling, cm);
    CommitPointIs(p, quorums.prepareQueueCeiling, c);
    HighestOpIs(p, TopView(p).value, cm, top);
    HighestOpIs(p, TopView(p).value, c, t);
  }

  // ----- The view-change rule -----

  /**
   * A view change waits for repair exactly while a replica is missing and its trusted senders wait,
   * and for a quorum exactly while both rules lack one. With every replica in it never waits.
   */
  lemma ViewWaitsIff(q: Votes, quorums: MergeQuorums, op: nat)
    requires Seated(q) && 0 < quorums.viewChange && 0 < quorums.replicaCount
    ensures MergeView(q, quorums) == AwaitingRepair(op) <==>
      |Reported(q)| < quorums.replicaCount && WaitsAt(TrustedOnly(q), TrustedRule(quorums), op)
    ensures MergeView(q, quorums) == AwaitingQuorum <==>
      |Reported(q)| < quorums.replicaCount && |Reported(TrustedOnly(q))| < quorums.viewChange
  {
    var trusted := TrustedOnly(q);
    assert Seated(trusted);
    hide Merge, WaitsAt, RefusedAt, StartsAt, Reported, Seated;
    TrustedFewer(q);
    OutcomeIff(trusted, TrustedRule(quorums), op);
    OutcomeIff(q, AllReplicasRule(quorums), op);
    WaitNeedsMissing(trusted, TrustedRule(quorums), op);
    WaitNeedsMissing(q, AllReplicasRule(quorums), op);
  }

  lemma TrustedFewer(q: Votes)
    ensures |Reported(TrustedOnly(q))| <= |Reported(q)|
  {
    SubsetCardinality(Reported(TrustedOnly(q)), Reported(q));
  }

  lemma WaitNeedsMissing(q: Votes, quorums: MergeQuorums, op: nat)
    ensures WaitsAt(q, quorums, op) ==> |Reported(q)| < quorums.replicaCount && |Reported(q)| >= quorums.viewChange
  {
    hide Reported, IsCommitPoint, IsHighestOp, FirstNotLive, Dead;
  }
}
