/**
 * Every outcome of a merge in terms of what the votes carry: slots, bits, commit points, views
 * and checksums. A view starts, waits or is refused exactly under these conditions.
 */
module DvcOutcomes {
  import opened Common
  import opened Quorum
  import opened DvcMergeSpec
  import opened DvcMergeTheorems
  import opened DvcHistory
  import opened DvcClaims

  // ----- What one vote carries -----

  /** The vote has a slot for the op. */
  predicate HasSlot(dvc: StoredDvc, op: nat) {
    op <= dvc.op && dvc.op - op < |dvc.suffix.headers|
  }

  predicate HasPrepare(dvc: StoredDvc, op: nat) {
    HasSlot(dvc, op) && dvc.suffix.headers[dvc.op - op] != Blank(dvc.suffix.headers[dvc.op - op].op)
  }

  function PrepareAt(dvc: StoredDvc, op: nat): PrepareHeader
    requires HasPrepare(dvc, op)
  {
    dvc.suffix.headers[dvc.op - op]
  }

  predicate HasBody(dvc: StoredDvc, op: nat) {
    HasSlot(dvc, op) && dvc.op - op in dvc.suffix.presentBits
  }

  // The proofs a vote can give that its sender never acknowledged an op.

  predicate SaysNo(dvc: StoredDvc, op: nat) {
    HasSlot(dvc, op) && dvc.op - op in dvc.suffix.nackBits
  }

  predicate CannotServe(dvc: StoredDvc, op: nat) {
    HasPrepare(dvc, op) && !HasBody(dvc, op) && dvc.commit < op
  }

  predicate EndsBelow(dvc: StoredDvc, op: nat) {
    dvc.op < op
  }

  /** The sender reported from the highest view anybody reported from. */
  ghost predicate AtTop(q: Votes, r: nat) {
    r < |q| && q[r].Some? && forall s :: 0 <= s < |q| && q[s].Some? ==> q[s].value.logView <= q[r].value.logView
  }

  /** The lowest seat at the top that has a prepare of the op. */
  ghost predicate Speaks(q: Votes, r: nat, op: nat) {
    AtTop(q, r) && HasPrepare(q[r].value, op) && forall s: nat :: s < r && AtTop(q, s) ==> !HasPrepare(q[s].value, op)
  }

  ghost predicate HoldsAnother(q: Votes, r: nat, op: nat)
    requires r < |q| && q[r].Some?
  {
    HasPrepare(q[r].value, op) && !AtTop(q, r)
    && exists s: nat :: Speaks(q, s, op) && PrepareAt(q[s].value, op).checksum != PrepareAt(q[r].value, op).checksum
  }

  /** The sender holds an op nobody at the top holds or leaves open: a newer view has truncated it. */
  ghost predicate HoldsTruncated(q: Votes, r: nat, op: nat)
    requires r < |q| && q[r].Some?
  {
    HasPrepare(q[r].value, op) && !AtTop(q, r)
    && forall s: nat :: AtTop(q, s) && HasSlot(q[s].value, op) ==> !HasPrepare(q[s].value, op) && SaysNo(q[s].value, op)
  }

  ghost predicate Disowns(q: Votes, r: nat, op: nat, absence: bool)
    requires r < |q| && q[r].Some?
  {
    || (absence && EndsBelow(q[r].value, op))
    || SaysNo(q[r].value, op) || CannotServe(q[r].value, op)
    || HoldsAnother(q, r, op) || HoldsTruncated(q, r, op)
  }

  ghost function Disowners(q: Votes, op: nat, absence: bool): set<nat> {
    set r: nat | r < |q| && q[r].Some? && Disowns(q, r, op, absence)
  }

  /** Enough replicas disown the op to prove it never committed. */
  ghost predicate Dead(q: Votes, quorums: MergeQuorums, op: nat) {
    |Disowners(q, op, quorums.absenceNacks)| >= quorums.nackPrepare
  }

  /** No two top senders have different prepares of the op. */
  ghost predicate Agreed(q: Votes, op: nat) {
    forall r: nat, s: nat :: AtTop(q, r) && AtTop(q, s) && HasPrepare(q[r].value, op) && HasPrepare(q[s].value, op) ==>
      PrepareAt(q[r].value, op).checksum == PrepareAt(q[s].value, op).checksum
  }

  /** Some sender has the body of the prepare the top speaks for. */
  ghost predicate Served(q: Votes, op: nat) {
    exists r: nat, s: nat :: AtTop(q, r) && HasPrepare(q[r].value, op) && Serves(q, s, op, PrepareAt(q[r].value, op).checksum)
  }

  ghost predicate Recoverable(q: Votes, op: nat) {
    Agreed(q, op) && Served(q, op)
  }

  ghost predicate Serves(q: Votes, s: nat, op: nat, checksum: nat) {
    s < |q| && q[s].Some? && HasPrepare(q[s].value, op) && HasBody(q[s].value, op) && PrepareAt(q[s].value, op).checksum == checksum
  }

  ghost predicate Live(q: Votes, quorums: MergeQuorums, op: nat) {
    !Dead(q, quorums, op) && Recoverable(q, op)
  }

  // ----- What the votes say together -----

  /** The greatest of three bounds: a sender's commit, its head less the ceiling, its head's own commit. */
  ghost predicate IsCommitPoint(q: Votes, ceiling: nat, cm: nat) {
    && (forall r :: 0 <= r < |q| && q[r].Some? ==> Bounded(q[r].value, ceiling, cm))
    && (cm == 0 || exists r :: 0 <= r < |q| && q[r].Some? && Attains(q[r].value, ceiling, cm))
  }

  predicate Bounded(dvc: StoredDvc, ceiling: nat, cm: nat) {
    dvc.commit <= cm && dvc.op <= cm + ceiling && (dvc.suffix.headers != [] ==> dvc.suffix.headers[0].commit <= cm)
  }

  predicate Attains(dvc: StoredDvc, ceiling: nat, cm: nat) {
    || dvc.commit == cm || dvc.op == cm + ceiling
    || (dvc.suffix.headers != [] && dvc.suffix.headers[0].commit == cm)
  }

  /** The highest op a top sender reports, or the commit point above it. */
  ghost predicate IsHighestOp(q: Votes, cm: nat, top: nat) {
    && cm <= top && (forall r: nat :: AtTop(q, r) ==> q[r].value.op <= top)
    && (top == cm || exists r: nat :: AtTop(q, r) && q[r].value.op == top)
  }

  /** The first op from the commit point up that is not live; one past `top` when all are. */
  ghost predicate FirstNotLive(q: Votes, quorums: MergeQuorums, cm: nat, top: nat, at: nat) {
    && Max(cm, 1) <= at <= top + 1
    && (forall op: nat :: Max(cm, 1) <= op < at ==> Live(q, quorums, op))
    && (at <= top ==> !Live(q, quorums, at))
  }

  /** A sender behind the top reports this very prepare as committed. */
  ghost predicate ReportsCommitted(q: Votes, r: nat, h: PrepareHeader) {
    && r < |q| && q[r].Some? && !AtTop(q, r)
    && h in q[r].value.suffix.headers && h != Blank(h.op) && h.op <= q[r].value.commit
  }

  /** What the top says of the op above names what it says of this one as its parent. */
  ghost predicate NamedFromAbove(q: Votes, op: nat) {
    forall r: nat, s: nat :: Speaks(q, r, op + 1) && Speaks(q, s, op) ==>
      PrepareAt(q[r].value, op + 1).parent == PrepareAt(q[s].value, op).checksum
  }

  /** No two senders behind the top report different prepares committed at an op outside the new log. */
  ghost predicate Uncontested(q: Votes, cm: nat, head: nat) {
    forall r: nat, s: nat, h: PrepareHeader, g: PrepareHeader ::
      ReportsCommitted(q, r, h) && ReportsCommitted(q, s, g) && h.op == g.op && !(Max(cm, 1) <= h.op <= head) ==>
        h.checksum == g.checksum
  }

  /** The ops from the commit point to `head` are one hash chain, and nothing below them is contested. */
  ghost predicate Installable(q: Votes, cm: nat, head: nat) {
    (forall op: nat :: Max(cm, 1) <= op < head ==> NamedFromAbove(q, op)) && Uncontested(q, cm, head)
  }

  // ----- The specification says the same -----

  lemma TopIs(q: Votes)
    requires Reported(q) != {}
    ensures TopView(q).Some? && forall r: nat :: AtTop(q, r) <==> Canonical(q, TopView(q).value, r)
    ensures forall r: nat :: r < |q| && q[r].Some? ==> (!AtTop(q, r) <==> q[r].value.logView < TopView(q).value)
  {
    var r :| r in Reported(q);
  }

  lemma SlotsAre(dvc: StoredDvc, op: nat)
    ensures HasSlot(dvc, op) <==> dvc.Covers(op)
    ensures HasPrepare(dvc, op) <==> dvc.Held(op).Some?
    ensures HasPrepare(dvc, op) ==> dvc.Held(op) == Some(PrepareAt(dvc, op))
    ensures HasBody(dvc, op) <==> dvc.OffersBody(op)
    ensures SaysNo(dvc, op) <==> dvc.Nacks(op)
  {
  }

  lemma AllSlots(q: Votes, op: nat)
    ensures forall r: nat :: r < |q| && q[r].Some? ==>
      && (HasPrepare(q[r].value, op) <==> q[r].value.Held(op).Some?)
      && (HasPrepare(q[r].value, op) ==> q[r].value.Held(op) == Some(PrepareAt(q[r].value, op)))
      && (HasBody(q[r].value, op) <==> q[r].value.OffersBody(op))
  {
    forall r: nat | r < |q| && q[r].Some?
      ensures HasPrepare(q[r].value, op) <==> q[r].value.Held(op).Some?
      ensures HasPrepare(q[r].value, op) ==> q[r].value.Held(op) == Some(PrepareAt(q[r].value, op))
      ensures HasBody(q[r].value, op) <==> q[r].value.OffersBody(op)
    {
      SlotsAre(q[r].value, op);
    }
  }

  /** The canonical header is what the lowest seat at the top says. */
  lemma {:induction false} HeaderIsSpoken(q: Votes, lv: nat, op: nat, n: nat, r: nat)
    requires r < n <= |q| && Speaks(q, r, op) && forall s: nat :: AtTop(q, s) <==> Canonical(q, lv, s)
    ensures HeaderOf(q, lv, op, n) == Some(PrepareAt(q[r].value, op))
  {
    hide AtTop, HasPrepare, StoredDvc.Held, HasSlot;
    AllSlots(q, op);
    if r < n - 1 {
      HeaderIsSpoken(q, lv, op, n - 1, r);
    }
  }

  lemma {:induction false} SomeoneSpeaks(q: Votes, op: nat, r: nat) returns (s: nat)
    requires AtTop(q, r) && HasPrepare(q[r].value, op)
    ensures s <= r && Speaks(q, s, op)
  {
    hide HasPrepare;
    if lower: nat :| lower < r && AtTop(q, lower) && HasPrepare(q[lower].value, op) {
      s := SomeoneSpeaks(q, op, lower);
    } else {
      s := r;
    }
  }

  /** What the top senders say of an op, through the specification's eyes. */
  lemma TopSays(q: Votes, lv: nat, op: nat)
    requires TopView(q) == Some(lv)
    ensures Header(q, lv, op).None? <==> forall s: nat :: AtTop(q, s) ==> !HasPrepare(q[s].value, op)
    ensures forall s: nat :: Speaks(q, s, op) ==> Header(q, lv, op) == Some(PrepareAt(q[s].value, op))
    ensures Header(q, lv, op).Some? ==> exists s: nat :: Speaks(q, s, op)
  {
    TopAt(q, lv);
    AllSlots(q, op);
    hide AtTop, HasPrepare, HasSlot, StoredDvc.Held, Header, TopView;
    HeaderIs(q, lv, op);
    forall s: nat | Speaks(q, s, op) ensures Header(q, lv, op) == Some(PrepareAt(q[s].value, op)) {
      assert Canonical(q, lv, s);
      HeaderIsSpoken(q, lv, op, |q|, s);
    }
    if Header(q, lv, op).Some? {
      var r: nat :| Canonical(q, lv, r) && q[r].value.Held(op) == Header(q, lv, op);
      assert AtTop(q, r);
      var s := SomeoneSpeaks(q, op, r);
    }
  }

  lemma TopAbstains(q: Votes, lv: nat, op: nat)
    requires TopView(q) == Some(lv)
    ensures Abstained(q, lv, op) <==> exists s: nat :: AtTop(q, s) && HasSlot(q[s].value, op) && !HasPrepare(q[s].value, op) && !SaysNo(q[s].value, op)
  {
    TopAt(q, lv);
    hide AtTop, HasPrepare, HasSlot, SaysNo, StoredDvc.Held, StoredDvc.Covers, StoredDvc.Nacks, TopView;
    forall s: nat | Canonical(q, lv, s)
      ensures AbstainsAt(q[s].value, op) <==> HasSlot(q[s].value, op) && !HasPrepare(q[s].value, op) && !SaysNo(q[s].value, op)
    {
      SlotsAre(q[s].value, op);
    }
  }

  lemma HeaderIs(q: Votes, lv: nat, op: nat)
    ensures Header(q, lv, op) == HeaderOf(q, lv, op, |q|)
  {
  }

  lemma TopAt(q: Votes, lv: nat)
    requires TopView(q) == Some(lv)
    ensures forall r: nat :: AtTop(q, r) <==> Canonical(q, lv, r)
    ensures forall r: nat :: r < |q| && q[r].Some? ==> (AtTop(q, r) <==> q[r].value.logView >= lv)
  {
  }

  lemma DisownsIsNack(q: Votes, lv: nat, r: nat, op: nat, absence: bool)
    requires TopView(q) == Some(lv) && r < |q| && q[r].Some?
    ensures Disowns(q, r, op, absence) <==> NackVote(q[r].value, Header(q, lv, op), Abstained(q, lv, op), lv, op, absence)
  {
    TopSays(q, lv, op);
    TopAbstains(q, lv, op);
    TopAt(q, lv);
    SlotsAre(q[r].value, op);
    hide AtTop, TopView, Header, Abstained, HasBody, StoredDvc.Held, StoredDvc.OffersBody, StoredDvc.Nacks;
    assert HoldsAnother(q, r, op) <==>
      HasPrepare(q[r].value, op) && q[r].value.logView < lv && Header(q, lv, op).Some?
      && Header(q, lv, op).value.checksum != PrepareAt(q[r].value, op).checksum;
    assert HoldsTruncated(q, r, op) <==>
      HasPrepare(q[r].value, op) && q[r].value.logView < lv && Header(q, lv, op).None? && !Abstained(q, lv, op);
  }

  lemma NackersAreDisowners(q: Votes, lv: nat, op: nat, absence: bool)
    requires TopView(q) == Some(lv)
    ensures Nackers(q, lv, op, absence) == Disowners(q, op, absence)
  {
    hide NackVote, Disowns, Header, Abstained, TopView;
    forall r: nat | r < |q| && q[r].Some?
      ensures Disowns(q, r, op, absence) <==> NackVote(q[r].value, Header(q, lv, op), Abstained(q, lv, op), lv, op, absence)
    {
      DisownsIsNack(q, lv, r, op, absence);
    }
  }

  lemma RecoverableIsAdoptable(q: Votes, lv: nat, op: nat)
    requires TopView(q) == Some(lv)
    ensures Recoverable(q, op) <==> Adoptable(q, lv, op)
  {
    AgreementIs(q, lv, op);
    ServedIs(q, lv, op);
    hide Agreed, Served, Adoptable, Conflict, Copiers, TopView;
    AdoptableMeans(q, lv, op);
  }

  lemma AdoptableMeans(q: Votes, lv: nat, op: nat)
    ensures Adoptable(q, lv, op) <==> !Conflict(q, lv, op) && Copiers(q, lv, op) != {}
  {
    hide Conflict;
    if Copiers(q, lv, op) != {} {
      var r :| r in Copiers(q, lv, op);
    }
  }

  lemma AgreementIs(q: Votes, lv: nat, op: nat)
    requires TopView(q) == Some(lv)
    ensures Agreed(q, op) <==> !Conflict(q, lv, op)
  {
    TopAt(q, lv);
    AllSlots(q, op);
    hide AtTop, TopView, HasPrepare, StoredDvc.Held;
  }

  lemma ServedIs(q: Votes, lv: nat, op: nat)
    requires TopView(q) == Some(lv)
    ensures Agreed(q, op) ==> (Served(q, op) <==> Copiers(q, lv, op) != {})
  {
    TopSays(q, lv, op);
    TopAt(q, lv);
    AllSlots(q, op);
    hide AtTop, TopView, Header, Abstained, HasPrepare, HasSlot, HasBody, SaysNo, StoredDvc.Held, StoredDvc.OffersBody;
    if s :| s in Copiers(q, lv, op) {
      var r: nat :| Speaks(q, r, op);
      assert Serves(q, s, op, PrepareAt(q[r].value, op).checksum);
    }
    if Agreed(q, op) && Served(q, op) {
      var r: nat, s: nat :| AtTop(q, r) && HasPrepare(q[r].value, op) && Serves(q, s, op, PrepareAt(q[r].value, op).checksum);
      var first: nat :| Speaks(q, first, op);
      assert PrepareAt(q[first].value, op).checksum == PrepareAt(q[r].value, op).checksum;
      assert s in Copiers(q, lv, op);
    }
  }

  lemma CommitPointIs(q: Votes, ceiling: nat, cm: nat)
    ensures IsCommitPoint(q, ceiling, cm) <==> cm == CommitMax(q, ceiling)
  {
    var m := CommitMax(q, ceiling);
    forall r | 0 <= r < |q| && q[r].Some?
      ensures CommitBound(q[r].value, ceiling) <= m && (Bounded(q[r].value, ceiling, cm) <==> CommitBound(q[r].value, ceiling) <= cm)
      ensures Bounded(q[r].value, ceiling, m)
      ensures 0 < CommitBound(q[r].value, ceiling) ==> Attains(q[r].value, ceiling, CommitBound(q[r].value, ceiling))
      ensures Attains(q[r].value, ceiling, cm) && Bounded(q[r].value, ceiling, cm) && 0 < cm ==> CommitBound(q[r].value, ceiling) == cm
    {
    }
    hide CommitMax, CommitBound, Bounded, Attains;
  }

  lemma HighestOpIs(q: Votes, lv: nat, cm: nat, top: nat)
    requires TopView(q) == Some(lv)
    ensures IsHighestOp(q, cm, top) <==> top == HeadMax(q, lv, cm)
  {
    TopAt(q, lv);
    hide AtTop, TopView;
  }

  /** The walk stops at the first op that is not live. */
  lemma {:induction false} ScanIs(q: Votes, quorums: MergeQuorums, lv: nat, cm: nat, top: nat, op: nat, at: nat)
    requires 0 < op <= at <= top + 1
    requires forall x: nat :: op <= x < at ==> !NackQuorum(q, quorums, lv, x) && Adoptable(q, lv, x)
    requires at <= top ==> NackQuorum(q, quorums, lv, at) || !Adoptable(q, lv, at)
    ensures Scan(q, quorums, lv, cm, top, op) ==
      if at > top then Head(top)
      else if NackQuorum(q, quorums, lv, at) then if at <= cm then Halt(Deadlocked(at)) else Head(at - 1)
      else Halt(if |Reported(q)| < quorums.replicaCount then AwaitingRepair(at) else Deadlocked(at))
    decreases top + 1 - op
  {
    hide NackQuorum, Adoptable, Reported;
    if op < at {
      ScanIs(q, quorums, lv, cm, top, op + 1, at);
    }
  }

  ghost predicate LinkedAt(q: Votes, lv: nat, op: nat) {
    && Header(q, lv, op).Some? && Header(q, lv, op + 1).Some?
    && Header(q, lv, op + 1).value.parent == Header(q, lv, op).value.checksum
  }

  lemma LinkIs(q: Votes, lv: nat, op: nat)
    requires TopView(q) == Some(lv) && Header(q, lv, op).Some? && Header(q, lv, op + 1).Some?
    ensures NamedFromAbove(q, op) <==> LinkedAt(q, lv, op)
  {
    TopSays(q, lv, op);
    TopSays(q, lv, op + 1);
    hide TopView, Header, AtTop, HasPrepare;
  }

  /** The top has one prepare of the op. */
  ghost predicate OneAt(q: Votes, lv: nat, op: nat) {
    !Conflict(q, lv, op) && Header(q, lv, op).Some?
  }

  /** Where the top has one prepare for every op, the chain is whole exactly when each names the next. */
  lemma ChainIff(q: Votes, lv: nat, op: nat, floor: nat)
    requires floor <= op && forall x: nat :: floor <= x <= op ==> OneAt(q, lv, x)
    ensures Chain(q, lv, op, floor).Some? <==> forall x: nat :: floor <= x < op ==> LinkedAt(q, lv, x)
  {
    hide Chain, OneAt, LinkedAt, ChainsDown;
    if Chain(q, lv, op, floor).Some? {
      ChainIsDown(q, lv, op, floor);
      DownIsLinked(q, lv, op, floor, Chain(q, lv, op, floor).value);
    }
    if forall x: nat :: floor <= x < op ==> LinkedAt(q, lv, x) {
      var hs := LinkedIsDown(q, lv, op, floor);
      DownIsChain(q, lv, op, floor, hs);
    }
  }

  lemma {:induction false} LinkedIsDown(q: Votes, lv: nat, op: nat, floor: nat) returns (hs: seq<PrepareHeader>)
    requires floor <= op && forall x: nat :: floor <= x <= op ==> OneAt(q, lv, x)
    requires forall x: nat :: floor <= x < op ==> LinkedAt(q, lv, x)
    ensures ChainsDown(q, lv, op, floor, hs)
    decreases op - floor
  {
    hide ChainsDown, LinkedAt, OneAt;
    var h := TheOne(q, lv, op);
    if op == floor {
      hs := [h];
      ChainOfOne(q, lv, op, h);
    } else {
      var rest := LinkedIsDown(q, lv, op - 1, floor);
      assert LinkedAt(q, lv, op - 1);
      hs := [h] + rest;
      ChainOnTop(q, lv, op, floor, h, rest);
    }
  }

  lemma TheOne(q: Votes, lv: nat, op: nat) returns (h: PrepareHeader)
    requires OneAt(q, lv, op)
    ensures Header(q, lv, op) == Some(h)
  {
    h := Header(q, lv, op).value;
  }

  lemma ChainOfOne(q: Votes, lv: nat, op: nat, h: PrepareHeader)
    requires OneAt(q, lv, op) && Header(q, lv, op) == Some(h)
    ensures ChainsDown(q, lv, op, op, [h])
  {
    hide Conflict, Header;
  }

  lemma ChainOnTop(q: Votes, lv: nat, op: nat, floor: nat, h: PrepareHeader, rest: seq<PrepareHeader>)
    requires floor < op && OneAt(q, lv, op) && Header(q, lv, op) == Some(h)
    requires ChainsDown(q, lv, op - 1, floor, rest) && LinkedAt(q, lv, op - 1)
    ensures ChainsDown(q, lv, op, floor, [h] + rest)
  {
    hide Conflict, Header, Canonical, StoredDvc.Held;
    var hs := [h] + rest;
    assert Header(q, lv, op - 1) == Some(rest[op - 1 - (op - 1)]);
    LinkUp(q, lv, op - 1, rest[0], h);
    forall at | floor <= at <= op ensures !Conflict(q, lv, at) && Header(q, lv, at) == Some(hs[op - at]) {
      if at < op {
        assert hs[op - at] == rest[op - 1 - at];
      }
    }
    assert forall i :: 0 < i < |hs| ==> hs[i] == rest[i - 1];
  }

  lemma LinkUp(q: Votes, lv: nat, op: nat, below: PrepareHeader, above: PrepareHeader)
    requires LinkedAt(q, lv, op) && Header(q, lv, op) == Some(below) && Header(q, lv, op + 1) == Some(above)
    ensures above.parent == below.checksum
  {
    hide Header;
  }

  lemma DownIsLinked(q: Votes, lv: nat, op: nat, floor: nat, hs: seq<PrepareHeader>)
    requires ChainsDown(q, lv, op, floor, hs)
    ensures forall x: nat :: floor <= x < op ==> LinkedAt(q, lv, x)
  {
    hide Conflict, Header;
    forall x: nat | floor <= x < op ensures LinkedAt(q, lv, x) {
      var i := op - (x + 1);
      assert hs[i].parent == hs[i + 1].checksum;
      assert Header(q, lv, x) == Some(hs[op - x]) && Header(q, lv, x + 1) == Some(hs[op - (x + 1)]);
    }
  }

  lemma ReportsAreClaims(q: Votes, lv: nat, r: nat, h: PrepareHeader)
    requires TopView(q) == Some(lv)
    ensures ReportsCommitted(q, r, h) <==> Claims(q, lv, r, h)
  {
    TopAt(q, lv);
    hide AtTop, TopView;
  }

  lemma ContestIs(q: Votes, lv: nat, cm: nat, head: nat, hs: seq<PrepareHeader>)
    requires TopView(q) == Some(lv) && forall op: nat :: HasOp(hs, op) <==> Max(cm, 1) <= op <= head
    ensures Contested(q, lv, hs) <==> !Uncontested(q, cm, head)
  {
    hide ReportsCommitted, Claims, HasOp, TopView, Max;
    forall r: nat, h: PrepareHeader ensures ReportsCommitted(q, r, h) <==> Claims(q, lv, r, h) {
      ReportsAreClaims(q, lv, r, h);
    }
  }

  lemma RunOps(hs: seq<PrepareHeader>, head: nat, floor: nat)
    requires 0 < floor <= head && |hs| == head - floor + 1 && Run(hs, head)
    ensures forall op: nat :: HasOp(hs, op) <==> floor <= op <= head
  {
    forall op: nat | floor <= op <= head ensures HasOp(hs, op) {
      assert hs[head - op].op == op;
    }
  }

  /** Installing live ops from the commit point to the head. */
  lemma SettleIs(q: Votes, lv: nat, cm: nat, head: nat)
    requires Seated(q) && TopView(q) == Some(lv) && cm <= head && forall op: nat :: Max(cm, 1) <= op <= head ==> Adoptable(q, lv, op)
    ensures var outcome := Settle(q, lv, cm, head);
      if Installable(q, cm, head) then outcome.Ready? && outcome.log.opHead == head && outcome.log.commitMax == cm
      else outcome == Deadlocked(head)
  {
    hide Chain, Adoptable, NamedFromAbove, Uncontested, TopView, Seated, Elsewhere, LinkedAt, Contested, OneAt, Run, ChainsDown;
    if head == 0 {
      ElsewhereIsComplete(q, lv, []);
      ContestIs(q, lv, cm, head, []);
    } else {
      var floor := Max(cm, 1);
      AdoptableOnes(q, lv, floor, head);
      LinksAre(q, lv, floor, head);
      ChainIff(q, lv, head, floor);
      if Chain(q, lv, head, floor).Some? {
        var hs := Chain(q, lv, head, floor).value;
        ChainIsDown(q, lv, head, floor);
        HeadersAreAgreed(q, lv, head, floor, hs);
        RunStartsAtHead(hs, head);
        ElsewhereIsComplete(q, lv, hs);
        RunOps(hs, head, floor);
        ContestIs(q, lv, cm, head, hs);
      }
    }
  }

  lemma AdoptableOnes(q: Votes, lv: nat, floor: nat, head: nat)
    requires forall op: nat :: floor <= op <= head ==> Adoptable(q, lv, op)
    ensures forall op: nat :: floor <= op <= head ==> OneAt(q, lv, op)
  {
    hide Conflict, Header, Copiers;
    forall op: nat | floor <= op <= head ensures OneAt(q, lv, op) {
      assert Adoptable(q, lv, op);
    }
  }

  lemma LinksAre(q: Votes, lv: nat, floor: nat, head: nat)
    requires TopView(q) == Some(lv) && forall op: nat :: floor <= op <= head ==> OneAt(q, lv, op)
    ensures (forall op: nat :: floor <= op < head ==> NamedFromAbove(q, op)) <==> forall op: nat :: floor <= op < head ==> LinkedAt(q, lv, op)
  {
    hide TopView, NamedFromAbove, LinkedAt, Conflict, Header;
    forall op: nat | floor <= op < head ensures NamedFromAbove(q, op) <==> LinkedAt(q, lv, op) {
      assert OneAt(q, lv, op) && OneAt(q, lv, op + 1);
      LinkIs(q, lv, op);
    }
  }

  // ----- Every outcome -----

  /** Enough votes are in, and these are their commit point, highest op and first op that is not live. */
  ghost predicate Walks(q: Votes, quorums: MergeQuorums, cm: nat, top: nat, at: nat) {
    && |Reported(q)| >= quorums.viewChange && Reported(q) != {}
    && IsCommitPoint(q, quorums.prepareQueueCeiling, cm) && IsHighestOp(q, cm, top) && FirstNotLive(q, quorums, cm, top, at)
  }

  lemma LiveIs(q: Votes, quorums: MergeQuorums, lv: nat, op: nat)
    requires TopView(q) == Some(lv)
    ensures Dead(q, quorums, op) <==> NackQuorum(q, quorums, lv, op)
    ensures Recoverable(q, op) <==> Adoptable(q, lv, op)
  {
    hide TopView, Nackers, Disowners, Recoverable, Adoptable;
    NackersAreDisowners(q, lv, op, quorums.absenceNacks);
    RecoverableIsAdoptable(q, lv, op);
  }

  /** Every quorum of votes has a commit point, a highest op and a first op that is not live. */
  lemma WalkExists(q: Votes, quorums: MergeQuorums) returns (cm: nat, top: nat, at: nat)
    requires |Reported(q)| >= quorums.viewChange && Reported(q) != {}
    ensures Walks(q, quorums, cm, top, at)
  {
    hide IsCommitPoint, IsHighestOp, CommitMax, HeadMax, TopView, AtTop, Canonical, Live;
    TopIs(q);
    var lv := TopView(q).value;
    cm := CommitMax(q, quorums.prepareQueueCeiling);
    top := HeadMax(q, lv, cm);
    CommitPointIs(q, quorums.prepareQueueCeiling, cm);
    HighestOpIs(q, lv, cm, top);
    at := Max(cm, 1);
    while at <= top && Live(q, quorums, at)
      invariant Max(cm, 1) <= at <= top + 1 && forall op: nat :: Max(cm, 1) <= op < at ==> Live(q, quorums, op)
    {
      at := at + 1;
    }
  }

  /**
   * What a quorum of votes decides. The walk goes up from the commit point to the first op that is
   * not live. It refuses a dead op the votes also prove committed; it waits at an op neither dead
   * nor recoverable, or refuses it when every replica is in; and otherwise it starts the view with
   * the ops below, if they can be installed.
   */
  lemma EveryOutcome(q: Votes, quorums: MergeQuorums, cm: nat, top: nat, at: nat)
    requires Seated(q) && Walks(q, quorums, cm, top, at)
    ensures var outcome := Merge(q, quorums);
      if at <= top && !Dead(q, quorums, at) then
        outcome == if |Reported(q)| < quorums.replicaCount then AwaitingRepair(at) else Deadlocked(at)
      else if at <= top && at <= cm then outcome == Deadlocked(at)
      else if top == 0 || Installable(q, cm, at - 1) then
        outcome.Ready? && outcome.log.opHead == at - 1 && outcome.log.commitMax == cm
      else outcome == Deadlocked(at - 1)
  {
    hide Seated, IsCommitPoint, IsHighestOp, CommitMax, HeadMax, TopView, AtTop, Canonical, Dead, Recoverable,
      NackQuorum, Adoptable, Scan, Settle, Installable;
    TopIs(q);
    var lv := TopView(q).value;
    CommitPointIs(q, quorums.prepareQueueCeiling, cm);
    HighestOpIs(q, lv, cm, top);
    forall op: nat
      ensures Dead(q, quorums, op) <==> NackQuorum(q, quorums, lv, op)
      ensures Recoverable(q, op) <==> Adoptable(q, lv, op)
    {
      LiveIs(q, quorums, lv, op);
    }
    forall x: nat | Max(cm, 1) <= x < at ensures !NackQuorum(q, quorums, lv, x) && Adoptable(q, lv, x) {
      assert Live(q, quorums, x);
    }
    if top > 0 {
      ScanIs(q, quorums, lv, cm, top, Max(cm, 1), at);
      if at > top || (NackQuorum(q, quorums, lv, at) && at > cm) {
        SettleIs(q, lv, cm, at - 1);
      }
    }
  }

  /** The walk waits at `op`: a replica is missing, and the op is neither dead nor recoverable. */
  ghost predicate WaitsAt(q: Votes, quorums: MergeQuorums, op: nat) {
    && |Reported(q)| < quorums.replicaCount && !Dead(q, quorums, op)
    && exists cm: nat, top: nat :: Walks(q, quorums, cm, top, op) && op <= top
  }

  /** The walk ends with this head. */
  ghost predicate EndsAt(q: Votes, quorums: MergeQuorums, cm: nat, top: nat, head: nat) {
    Walks(q, quorums, cm, top, head + 1) && (head == top || (cm <= head < top && Dead(q, quorums, head + 1)))
  }

  /** The view can never start from these votes, because of this op. */
  ghost predicate RefusedAt(q: Votes, quorums: MergeQuorums, op: nat) {
    exists cm: nat, top: nat ::
      || (Walks(q, quorums, cm, top, op) && op <= top && if Dead(q, quorums, op) then op <= cm else |Reported(q)| >= quorums.replicaCount)
      || (EndsAt(q, quorums, cm, top, op) && top > 0 && !Installable(q, cm, op))
  }

  ghost predicate StartsAt(q: Votes, quorums: MergeQuorums, head: nat) {
    exists cm: nat, top: nat :: EndsAt(q, quorums, cm, top, head) && (top == 0 || Installable(q, cm, head))
  }

  lemma OneWalk(q: Votes, quorums: MergeQuorums, cm: nat, top: nat, at: nat)
    requires Walks(q, quorums, cm, top, at)
    ensures forall c: nat, t: nat, a: nat :: Walks(q, quorums, c, t, a) ==> c == cm && t == top && a == at
  {
    hide IsCommitPoint, IsHighestOp, CommitMax, HeadMax, TopView, AtTop, Canonical, Live, Max;
    TopIs(q);
    var lv := TopView(q).value;
    CommitPointIs(q, quorums.prepareQueueCeiling, cm);
    HighestOpIs(q, lv, cm, top);
    forall c: nat, t: nat, a: nat | Walks(q, quorums, c, t, a) ensures c == cm && t == top && a == at {
      CommitPointIs(q, quorums.prepareQueueCeiling, c);
      HighestOpIs(q, lv, c, t);
      assert (a < at ==> Live(q, quorums, a)) && (at < a ==> Live(q, quorums, at));
    }
  }

  lemma WaitsHere(q: Votes, quorums: MergeQuorums, cm: nat, top: nat, at: nat, op: nat)
    requires Walks(q, quorums, cm, top, at)
    ensures WaitsAt(q, quorums, op) <==> op == at <= top && !Dead(q, quorums, at) && |Reported(q)| < quorums.replicaCount
  {
    hide Walks, Dead, Reported;
    OneWalk(q, quorums, cm, top, at);
  }

  lemma EndsHere(q: Votes, quorums: MergeQuorums, cm: nat, top: nat, at: nat, c: nat, t: nat, op: nat)
    requires Walks(q, quorums, cm, top, at)
    ensures EndsAt(q, quorums, c, t, op) <==>
      c == cm && t == top && op + 1 == at && (at > top || (Dead(q, quorums, at) && at > cm))
  {
    WalkBounds(q, quorums, cm, top, at);
    hide Walks, Dead;
    OneWalk(q, quorums, cm, top, at);
  }

  lemma RefusedHere(q: Votes, quorums: MergeQuorums, cm: nat, top: nat, at: nat, op: nat)
    requires Walks(q, quorums, cm, top, at)
    ensures RefusedAt(q, quorums, op) <==>
      || (op == at <= top && if Dead(q, quorums, at) then at <= cm else |Reported(q)| >= quorums.replicaCount)
      || (op + 1 == at && (at > top || (Dead(q, quorums, at) && at > cm)) && top > 0 && !Installable(q, cm, op))
  {
    hide Walks, Dead, Installable, Reported, EndsAt;
    OneWalk(q, quorums, cm, top, at);
    forall c: nat, t: nat ensures EndsAt(q, quorums, c, t, op) <==>
      c == cm && t == top && op + 1 == at && (at > top || (Dead(q, quorums, at) && at > cm)) {
      EndsHere(q, quorums, cm, top, at, c, t, op);
    }
    assert EndsAt(q, quorums, cm, top, op) <==> op + 1 == at && (at > top || (Dead(q, quorums, at) && at > cm));
  }

  lemma StartsHere(q: Votes, quorums: MergeQuorums, cm: nat, top: nat, at: nat, op: nat)
    requires Walks(q, quorums, cm, top, at)
    ensures StartsAt(q, quorums, op) <==>
      op + 1 == at && (at > top || (Dead(q, quorums, at) && at > cm)) && (top == 0 || Installable(q, cm, op))
  {
    hide Walks, Dead, Installable, EndsAt;
    forall c: nat, t: nat ensures EndsAt(q, quorums, c, t, op) <==>
      c == cm && t == top && op + 1 == at && (at > top || (Dead(q, quorums, at) && at > cm)) {
      EndsHere(q, quorums, cm, top, at, c, t, op);
    }
    assert EndsAt(q, quorums, cm, top, op) <==> op + 1 == at && (at > top || (Dead(q, quorums, at) && at > cm));
  }

  lemma WalkBounds(q: Votes, quorums: MergeQuorums, cm: nat, top: nat, at: nat)
    requires Walks(q, quorums, cm, top, at)
    ensures 0 < at <= top + 1 && cm <= at && cm <= top
  {
    hide IsCommitPoint, Live, AtTop;
  }

  lemma NoQuorumYet(q: Votes, quorums: MergeQuorums)
    requires |Reported(q)| < quorums.viewChange || Reported(q) == {}
    ensures Merge(q, quorums) == AwaitingQuorum
    ensures forall op: nat :: !WaitsAt(q, quorums, op) && !RefusedAt(q, quorums, op) && !StartsAt(q, quorums, op)
  {
    hide IsCommitPoint, IsHighestOp, FirstNotLive, Scan, Settle, CommitMax, HeadMax;
    if Reported(q) == {} {
      forall r: nat | r < |q| ensures q[r].None? {
        assert r !in Reported(q);
      }
    }
  }

  /** The exact condition of each outcome. */
  lemma OutcomeIff(q: Votes, quorums: MergeQuorums, op: nat)
    requires Seated(q)
    ensures Merge(q, quorums) == AwaitingQuorum <==> |Reported(q)| < quorums.viewChange || Reported(q) == {}
    ensures Merge(q, quorums) == AwaitingRepair(op) <==> WaitsAt(q, quorums, op)
    ensures Merge(q, quorums) == Deadlocked(op) <==> RefusedAt(q, quorums, op)
    ensures Merge(q, quorums).Ready? && Merge(q, quorums).log.opHead == op <==> StartsAt(q, quorums, op)
  {
    hide Merge, Walks, Dead, Installable, Reported, Seated, WaitsAt, RefusedAt, StartsAt;
    if |Reported(q)| < quorums.viewChange || Reported(q) == {} {
      NoQuorumYet(q, quorums);
    } else {
      var cm, top, at := WalkExists(q, quorums);
      WalkBounds(q, quorums, cm, top, at);
      EveryOutcome(q, quorums, cm, top, at);
      WaitsHere(q, quorums, cm, top, at, op);
      RefusedHere(q, quorums, cm, top, at, op);
      StartsHere(q, quorums, cm, top, at, op);
    }
  }

  // ----- Progress -----

  /** An op that enough senders disown is dropped, whichever proof each of them gives. */
  lemma DisownedOpIsDropped(q: Votes, quorums: MergeQuorums, cm: nat, top: nat, op: nat, disowners: set<nat>)
    requires Seated(q) && |Reported(q)| >= quorums.viewChange && Reported(q) != {}
    requires IsCommitPoint(q, quorums.prepareQueueCeiling, cm) && IsHighestOp(q, cm, top) && cm < op <= top
    requires forall x: nat :: Max(cm, 1) <= x < op ==> Live(q, quorums, x)
    requires |disowners| >= quorums.nackPrepare
    requires forall r :: r in disowners ==> r < |q| && q[r].Some? && Disowns(q, r, op, quorums.absenceNacks)
    ensures var outcome := Merge(q, quorums);
      if Installable(q, cm, op - 1) then outcome.Ready? && outcome.log.opHead == op - 1 else outcome == Deadlocked(op - 1)
  {
    assert disowners <= Disowners(q, op, quorums.absenceNacks);
    SubsetCardinality(disowners, Disowners(q, op, quorums.absenceNacks));
    hide Seated, Disowners, Disowns, Recoverable, IsCommitPoint, IsHighestOp, Merge, Installable;
    EveryOutcome(q, quorums, cm, top, op);
  }
}
