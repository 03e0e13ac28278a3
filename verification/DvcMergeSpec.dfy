/**
 * What a `DoViewChange` quorum says about each op, stated without loops: votes are
 * sets of replicas, and the outcome of a merge is a function of those sets.
 */
module DvcMergeSpec {
  import opened Common
  import opened Quorum

  datatype MergeQuorums = MergeQuorums(
    viewChange: nat, nackPrepare: nat, replicaCount: nat, prepareQueueCeiling: nat, absenceNacks: bool)

  datatype MergedLog = MergedLog(
    opHead: nat, commitMax: nat, headers: seq<PrepareHeader>, committedElsewhere: seq<PrepareHeader>)

  datatype MergeOutcome =
    | AwaitingQuorum
    | AwaitingRepair(undecidedOp: nat)
    | Deadlocked(undecidedOp: nat)
    | Ready(log: MergedLog)

  // ----- Commit point, canonical view, candidate head -----

  /** The three lower bounds one vote puts on the commit point. */
  function CommitBound(dvc: StoredDvc, ceiling: nat): nat {
    var own := Max(dvc.commit, SaturatingSub(dvc.op, ceiling));
    if dvc.suffix.headers == [] then own else Max(own, dvc.suffix.headers[0].commit)
  }

  ghost function CommitMaxOf(q: Votes, ceiling: nat, n: nat): (m: nat)
    requires n <= |q|
    ensures forall r :: 0 <= r < n && q[r].Some? ==> CommitBound(q[r].value, ceiling) <= m
    ensures m == 0 || exists r :: 0 <= r < n && q[r].Some? && CommitBound(q[r].value, ceiling) == m
  {
    if n == 0 then 0
    else
      var rest := CommitMaxOf(q, ceiling, n - 1);
      if q[n - 1].Some? then Max(rest, CommitBound(q[n - 1].value, ceiling)) else rest
  }

  ghost function CommitMax(q: Votes, ceiling: nat): (m: nat)
    ensures forall r :: 0 <= r < |q| && q[r].Some? ==> CommitBound(q[r].value, ceiling) <= m
    ensures m == 0 || exists r :: 0 <= r < |q| && q[r].Some? && CommitBound(q[r].value, ceiling) == m
  {
    CommitMaxOf(q, ceiling, |q|)
  }

  /** Highest `log_view` among the first `n` seats. */
  ghost function TopViewOf(q: Votes, n: nat): (m: Option<nat>)
    requires n <= |q|
    ensures m.None? <==> forall r :: 0 <= r < n ==> q[r].None?
    ensures forall r :: 0 <= r < n && q[r].Some? ==> m.Some? && q[r].value.logView <= m.value
    ensures m.Some? ==> exists r :: 0 <= r < n && q[r].Some? && q[r].value.logView == m.value
  {
    if n == 0 then None
    else
      var rest := TopViewOf(q, n - 1);
      if q[n - 1].None? then rest
      else if rest.None? then Some(q[n - 1].value.logView)
      else Some(Max(rest.value, q[n - 1].value.logView))
  }

  ghost function TopView(q: Votes): (m: Option<nat>)
    ensures m.None? <==> forall r :: 0 <= r < |q| ==> q[r].None?
    ensures forall r :: 0 <= r < |q| && q[r].Some? ==> m.Some? && q[r].value.logView <= m.value
    ensures m.Some? ==> exists r :: 0 <= r < |q| && q[r].Some? && q[r].value.logView == m.value
  {
    TopViewOf(q, |q|)
  }

  /** Replica `r` reported at the canonical `log_view`. */
  ghost predicate Canonical(q: Votes, lv: nat, r: nat) {
    r < |q| && q[r].Some? && q[r].value.logView == lv
  }

  /** Highest op a canonical sender reported, never below `base`. */
  ghost function HeadMaxOf(q: Votes, lv: nat, base: nat, n: nat): (m: nat)
    requires n <= |q|
    ensures base <= m
    ensures forall r :: 0 <= r < n && Canonical(q, lv, r) ==> q[r].value.op <= m
    ensures m == base || exists r :: 0 <= r < n && Canonical(q, lv, r) && q[r].value.op == m
  {
    if n == 0 then base
    else
      var rest := HeadMaxOf(q, lv, base, n - 1);
      if Canonical(q, lv, n - 1) then Max(rest, q[n - 1].value.op) else rest
  }

  ghost function HeadMax(q: Votes, lv: nat, base: nat): (m: nat)
    ensures base <= m
    ensures forall r: nat :: Canonical(q, lv, r) ==> q[r].value.op <= m
    ensures m == base || exists r: nat :: Canonical(q, lv, r) && q[r].value.op == m
  {
    HeadMaxOf(q, lv, base, |q|)
  }

  // ----- One op -----

  /** The header the first canonical sender holding the op reports. */
  ghost function HeaderOf(q: Votes, lv: nat, op: nat, n: nat): (h: Option<PrepareHeader>)
    requires n <= |q|
    ensures h.None? <==> forall r :: 0 <= r < n && Canonical(q, lv, r) ==> q[r].value.Held(op).None?
    ensures h.Some? ==> exists r :: 0 <= r < n && Canonical(q, lv, r) && q[r].value.Held(op) == h
  {
    if n == 0 then None
    else
      var earlier := HeaderOf(q, lv, op, n - 1);
      if earlier.Some? || !Canonical(q, lv, n - 1) then earlier else q[n - 1].value.Held(op)
  }

  ghost function Header(q: Votes, lv: nat, op: nat): (h: Option<PrepareHeader>)
    ensures h.None? <==> forall r: nat :: Canonical(q, lv, r) ==> q[r].value.Held(op).None?
    ensures h.Some? ==> exists r: nat :: Canonical(q, lv, r) && q[r].value.Held(op) == h
  {
    HeaderOf(q, lv, op, |q|)
  }

  /** Two canonical senders hold different prepares at the op. */
  ghost predicate Conflict(q: Votes, lv: nat, op: nat) {
    exists r: nat, s: nat ::
      && Canonical(q, lv, r) && Canonical(q, lv, s)
      && q[r].value.Held(op).Some? && q[s].value.Held(op).Some?
      && q[r].value.Held(op).value.checksum != q[s].value.Held(op).value.checksum
  }

  /** A canonical sender covers the op, cannot describe it, and does not nack it. */
  ghost predicate Abstained(q: Votes, lv: nat, op: nat) {
    exists r: nat :: Canonical(q, lv, r) && AbstainsAt(q[r].value, op)
  }

  predicate AbstainsAt(dvc: StoredDvc, op: nat) {
    dvc.Covers(op) && dvc.Held(op).None? && !dvc.Nacks(op)
  }

  /** The vote counts as proof that its sender never acknowledged the op. */
  predicate NackVote(dvc: StoredDvc, canonical: Option<PrepareHeader>, abstained: bool, lv: nat, op: nat, absence: bool) {
    if dvc.op < op then absence
    else
      && dvc.Covers(op)
      && (|| dvc.Nacks(op)
          || (&& dvc.Held(op).Some?
              && (|| (!dvc.OffersBody(op) && op > dvc.commit)
                  || (&& dvc.logView < lv
                      && if canonical.Some? then dvc.Held(op).value.checksum != canonical.value.checksum
                         else !abstained))))
  }

  /** The vote offers the body of the canonical prepare. */
  predicate CopyVote(dvc: StoredDvc, canonical: Option<PrepareHeader>, op: nat) {
    && dvc.Held(op).Some? && canonical.Some? && dvc.OffersBody(op)
    && dvc.Held(op).value.checksum == canonical.value.checksum
  }

  /** The first `n` seats whose votes count as nacks. */
  ghost function NackersOf(q: Votes, canonical: Option<PrepareHeader>, abstained: bool, lv: nat, op: nat, absence: bool, n: nat)
    : (s: set<nat>)
    requires n <= |q|
    ensures forall r: nat :: r in s <==> r < n && q[r].Some? && NackVote(q[r].value, canonical, abstained, lv, op, absence)
  {
    if n == 0 then {}
    else
      NackersOf(q, canonical, abstained, lv, op, absence, n - 1)
      + (if q[n - 1].Some? && NackVote(q[n - 1].value, canonical, abstained, lv, op, absence) then {n - 1} else {})
  }

  ghost function Nackers(q: Votes, lv: nat, op: nat, absence: bool): (s: set<nat>)
    ensures forall r: nat :: r in s <==>
      r < |q| && q[r].Some? && NackVote(q[r].value, Header(q, lv, op), Abstained(q, lv, op), lv, op, absence)
  {
    NackersOf(q, Header(q, lv, op), Abstained(q, lv, op), lv, op, absence, |q|)
  }

  /** The first `n` seats whose votes offer the canonical body. */
  ghost function CopiersOf(q: Votes, canonical: Option<PrepareHeader>, op: nat, n: nat): (s: set<nat>)
    requires n <= |q|
    ensures forall r: nat :: r in s <==> r < n && q[r].Some? && CopyVote(q[r].value, canonical, op)
  {
    if n == 0 then {}
    else
      CopiersOf(q, canonical, op, n - 1)
      + (if q[n - 1].Some? && CopyVote(q[n - 1].value, canonical, op) then {n - 1} else {})
  }

  ghost function Copiers(q: Votes, lv: nat, op: nat): (s: set<nat>)
    ensures forall r: nat :: r in s <==> r < |q| && q[r].Some? && CopyVote(q[r].value, Header(q, lv, op), op)
  {
    CopiersOf(q, Header(q, lv, op), op, |q|)
  }

  ghost predicate NackQuorum(q: Votes, quorums: MergeQuorums, lv: nat, op: nat) {
    |Nackers(q, lv, op, quorums.absenceNacks)| >= quorums.nackPrepare
  }

  /** The op can be installed: one canonical prepare, and somebody serves its body. */
  ghost predicate Adoptable(q: Votes, lv: nat, op: nat) {
    !Conflict(q, lv, op) && Header(q, lv, op).Some? && Copiers(q, lv, op) != {}
  }

  // ----- The walk -----

  datatype Decision = Head(op: nat) | Halt(outcome: MergeOutcome)

  /** An undecided op waits for the outstanding replicas, or is refused for good. */
  ghost function Undecided(q: Votes, quorums: MergeQuorums, op: nat): MergeOutcome {
    if |Reported(q)| < quorums.replicaCount then AwaitingRepair(op) else Deadlocked(op)
  }

  ghost function Scan(q: Votes, quorums: MergeQuorums, lv: nat, cm: nat, top: nat, op: nat): Decision
    requires 0 < op
    decreases top + 1 - op
  {
    if op > top then Head(top)
    else if NackQuorum(q, quorums, lv, op) then
      if op <= cm then Halt(Deadlocked(op)) else Head(op - 1)
    else if !Adoptable(q, lv, op) then Halt(Undecided(q, quorums, op))
    else Scan(q, quorums, lv, cm, top, op + 1)
  }

  /** Canonical headers for `floor..=op`, high-to-low; `None` on a conflict, a hole or a broken link. */
  ghost function Chain(q: Votes, lv: nat, op: nat, floor: nat): (hs: Option<seq<PrepareHeader>>)
    requires floor <= op
    ensures hs.Some? ==> |hs.value| == op - floor + 1
    decreases op - floor
  {
    var h := Header(q, lv, op);
    if Conflict(q, lv, op) || h.None? then None
    else if op == floor then Some([h.value])
    else
      var rest := Chain(q, lv, op - 1, floor);
      if rest.None? || h.value.parent != rest.value[0].checksum then None else Some([h.value] + rest.value)
  }

  // ----- Commits claimed below the canonical view -----

  predicate HasOp(headers: seq<PrepareHeader>, op: nat) {
    exists i :: 0 <= i < |headers| && headers[i].op == op
  }

  /** Slot `i` of a vote claims a committed prepare that is not installed yet. */
  predicate IsClaim(dvc: StoredDvc, i: nat, installed: seq<PrepareHeader>)
    requires i < |dvc.suffix.headers|
  {
    var h := dvc.suffix.headers[i];
    h.op <= dvc.commit && !IsBlank(h) && !HasOp(installed, h.op)
  }

  /** The claims in the first `n` slots of a vote. */
  function ClaimsOf(dvc: StoredDvc, installed: seq<PrepareHeader>, n: nat): seq<PrepareHeader>
    requires n <= |dvc.suffix.headers|
  {
    if n == 0 then []
    else ClaimsOf(dvc, installed, n - 1)
         + (if IsClaim(dvc, n - 1, installed) then [dvc.suffix.headers[n - 1]] else [])
  }

  /** Every claim the senders below `lv` make, in seat order. */
  function AllClaims(q: Votes, lv: nat, installed: seq<PrepareHeader>, n: nat): seq<PrepareHeader>
    requires n <= |q|
  {
    if n == 0 then []
    else AllClaims(q, lv, installed, n - 1)
         + (if q[n - 1].Some? && q[n - 1].value.logView < lv
            then ClaimsOf(q[n - 1].value, installed, |q[n - 1].value.suffix.headers|) else [])
  }

  /** Two claims name one op and different prepares. */
  predicate Disputed(claims: seq<PrepareHeader>) {
    exists i, j :: 0 <= i < j < |claims| && claims[i].op == claims[j].op && claims[i].checksum != claims[j].checksum
  }

  /** The first claim at each op. */
  function FirstClaims(claims: seq<PrepareHeader>): seq<PrepareHeader> {
    if claims == [] then []
    else
      var init := FirstClaims(claims[..|claims| - 1]);
      var last := claims[|claims| - 1];
      if HasOp(init, last.op) then init else init + [last]
  }

  /** Inserts by descending op, as the source's sort leaves distinct ops. */
  function InsertDescending(h: PrepareHeader, sorted: seq<PrepareHeader>): seq<PrepareHeader> {
    if sorted == [] then [h]
    else if h.op >= sorted[0].op then [h] + sorted
    else [sorted[0]] + InsertDescending(h, sorted[1..])
  }

  function SortDescending(headers: seq<PrepareHeader>): seq<PrepareHeader> {
    if headers == [] then []
    else InsertDescending(headers[|headers| - 1], SortDescending(headers[..|headers| - 1]))
  }

  /** The link the entry above must name; a checksum nobody sealed proves nothing either way. */
  predicate Linked(child: PrepareHeader, h: PrepareHeader) {
    child.parent == h.checksum || child.parent == CHECKSUM_UNSEALED || h.checksum == CHECKSUM_UNSEALED
  }

  function Find(headers: seq<PrepareHeader>, op: nat): (h: Option<PrepareHeader>)
    ensures h.Some? <==> HasOp(headers, op)
    ensures h.Some? ==> h.value in headers && h.value.op == op
  {
    if headers == [] then None
    else if headers[0].op == op then Some(headers[0])
    else
      var rest := Find(headers[1..], op);
      assert forall i :: 0 < i < |headers| ==> headers[i] == headers[1..][i - 1];
      rest
  }

  /** The claims that the entry one op above names as its parent. */
  function Corroborate(claims: seq<PrepareHeader>, installed: seq<PrepareHeader>): seq<PrepareHeader> {
    if claims == [] then []
    else
      var extra := Corroborate(claims[..|claims| - 1], installed);
      var h := claims[|claims| - 1];
      var child := Find(installed + extra, h.op + 1);
      if child.Some? && Linked(child.value, h) then extra + [h] else extra
  }

  function Elsewhere(q: Votes, lv: nat, installed: seq<PrepareHeader>): Option<seq<PrepareHeader>> {
    var claims := AllClaims(q, lv, installed, |q|);
    if Disputed(claims) then None
    else Some(Corroborate(SortDescending(FirstClaims(claims)), installed))
  }

  // ----- The outcome -----

  ghost function Settle(q: Votes, lv: nat, cm: nat, opHead: nat): MergeOutcome
    requires cm <= opHead
  {
    var headers := if opHead == 0 then Some([]) else Chain(q, lv, opHead, Max(cm, 1));
    if headers.None? then Deadlocked(opHead)
    else
      var elsewhere := Elsewhere(q, lv, headers.value);
      if elsewhere.None? then Deadlocked(opHead)
      else Ready(MergedLog(opHead, cm, headers.value, elsewhere.value))
  }

  ghost function Merge(q: Votes, quorums: MergeQuorums): MergeOutcome {
    if |Reported(q)| < quorums.viewChange || TopView(q).None? then AwaitingQuorum
    else
      var lv := TopView(q).value;
      var cm := CommitMax(q, quorums.prepareQueueCeiling);
      var top := HeadMax(q, lv, cm);
      if top == 0 then Ready(MergedLog(0, 0, [], []))
      else
        ScanHeadAboveCommit(q, quorums, lv, cm, top, Max(cm, 1));
        match Scan(q, quorums, lv, cm, top, Max(cm, 1))
        case Halt(outcome) => outcome
        case Head(op) => Settle(q, lv, cm, op)
  }

  /** A walk never discards the commit point. */
  lemma {:induction false} ScanHeadAboveCommit(q: Votes, quorums: MergeQuorums, lv: nat, cm: nat, top: nat, op: nat)
    requires 0 < op && cm <= op && cm <= top
    ensures var d := Scan(q, quorums, lv, cm, top, op); d.Head? ==> cm <= d.op <= top
    decreases top + 1 - op
  {
    if op <= top && !NackQuorum(q, quorums, lv, op) && Adoptable(q, lv, op) {
      ScanHeadAboveCommit(q, quorums, lv, cm, top, op + 1);
    }
  }

  /** The view-change rule: trusted senders alone, or every replica with absence nacks off. */
  ghost function MergeView(q: Votes, quorums: MergeQuorums): MergeOutcome {
    var trusted := TrustedOnly(q);
    var allReplicas := quorums.(viewChange := quorums.replicaCount, absenceNacks := false);
    if |Reported(trusted)| >= quorums.viewChange then
      var outcome := Merge(trusted, quorums.(absenceNacks := true));
      if outcome.Ready? || |Reported(q)| < quorums.replicaCount || |Reported(trusted)| == |Reported(q)|
      then outcome
      else Merge(q, allReplicas)
    else if |Reported(q)| < quorums.replicaCount then AwaitingQuorum
    else Merge(q, allReplicas)
  }
}
