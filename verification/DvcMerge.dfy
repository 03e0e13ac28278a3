/**
 * Merging a `DoViewChange` quorum into the new view's log, as the walks over the
 * votes that the replica runs. Each is proved against `DvcMergeSpec`.
 */
module DvcMerge {
  import opened Common
  import opened Quorum
  import opened DvcMergeSpec

  method CountReported(q: Votes) returns (count: nat)
    ensures count == |Reported(q)|
  {
    count := 0;
    ghost var seen: set<nat> := {};
    for r := 0 to |q|
      invariant seen == set i: nat | i < r && q[i].Some?
      invariant count == |seen|
    {
      if q[r].Some? {
        count := count + 1;
        seen := seen + {r};
      }
    }
    assert seen == Reported(q);
  }

  method MergeCommitMax(q: Votes, ceiling: nat) returns (commitMax: nat)
    ensures commitMax == CommitMax(q, ceiling)
  {
    commitMax := 0;
    for r := 0 to |q|
      invariant commitMax == CommitMaxOf(q, ceiling, r)
    {
      if q[r].Some? {
        var dvc := q[r].value;
        commitMax := Max(commitMax, dvc.commit);
        commitMax := Max(commitMax, SaturatingSub(dvc.op, ceiling));
        if dvc.suffix.headers != [] {
          commitMax := Max(commitMax, dvc.suffix.headers[0].commit);
        }
      }
    }
  }

  method LogViewCanonical(q: Votes) returns (top: Option<nat>)
    ensures top == TopView(q)
  {
    top := None;
    for r := 0 to |q|
      invariant top == TopViewOf(q, r)
    {
      TopViewNext(q, r);
      hide TopViewOf;
      if q[r].Some? && (top.None? || top.value < q[r].value.logView) {
        top := Some(q[r].value.logView);
      }
    }
  }

  lemma TopViewNext(q: Votes, r: nat)
    requires r < |q|
    ensures var top := TopViewOf(q, r);
            TopViewOf(q, r + 1) ==
              if q[r].Some? && (top.None? || top.value < q[r].value.logView) then Some(q[r].value.logView) else top
  {
  }

  method CandidateHead(q: Votes, lv: nat, commitMax: nat) returns (top: nat)
    ensures top == HeadMax(q, lv, commitMax)
  {
    top := commitMax;
    for r := 0 to |q|
      invariant top == HeadMaxOf(q, lv, commitMax, r)
    {
      if q[r].Some? && q[r].value.logView == lv {
        top := Max(top, q[r].value.op);
      }
    }
  }

  /** A canonical sender among the first `n` differs from the first one holding the op. */
  ghost predicate ConflictOf(q: Votes, lv: nat, op: nat, n: nat)
    requires n <= |q|
  {
    n > 0 && (|| ConflictOf(q, lv, op, n - 1)
              || (Canonical(q, lv, n - 1) && Differs(HeaderOf(q, lv, op, n - 1), q[n - 1].value.Held(op))))
  }

  predicate Differs(a: Option<PrepareHeader>, b: Option<PrepareHeader>) {
    a.Some? && b.Some? && a.value.checksum != b.value.checksum
  }

  ghost predicate AbstainedOf(q: Votes, lv: nat, op: nat, n: nat)
    requires n <= |q|
  {
    n > 0 && (AbstainedOf(q, lv, op, n - 1) || (Canonical(q, lv, n - 1) && AbstainsAt(q[n - 1].value, op)))
  }

  lemma {:induction false} AbstainedOfIff(q: Votes, lv: nat, op: nat, n: nat)
    requires n <= |q|
    ensures AbstainedOf(q, lv, op, n) <==> exists r: nat :: r < n && Canonical(q, lv, r) && AbstainsAt(q[r].value, op)
  {
    hide AbstainsAt;
    if n > 0 {
      AbstainedOfIff(q, lv, op, n - 1);
    }
  }

  /** Without a conflict so far, everyone so far agrees with the first holder. */
  lemma {:induction false} AgreedSoFar(q: Votes, lv: nat, op: nat, n: nat)
    requires n <= |q|
    ensures ConflictOf(q, lv, op, n) ==> Conflict(q, lv, op)
    ensures !ConflictOf(q, lv, op, n) ==>
      forall r: nat :: r < n && Canonical(q, lv, r) ==> !Differs(HeaderOf(q, lv, op, n), q[r].value.Held(op))
  {
    hide StoredDvc.Held;
    if n > 0 {
      AgreedSoFar(q, lv, op, n - 1);
    }
  }

  /** Comparing every holder with the first decides whether any two differ. */
  lemma ConflictOfIff(q: Votes, lv: nat, op: nat)
    ensures ConflictOf(q, lv, op, |q|) <==> Conflict(q, lv, op)
  {
    hide StoredDvc.Held;
    AgreedSoFar(q, lv, op, |q|);
  }

  method CanonicalHeaderAt(q: Votes, lv: nat, op: nat)
    returns (header: Option<PrepareHeader>, conflict: bool, abstained: bool)
    ensures header == Header(q, lv, op)
    ensures conflict <==> Conflict(q, lv, op)
    ensures abstained <==> Abstained(q, lv, op)
  {
    header, conflict, abstained := None, false, false;
    for r := 0 to |q|
      invariant header == HeaderOf(q, lv, op, r)
      invariant conflict <==> ConflictOf(q, lv, op, r)
      invariant abstained <==> AbstainedOf(q, lv, op, r)
    {
      hide IsBlank;
      if q[r].Some? && q[r].value.logView == lv {
        var dvc := q[r].value;
        if dvc.Covers(op) {
          var candidate := dvc.Held(op);
          if candidate.None? {
            abstained := abstained || !dvc.Nacks(op);
          } else if header.None? {
            header := candidate;
          } else if header.value.checksum != candidate.value.checksum {
            conflict := true;
          }
        }
      }
    }
    ConflictOfIff(q, lv, op);
    AbstainedOfIff(q, lv, op, |q|);
  }

  datatype OpVerdict = OpVerdict(canonical: Option<PrepareHeader>, copies: nat, nacks: nat, conflict: bool)

  function NackCount(q: Votes, canonical: Option<PrepareHeader>, abstained: bool, lv: nat, op: nat, absence: bool, n: nat): nat
    requires n <= |q|
  {
    if n == 0 then 0
    else NackCount(q, canonical, abstained, lv, op, absence, n - 1)
         + if q[n - 1].Some? && NackVote(q[n - 1].value, canonical, abstained, lv, op, absence) then 1 else 0
  }

  function CopyCount(q: Votes, canonical: Option<PrepareHeader>, op: nat, n: nat): nat
    requires n <= |q|
  {
    if n == 0 then 0
    else CopyCount(q, canonical, op, n - 1) + if q[n - 1].Some? && CopyVote(q[n - 1].value, canonical, op) then 1 else 0
  }

  /** Counting nacks vote by vote counts the set of nackers. */
  lemma {:induction false} NackCountIsCardinality(
    q: Votes, canonical: Option<PrepareHeader>, abstained: bool, lv: nat, op: nat, absence: bool, n: nat)
    requires n <= |q|
    ensures NackCount(q, canonical, abstained, lv, op, absence, n)
         == |NackersOf(q, canonical, abstained, lv, op, absence, n)|
  {
    hide NackVote, NackersOf;
    if n == 0 {
      NoNackers(q, canonical, abstained, lv, op, absence);
    } else {
      NackCountIsCardinality(q, canonical, abstained, lv, op, absence, n - 1);
      NackersNext(q, canonical, abstained, lv, op, absence, n - 1);
    }
  }

  lemma NoNackers(q: Votes, canonical: Option<PrepareHeader>, abstained: bool, lv: nat, op: nat, absence: bool)
    ensures |NackersOf(q, canonical, abstained, lv, op, absence, 0)| == 0
  {
  }

  lemma NackersNext(q: Votes, canonical: Option<PrepareHeader>, abstained: bool, lv: nat, op: nat, absence: bool, n: nat)
    requires n < |q|
    ensures |NackersOf(q, canonical, abstained, lv, op, absence, n + 1)| ==
      |NackersOf(q, canonical, abstained, lv, op, absence, n)|
      + if q[n].Some? && NackVote(q[n].value, canonical, abstained, lv, op, absence) then 1 else 0
  {
    hide NackVote;
    AddedSeat(NackersOf(q, canonical, abstained, lv, op, absence, n), n);
  }

  lemma {:induction false} CopyCountIsCardinality(q: Votes, canonical: Option<PrepareHeader>, op: nat, n: nat)
    requires n <= |q|
    ensures CopyCount(q, canonical, op, n) == |CopiersOf(q, canonical, op, n)|
  {
    hide CopyVote, CopiersOf;
    if n == 0 {
      NoCopiers(q, canonical, op);
    } else {
      CopyCountIsCardinality(q, canonical, op, n - 1);
      CopiersNext(q, canonical, op, n - 1);
    }
  }

  lemma NoCopiers(q: Votes, canonical: Option<PrepareHeader>, op: nat)
    ensures |CopiersOf(q, canonical, op, 0)| == 0
  {
  }

  lemma CopiersNext(q: Votes, canonical: Option<PrepareHeader>, op: nat, n: nat)
    requires n < |q|
    ensures |CopiersOf(q, canonical, op, n + 1)| ==
      |CopiersOf(q, canonical, op, n)| + if q[n].Some? && CopyVote(q[n].value, canonical, op) then 1 else 0
  {
    hide CopyVote;
    AddedSeat(CopiersOf(q, canonical, op, n), n);
  }

  lemma AddedSeat(before: set<nat>, seat: nat)
    requires forall r :: r in before ==> r < seat
    ensures |before + {seat}| == |before| + 1 && before + {} == before
  {
    assert seat !in before;
  }

  /** How many senders nack the op, and how many offer its canonical body. */
  method CountVotes(q: Votes, canonical: Option<PrepareHeader>, abstained: bool, lv: nat, op: nat, absenceNacks: bool)
    returns (nacks: nat, copies: nat)
    ensures nacks == NackCount(q, canonical, abstained, lv, op, absenceNacks, |q|)
    ensures copies == CopyCount(q, canonical, op, |q|)
  {
    nacks, copies := 0, 0;
    for r := 0 to |q|
      invariant nacks == NackCount(q, canonical, abstained, lv, op, absenceNacks, r)
      invariant copies == CopyCount(q, canonical, op, r)
    {
      if q[r].Some? {
        var nack, copy := TallyVote(q[r].value, canonical, abstained, lv, op, absenceNacks);
        if copy {
          copies := copies + 1;
        }
        if nack {
          nacks := nacks + 1;
        }
      }
    }
  }

  method TallyOp(q: Votes, lv: nat, op: nat, absenceNacks: bool) returns (verdict: OpVerdict)
    ensures verdict.canonical == Header(q, lv, op)
    ensures verdict.conflict <==> Conflict(q, lv, op)
    ensures verdict.nacks == |Nackers(q, lv, op, absenceNacks)|
    ensures verdict.copies == |Copiers(q, lv, op)|
  {
    var canonical, conflict, abstained := CanonicalHeaderAt(q, lv, op);
    var nacks, copies := CountVotes(q, canonical, abstained, lv, op, absenceNacks);
    NackCountIsCardinality(q, canonical, abstained, lv, op, absenceNacks, |q|);
    CopyCountIsCardinality(q, canonical, op, |q|);
    verdict := OpVerdict(canonical, copies, nacks, conflict);
  }

  /** One sender's position on an op, branch by branch. */
  method TallyVote(dvc: StoredDvc, canonical: Option<PrepareHeader>, abstained: bool, lv: nat, op: nat, absenceNacks: bool)
    returns (nack: bool, copy: bool)
    ensures nack == NackVote(dvc, canonical, abstained, lv, op, absenceNacks)
    ensures copy == CopyVote(dvc, canonical, op)
  {
    nack, copy := false, false;
    if dvc.op < op {
      nack := absenceNacks;
      return;
    }
    if !dvc.Covers(op) {
      return;
    }
    var held := dvc.Held(op);
    var offersBody := dvc.OffersBody(op);
    if held.Some? && canonical.Some? && offersBody && held.value.checksum == canonical.value.checksum {
      copy := true;
    }
    if dvc.Nacks(op) {
      nack := true;
    } else if held.Some? {
      if !offersBody && op > dvc.commit {
        nack := true;
      } else {
        var mayNackImplicitly := dvc.logView < lv;
        if canonical.Some? {
          nack := mayNackImplicitly && held.value.checksum != canonical.value.checksum;
        } else {
          nack := mayNackImplicitly && !abstained;
        }
      }
    }
  }

  /** The chain below `op`, prefixed by the headers already collected above it. */
  ghost function Prefixed(above: seq<PrepareHeader>, rest: Option<seq<PrepareHeader>>): Option<seq<PrepareHeader>>
    requires rest.Some? ==> rest.value != []
  {
    if rest.None? then None
    else if above != [] && above[|above| - 1].parent != rest.value[0].checksum then None
    else Some(above + rest.value)
  }

  lemma PrefixedByNothing(rest: Option<seq<PrepareHeader>>)
    requires rest.Some? ==> rest.value != []
    ensures Prefixed([], rest) == rest
  {
    assert rest.Some? ==> [] + rest.value == rest.value;
  }

  /** Moving one header from the chain to the collected prefix leaves their concatenation alone. */
  lemma ChainStep(q: Votes, lv: nat, op: nat, floor: nat, above: seq<PrepareHeader>, header: PrepareHeader)
    requires floor <= op && !Conflict(q, lv, op) && Header(q, lv, op) == Some(header)
    ensures var rest := Chain(q, lv, op, floor);
      if above != [] && above[|above| - 1].parent != header.checksum then Prefixed(above, rest).None?
      else if op == floor then Prefixed(above, rest) == Some(above + [header])
      else Prefixed(above, rest) == Prefixed(above + [header], Chain(q, lv, op - 1, floor))
  {
    hide Conflict, Header;
    var rest := Chain(q, lv, op, floor);
    if op > floor && rest.Some? {
      var below := Chain(q, lv, op - 1, floor).value;
      assert above + ([header] + below) == above + [header] + below;
    }
  }

  method CanonicalHeaders(q: Votes, lv: nat, opHead: nat, commitMax: nat)
    returns (result: Option<seq<PrepareHeader>>)
    requires commitMax <= opHead
    ensures result == if opHead == 0 then Some([]) else Chain(q, lv, opHead, Max(commitMax, 1))
  {
    if opHead == 0 {
      return Some([]);
    }
    var floor := Max(commitMax, 1);
    var headers: seq<PrepareHeader> := [];
    var op := opHead;
    PrefixedByNothing(Chain(q, lv, opHead, floor));
    while true
      invariant floor <= op <= opHead
      invariant Chain(q, lv, opHead, floor) == Prefixed(headers, Chain(q, lv, op, floor))
      decreases op
    {
      var header, conflict, _ := CanonicalHeaderAt(q, lv, op);
      if conflict {
        return None;
      }
      if header.None? {
        return None;
      }
      ChainStep(q, lv, op, floor, headers, header.value);
      if headers != [] && headers[|headers| - 1].parent != header.value.checksum {
        return None;
      }
      headers := headers + [header.value];
      if op <= floor {
        break;
      }
      op := op - 1;
    }
    return Some(headers);
  }

  /** The queue after reading some claims, none of which dispute each other. */
  ghost predicate Collected(claims: seq<PrepareHeader>, claimed: seq<PrepareHeader>) {
    !Disputed(claims) && claimed == FirstClaims(claims)
  }

  /** Queues the claims of one sender behind those already queued. */
  method QueueClaims(dvc: StoredDvc, installed: seq<PrepareHeader>, queue: seq<PrepareHeader>, ghost before: seq<PrepareHeader>)
    returns (agreed: bool, claimed: seq<PrepareHeader>)
    requires Collected(before, queue)
    ensures agreed ==> Collected(before + ClaimsOf(dvc, installed, |dvc.suffix.headers|), claimed)
    ensures !agreed ==> Disputed(before + ClaimsOf(dvc, installed, |dvc.suffix.headers|))
  {
    hide HasOp, IsBlank, FirstClaims, Disputed;
    claimed := queue;
    assert before + ClaimsOf(dvc, installed, 0) == before;
    for i := 0 to |dvc.suffix.headers|
      invariant Collected(before + ClaimsOf(dvc, installed, i), claimed)
    {
      var header := dvc.suffix.headers[i];
      ghost var claims := before + ClaimsOf(dvc, installed, i);
      if header.op <= dvc.commit && !IsBlank(header) && !HasOp(installed, header.op) {
        assert claims + [header] == before + ClaimsOf(dvc, installed, i + 1);
        CollectStep(claims, header);
        var queued := Find(claimed, header.op);
        if queued.Some? {
          if queued.value.checksum != header.checksum {
            ClaimsOfPrefix(dvc, installed, i + 1, |dvc.suffix.headers|);
            DisputeExtends(claims + [header], before + ClaimsOf(dvc, installed, |dvc.suffix.headers|));
            return false, claimed;
          }
        } else {
          claimed := claimed + [header];
        }
      } else {
        assert claims == before + ClaimsOf(dvc, installed, i + 1);
      }
    }
    agreed := true;
  }

  method CollectClaims(q: Votes, lv: nat, installed: seq<PrepareHeader>) returns (agreed: bool, claimed: seq<PrepareHeader>)
    ensures agreed <==> !Disputed(AllClaims(q, lv, installed, |q|))
    ensures agreed ==> claimed == FirstClaims(AllClaims(q, lv, installed, |q|))
  {
    claimed := [];
    NothingCollected(q, lv, installed);
    hide *;
    for r := 0 to |q|
      invariant Collected(AllClaims(q, lv, installed, r), claimed)
    {
      SeatClaims(q, lv, installed, r);
      if q[r].Some? && q[r].value.logView < lv {
        agreed, claimed := QueueClaims(q[r].value, installed, claimed, AllClaims(q, lv, installed, r));
        if !agreed {
          DisputeIsFinal(q, lv, installed, r + 1);
          return;
        }
      }
    }
    agreed := true;
    CollectedMeans(AllClaims(q, lv, installed, |q|), claimed);
  }

  lemma NothingCollected(q: Votes, lv: nat, installed: seq<PrepareHeader>)
    ensures Collected(AllClaims(q, lv, installed, 0), [])
  {
  }

  lemma CollectedMeans(claims: seq<PrepareHeader>, claimed: seq<PrepareHeader>)
    requires Collected(claims, claimed)
    ensures !Disputed(claims) && claimed == FirstClaims(claims)
  {
  }

  /** One more seat adds its sender's claims, if the sender is behind. */
  lemma SeatClaims(q: Votes, lv: nat, installed: seq<PrepareHeader>, r: nat)
    requires r < |q|
    ensures AllClaims(q, lv, installed, r + 1) ==
      if q[r].Some? && q[r].value.logView < lv
      then AllClaims(q, lv, installed, r) + ClaimsOf(q[r].value, installed, |q[r].value.suffix.headers|)
      else AllClaims(q, lv, installed, r)
  {
    hide ClaimsOf;
    var claims := AllClaims(q, lv, installed, r);
    assert claims + [] == claims;
  }

  lemma DisputeIsFinal(q: Votes, lv: nat, installed: seq<PrepareHeader>, n: nat)
    requires n <= |q| && Disputed(AllClaims(q, lv, installed, n))
    ensures Disputed(AllClaims(q, lv, installed, |q|))
  {
    hide Disputed, AllClaims;
    AllClaimsPrefix(q, lv, installed, n, |q|);
    DisputeExtends(AllClaims(q, lv, installed, n), AllClaims(q, lv, installed, |q|));
  }

  method CommittedElsewhere(q: Votes, lv: nat, installed: seq<PrepareHeader>)
    returns (result: Option<seq<PrepareHeader>>)
    ensures result == Elsewhere(q, lv, installed)
  {
    hide Disputed, FirstClaims, AllClaims, SortDescending, HasOp;
    var agreed, claimed := CollectClaims(q, lv, installed);
    if !agreed {
      return None;
    }
    var sorted := SortDescending(claimed);
    var extra: seq<PrepareHeader> := [];
    for i := 0 to |sorted|
      invariant extra == Corroborate(sorted[..i], installed)
    {
      var header := sorted[i];
      assert sorted[..i + 1][..i] == sorted[..i];
      var child := Find(installed + extra, header.op + 1);
      if child.Some? {
        if child.value.parent == header.checksum || child.value.parent == CHECKSUM_UNSEALED
           || header.checksum == CHECKSUM_UNSEALED {
          extra := extra + [header];
        }
      }
    }
    assert sorted[..|sorted|] == sorted;
    return Some(extra);
  }

  /** One more claim either disputes a queued one, repeats it, or opens its op. */
  lemma CollectStep(claims: seq<PrepareHeader>, h: PrepareHeader)
    requires !Disputed(claims)
    ensures var queued := Find(FirstClaims(claims), h.op);
            && (Disputed(claims + [h]) <==> queued.Some? && queued.value.checksum != h.checksum)
            && FirstClaims(claims + [h]) == (if queued.Some? then FirstClaims(claims) else FirstClaims(claims) + [h])
  {
    FirstClaimsStep(claims, h);
    hide Disputed, FirstClaims, HasOp;
    if Find(FirstClaims(claims), h.op).Some? {
      QueuedDisputes(claims, h);
    } else {
      NewOpUndisputed(claims, h);
    }
  }

  lemma FirstClaimsStep(claims: seq<PrepareHeader>, h: PrepareHeader)
    ensures FirstClaims(claims + [h]) == if HasOp(FirstClaims(claims), h.op) then FirstClaims(claims) else FirstClaims(claims) + [h]
  {
    assert (claims + [h])[..|claims|] == claims;
  }

  /** Undisputed claims at one op agree. */
  lemma UndisputedAgree(claims: seq<PrepareHeader>)
    requires !Disputed(claims)
    ensures forall i, j :: 0 <= i < |claims| && 0 <= j < |claims| && claims[i].op == claims[j].op ==>
      claims[i].checksum == claims[j].checksum
  {
  }

  /** A dispute the new claim starts is with an earlier claim of its op. */
  lemma DisputeWithNew(claims: seq<PrepareHeader>, h: PrepareHeader) returns (i: nat)
    requires !Disputed(claims) && Disputed(claims + [h])
    ensures i < |claims| && claims[i].op == h.op && claims[i].checksum != h.checksum
  {
    UndisputedAgree(claims);
    var all := claims + [h];
    var a, b :| 0 <= a < b < |all| && all[a].op == all[b].op && all[a].checksum != all[b].checksum;
    assert all[a] == claims[a];
    i := a;
  }

  lemma QueuedDisputes(claims: seq<PrepareHeader>, h: PrepareHeader)
    requires !Disputed(claims) && Find(FirstClaims(claims), h.op).Some?
    ensures Disputed(claims + [h]) <==> Find(FirstClaims(claims), h.op).value.checksum != h.checksum
  {
    var queued := Find(FirstClaims(claims), h.op).value;
    FirstClaimsCover(claims);
    var k :| 0 <= k < |claims| && claims[k] == queued;
    var all := claims + [h];
    assert all[k] == queued && all[|claims|] == h;
    hide FirstClaims, HasOp;
    if queued.checksum == h.checksum && Disputed(all) {
      var i := DisputeWithNew(claims, h);
      UndisputedAgree(claims);
      assert false;
    }
  }

  lemma NewOpUndisputed(claims: seq<PrepareHeader>, h: PrepareHeader)
    requires !Disputed(claims) && Find(FirstClaims(claims), h.op).None?
    ensures !Disputed(claims + [h])
  {
    FirstClaimsCover(claims);
    hide FirstClaims, HasOp;
    if Disputed(claims + [h]) {
      var i := DisputeWithNew(claims, h);
      assert false;
    }
  }

  /** The queue holds claims only, at most one an op, and misses no claimed op. */
  lemma {:induction false} FirstClaimsCover(claims: seq<PrepareHeader>)
    ensures forall h :: h in FirstClaims(claims) ==> h in claims
    ensures forall i :: 0 <= i < |claims| ==> HasOp(FirstClaims(claims), claims[i].op)
    ensures forall i, j :: 0 <= i < j < |FirstClaims(claims)| ==> FirstClaims(claims)[i].op != FirstClaims(claims)[j].op
  {
    if claims != [] {
      var init := claims[..|claims| - 1];
      FirstClaimsCover(init);
      var first, all := FirstClaims(init), FirstClaims(claims);
      assert forall f :: 0 <= f < |first| ==> all[f] == first[f];
      forall i | 0 <= i < |claims| ensures HasOp(all, claims[i].op) {
        if i < |init| {
          assert claims[i] == init[i];
          var f :| 0 <= f < |first| && first[f].op == init[i].op;
          assert all[f].op == claims[i].op;
        } else if !HasOp(first, claims[i].op) {
          assert all[|first|] == claims[i];
        } else {
          var f :| 0 <= f < |first| && first[f].op == claims[i].op;
          assert all[f].op == claims[i].op;
        }
      }
    }
  }

  /** A dispute among some claims is a dispute among more of them. */
  lemma DisputeExtends(part: seq<PrepareHeader>, all: seq<PrepareHeader>)
    requires part <= all && Disputed(part)
    ensures Disputed(all)
  {
    var a, b :| 0 <= a < b < |part| && part[a].op == part[b].op && part[a].checksum != part[b].checksum;
    assert all[a] == part[a] && all[b] == part[b];
  }

  lemma {:induction false} ClaimsOfPrefix(dvc: StoredDvc, installed: seq<PrepareHeader>, i: nat, j: nat)
    requires i <= j <= |dvc.suffix.headers|
    ensures ClaimsOf(dvc, installed, i) <= ClaimsOf(dvc, installed, j)
  {
    hide IsClaim;
    if i < j {
      ClaimsOfPrefix(dvc, installed, i, j - 1);
    }
  }

  lemma {:induction false} AllClaimsPrefix(q: Votes, lv: nat, installed: seq<PrepareHeader>, i: nat, j: nat)
    requires i <= j <= |q|
    ensures AllClaims(q, lv, installed, i) <= AllClaims(q, lv, installed, j)
  {
    hide ClaimsOf;
    if i < j {
      AllClaimsPrefix(q, lv, installed, i, j - 1);
    }
  }

  /** Walks the ops that may be uncommitted, stopping at the first proved dead. */
  method DecideHead(q: Votes, quorums: MergeQuorums, lv: nat, commitMax: nat, opHeadMax: nat, received: nat)
    returns (decision: Decision)
    requires received == |Reported(q)|
    ensures decision == Scan(q, quorums, lv, commitMax, opHeadMax, Max(commitMax, 1))
  {
    hide Nackers, Copiers, Conflict, Header, Reported;
    var op := Max(commitMax, 1);
    while op <= opHeadMax
      invariant 0 < op
      invariant Scan(q, quorums, lv, commitMax, opHeadMax, Max(commitMax, 1))
             == Scan(q, quorums, lv, commitMax, opHeadMax, op)
    {
      var verdict := TallyOp(q, lv, op, quorums.absenceNacks);
      if verdict.nacks >= quorums.nackPrepare {
        return if op <= commitMax then Halt(Deadlocked(op)) else Head(op - 1);
      }
      if verdict.conflict {
        return Halt(if received < quorums.replicaCount then AwaitingRepair(op) else Deadlocked(op));
      }
      if verdict.canonical.None? || verdict.copies == 0 {
        return Halt(if received < quorums.replicaCount then AwaitingRepair(op) else Deadlocked(op));
      }
      op := op + 1;
    }
    return Head(opHeadMax);
  }

  method MergeDvcQuorum(q: Votes, quorums: MergeQuorums) returns (outcome: MergeOutcome)
    ensures outcome == Merge(q, quorums)
  {
    hide Scan, Chain, Elsewhere, CommitMax, TopView, HeadMax, Reported;
    var received := CountReported(q);
    if received < quorums.viewChange {
      return AwaitingQuorum;
    }
    var canonical := LogViewCanonical(q);
    if canonical.None? {
      return AwaitingQuorum;
    }
    var lv := canonical.value;
    var commitMax := MergeCommitMax(q, quorums.prepareQueueCeiling);
    var opHeadMax := CandidateHead(q, lv, commitMax);
    if opHeadMax == 0 {
      return Ready(MergedLog(0, 0, [], []));
    }
    var decision := DecideHead(q, quorums, lv, commitMax, opHeadMax, received);
    if decision.Halt? {
      return decision.outcome;
    }
    var opHead := decision.op;
    ScanHeadAboveCommit(q, quorums, lv, commitMax, opHeadMax, Max(commitMax, 1));
    var headers := CanonicalHeaders(q, lv, opHead, commitMax);
    if headers.None? {
      return Deadlocked(opHead);
    }
    var elsewhere := CommittedElsewhere(q, lv, headers.value);
    if elsewhere.None? {
      return Deadlocked(opHead);
    }
    return Ready(MergedLog(opHead, commitMax, headers.value, elsewhere.value));
  }

  method CollectTrusted(q: Votes) returns (trusted: Votes, count: nat)
    requires Seated(q)
    ensures trusted == TrustedOnly(q) && count == |Reported(trusted)|
  {
    var votes := new Option<StoredDvc>[|q|](_ => None);
    for r := 0 to |q|
      invariant forall i :: 0 <= i < r ==> votes[i] == TrustedOnly(q)[i]
      invariant forall i :: r <= i < |q| ==> votes[i].None?
    {
      if q[r].Some? && !q[r].value.untrustedLog {
        var _ := Record(votes, q[r].value);
      }
    }
    trusted := votes[..];
    assert trusted == TrustedOnly(q);
    count := CountReported(trusted);
  }

  method MergeViewChange(q: Votes, quorums: MergeQuorums) returns (outcome: MergeOutcome)
    requires Seated(q)
    ensures outcome == MergeView(q, quorums)
  {
    var received := CountReported(q);
    var trustedOnly, trusted := CollectTrusted(q);
    if trusted >= quorums.viewChange {
      var trustedQuorums := quorums.(absenceNacks := true);
      outcome := MergeDvcQuorum(trustedOnly, trustedQuorums);
      if outcome.Ready? || received < quorums.replicaCount || trusted == received {
        return;
      }
    } else if received < quorums.replicaCount {
      return AwaitingQuorum;
    }
    outcome := MergeDvcQuorum(q, quorums.(viewChange := quorums.replicaCount, absenceNacks := false));
  }
}
