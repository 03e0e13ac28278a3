/**
 * What a view learns below its commit point, from both sides: every committed prepare that
 * chains to the new log is listed, and the view is refused exactly on a dispute.
 */
module DvcClaims {
  import opened Common
  import opened Quorum
  import opened DvcMergeSpec
  import opened DvcMerge
  import opened DvcHistory

  // ----- No claim is missed -----

  lemma {:induction false} ClaimsOfComplete(dvc: StoredDvc, installed: seq<PrepareHeader>, n: nat, i: nat)
    requires i < n <= |dvc.suffix.headers|
    requires var h := dvc.suffix.headers[i]; h.op <= dvc.commit && h != Blank(h.op) && !HasOp(installed, h.op)
    ensures dvc.suffix.headers[i] in ClaimsOf(dvc, installed, n)
  {
    hide HasOp;
    if i < n - 1 {
      ClaimsOfComplete(dvc, installed, n - 1, i);
    }
  }

  lemma {:induction false} AllClaimsComplete(q: Votes, lv: nat, installed: seq<PrepareHeader>, n: nat, r: nat, h: PrepareHeader)
    requires r < n <= |q| && Claims(q, lv, r, h) && !HasOp(installed, h.op)
    ensures h in AllClaims(q, lv, installed, n)
  {
    hide HasOp, ClaimsOf;
    if r < n - 1 {
      AllClaimsComplete(q, lv, installed, n - 1, r, h);
    } else {
      var dvc := q[r].value;
      var i :| 0 <= i < |dvc.suffix.headers| && dvc.suffix.headers[i] == h;
      ClaimsOfComplete(dvc, installed, |dvc.suffix.headers|, i);
    }
  }

  /** Two senders behind the view report different prepares committed at one op the view does not install. */
  ghost predicate Contested(q: Votes, lv: nat, installed: seq<PrepareHeader>) {
    exists r: nat, s: nat, h: PrepareHeader, g: PrepareHeader ::
      Claims(q, lv, r, h) && Claims(q, lv, s, g) && h.op == g.op && h.checksum != g.checksum && !HasOp(installed, h.op)
  }

  lemma DisputeIsContest(q: Votes, lv: nat, installed: seq<PrepareHeader>)
    ensures Disputed(AllClaims(q, lv, installed, |q|)) <==> Contested(q, lv, installed)
  {
    hide AllClaims, Claims, HasOp;
    var claims := AllClaims(q, lv, installed, |q|);
    AllClaimsSound(q, lv, installed, |q|);
    if Disputed(claims) {
      var i, j :| 0 <= i < j < |claims| && claims[i].op == claims[j].op && claims[i].checksum != claims[j].checksum;
      assert claims[i] in claims && claims[j] in claims;
      var r: nat :| Claims(q, lv, r, claims[i]);
      var s: nat :| Claims(q, lv, s, claims[j]);
      assert Claims(q, lv, r, claims[i]) && Claims(q, lv, s, claims[j]);
    }
    if Contested(q, lv, installed) {
      var r: nat, s: nat, h: PrepareHeader, g: PrepareHeader :|
        Claims(q, lv, r, h) && Claims(q, lv, s, g) && h.op == g.op && h.checksum != g.checksum && !HasOp(installed, h.op);
      ClaimantSeated(q, lv, r, h);
      ClaimantSeated(q, lv, s, g);
      AllClaimsComplete(q, lv, installed, |q|, r, h);
      AllClaimsComplete(q, lv, installed, |q|, s, g);
      if !Disputed(claims) {
        UndisputedAgree(claims);
        assert false;
      }
    }
  }

  lemma ClaimantSeated(q: Votes, lv: nat, r: nat, h: PrepareHeader)
    requires Claims(q, lv, r, h)
    ensures r < |q|
  {
  }

  /** A claim the entry above names, or cannot tell apart, is corroborated. */
  lemma {:induction false} CorroborateComplete(claims: seq<PrepareHeader>, installed: seq<PrepareHeader>, h: PrepareHeader, c: PrepareHeader)
    requires Descending(claims) && h in claims && forall x :: x in claims ==> !HasOp(installed, x.op)
    requires installed != [] ==> Run(installed, installed[0].op)
    requires c in installed + Corroborate(claims, installed) && c.op == h.op + 1
    requires c.parent == h.checksum || c.parent == CHECKSUM_UNSEALED || h.checksum == CHECKSUM_UNSEALED
    ensures h in Corroborate(claims, installed)
  {
    hide Find, HasOp, Descending, Run, Linked, Continues;
    var init, last := claims[..|claims| - 1], claims[|claims| - 1];
    InitOfDescending(claims);
    CorroborateContinues(init, installed);
    var extra := Corroborate(init, installed);
    assert forall x :: x in extra ==> x in init;
    CorroborateContinues(claims, installed);
    assert last in claims;
    if h == last {
      assert c in installed + extra;
      UniqueOp(installed, extra, c);
      LinkedMeans(c, h);
    } else {
      assert h in init;
      assert c != last;
      CorroborateComplete(init, installed, h, c);
    }
  }

  lemma LinkedMeans(c: PrepareHeader, h: PrepareHeader)
    ensures Linked(c, h) <==> c.parent == h.checksum || c.parent == CHECKSUM_UNSEALED || h.checksum == CHECKSUM_UNSEALED
  {
  }

  /** In a log without repeats the search finds the entry there is. */
  lemma UniqueOp(installed: seq<PrepareHeader>, extra: seq<PrepareHeader>, c: PrepareHeader)
    requires installed != [] ==> Run(installed, installed[0].op)
    requires Continues(installed, extra) && c in installed + extra
    ensures Find(installed + extra, c.op) == Some(c)
  {
    hide Find, Linked;
    var all := installed + extra;
    WholeRun(installed, extra);
    var i :| 0 <= i < |all| && all[i] == c;
    FindInRun(all, all[0].op, i);
  }

  /** What continues a consecutive run is one with it. */
  lemma WholeRun(installed: seq<PrepareHeader>, extra: seq<PrepareHeader>)
    requires (installed != [] ==> Run(installed, installed[0].op)) && Continues(installed, extra) && installed + extra != []
    ensures installed != [] && Run(installed + extra, (installed + extra)[0].op)
  {
    hide Linked;
    var all := installed + extra;
    forall i | 0 <= i < |all| ensures all[i].op == all[0].op - i {
      if i >= |installed| {
        assert all[i] == extra[i - |installed|];
      }
    }
  }

  lemma FindInRun(hs: seq<PrepareHeader>, from: int, i: nat)
    requires Run(hs, from) && i < |hs|
    ensures Find(hs, hs[i].op) == Some(hs[i])
  {
    hide Find;
    assert HasOp(hs, hs[i].op);
    var found := Find(hs, hs[i].op).value;
    var j :| 0 <= j < |hs| && hs[j] == found;
  }

  /** The prepare with this op and checksum is listed. */
  ghost predicate Listed(headers: seq<PrepareHeader>, op: nat, checksum: nat) {
    exists i :: 0 <= i < |headers| && headers[i].op == op && headers[i].checksum == checksum
  }

  /** An entry of the view's log names the header as its parent, or an unsealed link leaves it open. */
  ghost predicate Vouched(log: seq<PrepareHeader>, h: PrepareHeader) {
    exists i :: 0 <= i < |log| && log[i].op == h.op + 1
      && (log[i].parent == h.checksum || log[i].parent == CHECKSUM_UNSEALED || h.checksum == CHECKSUM_UNSEALED)
  }

  /**
   * The view refuses exactly when two senders contest an op it does not install. Otherwise a prepare
   * reported committed below the view is listed exactly when the entry above it vouches for it.
   */
  lemma ElsewhereIsComplete(q: Votes, lv: nat, installed: seq<PrepareHeader>)
    requires installed != [] ==> Run(installed, installed[0].op)
    ensures Elsewhere(q, lv, installed).None? <==> Contested(q, lv, installed)
    ensures Elsewhere(q, lv, installed).Some? ==>
      var extra := Elsewhere(q, lv, installed).value;
      forall r: nat, h: PrepareHeader :: Claims(q, lv, r, h) && !HasOp(installed, h.op) ==>
        (Listed(extra, h.op, h.checksum) <==> Vouched(installed + extra, h))
  {
    hide Disputed, AllClaims, Claims, HasOp, Contested, FirstClaims, SortDescending, Corroborate, Listed, Vouched, Run;
    DisputeIsContest(q, lv, installed);
    if Elsewhere(q, lv, installed).Some? {
      forall r: nat, h: PrepareHeader | Claims(q, lv, r, h) && !HasOp(installed, h.op)
        ensures var extra := Elsewhere(q, lv, installed).value; Listed(extra, h.op, h.checksum) <==> Vouched(installed + extra, h)
      {
        ListedIffVouched(q, lv, installed, r, h);
      }
    }
  }

  lemma ListedIffVouched(q: Votes, lv: nat, installed: seq<PrepareHeader>, r: nat, h: PrepareHeader)
    requires installed != [] ==> Run(installed, installed[0].op)
    requires Elsewhere(q, lv, installed).Some? && Claims(q, lv, r, h) && !HasOp(installed, h.op)
    ensures var extra := Elsewhere(q, lv, installed).value;
            Listed(extra, h.op, h.checksum) <==> Vouched(installed + extra, h)
  {
    hide Disputed, AllClaims, Claims, HasOp, Contested, FirstClaims, SortDescending, Corroborate, Run, Descending, Continues;
    var extra := Elsewhere(q, lv, installed).value;
    ElsewhereExtends(q, lv, installed);
    if Listed(extra, h.op, h.checksum) {
      ListedIsVouched(installed, extra, h);
    }
    if Vouched(installed + extra, h) {
      var x := QueuedFor(q, lv, installed, r, h);
      var claims := SortDescending(FirstClaims(AllClaims(q, lv, installed, |q|)));
      var i :| 0 <= i < |installed + extra| && (installed + extra)[i].op == h.op + 1
        && ((installed + extra)[i].parent == h.checksum || (installed + extra)[i].parent == CHECKSUM_UNSEALED || h.checksum == CHECKSUM_UNSEALED);
      CorroborateComplete(claims, installed, x, (installed + extra)[i]);
      var k :| 0 <= k < |extra| && extra[k] == x;
    }
  }

  /** The claim queued for the header's op carries its checksum. */
  lemma QueuedFor(q: Votes, lv: nat, installed: seq<PrepareHeader>, r: nat, h: PrepareHeader) returns (x: PrepareHeader)
    requires Elsewhere(q, lv, installed).Some? && Claims(q, lv, r, h) && !HasOp(installed, h.op)
    ensures var claims := SortDescending(FirstClaims(AllClaims(q, lv, installed, |q|)));
            Descending(claims) && x in claims && forall y :: y in claims ==> !HasOp(installed, y.op)
    ensures x.op == h.op && x.checksum == h.checksum
  {
    hide Disputed, AllClaims, Claims, FirstClaims, SortDescending, Corroborate, Descending;
    var all := AllClaims(q, lv, installed, |q|);
    AllClaimsSound(q, lv, installed, |q|);
    ClaimantSeated(q, lv, r, h);
    AllClaimsComplete(q, lv, installed, |q|, r, h);
    FirstClaimsCover(all);
    FirstClaimsDistinct(all);
    SortIsDescending(FirstClaims(all));
    var i :| 0 <= i < |all| && all[i] == h;
    var first := FirstClaims(all);
    assert HasOp(first, all[i].op);
    var k :| 0 <= k < |first| && first[k].op == h.op;
    x := first[k];
    assert x in first;
    var j :| 0 <= j < |all| && all[j] == x;
    UndisputedAgree(all);
  }

  lemma ListedIsVouched(installed: seq<PrepareHeader>, extra: seq<PrepareHeader>, h: PrepareHeader)
    requires Continues(installed, extra) && Listed(extra, h.op, h.checksum)
    requires installed != [] ==> Run(installed, installed[0].op)
    ensures Vouched(installed + extra, h)
  {
    var i :| 0 <= i < |extra| && extra[i].op == h.op && extra[i].checksum == h.checksum;
    var all := installed + extra;
    var at := |installed| + i - 1;
    assert installed != [];
    assert all[at] == Above(installed, extra, i);
  }
}
