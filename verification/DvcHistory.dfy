/**
 * A ready view's log is one history: an unbroken run of agreed, servable prepares
 * from the head to the commit point, extended below it by corroborated claims.
 */
module DvcHistory {
  import opened Common
  import opened Quorum
  import opened DvcMergeSpec
  import opened DvcMergeTheorems

  // ----- Claims below the commit point -----

  /** Replica `r`, behind the canonical view, reports this very prepare as committed. */
  ghost predicate Claims(q: Votes, lv: nat, r: nat, h: PrepareHeader) {
    && r < |q| && q[r].Some? && q[r].value.logView < lv && h.op <= q[r].value.commit
    && h in q[r].value.suffix.headers && !IsBlank(h)
  }

  lemma {:induction false} ClaimsOfSound(dvc: StoredDvc, installed: seq<PrepareHeader>, n: nat)
    requires n <= |dvc.suffix.headers|
    ensures forall h :: h in ClaimsOf(dvc, installed, n) ==>
      h in dvc.suffix.headers && h.op <= dvc.commit && !IsBlank(h) && !HasOp(installed, h.op)
  {
    hide IsBlank, HasOp;
    if n > 0 {
      ClaimsOfSound(dvc, installed, n - 1);
    }
  }

  lemma {:induction false} AllClaimsSound(q: Votes, lv: nat, installed: seq<PrepareHeader>, n: nat)
    requires n <= |q|
    ensures forall h :: h in AllClaims(q, lv, installed, n) ==>
      !HasOp(installed, h.op) && exists r :: Claims(q, lv, r, h)
  {
    hide IsBlank, HasOp, ClaimsOf;
    if n > 0 {
      AllClaimsSound(q, lv, installed, n - 1);
      if q[n - 1].Some? && q[n - 1].value.logView < lv {
        var dvc := q[n - 1].value;
        ClaimsOfSound(dvc, installed, |dvc.suffix.headers|);
        assert forall h :: h in ClaimsOf(dvc, installed, |dvc.suffix.headers|) ==> Claims(q, lv, n - 1, h);
      }
    }
  }

  ghost predicate DistinctOps(hs: seq<PrepareHeader>) {
    forall i, j :: 0 <= i < j < |hs| ==> hs[i].op != hs[j].op
  }

  ghost predicate Descending(hs: seq<PrepareHeader>) {
    forall i, j :: 0 <= i < j < |hs| ==> hs[i].op > hs[j].op
  }

  lemma {:induction false} FirstClaimsDistinct(claims: seq<PrepareHeader>)
    ensures DistinctOps(FirstClaims(claims))
    ensures forall h :: h in FirstClaims(claims) ==> h in claims
  {
    if claims != [] {
      FirstClaimsDistinct(claims[..|claims| - 1]);
    }
  }

  lemma {:induction false} InsertKeepsDescending(h: PrepareHeader, sorted: seq<PrepareHeader>)
    requires Descending(sorted) && !HasOp(sorted, h.op)
    ensures Descending(InsertDescending(h, sorted))
    ensures forall x :: x in InsertDescending(h, sorted) <==> x == h || x in sorted
  {
    if sorted != [] && h.op < sorted[0].op {
      var rest := sorted[1..];
      assert forall i :: 0 <= i < |rest| ==> rest[i] == sorted[i + 1];
      InsertKeepsDescending(h, rest);
      var out := InsertDescending(h, rest);
      assert forall i :: 0 <= i < |out| ==> out[i] == h || out[i] in rest;
    } else if sorted != [] {
      assert h.op != sorted[0].op;
    }
  }

  lemma {:induction false} SortIsDescending(hs: seq<PrepareHeader>)
    requires DistinctOps(hs)
    ensures Descending(SortDescending(hs))
    ensures forall x :: x in SortDescending(hs) <==> x in hs
  {
    if hs != [] {
      var init, last := hs[..|hs| - 1], hs[|hs| - 1];
      SortIsDescending(init);
      var sorted := SortDescending(init);
      forall i | 0 <= i < |sorted| ensures sorted[i].op != last.op {
        assert sorted[i] in init;
      }
      InsertKeepsDescending(last, sorted);
    }
  }

  /** A consecutive run of ops from `from` down. */
  ghost predicate Run(hs: seq<PrepareHeader>, from: int) {
    forall i :: 0 <= i < |hs| ==> hs[i].op == from - i
  }

  /** `extra` continues `installed` downward: consecutive ops, each named by the one above. */
  ghost predicate Continues(installed: seq<PrepareHeader>, extra: seq<PrepareHeader>) {
    && (installed == [] ==> extra == [])
    && (installed != [] ==>
          && Run(extra, installed[|installed| - 1].op as int - 1)
          && forall i :: 0 <= i < |extra| ==> Linked(Above(installed, extra, i), extra[i]))
  }

  /** The entry just above `extra[i]`. */
  ghost function Above(installed: seq<PrepareHeader>, extra: seq<PrepareHeader>, i: nat): PrepareHeader
    requires installed != [] && i <= |extra|
  {
    if i == 0 then installed[|installed| - 1] else extra[i - 1]
  }

  lemma NothingContinues(installed: seq<PrepareHeader>)
    ensures Continues(installed, [])
  {
  }

  lemma InitOfDescending(claims: seq<PrepareHeader>)
    requires Descending(claims) && claims != []
    ensures Descending(claims[..|claims| - 1])
    ensures forall x :: x in claims[..|claims| - 1] ==> x in claims && x.op > claims[|claims| - 1].op
  {
  }

  lemma {:induction false} CorroborateContinues(claims: seq<PrepareHeader>, installed: seq<PrepareHeader>)
    requires Descending(claims)
    requires installed != [] ==> Run(installed, installed[0].op)
    requires forall h :: h in claims ==> !HasOp(installed, h.op)
    ensures Continues(installed, Corroborate(claims, installed))
    ensures forall h :: h in Corroborate(claims, installed) ==> h in claims
  {
    hide Linked, Continues, Run, HasOp, Descending, Find;
    if claims != [] {
      var init, h := claims[..|claims| - 1], claims[|claims| - 1];
      InitOfDescending(claims);
      CorroborateContinues(init, installed);
      var extra := Corroborate(init, installed);
      assert h in claims;
      CorroborateStep(h, installed, extra);
    } else {
      NothingContinues(installed);
    }
  }

  lemma CorroborateStep(h: PrepareHeader, installed: seq<PrepareHeader>, extra: seq<PrepareHeader>)
    requires installed != [] ==> Run(installed, installed[0].op)
    requires Continues(installed, extra) && !HasOp(installed, h.op)
    requires forall x :: x in extra ==> x.op > h.op
    ensures var child := Find(installed + extra, h.op + 1);
            child.Some? && Linked(child.value, h) ==> Continues(installed, extra + [h])
  {
    hide Linked, Continues, Run, HasOp;
    ChildIsLowest(h, installed, extra);
    var child := Find(installed + extra, h.op + 1);
    if child.Some? && Linked(child.value, h) {
      ExtendRun(h, installed, extra);
    }
  }

  /** The lowest entry of the log so far. */
  ghost function Lowest(installed: seq<PrepareHeader>, extra: seq<PrepareHeader>): PrepareHeader
    requires installed != []
  {
    Above(installed, extra, |extra|)
  }

  /** In a consecutive run, an entry is the last or has a neighbour one op below it. */
  lemma LastOfRun(hs: seq<PrepareHeader>, from: int, c: nat)
    requires Run(hs, from) && c < |hs|
    ensures c == |hs| - 1 || exists x :: x in hs && x.op == hs[c].op - 1
  {
    if c + 1 < |hs| {
      assert hs[c + 1] in hs;
    }
  }

  lemma HeadIn(hs: seq<PrepareHeader>)
    ensures hs == [] || hs[0] in hs
  {
  }

  /** The only entry a new lowest claim can hang from is the lowest entry so far. */
  lemma ChildIsLowest(h: PrepareHeader, installed: seq<PrepareHeader>, extra: seq<PrepareHeader>)
    requires installed != [] ==> Run(installed, installed[0].op)
    requires Continues(installed, extra) && !HasOp(installed, h.op)
    requires forall x :: x in extra ==> x.op > h.op
    ensures var child := Find(installed + extra, h.op + 1);
            child.Some? ==> installed != [] && child.value == Lowest(installed, extra)
  {
    hide Linked, Find;
    var child := Find(installed + extra, h.op + 1);
    if child.Some? {
      assert installed != [];
      if child.value in installed {
        var c :| 0 <= c < |installed| && installed[c] == child.value;
        LastOfRun(installed, installed[0].op, c);
        HeadIn(extra);
      } else {
        var e :| 0 <= e < |extra| && extra[e] == child.value;
        LastOfRun(extra, installed[|installed| - 1].op as int - 1, e);
      }
    }
  }

  lemma ExtendRun(h: PrepareHeader, installed: seq<PrepareHeader>, extra: seq<PrepareHeader>)
    requires installed != [] && Continues(installed, extra)
    requires h.op + 1 == Lowest(installed, extra).op && Linked(Lowest(installed, extra), h)
    ensures Continues(installed, extra + [h])
  {
    hide Linked;
    var more := extra + [h];
    assert forall i :: 0 <= i < |extra| ==> more[i] == extra[i];
    forall i | 0 <= i < |more| ensures Linked(Above(installed, more, i), more[i]) {
      assert Above(installed, more, i) == Above(installed, extra, i);
    }
  }

  /** What the view learns below its commit point: no gap, no repeat, each entry a real claim. */
  lemma ElsewhereExtends(q: Votes, lv: nat, installed: seq<PrepareHeader>)
    requires Elsewhere(q, lv, installed).Some?
    requires installed != [] ==> Run(installed, installed[0].op)
    ensures Continues(installed, Elsewhere(q, lv, installed).value)
    ensures forall h :: h in Elsewhere(q, lv, installed).value ==> exists r :: Claims(q, lv, r, h)
  {
    hide Disputed, FirstClaims, AllClaims, SortDescending, HasOp, Claims, Continues, Corroborate;
    var claims := AllClaims(q, lv, installed, |q|);
    AllClaimsSound(q, lv, installed, |q|);
    FirstClaimsDistinct(claims);
    SortIsDescending(FirstClaims(claims));
    CorroborateContinues(SortDescending(FirstClaims(claims)), installed);
  }

  // ----- The whole log -----

  /** Some sender serves the body of exactly this prepare. */
  ghost predicate Servable(q: Votes, h: PrepareHeader) {
    exists r :: 0 <= r < |q| && q[r].Some? && q[r].value.OffersBody(h.op)
      && q[r].value.Held(h.op).Some? && q[r].value.Held(h.op).value.checksum == h.checksum
  }

  /** No canonical sender holds a different prepare at this op, and one holds this one. */
  ghost predicate Unanimous(q: Votes, lv: nat, h: PrepareHeader) {
    && (exists r: nat :: Canonical(q, lv, r) && q[r].value.Held(h.op) == Some(h))
    && forall r: nat :: Canonical(q, lv, r) && q[r].value.Held(h.op).Some? ==>
         q[r].value.Held(h.op).value.checksum == h.checksum
  }

  ghost predicate OneHistory(q: Votes, log: MergedLog) {
    && TopView(q).Some?
    && log.commitMax <= log.opHead
    && (forall r :: 0 <= r < |q| && q[r].Some? ==> q[r].value.commit <= log.commitMax)
    && |log.headers| == (if log.opHead == 0 then 0 else log.opHead - Max(log.commitMax, 1) + 1)
    && Run(log.headers, log.opHead)
    && (forall h :: h in log.headers ==> Unanimous(q, TopView(q).value, h) && Servable(q, h))
    && (forall i :: 0 <= i < |log.headers| - 1 ==> log.headers[i].parent == log.headers[i + 1].checksum)
    && Continues(log.headers, log.committedElsewhere)
    && (forall h :: h in log.committedElsewhere ==> exists r :: Claims(q, TopView(q).value, r, h))
  }

  lemma CanonicalOpMatches(q: Votes, lv: nat, op: nat)
    requires Seated(q) && Header(q, lv, op).Some?
    ensures Header(q, lv, op).value.op == op
  {
    var r: nat :| Canonical(q, lv, r) && q[r].value.Held(op) == Header(q, lv, op);
    assert q[r].value.WellFormed();
  }

  lemma AdoptableIsServable(q: Votes, lv: nat, op: nat)
    requires Seated(q) && Adoptable(q, lv, op)
    ensures Unanimous(q, lv, Header(q, lv, op).value) && Servable(q, Header(q, lv, op).value)
  {
    hide IsBlank;
    CanonicalOpMatches(q, lv, op);
    var r :| r in Copiers(q, lv, op);
    assert CopyVote(q[r].value, Header(q, lv, op), op);
  }

  lemma HeadersAreAgreed(q: Votes, lv: nat, opHead: nat, floor: nat, hs: seq<PrepareHeader>)
    requires Seated(q) && ChainsDown(q, lv, opHead, floor, hs)
    requires forall op :: floor <= op <= opHead ==> Adoptable(q, lv, op)
    ensures Run(hs, opHead)
    ensures forall h :: h in hs ==> Unanimous(q, lv, h) && Servable(q, h)
  {
    hide Conflict, Header, Adoptable, Unanimous, Servable;
    forall i | 0 <= i < |hs| ensures hs[i].op == opHead - i && Unanimous(q, lv, hs[i]) && Servable(q, hs[i]) {
      var op := opHead - i;
      assert Header(q, lv, op) == Some(hs[opHead - op]);
      CanonicalOpMatches(q, lv, op);
      AdoptableIsServable(q, lv, op);
    }
  }

  lemma ReadyForIsOneHistory(q: Votes, quorums: MergeQuorums, log: MergedLog)
    requires Seated(q) && ReadyFor(q, quorums, log)
    ensures OneHistory(q, log)
  {
    hide Seated, Conflict, Header, Adoptable, NackQuorum, Unanimous, Servable, Claims, Continues, Elsewhere,
         HeadMax, TopView, Reported, Run;
    var lv := TopView(q).value;
    if log.opHead > 0 {
      HeadersAreAgreed(q, lv, log.opHead, Max(log.commitMax, 1), log.headers);
      RunStartsAtHead(log.headers, log.opHead);
      ElsewhereExtends(q, lv, log.headers);
    } else {
      EmptyLog(q, quorums, log);
    }
  }

  lemma RunStartsAtHead(hs: seq<PrepareHeader>, from: nat)
    requires Run(hs, from) && hs != []
    ensures Run(hs, hs[0].op)
  {
  }

  lemma EmptyLog(q: Votes, quorums: MergeQuorums, log: MergedLog)
    requires ReadyFor(q, quorums, log) && log.opHead == 0
    ensures log.headers == [] && Run([], 0) && Continues([], log.committedElsewhere)
    ensures forall h :: h in log.committedElsewhere ==> exists r :: Claims(q, TopView(q).value, r, h)
  {
    hide Elsewhere, HeadMax, TopView, Reported, Stops, Claims, CommitMax;
    if HeadMax(q, TopView(q).value, 0) > 0 {
      ElsewhereExtends(q, TopView(q).value, []);
    }
  }

  lemma ReadyLogIsOneHistory(q: Votes, quorums: MergeQuorums)
    requires Seated(q) && Merge(q, quorums).Ready?
    ensures OneHistory(q, Merge(q, quorums).log)
  {
    hide *;
    ReadyMerge(q, quorums);
    ReadyForIsOneHistory(q, quorums, Merge(q, quorums).log);
  }
}
