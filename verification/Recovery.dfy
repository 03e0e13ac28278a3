/** What a table that lost its older cached replies to recovery still answers. */
module Recovery {
  import opened Common
  import opened ClientEntry
  import opened ClientBook
  import opened MetadataLog
  import opened Protection

  /** The same verdict, except that a reply that is gone can only be reported as applied. */
  predicate Weakens(before: RequestStatus, after: RequestStatus) {
    || after == before
    || ((before.Duplicate? || before.OperationMismatch?) && after.AlreadyApplied?)
  }

  lemma FindInTail(ring: seq<CachedReply>, lo: nat, request: nat)
    requires Ordered(ring) && lo <= |ring|
    ensures FindCached(ring[lo..], request).Some? ==> FindCached(ring, request) == FindCached(ring[lo..], request)
  {
    hide FindCached;
    var tail := ring[lo..];
    if FindCached(tail, request).Some? {
      var i :| 0 <= i < |tail| && tail[i] == FindCached(tail, request).value;
      assert ring[lo + i] == tail[i];
      FindCachedIs(ring, lo + i);
    }
  }

  lemma FindLast(ring: seq<CachedReply>, lo: nat)
    requires Ordered(ring) && lo < |ring|
    ensures FindCached(ring[lo..], ring[|ring| - 1].header.request) == Some(ring[|ring| - 1])
  {
    hide FindCached;
    var tail := ring[lo..];
    assert forall i :: 0 <= i < |tail| ==> tail[i] == ring[lo + i];
    FindCachedIs(tail, |tail| - 1);
  }

  lemma RecoveredEntryVerdict(e: Entry, depth: nat, epoch: nat, request: nat, operation: Operation)
    requires ValidProtection(e) && LogoutLast(e) && 0 < depth
    ensures var before := CheckEntry(e, epoch, request, operation);
            var after := CheckEntry(RecoveredEntry(e, depth), epoch, request, operation);
            Weakens(before, after) && (before.New? <==> after.New?)
  {
    hide Verdict, FindCached, ValidProtection, LogoutLast;
    RecoveredFinds(e, depth, request);
    VerdictWeakens(e.endedOp.Some?, e.epoch, e.watermark, FindCached(e.ring, request),
                   FindCached(RecoveredEntry(e, depth).ring, request), epoch, request, operation);
  }

  lemma VerdictWeakens(ended: bool, current: nat, watermark: nat, before: Option<CachedReply>, after: Option<CachedReply>,
                       epoch: nat, request: nat, operation: Operation)
    requires after.Some? ==> before == after
    requires before.Some? && before.value.header.operation.Logout? ==> before == after
    ensures var v := Verdict(ended, current, watermark, before, epoch, request, operation);
            var w := Verdict(ended, current, watermark, after, epoch, request, operation);
            Weakens(v, w) && (v.New? <==> w.New?)
  {
    hide Operation.RequestOperation;
  }

  lemma RecoveredFinds(e: Entry, depth: nat, request: nat)
    requires ValidProtection(e) && LogoutLast(e) && 0 < depth
    ensures var before, after := FindCached(e.ring, request), FindCached(RecoveredEntry(e, depth).ring, request);
            && (after.Some? ==> before == after)
            && (before.Some? && before.value.header.operation.Logout? ==> before == after)
  {
    var lo := RecoveredRing(e, depth);
    assert e.ring != [];
    hide FindCached, ValidProtection, LogoutLast, RecoveredEntry;
    TailFinds(e, lo, request);
  }

  /** A tail of the ring finds the same replies or none, and never misses a Logout. */
  lemma TailFinds(e: Entry, lo: nat, request: nat)
    requires ValidProtection(e) && LogoutLast(e) && lo < |e.ring|
    ensures var before, after := FindCached(e.ring, request), FindCached(e.ring[lo..], request);
            && (after.Some? ==> before == after)
            && (before.Some? && before.value.header.operation.Logout? ==> before == after)
  {
    assert Ordered(e.ring) && e.ring != [];
    hide FindCached, ValidProtection;
    FindInTail(e.ring, lo, request);
    FindLast(e.ring, lo);
    var cached := FindCached(e.ring, request);
    if cached.Some? && cached.value.header.operation.Logout? {
      var i :| 0 <= i < |e.ring| && e.ring[i] == cached.value;
    }
  }

  /** However often it is recovered, a live session's latest request is answered with its own reply. */
  lemma LatestIsAnswered(c: nat, e: Entry, log: seq<LogOp>, n: nat, depth: nat)
    requires EntryProtected(c, e, log, n) && e.endedOp.None? && 0 < depth
    ensures CheckEntry(RecoveredEntry(e, depth), e.epoch, e.watermark, e.Latest().header.operation) == Duplicate(e.Latest())
  {
    ProtectedTop(c, e, log, n);
    FindsLatest(e, depth);
    hide *;
    RecoveredFields(e, depth);
    CheckEntryIs(RecoveredEntry(e, depth), e.epoch, e.watermark, e.Latest().header.operation);
    LatestVerdict(e.epoch, e.watermark, e.Latest());
  }

  lemma ProtectedTop(c: nat, e: Entry, log: seq<LogOp>, n: nat)
    requires EntryProtected(c, e, log, n)
    ensures e.ring != [] && Ordered(e.ring) && e.Latest().header.request == e.watermark
  {
    hide EntrySourced, LogoutLast;
  }

  lemma FindsLatest(e: Entry, depth: nat)
    requires e.ring != [] && Ordered(e.ring) && 0 < depth
    ensures FindCached(RecoveredEntry(e, depth).ring, e.Latest().header.request) == Some(e.Latest())
  {
    hide *;
    var lo := RecoveredRing(e, depth);
    FindLast(e.ring, lo);
    LatestIs(e);
  }

  lemma LatestIs(e: Entry)
    requires e.ring != []
    ensures e.Latest() == e.ring[|e.ring| - 1]
  {
  }

  lemma RecoveredFields(e: Entry, depth: nat)
    requires 0 < depth
    ensures RecoveredEntry(e, depth).endedOp == e.endedOp && RecoveredEntry(e, depth).epoch == e.epoch
    ensures RecoveredEntry(e, depth).watermark == e.watermark
  {
  }

  lemma CheckEntryIs(e: Entry, epoch: nat, request: nat, operation: Operation)
    ensures CheckEntry(e, epoch, request, operation)
            == Verdict(e.endedOp.Some?, e.epoch, e.watermark, FindCached(e.ring, request), epoch, request, operation)
  {
  }

  lemma LatestVerdict(epoch: nat, watermark: nat, latest: CachedReply)
    ensures Verdict(false, epoch, watermark, Some(latest), epoch, watermark, latest.header.operation) == Duplicate(latest)
  {
  }

  /** Recovery keeps every verdict; a request is new after exactly when it was new before. */
  lemma RecoveryNeverForgets(book: Book, log: seq<LogOp>, n: nat, depth: nat, client: nat, epoch: nat, request: nat, operation: Operation)
    requires Protected(book, log, n) && 0 < depth
    ensures var before := CheckRequest(book, client, epoch, request, operation);
            var after := CheckRequest(Recovered(book, depth), client, epoch, request, operation);
            Weakens(before, after) && (before.New? <==> after.New?)
  {
    hide CheckEntry, RecoveredEntry;
    if client in book {
      assert EntryProtected(client, book[client], log, n);
      RecoveredEntryVerdict(book[client], depth, epoch, request, operation);
    }
  }
}
