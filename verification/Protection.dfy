/**
 * The retry protection of a table that only ever applied admitted ops: every entry is
 * fit to be recovered, and every cached reply is the reply its op produced.
 */
module Protection {
  import opened Common
  import opened ClientEntry
  import opened ClientBook
  import opened MetadataLog
  import opened AtMostOnce

  /** Operations other than registration, logout and expiry; only account changes revoke sessions. */
  predicate Proper(op: LogOp) {
    op.RequestOp? ==>
      && !op.operation.Register? && !op.operation.Logout?
      && (op.revokes.Some? ==> op.operation.UpdateUserResolved? || op.operation.DeleteUser?)
  }

  // ----- One receipt -----

  /** The newest reply is the watermark's, and no other reply is. */
  ghost predicate Topped(e: Entry) {
    && e.ring != [] && e.Latest().header.request == e.watermark
    && forall i :: 0 <= i < |e.ring| - 1 ==> e.ring[i].header.request < e.watermark
  }

  lemma {:induction false} ReplacedAtEnd(ring: seq<CachedReply>, reply: CachedReply)
    requires ring != [] && ring[|ring| - 1].header.request == reply.header.request
    requires forall i :: 0 <= i < |ring| - 1 ==> ring[i].header.request != reply.header.request
    ensures Replaced(ring, reply) == ring[..|ring| - 1] + [reply]
  {
    if |ring| > 1 {
      var rest := ring[1..];
      assert forall i :: 0 <= i < |rest| ==> rest[i] == ring[i + 1];
      ReplacedAtEnd(rest, reply);
      assert [ring[0]] + (rest[..|rest| - 1] + [reply]) == ring[..|ring| - 1] + [reply];
    }
  }

  /** A receipt goes on top of a run of the older replies; a repeat takes its own reply's place. */
  lemma ReceiptedShape(e: Entry, reply: CachedReply) returns (lo: nat, hi: nat)
    requires Topped(e) && reply.header.request >= e.watermark
    ensures lo <= hi <= |e.ring| && hi == (if reply.header.request == e.watermark then |e.ring| - 1 else |e.ring|)
    ensures Receipted(e, reply) ==
      e.(ring := e.ring[lo..hi] + [reply], latestCommit := reply.header.commit, watermark := reply.header.request)
    ensures reply.header.request != e.watermark ==> Retainable(Receipted(e, reply).ring)
  {
    if reply.header.request == e.watermark {
      assert Caches(e.ring, e.watermark) by { assert e.ring[|e.ring| - 1].header.request == e.watermark; }
      ReplacedAtEnd(e.ring, reply);
      lo, hi := 0, |e.ring| - 1;
      assert e.ring[lo..hi] == e.ring[..hi];
    } else {
      var ring := e.ring + [reply];
      lo := TrimKeepsNewest(ring);
      TrimNonEmpty(ring);
      hi := |e.ring|;
      assert Trim(ring) == ring[lo..];
      assert lo <= hi;
      assert ring[lo..] == e.ring[lo..hi] + [reply];
    }
  }

  lemma ReceiptedTopped(e: Entry, reply: CachedReply)
    requires Topped(e) && reply.header.request >= e.watermark
    ensures Topped(Receipted(e, reply)) && Receipted(e, reply).Latest() == reply
    ensures Receipted(e, reply).latestCommit == reply.header.commit
    ensures Receipted(e, reply).watermark == reply.header.request
  {
    var lo, hi := ReceiptedShape(e, reply);
    hide Receipted;
  }

  // ----- Rings that lost older replies -----

  /** One ring is the newest part of the other. */
  predicate TailOf(a: seq<CachedReply>, b: seq<CachedReply>) {
    |a| <= |b| && a == b[|b| - |a|..]
  }

  lemma {:induction false} TailBytes(ring: seq<CachedReply>, d: nat)
    requires d <= |ring|
    ensures RingBytes(ring[d..]) <= RingBytes(ring)
  {
    if d == 0 {
      assert ring[0..] == ring;
    } else {
      TailBytes(ring[1..], d - 1);
      assert ring[1..][d - 1..] == ring[d..];
    }
  }

  /** Trimming keeps one ring the newest part of the other. */
  lemma {:induction false} TrimKeepsTail(a: seq<CachedReply>, b: seq<CachedReply>)
    requires TailOf(a, b)
    ensures TailOf(Trim(a), Trim(b))
    decreases |b|
  {
    if Retainable(b) {
      TailBytes(b, |b| - |a|);
    } else if |a| < |b| {
      assert b[1..][|b| - 1 - |a|..] == b[|b| - |a|..];
      TrimKeepsTail(a, b[1..]);
    } else {
      assert a == b;
    }
  }

  lemma PushKeepsTail(a: seq<CachedReply>, b: seq<CachedReply>, reply: CachedReply)
    requires TailOf(a, b)
    ensures TailOf(a + [reply], b + [reply])
  {
    assert (b + [reply])[|b| - |a|..] == b[|b| - |a|..] + [reply];
  }

  lemma ReplaceKeepsTail(a: seq<CachedReply>, b: seq<CachedReply>, reply: CachedReply)
    requires TailOf(a, b) && a != []
    ensures b != [] && TailOf(a[..|a| - 1] + [reply], b[..|b| - 1] + [reply])
  {
    assert a[..|a| - 1] == b[..|b| - 1][|b| - |a|..];
    PushKeepsTail(a[..|a| - 1], b[..|b| - 1], reply);
  }

  lemma TailNonEmpty(a: seq<CachedReply>, b: seq<CachedReply>)
    requires TailOf(a, b) && a != []
    ensures b != []
  {
  }

  lemma ReceiptKeepsTail(a: Entry, b: Entry, reply: CachedReply)
    requires Topped(a) && Topped(b) && a.ring != [] && TailOf(a.ring, b.ring) && a.watermark == b.watermark && reply.header.request >= a.watermark
    ensures TailOf(Receipted(a, reply).ring, Receipted(b, reply).ring)
  {
    hide *;
    TailNonEmpty(a.ring, b.ring);
    ReceiptedRing(a, reply);
    ReceiptedRing(b, reply);
    if reply.header.request == a.watermark {
      ReplaceKeepsTail(a.ring, b.ring, reply);
    } else {
      PushKeepsTail(a.ring, b.ring, reply);
      TrimKeepsTail(a.ring + [reply], b.ring + [reply]);
    }
  }

  lemma ReceiptedRing(e: Entry, reply: CachedReply)
    requires Topped(e) && reply.header.request >= e.watermark
    ensures Receipted(e, reply).ring ==
      if reply.header.request == e.watermark then e.ring[..|e.ring| - 1] + [reply] else Trim(e.ring + [reply])
  {
    if reply.header.request == e.watermark {
      assert Caches(e.ring, e.watermark) by { assert e.ring[|e.ring| - 1].header.request == e.watermark; }
      ReplacedAtEnd(e.ring, reply);
      hide Replaced;
    }
  }

  lemma OrderedTop(e: Entry)
    requires ValidProtection(e)
    ensures Topped(e) && forall i :: 0 <= i < |e.ring| ==> e.ring[i].header.commit <= e.latestCommit
  {
  }

  /** A newer receipt keeps the entry protected. */
  lemma ReceiptedProtected(e: Entry, reply: CachedReply)
    requires ValidProtection(e) && reply.header.client == e.client && reply.header.request >= e.watermark
    requires reply.header.commit > e.latestCommit && reply.header.request > 0 && !reply.header.operation.Register?
    requires e.endedOp.Some? ==> e.endedOp.value == reply.header.commit && reply.header.operation.EndsSession()
    ensures Receipted(e, reply).ring != [] && ValidProtection(Receipted(e, reply))
  {
    OrderedTop(e);
    var lo, hi := ReceiptedShape(e, reply);
    hide Receipted;
    RunProtected(e, lo, hi, reply);
  }

  lemma RunProtected(e: Entry, lo: nat, hi: nat, reply: CachedReply)
    requires ValidProtection(e) && Topped(e) && lo <= hi <= |e.ring|
    requires hi == if reply.header.request == e.watermark then |e.ring| - 1 else |e.ring|
    requires reply.header.client == e.client && reply.header.request >= e.watermark
    requires reply.header.commit > e.latestCommit && reply.header.request > 0 && !reply.header.operation.Register?
    requires e.endedOp.Some? ==> e.endedOp.value == reply.header.commit && reply.header.operation.EndsSession()
    ensures var after := e.(ring := e.ring[lo..hi] + [reply], latestCommit := reply.header.commit, watermark := reply.header.request);
            ValidProtection(after)
  {
    OrderedTop(e);
    var ring := e.ring[lo..hi] + [reply];
    assert forall i :: 0 <= i < |ring| - 1 ==> ring[i] == e.ring[lo + i];
    forall i, j | 0 <= i < j < |ring|
      ensures ring[i].header.request < ring[j].header.request && ring[i].header.commit < ring[j].header.commit
    {
      assert ring[i] == e.ring[lo + i];
    }
    assert Ordered(ring);
  }

  // ----- Protected tables -----

  /** A Logout reply is the last one, of a session it ended. */
  ghost predicate LogoutLast(e: Entry) {
    forall i :: 0 <= i < |e.ring| && e.ring[i].header.operation.Logout? ==>
      i == |e.ring| - 1 && e.endedOp == Some(e.latestCommit)
  }

  /** The reply is the one op `commit` of the log produced for this client and epoch. */
  ghost predicate FromLog(log: seq<LogOp>, n: nat, c: nat, epoch: nat, reply: CachedReply) {
    && 0 < reply.header.commit <= n <= |log|
    && var k := reply.header.commit;
       var op := log[k - 1];
    && op.From(c)
    && (if op.RegisterOp? then k == epoch && reply == RegisterReply(k, op)
        else op.session == epoch && reply == ReplyTo(k, op))
  }

  ghost predicate EntrySourced(e: Entry, log: seq<LogOp>, n: nat) {
    forall i :: 0 <= i < |e.ring| ==> FromLog(log, n, e.client, e.epoch, e.ring[i])
  }

  ghost predicate EntryProtected(c: nat, e: Entry, log: seq<LogOp>, n: nat) {
    && e.client == c && ValidProtection(e) && LogoutLast(e) && e.latestCommit <= n
    && (e.endedOp.Some? ==> 0 < e.endedOp.value <= n)
    && EntrySourced(e, log, n)
  }

  ghost predicate Protected(book: Book, log: seq<LogOp>, n: nat) {
    forall c :: c in book ==> EntryProtected(c, book[c], log, n)
  }

  lemma EntryLater(c: nat, e: Entry, log: seq<LogOp>, n: nat)
    requires EntryProtected(c, e, log, n) && n < |log|
    ensures EntryProtected(c, e, log, n + 1)
  {
    hide ValidProtection, LogoutLast, EntrySourced;
    SourcedLater(e, log, n);
  }

  lemma EndedProtected(c: nat, e: Entry, log: seq<LogOp>, n: nat)
    requires EntryProtected(c, e, log, n) && n < |log| && e.endedOp.None?
    ensures EntryProtected(c, Ended(e, n + 1), log, n + 1)
  {
    EntryLater(c, e, log, n);
    hide FromLog;
    assert EntrySourced(e, log, n + 1);
  }

  lemma RegistrationProtected(log: seq<LogOp>, n: nat, op: LogOp)
    requires n < |log| && op == log[n] && op.RegisterOp? && RegisterReplyOk(op.client, RegisterReply(n + 1, op))
    ensures EntryProtected(op.client, Registration(op.client, op.user, op.verifier, RegisterReply(n + 1, op)), log, n + 1)
  {
  }

  ghost predicate NoLogout(e: Entry) {
    forall i :: 0 <= i < |e.ring| ==> !e.ring[i].header.operation.Logout?
  }

  /** What an entry must be for op `n + 1` to retain its reply there. */
  ghost predicate Receives(e: Entry, log: seq<LogOp>, n: nat) {
    && n < |log| && log[n].Stamped() && log[n].client == e.client && Proper(log[n])
    && ValidProtection(e) && NoLogout(e) && e.latestCommit <= n && EntrySourced(e, log, n)
    && e.epoch == log[n].session && log[n].RequestNumber() >= e.watermark && log[n].RequestNumber() > 0
    && (e.endedOp.Some? ==> log[n].RequestOp? && e.endedOp == Some(n + 1) && log[n].operation.EndsSession())
  }

  lemma ReceiptSourced(e: Entry, log: seq<LogOp>, n: nat)
    requires Receives(e, log, n) && Topped(e)
    ensures var after := Receipted(e, ReplyTo(n + 1, log[n]));
            && EntrySourced(after, log, n + 1) && after.latestCommit == n + 1 && after.client == e.client
            && after.epoch == e.epoch && after.endedOp == e.endedOp
            && after.ring != [] && after.Latest() == ReplyTo(n + 1, log[n])
            && forall i :: 0 <= i < |after.ring| - 1 ==> !after.ring[i].header.operation.Logout?
  {
    var reply := ReplyTo(n + 1, log[n]);
    var lo, hi := ReceiptedShape(e, reply);
    hide Receipted, ValidProtection, Topped, FromLog, ReplyTo;
    var after := Receipted(e, reply);
    assert forall i :: 0 <= i < |after.ring| - 1 ==> after.ring[i] == e.ring[lo + i];
    SourcedLater(e, log, n);
    NewReplyFromLog(log, n);
  }

  lemma SourcedLater(e: Entry, log: seq<LogOp>, n: nat)
    requires EntrySourced(e, log, n) && n < |log|
    ensures EntrySourced(e, log, n + 1)
  {
    forall i | 0 <= i < |e.ring| ensures FromLog(log, n + 1, e.client, e.epoch, e.ring[i]) {
      assert FromLog(log, n, e.client, e.epoch, e.ring[i]);
    }
  }

  lemma NewReplyFromLog(log: seq<LogOp>, n: nat)
    requires n < |log| && log[n].Stamped()
    ensures FromLog(log, n + 1, log[n].client, log[n].session, ReplyTo(n + 1, log[n]))
  {
  }

  lemma ReceiptProtected(e: Entry, log: seq<LogOp>, n: nat)
    requires Receives(e, log, n)
    ensures var after := Receipted(e, ReplyTo(n + 1, log[n]));
            && (log[n].RequestOp? ==> EntryProtected(e.client, after, log, n + 1))
            && (!log[n].RequestOp? ==> EntryProtected(e.client, Ended(after, n + 1), log, n + 1))
  {
    hide Receipted;
    OrderedTop(e);
    ReceiptedProtected(e, ReplyTo(n + 1, log[n]));
    ReceiptSourced(e, log, n);
    hide FromLog, Topped;
    var after := Receipted(e, ReplyTo(n + 1, log[n]));
    assert EntrySourced(after, log, n + 1);
  }

  // ----- One op -----

  /** Other clients' ops leave the entry as it is, or end it. */
  lemma OthersLeaveExactly(book: Book, capacity: nat, n: nat, op: LogOp, c: nat)
    requires Seeded(book) && !op.From(c)
    ensures var after := ApplyOp(book, capacity, n, op);
            after.Some? && c in after.value ==>
              && c in book
              && (after.value[c] == book[c] || (book[c].endedOp.None? && after.value[c] == Ended(book[c], n)))
  {
    hide Receipted, Seeded;
  }

  /** A client's own op leaves its entry as it is, registers it, retains its reply, or ends it. */
  lemma OwnOpExactly(book: Book, capacity: nat, n: nat, op: LogOp)
    requires Seeded(book) && (op.RegisterOp? || op.Stamped()) && (op.Stamped() ==> op.client != RESERVED_CLIENT_ID)
    ensures var after := ApplyOp(book, capacity, n, op);
            after.Some? && op.client in after.value ==>
              var x := after.value[op.client];
              if op.client !in book then op.RegisterOp? && RegisterReplyOk(op.client, RegisterReply(n, op))
                && x == Registration(op.client, op.user, op.verifier, RegisterReply(n, op))
              else var e := book[op.client];
                || x == e
                || (op.RequestOp? && e.endedOp.None? && x == Receipted(e, ReplyTo(n, op)))
                || (op.RequestOp? && e.endedOp.None? && op.revokes.Some? && x == Receipted(Ended(e, n), ReplyTo(n, op)))
                || (op.RequestOp? && e.endedOp.None? && x == Ended(e, n))
                || (op.RequestOp? && e.endedOp.Some? && n <= e.endedOp.value)
                || (!op.RequestOp? && !op.RegisterOp? && e.endedOp.None? && op.RequestNumber() >= e.watermark
                    && x == Ended(Receipted(e, ReplyTo(n, op)), n))
  {
    hide Receipted;
    if op.Stamped() && op.client in book {
      ReceiptedNonEmpty(book[op.client], ReplyTo(n, op));
    }
  }

  /** An admitted op keeps its client's entry protected. */
  lemma OwnOpProtected(book: Book, log: seq<LogOp>, capacity: nat, n: nat)
    requires Seeded(book) && Protected(book, log, n) && n < |log|
    requires (log[n].RegisterOp? || log[n].Stamped()) && Proper(log[n])
    requires log[n].Stamped() ==> log[n].client != RESERVED_CLIENT_ID && StillStanding(book, log[n])
    ensures var after := ApplyOp(book, capacity, n + 1, log[n]);
            after.Some? && log[n].client in after.value ==>
              EntryProtected(log[n].client, after.value[log[n].client], log, n + 1)
  {
    hide ApplyOp, Receipted, ValidProtection, EntrySourced;
    var op := log[n];
    var c := op.client;
    OwnOpExactly(book, capacity, n + 1, op);
    if c in book {
      var e := book[c];
      assert EntryProtected(c, e, log, n);
      EntryLater(c, e, log, n);
      if e.endedOp.None? {
        EndedProtected(c, e, log, n);
        if op.Stamped() {
          OwnReceiptProtected(e, log, n);
        }
      }
    } else if op.RegisterOp? && RegisterReplyOk(c, RegisterReply(n + 1, op)) {
      RegistrationProtected(log, n, op);
    }
  }

  lemma OwnReceiptProtected(e: Entry, log: seq<LogOp>, n: nat)
    requires n < |log| && log[n].Stamped() && Proper(log[n]) && EntryProtected(log[n].client, e, log, n) && e.endedOp.None?
    requires e.epoch == log[n].session && (log[n].ExpireOp? || log[n].request > e.watermark)
    ensures e.ring != [] && Ended(e, n + 1).ring != []
    ensures log[n].RequestOp? ==> EntryProtected(e.client, Receipted(e, ReplyTo(n + 1, log[n])), log, n + 1)
    ensures log[n].RequestOp? && log[n].revokes.Some? ==>
      EntryProtected(e.client, Receipted(Ended(e, n + 1), ReplyTo(n + 1, log[n])), log, n + 1)
    ensures !log[n].RequestOp? && log[n].RequestNumber() >= e.watermark ==>
      EntryProtected(e.client, Ended(Receipted(e, ReplyTo(n + 1, log[n])), n + 1), log, n + 1)
  {
    hide Receipted, EntryProtected;
    assert NoLogout(e) && ValidProtection(e) && e.client == log[n].client && e.latestCommit <= n && EntrySourced(e, log, n) by {
      EntryFacts(log[n].client, e, log, n);
    }
    hide FromLog;
    if log[n].RequestNumber() >= e.watermark {
      ReceiptProtected(e, log, n);
      if log[n].RequestOp? && log[n].revokes.Some? {
        assert EntrySourced(Ended(e, n + 1), log, n);
        ReceiptProtected(Ended(e, n + 1), log, n);
      }
    }
  }

  lemma EntryFacts(c: nat, e: Entry, log: seq<LogOp>, n: nat)
    requires EntryProtected(c, e, log, n) && e.endedOp.None?
    ensures e.client == c && NoLogout(e) && ValidProtection(e) && e.latestCommit <= n && EntrySourced(e, log, n)
  {
    hide ValidProtection, FromLog;
  }

  /** Applying an admitted op keeps the whole table protected. */
  lemma ApplyProtected(book: Book, log: seq<LogOp>, capacity: nat, n: nat)
    requires Seeded(book) && Protected(book, log, n) && n < |log| && Proper(log[n])
    requires log[n].Stamped() ==> log[n].client != RESERVED_CLIENT_ID && StillStanding(book, log[n])
    ensures var after := ApplyOp(book, capacity, n + 1, log[n]);
            after.Some? ==> Protected(after.value, log, n + 1)
  {
    hide ApplyOp, EntryProtected, Seeded;
    var after := ApplyOp(book, capacity, n + 1, log[n]);
    if after.Some? {
      forall c | c in after.value ensures EntryProtected(c, after.value[c], log, n + 1) {
        if log[n].From(c) {
          OwnOpProtected(book, log, capacity, n);
        } else {
          OthersLeaveExactly(book, capacity, n + 1, log[n], c);
          EntryLater(c, book[c], log, n);
          if book[c].endedOp.None? {
            EndedProtected(c, book[c], log, n);
          }
        }
      }
    }
  }

  /** Only the ops read matter. */
  lemma ProtectedPrefix(book: Book, log: seq<LogOp>, other: seq<LogOp>, n: nat)
    requires Protected(book, log, n) && n <= |log| && n <= |other| && log[..n] == other[..n]
    ensures Protected(book, other, n)
  {
    hide ValidProtection, LogoutLast;
    forall c | c in book ensures EntryProtected(c, book[c], other, n) {
      assert EntryProtected(c, book[c], log, n);
      forall i | 0 <= i < |book[c].ring| ensures FromLog(other, n, c, book[c].epoch, book[c].ring[i]) {
        assert FromLog(log, n, c, book[c].epoch, book[c].ring[i]);
        assert log[..n][book[c].ring[i].header.commit - 1] == other[..n][book[c].ring[i].header.commit - 1];
      }
    }
  }

  // ----- Recovery -----

  lemma RecoveredProtected(book: Book, log: seq<LogOp>, n: nat, depth: nat)
    requires Protected(book, log, n) && 0 < depth
    ensures Protected(Recovered(book, depth), log, n)
  {
    hide EntryProtected, RecoveredEntry;
    forall c | c in book ensures EntryProtected(c, RecoveredEntry(book[c], depth), log, n) {
      RecoveredEntryProtected(c, book[c], log, n, depth);
    }
  }

  /** Recovery keeps a tail of the ring, never empty unless the ring was. */
  lemma RecoveredRing(e: Entry, depth: nat) returns (lo: nat)
    requires 0 < depth
    ensures lo <= |e.ring| && (e.ring != [] ==> lo < |e.ring|)
    ensures RecoveredEntry(e, depth).ring == e.ring[lo..]
  {
    lo := SaturatingSub(|e.ring|, depth);
  }

  lemma RecoveredEntryProtected(c: nat, e: Entry, log: seq<LogOp>, n: nat, depth: nat)
    requires EntryProtected(c, e, log, n) && 0 < depth
    ensures EntryProtected(c, RecoveredEntry(e, depth), log, n)
  {
    RecoveredValid(e, depth);
    RecoveredSourced(e, log, n, depth);
    hide ValidProtection, EntrySourced;
  }

  lemma RecoveredSourced(e: Entry, log: seq<LogOp>, n: nat, depth: nat)
    requires EntrySourced(e, log, n) && LogoutLast(e) && 0 < depth
    ensures EntrySourced(RecoveredEntry(e, depth), log, n) && LogoutLast(RecoveredEntry(e, depth))
  {
    hide FromLog;
    var lo := RecoveredRing(e, depth);
    var r := RecoveredEntry(e, depth);
    assert forall i :: 0 <= i < |r.ring| ==> r.ring[i] == e.ring[lo + i];
  }

  /** A recovered entry passes the recovery check if the original does. */
  lemma RecoveredValid(e: Entry, depth: nat)
    requires ValidProtection(e) && 0 < depth
    ensures ValidProtection(RecoveredEntry(e, depth))
  {
    hide ReceiptOk;
    var r := RecoveredEntry(e, depth);
    var lo := RecoveredRing(e, depth);
    forall i | 0 <= i < |r.ring| ensures ReceiptOk(r, r.ring[i].header) {
      assert ReceiptOk(e, e.ring[lo + i].header);
      SameReceiptOk(e, r, e.ring[lo + i].header);
    }
  }

  lemma SameReceiptOk(e: Entry, r: Entry, h: ReplyHeader)
    requires e.client == r.client && e.epoch == r.epoch && e.watermark == r.watermark
    ensures ReceiptOk(e, h) == ReceiptOk(r, h)
  {
  }
}
