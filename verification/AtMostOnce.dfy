/**
 * At-most-once execution as a property of the log alone: if every op was admitted against
 * some earlier table with nothing of its client's in between, a client, epoch and request
 * appear together twice only where a session expires after using the number reserved for
 * its expiry.
 */
module AtMostOnce {
  import opened ClientEntry
  import opened ClientBook
  import opened MetadataLog

  /** The entry as far as admission is concerned. */
  ghost predicate SameStanding(a: Entry, b: Entry) {
    a.epoch == b.epoch && a.watermark == b.watermark && a.user == b.user && (a.endedOp.Some? ==> b.endedOp.Some?)
  }

  /** No request at or below `r` of epoch `e` can be admitted again. */
  ghost predicate Guarded(book: Book, c: nat, e: nat, r: nat) {
    c in book ==> || book[c].epoch > e
                  || (book[c].epoch == e && (book[c].endedOp.Some? || r <= book[c].watermark))
  }

  /** Epoch `e` is over for client `c`. */
  ghost predicate Retired(book: Book, c: nat, e: nat) {
    c in book ==> book[c].epoch > e || (book[c].epoch == e && book[c].endedOp.Some?)
  }

  ghost predicate Settled(book: Book, op: LogOp)
    requires op.Stamped()
  {
    if op.RequestOp? then Guarded(book, op.client, op.session, op.request) else Retired(book, op.client, op.session)
  }

  ghost predicate EpochsWithin(book: Book, n: nat) {
    forall c :: c in book ==> 0 < book[c].epoch <= n
  }

  // ----- One op -----

  /** Other clients' ops can end a session or drop its entry, nothing else. */
  lemma OthersLeaveEntry(book: Book, capacity: nat, n: nat, op: LogOp, c: nat)
    requires Seeded(book) && !op.From(c)
    ensures var after := ApplyOp(book, capacity, n, op);
            after.Some? && c in after.value ==> c in book && SameStanding(book[c], after.value[c])
  {
    hide Receipted, Seeded, CheckEntry;
  }

  /** Ops of its own client only ever raise an entry's watermark, or end it, or open a newer epoch. */
  lemma OwnOpAdvances(book: Book, capacity: nat, n: nat, op: LogOp)
    requires Seeded(book) && (op.RegisterOp? || op.Stamped())
    ensures var after := ApplyOp(book, capacity, n, op);
            after.Some? && op.client in after.value ==>
              || (&& op.client in book && book[op.client].epoch == after.value[op.client].epoch
                  && book[op.client].watermark <= after.value[op.client].watermark
                  && (book[op.client].endedOp.Some? ==> after.value[op.client].endedOp.Some?))
              || (op.client !in book && after.value[op.client].epoch == n)
  {
    hide Receipted;
    if op.Stamped() && op.client in book {
      ReceiptedNonEmpty(book[op.client], ReplyTo(n, op));
      ReceiptedNonEmpty(Ended(book[op.client], n), ReplyTo(n, op));
    }
  }

  lemma EpochsGrow(book: Book, capacity: nat, n: nat, op: LogOp)
    requires Seeded(book) && EpochsWithin(book, n)
    ensures var after := ApplyOp(book, capacity, n + 1, op);
            after.Some? ==> EpochsWithin(after.value, n + 1)
  {
    hide ApplyOp, Seeded;
    var after := ApplyOp(book, capacity, n + 1, op);
    if after.Some? {
      forall c | c in after.value ensures 0 < after.value[c].epoch <= n + 1 {
        if op.From(c) {
          OwnOpAdvances(book, capacity, n + 1, op);
        } else {
          OthersLeaveEntry(book, capacity, n + 1, op, c);
        }
      }
    }
  }

  lemma SettledPersists(book: Book, capacity: nat, n: nat, op: LogOp, done: LogOp)
    requires Seeded(book) && done.Stamped() && done.session <= n && Settled(book, done)
    ensures var after := ApplyOp(book, capacity, n + 1, op);
            after.Some? ==> Settled(after.value, done)
  {
    hide ApplyOp, Seeded;
    if op.From(done.client) {
      OwnOpAdvances(book, capacity, n + 1, op);
    } else {
      OthersLeaveEntry(book, capacity, n + 1, op, done.client);
    }
  }

  /** The entry an op was admitted against, as the op finds it: same epoch and principal, at most ended. */
  ghost predicate StillStanding(book: Book, op: LogOp)
    requires op.Stamped()
  {
    op.client in book ==>
      && book[op.client].epoch == op.session && book[op.client].user == op.user
      && (op.ExpireOp? || op.request > book[op.client].watermark)
  }

  /** Once applied, an admitted op is settled. */
  lemma AppliedIsSettled(book: Book, capacity: nat, n: nat, op: LogOp)
    requires Seeded(book) && op.Stamped() && op.client != RESERVED_CLIENT_ID && StillStanding(book, op)
    ensures var after := ApplyOp(book, capacity, n, op);
            after.Some? ==> Settled(after.value, op)
  {
    hide Receipted;
    if op.client in book {
      ReceiptedNonEmpty(book[op.client], ReplyTo(n, op));
      ReceiptedNonEmpty(Ended(book[op.client], n), ReplyTo(n, op));
    }
  }

  // ----- Whole logs -----

  lemma {:induction false} EpochsWithinLog(log: seq<LogOp>, capacity: nat, n: nat)
    requires n <= |log| && BookAt(log, capacity, n).Some?
    ensures EpochsWithin(BookAt(log, capacity, n).value, n)
  {
    hide ApplyOp, Seeded, EpochsWithin;
    if n > 0 {
      EpochsWithinLog(log, capacity, n - 1);
      EpochsGrow(BookAt(log, capacity, n - 1).value, capacity, n - 1, log[n - 1]);
    } else {
      NoEpochs();
    }
  }

  lemma NoEpochs()
    ensures EpochsWithin(map[], 0)
  {
  }

  lemma {:induction false} BookAtBelow(log: seq<LogOp>, capacity: nat, m: nat, n: nat)
    requires m <= n <= |log| && BookAt(log, capacity, n).Some?
    ensures BookAt(log, capacity, m).Some?
  {
    hide ApplyOp, Seeded;
    if m < n {
      BookAtBelow(log, capacity, m, n - 1);
    }
  }

  /** Op `i` was admitted against the table after `m` ops, with none of its client's ops since. */
  ghost predicate Admitted(log: seq<LogOp>, capacity: nat, i: nat, m: nat) {
    && m <= i < |log| && log[i].Stamped() && log[i].client != RESERVED_CLIENT_ID
    && BookAt(log, capacity, m).Some?
    && var book := BookAt(log, capacity, m).value;
    && log[i].client in book && book[log[i].client].endedOp.None? && StillStanding(book, log[i])
    && forall j :: m <= j < i ==> !log[j].From(log[i].client)
  }

  ghost predicate Disciplined(log: seq<LogOp>, capacity: nat) {
    forall i :: 0 <= i < |log| && log[i].Stamped() ==> exists m :: Admitted(log, capacity, i, m)
  }

  lemma {:induction false} StandsUntilApplied(log: seq<LogOp>, capacity: nat, i: nat, m: nat, n: nat)
    requires Admitted(log, capacity, i, m) && m <= n <= i
    requires BookAt(log, capacity, n).Some?
    ensures StillStanding(BookAt(log, capacity, n).value, log[i])
  {
    hide ApplyOp, Seeded;
    if m < n {
      BookAtBelow(log, capacity, n - 1, n);
      StandsUntilApplied(log, capacity, i, m, n - 1);
      OthersLeaveEntry(BookAt(log, capacity, n - 1).value, capacity, n, log[n - 1], log[i].client);
    }
  }

  lemma {:induction false} SettledEverAfter(log: seq<LogOp>, capacity: nat, i: nat, m: nat, n: nat)
    requires Admitted(log, capacity, i, m) && i < n <= |log|
    requires BookAt(log, capacity, n).Some?
    ensures Settled(BookAt(log, capacity, n).value, log[i])
  {
    hide ApplyOp, Seeded, Settled, StillStanding, Admitted;
    BookAtBelow(log, capacity, n - 1, n);
    var before := BookAt(log, capacity, n - 1).value;
    AdmittedFacts(log, capacity, i, m);
    if n == i + 1 {
      StandsUntilApplied(log, capacity, i, m, i);
      AppliedIsSettled(before, capacity, n, log[i]);
    } else {
      SettledEverAfter(log, capacity, i, m, n - 1);
      SettledPersists(before, capacity, n - 1, log[n - 1], log[i]);
    }
  }

  lemma AdmittedFacts(log: seq<LogOp>, capacity: nat, i: nat, m: nat)
    requires Admitted(log, capacity, i, m)
    ensures m <= i < |log| && log[i].Stamped() && log[i].client != RESERVED_CLIENT_ID
    ensures 0 < log[i].session <= m
    ensures BookAt(log, capacity, m).Some? && !Settled(BookAt(log, capacity, m).value, log[i])
  {
    hide BookAt, Seeded;
    EpochsWithinLog(log, capacity, m);
  }

  /** The two ops run under the same client, epoch and request number. */
  predicate SameRequest(a: LogOp, b: LogOp) {
    a.Stamped() && b.Stamped() && a.client == b.client && a.session == b.session && a.RequestNumber() == b.RequestNumber()
  }

  /** A session's request used the number its own expiry is logged under. */
  predicate ExpiryNumberReused(a: LogOp, b: LogOp) {
    && a.RequestOp? && b.ExpireOp? && a.client == b.client && a.session == b.session
    && a.request == EXPIRED_SESSION_REQUEST_ID
  }

  /** A disciplined log repeats a request exactly where an expiry follows a request under its reserved number. */
  lemma DisciplinedLogRepeatsIff(log: seq<LogOp>, capacity: nat)
    requires Disciplined(log, capacity)
    ensures forall i, j :: 0 <= i < j < |log| ==> (SameRequest(log[i], log[j]) <==> ExpiryNumberReused(log[i], log[j]))
  {
    hide BookAt, Admitted, SameRequest, ExpiryNumberReused;
    forall i, j | 0 <= i < j < |log| ensures SameRequest(log[i], log[j]) <==> ExpiryNumberReused(log[i], log[j]) {
      RepeatsIff(log, capacity, i, j);
    }
  }

  lemma RepeatsIff(log: seq<LogOp>, capacity: nat, i: nat, j: nat)
    requires Disciplined(log, capacity) && i < j < |log|
    ensures SameRequest(log[i], log[j]) <==> ExpiryNumberReused(log[i], log[j])
  {
    hide BookAt, Settled, StillStanding;
    if SameRequest(log[i], log[j]) {
      var mi: nat :| Admitted(log, capacity, i, mi);
      var mj: nat :| Admitted(log, capacity, j, mj);
      AdmittedFacts(log, capacity, j, mj);
      SettledEverAfter(log, capacity, i, mi, mj);
      SettledAdmitsOnlyExpiry(BookAt(log, capacity, mj).value, log[i], log[j]);
    }
  }

  /** A table that settled an op admits the same number again only as the session's expiry. */
  lemma SettledAdmitsOnlyExpiry(book: Book, done: LogOp, op: LogOp)
    requires SameRequest(done, op) && Settled(book, done)
    requires op.client in book && book[op.client].endedOp.None? && StillStanding(book, op)
    ensures ExpiryNumberReused(done, op)
  {
  }

  /** The caller's condition: no request carries the reserved number. */
  ghost predicate NumbersReserved(log: seq<LogOp>) {
    forall i :: 0 <= i < |log| && log[i].RequestOp? ==> log[i].request != EXPIRED_SESSION_REQUEST_ID
  }

  /** Without such requests every request runs at most once. */
  lemma DisciplinedLogHasNoRepeats(log: seq<LogOp>, capacity: nat)
    requires Disciplined(log, capacity) && NumbersReserved(log)
    ensures forall i, j :: 0 <= i < j < |log| ==> !SameRequest(log[i], log[j])
  {
    hide Disciplined, SameRequest;
    DisciplinedLogRepeatsIff(log, capacity);
  }
}
