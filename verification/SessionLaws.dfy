/**
 * Exactly when a session opens, ends and leaves the table, op by op, and what a change to a
 * user's account does to that user's sessions for good.
 */
module SessionLaws {
  import opened Common
  import opened ClientEntry
  import opened ClientBook
  import opened MetadataLog
  import opened AtMostOnce
  import opened SessionFence

  // ----- One op -----

  /** The session the op was admitted under is still live when it commits, or it needs none. */
  predicate Acts(book: Book, op: LogOp)
    requires op.RequestOp?
  {
    op.session == 0 || (op.client in book && book[op.client].epoch == op.session && book[op.client].endedOp.None?)
  }

  /** The op ends the live session: its own logout or expiry, or a change to its user's account. */
  predicate Ends(book: Book, op: LogOp, c: nat)
    requires c in book
  {
    var e := book[c];
    || (op.RequestOp? && op.revokes == Some(e.user) && Acts(book, op))
    || (op.LogoutOp? && op.client == c && op.session == e.epoch && op.user == e.user
        && (op.request > e.watermark || op.request == EXPIRED_SESSION_REQUEST_ID))
    || (op.ExpireOp? && op.client == c && op.session == e.epoch && op.user == e.user)
  }

  /** The op removes the entry: it names the epoch and the op the session ended at. */
  predicate Removes(op: LogOp, c: nat, e: Entry) {
    && op.FinalizeOp? && op.revisionCurrent && op.identity.client == c
    && op.identity.session == e.epoch && e.endedOp == Some(op.identity.metadataWatermark)
  }

  /** A session ends at the op that ends it and at no other; it leaves only once ended, by its exact identity. */
  lemma EndsAndLeavesIff(book: Book, capacity: nat, n: nat, op: LogOp, c: nat)
    requires Seeded(book) && c in book && ApplyOp(book, capacity, n, op).Some?
    ensures var after := ApplyOp(book, capacity, n, op).value;
      && (c !in after <==> Removes(op, c, book[c]))
      && (c in after ==>
            after[c].endedOp == if book[c].endedOp.None? && Ends(book, op, c) then Some(n) else book[c].endedOp)
  {
    hide Receipted, Seeded;
    if op.Stamped() && op.client in book {
      SeededRing(book, op.client);
      ReceiptedNonEmpty(book[op.client], ReplyTo(n, op));
      ReceiptedNonEmpty(Ended(book[op.client], n), ReplyTo(n, op));
    }
  }

  /** A client enters the table only by its own active registration, as a fresh session of that op. */
  lemma OpensIff(book: Book, capacity: nat, n: nat, op: LogOp, c: nat)
    requires Seeded(book) && c !in book && ApplyOp(book, capacity, n, op).Some?
    ensures var after := ApplyOp(book, capacity, n, op).value;
      && (c in after <==> op.RegisterOp? && op.client == c && op.active)
      && (c in after ==>
            && after[c].client == c && after[c].user == op.user && after[c].verifier == op.verifier
            && after[c].epoch == n && after[c].endedOp.None? && after[c].attachment.None?
            && after[c].watermark == 0 && after[c].ring == [RegisterReply(n, op)] && |book| < capacity)
  {
    hide Receipted, Seeded;
  }

  /** Why a replica would stop at an op: its registration or its receipt cannot be taken. */
  ghost predicate Refuses(book: Book, capacity: nat, n: nat, op: LogOp) {
    match op
    case RegisterOp(client, user, verifier, active, _) =>
      active && (|| client == RESERVED_CLIENT_ID || n == 0
                 || (client in book && (book[client].user != user || book[client].verifier != verifier || book[client].endedOp.Some?))
                 || (client !in book && |book| >= capacity))
    case RequestOp(client, _, request, _, user, _, _) =>
      client != RESERVED_CLIENT_ID &&
        (client !in book || book[client].user != user || n < book[client].latestCommit || request < book[client].watermark)
    case LogoutOp(client, _, _, _, _) =>
      client in book && book[client].endedOp.None? && Ends(book, op, client)
      && (client == RESERVED_CLIENT_ID || n < book[client].latestCommit || op.request < book[client].watermark)
    case ExpireOp(client, _, _, _) =>
      client in book && book[client].endedOp.None? && Ends(book, op, client)
      && (client == RESERVED_CLIENT_ID || n < book[client].latestCommit || EXPIRED_SESSION_REQUEST_ID < book[client].watermark)
    case _ => false
  }

  lemma RefusedIff(book: Book, capacity: nat, n: nat, op: LogOp)
    requires Seeded(book)
    ensures ApplyOp(book, capacity, n, op).None? <==> Refuses(book, capacity, n, op)
  {
    hide Receipted;
    if op.Stamped() && op.client in book {
      ReceiptedNonEmpty(book[op.client], ReplyTo(n, op));
      ReceiptedNonEmpty(Ended(book[op.client], n), ReplyTo(n, op));
    }
  }

  // ----- Whole logs -----

  /** The session is gone, superseded, or ended exactly at op `n`. */
  ghost predicate OverSince(book: Book, c: nat, e: nat, n: nat) {
    c in book ==> book[c].epoch > e || (book[c].epoch == e && book[c].endedOp == Some(n))
  }

  /** After an account change, no later table of the log has a session of that user from before it still live. */
  lemma {:induction false} RevokedInLog(log: seq<LogOp>, capacity: nat, n: nat, m: nat, c: nat)
    requires 0 < n <= m <= |log| && log[n - 1].RequestOp? && BookAt(log, capacity, n - 1).Some? && BookAt(log, capacity, m).Some?
    requires var before := BookAt(log, capacity, n - 1).value;
      c in before && before[c].endedOp.None? && log[n - 1].revokes == Some(before[c].user) && Acts(before, log[n - 1])
    ensures OverSince(BookAt(log, capacity, m).value, c, BookAt(log, capacity, n - 1).value[c].epoch, n)
  {
    hide ApplyOp, Seeded;
    var before := BookAt(log, capacity, n - 1).value;
    EpochsWithinLog(log, capacity, n - 1);
    BookAtBelow(log, capacity, m - 1, m);
    var last := BookAt(log, capacity, m - 1).value;
    if m == n {
      EndsAndLeavesIff(before, capacity, n, log[n - 1], c);
      ApplyKeepsIdentity(before, capacity, n, log[n - 1], c);
    } else {
      RevokedInLog(log, capacity, n, m - 1, c);
      ApplyKeepsIdentity(last, capacity, m, log[m - 1], c);
    }
  }

  // ----- Runs of one table -----

  /**
   * Once an account change is applied, every session of that user that was live is ended at that very
   * op and shut out for good, whatever happens to the table afterwards.
   */
  lemma RevocationIsFinal(t: Table, op: LogOp, steps: seq<Step>, c: nat)
    requires Sound(t) && Seeded(t.book) && op.RequestOp? && After(t, Applied(op)).applied == t.applied + 1
    requires c in t.book && t.book[c].endedOp.None? && op.revokes == Some(t.book[c].user) && Acts(t.book, op)
    ensures Sound(After(t, Applied(op)))
    ensures var u := Run(After(t, Applied(op)), steps);
      OverSince(u.book, c, t.book[c].epoch, t.applied + 1) && ShutOut(u, c, t.book[c].epoch)
  {
    hide Run, ApplyOp, Seeded, ShutOut, BindSession;
    AfterKeepsSound(t, Applied(op));
    var u := After(t, Applied(op));
    var e := t.book[c].epoch;
    EndsAndLeavesIff(t.book, t.capacity, t.applied + 1, op, c);
    ApplyKeepsIdentity(t.book, t.capacity, t.applied + 1, op, c);
    assert c in u.book && u.book[c].endedOp == Some(t.applied + 1) && u.book[c].epoch == e;
    RunKeepsOutlives(u, steps, u.book[c], c);
    RunKeepsRetired(u, steps, c, e);
    RetiredIsShutOut(Run(u, steps), c, e);
  }

  /** The same op leaves every other user's sessions as open as they were, and does nothing once its own is over. */
  lemma RevocationSparesOthers(t: Table, op: LogOp, c: nat)
    requires Sound(t) && Seeded(t.book) && op.RequestOp? && c in t.book
    requires op.revokes != Some(t.book[c].user) || !Acts(t.book, op)
    ensures c in After(t, Applied(op)).book && After(t, Applied(op)).book[c].endedOp == t.book[c].endedOp
  {
    hide ApplyOp, Seeded;
    if ApplyOp(t.book, t.capacity, t.applied + 1, op).Some? {
      EndsAndLeavesIff(t.book, t.capacity, t.applied + 1, op, c);
    }
  }

  /** Over any step, an entry leaves exactly when an op finalizes its ended session by its exact identity. */
  lemma LeavesIff(t: Table, step: Step, c: nat)
    requires Sound(t) && Seeded(t.book) && c in t.book
    ensures c !in After(t, step).book <==> step.Applied? && Removes(step.op, c, t.book[c])
  {
    hide ApplyOp, Seeded, Attach, BindSession, Recovered;
    match step
    case Applied(op) =>
      FinalizeApplies(t.book, t.capacity, t.applied + 1, op);
      if ApplyOp(t.book, t.capacity, t.applied + 1, op).Some? {
        EndsAndLeavesIff(t.book, t.capacity, t.applied + 1, op, c);
      }
    case Attached(client, session, user) => AttachFrame(t, client, session, user);
    case Bound(client, session, derive) =>
      var bound := BindSession(t.book, client, session, derive);
      if bound.Ok? {
        AttachFrame(t, client, bound.value.1, bound.value.0);
      }
    case Reloaded(depth) =>
      if 0 < depth {
        assert Recovered(t.book, depth).Keys == t.book.Keys by { RecoveredKeys(t.book, depth); }
      }
  }

  lemma FinalizeApplies(book: Book, capacity: nat, n: nat, op: LogOp)
    requires Seeded(book)
    ensures op.FinalizeOp? ==> ApplyOp(book, capacity, n, op).Some?
  {
  }

  lemma RecoveredKeys(book: Book, depth: nat)
    requires 0 < depth
    ensures Recovered(book, depth).Keys == book.Keys
  {
  }
}
