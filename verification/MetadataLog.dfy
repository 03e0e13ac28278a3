/**
 * Applying the committed metadata log to the client table, op by op.
 *
 * Op `n` is the entry at index `n - 1`. A reply's bytes come with the op because every
 * replica builds them from the prepare alone.
 */
module MetadataLog {
  import opened Common
  import opened ClientEntry
  import opened ClientBook

  datatype LogOp =
    | RegisterOp(client: nat, user: nat, verifier: seq<Byte>, active: bool, body: seq<Byte>)
    | RequestOp(client: nat, session: nat, request: nat, operation: Operation, user: nat, revokes: Option<nat>, body: seq<Byte>)
    | LogoutOp(client: nat, session: nat, request: nat, user: nat, body: seq<Byte>)
    /** A lease expiry, logged by the server under its own request number. */
    | ExpireOp(client: nat, session: nat, user: nat, body: seq<Byte>)
    | FinalizeOp(identity: SessionIdentity, revisionCurrent: bool)
    | ServerOp
  {
    /** The op was prepared for this client. */
    predicate From(c: nat) {
      (RegisterOp? || RequestOp? || LogoutOp? || ExpireOp?) && client == c
    }

    /** The op runs under a session. */
    predicate Stamped() {
      RequestOp? || LogoutOp? || ExpireOp?
    }

    function RequestNumber(): nat
      requires Stamped()
    {
      if ExpireOp? then EXPIRED_SESSION_REQUEST_ID else request
    }

    function ReplyOperation(): Operation
      requires Stamped()
    {
      if RequestOp? then operation else Logout
    }
  }

  function RegisterReply(n: nat, op: LogOp): CachedReply
    requires op.RegisterOp?
  {
    CachedReply(ReplyHeader(op.client, REGISTER_REQUEST_ID, n, Register, |op.body|), op.body)
  }

  function ReplyTo(n: nat, op: LogOp): CachedReply
    requires op.Stamped()
  {
    CachedReply(ReplyHeader(op.client, op.RequestNumber(), n, op.ReplyOperation(), |op.body|), op.body)
  }

  /** The op's own session ended or was superseded between its admission and its commit, so it takes no effect. */
  predicate Stale(book: Book, op: LogOp)
    requires op.RequestOp?
  {
    op.session != 0 && !(op.client in book && book[op.client].endedOp.None? && book[op.client].epoch == op.session)
  }

  /** Sessions the op revokes end at the op itself, before its own reply is retained. */
  function Revoked(book: Book, n: nat, op: LogOp): Book
    requires op.RequestOp?
  {
    if op.revokes.Some? && !Stale(book, op) then EndUserSessions(book, op.revokes.value, n) else book
  }

  /** The table after op `n`; `None` where the replica refuses to go on. */
  function ApplyOp(book: Book, capacity: nat, n: nat, op: LogOp): Option<Book>
    requires Seeded(book)
  {
    match op
    case RegisterOp(client, user, verifier, active, _) =>
      if !active then Some(book)
      else
        var r := CommitRegister(book, capacity, client, user, verifier, RegisterReply(n, op));
        if r.Ok? then Some(r.value) else None
    case RequestOp(client, _, _, _, user, _, _) =>
      var before := Revoked(book, n, op);
      var reply := ReplyTo(n, op);
      var outcome := CommitOutcomeOf(before, client, user, reply.header);
      if client == RESERVED_CLIENT_ID then Some(before)
      else if outcome.NoEntry? || outcome.SkippedRegression? then None
      else Some(CommitReply(before, client, user, reply))
    case LogoutOp(client, session, _, user, _) =>
      var r := CommitLogout(book, client, user, session, ReplyTo(n, op));
      if r.Ok? then Some(r.value.0) else None
    case ExpireOp(client, session, user, _) =>
      var r := CommitLogout(book, client, user, session, ReplyTo(n, op));
      if r.Ok? then Some(r.value.0) else None
    case FinalizeOp(identity, current) => Some(if current then FinalizeSession(book, identity) else book)
    case ServerOp => Some(book)
  }

  // ----- The table never forgets its latest replies -----

  lemma {:induction false} TrimNonEmpty(ring: seq<CachedReply>)
    requires ring != []
    ensures Trim(ring) != [] && Trim(ring)[|Trim(ring)| - 1] == ring[|ring| - 1]
  {
    if !Retainable(ring) {
      TrimNonEmpty(ring[1..]);
    }
  }

  lemma ReceiptedNonEmpty(e: Entry, reply: CachedReply)
    requires e.ring != []
    ensures Receipted(e, reply).ring != []
    ensures Receipted(e, reply).epoch == e.epoch && Receipted(e, reply).endedOp == e.endedOp
    ensures Receipted(e, reply).user == e.user && Receipted(e, reply).client == e.client
    ensures Receipted(e, reply).watermark == reply.header.request && Receipted(e, reply).verifier == e.verifier
  {
    ReplacedLength(e.ring, reply);
    TrimNonEmpty(e.ring + [reply]);
  }

  /** Applying an op keeps every entry seeded. */
  lemma ApplySeeded(book: Book, capacity: nat, n: nat, op: LogOp)
    requires Seeded(book)
    ensures ApplyOp(book, capacity, n, op).Some? ==> Seeded(ApplyOp(book, capacity, n, op).value)
  {
    hide Receipted, Trim;
    if op.Stamped() && op.client in book {
      ReceiptedNonEmpty(book[op.client], ReplyTo(n, op));
      if op.RequestOp? {
        ReceiptedNonEmpty(Ended(book[op.client], n), ReplyTo(n, op));
      }
    }
  }

  /** The table after the first `n` ops of a log. */
  function BookAt(log: seq<LogOp>, capacity: nat, n: nat): (book: Option<Book>)
    requires n <= |log|
    ensures book.Some? ==> Seeded(book.value)
  {
    if n == 0 then Some(map[])
    else
      var before := BookAt(log, capacity, n - 1);
      if before.None? then None
      else
        ApplySeeded(before.value, capacity, n, log[n - 1]);
        ApplyOp(before.value, capacity, n, log[n - 1])
  }

  /** Only the ops read matter. */
  lemma {:induction false} BookAtPrefix(log: seq<LogOp>, other: seq<LogOp>, capacity: nat, n: nat)
    requires n <= |log| && n <= |other| && log[..n] == other[..n]
    ensures BookAt(log, capacity, n) == BookAt(other, capacity, n)
  {
    hide ApplyOp;
    if n > 0 {
      assert log[n - 1] == log[..n][n - 1] == other[..n][n - 1] == other[n - 1];
      assert log[..n - 1] == log[..n][..n - 1] == other[..n][..n - 1] == other[..n - 1];
      BookAtPrefix(log, other, capacity, n - 1);
    }
  }
}
