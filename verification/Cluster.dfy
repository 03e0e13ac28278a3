/**
 * The metadata plane of a whole cluster: a primary admits requests into the log, replicas
 * learn commits and apply them in order, tables are recovered and transferred, and view
 * changes hand an inherited, possibly truncated log to a primary that may lag behind.
 */
module Cluster {
  import opened Common
  import opened ClientEntry
  import opened ClientBook
  import opened MetadataLog
  import opened AtMostOnce
  import opened Protection
  import opened Preflight

  /** A replica's applied frontier and table, what it knows committed, and its last checkpoint. */
  datatype Replica = Replica(applied: nat, known: nat, book: Book, savedApplied: nat, savedBook: Book)

  /** A client request as it arrives, before the primary stamps the acting user. */
  datatype Arrival =
    | AskRequest(client: nat, session: nat, request: nat, operation: Operation, revokes: Option<nat>, body: seq<Byte>)
    | AskRegister(client: nat, user: nat, verifier: seq<Byte>, active: bool, hasCapacity: bool, body: seq<Byte>)

  datatype State = State(
    log: seq<LogOp>, committed: nat, replicas: seq<Replica>, primary: nat, parked: seq<Arrival>, capacity: nat)

  /** The consensus flags admission reads, and the oldest op the prepare queue still shows. */
  datatype Flags = Flags(isPrimary: bool, hasCeded: bool, isNormal: bool, isTransferring: bool, barrier: nat, shownFrom: nat)

  datatype Event =
    | Arrive(arrival: Arrival, flags: Flags, queueFull: bool)
    /** An in-process registration waits behind a closed catch-up gate. */
    | Wait(arrival: Arrival)
    | Promote(flags: Flags)
    | LogOut(client: nat, session: nat, request: nat, body: seq<Byte>, flags: Flags, queueFull: bool)
    | Expire(client: nat, session: nat, body: seq<Byte>, flags: Flags)
    | Internal(op: LogOp)
    | Commit
    | Learn(replica: nat, known: nat)
    | Apply(replica: nat)
    | Checkpoint(replica: nat, depth: nat)
    | Restart(replica: nat)
    | Transfer(replica: nat, donor: nat, depth: nat)
    | ViewChange(primary: nat, keep: nat)

  /** The entries agree on everything admission and later ops depend on; the first may cache fewer replies. */
  ghost predicate SameEntry(a: Entry, b: Entry) {
    && Topped(a) && Topped(b) && TailOf(a.ring, b.ring)
    && a.verifier == b.verifier && a.endedOp == b.endedOp && a.epoch == b.epoch && a.user == b.user
    && a.watermark == b.watermark && a.client == b.client && a.latestCommit == b.latestCommit
  }

  ghost predicate SameBook(a: Book, b: Book) {
    a.Keys == b.Keys && forall c :: c in a ==> SameEntry(a[c], b[c])
  }

  // ----- Steps -----

  function PendingOf(op: LogOp): Pending {
    match op
    case RegisterOp(client, _, _, _, _) => Pending(client, 0, 0, Register)
    case RequestOp(client, session, request, operation, _, _, _) => Pending(client, session, request, operation)
    case LogoutOp(client, session, request, _, _) => Pending(client, session, request, Logout)
    case ExpireOp(client, session, _, _) => Pending(client, session, EXPIRED_SESSION_REQUEST_ID, Logout)
    case FinalizeOp(_, _) => Pending(RESERVED_CLIENT_ID, 0, 0, OtherOperation(0))
    case ServerOp => Pending(RESERVED_CLIENT_ID, 0, 0, OtherOperation(0))
  }

  function ParkedOf(a: Arrival): Pending {
    match a
    case AskRequest(client, session, request, operation, _, _) => Pending(client, session, request, operation)
    case AskRegister(client, _, _, _, _, _) => Pending(client, 0, 0, Register)
  }

  function Shown(log: seq<LogOp>, from: nat): seq<Pending>
    requires from <= |log|
  {
    seq(|log| - from, i requires 0 <= i < |log| - from => PendingOf(log[from + i]))
  }

  function ParkedPendings(parked: seq<Arrival>): seq<Pending> {
    seq(|parked|, i requires 0 <= i < |parked| => ParkedOf(parked[i]))
  }

  /** The prepare queue shows every op the primary does not know committed, and maybe some it does. */
  function View(s: State, flags: Flags, parked: seq<Arrival>): Consensus
    requires s.primary < |s.replicas|
  {
    var r := s.replicas[s.primary];
    var from := Min(Min(flags.shownFrom, r.known), |s.log|);
    Consensus(flags.isPrimary, flags.hasCeded, flags.isNormal, flags.isTransferring,
              r.applied, r.known, flags.barrier, Shown(s.log, from), ParkedPendings(parked))
  }

  /** The op a request becomes: a logout ends its session, and only account changes revoke others. */
  function RequestedOp(client: nat, session: nat, request: nat, operation: Operation, user: nat, revokes: Option<nat>, body: seq<Byte>): LogOp {
    if operation.Logout? then LogoutOp(client, session, request, user, body)
    else RequestOp(client, session, request, operation, user,
                   if operation.UpdateUserResolved? || operation.DeleteUser? then revokes else None, body)
  }

  /** The op the primary prepares for an arrival its preflight dispatches. */
  function Prepared(s: State, flags: Flags, parked: seq<Arrival>, a: Arrival): Option<LogOp>
    requires s.primary < |s.replicas|
  {
    var book := s.replicas[s.primary].book;
    var view := View(s, flags, parked);
    match a
    case AskRequest(client, session, request, operation, revokes, body) =>
      if && client != RESERVED_CLIENT_ID && !operation.Register? && client in book
         && RequestPreflight(view, book, client, session, request, operation).Dispatch?
      then Some(RequestedOp(client, session, request, operation, book[client].user, revokes, body))
      else None
    case AskRegister(client, user, verifier, active, hasCapacity, body) =>
      if RegisterPreflight(view, book, client, user, false, Some(verifier), active, hasCapacity).Dispatch?
      then Some(RegisterOp(client, user, verifier, active, body)) else None
  }

  /** Admits an arrival into the log, parks it behind a full queue, or leaves the state alone. */
  function Admit(s: State, flags: Flags, parked: seq<Arrival>, a: Arrival, queueFull: bool): State
    requires s.primary < |s.replicas|
  {
    var op := Prepared(s, flags, parked, a);
    if op.None? then s.(parked := parked)
    else if queueFull then s.(parked := parked + [a])
    else s.(log := s.log + [op.value], parked := parked)
  }

  function Next(s: State, event: Event): State
    requires s.primary < |s.replicas|
    requires forall r :: 0 <= r < |s.replicas| ==> Seeded(s.replicas[r].book)
  {
    match event
    case Arrive(a, flags, queueFull) => Admit(s, flags, s.parked, a, queueFull)
    case Promote(flags) => if s.parked == [] then s else Admit(s, flags, s.parked[1..], s.parked[0], false)
    case Wait(a) => if a.AskRegister? then s.(parked := s.parked + [a]) else s
    case LogOut(client, session, request, body, flags, queueFull) =>
      var book := s.replicas[s.primary].book;
      var view := View(s, flags, s.parked);
      var from := Min(Min(flags.shownFrom, view.commitMax), |s.log|);
      if client == RESERVED_CLIENT_ID || client !in book || !MayLogOut(view, from + 1, book, client, session, request) then s
      else if queueFull then s.(parked := s.parked + [AskRequest(client, session, request, Logout, None, body)])
      else s.(log := s.log + [LogoutOp(client, session, request, book[client].user, body)])
    case Expire(client, session, body, flags) =>
      var book := s.replicas[s.primary].book;
      if client != RESERVED_CLIENT_ID && client in book && MayExpire(View(s, flags, s.parked), book, client, session)
      then s.(log := s.log + [ExpireOp(client, session, book[client].user, body)]) else s
    case Internal(op) => if op.FinalizeOp? || op.ServerOp? then s.(log := s.log + [op]) else s
    case Commit => if s.committed < |s.log| then s.(committed := s.committed + 1) else s
    case Learn(i, known) =>
      if i < |s.replicas| && s.replicas[i].known <= known <= s.committed
      then s.(replicas := s.replicas[i := s.replicas[i].(known := known)]) else s
    case Apply(i) =>
      if i < |s.replicas| && s.replicas[i].applied < s.replicas[i].known && s.replicas[i].applied < |s.log| then
        var r := s.replicas[i];
        var book := ApplyOp(r.book, s.capacity, r.applied + 1, s.log[r.applied]);
        if book.Some? then s.(replicas := s.replicas[i := r.(applied := r.applied + 1, book := book.value)]) else s
      else s
    case Checkpoint(i, depth) =>
      if i < |s.replicas| && 0 < depth then
        var r := s.replicas[i];
        s.(replicas := s.replicas[i := r.(savedApplied := r.applied, savedBook := Recovered(r.book, depth))])
      else s
    case Restart(i) =>
      if i < |s.replicas| then
        var r := s.replicas[i];
        s.(replicas := s.replicas[i := r.(applied := r.savedApplied, known := r.savedApplied, book := r.savedBook)])
      else s
    case Transfer(i, donor, depth) =>
      if i < |s.replicas| && donor < |s.replicas| && 0 < depth && s.replicas[i].applied <= s.replicas[donor].applied then
        var r, d := s.replicas[i], s.replicas[donor];
        s.(replicas := s.replicas[i := r.(applied := d.applied, known := Max(r.known, d.applied), book := Recovered(d.book, depth))])
      else s
    case ViewChange(primary, keep) =>
      if primary < |s.replicas| && s.committed <= keep <= |s.log|
      then s.(log := s.log[..keep], primary := primary, parked := []) else s
  }

  // ----- The invariant -----

  /** The table is what the log's first `n` ops make of it, up to how many replies it still caches. */
  ghost predicate Reflects(book: Book, log: seq<LogOp>, capacity: nat, n: nat) {
    && n <= |log| && BookAt(log, capacity, n).Some? && SameBook(book, BookAt(log, capacity, n).value)
    && Protected(book, log, n)
  }

  ghost predicate ReplicaOk(s: State, r: Replica) {
    && r.savedApplied <= r.applied <= r.known <= s.committed <= |s.log|
    && Reflects(r.book, s.log, s.capacity, r.applied) && Reflects(r.savedBook, s.log, s.capacity, r.savedApplied)
  }

  ghost predicate Inv(s: State) {
    && s.primary < |s.replicas| && s.committed <= |s.log|
    && (forall i :: 0 <= i < |s.replicas| ==> ReplicaOk(s, s.replicas[i]))
    && Disciplined(s.log, s.capacity) && forall i :: 0 <= i < |s.log| ==> Proper(s.log[i])
  }

  lemma InvSeeded(s: State)
    requires Inv(s)
    ensures s.primary < |s.replicas| && forall r :: 0 <= r < |s.replicas| ==> Seeded(s.replicas[r].book)
  {
    hide BookAt, Disciplined, Protected;
    forall r | 0 <= r < |s.replicas| ensures Seeded(s.replicas[r].book) {
      assert ReplicaOk(s, s.replicas[r]);
    }
  }

  // ----- Tables that agree stay in agreement -----

  lemma RecoveredTopped(e: Entry, depth: nat)
    requires Topped(e) && 0 < depth
    ensures Topped(RecoveredEntry(e, depth)) && TailOf(RecoveredEntry(e, depth).ring, e.ring)
  {
    var lo := RecoveredRing(e, depth);
  }

  lemma TailOfTail(a: seq<CachedReply>, b: seq<CachedReply>, c: seq<CachedReply>)
    requires TailOf(a, b) && TailOf(b, c)
    ensures TailOf(a, c)
  {
    assert c[|c| - |b|..][|b| - |a|..] == c[|c| - |a|..];
  }

  lemma RecoveredEntrySame(e: Entry, other: Entry, depth: nat)
    requires SameEntry(e, other) && 0 < depth
    ensures SameEntry(RecoveredEntry(e, depth), other)
  {
    RecoveredTopped(e, depth);
    TailOfTail(RecoveredEntry(e, depth).ring, e.ring, other.ring);
    hide Topped, TailOf;
  }

  lemma RecoveredSame(book: Book, other: Book, depth: nat)
    requires SameBook(book, other) && 0 < depth
    ensures SameBook(Recovered(book, depth), other)
  {
    hide SameEntry, RecoveredEntry;
    forall c | c in book ensures SameEntry(RecoveredEntry(book[c], depth), other[c]) {
      RecoveredEntrySame(book[c], other[c], depth);
    }
  }

  lemma ReceiptedSame(a: Entry, b: Entry, reply: CachedReply)
    requires SameEntry(a, b) && reply.header.request >= a.watermark
    ensures SameEntry(Receipted(a, reply), Receipted(b, reply))
  {
    ReceiptedTopped(a, reply);
    ReceiptedTopped(b, reply);
    ReceiptedNonEmpty(a, reply);
    ReceiptedNonEmpty(b, reply);
    ReceiptKeepsTail(a, b, reply);
    hide Receipted, Topped, TailOf;
  }

  lemma EndedSame(a: Entry, b: Entry, at: nat)
    requires SameEntry(a, b)
    ensures SameEntry(Ended(a, at), Ended(b, at))
  {
  }

  lemma CommitReplySame(a: Book, b: Book, client: nat, user: nat, reply: CachedReply)
    requires SameBook(a, b) && Seeded(a) && Seeded(b)
    ensures CommitOutcomeOf(a, client, user, reply.header) == CommitOutcomeOf(b, client, user, reply.header)
    ensures SameBook(CommitReply(a, client, user, reply), CommitReply(b, client, user, reply))
  {
    hide Receipted, Topped;
    if CommitOutcomeOf(a, client, user, reply.header).Cached? {
      ReceiptedSame(a[client], b[client], reply);
    }
  }

  lemma EndUserSame(a: Book, b: Book, user: nat, at: nat)
    requires SameBook(a, b)
    ensures SameBook(EndUserSessions(a, user, at), EndUserSessions(b, user, at))
  {
    hide Topped, Ended;
    forall c | c in a ensures SameEntry(Ended(a[c], at), Ended(b[c], at)) {
      EndedSame(a[c], b[c], at);
    }
  }

  lemma LogoutSame(a: Book, b: Book, client: nat, user: nat, session: nat, reply: CachedReply)
    requires SameBook(a, b) && Seeded(a) && Seeded(b)
    ensures var x, y := CommitLogout(a, client, user, session, reply), CommitLogout(b, client, user, session, reply);
            x.Ok? == y.Ok? && (x.Ok? ==> SameBook(x.value.0, y.value.0))
  {
    hide Receipted, Topped, Ended, CommitReply, CommitOutcomeOf;
    CommitReplySame(a, b, client, user, reply);
    if MayLogout(a, client, user, session, reply.header.request) {
      var x, y := CommitReply(a, client, user, reply), CommitReply(b, client, user, reply);
      if client in x {
        EndedSame(x[client], y[client], reply.header.commit);
      }
    }
  }

  lemma SameSeeded(a: Book, b: Book)
    requires SameBook(a, b)
    ensures Seeded(a) && Seeded(b) && |a| == |b|
  {
    assert |a| == |a.Keys| && |b| == |b.Keys|;
  }

  lemma RegisterSame(a: Book, b: Book, capacity: nat, client: nat, user: nat, verifier: seq<Byte>, reply: CachedReply)
    requires SameBook(a, b)
    ensures var x, y := CommitRegister(a, capacity, client, user, verifier, reply), CommitRegister(b, capacity, client, user, verifier, reply);
            x.Ok? == y.Ok? && (x.Ok? ==> SameBook(x.value, y.value))
  {
    hide Seeded, TailOf, Topped, RegisterReplyOk;
    SameSeeded(a, b);
    FreshSame(client, user, verifier, reply);
  }

  lemma FreshSame(client: nat, user: nat, verifier: seq<Byte>, reply: CachedReply)
    ensures RegisterReplyOk(client, reply) ==>
      SameEntry(Registration(client, user, verifier, reply), Registration(client, user, verifier, reply))
  {
  }

  lemma StaleSame(a: Book, b: Book, op: LogOp)
    requires SameBook(a, b) && op.RequestOp?
    ensures Stale(a, op) == Stale(b, op)
  {
    hide Topped, TailOf;
  }

  lemma RequestSame(a: Book, b: Book, capacity: nat, n: nat, op: LogOp)
    requires SameBook(a, b) && Seeded(a) && Seeded(b) && op.RequestOp?
    ensures ApplyOp(a, capacity, n, op).Some? == ApplyOp(b, capacity, n, op).Some?
    ensures ApplyOp(a, capacity, n, op).Some? ==>
      SameBook(ApplyOp(a, capacity, n, op).value, ApplyOp(b, capacity, n, op).value)
  {
    hide CommitReply, EndUserSessions, SameBook, CommitOutcomeOf, Seeded, Stale;
    StaleSame(a, b, op);
    if op.revokes.Some? {
      EndUserSame(a, b, op.revokes.value, n);
      SameSeeded(EndUserSessions(a, op.revokes.value, n), EndUserSessions(b, op.revokes.value, n));
    }
    CommitReplySame(Revoked(a, n, op), Revoked(b, n, op), op.client, op.user, ReplyTo(n, op));
  }

  lemma FinalizeSame(a: Book, b: Book, identity: SessionIdentity)
    requires SameBook(a, b)
    ensures SameBook(FinalizeSession(a, identity), FinalizeSession(b, identity))
  {
  }

  /** Replicas that agree apply an op alike, whatever replies each still caches. */
  lemma ApplySame(a: Book, b: Book, capacity: nat, n: nat, op: LogOp)
    requires SameBook(a, b) && Seeded(a) && Seeded(b)
    ensures ApplyOp(a, capacity, n, op).Some? == ApplyOp(b, capacity, n, op).Some?
    ensures ApplyOp(a, capacity, n, op).Some? ==>
      SameBook(ApplyOp(a, capacity, n, op).value, ApplyOp(b, capacity, n, op).value)
  {
    hide CommitReply, CommitLogout, CommitRegister, FinalizeSession, SameBook, Seeded;
    match op
    case RegisterOp(client, user, verifier, _, _) => RegisterSame(a, b, capacity, client, user, verifier, RegisterReply(n, op));
    case RequestOp(_, _, _, _, _, _, _) => RequestSame(a, b, capacity, n, op);
    case LogoutOp(client, session, _, user, _) => LogoutSame(a, b, client, user, session, ReplyTo(n, op));
    case ExpireOp(client, session, user, _) => LogoutSame(a, b, client, user, session, ReplyTo(n, op));
    case FinalizeOp(identity, _) => FinalizeSame(a, b, identity);
    case ServerOp =>
  }
}
