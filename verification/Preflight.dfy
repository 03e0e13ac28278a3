/**
 * Admission on the metadata plane: what a primary decides about a request before it
 * may enter the log. Pure decisions over the replica's own state.
 */
module Preflight {
  import opened Common
  import opened ClientEntry
  import opened ClientBook

  /** A request in the prepare queue or parked behind it. */
  datatype Pending = Pending(client: nat, session: nat, request: nat, operation: Operation)

  /** What admission reads of the consensus state. */
  datatype Consensus = Consensus(
    isPrimary: bool, hasCeded: bool, isNormal: bool, isTransferring: bool,
    commitMin: nat, commitMax: nat, recoveryBarrier: nat,
    prepares: seq<Pending>, parked: seq<Pending>)

  datatype EvictionReason = EvictNoSession | EvictSessionTooLow
  datatype RejectCode = RejectTransientNotAccepted | RejectInvalidCommand | RejectRequestTooOld | RejectUnauthenticated

  datatype PreflightOutcome =
    | Dispatch
    | Replay(reply: CachedReply)
    | ReplayRegistration(epoch: nat)
    | Evict(reason: EvictionReason)
    | NotReady
    | Reject(code: RejectCode)

  predicate IsUncededNormalPrimary(c: Consensus) {
    c.isPrimary && !c.hasCeded && c.isNormal && !c.isTransferring
  }

  predicate IsSettledPrimary(c: Consensus) {
    IsUncededNormalPrimary(c) && c.commitMax >= c.recoveryBarrier
  }

  predicate IsCaughtUpPrimary(c: Consensus) {
    IsSettledPrimary(c) && c.commitMin == c.commitMax
  }

  predicate QueueHas(queue: seq<Pending>, client: nat) {
    exists i :: 0 <= i < |queue| && queue[i].client == client
  }

  predicate PipelineHas(c: Consensus, client: nat) {
    QueueHas(c.prepares, client) || QueueHas(c.parked, client)
  }

  function FirstOf(queue: seq<Pending>, client: nat): (p: Option<Pending>)
    ensures p.Some? <==> QueueHas(queue, client)
    ensures p.Some? ==>
      exists i :: 0 <= i < |queue| && queue[i] == p.value && p.value.client == client && forall j :: 0 <= j < i ==> queue[j].client != client
  {
    if queue == [] then None
    else if queue[0].client == client then Some(queue[0])
    else
      var rest := FirstOf(queue[1..], client);
      assert forall i :: 0 < i < |queue| ==> queue[i] == queue[1..][i - 1];
      assert rest.Some? ==>
        exists i :: 0 <= i < |queue| && queue[i] == rest.value && forall j :: 0 <= j < i ==> queue[j].client != client by {
        if rest.Some? {
          var i :| 0 <= i < |queue[1..]| && queue[1..][i] == rest.value && forall j :: 0 <= j < i ==> queue[1..][j].client != client;
          assert queue[i + 1] == rest.value;
        }
      }
      rest
  }

  /** The client's unresolved request: prepared first, then parked. */
  function PendingRequest(c: Consensus, client: nat): (p: Option<Pending>)
    ensures p.Some? <==> PipelineHas(c, client)
    ensures p.Some? ==> p.value.client == client && p.value in if QueueHas(c.prepares, client) then c.prepares else c.parked
  {
    var prepared := FirstOf(c.prepares, client);
    if prepared.Some? then prepared else FirstOf(c.parked, client)
  }

  function RequestPreflight(c: Consensus, book: Book, client: nat, session: nat, request: nat, operation: Operation)
    : (outcome: PreflightOutcome)
    requires client != RESERVED_CLIENT_ID
    ensures outcome.Dispatch? <==>
      && c.isPrimary && !c.hasCeded && c.isNormal && !c.isTransferring
      && c.commitMin == c.commitMax && c.commitMax >= c.recoveryBarrier
      && !PipelineHas(c, client) && CheckRequest(book, client, session, request, operation).New?
    ensures var pending, status := PendingRequest(c, client), CheckRequest(book, client, session, request, operation);
            var judged := pending.None? && IsCaughtUpPrimary(c);
            && (outcome.Replay? <==> judged && status.Duplicate?) && (outcome.Replay? ==> outcome.reply == status.reply)
            && (outcome.Evict? <==> judged && (status.NoSession? || status.Fenced?))
            && (outcome.Evict? ==> (outcome.reason.EvictNoSession? <==> status.NoSession?))
            && (outcome.NotReady? <==>
                  if pending.None? then !IsCaughtUpPrimary(c)
                  else pending.value.request == request && pending.value.session == session
                       && pending.value.operation.RequestOperation() == operation.RequestOperation())
            && (outcome == Reject(RejectTransientNotAccepted) <==> pending.Some? && pending.value.request != request)
            && (outcome == Reject(RejectRequestTooOld) <==> judged && status.AlreadyApplied?)
            && outcome != Reject(RejectUnauthenticated) && !outcome.ReplayRegistration?
  {
    var pending := PendingRequest(c, client);
    if pending.Some? then
      if pending.value.request != request then Reject(RejectTransientNotAccepted)
      else if pending.value.session != session
              || pending.value.operation.RequestOperation() != operation.RequestOperation()
      then Reject(RejectInvalidCommand)
      else NotReady
    else if !IsCaughtUpPrimary(c) then NotReady
    else
      match CheckRequest(book, client, session, request, operation)
      case Duplicate(reply) => Replay(reply)
      case NoSession => Evict(EvictNoSession)
      case Fenced(_, _) => Evict(EvictSessionTooLow)
      case EpochAhead(_, _) => Reject(RejectInvalidCommand)
      case OperationMismatch(_) => Reject(RejectInvalidCommand)
      case AlreadyApplied(_, _) => Reject(RejectRequestTooOld)
      case New => Dispatch
  }

  /**
   * Registration: an authenticated replay answers with the original epoch; a new client is
   * dispatched only when nothing of its is in flight. The body decoder, the account check and
   * the slot reservation are the caller's answers.
   */
  function RegisterPreflight(c: Consensus, book: Book, client: nat, user: nat, serverInternal: bool,
                             verifier: Option<seq<Byte>>, accountActive: bool, hasRetryCapacity: bool)
    : (outcome: PreflightOutcome)
    ensures outcome.Dispatch? <==>
      && c.isPrimary && !c.hasCeded && c.isNormal && !c.isTransferring
      && c.commitMin == c.commitMax && c.commitMax >= c.recoveryBarrier
      && client !in book && !PipelineHas(c, client)
      && !serverInternal && verifier.Some? && accountActive && hasRetryCapacity
    ensures outcome.ReplayRegistration? <==>
      && IsCaughtUpPrimary(c) && !serverInternal && verifier.Some? && accountActive
      && client in book && book[client].endedOp.None? && book[client].user == user && book[client].verifier == verifier.value
    ensures outcome.ReplayRegistration? ==> outcome.epoch == book[client].epoch
    ensures var open := IsCaughtUpPrimary(c) && !serverInternal;
            var mine := client in book && book[client].endedOp.None? && book[client].user == user
                        && verifier.Some? && book[client].verifier == verifier.value;
            && (outcome.NotReady? <==>
                  || (!serverInternal && !IsCaughtUpPrimary(c))
                  || (open && verifier.Some? && accountActive && client !in book && PipelineHas(c, client)))
            && (outcome == Reject(RejectInvalidCommand) <==> open && verifier.None?)
            && (outcome == Reject(RejectUnauthenticated) <==>
                  serverInternal || (open && verifier.Some? && (!accountActive || (client in book && !mine))))
            && !outcome.Replay? && !outcome.Evict? && outcome != Reject(RejectRequestTooOld)
  {
    if serverInternal then Reject(RejectUnauthenticated)
    else if !IsCaughtUpPrimary(c) then NotReady
    else if verifier.None? then Reject(RejectInvalidCommand)
    else if !accountActive then Reject(RejectUnauthenticated)
    else
      match RegisteredSession(book, client, user, verifier.value)
      case Ok(Some(epoch)) => ReplayRegistration(epoch)
      case Err(_) => Reject(RejectUnauthenticated)
      case Ok(None) =>
        if PipelineHas(c, client) then NotReady
        else if !hasRetryCapacity then Reject(RejectTransientNotAccepted)
        else Dispatch
  }

  /** Admission of a logout may run ahead of apply, but only past ops the pipeline still shows. */
  predicate MayLogOut(c: Consensus, oldestPrepare: nat, book: Book, client: nat, session: nat, request: nat) {
    && c.isPrimary && c.isNormal && !c.isTransferring && !c.hasCeded && c.commitMax >= c.recoveryBarrier
    && (c.commitMin == c.commitMax || oldestPrepare <= c.commitMin + 1)
    && !PipelineHas(c, client)
    && client in book && book[client].endedOp.None? && book[client].epoch == session
    && CheckRequest(book, client, session, request, Logout).New?
  }

  /** Admission of a lease expiry. */
  predicate MayExpire(c: Consensus, book: Book, client: nat, session: nat) {
    && IsCaughtUpPrimary(c) && !PipelineHas(c, client)
    && client in book && book[client].endedOp.None? && book[client].epoch == session
  }
}
