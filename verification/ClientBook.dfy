/**
 * The client table as the map it implements: each operation as a function from the
 * registered clients before to the registered clients after.
 */
module ClientBook {
  import opened Common
  import opened ClientEntry

  type Book = map<nat, Entry>

  datatype TableError =
    | InvalidReply
    | InvalidWatermark(client: nat)
    | TooManyEntries(count: nat, max: nat)
    | InvalidCapacity(capacity: nat)
    | EmptyRing
    | DuplicateClientId(slot: nat, client: nat)
    | Truncated
    | BadMagic
    | ChecksumMismatch(expected: nat, actual: nat)
    | RingTooLong(slot: nat, len: nat)

  datatype BindError = TransientNotAccepted | Unauthenticated | InvalidSession(session: nat)

  datatype RequestStatus =
    | New
    | Duplicate(reply: CachedReply)
    | AlreadyApplied(request: nat, watermark: nat)
    | OperationMismatch(request: nat)
    | NoSession
    | Fenced(current: nat, received: nat)
    | EpochAhead(current: nat, received: nat)

  datatype CommitOutcome =
    | Cached
    | SessionEnded(endedOp: nat)
    | NoEntry
    | SkippedRegression(stored: nat, received: nat)

  datatype SessionIdentity = SessionIdentity(client: nat, session: nat, metadataWatermark: nat)

  /** A weak handle to one authenticated session, named by the token the entry holds. */
  datatype Attachment = Attachment(token: nat, user: nat)

  // ----- Admission -----

  function CheckEntry(e: Entry, epoch: nat, request: nat, operation: Operation): RequestStatus {
    Verdict(e.endedOp.Some?, e.epoch, e.watermark, FindCached(e.ring, request), epoch, request, operation)
  }

  /** The verdict from the entry's fence, its watermark and the reply cached for the request. */
  function Verdict(ended: bool, current: nat, watermark: nat, cached: Option<CachedReply>, epoch: nat, request: nat, operation: Operation): RequestStatus {
    if ended then
      if epoch == current && cached.Some? && cached.value.header.operation.Logout? then
        if cached.value.header.operation.RequestOperation() == operation.RequestOperation()
        then Duplicate(cached.value) else OperationMismatch(request)
      else NoSession
    else if epoch < current then Fenced(current, epoch)
    else if epoch > current then EpochAhead(current, epoch)
    else if request > watermark then New
    else if cached.None? then AlreadyApplied(request, watermark)
    else if cached.value.header.operation.RequestOperation() != operation.RequestOperation() then OperationMismatch(request)
    else Duplicate(cached.value)
  }

  function CheckRequest(book: Book, client: nat, epoch: nat, request: nat, operation: Operation): RequestStatus {
    if client in book then CheckEntry(book[client], epoch, request, operation) else NoSession
  }

  /** The verdict of a plane that mints no epochs: a live entry takes any epoch for its own. */
  function CheckUnfenced(book: Book, client: nat, epoch: nat, request: nat, operation: Operation): (status: RequestStatus)
    ensures !status.Fenced? && !status.EpochAhead?
    ensures client in book && (book[client].endedOp.Some? || book[client].epoch == epoch) ==>
      status == CheckRequest(book, client, epoch, request, operation)
  {
    if client !in book then NoSession
    else if book[client].endedOp.Some? then CheckEntry(book[client], epoch, request, operation)
    else CheckEntry(book[client], book[client].epoch, request, operation)
  }

  /** `Some(epoch)` for a matching live registration, an error for a conflicting one. */
  function RegisteredSession(book: Book, client: nat, user: nat, verifier: seq<Byte>): Result<Option<nat>, BindError> {
    if client !in book then Ok(None)
    else
      var e := book[client];
      if e.user != user || e.endedOp.Some? || e.verifier != verifier then Err(Unauthenticated) else Ok(Some(e.epoch))
  }

  // ----- Registration -----

  predicate RegisterReplyOk(client: nat, reply: CachedReply) {
    && client != RESERVED_CLIENT_ID && client == reply.header.client && reply.header.commit != 0
    && reply.header.request == REGISTER_REQUEST_ID && reply.header.operation.Register?
  }

  function Registration(client: nat, user: nat, verifier: seq<Byte>, reply: CachedReply): Entry {
    Entry(verifier, None, reply.header.commit, None, user, REGISTER_REQUEST_ID, 0, [reply], client, reply.header.commit)
  }

  function CommitRegister(book: Book, capacity: nat, client: nat, user: nat, verifier: seq<Byte>, reply: CachedReply): Result<Book, TableError> {
    if !RegisterReplyOk(client, reply) then Err(InvalidReply)
    else if client in book then
      if book[client].user == user && book[client].verifier == verifier && book[client].endedOp.None?
      then Ok(book) else Err(InvalidWatermark(client))
    else if |book| >= capacity then Err(TooManyEntries(|book| + 1, capacity))
    else Ok(book[client := Registration(client, user, verifier, reply)])
  }

  // ----- Receipts -----

  /** The ring with the watermark's reply replaced, where it is cached. */
  function Replaced(ring: seq<CachedReply>, reply: CachedReply): seq<CachedReply> {
    if ring == [] then []
    else if ring[0].header.request == reply.header.request then [reply] + ring[1..]
    else [ring[0]] + Replaced(ring[1..], reply)
  }

  function Pushed(e: Entry, reply: CachedReply): Entry {
    e.(ring := Trim(e.ring + [reply]), latestCommit := reply.header.commit)
  }

  function Receipted(e: Entry, reply: CachedReply): Entry
    requires e.ring != []
  {
    if reply.header.request == e.watermark then
      if Caches(e.ring, reply.header.request) then
        var ring := Replaced(e.ring, reply);
        ReplacedLength(e.ring, reply);
        e.(ring := ring, latestCommit := ring[|ring| - 1].header.commit)
      else Pushed(e, reply)
    else Pushed(e, reply).(watermark := reply.header.request)
  }

  lemma {:induction false} ReplacedLength(ring: seq<CachedReply>, reply: CachedReply)
    ensures |Replaced(ring, reply)| == |ring|
  {
    if ring != [] {
      ReplacedLength(ring[1..], reply);
    }
  }

  function ReceiptOutcome(e: Entry, user: nat, h: ReplyHeader): CommitOutcome {
    if e.user != user then NoEntry
    else if h.commit < e.latestCommit then SkippedRegression(e.latestCommit, h.commit)
    else if h.request < e.watermark then SkippedRegression(e.watermark, h.request)
    else if e.endedOp.Some? && h.commit > e.endedOp.value then SessionEnded(e.endedOp.value)
    else Cached
  }

  function CommitOutcomeOf(book: Book, client: nat, user: nat, h: ReplyHeader): CommitOutcome {
    if client == RESERVED_CLIENT_ID || client !in book then NoEntry else ReceiptOutcome(book[client], user, h)
  }

  /** Every entry caches at least its latest reply. */
  ghost predicate Seeded(book: Book) {
    forall c :: c in book ==> book[c].ring != []
  }

  function CommitReply(book: Book, client: nat, user: nat, reply: CachedReply): Book
    requires Seeded(book)
  {
    if CommitOutcomeOf(book, client, user, reply.header).Cached?
    then book[client := Receipted(book[client], reply)] else book
  }

  // ----- Ending sessions -----

  function Ended(e: Entry, endedOp: nat): Entry {
    e.(endedOp := Some(endedOp), attachment := None)
  }

  predicate MayEnd(book: Book, client: nat, user: nat, session: nat) {
    client in book && book[client].user == user && book[client].epoch == session && book[client].endedOp.None?
  }

  function EndSession(book: Book, client: nat, user: nat, session: nat, endedOp: nat): Book {
    if MayEnd(book, client, user, session) then book[client := Ended(book[client], endedOp)] else book
  }

  function EndUserSessions(book: Book, user: nat, endedOp: nat): Book {
    map c | c in book :: if book[c].user == user && book[c].endedOp.None? then Ended(book[c], endedOp) else book[c]
  }

  predicate MayLogout(book: Book, client: nat, user: nat, session: nat, request: nat) {
    MayEnd(book, client, user, session) && (request > book[client].watermark || request == EXPIRED_SESSION_REQUEST_ID)
  }

  /** `Ok((book, ended))`: the Logout reply is retained before its session ends. */
  function CommitLogout(book: Book, client: nat, user: nat, session: nat, reply: CachedReply): Result<(Book, bool), TableError>
    requires Seeded(book)
  {
    if !MayLogout(book, client, user, session, reply.header.request) then Ok((book, false))
    else if !CommitOutcomeOf(book, client, user, reply.header).Cached? then Err(InvalidWatermark(client))
    else
      var kept := CommitReply(book, client, user, reply);
      Ok((EndSession(kept, client, user, session, reply.header.commit), MayEnd(kept, client, user, session)))
  }

  predicate MayForget(book: Book, client: nat, session: nat) {
    client in book && book[client].epoch == session
  }

  function ForgetSession(book: Book, client: nat, session: nat): Book {
    if MayForget(book, client, session) then book - {client} else book
  }

  /** The identity names a session that ended at exactly that op. */
  predicate MayFinalize(book: Book, identity: SessionIdentity) {
    && identity.client in book
    && book[identity.client].epoch == identity.session
    && book[identity.client].endedOp == Some(identity.metadataWatermark)
  }

  function FinalizeSession(book: Book, identity: SessionIdentity): Book {
    if MayFinalize(book, identity) then ForgetSession(book, identity.client, identity.session) else book
  }

  // ----- Attaching -----

  predicate MayAttach(book: Book, client: nat, session: nat, user: nat) {
    && client in book && book[client].epoch == session && book[client].user == user
    && session != 0 && book[client].endedOp.None?
  }

  /** The entry's token, `token` on first use. */
  function AttachSession(book: Book, client: nat, session: nat, user: nat, token: nat): Book {
    if MayAttach(book, client, session, user) && book[client].attachment.None?
    then book[client := book[client].(attachment := Some(token))] else book
  }

  /**
   * The principal, epoch and attachment for a binding credential; a zero session asks for
   * whatever epoch the registration has. `derive` turns the secret into a verifier.
   */
  function BindSession(book: Book, client: nat, session: nat, derive: (nat, nat) -> seq<Byte>): (r: Result<(nat, nat), BindError>)
    ensures r.Ok? <==>
      && client in book && book[client].endedOp.None? && book[client].epoch != 0
      && book[client].verifier == derive(client, book[client].user) && session in {0, book[client].epoch}
    ensures r.Ok? ==> r.value == (book[client].user, book[client].epoch)
    ensures r.Err? && r.error.TransientNotAccepted? <==> client !in book && session == 0
  {
    if client !in book then Err(if session == 0 then TransientNotAccepted else Unauthenticated)
    else
      var user := book[client].user;
      match RegisteredSession(book, client, user, derive(client, user))
      case Err(_) => Err(Unauthenticated)
      case Ok(None) => Err(Unauthenticated)
      case Ok(Some(epoch)) =>
        if session != 0 && session != epoch then Err(InvalidSession(session))
        else if !MayAttach(book, client, epoch, user) then Err(Unauthenticated)
        else Ok((user, epoch))
  }

  /** A handle is valid while some entry still holds its token. */
  predicate AttachmentValid(book: Book, a: Attachment) {
    exists c :: c in book && book[c].attachment == Some(a.token)
  }

  // ----- Recovery -----

  /** A recovered entry keeps its protection and its newest replies, up to `depth` of them. */
  function RecoveredEntry(e: Entry, depth: nat): Entry
    requires 0 < depth
  {
    e.(attachment := None, window := 0, ring := if |e.ring| <= depth then e.ring else e.ring[|e.ring| - depth..])
  }

  function Recovered(book: Book, depth: nat): Book
    requires 0 < depth
  {
    map c | c in book :: RecoveredEntry(book[c], depth)
  }
}
