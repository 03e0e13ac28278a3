/**
 * The client table as the source keeps it: a slot array updated in place and an index into
 * it. Every operation is proved to act as its counterpart on the table's contents.
 */
module ClientTable {
  import opened Common
  import opened ClientEntry
  import opened ClientBook
  import opened Slots
  import opened Window
  import opened PartitionBook

  datatype Mode = Metadata | Partition {
    predicate PreallocateSlots() {
      Metadata?
    }

    predicate FenceEpoch() {
      Metadata?
    }
  }

  // ----- Entry updates -----

  lemma {:induction false} ReplacedAt(ring: seq<CachedReply>, reply: CachedReply, i: nat)
    requires i < |ring| && ring[i].header.request == reply.header.request
    requires forall j :: 0 <= j < i ==> ring[j].header.request != reply.header.request
    ensures Replaced(ring, reply) == ring[i := reply]
  {
    if i > 0 {
      assert forall j :: 0 <= j < |ring| - 1 ==> ring[1..][j] == ring[j + 1];
      ReplacedAt(ring[1..], reply, i - 1);
      assert ring[i := reply] == [ring[0]] + ring[1..][i - 1 := reply];
    } else {
      assert ring[0 := reply] == [reply] + ring[1..];
    }
  }

  /** The position of a request's reply; the ring's length if it is not cached. */
  method Position(ring: seq<CachedReply>, request: nat) returns (i: nat)
    ensures i <= |ring| && (i < |ring| ==> ring[i].header.request == request)
    ensures forall j :: 0 <= j < i ==> ring[j].header.request != request
  {
    i := 0;
    while i < |ring| && ring[i].header.request != request
      invariant i <= |ring| && forall j :: 0 <= j < i ==> ring[j].header.request != request
    {
      i := i + 1;
    }
  }

  method Find(ring: seq<CachedReply>, request: nat) returns (found: Option<CachedReply>)
    ensures found == FindCached(ring, request)
  {
    var i := Position(ring, request);
    FoundAt(ring, request, i);
    return if i < |ring| then Some(ring[i]) else None;
  }

  lemma {:induction false} FoundAt(ring: seq<CachedReply>, request: nat, i: nat)
    requires i <= |ring| && (i < |ring| ==> ring[i].header.request == request)
    requires forall j :: 0 <= j < i ==> ring[j].header.request != request
    ensures FindCached(ring, request) == if i < |ring| then Some(ring[i]) else None
  {
    if ring != [] && i > 0 {
      assert forall j :: 0 <= j < |ring| - 1 ==> ring[1..][j] == ring[j + 1];
      FoundAt(ring[1..], request, i - 1);
    }
  }

  method PushLatest(e: Entry, reply: CachedReply) returns (after: Entry)
    ensures after == Pushed(e, reply)
  {
    var ring := TrimRing(e.ring + [reply]);
    return e.(ring := ring, latestCommit := reply.header.commit);
  }

  method Retain(e: Entry, reply: CachedReply) returns (after: Entry)
    requires e.ring != []
    ensures after == Receipted(e, reply)
  {
    hide Trim, Pushed, Replaced;
    if reply.header.request == e.watermark {
      var i := Position(e.ring, reply.header.request);
      if i < |e.ring| {
        ReplacedAt(e.ring, reply, i);
        var ring := e.ring[i := reply];
        after := e.(ring := ring, latestCommit := ring[|ring| - 1].header.commit);
      } else {
        after := PushLatest(e, reply);
      }
    } else {
      after := PushLatest(e, reply);
      after := after.(watermark := reply.header.request);
    }
  }

  /** Folds a committed request into an entry's window. */
  method Fold(e: Entry, request: nat, commitOp: nat) returns (after: Entry)
    ensures after == FoldedEntry(e, request, commitOp) && after.client == e.client
  {
    hide Bit, WithBit, ShiftIn;
    after := e;
    if request > e.watermark {
      var gap := request - e.watermark;
      var window := if gap >= COMMITTED_WINDOW_BITS then 1 else ShiftIn(e.window, gap, COMMITTED_WINDOW_BITS);
      after := e.(window := window, watermark := request, latestCommit := commitOp);
    } else {
      var below := e.watermark - request;
      if below < COMMITTED_WINDOW_BITS && !Bit(e.window, below) {
        WithBits(e.window, below, below);
        after := e.(window := WithBit(e.window, below), latestCommit := Max(e.latestCommit, commitOp));
      }
    }
  }

  /** Pins a receipt, unless its request is already answered or arrives late below the pinned one. */
  method Pin(e: Entry, reply: CachedReply) returns (after: Entry, answer: CachedReply)
    ensures (after, answer) == Pinned(e, reply) && after.client == e.client
  {
    hide FindCached;
    var cached := Find(e.ring, reply.header.request);
    if cached.Some? {
      return e, cached.value;
    }
    if e.ring != [] && reply.header.request < e.watermark {
      return e.(latestCommit := e.ring[|e.ring| - 1].header.commit), reply;
    }
    return e.(latestCommit := reply.header.commit, ring := [reply]), reply;
  }

  /** One entry's verdict; without a fence a live entry takes any epoch for its own. */
  method Judge(e: Entry, fenced: bool, epoch: nat, request: nat, operation: Operation) returns (status: RequestStatus)
    ensures status == CheckEntry(e, if fenced || e.endedOp.Some? then epoch else e.epoch, request, operation)
  {
    hide FindCached, Operation.RequestOperation;
    var cached := Find(e.ring, request);
    if e.endedOp.Some? {
      if epoch == e.epoch && cached.Some? && cached.value.header.operation.Logout? {
        return if cached.value.header.operation.RequestOperation() == operation.RequestOperation()
               then Duplicate(cached.value) else OperationMismatch(request);
      }
      return NoSession;
    }
    if fenced {
      if epoch < e.epoch {
        return Fenced(e.epoch, epoch);
      }
      if epoch > e.epoch {
        return EpochAhead(e.epoch, epoch);
      }
    }
    if request > e.watermark {
      return New;
    }
    if cached.None? {
      return AlreadyApplied(request, e.watermark);
    }
    return if cached.value.header.operation.RequestOperation() != operation.RequestOperation()
           then OperationMismatch(request) else Duplicate(cached.value);
  }

  // ----- The table -----

  class ClientTable {
    var slots: SlotArray
    var index: Index
    var clientsMax: nat
    var capacityCommitted: bool
    var nextToken: nat
    const mode: Mode

    ghost predicate Valid()
      reads this
    {
      && Mirror(slots, index) && OccupiedBelow(slots, clientsMax)
      && (mode.PreallocateSlots() ==> |slots| == clientsMax)
    }

    ghost function Contents(): Book
      requires Valid()
      reads this
    {
      Sessions(slots, index)
    }

    constructor (max: nat, mode: Mode)
      ensures Valid() && Contents() == map[] && clientsMax == max && this.mode == mode && !capacityCommitted
    {
      slots := if mode.PreallocateSlots() then seq(max, _ => None) else [];
      index := map[];
      clientsMax := max;
      capacityCommitted := false;
      nextToken := 0;
      this.mode := mode;
    }

    /** Occupancy never exceeds capacity. */
    lemma WithinCapacity()
      requires Valid()
      ensures |Contents()| == |index| <= clientsMax
    {
      SessionsSize(slots, index);
      IndexCounts(slots, index);
      OccupiedCeiling(slots, clientsMax);
    }

    /** Lowest free slot, growing the array when it has no hole. */
    method FirstFreeSlot() returns (slot: nat)
      requires Valid() && |index| < clientsMax
      modifies this`slots
      ensures slot == LowestFree(old(slots)) && slot < |slots| && slot < clientsMax
      ensures slots == if slot < |old(slots)| then old(slots) else old(slots) + [None]
    {
      FreeSlotInRange(slots, index, clientsMax);
      if |index| < |slots| {
        slot := 0;
        while slots[slot].Some?
          invariant slot <= LowestFree(slots) < |slots|
          decreases |slots| - slot
        {
          slot := slot + 1;
        }
      } else {
        slots := slots + [None];
        slot := |slots| - 1;
      }
    }

    method Place(e: Entry)
      requires Valid() && e.client !in index && |index| < clientsMax
      modifies this`slots, this`index
      ensures Valid() && Contents() == old(Contents())[e.client := e]
      ensures slots == Placed(old(slots), e) && index == old(index)[e.client := LowestFree(old(slots))]
    {
      PlaceMirrors(slots, index, e);
      FreeSlotInRange(slots, index, clientsMax);
      var slot := FirstFreeSlot();
      slots := slots[slot := Some(e)];
      index := index[e.client := slot];
      assert slots == Placed(old(slots), e);
    }

    method Update(e: Entry)
      requires Valid() && e.client in index
      modifies this`slots
      ensures Valid() && Contents() == old(Contents())[e.client := e] && |slots| == |old(slots)|
    {
      ReplaceMirrors(slots, index, e.client, e);
      slots := slots[index[e.client] := Some(e)];
    }

    method CommitRegister(client: nat, user: nat, verifier: seq<Byte>, reply: CachedReply) returns (r: Result<(), TableError>)
      requires Valid()
      modifies this`slots, this`index
      ensures Valid()
      ensures var after := ClientBook.CommitRegister(old(Contents()), clientsMax, client, user, verifier, reply);
              match after
              case Ok(book) => r == Ok(()) && Contents() == book
              case Err(e) => r == Err(e) && slots == old(slots) && index == old(index)
      ensures r.Ok? && client !in old(index) ==>
        slots == Placed(old(slots), Registration(client, user, verifier, reply))
    {
      SessionsSize(slots, index);
      if !RegisterReplyOk(client, reply) {
        return Err(InvalidReply);
      }
      if client in index {
        var e := slots[index[client]].value;
        return if e.user == user && e.verifier == verifier && e.endedOp.None? then Ok(()) else Err(InvalidWatermark(client));
      }
      if |index| >= clientsMax {
        return Err(TooManyEntries(|index| + 1, clientsMax));
      }
      Place(Registration(client, user, verifier, reply));
      return Ok(());
    }

    method CommitReply(client: nat, user: nat, reply: CachedReply) returns (outcome: CommitOutcome)
      requires Valid() && Seeded(Contents()) && reply.header.client == client
      modifies this`slots
      ensures Valid() && outcome == CommitOutcomeOf(old(Contents()), client, user, reply.header)
      ensures Contents() == ClientBook.CommitReply(old(Contents()), client, user, reply)
      ensures !outcome.Cached? ==> slots == old(slots)
    {
      hide Receipted;
      if client == RESERVED_CLIENT_ID || client !in index {
        return NoEntry;
      }
      var e := slots[index[client]].value;
      assert e == Contents()[client];
      outcome := ReceiptOutcome(e, user, reply.header);
      if outcome.Cached? {
        var after := Retain(e, reply);
        ReceiptedClient(e, reply);
        Update(after);
      }
    }

    method EndSession(client: nat, user: nat, session: nat, endedOp: nat) returns (ended: bool)
      requires Valid()
      modifies this`slots
      ensures Valid() && ended == MayEnd(old(Contents()), client, user, session)
      ensures Contents() == ClientBook.EndSession(old(Contents()), client, user, session, endedOp)
    {
      if client !in index {
        return false;
      }
      var e := slots[index[client]].value;
      ended := e.user == user && e.epoch == session && e.endedOp.None?;
      if ended {
        Update(Ended(e, endedOp));
      }
    }

    /** A Logout receipt is retained, then its session ends. */
    method CommitLogout(client: nat, user: nat, session: nat, reply: CachedReply) returns (r: Result<bool, TableError>)
      requires Valid() && Seeded(Contents()) && reply.header.client == client
      modifies this`slots
      ensures Valid()
      ensures var after := ClientBook.CommitLogout(old(Contents()), client, user, session, reply);
              match after
              case Ok(done) => r == Ok(done.1) && Contents() == done.0
              case Err(e) => r == Err(e) && slots == old(slots)
    {
      hide ReceiptOutcome, ClientBook.CommitReply;
      if client !in index {
        return Ok(false);
      }
      var e := slots[index[client]].value;
      assert e == Contents()[client];
      if e.epoch != session || e.user != user || e.endedOp.Some?
         || (reply.header.request <= e.watermark && reply.header.request != EXPIRED_SESSION_REQUEST_ID) {
        return Ok(false);
      }
      var outcome := CommitReply(client, user, reply);
      if !outcome.Cached? {
        return Err(InvalidWatermark(client));
      }
      var ended := EndSession(client, user, session, reply.header.commit);
      return Ok(ended);
    }

    method ForgetSession(client: nat, session: nat) returns (forgotten: bool)
      requires Valid()
      modifies this`slots, this`index
      ensures Valid() && forgotten == MayForget(old(Contents()), client, session)
      ensures Contents() == ClientBook.ForgetSession(old(Contents()), client, session)
    {
      if client !in index {
        return false;
      }
      if slots[index[client]].value.epoch != session {
        return false;
      }
      ReleaseMirrors(slots, index, client);
      slots := slots[index[client] := None];
      index := index - {client};
      return true;
    }

    /** Ends every session of a user and names them in slot order. */
    method EndUserSessions(user: nat, endedOp: nat) returns (ended: seq<SessionIdentity>)
      requires Valid()
      modifies this`slots
      ensures Valid() && Contents() == ClientBook.EndUserSessions(old(Contents()), user, endedOp)
      ensures ended == EndedIdentities(old(slots), user, endedOp)
      ensures forall identity :: identity in ended <==>
        && MayEnd(old(Contents()), identity.client, user, identity.session) && identity.metadataWatermark == endedOp
    {
      hide Mirror, OccupiedBelow, Ended, EndedIdentities;
      ghost var before := slots;
      ended := EndSlots(user, endedOp);
      RevokedTable(before, index, slots, user, endedOp, clientsMax);
      forall identity: SessionIdentity
        ensures identity in ended <==>
          && MayEnd(Sessions(before, index), identity.client, user, identity.session) && identity.metadataWatermark == endedOp
      {
        EndedIdentitiesAre(before, index, user, endedOp, identity);
      }
    }

    /** The walk over the slots: ends what it must and lists what it ended. */
    method EndSlots(user: nat, endedOp: nat) returns (ended: seq<SessionIdentity>)
      modifies this`slots
      ensures |slots| == |old(slots)| && forall i :: 0 <= i < |slots| ==> slots[i] == EndedSlot(old(slots)[i], user, endedOp)
      ensures ended == EndedIdentities(old(slots), user, endedOp)
    {
      ghost var before := slots;
      ended := [];
      for i := 0 to |slots|
        invariant |slots| == |before| && slots[i..] == before[i..]
        invariant forall j :: 0 <= j < i ==> slots[j] == EndedSlot(before[j], user, endedOp)
        invariant ended == EndedIdentities(before[..i], user, endedOp)
      {
        assert slots[i] == slots[i..][0] == before[i];
        EndedIdentitiesNext(before, i, user, endedOp);
        hide EndedIdentities;
        if slots[i].Some? && slots[i].value.user == user && slots[i].value.endedOp.None? {
          var e := slots[i].value;
          ended := ended + [SessionIdentity(e.client, e.epoch, endedOp)];
          slots := slots[i := Some(Ended(e, endedOp))];
        }
        assert slots[i + 1..] == before[i + 1..];
      }
      assert before[..|slots|] == before;
    }

    /** Drops a session that ended at exactly the op the identity names. */
    method FinalizeSession(identity: SessionIdentity) returns (finalized: bool)
      requires Valid()
      modifies this`slots, this`index
      ensures Valid() && finalized == MayFinalize(old(Contents()), identity)
      ensures Contents() == ClientBook.FinalizeSession(old(Contents()), identity)
    {
      var found := false;
      for i := 0 to |slots|
        invariant found <==> exists j :: 0 <= j < i && Finalizes(slots[j], identity)
      {
        found := found || Finalizes(slots[i], identity);
      }
      assert found <==> MayFinalize(Contents(), identity);
      if found {
        finalized := ForgetSession(identity.client, identity.session);
      } else {
        finalized := false;
      }
    }

    /** Applies the capacity the log carries. The table stays sound exactly when no occupied slot lies past it. */
    method CommitCapacity(capacity: nat) returns (r: Result<(), TableError>)
      requires Valid()
      modifies this`slots, this`clientsMax, this`capacityCommitted
      ensures r.Ok? <==>
        && 0 < capacity <= CLIENTS_TABLE_SLOT_MAX && |index| <= capacity
        && (old(capacityCommitted) ==> old(clientsMax) == capacity)
      ensures r.Ok? ==> clientsMax == capacity && capacityCommitted
      ensures r.Ok? ==> slots == if mode.PreallocateSlots() then Resized(old(slots), capacity) else old(slots)
      ensures r.Ok? ==> (Valid() <==> OccupiedBelow(old(slots), capacity)) && (Valid() ==> Contents() == old(Contents()))
      ensures r.Err? ==> r.error == InvalidCapacity(capacity) && unchanged(this)
    {
      if capacity == 0 || capacity > CLIENTS_TABLE_SLOT_MAX || |index| > capacity || (capacityCommitted && clientsMax != capacity) {
        return Err(InvalidCapacity(capacity));
      }
      clientsMax := capacity;
      if mode.PreallocateSlots() {
        ResizeKeepsMirrorIff(slots, index, capacity);
        if OccupiedBelow(slots, capacity) {
          ResizedMirrors(slots, index, Resized(slots, capacity));
        }
        slots := Resized(slots, capacity);
      }
      capacityCommitted := true;
      return Ok(());
    }

    method CheckRequest(client: nat, epoch: nat, request: nat, operation: Operation) returns (status: RequestStatus)
      requires Valid() && client != RESERVED_CLIENT_ID
      ensures status == if mode.FenceEpoch() then ClientBook.CheckRequest(Contents(), client, epoch, request, operation)
                        else CheckUnfenced(Contents(), client, epoch, request, operation)
    {
      hide CheckEntry;
      if client !in index {
        return NoSession;
      }
      status := Judge(slots[index[client]].value, mode.FenceEpoch(), epoch, request, operation);
    }

    method AttachSession(client: nat, session: nat, user: nat) returns (attachment: Option<Attachment>)
      requires Valid()
      modifies this`slots, this`nextToken
      ensures Valid() && Contents() == ClientBook.AttachSession(old(Contents()), client, session, user, old(nextToken))
      ensures attachment.Some? <==> MayAttach(old(Contents()), client, session, user)
      ensures attachment.Some? ==> AttachmentValid(Contents(), attachment.value) && attachment.value.user == user
      ensures attachment.None? ==> slots == old(slots)
    {
      if client !in index {
        return None;
      }
      var e := slots[index[client]].value;
      if e.epoch != session || e.user != user || session == 0 || e.endedOp.Some? {
        return None;
      }
      if e.attachment.None? {
        e := e.(attachment := Some(nextToken));
        nextToken := nextToken + 1;
        Update(e);
      }
      assert Contents()[client].attachment == e.attachment;
      return Some(Attachment(e.attachment.value, user));
    }

    method BindSession(client: nat, session: nat, derive: (nat, nat) -> seq<Byte>)
      returns (r: Result<(nat, nat, Attachment), BindError>)
      requires Valid()
      modifies this`slots, this`nextToken
      ensures Valid()
      ensures match ClientBook.BindSession(old(Contents()), client, session, derive)
              case Err(e) => r == Err(e) && slots == old(slots)
              case Ok(bound) =>
                && r.Ok? && (r.value.0, r.value.1) == bound && AttachmentValid(Contents(), r.value.2)
                && Contents() == ClientBook.AttachSession(old(Contents()), client, bound.1, bound.0, old(nextToken))
    {
      if client !in index {
        return Err(if session == 0 then TransientNotAccepted else Unauthenticated);
      }
      var e := slots[index[client]].value;
      assert e == Contents()[client];
      if e.endedOp.Some? || e.verifier != derive(client, e.user) {
        return Err(Unauthenticated);
      }
      if session != 0 && session != e.epoch {
        return Err(InvalidSession(session));
      }
      var attachment := AttachSession(client, e.epoch, e.user);
      if attachment.None? {
        return Err(Unauthenticated);
      }
      return Ok((e.user, e.epoch, attachment.value));
    }

    // ----- Partitions -----

    method CheckPartitionRequest(client: nat, user: nat, session: nat, request: nat, operation: Operation)
      returns (status: RequestStatus)
      requires Valid()
      ensures status == PartitionBook.CheckPartitionRequest(Contents(), client, user, session, request, operation)
    {
      if client !in index {
        return New;
      }
      var e := slots[index[client]].value;
      if e.user != user || e.epoch != session {
        return Fenced(e.epoch, session);
      }
      match CheckSliceRequest(SliceOf(e), request)
      case SliceNew => return New;
      case SliceAgedOut => return AlreadyApplied(request, e.watermark);
      case SliceCommitted =>
        var cached := Find(e.ring, request);
        if cached.None? {
          return AlreadyApplied(request, e.watermark);
        }
        return if cached.value.header.operation != operation then OperationMismatch(request) else Duplicate(cached.value);
    }

    /** Folds a request's identity in, seating a client it has not seen. */
    method CommitRequest(client: nat, user: nat, request: nat, commitOp: nat) returns (r: Result<(), TableError>)
      requires Valid()
      modifies this`slots, this`index
      ensures Valid()
      ensures match PartitionBook.CommitRequest(old(Contents()), clientsMax, client, user, request, commitOp)
              case Ok(book) => r == Ok(()) && Contents() == book
              case Err(e) => r == Err(e) && slots == old(slots) && index == old(index)
    {
      hide FoldedEntry;
      SessionsSize(slots, index);
      if client == 0 {
        return Err(InvalidWatermark(client));
      }
      if client in index {
        var e := slots[index[client]].value;
        if e.user != user {
          return Err(InvalidWatermark(client));
        }
        var after := Fold(e, request, commitOp);
        Update(after);
        return Ok(());
      }
      if |index| >= clientsMax {
        return Err(TooManyEntries(|index| + 1, clientsMax));
      }
      Place(WatermarkOnly(client, user, request, 1, commitOp));
      return Ok(());
    }

    /** Retains a partition receipt; the answer is the first committed result. */
    method CommitPartitionReply(user: nat, session: nat, reply: CachedReply) returns (r: Result<CachedReply, TableError>)
      requires Valid()
      modifies this`slots, this`index
      ensures Valid()
      ensures match PartitionBook.CommitPartitionReply(old(Contents()), clientsMax, user, session, reply)
              case Ok(done) => r == Ok(done.1) && Contents() == done.0
              case Err(e) => r == Err(e) && slots == old(slots) && index == old(index)
    {
      hide FoldedEntry, Pinned;
      var h := reply.header;
      if !PartitionReplyOk(session, h) {
        return Err(InvalidReply);
      }
      if h.client in index && slots[index[h.client]].value.epoch != session {
        return Err(InvalidWatermark(h.client));
      }
      var folded := CommitRequest(h.client, user, h.request, h.commit);
      if folded.Err? {
        return Err(folded.error);
      }
      assert h.client in Contents();
      var e := slots[index[h.client]].value.(epoch := session);
      var after, answer := Pin(e, reply);
      Update(after);
      return Ok(answer);
    }

    /** Every entry ascending by client. */
    method WatermarksSorted() returns (ws: seq<DedupWatermark>)
      requires Valid()
      ensures Lists(ws, Contents())
    {
      ws := [];
      for i := 0 to |slots|
        invariant ListsUpTo(ws, slots, i)
      {
        if slots[i].Some? {
          var at := SortedPosition(ws, slots[i].value.client);
          InsertLists(ws, slots, index, i, at);
          ws := Inserted(ws, at, Exported(slots[i].value));
        }
      }
      ListsAll(ws, slots, index);
    }

    /** Replaces the table atomically; a refused install changes nothing. */
    method InstallWatermarks(capacity: nat, ws: seq<DedupWatermark>, parse: Parse) returns (r: Result<(), TableError>)
      requires Valid() && mode.Partition?
      modifies this
      ensures Valid()
      ensures match PartitionBook.InstallWatermarks(ws, capacity, parse)
              case Ok(book) => r == Ok(()) && Contents() == book && clientsMax == capacity && capacityCommitted
              case Err(e) => r == Err(e) && unchanged(this)
    {
      if capacity == 0 || capacity > CLIENTS_TABLE_SLOT_MAX {
        return Err(InvalidCapacity(capacity));
      }
      var replacement := BuildReplacement(ws, capacity, parse);
      if replacement.Err? {
        return Err(replacement.error);
      }
      slots, index, clientsMax, capacityCommitted := replacement.value.0, replacement.value.1, capacity, true;
      return Ok(());
    }
  }

  /** Seats the watermarks one after another in a table of its own. */
  method BuildReplacement(ws: seq<DedupWatermark>, capacity: nat, parse: Parse) returns (r: Result<(SlotArray, Index), TableError>)
    ensures r.Ok? ==> Mirror(r.value.0, r.value.1) && |r.value.0| <= capacity
    ensures InstalledPrefix(ws, |ws|, capacity, parse) == if r.Ok? then Ok(Sessions(r.value.0, r.value.1)) else Err(r.error)
  {
    hide Installed, Bit, Mirror;
    var slots: SlotArray, index: Index := [], map[];
    EmptyMirrors();
    for k := 0 to |ws|
      invariant Mirror(slots, index) && |slots| == k <= capacity
      invariant InstalledPrefix(ws, k, capacity, parse) == Ok(Sessions(slots, index))
    {
      SessionsSize(slots, index);
      PrefixError(ws, k + 1, |ws|, capacity, parse);
      var e := Seat(ws, k, capacity, parse, index);
      if e.Err? {
        return Err(e.error);
      }
      AppendMirrors(slots, index, e.value);
      slots, index := slots + [Some(e.value)], index[e.value.client := k];
    }
    return Ok((slots, index));
  }

  /** The entry the next watermark installs beside those already seated. */
  method Seat(ws: seq<DedupWatermark>, k: nat, capacity: nat, parse: Parse, index: Index) returns (e: Result<Entry, TableError>)
    requires k < |ws| && InstalledPrefix(ws, k, capacity, parse).Ok? && InstalledPrefix(ws, k, capacity, parse).value.Keys == index.Keys
    ensures e.Ok? ==> e.value.client == ws[k].client && e.value.client !in index && k < capacity
    ensures InstalledPrefix(ws, k + 1, capacity, parse) ==
      if e.Ok? then Ok(InstalledPrefix(ws, k, capacity, parse).value[ws[k].client := e.value]) else Err(e.error)
  {
    hide Installed, Bit;
    var w := ws[k];
    if k >= capacity {
      return Err(TooManyEntries(k + 1, capacity));
    }
    if w.client == 0 || w.session == 0 || !Bit(w.window, 0) {
      return Err(InvalidWatermark(w.client));
    }
    if w.client in index {
      return Err(DuplicateClientId(k, w.client));
    }
    InstalledClient(w, parse);
    return Installed(w, parse);
  }

  lemma EmptyMirrors()
    ensures Mirror([], map[]) && Sessions([], map[]) == map[]
  {
  }

  lemma InstalledClient(w: DedupWatermark, parse: Parse)
    ensures Installed(w, parse).Ok? ==> Installed(w, parse).value.client == w.client
  {
  }

  lemma {:induction false} PrefixError(ws: seq<DedupWatermark>, k: nat, n: nat, capacity: nat, parse: Parse)
    requires k <= n <= |ws|
    ensures InstalledPrefix(ws, k, capacity, parse).Err? ==>
      InstalledPrefix(ws, n, capacity, parse) == InstalledPrefix(ws, k, capacity, parse)
  {
    hide Installed, Bit;
    if k < n {
      PrefixError(ws, k, n - 1, capacity, parse);
    }
  }

  // ----- Sorting -----

  /** The list names each entry seated below `n` once, ascending by client. */
  ghost predicate ListsUpTo(ws: seq<DedupWatermark>, slots: SlotArray, n: nat)
    requires n <= |slots|
  {
    && (forall i :: 0 <= i < |ws| ==> ListedIn(ws[i], slots, n))
    && (forall i, j :: 0 <= i < j < |ws| ==> ws[i].client < ws[j].client)
    && (forall k :: 0 <= k < n && slots[k].Some? ==> Exported(slots[k].value) in ws)
  }

  ghost predicate ListedIn(w: DedupWatermark, slots: SlotArray, n: nat)
    requires n <= |slots|
  {
    exists k :: 0 <= k < n && slots[k].Some? && w == Exported(slots[k].value)
  }

  method SortedPosition(ws: seq<DedupWatermark>, client: nat) returns (at: nat)
    requires forall i, j :: 0 <= i < j < |ws| ==> ws[i].client < ws[j].client
    ensures at <= |ws| && (forall i :: 0 <= i < at ==> ws[i].client < client)
    ensures forall i :: at <= i < |ws| ==> client <= ws[i].client
  {
    at := 0;
    while at < |ws| && ws[at].client < client
      invariant at <= |ws| && forall i :: 0 <= i < at ==> ws[i].client < client
    {
      at := at + 1;
    }
  }

  lemma InsertLists(ws: seq<DedupWatermark>, slots: SlotArray, index: Index, n: nat, at: nat)
    requires Mirror(slots, index) && n < |slots| && slots[n].Some? && ListsUpTo(ws, slots, n) && at <= |ws|
    requires forall i :: 0 <= i < at ==> ws[i].client < slots[n].value.client
    requires forall i :: at <= i < |ws| ==> slots[n].value.client <= ws[i].client
    ensures ListsUpTo(Inserted(ws, at, Exported(slots[n].value)), slots, n + 1)
  {
    hide ListedIn, Exported, Mirror;
    var w := Exported(slots[n].value);
    var after := Inserted(ws, at, w);
    forall i | 0 <= i < |ws| ensures ListedIn(ws[i], slots, n + 1) && ws[i].client != slots[n].value.client {
      ListedLater(ws[i], slots, index, n);
    }
    ListedNow(slots, n);
    InsertSorted(ws, at, w);
    forall i | 0 <= i < |after| ensures ListedIn(after[i], slots, n + 1) {
      InsertedAt(ws, at, w, i);
    }
    forall k | 0 <= k < n + 1 && slots[k].Some? ensures Exported(slots[k].value) in after {
      InsertKeeps(ws, at, w, Exported(slots[k].value));
    }
  }

  function Inserted(ws: seq<DedupWatermark>, at: nat, w: DedupWatermark): seq<DedupWatermark>
    requires at <= |ws|
  {
    ws[..at] + [w] + ws[at..]
  }

  lemma InsertedAt(ws: seq<DedupWatermark>, at: nat, w: DedupWatermark, i: nat)
    requires at <= |ws| && i < |Inserted(ws, at, w)|
    ensures Inserted(ws, at, w)[i] == if i < at then ws[i] else if i == at then w else ws[i - 1]
  {
  }

  lemma InsertSorted(ws: seq<DedupWatermark>, at: nat, w: DedupWatermark)
    requires at <= |ws| && forall i, j :: 0 <= i < j < |ws| ==> ws[i].client < ws[j].client
    requires (forall i :: 0 <= i < at ==> ws[i].client < w.client) && forall i :: at <= i < |ws| ==> w.client < ws[i].client
    ensures var after := Inserted(ws, at, w);
            forall i, j :: 0 <= i < j < |after| ==> after[i].client < after[j].client
  {
    var after := Inserted(ws, at, w);
    forall i, j | 0 <= i < j < |after| ensures after[i].client < after[j].client {
      InsertedAt(ws, at, w, i);
      InsertedAt(ws, at, w, j);
    }
  }

  lemma InsertKeeps(ws: seq<DedupWatermark>, at: nat, w: DedupWatermark, x: DedupWatermark)
    requires at <= |ws| && (x in ws || x == w)
    ensures x in Inserted(ws, at, w)
  {
    assert ws == ws[..at] + ws[at..];
  }

  lemma ListedLater(w: DedupWatermark, slots: SlotArray, index: Index, n: nat)
    requires Mirror(slots, index) && n < |slots| && slots[n].Some? && ListedIn(w, slots, n)
    ensures ListedIn(w, slots, n + 1) && w.client != slots[n].value.client
  {
  }

  lemma ListedNow(slots: SlotArray, n: nat)
    requires n < |slots| && slots[n].Some?
    ensures ListedIn(Exported(slots[n].value), slots, n + 1) && Exported(slots[n].value).client == slots[n].value.client
  {
  }

  lemma ListsAll(ws: seq<DedupWatermark>, slots: SlotArray, index: Index)
    requires Mirror(slots, index) && ListsUpTo(ws, slots, |slots|)
    ensures Lists(ws, Sessions(slots, index))
  {
    var book := Sessions(slots, index);
    forall i | 0 <= i < |ws| ensures ws[i].client in book && ws[i] == Exported(book[ws[i].client]) {
      assert ListedIn(ws[i], slots, |slots|);
    }
    forall c | c in book ensures exists i :: 0 <= i < |ws| && ws[i].client == c {
      assert Exported(slots[index[c]].value) in ws;
    }
  }

  predicate Finalizes(slot: Option<Entry>, identity: SessionIdentity) {
    && slot.Some? && slot.value.client == identity.client && slot.value.epoch == identity.session
    && slot.value.endedOp == Some(identity.metadataWatermark)
  }

  function Resized(slots: SlotArray, capacity: nat): (after: SlotArray)
    ensures |after| == capacity
    ensures forall i :: 0 <= i < capacity ==> after[i] == if i < |slots| then slots[i] else None
  {
    if capacity <= |slots| then slots[..capacity] else slots + seq(capacity - |slots|, _ => None)
  }

  /** Resizing keeps slots and index in step exactly when no occupied slot lies past the new end. */
  lemma ResizeKeepsMirrorIff(slots: SlotArray, index: Index, capacity: nat)
    requires Mirror(slots, index)
    ensures Mirror(Resized(slots, capacity), index) <==> OccupiedBelow(slots, capacity)
  {
    var after := Resized(slots, capacity);
    if OccupiedBelow(slots, capacity) {
      ResizedMirrors(slots, index, after);
    } else {
      var i :| 0 <= i < |slots| && slots[i].Some? && i >= capacity;
      assert index[slots[i].value.client] == i;
    }
  }

  /** Counting sessions is not enough: one session in slot 1 fits a capacity of one, and is cut off. */
  lemma CountedSessionCanBeCutOff(e: Entry)
    ensures var slots, index := [None, Some(e)], map[e.client := 1];
            Mirror(slots, index) && |index| <= 1 && !Mirror(Resized(slots, 1), index)
  {
    var slots: SlotArray, index: Index := [None, Some(e)], map[e.client := 1];
    assert slots[1] == Some(e);
    ResizeKeepsMirrorIff(slots, index, 1);
  }

  lemma ResizedMirrors(slots: SlotArray, index: Index, after: SlotArray)
    requires Mirror(slots, index)
    requires forall i :: 0 <= i < |slots| && slots[i].Some? ==> i < |after|
    requires forall i :: 0 <= i < |after| ==> after[i] == if i < |slots| then slots[i] else None
    ensures Mirror(after, index) && Sessions(after, index) == Sessions(slots, index)
  {
  }

  lemma RevokedTable(before: SlotArray, index: Index, after: SlotArray, user: nat, endedOp: nat, max: nat)
    requires Mirror(before, index) && OccupiedBelow(before, max) && |after| == |before|
    requires forall i :: 0 <= i < |before| ==> after[i] == EndedSlot(before[i], user, endedOp)
    ensures Mirror(after, index) && OccupiedBelow(after, max)
    ensures Sessions(after, index) == ClientBook.EndUserSessions(Sessions(before, index), user, endedOp)
  {
    EndedMirrors(before, index, after, user, endedOp);
  }

  lemma EndedIdentitiesNext(slots: SlotArray, i: nat, user: nat, endedOp: nat)
    requires i < |slots|
    ensures EndedIdentities(slots[..i + 1], user, endedOp) == EndedIdentities(slots[..i], user, endedOp) +
      if slots[i].Some? && slots[i].value.user == user && slots[i].value.endedOp.None?
      then [SessionIdentity(slots[i].value.client, slots[i].value.epoch, endedOp)] else []
  {
    assert slots[..i + 1][..i] == slots[..i];
  }

  lemma ReceiptedClient(e: Entry, reply: CachedReply)
    requires e.ring != []
    ensures Receipted(e, reply).client == e.client
  {
  }
}
