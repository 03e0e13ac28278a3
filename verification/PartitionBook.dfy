/**
 * The client table of a partition: committed requests are remembered as a window, and the
 * watermark's reply is pinned so that its client can be answered again.
 */
module PartitionBook {
  import opened Common
  import opened ClientEntry
  import opened ClientBook
  import opened Window

  function WatermarkOnly(client: nat, user: nat, watermark: nat, window: nat, commitOp: nat): Entry {
    Entry(Zeros(32), None, 0, None, user, watermark, WithBit(window, 0), [], client, commitOp)
  }

  function SliceOf(e: Entry): Slice {
    Slice(e.watermark, e.window)
  }

  /** Folds a request's identity into its entry. */
  function FoldedEntry(e: Entry, request: nat, commitOp: nat): Entry {
    var s := Folded(SliceOf(e), request);
    var commit :=
      if request > e.watermark then commitOp
      else if s != SliceOf(e) then Max(e.latestCommit, commitOp)
      else e.latestCommit;
    e.(watermark := s.watermark, window := s.window, latestCommit := commit)
  }

  function CommitRequest(book: Book, capacity: nat, client: nat, user: nat, request: nat, commitOp: nat): Result<Book, TableError> {
    if client == 0 then Err(InvalidWatermark(client))
    else if client in book then
      if book[client].user != user then Err(InvalidWatermark(client))
      else Ok(book[client := FoldedEntry(book[client], request, commitOp)])
    else if |book| >= capacity then Err(TooManyEntries(|book| + 1, capacity))
    else Ok(book[client := WatermarkOnly(client, user, request, 1, commitOp)])
  }

  predicate PartitionReplyOk(session: nat, h: ReplyHeader) {
    h.client != 0 && session != 0 && h.commit != 0 && h.operation.IsPartitionReceipt()
  }

  /** The entry once its request is folded in: the receipt is pinned unless an older request arrives late. */
  function Pinned(e: Entry, reply: CachedReply): (r: (Entry, CachedReply)) {
    var cached := FindCached(e.ring, reply.header.request);
    if cached.Some? then (e, cached.value)
    else if e.ring != [] && reply.header.request < e.watermark then (e.(latestCommit := e.Latest().header.commit), reply)
    else (e.(latestCommit := reply.header.commit, ring := [reply]), reply)
  }

  function CommitPartitionReply(book: Book, capacity: nat, user: nat, session: nat, reply: CachedReply): Result<(Book, CachedReply), TableError> {
    var h := reply.header;
    if !PartitionReplyOk(session, h) then Err(InvalidReply)
    else if h.client in book && book[h.client].epoch != session then Err(InvalidWatermark(h.client))
    else
      var folded := CommitRequest(book, capacity, h.client, user, h.request, h.commit);
      if folded.Err? then Err(folded.error)
      else
        var pinned := Pinned(folded.value[h.client].(epoch := session), reply);
        Ok((folded.value[h.client := pinned.0], pinned.1))
  }

  function CheckPartitionRequest(book: Book, client: nat, user: nat, session: nat, request: nat, operation: Operation): RequestStatus {
    if client !in book then New
    else
      var e := book[client];
      if e.user != user || e.epoch != session then Fenced(e.epoch, session)
      else
        match CheckSliceRequest(SliceOf(e), request)
        case SliceNew => New
        case SliceAgedOut => AlreadyApplied(request, e.watermark)
        case SliceCommitted =>
          var cached := FindCached(e.ring, request);
          if cached.None? then AlreadyApplied(request, e.watermark)
          else if cached.value.header.operation != operation then OperationMismatch(request)
          else Duplicate(cached.value)
  }

  // ----- Export and install -----

  datatype DedupWatermark = DedupWatermark(
    client: nat, user: nat, watermark: nat, latestCommit: nat, window: nat, session: nat, reply: seq<Byte>)

  /** Decodes a reply's wire bytes. */
  type Parse = seq<Byte> -> Option<ReplyHeader>

  function Exported(e: Entry): DedupWatermark {
    DedupWatermark(e.client, e.user, e.watermark, e.latestCommit, e.window, e.epoch, if e.ring == [] then [] else e.Latest().bytes)
  }

  predicate InstallableReply(w: DedupWatermark, h: ReplyHeader) {
    && h.client == w.client && h.request <= w.watermark && w.watermark - h.request < COMMITTED_WINDOW_BITS
    && Bit(w.window, w.watermark - h.request) && h.commit == w.latestCommit && h.commit != 0
    && h.size == |w.reply| && h.operation.IsPartitionReceipt()
  }

  /** The entry an exported watermark installs. */
  function Installed(w: DedupWatermark, parse: Parse): Result<Entry, TableError> {
    if w.client == 0 || w.session == 0 || !Bit(w.window, 0) then Err(InvalidWatermark(w.client))
    else if w.reply == [] then Err(EmptyRing)
    else
      var h := parse(w.reply);
      if h.None? || !InstallableReply(w, h.value) then Err(InvalidReply)
      else Ok(WatermarkOnly(w.client, w.user, w.watermark, w.window, w.latestCommit)
              .(epoch := w.session, ring := [CachedReply(h.value, w.reply)]))
  }

  // ----- Reached tables -----

  /** The one retained receipt is the watermark's. */
  ghost predicate EntryPinned(c: nat, e: Entry, parse: Parse) {
    && e.client == c && c != 0 && e.epoch != 0 && e.endedOp.None? && e.attachment.None? && e.verifier == Zeros(32)
    && Bit(e.window, 0) && |e.ring| == 1
    && e.ring[0].header.client == c && e.ring[0].header.request == e.watermark
    && e.ring[0].header.commit == e.latestCommit && e.latestCommit != 0 && e.ring[0].header.operation.IsPartitionReceipt()
    && WellFormedReply(e.ring[0], parse)
  }

  ghost predicate WellFormedReply(r: CachedReply, parse: Parse) {
    r.bytes != [] && r.header.size == |r.bytes| && parse(r.bytes) == Some(r.header)
  }

  ghost predicate PinnedBook(book: Book, parse: Parse) {
    forall c :: c in book ==> EntryPinned(c, book[c], parse)
  }

  lemma FoldedTop(e: Entry, request: nat, commitOp: nat)
    requires Bit(e.window, 0)
    ensures var f := FoldedEntry(e, request, commitOp);
            && Bit(f.window, 0) && f.watermark == Max(e.watermark, request)
            && f == e.(watermark := f.watermark, window := f.window, latestCommit := f.latestCommit)
            && (request > e.watermark ==> f.latestCommit == commitOp)
            && (request == e.watermark ==> f == e)
  {
    if request > e.watermark {
      ShiftInBits(e.window, request - e.watermark, COMMITTED_WINDOW_BITS, 0);
      OneBit(0);
    } else {
      WithBits(e.window, e.watermark - request, 0);
    }
  }

  /** In commit order, anything new moves the latest commit and a repeat leaves the entry alone. */
  lemma FoldMovesCommit(e: Entry, request: nat, commitOp: nat)
    requires commitOp >= e.latestCommit
    ensures var f := FoldedEntry(e, request, commitOp);
      if CheckSliceRequest(SliceOf(e), request).SliceNew? then f.latestCommit == commitOp && f.watermark == Max(e.watermark, request)
      else f == e
  {
    if request <= e.watermark {
      WithBits(e.window, e.watermark - request, e.watermark - request);
    }
    hide Bit, WithBit, ShiftIn;
  }

  /**
   * A late lower request leaves the pinned receipt; a newer one replaces it. A repeat of the pinned
   * request is answered with its first result, anything else with its own.
   */
  lemma CommitKeepsPinned(book: Book, capacity: nat, user: nat, session: nat, reply: CachedReply, parse: Parse)
    requires PinnedBook(book, parse) && WellFormedReply(reply, parse)
    ensures var r := CommitPartitionReply(book, capacity, user, session, reply);
            r.Ok? ==>
              && PinnedBook(r.value.0, parse)
              && var c := reply.header.client;
                 var fits := c in book && reply.header.request <= book[c].watermark;
              && (fits ==> r.value.0[c].ring == book[c].ring && r.value.0[c].latestCommit == book[c].latestCommit)
              && (!fits ==> r.value.0[c].ring == [reply])
              && r.value.1 == if fits && reply.header.request == book[c].watermark then book[c].ring[0] else reply
  {
    hide Folded, Bit;
    var c := reply.header.client;
    if c in book {
      assert EntryPinned(c, book[c], parse);
      FoldedTop(book[c], reply.header.request, reply.header.commit);
    } else {
      WithBits(1, 0, 0);
    }
  }

  // ----- Runs -----

  datatype Receipt = Receipt(user: nat, session: nat, reply: CachedReply)

  /** The table after a run of commits; a refused commit changes nothing. */
  function Committed(receipts: seq<Receipt>, capacity: nat): Book {
    if receipts == [] then map[]
    else
      var before := Committed(receipts[..|receipts| - 1], capacity);
      var last := receipts[|receipts| - 1];
      var r := CommitPartitionReply(before, capacity, last.user, last.session, last.reply);
      if r.Ok? then r.value.0 else before
  }

  lemma {:induction false} CommittedPinned(receipts: seq<Receipt>, capacity: nat, parse: Parse)
    requires forall i :: 0 <= i < |receipts| ==> WellFormedReply(receipts[i].reply, parse)
    ensures PinnedBook(Committed(receipts, capacity), parse)
    ensures |Committed(receipts, capacity)| <= capacity
  {
    hide CommitPartitionReply, PinnedBook, WellFormedReply;
    if receipts == [] {
      NothingPinned(parse);
    } else {
      var before := receipts[..|receipts| - 1];
      var last := receipts[|receipts| - 1];
      assert forall i :: 0 <= i < |before| ==> before[i] == receipts[i];
      CommittedPinned(before, capacity, parse);
      CommitKeepsPinned(Committed(before, capacity), capacity, last.user, last.session, last.reply, parse);
      CommitWithinCapacity(Committed(before, capacity), capacity, last.user, last.session, last.reply);
    }
  }

  lemma NothingPinned(parse: Parse)
    ensures PinnedBook(map[], parse)
  {
  }

  lemma CommitWithinCapacity(book: Book, capacity: nat, user: nat, session: nat, reply: CachedReply)
    requires |book| <= capacity
    ensures var r := CommitPartitionReply(book, capacity, user, session, reply);
            r.Ok? ==> |r.value.0| <= capacity
  {
    hide Folded, FindCached, Pinned, FoldedEntry;
    var r := CommitPartitionReply(book, capacity, user, session, reply);
    if r.Ok? {
      assert r.value.0.Keys == book.Keys + {reply.header.client};
      assert |book| == |book.Keys| && |r.value.0| == |r.value.0.Keys|;
    }
  }

  /** The requests of one client the table accepted, in commit order. */
  function Requests(receipts: seq<Receipt>, capacity: nat, c: nat): seq<nat> {
    if receipts == [] then []
    else
      var init := receipts[..|receipts| - 1];
      var last := receipts[|receipts| - 1];
      var r := CommitPartitionReply(Committed(init, capacity), capacity, last.user, last.session, last.reply);
      Requests(init, capacity, c) + if r.Ok? && last.reply.header.client == c then [last.reply.header.request] else []
  }

  lemma CommitFolds(book: Book, capacity: nat, user: nat, session: nat, reply: CachedReply, c: nat)
    ensures var r := CommitPartitionReply(book, capacity, user, session, reply);
            r.Ok? ==>
              && (c != reply.header.client ==> (c in r.value.0 <==> c in book) && (c in book ==> r.value.0[c] == book[c]))
              && (c == reply.header.client ==> c in r.value.0)
              && (c == reply.header.client && c in book ==>
                    SliceOf(r.value.0[c]) == Folded(SliceOf(book[c]), reply.header.request))
              && (c == reply.header.client && c !in book ==> SliceOf(r.value.0[c]) == Slice(reply.header.request, 1))
  {
    hide Folded;
  }

  /** Every entry's window is what its client's accepted requests make of it. */
  lemma {:induction false} CommittedWindow(receipts: seq<Receipt>, capacity: nat, c: nat)
    ensures c in Committed(receipts, capacity) <==> Requests(receipts, capacity, c) != []
    ensures c in Committed(receipts, capacity) ==>
      SliceOf(Committed(receipts, capacity)[c]) == After(Requests(receipts, capacity, c))
  {
    hide CommitPartitionReply, Folded, SliceOf;
    if receipts != [] {
      var init := receipts[..|receipts| - 1];
      var last := receipts[|receipts| - 1];
      var before, requests := Committed(init, capacity), Requests(init, capacity, c);
      CommittedWindow(init, capacity, c);
      CommitFolds(before, capacity, last.user, last.session, last.reply, c);
      assert (requests + [last.reply.header.request])[..|requests|] == requests;
      assert requests + [] == requests;
    }
  }

  /** A partition's verdict on a session's request is membership among that client's accepted requests. */
  lemma PartitionVerdictBySet(receipts: seq<Receipt>, capacity: nat, client: nat, user: nat, session: nat, request: nat, operation: Operation)
    requires var book := Committed(receipts, capacity);
             client in book ==> book[client].user == user && book[client].epoch == session
    ensures var requests := Requests(receipts, capacity, client);
            var verdict := CheckPartitionRequest(Committed(receipts, capacity), client, user, session, request, operation);
            && (verdict.New? <==> requests == [] || request > After(requests).watermark
                                  || (After(requests).watermark - request < COMMITTED_WINDOW_BITS && request !in requests))
            && (verdict.Duplicate? ==> request in requests)
  {
    hide FindCached, Committed, Requests, After;
    CommittedWindow(receipts, capacity, client);
    if client in Committed(receipts, capacity) {
      CheckedBySet(Requests(receipts, capacity, client), request);
    }
  }

  /** The receipts of one client the table accepted, in commit order. */
  function Accepted(receipts: seq<Receipt>, capacity: nat, c: nat): seq<Receipt> {
    if receipts == [] then []
    else
      var init := receipts[..|receipts| - 1];
      var last := receipts[|receipts| - 1];
      var r := CommitPartitionReply(Committed(init, capacity), capacity, last.user, last.session, last.reply);
      Accepted(init, capacity, c) + if r.Ok? && last.reply.header.client == c then [last] else []
  }

  /** No receipt has a higher request, and no earlier one has this request. */
  ghost predicate IsFirstHighest(accepted: seq<Receipt>, k: nat) {
    && k < |accepted|
    && (forall j :: 0 <= j < |accepted| ==> accepted[j].reply.header.request <= accepted[k].reply.header.request)
    && (forall j :: 0 <= j < k ==> accepted[j].reply.header.request < accepted[k].reply.header.request)
  }

  /** Whatever the run, a client's pinned receipt is the first result its highest accepted request got. */
  lemma {:induction false} PinnedIsFirst(receipts: seq<Receipt>, capacity: nat, parse: Parse, c: nat)
    requires forall i :: 0 <= i < |receipts| ==> WellFormedReply(receipts[i].reply, parse)
    ensures c in Committed(receipts, capacity) <==> Accepted(receipts, capacity, c) != []
    ensures c in Committed(receipts, capacity) ==>
      exists k: nat :: IsFirstHighest(Accepted(receipts, capacity, c), k)
        && Committed(receipts, capacity)[c].ring == [Accepted(receipts, capacity, c)[k].reply]
  {
    hide CommitPartitionReply, WellFormedReply, IsFirstHighest;
    if receipts != [] {
      var init, last := receipts[..|receipts| - 1], receipts[|receipts| - 1];
      assert forall i :: 0 <= i < |init| ==> init[i] == receipts[i];
      PinnedIsFirst(init, capacity, parse, c);
      CommittedPinned(init, capacity, parse);
      PinnedStep(Committed(init, capacity), Accepted(init, capacity, c), capacity, last, parse, c);
      assert Accepted(init, capacity, c) + [] == Accepted(init, capacity, c);
    }
  }

  lemma PinnedStep(book: Book, accepted: seq<Receipt>, capacity: nat, last: Receipt, parse: Parse, c: nat)
    requires PinnedBook(book, parse) && WellFormedReply(last.reply, parse) && (c in book <==> accepted != [])
    requires c in book ==> exists k: nat :: IsFirstHighest(accepted, k) && book[c].ring == [accepted[k].reply]
    ensures var r := CommitPartitionReply(book, capacity, last.user, last.session, last.reply);
      && (r.Ok? && last.reply.header.client == c ==>
            c in r.value.0 && exists k: nat :: IsFirstHighest(accepted + [last], k) && r.value.0[c].ring == [(accepted + [last])[k].reply])
      && (r.Ok? && last.reply.header.client != c ==> (c in r.value.0 <==> c in book) && (c in book ==> r.value.0[c] == book[c]))
  {
    CommitKeepsPinned(book, capacity, last.user, last.session, last.reply, parse);
    CommitFolds(book, capacity, last.user, last.session, last.reply, c);
    hide CommitPartitionReply, WellFormedReply, SliceOf;
    var more := accepted + [last];
    if c in book {
      assert EntryPinned(c, book[c], parse);
      var k: nat :| IsFirstHighest(accepted, k) && book[c].ring == [accepted[k].reply];
      assert more[k] == accepted[k] && book[c].watermark == accepted[k].reply.header.request;
      if last.reply.header.request <= book[c].watermark {
        assert IsFirstHighest(more, k);
      } else {
        assert IsFirstHighest(more, |accepted|);
      }
    } else {
      assert IsFirstHighest(more, 0);
    }
  }

  /** A receipt is taken exactly when it is a partition's own and its client is the known one, or new with room for it. */
  lemma AcceptsIff(book: Book, capacity: nat, user: nat, session: nat, reply: CachedReply)
    ensures var r := CommitPartitionReply(book, capacity, user, session, reply);
      var c := reply.header.client;
      && (r.Ok? <==>
            && c != 0 && session != 0 && reply.header.commit != 0 && reply.header.operation.IsPartitionReceipt()
            && if c in book then book[c].user == user && book[c].epoch == session else |book| < capacity)
      && (r.Ok? ==> c in r.value.0 && r.value.0[c].user == user && r.value.0[c].epoch == session)
  {
    hide Folded, FindCached;
  }

  /** Over every run, all a client ever got accepted came from one principal under one session. */
  lemma {:induction false} OnePrincipal(receipts: seq<Receipt>, capacity: nat, c: nat)
    ensures c in Committed(receipts, capacity) <==> Accepted(receipts, capacity, c) != []
    ensures forall i :: 0 <= i < |Accepted(receipts, capacity, c)| ==>
      && Accepted(receipts, capacity, c)[i].user == Committed(receipts, capacity)[c].user
      && Accepted(receipts, capacity, c)[i].session == Committed(receipts, capacity)[c].epoch
  {
    hide CommitPartitionReply, SliceOf;
    if receipts != [] {
      var init, last := receipts[..|receipts| - 1], receipts[|receipts| - 1];
      OnePrincipal(init, capacity, c);
      AcceptsIff(Committed(init, capacity), capacity, last.user, last.session, last.reply);
      CommitFolds(Committed(init, capacity), capacity, last.user, last.session, last.reply, c);
      assert Accepted(init, capacity, c) + [] == Accepted(init, capacity, c);
    }
  }

  /**
   * A partition's whole verdict over every run: another principal or session is fenced, a request it
   * never accepted within the window is new, the highest one is answered with its first result under
   * its own operation, and every other one is known applied.
   */
  lemma PartitionAnswersExactly(receipts: seq<Receipt>, capacity: nat, parse: Parse,
                                client: nat, user: nat, session: nat, request: nat, operation: Operation)
    requires forall i :: 0 <= i < |receipts| ==> WellFormedReply(receipts[i].reply, parse)
    ensures var book := Committed(receipts, capacity);
      var requests := Requests(receipts, capacity, client);
      var verdict := CheckPartitionRequest(book, client, user, session, request, operation);
      if client !in book then verdict == New
      else if book[client].user != user || book[client].epoch != session then verdict == Fenced(book[client].epoch, session)
      else
        var e := book[client];
        && |e.ring| == 1 && e.ring[0].header.request == e.watermark && requests != [] && e.watermark == After(requests).watermark
        && (verdict == New <==>
              request > e.watermark || (e.watermark - request < COMMITTED_WINDOW_BITS && request !in requests))
        && (request == e.watermark ==>
              verdict == if e.ring[0].header.operation == operation then Duplicate(e.ring[0]) else OperationMismatch(request))
        && (request < e.watermark && verdict != New ==> verdict == AlreadyApplied(request, e.watermark))
  {
    hide Committed, Requests, After, WellFormedReply;
    CommittedPinned(receipts, capacity, parse);
    CommittedWindow(receipts, capacity, client);
    var book := Committed(receipts, capacity);
    if client in book {
      assert EntryPinned(client, book[client], parse);
      CheckedBySet(Requests(receipts, capacity, client), request);
      WatermarkIn(Requests(receipts, capacity, client));
      OneReply(book[client].ring, request);
    }
  }

  lemma WatermarkIn(requests: seq<nat>)
    requires requests != []
    ensures After(requests).watermark in requests
  {
    hide After, Bit;
    WindowRefinesSet(requests);
    assert After(requests).watermark in Values(requests);
  }

  lemma OneReply(ring: seq<CachedReply>, request: nat)
    requires |ring| == 1
    ensures FindCached(ring, request) == if ring[0].header.request == request then Some(ring[0]) else None
  {
    assert ring[1..] == [];
  }

  // ----- Transfer -----

  /** The list names every entry once, ascending by client. */
  ghost predicate Lists(ws: seq<DedupWatermark>, book: Book) {
    && (forall i :: 0 <= i < |ws| ==> ws[i].client in book && ws[i] == Exported(book[ws[i].client]))
    && (forall i, j :: 0 <= i < j < |ws| ==> ws[i].client < ws[j].client)
    && (forall c :: c in book ==> exists i :: 0 <= i < |ws| && ws[i].client == c)
  }

  /** The replacement table after the first `k` watermarks. */
  function InstalledPrefix(ws: seq<DedupWatermark>, k: nat, capacity: nat, parse: Parse): Result<Book, TableError>
    requires k <= |ws|
  {
    if k == 0 then Ok(map[])
    else
      var before := InstalledPrefix(ws, k - 1, capacity, parse);
      var w := ws[k - 1];
      if before.Err? then before
      else if k - 1 >= capacity then Err(TooManyEntries(k, capacity))
      else if w.client == 0 || w.session == 0 || !Bit(w.window, 0) then Err(InvalidWatermark(w.client))
      else if w.client in before.value then Err(DuplicateClientId(k - 1, w.client))
      else
        var e := Installed(w, parse);
        if e.Err? then Err(e.error) else Ok(before.value[w.client := e.value])
  }

  function InstallWatermarks(ws: seq<DedupWatermark>, capacity: nat, parse: Parse): Result<Book, TableError> {
    if capacity == 0 || capacity > CLIENTS_TABLE_SLOT_MAX then Err(InvalidCapacity(capacity))
    else InstalledPrefix(ws, |ws|, capacity, parse)
  }

  lemma {:induction false} WithLowBit(word: nat)
    requires Bit(word, 0)
    ensures WithBit(word, 0) == word
  {
  }

  /** An exported entry installs as itself. */
  lemma ExportInstalls(c: nat, e: Entry, parse: Parse)
    requires EntryPinned(c, e, parse)
    ensures Installed(Exported(e), parse) == Ok(e)
  {
    WithLowBit(e.window);
    assert e.ring == [e.ring[0]];
    assert Bit(e.window, e.watermark - e.ring[0].header.request);
  }

  ghost function Clients(ws: seq<DedupWatermark>, k: nat): set<nat>
    requires k <= |ws|
  {
    set i | 0 <= i < k :: ws[i].client
  }

  /** The part of the table the first `k` watermarks cover. */
  ghost function Covered(book: Book, ws: seq<DedupWatermark>, k: nat): Book
    requires k <= |ws|
  {
    map c | c in book && c in Clients(ws, k) :: book[c]
  }

  lemma CoveredNext(book: Book, ws: seq<DedupWatermark>, k: nat)
    requires Lists(ws, book) && k < |ws|
    ensures ws[k].client !in Covered(book, ws, k)
    ensures Covered(book, ws, k + 1) == Covered(book, ws, k)[ws[k].client := book[ws[k].client]]
  {
    hide Exported;
    ClientsNext(ws, k);
  }

  lemma {:induction false} PrefixInstalls(book: Book, ws: seq<DedupWatermark>, k: nat, capacity: nat, parse: Parse)
    requires PinnedBook(book, parse) && Lists(ws, book) && k <= |ws| <= capacity
    ensures InstalledPrefix(ws, k, capacity, parse) == Ok(Covered(book, ws, k))
  {
    hide Covered, Clients, Installed, Bit, Lists, PinnedBook;
    if k == 0 {
      NothingCovered(book, ws);
    } else {
      PrefixInstalls(book, ws, k - 1, capacity, parse);
      CoveredNext(book, ws, k - 1);
      ListedInstalls(book, ws, k - 1, parse);
    }
  }

  lemma NothingCovered(book: Book, ws: seq<DedupWatermark>)
    ensures Covered(book, ws, 0) == map[]
  {
  }

  lemma ListedInstalls(book: Book, ws: seq<DedupWatermark>, i: nat, parse: Parse)
    requires PinnedBook(book, parse) && Lists(ws, book) && i < |ws|
    ensures ws[i].client in book && ws[i].client != 0 && ws[i].session != 0 && Bit(ws[i].window, 0)
    ensures Installed(ws[i], parse) == Ok(book[ws[i].client])
  {
    hide Bit, Installed;
    assert EntryPinned(ws[i].client, book[ws[i].client], parse);
    ExportInstalls(ws[i].client, book[ws[i].client], parse);
  }

  lemma ListLength(ws: seq<DedupWatermark>, book: Book)
    requires Lists(ws, book)
    ensures |ws| == |book| && Covered(book, ws, |ws|) == book
  {
    hide Exported;
    ClientsCount(ws, |ws|);
    assert Clients(ws, |ws|) == book.Keys;
    assert |book| == |book.Keys|;
  }

  lemma {:induction false} ClientsCount(ws: seq<DedupWatermark>, k: nat)
    requires k <= |ws| && forall i, j :: 0 <= i < j < |ws| ==> ws[i].client < ws[j].client
    ensures |Clients(ws, k)| == k
  {
    if k > 0 {
      ClientsCount(ws, k - 1);
      ClientsNext(ws, k - 1);
    }
  }

  /** A table reached by partition commits installs elsewhere exactly, so every verdict and reply survives. */
  lemma ReceiptsTransferExactly(receipts: seq<Receipt>, capacity: nat, parse: Parse, ws: seq<DedupWatermark>)
    requires forall i :: 0 <= i < |receipts| ==> WellFormedReply(receipts[i].reply, parse)
    requires 0 < capacity <= CLIENTS_TABLE_SLOT_MAX && Lists(ws, Committed(receipts, capacity))
    ensures InstallWatermarks(ws, capacity, parse) == Ok(Committed(receipts, capacity))
  {
    hide InstalledPrefix, Committed, Lists, PinnedBook, Covered;
    var book := Committed(receipts, capacity);
    CommittedPinned(receipts, capacity, parse);
    ListLength(ws, book);
    PrefixInstalls(book, ws, |ws|, capacity, parse);
  }

  /** What installs is what was exported, and its receipt is of a request the window holds. */
  lemma InstalledIsExported(w: DedupWatermark, parse: Parse)
    requires Installed(w, parse).Ok?
    ensures var e := Installed(w, parse).value;
      && Exported(e) == w && e.client != 0 && e.epoch != 0 && e.endedOp.None? && e.attachment.None? && Bit(e.window, 0)
      && |e.ring| == 1 && WellFormedReply(e.ring[0], parse)
      && var h := e.ring[0].header;
      && h.client == e.client && h.commit == e.latestCommit && h.commit != 0 && h.operation.IsPartitionReceipt()
      && h.request <= e.watermark && e.watermark - h.request < COMMITTED_WINDOW_BITS && Bit(e.window, e.watermark - h.request)
  {
    WithLowBit(w.window);
    hide Bit, WithBit;
  }

  /** The first `k` watermarks, and no others, are in the table, each as exported. */
  ghost predicate Holds(book: Book, ws: seq<DedupWatermark>, k: nat, parse: Parse) {
    && k <= |ws| && |book| == k
    && (forall i :: 0 <= i < k ==> HoldsOne(book, ws[i], parse))
    && book.Keys == Clients(ws, k)
  }

  ghost predicate HoldsOne(book: Book, w: DedupWatermark, parse: Parse) {
    w.client in book && Installed(w, parse) == Ok(book[w.client])
  }

  lemma {:induction false} PrefixHolds(ws: seq<DedupWatermark>, k: nat, capacity: nat, parse: Parse)
    requires k <= |ws| && InstalledPrefix(ws, k, capacity, parse).Ok?
    ensures Holds(InstalledPrefix(ws, k, capacity, parse).value, ws, k, parse) && k <= capacity
  {
    hide Installed, Bit, Holds;
    if k == 0 {
      HoldsNothing(ws, parse);
    } else {
      PrefixHolds(ws, k - 1, capacity, parse);
      HoldsNext(InstalledPrefix(ws, k - 1, capacity, parse).value, ws, k - 1, parse);
    }
  }

  lemma HoldsNothing(ws: seq<DedupWatermark>, parse: Parse)
    ensures Holds(map[], ws, 0, parse)
  {
  }

  lemma HoldsNext(book: Book, ws: seq<DedupWatermark>, k: nat, parse: Parse)
    requires k < |ws| && Holds(book, ws, k, parse) && ws[k].client !in book && Installed(ws[k], parse).Ok?
    ensures Holds(book[ws[k].client := Installed(ws[k], parse).value], ws, k + 1, parse)
  {
    hide Installed, HoldsOne, Clients;
    var after := book[ws[k].client := Installed(ws[k], parse).value];
    KeysNext(book, ws, k, Installed(ws[k], parse).value);
    forall i | 0 <= i < k + 1 ensures HoldsOne(after, ws[i], parse) {
      StillHeld(book, ws[k].client, Installed(ws[k], parse).value, ws[i], i < k, parse);
    }
  }

  lemma KeysNext(book: Book, ws: seq<DedupWatermark>, k: nat, e: Entry)
    requires k < |ws| && book.Keys == Clients(ws, k) && ws[k].client !in book
    ensures var after := book[ws[k].client := e]; after.Keys == Clients(ws, k + 1) && |after| == |book| + 1
  {
    hide Clients;
    ClientsNext(ws, k);
    var after := book[ws[k].client := e];
    assert after.Keys == book.Keys + {ws[k].client};
    assert |after| == |after.Keys| && |book| == |book.Keys|;
  }

  lemma ClientsNext(ws: seq<DedupWatermark>, k: nat)
    requires k < |ws|
    ensures Clients(ws, k + 1) == Clients(ws, k) + {ws[k].client}
  {
    var before, after := Clients(ws, k), Clients(ws, k + 1);
    forall c | c in after ensures c in before || c == ws[k].client {
      var i :| 0 <= i < k + 1 && ws[i].client == c;
    }
    assert before <= after && ws[k].client in after;
  }

  lemma StillHeld(book: Book, c: nat, e: Entry, w: DedupWatermark, earlier: bool, parse: Parse)
    requires c !in book && if earlier then HoldsOne(book, w, parse) else w.client == c && Installed(w, parse) == Ok(e)
    ensures HoldsOne(book[c := e], w, parse)
  {
    hide Installed;
  }

  /** An install that succeeds holds exactly the watermarks given, one a client, each as it was exported. */
  lemma InstallAcceptsOnlyExports(ws: seq<DedupWatermark>, capacity: nat, parse: Parse)
    requires InstallWatermarks(ws, capacity, parse).Ok?
    ensures var book := InstallWatermarks(ws, capacity, parse).value;
      && |book| == |ws| <= capacity && 0 < capacity <= CLIENTS_TABLE_SLOT_MAX
      && (forall i :: 0 <= i < |ws| ==> ws[i].client in book && Exported(book[ws[i].client]) == ws[i])
      && (forall i, j :: 0 <= i < j < |ws| ==> ws[i].client != ws[j].client)
  {
    hide InstalledPrefix, Installed, Exported;
    PrefixHolds(ws, |ws|, capacity, parse);
    var book := InstallWatermarks(ws, capacity, parse).value;
    forall i | 0 <= i < |ws| ensures ws[i].client in book && Exported(book[ws[i].client]) == ws[i] {
      assert HoldsOne(book, ws[i], parse);
      InstalledIsExported(ws[i], parse);
    }
    assert |book| == |book.Keys|;
    DistinctByCount(ws, |ws|);
  }

  /** As many clients as watermarks means no client twice. */
  lemma {:induction false} DistinctByCount(ws: seq<DedupWatermark>, k: nat)
    requires k <= |ws|
    ensures |Clients(ws, k)| <= k
    ensures |Clients(ws, k)| == k ==> forall i, j :: 0 <= i < j < k ==> ws[i].client != ws[j].client
  {
    if k > 0 {
      DistinctByCount(ws, k - 1);
      ClientsNext(ws, k - 1);
      if ws[k - 1].client in Clients(ws, k - 1) {
        assert Clients(ws, k) == Clients(ws, k - 1);
      }
      assert forall i :: 0 <= i < k - 1 ==> ws[i].client in Clients(ws, k - 1);
    }
  }
}
