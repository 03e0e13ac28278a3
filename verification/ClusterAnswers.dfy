/**
 * What every replica of every run answers a client, said without the lookup: by the replies its
 * ring holds, by the order of epochs, and by the ops of the log it has applied.
 */
module ClusterAnswers {
  import opened Common
  import opened ClientEntry
  import opened ClientBook
  import opened MetadataLog
  import opened AtMostOnce
  import opened Protection
  import opened Preflight
  import opened Cluster
  import opened ClusterRuns
  import opened SessionLaws

  // ----- By the ring -----

  predicate InRing(e: Entry, i: nat, request: nat) {
    i < |e.ring| && e.ring[i].header.request == request
  }

  /** A live session: epochs fence, a higher request is new, and a lower one is answered from the ring or known applied. */
  ghost predicate AnswersLive(e: Entry, epoch: nat, request: nat, operation: Operation, status: RequestStatus) {
    && (epoch < e.epoch ==> status == Fenced(e.epoch, epoch))
    && (epoch > e.epoch ==> status == EpochAhead(e.epoch, epoch))
    && (epoch == e.epoch ==>
          && (status.New? <==> request > e.watermark)
          && (status == AlreadyApplied(request, e.watermark) <==>
                request <= e.watermark && forall i: nat :: !InRing(e, i, request))
          && forall i: nat :: InRing(e, i, request) ==>
               status == if e.ring[i].header.operation.RequestOperation() == operation.RequestOperation()
                         then Duplicate(e.ring[i]) else OperationMismatch(request))
  }

  /** An ended session: only its own Logout is answered, and only under its own epoch. */
  ghost predicate AnswersEnded(e: Entry, epoch: nat, request: nat, operation: Operation, status: RequestStatus) {
    && (status == NoSession <==>
          epoch != e.epoch || forall i: nat :: InRing(e, i, request) ==> !e.ring[i].header.operation.Logout?)
    && forall i: nat :: epoch == e.epoch && InRing(e, i, request) && e.ring[i].header.operation.Logout? ==>
         status == if operation.Logout? then Duplicate(e.ring[i]) else OperationMismatch(request)
  }

  lemma EntryAnswers(e: Entry, epoch: nat, request: nat, operation: Operation)
    requires ValidProtection(e)
    ensures var status := CheckEntry(e, epoch, request, operation);
      if e.endedOp.None? then AnswersLive(e, epoch, request, operation, status) else AnswersEnded(e, epoch, request, operation, status)
  {
    hide ValidProtection, Verdict, AnswersLive, AnswersEnded, FindCached;
    RingFinds(e, request);
    LiveVerdict(e, epoch, request, operation, FindCached(e.ring, request));
    EndedVerdict(e, epoch, request, operation, FindCached(e.ring, request));
  }

  /** The reply is the ring's one reply to the request, if it has one. */
  ghost predicate Finds(e: Entry, request: nat, cached: Option<CachedReply>) {
    && (cached.None? ==> forall i: nat :: !InRing(e, i, request))
    && (cached.Some? ==> exists i: nat :: InRing(e, i, request) && e.ring[i] == cached.value)
    && forall i: nat :: InRing(e, i, request) ==> cached == Some(e.ring[i]) && request <= e.watermark
  }

  lemma RingFinds(e: Entry, request: nat)
    requires ValidProtection(e)
    ensures Finds(e, request, FindCached(e.ring, request))
  {
    assert Ordered(e.ring);
    hide FindCached, ValidProtection, Ordered;
    forall i: nat | InRing(e, i, request) ensures FindCached(e.ring, request) == Some(e.ring[i]) && request <= e.watermark {
      FindCachedIs(e.ring, i);
      RingBelowWatermark(e, i);
    }
    if FindCached(e.ring, request).Some? {
      var i :| 0 <= i < |e.ring| && e.ring[i] == FindCached(e.ring, request).value;
      assert InRing(e, i, request);
    }
  }

  lemma LiveVerdict(e: Entry, epoch: nat, request: nat, operation: Operation, cached: Option<CachedReply>)
    requires Finds(e, request, cached)
    ensures AnswersLive(e, epoch, request, operation, Verdict(false, e.epoch, e.watermark, cached, epoch, request, operation))
  {
    hide Operation.RequestOperation, InRing;
  }

  lemma EndedVerdict(e: Entry, epoch: nat, request: nat, operation: Operation, cached: Option<CachedReply>)
    requires Finds(e, request, cached)
    ensures AnswersEnded(e, epoch, request, operation, Verdict(true, e.epoch, e.watermark, cached, epoch, request, operation))
  {
    LogoutAnswers(operation);
    hide Operation.RequestOperation, InRing;
  }

  lemma LogoutAnswers(operation: Operation)
    ensures Logout.RequestOperation() == operation.RequestOperation() <==> operation.Logout?
  {
  }

  lemma RingBelowWatermark(e: Entry, i: nat)
    requires ValidProtection(e) && i < |e.ring|
    ensures e.ring[i].header.request <= e.watermark
  {
  }

  /** Every replica of every run answers exactly so. */
  lemma RunsAnswerExactly(replicas: nat, primary: nat, capacity: nat, events: seq<Event>, r: nat,
                          client: nat, epoch: nat, request: nat, operation: Operation)
    requires primary < replicas && Inv(Start(replicas, primary, capacity))
    requires r < |Run(Start(replicas, primary, capacity), events).replicas|
    ensures var book := Run(Start(replicas, primary, capacity), events).replicas[r].book;
      var status := CheckRequest(book, client, epoch, request, operation);
      if client !in book then status == NoSession
      else if book[client].endedOp.None? then AnswersLive(book[client], epoch, request, operation, status)
      else AnswersEnded(book[client], epoch, request, operation, status)
  {
    hide Run, Disciplined, BookAt, SameBook, LogoutLast, EntrySourced, ValidProtection, CheckEntry, AnswersLive, AnswersEnded;
    var t := Run(Start(replicas, primary, capacity), events);
    assert ReplicaOk(t, t.replicas[r]);
    var book := t.replicas[r].book;
    if client in book {
      assert EntryProtected(client, book[client], t.log, t.replicas[r].applied);
      EntryAnswers(book[client], epoch, request, operation);
    }
  }

  /** The operations preparation may turn a client's request into. */
  predicate Projects(asked: Operation, prepared: Operation) {
    || asked == prepared
    || (asked.CreateTopic? && prepared.CreateTopicWithAssignments?)
    || (asked.CreatePartitions? && prepared.CreatePartitionsWithAssignments?)
    || (asked.UpdateResource? && (prepared.UpdateStreamResolved? || prepared.UpdateTopicResolved? || prepared.UpdateUserResolved?))
    || (asked.DeleteSegments? && prepared.TruncatePartition?)
  }

  /** A retry finds the reply of what its request was prepared as, whatever that was. */
  lemma RetrySurvivesPreparation(e: Entry, i: nat, operation: Operation)
    requires ValidProtection(e) && e.endedOp.None? && i < |e.ring| && Projects(operation, e.ring[i].header.operation)
    ensures CheckEntry(e, e.epoch, e.ring[i].header.request, operation) == Duplicate(e.ring[i])
  {
    hide ValidProtection, CheckEntry;
    EntryAnswers(e, e.epoch, e.ring[i].header.request, operation);
    assert InRing(e, i, e.ring[i].header.request);
  }

  // ----- By the log -----

  /** Op `k` of the log ran under this client's epoch. */
  predicate Ran(log: seq<LogOp>, k: nat, client: nat, epoch: nat) {
    0 < k <= |log| && log[k - 1].Stamped() && log[k - 1].client == client && log[k - 1].session == epoch
  }

  /** The watermark of a live session is the highest number its applied ops ran under. */
  lemma WatermarkIsHighest(book: Book, log: seq<LogOp>, capacity: nat, n: nat, c: nat)
    requires Reflects(book, log, capacity, n) && Disciplined(log, capacity) && c in book && book[c].endedOp.None?
    ensures forall k: nat :: k <= n && Ran(log, k, c, book[c].epoch) ==> log[k - 1].RequestNumber() <= book[c].watermark
    ensures book[c].watermark == 0 ||
      exists k: nat :: k <= n && Ran(log, k, c, book[c].epoch) && log[k - 1].RequestNumber() == book[c].watermark
  {
    hide BookAt, Protected, Disciplined;
    assert SameEntry(book[c], BookAt(log, capacity, n).value[c]);
    forall k: nat | k <= n && Ran(log, k, c, book[c].epoch) ensures log[k - 1].RequestNumber() <= book[c].watermark {
      RanIsSettled(log, capacity, n, k);
    }
    assert EntryProtected(c, book[c], log, n) by { ProtectedEntry(book, log, n, c); }
    WatermarkRan(c, book[c], log, n);
  }

  lemma ProtectedEntry(book: Book, log: seq<LogOp>, n: nat, c: nat)
    requires Protected(book, log, n) && c in book
    ensures EntryProtected(c, book[c], log, n)
  {
  }

  lemma RanIsSettled(log: seq<LogOp>, capacity: nat, n: nat, k: nat)
    requires Disciplined(log, capacity) && 0 < k <= n <= |log| && log[k - 1].Stamped() && BookAt(log, capacity, n).Some?
    ensures Settled(BookAt(log, capacity, n).value, log[k - 1])
  {
    hide BookAt, Settled, Admitted;
    var m: nat :| Admitted(log, capacity, k - 1, m);
    SettledEverAfter(log, capacity, k - 1, m, n);
  }

  lemma WatermarkRan(c: nat, e: Entry, log: seq<LogOp>, n: nat)
    requires EntryProtected(c, e, log, n)
    ensures e.watermark == 0 || exists k: nat :: k <= n && Ran(log, k, c, e.epoch) && log[k - 1].RequestNumber() == e.watermark
  {
    hide LogoutLast;
    var last := |e.ring| - 1;
    assert FromLog(log, n, e.client, e.epoch, e.ring[last]);
    var k := e.ring[last].header.commit;
    if !log[k - 1].RegisterOp? {
      assert Ran(log, k, c, e.epoch);
    }
  }

  /**
   * Whatever the run, a live session's request is new to a replica exactly when every op the session
   * ran, as far as the replica has applied the log, had a lower number.
   */
  lemma RunsAdmitByTheLog(replicas: nat, primary: nat, capacity: nat, events: seq<Event>, r: nat,
                          client: nat, request: nat, operation: Operation)
    requires primary < replicas && Inv(Start(replicas, primary, capacity))
    requires var t := Run(Start(replicas, primary, capacity), events);
      r < |t.replicas| && client in t.replicas[r].book && t.replicas[r].book[client].endedOp.None?
    ensures var t := Run(Start(replicas, primary, capacity), events);
      var e := t.replicas[r].book[client];
      CheckRequest(t.replicas[r].book, client, e.epoch, request, operation).New? <==>
        0 < request && forall k: nat :: k <= t.replicas[r].applied && Ran(t.log, k, client, e.epoch) ==> t.log[k - 1].RequestNumber() < request
  {
    hide Run, Disciplined, Reflects, LogOp.RequestNumber;
    var t := Run(Start(replicas, primary, capacity), events);
    assert ReplicaOk(t, t.replicas[r]);
    WatermarkIsHighest(t.replicas[r].book, t.log, t.capacity, t.replicas[r].applied, client);
    RunsAnswerExactly(replicas, primary, capacity, events, r, client, t.replicas[r].book[client].epoch, request, operation);
  }

  // ----- Account changes -----

  /**
   * Whatever the run, a replica that has applied an account change answers no request of a session
   * that user had before it: the session is gone, superseded, or ended at that very op.
   */
  lemma RunsRevoke(replicas: nat, primary: nat, capacity: nat, events: seq<Event>, r: nat, n: nat, c: nat)
    requires primary < replicas && Inv(Start(replicas, primary, capacity))
    requires var t := Run(Start(replicas, primary, capacity), events);
      r < |t.replicas| && 0 < n <= t.replicas[r].applied <= |t.log| && t.log[n - 1].RequestOp? && BookAt(t.log, capacity, n - 1).Some?
    requires var t := Run(Start(replicas, primary, capacity), events);
      var before := BookAt(t.log, capacity, n - 1).value;
      c in before && before[c].endedOp.None? && t.log[n - 1].revokes == Some(before[c].user) && Acts(before, t.log[n - 1])
    ensures var t := Run(Start(replicas, primary, capacity), events);
      var e := BookAt(t.log, capacity, n - 1).value[c].epoch;
      && OverSince(t.replicas[r].book, c, e, n)
      && forall request: nat, operation: Operation :: !CheckRequest(t.replicas[r].book, c, e, request, operation).New?
  {
    hide Run, Disciplined, BookAt, Protected, TailOf, Topped;
    var t := Run(Start(replicas, primary, capacity), events);
    assert ReplicaOk(t, t.replicas[r]);
    RevokedInLog(t.log, capacity, n, t.replicas[r].applied, c);
  }

  // ----- Who appends -----

  /** The primary's gate is open: it leads, undisturbed, past its recovery barrier. */
  predicate GateOpen(s: State, flags: Flags)
    requires s.primary < |s.replicas|
  {
    && flags.isPrimary && !flags.hasCeded && flags.isNormal && !flags.isTransferring
    && flags.barrier <= s.replicas[s.primary].known
  }

  /**
   * Client requests, registrations and expiries enter the log only through an open gate on a primary
   * that has applied all it knows committed; a logout needs the gate but not the catching up.
   */
  lemma OnlyTheOpenPrimaryAppends(s: State, event: Event)
    requires Inv(s) && (event.Arrive? || event.Promote? || event.LogOut? || event.Expire?)
    ensures var t := Stepped(s, event);
      && s.log <= t.log && |t.log| <= |s.log| + 1
      && (t.log != s.log ==> GateOpen(s, event.flags))
      && (t.log != s.log && !event.LogOut? ==> s.replicas[s.primary].applied == s.replicas[s.primary].known)
  {
    hide Inv, CheckRequest, RegisteredSession, Shown, ParkedPendings, QueueHas;
    InvSeeded(s);
  }
}
