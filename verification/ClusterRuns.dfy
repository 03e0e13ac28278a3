/**
 * Every run of the cluster executes each client request at most once, and its replicas'
 * tables always agree with the log.
 */
module ClusterRuns {
  import opened Common
  import opened ClientEntry
  import opened ClientBook
  import opened MetadataLog
  import opened AtMostOnce
  import opened Protection
  import opened Recovery
  import opened Preflight
  import opened Cluster

  // ----- The log changes only past what replicas read -----

  lemma ReflectsKept(book: Book, log: seq<LogOp>, other: seq<LogOp>, capacity: nat, n: nat)
    requires Reflects(book, log, capacity, n) && n <= |other| && log[..n] == other[..n]
    ensures Reflects(book, other, capacity, n)
  {
    hide BookAt, SameBook, Protected;
    BookAtPrefix(log, other, capacity, n);
    ProtectedPrefix(book, log, other, n);
  }

  lemma AdmittedKept(log: seq<LogOp>, other: seq<LogOp>, capacity: nat, i: nat, m: nat)
    requires Admitted(log, capacity, i, m) && i < |other| && log[..i + 1] == other[..i + 1]
    ensures Admitted(other, capacity, i, m)
  {
    hide BookAt, StillStanding;
    assert forall j :: 0 <= j <= i ==> log[j] == log[..i + 1][j] == other[j];
    assert log[..m] == log[..i + 1][..m] == other[..m];
    BookAtPrefix(log, other, capacity, m);
  }

  /** Every op of `log` below `n` keeps its admission in a log that agrees so far. */
  lemma DisciplineKept(log: seq<LogOp>, other: seq<LogOp>, capacity: nat, n: nat)
    requires Disciplined(log, capacity) && n <= |log| && n <= |other| && log[..n] == other[..n]
    ensures forall i :: 0 <= i < n && other[i].Stamped() ==> exists m :: Admitted(other, capacity, i, m)
  {
    hide Admitted;
    forall i | 0 <= i < n && other[i].Stamped() ensures exists m :: Admitted(other, capacity, i, m) {
      assert log[i] == log[..n][i] == other[i];
      assert log[..i + 1] == log[..n][..i + 1] == other[..i + 1];
      var m: nat :| Admitted(log, capacity, i, m);
      AdmittedKept(log, other, capacity, i, m);
    }
  }

  lemma DisciplineAppended(log: seq<LogOp>, op: LogOp, capacity: nat, m: nat)
    requires Disciplined(log, capacity)
    requires op.Stamped() ==> Admitted(log + [op], capacity, |log|, m)
    ensures Disciplined(log + [op], capacity)
  {
    hide Admitted;
    assert (log + [op])[..|log|] == log[..|log|];
    DisciplineKept(log, log + [op], capacity, |log|);
  }

  lemma DisciplineTruncated(log: seq<LogOp>, capacity: nat, keep: nat)
    requires Disciplined(log, capacity) && keep <= |log|
    ensures Disciplined(log[..keep], capacity)
  {
    hide Admitted;
    assert log[..keep][..keep] == log[..keep];
    DisciplineKept(log, log[..keep], capacity, keep);
  }

  // ----- Admission -----

  /** An empty pipeline for the client means none of its ops is past the shown frontier. */
  lemma NothingShown(log: seq<LogOp>, from: nat, client: nat)
    requires from <= |log| && !QueueHas(Shown(log, from), client)
    ensures forall j :: from <= j < |log| ==> !log[j].From(client)
  {
    forall j | from <= j < |log| ensures !log[j].From(client) {
      assert Shown(log, from)[j - from] == PendingOf(log[j]);
    }
  }

  /** What a primary admitted against its own table, the log admits too. */
  lemma AdmissionHolds(s: State, from: nat, op: LogOp)
    requires Inv(s) && op.Stamped() && op.client != RESERVED_CLIENT_ID
    requires var r := s.replicas[s.primary];
      && from <= r.applied && !QueueHas(Shown(s.log, from), op.client)
      && op.client in r.book && r.book[op.client].endedOp.None? && StillStanding(r.book, op)
    ensures Admitted(s.log + [op], s.capacity, |s.log|, s.replicas[s.primary].applied)
  {
    hide BookAt, Disciplined, Protected;
    var r := s.replicas[s.primary];
    assert ReplicaOk(s, r);
    var log := s.log + [op];
    assert log[..r.applied] == s.log[..r.applied];
    BookAtPrefix(s.log, log, s.capacity, r.applied);
    assert SameEntry(r.book[op.client], BookAt(s.log, s.capacity, r.applied).value[op.client]);
    NothingShown(s.log, from, op.client);
  }

  // ----- Steps -----

  lemma ReplicasKept(s: State, t: State)
    requires Inv(s) && t.replicas == s.replicas && t.capacity == s.capacity
    requires s.committed <= t.committed <= |t.log| && s.log[..s.committed] == t.log[..s.committed]
    ensures forall i :: 0 <= i < |t.replicas| ==> ReplicaOk(t, t.replicas[i])
  {
    hide Reflects, Disciplined;
    forall i | 0 <= i < |t.replicas| ensures ReplicaOk(t, t.replicas[i]) {
      var r := s.replicas[i];
      assert ReplicaOk(s, r);
      assert s.log[..r.applied] == s.log[..s.committed][..r.applied] == t.log[..r.applied];
      assert s.log[..r.savedApplied] == s.log[..s.committed][..r.savedApplied] == t.log[..r.savedApplied];
      ReflectsKept(r.book, s.log, t.log, s.capacity, r.applied);
      ReflectsKept(r.savedBook, s.log, t.log, s.capacity, r.savedApplied);
    }
  }

  lemma AppendKeepsInv(s: State, t: State, op: LogOp, m: nat)
    requires Inv(s) && t == s.(log := s.log + [op], parked := t.parked)
    requires Proper(op) && (op.Stamped() ==> Admitted(t.log, s.capacity, |s.log|, m))
    ensures Inv(t)
  {
    hide ReplicaOk, Disciplined, Admitted;
    assert t.log[..s.committed] == s.log[..s.committed];
    ReplicasKept(s, t);
    DisciplineAppended(s.log, op, s.capacity, m);
  }

  lemma AdmitKeepsInv(s: State, flags: Flags, parked: seq<Arrival>, a: Arrival, queueFull: bool)
    requires Inv(s)
    ensures Inv(Admit(s, flags, parked, a, queueFull))
  {
    hide Disciplined, Reflects, RequestPreflight, RegisterPreflight, Shown, BookAt;
    var t := Admit(s, flags, parked, a, queueFull);
    var op := Prepared(s, flags, parked, a);
    var r := s.replicas[s.primary];
    if op.None? || queueFull {
      KeptByParking(s, t);
    } else {
      assert ReplicaOk(s, r);
      if op.value.Stamped() {
        AdmissionHolds(s, Min(Min(flags.shownFrom, r.known), |s.log|), op.value);
      }
      AppendKeepsInv(s, t, op.value, r.applied);
    }
  }

  lemma KeptByParking(s: State, t: State)
    requires Inv(s) && t == s.(parked := t.parked)
    ensures Inv(t)
  {
    hide Disciplined;
    ReplicasKept(s, t);
  }

  lemma ReplicaKeepsInv(s: State, i: nat, r: Replica)
    requires Inv(s) && i < |s.replicas| && ReplicaOk(s, r)
    ensures Inv(s.(replicas := s.replicas[i := r]))
  {
    hide Disciplined, Reflects;
    var t := s.(replicas := s.replicas[i := r]);
    forall k | 0 <= k < |t.replicas| ensures ReplicaOk(t, t.replicas[k]) {
      assert ReplicaOk(s, if k == i then r else s.replicas[k]);
    }
  }

  /** The entry an op was admitted against is still there, as any agreeing replica sees it. */
  lemma StandsHere(book: Book, log: seq<LogOp>, capacity: nat, n: nat)
    requires Disciplined(log, capacity) && Reflects(book, log, capacity, n) && n < |log| && log[n].Stamped()
    ensures log[n].client != RESERVED_CLIENT_ID && StillStanding(book, log[n])
  {
    hide BookAt, Protected, Admitted, Topped;
    var m: nat :| Admitted(log, capacity, n, m);
    AdmittedFacts(log, capacity, n, m);
    StandsUntilApplied(log, capacity, n, m, n);
  }

  lemma ApplyReflects(book: Book, log: seq<LogOp>, capacity: nat, n: nat)
    requires Reflects(book, log, capacity, n) && n < |log| && Seeded(book) && Disciplined(log, capacity) && Proper(log[n])
    ensures var after := ApplyOp(book, capacity, n + 1, log[n]);
            after.Some? ==> Reflects(after.value, log, capacity, n + 1)
  {
    hide ApplyOp, SameBook, Seeded, Disciplined, Protected, StillStanding;
    ApplySame(book, BookAt(log, capacity, n).value, capacity, n + 1, log[n]);
    if log[n].Stamped() {
      StandsHere(book, log, capacity, n);
    }
    ApplyProtected(book, log, capacity, n);
  }

  lemma RecoveredReflects(book: Book, log: seq<LogOp>, capacity: nat, n: nat, depth: nat)
    requires Reflects(book, log, capacity, n) && 0 < depth
    ensures Reflects(Recovered(book, depth), log, capacity, n)
  {
    hide BookAt, SameBook, Protected;
    RecoveredSame(book, BookAt(log, capacity, n).value, depth);
    RecoveredProtected(book, log, n, depth);
  }

  ghost predicate PrimaryStep(event: Event) {
    event.Arrive? || event.Wait? || event.Promote? || event.LogOut? || event.Expire? || event.Internal? || event.Commit? || event.ViewChange?
  }

  lemma ReplicaStepKeepsInv(s: State, event: Event)
    requires Inv(s) && !PrimaryStep(event) && forall r :: 0 <= r < |s.replicas| ==> Seeded(s.replicas[r].book)
    ensures Inv(Next(s, event))
  {
    hide Reflects, ApplyOp, Recovered, Inv, Disciplined, Proper;
    InvReplicas(s);
    if event.replica < |s.replicas| {
      var i := event.replica;
      var r := s.replicas[i];
      match event
      case Learn(_, known) =>
        if r.known <= known <= s.committed {
          ReplicaKeepsInv(s, i, r.(known := known));
        }
      case Apply(_) =>
        if r.applied < r.known && r.applied < |s.log| {
          ApplyReflects(r.book, s.log, s.capacity, r.applied);
          var book := ApplyOp(r.book, s.capacity, r.applied + 1, s.log[r.applied]);
          if book.Some? {
            ReplicaKeepsInv(s, i, r.(applied := r.applied + 1, book := book.value));
          }
        }
      case Checkpoint(_, depth) =>
        if 0 < depth {
          RecoveredReflects(r.book, s.log, s.capacity, r.applied, depth);
          ReplicaKeepsInv(s, i, r.(savedApplied := r.applied, savedBook := Recovered(r.book, depth)));
        }
      case Restart(_) =>
        ReplicaKeepsInv(s, i, r.(applied := r.savedApplied, known := r.savedApplied, book := r.savedBook));
      case Transfer(_, donor, depth) =>
        if donor < |s.replicas| && 0 < depth && r.applied <= s.replicas[donor].applied {
          var d := s.replicas[donor];
          RecoveredReflects(d.book, s.log, s.capacity, d.applied, depth);
          ReplicaKeepsInv(s, i, r.(applied := d.applied, known := Max(r.known, d.applied), book := Recovered(d.book, depth)));
        }
    }
  }

  lemma InvReplicas(s: State)
    requires Inv(s)
    ensures s.primary < |s.replicas| && forall k :: 0 <= k < |s.replicas| ==> ReplicaOk(s, s.replicas[k])
    ensures Disciplined(s.log, s.capacity) && forall i :: 0 <= i < |s.log| ==> Proper(s.log[i])
  {
    hide ReplicaOk, Disciplined;
  }

  lemma LogOutKeepsInv(s: State, client: nat, session: nat, request: nat, body: seq<Byte>, flags: Flags, queueFull: bool)
    requires Inv(s) && forall r :: 0 <= r < |s.replicas| ==> Seeded(s.replicas[r].book)
    ensures Inv(Next(s, LogOut(client, session, request, body, flags, queueFull)))
  {
    hide Disciplined, Reflects, Shown, BookAt;
    var t := Next(s, LogOut(client, session, request, body, flags, queueFull));
    var r := s.replicas[s.primary];
    assert ReplicaOk(s, r);
    if t.log == s.log {
      KeptByParking(s, t);
    } else {
      var op := LogoutOp(client, session, request, r.book[client].user, body);
      AdmissionHolds(s, Min(Min(flags.shownFrom, r.known), |s.log|), op);
      AppendKeepsInv(s, t, op, r.applied);
    }
  }

  lemma ExpireKeepsInv(s: State, client: nat, session: nat, body: seq<Byte>, flags: Flags)
    requires Inv(s) && forall r :: 0 <= r < |s.replicas| ==> Seeded(s.replicas[r].book)
    ensures Inv(Next(s, Expire(client, session, body, flags)))
  {
    hide Disciplined, Reflects, Shown, BookAt;
    var t := Next(s, Expire(client, session, body, flags));
    var r := s.replicas[s.primary];
    assert ReplicaOk(s, r);
    if t != s {
      var op := ExpireOp(client, session, r.book[client].user, body);
      AdmissionHolds(s, Min(Min(flags.shownFrom, r.known), |s.log|), op);
      AppendKeepsInv(s, t, op, r.applied);
    }
  }

  lemma ViewChangeKeepsInv(s: State, primary: nat, keep: nat)
    requires Inv(s) && primary < |s.replicas| && s.committed <= keep <= |s.log|
    ensures Inv(s.(log := s.log[..keep], primary := primary, parked := []))
  {
    hide ReplicaOk, Disciplined;
    var t := s.(log := s.log[..keep], primary := primary, parked := []);
    assert t.log[..s.committed] == s.log[..s.committed];
    ReplicasKept(s, t);
    DisciplineTruncated(s.log, s.capacity, keep);
  }

  lemma CommitKeepsInv(s: State)
    requires Inv(s) && s.committed < |s.log|
    ensures Inv(s.(committed := s.committed + 1))
  {
    hide ReplicaOk, Disciplined;
    ReplicasKept(s, s.(committed := s.committed + 1));
  }

  lemma InternalKeepsInv(s: State, op: LogOp)
    requires Inv(s) && (op.FinalizeOp? || op.ServerOp?)
    ensures Inv(s.(log := s.log + [op]))
  {
    hide Inv;
    AppendKeepsInv(s, s.(log := s.log + [op]), op, 0);
  }

  /** Every step keeps the invariant. */
  lemma NextKeepsInv(s: State, event: Event)
    requires Inv(s) && forall r :: 0 <= r < |s.replicas| ==> Seeded(s.replicas[r].book)
    ensures Inv(Next(s, event))
  {
    hide Inv, Admit, View, MayLogOut, MayExpire, ApplyOp, Recovered, Seeded;
    InvReplicas(s);
    match event
    case Arrive(a, flags, queueFull) => AdmitKeepsInv(s, flags, s.parked, a, queueFull);
    case Promote(flags) =>
      if s.parked != [] {
        AdmitKeepsInv(s, flags, s.parked[1..], s.parked[0], false);
      }
    case Wait(a) => KeptByParking(s, Next(s, event));
    case LogOut(client, session, request, body, flags, queueFull) =>
      LogOutKeepsInv(s, client, session, request, body, flags, queueFull);
    case Expire(client, session, body, flags) => ExpireKeepsInv(s, client, session, body, flags);
    case Internal(op) =>
      if op.FinalizeOp? || op.ServerOp? {
        InternalKeepsInv(s, op);
      }
    case Commit =>
      if s.committed < |s.log| {
        CommitKeepsInv(s);
      }
    case ViewChange(primary, keep) =>
      if primary < |s.replicas| && s.committed <= keep <= |s.log| {
        ViewChangeKeepsInv(s, primary, keep);
      }
    case _ => ReplicaStepKeepsInv(s, event);
  }

  // ----- Runs -----

  function Start(replicas: nat, primary: nat, capacity: nat): State {
    State([], 0, seq(replicas, _ => Replica(0, 0, map[], 0, map[])), primary, [], capacity)
  }

  lemma StartHolds(replicas: nat, primary: nat, capacity: nat)
    requires primary < replicas
    ensures Inv(Start(replicas, primary, capacity))
  {
    assert Reflects(map[], [], capacity, 0);
  }

  /** The state after a whole run. */
  function Run(s: State, events: seq<Event>): (t: State)
    requires Inv(s)
    ensures Inv(t) && t.capacity == s.capacity
    decreases |events|
  {
    if events == [] then s
    else
      var before := Run(s, events[..|events| - 1]);
      Stepped(before, events[|events| - 1])
  }

  /** One step from a state the invariant holds in. */
  function Stepped(s: State, event: Event): (t: State)
    requires Inv(s)
    ensures Inv(t) && t.capacity == s.capacity
  {
    StepHolds(s, event);
    Next(s, event)
  }

  lemma StepHolds(s: State, event: Event)
    requires Inv(s)
    ensures s.primary < |s.replicas| && forall r :: 0 <= r < |s.replicas| ==> Seeded(s.replicas[r].book)
    ensures Inv(Next(s, event)) && Next(s, event).capacity == s.capacity
  {
    hide Inv, Admit, View, MayLogOut, MayExpire, ApplyOp, Recovered, Seeded;
    InvSeeded(s);
    NextKeepsInv(s, event);
    AdmitKeepsCapacity(s, event);
  }

  lemma AdmitKeepsCapacity(s: State, event: Event)
    requires s.primary < |s.replicas|
    ensures event.Arrive? ==> Admit(s, event.flags, s.parked, event.arrival, event.queueFull).capacity == s.capacity
    ensures event.Promote? && s.parked != [] ==> Admit(s, event.flags, s.parked[1..], s.parked[0], false).capacity == s.capacity
  {
    hide Prepared;
  }

  /**
   * Whatever the run, a client, epoch and request number are in the log twice exactly where a
   * session's lease expired after the session used the number reserved for expiries.
   */
  lemma RunsRepeatIff(replicas: nat, primary: nat, capacity: nat, events: seq<Event>)
    requires primary < replicas
    ensures Inv(Start(replicas, primary, capacity))
    ensures var log := Run(Start(replicas, primary, capacity), events).log;
            forall i, j :: 0 <= i < j < |log| ==> (SameRequest(log[i], log[j]) <==> ExpiryNumberReused(log[i], log[j]))
  {
    hide Run;
    StartHolds(replicas, primary, capacity);
    var t := Run(Start(replicas, primary, capacity), events);
    DisciplinedLogRepeatsIff(t.log, capacity);
  }

  // ----- The caller's condition -----

  /** The request does not use the number expiries are logged under. */
  predicate ReservesNumber(a: Arrival) {
    a.AskRequest? && !a.operation.Logout? ==> a.request != EXPIRED_SESSION_REQUEST_ID
  }

  ghost predicate ArrivalsReserve(events: seq<Event>) {
    forall i :: 0 <= i < |events| && events[i].Arrive? ==> ReservesNumber(events[i].arrival)
  }

  ghost predicate Reserves(s: State) {
    NumbersReserved(s.log) && forall i :: 0 <= i < |s.parked| ==> ReservesNumber(s.parked[i])
  }

  lemma AdmitReserves(s: State, flags: Flags, parked: seq<Arrival>, a: Arrival, queueFull: bool)
    requires s.primary < |s.replicas| && NumbersReserved(s.log) && ReservesNumber(a)
    requires forall i :: 0 <= i < |parked| ==> ReservesNumber(parked[i])
    ensures Reserves(Admit(s, flags, parked, a, queueFull))
  {
    hide RequestPreflight, RegisterPreflight, View;
  }

  lemma NextReserves(s: State, event: Event)
    requires s.primary < |s.replicas| && forall r :: 0 <= r < |s.replicas| ==> Seeded(s.replicas[r].book)
    requires Reserves(s) && (event.Arrive? ==> ReservesNumber(event.arrival))
    ensures Reserves(Next(s, event))
  {
    hide Admit, View, MayLogOut, MayExpire, ApplyOp, Recovered, Seeded;
    match event
    case Arrive(a, flags, queueFull) => AdmitReserves(s, flags, s.parked, a, queueFull);
    case Promote(flags) =>
      if s.parked != [] {
        assert forall i :: 0 <= i < |s.parked| - 1 ==> s.parked[1..][i] == s.parked[i + 1];
        AdmitReserves(s, flags, s.parked[1..], s.parked[0], false);
      }
    case _ =>
  }

  lemma {:induction false} RunReserves(s: State, events: seq<Event>)
    requires Inv(s) && Reserves(s) && ArrivalsReserve(events)
    ensures Reserves(Run(s, events))
    decreases |events|
  {
    hide Inv, Reserves, Next, ReservesNumber;
    if events != [] {
      var init, last := events[..|events| - 1], events[|events| - 1];
      assert forall i :: 0 <= i < |init| ==> init[i] == events[i];
      RunReserves(s, init);
      var before := Run(s, init);
      InvSeeded(before);
      NextReserves(before, last);
    }
  }

  /** If no arriving request uses the reserved number, every request runs at most once. */
  lemma RunsExecuteAtMostOnce(replicas: nat, primary: nat, capacity: nat, events: seq<Event>)
    requires primary < replicas && ArrivalsReserve(events)
    ensures Inv(Start(replicas, primary, capacity))
    ensures var log := Run(Start(replicas, primary, capacity), events).log;
            forall i, j :: 0 <= i < j < |log| ==> !SameRequest(log[i], log[j])
  {
    hide Run, SameRequest;
    StartHolds(replicas, primary, capacity);
    RunReserves(Start(replicas, primary, capacity), events);
    DisciplinedLogHasNoRepeats(Run(Start(replicas, primary, capacity), events).log, capacity);
  }

  /** A reply served from any replica's cache is the reply the log's op of that request and operation produced. */
  lemma RunsReplayTheExecution(replicas: nat, primary: nat, capacity: nat, events: seq<Event>, r: nat,
                               client: nat, epoch: nat, request: nat, operation: Operation)
    requires primary < replicas && Inv(Start(replicas, primary, capacity))
    requires var t := Run(Start(replicas, primary, capacity), events);
             r < |t.replicas| && 0 < request && CheckRequest(t.replicas[r].book, client, epoch, request, operation).Duplicate?
    ensures var t := Run(Start(replicas, primary, capacity), events);
            var reply := CheckRequest(t.replicas[r].book, client, epoch, request, operation).reply;
            var k := reply.header.commit;
            && 0 < k <= t.replicas[r].applied <= |t.log|
            && t.log[k - 1].Stamped() && t.log[k - 1].From(client)
            && t.log[k - 1].session == epoch && t.log[k - 1].RequestNumber() == request
            && t.log[k - 1].ReplyOperation().RequestOperation() == operation.RequestOperation()
            && reply == ReplyTo(k, t.log[k - 1])
  {
    hide Run, Disciplined, BookAt, SameBook, Protected, CheckRequest;
    var t := Run(Start(replicas, primary, capacity), events);
    assert ReplicaOk(t, t.replicas[r]);
    CachedFromLog(t.replicas[r].book, t.log, t.replicas[r].applied, client, epoch, request, operation,
                  CheckRequest(t.replicas[r].book, client, epoch, request, operation).reply);
  }

  /** The reply is the one the log's op of this client, epoch, number and operation produced. */
  ghost predicate ReplaysLog(log: seq<LogOp>, n: nat, client: nat, epoch: nat, request: nat, operation: Operation, reply: CachedReply) {
    var k := reply.header.commit;
    && 0 < k <= n <= |log| && log[k - 1].Stamped() && log[k - 1].From(client)
    && log[k - 1].session == epoch && log[k - 1].RequestNumber() == request && reply == ReplyTo(k, log[k - 1])
    && log[k - 1].ReplyOperation().RequestOperation() == operation.RequestOperation()
  }

  lemma CachedFromLog(book: Book, log: seq<LogOp>, n: nat, client: nat, epoch: nat, request: nat, operation: Operation, reply: CachedReply)
    requires Protected(book, log, n) && 0 < request && CheckRequest(book, client, epoch, request, operation) == Duplicate(reply)
    ensures ReplaysLog(log, n, client, epoch, request, operation, reply)
  {
    hide ValidProtection, LogoutLast, FindCached;
    var e := book[client];
    assert EntryProtected(client, e, log, n);
    var i :| 0 <= i < |e.ring| && e.ring[i] == reply;
    assert FromLog(log, n, client, e.epoch, e.ring[i]);
  }

  /** The same verdict, up to a reply only one of the two still caches. */
  predicate Alike(x: RequestStatus, y: RequestStatus) {
    Weakens(x, y) || Weakens(y, x)
  }

  /** Replicas that applied the same ops give the same verdict on every request. */
  lemma RunsAnswerAlike(replicas: nat, primary: nat, capacity: nat, events: seq<Event>, a: nat, b: nat,
                        client: nat, epoch: nat, request: nat, operation: Operation)
    requires primary < replicas && Inv(Start(replicas, primary, capacity))
    requires var t := Run(Start(replicas, primary, capacity), events);
             a < |t.replicas| && b < |t.replicas| && t.replicas[a].applied == t.replicas[b].applied
    ensures var t := Run(Start(replicas, primary, capacity), events);
            var x := CheckRequest(t.replicas[a].book, client, epoch, request, operation);
            var y := CheckRequest(t.replicas[b].book, client, epoch, request, operation);
            Alike(x, y) && (x.New? <==> y.New?)
  {
    hide Run, Disciplined, CheckRequest, Reflects, Alike;
    var t := Run(Start(replicas, primary, capacity), events);
    assert ReplicaOk(t, t.replicas[a]) && ReplicaOk(t, t.replicas[b]);
    ReflectionsAnswerAlike(t.replicas[a].book, t.replicas[b].book, t.log, t.capacity, t.replicas[a].applied, client, epoch, request, operation);
  }

  lemma ReflectionsAnswerAlike(a: Book, b: Book, log: seq<LogOp>, capacity: nat, n: nat,
                               client: nat, epoch: nat, request: nat, operation: Operation)
    requires Reflects(a, log, capacity, n) && Reflects(b, log, capacity, n)
    ensures var x := CheckRequest(a, client, epoch, request, operation);
            var y := CheckRequest(b, client, epoch, request, operation);
            Alike(x, y) && (x.New? <==> y.New?)
  {
    hide BookAt, CheckEntry, EntryProtected, SameEntry, Alike;
    var table := BookAt(log, capacity, n).value;
    if client in table {
      assert EntryProtected(client, a[client], log, n) && EntryProtected(client, b[client], log, n);
      EntriesAnswerAlike(a[client], b[client], table[client], client, log, n, epoch, request, operation);
    } else {
      SameIsAlike(NoSession);
    }
  }

  lemma SameIsAlike(x: RequestStatus)
    ensures Alike(x, x)
  {
  }

  lemma EntriesAnswerAlike(a: Entry, b: Entry, table: Entry, c: nat, log: seq<LogOp>, n: nat, epoch: nat, request: nat, operation: Operation)
    requires SameEntry(a, table) && SameEntry(b, table) && EntryProtected(c, a, log, n) && EntryProtected(c, b, log, n)
    ensures var x := CheckEntry(a, epoch, request, operation);
            var y := CheckEntry(b, epoch, request, operation);
            Alike(x, y) && (x.New? <==> y.New?)
  {
    assert a.ring != [] && b.ring != [];
    hide Topped, ValidProtection, EntrySourced, CheckEntry;
    if |a.ring| <= |b.ring| {
      TailsNest(a.ring, b.ring, table.ring);
      TailAnswersAlike(a, b, epoch, request, operation);
    } else {
      TailsNest(b.ring, a.ring, table.ring);
      TailAnswersAlike(b, a, epoch, request, operation);
    }
  }

  /** Of two tails of one ring, the shorter is a tail of the longer. */
  lemma TailsNest(a: seq<CachedReply>, b: seq<CachedReply>, ring: seq<CachedReply>)
    requires TailOf(a, ring) && TailOf(b, ring) && |a| <= |b|
    ensures TailOf(a, b)
  {
    assert ring[|ring| - |b|..][|b| - |a|..] == ring[|ring| - |a|..];
  }

  lemma TailIs(a: seq<CachedReply>, b: seq<CachedReply>)
    requires TailOf(a, b) && a != []
    ensures |a| <= |b| && b[|b| - |a|..] == a && |b| - |a| < |b|
  {
  }

  lemma TailAnswersAlike(a: Entry, b: Entry, epoch: nat, request: nat, operation: Operation)
    requires TailOf(a.ring, b.ring) && a.ring != [] && ValidProtection(b) && LogoutLast(b)
    requires a.endedOp == b.endedOp && a.epoch == b.epoch && a.watermark == b.watermark
    ensures var x := CheckEntry(a, epoch, request, operation);
            var y := CheckEntry(b, epoch, request, operation);
            Weakens(y, x) && (x.New? <==> y.New?)
  {
    hide FindCached, ValidProtection, LogoutLast, Verdict;
    TailIs(a.ring, b.ring);
    TailFinds(b, |b.ring| - |a.ring|, request);
    VerdictWeakens(b.endedOp.Some?, b.epoch, b.watermark, FindCached(b.ring, request), FindCached(a.ring, request),
                   epoch, request, operation);
  }
}
