/**
 * The one way a client, epoch and request number are logged twice, as a concrete run of a
 * single replica: a client uses the number reserved for lease expiries, then its lease expires.
 */
module ExpiryNumberGap {
  import opened Common
  import opened ClientEntry
  import opened ClientBook
  import opened MetadataLog
  import opened AtMostOnce
  import opened Preflight
  import opened Protection
  import opened Cluster
  import opened ClusterRuns

  const OPEN := Flags(true, false, true, false, 0, 9)
  const REGISTER := RegisterOp(1, 7, [], true, [])
  const REQUEST := RequestOp(1, 1, EXPIRED_SESSION_REQUEST_ID, OtherOperation(1), 7, None, [])
  const EXPIRE := ExpireOp(1, 1, 7, [])

  /** The table once the registration is applied. */
  function Registered(): Book {
    map[1 := Registration(1, 7, [], RegisterReply(1, REGISTER))]
  }

  /** The table once the request is applied too. */
  function Served(): Book {
    Registered()[1 := Receipted(Registered()[1], ReplyTo(2, REQUEST))]
  }

  function At(log: seq<LogOp>, committed: nat, known: nat, applied: nat, book: Book): State {
    State(log, committed, [Replica(applied, known, book, 0, map[])], 0, [], 1)
  }

  /** Registration: admitted, committed, learned, applied. */
  lemma RegistrationRuns()
    ensures var s := Start(1, 0, 1);
            && s == At([], 0, 0, 0, map[])
            && Next(s, Arrive(AskRegister(1, 7, [], true, true, []), OPEN, false)) == At([REGISTER], 0, 0, 0, map[])
    ensures Next(At([REGISTER], 0, 0, 0, map[]), Commit) == At([REGISTER], 1, 0, 0, map[])
    ensures Next(At([REGISTER], 1, 0, 0, map[]), Learn(0, 1)) == At([REGISTER], 1, 1, 0, map[])
    ensures Next(At([REGISTER], 1, 1, 0, map[]), Apply(0)) == At([REGISTER], 1, 1, 1, Registered())
  {
    RegistrationArrives();
    hide Admit, Receipted;
  }

  lemma RegistrationArrives()
    ensures var s := Start(1, 0, 1);
            && s == At([], 0, 0, 0, map[])
            && Next(s, Arrive(AskRegister(1, 7, [], true, true, []), OPEN, false)) == At([REGISTER], 0, 0, 0, map[])
  {
    hide ApplyOp;
    var s := Start(1, 0, 1);
    assert s.replicas == [Replica(0, 0, map[], 0, map[])];
    var view := View(s, OPEN, []);
    assert view.prepares == [] && view.parked == [];
  }

  /** The request: admitted as new under the reserved number, committed, learned, applied. */
  lemma RequestRuns()
    ensures Seeded(Registered())
    ensures Next(At([REGISTER], 1, 1, 1, Registered()),
                 Arrive(AskRequest(1, 1, EXPIRED_SESSION_REQUEST_ID, OtherOperation(1), None, []), OPEN, false))
            == At([REGISTER, REQUEST], 1, 1, 1, Registered())
    ensures Next(At([REGISTER, REQUEST], 1, 1, 1, Registered()), Commit) == At([REGISTER, REQUEST], 2, 1, 1, Registered())
    ensures Next(At([REGISTER, REQUEST], 2, 1, 1, Registered()), Learn(0, 2)) == At([REGISTER, REQUEST], 2, 2, 1, Registered())
    ensures Next(At([REGISTER, REQUEST], 2, 2, 1, Registered()), Apply(0)) == At([REGISTER, REQUEST], 2, 2, 2, Served())
  {
    hide Receipted;
    var view := View(At([REGISTER], 1, 1, 1, Registered()), OPEN, []);
    assert view.prepares == [] && view.parked == [];
    assert [REGISTER] + [REQUEST] == [REGISTER, REQUEST];
  }

  /** The expiry: the session is live, so its expiry is logged under the same number. */
  lemma ExpiryRuns()
    ensures Seeded(Served())
    ensures Next(At([REGISTER, REQUEST], 2, 2, 2, Served()), Expire(1, 1, [], OPEN))
            == At([REGISTER, REQUEST, EXPIRE], 2, 2, 2, Served())
  {
    ReceiptedNonEmpty(Registered()[1], ReplyTo(2, REQUEST));
    hide Receipted;
    var view := View(At([REGISTER, REQUEST], 2, 2, 2, Served()), OPEN, []);
    assert view.prepares == [] && view.parked == [];
    assert [REGISTER, REQUEST] + [EXPIRE] == [REGISTER, REQUEST, EXPIRE];
  }

  // ----- The run -----

  const ASK_REGISTER := Arrive(AskRegister(1, 7, [], true, true, []), OPEN, false)
  const ASK_REQUEST := Arrive(AskRequest(1, 1, EXPIRED_SESSION_REQUEST_ID, OtherOperation(1), None, []), OPEN, false)

  function Events(): seq<Event> {
    [ASK_REGISTER] + ([Commit] + ([Learn(0, 1)] + ([Apply(0)] + LaterEvents())))
  }

  function LaterEvents(): seq<Event> {
    [ASK_REQUEST] + ([Commit] + ([Learn(0, 2)] + ([Apply(0)] + [Expire(1, 1, [], OPEN)])))
  }

  /** One step of the run, from a state the invariant holds in. */
  lemma FirstStep(s: State, e: Event, rest: seq<Event>, next: State)
    requires Inv(s) && (forall r :: 0 <= r < |s.replicas| ==> Seeded(s.replicas[r].book)) && Next(s, e) == next
    ensures Inv(next) && Run(s, [e] + rest) == Run(next, rest)
  {
    InvSeeded(s);
    hide Inv, Next;
    NextKeepsInv(s, e);
    RunConcat(s, [e], rest);
    RunOne(s, e);
  }

  lemma RunOne(s: State, e: Event)
    requires Inv(s) && s.primary < |s.replicas| && forall r :: 0 <= r < |s.replicas| ==> Seeded(s.replicas[r].book)
    ensures Run(s, [e]) == Next(s, e)
  {
    hide Inv, Next;
    assert [e][..0] == [];
  }

  lemma {:induction false} RunConcat(s: State, a: seq<Event>, b: seq<Event>)
    requires Inv(s)
    ensures Run(s, a + b) == Run(Run(s, a), b)
    decreases |b|
  {
    hide Inv, Next;
    if b == [] {
      assert a + b == a;
    } else {
      var k := |b| - 1;
      assert (a + b)[..|a| + k] == a + b[..k] && (a + b)[|a| + k] == b[k];
      RunConcat(s, a, b[..k]);
    }
  }

  lemma RegistrationSegment(rest: seq<Event>)
    requires Inv(At([], 0, 0, 0, map[]))
    ensures Inv(At([REGISTER], 1, 1, 1, Registered()))
    ensures Run(At([], 0, 0, 0, map[]), [ASK_REGISTER] + ([Commit] + ([Learn(0, 1)] + ([Apply(0)] + rest))))
            == Run(At([REGISTER], 1, 1, 1, Registered()), rest)
  {
    RegistrationRuns();
    hide Inv, Next, Run, Registered;
    FirstStep(At([], 0, 0, 0, map[]), ASK_REGISTER, [Commit] + ([Learn(0, 1)] + ([Apply(0)] + rest)), At([REGISTER], 0, 0, 0, map[]));
    FirstStep(At([REGISTER], 0, 0, 0, map[]), Commit, [Learn(0, 1)] + ([Apply(0)] + rest), At([REGISTER], 1, 0, 0, map[]));
    FirstStep(At([REGISTER], 1, 0, 0, map[]), Learn(0, 1), [Apply(0)] + rest, At([REGISTER], 1, 1, 0, map[]));
    FirstStep(At([REGISTER], 1, 1, 0, map[]), Apply(0), rest, At([REGISTER], 1, 1, 1, Registered()));
  }

  lemma RequestSegment(rest: seq<Event>)
    requires Inv(At([REGISTER], 1, 1, 1, Registered()))
    ensures Inv(At([REGISTER, REQUEST], 2, 2, 2, Served()))
    ensures Run(At([REGISTER], 1, 1, 1, Registered()), [ASK_REQUEST] + ([Commit] + ([Learn(0, 2)] + ([Apply(0)] + rest))))
            == Run(At([REGISTER, REQUEST], 2, 2, 2, Served()), rest)
  {
    RequestRuns();
    hide Inv, Next, Run, Registered, Served, Seeded;
    var b := Registered();
    FirstStep(At([REGISTER], 1, 1, 1, b), ASK_REQUEST, [Commit] + ([Learn(0, 2)] + ([Apply(0)] + rest)), At([REGISTER, REQUEST], 1, 1, 1, b));
    FirstStep(At([REGISTER, REQUEST], 1, 1, 1, b), Commit, [Learn(0, 2)] + ([Apply(0)] + rest), At([REGISTER, REQUEST], 2, 1, 1, b));
    FirstStep(At([REGISTER, REQUEST], 2, 1, 1, b), Learn(0, 2), [Apply(0)] + rest, At([REGISTER, REQUEST], 2, 2, 1, b));
    FirstStep(At([REGISTER, REQUEST], 2, 2, 1, b), Apply(0), rest, At([REGISTER, REQUEST], 2, 2, 2, Served()));
  }

  /** The run ends with one client, epoch and request number logged as a request and as an expiry. */
  lemma ReservedNumberRepeats()
    ensures Inv(Start(1, 0, 1))
    ensures Run(Start(1, 0, 1), Events()).log == [REGISTER, REQUEST, EXPIRE] && SameRequest(REQUEST, EXPIRE)
  {
    StartHolds(1, 0, 1);
    StartIs();
    RegistrationSegment(LaterEvents());
    RequestSegment([Expire(1, 1, [], OPEN)]);
    hide *;
    ExpirySegment();
    EventsAre();
    Repeats();
  }

  lemma StartIs()
    ensures Start(1, 0, 1) == At([], 0, 0, 0, map[])
  {
    RegistrationRuns();
  }

  lemma EventsAre()
    ensures Events() == [ASK_REGISTER] + ([Commit] + ([Learn(0, 1)] + ([Apply(0)] + LaterEvents())))
    ensures LaterEvents() == [ASK_REQUEST] + ([Commit] + ([Learn(0, 2)] + ([Apply(0)] + [Expire(1, 1, [], OPEN)])))
  {
  }

  lemma ExpirySegment()
    requires Inv(At([REGISTER, REQUEST], 2, 2, 2, Served()))
    ensures Run(At([REGISTER, REQUEST], 2, 2, 2, Served()), [Expire(1, 1, [], OPEN)]).log == [REGISTER, REQUEST, EXPIRE]
  {
    ExpiryRuns();
    hide Inv, Next, Run, Served, Seeded;
    RunOne(At([REGISTER, REQUEST], 2, 2, 2, Served()), Expire(1, 1, [], OPEN));
  }

  lemma Repeats()
    ensures SameRequest(REQUEST, EXPIRE)
  {
  }

  /**
   * An expiry at the reserved watermark also takes the request's cached reply: what was a
   * duplicate is reported as another operation's request.
   */
  lemma ExpiryTakesTheReply(e: Entry, expiry: CachedReply, n: nat)
    requires Topped(e) && e.endedOp.None? && e.watermark == EXPIRED_SESSION_REQUEST_ID
    requires expiry.header.request == EXPIRED_SESSION_REQUEST_ID && expiry.header.operation.Logout?
    requires !e.Latest().header.operation.Logout?
    ensures CheckEntry(e, e.epoch, e.watermark, e.Latest().header.operation) == Duplicate(e.Latest())
    ensures CheckEntry(Ended(Receipted(e, expiry), n), e.epoch, e.watermark, e.Latest().header.operation)
            == OperationMismatch(e.watermark)
  {
    ReceiptedTopped(e, expiry);
    ReceiptedNonEmpty(e, expiry);
    FindsTop(e);
    FindsTop(Receipted(e, expiry));
    hide Receipted, FindCached, Topped;
  }

  lemma {:induction false} FindsTop(e: Entry)
    requires Topped(e)
    ensures FindCached(e.ring, e.watermark) == Some(e.Latest())
  {
    FindsIn(e.ring, e.watermark);
  }

  lemma {:induction false} FindsIn(ring: seq<CachedReply>, request: nat)
    requires ring != [] && ring[|ring| - 1].header.request == request
    requires forall i :: 0 <= i < |ring| - 1 ==> ring[i].header.request != request
    ensures FindCached(ring, request) == Some(ring[|ring| - 1])
  {
    if |ring| > 1 {
      assert forall i :: 0 <= i < |ring| - 1 ==> ring[1..][i] == ring[i + 1];
      FindsIn(ring[1..], request);
    }
  }
}
