/**
 * The session fence over whole runs of one table: what an epoch that is over can never do
 * again, and when the handles attached to it stop being valid.
 */
module SessionFence {
  import opened Common
  import opened ClientEntry
  import opened ClientBook
  import opened MetadataLog
  import opened AtMostOnce

  type Derive = (nat, nat) -> seq<Byte>

  /** A table, how many ops it has applied, and the next attachment token. */
  datatype Table = Table(book: Book, applied: nat, nextToken: nat, capacity: nat)

  datatype Step =
    | Applied(op: LogOp)
    | Attached(client: nat, session: nat, user: nat)
    | Bound(client: nat, session: nat, derive: Derive)
    | Reloaded(depth: nat)

  function Attach(t: Table, client: nat, session: nat, user: nat): Table {
    t.(book := AttachSession(t.book, client, session, user, t.nextToken), nextToken := t.nextToken + 1)
  }

  function After(t: Table, step: Step): Table
    requires Seeded(t.book)
  {
    match step
    case Applied(op) =>
      var book := ApplyOp(t.book, t.capacity, t.applied + 1, op);
      if book.Some? then t.(book := book.value, applied := t.applied + 1) else t
    case Attached(client, session, user) => Attach(t, client, session, user)
    case Bound(client, session, derive) =>
      var bound := BindSession(t.book, client, session, derive);
      if bound.Ok? then Attach(t, client, bound.value.1, bound.value.0) else t
    case Reloaded(depth) => if 0 < depth then t.(book := Recovered(t.book, depth)) else t
  }

  ghost predicate Holds(book: Book, c: nat, token: nat) {
    c in book && book[c].attachment == Some(token)
  }

  /** Epochs are past commits, every token was issued, no two sessions share one, and only live sessions hold one. */
  ghost predicate Sound(t: Table) {
    && Seeded(t.book) && EpochsWithin(t.book, t.applied)
    && (forall c: nat, token: nat :: Holds(t.book, c, token) ==> token < t.nextToken && t.book[c].endedOp.None?)
    && (forall c: nat, d: nat, token: nat :: Holds(t.book, c, token) && Holds(t.book, d, token) ==> c == d)
  }

  /** Only the session that was given the token can still hold it. */
  ghost predicate Given(t: Table, token: nat, c: nat, e: nat) {
    token < t.nextToken && e <= t.applied && forall d: nat :: Holds(t.book, d, token) ==> d == c && t.book[d].epoch == e
  }

  // ----- One step -----

  /** An op moves no attachment: an entry keeps the one it had or loses it. */
  lemma ApplyMovesNoToken(book: Book, capacity: nat, n: nat, op: LogOp, c: nat)
    requires Seeded(book)
    ensures var after := ApplyOp(book, capacity, n, op);
            after.Some? && c in after.value && after.value[c].attachment.Some? ==>
              && c in book && book[c].attachment == after.value[c].attachment
              && book[c].epoch == after.value[c].epoch && book[c].endedOp == after.value[c].endedOp
  {
    hide Seeded, Trim, Replaced;
  }

  lemma ApplyKeepsSound(t: Table, op: LogOp)
    requires Sound(t)
    ensures Sound(After(t, Applied(op)))
  {
    hide ApplyOp, EpochsWithin, Seeded;
    var u := After(t, Applied(op));
    ApplySeeded(t.book, t.capacity, t.applied + 1, op);
    EpochsGrow(t.book, t.capacity, t.applied, op);
    forall c: nat, token: nat | Holds(u.book, c, token) ensures Holds(t.book, c, token) && u.book[c].endedOp == t.book[c].endedOp {
      ApplyMovesNoToken(t.book, t.capacity, t.applied + 1, op, c);
    }
  }

  lemma AttachKeepsSound(t: Table, client: nat, session: nat, user: nat)
    requires Sound(t)
    ensures Sound(Attach(t, client, session, user))
  {
    var u := Attach(t, client, session, user);
    forall c: nat, token: nat | Holds(u.book, c, token)
      ensures Holds(t.book, c, token) || (c == client && token == t.nextToken && u.book[c].endedOp.None?)
      ensures c in t.book && u.book[c].endedOp == t.book[c].endedOp
    {
    }
  }

  lemma ReloadKeepsSound(t: Table, depth: nat)
    requires Sound(t) && 0 < depth
    ensures Sound(t.(book := Recovered(t.book, depth)))
  {
    var u := t.(book := Recovered(t.book, depth));
    assert forall c :: c in u.book ==> c in t.book && u.book[c] == RecoveredEntry(t.book[c], depth);
  }

  lemma AfterKeepsSound(t: Table, step: Step)
    requires Sound(t)
    ensures Sound(After(t, step)) && After(t, step).capacity == t.capacity && t.applied <= After(t, step).applied
  {
    hide Sound, Attach, ApplyOp, Recovered, BindSession;
    match step
    case Applied(op) => ApplyKeepsSound(t, op);
    case Attached(client, session, user) => AttachFrame(t, client, session, user); AttachKeepsSound(t, client, session, user);
    case Bound(client, session, derive) =>
      var bound := BindSession(t.book, client, session, derive);
      if bound.Ok? {
        AttachFrame(t, client, bound.value.1, bound.value.0);
        AttachKeepsSound(t, client, bound.value.1, bound.value.0);
      }
    case Reloaded(depth) =>
      if 0 < depth {
        ReloadKeepsSound(t, depth);
      }
  }

  /** Attaching touches nothing but the attachment. */
  lemma AttachFrame(t: Table, client: nat, session: nat, user: nat)
    ensures var u := Attach(t, client, session, user);
            && u.applied == t.applied && u.capacity == t.capacity && u.book.Keys == t.book.Keys
            && forall c :: c in t.book ==> u.book[c] == t.book[c].(attachment := u.book[c].attachment)
  {
  }

  /** A step changes an epoch's standing only forward. */
  lemma AfterKeepsRetired(t: Table, step: Step, c: nat, e: nat)
    requires Sound(t) && e <= t.applied && Retired(t.book, c, e)
    ensures Retired(After(t, step).book, c, e)
  {
    hide ApplyOp, Attach, BindSession, Seeded, EpochsWithin;
    match step
    case Applied(op) => SettledPersists(t.book, t.capacity, t.applied, op, ExpireOp(c, e, 0, []));
    case Attached(client, session, user) => AttachFrame(t, client, session, user);
    case Bound(client, session, derive) =>
      var bound := BindSession(t.book, client, session, derive);
      if bound.Ok? {
        AttachFrame(t, client, bound.value.1, bound.value.0);
      }
    case Reloaded(depth) =>
  }

  lemma AttachKeepsGiven(t: Table, client: nat, session: nat, user: nat, token: nat, c: nat, e: nat)
    requires Given(t, token, c, e)
    ensures Given(Attach(t, client, session, user), token, c, e)
  {
  }

  lemma AfterKeepsGiven(t: Table, step: Step, token: nat, c: nat, e: nat)
    requires Sound(t) && Given(t, token, c, e)
    ensures Given(After(t, step), token, c, e)
  {
    hide ApplyOp, Attach, BindSession, Sound;
    SoundSeeded(t);
    match step
    case Applied(op) =>
      forall d: nat | Holds(After(t, step).book, d, token) ensures Holds(t.book, d, token) && After(t, step).book[d].epoch == t.book[d].epoch {
        ApplyMovesNoToken(t.book, t.capacity, t.applied + 1, op, d);
      }
    case Attached(client, session, user) => AttachKeepsGiven(t, client, session, user, token, c, e);
    case Bound(client, session, derive) =>
      var bound := BindSession(t.book, client, session, derive);
      if bound.Ok? {
        AttachKeepsGiven(t, client, bound.value.1, bound.value.0, token, c, e);
      }
    case Reloaded(depth) =>
  }

  lemma SoundSeeded(t: Table)
    requires Sound(t)
    ensures Seeded(t.book)
  {
  }

  /** What became of a session: superseded, gone, or the same identity with at least its protection. */
  ghost predicate Outlives(start: Entry, book: Book, c: nat) {
    c in book ==>
      || book[c].epoch > start.epoch
      || (&& book[c].epoch == start.epoch && book[c].user == start.user && book[c].verifier == start.verifier
          && book[c].watermark >= start.watermark && (start.endedOp.Some? ==> book[c].endedOp == start.endedOp))
  }

  /** An op leaves a session's identity alone and never weakens its protection. */
  lemma ApplyKeepsIdentity(book: Book, capacity: nat, n: nat, op: LogOp, c: nat)
    requires Seeded(book)
    ensures var after := ApplyOp(book, capacity, n, op);
            after.Some? && c in after.value ==>
              if c in book then
                && after.value[c].epoch == book[c].epoch && after.value[c].user == book[c].user
                && after.value[c].verifier == book[c].verifier && after.value[c].watermark >= book[c].watermark
                && (book[c].endedOp.Some? ==> after.value[c].endedOp == book[c].endedOp)
              else after.value[c].epoch == n
  {
    hide Receipted, Seeded;
    if op.Stamped() && op.client in book {
      SeededRing(book, op.client);
      ReceiptedNonEmpty(book[op.client], ReplyTo(n, op));
      ReceiptedNonEmpty(Ended(book[op.client], n), ReplyTo(n, op));
    }
  }

  lemma SeededRing(book: Book, c: nat)
    requires Seeded(book) && c in book
    ensures book[c].ring != []
  {
  }

  lemma AfterKeepsOutlives(t: Table, step: Step, start: Entry, c: nat)
    requires Sound(t) && start.epoch <= t.applied && Outlives(start, t.book, c)
    ensures Outlives(start, After(t, step).book, c)
  {
    hide ApplyOp, Attach, BindSession, Seeded, EpochsWithin;
    match step
    case Applied(op) => ApplyKeepsIdentity(t.book, t.capacity, t.applied + 1, op, c);
    case Attached(client, session, user) => AttachFrame(t, client, session, user);
    case Bound(client, session, derive) =>
      var bound := BindSession(t.book, client, session, derive);
      if bound.Ok? {
        AttachFrame(t, client, bound.value.1, bound.value.0);
      }
    case Reloaded(depth) =>
  }

  // ----- Runs -----

  function Run(t: Table, steps: seq<Step>): (u: Table)
    requires Sound(t)
    ensures Sound(u) && t.applied <= u.applied
    decreases |steps|
  {
    if steps == [] then t
    else
      SoundSeeded(t);
      AfterKeepsSound(t, steps[0]);
      Run(After(t, steps[0]), steps[1..])
  }

  lemma {:induction false} RunKeepsRetired(t: Table, steps: seq<Step>, c: nat, e: nat)
    requires Sound(t) && e <= t.applied && Retired(t.book, c, e)
    ensures Retired(Run(t, steps).book, c, e)
    decreases |steps|
  {
    hide Sound, Retired, After;
    if steps != [] {
      SoundSeeded(t);
      AfterKeepsSound(t, steps[0]);
      AfterKeepsRetired(t, steps[0], c, e);
      RunKeepsRetired(After(t, steps[0]), steps[1..], c, e);
    }
  }

  lemma {:induction false} RunKeepsGiven(t: Table, steps: seq<Step>, token: nat, c: nat, e: nat)
    requires Sound(t) && Given(t, token, c, e)
    ensures Given(Run(t, steps), token, c, e)
    decreases |steps|
  {
    hide Sound, Given, After;
    if steps != [] {
      SoundSeeded(t);
      AfterKeepsSound(t, steps[0]);
      AfterKeepsGiven(t, steps[0], token, c, e);
      RunKeepsGiven(After(t, steps[0]), steps[1..], token, c, e);
    }
  }

  lemma {:induction false} RunKeepsOutlives(t: Table, steps: seq<Step>, start: Entry, c: nat)
    requires Sound(t) && start.epoch <= t.applied && Outlives(start, t.book, c)
    ensures Outlives(start, Run(t, steps).book, c)
    decreases |steps|
  {
    hide Sound, Outlives, After;
    if steps != [] {
      SoundSeeded(t);
      AfterKeepsSound(t, steps[0]);
      AfterKeepsOutlives(t, steps[0], start, c);
      RunKeepsOutlives(After(t, steps[0]), steps[1..], start, c);
    }
  }

  /** While a session's epoch lasts, its principal and verifier never change, its watermark never falls and its end never moves. */
  lemma IdentityIsImmutable(t: Table, steps: seq<Step>, c: nat)
    requires Sound(t) && c in t.book && c in Run(t, steps).book
    ensures var before, after := t.book[c], Run(t, steps).book[c];
            && before.epoch <= after.epoch
            && (before.epoch == after.epoch ==>
                  && after.user == before.user && after.verifier == before.verifier && after.watermark >= before.watermark
                  && (before.endedOp.Some? ==> after.endedOp == before.endedOp))
  {
    hide Run;
    RunKeepsOutlives(t, steps, t.book[c], c);
  }

  // ----- The fence -----

  /** What an epoch that is over may never do. */
  ghost predicate ShutOut(t: Table, c: nat, e: nat) {
    && (forall request, operation :: !CheckRequest(t.book, c, e, request, operation).New?)
    && (forall user :: !MayAttach(t.book, c, e, user))
    && (forall session, derive :: BindSession(t.book, c, session, derive).Ok? ==> BindSession(t.book, c, session, derive).value.1 > e)
  }

  lemma RetiredIsShutOut(t: Table, c: nat, e: nat)
    requires Retired(t.book, c, e)
    ensures ShutOut(t, c, e)
  {
  }

  /**
   * An epoch once ended, superseded or gone is never admitted, attached or bound again, and
   * a later registration of the same client has a higher epoch.
   */
  lemma OverIsOver(t: Table, steps: seq<Step>, c: nat, e: nat)
    requires Sound(t) && e <= t.applied
    requires c !in t.book || t.book[c].epoch > e || (t.book[c].epoch == e && t.book[c].endedOp.Some?)
    ensures var u := Run(t, steps);
            && ShutOut(u, c, e)
            && (c in u.book ==> u.book[c].epoch > e || (u.book[c].epoch == e && u.book[c].endedOp.Some?))
  {
    hide Run, ShutOut, Sound;
    RunKeepsRetired(t, steps, c, e);
    RetiredIsShutOut(Run(t, steps), c, e);
  }

  lemma RetiredHandleInvalid(t: Table, token: nat, c: nat, e: nat)
    requires Sound(t) && Given(t, token, c, e) && Retired(t.book, c, e)
    ensures forall user: nat :: !AttachmentValid(t.book, Attachment(token, user))
  {
    forall d | d in t.book ensures t.book[d].attachment != Some(token) {
      assert !Holds(t.book, d, token);
    }
  }

  /** A handle given to a session is invalid for good once that session is over. */
  lemma HandlesDieWithTheirSession(t: Table, middle: seq<Step>, last: seq<Step>, c: nat, token: nat)
    requires Sound(t) && Holds(t.book, c, token)
    requires Retired(Run(t, middle).book, c, t.book[c].epoch)
    ensures forall user: nat :: !AttachmentValid(Run(Run(t, middle), last).book, Attachment(token, user))
  {
    hide Run;
    var e := t.book[c].epoch;
    RunKeepsGiven(t, middle, token, c, e);
    RunKeepsGiven(Run(t, middle), last, token, c, e);
    RunKeepsRetired(Run(t, middle), last, c, e);
    RetiredHandleInvalid(Run(Run(t, middle), last), token, c, e);
  }

  /** A reloaded table honours no earlier handle. */
  lemma ReloadDropsHandles(t: Table, depth: nat, steps: seq<Step>, token: nat)
    requires Sound(t) && 0 < depth && token < t.nextToken
    ensures Sound(After(t, Reloaded(depth)))
    ensures forall user: nat :: !AttachmentValid(Run(After(t, Reloaded(depth)), steps).book, Attachment(token, user))
  {
    hide Run;
    SoundSeeded(t);
    AfterKeepsSound(t, Reloaded(depth));
    var u := After(t, Reloaded(depth));
    // No session has epoch 0, so nobody holds the token.
    assert Given(u, token, 0, 0) by { assert forall d: nat :: !Holds(u.book, d, token); }
    RunKeepsGiven(u, steps, token, 0, 0);
    assert Sound(Run(u, steps));
  }

  /** An entry leaves only by naming its exact epoch and end. */
  lemma LeavesByExactEpoch(t: Table, step: Step, c: nat)
    requires Sound(t) && c in t.book && c !in After(t, step).book
    ensures step.Applied? && step.op.FinalizeOp?
    ensures step.op.identity == SessionIdentity(c, t.book[c].epoch, step.op.identity.metadataWatermark)
    ensures t.book[c].endedOp == Some(step.op.identity.metadataWatermark)
  {
    hide Receipted, Attach;
    SoundSeeded(t);
    if step.Attached? {
      AttachFrame(t, step.client, step.session, step.user);
    } else if step.Bound? {
      var bound := BindSession(t.book, step.client, step.session, step.derive);
      if bound.Ok? {
        AttachFrame(t, step.client, bound.value.1, bound.value.0);
      }
    }
  }
}
