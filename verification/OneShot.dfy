/**
 * The single-use reply channel: both halves share one state cell, and every interleaving of
 * poll, send and the two drops accounts for the value exactly once.
 */
module OneShot {
  import opened Common

  /** The shared cell. Wakers are named by the task they wake. */
  datatype State<T> =
    | Empty
    | Waiting(waker: nat)
    | Ready(value: T)
    | SenderDropped
    | ReceiverDropped
    | Done

  datatype Poll<T> = Pending | Resolved(value: T) | Canceled

  /** What one call did with the value. */
  datatype Fate<T> = Kept | Delivered(value: T) | Returned(value: T) | Discarded(value: T)

  /** The value's fate, whom the call woke, and what a poll answered. */
  datatype Effect<T> = Effect(fate: Fate<T>, woken: Option<nat>, answer: Option<Poll<T>>)

  // ----- The cell -----

  class Channel<T> {
    var state: State<T>
    var senderLive: bool
    var receiverLive: bool

    /** The states each half's liveness allows; a waiting receiver always has a live sender. */
    ghost predicate Valid()
      reads this
    {
      Consistent(state, senderLive, receiverLive)
    }

    constructor ()
      ensures Valid() && state == Empty && senderLive && receiverLive
    {
      state := Empty;
      senderLive := true;
      receiverLive := true;
    }

    ghost function View(): Cell<T>
      reads this
    {
      Cell(state, senderLive, receiverLive)
    }

    /** Delivers the value, or hands it back when the receiver is gone. Uses the sender up. */
    method Send(value: T) returns (refused: Option<T>, woken: Option<nat>)
      requires Valid() && senderLive
      modifies this
      ensures Valid() && View() == After(old(View()), Sends(value))
      ensures EffectOf(old(View()), Sends(value)) == Effect(if refused.Some? then Returned(refused.value) else Kept, woken, None)
    {
      // A live sender rules out Ready, SenderDropped and Done.
      match state {
        case Empty =>
          state := Ready(value);
          refused, woken := None, None;
        case Waiting(waker) =>
          state := Ready(value);
          refused, woken := None, Some(waker);
        case ReceiverDropped =>
          refused, woken := Some(value), None;
      }
      senderLive := false;
    }

    /** Without a send, the receiver resolves as canceled. */
    method DropSender() returns (woken: Option<nat>)
      requires Valid() && senderLive
      modifies this
      ensures Valid() && View() == After(old(View()), SenderDrops)
      ensures EffectOf(old(View()), SenderDrops) == Effect(Kept, woken, None)
    {
      woken := None;
      match state {
        case Empty =>
          state := SenderDropped;
        case Waiting(waker) =>
          state := SenderDropped;
          woken := Some(waker);
        case ReceiverDropped =>
      }
      senderLive := false;
    }

    method PollReceiver(waker: nat) returns (result: Poll<T>)
      requires Valid() && receiverLive
      modifies this
      ensures Valid() && View() == After(old(View()), Polls(waker))
      ensures EffectOf(old(View()), Polls(waker)) == Effect(if result.Resolved? then Delivered(result.value) else Kept, None, Some(result))
    {
      match state
      case Empty =>
        state := Waiting(waker);
        result := Pending;
      case Waiting(_) =>
        state := Waiting(waker);
        result := Pending;
      case Ready(value) =>
        state := Done;
        result := Resolved(value);
      case SenderDropped =>
        state := Done;
        result := Canceled;
      case Done => result := Canceled;
    }

    /** An undelivered value goes with the receiver. */
    method DropReceiver() returns (discarded: Option<T>)
      requires Valid() && receiverLive
      modifies this
      ensures Valid() && View() == After(old(View()), ReceiverDrops)
      ensures EffectOf(old(View()), ReceiverDrops) == Effect(if discarded.Some? then Discarded(discarded.value) else Kept, None, None)
    {
      discarded := if state.Ready? then Some(state.value) else None;
      state := ReceiverDropped;
      receiverLive := false;
    }
  }

  ghost predicate Consistent<T>(state: State<T>, senderLive: bool, receiverLive: bool) {
    match state
    case Empty => senderLive && receiverLive
    case Waiting(_) => senderLive && receiverLive
    case Ready(_) => !senderLive && receiverLive
    case SenderDropped => !senderLive && receiverLive
    case Done => !senderLive && receiverLive
    case ReceiverDropped => !receiverLive
  }

  // ----- Interleavings -----

  datatype Cell<T> = Cell(state: State<T>, senderLive: bool, receiverLive: bool)

  datatype Event<T> = Sends(value: T) | SenderDrops | Polls(waker: nat) | ReceiverDrops

  /** Each half calls only while it is alive. */
  predicate Enabled<T>(c: Cell<T>, e: Event<T>) {
    if e.Sends? || e.SenderDrops? then c.senderLive else c.receiverLive
  }

  function Woken<T>(c: Cell<T>): Option<nat> {
    if c.state.Waiting? then Some(c.state.waker) else None
  }

  /** The cell after one call, as the channel's methods leave it. */
  function After<T>(c: Cell<T>, e: Event<T>): Cell<T> {
    match e
    case Sends(value) => Cell(if c.receiverLive then Ready(value) else ReceiverDropped, false, c.receiverLive)
    case SenderDrops => Cell(if c.receiverLive then SenderDropped else ReceiverDropped, false, c.receiverLive)
    case Polls(waker) => Cell(if c.senderLive then Waiting(waker) else Done, c.senderLive, true)
    case ReceiverDrops => Cell(ReceiverDropped, c.senderLive, false)
  }

  function Answer<T>(state: State<T>): Poll<T> {
    match state
    case Ready(value) => Resolved(value)
    case SenderDropped => Canceled
    case Done => Canceled
    case _ => Pending
  }

  function EffectOf<T>(c: Cell<T>, e: Event<T>): Effect<T> {
    match e
    case Sends(value) => Effect(if c.receiverLive then Kept else Returned(value), Woken(c), None)
    case SenderDrops => Effect(Kept, Woken(c), None)
    case Polls(_) => Effect(if c.state.Ready? then Delivered(c.state.value) else Kept, None, Some(Answer(c.state)))
    case ReceiverDrops => Effect(if c.state.Ready? then Discarded(c.state.value) else Kept, None, None)
  }

  ghost predicate Sound<T>(c: Cell<T>) {
    Consistent(c.state, c.senderLive, c.receiverLive)
  }

  /** A run of calls, each by a half that is alive. */
  ghost predicate Runs<T>(c: Cell<T>, events: seq<Event<T>>)
    decreases |events|
  {
    events == [] || (Enabled(c, events[0]) && Runs(After(c, events[0]), events[1..]))
  }

  function Final<T>(c: Cell<T>, events: seq<Event<T>>): Cell<T>
    decreases |events|
  {
    if events == [] then c else Final(After(c, events[0]), events[1..])
  }

  function Effects<T>(c: Cell<T>, events: seq<Event<T>>): (effects: seq<Effect<T>>)
    ensures |effects| == |events|
    decreases |events|
  {
    if events == [] then [] else [EffectOf(c, events[0])] + Effects(After(c, events[0]), events[1..])
  }

  function Fresh<T>(): Cell<T> {
    Cell(Empty, true, true)
  }

  lemma AfterSound<T>(c: Cell<T>, e: Event<T>)
    requires Sound(c) && Enabled(c, e)
    ensures Sound(After(c, e))
  {
  }

  lemma {:induction false} RunSound<T>(c: Cell<T>, events: seq<Event<T>>)
    requires Sound(c) && Runs(c, events)
    ensures Sound(Final(c, events))
    decreases |events|
  {
    if events != [] {
      AfterSound(c, events[0]);
      RunSound(After(c, events[0]), events[1..]);
    }
  }

  // ----- Conservation -----

  function SentBy<T>(e: Event<T>): multiset<T> {
    if e.Sends? then multiset{e.value} else multiset{}
  }

  function SettledBy<T>(effect: Effect<T>): multiset<T> {
    if effect.fate.Kept? then multiset{} else multiset{effect.fate.value}
  }

  function Sent<T>(events: seq<Event<T>>): multiset<T> {
    if events == [] then multiset{} else SentBy(events[0]) + Sent(events[1..])
  }

  function Settled<T>(effects: seq<Effect<T>>): multiset<T> {
    if effects == [] then multiset{} else SettledBy(effects[0]) + Settled(effects[1..])
  }

  function Buffered<T>(c: Cell<T>): multiset<T> {
    if c.state.Ready? then multiset{c.state.value} else multiset{}
  }

  lemma StepConserves<T>(c: Cell<T>, e: Event<T>)
    requires Sound(c) && Enabled(c, e)
    ensures Buffered(c) + SentBy(e) == SettledBy(EffectOf(c, e)) + Buffered(After(c, e))
  {
  }

  /** Every value sent is delivered, returned or discarded exactly once, or still buffered. */
  lemma {:induction false} ValuesAreConserved<T>(c: Cell<T>, events: seq<Event<T>>)
    requires Sound(c) && Runs(c, events)
    ensures Buffered(c) + Sent(events) == Settled(Effects(c, events)) + Buffered(Final(c, events))
    decreases |events|
  {
    hide Sound, EffectOf, After, Buffered, Enabled, SentBy, SettledBy;
    if events != [] {
      var next := After(c, events[0]);
      AfterSound(c, events[0]);
      ValuesAreConserved(next, events[1..]);
      calc {
        Buffered(c) + Sent(events);
        Buffered(c) + SentBy(events[0]) + Sent(events[1..]);
        { StepConserves(c, events[0]); }
        SettledBy(EffectOf(c, events[0])) + (Buffered(next) + Sent(events[1..]));
        SettledBy(EffectOf(c, events[0])) + Settled(Effects(next, events[1..])) + Buffered(Final(c, events));
        { assert Effects(c, events)[1..] == Effects(next, events[1..]); }
        Settled(Effects(c, events)) + Buffered(Final(c, events));
      }
    }
  }

  lemma {:induction false} SentOnce<T>(c: Cell<T>, events: seq<Event<T>>)
    requires Runs(c, events)
    ensures |Sent(events)| <= if c.senderLive then 1 else 0
    decreases |events|
  {
    if events != [] {
      SentOnce(After(c, events[0]), events[1..]);
    }
  }

  // ----- Waking -----

  lemma {:induction false} FinalSnoc<T>(c: Cell<T>, events: seq<Event<T>>, e: Event<T>)
    ensures Final(c, events + [e]) == After(Final(c, events), e)
    ensures Runs(c, events + [e]) <==> Runs(c, events) && Enabled(Final(c, events), e)
    decreases |events|
  {
    hide After, Enabled;
    if events == [] {
      assert (events + [e])[1..] == [];
      assert [e][1..] == [];
    } else {
      assert (events + [e])[1..] == events[1..] + [e];
      FinalSnoc(After(c, events[0]), events[1..], e);
    }
  }

  /**
   * A pending receiver has a live sender that holds its latest waker, and the sender's own last
   * call, send or drop, wakes it.
   */
  lemma PendingIsWoken<T>(events: seq<Event<T>>, last: Event<T>)
    requires Runs(Fresh<T>(), events + [last])
    requires Final(Fresh<T>(), events).state.Waiting?
    ensures var c := Final(Fresh<T>(), events);
            && c.senderLive && c.receiverLive && Latest(events) == Some(c.state.waker)
            && (last.Sends? || last.SenderDrops? ==> EffectOf(c, last).woken == Some(c.state.waker))
  {
    FinalSnoc(Fresh<T>(), events, last);
    RunSound(Fresh<T>(), events);
    WakerIsLatest(events);
  }

  /** The waker of the latest poll. */
  function Latest<T>(events: seq<Event<T>>): Option<nat> {
    if events == [] then None
    else
      var last := events[|events| - 1];
      if last.Polls? then Some(last.waker) else Latest(events[..|events| - 1])
  }

  lemma {:induction false} WakerIsLatest<T>(events: seq<Event<T>>)
    requires Runs(Fresh<T>(), events) && Final(Fresh<T>(), events).state.Waiting?
    ensures Latest(events) == Some(Final(Fresh<T>(), events).state.waker)
    decreases |events|
  {
    if events != [] {
      var k := |events| - 1;
      assert events == events[..k] + [events[k]];
      FinalSnoc(Fresh<T>(), events[..k], events[k]);
    }
  }

  // ----- What a poll answers -----

  /** The sender has made its last call, a send or a drop. */
  predicate SenderGone<T>(events: seq<Event<T>>) {
    exists i :: 0 <= i < |events| && (events[i].Sends? || events[i].SenderDrops?)
  }

  /** Call `i` sent a value that no poll has picked up since. */
  predicate Undelivered<T>(events: seq<Event<T>>, i: nat) {
    i < |events| && events[i].Sends? && forall j :: i < j < |events| ==> !events[j].Polls?
  }

  /** The cell as its history tells it: while the receiver lives, it is ready exactly with the undelivered value. */
  ghost predicate Tells<T>(events: seq<Event<T>>, c: Cell<T>) {
    && (c.senderLive <==> !SenderGone(events))
    && (c.receiverLive && c.state.Ready? ==> exists i: nat :: Undelivered(events, i) && events[i].value == c.state.value)
    && (c.receiverLive ==> forall i: nat :: Undelivered(events, i) ==> c.state == Ready(events[i].value))
  }

  lemma {:induction false} HistoryTells<T>(events: seq<Event<T>>)
    requires Runs(Fresh<T>(), events)
    ensures Tells(events, Final(Fresh<T>(), events))
    decreases |events|
  {
    if events != [] {
      var k := |events| - 1;
      var init, last := events[..k], events[k];
      assert events == init + [last];
      FinalSnoc(Fresh<T>(), init, last);
      HistoryTells(init);
      RunSound(Fresh<T>(), init);
      hide Runs, Final, Tells;
      TellsNext(init, last, Final(Fresh<T>(), init));
    }
  }

  lemma TellsNext<T>(init: seq<Event<T>>, last: Event<T>, c: Cell<T>)
    requires Tells(init, c) && Sound(c) && Enabled(c, last)
    ensures Tells(init + [last], After(c, last))
  {
    var events := init + [last];
    assert forall j :: 0 <= j < |init| ==> events[j] == init[j];
    assert events[|init|] == last;
    assert SenderGone(events) <==> SenderGone(init) || last.Sends? || last.SenderDrops?;
    forall i: nat | i < |init| ensures Undelivered(events, i) <==> Undelivered(init, i) && !last.Polls? {
    }
    assert Undelivered(events, |init|) <==> last.Sends?;
    assert forall i: nat :: Undelivered(init, i) ==> SenderGone(init);
  }

  /**
   * What a poll answers, over every interleaving: it waits exactly while the sender lives, resolves with
   * a value sent and not yet picked up, and is otherwise canceled.
   */
  lemma PollAnswers<T>(events: seq<Event<T>>, waker: nat)
    requires Runs(Fresh<T>(), events + [Polls(waker)])
    ensures var answer := EffectOf(Final(Fresh<T>(), events), Polls(waker)).answer;
      && (answer == Some(Pending) <==> !SenderGone(events))
      && (forall i: nat :: Undelivered(events, i) ==> answer == Some(Resolved(events[i].value)))
      && (SenderGone(events) && (forall i: nat :: !Undelivered(events, i)) ==> answer == Some(Canceled))
  {
    FinalSnoc(Fresh<T>(), events, Polls(waker));
    HistoryTells(events);
    RunSound(Fresh<T>(), events);
    hide Runs, Final, Undelivered, SenderGone;
  }

  /** A resolved receiver stays resolved: every later poll is canceled. */
  lemma {:induction false} DoneIsFinal<T>(c: Cell<T>, events: seq<Event<T>>)
    requires Sound(c) && c.state.Done? && Runs(c, events)
    ensures Sent(events) == multiset{} && Final(c, events).state in {Done, ReceiverDropped}
    ensures forall i :: 0 <= i < |events| ==>
      Effects(c, events)[i] == Effect(Kept, None, if events[i].Polls? then Some(Canceled) else None)
    decreases |events|
  {
    if events != [] {
      var next := After(c, events[0]);
      if next.state.Done? {
        DoneIsFinal(next, events[1..]);
      } else {
        GoneIsFinal(next, events[1..]);
      }
    }
  }

  lemma {:induction false} GoneIsFinal<T>(c: Cell<T>, events: seq<Event<T>>)
    requires !c.senderLive && !c.receiverLive && Runs(c, events)
    ensures events == []
  {
  }
}
