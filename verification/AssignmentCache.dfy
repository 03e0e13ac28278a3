/**
 * The client's cache of consumer-group assignments: a locked map, and a counter that is
 * bumped under the lock before every change so that readers may keep earlier answers.
 */
module AssignmentCache {
  import opened Common
  import opened RoundRobin

  const U64_SIZE := 0x1_0000_0000_0000_0000

  datatype GroupAssignment = GroupAssignment(partitions: seq<nat>, generation: nat, cursor: nat)

  datatype AssignmentVersion = AssignmentVersion(session: nat, generation: nat)

  datatype GroupState = GroupState(generation: nat, assignments: map<string, GroupAssignment>, joined: set<string>)

  datatype ApplyError = TransientNotAccepted

  /** The changes that bump the counter. */
  datatype Change =
    | SetAssignment(key: string, generation: nat, partitions: seq<nat>)
    | InvalidateAssignment(key: string)
    | RegisterGroup(key: string)
    | DeregisterGroup(key: string)
    | ClearSessionScoped
    | ApplyGroupAssignment(session: nat, key: string, assignment: Option<(nat, seq<nat>)>)

  // ----- The guarded state -----

  predicate IsCurrent(g: GroupState, key: string, version: AssignmentVersion, partition: nat) {
    && key in g.joined && g.generation == version.session && key in g.assignments
    && g.assignments[key].generation == version.generation && partition in g.assignments[key].partitions
  }

  /** Replaces an assignment; a new generation restarts the cursor. */
  function Assigned(g: GroupState, key: string, generation: nat, partitions: seq<nat>): GroupState {
    var cursor := if key in g.assignments && g.assignments[key].generation == generation then g.assignments[key].cursor else 0;
    g.(assignments := g.assignments[key := GroupAssignment(partitions, generation, cursor)])
  }

  function Changed(g: GroupState, c: Change): GroupState {
    match c
    case SetAssignment(key, generation, partitions) => Assigned(g, key, generation, partitions)
    case InvalidateAssignment(key) => g.(assignments := g.assignments - {key})
    case RegisterGroup(key) => g.(joined := g.joined + {key})
    case DeregisterGroup(key) => g.(joined := g.joined - {key})
    case ClearSessionScoped => GroupState(g.generation + 1, map[], {})
    case ApplyGroupAssignment(session, key, assignment) =>
      if g.generation != session then g
      else
        match assignment
        case None => g.(assignments := g.assignments - {key}, joined := g.joined - {key})
        case Some((generation, partitions)) => Assigned(g.(joined := g.joined + {key}), key, generation, partitions)
  }

  /** The poll cursor's next partition and the state after it. */
  function NextPartition(g: GroupState, key: string): (GroupState, Option<nat>) {
    if key !in g.assignments || g.assignments[key].partitions == [] then (g, None)
    else
      var a := g.assignments[key];
      (g.(assignments := g.assignments[key := a.(cursor := (a.cursor + 1) % U64_SIZE)]),
       Some(a.partitions[a.cursor % |a.partitions|]))
  }

  /** Moving a poll cursor changes no verdict, which is why it leaves the counter alone. */
  lemma CursorIsInvisible(g: GroupState, moved: string, key: string, version: AssignmentVersion, partition: nat)
    ensures IsCurrent(NextPartition(g, moved).0, key, version, partition) == IsCurrent(g, key, version, partition)
  {
  }

  /**
   * What each change does to what is current: an assignment makes exactly its own partitions current
   * under its own version, a dropped or left group and a new session leave nothing, and no change
   * touches another group.
   */
  lemma CurrentAfter(g: GroupState, change: Change, key: string, version: AssignmentVersion, partition: nat)
    ensures IsCurrent(Changed(g, change), key, version, partition) <==>
      match change
      case SetAssignment(k, generation, partitions) =>
        if k != key then IsCurrent(g, key, version, partition)
        else key in g.joined && version == AssignmentVersion(g.generation, generation) && partition in partitions
      case InvalidateAssignment(k) => k != key && IsCurrent(g, key, version, partition)
      case RegisterGroup(k) =>
        if k != key then IsCurrent(g, key, version, partition)
        else
          && key in g.assignments && version == AssignmentVersion(g.generation, g.assignments[key].generation)
          && partition in g.assignments[key].partitions
      case DeregisterGroup(k) => k != key && IsCurrent(g, key, version, partition)
      case ClearSessionScoped => false
      case ApplyGroupAssignment(session, k, assignment) =>
        if k != key || session != g.generation then IsCurrent(g, key, version, partition)
        else assignment.Some? && version == AssignmentVersion(session, assignment.value.0) && partition in assignment.value.1
  {
  }

  /** A new generation restarts the poll cursor at the first partition; the same one goes on where it was. */
  lemma CursorRestarts(g: GroupState, key: string, generation: nat, partitions: seq<nat>)
    requires partitions != []
    ensures NextPartition(Changed(g, SetAssignment(key, generation, partitions)), key).1 ==
      Some(if key in g.assignments && g.assignments[key].generation == generation
           then partitions[g.assignments[key].cursor % |partitions|] else partitions[0])
  {
  }

  // ----- The poll cursor -----

  /** The state after `k` polls of a group. */
  function Polled(g: GroupState, key: string, k: nat): GroupState {
    if k == 0 then g else NextPartition(Polled(g, key, k - 1), key).0
  }

  lemma {:induction false} PolledAt(g: GroupState, key: string, k: nat)
    requires key in g.assignments && g.assignments[key].partitions != [] && g.assignments[key].cursor < U64_SIZE
    ensures var a := g.assignments[key];
      Polled(g, key, k) == g.(assignments := g.assignments[key := a.(cursor := Wrapped(a.cursor, k, U64_SIZE))])
  {
    hide Wrapped, NextPartition;
    var a := g.assignments[key];
    if k == 0 {
      WrappedStart(a.cursor, U64_SIZE);
      assert g.assignments[key := a] == g.assignments;
    } else {
      PolledAt(g, key, k - 1);
      WrappedNext(a.cursor, k - 1, U64_SIZE);
      CursorMoved(g, key, Wrapped(a.cursor, k - 1, U64_SIZE));
    }
  }

  lemma CursorMoved(g: GroupState, key: string, cursor: nat)
    requires key in g.assignments && g.assignments[key].partitions != []
    ensures var a := g.assignments[key];
      NextPartition(g.(assignments := g.assignments[key := a.(cursor := cursor)]), key).0
        == g.(assignments := g.assignments[key := a.(cursor := (cursor + 1) % U64_SIZE)])
  {
    var a := g.assignments[key];
    var moved := g.assignments[key := a.(cursor := cursor)];
    var after := a.(cursor := (cursor + 1) % U64_SIZE);
    assert moved[key := after] == g.assignments[key := after];
  }

  /** Every partition gets its turn within a round of polls exactly unless the wrapping cursor breaks it. */
  lemma RoundVisitsAllIff(g: GroupState, key: string)
    requires key in g.assignments && g.assignments[key].partitions != [] && g.assignments[key].cursor < U64_SIZE
    ensures var a := g.assignments[key];
      forall k: nat :: NextPartition(Polled(g, key, k), key).1
        == Some(a.partitions[Position(a.cursor, |a.partitions|, k, U64_SIZE)])
    ensures var a := g.assignments[key];
      VisitsAll(a.cursor, |a.partitions|, U64_SIZE) <==> a.cursor + |a.partitions| <= U64_SIZE || U64_SIZE % |a.partitions| == 0
  {
    hide VisitsAll, Wrapped;
    var a := g.assignments[key];
    forall k: nat ensures NextPartition(Polled(g, key, k), key).1 == Some(a.partitions[Position(a.cursor, |a.partitions|, k, U64_SIZE)]) {
      PolledAt(g, key, k);
    }
    RoundRobinIff(a.cursor, |a.partitions|, U64_SIZE);
  }

  /** Three partitions at the last cursor value: the first gets two turns in a row and the third none. */
  lemma WrappedRoundSkipsOne()
    ensures !VisitsAll(U64_SIZE - 1, 3, U64_SIZE)
    ensures Position(U64_SIZE - 1, 3, 0, U64_SIZE) == 0 && Position(U64_SIZE - 1, 3, 1, U64_SIZE) == 0
    ensures Position(U64_SIZE - 1, 3, 2, U64_SIZE) == 1
  {
    RoundRobinIff(U64_SIZE - 1, 3, U64_SIZE);
  }

  // ----- The object -----

  class ConsumerGroupClientState {
    var groups: GroupState
    var assignmentChanges: nat

    constructor ()
      ensures groups == GroupState(0, map[], {}) && assignmentChanges == 0
    {
      groups := GroupState(0, map[], {});
      assignmentChanges := 0;
    }

    /** The locked state for a change: the counter moves first. */
    method GroupsMut() returns (g: GroupState)
      modifies this`assignmentChanges
      ensures g == groups && assignmentChanges == (old(assignmentChanges) + 1) % U64_SIZE
    {
      assignmentChanges := (assignmentChanges + 1) % U64_SIZE;
      return groups;
    }

    method IsCurrentAssignment(key: string, version: AssignmentVersion, partition: nat) returns (current: bool)
      ensures current == IsCurrent(groups, key, version, partition)
    {
      if key !in groups.joined || groups.generation != version.session || key !in groups.assignments {
        return false;
      }
      var a := groups.assignments[key];
      if a.generation != version.generation {
        return false;
      }
      current := false;
      for i := 0 to |a.partitions|
        invariant current <==> partition in a.partitions[..i]
      {
        assert a.partitions[..i + 1] == a.partitions[..i] + [a.partitions[i]];
        current := current || a.partitions[i] == partition;
      }
      assert a.partitions[..|a.partitions|] == a.partitions;
    }

    /** What a poll captures is current as long as nothing changes. */
    method AssignmentSnapshot(key: string) returns (version: AssignmentVersion, partitions: seq<nat>)
      ensures version.session == groups.generation
      ensures key in groups.joined ==> forall p :: p in partitions <==> IsCurrent(groups, key, version, p)
    {
      if key !in groups.assignments {
        return AssignmentVersion(groups.generation, 0), [];
      }
      return AssignmentVersion(groups.generation, groups.assignments[key].generation), groups.assignments[key].partitions;
    }

    method DoSetAssignment(key: string, generation: nat, partitions: seq<nat>)
      modifies this
      ensures groups == Changed(old(groups), SetAssignment(key, generation, partitions))
      ensures assignmentChanges == (old(assignmentChanges) + 1) % U64_SIZE
    {
      var g := GroupsMut();
      groups := Assigned(g, key, generation, partitions);
    }

    method DoClearSessionScoped()
      modifies this
      ensures groups == Changed(old(groups), ClearSessionScoped)
      ensures assignmentChanges == (old(assignmentChanges) + 1) % U64_SIZE
    {
      var g := GroupsMut();
      groups := GroupState(g.generation + 1, map[], {});
    }

    /** Publishes membership and assignment together, only for the session that asked. */
    method DoApplyGroupAssignment(session: nat, key: string, assignment: Option<(nat, seq<nat>)>) returns (r: Result<(), ApplyError>)
      modifies this
      ensures groups == Changed(old(groups), ApplyGroupAssignment(session, key, assignment))
      ensures r.Ok? <==> session == old(groups).generation
      ensures assignmentChanges == (old(assignmentChanges) + 1) % U64_SIZE
    {
      var g := GroupsMut();
      if g.generation != session {
        return Err(TransientNotAccepted);
      }
      if assignment.None? {
        groups := g.(assignments := g.assignments - {key}, joined := g.joined - {key});
        return Ok(());
      }
      g := g.(joined := g.joined + {key});
      groups := Assigned(g, key, assignment.value.0, assignment.value.1);
      return Ok(());
    }

    method NextGroupPartition(key: string) returns (partition: Option<nat>)
      modifies this`groups
      ensures (groups, partition) == NextPartition(old(groups), key)
    {
      if key !in groups.assignments || groups.assignments[key].partitions == [] {
        return None;
      }
      var a := groups.assignments[key];
      var i := a.cursor % |a.partitions|;
      groups := groups.(assignments := groups.assignments[key := a.(cursor := (a.cursor + 1) % U64_SIZE)]);
      return Some(a.partitions[i]);
    }
  }

  // ----- The session fence -----

  function ChangedAll(g: GroupState, changes: seq<Change>): GroupState
    decreases |changes|
  {
    if changes == [] then g else ChangedAll(Changed(g, changes[0]), changes[1..])
  }

  lemma {:induction false} SessionsOnlyAdvance(g: GroupState, changes: seq<Change>)
    ensures ChangedAll(g, changes).generation >= g.generation
    ensures ClearSessionScoped in changes ==> ChangedAll(g, changes).generation > g.generation
    decreases |changes|
  {
    if changes != [] {
      SessionsOnlyAdvance(Changed(g, changes[0]), changes[1..]);
    }
  }

  /** A version captured before a session reset is never current again, whatever is assigned later. */
  lemma ResetFencesVersions(g: GroupState, changes: seq<Change>, key: string, version: AssignmentVersion, partition: nat)
    requires version.session <= g.generation && ClearSessionScoped in changes
    ensures !IsCurrent(ChangedAll(g, changes), key, version, partition)
  {
    SessionsOnlyAdvance(g, changes);
  }

  // ----- Interleavings -----

  /** Where a thread is. A reader's kept answer remembers the count it loaded before reading. */
  datatype Thread =
    | Idle
    | WriterHolding
    | WriterBumped
    | ReaderLoaded(count: nat)
    | ReaderHolding(count: nat)
    | Kept(count: nat, key: string, version: AssignmentVersion, partition: nat, answer: bool)
  {
    predicate HoldsLock() {
      WriterHolding? || WriterBumped? || ReaderHolding?
    }
  }

  /** The shared object and its threads; `changes` counts every bump, the atomic holds it modulo 2^64. */
  datatype System = System(groups: GroupState, changes: nat, threads: seq<Thread>)

  datatype Action =
    | WriterLocks
    | WriterBumps
    | WriterChanges(change: Change)
    | WriterUnlocks
    | ReaderLoads
    | ReaderLocks
    | ReaderReads(key: string, version: AssignmentVersion, partition: nat)
    | CursorMoves(key: string)

  ghost predicate LockFree(s: System) {
    forall t :: 0 <= t < |s.threads| ==> !s.threads[t].HoldsLock()
  }

  /** Thread `t` can take this action now. */
  ghost predicate Enabled(s: System, t: nat, a: Action)
    requires t < |s.threads|
  {
    match a
    case WriterLocks => !s.threads[t].HoldsLock() && LockFree(s)
    case WriterBumps => s.threads[t].WriterHolding?
    case WriterChanges(_) => s.threads[t].WriterBumped?
    case WriterUnlocks => s.threads[t].WriterBumped?
    case ReaderLoads => !s.threads[t].HoldsLock()
    case ReaderLocks => s.threads[t].ReaderLoaded? && LockFree(s)
    case ReaderReads(_, _, _) => s.threads[t].ReaderHolding?
    case CursorMoves(_) => !s.threads[t].HoldsLock() && LockFree(s)
  }

  function Stepped(s: System, t: nat, a: Action): System
    requires t < |s.threads|
  {
    match a
    case WriterLocks => s.(threads := s.threads[t := WriterHolding])
    case WriterBumps => s.(changes := s.changes + 1, threads := s.threads[t := WriterBumped])
    case WriterChanges(change) => s.(groups := Changed(s.groups, change))
    case WriterUnlocks => s.(threads := s.threads[t := Idle])
    case ReaderLoads => s.(threads := s.threads[t := ReaderLoaded(s.changes)])
    case ReaderLocks => if s.threads[t].ReaderLoaded? then s.(threads := s.threads[t := ReaderHolding(s.threads[t].count)]) else s
    case ReaderReads(key, version, partition) =>
      if s.threads[t].ReaderHolding?
      then s.(threads := s.threads[t := Kept(s.threads[t].count, key, version, partition, IsCurrent(s.groups, key, version, partition))])
      else s
    case CursorMoves(key) => s.(groups := NextPartition(s.groups, key).0)
  }

  /** One holder at a time; a kept answer under an unmoved count is current and nobody is mid-change. */
  ghost predicate Inv(s: System) {
    && (forall t, u :: 0 <= t < u < |s.threads| ==> !(s.threads[t].HoldsLock() && s.threads[u].HoldsLock()))
    && (forall t :: 0 <= t < |s.threads| ==> ThreadOk(s, s.threads[t]))
  }

  ghost predicate ThreadOk(s: System, thread: Thread) {
    match thread
    case ReaderLoaded(count) => count <= s.changes
    case ReaderHolding(count) => count <= s.changes
    case Kept(count, key, version, partition, answer) =>
      && count <= s.changes
      && (count == s.changes ==> answer == IsCurrent(s.groups, key, version, partition) && NobodyBumped(s))
    case _ => true
  }

  ghost predicate NobodyBumped(s: System) {
    forall t :: 0 <= t < |s.threads| ==> !s.threads[t].WriterBumped?
  }

  lemma StepKeepsInv(s: System, t: nat, a: Action)
    requires Inv(s) && t < |s.threads| && Enabled(s, t, a)
    ensures Inv(Stepped(s, t, a))
  {
    var after := Stepped(s, t, a);
    forall u | 0 <= u < |after.threads| ensures ThreadOk(after, after.threads[u]) {
      assert ThreadOk(s, s.threads[u]);
      StepKeepsThread(s, t, a, u);
    }
  }

  lemma StepKeepsThread(s: System, t: nat, a: Action, u: nat)
    requires Inv(s) && t < |s.threads| && u < |s.threads| && Enabled(s, t, a) && ThreadOk(s, s.threads[u])
    ensures ThreadOk(Stepped(s, t, a), Stepped(s, t, a).threads[u])
  {
    hide Changed, NextPartition, IsCurrent;
    if a.CursorMoves? && s.threads[u].Kept? {
      CursorIsInvisible(s.groups, a.key, s.threads[u].key, s.threads[u].version, s.threads[u].partition);
    }
  }

  // ----- Runs -----

  datatype Event = Event(thread: nat, action: Action)

  ghost predicate Runs(s: System, events: seq<Event>)
    decreases |events|
  {
    events == [] ||
    (&& events[0].thread < |s.threads| && Enabled(s, events[0].thread, events[0].action)
     && Runs(Stepped(s, events[0].thread, events[0].action), events[1..]))
  }

  ghost function Final(s: System, events: seq<Event>): (t: System)
    requires Runs(s, events)
    ensures |t.threads| == |s.threads|
    decreases |events|
  {
    if events == [] then s else Final(Stepped(s, events[0].thread, events[0].action), events[1..])
  }

  lemma {:induction false} RunKeepsInv(s: System, events: seq<Event>)
    requires Inv(s) && Runs(s, events)
    ensures Inv(Final(s, events)) && |Final(s, events).threads| == |s.threads|
    decreases |events|
  {
    hide Inv, Enabled, Stepped;
    if events != [] {
      StepKeepsInv(s, events[0].thread, events[0].action);
      SameThreads(s, events[0].thread, events[0].action);
      RunKeepsInv(Stepped(s, events[0].thread, events[0].action), events[1..]);
    }
  }

  lemma SameThreads(s: System, t: nat, a: Action)
    requires t < |s.threads|
    ensures |Stepped(s, t, a).threads| == |s.threads|
  {
  }

  lemma StepAdvancesSession(s: System, t: nat, a: Action)
    requires t < |s.threads|
    ensures Stepped(s, t, a).groups.generation >= s.groups.generation
    ensures a == WriterChanges(ClearSessionScoped) ==> Stepped(s, t, a).groups.generation > s.groups.generation
  {
  }

  /** In every interleaving with a session reset, what was captured before the reset stays out of date. */
  lemma {:induction false} ResetFencesEveryRun(s: System, events: seq<Event>, i: nat, key: string, version: AssignmentVersion, partition: nat)
    requires Runs(s, events) && version.session <= s.groups.generation
    requires i < |events| && events[i].action == WriterChanges(ClearSessionScoped)
    ensures !IsCurrent(Final(s, events).groups, key, version, partition)
    decreases |events|
  {
    SessionAdvancesTo(s, events, i);
  }

  lemma {:induction false} SessionAdvancesTo(s: System, events: seq<Event>, i: nat)
    requires Runs(s, events) && i <= |events|
    ensures Final(s, events).groups.generation >= s.groups.generation
    ensures i < |events| && events[i].action == WriterChanges(ClearSessionScoped) ==>
      Final(s, events).groups.generation > s.groups.generation
    decreases |events|
  {
    hide Enabled, Stepped;
    if events != [] {
      StepAdvancesSession(s, events[0].thread, events[0].action);
      SessionAdvancesTo(Stepped(s, events[0].thread, events[0].action), events[1..], if i == 0 then 0 else i - 1);
    }
  }

  function Start(threads: nat): System {
    System(GroupState(0, map[], {}), 0, seq(threads, _ => Idle))
  }

  /**
   * In every interleaving, a reader that finds the counter where it left it may keep its answer.
   * The 64-bit counter reads the same only if it did not move, unless 2^64 changes went by.
   */
  lemma KeptAnswersAreCurrent(threads: nat, events: seq<Event>, t: nat)
    requires t < threads && Runs(Start(threads), events)
    requires Final(Start(threads), events).threads[t].Kept?
    requires var s := Final(Start(threads), events);
             var kept := s.threads[t];
             s.changes % U64_SIZE == kept.count % U64_SIZE && s.changes < kept.count + U64_SIZE
    ensures var s := Final(Start(threads), events);
            var kept := s.threads[t];
            kept.answer == IsCurrent(s.groups, kept.key, kept.version, kept.partition)
  {
    hide Final, Runs, IsCurrent;
    RunKeepsInv(Start(threads), events);
    var s := Final(Start(threads), events);
    var kept := s.threads[t];
    assert ThreadOk(s, kept);
    SameModulo(s.changes, kept.count);
  }

  lemma SameModulo(a: nat, b: nat)
    requires b <= a < b + U64_SIZE && a % U64_SIZE == b % U64_SIZE
    ensures a == b
  {
  }

  // ----- The counter's width -----

  /** A session that joins one group with one partition, however often it is published. */
  const PUBLISH := ApplyGroupAssignment(0, "g", Some((0, [0])))

  /** Thread 1 publishing the assignment `n` times over. */
  function Publishes(n: nat): seq<Event> {
    if n == 0 then []
    else [Event(1, WriterLocks)] + ([Event(1, WriterBumps)] + ([Event(1, WriterChanges(PUBLISH))] + ([Event(1, WriterUnlocks)] + Publishes(n - 1))))
  }

  lemma RunsCons(s: System, e: Event, rest: seq<Event>)
    requires e.thread < |s.threads| && Enabled(s, e.thread, e.action) && Runs(Stepped(s, e.thread, e.action), rest)
    ensures Runs(s, [e] + rest) && Final(s, [e] + rest) == Final(Stepped(s, e.thread, e.action), rest)
  {
    assert ([e] + rest)[1..] == rest;
  }

  function Published(): GroupState {
    GroupState(0, map["g" := GroupAssignment([0], 0, 0)], {"g"})
  }

  /** Only thread 0's kept answer and an idle writer. */
  ghost predicate Quiet(s: System) {
    && |s.threads| == 2 && s.threads[0].Kept? && s.threads[1].Idle?
    && (s.groups == GroupState(0, map[], {}) || s.groups == Published())
  }

  lemma PublishedAgain(g: GroupState)
    requires g == GroupState(0, map[], {}) || g == Published()
    ensures Changed(g, PUBLISH) == Published()
  {
  }

  lemma {:induction false} PublishesRun(s: System, n: nat)
    requires Quiet(s)
    ensures Runs(s, Publishes(n))
    ensures Final(s, Publishes(n)) == s.(changes := s.changes + n, groups := if n == 0 then s.groups else Published())
    decreases n
  {
    hide Runs, Final, Changed;
    if n == 0 {
      RunsNothing(s);
    } else {
      var rest := Publishes(n - 1);
      var a := Stepped(s, 1, WriterLocks);
      var b := Stepped(a, 1, WriterBumps);
      var c := Stepped(b, 1, WriterChanges(PUBLISH));
      var d := Stepped(c, 1, WriterUnlocks);
      PublishedAgain(s.groups);
      assert d.threads == s.threads;
      PublishesRun(d, n - 1);
      RunsCons(c, Event(1, WriterUnlocks), rest);
      RunsCons(b, Event(1, WriterChanges(PUBLISH)), [Event(1, WriterUnlocks)] + rest);
      RunsCons(a, Event(1, WriterBumps), [Event(1, WriterChanges(PUBLISH))] + ([Event(1, WriterUnlocks)] + rest));
      RunsCons(s, Event(1, WriterLocks),
               [Event(1, WriterBumps)] + ([Event(1, WriterChanges(PUBLISH))] + ([Event(1, WriterUnlocks)] + rest)));
    }
  }

  lemma RunsNothing(s: System)
    ensures Runs(s, []) && Final(s, []) == s
  {
  }

  /** After exactly 2^64 changes the counter reads as if nothing had moved, and a kept answer can be stale. */
  lemma WrappedCounterKeepsStale() returns (events: seq<Event>)
    ensures Runs(Start(2), events) && Final(Start(2), events).threads[0].Kept?
    ensures var s := Final(Start(2), events);
            var kept := s.threads[0];
            && s.changes % U64_SIZE == kept.count % U64_SIZE && s.changes == kept.count + U64_SIZE
            && kept.answer != IsCurrent(s.groups, kept.key, kept.version, kept.partition)
  {
    hide Runs, Final;
    var version := AssignmentVersion(0, 0);
    var rest := Publishes(U64_SIZE);
    var s := Start(2);
    var a := Stepped(s, 0, ReaderLoads);
    var b := Stepped(a, 0, ReaderLocks);
    var c := Stepped(b, 0, ReaderReads("g", version, 0));
    PublishesRun(c, U64_SIZE);
    hide Publishes;
    RunsCons(b, Event(0, ReaderReads("g", version, 0)), rest);
    RunsCons(a, Event(0, ReaderLocks), [Event(0, ReaderReads("g", version, 0))] + rest);
    events := [Event(0, ReaderLoads)] + ([Event(0, ReaderLocks)] + ([Event(0, ReaderReads("g", version, 0))] + rest));
    RunsCons(s, Event(0, ReaderLoads), [Event(0, ReaderLocks)] + ([Event(0, ReaderReads("g", version, 0))] + rest));
  }
}
