/**
 * The slot array behind the client table and the index that names its occupied slots.
 * A lazily grown array hands out the same slots as a preallocated one.
 */
module Slots {
  import opened Common
  import opened ClientEntry
  import opened ClientBook

  type SlotArray = seq<Option<Entry>>
  type Index = map<nat, nat>

  /** The index names exactly the occupied slots, each by the client it holds. */
  ghost predicate Mirror(slots: SlotArray, index: Index) {
    && (forall c :: c in index ==> index[c] < |slots| && slots[index[c]].Some? && slots[index[c]].value.client == c)
    && (forall i :: 0 <= i < |slots| && slots[i].Some? ==> slots[i].value.client in index && index[slots[i].value.client] == i)
  }

  function EmptySlots(n: nat): (slots: SlotArray)
    ensures |slots| == n && forall i :: 0 <= i < n ==> slots[i] == None
  {
    if n == 0 then [] else [None] + EmptySlots(n - 1)
  }

  ghost predicate OccupiedBelow(slots: SlotArray, max: nat) {
    forall i :: 0 <= i < |slots| && slots[i].Some? ==> i < max
  }

  ghost function Sessions(slots: SlotArray, index: Index): Book
    requires Mirror(slots, index)
  {
    map c | c in index :: slots[index[c]].value
  }

  /** The lowest index whose slot is empty; the first index past the end if none is. */
  function LowestFree(slots: SlotArray): (k: nat)
    ensures k <= |slots| && (k < |slots| ==> slots[k].None?)
    ensures forall i :: 0 <= i < k ==> slots[i].Some?
  {
    if slots == [] || slots[0].None? then 0
    else
      var k := LowestFree(slots[1..]);
      assert forall i :: 0 < i < k + 1 ==> slots[i] == slots[1..][i - 1];
      k + 1
  }

  function Placed(slots: SlotArray, e: Entry): SlotArray {
    var k := LowestFree(slots);
    if k < |slots| then slots[k := Some(e)] else slots + [Some(e)]
  }

  // ----- Occupancy -----

  function Occupied(slots: SlotArray): nat {
    if slots == [] then 0
    else Occupied(slots[..|slots| - 1]) + if slots[|slots| - 1].Some? then 1 else 0
  }

  /** The index has one name per occupied slot. */
  lemma {:induction false} IndexCounts(slots: SlotArray, index: Index)
    requires Mirror(slots, index)
    ensures |index| == Occupied(slots)
    decreases |slots|
  {
    if slots == [] {
      assert index == map[];
    } else {
      var k := |slots| - 1;
      if slots[k].None? {
        DropEmpty(slots, index);
        IndexCounts(slots[..k], index);
      } else {
        var c := slots[k].value.client;
        DropLast(slots, index);
        IndexCounts(slots[..k], index - {c});
        hide Mirror;
        assert |index.Keys| == |index.Keys - {c}| + 1;
        assert |index| == |index.Keys| && |index - {c}| == |(index - {c}).Keys|;
      }
    }
  }

  lemma DropEmpty(slots: SlotArray, index: Index)
    requires Mirror(slots, index) && slots != [] && slots[|slots| - 1].None?
    ensures Mirror(slots[..|slots| - 1], index)
  {
    assert forall c :: c in index ==> index[c] != |slots| - 1;
  }

  lemma DropLast(slots: SlotArray, index: Index)
    requires Mirror(slots, index) && slots != [] && slots[|slots| - 1].Some?
    ensures slots[|slots| - 1].value.client in index
    ensures Mirror(slots[..|slots| - 1], index - {slots[|slots| - 1].value.client})
    ensures (index - {slots[|slots| - 1].value.client}).Keys == index.Keys - {slots[|slots| - 1].value.client}
  {
    var init := slots[..|slots| - 1];
    assert forall i :: 0 <= i < |init| ==> init[i] == slots[i];
  }

  lemma {:induction false} OccupiedCeiling(slots: SlotArray, max: nat)
    requires OccupiedBelow(slots, max)
    ensures Occupied(slots) <= Min(|slots|, max)
    ensures Occupied(slots) == |slots| <==> forall i :: 0 <= i < |slots| ==> slots[i].Some?
    decreases |slots|
  {
    if slots != [] {
      var k := |slots| - 1;
      var init := slots[..k];
      assert forall i :: 0 <= i < k ==> init[i] == slots[i];
      OccupiedCeiling(init, Min(max, k));
      OccupiedCeiling(init, max);
    }
  }

  /** While the index is below capacity the lowest free slot is too. */
  lemma FreeSlotInRange(slots: SlotArray, index: Index, max: nat)
    requires Mirror(slots, index) && OccupiedBelow(slots, max) && |index| < max
    ensures LowestFree(slots) < max
    ensures |index| < |slots| <==> LowestFree(slots) < |slots|
  {
    IndexCounts(slots, index);
    OccupiedCeiling(slots, max);
    var k := LowestFree(slots);
    if k >= max {
      FullPrefix(slots, max);
    }
  }

  lemma {:induction false} FullPrefix(slots: SlotArray, n: nat)
    requires n <= |slots| && forall i :: 0 <= i < n ==> slots[i].Some?
    ensures Occupied(slots) >= n
    decreases |slots|
  {
    if n > 0 {
      var init := slots[..|slots| - 1];
      if n == |slots| {
        FullPrefix(init, n - 1);
      } else {
        FullPrefix(init, n);
      }
    }
  }

  // ----- Updates -----

  lemma ReplaceMirrors(slots: SlotArray, index: Index, c: nat, e: Entry)
    requires Mirror(slots, index) && c in index && e.client == c
    ensures Mirror(slots[index[c] := Some(e)], index)
    ensures Sessions(slots[index[c] := Some(e)], index) == Sessions(slots, index)[c := e]
  {
  }

  lemma PlaceMirrors(slots: SlotArray, index: Index, e: Entry)
    requires Mirror(slots, index) && e.client !in index
    ensures Mirror(Placed(slots, e), index[e.client := LowestFree(slots)])
    ensures Sessions(Placed(slots, e), index[e.client := LowestFree(slots)]) == Sessions(slots, index)[e.client := e]
  {
    var k := LowestFree(slots);
    if k < |slots| {
      FillMirrors(slots, index, e, k);
    } else {
      AppendMirrors(slots, index, e);
    }
  }

  lemma FillMirrors(slots: SlotArray, index: Index, e: Entry, k: nat)
    requires Mirror(slots, index) && e.client !in index && k < |slots| && slots[k].None?
    ensures Mirror(slots[k := Some(e)], index[e.client := k])
    ensures Sessions(slots[k := Some(e)], index[e.client := k]) == Sessions(slots, index)[e.client := e]
  {
  }

  lemma AppendMirrors(slots: SlotArray, index: Index, e: Entry)
    requires Mirror(slots, index) && e.client !in index
    ensures Mirror(slots + [Some(e)], index[e.client := |slots|])
    ensures Sessions(slots + [Some(e)], index[e.client := |slots|]) == Sessions(slots, index)[e.client := e]
  {
  }

  lemma ReleaseMirrors(slots: SlotArray, index: Index, c: nat)
    requires Mirror(slots, index) && c in index
    ensures Mirror(slots[index[c] := None], index - {c})
    ensures Sessions(slots[index[c] := None], index - {c}) == Sessions(slots, index) - {c}
  {
  }

  lemma SessionsSize(slots: SlotArray, index: Index)
    requires Mirror(slots, index)
    ensures Sessions(slots, index).Keys == index.Keys && |Sessions(slots, index)| == |index|
  {
    assert |Sessions(slots, index)| == |Sessions(slots, index).Keys|;
  }

  // ----- Revocation -----

  /** The slot once its user's sessions end. */
  function EndedSlot(slot: Option<Entry>, user: nat, endedOp: nat): Option<Entry> {
    if slot.Some? && slot.value.user == user && slot.value.endedOp.None? then Some(Ended(slot.value, endedOp)) else slot
  }

  /** The sessions that end, in slot order. */
  function EndedIdentities(slots: SlotArray, user: nat, endedOp: nat): seq<SessionIdentity> {
    if slots == [] then []
    else
      var last := slots[|slots| - 1];
      EndedIdentities(slots[..|slots| - 1], user, endedOp) +
      if EndedSlot(last, user, endedOp) != last then [SessionIdentity(last.value.client, last.value.epoch, endedOp)] else []
  }

  lemma EndedMirrors(slots: SlotArray, index: Index, after: SlotArray, user: nat, endedOp: nat)
    requires Mirror(slots, index) && |after| == |slots|
    requires forall i :: 0 <= i < |slots| ==> after[i] == EndedSlot(slots[i], user, endedOp)
    ensures Mirror(after, index) && Sessions(after, index) == EndUserSessions(Sessions(slots, index), user, endedOp)
  {
  }

  /** The identities are exactly the sessions revocation ends. */
  lemma {:induction false} EndedIdentitiesAre(slots: SlotArray, index: Index, user: nat, endedOp: nat, identity: SessionIdentity)
    requires Mirror(slots, index)
    ensures identity in EndedIdentities(slots, user, endedOp) <==>
      && MayEnd(Sessions(slots, index), identity.client, user, identity.session) && identity.metadataWatermark == endedOp
  {
    EndedIdentitiesIn(slots, user, endedOp, identity);
  }

  lemma {:induction false} EndedIdentitiesIn(slots: SlotArray, user: nat, endedOp: nat, identity: SessionIdentity)
    ensures identity in EndedIdentities(slots, user, endedOp) <==>
      && identity.metadataWatermark == endedOp
      && exists i :: 0 <= i < |slots| && slots[i].Some? && slots[i].value.client == identity.client
                     && slots[i].value.epoch == identity.session && slots[i].value.user == user && slots[i].value.endedOp.None?
    decreases |slots|
  {
    if slots != [] {
      var k := |slots| - 1;
      EndedIdentitiesIn(slots[..k], user, endedOp, identity);
      assert forall i :: 0 <= i < k ==> slots[..k][i] == slots[i];
    }
  }

  // ----- Lazy growth -----

  datatype SlotOp = Take(entry: Entry) | Release(client: nat)

  datatype Layout = Layout(slots: SlotArray, index: Index)

  /** The array as preallocation would hold it. */
  function Padded(slots: SlotArray, max: nat): SlotArray
    requires |slots| <= max
  {
    slots + seq(max - |slots|, _ => None)
  }

  ghost predicate Sound(l: Layout, max: nat) {
    Mirror(l.slots, l.index) && |l.slots| <= max
  }

  /** A taken slot is the lowest free one; a full table, or a client already seated, changes nothing. */
  function Step(l: Layout, max: nat, op: SlotOp): Layout {
    match op
    case Take(e) =>
      if e.client in l.index || |l.index| >= max then l
      else Layout(Placed(l.slots, e), l.index[e.client := LowestFree(l.slots)])
    case Release(c) =>
      if c in l.index && l.index[c] < |l.slots| then Layout(l.slots[l.index[c] := None], l.index - {c}) else l
  }

  lemma StepSound(l: Layout, max: nat, op: SlotOp)
    requires Sound(l, max)
    ensures Sound(Step(l, max, op), max)
  {
    match op
    case Take(e) =>
      if e.client !in l.index && |l.index| < max {
        FreeSlotInRange(l.slots, l.index, max);
        PlaceMirrors(l.slots, l.index, e);
      }
    case Release(c) =>
      if c in l.index {
        ReleaseMirrors(l.slots, l.index, c);
      }
  }

  lemma {:induction false} PaddedLowest(slots: SlotArray, pad: nat)
    ensures LowestFree(slots + seq(pad, _ => None)) == LowestFree(slots)
  {
    var all := slots + seq(pad, _ => None);
    if slots != [] && slots[0].Some? {
      assert all[1..] == slots[1..] + seq(pad, _ => None);
      PaddedLowest(slots[1..], pad);
    }
  }

  lemma PaddedStep(l: Layout, max: nat, op: SlotOp)
    requires Sound(l, max)
    ensures Sound(Step(l, max, op), max)
    ensures Step(Layout(Padded(l.slots, max), l.index), max, op)
            == Layout(Padded(Step(l, max, op).slots, max), Step(l, max, op).index)
  {
    StepSound(l, max, op);
    match op
    case Take(e) =>
      if e.client !in l.index && |l.index| < max {
        FreeSlotInRange(l.slots, l.index, max);
        PaddedPlaced(l.slots, max, e);
      }
    case Release(c) =>
      if c in l.index {
        PaddedReleased(l.slots, max, l.index[c]);
      }
  }

  lemma PaddedPlaced(slots: SlotArray, max: nat, e: Entry)
    requires |slots| <= max && LowestFree(slots) < max
    ensures |Placed(slots, e)| <= max && Placed(Padded(slots, max), e) == Padded(Placed(slots, e), max)
    ensures LowestFree(Padded(slots, max)) == LowestFree(slots)
  {
    PaddedLowest(slots, max - |slots|);
    hide LowestFree;
    var a, b := Placed(Padded(slots, max), e), Padded(Placed(slots, e), max);
    assert |a| == |b| && forall i :: 0 <= i < |a| ==> a[i] == b[i];
  }

  lemma PaddedReleased(slots: SlotArray, max: nat, k: nat)
    requires k < |slots| <= max
    ensures Padded(slots, max)[k := None] == Padded(slots[k := None], max)
  {
  }

  function Steps(l: Layout, max: nat, ops: seq<SlotOp>): Layout
    decreases |ops|
  {
    if ops == [] then l else Steps(Step(l, max, ops[0]), max, ops[1..])
  }

  /** Over every run, lazy growth seats every client where preallocation would, within capacity. */
  lemma {:induction false} LazyIsPreallocated(l: Layout, max: nat, ops: seq<SlotOp>)
    requires Sound(l, max)
    ensures var lazy := Steps(l, max, ops);
            && Sound(lazy, max) && |lazy.index| <= max
            && Steps(Layout(Padded(l.slots, max), l.index), max, ops) == Layout(Padded(lazy.slots, max), lazy.index)
    decreases |ops|
  {
    hide Step, Mirror, Padded;
    if ops == [] {
      IndexCounts(l.slots, l.index);
      OccupiedCeiling(l.slots, max);
    } else {
      PaddedStep(l, max, ops[0]);
      LazyIsPreallocated(Step(l, max, ops[0]), max, ops[1..]);
    }
  }
}
