/** The checkpoint form of a client table: each occupied slot with its latest reply, and the way back. */
module Snapshot {
  import opened Common
  import opened ClientEntry
  import opened ClientBook
  import opened PartitionBook
  import opened Slots

  datatype EntrySnapshot = EntrySnapshot(
    verifier: seq<Byte>, endedOp: Option<nat>, client: nat, epoch: nat, user: nat, watermark: nat, reply: seq<Byte>)

  datatype Item = Item(slot: nat, entry: EntrySnapshot)

  datatype TableSnapshot = TableSnapshot(capacity: nat, items: seq<Item>)

  datatype DecodeError =
    | SlotOutOfRange(slot: nat, max: nat)
    | InvalidSnapshotReply(slot: nat)
    | RepeatedClient(slot: nat, firstSlot: nat, client: nat)
    | DuplicateSlot(slot: nat)
    | InvalidEntry(slot: nat)

  datatype Restoring = Restoring(slots: SlotArray, index: Index)

  // ----- Taking -----

  function EntrySnapshotOf(e: Entry): EntrySnapshot
    requires e.ring != []
  {
    EntrySnapshot(e.verifier, e.endedOp, e.client, e.epoch, e.user, e.watermark, e.Latest().bytes)
  }

  ghost predicate SeededSlots(slots: SlotArray) {
    forall i :: 0 <= i < |slots| && slots[i].Some? ==> slots[i].value.ring != []
  }

  /** The items of the slots from `i` on. */
  function ItemsFrom(slots: SlotArray, i: nat): seq<Item>
    requires i <= |slots| && SeededSlots(slots)
    decreases |slots| - i
  {
    if i == |slots| then []
    else (if slots[i].Some? then [Item(i, EntrySnapshotOf(slots[i].value))] else []) + ItemsFrom(slots, i + 1)
  }

  method ToSnapshot(slots: SlotArray, clientsMax: nat) returns (s: TableSnapshot)
    requires SeededSlots(slots)
    ensures s == TableSnapshot(clientsMax, ItemsFrom(slots, 0))
  {
    var items: seq<Item> := [];
    for i := 0 to |slots|
      invariant items + ItemsFrom(slots, i) == ItemsFrom(slots, 0)
    {
      if slots[i].Some? {
        var item := Item(i, EntrySnapshotOf(slots[i].value));
        assert items + ([item] + ItemsFrom(slots, i + 1)) == items + [item] + ItemsFrom(slots, i + 1);
        items := items + [item];
      } else {
        assert ItemsFrom(slots, i) == ItemsFrom(slots, i + 1);
      }
    }
    assert items + [] == items;
    return TableSnapshot(clientsMax, items);
  }

  // ----- Restoring -----

  function Restored(s: EntrySnapshot, header: ReplyHeader): Entry {
    Entry(s.verifier, s.endedOp, s.epoch, None, s.user, s.watermark, 0, [CachedReply(header, s.reply)], s.client, header.commit)
  }

  ghost function RestoreItem(r: Restoring, item: Item, parse: Parse): Result<Restoring, DecodeError>
    requires item.slot < |r.slots|
  {
    match parse(item.entry.reply)
    case None => Err(InvalidSnapshotReply(item.slot))
    case Some(header) =>
      if item.entry.client in r.index then Err(RepeatedClient(item.slot, r.index[item.entry.client], item.entry.client))
      else if r.slots[item.slot].Some? then Err(DuplicateSlot(item.slot))
      else if !ValidProtection(Restored(item.entry, header)) then Err(InvalidEntry(item.slot))
      else Ok(Restoring(r.slots[item.slot := Some(Restored(item.entry, header))], r.index[item.entry.client := item.slot]))
  }

  predicate InRange(items: seq<Item>, capacity: nat) {
    forall i :: 0 <= i < |items| ==> items[i].slot < capacity
  }

  /** The slot array and index once every item is seated. */
  ghost function RestoreItems(r: Restoring, items: seq<Item>, parse: Parse): Result<Restoring, DecodeError>
    requires InRange(items, |r.slots|)
    decreases |items|
  {
    if items == [] then Ok(r)
    else
      match RestoreItem(r, items[0], parse)
      case Err(e) => Err(e)
      case Ok(after) => RestoreItems(after, items[1..], parse)
  }

  function FirstOutOfRange(items: seq<Item>, capacity: nat): (slot: Option<nat>)
    ensures slot.None? <==> InRange(items, capacity)
  {
    if items == [] then None
    else if items[0].slot >= capacity then Some(items[0].slot)
    else
      assert forall i :: 0 < i < |items| ==> items[i] == items[1..][i - 1];
      FirstOutOfRange(items[1..], capacity)
  }

  ghost function FromSnapshotSpec(s: TableSnapshot, parse: Parse): Result<Restoring, DecodeError> {
    if s.capacity == 0 || s.capacity > CLIENTS_TABLE_SLOT_MAX then Err(SlotOutOfRange(s.capacity, CLIENTS_TABLE_SLOT_MAX))
    else
      match FirstOutOfRange(s.items, s.capacity)
      case Some(slot) => Err(SlotOutOfRange(slot, s.capacity))
      case None => RestoreItems(Restoring(EmptySlots(s.capacity), map[]), s.items, parse)
  }

  /** Rebuilds the table a checkpoint describes, or says what is wrong with it. */
  method FromSnapshot(s: TableSnapshot, parse: Parse) returns (r: Result<Restoring, DecodeError>)
    ensures r == FromSnapshotSpec(s, parse)
  {
    if s.capacity == 0 || s.capacity > CLIENTS_TABLE_SLOT_MAX {
      return Err(SlotOutOfRange(s.capacity, CLIENTS_TABLE_SLOT_MAX));
    }
    var bad := FirstOutOfRange(s.items, s.capacity);
    if bad.Some? {
      return Err(SlotOutOfRange(bad.value, s.capacity));
    }
    var at := Restoring(EmptySlots(s.capacity), map[]);
    ghost var start := at;
    assert s.items[0..] == s.items;
    for i := 0 to |s.items|
      invariant |at.slots| == s.capacity && RestoreItems(at, s.items[i..], parse) == RestoreItems(start, s.items, parse)
    {
      var item := s.items[i];
      assert s.items[i..][0] == item && s.items[i..][1..] == s.items[i + 1..];
      var next := SeatItem(at, item, parse);
      if next.Err? {
        return Err(next.error);
      }
      at := next.value;
    }
    return Ok(at);
  }

  method SeatItem(at: Restoring, item: Item, parse: Parse) returns (r: Result<Restoring, DecodeError>)
    requires item.slot < |at.slots|
    ensures r == RestoreItem(at, item, parse)
    ensures r.Ok? ==> |r.value.slots| == |at.slots|
  {
    var header := parse(item.entry.reply);
    if header.None? {
      return Err(InvalidSnapshotReply(item.slot));
    }
    if item.entry.client in at.index {
      return Err(RepeatedClient(item.slot, at.index[item.entry.client], item.entry.client));
    }
    if at.slots[item.slot].Some? {
      return Err(DuplicateSlot(item.slot));
    }
    var restored := Restored(item.entry, header.value);
    var valid := ValidMetadataProtection(restored);
    if !valid {
      return Err(InvalidEntry(item.slot));
    }
    return Ok(Restoring(at.slots[item.slot := Some(restored)], at.index[item.entry.client := item.slot]));
  }

  // ----- Round trip -----

  /** The table as recovery keeps it: every entry in its own slot, with its latest reply only. */
  function RecoveredSlots(slots: SlotArray, n: nat): (r: SlotArray)
    requires n <= |slots|
    ensures |r| == |slots|
    ensures forall i :: 0 <= i < |slots| ==> r[i] == RecoveredSlot(slots[i], i < n)
  {
    seq(|slots|, i requires 0 <= i < |slots| => RecoveredSlot(slots[i], i < n))
  }

  function RecoveredSlot(slot: Option<Entry>, keep: bool): Option<Entry> {
    if keep && slot.Some? then Some(RecoveredEntry(slot.value, 1)) else None
  }

  ghost function IndexBelow(index: Index, n: nat): Index {
    map c | c in index && index[c] < n :: index[c]
  }

  /** Every entry passes the recovery check, before and after its older replies go, and its latest reply parses. */
  ghost predicate Snapshotable(slots: SlotArray, parse: Parse) {
    forall i :: 0 <= i < |slots| && slots[i].Some? ==> SnapshotableEntry(slots[i].value, parse)
  }

  ghost predicate SnapshotableEntry(e: Entry, parse: Parse) {
    ValidProtection(e) && ValidProtection(RecoveredEntry(e, 1)) && parse(e.Latest().bytes) == Some(e.Latest().header)
  }

  lemma RestoredIs(e: Entry, parse: Parse)
    requires SnapshotableEntry(e, parse)
    ensures Restored(EntrySnapshotOf(e), e.Latest().header) == RecoveredEntry(e, 1)
  {
    assert RecoveredEntry(e, 1).ring == [e.Latest()];
  }

  lemma ItemsInRange(slots: SlotArray, i: nat, capacity: nat)
    requires i <= |slots| <= capacity && SeededSlots(slots)
    ensures InRange(ItemsFrom(slots, i), capacity)
    decreases |slots| - i
  {
    if i < |slots| {
      ItemsInRange(slots, i + 1, capacity);
    }
  }

  lemma SeatNext(slots: SlotArray, index: Index, i: nat, parse: Parse)
    requires Mirror(slots, index) && i < |slots| && Snapshotable(slots, parse) && slots[i].Some?
    ensures slots[i].value.ring != []
    ensures RestoreItem(Restoring(RecoveredSlots(slots, i), IndexBelow(index, i)), Item(i, EntrySnapshotOf(slots[i].value)), parse)
            == Ok(Restoring(RecoveredSlots(slots, i + 1), IndexBelow(index, i + 1)))
  {
    var e := slots[i].value;
    assert SnapshotableEntry(e, parse);
    RestoredIs(e, parse);
    hide ValidProtection, RecoveredEntry;
    assert e.client in index && index[e.client] == i;
    IndexNext(slots, index, i);
    assert RecoveredSlots(slots, i)[i := Some(RecoveredEntry(e, 1))] == RecoveredSlots(slots, i + 1);
  }

  lemma IndexNext(slots: SlotArray, index: Index, i: nat)
    requires Mirror(slots, index) && i < |slots|
    ensures slots[i].Some? ==>
      && slots[i].value.client !in IndexBelow(index, i)
      && IndexBelow(index, i + 1) == IndexBelow(index, i)[slots[i].value.client := i]
    ensures slots[i].None? ==> IndexBelow(index, i + 1) == IndexBelow(index, i)
  {
  }

  lemma IndexWhole(slots: SlotArray, index: Index)
    requires Mirror(slots, index)
    ensures IndexBelow(index, |slots|) == index
  {
  }

  lemma {:induction false} RestoreFrom(slots: SlotArray, index: Index, i: nat, parse: Parse)
    requires Mirror(slots, index) && i <= |slots| && Snapshotable(slots, parse) && SeededSlots(slots)
    requires InRange(ItemsFrom(slots, i), |slots|)
    ensures RestoreItems(Restoring(RecoveredSlots(slots, i), IndexBelow(index, i)), ItemsFrom(slots, i), parse)
            == Ok(Restoring(RecoveredSlots(slots, |slots|), index))
    decreases |slots| - i
  {
    hide RestoreItem, Snapshotable, SeededSlots, Mirror, RecoveredEntry, EntrySnapshotOf;
    var at := Restoring(RecoveredSlots(slots, i), IndexBelow(index, i));
    if i == |slots| {
      IndexWhole(slots, index);
    } else {
      IndexNext(slots, index, i);
      ItemsInRange(slots, i + 1, |slots|);
      RestoreFrom(slots, index, i + 1, parse);
      if slots[i].Some? {
        SeatNext(slots, index, i, parse);
        var items := ItemsFrom(slots, i);
        assert items[1..] == ItemsFrom(slots, i + 1);
      } else {
        assert RecoveredSlots(slots, i) == RecoveredSlots(slots, i + 1);
        assert ItemsFrom(slots, i) == ItemsFrom(slots, i + 1);
      }
    }
  }

  lemma SnapshotableSeeded(slots: SlotArray, parse: Parse)
    requires Snapshotable(slots, parse)
    ensures SeededSlots(slots)
  {
    hide RecoveredEntry, Ordered, ReceiptOk;
    assert forall i :: 0 <= i < |slots| && slots[i].Some? ==> SnapshotableEntry(slots[i].value, parse);
  }

  lemma RecoveredSessions(slots: SlotArray, index: Index)
    requires Mirror(slots, index)
    ensures Mirror(RecoveredSlots(slots, |slots|), index)
    ensures Sessions(RecoveredSlots(slots, |slots|), index) == Recovered(Sessions(slots, index), 1)
  {
  }

  /** A checkpoint restores every entry into its own slot, keeping all but its older replies. */
  lemma SnapshotRoundTrip(slots: SlotArray, index: Index, parse: Parse)
    requires Mirror(slots, index) && Snapshotable(slots, parse) && 0 < |slots| <= CLIENTS_TABLE_SLOT_MAX
    ensures SeededSlots(slots)
    ensures FromSnapshotSpec(TableSnapshot(|slots|, ItemsFrom(slots, 0)), parse) == Ok(Restoring(RecoveredSlots(slots, |slots|), index))
    ensures Mirror(RecoveredSlots(slots, |slots|), index)
    ensures Sessions(RecoveredSlots(slots, |slots|), index) == Recovered(Sessions(slots, index), 1)
  {
    SnapshotableSeeded(slots, parse);
    hide RestoreItems, ItemsFrom, Snapshotable, SeededSlots, Mirror, SnapshotableEntry, RecoveredEntry;
    ItemsInRange(slots, 0, |slots|);
    RestoreFrom(slots, index, 0, parse);
    NothingRestored(slots, index);
    RecoveredSessions(slots, index);
  }

  lemma NothingRestored(slots: SlotArray, index: Index)
    ensures RecoveredSlots(slots, 0) == EmptySlots(|slots|) && IndexBelow(index, 0) == map[]
  {
  }
}
