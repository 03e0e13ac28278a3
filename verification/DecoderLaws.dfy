/**
 * What the two recovery decoders accept: nothing but the transfer encoding of the table they
 * return, and nothing but a checkpoint that describes it slot by slot.
 */
module DecoderLaws {
  import opened Common
  import opened ClientEntry
  import opened ClientBook
  import opened PartitionBook
  import opened Slots
  import opened LeBytes
  import W = ClientWire
  import S = Snapshot

  // ----- The transfer encoding -----

  lemma HeadRebuilds(bytes: seq<Byte>)
    requires |bytes| >= W.HEAD_LEN
    ensures var read := W.ReadHead(bytes).value; read.value.Fits() && bytes == W.HeadBytes(read.value) + read.rest
  {
    hide Le, FromLe, Pow256;
    LeOfFromLe(bytes[..16]);
    LeOfFromLe(bytes[16..24]);
    LeOfFromLe(bytes[24..28]);
    LeOfFromLe(bytes[28..36]);
    LeOfFromLe(bytes[68..76]);
    LeOfFromLe(bytes[76..77]);
    Pow256Values();
    HeadJoins(bytes);
  }

  lemma HeadJoins(b: seq<Byte>)
    requires |b| >= W.HEAD_LEN
    ensures b == b[..16] + (b[16..24] + (b[24..28] + (b[28..36] + (b[36..68] + (b[68..76] + b[76..77]))))) + b[77..]
  {
  }

  lemma ReplyRebuilds(bytes: seq<Byte>, parse: Parse)
    requires W.ReadReply(bytes, parse).Ok?
    ensures var read := W.ReadReply(bytes, parse).value;
      W.WireableReply(read.value, parse) && bytes == Le(|read.value.bytes|, 4) + (read.value.bytes + read.rest)
  {
    hide Le, FromLe, Pow256;
    LeOfFromLe(bytes[..4]);
    Pow256Values();
  }

  lemma {:induction false} RingRebuilds(bytes: seq<Byte>, n: nat, parse: Parse)
    requires W.ReadRing(bytes, n, parse).Ok?
    ensures var read := W.ReadRing(bytes, n, parse).value;
      && |read.value| == n && bytes == W.RepliesBytes(read.value) + read.rest
      && forall i :: 0 <= i < n ==> W.WireableReply(read.value[i], parse)
    decreases n
  {
    hide W.ReadReply, W.WireableReply, Le;
    if n == 0 {
      assert bytes == [] + bytes;
    } else {
      ReplyRebuilds(bytes, parse);
      var reply := W.ReadReply(bytes, parse).value;
      RingRebuilds(reply.rest, n - 1, parse);
      var tail := W.ReadRing(reply.rest, n - 1, parse).value;
      var ring := [reply.value] + tail.value;
      assert ring[1..] == tail.value;
      Joined(Le(|reply.value.bytes|, 4), reply.value.bytes, W.RepliesBytes(tail.value), tail.rest);
    }
  }

  lemma Joined(a: seq<Byte>, b: seq<Byte>, c: seq<Byte>, d: seq<Byte>)
    ensures a + (b + (c + d)) == a + (b + c) + d
  {
  }

  /** An entry as the wire can carry it: consistent, with one to five replies and nothing that is not sent. */
  ghost predicate Carried(e: Entry, parse: Parse) {
    && W.Wireable(e, parse) && ValidProtection(e) && 0 < |e.ring| <= REPLY_RING_CAPACITY
    && e.attachment.None? && e.window == 0
  }

  lemma EntryRebuilds(bytes: seq<Byte>, slot: nat, parse: Parse)
    requires W.ReadEntry(bytes, slot, parse).Ok?
    ensures var read := W.ReadEntry(bytes, slot, parse).value;
      Carried(read.value, parse) && bytes == W.EntryBytes(read.value) + read.rest
  {
    hide W.ReadRing, W.HeadBytes, W.RepliesBytes, W.WireableReply, ValidProtection, W.ReadHead, W.Head.Fits;
    HeadIsLong(bytes);
    HeadRebuilds(bytes);
    var head := W.ReadHead(bytes).value;
    RingRebuilds(head.rest, head.value.ringLen, parse);
    var ring := W.ReadRing(head.rest, head.value.ringLen, parse).value;
    var e := W.RestoredEntry(head.value, ring.value);
    assert RecoveredEntry(e, REPLY_RING_CAPACITY).ring == e.ring;
    assert W.HeadOf(e) == head.value;
    assert W.HeadBytes(head.value) + (W.RepliesBytes(ring.value) + ring.rest) == W.HeadBytes(head.value) + W.RepliesBytes(ring.value) + ring.rest;
  }

  lemma HeadIsLong(bytes: seq<Byte>)
    ensures W.ReadHead(bytes).Some? ==> |bytes| >= W.HEAD_LEN
  {
  }

  lemma {:induction false} EntriesRebuild(read: seq<Entry>, bytes: seq<Byte>, count: nat, parse: Parse)
    requires W.ReadEntries(read, bytes, count, parse).Ok? && W.DistinctClients(read)
    requires forall i :: 0 <= i < |read| ==> Carried(read[i], parse)
    ensures var r := W.ReadEntries(read, bytes, count, parse).value;
      && |r.value| == |read| + count && r.value[..|read|] == read && W.DistinctClients(r.value)
      && (forall i :: 0 <= i < |r.value| ==> Carried(r.value[i], parse))
      && bytes == W.EntriesBytes(r.value[|read|..]) + r.rest
    decreases count
  {
    hide W.ReadEntry, Carried, W.EntryBytes;
    if count == 0 {
      assert read[..|read|] == read && read[|read|..] == [];
      assert bytes == [] + bytes;
    } else {
      EntryRebuilds(bytes, |read|, parse);
      var e := W.ReadEntry(bytes, |read|, parse).value;
      W.SeatOfIs(read, e.value.client);
      var more := read + [e.value];
      EntriesRebuild(more, e.rest, count - 1, parse);
      var r := W.ReadEntries(more, e.rest, count - 1, parse).value;
      assert r.value[..|read|] == r.value[..|more|][..|read|] == read;
      assert r.value[|read|] == r.value[..|more|][|read|] == e.value;
      assert r.value[|read|..][1..] == r.value[|more|..] && r.value[|read|..][0] == e.value;
      assert W.EntryBytes(e.value) + (W.EntriesBytes(r.value[|more|..]) + r.rest)
          == W.EntryBytes(e.value) + W.EntriesBytes(r.value[|more|..]) + r.rest;
    }
  }

  /** Decoding accepts nothing but the encoding of the table it returns: within capacity, one entry a client, each consistent. */
  lemma TransferAcceptsOnlyEncodings(bytes: seq<Byte>, hash: Hash, parse: Parse)
    requires W.Decode(bytes, hash, parse).Ok?
    ensures var entries, capacity := W.Decode(bytes, hash, parse).value.0, W.Decode(bytes, hash, parse).value.1;
      && bytes == Sealed(W.Content(entries, capacity), hash)
      && |entries| <= capacity && 0 < capacity <= CLIENTS_TABLE_SLOT_MAX && W.DistinctClients(entries)
      && forall i :: 0 <= i < |entries| ==> Carried(entries[i], parse)
  {
    hide W.ReadEntries, W.EntriesBytes, Sealed, Le, FromLe, Pow256, Carried, W.DistinctClients;
    var content := SplitVerifiedTrailer(bytes, hash).value;
    var afterCapacity := ReadLe(content[4..], 4).value.1;
    var count, body := ReadLe(afterCapacity, 4).value.0, ReadLe(afterCapacity, 4).value.1;
    LeOfFromLe(content[4..][..4]);
    LeOfFromLe(afterCapacity[..4]);
    NoneRead();
    EntriesRebuild([], body, count, parse);
    var entries := W.ReadEntries([], body, count, parse).value.value;
    assert entries[0..] == entries;
    assert W.EntriesBytes(entries) + [] == W.EntriesBytes(entries);
    assert content == content[..4] + content[4..];
  }

  lemma NoneRead()
    ensures W.DistinctClients([])
  {
  }

  // ----- The checkpoint -----

  /** Slot `i` holds exactly what the item says, and that is consistent. */
  ghost predicate Describes(item: S.Item, slots: SlotArray, parse: Parse) {
    && item.slot < |slots| && slots[item.slot].Some?
    && var e := slots[item.slot].value;
    && ValidProtection(e) && |e.ring| == 1 && S.EntrySnapshotOf(e) == item.entry && parse(item.entry.reply) == Some(e.ring[0].header)
    && e.attachment.None? && e.window == 0 && e.latestCommit == e.ring[0].header.commit
  }

  /** The first `k` items, and no other, have their slots; index and slots are in step. */
  ghost predicate RestoredSoFar(r: S.Restoring, items: seq<S.Item>, k: nat, parse: Parse) {
    && k <= |items| && Mirror(r.slots, r.index)
    && (forall i :: 0 <= i < k ==> Describes(items[i], r.slots, parse))
    && (forall s :: 0 <= s < |r.slots| && r.slots[s].Some? ==> exists i :: 0 <= i < k && items[i].slot == s)
    && (forall i, j :: 0 <= i < j < k ==> items[i].slot != items[j].slot)
  }

  lemma RestoreStep(r: S.Restoring, items: seq<S.Item>, k: nat, parse: Parse)
    requires k < |items| && RestoredSoFar(r, items, k, parse) && items[k].slot < |r.slots|
    ensures var next := S.RestoreItem(r, items[k], parse);
      next.Ok? ==> RestoredSoFar(next.value, items, k + 1, parse) && |next.value.slots| == |r.slots|
  {
    hide Describes, S.RestoreItem, Mirror;
    var next := S.RestoreItem(r, items[k], parse);
    if next.Ok? {
      SeatedItem(r, items[k], parse);
      forall i | 0 <= i < k ensures Describes(items[i], next.value.slots, parse) && items[i].slot != items[k].slot {
        StillDescribed(items[i], r.slots, next.value.slots, items[k].slot, parse);
      }
      forall s | 0 <= s < |next.value.slots| && next.value.slots[s].Some? ensures exists i :: 0 <= i < k + 1 && items[i].slot == s {
        if s == items[k].slot {
          assert items[k].slot == s;
        } else {
          assert r.slots[s].Some?;
          var i :| 0 <= i < k && items[i].slot == s;
        }
      }
    }
  }

  lemma SeatedItem(r: S.Restoring, item: S.Item, parse: Parse)
    requires Mirror(r.slots, r.index) && item.slot < |r.slots| && S.RestoreItem(r, item, parse).Ok?
    ensures var next := S.RestoreItem(r, item, parse).value;
      && Mirror(next.slots, next.index) && Describes(item, next.slots, parse) && r.slots[item.slot].None?
      && |next.slots| == |r.slots| && forall s :: 0 <= s < |r.slots| && s != item.slot ==> next.slots[s] == r.slots[s]
  {
    hide ValidProtection;
    var e := S.Restored(item.entry, parse(item.entry.reply).value);
    FillMirrors(r.slots, r.index, e, item.slot);
  }

  lemma StillDescribed(item: S.Item, before: SlotArray, after: SlotArray, slot: nat, parse: Parse)
    requires Describes(item, before, parse) && slot < |before| == |after| && before[slot].None?
    requires forall s :: 0 <= s < |before| && s != slot ==> after[s] == before[s]
    ensures Describes(item, after, parse) && item.slot != slot
  {
    hide ValidProtection;
  }

  lemma {:induction false} RestoreRest(r: S.Restoring, items: seq<S.Item>, k: nat, parse: Parse)
    requires k <= |items| && RestoredSoFar(r, items, k, parse) && S.InRange(items[k..], |r.slots|)
    requires S.RestoreItems(r, items[k..], parse).Ok?
    ensures var after := S.RestoreItems(r, items[k..], parse).value;
      RestoredSoFar(after, items, |items|, parse) && |after.slots| == |r.slots|
    decreases |items| - k
  {
    hide RestoredSoFar, S.RestoreItem;
    if k < |items| {
      assert items[k..][0] == items[k] && items[k..][1..] == items[k + 1..];
      RestoreStep(r, items, k, parse);
      var next := S.RestoreItem(r, items[k], parse).value;
      var rest := items[k + 1..];
      forall i | 0 <= i < |rest| ensures rest[i].slot < |next.slots| {
        assert rest[i] == items[k..][i + 1];
      }
      RestoreRest(next, items, k + 1, parse);
    }
  }

  /** Restoring accepts nothing but a checkpoint that names every occupied slot of the table it returns once, and describes it. */
  lemma CheckpointAcceptsOnlyDescriptions(s: S.TableSnapshot, parse: Parse)
    requires S.FromSnapshotSpec(s, parse).Ok?
    ensures var r := S.FromSnapshotSpec(s, parse).value;
      && 0 < s.capacity == |r.slots| <= CLIENTS_TABLE_SLOT_MAX
      && RestoredSoFar(r, s.items, |s.items|, parse)
  {
    hide S.RestoreItems, Describes;
    var start := S.Restoring(EmptySlots(s.capacity), map[]);
    assert s.items[0..] == s.items;
    assert RestoredSoFar(start, s.items, 0, parse);
    RestoreRest(start, s.items, 0, parse);
  }
}
