/**
 * Recovery of every table a cluster run can reach: a checkpoint and a transfer both succeed,
 * and what they rebuild admits exactly the same requests.
 */
module TableRecovery {
  import opened Common
  import opened ClientEntry
  import opened ClientBook
  import opened MetadataLog
  import opened AtMostOnce
  import opened Protection
  import opened Recovery
  import opened PartitionBook
  import opened Slots
  import opened LeBytes
  import opened ClientWire
  import opened Cluster
  import ClusterRuns
  import Snapshot
  import ClientWireCodec

  /** Every reply the log produces is a message that parses back to its own header. */
  ghost predicate RepliesParse(log: seq<LogOp>, parse: Parse) {
    forall k :: 0 < k <= |log| ==> ReplyParses(log, k, parse)
  }

  ghost predicate ReplyParses(log: seq<LogOp>, k: nat, parse: Parse)
    requires 0 < k <= |log|
  {
    && (log[k - 1].RegisterOp? ==> WireableReply(RegisterReply(k, log[k - 1]), parse))
    && (log[k - 1].Stamped() ==> WireableReply(ReplyTo(k, log[k - 1]), parse))
  }

  /** Every entry's fields have the widths of the source's types. */
  ghost predicate Typed(book: Book) {
    forall c :: c in book ==> HeadOf(book[c]).Fits()
  }

  // ----- Entries -----

  lemma RingParses(c: nat, e: Entry, log: seq<LogOp>, n: nat, parse: Parse)
    requires EntryProtected(c, e, log, n) && n <= |log| && RepliesParse(log, parse)
    ensures forall i :: 0 <= i < |e.ring| ==> WireableReply(e.ring[i], parse)
  {
    hide ValidProtection, LogoutLast, WireableReply;
    forall i | 0 <= i < |e.ring| ensures WireableReply(e.ring[i], parse) {
      assert FromLog(log, n, e.client, e.epoch, e.ring[i]);
      assert ReplyParses(log, e.ring[i].header.commit, parse);
    }
  }

  /** A protected entry can be checkpointed and transferred. */
  lemma ProtectedRecovers(c: nat, e: Entry, log: seq<LogOp>, n: nat, parse: Parse)
    requires EntryProtected(c, e, log, n) && n <= |log| && RepliesParse(log, parse) && HeadOf(e).Fits()
    ensures Snapshot.SnapshotableEntry(e, parse)
    ensures Wireable(e, parse) && ValidProtection(e) && ValidProtection(RecoveredEntry(e, REPLY_RING_CAPACITY))
  {
    RingParses(c, e, log, n, parse);
    RecoveredValid(e, 1);
    RecoveredValid(e, REPLY_RING_CAPACITY);
    assert e.ring != [];
    hide HeadOf, RepliesParse, RecoveredEntry;
  }

  // ----- Slots -----

  lemma SlotRecovers(slots: SlotArray, index: Index, log: seq<LogOp>, n: nat, parse: Parse, i: nat)
    requires Mirror(slots, index) && n <= |log| && RepliesParse(log, parse) && i < |slots| && slots[i].Some?
    requires Protected(Sessions(slots, index), log, n) && Typed(Sessions(slots, index))
    ensures Snapshot.SnapshotableEntry(slots[i].value, parse)
    ensures Wireable(slots[i].value, parse) && ValidProtection(slots[i].value)
    ensures ValidProtection(RecoveredEntry(slots[i].value, REPLY_RING_CAPACITY))
  {
    hide EntryProtected, HeadOf, Wireable, ValidProtection, RecoveredEntry;
    var c := slots[i].value.client;
    assert Sessions(slots, index)[c] == slots[i].value;
    ProtectedRecovers(c, slots[i].value, log, n, parse);
  }

  lemma {:induction false} SeatedFrom(slots: SlotArray, k: nat)
    requires k < |Seated(slots)|
    ensures exists i :: 0 <= i < |slots| && slots[i] == Some(Seated(slots)[k])
    decreases |slots|
  {
    if slots != [] {
      var here := SeatedIn(slots[0]);
      if k < |here| {
        assert slots[0] == Some(Seated(slots)[k]);
      } else {
        SeatedFrom(slots[1..], k - |here|);
        var i :| 0 <= i < |slots[1..]| && slots[1..][i] == Some(Seated(slots[1..])[k - |here|]);
        assert slots[i + 1] == Some(Seated(slots)[k]);
      }
    }
  }

  lemma {:induction false} SeatedAll(slots: SlotArray, i: nat)
    requires i < |slots| && slots[i].Some?
    ensures slots[i].value in Seated(slots)
    decreases |slots|
  {
    if i > 0 {
      assert slots[1..][i - 1] == slots[i];
      SeatedAll(slots[1..], i - 1);
    }
  }

  ghost predicate OnePerClient(slots: SlotArray) {
    forall i, j :: 0 <= i < j < |slots| && slots[i].Some? && slots[j].Some? ==> slots[i].value.client != slots[j].value.client
  }

  lemma {:induction false} SeatedDistinct(slots: SlotArray)
    requires OnePerClient(slots)
    ensures DistinctClients(Seated(slots))
    decreases |slots|
  {
    if slots != [] {
      assert forall i :: 0 <= i < |slots| - 1 ==> slots[1..][i] == slots[i + 1];
      SeatedDistinct(slots[1..]);
      var rest := Seated(slots[1..]);
      forall k | 0 <= k < |rest| ensures slots[0].Some? ==> rest[k].client != slots[0].value.client {
        SeatedFrom(slots[1..], k);
      }
    }
  }

  /** The occupied slots of a reached table survive the wire. */
  lemma TableTransferable(slots: SlotArray, index: Index, log: seq<LogOp>, n: nat, parse: Parse)
    requires Mirror(slots, index) && n <= |log| && RepliesParse(log, parse)
    requires Protected(Sessions(slots, index), log, n) && Typed(Sessions(slots, index))
    ensures Transferable(Seated(slots), parse) && Snapshot.Snapshotable(slots, parse) && |Seated(slots)| == |index|
  {
    IndexCounts(slots, index);
    ClientWireCodec.SeatedCounts(slots);
    SeatedTransferable(slots, index, log, n, parse);
    hide Wireable, ValidProtection, RecoveredEntry, Seated, Snapshot.SnapshotableEntry, Protected, Typed, RepliesParse, Transferable;
    forall i | 0 <= i < |slots| && slots[i].Some? ensures Snapshot.SnapshotableEntry(slots[i].value, parse) {
      SlotRecovers(slots, index, log, n, parse, i);
    }
  }

  lemma MirrorSeatsOnce(slots: SlotArray, index: Index)
    requires Mirror(slots, index)
    ensures OnePerClient(slots)
  {
  }

  lemma SeatedTransferable(slots: SlotArray, index: Index, log: seq<LogOp>, n: nat, parse: Parse)
    requires Mirror(slots, index) && n <= |log| && RepliesParse(log, parse)
    requires Protected(Sessions(slots, index), log, n) && Typed(Sessions(slots, index))
    ensures Transferable(Seated(slots), parse)
  {
    hide Wireable, ValidProtection, RecoveredEntry, Seated, Protected, Typed, RepliesParse, Mirror, DistinctClients, OnePerClient;
    MirrorSeatsOnce(slots, index);
    SeatedDistinct(slots);
    forall k | 0 <= k < |Seated(slots)|
      ensures Wireable(Seated(slots)[k], parse) && ValidProtection(Seated(slots)[k])
      ensures ValidProtection(RecoveredEntry(Seated(slots)[k], REPLY_RING_CAPACITY))
    {
      SeatedFrom(slots, k);
      var i :| 0 <= i < |slots| && slots[i] == Some(Seated(slots)[k]);
      SlotRecovers(slots, index, log, n, parse, i);
    }
  }

  /** Whatever index mirrors the decoded slots, the decoded contents are the recovered ones. */
  lemma DecodedSessions(slots: SlotArray, index: Index, capacity: nat, decodedIndex: Index)
    requires Mirror(slots, index) && |Seated(slots)| <= capacity
    requires Mirror(DecodedSlots(RecoveredEntries(Seated(slots)), capacity), decodedIndex)
    ensures Sessions(DecodedSlots(RecoveredEntries(Seated(slots)), capacity), decodedIndex)
            == Recovered(Sessions(slots, index), REPLY_RING_CAPACITY)
  {
    hide Seated;
    var seated := Seated(slots);
    var decoded := DecodedSlots(RecoveredEntries(seated), capacity);
    forall c | c in decodedIndex
      ensures c in index && decoded[decodedIndex[c]] == Some(RecoveredEntry(slots[index[c]].value, REPLY_RING_CAPACITY))
    {
      var k := decodedIndex[c];
      assert decoded[k].value == RecoveredEntry(seated[k], REPLY_RING_CAPACITY);
      SeatedFrom(slots, k);
    }
    forall c | c in index ensures c in decodedIndex {
      SeatedAll(slots, index[c]);
      var k :| 0 <= k < |seated| && seated[k] == slots[index[c]].value;
      assert decoded[k] == Some(RecoveredEntry(seated[k], REPLY_RING_CAPACITY));
    }
  }

  // ----- Reached tables -----

  /** What both recovery paths make of a table. */
  ghost predicate Recovers(slots: SlotArray, index: Index, hash: Hash, parse: Parse)
    requires Mirror(slots, index)
  {
    var book := Sessions(slots, index);
    // A checkpoint restores every entry into its own slot, keeping its latest reply.
    && Snapshot.SeededSlots(slots)
    && var restored := Snapshot.FromSnapshotSpec(Snapshot.TableSnapshot(|slots|, Snapshot.ItemsFrom(slots, 0)), parse);
    && restored.Ok? && restored.value.index == index && Mirror(restored.value.slots, index)
    && Sessions(restored.value.slots, index) == Recovered(book, 1)
    // A transfer keeps the newest five replies, and encodes again to the same bytes.
    && var bytes := Encoded(slots, |slots|, hash);
       var decoded := Decode(bytes, hash, parse);
    && decoded.Ok? && decoded.value.1 == |slots| && |decoded.value.0| <= |slots|
    && var rebuilt := DecodedSlots(decoded.value.0, |slots|);
    && (forall i :: Mirror(rebuilt, i) ==> Sessions(rebuilt, i) == Recovered(book, REPLY_RING_CAPACITY))
    && Encoded(rebuilt, |slots|, hash) == bytes
  }

  lemma ProtectedTableRecovers(slots: SlotArray, index: Index, log: seq<LogOp>, n: nat, hash: Hash, parse: Parse)
    requires Mirror(slots, index) && n <= |log| && RepliesParse(log, parse) && 0 < |slots| <= CLIENTS_TABLE_SLOT_MAX
    requires Protected(Sessions(slots, index), log, n) && Typed(Sessions(slots, index))
    ensures Recovers(slots, index, hash, parse)
  {
    hide Protected, Typed, RepliesParse, Decode, Encoded, Seated, DecodedSlots, RecoveredEntries, Recovered, Snapshot.FromSnapshotSpec;
    TableTransferable(slots, index, log, n, parse);
    IndexCounts(slots, index);
    OccupiedCeiling(slots, |slots|);
    Snapshot.SnapshotRoundTrip(slots, index, parse);
    DecodeInvertsEncode(slots, |slots|, hash, parse);
    ReencodeReproduces(slots, |slots|, hash);
    var rebuilt := DecodedSlots(RecoveredEntries(Seated(slots)), |slots|);
    forall i | Mirror(rebuilt, i) ensures Sessions(rebuilt, i) == Recovered(Sessions(slots, index), REPLY_RING_CAPACITY) {
      DecodedSessions(slots, index, |slots|, i);
    }
  }

  /**
   * Whatever a cluster run did, every replica's table recovers from a checkpoint and from a
   * transfer, and no verdict changes except that a lost reply reads as already applied.
   */
  lemma RunsTablesRecover(replicas: nat, primary: nat, capacity: nat, events: seq<Event>, r: nat,
                          slots: SlotArray, index: Index, hash: Hash, parse: Parse)
    requires primary < replicas && Inv(ClusterRuns.Start(replicas, primary, capacity)) && 0 < |slots| <= CLIENTS_TABLE_SLOT_MAX
    requires var t := ClusterRuns.Run(ClusterRuns.Start(replicas, primary, capacity), events);
      r < |t.replicas| && RepliesParse(t.log, parse) && Mirror(slots, index) && Sessions(slots, index) == t.replicas[r].book
      && Typed(Sessions(slots, index))
    ensures Recovers(slots, index, hash, parse)
    ensures forall depth: nat, client: nat, epoch: nat, request: nat, operation: Operation | 0 < depth ::
      var before := CheckRequest(Sessions(slots, index), client, epoch, request, operation);
      var after := CheckRequest(Recovered(Sessions(slots, index), depth), client, epoch, request, operation);
      Weakens(before, after) && (before.New? <==> after.New?)
  {
    hide ClusterRuns.Run, Disciplined, Recovers, CheckRequest, Recovered, Protected;
    var t := ClusterRuns.Run(ClusterRuns.Start(replicas, primary, capacity), events);
    assert ReplicaOk(t, t.replicas[r]);
    var n := t.replicas[r].applied;
    ProtectedTableRecovers(slots, index, t.log, n, hash, parse);
    forall depth: nat, client: nat, epoch: nat, request: nat, operation: Operation | 0 < depth
      ensures var before := CheckRequest(Sessions(slots, index), client, epoch, request, operation);
              var after := CheckRequest(Recovered(Sessions(slots, index), depth), client, epoch, request, operation);
              Weakens(before, after) && (before.New? <==> after.New?)
    {
      RecoveryNeverForgets(Sessions(slots, index), t.log, n, depth, client, epoch, request, operation);
    }
  }
}
