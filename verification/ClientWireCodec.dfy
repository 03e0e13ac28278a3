/** The transfer codec as it runs: one buffer grown entry by entry, one cursor moved field by field. */
module ClientWireCodec {
  import opened Common
  import opened ClientEntry
  import opened ClientBook
  import opened PartitionBook
  import opened Slots
  import opened LeBytes
  import opened ClientWire

  // ----- Encoding -----

  lemma {:induction false} SeatedSnoc(slots: SlotArray, slot: Option<Entry>)
    ensures Seated(slots + [slot]) == Seated(slots) + SeatedIn(slot)
    decreases |slots|
  {
    hide SeatedIn;
    if slots == [] {
      assert [slot][1..] == [] && SeatedIn(slot) + Seated([]) == SeatedIn(slot) == Seated([]) + SeatedIn(slot);
      assert slots + [slot] == [slot];
    } else {
      assert (slots + [slot])[1..] == slots[1..] + [slot];
      SeatedSnoc(slots[1..], slot);
      assert SeatedIn(slots[0]) + (Seated(slots[1..]) + SeatedIn(slot)) == SeatedIn(slots[0]) + Seated(slots[1..]) + SeatedIn(slot);
    }
  }

  lemma {:induction false} SeatedCounts(slots: SlotArray)
    ensures |Seated(slots)| == Occupied(slots)
    decreases |slots|
  {
    if slots != [] {
      var k := |slots| - 1;
      SeatedCounts(slots[..k]);
      SeatedSnoc(slots[..k], slots[k]);
      assert slots == slots[..k] + [slots[k]];
    }
  }

  lemma {:induction false} EntriesSnoc(entries: seq<Entry>, e: Entry)
    ensures EntriesBytes(entries + [e]) == EntriesBytes(entries) + EntryBytes(e)
    decreases |entries|
  {
    hide EntryBytes;
    if entries == [] {
      assert [e][1..] == [] && EntryBytes(e) + [] == EntryBytes(e) && EntriesBytes([]) + EntryBytes(e) == EntryBytes(e);
    } else {
      assert (entries + [e])[1..] == entries[1..] + [e];
      EntriesSnoc(entries[1..], e);
    }
  }

  lemma {:induction false} RepliesSnoc(ring: seq<CachedReply>, r: CachedReply)
    ensures RepliesBytes(ring + [r]) == RepliesBytes(ring) + (Le(|r.bytes|, 4) + r.bytes)
    decreases |ring|
  {
    hide Le;
    if ring == [] {
      assert [r][1..] == [];
    } else {
      assert (ring + [r])[1..] == ring[1..] + [r];
      RepliesSnoc(ring[1..], r);
    }
  }

  method EncodeReplies(ring: seq<CachedReply>) returns (out: seq<Byte>)
    ensures out == RepliesBytes(ring)
  {
    hide Le;
    out := [];
    for i := 0 to |ring|
      invariant out == RepliesBytes(ring[..i])
    {
      RepliesSnoc(ring[..i], ring[i]);
      assert ring[..i + 1] == ring[..i] + [ring[i]];
      out := out + (Le(|ring[i].bytes|, 4) + ring[i].bytes);
    }
    assert ring[..|ring|] == ring;
  }

  /** The newest replies a transfer carries. */
  method TransferableReplies(e: Entry) returns (ring: seq<CachedReply>)
    ensures ring == RecoveredEntry(e, REPLY_RING_CAPACITY).ring
  {
    return e.ring[SaturatingSub(|e.ring|, REPLY_RING_CAPACITY)..];
  }

  method EncodeTable(slots: SlotArray, index: Index, clientsMax: nat, hash: Hash) returns (out: seq<Byte>)
    requires Mirror(slots, index)
    ensures out == Encoded(slots, clientsMax, hash)
  {
    IndexCounts(slots, index);
    SeatedCounts(slots);
    hide *;
    var header := Magic() + (Le(clientsMax, 4) + Le(|index|, 4));
    out := AppendEntries(header, slots);
    ContentIs(clientsMax, Seated(slots));
    out := Seal(out, hash);
    EncodedIs(slots, clientsMax, hash);
  }

  method Seal(content: seq<Byte>, hash: Hash) returns (out: seq<Byte>)
    ensures out == Sealed(content, hash)
  {
    return content + Le(hash(content), TRAILER_LEN);
  }

  lemma ContentIs(capacity: nat, entries: seq<Entry>)
    ensures Magic() + (Le(capacity, 4) + Le(|entries|, 4)) + EntriesBytes(entries) == Content(entries, capacity)
  {
    hide Le, EntriesBytes;
    Associates(Magic(), Le(capacity, 4), Le(|entries|, 4), EntriesBytes(entries));
  }

  lemma Associates(a: seq<Byte>, b: seq<Byte>, c: seq<Byte>, d: seq<Byte>)
    ensures a + (b + c) + d == a + (b + (c + d))
  {
  }

  lemma EncodedIs(slots: SlotArray, capacity: nat, hash: Hash)
    ensures Encoded(slots, capacity, hash) == Sealed(Content(Seated(slots), capacity), hash)
  {
  }

  /** Appends each occupied slot's entry. */
  method AppendEntries(out: seq<Byte>, slots: SlotArray) returns (after: seq<Byte>)
    ensures after == out + EntriesBytes(Seated(slots))
  {
    hide EntryBytes, EntriesBytes, Seated;
    after := out;
    NothingSeated();
    for i := 0 to |slots|
      invariant after == out + EntriesBytes(Seated(slots[..i]))
    {
      SeatedSnoc(slots[..i], slots[i]);
      assert slots[..i + 1] == slots[..i] + [slots[i]];
      if slots[i].Some? {
        var entry := EncodeEntry(slots[i].value);
        EntriesSnoc(Seated(slots[..i]), slots[i].value);
        after := after + entry;
      } else {
        assert Seated(slots[..i]) + [] == Seated(slots[..i]);
      }
    }
    assert slots[..|slots|] == slots;
  }

  lemma NothingSeated()
    ensures Seated([]) == [] && EntriesBytes([]) == []
  {
  }

  method EncodeEntry(e: Entry) returns (out: seq<Byte>)
    ensures out == EntryBytes(e)
  {
    hide Le, RepliesBytes;
    var ring := TransferableReplies(e);
    var ended := if e.endedOp.Some? then e.endedOp.value else 0;
    var replies := EncodeReplies(ring);
    out := HeadBytes(Head(e.client, e.epoch, e.user, e.watermark, e.verifier, ended, |ring|));
    out := out + replies;
  }

  // ----- Decoding -----

  method DecodeHead(reader: LeCursor) returns (h: Option<Head>)
    modifies reader
    ensures match ReadHead(old(reader.bytes))
            case None => h == None
            case Some(r) => h == Some(r.value) && reader.bytes == r.rest
  {
    hide FromLe;
    ghost var b := reader.bytes;
    var client := reader.ReadInt(16);
    if client.None? { return None; }
    var epoch := reader.ReadInt(8);
    if epoch.None? { return None; }
    var user := reader.ReadInt(4);
    if user.None? { return None; }
    var watermark := reader.ReadInt(8);
    if watermark.None? { return None; }
    var verifier := reader.Take(BIND_SECRET_BYTES);
    if verifier.None? { return None; }
    var ended := reader.ReadInt(8);
    if ended.None? { return None; }
    var ringLen := reader.ReadInt(1);
    if ringLen.None? { return None; }
    HeadSlices(b);
    return Some(Head(client.value, epoch.value, user.value, watermark.value, verifier.value, ended.value, ringLen.value));
  }

  lemma HeadSlices(b: seq<Byte>)
    requires |b| >= HEAD_LEN
    ensures b[16..][..8] == b[16..24] && b[16..][8..] == b[24..]
    ensures b[24..][..4] == b[24..28] && b[24..][4..] == b[28..]
    ensures b[28..][..8] == b[28..36] && b[28..][8..] == b[36..]
    ensures b[36..][..32] == b[36..68] && b[36..][32..] == b[68..]
    ensures b[68..][..8] == b[68..76] && b[68..][8..] == b[76..]
    ensures b[76..][..1] == b[76..77] && b[76..][1..] == b[77..]
  {
  }

  method DecodeReply(reader: LeCursor, parse: Parse) returns (r: Result<CachedReply, TableError>)
    modifies reader
    ensures match ReadReply(old(reader.bytes), parse)
            case Err(e) => r == Err(e)
            case Ok(read) => r == Ok(read.value) && reader.bytes == read.rest
  {
    var len := reader.ReadInt(4);
    if len.None? {
      return Err(Truncated);
    }
    var bytes := reader.Take(len.value);
    if bytes.None? {
      return Err(Truncated);
    }
    var header := parse(bytes.value);
    if header.None? {
      return Err(InvalidReply);
    }
    return Ok(CachedReply(header.value, bytes.value));
  }

  ghost function After(ring: seq<CachedReply>, r: Result<Read<seq<CachedReply>>, TableError>): Result<Read<seq<CachedReply>>, TableError> {
    if r.Err? then r else Ok(Read(ring + r.value.value, r.value.rest))
  }

  lemma AfterTwice(ring: seq<CachedReply>, reply: CachedReply, r: Result<Read<seq<CachedReply>>, TableError>)
    ensures After(ring, After([reply], r)) == After(ring + [reply], r) && After([], r) == r
  {
    if r.Ok? {
      assert ring + ([reply] + r.value.value) == ring + [reply] + r.value.value;
      assert [] + r.value.value == r.value.value;
    }
  }

  method DecodeRing(reader: LeCursor, n: nat, parse: Parse) returns (r: Result<seq<CachedReply>, TableError>)
    modifies reader
    ensures match ReadRing(old(reader.bytes), n, parse)
            case Err(e) => r == Err(e)
            case Ok(read) => r == Ok(read.value) && reader.bytes == read.rest
  {
    hide ReadReply;
    ghost var all := ReadRing(reader.bytes, n, parse);
    var ring: seq<CachedReply> := [];
    if all.Ok? {
      assert [] + all.value.value == all.value.value;
    }
    for i := 0 to n
      invariant all == After(ring, ReadRing(reader.bytes, n - i, parse))
    {
      var reply := DecodeReply(reader, parse);
      if reply.Err? {
        return Err(reply.error);
      }
      AfterTwice(ring, reply.value, ReadRing(reader.bytes, n - i - 1, parse));
      ring := ring + [reply.value];
    }
    assert ring + [] == ring;
    return Ok(ring);
  }

  method DecodeEntry(reader: LeCursor, slot: nat, parse: Parse) returns (r: Result<Entry, TableError>)
    modifies reader
    ensures match ReadEntry(old(reader.bytes), slot, parse)
            case Err(e) => r == Err(e)
            case Ok(read) => r == Ok(read.value) && reader.bytes == read.rest
  {
    hide ReadHead, ReadRing, ValidProtection;
    var h := DecodeHead(reader);
    if h.None? {
      return Err(Truncated);
    }
    if h.value.ringLen == 0 {
      return Err(EmptyRing);
    }
    if h.value.ringLen > REPLY_RING_CAPACITY {
      return Err(RingTooLong(slot, h.value.ringLen));
    }
    var ring := DecodeRing(reader, h.value.ringLen, parse);
    if ring.Err? {
      return Err(ring.error);
    }
    if ring.value == [] {
      return Err(EmptyRing);
    }
    var restored := RestoredEntry(h.value, ring.value);
    var valid := ValidMetadataProtection(restored);
    return if valid then Ok(restored) else Err(InvalidWatermark(h.value.client));
  }

  /** The index over entries seated in order. */
  ghost predicate Seats(slots: SlotArray, index: Index, read: seq<Entry>) {
    && |read| <= |slots| && Mirror(slots, index)
    && (forall i :: 0 <= i < |read| ==> slots[i] == Some(read[i]))
    && (forall i :: |read| <= i < |slots| ==> slots[i] == None)
  }

  lemma {:induction false} SeatIndexed(slots: SlotArray, index: Index, read: seq<Entry>, client: nat)
    requires Seats(slots, index, read)
    ensures SeatOf(read, client) == if client in index then Some(index[client]) else None
  {
    SeatOfIs(read, client);
    if client in index {
      assert slots[index[client]].value.client == client;
      assert index[client] < |read|;
      assert forall j :: 0 <= j < index[client] ==> read[j].client != client by {
        forall j | 0 <= j < index[client] ensures read[j].client != client {
          assert slots[j] == Some(read[j]);
        }
      }
      SeatFirst(read, client, index[client]);
    } else {
      forall i | 0 <= i < |read| ensures read[i].client != client {
        assert slots[i] == Some(read[i]);
      }
    }
  }

  lemma {:induction false} SeatFirst(entries: seq<Entry>, client: nat, k: nat)
    requires k < |entries| && entries[k].client == client && forall j :: 0 <= j < k ==> entries[j].client != client
    ensures SeatOf(entries, client) == Some(k)
  {
    if k > 0 {
      SeatFirst(entries[1..], client, k - 1);
    }
  }

  method DecodeEntries(reader: LeCursor, count: nat, capacity: nat, parse: Parse) returns (r: Result<(SlotArray, Index), TableError>)
    requires count <= capacity
    modifies reader
    ensures match ReadEntries([], old(reader.bytes), count, parse)
            case Err(e) => r == Err(e)
            case Ok(read) => r.Ok? && reader.bytes == read.rest && |r.value.0| == capacity && Seats(r.value.0, r.value.1, read.value)
  {
    hide ReadEntry;
    var slots := EmptySlots(capacity);
    var index: Index := map[];
    ghost var all := ReadEntries([], reader.bytes, count, parse);
    ghost var read: seq<Entry> := [];
    for i := 0 to count
      invariant |slots| == capacity && |read| == i && Seats(slots, index, read)
      invariant ReadEntries(read, reader.bytes, count - i, parse) == all
    {
      var e := DecodeEntry(reader, i, parse);
      if e.Err? {
        return Err(e.error);
      }
      SeatIndexed(slots, index, read, e.value.client);
      if e.value.client in index {
        return Err(DuplicateClientId(index[e.value.client], e.value.client));
      }
      SeatNext(slots, index, read, e.value);
      slots, index := slots[i := Some(e.value)], index[e.value.client := i];
      read := read + [e.value];
    }
    return Ok((slots, index));
  }

  lemma SeatNext(slots: SlotArray, index: Index, read: seq<Entry>, e: Entry)
    requires Seats(slots, index, read) && |read| < |slots| && e.client !in index
    ensures Seats(slots[|read| := Some(e)], index[e.client := |read|], read + [e])
  {
  }

  /** Decodes a transferred table into preallocated slots. */
  method DecodeTable(bytes: seq<Byte>, hash: Hash, parse: Parse) returns (r: Result<(SlotArray, Index, nat), TableError>)
    ensures match Decode(bytes, hash, parse)
            case Err(e) => r == Err(e)
            case Ok((entries, capacity)) =>
              && r.Ok? && r.value.2 == capacity && |entries| <= capacity
              && r.value.0 == DecodedSlots(entries, capacity) && Mirror(r.value.0, r.value.1)
  {
    hide ReadEntries, Mirror, FromLe;
    match SplitVerifiedTrailer(bytes, hash)
    case Err(TooShort) => return Err(Truncated);
    case Err(Mismatch(expected, actual)) => return Err(ChecksumMismatch(expected, actual));
    case Ok(content) =>
      var reader := new LeCursor(content);
      var magic := reader.Take(4);
      if magic.None? {
        return Err(Truncated);
      }
      if magic.value != Magic() {
        return Err(BadMagic);
      }
      var capacity := reader.ReadInt(4);
      if capacity.None? {
        return Err(Truncated);
      }
      var count := reader.ReadInt(4);
      if count.None? {
        return Err(Truncated);
      }
      if count.value > capacity.value || capacity.value > CLIENTS_TABLE_SLOT_MAX {
        return Err(TooManyEntries(count.value, Min(capacity.value, CLIENTS_TABLE_SLOT_MAX)));
      }
      if capacity.value == 0 {
        return Err(InvalidCapacity(0));
      }
      ghost var body := reader.bytes;
      var table := DecodeEntries(reader, count.value, capacity.value, parse);
      if table.Err? {
        return Err(table.error);
      }
      if reader.bytes != [] {
        return Err(Truncated);
      }
      assert table.value.0 == DecodedSlots(ReadEntries([], body, count.value, parse).value.value, capacity.value);
      return Ok((table.value.0, table.value.1, capacity.value));
  }
}
