/**
 * The transfer encoding of a client table: capacity, then every occupied slot in slot order
 * with its newest replies, under a checksum trailer.
 */
module ClientWire {
  import opened Common
  import opened ClientEntry
  import opened ClientBook
  import opened PartitionBook
  import opened Slots
  import opened LeBytes

  const BIND_SECRET_BYTES := 32
  const HEAD_LEN := 77

  function Magic(): (m: seq<Byte>)
    ensures |m| == 4
  {
    [0x49, 0x43, 0x54, 0x35]
  }

  /** The fixed fields of an encoded entry; `ended` is zero for a live session. */
  datatype Head = Head(client: nat, epoch: nat, user: nat, watermark: nat, verifier: seq<Byte>, ended: nat, ringLen: nat) {
    /** The widths the fields are written with. */
    predicate Fits() {
      && client < 0x1_0000_0000_0000_0000_0000_0000_0000_0000 && epoch < 0x1_0000_0000_0000_0000 && user < 0x1_0000_0000
      && watermark < 0x1_0000_0000_0000_0000 && |verifier| == BIND_SECRET_BYTES && ended < 0x1_0000_0000_0000_0000 && ringLen < 0x100
    }
  }

  // ----- Encoding -----

  function HeadBytes(h: Head): seq<Byte> {
    Le(h.client, 16) + (Le(h.epoch, 8) + (Le(h.user, 4) + (Le(h.watermark, 8) + (h.verifier + (Le(h.ended, 8) + Le(h.ringLen, 1))))))
  }

  function HeadOf(e: Entry): Head {
    Head(e.client, e.epoch, e.user, e.watermark, e.verifier, if e.endedOp.Some? then e.endedOp.value else 0,
         |RecoveredEntry(e, REPLY_RING_CAPACITY).ring|)
  }

  function RepliesBytes(ring: seq<CachedReply>): seq<Byte> {
    if ring == [] then [] else Le(|ring[0].bytes|, 4) + (ring[0].bytes + RepliesBytes(ring[1..]))
  }

  function EntryBytes(e: Entry): seq<Byte> {
    HeadBytes(HeadOf(e)) + RepliesBytes(RecoveredEntry(e, REPLY_RING_CAPACITY).ring)
  }

  function EntriesBytes(entries: seq<Entry>): seq<Byte> {
    if entries == [] then [] else EntryBytes(entries[0]) + EntriesBytes(entries[1..])
  }

  /** The occupied slots' entries, in slot order. */
  function Seated(slots: SlotArray): seq<Entry> {
    if slots == [] then [] else SeatedIn(slots[0]) + Seated(slots[1..])
  }

  function SeatedIn(slot: Option<Entry>): seq<Entry> {
    if slot.Some? then [slot.value] else []
  }

  function Content(entries: seq<Entry>, capacity: nat): seq<Byte> {
    Magic() + (Le(capacity, 4) + (Le(|entries|, 4) + EntriesBytes(entries)))
  }

  function Encoded(slots: SlotArray, capacity: nat, hash: Hash): seq<Byte> {
    Sealed(Content(Seated(slots), capacity), hash)
  }

  // ----- Decoding -----

  datatype Read<T> = Read(value: T, rest: seq<Byte>)

  function ReadHead(bytes: seq<Byte>): Option<Read<Head>> {
    if |bytes| < HEAD_LEN then None
    else Some(Read(Head(FromLe(bytes[..16]), FromLe(bytes[16..24]), FromLe(bytes[24..28]), FromLe(bytes[28..36]),
                        bytes[36..68], FromLe(bytes[68..76]), FromLe(bytes[76..77])), bytes[77..]))
  }

  function ReadReply(bytes: seq<Byte>, parse: Parse): Result<Read<CachedReply>, TableError> {
    match ReadLe(bytes, 4)
    case None => Err(Truncated)
    case Some((len, rest)) =>
      if |rest| < len then Err(Truncated)
      else
        match parse(rest[..len])
        case None => Err(InvalidReply)
        case Some(header) => Ok(Read(CachedReply(header, rest[..len]), rest[len..]))
  }

  function ReadRing(bytes: seq<Byte>, n: nat, parse: Parse): Result<Read<seq<CachedReply>>, TableError>
    decreases n
  {
    if n == 0 then Ok(Read([], bytes))
    else
      match ReadReply(bytes, parse)
      case Err(e) => Err(e)
      case Ok(Read(reply, rest)) =>
        match ReadRing(rest, n - 1, parse)
        case Err(e) => Err(e)
        case Ok(Read(ring, rest)) => Ok(Read([reply] + ring, rest))
  }

  function RestoredEntry(h: Head, ring: seq<CachedReply>): Entry
    requires ring != []
  {
    Entry(h.verifier, if h.ended == 0 then None else Some(h.ended), h.epoch, None, h.user, h.watermark, 0, ring, h.client,
          ring[|ring| - 1].header.commit)
  }

  /** One entry, refused when its ring is empty or too long, a reply is malformed, or its protection is inconsistent. */
  ghost function ReadEntry(bytes: seq<Byte>, slot: nat, parse: Parse): Result<Read<Entry>, TableError> {
    match ReadHead(bytes)
    case None => Err(Truncated)
    case Some(Read(h, rest)) =>
      if h.ringLen == 0 then Err(EmptyRing)
      else if h.ringLen > REPLY_RING_CAPACITY then Err(RingTooLong(slot, h.ringLen))
      else
        match ReadRing(rest, h.ringLen, parse)
        case Err(e) => Err(e)
        case Ok(Read(ring, rest)) =>
          if ring == [] then Err(EmptyRing)
          else if !ValidProtection(RestoredEntry(h, ring)) then Err(InvalidWatermark(h.client))
          else Ok(Read(RestoredEntry(h, ring), rest))
  }

  /** The slot that already holds the client. */
  function SeatOf(entries: seq<Entry>, client: nat): Option<nat> {
    if entries == [] then None
    else if entries[0].client == client then Some(0)
    else
      var at := SeatOf(entries[1..], client);
      if at.None? then None else Some(at.value + 1)
  }

  /** The next `count` entries, after those already read. */
  ghost function ReadEntries(read: seq<Entry>, bytes: seq<Byte>, count: nat, parse: Parse): Result<Read<seq<Entry>>, TableError>
    decreases count
  {
    if count == 0 then Ok(Read(read, bytes))
    else
      match ReadEntry(bytes, |read|, parse)
      case Err(e) => Err(e)
      case Ok(Read(e, rest)) =>
        if SeatOf(read, e.client).Some? then Err(DuplicateClientId(SeatOf(read, e.client).value, e.client))
        else ReadEntries(read + [e], rest, count - 1, parse)
  }

  /** The decoded entries in slot order, and the capacity. */
  ghost function Decode(bytes: seq<Byte>, hash: Hash, parse: Parse): Result<(seq<Entry>, nat), TableError> {
    match SplitVerifiedTrailer(bytes, hash)
    case Err(TooShort) => Err(Truncated)
    case Err(Mismatch(expected, actual)) => Err(ChecksumMismatch(expected, actual))
    case Ok(content) => DecodeContent(content, parse)
  }

  ghost function DecodeContent(content: seq<Byte>, parse: Parse): Result<(seq<Entry>, nat), TableError> {
    if |content| < 4 then Err(Truncated)
    else if content[..4] != Magic() then Err(BadMagic)
    else
      match ReadLe(content[4..], 4)
      case None => Err(Truncated)
      case Some((capacity, afterCapacity)) =>
        match ReadLe(afterCapacity, 4)
        case None => Err(Truncated)
        case Some((count, body)) =>
          if count > capacity || capacity > CLIENTS_TABLE_SLOT_MAX then Err(TooManyEntries(count, Min(capacity, CLIENTS_TABLE_SLOT_MAX)))
          else if capacity == 0 then Err(InvalidCapacity(capacity))
          else
            match ReadEntries([], body, count, parse)
            case Err(e) => Err(e)
            case Ok(Read(entries, rest)) => if rest != [] then Err(Truncated) else Ok((entries, capacity))
  }

  // ----- Round trip, one entry -----

  /** An entry the encoding can carry: its fields have their wire widths and its replies parse. */
  ghost predicate Wireable(e: Entry, parse: Parse) {
    && HeadOf(e).Fits() && e.endedOp != Some(0) && e.ring != []
    && forall i :: 0 <= i < |e.ring| ==> WireableReply(e.ring[i], parse)
  }

  ghost predicate WireableReply(r: CachedReply, parse: Parse) {
    |r.bytes| < 0x1_0000_0000 && parse(r.bytes) == Some(r.header)
  }

  lemma HeadParts(a: seq<Byte>, b: seq<Byte>, c: seq<Byte>, d: seq<Byte>, e: seq<Byte>, f: seq<Byte>, g: seq<Byte>, rest: seq<Byte>)
    requires |a| == 16 && |b| == 8 && |c| == 4 && |d| == 8 && |e| == 32 && |f| == 8 && |g| == 1
    ensures var x := a + (b + (c + (d + (e + (f + g))))) + rest;
            && |x| == HEAD_LEN + |rest| && x[..16] == a && x[16..24] == b && x[24..28] == c && x[28..36] == d
            && x[36..68] == e && x[68..76] == f && x[76..77] == g && x[77..] == rest
  {
  }

  lemma ReadHeadOf(h: Head, rest: seq<Byte>)
    requires h.Fits()
    ensures ReadHead(HeadBytes(h) + rest) == Some(Read(h, rest))
  {
    Pow256Values();
    FromLeOfLe(h.client, 16);
    FromLeOfLe(h.epoch, 8);
    FromLeOfLe(h.user, 4);
    FromLeOfLe(h.watermark, 8);
    FromLeOfLe(h.ended, 8);
    FromLeOfLe(h.ringLen, 1);
    hide Le, FromLe, Pow256;
    HeadParts(Le(h.client, 16), Le(h.epoch, 8), Le(h.user, 4), Le(h.watermark, 8), h.verifier, Le(h.ended, 8), Le(h.ringLen, 1), rest);
  }

  lemma ReadReplyOf(r: CachedReply, rest: seq<Byte>, parse: Parse)
    requires WireableReply(r, parse)
    ensures ReadReply(Le(|r.bytes|, 4) + (r.bytes + rest), parse) == Ok(Read(r, rest))
  {
    Pow256Values();
    hide Le, FromLe, Pow256;
    ReadLeOfLe(|r.bytes|, 4, r.bytes + rest);
    TakeOf(r.bytes, rest);
  }

  lemma {:induction false} ReadRingOf(ring: seq<CachedReply>, rest: seq<Byte>, parse: Parse)
    requires forall i :: 0 <= i < |ring| ==> WireableReply(ring[i], parse)
    ensures ReadRing(RepliesBytes(ring) + rest, |ring|, parse) == Ok(Read(ring, rest))
    decreases |ring|
  {
    hide ReadReply, Le;
    if ring == [] {
      assert [] + rest == rest;
    } else {
      var more := RepliesBytes(ring[1..]);
      assert RepliesBytes(ring) + rest == Le(|ring[0].bytes|, 4) + (ring[0].bytes + (more + rest));
      ReadReplyOf(ring[0], more + rest, parse);
      assert forall i :: 0 <= i < |ring[1..]| ==> ring[1..][i] == ring[i + 1];
      ReadRingOf(ring[1..], rest, parse);
      assert [ring[0]] + ring[1..] == ring;
    }
  }

  /** A protected entry is read back as recovery keeps it: everything but its oldest replies. */
  lemma ReadEntryOf(e: Entry, rest: seq<Byte>, slot: nat, parse: Parse)
    requires Wireable(e, parse) && ValidProtection(e) && ValidProtection(RecoveredEntry(e, REPLY_RING_CAPACITY))
    ensures ReadEntry(EntryBytes(e) + rest, slot, parse) == Ok(Read(RecoveredEntry(e, REPLY_RING_CAPACITY), rest))
  {
    hide ReadHead, ReadRing, HeadBytes, RepliesBytes, WireableReply;
    var r := RecoveredEntry(e, REPLY_RING_CAPACITY);
    var replies := RepliesBytes(r.ring);
    assert EntryBytes(e) + rest == HeadBytes(HeadOf(e)) + (replies + rest);
    ReadHeadOf(HeadOf(e), replies + rest);
    forall i | 0 <= i < |r.ring| ensures WireableReply(r.ring[i], parse) {
      assert r.ring[i] == e.ring[|e.ring| - |r.ring| + i];
    }
    ReadRingOf(r.ring, rest, parse);
    RestoredIs(e);
    hide ValidProtection;
  }

  lemma RestoredIs(e: Entry)
    requires ValidProtection(e) && e.endedOp != Some(0)
    ensures RestoredEntry(HeadOf(e), RecoveredEntry(e, REPLY_RING_CAPACITY).ring) == RecoveredEntry(e, REPLY_RING_CAPACITY)
  {
  }

  // ----- Round trip, whole table -----

  function RecoveredEntries(entries: seq<Entry>): (r: seq<Entry>)
    ensures |r| == |entries| && forall i :: 0 <= i < |r| ==> r[i] == RecoveredEntry(entries[i], REPLY_RING_CAPACITY)
  {
    seq(|entries|, i requires 0 <= i < |entries| => RecoveredEntry(entries[i], REPLY_RING_CAPACITY))
  }

  ghost predicate DistinctClients(entries: seq<Entry>) {
    forall i, j :: 0 <= i < j < |entries| ==> entries[i].client != entries[j].client
  }

  lemma {:induction false} SeatOfIs(entries: seq<Entry>, client: nat)
    ensures SeatOf(entries, client).Some? <==> exists i :: 0 <= i < |entries| && entries[i].client == client
  {
    if entries != [] {
      SeatOfIs(entries[1..], client);
      assert forall i :: 0 < i < |entries| ==> entries[i] == entries[1..][i - 1];
    }
  }

  ghost predicate Transferable(entries: seq<Entry>, parse: Parse) {
    && DistinctClients(entries)
    && forall i :: 0 <= i < |entries| ==>
         Wireable(entries[i], parse) && ValidProtection(entries[i]) && ValidProtection(RecoveredEntry(entries[i], REPLY_RING_CAPACITY))
  }

  lemma {:induction false} ReadEntriesOf(entries: seq<Entry>, k: nat, rest: seq<Byte>, parse: Parse)
    requires Transferable(entries, parse) && k <= |entries|
    ensures ReadEntries(RecoveredEntries(entries)[..k], EntriesBytes(entries[k..]) + rest, |entries| - k, parse)
            == Ok(Read(RecoveredEntries(entries), rest))
    decreases |entries| - k
  {
    hide ReadEntry, EntryBytes, Wireable, ValidProtection, RecoveredEntry;
    var all := RecoveredEntries(entries);
    if k == |entries| {
      assert all[..k] == all && entries[k..] == [] && EntriesBytes([]) + rest == rest;
    } else {
      var e := entries[k];
      var more := EntriesBytes(entries[k + 1..]) + rest;
      assert entries[k..][0] == e && entries[k..][1..] == entries[k + 1..];
      assert EntriesBytes(entries[k..]) + rest == EntryBytes(e) + more;
      ReadEntryOf(e, more, k, parse);
      FreshSeat(entries, k);
      assert all[..k] + [all[k]] == all[..k + 1];
      ReadEntriesOf(entries, k + 1, rest, parse);
    }
  }

  lemma FreshSeat(entries: seq<Entry>, k: nat)
    requires DistinctClients(entries) && k < |entries|
    ensures RecoveredEntry(entries[k], REPLY_RING_CAPACITY).client == entries[k].client
    ensures SeatOf(RecoveredEntries(entries)[..k], entries[k].client).None?
  {
    SeatOfIs(RecoveredEntries(entries)[..k], entries[k].client);
  }

  /** Decoding an encoded table succeeds and gives back its entries as recovery keeps them. */
  lemma DecodeInvertsEncode(slots: SlotArray, capacity: nat, hash: Hash, parse: Parse)
    requires 0 < capacity <= CLIENTS_TABLE_SLOT_MAX && |Seated(slots)| <= capacity && Transferable(Seated(slots), parse)
    ensures Decode(Encoded(slots, capacity, hash), hash, parse) == Ok((RecoveredEntries(Seated(slots)), capacity))
  {
    hide ReadEntries, EntriesBytes, FromLe, Le, Pow256, Sealed, SplitVerifiedTrailer, Transferable;
    var entries := Seated(slots);
    var body := EntriesBytes(entries);
    var afterCapacity := Le(|entries|, 4) + body;
    var afterMagic := Le(capacity, 4) + afterCapacity;
    SealedSplits(Content(entries, capacity), hash);
    Pow256Values();
    ReadLeOfLe(capacity, 4, afterCapacity);
    ReadLeOfLe(|entries|, 4, body);
    ReadEntriesOf(entries, 0, [], parse);
    assert entries[0..] == entries && body + [] == body && RecoveredEntries(entries)[..0] == [];
    TakeOf(Magic(), afterMagic);
  }

  // ----- Re-encoding -----

  lemma RecoveredTwice(e: Entry, depth: nat)
    requires 0 < depth
    ensures RecoveredEntry(RecoveredEntry(e, depth), depth) == RecoveredEntry(e, depth)
  {
  }

  lemma RecoveredEncodesAlike(e: Entry)
    ensures EntryBytes(RecoveredEntry(e, REPLY_RING_CAPACITY)) == EntryBytes(e)
  {
    RecoveredTwice(e, REPLY_RING_CAPACITY);
  }

  lemma {:induction false} RecoveredEntriesEncodeAlike(entries: seq<Entry>)
    ensures EntriesBytes(RecoveredEntries(entries)) == EntriesBytes(entries)
    decreases |entries|
  {
    hide EntryBytes, RecoveredEntry;
    if entries != [] {
      RecoveredEncodesAlike(entries[0]);
      assert RecoveredEntries(entries)[1..] == RecoveredEntries(entries[1..]);
      RecoveredEntriesEncodeAlike(entries[1..]);
    }
  }

  /** The decoded table's slot array: the entries in order, padded to capacity. */
  function DecodedSlots(entries: seq<Entry>, capacity: nat): (slots: SlotArray)
    requires |entries| <= capacity
    ensures |slots| == capacity
  {
    seq(capacity, i requires 0 <= i < capacity => if i < |entries| then Some(entries[i]) else None)
  }

  lemma {:induction false} SeatedDecoded(entries: seq<Entry>, capacity: nat)
    requires |entries| <= capacity
    ensures Seated(DecodedSlots(entries, capacity)) == entries
    decreases capacity
  {
    if capacity > 0 {
      var rest := if entries == [] then [] else entries[1..];
      assert DecodedSlots(entries, capacity)[1..] == DecodedSlots(rest, capacity - 1);
      SeatedDecoded(rest, capacity - 1);
      if entries != [] {
        assert entries == [entries[0]] + entries[1..];
      }
    }
  }

  /** Encoding a decoded table again reproduces the bytes it was decoded from. */
  lemma ReencodeReproduces(slots: SlotArray, capacity: nat, hash: Hash)
    requires |Seated(slots)| <= capacity
    ensures Encoded(DecodedSlots(RecoveredEntries(Seated(slots)), capacity), capacity, hash) == Encoded(slots, capacity, hash)
  {
    hide Sealed, EntriesBytes, Seated, RecoveredEntry;
    SeatedDecoded(RecoveredEntries(Seated(slots)), capacity);
    RecoveredEntriesEncodeAlike(Seated(slots));
  }
}
