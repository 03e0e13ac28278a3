/** The manifest of a state transfer: a forward-compatible list of artifacts under a checksum trailer. */
module StateManifest {
  import opened Common
  import opened LeBytes

  const STATE_MANIFEST_ENTRY_LEN := 25
  const STATE_MANIFEST_ENTRIES_MAX := 0x1_0000

  datatype StateArtifact = StateArtifact(kind: nat, frontier: nat, len: nat, checksum: nat) {
    /** The fields are a `u8` and three `u64`s. */
    predicate Fits() {
      kind < 0x100 && frontier < 0x1_0000_0000_0000_0000 && len < 0x1_0000_0000_0000_0000 && checksum < 0x1_0000_0000_0000_0000
    }
  }

  datatype ManifestError =
    | Truncated
    | BadMagic
    | ChecksumMismatch(expected: nat, actual: nat)
    | TooManyArtifacts(count: nat)
    | EntryTooShort(entryLen: nat)

  function Magic(): (m: seq<Byte>)
    ensures |m| == 4
  {
    [0x49, 0x53, 0x4D, 0x31]
  }

  // ----- The format -----

  function EntryBytes(a: StateArtifact): (bytes: seq<Byte>)
    ensures |bytes| == STATE_MANIFEST_ENTRY_LEN
  {
    Le(a.kind, 1) + (Le(a.frontier, 8) + (Le(a.len, 8) + Le(a.checksum, 8)))
  }

  /** Entries as an encoder with longer entries would write them: each followed by fields of its own. */
  function EntriesBytes(artifacts: seq<StateArtifact>, tails: seq<seq<Byte>>): seq<Byte>
    requires |tails| == |artifacts|
  {
    if artifacts == [] then [] else EntryBytes(artifacts[0]) + tails[0] + EntriesBytes(artifacts[1..], tails[1..])
  }

  function Content(artifacts: seq<StateArtifact>, entryLen: nat, tails: seq<seq<Byte>>): seq<Byte>
    requires |tails| == |artifacts|
  {
    Magic() + (Le(|artifacts|, 4) + (Le(entryLen, 1) + EntriesBytes(artifacts, tails)))
  }

  /** Every entry's extra fields fill the declared entry length. */
  ghost predicate TailsFill(tails: seq<seq<Byte>>, entryLen: nat) {
    STATE_MANIFEST_ENTRY_LEN <= entryLen < 0x100 && forall i :: 0 <= i < |tails| ==> |tails[i]| == entryLen - STATE_MANIFEST_ENTRY_LEN
  }

  ghost predicate Listable(artifacts: seq<StateArtifact>) {
    |artifacts| <= STATE_MANIFEST_ENTRIES_MAX && forall i :: 0 <= i < |artifacts| ==> artifacts[i].Fits()
  }

  function NoTails(n: nat): (tails: seq<seq<Byte>>)
    ensures |tails| == n && forall i :: 0 <= i < n ==> tails[i] == []
  {
    if n == 0 then [] else [[]] + NoTails(n - 1)
  }

  function Encoded(artifacts: seq<StateArtifact>, hash: Hash): seq<Byte> {
    Sealed(Content(artifacts, STATE_MANIFEST_ENTRY_LEN, NoTails(|artifacts|)), hash)
  }

  // ----- Decoding -----

  /** The known fields of one entry. */
  function ReadEntry(entry: seq<Byte>): StateArtifact
    requires |entry| >= STATE_MANIFEST_ENTRY_LEN
  {
    StateArtifact(FromLe(entry[..1]), FromLe(entry[1..9]), FromLe(entry[9..17]), FromLe(entry[17..25]))
  }

  lemma EntryReads(entry: seq<Byte>)
    requires |entry| >= STATE_MANIFEST_ENTRY_LEN
    ensures ReadEntry(entry).Fits() && entry[..STATE_MANIFEST_ENTRY_LEN] == EntryBytes(ReadEntry(entry))
  {
    Pow256Values();
    LeOfFromLe(entry[..1]);
    LeOfFromLe(entry[1..9]);
    LeOfFromLe(entry[9..17]);
    LeOfFromLe(entry[17..25]);
    hide FromLe, Le, Pow256;
    EntryParts(entry);
  }

  lemma EntryParts(entry: seq<Byte>)
    requires |entry| >= STATE_MANIFEST_ENTRY_LEN
    ensures entry[..25] == entry[..1] + (entry[1..9] + (entry[9..17] + entry[17..25]))
  {
  }

  /** `count` entries and the bytes after them. */
  function ReadEntries(bytes: seq<Byte>, count: nat, entryLen: nat): (r: Option<(seq<StateArtifact>, seq<Byte>)>)
    requires entryLen >= STATE_MANIFEST_ENTRY_LEN
  {
    if count == 0 then Some(([], bytes))
    else if |bytes| < entryLen then None
    else
      var rest := ReadEntries(bytes[entryLen..], count - 1, entryLen);
      if rest.None? then None else Some(([ReadEntry(bytes[..entryLen])] + rest.value.0, rest.value.1))
  }

  function Decode(bytes: seq<Byte>, hash: Hash): Result<seq<StateArtifact>, ManifestError> {
    match SplitVerifiedTrailer(bytes, hash)
    case Err(TooShort) => Err(Truncated)
    case Err(Mismatch(expected, actual)) => Err(ChecksumMismatch(expected, actual))
    case Ok(content) => DecodeContent(content)
  }

  function DecodeContent(content: seq<Byte>): Result<seq<StateArtifact>, ManifestError> {
    if |content| < 4 then Err(Truncated)
    else if content[..4] != Magic() then Err(BadMagic)
    else
      match ReadLe(content[4..], 4)
      case None => Err(Truncated)
      case Some((count, afterCount)) =>
        if count > STATE_MANIFEST_ENTRIES_MAX then Err(TooManyArtifacts(count))
        else
          match ReadLe(afterCount, 1)
          case None => Err(Truncated)
          case Some((entryLen, body)) =>
            if entryLen < STATE_MANIFEST_ENTRY_LEN then Err(EntryTooShort(entryLen))
            else
              match ReadEntries(body, count, entryLen)
              case None => Err(Truncated)
              case Some((artifacts, rest)) => if rest != [] then Err(Truncated) else Ok(artifacts)
  }

  // ----- Round trips -----

  lemma ReadEntryOf(a: StateArtifact, tail: seq<Byte>)
    requires a.Fits()
    ensures ReadEntry(EntryBytes(a) + tail) == a
  {
    Pow256Values();
    FromLeOfLe(a.kind, 1);
    FromLeOfLe(a.frontier, 8);
    FromLeOfLe(a.len, 8);
    FromLeOfLe(a.checksum, 8);
    hide FromLe, Le, Pow256;
    FieldsOf(Le(a.kind, 1), Le(a.frontier, 8), Le(a.len, 8), Le(a.checksum, 8), tail);
  }

  lemma FieldsOf(kind: seq<Byte>, frontier: seq<Byte>, len: seq<Byte>, checksum: seq<Byte>, tail: seq<Byte>)
    requires |kind| == 1 && |frontier| == 8 && |len| == 8 && |checksum| == 8
    ensures var e := kind + (frontier + (len + checksum)) + tail;
            e[..1] == kind && e[1..9] == frontier && e[9..17] == len && e[17..25] == checksum
  {
    var e := kind + (frontier + (len + checksum)) + tail;
    assert e == kind + frontier + len + checksum + tail;
    assert e[..1] == kind;
    assert e[1..9] == frontier;
    assert e[9..17] == len;
    assert e[17..25] == checksum;
  }

  lemma {:induction false} ReadEntriesOf(artifacts: seq<StateArtifact>, entryLen: nat, tails: seq<seq<Byte>>)
    requires |tails| == |artifacts| && TailsFill(tails, entryLen) && forall i :: 0 <= i < |artifacts| ==> artifacts[i].Fits()
    ensures ReadEntries(EntriesBytes(artifacts, tails), |artifacts|, entryLen) == Some((artifacts, []))
    decreases |artifacts|
  {
    hide EntryBytes, ReadEntry;
    if artifacts != [] {
      var head := EntryBytes(artifacts[0]) + tails[0];
      var rest := EntriesBytes(artifacts[1..], tails[1..]);
      assert forall i :: 0 <= i < |tails[1..]| ==> tails[1..][i] == tails[i + 1];
      assert forall i :: 0 <= i < |artifacts[1..]| ==> artifacts[1..][i] == artifacts[i + 1];
      ReadEntriesOf(artifacts[1..], entryLen, tails[1..]);
      ReadEntryOf(artifacts[0], tails[0]);
      TakeOf(head, rest);
      assert artifacts == [artifacts[0]] + artifacts[1..];
    }
  }

  /** Whatever fields a later version appends to each entry, the known ones decode to the same list. */
  lemma DecodeInvertsEncode(artifacts: seq<StateArtifact>, entryLen: nat, tails: seq<seq<Byte>>, hash: Hash)
    requires Listable(artifacts) && |tails| == |artifacts| && TailsFill(tails, entryLen)
    ensures Decode(Sealed(Content(artifacts, entryLen, tails), hash), hash) == Ok(artifacts)
  {
    hide ReadEntries, EntriesBytes, FromLe, Le, Pow256, Sealed, SplitVerifiedTrailer;
    var body := EntriesBytes(artifacts, tails);
    var afterCount := Le(entryLen, 1) + body;
    var afterMagic := Le(|artifacts|, 4) + afterCount;
    SealedSplits(Content(artifacts, entryLen, tails), hash);
    Pow256Values();
    ReadLeOfLe(|artifacts|, 4, afterCount);
    ReadLeOfLe(entryLen, 1, body);
    ReadEntriesOf(artifacts, entryLen, tails);
    TakeOf(Magic(), afterMagic);
  }

  /** The bytes are read entry by entry exactly when they are that many entries and a rest. */
  lemma {:induction false} ReadEntriesShape(bytes: seq<Byte>, count: nat, entryLen: nat) returns (tails: seq<seq<Byte>>)
    requires STATE_MANIFEST_ENTRY_LEN <= entryLen < 0x100 && ReadEntries(bytes, count, entryLen).Some?
    ensures var r := ReadEntries(bytes, count, entryLen).value;
            && |r.0| == count == |tails| && (forall i :: 0 <= i < count ==> r.0[i].Fits())
            && TailsFill(tails, entryLen) && bytes == EntriesBytes(r.0, tails) + r.1
    decreases count
  {
    hide EntryBytes, ReadEntry;
    if count == 0 {
      tails := [];
      assert bytes == [] + bytes;
    } else {
      var rest := ReadEntriesShape(bytes[entryLen..], count - 1, entryLen);
      var tail := bytes[STATE_MANIFEST_ENTRY_LEN..entryLen];
      tails := [tail] + rest;
      var r := ReadEntries(bytes, count, entryLen).value;
      var a := ReadEntry(bytes[..entryLen]);
      EntryReads(bytes[..entryLen]);
      assert r.0[1..] == ReadEntries(bytes[entryLen..], count - 1, entryLen).value.0 && tails[1..] == rest;
      assert bytes[..entryLen][..STATE_MANIFEST_ENTRY_LEN] == bytes[..STATE_MANIFEST_ENTRY_LEN];
      assert bytes[..entryLen] == EntryBytes(a) + tail;
      assert bytes == bytes[..entryLen] + bytes[entryLen..];
      assert EntryBytes(a) + tail + (EntriesBytes(r.0[1..], rest) + r.1) == EntryBytes(a) + tail + EntriesBytes(r.0[1..], rest) + r.1;
    }
  }

  /** Decoding accepts nothing but an encoding of the list it returns, all of it consumed. */
  lemma DecodeAcceptsOnlyEncodings(bytes: seq<Byte>, hash: Hash) returns (entryLen: nat, tails: seq<seq<Byte>>)
    requires Decode(bytes, hash).Ok?
    ensures var artifacts := Decode(bytes, hash).value;
            && Listable(artifacts) && |tails| == |artifacts| && TailsFill(tails, entryLen)
            && bytes == Sealed(Content(artifacts, entryLen, tails), hash)
  {
    hide ReadEntries, EntriesBytes, Sealed, Le, FromLe, Pow256;
    var content := SplitVerifiedTrailer(bytes, hash).value;
    var count, afterCount := ReadLe(content[4..], 4).value.0, ReadLe(content[4..], 4).value.1;
    var body := ReadLe(afterCount, 1).value.1;
    entryLen := ReadLe(afterCount, 1).value.0;
    LeOfFromLe(content[4..][..4]);
    LeOfFromLe(afterCount[..1]);
    Pow256Values();
    tails := ReadEntriesShape(body, count, entryLen);
    var artifacts := ReadEntries(body, count, entryLen).value.0;
    assert EntriesBytes(artifacts, tails) + [] == EntriesBytes(artifacts, tails);
    assert content == content[..4] + content[4..];
  }

  // ----- The codec as it runs -----

  /** Appends artifact after artifact to one buffer, then the trailer. */
  method EncodeStateManifest(artifacts: seq<StateArtifact>, hash: Hash) returns (out: seq<Byte>)
    requires |artifacts| <= STATE_MANIFEST_ENTRIES_MAX
    ensures out == Encoded(artifacts, hash)
  {
    hide EntryBytes, EntriesBytes, Le;
    ghost var header := Magic() + Le(|artifacts|, 4) + Le(STATE_MANIFEST_ENTRY_LEN, 1);
    NoEntries();
    out := Magic() + Le(|artifacts|, 4) + Le(STATE_MANIFEST_ENTRY_LEN, 1);
    for i := 0 to |artifacts|
      invariant out == header + EntriesBytes(artifacts[..i], NoTails(i))
    {
      AppendEntry(artifacts, i);
      out := AppendArtifact(out, artifacts[i]);
    }
    assert artifacts[..|artifacts|] == artifacts;
    assert out == Content(artifacts, STATE_MANIFEST_ENTRY_LEN, NoTails(|artifacts|));
    out := out + Le(hash(out), TRAILER_LEN);
  }

  method AppendArtifact(out: seq<Byte>, a: StateArtifact) returns (after: seq<Byte>)
    ensures after == out + EntryBytes(a)
  {
    hide Le;
    after := out + Le(a.kind, 1);
    after := after + Le(a.frontier, 8);
    after := after + Le(a.len, 8);
    after := after + Le(a.checksum, 8);
  }

  lemma NoEntries()
    ensures EntriesBytes([], NoTails(0)) == []
  {
  }

  lemma AppendEntry(artifacts: seq<StateArtifact>, i: nat)
    requires i < |artifacts|
    ensures EntriesBytes(artifacts[..i + 1], NoTails(i + 1)) == EntriesBytes(artifacts[..i], NoTails(i)) + EntryBytes(artifacts[i])
  {
    EntriesConcat(artifacts[..i], [artifacts[i]]);
    assert artifacts[..i + 1] == artifacts[..i] + [artifacts[i]];
    assert EntriesBytes([], NoTails(0)) == [];
    assert EntriesBytes([artifacts[i]], NoTails(1)) == EntryBytes(artifacts[i]) + [] + [];
  }

  lemma {:induction false} EntriesConcat(a: seq<StateArtifact>, b: seq<StateArtifact>)
    ensures EntriesBytes(a + b, NoTails(|a| + |b|)) == EntriesBytes(a, NoTails(|a|)) + EntriesBytes(b, NoTails(|b|))
    decreases |a|
  {
    hide EntryBytes;
    if a == [] {
      assert a + b == b;
    } else {
      EntriesConcat(a[1..], b);
      assert (a + b)[1..] == a[1..] + b;
      assert NoTails(|a| + |b|)[1..] == NoTails(|a| + |b| - 1) && NoTails(|a|)[1..] == NoTails(|a| - 1);
    }
  }

  /** Reads the list through a cursor. */
  method DecodeStateManifest(bytes: seq<Byte>, hash: Hash) returns (r: Result<seq<StateArtifact>, ManifestError>)
    ensures r == Decode(bytes, hash)
  {
    match SplitVerifiedTrailer(bytes, hash)
    case Err(TooShort) => return Err(Truncated);
    case Err(Mismatch(expected, actual)) => return Err(ChecksumMismatch(expected, actual));
    case Ok(content) =>
      var reader := new LeCursor(content);
      var magic := reader.Take(4);
      if magic.None? {
        return Err(Truncated);
      }
      if magic.value != Magic() {
        return Err(BadMagic);
      }
      var count := reader.ReadInt(4);
      if count.None? {
        return Err(Truncated);
      }
      if count.value > STATE_MANIFEST_ENTRIES_MAX {
        return Err(TooManyArtifacts(count.value));
      }
      var entryLen := reader.ReadInt(1);
      if entryLen.None? {
        return Err(Truncated);
      }
      if entryLen.value < STATE_MANIFEST_ENTRY_LEN {
        return Err(EntryTooShort(entryLen.value));
      }
      var artifacts := DecodeEntries(reader, count.value, entryLen.value);
      if artifacts.None? || reader.bytes != [] {
        return Err(Truncated);
      }
      return Ok(artifacts.value);
  }

  method DecodeEntries(reader: LeCursor, count: nat, entryLen: nat) returns (artifacts: Option<seq<StateArtifact>>)
    requires STATE_MANIFEST_ENTRY_LEN <= entryLen
    modifies reader
    ensures match ReadEntries(old(reader.bytes), count, entryLen)
            case None => artifacts == None
            case Some(r) => artifacts == Some(r.0) && reader.bytes == r.1
  {
    hide ReadEntry;
    ghost var start := reader.bytes;
    var read: seq<StateArtifact> := [];
    PrependNothing(ReadEntries(start, count, entryLen));
    for i := 0 to count
      invariant ReadEntries(start, count, entryLen) == Prepend(read, ReadEntries(reader.bytes, count - i, entryLen))
    {
      var entry := reader.Take(entryLen);
      if entry.None? {
        return None;
      }
      var a := DecodeEntry(entry.value);
      PrependTwice(read, a, ReadEntries(reader.bytes, count - i - 1, entryLen));
      read := read + [a];
    }
    assert read + [] == read;
    return Some(read);
  }

  ghost function Prepend(read: seq<StateArtifact>, r: Option<(seq<StateArtifact>, seq<Byte>)>): Option<(seq<StateArtifact>, seq<Byte>)> {
    if r.None? then None else Some((read + r.value.0, r.value.1))
  }

  lemma PrependNothing(r: Option<(seq<StateArtifact>, seq<Byte>)>)
    ensures Prepend([], r) == r
  {
    if r.Some? {
      assert [] + r.value.0 == r.value.0;
    }
  }

  lemma PrependTwice(read: seq<StateArtifact>, a: StateArtifact, r: Option<(seq<StateArtifact>, seq<Byte>)>)
    ensures Prepend(read, Prepend([a], r)) == Prepend(read + [a], r)
  {
    if r.Some? {
      assert read + ([a] + r.value.0) == read + [a] + r.value.0;
    }
  }

  method DecodeEntry(bytes: seq<Byte>) returns (a: StateArtifact)
    requires |bytes| >= STATE_MANIFEST_ENTRY_LEN
    ensures a == ReadEntry(bytes)
  {
    var entry := new LeCursor(bytes);
    var kind := entry.ReadInt(1);
    var frontier := entry.ReadInt(8);
    var len := entry.ReadInt(8);
    var checksum := entry.ReadInt(8);
    assert bytes[1..][..8] == bytes[1..9] && bytes[9..][..8] == bytes[9..17] && bytes[17..][..8] == bytes[17..25];
    a := StateArtifact(kind.value, frontier.value, len.value, checksum.value);
  }
}
