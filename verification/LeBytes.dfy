/**
 * Little-endian integers on the wire, the cursor that reads them, and the checksum trailer
 * every encoded body ends with.
 */
module LeBytes {
  import opened Common

  /** Artifact checksum; the hash itself is a parameter. */
  type Hash = h: seq<Byte> -> nat | forall b :: h(b) < 0x1_0000_0000_0000_0000 witness (_ => 0)

  function Pow256(n: nat): (p: nat)
    ensures p > 0
  {
    if n == 0 then 1 else 256 * Pow256(n - 1)
  }

  function Le(n: nat, width: nat): (bytes: seq<Byte>)
    ensures |bytes| == width
  {
    if width == 0 then [] else [n % 256] + Le(n / 256, width - 1)
  }

  function FromLe(bytes: seq<Byte>): nat {
    if bytes == [] then 0 else bytes[0] + 256 * FromLe(bytes[1..])
  }

  /** Decoding inverts encoding for every integer that fits. */
  lemma {:induction false} FromLeOfLe(n: nat, width: nat)
    requires n < Pow256(width)
    ensures FromLe(Le(n, width)) == n
  {
    if width > 0 {
      FromLeOfLe(n / 256, width - 1);
      assert Le(n, width)[1..] == Le(n / 256, width - 1);
    }
  }

  /** Encoding inverts decoding for every byte string. */
  lemma {:induction false} LeOfFromLe(bytes: seq<Byte>)
    ensures Le(FromLe(bytes), |bytes|) == bytes && FromLe(bytes) < Pow256(|bytes|)
  {
    if bytes != [] {
      LeOfFromLe(bytes[1..]);
      assert bytes == [bytes[0]] + bytes[1..];
    }
  }

  lemma Pow256Values()
    ensures Pow256(1) == 0x100 && Pow256(4) == 0x1_0000_0000 && Pow256(8) == 0x1_0000_0000_0000_0000
    ensures Pow256(16) == 0x1_0000_0000_0000_0000_0000_0000_0000_0000
  {
    assert Pow256(2) == 0x1_0000;
    assert Pow256(4) == 0x1_0000_0000;
    assert Pow256(6) == 0x1_0000_0000_0000;
    assert Pow256(8) == 0x1_0000_0000_0000_0000;
    assert Pow256(10) == 0x1_0000_0000_0000_0000_0000;
    assert Pow256(12) == 0x1_0000_0000_0000_0000_0000_0000;
    assert Pow256(14) == 0x1_0000_0000_0000_0000_0000_0000_0000;
  }

  // ----- Reading -----

  /** An integer and the bytes after it; `None` when too few remain. */
  function ReadLe(bytes: seq<Byte>, width: nat): (r: Option<(nat, seq<Byte>)>)
    ensures r.Some? <==> width <= |bytes|
    ensures r.Some? ==> bytes == bytes[..width] + r.value.1 && r.value.1 == bytes[width..]
  {
    if |bytes| < width then None else Some((FromLe(bytes[..width]), bytes[width..]))
  }

  lemma ReadLeOfLe(n: nat, width: nat, rest: seq<Byte>)
    requires n < Pow256(width)
    ensures ReadLe(Le(n, width) + rest, width) == Some((n, rest))
  {
    FromLeOfLe(n, width);
    assert (Le(n, width) + rest)[..width] == Le(n, width);
    assert (Le(n, width) + rest)[width..] == rest;
  }

  lemma TakeOf(head: seq<Byte>, rest: seq<Byte>)
    ensures (head + rest)[..|head|] == head && (head + rest)[|head|..] == rest
  {
  }

  class LeCursor {
    var bytes: seq<Byte>

    constructor (bytes: seq<Byte>)
      ensures this.bytes == bytes
    {
      this.bytes := bytes;
    }

    /** `None` is the cursor's one failure, running past the end; it then stays where it was. */
    method Take(len: nat) returns (head: Option<seq<Byte>>)
      modifies this
      ensures head.Some? <==> len <= |old(bytes)|
      ensures head.Some? ==> head.value == old(bytes)[..len] && bytes == old(bytes)[len..]
      ensures head.None? ==> bytes == old(bytes)
    {
      if |bytes| < len {
        return None;
      }
      head := Some(bytes[..len]);
      bytes := bytes[len..];
    }

    /** Reads an unsigned integer of `width` bytes. */
    method ReadInt(width: nat) returns (n: Option<nat>)
      modifies this
      ensures match ReadLe(old(bytes), width)
              case None => n == None && bytes == old(bytes)
              case Some(r) => n == Some(r.0) && bytes == r.1
    {
      var head := Take(width);
      if head.None? {
        return None;
      }
      var value := DecodeInt(head.value);
      return Some(value);
    }
  }

  method DecodeInt(bytes: seq<Byte>) returns (n: nat)
    ensures n == FromLe(bytes)
  {
    n := 0;
    var i := |bytes|;
    assert bytes[i..] == [];
    while i > 0
      invariant i <= |bytes| && n == FromLe(bytes[i..])
    {
      i := i - 1;
      assert bytes[i..][0] == bytes[i] && bytes[i..][1..] == bytes[i + 1..];
      n := bytes[i] + 256 * n;
    }
    assert bytes[0..] == bytes;
  }

  // ----- Trailer -----

  const TRAILER_LEN := 8

  datatype TrailerError = TooShort | Mismatch(expected: nat, actual: nat)

  function SplitVerifiedTrailer(bytes: seq<Byte>, hash: Hash): (r: Result<seq<Byte>, TrailerError>)
    ensures r.Ok? <==> exists content :: bytes == Sealed(content, hash)
    ensures r.Ok? ==> bytes == Sealed(r.value, hash)
  {
    if |bytes| < TRAILER_LEN then
      assert forall content :: |Sealed(content, hash)| >= TRAILER_LEN;
      Err(TooShort)
    else
      var content := bytes[..|bytes| - TRAILER_LEN];
      var expected := FromLe(bytes[|bytes| - TRAILER_LEN..]);
      SealedIff(bytes, hash);
      if expected == hash(content) then Ok(content) else Err(Mismatch(expected, hash(content)))
  }

  function Sealed(content: seq<Byte>, hash: Hash): seq<Byte> {
    content + Le(hash(content), TRAILER_LEN)
  }

  lemma SealedIff(bytes: seq<Byte>, hash: Hash)
    requires |bytes| >= TRAILER_LEN
    ensures var content := bytes[..|bytes| - TRAILER_LEN];
            var stamped := FromLe(bytes[|bytes| - TRAILER_LEN..]) == hash(content);
            && (stamped ==> bytes == Sealed(content, hash))
            && (forall c :: bytes == Sealed(c, hash) ==> stamped)
  {
    var content, trailer := bytes[..|bytes| - TRAILER_LEN], bytes[|bytes| - TRAILER_LEN..];
    assert bytes == content + trailer;
    LeOfFromLe(trailer);
    forall c | bytes == Sealed(c, hash) ensures FromLe(trailer) == hash(content) {
      TakeOf(c, Le(hash(c), TRAILER_LEN));
      assert |c| == |content|;
      Pow256Values();
      FromLeOfLe(hash(c), TRAILER_LEN);
    }
  }

  /** A sealed body splits back into what was sealed. */
  lemma SealedSplits(content: seq<Byte>, hash: Hash)
    ensures SplitVerifiedTrailer(Sealed(content, hash), hash) == Ok(content)
  {
    var bytes := Sealed(content, hash);
    TakeOf(content, Le(hash(content), TRAILER_LEN));
    SealedIff(bytes, hash);
  }
}
