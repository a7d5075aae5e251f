/** The part of BCS that the Sui batches use: ULEB128 lengths, fixed bytes and length-prefixed bytes. */
module Bcs {

  import opened ByteStrings
  import opened GoTypes

  /** A byte string short enough for a 32-bit length. */
  type Bytes = s: seq<byte> | |s| < TWO32

  /** "ULEB128-Encoded Integers": seven bits a byte, lowest first, the high bit set on all but the last. */
  function Uleb(n: nat): (r: seq<byte>)
    ensures r != []
  {
    if n < 128 then [n] else [n % 128 + 128] + Uleb(n / 128)
  }

  function ReadLimbs(s: seq<byte>): Parse<nat> {
    if s == [] then Malformed
    else if s[0] < 128 then Parsed(s[0], s[1..])
    else match ReadLimbs(s[1..])
      case Malformed => Malformed
      case Parsed(high, rest) => Parsed(s[0] - 128 + 128 * high, rest)
  }

  function ReadUleb(s: seq<byte>): Parse<uint32> {
    match ReadLimbs(s)
    case Malformed => Malformed
    case Parsed(n, rest) => if n < TWO32 then Parsed(n, rest) else Malformed
  }

  lemma {:induction false} ReadsLimbs(n: nat, rest: seq<byte>)
    ensures ReadLimbs(Uleb(n) + rest) == Parsed(n, rest)
  {
    if n < 128 {
      assert ([n] + rest)[1..] == rest;
    } else {
      ReadsLimbs(n / 128, rest);
      assert (Uleb(n) + rest)[1..] == Uleb(n / 128) + rest;
    }
  }

  lemma {:induction false} ReadsUleb(n: uint32, rest: seq<byte>)
    ensures ReadUleb(Uleb(n) + rest) == Parsed(n, rest)
  {
    ReadsLimbs(n, rest);
  }

  function ReadFixed(s: seq<byte>, n: uint32): (r: Parse<Bytes>)
    ensures r.Parsed? ==> |r.value| == n
  {
    if n <= |s| then Parsed(s[..n], s[n..]) else Malformed
  }

  function Prefixed(b: Bytes): seq<byte> {
    Uleb(|b|) + b
  }

  function ReadPrefixed(s: seq<byte>): Parse<Bytes> {
    match ReadUleb(s)
    case Malformed => Malformed
    case Parsed(n, rest) => ReadFixed(rest, n)
  }

  lemma {:induction false} ReadsFixed(b: Bytes, rest: seq<byte>)
    ensures ReadFixed(b + rest, |b|) == Parsed(b, rest)
  {
    assert (b + rest)[..|b|] == b && (b + rest)[|b|..] == rest;
  }

  lemma {:induction false} ReadsPrefixed(b: Bytes, rest: seq<byte>)
    ensures ReadPrefixed(Prefixed(b) + rest) == Parsed(b, rest)
  {
    assert Prefixed(b) + rest == Uleb(|b|) + (b + rest);
    ReadsUleb(|b|, b + rest);
    ReadsFixed(b, rest);
  }

  class Serializer {
    var buffer: seq<byte>

    constructor ()
      ensures buffer == []
    {
      buffer := [];
    }

    method Uleb128(n: uint32)
      modifies this
      ensures buffer == old(buffer) + Uleb(n)
    {
      buffer := buffer + Uleb(n);
    }

    method FixedBytes(b: seq<byte>)
      modifies this
      ensures buffer == old(buffer) + b
    {
      buffer := buffer + b;
    }

    /** `WriteBytes`, and `WriteString` of the string's bytes. */
    method WriteBytes(b: Bytes)
      modifies this
      ensures buffer == old(buffer) + Prefixed(b)
    {
      buffer := buffer + Prefixed(b);
    }
  }

  /** A cursor over its input; what a read returns once the input has run out is not specified. */
  class Deserializer {
    var unread: seq<byte>

    constructor (source: seq<byte>)
      ensures unread == source
    {
      unread := source;
    }

    method Uleb128() returns (n: uint32)
      modifies this
      ensures ReadUleb(old(unread)).Parsed? ==> ReadUleb(old(unread)) == Parsed(n, unread)
    {
      match ReadUleb(unread)
      case Malformed => n := 0;
      case Parsed(v, rest) => n, unread := v, rest;
    }

    method ReadFixedBytes(k: uint32) returns (b: Bytes)
      modifies this
      ensures |b| == k
      ensures ReadFixed(old(unread), k).Parsed? ==> ReadFixed(old(unread), k) == Parsed(b, unread)
    {
      match ReadFixed(unread, k)
      case Malformed => b := seq(k, _ => 0);
      case Parsed(v, rest) => b, unread := v, rest;
    }

    /** `ReadBytes` and `ReadString`. */
    method ReadBytes() returns (b: Bytes)
      modifies this
      ensures ReadPrefixed(old(unread)).Parsed? ==> ReadPrefixed(old(unread)) == Parsed(b, unread)
    {
      match ReadPrefixed(unread)
      case Malformed => b := [];
      case Parsed(v, rest) => b, unread := v, rest;
    }
  }
}
