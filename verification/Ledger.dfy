/** The Ledger wallet transport: APDU framing into 64-byte packets, reply reassembly, and the
    payload chunk search (sdk/usbwallet/ledger.go, sdk/usbwallet/eip191.go). */
module Ledger {
  import opened Chunking
  import opened GoTypes

  const PACKET := 64
  const SPACE := 59 // payload bytes of a packet after its 5-byte header
  const EIP155_SIZE := 3

  function Be16(n: nat): seq<byte> {
    [n / 256 % 256, n % 256]
  }

  /** Channel 0101, tag 05, then the index as a uint16. */
  function Header(i: nat): (h: seq<byte>)
    ensures |h| == 5
  {
    [0x01, 0x01, 0x05] + Be16(i)
  }

  // ----- sending

  function Take(bytes: seq<byte>): (n: nat)
    ensures n <= |bytes| && n <= SPACE
  {
    if |bytes| > SPACE then SPACE else |bytes|
  }

  /** The packets for `bytes`, numbered from `i`; the last one may be short. */
  function Packets(bytes: seq<byte>, i: nat): seq<seq<byte>>
    decreases |bytes|
  {
    if bytes == [] then []
    else [Header(i) + bytes[..Take(bytes)]] + Packets(bytes[Take(bytes)..], i + 1)
  }

  lemma {:induction false} PacketStep(before: seq<seq<byte>>, bytes: seq<byte>, i: nat)
    requires bytes != []
    ensures before + Packets(bytes, i)
         == before + [Header(i) + bytes[..Take(bytes)]] + Packets(bytes[Take(bytes)..], i + 1)
    ensures |bytes| <= SPACE ==> bytes[..Take(bytes)] == bytes && bytes[Take(bytes)..] == []
  {
  }

  /** Length prefix, then class, opcode, parameters, data length and data. */
  function Body(opcode: byte, p1: byte, p2: byte, data: seq<byte>): seq<byte> {
    [0xe0, opcode, p1, p2, |data| % 256] + data
  }

  function Apdu(body: seq<byte>): seq<byte> {
    Be16(|body|) + body
  }

  datatype Sent = Sent(packets: seq<seq<byte>>) | ApduTooLong

  method Send(opcode: byte, p1: byte, p2: byte, data: seq<byte>) returns (r: Sent)
    ensures r == if 5 + |data| > 65535 then ApduTooLong else Sent(Packets(Apdu(Body(opcode, p1, p2, data)), 0))
  {
    if 5 + |data| > 65535 {
      return ApduTooLong;
    }
    var apdu: seq<byte> := Be16(5 + |data|) + [0xe0, opcode, p1, p2, |data| % 256] + data;
    assert apdu == Apdu(Body(opcode, p1, p2, data));
    ghost var whole := apdu;
    var packets: seq<seq<byte>> := [];
    var i := 0;
    while |apdu| > 0
      invariant packets + Packets(apdu, i) == Packets(whole, 0)
      decreases |apdu|
    {
      var chunk := Header(i);
      PacketStep(packets, apdu, i);
      if |apdu| > SPACE {
        chunk := chunk + apdu[..SPACE];
        apdu := apdu[SPACE..];
      } else {
        chunk := chunk + apdu;
        apdu := [];
      }
      packets := packets + [chunk];
      i := i + 1;
    }
    return Sent(packets);
  }

  /** What a command puts on the wire: its length in two bytes, then class, opcode, parameters, data length and data. */
  lemma {:induction false} CommandBytes(opcode: byte, p1: byte, p2: byte, data: seq<byte>)
    requires 5 + |data| <= 65535
    ensures var b := Apdu(Body(opcode, p1, p2, data));
      |b| == 7 + |data| && 256 * (b[0] as int) + b[1] == 5 + |data|
      && b[2] == 0xe0 && b[3] == opcode && b[4] == p1 && b[5] == p2 && b[6] == |data| % 256 && b[7..] == data
  {
  }

  /** What the packets carry behind their headers. */
  ghost function Carried(packets: seq<seq<byte>>): seq<byte>
    requires forall k :: 0 <= k < |packets| ==> |packets[k]| >= 5
  {
    if packets == [] then [] else packets[0][5..] + Carried(packets[1..])
  }

  /** Every packet holds 64 bytes, the last at most that many, and starts with the channel, the tag and its number. */
  lemma {:induction false} PacketHeaders(bytes: seq<byte>, i: nat, k: nat)
    requires k < |Packets(bytes, i)|
    ensures var w := Packets(bytes, i)[k];
      && 5 < |w| <= 64 && (k + 1 < |Packets(bytes, i)| ==> |w| == 64)
      && w[..5] == [0x01, 0x01, 0x05, (i + k) / 256 % 256, (i + k) % 256]
    decreases |bytes|
  {
    var n := Take(bytes);
    assert (Header(i) + bytes[..n])[..5] == Header(i);
    if k > 0 {
      PacketHeaders(bytes[n..], i + 1, k - 1);
    }
  }

  /** Together the packets carry exactly the bytes. */
  lemma {:induction false} PacketsCarry(bytes: seq<byte>, i: nat)
    ensures forall k :: 0 <= k < |Packets(bytes, i)| ==> |Packets(bytes, i)[k]| >= 5
    ensures Carried(Packets(bytes, i)) == bytes
    decreases |bytes|
  {
    if bytes != [] {
      var n, written := Take(bytes), Packets(bytes, i);
      PacketsCarry(bytes[n..], i + 1);
      assert written[0][5..] == bytes[..n] && written[1..] == Packets(bytes[n..], i + 1);
      assert bytes[..n] + bytes[n..] == bytes;
    }
  }

  // ----- receiving

  datatype Received = Reply(data: seq<byte>) | InvalidHeader | ReadError | SliceOutOfRange

  type Packet = p: seq<byte> | |p| == PACKET witness seq(PACKET, _ => 0)

  /** Drops the two status bytes; a shorter reply makes the slice bounds negative. */
  function Finish(reply: seq<byte>): Received {
    if |reply| < 2 then SliceOutOfRange else Reply(reply[..|reply| - 2])
  }

  /** The reader's state: what has arrived and the announced length. */
  function Receive(input: seq<Packet>, reply: seq<byte>, capacity: nat): Received
    requires |reply| <= capacity
    decreases |input|
  {
    if input == [] then ReadError
    else
      var p := input[0];
      if p[..3] != [0x01, 0x01, 0x05] then InvalidHeader
      else
        var first := p[3] == 0 && p[4] == 0;
        var got := if first then [] else reply;
        var total := if first then 256 * (p[5] as int) + p[6] else capacity;
        var payload := if first then p[7..] else p[5..];
        var left := total - |got|;
        if left <= |payload| then Finish(got + payload[..left])
        else Receive(input[1..], got + payload, total)
  }

  method ReadReply(input: seq<Packet>) returns (r: Received)
    ensures r == Receive(input, [], 0)
  {
    var reply: seq<byte> := [];
    var capacity := 0;
    var next := 0;
    while true
      invariant next <= |input| && |reply| <= capacity
      invariant Receive(input, [], 0) == Receive(input[next..], reply, capacity)
      decreases |input| - next
    {
      if next == |input| {
        return ReadError;
      }
      var chunk := input[next];
      assert input[next..][1..] == input[next + 1..];
      next := next + 1;
      if chunk[0] != 0x01 || chunk[1] != 0x01 || chunk[2] != 0x05 {
        return InvalidHeader;
      }
      assert chunk[..3] == [0x01, 0x01, 0x05];
      var payload: seq<byte>;
      if chunk[3] == 0x00 && chunk[4] == 0x00 {
        reply := [];
        capacity := 256 * (chunk[5] as int) + chunk[6];
        payload := chunk[7..];
      } else {
        payload := chunk[5..];
      }
      var left := capacity - |reply|;
      if left <= |payload| {
        reply := reply + payload[..left];
        break;
      }
      reply := reply + payload;
    }
    return if |reply| < 2 then SliceOutOfRange else Reply(reply[..|reply| - 2]);
  }

  // ----- the device echoing a command back

  /** Each written packet, filled up to 64 bytes with anything. */
  ghost predicate FilledUp(written: seq<seq<byte>>, read: seq<Packet>) {
    |written| == |read| && forall k :: 0 <= k < |read| ==> written[k] <= read[k]
  }

  lemma {:induction false} HeaderOfPacket(p: Packet, i: nat, bytes: seq<byte>)
    requires |bytes| <= SPACE && Header(i) + bytes <= p
    ensures p[..3] == [0x01, 0x01, 0x05] && p[3] == i / 256 % 256 && p[4] == i % 256
    ensures p[5..5 + |bytes|] == bytes
  {
    var w := Header(i) + bytes;
    assert forall k :: 0 <= k < |w| ==> p[k] == w[k];
  }

  /** A packet with a nonzero index continues the reply. */
  lemma {:induction false} ReceiveContinuation(read: seq<Packet>, i: nat, bytes: seq<byte>, reply: seq<byte>,
        capacity: nat)
    requires read != [] && 1 <= i < 65536 && |bytes| <= SPACE && Header(i) + bytes <= read[0]
    requires |reply| + |bytes| <= capacity
    ensures capacity == |reply| + |bytes| ==> Receive(read, reply, capacity) == Finish(reply + bytes)
    ensures capacity > |reply| + |bytes| && |bytes| == SPACE ==>
      Receive(read, reply, capacity) == Receive(read[1..], reply + bytes, capacity)
  {
    var p := read[0];
    HeaderOfPacket(p, i, bytes);
    assert p[5..][..|bytes|] == bytes;
    assert |bytes| == SPACE ==> p[5..] == bytes;
  }

  /** Continuation packets never carry index zero, so nothing restarts the reply. */
  lemma {:induction false} ReceiveRest(bytes: seq<byte>, i: nat, read: seq<Packet>, reply: seq<byte>, capacity: nat)
    requires bytes != [] && capacity == |reply| + |bytes|
    requires 1 <= i && i + |bytes| / SPACE < 65536
    requires FilledUp(Packets(bytes, i), read)
    ensures Receive(read, reply, capacity) == Finish(reply + bytes)
    decreases |bytes|
  {
    var n, written := Take(bytes), Packets(bytes, i);
    assert written[0] == Header(i) + bytes[..n];
    ReceiveContinuation(read, i, bytes[..n], reply, capacity);
    if |bytes| <= SPACE {
      assert bytes[..n] == bytes;
    } else {
      var rest := bytes[n..];
      assert written[1..] == Packets(rest, i + 1);
      ReceiveRest(rest, i + 1, read[1..], reply + bytes[..n], capacity);
      assert reply + bytes[..n] + rest == reply + bytes;
    }
  }

  /** A reply announced to fit one packet is that packet's payload without the status; too short for a status, slicing
      panics. */
  lemma {:induction false} OnePacketReply(p: Packet, rest: seq<Packet>)
    requires p[0] == 0x01 && p[1] == 0x01 && p[2] == 0x05 && p[3] == 0x00 && p[4] == 0x00
    requires 256 * (p[5] as int) + p[6] <= 57
    ensures var n := 256 * (p[5] as int) + p[6];
      Receive([p] + rest, [], 0) == if n < 2 then SliceOutOfRange else Reply(p[7..5 + n])
  {
    var n := 256 * (p[5] as int) + p[6];
    assert p[..3] == [0x01, 0x01, 0x05];
    assert [] + p[7..][..n] == p[7..7 + n];
    assert n >= 2 ==> p[7..7 + n][..n - 2] == p[7..5 + n];
  }

  /** The first packet of an echo announces its length and carries its start. */
  lemma {:induction false} FirstOfEcho(body: seq<byte>, p: Packet)
    requires 2 <= |body| <= 65535 && Header(0) + Apdu(body)[..Take(Apdu(body))] <= p
    ensures p[..5] == [0x01, 0x01, 0x05, 0x00, 0x00] && 256 * (p[5] as int) + p[6] == |body|
    ensures p[7..5 + Take(Apdu(body))] == body[..Take(Apdu(body)) - 2]
  {
    var bytes := Apdu(body);
    var n := Take(bytes);
    HeaderOfPacket(p, 0, bytes[..n]);
    assert p[..5] == p[..3] + [p[3], p[4]];
    assert p[5] == p[5..5 + n][0] == bytes[0] && p[6] == p[5..5 + n][1] == bytes[1];
    assert p[7..5 + n] == p[5..5 + n][2..] == bytes[..n][2..] == body[..n - 2];
  }

  /** An echo of several packets goes on behind the first. */
  lemma {:induction false} AfterFirst(body: seq<byte>, input: seq<Packet>)
    requires 57 < |body| <= 65535 && input != [] && Header(0) + Apdu(body)[..SPACE] <= input[0]
    ensures Receive(input, [], 0) == Receive(input[1..], body[..57], |body|)
  {
    hide Header;
    FirstOfEcho(body, input[0]);
    var p := input[0];
    assert p[0] == p[..5][0] && p[1] == p[..5][1] && p[2] == p[..5][2] && p[3] == p[..5][3] && p[4] == p[..5][4];
    assert p[..3] == [0x01, 0x01, 0x05];
    assert p[7..] == p[7..5 + SPACE] == body[..57] && [] + body[..57] == body[..57];
  }

  /** Reading back the packets of a command gives its body without the last two bytes, whatever the padding. */
  lemma {:induction false} EchoGivesBody(body: seq<byte>, read: seq<Packet>)
    requires 2 <= |body| <= 65535
    requires FilledUp(Packets(Apdu(body), 0), read)
    ensures Receive(read, [], 0) == Reply(body[..|body| - 2])
  {
    hide Header, Receive;
    var bytes := Apdu(body);
    var n, written := Take(bytes), Packets(bytes, 0);
    assert written[0] == Header(0) + bytes[..n] && written[1..] == Packets(bytes[n..], 1);
    if |body| <= 57 {
      var p := read[0];
      FirstOfEcho(body, p);
      assert p[0] == p[..5][0] && p[1] == p[..5][1] && p[2] == p[..5][2] && p[3] == p[..5][3] && p[4] == p[..5][4];
      OnePacketReply(p, read[1..]);
      assert [p] + read[1..] == read && p[7..5 + |body|] == p[7..7 + |body|][..|body| - 2];
    } else {
      AfterFirst(body, read);
      ReceiveRest(bytes[n..], 1, read[1..], body[..57], |body|);
      assert body[..57] + bytes[n..] == body;
    }
  }

  /** The same, for every command that `Send` accepts. */
  lemma {:induction false} EchoGivesCommand(opcode: byte, p1: byte, p2: byte, data: seq<byte>, read: seq<Packet>)
    requires 5 + |data| <= 65535
    requires FilledUp(Packets(Apdu(Body(opcode, p1, p2, data)), 0), read)
    ensures Receive(read, [], 0) == Reply(Body(opcode, p1, p2, data)[..3 + |data|])
  {
    EchoGivesBody(Body(opcode, p1, p2, data), read);
  }

  /** Whole packets of an echo leave the reader with what they carry. */
  lemma {:induction false} ReceivePrefix(bytes: seq<byte>, i: nat, read: seq<Packet>, reply: seq<byte>, capacity: nat,
        k: nat, rest: seq<Packet>)
    requires capacity == |reply| + |bytes| && 1 <= i && i + |bytes| / SPACE < 65536
    requires FilledUp(Packets(bytes, i), read) && k < |read|
    ensures SPACE * k < |bytes|
    ensures Receive(read[..k] + rest, reply, capacity) == Receive(rest, reply + bytes[..SPACE * k], capacity)
    decreases |bytes|
  {
    hide Header;
    var n, written := Take(bytes), Packets(bytes, i);
    if k == 0 {
      assert [] + rest == rest && reply + [] == reply;
    } else {
      var input := read[..k] + rest;
      assert written[0] == Header(i) + bytes[..n] && written[1..] == Packets(bytes[n..], i + 1);
      assert input[0] == read[0] && input[1..] == read[1..][..k - 1] + rest;
      ReceivePrefix(bytes[n..], i + 1, read[1..], reply + bytes[..n], capacity, k - 1, rest);
      ReceiveContinuation(input, i, bytes[..n], reply, capacity);
      assert bytes[..n] + bytes[n..][..SPACE * (k - 1)] == bytes[..SPACE * k];
      assert reply + bytes[..n] + bytes[n..][..SPACE * (k - 1)] == reply + bytes[..SPACE * k];
    }
  }

  /** An echo that breaks off is a read error, and one that goes on with a foreign packet is an invalid header. */
  lemma {:induction false} BrokenEcho(body: seq<byte>, read: seq<Packet>, k: nat, foreign: Packet, more: seq<Packet>)
    requires 2 <= |body| <= 65535 && FilledUp(Packets(Apdu(body), 0), read) && k < |read|
    requires foreign[0] != 0x01 || foreign[1] != 0x01 || foreign[2] != 0x05
    ensures Receive(read[..k], [], 0) == ReadError
    ensures Receive(read[..k] + [foreign] + more, [], 0) == InvalidHeader
  {
    assert read[..k] + [] == read[..k] && read[..k] + [foreign] + more == read[..k] + ([foreign] + more);
    EchoBegun(body, read, k, []);
    EchoBegun(body, read, k, [foreign] + more);
  }

  lemma {:induction false} NothingReceived(rest: seq<Packet>, reply: seq<byte>, capacity: nat)
    requires |reply| <= capacity
    ensures rest == [] ==> Receive(rest, reply, capacity) == ReadError
    ensures rest != [] && (rest[0][0] != 0x01 || rest[0][1] != 0x01 || rest[0][2] != 0x05) ==>
      Receive(rest, reply, capacity) == InvalidHeader
  {
  }

  /** The start of an echo decides nothing unless it is all of it. */
  lemma {:induction false} EchoBegun(body: seq<byte>, read: seq<Packet>, k: nat, rest: seq<Packet>)
    requires 2 <= |body| <= 65535 && FilledUp(Packets(Apdu(body), 0), read) && k < |read|
    ensures rest == [] ==> Receive(read[..k] + rest, [], 0) == ReadError
    ensures rest != [] && (rest[0][0] != 0x01 || rest[0][1] != 0x01 || rest[0][2] != 0x05) ==>
      Receive(read[..k] + rest, [], 0) == InvalidHeader
  {
    hide Header;
    var bytes := Apdu(body);
    var n, written := Take(bytes), Packets(bytes, 0);
    assert written[0] == Header(0) + bytes[..n] && written[1..] == Packets(bytes[n..], 1);
    if k == 0 {
      assert [] + rest == rest;
    } else {
      hide Receive;
      var input := read[..k] + rest;
      assert input[0] == read[0] && input[1..] == read[1..][..k - 1] + rest;
      AfterFirst(body, input);
      ReceivePrefix(bytes[n..], 1, read[1..], body[..57], |body|, k - 1, rest);
      NothingReceived(rest, body[..57] + bytes[n..][..SPACE * (k - 1)], |body|);
    }
  }

  /** Sequence numbers run up from the first one without wrapping, for every command length allowed. */
  lemma {:induction false} PacketIndices(bytes: seq<byte>, i: nat, k: nat)
    requires k < |Packets(bytes, i)| && i + |Packets(bytes, i)| <= 65536
    ensures Header(i + k) <= Packets(bytes, i)[k]
    ensures i + k > 0 ==> Header(i + k)[3..] != [0, 0]
    decreases |bytes|
  {
    if k > 0 {
      PacketIndices(bytes[Take(bytes)..], i + 1, k - 1);
    }
    assert Header(i + k)[3..] == Be16(i + k);
  }

  lemma {:induction false} PacketCount(bytes: seq<byte>, i: nat)
    ensures |Packets(bytes, i)| == (|bytes| + SPACE - 1) / SPACE
    decreases |bytes|
  {
    if bytes != [] {
      PacketCount(bytes[Take(bytes)..], i + 1);
    }
  }

  // ----- sending a payload in chunks

  const INIT: byte := 0x00
  const CONTINUE: byte := 0x80

  datatype Command = Command(p1: byte, data: seq<byte>)

  ghost function Datas(commands: seq<Command>): seq<seq<byte>> {
    seq(|commands|, i requires 0 <= i < |commands| => commands[i].data)
  }

  /** Sends the payload in chunks; only the first command is marked as initial. */
  method SendInChunks(payload: seq<byte>, size: nat) returns (commands: seq<Command>)
    requires size > 0
    ensures Datas(commands) == Split(payload, size)
    ensures forall k :: 0 <= k < |commands| ==> commands[k].p1 == if k == 0 then 0x00 else 0x80
  {
    hide Split;
    SplitNothing<byte>(size);
    commands := [];
    var rest, chunk, op := payload, size, INIT;
    while |rest| > 0
      invariant Datas(commands) + Split(rest, size) == Split(payload, size)
      invariant |rest| > 0 ==> chunk == size
      invariant op == if commands == [] then INIT else CONTINUE
      invariant forall k :: 0 <= k < |commands| ==> commands[k].p1 == if k == 0 then INIT else CONTINUE
      decreases |rest|
    {
      if chunk > |rest| {
        chunk := |rest|;
      }
      ghost var before := Datas(commands);
      SplitStep(rest, size);
      commands := commands + [Command(op, rest[..chunk])];
      assert Datas(commands) == before + [rest[..chunk]];
      rest := rest[chunk..];
      op := CONTINUE;
    }
  }

  // ----- chunk-size search

  /** `chunk` is the largest size up to 255 whose last piece is long enough; 0 stands for the division by zero. */
  ghost predicate IsChunkSize(n: nat, chunk: nat) {
    && chunk <= 255
    && (chunk > 0 ==> n % chunk > EIP155_SIZE)
    && forall c: nat :: chunk < c <= 255 ==> n % c <= EIP155_SIZE
  }

  method ChunkSize(n: nat) returns (chunk: nat)
    ensures IsChunkSize(n, chunk)
  {
    chunk := 255;
    while chunk > 0 && n % chunk <= EIP155_SIZE
      invariant chunk <= 255
      invariant forall c: nat :: chunk < c <= 255 ==> n % c <= EIP155_SIZE
    {
      chunk := chunk - 1;
    }
  }

  /** With the searched size, every piece fits the one-byte data length and every piece,
      the last one included, is longer than the three bytes the device mistakes for a chain id. */
  lemma {:induction false} PiecesAreLongEnough(payload: seq<byte>, size: nat, k: nat)
    requires IsChunkSize(|payload|, size) && size > 0
    requires k < |Split(payload, size)|
    ensures Joined(Split(payload, size)) == payload
    ensures 3 < |Split(payload, size)[k]| <= 255
  {
    SplitJoins(payload, size);
    SplitSizes(payload, size, k);
    LastSizeIsRemainder(|payload|, size);
  }

  /** The full 255 bytes are used exactly when they leave more than three over. */
  lemma {:induction false} FullChunksWhen(n: nat, chunk: nat)
    requires IsChunkSize(n, chunk)
    ensures chunk == 255 <==> n % 255 > 3
  {
    if chunk < 255 {
      assert n % 255 <= EIP155_SIZE;
    }
  }

  /** At this length the search goes below 251, so the bound below is sharp. */
  lemma {:induction false} ChunkSizeBoundIsSharp(chunk: nat)
    requires IsChunkSize(8096760, chunk)
    ensures chunk == 250
  {
    var n := 8096760;
    assert n % 255 == 0 && n % 254 == 2 && n % 253 == 1 && n % 252 == 0 && n % 251 == 2 && n % 250 == 10;
  }

  /** For every payload of 4 to 8096759 bytes the search stops within five steps. */
  lemma {:induction false} ChunkSizeBounds(n: nat, chunk: nat)
    requires 4 <= n <= 8096759 && IsChunkSize(n, chunk)
    ensures 251 <= chunk <= 255
  {
    if chunk < 251 {
      FiveMisses(n);
    }
  }

  /** Missing 255 and 254 pins the payload to `64770 a + 255 s - 254 r` with small remainders `r` and `s`. */
  lemma {:induction false} TwoMisses(n: nat) returns (a: int, s: int, r: int)
    requires n <= 8096759 && n % 255 <= 3 && n % 254 <= 3
    ensures n == 64770 * a + 255 * s - 254 * r && 0 <= s <= 3 && 0 <= r <= 3 && 0 <= a <= 125
  {
    var q: int := n / 255;
    r := n % 255;
    a, s := (q + r) / 254, (q + r) % 254;
    assert n == 254 * (q + a) + s;
    assert n % 254 == s;
  }

  lemma {:induction false} Mod253(n: nat, k: int, t: int)
    requires n == 253 * k + t && -253 <= t < 506 && n % 253 <= 3
    ensures 0 <= t <= 3 || 253 <= t <= 256 || -253 <= t <= -250
  {
  }

  lemma {:induction false} Mod252(n: nat, k: int, t: int)
    requires n == 252 * k + t && -252 <= t < 252 && n % 252 <= 3
    ensures 0 <= t <= 3 || -252 <= t <= -249
  {
  }

  lemma {:induction false} Mod251(n: nat, k: int, t: int)
    requires n == 251 * k + t && -251 <= t < 251 && n % 251 <= 3
    ensures 0 <= t <= 3 || -251 <= t <= -248
  {
  }

  lemma {:induction false} FiveMisses(n: nat)
    requires 4 <= n <= 8096759
    ensures n % 255 > 3 || n % 254 > 3 || n % 253 > 3 || n % 252 > 3 || n % 251 > 3
  {
    if n % 255 <= 3 && n % 254 <= 3 && n % 253 <= 3 && n % 252 <= 3 && n % 251 <= 3 {
      var a, s, r := TwoMisses(n);
      Mod253(n, 256 * a + s - r, 2 * a + 2 * s - r);
      if a <= 3 {
        Mod252(n, 257 * a + s - r, 6 * a + 3 * s - 2 * r);
        Mod251(n, 258 * a + s - r, 12 * a + 4 * s - 3 * r);
      } else {
        assert 124 <= a <= 125;
        Mod252(n, 257 * a + s - r + 3, 6 * a + 3 * s - 2 * r - 756);
      }
    }
  }
}
