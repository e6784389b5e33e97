/** Multicast packets on the wire (MulticastNetwork.cpp). */
module Frames {
  import opened Hashes
  import opened Endian
  import opened Elections

  const HEADER_SIZE: nat := 5
  const BODY_MAXSIZE: nat := 251
  const READ_BUFFER: nat := 256
  const NUM_COMMANDS: nat := 11

  /** At most this many argument bytes fit a packet the receiver can read. */
  const MAX_ARGS: nat := 250

  datatype Message = Message(sender: Address, command: byte, args: seq<byte>)

  /** The packet that send builds; no sender stands for 0.0.0.0. The size travels in one
      byte. */
  function Frame(sender: Option<Address>, command: byte, data: seq<byte>): (s: seq<byte>)
    requires |data| < 256
    ensures |s| == HEADER_SIZE + 1 + |data|
  {
    BigEndian32(if sender.Some? then sender.value else ANY_ADDRESS)
    + [(|data| + 1) % 256] + [command] + data
  }

  /** What the receiving socket delivers: the datagram cut at the read buffer. */
  function Delivered(frame: seq<byte>): seq<byte> {
    if |frame| <= READ_BUFFER then frame else frame[..READ_BUFFER]
  }

  /** on_read: the message to dispatch, or nothing for a packet that is dropped. */
  function Parse(buffer: seq<byte>, endpoint: Address): Option<Message> {
    if |buffer| < HEADER_SIZE + 1 then None
    else
      var source := FromBigEndian32(buffer[..4]);
      var bodyLength := buffer[4];
      if bodyLength < 1 || |buffer| != HEADER_SIZE + bodyLength then None
      else if buffer[HEADER_SIZE] >= NUM_COMMANDS then None
      else Some(Message(if source == 0 then endpoint else source, buffer[HEADER_SIZE], buffer[HEADER_SIZE + 1..]))
  }

  method Send(sender: Option<Address>, command: byte, data: seq<byte>) returns (packet: array<byte>)
    requires |data| < 256
    ensures fresh(packet) && packet[..] == Frame(sender, command, data)
  {
    packet := new byte[HEADER_SIZE + 1 + |data|](_ => 0);
    var b := BigEndian32(if sender.None? then ANY_ADDRESS else sender.value);
    for i := 0 to 4
      invariant packet.Length == HEADER_SIZE + 1 + |data|
      invariant forall j :: 0 <= j < i ==> packet[j] == b[j]
    {
      packet[i] := b[i];
    }
    packet[HEADER_SIZE - 1] := (|data| + 1) % 256;
    packet[HEADER_SIZE] := command;
    forall j | 0 <= j < |data| {
      packet[HEADER_SIZE + 1 + j] := data[j];
    }
  }

  method OnRead(buffer: seq<byte>, endpoint: Address) returns (message: Option<Message>)
    ensures message == Parse(buffer, endpoint)
  {
    if |buffer| < HEADER_SIZE + 1 {
      return None;
    }
    var sourceIp := FromBigEndian32(buffer[..4]);
    var senderAddress := if sourceIp == 0 then endpoint else sourceIp;
    var bodyLength := buffer[4];
    if bodyLength < 1 || |buffer| != HEADER_SIZE + bodyLength {
      return None;
    }
    var command := buffer[HEADER_SIZE];
    if command >= NUM_COMMANDS {
      return None;
    }
    return Some(Message(senderAddress, command, buffer[HEADER_SIZE + 1..]));
  }

  /** Where the parts of a packet are: sender, body size, command, arguments. */
  lemma FrameLayout(sender: Option<Address>, command: byte, data: seq<byte>)
    requires |data| < 256
    ensures var s := Frame(sender, command, data);
            && |s| == 6 + |data|
            && s[..4] == BigEndian32(if sender.Some? then sender.value else 0)
            && s[4] == (|data| + 1) % 256 && s[5] == command && s[6..] == data
  {
  }

  /** A known command arrives iff it has at most 250 argument bytes, and then with all of
      them and with its sender, or with the packet's own address when none was given. */
  lemma FrameRoundTrip(sender: Option<Address>, command: byte, data: seq<byte>, endpoint: Address)
    requires command < NUM_COMMANDS && |data| < 256
    ensures Parse(Delivered(Frame(sender, command, data)), endpoint) ==
            if |data| > MAX_ARGS then None
            else Some(Message(if sender.None? || sender.value == ANY_ADDRESS then endpoint else sender.value,
                              command, data))
  {
    var frame := Frame(sender, command, data);
    var ip: uint32 := if sender.Some? then sender.value else ANY_ADDRESS;
    BigEndian32RoundTrip(ip);
    assert frame[..4] == BigEndian32(ip) && frame[4] == (|data| + 1) % 256;
    assert frame[HEADER_SIZE] == command && frame[HEADER_SIZE + 1..] == data;
    if |data| <= MAX_ARGS {
      assert Delivered(frame) == frame;
    } else {
      assert Delivered(frame)[4] == frame[4] && |Delivered(frame)| == READ_BUFFER;
    }
  }

  /** An unknown command never arrives. */
  lemma UnknownIsDropped(sender: Option<Address>, command: byte, data: seq<byte>, endpoint: Address)
    requires command >= 11 && |data| < 256
    ensures Parse(Delivered(Frame(sender, command, data)), endpoint) == None
  {
    var frame := Frame(sender, command, data);
    assert Delivered(frame)[5] == command;
  }

  /** A packet that is dispatched at all is one that send could have built. */
  lemma ParsedIsFrame(buffer: seq<byte>, endpoint: Address)
    requires Parse(buffer, endpoint).Some? && FromBigEndian32(buffer[..4]) != 0
    ensures var m := Parse(buffer, endpoint).value;
            |m.args| < 256 && buffer == Frame(Some(m.sender), m.command, m.args)
  {
    var m := Parse(buffer, endpoint).value;
    BytesOfWord(buffer[..4]);
    assert buffer == buffer[..4] + [buffer[4]] + [buffer[5]] + buffer[6..];
  }

  lemma BytesOfWord(s: seq<byte>)
    requires |s| == 4
    ensures BigEndian32(FromBigEndian32(s)) == s
  {
    var a: nat, b: nat, c: nat, d: nat := s[0], s[1], s[2], s[3];
    var x: nat := FromBigEndian32(s);
    assert x == ((a * 256 + b) * 256 + c) * 256 + d;
    assert x / 0x100 == (a * 256 + b) * 256 + c;
    assert x / 0x1_0000 == a * 256 + b;
    assert x / 0x100_0000 == a;
    assert x % 256 == d && x / 0x100 % 256 == c && x / 0x1_0000 % 256 == b;
    assert s == [a, b, c, d];
  }
}
