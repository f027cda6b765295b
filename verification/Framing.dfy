/** The length-prefixed messages of protocol.c over an unencrypted byte stream: `send_message`,
    `receive_message` and `validate_header`.

    The header is laid out as a 64-bit compiler lays out `message_header_t`: forty bytes, with one unused
    byte after the type and four before the timestamp, whose contents the sender leaves to chance. */
module Framing {
  import opened Wrappers
  import opened Bytes
  import opened Crc32

  const MAX_PACKET_SIZE: nat := 65536
  const HEADER_SIZE: nat := 40
  const MAGIC: seq<Byte> := [0x43, 0x52, 0x59, 0x50, 0x54, 0x43, 0x41, 0x54]
  const MSG_DISCONNECT: Byte := 0x40
  const MSG_ERROR: Byte := 0xFF

  datatype ConnState = Disconnected | Connecting | Connected | Authenticating | Ready | Closing | Failed

  datatype Code = Success | State | Network | Malformed | Corrupt | Size | Buffer | Closed | Peer

  datatype Message = Message(kind: Byte, payload: seq<Byte>)

  /** What a receiver's caller sees: the return code, and the message if the output parameters were
      written. */
  datatype Reply = Reply(code: Code, message: Option<Message>)

  // ---------- the header ----------

  datatype Header = Header(magic: seq<Byte>, major: Byte, minor: Byte, kind: Byte, length: nat, checksum: nat)

  /** What chance and the clock put into a header: the time, and whatever the unused bytes hold. */
  datatype Stamp = Stamp(now: nat, gap: Byte, gap0: Byte, gap1: Byte, gap2: Byte, gap3: Byte)

  /** What the header carries for a payload. The framing is stated for any 32-bit checksum; the classes
      below run it with the CRC-32. */
  type Checksum = seq<Byte> -> nat

  function Crc32Value(payload: seq<Byte>): nat {
    Crc(Patterns(payload)) as int
  }

  function HeaderBytes(kind: Byte, length: nat, checksum: nat, sequence: nat, stamp: Stamp): (bytes: seq<Byte>)
    ensures |bytes| == HEADER_SIZE
  {
    Front(kind, stamp.gap, length, checksum) + Back(stamp, sequence)
  }

  function Front(kind: Byte, gap: Byte, length: nat, checksum: nat): (bytes: seq<Byte>)
    ensures |bytes| == 20
  {
    MAGIC + [1, 0, kind, gap] + BigEndian(length, 4) + BigEndian(checksum, 4)
  }

  function Back(stamp: Stamp, sequence: nat): (bytes: seq<Byte>)
    ensures |bytes| == 20
  {
    [stamp.gap0, stamp.gap1, stamp.gap2, stamp.gap3] + BigEndian(stamp.now, 8) + BigEndian(sequence, 8)
  }

  function ParseHeader(bytes: seq<Byte>): Header
    requires |bytes| == HEADER_SIZE
  {
    Header(bytes[..8], bytes[8], bytes[9], bytes[10], Value(bytes[12..16]), Value(bytes[16..20]))
  }

  /** `validate_header`. Its third test, that the type is at most 0xFF, holds of every byte. */
  predicate HeaderValid(h: Header) {
    h.magic == MAGIC && h.major == 1 && h.kind <= MSG_ERROR
  }

  function Wire(sum: Checksum, m: Message, sequence: nat, stamp: Stamp): (bytes: seq<Byte>)
    ensures |bytes| == HEADER_SIZE + |m.payload|
  {
    HeaderBytes(m.kind, |m.payload|, sum(m.payload), sequence, stamp) + m.payload
  }

  /** How a message is put on the wire, given its sequence number. */
  type Encoding = (Message, nat, Stamp) -> seq<Byte>

  function Encode(sum: Checksum): Encoding {
    (m: Message, sequence: nat, stamp: Stamp) => Wire(sum, m, sequence, stamp)
  }

  // ---------- sending ----------

  /** The sending end: connection state, the process-wide sequence counter, and everything handed to the
      network so far. */
  datatype Outbox = Outbox(state: ConnState, sequence: nat, sent: seq<Byte>)

  /** How the writing of a packet goes: all of it, or, before its last byte, an error or a closed
      connection. */
  datatype Fate = Goes | FailsAfter(n: nat) | ClosesAfter(n: nat)

  function Carried(fate: Fate, packet: seq<Byte>): (bytes: seq<Byte>)
    ensures bytes <= packet && (!fate.Goes? && packet != [] ==> |bytes| < |packet|)
  {
    if fate.Goes? || packet == [] then packet
    else if fate.n < |packet| then packet[..fate.n] else packet[..|packet| - 1]
  }

  function StateAfter(fate: Fate, state: ConnState): ConnState {
    match fate
    case Goes => state
    case FailsAfter(_) => Failed
    case ClosesAfter(_) => Closing
  }

  function Send(encode: Encoding, out: Outbox, m: Message, stamp: Stamp, fate: Fate): (Code, Outbox)
  {
    if out.state != Ready then (State, out)
    else if |m.payload| > MAX_PACKET_SIZE then (Size, out)
    else (if fate.Goes? then Success else Network, WrittenOut(out, encode(m, out.sequence, stamp), fate))
  }

  function WrittenOut(out: Outbox, packet: seq<Byte>, fate: Fate): Outbox {
    Outbox(StateAfter(fate, out.state), (out.sequence + 1) % UINT64, out.sent + Carried(fate, packet))
  }

  method PayloadChecksum(payload: seq<Byte>) returns (sum: nat)
    ensures sum == Crc32Value(payload)
  {
    var checksum := CalculateChecksum(Patterns(payload));
    sum := checksum as int;
  }

  method BuildPacket(m: Message, sequence: nat, stamp: Stamp) returns (packet: seq<Byte>)
    ensures packet == Encode(Crc32Value)(m, sequence, stamp)
  {
    var checksum := PayloadChecksum(m.payload);
    packet := HeaderBytes(m.kind, |m.payload|, checksum, sequence, stamp) + m.payload;
  }

  class Sender {
    var state: ConnState
    var sequence: nat
    var sent: seq<Byte>

    function View(): Outbox
      reads this
    {
      Outbox(state, sequence, sent)
    }

    /** The counter moves, and then comes `send_data`. */
    method SendNumbered(packet: seq<Byte>, fate: Fate) returns (ok: bool)
      modifies this
      ensures ok == fate.Goes? && View() == WrittenOut(old(View()), packet, fate)
    {
      sequence := (sequence + 1) % UINT64;
      sent := sent + Carried(fate, packet);
      match fate {
        case Goes => return true;
        case FailsAfter(_) => state := Failed;
        case ClosesAfter(_) => state := Closing;
      }
      return false;
    }

    /** `send_message`. */
    method SendMessage(m: Message, stamp: Stamp, fate: Fate) returns (code: Code)
      modifies this
      ensures (code, View()) == Send(Encode(Crc32Value), old(View()), m, stamp, fate)
    {
      if state != Ready {
        return State;
      }
      if |m.payload| > MAX_PACKET_SIZE {
        return Size;
      }
      var packet := BuildPacket(m, sequence, stamp);
      var ok := SendNumbered(packet, fate);
      return if ok then Success else Network;
    }
  }

  // ---------- receiving ----------

  /** The receiving end: connection state, the bytes waiting in the socket, and whether more may come. */
  datatype Link = Link(state: ConnState, incoming: seq<Byte>, open: bool)

  /** What the kernel does with a read: it hands out at most so many bytes, or is interrupted, or fails. */
  datatype Grant = Upto(n: nat) | Interrupted | Refused

  datatype NetworkError = NotReady | BadParameter | Io | ClosedByPeer

  datatype ReadResult = Got(bytes: seq<Byte>) | Nothing | Failure(error: NetworkError)

  /** `receive_data`: at most n bytes, as many as the kernel grants at this moment. */
  function Read(link: Link, n: nat, grant: Grant): (ReadResult, Link) {
    if link.state != Ready then (Failure(NotReady), link)
    else if n == 0 then (Failure(BadParameter), link)
    else
      match grant
      case Interrupted => (Nothing, link)
      case Refused => (Failure(Io), link.(state := Failed))
      case Upto(limit) => Take(link, if n <= limit then n else limit)
  }

  function Take(link: Link, n: nat): (ReadResult, Link) {
    var k := if n <= |link.incoming| then n else |link.incoming|;
    if k > 0 then (Got(link.incoming[..k]), link.(incoming := link.incoming[k..]))
    else if |link.incoming| == 0 && !link.open then (Failure(ClosedByPeer), link.(state := Closing))
    else (Nothing, link)
  }

  /** `receive_message` into a buffer of the given capacity; the two grants are what the kernel does with
      the reads of the header and of the payload. */
  function Receive(sum: Checksum, link: Link, capacity: nat, headerGrant: Grant, payloadGrant: Grant): (Reply, Link) {
    if link.state != Ready then (Reply(State, None), link) else
    var (got, link1) := Read(link, HEADER_SIZE, headerGrant);
    match got
    case Nothing => (Reply(Closed, None), link1)
    case Failure(_) => (Reply(Network, None), link1)
    case Got(bytes) =>
      if |bytes| != HEADER_SIZE then (Reply(Malformed, None), link1) else
      var h := ParseHeader(bytes);
      if !HeaderValid(h) then (Reply(Malformed, None), link1)
      else if h.length > MAX_PACKET_SIZE then (Reply(Size, None), link1)
      else if h.length > capacity then (Reply(Buffer, None), link1)
      else if h.length == 0 then Deliver(Message(h.kind, []), link1)
      else
        var (body, link2) := Read(link1, h.length, payloadGrant);
        if !body.Got? || |body.bytes| != h.length then (Reply(Malformed, None), link2)
        else if sum(body.bytes) != h.checksum then (Reply(Corrupt, None), link2)
        else Deliver(Message(h.kind, body.bytes), link2)
  }

  function Deliver(m: Message, link: Link): (Reply, Link) {
    if m.kind == MSG_DISCONNECT then (Reply(Closed, Some(m)), link.(state := Closing))
    else if m.kind == MSG_ERROR then (Reply(Peer, Some(m)), link)
    else (Reply(Success, Some(m)), link)
  }

  class Receiver {
    var state: ConnState
    var incoming: seq<Byte>
    var open: bool

    function View(): Link
      reads this
    {
      Link(state, incoming, open)
    }

    method ReceiveData(n: nat, grant: Grant) returns (got: ReadResult)
      modifies this
      ensures (got, View()) == Read(old(View()), n, grant)
    {
      if state != Ready {
        return Failure(NotReady);
      }
      if n == 0 {
        return Failure(BadParameter);
      }
      if grant.Refused? {
        state := Failed;
        return Failure(Io);
      }
      if grant.Interrupted? {
        return Nothing;
      }
      var k := if n <= grant.n then n else grant.n;
      if |incoming| < k {
        k := |incoming|;
      }
      if k > 0 {
        got := Got(incoming[..k]);
        incoming := incoming[k..];
      } else if |incoming| == 0 && !open {
        state := Closing;
        got := Failure(ClosedByPeer);
      } else {
        got := Nothing;
      }
    }

    /** `receive_message`. */
    method ReceiveMessage(capacity: nat, headerGrant: Grant, payloadGrant: Grant) returns (reply: Reply)
      modifies this
      ensures (reply, View()) == Receive(Crc32Value, old(View()), capacity, headerGrant, payloadGrant)
    {
      if state != Ready {
        return Reply(State, None);
      }
      var got := ReceiveData(HEADER_SIZE, headerGrant);
      if got.Nothing? {
        return Reply(Closed, None);
      }
      if got.Failure? {
        return Reply(Network, None);
      }
      if |got.bytes| != HEADER_SIZE {
        return Reply(Malformed, None);
      }
      var h := ParseHeader(got.bytes);
      if !HeaderValid(h) {
        return Reply(Malformed, None);
      }
      if h.length > MAX_PACKET_SIZE {
        return Reply(Size, None);
      }
      if h.length > capacity {
        return Reply(Buffer, None);
      }
      var payload: seq<Byte> := [];
      if h.length > 0 {
        var body := ReceiveData(h.length, payloadGrant);
        if !body.Got? || |body.bytes| != h.length {
          return Reply(Malformed, None);
        }
        payload := body.bytes;
        var calculated := PayloadChecksum(payload);
        if calculated != h.checksum {
          return Reply(Corrupt, None);
        }
      }
      if h.kind == MSG_DISCONNECT {
        state := Closing;
        return Reply(Closed, Some(Message(h.kind, payload)));
      }
      if h.kind == MSG_ERROR {
        return Reply(Peer, Some(Message(h.kind, payload)));
      }
      return Reply(Success, Some(Message(h.kind, payload)));
    }
  }
}
