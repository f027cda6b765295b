/** What the framing keeps: a stream of sent messages is read back as it was sent, and a payload damaged
    on the way is answered with CORRUPT. */
module FramingProofs {
  import opened Wrappers
  import opened Bytes
  import opened Crc32
  import opened CrcDetection
  import opened Framing

  // ---------- one message ----------

  ghost predicate FitsHeader(sum: Checksum) {
    forall p :: sum(p) < 0x1_0000_0000
  }

  lemma HeaderRoundTrip(kind: Byte, length: nat, checksum: nat, sequence: nat, stamp: Stamp)
    requires length < 0x1_0000_0000 && checksum < 0x1_0000_0000
    ensures ParseHeader(HeaderBytes(kind, length, checksum, sequence, stamp))
         == Header(MAGIC, 1, 0, kind, length, checksum)
  {
    FirstTwenty(MAGIC, [1, 0, kind, stamp.gap], BigEndian(length, 4), BigEndian(checksum, 4), Back(stamp, sequence));
    Widths();
    ValueOfBigEndian(length, 4);
    ValueOfBigEndian(checksum, 4);
  }

  lemma FirstTwenty(magic: seq<Byte>, four: seq<Byte>, length: seq<Byte>, checksum: seq<Byte>, back: seq<Byte>)
    requires |magic| == 8 && |four| == |length| == |checksum| == 4
    ensures var bytes := (magic + four + length + checksum) + back;
            && bytes[..8] == magic && bytes[8] == four[0] && bytes[9] == four[1] && bytes[10] == four[2]
            && bytes[12..16] == length && bytes[16..20] == checksum
  {}

  /** The rest of the header: the time and the sequence number. */
  lemma HeaderTail(kind: Byte, length: nat, checksum: nat, sequence: nat, stamp: Stamp)
    requires sequence < UINT64 && stamp.now < UINT64
    ensures var bytes := HeaderBytes(kind, length, checksum, sequence, stamp);
            Value(bytes[24..32]) == stamp.now && Value(bytes[32..40]) == sequence
  {
    LastSixteen(Front(kind, stamp.gap, length, checksum), [stamp.gap0, stamp.gap1, stamp.gap2, stamp.gap3],
                BigEndian(stamp.now, 8), BigEndian(sequence, 8));
    Widths();
    ValueOfBigEndian(stamp.now, 8);
    ValueOfBigEndian(sequence, 8);
  }

  lemma LastSixteen(front: seq<Byte>, gap: seq<Byte>, now: seq<Byte>, sequence: seq<Byte>)
    requires |front| == 20 && |gap| == 4 && |now| == 8 && |sequence| == 8
    ensures (front + (gap + now + sequence))[24..32] == now
    ensures (front + (gap + now + sequence))[32..40] == sequence
  {}

  /** The stream starts with the header of a sent message, whatever follows it. */
  ghost predicate HasHeaderOf(sum: Checksum, stream: seq<Byte>, m: Message) {
    && |stream| >= HEADER_SIZE
    && ParseHeader(stream[..HEADER_SIZE]) == Header(MAGIC, 1, 0, m.kind, |m.payload|, sum(m.payload))
  }

  lemma StreamHasHeader(sum: Checksum, stream: seq<Byte>, m: Message, sequence: nat, stamp: Stamp)
    requires FitsHeader(sum)
    requires |m.payload| <= MAX_PACKET_SIZE
    requires |stream| >= HEADER_SIZE
    requires stream[..HEADER_SIZE] == HeaderBytes(m.kind, |m.payload|, sum(m.payload), sequence, stamp)
    ensures HasHeaderOf(sum, stream, m)
  {
    HeaderRoundTrip(m.kind, |m.payload|, sum(m.payload), sequence, stamp);
  }

  lemma WireHasHeader(sum: Checksum, m: Message, sequence: nat, stamp: Stamp, rest: seq<Byte>)
    requires FitsHeader(sum)
    requires |m.payload| <= MAX_PACKET_SIZE
    ensures var stream := Wire(sum, m, sequence, stamp) + rest;
            && HasHeaderOf(sum, stream, m)
            && stream[HEADER_SIZE..] == m.payload + rest
  {
    PartsOfStream(HeaderBytes(m.kind, |m.payload|, sum(m.payload), sequence, stamp), m.payload, rest);
    StreamHasHeader(sum, Wire(sum, m, sequence, stamp) + rest, m, sequence, stamp);
  }

  lemma PartsOfStream(header: seq<Byte>, body: seq<Byte>, rest: seq<Byte>)
    requires |header| == HEADER_SIZE
    ensures ((header + body) + rest)[..HEADER_SIZE] == header
    ensures ((header + body) + rest)[HEADER_SIZE..] == body + rest
  {}

  /** Behind the header of a sent message, a payload of the announced length is accepted exactly when
      its checksum is the announced one. */
  lemma ReceiveAfterHeader(sum: Checksum, link: Link, capacity: nat, m: Message, body: seq<Byte>, rest: seq<Byte>)
    requires link.state == Ready
    requires HasHeaderOf(sum, link.incoming, m) && link.incoming[HEADER_SIZE..] == body + rest
    requires |body| == |m.payload| <= MAX_PACKET_SIZE && |m.payload| <= capacity
    ensures Receive(sum, link, capacity, Upto(HEADER_SIZE), Upto(MAX_PACKET_SIZE))
         == if sum(body) == sum(m.payload)
            then Deliver(Message(m.kind, body), link.(incoming := rest))
            else (Reply(Corrupt, None), link.(incoming := rest))
  {
    var link1 := link.(incoming := body + rest);
    assert Read(link, HEADER_SIZE, Upto(HEADER_SIZE)) == (Got(link.incoming[..HEADER_SIZE]), link1);
    if body == [] {
      assert m.payload == [] && body + rest == rest;
    } else {
      assert (body + rest)[..|body|] == body && (body + rest)[|body|..] == rest;
      assert Read(link1, |body|, Upto(MAX_PACKET_SIZE)) == (Got(body), link.(incoming := rest));
    }
  }

  predicate Allows(grant: Grant, n: nat) {
    grant.Upto? && grant.n >= n
  }

  lemma ReadWhole(link: Link, body: seq<Byte>, rest: seq<Byte>, grant: Grant)
    requires link.state == Ready && link.incoming == body + rest && body != []
    ensures Allows(grant, |body|) ==> Read(link, |body|, grant) == (Got(body), link.(incoming := rest))
    ensures !Allows(grant, |body|) ==>
              Read(link, |body|, grant).0.Got? ==> |Read(link, |body|, grant).0.bytes| != |body|
  {
    assert (body + rest)[..|body|] == body && (body + rest)[|body|..] == rest;
  }

  lemma ReceiveBehindHeader(sum: Checksum, link: Link, capacity: nat, m: Message, rest: seq<Byte>,
                            headerGrant: Grant, payloadGrant: Grant)
    requires link.state == Ready && |m.payload| <= MAX_PACKET_SIZE && Allows(headerGrant, HEADER_SIZE)
    requires HasHeaderOf(sum, link.incoming, m) && link.incoming[HEADER_SIZE..] == m.payload + rest
    ensures var whole := |m.payload| <= capacity && (m.payload == [] || Allows(payloadGrant, |m.payload|));
            var (reply, after) := Receive(sum, link, capacity, headerGrant, payloadGrant);
            if whole then (reply, after) == Deliver(m, link.(incoming := rest)) else reply.message == None
  {
    var link1 := link.(incoming := m.payload + rest);
    assert Read(link, HEADER_SIZE, headerGrant) == (Got(link.incoming[..HEADER_SIZE]), link1);
    if m.payload == [] {
      assert m.payload + rest == rest;
    } else {
      ReadWhole(link1, m.payload, rest, payloadGrant);
    }
  }

  /** Whatever the kernel does with the two reads and however large the buffer is, a message waiting on the
      stream is handed over exactly when the buffer holds it and both reads are granted whole; then it is
      the message that was sent, and the stream goes on right behind it. */
  lemma ReceiveWire(sum: Checksum, link: Link, capacity: nat, m: Message, sequence: nat, stamp: Stamp, rest: seq<Byte>,
                    headerGrant: Grant, payloadGrant: Grant)
    requires FitsHeader(sum)
    requires |m.payload| <= MAX_PACKET_SIZE
    requires link.state == Ready && link.incoming == Wire(sum, m, sequence, stamp) + rest
    ensures var (reply, after) := Receive(sum, link, capacity, headerGrant, payloadGrant);
            && (reply.message.Some? <==>
                  && |m.payload| <= capacity
                  && Allows(headerGrant, HEADER_SIZE)
                  && (m.payload == [] || Allows(payloadGrant, |m.payload|)))
            && (reply.message.Some? ==> (reply, after) == Deliver(m, link.(incoming := rest)))
  {
    WireHasHeader(sum, m, sequence, stamp, rest);
    if Allows(headerGrant, HEADER_SIZE) {
      ReceiveBehindHeader(sum, link, capacity, m, rest, headerGrant, payloadGrant);
    } else {
      NoHeaderNoMessage(sum, link, capacity, headerGrant, payloadGrant);
    }
  }

  lemma NoHeaderNoMessage(sum: Checksum, link: Link, capacity: nat, headerGrant: Grant, payloadGrant: Grant)
    requires !Allows(headerGrant, HEADER_SIZE)
    ensures Receive(sum, link, capacity, headerGrant, payloadGrant).0.message == None
  {
    assert !Read(link, HEADER_SIZE, headerGrant).0.Got?
        || |Read(link, HEADER_SIZE, headerGrant).0.bytes| < HEADER_SIZE;
  }

  // ---------- what a call answers ----------

  /** Where everything stands on the wire: magic, version 1.0, type, length and checksum, time and sequence
      number, the most significant byte first, and then the payload. */
  lemma WireLayout(sum: Checksum, m: Message, sequence: nat, stamp: Stamp)
    ensures var w := Wire(sum, m, sequence, stamp);
            && |w| == 40 + |m.payload|
            && w[..8] == [0x43, 0x52, 0x59, 0x50, 0x54, 0x43, 0x41, 0x54]
            && w[8] == 1 && w[9] == 0 && w[10] == m.kind
            && w[12..16] == BigEndian(|m.payload|, 4) && w[16..20] == BigEndian(sum(m.payload), 4)
            && w[24..32] == BigEndian(stamp.now, 8) && w[32..40] == BigEndian(sequence, 8)
            && w[40..] == m.payload
  {
    var length, checksum := BigEndian(|m.payload|, 4), BigEndian(sum(m.payload), 4);
    var gap := [stamp.gap0, stamp.gap1, stamp.gap2, stamp.gap3];
    var front, back := Front(m.kind, stamp.gap, |m.payload|, sum(m.payload)), Back(stamp, sequence);
    FirstTwenty(MAGIC, [1, 0, m.kind, stamp.gap], length, checksum, back);
    LastSixteen(front, gap, BigEndian(stamp.now, 8), BigEndian(sequence, 8));
    HeadOf(front + back, m.payload);
  }

  lemma HeadOf(header: seq<Byte>, payload: seq<Byte>)
    requires |header| == 40
    ensures (header + payload)[40..] == payload
    ensures forall i, j :: 0 <= i <= j <= 40 ==> (header + payload)[i..j] == header[i..j]
    ensures forall i :: 0 <= i < 40 ==> (header + payload)[i] == header[i]
  {}

  /** What `send_message` answers, and what it leaves. */
  lemma SendIs(encode: Encoding, out: Outbox, m: Message, stamp: Stamp, fate: Fate)
    ensures var (code, after) := Send(encode, out, m, stamp, fate);
            var packet, ready, fits := encode(m, out.sequence, stamp), out.state == Ready, |m.payload| <= 65536;
            && (code == State <==> !ready)
            && (code == Size <==> ready && !fits)
            && (code == Network <==> ready && fits && !fate.Goes?)
            && (code == Success <==> ready && fits && fate.Goes?)
            && (code == State || code == Size ==> after == out)
            && (code == Network || code == Success ==>
                  after.sequence == (out.sequence + 1) % 0x1_0000_0000_0000_0000)
            && (code == Success ==> after.state == Ready && after.sent == out.sent + packet)
            && (code == Network ==>
                  && after.state == (if fate.FailsAfter? then Failed else Closing)
                  && after.sent == out.sent + packet[..|after.sent| - |out.sent|]
                  && (packet != [] ==> |after.sent| - |out.sent| == if fate.n < |packet| then fate.n else |packet| - 1))
  {}

  /** What a plain read answers: nothing is taken but the bytes that are handed over. */
  lemma ReadIs(link: Link, n: nat, grant: Grant)
    ensures var (result, after) := Read(link, n, grant);
            var waiting := |link.incoming|;
            && (link.state != Ready ==> (result, after) == (Failure(NotReady), link))
            && (link.state == Ready && n == 0 ==> (result, after) == (Failure(BadParameter), link))
            && (link.state == Ready && n > 0 ==>
                  && (grant.Interrupted? ==> (result, after) == (Nothing, link))
                  && (grant.Refused? ==> (result, after) == (Failure(Io), Link(Failed, link.incoming, link.open)))
                  && (grant.Upto? && waiting == 0 && !link.open ==>
                        (result, after) == (Failure(ClosedByPeer), Link(Closing, [], false)))
                  && (grant.Upto? && (if waiting > 0 then grant.n == 0 else link.open) ==>
                        (result, after) == (Nothing, link))
                  && (grant.Upto? && grant.n > 0 && waiting > 0 ==>
                        && result.Got? && 0 < |result.bytes|
                        && |result.bytes| <= n && |result.bytes| <= grant.n && |result.bytes| <= waiting
                        && (|result.bytes| == n || |result.bytes| == grant.n || |result.bytes| == waiting)
                        && link.incoming == result.bytes + after.incoming
                        && after.state == Ready && after.open == link.open))
  {}

  /** A call that gets no whole header says why. */
  lemma ReceiveWithoutHeader(sum: Checksum, link: Link, capacity: nat, headerGrant: Grant, payloadGrant: Grant)
    requires !(headerGrant.Upto? && headerGrant.n >= 40 && |link.incoming| >= 40)
    ensures var reply := Receive(sum, link, capacity, headerGrant, payloadGrant).0;
            var waiting, ready := |link.incoming|, link.state == Ready;
            && reply.message == None
            && (reply.code == State <==> !ready)
            && (reply.code == Network <==>
                  ready && (headerGrant.Refused? || (headerGrant.Upto? && waiting == 0 && !link.open)))
            && (reply.code == Closed <==>
                  ready && (headerGrant.Interrupted?
                            || (headerGrant.Upto? && if waiting == 0 then link.open else headerGrant.n == 0)))
            && (reply.code == Malformed <==> ready && headerGrant.Upto? && headerGrant.n > 0 && waiting > 0)
  {}

  /** Forty bytes that do not start with the magic and version 1 are refused; so is a length above the limit,
      and one above what the buffer holds. Nothing but the forty bytes is taken. */
  lemma ForeignHeaderRefused(sum: Checksum, link: Link, capacity: nat, headerGrant: Grant, payloadGrant: Grant)
    requires link.state == Ready && |link.incoming| >= 40 && headerGrant.Upto? && headerGrant.n >= 40
    ensures var (reply, after) := Receive(sum, link, capacity, headerGrant, payloadGrant);
            var h, behind := link.incoming[..40], link.(incoming := link.incoming[40..]);
            var foreign := h[..8] != [0x43, 0x52, 0x59, 0x50, 0x54, 0x43, 0x41, 0x54] || h[8] != 1;
            var length := Value(h[12..16]);
            && (foreign ==> (reply, after) == (Reply(Malformed, None), behind))
            && (reply.code == Size <==> !foreign && length > 65536)
            && (reply.code == Buffer <==> !foreign && capacity < length <= 65536)
            && (reply.code == Size || reply.code == Buffer ==> reply.message == None && after == behind)
  {}

  /** What becomes of a message of that type: DISCONNECT closes the connection, an ERROR has its own code. */
  lemma KindsAnswered(m: Message, link: Link)
    ensures var (reply, after) := Deliver(m, link);
            && reply.message == Some(m)
            && reply.code == (if m.kind == 0x40 then Closed else if m.kind == 0xFF then Peer else Success)
            && after == (if m.kind == 0x40 then Link(Closing, link.incoming, link.open) else link)
  {}

  /** What is left to do behind a header of that type, length and checksum. */
  function Rest(sum: Checksum, behind: Link, kind: Byte, length: nat, checksum: nat, grant: Grant): (Reply, Link) {
    if length == 0 then Deliver(Message(kind, []), behind) else
    var (body, link2) := Read(behind, length, grant);
    if !body.Got? || |body.bytes| != length then (Reply(Malformed, None), link2)
    else if sum(body.bytes) != checksum then (Reply(Corrupt, None), link2)
    else Deliver(Message(kind, body.bytes), link2)
  }

  lemma GenuineHeader(sum: Checksum, link: Link, capacity: nat, headerGrant: Grant, payloadGrant: Grant)
    requires link.state == Ready && |link.incoming| >= 40 && headerGrant.Upto? && headerGrant.n >= 40
    requires link.incoming[..8] == [0x43, 0x52, 0x59, 0x50, 0x54, 0x43, 0x41, 0x54] && link.incoming[8] == 1
    requires Value(link.incoming[12..16]) <= 65536 && Value(link.incoming[12..16]) <= capacity
    ensures Receive(sum, link, capacity, headerGrant, payloadGrant)
         == Rest(sum, link.(incoming := link.incoming[40..]), link.incoming[10], Value(link.incoming[12..16]),
                 Value(link.incoming[16..20]), payloadGrant)
  {
    var h := link.incoming[..40];
    assert h[..8] == link.incoming[..8] && h[12..16] == link.incoming[12..16] && h[16..20] == link.incoming[16..20];
    assert ParseHeader(h).magic == MAGIC;
  }

  lemma PayloadRead(behind: Link, length: nat, grant: Grant)
    requires behind.state == Ready && length > 0
    ensures if grant.Upto? && grant.n >= length && |behind.incoming| >= length
            then Read(behind, length, grant)
              == (Got(behind.incoming[..length]), behind.(incoming := behind.incoming[length..]))
            else !Read(behind, length, grant).0.Got? || |Read(behind, length, grant).0.bytes| != length
  {}

  lemma RestAnswers(sum: Checksum, behind: Link, kind: Byte, length: nat, checksum: nat, grant: Grant)
    requires behind.state == Ready && length > 0
    ensures var (reply, after) := Rest(sum, behind, kind, length, checksum, grant);
            if !(grant.Upto? && grant.n >= length && |behind.incoming| >= length)
            then reply == Reply(Malformed, None)
            else
              var left := behind.(incoming := behind.incoming[length..]);
              (reply, after) == if sum(behind.incoming[..length]) != checksum then (Reply(Corrupt, None), left)
                                else Deliver(Message(kind, behind.incoming[..length]), left)
  {
    PayloadRead(behind, length, grant);
  }

  /** Behind a header of ours: a message without a payload is handed over; a payload that is not granted whole
      is malformed; one whose checksum is not the announced one is corrupt; any other is handed over. */
  lemma PayloadAnswered(sum: Checksum, link: Link, capacity: nat, headerGrant: Grant, payloadGrant: Grant)
    requires link.state == Ready && |link.incoming| >= 40 && headerGrant.Upto? && headerGrant.n >= 40
    requires link.incoming[..8] == [0x43, 0x52, 0x59, 0x50, 0x54, 0x43, 0x41, 0x54] && link.incoming[8] == 1
    requires Value(link.incoming[12..16]) <= 65536 && Value(link.incoming[12..16]) <= capacity
    ensures var (reply, after) := Receive(sum, link, capacity, headerGrant, payloadGrant);
            var length, kind, behind := Value(link.incoming[12..16]), link.incoming[10], link.incoming[40..];
            var whole := length == 0
                         || (payloadGrant.Upto? && payloadGrant.n >= length && |behind| >= length);
            var payload := if length <= |behind| then behind[..length] else [];
            var right := length == 0 || sum(payload) == Value(link.incoming[16..20]);
            && (reply == Reply(Malformed, None) <==> !whole)
            && (reply == Reply(Corrupt, None) <==> whole && !right)
            && (reply.message == Some(Message(kind, payload)) <==> whole && right)
            && (whole ==> after.incoming == behind[length..] && after.open == link.open)
            && (whole ==> after.state == if right && kind == 0x40 then Closing else Ready)
  {
    GenuineHeader(sum, link, capacity, headerGrant, payloadGrant);
    var length, behind := Value(link.incoming[12..16]), link.(incoming := link.incoming[40..]);
    if length == 0 {
      assert behind.incoming[..0] == [] && behind.incoming[0..] == behind.incoming;
    } else {
      RestAnswers(sum, behind, link.incoming[10], length, Value(link.incoming[16..20]), payloadGrant);
    }
  }

  // ---------- corruption ----------

  /** A payload damaged in transit, its length kept, is answered CORRUPT exactly when its checksum
      changed; the stream goes on behind it either way. */
  lemma DamageAnswered(sum: Checksum, link: Link, capacity: nat, m: Message, sequence: nat, stamp: Stamp,
                       damaged: seq<Byte>, rest: seq<Byte>)
    requires FitsHeader(sum)
    requires |damaged| == |m.payload| <= MAX_PACKET_SIZE && |m.payload| <= capacity
    requires link.state == Ready
    requires link.incoming == HeaderBytes(m.kind, |m.payload|, sum(m.payload), sequence, stamp) + damaged + rest
    ensures Receive(sum, link, capacity, Upto(HEADER_SIZE), Upto(MAX_PACKET_SIZE))
         == if sum(damaged) == sum(m.payload)
            then Deliver(Message(m.kind, damaged), link.(incoming := rest))
            else (Reply(Corrupt, None), link.(incoming := rest))
  {
    PartsOfStream(HeaderBytes(m.kind, |m.payload|, sum(m.payload), sequence, stamp), damaged, rest);
    StreamHasHeader(sum, link.incoming, m, sequence, stamp);
    ReceiveAfterHeader(sum, link, capacity, m, damaged, rest);
  }

  lemma Crc32Fits()
    ensures FitsHeader(Crc32Value)
  {}

  /** The number in the header is the CRC-32 of the very bytes of the payload. */
  lemma Crc32ValueIs(payload: seq<Byte>)
    ensures forall i :: 0 <= i < |payload| ==> Patterns(payload)[i] as int == payload[i]
    ensures Crc32Value(payload) == (Register(DataBits(Patterns(payload))) ^ 0xFFFFFFFF) as int
  {
    forall i | 0 <= i < |payload|
      ensures Patterns(payload)[i] as int == payload[i]
    {
      PatternIsNumber(payload[i]);
    }
    CrcIsInverted(Patterns(payload));
  }

  lemma Crc32ValueInjective(p: seq<Byte>, q: seq<Byte>)
    requires Crc32Value(p) == Crc32Value(q)
    ensures Crc(Patterns(p)) == Crc(Patterns(q))
  {
    IntOfWord(Crc(Patterns(p)), Crc(Patterns(q)));
  }

  lemma IntOfWord(x: bv32, y: bv32)
    requires x as int == y as int
    ensures x == y
  {
    assert (x as int) as bv32 == x;
    assert (y as int) as bv32 == y;
  }

  /** A payload that was changed on the way, but only within 32 consecutive bits, is answered CORRUPT,
      and the stream goes on behind it. */
  lemma BurstAnsweredCorrupt(link: Link, capacity: nat, m: Message, sequence: nat, stamp: Stamp,
                             damaged: seq<Byte>, a: nat, rest: seq<Byte>)
    requires |m.payload| <= MAX_PACKET_SIZE && |m.payload| <= capacity
    requires DifferOnlyWithin(Patterns(m.payload), Patterns(damaged), a, 32) && damaged != m.payload
    requires link.state == Ready
    requires link.incoming == HeaderBytes(m.kind, |m.payload|, Crc32Value(m.payload), sequence, stamp) + damaged + rest
    ensures Receive(Crc32Value, link, capacity, Upto(HEADER_SIZE), Upto(MAX_PACKET_SIZE))
         == (Reply(Corrupt, None), link.(incoming := rest))
  {
    Crc32Fits();
    DamageAnswered(Crc32Value, link, capacity, m, sequence, stamp, damaged, rest);
    BurstChangesValue(m.payload, damaged, a);
  }

  lemma BurstChangesValue(p: seq<Byte>, q: seq<Byte>, a: nat)
    requires DifferOnlyWithin(Patterns(p), Patterns(q), a, 32) && p != q
    ensures Crc32Value(p) != Crc32Value(q)
  {
    if Patterns(p) == Patterns(q) {
      PatternsInjective(p, q);
    }
    BurstDetected(Patterns(p), Patterns(q), a);
    if Crc32Value(p) == Crc32Value(q) {
      Crc32ValueInjective(p, q);
    }
  }

  /** No strict prefix of a message is taken for a message. */
  lemma TruncatedWireNotDelivered(sum: Checksum, link: Link, capacity: nat, m: Message, sequence: nat, stamp: Stamp,
                                  k: nat, headerGrant: Grant, payloadGrant: Grant)
    requires FitsHeader(sum)
    requires |m.payload| <= MAX_PACKET_SIZE
    requires k < |Wire(sum, m, sequence, stamp)|
    requires link.incoming == Wire(sum, m, sequence, stamp)[..k]
    ensures Receive(sum, link, capacity, headerGrant, payloadGrant).0.message == None
  {
    if link.state == Ready && k >= HEADER_SIZE && Allows(headerGrant, HEADER_SIZE) {
      var header := HeaderBytes(m.kind, |m.payload|, sum(m.payload), sequence, stamp);
      PartsOfStream(header, m.payload[..k - HEADER_SIZE], []);
      assert link.incoming == (header + m.payload[..k - HEADER_SIZE]) + [];
      StreamHasHeader(sum, link.incoming, m, sequence, stamp);
      TruncatedAfterHeader(sum, link, capacity, m, headerGrant, payloadGrant);
    }
  }

  lemma TruncatedAfterHeader(sum: Checksum, link: Link, capacity: nat, m: Message,
                             headerGrant: Grant, payloadGrant: Grant)
    requires HasHeaderOf(sum, link.incoming, m)
    requires |link.incoming[HEADER_SIZE..]| < |m.payload|
    ensures Receive(sum, link, capacity, headerGrant, payloadGrant).0.message == None
  {}

  // ---------- reading a stream ----------

  function Stream(wires: seq<seq<Byte>>): seq<Byte>
    decreases |wires|
  {
    if wires == [] then [] else wires[0] + Stream(wires[1..])
  }

  lemma {:induction false} StreamSplit(wires: seq<seq<Byte>>, k: nat)
    requires k <= |wires|
    ensures Stream(wires) == Stream(wires[..k]) + Stream(wires[k..])
    decreases k
  {
    if k == 0 {
      assert wires[0..] == wires && [] + Stream(wires) == Stream(wires);
    } else {
      StreamSplit(wires[1..], k - 1);
      assert wires[..k][1..] == wires[1..][..k - 1] && wires[1..][k - 1..] == wires[k..];
      Grouped(wires[0], Stream(wires[1..][..k - 1]), Stream(wires[k..]));
    }
  }

  lemma Grouped(a: seq<Byte>, b: seq<Byte>, c: seq<Byte>)
    ensures (a + b) + c == a + (b + c)
  {}

  type Receiving = Link -> (Reply, Link)

  /** The answers to one call after another. */
  function Replies(calls: seq<Receiving>, link: Link): (replies: seq<Reply>)
    ensures |replies| == |calls|
    decreases |calls|
  {
    if calls == [] then [] else
    var (reply, next) := calls[0](link);
    [reply] + Replies(calls[1..], next)
  }

  lemma {:induction false} RepliesPrefix(calls: seq<Receiving>, link: Link, k: nat)
    requires k <= |calls|
    ensures Replies(calls, link)[..k] == Replies(calls[..k], link)
    decreases k
  {
    if k > 0 {
      RepliesPrefix(calls[1..], calls[0](link).1, k - 1);
      assert calls[..k][1..] == calls[1..][..k - 1];
    }
  }

  /** What should be read back: every message, until a DISCONNECT closes the connection. An ERROR message
      is handed over with its own return code, and the stream goes on. */
  function Expected(messages: seq<Message>): (replies: seq<Reply>)
    decreases |messages|
  {
    if messages == [] then [] else
    var m := messages[0];
    if m.kind == MSG_DISCONNECT then [Reply(Closed, Some(m))] + seq(|messages| - 1, _ => Reply(State, None))
    else [Reply(if m.kind == MSG_ERROR then Peer else Success, Some(m))] + Expected(messages[1..])
  }

  ghost predicate ReadsAt(receive: Receiving, m: Message, bytes: seq<Byte>, link: Link, tail: seq<Byte>) {
    link.state == Ready && link.incoming == bytes + tail ==> receive(link) == Deliver(m, link.(incoming := tail))
  }

  /** The call reads the message off its bytes, whatever follows them. */
  ghost predicate Reads(receive: Receiving, m: Message, bytes: seq<Byte>) {
    forall link, tail :: ReadsAt(receive, m, bytes, link, tail)
  }

  ghost predicate SilentAt(receive: Receiving, link: Link) {
    link.state != Ready ==> receive(link) == (Reply(State, None), link)
  }

  ghost predicate AllSilent(calls: seq<Receiving>) {
    forall i, link :: 0 <= i < |calls| ==> SilentAt(calls[i], link)
  }

  /** What stands on the stream is not taken for a message. */
  ghost predicate QuietAt(receive: Receiving, link: Link, tail: seq<Byte>) {
    link.state == Ready && link.incoming == tail ==> receive(link).0.message == None
  }

  ghost predicate Quiet(receive: Receiving, tail: seq<Byte>) {
    forall link :: QuietAt(receive, link, tail)
  }

  lemma {:induction false} StaysSilent(calls: seq<Receiving>, link: Link)
    requires AllSilent(calls) && link.state != Ready
    ensures Replies(calls, link) == seq(|calls|, _ => Reply(State, None))
    decreases |calls|
  {
    if calls != [] {
      assert SilentAt(calls[0], link);
      SilentBehind(calls);
      StaysSilent(calls[1..], link);
    }
  }

  lemma SilentBehind(calls: seq<Receiving>)
    requires calls != [] && AllSilent(calls)
    ensures AllSilent(calls[1..])
  {
    forall i, link | 0 <= i < |calls| - 1
      ensures SilentAt(calls[1..][i], link)
    {
      assert SilentAt(calls[i + 1], link);
    }
  }

  ghost predicate AllRead(calls: seq<Receiving>, messages: seq<Message>, wires: seq<seq<Byte>>) {
    && |wires| == |messages| <= |calls|
    && AllSilent(calls)
    && forall i :: 0 <= i < |messages| ==> Reads(calls[i], messages[i], wires[i])
  }

  /** What the first call leaves. */
  lemma FirstRead(calls: seq<Receiving>, messages: seq<Message>, wires: seq<seq<Byte>>, link: Link, tail: seq<Byte>)
    requires AllRead(calls, messages, wires) && messages != []
    requires link.state == Ready && link.incoming == Stream(wires) + tail
    ensures calls[0](link) == Deliver(messages[0], link.(incoming := Stream(wires[1..]) + tail))
    ensures AllRead(calls[1..], messages[1..], wires[1..])
  {
    SilentBehind(calls);
    Grouped(wires[0], Stream(wires[1..]), tail);
    assert Reads(calls[0], messages[0], wires[0]);
    assert ReadsAt(calls[0], messages[0], wires[0], link, Stream(wires[1..]) + tail);
    forall i | 0 <= i < |messages| - 1
      ensures Reads(calls[1..][i], messages[1..][i], wires[1..][i])
    {
      assert Reads(calls[i + 1], messages[i + 1], wires[i + 1]);
    }
  }

  lemma {:induction false} WiresReadBack(calls: seq<Receiving>, messages: seq<Message>, wires: seq<seq<Byte>>,
                                         link: Link, tail: seq<Byte>)
    requires AllRead(calls, messages, wires) && |calls| == |messages|
    requires link.state == Ready && link.incoming == Stream(wires) + tail
    ensures Replies(calls, link) == Expected(messages)
    decreases |calls|
  {
    if messages != [] {
      FirstRead(calls, messages, wires, link, tail);
      var (reply, next) := Deliver(messages[0], link.(incoming := Stream(wires[1..]) + tail));
      if messages[0].kind == MSG_DISCONNECT {
        StaysSilent(calls[1..], next);
      } else {
        WiresReadBack(calls[1..], messages[1..], wires[1..], next, tail);
      }
    }
  }

  lemma {:induction false} NothingBehind(calls: seq<Receiving>, messages: seq<Message>, wires: seq<seq<Byte>>,
                                         link: Link, tail: seq<Byte>)
    requires AllRead(calls, messages, wires) && |calls| == |messages| + 1
    requires Quiet(calls[|messages|], tail)
    requires link.state == Ready && link.incoming == Stream(wires) + tail
    ensures Replies(calls, link)[|messages|].message == None
    decreases |calls|
  {
    if messages == [] {
      assert Stream(wires) + tail == tail;
      assert QuietAt(calls[0], link, tail);
    } else {
      FirstRead(calls, messages, wires, link, tail);
      var (reply, next) := Deliver(messages[0], link.(incoming := Stream(wires[1..]) + tail));
      if messages[0].kind == MSG_DISCONNECT {
        StaysSilent(calls[1..], next);
      } else {
        NothingBehind(calls[1..], messages[1..], wires[1..], next, tail);
      }
    }
  }

  lemma ReadUpTo(calls: seq<Receiving>, messages: seq<Message>, wires: seq<seq<Byte>>, k: nat, n: nat)
    requires AllSilent(calls) && k <= n <= |calls| && k <= |messages| && k <= |wires|
    requires forall i :: 0 <= i < k ==> Reads(calls[i], messages[i], wires[i])
    ensures AllRead(calls[..n], messages[..k], wires[..k])
  {
    forall i, link | 0 <= i < n
      ensures SilentAt(calls[..n][i], link)
    {
      assert SilentAt(calls[i], link);
    }
    forall i | 0 <= i < k
      ensures Reads(calls[..n][i], messages[..k][i], wires[..k][i])
    {
      assert Reads(calls[i], messages[i], wires[i]);
    }
  }

  /** The first k calls read their messages; if the next call is quiet about the rest, it hands over none. */
  lemma ReadUntil(calls: seq<Receiving>, messages: seq<Message>, wires: seq<seq<Byte>>, k: nat,
                  link: Link, behind: seq<Byte>, quiet: bool)
    requires AllSilent(calls) && k <= |calls| && k <= |messages| == |wires|
    requires forall i :: 0 <= i < k ==> Reads(calls[i], messages[i], wires[i])
    requires quiet ==> k < |calls| && Quiet(calls[k], Stream(wires[k..]) + behind)
    requires link.state == Ready && link.incoming == Stream(wires) + behind
    ensures Replies(calls, link)[..k] == Expected(messages[..k])
    ensures quiet ==> Replies(calls, link)[k].message == None
  {
    var tail := Stream(wires[k..]) + behind;
    StreamSplit(wires, k);
    Grouped(Stream(wires[..k]), Stream(wires[k..]), behind);
    ReadUpTo(calls, messages, wires, k, k);
    RepliesPrefix(calls, link, k);
    WiresReadBack(calls[..k], messages[..k], wires[..k], link, tail);
    if quiet {
      ReadUpTo(calls, messages, wires, k, k + 1);
      RepliesPrefix(calls, link, k + 1);
      NothingBehind(calls[..k + 1], messages[..k], wires[..k], link, tail);
    }
  }

  // ---------- writing a stream ----------

  /** A message, the stamp it is sent with, and how the writing of it goes. */
  datatype Item = Item(m: Message, stamp: Stamp, fate: Fate)

  predicate Sendable(item: Item) {
    |item.m.payload| <= MAX_PACKET_SIZE
  }

  /** One call of `send_message` after another. */
  function SendAll(encode: Encoding, out: Outbox, items: seq<Item>): Outbox
    decreases |items|
  {
    if items == [] then out
    else SendAll(encode, Send(encode, out, items[0].m, items[0].stamp, items[0].fate).1, items[1..])
  }

  function Codes(encode: Encoding, out: Outbox, items: seq<Item>): (codes: seq<Code>)
    ensures |codes| == |items|
    decreases |items|
  {
    if items == [] then [] else
    var (code, next) := Send(encode, out, items[0].m, items[0].stamp, items[0].fate);
    [code] + Codes(encode, next, items[1..])
  }

  function Succeeded(codes: seq<Code>, items: seq<Item>): seq<Item>
    requires |codes| == |items|
    decreases |items|
  {
    if items == [] then []
    else (if codes[0] == Success then [items[0]] else []) + Succeeded(codes[1..], items[1..])
  }

  /** Some writing has broken off. */
  predicate BrokenOff(items: seq<Item>)
    decreases |items|
  {
    items != [] && ((Sendable(items[0]) && !items[0].fate.Goes?) || BrokenOff(items[1..]))
  }

  /** The items that are not too large, up to the first whose writing breaks off. */
  function Gone(items: seq<Item>): (gone: seq<Item>)
    ensures forall i :: 0 <= i < |gone| ==> Sendable(gone[i])
    decreases |items|
  {
    if items == [] then []
    else if !Sendable(items[0]) then Gone(items[1..])
    else if !items[0].fate.Goes? then []
    else [items[0]] + Gone(items[1..])
  }

  /** What the one whose writing breaks off leaves on the stream. */
  function Leftover(encode: Encoding, sequence: nat, items: seq<Item>): seq<Byte>
    decreases |items|
  {
    if items == [] then []
    else if !Sendable(items[0]) then Leftover(encode, sequence, items[1..])
    else if items[0].fate.Goes? then Leftover(encode, (sequence + 1) % UINT64, items[1..])
    else Carried(items[0].fate, encode(items[0].m, sequence, items[0].stamp))
  }

  lemma {:induction false} NotReadySendsNothing(encode: Encoding, out: Outbox, items: seq<Item>)
    requires out.state != Ready
    ensures SendAll(encode, out, items) == out
    ensures forall i :: 0 <= i < |items| ==> Codes(encode, out, items)[i] == State
    ensures Succeeded(Codes(encode, out, items), items) == []
    decreases |items|
  {
    if items != [] {
      NotReadySendsNothing(encode, out, items[1..]);
      assert Codes(encode, out, items)[1..] == Codes(encode, out, items[1..]);
    }
  }

  /** As long as no writing has broken off, a message that is too large is refused, and any other is sent or
      is the one whose writing breaks off; after that every call is refused. */
  lemma {:induction false} SendAnswers(encode: Encoding, out: Outbox, items: seq<Item>, i: nat)
    requires out.state == Ready && i < |items|
    ensures Codes(encode, out, items)[i]
         == if BrokenOff(items[..i]) then State
            else if !Sendable(items[i]) then Size
            else if items[i].fate.Goes? then Success else Network
    decreases |items|
  {
    var next := Send(encode, out, items[0].m, items[0].stamp, items[0].fate).1;
    if i > 0 {
      assert items[..i][1..] == items[1..][..i - 1];
      if Sendable(items[0]) && !items[0].fate.Goes? {
        NotReadySendsNothing(encode, next, items[1..]);
      } else {
        SendAnswers(encode, next, items[1..], i - 1);
      }
    }
  }

  lemma {:induction false} SucceededIsGone(encode: Encoding, out: Outbox, items: seq<Item>)
    requires out.state == Ready
    ensures Succeeded(Codes(encode, out, items), items) == Gone(items)
    decreases |items|
  {
    if items != [] {
      var next := Send(encode, out, items[0].m, items[0].stamp, items[0].fate).1;
      assert Codes(encode, out, items)[1..] == Codes(encode, next, items[1..]);
      if Sendable(items[0]) && !items[0].fate.Goes? {
        NotReadySendsNothing(encode, next, items[1..]);
      } else {
        SucceededIsGone(encode, next, items[1..]);
      }
    }
  }

  function Wires(encode: Encoding, sequence: nat, items: seq<Item>): (wires: seq<seq<Byte>>)
    ensures |wires| == |items|
    decreases |items|
  {
    if items == [] then [] else
    [encode(items[0].m, sequence, items[0].stamp)] + Wires(encode, (sequence + 1) % UINT64, items[1..])
  }

  lemma {:induction false} SentIsStream(encode: Encoding, out: Outbox, items: seq<Item>)
    requires out.state == Ready
    ensures SendAll(encode, out, items).sent
         == out.sent + (Stream(Wires(encode, out.sequence, Gone(items))) + Leftover(encode, out.sequence, items))
    decreases |items|
  {
    if items == [] {
      assert Stream([]) + Leftover(encode, out.sequence, []) == [] && out.sent + [] == out.sent;
    } else {
      var next := Send(encode, out, items[0].m, items[0].stamp, items[0].fate).1;
      if !Sendable(items[0]) {
        SentIsStream(encode, next, items[1..]);
      } else if items[0].fate.Goes? {
        SentIsStream(encode, next, items[1..]);
        FirstOfStream(encode, out.sequence, items);
        var bytes := encode(items[0].m, out.sequence, items[0].stamp);
        Regrouped(out.sent, bytes, Stream(Wires(encode, next.sequence, Gone(items[1..]))),
                  Leftover(encode, next.sequence, items[1..]));
      } else {
        NotReadySendsNothing(encode, next, items[1..]);
        var left := Leftover(encode, out.sequence, items);
        assert Stream([]) + left == left;
      }
    }
  }

  lemma FirstOfStream(encode: Encoding, sequence: nat, items: seq<Item>)
    requires items != [] && Sendable(items[0]) && items[0].fate.Goes?
    ensures Stream(Wires(encode, sequence, Gone(items)))
         == encode(items[0].m, sequence, items[0].stamp)
          + Stream(Wires(encode, (sequence + 1) % UINT64, Gone(items[1..])))
  {
    var gone := Gone(items);
    assert gone[1..] == Gone(items[1..]);
    var wires := Wires(encode, sequence, gone);
    assert wires[1..] == Wires(encode, (sequence + 1) % UINT64, gone[1..]);
  }

  lemma Regrouped(a: seq<Byte>, b: seq<Byte>, c: seq<Byte>, d: seq<Byte>)
    ensures (a + b) + (c + d) == a + ((b + c) + d)
  {}

  /** Messages are numbered one after another, modulo 2^64. */
  lemma {:induction false} NumberedInTurn(encode: Encoding, sequence: nat, items: seq<Item>, k: nat)
    requires k < |items| && sequence < UINT64
    ensures Wires(encode, sequence, items)[k] == encode(items[k].m, (sequence + k) % UINT64, items[k].stamp)
    decreases k
  {
    if k > 0 {
      NumberedInTurn(encode, (sequence + 1) % UINT64, items[1..], k - 1);
      WrapsAlike(sequence + 1, k - 1, UINT64);
    }
  }

  lemma {:induction false} NumberOf(encode: Encoding, sequence: nat, items: seq<Item>, k: nat) returns (n: nat)
    requires k < |items|
    ensures Wires(encode, sequence, items)[k] == encode(items[k].m, n, items[k].stamp)
    decreases k
  {
    if k == 0 {
      n := sequence;
    } else {
      n := NumberOf(encode, (sequence + 1) % UINT64, items[1..], k - 1);
    }
  }

  function Messages(items: seq<Item>): (messages: seq<Message>)
    ensures |messages| == |items|
  {
    seq(|items|, i requires 0 <= i < |items| => items[i].m)
  }

  // ---------- what is written is read ----------

  /** One call of `receive_message`: the size of its buffer, and what the kernel does with its two reads. */
  datatype Call = Call(capacity: nat, header: Grant, payload: Grant)

  function Calling(sum: Checksum, call: Call): Receiving {
    (link: Link) => Receive(sum, link, call.capacity, call.header, call.payload)
  }

  function Callings(sum: Checksum, calls: seq<Call>): (callings: seq<Receiving>)
    ensures |callings| == |calls|
  {
    seq(|calls|, i requires 0 <= i < |calls| => Calling(sum, calls[i]))
  }

  lemma CallingsSilent(sum: Checksum, calls: seq<Call>)
    ensures AllSilent(Callings(sum, calls))
  {}

  /** The buffer holds the message, and the reads are granted whole. */
  predicate Suits(call: Call, m: Message) {
    && |m.payload| <= call.capacity
    && Allows(call.header, HEADER_SIZE)
    && (m.payload == [] || Allows(call.payload, |m.payload|))
  }

  /** How many calls suit the messages in turn before one does not. */
  function Suiting(calls: seq<Call>, messages: seq<Message>): (k: nat)
    ensures k <= |calls| && k <= |messages|
    ensures forall i :: 0 <= i < k ==> Suits(calls[i], messages[i])
    ensures k < |calls| && k < |messages| ==> !Suits(calls[k], messages[k])
    decreases |calls|
  {
    if calls == [] || messages == [] || !Suits(calls[0], messages[0]) then 0
    else 1 + Suiting(calls[1..], messages[1..])
  }

  lemma WireRead(sum: Checksum, call: Call, m: Message, n: nat, stamp: Stamp)
    requires FitsHeader(sum) && |m.payload| <= MAX_PACKET_SIZE && Suits(call, m)
    ensures Reads(Calling(sum, call), m, Encode(sum)(m, n, stamp))
  {
    forall link, tail
      ensures ReadsAt(Calling(sum, call), m, Encode(sum)(m, n, stamp), link, tail)
    {
      if link.state == Ready && link.incoming == Wire(sum, m, n, stamp) + tail {
        ReceiveWire(sum, link, call.capacity, m, n, stamp, tail, call.header, call.payload);
      }
    }
  }

  lemma WireQuiet(sum: Checksum, call: Call, m: Message, n: nat, stamp: Stamp, tail: seq<Byte>)
    requires FitsHeader(sum) && |m.payload| <= MAX_PACKET_SIZE && !Suits(call, m)
    ensures Quiet(Calling(sum, call), Encode(sum)(m, n, stamp) + tail)
  {
    forall link
      ensures QuietAt(Calling(sum, call), link, Encode(sum)(m, n, stamp) + tail)
    {
      if link.state == Ready && link.incoming == Wire(sum, m, n, stamp) + tail {
        ReceiveWire(sum, link, call.capacity, m, n, stamp, tail, call.header, call.payload);
      }
    }
  }

  /** What a writing that breaks off leaves on the stream is not taken for a message. */
  lemma {:induction false} LeftoverQuiet(sum: Checksum, call: Call, sequence: nat, items: seq<Item>, link: Link)
    requires FitsHeader(sum)
    ensures QuietAt(Calling(sum, call), link, Leftover(Encode(sum), sequence, items))
    decreases |items|
  {
    if items != [] && link.incoming == Leftover(Encode(sum), sequence, items) {
      if !Sendable(items[0]) {
        LeftoverQuiet(sum, call, sequence, items[1..], link);
      } else if items[0].fate.Goes? {
        LeftoverQuiet(sum, call, (sequence + 1) % UINT64, items[1..], link);
      } else {
        TruncatedWireNotDelivered(sum, link, call.capacity, items[0].m, sequence, items[0].stamp, |link.incoming|,
                                  call.header, call.payload);
      }
    }
  }

  lemma SuitingAt(sum: Checksum, sequence: nat, items: seq<Item>, calls: seq<Call>, i: nat)
    requires FitsHeader(sum) && i < |items| && i < |calls| && Sendable(items[i]) && Suits(calls[i], items[i].m)
    ensures Reads(Callings(sum, calls)[i], Messages(items)[i], Wires(Encode(sum), sequence, items)[i])
  {
    var n := NumberOf(Encode(sum), sequence, items, i);
    WireRead(sum, calls[i], items[i].m, n, items[i].stamp);
  }

  /** The calls that suit read the messages they are for. */
  lemma SuitingRead(sum: Checksum, sequence: nat, items: seq<Item>, calls: seq<Call>)
    requires FitsHeader(sum) && (forall i :: 0 <= i < |items| ==> Sendable(items[i]))
    ensures AllSilent(Callings(sum, calls))
    ensures forall i :: 0 <= i < Suiting(calls, Messages(items)) ==>
              Reads(Callings(sum, calls)[i], Messages(items)[i], Wires(Encode(sum), sequence, items)[i])
  {
    CallingsSilent(sum, calls);
    forall i | 0 <= i < Suiting(calls, Messages(items))
      ensures Reads(Callings(sum, calls)[i], Messages(items)[i], Wires(Encode(sum), sequence, items)[i])
    {
      SuitingAt(sum, sequence, items, calls, i);
    }
  }

  /** The first call that does not suit its message gets none. */
  lemma UnsuitingQuiet(sum: Checksum, sequence: nat, items: seq<Item>, calls: seq<Call>, k: nat, tail: seq<Byte>)
    requires FitsHeader(sum) && (forall i :: 0 <= i < |items| ==> Sendable(items[i]))
    requires k == Suiting(calls, Messages(items)) && k < |calls| && k < |items|
    ensures Quiet(Calling(sum, calls[k]), Stream(Wires(Encode(sum), sequence, items)[k..]) + tail)
  {
    var wires := Wires(Encode(sum), sequence, items);
    var n := NumberOf(Encode(sum), sequence, items, k);
    assert wires[k..][0] == wires[k] && wires[k..][1..] == wires[k + 1..];
    Grouped(wires[k], Stream(wires[k + 1..]), tail);
    WireQuiet(sum, calls[k], items[k].m, n, items[k].stamp, Stream(wires[k + 1..]) + tail);
  }

  /** Any calls of `send_message`, and any calls of `receive_message` on the stream they have written: the
      messages handed over are the ones whose sending succeeded, as the same types and payloads and in order,
      up to the first call whose buffer is too small or whose reads are not granted whole; that call hands
      over none. And when all of them are handed over and nothing else follows, the next call hands over
      none. */
  lemma StreamRoundTrip(sum: Checksum, out: Outbox, items: seq<Item>, calls: seq<Call>, link: Link, rest: seq<Byte>)
    requires FitsHeader(sum)
    requires out.state == Ready && out.sent == []
    requires link.state == Ready && link.incoming == SendAll(Encode(sum), out, items).sent + rest
    ensures var messages := Messages(Succeeded(Codes(Encode(sum), out, items), items));
            var k, replies := Suiting(calls, messages), Replies(Callings(sum, calls), link);
            && replies[..k] == Expected(messages[..k])
            && (k < |calls| && (k < |messages| || rest == []) ==> replies[k].message == None)
  {
    SucceededIsGone(Encode(sum), out, items);
    SentIsStream(Encode(sum), out, items);
    var left := Leftover(Encode(sum), out.sequence, items);
    assert [] + (Stream(Wires(Encode(sum), out.sequence, Gone(items))) + left)
        == Stream(Wires(Encode(sum), out.sequence, Gone(items))) + left;
    GoneReadBack(sum, out.sequence, items, calls, link, left, rest);
  }

  lemma GoneReadBack(sum: Checksum, sequence: nat, items: seq<Item>, calls: seq<Call>, link: Link,
                     left: seq<Byte>, rest: seq<Byte>)
    requires FitsHeader(sum) && left == Leftover(Encode(sum), sequence, items)
    requires link.state == Ready
    requires link.incoming == (Stream(Wires(Encode(sum), sequence, Gone(items))) + left) + rest
    ensures var messages := Messages(Gone(items));
            var k, replies := Suiting(calls, messages), Replies(Callings(sum, calls), link);
            && replies[..k] == Expected(messages[..k])
            && (k < |calls| && (k < |messages| || rest == []) ==> replies[k].message == None)
  {
    var gone := Gone(items);
    var messages, wires := Messages(gone), Wires(Encode(sum), sequence, gone);
    var k := Suiting(calls, messages);
    var quiet := k < |calls| && (k < |messages| || rest == []);
    SuitingRead(sum, sequence, gone, calls);
    Grouped(Stream(wires), left, rest);
    if quiet {
      if k < |messages| {
        UnsuitingQuiet(sum, sequence, gone, calls, k, left + rest);
      } else {
        LastQuiet(sum, sequence, items, calls[k], wires, left);
      }
    }
    ReadUntil(Callings(sum, calls), messages, wires, k, link, left + rest, quiet);
  }

  /** The call after the last message hands over none. */
  lemma LastQuiet(sum: Checksum, sequence: nat, items: seq<Item>, call: Call, wires: seq<seq<Byte>>, left: seq<Byte>)
    requires FitsHeader(sum) && left == Leftover(Encode(sum), sequence, items)
    ensures Quiet(Calling(sum, call), Stream(wires[|wires|..]) + (left + []))
  {
    assert Stream(wires[|wires|..]) + (left + []) == left;
    forall l ensures QuietAt(Calling(sum, call), l, left) {
      LeftoverQuiet(sum, call, sequence, items, l);
    }
  }

  /** The same, for the checksum the program runs with. */
  lemma Crc32StreamRoundTrip(out: Outbox, items: seq<Item>, calls: seq<Call>, link: Link, rest: seq<Byte>)
    requires out.state == Ready && out.sent == []
    requires link.state == Ready && link.incoming == SendAll(Encode(Crc32Value), out, items).sent + rest
    ensures var messages := Messages(Succeeded(Codes(Encode(Crc32Value), out, items), items));
            var k, replies := Suiting(calls, messages), Replies(Callings(Crc32Value, calls), link);
            && replies[..k] == Expected(messages[..k])
            && (k < |calls| && (k < |messages| || rest == []) ==> replies[k].message == None)
  {
    Crc32Fits();
    StreamRoundTrip(Crc32Value, out, items, calls, link, rest);
  }
}
