/** Authenticated frames: a sequence number, the encrypted text and a tag over both, as crypto_engine.c
    makes and checks them. The tag is a function that is given; what the cipher makes of a text is given
    with each call, as bytes of the same number, and so is whether the library fails. */
module SecureFrames {
  import opened Bytes

  const HMAC_SIZE: nat := 32
  const BUFFER_SIZE: nat := 65536
  const SEQUENCE_SIZE: nat := 8

  type Data = seq<Byte>

  type Mac = Data -> Data

  datatype Code = Success | InvalidParam | EncryptFailed | DecryptFailed | AuthFailed

  /** What the library does in a call: its cipher may fail, and so may its tag. */
  datatype Library = Works | CipherFails | TagFails

  /** What a session keeps: 64-bit sequence numbers, 32-bit byte counters, and whether it was set up. */
  datatype State = State(seqSend: nat, seqRecv: nat, bytesSent: nat, bytesReceived: nat, ready: bool)

  /** A new session: both numbers are zero. */
  const INITIAL := State(0, 0, 0, 0, true)

  function Frame(mac: Mac, number: nat, body: Data): Data
  {
    var head := BigEndian(number, SEQUENCE_SIZE) + body;
    head + mac(head)
  }

  /** How a frame is made from its number and its body. */
  type Framing = (nat, Data) -> Data

  function FramingOf(mac: Mac): Framing {
    (number: nat, body: Data) => Frame(mac, number, body)
  }

  predicate LongEnough(frame: Data) {
    |frame| >= SEQUENCE_SIZE + 1 + HMAC_SIZE
  }

  function Number(frame: Data): nat {
    if LongEnough(frame) then Value(frame[..SEQUENCE_SIZE]) else 0
  }

  function Body(frame: Data): Data {
    if LongEnough(frame) then frame[SEQUENCE_SIZE..|frame| - HMAC_SIZE] else []
  }

  predicate Tagged(mac: Mac, frame: Data) {
    LongEnough(frame) && mac(frame[..|frame| - HMAC_SIZE]) == frame[|frame| - HMAC_SIZE..]
  }

  /** `crypto_encrypt`, where the cipher makes the body from the plaintext: the frame, and the session after
      it. */
  function Encrypt(framing: Framing, s: State, plaintext: Data, body: Data, library: Library): (Code, Data, State) {
    if !s.ready || plaintext == [] || |plaintext| > BUFFER_SIZE then (InvalidParam, [], s)
    else if library.CipherFails? then (EncryptFailed, [], s)
    else if library.TagFails? then (AuthFailed, [], s)
    else
      var frame := framing(s.seqSend, body);
      (Success, frame, s.(seqSend := (s.seqSend + 1) % UINT64, bytesSent := (s.bytesSent + |frame|) % UINT32))
  }

  /** `crypto_decrypt`: the body that is given to the cipher, and the session after it. */
  function Decrypt(mac: Mac, s: State, ciphertext: Data, library: Library): (Code, Data, State) {
    if !s.ready || !LongEnough(ciphertext) then (InvalidParam, [], s)
    else if Number(ciphertext) <= s.seqRecv || library.TagFails? || !Tagged(mac, ciphertext) then (AuthFailed, [], s)
    else if library.CipherFails? then (DecryptFailed, [], s)
    else (Success, Body(ciphertext), s.(seqRecv := Number(ciphertext),
                                        bytesReceived := (s.bytesReceived + |ciphertext|) % UINT32))
  }

  class Session {
    const mac: Mac
    var seqSend: nat
    var seqRecv: nat
    var bytesSent: nat
    var bytesReceived: nat
    var ready: bool

    function Current(): State
      reads this
    {
      State(seqSend, seqRecv, bytesSent, bytesReceived, ready)
    }

    constructor (mac: Mac)
      ensures this.mac == mac && Current() == INITIAL
    {
      this.mac := mac;
      seqSend, seqRecv, bytesSent, bytesReceived, ready := 0, 0, 0, 0, true;
    }

    method BuildFrame(number: nat, body: Data) returns (frame: Data)
      ensures frame == FramingOf(mac)(number, body)
    {
      frame := BigEndian(number, SEQUENCE_SIZE);
      frame := frame + body;
      var hmac := mac(frame);
      frame := frame + hmac;
    }

    /** `crypto_encrypt`, with what the cipher made of the plaintext. */
    method EncryptData(plaintext: Data, encryptedData: Data, library: Library) returns (code: Code, ciphertext: Data)
      requires |encryptedData| == |plaintext|
      modifies this
      ensures (code, ciphertext, Current())
           == Encrypt(FramingOf(mac), old(Current()), plaintext, encryptedData, library)
    {
      if !ready || |plaintext| == 0 {
        return InvalidParam, [];
      }
      if |plaintext| > BUFFER_SIZE {
        return InvalidParam, [];
      }
      if library.CipherFails? {
        return EncryptFailed, [];
      }
      if library.TagFails? {
        return AuthFailed, [];
      }
      ciphertext := BuildFrame(seqSend, encryptedData);
      seqSend := (seqSend + 1) % UINT64;
      bytesSent := (bytesSent + |ciphertext|) % UINT32;
      code := Success;
    }

    /** `crypto_decrypt`, with the body that the cipher is given for its result. */
    method DecryptData(ciphertext: Data, library: Library) returns (code: Code, encryptedData: Data)
      modifies this
      ensures (code, encryptedData, Current()) == Decrypt(mac, old(Current()), ciphertext, library)
    {
      if !ready || |ciphertext| == 0 {
        return InvalidParam, [];
      }
      if |ciphertext| < SEQUENCE_SIZE + 1 + HMAC_SIZE {
        return InvalidParam, [];
      }
      var seqReceived := Value(ciphertext[..SEQUENCE_SIZE]);
      if seqReceived <= seqRecv {
        return AuthFailed, [];
      }
      if library.TagFails? {
        return AuthFailed, [];
      }
      var calculated := mac(ciphertext[..|ciphertext| - HMAC_SIZE]);
      if calculated != ciphertext[|ciphertext| - HMAC_SIZE..] {
        return AuthFailed, [];
      }
      if library.CipherFails? {
        return DecryptFailed, [];
      }
      encryptedData := ciphertext[SEQUENCE_SIZE..|ciphertext| - HMAC_SIZE];
      seqRecv := seqReceived;
      bytesReceived := (bytesReceived + |ciphertext|) % UINT32;
      code := Success;
    }
  }
}

/** What arrives of the frames of one session at the other side, whatever the network does. */
module SecureFramesProofs {
  import opened Bytes
  import opened SecureFrames

  /** Two sessions under the same key, the frames one made, the frames the other accepted, and how many
      arrivals there were. */
  datatype System = System(sender: State, receiver: State, made: seq<Data>, accepted: seq<Data>, arrived: nat)

  /** The sender encrypts a text; anything at all arrives at the receiver. */
  datatype Action = Make(plaintext: Data, body: Data, library: Library) | Arrive(bytes: Data, library: Library)

  const START := System(INITIAL, INITIAL, [], [], 0)

  function DoMake(framing: Framing, sys: System, plaintext: Data, body: Data, library: Library): System {
    var (code, frame, after) := Encrypt(framing, sys.sender, plaintext, body, library);
    sys.(sender := after, made := if code == Success then sys.made + [frame] else sys.made)
  }

  function DoArrive(mac: Mac, sys: System, bytes: Data, library: Library): System {
    var (code, body, after) := Decrypt(mac, sys.receiver, bytes, library);
    sys.(receiver := after, arrived := sys.arrived + 1,
         accepted := if code == Success then sys.accepted + [bytes] else sys.accepted)
  }

  type Step = (System, Action) -> System

  function Acting(mac: Mac): Step {
    (sys: System, a: Action) =>
      match a
      case Make(plaintext, body, library) => DoMake(FramingOf(mac), sys, plaintext, body, library)
      case Arrive(bytes, library) => DoArrive(mac, sys, bytes, library)
  }

  // ---------- runs ----------

  function ActAll(step: Step, sys: System, actions: seq<Action>): System
    decreases |actions|
  {
    if actions == [] then sys else ActAll(step, step(sys, actions[0]), actions[1..])
  }

  type Rule = (System, Action) -> bool

  /** Every action of the run is allowed where it happens. */
  predicate Along(step: Step, rule: Rule, sys: System, actions: seq<Action>)
    decreases |actions|
  {
    actions != [] ==> rule(sys, actions[0]) && Along(step, rule, step(sys, actions[0]), actions[1..])
  }

  ghost predicate KeepsAt(step: Step, rule: Rule, good: System -> bool, sys: System, a: Action) {
    good(sys) && rule(sys, a) ==> good(step(sys, a))
  }

  lemma {:induction false} RunKeeps(step: Step, rule: Rule, good: System -> bool, sys: System, actions: seq<Action>)
    requires forall s, a :: KeepsAt(step, rule, good, s, a)
    requires good(sys) && Along(step, rule, sys, actions)
    ensures good(ActAll(step, sys, actions))
    decreases |actions|
  {
    if actions != [] {
      assert KeepsAt(step, rule, good, sys, actions[0]);
      RunKeeps(step, rule, good, step(sys, actions[0]), actions[1..]);
    }
  }

  // ---------- what is known of the key and of the cipher ----------

  ghost predicate MakesTags(mac: Mac) {
    forall data: Data :: |mac(data)| == HMAC_SIZE
  }

  /** The cipher makes as many bytes as it is given. Nobody without the key makes a tag: what arrives with
      one, in its last 32 bytes, was made before. */
  function Genuine(mac: Mac): Rule {
    (sys: System, a: Action) =>
      match a
      case Make(plaintext, body, library) => |body| == |plaintext|
      case Arrive(bytes, library) =>
        |bytes| >= 41 && mac(bytes[..|bytes| - 32]) == bytes[|bytes| - 32..] ==> bytes in sys.made
  }

  predicate Unforged(mac: Mac, actions: seq<Action>) {
    Along(Acting(mac), Genuine(mac), START, actions)
  }

  /** The system after the actions, from two new sessions on. */
  function End(mac: Mac, actions: seq<Action>): System {
    ActAll(Acting(mac), START, actions)
  }

  lemma FrameParts(mac: Mac, number: nat, body: Data)
    requires MakesTags(mac) && number < UINT64 && body != []
    ensures var frame := FramingOf(mac)(number, body);
            LongEnough(frame) && Number(frame) == number && Body(frame) == body && Tagged(mac, frame)
  {
    Widths();
    ValueOfBigEndian(number, SEQUENCE_SIZE);
    var head, frame := BigEndian(number, SEQUENCE_SIZE) + body, Frame(mac, number, body);
    assert |mac(head)| == HMAC_SIZE;
    assert frame[..SEQUENCE_SIZE] == BigEndian(number, SEQUENCE_SIZE);
    assert frame[..|frame| - HMAC_SIZE] == head;
  }

  // ---------- what a call answers ----------

  /** What arrives is taken exactly when it is long enough, its number is above the last one, its last 32
      bytes are the tag of the rest, and the library works. Then the bytes between are given to the cipher
      and the session moves on; every other answer says what was wrong, and the session stays as it was. */
  lemma DecryptAnswers(mac: Mac, s: State, bytes: Data, library: Library)
    ensures var (code, body, after) := Decrypt(mac, s, bytes, library);
            var long := |bytes| >= 41;
            var newer := long && Value(bytes[..8]) > s.seqRecv;
            var tagged := long && mac(bytes[..|bytes| - 32]) == bytes[|bytes| - 32..];
            && (code == Success <==> s.ready && newer && tagged && library.Works?)
            && (code == InvalidParam <==> !s.ready || !long)
            && (code == AuthFailed <==> s.ready && long && (!newer || library.TagFails? || !tagged))
            && (code == DecryptFailed <==> s.ready && newer && tagged && library.CipherFails?)
            && (code != Success ==> body == [] && after == s)
            && (code == Success ==>
                  && body == bytes[8..|bytes| - 32]
                  && after == State(s.seqSend, Value(bytes[..8]), s.bytesSent,
                                    (s.bytesReceived + |bytes|) % 0x1_0000_0000, true))
  {}

  /** In particular a frame without the tag is never taken. */
  lemma ForgedIsRefused(mac: Mac, s: State, bytes: Data, library: Library)
    requires |bytes| < 41 || mac(bytes[..|bytes| - 32]) != bytes[|bytes| - 32..]
    ensures Decrypt(mac, s, bytes, library).0 != Success && Decrypt(mac, s, bytes, library).2 == s
  {
    DecryptAnswers(mac, s, bytes, library);
  }

  /** A frame is made exactly of a text of 1 to 65536 bytes, in a session that was set up, while the library
      works: the number in eight bytes, the most significant first, the encrypted text, and the tag over
      both. Every other answer says what was wrong, and the session stays as it was. */
  lemma EncryptAnswers(mac: Mac, s: State, plaintext: Data, body: Data, library: Library)
    requires |mac(BigEndian(s.seqSend, 8) + body)| == 32
    ensures var (code, frame, after) := Encrypt(FramingOf(mac), s, plaintext, body, library);
            var valid := s.ready && 1 <= |plaintext| <= 65536;
            && (code == Success <==> valid && library.Works?)
            && (code == InvalidParam <==> !valid)
            && (code == EncryptFailed <==> valid && library.CipherFails?)
            && (code == AuthFailed <==> valid && library.TagFails?)
            && (code != Success ==> frame == [] && after == s)
            && (code == Success ==>
                  && |frame| == 8 + |body| + 32
                  && frame[..8] == BigEndian(s.seqSend, 8) && frame[8..8 + |body|] == body
                  && frame[8 + |body|..] == mac(frame[..8 + |body|])
                  && after == State((s.seqSend + 1) % 0x1_0000_0000_0000_0000, s.seqRecv,
                                    (s.bytesSent + |frame|) % 0x1_0000_0000, s.bytesReceived, true))
  {
    var head := BigEndian(s.seqSend, 8) + body;
    assert (head + mac(head))[..8 + |body|] == head && head[..8] == BigEndian(s.seqSend, 8);
  }

  // ---------- the invariant ----------

  ghost predicate MadeInOrder(mac: Mac, made: seq<Data>) {
    forall i :: 0 <= i < |made| ==> Number(made[i]) == i && Tagged(mac, made[i])
  }

  ghost predicate Numbered(made: seq<Data>, accepted: seq<Data>) {
    forall i :: 0 <= i < |accepted| ==>
      0 < Number(accepted[i]) < |made| && accepted[i] == made[Number(accepted[i])]
  }

  ghost predicate Increasing(accepted: seq<Data>) {
    forall i, j :: 0 <= i < j < |accepted| ==> Number(accepted[i]) < Number(accepted[j])
  }

  /** The last number accepted. */
  function LastNumber(accepted: seq<Data>): nat {
    if accepted == [] then 0 else Number(accepted[|accepted| - 1])
  }

  function TotalLength(frames: seq<Data>): nat {
    if frames == [] then 0 else TotalLength(frames[..|frames| - 1]) + |frames[|frames| - 1]|
  }

  ghost predicate SenderSound(mac: Mac, s: State, made: seq<Data>) {
    && s.ready
    && s.seqSend == |made| % UINT64
    && (|made| <= UINT64 ==> MadeInOrder(mac, made))
    && s.bytesSent == TotalLength(made) % UINT32
  }

  ghost predicate ReceiverSound(s: State, accepted: seq<Data>) {
    && s.ready
    && s.seqRecv == LastNumber(accepted)
    && Increasing(accepted)
    && s.bytesReceived == TotalLength(accepted) % UINT32
  }

  ghost predicate Sound(mac: Mac, sys: System) {
    SenderSound(mac, sys.sender, sys.made) && ReceiverSound(sys.receiver, sys.accepted)
  }

  // ---------- single steps ----------

  lemma NotWrapped(n: nat)
    requires n < UINT64
    ensures n % UINT64 == n
  {}

  lemma TotalNext(frames: seq<Data>, frame: Data)
    ensures TotalLength(frames + [frame]) == TotalLength(frames) + |frame|
  {
    assert (frames + [frame])[..|frames|] == frames;
  }

  lemma NextCounters(made: seq<Data>, frame: Data)
    ensures (|made| % UINT64 + 1) % UINT64 == |made + [frame]| % UINT64
    ensures (TotalLength(made) % UINT32 + |frame|) % UINT32 == TotalLength(made + [frame]) % UINT32
  {
    TotalNext(made, frame);
    WrapsAlike(TotalLength(made), |frame|, UINT32);
    WrapsAlike(|made|, 1, UINT64);
  }

  lemma OrderNext(mac: Mac, made: seq<Data>, number: nat, body: Data)
    requires MakesTags(mac) && body != [] && number == |made| % UINT64
    requires |made| < UINT64 && MadeInOrder(mac, made)
    ensures MadeInOrder(mac, made + [FramingOf(mac)(number, body)])
  {
    NotWrapped(|made|);
    FrameParts(mac, |made|, body);
  }

  lemma NextMade(mac: Mac, s: State, made: seq<Data>, body: Data, frame: Data, after: State)
    requires MakesTags(mac) && SenderSound(mac, s, made) && body != []
    requires frame == FramingOf(mac)(s.seqSend, body)
    requires after.ready && after.seqSend == (s.seqSend + 1) % UINT64
    requires after.bytesSent == (s.bytesSent + |frame|) % UINT32
    ensures SenderSound(mac, after, made + [frame])
  {
    NextCounters(made, frame);
    if |made| < UINT64 {
      OrderNext(mac, made, s.seqSend, body);
    }
  }

  lemma MakeKeepsSound(mac: Mac, framing: Framing, sys: System, plaintext: Data, body: Data, library: Library)
    requires MakesTags(mac) && framing == FramingOf(mac) && |body| == |plaintext|
    requires SenderSound(mac, sys.sender, sys.made)
    ensures var after := DoMake(framing, sys, plaintext, body, library);
            SenderSound(mac, after.sender, after.made) && sys.made <= after.made
  {
    var (code, frame, after) := Encrypt(framing, sys.sender, plaintext, body, library);
    if code == Success {
      NextMade(mac, sys.sender, sys.made, body, frame, after);
    }
  }

  lemma AcceptKeepsSound(s: State, accepted: seq<Data>, bytes: Data, after: State)
    requires ReceiverSound(s, accepted) && Number(bytes) > s.seqRecv
    requires after.ready && after.seqRecv == Number(bytes)
    requires after.bytesReceived == (s.bytesReceived + |bytes|) % UINT32
    ensures ReceiverSound(after, accepted + [bytes])
  {
    NextCounters(accepted, bytes);
    NextIncreases(accepted, bytes);
  }

  lemma ArriveKeepsSound(mac: Mac, sys: System, bytes: Data, library: Library)
    requires ReceiverSound(sys.receiver, sys.accepted)
    ensures var after := DoArrive(mac, sys, bytes, library);
            ReceiverSound(after.receiver, after.accepted)
  {
    var (code, body, after) := Decrypt(mac, sys.receiver, bytes, library);
    if code == Success {
      AcceptKeepsSound(sys.receiver, sys.accepted, bytes, after);
    }
  }

  lemma NextIncreases(accepted: seq<Data>, bytes: Data)
    requires Increasing(accepted) && Number(bytes) > LastNumber(accepted)
    ensures Increasing(accepted + [bytes])
  {
    var more := accepted + [bytes];
    forall i, j | 0 <= i < j < |more|
      ensures Number(more[i]) < Number(more[j])
    {
      if j == |accepted| && i < j - 1 {
        assert Number(accepted[i]) < Number(accepted[j - 1]);
      }
    }
  }

  ghost predicate MadeAfter(made: seq<Data>, last: nat, bytes: Data) {
    exists i :: last < i < |made| && bytes == made[i]
  }

  lemma MadeFrame(mac: Mac, made: seq<Data>, bytes: Data, last: nat)
    requires MadeInOrder(mac, made)
    ensures MadeAfter(made, last, bytes) ==>
              Tagged(mac, bytes) && last < Number(bytes) < |made| && made[Number(bytes)] == bytes
    ensures bytes in made && Number(bytes) > last ==> MadeAfter(made, last, bytes)
  {
    if bytes in made {
      var i :| 0 <= i < |made| && made[i] == bytes;
      assert Number(made[i]) == i;
    }
    if MadeAfter(made, last, bytes) {
      var i :| last < i < |made| && bytes == made[i];
      assert Number(made[i]) == i && Tagged(mac, made[i]);
    }
  }

  /** What the network delivers is accepted exactly when the library works and it is a frame made under the
      key with a number past the last one accepted. */
  lemma AcceptedIff(mac: Mac, sys: System, bytes: Data, library: Library)
    requires Sound(mac, sys) && |sys.made| <= UINT64
    requires |bytes| >= 41 && mac(bytes[..|bytes| - 32]) == bytes[|bytes| - 32..] ==> bytes in sys.made
    ensures DoArrive(mac, sys, bytes, library).accepted
         == if library.Works? && MadeAfter(sys.made, LastNumber(sys.accepted), bytes)
            then sys.accepted + [bytes] else sys.accepted
  {
    MadeFrame(mac, sys.made, bytes, LastNumber(sys.accepted));
  }

  // ---------- whole runs ----------

  ghost function SoundOf(mac: Mac): System -> bool {
    (sys: System) => Sound(mac, sys)
  }

  lemma StepIsSound(mac: Mac, sys: System, a: Action)
    requires MakesTags(mac) && Sound(mac, sys) && (a.Make? ==> |a.body| == |a.plaintext|)
    ensures Sound(mac, Acting(mac)(sys, a)) && sys.made <= Acting(mac)(sys, a).made
  {
    match a
    case Make(plaintext, body, library) => MakeKeepsSound(mac, FramingOf(mac), sys, plaintext, body, library);
    case Arrive(bytes, library) => ArriveKeepsSound(mac, sys, bytes, library);
  }

  /** The cipher makes as many bytes as it is given; nothing is asked of the network. */
  function KeepsLengths(): Rule {
    (sys: System, a: Action) => a.Make? ==> |a.body| == |a.plaintext|
  }

  lemma StepKeepsSound(mac: Mac, sys: System, a: Action)
    requires MakesTags(mac)
    ensures KeepsAt(Acting(mac), KeepsLengths(), SoundOf(mac), sys, a)
  {
    if Sound(mac, sys) && KeepsLengths()(sys, a) {
      StepIsSound(mac, sys, a);
    }
  }

  /** The byte counters count the frames made and the frames accepted, and the sequence number the frames
      made, modulo their width, even if tags are forged. */
  lemma CountersCount(mac: Mac, actions: seq<Action>)
    requires MakesTags(mac) && Along(Acting(mac), KeepsLengths(), START, actions)
    ensures var end := End(mac, actions);
            && end.sender.bytesSent == TotalLength(end.made) % UINT32
            && end.receiver.bytesReceived == TotalLength(end.accepted) % UINT32
            && end.sender.seqSend == |end.made| % UINT64
  {
    forall sys, a
      ensures KeepsAt(Acting(mac), KeepsLengths(), SoundOf(mac), sys, a)
    {
      StepKeepsSound(mac, sys, a);
    }
    RunKeeps(Acting(mac), KeepsLengths(), SoundOf(mac), START, actions);
  }

  /** As long as the numbers have not wrapped, every frame accepted is the frame made under its number. */
  ghost predicate AllNumbered(mac: Mac, sys: System) {
    Sound(mac, sys) && (|sys.made| <= UINT64 ==> Numbered(sys.made, sys.accepted))
  }

  ghost function AllNumberedOf(mac: Mac): System -> bool {
    (sys: System) => AllNumbered(mac, sys)
  }

  lemma NumberedNext(made: seq<Data>, accepted: seq<Data>, frame: Data)
    requires Numbered(made, accepted) && 0 < Number(frame) < |made| && frame == made[Number(frame)]
    ensures Numbered(made, accepted + [frame])
  {}

  lemma ArriveIsNumbered(mac: Mac, sys: System, bytes: Data, library: Library)
    requires Sound(mac, sys)
    requires |bytes| >= 41 && mac(bytes[..|bytes| - 32]) == bytes[|bytes| - 32..] ==> bytes in sys.made
    requires |sys.made| <= UINT64 && Numbered(sys.made, sys.accepted)
    ensures Numbered(sys.made, DoArrive(mac, sys, bytes, library).accepted)
  {
    AcceptedIff(mac, sys, bytes, library);
    MadeFrame(mac, sys.made, bytes, LastNumber(sys.accepted));
    if library.Works? && MadeAfter(sys.made, LastNumber(sys.accepted), bytes) {
      NumberedNext(sys.made, sys.accepted, bytes);
    }
  }

  lemma MakeIsNumbered(made: seq<Data>, more: seq<Data>, accepted: seq<Data>)
    requires Numbered(made, accepted) && made <= more
    ensures Numbered(more, accepted)
  {}

  lemma StepKeepsNumbers(mac: Mac, sys: System, a: Action)
    requires MakesTags(mac)
    ensures KeepsAt(Acting(mac), Genuine(mac), AllNumberedOf(mac), sys, a)
  {
    if AllNumbered(mac, sys) && Genuine(mac)(sys, a) {
      StepIsSound(mac, sys, a);
      var after := Acting(mac)(sys, a);
      if |after.made| <= UINT64 {
        match a {
          case Make(plaintext, body, library) => MakeIsNumbered(sys.made, after.made, sys.accepted);
          case Arrive(bytes, library) => ArriveIsNumbered(mac, sys, bytes, library);
        }
      }
    }
  }

  lemma RunIsNumbered(mac: Mac, actions: seq<Action>)
    requires MakesTags(mac) && Unforged(mac, actions)
    ensures AllNumbered(mac, End(mac, actions))
  {
    forall sys, a
      ensures KeepsAt(Acting(mac), Genuine(mac), AllNumberedOf(mac), sys, a)
    {
      StepKeepsNumbers(mac, sys, a);
    }
    RunKeeps(Acting(mac), Genuine(mac), AllNumberedOf(mac), START, actions);
  }

  function Numbers(frames: seq<Data>): (numbers: seq<nat>)
    ensures |numbers| == |frames|
    ensures forall i :: 0 <= i < |frames| ==> numbers[i] == Number(frames[i])
  {
    seq(|frames|, i requires 0 <= i < |frames| => Number(frames[i]))
  }

  /** Whatever the network drops, repeats, reorders or makes up, and whenever the library fails, the frames
      accepted are frames that were made, in the order they were made, none of them twice and never the
      first. */
  lemma AcceptedIsSubsequence(mac: Mac, actions: seq<Action>) returns (picks: seq<nat>)
    requires MakesTags(mac) && Unforged(mac, actions) && |End(mac, actions).made| <= UINT64
    ensures var end := End(mac, actions);
            && |picks| == |end.accepted|
            && (forall i :: 0 <= i < |picks| ==> 0 < picks[i] < |end.made| && end.accepted[i] == end.made[picks[i]])
            && (forall i, j :: 0 <= i < j < |picks| ==> picks[i] < picks[j])
            && (forall i, j :: 0 <= i < j < |picks| ==> end.accepted[i] != end.accepted[j])
  {
    RunIsNumbered(mac, actions);
    picks := Numbers(End(mac, actions).accepted);
  }

  // ---------- a link that loses nothing and keeps the order ----------

  /** The frames arrive as they were made, each some time after it was made, and the library works when they
      do. */
  function InOrder(): Rule {
    (sys: System, a: Action) =>
      match a
      case Make(plaintext, body, library) => |body| == |plaintext|
      case Arrive(bytes, library) => library.Works? && sys.arrived < |sys.made| && bytes == sys.made[sys.arrived]
  }

  /** The first n frames without the very first. */
  function AllButFirst(made: seq<Data>, n: nat): seq<Data>
    requires n <= |made|
  {
    if n == 0 then [] else made[1..n]
  }

  /** All that arrived was accepted, but not the very first frame. */
  predicate Delivered(sys: System) {
    sys.arrived <= |sys.made| && sys.accepted == AllButFirst(sys.made, sys.arrived)
  }

  lemma LastDelivered(mac: Mac, made: seq<Data>, n: nat)
    requires n <= |made| && MadeInOrder(mac, made)
    ensures LastNumber(AllButFirst(made, n)) == if n == 0 then 0 else n - 1
  {
    if n >= 2 {
      assert AllButFirst(made, n)[n - 2] == made[n - 1];
    }
  }

  lemma AllButFirstNext(made: seq<Data>, n: nat)
    requires n < |made|
    ensures AllButFirst(made, n + 1) == if n == 0 then [] else AllButFirst(made, n) + [made[n]]
  {}

  /** In order, the n-th frame is past the last one accepted, except the very first. */
  lemma NextIsNew(mac: Mac, made: seq<Data>, n: nat)
    requires n < |made| && MadeInOrder(mac, made)
    ensures MadeAfter(made, LastNumber(AllButFirst(made, n)), made[n]) <==> n > 0
  {
    LastDelivered(mac, made, n);
    MadeFrame(mac, made, made[n], LastNumber(AllButFirst(made, n)));
    assert Number(made[n]) == n;
  }

  lemma NextInOrder(mac: Mac, sys: System, n: nat)
    requires Sound(mac, sys) && n == sys.arrived < |sys.made| <= UINT64 && Delivered(sys)
    ensures Delivered(DoArrive(mac, sys, sys.made[n], Works))
  {
    AcceptedIff(mac, sys, sys.made[n], Works);
    NextIsNew(mac, sys.made, n);
    AllButFirstNext(sys.made, n);
  }

  ghost predicate InStep(mac: Mac, sys: System) {
    Sound(mac, sys) && (|sys.made| <= UINT64 ==> Delivered(sys))
  }

  ghost function InStepOf(mac: Mac): System -> bool {
    (sys: System) => InStep(mac, sys)
  }

  lemma MakingKeepsDelivered(sys: System, after: System)
    requires Delivered(sys) && sys.made <= after.made
    requires after.arrived == sys.arrived && after.accepted == sys.accepted
    ensures Delivered(after)
  {
    var n := sys.arrived;
    if n > 0 {
      assert after.made[1..n] == sys.made[1..n];
    }
  }

  lemma StepKeepsOrder(mac: Mac, sys: System, a: Action)
    requires MakesTags(mac)
    ensures KeepsAt(Acting(mac), InOrder(), InStepOf(mac), sys, a)
  {
    if InStep(mac, sys) && InOrder()(sys, a) {
      StepIsSound(mac, sys, a);
      if |sys.made| <= UINT64 {
        match a {
          case Make(plaintext, body, library) => MakingKeepsDelivered(sys, Acting(mac)(sys, a));
          case Arrive(bytes, library) => NextInOrder(mac, sys, sys.arrived);
        }
      }
    }
  }

  /** On such a link every frame that arrives is accepted except the first, which never is. */
  lemma LosslessLink(mac: Mac, actions: seq<Action>)
    requires MakesTags(mac) && Along(Acting(mac), InOrder(), START, actions)
    requires |End(mac, actions).made| <= UINT64
    ensures Delivered(End(mac, actions))
  {
    forall sys, a
      ensures KeepsAt(Acting(mac), InOrder(), InStepOf(mac), sys, a)
    {
      StepKeepsOrder(mac, sys, a);
    }
    RunKeeps(Acting(mac), InOrder(), InStepOf(mac), START, actions);
  }
}
