/** A sender and a receiver joined by a channel. The channel may lose, repeat and reorder what the sender
    sends; it does not make chunks up. */
module TransferChannel {
  import opened Wrappers
  import opened Bytes
  import opened FileTransfer
  import opened TransferProofs
  import FileHeader

  // ---------- the chunks of a file ----------

  function Offset(file: Content, k: nat): (n: nat)
    ensures n <= |file|
  {
    if k * CHUNK_SIZE <= |file| then k * CHUNK_SIZE else |file|
  }

  function Piece(file: Content, k: nat): Content {
    file[Offset(file, k)..Offset(file, k + 1)]
  }

  /** The number of chunks: the size divided by the chunk size, rounded up. */
  function Count(file: Content): nat {
    (|file| + CHUNK_SIZE - 1) / CHUNK_SIZE
  }

  ghost predicate ArePieces(file: Content, chunks: seq<Content>) {
    |chunks| <= Count(file) && forall i :: 0 <= i < |chunks| ==> chunks[i] == Piece(file, i)
  }

  lemma {:induction false} PiecesMakePrefix(file: Content, chunks: seq<Content>)
    requires ArePieces(file, chunks)
    ensures Concat(chunks) == file[..Offset(file, |chunks|)]
    decreases |chunks|
  {
    if chunks != [] {
      var k := |chunks| - 1;
      PiecesMakePrefix(file, chunks[..k]);
      assert file[..Offset(file, k)] + Piece(file, k) == file[..Offset(file, k + 1)];
    }
  }

  // ---------- the joint state machine ----------

  /** Both sides, and every packet sent so far. */
  datatype System = System(sender: Transfer, sent: seq<Packet>, receiver: Run)

  datatype Action =
    | SenderStep(now: int, passage: Passage)
    | SenderCancel
    | Deliver(index: nat, now: int, luck: Luck)
    | ReceiverSupervision(now: int)
    | ReceiverCancel

  /** `process_file_transfer` on the sending side; a step that would not end leaves everything as it is. */
  function ProcessSender(t: Transfer, file: Content, passage: Passage, now: int): Sent {
    if now - t.lastActivity <= TRANSFER_TIMEOUT && t.phase == Sending then
      if CutShort(t, file, passage) then Sent(InProgress, t, None) else SendChunk(t, file, passage, now)
    else
      var (status, after) := Supervise(t, now);
      Sent(status, after, None)
  }

  function Post(sent: seq<Packet>, p: Option<Packet>): seq<Packet> {
    if p.Some? then sent + [p.value] else sent
  }

  function Act(sys: System, a: Action, file: Content, hash: Hash): System {
    match a
    case SenderStep(now, passage) =>
      var r := ProcessSender(sys.sender, file, passage, now);
      sys.(sender := r.after, sent := Post(sys.sent, r.packet))
    case SenderCancel => sys.(sender := Cancel(sys.sender))
    case Deliver(index, now, luck) =>
      if index < |sys.sent| && sys.sent[index].Chunk?
      then
        var p := sys.sent[index];
        sys.(receiver := RunStep(sys.receiver, Arrival(p.data, p.number, now, luck), hash))
      else sys
    case ReceiverSupervision(now) => sys.(receiver := RunStep(sys.receiver, Supervision(now), hash))
    case ReceiverCancel => sys.(receiver := RunStep(sys.receiver, Cancellation, hash))
  }

  function ActAll(sys: System, actions: seq<Action>, file: Content, hash: Hash): System
    decreases |actions|
  {
    if actions == [] then sys else ActAll(Act(sys, actions[0], file, hash), actions[1..], file, hash)
  }

  /** The sender has opened the file, and the receiver has taken up what the file-start message says. */
  function Start(file: Content, hash: Hash, now: int): System
    requires file != []
  {
    System(StartSend(file, hash, now).value, [], Run(StartReceive(|file|, hash(file), now).value, []))
  }

  // ---------- what holds of every reachable state ----------

  ghost predicate GoodPacket(file: Content, i: nat, p: Packet) {
    p.Chunk? ==> i < Count(file) && p == Chunk(Piece(file, i), i % UINT32)
  }

  ghost predicate AllGood(file: Content, sent: seq<Packet>) {
    forall i :: 0 <= i < |sent| ==> GoodPacket(file, i, sent[i])
  }

  ghost predicate SenderInvariant(t: Transfer, sent: seq<Packet>, file: Content) {
    && t.fileSize == |file|
    && AllGood(file, sent)
    && (t.phase == Sending ==>
          && t.open && |sent| <= Count(file)
          && t.position == t.transferred == Offset(file, |sent|)
          && t.chunksSent == |sent| % UINT32)
  }

  /** Chunk numbers are 32 bits wide. */
  ghost predicate NumbersSuffice(file: Content) {
    0 < |file| && Count(file) <= UINT32
  }

  ghost predicate Invariant(sys: System, file: Content, hash: Hash) {
    && SenderInvariant(sys.sender, sys.sent, file)
    && ReceiverInvariant(sys.receiver, hash)
    && sys.receiver.t.fileSize == |file|
    && ArePieces(file, sys.receiver.taken)
  }

  ghost predicate WholeWrites(a: Action) {
    a.Deliver? ==> a.luck.written >= CHUNK_SIZE
  }

  lemma NextPiece(t: Transfer, file: Content, k: nat)
    requires t.position == Offset(file, k) < |file|
    ensures k < Count(file) && Offset(file, k) == k * CHUNK_SIZE
    ensures t.position + BytesAhead(t, file) == Offset(file, k + 1)
    ensures file[t.position..t.position + BytesAhead(t, file)] == Piece(file, k)
  {}

  lemma PostKeeps(file: Content, sent: seq<Packet>, p: Option<Packet>)
    requires AllGood(file, sent) && (p.Some? ==> GoodPacket(file, |sent|, p.value))
    ensures AllGood(file, Post(sent, p))
  {}

  lemma StepSends(t: Transfer, file: Content, passage: Passage, now: int)
    requires t.open && t.transferred < t.fileSize && t.position < |file|
    ensures var (r, n) := (SendChunk(t, file, passage, now), BytesAhead(t, file));
            if passage.Through?
            then && r.packet == Some(Chunk(file[t.position..t.position + n], t.chunksSent))
                 && r.after == t.(position := t.position + n, transferred := t.transferred + n,
                                  chunksSent := (t.chunksSent + 1) % UINT32, lastActivity := now)
            else r.packet == None && r.after.phase == Error
  {}

  lemma SentPiece(t: Transfer, sent: seq<Packet>, file: Content, passage: Passage, now: int)
    requires SenderInvariant(t, sent, file) && t.phase == Sending && t.transferred < |file|
    ensures var r := SendChunk(t, file, passage, now);
            && (r.packet.Some? ==>
                  r.packet == Some(Chunk(Piece(file, |sent|), |sent| % UINT32)) && |sent| < Count(file))
            && (r.after.phase == Sending ==>
                  && r.packet.Some?
                  && r.after.position == r.after.transferred == Offset(file, |sent| + 1)
                  && r.after.chunksSent == (|sent| + 1) % UINT32)
  {
    StepSends(t, file, passage, now);
    NextPiece(t, file, |sent|);
    WrapsAlike(|sent|, 1, UINT32);
  }

  lemma SenderStepKeeps(t: Transfer, sent: seq<Packet>, file: Content, passage: Passage, now: int)
    requires SenderInvariant(t, sent, file)
    ensures var r := ProcessSender(t, file, passage, now);
            SenderInvariant(r.after, Post(sent, r.packet), file)
  {
    var r := ProcessSender(t, file, passage, now);
    if t.phase == Sending && t.transferred < |file| {
      SentPiece(t, sent, file, passage, now);
    }
    PostKeeps(file, sent, r.packet);
  }

  /** Only the chunk that comes next in the file can be taken. */
  lemma TakesOnlyNext(r: Run, file: Content, i: nat, e: Event, hash: Hash)
    requires NumbersSuffice(file)
    requires ReceiverInvariant(r, hash) && r.t.fileSize == |file| && ArePieces(file, r.taken)
    requires i < Count(file) && e.Arrival? && e.number == i && Takes(r.t, e)
    ensures i == |r.taken| < Count(file)
  {
    PiecesMakePrefix(file, r.taken);
    assert r.t.transferred == Offset(file, |r.taken|) < |file|;
  }

  lemma DeliverKeeps(r: Run, file: Content, i: nat, now: int, luck: Luck, hash: Hash)
    requires NumbersSuffice(file)
    requires ReceiverInvariant(r, hash) && r.t.fileSize == |file| && ArePieces(file, r.taken)
    requires i < Count(file) && luck.written >= |Piece(file, i)|
    ensures var r1 := RunStep(r, Arrival(Piece(file, i), i, now, luck), hash);
            ReceiverInvariant(r1, hash) && r1.t.fileSize == |file| && ArePieces(file, r1.taken)
  {
    var e := Arrival(Piece(file, i), i, now, luck);
    assert |Piece(file, i)| <= CHUNK_SIZE;
    assert |file| <= UINT32 * CHUNK_SIZE;
    StepKeepsInvariant(r, e, hash);
    if Takes(r.t, e) {
      TakesOnlyNext(r, file, i, e, hash);
    }
  }

  lemma PacketIsPiece(file: Content, i: nat, p: Packet)
    requires NumbersSuffice(file) && GoodPacket(file, i, p) && p.Chunk?
    ensures i < Count(file) && p == Chunk(Piece(file, i), i) && |p.data| <= CHUNK_SIZE
  {}

  lemma ActKeeps(sys: System, a: Action, file: Content, hash: Hash)
    requires NumbersSuffice(file) && Invariant(sys, file, hash) && WholeWrites(a)
    ensures Invariant(Act(sys, a, file, hash), file, hash)
  {
    match a
    case SenderStep(now, passage) => SenderStepKeeps(sys.sender, sys.sent, file, passage, now);
    case SenderCancel =>
    case Deliver(index, now, luck) =>
      if index < |sys.sent| && sys.sent[index].Chunk? {
        PacketIsPiece(file, index, sys.sent[index]);
        DeliverKeeps(sys.receiver, file, index, now, luck, hash);
      }
    case ReceiverSupervision(now) => StepKeepsInvariant(sys.receiver, Supervision(now), hash);
    case ReceiverCancel => StepKeepsInvariant(sys.receiver, Cancellation, hash);
  }

  lemma {:induction false} ActAllKeeps(sys: System, actions: seq<Action>, file: Content, hash: Hash)
    requires NumbersSuffice(file) && Invariant(sys, file, hash)
    requires forall i :: 0 <= i < |actions| ==> WholeWrites(actions[i])
    ensures Invariant(ActAll(sys, actions, file, hash), file, hash)
    decreases |actions|
  {
    if actions != [] {
      ActKeeps(sys, actions[0], file, hash);
      ActAllKeeps(Act(sys, actions[0], file, hash), actions[1..], file, hash);
    }
  }

  /** The receiver's part file is a prefix of the file, ending at a chunk boundary. */
  ghost predicate BoundaryPrefix(part: Content, file: Content) {
    exists k: nat :: k <= Count(file) && part == file[..Offset(file, k)]
  }

  /** Whatever the channel drops, repeats and reorders, and whoever gives up when: the part file is a
      prefix of the sender's file that ends at a chunk boundary, and the renamed file is the sender's. */
  lemma PrefixSafety(file: Content, hash: Hash, now: int, actions: seq<Action>)
    requires NumbersSuffice(file)
    requires forall i :: 0 <= i < |actions| ==> WholeWrites(actions[i])
    ensures var t := ActAll(Start(file, hash, now), actions, file, hash).receiver.t;
            && (t.part.Some? ==> BoundaryPrefix(t.part.value, file))
            && (t.final.Some? ==> t.final.value == file)
  {
    var sys := ActAll(Start(file, hash, now), actions, file, hash);
    assert |file| <= Count(file) * CHUNK_SIZE <= UINT32 * CHUNK_SIZE < UINT64;
    ActAllKeeps(Start(file, hash, now), actions, file, hash);
    PiecesMakePrefix(file, sys.receiver.taken);
    assert file[..|file|] == file;
  }

  /** Even when writes fall short, a file is given its final name only if its digest is the digest of
      the sender's file. */
  lemma {:induction false} DigestSafety(sys: System, actions: seq<Action>, file: Content, hash: Hash)
    requires FinalVerified(sys.receiver.t, hash) && sys.receiver.t.checksum == hash(file)
    ensures var t := ActAll(sys, actions, file, hash).receiver.t;
            t.final.Some? ==> hash(t.final.value) == hash(file)
    decreases |actions|
  {
    if actions != [] {
      DigestSafety(Act(sys, actions[0], file, hash), actions[1..], file, hash);
    }
  }

  // ---------- the lossless channel ----------

  /** What happens between a sender and a receiver that are joined by a lossless channel: sends go through,
      the chunks arrive in order, each some time after it was sent, and are written whole; nobody cancels,
      and nobody is looked after so late that it times out. So far, d chunks have arrived. */
  predicate Lossless(sys: System, actions: seq<Action>, d: nat, file: Content, hash: Hash)
    decreases |actions|
  {
    actions != [] ==>
      && Smooth(sys, actions[0], d)
      && Lossless(Act(sys, actions[0], file, hash), actions[1..], if actions[0].Deliver? then d + 1 else d, file, hash)
  }

  predicate Smooth(sys: System, a: Action, d: nat) {
    match a
    case SenderStep(now, passage) => passage.Through? && now - sys.sender.lastActivity <= TRANSFER_TIMEOUT
    case Deliver(index, now, luck) =>
      index == d < |sys.sent| && sys.sent[d].Chunk? && luck.written >= CHUNK_SIZE && luck.readable && luck.renamed
    case ReceiverSupervision(now) => now - sys.receiver.t.lastActivity <= TRANSFER_TIMEOUT
    case _ => false
  }

  function SenderSteps(actions: seq<Action>): nat {
    if actions == [] then 0 else (if actions[0].SenderStep? then 1 else 0) + SenderSteps(actions[1..])
  }

  function Deliveries(actions: seq<Action>): nat {
    if actions == [] then 0 else (if actions[0].Deliver? then 1 else 0) + Deliveries(actions[1..])
  }

  function Chunks(file: Content, k: nat): (packets: seq<Packet>)
    ensures |packets| == k
    ensures forall i :: 0 <= i < k ==> packets[i] == Chunk(Piece(file, i), i)
  {
    seq(k, i requires 0 <= i < k => Chunk(Piece(file, i), i))
  }

  /** What the sender has sent after so many steps: its chunks in order, and then the end marker, once. */
  function SentAfter(file: Content, hash: Hash, steps: nat): seq<Packet> {
    if steps <= Count(file) then Chunks(file, steps) else Chunks(file, Count(file)) + [End(hash(file))]
  }

  ghost predicate SenderFlow(t: Transfer, sent: seq<Packet>, steps: nat, file: Content, hash: Hash) {
    && SenderInvariant(t, sent, file) && t.checksum == hash(file)
    && sent == SentAfter(file, hash, steps)
    && (if steps <= Count(file) then t.phase == Sending
        else t.phase == Complete && !t.open && t.transferred == |file|)
  }

  ghost predicate ReceiverFlow(r: Run, d: nat, file: Content, hash: Hash) {
    && ReceiverInvariant(r, hash) && r.t.fileSize == |file| && r.t.checksum == hash(file)
    && ArePieces(file, r.taken) && |r.taken| == d
    && r.t.phase == (if d < Count(file) then Receiving else Complete)
  }

  lemma NextChunk(t: Transfer, sent: seq<Packet>, k: nat, now: int, file: Content, hash: Hash)
    requires NumbersSuffice(file) && SenderFlow(t, sent, k, file, hash) && k < Count(file)
    requires now - t.lastActivity <= TRANSFER_TIMEOUT
    ensures var r := ProcessSender(t, file, Through, now);
            r.status == InProgress && r.packet == Some(Chunk(Piece(file, k), k))
            && r.after.phase == Sending && r.after.checksum == t.checksum && r.after.lastActivity == now
  {
    SenderStepKeeps(t, sent, file, Through, now);
    assert Offset(file, k) == k * CHUNK_SIZE < |file|;
  }

  lemma ChunksAppend(file: Content, k: nat)
    ensures Chunks(file, k + 1) == Chunks(file, k) + [Chunk(Piece(file, k), k)]
  {}

  /** One step of the sender: a chunk while there are chunks, then the end marker, then nothing. */
  lemma SenderFlows(t: Transfer, sent: seq<Packet>, steps: nat, now: int, file: Content, hash: Hash)
    requires NumbersSuffice(file) && SenderFlow(t, sent, steps, file, hash)
    requires now - t.lastActivity <= TRANSFER_TIMEOUT
    ensures var r := ProcessSender(t, file, Through, now);
            && SenderFlow(r.after, Post(sent, r.packet), steps + 1, file, hash)
            && r.status == if steps < Count(file) then InProgress else Success
  {
    SenderStepKeeps(t, sent, file, Through, now);
    if steps < Count(file) {
      NextChunk(t, sent, steps, now, file, hash);
      ChunksAppend(file, steps);
    } else if steps == Count(file) {
      assert Offset(file, steps) == |file|;
    }
  }

  /** A fitting chunk that is written whole keeps the receiver going, or completes it when the digest of
      everything received is the announced one. */
  lemma GoodArrival(t: Transfer, data: Content, now: int, luck: Luck, hash: Hash)
    requires t.open && t.part.Some? && t.phase == Receiving
    requires luck.written >= |data| && luck.readable && luck.renamed
    requires t.transferred + |data| <= t.fileSize < UINT64
    requires t.transferred + |data| == t.fileSize ==> hash(t.part.value + data) == t.checksum
    ensures var (status, t1) := ReceiveChunk(t, data, t.chunksReceived, now, luck, hash);
            t1.phase == (if t.transferred + |data| < t.fileSize then Receiving else Complete)
  {
    assert data[..|data|] == data;
  }

  lemma PieceCompletes(r: Run, k: nat, file: Content, hash: Hash)
    requires NumbersSuffice(file) && k < Count(file)
    requires ReceiverInvariant(r, hash) && r.t.fileSize == |file|
    requires ArePieces(file, r.taken) && |r.taken| == k && r.t.phase == Receiving
    ensures r.t.transferred == Offset(file, k) && r.t.chunksReceived == k
    ensures r.t.transferred + |Piece(file, k)| == Offset(file, k + 1)
    ensures r.t.part.Some? && r.t.part.value + Piece(file, k) == file[..Offset(file, k + 1)]
    ensures (Offset(file, k + 1) < |file|) == (k + 1 < Count(file))
    ensures file[..|file|] == file
    ensures |file| < UINT64
  {
    PiecesMakePrefix(file, r.taken);
  }

  /** The next chunk in order is taken. */
  lemma ReceiverFlows(r: Run, d: nat, now: int, luck: Luck, file: Content, hash: Hash)
    requires NumbersSuffice(file) && ReceiverFlow(r, d, file, hash) && d < Count(file)
    requires luck.written >= CHUNK_SIZE && luck.readable && luck.renamed
    ensures ReceiverFlow(RunStep(r, Arrival(Piece(file, d), d, now, luck), hash), d + 1, file, hash)
  {
    var data := Piece(file, d);
    assert |data| <= CHUNK_SIZE;
    DeliverKeeps(r, file, d, now, luck, hash);
    PieceCompletes(r, d, file, hash);
    GoodArrival(r.t, data, now, luck, hash);
  }

  ghost predicate Flow(sys: System, steps: nat, d: nat, file: Content, hash: Hash) {
    SenderFlow(sys.sender, sys.sent, steps, file, hash) && ReceiverFlow(sys.receiver, d, file, hash) && d <= |sys.sent|
  }

  lemma DeliverFlows(sys: System, a: Action, steps: nat, d: nat, file: Content, hash: Hash)
    requires NumbersSuffice(file) && Flow(sys, steps, d, file, hash) && a.Deliver? && Smooth(sys, a, d)
    ensures Flow(Act(sys, a, file, hash), steps, d + 1, file, hash)
  {
    assert sys.sent[d] == Chunk(Piece(file, d), d) && d < Count(file);
    ReceiverFlows(sys.receiver, d, a.now, a.luck, file, hash);
  }

  lemma StepFlows(sys: System, a: Action, steps: nat, d: nat, file: Content, hash: Hash)
    requires NumbersSuffice(file) && Flow(sys, steps, d, file, hash) && Smooth(sys, a, d)
    ensures Flow(Act(sys, a, file, hash), if a.SenderStep? then steps + 1 else steps,
                 if a.Deliver? then d + 1 else d, file, hash)
  {
    match a
    case SenderStep(now, passage) => SenderFlows(sys.sender, sys.sent, steps, now, file, hash);
    case Deliver(index, now, luck) => DeliverFlows(sys, a, steps, d, file, hash);
    case ReceiverSupervision(now) =>
  }

  ghost predicate KeptAt(good: (System, nat, nat) -> bool, sys: System, a: Action, steps: nat, d: nat,
                         file: Content, hash: Hash) {
    good(sys, steps, d) && Smooth(sys, a, d) ==>
      good(Act(sys, a, file, hash), if a.SenderStep? then steps + 1 else steps, if a.Deliver? then d + 1 else d)
  }

  lemma {:induction false} RunKeeps(good: (System, nat, nat) -> bool, sys: System, actions: seq<Action>,
                                    steps: nat, d: nat, file: Content, hash: Hash)
    requires forall s, a, k, e :: KeptAt(good, s, a, k, e, file, hash)
    requires good(sys, steps, d) && Lossless(sys, actions, d, file, hash)
    ensures good(ActAll(sys, actions, file, hash), steps + SenderSteps(actions), d + Deliveries(actions))
    decreases |actions|
  {
    if actions != [] {
      assert KeptAt(good, sys, actions[0], steps, d, file, hash);
      RunKeeps(good, Act(sys, actions[0], file, hash), actions[1..],
               if actions[0].SenderStep? then steps + 1 else steps,
               if actions[0].Deliver? then d + 1 else d, file, hash);
    }
  }

  ghost function FlowOf(file: Content, hash: Hash): (System, nat, nat) -> bool {
    (sys: System, steps: nat, d: nat) => Flow(sys, steps, d, file, hash)
  }

  lemma RunFlows(sys: System, actions: seq<Action>, steps: nat, d: nat, file: Content, hash: Hash)
    requires NumbersSuffice(file) && Flow(sys, steps, d, file, hash) && Lossless(sys, actions, d, file, hash)
    ensures Flow(ActAll(sys, actions, file, hash), steps + SenderSteps(actions), d + Deliveries(actions), file, hash)
  {
    forall s, a, k, e
      ensures KeptAt(FlowOf(file, hash), s, a, k, e, file, hash)
    {
      if Flow(s, k, e, file, hash) && Smooth(s, a, e) {
        StepFlows(s, a, k, e, file, hash);
      }
    }
    RunKeeps(FlowOf(file, hash), sys, actions, steps, d, file, hash);
  }

  lemma StartFlows(file: Content, hash: Hash, begin: int)
    requires NumbersSuffice(file)
    ensures Flow(Start(file, hash, begin), 0, 0, file, hash)
  {
    assert Offset(file, 0) == 0;
    assert |file| <= UINT32 * CHUNK_SIZE;
    assert SentAfter(file, hash, 0) == [];
  }

  /** Over a lossless channel, whatever the order of the sender's steps and the arrivals is and however far
      the receiver lags: the sender sends its chunks, one a step, exactly as many as there are, and with the
      step after them the end marker, once, and completes. The receiver has the chunks that have arrived, and
      with the last of them it completes with the sender's file. */
  lemma LosslessTransfer(file: Content, hash: Hash, begin: int, actions: seq<Action>)
    requires NumbersSuffice(file) && Lossless(Start(file, hash, begin), actions, 0, file, hash)
    ensures var n, steps, d := Count(file), SenderSteps(actions), Deliveries(actions);
            var end := ActAll(Start(file, hash, begin), actions, file, hash);
            var t := end.receiver.t;
            && end.sent == SentAfter(file, hash, steps)
            && end.sender.transferred == Offset(file, if steps < n then steps else n)
            && end.sender.phase == (if steps <= n then Sending else Complete)
            && d <= n && Concat(end.receiver.taken) == file[..Offset(file, d)]
            && t.phase == (if d < n then Receiving else Complete)
            && t.part == (if d < n then Some(file[..Offset(file, d)]) else None)
            && t.final == (if d < n then None else Some(file))
  {
    StartFlows(file, hash, begin);
    RunFlows(Start(file, hash, begin), actions, 0, 0, file, hash);
    var end := ActAll(Start(file, hash, begin), actions, file, hash);
    PiecesMakePrefix(file, end.receiver.taken);
    assert Offset(file, Count(file)) == |file| && file[..|file|] == file;
  }

  /** What the sender's next step answers: IN_PROGRESS for a chunk, SUCCESS for the end marker and ever
      after. */
  lemma LosslessAnswer(file: Content, hash: Hash, begin: int, actions: seq<Action>, now: int)
    requires NumbersSuffice(file) && Lossless(Start(file, hash, begin), actions, 0, file, hash)
    requires Smooth(ActAll(Start(file, hash, begin), actions, file, hash), SenderStep(now, Through), 0)
    ensures ProcessSender(ActAll(Start(file, hash, begin), actions, file, hash).sender, file, Through, now).status
         == if SenderSteps(actions) < Count(file) then InProgress else Success
  {
    StartFlows(file, hash, begin);
    RunFlows(Start(file, hash, begin), actions, 0, 0, file, hash);
    var end := ActAll(Start(file, hash, begin), actions, file, hash);
    SenderFlows(end.sender, end.sent, SenderSteps(actions), now, file, hash);
  }

  // ---------- it can always be completed ----------

  lemma OneMore(sys: System, a: Action, rest: seq<Action>, d: nat, file: Content, hash: Hash)
    requires Smooth(sys, a, d)
    requires Lossless(Act(sys, a, file, hash), rest, if a.Deliver? then d + 1 else d, file, hash)
    ensures var actions := [a] + rest;
            && Lossless(sys, actions, d, file, hash)
            && SenderSteps(actions) == SenderSteps(rest) + (if a.SenderStep? then 1 else 0)
            && Deliveries(actions) == Deliveries(rest) + (if a.Deliver? then 1 else 0)
  {
    assert ([a] + rest)[1..] == rest;
  }

  /** What is missing is sent and delivered: the chunks, and then the end marker. */
  lemma {:induction false} WayToEnd(sys: System, steps: nat, d: nat, now: int, file: Content, hash: Hash)
    returns (actions: seq<Action>)
    requires NumbersSuffice(file) && Flow(sys, steps, d, file, hash)
    requires steps <= Count(file) ==> now - sys.sender.lastActivity <= TRANSFER_TIMEOUT
    ensures Lossless(sys, actions, d, file, hash)
    ensures steps + SenderSteps(actions) == if steps <= Count(file) then Count(file) + 1 else steps
    ensures d + Deliveries(actions) == Count(file)
    decreases if steps <= Count(file) then Count(file) + 1 - steps else 0, Count(file) - d
  {
    var n := Count(file);
    if d < n && d < steps {
      var a := Deliver(d, now, Luck(CHUNK_SIZE, true, true));
      assert sys.sent[d] == Chunk(Piece(file, d), d);
      DeliverFlows(sys, a, steps, d, file, hash);
      var rest := WayToEnd(Act(sys, a, file, hash), steps, d + 1, now, file, hash);
      OneMore(sys, a, rest, d, file, hash);
      actions := [a] + rest;
    } else if steps <= n {
      var a := SenderStep(now, Through);
      SenderFlows(sys.sender, sys.sent, steps, now, file, hash);
      if steps < n {
        NextChunk(sys.sender, sys.sent, steps, now, file, hash);
      }
      var rest := WayToEnd(Act(sys, a, file, hash), steps + 1, d, now, file, hash);
      OneMore(sys, a, rest, d, file, hash);
      actions := [a] + rest;
    } else {
      actions := [];
    }
  }

  lemma DeliveredIsComplete(r: Run, file: Content, hash: Hash)
    requires NumbersSuffice(file) && ReceiverFlow(r, Count(file), file, hash)
    ensures r.t.final == Some(file)
  {
    PiecesMakePrefix(file, r.taken);
    assert Offset(file, Count(file)) == |file| && file[..|file|] == file;
  }

  /** However far such a run has come, it can be carried on until the sender has sent everything and the
      receiver has the file, unless the sender is looked after too late. */
  lemma CanComplete(file: Content, hash: Hash, begin: int, before: seq<Action>, now: int)
    returns (after: seq<Action>)
    requires NumbersSuffice(file) && Lossless(Start(file, hash, begin), before, 0, file, hash)
    requires SenderSteps(before) <= Count(file) ==>
               now - ActAll(Start(file, hash, begin), before, file, hash).sender.lastActivity <= TRANSFER_TIMEOUT
    ensures var (mid, steps) := (ActAll(Start(file, hash, begin), before, file, hash), SenderSteps(before));
            && Lossless(mid, after, Deliveries(before), file, hash)
            && steps + SenderSteps(after) == (if steps <= Count(file) then Count(file) + 1 else steps)
            && Deliveries(before) + Deliveries(after) == Count(file)
            && ActAll(mid, after, file, hash).receiver.t.final == Some(file)
  {
    var steps, d := SenderSteps(before), Deliveries(before);
    StartFlows(file, hash, begin);
    RunFlows(Start(file, hash, begin), before, 0, 0, file, hash);
    var mid := ActAll(Start(file, hash, begin), before, file, hash);
    after := WayToEnd(mid, steps, d, now, file, hash);
    RunFlows(mid, after, steps, d, file, hash);
    DeliveredIsComplete(ActAll(mid, after, file, hash).receiver, file, hash);
  }

  // ---------- the file-start message ----------

  /** The message is one that `start_file_send` may send for the file, its printing inside the buffer. */
  ghost predicate Announces(message: string, name: string, file: Content, hash: Hash) {
    var info := FileHeader.Info(name, |file|, hash(file));
    FileHeader.Sendable(info) && FileHeader.Sent(info, message) && |message| <= 534
  }

  /** Both sides, the receiver started with what `start_file_receive` has read, and the name it has read. */
  function Started(read: Option<FileHeader.Info>, file: Content, hash: Hash, now: int): Option<(string, System)>
    requires file != []
  {
    if read == None then None else
    var t := StartReceive(read.value.size, read.value.digest, now);
    if t == None then None
    else Some((read.value.name, System(StartSend(file, hash, now).value, [], Run(t.value, []))))
  }

  /** Both sides, the receiver started by the message. */
  function Announced(message: string, file: Content, hash: Hash, now: int): Option<(string, System)>
    requires file != []
  {
    Started(FileHeader.Parse(message), file, hash, now)
  }

  lemma StartedIff(read: Option<FileHeader.Info>, name: string, file: Content, hash: Hash, now: int)
    requires file != []
    ensures Started(read, file, hash, now) == Some((name, Start(file, hash, now)))
       <==> read == Some(FileHeader.Info(name, |file|, hash(file)))
  {}

  /** The message starts the receiver for that file under that name exactly when it was printed whole and the
      name is not empty and has no bar. */
  lemma AnnouncedIff(message: string, name: string, file: Content, hash: Hash, now: int)
    requires file != [] && Announces(message, name, file, hash)
    ensures Announced(message, file, hash, now) == Some((name, Start(file, hash, now)))
       <==> |message| < 532 && name != [] && '|' !in name
  {
    FileHeader.HeaderRoundTripIff(FileHeader.Info(name, |file|, hash(file)), message);
    StartedIff(FileHeader.Parse(message), name, file, hash, now);
  }

  /** From the message on: whatever a lossy channel does, the receiver's file is the sender's or is not
      there, under the name that was announced. */
  lemma AnnouncedSafety(message: string, name: string, file: Content, hash: Hash, now: int, actions: seq<Action>)
    requires NumbersSuffice(file) && Announces(message, name, file, hash)
    requires |message| < 532 && name != [] && '|' !in name
    requires forall i :: 0 <= i < |actions| ==> WholeWrites(actions[i])
    ensures Announced(message, file, hash, now).Some? && Announced(message, file, hash, now).value.0 == name
    ensures var final := ActAll(Announced(message, file, hash, now).value.1, actions, file, hash).receiver.t.final;
            final.Some? ==> final.value == file
  {
    AnnouncedIff(message, name, file, hash, now);
    PrefixSafety(file, hash, now, actions);
  }

  /** And a lossless channel brings it across. */
  lemma AnnouncedTransfer(message: string, name: string, file: Content, hash: Hash, now: int)
    returns (actions: seq<Action>)
    requires NumbersSuffice(file) && Announces(message, name, file, hash)
    requires |message| < 532 && name != [] && '|' !in name
    ensures Announced(message, file, hash, now).Some? && Announced(message, file, hash, now).value.0 == name
    ensures var start := Announced(message, file, hash, now).value.1;
            && Lossless(start, actions, 0, file, hash)
            && SenderSteps(actions) == Count(file) + 1 && Deliveries(actions) == Count(file)
            && ActAll(start, actions, file, hash).receiver.t.final == Some(file)
  {
    AnnouncedIff(message, name, file, hash, now);
    actions := CanComplete(file, hash, now, [], now);
  }

  // ---------- when the 32-bit numbers do not suffice ----------

  function Steps(k: nat): seq<Action> {
    seq(k, _ => SenderStep(0, Through))
  }

  lemma {:induction false} SenderRuns(sys: System, k: nat, file: Content, hash: Hash)
    requires SenderInvariant(sys.sender, sys.sent, file)
    requires sys.sender.phase == Sending && sys.sender.lastActivity == 0
    requires |sys.sent| + k <= Count(file) && (forall i :: 0 <= i < |sys.sent| ==> sys.sent[i].Chunk?)
    ensures var sys1 := ActAll(sys, Steps(k), file, hash);
            && SenderInvariant(sys1.sender, sys1.sent, file) && sys1.receiver == sys.receiver
            && |sys1.sent| == |sys.sent| + k && (forall i :: 0 <= i < |sys1.sent| ==> sys1.sent[i].Chunk?)
    decreases k
  {
    if k != 0 {
      var sys1 := Act(sys, SenderStep(0, Through), file, hash);
      SenderStepKeeps(sys.sender, sys.sent, file, Through, 0);
      assert Offset(file, |sys.sent|) == |sys.sent| * CHUNK_SIZE < |file|;
      assert Steps(k)[1..] == Steps(k - 1);
      SenderRuns(sys1, k - 1, file, hash);
    }
  }

  lemma {:induction false} ActAllAppend(sys: System, before: seq<Action>, after: seq<Action>, file: Content, hash: Hash)
    ensures ActAll(sys, before + after, file, hash) == ActAll(ActAll(sys, before, file, hash), after, file, hash)
    decreases |before|
  {
    if before == [] {
      assert before + after == after;
    } else {
      assert (before + after)[1..] == before[1..] + after;
      ActAllAppend(Act(sys, before[0], file, hash), before[1..], after, file, hash);
    }
  }

  /** Zeros where 32-bit numbers reach, and ones behind. */
  function ZerosThenOnes(size: nat): (file: Content)
    ensures |file| == size
  {
    seq(size, i requires 0 <= i < size => if i < UINT32 * CHUNK_SIZE then 0 else 1)
  }

  /** The bound on the size is exact: for every size that takes more than 2^32 chunks there is a file and a
      schedule that drops chunks, and corrupts nothing, after which the part file is not a prefix. The
      chunk whose number has wrapped to 0 is taken for the first one. */
  lemma WrappedNumbersBreakPrefix(size: nat, hash: Hash)
    requires UINT32 * CHUNK_SIZE < size < UINT64
    ensures Count(ZerosThenOnes(size)) > UINT32
    ensures var file := ZerosThenOnes(size);
            var actions := Steps(UINT32 + 1) + [Deliver(UINT32, 0, Luck(CHUNK_SIZE, true, true))];
            var t := ActAll(Start(file, hash, 0), actions, file, hash).receiver.t;
            (forall i :: 0 <= i < |actions| ==> WholeWrites(actions[i]))
            && t.part.Some? && !BoundaryPrefix(t.part.value, file)
  {
    var file := ZerosThenOnes(size);
    var last := Deliver(UINT32, 0, Luck(CHUNK_SIZE, true, true));
    var start := Start(file, hash, 0);
    assert Offset(file, 0) == 0;
    SenderRuns(start, UINT32 + 1, file, hash);
    ActAllAppend(start, Steps(UINT32 + 1), [last], file, hash);
    var sys := ActAll(start, Steps(UINT32 + 1), file, hash);
    assert GoodPacket(file, UINT32, sys.sent[UINT32]);
    var piece := Piece(file, UINT32);
    assert 0 < |piece| <= CHUNK_SIZE && piece[0] == 1;
    assert [] + piece[..|piece|] == piece;
    var t := ActAll(sys, [last], file, hash).receiver.t;
    assert ActAll(sys, [last], file, hash) == Act(sys, last, file, hash) by {
      assert [last][1..] == [];
    }
    assert t.part == Some(piece);
    assert file[0] == 0;
  }
}
