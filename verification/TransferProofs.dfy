/** What each side of a file transfer keeps on its own: the sender's step comes to an end and makes
    progress, and the receiver's counters, part file and final file agree over every run. */
module TransferProofs {
  import opened Wrappers
  import opened Bytes
  import opened FileTransfer

  // ---------- the sender's self-call ----------

  /** Cut off after any number of calls, the sending step gives the same result as after one, and it
      gives a result exactly when the file does not end before the announced size. */
  lemma {:induction false} SendEndsUnlessCutShort(t: Transfer, file: Content, passage: Passage, now: int, calls: nat)
    requires calls >= 1
    ensures SendWithin(t, file, passage, now, calls).Some? <==> !CutShort(t, file, passage)
    ensures SendWithin(t, file, passage, now, calls) == SendWithin(t, file, passage, now, 1)
    decreases calls
  {
    if calls > 1 {
      SendEndsUnlessCutShort(t, file, passage, now, calls - 1);
    }
  }

  function Remaining(t: Transfer): int {
    t.fileSize - t.transferred
  }

  /** A step that goes through either sends the end marker, when nothing remains, or brings the remaining
      byte count down by the bytes of the chunk it sends. */
  lemma SendMakesProgress(t: Transfer, file: Content, now: int)
    requires t.open && !CutShort(t, file, Through)
    ensures var sent := SendChunk(t, file, Through, now);
            if Remaining(t) <= 0
            then sent.status == Success && sent.packet == Some(End(t.checksum)) && !sent.after.open
            else && sent.status == InProgress
                 && sent.packet.Some? && sent.packet.value.Chunk?
                 && 0 < |sent.packet.value.data| <= CHUNK_SIZE
                 && Remaining(sent.after) == Remaining(t) - |sent.packet.value.data|
  {}

  // ---------- what each call answers ----------

  /** What one sending step answers and leaves, when it ends. */
  lemma SendChunkIs(t: Transfer, file: Content, passage: Passage, now: int)
    requires !(t.open && t.transferred < t.fileSize && t.position >= |file| && !passage.ReadError?)
    ensures var r := SendChunk(t, file, passage, now);
            var done, n := t.transferred >= t.fileSize, |file| - t.position;
            var size := if n < 16384 then n else 16384;
            && (r.status == ErrorParam <==> !t.open)
            && (r.status == Success <==> t.open && done && !passage.SendError?)
            && (r.status == ErrorIo <==> t.open && !done && passage.ReadError?)
            && (r.status == ErrorNetwork <==> t.open && passage.SendError?)
            && (r.status == InProgress <==> t.open && !done && passage.Through?)
            && (r.status == ErrorParam ==> r.after == t)
            && (r.status == Success ==>
                  r.packet == Some(End(t.checksum)) && r.after == t.(open := false, phase := Complete))
            && (r.status == ErrorIo || r.status == ErrorNetwork ==>
                  && r.after.phase == Error && r.after.open
                  && r.after.transferred == t.transferred && r.after.chunksSent == t.chunksSent)
            && (r.status == InProgress ==>
                  && r.packet == Some(Chunk(file[t.position..t.position + size], t.chunksSent))
                  && r.after == t.(position := t.position + size, transferred := t.transferred + size,
                                   chunksSent := (t.chunksSent + 1) % 0x1_0000_0000, lastActivity := now))
            && (r.packet.Some? <==> r.status == Success || r.status == InProgress)
  {}

  /** What one receiving step answers: the handle is closed, the number is not the next, the chunk does not
      fit, it was not written whole, or it is taken; and with the last chunk the file does not have the
      announced digest or cannot be read back, cannot be renamed, or is complete. */
  lemma ReceiveAnswers(t: Transfer, data: Content, number: nat, now: int, luck: Luck, hash: Hash)
    ensures var status := ReceiveChunk(t, data, number, now, luck, hash).0;
            var sum := (t.transferred + |data|) % 0x1_0000_0000_0000_0000;
            var taken := t.open && number == t.chunksReceived && sum <= t.fileSize;
            var whole := if t.part.Some? then luck.written >= |data| else data == [];
            var verified := t.part.Some? && luck.readable && hash(t.part.value + data) == t.checksum;
            && (status == ErrorParam <==> !t.open)
            && (status == ErrorOrder <==> t.open && number != t.chunksReceived)
            && (status == ErrorSize <==> t.open && number == t.chunksReceived && sum > t.fileSize)
            && (status == InProgress <==> taken && whole && sum < t.fileSize)
            && (status == ErrorVerify <==> taken && whole && sum == t.fileSize && !verified)
            && (status == ErrorIo <==> taken && (!whole || (sum == t.fileSize && verified && !luck.renamed)))
            && (status == Success <==> taken && whole && sum == t.fileSize && verified && luck.renamed)
  {
    assert data[..|data|] == data;
  }

  /** And what it leaves. */
  lemma ReceiveLeaves(t: Transfer, data: Content, number: nat, now: int, luck: Luck, hash: Hash)
    ensures var (status, t1) := ReceiveChunk(t, data, number, now, luck, hash);
            var sum := (t.transferred + |data|) % 0x1_0000_0000_0000_0000;
            var whole := if t.part.Some? then luck.written >= |data| else data == [];
            && (status == ErrorParam || status == ErrorOrder ==> t1 == t)
            && (status == ErrorSize ==> t1 == t.(phase := Error))
            && (status == InProgress ==>
                  t1 == t.(part := if t.part.Some? then Some(t.part.value + data) else None, transferred := sum,
                           chunksReceived := (t.chunksReceived + 1) % 0x1_0000_0000, lastActivity := now))
            && (status == ErrorIo && !whole ==>
                  t1 == t.(part := if t.part.Some? then Some(t.part.value + data[..luck.written]) else None,
                           phase := Error))
            && (status == ErrorVerify || (status == ErrorIo && whole) ==>
                  && t1.phase == Error && !t1.open && t1.final == t.final
                  && (t.part.Some? ==> t1.part == Some(t.part.value + data)))
            && (status == Success ==>
                  t1.phase == Complete && !t1.open && t1.part == None && t1.final == Some(t.part.value + data))
  {
    assert data[..|data|] == data;
  }

  /** SUCCESS is answered exactly when the file has been given its final name. */
  lemma SuccessIffFinal(t: Transfer, data: Content, number: nat, now: int, luck: Luck, hash: Hash)
    requires t.final == None
    ensures var (status, t1) := ReceiveChunk(t, data, number, now, luck, hash);
            status == Success <==> t1.final.Some?
  {}

  /** More than thirty seconds after the last activity any call of `process_file_transfer` gives up; before,
      a transfer that is not sending is answered by its phase and left alone. */
  lemma SuperviseIs(t: Transfer, now: int)
    ensures var (status, after) := Supervise(t, now);
            var late := now - t.lastActivity > 30;
            && (status == ErrorTimeout <==> late)
            && after == (if late then t.(phase := Error) else t)
            && (!late ==> (status == Success <==> t.phase == Complete))
            && (!late ==> (status == InProgress <==> t.phase == Receiving))
            && (!late ==> (status == ErrorIo <==> t.phase == Error))
            && (!late ==> (status == WasCancelled <==> t.phase == Cancelled))
            && (!late ==> (status == ErrorState <==> t.phase in {Idle, Preparing, Sending}))
  {}

  /** Neither side starts for a file without bytes; otherwise both start at byte zero, with nothing counted. */
  lemma StartsAtZero(file: Content, fileSize: nat, checksum: seq<Byte>, now: int, hash: Hash)
    ensures StartSend(file, hash, now) == None <==> |file| == 0
    ensures StartReceive(fileSize, checksum, now) == None <==> fileSize == 0
    ensures |file| > 0 ==>
              var t := StartSend(file, hash, now).value;
              && t.open && t.phase == Sending && t.fileSize == |file| && t.checksum == hash(file)
              && t.position == t.transferred == t.chunksSent == t.chunksReceived == 0 && t.lastActivity == now
    ensures fileSize > 0 ==>
              var t := StartReceive(fileSize, checksum, now).value;
              && t.open && t.phase == Receiving && t.fileSize == fileSize && t.checksum == checksum
              && t.position == t.transferred == t.chunksSent == t.chunksReceived == 0 && t.lastActivity == now
              && t.part == Some([]) && t.final == None
  {}

  /** A cancellation closes the handle and removes a part file that is being received, and nothing else. */
  lemma CancelIs(t: Transfer)
    ensures var after := Cancel(t);
            && !after.open && after.phase == Cancelled
            && (t.phase == Receiving ==> after.part == None) && (t.phase != Receiving ==> after.part == t.part)
            && after.(open := t.open, phase := t.phase, part := t.part) == t
  {}

  // ---------- the receiver, under arbitrary chunks ----------

  datatype Event =
    | Arrival(data: Content, number: nat, now: int, luck: Luck)
    | Supervision(now: int)
    | Cancellation

  function Step(t: Transfer, e: Event, hash: Hash): Transfer {
    match e
    case Arrival(data, number, now, luck) => ReceiveChunk(t, data, number, now, luck, hash).1
    case Supervision(now) => Supervise(t, now).1
    case Cancellation => Cancel(t)
  }

  /** The receiver and, as history, the chunks it has taken so far. */
  datatype Run = Run(t: Transfer, taken: seq<Content>)

  /** A chunk counts as taken when it is accepted and written whole. */
  predicate Takes(t: Transfer, e: Event) {
    e.Arrival? && Accepts(t, e.data, e.number) && Written(t, e.data, e.luck) == |e.data|
  }

  function RunStep(r: Run, e: Event, hash: Hash): Run {
    Run(Step(r.t, e, hash), if Takes(r.t, e) then r.taken + [e.data] else r.taken)
  }

  function RunAll(r: Run, events: seq<Event>, hash: Hash): Run
    decreases |events|
  {
    if events == [] then r else RunAll(RunStep(r, events[0], hash), events[1..], hash)
  }

  function Concat(chunks: seq<Content>): Content
    decreases |chunks|
  {
    if chunks == [] then [] else Concat(chunks[..|chunks| - 1]) + chunks[|chunks| - 1]
  }

  /** What holds of a receiver between any two events. */
  ghost predicate ReceiverInvariant(r: Run, hash: Hash) {
    HasTaken(r.t, Concat(r.taken), |r.taken|, hash)
  }

  /** The transfer has taken that content, in so many chunks. */
  ghost predicate HasTaken(t: Transfer, content: Content, chunks: nat, hash: Hash) {
    && t.transferred == |content| <= t.fileSize
    && 0 < t.fileSize < UINT64
    && t.chunksReceived == chunks % UINT32
    && (t.open ==> t.part == Some(content) && t.final == None && t.transferred < t.fileSize)
    && (t.part.Some? ==> t.part == Some(content))
    && (t.final.Some? ==>
          && t.final == Some(content) && |content| == t.fileSize && hash(content) == t.checksum
          && t.part == None && !t.open)
    && (t.phase == Receiving ==> t.open)
    && (t.phase == Complete ==> t.final.Some?)
  }

  /** A chunk that is accepted is written whole, or not at all, and does not make the byte count wrap. */
  predicate CountKept(t: Transfer, e: Event) {
    e.Arrival? && Accepts(t, e.data, e.number) ==>
      e.luck.written == 0 || (e.luck.written >= |e.data| && t.transferred + |e.data| < UINT64)
  }

  predicate CountKeptAlong(r: Run, events: seq<Event>, hash: Hash)
    decreases |events|
  {
    events != [] ==> CountKept(r.t, events[0]) && CountKeptAlong(RunStep(r, events[0], hash), events[1..], hash)
  }

  lemma StartKeepsInvariant(fileSize: nat, checksum: seq<Byte>, now: int, hash: Hash)
    requires 0 < fileSize < UINT64
    ensures StartReceive(fileSize, checksum, now).Some?
    ensures ReceiverInvariant(Run(StartReceive(fileSize, checksum, now).value, []), hash)
    ensures var t := StartReceive(fileSize, checksum, now).value; FinalClosed(t) && Writable(t)
  {}

  lemma ConcatAppend(chunks: seq<Content>, c: Content)
    ensures Concat(chunks + [c]) == Concat(chunks) + c
  {
    assert (chunks + [c])[..|chunks|] == chunks;
  }

  /** The transfer with one chunk more in its part file. */
  function Longer(t: Transfer, content: Content, data: Content, now: int): Transfer {
    t.(part := Some(content + data), transferred := (t.transferred + |data|) % UINT64,
       chunksReceived := (t.chunksReceived + 1) % UINT32, lastActivity := now)
  }

  /** What becomes of it: it goes on, or is finished. */
  function Continued(t: Transfer, content: Content, data: Content, now: int, luck: Luck, hash: Hash): Transfer {
    var longer := Longer(t, content, data, now);
    if longer.transferred >= t.fileSize then Finish(longer.(open := false), luck, hash).1 else longer
  }

  lemma TakenIsWritten(t: Transfer, content: Content, e: Event, hash: Hash)
    requires t.open && t.part == Some(content) && Takes(t, e)
    ensures Step(t, e, hash) == Continued(t, content, e.data, e.now, e.luck, hash)
  {
    assert e.data[..|e.data|] == e.data;
  }

  lemma ContinuedHasTaken(t: Transfer, content: Content, chunks: nat, data: Content, now: int, luck: Luck, hash: Hash)
    requires HasTaken(t, content, chunks, hash) && t.open && t.transferred + |data| <= t.fileSize
    ensures HasTaken(Continued(t, content, data, now, luck, hash), content + data, chunks + 1, hash)
  {
    WrapsAlike(chunks, 1, UINT32);
    RemainderIs(t.transferred + |data|, 0, t.transferred + |data|, UINT64);
  }

  lemma TakenKeepsInvariant(r: Run, e: Event, hash: Hash)
    requires ReceiverInvariant(r, hash) && Takes(r.t, e)
    requires r.t.transferred + |e.data| <= r.t.fileSize
    ensures ReceiverInvariant(RunStep(r, e, hash), hash)
  {
    var content := Concat(r.taken);
    ConcatAppend(r.taken, e.data);
    TakenIsWritten(r.t, content, e, hash);
    ContinuedHasTaken(r.t, content, |r.taken|, e.data, e.now, e.luck, hash);
    var after := RunStep(r, e, hash);
    assert after.t == Continued(r.t, content, e.data, e.now, e.luck, hash);
    assert Concat(after.taken) == content + e.data && |after.taken| == |r.taken| + 1;
  }

  lemma StepKeepsInvariant(r: Run, e: Event, hash: Hash)
    requires ReceiverInvariant(r, hash) && CountKept(r.t, e)
    ensures ReceiverInvariant(RunStep(r, e, hash), hash)
    ensures RunStep(r, e, hash).t.fileSize == r.t.fileSize
  {
    if Takes(r.t, e) {
      TakenKeepsInvariant(r, e, hash);
    } else if r.t.part.Some? && e.Arrival? {
      assert r.t.part.value + e.data[..0] == r.t.part.value;
    }
  }

  /** So many bytes were taken that the byte count has wrapped, or the file holds more than were taken. */
  ghost predicate Exceeds(t: Transfer, taken: nat) {
    || taken >= UINT64
    || (t.part.Some? && |t.part.value| > taken && t.phase != Receiving)
    || (t.final.Some? && |t.final.value| > taken && !t.open)
  }

  ghost predicate Astray(r: Run) {
    Exceeds(r.t, |Concat(r.taken)|)
  }

  lemma StillExceeds(t: Transfer, taken: nat, e: Event, hash: Hash)
    requires Exceeds(t, taken)
    ensures Exceeds(Step(t, e, hash), if Takes(t, e) then taken + |e.data| else taken)
  {}

  lemma StepStaysAstray(r: Run, e: Event, hash: Hash)
    requires Astray(r)
    ensures Astray(RunStep(r, e, hash))
  {
    StillExceeds(r.t, |Concat(r.taken)|, e, hash);
    if Takes(r.t, e) {
      ConcatAppend(r.taken, e.data);
    }
  }

  lemma {:induction false} RunStaysAstray(r: Run, events: seq<Event>, hash: Hash)
    requires Astray(r)
    ensures Astray(RunAll(r, events, hash))
    decreases |events|
  {
    if events != [] {
      StepStaysAstray(r, events[0], hash);
      RunStaysAstray(RunStep(r, events[0], hash), events[1..], hash);
    }
  }

  lemma StepGoesAstray(r: Run, e: Event, hash: Hash)
    requires ReceiverInvariant(r, hash) && !CountKept(r.t, e)
    ensures Astray(RunStep(r, e, hash))
  {
    if Takes(r.t, e) {
      ConcatAppend(r.taken, e.data);
    }
  }

  /** After any arrivals, supervision calls and cancellations: the byte count is the length of what was
      taken, the part file is exactly the chunks taken in order, the chunk count is their number, and a final
      file exists only at full length and with the announced digest, exactly when every chunk accepted on
      the way was written whole, or not at all, and the byte count has not wrapped. */
  lemma {:induction false} RunKeepsInvariantIff(r: Run, events: seq<Event>, hash: Hash)
    requires ReceiverInvariant(r, hash)
    ensures ReceiverInvariant(RunAll(r, events, hash), hash) <==> CountKeptAlong(r, events, hash)
    decreases |events|
  {
    if events != [] {
      var next := RunStep(r, events[0], hash);
      if CountKept(r.t, events[0]) {
        StepKeepsInvariant(r, events[0], hash);
        RunKeepsInvariantIff(next, events[1..], hash);
      } else {
        StepGoesAstray(r, events[0], hash);
        RunStaysAstray(next, events[1..], hash);
      }
    }
  }

  /** An open receiver's byte count still agrees with its part file after an arrival exactly when the chunk
      was refused, or not written at all, or written whole without making the count wrap. */
  lemma ShortWriteBreaksCount(t: Transfer, data: Content, number: nat, now: int, luck: Luck, hash: Hash)
    requires t.open && t.part.Some? && t.transferred == |t.part.value| < UINT64
    ensures var t1 := ReceiveChunk(t, data, number, now, luck, hash).1;
            var content := if t1.final.Some? && t1.part == None then t1.final.value
                           else if t1.part.Some? then t1.part.value else [];
            t1.transferred == |content| <==>
              CountKept(t, Arrival(data, number, now, luck))
  {}

  // ---------- nothing moves once the handle is closed ----------

  ghost predicate Closed(t: Transfer) {
    !t.open && t.phase != Receiving
  }

  lemma {:induction false} ClosedIsFrozen(r: Run, events: seq<Event>, hash: Hash)
    requires Closed(r.t)
    ensures var r1 := RunAll(r, events, hash);
            && Closed(r1.t) && r1.taken == r.taken
            && r1.t.part == r.t.part && r1.t.final == r.t.final
            && r1.t.transferred == r.t.transferred && r1.t.chunksReceived == r.t.chunksReceived
    decreases |events|
  {
    if events != [] {
      ClosedIsFrozen(RunStep(r, events[0], hash), events[1..], hash);
    }
  }

  lemma {:induction false} RunAppend(r: Run, before: seq<Event>, after: seq<Event>, hash: Hash)
    ensures RunAll(r, before + after, hash) == RunAll(RunAll(r, before, hash), after, hash)
    decreases |before|
  {
    if before == [] {
      assert before + after == after;
    } else {
      assert (before + after)[1..] == before[1..] + after;
      RunAppend(RunStep(r, before[0], hash), before[1..], after, hash);
    }
  }

  ghost predicate FinalClosed(t: Transfer) {
    t.final.Some? ==> Closed(t)
  }

  lemma {:induction false} RunKeepsFinalClosed(r: Run, events: seq<Event>, hash: Hash)
    requires FinalClosed(r.t)
    ensures FinalClosed(RunAll(r, events, hash).t)
    decreases |events|
  {
    if events != [] {
      RunKeepsFinalClosed(RunStep(r, events[0], hash), events[1..], hash);
    }
  }

  /** The file is renamed at most once, whatever the writes do: once there is a final file it is the final
      file for good. */
  lemma RenamedOnce(r: Run, before: seq<Event>, after: seq<Event>, hash: Hash)
    requires FinalClosed(r.t)
    requires RunAll(r, before, hash).t.final.Some?
    ensures RunAll(r, before + after, hash).t.final == RunAll(r, before, hash).t.final
  {
    RunAppend(r, before, after, hash);
    RunKeepsFinalClosed(r, before, hash);
    ClosedIsFrozen(RunAll(r, before, hash), after, hash);
  }

  // ---------- whatever the writes do ----------

  ghost predicate FinalVerified(t: Transfer, hash: Hash) {
    t.final.Some? ==> hash(t.final.value) == t.checksum
  }

  /** Even when writes fall short, no file is given its final name without the announced digest. */
  lemma {:induction false} FinalAlwaysVerified(r: Run, events: seq<Event>, hash: Hash)
    requires FinalVerified(r.t, hash)
    ensures FinalVerified(RunAll(r, events, hash).t, hash)
    ensures RunAll(r, events, hash).t.checksum == r.t.checksum
    decreases |events|
  {
    if events != [] {
      FinalAlwaysVerified(RunStep(r, events[0], hash), events[1..], hash);
    }
  }

  // ---------- the state called ERROR ----------

  /** Equal but for the phase, and for a part file that no handle is open on. */
  ghost predicate AlikeButPhase(t: Transfer, u: Transfer) {
    t.(phase := u.phase, part := u.part) == u && (t.open ==> t.part == u.part)
  }

  /** An arriving chunk is answered, taken and written in the same way whatever the phase is. */
  lemma ArrivalIgnoresPhase(t: Transfer, phase: Phase, data: Content, number: nat, now: int, luck: Luck, hash: Hash)
    ensures var (status, t1) := ReceiveChunk(t, data, number, now, luck, hash);
            var (status', t1') := ReceiveChunk(t.(phase := phase), data, number, now, luck, hash);
            status == status' && t1.(phase := t1'.phase) == t1'
  {}

  lemma StepIgnoresPhase(r: Run, u: Transfer, e: Event, hash: Hash)
    requires AlikeButPhase(r.t, u)
    ensures AlikeButPhase(RunStep(r, e, hash).t, RunStep(Run(u, r.taken), e, hash).t)
    ensures RunStep(r, e, hash).taken == RunStep(Run(u, r.taken), e, hash).taken
  {}

  /** So over a whole run the phase decides neither which chunks are taken nor which file is final. */
  lemma {:induction false} RunIgnoresPhase(r: Run, u: Transfer, events: seq<Event>, hash: Hash)
    requires AlikeButPhase(r.t, u)
    ensures var (r1, u1) := (RunAll(r, events, hash), RunAll(Run(u, r.taken), events, hash));
            && AlikeButPhase(r1.t, u1.t) && r1.taken == u1.taken && r1.t.final == u1.t.final
    decreases |events|
  {
    if events != [] {
      StepIgnoresPhase(r, u, events[0], hash);
      RunIgnoresPhase(RunStep(r, events[0], hash), RunStep(Run(u, r.taken), events[0], hash).t, events[1..], hash);
    }
  }

  /** There is a part file behind an open handle, and bytes are missing. */
  ghost predicate Writable(t: Transfer) {
    t.open ==> t.part.Some? && t.transferred < t.fileSize < UINT64
  }

  /** That holds of a new receiver and, whatever arrives, is written or is cancelled, ever after. */
  lemma {:induction false} RunStaysWritable(r: Run, events: seq<Event>, hash: Hash)
    requires Writable(r.t)
    ensures Writable(RunAll(r, events, hash).t)
    decreases |events|
  {
    if events != [] {
      RunStaysWritable(RunStep(r, events[0], hash), events[1..], hash);
    }
  }

  /** One byte with the right number is taken by every open receiver. */
  lemma OpenTakesMore(r: Run, hash: Hash) returns (e: Event)
    requires Writable(r.t) && r.t.open
    ensures |RunStep(r, e, hash).taken| == |r.taken| + 1
    ensures RunAll(r, [e], hash) == RunStep(r, e, hash)
  {
    e := Arrival([0], r.t.chunksReceived, 0, Luck(1, true, true));
    assert Takes(r.t, e);
    assert [e][1..] == [];
  }

  lemma ClosedTakesNothing(r: Run, hash: Hash)
    requires Closed(r.t)
    ensures forall e :: RunStep(r, e, hash).taken == r.taken
    ensures forall events :: RunAll(r, events, hash).taken == r.taken
  {
    forall events
      ensures RunAll(r, events, hash).taken == r.taken
    {
      ClosedIsFrozen(r, events, hash);
    }
  }

  /** A receiver in ERROR has stopped, that is, no events make it take another chunk, exactly when its handle
      is closed. */
  lemma ErrorStopsIff(r: Run, hash: Hash)
    requires Writable(r.t) && r.t.phase == Error
    ensures !r.t.open <==> forall e :: RunStep(r, e, hash).taken == r.taken
    ensures !r.t.open <==> forall events :: RunAll(r, events, hash).taken == r.taken
  {
    if r.t.open {
      var e := OpenTakesMore(r, hash);
      assert RunStep(r, e, hash).taken != r.taken && RunAll(r, [e], hash).taken != r.taken;
    } else {
      ClosedTakesNothing(r, hash);
    }
  }

  /** So it is wherever a run of a new receiver has led to ERROR. */
  lemma ErrorOfRunStopsIff(fileSize: nat, checksum: seq<Byte>, now: int, events: seq<Event>, hash: Hash)
    requires 0 < fileSize < UINT64
    requires RunAll(Run(StartReceive(fileSize, checksum, now).value, []), events, hash).t.phase == Error
    ensures var r := RunAll(Run(StartReceive(fileSize, checksum, now).value, []), events, hash);
            !r.t.open <==> forall more :: RunAll(r, more, hash).taken == r.taken
  {
    var start := Run(StartReceive(fileSize, checksum, now).value, []);
    RunStaysWritable(start, events, hash);
    ErrorStopsIff(RunAll(start, events, hash), hash);
  }

  /** As long as the handle is open, whatever the phase, as many bytes as are missing complete the file if
      it has the announced digest with them. */
  lemma OpenStillCompletes(t: Transfer, rest: Content, now: int, hash: Hash)
    requires Writable(t) && t.open
    requires |rest| == t.fileSize - t.transferred && hash(t.part.value + rest) == t.checksum
    ensures var t1 := ReceiveChunk(t, rest, t.chunksReceived, now, Luck(|rest|, true, true), hash).1;
            t1.phase == Complete && t1.final == Some(t.part.value + rest)
  {
    assert rest[..|rest|] == rest;
  }

  /** One such run: after a chunk that is too long, the right chunk still brings the receiver to COMPLETE. */
  lemma ErrorIsNotAbsorbing(hash: Hash)
    ensures var start := StartReceive(1, hash([7]), 0).value;
            var luck := Luck(2, true, true);
            var t := ReceiveChunk(start, [7, 7], 0, 0, luck, hash).1;
            && t.phase == Error
            && ReceiveChunk(t, [7], 0, 0, luck, hash).1.phase == Complete
  {
    var one: Content := [7];
    assert one[..1] == one && [] + one == one;
  }
  /** Another: a short write leads to ERROR with the handle open, and the chunk is taken when it comes again. */
  lemma ShortWriteIsTakenAgain(hash: Hash)
    ensures var start := StartReceive(10, [], 0).value;
            var t := ReceiveChunk(start, [1, 2], 0, 0, Luck(1, true, true), hash).1;
            && t.phase == Error && t.open
            && ReceiveChunk(t, [1, 2], 0, 0, Luck(2, true, true), hash).1.part == Some([1, 1, 2])
  {
    var two: Content := [1, 2];
    assert two[..2] == two && [] + two[..1] == [1] && [1] + two == [1, 1, 2];
  }
}
