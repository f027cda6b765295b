/** The transfer context of file_transfer.c and its step functions, for the sending and the receiving
    side. SHA-256 is an arbitrary function of the file's bytes; what the operating system decides is a
    parameter: the clock, whether a send goes through, how many bytes a write takes. */
module FileTransfer {
  import opened Wrappers
  import opened Bytes

  const CHUNK_SIZE: nat := 16384
  const TRANSFER_TIMEOUT: int := 30

  type Content = seq<Byte>
  type Hash = Content -> seq<Byte>

  datatype Phase = Idle | Preparing | Sending | Receiving | Complete | Error | Cancelled

  datatype Status =
    | Success | InProgress | ErrorParam | ErrorState | ErrorIo | ErrorNetwork | ErrorSize
    | ErrorOrder | ErrorVerify | ErrorTimeout | WasCancelled

  /** `file_transfer_t`. A sender's open file is read at `position`; a receiver's open file is `part`, and
      `final` is the file under its own name once it has been renamed. */
  datatype Transfer = Transfer(
    phase: Phase,
    open: bool,
    position: nat,
    fileSize: nat,
    transferred: nat,
    chunksSent: nat,
    chunksReceived: nat,
    lastActivity: int,
    checksum: seq<Byte>,
    part: Option<Content>,
    final: Option<Content>)

  datatype Packet = Chunk(data: Content, number: nat) | End(checksum: seq<Byte>)

  /** What the system does during one receiving step: how many bytes the write takes, whether the part
      file can be read back, whether it can be renamed. */
  datatype Luck = Luck(written: nat, readable: bool, renamed: bool)

  // ---------- starting ----------

  function StartSend(file: Content, hash: Hash, now: int): Option<Transfer> {
    if file == [] then None
    else Some(Transfer(Sending, true, 0, |file|, 0, 0, 0, now, hash(file), None, None))
  }

  function StartReceive(fileSize: nat, checksum: seq<Byte>, now: int): Option<Transfer> {
    if fileSize == 0 then None
    else Some(Transfer(Receiving, true, 0, fileSize, 0, 0, 0, now, checksum, Some([]), None))
  }

  // ---------- sending ----------

  /** How one sending step goes: everything works, the file cannot be read, or the message cannot be sent. */
  datatype Passage = Through | ReadError | SendError

  datatype Sent = Sent(status: Status, after: Transfer, packet: Option<Packet>)

  function BytesAhead(t: Transfer, file: Content): nat {
    if t.position >= |file| then 0
    else if |file| - t.position < CHUNK_SIZE then |file| - t.position
    else CHUNK_SIZE
  }

  /** `send_file_chunk_internal`, which calls itself at the end of the file, cut off after so many calls:
      None when the calls do not suffice. The byte count is that of bytes read from a file, which are fewer
      than 2^63, so it does not wrap. */
  function SendWithin(t: Transfer, file: Content, passage: Passage, now: int, calls: nat): Option<Sent>
    decreases calls
  {
    if calls == 0 then None
    else if !t.open then Some(Sent(ErrorParam, t, None))
    else if t.transferred >= t.fileSize then
      if passage.SendError? then Some(Sent(ErrorNetwork, t.(phase := Error), None))
      else Some(Sent(Success, t.(open := false, phase := Complete), Some(End(t.checksum))))
    else if passage.ReadError? then Some(Sent(ErrorIo, t.(phase := Error), None))
    else
      var n := BytesAhead(t, file);
      if n == 0 then SendWithin(t, file, passage, now, calls - 1)
      else
        var t1 := t.(position := t.position + n);
        if passage.SendError? then Some(Sent(ErrorNetwork, t1.(phase := Error), None))
        else Some(Sent(InProgress,
                       t1.(transferred := t.transferred + n,
                           chunksSent := (t.chunksSent + 1) % UINT32,
                           lastActivity := now),
                       Some(Chunk(file[t.position..t.position + n], t.chunksSent))))
  }

  /** The result of a call, if there is one, with the transfer after it. */
  function Outcome(result: Option<(Status, Option<Packet>)>, after: Transfer): Option<Sent> {
    if result == None then None else Some(Sent(result.value.0, after, result.value.1))
  }

  /** The file ended, without an error, before the announced size was reached. */
  predicate CutShort(t: Transfer, file: Content, passage: Passage) {
    t.open && t.transferred < t.fileSize && t.position >= |file| && !passage.ReadError?
  }

  /** The step, when it comes to an end. */
  function SendChunk(t: Transfer, file: Content, passage: Passage, now: int): (sent: Sent)
    requires !CutShort(t, file, passage)
  {
    SendWithin(t, file, passage, now, 1).value
  }

  // ---------- receiving ----------

  predicate Accepts(t: Transfer, data: Content, number: nat) {
    && t.open
    && number == t.chunksReceived
    && (t.transferred + |data|) % UINT64 <= t.fileSize
  }

  function Written(t: Transfer, data: Content, luck: Luck): (n: nat)
    ensures n <= |data|
  {
    if t.part == None then 0 else if luck.written <= |data| then luck.written else |data|
  }

  function Write(t: Transfer, data: Content, luck: Luck): Transfer {
    if t.part == None then t else t.(part := Some(t.part.value + data[..Written(t, data, luck)]))
  }

  /** `receive_file_chunk_internal`. */
  function ReceiveChunk(t: Transfer, data: Content, number: nat, now: int, luck: Luck, hash: Hash): (Status, Transfer) {
    if !t.open then (ErrorParam, t)
    else if number != t.chunksReceived then (ErrorOrder, t)
    else if !Accepts(t, data, number) then (ErrorSize, t.(phase := Error))
    else
      var t1 := Write(t, data, luck);
      if Written(t, data, luck) != |data| then (ErrorIo, t1.(phase := Error))
      else
        var t2 := t1.(transferred := (t.transferred + |data|) % UINT64,
                      chunksReceived := (t.chunksReceived + 1) % UINT32,
                      lastActivity := now);
        if t2.transferred >= t2.fileSize then Finish(t2.(open := false), luck, hash) else (InProgress, t2)
  }

  /** The file is closed, its digest compared, and its name changed. */
  function Finish(t: Transfer, luck: Luck, hash: Hash): (Status, Transfer) {
    if t.part == None || !luck.readable || hash(t.part.value) != t.checksum then (ErrorVerify, t.(phase := Error))
    else if !luck.renamed then (ErrorIo, t.(phase := Error))
    else (Success, t.(phase := Complete, part := None, final := t.part))
  }

  // ---------- supervision ----------

  /** `process_file_transfer` apart from its call of the sending step. */
  function Supervise(t: Transfer, now: int): (Status, Transfer) {
    if now - t.lastActivity > TRANSFER_TIMEOUT then (ErrorTimeout, t.(phase := Error))
    else
      match t.phase
      case Receiving => (InProgress, t)
      case Complete => (Success, t)
      case Error => (ErrorIo, t)
      case Cancelled => (WasCancelled, t)
      case _ => (ErrorState, t)
  }

  /** `cancel_file_transfer`. */
  function Cancel(t: Transfer): Transfer {
    t.(open := false, phase := Cancelled, part := if t.phase == Receiving then None else t.part)
  }

  // ---------- the struct, updated in place ----------

  class Context {
    var phase: Phase
    var open: bool
    var position: nat
    var fileSize: nat
    var transferred: nat
    var chunksSent: nat
    var chunksReceived: nat
    var lastActivity: int
    var checksum: seq<Byte>
    var part: Option<Content>
    var final: Option<Content>

    function View(): Transfer
      reads this
    {
      Transfer(phase, open, position, fileSize, transferred, chunksSent, chunksReceived, lastActivity,
               checksum, part, final)
    }

    constructor (t: Transfer)
      ensures View() == t
    {
      phase, open, position, fileSize := t.phase, t.open, t.position, t.fileSize;
      transferred, chunksSent, chunksReceived := t.transferred, t.chunksSent, t.chunksReceived;
      lastActivity, checksum, part, final := t.lastActivity, t.checksum, t.part, t.final;
    }

    /** `send_file_chunk_internal`, cut off after so many calls: no result when they do not suffice. */
    method SendFileChunk(file: Content, passage: Passage, now: int, calls: nat)
      returns (result: Option<(Status, Option<Packet>)>)
      modifies this
      ensures Outcome(result, View()) == SendWithin(old(View()), file, passage, now, calls)
      ensures result == None ==> View() == old(View())
      decreases calls
    {
      if calls == 0 {
        return None;
      }
      if !open {
        return Some((ErrorParam, None));
      }
      if transferred >= fileSize {
        if passage.SendError? {
          phase := Error;
          return Some((ErrorNetwork, None));
        }
        open := false;
        phase := Complete;
        return Some((Success, Some(End(checksum))));
      }
      if passage.ReadError? {
        phase := Error;
        return Some((ErrorIo, None));
      }
      var n := BytesAhead(View(), file);
      if n == 0 {
        result := SendFileChunk(file, passage, now, calls - 1);
        return;
      }
      var packet := Chunk(file[position..position + n], chunksSent);
      position := position + n;
      if passage.SendError? {
        phase := Error;
        return Some((ErrorNetwork, None));
      }
      transferred := transferred + n;
      chunksSent := (chunksSent + 1) % UINT32;
      lastActivity := now;
      result := Some((InProgress, Some(packet)));
    }

    /** `receive_file_chunk`. */
    method ReceiveFileChunk(data: Content, number: nat, now: int, luck: Luck, hash: Hash) returns (status: Status)
      modifies this
      ensures (status, View()) == ReceiveChunk(old(View()), data, number, now, luck, hash)
    {
      if !open {
        return ErrorParam;
      }
      if number != chunksReceived {
        return ErrorOrder;
      }
      if (transferred + |data|) % UINT64 > fileSize {
        phase := Error;
        return ErrorSize;
      }
      var written := 0;
      if part.Some? {
        written := if luck.written <= |data| then luck.written else |data|;
        part := Some(part.value + data[..written]);
      }
      if written != |data| {
        phase := Error;
        return ErrorIo;
      }
      transferred := (transferred + written) % UINT64;
      chunksReceived := (chunksReceived + 1) % UINT32;
      lastActivity := now;
      if transferred < fileSize {
        return InProgress;
      }
      open := false;
      status := FinishReceiving(luck, hash);
    }

    method FinishReceiving(luck: Luck, hash: Hash) returns (status: Status)
      modifies this
      ensures (status, View()) == Finish(old(View()), luck, hash)
    {
      if part.None? || !luck.readable || hash(part.value) != checksum {
        phase := Error;
        return ErrorVerify;
      }
      if !luck.renamed {
        phase := Error;
        return ErrorIo;
      }
      part, final := None, part;
      phase := Complete;
      status := Success;
    }

    /** `process_file_transfer`. */
    method ProcessFileTransfer(file: Content, passage: Passage, now: int, calls: nat)
      returns (result: Option<(Status, Option<Packet>)>)
      modifies this
      ensures Outcome(result, View())
           == if now - old(lastActivity) <= TRANSFER_TIMEOUT && old(phase) == Sending
              then SendWithin(old(View()), file, passage, now, calls)
              else var (status, after) := Supervise(old(View()), now); Some(Sent(status, after, None))
      ensures result == None ==> View() == old(View())
    {
      if now - lastActivity > TRANSFER_TIMEOUT {
        phase := Error;
        return Some((ErrorTimeout, None));
      }
      match phase {
        case Sending =>
          result := SendFileChunk(file, passage, now, calls);
        case Receiving => return Some((InProgress, None));
        case Complete => return Some((Success, None));
        case Error => return Some((ErrorIo, None));
        case Cancelled => return Some((WasCancelled, None));
        case _ => return Some((ErrorState, None));
      }
    }

    /** `cancel_file_transfer`. */
    method CancelFileTransfer() returns (status: Status)
      modifies this
      ensures status == Success && View() == Cancel(old(View()))
    {
      open := false;
      if phase == Receiving {
        part := None;
      }
      phase := Cancelled;
      status := Success;
    }
  }
}
