# Cryptcat: a verified model of its core

Dafny models of eight files of Cryptcat, an encrypted netcat written in C, and proofs about them. Code that
changes state is modelled as methods of classes, or over arrays, and every such method is tied to a function of the
state before it; the properties are then proved of those functions, over all inputs and all runs.

- **Checksum and framing** (`CrcTable`, `ShiftRegister`, `Crc32`, `CrcDetection`, `Bytes`, `Framing`,
  `FramingProofs`). Both copies of the table-driven loop compute the bit-serial CRC of section 8 of RFC 1952. The
  register is linear and each of its steps can be undone, so any change within 32 consecutive bits is detected; 33 bits
  are too many. The messages read back from a plain stream are exactly those whose sending succeeded, and a damaged
  payload is answered CORRUPT exactly when its checksum changed.
- **File transfer** (`FileTransfer`, `TransferProofs`, `TransferChannel`, `FileHeader`). Two step machines, started by
  the file-start message, and a channel that loses, repeats and reorders: the part file is always a prefix of the sender's
  file. Over a lossless channel, however its steps and deliveries interleave, both sides complete after the exact number of
  steps.
- **Configuration** (`ConfigModel`, `ConfigStore`, `ConfigText`, `ConfigTextProofs`, `ConfigLines`, `ConfigFile`). Linked lists of
  linked lists, changed in place, agree with a map of maps over every run; what a saved file brings back when it is
  loaded.
- **Authenticated frames** (`SecureFrames`, `SecureFramesProofs`). What the receiving session accepts under an
  arbitrary network.
- **Memory pool** (`MemoryPool`). Who holds which block, and zeroing, over every use.
- **Codecs and strings** (`Base64`, `Checksum16`, `Tokens`, `TextBuffers`, `StringReplace`, `StringSplit`, `StringEscape`,
  `StringTrim`).

Where the code falls short of what it is for, the code is modelled as it stands and the exact condition is proved under
which it does what it is for:

- `bin_to_base64` loops on `while (len--)`. `Base64.WrittenLoopNeverEncodes` says that this is never right;
  `Base64.BinToBase64` has the loop that is meant, `while (i < len)`.
- `base64_to_bin` begins a byte past the `*len` bytes of its buffer if and only if the text is padded and every character
  before the padding is in the alphabet (`Base64.OverrunsIff`): for the encoding of a byte string, if and only if its length
  is no multiple of three (`Base64.EncodedOverrunsIff`).
- `trim_string` keeps leading blanks. `ConfigText.Trim` models both that trim (`Written`) and the one that is meant
  (`BothEnds`), and the loading of a configuration is proved for both: what was saved comes back exactly if every value is
  empty (`ConfigTextProofs.WrittenTrimRoundTripIff`), a quoted value behind a blank keeps its quotes
  (`ConfigLines.QuotedBehindBlank`), and an indented comment is taken for an entry (`ConfigLines.IndentedComment`).
- Both sequence counters of a session start at 0 and a frame must have a larger number than the last one accepted, so
  frame 0 is never accepted, and every later frame of a lossless link is (`SecureFramesProofs.LosslessLink`).
- The ERROR state does not stop a receiving transfer: it has stopped if and only if its handle is closed
  (`TransferProofs.ErrorStopsIff`), and the phase decides neither what is taken nor what is final
  (`TransferProofs.RunIgnoresPhase`).
- An ERROR message does not end a message stream: `receive_message` hands it over and the next call reads on. Only
  DISCONNECT ends it (`FramingProofs.Crc32StreamRoundTrip`).
- `send_file_chunk_internal` calls itself at the end of the file. That goes on for ever if and only if the file ended before
  the announced size (`TransferProofs.SendEndsUnlessCutShort`).
- `start_file_send` prints into 532 bytes. The file-start message is printed whole if and only if it has fewer than 532
  characters, and a call writes outside the buffer, the size it is given having wrapped, if and only if it has more than 534
  (`FileHeader.PrintHeader`, `FileHeader.HeaderRoundTripIff`).
- `strncpy` cuts long names, so a cut key is not found again and is stored twice (`ConfigModel.SetKeepsUniqueIff`,
  `ConfigModel.CutKeyIsShadowed`).
- `pool_free` of a block that has been freed before changes nothing if and only if the block is not in somebody else's hands
  by then (`MemoryPool.SecondReleaseIff`); otherwise a third caller is handed it too
  (`MemoryPool.StaleReleaseSharesBlock`).
- `str_unescape` undoes `str_escape` if and only if the escape character is special itself or each one in the text is
  followed by a special character; or, where it is NUL, if and only if the text has no special character
  (`StringEscape.EscapeUndoneIff`).
- A receiver's byte count and its part file part for good with the first accepted chunk that is written in part, or that
  makes the 64-bit count wrap (`TransferProofs.RunKeepsInvariantIff`).
- `str_replace` never stops counting if and only if the text that is searched for is empty (`StringReplace.CountEndsIff`).

A pointer into a text that is only read is modelled as what is left of the text from there. Integers are unbounded in
Dafny; widths and wrap-around are written out where the program depends on them.

## Model

| member | source | states |
|---|---|---|
| CrcTable.TableEntry | Cryptcat/src/utils/hex_utils.c:268-312 | Every entry of the 256-entry table is its index after eight steps of the bit-serial division by 0xEDB88320. |
| Crc32.TableStepIsFeed | Cryptcat/src/core/protocol.c:440-442 | One turn of the table loop does to any register what the eight bits of the byte, least significant first, do to the bit-serial register. |
| Crc32.CrcLinear | Cryptcat/src/core/protocol.c:440-442 | The bit step is linear: steps of two registers differ by the step of their difference. |
| Crc32.CrcInjective | Cryptcat/src/core/protocol.c:440-442 | The bit step can be undone: different registers stay different when they take in the same bit. |
| Crc32.PackCancels | Cryptcat/src/core/protocol.c:440-442 | A register that holds the next up to 32 bits is brought to zero by exactly those bits. |
| Crc32.Crc32OfData | Cryptcat/src/utils/hex_utils.c:267-321 | The loop returns the CRC of section 8 of RFC 1952 (all-ones start, reflected division bit by bit, final complement) of every byte string. |
| Crc32.CalculateChecksum | Cryptcat/src/core/protocol.c:386-445 | The second copy, with its early exit, returns the same CRC for every byte string, the empty one included. |
| CrcDetection.BurstDetected | Cryptcat/src/core/protocol.c:440-444 | Two different payloads of equal length that differ only within 32 consecutive bits never have the same checksum. |
| CrcDetection.FourBytesDetected | Cryptcat/src/core/protocol.c:440-444 | In particular any change within four consecutive bytes changes the checksum. |
| CrcDetection.CollisionIffDifferenceVanishes | Cryptcat/src/core/protocol.c:440-444 | Two payloads of equal length have the same checksum if and only if their bitwise difference brings a zero register to zero, whatever the payloads are. |
| CrcDetection.ThirtyThreeBitsUndetected | Cryptcat/src/core/protocol.c:440-444 | The bound of 32 bits is exact: every payload of at least five bytes has a different one within 33 bits with the same checksum. |
| CrcDetection.BitStepIs | Cryptcat/src/core/protocol.c:440-442 | One bit step: the register shifted down, XORed with 0xEDB88320 if the bit that falls out differs from the bit taken in. |
| CrcDetection.CrcIsInverted | Cryptcat/src/core/protocol.c:444 | The checksum is the register after all bits of the payload, from all ones on, with every bit inverted. |
| CrcDetection.CheckValue | Cryptcat/src/utils/hex_utils.c:267-321 | The checksum of the nine digits 123456789 is the published check value 0xCBF43926. |
| FramingProofs.Crc32ValueIs | Cryptcat/src/core/protocol.c:135-149 | The number in the header is that checksum of the very bytes of the payload. |
| Bytes.FourBytes | Cryptcat/src/core/protocol.c:138-142 | A number in the header is the sum of its bytes, the most significant first. |
| Framing.Sender.SendMessage | Cryptcat/src/core/protocol.c:120-165 | The state and size checks, the header with the payload's CRC-32, the bytes appended to the stream, the 64-bit sequence counter, and NETWORK with the connection given up when the writing breaks off, after the counter has moved. |
| Framing.Receiver.ReceiveData | Cryptcat/src/core/network_layer.c:408-439 | A plain read takes at most what was asked for, what has arrived and what the kernel grants, in order; an interrupted read finds nothing, a failing one puts the connection into its error state, and a closed and empty socket closes it. |
| Framing.Receiver.ReceiveMessage | Cryptcat/src/core/protocol.c:168-261 | The reply and the connection after every outcome of the two reads: state, network error, short header, bad header, size, buffer, short payload, checksum, DISCONNECT and ERROR. |
| FramingProofs.HeaderRoundTrip | Cryptcat/src/core/protocol.c:135-154 | Reading the forty header bytes gives back the type, the length and the checksum for all 32-bit values, whatever the time, the sequence number and the padding bytes are. |
| FramingProofs.HeaderTail | Cryptcat/src/core/protocol.c:135-149 | The last sixteen header bytes are the time and the 64-bit sequence number, most significant byte first. |
| FramingProofs.WireLayout | Cryptcat/src/core/protocol.c:132-159 | Where everything stands: magic, version 1.0, type, length, checksum, time, sequence number and payload, byte by byte. |
| FramingProofs.SendIs | Cryptcat/src/core/protocol.c:120-165 | STATE exactly unless READY, SIZE exactly above 65536 bytes, NETWORK exactly when the writing breaks off, SUCCESS otherwise; a refusal changes nothing, and any other call moves the counter. |
| FramingProofs.ReadIs | Cryptcat/src/core/network_layer.c:408-439 | What a read answers in each case; what it hands over is the front of what was waiting, as long as possible. |
| FramingProofs.ReceiveWithoutHeader | Cryptcat/src/core/protocol.c:173-192 | Without a whole header: STATE, NETWORK, CLOSED and MALFORMED, each exactly under its own condition, and no message. |
| FramingProofs.ForeignHeaderRefused | Cryptcat/src/core/protocol.c:194-219 | Forty bytes that do not start with the magic and version 1 are MALFORMED; SIZE and BUFFER are answered exactly for lengths above 65536 and above the buffer; nothing but the forty bytes is taken. |
| FramingProofs.PayloadAnswered | Cryptcat/src/core/protocol.c:221-261 | Behind a header of ours: MALFORMED exactly if the payload is not granted whole, CORRUPT exactly if its checksum is not the announced one, and the message otherwise. |
| FramingProofs.KindsAnswered | Cryptcat/src/core/protocol.c:246-260 | Type 0x40 closes the connection and answers CLOSED, type 0xFF answers PEER, any other SUCCESS; the message is handed over with each. |
| FramingProofs.NumberedInTurn | Cryptcat/src/core/protocol.c:142-143 | The messages of a run carry consecutive sequence numbers, modulo 2^64. |
| FramingProofs.ReceiveWire | Cryptcat/src/core/protocol.c:178-260 | Whatever the kernel does with the two reads, a message on the stream is handed over if and only if the buffer holds it and both reads are granted whole; then it is the one that was sent, and the stream goes on right behind it. |
| FramingProofs.DamageAnswered | Cryptcat/src/core/protocol.c:229-234 | A payload damaged on the way is answered CORRUPT if its checksum changed and delivered if not; the stream goes on behind it either way. |
| FramingProofs.BurstAnsweredCorrupt | Cryptcat/src/core/protocol.c:229-234 | A payload changed within 32 consecutive bits is always answered CORRUPT. |
| FramingProofs.TruncatedWireNotDelivered | Cryptcat/src/core/protocol.c:178-237 | No strict prefix of a message is taken for a message, whatever the kernel grants. |
| FramingProofs.Crc32StreamRoundTrip | Cryptcat/src/core/protocol.c:120-261 | For any sequence of sends, however their writing goes, and any sequence of receiving calls, whatever their buffers and reads: the messages handed over are those that were answered SUCCESS, as the same types and payloads, in order, up to the first DISCONNECT and up to the first call whose buffer is too small or whose reads are not granted whole; that call hands over none, and neither does the one after the last message. |
| FramingProofs.SendAnswers | Cryptcat/src/core/protocol.c:120-165 | As long as no writing has broken off, a message that is too large answers SIZE and any other SUCCESS, or NETWORK where its writing breaks off; every later call answers STATE. |
| FileTransfer.Context.SendFileChunk | Cryptcat/src/core/file_transfer.c:292-353 | One sending step, its self-call included and cut off after so many calls: the next chunk and its number, or the end marker and COMPLETE, or ERROR when the file cannot be read or the send fails. |
| FileTransfer.Context.ReceiveFileChunk | Cryptcat/src/core/file_transfer.c:362-443 | One receiving step under any chunk and any outcome of the write: order, size, short write, progress, and the finish at full length, with the 64-bit byte count and the 32-bit chunk count. |
| FileTransfer.Context.FinishReceiving | Cryptcat/src/core/file_transfer.c:406-439 | The file gets its final name only if it can be read back with the announced digest and the renaming works. |
| FileTransfer.Context.ProcessFileTransfer | Cryptcat/src/core/file_transfer.c:256-289 | Timeout first, then by phase: only a sending transfer takes a step. |
| FileTransfer.Context.CancelFileTransfer | Cryptcat/src/core/file_transfer.c:446-470 | The handle is closed and a receiver's part file removed. |
| TransferProofs.SendChunkIs | Cryptcat/src/core/file_transfer.c:292-353 | Each answer of a sending step exactly under its own condition, the packet that goes with it, and the transfer after it. |
| TransferProofs.ReceiveAnswers | Cryptcat/src/core/file_transfer.c:362-443 | Each answer of a receiving step exactly under its own condition: closed, not the next number, too long, written in part, in progress, not verified, not renamed, complete. |
| TransferProofs.ReceiveLeaves | Cryptcat/src/core/file_transfer.c:362-443 | The part file, the counts, the phase and the handle after each of them. |
| TransferProofs.SuccessIffFinal | Cryptcat/src/core/file_transfer.c:402-439 | SUCCESS is answered if and only if the file has been given its final name. |
| TransferProofs.SuperviseIs | Cryptcat/src/core/file_transfer.c:256-289 | More than thirty seconds after the last activity the answer is TIMEOUT and the phase ERROR; before, each phase has its own answer and nothing changes. |
| TransferProofs.CancelIs | Cryptcat/src/core/file_transfer.c:446-470 | A cancellation removes the part file exactly while receiving, and touches nothing else but the handle and the phase. |
| TransferProofs.SendEndsUnlessCutShort | Cryptcat/src/core/file_transfer.c:292-333 | The self-call at the end of the file ends, with the result of the first call, exactly when the file does not end, without a read error, before the announced size. |
| TransferProofs.SendMakesProgress | Cryptcat/src/core/file_transfer.c:302-352 | A step that goes through sends the end marker when nothing remains, and otherwise brings the remaining byte count down by the size of a non-empty chunk. |
| TransferProofs.StartKeepsInvariant | Cryptcat/src/core/file_transfer.c:229-247 | A receiver starts with an empty part file and nothing counted, in the states the rows below are about. |
| TransferProofs.StartsAtZero | Cryptcat/src/core/file_transfer.c:85-157 | Neither side starts for an empty file; otherwise a sender and a receiver start at byte zero, with nothing counted, active now. |
| TransferProofs.RunKeepsInvariantIff | Cryptcat/src/core/file_transfer.c:367-439 | After any arrivals, supervision calls and cancellations: the byte count is the length of the part file and at most the file size, the part file is the accepted chunks in order, the chunk count is their number, and a final file has full length and the announced digest, if and only if every chunk accepted on the way was written whole, or not at all, and the 64-bit byte count has not wrapped. For every announced size. |
| TransferProofs.ShortWriteBreaksCount | Cryptcat/src/core/file_transfer.c:371-394 | The count agrees with the part file after an arrival if and only if the chunk was refused, not written at all, or written whole without making the count wrap. |
| TransferProofs.ClosedIsFrozen | Cryptcat/src/core/file_transfer.c:367-370 | Once the handle is closed no event changes the content, the counters or the final file. |
| TransferProofs.RenamedOnce | Cryptcat/src/core/file_transfer.c:402-439 | Whatever the writes do, once there is a final file it is the final file for good. |
| TransferProofs.FinalAlwaysVerified | Cryptcat/src/core/file_transfer.c:402-439 | Even when writes fall short, a final file has the announced digest. |
| TransferProofs.ErrorIsNotAbsorbing | Cryptcat/src/core/file_transfer.c:367-383 | One such run: a receiver in ERROR after a chunk that is too long takes the right chunk and completes. |
| TransferProofs.ShortWriteIsTakenAgain | Cryptcat/src/core/file_transfer.c:385-391 | Another: after a short write a receiver in ERROR takes the chunk when it comes again. |
| TransferProofs.ErrorStopsIff | Cryptcat/src/core/file_transfer.c:362-443 | A receiver in ERROR takes no further chunk, under any event and over any run, if and only if its handle is closed. |
| TransferProofs.ErrorOfRunStopsIff | Cryptcat/src/core/file_transfer.c:362-443 | So it is wherever any run of a new receiver, short writes included, has led to ERROR. |
| TransferProofs.RunStaysWritable | Cryptcat/src/core/file_transfer.c:229-443 | Over every run, a receiver whose handle is open has a part file and still misses bytes. |
| TransferProofs.ArrivalIgnoresPhase | Cryptcat/src/core/file_transfer.c:362-443 | A chunk is answered and written in the same way in every phase; the transfer after it differs in the phase at most. |
| TransferProofs.RunIgnoresPhase | Cryptcat/src/core/file_transfer.c:362-443 | Over every run of arrivals, supervision and cancellation the phase at the start decides neither which chunks are taken nor the final file. |
| TransferProofs.OpenStillCompletes | Cryptcat/src/core/file_transfer.c:385-439 | As long as the handle is open, in ERROR too, as many bytes as are missing complete the file if the part file has the announced digest with them. |
| TransferChannel.PrefixSafety | Cryptcat/src/core/file_transfer.c:362-443 | Whatever the channel drops, repeats and reorders and whoever gives up, the part file is a prefix of the sender's file ending at a chunk boundary and the final file is the sender's, for files of at most 2^32 chunks. |
| TransferChannel.WrappedNumbersBreakPrefix | Cryptcat/src/core/file_transfer.c:336-346 | That bound is exact: for every larger size there are a file and a schedule after which the part file is not a prefix. |
| TransferChannel.DigestSafety | Cryptcat/src/core/file_transfer.c:402-439 | With short writes, and for files of any size, a final file still has the digest of the sender's file. |
| TransferChannel.LosslessTransfer | Cryptcat/src/core/file_transfer.c:302-352 | For every interleaving of timely sender steps and deliveries in order: after any number of steps the sender has sent that many chunks of the file, ceil(size/16384) in all, and then one end marker; after d deliveries, however far behind, the receiver's part file is the first d chunks, and after the last one it is COMPLETE with the sender's file. |
| TransferChannel.LosslessAnswer | Cryptcat/src/core/file_transfer.c:302-352 | In such a run a step answers IN_PROGRESS for each chunk and SUCCESS from the end marker on. |
| TransferChannel.CanComplete | Cryptcat/src/core/file_transfer.c:292-443 | However far such a run has come, also when the sender was asked again after COMPLETE, it can be carried on, with exactly the missing steps and deliveries, until the receiver has the file, unless the sender is looked after too late. |
| TransferChannel.AnnouncedIff | Cryptcat/src/core/file_transfer.c:127-250 | The file-start message that is sent for a file starts the receiver for exactly that file under that name if and only if it was printed whole and the name is not empty and has no bar. |
| TransferChannel.AnnouncedSafety | Cryptcat/src/core/file_transfer.c:127-443 | From that message on, whatever the channel does, a final file is the sender's file. |
| TransferChannel.AnnouncedTransfer | Cryptcat/src/core/file_transfer.c:127-443 | And there is a lossless run from that message to the complete file. |
| FileHeader.PrintHeader | Cryptcat/src/core/file_transfer.c:131-146 | The calls of snprintf print name, decimal size and hex digest, separated by bars, into the 532 bytes, cut to 531 characters and a NUL; they stay inside if and only if the text has at most 534 characters. |
| FileHeader.HeaderRoundTripIff | Cryptcat/src/core/file_transfer.c:178-215 | As long as the printing stays inside, the message that is sent gives back name, 64-bit size and digest if and only if it was printed whole and the name is not empty and has no bar. |
| FileHeader.ParseOfParts | Cryptcat/src/core/file_transfer.c:178-215 | Any three fields without bars are read as they stand if the size does not read as zero and the digest has 64 characters; otherwise nothing is read. |
| FileHeader.ParseRefuses | Cryptcat/src/core/file_transfer.c:171-195 | A message that is empty, has 612 characters or more, or no bar, is not read. |
| FileHeader.UnsignedRead | Cryptcat/src/core/file_transfer.c:197-202 | The size is read behind blanks, up to the first character that is no digit, and is 2^64 - 1 if it is too large. |
| FileHeader.SignedRead | Cryptcat/src/core/file_transfer.c:197-202 | Behind a minus sign it is the negative modulo 2^64. |
| FileHeader.DecimalIs | Cryptcat/src/core/file_transfer.c:131-133 | The digits of a printed number, last one first. |
| FileHeader.HexDigitsAre | Cryptcat/src/core/file_transfer.c:136-141 | The digest is printed with the sixteen digits 0 to 9 and a to f, and read in both cases. |
| FileHeader.HexPairIs | Cryptcat/src/core/file_transfer.c:211-215 | Two characters are read as a byte as strtol reads them: digits, or one digit, or one behind a blank or a sign. |
| ConfigStore.SectionNode.FindEntry | Cryptcat/src/utils/config_parser.c:611-620 | The walk returns the node of the first entry of that key, or null. |
| ConfigStore.SectionNode.Put | Cryptcat/src/utils/config_parser.c:292-309 | The value is overwritten in its node or a new node is prepended; the list stays linked, acyclic and complete. |
| ConfigStore.SectionNode.Remove | Cryptcat/src/utils/config_parser.c:358-381 | The link that leads to the entry is made to lead past it; the list is the old one without it. |
| ConfigStore.Config.FindSection | Cryptcat/src/utils/config_parser.c:599-608 | The walk returns the node of the first section of that name, or null. |
| ConfigStore.Config.GetString | Cryptcat/src/utils/config_parser.c:183-202 | The value in the lists, or the default. |
| ConfigStore.Config.SetString | Cryptcat/src/utils/config_parser.c:268-320 | The contents of both kinds of list after setting an entry, cut to the field sizes. |
| ConfigStore.Config.DeleteEntry | Cryptcat/src/utils/config_parser.c:345-382 | The return code and the contents after deleting a key. |
| ConfigStore.Config.RemoveSection | Cryptcat/src/utils/config_parser.c:385-425 | The return code and the contents after unlinking a section. |
| ConfigStore.Config.Clear | Cryptcat/src/utils/config_parser.c:428-452 | Nothing is left. |
| ConfigModel.SetAgreesIff | Cryptcat/src/utils/config_parser.c:268-320 | Setting an entry is setting it in the map of maps if and only if section, key and value fit their fields. |
| ConfigModel.SetKeepsUniqueIff | Cryptcat/src/utils/config_parser.c:268-320 | Names stay unique if and only if no new name is cut, or what the cut leaves is not there yet. |
| ConfigModel.SetAt | Cryptcat/src/utils/config_parser.c:268-320 | An entry or section that is there keeps its place; a new one comes first, cut to 255 characters of a name and 1023 of a value. |
| ConfigModel.GetAt | Cryptcat/src/utils/config_parser.c:183-202 | A get gives the first entry of the key in the first section of the name, and the default if there is none. |
| ConfigModel.DeleteKeyAt | Cryptcat/src/utils/config_parser.c:345-382 | A deletion takes that entry out and says SUCCESS, or says NOT FOUND and changes nothing. |
| ConfigModel.DeleteSectionAt | Cryptcat/src/utils/config_parser.c:385-425 | The same for sections. |
| ConfigModel.GetAgrees | Cryptcat/src/utils/config_parser.c:183-202 | A get gives what the map of maps gives. |
| ConfigModel.DeleteKeyAgrees | Cryptcat/src/utils/config_parser.c:345-382 | With unique names, deleting a key is deleting it in the map of maps, with the same return code. |
| ConfigModel.DeleteSectionAgrees | Cryptcat/src/utils/config_parser.c:385-425 | The same for sections. |
| ConfigModel.RunsAgree | Cryptcat/src/utils/config_parser.c:183-452 | Any run of set, get, delete-key, delete-section and clear within the length limits gives the answers a map of maps gives, ends in lists that stand for that map of maps, and keeps section names and the keys of each section unique. |
| ConfigModel.GetAfterDelete | Cryptcat/src/utils/config_parser.c:345-382 | A get after a delete returns the default, not a shadowed entry. |
| ConfigModel.CutKeyIsShadowed | Cryptcat/src/utils/config_parser.c:292-309 | Past the length limit that fails: for every key that is cut, setting it twice leaves two entries and deleting one uncovers the other. |
| ConfigFile.TrimString | Cryptcat/src/utils/config_parser.c:668-679 | The two pointer loops leave the text without trailing blanks, with its leading ones, and unchanged when it is all blank; nothing behind the text is touched. |
| ConfigFile.Save | Cryptcat/src/utils/config_parser.c:682-708 | The walk over the linked lists writes the header lines, each section, its entries and a blank line. |
| ConfigFile.LoadLine | Cryptcat/src/utils/config_parser.c:99-132 | What one line does to the lists and the current section: comment, blank, section, entry, entry without a section, invalid line. |
| ConfigFile.LoadText | Cryptcat/src/utils/config_parser.c:95-133 | The lists are cleared and the lines taken one buffer at a time. |
| ConfigLines.WrittenTrimIs | Cryptcat/src/utils/config_parser.c:668-679 | The written trim leaves an all blank text as it is and takes the blanks off the end of any other. |
| ConfigLines.QuotedValue | Cryptcat/src/utils/config_parser.c:640-662 | A value in quotes right behind the equals sign is read without them, cut to 1023 characters. |
| ConfigLines.QuotedBehindBlank | Cryptcat/src/utils/config_parser.c:640-662 | Behind a blank it is so only with the trim that is meant; the written one leaves the blank and the quotes. |
| ConfigLines.LineEnds | Cryptcat/src/utils/config_parser.c:102-104 | A line ends at a newline, a carriage return or a NUL. |
| ConfigLines.QuotedEntryLine | Cryptcat/src/utils/config_parser.c:116-128 | An entry is set in the current section, and dropped if there is none yet. |
| ConfigLines.CommentLine | Cryptcat/src/utils/config_parser.c:107-110 | A line that starts with a semicolon or a number sign changes nothing. |
| ConfigLines.IndentedComment | Cryptcat/src/utils/config_parser.c:107-110 | Behind a blank that is so only with the trim that is meant; with the written one such a line is an entry. |
| ConfigLines.InvalidLine | Cryptcat/src/utils/config_parser.c:623-645 | A line without an equals sign, and a section line that is not closed, change nothing. |
| ConfigLines.NamedSectionLine | Cryptcat/src/utils/config_parser.c:116-119 | A section line makes its name the current section, whatever follows the bracket; an empty name changes nothing. |
| ConfigLines.NoKeyLine | Cryptcat/src/utils/config_parser.c:116-128 | A line without a key changes nothing. |
| ConfigLines.LineLengthIs | Cryptcat/src/utils/config_parser.c:99 | A read takes up to a newline, and 2047 characters at most. |
| ConfigLines.LoadedLine | Cryptcat/src/utils/config_parser.c:95-133 | In a file of lines that fit the buffer every line is taken where it stands. |
| ConfigLines.QuotedValueLoaded | Cryptcat/src/utils/config_parser.c:95-133 | A file with one section and one quoted entry loads as that section with that entry, without the quotes. |
| ConfigLines.EntryBeforeSectionLost | Cryptcat/src/utils/config_parser.c:122-125 | An entry before the first section is lost. |
| ConfigLines.SavedText | Cryptcat/src/utils/config_parser.c:682-692 | The saved file starts with the two comment lines and a blank one. |
| ConfigLines.SavedSection | Cryptcat/src/utils/config_parser.c:692-705 | A section is its name in brackets, its entries, and a blank line. |
| ConfigLines.SavedEntry | Cryptcat/src/utils/config_parser.c:697-699 | An entry is its key, an equals sign between blanks, and its value. |
| ConfigTextProofs.LinesTaken | Cryptcat/src/utils/config_parser.c:99-104 | A text of lines that fit the buffer is taken exactly line by line. |
| ConfigTextProofs.SaveThenLoad | Cryptcat/src/utils/config_parser.c:682-708 | Loading a saved file brings the same map of maps back, for names and values that the text form can hold, without sections that have no entries; under the written trim with a blank before each value that is not empty. |
| ConfigTextProofs.MeantTrimRoundTrip | Cryptcat/src/utils/config_parser.c:623-665 | With the both-ends trim, what is loaded is what was saved. |
| ConfigTextProofs.WrittenTrimRoundTripIff | Cryptcat/src/utils/config_parser.c:668-679 | With the trim as it is written, that holds if and only if every value is empty. |
| SecureFrames.Session.EncryptData | Cryptcat/src/core/crypto_engine.c:181-246 | The frame (sequence number, encrypted text, tag over both), or a refusal, a failure of the cipher or of the tag, and the session after it. |
| SecureFrames.Session.DecryptData | Cryptcat/src/core/crypto_engine.c:249-317 | A frame is taken exactly when it is long enough, has a number above the last one, carries its tag and the library works; only then does the session change. |
| SecureFramesProofs.DecryptAnswers | Cryptcat/src/core/crypto_engine.c:249-317 | SUCCESS exactly for a session that was set up and at least 41 bytes whose number is above the last one and whose last 32 are the tag of the rest, while the library works; each other code exactly under its own condition, and with it nothing changes. |
| SecureFramesProofs.ForgedIsRefused | Cryptcat/src/core/crypto_engine.c:286-295 | No frame without its tag is ever taken, and the session stays as it was. |
| SecureFramesProofs.EncryptAnswers | Cryptcat/src/core/crypto_engine.c:181-246 | SUCCESS exactly for 1 to 65536 bytes in a session that was set up, while the library works; the frame is number, encrypted text and tag; with each other code nothing changes. |
| SecureFramesProofs.AcceptedIff | Cryptcat/src/core/crypto_engine.c:272-295 | If tags cannot be made without the key, what arrives is accepted if and only if it is a frame that was made with a number above the last one accepted. |
| SecureFramesProofs.AcceptedIsSubsequence | Cryptcat/src/core/crypto_engine.c:272-317 | Whatever the network drops, repeats, reorders or makes up, the accepted frames are a subsequence of the frames made, strictly increasing, none twice and never frame 0. |
| SecureFramesProofs.CountersCount | Cryptcat/src/core/crypto_engine.c:236-239 | Over every run, forged tags included, the 32-bit byte counters are the total lengths of the frames made and accepted, and the 64-bit send counter their number, modulo their width. |
| SecureFramesProofs.LosslessLink | Cryptcat/src/core/crypto_engine.c:272-317 | When all frames arrive in order, all are accepted but the first. |
| MemoryPool.SecureZero | Cryptcat/src/utils/memory_utils.c:80-87 | The loop leaves a block of zeros. |
| MemoryPool.SecureCompare | Cryptcat/src/utils/memory_utils.c:67-77 | The result is zero if and only if the contents are equal. |
| MemoryPool.Pool.constructor | Cryptcat/src/utils/memory_utils.c:146-178 | A new pool has blocks of that size and number, all different, all zero, none in use. |
| MemoryPool.Pool.AllocateBlock | Cryptcat/src/utils/memory_utils.c:181-193 | The first free block is marked, zeroed and returned, or null. |
| MemoryPool.Pool.FreeBlock | Cryptcat/src/utils/memory_utils.c:196-206 | A block in use is zeroed and unmarked; any other pointer changes nothing. |
| MemoryPool.Reachable | Cryptcat/src/utils/memory_utils.c:181-206 | As long as blocks are given back by those they were handed to: the in-use flags are exactly the blocks somebody holds, no block is handed to two holders at once, and every block nobody holds is zero. |
| MemoryPool.AllocationFailsIff | Cryptcat/src/utils/memory_utils.c:181-193 | Allocation fails if and only if every block is held; otherwise it hands out a zeroed block that nobody held and touches no other. |
| MemoryPool.BlocksAre | Cryptcat/src/utils/memory_utils.c:181-206 | What is handed out is the first free block, marked and zeroed, and what is given back is unmarked and zeroed; no other block is touched. |
| MemoryPool.ReleaseTwice | Cryptcat/src/utils/memory_utils.c:196-206 | Giving back twice in a row changes nothing the second time; giving back a foreign pointer, or a block that is not in use, changes nothing at all. |
| MemoryPool.SecondReleaseIff | Cryptcat/src/utils/memory_utils.c:181-206 | A holder gives back, other holders use the pool in any way, and the first gives back again: that changes nothing, and keeps the pool consistent, if and only if the block has not been handed out in between to somebody who holds it still. |
| MemoryPool.StaleReleaseIsHandedOut | Cryptcat/src/utils/memory_utils.c:181-206 | After such a stale release the next allocation hands the block to a second holder, if no block before it is free. |
| MemoryPool.StaleReleaseSharesBlock | Cryptcat/src/utils/memory_utils.c:181-206 | The shortest such run, in a pool of one block: two holders have the block. |
| MemoryPool.AskThenGiveBack | Cryptcat/src/utils/memory_utils.c:181-206 | Allocating and giving back leaves the pool as it was. |
| Base64.SplitIsShifts | Cryptcat/src/utils/hex_utils.c:173-178 | The four shifts and masks cut a 24-bit group into the four digits of section 4 of RFC 4648. |
| Base64.CharIs | Cryptcat/src/utils/hex_utils.c:153-154 | A digit is written as the character at its place in the sixty-four of section 4 of RFC 4648. |
| Base64.IndexIs | Cryptcat/src/utils/hex_utils.c:195-212 | Exactly those characters are read as digits. |
| Base64.EncodedGroup | Cryptcat/src/utils/hex_utils.c:169-178 | Three bytes are the four characters of their bits, from the top. |
| Base64.EncodedEnd | Cryptcat/src/utils/hex_utils.c:182-186 | One byte left is two characters and two equals signs, two bytes are three and one. |
| Base64.WrittenRound | Cryptcat/src/utils/hex_utils.c:168-179 | A round of the written loop takes the next three bytes while there are enough. |
| Base64.BinToBase64 | Cryptcat/src/utils/hex_utils.c:152-188 | With the loop that is meant, the buffer holds the encoding of section 4 of RFC 4648, its padding and the NUL, and nothing else. |
| Base64.WrittenLoopNeverEncodes | Cryptcat/src/utils/hex_utils.c:168-179 | As it is written the loop writes more than the buffer holds if and only if there are at least two bytes, and for one byte the result is not the encoding. |
| Base64.Base64ToBin | Cryptcat/src/utils/hex_utils.c:215-263 | The four-phase accumulator refuses texts whose length is not a multiple of four, computes the output length, leaves the bytes that the digits of the text make, and writes the byte at *len exactly for the texts of the row on OverrunsIff. |
| Base64.DecodeInto | Cryptcat/src/utils/hex_utils.c:236-261 | The loop writes no further than the bytes its digits complete or begin. |
| Base64.OverrunsIff | Cryptcat/src/utils/hex_utils.c:222-261 | It begins a byte past the output length, one and never more, if and only if the text is padded and every character before the padding is in the alphabet. |
| Base64.EncodedOverrunsIff | Cryptcat/src/utils/hex_utils.c:222-261 | For encoded texts: if and only if the number of bytes is no multiple of three. |
| Base64.FullyDefinedIff | Cryptcat/src/utils/hex_utils.c:215-263 | All promised output bytes are set if and only if every character before the counted padding is in the alphabet. |
| Base64.RoundTrip | Cryptcat/src/utils/hex_utils.c:236-261 | Joining the digits of an encoded text gives the bytes back, in all three cases of padding. |
| Base64.EncodedIsDecoded | Cryptcat/src/utils/hex_utils.c:215-263 | The decoder's output for an encoded text is the bytes that were encoded, with the right length. |
| Checksum16.SimpleChecksum | Cryptcat/src/utils/hex_utils.c:324-337 | The fold loop ends, its sum strictly decreasing, and the result is the complement of the folded 32-bit sum. |
| Checksum16.FoldIsResidue | Cryptcat/src/utils/hex_utils.c:331-334 | Folding gives 0 for 0 and otherwise 1 + (S - 1) mod 65535. |
| Checksum16.ChecksumIsOnesSumIff | Cryptcat/src/utils/hex_utils.c:324-337 | The complement of the checksum is the ones' complement sum of section 4.1 of RFC 1071 if and only if the sum is 0, or its 32-bit remainder is not 0 and it has wrapped a multiple of 65535 times; so always below 2^32. |
| Checksum16.SingleByteDetected | Cryptcat/src/utils/hex_utils.c:324-337 | A change of one byte always changes the checksum, below 2^32. |
| Checksum16.ExchangeUndetected | Cryptcat/src/utils/hex_utils.c:327-329 | Exchanging two bytes never does. |
| StringReplace.StrReplace | Cryptcat/src/utils/string_utils.c:131-171 | The counting pass, cut off after so many turns, and the building pass find the same matches, and the buffer holds exactly the replaced text and its NUL; there is none if the turns do not suffice. |
| StringReplace.SegmentsMakeInput | Cryptcat/src/utils/string_utils.c:138-168 | The input is the segments joined by the text that is searched for. |
| StringReplace.SegmentsAreLeftmost | Cryptcat/src/utils/string_utils.c:138-168 | Each segment but the last ends at the leftmost occurrence, and the last has none. |
| StringReplace.LeftmostIsUnique | Cryptcat/src/utils/string_utils.c:138-168 | No other pieces of the input have that property. |
| StringReplace.SizeIsExact | Cryptcat/src/utils/string_utils.c:146-147 | The size computed in wrapping 64-bit arithmetic is the exact length and one more, also when the replacement is shorter. |
| StringReplace.CountEndsIff | Cryptcat/src/utils/string_utils.c:138-144 | The counting pass ends if and only if the text that is searched for is not empty. |
| StringReplace.TurnsNeeded | Cryptcat/src/utils/string_utils.c:138-144 | Then it needs as many turns as there are segments, and counts the places between them. |
| StringSplit.StrSplit | Cryptcat/src/utils/string_utils.c:174-228 | Both passes find the same tokens, those that repeated calls of strtok find. |
| StringSplit.StrJoin | Cryptcat/src/utils/string_utils.c:243-274 | The computed length is exact and the buffer holds the strings with the delimiter between any two; an entry that is null adds nothing but keeps its delimiters. |
| StringSplit.NullAddsNothing | Cryptcat/src/utils/string_utils.c:243-274 | What null entries add, alone and between two strings. |
| StringSplit.SplitOfJoin | Cryptcat/src/utils/string_utils.c:190-224 | Splitting a join of non-empty tokens without the delimiter gives the tokens back. |
| StringSplit.JoinOfSplit | Cryptcat/src/utils/string_utils.c:243-274 | Joining a split gives the input with delimiter runs collapsed and both ends stripped. |
| StringEscape.StrEscape | Cryptcat/src/utils/string_utils.c:306-333 | The buffer, as long as the input and the number of special characters counted beforehand, holds exactly the escaped text and its NUL. |
| StringEscape.StrUnescape | Cryptcat/src/utils/string_utils.c:336-358 | The buffer holds the text without its unescaped escape characters, up to the NUL. |
| StringEscape.EscapeUndoneIff | Cryptcat/src/utils/string_utils.c:306-358 | Unescaping what escaping leaves gives the text back, if the escape character is not NUL, if and only if it is special itself or every one in the text is followed by a special character; if it is NUL, if and only if the text has no special character. |
| StringEscape.NulEscapeCuts | Cryptcat/src/utils/string_utils.c:306-358 | With NUL for the escape character, `a;b` comes back as `a`. |
| StringTrim.StrTrim | Cryptcat/src/utils/string_utils.c:100-104 | Moving the text down and cutting it leaves the text trimmed at both ends, in place. |
| StringTrim.TrimTakesBlanks | Cryptcat/src/utils/string_utils.c:71-97 | The trimmed text has no blank at either end, and only blanks were taken off. |
| Tokens.BlanksAre | Cryptcat/src/utils/string_utils.c:71-97 | The six characters that count as blanks. |

## Left out

- Sockets, timeouts of the network layer, partial sends, retries, logging, error texts, mutexes: input and output. What the
  kernel grants, the clock, and whether a send or a write goes through are parameters.
- Allocation failures and null arguments: the paths that return early for them are not modelled, except where null is a
  result.
- Freeing memory: what the program frees becomes unreachable in the model.
- The handshake: messages can be sent only in the READY state, which the handshake never reaches with them, so a faithful
  model would have only failing runs.
- Framing over encrypted connections: a header-sized read cuts an encrypted frame, so the framing is stated for plain
  streams.
- FramingProofs.Crc32StreamRoundTrip: what the calls after one that was granted too little make of the rest of the stream, which
  they read from the middle of a message.
- The header layout is that of a 64-bit compiler, forty bytes with one and four unused bytes; other layouts are not modelled.
- The checksum table is stated once, although the repository holds two copies of it with the same entries.
- Twofish, CFB, HMAC, SHA-256, key derivation and random bytes: the tag and the digest are arbitrary functions, and what the
  cipher makes of a text is given with each call.
- SecureFramesProofs.AcceptedIsSubsequence: one direction of a session pair with one key; that a tagged frame which arrives was
  made by the sender is a hypothesis about the network, and at most 2^64 frames are made.
- TransferChannel.PrefixSafety: the file does not change while it is sent, and writes are whole; what holds when they are not
  is in `TransferProofs.RunKeepsInvariantIff`, `TransferProofs.FinalAlwaysVerified` and `TransferChannel.DigestSafety`.
- FileTransfer.Context.SendFileChunk: a read gives a whole chunk, the rest of the file or an error, not a part and then an error,
  after which the position in the file is not defined. A file has fewer than 2^63 bytes, so the sender's byte count does not
  wrap.
- FileHeader.PrintHeader: what the program does after a write outside the buffer.
- TransferChannel.AnnouncedIff: for messages whose printing stays inside the buffer.
- ConfigStore.Config.SetString: locking, the auto-save after a change and the time of the last change are not modelled.
- ConfigFile.LoadLine: `parse_line` is modelled on values; that it cuts the line buffer in place at the separators is not.
- ConfigTextProofs.SaveThenLoad: for names and values without delimiters, quotes around a value, comment leads, line ends and
  outer blanks, within the length limits; the compilation date in the header line has eleven characters. What quoted values
  load as is `ConfigLines.QuotedValue`.
- The number, boolean and list accessors of the configuration, and reloading when the file changed: easy members over the ones
  modelled.
- MemoryPool.Pool.FreeBlock: a pointer into the middle of a block counts as foreign, as in the program.
- Locked memory, secure allocation wrappers and memory statistics: operating system calls.
- StringReplace.StrReplace: the input is shorter than 2^31 characters, since occurrences are counted in an int.
- Hex dumps, `bin_to_hex` and `hex_to_bin`, case folding, number parsing and the predicates on strings: easy members.
