# ZX Interface Z: the byte-processing core

A Dafny model of the stateful components of the ZX Interface Z firmware that take bytes in at one
end and must get them out right at the other, with proofs of what they promise over whole runs.
The model keeps the form of the C code: a struct that functions update is a class, a loop is a loop,
a buffer is an array. Every method is proved against a function on values, and the properties are
lemmas about those functions. The concurrent websocket reader is a state machine over its steps.

| files | component |
|---|---|
| `Rle.dfy`, `RleEncoder.dfy`, `RleDecoder.dfy`, `RleTheorems.dfy` | run-length codec for firmware images: host encoder, device decoder |
| `Crc.dfy`, `CrcBursts.dfy`, `CrcParity.dfy` | the CRC-16 of the serial framing and the errors it always detects |
| `Hdlc.dfy`, `HdlcEncoder.dfy`, `HdlcDecoder.dfy`, `HdlcTheorems.dfy`, `HdlcReception.dfy`, `HdlcWire.dfy` | HDLC-like framing after section 4.2 of RFC 1662 |
| `Z80.dfy`, `Z80Stream.dfy` | decompressor for .z80 snapshots, streaming into external RAM |
| `DList.dfy` | doubly linked list on the heap |
| `RingBuffer.dfy` | overwrite-oldest ring buffer |
| `FlashPgm.dfy` | buffered programming of NOR flash |
| `WsReader.dfy`, `WsTrace.dfy` | websocket reader against a concurrent producer |
| `ResourceFifo.dfy` | poll-then-write flow control against a concurrent consumer |
| `Xor.dfy`, `ExtRam.dfy`, `Tap.dfy`, `FastTap.dfy` | saving TAP tapes and fast loading them |
| `Hid.dfy`, `HidParser.dfy`, `HidLayout.dfy`, `HidItems.dfy`, `HidTree.dfy`, `HidUsage.dfy` | HID report-descriptor parser against an encoder of items and collections, section 6.2.2 of the Device Class Definition for HID 1.11 |
| `Buttons.dfy`, `ButtonBounces.dfy` | button debouncing and long presses |
| `Basics.dfy` | bytes and a few facts about sequences |

`dafny verify dfyconfig.toml` checks everything.

## Where the code differs from what one would expect

The model follows the code; for each of these there is a lemma that says exactly when the expected
property holds, or an input that breaks it.

- The frame check sequence is not complemented as in section C.2 of RFC 1662, so a good frame leaves
  the residue 0. A flag ends a frame but does not open the next one, contrary to section 3.1 of that
  document (`HdlcTheorems.SharedFlagLosesSecond`). A frame that fits is received exactly from the
  receptive states (`HdlcReception.ReceivedIffReceptive`).
- Version 1 of the .z80 decompressor takes zeros in pairs and overlooks the end marker after an odd
  one (`Z80.Version1Decodes`, `Z80.MarkerMissed`). A version 1 file without a marker is read for
  ever, and data after the marker in the same chunk is an error (`Z80Stream.HandleBlock`). A version 2
  block of length 0 takes a chunk from the file all the same.
- The header of the ring buffer asks for data no longer than the buffer; the code needs no such limit,
  but for buffers of 32767 to 65534 bytes its 16-bit arithmetic can put the tail out of range
  (`RingBuffer.Ring.Append` says when, `RingBuffer.LosesTail` does it in four calls).
- Flash is erased by the announced length. A longer image is stored only where the old bits allow it
  (`FlashPgm.LongImageStored`).
- The `block` argument of the websocket reader changes nothing: every read waits for all its bytes.
  The reader can deadlock with the producer, and it waits for ever if the websocket is closed before
  enough bytes have arrived (`WsReader.CompletesUnlessBlocked`).
- Saving an empty TAP block and loading it again reports a length of 65535 (`FastTap.ReportedLength`).
  Blocks of every other 16-bit length come back right, 65535 included: the length field wraps on both
  sides.
- Loading no data into the resource FIFO still waits once, and fails if no wait is allowed
  (`ResourceFifo.LoadResourceFifo`).
- Four-byte data in a HID descriptor reads as 0 (`Hid.FourBytesIgnored`). The entry one past the last usage of a field is not
  refused (`HidUsage.UsagePastTheEnd`). A report that outgrows 16 bits wraps
  (`HidLayout.FieldInsideIffNoWrap`), as one of the 14 bytes of `HidLayout.OutgrownIsAccepted` does.

## Model

| member | source | states |
|---|---|---|
| RleEncoder.Compress | esp32/rle.c:13-134 | the on-line encoder writes exactly the serialization of the off-line greedy reference encoding of its whole input |
| RleEncoder.EndsInRun | esp32/rle.c:28-41 | finds out whether the last five buffered bytes are equal |
| RleEncoder.MeasureRun | esp32/rle.c:59-72 | the run goes on as long as the byte repeats, up to MAX_RUN, and the character that ended it |
| RleEncoder.WriteFull | esp32/rle.c:92-107 | a full buffer leaves its first MAX_COPY bytes as a block and keeps the last four |
| RleEncoder.WriteLast | esp32/rle.c:113-131 | the end of the file is written as no, one or two blocks |
| RleEncoder.TakeRun | esp32/rle.c:43-88 | literal and run written at a run are the next tokens of the reference encoding |
| RleEncoder.FlushBuffer | esp32/rle.c:92-107 | the block written at MAX_READ is the next token of the reference encoding, though a run may straddle it |
| RleEncoder.Finish | esp32/rle.c:113-131 | the last blocks complete the reference encoding |
| RleDecoder.Decompress | esp32/main/rle.c:55-116 | the chunked decoder computes Decode: output, remaining count, remaining source, or failure with what was written before |
| RleDecoder.CopyBlock | esp32/main/rle.c:30-53 | copies size bytes, or fails after the complete chunks of a short source |
| RleDecoder.WriteRun | esp32/main/rle.c:86-96 | the chunks of a run add up to count copies of the byte |
| RleTheorems.TokensExpand | esp32/rle.c:13-134 | expanding the reference encoding of any input gives the input |
| RleTheorems.TokensEmitted | esp32/rle.c:28-107 | every emitted token has a legal size and no literal block contains five equal consecutive bytes |
| RleTheorems.LengthFieldsFit | esp32/rle.h:1-4 | every length field the encoder writes fits the signed 16-bit field |
| RleTheorems.DecodeInverts | esp32/main/rle.c:55-116 | the decoder inverts the serialization of any legal token sequence, whatever follows it in the stream |
| RleTheorems.RoundTrip | esp32/main/rle.c:55-116 | for every input, decoding its encoding writes the input, succeeds, leaves the source count at 0 and the rest of the stream untouched |
| RleTheorems.CompressThenDecompress | esp32/rle.c:13-134 | the same for the two programs themselves, with the size bound |
| RleTheorems.DecodeIsGrammar | esp32/main/rle.c:65-114 | a decoding that uses up its count has read exactly a serialized token sequence and written its expansion |
| RleTheorems.WorstCaseSize | esp32/rle.c:42-134 | at most two bytes of overhead per 32767 bytes of input, rounded up: each run pays for the block before it |
| RleTheorems.WorstCaseIsReached | esp32/rle.c:90-134 | inputs without runs meet the bound exactly |
| RleTheorems.TruncatedFails | esp32/main/rle.c:55-116 | a source that ends early is always an error, and what was written is a prefix of the right output |
| RleTheorems.LongestRun | esp32/rle.c:59-72 | 5 to 32771 equal bytes are encoded as one run, more begin with a run of 32771 |
| RleTheorems.CopyInNumbers | esp32/main/rle.c:97-110 | a block with length field n is n + 1 bytes as they are |
| RleTheorems.RunInNumbers | esp32/main/rle.c:78-96 | a block with length field -n is one byte n + 4 times |
| RleTheorems.CutCopyInNumbers | esp32/main/rle.c:30-53 | a block cut short delivers its whole chunks of 128 bytes |
| Crc.UpdateIsEightShifts | esp32/main/hdlc_encoder.c:8-14 | the nibble trick equals eight bit-serial steps of polynomial 0x8408 |
| Crc.ResidueIsBitSerial | esp32/main/hdlc_decoder.c:8-14 | lifted to messages of any length |
| Crc.ChecksOut | esp32/main/hdlc_encoder.c:51-66 | two bytes after a message bring the residue to 0 if and only if they are its check sequence, low byte first |
| CrcBursts.UpdateInjective | esp32/main/hdlc_decoder.c:8-14 | the CRC step is injective in the state |
| CrcBursts.BurstChangesResidue | esp32/main/hdlc_decoder.c:8-14 | messages that differ by a burst of at most 16 bits have the same residue only if they are equal |
| CrcParity.OddFlipsChangeResidue | esp32/main/hdlc_decoder.c:8-14 | messages of the same length that differ in an odd number of bits never have the same residue |
| HdlcEncoder.Encoder.Begin | esp32/main/hdlc_encoder.c:25-30 | resets the check and sends a flag |
| HdlcEncoder.Encoder.Write | esp32/main/hdlc_encoder.c:32-49 | sends the stuffed data, updates the check, returns the number of bytes sent |
| HdlcEncoder.Encoder.End | esp32/main/hdlc_encoder.c:51-66 | sends the stuffed check sequence and a flag, flushes once |
| HdlcEncoder.Encoder.Send | esp32/main/hdlc_encoder.c:25-66 | a frame written in any number of pieces is the frame of their concatenation |
| HdlcEncoder.StuffConcat | esp32/main/hdlc_encoder.c:32-49 | writing a and then b sends the same bytes as writing their concatenation |
| Crc.ResidueConcat | esp32/main/hdlc_encoder.c:32-49 | and leaves the same check |
| HdlcEncoder.Encoder.BeginMem | esp32/main/hdlc_encoder.c:72-77 | the memory variant of Begin, nothing else in memory changes |
| HdlcEncoder.Encoder.WriteMem | esp32/main/hdlc_encoder.c:79-92 | the memory variant of Write emits the same bytes |
| HdlcEncoder.Encoder.WriteMemByte | esp32/main/hdlc_encoder.c:94-104 | the same for one byte |
| HdlcEncoder.Encoder.EndMem | esp32/main/hdlc_encoder.c:106-116 | the memory variant of End |
| HdlcEncoder.Encoder.FrameMem | esp32/main/hdlc_encoder.c:72-116 | a buffer of HDLC_MAX_ENCODE_SIZE always has room for the frame, which is the one the callback encoder sends |
| HdlcEncoder.FrameSize | esp32/main/hdlc_encoder.h:27 | the length of a frame is at most HDLC_MAX_ENCODE_SIZE |
| HdlcEncoder.FlagsOnlyAtEnds | esp32/main/hdlc_encoder.c:32-66 | 0x7E is in a frame exactly at its two ends |
| HdlcDecoder.Decoder.constructor | esp32/main/hdlc_decoder.c:16-29 | the receiver starts out of sync with nothing held |
| HdlcDecoder.Decoder.ProcessFrame | esp32/main/hdlc_decoder.c:31-44 | reports a held frame as good without its last two bytes, or as bad |
| HdlcDecoder.Decoder.Append | esp32/main/hdlc_decoder.c:46-80 | the new state and the handler calls are those of the function Step |
| HdlcDecoder.Decoder.AppendBuffer | esp32/main/hdlc_decoder.c:82-87 | the same for any number of bytes |
| HdlcTheorems.EnclosedBody | esp32/main/hdlc_decoder.c:31-80 | a non-empty body between flags that fits is reported once: delivered if and only if it ends in the check sequence of the rest |
| HdlcTheorems.FrameDelivered | esp32/main/hdlc_decoder.c:46-80 | a ready receiver delivers exactly the payload of a frame that fits and is ready again |
| HdlcTheorems.OutOfSync | esp32/main/hdlc_decoder.c:73-78 | outside a frame every byte but a flag goes to the handler for stray bytes, unchanged and in order |
| HdlcTheorems.FrameTooBig | esp32/main/hdlc_decoder.c:62-67 | a frame that does not fit is one rejection and, one by one, the stray bytes behind the one too many; its closing flag opens the next frame |
| HdlcTheorems.Resynchronises | esp32/main/hdlc_decoder.c:46-87 | from any state one complete frame of any size leaves the receiver ready |
| HdlcTheorems.FramesDelivered | esp32/main/hdlc_decoder.c:46-87 | of any frames a ready receiver delivers exactly those that fit: intact, in order, once |
| HdlcTheorems.LosesAtMostOne | esp32/main/hdlc_decoder.c:46-87 | after any state and any noise at most the first complete frame is lost |
| HdlcTheorems.SharedFlagLosesSecond | esp32/main/hdlc_decoder.c:48-53 | of two frames that share a flag the second arrives as stray bytes |
| HdlcTheorems.BurstRejected | esp32/main/hdlc_decoder.c:31-44 | a body received with a burst of at most 16 bits in error is rejected, never delivered |
| HdlcTheorems.TwoBytesAreABurst | esp32/main/hdlc_decoder.c:31-44 | errors in one byte or in two adjacent bytes are such a burst |
| HdlcTheorems.OddErrorsRejected | esp32/main/hdlc_decoder.c:31-44 | a body received with an odd number of flipped bits, anywhere, is rejected |
| HdlcReception.StaysReachable | esp32/main/hdlc_decoder.c:46-87 | in every state that any bytes lead to, a frame that has only begun has a fresh check |
| HdlcReception.ReceivedIffReceptive | esp32/main/hdlc_decoder.c:46-80 | from any reachable state a frame that fits is received if and only if no other frame is open and no stray escape meets a plain first byte |
| HdlcReception.LostInsideAnother | esp32/main/hdlc_decoder.c:48-53 | a frame that starts inside another one ends it: the other one is reported as it stands, then the bytes of this one as stray |
| HdlcWire.AnyFrame | esp32/main/hdlc_decoder.c:31-80 | what any bytes at all between two flags make a ready receiver report, event for event |
| HdlcWire.Held | esp32/main/hdlc_decoder.c:55-70 | bytes that no encoder need have sent are held as an independent unstuffing says |
| HdlcWire.EscapesInNumbers | esp32/main/hdlc_encoder.c:32-66 | 0x7E and 0x7D are sent as 0x7D 0x5E and 0x7D 0x5D, every other byte as it is |
| HdlcWire.CheckInNumbers | esp32/main/hdlc_encoder.c:8-14 | the check of the digits 1 to 9 is 0x6F91, low byte first |
| HdlcReception.Link | esp32/main/hdlc_encoder.c:25-66 | what an encoder sends in pieces a ready receiver delivers as one payload |
| Z80.RunConcat | esp32/main/sna.c:621-706 | state and output do not depend on how the input is split into chunks |
| Z80.Version2Expands | esp32/main/sna.c:621-706 | version 2 ends idle exactly on complete code and has then written its expansion |
| Z80.Version1Simulates | esp32/main/sna.c:621-706 | up to and including the end marker version 1 is in the corresponding state of version 2 and has written the same but for one held-back zero |
| Z80.MarkedState | esp32/main/sna.c:643-680 | version 1 stops at a marker after complete code if and only if the code has an even number of zeros at its end and no empty run after an odd one |
| Z80.Version1Decodes | esp32/main/sna.c:621-706 | exactly for such code version 1 writes its expansion and stops at the marker |
| Z80.MarkerMissed | esp32/main/sna.c:654-662 | the marker after a single zero is missed |
| Z80.CodeInNumbers | esp32/main/sna.c:621-706 | 0xED 0xED n v is n times v, and every other byte stands for itself |
| Z80Stream.RepcntUnused | esp32/main/sna.c:607-617 | the counter that is not initialised has no influence on output and state |
| Z80Stream.WriteBuffer.Write | esp32/main/sna.c:787-797 | the 128-byte buffer and the memory behind it together hold everything written, in order |
| Z80Stream.WriteBuffer.Flush | esp32/main/sna.c:776-785 | after a flush memory holds everything written and nothing else has changed |
| Z80Stream.Decompressor.Feed | esp32/main/sna.c:627-703 | one byte has the effect of the function Step |
| Z80Stream.Decompressor.Decompress | esp32/main/sna.c:621-706 | a chunk has the effect of the function Run; -1 exactly for data after the end marker |
| Z80Stream.HandleBlock | esp32/main/sna.c:799-859 | the fate of a block from any file for any length: result and memory, errors and endless loop included |
| Z80Stream.Version2Loads | esp32/main/sna.c:799-859 | a version 2 block loads exactly if it is complete code; memory then holds its expansion, all else is unchanged, the result is its length mod 65536 |
| Z80Stream.MarkedFile | esp32/main/sna.c:836-850 | complete code with a marker: the marker is found at the end of the file with the right output if and only if the code is readable |
| Z80Stream.Version1Loads | esp32/main/sna.c:799-859 | a version 1 file of readable code and marker loads its expansion |
| Z80Stream.Version1InNumbers | esp32/main/sna.c:836-850 | a version 1 block loads if and only if its marker ends the file or a chunk of 64 bytes; without one it hangs |
| Z80Stream.ShortFileInNumbers | esp32/main/sna.c:815-835 | a version 2 block in a file that is too short is an error, with the whole buffers of 128 bytes in memory |
| Z80Stream.LengthZeroInNumbers | esp32/main/sna.c:807-850 | a version 2 block of length 0 takes the next 64 bytes of the file |
| DList.Append | esp32/main/list.c:59-74 | refines appending to a sequence, next and prev staying inverse and acyclic |
| DList.InsertBefore | esp32/main/list.c:79-95 | refines insertion in front of a given node |
| DList.InsertSorted | esp32/main/list.c:106-146 | refines insertion in front of the first element that is not greater |
| DList.Unlink | esp32/main/list.c:16-39 | refines removal of a given node; the node keeps its own links |
| DList.RemoveNode | esp32/main/list.c:41-46 | the same with the elements; null removes nothing |
| DList.Remove | esp32/main/list.c:148-165 | refines removal of the first occurrence of an element, if there is one |
| DList.Count | esp32/main/list.c:177-185 | counts the nodes |
| DList.InsertKeepsOrder | esp32/main/list.c:106-146 | under any total preorder insert_sorted keeps descending order and adds exactly the new element |
| DList.InsertAllSorts | esp32/main/list.c:106-146 | a list built by insert_sorted is a descending permutation of what was inserted |
| DList.InsertedBeforeEquals | esp32/main/list.c:106-146 | a new element comes in front of all its equals, whose order stays |
| DList.EqualElementsReversed | esp32/main/list.c:106-146 | in a list built by insert_sorted the equals of any element stand in the reverse order of their insertion |
| DList.RemoveUndoesInsert | esp32/main/list.c:148-165 | removing what was just inserted gives the old list back |
| DList.RemoveKeepsOrder | esp32/main/list.c:148-165 | remove takes away one occurrence and keeps the order |
| RingBuffer.Ring.Append | joystick/ringbuffer.c:80-101 | for data of any length the contents become the last size bytes of contents and data, unless the 16-bit arithmetic loses the tail, which happens exactly as TailLost says |
| RingBuffer.Ring.Get | joystick/ringbuffer.c:63-78 | removes and returns the oldest bytes in order, as many as there are and are wanted |
| RingBuffer.Ring.Size | joystick/ringbuffer.c:54-61 | the number of bytes held |
| RingBuffer.Ring.Avail | joystick/ringbuffer.c:48-52 | the number of bytes there is room for |
| RingBuffer.LastOfLast | joystick/ringbuffer.c:80-101 | appending in two calls is appending in one |
| RingBuffer.HoldsLatest | joystick/ringbuffer.c:63-101 | over any run of appends and gets the queue that the buffer refines holds the latest bytes appended |
| RingBuffer.FifoIffNoOverflow | joystick/ringbuffer.c:63-101 | what was taken and what is held make up what was appended if and only if no append overflowed |
| RingBuffer.RunOps | joystick/ringbuffer.c:63-101 | the buffer itself over any run of appends and gets, of a size that cannot lose the tail or without overflow: its contents and what was taken are those of the queue, so both results above hold of it |
| RingBuffer.LosesTail | joystick/ringbuffer.c:80-101 | the tail of the smallest buffer concerned leaves its range within four calls on a new buffer |
| FlashPgm.Handle.PrepareProgramming | esp32/main/flash_pgm.c:9-45 | erases the aligned length and starts an empty stream; -1 if there is no partition |
| FlashPgm.AlignCovers | esp32/main/flash_pgm.c:27 | the erased length covers the announced one by less than 4096 bytes more, if and only if that is at most 0xFFFFF000 |
| FlashPgm.Handle.ProgramChunk | esp32/main/flash_pgm.c:60-79 | flash and buffer together hold every byte handed over |
| FlashPgm.Handle.Flush | esp32/main/flash_pgm.c:81-94 | all bytes handed over have been written to the flash |
| FlashPgm.Handle.Abort | esp32/main/flash_pgm.c:97-118 | from any content the first 4096 bytes become zero and the rest stays |
| FlashPgm.ProgramImage | esp32/main/flash_pgm.c:9-94 | prepare, any chunks and flush: an image no longer than announced is in the flash byte for byte, up to the announced length it is erased behind, and a block further nothing has changed |
| FlashPgm.ImageStored | esp32/main/flash_pgm.c:9-94 | an image within the erased area is stored as given, the rest of that area is still 0xFF, what lies behind is unchanged |
| FlashPgm.LongImageStored | esp32/main/flash_pgm.c:27-29 | a longer image is stored if and only if the old bytes behind the erased area have all its bits |
| WsReader.RunKeeps | esp32/main/firmware_ws.c:151-211 | over every interleaving delivered, held and queued bytes are in order the bytes enqueued, and the queue holds at most two frames |
| WsReader.ReadsAreConsecutive | esp32/main/firmware_ws.c:151-211 | every completed read returns exactly the number of bytes asked for, and they are the next ones of the stream |
| WsTrace.CallsAnswered | esp32/main/firmware_ws.c:151-211 | over any run the sizes of the reads are those of the calls, in order |
| WsTrace.SentEnqueued | esp32/main/firmware_ws.c:318-340 | what enters the queue are the frames sent while it is open and has room, in order |
| WsTrace.ReadsAnswerCalls | esp32/main/firmware_ws.c:151-211 | read n has exactly as many bytes as call n asked for, and they are those of the frames sent behind what the calls before it asked for |
| WsTrace.NextReadAnswersCall | esp32/main/firmware_ws.c:151-211 | the same for one call made between any two reads |
| WsReader.BlockFlagIsIgnored | esp32/main/firmware_ws.c:172-182 | the block argument makes no difference to any step |
| WsReader.CompletesUnlessBlocked | esp32/main/firmware_ws.c:184-207 | a read in progress can still complete if and only if it is neither deadlocked nor starved |
| WsReader.DeadlockIsReachable | esp32/main/firmware_ws.c:184-192 | the deadlock of push-back and producer occurs |
| ResourceFifo.Fits | esp32/main/fpga.c:408-426 | what is written on a status fits whatever was drained since, and below three quarters there is progress |
| ResourceFifo.BudgetInNumbers | esp32/main/fpga.c:408-426 | at most 512, 511, 255 or no bytes are written, by quarters of the FIFO |
| ResourceFifo.LoadResourceFifo | esp32/main/fpga.c:401-453 | the FIFO never overflows, a prefix of the data is sent in order, all of it exactly on success, waits happen only at three quarters full, and polls are bounded by bytes and waits |
| Tap.Saver.ReadExtramBlockIntoFile | esp32/main/fpga.c:1097-1125 | appends the memory block to the file and its exclusive or to the checksum |
| Tap.Saver.AppendFromExtram | esp32/main/save.c:124-148 | appends length, data and checksum; -1 without a file |
| Tap.SaveAll | esp32/main/save.c:124-148 | saving regions one after the other makes the tape of their contents |
| Tap.BlockInNumbers | esp32/main/save.c:136-146 | a stored block is its length and one, low byte first, the data and the checksum |
| Tap.ShortBlocks | esp32/main/save.c:124-148 | a block of one byte b is 2 0 b b, an empty one 1 0 0 |
| Xor.Xor8Bits | esp32/main/fpga.c:1110-1118 | the checksum is the exclusive or, bit by bit |
| Tap.StoredBlockXorsToZero | esp32/main/save.c:136-146 | data and checksum of a stored block cancel out |
| FastTap.Player.WriteExtramBlockFromStream | esp32/main/fpga.c:1015-1039 | with short reads of any size memory gets the bytes of the stream, or all there are and -1 |
| FastTap.Player.TapNext | esp32/main/fasttap_tap.c:52-99 | one block: data and length in memory, byte accounting, end of tape, failures |
| FastTap.Player.FastNext | esp32/main/fasttap.c:319-331 | the same with the status; -1 and no change if nothing is playing |
| FastTap.LoadsSavedBlock | esp32/main/fasttap_tap.c:52-99 | a saved block loads whatever follows it: rest of data and checksum in memory, length, status, byte count |
| FastTap.LoadFails | esp32/main/fasttap.c:319-331 | a load fails if and only if the tape ends inside the block; then the status is 0xFF, the data there was is in memory, the length is untouched and the tape still playing |
| FastTap.ReportedLength | esp32/main/fasttap_tap.c:72-88 | the length reported is one less than that of the saved data if and only if there was data |
| FastTap.SaveLoadRoundTrip | esp32/main/fasttap.c:269-283 | load n of a saved tape presents block n, and the tape stops playing exactly after the last block |
| FastTap.NothingAfterTheLast | esp32/main/fasttap.c:319-331 | further loads fail and leave memory alone |
| HidParser.Parser.Register | esp32/main/hid_parse.c:20-49 | finds the report with an id or appends it |
| HidParser.Parser.AddInput | esp32/main/hid_parse.c:187-259 | the report grows by the item's bits, which become a field if there are usages |
| HidParser.Parser.ParseMainEntry | esp32/main/hid_parse.c:261-310 | the effect of every main item |
| HidParser.Parser.ParseLocalEntry | esp32/main/hid_parse.c:312-371 | the effect of every local item |
| HidParser.Parser.ParseGlobalEntry | esp32/main/hid_parse.c:374-431 | the effect of every global item |
| HidParser.Parse | esp32/main/hid_parse.c:535-604 | accepts exactly the descriptors the function ParseFrom accepts, with its result |
| HidItems.ItemsParsed | esp32/main/hid_parse.c:312-431 | any list of encoded global and local items is accepted if and only if it is admissible, and every setting then has the last value given for it, with its sign, and every usage and range is listed with its page |
| HidItems.InputMeansItsItems | esp32/main/hid_parse.c:187-310 | with an input item behind them: the report with the last id grows by the last size times count and gets a field of exactly these settings and usages; every other report is unchanged, a new one comes last |
| HidItems.InputGrowsOne | esp32/main/hid_parse.c:187-259 | the effect of an input item on every report, by id |
| HidItems.UnknownRejected | esp32/main/hid_parse.c:261-431 | exactly which first bytes the parser knows |
| HidItems.CutItemRejected | esp32/main/hid_parse.c:535-604 | an item that reaches behind the end of the descriptor is an error |
| HidTree.CollectionsFound | esp32/main/hid_parse.c:261-310 | of an accepted descriptor written as a tree of collections the parser finds exactly the tree |
| HidTree.GroupBegins | esp32/main/hid_parse.c:266-284 | a collection is accepted if and only if there are fewer than eight, and clears all settings and usages |
| Hid.FourBytesIgnored | esp32/main/hid_parse.c:94-127 | four-byte data of a global or local item has no influence, except on the usage page, and gives report counts and sizes of 0 |
| HidLayout.AcceptedIsLaidOut | esp32/main/hid_parse.c:129-310 | for every accepted descriptor: unique report ids, collection parents before their children, at most 32 usages a field, every report size the bits added mod 65536, and for each report they do not outgrow ordered disjoint fields inside it |
| HidLayout.FieldInsideIffNoWrap | esp32/main/hid_parse.c:200-203 | a new field lies inside its report if and only if the 16-bit size does not wrap |
| HidLayout.OutgrownIsAccepted | esp32/main/hid_parse.c:187-259 | a descriptor of 14 bytes is accepted with both fields of its report reaching beyond it |
| HidUsage.FieldGetUsage | esp32/main/hid_parse.c:435-468 | the loop finds entry i of the flattened ranges, for array fields the range |
| HidUsage.UsageOfEntry | esp32/main/hid_parse.c:442-456 | entry i below the total has the i-th usage; the parser's count is that total if and only if all ranges are proper |
| HidUsage.UsagePastTheEnd | esp32/main/hid_parse.c:442-456 | the entry one past the last usage gets usage 0, later ones -1 |
| HidUsage.EntryInNumbers | esp32/main/hid_parse.c:442-456 | entry o of range r has the range's minimum plus o, with the page in the high byte |
| HidUsage.ArrayInNumbers | esp32/main/hid_parse.c:457-468 | an array field has the minimum and maximum of its one range, others are refused |
| Buttons.Board.Check | esp32/main/buttons.c:31-79 | one sample of one button has the effect of the function Sample and leaves the other alone |
| Buttons.EventsAreLawful | esp32/main/buttons.c:31-79 | over every sample sequence the events are complete presses and perhaps the beginning of one; counters and debouncing stay in range |
| Buttons.LanguageIsExact | esp32/main/buttons.c:31-79 | and every such sequence of events occurs for some samples |
| Buttons.LowRun | esp32/main/buttons.c:41-60 | any button held down: debouncing, counter and report after any number of samples |
| Buttons.HighRun | esp32/main/buttons.c:41-76 | any button let go: debouncing, and the end of the press |
| ButtonBounces.SteadyLevels | esp32/main/buttons.c:41-47 | ten low samples bring any button down, ten high ones up |
| ButtonBounces.ReleasedIffNotCalm | esp32/main/buttons.c:41-76 | a held button is taken to be released if and only if in some stretch of its samples the high ones outnumber the low ones by ten |
| ButtonBounces.HeldLongEnough | esp32/main/buttons.c:48-60 | a press that has begun and is held is reported to the end as a long one |
| ButtonBounces.PressTimes | esp32/main/buttons.c:22-29 | after how many samples a press and a long press are reported |

## Left out

- SPI and FPGA registers, FreeRTOS, sockets, HTTP, storage, user interfaces: devices and libraries whose code is not in the repository.
- Failing calls of read, write, malloc, flash and external RAM, and logging. Reads that must be exact deliver what the file holds; where the code loops, any short read is allowed.
- The larger chunk sizes of the Linux build: reads of 64 bytes for snapshots and of 128 for tapes are those of the device.
- HDLC handlers are never null: a receiver without a handler for stray bytes reports fewer events.
- The byte order of the RLE length fields and of the TAP lengths is that of the processors used, low byte first.
- External RAM takes any address, without the limit of 24 bits. An address never written reads as 0.
- The rest of sna.c, fpga.c, save.c and fasttap.c: file names, snapshot headers, page tables, FPGA configuration, other tape formats.
- The websocket reader and its producer are a state machine over atomic steps, as a blocked read need not end. Creation and deletion of the queue are not part of it.
- Two-sided limits on the time of the resource FIFO: the model counts polls and waits, not milliseconds.
- The erase of a length beyond the end of a flash partition, as esp_partition_erase_range is not part of this model.
- Freed list nodes are only unreachable in the model, and foreach and remove_all are not in it: they add no structure.
- Bytes a HID item reads behind the end of the descriptor count as 0; for the code they are whatever lies there. The lookup of an unknown entry in a field with all 32 usages in use, which reads behind the array, is not in it.
- hid_list_entries, which only logs, and hid__extract_field_aligned.
- Buttons: the queue that takes the events holds four and drops more; the model records what is sent.
- Relocation of the Z80 ROM images, and the composition of flash programming with RLE in firmware.c.
- Z80Stream.Version1Loads: states only that readable files load, because an unreadable one may by chance leave the same bytes in memory; Z80Stream.MarkedFile has both directions.
