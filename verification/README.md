# ADSBee firmware: a verified model

ADSBee is an ADS-B receiver with three cooperating microcontrollers.  This project models the logic that they
share in Dafny and proves what it is meant to guarantee, for all inputs and over whole runs.

- `Queues` - `PFBQueue`, the ring buffer between all the parts, refines a bounded FIFO sequence.
- `CompositeArray`, `CompositePacking` - buffers with three typed packet sections: packing, parsing, merging in place.
- `FlashMemory`, `FirmwareUpdate`, `UpdateRuns`, `FullUpdate` - A/B flash update with power loss at any point, and a whole
  update from erase to boot.
- `Gf2`, `BitBuffer`, `Crc24`, `Crc16` - bit fields, and both CRCs as polynomial division over GF(2).
- `SpiPacket`, `SpiLink`, `SpiCoprocessor`, `SpiSlave`, `SpiMaster` - frames and acknowledged chunked writes of the
  coprocessor link: what attempts come to, the slave that makes it so from the bytes it receives, and the master.
- `SpiReads`, `SpiReadSlave` - chunked reads over the same link, and the frames behind them.
- `QueueRoll`, `RollFrames` - the slave's queue of requests that the master executes and rolls, and its frames.
- `Beast`, `LogMessages` - wire formats that have to read back.
- `Reporting` - budget-cut reporting rounds of five protocols over one snapshot.
- `PositionFilter`, `CprTrack`, `AircraftTracking` - CPR pairing and the two-sample position filter.
- `FixedPool`, `AircraftDictionary` - the bounded dictionary over its free-list pool.
- `Arith`, `Bytes`, `Wrappers` - fixed-width integers, byte strings, optional values.

Fixed-width arithmetic is written out wherever it can wrap.  Objects that the firmware updates in place are classes
whose methods are tied to functions on plain values; loops over buffers work on arrays.  What lies outside - clocks,
the CPR decoder, the distance on the geoid, the CRC-32 engine, hash-map iteration order, time budgets, message loss -
is a parameter or a non-deterministic choice, so that each result holds for every behaviour of it.

## Where the code differs from what one would expect

Each of these is stated in the model, with the condition under which the code does what one would expect.

- `Write` and `Read` count remaining bytes in an `int16_t`: an object of 32768 bytes or more is not transferred and
  reported as done.
- A frame shorter than 8 bytes leaves the slave's static packet alone, so the previous chunk is applied and
  acknowledged again, or the previous read request is answered again.
- The receiver replaces the length field before it computes the CRC, so damage to that field alone is repaired.
- A lost acknowledgement of a roll lets the retry drop a request that was never executed, even one that was enqueued
  only after the roll began.
- A write frame that carries data and arrives under the read command, which one changed bit can do, is copied whole into
  the 8-byte read request packet.
- A roll that is cut short can be acknowledged on account of another packet that the slave has kept.
- Log messages that pack to more than 4093 bytes are read in two chunks, but the slave ignores the offset and packs the
  head of its queue again, so the master gets stale bytes or repeated messages in place of the last ones.
- Ten log messages pack to more than the 5000 bytes of the buffer they are read into when their characters and 5 bytes
  for each exceed it: the buffer has no room for headers and terminators.
- Power loss while a header's status is rewritten to a lower one can leave a word that is no status; while Invalid is
  written over a blank status it can leave Valid, so that an image that failed its verification is booted.
- With its filter off, `UATAircraft::DecodePosition` publishes the stored candidate, not the position it was given.
- The parser keeps the claimed length in a `uint16_t`, so a header that claims 65544 bytes passes for 8.
- `PartialWriteFlashPartition` bounds offset and length separately; their sum can reach the other partition.
- The MAVLINK and GDL90 heartbeats are meant once per round, but repeat when a first call runs out of budget at once.
- `Update` can end without the lowest aircraft when the previous lowest is pruned after others were compared with it;
  `RemoveAircraft` and `Init` leave the pointer where it was.
- The ring index sum is taken in a `uint16_t`, which limits queues to 32768 elements; the byte reader's byte index is a
  `uint16_t` as well; the filter's distance allowance wraps after 71 minutes.

## Model

| member | source | states |
|---|---|---|
| Queues.RunConservesFifo | firmware/common/utils/data_structures.hh:70-174 | on every sequence of enqueue, dequeue, peek, discard and clear, in both modes, the queue stays within its capacity and everything that entered is what left followed by what is held, in order |
| Queues.EnqueuedAllKeeps | firmware/common/utils/data_structures.hh:70-92 | enqueueing any sequence keeps exactly the newest elements in overwrite mode and exactly the oldest in refuse mode |
| Queues.IncrementIndexExact | firmware/common/utils/data_structures.hh:198-201 | the 16-bit index sum wraps to the true modular sum for all positions and increments if and only if the capacity is at most 32768 |
| Queues.IncrementIndex | firmware/common/utils/data_structures.hh:198-201 | up to capacity 32768 the result is the index one turn of the ring further |
| Queues.Count | firmware/common/utils/data_structures.hh:182-190 | the length that head, tail and full flag describe never exceeds the buffer |
| Queues.RingDrop | firmware/common/utils/data_structures.hh:99-141 | moving the head forward by k, around the end of the buffer if need be and from a full ring as well, drops exactly the k oldest elements |
| Queues.RingPush | firmware/common/utils/data_structures.hh:70-92 | storing at the tail of a ring with room appends one element, and the full flag is set exactly when head and tail meet |
| Queues.PFBQueue.constructor | firmware/common/utils/data_structures.hh:32-40 | a new queue of any capacity starts at index 0; with 1 to 32768 slots it is a sound, empty queue |
| Queues.PFBQueue.Enqueue | firmware/common/utils/data_structures.hh:70-92 | appends when there is room; a full queue refuses, or loses its oldest element, as configured; the result says which |
| Queues.PFBQueue.Dequeue | firmware/common/utils/data_structures.hh:99-113 | gives the front element and removes it, or reports an empty queue and changes nothing |
| Queues.PFBQueue.Peek | firmware/common/utils/data_structures.hh:119-127 | gives the element at any index below the length, wrapped or not, and changes nothing |
| Queues.PFBQueue.Discard | firmware/common/utils/data_structures.hh:135-147 | drops that many elements, a full queue included, or refuses a number above the length |
| Queues.PFBQueue.Length | firmware/common/utils/data_structures.hh:153-159 | is the number of queued elements |
| Queues.PFBQueue.IsFull | firmware/common/utils/data_structures.hh:52-57 | holds exactly when the number of elements equals the capacity |
| Queues.PFBQueue.IsEmpty | firmware/common/utils/data_structures.hh:58-63 | holds exactly when nothing is queued |
| Queues.PFBQueue.Clear | firmware/common/utils/data_structures.hh:169-174 | leaves an empty queue |
| Queues.Perform | firmware/common/utils/data_structures.hh:70-174 | each operation of the class moves the queued sequence as the step of the history model does, and hands out the element that left or was asked for |
| Queues.PerformAll | firmware/common/utils/data_structures.hh:70-174 | any sequence of calls on the class leaves in the queue what the run of the history model says |
| CompositeArray.MergeAssociates | firmware/common/coprocessor/composite_array.cpp:160-219 | merging three buffers gives the same result, or the same refusal, in either grouping |
| CompositeArray.MergeRawPacketsBuffers | firmware/common/coprocessor/composite_array.cpp:160-219 | the in-place chain of overlapping moves leaves a well-formed buffer whose three sections are the destination's packets followed by the source's; a refused merge leaves the destination untouched |
| CompositeArray.MergeStepsView | firmware/common/coprocessor/composite_array.cpp:187-216 | the three insertions put every byte where the merged sections have it and leave the bytes behind the merged length alone |
| CompositeArray.MergeStepsRefineTryMerge | firmware/common/coprocessor/composite_array.cpp:160-219 | on packet sequences the byte-level merge is concatenation per section, and refuses exactly when the sum exceeds 2000 bytes |
| CompositeArray.ThreeInsertedAt | firmware/common/coprocessor/composite_array.cpp:187-216 | after all three overlapping moves each byte comes from the place the merged layout demands |
| CompositeArray.InsertSection | firmware/common/coprocessor/composite_array.cpp:187-196 | one move-up, copy and count update equals the splice of the section in front of the tail |
| CompositeArray.ParseAcceptsWellFormed | firmware/common/coprocessor/composite_array.cpp:64-101 | every buffer that holds what its header claims is accepted, with the true section starts |
| CompositeArray.ParseSoundExactly | firmware/common/coprocessor/composite_array.cpp:64-101 | acceptance implies that the claimed packets are present if and only if the 16-bit length does not wrap into range |
| CompositeArray.ParseWrapExample | firmware/common/coprocessor/composite_array.cpp:64-101 | a header that claims 2048 Mode S packets is accepted in a buffer of 8 bytes |
| Bytes.U16RoundTrip | firmware/common/coprocessor/composite_array.hh:27-32 | a little-endian count in the header reads back what was stored |
| CompositeArray.SplitLaidOut | firmware/common/coprocessor/composite_array.hh:21-32 | cutting a section at the packet size undoes laying packets end to end |
| CompositePacking.PackRawPacketsBuffer | firmware/common/coprocessor/composite_array.cpp:7-62 | drains the three queues in type order into the buffer; what remains queued is the old queue without its taken front, and each section stops only when its queue is empty or the next packet does not fit |
| CompositePacking.PackedAsPromised | firmware/common/coprocessor/composite_array.cpp:7-62 | the packed buffer is well formed, reads back as the packets taken, and packets plus remaining queue equal the original queue for each type |
| CompositePacking.DrainQueue | firmware/common/coprocessor/composite_array.cpp:24-59 | takes the longest prefix of one queue that fits, in order, and counts it in the header |
| CompositePacking.PredictedLength | firmware/common/coprocessor/composite_array.cpp:221-237 | when everything queued fits, all of it is packed and the length computed beforehand is the packed length |
| CompositePacking.UnpackSection | firmware/common/coprocessor/composite_array.cpp:103-158 | feeding a section into a queue equals enqueueing all its packets in order; it reports failure exactly when a refusing queue has too little room |
| CompositePacking.FeedQueues | firmware/common/coprocessor/composite_array.cpp:103-158 | sections are fed in type order and the first queue without room ends the call, later sections unfed |
| CompositePacking.UnpackRawPacketsBufferToQueues | firmware/common/coprocessor/composite_array.cpp:103-158 | a rejected buffer, or packets for an absent queue, change nothing; any other is fed to the queues in type order up to the first without room, and the call succeeds exactly when all three have room |
| CompositePacking.PackThenUnpack | firmware/common/coprocessor/composite_array.cpp:7-158 | what packing leaves in the buffer unpacks into queues with room: each gains exactly the packets taken from its counterpart, in order, and together with those still waiting nothing is lost or doubled |
| CompositePacking.FedWithRoom | firmware/common/coprocessor/composite_array.cpp:103-158 | a queue with room ends up with its old packets followed by exactly the unpacked ones |
| FlashMemory.WordAnd | firmware/common/firmware_update/firmware_update.hh:314-353 | programming a word over a word leaves exactly the bits common to both |
| FlashMemory.WordOfBytes | firmware/common/firmware_update/firmware_update.hh:53-59 | a header word reads back from its four little-endian bytes |
| FirmwareUpdate.EraseFlashPartition | firmware/common/firmware_update/firmware_update.hh:190-246 | the loop of bounded erases sets exactly the requested span, rounded up to sectors, to ones and touches nothing else; a bad partition, range or alignment is refused unchanged |
| FirmwareUpdate.EraseSpanExact | firmware/common/firmware_update/firmware_update.hh:190-246 | the erased span covers the request, exceeds it by less than a sector and stays inside the partition |
| FirmwareUpdate.ErasedExactly | firmware/common/firmware_update/firmware_update.hh:190-246 | a request that starts at a sector and ends inside the partition clears every byte of it and none behind its last sector, any other changes nothing |
| FirmwareUpdate.PartialWriteFlashPartition | firmware/common/firmware_update/firmware_update.hh:314-353 | programs the data padded with ones to whole pages, or refuses and changes nothing |
| FirmwareUpdate.WriteHeaderStatusWord | firmware/common/firmware_update/firmware_update.hh:502-506 | rewrites the header page with the new status word in it |
| FirmwareUpdate.StatusWrittenEffect | firmware/common/firmware_update/firmware_update.hh:502-506 | rewriting the header changes no byte of flash but the status word, which keeps only the bits that both statuses have |
| FirmwareUpdate.StatusOnlyMovesDown | firmware/common/firmware_update/firmware_update.hh:46-51 | writing one status over another gives the lower of the two in the chain Blank, Valid, Stale, Invalid |
| FirmwareUpdate.VerifyFlashPartition | firmware/common/firmware_update/firmware_update.hh:360-434 | passes exactly the images with a size in range, a matching CRC and plausible stack pointer and reset vector, and marks the header Valid or Invalid accordingly when asked to |
| FirmwareUpdate.PassesExactly | firmware/common/firmware_update/firmware_update.hh:360-425 | verification passes if and only if the size is at most that of an application, the CRC of the image is the one in the header, the stack pointer is in RAM and the reset vector is an odd address inside the image |
| FirmwareUpdate.VerifyMarks | firmware/common/firmware_update/firmware_update.hh:360-434 | a blank header is marked Valid or Invalid after the verdict, a stale one that passes stays stale, and no byte but the status word changes |
| FirmwareUpdate.BootableExactly | firmware/common/firmware_update/firmware_update.hh:91-117 | a partition can be booted if and only if its header has the magic word and the status word for Valid or Stale |
| FirmwareUpdate.BootPartition | firmware/common/firmware_update/firmware_update.hh:84-130 | jumps exactly to partitions with the magic word and status Valid or Stale, after the partition that runs the code has marked itself Stale |
| FirmwareUpdate.Bootloader | firmware/adsbee_1090/pico/bootloader/main.cc:50-69 | the two loops boot the lowest Valid partition, else the lowest Stale one, and change no flash |
| FirmwareUpdate.BootChoiceSound | firmware/adsbee_1090/pico/bootloader/main.cc:50-69 | something is booted exactly when some partition is bootable, never a Blank or Invalid one, and a Stale one only when no Valid one has the magic word |
| UpdateRuns.RunsStaySafe | firmware/common/firmware_update/firmware_update.hh:84-130 | on every run of erase, program, verify, hand-over and power loss at any point, the running partition stays bootable and the bootloader always finds a Valid or Stale one |
| UpdateRuns.NextKeepsSafe | firmware/common/firmware_update/firmware_update.hh:190-246 | each single command, finished or cut off by power loss, keeps that safety |
| UpdateRuns.CommandKeepsOther | firmware/common/firmware_update/firmware_update.hh:284-284 | a command on the complement partition leaves every byte of the running partition alone, and a hand-over leaves its target alone |
| UpdateRuns.RunsDescend | firmware/common/firmware_update/firmware_update.hh:46-51 | with power loss at any point except while its status is rewritten to a lower one, and while the header is neither erased nor written by hand, the status of a partition only moves down the chain |
| UpdateRuns.RunsKeepImageWords | firmware/common/firmware_update/firmware_update.hh:502-506 | with power loss at any point the other words of a header that is neither erased nor written by hand never change |
| UpdateRuns.RunsVouch | firmware/common/firmware_update/firmware_update.hh:360-434 | on every run in which a partition is neither erased nor written, and power is not lost while the status of an image that fails is being rewritten, Valid means that the image passes verification, its CRC included |
| UpdateRuns.ValidWasVerified | firmware/common/firmware_update/firmware_update.hh:360-434 | a finished command leaves a partition Valid only if it was or if it was its verification and the image passed |
| UpdateRuns.PowerLossVouchesExactly | firmware/common/firmware_update/firmware_update.hh:502-506 | when power fails while a blank partition is verified, Valid still vouches for the image in every outcome if and only if the image passes |
| UpdateRuns.TornToValid | firmware/common/firmware_update/firmware_update.hh:502-506 | writing Invalid over a blank status can be cut off at the word for Valid |
| FullUpdate.UpdateSucceeds | firmware/adsbee_1090/pico/application/comms/at/comms_at.cc:575-685 | from erasing through writing in pieces, verifying and booting, an update with a well made image succeeds: the image passes, is marked Valid and runs, the old one is left stale, and the bootloader then chooses the new one |
| FullUpdate.DamagedIsRefused | firmware/adsbee_1090/pico/application/comms/at/comms_at.cc:660-685 | an image that fails verification is marked Invalid whatever its status was, and is not booted |
| FullUpdate.PiecesAreOne | firmware/common/firmware_update/firmware_update.hh:306-353 | writing in pieces of whole pages leaves the flash that one write of their concatenation leaves |
| FullUpdate.EraseThenWrite | firmware/common/firmware_update/firmware_update.hh:190-353 | what is written to an erased range reads back, and nothing else in it changes |
| UpdateRuns.PowerLossDescendsExactly | firmware/common/firmware_update/firmware_update.hh:502-506 | when power fails during a command, the status descends in every outcome if and only if the command does not rewrite it to a lower one |
| UpdateRuns.TornStatus | firmware/common/firmware_update/firmware_update.hh:46-51 | power loss while a status moves down can leave a word that is none of the four |
| UpdateRuns.InterruptedStatusWord | firmware/common/firmware_update/firmware_update.hh:502-506 | a status rewrite that is cut off changes no byte but the status word, which ends between the old word and the one it would have become |
| UpdateRuns.RunsOnlyClearHeader | firmware/common/firmware_update/firmware_update.hh:314-353 | with power loss at any point, no header bit is ever set again before an erase |
| UpdateRuns.WriteKeepsOtherExactly | firmware/common/firmware_update/firmware_update.hh:314-353 | a write that the routine accepts spares the other partition for all contents if and only if offset plus length stays inside; an overlong one reaches the other header |
| UpdateRuns.RunnerKnowsItself | firmware/common/firmware_update/firmware_update.hh:67-77 | code inside a partition computes its complement and marks its own header on a hand-over |
| BitBuffer.GetNBitsFromWordBuffer | firmware/common/utils/buffer_utils.cpp:35-57 | is the n-bit slice of the big-endian bit stream at any offset, word-crossing ones included, and zero for a length outside 1 to 32 |
| BitBuffer.SetNBitsInWordBuffer | firmware/common/utils/buffer_utils.cpp:87-111 | writes the low n bits of the word at the offset and leaves every other bit of the stream as it was |
| BitBuffer.WriteThenRead | firmware/common/utils/buffer_utils.cpp:35-111 | reading the written field gives the written value, and reading any field that does not overlap it gives what it gave before |
| BitBuffer.GetNBitsFromByteBuffer | firmware/common/utils/buffer_utils.cpp:59-85 | reads the n bits at the offset of the byte stream, byte indices taken modulo 65536 |
| BitBuffer.WrappedSliceExact | firmware/common/utils/buffer_utils.cpp:71-71 | the 16-bit byte index reads the true slice of every stream if and only if the field ends within 65536 bytes |
| BitBuffer.ByteBufferToWordBuffer | firmware/common/utils/buffer_utils.hh:56-70 | packs the bytes into words most significant first, a partial last word zero filled, and leaves later words alone |
| BitBuffer.WordBufferToByteBuffer | firmware/common/utils/buffer_utils.hh:72-85 | unpacks the words into that many bytes and leaves later bytes alone |
| BitBuffer.WordsKeepStream | firmware/common/utils/buffer_utils.hh:56-70 | conversion to words keeps the bit stream, padded with zeros to a whole word |
| BitBuffer.BytesKeepStream | firmware/common/utils/buffer_utils.hh:72-85 | conversion to bytes keeps the bit stream |
| BitBuffer.ConversionRoundTrip | firmware/common/utils/buffer_utils.hh:56-85 | bytes to words and back restores every byte |
| BitBuffer.ReadersAgree | firmware/common/utils/buffer_utils.cpp:35-85 | the byte reader on a buffer and the word reader on its conversion return the same field |
| Gf2.CongruentIsRem | firmware/common/adsb/mode_s_packet.cpp:181-202 | a value below the generator's degree is congruent to the message exactly when it is the remainder of long division |
| Gf2.RemLinear | firmware/common/adsb/mode_s_packet.cpp:181-202 | the remainder of a sum is the sum of the remainders |
| Gf2.WindowError | firmware/common/utils/buffer_utils.cpp:128-145 | two messages that differ only within as many consecutive bits as the CRC is long and have the same remainder are equal |
| Crc24.CalculateCRC24 | firmware/common/adsb/mode_s_packet.cpp:181-202 | for every frame length from 24 to 128 bits the in-place loop returns the GF(2) remainder of the frame with its parity zeroed |
| Crc24.TurnKeepsRemainder | firmware/common/adsb/mode_s_packet.cpp:194-200 | each turn of the loop clears its leading bit and keeps the remainder of what is left |
| Crc24.CrcIsCongruent | firmware/common/adsb/mode_s_packet.cpp:181-202 | the CRC is the one 24-bit value congruent to the zero-padded frame modulo 1FFF409 |
| Crc24.CrcOfXor | firmware/common/adsb/mode_s_packet.cpp:181-202 | the CRC of the XOR of two frames is the XOR of their CRCs |
| Crc24.ParityMatchesExactly | firmware/common/adsb/mode_s_packet.cpp:181-202 | the parity field equals the CRC exactly when the whole frame is a multiple of the generator |
| Crc24.BurstDetected | firmware/common/adsb/mode_s_packet.cpp:181-202 | a frame with right parity that is damaged within 24 consecutive bits no longer has right parity |
| Crc16.ByteIsEightBits | firmware/common/utils/buffer_utils.cpp:138-143 | the shift-and-xor step for a byte equals eight single-bit division steps by 11021 |
| Crc16.CalculateCRC16 | firmware/common/utils/buffer_utils.cpp:128-145 | runs that step over the buffer from all ones and swaps the two bytes; a negative length gives zero |
| Crc16.RegisterIsRemainder | firmware/common/utils/buffer_utils.cpp:128-145 | for every length the register is the remainder of the message with 16 zeros behind it and its first 16 bits inverted |
| Crc16.MatchesIsZeroResidue | firmware/common/coprocessor/spi_coprocessor_packet.hh:32-43 | the stored CRC matches exactly when the whole frame, CRC included, has residue zero |
| Crc16.TwoByteCorruption | firmware/common/coprocessor/spi_coprocessor_packet.hh:32-33 | whatever happens to two adjacent bytes of a matching frame, CRC included, it no longer matches unless nothing changed |
| SpiPacket.Populated | firmware/common/coprocessor/spi_coprocessor_packet.hh:33-43 | a populated image has a matching CRC |
| SpiPacket.PopulatedHasZeroResidue | firmware/common/coprocessor/spi_coprocessor_packet.hh:33-43 | a populated frame has residue zero and unchanged contents |
| SpiPacket.SCWritePacket.constructor | firmware/common/coprocessor/spi_coprocessor_packet.hh:56-69 | a new packet is all zero with length 0 |
| SpiPacket.SCWritePacket.IsValid | firmware/common/coprocessor/spi_coprocessor_packet.hh:32-32 | for every length field, holds exactly when the CRC at the clamped position is that of the bytes the clamped length covers; with a length in range, exactly when the image matches its CRC |
| SpiPacket.SCWritePacket.PopulateCRC | firmware/common/coprocessor/spi_coprocessor_packet.hh:33-43 | for every length field the packet is accepted afterwards and only its two CRC bytes changed; with a length in range the image is the populated one |
| SpiPacket.SCWritePacket.Fill | firmware/common/coprocessor/spi_coprocessor.cpp:334-342 | the bytes before the CRC are command, address, offset, length and data |
| SpiPacket.SCWritePacket.ConstructFromBuffer | firmware/common/coprocessor/spi_coprocessor_packet.hh:86-97 | a frame of fewer than 8 bytes leaves the packet as it was; any other becomes the image, with its length field replaced by the length that arrived |
| SpiPacket.BodyLayout | firmware/common/coprocessor/spi_coprocessor_packet.hh:52-66 | a write packet holds the command, the address, the offset and the length with the low byte first, and the data, one behind the other |
| SpiPacket.AcceptedIsSent | firmware/common/coprocessor/spi_coprocessor_packet.hh:86-97 | a write frame damaged in two adjacent bytes is accepted by the receiver exactly when the packet it reconstructs is the one that was sent |
| SpiPacket.DamageRejectedOrRepaired | firmware/common/coprocessor/spi_coprocessor_packet.hh:93-96 | damage outside the length field is rejected, damage to the length field alone is repaired |
| SpiPacket.OctetRoundTrip | firmware/common/coprocessor/spi_coprocessor_packet.hh:93-96 | the length field reads back what was stored in it |
| SpiCoprocessor.WriteDelivers | firmware/common/coprocessor/spi_coprocessor.hh:66-94 | if an acknowledged write of fewer than 32768 bytes returns true over a link whose damage shows, the slave holds the master's bytes, the rest is untouched and a whole settings object was put into effect; otherwise every byte is the old one or the new one; a part of an object is never put into effect |
| SpiCoprocessor.WriteSucceedsExactly | firmware/common/coprocessor/spi_coprocessor.hh:66-94 | a write succeeds if and only if each of its transfers has an attempt that is acknowledged, or that can be sent if no acknowledgement is required, among its three; or if it is too long to be sent at all |
| SpiCoprocessor.AttemptsSucceedExactly | firmware/common/coprocessor/spi_coprocessor.cpp:343-370 | the retries end with the first attempt that works, and fail only after all of them |
| SpiCoprocessor.ChunksSucceedExactly | firmware/common/coprocessor/spi_coprocessor.hh:76-94 | the chunk loop succeeds if and only if every chunk that is left gets through |
| SpiLink.OneWorks | firmware/common/coprocessor/spi_coprocessor.hh:71-74 | a single transfer gets through if and only if one of three attempts does |
| SpiLink.NoThreeFail | firmware/common/coprocessor/spi_coprocessor.hh:76-94 | any number of transfers gets through as long as no three attempts in a row fail |
| SpiCoprocessor.WriteSoundExactly | firmware/common/coprocessor/spi_coprocessor.hh:79-93 | the signed 16-bit counter makes that promise hold for objects of n bytes if and only if n is below 32768; longer ones are not sent at all and reported as written |
| SpiCoprocessor.AttemptsDeliver | firmware/common/coprocessor/spi_coprocessor.cpp:321-375 | up to three attempts leave the old bytes or the chunk, and succeed exactly when one is acknowledged, which means the chunk |
| SpiCoprocessor.ChunksDeliver | firmware/common/coprocessor/spi_coprocessor.hh:79-93 | the chunks tile the object without gap or overlap |
| SpiCoprocessor.ChunkIdempotent | firmware/common/coprocessor/object_dictionary.cpp:36-53 | writing a chunk twice is writing it once |
| SpiCoprocessor.AckMeansDeliveredExactly | firmware/common/coprocessor/spi_coprocessor.cpp:161-187 | an acknowledged attempt has delivered its chunk, whatever the slave held, if and only if the frame was not cut short of a write packet |
| SpiCoprocessor.TruncatedWriteExample | firmware/common/coprocessor/spi_coprocessor.cpp:161-187 | two chunks, the second cut short: the slave applies and acknowledges the first one again and the write returns true without the end of the object |
| SpiSlave.AttemptFromFrames | firmware/common/coprocessor/spi_coprocessor.cpp:161-187 | from any state of the slave, rebuilding the static packet from what arrives, checking its CRC and setting the bytes comes to what the table of fates says: an intact frame is taken, a garbled one spoils the kept packet, one cut short applies the kept packet again |
| SpiSlave.AckFromFrames | firmware/common/coprocessor/spi_coprocessor.cpp:174-184 | the slave acknowledges, and the acknowledgement gets back, exactly when the table counts the attempt as done |
| SpiSlave.AnswersWhenAsked | firmware/common/coprocessor/spi_coprocessor.cpp:161-187 | the slave answers exactly a write that asks for an acknowledgement, once the packet it then has passes the CRC check |
| SpiSlave.DamageHasOneFate | firmware/common/coprocessor/spi_coprocessor_packet.hh:86-97 | damage to two adjacent bytes has exactly one fate: misrouted when the frame carries data and its command has become the read command, lost when the command is no write any more otherwise, delivered when only the length field is hit, garbled in every other case |
| SpiSlave.OneBitMisroutes | firmware/common/coprocessor/spi_coprocessor.cpp:188-190 | one bit of the command byte makes a read command of a write command, and then a frame with data goes to the shorter read request packet |
| SpiSlave.HasFateExactly | firmware/common/coprocessor/spi_coprocessor.cpp:136-222 | whatever arrives in place of a write frame has a fate, unless it is another write frame with a matching CRC |
| SpiSlave.CutShort | firmware/common/coprocessor/spi_coprocessor_packet.hh:86-94 | a frame that ends within its first eight bytes is lost if nothing of it arrives, else truncated |
| SpiSlave.EveryFateCanHappen | firmware/common/coprocessor/spi_coprocessor.cpp:161-187 | every fate can befall every frame, misrouting every frame that carries data |
| SpiSlave.FieldsReadBack | firmware/common/coprocessor/spi_coprocessor_packet.hh:56-66 | the slave reads from a frame the command, address, offset and data that the master put in |
| SpiSlave.Device.Update | firmware/common/coprocessor/spi_coprocessor.cpp:136-187 | one transaction of the slave changes its bytes, its effect and its static packet as specified and answers accordingly; anything but a write leaves them alone |
| SpiSlave.Device.Apply | firmware/common/coprocessor/spi_coprocessor.cpp:165-181 | the packet is set exactly if its CRC matches |
| SpiSlave.Device.SetBytes | firmware/common/coprocessor/object_dictionary.cpp:36-53 | the data lands at its offset and nothing else changes; the chunk that ends the object puts it into effect; other objects leave it alone |
| SpiMaster.Link.Attempt | firmware/common/coprocessor/spi_coprocessor.cpp:346-370 | sending the populated frame over a wire whose damage is as the fates say moves the slave as the table of fates does, and the master counts it as done as the table says |
| SpiMaster.Link.SendWithRetries | firmware/common/coprocessor/spi_coprocessor.cpp:343-370 | the retry loop equals up to three attempts |
| SpiMaster.Link.PartialWrite | firmware/common/coprocessor/spi_coprocessor.cpp:321-375 | fills and populates the packet and equals up to three attempts with that chunk of the object; a re-entrant call returns false and does nothing |
| SpiMaster.Link.Write | firmware/common/coprocessor/spi_coprocessor.hh:66-94 | single transfer or chunk loop, with length 0 for the whole object, equals the specified outcome; an object of fewer than 32768 bytes is written successfully if and only if each of its transfers has an attempt that works among its three |
| SpiReads.ReadLink.Read | firmware/common/coprocessor/spi_coprocessor.hh:101-132 | if a read of fewer than 32768 bytes returns true over a link whose damage shows, the object holds the slave's bytes; otherwise each byte is the old one or the slave's; it returns true if and only if each of its transfers has an attempt that is answered among its three; a longer read fetches nothing and returns true |
| SpiReads.ReadLink.PartialRead | firmware/common/coprocessor/spi_coprocessor.cpp:377-468 | the retry loop equals up to three attempts; an answered chunk lands at its offset and nothing else of the object changes; a re-entrant call does nothing |
| SpiReads.AttemptsReadTheChunk | firmware/common/coprocessor/spi_coprocessor.cpp:377-468 | without frames cut short a chunk is read from where it was asked for, and is read exactly when some attempt is answered |
| SpiReads.AnswerIsAskedExactly | firmware/common/coprocessor/spi_coprocessor.cpp:188-211 | an answer is to the request that was made, whatever the slave kept before, if and only if the request was not cut short |
| SpiReadSlave.ReadFromFrames | firmware/common/coprocessor/spi_coprocessor.cpp:188-211 | from the bytes on the wire: the slave keeps the request, and the master accepts the answer and with it that part of the bytes, as the table of fates says |
| SpiReadSlave.AnswerDamageIsSeen | firmware/common/coprocessor/spi_coprocessor.cpp:426-443 | an answer that is damaged in two adjacent bytes never passes the checks of the master |
| SpiReadSlave.RequestDamageIsSeen | firmware/common/coprocessor/spi_coprocessor_packet.hh:153-162 | a request that is damaged in two adjacent bytes is not answered, and leaves an invalid request, or the old one if the command is no read any more |
| SpiReadSlave.ResponseReadsBack | firmware/common/coprocessor/spi_coprocessor.cpp:198-210 | the master reads from a response the bytes that the slave put into it |
| SpiReadSlave.RequestReadsBack | firmware/common/coprocessor/spi_coprocessor.cpp:386-391 | the slave reads from a request the address, offset and length that the master put into it |
| SpiReads.TruncatedReadExample | firmware/common/coprocessor/spi_coprocessor.cpp:188-211 | a request cut short makes the slave answer the previous one, whose data the master takes for the next chunk |
| QueueRoll.RequestLink.Update | firmware/common/coprocessor/spi_coprocessor.cpp:57-88 | the loop over the reported requests, at most five, equals that many turns of read, execute and roll, ending at the first that fails |
| QueueRoll.RequestLink.Roll | firmware/common/coprocessor/spi_coprocessor.cpp:76-86 | up to three roll commands, each preceded by arrivals: the slave takes one request off for each that reaches it and finds one, and the history records them and the roll |
| QueueRoll.RequestLink.RollAttempt | firmware/common/coprocessor/object_dictionary.cpp:62-76 | one roll command takes the request at the head, if there is one, and the master counts it as done exactly when that is acknowledged or another packet is |
| QueueRoll.RequestLink.RunUpdates | firmware/common/coprocessor/spi_coprocessor.cpp:57-88 | any run of updates on the objects ends where the run of the specification does |
| QueueRoll.RunInOrderExactly | firmware/common/coprocessor/spi_coprocessor.cpp:57-88 | on every run of updates, with losses and failures anywhere and arrivals before every read, execution and roll command, what was enqueued is what left followed by what is queued, and the history is in order if and only if no roll was doubled: FIFO execution, each request successfully executed before it leaves, each leaves once |
| QueueRoll.ReliableNeverDoubled | firmware/common/coprocessor/spi_coprocessor.cpp:470-512 | reliable acknowledgements are enough for no roll to be doubled |
| QueueRoll.UpdateTakes | firmware/common/coprocessor/spi_coprocessor.cpp:57-88 | an update in which no roll is doubled takes at most the reported requests, and at most five, off the queue, and exactly that number when it returns true and no other packet was acknowledged in place of a roll |
| QueueRoll.UndisturbedUpdate | firmware/common/coprocessor/spi_coprocessor.cpp:57-88 | when nothing is lost and every execution succeeds, an update returns true and has taken off exactly the requests it was told of, in order, up to five of them |
| QueueRoll.TurnExactly | firmware/common/coprocessor/spi_coprocessor.cpp:60-87 | a turn executes the request at the head if and only if it reads one, and begins a roll if and only if that succeeds; otherwise it fails and takes nothing off the queue |
| QueueRoll.TurnSucceedsExactly | firmware/common/coprocessor/spi_coprocessor.cpp:60-87 | with reliable acknowledgements a turn succeeds if and only if it reads a request, executes it successfully and one of the three roll commands gets through |
| QueueRoll.ArrivedIsKept | firmware/common/coprocessor/object_dictionary.cpp:402-409 | of the requests that tasks enqueue those are accepted, in order, for which there is room |
| QueueRoll.TurnIsSound | firmware/common/coprocessor/spi_coprocessor.cpp:60-87 | each turn keeps conservation, the bound of the queue, the record of what was executed and whether the order still holds |
| QueueRoll.RolledProgress | firmware/common/coprocessor/object_dictionary.cpp:62-76 | after a successful execution a roll that takes at most one request keeps the order and a doubled one breaks it for good |
| QueueRoll.RollsAtMostOnceExactly | firmware/common/coprocessor/object_dictionary.cpp:62-76 | a roll by one, during which requests may arrive before every attempt, takes more than one off if and only if a command arrives again after a lost acknowledgement and, counting those that came meanwhile, two requests are there by then |
| QueueRoll.LateArrivalExample | firmware/common/coprocessor/object_dictionary.cpp:402-409 | a request that is enqueued between a lost acknowledgement and the retry leaves with the one before it |
| QueueRoll.SuccessTakesExactly | firmware/common/coprocessor/spi_coprocessor.cpp:343-370 | a roll that reports success has taken a request, unless an acknowledgement of another packet is what the master hears first |
| QueueRoll.RollsAreCounted | firmware/common/coprocessor/spi_coprocessor.cpp:343-370 | the attempts on the queue, with arrivals before each, take as many requests as counted, lose and reorder none and record each |
| QueueRoll.ReliableRoll | firmware/common/coprocessor/spi_coprocessor.cpp:470-512 | with reliable acknowledgements a roll takes one request exactly when it reports success, and none otherwise |
| QueueRoll.ReliableRollExactly | firmware/common/coprocessor/spi_coprocessor.cpp:343-370 | with reliable acknowledgements a roll of a non-empty queue reports success if and only if one of its attempts gets through |
| QueueRoll.ProgressIsOrder | firmware/common/coprocessor/spi_coprocessor.cpp:57-88 | unbroken progress is an orderly history: queue order, executed successfully before leaving, each left once |
| QueueRoll.DoubleRollBreaksOrder | firmware/common/coprocessor/object_dictionary.cpp:62-76 | a second roll on the heels of the first lets a request leave that was never executed |
| RollFrames.RollFromFrames | firmware/common/coprocessor/spi_coprocessor.cpp:161-187 | from the bytes that reach the slave and the write packet it kept: the queue is rolled exactly when the fate says that the command arrives, and the master counts the roll as done exactly when the fate settles it |
| RollFrames.DeceivedExactly | firmware/common/coprocessor/spi_coprocessor.cpp:161-187 | a roll is acknowledged without being made exactly when it is cut short and the kept packet is another one that the slave carries out again |
| Beast.StreamReadsBack | firmware/common/comms/beast/beast_utils.cpp:77-209 | any concatenation of Mode S, UAT ADS-B and uplink frames splits back into the same frames with their contents unescaped |
| Beast.StreamUnique | firmware/common/comms/beast/beast_utils.cpp:77-209 | no two sequences of frames share a byte stream |
| Beast.FrameReadsBack | firmware/common/comms/beast/beast_utils.cpp:77-209 | one frame is read back whole, whatever follows it |
| Beast.FrameLayout | firmware/common/comms/beast/beast_utils.hh:10-32 | where nothing needs an escape, a frame is the escape character, the type bytes of its kind, the counter with its most significant byte first, the level and the message |
| Beast.FrameFits | firmware/common/comms/beast/beast_utils.hh:31-39 | every frame fits its declared maximum although that leaves out the leading escape byte |
| Beast.MaximumIsReached | firmware/common/comms/beast/beast_utils.hh:31-39 | the maximum is reached by some packet of each longest kind |
| Beast.LevelNeverEscapes | firmware/common/comms/beast/beast_tables.hh:10-13 | no signal level needs an escape |
| Beast.LevelEnds | firmware/common/comms/beast/beast_utils.cpp:93-98 | the level is clamped to the ends of the table at -100 and -40 dBm |
| Beast.LevelMonotone | firmware/common/comms/beast/beast_utils.cpp:93-98 | a stronger signal never has a lower level |
| Beast.StampRoundTrip | firmware/common/comms/beast/beast_utils.cpp:77-88 | the six timestamp bytes give back the 48-bit counter |
| Beast.UnescapeEscaped | firmware/common/comms/beast/beast_utils.cpp:35-46 | undoing the escapes gives the original bytes and stops right behind them |
| Beast.WriteBufferWithBeastEscapes | firmware/common/comms/beast/beast_utils.cpp:35-46 | writes the bytes with every escape byte doubled and returns how many it wrote |
| Beast.BuildModeSBeastFrame | firmware/common/comms/beast/beast_utils.cpp:100-126 | writes exactly the frame of a 7- or 14-byte message, else leaves only the escape byte and returns 0 |
| Beast.BuildUATADSBBeastFrame | firmware/common/comms/beast/beast_utils.cpp:159-188 | writes exactly the frame of a 30- or 48-byte message, else nothing, and returns 0 |
| Beast.BuildUATUplinkBeastFrame | firmware/common/comms/beast/beast_utils.cpp:190-209 | writes exactly the frame of a 552-byte message, else nothing, and returns 0 |
| LogMessages.PullExactly | firmware/common/coprocessor/spi_coprocessor.cpp:91-101 | the master gets exactly the messages that the slave reported, whatever the buffers held before, if and only if they pack to at most 4093 bytes, or the first chunk is full to its last byte and the missing messages equal those at the head of the queue |
| LogMessages.PullLogMessages | firmware/common/coprocessor/spi_coprocessor.cpp:91-106 | reading in chunks, each of which packs the head of the queue again, unpacking with the queued count and rolling by the number unpacked: the master gains what was unpacked and the slave loses as many |
| LogMessages.SecondChunk | firmware/common/coprocessor/object_dictionary.cpp:188-193 | the second chunk of a longer read repeats the front of the first one, because the offset is not looked at |
| LogMessages.UnpackAll | firmware/common/coprocessor/object_dictionary.cpp:520-554 | told of at least as many messages as were packed, unpacking returns all of them and nothing else |
| LogMessages.StopsExactly | firmware/common/coprocessor/object_dictionary.cpp:520-554 | unpacking stops if and only if there is no room for a header, the length is over 500, or there are fewer bytes than the length says |
| LogMessages.UnpackedFits | firmware/common/coprocessor/object_dictionary.cpp:520-554 | whatever the bytes are, what is unpacked from them packs to no more bytes than there are, and no text is over 500 characters |
| LogMessages.NineLongestExample | firmware/common/coprocessor/spi_coprocessor.cpp:91-101 | nine messages of 500 characters need a second chunk, and for some earlier contents of the response the master does not get them |
| LogMessages.ExceedsBufferExactly | firmware/common/coprocessor/spi_coprocessor.cpp:93-95 | the packed messages exceed the 5000-byte buffer of the master exactly when their characters and 5 bytes for each do, which only a full queue of ten reaches |
| LogMessages.TenLongestExample | firmware/common/coprocessor/spi_coprocessor.cpp:93-95 | ten messages of 500 characters pack to 5050 bytes, 50 more than the buffer |
| LogMessages.PackedSize | firmware/common/coprocessor/object_dictionary.cpp:506-514 | a message packs to its characters and 5 bytes |
| LogMessages.PackedLayout | firmware/common/coprocessor/object_dictionary.cpp:497-518 | a packed message is its level and its length with the low byte first, its characters and a zero |
| LogMessages.UnpackPacked | firmware/common/coprocessor/object_dictionary.cpp:497-554 | unpacking the packed messages returns them in order, whatever lies behind them in the buffer |
| LogMessages.FitCountIsLongest | firmware/common/coprocessor/object_dictionary.cpp:497-518 | packing takes the longest prefix of the queue that fits |
| LogMessages.AllFit | firmware/common/coprocessor/object_dictionary.cpp:497-518 | everything is packed exactly when the whole queue fits the buffer and the requested number |
| LogMessages.PackLogMessages | firmware/common/coprocessor/object_dictionary.cpp:497-518 | writes that prefix into the buffer, returns its length and leaves the queue alone |
| LogMessages.PackedSizeBytes | firmware/common/coprocessor/object_dictionary.cpp:460-492 | the size computed for the device status is the number of bytes the whole queue packs to |
| LogMessages.UnpackLogMessages | firmware/common/coprocessor/object_dictionary.cpp:520-554 | enqueues the messages in order and stops at a missing header, a length over 500 or missing bytes |
| Reporting.CommsManager.UpdateReporting | firmware/common/comms/comms_reporting.cpp:142-241 | protocols without sinks drop out; a round begins exactly when somebody listens, no protocol is on its way and the interval has passed, puts the old snapshot and courses on record and takes a new snapshot; then each walking protocol advances by its chunk |
| Reporting.CommsManager.Run | firmware/common/comms/comms_reporting.cpp:142-241 | any run of calls on the object ends where the run of the specification does |
| Reporting.RunCompletesRounds | firmware/common/comms/comms_reporting.cpp:142-241 | on every run, each protocol that keeps its sinks has given every aircraft of the snapshot exactly one turn, in order, in every round that the run begins and puts on record |
| Reporting.RunEndsRounds | firmware/common/comms/comms_reporting.cpp:417-442 | on every run in which each call can send it, a protocol with an end marker that keeps its sinks has sent it in every round that the run begins and puts on record, once and behind all turns |
| Reporting.RoundSends | firmware/common/comms/comms_reporting.cpp:142-241 | from the call that begins a round on, what a listening protocol has sent in it is what its budgets make of the snapshot |
| Reporting.RoundHeartbeatExactly | firmware/common/comms/comms_reporting.cpp:465-476 | in a round of a run the heartbeat goes out once if and only if its first call gets to an aircraft, there is none, or it is the only call |
| Reporting.RunSnapshots | firmware/common/comms/comms_reporting.cpp:142-182 | the snapshots on record are those of the calls that began the rounds, one each, and are never rebuilt in between |
| Reporting.BeginningsApart | firmware/common/comms/comms_reporting.cpp:154-156 | on every run consecutive rounds begin at least 1000 ms apart, on a clock that wraps |
| Reporting.BeginsAfterInterval | firmware/common/comms/comms_reporting.cpp:142-156 | a round begins only 1000 ms after the last, with somebody listening and no listening protocol on its way; only then the time is taken |
| Reporting.NoSinksNothingSent | firmware/common/comms/comms_reporting.cpp:142-156 | a protocol without sinks is sent nothing in a call and is not in the round after it |
| Reporting.WalkAdvances | firmware/common/comms/comms_reporting.cpp:142-241 | a protocol on its way that keeps its sinks holds the round, and its index advances by the sum of its budgets until it reaches the end |
| Reporting.NextIsSound | firmware/common/comms/comms_reporting.cpp:142-241 | each call keeps every recorded round over and every protocol in step with its walk |
| Reporting.CommsManager.StartRound | firmware/common/comms/comms_reporting.cpp:156-182 | the old round goes on record and the new one begins at index 0 for exactly the protocols with sinks |
| Reporting.CommsManager.DropLost | firmware/common/comms/comms_reporting.cpp:142-150 | exactly the walking protocols without sinks leave the round |
| Reporting.CommsManager.ReportChunk | firmware/common/comms/comms_reporting.cpp:375-636 | one call of a reporter moves its index, its round flag and what it has sent as the chunk says, and no other protocol |
| Reporting.CommsManager.TakeSnapshot | firmware/common/comms/comms_reporting.cpp:163-169 | the snapshot is the keys in iteration order, cut at 200 |
| Reporting.WalkChunk | firmware/common/comms/comms_reporting.cpp:375-447 | the shared loop sends a turn to each aircraft the budget allows, and ends the walk exactly when it reaches the end of the snapshot |
| Reporting.WalkerHoldsSnapshot | firmware/common/comms/comms_reporting.cpp:142-156 | after the interval a round starts exactly when every protocol still walking has lost its sinks |
| Reporting.CallsCover | firmware/common/comms/comms_reporting.cpp:375-636 | however budgets cut the walk, the turns go to consecutive aircraft, each once; only the sum of the budgets matters |
| Reporting.TurnsReportExactly | firmware/common/comms/comms_reporting.cpp:375-415 | a turn sends a report if and only if its aircraft is still in the dictionary and can be written |
| Reporting.CallsReport | firmware/common/comms/comms_reporting.cpp:375-415 | over all calls of a walk, a turn sends a report or not as the dictionary is in one of them |
| Reporting.ChunkInStep | firmware/common/comms/comms_reporting.cpp:375-636 | a chunk keeps what was sent equal to the part of the snapshot walked, and the marker last and single |
| Reporting.HeartbeatFirst | firmware/common/comms/comms_reporting.cpp:465-476 | the heartbeat goes out before the reports of its call, and only in a call that is at the beginning |
| Reporting.HeartbeatOnceExactly | firmware/common/comms/comms_reporting.cpp:465-476 | the heartbeat is sent once in a round if and only if the first call gets to an aircraft, there is none, or there is no second call |
| PositionFilter.JumpIsConfirmed | firmware/common/adsb/aircraft_dictionary.cpp:109-157 | when consecutive published positions lie farther apart than the limit at the second, the last position between them that was not stale is a rejected candidate within that limit of it |
| PositionFilter.CandidateIsLatest | firmware/common/adsb/aircraft_dictionary.cpp:109-157 | the candidate is always the last position that was not stale, published or rejected |
| PositionFilter.PublishedIsLastPublished | firmware/common/adsb/aircraft_dictionary.cpp:109-157 | on every run of inputs the published position and its time are those of the last published input, so that a rejected or stale position never shows, and the position stays valid until it is invalidated |
| PositionFilter.VerdictDecides | firmware/common/adsb/aircraft_dictionary.cpp:119-157 | a published position shows at once, at its own time; a rejected one only becomes the candidate, a stale one changes nothing, and published position, validity and update time stay as they were |
| PositionFilter.StaleChangesNothing | firmware/common/adsb/aircraft_dictionary.cpp:119-128 | a repeated or older timestamp changes nothing, a newer one always becomes the candidate |
| PositionFilter.AllowanceExact | firmware/common/adsb/aircraft_dictionary.cpp:113-115 | the 32-bit product allows one meter per millisecond if and only if at most 4294967 ms have passed |
| CprTrack.RunStaysPaired | firmware/common/adsb/aircraft_dictionary.cpp:1911-1932 | on every run of messages a stored half is the packet of a received message of the kind the airborne flag says, and a stored pair is at most 30 s apart |
| CprTrack.DecodesNeverMix | firmware/common/adsb/aircraft_dictionary.cpp:59-107 | on every run each call of the decoder is for two received halves of the one kind it was asked for, at most 30 s apart |
| CprTrack.HandledSoundly | firmware/common/adsb/aircraft_dictionary.hh:204-209 | every message keeps the halves paired, whatever it does to the airborne flag |
| CprTrack.MaxAllowedInterval | firmware/common/adsb/aircraft_dictionary.hh:235-244 | the allowed interval never exceeds 30 s, for every speed and clock |
| CprTrack.IntervalScales | firmware/common/adsb/aircraft_dictionary.hh:235-244 | a known speed on a fresh track gives 19 s at 500 knots, 30 s exactly up to 316 knots, and 9500000 ms over the speed above |
| CprTrack.IntervalOtherwise | firmware/common/adsb/aircraft_dictionary.hh:235-244 | without a known speed, or on a track not updated for 20 s, the allowance is 10 s; a negative speed leaves none |
| CprTrack.VelocityScales | firmware/common/adsb/aircraft_dictionary.cpp:635-706 | a velocity message above 316 knots sets the allowance that follows from its speed and keeps the halves of an aircraft in the air |
| CprTrack.RunFeedsFilter | firmware/common/adsb/aircraft_dictionary.cpp:109-157 | the filter of an aircraft after a run is the filter after the inputs the run fed it, none of them unfiltered when the filter is on |
| AircraftTracking.ModeSAircraft.constructor | firmware/common/adsb/aircraft_dictionary.cpp:27-33 | a new aircraft has no halves, no position and is on the ground |
| AircraftTracking.ModeSAircraft.ClearCPRPackets | firmware/common/adsb/aircraft_dictionary.hh:204-209 | both halves lose their timestamps and nothing else changes |
| AircraftTracking.ModeSAircraft.WriteAirborneFlag | firmware/common/adsb/aircraft_dictionary.hh:301-307 | the flag takes the value, and a change of it clears both halves |
| AircraftTracking.ModeSAircraft.SetCPRLatLon | firmware/common/adsb/aircraft_dictionary.cpp:1911-1932 | stores the half unless a count is out of range, after clearing both when the other one is too far away in time |
| AircraftTracking.ModeSAircraft.CanDecodePosition | firmware/common/adsb/aircraft_dictionary.cpp:35-57 | holds exactly with both halves within the allowed interval; a pair too far apart makes the position invalid |
| AircraftTracking.ModeSAircraft.DecodePosition | firmware/common/adsb/aircraft_dictionary.cpp:59-158 | decodes, filters and publishes as specified; without a pair or a result nothing is published |
| AircraftTracking.ModeSAircraft.Publish | firmware/common/adsb/aircraft_dictionary.cpp:109-157 | the filter and the publication change the filter state as one filter input does; a position that is not published leaves the published one, its validity and its time alone |
| AircraftTracking.ModeSAircraft.ApplySurfacePosition | firmware/common/adsb/aircraft_dictionary.cpp:280-425 | a surface message clears the airborne flag, sets the speed and handles its report |
| AircraftTracking.ModeSAircraft.ApplyAirbornePosition | firmware/common/adsb/aircraft_dictionary.cpp:433-630 | an airborne message sets the flag, and an unsupported type code stores nothing |
| AircraftTracking.ModeSAircraft.ApplyAirborneVelocities | firmware/common/adsb/aircraft_dictionary.cpp:635-710 | a velocity message sets the airborne flag and the reported speed |
| AircraftTracking.UATAircraft.DecodePosition | firmware/common/adsb/aircraft_dictionary.cpp:1007-1061 | the UAT filter takes the same step, at the time of the current message; with the filter off the stored candidate is published; a position that is not published leaves the published one, its validity and its time alone |
| AircraftTracking.UATAircraft.ApplyStateVector | firmware/common/adsb/aircraft_dictionary.cpp:1063-1075 | a state vector without a position makes it invalid, any other one is a candidate |
| PositionFilter.CloseIsPublished | firmware/common/adsb/aircraft_dictionary.cpp:130-148 | a newer first position and one within 20 km of the candidate are always published; a farther one exactly when the elapsed time allows the distance |
| CprTrack.FreshPairDecodes | firmware/common/adsb/aircraft_dictionary.cpp:1911-1932 | storing a half makes a decodable pair exactly when both halves have a time and are no farther apart than allowed, and then keeps the other half as it was |
| CprTrack.PairIsDecoded | firmware/common/adsb/aircraft_dictionary.cpp:58-99 | a report whose other half is stored, fresh and of the same kind reaches the decoder with exactly those two halves |
| CprTrack.CompletedPairIsDecoded | firmware/common/adsb/aircraft_dictionary.cpp:606-633 | a position message that completes a fresh pair, of an aircraft known to be in the air or on the ground and still there, has the decoder called with exactly the stored half and the new one |
| CprTrack.DecodedIsFed | firmware/common/adsb/aircraft_dictionary.cpp:59-157 | what the decoder makes of a near enough pair reaches the filter as exactly one input, at the time of the later half, as a candidate with the filter on and unfiltered with it off; if it makes nothing of it, nothing changes |
| CprTrack.OverlongIgnored | firmware/common/adsb/aircraft_dictionary.cpp:1911-1931 | a report whose counts exceed 17 bits leaves both halves alone |
| CprTrack.StalePairInvalidates | firmware/common/adsb/aircraft_dictionary.cpp:46-55 | a stored pair that is too far apart is not decoded, and the position becomes invalid but stays where it was |
| CprTrack.AcceptedExactly | firmware/common/adsb/aircraft_dictionary.cpp:409-431 | a position report fails if and only if it leaves a pair that is near enough to be decoded and nothing is published |
| CprTrack.PublishedIsDecoded | firmware/common/adsb/aircraft_dictionary.cpp:150-157 | what is published is what the decoder made of the stored pair, at the time of its later half |
| AircraftDictionary.UidRoundTrip | firmware/common/adsb/aircraft_dictionary.hh:54-91 | an identifier gives back type and low 28 address bits, and is shared exactly by aircraft that agree in both |
| AircraftDictionary.Dictionary.Run | firmware/common/adsb/aircraft_dictionary.hh:903-975 | every run of messages, insertions and updates goes through tables that follow each other step by step, each within 200 entries, keyed by its entries' identifiers and with the lowest pointer null or live |
| AircraftDictionary.TraceIsSound | firmware/common/adsb/aircraft_dictionary.cpp:1326-1403 | on every run of steps, in whatever orders the map is walked, capacity, keys and the lowest pointer stay sound |
| AircraftDictionary.Undisturbed | firmware/common/adsb/aircraft_dictionary.cpp:1337-1349 | while nothing is heard of an aircraft its entry does not change; it leaves only when stale at an update or when it is an oldest entry and a new one finds the dictionary full, and stays away |
| AircraftDictionary.StepElsewhere | firmware/common/adsb/aircraft_dictionary.hh:903-920 | a step about another aircraft keeps an entry or lets it leave for one of those two reasons |
| AircraftDictionary.PrunesIsSound | firmware/common/adsb/aircraft_dictionary.cpp:1337-1397 | the pointer that an update leaves is at one of its survivors |
| AircraftDictionary.StaleExactly | firmware/common/adsb/aircraft_dictionary.cpp:1336-1349 | for every age of an entry, wrapping clock included, it is pruned if and only if that age is above the interval |
| AircraftDictionary.CountsKind | firmware/common/adsb/aircraft_dictionary.cpp:1350-1358 | each count is the number of entries of its type that are left |
| AircraftDictionary.MessageIsStored | firmware/common/adsb/aircraft_dictionary.cpp:1562-1596 | after a message the entry of its aircraft has the values of the message, under the low 28 bits of its address |
| AircraftDictionary.CreatedThenFilled | firmware/common/adsb/aircraft_dictionary.cpp:1562-1596 | creating an entry and then giving it its fields is storing the merged entry |
| AircraftDictionary.Dictionary.InsertAircraft | firmware/common/adsb/aircraft_dictionary.hh:903-920 | stores the aircraft under its own identifier and changes nothing else; only a new one in a full dictionary costs an entry with the smallest timestamp its place, and the pointer with it |
| AircraftDictionary.Dictionary.AddNode | firmware/common/adsb/aircraft_dictionary.hh:1072-1085 | a new key gets a node that no live entry has, and the monotonic region is not touched |
| AircraftDictionary.Dictionary.GetAircraftPtr | firmware/common/adsb/aircraft_dictionary.hh:960-976 | finds an entry of the right type and changes nothing, inserts a missing one when asked like any other, and never touches one of another type |
| AircraftDictionary.Dictionary.RemoveOldestAircraft | firmware/common/adsb/aircraft_dictionary.cpp:1880-1900 | removes an entry with the smallest timestamp and clears the pointer exactly if it was there |
| AircraftDictionary.Dictionary.RemoveAircraft | firmware/common/adsb/aircraft_dictionary.cpp:1869-1878 | removes the key and leaves the pointer, which stays live exactly when it was not at that entry |
| AircraftDictionary.Dictionary.Init | firmware/common/adsb/aircraft_dictionary.cpp:1322-1324 | empties the dictionary and leaves the pointer, which is live afterwards exactly when it was null |
| AircraftDictionary.Dictionary.Ingest | firmware/common/adsb/aircraft_dictionary.cpp:1562-1596 | a message stores its fields under the aircraft's identifier, at the address it was created with, and changes no other entry unless a new one needs room |
| AircraftDictionary.Dictionary.Perform | firmware/common/adsb/aircraft_dictionary.cpp:1326-1403 | each operation of the dictionary is a step of the specification |
| AircraftDictionary.Dictionary.Update | firmware/common/adsb/aircraft_dictionary.cpp:1326-1403 | an entry last heard no longer ago than the interval stays as it is and an older one goes, also across the wrap of the clock; the counts are the numbers of Mode S and of UAT entries that are left; the pointer ends at the lowest usable survivor whenever the previous lowest was not pruned |
| AircraftDictionary.FoldFindsLowest | firmware/common/adsb/aircraft_dictionary.cpp:1366-1393 | the comparison finds the lowest survivor with a usable altitude when it starts from null or a survivor |
| AircraftDictionary.FoldIsLive | firmware/common/adsb/aircraft_dictionary.cpp:1341-1349 | the pointer ends null or at a survivor |
| AircraftDictionary.FoldNearlyLowest | firmware/common/adsb/aircraft_dictionary.cpp:1341-1393 | from a pruned lowest the pass can miss only survivors no lower than it was |
| AircraftDictionary.LowestExactly | firmware/common/adsb/aircraft_dictionary.cpp:1326-1403 | the pass ends at the lowest usable survivor in every iteration order if and only if the previous lowest is not pruned, or some survivor is lower than it, or none is below the maximum altitude |
| AircraftDictionary.KeyedDistinct | firmware/common/adsb/aircraft_dictionary.cpp:1337-1397 | the walk of Update meets each entry of the dictionary once and nothing else |
| AircraftDictionary.SnapshotNeverTruncates | firmware/common/comms/comms_reporting.cpp:163-169 | a dictionary within its capacity gives a reporting snapshot that is not cut short |
| FixedPool.FixedPoolResource.constructor | firmware/common/adsb/aircraft_dictionary.hh:1058-1066 | threads every block on the free list |
| FixedPool.FixedPoolResource.Allocate | firmware/common/adsb/aircraft_dictionary.hh:1072-1085 | a node comes from the head of the free list; only a larger request or an empty list reaches the monotonic region |
| FixedPool.FixedPoolResource.Deallocate | firmware/common/adsb/aircraft_dictionary.hh:1087-1097 | a node goes to the head of the free list and the rest of the list stays as it was |
| FixedPool.ThreadedElsewhere | firmware/common/adsb/aircraft_dictionary.hh:1087-1097 | relinking a block off the list does not disturb the list |

## Left out

- SpiCoprocessor.WriteDelivers: excludes frames cut short on the wire, because they are not detectable; AckMeansDeliveredExactly and TruncatedWriteExample say what they do.
- SpiCoprocessor.AckMeansDeliveredExactly: excludes write frames that arrive under the read command, because what the slave's memory holds after the overlong copy is not part of this model; the same goes for the attempts, chunks and the SpiMaster link. DamageHasOneFate and OneBitMisroutes say which frames these are.
- SpiMaster.Link.Attempt: excludes misrouted frames in the same way.
- UpdateRuns.RunsStaySafe: assumes that program steps stay inside the partition, because the write routine does not check it; WriteKeepsOtherExactly says when it matters.
- UpdateRuns.RunsVouch: excludes power loss while the status of an image that fails is rewritten; PowerLossVouchesExactly shows that no more can be promised for a blank one.
- UpdateRuns.RunsDescend: excludes power loss while the status is rewritten to a lower one; PowerLossDescendsExactly shows that no more can be promised, and RunsOnlyClearHeader covers that case too.
- FirmwareUpdate.PartialWriteFlashPartition: requires that an accepted write ends within the flash chip, because what the chip does beyond its end is not part of this model.
- CompositePacking.UnpackRawPacketsBufferToQueues: requires that an accepted buffer is well formed, because a wrapped length makes the code read past the buffer.
- CompositeArray.MergeStepsRefineTryMerge: requires a destination array of at least the merged size, as the caller's buffer has.
- AircraftDictionary.Dictionary.Run: leaves `RemoveAircraft` and `Init` out, because they do not reset the lowest pointer; their own contracts say when it stays live.
- Crc24.CalculateCRC24: requires a frame of 24 to 128 bits, because the bit index underflows below that; callers pass 56 or 112.
- CprTrack.RunStaysPaired: the kind of message a stored half came from is a history field, which the firmware does not keep.
- The pointers into a packed or parsed buffer, among them the null section pointers of a rejected one.
- SpiReads.ReadLink.Read: excludes frames cut short on the wire, because they are not detectable; TruncatedReadExample says what they do.
- SpiReadSlave.ReadFromFrames: an answer of another length than asked for is taken to fail the master's CRC check, which only bytes that match by accident could pass.
- SpiReads.AnswerIsAskedExactly: the request that the slave kept is for the object being read; one for another object brings that object's bytes.
- SpiSlave.Device.Update: requires that no frame of more than 8 bytes comes under the read command, which the slave would copy beyond its read request; and that a valid packet for the object lies inside it, because the copy into the object checks no bounds; what other objects answer is a fixed parameter.
- LogMessages.PullLogMessages: requires at most 5000 reported bytes, because what a read beyond the master's buffer does is not part of this model.
- LogMessages.PackLogMessages: requires messages of at most 500 characters; a text that is cut off when it is logged is recorded with the length it would have had.
- LogMessages.PullExactly: up to 5000 packed bytes, because what a read beyond the master's buffer does is not part of this model (ExceedsBufferExactly says when it happens), over an undamaged link, and nothing is logged between status and roll but behind the reported messages.
- Read request, response and ack packets: fixed shapes over the same CRC; the frame lemmas of `Crc16` apply to them.
- A frame that is another one with a matching CRC when it arrives; HasFateExactly says that these are the only ones left out.
- Console queue rolls, device status transfers and settings contents: plain copies.
- QueueRoll.RunInOrderExactly: leaves out roll commands under the read command, which are misrouted like other writes, and takes a read that gets through to be of the head of the queue.
- Acknowledgements that arrive late: the link is synchronous and acknowledgements carry no sequence number.
- The dictionary constructor with a configuration, which does not reserve buckets, and with it rehashing.
- Aircraft fields that neither the track, the filter nor the dictionary reads; NIC, category and altitude decoding.
- The CPR decoder, geoidal distance, floating-point conversion and text formatting of reports.
- Beast feed-start and ingest frames: a fixed prefix before a Mode S frame.
- The table form of the CRC24 and the CRC-32 engine; crc24 tables and hardware are not part of this model.
- Whether sends to sinks succeed, overrun messages, GPIO, interrupts, DMA, watchdogs and mutexes; queue operations are atomic.
