# Verified model of the book's embedded-systems code

A Dafny model of the parts of the repository on which its guarantees rest: the BDS wire formats and
the persistent parameter image built on them, the bounded queue, the retry protocol, the startup
sequencer, the subscription table, the NMEA parsers, the ramp driver and the heap monitor. Code that
updates objects is modelled by classes and loops, each method tied to a function on values; what the
program promises is then proved about those functions, over all inputs, all runs and all
interleavings.

`dafny verify dfyconfig.toml` checks everything.

## Layers

| files | what they model |
|---|---|
| Bytes, Crc16, CrcPolynomial | byte order, copying, CRC-16/CCITT-FALSE bit by bit and as a polynomial remainder |
| WireFormat, WireRules, BinaryStreams | the typed streams: first on byte strings, then over buffers with a latched error |
| MessageFrame, FrameLayout, FrameStreams | the 28-byte header, both checksums, frames |
| ParameterStore, ParameterRules | the parameter store with source precedence |
| StorageImage, StorageTheorems, StorageRestore, StorageLayout, StorageUpdate, StorageDevice | the persistent image: layout, walk, create, update, restore, and the object that holds it |
| BoundedQueue, QueueThreads, QueueSteps | the ring buffer under its mutex, and any number of threads calling it |
| RetryProtocol, RetrySteps, RetryNetwork, RetryTheorems, RetryDevices | client, server and the network between them |
| Startup, StartupTheorems, StartupRuns, StartupBoard | the startup sequencer with its workers and its timeout |
| MonitoringText, Subscriptions, SubscriptionTheorems | the monitoring requests, the subscription table and its deadlines |
| Nmea, NmeaRules, NmeaTheorems, NmeaStreams | sentence builder, strict parser, tokenizer and insertion stream |
| Ramp | rampers and the ramp driver over exact numbers |
| HeapCounters, HeapBlocks | the heap monitor's counters under interleaving, and its block layout |
| Arithmetic | division facts two of these share |

Each operation is stated twice. The function that a method is proved against follows the code; beside
it, in the files ending in Rules, Layout or Steps and in the theorems, lemmas say what it comes to for
every input in terms of bytes, characters, constructors and fields alone.

## How state, concurrency and the outside world appear

- Bytes and characters are integers from 0 to 255; the 32-bit and 16-bit fields are integers of
  their range, and where the code narrows or wraps, the model says so (`% 2^32` for the generation and
  for the length of a string).
- The byte order of the host is a parameter of every stream, frame and device.
- A mutex makes the stretch it protects one step; a notify is a later step of its own; a thread woken
  may take any time to get the mutex back; sleeping threads may wake for no reason.
- The network is the set of all datagrams ever sent. A delivery hands over any of them, at any time,
  any number of times, intact or damaged inside two adjacent bytes.
- A timer is a flag; whether it can be armed and disarmed, whether a datagram can be sent, and what the
  clock says are given from outside.
- The temperature limit is its 32-bit pattern; the range test is stated on patterns.
- Where the code does not do what a reader might expect, the model keeps the code, a lemma says
  exactly when it does, and another shows an input. An overlong text is accepted and lost:
  `WireFormat.TextRoundTripExactly`, `WireFormat.OverlongTextLost`. With a size limit below 254 reader
  and writer disagree: `WireFormat.SizesAgreeExactly`. Updating the one bad record of an image lets the
  others take effect as well: `StorageUpdate.UpdateIsLocal`, `StorageUpdate.HealedRecordSpreads`. Fields
  with separators do not survive the insertion stream: `NmeaTheorems.InsertThenTokenize`. A timeout that
  strikes after the loop has seen everything ready still makes the verdict TIMED OUT:
  `StartupRuns.VerdictIsRight`, `StartupRuns.ReadyButTimedOut`.

## Model

| member | source | states |
|---|---|---|
| Bytes.CopyForward | Common/src/BdsCommon.cpp:79-85 | the destination holds the source at the offset and is otherwise unchanged |
| Bytes.CopyReversed | Common/src/BdsCommon.cpp:87-96 | the same with the source reversed, for the index loop as written |
| Bytes.WireRoundTrip | Common/src/BinaryWriteStream.cpp:168-197 | bytes put in either wire order give the value back |
| Bytes.SwapIfDifferent | Common/src/BinaryWriteStream.cpp:168-197 | for every pair of host and wire order, swapping exactly when they differ turns host memory into wire bytes and wire bytes into host memory |
| Bytes.WireByteAt | Common/src/BinaryWriteStream.cpp:168-197 | byte k of a value on the wire is its k-th byte from the low end, or from the high end in the other order |
| Crc16.FeedByte | Common/src/BdsCommon.cpp:102-127 | the eight shifts after the byte has been xored into the top are eight bit-serial steps of the register |
| Crc16.Crc16CcittFalse | Common/src/BdsCommon.cpp:102-127 | the two nested loops compute the bit-serial register over the whole message, as a machine word |
| Crc16.NumberIsWord | Common/src/BdsCommon.cpp:102-127 | the number whose binary digits a register holds is the register read as an unsigned word |
| Crc16.LiftedIsShifted | Common/src/BdsCommon.cpp:108-112 | what is xored into the register for a byte is that byte shifted left by eight, and so 256 times its value |
| CrcPolynomial.CrcIsRemainder | Common/src/BdsCommon.cpp:102-127 | a 16-bit string is the checksum of a message if and only if the message polynomial, its first 16 coefficients inverted, times x^16 is a multiple of the generator plus that string |
| CrcPolynomial.DivisionUnique | Common/src/BdsCommon.cpp:102-127 | no dividend leaves two different remainders of degree below 16 |
| Crc16.RunLinear | Common/src/BdsCommon.cpp:102-127 | running the register is linear over exclusive or |
| Crc16.RunInjective | Common/src/BdsCommon.cpp:112-123 | any number of steps with the same bits keeps two different registers different |
| Crc16.BurstDetected | Common/src/BdsCommon.cpp:102-127 | messages of one length that differ, and differ only within 16 consecutive bits, have different checksums |
| Crc16.PairDetected | Common/src/BdsCommon.cpp:102-127 | the same for any change inside two adjacent bytes |
| BinaryStreams.BinaryWriteStream.WriteRawBytes | Common/src/BinaryWriteStream.cpp:199-214 | appends the bytes, or latches an overflow and changes nothing; no byte of the buffer outside those written changes |
| BinaryStreams.BinaryWriteStream.WriteScalar | Common/src/BinaryWriteStream.cpp:168-197 | appends the scalar in wire order whatever the order of the host, or latches an overflow |
| BinaryStreams.BinaryWriteStream.WriteSigned | Common/src/BinaryWriteStream.cpp:50-89 | appends the two's complement pattern of a signed value |
| BinaryStreams.BinaryWriteStream.WriteBool | Common/src/BinaryWriteStream.cpp:91-95 | appends one byte, 1 or 0 |
| BinaryStreams.BinaryWriteStream.WriteSize | Common/src/BinaryWriteStream.cpp:113-138 | appends the one-byte or the four-byte form of the size, or latches that it exceeds a limit |
| BinaryStreams.BinaryWriteStream.WriteString | Common/src/BinaryWriteStream.cpp:157-166 | appends the size, narrowed to 32 bits, and then the text |
| BinaryStreams.BinaryReadStream.ReadScalar | Common/src/BinaryReadStream.cpp:243-272 | reads the value in wire order and advances, or latches an underflow and leaves the variable alone |
| BinaryStreams.BinaryReadStream.ReadSigned | Common/src/BinaryReadStream.cpp:62-119 | the same for a signed value from its two's complement pattern |
| BinaryStreams.BinaryReadStream.ReadBool | Common/src/BinaryReadStream.cpp:121-130 | true for any byte but zero |
| BinaryStreams.BinaryReadStream.ReadSize | Common/src/BinaryReadStream.cpp:154-204 | reads either form; a long form of a small or too large size is invalid data and leaves the position |
| BinaryStreams.BinaryReadStream.ReadBytesView | Common/src/BinaryReadStream.cpp:206-221 | the next n bytes, or an underflow |
| BinaryStreams.BinaryReadStream.ReadStringView | Common/src/BinaryReadStream.cpp:223-241 | the size and then that many bytes; the size stays consumed if the body is missing |
| WireFormat.WriteErrorLatched | Common/src/BinaryWriteStream.cpp:199-224 | after an error no sequence of further writes changes anything |
| WireFormat.ReadErrorLatched | Common/src/BinaryReadStream.cpp:243-282 | after an error every further read fails and moves nothing |
| WireFormat.WritesAppend | Common/src/BinaryWriteStream.cpp:113-224 | no sequence of writes changes a byte already written |
| WireFormat.RoundTrip | Common/src/BinaryReadStream.cpp:154-282 | any sequence of typed fields that fits is read back unchanged, for either wire order, from any position and whatever lies behind |
| WireFormat.TextRoundTripExactly | Common/src/BinaryWriteStream.cpp:157-166 | a text the writer accepts comes back if and only if it is shorter than 2^32 bytes: the length is narrowed, the body is not |
| WireFormat.OverlongTextLost | Common/src/BinaryWriteStream.cpp:157-166 | a text of 2^32 bytes that the writer accepts and the reader gives back empty |
| WireFormat.WrittenSizeAccepted | Common/src/BinaryReadStream.cpp:154-204 | what the writer produces for a size the reader takes, for that size |
| WireFormat.AcceptedSizeWritten | Common/src/BinaryReadStream.cpp:154-204 | what the reader takes is what the writer produces, if the limit is at least 254 |
| WireFormat.SizesAgreeExactly | Common/src/BinaryReadStream.cpp:154-204 | reader and writer accept the same encodings for all data if and only if the limit is at least 254 |
| WireRules.PutExactly | Common/src/BinaryWriteStream.cpp:113-224 | a write succeeds exactly if its size is within both limits and its bytes find room; the error says which, and only a text's size may stay behind |
| WireRules.PutAllExactly | Common/src/BinaryWriteStream.cpp:113-224 | a sequence of writes succeeds exactly if every size is admissible and all bytes together find room |
| WireRules.PutLeaves | Common/src/BinaryWriteStream.cpp:50-197 | the bytes each kind of field leaves: wire order, two's complement, one byte for a flag, a size in one byte or behind 0xFF in three |
| WireRules.FixedExactly | Common/src/BinaryReadStream.cpp:62-282 | a scalar, flag or stretch of bytes is read exactly if its bytes are there, and else the position stays |
| WireRules.SizeExactly | Common/src/BinaryReadStream.cpp:154-204 | a size is read exactly if its bytes are there and its long form is above 254 and within the limit; the error says which failed and the position stays |
| WireRules.TextExactly | Common/src/BinaryReadStream.cpp:223-241 | a text is its size and then that many bytes; where these are missing the size stays consumed |
| WireRules.SignedExactly | Common/src/BinaryReadStream.cpp:62-119 | a signed value read is the one of its range that has the pattern |
| MessageFrame.HeaderRoundTrip | Common/include/MessageHeader.h:92-130 | a header decodes from its 28 bytes to itself |
| MessageFrame.HeaderSurjective | Common/include/MessageHeader.h:92-130 | every 28 bytes are the encoding of the header they decode to |
| FrameStreams.WriteHeaderV1 | Common/include/MessageHeader.h:92-110 | twelve field writes put the header's bytes, or stop with the stream's error |
| FrameStreams.ReadHeaderV1 | Common/include/MessageHeader.h:112-130 | twelve field reads give the header the bytes decode to |
| FrameStreams.ComputeHeaderCrc | Common/include/MessageHeader.h:141-167 | the checksum of the header's bytes with its own field cleared |
| FrameStreams.FinalizeCrcs | Common/include/MessageHeader.h:173-187 | sizes and both checksums filled in, in the order that makes the header checksum cover the rest |
| FrameStreams.ValidateHeaderV1 | Common/include/MessageHeader.h:193-228 | true exactly for a header whose constants, reserved bits and checksum are right |
| FrameStreams.WriteFrameV1 | Common/include/MessageFrame.h:36-78 | the frame lies at the front of the destination and no other byte changes; otherwise the status says why and nothing changes |
| FrameStreams.ReadFrameV1 | Common/include/MessageFrame.h:80-129 | header and payload, or the first check that fails and an empty payload |
| MessageFrame.FrameRoundTrip | Common/include/MessageFrame.h:36-129 | reading what was written gives the same fields and payload if and only if magic, version, endian and both flag fields are acceptable, and an invalid header otherwise |
| MessageFrame.HeaderPairDetected | Common/include/MessageHeader.h:193-228 | two valid headers that differ only inside two adjacent bytes and agree on one of the two checksum fields are equal; frames need no such condition |
| MessageFrame.FramePairDetected | Common/include/MessageFrame.h:80-129 | two accepted frames that differ only inside two adjacent bytes are equal, wherever these lie, the joints between header checksum, payload checksum and payload included |
| FrameLayout.ReadExactly | Common/include/MessageFrame.h:80-129 | every byte string: refused as too small, for one of the header bytes or the header checksum, for its length, or for the payload checksum, in this order; or read, with each field from its own bytes |
| FrameLayout.IsFrameExactly | Common/include/MessageFrame.h:80-129 | a byte string is a frame if and only if it begins 0x42 0x44 0x53 0x31 1 28, then 0 or 1, 0; byte 20 is 0 or 1 and bytes 21 to 23 are 0; its length is 28 plus the size field; and both checksums are right |
| FrameLayout.WrittenExactly | Common/include/MessageFrame.h:36-78 | where a written frame has each field, the payload's size, both checksums and the payload |
| ParameterStore.IdAt | Chapter16_Parameter_Management/include/ParameterDefinitions.h:34-37 | the raw ids below the count name the parameters one to one |
| ParameterStore.PutOnlyThere | Chapter16_Parameter_Management/include/ParameterStore.h:96-101 | writing one parameter leaves the bytes and the source of every other |
| ParameterStore.SetKeepsValid | Chapter16_Parameter_Management/include/ParameterStore.h:53-112 | an update takes effect with its source or changes nothing; every stored value stays valid |
| ParameterStore.AnyHistory | Chapter16_Parameter_Management/include/ParameterStore.h:53-112 | over any sequence of updates all values stay valid, no source loses precedence and the generation counts the updates, modulo 2^32 |
| ParameterRules.SetExactly | Chapter16_Parameter_Management/include/ParameterStore.h:53-112 | every update by parameter, value and pair of sources: what refuses it and in which order, which source displaces which, and otherwise the value's bytes in the parameter's place and no other |
| ParameterRules.GetExactly | Chapter16_Parameter_Management/include/ParameterStore.h:37-51 | the bytes each value is read from |
| ParameterRules.TemperatureExactly | Chapter16_Parameter_Management/include/ParameterDefinitions.h:161-164 | the admissible temperature patterns are exactly the 32-bit IEEE 754 numbers from -40 to 125 |
| ParameterStore.DefaultStoreValid | Chapter16_Parameter_Management/include/ParameterStore.h:29-35 | a new store holds the valid defaults, all from the compiled source |
| ParameterRules.DefaultBytes | Chapter16_Parameter_Management/include/ParameterStore.h:29-35 | the nine bytes, the sources and the generation of a new store |
| ParameterStore.Store.constructor | Chapter16_Parameter_Management/include/ParameterStore.h:29-35 | the object starts as that store |
| ParameterStore.Store.InitializeDefault | Chapter16_Parameter_Management/include/ParameterStore.h:136-154 | the default's encoding lands in the parameter's own bytes |
| ParameterStore.Store.Get | Chapter16_Parameter_Management/include/ParameterStore.h:37-51 | the value encoded in the parameter's bytes; never fails |
| ParameterStore.Store.Set | Chapter16_Parameter_Management/include/ParameterStore.h:53-112 | result, new state and change event, in the order of the checks |
| StorageTheorems.HeaderAcceptedExactly | Chapter17_DataPersistence/src/ParameterStorageImage.cpp:230-275 | exactly one string of ten bytes passes the image header checks |
| StorageLayout.HeaderDecides | Chapter17_DataPersistence/src/ParameterStorageImage.cpp:230-275 | for every byte string the first check of the image header it fails, by its bytes |
| StorageTheorems.NextIsRecord | Chapter17_DataPersistence/src/ParameterStorageImage.cpp:330-400 | where a well-framed record lies, the walk finds that record |
| StorageTheorems.RecordIsNext | Chapter17_DataPersistence/src/ParameterStorageImage.cpp:330-400 | whatever record the walk finds lies there, framed, and its bytes are in bounds |
| StorageTheorems.WalkIsFold | Chapter17_DataPersistence/src/ParameterStorageImage.cpp:311-405 | walking records laid out one behind the other is folding the callback over them |
| StorageTheorems.AcceptedExactly | Chapter17_DataPersistence/src/ParameterStorageImage.cpp:311-405 | a byte string is accepted if and only if it is the header followed by one well-framed record per parameter, in any order, tiling it exactly |
| StorageTheorems.EveryParameterOnce | Chapter17_DataPersistence/src/ParameterStorageImage.cpp:311-405 | in an accepted image each parameter has exactly one record |
| StorageTheorems.FailureReported | Chapter17_DataPersistence/src/ParameterStorageImage.cpp:330-394 | the whole decision behind any number of accepted records: nothing there, an unknown id, an id seen before, no frame because of its header, its size or either checksum, or the callback's own refusal is reported with the number of records before it and, once known, the id; otherwise one more record is accepted |
| StorageTheorems.TrailingBytesReported | Chapter17_DataPersistence/src/ParameterStorageImage.cpp:399-402 | bytes behind the last record are an invalid record count |
| StorageDevice.EncodeImageHeader | Chapter17_DataPersistence/src/ParameterStorageImage.cpp:191-228 | the ten header bytes at the front, the rest of the buffer unchanged |
| StorageDevice.DecodeImageHeader | Chapter17_DataPersistence/src/ParameterStorageImage.cpp:230-275 | the first check that fails, in the original's order |
| StorageDevice.ReadRecord | Chapter17_DataPersistence/src/ParameterStorageImage.cpp:330-383 | one turn of the walk up to the callback, with every error case |
| StorageDevice.WalkRecords | Chapter17_DataPersistence/src/ParameterStorageImage.cpp:311-405 | the loop over all records with its callback, for any callback |
| StorageDevice.FindRecordIn | Chapter17_DataPersistence/src/ParameterStorageImage.cpp:407-434 | position and size of the wanted frame, if the walk succeeds |
| StorageDevice.MakeFrame | Chapter17_DataPersistence/src/ParameterStorageImage.cpp:436-460 | the frame of the parameter's current bytes, if it fits |
| StorageDevice.ParameterStorageImage.Create | Chapter17_DataPersistence/src/ParameterStorageImage.cpp:488-528 | always succeeds, and the image is the header and the three records in order |
| StorageLayout.CreatedBytes | Chapter17_DataPersistence/src/ParameterStorageImage.cpp:488-528 | the 109 bytes of a created image: the header, and three frames with the store's nine bytes at their places |
| StorageDevice.ParameterStorageImage.AppendRecord | Chapter17_DataPersistence/src/ParameterStorageImage.cpp:497-524 | one record behind the image so far |
| StorageDevice.ParameterStorageImage.Update | Chapter17_DataPersistence/src/ParameterStorageImage.cpp:530-553 | the image in place becomes what the update function says |
| StorageDevice.ParameterStorageImage.RestoreInto | Chapter17_DataPersistence/src/ParameterStorageImage.cpp:555-578 | the store becomes the staged copy if the walk succeeds and stays untouched otherwise |
| StorageDevice.ParameterStorageImage.Assign | Chapter17_DataPersistence/src/ParameterStorageImage.cpp:580-590 | any bytes up to the capacity become the image; longer ones are refused |
| StorageDevice.SaveAndRestore | Chapter17_DataPersistence/src/ParameterStorageImage.cpp:488-578 | saving a store's image and restoring it into any store, itself included, succeeds if and only if every saved value is valid, and then merges by precedence; otherwise the target stays |
| StorageRestore.StageOne | Chapter17_DataPersistence/src/ParameterStorageImage.cpp:122-189 | staging accepts a record exactly if its type, size and value are right, and says which of them is not |
| StorageLayout.HeaderReported | Chapter17_DataPersistence/src/ParameterStorageImage.cpp:316-322 | a bad image header is reported with no record processed and no id, and no record is looked at |
| StorageLayout.StageDecides | Chapter17_DataPersistence/src/ParameterStorageImage.cpp:122-189 | a framed record is refused for service, type, order or size, then for a value out of range, and else staged, by its bytes |
| StorageRestore.RestoreExactly | Chapter17_DataPersistence/src/ParameterStorageImage.cpp:555-578 | restore succeeds if and only if the image consists of restorable records, whatever the store; otherwise the store stays |
| StorageLayout.RestoreAcceptsExactly | Chapter17_DataPersistence/src/ParameterStorageImage.cpp:311-405 | the byte strings restore accepts, byte by byte: the header and three frames of the three parameters, each behind its number, of its type and size, with a value in range |
| StorageRestore.RestoreMerges | Chapter17_DataPersistence/src/ParameterStorageImage.cpp:122-189 | after a restore each parameter is the record's where the store's source allows it and the store's own elsewhere; the generation grows by the number replaced |
| StorageLayout.RestoreBySource | Chapter17_DataPersistence/src/ParameterStorageImage.cpp:122-189 | after a successful restore a parameter that came from the compiled defaults or from storage has the record's bytes and comes from storage; one from the configuration file, the command line or run time keeps bytes and source |
| StorageLayout.RestoreCounts | Chapter17_DataPersistence/src/ParameterStorageImage.cpp:122-189 | the generation grows by the number of parameters that came from the compiled defaults or from storage |
| StorageRestore.CreateThenRestore | Chapter17_DataPersistence/src/ParameterStorageImage.cpp:488-578 | restoring what was created succeeds if and only if every value is valid, and then the result is the merge by precedence |
| StorageRestore.ReachableStoreRestores | Chapter17_DataPersistence/src/ParameterStorageImage.cpp:488-578 | so it is for every store that updates can lead to, restored into every other such store |
| StorageRestore.RecordPairDetected | Chapter17_DataPersistence/src/ParameterStorageImage.cpp:330-383 | two records of the right type, one in place of the other, that differ only inside two adjacent bytes are the same bytes |
| StorageRestore.DamagedImageRejected | Chapter17_DataPersistence/src/ParameterStorageImage.cpp:311-405 | any image restore accepts, changed only inside two adjacent bytes, record ids included, is not accepted, and the store stays as it was |
| StorageUpdate.FindExactly | Chapter17_DataPersistence/src/ParameterStorageImage.cpp:407-434 | in an accepted image every parameter is found, at its one record |
| StorageUpdate.UpdateExactly | Chapter17_DataPersistence/src/ParameterStorageImage.cpp:530-553 | update rewrites exactly one frame or nothing; size, record order and acceptance stay |
| StorageUpdate.UpdateRejects | Chapter17_DataPersistence/src/ParameterStorageImage.cpp:530-553 | an image that is not accepted is left unchanged |
| StorageUpdate.UpdatedRestored | Chapter17_DataPersistence/src/ParameterStorageImage.cpp:530-578 | the patched image is restored if and only if the new value is valid and the other records are restorable |
| StorageUpdate.UpdateIsLocal | Chapter17_DataPersistence/src/ParameterStorageImage.cpp:530-578 | for every image the walk accepts: whatever the store, restore after an update differs from restore before it in that parameter's value only, if and only if the frame does not fit, some other record cannot be restored, or the old record can be exactly when the new value is valid |
| StorageUpdate.HealedRecordSpreads | Chapter17_DataPersistence/src/ParameterStorageImage.cpp:530-578 | where that condition fails: an image with one mistyped record is refused and leaves an interval of 2000 alone; once that record has been updated, restore sets the interval to the image's 1000 |
| StorageUpdate.UpdateThenRestore | Chapter17_DataPersistence/src/ParameterStorageImage.cpp:530-578 | where both images are restored, the new value is what restore yields if the store admits stored values, and nothing else differs |
| StorageUpdate.UpdateCreated | Chapter17_DataPersistence/src/ParameterStorageImage.cpp:488-553 | updating a created image gives the image of the updated store |
| BoundedQueue.NextIndex | Common/include/BoundedQueue.h:217-221 | the next place of the ring |
| BoundedQueue.RingQueue.Append | Common/include/BoundedQueue.h:61-63 | the contents grow by the item at the end |
| BoundedQueue.RingQueue.RemoveFirst | Common/include/BoundedQueue.h:119-123 | the first item leaves, the others keep their order |
| BoundedQueue.RingQueue.Push | Common/include/BoundedQueue.h:47-69 | what push does inside the mutex, on the sequence the ring stands for |
| BoundedQueue.RingQueue.TryPush | Common/include/BoundedQueue.h:78-95 | the same for the push that does not block |
| BoundedQueue.RingQueue.Pop | Common/include/BoundedQueue.h:105-129 | the same for pop |
| BoundedQueue.RingQueue.TryPop | Common/include/BoundedQueue.h:137-156 | the same for the pop that does not block |
| BoundedQueue.RingQueue.Stop | Common/include/BoundedQueue.h:164-169 | nothing but the flag changes |
| QueueSteps.StartsOpen | Common/include/BoundedQueue.h:32-35 | at first the queue runs, is empty, and no call is inside |
| QueueSteps.PossibleExactly | Common/include/BoundedQueue.h:47-173 | which steps a thread can make, wherever it stands |
| QueueSteps.MovesExactly | Common/include/BoundedQueue.h:47-121 | calling and waking for no reason move that thread and change nothing else |
| QueueSteps.TryPushExactly | Common/include/BoundedQueue.h:78-95 | an item is accepted, and one notify owed, if and only if the queue is running and not full; otherwise nothing changes |
| QueueSteps.PushExactly | Common/include/BoundedQueue.h:47-69 | refused when stopped, asleep when full, else accepted with one notify owed; at the first look and when woken |
| QueueSteps.TryPopExactly | Common/include/BoundedQueue.h:137-156 | the first item is handed out, and one notify owed, if and only if there is one; otherwise nothing changes |
| QueueSteps.PopExactly | Common/include/BoundedQueue.h:105-129 | the first item is handed out, stopped or not; without one it returns when stopped and sleeps when not |
| QueueSteps.StopExactly | Common/include/BoundedQueue.h:164-173 | the flag is set, the items stay, and two notifications of all are owed |
| QueueSteps.NotifyOneExactly | Common/include/BoundedQueue.h:68-128 | one sleeper of the other side is woken, or none if none sleeps |
| QueueSteps.NotifyAllExactly | Common/include/BoundedQueue.h:164-173 | every consumer, then every producer asleep is woken, and no other thread moves |
| QueueSteps.OnlySections | Common/include/BoundedQueue.h:47-173 | calls, notifies and wakings leave the queue and what was accepted and handed out alone |
| QueueSteps.PushedIsPopped | Common/include/BoundedQueue.h:47-156 | in every run an item pushed while there was room stands behind all accepted before it, and items are handed out in just that order |
| QueueThreads.StepKeepsInv | Common/include/BoundedQueue.h:47-173 | every step keeps the balance between queued items, sleeping threads, pending notifies and woken threads |
| QueueThreads.NoLostWakeup | Common/include/BoundedQueue.h:47-173 | in every run, with no notify pending and no thread woken: a sleeping consumer means an empty running queue, a sleeping producer a full running one, and never both |
| QueueThreads.FirstInFirstOut | Common/include/BoundedQueue.h:47-156 | in every run the items handed out are a prefix of those accepted and the queue holds the rest |
| QueueThreads.RunHistory | Common/include/BoundedQueue.h:47-173 | nothing accepted or handed out is ever undone, and after stop nothing more is accepted |
| QueueThreads.PopReturnsNothing | Common/include/BoundedQueue.h:105-129 | a blocking pop without an item means stopped and fully drained, for ever |
| QueueThreads.InternalStepSpends | Common/include/BoundedQueue.h:47-173 | every step but new calls and spurious wake-ups lowers a potential |
| QueueThreads.ComesToRest | Common/include/BoundedQueue.h:47-173 | no run of such steps is longer than the potential, nor for n threads longer than n * (4 * n + 4) |
| QueueThreads.NoDeadlock | Common/include/BoundedQueue.h:47-173 | where no such step is left, every call still inside waits for what only another call can bring, and after stop none is left inside |
| RetryDevices.RetryServer.OnRequest | Chapter12_RetryTimeoutRecovery/retry_lab/retry_server.cpp:323-447 | reply and new context for any datagram, in the order of the checks |
| RetryDevices.RetryServer.ProcessRequest | Chapter12_RetryTimeoutRecovery/retry_lab/retry_server.cpp:398-446 | the part behind duplicate detection, for every mode |
| RetryDevices.RetryServer.SendAck | Chapter12_RetryTimeoutRecovery/retry_lab/retry_server.cpp:234-244 | an acknowledgement always fits its buffer |
| RetryDevices.RetryServer.SendNack | Chapter12_RetryTimeoutRecovery/retry_lab/retry_server.cpp:246-269 | a refusal carries its one-byte reason |
| RetryDevices.RetryClient.SendRequestFrame | Chapter12_RetryTimeoutRecovery/retry_lab/retry_client.cpp:263-318 | the request datagram, whatever the host's byte order |
| RetryDevices.RetryClient.Fail | Chapter12_RetryTimeoutRecovery/retry_lab/retry_client.cpp:320-331 | the timer is disarmed, if the system can, and the transaction ends |
| RetryDevices.RetryClient.Exhaust | Chapter12_RetryTimeoutRecovery/retry_lab/retry_client.cpp:333-341 | the service is marked unavailable and the transaction ends |
| RetryDevices.RetryClient.ArmRetryDelay | Chapter12_RetryTimeoutRecovery/retry_lab/retry_client.cpp:343-356 | waiting to retry, whether or not the timer could be armed |
| RetryDevices.RetryClient.Schedule | Chapter12_RetryTimeoutRecovery/retry_lab/retry_client.cpp:358-370 | another attempt is scheduled while the budget lasts |
| RetryDevices.RetryClient.Attempt | Chapter12_RetryTimeoutRecovery/retry_lab/retry_client.cpp:372-404 | one more attempt, with both ways it can fail locally |
| RetryDevices.RetryClient.OnTransactionTimer | Chapter12_RetryTimeoutRecovery/retry_lab/retry_client.cpp:418-439 | what an expiry does in each state |
| RetryDevices.RetryClient.ReadNack | Common/WeatherDevice/WeatherControlProtocol.h:68-94 | a reason exactly if the payload is one known byte |
| RetryDevices.RetryClient.OnResponse | Chapter12_RetryTimeoutRecovery/retry_lab/retry_client.cpp:441-544 | what any datagram does in each state |
| RetryProtocol.ServerOnRequest | Chapter12_RetryTimeoutRecovery/retry_lab/retry_server.cpp:368-446 | the server's answer to a request, mode by mode |
| RetryProtocol.ClientOnAck | Chapter12_RetryTimeoutRecovery/retry_lab/retry_client.cpp:484-503 | an acknowledgement ends a waiting transaction with success and nothing else |
| RetryProtocol.ClientOnNack | Chapter12_RetryTimeoutRecovery/retry_lab/retry_client.cpp:505-541 | a busy refusal schedules a retry, any other ends the transaction |
| RetryProtocol.ServerOnOther | Chapter12_RetryTimeoutRecovery/retry_lab/retry_server.cpp:336-366 | frames that are invalid, for another service or without a transaction id change nothing and get no reply; an unknown operation gets its refusal |
| RetryProtocol.ServerOnPayload | Chapter12_RetryTimeoutRecovery/retry_lab/retry_server.cpp:398-423 | a fresh request is read in the order its header names; exactly four bytes and an admissible interval are applied |
| RetryProtocol.ClientOnOther | Chapter12_RetryTimeoutRecovery/retry_lab/retry_client.cpp:460-543 | frames for others, malformed acknowledgements and refusals, and unexpected messages leave the client alone |
| RetrySteps.SendExactly | Chapter12_RetryTimeoutRecovery/retry_lab/retry_client.cpp:372-404 | an attempt is counted; if the datagram cannot be sent, or the timer not be armed, the transaction fails at once, without a retry; else it waits |
| RetrySteps.TimeoutExactly | Chapter12_RetryTimeoutRecovery/retry_lab/retry_client.cpp:343-370 | a timeout sends nothing: another attempt is scheduled, or the service is unavailable, or the timer fails it |
| RetrySteps.IdleExpiry | Chapter12_RetryTimeoutRecovery/retry_lab/retry_client.cpp:418-439 | outside a waiting transaction an expiry is passed over |
| RetrySteps.PossibleExactly | Chapter12_RetryTimeoutRecovery/retry_lab/retry_client.cpp:372-455 | when a start, an expiry, a delivery and an interrupt can happen |
| RetrySteps.FailedSendEnds | Chapter12_RetryTimeoutRecovery/retry_lab/retry_client.cpp:372-404 | in every run, from the first attempt that cannot be sent or timed on, the transaction has failed for good and nothing more is sent |
| RetrySteps.ResponseExactly | Chapter12_RetryTimeoutRecovery/retry_lab/retry_client.cpp:441-544 | for any bytes in any state, field by field: what an acknowledgement, each refusal and everything else does to the client |
| RetrySteps.RequestExactly | Chapter12_RetryTimeoutRecovery/retry_lab/retry_server.cpp:323-447 | for any bytes at any server, by the bytes: what is ignored, refused, acknowledged again or applied, and the reply |
| RetrySteps.DeliveryExactly | Chapter12_RetryTimeoutRecovery/retry_lab/retry_server.cpp:323-447 | a delivery moves the side it reaches, and a reply is on its way; an interrupt only asks the client to stop |
| RetrySteps.RequestBytes | Chapter12_RetryTimeoutRecovery/retry_lab/retry_client.cpp:263-318 | the bytes of a request |
| RetrySteps.AckBytes | Chapter12_RetryTimeoutRecovery/retry_lab/retry_server.cpp:234-244 | the bytes of an acknowledgement |
| RetrySteps.NackBytes | Chapter12_RetryTimeoutRecovery/retry_lab/retry_server.cpp:246-269 | the bytes of a refusal |
| RetryNetwork.DamagedIsRejected | Common/include/MessageFrame.h:80-129 | a copy of a protocol datagram damaged inside two adjacent bytes is no frame at all |
| RetryNetwork.StepKeepsInv | Chapter12_RetryTimeoutRecovery/retry_lab/retry_server.cpp:323-447 | every delivery, expiry and interrupt keeps the invariant of client, server and network, whatever sending, arming and disarming come to |
| RetryTheorems.AppliedAtMostOnce | Chapter12_RetryTimeoutRecovery/retry_lab/retry_server.cpp:368-446 | over a network that loses, repeats, reorders and damages, in every mode: applied at most once and as asked; success means applied; an InvalidValue refusal means never applied; a silent server means no success |
| RetryTheorems.IntervalOnlyApplied | Chapter12_RetryTimeoutRecovery/retry_lab/retry_server.cpp:410-423 | the interval changes in no other way |
| RetryTheorems.ClientWithinBudget | Chapter12_RetryTimeoutRecovery/retry_lab/retry_client.cpp:320-404 | attempts stay within the maximum, strictly below it while waiting to retry; the timer is armed in the two waiting states; unavailable means every attempt was used |
| RetryTheorems.TimerOnlyWhileWaiting | Chapter12_RetryTimeoutRecovery/retry_lab/retry_client.cpp:320-531 | where disarming works the timer is armed exactly in the two waiting states |
| RetryTheorems.TerminalStays | Chapter12_RetryTimeoutRecovery/retry_lab/retry_client.cpp:418-455 | after success or failure nothing changes the client and it sends nothing, even if its timer could not be disarmed and expires |
| RetryTheorems.TimerExpiriesBounded | Chapter12_RetryTimeoutRecovery/retry_lab/retry_client.cpp:418-439 | in no run does the timer expire more than 2 * max - 1 times, whether or not disarming it works |
| RetryTheorems.FailureMeansExhausted | Chapter12_RetryTimeoutRecovery/retry_lab/retry_client.cpp:333-370 | without local faults a transaction for an admissible interval fails only by using up its attempts |
| RetryTheorems.CanSucceed | Chapter12_RetryTimeoutRecovery/retry_lab/retry_client.cpp:372-544 | from every initial state some run succeeds, with one attempt or, where the mode spoils the first, two |
| Startup.Board.BlockWaiting | Chapter13_StartupSequencing/startup_lab/main.cpp:287-298 | exactly the waiting components become blocked |
| StartupBoard.Sequencer.constructor | Chapter13_StartupSequencing/startup_lab/main.cpp:204-300 | configuration starting, the others waiting, the queue empty |
| StartupBoard.Sequencer.StartComponent | Chapter13_StartupSequencing/startup_lab/main.cpp:226-241 | the component is starting and its worker launched |
| StartupBoard.Sequencer.AllRequiredReady | Chapter13_StartupSequencing/startup_lab/main.cpp:266-277 | the loop answers for the four required components |
| StartupBoard.Sequencer.TelemetryFinished | Chapter13_StartupSequencing/startup_lab/main.cpp:279-285 | telemetry is ready, failed or blocked |
| StartupBoard.Sequencer.BlockWaitingComponents | Chapter13_StartupSequencing/startup_lab/main.cpp:287-298 | the loop in place does what the function says |
| StartupBoard.Sequencer.HandleEvent | Chapter13_StartupSequencing/startup_lab/main.cpp:316-359 | status, flags, launches and the queue after one event |
| StartupBoard.Sequencer.Turn | Chapter13_StartupSequencing/startup_lab/main.cpp:302-360 | one turn of the loop, with its two ways out |
| StartupTheorems.HandleKeepsInv | Chapter13_StartupSequencing/startup_lab/main.cpp:316-359 | each event keeps the board consistent with the dependency chain and the failures |
| StartupTheorems.HandleExactly | Chapter13_StartupSequencing/startup_lab/main.cpp:316-359 | for every event and component: its status afterwards, what is started, and whether the application has failed or is degraded |
| StartupTheorems.UnfinishedExactly | Chapter13_StartupSequencing/startup_lab/main.cpp:302-304 | when the loop goes on |
| StartupTheorems.WorkerNeverBlocks | Chapter13_StartupSequencing/startup_lab/main.cpp:233-240 | the eight places always suffice: a worker's report never waits |
| StartupRuns.StepKeepsInv | Chapter13_StartupSequencing/startup_lab/main.cpp:226-383 | every step of main, workers and timeout thread keeps board and events in flight consistent |
| StartupRuns.StartedOnceInOrder | Chapter13_StartupSequencing/startup_lab/main.cpp:340-359 | in every run each component starts at most once and only once its prerequisite is ready; after a required failure none is left waiting |
| StartupRuns.ReportsNeverBlock | Chapter13_StartupSequencing/startup_lab/main.cpp:233-240 | in every run every report can be made at once, and there is room for it |
| StartupRuns.WaitEnds | Chapter13_StartupSequencing/startup_lab/main.cpp:302-314 | while main waits, an event is queued, its worker still has to report or the timeout is about to stop the queue |
| StartupRuns.StartupEnds | Chapter13_StartupSequencing/startup_lab/main.cpp:302-400 | no run is longer than 32 steps and one that cannot go on has a verdict |
| StartupRuns.VerdictIsRight | Chapter13_StartupSequencing/startup_lab/main.cpp:369-400 | ready means all required components ready and telemetry finished; failed means a required component failed whose prerequisite was ready; timed out means the time was up |
| StartupRuns.ReadyButTimedOut | Chapter13_StartupSequencing/startup_lab/main.cpp:369-400 | a run in which every component is ready, the loop is left for that, and the verdict still is TIMED OUT |
| StartupRuns.NothingAfterTimeout | Chapter13_StartupSequencing/startup_lab/main.cpp:306-314 | once the time is up no event is handled and no component started, in any run |
| StartupRuns.OutcomeWithoutTimeout | Chapter13_StartupSequencing/startup_lab/main.cpp:302-400 | without a timeout the verdict depends on the failures alone, not on the order of the reports |
| Subscriptions.MapSet | Chapter15_RemoteMonitoring/monitoring_lab/weather_device.cpp:268-341 | changing one slot changes exactly its entry of the map the slots stand for |
| Subscriptions.MapSize | Chapter15_RemoteMonitoring/monitoring_lab/weather_device.cpp:300-304 | the map has as many entries as there are active slots |
| Subscriptions.WeatherDevice.UpsertSubscription | Chapter15_RemoteMonitoring/monitoring_lab/weather_device.cpp:268-314 | the two loops do what updating the map does, count and high-water mark included |
| Subscriptions.WeatherDevice.RemoveSubscription | Chapter15_RemoteMonitoring/monitoring_lab/weather_device.cpp:316-341 | the key is gone, and it is no error if it was not there |
| Subscriptions.WeatherDevice.ProcessSubscribe | Chapter15_RemoteMonitoring/monitoring_lab/weather_device.cpp:202-240 | no reply for a wrong number of fields or an unreadable number; otherwise OK, INVALID_PARAM or BUSY under the request's transaction, and the table accordingly |
| Subscriptions.WeatherDevice.ProcessUnsubscribe | Chapter15_RemoteMonitoring/monitoring_lab/weather_device.cpp:242-266 | no reply for a wrong number of fields or an unreadable transaction; otherwise OK or INVALID_PARAM, and the table accordingly |
| Subscriptions.WeatherDevice.ReceiveRequest | Chapter15_RemoteMonitoring/monitoring_lab/weather_device.cpp:148-200 | for any text: table and reply as the sentence asks, or one more invalid message and nothing else |
| SubscriptionTheorems.AnsweredExactly | Chapter15_RemoteMonitoring/monitoring_lab/weather_device.cpp:202-341 | every request at every table: INVALID_PARAM, BUSY or OK, the new entry with its first deadline, and the mark |
| Subscriptions.WeatherDevice.Advance | Chapter15_RemoteMonitoring/monitoring_lab/weather_device.cpp:387-391 | the inner loop ends, at the deadline function's value |
| Subscriptions.WeatherDevice.SendDueReports | Chapter15_RemoteMonitoring/monitoring_lab/weather_device.cpp:375-395 | each due subscription is reported on exactly once and moved on, no other is touched |
| Subscriptions.AdvancedIsFirstAfter | Chapter15_RemoteMonitoring/monitoring_lab/weather_device.cpp:385-391 | the new deadline is the first one of the same phase behind now, and at most one interval away |
| SubscriptionTheorems.UpsertExactly | Chapter15_RemoteMonitoring/monitoring_lab/weather_device.cpp:268-314 | over the sixteen slots: an upsert fails if and only if each is active and none has the key; otherwise putting the entry into the key's slot or, without one, into whichever free slot is the same change of the table |
| SubscriptionTheorems.SubscribeTakesEffect | Chapter15_RemoteMonitoring/monitoring_lab/weather_device.cpp:202-240 | the sentence a monitor builds to subscribe is answered under its transaction: INVALID_PARAM exactly for an interval out of range, OK exactly if there is room or the key is known, and then the table holds the entry asked for |
| SubscriptionTheorems.UnsubscribeTakesEffect | Chapter15_RemoteMonitoring/monitoring_lab/weather_device.cpp:242-266 | the sentence a monitor builds to unsubscribe is answered OK, and exactly that key is gone |
| SubscriptionTheorems.DamagedHasNoEffect | Chapter15_RemoteMonitoring/monitoring_lab/weather_device.cpp:168-178 | a sentence with one exchanged character in its body changes no subscription and gets no answer |
| SubscriptionTheorems.HighWaterIsMaximum | Chapter15_RemoteMonitoring/monitoring_lab/weather_device.cpp:300-304 | over any history the mark is the largest number of subscriptions there has been |
| SubscriptionTheorems.DeadlinesAfterPoll | Chapter15_RemoteMonitoring/monitoring_lab/weather_device.cpp:375-395 | after every poll of any history each deadline lies in (now, now + interval] |
| SubscriptionTheorems.NeverDrifts | Chapter15_RemoteMonitoring/monitoring_lab/weather_device.cpp:385-391 | however often and late the polls came, a deadline is the first deadline plus a whole number of intervals, the first such moment behind the latest poll |
| NmeaStreams.NmeaChecksum | Chapter15_RemoteMonitoring/monitoring_lab/WeatherMonitoringProtocol.cpp:33-41 | the loop is the exclusive or of all characters |
| NmeaStreams.ParseFields | Chapter15_RemoteMonitoring/monitoring_lab/WeatherMonitoringProtocol.cpp:122-151 | the field loop splits at every comma, or finds more than eight fields |
| NmeaStreams.ParseSentence | Chapter15_RemoteMonitoring/monitoring_lab/WeatherMonitoringProtocol.cpp:69-154 | status, identifier and fields for any text |
| NmeaStreams.BuildSentence | Chapter15_RemoteMonitoring/monitoring_lab/WeatherMonitoringProtocol.cpp:43-67 | the sentence and a closing NUL at the front of the buffer, or a failure with an empty text |
| NmeaStreams.Tokenizer.constructor | Common/src/NMEATokenizer.cpp:90-94 | a tokenizer holds the tokenization of its text, and its field count is right |
| NmeaStreams.Tokenizer.ParseIt | Common/src/NMEATokenizer.cpp:165-262 | the parse as a sequence of checks on the members |
| NmeaStreams.Tokenizer.CollectFields | Common/src/NMEATokenizer.cpp:126-138 | iterating from begin to end yields the fields |
| NmeaStreams.FieldIterator.ComputeCurrent | Common/src/NMEATokenizer.cpp:22-41 | the current field and where the next begins |
| NmeaStreams.FieldIterator.Advance | Common/src/NMEATokenizer.cpp:48-73 | one field less remains |
| NmeaStreams.CommasAreFields | Common/src/NMEATokenizer.cpp:256-261 | counting commas counts fields |
| NmeaStreams.InsertionStream.constructor | Common/src/NMEAInsertionStream.cpp:18-29 | a sentence is begun, or the identifier refused |
| NmeaStreams.InsertionStream.WriteString | Common/src/NMEAInsertionStream.cpp:49-57 | one more field, or the first error stays |
| NmeaStreams.InsertionStream.WriteChar | Common/src/NMEAInsertionStream.cpp:59-67 | one more field of one character |
| NmeaStreams.InsertionStream.WriteOptionalString | Common/src/NMEAInsertionStream.cpp:129-133 | the field, or an empty one for none |
| NmeaStreams.InsertionStream.WriteEmpty | Common/src/NMEAInsertionStream.cpp:153-160 | one more empty field |
| NmeaStreams.InsertionStream.Finalize | Common/src/NMEAInsertionStream.cpp:180-202 | the checksum of everything behind the dollar, and at most once |
| NmeaTheorems.BuildThenParse | Chapter15_RemoteMonitoring/monitoring_lab/WeatherMonitoringProtocol.cpp:43-154 | what is built from a NUL-free body parses if and only if the identifier has five characters and there are at most eight fields; the parts join to the body |
| NmeaTheorems.BuildFits | Chapter15_RemoteMonitoring/monitoring_lab/WeatherMonitoringProtocol.cpp:50-63 | a NUL-free body is built if and only if it has at most 249 characters |
| NmeaTheorems.AcceptedIs | Chapter15_RemoteMonitoring/monitoring_lab/WeatherMonitoringProtocol.cpp:69-154 | an accepted text is a dollar, a body, a star and the body's checksum, and identifier and fields join to that body |
| NmeaTheorems.ParsersAgree | Common/src/NMEATokenizer.cpp:165-262 | whatever the strict parser accepts with just one star the tokenizer accepts with the same identifier and fields |
| NmeaTheorems.ParsersAgreeBack | Common/src/NMEATokenizer.cpp:165-262 | a valid tokenization without comma in the identifier, with at most eight fields and nothing behind the checksum is also strictly parsed |
| NmeaTheorems.InsertThenTokenize | Common/src/NMEAInsertionStream.cpp:18-202 | inserted fields come back unchanged if and only if they hold no comma and no star and the identifier no star |
| NmeaTheorems.OneCharacterDetected | Chapter15_RemoteMonitoring/monitoring_lab/WeatherMonitoringProtocol.cpp:33-41 | bodies that differ in one character have different checksums |
| NmeaTheorems.DamagedSentenceRejected | Chapter15_RemoteMonitoring/monitoring_lab/WeatherMonitoringProtocol.cpp:69-108 | a sentence with one exchanged character in its body is a checksum mismatch |
| NmeaRules.ChecksumIsParity | Chapter15_RemoteMonitoring/monitoring_lab/WeatherMonitoringProtocol.cpp:33-41 | bit k of the checksum is the parity of the number of characters that have it |
| NmeaRules.ChecksumExactly | Chapter15_RemoteMonitoring/monitoring_lab/WeatherMonitoringProtocol.cpp:33-41 | a character is the checksum if and only if each of its eight bits is that parity |
| NmeaRules.ParseDecides | Chapter15_RemoteMonitoring/monitoring_lab/WeatherMonitoringProtocol.cpp:69-154 | for every text the first reason to refuse it, or its identifier and fields, character by character |
| NmeaRules.SplitExactly | Chapter15_RemoteMonitoring/monitoring_lab/WeatherMonitoringProtocol.cpp:110-151 | fields are the only texts without commas that joined by commas are the body |
| NmeaRules.TokenizeDecides | Common/src/NMEATokenizer.cpp:165-262 | for every text status, checksum, identifier and payload, by its first star |
| NmeaRules.BuildExactly | Chapter15_RemoteMonitoring/monitoring_lab/WeatherMonitoringProtocol.cpp:43-67 | what is built: the body up to its first NUL, two upper-case digits of the whole body's checksum, a line end; if it fits |
| NmeaRules.InsertionExactly | Common/src/NMEAInsertionStream.cpp:18-202 | beginning, writing and finishing, in every state |
| MonitoringText.ReportTypeExactly | Chapter15_RemoteMonitoring/monitoring_lab/WeatherMonitoringProtocol.cpp:172-195 | a text is read as a report type if and only if it is that type's code |
| MonitoringText.CodesExactly | Chapter15_RemoteMonitoring/monitoring_lab/WeatherMonitoringProtocol.cpp:172-195 | the codes of the six report types and the two identifiers |
| MonitoringText.ReadUnsignedExactly | Chapter15_RemoteMonitoring/monitoring_lab/WeatherMonitoringProtocol.cpp:211-223 | a text is read as a number if and only if it is that number's print, perhaps behind zeros, and the number fits 32 bits |
| MonitoringText.RequestExactly | Chapter15_RemoteMonitoring/monitoring_lab/weather_device.cpp:168-266 | which sentences are a request to subscribe or unsubscribe, with which transaction, report and interval, and which are invalid |
| MonitoringText.PrintedIsRead | Chapter15_RemoteMonitoring/monitoring_lab/WeatherMonitoringProtocol.cpp:211-223 | a printed number is read back if and only if it fits 32 bits |
| MonitoringText.PrintExactly | Chapter15_RemoteMonitoring/monitoring_lab/remote_monitor.cpp:168-175 | the digits of a printed number, last first |
| MonitoringText.SubscribeArrives | Chapter15_RemoteMonitoring/monitoring_lab/remote_monitor.cpp:162-185 | every subscribe sentence a monitor can build is read as the transaction, report and interval meant |
| MonitoringText.UnsubscribeArrives | Chapter15_RemoteMonitoring/monitoring_lab/remote_monitor.cpp:187-207 | every unsubscribe sentence a monitor can build is read as the transaction and report meant |
| Ramp.AfterIsAt | Chapter10_PhysicalTransitions/process_oven/src/Ramper.cpp:40-48 | k steps lead to the closed form, clamped at the target |
| Ramp.ReachedExactly | Chapter10_PhysicalTransitions/process_oven/src/Ramper.cpp:40-69 | the target is reached after exactly ceil(abs(target - start) / increment) steps |
| Ramp.StaysBetween | Chapter10_PhysicalTransitions/process_oven/src/Ramper.cpp:40-48 | no command overshoots, moves more than one increment or away from the target |
| Ramp.StepUsesOne | Chapter10_PhysicalTransitions/process_oven/src/Ramper.cpp:65-69 | every step uses up one of the steps remaining |
| Ramp.ActiveExactly | Chapter10_PhysicalTransitions/process_oven/src/RampDriver.cpp:57-82 | the active ramps counted are the zones that have not reached their targets |
| Ramp.RampDriver.Step | Chapter10_PhysicalTransitions/process_oven/src/RampDriver.cpp:57-82 | every zone is where the closed form says, the active count is right, and complete is said exactly at the predicted cycle |
| Ramp.RampDriver.RunToCompletion | Chapter10_PhysicalTransitions/process_oven/src/RampDriver.cpp:57-82 | stepping until complete takes exactly the predicted cycles and leaves every command at its target |
| Ramp.CreateDriver | Chapter10_PhysicalTransitions/process_oven/src/RampDriver.cpp:7-40 | a driver is made if and only if increment, period and every ramp's length are admissible |
| HeapCounters.StepBalances | Tools/heap_monitor/src/HeapMonitor.cpp:45-75 | every atomic step keeps the counters in balance with the blocks and with what is under way |
| HeapCounters.StepKeepsPeak | Tools/heap_monitor/src/HeapMonitor.cpp:31-43 | where the peak lags, a thread in the compare-and-swap loop still carries the highest count |
| HeapCounters.QuiescentCounters | Tools/heap_monitor/src/HeapMonitor.cpp:31-75 | with no thread under way live is allocated less deallocated is the sum of the blocks out, and the peak is the largest value live ever had |
| HeapCounters.LiveWithinBounds | Tools/heap_monitor/src/HeapMonitor.cpp:31-75 | at every moment live covers the blocks that are out and the peak has not overshot |
| HeapCounters.SteadyCountersExact | Tools/heap_monitor/src/HeapMonitor.cpp:45-66 | from the start of the steady state, at rest, to any later rest, its two counters grow by exactly the allocations and bytes of that time |
| HeapCounters.NothingBeforeSteady | Tools/heap_monitor/src/HeapMonitor.cpp:58-65 | until the steady state is begun its counters stay zero in every run |
| HeapCounters.AllocationAlone | Tools/heap_monitor/src/HeapMonitor.cpp:31-75 | an allocation no other thread disturbs counts once, with its bytes, in every counter, and raises the peak to the new live count if that is higher |
| HeapCounters.DeallocationAlone | Tools/heap_monitor/src/HeapMonitor.cpp:68-75 | a deallocation no other thread disturbs counts once, with its bytes, and its block is gone |
| HeapCounters.AloneIsRun | Tools/heap_monitor/src/HeapMonitor.cpp:31-75 | a call left alone is over after at most ten atomic operations, wherever it stands |
| HeapBlocks.MaskRoundsDown | Tools/heap_monitor/src/HeapMonitor.cpp:93-97 | masking with the complement of 2^k - 1 rounds down to a multiple of 2^k |
| HeapBlocks.RawSizeExactly | Tools/heap_monitor/src/HeapMonitor.cpp:77-91 | a raw block is asked for, with this size, if and only if header, padding and at least one byte of payload fit a word |
| HeapBlocks.PlacementIsRight | Tools/heap_monitor/src/HeapMonitor.cpp:77-105 | for every power of two the payload is at the first aligned address behind room for the header, and header and payload lie inside the raw block |
| HeapBlocks.HeadersAreSafe | Tools/heap_monitor/src/HeapMonitor.cpp:77-119 | writing one payload never touches the header another block will be freed by |

## Left out

- Sockets, epoll, timerfd, signalfd, UART, files and their atomic replacement, logging and command lines.
- The control loops, filters, detectors and imaging interfaces of chapters 5, 7, 9, 19 and 20, the ports of chapter 18, whose cipher library is not part of this model, and the earlier copy of the retry lab at the repository's root.
- Conversion of numbers to and from text but for unsigned decimals; `writeDouble` and `readDouble` beyond their bit patterns; `writeInt` and `writeDouble` of the insertion stream.
- The text form of parameters and their command-line and file sources.
- StorageDevice.WalkRecords: the callback is a function that hands its accumulated state on; the original's lambda updates captured variables, which comes to the same order of effects. The store that restore stages is therefore a value copied back on success.
- StorageDevice.ParameterStorageImage.Create: the branch for a full image is not written, because the three records always fit.
- FrameStreams.WriteFrameV1: on a target where sizes have 64 bits the second size check of the original is implied by the first.
- BinaryStreams.BinaryReadStream.ReadSize: the second look at the first byte cannot fail and is not written.
- RetryTheorems.AppliedAtMostOnce: for one transaction in flight; the server remembers only the last id, so several past ids are not covered, as the original's comment says.
- QueueThreads.NoLostWakeup: fairness between threads is not modelled, so that a given call returns is not claimed, only that the queue comes to rest without lost wake-ups.
- Startup: the delays of the workers and of the timeout are any delays at all.
- Subscriptions.WeatherDevice.SendDueReports: the report's text and the fate of its datagram; the result lists the reports attempted.
- NmeaStreams.BuildSentence: the body's length is taken to fit an `int`, as that of every sentence here does.
- Ramp: exact real numbers instead of doubles; the ramper is a value inside the driver's array, as it is inside the original's `std::optional`.
- Ramp.AfterIsAt: over exact numbers; the rounding of the original's doubles is not modelled.
- Ramp.ReachedExactly: over exact numbers, as above.
- Ramp.StaysBetween: over exact numbers, as above.
- Ramp.StepUsesOne: over exact numbers, as above.
- Ramp.RampDriver.Step: over exact numbers, as above.
- Ramp.RampDriver.RunToCompletion: over exact numbers, as above.
- Ramp.CreateDriver: over exact numbers, so the tests for finiteness have no counterpart.
- Subscriptions.WeatherDevice.ReceiveRequest: the datagram is taken as received; one longer than the buffer is cut off before.
- MonitoringText.ParseUnsigned: the library's conversion is modelled by what it is specified to do with a whole text.
- HeapCounters: the operations are steps of a state machine rather than methods of an object, since their interleaving is the point.
- HeapCounters.QuiescentCounters: the counters are unbounded; the original's wrap at 2^64. Memory order is that of single atomic operations, which is all these counters rely on.
- HeapBlocks.PlacementIsRight: the raw block's address and that it does not wrap around are given; the alignment of the header itself for alignments below that of a pointer is not claimed.
