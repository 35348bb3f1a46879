# Z1 mainboard firmware: a verified model

A Dafny 4.11 model of the protocols, stores and schedulers of the mainboard firmware, with proofs of
what they are for. `dafny verify dfyconfig.toml` checks everything.

Each module follows one component. Code that updates fields or buffers is a class or a method with
loops, proved equal to a specification function; the properties are then proved about that function.
The concurrent protocols are state machines over atomic steps, and a run is any interleaving.

| module | component | main results |
|---|---|---|
| `Crc`, `CrcTrace`, `Bits` | frame checksums | `BurstDetected`, `UpdateMissesSingleByte`, `UpdateIsCcittOfPlain` |
| `FrameCodec`, `FrameStream`, `FrameDecoder`, `FrameRecovery`, `KnownFrames` | wire frames and the four resynchronising decoders | `ReadsDecodeAlike`, `AcceptedExactly`, `Recovers`, `PushesDecodeTheStream` |
| `UartCorruption`, `UartFamilies`, `UartSample` | corrupted frames on the controller UART | `FirmwareCorruptionExactly`, `CrossedFamilyByType`, `DataCrossesExactly` |
| `ControllerTransfer`, `FirmwareTransfer`, `MockController`, `FirmwareExchange`, `FaultedExchange`, `WireExchange`, `LostBlocks`, `UnsendableBlocks`, `WireOutcome` | both parties of the firmware transfer, frame by frame and over the UART | `TimeoutExactly`, `ExchangeEnds`, `RoundsRefine`, `WholeFileOverUart` |
| `ConfigTransfer`, `ConfigurationDelivery`, `FactoryTransfer`, `FactoryDelivery`, `ControllerLink`, `TransferAnswers` | configuration and factory transfers from file to reply, what crosses the UART, what each family answers | `ConfigurationDelivered`, `FactoryDelivered`, `TransportLimits`, `ServedWhileStanding` |
| `TransferAdapter` | chunked reads and progress | `ProgressComplete`, `PiecesComplete` |
| `ConfigurationText`, `ConfigurationDocument`, `ConfigurationUpdate`, `ConfigurationStore`, `ConfigurationSyntax`, `ConfigurationNamespaces` | config.txt, its syntax, its transaction and its tags | `NoSettingExactly`, `NamespacesDisjoint`, `UpdateReads`, `UpdateIsRightExactly`, `StoreIsRemembered` |
| `PersistenceJobs` | reference-counted jobs of requesters and one worker | `NoUseAfterFree`, `ResultExactly`, `FreedExactlyOnce`, `RunsEnd` |
| `TcpSlots`, `TcpSessions` | one acceptor and four permanent workers | `LiveContextsExactly`, `ReachesAddressedExactly` |
| `Deadlines`, `PacedQueue` | periodic deadlines, bounded paced queues | `DeadlineIsLeast`, `AlarmsSinceLastFrame`, `RateLimited` |
| `DiagnosticLog`, `UartTrace` | rotating log, binary trace | `LogIsSuffix`, `AllIsKept`, `EverythingIsRecorded`, `TraceDecodes` |
| `ImageValidator`, `KnownImage` | structural image check | `AcceptsExactly`, `OneChangeRejected` |

`Arithmetic` and `Bytes` hold shared integer and byte facts. Outcomes of file, memory, network and
semaphore operations are parameters, so every theorem holds for all of them unless it says otherwise.

## What the proofs found

- The controller firmware checksum replaces two table entries by copies of two others
  (`components/core/src/protocol/crc.cpp:45-53`). So at every payload position of a firmware-family frame,
  whatever the bytes around it, some value can turn into another unnoticed
  (`UartCorruption.FirmwareErrorUnnoticed`; exact condition `FirmwareCorruptionExactly`). Frames with the host
  checksum have no such gap (`FrameStream.CorruptionRejected`).
- The firmware checksum is the host checksum of the message with bit 4 flipped wherever a replaced entry is
  hit (`Crc.UpdateIsCcittOfPlain`), and bit 4 is what tells type 0xD3 from 0xC3. So one flipped bit can turn
  configuration data into firmware data or back. `UartFamilies.CrossedFamilyExactly` says when for every frame;
  unless length field or payload hit a replaced entry, it happens to data frames exactly at 29, 166, 303 and 440
  payload bytes (`DataCrossesExactly`). `UartSample.ReplyCrosses` is such a reply to an ordinary fetch.
- The server accepts block sizes up to 65535, but the UART decoder of the peer accepts blocks of at most 515
  bytes. A larger first block that it does not mistake for other frames is lost and leaves the transfer active
  but not waiting, so that nothing in the exchange ever ends it (`LostBlocks.LostBlockHangs`, `StuckForever`; a
  file of 516 bytes in `HangingFile`); above 65528 bytes it cannot even be encoded and the transfer is
  cancelled (`UnsendableBlocks.UnsendableBlockCancels`). `WireOutcome.WholeFileOverUart` is the exact condition
  for the whole file to arrive, assuming that an oversized first block is not mistaken for other frames
  (`NotMistaken`). That assumption cannot simply be dropped: a file may contain whole frames, and the decoder
  that drops the block would then find them and let the content of the file drive the peer. The condition includes
  the range of the C library's `long` (`main/controller/controller_transfer_adapter.cpp:87`). The simulated
  controller proposes 512.
- The tail of a configuration comment longer than 254 bytes is sent to the controller as a record
  (`ConfigurationDelivery.LongCommentLeaks`); `ConfigurationDelivered` has the exact condition under which
  the controller gets the lines of the file and nothing else.
- At most the last 255-byte chunk of a factory file can be delivered, because full chunks exceed the record
  limit of 132 bytes (`FactoryDelivery.FactoryDelivered`).
- The store accepts keys and values that it cannot read back; `ConfigurationUpdate.UpdateIsRightExactly` and
  `ConfigurationStore.SetThenGetExactly` say which.
- The announced configuration frame count is not the number of records when a long chunk is filtered
  out; `ConfigTransfer.AnnouncedIsExact` is the exact condition.
- `main/configuration/configuration_file_store.hpp` calls an update an atomic replacement. The code
  removes the active file before the rename; if the rename then fails no setting is left
  (`ConfigurationStore.ReplaceIsAtomicExactly`, `FailedRenameLosesEverything`), and a read error during
  an update replaces the file (`UnreadableFileIsReplaced`). The model follows the code.
- Published progress of the last frame is 100 if and only if the intermediate value fits 32 bits
  (`TransferAdapter.ProgressComplete`).
- Frames for a TCP client are delivered by slot alone (`main/transport/tcp_control_adapter.cpp:1020-1021`),
  although an identity also carries the generation of its connection
  (`components/application/include/application/runtime/ownership.hpp:25-26`). So a frame for a connection that is
  over reaches its successor in the slot (`TcpSessions.SuccessorReached`,
  `FirstSuccessor`), though never a predecessor (`NeverReachesEarlier`); `ReachesAddressedExactly` is the exact
  condition for reaching the addressed connection.
- The extra byte that the UART decoder drops at every 5000th rejection never changes what is decoded
  (`FrameRecovery.RejectionsImmaterial`). On USB a rejected candidate can take the next frame with it
  (`UsbRecoversExactly`); on the other transports it cannot (`Recovers`).
- Tags with an underscore share settings: B_C under A is C under A_B
  (`ConfigurationNamespaces.NamespacesCollide`); all others are independent (`NamespacesDisjoint`).
- A setting can be written although the requester is told that it was not
  (`PersistenceJobs.WrittenButFalse`), exactly when the requester gave up before it took the semaphore
  (`ResultExactly`).
- A TCP slot can hold two live contexts, and the published client count can read five, while a worker
  is between giving its slot back and counting down (`TcpSessions.CountsCanOverlap`); `LiveContextsExactly`
  and `ActiveCount` bound this.

## Model

| member | source | states |
|---|---|---|
| `Crc.ComputeCcitt` | tools/wifi_provision_protocol.py:22-32 | the nested loops compute the zero-initialised CRC-16 of generator x^16+x^12+x^5+1, the checksum of the next rows |
| `Crc.ResidueZero` | components/core/src/protocol/crc.cpp:20-32 | a message followed by its big-endian checksum leaves residue zero |
| `Crc.BurstDetected` | tools/wifi_provision_protocol.py:22-32 | two messages that differ in at most two adjacent bytes have equal checksums exactly when they are equal |
| `Crc.TableForm` | components/core/src/protocol/crc.cpp:34-43 | one table look-up refines the eight bitwise shifts of a byte |
| `Crc.UpdateTableIsAliased` | components/core/src/protocol/crc.cpp:45-53 | the two replaced table entries 0xE6 and 0xE7 are the conventional entries of 0xF6 and 0xF7 |
| `Crc.ComputeUpdate` | components/core/src/protocol/crc.cpp:60-70 | the table-driven loop computes the checksum of the controller firmware family |
| `Crc.UpdateAbsorbCollision` | components/core/src/protocol/crc.cpp:63-67 | two steps of that checksum meet exactly when register and index agree or two aliased indices meet over equal low bytes |
| `Crc.UpdateMissesSingleByte` | components/core/src/protocol/crc.cpp:60-70 | exact condition under which a single corrupted byte goes unnoticed by the firmware-family checksum |
| `Crc.UpdateCollision` | components/core/src/protocol/crc.cpp:45-70 | after every prefix and before every suffix some two byte values get equal firmware-family checksums |
| `Crc.UpdateIsCcittOfPlain` | components/core/src/protocol/crc.cpp:45-70 | the firmware-family checksum of every message is the host checksum of the message with bit 4 flipped in exactly the bytes that hit a replaced table entry |
| `FrameCodec.Judge` | components/core/src/protocol/frame.cpp:130-179 | a verdict on a candidate discards at least one and at most all buffered bytes, accepts at least nine, and waits only below the size limit |
| `FrameStream.JudgeEncoded` | components/core/src/protocol/frame.cpp:33-58 | an encoded frame is accepted as that frame, with its whole size |
| `FrameStream.JudgeStable` | components/core/src/protocol/frame.cpp:130-179 | a verdict that is not "incomplete" never changes when more bytes arrive |
| `FrameStream.AcceptedExactly` | components/core/src/protocol/frame.cpp:130-185 | a candidate is accepted if and only if the buffer starts with an encoded frame within the size limit, which is then the frame decoded |
| `FrameRecovery.Recovers` | components/core/src/protocol/frame.cpp:143-184 | except on USB, a whole frame behind any bytes whose candidates are all rejected is decoded, and decoding goes on behind it |
| `FrameRecovery.UsbRecoversExactly` | components/core/src/protocol/frame.cpp:143-184 | on USB a rejected candidate takes four bytes or all it claims: the next frame is decoded if and only if the claim ends before it, otherwise decoding resumes where the claim ends |
| `FrameRecovery.RejectionsImmaterial` | components/core/src/protocol/frame.cpp:68-75 | counting rejections and dropping one byte more at every 5000th never changes the frames or the bytes left over |
| `KnownFrames.HostFrame` | components/core/src/protocol/frame.cpp:33-58 | one frame byte for byte, the same on every transport |
| `KnownFrames.FirmwareFrame` | components/core/src/protocol/frame.cpp:50-58 | one firmware frame on the controller UART byte for byte, with its deviating checksum |
| `FrameStream.DecodeAppend` | tools/wifi_provision_protocol.py:69-98 | decoding a + b is decoding a, then the remainder of a followed by b: same frames, same final remainder and rejection count |
| `FrameStream.ReadsDecodeAlike` | tools/wifi_provision_protocol.py:69-98 | any split of a stream into reads decodes alike, from any state between reads |
| `FrameStream.NoisyRoundTrip` | tools/wifi_provision_protocol.py:52-98 | encodable frames between runs of bytes without a sync pair are decoded exactly, in order, under all four transport policies |
| `FrameStream.SingleFrameCrosses` | components/core/src/protocol/frame.cpp:56-66 | an encodable frame alone is decoded as itself and leaves nothing buffered |
| `FrameStream.JudgeIntact` | components/core/src/protocol/frame.cpp:130-185 | with an intact length field a complete candidate is accepted, as its type and payload, exactly when its checksum matches |
| `FrameStream.CorruptionRejected` | components/core/src/protocol/frame.cpp:156-179 | a frame with the host checksum and one byte or two adjacent bytes of type, payload or checksum altered is rejected at its own sync position, on the UART unless the altered type is of the firmware family |
| `UartCorruption.ChecksumCorruptionRejected` | components/core/src/protocol/frame.cpp:156-179 | on every transport a frame with anything else in its checksum field is rejected |
| `UartCorruption.FirmwareCorruptionExactly` | components/core/src/protocol/frame.cpp:164-179 | a firmware-family frame with one byte of type or payload altered within the family is accepted if and only if the two runs of its checksum meet |
| `UartCorruption.FirmwareErrorUnnoticed` | components/core/src/protocol/frame.cpp:164-169 | for every firmware-family type and all payload bytes around it, some payload byte can change without being noticed |
| `UartFamilies.CrossedFamilyExactly` | components/core/src/protocol/frame.cpp:164-179 | any frame whose type is altered into or out of the firmware family is accepted if and only if the firmware-side body, with bit 4 flipped where it hits a replaced entry, and the other body have one host checksum |
| `UartFamilies.CrossedFamilyByType` | components/core/src/protocol/frame.cpp:164-179 | when no byte of length field or payload hits a replaced entry, that is: if and only if the firmware-side type byte hits one and the other type is 16 more |
| `UartFamilies.DataHitsExactly` | components/core/src/protocol/crc.cpp:45-67 | a firmware data frame hits a replaced entry at its type byte exactly when its payload has 29, 166, 303 or 440 bytes, whatever it contains |
| `UartFamilies.DataCrossesExactly` | components/core/src/protocol/frame.cpp:164-179 | so under the same guard a data frame crosses the firmware family unnoticed exactly between 0xC3 and 0xD3 and at those payload lengths |
| `UartSample.ReplyCrosses` | components/application/src/controller/controller_config_transfer.cpp:92-160 | the data reply sent for a file of two settings, which one flipped bit turns into an accepted firmware data frame |
| `CrcTrace.TraceHits` | components/core/src/protocol/crc.cpp:60-70 | in a list of register values that follows the table step by step, the bytes that hit a replaced entry are those listed so |
| `FrameDecoder.DecodeFrames` | tools/wifi_provision_protocol.py:69-98 | the prefix-deleting loop terminates and returns the frames and remainder of the specification |
| `FrameDecoder.StreamDecoder.Push` | components/core/src/protocol/frame.cpp:90-208 | the incremental decoder returns the specified frames and keeps the specified buffer and rejection count, with the UART retention limit |
| `FrameDecoder.StreamDecoder.Scan` | components/core/src/protocol/frame.cpp:120-186 | the scanning loop of a push, with its per-policy discards and the extra discard after 5000 rejections |
| `FrameDecoder.Retained` | components/core/src/protocol/frame.cpp:111-117 | UART retention keeps a suffix of fewer than 2048 bytes, and everything when there is room |
| `FrameDecoder.RetainedExactly` | components/core/src/protocol/frame.cpp:111-117 | the least multiple of 256 bytes is dropped that leaves fewer than 2048 |
| `FrameDecoder.RestBounded` | components/core/src/protocol/frame.cpp:120-186 | less than one maximal frame stays buffered after a push |
| `FrameDecoder.PushesDecodeTheStream` | components/core/src/protocol/frame.cpp:81-208 | the frames of any sequence of pushes are those of the whole stream as long as no push overflows the retention limit |
| `FrameDecoder.SmallReadsDropNothing` | components/core/src/protocol/frame.cpp:111-117 | only UART pushes of more than 1520 bytes can overflow it |
| `ControllerTransfer.ParseGeometry` | components/application/src/controller/controller_transfer.cpp:45-57 | a geometry parses exactly when it has six bytes, to a 32-bit count and a 16-bit size |
| `ControllerTransfer.EncodeGeometry` | components/application/src/controller/controller_transfer.cpp:70-80 | six bytes that parse back to the same count and size |
| `ControllerTransfer.ParseDataRequest` | components/application/src/controller/controller_transfer.cpp:59-68 | a request parses exactly when it has four bytes, and keeps the wire form of its index |
| `ControllerTransfer.ParseWireIndex` | main/controller/mock_controller_channel_adapter.cpp:267-278 | an encoded index, whatever follows it, parses to that index and its own bytes |
| `ControllerTransfer.Packet` | components/application/src/controller/controller_transfer.cpp:82-88 | family and operation of a built packet are recovered from its type byte |
| `FirmwareTransfer.BlockCount` | components/application/src/controller/controller_firmware_transfer.cpp:108-110 | the least number of blocks that covers the low 32 bits of the file size |
| `FirmwareTransfer.ControllerFirmwareTransfer.Process` | components/application/src/controller/controller_firmware_transfer.cpp:20-43 | handling a frame changes the fields and asks the port for the actions of the specification, timeout rule included |
| `FirmwareTransfer.ControllerFirmwareTransfer.HandleStart` | components/application/src/controller/controller_firmware_transfer.cpp:45-68 | start: activation and wait, or cancellation when the file is missing |
| `FirmwareTransfer.ControllerFirmwareTransfer.HandleGeometry` | components/application/src/controller/controller_firmware_transfer.cpp:70-123 | geometry: rearming, block count, panic on zero size, error reports |
| `FirmwareTransfer.ControllerFirmwareTransfer.HandleData` | components/application/src/controller/controller_firmware_transfer.cpp:125-179 | data: disarming, 32-bit offset, empty and overlong reads, failed sends |
| `FirmwareTransfer.ReachableAlways` | components/application/src/controller/controller_firmware_transfer.cpp:20-43 | over every run: waiting implies active, an armed wait began at the latest start or geometry, and timeouts never outnumber starts |
| `FirmwareTransfer.TimeoutExactly` | components/application/src/controller/controller_firmware_transfer.cpp:194-205 | a timeout is published if and only if an unknown operation is handled with an armed wait at least 5000 ms after the latest start or geometry |
| `FirmwareTransfer.TimeoutsNeverOutnumberStarts` | components/application/src/controller/controller_firmware_transfer.cpp:181-205 | over every run, timed-out events are at most as many as started events |
| `TransferAdapter.ReadBlock` | main/controller/controller_transfer_adapter.cpp:85-105 | a read succeeds exactly for a positive size, an offset within long, an opened file and no stream error, and returns the file from the offset, or from its beginning after a failed seek |
| `TransferAdapter.ReadChunks` | main/controller/controller_transfer_adapter.cpp:107-120 | chunked reading gives the consecutive pieces of the file, and succeeds if and only if the last one starts within long |
| `TransferAdapter.PiecesComplete` | main/controller/controller_transfer_adapter.cpp:107-120 | the pieces concatenate to the file and only the last may be short |
| `TransferAdapter.ReadConfigurationChunks` | main/controller/controller_transfer_adapter.cpp:46-63 | the nested loops cut every newline-ended line into pieces of its own |
| `TransferAdapter.LinePiecesComplete` | main/controller/controller_transfer_adapter.cpp:46-63 | those pieces concatenate to the newline-ended lines and none is empty or too long |
| `TransferAdapter.ProgressMonotone` | main/controller/controller_transfer_adapter.cpp:182-190 | when nothing wraps, progress grows with the index and never exceeds 100 |
| `TransferAdapter.ProgressComplete` | main/controller/controller_transfer_adapter.cpp:182-190 | the last frame is published as 100 if and only if 100 n + n/2 fits 32 bits |
| `TransferAdapter.ProgressFitsFrom101` | components/application/src/controller/controller_firmware_transfer.cpp:108-110 | block sizes of at least 101 bytes keep every file below 2^32 bytes in that range |
| `TransferAdapter.ProgressIsNearest` | main/controller/controller_transfer_adapter.cpp:182-190 | within the range the progress is the percentage rounded to the nearest integer |
| `MockController.MockControllerChannel.StartTransfer` | main/controller/mock_controller_channel_adapter.cpp:172-191 | starting a transfer when none runs queues the start packet and resets the counters |
| `MockController.MockControllerChannel.HandleTransferResponse` | main/controller/mock_controller_channel_adapter.cpp:193-265 | the peer reacts to every mainboard frame as specified, faults included |
| `MockController.MockControllerChannel.RequestTransferData` | main/controller/mock_controller_channel_adapter.cpp:267-278 | a request carries the current index |
| `MockController.MockControllerChannel.CompleteTransfer` | main/controller/mock_controller_channel_adapter.cpp:280-300 | ending a transfer queues complete or cancel and resets the peer |
| `MockController.DelayedWhileSilent` | main/controller/mock_controller_channel_adapter.cpp:280-307 | over every run a frame is held back only by a running peer that has gone silent, and it is of an unknown operation |
| `MockController.EndsReset` | main/controller/mock_controller_channel_adapter.cpp:280-300 | however a transfer ends, one complete or cancel frame is queued and the peer is as before any transfer |
| `MockController.WrongBlockCancels` | main/controller/mock_controller_channel_adapter.cpp:257-259 | a block other than the one asked for ends the transfer with a cancellation |
| `FirmwareExchange.OffsetNeverWraps` | components/application/src/controller/controller_firmware_transfer.cpp:144-146 | the 32-bit offset of every announced block is (i - 1) * size and lies within the file |
| `FirmwareExchange.BlockRound` | components/application/src/controller/controller_firmware_transfer.cpp:125-179 | frame by frame: one request and reply deliver exactly block i and lead to request i + 1 or the end |
| `FirmwareExchange.ExchangeEnds` | components/application/src/controller/controller_firmware_transfer.cpp:20-205 | on a link that hands frames across, every run of server and peer is over after 2 r + 7 steps at any times, with exactly the first r blocks delivered and the exact list of published events |
| `FirmwareExchange.WholeFileDelivered` | main/controller/mock_controller_channel_adapter.cpp:193-300 | on such a link the exchange completes with exactly the file if and only if the file is shorter than 2^32 bytes and its last block starts within long |
| `WireExchange.RoundsRefine` | main/controller/mock_controller_channel_adapter.cpp:55-98 | with blocks of at most 515 bytes any rounds over the encoded bytes, through both decoders and in reads of any size, are the exchange of frames |
| `WireExchange.UartExchangeEnds` | main/controller/mock_controller_channel_adapter.cpp:90-98 | with such blocks every exchange over the UART is over after r + 4 rounds, with exactly the first r blocks delivered and nothing left in a buffer |
| `LostBlocks.LostBlockHangs` | main/controller/mock_controller_channel_adapter.cpp:90-98 | a first block of 516 to 65528 bytes that the peer does not mistake for other frames leaves the server active, not waiting, and nothing on its way |
| `LostBlocks.HangingFile` | main/controller/mock_controller_channel_adapter.cpp:90-98 | a file of 516 bytes whose transfer in one block so hangs |
| `LostBlocks.StuckForever` | components/application/src/controller/controller_firmware_transfer.cpp:194-205 | from then on no round changes anything and no frame of an unknown operation ever times the transfer out |
| `LostBlocks.QuietIsLost` | components/core/src/protocol/frame.cpp:111-151 | an oversized frame without a second sync pair in its bytes completes no frame at the peer |
| `UnsendableBlocks.UnsendableBlockCancels` | main/controller/controller_transfer_adapter.cpp:144-145 | a first block of more than 65528 bytes does not encode, and the exchange ends in a cancellation |
| `WireOutcome.WholeFileOverUart` | main/controller/mock_controller_channel_adapter.cpp:55-98 | over the UART the exchange completes with exactly the file if and only if the file is shorter than 2^32 bytes, its last block starts within long and its blocks have at most 515 bytes |
| `FaultedExchange.MalformedGeometryEnds` | main/controller/mock_controller_channel_adapter.cpp:201-211 | a short geometry ends the exchange with an error and a cancellation, nothing delivered |
| `FaultedExchange.ControllerCancelEnds` | main/controller/mock_controller_channel_adapter.cpp:238-239 | a peer that cancels on the announcement ends the exchange with a cancellation and no error |
| `FaultedExchange.SilenceTimesOut` | main/controller/mock_controller_channel_adapter.cpp:212-222 | a silent peer leaves the server waiting, and its late unknown frame times the transfer out exactly from five seconds on |
| `FaultedExchange.MissingFileEnds` | components/application/src/controller/controller_firmware_transfer.cpp:45-68 | without a file the exchange is over after three steps with a cancellation and nothing else published |
| `TransferAnswers.FirmwareStartAnswered` | components/application/src/controller/controller_firmware_transfer.cpp:45-68 | a start is answered once: by a start, an event and an armed wait if there is a file, by a cancellation otherwise |
| `TransferAnswers.FirmwareCancelsExactly` | components/application/src/controller/controller_firmware_transfer.cpp:45-192 | the exact conditions under which a firmware frame is answered by a cancellation |
| `TransferAnswers.FirmwareErrorsExactly` | components/application/src/controller/controller_firmware_transfer.cpp:188-192 | an error event is published for the same failures, but not for a missing file or data that cannot be sent |
| `TransferAnswers.FirmwarePanicsExactly` | components/application/src/controller/controller_firmware_transfer.cpp:103-106 | the server panics exactly on a proposed block size of zero |
| `TransferAnswers.FirmwareDataAnswered` | components/application/src/controller/controller_firmware_transfer.cpp:144-180 | what the file gives for a request is sent, cut to the block size, after the four bytes of the request |
| `TransferAnswers.FirmwareGeometryAnswered` | components/application/src/controller/controller_firmware_transfer.cpp:70-123 | a good geometry is answered with the block count and the proposed size |
| `TransferAnswers.FirmwareActivity` | components/application/src/controller/controller_firmware_transfer.cpp:20-205 | when the server is active and when it waits, after every kind of frame |
| `TransferAnswers.ConfigurationDataAnswered` | components/application/src/controller/controller_config_transfer.cpp:121-189 | a data reply is the four index bytes, whole records from the one asked for, and a newline; indices 0 and 1 both ask for the first |
| `TransferAnswers.ConfigurationCancelsExactly` | components/application/src/controller/controller_config_transfer.cpp:59-189 | the exact conditions under which a configuration frame is answered by a cancellation |
| `TransferAnswers.ConfigurationAnswers` | components/application/src/controller/controller_config_transfer.cpp:59-120 | every start is acknowledged and every good geometry answered with the announced count and 512 |
| `TransferAnswers.ConfigurationActivity` | components/application/src/controller/controller_config_transfer.cpp:39-120 | when the configuration family is active and which count it remembers, after every kind of frame |
| `TransferAnswers.ServedWhileStanding` | components/application/src/controller/controller_config_transfer.cpp:39-57 | over every run data requests are served exactly while an accepted geometry stands that no complete or cancel frame has followed |
| `TransferAnswers.FactoryFileRemovedExactly` | components/application/src/controller/controller_factory_transfer.cpp:34-39 | the factory file is removed by a complete frame and by nothing else |
| `TransferAnswers.RemovedOncePerCompletion` | components/application/src/controller/controller_factory_transfer.cpp:175-183 | over every run it is removed once for every complete frame |
| `TransferAnswers.FactoryCancelsExactly` | components/application/src/controller/controller_factory_transfer.cpp:45-172 | the exact conditions under which a factory frame is answered by a cancellation |
| `TransferAnswers.FactoryAnswers` | components/application/src/controller/controller_factory_transfer.cpp:45-110 | starts are acknowledged, good geometries answered with the record count and the proposed size, and activity kept |
| `ConfigTransfer.Transform` | components/application/src/controller/controller_config_transfer.cpp:26-35 | a record keeps 3 to 64 bytes; what it keeps is stated by ArrivingIsTransformed |
| `ConfigTransfer.AnnouncedIsExact` | components/application/src/controller/controller_config_transfer.cpp:103-106 | the announced count is the number of records exactly when every chunk of more than two bytes is eligible |
| `ConfigTransfer.GatherBounds` | components/application/src/controller/controller_config_transfer.cpp:150-158 | the unsigned subtraction never underflows: whole records, at most 496 bytes, more than 432 when records are left |
| `ConfigTransfer.AtLeastSeven` | components/application/src/controller/controller_config_transfer.cpp:150-158 | a reply that leaves records behind holds at least seven |
| `ConfigTransfer.ReplyData` | components/application/src/controller/controller_config_transfer.cpp:150-164 | a request has reply data exactly when its skip count is within the records; it has at most 497 bytes and ends with a newline |
| `ConfigTransfer.WalkCoversRecords` | components/application/src/controller/controller_config_transfer.cpp:150-171 | the walk over skips 0, k1, k1 + k2, ... only uses skips an index can express and carries every record once, in order |
| `ConfigTransfer.ConfigurationFetched` | components/application/src/controller/controller_config_transfer.cpp:77-189 | after any accepted geometry, the data replies to that walk together are the whole selected text |
| `ConfigTransfer.SelectRecords` | components/application/src/controller/controller_config_transfer.cpp:143-148 | the selection loop yields the transformed eligible chunks in order |
| `ConfigTransfer.AggregateFrom` | components/application/src/controller/controller_config_transfer.cpp:150-158 | the aggregation loop, with its wrapping subtraction, gathers what the specification gathers |
| `ConfigTransfer.ControllerConfigTransfer.Process` | components/application/src/controller/controller_config_transfer.cpp:39-57 | handling a frame changes the fields and sends what the specification says |
| `ConfigTransfer.ControllerConfigTransfer.HandleData` | components/application/src/controller/controller_config_transfer.cpp:121-189 | data replies: short request, no geometry yet, unreadable file, exhausted records, no memory, failed send |
| `ConfigurationDelivery.RecordsOfLines` | main/controller/controller_transfer_adapter.cpp:46-63 | the records of any lines are, in order, the last parts of their 255-byte chunks: whole with a newline up to 63 bytes, else the first 62 bytes with a newline and a zero; none for parts below two bytes or starting with a hash or an asterisk |
| `ConfigurationDelivery.ArrivingIsTransformed` | components/application/src/controller/controller_config_transfer.cpp:18-35 | what arrives of a line, described by its own bytes, is the transformed last chunk exactly when that chunk is eligible |
| `ConfigurationDelivery.RecordsAreLinesExactly` | main/controller/controller_transfer_adapter.cpp:46-63 | the records are the uncommented lines of at least two bytes, byte for byte, if and only if each of these has at most 63 bytes and the last chunk of no other line is eligible |
| `ConfigurationDelivery.ShortLinesAreIntact` | main/controller/controller_transfer_adapter.cpp:46-63 | files without a line of more than 63 bytes meet that condition |
| `ConfigurationDelivery.LongCommentLeaks` | main/controller/controller_transfer_adapter.cpp:53-60 | the tail of a comment line longer than 254 bytes reaches the controller as a record |
| `ConfigurationDelivery.ConfigurationDelivered` | components/application/src/controller/controller_config_transfer.cpp:121-189 | for every config.txt, from file text to reply bytes, the walk fetches exactly these last parts, which are the wanted lines complete and in order if and only if that condition holds |
| `FactoryTransfer.FactoryFetched` | components/application/src/controller/controller_factory_transfer.cpp:90-172 | the announced count is the number of eligible chunks, replies 1 to count are exactly the eligible chunks that fit, and they are all of them if and only if all fit |
| `FactoryTransfer.OneReply` | components/application/src/controller/controller_factory_transfer.cpp:128-172 | request i yields the wire index and exactly the i-th eligible chunk when it fits, and nothing otherwise |
| `FactoryDelivery.OnlyTheTailFits` | components/application/src/controller/controller_factory_transfer.cpp:152-154 | full 255-byte chunks exceed the record limit, so at most the last chunk of a file is delivered |
| `FactoryDelivery.DeliverableExactly` | components/application/src/controller/controller_factory_transfer.cpp:139-156 | a record is delivered if it has 3 to 132 bytes, fits the proposed size and starts with no hash |
| `FactoryDelivery.TailExactly` | components/application/src/controller/controller_factory_transfer.cpp:139-156 | the last chunk of a file is what whole chunks of 255 bytes leave |
| `FactoryDelivery.FactoryDelivered` | components/application/src/controller/controller_factory_transfer.cpp:90-172 | for every factory file the replies carry its last chunk if that is eligible and fits, and the whole file if and only if it is empty or itself such a record |
| `FactoryTransfer.SelectRecord` | components/application/src/controller/controller_factory_transfer.cpp:139-172 | the counting loop finds the i-th eligible chunk, or none beyond the last |
| `FactoryTransfer.Fitting` | components/application/src/controller/controller_factory_transfer.cpp:152-154 | dropping oversized records changes nothing exactly when none is oversized |
| `FactoryTransfer.ControllerFactoryTransfer.Process` | components/application/src/controller/controller_factory_transfer.cpp:23-43 | handling a frame changes the fields, sends the replies and removes the file as specified |
| `ControllerLink.DecodedFit` | components/core/src/protocol/frame.cpp:139-151 | whatever bytes arrive, only frames within the size limit are ever decoded |
| `ControllerLink.CrossesExactly` | components/core/src/protocol/frame.cpp:139-151 | a frame crosses the UART exactly when its payload has at most 519 bytes |
| `ControllerLink.TransportLimits` | components/core/include/core/protocol/frame.hpp:60-78 | on every transport a frame is encoded and decoded if and only if its payload is within that transport: 65532, 8291, 8291 and 519 bytes |
| `ControllerLink.ConfigurationRepliesCross` | components/application/src/controller/controller_config_transfer.cpp:159-188 | every configuration reply crosses the UART, whatever state, request and file |
| `ControllerLink.FactoryRepliesCross` | components/application/src/controller/controller_factory_transfer.cpp:152-171 | every factory reply crosses the UART |
| `ControllerLink.FirmwareBlockCrossesExactly` | components/application/src/controller/controller_firmware_transfer.cpp:169-178 | a firmware block crosses the UART exactly when it has at most 515 bytes, though the server accepts sizes up to 65535 |
| `ConfigurationText.Trimmed` | components/application/src/configuration/configuration_document.cpp:43-47 | the two trimming loops |
| `ConfigurationText.TrimSplits` | components/application/src/configuration/configuration_document.cpp:43-47 | trimming removes white space only, from the ends only, and all of it |
| `ConfigurationText.EqualCaseInsensitive` | components/application/src/configuration/configuration_document.cpp:30-36 | the comparison loop decides equality of the lower-cased texts |
| `ConfigurationText.LinesRoundTrip` | components/application/src/configuration/configuration_document.cpp:51-81 | newline-free lines survive being joined and split |
| `ConfigurationSyntax.NoSettingExactly` | components/application/src/configuration/configuration_document.cpp:52-76 | a line is no setting exactly when it is blank, a comment, starts with the equals sign, or has neither equals sign nor blank |
| `ConfigurationSyntax.EqualsLine` | components/application/src/configuration/configuration_document.cpp:58-69 | white space around key, equals sign and value is ignored |
| `ConfigurationSyntax.BlankLine` | components/application/src/configuration/configuration_document.cpp:59-69 | without an equals sign the first space or tab separates key and value |
| `ConfigurationSyntax.LinesAreKept` | components/application/src/configuration/configuration_document.cpp:43-79 | reading and writing back keeps every line in order and only turns line ends into newlines |
| `ConfigurationSyntax.SameExactly` | components/application/src/configuration/configuration_document.cpp:32-38 | keys are the same exactly when they differ at most in the case of ASCII letters |
| `ConfigurationSyntax.KeysAreRaised` | components/application/src/configuration/configuration_document.cpp:105-111 | after an update no key holds a lower-case letter |
| `ConfigurationSyntax.TrimmedExactly` | components/application/src/configuration/configuration_document.cpp:11-14 | the six characters that count as white space |
| `ConfigurationDocument.SettingIsCanonical` | components/application/src/configuration/configuration_document.cpp:59-75 | whatever key and value a line yields are trimmed, newline-free and reparse to themselves |
| `ConfigurationDocument.KeySurvivesExactly` | components/application/src/configuration/configuration_document.cpp:59-75 | a newline-free key and value written as one line are read back if and only if the key is non-empty, trimmed, without equals sign and not a comment start |
| `ConfigurationDocument.SetAtPosition` | components/application/src/configuration/configuration_document.cpp:94-106 | an update rewrites the first matching line or appends one and leaves every other line alone |
| `ConfigurationUpdate.ParseSerializeParse` | components/application/src/configuration/configuration_document.cpp:51-132 | for any text, parse, serialize, parse keeps the list of settings |
| `ConfigurationUpdate.UpdateReads` | components/application/src/configuration/configuration_document.cpp:94-132 | for every text, key and value the updated text reads as the old settings in order, keys upper-cased, with the first match, or else the end, replaced by what the written line holds |
| `ConfigurationUpdate.UpdateIsRightExactly` | components/application/src/configuration/configuration_document.cpp:84-132 | rereading gives the new value for keys equal ignoring case and the old answer for every other key if and only if the key is well formed and the value has no newline before its trailing white space |
| `ConfigurationUpdate.SurvivorIsHeld` | components/application/src/configuration/configuration_document.cpp:94-106 | such a written line holds exactly the upper-cased key and the trimmed value |
| `ConfigurationUpdate.MalformedIsNotFound` | components/application/src/configuration/configuration_document.cpp:84-92 | a malformed key is found in no text |
| `ConfigurationDocument.BelowIsLookup` | components/application/src/configuration/configuration_document.cpp:146-164 | listing a namespace and searching the list is the same as a direct lookup |
| `ConfigurationDocument.Document.constructor` | components/application/src/configuration/configuration_document.cpp:51-82 | the parsing loop |
| `ConfigurationDocument.Document.Lookup` | components/application/src/configuration/configuration_document.cpp:84-92 | first match in line order |
| `ConfigurationDocument.Document.Update` | components/application/src/configuration/configuration_document.cpp:94-106 | the update loop |
| `ConfigurationDocument.Document.RaiseKeys` | components/application/src/configuration/configuration_document.cpp:108-114 | every entry line, and no other, is rewritten with an upper-case key |
| `ConfigurationDocument.Document.ListEntries` | components/application/src/configuration/configuration_document.cpp:116-122 | all entries in line order |
| `ConfigurationDocument.Document.Write` | components/application/src/configuration/configuration_document.cpp:124-132 | newlines between and after the lines |
| `ConfigurationDocument.ReadSetting` | components/application/src/configuration/configuration_document.cpp:57-75 | comments, first equals sign or else first blank, trimmed parts, empty keys |
| `ConfigurationDocument.Namespace.Read` | components/application/src/configuration/configuration_document.cpp:146-149 | lookup under the tag prefix |
| `ConfigurationDocument.Namespace.Update` | components/application/src/configuration/configuration_document.cpp:151-153 | update under the tag prefix |
| `ConfigurationDocument.Namespace.ReadAll` | components/application/src/configuration/configuration_document.cpp:155-164 | the entries below the prefix, ignoring case |
| `ConfigurationStore.SetThenGetExactly` | main/configuration/configuration_file_store.cpp:116-138 | after an accepted update every spelling of that tag and key reads the new value and every other setting reads as before if and only if the full key is well formed and the value has no newline before its trailing white space |
| `ConfigurationStore.UpdateIsRemembered` | main/configuration/configuration_file_store.cpp:116-153 | what one transaction does to the stored settings, for any key, any value and any outcome of its file operations |
| `ConfigurationStore.StoreIsRemembered` | main/configuration/configuration_file_store.cpp:116-153 | over every run of updates, whatever their keys and values and whatever fails, the file holds the settings of an abstract memory |
| `ConfigurationStore.StoreAnswers` | main/configuration/configuration_file_store.cpp:66-138 | over every run every answer is a lookup in that memory |
| `ConfigurationStore.StoreIsAMap` | main/configuration/configuration_file_store.cpp:66-138 | over every run of settings that survive, whatever fails, the store is a map of latest accepted values, reset by an update over an unreadable file and cleared by a rename that fails after the removal |
| `ConfigurationStore.ReplaceIsAtomicExactly` | main/configuration/configuration_file_store.cpp:128-138 | the replacement is all or nothing if and only if the old file was not removed before a failing rename |
| `ConfigurationStore.FailedRenameLosesEverything` | main/configuration/configuration_file_store.cpp:132-136 | in that case no setting is left, whatever was being set, although the update reports failure |
| `ConfigurationStore.UnreadableFileIsReplaced` | main/configuration/configuration_file_store.cpp:57-64 | an accepted update over an unreadable file leaves exactly what the one written line holds |
| `ConfigurationStore.TemporaryRemainsExactly` | main/configuration/configuration_file_store.cpp:118-152 | the temporary file remains with the new text exactly after a failed replacement that could not be cleaned up, and after a failed write as that left it |
| `ConfigurationNamespaces.KeyOfTag` | components/application/src/configuration/configuration_document.cpp:140-149 | a tag and a key name the setting tag, underscore, key, without a second underscore, and without tag that of MAINBOARD |
| `ConfigurationNamespaces.NamespacesDisjoint` | components/application/src/configuration/configuration_document.cpp:140-153 | two requests with tags without underscore name one setting if and only if tags and keys are the same |
| `ConfigurationNamespaces.NamespacesCollide` | components/application/src/configuration/configuration_document.cpp:140-153 | with an underscore in a tag they can name one setting although both differ |
| `ConfigurationNamespaces.OtherSettingsStay` | main/configuration/configuration_file_store.cpp:108-152 | an accepted update of such a tag and key changes no other |
| `ConfigurationStore.ConfigurationFileStore.Update` | main/configuration/configuration_file_store.cpp:116-138 | the transaction over the two files, with every outcome of its file operations |
| `ConfigurationStore.ConfigurationFileStore.UpdateRawKey` | main/configuration/configuration_file_store.cpp:140-153 | the same for a complete key |
| `ConfigurationStore.ConfigurationFileStore.Lookup` | main/configuration/configuration_file_store.cpp:66-75 | a fresh read under the effective tag |
| `ConfigurationStore.ConfigurationFileStore.LookupAll` | main/configuration/configuration_file_store.cpp:107-114 | the listing of a tag agrees with single lookups for every key |
| `PersistenceJobs.Always` | main/connectivity/access_point_command_adapter.cpp:43-142 | in every interleaving the reference count is the number of holders and the queue, worker and jobs agree |
| `PersistenceJobs.NoUseAfterFree` | main/connectivity/access_point_command_adapter.cpp:56-142 | no step of either party ever uses a freed job |
| `PersistenceJobs.TrueMeansWritten` | main/connectivity/access_point_command_adapter.cpp:132-141 | a requester returns true only if the worker, with that very job in hand, took the step of a successful write; no job is freed twice |
| `PersistenceJobs.ResultExactly` | main/connectivity/access_point_command_adapter.cpp:132-141 | a returned requester says true if and only if it took the semaphore and the worker wrote its job with success; a false answer to a successful write is exactly that of a requester that never took it |
| `PersistenceJobs.WrittenButFalse` | main/connectivity/access_point_command_adapter.cpp:132-141 | a run in which the requester is told false and the worker then writes what it asked for |
| `PersistenceJobs.OutcomeExactly` | main/connectivity/access_point_command_adapter.cpp:72-81 | the recorded outcome of a job is that of the write step the worker took while it had that job in hand, and there is none without such a step |
| `PersistenceJobs.SentWithSemaphore` | main/connectivity/access_point_command_adapter.cpp:119-131 | a job is queued exactly if its requester sent it, and only after its semaphore was created |
| `PersistenceJobs.QueueHoldsFour` | main/connectivity/access_point_command_adapter.cpp:88-131 | at most four jobs wait, and a requester can queue its job exactly while fewer do |
| `PersistenceJobs.FreedExactlyOnce` | main/connectivity/access_point_command_adapter.cpp:56-61 | at rest every job has been freed exactly once and the worker took all sent jobs in order |
| `PersistenceJobs.NeverStuck` | main/connectivity/access_point_command_adapter.cpp:63-142 | until everything is at rest some step of an existing job can be taken |
| `PersistenceJobs.RunsEnd` | main/connectivity/access_point_command_adapter.cpp:63-142 | a run takes at most thirteen steps for each job |
| `TcpSlots.Always` | main/transport/tcp_control_adapter.cpp:719-957 | in every interleaving each occupied slot has one owner, the registry holds exactly the sessions being served, and the client count is the number of counted contexts |
| `TcpSessions.LiveContextsExactly` | main/transport/tcp_control_adapter.cpp:838-879 | at most two live contexts per slot, two exactly while the worker retires the old one; a queued connection implies an occupied slot; dispatch never fails |
| `TcpSlots.DispatchNeverFails` | main/transport/tcp_control_adapter.cpp:946-956 | the queue of a slot being dispatched to is empty |
| `TcpSessions.RejectedOnlyWhenFull` | main/transport/tcp_control_adapter.cpp:906-923 | a client is refused only while all four slots hold connections that are not over |
| `TcpSessions.DeliveryReachesCurrent` | main/transport/tcp_control_adapter.cpp:1015-1030 | delivery by slot reaches exactly the session being served, which is the latest connection of the slot; registered slots are distinct |
| `TcpSessions.ReachesAddressedExactly` | main/transport/tcp_control_adapter.cpp:1015-1030 | a frame addressed to an identity reaches the connection it names if and only if that connection is registered, that is being served |
| `TcpSessions.NeverReachesEarlier` | main/transport/tcp_control_adapter.cpp:1015-1030 | a frame for a connection that was ever served reaches that connection or a later one of its slot, in every run |
| `TcpSessions.SuccessorReached` | main/transport/tcp_control_adapter.cpp:1020-1021 | from every state in which the connection is served, no earlier slot is free and nothing is being accepted, the run can go on so that its frames reach the next connection |
| `TcpSessions.FirstSuccessor` | main/transport/tcp_control_adapter.cpp:1020-1021 | a run from the start in which connection 2 receives the frame addressed to connection 1 |
| `TcpSessions.ServedWasReserved` | main/transport/tcp_control_adapter.cpp:924-937 | over every run a connection is served only if the reservation of buffers just before it was made had succeeded |
| `TcpSessions.ActiveCount` | main/transport/tcp_control_adapter.cpp:855-858 | the published count lies between 0 and 4 plus the workers that have not yet counted down |
| `TcpSessions.CountsCanOverlap` | main/transport/tcp_control_adapter.cpp:850-858 | a run with two live contexts in one slot and a published count of five |
| `TcpSlots.FirstFree` | main/transport/tcp_control_adapter.cpp:906-916 | the first slot that is not occupied |
| `TcpSlots.Without` | main/transport/tcp_control_adapter.cpp:840-847 | exactly the given registration is erased |
| `Deadlines.ConsumeDueOpportunity` | components/application/src/controller/controller_query.cpp:15-22 | the poll of one deadline |
| `Deadlines.ConsumeIsNaive` | components/application/src/controller/controller_query.cpp:15-22 | the closed form counts and ends like the loop that adds one period at a time |
| `Deadlines.DeadlineIsLeast` | components/application/src/controller/controller_query.cpp:15-48 | after any history of polls the deadline is the least start + k * period beyond them |
| `Deadlines.DueExactly` | components/application/src/controller/controller_query.cpp:15-48 | a poll is due if and only if a scheduled time lies after the earlier polls and not after now |
| `Deadlines.QueriesDueExactly` | components/application/src/controller/controller_query.cpp:11-48 | status queries are due every 300 ms and diagnostic queries every 500 ms, after any history of polls |
| `Deadlines.ControllerQueryScheduler.Poll` | components/application/src/controller/controller_query.cpp:30-48 | the deadlines depend on the times polled only; queries are due ones, none while traffic is suppressed |
| `Deadlines.AlarmsSinceLastFrame` | components/application/src/controller/controller_link.cpp:27-48 | alarms since the last valid frame at r total floor((t - r) / 10000), however polls are spaced |
| `Deadlines.ControllerActivityMonitor.Poll` | components/application/src/controller/controller_link.cpp:34-48 | a poll returns one alarm for each period consumed |
| `Deadlines.ControllerActivityMonitor.RecordValidFrame` | components/application/src/controller/controller_link.cpp:30-32 | a valid frame restarts the period |
| `PacedQueue.SoundAlways` | components/application/src/controller/controller_link.cpp:50-67 | accepted items are taken items followed by pending items, at most 32 are pending, takes are 10 ms apart |
| `PacedQueue.RateLimited` | components/application/src/controller/controller_link.cpp:58-67 | at most floor(W / 10) + 1 items leave in any window of W milliseconds |
| `PacedQueue.WindowBound` | components/application/src/controller/controller_link.cpp:58-67 | the same for any list of times at least 10 ms apart |
| `PacedQueue.AcceptedObey` | components/application/src/controller/controller_transfer.cpp:93-101 | every accepted item satisfies the admission rule |
| `PacedQueue.TakenExactly` | components/application/src/controller/controller_link.cpp:58-67 | over every run a poll takes the oldest item left exactly when there is one and ten milliseconds have passed since the last take |
| `PacedQueue.AcceptedExactly` | components/application/src/controller/controller_link.cpp:50-56 | over every run an offer is accepted exactly when it obeys the rule and fewer than 32 items are waiting |
| `PacedQueue.RulesExactly` | components/application/src/controller/controller_transfer.cpp:93-101 | the size limits of both queues and the family of the inbox |
| `PacedQueue.ControllerOutputQueue.Enqueue` | components/application/src/controller/controller_link.cpp:50-56 | admission: not empty, at most 544 bytes, fewer than 32 pending |
| `PacedQueue.ControllerOutputQueue.TakeReady` | components/application/src/controller/controller_link.cpp:58-67 | the front item when the interval has passed |
| `PacedQueue.ControllerTransferInbox.Enqueue` | components/application/src/controller/controller_transfer.cpp:93-101 | admission: right family, at most 535 payload bytes, fewer than 32 pending |
| `PacedQueue.ControllerTransferInbox.TakeReady` | components/application/src/controller/controller_transfer.cpp:103-111 | the front frame when the interval has passed |
| `DiagnosticLog.LogIsSuffix` | components/application/src/diagnostics/diagnostic_log_writer.cpp:22-112 | over every run with arbitrary failures log.2, log.1 and log together are a suffix of all bytes ever written, and the tracked size of an open log is its length |
| `DiagnosticLog.MovedIsSuffix` | components/application/src/diagnostics/diagnostic_log_writer.cpp:100-105 | whichever of its steps fail, a rotation keeps the chain in order, less a log.2 that it removes |
| `DiagnosticLog.WrittenFromEvents` | components/application/src/diagnostics/diagnostic_log_writer.cpp:22-52 | what was ever written is the start and, in order, the accepted part of every marker and record of an open session |
| `DiagnosticLog.AllIsKept` | components/application/src/diagnostics/diagnostic_log_writer.cpp:43-112 | as long as no rotation removes log.2 the three files hold all of it |
| `DiagnosticLog.StepWrites` | components/application/src/diagnostics/diagnostic_log_writer.cpp:22-132 | what each event adds to the files, what a rotation takes away, and whether the session stays open |
| `DiagnosticLog.RecordWithinLimitExactly` | components/application/src/diagnostics/diagnostic_log_writer.cpp:43-52 | after a whole record the log is within 3 MiB if and only if there was room or the rotation moved the log away and the record fits |
| `DiagnosticLog.RecordWithinLimit` | components/application/src/diagnostics/diagnostic_log_writer.cpp:43-52 | when file operations succeed, every record of at most 3 MiB leaves the log at most 3 MiB |
| `DiagnosticLog.DiagnosticLogWriter.StartSession` | components/application/src/diagnostics/diagnostic_log_writer.cpp:22-35 | opening a session and its marker |
| `DiagnosticLog.DiagnosticLogWriter.WriteOne` | components/application/src/diagnostics/diagnostic_log_writer.cpp:43-52 | a record with its rotation and a possibly short write |
| `DiagnosticLog.DiagnosticLogWriter.RotateFiles` | components/application/src/diagnostics/diagnostic_log_writer.cpp:100-112 | close, remove, two renames, reopen |
| `UartTrace.DecodesExactly` | tools/decode_uart_trace.py:14-31 | a file decodes without complaint if and only if it is the encoding of the records printed |
| `UartTrace.RoundTrip` | tools/decode_uart_trace.py:14-31 | every list of records is returned field by field, in order |
| `UartTrace.TornTail` | tools/decode_uart_trace.py:18-25 | a file that ends within a record decodes everything before it and reports the tear |
| `UartTrace.DecodeFile` | tools/decode_uart_trace.py:14-31 | the decoding loop |
| `UartTrace.FillHeader` | main/controller/controller_uart_trace.cpp:124-130 | the twenty header bytes are filled in place |
| `UartTrace.AppendLittleEndian` | main/controller/controller_uart_trace.cpp:83-101 | a field is written least significant byte first and nothing else changes |
| `UartTrace.TraceIsSound` | main/controller/controller_uart_trace.cpp:63-141 | over every run, short writes included, the file never exceeds 4 MiB if it started within it |
| `UartTrace.TraceDecodes` | main/controller/controller_uart_trace.cpp:103-141 | after any run the records written whole before the first short write decode in order, and they are the whole file when no write fell short |
| `UartTrace.WriteExactly` | main/controller/controller_uart_trace.cpp:103-141 | after any run a write appends exactly what the card accepts of the record, all of it exactly when it is admitted and not cut short, and leaves the trace open exactly then |
| `UartTrace.EverythingIsRecorded` | main/controller/controller_uart_trace.cpp:103-141 | over every run whose writes are unhindered and have room each chunk is recorded, once and in order |
| `UartTrace.PollExactly` | main/controller/controller_uart_trace.cpp:143-158 | polls and unmounts open and close the file and never change it |
| `UartTrace.KnownRecord` | tools/decode_uart_trace.py:10-31 | one record byte for byte |
| `UartTrace.ControllerUartTrace.Append` | main/controller/controller_uart_trace.cpp:103-141 | one write with mount, open, capacity and short-write outcomes |
| `UartTrace.ControllerUartTrace.OpenTrace` | main/controller/controller_uart_trace.cpp:63-81 | opening a file below the limit adopts its real size |
| `ImageValidator.ValidMainboardImage` | main/update/esp_image_validator.cpp:22-53 | the nested loops accept exactly the images that decompose as header, declared in-bounds segments and matching seeded checksum; every read is in bounds |
| `ImageValidator.AcceptsExactly` | main/update/esp_image_validator.cpp:22-53 | scanning and the declarative decomposition agree |
| `ImageValidator.OneChangeRejected` | main/update/esp_image_validator.cpp:47-52 | changing any one byte of segment data of an accepted image makes it rejected |
| `ImageValidator.FoldDetects` | main/update/esp_image_validator.cpp:47-49 | the checksum changes with any single byte |
| `ImageValidator.XorByteBits` | main/update/esp_image_validator.cpp:47-49 | the step of the checksum is bitwise and its own inverse |
| `ImageValidator.FoldIsParity` | main/update/esp_image_validator.cpp:47-49 | each bit of the checksum is the parity of that bit over seed and data |
| `KnownImage.KnownImageExactly` | main/update/esp_image_validator.cpp:22-53 | one image byte for byte: accepted with its checksum and no other |
| `KnownImage.HeaderExactly` | main/update/esp_image_validator.cpp:27-32 | the magic byte and one to sixteen segments |
| `ImageValidator.FoldData` | main/update/esp_image_validator.cpp:47-49 | the inner loop |

## Left out

- Router, live control, file upload and download, play control, command dispatch, web UI, camera, BLUFI
  and SD mounting: composition and I/O around the modelled cores.
- ESP-IDF, FreeRTOS, TinyUSB, lwIP, mbedTLS and NVS: only the atomic queue, semaphore, mutex and counter
  steps that the two concurrent protocols rest on are modelled, as sequentially consistent steps.
- Diagnostic texts of the transfers and adapters, and the texts and timestamps of log markers: markers
  are arbitrary byte strings.
- Timed expiry of partial USB candidates (`components/core/src/protocol/frame.cpp:92-109`): the stream
  decoder is modelled as called without a timestamp.
- CRC-16 BLUFI and CRC-32: the same loops with other constants.
- FrameDecoder.PushesDecodeTheStream: beyond the retention limit the UART decoder drops bytes by design, and
  what it then decodes is only specified (`FrameDecoder.Retained`), not compared with the whole stream.
- FirmwareExchange.ExchangeEnds: on a link that hands frames across, without the peer's injected faults, which
  are the subject of `FaultedExchange`, and over an unchanged file; `WireExchange` lowers it to the encoded
  bytes and both decoders.
- FirmwareExchange.WholeFileDelivered: without the size limit of the peer's decoder, which is part of
  `WireOutcome.WholeFileOverUart`.
- FirmwareExchange.BlockRound: at any block size, also where the peer's decoder would drop the block.
- WireOutcome.WholeFileOverUart: excludes files whose oversized first block contains bytes that the peer's
  decoder takes for other frames; then the content of the file drives the peer. A round reads everything that
  is pending before it is served, and decoded frames are served at once, without the paced inbox in between.
- ConfigurationStore.StoreIsAMap: for settings that survive being written; for all others
  `ConfigurationStore.StoreIsRemembered` says what the file holds.
- TransferAdapter.ReadChunks: with reads whose calls succeed (`TransferAdapter.ReadFile`).
- The simulated peer's walk over configuration and factory content: it counts announced frames, which is
  not how those families are addressed; they are proved at the level of requests and replies.
- Hashed configuration lookup (`get_hashed`) and the audit of setting names.
- PersistenceJobs: time is abstracted, so admission and completion timeouts may happen at any moment;
  memory addresses are not reused, jobs are numbered instead.
- TcpSlots: connections are numbered without end; the 32-bit generation of an identity repeats after
  2^32 connections. Socket I/O, session contents and ownership are not part of the state.
- Deadlines: theorems assume times at least one period (for alarms two) below 2^64 milliseconds; the
  functions themselves wrap around.
- DiagnosticLog.RecordWithinLimit: bounds record writes only; markers are not checked against the limit by
  the code. Flush timing and the bounded shutdown drain are not modelled. The file system is FAT, where a
  rename fails if its destination exists.
- UartTrace.TraceIsSound: a failing `fflush` or `fclose` after accepted writes
  (`main/controller/controller_uart_trace.cpp:47-55`, `:139`) is not a parameter; what `fwrite` accepted counts
  as written. The same holds for `TraceDecodes`.
- UartTrace.TraceDecodes: what a decoder does after a short write has misaligned the records is not
  stated. The sequence counter and the trace queue are not modelled.
- ImageValidator: header sizes, field positions, magic and segment limit come from the ESP image format,
  whose header file is not part of this model.
