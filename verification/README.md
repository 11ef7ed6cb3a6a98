# A model of the canopen-rs protocol core, with proofs

canopen-rs is a sans-I/O CANopen stack: its state machines take CAN data fields and return CAN data
fields. This project models them in Dafny and proves what they do together: several devices on one
bus, a client talking to a server, a node over its whole life. `dafny verify dfyconfig.toml` checks
everything.

Objects whose methods update fields are classes here, with one field per source field. Each of their
methods is proved equal to a function on plain state values (`SlaveStep`, `ServerStep`, `ClientStep`,
`FrameStep`, ...), error paths included, and the theorems about whole runs are lemmas about those
functions. Bytes and words are bit-vectors, so masks, shifts and wrap-around are the source's. Frames
are eight-byte sequences; CAN identifiers are 16-bit words.

| files | what they hold |
|---|---|
| `Wrappers`, `Bytes`, `Datatypes`, `ObjectDictionary` | results, little-endian words, CANopen values, the dictionary and its access rights |
| `WireFormat` | every frame and value byte by byte and in numbers, the fixed sizes, and what each encoder, decoder and receiver refuses |
| `IdentityBits`, `IdentityNumbers`, `Lss`, `Fastscan`, `FastscanReports`, `Commissioning`, `Selective`, `LssServices` | LSS: slave and Fastscan master, identity values as numbers, a scan of a bus of any number of slaves, the master under any reports, commissioning a whole bus, selective switching, a slave's answers and what a conversation tells |
| `SdoCodec`, `SegmentSize`, `Segments`, `SdoServer`, `SdoClient` | SDO frames, segment splitting, server and client |
| `SdoTransaction`, `SdoRoundTrip`, `Queues`, `SdoLossy`, `SdoLeftover`, `SdoServerRuns`, `SdoRefusals` | one transaction seen from both ends, on a reliable bus, on a bus that loses and repeats frames, on one with replies left over, the server under arbitrary requests, and what is refused with which abort code |
| `Crc`, `CrcDetection`, `CrcPolynomial`, `CrcParity`, `CrcOrder`, `Block`, `BlockTransfer` | the block-transfer checksum and block transfer |
| `Pdo`, `PdoTransport`, `Records`, `PdoConfig`, `PdoSlots` | PDO mappings, moving process data between dictionaries, PDO configuration and what it is in numbers |
| `Nmt`, `ErrorField`, `Node`, `NodeGating`, `NodeNmt`, `NodePdo`, `NodeErrors`, `NodeSdo`, `NodeConfig` | the node: frame dispatch, what its states let through, its NMT state as decided by what it heard, process data from node to node, its error objects, SDO transactions through it, configuring its PDOs over the bus |

`MAX_STRING_LEN` is any capacity from 8 to 255, so the SDO results hold for the source's 32 and for
every other capacity whose lengths fit the `u8` in which `ByteString` keeps them. Integers that the source signs, and floating-point values, are
held as their bit patterns.

Some things the proofs show that the documentation of the code does not say:

* An SDO write of an empty string completes, but the stand-alone helpers `SegmentWriter` and
  `BlockWriter` send nothing for empty data, so their receivers never complete
  (`SegmentsRoundTrip`, `BlockRoundTrip` say exactly when they do).
* The client does not look at the address in a download acknowledgement or an upload answer. One left
  on the bus from an earlier transaction completes a new inline write that the server has not seen
  (`LeftAcknowledgementCompletes`), or a new read with its own value (`LeftAnswerCompletes`). With a
  server in the middle of another transfer it can also direct a write's segments into a different
  object, or answer a read with that object's value, and the client still reports completion
  (`LeftAcknowledgementMisdirects`, `LeftAnswerMisdirects`). `WriteSafeIff` and `ReadSafeIff` say
  exactly which left-over replies are harmless.
* `BlockWriter` accepts block sizes of 128 and more and fails at sequence number 128 if the data gets
  that far (`SubBlockFailsIff`); a size of zero sends nothing for ever (`ZeroSizeStalls`).
* `FastscanMaster` says it has found a node if any report ever was an answer, also after a scan that
  found nobody (`LateAnswerMisreports`), and fails on an unanswered report after a scan that found one
  (`ReportFailsIff`, `FinishedScanFails`).
* A BOOLEAN sent as a byte above 1 decodes but does not re-encode to the same byte (`EncodeDecode`).
* After `clear_errors` the dictionary's error field counts zero errors, but the words of earlier
  errors stay in its higher subindexes (`ClearLeavesOldWords`).
* A pending node-id of 0xFF, which LSS confirms, is never adopted by `apply_lss_node_id`
  (`UnconfiguredIdConfirmedNotAdopted`).

## Model

| member | source | states |
|---|---|---|
| Fastscan.FastscanFindsSmallest | core/src/lss.rs:256-294 | for any number of slaves in any prior state, a scan reports a node iff some slave is unconfigured and waiting; the address is the lexicographically smallest of theirs, exactly the slaves with it enter configuration, and no other state, node-id or pending id changes |
| Fastscan.ScanTerminates | core/src/lss.rs:256-294 | against any answers, even adversarial ones, a scan sends 133 requests if its probe is answered and one otherwise, each with its bit check, part and next part in range |
| Fastscan.SmallestExists | core/src/lss.rs:74-92 | among the participating slaves one has an address no other is below, in the order vendor, product, revision, serial |
| Fastscan.ScanStep | core/src/lss.rs:271-294 | one request of the scan keeps the invariant tying the master's partial address to the smallest participant and every slave's cursor to the part and bits it still matches |
| Commissioning.CommissioningNumbersByAddress | core/src/lss.rs:363-500 | scan, configure, adopt, switch back, repeated: up to 127 unconfigured slaves with distinct addresses get ids 1, 2, ... in ascending address order, no id twice, all others untouched, and the next scan finds nobody |
| Selective.SelectiveSwitchRecogniser | core/src/lss.rs:423-466 | over any history, a slave confirms a selective switch iff the last four switch frames it heard were its own vendor, product, revision and serial in this order |
| Selective.ProgressRecordsHistory | core/src/lss.rs:423-466 | the `selective` counter is a function of the switch frames heard; all other frames leave it alone |
| Selective.SelectiveSwitchSelectsOne | core/src/lss.rs:127-134 | on a bus of distinct addresses the four-frame sequence moves exactly the addressed slave to configuration and draws exactly one response, to the last frame |
| Lss.LssSlave.Handle | core/src/lss.rs:423-500 | the slave's new state and response to every frame |
| Lss.LssSlave.HandleFastscan | core/src/lss.rs:363-394 | the Fastscan part of it, as one step on the slave's state |
| Lss.LssSlave.Adopt | core/src/lss.rs:418-420 | the pending node-id becomes the node-id and nothing else changes |
| Lss.FastscanMaster.NextRequest | core/src/lss.rs:256-268 | the request is a function of the scan state, `None` once the scan is over |
| Lss.FastscanMaster.OnResponse | core/src/lss.rs:271-294 | the master's in-place update of its partial identity, part and bit counter, also after the scan is over wherever the source does not fail |
| FastscanReports.LateAnswerMisreports | core/src/lss.rs:271-299 | after any sequence of reports the master has found a node iff any of them was an answer, so its result agrees with the probe's iff the probe was answered or nothing was |
| FastscanReports.ReportFailsIff | core/src/lss.rs:271-294 | after any sequence of reports the next one fails iff it is unanswered on a bit check of a finished scan with a find, or would overflow the count of values |
| FastscanReports.FinishedScanFails | core/src/lss.rs:271-294 | a scan whose probe was answered takes any 133 reports and is over; an unanswered one then fails at once, an answered one does not |
| FastscanReports.SilenceNeverFails | core/src/lss.rs:271-294 | without an answer no report fails and the scan is over after the first, with nothing found |
| Lss.FrameU32RoundTrip | core/src/lss.rs:101-110 | a 32-bit identity value put into a frame is read back unchanged |
| LssServices.ConversationTells | core/src/lss.rs:423-500 | after any frames, whoever saw them and the answers knows the slave: configuring iff a switch-global with mode 1, an answered 0x43 or an answered Fastscan serial match came after the last other switch-global; the pending id is the last one confirmed, or the first one given; address and active id never change |
| LssServices.ConfirmedIff | core/src/lss.rs:468-478 | after any conversation a 0x11 is confirmed iff the slave is configuring by then and the id is 1 to 127 or 255, and unanswered iff it is not configuring |
| LssServices.NodeTakesAssignedId | core/src/node.rs:173-181 | after any LSS conversation through a node, adoption makes the last confirmed id the node-id, with a fresh SDO server, iff it is 1 to 127; dictionary, NMT state, PDOs and errors stay in every case |
| LssServices.ConversationThroughNode | core/src/node.rs:441-450 | any frames on 0x7E5, in any NMT state, change a node by exactly what they do to its slave |
| LssServices.LssThroughNode | core/src/node.rs:441-450 | a frame of at most eight bytes on 0x7E5 reaches the slave padded with zeroes, and its answer goes out on 0x7E4 |
| LssServices.SwitchGlobalServed | core/src/lss.rs:426-434 | a switch-global is never answered; mode 1 configures, any other waits, and selective progress is dropped |
| LssServices.ConfigureIdServed | core/src/lss.rs:468-478 | while configuring, an id of 1 to 127 or 255 becomes pending and is answered with error byte 0, any other with 1 and the pending id kept |
| LssServices.InquiryServed | core/src/lss.rs:480-497 | while configuring, 0x5A to 0x5E are answered with vendor, product, revision, serial and node-id, and 0x17 is echoed |
| LssServices.SilentOtherwise | core/src/lss.rs:423-500 | a waiting slave ignores the configuration services, and every slave all other commands |
| LssServices.SelectiveServed | core/src/lss.rs:435-466 | the four selective frames in numbers, and the answer 0x44 to the last |
| LssServices.FastscanServed | core/src/lss.rs:363-394 | only an unconfigured waiting slave answers, always 0x4F; a check of its part iff the numbers agree after division by the power of two of the bit; what a probe and a confirm frame change |
| IdentityNumbers.AgreementIsAbove | core/src/lss.rs:380-384 | the masked comparison of two identity values is equality after division by two to the bit |
| IdentityNumbers.NumberIsValue | core/src/lss.rs:271-294 | an identity value read bit by bit from the top, as a scan does, is that number |
| Fastscan.AddressLessIsNumeric | core/src/lss.rs:74-92 | the address order of the scan is the lexicographic order of the four values as numbers |
| SdoLossy.WriteOverLossyBus | core/src/sdo/client.rs:143-230 | over queues that lose or repeat any frames, from any valid server state, a write leaves its object at the old or the written value and all others alone; if the client reports completion, the value is written. The bus starts with no earlier request and any earlier replies but download acknowledgements |
| SdoLossy.ReadOverLossyBus | core/src/sdo/client.rs:232-280 | over the same queues, with any earlier replies the read would not take for its own first answer, a read changes nothing, and if it completes it returns the stored value |
| SdoLeftover.WriteSafeIff | core/src/sdo/client.rs:168-230 | for every value, inline or in segments: every run from every valid server and dictionary ends as a write should and completes only if written, iff no download acknowledgement is left over |
| SdoLeftover.LeftAcknowledgementMisdirects | core/src/sdo/client.rs:175-230 | a left-over acknowledgement, a lost initiate and a server holding a download into another object: all segments go there, the client reports completion and the other object is overwritten |
| SdoLeftover.MisdirectedIsReachable | core/src/sdo/server.rs:154-176 | one accepted initiate to the other object puts a new server into that state |
| SdoLeftover.LeftAcknowledgementCompletes | core/src/sdo/client.rs:168-173 | an acknowledgement left over, whatever its address, completes an inline write with the dictionary unchanged |
| SdoLeftover.InlineWriteSafeIff | core/src/sdo/client.rs:168-173 | for inline values and one given server and dictionary: every run is safe iff no acknowledgement is left over, or the object holds the value already |
| SdoLeftover.ReadSafeIff | core/src/sdo/client.rs:232-280 | every run from every valid server and dictionary ends as a read should iff no reply that answers an upload of its type is left over |
| SdoLeftover.LeftAnswerCompletes | core/src/sdo/client.rs:232-237 | a left-over inline answer of the right length completes a read with its own value |
| SdoLeftover.LeftAnswerMisdirects | core/src/sdo/client.rs:238-280 | a left-over answer that starts an upload, the request lost and a server about to send another object: the read completes with that object's value |
| SdoLossy.RunKeepsInv | core/src/sdo/server.rs:210-297 | the invariant behind both: client at most one exchange behind the server, every frame in flight belonging to this exchange or the one before |
| SdoRoundTrip.RoundTrip | core/src/sdo/client.rs:120-140 | from any valid server state, even with a stale transfer, a write then a read of a read/write object completes with the written value, each in 1 exchange for 1 to 4 bytes and 1 + max(1, ceil(size/7)) otherwise, empty values included |
| SdoRoundTrip.TransactionCompletes | core/src/sdo/client.rs:143-280 | one transaction on a reliable bus: still waiting before its last exchange, complete with the right result and the right dictionary after it |
| SdoRoundTrip.ReadReturnsStored | core/src/sdo/server.rs:179-240 | a read of any readable object with its own type returns the stored value |
| SdoTransactions.ServerAdvances | core/src/sdo/server.rs:96-297 | a server that has carried out j requests of a transaction answers the next with the reply the client awaits and moves on; a write takes effect with the last request only |
| SdoTransactions.ServerRepeats | core/src/sdo/server.rs:210-297 | a request received a second time is answered as before or refused, and never changes what is stored |
| SdoTransactions.ServerRefuses | core/src/sdo/server.rs:242-297 | once it has dropped a transfer the server refuses the transaction's later segments and stores nothing |
| SdoTransactions.ClientAdvances | core/src/sdo/client.rs:143-280 | the awaited reply makes the client send the next request, or complete with the result after the last |
| SdoTransactions.ClientRejects | core/src/sdo/client.rs:143-280 | a reply the client has already consumed ends the transaction with an abort, never with a wrong result |
| SdoServerRuns.RunSafe | core/src/sdo/server.rs:96-317 | after any sequence of eight-byte requests to a new server: the same objects with the same types and rights, read-only values untouched, and no response exactly to the abort-specifier frames |
| SdoServerRuns.StepSafe | core/src/sdo/server.rs:96-317 | in any valid state a request changes at most one entry, none if it is answered by an abort, and the changed one is reported as last written |
| SdoServerRuns.StepEffect | core/src/sdo/server.rs:302-317 | the dictionary changes only by one permitted, type-correct write that is acknowledged |
| SdoServerRuns.DownloadTrace | core/src/sdo/server.rs:242-297 | whenever a segment is accepted, the bus shows a segmented initiate and the segments accepted since, toggles alternating from 0; a final segment stores exactly the value decoded from all their bytes, whose number is the declared size |
| SdoServerRuns.EveryChangeExplained | core/src/sdo/server.rs:96-317 | at any point of any run the dictionary changes only by an expedited download whose inline data suits its object and is then what it holds, or by the final segment of a download |
| SdoServerRuns.ExpeditedAcceptedIff | core/src/sdo/server.rs:114-152 | an expedited download is accepted iff the object is there, writable and of the stated or implied length, at most 4 bytes |
| SdoServerRuns.DownloadProgress | core/src/sdo/server.rs:242-297 | while a download is held, a segment is accepted iff its toggle is next, it fits, and, if final, the declared length is reached |
| SdoServerRuns.OthersDoNotDisturb | core/src/sdo/server.rs:96-240 | expedited exchanges, rejected initiates and unknown commands leave a transfer in progress as it is |
| SdoServerRuns.InitiateTransfer | core/src/sdo/server.rs:114-176 | a download initiate replaces the transfer iff it is accepted as the start of a segmented download |
| SdoServerRuns.SegmentTransfer | core/src/sdo/server.rs:242-297 | what a segment does to a download: extends it, commits it, or ends it, and when each happens |
| SdoServers.SdoServer.Handle | core/src/sdo/server.rs:96-112 | the new server state, dictionary and response for every request |
| SdoServers.SdoServer.OnDownloadInitiate | core/src/sdo/server.rs:114-176 | the initiate handler as one step, all refusals included |
| SdoServers.SdoServer.OnDownloadSegment | core/src/sdo/server.rs:242-297 | the download segment handler as one step |
| SdoServers.SdoServer.OnUploadInitiate | core/src/sdo/server.rs:179-208 | the upload initiate handler as one step |
| SdoServers.SdoServer.OnUploadSegment | core/src/sdo/server.rs:210-240 | the upload segment handler as one step |
| SdoServers.SdoServer.WriteValue | core/src/sdo/server.rs:302-317 | the inline write and its abort codes |
| SdoServers.SdoServer.TakeWrite | core/src/sdo/server.rs:88-90 | the last written object is reported once |
| SdoRefusals.ReadRefused | core/src/sdo/server.rs:179-208 | a client reading an absent object ends with exactly 0x06020000, a write-only one with 0x06010001, after one exchange, nothing stored |
| SdoRefusals.WriteRefused | core/src/sdo/server.rs:114-176 | a client writing an absent object ends with exactly 0x06020000, a read-only or constant one with 0x06010002, one of another length with 0x06070012; every other write, of another type with the same length too, gets past its first request |
| SdoRefusals.UploadRefusals | core/src/sdo/server.rs:179-208 | in any valid state an upload is answered by 0x06020000 iff the object is absent, by 0x06010001 iff it is there and write-only, and otherwise accepted |
| SdoRefusals.DownloadRefusals | core/src/sdo/server.rs:114-176 | which download initiates are refused, with which code: absent, not writable, wrong length inline or announced, no size; all others are accepted |
| SdoRefusals.SegmentRefusals | core/src/sdo/server.rs:242-297 | which segments are refused, with which code: no download, toggle, capacity, declared length, storing; a refusal ends the transfer, all others are accepted |
| SdoRefusals.PollRefusals | core/src/sdo/server.rs:210-240 | a poll is refused by 0x05040001 iff no upload is in progress, by 0x05030000 iff its toggle is wrong, and that ends the transfer |
| SdoRefusals.CommitRefusals | core/src/sdo/server.rs:282-297 | why a completely received value is not stored, and the code for each reason |
| SdoRefusals.OtherRequests | core/src/sdo/server.rs:96-112 | a client abort ends any transfer unanswered; unknown commands are refused by 0x05040001 |
| SdoRefusals.ClientReports | core/src/sdo/client.rs:143-150 | an abort ends any transaction and the client reports the code in it |
| SdoRefusals.ClientAborts | core/src/sdo/client.rs:143-280 | the client itself aborts with 0x05030000 for a segment with the wrong toggle and with 0x08000000 for everything else |
| SdoRefusals.WrongToggleAborts | core/src/sdo/client.rs:189-280 | a wrong toggle always ends the transaction |
| SdoClients.SdoClient.OnResponse | core/src/sdo/client.rs:143-166 | the client's new state and event for every response |
| SdoClients.SdoClient.Write | core/src/sdo/client.rs:127-140 | expedited for 1 to 4 bytes, segmented otherwise |
| SdoClients.SdoClient.Read | core/src/sdo/client.rs:120-123 | the upload request and the awaited type |
| SdoClients.SdoClient.SendDownloadSegment | core/src/sdo/client.rs:212-230 | the next segment, with its toggle and last flag, and the position after it |
| SdoClients.SdoClient.OnUploadSeg | core/src/sdo/client.rs:248-280 | the upload segment handler: toggle and capacity aborts, next poll or decoded value |
| SdoCodec.DataSegmentRoundTrip | core/src/sdo/mod.rs:324-357 | a data segment carries 0 to 7 bytes, its toggle and its last flag back unchanged |
| SdoCodec.ExpeditedRoundTrip | core/src/sdo/mod.rs:129-143 | an expedited frame carries address, length and bytes of every value of 1 to 4 bytes |
| SdoCodec.AddressedRoundTrip | core/src/sdo/mod.rs:146-160 | command, address and the last four bytes of an initiate, response or abort frame are read back as written |
| WireFormat.InlineDownloadBytes | core/src/sdo/mod.rs:129-143 | an inline download of 1 to 4 bytes: first byte 2F, 2B, 27 or 23, address in bytes 1 to 3, value from byte 4 |
| WireFormat.InlineUploadBytes | core/src/sdo/mod.rs:175-191 | the same for its answer, starting with 4F, 4B, 47 or 43 |
| WireFormat.SegmentedInitiateBytes | core/src/sdo/mod.rs:270-306 | 21 or 41, the address, and the size as a little-endian number |
| WireFormat.PlainFrameBytes | core/src/sdo/mod.rs:146-227 | acknowledgement 60, upload request 40, abort 80 with its code as a little-endian number |
| WireFormat.SegmentBytes | core/src/sdo/mod.rs:324-340 | the command byte of a data segment as a number, and its data from byte 1 |
| WireFormat.FramesRecognised | core/src/sdo/mod.rs:155-372 | which first bytes each decoder takes, and the error for all others |
| WireFormat.InlineUploadRecognised | core/src/sdo/mod.rs:196-216 | an inline upload is taken iff it starts with 43, 47, 4B or 4F and has the length of its type; the error otherwise |
| WireFormat.EncodersRefuse | core/src/sdo/mod.rs:129-340 | values of no or more than four bytes do not encode inline, more than seven bytes not as a segment |
| WireFormat.SegmentReaderRefuses | core/src/sdo/mod.rs:473-495 | a reader refuses what comes after the last segment, then a wrong toggle, then too many bytes, each with its error and without effect |
| WireFormat.ValueBytes | core/src/datatypes.rs:277-300 | the bytes of a value are worth its number, least significant first |
| Segments.SegmentsRoundTrip | core/src/sdo/mod.rs:394-495 | writer's segments pushed into a reader rebuild the data and complete iff there is data and it fits; otherwise nothing is sent or an overflow is reported |
| Segments.RepeatRefused | core/src/sdo/mod.rs:473-495 | a segment that arrives twice is refused the second time without effect |
| Segments.SegmentWriter.Next | core/src/sdo/mod.rs:417-430 | the writer's next segment and its new position and toggle |
| Segments.SegmentReader.Push | core/src/sdo/mod.rs:473-495 | the reader's checks in order, and a buffer that is extended whole or not at all |
| CrcPolynomial.CrcIsRemainder | core/src/sdo/block.rs:56-69 | for data of any length the checksum is the one remainder of data(x) x^16 modulo x^16 + x^12 + x^5 + 1 over GF(2) |
| CrcDetection.BurstDetected | core/src/sdo/block.rs:56-69 | any change within sixteen consecutive bits of data of any length changes the checksum |
| CrcDetection.AdjacentBytesDetected | core/src/sdo/block.rs:56-69 | any change within two adjacent bytes, so any single flipped bit, changes the checksum |
| CrcDetection.TrailingChecksum | core/src/sdo/block.rs:56-69 | two appended bytes bring the checksum to zero iff they are the checksum, high byte first |
| CrcParity.OddFlipsDetected | core/src/sdo/block.rs:56-69 | any odd number of flipped bits, anywhere in data of any length, changes the checksum |
| CrcParity.CrcParityIsMessageParity | core/src/sdo/block.rs:56-69 | the checksum has as many ones, modulo two, as the data |
| CrcOrder.TwoFlipsUndetectedIff | core/src/sdo/block.rs:56-69 | two flipped bits in data of any length leave the checksum unchanged iff they are a multiple of 32767 places apart |
| CrcOrder.OrderOfX | core/src/sdo/block.rs:56-69 | n turns of the inner loop bring 1 back to 1 iff n is a multiple of 32767 |
| CrcParity.CrcIsLinear | core/src/sdo/block.rs:56-69 | on data of equal length the checksum is linear over XOR |
| CrcParity.ErrorPatternDecides | core/src/sdo/block.rs:56-69 | a corruption goes unnoticed iff its XOR pattern has checksum zero, whatever the data |
| Crc.ComputeCrc16 | core/src/sdo/block.rs:56-69 | the nested byte and bit loops compute the specified checksum |
| Crc.CrcIsBitSerial | core/src/sdo/block.rs:56-69 | adding whole bytes equals feeding the message bit by bit, most significant bit first |
| BlockTransfer.BlockRoundTrip | core/src/sdo/block.rs:346-439 | a block transfer delivers exactly the data, under every sequence of negotiated sub-block sizes from 1 to 127, iff the data is not empty and the buffer holds every segment at full width; the error otherwise |
| BlockTransfer.StreamOfTransfer | core/src/sdo/block.rs:346-365 | ceil(len/7) segments, sequence numbers restarting at 1 in every sub-block, the last flag on the final one only, each carrying its slice |
| BlockTransfer.CorruptionReported | core/src/sdo/block.rs:429-439 | any corruption within sixteen consecutive bits makes a checked finish report the mismatch, and an unchecked one hand the data on |
| Block.SubSegmentRoundTrip | core/src/sdo/block.rs:236-257 | sequence number, last flag and padded data of a sub-block segment are read back |
| Block.EndRoundTrip | core/src/sdo/block.rs:280-294 | unused count and checksum of an end frame are read back |
| Block.BlockWriter.Next | core/src/sdo/block.rs:346-359 | the next segment of the sub-block, or none when it is full or the data is out, for every block size wherever the source does not fail |
| Block.SubBlockFailsIff | core/src/sdo/block.rs:346-365 | asking for segments fails, because sequence number 128 does not encode, iff the block size exceeds 127 and more than 127 full segments of data are left |
| Block.FailsIffOverruns | core/src/sdo/block.rs:236-248 | the encoding of the next segment fails iff its sequence number is above 127 and within the block size |
| Block.FailingSubBlock | core/src/sdo/block.rs:346-365 | the smallest failing input: 890 bytes in a sub-block of 128 segments |
| Block.ZeroSizeStalls | core/src/sdo/block.rs:346-365 | a sub-block of size zero sends nothing, however often it is asked |
| Block.BlockWriter.EndFrame | core/src/sdo/block.rs:368-377 | the end frame states the unused bytes of the last segment and the checksum of all data |
| Block.BlockReceiver.Push | core/src/sdo/block.rs:411-422 | the receiver's checks, and its buffer extended whole or not at all |
| Block.BlockReceiver.Finish | core/src/sdo/block.rs:429-439 | trimming, then the checksum comparison over what is left |
| WireFormat.SubSegmentBytes | core/src/sdo/block.rs:236-248 | the sequence number, plus 128 on the last segment, and the data from byte 1 |
| WireFormat.EndOfTransfer | core/src/sdo/block.rs:368-377 | the end frame of any data: C1 plus four times what is missing to full segments, then the checksum as a number, zero without checksum support |
| WireFormat.BlockFramesRefused | core/src/sdo/block.rs:236-294 | a sub-block segment encodes iff its number is 1 to 127 and it has 1 to 7 bytes; an end frame is one that starts like C1 |
| WireFormat.BlockReceiverRefuses | core/src/sdo/block.rs:411-422 | after the last segment nothing is taken, before it nothing that exceeds the buffer; errors and effect of each |
| WireFormat.BlockFinishRefuses | core/src/sdo/block.rs:429-439 | a finish fails iff it trims more than arrived or a checked checksum differs, with the error for each |
| PdoTransport.PdoCarriesValues | core/src/pdo.rs:247-305 | a frame packed from one dictionary unpacks into any dictionary with writable objects of the same types: equal values at every mapped address, even one mapped twice, and nothing else changed |
| PdoTransport.UnpackAppliesPrefix | core/src/pdo.rs:280-305 | on any mapping and long enough data, exactly the fields before the first entry that cannot be applied are applied, in order, and that entry's error is returned |
| PdoTransport.PackedField | core/src/pdo.rs:247-270 | in a packed frame the k-th mapped object's bytes stand where unpacking looks for them |
| Pdo.Pack | core/src/pdo.rs:247-270 | the loop over the entries writes the packed frame and nothing after it; or, at the first entry that cannot be packed, returns its error with exactly the fields before it written |
| Pdo.Unpack | core/src/pdo.rs:280-305 | the loop over the entries leaves the dictionary and result of applying fields in order; short data changes nothing |
| Pdo.PackedLength | core/src/pdo.rs:228-235 | a frame that packs is as long as its mapping says |
| PdoTransport.PackErrors | core/src/pdo.rs:247-270 | the first reason for which an entry cannot be packed, and its error |
| PdoTransport.UnpackErrors | core/src/pdo.rs:280-305 | the first reason for which an entry cannot be unpacked, and its error |
| Pdo.PdoMapping.Push | core/src/pdo.rs:205-210 | a mapping never exceeds 64 bits or its capacity; which error comes first |
| Pdo.MappingValueRoundTrip | core/src/pdo.rs:163-175 | a mapping entry survives its `0xIIII_SSLL` value |
| Pdo.MappingWordRoundTrip | core/src/pdo.rs:163-175 | every 32-bit word is the value of the entry parsed from it |
| PdoConfig.RpdoConfigurationRoundTrip | core/src/node.rs:564-587 | storing a valid mapping in a receive PDO's record makes configuration rebuild it, iff the word at its COB-ID object is below 0x80000000, under that word modulo 2048, and leaves every other PDO's configuration as it was |
| PdoConfig.TpdoConfigurationRoundTrip | core/src/node.rs:589-603 | the same for a transmit PDO, with its transmission type |
| PdoSlots.RpdoSlotIff | core/src/node.rs:578-587 | receive PDO k has a slot iff the number at 0x1400+k:01 is readable and below 0x80000000 and the record 0x1600+k stores the mapping; its COB-ID is that number modulo 2048 |
| PdoSlots.TpdoSlotIff | core/src/node.rs:589-603 | the same for transmit PDO k at 0x1800+k and 0x1A00+k, with the transmission type at subindex 2, 255 if absent or reserved |
| PdoConfig.MappingReadIffStored | core/src/node.rs:564-576 | a mapping is read from the dictionary iff its record is readable and stores that count and those entries, and the mapping is within its limits |
| PdoConfig.ConfiguredInOrder | core/src/node.rs:226-237 | the slots are exactly the valid, readable PDOs of the four, in PDO order |
| PdoConfig.TransmissionRoundTrip | core/src/pdo.rs:116-138 | a transmission type byte is decoded iff it is not reserved, and then encodes back |
| PdoConfig.ReadPdoMapping | core/src/node.rs:564-576 | the loop over the record's entries reads the specified mapping, or nothing if any entry is absent or does not fit |
| Records.StoreRecordHolds | core/src/node.rs:368-383 | storing a count and its words leaves exactly these in a record whose objects exist, and changes no subindex beyond the count and nothing outside the record |
| NodeGating.RunGated | core/src/node.rs:423-529 | at every point of every run: a node that is unconfigured, initialising or stopped neither changes its dictionary nor replies outside 0x7E4; in pre-operational only an SDO request can change it; replies carry 0x580 plus the current id; types, rights and read-only values stay |
| NodeGating.FrameGated | core/src/node.rs:423-450 | the same for one frame in any valid state of the node |
| NodeGating.RunPreserves | core/src/node.rs:423-529 | over any run, with boots, id adoptions and PDO reconfigurations in between, the dictionary keeps its objects, types, rights and read-only values |
| NodeGating.FramesDoNotWake | core/src/nmt.rs:236-248 | frames alone never take a node out of initialising or give an unconfigured node an id, and never touch its dictionary |
| NodeNmt.RunDecided | core/src/nmt.rs:222-248 | over any frames, boots, id adoptions and reconfigurations: a node is initialising iff every boot was undone by a later reset (0x81, 0x82); otherwise the last command for it since the boot in effect decides, 0x01 operational, 0x02 stopped, 0x80 or none pre-operational |
| NodeNmt.AwakeSince | core/src/nmt.rs:222-248 | a node that is not asleep has a boot in effect, so the case above always applies |
| NodeNmt.FrameSignals | core/src/node.rs:502-512 | a frame changes the NMT state iff it is a command: identifier 0, two bytes, a known specifier, target 0 or the own id, on a configured node |
| NodePdo.ProcessDataArrives | core/src/node.rs:475-500 | the frame of an operational node's transmit PDO, received by an operational node whose first receive PDO on that identifier has the same mapping: every mapped object takes the sender's value, nothing else changes |
| NodePdo.ProcessDataApplied | core/src/node.rs:491-500 | any frame on an identifier listened to: nothing if it is too short, else exactly the fields before the first entry that cannot be applied |
| NodePdo.ProcessDataIgnored | core/src/node.rs:491-500 | a node that is not operational ignores process data |
| NodePdo.TpdoSends | core/src/node.rs:482-489 | a transmit PDO yields a frame iff its mapping is not empty and every object is readable, of fixed size and of the mapped width; it carries the slot's COB-ID and the values in mapping order |
| NodePdo.SyncSends | core/src/node.rs:457-471 | SYNC sends the frames of exactly the slots with a transmission byte up to 240 or of the cyclic type that yield one, in slot order |
| NodeGating.AdoptionConfigures | core/src/node.rs:173-181 | adoption succeeds iff an id from 1 to 127 is pending; the node is then configured under it with its dictionary unchanged, and otherwise nothing changes |
| NodeGating.UnconfiguredIdConfirmedNotAdopted | core/src/node.rs:173-181 | a configuring slave confirms node-id 0xFF, and adoption then changes nothing |
| NodeSdo.NodeRoundTrip | core/src/node.rs:423-450 | a client's write and read through a serving node complete with the written value, in their number of exchanges, with LSS, process data not mapped to the object, NMT commands for other nodes and foreign frames in between |
| NodeSdo.NodeRoundTripLeavesOthers | core/src/node.rs:423-529 | such a round trip changes no object but the one written and those process data is mapped to |
| NodeSdo.NodeTransactionCompletes | core/src/node.rs:514-529 | one transaction through the node's dispatch, with the same traffic in between |
| NodeSdo.WriteStores | core/src/node.rs:514-529 | with harmless traffic in between, a write through a node stores its value and changes nothing that no process data is mapped to |
| NodeConfig.ConfiguredOverBus | core/src/node.rs:226-237 | a client writes a receive PDO's mapping record object by object through the node, harmless traffic in between; configuration then rebuilds that slot iff the COB-ID word is below 0x80000000, under that word modulo 2048, and leaves every other PDO as it was |
| NodeConfig.TransmitConfiguredOverBus | core/src/node.rs:226-237 | the same for a transmit PDO, which keeps its transmission type |
| NodeConfig.ParametersDecide | core/src/node.rs:578-603 | what a PDO is configured as depends on nothing but the PDO parameter objects |
| NodeSdo.QuietWriteStores | core/src/node.rs:514-529 | a write through a node on a quiet bus stores the value and changes nothing else in the dictionary |
| NodeErrors.ErrorObjectsShowHistory | core/src/node.rs:326-383 | whatever is raised, cleared and received, the field holds the newest (at most 8) codes since the last clear as numbers, newest first, the register is the union of what was raised since with bit 0 set, and right after each report 0x1001 and 0x1003 read exactly that if the dictionary has the objects for as many entries as there are |
| NodeErrors.ClearLeavesOldWords | core/src/node.rs:354-383 | a clear empties the field but leaves the words in its entries 1 and up as they were |
| ErrorField.ErrorsExplained | core/src/node.rs:326-362 | register and field together, as numbers, are exactly explained by the raises since the last clear |
| ErrorField.MirroredShows | core/src/node.rs:368-383 | mirroring makes correctly typed error objects, for as many entries as there are, agree with register and field |
| ErrorField.MirroredChangesOnlyErrors | core/src/node.rs:368-383 | mirroring changes no other object, and no type or access right |
| ErrorField.PushFront | core/src/node.rs:339-344 | the in-place shift loop puts the new word in front of the old ones |
| Nodes.Node.OnFrame | core/src/node.rs:423-439 | the node's whole new state and its reply for every frame |
| Nodes.Node.OnSdo | core/src/node.rs:514-529 | SDO dispatch: state gate, padding, reply identifier |
| Nodes.Node.OnRpdo | core/src/node.rs:491-500 | the first receive PDO listening on the identifier is unpacked, only when operational |
| Nodes.Node.OnNmt | core/src/node.rs:502-512 | node control for this node or for all |
| Nodes.Node.OnLss | core/src/node.rs:441-450 | LSS requests reach the slave in every NMT state |
| Nodes.Node.RaiseEmergency | core/src/node.rs:326-349 | register, field, mirrored objects and the emergency frame |
| Nodes.Node.ClearErrors | core/src/node.rs:354-362 | the same for a clear |
| WireFormat.EmergencyBytes | core/src/emcy.rs:153-161 | an emergency goes out on 0x80 plus the node-id: the code as a little-endian number, the register, five bytes of the manufacturer |
| WireFormat.CobIds | core/src/sdo/mod.rs:53-68 | SDO requests on 0x600 and answers on 0x580 plus the node-id, heartbeats on 0x700 plus it, LSS on 0x7E5 and 0x7E4 |
| Nodes.Node.ApplyLssNodeId | core/src/node.rs:173-181 | a new server on the adopted id, or nothing |
| Nodes.Node.ConfigurePdosFromOd | core/src/node.rs:226-237 | the PDO slots become a function of the dictionary alone |
| Nodes.Node.SyncTpdos | core/src/node.rs:457-471 | the packed synchronous transmit PDOs in order, none unless operational |
| Nodes.Node.Tpdo | core/src/node.rs:475-489 | one transmit PDO on demand, none unless operational, mapped and packable |
| Nmt.NmtStateMachine.Apply | core/src/nmt.rs:236-248 | the guarded transitions |
| Nmt.NodeGuardRoundTrip | core/src/nmt.rs:179-186 | toggle and state of a node-guarding byte are read back |
| WireFormat.HeartbeatBytes | core/src/nmt.rs:163-181 | the byte of each NMT state, and the toggle of node guarding on top of it |
| ObjectDictionaries.ObjectDictionary.Write | core/src/object_dictionary.rs:168-184 | a bus write: order of its errors, and exactly one value replaced on success |
| ObjectDictionaries.ObjectDictionary.Set | core/src/object_dictionary.rs:188-200 | a device-side store, which ignores access rights but not types |
| ObjectDictionaries.ObjectDictionary.Read | core/src/object_dictionary.rs:154-163 | a bus read and its errors |
| ObjectDictionaries.ObjectDictionary.Insert | core/src/object_dictionary.rs:138-143 | insertion within the fixed capacity |
| ObjectDictionaries.WrittenPreserves | core/src/object_dictionary.rs:168-184 | a bus write keeps objects, types, rights and all read-only values, and touches one address |
| ObjectDictionaries.BusAccess | core/src/object_dictionary.rs:69-76 | which of read-only, write-only, read-write and constant objects a bus read and a bus write succeed on, and the error otherwise |
| ObjectDictionaries.DeviceAccess | core/src/object_dictionary.rs:188-200 | a device-side store succeeds on every object of the type, changes that value alone, and its errors |
| Datatypes.DecodeEncode | core/src/datatypes.rs:277-342 | every value of every type decodes from its own encoding |
| Datatypes.EncodeDecode | core/src/datatypes.rs:277-342 | a decoded value encodes back to the same bytes, iff it is not a BOOLEAN sent as 2 to 255 |
| Datatypes.EncodeLe | core/src/datatypes.rs:277-300 | encoding into a caller's slice writes the value's bytes and leaves the rest of the buffer alone |

## Left out

- Datatypes: signed integers and floats are bit patterns, so their order and arithmetic are not modelled; UTF-8 views of strings are not part of this model.
- SdoServers.SdoServer.Handle: the fixed buffers of a transfer are modelled as their used part, so bytes behind it do not exist here.
- Lss.FastscanMaster.OnResponse: the bit counter `i8` is modelled as its two's-complement byte.
- FastscanReports.ReportFailsIff: an overflow of the count of values is a failure here, as in a build with overflow checks; without them the source wraps it to 0.
- SdoLeftover.ReadSafeIff: its servers are all valid ones; for reads of 1 to 4 bytes the misleading one is valid but not shown to be reached by requests alone.
- Fastscan.FastscanFindsSmallest: assumes that every answer to a check reaches the master; the master itself ignores the answer to its confirm frame.
- Commissioning.CommissioningNumbersByAddress: adoption of the assigned id, which the source leaves to the device's reset, is an explicit step of the loop.
- SdoLossy.RunKeepsInv: no timeout on the client side, since the source has none; a lost frame leaves the transaction waiting.
- Block initiate, start and sub-block acknowledgement frames, retransmission and sequence-number checking: easy codecs, or not implemented by the source.
- Emergency decoding, SYNC production, TIME, standard objects and default COB-IDs: small codecs, a counter and a builder.
- `host/` and `cli/`: EDS parsing, code generation, sockets and argument handling.
- Storing a configuration permanently and the moment of a reset: left to the caller by the source.
- The heapless containers are modelled as sequences and maps with their capacity checks.
