# Resumable file transfer: a Dafny model

This project models the two transfer protocols of a file sender and receiver, WFP/0.3 (chunk-aware resume) and WFP/0.2
(prefix resume), together with the codecs, the chunk arithmetic and the receiver's storage steps they rest on, and proves
what the two programs promise over whole runs.

Each loop or object that updates state is a Dafny method or class, proved equal to a small specification function. The
whole-run theorems are about those functions. `EndpointsV03` and `SessionsV02` run both ends of a session as the code does;
`EndpointsV03.AttemptIsBothEnds` and `ConservationV02.SessionIsBothEnds` tie the attempts and sessions of the theorems to
them.

Main results, each for every file, disk and run:

- `StabilisationV03.SelfStabilising`: from any partial file and any snapshot an uninterrupted session ends in VERIFIED with
  the source published, exactly when no reused chunk is a hash collision.
- `SafetyV03.RetriesAreSafe`: whenever the sender reports success after any number of cut attempts, the final name holds
  the source's size and digest. `SafetyV03.ServedIsChecked`: for any peer, VERIFIED means a file that matches its receipt.
- `ProgressV03.CrashRecovery`: a process stop between any two storage steps after an accepted COMPLETE costs no DATA frame,
  and the verified bytes are published.
- `ProgressV03.GoodChunksStayReceived` and `ProgressV03.DeliveredChunksAreGood`: progress is kept, and every delivered
  chunk makes progress. `BudgetV03.AttemptsBudget`: a cut attempt wastes at most one chunk of DATA.
- `ReceiverInvariants.RunKeepsInv`, `CompletedIsFullyVerified` and `LoopTerminates`: what the receiver keeps for any peer.
- `ReceiptRace.ReceiptsAreImmutable` and `ReceiptRace.DecodesIffNoUnfinishedRename`: receipts under every interleaving.
- `OutcomesV03.AnyPeerOutcome` and `OutcomesV02.TransferOutcome`: for every disk and every byte a peer sends, when a session
  is verified and what it leaves, said of the bytes alone. `StabilisationV03.VerifiedSettles`: VERIFIED changed nothing, or
  delivered one file and removed its snapshot.
- `OutcomesV02.CancelledLeavesNothing`: an interrupted sender leaves the receiver without a partial file.
- `InventoryV03.NegotiatesExactly` and `EndpointsV03.AdvertisedIsProven`: what an inventory is, and which records are in it.
- `ConservationV02.Conservation` and `ConservationV02.EndToEnd`: WFP/0.2 accepts every byte exactly once, and ends with the
  source exactly when the partial file does not collide with the source's prefix.

Conventions. Bytes are numbers below 256 and 64-bit integers are bounded, with every check the code makes. The hash
function is a parameter `H` from byte strings to 32-byte digests, and nothing is assumed of it: where two different strings
could share a digest the statement says so. A hasher is the bytes it has absorbed. A read returns any positive number of
bytes up to the request. A connection may end after any byte in either direction. The receiver's disk of WFP/0.3 maps
partial and final names to inodes, so a hard link and a rename differ. A process stop leaves the disk after some prefix of
the storage steps.

Two findings. The code lets a later WFP/0.3 session under an already published name change the published file on Linux:
publication by hard link leaves the partial name as a second link to it (src/receiver_storage.rs:640-671), and a session
prepares the partial file before it looks at the final name (src/receiver_v03.rs:1447-1458). `ClobberV03.SecondOfferClobbers`
runs the code there from a disk with neither name, and `ClobberV03.NoClobberIffNotLinked` gives the exact condition for
every peer. And two receipt writers share one temporary name, so one can bind the other's unfinished file
(src/completion_receipt.rs:161-202): `ReceiptRace.UnfinishedReceiptBound` is such a run, and
`ReceiptRace.DecodesIffNoUnfinishedRename` and `ReceiptRace.TurnsSucceed` say when it cannot happen.

Files: `Prelude`, `Files` and `Frames` hold the shared types; `ChunkLayout`, `ChunkManifest`, `ChunkState`, `PayloadsV03`,
`ReceiverV03`, `SenderV03`, `InventoryV03` and `PrepareV03` follow the source files; `Utf8` and `WireFormat` say what the
bytes on the wire are; `ReceiverInvariants`, `AcceptanceV03`, `TransferV03`, `Storage`, `SessionV03`, `EndpointsV03`,
`PublicationV03`, `StabilisationV03`, `OutcomesV03`, `SafetyV03`, `RecoveryV03`, `ClobberV03`, `ProgressV03`, `BudgetV03` and
`ReceiptRace` build the WFP/0.3 theorems; `PrefixV02`, `SessionsV02`, `OutcomesV02` and `ConservationV02` are WFP/0.2.
`dafny verify dfyconfig.toml` checks everything.

## Model

| member | source | states |
|---|---|---|
| `ChunkLayout.ComputeChunkCount` | src/chunk.rs:41-51 | the divide-and-round-up arithmetic stays in 64 bits and is the number of steps of one chunk size that cover the file |
| `ChunkLayout.ComputeRange` | src/chunk.rs:53-69 | the checked multiplication and subtraction never fail below the chunk count; a range exists exactly there, is not empty, and runs from one step to the next |
| `ChunkLayout.CountMeaning` | src/chunk.rs:41-69 | an index is below the chunk count exactly when its chunk begins before the end of the file |
| `ChunkLayout.RangesAreAdjacent` | src/chunk.rs:53-69 | ranges begin at zero, each ends where the next begins, and the last ends at the file size |
| `ChunkLayout.Tiling` | src/chunk.rs:41-69 | every byte position lies in exactly one chunk, for every 64-bit file size and chunk size |
| `ChunkLayout.ChunksDetermineFile` | src/chunk.rs:53-69 | two files of the offered size with equal chunks are equal |
| `ChunkManifest.ManifestBuilder.Update` | src/chunk_manifest.rs:88-136 | any division of the bytes into updates keeps the builder equal to a function of the bytes so far; too much data is refused and changes nothing; no subtraction underflows |
| `ChunkManifest.ManifestBuilder.AbsorbPiece` | src/chunk_manifest.rs:101-132 | one pass of the loop absorbs a non-empty prefix of the input and keeps every field a function of the bytes so far |
| `ChunkManifest.ManifestBuilder.Finish` | src/chunk_manifest.rs:138-150 | a manifest comes out exactly when the whole file was seen, and hash `i` is the hash of the bytes of range `i` |
| `ChunkManifest.SplitIndependent` | src/chunk_manifest.rs:88-136 | two builders that absorbed the same bytes, however split, are in the same state |
| `ChunkState.HashOfMember` | src/chunk_state.rs:62-69 | the lookup finds a hash exactly when that record is in the sorted list |
| `ChunkState.RecordedRefinesUpdate` | src/chunk_state.rs:71-89 | recording one chunk changes the finite map at that index and nowhere else |
| `ChunkState.LastRecordingWins` | src/chunk_state.rs:71-89 | after any sequence of recordings, in any order, each index has the hash recorded for it last |
| `ChunkState.LookupDeterminesRecords` | src/chunk_state.rs:47-90 | two sorted lists with the same lookups are equal, so the finite map is a complete specification of the list |
| `ChunkState.CoverageByCounting` | src/chunk_state.rs:409-437 | a strictly increasing in-range list as long as the chunk count holds every index, each at its own position |
| `ChunkState.ValidateRecordedChunks` | src/chunk_state.rs:409-437 | accepts exactly the strictly increasing in-range lists and otherwise reports the first offending record with its own error |
| `ChunkState.BinarySearchByKey` | src/chunk_state.rs:62-89 | the search returns the insertion position and agrees with the map lookup |
| `ChunkState.ChunkStateTable.Hash` | src/chunk_state.rs:62-69 | the lookup by binary search is the map lookup |
| `ChunkState.ChunkStateTable.RecordVerifiedChunk` | src/chunk_state.rs:71-89 | overwrites or inserts in order, keeps the list sorted and in range, and changes nothing for an index outside the layout |
| `Frames.FromWire` | src/protocol/message.rs:31-73 | a wire byte decodes to a message type exactly when it is that type's byte and the version allows it |
| `Frames.EncodeFrame` | src/protocol/encoder.rs:29-56 | succeeds exactly for encodable frames, in which case the result is the twelve-byte header and the payload, and otherwise reports the first failing guard |
| `Frames.ReadFrameForVersion` | src/protocol/io.rs:77-103 | consumes exactly one frame from the front of the stream, or reports what the parser reports |
| `Frames.ParsePrinted` | src/protocol/io.rs:77-103 | reading an encoded zero-flag frame yields it back and uses exactly its bytes, whatever follows |
| `Frames.ParseCut` | src/protocol/io.rs:77-103 | a frame cut anywhere reads as the end of the stream |
| `Frames.PrintParsed` | src/protocol/decoder.rs:81-164 | every accepted frame re-encodes to the bytes that were read |
| `Frames.ParseCutStream` | src/protocol/io.rs:60-103 | a stream of frames cut after any byte delivers a prefix of the frames and then the end of the stream |
| `Frames.ParsePrintedStream` | src/protocol/io.rs:60-103 | reading the concatenation of any list of zero-flag frames of one version yields the list |
| `Frames.PrintParsedStream` | src/protocol/io.rs:60-103 | whatever frames a reader accepts re-encode to the bytes it consumed |
| `Frames.FrontFrame` | src/protocol/io.rs:77-103 | a reader finds a frame at the front of a stream exactly when the stream begins with that frame's bytes |
| `WireFormat.PutNumbers` | src/protocol/encoder.rs:46-55 | every number on the wire has its most significant byte first |
| `WireFormat.FrameLayout` | src/protocol/encoder.rs:29-56 | a frame is the bytes 57 46 50 00, version, type, two flag bytes, four length bytes and the payload |
| `WireFormat.TypeBytes` | src/protocol/message.rs:3-28 | the byte of every message type |
| `WireFormat.SendableFrames` | src/protocol/encoder.rs:29-56 | what may be sent: a type the version has, at most 1048576 bytes of payload, at most 65536 in DATA |
| `WireFormat.AcceptedFrames` | src/protocol/decoder.rs:81-164 | a reader accepts exactly a sendable zero-flag frame at the front of what it has |
| `WireFormat.EndedFrames` | src/protocol/io.rs:77-103 | the end of the stream is reported exactly when there is no whole header yet, or some continuation would still make a frame |
| `WireFormat.FramesOfV02` | src/sender.rs:281-393 | the bytes of ACCEPT, RESTART, DATA, COMPLETE and CANCEL as a WFP/0.2 sender writes them |
| `WireFormat.FramesOfV03` | src/sender_v03.rs:660-689 | the bytes of the WFP/0.3 frames whose payload is empty or a hash |
| `PayloadsV03.EncodeOffer` | src/protocol/v03.rs:50-72 | succeeds exactly for a file name of 1 to 65535 bytes and a non-zero chunk size |
| `PayloadsV03.OfferRoundTrip` | src/protocol/v03.rs:50-128 | an offer with a valid UTF-8 name survives encoding and decoding |
| `PayloadsV03.OfferReencodes` | src/protocol/v03.rs:74-128 | an accepted OFFER payload is the encoding of what it decoded to |
| `PayloadsV03.ResumeRoundTrip` | src/protocol/v03.rs:153-165 | the record count of RESUME survives the wire |
| `PayloadsV03.ResumeReencodes` | src/protocol/v03.rs:157-165 | an accepted RESUME payload is the encoding of its record count |
| `PayloadsV03.EncodeChunkHashes` | src/protocol/v03.rs:204-224 | the appending loop writes the count and the forty-byte records, exactly when they fit a payload |
| `PayloadsV03.DecodeChunkHashes` | src/protocol/v03.rs:226-266 | the decoding loop is the batch decoder, errors included |
| `PayloadsV03.BatchRoundTrip` | src/protocol/v03.rs:204-266 | a batch that fits survives encoding and decoding |
| `PayloadsV03.BatchReencodes` | src/protocol/v03.rs:226-266 | an accepted CHUNK_HASHES payload is the encoding of its records |
| `PayloadsV03.ChunkStartRoundTrip` | src/protocol/v03.rs:292-316 | index and hash of CHUNK_START survive the wire |
| `PayloadsV03.ChunkStartReencodes` | src/protocol/v03.rs:292-316 | an accepted CHUNK_START payload is the encoding of its index and hash |
| `PayloadsV03.DataRoundTrip` | src/protocol/v03.rs:348-384 | a non-empty fragment of at most the maximum length survives the wire |
| `PayloadsV03.DataReencodes` | src/protocol/v03.rs:364-384 | an accepted DATA payload is non-empty, within the limit, and the encoding of its fragment |
| `Utf8.ValidIffEncoded` | src/protocol/v03.rs:102-104 | a file name is accepted exactly when it is the UTF-8 encoding of some sequence of Unicode scalar values |
| `Utf8.AnyTextCanBeOffered` | src/protocol/v03.rs:50-128 | an OFFER for any non-empty text that fits the length field survives encoding and decoding |
| `WireFormat.OfferLayout` | src/protocol/v03.rs:64-71 | identifier, name length, name, file size and chunk size, each at its place |
| `WireFormat.RecordLayout` | src/protocol/v03.rs:292-316 | a record, and so a CHUNK_START, is its index in eight bytes and its hash |
| `WireFormat.BatchLayout` | src/protocol/v03.rs:204-224 | CHUNK_HASHES is the number of records and record `i` at 4 plus 40 times `i` |
| `WireFormat.NumberLayouts` | src/protocol/v03.rs:348-362 | RESUME is eight bytes of count; DATA is eight bytes of offset and from 1 to 65528 bytes of data |
| `WireFormat.RefusedPayloads` | src/protocol/v03.rs:226-384 | the exact lengths at which RESUME, CHUNK_START, DATA and CHUNK_HASHES payloads decode |
| `ReceiverV03.ChunkReceiver.BeginChunk` | src/receiver_v03.rs:1138-1181 | refuses in the source's order and then changes nothing; otherwise starts exactly the named chunk at its offset with an empty hash state |
| `ReceiverV03.ChunkReceiver.WriteData` | src/receiver_v03.rs:1183-1246 | a fragment at the wrong place, past the file or past the chunk is refused before anything is written; otherwise it is written, absorbed, and verified at the chunk's end |
| `ReceiverV03.ChunkReceiver.PersistVerifiedChunk` | src/receiver_v03.rs:1248-1267 | records the verified chunk in memory only together with the snapshot that holds it |
| `ReceiverV03.SnapshotFile.Write` | src/chunk_state.rs:170-235 | the snapshot name goes through exactly two states: absent, then the new snapshot |
| `ReceiverV03.ChunkReceiver.HandleFrame` | src/receiver_v03.rs:982-1059 | one frame moves receiver, file and snapshot as the step function says, in every error case too |
| `ReceiverV03.ChunkReceiver.ReceiveTransfer` | src/receiver_v03.rs:971-1060 | the loop over a connection's bytes is the run of the step function, and it ends on every connection |
| `ReceiverV03.ReceiveBytesIsRun` | src/receiver_v03.rs:971-1060 | receiving bytes is running the frames they spell and then the error that ends the stream |
| `ReceiverV03.ReceiveCutStream` | src/receiver_v03.rs:971-1060 | a connection cut after any byte runs a prefix of the frames that were sent |
| `ReceiverInvariants.RunKeepsInv` | src/receiver_v03.rs:971-1267 | for every frame sequence, honest or not: every record but the active chunk's is the hash of the bytes on disk, and what was hashed of the active chunk is what the file holds |
| `ReceiverInvariants.CompletedIsFullyVerified` | src/receiver_v03.rs:1014-1052 | an accepted COMPLETE means every index below the chunk count is recorded and matches the file |
| `ReceiverInvariants.RunLeavesUnannounced` | src/receiver_v03.rs:1138-1246 | bytes and record of a chunk no CHUNK_START names are unchanged, whatever else arrives |
| `ReceiverInvariants.RunSnapshot` | src/receiver_v03.rs:1248-1267 | the snapshot is either untouched together with the records, or exactly the records |
| `ReceiverInvariants.RunIsBounded` | src/receiver_v03.rs:982-1059 | while the loop goes on it has accepted at most one CHUNK_START per startable chunk and one DATA per byte ahead, and nothing else |
| `ReceiverInvariants.LoopTerminates` | src/receiver_v03.rs:982-1059 | on every infinite frame stream the loop stops within chunk count plus file size plus one frames |
| `AcceptanceV03.RunFollows` | src/receiver_v03.rs:982-1246 | for every frame sequence: the receiver goes on exactly as long as the frames are a transcript, which is defined on the frames alone, and file, records and active chunk are then what the transcript says |
| `AcceptanceV03.ReceiverOutcome` | src/receiver_v03.rs:971-1267 | for every frame sequence: success exactly for a transcript that covers the file followed by COMPLETE with a hash; every other end leaves the partial file as the transcript placed it, with the last fragment of a chunk whose hash is wrong, and the records of the chunks sent whole |
| `PrepareV03.ReadRecordedChunk` | src/chunk_state.rs:280-302 | through any short reads, yields exactly the chunk's bytes, or nothing when the file ends inside it |
| `PrepareV03.RevalidateChunkState` | src/chunk_state.rs:261-312 | keeps, in order, exactly the records whose whole chunk is on disk with the recorded hash |
| `PrepareV03.SurvivingRecord` | src/chunk_state.rs:244-312 | a record survives loading and re-hashing exactly when it was loadable for this layout and its bytes still match |
| `PrepareV03.PreparedIsProven` | src/chunk_state.rs:244-312 | a record is what a session starts from exactly when it is in a decoded, sorted, in-range snapshot for the offered file size and chunk size and its bytes on disk hash to it |
| `PrepareV03.UnusableSnapshotIsIgnored` | src/chunk_state.rs:244-259 | a snapshot for another layout, or with an unsorted or out-of-range list, gives an empty inventory |
| `PrepareV03.PreparedInv` | src/receiver_v03.rs:1063-1087 | from every partial file and every snapshot, preparation establishes the receiver's invariant |
| `PrepareV03.ResizeKeepsChunk` | src/receiver_v03.rs:215-238 | cutting or extending the partial file leaves every chunk that was wholly on disk |
| `InventoryV03.BatchesPartition` | src/receiver_v03.rs:1089-1112 | the receiver's batches are not empty, fit a frame, and concatenate to its records |
| `InventoryV03.BatchesAreFull` | src/receiver_v03.rs:1089-1112 | the first record of each next batch would not have fitted into the batch before it |
| `InventoryV03.BatchesAreFewest` | src/receiver_v03.rs:1089-1112 | no division of the records into encodable batches has fewer of them |
| `InventoryV03.NegotiatesExactly` | src/sender_v03.rs:464-538 | the sender accepts exactly the streams that begin with a RESUME counting the records and non-empty batches holding them, increasing and in range, and leaves the rest |
| `InventoryV03.OverdeclaredIsRefused` | src/sender_v03.rs:477-485 | a RESUME that promises more records than there are chunks is refused before any is read |
| `InventoryV03.NegotiateIsSound` | src/sender_v03.rs:464-538 | an inventory accepted from any peer whatsoever is strictly increasing, in range and no longer than the chunk count |
| `InventoryV03.CollectIsSound` | src/sender_v03.rs:487-533 | the accepted records are exactly as many as RESUME declared |
| `InventoryV03.InventoryRoundTrip` | src/receiver_v03.rs:926-947 | after encoding, a cut at any byte and decoding, the sender accepts exactly the receiver's records when nothing is missing and otherwise sees the connection end |
| `InventoryV03.ReceiveInventoryAfterResume` | src/sender_v03.rs:464-538 | the loop over batches computes the negotiation, errors included, and ends on every connection |
| `InventoryV03.AppendBatch` | src/sender_v03.rs:488-533 | one batch is accepted whole or refused for its first bad record |
| `SenderV03.SourceScanner.NextChunk` | src/sender_v03.rs:222-298 | for any inventory and any short reads, the next chunk comes with its bytes, its hash and the disposition a map lookup gives; it fails exactly when the source is seen to be shorter or longer than offered |
| `SenderV03.SourceScanner.MergeChunk` | src/sender_v03.rs:269-297 | the cursor join over the sorted inventory is the map lookup compared with the hash |
| `SenderV03.MergeIsLookup` | src/sender_v03.rs:271-285 | at the cursor the inventory lists an index exactly when the map has it |
| `SenderV03.SourceScanner.ConfirmSourceEnd` | src/sender_v03.rs:316-331 | one more read tells whether the source ends exactly at the offered size |
| `SenderV03.SourceScanner.Finish` | src/sender_v03.rs:300-314 | after a confirmed scan the hash is the hash of the whole source, and an unreconciled inventory is unreachable |
| `SenderV03.SendTransmitChunk` | src/sender_v03.rs:716-749 | CHUNK_START and then the chunk's fragments, with no offset overflow |
| `SenderV03.SendSourceChunks` | src/sender_v03.rs:633-658 | succeeds exactly for a source of the offered size, and then has sent exactly the frames of the chunks to transmit; of any other source it has sent exactly those of the chunks that lie whole in it |
| `SenderV03.SendSourceChunksAndComplete` | src/sender_v03.rs:660-689 | COMPLETE is sent only for a source of the offered size, with the hash of that source; for any other source exactly the frames of its whole chunks were sent |
| `SenderV03.WrongIsNotCompleted` | src/sender_v03.rs:633-689 | frames that are those of the whole chunks of a wrong-sized source alone include no COMPLETE, and no source of the offered size is treated so |
| `SenderV03.FragmentAt` | src/sender_v03.rs:734-746 | fragment `j` is full except the last, contiguous from the chunk's offset, and never past the chunk's end |
| `SenderV03.FragmentsCarryChunk` | src/sender_v03.rs:734-746 | the fragments concatenate to the chunk |
| `SenderV03.TransmissionIsMinimal` | src/sender_v03.rs:633-658 | the bytes in DATA frames plus the lengths of reused chunks are exactly the file size |
| `TransferV03.AnnouncedIffLacking` | src/sender_v03.rs:271-285 | a chunk is announced exactly when the inventory lacks the source's hash at its index |
| `SenderV03.OnlyTransferFrames` | src/sender_v03.rs:716-749 | before COMPLETE the sender sends CHUNK_START and DATA only |
| `TransferV03.ChunkRun` | src/receiver_v03.rs:1138-1267 | an honest CHUNK_START with its fragments is accepted in any receiver state that lacks the chunk, replaces it, and leaves every other chunk and record alone |
| `TransferV03.HonestTransfer` | src/receiver_v03.rs:971-1060 | the sender's frames for the receiver's own records meet no error: COMPLETE is accepted and every chunk is the source's if transmitted and untouched otherwise |
| `TransferV03.SettledFileIsSourceIff` | src/receiver_v03.rs:971-1060 | after such a transfer the partial file is the source exactly when no reused chunk is a hash collision with the source's chunk |
| `TransferV03.CutKeepsGood` | src/receiver_v03.rs:1183-1267 | no chunk that is on disk, recorded, with the source's hash is lost by a session cut after any frame, or stopped after any byte of a write |
| `TransferV03.DeliveredIsGood` | src/receiver_v03.rs:1183-1267 | every chunk whose frames were handled before the cut is on disk and recorded after it |
| `TransferV03.ProgressIsMonotone` | src/sender_v03.rs:271-285 | over any number of cut sessions such a chunk stays, and the next session does not announce it |
| `Storage.HashPhysicalFile` | src/receiver_v03.rs:736-769 | the hashing loop decides exactly by size and then by hash |
| `Storage.DiskHandle.WriteCompletionReceipt` | src/completion_receipt.rs:129-202 | an existing receipt is only compared, before writing and again at the rename; a new one is created under a free temporary name, filled and renamed into place, step by step |
| `Storage.DiskHandle.PublishVerified` | src/receiver_storage.rs:640-671 | refused with nothing done when the final name is taken; otherwise link, a check that both names are one file, which always passes, on Windows unlink, then snapshot removal, in that order |
| `Storage.DiskHandle.Finalize` | src/receiver_v03.rs:308-357 | verify, receipt, publish without replacing, clean up: result, effects and their order are those of the plan |
| `Storage.DiskHandle.ReconcileCompletedTransfer` | src/receiver_v03.rs:627-703 | what an OFFER with a known transfer ID does to the disk and is answered with, in every case |
| `PublicationV03.FinalizePrefix` | src/receiver_v03.rs:308-357 | after any number of finalisation steps the file is unpublished, or published from bytes that passed verification with its receipt already in place |
| `PublicationV03.PublishPrefix` | src/receiver_storage.rs:640-671 | after the first publication step the final name holds the partial file's inode, whatever follows |
| `PublicationV03.ReceiptPrefix` | src/completion_receipt.rs:129-202 | until its last step a receipt write changes no receipt and no file |
| `PublicationV03.PublicationLands` | src/receiver_storage.rs:640-671 | every field of the disk after publication, on every disk: one more final name, on Windows one partial name less, no snapshot and no temporary of it, nothing else changed |
| `PublicationV03.FinalizeLands` | src/receiver_v03.rs:308-357 | every field of the disk after finalisation, in each case: a file that does not verify or a conflicting receipt changes nothing, a taken name leaves the receipt alone, and otherwise the file is published and its snapshot is gone |
| `SessionV03.InventoryDelivered` | src/sender_v03.rs:464-538 | a cut inventory is never accepted, and a whole one is accepted as the receiver's records |
| `SessionV03.TransferIsPrefixRun` | src/receiver_v03.rs:926-1060 | however both directions are cut, the receiver sees no ACCEPT or runs a prefix of the frames made for its own records |
| `EndpointsV03.PrepareChunkInventory` | src/chunk_state.rs:244-259 | the records a session starts from are those of a decodable snapshot for the same layout that survive re-hashing, and none for any other snapshot |
| `EndpointsV03.AdvertisedIsProven` | src/receiver_v03.rs:926-947 | the reply to an OFFER that is not reconciled is an inventory the sender accepts, and it lists a record exactly when a snapshot for the offered layout has it and its bytes on disk hash to it |
| `EndpointsV03.UnusableSnapshotIsAnsweredEmpty` | src/chunk_state.rs:244-259 | a snapshot for another file size or chunk size, or with an unacceptable list, is answered with RESUME 0 alone |
| `EndpointsV03.TransferNeedsAccept` | src/receiver_v03.rs:949-959 | the receiver starts a transfer exactly when the bytes of an empty ACCEPT come next, and reads on after them |
| `EndpointsV03.VerdictIsVerified` | src/sender_v03.rs:933-974 | the sender takes the end for success exactly when the bytes of an empty VERIFIED come next |
| `EndpointsV03.PreparePartialFile` | src/receiver_v03.rs:215-238 | the partial file is created, cut or extended to the offered size in place, keeping its inode |
| `EndpointsV03.SendInventory` | src/receiver_v03.rs:926-947 | RESUME with the record count and then every batch, in order |
| `EndpointsV03.ReceiveIntoPartial` | src/receiver_v03.rs:949-1060 | without an empty ACCEPT nothing is received; otherwise file and snapshot end as the transfer leaves them |
| `EndpointsV03.ReceiveSession` | src/receiver_v03.rs:1429-1479 | the receiver's session from OFFER on has exactly the specified disk, reply frames and verdict, for every disk and every peer |
| `EndpointsV03.SendSession` | src/sender_v03.rs:933-974 | success means VERIFIED, received at once or after exactly the frames the accepted inventory calls for; of a source of another length exactly the whole chunks are sent, without COMPLETE |
| `EndpointsV03.SenderReadsReplies` | src/sender_v03.rs:933-974 | a sender of the offered length succeeds on the receiver's reply frames exactly when VERIFIED is among them |
| `EndpointsV03.AttemptIsBothEnds` | src/receiver_v03.rs:1429-1479 | an attempt of the whole-run theorems, cut or stopped anywhere, is the receiver's code on what arrives of the sender's answer to what arrived of the inventory, and its verdict is the sender's |
| `SafetyV03.CompletedHash` | src/sender_v03.rs:660-689 | nothing but an honest sender's COMPLETE completes a transfer, and it carries the hash of the source |
| `SafetyV03.AttemptIsSafe` | src/receiver_v03.rs:308-373 | an attempt cut anywhere keeps the receipt truthful, and Ok on the sender's side means the final name holds the source (or a same-length hash collision with it) |
| `SafetyV03.RetriesAreSafe` | src/sender_v03.rs:976-1016 | over any number of attempts with one transfer ID, each cut anywhere, with any changes to the files in between: whenever the sender returns Ok the final name holds the source (or a same-length hash collision) |
| `SafetyV03.ServedIsChecked` | src/receiver_v03.rs:308-373 | whatever bytes follow an OFFER and wherever the session stops: when VERIFIED is sent or a final name appears, the final file has the offered size and the hash its receipt names |
| `StabilisationV03.TransferLeavesCut` | src/receiver_v03.rs:949-1060 | whatever is cut, and wherever the process stops inside the transfer, the partial file and snapshot are those of the sender's frames up to that point |
| `StabilisationV03.UncutTransfer` | src/receiver_v03.rs:1063-1087 | an uninterrupted transfer is completed from every disk state |
| `StabilisationV03.CompletedTransfer` | src/receiver_v03.rs:1014-1052 | however the connection was cut, an accepted COMPLETE carried the source's hash, every chunk is on disk and recorded with the source's hash, and the file is the source exactly when no reused chunk collides |
| `StabilisationV03.PublishReceived` | src/receiver_v03.rs:308-357 | a received file is published exactly when it has the source's hash and its name is free, and otherwise nothing but a receipt is written |
| `StabilisationV03.VerifiedSettles` | src/receiver_v03.rs:308-357 | whatever arrives and wherever the session stops, VERIFIED means that an existing final file left the whole disk unchanged, or that the disk is the one found plus exactly one delivered file of the offered size |
| `StabilisationV03.SettlesCleansUp` | src/receiver_v03.rs:346-354 | after such a delivery the name has no snapshot and no snapshot temporary, the receipt no temporary, and every other name's snapshot is as it was |
| `OutcomesV03.AnyPeerOutcome` | src/receiver_v03.rs:1429-1479 | for every disk and every byte that arrives after an OFFER that is not reconciled: VERIFIED exactly for ACCEPT, a transcript that covers the file and COMPLETE with the hash of what was written, with nothing in the way of publishing; the disk afterwards in every case |
| `OutcomesV03.ConfirmationAnswers` | src/receiver_v03.rs:627-703 | a receipt for exactly this offer that the published or else the partial file confirms is answered with VERIFIED alone, whatever the peer sends, and the file is delivered |
| `OutcomesV03.DisagreementEnds` | src/receiver_v03.rs:648-654 | a receipt that cannot be read or names another file ends the session without a reply or a change |
| `OutcomesV03.UnconfirmedNegotiates` | src/receiver_v03.rs:656-703 | an agreeing receipt that no file confirms is answered as if it were not there |
| `StabilisationV03.SelfStabilising` | src/receiver_v03.rs:1429-1479 | from every disk without a receipt and a final file, an uninterrupted session ends in VERIFIED with the source published, exactly when no reused chunk collides; the disk is then the one found plus the source, and its snapshot and snapshot temporary are gone |
| `ClobberV03.OtherFilesKeepTheirBytes` | src/receiver_v03.rs:1429-1479 | whatever the peer sends and wherever the session stops, published files that share no inode with the partial file keep their bytes |
| `ClobberV03.LinkedIsResized` | src/receiver_v03.rs:215-238 | an OFFER for a name whose partial file is linked to the published one leaves the published file as long as it offered, whatever follows |
| `ClobberV03.NoClobberIffNotLinked` | src/receiver_v03.rs:1447-1458 | no session under a new transfer ID, from any peer and stopped anywhere, can change a published file exactly when its partial name is not a second link to it |
| `ClobberV03.LinkedBecomesReceived` | src/receiver_v03.rs:1447-1458 | a whole honest transfer under a published name is refused, and a linked published file becomes the file it received |
| `ClobberV03.LinuxKeepsTheLink` | src/receiver_storage.rs:640-671 | after every successful publication the partial name is a second link to the final file on Linux and gone on Windows |
| `ClobberV03.SecondOfferClobbers` | src/receiver_v03.rs:1447-1458 | from a disk with neither name, after one whole transfer, a second OFFER of that name with another ID and size destroys the delivered bytes on Linux, whatever follows it, and no session does on Windows |
| `ClobberV03.SecondTransferReplaces` | src/receiver_v03.rs:1447-1458 | a whole second transfer is refused and leaves its own source under the first one's name on Linux, exactly when no chunk it reuses collides |
| `RecoveryV03.CrashIsRecoverable` | src/receiver_v03.rs:308-357 | once COMPLETE is accepted for a file that verifies, stopping between any two storage steps leaves everything received, or the receipt with the partial file, or the published file, with the same verified bytes |
| `RecoveryV03.RecoverableFinishes` | src/receiver_v03.rs:627-703 | from such a disk the next uninterrupted attempt ends in VERIFIED with the verified bytes published; it removes the snapshot when it publishes, and changes nothing when the file was published already |
| `ProgressV03.AttemptKeepsGood` | src/receiver_v03.rs:1429-1479 | an attempt cut after any byte, inside any write or after any storage step loses no good chunk, or has published the file under a receipt that matches it |
| `ProgressV03.GoodChunksStayReceived` | src/sender_v03.rs:271-285 | over any sequence of attempts a good chunk stays good until the file is published and answers by itself, and no later attempt sends it |
| `ProgressV03.DeliveredChunksAreGood` | src/receiver_v03.rs:1183-1267 | a chunk whose frames were handled is good after the attempt, wherever it was cut after that, or is published with the source's hash |
| `ProgressV03.CrashRecovery` | src/receiver_v03.rs:308-357 | once an attempt has accepted COMPLETE for a file that verifies, wherever it stops and however later attempts are cut, no later attempt sends DATA and the first uncut one ends in VERIFIED with the verified bytes published; they are the source exactly when no chunk it reused collides |
| `ProgressV03.UnverifiedIsNotPublished` | src/receiver_v03.rs:271-306 | a received file that does not verify is not published, gets no receipt and is not answered with VERIFIED |
| `BudgetV03.CarriedByPrefix` | src/sender_v03.rs:716-749 | a prefix of the transfer carries its whole chunks and at most one chunk more |
| `BudgetV03.CutBudget` | src/receiver_v03.rs:1183-1267 | the DATA bytes that arrive in a cut session exceed what it adds to the good bytes on disk by at most one chunk size |
| `BudgetV03.SessionsBudget` | src/sender_v03.rs:633-658 | over n cut sessions the DATA bytes that arrive are at most the file size plus n chunk sizes, less the bytes that were good before |
| `BudgetV03.AttemptsBudget` | src/sender_v03.rs:976-1016 | the same over n attempts on the receiver's disk, publication and reconciliation included |
| `RecoveryV03.NothingToSend` | src/sender_v03.rs:271-285 | when every chunk is on disk and recorded the sender's transfer is COMPLETE alone |
| `RecoveryV03.RecoverableIsStable` | src/receiver_v03.rs:627-703 | from such a disk every attempt, however cut, leaves such a disk and sends no DATA |
| `ReceiptRace.RunEvolves` | src/completion_receipt.rs:129-202 | in every interleaving of writers and a rival, bound names stay bound, complete texts stay, and successes stay |
| `ReceiptRace.ReceiptsAreImmutable` | src/completion_receipt.rs:129-202 | once bound the receipt name keeps its inode, and a writer that returned Ok agrees with what the name shows then and at every later moment |
| `ReceiptRace.SuccessfulWritersAgree` | src/completion_receipt.rs:182-202 | two writers that both return Ok wrote the same receipt |
| `ReceiptRace.LoneWriterSucceeds` | src/completion_receipt.rs:129-202 | undisturbed, a first writer ends in Ok with its receipt bound |
| `ReceiptRace.DecodesIffNoUnfinishedRename` | src/completion_receipt.rs:129-202 | over any run of any number of writers a bound receipt decodes at every moment exactly when no rename finds an unfinished file under the temporary name they share |
| `ReceiptRace.UnfinishedIsAnothers` | src/completion_receipt.rs:161-202 | an unfinished file that a rename finds is always another writer's, still being filled |
| `ReceiptRace.UnfinishedReceiptBound` | src/completion_receipt.rs:161-202 | it happens: two writers of one receipt can leave the name bound to text that does not decode, and both fail even if the text is completed |
| `ReceiptRace.TurnsSucceed` | src/completion_receipt.rs:129-202 | writers that take turns on the temporary name: a bound receipt always decodes, and a writer fails only on a different receipt |
| `PrefixV02.ReceiveFileData` | src/receiver.rs:832-972 | the v0.2 loop over a connection's bytes leaves the file and returns the verdict of the step function, in every error case, and ends on every connection |
| `PrefixV02.TakeAllStaysInStep` | src/receiver.rs:847-937 | whatever arrives, byte count, running hash and file stay in step, and the file only grows and never past the offer |
| `PrefixV02.TakeCutStream` | src/receiver.rs:847-937 | a connection cut after any byte delivers whole frames and then its loss |
| `PrefixV02.SettledFile` | src/receiver.rs:945-964 | the v0.2 verdict is Ok exactly when the file on disk has the offered size and the announced hash |
| `PrefixV02.HashPrefix` | src/sender.rs:484-514 | through any short reads, absorbs exactly the requested prefix, and fails exactly when the source is shorter |
| `PrefixV02.SendFileData` | src/sender.rs:281-393 | sends the rest of the source in non-empty pieces and COMPLETE with the whole source's hash, exactly when the source has the offered length; an interrupt sends CANCEL after the pieces sent so far and no COMPLETE |
| `PrefixV02.HonestPieces` | src/sender.rs:332-368 | the pieces delivered before a cut extend the file by a prefix of what was left to send |
| `OutcomesV02.CancelIsTaken` | src/receiver.rs:911-926 | on the frames of an interrupted sender, from any prefix of the source, the receiving loop takes every piece and ends in the cancellation |
| `OutcomesV02.TransferOutcome` | src/receiver.rs:200-282 | for every disk and every byte that arrives for a transfer: verified exactly for DATA and then COMPLETE with the hash of a whole file of the offered size, and the disk then; unverified, a partial file stays exactly when every frame was DATA within the offer and the bytes just stopped, and it holds all that data; the replies in each case |
| `OutcomesV02.NegotiationOutcome` | src/receiver.rs:465-703 | a connection that ends before its transfer keeps the partial file exactly when RESUME could not be written or the bytes stopped within the answer to it, and leaves nothing otherwise |
| `OutcomesV02.SettledEarlierOutcome` | src/receiver.rs:284-408 | with a receipt or a final file there: VERIFIED exactly for a receipt of this very offer that the final or else the partial file confirms, the reject otherwise, and the disk in each case |
| `OutcomesV02.CancelledLeavesNothing` | src/sender.rs:299-310 | for every source, partial file and division of the data, once an interrupted sender's frames have arrived nothing is verified and the offer has no partial file, final file or receipt |
| `OutcomesV02.OpeningDecides` | src/sender.rs:217-280 | the sender's answer to every first reply, and exactly when it goes on to send data |
| `OutcomesV02.SuccessMeansVerified` | src/sender.rs:371-393 | only VERIFIED as the next reply makes the end a success |
| `SessionsV02.Destination.ReconcileCompletedTransfer` | src/receiver.rs:284-408 | what an OFFER with a receipt does to the disk and is answered with, in every case |
| `SessionsV02.Destination.PrepareFreshTransfer` | src/receiver.rs:705-770 | a fresh partial file and ACCEPT, or no partial file when ACCEPT cannot be written |
| `SessionsV02.Destination.PrepareTransfer` | src/receiver.rs:465-703 | RESUME, ACCEPT and RESTART negotiation: disk, replies and the start of the transfer, in every case |
| `SessionsV02.Destination.ReceiveConnection` | src/receiver.rs:94-282 | the receiver's connection from OFFER on has exactly the specified disk, replies and verdict, for every disk and every peer |
| `SessionsV02.NegotiateResume` | src/sender.rs:414-482 | the offered prefix is accepted exactly when it is within the source and its hash is the source prefix's; otherwise RESTART and from byte zero |
| `SessionsV02.SendOnce` | src/sender.rs:217-412 | for every sequence of replies and every interrupt, exactly the frames written and the result; success only after VERIFIED |
| `ConservationV02.SessionIsBothEnds` | src/sender.rs:217-412 | in every session, whole or cut, a sender that gets to send data on the receiver's replies sends exactly the frames the theorems below are about, and it succeeds exactly when VERIFIED is written |
| `ConservationV02.CutTransmission` | src/receiver.rs:832-972 | an honest transmission from a prefix leaves a longer prefix when cut and settles with the source when whole; the growth is the accepted DATA bytes |
| `ConservationV02.SessionKeepsGenuine` | src/receiver.rs:465-770 | a session cut anywhere keeps the disk a prefix, a receipted whole file or the published source, and holds exactly the bytes accepted |
| `ConservationV02.Conservation` | src/receiver.rs:465-770 | from no partial file, over any sequence of interrupted sessions, the partial file is the prefix of the source as long as all bytes accepted so far, and by VERIFIED they total exactly the file size |
| `ConservationV02.ConservationEnds` | src/receiver.rs:94-282 | however earlier sessions were cut, a session that holds to its end is verified and accepts exactly the missing bytes |
| `ConservationV02.EndToEnd` | src/sender.rs:414-482 | from any partial file a whole session publishes the source and accepts the file size less the accepted offset, exactly when the partial file is not a same-length hash collision with the source's prefix |
| `ConservationV02.PublishedIsChecked` | src/receiver.rs:94-282 | whatever arrives and wherever the receiver stops, an existing final file is left alone, and a new one has the offered size and the hash of the receipt saved before it |

## Left out

- Sockets, timers, retry delays, an interrupt while waiting to retry, and the HELLO exchange: a connection is a byte stream in each direction that may end after any byte.
- Discovery, destination names, the command line, progress output and error text: no property beyond their own bodies.
- I/O errors other than the end of the stream and a failed reply write: a read or write of a local file succeeds, and a lost connection is one error of the kinds src/receiver.rs:984-1001 lists. On other connection errors, such as a timeout, WFP/0.2 drops the partial file.
- `is_safe_filename` and the path computations: names are opaque byte strings with one partial, one final and one snapshot name each.
- JSON and hexadecimal text: a snapshot or receipt file either does not decode or is a decoded value.
- The hash function's internals: `H` is arbitrary.
- Power loss: a process stop keeps every completed storage step.
- Frames with non-zero flags: the encoder writes flags (src/protocol/encoder.rs:51) that the decoder refuses (src/protocol/decoder.rs:112-114), so the round trips are for flags zero, the only ones the program sends.
- The WFP/0.2 OFFER, RESUME and REJECT payloads and transfer metadata: replies are values, and metadata never decides which bytes are trusted.
- Allocation failure and conversions between `usize` and 64 bits on 32-bit hosts.
- TransferV03.CutKeepsGood: excludes a stop between removing the old snapshot and renaming the new one (src/chunk_state.rs:221-222), after which the snapshot is gone; `ReceiverV03.SnapshotFile.Write` states that window.
- EndpointsV03.ReceiveIntoPartial: the partial file and snapshot are written back to the disk when the transfer ends; a process stop inside the transfer is a `SessionV03.Stop` of the attempt.
- OutcomesV03.AnyPeerOutcome: the receiver is not stopped; process stops are in `SafetyV03.ServedIsChecked`, `StabilisationV03.VerifiedSettles` and the attempt theorems.
- Storage.DiskHandle.WriteCompletionReceipt: the identity check after the rename needs receipt inodes and is modelled in `ReceiptRace`.
- SafetyV03.RetriesAreSafe: one receiver process at a time; rival receipt writers are in `ReceiptRace` only, and receipts are not removed between attempts.
- ReceiptRace.ReceiptsAreImmutable: the Linux rename, which moves whatever the temporary name refers to; the text of a receipt is written in one step, and receipts are not removed.
- ConservationV02.Conservation: one offer's partial file, final file and receipt, with nobody else changing them; publication is writing the receipt and renaming, each one step.
- SenderV03.SendSourceChunks: frame writes succeed; a lost connection is a cut of what arrives at the other end.
- PrefixV02.SendFileData: frame writes succeed; a lost connection is a cut of what arrives at the other end.
- The retry loops' attempt limits: the theorems hold for any number of attempts.
