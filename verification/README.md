# A verified model of the EDL flashing tool

The program talks to Qualcomm devices in emergency download mode. This project models its protocol and storage
core in Dafny and proves what that core keeps, over whole runs and for every way the device, the link and the files
can behave.

**Transport** (`Port.dfy`). The link is an ordered byte stream that is delivered in fragments the host cannot choose.
A `Wire` value holds the bytes still to come, the schedule of reads (deliver up to n bytes, nothing yet, an error), the
faults of writes, and everything written. After a finite schedule the device is silent. All theorems quantify over the
wire, so over every fragmentation and every fault pattern.

**Firehose** (`Text.dfy`, `Utf8.dfy`, `Firehose.dfy`, `FirehoseSync.dfy`, `FirehoseTorn.dfy`, `FirehoseShapes.dfy`,
`FirehoseDisk.dfy`). XML response frames and raw sector data share one stream. The client object keeps surplus bytes in
`leftover`. Its methods are proved equal to functions of the wire; over these functions stand byte conservation, the
exact condition under which the read loop makes no progress, how long a pause it waits through, whole-run
synchronisation of request, response and payload, exactly when a read that ends inside a frame does harm and what harm
it does, and, with a device that keeps a disk, that the caller sees exactly that disk.

**Jobs on an abstract disk** (`Disk.dfy`, `Context.dfy`, `OnDisk.dfy`, `Jobs.dfy`, `Patch.dfy`, `Flash.dfy`). The disk
is a map from (LUN, sector) to sector bytes. Write, erase, dump, resume and flash are nested loops over chunks; each is
proved to have the effect of one simple function on the map, for every payload size, every short read and every refusal
of the device; what that means on the disk is said address by address.

**Sparse images** (`Sparse.dfy`). The expander against the meaning of an encoded chunk list, in both directions.

**Sahara** (`SaharaUpload.dfy`, `SaharaTranscript.dfy`, `SaharaSteps.dfy`, `SaharaRecovery.dfy`,
`SaharaHandshake.dfy`). The loader upload serves exactly what is asked; the session object is proved equal to a function
of the wire, and keeps a transcript whose shape is the safety property of the handshake. The recovery without a Hello is
followed to its end.

**Checksums and framing** (`Lfsr.dfy`, `Crc32.dfy`, `Diag.dfy`). Shift registers of any width as lists of bits, their
meaning as polynomial division, and burst detection; the table-driven CRC-32, the CRC-16 with its residue, byte
stuffing and frame splitting.

**GUID partition tables** (`Names.dfy`, `Gpt.dfy`, `GptLoad.dfy`, `Partitions.dfy`). Header and entry parsing against
writers that follow the UEFI Specification, the load pipeline over LUNs and backup headers, and the name index against
a plain scan.

Jobs may be told to erase by writing zeros or by the device's own command; what the device then leaves is its choice.

Classes carry the state the program updates in place: the transport, the Firehose client, the job context, the chunked
reader, the sparse expander and its sink, the Sahara session, the partition map, the GPT loader. Their methods state the
whole new state, as a function of the old. A panic of the program (a slice out of range, an unwrap, an arithmetic
overflow in a checked build) is an outcome of its own, never a precondition. The release profile does not check
arithmetic: where a header or a packet can make it wrap, the theorems below say what the checked build does, and the
list that follows says what the wrapped value leads to.

## Where the code departs from its documentation

The model follows the code. These are the places where that matters, each with the theorem that states it.

- A buffer that holds `<response ` with closing tokens only before it resets the counter of empty reads for ever:
  `FirehoseSync.TurnMakesProgress`, `FirehoseSync.QuietLinkHangs`, with `FirehoseSync.SmallestSpin` as an instance.
- A `</data>` that arrives in a later read than the `/>` stays in the stream. `FirehoseTorn.WholeExactlyWhenNotTorn`
  and `FirehoseTorn.RunTakesFramesExactly` say exactly when; `FirehoseTorn.TornAckShiftsData` and
  `FirehoseTorn.TailJoinsNextFrame` say what it does to the data and to the next response;
  `FirehoseTorn.TornReadInstance` is a wire on which the caller reads `</data>` as its data.
- The cut between a frame and the raw bytes is measured in decoded text, not in bytes:
  `FirehoseSync.GarbageMovesTheCut`, with `FirehoseTorn.GarbageEatsPayload` as an instance on a wire.
- The scan also takes responses without a data element, and responses closed by a tag of their own; where it ends them
  depends on the bytes behind them, which may be raw data: `FirehoseShapes.BareFrameCut`,
  `FirehoseShapes.PairedFrameCut`.
- A response is waited for through ten empty reads in a row, raw data through none:
  `FirehoseSync.EmptyReadsAreWaitedFor`, `FirehoseSync.RawDataDoesNotWait`.
- The write-zero erase slices a 512 KiB buffer with a chunk chosen by a maximum: `Context.JobContext.EraseSectors`,
  with `Context.DefaultPayloadPanics` as an instance.
- Resuming a dump rounds down to a sector but appends at the end of the file: `Jobs.ResumeIsExactOnAlignedPrefix`.
- A patch value such as `NUM_DISK_SECTORS-33.` is taken for the number of sectors alone: `Flash.DiskSizePatch`.
- The magic number `WriteJob` looks for is not the sparse magic: `Jobs.WriteJobMagicIsNeverSparse`.
- Sparse chunk sizes are read as bytes where the Android format counts blocks: `Sparse.ExpandsEncoded` uses the code's
  units. A hole in an image with a block size of zero is skipped for ever: `Sparse.HangsExactly`, with
  `Sparse.HangingFileNeverEnds` as an instance. A file header shorter than itself, and a declared size beyond any
  capacity, panic: `Sparse.FilePanicsExactly`. (Without overflow checks the first wraps to a seek backwards.)
- The handshake unwraps a loader path that may be absent once a Hello was answered, and a serial number of four to seven
  bytes passes the length check and then panics in the slice: `SaharaSteps.HandshakePanicsExactly`, with
  `SaharaSteps.NoLoaderPanics` and `SaharaSteps.InstancesPanic`.
- A 64-bit loader request whose offset and length sum past 64 bits panics: `SaharaUpload.RefusalIsTheFirst`, with
  `SaharaUpload.WrappingRequestPanics` as an instance. (Without overflow checks the end wraps; it is then either past
  the loader, which is refused, or before the start, and the slice panics.)
- The size of the GPT entry array is taken in 32 bits: `GptLoad.LargeArrayCrashes`. Without overflow checks it wraps,
  the sectors read never hold the whole array, and the table is cut off: `GptLoad.WrappedReadIsShort`. Looking for the
  backup array subtracts its size from the disk's without a check: `GptLoad.WrittenTableLoads`. A size taken from the
  first header is its backup sector plus one, which overflows 64 bits for the last sector a number can name:
  `GptLoad.WrittenTableCrashesLoading` has the exact condition, `GptLoad.TopDiskStopsLoading` is such a disk. (Without
  overflow checks that size wraps to zero, which means unknown.)
- Bytes that come late to the first read of a handshake are thrown away by the recovery, so a Hello that arrives in two
  parts can be lost: `SaharaRecovery.LateHelloArrivesWhole`, with `SaharaRecovery.SplitHelloIsLost`.
- A byte that an acknowledgement's logs happen to spell as a 0x token shifts the data by one:
  `FirehoseTorn.TornAckShiftsData`.

## Model

| member | source | states |
|---|---|---|
| Text.FindIsFirst | qedl-firehose/src/client.rs:230-233 | The token search finds an occurrence exactly when there is one, and then the first |
| Text.LossyGarbage | qedl-firehose/src/client.rs:225 | An ASCII byte ends whatever invalid text came before it, so decoding splits there |
| Utf8.TextIsKept | qedl-firehose/src/client.rs:225 | Text in UTF-8, after RFC 3629, is decoded to itself whatever bytes follow it |
| Utf8.ValidIsCharacter | qedl-firehose/src/client.rs:225 | Conversely, whatever is kept is the encoding of a character |
| Utf8.InvalidPartIsLongest | qedl-firehose/src/client.rs:225 | A replaced part is one byte, or the longest part that some character starts with |
| Utf8.ReplacementIsEncoded | qedl-firehose/src/client.rs:225 | What replaces an invalid part is the character U+FFFD |
| Port.Transport.FillExactly | qedl-transport/src/port.rs:28-40 | The filling loop delivers exactly the next bytes of the stream or gives up on an empty read or error |
| Port.ReadExactFlows | qedl-transport/src/port.rs:28-40 | On any schedule of non-empty fragments the next n bytes arrive whole and the rest stays undelivered |
| Firehose.FirehoseClient.ReadResponseXml | qedl-firehose/src/client.rs:171-277 | The read loop with its buffers ends in exactly the frame, surplus and wire that the functional read gives |
| Firehose.FirehoseClient.ReadFrom | qedl-firehose/src/client.rs:279-406 | A read command's result, surplus and wire, including log bytes, surplus bytes first, and every error path |
| Firehose.FirehoseClient.ProgramFrom | qedl-firehose/src/client.rs:408-470 | A program command's result, surplus and wire; the payload is written only after an ACK |
| Firehose.FirehoseClient.EraseRange | qedl-firehose/src/client.rs:472-504 | An erase command's result, surplus and wire |
| FirehoseSync.ResponseConservesBytes | qedl-firehose/src/client.rs:171-277 | For arbitrary bytes, an Ok response keeps, as kept bytes, surplus and undelivered stream, every byte in order |
| FirehoseSync.TurnMakesProgress | qedl-firehose/src/client.rs:181-232 | A turn that keeps waiting decreases the measure (room below the cap, empty reads left), except exactly for an empty read on a spinning buffer |
| FirehoseSync.ReadsAreBounded | qedl-firehose/src/client.rs:270-275 | A run that meets no spinning buffer stops after at most as many reads as the measure says |
| FirehoseSync.SpinningNeverEnds | qedl-firehose/src/client.rs:200-229 | A spinning buffer outlasts any number of empty reads |
| FirehoseSync.QuietLinkHangs | qedl-firehose/src/client.rs:195-229 | On a silent link the loop fails to return if and only if its buffer spins |
| FirehoseSync.SmallestSpin | qedl-firehose/src/client.rs:200-230 | A concrete buffer that spins |
| FirehoseSync.TokensSpelled | qedl-firehose/src/client.rs:230-256 | The four tokens are the strings the scan looks for |
| FirehoseSync.EmptyReadsAreWaitedFor | qedl-firehose/src/client.rs:181-222 | Up to ten empty or failed reads in a row leave the loop where it was, the eleventh is a timeout that keeps nothing |
| FirehoseSync.PauseIsHarmless | qedl-firehose/src/client.rs:181-226 | A pause of up to ten reads before a delivery changes neither the result nor the wire left behind |
| FirehoseSync.PatientLinkResponds | qedl-firehose/src/client.rs:171-277 | On a link with pauses of at most ten reads that in the end delivers everything, a response call returns, torn or not |
| FirehoseSync.PlentifulIsPatient | qedl-firehose/src/client.rs:181-194 | A link whose every read delivers something is one with no pause at all |
| FirehoseSync.TooMuchIsRefused | qedl-firehose/src/client.rs:270-275 | More than 128 KiB without a response is refused and dropped |
| FirehoseSync.RawDataDoesNotWait | qedl-firehose/src/client.rs:361-371 | One empty read in raw data is a timeout, one failed read the transport's error |
| FirehoseSync.FrameIsFound | qedl-firehose/src/client.rs:230-260 | A frame at the front of the buffer is cut at its own end, whatever raw bytes follow |
| FirehoseSync.PartOfFrameWaits | qedl-firehose/src/client.rs:230-241 | Less of a frame than its closing token is never taken for a response |
| FirehoseSync.TornFrameIsCutShort | qedl-firehose/src/client.rs:241-260 | A frame of which the closing data tag has not fully arrived is cut before that tag |
| FirehoseSync.GarbageMovesTheCut | qedl-firehose/src/client.rs:225-260 | With undecodable bytes in front, the cut is right if and only if they decode to equally many bytes |
| FirehoseSync.SmallestFrame | qedl-firehose/src/client.rs:230-256 | A concrete frame that meets the synchronisation theorem's conditions |
| FirehoseSync.RespondInStep | qedl-firehose/src/client.rs:171-277 | With a frame next and no torn read, the loop returns exactly that frame and leaves the rest, or gives up on the link; with pauses of at most ten empty reads in a row it does not give up |
| FirehoseSync.RawInStep | qedl-firehose/src/client.rs:346-371 | The raw phase returns exactly the raw part, from surplus and stream together |
| FirehoseSync.LoggedBytesComeFirst | qedl-firehose/src/client.rs:326-371 | Bytes spelled in the logs stand in for the first raw bytes, and that many fewer are taken off the stream |
| FirehoseSync.CommandStaysInStep | qedl-firehose/src/client.rs:279-504 | Each command returns its own answer, writes exactly its own packets and leaves the stream after its answer; on a link with short pauses it can only fail where the raw bytes of a read break off |
| FirehoseSync.UnparsedEndsCommand | qedl-firehose/src/client.rs:300-420 | A first response that does not parse ends the command in an error, with the command alone written and no payload |
| FirehoseSync.RunStaysInStep | qedl-firehose/src/client.rs:171-504 | Whole-run synchronisation over any list of commands and any fragmentation without torn frames, refusals and lost links included; with pauses of at most ten empty reads in a row every command completes unless the raw bytes of a read break off. That clean reads suffice is stated here, the exact condition in FirehoseTorn.RunTakesFramesExactly |
| FirehoseTorn.ResponseTakesFrame | qedl-firehose/src/client.rs:171-277 | On every schedule a response call with a frame next takes the frame whole, or takes it without its tail, which then stays first on the stream, or gives up on the link; how much was undelivered decides |
| FirehoseTorn.WholeExactlyWhenNotTorn | qedl-firehose/src/client.rs:195-265 | A loop that starts before the frame's closing token returns the device's frame if and only if none of its reads ended inside the frame's tail |
| FirehoseTorn.ReadTakesNext | qedl-firehose/src/client.rs:279-406 | A successful read returns the bytes spelled in the logs, then the tail of a torn acknowledgement, then the stream, in all as many as asked for |
| FirehoseTorn.TornAckShiftsData | qedl-firehose/src/client.rs:279-406 | When the device sends all the data, bytes spelled in the logs and the tail of a torn acknowledgement come in front and as many last bytes stay behind; with neither the result is the data |
| FirehoseTorn.TailJoinsNextFrame | qedl-firehose/src/client.rs:230-260 | A stale tail and the next frame make one frame, so the next response is read with the tail in front and the stream is in step after it |
| FirehoseTorn.CommandExactlyWhole | qedl-firehose/src/client.rs:279-504 | A command that does not lose the link takes the device's frames, returns its own answer and leaves the stream in step if and only if no response was torn; otherwise its frames differ from the device's |
| FirehoseTorn.RunTakesFramesExactly | qedl-firehose/src/client.rs:171-504 | Whole runs, both directions: the host takes exactly the device's frames if and only if no response call returned with a part of its frame undelivered, and then every command returns its own answer |
| FirehoseTorn.TornReadInstance | qedl-firehose/src/client.rs:230-371 | A concrete wire on which a read of seven zero bytes returns the closing data tag instead |
| FirehoseTorn.GarbageEatsPayload | qedl-firehose/src/client.rs:225-260 | A concrete wire on which one undecodable byte makes a response swallow two bytes of the payload |
| FirehoseShapes.BareFrameCut | qedl-firehose/src/client.rs:230-260 | A response without a data element is cut at its end, or behind the first closing data tag among the bytes that follow |
| FirehoseShapes.PairedFrameCut | qedl-firehose/src/client.rs:230-260 | A response closed by its own tag is cut at its end if and only if no self-closing token follows it in the buffer; otherwise exactly where |
| FirehoseShapes.SmallestBare | qedl-firehose/src/client.rs:230-256 | A concrete response without a data element |
| FirehoseShapes.SmallestPaired | qedl-firehose/src/client.rs:230-256 | A concrete response closed by its own tag |
| FirehoseDisk.RunServesDisk | qedl-firehose/src/client.rs:279-504 | Against a device with a disk, on every schedule without torn frames, each result is the disk's as the earlier commands left it; only a lost link ends a run early, on a plentiful link nothing does, and with short pauses only raw bytes that break off do |
| FirehoseDisk.WholeRunServesDisk | qedl-firehose/src/client.rs:279-504 | The same under the exact condition: no response returned with a part of its frame undelivered |
| FirehoseDisk.ProgramThenRead | qedl-firehose/src/client.rs:279-470 | Over the wire, a read after a program of the same sectors returns the programmed bytes |
| Disk.ChunkOfImage | qedl-job/src/jobs.rs:292-307 | The next chunk of a padded image is the next bytes, zero-filled, and the rest is the padded rest |
| OnDisk.PutIsImageWritten | qedl-job/src/jobs.rs:280-321 | Writing the padded sectors of an image leaves, byte by byte, the image from the start sector on, zeros to the end of its last sector, and every other sector as it was |
| OnDisk.ImageDecidesDisk | qedl-job/src/jobs.rs:280-321 | That description leaves no choice: two disks that meet it are equal |
| Context.FindPartitionIsFirst | qedl-job/src/executor.rs:782-784 | The partition found is the first with the name, and none is found exactly when none has it |
| Context.ErasePanicsExactly | qedl-job/src/context.rs:33-53 | The panic happens if and only if some number of sectors of the range that the payload takes, or one sector, exceeds 512 KiB |
| Context.JobContext.EraseSectors | qedl-job/src/context.rs:33-53 | Zeroes exactly the range on success, touches nothing else ever, and panics, before any write, exactly when the first chunk exceeds the zero buffer; whatever is refused, exactly some first sectors of the range are zero |
| Context.SmallPayloadIsSafe | qedl-job/src/context.rs:37-47 | Payload and sector sizes within the zero buffer rule the panic out |
| Context.DefaultPayloadPanics | qedl-job/src/context.rs:37-47 | A 1 MiB payload and 2048 sectors of 512 bytes slice past the buffer |
| Jobs.ChunkedReader.FillChunk | qedl-job/src/jobs.rs:295-307 | For every pattern of short reads the buffer holds the next bytes of the file, zero-filled at its end |
| Jobs.StreamImage | qedl-job/src/jobs.rs:280-321 | The streaming loop leaves the padded image on the disk, nothing else changed, every call sized count times sector size within the payload limit and all but the last as large as that allows; it fails exactly when the device or the file did, and then exactly some first sectors of the image are written |
| Jobs.WriteExpanded | qedl-job/src/jobs.rs:474-499 | The loop over an expanded image has the same effect on the same bytes, in whole or in part |
| Jobs.WriteJobMagicIsNeverSparse | qedl-job/src/jobs.rs:196-208 | Every image the write job takes for sparse is rejected by the expansion |
| Jobs.ExecuteWrite | qedl-job/src/jobs.rs:181-331 | The write job's outcomes, each exactly when, including a short read of the four magic bytes; on success the image is on the disk from the first sector on, otherwise some first sectors of it, and no sector outside the partition is touched |
| Jobs.ExecuteErase | qedl-job/src/jobs.rs:346-412 | By zeros: every sector from the first to the last is zero and no other changed, or some first ones are when the device refuses, with the panic exactly when the slice is out of range. By the device's own erase: nothing outside the partition changes. Either fails exactly when the device refused |
| Jobs.ExecuteDump | qedl-job/src/jobs.rs:57-167 | A successful fresh dump is the partition: its length, and each sector in its place; a resumed one leaves exactly the file that resuming defines; whatever the device refuses, a dump that starts well leaves a whole number of the partition's first sectors |
| Jobs.DumpRange | qedl-job/src/jobs.rs:119-143 | The read loop appends exactly the sectors it got through, for every payload size, and stops exactly on a refusal or a file error |
| Jobs.ResumeCompletes | qedl-job/src/jobs.rs:75-143 | Resuming over what an interrupted dump left, once it gets through, gives exactly the partition |
| Jobs.ResumeIsExactOnAlignedPrefix | qedl-job/src/jobs.rs:75-98 | Resuming over a shorter file gives the partition if and only if the file is a whole number of its own first sectors; otherwise the length is off by the partial sector |
| Jobs.WriteThenDump | qedl-job/src/jobs.rs:57-331 | Dumping after writing gives the image, zeros to the sector boundary, then the old tail |
| Patch.ParseOfDecimal | qedl-image/src/patch.rs:37-45 | A number in decimal parses back to itself if it has 64 bits, and to nothing if it has more |
| Patch.ParseOfHex | qedl-image/src/patch.rs:37-45 | The same in hexadecimal behind either prefix, in small and capital letters |
| Patch.OnlyNumbersParse | qedl-image/src/patch.rs:37-45 | What parses is an optional plus sign and digits of its radix, one at least |
| Patch.ResolvedBytesDecode | qedl-image/src/patch.rs:18-48 | The resolved bytes are size many and decode little-endian to the value modulo 256 to the size |
| Patch.PatchTouchesItsBytes | qedl-job/src/jobs.rs:578-581 | A patch changes exactly its byte range, clipped at the sector's end |
| Patch.PatchedValueReadsBack | qedl-job/src/jobs.rs:561-589 | An unclipped patch leaves its value readable in place |
| Patch.PatchEffectsCommute | qedl-job/src/jobs.rs:561-589 | Patches on disjoint byte ranges commute on the disk, even within one sector |
| Flash.LastWriterWins | qedl-job/src/jobs.rs:448-541 | After all effects each sector holds what the last one covering it wrote, found by searching the list backwards |
| Flash.DisjointEffectsSwap | qedl-job/src/jobs.rs:448-541 | Neighbouring effects with disjoint written ranges can swap anywhere in a list |
| Flash.ZeroEraseIsDetermined | qedl-job/src/jobs.rs:448-541 | With write-zero erase a task list has exactly one list of effects |
| Flash.PlainTaskWrites | qedl-job/src/jobs.rs:500-541 | A task for a plain file leaves the file on the disk from its start sector on, zero-filled to a sector, and nothing else changed |
| Flash.SparseTaskWrites | qedl-job/src/jobs.rs:460-499 | A task for a sparse image, given as header, chunk list and trailer, leaves what the chunks mean |
| Flash.SparseIsStreaming | qedl-job/src/jobs.rs:460-541 | Flashing a sparse image and streaming what it means leave the same disk |
| Flash.OtherTasksWrite | qedl-job/src/jobs.rs:448-460 | A write-zero erase task leaves its sectors zero and no other changed; a task without a file changes nothing |
| Flash.ExecuteTask | qedl-job/src/jobs.rs:448-541 | One task: whatever the outcome, the disk is changed by an effect that is the task's own, whole on success and otherwise some first sectors of it |
| Flash.ExecuteTasks | qedl-job/src/jobs.rs:448-541 | However the loop ends, the disk is the fold of the whole effects of the tasks done and of a part of the next one's; it succeeds exactly when all tasks are runnable and safe and nothing was refused, and panics or hangs exactly at a first task that is unsafe |
| Flash.UnderwayStaysInside | qedl-job/src/jobs.rs:448-541 | However far the tasks came, a sector that none of them spans is unchanged |
| Flash.DiskSizePatch | qedl-job/src/jobs.rs:549-559 | A patch on the disk size carries the sector count after the last listed partition |
| Flash.PartitionEndPatch | qedl-job/src/jobs.rs:549-559 | A patch on the last partition's end carries that end in bytes |
| Flash.ApplyPatches | qedl-job/src/jobs.rs:561-589 | The patch loop applies a definite subset of the patches in order, up to where it panics, and all resolvable ones when nothing is refused; unrefused it panics if and only if some patch is larger than eight bytes or starts past the sector |
| Flash.ExecuteFlash | qedl-job/src/jobs.rs:430-600 | The whole job, with either way of erasing: for every outcome the disk is the tasks' fold, perhaps broken off, then the patches that went through, and a sector neither is for is unchanged; when nothing is refused, both success and panic are characterised exactly, and a panic always has a task or a patch to blame |
| Sparse.ExpandsEncoded | qedl-image/src/sparse.rs:174-244 | An encoded chunk list expands to the concatenation of the chunks' meanings, whatever the ignored header bytes and trailer hold, and never ends exactly when the block size is zero and it holds a non-empty hole |
| Sparse.ExpandedIsEncoded | qedl-image/src/sparse.rs:174-244 | The converse: whatever expands is an encoded chunk list, up to the missing end of a last CRC chunk |
| Sparse.FileHeaderReadsBack | qedl-image/src/sparse.rs:46-88 | Every file header laid out field by field reads back |
| Sparse.ChunkCodes | qedl-image/src/sparse.rs:9-29 | The four chunk codes, and that no other number names a chunk |
| Sparse.FilledByte | qedl-image/src/sparse.rs:247-263 | Each byte a fill chunk expands to, for every block size |
| Sparse.ExpandsFile | qedl-image/src/sparse.rs:144-271 | A whole file from its bytes, header fields laid out one by one, header extension, chunks and trailer, expands to the chunks' meanings, with the panic on an impossible capacity and the hang as the only exceptions |
| Sparse.HangsExactly | qedl-image/src/sparse.rs:223-231 | The loop never ends on exactly the inputs that start with an encoded chunk list holding a non-empty hole while the block size is zero |
| Sparse.FilePanicsExactly | qedl-image/src/sparse.rs:144-251 | Expansion panics exactly when the magic number is there and the header declares less than its own 28 bytes, or more than 2 to the 63rd bytes less one |
| Sparse.HangingFileNeverEnds | qedl-image/src/sparse.rs:223-231 | A concrete file of forty bytes that is never done |
| Sparse.SparseExpander.ForEachChunk | qedl-image/src/sparse.rs:174-244 | The chunk loop, with its reused buffers and block-wise callbacks, appends exactly the expansion to the output |
| Sparse.ExpandToVec | qedl-image/src/sparse.rs:247-271 | The collecting function equals the expansion of the file |
| SaharaUpload.CommandCodes | qedl-core/src/protocol/sahara.rs:24-48 | A number names a command if and only if it is that command's code |
| SaharaUpload.PacketReadsBack | qedl-sahara/src/session.rs:357-410 | Header and body of every request packet, 32-bit and 64-bit, read back as its command, offset and length |
| SaharaUpload.UploadServesRequests | qedl-sahara/src/session.rs:342-482 | For any conversation and fragmentation exactly the requested ranges are written in order up to the first one outside the loader, which writes nothing and is refused, or panics when it wraps; after a transfer the stream stands behind the closing packet |
| SaharaUpload.UnfinishedTransferFails | qedl-sahara/src/session.rs:342-482 | A device that stops asking without ending the transfer gets what it asked for up to the first request the loader cannot serve, and the transfer fails: with that refusal or panic, or for want of the next header |
| SaharaUpload.CutOffRequestFails | qedl-sahara/src/session.rs:342-410 | A request of which only a part arrives ends the upload with the transport's error |
| SaharaUpload.RefusalIsTheFirst | qedl-sahara/src/session.rs:442-467 | A conversation completes if and only if every request fits, and panics if and only if a wrapping request comes before any other that does not fit |
| SaharaUpload.WrappingRequestPanics | qedl-sahara/src/session.rs:381-403 | A concrete well-formed 64-bit request that panics |
| SaharaUpload.CoveringRequestsTransferLoader | qedl-sahara/src/session.rs:342-482 | A device that places each answer where it asked for it holds the loader whenever its requests cover it |
| SaharaTranscript.HelloResponseEchoes | qedl-sahara/src/session.rs:308-340 | All 48 bytes of the answer: code, size, both versions, the command length, the mode asked for, and the device's reserved words back byte for byte |
| SaharaTranscript.FixedPackets | qedl-sahara/src/session.rs:299-585 | The bytes of the completion request, the four mode switches and the two queries |
| SaharaTranscript.HelloReadsBack | qedl-sahara/src/session.rs:512-562 | A Hello laid out word by word reads back as its fields, unknown modes as image transfer |
| SaharaTranscript.LoaderOnlyAfterHello | qedl-sahara/src/session.rs:70-166 | In every admissible transcript loader bytes are a piece of the loader, and come after a valid Hello off the device's bytes and the answer that echoes it |
| SaharaTranscript.DoneRequestIsLast | qedl-sahara/src/session.rs:151-166 | The completion request, with its exact bytes, comes after the transfer ended, at most once, and is the last packet |
| SaharaTranscript.NothingStarted | qedl-sahara/src/session.rs:82-117 | A transcript that ends where it started holds no Hello, and only no-ops, unsolicited answers and mode switches with exactly their own bytes |
| SaharaSteps.GreetsExactlyHello | qedl-sahara/src/session.rs:180-214 | 48 bytes are accepted as a Hello if and only if they start with its code |
| SaharaSteps.NotAHello | qedl-sahara/src/session.rs:180-214 | 48 bytes that start with printable text make the session ready at once, other bytes fail it with their code, and nothing is written |
| SaharaSteps.DoneNeedsNoAnswer | qedl-sahara/src/session.rs:489-508 | The completion request succeeds without an answer and fails only with the transport |
| SaharaSteps.QueryAnswered | qedl-sahara/src/session.rs:574-629 | A device query returns the answer's data, or an error that depends on the answer's code alone, and takes exactly the answer off the stream |
| SaharaSteps.QueriesAnswered | qedl-sahara/src/session.rs:125-141 | Both queries together, for every pair of answers: what is reported, and the panic on a serial number of four to seven bytes |
| SaharaSteps.HandshakeCompletes | qedl-sahara/src/session.rs:70-166 | On a plentiful link the device's bytes decide the handshake, in command mode or not: the answer, the queries, the requested ranges and the completion request are written, nothing else, and the outcome is the device's information, a refusal or a panic |
| SaharaSteps.HandshakePanicsExactly | qedl-sahara/src/session.rs:70-166 | The handshake panics if and only if a Hello arrived and was answered and then the serial number is short, or there is no loader path, or the upload meets a wrapping request |
| SaharaSteps.NoLoaderPanics | qedl-sahara/src/session.rs:143-144 | Every valid Hello from a device that is not in command mode makes a session without a loader panic |
| SaharaSteps.InstancesPanic | qedl-sahara/src/session.rs:70-166 | One concrete wire for each of the two panics of the session itself |
| SaharaRecovery.RecoveryDropsFront | qedl-sahara/src/session.rs:82-117 | The recovery drops fewer than 576 first bytes of the stream, keeps the rest in order, and writes the no-op, an unsolicited response and the mode switch |
| SaharaRecovery.NopDecides | qedl-sahara/src/session.rs:87-98 | An answer to the no-op whose text holds "ACK" makes the session ready; any other ends a session without a loader |
| SaharaRecovery.RecoveryRestarts | qedl-sahara/src/session.rs:82-117 | After the recovery the handshake is the handshake of a session that met no trouble, or fails for want of a Hello |
| SaharaRecovery.RecoveryCompletes | qedl-sahara/src/session.rs:70-166 | The recovery path to its end: the device's bytes decide every write and the outcome, behind the recovery's own packets |
| SaharaRecovery.QuietStartRecovers | qedl-sahara/src/session.rs:82-269 | A device that stays quiet for the first three reads is recovered without the loss of a byte |
| SaharaRecovery.LateHelloArrivesWhole | qedl-sahara/src/session.rs:82-269 | A Hello said once, too late for the first read, is heard after the recovery if and only if no byte of it was dropped |
| SaharaRecovery.SplitHelloIsLost | qedl-sahara/src/session.rs:82-304 | A Hello in two reads with a pause between them makes the handshake fail, or end at once when its second part spells ACK |
| SaharaHandshake.SaharaSession.ReadHello | qedl-sahara/src/session.rs:180-217 | State, chunk size, transcript and wire after reading a Hello, for every outcome |
| SaharaHandshake.SaharaSession.PblHack | qedl-sahara/src/session.rs:223-269 | The recovery's writes and reads, and that it leaves the transcript unopened |
| SaharaHandshake.SaharaSession.ExecCmd | qedl-sahara/src/session.rs:574-629 | A device query's result and wire for every answer, as the function that SaharaSteps.QueryAnswered characterises |
| SaharaHandshake.SaharaSession.UploadLoader | qedl-sahara/src/session.rs:342-440 | The serving loop equals the functional upload and extends the transcript accordingly |
| SaharaHandshake.SaharaSession.Handshake | qedl-sahara/src/session.rs:70-166 | The whole run as a function of the wire, and a transcript in which every packet is genuine; Ok means either state Done with the complete transcript or state WaitingHello with nothing started |
| Lfsr.ClearBitsShiftOut | qedl-storage/src/gpt.rs:34 | Bits above the ones shifted out only move down |
| Lfsr.RegisterIsRemainder | qedl-storage/src/gpt.rs:26-35 | A register after any message is the remainder of polynomial long division |
| Lfsr.BurstsAreSeen | qedl-transport/src/device.rs:28-41 | Messages that differ only in a window no longer than the register leave different registers |
| Lfsr.CrcIsDivision | qedl-storage/src/gpt.rs:25-35 | A checksum is the complemented remainder of the message, leading terms inverted, shifted and divided |
| Lfsr.ShortChangesAreSeen | qedl-transport/src/device.rs:28-41 | Messages that differ only in adjacent bytes no longer than the register have different checksums: two bytes for CRC-16, four for CRC-32 |
| Crc32.PolyIsTheWord | qedl-storage/src/gpt.rs:13 | The generator's coefficients are the word the table is built with |
| Crc32.BuildTable | qedl-storage/src/gpt.rs:5-24 | The nested table loops give every index shifted eight times |
| Crc32.LookupIsEightSteps | qedl-storage/src/gpt.rs:33-35 | One table lookup is eight bit-serial steps, for every register and byte |
| Crc32.Crc32 | qedl-storage/src/gpt.rs:25-31 | The table-driven loop computes the bit-serial checksum of every byte string |
| Diag.PolyIsTheWord | qedl-transport/src/device.rs:34 | The generator's coefficients are the word the loop adds |
| Diag.Crc16Ccitt | qedl-transport/src/device.rs:28-41 | The nested loops compute the bit-serial CRC-16 |
| Diag.SealedChecksum | qedl-transport/src/device.rs:67-69 | A message followed by its own checksum always has checksum 0x0F47, the complement of RFC 1662's good FCS 0xF0B8 |
| Diag.GoodChecksumIsSealed | qedl-transport/src/device.rs:67-69 | Two trailing bytes give that checksum if and only if they are the message's own |
| Diag.HdlcEscape | qedl-transport/src/device.rs:44-60 | The stuffing loop computes the stuffed payload |
| Diag.StuffedByte | qedl-transport/src/device.rs:44-60 | What stuffing makes of each byte |
| Diag.UnescapeEscape | qedl-transport/src/device.rs:44-60 | Unstuffing after RFC 1662 section 4.2 inverts stuffing |
| Diag.NoFlagInside | qedl-transport/src/device.rs:44-60 | No stuffed payload contains the flag byte |
| Diag.DiagFrame | qedl-transport/src/device.rs:63-77 | The builder's frame is flag, stuffed command, payload and checksum, flag |
| Diag.FlagsAtEnds | qedl-transport/src/device.rs:63-77 | A frame starts and ends with 0x7E and holds it nowhere else |
| Diag.FramesSplit | qedl-transport/src/device.rs:63-77 | Any concatenation of frames splits back into exactly the messages framed |
| Diag.FramesInjective | qedl-transport/src/device.rs:63-77 | Different command and payload lists never share a byte stream |
| Diag.DamagedFrameIsRefused | qedl-transport/src/device.rs:63-77 | A frame body changed within two adjacent bytes is refused by a receiver |
| Names.NameReadsBack | qedl-storage/src/gpt.rs:316-323 | Every storable name, surrogate pairs included, decodes from its 72-byte field |
| Names.UnpairedIsReplaced | qedl-storage/src/gpt.rs:316-323 | A surrogate outside a pair becomes U+FFFD and nothing around it is disturbed |
| Names.ZeroUnitEnds | qedl-storage/src/gpt.rs:316-323 | Nothing behind the first zero unit of a name field matters |
| Names.PaddingIsNormal | qedl-storage/src/partition.rs:28-37 | A name that needs no trimming is its own normal form, and padding it with spaces, NULs and spaces does not change that |
| Gpt.HeaderReadsBack | qedl-storage/src/gpt.rs:55-138 | A header laid out after UEFI section 5.3.2 parses to all of its fields |
| Gpt.HeaderNeedsSignature | qedl-storage/src/gpt.rs:55-80 | A header is 128 bytes at least and starts with EFI PART, and nothing else is asked of it before its checksum |
| Gpt.VerifyHeaderCrc | qedl-storage/src/gpt.rs:141-156 | The one-pass loop checks the checksum of the header with bytes 16 to 19 zero, and rejects sizes out of range |
| Gpt.SealedIsAccepted | qedl-storage/src/gpt.rs:141-156 | Every header whose checksum was filled in that way is accepted |
| Gpt.HeaderChangeIsSeen | qedl-storage/src/gpt.rs:55-156 | An accepted header changed within four adjacent bytes is rejected, unless the change touches the size field, straddles the checksum field or lies past the end |
| Gpt.EntryReadsBack | qedl-storage/src/gpt.rs:170-209 | An entry laid out after UEFI section 5.3.3 parses to itself |
| Gpt.EntryNeedsRecord | qedl-storage/src/gpt.rs:170-222 | An entry is 128 bytes at least, and unused exactly when its first sixteen are zero |
| Gpt.ParseEntries | qedl-storage/src/gpt.rs:259-271 | The record loop with its truncation break and error return equals the filter of the whole records |
| Gpt.ParseTable | qedl-storage/src/gpt.rs:246-292 | Header errors, checksum mismatch, entry errors and the table, in that order |
| Gpt.ArrayReadsBack | qedl-storage/src/gpt.rs:259-271 | Data covering a written array parses to its used slots in order |
| Gpt.UsedAreTyped | qedl-storage/src/gpt.rs:259-271 | The used slots are those whose type is not all zeros, each as often as it is there |
| Gpt.UsedInOrder | qedl-storage/src/gpt.rs:259-271 | The used slots keep their order |
| GptLoad.NothingIsCutOff | qedl-job/src/executor.rs:919-932 | Where arithmetic is checked, the sectors read always cover the whole array, so the truncation break never fires; entries below 128 bytes never load |
| GptLoad.WrittenTableLoads | qedl-job/src/executor.rs:890-958 | A disk holding a sealed header loads, from sector 1 or from the backup header, as its used entries, or crashes exactly when the array's size overflows 32 bits or the array is larger than the disk |
| GptLoad.NoTableFound | qedl-job/src/executor.rs:890-958 | Three ways a LUN has no table: no sector 1, no table in sector 1 nor in a known last sector, no entries where the header says |
| GptLoad.LargeArrayCrashes | qedl-job/src/executor.rs:919-921 | A count and size that multiply past 32 bits crash whatever else the disk holds |
| GptLoad.WrappedReadIsShort | qedl-job/src/executor.rs:919-932 | Without overflow checks the sectors read fall short of the array if and only if the product overflows |
| GptLoad.GptLoader.ReadGptForLun | qedl-job/src/executor.rs:890-958 | The read sequence gives the disk's table, and a refused read can only turn it into a failure |
| GptLoad.GptLoader.LoadLun | qedl-job/src/executor.rs:515-548 | One LUN: its table is added and gives an unknown size, or it stops the load, exactly when its own loading crashes or that size does not fit 64 bits |
| GptLoad.GptLoader.LoadGpt | qedl-job/src/executor.rs:492-563 | LUN 0 must load, others are skipped; the map gains exactly the tables found, an unknown size is the first table's backup sector plus one; with nothing refused, the load crashes if and only if some LUN it comes to stops it, and fails if and only if LUN 0 has no table |
| GptLoad.WrittenTableCrashesLoading | qedl-job/src/executor.rs:515-525 | A written table stops the load if and only if its array's size overflows 32 bits, or the array is larger than the disk, or the size is unknown and the backup sector is the last a 64-bit number can name |
| GptLoad.TopDiskStopsLoading | qedl-job/src/executor.rs:517-521 | A concrete disk whose table loads and whose size overflows |
| Partitions.IndexOneMore | qedl-storage/src/partition.rs:28-37 | One more entry keeps every index entry at the first entry with its name |
| Partitions.IndexAgrees | qedl-storage/src/partition.rs:40-45 | The indexed entry is the one a scan of all entries finds first |
| Partitions.PartitionMap.AddTable | qedl-storage/src/partition.rs:28-37 | Adding a table keeps the index invariant and appends exactly the table |
| Partitions.PartitionMap.FindPartition | qedl-storage/src/partition.rs:40-53 | The lookup equals a plain scan: first exact match, failing that the first match after folding case |
| Partitions.LookupFindsFirst | qedl-storage/src/partition.rs:40-53 | What is found, spaces around the name and all: the first exact match of what was asked, failing that the first match of the trimmed name with case folded, and nothing exactly when there is neither |
| Partitions.ExactNameWins | qedl-storage/src/partition.rs:40-53 | An exact name is never hidden by one that differs in case |
| Partitions.PartitionMap.ListEntries | qedl-storage/src/partition.rs:56-58 | The listing is all entries, table by table |
| Partitions.PartitionMap.TotalPartitions | qedl-storage/src/partition.rs:75-77 | The count is the length of the listing |

## Left out

- XML: a response is what a given parser says about the frame's text, and a command's bytes are what a given encoder
  says; rawprogram, patch and task lists are given as values.
- Timeouts, sleeps and scheduling: a timeout is an empty or failed read of the schedule, and asynchronous code runs as
  sequential steps. `flush` does nothing to the stream and is not modelled.
- Reads after the finite schedule are all empty; a loop that would then turn for ever ends with an outcome of its own.
- Arithmetic: numbers are unbounded. Overflow is modelled where a header or a packet can cause it (the GPT array size,
  the disk size, the sparse header and declared size, loader offset and length); sums of sector numbers and the last
  partition's end are taken not to wrap.
- Memory: allocations succeed unless they exceed what a vector may ever ask for.
- Flash.ExecuteFlash: tasks and patches are given as values, and a missing patch file is an empty patch list.
- Jobs.ExecuteDump: does not model creating the parent directory of the output file.
- Gpt.ParseTable: does not model the warning about the entry array's checksum, which changes no result, nor the two
  validity flags, which the parser sets to the same values for primary and backup headers.
- GptLoad.GptLoader.LoadGpt: does not model the memory name text; whether the storage is UFS is given.
- Partitions.PartitionMap.FindPartition: does not model Unicode lower-casing itself, which is a parameter.
- SaharaHandshake.SaharaSession.Handshake: does not model the text of the no-op document, which is a parameter, nor
  the image identifiers, which only cause warnings.
- `configure`, `peek`, `poke`, digests and the draining of initial messages: text scans and field copies.
- `VerifyJob`, `InfoJob`, `GptJob`, `XmlJob`, checksums of files, the command line, events and progress display.
- USB and serial enumeration, mode switching of USB devices and the device state table.
