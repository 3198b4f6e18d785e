# Verified model of the TecPlusRV runtime

A Dafny model of the firmware and host tools of a small RISC-V SoC, with proofs
of what they promise. `dafny verify dfyconfig.toml` checks all of it. The code
that updates state in place is modelled by classes and methods over arrays and
fields, each proved against a function; the theorems are about those functions
and about runs of them.

- **Words, WordBits**: 32-bit words, bytes, bits and little-endian packing.
- **Bam2Format, Packer, PackValidator, FirmwareValidator, AudioEvents, BeatFlag,
  Player, PlaybackClock, Bam2EndToEnd**: the BAM2 video asset. The host encodes frames as
  deltas and merges tones with beats; two validators, in Python and in C, check
  the bytes; the board plays them by an irregularly sampled 16-bit clock. One
  specification, the picture, tone and beats due at a tick, ties them together.
- **GdbPacket, GdbHex, GdbCommands, GdbSession, GdbStub, RspClient**: the GDB
  remote stub and the host client that talks to it (Debugging with GDB,
  sections E.1 and E.2). The byte-fed parser is proved equal to a description of
  the line that does not step through it; commands are proved atomic and
  reversible; a stop is proved to keep the acknowledgement discipline on any
  line.
- **MachineTimer, TrapMachine, TrapRuns, FreeRtosPort**: the FreeRTOS port. Traps
  are steps of a machine in which the scheduler is an arbitrary choice and tasks
  do what they like with their own stack. Isolation, masking and the remembered
  yield are proved over all runs, ticks over all passages of time (RISC-V
  Privileged Architecture, sections 3.1.6.1 and 3.2.1).
- **RtString, RtAlloc**: word-wise memory routines and the bump allocator.
- **Crc32**: the benchmark's CRC, its algebra, its residue, and its exact burst
  bound (RFC 1952, section 8).
- **SuiteResolver**: expansion of test suites with cycle detection, proved to be
  the replacement of references by what they name.

## Assumptions

- Integers are unbounded; every 16-, 32- or 64-bit wrap of the code is written
  out with `%`.
- The debugger's memory is disjoint from the stub's own variables, stack and
  frame. A received byte carries whether the UART had flagged an error before it.
- A stop of the stub serves a finite list of received bytes; the real loop waits
  for more.
- A task's stack pointer stays a word address with room for a frame on its own
  stack, and a task writes only its own stack and memory outside all stacks.
- The kernel (`vTaskSwitchContext`, `xTaskIncrementTick`) chooses any existing
  task and may ask for a switch on any tick. Its own memory traffic is part of
  what tasks do.
- `mtime` never runs backwards, and the interrupt line falls as soon as the
  compare value is moved.
- The linker places the heap with `0 < _heap_start <= _heap_end`.

## What the code does otherwise than expected

- Both BAM2 validators count the changes of the first record but not which words
  they write, while `docs/BAD_APPLE_FUTURE.md:151` asks for all 96 words. An
  accepted asset may therefore show what the screen held before
  (`Bam2EndToEnd.LaxFirstFrame`); exactly when it does not is
  `Bam2EndToEnd.ShowsHostFramesIff`. Encoded assets always write all words.
- `clip_audio_events` on an empty window keeps a tone sounding at its start, a tick
  outside the window (`AudioEvents.EmptyWindowKeepsTone`);
  `AudioEvents.ClipAudioEvents` says exactly when.
- A `-` before the stub has sent anything in a stop makes it send an empty packet
  (`GdbSession.RetryResends`).
- `docs/FREERTOS_PORT_DESIGN.md:138` says that a machine ecall calls
  `vTaskSwitchContext`. The code does so only if interrupts were on; otherwise it
  leaves the yield pending (`TrapRuns.MaskedYieldIsRemembered`).
- `bump_alloc` with an alignment so large that rounding passes the top of the
  address space can return null and yet move the cursor out of the heap
  (`RtAlloc.LostHeap`; `RtAlloc.HonestIff` gives the exact condition). With the
  heap in SDRAM, as `firmware/linker.ld:101-106` puts it, only an alignment of
  2 GiB does this (`RtAlloc.SdramWrapsIff`).

## Model

| member | source | states |
|---|---|---|
| `Words.UnpackPack` | scripts/make_bad_apple_full_asset.py:455-460 | words written with `struct.pack` are read back by `struct.unpack` |
| `Words.PackUnpack` | scripts/make_bad_apple_full_asset.py:455-460 | a file of whole words is the packing of the words read from it |
| `Words.LowByteFirst` | scripts/make_bad_apple_full_asset.py:450-450 | each word lies in the file as four bytes, low one first |
| `Bam2Format.SerializeParts` | scripts/make_bad_apple_full_asset.py:440-450 | header, video stream and audio stream lie in the words of an asset where its header says |
| `Bam2Format.ParsedIsSerialized` | firmware/apps/freertos/bad_apple_full.c:194-216 | a walk over the video stream that meets no fault has read exactly the serialization of the records it parsed, all within limits |
| `Bam2Format.SerializedIsParsed` | firmware/apps/freertos/bad_apple_full.c:194-216 | a serialized stream of acceptable records is walked without a fault and parsed to those records |
| `Bam2Format.FaultIff` | firmware/apps/freertos/bad_apple_full.c:194-216 | the walk complains of a fault if and only if, behind records that are all good, the next one has that fault and none of those looked for before it |
| `Bam2Format.ApplyLast` | firmware/apps/freertos/bad_apple_full.c:382-390 | of several changes of one bitmap word the last counts |
| `Bam2Format.ApplyForgetsIff` | firmware/apps/freertos/bad_apple_full.c:382-390 | a record leads every screen to the same picture if and only if it writes every bitmap word |
| `Bam2Format.ScreenIndependentIff` | firmware/apps/freertos/bad_apple_full.c:368-392 | what is shown does not depend on the screen before the round if and only if the first record writes every word |
| `Packer.ApplyDiff` | scripts/make_bad_apple_full_asset.py:432-437 | applying the changed words to the previous frame gives the current frame |
| `Packer.DiffIsMinimal` | scripts/make_bad_apple_full_asset.py:432-434 | a delta names, in index order, exactly the words that differ from the previous frame |
| `Packer.DiffIsShortest` | scripts/make_bad_apple_full_asset.py:432-434 | no record that turns the previous frame into the current one is shorter than the delta |
| `Packer.EncodedFrames` | scripts/make_bad_apple_full_asset.py:424-439 | played from any screen, the deltas show exactly the source frames |
| `Packer.PackableIff` | scripts/make_bad_apple_full_asset.py:449-450 | `struct.pack` takes the words of an asset if and only if every frame word, tick, tone and the duration is a 32-bit word |
| `Packer.EncodeAsset` | scripts/make_bad_apple_full_asset.py:424-450 | which of the three errors is raised and when; otherwise the bytes are the packing of header, deltas and events |
| `Packer.FileHead` | scripts/make_bad_apple_full_asset.py:440-450 | a file begins with the letters BAM2, and its 12 header words are the version, the size, the counts, the offsets and the flag, in this order |
| `PackValidator.AcceptsIff` | scripts/make_bad_apple_full_asset.py:453-503 | the host accepts exactly the packed serializations of assets within its limits |
| `PackValidator.ReadsBackIff` | scripts/make_bad_apple_full_asset.py:424-503 | an encoded file is accepted if and only if its ticks strictly increase below the duration, and then as the asset that was encoded |
| `PackValidator.RoundTrip` | scripts/make_bad_apple_full_asset.py:424-503 | encode then validate reports the very frames, events, duration and flags |
| `PackValidator.ComplaintsTell` | scripts/make_bad_apple_full_asset.py:453-503 | what the host raises tells the first thing wrong with the file: its length, its header by groups of fields, its records in their order, its audio list |
| `PackValidator.UnwrittenIsDark` | scripts/make_bad_apple_full_asset.py:472-489 | in the frames reported a word is dark until a record writes it |
| `PackValidator.TicksAgree` | firmware/apps/freertos/bad_apple_full.c:217-223 | checking every tick against the duration, as the firmware does, and only the last, as the host does, is the same for increasing ticks |
| `PackValidator.HostToFirmware` | firmware/apps/freertos/bad_apple_full.c:158-225 | of a host-accepted file the firmware refuses exactly those with an out-of-range duration, no frames, too many changes in a record, or more than 16 MiB |
| `PackValidator.FirmwareToHost` | scripts/make_bad_apple_full_asset.py:453-503 | a firmware-accepted file is host-accepted if and only if beat markers come with the header flag |
| `PackValidator.ValidateAsset` | scripts/make_bad_apple_full_asset.py:453-503 | the host validator, loop by loop, raises the first failing check or reports the decoded asset |
| `FirmwareValidator.FaultlessIsImage` | firmware/apps/freertos/bad_apple_full.c:158-225 | whatever the memory holds, acceptance means that it begins with the serialization of an acceptable asset of the declared size |
| `FirmwareValidator.CodesTell` | firmware/apps/freertos/bad_apple_full.c:164-223 | the code of a refusal tells the first thing wrong in memory: 0xba01 signature, 0xba02 size, 0xba03 header, 0xba04 to 0xba07 the first bad record, 0xba08 a tick |
| `FirmwareValidator.InfoTells` | firmware/apps/freertos/bad_apple_full.c:175-184 | the offsets, counts, duration and flags kept for playback are those of the asset |
| `FirmwareValidator.ImageIsFaultless` | firmware/apps/freertos/bad_apple_full.c:158-225 | every acceptable asset is accepted, whatever follows it in memory |
| `FirmwareValidator.AcceptsIff` | firmware/apps/freertos/bad_apple_full.c:158-225 | the firmware accepts exactly the memories that begin with an acceptable asset |
| `FirmwareValidator.ValidateAsset` | firmware/apps/freertos/bad_apple_full.c:158-225 | on arbitrary contents the validator ends, reads only declared words, and returns the code of the first failing check or the header data |
| `AudioEvents.ClipAudioEvents` | scripts/make_bad_apple_full_asset.py:381-395 | at every time of the window the clipped list has the original value, ticks strictly increase, no value is listed twice running, and ticks stay in the window if and only if it is nonempty or silent at its start |
| `BeatFlag.FlagIsTopBit` | scripts/make_bad_apple_full_asset.py:189-190 | the beat flag of a 32-bit value is its bit 31, and masking it leaves the other bits |
| `AudioEvents.EventMapLast` | scripts/make_bad_apple_full_asset.py:182-182 | of several events at one tick the last counts in a merge |
| `AudioEvents.EmptyWindowKeepsTone` | scripts/make_bad_apple_full_asset.py:381-395 | a window of no length that opens on a sounding tone keeps it, outside the window |
| `AudioEvents.ClipBeatTicks` | scripts/make_bad_apple_full_asset.py:173-176 | exactly the beats of the window, counted from its start |
| `AudioEvents.ClipBeatsInOrder` | scripts/make_bad_apple_full_asset.py:173-176 | beats keep their order and number: a list is clipped part by part |
| `AudioEvents.MergeAudioBeats` | scripts/make_bad_apple_full_asset.py:179-192 | one entry for each distinct tick, in order, with the tone carried to it and its beat flag |
| `AudioEvents.MergeIsStrict` | scripts/make_bad_apple_full_asset.py:179-192 | merged ticks strictly increase |
| `AudioEvents.MergeKeepsHz` | scripts/make_bad_apple_full_asset.py:179-192 | merging changes the tone at no time |
| `AudioEvents.MergeBeats` | scripts/make_bad_apple_full_asset.py:179-192 | a time carries the beat flag after merging if and only if it is a beat |
| `AudioEvents.ClipAndMerge` | scripts/make_bad_apple_full_asset.py:674-676 | clipping both lists and merging is the time shift of the original tones and beats |
| `Player.ValidIsPlayable` | firmware/apps/freertos/bad_apple_full.c:368-411 | an accepted asset passes every check the player repeats on video records and audio ticks, and no cursor leaves its stream or overflows |
| `Player.LastToneIsCurrent` | firmware/apps/freertos/bad_apple_full.c:415-420 | the tone last queued is the tone the player takes to be sounding |
| `Player.TonesAreChanges` | firmware/apps/freertos/bad_apple_full.c:415-420 | the queue is never sent the tone it was sent last, nor silence first |
| `Player.TonesExtend` | firmware/apps/freertos/bad_apple_full.c:415-420 | each event sends at most one tone, behind those sent before |
| `Player.RunsIff` | firmware/apps/freertos/bad_apple_full.c:393-423 | the audio loop ends without a failure if and only if every due tone is at most 5000 Hz and fits the queue |
| `Player.Player.ApplyRecord` | firmware/apps/freertos/bad_apple_full.c:382-390 | one record written into the framebuffer, its index check never failing |
| `Player.Player.CatchUpVideo` | firmware/apps/freertos/bad_apple_full.c:368-392 | the framebuffer and cursor are those after all frames due, however many were missed |
| `Player.Player.PlayEvent` | firmware/apps/freertos/bad_apple_full.c:406-422 | notification, queue, current tone and cursors after one event; a full queue is noticed after the notification |
| `Player.Player.CatchUpAudio` | firmware/apps/freertos/bad_apple_full.c:393-423 | the due events are played in order, and why the loop stopped is told |
| `Player.Player.CatchUp` | firmware/apps/freertos/bad_apple_full.c:368-423 | after an iteration at a sampled time, picture, tone, queue and notifications are those of the latest time sampled; it goes on if and only if the due tones are in range and fit, and else has stopped at the first due event whose tone does not, with the failure that names why |
| `PlaybackClock.Clock.Elapsed` | firmware/apps/freertos/bad_apple_full.c:124-127 | the 16-bit difference agrees modulo 65536 with real ticks since the round began less the ticks paused, through every wrap |
| `PlaybackClock.Clock.Pause` | firmware/apps/freertos/bad_apple_full.c:352-366 | a pause of any length leaves the play position where it was |
| `PlaybackClock.FinishedIff` | firmware/apps/freertos/bad_apple_full.c:435-438 | all streams are at their ends if and only if the last due tick has been sampled |
| `PlaybackClock.RunPass` | firmware/apps/freertos/bad_apple_full.c:350-434 | a pass is over exactly if the position at its guard has reached the duration, and then does nothing; otherwise the clock is paused by its pause, the largest position is raised to the one after it, and the pass goes on if and only if the due tones are in range and fit |
| `PlaybackClock.PeakIsPlayed` | firmware/apps/freertos/bad_apple_full.c:350-366 | below 65536 ticks the largest position is the time played by the last sample: real time since the round began, less the pauses |
| `PlaybackClock.PlayRound` | firmware/apps/freertos/bad_apple_full.c:350-438 | over any passes, the number run and the end of the round are those that asset and passes determine, and player and clock are left as those passes leave them; a round fails only at a due tone that is out of range or finds the queue full, so never with tones in range and room |
| `PlaybackClock.RoundDetermined` | firmware/apps/freertos/bad_apple_full.c:350-438 | that leaves no choice of the number of passes or of the end |
| `PlaybackClock.PassedIff` | firmware/apps/freertos/bad_apple_full.c:435-438 | a round played to its end passes the final check if and only if the time played by its last sample had reached the last due tick |
| `Bam2EndToEnd.EncodedIsAcceptable` | scripts/make_bad_apple_full_asset.py:424-450 | encoded assets of nonempty frames, ticks increasing below any duration from 1 to 0x7fff, and at most 16 MiB satisfy both validators |
| `Bam2EndToEnd.BuildAsset` | scripts/make_bad_apple_full_asset.py:672-678 | clip, merge, encode and validate gives bytes both validators accept, with the source tones and beats at every time |
| `Bam2EndToEnd.PlayerShowsSource` | firmware/apps/freertos/bad_apple_full.c:350-423 | at the largest sample `t`, however late and for any duration, the board shows the source frame `min(t/6, n-1)`, plays the source tone of `t`, or of the window's last time once it is over, and has given one notification for each source beat up to then |
| `Bam2EndToEnd.FlagTellsBeats` | scripts/make_bad_apple_full_asset.py:443-444 | the header flag of an asset is set if and only if there is a beat in the source window |
| `Bam2EndToEnd.PlayerShowsEncoded` | firmware/apps/freertos/bad_apple_full.c:350-423 | the same against the encoded events, with no bound on the sample |
| `Bam2EndToEnd.ShowOnBoard` | firmware/apps/freertos/bad_apple_full.c:328-438 | the whole way from source frames, tones and beats to a round on the board: host and firmware accept the bytes built; exactly the passes that asset and passes determine are run; after them, whatever the screen held, picture, tone and beats are the source's at the time played by the last sample; with tones in range no `runtime_fail` is reached, and with room in the queue no failure at all |
| `Bam2EndToEnd.BeatsGiven` | firmware/apps/freertos/bad_apple_full.c:412-414 | notifications given equal the source beats up to the time sampled, all of them once the window is over |
| `Bam2EndToEnd.ShowsHostFramesIff` | scripts/make_bad_apple_full_asset.py:470-486 | the board shows the pictures the host decoded from every screen if and only if the first record writes every word |
| `Bam2EndToEnd.LaxFirstFrame` | scripts/make_bad_apple_full_asset.py:476-477 | both validators accept a first record of 96 changes to one word, which does not do that |
| `GdbPacket.PacketParser.Feed` | firmware/gdb/gdb_packet.c:31-86 | one byte moves the parser struct and buffer as the transition function says |
| `GdbPacket.StreamMeaning` | firmware/gdb/gdb_packet.c:22-86 | after the last `$` state, buffer and events depend only on the bytes that followed it |
| `GdbPacket.ReadyIff` | firmware/gdb/gdb_packet.c:31-86 | a byte completes a packet if and only if the bytes since the last `$` are a payload that fits without `#`, `#`, and its checksum in two hex digits; the buffer then holds that payload |
| `GdbPacket.EndsBoundedByStarts` | firmware/gdb/gdb_packet.c:22-86 | each `$` yields at most one completion, checksum error or overflow |
| `GdbPacket.DeliveredIff` | firmware/gdb/gdb_stub.c:49-63 | a framed payload is delivered whole, from any parser state, if and only if it has no `$` or `#` and fits 512 bytes |
| `GdbPacket.ChecksumOfOne` | firmware/gdb/gdb_stub.c:49-63 | the checksum of one byte is the byte |
| `GdbPacket.ChecksumAdds` | firmware/gdb/gdb_stub.c:49-63 | and checksums add up modulo 256 |
| `GdbHex.HexOfUnhex` | firmware/gdb/gdb_packet.c:88-97 | digits decoded to bytes and written again are the same digits in lower case |
| `GdbHex.DigitsRead` | firmware/gdb/gdb_packet.c:88-97 | a byte is read as a digit if and only if it is one of 0 to 9, a to f or A to F, with its value |
| `GdbHex.BytesAreWritten` | firmware/gdb/gdb_packet.c:119-128 | a byte is written with the digits 0 to 9 and a to f, high digit first, and read as a number is itself |
| `GdbHex.HighDigitFirst` | firmware/gdb/gdb_packet.c:99-117 | the first digit of a number counts 16 to the number of those behind it |
| `GdbHex.HexOfAt` | firmware/gdb/gdb_stub.c:195-200 | each byte of a memory reply stands in its two digits at its place |
| `GdbHex.RegisterAsMemory` | firmware/gdb/gdb_packet.c:119-129 | a register is written as its bytes lie in memory, low byte first |
| `GdbHex.UnhexHexLe` | firmware/gdb/gdb_packet.c:119-149 | a word encoded little-endian is decoded to itself |
| `GdbHex.HexUnhexLe` | firmware/gdb/gdb_packet.c:119-149 | eight digits decoded and encoded are themselves in lower case |
| `GdbHex.EncodeU32Le` | firmware/gdb/gdb_packet.c:119-129 | the encoding loop writes the eight digits and the terminator |
| `GdbHex.DecodeU32Le` | firmware/gdb/gdb_packet.c:131-149 | the decoding loop succeeds exactly on eight hex digits, with their little-endian value |
| `GdbHex.ParseHexU32` | firmware/gdb/gdb_packet.c:99-117 | succeeds exactly on one to eight digits, with their value: no shift loses a digit |
| `GdbCommands.AllowedIff` | firmware/gdb/gdb_stub.c:147-159 | the unsigned range test holds if and only if the range is nonempty and lies byte by byte inside BRAM or SDRAM, without wrap |
| `GdbCommands.HeaderIff` | firmware/gdb/gdb_stub.c:161-181 | a payload has a memory header if and only if it is a letter, one to eight hex digits, a comma, one to eight hex digits, and then nothing or a colon and data |
| `GdbCommands.HeaderIs` | firmware/gdb/gdb_stub.c:161-181 | the first number is the address, the second the length, and the data begins behind the colon |
| `GdbCommands.ReadTold` | firmware/gdb/gdb_stub.c:183-204 | `mADDR,LENGTH` answers the digits of LENGTH bytes from ADDR on, or E01 if there are none, more than 256 or any outside the windows |
| `GdbCommands.WriteTold` | firmware/gdb/gdb_stub.c:206-236 | `MADDR,LENGTH:DATA` puts the bytes of DATA at ADDR and changes nothing else; with a bad range, wrong data length or a non-digit it answers E01 and changes nothing |
| `GdbCommands.MemoryKept` | firmware/gdb/gdb_stub.c:256-294 | a packet other than a served `M` changes no memory byte |
| `GdbCommands.MemoryWritten` | firmware/gdb/gdb_stub.c:206-236 | a served `M` changes exactly the bytes it names, to the bytes its digits stand for |
| `GdbCommands.RegistersAtomic` | firmware/gdb/gdb_stub.c:124-145 | a well-formed `G` sets x1 to x31 and pc to the words it carries and x0 to zero; any other packet leaves all registers, and pc unless it resumes, and a malformed `G` changes nothing |
| `GdbCommands.RegistersTold` | firmware/gdb/gdb_stub.c:124-145 | in a `G` each register has the eight digits at its place, and pc the last eight |
| `GdbCommands.RegistersListed` | firmware/gdb/gdb_stub.c:105-122 | a `g` lists each register in the eight digits at its place, x0 as zeros and pc last |
| `GdbCommands.MemoryReadsBack` | firmware/gdb/gdb_stub.c:183-236 | an `m` after an accepted `M` answers the digits sent, in lower case |
| `GdbCommands.RegistersReadBack` | firmware/gdb/gdb_stub.c:105-145 | a `g` after an accepted `G` answers zeros for x0 and then the digits sent, in lower case |
| `GdbCommands.StaysValid` | firmware/gdb/gdb_stub.c:256-294 | every packet leaves the target in order, and x0 zero if it was |
| `GdbCommands.FlagKept` | firmware/gdb/gdb_stub.c:124-145 | one packet that does not resume keeps the resume flag equal to whether pc has left the stop |
| `GdbCommands.FlagKeptOverRun` | firmware/gdb/gdb_stub.c:256-294 | so does every sequence of commands within a stop |
| `GdbCommands.ResumeLands` | firmware/gdb/gdb_stub.c:238-254 | after any list of payloads, a plain `c` steps over the breakpoint exactly when the pc is where it stopped and the cause was a breakpoint; `cADDR` lands only at an aligned BRAM address |
| `GdbCommands.ReplyIsDeliverable` | firmware/gdb/gdb_stub.c:256-294 | every reply fits 512 bytes and needs no escaping |
| `GdbCommands.StopReplyIs` | firmware/gdb/gdb_stub.c:86-103 | the stop reply is S and the signal number in two hex digits: 4 for an illegal instruction, 11 for the access and alignment faults, 5 for everything else |
| `GdbCommands.FixedAnswers` | firmware/gdb/gdb_stub.c:256-271 | each fixed query and `?` is answered by its text alone, and changes nothing |
| `GdbCommands.AnnouncedSize` | firmware/gdb/gdb_stub.c:260-261 | the packet size announced is the capacity of the buffer |
| `GdbCommands.UnknownIsEmpty` | firmware/gdb/gdb_stub.c:289-292 | a request that begins like no known one draws an empty packet and changes nothing |
| `GdbCommands.TextIff` | firmware/gdb/gdb_stub.c:23-38 | a text is recognised if and only if the payload is that text, or that text and a NUL |
| `GdbSession.ServeFrame` | firmware/gdb/gdb_stub.c:318-323 | a framed payload draws `+` and exactly the chosen reply, or only `+` when it resumes |
| `GdbSession.ServeOversize` | firmware/gdb/gdb_stub.c:318-326 | a payload over 512 bytes draws one `-` and touches nothing |
| `GdbSession.ServeSpoiled` | firmware/gdb/gdb_stub.c:324-326 | a frame with wrong check digits, or with something else in their place, draws one `-` and touches nothing |
| `GdbSession.ErrorForgets` | firmware/gdb/gdb_stub.c:313-316 | after a receive error the stub sends `-` and takes the byte as at the start of the line |
| `GdbSession.ServeTally` | firmware/gdb/gdb_stub.c:296-331 | over any received bytes: one `+` a complete frame, one `-` a spoiled frame or receive error, one packet a frame or retry but none for the resuming frame |
| `GdbSession.RenderIsReadable` | firmware/gdb/gdb_stub.c:49-84 | the bytes sent in a stop can be read back as the tokens chosen |
| `GdbSession.ServeDeliverable` | firmware/gdb/gdb_stub.c:65-84 | every packet of a stop fits 512 bytes and has no `$` or `#` |
| `GdbSession.RetryResends` | firmware/gdb/gdb_stub.c:81-84 | a `-` between packets sends the last packet of the stop again, or an empty one if there was none |
| `GdbSession.StopIsTold` | firmware/gdb/gdb_stub.c:302-308 | an attached host reads exactly one packet with the signal of the cause and then the answers, an unattached one the answers alone |
| `GdbSession.SignalIsResent` | firmware/gdb/gdb_stub.c:327-328 | a `-` before any other packet draws that signal again, or an empty packet for an unattached host |
| `GdbSession.StopLands` | firmware/gdb/gdb_stub.c:296-331 | over the received bytes of a whole stop: until a continue is accepted the flag tracks the pc, and then execution resumes where the payload just completed says |
| `GdbSession.AttachesIff` | firmware/gdb/gdb_stub.c:319-321 | a host attaches in a stop if and only if the stop acknowledges a frame |
| `GdbStub.Stub.SendPacketBytes` | firmware/gdb/gdb_stub.c:49-63 | the framing loop appends exactly the frame of the payload |
| `GdbStub.Stub.EncodeRegisters` | firmware/gdb/gdb_stub.c:105-122 | the reply buffer holds the register list in hex |
| `GdbStub.Stub.DecodeRegisters` | firmware/gdb/gdb_stub.c:124-145 | all registers are written or none |
| `GdbStub.Stub.ReadMemoryReply` | firmware/gdb/gdb_stub.c:183-204 | the reply to `m`, or a refusal that changes nothing |
| `GdbStub.Stub.WriteMemoryBytes` | firmware/gdb/gdb_stub.c:206-236 | digits are all checked before the first byte is written |
| `GdbStub.Stub.ContinueTarget` | firmware/gdb/gdb_stub.c:238-254 | the pc to resume at |
| `GdbStub.Stub.DispatchPacket` | firmware/gdb/gdb_stub.c:256-294 | the dispatcher is the command function |
| `GdbStub.Stub.ReceiveByte` | firmware/gdb/gdb_stub.c:310-330 | one turn of the loop is one turn of the session |
| `GdbStub.Stub.TrapDispatch` | firmware/gdb/gdb_stub.c:296-331 | a stop sends the frame of its signal if a host is attached, then what the session function says, and leaves what that says; a host that got a packet through is attached from then on; a pending interrupt is left alone |
| `RspClient.ReadsFrame` | scripts/gdb_stub_probe.py:46-79 | a frame on the line is read as its payload, whatever follows |
| `RspClient.ReturnedIff` | scripts/gdb_stub_probe.py:46-79 | a payload is returned if and only if the line begins with its frame, it is ASCII and the check is its checksum; `+` answers exactly such a check, `-` exactly any other or a payload over 512 bytes |
| `RspClient.ReadingIs` | scripts/gdb_stub_probe.py:46-79 | each outcome of the reply reader, its answer and how much it reads, told by what stands on the line |
| `RspClient.Client.ReadReply` | scripts/gdb_stub_probe.py:46-79 | the reply reader, loop by loop, against the reading function, errors included |
| `RspClient.RequestSent` | scripts/gdb_stub_probe.py:81-91 | a request on a quiet line leaves `+` and the reply the stub chose |
| `RspClient.Client.Exchange` | scripts/gdb_stub_probe.py:81-91 | on a noise-free line `exchange` of a request that does not resume returns exactly the reply the stub chose, and the line is quiet again; on any line it sends the request at most three times, and three times before it gives up |
| `MachineTimer.Now` | firmware/drivers/machine_timer.c:5-18 | the retry loop ends, returns the 64-bit time at its last low read, and retries only while a carry falls into the round |
| `MachineTimer.OneHighReadIsNotEnough` | firmware/drivers/machine_timer.c:11-15 | a single high read can give a time that never was |
| `MachineTimer.NoFalseInterrupt` | firmware/drivers/machine_timer.c:20-26 | no intermediate compare value is pending unless the old or the new one is |
| `MachineTimer.TwoWritesCanMisfire` | firmware/drivers/machine_timer.c:22-25 | low half first without the all-ones write can raise a false interrupt |
| `MachineTimer.CompareRegister.SetCompare` | firmware/drivers/machine_timer.c:20-26 | the register ends at the value, through exactly the three steps |
| `MachineTimer.NoDrift` | firmware/freertos/port.c:86-88 | over any run the compare value is `t0 + (n+1)c` after `n` ticks, each served no earlier than due |
| `MachineTimer.ServedIsElapsed` | firmware/freertos/port.c:108-111 | nothing is pending if and only if exactly `(mtime-t0)/c` ticks have been served |
| `MachineTimer.BacklogClears` | firmware/freertos/port.c:86-88 | served back to back, missed ticks are pending one after the other until exactly the due ones are served |
| `TrapMachine.EnteredHolds` | firmware/freertos/port.c:73-98 | push and dispatch leave the context in a frame on the interrupted stack, nothing else in memory changed, and the kernel variables as the cause demands |
| `TrapMachine.OtherCausesAreFatal` | firmware/freertos/port.c:92-93 | the dispatcher returns no frame if and only if the cause is neither an ecall nor the timer |
| `TrapMachine.Resumes` | firmware/runtime/trap_entry.S:66-103 | the frame returned restores exactly the context of the task it belongs to |
| `TrapMachine.TrapKeeps` | firmware/freertos/port.c:73-98 | a trap under any scheduler keeps the machine invariant |
| `TrapRuns.FreshSuspended` | firmware/freertos/port.c:28-52 | a new frame makes a suspended task of its context |
| `TrapRuns.StepKeeps` | firmware/freertos/port.c:54-98 | every step, of tasks, traps, task creation and interrupted enable calls, keeps the invariant |
| `TrapRuns.SchedulerStarts` | firmware/freertos/port.c:100-118 | restoring the chosen task establishes the invariant |
| `TrapRuns.ResumedExactly` | firmware/runtime/trap_entry.S:66-103 | however long a task is away, it resumes with the context and the whole stack it left |
| `TrapRuns.TrapIsInvisible` | firmware/freertos/port.c:73-98 | after a trap that switched away and any run, a task gets back its registers, interrupt state, stack from the stack pointer up, and pc (after the ecall, or where the timer struck) |
| `TrapRuns.TrapReturns` | firmware/freertos/port.c:73-98 | a trap that does not switch returns with the same registers, interrupt state and pc |
| `TrapRuns.FreshTaskStarts` | firmware/freertos/port.c:28-52 | a new task first runs at its entry with its argument, a 16-aligned stack top just below `pxTopOfStack`, and interrupts on |
| `TrapRuns.OnlyTheRunningTaskIsMasked` | firmware/freertos/port.c:73-98 | in every reachable state each task but the running one has MPIE set in its frame |
| `TrapRuns.MaskedTaskKeepsRunning` | firmware/freertos/portmacro.h:31-56 | no step switches away from a task that has interrupts off |
| `TrapRuns.MaskedSectionIsAtomic` | firmware/freertos/portmacro.h:31-56 | over any run in which nothing turns interrupts on, the same task runs and stays masked |
| `TrapRuns.MaskPairRestores` | firmware/freertos/portmacro.h:31-46 | masking, any masked section and giving the mask back leaves the same task running with interrupts as it had them |
| `TrapRuns.YieldStaysPending` | firmware/freertos/port.c:59-71 | a remembered yield stays remembered over any run until a task clears it |
| `TrapRuns.NoSilentReturn` | firmware/freertos/port.c:64-71 | an enable call begun with a yield pending cannot return before some task has cleared it for its ecall, even if interrupted anywhere |
| `TrapRuns.MaskedYieldIsRemembered` | firmware/freertos/port.c:78-85 | an ecall with interrupts off switches nothing and is remembered |
| `TrapRuns.HandoverSwitches` | firmware/freertos/port.c:67-70 | the ecall after a cleared flag always reaches the scheduler |
| `TrapRuns.ClearedBecomesSwitched` | firmware/freertos/port.c:64-71 | over any run, flags a task cleared equal its scheduler calls from there, up to one still to come |
| `TrapRuns.CompareCountsTicks` | firmware/freertos/port.c:86-88 | only timer traps move the compare value, each by one tick, whatever tasks do |
| `FreeRtosPort.Port.InitialiseStack` | firmware/freertos/port.c:28-52 | memory holds the new frame and is otherwise unchanged |
| `FreeRtosPort.Port.PushFrame` | firmware/runtime/trap_entry.S:9-60 | memory holds the pushed frame below the stack pointer |
| `FreeRtosPort.Port.PopFrame` | firmware/runtime/trap_entry.S:66-103 | the processor is what the frame says |
| `FreeRtosPort.Port.TrapDispatch` | firmware/freertos/port.c:73-98 | the dispatcher, depth counting included, is the dispatch function; a timer trap writes the compare register |
| `FreeRtosPort.Port.TakeTrap` | firmware/freertos/port.c:73-98 | a whole trap in place is the machine's trap |
| `FreeRtosPort.Port.EnableInterrupts` | firmware/freertos/port.c:64-71 | outside a trap, the run of its steps, ending with nothing pending and one scheduler call exactly if a yield was pending; inside a trap, interrupts on and nothing else |
| `FreeRtosPort.Port.RequestYield` | firmware/freertos/port.c:59-62 | sets the flag; from a task, a step of the machine's runs |
| `FreeRtosPort.Port.SetInterruptMask` | firmware/freertos/portmacro.h:31-39 | masks interrupts and tells whether they were on; from a task, a step of the machine's runs |
| `FreeRtosPort.Port.ClearInterruptMask` | firmware/freertos/portmacro.h:41-46 | turns interrupts on if the mask told of them; from a task, a step of the machine's runs |
| `FreeRtosPort.Port.StartScheduler` | firmware/freertos/port.c:100-118 | the chosen task runs, the invariant holds and the first tick is set |
| `RtString.MemCpy` | firmware/runtime/rt_string.c:5-27 | for disjoint ranges of any alignment, memory with the source bytes at the destination and nothing else changed, words moved only at aligned addresses |
| `RtString.MemSet` | firmware/runtime/rt_string.c:29-52 | the low byte of the value throughout the range and nothing else changed |
| `RtString.FillWordBytes` | firmware/runtime/rt_string.c:33-36 | the word built by two shift-and-or steps is the byte four times |
| `RtString.MemMove` | firmware/runtime/rt_string.c:54-77 | the bytes that were at the source, for every overlap |
| `RtString.UpwardsSmears` | firmware/runtime/rt_string.c:64-69 | what an upward copy would leave where the destination lies above the source: its first bytes repeated |
| `WordBits.MaskIsRemainder` | firmware/runtime/rt_alloc.c:36-38 | masking with a power of two less one is the remainder |
| `WordBits.OrIsSum` | firmware/runtime/rt_string.c:35-36 | or-ing a number with one shifted clear of it adds them |
| `RtAlloc.WrapsToNull` | firmware/runtime/rt_alloc.c:36-42 | aligning in 32 bits gives the rounded cursor, or null exactly when rounding passes the address space |
| `RtAlloc.RefusedIff` | firmware/runtime/rt_alloc.c:36-56 | unless aligning wraps, a block is refused if and only if the aligned request does not fit |
| `RtAlloc.HonestIff` | firmware/runtime/rt_alloc.c:36-56 | a call returns an aligned fresh block or refuses without effect, except exactly when aligning wraps, the size is at most the end address and differs from the cursor |
| `RtAlloc.LostHeap` | firmware/runtime/rt_alloc.c:36-56 | a 2 GiB alignment from a heap at the bottom of SDRAM returns null and moves the cursor to 16 |
| `RtAlloc.SdramWrapsIff` | firmware/linker.ld:101-106 | in SDRAM aligning wraps if and only if the alignment is 2 GiB and the cursor is not the first address |
| `RtAlloc.SdramHonestIff` | firmware/runtime/rt_alloc.c:36-56 | so a call from a heap in SDRAM goes wrong exactly then, for a size at most the end address and other than the cursor |
| `RtAlloc.EveryCallIsHonest` | firmware/runtime/rt_alloc.c:20-56 | over any call sequence with small alignments |
| `RtAlloc.BlocksAreDisjoint` | firmware/runtime/rt_alloc.c:20-56 | no two blocks of a sequence overlap |
| `RtAlloc.UsedAddsUp` | firmware/runtime/rt_alloc.c:58-64 | heap in use is the blocks and their padding |
| `RtAlloc.Heap.HeapInit` | firmware/runtime/rt_alloc.c:15-18 | the cursor is back at the start |
| `RtAlloc.Heap.BumpAlloc` | firmware/runtime/rt_alloc.c:20-56 | the call is the next of the sequence, lazy initialisation included |
| `RtAlloc.Heap.HeapUsed` | firmware/runtime/rt_alloc.c:58-64 | the pointer difference, and the blocks and padding of the calls so far while none of them wrapped |
| `Crc32.UpdateByte` | firmware/apps/baremetal/benchmarks/crc32_bench.c:23-36 | the bit loop on words is eight steps on bits |
| `Crc32.RunCrc32` | firmware/apps/baremetal/benchmarks/crc32_bench.c:38-47 | the byte loop computes the CRC, for any length, all ones at the start and inverted at the end |
| `Crc32.StepIsLinear` | firmware/apps/baremetal/benchmarks/crc32_bench.c:28-34 | one step is linear over exclusive or |
| `Crc32.StepInverts` | firmware/apps/baremetal/benchmarks/crc32_bench.c:28-34 | one step has an explicit inverse, on both sides |
| `Crc32.TableForm` | firmware/apps/baremetal/benchmarks/crc32_bench.c:23-36 | the table form of RFC 1952 section 8, one lookup a byte |
| `Crc32.FeedWindow` | firmware/apps/baremetal/benchmarks/crc32_bench.c:23-36 | up to 32 bits may be put in at once, ahead of their steps |
| `Crc32.BytesAreBits` | firmware/apps/baremetal/benchmarks/crc32_bench.c:23-47 | the byte loop is the bit loop, low bits first |
| `Crc32.FourBytes` | firmware/apps/baremetal/benchmarks/crc32_bench.c:38-47 | four bytes are 32 steps on the register xored with their little-endian word |
| `Crc32.ResidueLaw` | firmware/apps/baremetal/benchmarks/crc32_bench.c:38-47 | every message followed by its CRC, low byte first, leaves the register at 0xdebb20e3 |
| `Crc32.BurstDetected` | firmware/apps/baremetal/benchmarks/crc32_bench.c:38-47 | messages of one length that differ only within 32 consecutive bits have different CRCs |
| `Crc32.FourByteChangeDetected` | firmware/apps/baremetal/benchmarks/crc32_bench.c:38-47 | so do messages that differ only within four consecutive bytes |
| `Crc32.ThirtyThreeBitsCanHide` | firmware/apps/baremetal/benchmarks/crc32_bench.c:38-47 | 33 bits are too many, anywhere: the generator polynomial flipped in leaves the register unchanged |
| `Crc32.ThirtyThreeBitsCanKeepCrc` | firmware/apps/baremetal/benchmarks/crc32_bench.c:38-47 | so every message, at every place with room for 33 bits, can be changed within them and keep its CRC |
| `Crc32.CrcIsAffine` | firmware/apps/baremetal/benchmarks/crc32_bench.c:38-47 | CRCs of three messages of one length add up as the messages do |
| `SuiteResolver.FlatteningIsUnique` | scripts/test_runner.py:119-151 | a suite has at most one in-order flattening, whatever was resolved first |
| `SuiteResolver.FlattensIff` | scripts/test_runner.py:133-149 | the walk collects exactly what replacing references by the entries they name, in any order, comes down to |
| `SuiteResolver.PlainSuite` | scripts/test_runner.py:144-146 | a suite of existing cases stands for its own entries |
| `SuiteResolver.ReferenceIsItsEntries` | scripts/test_runner.py:137-143 | a reference may be replaced by the entries it names wherever it stands |
| `SuiteResolver.CycleHasNoFlattening` | scripts/test_runner.py:123-125 | a suite on a cycle has none |
| `SuiteResolver.FlatteningNeeds` | scripts/test_runner.py:116-153 | if every suite flattens, all references exist and there is no cycle |
| `SuiteResolver.ErrorIsReal` | scripts/test_runner.py:123-146 | every error reported names a real fault |
| `SuiteResolver.Resolver.ResolveSuite` | scripts/test_runner.py:120-149 | ends, and answers from memory or by expansion with the flattening, or with an error that is there |
| `SuiteResolver.Resolver.Expand` | scripts/test_runner.py:133-149 | the entry loop |
| `SuiteResolver.Resolver.ResolveEntry` | scripts/test_runner.py:136-146 | one entry: a reference, a case, or neither |
| `SuiteResolver.Resolver.ResolveAll` | scripts/test_runner.py:151-153 | succeeds if and only if every suite is a list of strings, everything named exists and references are acyclic; then each result is what its suite comes down to by replacing references, in whatever order suites are taken |

## Left out

- PlaybackClock.PlayRound: takes the times at which the loop samples the clock, and the room in the audio queue, as given; that a sample is taken before the duration ends depends on scheduling and is only a premise.
- Player.Player.CatchUp: the queue sends of 0 and of the current tone around a pause, and the final silence, are not part of the tone log; a full queue there blocks and does not fail.
- FirmwareValidator.ValidateAsset: asks that the words up to the declared size can be read, because nothing in the code checks the size of the memory behind the asset pointer.
- MachineTimer.NoDrift: stops one tick before the 64-bit counter would wrap.
- Crc32.RunCrc32: takes a buffer of any length; the fixed 4096 bytes, their filling and the expected constant of the benchmark are not modelled.
- RspClient.Client.Exchange: states its result for clean ASCII payloads on a line without noise; on other lines only the reply reader and how often the request is sent are stated.
- RtString.MemCpy: overlapping ranges are outside its contract, as in C11.
- Progress printing, stack watermarks, and the LED, buzzer, traffic light and button tasks.
- VGA and UART registers other than as a word array and a list of bytes; busy-waits.
- Kernel internals, queues and `heap_5`: the kernel is an arbitrary choice. Interrupts re-enabled inside a trap by kernel code are not modelled.
- `freertos_fatal_trap`, `freertos_assert_fail` and `vPortEndScheduler`, which never return.
- Aliasing of debugger writes with the stub's own memory.
- Media and MIDI reading, `note_hz` and everything in floating point; previews.
- Threads, time-outs and the serial port behind the host client; a time-out is the end of the available bytes.
- Validation of cases, prerequisites and environment in the test runner, and running the tests.
- The BAM1 prototype, other benchmarks, demos and self-tests.
