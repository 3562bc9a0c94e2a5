# Verification of the front-end server

The front-end server (fesvr) is the host side of a RISC-V simulator. Its core is a stack in
which one flat byte memory is reached through ever more awkward transports, and the
coroutines and handshakes that drive them. This project models each of these layers.

Four chains are proved through: the instruction encoders, the injected programs and the
driver against the Debug Module; the debug driver, the serial interface and the hex writer
as chunked memories, memif over any of them, and getmainvars over memif; the ELF loader over
memif, and elf2hex from the headers to the text of the dump; and the start of a run, from a
Debug Module that the host has not touched, through the driver, memif and the loader, to a
hart let go at the entry point with the program in memory. The rest stands beside these
chains: the DMI handshake shows that do_command is a call with one request and its own
response, which is what the driver takes it for; the context switch shows that control goes
where it is sent, which the handshake and the serial interface take for granted; and the
mailbox loop treats its two words as atomic, which memif makes them under a stated condition.

- `Wrappers.dfy`, `Words.dfy`, `Memory.dfy`: optional values, little-endian numbers, bitwise operators on naturals, flat
  byte memory and what overwriting part of it means.
- `Encoding.dfy`, `Fields.dfy`: the instruction encoders, an independent decoder, and the
  register field macros.
- `DebugModule.dfy`: the Debug Module and one hart as a step machine (program buffer, data
  registers, command, abstractauto, latency, cmderr, halting and resuming, registers, CSRs,
  memory), after sections 3.5 to 3.7 and 3.12 of the RISC-V External Debug Support
  specification 0.13. It decodes and executes the 32-bit words it is given. Every access of
  the host takes an arbitrary time, and the hart runs a program of its own between halts.
- `DtmPrograms.dfy`, `DtmChunks.dfy`, `Dtm.dfy`: the programs that the driver injects, the
  commands it starts, and its methods, proved against that machine.
- `DmiHandshake.dfy`: the ready/valid handshake below the driver.
- `Context.dfy`: switching between any number of threads by flags, mutexes and condition
  variables, one atomic step at a time, with spurious wakeups.
- `Tsi.dfy`: the serial interface with its two queues and a target that consumes at any time.
- `HexWriter.dfy`: the sparse line map, its dump and a reader for the dump.
- `ChunkedMem.dfy`: the chunked memory interface over the debug driver, the serial
  interface, the hex writer, and a plain memory of any alignment and maximum size.
- `MemIf.dfy`: arbitrary accesses made of chunks.
- `Elf2Hex.dfy`: the loader and elf2hex end to end.
- `Boot.dfy`: start-up, program load and reset over the debug driver.
- `Htif.dfy`: the mailbox loop against a concurrent target, and the devices behind it.
- `Syscall.dfy`: getmainvars and a guest that reads its result.

Objects that the program updates in place are classes here, and loops are loops. Choices
that the program does not determine (latencies, schedules, the target's own activity,
characters typed, the effect of operating system calls) are arbitrary values. Host-side
snapshots of the hart, the trace of memory accesses and fences, the record of writes to
dmcontrol and the histories of the mailboxes exist only for the specifications. Words and
numbers that both sides of a link must agree on are stated once more as literals.

Results that differ from what one might expect of the code:

- modify_csr ORs the high word of a 64-bit CSR into its result without shifting it
  (`DtmChunks.CsrResultExact`), and leaves the old CSR value in dscratch
  (`DtmChunks.CsrEffectExact`).
- reset writes dmcontrol twice in a row, which halt and resume read dmstatus to avoid, and
  no other operation does (`Dtm.Driver.Reset`, `Dtm.Driver.Halt`, `Dtm.Driver.Resume`).
- The hex writer repeats the first line of a transfer and does not clear. Behind memif the
  first never shows (`ChunkedMem.OneLine`), the second shows exactly under the condition of
  `MemIf.WriteExact`, and neither shows in elf2hex for disjoint segments whose zero fills do
  not wrap (`Elf2Hex.Run`).
- The loader sums addresses in the width of the ELF class, so the zero fill of a 32-bit
  segment whose file bytes reach up to 4 GiB goes to the bottom of memory
  (`Elf2Hex.FillInPlace`, `Elf2Hex.CrossingFillMisplaced`). `Elf2Hex.ImageExactly` says when
  that does harm.
- Exit codes are truncated to 32 bits before they are shifted (`Htif.VerdictMeaning`,
  `Htif.ExitMeaning`).

## Model

| member | source | states |
|---|---|---|
| `Encoding.DecodeLoad` | fesvr/dtm.cc:23-25 | An independent decoder (section 2.3 of the RISC-V Unprivileged ISA) reads LOAD words of either width back as the same load, for all registers and immediates, with the immediate sign-extended |
| `Encoding.DecodeStore` | fesvr/dtm.cc:26-28 | The same for STORE, whose immediate is split over two places |
| `Encoding.DecodeAddi` | fesvr/dtm.cc:31 | The same for ADDI |
| `Encoding.DecodeBne` | fesvr/dtm.cc:16-17 | BNE decodes to a branch by exactly `there - here`, for every even distance of 13 bits, backward ones included |
| `Encoding.DecodeJump` | fesvr/dtm.cc:20-29 | JUMP decodes to a jump by exactly `there - here`, for every even distance of 21 bits |
| `Encoding.DecodeCsr` | fesvr/dtm.cc:45 | CSRRx decodes to the CSR instruction of that kind, number and registers |
| `Encoding.DecodeEbreak` | fesvr/dtm.cc:35 | Of all words exactly 0x00100073 is EBREAK, and it is the one that ends the programs |
| `Encoding.DecodeFence` | fesvr/dtm.cc:34 | Of all words exactly those with that opcode and funct3 are FENCE.I, and the one used, 0x100f, is among them |
| `Encoding.SignExtendInRange` | fesvr/dtm.cc:12-15 | An immediate that is a signed number of 12 bits is carried unchanged; the decoding results for LOAD, STORE and ADDI say so of the instructions |
| `Fields.FieldRoundTrip` | fesvr/dtm.cc:47-48 | For every contiguous mask and every value: get_field after set_field gives the value modulo the width of the field, and all bits outside the mask are as before |
| `Fields.GetFieldIsDivision` | fesvr/dtm.cc:47 | get_field, worked out here by cases on the lowest bit of the mask, is the division that the macro has, for every register and every mask with a lowest bit |
| `Words.MaskIsModulo` | fesvr/memif.cc:12-27 | Masking with align - 1 is the remainder, and masking it out rounds down, for every power of two |
| `Words.OrMeaning` | fesvr/dtm.cc:461-462 | The disjunction of two numbers of any size has exactly the bits of either |
| `Words.AndMeaning` | fesvr/memif.cc:12-14 | The conjunction has exactly the bits of both |
| `Words.AndNotMeaning` | fesvr/memif.cc:17 | Masking out leaves exactly the bits that are not in the mask |
| `DebugModule.LeadsAfterDelay` | fesvr/dtm.cc:197-200 | Whatever the latency of a command, it ends in the same state |
| `DebugModule.RegisterLayout` | fesvr/debug_defines.h:536-921 | The masks that host and Debug Module share lie where the specification puts them |
| `DebugModule.LeadsLater` | fesvr/dtm.cc:197-200 | Whenever the host looks, the state the command leads to is still the same |
| `DebugModule.Module.Access` | fesvr/dtm.cc:57-73 | The effect of one DMI access on the target, at once, then any positive amount of time; with the hart halted the outcome is determined, with it running only the hart itself may differ, and its memory not if its program never stores. The response's data is stated by Read and Fetch |
| `DebugModule.Module.Read` | fesvr/dtm.cc:65-68 | Reading a control register returns its bits at the moment of the access, and the access has no other effect |
| `DebugModule.Module.Fetch` | fesvr/dtm.cc:65-68 | Reading a data register returns its word at that moment, and may start the command again when autoexec is on for it |
| `Dtm.Driver.WaitWhileBusy` | fesvr/dtm.cc:197-200 | Polling ends, for any latency, in the state the command leads to, and reports its cmderr |
| `Dtm.Driver.RunAbstractCommand` | fesvr/dtm.cc:176-211 | Program words, then data words if they are sent, then the command; ends where that command leads from exactly that preparation, returns its cmderr, and reads the data words back exactly for a register read |
| `Dtm.Driver.Die` | fesvr/dtm.cc:344-364 | Clears cmderr and changes nothing else |
| `Dtm.Driver.RunAcOrDie` | fesvr/dtm.cc:50-55 | A command with its error, if any, cleared afterwards |
| `Dtm.Driver.Halt` | fesvr/dtm.cc:102-122 | For any time the hart takes, and with the Debug Module inactive or still active: ends with the hart halted, the Debug Module at rest, error-free and with autoexec off; memory accesses unchanged; the halt request is taken back, and no two writes to dmcontrol are neighbours |
| `Dtm.Driver.Resume` | fesvr/dtm.cc:124-144 | The hart continues with exactly the state it had when resumed; the Debug Module ends inactive, zero being the last word written to dmcontrol, exactly when the driver is running a program, and otherwise active with the request taken back; no two writes to dmcontrol are neighbours |
| `Dtm.WordsSent` | fesvr/dtm.cc:110-132 | The words that halt and resume write to dmcontrol, bit for bit, for every hart |
| `Dtm.Driver.SaveReg` | fesvr/dtm.cc:146-157 | Returns the full xlen-bit register and changes neither hart nor memory |
| `Dtm.Driver.RestoreReg` | fesvr/dtm.cc:159-174 | Puts the low xlen bits into that register and changes nothing else of the hart |
| `DtmPrograms.ReadProgramRun` | fesvr/dtm.cc:218-236 | The three instructions that the macros produce load the word at S0 into S1 and advance S0 by one word |
| `DtmPrograms.CommandWords` | fesvr/dtm.cc:39-40 | The words written to the command register, bit for bit, for every register and each width |
| `DtmPrograms.WriteProgramRun` | fesvr/dtm.cc:271-290 | The three instructions store S1 at S0 and advance S0 |
| `DtmPrograms.ClearProgramRun` | fesvr/dtm.cc:366-405 | The injected loop, with its backward branch, stops after exactly n turns (3n + 1 steps), also when the end address wraps to zero, having zeroed exactly n words |
| `DtmPrograms.CsrProgramRun` | fesvr/dtm.cc:427-446 | The six instructions, executed one by one, have the effect stated by CsrOutcome: operand through S0, double swap with dscratch |
| `DtmChunks.ReadPlan` | fesvr/dtm.cc:244-262 | One turn of the pipelined read: word i is handed over while word i + 1 is loaded, and nothing is loaded on the last turn |
| `DtmChunks.StoreTurn` | fesvr/dtm.cc:300-336 | However it is started, by postexec or by autoexec, the command stores word i and nothing else |
| `Dtm.Driver.ReadChunk` | fesvr/dtm.cc:218-269 | The caller gets exactly the bytes of [taddr, taddr+len); the hart is let go in exactly the state in which it was halted; the accesses made are one load a word in order, none beyond the range, and none found the Debug Module busy; the Debug Module is left as Resume leaves it |
| `Dtm.Driver.WriteChunk` | fesvr/dtm.cc:271-342 | The hart is let go with memory overwritten by src on [taddr, taddr+len) and everything else, S0 and S1 included, as when it was halted; exactly len/(xlen/8) stores, none while busy; autoexec is off and cmderr zero at the end; the Debug Module is left as Resume leaves it |
| `Dtm.Driver.ClearChunk` | fesvr/dtm.cc:366-405 | The same with zeros: precisely the range is zeroed, S0 and S1 are restored; the Debug Module is left as Resume leaves it |
| `DtmChunks.CsrEffectExact` | fesvr/dtm.cc:427-466 | For any CSR but dscratch: exactly write, set bits or clear bits on that CSR, registers and memory unchanged, dscratch left holding the old CSR value |
| `DtmChunks.CsrUpdateBits` | fesvr/dtm.cc:42-45 | That update bit by bit: the bit of the operand, or the bit set where the operand has it, or cleared there |
| `DtmChunks.CsrEffectOnDscratch` | fesvr/dtm.cc:427-446 | On dscratch itself the update lands in S0, which survives if and only if the update leaves it as it is |
| `DtmChunks.ReadCsrEffect` | fesvr/dtm.cc:422-425 | Setting no bits leaves the CSR unchanged |
| `Dtm.Driver.ModifyCsr` | fesvr/dtm.cc:427-466 | The effect above for every latency and both register widths; what is returned is the CsrResult of the old value; the Debug Module is left as Resume leaves it |
| `DtmChunks.CsrResultExact` | fesvr/dtm.cc:453-466 | The returned value equals the CSR if and only if the high word of the CSR is zero, because the high word is ORed in without a shift |
| `DtmChunks.CsrResultBits` | fesvr/dtm.cc:453-466 | The returned value bit by bit: the CSR itself at 32 bits, the bits of its two words laid over each other at 64 |
| `DtmChunks.CsrResultCounterexample` | fesvr/dtm.cc:460-462 | A CSR value for which the returned value is wrong |
| `Dtm.Driver.ReadCsr` | fesvr/dtm.cc:422-425 | The CSR keeps its value; the result is that of ModifyCsr |
| `Dtm.Driver.FenceI` | fesvr/dtm.cc:508-528 | Executes one FENCE.I on the hart and changes nothing else of it or of memory; the Debug Module is left as Resume leaves it |
| `Dtm.Driver.GetXlen` | fesvr/dtm.cc:474-506 | Offering transfers of 128, 64 and 32 bits finds the width of the hart, and the errors met on the way are cleared |
| `Dtm.Driver.ProducerThread` | fesvr/dtm.cc:556-585 | From a Debug Module that the host has not touched, active or not: the assertions stop it exactly when the target lacks scratch register or data access; otherwise the driver has the true sizes, base and width, every operation may follow, and the hart was let go as it was halted |
| `Dtm.Driver.SelectHart` | fesvr/dtm.cc:80-84 | Halts and resumes nothing and leaves the driver ready: an active Debug Module has that hart selected and is otherwise unchanged; an inactive one reads as zero, so the word written back resets it once more |
| `Dtm.Driver.Reset` | fesvr/dtm.cc:535-548 | One FENCE.I, then the hart is let go as it was last halted, but with the entry point in dpc and the old dpc in dscratch; exactly one write to dmcontrol directly follows another on the way |
| `DmiHandshake.HandshakeDelivers` | fesvr/dtm.cc:57-63 | For every host and every ready/valid schedule: accepted requests are the do_command calls, in order, once each, at most the last unanswered; the k-th answer returns from the k-th call; the two waits are never both set |
| `DmiHandshake.RequestStable` | fesvr/dtm.cc:613-636 | A request on offer stays on offer, unchanged, until accepted |
| `DmiHandshake.AcceptedInTwo` | fesvr/dtm.cc:613-624 | With no response awaited, two ready cycles get the request accepted |
| `DmiHandshake.Transport.Tick` | fesvr/dtm.cc:613-636 | The object does in one tick what one step of the machine does, and keeps its invariant |
| `Context.MutualExclusion` | fesvr/context.cc:32-98 | In every interleaving of any number of contexts, spurious wakeups included: one flag is up and nobody is in transfer, or no flag is up and exactly one thread is in transfer; at most one thread runs client code |
| `Context.AssertionsHold` | fesvr/context.cc:32-83 | The flag of a context that is initialised is down, and the switch with which a new thread begins is not one to itself; for a switch called by client code the second assertion is its own duty |
| `Context.NoWakeupIsLost` | fesvr/context.cc:70-98 | Whoever sleeps with its flag up still has a signal coming |
| `Context.NoDeadlock` | fesvr/context.cc:65-98 | In every reachable state some thread can step or runs client code |
| `Context.StepsRunOut` | fesvr/context.cc:90-98 | Every library step strictly decreases a measure over all threads; a spurious wakeup adds three |
| `Context.SwitchDelivers` | fesvr/context.cc:81-100 | After switch_to under every schedule: nobody but the target gets to run client code, the steps are bounded, and when nothing can step the target runs and all others sleep |
| `Context.InitReturns` | fesvr/context.cc:43-74 | init comes back to its caller, with the new thread asleep in its first switch_to |
| `Context.ActInv` | fesvr/context.cc:32-100 | Every step of every thread keeps the invariant behind these results |
| `Tsi.StreamRecovered` | fesvr/tsi.cc:52-79 | A target recovers any sequence of commands of at least one word from the word stream and carries them out in order, wherever the stream is cut |
| `Tsi.StreamIsPrefixFree` | fesvr/tsi.cc:52-79 | If one stream of commands is the beginning of another, so are the commands |
| `Tsi.WireFormat` | fesvr/tsi.cc:36-79 | The commands word by word: 0 or 1, address, one less than the count, each low half first, then the words of a write |
| `Tsi.ReplyKeepsPromises` | fesvr/tsi.cc:81-115 | A target sending a reply word changes neither where memory is heading nor what the host will receive |
| `Tsi.TakeKeepsPromises` | fesvr/tsi.cc:81-115 | Nor does a target taking in a word |
| `Tsi.QueuedReadIsLast` | fesvr/tsi.cc:52-67 | No reply to a read starts before everything queued earlier has been taken in |
| `Tsi.Interface.PushAddr` | fesvr/tsi.cc:36-42 | Appends the low and the high half of the address |
| `Tsi.Interface.PushLen` | fesvr/tsi.cc:44-50 | The same for the length |
| `Tsi.Interface.Tick` | fesvr/tsi.cc:108-115 | One word may enter, one may leave, both in order |
| `Tsi.Interface.SwitchToTarget` | fesvr/tsi.cc:103-106 | Any amount of target activity, by either of its interfaces, keeps the host's view of memory, the words due and the order of replies, and gets nearer to a reply |
| `Tsi.Interface.WriteChunk` | fesvr/tsi.cc:69-79 | Queued without acknowledgement: memory with everything queued applied becomes the overwritten memory |
| `Tsi.Interface.ReadChunk` | fesvr/tsi.cc:52-67 | Under every interleaving returns the bytes of the host's view, so all earlier writes are visible, and ends with both queues empty |
| `HexWriter.Writer.ReadChunk` | fesvr/htif_hexwriter.cc:12-33 | Copies exactly the bytes of the flat memory that the sparse lines stand for; creating lines changes nothing of it |
| `HexWriter.Writer.WriteChunk` | fesvr/htif_hexwriter.cc:35-55 | Every line of the range, which may be empty, receives the first line of src, because src is not advanced |
| `HexWriter.RepeatedFaithful` | fesvr/htif_hexwriter.cc:43-54 | That is faithful if and only if all lines of src equal the first |
| `HexWriter.Writer.Dump` | fesvr/htif_hexwriter.cc:57-76 | Prints the text whose meaning DumpReadsBack states |
| `HexWriter.DumpReadsBack` | fesvr/htif_hexwriter.cc:57-76 | A reader of the dump (words one a line, most significant byte first) gets back exactly the flat memory, missing lines as zeros |
| `ChunkedMem.ReadFrom` | fesvr/memif.h:13-22 | On each of the transports, an aligned read within reach returns exactly the bytes of the transport's memory and leaves that memory alone |
| `ChunkedMem.WriteTo` | fesvr/memif.h:13-22 | On each of them, an aligned write of at most the maximum size overwrites exactly the range |
| `ChunkedMem.OneLine` | fesvr/htif_hexwriter.h:24-27 | A chunk within the hex writer's maximum is exactly one line, which is why not advancing src does no harm |
| `ChunkedMem.ChunkLimits` | fesvr/tsi.h:40-41 | Alignment and maximum that each transport declares |
| `ChunkedMem.ClearByWriting` | fesvr/htif.cc:161-168 | Writing zeros piece by piece, no piece above the maximum, zeroes exactly the range |
| `ChunkedMem.ClearIn` | fesvr/htif_hexwriter.h:24 | Clearing zeroes exactly the range on every transport but the hex writer, where it does nothing |
| `MemIf.MemIf.Read` | fesvr/memif.cc:9-40 | For every address and length, power-of-two alignment and maximum a multiple of it: the caller gets exactly [addr, addr+len), memory is unchanged, and every chunk call is economical; an aligned access that fits the maximum is exactly one call |
| `MemIf.MemIf.Write` | fesvr/memif.cc:42-84 | Memory becomes WriteResult, through read-modify-write at both ends and the clearing of a middle of zeros; every chunk call is economical; an aligned access that fits the maximum is exactly one call, a clearing one if all is zero |
| `MemIf.EconomicalMeets` | fesvr/memif.cc:9-84 | Economical calls are aligned, of positive multiples of the alignment, reads and writes no larger than the maximum, and every block in them meets the range asked for |
| `MemIf.NoCalls` | fesvr/memif.cc:9-84 | An empty access makes no calls |
| `MemIf.WriteRefinesUpdate` | fesvr/memif.cc:42-84 | On a transport that clears, a write is an update of flat memory: the bytes in range are the data, every other byte is as before |
| `MemIf.WriteExact` | fesvr/htif_hexwriter.h:24 | On any transport, a write is that update if and only if it clears, or the aligned middle is not all zeros, or the middle was zero already |
| `MemIf.ZerosMayBeLost` | fesvr/htif_hexwriter.h:24 | A write of a zero that the hex writer loses: one byte, over a 7, in a window of one line of one byte |
| `MemIf.ReadAfterWrite` | fesvr/memif.cc:9-84 | What was written is what is read, on any transport if and only if the condition of WriteExact holds |
| `MemIf.MemIf.ReadUint` | fesvr/memif.cc:86-90 | Misaligned exactly when the width does not divide the address; otherwise the little-endian number in memory |
| `MemIf.MemIf.WriteUint` | fesvr/memif.cc:92-95 | The same for writing |
| `MemIf.NumberRoundTrip` | fesvr/memif.cc:86-95 | Under that condition a number written and read back at the same width is the same |
| `MemIf.MailboxAccessIsWhole` | fesvr/htif.cc:186-197 | Where blocks divide eight bytes, an aligned 64-bit access has neither head nor tail and fits one chunk, so by Read and Write it is a single call of these eight bytes: a read, a write, or a clearing when zero is written |
| `Elf2Hex.LoadSegment` | fesvr/elfloader.cc:43-50 | One header: file bytes, then zero fill, in this order, or nothing at all; the address of the fill is summed in 32 or 64 bits as the ELF class has it |
| `Elf2Hex.LoadElf` | fesvr/elfloader.cc:42-51 | All headers of either class, over any transport |
| `Elf2Hex.FillInPlace` | fesvr/elfloader.cc:49 | The zero fill goes right behind the file bytes if and only if the sum of address and file size stays below the limit of the class; otherwise it goes below the segment |
| `Elf2Hex.NeverWraps64` | fesvr/elfloader.cc:49 | With 64-bit fields it always does |
| `Elf2Hex.CrossingFillMisplaced` | fesvr/elfloader.cc:49 | A 32-bit segment that crosses 4 GiB, lies in the window, and has its zero fill sent outside it |
| `Elf2Hex.SegmentBytes` | fesvr/elfloader.cc:43-50 | Into memory that is zero there, and with no wrap: the file bytes, then zeros, and nothing else changes, even if clearing does nothing |
| `Elf2Hex.LoadedIsImage` | fesvr/elfloader.cc:42-51 | Loading into zeroed memory gives the ELF image (file bytes, zero fill, zero elsewhere), for disjoint segments on any transport, and for any segments on one that clears, if no zero fill wraps |
| `Elf2Hex.LoadedLeaves` | fesvr/elfloader.cc:42-51 | Wrapped fills included: each byte of memory is what the last write to reach it left there, where a fill does not reach the middle blocks of a transport that does not clear |
| `Elf2Hex.ImageExactly` | fesvr/elfloader.cc:42-51 | For disjoint segments, any transport and either class, zeroed memory becomes the ELF image if and only if no fill puts zeros over file bytes, other than zero, of its own or an earlier segment |
| `Elf2Hex.UnwrappedErasesNothing` | fesvr/elfloader.cc:49 | Fills of disjoint segments that do not wrap never do |
| `Elf2Hex.PowerTest` | fesvr/elf2hex.cc:17-33 | The bit test accepts exactly the powers of two |
| `Elf2Hex.Run` | fesvr/elf2hex.cc:16-44 | End to end, for either class: the three errors exactly when width, base or depth call for them, whatever the file; otherwise the printed dump can be read back, and for disjoint segments whose writes stay in the window it is the ELF image if and only if the condition of ImageExactly holds, which it does when no fill wraps |
| `Boot.Start` | fesvr/htif.cc:77-118 | Start-up, load and reset over the debug driver, whatever the latencies: the hart is let go with the entry point in dpc and memory exactly as loading leaves it, which for zeroed memory is the ELF image under the conditions of ImageExactly and LoadedIsImage |
| `Htif.ResponseFields` | fesvr/device.h:20-23 | A response carries device and command of what it answers and 48 bits of reply |
| `Htif.FieldsDetermine` | fesvr/device.h:20-22 | Device, command and payload determine the word |
| `Htif.FieldsAre` | fesvr/device.h:20-22 | They are its top eight bits, the next eight, and the low 48 |
| `Htif.ResponseInvisible` | fesvr/device.h:23 | A response is zero, hence invisible, exactly for device 0, command 0 and a reply whose low 48 bits are zero |
| `Htif.Mailbox.ClearTohost` | fesvr/htif.cc:186-187 | What the host clears out of tohost is what it read, even with the target running in between |
| `Htif.Server.DeliverOne` | fesvr/htif.cc:196-199 | At most the oldest queued response goes out, and only when all that went out before has been consumed; afterwards no response waits while fromhost is empty |
| `Htif.DeviceList.RegisterDevice` | fesvr/device.cc:139-144 | Appends the device to those registered |
| `Htif.DeviceList.RegisterAll` | fesvr/htif.cc:305-311 | The proxy is device 0, the console device 1, those of the command line follow in order |
| `Htif.Server.HandleIdentify` | fesvr/device.cc:40-57 | If the address is a multiple of 64: the name asked for, of device or command, goes there in 64 bytes, and the answer is 1; otherwise the host aborts and nothing is written |
| `Htif.IdentifyMeaning` | fesvr/device.cc:42-44 | What is asked for is the low byte of the payload, the address the rest of it, which must be a multiple of 64 |
| `Htif.NamesAre` | fesvr/device.cc:59-63 | The names of the console and its commands, of the proxy and its command, and of an unused slot, and no others |
| `Htif.NameRead` | fesvr/device.cc:46-55 | A target that reads the block of 64 bytes up to the first NUL gets exactly the name |
| `Htif.Server.HandleSyscall` | fesvr/syscall.cc:104-117 | An odd payload sets the exit code, gets no response and touches no memory; an even one makes the call found in target memory: a known one is answered with 1, an unknown one, and nothing else, aborts the host, without answer or write |
| `Htif.Server.Dispatch` | fesvr/syscall.cc:340-352 | For whatever eight words are found: an unknown number ends the run with nothing written; otherwise the words go back with only the first replaced by the result, and exit, and nothing else, sets the exit code, from the second word |
| `Htif.KnownNumbers` | fesvr/syscall.cc:54-74 | Exactly these 21 numbers are system calls, and 93 is exit |
| `Htif.Server.HandleConsole` | fesvr/device.cc:65-73 | Reads are queued behind earlier reads, writes go out at once, and neither is answered here |
| `Htif.Server.HandleCommand` | fesvr/device.cc:146-149 | Who is answered, queued, printed or ignored, by device and command; only identify and system calls write to memory or abort, and a system call is served as HandleSyscall says |
| `Htif.Server.Tick` | fesvr/device.cc:75-83 | If a console read waits and a character is there, the oldest read is answered with its own tag and the first character; otherwise nothing happens |
| `Htif.CharReplyIs` | fesvr/device.cc:80 | The reply is 0x100 plus the character |
| `Htif.Server.Run` | fesvr/htif.cc:184-204 | For every behaviour of the concurrent target and every number of rounds: every word found in tohost is dispatched, and words posted are words dispatched plus at most the one in tohost; responses are words consumed plus the one in fromhost plus those queued, none zero; each round looks once and ticks once, and ends with no response waiting at an empty fromhost; the loop ends right at the command that sets the exit code or aborts; every command is answered once, pending or silent, console reads in order |
| `Htif.Server.Serve` | fesvr/htif.cc:185-189 | One look at tohost: what is found is taken and dispatched, and only a proxy command sets the exit code |
| `Htif.ExitHalves` | fesvr/htif.cc:212-215 | exit_code halves, rounding down, negative numbers included |
| `Htif.ExitRecovers` | fesvr/syscall.cc:119-123 | What exit_code gives back of an exit is its code as a signed number of 31 bits |
| `Htif.VerdictRecovers` | fesvr/syscall.cc:106-108 | What it gives back of a verdict is the payload without its lowest bit, in the same way |
| `Htif.VerdictMeaning` | fesvr/htif.cc:212-215 | A verdict always ends the loop and reads as success if and only if bits 1 to 31 of the payload are zero |
| `Htif.ExitMeaning` | fesvr/syscall.cc:119-123 | So does every exit, as success if and only if the low 31 bits of its code are zero |
| `Htif.LargeFailureLooksLikeSuccess` | fesvr/syscall.cc:119-123 | An exit code other than zero that is reported as success |
| `Syscall.StringsApart` | fesvr/syscall.cc:306-311 | Strings lie behind the table, one after the other without overlap, within the block |
| `Syscall.GuestRecovers` | fesvr/syscall.cc:298-323 | A guest that follows argc, the pointers up to NULL and the strings up to NUL recovers the arguments, and finds an empty envp |
| `Syscall.MainVarsRoundTrip` | fesvr/syscall.cc:298-323 | The same after the write, over whatever memory, alignment and maximum |
| `Syscall.GetMainVars` | fesvr/syscall.cc:298-323 | Returns -ENOMEM and writes nothing exactly when the block exceeds the limit; otherwise the block is written at pbuf and zero returned |

## Left out

- Several harts: enumerate_harts, and select_hart on a hart other than 0; one hart, number 0, is modelled, and the width is found by GetXlen.
- `fesvr/rfb.cc`, `fesvr/term.cc` and disk files: devices added on the command line are modelled as devices that may answer any command with any value.
- The bodies of the system calls other than getmainvars: a call may be unknown, exit or do something else.
- The memory that system calls other than exit read and write beside their eight words. The commands are assumed not to be aimed at the mailboxes themselves.
- The ucontext branch of context switching, and threads that return from their function.
- Symbol tables, section headers and argument parsing of the loader and of elf2hex.
- The text printed by die, and the SRL encoder, which nothing uses.
- Traps inside the program buffer, caches, and CSRs that are not plain storage.
- The hart's own program between halts is an arbitrary change of its state. What memif over the debug driver promises is stated for a program that leaves memory alone while it runs.
- Tsi.Interface.SwitchToTarget: the target takes in or sends at least one word in each switch if it can; a target that stalls throughout a switch is excluded, only so that the host's loops end.
- DebugModule.Module.Access: at least one unit of time passes in each access; zero time is excluded, only so that the polling loops end.
- Dtm.Driver.ProducerThread: enumerate_harts, between activation and halt, moves the selection only, which halt sets again.
- Elf2Hex.LoadedIsImage: for overlapping segments the condition is sufficient and not exact; `Elf2Hex.LoadedLeaves` gives the bytes in every case.
- return_resp, the variant of tick without handshake.
- MemIf.MemIf.ReadUint: covers the unsigned accessors; the signed ones reinterpret the same bytes.
- Htif.Server.Run: the two mailboxes are single 64-bit words, which `MemIf.MailboxAccessIsWhole` justifies for alignments that divide eight bytes.
- Syscall.GetMainVars: assumes that the block's size fits 64 bits.
- The signal that ends the mailbox loop is a number of rounds after which it is noticed.
