# Talaria TWO host tools: models and proofs

A Dafny model of the host-side tools of the Talaria TWO SDK, with proofs of what they promise.

- **Boot images** (`script/boot.py`, `script/bits/bootargs.py`, `apps/.gdb-bootargs.py`). `BootCommand` is the boot
  command stream and its verify mode, `BootVerify` when that succeeds, `MemoryMap` the merged range list, `BootArgs` the argc/argv image, `BootStream`
  and `BootLoader` the stream builder with the bank 3 workaround, `Thumb` and `ThumbReset` a processor that runs the
  trampoline's own bytes, and `BootImage`, `BootRam` and `BootReset` the proof that workaround, reset and trampoline
  together give a direct load. `Gf2` and `Xex` are the encryption mode of boot images.
- **Host interface** (`script/hostio.py`). `HioProtocol` is a state machine of any number of calling threads, the
  reader thread and the device, one step per shared access (the test of the suspend flag is joined with the access
  after it); `HioResponses`, `HioCalls`, `HioSleep` and `HioProgress` are about
  all its runs, `HioDrive` and `HioRaces` about runs that end badly. `HioLink`, `HioMessage` and `HioSync` are framing,
  field packing and synchronisation.
- **GDB remote protocol** (`script/gdbremote.py`). `GdbFrame` is escaping and framing, `GdbRegisters` number formats
  and the register file, `GdbSession` client and server talking to each other.
- **Scan results** (`script/wcm.py`). `Wcm` and `WcmModes`, after section 9.4.2 of IEEE Std 802.11-2016.
- **Panic partition** (`script/flash.py`, `script/bits/flash.py`). `Panic`.
- **Echo checksum** (`script/ping.py`). `Icmp`, after section 1 of RFC 1071.

Each file opens with what it models. `dafny verify dfyconfig.toml` checks the project.

## Where the code differs from what is expected of it

For each of these a lemma says exactly when the code does what is expected, or gives an input on which it does not.

- A caller gets the response to its own request only while no wait has ever timed out, and after 65536 timeouts not
  even the transaction numbers differ any more (`HioResponses.WaitGetsNextResponse`).
- `include/api/hio.h` (lines 71-80) lets the device sleep when nothing is outstanding. That holds under a usage rule,
  `HioSleep.Polite`: suspend is switched while no other thread is in a call, and switched on only when off and before
  any wait has timed out. `HioRaces` breaks each part of the rule by a single action, from any state that keeps it with
  nobody in a call (switching on during a call: from any of those in which no wait has timed out), and `HioRaces.EnableRule` shows the conditions on switching on to be exact.
- What of the boot arguments lies in bank 3 is dropped (`BootImage.ArgsSentWholeIff`). No tool of the repository puts
  them there: the output address is 0xc0000 unless a caller of `BootArguments` passes another, and the text that
  `--bootarg-address` passes makes `encode` raise an error.
- Boot arguments that overlap the staged data or the trampoline overwrite them, with a message on stderr and no error.
  `BootImage.StageSurvivesIff` says exactly when they do no harm; `BootImage.ArgsOverTrampolineExample` is an overlap
  under the default settings.
- An overlap of writes is not an error in itself: it puts a number into the range list, which raises an exception at
  once, at the next use, or never (`MemoryMap.Memory.Add`, `BootLoader.Stream.CmdWrite`).
- Nothing keeps the staging area within RAM (`BootImage.FitsInRam`, `BootImage.OverrunsRam`).
- Synchronisation can miss a pattern that repeats its own beginning (`HioSync.FoundIffSafe`).
- A variable array that is not the last field can swallow what follows it (`HioMessage.FieldsRoundTrip`,
  `HioMessage.Swallowed`). Every message declared in `script/api` has its variable array last.
- `ie_locate` reads past a buffer that ends in one stray octet (`Wcm.LocateFailsIff`, `Wcm.OneOctetExample`).
- Partition reads compare an offset within the partition with its end address, so extraction can run on into the flash
  behind a full panic partition (`Panic.PartitionExtractedIff`, `Panic.RunsOn`).
- Python's `zipfile` cuts names at a NUL, so two tags with NULs can end up under one name (`Panic.Execute`,
  `Panic.NamesDistinctIff`).
- The echo checksum is folded once after the payload, so some requests fail the receiver's check
  (`Icmp.PacketVerifiesIff`).
- A register value of nine or more hexadecimal digits arrives changed if their number is odd and they are not all
  equal (`GdbRegisters.ArrivesIff`, `GdbRegisters.OddDigitsExample`).

## Model

| member | source | states |
|---|---|---|
| BootImage.LoadPreservesImage | script/boot.py:289-346 | For every list of segments, every initial memory, every content that the reset leaves in bank 3, every register state and every argument blob that leaves the staging area intact (exactly when, see StageSurvivesIff): after the device has executed the emitted commands, been reset and run the copy routine, the processor is at the program entry with argc and argv in r0 and r1, every octet covered by a segment equals that of a direct load with the arguments over it, the argument blob is in place outside bank 3, and nothing else below the staging area and outside bank 3 has changed |
| BootImage.ProgramSeesArguments | script/boot.py:591-605 | End to end, again whatever the reset leaves in bank 3: the entered program, reading r0 and r1 as a C argc/argv, finds exactly the boot arguments, for every NUL-free argument list that lies outside bank 3 and leaves the staging area intact |
| BootReset.BootsProgram | script/boot.py:165-199 | The whole way from the start address that the fixup returns: after 12 steps of the trampoline's literal bytes, and however much longer the reset takes, a reset is requested; and when the processor comes up at the vector that was set, whatever the reset has left in bank 3, in the registers written and in the processor, it reaches the program entry with argc and argv, with segments and arguments in memory as LoadPreservesImage says, for every load below those registers |
| BootReset.RamBoots | script/boot.py:165-199 | The same for every list of RAM segments without arguments, with no further condition |
| BootReset.StagedIsReady | script/boot.py:165-199 | A staged trampoline contains the reset routine with its own copy routine as the address to start at |
| ThumbReset.ResetRoutine | script/boot.py:175-178 | The machine code of the reset routine, run anywhere it is loaded: after 12 steps the vector holds the word given, the reset control register holds its key with a reset requested, bit 2 of one flag is cleared and of the other set, and for any number of further steps nothing else happens to memory |
| ThumbReset.ResetDisassembly | script/boot.py:175-178 | Every halfword of the reset routine decodes to the listed instruction |
| BootImage.StageSurvivesIff | script/boot.py:601-605 | After the argument write, staged data and trampoline are intact if and only if the blob repeats them wherever it overlaps them, for every blob and every stream with the workaround on |
| BootImage.ArgsOverTrampolineExample | script/bits/bootargs.py:57-119 | With any one segment that ends at 0xbff00 and the default output address, the argument "a" overwrites the trampoline |
| BootImage.WriteMirrors | script/boot.py:315-346 | Each diverted write keeps the invariant that memory outside bank 3 together with the held-back data is the image a direct load would give |
| BootImage.WriteAllMirrors | script/boot.py:337-346 | The same invariant over any sequence of writes |
| BootImage.SegmentsStoreWhole | script/boot.py:593-598 | Loading segments in chunks, leaving out virtual addresses, has the memory effect and the coverage of loading the remaining segments whole |
| BootImage.LoadCovers | script/boot.py:35-36 | Exactly those addresses are loaded that a segment below 0x100000 or from 0xfc0000 on has, for every list of segments |
| BootImage.LastSegmentWins | script/boot.py:593-598 | A direct load leaves at an address the octet of the last such segment that has it |
| BootImage.DirectElsewhere | script/boot.py:593-598 | A direct load leaves alone what no such segment has |
| BootImage.LoadWrites | script/boot.py:593-598 | The commands of the segments write exactly those addresses, except 0x70000 to 0x7ffff with the workaround on |
| BootStream.ChunkSizes | script/boot.py:596-598 | A segment goes out in chunks of 32 KiB at consecutive addresses, the last of which may be shorter |
| BootImage.ChunksStoreWhole | script/boot.py:596-598 | Storing consecutive chunks is storing their concatenation |
| BootImage.FixupIsHigh | script/boot.py:297-311 | No write of the fixup is itself diverted to bank 3 |
| BootImage.StageGeometry | script/boot.py:293-306 | The staging area starts on a 256-byte boundary above everything written, its size is a multiple of 4, and it holds all the held-back data |
| BootImage.FixupMemory | script/boot.py:289-313 | Memory after the fixup at every address: the trampoline, the staged data, or what was there before |
| BootImage.FixupIsReady | script/boot.py:289-313 | The trampoline table describes a copy that ends, stays inside bank 3, and overlaps neither its source nor the trampoline |
| BootImage.TrampolineRestores | script/boot.py:165-199 | Running the trampoline moves the staged data to bank 3, changes nothing else, and enters the program with the given registers |
| BootImage.ArgsSentWholeIff | script/boot.py:601-605 | The argument blob, written after the fixup, is sent whole if and only if none of it lies in bank 3; otherwise that part is held back and staged by nobody |
| BootImage.ArgsInBank3AreLost | script/boot.py:601-605 | Of an argument blob that lies wholly in bank 3 nothing is sent: the emitted commands are the same as without it |
| BootImage.ArgsInBank3Example | script/bits/bootargs.py:57-119 | An output address, passed to the constructor by hand, for which the blob lies wholly in bank 3 |
| BootImage.FitsInRam | script/boot.py:293-311 | The fixup writes only RAM addresses if and only if the earlier writes did and the end of the trampoline is at most 0xc0000 |
| BootImage.OverrunsRam | script/boot.py:293-311 | Whenever the last octet of RAM has been written, the fixup writes beyond RAM |
| BootImage.WithoutWorkaround | script/boot.py:315-346 | With the workaround off, executing the emitted commands is a direct load |
| Thumb.CopyRoutine | script/boot.py:171-183 | The literal machine code of the trampoline, decoded and run on a Cortex-M model, copies exactly the k words named by its table in 5k+8 steps, touches nothing else, and jumps to the entry with argc and argv in r0 and r1, for every table and every k |
| Thumb.CopyLoop | script/boot.py:171-183 | The loop by itself, with any number of words to go: it ends by equality of the pointers after exactly that many words |
| Thumb.Disassembly | script/boot.py:171-183 | Every halfword of the trampoline bytes decodes to the listed instruction |
| Thumb.LiteralEncoding | script/boot.py:171-179 | Loads from the literal pool decode as in the manual, for all registers and offsets |
| Thumb.CompareEncoding | script/boot.py:171-179 | So do comparisons of registers |
| Thumb.StoreEncoding | script/boot.py:171-179 | So do stores of one halfword |
| Thumb.ConditionalEncoding | script/boot.py:171-179 | So do conditional branches, forwards and backwards |
| Thumb.BranchEncoding | script/boot.py:171-179 | So do unconditional branches, forwards and backwards |
| Thumb.TransferEncodings | script/boot.py:171-179 | Loads and stores of two halfwords decode as in the manual, for all registers and offsets |
| Thumb.PostIndexEncodings | script/boot.py:171-179 | So do the post-indexed ones |
| Thumb.ImmediateEncodings | script/boot.py:171-179 | So do moves and bit operations with a modified immediate |
| Thumb.OctetPatterns | script/boot.py:171-179 | The modified immediates 0 to 3 are the octet, and the octet repeated in two or four places of the word |
| Thumb.Rotations | script/boot.py:171-179 | All other modified immediates are octets with the top bit set, rotated right by 8 to 31 places |
| BootLoader.Stream.Bank3MemoryRanges | script/boot.py:315-335 | Returns the parts outside bank 3 and overlays the part inside on the held-back data |
| BootLoader.Stream.CmdWrite | script/boot.py:337-346 | Whenever it returns: the stream has grown by the WRITE commands of the parts outside bank 3, the addresses written by exactly those, the octet count is the growth of the buffer, and buffer, commands and memory ranges stay consistent. The ranges stay usable if and only if they were and nothing is written twice, and then it returns; an undivided write returns if and only if the ranges were usable and it meets none of them but the highest |
| BootLoader.Stream.Bank3Fixup | script/boot.py:289-313 | With the workaround on, it returns if and only if no write has overlapped another; it has then appended exactly the staging writes and the trampoline that the fixup specification describes, all in the staging area, and returns its reset entry |
| BootLoader.Stream.HighestEnd | script/boot.py:293-296 | The maximum over the merged ranges is one past the highest address any command has written; an exception if and only if a write has overlapped another |
| BootLoader.Stream.LoadSegments | script/boot.py:593-598 | Whenever it returns, it has emitted the chunked writes of every non-virtual segment, in order, and written exactly the addresses of the segments below 0x100000 or from 0xfc0000 on, except for bank 3 if that is kept aside; it returns with usable ranges if and only if those segments are pairwise disjoint outside what is kept aside |
| BootLoader.Stream.Load | script/boot.py:591-605 | For any segments and arguments: if it returns, the buffer parses back to exactly the commands of the load (segments, fixup, argument blob, ARGS), the start is the fixup entry, the addresses written are exactly those of the segments outside the virtual addresses, of the arguments, of the staged data and of the 108 octets of the trampoline, and with the workaround on the segments are disjoint outside bank 3; it does return if they are and the arguments overlap nothing |
| BootLoader.SameTop | script/boot.py:293-297 | A normal range list that covers what the commands wrote has the same top |
| MemoryMap.Memory.Add | script/boot.py:90-115 | The list stays normal and covers exactly the old addresses and the new range if and only if they are disjoint; if the new range meets the last one and no other, a number takes its place; it raises an exception if and only if it meets another one or there is a number already |
| MemoryMap.MergeSorted | script/boot.py:98-114 | One pass over a sorted list ends with a normal list that covers the same addresses, with the later of two ends if the first overlap is that of the last two ranges, or with an exception if it comes earlier |
| MemoryMap.NormalFormUnique | script/boot.py:90-115 | Sorted lists with strict gaps that cover the same addresses are equal, so the ranges do not depend on the order of the adds |
| MemoryMap.SortPermutes | script/boot.py:95-96 | The sort loses and invents nothing; its result is ordered by contract |
| BootCommand.ParseInvertsPrint | script/boot.py:219-247 | Parsing the octets of any sequence of commands yields exactly those commands |
| BootCommand.CommandOctets | script/boot.py:280-281 | The eight octets of every header: 0x7e, the operation, length and address least significant octet first; then the data |
| BootCommand.PrintInvertsParse | script/boot.py:219-247 | Whatever parses without error is the concatenation of the octets of what was parsed |
| BootCommand.Reader.FromStream | script/boot.py:219-237 | Takes one command off the stream: end of stream, an error, or the command whose octets are removed, as the parse specification says |
| BootCommand.WriteVerified | script/boot.py:621-638 | Verify mode completes if and only if the stream parses and every reply equals the data written; what was sent then parses, every WRITE in it to an address from 0x40000 to 0xbffff is followed by a READ of the same address and length, there is one command more for each such WRITE, and apart from READ commands it is the stream |
| BootCommand.HonestDeviceConfirms | script/boot.py:621-638 | A device that answers each READ it receives with the octets its memory holds at the address and length in that READ is always accepted, for every stream that has no READ of its own before a RAM write |
| BootCommand.EarlyReadExample | script/boot.py:621-638 | With a READ in front of a RAM write such a device is rejected |
| BootVerify.AcceptedIff | script/boot.py:621-638 | The exact condition, for every stream: all devices that answer from memory are accepted if and only if the n-th READ sent, inserted or not, asks for as many octets as the n-th RAM write has and finds all of them written by then with its data |
| BootVerify.ReadsLastInStep | script/boot.py:621-638 | Streams without a READ before a RAM write meet it |
| BootCommand.WithReadsInserts | script/boot.py:627-630 | READ commands are inserted after the RAM writes, one for each, and nothing else changes |
| BootCommand.WithReadsMemory | script/boot.py:628-632 | The inserted READ commands change nothing in memory |
| BootArgs.ImageIsArgv | script/bits/bootargs.py:87-119 | A memory holding the image of NUL-free arguments is read by C rules as argc, a 4-aligned NULL-ended argv, and exactly those strings |
| BootArgs.CStringUnique | script/bits/bootargs.py:87-91 | At most one C string starts at an address, so the arguments can be read in one way only |
| BootArgs.BootArguments.Encode | script/bits/bootargs.py:78-119 | Builds that image, padded: on the first 256-byte boundary from a given start, or else on the last one from which it ends by the given end or the output address; without arguments everything is zero |
| BootArgs.Arglist.Encode | apps/.gdb-bootargs.py:54-75 | The debugger script writes the same image below 0xc0000 on a 256-byte boundary and sets r0 and r1 to argc and argv |
| BootArgs.SamePlacement | apps/.gdb-bootargs.py:62-65 | The debugger script and the loader place equal arguments at the same address |
| BootRam.RamImagePreserved | script/boot.py:289-346 | For every list of RAM segments that the loader accepts (those that overlap outside bank 3 make it fail, see Load), every entry, every initial memory and every content that the reset leaves in bank 3: after commands, reset and trampoline every covered octet is that of a direct load and the program has been entered |
| BootRam.RamSegmentsFit | script/boot.py:293-311 | For every list of RAM segments the staging area ends at most 0x10100 octets above RAM, so staging area and trampoline always fit the address space |
| Xex.BlockOctets | script/boot.py:67-70 | Every octet of a block is masked with the tweak before the cipher and after it |
| Gf2.Gf2Mul | script/boot.py:44-55 | On any number of octets the carry loop computes multiplication by x modulo x^n + x^7 + x^2 + x + 1 of the little-endian polynomial |
| Gf2.DoubleLinear | script/boot.py:44-55 | Doubling distributes over xor |
| Gf2.DoubleInjective | script/boot.py:44-55 | Different values have different doubles |
| Xex.XexEncrypt | script/boot.py:62-74 | For whole blocks the loop is the block-by-block mode; a partial last block is an error |
| Xex.BlockByBlock | script/boot.py:62-74 | The result has the length of the data, and its block j is masked before and after the cipher with the initial tweak doubled j times |
| Xex.Decrypts | script/boot.py:62-74 | Running the mode with the inverse of the cipher gives the data back, for every block permutation and every whole number of blocks |
| Xex.TweaksStayApart | script/boot.py:72-72 | Different initial tweaks never give the same tweak at the same block |
| Xex.BxorTwice | script/boot.py:41-42 | Masking twice with the same mask gives the block back |
| HioResponses.SoundNext | script/hostio.py:209-263 | Every step of every caller, of the reader thread and of the device keeps the accounting of semaphore, queue, counters and messages in flight |
| HioResponses.SoundRuns | script/hostio.py:319-347 | So it holds in every state of every interleaving |
| HioResponses.WaitGetsNextResponse | script/hostio.py:328-347 | In every interleaving of any number of callers, with timeouts at any point: a caller that acquired the semaphore finds a response queued, and the k-th such caller gets the k-th response received; that answers its own request if and only if no wait has ever timed out, and carries its transaction number if and only if the number of timeouts is a multiple of 65536 |
| HioCalls.OneRequestPerCall | script/hostio.py:319-347 | In every interleaving: when nobody is in a call, exactly as many requests have been written as calls were started, enable_suspend included, and each was answered or timed out |
| HioCalls.RequestsAreCalls | script/hostio.py:319-347 | At every moment the calls started are the requests written and those still owed |
| HioCalls.FlagAsAsked | script/hostio.py:431-440 | Under the usage rule: when nobody is in a call the suspend flag is what the last enable_suspend asked for, and the config request of every enable_suspend is written while the flag is down |
| HioCalls.AwakenedMeans | script/hostio.py:239-240 | What the history calls awakened is, in every run: a wakeup indication was handled after the last sleep request was written |
| HioSleep.OrderlyNext | script/hostio.py:431-455 | Each step allowed by the usage rule keeps exactly one token among: leave to doze, wakeup indication, woken caller, outstanding request, sleep about to be sent |
| HioSleep.SleepSafety | script/hostio.py:431-455 | In every run under the usage rule: a sleep request is written only when no request is outstanding or about to be written; with suspend enabled every request is written after a wakeup indication since the last sleep request; no message meets a dozing device |
| HioProgress.NoDeadlock | script/hostio.py:319-347 | In every such run, while a call is in progress some thread or the device can move without a timeout |
| HioProgress.RankDecreases | script/hostio.py:209-225 | Each such move uses up a bounded resource |
| HioProgress.CallsReturn | script/hostio.py:319-347 | So every call returns: only boundedly many moves follow any state, in any order, and when none is left every caller is idle |
| HioRaces.EnableRule | script/hostio.py:431-446 | From every state that a run under the usage rule leaves with nobody in a call: starting enable_suspend(True) can lead, by steps that keep the rule, to a sleep request written while a request is outstanding or while the device already has leave to doze, if and only if suspend is enabled already or a wait has timed out |
| HioRaces.EnableAfterTimeout | script/hostio.py:431-446 | From every reachable state with nobody in a call, suspend disabled and a wait timed out, a continuation in which the config request is outstanding when the sleep request is written |
| HioRaces.EnableTwice | script/hostio.py:431-446 | From every such state with suspend enabled, a continuation in which a second sleep request is written |
| HioRaces.CallDuringEnable | script/hostio.py:431-446 | From every such state with suspend disabled, a run in which a call started during enable_suspend(True) is outstanding when the sleep request is written |
| HioRaces.EnableDuringCall | script/hostio.py:431-446 | From every such state with suspend disabled and no wait timed out, a run in which enable_suspend(True) starts while another caller waits; that wait times out, and its late response is taken for the answer to the config request, which is outstanding when the sleep request is written |
| HioRaces.DisableDuringCall | script/hostio.py:439-455 | From every such state with suspend enabled, a run in which enable_suspend(False) clears the wakeup event just before another call begins to wait for it; in every continuation, with wakeup timeouts wherever they can occur, neither call returns (each waits or has raised "Wakeup TIMEOUT"), the call mutex is never released, and no request is ever written again |
| HioRaces.CallDuringDisable | script/hostio.py:439-455 | The same when the call starts during enable_suspend(False) |
| HioRaces.SuspendReached | script/hostio.py:431-438 | With any number of threads a state with suspend enabled and nobody in a call is reached under the usage rule |
| HioRaces.TimeoutReached | script/hostio.py:328-347 | So is a state with suspend disabled, nobody in a call and a wait timed out |
| HioLink.Link.ReadExactly | script/hostio.py:350-365 | Collects exactly the octets the specification names, however the transport cuts them into short reads; a quiet moment ends it |
| HioLink.Link.ReadMsg | script/hostio.py:349-366 | The result and what is left unread depend only on what arrives, not on how it is cut |
| HioLink.WriteMsg | script/hostio.py:313-317 | Refused if and only if above the size limit; otherwise a reader takes exactly the message from the octets written, whatever follows them |
| HioLink.FrameOctets | script/hostio.py:313-317 | The length in two octets, least significant first, and the message |
| HioLink.SessionRoundTrip | script/hostio.py:313-366 | For every sequence of messages and every pattern of quiet moments between them, repeated reading returns exactly the messages in order |
| HioMessage.Message.Pack | script/hostio.py:105-123 | Succeeds if and only if the header and every paired argument fit their formats; the payload is the header and the fields in order |
| HioMessage.Message.Unpack | script/hostio.py:125-148 | Succeeds if and only if the payload is long enough for every field in turn; header and values are then those of the specification |
| HioMessage.FieldsRoundTrip | script/hostio.py:105-148 | For every field list and every packable argument list, unpacking gives the arguments back (text fitted to its field) if and only if what follows each variable array is shorter than one of its elements |
| HioMessage.LastVariable | script/hostio.py:105-148 | Which is so for every list whose only variable array comes last |
| HioMessage.Swallowed | script/hostio.py:105-148 | A variable array of octets followed by a number never reads back |
| HioMessage.MessageRoundTrip | script/hostio.py:105-148 | The same with group, message and transaction number |
| HioMessage.IntRoundTrip | script/hostio.py:110-117 | Signed and unsigned numbers of every width survive |
| HioMessage.HeaderOctets | script/hostio.py:105-106 | Group, message and transaction number in four octets |
| HioMessage.NumberOctets | script/hostio.py:110-117 | The octets of every number of one or two octets, signed and unsigned, and which numbers fit |
| HioMessage.WordOctets | script/hostio.py:110-117 | The same for four octets |
| HioMessage.LongOctets | script/hostio.py:110-117 | The same for eight octets |
| HioMessage.StringOctets | script/hostio.py:110-120 | Byte strings go out as they are in a variable array of octets, cut or filled with zeros where the size is given, and nowhere else |
| HioMessage.ListOctets | script/hostio.py:110-120 | Lists go out number by number, and only in arrays of their length or of variable length |
| HioSync.Sync | script/hostio.py:420-429 | Stops only right after an occurrence of the pattern and consumes no more; with a safe pattern it stops at the first occurrence and misses none |
| HioSync.FoundIffSafe | script/hostio.py:420-429 | The pattern is found on every stream that contains it if and only if, wherever a beginning of it recurs inside a longer beginning, it continues alike |
| HioSync.MatchedIsRecent | script/hostio.py:424-429 | What is held is always the end of what was read, and a beginning of the pattern or a single octet |
| HioSync.FreshStartIsSafe | script/hostio.py:420-429 | A pattern whose first octet does not recur is safe |
| HioSync.MissedExample | script/hostio.py:420-429 | The pattern aab is missed in aaab |
| GdbFrame.Encode | script/gdbremote.py:36-44 | The loop escapes every octet in turn, as the escaping specification says |
| GdbFrame.Decode | script/gdbremote.py:47-56 | The loop undoes escapes pairwise and fails if and only if an escape has nothing after it |
| GdbFrame.DecodeInvertsEncode | script/gdbremote.py:36-56 | Decoding gives back every payload |
| GdbFrame.EscapedIsPlain | script/gdbremote.py:36-44 | No start or end marker is left in an escaped payload |
| GdbFrame.FlipIsXor | script/gdbremote.py:40-42 | What follows an escape is the octet exclusive-or 0x20 |
| GdbFrame.EscapedOctet | script/gdbremote.py:36-44 | 23, 24, 2a and 7d become 7d 03, 7d 04, 7d 0a and 7d 5d; every other octet stays as it is |
| GdbFrame.EscapedAppend | script/gdbremote.py:36-44 | Octets are escaped one by one |
| GdbFrame.UnescapedPair | script/gdbremote.py:47-56 | 7d and any octet are read as that octet exclusive-or 0x20, any other octet as itself |
| GdbFrame.FrameOctets | script/gdbremote.py:96-107 | 24, the escaped payload, 23, and the sum of what is between modulo 256 in two lower-case digits |
| GdbFrame.SumAdds | script/gdbremote.py:96-107 | The sum adds up the octets |
| GdbFrame.ShortPackets | script/gdbremote.py:123-155 | An interrupt octet is a packet by itself, and a frame end without a start an error |
| GdbFrame.Number2Reads | script/gdbremote.py:73 | The two checksum octets are read as Python reads a number in base 16: blanks around it, then a sign, then digits |
| GdbFrame.DigitValues | script/gdbremote.py:73 | Which octets are digits in base 16, and their values |
| GdbFrame.Connection.SendPacket | script/gdbremote.py:96-107 | Sends the frame and is acknowledged if and only if the next octet is an ACK |
| GdbFrame.Connection.ReadPkt | script/gdbremote.py:123-155 | Result, unread rest and octets sent are those of the receiver specification on every input |
| GdbFrame.ReadAttempt | script/gdbremote.py:70-75 | After any stray octets, a frame with any body and checksum octets is delivered with an ACK if and only if the checksum is right, and otherwise answered with one NAK and skipped |
| GdbFrame.Resynchronises | script/gdbremote.py:123-155 | After any number of damaged frames with stray octets between them, a frame made for any payload is delivered: one NAK per damaged frame, one ACK, the rest unread, and the body decodes to the payload |
| GdbRegisters.Swap | script/gdbremote.py:59-68 | The chop loop reverses the pairs of digits |
| GdbRegisters.SwapInvolution | script/gdbremote.py:59-68 | Swapping twice is the identity if and only if the length is even or all digits are equal |
| GdbRegisters.OddSwapExample | script/gdbremote.py:59-68 | Three different digits come back rotated |
| GdbRegisters.Hex8ReadsBack | script/gdbremote.py:201-207 | Numbers written with at least eight hexadecimal digits are read back |
| GdbRegisters.CommandOctets | script/gdbremote.py:201-207 | The octets of the two register commands |
| GdbRegisters.HexIsShort | script/gdbremote.py:202-206 | Numbers are written without leading zeros, or with as many as make eight digits |
| GdbRegisters.FirstOctets | script/gdbremote.py:371-389 | The first octet decides: an empty packet or one beginning with k ends the session, p and P are the register commands, and only P changes registers |
| GdbRegisters.Separators | script/gdbremote.py:382-390 | Colons, commas and equals signs separate arguments, and nothing else does |
| GdbRegisters.RegisterSizes | script/gdbremote.py:600-637 | The target has 23 registers, all zero at first; 19 and 21 keep one bit, 22 two, 20 eight and the others 32 |
| GdbRegisters.WriteAnswers | script/gdbremote.py:404-409 | A write is answered OK or E01 |
| GdbRegisters.ServerReads | script/gdbremote.py:371-402 | A read command answers with the swapped value and changes nothing |
| GdbRegisters.ServerWrites | script/gdbremote.py:386-409 | A write command sets exactly the named register to the value that arrives, reduced to its size, and answers OK or E01, for every value |
| GdbRegisters.ArrivesIff | script/gdbremote.py:201-207 | The value that arrives is the value sent if and only if it has an even number of digits, as every 32-bit value has, or all its digits are equal |
| GdbRegisters.OddDigitsExample | script/gdbremote.py:201-207 | No even power of 16 from 2^32 on arrives unchanged |
| GdbSession.ReadPktReply | script/gdbremote.py:110-121 | Console packets are acknowledged and passed over; the first other packet is returned |
| GdbSession.ConsoleIsSkipped | script/gdbremote.py:110-121 | Any number of console packets before a reply leaves the reply unchanged, with one ACK each |
| GdbSession.ConsolePackets | script/gdbremote.py:110-121 | Console packets begin with a capital O and are not the answer OK |
| GdbSession.Session.Serve | script/gdbremote.py:371-391 | One turn of the server: it reads a packet, acts on it, acknowledges it and sends the answer; a console packet makes it fail, since it has no setting for them |
| GdbSession.Ask | script/gdbremote.py:175-178 | The client half: command sent, acknowledgement taken, answer read and acknowledged |
| GdbSession.Session.Cmd | script/gdbremote.py:175-178 | Client and server joined by the octets each sends the other: the answer that arrives is the one the server gave |
| GdbSession.Session.GetReg | script/gdbremote.py:201-203 | Returns the value in the register file of the server, zero for registers that do not exist, and changes nothing |
| GdbSession.Session.SetReg | script/gdbremote.py:205-207 | Changes exactly the named register, to the value that arrives reduced to its size; for 32-bit values that is the value itself; succeeds if and only if the register exists |
| GdbSession.Session.WriteThenRead | script/gdbremote.py:201-207 | Over the session: after any sequence of set_reg calls with 32-bit values, get_reg returns the last value written to the register reduced to its size, or what it held before |
| GdbSession.LastWriteWins | script/gdbremote.py:600-605 | After any sequence of writes a register reads as the last value written to it reduced to its size, or as before if there was none |
| Wcm.IeLocate | script/wcm.py:307-318 | The walk returns what the specification says on every octet string |
| Wcm.LocatesFirst | script/wcm.py:307-318 | On a well-formed list the body of the first element with the tag is found, and none if there is none |
| Wcm.LocateFailsIff | script/wcm.py:307-318 | The walk reads past the buffer if and only if the buffer is a list of elements without the tag followed by one stray octet |
| Wcm.OneOctetExample | script/wcm.py:307-318 | Any single octet makes the walk read past the buffer |
| Wcm.IeAuthmodeDecode | script/wcm.py:372-467 | Adds to any mask exactly the own mask of the element, which does not depend on that mask nor on anything after the element; no index leaves the buffer |
| Wcm.AddSuite | script/wcm.py:438-456 | One suite adds exactly its own mode: 00 0f ac 1, 2 and 8 add 0x0010, 0x0002 and 0x0004 in an RSN element, 00 50 f2 1 and 2 add 0x0008 and 0x0001 in a WPA element, and no other adds anything |
| WcmModes.IeAuthmode | script/wcm.py:470-484 | The walk computes the mask of the specification on every octet string, without leaving the buffer |
| WcmModes.ModesAreUnion | script/wcm.py:470-484 | On a well-formed list the mask is the union of the own masks of the elements |
| WcmModes.OrderDoesNotMatter | script/wcm.py:470-484 | Lists that are permutations of each other have the same mask |
| WcmModes.ElementAnnounces | script/wcm.py:401-465 | An RSN or WPA element with complete lists, of any cipher and suite counts, has the union of its suites and its capability bits |
| WcmModes.ElementBitsAreExact | script/wcm.py:438-456 | An authentication bit is set if and only if one of the listed suites announces it |
| WcmModes.RsnBits | script/wcm.py:372-467 | For every complete RSN element, octet by octet: each of the 16 bits is set if and only if the suite that stands for it is listed, or the capability bit that stands for it is set |
| WcmModes.WpaBits | script/wcm.py:372-467 | The same for every complete WPA element |
| WcmModes.OtherElements | script/wcm.py:388-400 | Elements with other tags, or of other vendors, set nothing |
| WcmModes.CutShort | script/wcm.py:409-436 | An element cut off anywhere before the end of its suite list sets nothing |
| Panic.PreadIsSliceIff | script/bits/flash.py:392-398 | A partition read equals the slice of the partition if and only if it ends within it, or is empty, or the partition starts at zero or ends the flash, or it starts beyond the end address or the flash |
| Panic.PreadOvershootExample | script/bits/flash.py:392-398 | A read that returns octets behind the partition |
| Panic.RecordsReadBack | script/flash.py:418-449 | The records of any image, with padding of any content, are read back in order, followed by whatever is readable after them |
| Panic.ExactlyTheRecordsIff | script/flash.py:418-449 | Exactly the records are extracted if and only if the readable octets end there or an erased tag follows |
| Panic.PartitionExtractedIff | script/flash.py:418-449 | A partition that holds an image and then some fill is extracted exactly if and only if an end is found in what reads can reach after the image: an erased tag in the fill, or, where the fill is shorter than a header, whatever the flash behind the partition holds |
| Panic.RunsOn | script/flash.py:418-449 | A partition filled to its end by a record, with another record behind it in the flash: both are extracted |
| Panic.ChooseName | script/flash.py:437-443 | The base name if free, otherwise the one with the smallest free number; the search ends |
| Panic.Execute | script/flash.py:409-449 | One archive entry per record, in order, with its data and a name chosen among those before it; the stored names are pairwise distinct if and only if the tags that contain a NUL differ before it; the walk ends on every flash content |
| Panic.FirstNames | script/flash.py:430-436 | cons becomes console.txt, trce becomes trace.bin, other tags their text with a replacement character for what is not ASCII |
| Panic.SecondNames | script/flash.py:437-443 | A second entry of the same name gets 1_ in front |
| Panic.EndMarks | script/flash.py:418-425 | The walk ends at fewer than eight octets or at four octets ff |
| Panic.NamesDistinctIff | script/flash.py:430-445 | The stored names are pairwise distinct if and only if the tags that contain a NUL differ before it |
| Panic.SameNameExample | script/flash.py:430-445 | Two equal tags with NULs that are not kept apart |
| Panic.FewTaken | script/flash.py:439-441 | No more numbers can be taken than there are names |
| Icmp.Echo.constructor | script/ping.py:47-71 | Type, code, identifier, sequence number and payload are where a receiver reads them; the packet passes its check if and only if the chained checksum fits 16 bits |
| Icmp.ChainedIsSum | script/ping.py:68-80 | The chained checksum is congruent to the sum of all words modulo 65535 and at most 0x1fffe |
| Icmp.WordSumIs | script/ping.py:73-80 | The sum is over big-endian words, and an odd last octet counts as if a zero followed it |
| Icmp.PacketVerifiesIff | script/ping.py:52-70 | The packet sums to a multiple of 65535 if and only if the chained checksum is at most 0xffff |
| Icmp.RejectedExample | script/ping.py:52-70 | A four-octet payload whose packet every receiver rejects |

## Left out

- Sockets, serial lines, SPI, GPIO, FTDI and OpenOCD access, ELF parsing and the crypto library: inputs, outputs,
  segments and block ciphers are parameters of the model.
- BootCommand.HonestDeviceConfirms: excludes streams with READ commands before RAM writes; `BootCommand.EarlyReadExample` is one that fails, and `BootVerify.AcceptedIff` is the exact condition for all streams.
- MemoryMap.Memory.Add: excludes empty ranges, which no caller adds, and says nothing of the list after an exception, nor of what is left beside a number, which nothing reads.
- BootLoader.Stream.CmdWrite: excludes payloads of 64 KiB or more, which the header cannot express; the exact condition for an exception is stated for writes that are not divided by bank 3.
- BootLoader.Stream.Load: takes segments, staging areas and arguments within 32 bits.
- BootImage.LoadPreservesImage: with segments that overlap outside bank 3 it is about commands that the code does not finish emitting.
- BootReset.BootsProgram: that the reset control register causes the reset, and that the device then starts at the vector, is the meaning of those registers and not part of the model.
- `SecureBootStream`, SIGN commands, `cmd_pbwrite` and the splitting of device writes into 4096-octet pieces.
- HioProtocol: requests without a response, direct use of `call_async`, and wakeups that time out, except in what follows `HioRaces.DisableDuringCall` and `HioRaces.CallDuringDisable`. A wait for the wakeup event ends when the flag is seen set; Python also releases a thread that was already waiting when the flag was set and cleared again.
- HioSleep.SleepSafety: is stated under the usage rule `Polite`, since it fails without it (`HioRaces`).
- HioLink.Link.ReadMsg: a quiet moment inside a message loses the octets read so far, as in the code; the session theorem has quiet moments only between messages.
- HioMessage.Message.Pack: says nothing of the object after an error.
- HioMessage.Message.Unpack: leaves out the conversion of address fields to address objects.
- HioSync.Sync: returns when the stream ends, where the code goes on polling.
- GdbFrame.Connection.Recv: returns as many octets as asked for while the stream has them; short reads of a checksum and read timeouts are not modelled.
- GdbRegisters.Process: other packets than p and P, and other spellings of numbers than plain hexadecimal digits.
- GdbSession.Session.SetReg: takes values that are not negative.
- Wcm.IeAuthmodeDecode: takes the capability bits as coded.
- Panic.Execute: reads of the flash that fail, and archives that refuse an empty name.
- Icmp.PacketVerifiesIff: sums of 2^32 and more, which no packet reaches, and ICMPv6 requests, whose checksum the code leaves to others.
- The command line tools, code generation, signatures, breakpoints, memory packets and ELF symbol lookup.
