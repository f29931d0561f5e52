# DUNE pl-nvme host and driver core in Dafny

This project models the sequential core of the DUNE pl-nvme test software. The pieces are:

- **The `BFifoBytes` byte FIFO** (`test/BeamLibBasic.cpp`). This is a ring buffer over a fixed array with a
  read position and a write position. It always keeps one slot free.
- **The host side of the FPGA NVMe interface**, in its three variants: `test/`, `source/DuneNvme/test/` and
  `source/DuneNvmeTest/test/` `NvmeAccess`. Each variant builds 16-word NVMe submission commands and sends
  them to the FPGA queue engine or into host queue memory. It answers the drive's memory reads with reply
  packets of at most 32 data words. It applies the drive's memory writes: completion entries advance the
  completion heads, and block data goes to the block memory. It also reads and writes NVMe registers through
  request/reply packets.
- **The packet header layouts** of the three `NvmeAccess.h` files. Each is an encode/decode pair over 32-bit
  words, assuming LSB-first bit-field allocation.
- **The DMA channel bookkeeping of the two `bfpga.c` Linux drivers**: channel initialisation, read and write,
  completion events and interrupts, starting the card-to-host engines, register offset arithmetic, the mmap
  length check and the ioctl branches.
- **The `genData.cpp` test-data packer.** It packs pairs of 24-bit (r, i) samples into three 32-bit words and
  renders words in decimal or binary.
- **The `new_readout.py` capture check.** It checks the capture length and renders the bytes as one decimal
  stream.

Stateful code is modelled as classes over arrays and fields, each method proved against a specification
function:

- `BeamLib.FifoBytes` (`fifo.dfy`);
- the three `NvmeAccess` classes (`test_nvme_access.dfy`, `dune_nvme_access.dfy`, `stream_nvme_access.dfy`);
- the two driver `Device` classes (`test_bfpga.dfy`, `dune_bfpga.dfy`);
- `GenData.Generator` (`gen_data.dfy`).

Pure code is modelled as functions and lemmas:

- header layouts: `xilinx_packets.dfy`, `stream_packets.dfy`;
- reply splitting: `read_completions.dfy`;
- NVMe constants: `nvme_host.dfy`;
- shared driver arithmetic: `dma_common.dfy`;
- decimal rendering: `decimal.dfy`;
- the capture check: `new_readout.dfy`;
- 32-bit word helpers: `words.dfy`.

Outside effects are modelled as values:

- Packets the host sends are appended to a `sent` log.
- Register writes of the drivers are appended to a `regWrites` log.
- Values the hardware provides are parameters: register reads, the DMA metadata word, replies the receive
  thread stores, allocation and `copy_to_user` results.

The `source/DuneNvmeTest` host answers a read with chunks that all copy from the request's start offset,
because that variant never advances the address between chunks. This is modelled as written:
`DuneNvmeTestAccess.RepliesRepeatStart` proves that every chunk holds the words at the start offset.

## Model

| member | source | states |
|---|---|---|
| BeamLib.FifoBytes.constructor | test/BeamLibBasic.cpp:91-96 | a new FIFO has the requested size, both positions at 0 and no queued bytes |
| BeamLib.FifoBytes.Clear | test/BeamLibBasic.cpp:106-109 | clear resets both positions to 0, keeps size and buffer, and empties the queue |
| BeamLib.FifoBytes.Size | test/BeamLibBasic.cpp:111-113 | size returns the configured size |
| BeamLib.FifoBytes.Resize | test/BeamLibBasic.cpp:115-125 | resize allocates a fresh buffer of the new size, resets both positions, empties the queue and returns 0 |
| BeamLib.FifoBytes.ReadAvailable | test/BeamLibBasic.cpp:160-167 | the bytes to read are the ring distance from readPos to writePos: advancing readPos by that count reaches writePos |
| BeamLib.FifoBytes.WriteAvailable | test/BeamLibBasic.cpp:127-134 | the free space plus the queued bytes is size − 1 in every valid state, so one slot always stays free |
| BeamLib.FifoBytes.Write | test/BeamLibBasic.cpp:136-158 | write stores byte k at position writePos + k around the ring, moves writePos by the length around the ring, leaves readPos alone and returns 0; within the free space the queue becomes the old queue followed by the data |
| BeamLib.FifoBytes.Read | test/BeamLibBasic.cpp:169-191 | read returns the bytes from readPos onward around the ring, moves readPos by num around the ring, leaves writePos alone and returns 0; within the queued bytes it returns the queue's first num bytes and leaves the rest queued |
| BeamLib.AdvClosed | test/BeamLibBasic.cpp:148-151 | advancing a ring position by at most a full turn equals p + m, or p + m − n once it reaches the end |
| BeamLib.AdvAdd | test/BeamLibBasic.cpp:141-155 | advancing by a and then by b is advancing by a + b, so chunked copies advance like one move |
| BeamLib.RingDistance | test/BeamLibBasic.cpp:163-166 | both branches of the available count take readPos to writePos |
| BeamLib.WriteSpecAppend | test/BeamLibBasic.cpp:141-155 | writing a + b is writing a, then writing b at the advanced position |
| BeamLib.WriteSpecChunk | test/BeamLibBasic.cpp:146 | a write that does not wrap is one contiguous memcpy into the buffer |
| BeamLib.ReadSpecAppend | test/BeamLibBasic.cpp:174-188 | reading a + b bytes is reading a, then b from the advanced position |
| BeamLib.ReadSpecChunk | test/BeamLibBasic.cpp:179 | a read that does not wrap is one contiguous memcpy out of the buffer |
| BeamLib.ReadSpecAt | test/BeamLibBasic.cpp:174-188 | byte k of a read is the buffer byte k positions after readPos around the ring |
| BeamLib.WriteSpecAt | test/BeamLibBasic.cpp:141-155 | after a write, the position m steps after writePos holds data byte m if m is below the length, and is unchanged otherwise |
| BeamLib.WriteMissesQueued | test/BeamLibBasic.cpp:127-155 | a write within writeAvailable never overwrites a queued byte |
| BeamLib.WriteThenReadAll | test/BeamLibBasic.cpp:136-191 | FIFO round trip: after a write within the free space, reading everything yields the old queue followed by the data |
| BeamLib.WriteExtendsQueue | test/BeamLibBasic.cpp:141-167 | after a write within the free space, the queue measured by readAvailable is the old queue followed by the data |
| BeamLib.ReadShortensQueue | test/BeamLibBasic.cpp:160-191 | a read of num queued bytes returns the queue's prefix and leaves its suffix queued |
| BeamLib.WriteStep | test/BeamLibBasic.cpp:142-151 | one iteration of the write loop extends the written prefix by one memcpy chunk and wraps writePos to 0 exactly on reaching size |
| BeamLib.ReadStep | test/BeamLibBasic.cpp:175-184 | one iteration of the read loop extends the read prefix by one memcpy chunk and wraps readPos to 0 exactly on reaching size |
| Words.NextIndexInRing | test/NvmeAccess.cpp:288-290 | incrementing a queue index and resetting it at oqueueNum keeps it below oqueueNum and wraps from the last slot to 0 |
| Words.ChunksSplit | test/NvmeAccess.cpp:385-410 | the reply chunk sizes of a read are each between 1 and 32, all but the last are 32, they sum to numWords, and there are ⌈numWords/32⌉ of them |
| Words.Signed32 | source/DuneNvme/sim/testbench/genData.cpp:35-37 | %d prints a word as its two's-complement value, which is negative exactly when bit 31 is set |
| Decimal.NatToDecimal | test/new_readout.py:24 | str of a natural number is a non-empty digit string with no leading zero |
| Decimal.NatRoundTrip | test/new_readout.py:24 | parsing str(n) gives back n |
| Decimal.IntRoundTrip | source/DuneNvme/sim/testbench/genData.cpp:35-37 | the %d text of an integer is a sign and digits that parse back to the same integer |
| Decimal.ByteDecimalLength | test/new_readout.py:24 | str of a byte has 1 to 3 characters |
| NewReadout.ReadFile | test/new_readout.py:15-16 | the list read from the file has one element per byte, in order, each in [0, 255] |
| NewReadout.LenCheckVerdict | test/new_readout.py:38-47 | lenCheck reports no blocks missing iff the length is 4096 · numBlocksRead, in which case the reported size is 4 · numBlocksRead kBytes; the list is echoed iff numBlocksRead ≤ 2 |
| NewReadout.DataStream | test/new_readout.py:21-28 | dataStream returns the separator-free concatenation of str of each element and prints it iff numBlocksRead ≤ 2 |
| NewReadout.StreamAppend | test/new_readout.py:24 | the stream of a concatenation is the concatenation of the streams |
| NewReadout.StreamLength | test/new_readout.py:24 | the stream of n bytes is all digits and between n and 3n characters long |
| NewReadout.FileStreamLength | test/new_readout.py:15-28 | the stream of a file is all digits, between n and 3n characters for n bytes, and empty iff the file is |
| NewReadout.StreamNotInjective | test/new_readout.py:24 | [1, 23] and [12, 3] render to the same stream "123", so the rendering loses the byte boundaries |
| GenData.FirstWordParts | source/DuneNvme/sim/testbench/genData.cpp:22 | the first word carries r in its top 24 bits and the top 8 bits of i in its low byte |
| GenData.SecondWordParts | source/DuneNvme/sim/testbench/genData.cpp:23-27 | the second word carries the low 16 bits of the first i in its top half and the top 16 bits of the second r in its low half |
| GenData.ThirdWordParts | source/DuneNvme/sim/testbench/genData.cpp:28 | the third word carries the low byte of the second r in its top byte and the second i in its low 24 bits |
| GenData.PackRoundTrip | source/DuneNvme/sim/testbench/genData.cpp:22-28 | for 24-bit samples, unpacking the three words returns both (r, i) pairs unchanged |
| GenData.WordsRoundTrip | source/DuneNvme/sim/testbench/genData.cpp:22-28 | every three words are the packing of exactly one pair of 24-bit samples, so the packing is onto |
| GenData.LineRoundTrip | source/DuneNvme/sim/testbench/genData.cpp:35-37 | reading back a %d line recovers the word |
| GenData.LinesCount | source/DuneNvme/sim/testbench/genData.cpp:35-37 | the text holds exactly one newline per word written |
| GenData.PackAllRoundTrip | source/DuneNvme/sim/testbench/genData.cpp:20-45 | packing a sequence of 24-bit sample pairs and unpacking the words gives the samples back |
| GenData.UnpackAllRoundTrip | source/DuneNvme/sim/testbench/genData.cpp:20-45 | unpacking and repacking any word sequence gives it back |
| GenData.Generator.constructor | source/DuneNvme/sim/testbench/genData.cpp:16-17 | the static state starts at 0 with a zeroed data[3] |
| GenData.Generator.Output | source/DuneNvme/sim/testbench/genData.cpp:15-46 | state 0 stores data[0] and data[1] from (r, i), moves to state 1 and writes nothing; state 1 completes data[1] and data[2], writes the three words as %d lines and returns to state 0; the result is always 0 |
| GenData.Generator.Test1 | source/DuneNvme/sim/testbench/genData.cpp:48-58 | test1 feeds the 4096 samples (c, 0x10000 \| c) and, from state 0, appends the %d lines of their packing |
| GenData.Test1Word | source/DuneNvme/sim/testbench/genData.cpp:55 | 0x10000 \| c is 0x10000 + c for c < 4096 |
| GenData.Test1Decodes | source/DuneNvme/sim/testbench/genData.cpp:53-57 | test1's 4096 calls give 2048 triples that decode back to the samples fed |
| GenData.Generator.Test2OutputOne | source/DuneNvme/sim/testbench/genData.cpp:74-76 | one pass of the innermost loop feeds the next test2 sample, extending the samples fed so far by exactly that sample |
| GenData.Generator.Test2SubbandSamples | source/DuneNvme/sim/testbench/genData.cpp:71-77 | the loop over s feeds the 8 samples of one subband, so the samples fed so far stay exactly the test2 sequence, 8 longer |
| GenData.Generator.Test2 | source/DuneNvme/sim/testbench/genData.cpp:60-81 | test2 feeds 8·4·8 = 256 samples in loop order and, from state 0, appends the %d lines of their packing |
| GenData.Test2Call | source/DuneNvme/sim/testbench/genData.cpp:69-76 | the call at loop indices (n, subband, s) is sample 32n + 8·subband + s, with sample value 8n + s |
| GenData.Test2Shape | source/DuneNvme/sim/testbench/genData.cpp:74-75 | every test2 sample is 24-bit, r has tag 3 and i has tag 2 at bit 22, and they agree below bit 22 |
| GenData.Test2Decodes | source/DuneNvme/sim/testbench/genData.cpp:69-80 | test2's 256 calls give 128 triples that decode back to the samples fed |
| GenData.Binary | source/DuneNvme/sim/testbench/genData.cpp:6-11 | the binary rendering has exactly 32 characters |
| GenData.BinaryRoundTrip | source/DuneNvme/sim/testbench/genData.cpp:3-13 | every character is '0' or '1', most significant bit first, and parsing them back gives the word |
| GenData.OutputBinary | source/DuneNvme/sim/testbench/genData.cpp:3-13 | outputBinary appends the 32-bit binary rendering and a newline |
| NvmeHost.DoorbellOffsets | test/NvmeAccess.cpp:292-450 | 0x1000, 0x1004, 0x1008 and 0x100C are the submission-tail and completion-head doorbells of queues 0 and 1 with stride 0 (NVM Express Base Specification 1.4, section 3.1) |
| NvmeHost.CompletionStatus | test/NvmeAccess.cpp:418 | data[3] >> 17 is below 0x8000 |
| NvmeHost.CompletionStatusIsStatusField | test/NvmeAccess.cpp:418 | data[3] >> 17 recovers the status field of completion dword 3 whatever the phase bit and command identifier (NVM Express Base Specification 1.4, section 4.6) |
| NvmeHost.CommandDword0Layout | test/NvmeAccess.cpp:248 | command word 0 holds the opcode in its low half and 0x100 + (id mod 256) in its high half |
| XilinxPackets.PackAddress | test/NvmeAccess.h:90 | a 64-bit address is its low word plus its high word times 2^32 |
| XilinxPackets.PackRequestWord2 | test/NvmeAccess.h:91-94 | request word 2 holds numWords in bits 0-10, request in bits 11-14 and requesterId in bits 16-31, each recoverable |
| XilinxPackets.PackTag | test/NvmeAccess.h:95-98 | request word 3 holds tag in bits 0-7, completerId in bits 8-23 and requesterIdEnable in bit 24, each recoverable |
| XilinxPackets.RequestRoundTrip | test/NvmeAccess.h:90-98 | decoding the four encoded request words returns every in-width field unchanged |
| XilinxPackets.RequestWordsRoundTrip | test/NvmeAccess.h:90-98 | re-encoding a decoded request gives the words back with only the fill bits cleared |
| XilinxPackets.PackReplyWord0 | test/NvmeAccess.h:108-111 | reply word 0 holds address in bits 0-11, error in bits 12-15 and numBytes in bits 16-28, each recoverable |
| XilinxPackets.PackReplyWord1 | test/NvmeAccess.h:112-115 | reply word 1 holds numWords in bits 0-10, status in bits 11-13 and requesterId in bits 16-31, each recoverable |
| XilinxPackets.PackReplyWord2 | test/NvmeAccess.h:116-119 | reply word 2 holds tag in bits 0-7, completerId in bits 8-23 and the reply flag in bit 31, each recoverable |
| XilinxPackets.ReplyRoundTrip | test/NvmeAccess.h:108-119 | decoding the three encoded reply words returns every in-width field unchanged |
| XilinxPackets.ReplyWordsRoundTrip | test/NvmeAccess.h:108-119 | re-encoding a decoded reply gives the words back with only the fill bits cleared |
| XilinxPackets.EncodeReplyNoCompleter | source/DuneNvme/test/NvmeAccess.h:96-106 | the DuneNvme reply layout has no completerId; it coincides with the test layout whenever completerId is 0 |
| XilinxPackets.DecodeReplyNoCompleter | source/DuneNvme/test/NvmeAccess.h:96-106 | decoding a DuneNvme reply yields in-width fields with completerId 0 |
| XilinxPackets.ReplyNoCompleterRoundTrip | source/DuneNvme/test/NvmeAccess.h:96-106 | DuneNvme replies round-trip for every in-width field value |
| XilinxPackets.ReplyBitClassifies | test/NvmeAccess.cpp:349 | bit 31 of word 2 is set exactly for replies with the reply flag; a request looks like a reply only when requesterId ≥ 0x8000 |
| XilinxPackets.ZeroReply | test/NvmeAccess.h:104-106 | the reply structure as the constructor zeroes it has every header field within its bit width and holds 32 data words |
| XilinxPackets.DecodeReplyPacket | test/NvmeAccess.cpp:350 | the stored reply packet has in-width header fields and 32 data words |
| XilinxPackets.DecodeReplyPacketNoCompleter | source/DuneNvme/test/NvmeAccess.cpp:314 | the DuneNvme stored reply is the test decoding with completerId forced to 0 |
| XilinxPackets.HostRequest | source/DuneNvme/test/NvmeAccess.cpp:472-477 | the request header the host builds (requesterId 1, requesterIdEnable 1) has every field within its bit width, so it encodes without loss |
| XilinxPackets.RequestWireShape | test/NvmeAccess.cpp:621-633 | a request on the wire is its 16-byte header, followed by numWords data words exactly for requests 1, 10 and 12, and it decodes back to its header |
| XilinxPackets.ReplyWireNoCompleter | source/DuneNvme/test/NvmeAccess.cpp:587-599 | a DuneNvme reply on the wire equals the test layout's wire form when completerId is 0 |
| StreamPackets.StreamRequestRoundTrip | source/DuneNvmeTest/test/NvmeAccess.h:66-74 | decoding the eight encoded request words (stream, fill, address, numWords/request, tag) returns every in-width field |
| StreamPackets.StreamRequestWordsRoundTrip | source/DuneNvmeTest/test/NvmeAccess.h:66-74 | re-encoding a decoded stream request clears only the fill words and fill bits |
| StreamPackets.StreamReplyRoundTrip | source/DuneNvmeTest/test/NvmeAccess.h:83-94 | decoding the seven encoded reply words (stream, fill, address/error/numBytes, numWords/status, tag) returns every in-width field |
| StreamPackets.StreamReplyWordsRoundTrip | source/DuneNvmeTest/test/NvmeAccess.h:83-94 | re-encoding a decoded stream reply clears only the fill words and fill bits |
| StreamPackets.ZeroStreamReply | source/DuneNvmeTest/test/NvmeAccess.h:79-81 | the stream reply structure as the constructor zeroes it has every header field within its bit width and holds 32 data words |
| StreamPackets.DecodeStreamReplyPacket | source/DuneNvmeTest/test/NvmeAccess.cpp:243 | the stored stream reply has in-width fields and 32 data words |
| StreamPackets.HostStreamRequest | source/DuneNvmeTest/test/NvmeAccess.cpp:395-399 | the stream request the host builds (stream 1, the word count cut to 11 bits) has every field within its bit width, so it encodes without loss |
| StreamPackets.RequestCodeCarriesData | source/DuneNvmeTest/test/NvmeAccess.cpp:381-512 | the four request codes (8/0 for config/memory reads, 10/1 for writes) are distinct, and a request is 32 bytes plus its data exactly when it is a write |
| StreamPackets.StreamRequestWireShape | source/DuneNvmeTest/test/NvmeAccess.cpp:508-523 | a stream request on the wire is its 32-byte header, followed by numWords data words exactly for requests 1 and 10, and it decodes back to its header |
| ReadCompletions.AdvanceInWindow | test/NvmeAccess.cpp:399-409 | moving the address by 4 · chunk keeps it in 64 bits and moves the memory word index by exactly the chunk |
| ReadCompletions.ChunkReply | test/NvmeAccess.cpp:391-399 | a reply chunk is its 3 header words followed by exactly the words copied |
| ReadCompletions.FirstChunkReply | test/NvmeAccess.cpp:391-398 | the first chunk has the reply flag, address & 0xFFF, numBytes = 4 × remaining words, numWords = min(remaining, 32), the request's tag and the completerId |
| ReadCompletions.ReadRepliesHeaders | test/NvmeAccess.cpp:385-410 | a read yields ⌈numWords/32⌉ replies; reply i has the low address bits advanced by 128·i and numBytes = 4 × (numWords − 32·i) |
| ReadCompletions.ReadRepliesCarryRange | test/NvmeAccess.cpp:385-410 | the payloads of the replies, concatenated, are exactly the numWords memory words starting at the request's word index |
| ReadCompletions.ChunkWire | test/NvmeAccess.cpp:635-643 | a reply chunk on the wire is its header followed by exactly its numWords data words |
| TestNvmeAccess.StorageRegisterWindows | test/NvmeAccess.cpp:496-502 | two addresses hit the same storage register iff they agree above bit 1; NVMe 0, NVMe 1 and the shared registers occupy disjoint word windows |
| TestNvmeAccess.PcieAddressSelectsNvme | test/NvmeAccess.cpp:527-529 | for addresses below bit 28, NVMe 1 adds 0x10000000 and any other NVMe leaves the address alone |
| TestNvmeAccess.CommandLayout | test/NvmeAccess.cpp:247-260 | the command has the opcode and 0x100 + (id mod 256) in word 0, the namespace in word 1, the address in word 6, address + 4096 in word 8, the three arguments in words 10-12 and zero elsewhere |
| TestNvmeAccess.EngineBaseValue | test/NvmeAccess.cpp:276 | the queue engine base is 0x12000000 for NVMe 1 and 0x02000000 otherwise |
| TestNvmeAccess.QueueEngineAddressLayout | test/NvmeAccess.cpp:276 | the queue engine address is the NVMe 1 bit, plus 0x02000000, plus queue << 16; pcieWrite's NVMe 1 bit leaves it unchanged |
| TestNvmeAccess.RoutingByWindow | test/NvmeAccess.cpp:368-478 | read and write routing depends only on address bits 16-23, and block writes take their word offset from the low bits |
| TestNvmeAccess.NvmeAccess.constructor | test/NvmeAccess.cpp:76-92 | the host starts with NVMe 0 and register base 0x100, 16 queue slots, tag 0 and all queue indices 0; the host memories are fresh and not cleared |
| TestNvmeAccess.NvmeAccess.SetNvme | test/NvmeAccess.cpp:159-167 | setNvme records the NVMe and selects register base 0x100 for NVMe 0, 0x200 for NVMe 1 and 0 otherwise |
| TestNvmeAccess.NvmeAccess.GetNvme | test/NvmeAccess.cpp:169-171 | getNvme returns the last NVMe set |
| TestNvmeAccess.NvmeAccess.ReadNvmeStorageReg | test/NvmeAccess.cpp:496-498 | a storage register read returns register regbase/4 + address/4 |
| TestNvmeAccess.NvmeAccess.WriteNvmeStorageReg | test/NvmeAccess.cpp:500-502 | a storage register write changes exactly register regbase/4 + address/4 |
| TestNvmeAccess.NvmeAccess.PacketSendRequest | test/NvmeAccess.cpp:621-633 | sending a request appends its wire form, whose length is 16 bytes plus 4·numWords for requests 1, 10 and 12 |
| TestNvmeAccess.NvmeAccess.PacketSendReply | test/NvmeAccess.cpp:635-643 | sending a reply appends its wire form of 12 + 4·numWords bytes |
| TestNvmeAccess.NvmeAccess.PcieWrite | test/NvmeAccess.cpp:520-566 | pcieWrite bumps the 8-bit tag and sends the header (NVMe 1 bit, request, numWords, new tag, requesterId 1, enable 1) with the data; a config write (10) stores the reply with numWords + 1 and returns its error; anything else returns 0 |
| TestNvmeAccess.NvmeAccess.PcieRead | test/NvmeAccess.cpp:568-619 | pcieRead bumps the tag, sends a header-only request, stores the reply and returns its error, or 0 with the first num reply words |
| TestNvmeAccess.NvmeAccess.ReadNvmeReg32 | test/NvmeAccess.cpp:504-506 | a 32-bit register read is a one-word memory read request returning reply word 0 |
| TestNvmeAccess.NvmeAccess.WriteNvmeReg32 | test/NvmeAccess.cpp:508-510 | a 32-bit register write sends a one-word memory write carrying the value |
| TestNvmeAccess.NvmeAccess.ReadNvmeReg64 | test/NvmeAccess.cpp:512-514 | a 64-bit register read is a two-word read whose words are the value's low and high halves |
| TestNvmeAccess.NvmeAccess.WriteNvmeReg64 | test/NvmeAccess.cpp:516-518 | a 64-bit register write sends the value's low and high words |
| TestNvmeAccess.RegWords64 | test/NvmeAccess.cpp:512-518 | a 64-bit register value travels as two words |
| TestNvmeAccess.Reg64RoundTrip | test/NvmeAccess.cpp:512-518 | a value equals lo + hi·2^32 iff it is 64-bit and its two words are [lo, hi] |
| TestNvmeAccess.NvmeAccess.NvmeRequest | test/NvmeAccess.cpp:242-280 | nvmeRequest increments the command id and sends the 16-word command to the queue engine address in one memory write |
| TestNvmeAccess.NvmeAccess.SubmitDirect | test/NvmeAccess.cpp:281-311 | the direct path copies the command into slot tail·16 of the chosen queue memory only, advances that tail with wrap at oqueueNum and writes it to doorbell 0x1008 (IO) or 0x1000 (admin) |
| TestNvmeAccess.NvmeAccess.SendReplies | test/NvmeAccess.cpp:385-410 | the chunking loop sends exactly the reply sequence of the read specification and returns its count |
| TestNvmeAccess.NvmeAccess.ServeRead | test/NvmeAccess.cpp:385-399 | a read from a host memory is answered with the reply sequence of that memory, with completerId 0x100 iff NVMe 1 |
| TestNvmeAccess.NvmeAccess.HandleWrite | test/NvmeAccess.cpp:412-484 | a memory write to window 0x10 or 0x11 advances the admin or IO completion head with wrap and reports data[3] >> 17; to 0x80 or 0xE_ it copies numWords words into block memory; 0xF_ and unknown windows change nothing; no doorbell is written, because the queue engine is in use |
| TestNvmeAccess.NvmeAccess.ProcessPacket | test/NvmeAccess.cpp:339-487 | a packet with bit 31 of word 2 is stored as the reply; a read is routed and answered, or skipped with no reply when the window is unknown; a write is applied as HandleWrite says; any other request changes nothing |
| DuneNvmeAccess.CommandLayout | source/DuneNvme/test/NvmeAccess.cpp:230-243 | word 0 as in the test variant, word 1 is 1 iff the queue is not 0, the address in word 6, word 8 zero, the arguments in words 10-12 and zero elsewhere |
| DuneNvmeAccess.QueueEngineAddressLayout | source/DuneNvme/test/NvmeAccess.cpp:246-251 | the queue engine address is 0x02000000 + (queue << 16), with no NVMe select bit |
| DuneNvmeAccess.RoutingByWindow | source/DuneNvme/test/NvmeAccess.cpp:331-423 | routing depends only on address bits 16-23, and block writes take their word offset from the low 16 bits |
| DuneNvmeAccess.NvmeAccess.constructor | source/DuneNvme/test/NvmeAccess.cpp:75-90 | the host starts with 8 queue slots, tag 0 and all queue indices 0 |
| DuneNvmeAccess.NvmeAccess.ReadNvmeStorageReg | source/DuneNvme/test/NvmeAccess.cpp:438-441 | a storage register read returns register address/4 |
| DuneNvmeAccess.NvmeAccess.WriteNvmeStorageReg | source/DuneNvme/test/NvmeAccess.cpp:443-446 | a storage register write changes exactly register address/4 |
| DuneNvmeAccess.NvmeAccess.PacketSendReply | source/DuneNvme/test/NvmeAccess.cpp:587-599 | sending a reply appends its wire form of 12 + 4·numWords bytes in the DuneNvme layout |
| DuneNvmeAccess.NvmeAccess.PcieWrite | source/DuneNvme/test/NvmeAccess.cpp:464-509 | as in the test variant but with no NVMe select bit: bumps the tag, sends header and data, and for config writes stores the reply with numWords + 1 and returns its error |
| DuneNvmeAccess.NvmeAccess.PcieRead | source/DuneNvme/test/NvmeAccess.cpp:511-568 | bumps the tag, sends a header-only request, stores the reply and returns its error, or 0 with the first num reply words |
| DuneNvmeAccess.NvmeAccess.ReadNvmeReg32 | source/DuneNvme/test/NvmeAccess.cpp:448-450 | a one-word memory read returning reply word 0 |
| DuneNvmeAccess.NvmeAccess.WriteNvmeReg32 | source/DuneNvme/test/NvmeAccess.cpp:452-454 | a one-word memory write carrying the value |
| DuneNvmeAccess.NvmeAccess.ReadNvmeReg64 | source/DuneNvme/test/NvmeAccess.cpp:456-458 | a two-word memory read returning reply words 0 and 1 |
| DuneNvmeAccess.NvmeAccess.WriteNvmeReg64 | source/DuneNvme/test/NvmeAccess.cpp:460-462 | a two-word memory write carrying the low and high words |
| DuneNvmeAccess.NvmeAccess.NvmeRequest | source/DuneNvme/test/NvmeAccess.cpp:226-251 | increments the command id and sends the command to 0x02000000 + (queue << 16) in one memory write |
| DuneNvmeAccess.NvmeAccess.SubmitDirect | source/DuneNvme/test/NvmeAccess.cpp:252-283 | copies the command into slot tail·16 of the chosen queue memory only, advances that tail with wrap at oqueueNum and writes doorbell 0x1008 or 0x1000 |
| DuneNvmeAccess.NvmeAccess.SendReplies | source/DuneNvme/test/NvmeAccess.cpp:345-367 | the chunking loop sends exactly the reply sequence of the read specification, with completerId 0 |
| DuneNvmeAccess.NvmeAccess.HandleWrite | source/DuneNvme/test/NvmeAccess.cpp:369-429 | an admin completion advances the admin head with no doorbell (queue engine on); an IO completion advances the IO head and writes doorbell 0x100C; windows 0x80 and 0xF0 copy into block memory |
| DuneNvmeAccess.NvmeAccess.ProcessPacket | source/DuneNvme/test/NvmeAccess.cpp:305-432 | a packet with bit 31 of word 2 is stored as the reply; reads from windows 0, 0x01 and 0x80 are answered and others skipped; writes are applied; other requests change nothing |
| DuneNvmeTestAccess.CommandLayout | source/DuneNvmeTest/test/NvmeAccess.cpp:171-191 | word 0 holds the opcode and the low 16 bits of the new id (no 0xFF mask), word 1 is 1 iff IO queue, the address in word 6, the arguments in words 10-12, zero elsewhere |
| DuneNvmeTestAccess.CommandWordsAre | source/DuneNvmeTest/test/NvmeAccess.cpp:173-191 | the command words are exactly the values the code stores: (id << 16 mod 2^32) \| opcode, the namespace flag, the address and the three arguments |
| DuneNvmeTestAccess.RoutingByRegion | source/DuneNvmeTest/test/NvmeAccess.cpp:262-340 | routing depends only on the top nibble of the low address word, and the word offset is (address & 0x0FFFFFFF)/4 |
| DuneNvmeTestAccess.ChunkReplyDecodes | source/DuneNvmeTest/test/NvmeAccess.cpp:282-286 | every reply chunk goes out on stream 2 with numBytes = 4 × remaining words and the request's tag |
| DuneNvmeTestAccess.RepliesRepeatStart | source/DuneNvmeTest/test/NvmeAccess.cpp:276-296 | a read yields ⌈numWords/32⌉ chunks; chunk i reports 4 × (numWords − 32·i) bytes and carries the words at the unchanged start offset |
| DuneNvmeTestAccess.ChunkWire | source/DuneNvmeTest/test/NvmeAccess.cpp:525-537 | a stream reply chunk on the wire is its 7-word header followed by exactly its data words |
| DuneNvmeTestAccess.NvmeAccess.constructor | source/DuneNvmeTest/test/NvmeAccess.cpp:75-90 | the host starts with 64 queue slots, tag 0 and all queue indices 0 |
| DuneNvmeTestAccess.NvmeAccess.PacketSendRequest | source/DuneNvmeTest/test/NvmeAccess.cpp:508-523 | sending a request appends its wire form of 32 bytes plus 4·numWords for requests 1 and 10 |
| DuneNvmeTestAccess.NvmeAccess.PacketSendReply | source/DuneNvmeTest/test/NvmeAccess.cpp:525-537 | sending a reply appends its wire form of 28 + 4·numWords bytes |
| DuneNvmeTestAccess.NvmeAccess.ReadRegister | source/DuneNvmeTest/test/NvmeAccess.cpp:376-443 | sets register 1 to 0x80000000 for multi-word reads and 0 otherwise, sends request 8 or 0 on stream 1 with the new tag, stores the reply and returns its error, or 0 with the first num reply words |
| DuneNvmeTestAccess.NvmeAccess.WriteRegister | source/DuneNvmeTest/test/NvmeAccess.cpp:445-505 | sends request 10 or 1 with the data; a config write stores the reply with numWords + 1 and returns its error, a memory write returns 0 |
| DuneNvmeTestAccess.NvmeAccess.ReadNvmeReg32 | source/DuneNvmeTest/test/NvmeAccess.cpp:360-362 | a one-word memory read that clears register 1 and returns reply word 0 |
| DuneNvmeTestAccess.NvmeAccess.WriteNvmeReg32 | source/DuneNvmeTest/test/NvmeAccess.cpp:364-366 | a one-word memory write carrying the value |
| DuneNvmeTestAccess.NvmeAccess.ReadNvmeReg64 | source/DuneNvmeTest/test/NvmeAccess.cpp:368-370 | a two-word memory read that sets register 1 to 0x80000000 and returns reply words 0 and 1 |
| DuneNvmeTestAccess.NvmeAccess.WriteNvmeReg64 | source/DuneNvmeTest/test/NvmeAccess.cpp:372-374 | a two-word memory write carrying the low and high words |
| DuneNvmeTestAccess.NvmeAccess.BuildCommand | source/DuneNvmeTest/test/NvmeAccess.cpp:171-191 | zeroing the slot and storing the six command words in place leaves exactly the command in the slot and the rest of the memory unchanged |
| DuneNvmeTestAccess.NvmeAccess.NvmeRequest | source/DuneNvmeTest/test/NvmeAccess.cpp:160-217 | builds the command in slot tail·16 of the chosen queue memory only, advances that tail with wrap at oqueueNum and writes it to doorbell 0x1008 (IO) or 0x1000 (admin) |
| DuneNvmeTestAccess.NvmeAccess.SendReplies | source/DuneNvmeTest/test/NvmeAccess.cpp:276-296 | the chunking loop sends exactly the reply sequence of the read specification |
| DuneNvmeTestAccess.NvmeAccess.HandleWrite | source/DuneNvmeTest/test/NvmeAccess.cpp:298-350 | region 0x2 advances the admin head and writes doorbell 0x1004; region 0x4 advances the IO head and writes doorbell 0x100C; regions 0x8 and 0xF copy into block memory |
| DuneNvmeTestAccess.NvmeAccess.ProcessPacket | source/DuneNvmeTest/test/NvmeAccess.cpp:236-353 | stream 1 is stored as the reply, stream 2 is processed as a request, and any other stream changes nothing; reads are routed and answered, writes applied, other requests ignored |
| DmaCommon.DescControlFlags | test/bfpga_driver/bfpga.c:294 | Magic \| Eop \| Int \| Stop is 0xad4b0013, whose stop bit is set |
| DmaCommon.AddressWords | test/bfpga_driver/bfpga.c:323-324 | the two scatter-gather address words put back together give the 64-bit descriptor address |
| DmaCommon.RegisterBlocks | test/bfpga_driver/bfpga.c:262-267 | the channel register base is c2h·0x1000 + devChannel·0x100, and the scatter-gather base is 0x4000 above it |
| DmaCommon.RegisterBlocksDecode | test/bfpga_driver/bfpga.c:262 | the channel base encodes the direction in bit 12 and devChannel in bits 8-11 |
| DmaCommon.RegisterBlocksDisjoint | test/bfpga_driver/bfpga.c:262-267 | distinct channels have distinct register blocks, and every channel block lies below IRQ_MASK, which lies below every scatter-gather block |
| DmaCommon.AndBit2 | test/bfpga_driver/bfpga.c:683 | status & 0x4 is non-zero iff bit 2 is set |
| DmaCommon.AndBits12 | source/DuneNvme/test/bfpga_driver/bfpga.c:570 | status & 0x6 is non-zero iff bit 1 or bit 2 is set |
| DmaCommon.ReadCountIsMin | test/bfpga_driver/bfpga.c:380-384 | the count dma_read returns is min(available, nbytes) |
| DmaCommon.ReadCopyOverruns | test/bfpga_driver/bfpga.c:386 | as written, dma_read copies more than the count it returns exactly when nbytes > available |
| DmaCommon.DriverIoctl | test/bfpga_driver/bfpga.c:552-588 | GETINFO, GET_CONTROL, SET_CONTROL and RESET return 0 whatever the copy to the caller does; only GET_CONTROL reports a value, the control register's |
| DmaCommon.ReadCopyInBuffer | test/bfpga_driver/bfpga.c:379-392 | the corrected copy length is the returned count, so it never exceeds the request or the buffer |
| DmaCommon.MmapChecksLength | test/bfpga_driver/bfpga.c:616-651 | for a matched region, mmap fails with −EINVAL iff the span exceeds that region's length, and otherwise maps the requested span |
| DmaCommon.MmapZeroIsRegisters | test/bfpga_driver/bfpga.c:616-619 | offset 0 maps the register region and is checked against its length |
| DmaCommon.MmapUnmatchedUnchecked | test/bfpga_driver/bfpga.c:643-663 | an unmatched address is checked against its own span, so it is never rejected with −EINVAL; only the remap can fail, with −EAGAIN |
| TestBfpga.InitChannelState | test/bfpga_driver/bfpga.c:249-337 | after dma_init: waitForEvent and nTrans are 0; init succeeds iff both allocations do; on success available is 0 (c2h) or dmaBufferLen (h2c) and the descriptors chain and point at the buffer and the metadata word |
| TestBfpga.InitWritesTargets | test/bfpga_driver/bfpga.c:322-332 | dma_init writes four scatter-gather registers and then two channel registers, all inside the channel's own blocks, and the address words form the descriptor address |
| TestBfpga.ReadWriteKeepOk | test/bfpga_driver/bfpga.c:379-404 | dma_read empties the channel; dma_write sets waitForEvent and the descriptor length; both keep the channel invariant |
| TestBfpga.FiredBits | test/bfpga_driver/bfpga.c:683 | an event fires iff status bit 2 is set, or processStuck with control bit 2 and a non-zero complete count |
| TestBfpga.EventStepCases | test/bfpga_driver/bfpga.c:683-713 | an event changes a channel iff it fires while the channel waits; then waitForEvent is cleared and nTrans incremented mod 2^32; the channel invariant is kept |
| TestBfpga.TransferCompletes | test/bfpga_driver/bfpga.c:683-706 | after a write, a fired event makes h2c available the whole buffer, and c2h available the metadata word |
| TestBfpga.EventWritesEmpty | test/bfpga_driver/bfpga.c:677-718 | process_events writes no channel register iff no channel changes |
| TestBfpga.Device.constructor | test/bfpga_driver/bfpga.c:166-189 | a card starts with no channels counted and every channel zeroed |
| TestBfpga.Device.DmaInit | test/bfpga_driver/bfpga.c:249-337 | channel > 7 returns −1 and changes nothing; otherwise the channel becomes its initialised state, the result is 0 or −ENODEV, and the six register writes happen exactly on success |
| TestBfpga.Device.DmaStart | test/bfpga_driver/bfpga.c:353-361 | dma_start sets descriptor 0's length and writes 7 to the channel's control register |
| TestBfpga.Device.DmaRead | test/bfpga_driver/bfpga.c:379-392 | returns min(available, nbytes) and empties the channel while asking the copy for nbytes bytes, as written; or −EFAULT with nothing changed when the copy fails |
| TestBfpga.Device.DmaWrite | test/bfpga_driver/bfpga.c:394-404 | returns nbytes after setting waitForEvent, emptying the channel and starting it with length nbytes, or −EFAULT with nothing changed |
| TestBfpga.Device.HandleEvent | test/bfpga_driver/bfpga.c:677-717 | one channel takes its event step and its control write |
| TestBfpga.Device.ProcessEvents | test/bfpga_driver/bfpga.c:668-720 | every counted channel takes its event step and the others stay; the register writes are IRQ_MASK 0, the channels' writes in order, then IRQ_MASK 0xFF |
| TestBfpga.Device.Buffers | test/bfpga_driver/bfpga.c:626-637 | the buffer table mmap searches has exactly four entries, one for each of channels 0-3 |
| TestBfpga.FionreadReports | test/bfpga_driver/bfpga.c:589-597 | FIONREAD on a channel minor reports its available count, or −EFAULT when put_user fails; it reports 0 for a channel whose count a read has cleared |
| TestBfpga.IoctlRejects | test/bfpga_driver/bfpga.c:548-601 | ioctl returns −EINVAL iff the command is unknown or is FIONREAD on a minor without a channel, returns 0 iff it is one of the driver's own commands or a FIONREAD that succeeds, and reports a value iff FIONREAD succeeds on a channel or the command is GET_CONTROL |
| DuneBfpga.InitLayout | source/DuneNvme/test/bfpga_driver/bfpga.c:223-273 | the buffer is one page of descriptors followed by the data area; the metadata word sits just below the data area, above both descriptors, and descriptor 0 points at the data area |
| DuneBfpga.InitChannelState | source/DuneNvme/test/bfpga_driver/bfpga.c:211-290 | after dma_init the channel keeps its invariant, and available is dataBufferLen exactly for a successfully allocated h2c channel |
| DuneBfpga.ReadWriteKeepOk | source/DuneNvme/test/bfpga_driver/bfpga.c:328-352 | dma_read and dma_write empty the channel and keep its invariant; dma_write sets the descriptor length |
| DuneBfpga.IntrStepCases | source/DuneNvme/test/bfpga_driver/bfpga.c:568-583 | only available changes; a channel with status & 0x6 gets the metadata word (c2h) or dataBufferLen (h2c); the invariant is kept |
| DuneBfpga.IntrWritesCount | source/DuneNvme/test/bfpga_driver/bfpga.c:568-583 | the handler writes one zero control word per signalled channel and nothing else |
| DuneBfpga.StartWritesAreC2h | source/DuneNvme/test/bfpga_driver/bfpga.c:625-636 | bfpga_start writes 7 to the control register of card-to-host channels only, and writes nothing iff no channel is card-to-host |
| DuneBfpga.Device.constructor | source/DuneNvme/test/bfpga_driver/bfpga.c:129-151 | a card starts with no channels counted and every channel zeroed |
| DuneBfpga.Device.DmaInit | source/DuneNvme/test/bfpga_driver/bfpga.c:211-290 | channel > 7 returns −1 and changes nothing; otherwise the channel is initialised, the result is 0 iff allocation succeeded (−ENODEV if not), and the register writes happen exactly on success |
| DuneBfpga.Device.DmaStart | source/DuneNvme/test/bfpga_driver/bfpga.c:302-317 | sets descriptor 0's length and writes 7 to the channel's control register |
| DuneBfpga.Device.DmaRead | source/DuneNvme/test/bfpga_driver/bfpga.c:328-341 | returns min(available, nbytes) and empties the channel while asking the copy for nbytes bytes, as written; or −EFAULT with nothing changed when the copy fails |
| DuneBfpga.ReadCopyLeavesData | source/DuneNvme/test/bfpga_driver/bfpga.c:335 | as written, the copy from the start of the 2 MiB data area, which ends the allocation, leaves it iff nbytes exceeds 2 MiB (3 MiB asked with 100 bytes available copies 3 MiB and returns 100); the corrected copy, the returned count, stays inside |
| DuneBfpga.Device.DmaWrite | source/DuneNvme/test/bfpga_driver/bfpga.c:343-352 | returns nbytes after emptying the channel and starting it with length nbytes, or −EFAULT with nothing changed |
| DuneBfpga.Device.HandleInterrupt | source/DuneNvme/test/bfpga_driver/bfpga.c:569-582 | one channel takes its interrupt step and its control write |
| DuneBfpga.Device.IntrHandler | source/DuneNvme/test/bfpga_driver/bfpga.c:560-586 | every counted channel takes its interrupt step, the others stay, and the register writes are the channels' writes in order |
| DuneBfpga.Device.Start | source/DuneNvme/test/bfpga_driver/bfpga.c:625-636 | exactly the counted card-to-host channels are started with length dataBufferLen |
| DuneBfpga.Device.Buffers | source/DuneNvme/test/bfpga_driver/bfpga.c:518-529 | the buffer table mmap searches has exactly four entries, one for each of channels 0-3 |
| DuneBfpga.Ioctl | source/DuneNvme/test/bfpga_driver/bfpga.c:443-495 | ioctl returns 0 or −EINVAL, and reports a value only when it returns 0 |
| DuneBfpga.IoctlRejects | source/DuneNvme/test/bfpga_driver/bfpga.c:452-494 | ioctl returns −EINVAL iff the command is not GETINFO, GET_CONTROL, SET_CONTROL or RESET (FIONREAD, which this driver does not handle, is rejected), 0 iff it is one of them, and reports a value iff the command is GET_CONTROL, that value being the control register's |

## Left out

- The receive thread, `BSemaphore` and the blocking `read()` loop of `nvmeProcess`. Only the per-packet step is
  modelled. A reply the thread would store is a parameter of `PcieRead`/`PcieWrite`.
- The wait on `oqueueReplySem` in the test variant's `nvmeRequest` (the `wait` flag): concurrency.
- `write()` failures in `packetSend`, and the `exit(1)` / `return 1` paths that follow them. A send always
  delivers the whole packet.
- All syscalls and kernel services: `open`/`ioctl`/`mmap`, `dma_alloc_coherent`, `set_memory_uc`, wait queues,
  `request_irq`, `remap_pfn_range`, PCI probe/remove, `cdev`/`device_create`. Their results are parameters where
  the core branches on them.
- `bfpga_open`, `bfpga_read`, `bfpga_write` and `bfpga_release`: wait loops with timeouts and signals. Their
  restart of a channel after `dma_read` is not modelled, so the channel invariant is proved for the core
  operations only.
- `dma_release`, `dma_stop`, `dma_status`, `bfpga_stop`, and the `bfpga_probe` channel discovery: hardware
  discovery and printing.
- The effects of the GETINFO, GET_CONTROL, SET_CONTROL and RESET ioctls (copying the region addresses out, the
  control register write, stopping, resetting and restarting the board): only their return values, and the
  control register value GET_CONTROL reports, are modelled. `bfpga.h` (the command codes) is not part of this
  model, so commands are `Driver(op)`, `Fionread` or `Unknown(code)`.
- The empty `bfpga_start` of `test/bfpga_driver/bfpga.c` (its body is compiled out).
- Physical addresses are unbounded naturals: 64-bit `dma_addr_t` overflow is not modelled.
- The DMA metadata word is any 32-bit word: the hardware provides it.
- TestBfpga.Device.DmaRead: a failing `copy_to_user` is modelled as copying nothing; partial copies are not modelled.
- DuneBfpga.Device.DmaRead: a failing `copy_to_user` is modelled as copying nothing; partial copies are not modelled.
- TestBfpga.Device.Ioctl: `FIONREAD` on minor 1 (the register device) returns −EINVAL, as the code does, though
  only minors above 1 have a channel.
- BeamLib.FifoBytes.Write: requires size > 0 or empty data, because with size 0 the copy loop never ends.
- BeamLib.FifoBytes.Read: requires size > 0 or num = 0, for the same reason.
- The `BFifoBytes` destructor and allocation failure of `new`.
- TestNvmeAccess.NvmeAccess.ProcessPacket: requires reads and block writes to stay inside the host memories. The
  C code indexes past the arrays otherwise, which is undefined behaviour.
- DuneNvmeAccess.NvmeAccess.ProcessPacket: requires reads and block writes to stay inside the host memories, for
  the same reason.
- DuneNvmeTestAccess.NvmeAccess.ProcessPacket: requires reads and block writes to stay inside the host memories,
  for the same reason.
- The direct submission path (`UseQueueEngine` = 0) is dead code under the constant flag. It is modelled as its
  own method `SubmitDirect` so that it can be stated at all.
- The empty `nvmeDataPacket` hook (window 0xF_ in the test variant) changes nothing.
- In the DuneNvme variant, the `.cpp` definition of `nvmeRequest` is followed, not the 7-parameter declaration in
  its header. In the test variant, the `.cpp` signature with `nameSpace` is followed.
- The `test_nvme.cpp` programs, `dtest*.c`, the other `BeamLibBasic` files and all `dl*printf`/`tprintf`/`bhd*`
  output: bring-up scripts and console formatting.
- `genData.cpp`'s `main` and `fopen`: the output file is a string field of `GenData.DataFile`.
- `new_readout.py`'s `bashProcess`, the shell command and the file open: the file contents are a byte-sequence
  parameter. The module-level `numBlocksRead` is a parameter, and the printed text is recorded as flags
  (`echoed`, `printed`).

## Findings

| source | as written | input that shows it | evidently intended | confidence | as-written member | corrected member |
|---|---|---|---|---|---|---|
| test/bfpga_driver/bfpga.c:379-392 | `dma_read` copies `nbytes` bytes to user space but returns and accounts for `count = min(available, nbytes)` | available = 100, nbytes = 0x10000: 65536 bytes are copied from a 40960-byte DMA buffer | copy `count` bytes, the amount returned | not executed | DmaCommon.ReadCopyOverruns | DmaCommon.ReadCopyInBuffer |
| source/DuneNvme/test/bfpga_driver/bfpga.c:328-341 | `dma_read` copies `nbytes` bytes from the data buffer but returns `count = min(available, nbytes)` | available = 100, nbytes = 0x300000: 3 MiB are copied from a 2 MiB data area that ends the allocation, and 100 is returned | copy `count` bytes, the amount returned | not executed | DuneBfpga.ReadCopyLeavesData | DmaCommon.ReadCopyInBuffer |
