/** What the two bfpga PCIe drivers (test/bfpga_driver/bfpga.c and
    source/DuneNvme/test/bfpga_driver/bfpga.c) have in common: the DMA
    engine's register offsets, the descriptor layout, where each channel's
    register blocks lie, the status-bit tests, the length dma_read reports
    and the region check of bfpga_mmap. */
module DmaCommon {
  import opened Words

  // Offsets inside a channel's engine register block.
  const DmaControl: Word := 0x04
  const DmaStatus: Word := 0x40
  const DmaStatusClr: Word := 0x44
  const DmaComplete: Word := 0x48
  const DmaIntMask: Word := 0x90

  // Offsets inside a channel's scatter-gather register block.
  const DmascAddressLow: Word := 0x80
  const DmascAddressHigh: Word := 0x84
  const DmascNext: Word := 0x88
  const DmascCredits: Word := 0x8C

  /** The interrupt mask register of the whole engine. */
  const IrqMask: Word := 0x2010

  const PageSize: nat := 4096

  /** sizeof(DmaDesc): two 32-bit and three 64-bit fields. */
  const DescBytes: nat := 32

  const DmaDescMagic: Word := 0xad4b0000
  const DmaDescEop: Word := 0x10
  const DmaDescInt: Word := 0x2
  const DmaDescStop: Word := 0x1

  /** DmaDescMagic | DmaDescEop | DmaDescInt | DmaDescStop, the control word of every descriptor. */
  const DescControl: Word := 0xad4b0013

  /** The value 0x07 dma_start writes to a channel's control register: run, with interrupts. */
  const ControlRun: Word := 0x07

  /** The interrupt enables dma_init writes to a channel's mask register. */
  const IntMaskEnables: Word := 0x06

  // Linux error numbers; the drivers return them negated.
  const EAGAIN: int := 11
  const EFAULT: int := 14
  const ENODEV: int := 19
  const EINVAL: int := 22

  /** One dma_reg_write: a register address and the word written to it. */
  datatype RegWrite = RegWrite(reg: Word, value: Word)

  /** One scatter-gather descriptor; the addresses are physical (dma_addr_t). */
  datatype DmaDesc = DmaDesc(control: Word, len: Word, srcAddress: nat, destAddress: nat, nextDesc: nat)

  /** A descriptor as the zero-initialised device structure holds it. */
  const ZeroDesc: DmaDesc := DmaDesc(0, 0, 0, 0, 0)

  /** The second descriptor of every channel: no transfer, and the end of the chain. */
  const LastDesc: DmaDesc := DmaDesc(DescControl, 0, 0, 0, 0)

  /** The four descriptor flags OR together into DescControl, and the control
      word carries the stop flag, so the engine halts after one descriptor. */
  lemma DescControlFlags()
    ensures Or32(Or32(Or32(DmaDescMagic, DmaDescEop), DmaDescInt), DmaDescStop) == DescControl
    ensures DescControl % 2 == 1
  {
    assert Pow2(4) == 16;
    Pow2Add(4, 4);
    Pow2Add(8, 8);
    BitOrDisjoint(0xad4b, 0x10, 16);
    assert Pow2(2) == 4;
    BitOrDisjoint(0x2b52c004, 2, 2);
    assert Pow2(1) == 2;
    BitOrDisjoint(0x56a58009, 1, 1);
  }

  /** The 64-bit physical address split into the two words dma_init writes:
      (a & 0xFFFFFFFF) and ((a >> 32) & 0xFFFFFFFF). */
  function AddressLow(a: nat): Word
  {
    a % Limit32
  }

  function AddressHigh(a: nat): Word
  {
    (a / Limit32) % Limit32
  }

  /** The two words put a 64-bit address back together. */
  lemma AddressWords(a: nat)
    requires a < Limit64
    ensures AddressHigh(a) * Limit32 + AddressLow(a) == a
  {
  }

  // ----- Channel register blocks -----

  /** The bool c2h as C promotes it to an integer. */
  function C2hBit(c2h: bool): nat
  {
    if c2h then 1 else 0
  }

  /** (c2h << 12) | (devChannel << 8) in 32 bits: the channel's engine registers. */
  function ChannelRegisters(c2h: bool, devChannel: Word): Word
  {
    Or32(C2hBit(c2h) * 0x1000, (devChannel * 0x100) % Limit32)
  }

  /** ((4 + c2h) << 12) | (devChannel << 8) in 32 bits: the channel's scatter-gather registers. */
  function SgRegisters(c2h: bool, devChannel: Word): Word
  {
    Or32((4 + C2hBit(c2h)) * 0x1000, (devChannel * 0x100) % Limit32)
  }

  /** For the channel numbers the drivers probe (below 16) the OR is a sum:
      the direction selects a 4 KiB page, the device channel a 256-byte block
      inside it, and the scatter-gather block lies 0x4000 above the engine block. */
  lemma RegisterBlocks(c2h: bool, devChannel: Word)
    requires devChannel < 16
    ensures ChannelRegisters(c2h, devChannel) == C2hBit(c2h) * 0x1000 + devChannel * 0x100
    ensures SgRegisters(c2h, devChannel) == ChannelRegisters(c2h, devChannel) + 0x4000
  {
    var low := devChannel * 0x100;
    assert low < 0x1000 && low % Limit32 == low;
    BlockOr(C2hBit(c2h), low);
    BlockOr(4 + C2hBit(c2h), low);
  }

  /** OR-ing a value below 0x1000 into a multiple of 0x1000 is addition. */
  lemma BlockOr(page: nat, low: nat)
    requires page < 8 && low < 0x1000
    ensures Or32(page * 0x1000, low) == page * 0x1000 + low
  {
    Pow2Twelve();
    BitOrDisjoint(page, low, 12);
  }

  lemma Pow2Twelve()
    ensures Pow2(12) == 0x1000
  {
    assert Pow2(4) == 16;
    Pow2Add(4, 4);
    Pow2Add(8, 4);
  }

  /** The engine block decodes back to the direction and the device channel,
      and it is 256-byte aligned. */
  lemma RegisterBlocksDecode(c2h: bool, devChannel: Word)
    requires devChannel < 16
    ensures ChannelRegisters(c2h, devChannel) / 0x1000 == C2hBit(c2h)
    ensures (ChannelRegisters(c2h, devChannel) / 0x100) % 0x10 == devChannel
    ensures ChannelRegisters(c2h, devChannel) % 0x100 == 0
  {
    RegisterBlocks(c2h, devChannel);
    DivModOf(C2hBit(c2h), devChannel * 0x100, 0x1000);
    DivModOf(C2hBit(c2h) * 0x10 + devChannel, 0, 0x100);
    DivModOf(C2hBit(c2h), devChannel, 0x10);
  }

  /** Two channels share an engine block only if they are the same channel, and
      no engine block (with every offset the drivers use, all below 0x100)
      reaches the interrupt mask register or any scatter-gather block. */
  lemma RegisterBlocksDisjoint(c2h: bool, devChannel: Word, c2h': bool, devChannel': Word)
    requires devChannel < 16 && devChannel' < 16
    ensures ChannelRegisters(c2h, devChannel) == ChannelRegisters(c2h', devChannel') <==>
            c2h == c2h' && devChannel == devChannel'
    ensures ChannelRegisters(c2h, devChannel) + 0x100 <= IrqMask < SgRegisters(c2h', devChannel')
  {
    RegisterBlocksDecode(c2h, devChannel);
    RegisterBlocksDecode(c2h', devChannel');
    RegisterBlocks(c2h, devChannel);
    RegisterBlocks(c2h', devChannel');
  }

  // ----- Register bit tests -----

  /** Bitwise AND of two naturals, one bit at a time from the least significant end. */
  function BitAnd(a: nat, b: nat): nat
    decreases a + b
  {
    if a == 0 || b == 0 then 0
    else 2 * BitAnd(a / 2, b / 2) + (if a % 2 == 1 && b % 2 == 1 then 1 else 0)
  }

  lemma AndOne(x: nat)
    ensures BitAnd(x, 1) == x % 2
  {
    if x != 0 {
      assert BitAnd(x / 2, 0) == 0;
    }
  }

  lemma AndThree(x: nat)
    ensures BitAnd(x, 3) == x % 4
  {
    if x != 0 {
      AndOne(x / 2);
    }
  }

  /** x & 0x4 tests bit 2 of x. */
  lemma AndBit2(x: nat)
    ensures BitAnd(x, 4) == 4 * ((x / 4) % 2)
    ensures BitAnd(x, 4) != 0 <==> (x / 4) % 2 == 1
  {
    if x != 0 {
      var y := x / 2;
      if y != 0 {
        AndOne(y / 2);
        assert BitAnd(y, 2) == 2 * BitAnd(y / 2, 1);
      }
      assert BitAnd(x, 4) == 2 * BitAnd(y, 2);
    }
  }

  /** x & 0x6 tests bits 1 and 2 of x. */
  lemma AndBits12(x: nat)
    ensures BitAnd(x, 6) == 2 * ((x / 2) % 4)
    ensures BitAnd(x, 6) != 0 <==> (x / 2) % 4 != 0
  {
    if x != 0 {
      AndThree(x / 2);
      assert BitAnd(x, 6) == 2 * BitAnd(x / 2, 3);
    }
  }

  // ----- dma_read -----

  /** The count dma_read reports: what is available, cut to what was asked for. */
  function ReadCount(available: Word, nbytes: Word): (count: Word)
  {
    if available > nbytes then nbytes else available
  }

  /** The count is the smaller of the two: never more than was asked for or
      than is available, and all that is available when the caller asks for enough. */
  lemma ReadCountIsMin(available: Word, nbytes: Word)
    ensures ReadCount(available, nbytes) <= available && ReadCount(available, nbytes) <= nbytes
    ensures ReadCount(available, nbytes) == available <==> available <= nbytes
    ensures ReadCount(available, nbytes) == nbytes <==> nbytes <= available
  {
  }

  /** The number of bytes dma_read hands to copy_to_user as written: nbytes,
      whatever count it reports. */
  function ReadCopyAsWritten(available: Word, nbytes: Word): (n: Word)
  {
    nbytes
  }

  /** As written the copy runs past the count whenever the caller asks for
      more than is available, and a caller asking for 64 KiB from a channel
      with 100 bytes available copies past the end of a 40960-byte buffer. */
  lemma ReadCopyOverruns(available: Word, nbytes: Word)
    ensures ReadCopyAsWritten(available, nbytes) > ReadCount(available, nbytes) <==> nbytes > available
    ensures ReadCopyAsWritten(100, 0x1_0000) > 40960 && ReadCount(100, 0x1_0000) == 100
  {
  }

  /** The bytes dma_read evidently means to copy: the count it returns. */
  function ReadCopy(available: Word, nbytes: Word): (n: Word)
  {
    ReadCount(available, nbytes)
  }

  /** Copying the count never reads more than is available, so it stays
      inside the buffer whenever the available count does, and the caller
      receives exactly the bytes the return value reports. */
  lemma ReadCopyInBuffer(available: Word, nbytes: Word, bufferLen: nat)
    requires available <= bufferLen
    ensures ReadCopy(available, nbytes) <= bufferLen
    ensures ReadCopy(available, nbytes) <= nbytes
    ensures ReadCopy(available, nbytes) == ReadCount(available, nbytes)
  {
  }

  // ----- ioctl -----

  /** The driver's own ioctl commands (their codes are not part of this
      model): fetch the region and buffer addresses, read or set the FPGA's
      control register, and reset the board. */
  datatype DriverCmd = GetInfo | GetControl | SetControl(value: Word) | Reset

  /** The ioctl commands the model distinguishes: the driver's own, FIONREAD
      and any command the driver does not know. */
  datatype IoctlCmd = Driver(op: DriverCmd) | Fionread | Unknown(code: Word)

  /** The result of one of the driver's own commands: each returns 0 whatever
      copy_to_user does, and GET_CONTROL stores the control register's value
      at the caller's pointer. */
  function DriverIoctl(op: DriverCmd, control: Word): (r: IoctlResult)
    ensures r.ret == 0
    ensures r.reported.Some? <==> op.GetControl?
    ensures r.reported.Some? ==> r.reported.value == control
  {
    if op.GetControl? then IoctlResult(0, Some(control)) else IoctlResult(0, None)
  }

  /** What an ioctl returns, and the value it stores at the caller's pointer, if any. */
  datatype IoctlResult = IoctlResult(ret: int, reported: Option<Word>)

  // ----- mmap -----

  /** A mapped PCI region or DMA buffer: its physical address and length in bytes. */
  datatype MemMap = MemMap(physAddress: nat, len: nat)

  datatype MmapResult = Mapped(physAddress: nat, len: nat) | MmapFailed(error: int)

  /** The region bfpga_mmap matches the requested physical address against,
      the first match winning: address 0 stands for the register region, then
      the register region, the DMA register region and the buffers of
      channels 0 to 3 are tried; any other address is allowed the span asked for. */
  function MmapRegion(physAddress: nat, span: nat, regs: MemMap, dmaRegs: MemMap, buffers: seq<MemMap>): (m: MemMap)
    requires |buffers| == 4
  {
    if physAddress == 0 then regs
    else if physAddress == regs.physAddress then MemMap(physAddress, regs.len)
    else if physAddress == dmaRegs.physAddress then MemMap(physAddress, dmaRegs.len)
    else if physAddress == buffers[0].physAddress then MemMap(physAddress, buffers[0].len)
    else if physAddress == buffers[1].physAddress then MemMap(physAddress, buffers[1].len)
    else if physAddress == buffers[2].physAddress then MemMap(physAddress, buffers[2].len)
    else if physAddress == buffers[3].physAddress then MemMap(physAddress, buffers[3].len)
    else MemMap(physAddress, span)
  }

  /** bfpga_mmap for a mapping of span bytes at page offset pgoff; remapOk
      stands for the success of remap_pfn_range. */
  function Mmap(pgoff: nat, span: nat, regs: MemMap, dmaRegs: MemMap, buffers: seq<MemMap>, remapOk: bool): (r: MmapResult)
    requires |buffers| == 4
  {
    var region := MmapRegion(pgoff * PageSize, span, regs, dmaRegs, buffers);
    if span > region.len then MmapFailed(-EINVAL)
    else if !remapOk then MmapFailed(-EAGAIN)
    else Mapped(region.physAddress, span)
  }

  /** The known region (if any) an address selects, by its place in the
      list regs, dmaRegs, buffer 0 .. buffer 3. */
  predicate FirstMatch(physAddress: nat, regions: seq<MemMap>, k: nat)
  {
    k < |regions| && regions[k].physAddress == physAddress &&
    forall j :: 0 <= j < k ==> regions[j].physAddress != physAddress
  }

  /** The mapping is refused with -EINVAL exactly when the span exceeds the
      selected region; a mapping that is made covers the span asked for,
      starts at the region's address, and fits in the first known region the
      address matches. */
  lemma MmapChecksLength(pgoff: nat, span: nat, regs: MemMap, dmaRegs: MemMap, buffers: seq<MemMap>, remapOk: bool, k: nat)
    requires |buffers| == 4 && pgoff > 0
    requires FirstMatch(pgoff * PageSize, [regs, dmaRegs] + buffers, k)
    ensures Mmap(pgoff, span, regs, dmaRegs, buffers, remapOk) == MmapFailed(-EINVAL) <==> span > ([regs, dmaRegs] + buffers)[k].len
    ensures Mmap(pgoff, span, regs, dmaRegs, buffers, remapOk).Mapped? ==>
      Mmap(pgoff, span, regs, dmaRegs, buffers, remapOk) == Mapped(pgoff * PageSize, span) &&
      span <= ([regs, dmaRegs] + buffers)[k].len
  {
    var rs := [regs, dmaRegs] + buffers;
    assert rs[0] == regs && rs[1] == dmaRegs;
    assert rs[2] == buffers[0] && rs[3] == buffers[1] && rs[4] == buffers[2] && rs[5] == buffers[3];
  }

  /** Page offset 0 maps the register region from its start. */
  lemma MmapZeroIsRegisters(span: nat, regs: MemMap, dmaRegs: MemMap, buffers: seq<MemMap>, remapOk: bool)
    requires |buffers| == 4
    ensures span > regs.len <==> Mmap(0, span, regs, dmaRegs, buffers, remapOk) == MmapFailed(-EINVAL)
    ensures span <= regs.len && remapOk ==> Mmap(0, span, regs, dmaRegs, buffers, remapOk) == Mapped(regs.physAddress, span)
  {
  }

  /** An address no known region has is never refused by the length check:
      only remap_pfn_range can refuse it. */
  lemma MmapUnmatchedUnchecked(pgoff: nat, span: nat, regs: MemMap, dmaRegs: MemMap, buffers: seq<MemMap>, remapOk: bool)
    requires |buffers| == 4 && pgoff > 0
    requires forall j :: 0 <= j < |[regs, dmaRegs] + buffers| ==> ([regs, dmaRegs] + buffers)[j].physAddress != pgoff * PageSize
    ensures Mmap(pgoff, span, regs, dmaRegs, buffers, remapOk) ==
      if remapOk then Mapped(pgoff * PageSize, span) else MmapFailed(-EAGAIN)
  {
    var rs := [regs, dmaRegs] + buffers;
    assert rs[0] == regs && rs[1] == dmaRegs;
    assert rs[2] == buffers[0] && rs[3] == buffers[1] && rs[4] == buffers[2] && rs[5] == buffers[3];
  }
}
