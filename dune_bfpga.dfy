/** The DMA channel bookkeeping of the bfpga driver in
    source/DuneNvme/test/bfpga_driver/bfpga.c. Each channel has one
    allocation: a first page of descriptors and metadata followed by a 2 MiB
    data area. This variant keeps no wait flag and no transfer count: the
    interrupt handler refreshes the available count of every channel whose
    status shows an event, and bfpga_start sets every card-to-host engine
    running. As in the other variant, register writes are recorded in order
    and register reads come in as parameters. */
module DuneBfpga {
  import opened Words
  import opened DmaCommon

  /** DmaBufferLen of this variant: the 2 MiB data area. */
  const DataBufferLen: Word := 2 * 1024 * 1024

  /** The whole allocation: the descriptor page, then the data area. */
  const DmaBufferLen: Word := PageSize + DataBufferLen

  /** One channel (DmaChan). The allocation is given by its physical address,
      None when it failed or never happened. */
  datatype DmaChan = DmaChan(
    channel: Word,
    c2h: bool,
    devChannel: Word,
    registers: Word,
    dmaBufferLen: Word,
    dataBufferLen: Word,
    physAddress: Option<nat>,
    desc0: DmaDesc,
    desc1: DmaDesc,
    available: Word)

  const ZeroChan: DmaChan := DmaChan(0, false, 0, 0, 0, 0, None, ZeroDesc, ZeroDesc, 0)

  /** A host-to-card channel has either its whole data area free or none of it. */
  predicate ChannelOk(ch: DmaChan)
  {
    !ch.c2h ==> ch.available == 0 || ch.available == ch.dataBufferLen
  }

  /** Where the data area of an allocation at phys starts: one page in. */
  function DataAddress(phys: nat): nat
  {
    phys + PageSize
  }

  // ----- dma_init -----

  /** The first descriptor dma_init builds at the start of the allocation. A
      card-to-host transfer fetches its metadata from the last 8 bytes of the
      descriptor page and writes into the data area; a host-to-card transfer
      reads from the data area. Both chain to the second descriptor. */
  function FirstDesc(c2h: bool, phys: nat): DmaDesc
  {
    if c2h then DmaDesc(DescControl, 0, phys + PageSize - 8, DataAddress(phys), phys + DescBytes)
    else DmaDesc(DescControl, 0, DataAddress(phys), 0, phys + DescBytes)
  }

  /** The channel after dma_init(channel, c2h, devChannel) for channel <= 7,
      given the outcome of the allocation. */
  function InitChannel(ch: DmaChan, channel: Word, c2h: bool, devChannel: Word, alloc: Option<nat>): DmaChan
  {
    var named := ch.(channel := channel, c2h := c2h, devChannel := devChannel, dmaBufferLen := DmaBufferLen,
                     dataBufferLen := DataBufferLen, registers := ChannelRegisters(c2h, devChannel),
                     available := 0, physAddress := alloc);
    if alloc.None? then named
    else named.(desc0 := FirstDesc(c2h, alloc.value), desc1 := LastDesc,
                available := if c2h then 0 else DataBufferLen)
  }

  /** The registers dma_init writes once the allocation succeeds. */
  function InitWrites(c2h: bool, devChannel: Word, phys: nat): seq<RegWrite>
  {
    var sg := SgRegisters(c2h, devChannel);
    var regs := ChannelRegisters(c2h, devChannel);
    [RegWrite(Add32(sg, DmascAddressLow), AddressLow(phys)),
     RegWrite(Add32(sg, DmascAddressHigh), AddressHigh(phys)),
     RegWrite(Add32(sg, DmascNext), 0),
     RegWrite(Add32(sg, DmascCredits), 0),
     RegWrite(Add32(regs, DmaControl), 0),
     RegWrite(Add32(regs, DmaIntMask), IntMaskEnables)]
  }

  /** The allocation's layout: the two descriptors and the metadata lie in
      the first page, before the data area, and the data area runs to the
      end of the allocation. */
  lemma InitLayout(ch: DmaChan, channel: Word, c2h: bool, devChannel: Word, phys: nat)
    ensures var ch' := InitChannel(ch, channel, c2h, devChannel, Some(phys));
      ch'.dmaBufferLen == ch'.dataBufferLen + PageSize &&
      DataAddress(phys) + ch'.dataBufferLen == phys + ch'.dmaBufferLen &&
      phys + 2 * DescBytes <= (if c2h then ch'.desc0.srcAddress else DataAddress(phys) - 8) &&
      (if c2h then ch'.desc0.srcAddress else DataAddress(phys) - 8) + 8 == DataAddress(phys) &&
      (c2h ==> ch'.desc0.destAddress == DataAddress(phys)) &&
      (!c2h ==> ch'.desc0.srcAddress == DataAddress(phys)) &&
      ch'.desc0.nextDesc == phys + DescBytes && ch'.desc1.nextDesc == 0
  {
  }

  /** An initialised channel keeps the bookkeeping: it has its whole data
      area free when it sends to the card, and nothing to read otherwise. */
  lemma InitChannelState(ch: DmaChan, channel: Word, c2h: bool, devChannel: Word, alloc: Option<nat>)
    ensures var ch' := InitChannel(ch, channel, c2h, devChannel, alloc);
      ChannelOk(ch') && ch'.channel == channel && ch'.c2h == c2h &&
      ch'.available == (if alloc.Some? && !c2h then DataBufferLen else 0)
  {
  }

  // ----- dma_read, dma_write, dma_start -----

  function ReadChannel(ch: DmaChan): DmaChan
  {
    ch.(available := 0)
  }

  /** The data area ends the allocation, so dma_read as written, copying
      nbytes from its start, reads past the allocation exactly when the
      caller asks for more than the data area holds: 3 MiB asked of a
      channel with 100 bytes available copies 3 MiB and returns 100. The
      corrected copy, the returned count, stays inside the data area. */
  lemma ReadCopyLeavesData(available: Word, nbytes: Word)
    requires available <= DataBufferLen
    ensures DataBufferLen < ReadCopyAsWritten(available, nbytes) <==> DataBufferLen < nbytes
    ensures ReadCopy(available, nbytes) <= DataBufferLen
    ensures ReadCopyAsWritten(100, 0x30_0000) > DataBufferLen && ReadCount(100, 0x30_0000) == 100
  {
  }

  /** The channel after a dma_write of nbytes whose copy succeeded. */
  function WriteChannel(ch: DmaChan, nbytes: Word): DmaChan
  {
    ch.(available := 0, desc0 := ch.desc0.(len := nbytes))
  }

  function StartWrite(ch: DmaChan): RegWrite
  {
    RegWrite(Add32(ch.registers, DmaControl), ControlRun)
  }

  /** Reading and writing keep the bookkeeping, and a write that waited for
      space on a host-to-card channel fits in its data area. */
  lemma ReadWriteKeepOk(ch: DmaChan, nbytes: Word)
    requires ChannelOk(ch)
    ensures ChannelOk(ReadChannel(ch)) && ChannelOk(WriteChannel(ch, nbytes))
    ensures WriteChannel(ch, nbytes).available == 0 && WriteChannel(ch, nbytes).desc0.len == nbytes
    ensures !ch.c2h && 0 < nbytes <= ch.available ==> nbytes <= ch.dataBufferLen
  {
  }

  // ----- the interrupt handler -----

  /** The status register the handler reads for a channel, and the metadata
      word the engine left in the last four bytes of the descriptor page. */
  datatype IntrInput = IntrInput(status: Word, metadata: Word)

  /** A channel's status shows an event: status & 0x6. */
  predicate Signalled(e: IntrInput)
  {
    BitAnd(e.status, 6) != 0
  }

  /** The channel after the interrupt handler: on an event a card-to-host
      channel makes the metadata's count available, a host-to-card channel
      its whole data area; without one nothing changes. */
  function IntrStep(ch: DmaChan, e: IntrInput): DmaChan
  {
    if Signalled(e) then ch.(available := if ch.c2h then e.metadata else ch.dataBufferLen) else ch
  }

  function IntrWrites1(ch: DmaChan, e: IntrInput): seq<RegWrite>
  {
    if Signalled(e) then [RegWrite(Add32(ch.registers, DmaControl), 0)] else []
  }

  /** The stop writes the handler makes for a run of channels, in channel order. */
  function IntrWrites(chs: seq<DmaChan>, es: seq<IntrInput>): seq<RegWrite>
    requires |chs| == |es|
    decreases |chs|
  {
    if chs == [] then []
    else
      var n := |chs| - 1;
      IntrWrites(chs[..n], es[..n]) + IntrWrites1(chs[n], es[n])
  }

  /** An event is status bit 1 or bit 2; the step keeps the bookkeeping and
      changes only the available count. */
  lemma IntrStepCases(ch: DmaChan, e: IntrInput)
    requires ChannelOk(ch)
    ensures Signalled(e) <==> (e.status / 2) % 4 != 0
    ensures ChannelOk(IntrStep(ch, e))
    ensures IntrStep(ch, e) == ch.(available := IntrStep(ch, e).available)
    ensures Signalled(e) ==> IntrStep(ch, e).available == (if ch.c2h then e.metadata else ch.dataBufferLen)
  {
    AndBits12(e.status);
  }

  /** The handler stops as many engines as it sees events. */
  lemma {:induction false} IntrWritesCount(chs: seq<DmaChan>, es: seq<IntrInput>)
    requires |chs| == |es|
    ensures |IntrWrites(chs, es)| == |Events(es)|
    ensures forall k :: 0 <= k < |IntrWrites(chs, es)| ==> IntrWrites(chs, es)[k].value == 0
    decreases |chs|
  {
    if chs != [] {
      var n := |chs| - 1;
      IntrWritesCount(chs[..n], es[..n]);
    }
  }

  /** The events among the inputs, in order. */
  function Events(es: seq<IntrInput>): seq<IntrInput>
    decreases |es|
  {
    if es == [] then []
    else
      var n := |es| - 1;
      Events(es[..n]) + (if Signalled(es[n]) then [es[n]] else [])
  }

  // ----- bfpga_start -----

  /** The channel after bfpga_start: a card-to-host engine is given its whole
      data area to fill; a host-to-card channel is left alone. */
  function StartStep(ch: DmaChan): DmaChan
  {
    if ch.c2h then ch.(desc0 := ch.desc0.(len := ch.dataBufferLen)) else ch
  }

  /** The start writes bfpga_start makes for a run of channels, in channel order. */
  function StartWrites(chs: seq<DmaChan>): seq<RegWrite>
    decreases |chs|
  {
    if chs == [] then []
    else
      var n := |chs| - 1;
      StartWrites(chs[..n]) + (if chs[n].c2h then [StartWrite(chs[n])] else [])
  }

  /** bfpga_start starts exactly the card-to-host channels: one run command
      for each, in channel order, to its own control register. */
  lemma {:induction false} StartWritesAreC2h(chs: seq<DmaChan>)
    ensures StartWrites(chs) == [] <==> forall k :: 0 <= k < |chs| ==> !chs[k].c2h
    ensures forall w :: w in StartWrites(chs) ==>
      w.value == ControlRun && exists k :: 0 <= k < |chs| && chs[k].c2h && w.reg == Add32(chs[k].registers, DmaControl)
    decreases |chs|
  {
    if chs != [] {
      var n := |chs| - 1;
      StartWritesAreC2h(chs[..n]);
      assert forall k :: 0 <= k < n ==> chs[..n][k] == chs[k];
    }
  }

  /** The driver's per-card state (DeviceData). */
  class Device {
    var regs: MemMap
    var dmaRegs: MemMap
    var numChannels: Word
    const channels: array<DmaChan>
    var regWrites: seq<RegWrite>

    ghost predicate Valid()
      reads this, channels
    {
      channels.Length == 8 && numChannels <= 8 &&
      forall c :: 0 <= c < 8 ==> ChannelOk(channels[c])
    }

    constructor (regs: MemMap, dmaRegs: MemMap)
      ensures Valid() && fresh(channels)
      ensures this.regs == regs && this.dmaRegs == dmaRegs && numChannels == 0 && regWrites == []
      ensures forall c :: 0 <= c < 8 ==> channels[c] == ZeroChan
    {
      this.regs := regs;
      this.dmaRegs := dmaRegs;
      numChannels := 0;
      channels := new DmaChan[8](_ => ZeroChan);
      regWrites := [];
    }

    /** dma_init: a channel number above 7 is refused with -1 and nothing
        changes; a failed allocation leaves the slot named but unusable and
        returns -ENODEV; otherwise the channel's registers are programmed. */
    method DmaInit(channel: Word, c2h: bool, devChannel: Word, alloc: Option<nat>) returns (r: int)
      requires Valid()
      modifies channels, this`regWrites
      ensures Valid()
      ensures channel > 7 ==> r == -1 && channels[..] == old(channels[..]) && regWrites == old(regWrites)
      ensures channel <= 7 ==>
        (r == 0 <==> alloc.Some?) && (r != 0 ==> r == -ENODEV) &&
        channels[..] == old(channels[..])[channel := InitChannel(old(channels[channel]), channel, c2h, devChannel, alloc)] &&
        regWrites == old(regWrites) + (if alloc.Some? then InitWrites(c2h, devChannel, alloc.value) else [])
    {
      if channel > 7 {
        return -1;
      }
      InitChannelState(channels[channel], channel, c2h, devChannel, alloc);
      channels[channel] := InitChannel(channels[channel], channel, c2h, devChannel, alloc);
      if alloc.None? {
        return -ENODEV;
      }
      regWrites := regWrites + InitWrites(c2h, devChannel, alloc.value);
      return 0;
    }

    /** dma_start: the first descriptor takes the length and the engine is set running. */
    method DmaStart(c: nat, len: Word)
      requires Valid() && c < 8
      modifies channels, this`regWrites
      ensures Valid()
      ensures channels[..] == old(channels[..])[c := old(channels[c]).(desc0 := old(channels[c]).desc0.(len := len))]
      ensures regWrites == old(regWrites) + [StartWrite(old(channels[c]))]
    {
      regWrites := regWrites + [StartWrite(channels[c])];
      channels[c] := channels[c].(desc0 := channels[c].desc0.(len := len));
    }

    /** dma_read of nbytes on channel c, with copyFails standing for a fault
        in copy_to_user. Otherwise the available count, cut to nbytes, is
        returned and cleared, while copied, the number of bytes copy_to_user
        is asked for, is nbytes as written (see ReadCopyLeavesData). */
    method DmaRead(c: nat, nbytes: Word, copyFails: bool) returns (r: int, copied: Word)
      requires Valid() && c < 8
      modifies channels
      ensures Valid()
      ensures copyFails ==> r == -EFAULT && copied == 0 && channels[..] == old(channels[..])
      ensures !copyFails ==>
        r == Signed32(ReadCount(old(channels[c]).available, nbytes)) &&
        copied == ReadCopyAsWritten(old(channels[c]).available, nbytes) &&
        channels[..] == old(channels[..])[c := ReadChannel(old(channels[c]))]
    {
      var count := channels[c].available;
      if count > nbytes {
        count := nbytes;
      }
      if copyFails {
        return -EFAULT, 0;
      }
      copied := nbytes;
      channels[c] := channels[c].(available := 0);
      r := Signed32(count);
    }

    /** dma_write of nbytes on channel c: the data goes into the data area
        and the engine starts on nbytes. */
    method DmaWrite(c: nat, nbytes: Word, copyFails: bool) returns (r: int)
      requires Valid() && c < 8
      modifies channels, this`regWrites
      ensures Valid()
      ensures copyFails ==> r == -EFAULT && channels[..] == old(channels[..]) && regWrites == old(regWrites)
      ensures !copyFails ==>
        r == Signed32(nbytes) &&
        channels[..] == old(channels[..])[c := WriteChannel(old(channels[c]), nbytes)] &&
        regWrites == old(regWrites) + [StartWrite(old(channels[c]))]
    {
      if copyFails {
        return -EFAULT;
      }
      ReadWriteKeepOk(channels[c], nbytes);
      channels[c] := channels[c].(available := 0);
      DmaStart(c, nbytes);
      r := Signed32(nbytes);
    }

    /** The body of bfpga_intr_handler for channel c: an event refreshes the
        available count and stops the engine. */
    method HandleInterrupt(c: nat, e: IntrInput)
      requires Valid() && c < 8
      modifies channels, this`regWrites
      ensures Valid()
      ensures channels[..] == old(channels[..])[c := IntrStep(old(channels[c]), e)]
      ensures regWrites == old(regWrites) + IntrWrites1(old(channels[c]), e)
    {
      var ch := channels[c];
      IntrStepCases(ch, e);
      if Signalled(e) {
        channels[c] := ch.(available := if ch.c2h then e.metadata else ch.dataBufferLen);
        regWrites := regWrites + [RegWrite(Add32(ch.registers, DmaControl), 0)];
      }
    }

    /** bfpga_intr_handler: every probed channel takes its interrupt step in
        turn and the engines with an event are stopped. events holds each
        channel's status and metadata. */
    method IntrHandler(events: seq<IntrInput>)
      requires Valid() && |events| == numChannels
      modifies channels, this`regWrites
      ensures Valid()
      ensures forall c :: 0 <= c < numChannels ==> channels[c] == IntrStep(old(channels[c]), events[c])
      ensures forall c :: numChannels <= c < 8 ==> channels[c] == old(channels[c])
      ensures regWrites == old(regWrites) + IntrWrites(old(channels[..])[..numChannels], events)
    {
      ghost var before := channels[..];
      var c: Word := 0;
      while c < numChannels
        invariant Valid() && c <= numChannels
        invariant forall k :: 0 <= k < c ==> channels[k] == IntrStep(before[k], events[k])
        invariant forall k :: c <= k < 8 ==> channels[k] == before[k]
        invariant regWrites == old(regWrites) + IntrWrites(before[..c], events[..c])
      {
        HandleInterrupt(c, events[c]);
        assert before[..c + 1][..c] == before[..c] && events[..c + 1][..c] == events[..c];
        assert IntrWrites(before[..c + 1], events[..c + 1]) ==
          IntrWrites(before[..c], events[..c]) + IntrWrites1(before[c], events[c]);
        c := c + 1;
      }
      assert events[..numChannels] == events;
    }

    /** bfpga_start: every probed card-to-host channel is started with its
        whole data area as the length. */
    method Start()
      requires Valid()
      modifies channels, this`regWrites
      ensures Valid()
      ensures forall c :: 0 <= c < numChannels ==> channels[c] == StartStep(old(channels[c]))
      ensures forall c :: numChannels <= c < 8 ==> channels[c] == old(channels[c])
      ensures regWrites == old(regWrites) + StartWrites(old(channels[..])[..numChannels])
    {
      ghost var before := channels[..];
      var c: Word := 0;
      while c < numChannels
        invariant c <= numChannels
        invariant forall k :: 0 <= k < c ==> channels[k] == StartStep(before[k])
        invariant forall k :: c <= k < 8 ==> channels[k] == before[k]
        invariant Valid()
        invariant regWrites == old(regWrites) + StartWrites(before[..c])
      {
        if channels[c].c2h {
          DmaStart(c, channels[c].dataBufferLen);
        }
        assert before[..c + 1][..c] == before[..c];
        assert StartWrites(before[..c + 1]) ==
          StartWrites(before[..c]) + (if before[c].c2h then [StartWrite(before[c])] else []);
        c := c + 1;
      }
    }

    /** The regions bfpga_mmap knows besides the register regions: the whole
        allocations of channels 0 to 3. */
    function Buffers(): (b: seq<MemMap>)
      reads this, channels
      requires Valid()
      ensures |b| == 4
    {
      [BufferRegion(channels[0]), BufferRegion(channels[1]), BufferRegion(channels[2]), BufferRegion(channels[3])]
    }

    /** bfpga_mmap of span bytes at page offset pgoff. */
    function MmapDevice(pgoff: nat, span: nat, remapOk: bool): MmapResult
      reads this, channels
      requires Valid()
    {
      Mmap(pgoff, span, regs, dmaRegs, Buffers(), remapOk)
    }
  }

  /** A channel's allocation as bfpga_mmap sees it: its physical address (0
      when never allocated) and its whole length, descriptor page included. */
  function BufferRegion(ch: DmaChan): MemMap
  {
    MemMap(if ch.physAddress.Some? then ch.physAddress.value else 0, ch.dmaBufferLen)
  }

  /** bfpga_ioctl, control standing for the value the FPGA's control
      register reads: the driver's own commands return 0, and this variant
      knows no FIONREAD, so it and every other command fail with -EINVAL. */
  function Ioctl(cmd: IoctlCmd, control: Word): (r: IoctlResult)
    ensures r.ret == 0 || r.ret == -EINVAL
    ensures r.reported.Some? ==> r.ret == 0
  {
    match cmd
    case Driver(op) => DriverIoctl(op, control)
    case _ => IoctlResult(-EINVAL, None)
  }

  /** A command fails exactly when it is not one of the driver's own, and
      only GET_CONTROL reports a value: the control register's. */
  lemma IoctlRejects(cmd: IoctlCmd, control: Word)
    ensures Ioctl(cmd, control).ret == -EINVAL <==> !cmd.Driver?
    ensures Ioctl(cmd, control).ret == 0 <==> cmd.Driver?
    ensures Ioctl(cmd, control).reported.Some? <==> cmd.Driver? && cmd.op.GetControl?
    ensures Ioctl(cmd, control).reported.Some? ==> Ioctl(cmd, control).reported.value == control
  {
  }
}
