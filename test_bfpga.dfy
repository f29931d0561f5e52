/** The DMA channel bookkeeping of the bfpga driver in test/bfpga_driver/bfpga.c.
    Each channel has a separate page of descriptors and metadata and a
    buffer of ten pages. A channel moves between "idle" and "waiting for the
    engine" through dma_init, dma_read, dma_write and the event processing
    that the interrupt handler runs. The engine's registers are not
    simulated: what the driver writes to them is recorded in order, and what
    it reads from them comes in as parameters. */
module TestBfpga {
  import opened Words
  import opened DmaCommon

  /** DmaBufferLen: ten pages. */
  const DmaBufferLen: Word := 10 * PageSize

  /** One channel (DmaChan). The descriptor page and the buffer are given by
      their physical addresses, None for an allocation that failed or never happened. */
  datatype DmaChan = DmaChan(
    channel: Word,
    c2h: bool,
    devChannel: Word,
    registers: Word,
    descsPhysAddress: Option<nat>,
    dmaBufferLen: Word,
    bufferPhysAddress: Option<nat>,
    desc0: DmaDesc,
    desc1: DmaDesc,
    available: Word,
    waitForEvent: bool,
    nTrans: Word)

  /** A channel as the zero-initialised static device structure holds it. */
  const ZeroChan: DmaChan := DmaChan(0, false, 0, 0, None, 0, None, ZeroDesc, ZeroDesc, 0, false, 0)

  /** The bookkeeping every operation keeps: a channel waiting for the engine
      has nothing available, and a host-to-card channel has either its whole
      buffer free or none of it. */
  predicate ChannelOk(ch: DmaChan)
  {
    (ch.waitForEvent ==> ch.available == 0) &&
    (!ch.c2h ==> ch.available == 0 || ch.available == ch.dmaBufferLen)
  }

  // ----- dma_init -----

  /** The first descriptor dma_init builds. A card-to-host transfer fetches
      its metadata from the last 8 bytes of the descriptor page and writes the
      data into the buffer; a host-to-card transfer reads from the buffer.
      Both chain to the second descriptor, right after the first. */
  function FirstDesc(c2h: bool, descs: nat, buffer: nat): DmaDesc
  {
    if c2h then DmaDesc(DescControl, 0, descs + PageSize - 8, buffer, descs + DescBytes)
    else DmaDesc(DescControl, 0, buffer, 0, descs + DescBytes)
  }

  /** The channel after dma_init(channel, c2h, devChannel) for channel <= 7,
      given the outcome of the two allocations. The identity, the register
      block and the counters are set before either allocation. */
  function InitChannel(ch: DmaChan, channel: Word, c2h: bool, devChannel: Word, descs: Option<nat>, buffer: Option<nat>): DmaChan
  {
    var named := ch.(channel := channel, c2h := c2h, devChannel := devChannel, dmaBufferLen := DmaBufferLen,
                     registers := ChannelRegisters(c2h, devChannel), available := 0, waitForEvent := false,
                     nTrans := 0, descsPhysAddress := descs);
    if descs.None? then named
    else if buffer.None? then named.(bufferPhysAddress := None)
    else named.(bufferPhysAddress := buffer, desc0 := FirstDesc(c2h, descs.value, buffer.value), desc1 := LastDesc,
                available := if c2h then 0 else DmaBufferLen)
  }

  /** What dma_init returns for channel <= 7. */
  function InitResult(descs: Option<nat>, buffer: Option<nat>): int
  {
    if descs.None? || buffer.None? then -ENODEV else 0
  }

  /** The registers dma_init writes once both allocations succeed: the
      descriptor page's address into the scatter-gather block, a zero next
      pointer and credit count, then a stopped engine with interrupts enabled. */
  function InitWrites(c2h: bool, devChannel: Word, descs: nat): seq<RegWrite>
  {
    var sg := SgRegisters(c2h, devChannel);
    var regs := ChannelRegisters(c2h, devChannel);
    [RegWrite(Add32(sg, DmascAddressLow), AddressLow(descs)),
     RegWrite(Add32(sg, DmascAddressHigh), AddressHigh(descs)),
     RegWrite(Add32(sg, DmascNext), 0),
     RegWrite(Add32(sg, DmascCredits), 0),
     RegWrite(Add32(regs, DmaControl), 0),
     RegWrite(Add32(regs, DmaIntMask), IntMaskEnables)]
  }

  /** An initialised channel: it is idle with no transfers counted; it has
      its whole buffer free when it sends to the card and nothing to read when
      it receives from it; its descriptors start one transfer and stop; and
      it keeps the bookkeeping, even when an allocation failed. */
  lemma InitChannelState(ch: DmaChan, channel: Word, c2h: bool, devChannel: Word, descs: Option<nat>, buffer: Option<nat>)
    ensures var ch' := InitChannel(ch, channel, c2h, devChannel, descs, buffer);
      ChannelOk(ch') && !ch'.waitForEvent && ch'.nTrans == 0 && ch'.channel == channel &&
      ch'.c2h == c2h && ch'.dmaBufferLen == DmaBufferLen &&
      (InitResult(descs, buffer) == 0 <==> descs.Some? && buffer.Some?) &&
      (InitResult(descs, buffer) == 0 ==>
        ch'.available == (if c2h then 0 else DmaBufferLen) &&
        ch'.desc0.nextDesc == descs.value + DescBytes && ch'.desc1.nextDesc == 0 &&
        ch'.desc0.control % 2 == 1 && ch'.desc1.control % 2 == 1 &&
        (c2h ==> ch'.desc0.destAddress == buffer.value && ch'.desc0.srcAddress + 8 == descs.value + PageSize) &&
        (!c2h ==> ch'.desc0.srcAddress == buffer.value)) &&
      (InitResult(descs, buffer) != 0 ==> ch'.available == 0)
  {
    DescControlFlags();
  }

  /** The writes go to the channel's own two register blocks and point the
      scatter-gather engine at the descriptor page. */
  lemma InitWritesTargets(c2h: bool, devChannel: Word, descs: nat)
    requires devChannel < 16 && descs < Limit64
    ensures var w := InitWrites(c2h, devChannel, descs);
      |w| == 6 &&
      (forall k :: 0 <= k < 4 ==> SgRegisters(c2h, devChannel) <= w[k].reg < SgRegisters(c2h, devChannel) + 0x100) &&
      (forall k :: 4 <= k < 6 ==> ChannelRegisters(c2h, devChannel) <= w[k].reg < ChannelRegisters(c2h, devChannel) + 0x100) &&
      w[1].value * Limit32 + w[0].value == descs
  {
    RegisterBlocks(c2h, devChannel);
    AddressWords(descs);
  }

  // ----- dma_read, dma_write -----

  /** The channel after a dma_read whose copy succeeded. */
  function ReadChannel(ch: DmaChan): DmaChan
  {
    ch.(available := 0)
  }

  /** The channel after a dma_write of nbytes whose copy succeeded: the
      descriptor carries the length, the engine runs and the channel waits. */
  function WriteChannel(ch: DmaChan, nbytes: Word): DmaChan
  {
    ch.(waitForEvent := true, available := 0, desc0 := ch.desc0.(len := nbytes))
  }

  /** The write dma_start makes to set the channel's engine running. */
  function StartWrite(ch: DmaChan): RegWrite
  {
    RegWrite(Add32(ch.registers, DmaControl), ControlRun)
  }

  /** Reading and writing keep the bookkeeping. A write leaves the channel
      waiting with nothing available and its descriptor holding the length;
      on a host-to-card channel that passed bfpga_write's wait for space, the
      length fits in the buffer. */
  lemma ReadWriteKeepOk(ch: DmaChan, nbytes: Word)
    requires ChannelOk(ch)
    ensures ChannelOk(ReadChannel(ch)) && ReadChannel(ch).available == 0
    ensures ChannelOk(WriteChannel(ch, nbytes))
    ensures WriteChannel(ch, nbytes).waitForEvent && WriteChannel(ch, nbytes).desc0.len == nbytes
    ensures !ch.c2h && 0 < nbytes <= ch.available ==> nbytes <= ch.dmaBufferLen
  {
  }

  // ----- event processing -----

  /** The three registers bfpga_process_events reads for a channel (its
      control word, its status, read through the clearing alias, and its
      completion count) and the metadata word the engine left at the end of
      the descriptor page. */
  datatype EventInput = EventInput(control: Word, status: Word, complete: Word, metadata: Word)

  /** A channel's descriptor has completed: status bit 2 is set, or, when
      looking for stuck transfers, the engine still runs (control bit 2)
      and has completed descriptors. */
  predicate Fired(processStuck: bool, e: EventInput)
  {
    BitAnd(e.status, 4) != 0 || (processStuck && BitAnd(e.control, 4) != 0 && e.complete != 0)
  }

  /** The channel after event processing: a fired event on a waiting channel
      ends the wait, counts the transfer and makes the data (card-to-host, as
      long as the metadata says) or the whole buffer (host-to-card) available.
      An event the channel is not waiting for changes nothing. */
  function EventStep(ch: DmaChan, processStuck: bool, e: EventInput): DmaChan
  {
    if Fired(processStuck, e) && ch.waitForEvent then
      ch.(waitForEvent := false, available := if ch.c2h then e.metadata else ch.dmaBufferLen,
          nTrans := (ch.nTrans + 1) % Limit32)
    else ch
  }

  /** The write that stops the engine of a channel whose event was handled. */
  function EventWrites1(ch: DmaChan, processStuck: bool, e: EventInput): seq<RegWrite>
  {
    if Fired(processStuck, e) && ch.waitForEvent then [RegWrite(Add32(ch.registers, DmaControl), 0)] else []
  }

  /** The stop writes for a run of channels, in channel order. */
  function EventWrites(chs: seq<DmaChan>, processStuck: bool, es: seq<EventInput>): seq<RegWrite>
    requires |chs| == |es|
    decreases |chs|
  {
    if chs == [] then []
    else
      var n := |chs| - 1;
      EventWrites(chs[..n], processStuck, es[..n]) + EventWrites1(chs[n], processStuck, es[n])
  }

  /** When an event fires, in terms of the register bits. */
  lemma FiredBits(processStuck: bool, e: EventInput)
    ensures Fired(processStuck, e) <==>
      (e.status / 4) % 2 == 1 || (processStuck && (e.control / 4) % 2 == 1 && e.complete != 0)
  {
    AndBit2(e.status);
    AndBit2(e.control);
  }

  /** Event processing keeps the bookkeeping and changes a channel exactly
      when it was waiting and its event fired; it then counts one transfer
      (modulo 2^32) and leaves the channel idle. */
  lemma EventStepCases(ch: DmaChan, processStuck: bool, e: EventInput)
    requires ChannelOk(ch)
    ensures ChannelOk(EventStep(ch, processStuck, e))
    ensures EventStep(ch, processStuck, e) != ch <==> Fired(processStuck, e) && ch.waitForEvent
    ensures Fired(processStuck, e) && ch.waitForEvent ==>
      !EventStep(ch, processStuck, e).waitForEvent &&
      EventStep(ch, processStuck, e).nTrans == (ch.nTrans + 1) % Limit32
  {
  }

  /** A write completed by its event gives the host-to-card channel its whole
      buffer back; a card-to-host transfer completed by its event makes the
      metadata's count available, and a read then reports at most that. */
  lemma TransferCompletes(ch: DmaChan, nbytes: Word, processStuck: bool, e: EventInput, request: Word)
    requires ChannelOk(ch) && Fired(processStuck, e)
    ensures !ch.c2h ==>
      var done := EventStep(WriteChannel(ch, nbytes), processStuck, e);
      done.available == ch.dmaBufferLen && !done.waitForEvent && done.desc0.len == nbytes
    ensures ch.c2h ==>
      var done := EventStep(WriteChannel(ch, nbytes), processStuck, e);
      done.available == e.metadata && ReadCount(done.available, request) <= e.metadata
  {
  }

  /** No stop write is made exactly when no channel changes. */
  lemma {:induction false} EventWritesEmpty(chs: seq<DmaChan>, processStuck: bool, es: seq<EventInput>)
    requires |chs| == |es|
    ensures EventWrites(chs, processStuck, es) == [] <==>
      forall k :: 0 <= k < |chs| ==> EventStep(chs[k], processStuck, es[k]) == chs[k]
    decreases |chs|
  {
    if chs != [] {
      var n := |chs| - 1;
      EventWritesEmpty(chs[..n], processStuck, es[..n]);
      assert EventWrites(chs, processStuck, es) ==
        EventWrites(chs[..n], processStuck, es[..n]) + EventWrites1(chs[n], processStuck, es[n]);
      assert EventWrites1(chs[n], processStuck, es[n]) == [] <==> EventStep(chs[n], processStuck, es[n]) == chs[n];
      forall k | 0 <= k < n
        ensures chs[..n][k] == chs[k] && es[..n][k] == es[k]
      {
      }
    }
  }

  /** A channel's buffer as bfpga_mmap sees it: its physical address (0 when
      never allocated) and length. */
  function BufferRegion(ch: DmaChan): MemMap
  {
    MemMap(if ch.bufferPhysAddress.Some? then ch.bufferPhysAddress.value else 0, ch.dmaBufferLen)
  }

  /** The driver's per-card state (DeviceData): the two register regions, the
      channels found at probe time, the eight channel slots and, standing for
      the hardware, the register writes made so far. */
  class Device {
    var regs: MemMap
    var dmaRegs: MemMap
    var numChannels: Word
    const channels: array<DmaChan>
    var regWrites: seq<RegWrite>

    ghost predicate Valid()
      reads this, channels
    {
      channels.Length == 8 && numChannels <= 8 &&
      forall c :: 0 <= c < 8 ==> ChannelOk(channels[c])
    }

    /** A zero-initialised card whose register regions are mapped; the
        channels are set up by dma_init. */
    constructor (regs: MemMap, dmaRegs: MemMap)
      ensures Valid() && fresh(channels)
      ensures this.regs == regs && this.dmaRegs == dmaRegs && numChannels == 0 && regWrites == []
      ensures forall c :: 0 <= c < 8 ==> channels[c] == ZeroChan
    {
      this.regs := regs;
      this.dmaRegs := dmaRegs;
      numChannels := 0;
      channels := new DmaChan[8](_ => ZeroChan);
      regWrites := [];
    }

    /** dma_init: a channel number above 7 is refused with -1 and nothing
        changes. Otherwise the slot is set up as InitChannel says (the two
        allocations come in as descs and buffer) and, when both allocations
        succeed, the channel's registers are programmed. */
    method DmaInit(channel: Word, c2h: bool, devChannel: Word, descs: Option<nat>, buffer: Option<nat>) returns (r: int)
      requires Valid()
      modifies channels, this`regWrites
      ensures Valid()
      ensures channel > 7 ==> r == -1 && channels[..] == old(channels[..]) && regWrites == old(regWrites)
      ensures channel <= 7 ==>
        r == InitResult(descs, buffer) &&
        channels[..] == old(channels[..])[channel := InitChannel(old(channels[channel]), channel, c2h, devChannel, descs, buffer)] &&
        regWrites == old(regWrites) + (if r == 0 then InitWrites(c2h, devChannel, descs.value) else [])
    {
      if channel > 7 {
        return -1;
      }
      InitChannelState(channels[channel], channel, c2h, devChannel, descs, buffer);
      channels[channel] := InitChannel(channels[channel], channel, c2h, devChannel, descs, buffer);
      if descs.None? || buffer.None? {
        return -ENODEV;
      }
      regWrites := regWrites + InitWrites(c2h, devChannel, descs.value);
      return 0;
    }

    /** dma_start: the first descriptor takes the length and the engine is set running. */
    method DmaStart(c: nat, len: Word)
      requires Valid() && c < 8
      modifies channels, this`regWrites
      ensures Valid()
      ensures channels[..] == old(channels[..])[c := old(channels[c]).(desc0 := old(channels[c]).desc0.(len := len))]
      ensures regWrites == old(regWrites) + [StartWrite(old(channels[c]))]
    {
      regWrites := regWrites + [StartWrite(channels[c])];
      channels[c] := channels[c].(desc0 := channels[c].desc0.(len := len));
    }

    /** dma_read of nbytes on channel c. copyFails stands for a fault in
        copy_to_user, which leaves the channel as it was. Otherwise the
        channel's available count is reported (cut to nbytes, converted to
        int) and cleared, while copied, the number of bytes copy_to_user is
        asked for, is nbytes as written (see DmaCommon.ReadCopyOverruns). */
    method DmaRead(c: nat, nbytes: Word, copyFails: bool) returns (r: int, copied: Word)
      requires Valid() && c < 8
      modifies channels
      ensures Valid()
      ensures copyFails ==> r == -EFAULT && copied == 0 && channels[..] == old(channels[..])
      ensures !copyFails ==>
        r == Signed32(ReadCount(old(channels[c]).available, nbytes)) &&
        copied == ReadCopyAsWritten(old(channels[c]).available, nbytes) &&
        channels[..] == old(channels[..])[c := ReadChannel(old(channels[c]))]
    {
      var count := channels[c].available;
      if count > nbytes {
        count := nbytes;
      }
      if copyFails {
        return -EFAULT, 0;
      }
      copied := nbytes;
      channels[c] := channels[c].(available := 0);
      r := Signed32(count);
    }

    /** dma_write of nbytes on channel c: the data goes into the buffer, the
        channel waits for the engine and the engine starts on nbytes. */
    method DmaWrite(c: nat, nbytes: Word, copyFails: bool) returns (r: int)
      requires Valid() && c < 8
      modifies channels, this`regWrites
      ensures Valid()
      ensures copyFails ==> r == -EFAULT && channels[..] == old(channels[..]) && regWrites == old(regWrites)
      ensures !copyFails ==>
        r == Signed32(nbytes) &&
        channels[..] == old(channels[..])[c := WriteChannel(old(channels[c]), nbytes)] &&
        regWrites == old(regWrites) + [StartWrite(old(channels[c]))]
    {
      if copyFails {
        return -EFAULT;
      }
      ReadWriteKeepOk(channels[c], nbytes);
      channels[c] := channels[c].(waitForEvent := true, available := 0);
      DmaStart(c, nbytes);
      r := Signed32(nbytes);
    }

    /** The body of bfpga_process_events for channel c: a fired event on a
        waiting channel stops its engine and completes the transfer. */
    method HandleEvent(c: nat, processStuck: bool, e: EventInput)
      requires Valid() && c < 8
      modifies channels, this`regWrites
      ensures Valid()
      ensures channels[..] == old(channels[..])[c := EventStep(old(channels[c]), processStuck, e)]
      ensures regWrites == old(regWrites) + EventWrites1(old(channels[c]), processStuck, e)
    {
      var ch := channels[c];
      EventStepCases(ch, processStuck, e);
      if Fired(processStuck, e) && ch.waitForEvent {
        regWrites := regWrites + [RegWrite(Add32(ch.registers, DmaControl), 0)];
        channels[c] := ch.(waitForEvent := false, available := if ch.c2h then e.metadata else ch.dmaBufferLen,
                           nTrans := (ch.nTrans + 1) % Limit32);
      }
    }

    /** bfpga_process_events: with the interrupt mask cleared, every probed
        channel takes its event step in turn, the engines of the handled
        channels are stopped, and the mask is set again. events holds each
        channel's register reads. */
    method ProcessEvents(processStuck: bool, events: seq<EventInput>)
      requires Valid() && |events| == numChannels
      modifies channels, this`regWrites
      ensures Valid()
      ensures forall c :: 0 <= c < numChannels ==> channels[c] == EventStep(old(channels[c]), processStuck, events[c])
      ensures forall c :: numChannels <= c < 8 ==> channels[c] == old(channels[c])
      ensures regWrites == old(regWrites) + [RegWrite(IrqMask, 0)] +
        EventWrites(old(channels[..])[..numChannels], processStuck, events) + [RegWrite(IrqMask, 0xFF)]
    {
      ghost var before := channels[..];
      regWrites := regWrites + [RegWrite(IrqMask, 0)];
      ghost var masked := regWrites;
      var c: Word := 0;
      while c < numChannels
        invariant Valid() && c <= numChannels
        invariant forall k :: 0 <= k < c ==> channels[k] == EventStep(before[k], processStuck, events[k])
        invariant forall k :: c <= k < 8 ==> channels[k] == before[k]
        invariant regWrites == masked + EventWrites(before[..c], processStuck, events[..c])
      {
        HandleEvent(c, processStuck, events[c]);
        assert before[..c + 1][..c] == before[..c] && events[..c + 1][..c] == events[..c];
        assert EventWrites(before[..c + 1], processStuck, events[..c + 1]) ==
          EventWrites(before[..c], processStuck, events[..c]) + EventWrites1(before[c], processStuck, events[c]);
        c := c + 1;
      }
      assert events[..numChannels] == events;
      regWrites := regWrites + [RegWrite(IrqMask, 0xFF)];
    }

    /** The available count of a channel, as FIONREAD reports it. */
    function ChannelAvailable(c: nat): Word
      reads this, channels
      requires Valid() && c < 8
    {
      channels[c].available
    }

    /** bfpga_ioctl for the device node with the given minor number (node
        m > 0 is channel m - 1), control standing for the value the FPGA's
        control register reads. The driver's own commands return 0 on every
        node. FIONREAD stores the channel's available
        count, or fails with -EFAULT when put_user does (putFails); the
        nodes of no channel, minors 0 and 1, answer it with -EINVAL, as they
        do every command the driver does not know. */
    function Ioctl(cmd: IoctlCmd, minor: Word, putFails: bool, control: Word): (r: IoctlResult)
      reads this, channels
      requires Valid() && minor <= 8
    {
      match cmd
      case Driver(op) => DriverIoctl(op, control)
      case Fionread =>
        if minor > 1 then
          (if putFails then IoctlResult(-EFAULT, None) else IoctlResult(0, Some(ChannelAvailable(minor - 1))))
        else IoctlResult(-EINVAL, None)
      case Unknown(_) => IoctlResult(-EINVAL, None)
    }

    /** The regions bfpga_mmap knows besides the register regions: the
        buffers of channels 0 to 3. */
    function Buffers(): (b: seq<MemMap>)
      reads this, channels
      requires Valid()
      ensures |b| == 4
    {
      [BufferRegion(channels[0]), BufferRegion(channels[1]), BufferRegion(channels[2]), BufferRegion(channels[3])]
    }

    /** bfpga_mmap of span bytes at page offset pgoff. */
    function MmapDevice(pgoff: nat, span: nat, remapOk: bool): MmapResult
      reads this, channels
      requires Valid()
    {
      Mmap(pgoff, span, regs, dmaRegs, Buffers(), remapOk)
    }
  }

  /** FIONREAD reports exactly the available count of the node's channel:
      after a completed read, zero. */
  lemma FionreadReports(d: Device, minor: Word, control: Word)
    requires d.Valid() && 1 < minor <= 8
    ensures d.Ioctl(Fionread, minor, false, control) == IoctlResult(0, Some(d.channels[minor - 1].available))
    ensures d.Ioctl(Fionread, minor, true, control).ret == -EFAULT
    ensures d.channels[minor - 1] == ReadChannel(d.channels[minor - 1]) ==> d.Ioctl(Fionread, minor, false, control).reported == Some(0)
  {
  }

  /** Unknown commands, and FIONREAD on the first two nodes, fail with
      -EINVAL and report nothing; the driver's own commands succeed on every
      node, and of them only GET_CONTROL reports a value. */
  lemma IoctlRejects(d: Device, cmd: IoctlCmd, minor: Word, putFails: bool, control: Word)
    requires d.Valid() && minor <= 8
    ensures d.Ioctl(cmd, minor, putFails, control).ret == -EINVAL <==> cmd.Unknown? || (cmd.Fionread? && minor <= 1)
    ensures d.Ioctl(cmd, minor, putFails, control).ret == 0 <==> cmd.Driver? || (cmd.Fionread? && minor > 1 && !putFails)
    ensures d.Ioctl(cmd, minor, putFails, control).reported.Some? <==>
      (cmd.Fionread? && minor > 1 && !putFails) || (cmd.Driver? && cmd.op.GetControl?)
  {
  }
}
