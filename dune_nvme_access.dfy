/** The host side of the DuneNvme program (source/DuneNvme/test/NvmeAccess.cpp).
    It uses the same request layout as the "test" program and a reply layout
    without a completer id, talks to a single NVMe, and keeps 8-slot queues. */
module DuneNvmeAccess {
  import opened Words
  import opened XilinxPackets
  import opened NvmeHost
  import opened ReadCompletions

  /** The compile-time switches of this variant. */
  const UseQueueEngine: bool := true
  const UseConfigEngine: bool := false

  /** The host memory sizes, in 32-bit words. */
  const QueueMemWords: nat := 4096
  const BlockMemWords: nat := 8192
  /** The number of slots the constructor gives each host queue. */
  const QueueSlots: Word := 8
  /** The receive buffer: one 4096-byte read from the receive channel. */
  const RxBufferWords: nat := 1024
  /** The words of one NVMe submission queue entry. */
  const CommandWords: nat := 16

  function MemoryWords(m: HostMemory): nat
  {
    if m == BlockMem then BlockMemWords else QueueMemWords
  }

  /** The 16-word submission queue entry nvmeRequest builds for command count id. */
  function Command(id: Word, queue: Word, opcode: Word, address: Word, arg10: Word, arg11: Word, arg12: Word): (cmd: seq<Word>)
    ensures |cmd| == CommandWords
  {
    [CommandDword0(id, opcode), if queue != 0 then 1 else 0, 0, 0, 0, 0,
     address, 0, 0, 0, arg10, arg11, arg12, 0, 0, 0]
  }

  /** The entry in the terms of NVM Express 1.4 section 4.2: dword 0 holds the
      opcode and the command identifier 0x01nn, the namespace in dword 1 is 1
      for an I/O queue and 0 for the admin queue, PRP entry 1 is dword 6, PRP
      entry 2 (dword 8) is left zero, command dwords 10 to 12 are the
      arguments, and all other dwords are zero. */
  lemma CommandLayout(id: Word, queue: Word, opcode: Word, address: Word, arg10: Word, arg11: Word, arg12: Word)
    requires opcode < 0x1_0000
    ensures var cmd := Command(id, queue, opcode, address, arg10, arg11, arg12);
      cmd[0] % 0x1_0000 == opcode && cmd[0] / 0x1_0000 == 0x100 + id % 0x100 &&
      (cmd[1] == 1 <==> queue != 0) && (cmd[1] == 0 <==> queue == 0) &&
      cmd[6] == address && cmd[10..13] == [arg10, arg11, arg12] &&
      cmd[2] == cmd[3] == cmd[4] == cmd[5] == cmd[7] == cmd[8] == cmd[9] == cmd[13] == cmd[14] == cmd[15] == 0
  {
    CommandDword0Layout(id, opcode);
    assert Command(id, queue, opcode, address, arg10, arg11, arg12)[10..13] == [arg10, arg11, arg12];
  }

  /** The queue engine's address for a queue: bit 25 OR-ed with the queue number shifted to bit 16. */
  function QueueEngineAddress(queue: Word): Word
  {
    Or32(0x0200_0000, (queue * 0x1_0000) % Limit32)
  }

  /** For the queue numbers that fit their byte, the address is the queue
      engine's window with the queue number in bits 16-23. */
  lemma QueueEngineAddressLayout(queue: Word)
    requires queue < 0x100
    ensures QueueEngineAddress(queue) == 0x0200_0000 + queue * 0x1_0000
    ensures QueueEngineAddress(queue) / 0x1_0000 == 0x200 + queue
  {
    var q := queue * 0x1_0000;
    assert (queue * 0x1_0000) % Limit32 == q;
    OrBelowBit24(0x0200_0000, 2, q);
  }

  /** The host memory a memory read from the device reads, chosen by address bits 16-23. */
  function ReadTarget(address: nat): Option<HostMemory>
  {
    var window := (address / 0x1_0000) % 0x100;
    if window == 0 then Some(AdminQueueMem)
    else if window == 1 then Some(DataQueueMem)
    else if window == 0x80 then Some(BlockMem)
    else None
  }

  /** Where a memory write from the device goes, chosen by address bits 16-23;
      both block windows write from the word the low 16 bits select. */
  function WriteTarget(address: nat): WriteRoute
  {
    var window := (address / 0x1_0000) % 0x100;
    if window == 0x10 then AdminCompletion
    else if window == 0x11 then IoCompletion
    else if window == 0x80 || window == 0xF0 then BlockAt((address % 0x1_0000) / 4)
    else NoWriteTarget
  }

  /** The routing is decided by address bits 16-23 alone, and a block write
      starts at the word the byte offset within the 64 KiB window selects. */
  lemma RoutingByWindow(high: nat, window: nat, offset: nat)
    requires window < 0x100 && offset < 0x1_0000
    ensures ReadTarget(high * 0x100_0000 + window * 0x1_0000 + offset) == ReadTarget(window * 0x1_0000)
    ensures WriteTarget(high * 0x100_0000 + window * 0x1_0000 + offset)
         == if WriteTarget(window * 0x1_0000).BlockAt? then BlockAt(offset / 4) else WriteTarget(window * 0x1_0000)
  {
    var a := high * 0x100_0000 + window * 0x1_0000 + offset;
    assert a == (high * 0x100 + window) * 0x1_0000 + offset;
    DivModOf(high * 0x100 + window, offset, 0x1_0000);
    assert (a / 0x1_0000) % 0x100 == window;
    assert (window * 0x1_0000) / 0x1_0000 == window;
  }

  /** What nvmeProcess needs of a received packet to handle it without going
      outside the host memories: a served read lies within the memory it reads,
      and a block write carries at most a packet's data and fits the block memory. */
  predicate Serviceable(rx: seq<Word>)
    requires |rx| >= RequestHeaderWords
  {
    IsReplyWords(rx) ||
    var q := DecodeRequest(rx);
    (q.request == 0 && ReadTarget(q.address).Some? ==>
       ReadInBounds(q.address, q.numWords, MemoryWords(ReadTarget(q.address).value))) &&
    (q.request == 1 && WriteTarget(q.address).BlockAt? ==>
       q.numWords <= PayloadWords && WriteTarget(q.address).index + q.numWords <= BlockMemWords)
  }

  class NvmeAccess {
    /** The FPGA design's memory-mapped registers. */
    const regs: array<Word>
    var tag: Byte
    const queueNum: Word
    const queueAdminMem: array<Word>
    const queueDataMem: array<Word>
    const dataBlockMem: array<Word>
    var queueAdminRx: Word
    var queueAdminTx: Word
    var queueAdminId: Word
    var queueDataRx: Word
    var queueDataTx: Word
    /** The last reply packet received, for the caller waiting on it. */
    var packetReply: ReplyPacket
    /** Every packet written to the host send channel, oldest first. */
    var sent: seq<seq<Word>>

    ghost predicate Valid()
      reads this
    {
      queueNum == QueueSlots &&
      queueAdminMem.Length == QueueMemWords && queueDataMem.Length == QueueMemWords &&
      dataBlockMem.Length == BlockMemWords &&
      queueAdminMem != queueDataMem && queueAdminMem != dataBlockMem && queueDataMem != dataBlockMem &&
      regs != queueAdminMem && regs != queueDataMem && regs != dataBlockMem &&
      queueAdminRx < queueNum && queueAdminTx < queueNum && queueDataRx < queueNum && queueDataTx < queueNum
    }

    function Memory(m: HostMemory): (a: array<Word>)
      ensures a == queueAdminMem || a == queueDataMem || a == dataBlockMem
    {
      match m
      case AdminQueueMem => queueAdminMem
      case DataQueueMem => queueDataMem
      case BlockMem => dataBlockMem
    }

    /** The host memories are members of the object and are not cleared. */
    constructor(registers: array<Word>)
      ensures Valid() && regs == registers
      ensures fresh(queueAdminMem) && fresh(queueDataMem) && fresh(dataBlockMem)
      ensures tag == 0
      ensures queueAdminRx == 0 && queueAdminTx == 0 && queueAdminId == 0
      ensures queueDataRx == 0 && queueDataTx == 0
      ensures packetReply == ZeroReply() && sent == []
    {
      regs := registers;
      tag := 0;
      queueNum := QueueSlots;
      queueAdminMem := new Word[QueueMemWords];
      queueDataMem := new Word[QueueMemWords];
      dataBlockMem := new Word[BlockMemWords];
      queueAdminRx := 0;
      queueAdminTx := 0;
      queueAdminId := 0;
      queueDataRx := 0;
      queueDataTx := 0;
      packetReply := ZeroReply();
      sent := [];
    }

    method ReadNvmeStorageReg(address: Word) returns (v: Word)
      requires address / 4 < regs.Length
      ensures v == regs[address / 4]
    {
      v := regs[address / 4];
    }

    method WriteNvmeStorageReg(address: Word, v: Word)
      requires address / 4 < regs.Length
      modifies regs
      ensures regs[..] == old(regs[..])[address / 4 := v]
    {
      regs[address / 4] := v;
    }

    /** packetSend for a reply of this layout: the header and numWords data words. */
    method PacketSendReply(h: ReplyHeader, data: seq<Word>)
      requires ReplyFits(h) && |data| == PayloadWords && h.numWords <= PayloadWords
      modifies this`sent
      ensures sent == old(sent) + [ReplyWireNoCompleter(h, data)]
      ensures |ReplyWireNoCompleter(h, data)| == ReplySendWords(h)
    {
      var packet := EncodeReplyNoCompleter(h) + data;
      sent := sent + [packet[..ReplySendWords(h)]];
    }

    /** A PCIe write of num words to the NVMe, sent by packetSend. A
        configuration write (request 10) waits for the device's reply, which
        arrives as received. */
    method PcieWrite(request: Byte, address: Word, num: Word, data: seq<Word>, received: Option<ReplyPacket>)
        returns (e: int)
      requires |data| == num <= PayloadWords
      requires received.Some? <==> request == 10
      requires received.Some? ==> ReplyPacketFits(received.value)
      modifies this`tag, this`sent, this`packetReply
      ensures tag == (old(tag) + 1) % 0x100
      ensures RequestSendWords(HostRequest(request, address, num, tag)) <= RequestHeaderWords + PayloadWords
      ensures sent == old(sent) + [RequestWire(HostRequest(request, address, num, tag), data + Zeros(PayloadWords - num))]
      ensures request == 10 ==>
        var r := received.value;
        packetReply == r.(header := r.header.(numWords := (r.header.numWords + 1) % 0x800)) &&
        e == r.header.error
      ensures request != 10 ==> packetReply == old(packetReply) && e == 0
    {
      tag := (tag + 1) % 0x100;
      var h := HostRequest(request, address, num, tag);
      sent := sent + [RequestWire(h, data + Zeros(PayloadWords - num))];
      e := 0;
      if request == 10 {
        var r := received.value;
        packetReply := r.(header := r.header.(numWords := (r.header.numWords + 1) % 0x800));
        e := packetReply.header.error;
      }
    }

    /** A PCIe read of num words from the NVMe, sent by packetSend; the
        device's reply arrives as received. */
    method PcieRead(request: Byte, address: Word, num: Word, received: ReplyPacket) returns (e: int, data: seq<Word>)
      requires num <= PayloadWords && ReplyPacketFits(received)
      modifies this`tag, this`sent, this`packetReply
      ensures tag == (old(tag) + 1) % 0x100
      ensures RequestSendWords(HostRequest(request, address, num, tag)) <= RequestHeaderWords + PayloadWords
      ensures sent == old(sent) + [RequestWire(HostRequest(request, address, num, tag), Zeros(PayloadWords))]
      ensures packetReply == received && e == received.header.error
      ensures e == 0 ==> data == received.data[..num]
      ensures e != 0 ==> data == []
    {
      tag := (tag + 1) % 0x100;
      var h := HostRequest(request, address, num, tag);
      sent := sent + [RequestWire(h, Zeros(PayloadWords))];
      packetReply := received;
      e := received.header.error;
      if e != 0 {
        data := [];
      } else {
        data := received.data[..num];
      }
    }

    method ReadNvmeReg32(address: Word, received: ReplyPacket) returns (e: int, v: Word)
      requires ReplyPacketFits(received)
      modifies this`tag, this`sent, this`packetReply
      ensures tag == (old(tag) + 1) % 0x100
      ensures sent == old(sent) + [EncodeRequest(HostRequest(0, address, 1, tag))]
      ensures packetReply == received && e == received.header.error
      ensures e == 0 ==> v == received.data[0]
    {
      var data;
      e, data := PcieRead(0, address, 1, received);
      RequestWireShape(HostRequest(0, address, 1, tag), Zeros(PayloadWords));
      v := if e == 0 then data[0] else 0;
    }

    method WriteNvmeReg32(address: Word, v: Word) returns (e: int)
      modifies this`tag, this`sent, this`packetReply
      ensures tag == (old(tag) + 1) % 0x100
      ensures sent == old(sent) + [EncodeRequest(HostRequest(1, address, 1, tag)) + [v]]
      ensures packetReply == old(packetReply) && e == 0
    {
      e := PcieWrite(1, address, 1, [v], None);
      RequestWireShape(HostRequest(1, address, 1, tag), [v] + Zeros(PayloadWords - 1));
    }

    method ReadNvmeReg64(address: Word, received: ReplyPacket) returns (e: int, lo: Word, hi: Word)
      requires ReplyPacketFits(received)
      modifies this`tag, this`sent, this`packetReply
      ensures tag == (old(tag) + 1) % 0x100
      ensures sent == old(sent) + [EncodeRequest(HostRequest(0, address, 2, tag))]
      ensures packetReply == received && e == received.header.error
      ensures e == 0 ==> [lo, hi] == received.data[..2]
    {
      var data;
      e, data := PcieRead(0, address, 2, received);
      RequestWireShape(HostRequest(0, address, 2, tag), Zeros(PayloadWords));
      lo, hi := 0, 0;
      if e == 0 {
        lo, hi := data[0], data[1];
      }
    }

    method WriteNvmeReg64(address: Word, lo: Word, hi: Word) returns (e: int)
      modifies this`tag, this`sent, this`packetReply
      ensures tag == (old(tag) + 1) % 0x100
      ensures sent == old(sent) + [EncodeRequest(HostRequest(1, address, 2, tag)) + [lo, hi]]
      ensures packetReply == old(packetReply) && e == 0
    {
      e := PcieWrite(1, address, 2, [lo, hi], None);
      RequestWireShape(HostRequest(1, address, 2, tag), [lo, hi] + Zeros(PayloadWords - 2));
      assert ([lo, hi] + Zeros(PayloadWords - 2))[..2] == [lo, hi];
    }

    /** nvmeRequest with the queue engine: the next command id is taken and the
        command goes to the queue engine's window for the queue in one
        16-word PCIe write. */
    method NvmeRequest(queue: Word, opcode: Word, address: Word, arg10: Word, arg11: Word, arg12: Word)
        returns (e: int)
      modifies this`queueAdminId, this`tag, this`sent, this`packetReply
      ensures queueAdminId == (old(queueAdminId) + 1) % Limit32
      ensures tag == (old(tag) + 1) % 0x100
      ensures sent == old(sent) +
        [EncodeRequest(HostRequest(1, QueueEngineAddress(queue), CommandWords, tag)) +
         Command(queueAdminId, queue, opcode, address, arg10, arg11, arg12)]
      ensures packetReply == old(packetReply) && e == 0
    {
      queueAdminId := (queueAdminId + 1) % Limit32;
      var cmd := Command(queueAdminId, queue, opcode, address, arg10, arg11, arg12);
      e := PcieWrite(1, QueueEngineAddress(queue), 16, cmd, None);
      RequestWireShape(HostRequest(1, QueueEngineAddress(queue), CommandWords, tag), cmd + Zeros(PayloadWords - 16));
      assert (cmd + Zeros(PayloadWords - 16))[..16] == cmd;
    }

    /** nvmeRequest without the queue engine: the command is copied into the
        tail slot of the admin (queue 0) or I/O queue, the tail steps round the
        ring and the new tail is written to the queue's submission doorbell. */
    method SubmitDirect(queue: Word, opcode: Word, address: Word, arg10: Word, arg11: Word, arg12: Word)
        returns (e: int)
      requires Valid()
      modifies this`queueAdminId, this`queueAdminTx, this`queueDataTx, this`tag, this`sent, this`packetReply
      modifies queueAdminMem, queueDataMem
      ensures Valid()
      ensures queueAdminId == (old(queueAdminId) + 1) % Limit32
      ensures tag == (old(tag) + 1) % 0x100
      ensures packetReply == old(packetReply) && e == 0
      ensures queue != 0 ==>
        queueDataMem[..] == Splice(old(queueDataMem[..]), old(queueDataTx) * CommandWords,
                                   Command(queueAdminId, queue, opcode, address, arg10, arg11, arg12)) &&
        unchanged(queueAdminMem) && queueAdminTx == old(queueAdminTx) &&
        queueDataTx == NextIndex(old(queueDataTx), queueNum) &&
        sent == old(sent) + [EncodeRequest(HostRequest(1, IoSubmissionTail, 1, tag)) + [queueDataTx]]
      ensures queue == 0 ==>
        queueAdminMem[..] == Splice(old(queueAdminMem[..]), old(queueAdminTx) * CommandWords,
                                    Command(queueAdminId, queue, opcode, address, arg10, arg11, arg12)) &&
        unchanged(queueDataMem) && queueDataTx == old(queueDataTx) &&
        queueAdminTx == NextIndex(old(queueAdminTx), queueNum) &&
        sent == old(sent) + [EncodeRequest(HostRequest(1, AdminSubmissionTail, 1, tag)) + [queueAdminTx]]
    {
      queueAdminId := (queueAdminId + 1) % Limit32;
      var cmd := Command(queueAdminId, queue, opcode, address, arg10, arg11, arg12);
      if queue != 0 {
        CopyInto(queueDataMem, queueDataTx * CommandWords, cmd);
        NextIndexInRing(queueDataTx, queueNum);
        queueDataTx := NextIndex(queueDataTx, queueNum);
        e := WriteNvmeReg32(IoSubmissionTail, queueDataTx);
      } else {
        CopyInto(queueAdminMem, queueAdminTx * CommandWords, cmd);
        NextIndexInRing(queueAdminTx, queueNum);
        queueAdminTx := NextIndex(queueAdminTx, queueNum);
        e := WriteNvmeReg32(AdminSubmissionTail, queueAdminTx);
      }
    }

    /** The chunking loop of a memory read: one reply per chunk of at most 32
        words, the address advancing past each chunk, until no words remain.
        The replies of this layout carry no completer id. */
    method SendReplies(address0: nat, tag: nat, rem0: nat, contents: seq<Word>) returns (count: nat)
      requires address0 < Limit64 && tag < 0x100 && rem0 < 0x800
      requires ReadInBounds(address0, rem0, |contents|)
      modifies this`sent
      ensures sent == old(sent) + ReadReplies(address0, tag, rem0, 0, contents)
      ensures count == |ReadReplies(address0, tag, rem0, 0, contents)|
    {
      ghost var total := old(sent) + ReadReplies(address0, tag, rem0, 0, contents);
      var address: nat, rem: nat := address0, rem0;
      count := 0;
      while rem > 0
        invariant address < Limit64 && rem < 0x800 && ReadInBounds(address, rem, |contents|)
        invariant sent + ReadReplies(address, tag, rem, 0, contents) == total
        invariant |sent| == |old(sent)| + count
        decreases rem
      {
        var n := ChunkSize(rem);
        var idx := WordIndex(address);
        ReadRepliesAfterSend(sent, total, address, tag, rem, 0, contents);
        var h := ChunkHeader(address, tag, rem, 0);
        var words := contents[idx..idx + n];
        ChunkWire(h, words);
        PacketSendReply(h, words + Zeros(PayloadWords - n));
        rem := rem - n;
        address := address + 4 * n;
        count := count + 1;
      }
      assert ReadReplies(address, tag, rem, 0, contents) == [];
    }

    /** The effect of a memory write from the device, by where it goes. An I/O
        completion also writes the new head to the completion doorbell; the
        admin completion doorbell is left to the queue engine. */
    ghost predicate WriteApplied(q: RequestHeader, data: seq<Word>, outcome: Outcome,
                                 adminRx0: Word, dataRx0: Word, tag0: Byte, sent0: seq<seq<Word>>,
                                 block0: seq<Word>)
      requires |data| == PayloadWords && |block0| == BlockMemWords && dataBlockMem.Length == BlockMemWords
      reads this, dataBlockMem
    {
      match WriteTarget(q.address)
      case AdminCompletion =>
        outcome == AdminCompleted(CompletionStatus(data[3])) &&
        queueAdminRx == NextIndex(adminRx0, queueNum) && queueDataRx == dataRx0 && dataBlockMem[..] == block0 &&
        tag == tag0 && sent == sent0
      case IoCompletion =>
        outcome == IoCompleted(CompletionStatus(data[3])) &&
        queueDataRx == NextIndex(dataRx0, queueNum) && queueAdminRx == adminRx0 && dataBlockMem[..] == block0 &&
        tag == (tag0 + 1) % 0x100 &&
        sent == sent0 + [EncodeRequest(HostRequest(1, IoCompletionHead, 1, tag)) + [queueDataRx]]
      case BlockAt(i) =>
        q.numWords <= PayloadWords && i + q.numWords <= BlockMemWords &&
        outcome == BlockWritten && dataBlockMem[..] == Splice(block0, i, data[..q.numWords]) &&
        queueAdminRx == adminRx0 && queueDataRx == dataRx0 && tag == tag0 && sent == sent0
      case _ =>
        outcome == WriteUnknownAddress &&
        queueAdminRx == adminRx0 && queueDataRx == dataRx0 && dataBlockMem[..] == block0 &&
        tag == tag0 && sent == sent0
    }

    method HandleWrite(q: RequestHeader, data: seq<Word>) returns (outcome: Outcome)
      requires Valid() && |data| == PayloadWords
      requires WriteTarget(q.address).BlockAt? ==>
        q.numWords <= PayloadWords && WriteTarget(q.address).index + q.numWords <= BlockMemWords
      modifies this`queueAdminRx, this`queueDataRx, this`tag, this`sent, this`packetReply, dataBlockMem
      ensures Valid() && packetReply == old(packetReply)
      ensures WriteApplied(q, data, outcome, old(queueAdminRx), old(queueDataRx), old(tag), old(sent),
                           old(dataBlockMem[..]))
    {
      match WriteTarget(q.address)
      case AdminCompletion =>
        NextIndexInRing(queueAdminRx, queueNum);
        queueAdminRx := NextIndex(queueAdminRx, queueNum);
        outcome := AdminCompleted(CompletionStatus(data[3]));
      case IoCompletion =>
        NextIndexInRing(queueDataRx, queueNum);
        queueDataRx := NextIndex(queueDataRx, queueNum);
        var e := WriteNvmeReg32(IoCompletionHead, queueDataRx);
        outcome := IoCompleted(CompletionStatus(data[3]));
      case BlockAt(i) =>
        CopyInto(dataBlockMem, i, data[..q.numWords]);
        outcome := BlockWritten;
      case _ =>
        outcome := WriteUnknownAddress;
    }

    /** One pass of nvmeProcess's loop over the receive buffer rx. A reply is
        kept for the caller waiting on it; a memory read from a host memory is
        answered with its reply packets, one from elsewhere is dropped; a
        memory write is applied as WriteApplied says; any other request is
        reported and dropped. */
    method ProcessPacket(rx: seq<Word>) returns (outcome: Outcome)
      requires Valid() && |rx| == RxBufferWords && Serviceable(rx)
      modifies this`packetReply, this`queueAdminRx, this`queueDataRx, this`tag, this`sent, dataBlockMem
      ensures Valid()
      ensures IsReplyWords(rx) ==>
        outcome == ReplyStored && packetReply == DecodeReplyPacketNoCompleter(rx) && sent == old(sent) &&
        tag == old(tag) && queueAdminRx == old(queueAdminRx) && queueDataRx == old(queueDataRx) &&
        unchanged(dataBlockMem)
      ensures !IsReplyWords(rx) ==> packetReply == old(packetReply)
      ensures !IsReplyWords(rx) && DecodeRequest(rx).request == 0 ==>
        tag == old(tag) && queueAdminRx == old(queueAdminRx) && queueDataRx == old(queueDataRx) &&
        unchanged(dataBlockMem) &&
        var q := DecodeRequest(rx);
        match ReadTarget(q.address)
        case None => outcome == ReadUnknownAddress && sent == old(sent)
        case Some(m) =>
          var replies := ReadReplies(q.address, q.tag, q.numWords, 0, Memory(m)[..]);
          outcome == ReadServed(|replies|) && sent == old(sent) + replies
      ensures !IsReplyWords(rx) && DecodeRequest(rx).request == 1 ==>
        WriteApplied(DecodeRequest(rx), rx[RequestHeaderWords..RequestHeaderWords + PayloadWords], outcome,
                     old(queueAdminRx), old(queueDataRx), old(tag), old(sent), old(dataBlockMem[..]))
      ensures !IsReplyWords(rx) && DecodeRequest(rx).request > 1 ==>
        outcome == UnknownRequest && sent == old(sent) && tag == old(tag) &&
        queueAdminRx == old(queueAdminRx) && queueDataRx == old(queueDataRx) && unchanged(dataBlockMem)
    {
      if IsReplyWords(rx) {
        packetReply := DecodeReplyPacketNoCompleter(rx);
        outcome := ReplyStored;
        return;
      }
      var q := DecodeRequest(rx);
      if q.request == 0 {
        match ReadTarget(q.address)
        case None =>
          outcome := ReadUnknownAddress;
        case Some(m) =>
          var contents := Memory(m)[..];
          var count := SendReplies(q.address, q.tag, q.numWords, contents);
          outcome := ReadServed(count);
      } else if q.request == 1 {
        outcome := HandleWrite(q, rx[RequestHeaderWords..RequestHeaderWords + PayloadWords]);
      } else {
        outcome := UnknownRequest;
      }
    }
  }
}
