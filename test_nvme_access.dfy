/** The host side of the "test" program (test/NvmeAccess.cpp): it submits NVMe
    commands through the FPGA's queue engine, issues PCIe register reads and
    writes to the NVMe, and serves the NVMe's own memory reads and writes into
    the host's queue and block memories, one received packet at a time. */
module TestNvmeAccess {
  import opened Words
  import opened XilinxPackets
  import opened NvmeHost
  import opened ReadCompletions

  /** The compile-time switches of this variant. */
  const UseFpgaConfigure: bool := false
  const UseConfigEngine: bool := false
  const UseQueueEngine: bool := true
  /** The NvmeStorage block size in bytes. */
  const BlockSize: nat := 4096

  /** The host memory sizes, in 32-bit words. */
  const QueueMemWords: nat := 4096
  const BlockMemWords: nat := 8192
  /** The number of slots the constructor gives each host queue. */
  const QueueSlots: Word := 16
  /** The receive buffer: one 4096-byte read from the receive channel. */
  const RxBufferWords: nat := 1024
  /** The words of one NVMe submission queue entry. */
  const CommandWords: nat := 16

  function MemoryWords(m: HostMemory): nat
  {
    if m == BlockMem then BlockMemWords else QueueMemWords
  }

  /** The register window of each NVMe in the FPGA's NvmeStorage registers;
      NVMe number 0 also stands for both. */
  function RegbaseFor(n: Word): Word
  {
    if n == 0 then 0x100 else if n == 1 then 0x200 else 0
  }

  /** The word of the FPGA register map a storage register address selects. */
  function StorageRegIndex(regbase: Word, address: Word): nat
  {
    regbase / 4 + address / 4
  }

  /** Within one NVMe's window two addresses select the same register exactly
      when they fall in the same 32-bit word, and the windows of NVMe 0 and
      NVMe 1 (256 bytes each) do not overlap each other or the common
      registers below them. */
  lemma StorageRegisterWindows(n: Word, a: Word, b: Word)
    ensures StorageRegIndex(RegbaseFor(n), a) == StorageRegIndex(RegbaseFor(n), b) <==> a / 4 == b / 4
    ensures a < 0x100 ==> 0x40 <= StorageRegIndex(RegbaseFor(0), a) < 0x80
    ensures a < 0x100 ==> 0x80 <= StorageRegIndex(RegbaseFor(1), a) < 0xC0
    ensures a < 0x100 && n != 0 && n != 1 ==> StorageRegIndex(RegbaseFor(n), a) < 0x40
  {
  }

  /** The completer id the host puts in its replies: NVMe 1 is told apart by 0x0100. */
  function CompleterFor(nvmeNum: Word): nat
  {
    if nvmeNum == 1 then 0x100 else 0
  }

  /** The PCIe address of a request to NVMe nvmeNum: NVMe 1 is reached with bit 28 set. */
  function PcieAddress(nvmeNum: Word, address: Word): Word
  {
    if nvmeNum == 1 then Or32(address, 0x1000_0000) else address
  }

  /** Below bit 28 the OR is addition, and the bit is never set for NVMe 0. */
  lemma PcieAddressSelectsNvme(nvmeNum: Word, address: Word)
    requires address < 0x1000_0000
    ensures PcieAddress(nvmeNum, address) == if nvmeNum == 1 then address + 0x1000_0000 else address
  {
    if nvmeNum == 1 {
      Pow2Facts();
      BitOrCommutes(address, 0x1000_0000);
      BitOrDisjoint(1, address, 28);
    }
  }

  /** The header pcieWrite and pcieRead build: the host request to the address with the NVMe's bit. */
  function PcieHeader(nvmeNum: Word, request: Byte, address: Word, num: Word, tag: Byte): (h: RequestHeader)
    ensures RequestFits(h)
  {
    HostRequest(request, PcieAddress(nvmeNum, address), num, tag)
  }

  /** The 16-word submission queue entry nvmeRequest builds for command id. */
  function Command(id: Word, opcode: Word, nameSpace: Word, address: Word, arg10: Word, arg11: Word, arg12: Word): (cmd: seq<Word>)
    ensures |cmd| == CommandWords
  {
    [CommandDword0(id, opcode), nameSpace, 0, 0, 0, 0,
     address, 0, (address + 4096) % Limit32, 0, arg10, arg11, arg12, 0, 0, 0]
  }

  /** The entry in the terms of NVM Express 1.4 section 4.2: dword 0 holds the
      opcode in its low 16 bits (opcode, fused operation, PRP data transfer) and
      the command identifier 0x01nn in its high 16 bits, nn being the low byte
      of the command count; the namespace is dword 1, PRP entry 1 dword 6, PRP
      entry 2 the next 4096-byte page in dword 8, command dwords 10 to 12 the
      arguments, and all other dwords are zero. */
  lemma CommandLayout(id: Word, opcode: Word, nameSpace: Word, address: Word, arg10: Word, arg11: Word, arg12: Word)
    requires opcode < 0x1_0000
    ensures var cmd := Command(id, opcode, nameSpace, address, arg10, arg11, arg12);
      cmd[0] % 0x1_0000 == opcode && cmd[0] / 0x1_0000 == 0x100 + id % 0x100 &&
      cmd[1] == nameSpace && cmd[6] == address && cmd[8] == (address + BlockSize) % Limit32 &&
      cmd[10..13] == [arg10, arg11, arg12] &&
      cmd[2] == cmd[3] == cmd[4] == cmd[5] == cmd[7] == cmd[9] == cmd[13] == cmd[14] == cmd[15] == 0
  {
    CommandDword0Layout(id, opcode);
    assert Command(id, opcode, nameSpace, address, arg10, arg11, arg12)[10..13] == [arg10, arg11, arg12];
  }

  /** The queue-engine address nvmeRequest writes a command to. */
  function QueueEngineAddress(nvmeNum: Word, queue: Word): Word
  {
    Or32(EngineBase(nvmeNum), (queue * 0x1_0000) % Limit32)
  }

  /** The queue engine's window, with the NVMe selector bit for NVMe 1. */
  function EngineBase(nvmeNum: Word): Word
  {
    Or32(if nvmeNum == 1 then 0x1000_0000 else 0, 0x0200_0000)
  }

  lemma EngineBaseValue(nvmeNum: Word)
    ensures EngineBase(nvmeNum) == if nvmeNum == 1 then 0x1200_0000 else 0x0200_0000
  {
    if nvmeNum == 1 {
      Pow2Facts();
      BitOrDisjoint(1, 0x0200_0000, 28);
    }
  }

  /** OR-ing bit 28 into a value that has it changes nothing. */
  lemma OrBit28Again(r: nat)
    requires r < 0x1000_0000
    ensures Or32(0x1000_0000 + r, 0x1000_0000) == 0x1000_0000 + r
  {
    Pow2Facts();
    BitOrHighBitSet(r, 28);
  }

  /** For the queue numbers that fit their byte, the address is the queue
      engine's window (bit 25), the NVMe selector (bit 28) and the queue number
      in bits 16-23, and pcieWrite's own NVMe bit leaves it as it is. */
  lemma QueueEngineAddressLayout(nvmeNum: Word, queue: Word)
    requires queue < 0x100
    ensures QueueEngineAddress(nvmeNum, queue)
         == (if nvmeNum == 1 then 0x1000_0000 else 0) + 0x0200_0000 + queue * 0x1_0000
    ensures PcieAddress(nvmeNum, QueueEngineAddress(nvmeNum, queue)) == QueueEngineAddress(nvmeNum, queue)
  {
    var q := queue * 0x1_0000;
    assert (queue * 0x1_0000) % Limit32 == q;
    EngineBaseValue(nvmeNum);
    OrBelowBit24(EngineBase(nvmeNum), if nvmeNum == 1 then 0x12 else 2, q);
    if nvmeNum == 1 {
      OrBit28Again(0x0200_0000 + q);
    }
  }

  /** The host memory a memory read from the device reads, chosen by address bits 16-23. */
  function ReadTarget(address: nat): Option<HostMemory>
  {
    var window := (address / 0x1_0000) % 0x100;
    if window == 0 then Some(AdminQueueMem)
    else if window == 1 then Some(DataQueueMem)
    else if window == 0xE0 || window == 0x80 then Some(BlockMem)
    else None
  }

  /** Where a memory write from the device goes: the completion queues and the
      block memory by bits 16-23, then the 0xE and 0xF windows by bits 20-23. */
  function WriteTarget(address: nat): WriteRoute
  {
    var window := (address / 0x1_0000) % 0x100;
    if window == 0x10 then AdminCompletion
    else if window == 0x11 then IoCompletion
    else if window == 0x80 then BlockAt((address % 0x1_0000) / 4)
    else if window / 0x10 == 0xE then BlockAt((address % 0x1000) / 4)
    else if window / 0x10 == 0xF then DataHook
    else NoWriteTarget
  }

  /** The routing looks at address bits 16-23 alone: the byte offset within the
      64 KiB window and every bit above the window's byte leave it as it is. */
  lemma RoutingByWindow(high: nat, window: nat, offset: nat)
    requires window < 0x100 && offset < 0x1_0000
    ensures ReadTarget(high * 0x100_0000 + window * 0x1_0000 + offset) == ReadTarget(window * 0x1_0000)
    ensures WriteTarget(high * 0x100_0000 + window * 0x1_0000 + offset).BlockAt?
        <==> WriteTarget(window * 0x1_0000).BlockAt?
    ensures !WriteTarget(window * 0x1_0000).BlockAt? ==>
        WriteTarget(high * 0x100_0000 + window * 0x1_0000 + offset) == WriteTarget(window * 0x1_0000)
  {
    var a := high * 0x100_0000 + window * 0x1_0000 + offset;
    assert a == (high * 0x100 + window) * 0x1_0000 + offset;
    assert a / 0x1_0000 == high * 0x100 + window;
    assert (a / 0x1_0000) % 0x100 == window;
    assert (window * 0x1_0000) / 0x1_0000 == window;
  }

  /** What nvmeProcess needs of a received packet to handle it without going
      outside the host memories: a served read lies within the memory it reads,
      and a block write carries at most a packet's data and fits the block memory. */
  predicate Serviceable(rx: seq<Word>)
    requires |rx| >= RequestHeaderWords
  {
    IsReplyWords(rx) ||
    var q := DecodeRequest(rx);
    (q.request == 0 && ReadTarget(q.address).Some? ==>
       ReadInBounds(q.address, q.numWords, MemoryWords(ReadTarget(q.address).value))) &&
    (q.request == 1 && WriteTarget(q.address).BlockAt? ==>
       q.numWords <= PayloadWords && WriteTarget(q.address).index + q.numWords <= BlockMemWords)
  }

  class NvmeAccess {
    /** The FPGA design's memory-mapped registers. */
    const regs: array<Word>
    var nvmeNum: Word
    var nvmeRegbase: Word
    var tag: Byte
    const queueNum: Word
    const queueAdminMem: array<Word>
    const queueDataMem: array<Word>
    const dataBlockMem: array<Word>
    var queueAdminRx: Word
    var queueAdminTx: Word
    var queueAdminId: Word
    var queueDataRx: Word
    var queueDataTx: Word
    /** The last reply packet received, for the caller waiting on it. */
    var packetReply: ReplyPacket
    /** Every packet written to the host send channel, oldest first. */
    var sent: seq<seq<Word>>

    ghost predicate Valid()
      reads this
    {
      queueNum == QueueSlots &&
      queueAdminMem.Length == QueueMemWords && queueDataMem.Length == QueueMemWords &&
      dataBlockMem.Length == BlockMemWords &&
      queueAdminMem != queueDataMem && queueAdminMem != dataBlockMem && queueDataMem != dataBlockMem &&
      regs != queueAdminMem && regs != queueDataMem && regs != dataBlockMem &&
      queueAdminRx < queueNum && queueAdminTx < queueNum && queueDataRx < queueNum && queueDataTx < queueNum
    }

    function Memory(m: HostMemory): (a: array<Word>)
      ensures a == queueAdminMem || a == queueDataMem || a == dataBlockMem
    {
      match m
      case AdminQueueMem => queueAdminMem
      case DataQueueMem => queueDataMem
      case BlockMem => dataBlockMem
    }

    /** The host memories are members of the object and are not cleared. */
    constructor(registers: array<Word>)
      ensures Valid() && regs == registers
      ensures fresh(queueAdminMem) && fresh(queueDataMem) && fresh(dataBlockMem)
      ensures nvmeNum == 0 && nvmeRegbase == RegbaseFor(0) && tag == 0
      ensures queueAdminRx == 0 && queueAdminTx == 0 && queueAdminId == 0
      ensures queueDataRx == 0 && queueDataTx == 0
      ensures packetReply == ZeroReply() && sent == []
    {
      regs := registers;
      nvmeNum := 0;
      nvmeRegbase := 0x100;
      tag := 0;
      queueNum := QueueSlots;
      queueAdminMem := new Word[QueueMemWords];
      queueDataMem := new Word[QueueMemWords];
      dataBlockMem := new Word[BlockMemWords];
      queueAdminRx := 0;
      queueAdminTx := 0;
      queueAdminId := 0;
      queueDataRx := 0;
      queueDataTx := 0;
      packetReply := ZeroReply();
      sent := [];
    }

    method SetNvme(n: Word)
      modifies this`nvmeNum, this`nvmeRegbase
      ensures nvmeNum == n && nvmeRegbase == RegbaseFor(n)
    {
      nvmeNum := n;
      if n == 0 {
        nvmeRegbase := 0x100;
      } else if n == 1 {
        nvmeRegbase := 0x200;
      } else {
        nvmeRegbase := 0;
      }
    }

    method GetNvme() returns (n: Word)
      ensures n == nvmeNum
    {
      n := nvmeNum;
    }

    method ReadNvmeStorageReg(address: Word) returns (v: Word)
      requires StorageRegIndex(nvmeRegbase, address) < regs.Length
      ensures v == regs[StorageRegIndex(nvmeRegbase, address)]
    {
      v := regs[nvmeRegbase / 4 + address / 4];
    }

    method WriteNvmeStorageReg(address: Word, v: Word)
      requires StorageRegIndex(nvmeRegbase, address) < regs.Length
      modifies regs
      ensures regs[..] == old(regs[..])[StorageRegIndex(nvmeRegbase, address) := v]
    {
      regs[nvmeRegbase / 4 + address / 4] := v;
    }

    /** packetSend for a request: the header and, for requests that carry
        data, numWords data words go out on the send channel. */
    method PacketSendRequest(h: RequestHeader, data: seq<Word>)
      requires RequestFits(h) && |data| == PayloadWords
      requires RequestSendWords(h) <= RequestHeaderWords + PayloadWords
      modifies this`sent
      ensures sent == old(sent) + [RequestWire(h, data)]
      ensures |RequestWire(h, data)| == RequestSendWords(h)
    {
      var packet := EncodeRequest(h) + data;
      sent := sent + [packet[..RequestSendWords(h)]];
    }

    /** packetSend for a reply: the header and numWords data words. */
    method PacketSendReply(h: ReplyHeader, data: seq<Word>)
      requires ReplyFits(h) && |data| == PayloadWords && h.numWords <= PayloadWords
      modifies this`sent
      ensures sent == old(sent) + [ReplyWire(h, data)]
      ensures |ReplyWire(h, data)| == ReplySendWords(h)
    {
      var packet := EncodeReply(h) + data;
      sent := sent + [packet[..ReplySendWords(h)]];
    }

    /** A PCIe write of num words to the NVMe. A configuration write (request
        10) waits for the device's reply, which arrives as received. */
    method PcieWrite(request: Byte, address: Word, num: Word, data: seq<Word>, received: Option<ReplyPacket>)
        returns (e: int)
      requires |data| == num <= PayloadWords
      requires received.Some? <==> request == 10
      requires received.Some? ==> ReplyPacketFits(received.value)
      modifies this`tag, this`sent, this`packetReply
      ensures tag == (old(tag) + 1) % 0x100
      ensures RequestSendWords(PcieHeader(nvmeNum, request, address, num, tag)) <= RequestHeaderWords + PayloadWords
      ensures sent == old(sent) + [RequestWire(PcieHeader(nvmeNum, request, address, num, tag), data + Zeros(PayloadWords - num))]
      ensures request == 10 ==>
        var r := received.value;
        packetReply == r.(header := r.header.(numWords := (r.header.numWords + 1) % 0x800)) &&
        e == r.header.error
      ensures request != 10 ==> packetReply == old(packetReply) && e == 0
    {
      var a := address;
      if nvmeNum == 1 {
        a := Or32(address, 0x1000_0000);
      }
      tag := (tag + 1) % 0x100;
      var h := RequestHeader(a, num % 0x800, request % 0x10, HostRequesterId, tag, 0, 1);
      PacketSendRequest(h, data + Zeros(PayloadWords - num));
      e := 0;
      if request == 10 {
        var r := received.value;
        packetReply := r.(header := r.header.(numWords := (r.header.numWords + 1) % 0x800));
        e := packetReply.header.error;
      }
    }

    /** A PCIe read of num words from the NVMe; the device's reply arrives as received. */
    method PcieRead(request: Byte, address: Word, num: Word, received: ReplyPacket) returns (e: int, data: seq<Word>)
      requires num <= PayloadWords && ReplyPacketFits(received)
      modifies this`tag, this`sent, this`packetReply
      ensures tag == (old(tag) + 1) % 0x100
      ensures RequestSendWords(PcieHeader(nvmeNum, request, address, num, tag)) <= RequestHeaderWords + PayloadWords
      ensures sent == old(sent) + [RequestWire(PcieHeader(nvmeNum, request, address, num, tag), Zeros(PayloadWords))]
      ensures packetReply == received && e == received.header.error
      ensures e == 0 ==> data == received.data[..num]
      ensures e != 0 ==> data == []
    {
      var a := address;
      if nvmeNum == 1 {
        a := Or32(address, 0x1000_0000);
      }
      tag := (tag + 1) % 0x100;
      var h := RequestHeader(a, num % 0x800, request % 0x10, HostRequesterId, tag, 0, 1);
      PacketSendRequest(h, Zeros(PayloadWords));
      packetReply := received;
      e := received.header.error;
      if e != 0 {
        data := [];
      } else {
        data := received.data[..num];
      }
    }

    method ReadNvmeReg32(address: Word, received: ReplyPacket) returns (e: int, v: Word)
      requires ReplyPacketFits(received)
      modifies this`tag, this`sent, this`packetReply
      ensures tag == (old(tag) + 1) % 0x100
      ensures sent == old(sent) + [EncodeRequest(PcieHeader(nvmeNum, 0, address, 1, tag))]
      ensures packetReply == received && e == received.header.error
      ensures e == 0 ==> v == received.data[0]
    {
      var data;
      e, data := PcieRead(0, address, 1, received);
      RequestWireShape(PcieHeader(nvmeNum, 0, address, 1, tag), Zeros(PayloadWords));
      v := if e == 0 then data[0] else 0;
    }

    method WriteNvmeReg32(address: Word, v: Word) returns (e: int)
      modifies this`tag, this`sent, this`packetReply
      ensures tag == (old(tag) + 1) % 0x100
      ensures sent == old(sent) + [EncodeRequest(PcieHeader(nvmeNum, 1, address, 1, tag)) + [v]]
      ensures packetReply == old(packetReply) && e == 0
    {
      e := PcieWrite(1, address, 1, [v], None);
      RequestWireShape(PcieHeader(nvmeNum, 1, address, 1, tag), [v] + Zeros(PayloadWords - 1));
    }

    method ReadNvmeReg64(address: Word, received: ReplyPacket) returns (e: int, v: nat)
      requires ReplyPacketFits(received)
      modifies this`tag, this`sent, this`packetReply
      ensures tag == (old(tag) + 1) % 0x100
      ensures sent == old(sent) + [EncodeRequest(PcieHeader(nvmeNum, 0, address, 2, tag))]
      ensures packetReply == received && e == received.header.error
      ensures e == 0 ==> v < Limit64 && RegWords64(v) == received.data[..2]
    {
      var data;
      e, data := PcieRead(0, address, 2, received);
      RequestWireShape(PcieHeader(nvmeNum, 0, address, 2, tag), Zeros(PayloadWords));
      v := 0;
      if e == 0 {
        v := data[0] + data[1] * Limit32;
        Reg64RoundTrip(v, data[0], data[1]);
      }
    }

    method WriteNvmeReg64(address: Word, v: nat) returns (e: int)
      requires v < Limit64
      modifies this`tag, this`sent, this`packetReply
      ensures tag == (old(tag) + 1) % 0x100
      ensures sent == old(sent) + [EncodeRequest(PcieHeader(nvmeNum, 1, address, 2, tag)) + RegWords64(v)]
      ensures packetReply == old(packetReply) && e == 0
    {
      e := PcieWrite(1, address, 2, RegWords64(v), None);
      RequestWireShape(PcieHeader(nvmeNum, 1, address, 2, tag), RegWords64(v) + Zeros(PayloadWords - 2));
      assert (RegWords64(v) + Zeros(PayloadWords - 2))[..2] == RegWords64(v);
    }

    /** nvmeRequest with the queue engine: the next command id is taken and the
        command goes to the queue engine's window for the queue in one
        16-word PCIe write. */
    method NvmeRequest(queue: Word, opcode: Word, nameSpace: Word, address: Word, arg10: Word, arg11: Word, arg12: Word)
        returns (e: int)
      modifies this`queueAdminId, this`tag, this`sent, this`packetReply
      ensures queueAdminId == (old(queueAdminId) + 1) % Limit32
      ensures tag == (old(tag) + 1) % 0x100
      ensures sent == old(sent) +
        [EncodeRequest(PcieHeader(nvmeNum, 1, QueueEngineAddress(nvmeNum, queue), CommandWords, tag)) +
         Command(queueAdminId, opcode, nameSpace, address, arg10, arg11, arg12)]
      ensures packetReply == old(packetReply) && e == 0
    {
      queueAdminId := (queueAdminId + 1) % Limit32;
      var cmd := Command(queueAdminId, opcode, nameSpace, address, arg10, arg11, arg12);
      e := PcieWrite(1, QueueEngineAddress(nvmeNum, queue), 16, cmd, None);
      RequestWireShape(PcieHeader(nvmeNum, 1, QueueEngineAddress(nvmeNum, queue), CommandWords, tag),
                       cmd + Zeros(PayloadWords - 16));
      assert (cmd + Zeros(PayloadWords - 16))[..16] == cmd;
    }

    /** nvmeRequest without the queue engine: the command is copied into the
        tail slot of the admin (queue 0) or I/O queue, the tail steps round the
        ring and the new tail is written to the queue's submission doorbell. */
    method SubmitDirect(queue: Word, opcode: Word, nameSpace: Word, address: Word, arg10: Word, arg11: Word, arg12: Word)
        returns (e: int)
      requires Valid()
      modifies this`queueAdminId, this`queueAdminTx, this`queueDataTx, this`tag, this`sent, this`packetReply
      modifies queueAdminMem, queueDataMem
      ensures Valid()
      ensures queueAdminId == (old(queueAdminId) + 1) % Limit32
      ensures tag == (old(tag) + 1) % 0x100
      ensures packetReply == old(packetReply) && e == 0
      ensures queue != 0 ==>
        queueDataMem[..] == Splice(old(queueDataMem[..]), old(queueDataTx) * CommandWords,
                                   Command(queueAdminId, opcode, nameSpace, address, arg10, arg11, arg12)) &&
        unchanged(queueAdminMem) && queueAdminTx == old(queueAdminTx) &&
        queueDataTx == NextIndex(old(queueDataTx), queueNum) &&
        sent == old(sent) + [EncodeRequest(PcieHeader(nvmeNum, 1, IoSubmissionTail, 1, tag)) + [queueDataTx]]
      ensures queue == 0 ==>
        queueAdminMem[..] == Splice(old(queueAdminMem[..]), old(queueAdminTx) * CommandWords,
                                    Command(queueAdminId, opcode, nameSpace, address, arg10, arg11, arg12)) &&
        unchanged(queueDataMem) && queueDataTx == old(queueDataTx) &&
        queueAdminTx == NextIndex(old(queueAdminTx), queueNum) &&
        sent == old(sent) + [EncodeRequest(PcieHeader(nvmeNum, 1, AdminSubmissionTail, 1, tag)) + [queueAdminTx]]
    {
      queueAdminId := (queueAdminId + 1) % Limit32;
      var cmd := Command(queueAdminId, opcode, nameSpace, address, arg10, arg11, arg12);
      if queue != 0 {
        CopyInto(queueDataMem, queueDataTx * CommandWords, cmd);
        NextIndexInRing(queueDataTx, queueNum);
        queueDataTx := NextIndex(queueDataTx, queueNum);
        e := WriteNvmeReg32(IoSubmissionTail, queueDataTx);
      } else {
        CopyInto(queueAdminMem, queueAdminTx * CommandWords, cmd);
        NextIndexInRing(queueAdminTx, queueNum);
        queueAdminTx := NextIndex(queueAdminTx, queueNum);
        e := WriteNvmeReg32(AdminSubmissionTail, queueAdminTx);
      }
    }

    /** Answers a memory read of the device from mem: the words go back in
        reply packets of at most 32 words each. */
    method ServeRead(q: RequestHeader, mem: array<Word>) returns (count: nat)
      requires RequestFits(q) && ReadInBounds(q.address, q.numWords, mem.Length)
      modifies this`sent
      ensures sent == old(sent) + ReadReplies(q.address, q.tag, q.numWords, CompleterFor(nvmeNum), mem[..])
      ensures count == |ReadReplies(q.address, q.tag, q.numWords, CompleterFor(nvmeNum), mem[..])|
    {
      var contents := mem[..];
      count := SendReplies(q.address, q.tag, q.numWords, CompleterFor(nvmeNum), contents);
    }

    /** The loop of the read: one reply per chunk, the address advancing past
        each chunk, until no words remain. */
    method SendReplies(address0: nat, tag: nat, rem0: nat, c: nat, contents: seq<Word>) returns (count: nat)
      requires address0 < Limit64 && tag < 0x100 && rem0 < 0x800 && c < 0x1_0000
      requires ReadInBounds(address0, rem0, |contents|)
      modifies this`sent
      ensures sent == old(sent) + ReadReplies(address0, tag, rem0, c, contents)
      ensures count == |ReadReplies(address0, tag, rem0, c, contents)|
    {
      ghost var total := old(sent) + ReadReplies(address0, tag, rem0, c, contents);
      var address: nat, rem: nat := address0, rem0;
      count := 0;
      while rem > 0
        invariant address < Limit64 && rem < 0x800 && ReadInBounds(address, rem, |contents|)
        invariant sent + ReadReplies(address, tag, rem, c, contents) == total
        invariant |sent| == |old(sent)| + count
        decreases rem
      {
        var n := ChunkSize(rem);
        var idx := WordIndex(address);
        ReadRepliesAfterSend(sent, total, address, tag, rem, c, contents);
        var h := ChunkHeader(address, tag, rem, c);
        var words := contents[idx..idx + n];
        ChunkWire(h, words);
        PacketSendReply(h, words + Zeros(PayloadWords - n));
        rem := rem - n;
        address := address + 4 * n;
        count := count + 1;
      }
      assert ReadReplies(address, tag, rem, c, contents) == [];
    }

    /** The effect of a memory write from the device, by where it goes. */
    ghost predicate WriteApplied(q: RequestHeader, data: seq<Word>, outcome: Outcome,
                                 adminRx0: Word, dataRx0: Word, block0: seq<Word>)
      requires |data| == PayloadWords && |block0| == BlockMemWords && dataBlockMem.Length == BlockMemWords
      reads this, dataBlockMem
    {
      match WriteTarget(q.address)
      case AdminCompletion =>
        outcome == AdminCompleted(CompletionStatus(data[3])) &&
        queueAdminRx == NextIndex(adminRx0, queueNum) && queueDataRx == dataRx0 && dataBlockMem[..] == block0
      case IoCompletion =>
        outcome == IoCompleted(CompletionStatus(data[3])) &&
        queueDataRx == NextIndex(dataRx0, queueNum) && queueAdminRx == adminRx0 && dataBlockMem[..] == block0
      case BlockAt(i) =>
        q.numWords <= PayloadWords && i + q.numWords <= BlockMemWords &&
        outcome == BlockWritten && dataBlockMem[..] == Splice(block0, i, data[..q.numWords]) &&
        queueAdminRx == adminRx0 && queueDataRx == dataRx0
      case DataHook =>
        outcome == DataPacketPassed &&
        queueAdminRx == adminRx0 && queueDataRx == dataRx0 && dataBlockMem[..] == block0
      case NoWriteTarget =>
        outcome == WriteUnknownAddress &&
        queueAdminRx == adminRx0 && queueDataRx == dataRx0 && dataBlockMem[..] == block0
    }

    method HandleWrite(q: RequestHeader, data: seq<Word>) returns (outcome: Outcome)
      requires Valid() && |data| == PayloadWords
      requires WriteTarget(q.address).BlockAt? ==>
        q.numWords <= PayloadWords && WriteTarget(q.address).index + q.numWords <= BlockMemWords
      modifies this`queueAdminRx, this`queueDataRx, dataBlockMem
      ensures Valid()
      ensures WriteApplied(q, data, outcome, old(queueAdminRx), old(queueDataRx), old(dataBlockMem[..]))
    {
      match WriteTarget(q.address)
      case AdminCompletion =>
        NextIndexInRing(queueAdminRx, queueNum);
        queueAdminRx := NextIndex(queueAdminRx, queueNum);
        outcome := AdminCompleted(CompletionStatus(data[3]));
      case IoCompletion =>
        NextIndexInRing(queueDataRx, queueNum);
        queueDataRx := NextIndex(queueDataRx, queueNum);
        outcome := IoCompleted(CompletionStatus(data[3]));
      case BlockAt(i) =>
        CopyInto(dataBlockMem, i, data[..q.numWords]);
        outcome := BlockWritten;
      case DataHook =>
        outcome := DataPacketPassed;
      case NoWriteTarget =>
        outcome := WriteUnknownAddress;
    }

    /** One pass of nvmeProcess's loop over the receive buffer rx. A reply is
        kept for the caller waiting on it; a memory read from a host memory is
        answered with its reply packets, one from elsewhere is dropped; a
        memory write is applied as WriteApplied says; any other request is
        reported and dropped. */
    method ProcessPacket(rx: seq<Word>) returns (outcome: Outcome)
      requires Valid() && |rx| == RxBufferWords && Serviceable(rx)
      modifies this`packetReply, this`queueAdminRx, this`queueDataRx, this`sent, dataBlockMem
      ensures Valid()
      ensures IsReplyWords(rx) ==>
        outcome == ReplyStored && packetReply == DecodeReplyPacket(rx) && sent == old(sent) &&
        queueAdminRx == old(queueAdminRx) && queueDataRx == old(queueDataRx) && unchanged(dataBlockMem)
      ensures !IsReplyWords(rx) ==> packetReply == old(packetReply)
      ensures !IsReplyWords(rx) && DecodeRequest(rx).request == 0 ==>
        queueAdminRx == old(queueAdminRx) && queueDataRx == old(queueDataRx) && unchanged(dataBlockMem) &&
        var q := DecodeRequest(rx);
        match ReadTarget(q.address)
        case None => outcome == ReadUnknownAddress && sent == old(sent)
        case Some(m) =>
          var replies := ReadReplies(q.address, q.tag, q.numWords, CompleterFor(nvmeNum), Memory(m)[..]);
          outcome == ReadServed(|replies|) && sent == old(sent) + replies
      ensures !IsReplyWords(rx) && DecodeRequest(rx).request == 1 ==>
        sent == old(sent) &&
        WriteApplied(DecodeRequest(rx), rx[RequestHeaderWords..RequestHeaderWords + PayloadWords], outcome,
                     old(queueAdminRx), old(queueDataRx), old(dataBlockMem[..]))
      ensures !IsReplyWords(rx) && DecodeRequest(rx).request > 1 ==>
        outcome == UnknownRequest && sent == old(sent) &&
        queueAdminRx == old(queueAdminRx) && queueDataRx == old(queueDataRx) && unchanged(dataBlockMem)
    {
      if IsReplyWords(rx) {
        packetReply := DecodeReplyPacket(rx);
        outcome := ReplyStored;
        return;
      }
      var q := DecodeRequest(rx);
      if q.request == 0 {
        match ReadTarget(q.address)
        case None =>
          outcome := ReadUnknownAddress;
        case Some(m) =>
          var count := ServeRead(q, Memory(m));
          outcome := ReadServed(count);
      } else if q.request == 1 {
        outcome := HandleWrite(q, rx[RequestHeaderWords..RequestHeaderWords + PayloadWords]);
      } else {
        outcome := UnknownRequest;
      }
    }
  }

  /** A 64-bit register value as the two words it occupies in memory, low word first. */
  function RegWords64(v: nat): (w: seq<Word>)
    requires v < Limit64
    ensures |w| == 2
  {
    [v % Limit32, v / Limit32]
  }

  /** The two words of a 64-bit register value and the value determine each other. */
  lemma Reg64RoundTrip(v: nat, lo: Word, hi: Word)
    ensures v == lo + hi * Limit32 <==> (v < Limit64 && RegWords64(v) == [lo, hi])
  {
    if v == lo + hi * Limit32 {
      assert v < Limit64;
    }
  }
}
