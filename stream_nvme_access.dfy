/** The host side of the DuneNvmeTest program
    (source/DuneNvmeTest/test/NvmeAccess.cpp). Packets carry a stream
    number in their first word. Commands are built in place in the host's
    submission queues and announced through the doorbells. The host memories
    are found by the top four bits of the device's addresses. */
module DuneNvmeTestAccess {
  import opened Words
  import opened XilinxPackets
  import opened StreamPackets
  import opened NvmeHost

  /** The host memory sizes, in 32-bit words. */
  const QueueMemWords: nat := 4096
  const BlockMemWords: nat := 4096
  /** The number of slots the constructor gives each host queue. */
  const QueueSlots: Word := 64
  /** The receive buffer: one 4096-byte read from the receive channel. */
  const RxBufferWords: nat := 1024
  /** The words of one NVMe submission queue entry. */
  const CommandWords: nat := 16
  /** The stream numbers of received packets. */
  const ReplyStream: Word := 1
  const RequestStream: Word := 2

  function MemoryWords(m: HostMemory): nat
  {
    if m == BlockMem then BlockMemWords else QueueMemWords
  }

  /** The 16-word entry nvmeRequest leaves in the queue slot for command count
      id: the count shifted to bit 16 (in 32 bits) OR-ed with the opcode,
      namespace 1 for an I/O queue, PRP entry 1 and the three arguments. */
  function Command(id: Word, queue: Word, opcode: Word, address: Word, arg10: Word, arg11: Word, arg12: Word): (cmd: seq<Word>)
    ensures |cmd| == CommandWords
  {
    [Or32((id * 0x1_0000) % Limit32, opcode), if queue != 0 then 1 else 0, 0, 0, 0, 0,
     address, 0, 0, 0, arg10, arg11, arg12, 0, 0, 0]
  }

  /** The entry in the terms of NVM Express 1.4 section 4.2: the opcode is the
      low 16 bits of dword 0 and the command identifier its high 16 bits, the
      low 16 bits of the count (there is no stream prefix in this variant);
      the namespace is 1 exactly for an I/O queue; PRP entry 1 is dword 6,
      command dwords 10 to 12 are the arguments and all other dwords are zero. */
  lemma CommandLayout(id: Word, queue: Word, opcode: Word, address: Word, arg10: Word, arg11: Word, arg12: Word)
    requires opcode < 0x1_0000
    ensures var cmd := Command(id, queue, opcode, address, arg10, arg11, arg12);
      cmd[0] % 0x1_0000 == opcode && cmd[0] / 0x1_0000 == id % 0x1_0000 &&
      (cmd[1] == 1 <==> queue != 0) && (cmd[1] == 0 <==> queue == 0) &&
      cmd[6] == address && cmd[10..13] == [arg10, arg11, arg12] &&
      cmd[2] == cmd[3] == cmd[4] == cmd[5] == cmd[7] == cmd[8] == cmd[9] == cmd[13] == cmd[14] == cmd[15] == 0
  {
    var high := id % 0x1_0000;
    DivModOf(id / 0x1_0000, high * 0x1_0000, Limit32);
    assert id * 0x1_0000 == (id / 0x1_0000) * Limit32 + high * 0x1_0000;
    OrBelowBit16(high, opcode);
    assert Command(id, queue, opcode, address, arg10, arg11, arg12)[10..13] == [arg10, arg11, arg12];
  }

  /** The words of the entry, one by one. */
  lemma CommandWordsAre(id: Word, queue: Word, opcode: Word, address: Word, arg10: Word, arg11: Word, arg12: Word)
    ensures var cmd := Command(id, queue, opcode, address, arg10, arg11, arg12);
      cmd[0] == Or32((id * 0x1_0000) % Limit32, opcode) && cmd[1] == (if queue != 0 then 1 else 0) &&
      cmd[6] == address && cmd[10] == arg10 && cmd[11] == arg11 && cmd[12] == arg12 &&
      cmd[2] == cmd[3] == cmd[4] == cmd[5] == cmd[7] == cmd[8] == cmd[9] == cmd[13] == cmd[14] == cmd[15] == 0
  {
  }

  /** Storing an entry's words 0, 1, 6 and 10 to 12 into a zeroed slot
      leaves the entry there when its other words are zero. */
  lemma FillSlot(s: seq<Word>, at: nat, cmd: seq<Word>)
    requires at + CommandWords <= |s| && |cmd| == CommandWords
    requires cmd[2] == cmd[3] == cmd[4] == cmd[5] == cmd[7] == cmd[8] == cmd[9] == cmd[13] == cmd[14] == cmd[15] == 0
    ensures Splice(s, at, Zeros(CommandWords))[at := cmd[0]][at + 1 := cmd[1]][at + 6 := cmd[6]]
        [at + 10 := cmd[10]][at + 11 := cmd[11]][at + 12 := cmd[12]] == Splice(s, at, cmd)
  {
    var z := Splice(s, at, Zeros(CommandWords));
    var u := z[at := cmd[0]][at + 1 := cmd[1]][at + 6 := cmd[6]][at + 10 := cmd[10]][at + 11 := cmd[11]][at + 12 := cmd[12]];
    forall j | 0 <= j < |s|
      ensures u[j] == Splice(s, at, cmd)[j]
    {
      if at <= j < at + CommandWords {
        assert z[at + (j - at)] == 0;
      }
    }
  }

  /** The top four bits of the low address word, which choose the host memory. */
  function Region(address: nat): nat
  {
    (address / 0x1000_0000) % 0x10
  }

  /** The word of a host memory an address selects: its low 28 bits over 4. */
  function Offset(address: nat): nat
  {
    (address % 0x1000_0000) / 4
  }

  function ReadTarget(address: nat): Option<HostMemory>
  {
    var r := Region(address);
    if r == 0x1 then Some(AdminQueueMem)
    else if r == 0x3 then Some(DataQueueMem)
    else if r == 0x8 then Some(BlockMem)
    else None
  }

  function WriteTarget(address: nat): WriteRoute
  {
    var r := Region(address);
    if r == 0x2 then AdminCompletion
    else if r == 0x4 then IoCompletion
    else if r == 0x8 || r == 0xF then BlockAt(Offset(address))
    else NoWriteTarget
  }

  /** The routing is decided by bits 28-31 alone, and every memory access
      starts at the word the low 28 bits select. */
  lemma RoutingByRegion(high: nat, region: nat, low: nat)
    requires region < 0x10 && low < 0x1000_0000
    ensures Region(high * Limit32 + region * 0x1000_0000 + low) == region
    ensures Offset(high * Limit32 + region * 0x1000_0000 + low) == low / 4
    ensures ReadTarget(high * Limit32 + region * 0x1000_0000 + low) == ReadTarget(region * 0x1000_0000)
    ensures WriteTarget(high * Limit32 + region * 0x1000_0000 + low)
         == if WriteTarget(region * 0x1000_0000).BlockAt? then BlockAt(low / 4) else WriteTarget(region * 0x1000_0000)
  {
    var a := high * Limit32 + region * 0x1000_0000 + low;
    assert a == (high * 0x10 + region) * 0x1000_0000 + low;
    DivModOf(high * 0x10 + region, low, 0x1000_0000);
    DivModOf(high, region, 0x10);
    DivModOf(region, 0, 0x1000_0000);
    DivModOf(0, region, 0x10);
  }

  /** The header of a reply when rem words remain: read-reply stream, byte
      count of what remains, at most 32 words, the request's tag; the address,
      error and status fields are left zero. */
  function ChunkHeader(tag: nat, rem: nat): (h: StreamReply)
    requires tag < 0x100 && 0 < rem < 0x800
    ensures StreamReplyFits(h)
  {
    StreamReply(ReadReplyStream, 0, 0, rem * 4, ChunkSize(rem), 0, tag)
  }

  function ChunkSize(rem: nat): nat
  {
    if rem > MaxPayloadWords then MaxPayloadWords else rem
  }

  function ChunkReply(tag: nat, rem: nat, words: seq<Word>): (w: seq<Word>)
    requires tag < 0x100 && 0 < rem < 0x800
    ensures |w| == StreamReplyHeaderWords + |words| && w[StreamReplyHeaderWords..] == words
  {
    EncodeStreamReply(ChunkHeader(tag, rem)) + words
  }

  /** The replies to a read of rem words at word offset off of mem. The
      address is not advanced between chunks, so every chunk copies from off. */
  function ReadReplies(tag: nat, rem: nat, off: nat, mem: seq<Word>): seq<seq<Word>>
    requires tag < 0x100 && rem < 0x800 && off + ChunkSize(rem) <= |mem|
    decreases rem
  {
    if rem == 0 then [] else
      var n := ChunkSize(rem);
      [ChunkReply(tag, rem, mem[off..off + n])] + ReadReplies(tag, rem - n, off, mem)
  }

  /** Reply r is the one sent when rem words remain, carrying the n words from off. */
  predicate RepeatsStart(r: seq<Word>, tag: nat, rem: int, n: nat, off: nat, mem: seq<Word>)
  {
    tag < 0x100 && 0 < rem < 0x800 && n == ChunkSize(rem) && off + n <= |mem| &&
    r == ChunkReply(tag, rem, mem[off..off + n])
  }

  /** There is one reply per chunk of the read; reply i says rem - 32 * i
      words remain, carries the chunk's size of words, and those are always
      the words from off on, whatever i is. */
  lemma {:induction false} RepliesRepeatStart(tag: nat, rem: nat, off: nat, mem: seq<Word>)
    requires tag < 0x100 && rem < 0x800 && off + ChunkSize(rem) <= |mem|
    ensures |ReadReplies(tag, rem, off, mem)| == |Chunks(rem)|
    ensures forall i :: 0 <= i < |ReadReplies(tag, rem, off, mem)| ==>
      RepeatsStart(ReadReplies(tag, rem, off, mem)[i], tag, rem - MaxPayloadWords * i, Chunks(rem)[i], off, mem)
    decreases rem
  {
    if rem > 0 {
      var n := ChunkSize(rem);
      var R := ReadReplies(tag, rem, off, mem);
      var rest := ReadReplies(tag, rem - n, off, mem);
      RepliesRepeatStart(tag, rem - n, off, mem);
      RepliesStep(tag, rem, off, mem);
      assert Chunks(rem) == [n] + Chunks(rem - n);
      assert R[1..] == rest && Chunks(rem)[1..] == Chunks(rem - n);
      assert RepeatsStart(R[0], tag, rem - MaxPayloadWords * 0, Chunks(rem)[0], off, mem);
      if rest != [] {
        RepeatShift(R, rest, Chunks(rem), Chunks(rem - n), tag, rem, off, mem);
      }
    }
  }

  lemma RepliesStep(tag: nat, rem: nat, off: nat, mem: seq<Word>)
    requires tag < 0x100 && 0 < rem < 0x800 && off + ChunkSize(rem) <= |mem|
    ensures var R := ReadReplies(tag, rem, off, mem);
      R == [ChunkReply(tag, rem, mem[off..off + ChunkSize(rem)])] + ReadReplies(tag, rem - ChunkSize(rem), off, mem) &&
      RepeatsStart(R[0], tag, rem, ChunkSize(rem), off, mem)
  {
  }

  lemma RepeatShift(R: seq<seq<Word>>, rest: seq<seq<Word>>, C: seq<nat>, D: seq<nat>,
                    tag: nat, rem: nat, off: nat, mem: seq<Word>)
    requires |R| == |rest| + 1 && R[1..] == rest && |C| == |D| + 1 && C[1..] == D && |rest| == |D|
    requires forall j :: 0 <= j < |rest| ==>
      RepeatsStart(rest[j], tag, rem - MaxPayloadWords - MaxPayloadWords * j, D[j], off, mem)
    ensures forall i :: 1 <= i < |R| ==> RepeatsStart(R[i], tag, rem - MaxPayloadWords * i, C[i], off, mem)
  {
    forall i | 1 <= i < |R|
      ensures RepeatsStart(R[i], tag, rem - MaxPayloadWords * i, C[i], off, mem)
    {
      var j := i - 1;
      assert R[i] == rest[j] && C[i] == D[j];
      assert rem - MaxPayloadWords - MaxPayloadWords * j == rem - MaxPayloadWords * i;
    }
  }

  /** Each reply is read back as the chunk header it was sent with, followed by the chunk's words. */
  lemma ChunkReplyDecodes(tag: nat, rem: nat, words: seq<Word>)
    requires tag < 0x100 && 0 < rem < 0x800
    ensures DecodeStreamReply(ChunkReply(tag, rem, words)) == ChunkHeader(tag, rem)
    ensures DecodeStreamReply(ChunkReply(tag, rem, words)).stream == ReadReplyStream
    ensures DecodeStreamReply(ChunkReply(tag, rem, words)).numBytes == 4 * rem
  {
    var h := ChunkHeader(tag, rem);
    StreamReplyRoundTrip(h);
    var w := ChunkReply(tag, rem, words);
    assert w[..StreamReplyHeaderWords] == EncodeStreamReply(h);
    assert w[0] == EncodeStreamReply(h)[0] && w[4] == EncodeStreamReply(h)[4];
    assert w[5] == EncodeStreamReply(h)[5] && w[6] == EncodeStreamReply(h)[6];
  }

  /** The reply packetSend writes for a chunk: the header and numWords of the
      32 data words of the reply structure. */
  lemma ChunkWire(h: StreamReply, words: seq<Word>)
    requires StreamReplyFits(h) && |words| == h.numWords <= PayloadWords
    ensures StreamReplyWire(h, words + Zeros(PayloadWords - h.numWords)) == EncodeStreamReply(h) + words
  {
    assert EncodeStreamReply(h) + (words + Zeros(PayloadWords - h.numWords))
        == (EncodeStreamReply(h) + words) + Zeros(PayloadWords - h.numWords);
  }

  /** What nvmeProcess needs of a received request to handle it without going
      outside the host memories: the first chunk of a served read lies within
      the memory it reads, and a block write carries at most a packet's data
      and fits the block memory. */
  predicate Serviceable(rx: seq<Word>)
    requires |rx| >= StreamRequestHeaderWords
  {
    rx[0] != RequestStream ||
    var q := DecodeStreamRequest(rx);
    (q.request == 0 && ReadTarget(q.address).Some? ==>
       Offset(q.address) + ChunkSize(q.numWords) <= MemoryWords(ReadTarget(q.address).value)) &&
    (q.request == 1 && WriteTarget(q.address).BlockAt? ==>
       q.numWords <= PayloadWords && Offset(q.address) + q.numWords <= BlockMemWords)
  }

  class NvmeAccess {
    /** The FPGA design's memory-mapped registers. */
    const regs: array<Word>
    var tag: Byte
    const queueNum: Word
    const queueAdminMem: array<Word>
    const queueDataMem: array<Word>
    const dataBlockMem: array<Word>
    var queueAdminRx: Word
    var queueAdminTx: Word
    var queueAdminId: Word
    var queueDataRx: Word
    var queueDataTx: Word
    /** The last reply packet received, for the caller waiting on it. */
    var packetReply: StreamReplyPacket
    /** Every packet written to the host send channel, oldest first. */
    var sent: seq<seq<Word>>

    ghost predicate Valid()
      reads this
    {
      queueNum == QueueSlots && regs.Length >= 2 &&
      queueAdminMem.Length == QueueMemWords && queueDataMem.Length == QueueMemWords &&
      dataBlockMem.Length == BlockMemWords &&
      queueAdminMem != queueDataMem && queueAdminMem != dataBlockMem && queueDataMem != dataBlockMem &&
      queueAdminRx < queueNum && queueAdminTx < queueNum && queueDataRx < queueNum && queueDataTx < queueNum
    }

    function Memory(m: HostMemory): (a: array<Word>)
      ensures a == queueAdminMem || a == queueDataMem || a == dataBlockMem
    {
      match m
      case AdminQueueMem => queueAdminMem
      case DataQueueMem => queueDataMem
      case BlockMem => dataBlockMem
    }

    /** The host memories are members of the object and are not cleared. */
    constructor(registers: array<Word>)
      requires registers.Length >= 2
      ensures Valid() && regs == registers
      ensures fresh(queueAdminMem) && fresh(queueDataMem) && fresh(dataBlockMem)
      ensures tag == 0
      ensures queueAdminRx == 0 && queueAdminTx == 0 && queueAdminId == 0
      ensures queueDataRx == 0 && queueDataTx == 0
      ensures packetReply == ZeroStreamReply() && sent == []
    {
      regs := registers;
      tag := 0;
      queueNum := QueueSlots;
      queueAdminMem := new Word[QueueMemWords];
      queueDataMem := new Word[QueueMemWords];
      dataBlockMem := new Word[BlockMemWords];
      queueAdminRx := 0;
      queueAdminTx := 0;
      queueAdminId := 0;
      queueDataRx := 0;
      queueDataTx := 0;
      packetReply := ZeroStreamReply();
      sent := [];
    }

    /** packetSend for a request: the header and, for a write, numWords data words. */
    method PacketSendRequest(h: StreamRequest, data: seq<Word>)
      requires StreamRequestFits(h) && |data| == PayloadWords
      requires StreamRequestSendWords(h) <= StreamRequestHeaderWords + PayloadWords
      modifies this`sent
      ensures sent == old(sent) + [StreamRequestWire(h, data)]
      ensures |StreamRequestWire(h, data)| == StreamRequestSendWords(h)
    {
      var packet := EncodeStreamRequest(h) + data;
      sent := sent + [packet[..StreamRequestSendWords(h)]];
    }

    /** packetSend for a reply: the header and numWords data words. */
    method PacketSendReply(h: StreamReply, data: seq<Word>)
      requires StreamReplyFits(h) && |data| == PayloadWords && h.numWords <= PayloadWords
      modifies this`sent
      ensures sent == old(sent) + [StreamReplyWire(h, data)]
      ensures |StreamReplyWire(h, data)| == StreamReplySendWords(h)
    {
      var packet := EncodeStreamReply(h) + data;
      sent := sent + [packet[..StreamReplySendWords(h)]];
    }

    /** readRegister: a configuration or memory read of num words. Register 1
        of the FPGA is told whether more than one word is read, and the
        device's reply arrives as received. */
    method ReadRegister(config: bool, address: Word, num: Word, received: StreamReplyPacket)
        returns (e: int, data: seq<Word>)
      requires regs.Length >= 2 && num <= PayloadWords && StreamReplyPacketFits(received)
      modifies regs, this`tag, this`sent, this`packetReply
      ensures regs[..] == old(regs[..])[1 := if num > 1 then 0x8000_0000 else 0]
      ensures tag == (old(tag) + 1) % 0x100
      ensures sent == old(sent) +
        [EncodeStreamRequest(HostStreamRequest(RequestCode(config, false), address, num, tag))]
      ensures packetReply == received && e == received.header.error
      ensures e == 0 ==> data == received.data[..num]
      ensures e != 0 ==> data == []
    {
      var request: Byte := if config then 8 else 0;
      regs[1] := if num > 1 then 0x8000_0000 else 0;
      tag := (tag + 1) % 0x100;
      var h := HostStreamRequest(request, address, num, tag);
      PacketSendRequest(h, Zeros(PayloadWords));
      StreamRequestWireShape(h, Zeros(PayloadWords));
      packetReply := received;
      e := received.header.error;
      if e != 0 {
        data := [];
      } else {
        data := received.data[..num];
      }
    }

    /** writeRegister: a configuration or memory write of num words. A
        configuration write waits for the device's reply, which arrives as received. */
    method WriteRegister(config: bool, address: Word, num: Word, data: seq<Word>, received: Option<StreamReplyPacket>)
        returns (e: int)
      requires |data| == num <= PayloadWords
      requires received.Some? <==> config
      requires received.Some? ==> StreamReplyPacketFits(received.value)
      modifies this`tag, this`sent, this`packetReply
      ensures tag == (old(tag) + 1) % 0x100
      ensures sent == old(sent) +
        [EncodeStreamRequest(HostStreamRequest(RequestCode(config, true), address, num, tag)) + data]
      ensures config ==>
        var r := received.value;
        packetReply == r.(header := r.header.(numWords := (r.header.numWords + 1) % 0x800)) &&
        e == r.header.error
      ensures !config ==> packetReply == old(packetReply) && e == 0
    {
      var request: Byte := if config then 10 else 1;
      tag := (tag + 1) % 0x100;
      var h := HostStreamRequest(request, address, num, tag);
      var padded := data + Zeros(PayloadWords - num);
      PacketSendRequest(h, padded);
      StreamRequestWireShape(h, padded);
      assert padded[..num] == data;
      e := 0;
      if config {
        var r := received.value;
        packetReply := r.(header := r.header.(numWords := (r.header.numWords + 1) % 0x800));
        e := packetReply.header.error;
      }
    }

    method ReadNvmeReg32(address: Word, received: StreamReplyPacket) returns (e: int, v: Word)
      requires regs.Length >= 2 && StreamReplyPacketFits(received)
      modifies regs, this`tag, this`sent, this`packetReply
      ensures regs[..] == old(regs[..])[1 := 0]
      ensures tag == (old(tag) + 1) % 0x100
      ensures sent == old(sent) + [EncodeStreamRequest(HostStreamRequest(0, address, 1, tag))]
      ensures packetReply == received && e == received.header.error
      ensures e == 0 ==> v == received.data[0]
    {
      var data;
      e, data := ReadRegister(false, address, 1, received);
      v := if e == 0 then data[0] else 0;
    }

    method WriteNvmeReg32(address: Word, v: Word) returns (e: int)
      modifies this`tag, this`sent, this`packetReply
      ensures tag == (old(tag) + 1) % 0x100
      ensures sent == old(sent) + [EncodeStreamRequest(HostStreamRequest(1, address, 1, tag)) + [v]]
      ensures packetReply == old(packetReply) && e == 0
    {
      e := WriteRegister(false, address, 1, [v], None);
    }

    method ReadNvmeReg64(address: Word, received: StreamReplyPacket) returns (e: int, lo: Word, hi: Word)
      requires regs.Length >= 2 && StreamReplyPacketFits(received)
      modifies regs, this`tag, this`sent, this`packetReply
      ensures regs[..] == old(regs[..])[1 := 0x8000_0000]
      ensures tag == (old(tag) + 1) % 0x100
      ensures sent == old(sent) + [EncodeStreamRequest(HostStreamRequest(0, address, 2, tag))]
      ensures packetReply == received && e == received.header.error
      ensures e == 0 ==> [lo, hi] == received.data[..2]
    {
      var data;
      e, data := ReadRegister(false, address, 2, received);
      lo, hi := 0, 0;
      if e == 0 {
        lo, hi := data[0], data[1];
      }
    }

    method WriteNvmeReg64(address: Word, lo: Word, hi: Word) returns (e: int)
      modifies this`tag, this`sent, this`packetReply
      ensures tag == (old(tag) + 1) % 0x100
      ensures sent == old(sent) + [EncodeStreamRequest(HostStreamRequest(1, address, 2, tag)) + [lo, hi]]
      ensures packetReply == old(packetReply) && e == 0
    {
      e := WriteRegister(false, address, 2, [lo, hi], None);
    }

    /** Builds the command in the 16 words of mem from at: the slot is zeroed
        and the command's nonzero words are stored into it one by one. */
    method BuildCommand(mem: array<Word>, at: nat, id: Word, queue: Word, opcode: Word, address: Word,
                        arg10: Word, arg11: Word, arg12: Word)
      requires at + CommandWords <= mem.Length
      modifies mem
      ensures mem[..] == Splice(old(mem[..]), at, Command(id, queue, opcode, address, arg10, arg11, arg12))
    {
      CopyInto(mem, at, Zeros(CommandWords));
      var dword0 := Or32((id * 0x1_0000) % Limit32, opcode);
      var namespace: Word := if queue != 0 then 1 else 0;
      Store(mem, at, dword0);
      Store(mem, at + 1, namespace);
      Store(mem, at + 6, address);
      Store(mem, at + 10, arg10);
      Store(mem, at + 11, arg11);
      Store(mem, at + 12, arg12);
      CommandWordsAre(id, queue, opcode, address, arg10, arg11, arg12);
      FillSlot(old(mem[..]), at, Command(id, queue, opcode, address, arg10, arg11, arg12));
    }

    /** One word store into mem. */
    static method Store(mem: array<Word>, i: nat, v: Word)
      requires i < mem.Length
      modifies mem
      ensures mem[..] == old(mem[..])[i := v]
    {
      mem[i] := v;
    }

    /** nvmeRequest: the next command id is taken, the command is built in
        the tail slot of the admin (queue 0) or I/O queue, the tail steps
        round the ring and the new tail is written to the queue's submission doorbell. */
    method NvmeRequest(queue: Word, opcode: Word, address: Word, arg10: Word, arg11: Word, arg12: Word)
        returns (e: int)
      requires Valid()
      modifies this`queueAdminId, this`queueAdminTx, this`queueDataTx, this`tag, this`sent, this`packetReply
      modifies queueAdminMem, queueDataMem
      ensures Valid()
      ensures queueAdminId == (old(queueAdminId) + 1) % Limit32
      ensures tag == (old(tag) + 1) % 0x100
      ensures packetReply == old(packetReply) && e == 0
      ensures queue != 0 ==>
        queueDataMem[..] == Splice(old(queueDataMem[..]), old(queueDataTx) * CommandWords,
                                   Command(queueAdminId, queue, opcode, address, arg10, arg11, arg12)) &&
        unchanged(queueAdminMem) && queueAdminTx == old(queueAdminTx) &&
        queueDataTx == NextIndex(old(queueDataTx), queueNum) &&
        sent == old(sent) + [EncodeStreamRequest(HostStreamRequest(1, IoSubmissionTail, 1, tag)) + [queueDataTx]]
      ensures queue == 0 ==>
        queueAdminMem[..] == Splice(old(queueAdminMem[..]), old(queueAdminTx) * CommandWords,
                                    Command(queueAdminId, queue, opcode, address, arg10, arg11, arg12)) &&
        unchanged(queueDataMem) && queueDataTx == old(queueDataTx) &&
        queueAdminTx == NextIndex(old(queueAdminTx), queueNum) &&
        sent == old(sent) + [EncodeStreamRequest(HostStreamRequest(1, AdminSubmissionTail, 1, tag)) + [queueAdminTx]]
    {
      queueAdminId := (queueAdminId + 1) % Limit32;
      if queue != 0 {
        BuildCommand(queueDataMem, queueDataTx * CommandWords, queueAdminId, queue, opcode, address, arg10, arg11, arg12);
        NextIndexInRing(queueDataTx, queueNum);
        queueDataTx := NextIndex(queueDataTx, queueNum);
        e := WriteNvmeReg32(IoSubmissionTail, queueDataTx);
      } else {
        BuildCommand(queueAdminMem, queueAdminTx * CommandWords, queueAdminId, queue, opcode, address, arg10, arg11, arg12);
        NextIndexInRing(queueAdminTx, queueNum);
        queueAdminTx := NextIndex(queueAdminTx, queueNum);
        e := WriteNvmeReg32(AdminSubmissionTail, queueAdminTx);
      }
    }

    /** The chunking loop of a memory read: one reply per chunk of at most 32
        words, each copied from word off, until no words remain. */
    method SendReplies(tag: nat, rem0: nat, off: nat, contents: seq<Word>) returns (count: nat)
      requires tag < 0x100 && rem0 < 0x800 && off + ChunkSize(rem0) <= |contents|
      modifies this`sent
      ensures sent == old(sent) + ReadReplies(tag, rem0, off, contents)
      ensures count == |ReadReplies(tag, rem0, off, contents)|
    {
      ghost var total := old(sent) + ReadReplies(tag, rem0, off, contents);
      var rem: nat := rem0;
      count := 0;
      while rem > 0
        invariant rem < 0x800 && off + ChunkSize(rem) <= |contents|
        invariant sent + ReadReplies(tag, rem, off, contents) == total
        invariant |sent| == |old(sent)| + count
        decreases rem
      {
        var n := ChunkSize(rem);
        var h := ChunkHeader(tag, rem);
        var words := contents[off..off + n];
        ChunkWire(h, words);
        assert ReadReplies(tag, rem, off, contents) == [ChunkReply(tag, rem, words)] + ReadReplies(tag, rem - n, off, contents);
        PacketSendReply(h, words + Zeros(PayloadWords - n));
        rem := rem - n;
        count := count + 1;
      }
      assert ReadReplies(tag, rem, off, contents) == [];
    }

    /** The effect of a memory write from the device, by where it goes: a
        completion steps its queue's head round the ring and writes the new
        head to the queue's completion doorbell. */
    ghost predicate WriteApplied(q: StreamRequest, data: seq<Word>, outcome: Outcome,
                                 adminRx0: Word, dataRx0: Word, tag0: Byte, sent0: seq<seq<Word>>,
                                 block0: seq<Word>)
      requires |data| == PayloadWords && |block0| == BlockMemWords && dataBlockMem.Length == BlockMemWords
      reads this, dataBlockMem
    {
      match WriteTarget(q.address)
      case AdminCompletion =>
        outcome == AdminCompleted(CompletionStatus(data[3])) &&
        queueAdminRx == NextIndex(adminRx0, queueNum) && queueDataRx == dataRx0 && dataBlockMem[..] == block0 &&
        tag == (tag0 + 1) % 0x100 &&
        sent == sent0 + [EncodeStreamRequest(HostStreamRequest(1, AdminCompletionHead, 1, tag)) + [queueAdminRx]]
      case IoCompletion =>
        outcome == IoCompleted(CompletionStatus(data[3])) &&
        queueDataRx == NextIndex(dataRx0, queueNum) && queueAdminRx == adminRx0 && dataBlockMem[..] == block0 &&
        tag == (tag0 + 1) % 0x100 &&
        sent == sent0 + [EncodeStreamRequest(HostStreamRequest(1, IoCompletionHead, 1, tag)) + [queueDataRx]]
      case BlockAt(i) =>
        q.numWords <= PayloadWords && i + q.numWords <= BlockMemWords &&
        outcome == BlockWritten && dataBlockMem[..] == Splice(block0, i, data[..q.numWords]) &&
        queueAdminRx == adminRx0 && queueDataRx == dataRx0 && tag == tag0 && sent == sent0
      case _ =>
        outcome == WriteUnknownAddress &&
        queueAdminRx == adminRx0 && queueDataRx == dataRx0 && dataBlockMem[..] == block0 &&
        tag == tag0 && sent == sent0
    }

    method HandleWrite(q: StreamRequest, data: seq<Word>) returns (outcome: Outcome)
      requires Valid() && |data| == PayloadWords
      requires WriteTarget(q.address).BlockAt? ==>
        q.numWords <= PayloadWords && WriteTarget(q.address).index + q.numWords <= BlockMemWords
      modifies this`queueAdminRx, this`queueDataRx, this`tag, this`sent, this`packetReply, dataBlockMem
      ensures Valid() && packetReply == old(packetReply)
      ensures WriteApplied(q, data, outcome, old(queueAdminRx), old(queueDataRx), old(tag), old(sent),
                           old(dataBlockMem[..]))
    {
      match WriteTarget(q.address)
      case AdminCompletion =>
        NextIndexInRing(queueAdminRx, queueNum);
        queueAdminRx := NextIndex(queueAdminRx, queueNum);
        var e := WriteNvmeReg32(AdminCompletionHead, queueAdminRx);
        outcome := AdminCompleted(CompletionStatus(data[3]));
      case IoCompletion =>
        NextIndexInRing(queueDataRx, queueNum);
        queueDataRx := NextIndex(queueDataRx, queueNum);
        var e := WriteNvmeReg32(IoCompletionHead, queueDataRx);
        outcome := IoCompleted(CompletionStatus(data[3]));
      case BlockAt(i) =>
        CopyInto(dataBlockMem, i, data[..q.numWords]);
        outcome := BlockWritten;
      case _ =>
        outcome := WriteUnknownAddress;
    }

    /** One pass of nvmeProcess's loop over the receive buffer rx, dispatched
        on the stream word: a reply (stream 1) is kept for the caller waiting
        on it; a request (stream 2) that reads a host memory is answered with
        its replies, one from elsewhere is dropped, a memory write is applied
        as WriteApplied says and any other request is dropped; a packet on any
        other stream is reported and dropped. */
    method ProcessPacket(rx: seq<Word>) returns (outcome: Outcome)
      requires Valid() && |rx| == RxBufferWords && Serviceable(rx)
      modifies this`packetReply, this`queueAdminRx, this`queueDataRx, this`tag, this`sent, dataBlockMem
      ensures Valid()
      ensures rx[0] == ReplyStream ==>
        outcome == ReplyStored && packetReply == DecodeStreamReplyPacket(rx)
      ensures rx[0] != ReplyStream ==> packetReply == old(packetReply)
      ensures rx[0] != RequestStream ==>
        sent == old(sent) && tag == old(tag) && queueAdminRx == old(queueAdminRx) &&
        queueDataRx == old(queueDataRx) && unchanged(dataBlockMem)
      ensures rx[0] != ReplyStream && rx[0] != RequestStream ==> outcome == UnknownStream
      ensures rx[0] == RequestStream && DecodeStreamRequest(rx).request == 0 ==>
        tag == old(tag) && queueAdminRx == old(queueAdminRx) && queueDataRx == old(queueDataRx) &&
        unchanged(dataBlockMem) &&
        var q := DecodeStreamRequest(rx);
        match ReadTarget(q.address)
        case None => outcome == ReadUnknownAddress && sent == old(sent)
        case Some(m) =>
          var replies := ReadReplies(q.tag, q.numWords, Offset(q.address), Memory(m)[..]);
          outcome == ReadServed(|replies|) && sent == old(sent) + replies
      ensures rx[0] == RequestStream && DecodeStreamRequest(rx).request == 1 ==>
        WriteApplied(DecodeStreamRequest(rx), rx[StreamRequestHeaderWords..StreamRequestHeaderWords + PayloadWords],
                     outcome, old(queueAdminRx), old(queueDataRx), old(tag), old(sent), old(dataBlockMem[..]))
      ensures rx[0] == RequestStream && DecodeStreamRequest(rx).request > 1 ==>
        outcome == UnknownRequest && sent == old(sent) && tag == old(tag) &&
        queueAdminRx == old(queueAdminRx) && queueDataRx == old(queueDataRx) && unchanged(dataBlockMem)
    {
      if rx[0] == ReplyStream {
        packetReply := DecodeStreamReplyPacket(rx);
        outcome := ReplyStored;
        return;
      } else if rx[0] != RequestStream {
        outcome := UnknownStream;
        return;
      }
      var q := DecodeStreamRequest(rx);
      if q.request == 0 {
        match ReadTarget(q.address)
        case None =>
          outcome := ReadUnknownAddress;
        case Some(m) =>
          var contents := Memory(m)[..];
          var count := SendReplies(q.tag, q.numWords, Offset(q.address), contents);
          outcome := ReadServed(count);
      } else if q.request == 1 {
        outcome := HandleWrite(q, rx[StreamRequestHeaderWords..StreamRequestHeaderWords + PayloadWords]);
      } else {
        outcome := UnknownRequest;
      }
    }
  }
}
