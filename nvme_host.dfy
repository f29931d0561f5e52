/** What the host-side NVMe access code of the three variants shares: the
    branch a received packet takes, the NVMe doorbell offsets and the status
    field of a completion. */
module NvmeHost {
  import opened Words

  /** The branch the per-packet step of nvmeProcess takes for one received packet. */
  datatype Outcome =
    | ReplyStored                // a reply to one of the host's own requests, kept for the waiting caller
    | ReadServed(packets: nat)   // a memory read from the device, answered with this many reply packets
    | ReadUnknownAddress         // a memory read outside the host memories: reported, no reply sent
    | AdminCompleted(status: nat)
    | IoCompleted(status: nat)
    | BlockWritten               // a data write from the device, copied into the block memory
    | DataPacketPassed           // a data write handed to the nvmeDataPacket hook
    | WriteUnknownAddress
    | UnknownRequest
    | UnknownStream              // DuneNvmeTest only: neither a reply nor a request

  /** The host memories the device reads from and writes to. */
  datatype HostMemory = AdminQueueMem | DataQueueMem | BlockMem

  /** Where a memory write from the device goes. */
  datatype WriteRoute =
    | AdminCompletion            // an entry of the admin completion queue
    | IoCompletion               // an entry of the I/O completion queue
    | BlockAt(index: nat)        // data for the block memory, starting at this word
    | DataHook                   // data handed to the nvmeDataPacket hook
    | NoWriteTarget

  /** The doorbell registers of the admin queue pair and I/O queue pair 1,
      at the offsets NVM Express 1.4 section 3.1 gives them with a doorbell
      stride of 4 bytes. */
  const AdminSubmissionTail: Word := 0x1000
  const AdminCompletionHead: Word := 0x1004
  const IoSubmissionTail: Word := 0x1008
  const IoCompletionHead: Word := 0x100C

  /** The doorbell of submission (false) or completion (true) queue y. */
  function Doorbell(y: nat, completion: bool): nat
  {
    0x1000 + (2 * y + (if completion then 1 else 0)) * 4
  }

  lemma DoorbellOffsets()
    ensures AdminSubmissionTail == Doorbell(0, false) && AdminCompletionHead == Doorbell(0, true)
    ensures IoSubmissionTail == Doorbell(1, false) && IoCompletionHead == Doorbell(1, true)
  {
  }

  /** The status the host reports for a completion: dword 3 shifted right by 17. */
  function CompletionStatus(dw3: Word): (status: nat)
    ensures status < 0x8000
  {
    dw3 / 0x2_0000
  }

  /** Dword 3 of a completion queue entry (NVM Express 1.4 section 4.6) holds
      the command identifier in bits 0-15, the phase tag in bit 16 and the
      status field in bits 17-31: the status taken is exactly the status
      field, whatever the phase tag and command identifier. */
  lemma CompletionStatusIsStatusField(statusField: nat, phase: nat, commandId: nat)
    requires statusField < 0x8000 && phase < 2 && commandId < 0x1_0000
    ensures CompletionStatus(statusField * 0x2_0000 + phase * 0x1_0000 + commandId) == statusField
  {
    var w := statusField * 0x2_0000 + phase * 0x1_0000 + commandId;
    assert w == statusField * 0x2_0000 + (phase * 0x1_0000 + commandId);
    assert phase * 0x1_0000 + commandId < 0x2_0000;
  }

  /** Dword 0 of the commands the "test" and DuneNvme hosts build for command
      count id: 0x01 in bits 24-31, the low byte of the count in bits 16-23,
      OR-ed with the opcode. */
  function CommandDword0(id: Word, opcode: Word): Word
  {
    Or32(0x0100_0000 + (id % 0x100) * 0x1_0000, opcode)
  }

  /** In the terms of NVM Express 1.4 section 4.2, dword 0 holds the opcode in
      its low 16 bits (opcode, fused operation and PRP data transfer) and the
      command identifier 0x01nn in its high 16 bits, nn the low byte of the count. */
  lemma CommandDword0Layout(id: Word, opcode: Word)
    requires opcode < 0x1_0000
    ensures CommandDword0(id, opcode) % 0x1_0000 == opcode
    ensures CommandDword0(id, opcode) / 0x1_0000 == 0x100 + id % 0x100
  {
    var high := 0x100 + id % 0x100;
    var base := 0x0100_0000 + (id % 0x100) * 0x1_0000;
    assert base == high * 0x1_0000;
    OrBelowBit16(high, opcode);
  }
}
