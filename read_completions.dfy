/** How the "test" and "DuneNvme" hosts answer a memory read from the NVMe:
    the requested words go back in reply packets of at most 32 words, each
    reply saying how many bytes remain (this packet included), in the manner
    of PCI Express 3.0 section 2.3.1.1 read-completion splitting. */
module ReadCompletions {
  import opened Words
  import opened XilinxPackets

  /** The words left to send fit in the host memory from the word the address selects. */
  predicate ReadInBounds(address: nat, rem: nat, memLength: nat)
  {
    memLength <= 0x2000 && (address % 0x1_0000) / 4 + rem <= memLength
  }

  /** The header of the reply sent when rem words remain to be read from address. */
  function ChunkHeader(address: nat, tag: nat, rem: nat, completerId: nat): (h: ReplyHeader)
    requires tag < 0x100 && 0 < rem < 0x800 && completerId < 0x1_0000
    ensures ReplyFits(h)
  {
    ReplyHeader(address % 0x1000, 0, rem * 4, if rem > MaxPayloadWords then MaxPayloadWords else rem,
                0, 0, tag, completerId, 1)
  }

  /** Moving the address past n of the remaining words moves the word index by n:
      the low 16 bits do not carry and the 64-bit address does not wrap. */
  lemma AdvanceInWindow(address: nat, n: nat, rem: nat, memLength: nat)
    requires address < Limit64 && n <= rem && ReadInBounds(address, rem, memLength)
    ensures address + 4 * n < Limit64
    ensures ((address + 4 * n) % 0x1_0000) / 4 == (address % 0x1_0000) / 4 + n
    ensures ReadInBounds(address + 4 * n, rem - n, memLength)
  {
    var lo := address % 0x1_0000;
    var hi := address / 0x1_0000;
    assert address == hi * 0x1_0000 + lo;
    assert lo + 4 * n < 0x1_0000;
    assert address + 4 * n == hi * 0x1_0000 + (lo + 4 * n);
    assert (address + 4 * n) % 0x1_0000 == lo + 4 * n;
  }

  /** One reply packet as sent: the header followed by the chunk's words. */
  function ChunkReply(address: nat, tag: nat, rem: nat, completerId: nat, words: seq<Word>): (w: seq<Word>)
    requires tag < 0x100 && 0 < rem < 0x800 && completerId < 0x1_0000
    ensures |w| == ReplyHeaderWords + |words| && w[ReplyHeaderWords..] == words
  {
    EncodeReply(ChunkHeader(address, tag, rem, completerId)) + words
  }

  /** The words of the next reply when rem words remain. */
  function ChunkSize(rem: nat): nat
  {
    if rem > MaxPayloadWords then MaxPayloadWords else rem
  }

  /** The word of host memory a device address reads. */
  function WordIndex(address: nat): nat
  {
    (address % 0x1_0000) / 4
  }

  /** The wire words of the replies to a read of rem words from address, one
      packet per chunk: the reply header and the chunk's words of memory. */
  function ReadReplies(address: nat, tag: nat, rem: nat, completerId: nat, mem: seq<Word>): seq<seq<Word>>
    requires address < Limit64 && tag < 0x100 && rem < 0x800 && completerId < 0x1_0000
    requires ReadInBounds(address, rem, |mem|)
    decreases rem
  {
    if rem == 0 then [] else
      var n := ChunkSize(rem);
      var idx := WordIndex(address);
      AdvanceInWindow(address, n, rem, |mem|);
      [ChunkReply(address, tag, rem, completerId, mem[idx..idx + n])] +
      ReadReplies((address + 4 * n) % Limit64, tag, rem - n, completerId, mem)
  }

  /** One step of the read: the first reply is the chunk at the current word,
      and the rest is the read of what remains from the advanced address. */
  lemma ReadRepliesStep(address: nat, tag: nat, rem: nat, completerId: nat, mem: seq<Word>)
    requires address < Limit64 && tag < 0x100 && 0 < rem < 0x800 && completerId < 0x1_0000
    requires ReadInBounds(address, rem, |mem|)
    ensures var n, next := ChunkSize(rem), (address + 4 * ChunkSize(rem)) % Limit64;
      next == address + 4 * n && ReadInBounds(next, rem - n, |mem|) && WordIndex(next) == WordIndex(address) + n &&
      WordIndex(address) + n <= |mem| &&
      ReadReplies(address, tag, rem, completerId, mem)
        == [ChunkReply(address, tag, rem, completerId, mem[WordIndex(address)..WordIndex(address) + n])] +
           ReadReplies(next, tag, rem - n, completerId, mem)
  {
    AdvanceInWindow(address, ChunkSize(rem), rem, |mem|);
  }

  /** Sending the first reply moves it from the replies still to send to those sent. */
  lemma ReadRepliesAfterSend(done: seq<seq<Word>>, total: seq<seq<Word>>,
                             address: nat, tag: nat, rem: nat, completerId: nat, mem: seq<Word>)
    requires address < Limit64 && tag < 0x100 && 0 < rem < 0x800 && completerId < 0x1_0000
    requires ReadInBounds(address, rem, |mem|)
    requires done + ReadReplies(address, tag, rem, completerId, mem) == total
    ensures var n := ChunkSize(rem);
      address + 4 * n < Limit64 && ReadInBounds(address + 4 * n, rem - n, |mem|) &&
      WordIndex(address) + n <= |mem| &&
      (done + [ChunkReply(address, tag, rem, completerId, mem[WordIndex(address)..WordIndex(address) + n])]) +
        ReadReplies(address + 4 * n, tag, rem - n, completerId, mem) == total
  {
    ReadRepliesStep(address, tag, rem, completerId, mem);
  }

  /** The data words carried by a list of reply packets, in order. */
  function Payloads(replies: seq<seq<Word>>): seq<Word>
  {
    if replies == [] then []
    else (if |replies[0]| >= ReplyHeaderWords then replies[0][ReplyHeaderWords..] else []) + Payloads(replies[1..])
  }

  /** The payload of a first reply carrying words idx to idx + n, followed by
      replies carrying the n words after them up to idx + rem, is that whole range. */
  lemma CarryStep(mem: seq<Word>, idx: nat, n: nat, rem: nat, j: nat, first: seq<Word>, rest: seq<seq<Word>>)
    requires j == idx + n && n <= rem && idx + rem <= |mem|
    requires |first| >= ReplyHeaderWords && first[ReplyHeaderWords..] == mem[idx..idx + n]
    requires Payloads(rest) == mem[j..j + (rem - n)]
    ensures Payloads([first] + rest) == mem[idx..idx + rem]
  {
    PayloadsCons(first, rest);
    SliceJoin(mem, idx, idx + n, idx + rem);
  }

  lemma PayloadsCons(first: seq<Word>, rest: seq<seq<Word>>)
    requires |first| >= ReplyHeaderWords
    ensures Payloads([first] + rest) == first[ReplyHeaderWords..] + Payloads(rest)
  {
    assert ([first] + rest)[1..] == rest;
  }

  /** Reply w is the chunk sent from lowAddress with remaining words left: it carries
      the low 12 address bits, the bytes still to go, at most 32 words, the
      request's tag, the completer id and the reply bit, and nothing else. */
  predicate IsChunkReply(w: seq<Word>, lowAddress: int, remaining: int, tag: nat, completerId: nat)
  {
    |w| >= ReplyHeaderWords &&
    var h := DecodeReply(w);
    h.address == lowAddress && h.numBytes == 4 * remaining &&
    h.numWords == (if remaining > MaxPayloadWords then MaxPayloadWords else remaining) &&
    |w| == ReplyHeaderWords + h.numWords &&
    h.tag == tag && h.completerId == completerId && h.reply == 1 &&
    h.error == 0 && h.status == 0 && h.requesterId == 0
  }

  /** The replies together carry exactly the words requested, in order. */
  lemma {:induction false} ReadRepliesCarryRange(address: nat, tag: nat, rem: nat, completerId: nat, mem: seq<Word>)
    requires address < Limit64 && tag < 0x100 && rem < 0x800 && completerId < 0x1_0000
    requires ReadInBounds(address, rem, |mem|)
    ensures Payloads(ReadReplies(address, tag, rem, completerId, mem))
         == mem[WordIndex(address)..WordIndex(address) + rem]
    decreases rem
  {
    if rem > 0 {
      var idx, n := WordIndex(address), ChunkSize(rem);
      var next := (address + 4 * n) % Limit64;
      ReadRepliesStep(address, tag, rem, completerId, mem);
      ReadRepliesCarryRange(next, tag, rem - n, completerId, mem);
      var rest := ReadReplies(next, tag, rem - n, completerId, mem);
      var first := ChunkReply(address, tag, rem, completerId, mem[idx..idx + n]);
      CarryStep(mem, idx, n, rem, WordIndex(next), first, rest);
    }
  }

  lemma FirstChunkReply(address: nat, tag: nat, rem: nat, completerId: nat, words: seq<Word>)
    requires tag < 0x100 && 0 < rem < 0x800 && completerId < 0x1_0000
    requires |words| == if rem > MaxPayloadWords then MaxPayloadWords else rem
    ensures IsChunkReply(ChunkReply(address, tag, rem, completerId, words), address % 0x1000, rem, tag, completerId)
  {
    var h := ChunkHeader(address, tag, rem, completerId);
    ReplyRoundTrip(h);
    var w := EncodeReply(h) + words;
    assert w[..ReplyHeaderWords] == EncodeReply(h);
    assert DecodeReply(w) == DecodeReply(EncodeReply(h));
  }

  /** There is one reply per chunk, and reply i is the chunk sent from 128 * i
      bytes past the start with rem - 32 * i words still to go. */
  lemma {:induction false} ReadRepliesHeaders(address: nat, tag: nat, rem: nat, completerId: nat, mem: seq<Word>)
    requires address < Limit64 && tag < 0x100 && rem < 0x800 && completerId < 0x1_0000
    requires ReadInBounds(address, rem, |mem|)
    ensures |ReadReplies(address, tag, rem, completerId, mem)| == |Chunks(rem)|
    ensures forall i :: 0 <= i < |ReadReplies(address, tag, rem, completerId, mem)| ==>
      IsChunkReply(ReadReplies(address, tag, rem, completerId, mem)[i],
                   (address + 4 * MaxPayloadWords * i) % 0x1000, rem - MaxPayloadWords * i, tag, completerId)
    decreases rem
  {
    if rem > 0 {
      var idx, n := WordIndex(address), ChunkSize(rem);
      var next := (address + 4 * n) % Limit64;
      ReadRepliesStep(address, tag, rem, completerId, mem);
      ReadRepliesHeaders(next, tag, rem - n, completerId, mem);
      var R := ReadReplies(address, tag, rem, completerId, mem);
      var rest := ReadReplies(next, tag, rem - n, completerId, mem);
      assert Chunks(rem) == [n] + Chunks(rem - n);
      FirstChunkReply(address, tag, rem, completerId, mem[idx..idx + n]);
      assert R[0] == ChunkReply(address, tag, rem, completerId, mem[idx..idx + n]);
      if rest != [] {
        assert rem - n > 0;
        HeadersShift(R, rest, address, next, rem, tag, completerId);
      }
    }
  }

  lemma HeadersShift(R: seq<seq<Word>>, rest: seq<seq<Word>>, address: nat, next: nat, rem: nat, tag: nat, completerId: nat)
    requires |R| == |rest| + 1 && R[1..] == rest && next == address + 4 * MaxPayloadWords
    requires forall j :: 0 <= j < |rest| ==>
      IsChunkReply(rest[j], (next + 4 * MaxPayloadWords * j) % 0x1000,
                   rem - MaxPayloadWords - MaxPayloadWords * j, tag, completerId)
    ensures forall i :: 1 <= i < |R| ==>
      IsChunkReply(R[i], (address + 4 * MaxPayloadWords * i) % 0x1000, rem - MaxPayloadWords * i, tag, completerId)
  {
    forall i | 1 <= i < |R|
      ensures IsChunkReply(R[i], (address + 4 * MaxPayloadWords * i) % 0x1000, rem - MaxPayloadWords * i, tag, completerId)
    {
      var j := i - 1;
      assert R[i] == rest[j];
      assert address + 4 * MaxPayloadWords + 4 * MaxPayloadWords * j == address + 4 * MaxPayloadWords * i;
      assert rem - MaxPayloadWords - MaxPayloadWords * j == rem - MaxPayloadWords * i;
    }
  }

  /** The reply packetSend writes for a chunk: the header and numWords of the 32
      data words of the zeroed-then-filled reply structure. */
  lemma ChunkWire(h: ReplyHeader, words: seq<Word>)
    requires ReplyFits(h) && |words| == h.numWords <= PayloadWords
    ensures ReplyWire(h, words + Zeros(PayloadWords - h.numWords)) == EncodeReply(h) + words
  {
    assert EncodeReply(h) + (words + Zeros(PayloadWords - h.numWords))
        == (EncodeReply(h) + words) + Zeros(PayloadWords - h.numWords);
  }
}
