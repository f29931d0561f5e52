/** The packet layouts of the DuneNvmeTest program
    (source/DuneNvmeTest/test/NvmeAccess.h). Every packet starts with a
    stream word and three fill words; the request header is 8 words (32
    bytes) and the reply header 7 words (28 bytes), each followed by 32 data
    words. Bit fields are allocated from the least significant bit up, as
    GCC does. */
module StreamPackets {
  import opened Words
  import opened XilinxPackets

  const StreamRequestHeaderWords: nat := 8
  const StreamReplyHeaderWords: nat := 7

  /** The stream the host sends its own requests on. */
  const HostStream: nat := 1
  /** The stream the host's replies to the device's memory reads go out on. */
  const ReadReplyStream: nat := 2

  datatype StreamRequest = StreamRequest(
    stream: nat,    // word 0
    address: nat,   // words 4-5: 64 bits
    numWords: nat,  // word 6: 11 bits
    request: nat,   // word 6: 4 bits from bit 11
    tag: nat)       // word 7: 8 bits

  datatype StreamReply = StreamReply(
    stream: nat,    // word 0
    address: nat,   // word 4: 12 bits
    error: nat,     // word 4: 4 bits from bit 12
    numBytes: nat,  // word 4: 13 bits from bit 16
    numWords: nat,  // word 5: 11 bits
    status: nat,    // word 5: 3 bits from bit 11
    tag: nat)       // word 6: 8 bits

  predicate StreamRequestFits(h: StreamRequest)
  {
    h.stream < Limit32 && h.address < Limit64 && h.numWords < 0x800 && h.request < 0x10 && h.tag < 0x100
  }

  predicate StreamReplyFits(h: StreamReply)
  {
    h.stream < Limit32 && h.address < 0x1000 && h.error < 0x10 && h.numBytes < 0x2000 &&
    h.numWords < 0x800 && h.status < 8 && h.tag < 0x100
  }

  function EncodeStreamRequest(h: StreamRequest): (w: seq<Word>)
    requires StreamRequestFits(h)
    ensures |w| == StreamRequestHeaderWords
  {
    [h.stream, 0, 0, 0, h.address % Limit32, h.address / Limit32, h.numWords + h.request * 0x800, h.tag]
  }

  function DecodeStreamRequest(w: seq<Word>): (h: StreamRequest)
    requires |w| >= StreamRequestHeaderWords
    ensures StreamRequestFits(h)
  {
    StreamRequest(w[0], w[4] + w[5] * Limit32, w[6] % 0x800, (w[6] / 0x800) % 0x10, w[7] % 0x100)
  }

  /** The header words with the fill words and fill bits cleared. */
  function ClearStreamRequestFill(w: seq<Word>): (c: seq<Word>)
    requires |w| == StreamRequestHeaderWords
  {
    [w[0], 0, 0, 0, w[4], w[5], w[6] % 0x8000, w[7] % 0x100]
  }

  lemma StreamRequestRoundTrip(h: StreamRequest)
    requires StreamRequestFits(h)
    ensures DecodeStreamRequest(EncodeStreamRequest(h)) == h
  {
    PackAddress(h.address);
    PackRequestWord2(h.numWords, h.request, 0);
  }

  /** Decoding loses only the fill. */
  lemma StreamRequestWordsRoundTrip(w: seq<Word>)
    requires |w| == StreamRequestHeaderWords
    ensures EncodeStreamRequest(DecodeStreamRequest(w)) == ClearStreamRequestFill(w)
  {
    DivModOf(w[5], w[4], Limit32);
    UnpackCount(w[6], 0x10);
  }

  function EncodeStreamReply(h: StreamReply): (w: seq<Word>)
    requires StreamReplyFits(h)
    ensures |w| == StreamReplyHeaderWords
  {
    [h.stream, 0, 0, 0, h.address + h.error * 0x1000 + h.numBytes * 0x1_0000, h.numWords + h.status * 0x800, h.tag]
  }

  function DecodeStreamReply(w: seq<Word>): (h: StreamReply)
    requires |w| >= StreamReplyHeaderWords
    ensures StreamReplyFits(h)
  {
    StreamReply(w[0], w[4] % 0x1000, (w[4] / 0x1000) % 0x10, (w[4] / 0x1_0000) % 0x2000,
                w[5] % 0x800, (w[5] / 0x800) % 8, w[6] % 0x100)
  }

  function ClearStreamReplyFill(w: seq<Word>): (c: seq<Word>)
    requires |w| == StreamReplyHeaderWords
  {
    [w[0], 0, 0, 0, w[4] % 0x2000_0000, w[5] % 0x4000, w[6] % 0x100]
  }

  lemma StreamReplyRoundTrip(h: StreamReply)
    requires StreamReplyFits(h)
    ensures DecodeStreamReply(EncodeStreamReply(h)) == h
  {
    PackReplyWord0(h.address, h.error, h.numBytes);
    PackReplyWord1(h.numWords, h.status, 0);
  }

  lemma StreamReplyWordsRoundTrip(w: seq<Word>)
    requires |w| == StreamReplyHeaderWords
    ensures EncodeStreamReply(DecodeStreamReply(w)) == ClearStreamReplyFill(w)
  {
    UnpackReplyWord0(w[4]);
    UnpackCount(w[5], 8);
  }

  /** A whole reply structure: the header and its 32 data words. */
  datatype StreamReplyPacket = StreamReplyPacket(header: StreamReply, data: seq<Word>)

  predicate StreamReplyPacketFits(p: StreamReplyPacket)
  {
    StreamReplyFits(p.header) && |p.data| == PayloadWords
  }

  const ZeroStreamReplyHeader: StreamReply := StreamReply(0, 0, 0, 0, 0, 0, 0)

  /** A reply structure as the constructor leaves it: every field and data word zero. */
  function ZeroStreamReply(): (p: StreamReplyPacket)
    ensures StreamReplyPacketFits(p)
  {
    StreamReplyPacket(ZeroStreamReplyHeader, Zeros(PayloadWords))
  }

  /** The reply structure copied out of the receive buffer. */
  function DecodeStreamReplyPacket(w: seq<Word>): (p: StreamReplyPacket)
    requires |w| >= StreamReplyHeaderWords + PayloadWords
    ensures StreamReplyPacketFits(p)
  {
    StreamReplyPacket(DecodeStreamReply(w), w[StreamReplyHeaderWords..StreamReplyHeaderWords + PayloadWords])
  }

  /** The request readRegister and writeRegister build: the host's stream,
      the address, the word count cut to its 11 bits and the given tag. */
  function HostStreamRequest(request: Byte, address: Word, num: Word, tag: Byte): (h: StreamRequest)
    ensures StreamRequestFits(h)
  {
    StreamRequest(HostStream, address, num % 0x800, request % 0x10, tag)
  }

  /** The request code of a register access: 8 configuration read, 0 memory
      read, 10 configuration write, 1 memory write. */
  function RequestCode(config: bool, write: bool): Byte
  {
    if write then (if config then 10 else 1) else (if config then 8 else 0)
  }

  /** The words packetSend writes for a request: the 8 header words and, for
      the write requests (1 and 10), numWords data words. */
  function StreamRequestSendWords(h: StreamRequest): nat
  {
    StreamRequestHeaderWords + (if h.request == 1 || h.request == 10 then h.numWords else 0)
  }

  /** The words packetSend writes for a reply: the 7 header words and numWords data words. */
  function StreamReplySendWords(h: StreamReply): nat
  {
    StreamReplyHeaderWords + h.numWords
  }

  /** The four register access kinds have four different codes, and a request
      carries data on the wire exactly when it is a write. */
  lemma RequestCodeCarriesData(config: bool, write: bool, config': bool, write': bool,
                               address: Word, num: Word, tag: Byte)
    ensures RequestCode(config, write) == RequestCode(config', write') <==> config == config' && write == write'
    ensures StreamRequestSendWords(HostStreamRequest(RequestCode(config, write), address, num, tag))
         == StreamRequestHeaderWords + (if write then num % 0x800 else 0)
  {
  }

  /** The request as it appears on the host send channel. */
  function StreamRequestWire(h: StreamRequest, data: seq<Word>): (w: seq<Word>)
    requires StreamRequestFits(h) && |data| == PayloadWords
    requires StreamRequestSendWords(h) <= StreamRequestHeaderWords + PayloadWords
  {
    (EncodeStreamRequest(h) + data)[..StreamRequestSendWords(h)]
  }

  /** The reply as it appears on the host send channel. */
  function StreamReplyWire(h: StreamReply, data: seq<Word>): (w: seq<Word>)
    requires StreamReplyFits(h) && |data| == PayloadWords && h.numWords <= PayloadWords
  {
    (EncodeStreamReply(h) + data)[..StreamReplySendWords(h)]
  }

  /** A request header is decoded from its first eight words alone. */
  lemma DecodeStreamRequestPrefix(w: seq<Word>, v: seq<Word>)
    requires |w| >= StreamRequestHeaderWords && |v| == StreamRequestHeaderWords
    requires w[..StreamRequestHeaderWords] == v
    ensures DecodeStreamRequest(w) == DecodeStreamRequest(v)
  {
    assert w[0] == v[0] && w[4] == v[4] && w[5] == v[5] && w[6] == v[6] && w[7] == v[7];
  }

  /** The sent request is the header followed by numWords data words for a
      write, and the bare header for a read; either way it decodes to the header. */
  lemma StreamRequestWireShape(h: StreamRequest, data: seq<Word>)
    requires StreamRequestFits(h) && |data| == PayloadWords
    requires StreamRequestSendWords(h) <= StreamRequestHeaderWords + PayloadWords
    ensures DecodeStreamRequest(StreamRequestWire(h, data)) == h
    ensures h.request in {1, 10} ==> StreamRequestWire(h, data) == EncodeStreamRequest(h) + data[..h.numWords]
    ensures !(h.request in {1, 10}) ==> StreamRequestWire(h, data) == EncodeStreamRequest(h)
  {
    var e := EncodeStreamRequest(h);
    var m := StreamRequestSendWords(h);
    TakeAfter(e, data, m);
    var wire := e + data[..m - StreamRequestHeaderWords];
    assert StreamRequestWire(h, data) == wire;
    DecodeStreamRequestPrefix(wire, e);
    StreamRequestRoundTrip(h);
    if !(h.request in {1, 10}) {
      assert data[..m - StreamRequestHeaderWords] == [];
      assert wire == e;
    }
  }
}
