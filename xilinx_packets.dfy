/** The packet headers exchanged with the FPGA's PCIe DMA path in the "test"
    and "DuneNvme" host programs: the Xilinx requester header (NvmeRequestPacket)
    and completer header (NvmeReplyPacket), laid out as GCC packs C bit fields,
    least significant bit first within each 32-bit word. A header value holds
    the field values as stored, so each field is within its width. */
module XilinxPackets {
  import opened Words

  /** The number of data words a packet structure carries (PcieMaxPayloadSize). */
  const PayloadWords: nat := 32
  const RequestHeaderWords: nat := 4
  const ReplyHeaderWords: nat := 3
  /** The host's stream number, used as requesterId on every packet the host sends. */
  const HostRequesterId: nat := 1

  datatype RequestHeader = RequestHeader(
    address: nat,            // 64 bits
    numWords: nat,           // 11 bits
    request: nat,            // 4 bits: 0 memory read, 1 memory write, 10 config write ...
    requesterId: nat,        // 16 bits
    tag: nat,                // 8 bits
    completerId: nat,        // 16 bits
    requesterIdEnable: nat)  // 1 bit

  datatype ReplyHeader = ReplyHeader(
    address: nat,      // 12 bits: the low bits of the address read
    error: nat,        // 4 bits
    numBytes: nat,     // 13 bits: bytes still to be transferred, this packet included
    numWords: nat,     // 11 bits: words in this packet
    status: nat,       // 3 bits
    requesterId: nat,  // 16 bits
    tag: nat,          // 8 bits
    completerId: nat,  // 16 bits (not present in the DuneNvme layout)
    reply: nat)        // 1 bit: set on every reply, clear in every request

  predicate RequestFits(h: RequestHeader)
  {
    h.address < Limit64 && h.numWords < 0x800 && h.request < 0x10 && h.requesterId < 0x1_0000 &&
    h.tag < 0x100 && h.completerId < 0x1_0000 && h.requesterIdEnable < 2
  }

  predicate ReplyFits(h: ReplyHeader)
  {
    h.address < 0x1000 && h.error < 0x10 && h.numBytes < 0x2000 && h.numWords < 0x800 &&
    h.status < 8 && h.requesterId < 0x1_0000 && h.tag < 0x100 && h.completerId < 0x1_0000 && h.reply < 2
  }

  /** The four header words of a request: the address low word first. */
  function EncodeRequest(h: RequestHeader): (w: seq<Word>)
    requires RequestFits(h)
    ensures |w| == RequestHeaderWords
  {
    [h.address % Limit32,
     h.address / Limit32,
     h.numWords + h.request * 0x800 + h.requesterId * 0x1_0000,
     h.tag + h.completerId * 0x100 + h.requesterIdEnable * 0x100_0000]
  }

  function DecodeRequest(w: seq<Word>): (h: RequestHeader)
    requires |w| >= RequestHeaderWords
    ensures RequestFits(h)
  {
    RequestHeader(
      w[0] + w[1] * Limit32,
      w[2] % 0x800,
      (w[2] / 0x800) % 0x10,
      w[2] / 0x1_0000,
      w[3] % 0x100,
      (w[3] / 0x100) % 0x1_0000,
      (w[3] / 0x100_0000) % 2)
  }

  /** The header words with the unused bits (fill2 and fill3) cleared. */
  function ClearRequestFill(w: seq<Word>): (c: seq<Word>)
    requires |w| == RequestHeaderWords
  {
    [w[0], w[1], w[2] % 0x8000 + (w[2] / 0x1_0000) * 0x1_0000, w[3] % 0x200_0000]
  }

  // Field packing, one header word at a time.

  lemma PackRequestWord2(n: nat, r: nat, id: nat)
    requires n < 0x800 && r < 0x10 && id < 0x1_0000
    ensures var w := n + r * 0x800 + id * 0x1_0000;
      w < Limit32 && w % 0x800 == n && (w / 0x800) % 0x10 == r && w / 0x1_0000 == id
  {
    DivModOf(r + id * 0x20, n, 0x800);
    DivModOf(id * 2, r, 0x10);
    DivModOf(id, n + r * 0x800, 0x1_0000);
  }

  lemma PackReplyWord1(n: nat, st: nat, id: nat)
    requires n < 0x800 && st < 8 && id < 0x1_0000
    ensures var w := n + st * 0x800 + id * 0x1_0000;
      w < Limit32 && w % 0x800 == n && (w / 0x800) % 8 == st && w / 0x1_0000 == id
  {
    DivModOf(st + id * 0x20, n, 0x800);
    DivModOf(id * 4, st, 8);
    DivModOf(id, n + st * 0x800, 0x1_0000);
  }

  lemma UnpackCount(w: Word, rw: nat)
    requires rw == 0x10 || rw == 8
    ensures w % 0x800 + ((w / 0x800) % rw) * 0x800 + (w / 0x1_0000) * 0x1_0000
         == w % (0x800 * rw) + (w / 0x1_0000) * 0x1_0000
  {
    var n, a := w % 0x800, w / 0x800;
    var c, b := a % rw, a / rw;
    assert w == a * 0x800 + n;
    assert a == b * rw + c;
    if rw == 0x10 {
      assert w == b * 0x8000 + (c * 0x800 + n);
      DivModOf(b, c * 0x800 + n, 0x8000);
      assert w == (b / 2) * 0x1_0000 + (b % 2) * 0x8000 + (c * 0x800 + n);
      DivModOf(b / 2, (b % 2) * 0x8000 + c * 0x800 + n, 0x1_0000);
    } else {
      assert w == b * 0x4000 + (c * 0x800 + n);
      DivModOf(b, c * 0x800 + n, 0x4000);
      assert w == (b / 4) * 0x1_0000 + (b % 4) * 0x4000 + (c * 0x800 + n);
      DivModOf(b / 4, (b % 4) * 0x4000 + c * 0x800 + n, 0x1_0000);
    }
  }

  lemma PackTag(t: nat, c: nat, e: nat)
    requires t < 0x100 && c < 0x1_0000 && e < 2
    ensures var w := t + c * 0x100 + e * 0x100_0000;
      w < Limit32 && w % 0x100 == t && (w / 0x100) % 0x1_0000 == c && (w / 0x100_0000) % 2 == e
  {
    DivModOf(c + e * 0x1_0000, t, 0x100);
    DivModOf(e, c, 0x1_0000);
    DivModOf(e, t + c * 0x100, 0x100_0000);
  }

  lemma UnpackTag(w: Word)
    ensures w % 0x100 + ((w / 0x100) % 0x1_0000) * 0x100 + ((w / 0x100_0000) % 2) * 0x100_0000
         == w % 0x200_0000
  {
    var t, a := w % 0x100, w / 0x100;
    var c, b := a % 0x1_0000, a / 0x1_0000;
    var e, f := b % 2, b / 2;
    assert w == a * 0x100 + t;
    assert a == b * 0x1_0000 + c;
    assert b == f * 2 + e;
    DivModOf(b, t + c * 0x100, 0x100_0000);
    DivModOf(f, t + c * 0x100 + e * 0x100_0000, 0x200_0000);
  }

  lemma PackAddress(a: nat)
    requires a < Limit64
    ensures a % Limit32 + (a / Limit32) * Limit32 == a && a / Limit32 < Limit32
  {
  }

  lemma PackReplyWord0(a: nat, e: nat, nb: nat)
    requires a < 0x1000 && e < 0x10 && nb < 0x2000
    ensures var w := a + e * 0x1000 + nb * 0x1_0000;
      w < Limit32 && w % 0x1000 == a && (w / 0x1000) % 0x10 == e && (w / 0x1_0000) % 0x2000 == nb
  {
    DivModOf(e + nb * 0x10, a, 0x1000);
    DivModOf(nb, e, 0x10);
    DivModOf(nb, a + e * 0x1000, 0x1_0000);
    DivModOf(0, nb, 0x2000);
  }

  lemma UnpackReplyWord0(w: Word)
    ensures w % 0x1000 + ((w / 0x1000) % 0x10) * 0x1000 + ((w / 0x1_0000) % 0x2000) * 0x1_0000
         == w % 0x2000_0000
  {
    var t, a := w % 0x1000, w / 0x1000;
    var c, b := a % 0x10, a / 0x10;
    var e, f := b % 0x2000, b / 0x2000;
    assert w == a * 0x1000 + t;
    assert a == b * 0x10 + c;
    assert b == f * 0x2000 + e;
    DivModOf(b, t + c * 0x1000, 0x1_0000);
    DivModOf(f, t + c * 0x1000 + e * 0x1_0000, 0x2000_0000);
  }

  lemma PackReplyWord2(t: nat, c: nat, r: nat)
    requires t < 0x100 && c < 0x1_0000 && r < 2
    ensures var w := t + c * 0x100 + r * 0x8000_0000;
      w < Limit32 && w % 0x100 == t && (w / 0x100) % 0x1_0000 == c && w / 0x8000_0000 == r
  {
    DivModOf(c + r * 0x80_0000, t, 0x100);
    DivModOf(r * 0x80, c, 0x1_0000);
    DivModOf(r, t + c * 0x100, 0x8000_0000);
  }

  lemma UnpackReplyWord2(w: Word)
    ensures w % 0x100 + ((w / 0x100) % 0x1_0000) * 0x100 + (w / 0x8000_0000) * 0x8000_0000
         == w % 0x100_0000 + (w / 0x8000_0000) * 0x8000_0000
  {
    var t, a := w % 0x100, w / 0x100;
    var c, b := a % 0x1_0000, a / 0x1_0000;
    var f := b / 0x80;
    assert w == a * 0x100 + t;
    assert a == b * 0x1_0000 + c;
    assert b == f * 0x80 + b % 0x80;
    DivModOf(b, t + c * 0x100, 0x100_0000);
    DivModOf(f, t + c * 0x100 + (b % 0x80) * 0x100_0000, 0x8000_0000);
  }

  lemma RequestRoundTrip(h: RequestHeader)
    requires RequestFits(h)
    ensures DecodeRequest(EncodeRequest(h)) == h
  {
    PackAddress(h.address);
    PackRequestWord2(h.numWords, h.request, h.requesterId);
    PackTag(h.tag, h.completerId, h.requesterIdEnable);
  }

  /** Decoding loses only the fill bits. */
  lemma RequestWordsRoundTrip(w: seq<Word>)
    requires |w| == RequestHeaderWords
    ensures EncodeRequest(DecodeRequest(w)) == ClearRequestFill(w)
  {
    UnpackCount(w[2], 0x10);
    UnpackTag(w[3]);
  }

  function EncodeReply(h: ReplyHeader): (w: seq<Word>)
    requires ReplyFits(h)
    ensures |w| == ReplyHeaderWords
  {
    [h.address + h.error * 0x1000 + h.numBytes * 0x1_0000,
     h.numWords + h.status * 0x800 + h.requesterId * 0x1_0000,
     h.tag + h.completerId * 0x100 + h.reply * 0x8000_0000]
  }

  function DecodeReply(w: seq<Word>): (h: ReplyHeader)
    requires |w| >= ReplyHeaderWords
    ensures ReplyFits(h)
  {
    ReplyHeader(
      w[0] % 0x1000,
      (w[0] / 0x1000) % 0x10,
      (w[0] / 0x1_0000) % 0x2000,
      w[1] % 0x800,
      (w[1] / 0x800) % 8,
      w[1] / 0x1_0000,
      w[2] % 0x100,
      (w[2] / 0x100) % 0x1_0000,
      w[2] / 0x8000_0000)
  }

  function ClearReplyFill(w: seq<Word>): (c: seq<Word>)
    requires |w| == ReplyHeaderWords
  {
    [w[0] % 0x2000_0000,
     w[1] % 0x4000 + (w[1] / 0x1_0000) * 0x1_0000,
     w[2] % 0x100_0000 + (w[2] / 0x8000_0000) * 0x8000_0000]
  }

  lemma ReplyRoundTrip(h: ReplyHeader)
    requires ReplyFits(h)
    ensures DecodeReply(EncodeReply(h)) == h
  {
    PackReplyWord0(h.address, h.error, h.numBytes);
    PackReplyWord1(h.numWords, h.status, h.requesterId);
    PackReplyWord2(h.tag, h.completerId, h.reply);
  }

  /** Decoding loses only the fill bits. */
  lemma ReplyWordsRoundTrip(w: seq<Word>)
    requires |w| == ReplyHeaderWords
    ensures EncodeReply(DecodeReply(w)) == ClearReplyFill(w)
  {
    UnpackReplyWord0(w[0]);
    UnpackCount(w[1], 8);
    UnpackReplyWord2(w[2]);
  }

  /** The DuneNvme reply layout: word 2 holds only the tag and the reply bit. */
  function EncodeReplyNoCompleter(h: ReplyHeader): (w: seq<Word>)
    requires ReplyFits(h)
    ensures |w| == ReplyHeaderWords
    ensures h.completerId == 0 ==> w == EncodeReply(h)
  {
    [h.address + h.error * 0x1000 + h.numBytes * 0x1_0000,
     h.numWords + h.status * 0x800 + h.requesterId * 0x1_0000,
     h.tag + h.reply * 0x8000_0000]
  }

  function DecodeReplyNoCompleter(w: seq<Word>): (h: ReplyHeader)
    requires |w| >= ReplyHeaderWords
    ensures ReplyFits(h) && h.completerId == 0
  {
    DecodeReply(w).(completerId := 0)
  }

  lemma ReplyNoCompleterRoundTrip(h: ReplyHeader)
    requires ReplyFits(h) && h.completerId == 0
    ensures DecodeReplyNoCompleter(EncodeReplyNoCompleter(h)) == h
  {
    PackReplyWord0(h.address, h.error, h.numBytes);
    PackReplyWord1(h.numWords, h.status, h.requesterId);
    PackReplyWord2(h.tag, 0, h.reply);
  }

  /** A whole reply structure: the header and its 32 data words. */
  datatype ReplyPacket = ReplyPacket(header: ReplyHeader, data: seq<Word>)

  predicate ReplyPacketFits(p: ReplyPacket)
  {
    ReplyFits(p.header) && |p.data| == PayloadWords
  }

  const ZeroReplyHeader: ReplyHeader := ReplyHeader(0, 0, 0, 0, 0, 0, 0, 0, 0)

  /** A reply structure as the constructor leaves it: every field and data word zero. */
  function ZeroReply(): (p: ReplyPacket)
    ensures ReplyPacketFits(p)
  {
    ReplyPacket(ZeroReplyHeader, Zeros(PayloadWords))
  }

  /** The reply structure copied out of the receive buffer. */
  function DecodeReplyPacket(w: seq<Word>): (p: ReplyPacket)
    requires |w| >= ReplyHeaderWords + PayloadWords
    ensures ReplyPacketFits(p)
  {
    ReplyPacket(DecodeReply(w), w[ReplyHeaderWords..ReplyHeaderWords + PayloadWords])
  }

  /** The reply structure of the DuneNvme layout copied out of the receive buffer. */
  function DecodeReplyPacketNoCompleter(w: seq<Word>): (p: ReplyPacket)
    requires |w| >= ReplyHeaderWords + PayloadWords
    ensures ReplyPacketFits(p) && p.header.completerId == 0
    ensures p == DecodeReplyPacket(w).(header := DecodeReplyPacket(w).header.(completerId := 0))
  {
    ReplyPacket(DecodeReplyNoCompleter(w), w[ReplyHeaderWords..ReplyHeaderWords + PayloadWords])
  }

  /** Packets received from the FPGA are told apart by bit 31 of word 2. */
  predicate IsReplyWords(w: seq<Word>)
    requires |w| >= 3
  {
    w[2] / 0x8000_0000 == 1
  }

  /** A reply is recognised exactly when its reply bit is set; a request shares
      that bit with the top bit of its requesterId, so a request is recognised
      as a request exactly when its requesterId is below 0x8000. */
  lemma ReplyBitClassifies(q: RequestHeader, r: ReplyHeader)
    requires RequestFits(q) && ReplyFits(r)
    ensures IsReplyWords(EncodeReply(r)) <==> r.reply == 1
    ensures IsReplyWords(EncodeReplyNoCompleter(r)) <==> r.reply == 1
    ensures !IsReplyWords(EncodeRequest(q)) <==> q.requesterId < 0x8000
  {
    PackReplyWord2(r.tag, r.completerId, r.reply);
    PackReplyWord2(r.tag, 0, r.reply);
    PackRequestWord2(q.numWords, q.request, q.requesterId);
  }

  /** The words packetSend writes for a request: the header and, for the
      request types that carry data (1, 10 and 12), numWords data words. */
  function RequestSendWords(h: RequestHeader): nat
  {
    RequestHeaderWords + (if h.request == 1 || h.request == 10 || h.request == 12 then h.numWords else 0)
  }

  /** The words packetSend writes for a reply: the header and numWords data words. */
  function ReplySendWords(h: ReplyHeader): nat
  {
    ReplyHeaderWords + h.numWords
  }

  /** The request as it appears on the host send channel: the first
      RequestSendWords words of the packet structure. */
  function RequestWire(h: RequestHeader, data: seq<Word>): (w: seq<Word>)
    requires RequestFits(h) && |data| == PayloadWords
    requires RequestSendWords(h) <= RequestHeaderWords + PayloadWords
  {
    (EncodeRequest(h) + data)[..RequestSendWords(h)]
  }

  /** The reply as it appears on the host send channel. */
  function ReplyWire(h: ReplyHeader, data: seq<Word>): (w: seq<Word>)
    requires ReplyFits(h) && |data| == PayloadWords && h.numWords <= PayloadWords
  {
    (EncodeReply(h) + data)[..ReplySendWords(h)]
  }

  /** A DuneNvme reply as it appears on the host send channel; with no
      completer id it is the same words as the other layout sends. */
  function ReplyWireNoCompleter(h: ReplyHeader, data: seq<Word>): (w: seq<Word>)
    requires ReplyFits(h) && |data| == PayloadWords && h.numWords <= PayloadWords
    ensures h.completerId == 0 ==> w == ReplyWire(h, data)
  {
    (EncodeReplyNoCompleter(h) + data)[..ReplySendWords(h)]
  }

  /** The header pcieRead and pcieWrite build for a request to address: the
      host's requester id with its use enabled, the given tag, and the word
      count and request code cut to their 11- and 4-bit fields. */
  function HostRequest(request: Byte, address: Word, num: Word, tag: Byte): (h: RequestHeader)
    ensures RequestFits(h)
  {
    RequestHeader(address, num % 0x800, request % 0x10, HostRequesterId, tag, 0, 1)
  }

  /** The first m words of e + d, once m covers e. */
  lemma TakeAfter(e: seq<Word>, d: seq<Word>, m: nat)
    requires |e| <= m <= |e| + |d|
    ensures (e + d)[..m] == e + d[..m - |e|]
    ensures (e + d[..m - |e|])[..|e|] == e
  {
  }

  /** A request header is decoded from its first four words alone. */
  lemma DecodeRequestPrefix(w: seq<Word>, v: seq<Word>)
    requires |w| >= RequestHeaderWords && |v| == RequestHeaderWords && w[..RequestHeaderWords] == v
    ensures DecodeRequest(w) == DecodeRequest(v)
  {
    assert w[0] == v[0] && w[1] == v[1] && w[2] == v[2] && w[3] == v[3];
  }

  /** The sent request is the header followed by numWords data words for the
      data-carrying request types, and the bare header for the others. */
  lemma RequestWireShape(h: RequestHeader, data: seq<Word>)
    requires RequestFits(h) && |data| == PayloadWords
    requires RequestSendWords(h) <= RequestHeaderWords + PayloadWords
    ensures DecodeRequest(RequestWire(h, data)) == h
    ensures h.request in {1, 10, 12} ==> RequestWire(h, data) == EncodeRequest(h) + data[..h.numWords]
    ensures !(h.request in {1, 10, 12}) ==> RequestWire(h, data) == EncodeRequest(h)
  {
    var e := EncodeRequest(h);
    var m := RequestSendWords(h);
    TakeAfter(e, data, m);
    var wire := e + data[..m - RequestHeaderWords];
    assert RequestWire(h, data) == wire;
    DecodeRequestPrefix(wire, e);
    RequestRoundTrip(h);
    if !(h.request in {1, 10, 12}) {
      assert data[..m - RequestHeaderWords] == [];
      assert wire == e;
    }
  }
}
