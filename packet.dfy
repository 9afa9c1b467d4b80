/** The ICMP Echo message of RFC 792 ("Echo or Echo Reply Message") as the
    `ping_pkt` struct holds it: an 8-byte `icmphdr` followed by a 56-byte
    payload, 64 bytes in all. `Encode` gives the struct's memory image in
    host (little-endian) order and `Decode` reads such an image back, which
    is what the source's pointer casts and `memcpy` do. */
module Packet {
  import opened Bytes
  import opened Checksum

  const PacketSize: nat := 64
  const HeaderLength: nat := 8
  /** `ICMP_PAYLOAD_LENGTH`, that is `64 - sizeof(struct icmphdr)`. */
  const PayloadLength: nat := PacketSize - HeaderLength

  const ICMP_ECHOREPLY: byte := 0
  const ICMP_ECHO: byte := 8

  type Payload = s: seq<byte> | |s| == PayloadLength witness seq(56, _ => 0)

  datatype EchoPacket = EchoPacket(
    icmpType: byte,
    code: byte,
    checksum: u16,
    id: u16,
    sequence: u16,
    payload: Payload)

  /** The 64 bytes of memory that hold the packet. */
  function Encode(p: EchoPacket): (b: seq<byte>)
    ensures |b| == PacketSize
    ensures b[HeaderLength..] == p.payload
  {
    [p.icmpType, p.code, Lo(p.checksum), Hi(p.checksum),
     Lo(p.id), Hi(p.id), Lo(p.sequence), Hi(p.sequence)] + p.payload
  }

  /** The packet whose memory image is `b`. */
  function Decode(b: seq<byte>): EchoPacket
    requires |b| == PacketSize
  {
    EchoPacket(b[0], b[1], Word(b[2], b[3]), Word(b[4], b[5]), Word(b[6], b[7]), b[HeaderLength..])
  }

  lemma DecodeEncode(p: EchoPacket)
    ensures Decode(Encode(p)) == p
  {
    WordOfHalves(p.checksum);
    WordOfHalves(p.id);
    WordOfHalves(p.sequence);
  }

  lemma EncodeDecode(b: seq<byte>)
    requires |b| == PacketSize
    ensures Encode(Decode(b)) == b
  {
    HalvesOfWord(b[2], b[3]);
    HalvesOfWord(b[4], b[5]);
    HalvesOfWord(b[6], b[7]);
    var e := Encode(Decode(b));
    assert e[..HeaderLength] == b[..HeaderLength];
    assert e == e[..HeaderLength] + e[HeaderLength..];
    assert b == b[..HeaderLength] + b[HeaderLength..];
  }

  /** Storing a checksum changes exactly bytes 2 and 3 of the image. */
  lemma EncodeWithChecksum(p: EchoPacket, c: u16)
    ensures Encode(p.(checksum := c)) == Encode(p)[2 := Lo(c)][3 := Hi(c)]
  {
  }

  /** The word sum of a packet splits into its header fields and payload;
      the checksum field contributes its own value. */
  lemma EncodedWordSum(p: EchoPacket)
    ensures WordSum(Encode(p))
         == Word(p.icmpType, p.code) + p.checksum + p.id + p.sequence + WordSum(p.payload)
  {
    var e := Encode(p);
    var e1, e2, e3 := e[2..], e[4..], e[6..];
    assert e1[2..] == e2 && e2[2..] == e3 && e3[2..] == p.payload;
    assert WordSum(e) == Word(p.icmpType, p.code) + WordSum(e1);
    assert WordSum(e1) == Word(Lo(p.checksum), Hi(p.checksum)) + WordSum(e2);
    assert WordSum(e2) == Word(Lo(p.id), Hi(p.id)) + WordSum(e3);
    assert WordSum(e3) == Word(Lo(p.sequence), Hi(p.sequence)) + WordSum(p.payload);
    WordOfHalves(p.checksum);
    WordOfHalves(p.id);
    WordOfHalves(p.sequence);
  }

  /** The checksum as the source stores it: computed over the packet while
      the checksum field is still zero, and written last. */
  function Seal(p: EchoPacket): EchoPacket
  {
    var blank := p.(checksum := 0);
    blank.(checksum := InternetChecksum(Encode(blank)))
  }

  /** A sealed packet passes the receiver's check of RFC 1071, section 1:
      the checksum recomputed over the whole packet, checksum included, is 0. */
  lemma SealVerifies(p: EchoPacket)
    ensures Seal(p).checksum == InternetChecksum(Encode(p.(checksum := 0)))
    ensures InternetChecksum(Encode(Seal(p))) == 0
    ensures Seal(p) == p.(checksum := Seal(p).checksum)
  {
    var blank := p.(checksum := 0);
    var s := WordSum(Encode(blank));
    var c := InternetChecksum(Encode(blank));
    var sealed := blank.(checksum := c);
    assert Seal(p) == sealed;
    EncodedWordSum(blank);
    EncodedWordSum(sealed);
    WordSumBound(p.payload);
    assert s < 0xFFFF_0000;
    ChecksumNoWrap(Encode(blank));
    assert WordSum(Encode(sealed)) == s + c;
    ChecksumVerifies(Encode(sealed), s);
  }

  /** The payload `'0' + i` for every i below `PayloadLength`. */
  function Pattern(): Payload
  {
    seq(PayloadLength, i requires 0 <= i < PayloadLength => '0' as int + i)
  }

  /** The Echo Request that `initialize_icmp_packet` / `make_icmp_packet`
      produce for a process id: a zeroed packet with type 8, code 0, the
      process id truncated to 16 bits, sequence 0, the `'0' + i` payload,
      and the checksum computed last. */
  function EchoRequest(pid: int): EchoPacket
  {
    Seal(EchoPacket(ICMP_ECHO, 0, 0, Truncate16(pid), 0, Pattern()))
  }

  lemma EchoRequestLayout(pid: int)
    ensures var p := EchoRequest(pid);
      && p.icmpType == ICMP_ECHO && p.code == 0
      && p.id == Truncate16(pid) && p.sequence == 0
      && (forall i :: 0 <= i < PayloadLength ==> p.payload[i] == '0' as int + i)
      && p.checksum == InternetChecksum(Encode(p.(checksum := 0)))
      && InternetChecksum(Encode(p)) == 0
  {
    SealVerifies(EchoPacket(ICMP_ECHO, 0, 0, Truncate16(pid), 0, Pattern()));
  }

  /** `verify_reply`: the received packet is the reply to `sent` exactly
      when it is an Echo Reply with code 0, carries the expected identifier
      and echoes the whole payload byte for byte. A failing test means "not
      our reply", not an error; the reply's checksum is not examined. */
  function VerifyReply(sent: EchoPacket, received: EchoPacket, expectedId: int): (ok: bool)
    ensures ok <==> && received.icmpType == ICMP_ECHOREPLY
                    && received.code == 0
                    && received.id == expectedId
                    && received.payload == sent.payload
  {
    if received.icmpType != ICMP_ECHOREPLY then false
    else if received.code != 0 then false
    else if received.id != expectedId then false
    else if sent.payload != received.payload then false
    else true
  }

  /** What an RFC 792 responder returns for an Echo Request: the same
      identifier, sequence number and data, type 0, and a fresh checksum. */
  function EchoReply(request: EchoPacket): EchoPacket
  {
    Seal(request.(icmpType := ICMP_ECHOREPLY))
  }

  /** The genuine reply to our request is accepted and carries a valid
      checksum, while our own request seen again (as a raw socket on the
      loopback interface does) is not mistaken for it. */
  lemma GenuineReplyAccepted(pid: int)
    ensures VerifyReply(EchoRequest(pid), EchoReply(EchoRequest(pid)), Truncate16(pid))
    ensures InternetChecksum(Encode(EchoReply(EchoRequest(pid)))) == 0
    ensures !VerifyReply(EchoRequest(pid), EchoRequest(pid), Truncate16(pid))
  {
    var request := EchoRequest(pid);
    EchoRequestLayout(pid);
    SealVerifies(request.(icmpType := ICMP_ECHOREPLY));
  }
}
