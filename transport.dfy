/** What the ping engine sees of the raw ICMP socket and the clock. The
    socket calls themselves are outside the model: each receive is given
    as the datagram (if any) the kernel has for it, and each setup call as
    the status it returned. Clock readings are integer nanoseconds of the
    monotonic clock; timeouts are in milliseconds. */
module Transport {
  import opened Bytes
  import opened Packet

  /** Raw ICMP sockets deliver the 20-byte IPv4 header before the ICMP message. */
  const IpHeaderLength: nat := 20
  /** `raw_icmp_response_length`: the only frame size that is decoded. */
  const RawResponseLength: nat := IpHeaderLength + PacketSize
  const NsPerMs: int := 1_000_000

  datatype Error = ResolveFailed | SocketFailed | TtlFailed | ReceiveTimeoutFailed | SendFailed

  datatype Outcome = Pass | Fail(error: Error)

  datatype Result<T> = Ok(value: T) | Err(error: Error)

  /** What the kernel has for one blocking receive: nothing before the
      socket's receive timeout (recvfrom returns -1), or one datagram. */
  datatype Arrival = NoData | Datagram(bytes: seq<byte>)

  /** What recvfrom reports: its return value and the bytes it wrote. */
  datatype Reception = Reception(count: int, data: seq<byte>)

  /** recvfrom into a buffer of `capacity` bytes: a datagram longer than
      the buffer is truncated to it and the truncated length is returned. */
  function RecvFrom(a: Arrival, capacity: nat): (r: Reception)
    ensures r.count < 0 <==> a.NoData?
    ensures a.NoData? ==> r.count == -1
    ensures r.count >= 0 ==> (a.Datagram? && |r.data| == r.count <= capacity
                              && r.count <= |a.bytes| && r.data == a.bytes[..r.count])
    ensures a.Datagram? ==> (r.count == capacity <==> |a.bytes| >= capacity)
    ensures a.Datagram? && |a.bytes| < capacity ==> r.data == a.bytes
  {
    match a
    case NoData => Reception(-1, [])
    case Datagram(bytes) =>
      if |bytes| <= capacity then Reception(|bytes|, bytes)
      else Reception(capacity, bytes[..capacity])
  }

  /** A receive that `icmp_ping` accepts as the reply to `sent`: recvfrom
      filled exactly `RawResponseLength` bytes, and the ICMP message after
      the IPv4 header passes `VerifyReply` against `sent` and `id`. */
  predicate Accepts(a: Arrival, sent: EchoPacket, id: int)
  {
    var r := RecvFrom(a, RawResponseLength);
    r.count == RawResponseLength && VerifyReply(sent, Decode(r.data[IpHeaderLength..]), id)
  }

  /** A receive that counts as the reply to this process's Echo Request. */
  predicate Matches(a: Arrival, pid: int)
  {
    Accepts(a, EchoRequest(pid), Truncate16(pid))
  }

  /** Too short a frame, or nothing at all, is never decoded, let alone
      matched; a matching frame carries our identifier and the Echo Reply type. */
  lemma MatchesOnlyFullFrames(a: Arrival, pid: int)
    ensures a.NoData? || |a.bytes| < RawResponseLength ==> !Matches(a, pid)
    ensures Matches(a, pid) ==>
      var reply := Decode(a.bytes[IpHeaderLength..RawResponseLength]);
      reply.id == Truncate16(pid) && reply.icmpType == ICMP_ECHOREPLY
  {
  }

  /** The frame a responder sends back: an IPv4 header and the ICMP message. */
  function Frame(ipHeader: seq<byte>, icmp: EchoPacket): (b: seq<byte>)
    requires |ipHeader| == IpHeaderLength
    ensures |b| == RawResponseLength
    ensures b[IpHeaderLength..] == Encode(icmp)
  {
    ipHeader + Encode(icmp)
  }

  /** The genuine reply is matched, whatever IPv4 header precedes it. */
  lemma GenuineFrameMatches(ipHeader: seq<byte>, pid: int)
    requires |ipHeader| == IpHeaderLength
    ensures Matches(Datagram(Frame(ipHeader, EchoReply(EchoRequest(pid)))), pid)
  {
    var request := EchoRequest(pid);
    var reply := EchoReply(request);
    var frame := Frame(ipHeader, reply);
    var r := RecvFrom(Datagram(frame), RawResponseLength);
    assert r.count == RawResponseLength && r.data == frame;
    DecodeEncode(reply);
  }

  /** A reply carrying another process's identifier is never matched. */
  lemma ForeignFrameIgnored(ipHeader: seq<byte>, reply: EchoPacket, pid: int)
    requires |ipHeader| == IpHeaderLength
    requires reply.id != Truncate16(pid)
    ensures !Matches(Datagram(Frame(ipHeader, reply)), pid)
  {
    var frame := Frame(ipHeader, reply);
    var r := RecvFrom(Datagram(frame), RawResponseLength);
    assert r.count == RawResponseLength && r.data == frame;
    DecodeEncode(reply);
    assert Decode(r.data[IpHeaderLength..]) == reply;
  }

  /** The `timeval` that receive timeouts are decomposed into. */
  datatype TimeVal = TimeVal(seconds: int, useconds: int)

  /** C integer division, which truncates toward zero. */
  function CDiv(a: int, b: int): int
    requires b > 0
  {
    if a >= 0 then a / b else -((-a) / b)
  }

  /** `set_receive_timeout`'s arithmetic: whole seconds, and the remaining
      milliseconds as microseconds. The split loses nothing, and for a
      non-negative timeout the microseconds are a proper remainder. */
  function SplitTimeout(timeoutMs: int): (tv: TimeVal)
    ensures tv.seconds * 1_000_000 + tv.useconds == timeoutMs * 1000
    ensures timeoutMs >= 0 ==> 0 <= tv.useconds < 1_000_000 && 0 <= tv.seconds
    ensures timeoutMs < 0 ==> -1_000_000 < tv.useconds <= 0 && tv.seconds <= 0
  {
    var seconds := CDiv(timeoutMs, 1000);
    var useconds := (timeoutMs - seconds * 1000) * 1000;
    TimeVal(seconds, useconds)
  }

  /** The statuses the setup calls returned: whether name resolution
      succeeded, the descriptor `socket` returned, and the results of the
      two `setsockopt` calls (0 is success). */
  datatype Setup = Setup(resolved: bool, socketFd: int, ttlStatus: int, timeoutStatus: int)
  {
    predicate Ready()
    {
      resolved && socketFd >= 0 && ttlStatus == 0 && timeoutStatus == 0
    }
  }
}
