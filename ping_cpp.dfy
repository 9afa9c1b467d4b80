/** The C++ implementation, src/cpp/ping.cpp. Here `ping_pkt` is a value
    (`EchoPacket`) that the functions pass and return; the socket is the
    `icmp_socket` class, whose receive buffer is updated in place. A C++
    exception becomes an `Err`/`Failed` result naming what failed. */
module PingCpp {
  import opened Bytes
  import opened Checksum
  import opened Packet
  import opened Hex
  import opened Transport

  /** `to_hex_string`: appends `{0:02X} ` per byte, a `;`, then each byte
      as a character, or `.` when the `char` is below 32. */
  method ToHexString(data: seq<byte>) returns (result: string)
    ensures result == HexDump(data)
  {
    result := [];
    for i := 0 to |data|
      invariant result == HexColumn(data[..i])
    {
      assert data[..i + 1][..i] == data[..i];
      result := result + HexByte(data[i]);
    }
    assert data[..|data|] == data;
    result := result + [';'];
    ghost var hexColumn := result;
    var text: string := [];
    for i := 0 to |data|
      invariant result == hexColumn + text && text == TextColumn(data[..i])
    {
      assert data[..i + 1][..i] == data[..i];
      if SignedChar(data[i]) < 32 {
        result, text := result + ['.'], text + ['.'];
        continue;
      }
      result, text := result + [data[i] as char], text + [data[i] as char];
    }
  }

  /** `calculate_checksum`: the same word walk as the C version, over the
      memory of the `ping_pkt` it is given. */
  method CalculateChecksum(packet: EchoPacket) returns (r: u16)
    ensures r == InternetChecksum(Encode(packet))
  {
    r := WalkWords(Encode(packet));
  }

  /** The loop of `calculate_checksum`, over the struct's memory `view`:
      sums its 16-bit words into an `unsigned int`, folds and complements. */
  method WalkWords(view: seq<byte>) returns (r: u16)
    requires |view| == PacketSize
    ensures r == InternetChecksum(view)
  {
    var size := |view|;
    var at := 0;
    ghost var words := 0;
    var sum := 0;
    while size > 1
      invariant at == 2 * words && size == |view| - at && 0 <= size
      invariant sum == PrefixSum(view, words) && sum <= 0xFFFF * words
    {
      sum := sum + Word(view[at], view[at + 1]);
      at, size := at + 2, size - 2;
      words := words + 1;
    }
    if size == 1 {
      assert false;
    }
    PrefixSumIsWordSum(view, words);
    assert view[..at] == view;
    var once := sum / 0x1_0000 + sum % 0x1_0000;
    var twice := once + once / 0x1_0000;
    ChecksumSteps(view, once, twice);
    r := 0xFFFF - twice % 0x1_0000;
  }

  /** `make_icmp_packet`: a zero-initialised packet, the Echo Request header
      fields, the payload pattern, and the checksum computed last, over
      everything else. The result is the Echo Request of this process. */
  method MakeIcmpPacket(pid: int) returns (p: EchoPacket)
    ensures p == EchoRequest(pid)
  {
    p := EchoPacket(0, 0, 0, 0, 0, seq(PayloadLength, _ => 0));
    p := p.(icmpType := ICMP_ECHO);
    p := p.(id := Truncate16(pid));
    p := p.(sequence := 0);
    for i := 0 to PayloadLength
      invariant p.icmpType == ICMP_ECHO && p.code == 0 && p.checksum == 0
      invariant p.id == Truncate16(pid) && p.sequence == 0
      invariant forall j :: 0 <= j < i ==> p.payload[j] == '0' as int + j
    {
      p := p.(payload := p.payload[i := '0' as int + i]);
    }
    assert p.payload == Pattern();
    var checksum := CalculateChecksum(p);
    p := p.(checksum := checksum);
  }

  /** `std::vector::resize`: keeps the first `n` elements and pads with zeros. */
  function Resize(s: seq<byte>, n: nat): (r: seq<byte>)
    ensures |r| == n
    ensures forall i :: 0 <= i < n ==> r[i] == if i < |s| then s[i] else 0
  {
    if n <= |s| then s[..n] else s + seq(n - |s|, _ => 0)
  }

  /** `icmp_socket`: a raw ICMP socket and the buffer its `receive` fills. */
  class IcmpSocket {
    var socketFd: int
    var receiveBuffer: seq<byte>

    constructor Opened(fd: int)
      ensures socketFd == fd && receiveBuffer == []
    {
      socketFd := fd;
      receiveBuffer := [];
    }

    /** The `icmp_socket` constructor: the name lookup, then `socket`; each
        failure throws, and the first one is reported. */
    static method Open(resolved: bool, fd: int) returns (r: Result<IcmpSocket>)
      ensures r.Ok? <==> resolved && fd >= 0
      ensures !resolved ==> r == Err(ResolveFailed)
      ensures resolved && fd < 0 ==> r == Err(SocketFailed)
      ensures r.Ok? ==> fresh(r.value) && r.value.socketFd == fd && r.value.receiveBuffer == []
    {
      if !resolved {
        return Err(ResolveFailed);
      }
      if fd < 0 {
        return Err(SocketFailed);
      }
      var socket := new IcmpSocket.Opened(fd);
      return Ok(socket);
    }

    /** `set_TTL`: throws unless `setsockopt` returned 0. */
    method SetTtl(status: int) returns (o: Outcome)
      ensures o == Pass <==> status == 0
      ensures o != Pass ==> o == Fail(TtlFailed)
    {
      if status != 0 {
        return Fail(TtlFailed);
      }
      return Pass;
    }

    /** `set_receive_timeout`: the `timeval` it hands to `setsockopt` holds
        the whole timeout, split as in the C version; it throws unless
        `setsockopt` returned 0. */
    method SetReceiveTimeout(timeoutMs: int, status: int) returns (tv: TimeVal, o: Outcome)
      ensures tv == SplitTimeout(timeoutMs)
      ensures tv.seconds * 1_000_000 + tv.useconds == timeoutMs * 1000
      ensures timeoutMs >= 0 ==> 0 <= tv.useconds < 1_000_000
      ensures o == Pass <==> status == 0
      ensures o != Pass ==> o == Fail(ReceiveTimeoutFailed)
    {
      tv := SplitTimeout(timeoutMs);
      if status != 0 {
        return tv, Fail(ReceiveTimeoutFailed);
      }
      return tv, Pass;
    }

    /** `receive`: resizes the buffer to `bytes`, lets `recvfrom` fill it,
        and returns nothing when `recvfrom` returned 0 or less; otherwise the
        buffer is cut to the bytes received, and those are returned. */
    method Receive(bytes: nat, a: Arrival) returns (data: seq<byte>)
      modifies this
      ensures var r := RecvFrom(a, bytes);
        && (r.count <= 0 ==> data == [] && receiveBuffer == Resize(old(receiveBuffer), bytes))
        && (r.count > 0 ==> data == r.data && receiveBuffer == data)
      ensures |data| <= bytes && socketFd == old(socketFd)
    {
      receiveBuffer := Resize(receiveBuffer, bytes);
      var r := RecvFrom(a, |receiveBuffer|);
      if r.count <= 0 {
        return [];
      }
      receiveBuffer := r.data + receiveBuffer[r.count..];
      receiveBuffer := Resize(receiveBuffer, r.count);
      data := receiveBuffer;
    }

    /** `send`: throws when `sendto` returned 0 or less. */
    method Send(data: seq<byte>, status: int) returns (o: Outcome)
      ensures o == Pass <==> status > 0
      ensures o != Pass ==> o == Fail(SendFailed)
    {
      if status <= 0 {
        return Fail(SendFailed);
      }
      return Pass;
    }

    /** `send_object`: sends the memory image of the object. */
    method SendObject(p: EchoPacket, status: int) returns (o: Outcome)
      ensures o == Pass <==> status > 0
      ensures o != Pass ==> o == Fail(SendFailed)
    {
      o := Send(Encode(p), status);
    }

    /** `get_received_data<ping_pkt>`: the packet whose memory is the
        buffer's bytes from `offset` on, which must all be there. */
    function GetReceivedData(offset: nat): (p: EchoPacket)
      reads this
      requires offset + PacketSize <= |receiveBuffer|
      ensures Encode(p) == receiveBuffer[offset..offset + PacketSize]
    {
      EncodeDecode(receiveBuffer[offset..offset + PacketSize]);
      Decode(receiveBuffer[offset..offset + PacketSize])
    }
  }

  /** What `ping` returns: the time to the reply, or nothing after the
      deadline. A thrown exception is `Failed`. */
  datatype PingResult = Reply(durationNs: int) | TimedOut | Failed(error: Error)

  /** One pass of the loop: the clock read by the loop test, what the
      receive got, and the clock read right after it. */
  datatype Poll = Poll(before: int, arrival: Arrival, after: int)

  /** What the loop waits for: the reply to `sent`, with identifier `id`,
      timed from `start` and given up at `deadline`. */
  datatype Session = Session(sent: EchoPacket, id: int, start: int, deadline: int)
  {
    /** The pass leaves the loop: its test finds the deadline reached, or
        it receives the reply. */
    predicate Stops(p: Poll)
    {
      p.before >= deadline || Accepts(p.arrival, sent, id)
    }
  }

  /** The session `ping` starts: the deadline is read before the socket is
      even created, `start` just before the request is sent. */
  function SessionFor(pid: int, entry: int, timeoutMs: int, start: int): Session
  {
    Session(EchoRequest(pid), Truncate16(pid), start, entry + timeoutMs * NsPerMs)
  }

  /** The index of the first pass from `from` on that leaves the loop, or
      `|polls|` when none does. */
  function FirstStop(polls: seq<Poll>, from: nat, s: Session): (k: nat)
    requires from <= |polls|
    ensures from <= k <= |polls|
    ensures k < |polls| ==> s.Stops(polls[k])
    decreases |polls| - from
  {
    if from == |polls| || s.Stops(polls[from]) then from else FirstStop(polls, from + 1, s)
  }

  lemma {:induction false} FirstStopIsFirst(polls: seq<Poll>, from: nat, s: Session)
    requires from <= |polls|
    ensures forall j :: from <= j < FirstStop(polls, from, s) ==> !s.Stops(polls[j])
    ensures FirstStop(polls, from, s) < |polls| <==> exists j :: from <= j < |polls| && s.Stops(polls[j])
    decreases |polls| - from
  {
    if from < |polls| && !s.Stops(polls[from]) {
      FirstStopIsFirst(polls, from + 1, s);
    }
  }

  /** How the pass that leaves the loop ends it: with the duration from
      `start` to the clock read after the receive, when the test passed and
      the reply arrived; with nothing, when the test found the deadline. */
  function StopResult(p: Poll, s: Session): (r: PingResult)
    requires s.Stops(p)
    ensures r.Reply? <==> p.before < s.deadline
    ensures r.Reply? ==> Accepts(p.arrival, s.sent, s.id) && r.durationNs == p.after - s.start
    ensures !r.Failed?
  {
    if p.before < s.deadline then Reply(p.after - s.start) else TimedOut
  }

  /** The outcome of the receive loop over the passes the run makes. */
  function SessionResult(polls: seq<Poll>, s: Session): PingResult
    requires FirstStop(polls, 0, s) < |polls|
  {
    StopResult(polls[FirstStop(polls, 0, s)], s)
  }

  /** `ping`, with its exceptions as `Failed`: the socket, TTL 64, the
      receive timeout, the request, its sending, then the loop. */
  function PingSpec(setup: Setup, pid: int, timeoutMs: int, entry: int, start: int,
                    sendStatus: int, polls: seq<Poll>): PingResult
    requires setup.Ready() && sendStatus > 0 ==>
      FirstStop(polls, 0, SessionFor(pid, entry, timeoutMs, start)) < |polls|
  {
    if !setup.resolved then Failed(ResolveFailed)
    else if setup.socketFd < 0 then Failed(SocketFailed)
    else if setup.ttlStatus != 0 then Failed(TtlFailed)
    else if setup.timeoutStatus != 0 then Failed(ReceiveTimeoutFailed)
    else if sendStatus <= 0 then Failed(SendFailed)
    else SessionResult(polls, SessionFor(pid, entry, timeoutMs, start))
  }

  /** The `while (now() < deadline)` loop of `ping`. A frame is decoded only
      when `receive` returned exactly `RawResponseLength` bytes, and then the
      buffer holds exactly those. */
  method ReceiveLoop(socket: IcmpSocket, s: Session, polls: seq<Poll>) returns (r: PingResult)
    modifies socket
    requires FirstStop(polls, 0, s) < |polls|
    ensures r == SessionResult(polls, s)
    ensures socket.socketFd == old(socket.socketFd)
    ensures r.Reply? ==>
      socket.receiveBuffer == RecvFrom(polls[FirstStop(polls, 0, s)].arrival, RawResponseLength).data
  {
    var i := 0;
    while polls[i].before < s.deadline
      invariant i <= FirstStop(polls, 0, s)
      invariant FirstStop(polls, i, s) == FirstStop(polls, 0, s)
      invariant socket.socketFd == old(socket.socketFd)
      decreases |polls| - i
    {
      var dataReceived := socket.Receive(RawResponseLength, polls[i].arrival);
      ghost var received := RecvFrom(polls[i].arrival, RawResponseLength);
      var duration := polls[i].after - s.start;
      if |dataReceived| == RawResponseLength {
        assert received.count == RawResponseLength && socket.receiveBuffer == received.data;
        var data := socket.GetReceivedData(IpHeaderLength);
        assert received.data[IpHeaderLength..] == socket.receiveBuffer[IpHeaderLength..RawResponseLength];
        DecodeEncode(data);
        if VerifyReply(s.sent, data, s.id) {
          assert s.Stops(polls[i]);
          return Reply(duration);
        }
        assert !s.Stops(polls[i]);
        i := i + 1;
        continue;
      }
      assert !s.Stops(polls[i]);
      i := i + 1;
    }
    return TimedOut;
  }

  /** `ping`. */
  method Ping(setup: Setup, pid: int, timeoutMs: int, entry: int, start: int,
              sendStatus: int, polls: seq<Poll>) returns (r: PingResult)
    requires setup.Ready() && sendStatus > 0 ==>
      FirstStop(polls, 0, SessionFor(pid, entry, timeoutMs, start)) < |polls|
    ensures r == PingSpec(setup, pid, timeoutMs, entry, start, sendStatus, polls)
  {
    var deadline := entry + timeoutMs * NsPerMs;
    var created := IcmpSocket.Open(setup.resolved, setup.socketFd);
    if created.Err? {
      return Failed(created.error);
    }
    var socket := created.value;
    var ttl := socket.SetTtl(setup.ttlStatus);
    if ttl.Fail? {
      return Failed(ttl.error);
    }
    var _, timeout := socket.SetReceiveTimeout(timeoutMs, setup.timeoutStatus);
    if timeout.Fail? {
      return Failed(timeout.error);
    }
    var myId := Truncate16(pid);
    var packet := MakeIcmpPacket(pid);
    var sent := socket.SendObject(packet, sendStatus);
    if sent.Fail? {
      return Failed(sent.error);
    }
    var session := Session(packet, myId, start, deadline);
    assert session == SessionFor(pid, entry, timeoutMs, start);
    r := ReceiveLoop(socket, session, polls);
  }

  lemma FirstStopUnique(polls: seq<Poll>, s: Session, m: nat)
    requires m < |polls| && s.Stops(polls[m])
    requires forall j :: 0 <= j < m ==> !s.Stops(polls[j])
    ensures FirstStop(polls, 0, s) == m
  {
    FirstStopIsFirst(polls, 0, s);
  }

  /** `ping` returns a duration exactly when some pass, its loop test still
      before the deadline, receives a full frame that verifies as the reply,
      with no earlier pass having left the loop; the duration is measured
      from the send to the clock read after that receive. */
  lemma SessionRepliesIff(polls: seq<Poll>, s: Session)
    requires FirstStop(polls, 0, s) < |polls|
    ensures SessionResult(polls, s).Reply? <==>
      exists k :: 0 <= k < |polls| && polls[k].before < s.deadline
                  && Accepts(polls[k].arrival, s.sent, s.id)
                  && forall j :: 0 <= j < k ==> !s.Stops(polls[j])
    ensures SessionResult(polls, s).Reply? ==>
      var k := FirstStop(polls, 0, s);
      && SessionResult(polls, s).durationNs == polls[k].after - s.start
      && RecvFrom(polls[k].arrival, RawResponseLength).count == RawResponseLength
  {
    FirstStopIsFirst(polls, 0, s);
    if exists m :: 0 <= m < |polls| && polls[m].before < s.deadline
                   && Accepts(polls[m].arrival, s.sent, s.id)
                   && forall j :: 0 <= j < m ==> !s.Stops(polls[j]) {
      var m :| 0 <= m < |polls| && polls[m].before < s.deadline
               && Accepts(polls[m].arrival, s.sent, s.id)
               && forall j :: 0 <= j < m ==> !s.Stops(polls[j]);
      FirstStopUnique(polls, s, m);
    }
  }

  /** `ping` gives up only at a loop test that finds the deadline reached,
      and only when no pass before it received the reply: a reply that came
      in time is never lost. */
  lemma SessionTimesOutOnlyAtDeadline(polls: seq<Poll>, s: Session)
    requires FirstStop(polls, 0, s) < |polls|
    ensures SessionResult(polls, s).TimedOut? <==>
      exists k :: 0 <= k < |polls| && polls[k].before >= s.deadline
                  && forall j :: 0 <= j < k ==> (polls[j].before < s.deadline
                                              && !Accepts(polls[j].arrival, s.sent, s.id))
  {
    var k := FirstStop(polls, 0, s);
    FirstStopIsFirst(polls, 0, s);
    if SessionResult(polls, s).TimedOut? {
      assert polls[k].before >= s.deadline;
      forall j | 0 <= j < k
        ensures polls[j].before < s.deadline && !Accepts(polls[j].arrival, s.sent, s.id)
      {
        assert !s.Stops(polls[j]);
      }
    }
    if exists m :: 0 <= m < |polls| && polls[m].before >= s.deadline
                   && forall j :: 0 <= j < m ==> (polls[j].before < s.deadline
                                               && !Accepts(polls[j].arrival, s.sent, s.id)) {
      var m :| 0 <= m < |polls| && polls[m].before >= s.deadline
               && forall j :: 0 <= j < m ==> (polls[j].before < s.deadline
                                           && !Accepts(polls[j].arrival, s.sent, s.id));
      FirstStopUnique(polls, s, m);
    }
  }

  /** When nothing arrives, `ping` returns nothing, at the first loop test
      that finds the deadline reached. */
  lemma SilenceTimesOut(polls: seq<Poll>, s: Session)
    requires FirstStop(polls, 0, s) < |polls|
    requires forall j :: 0 <= j < |polls| ==> polls[j].arrival.NoData?
    ensures SessionResult(polls, s) == TimedOut
    ensures polls[FirstStop(polls, 0, s)].before >= s.deadline
  {
  }

  /** With a zero timeout the deadline is the entry time itself, so the
      first loop test, which reads the clock no earlier than that, ends
      `ping` with nothing and no receive is made. */
  lemma ZeroTimeoutGivesUp(setup: Setup, pid: int, entry: int, start: int,
                           sendStatus: int, polls: seq<Poll>)
    requires setup.Ready() && sendStatus > 0
    requires |polls| > 0 && polls[0].before >= entry
    ensures FirstStop(polls, 0, SessionFor(pid, entry, 0, start)) == 0
    ensures PingSpec(setup, pid, 0, entry, start, sendStatus, polls) == TimedOut
  {
  }

  /** An unrelated Echo Reply received before the deadline is skipped, and
      the genuine reply received after it, still before the deadline, ends
      `ping` with the time from the send to that receive. */
  lemma ForeignThenGenuineReplies(setup: Setup, pid: int, timeoutMs: int, entry: int, start: int,
                                  sendStatus: int, ipHeader: seq<byte>, foreign: EchoPacket,
                                  t1: int, t2: int, t3: int, t4: int)
    requires setup.Ready() && sendStatus > 0 && |ipHeader| == IpHeaderLength
    requires foreign.id != Truncate16(pid)
    requires t1 < entry + timeoutMs * NsPerMs && t3 < entry + timeoutMs * NsPerMs
    ensures var polls := [Poll(t1, Datagram(Frame(ipHeader, foreign)), t2),
                          Poll(t3, Datagram(Frame(ipHeader, EchoReply(EchoRequest(pid)))), t4)];
      && FirstStop(polls, 0, SessionFor(pid, entry, timeoutMs, start)) < |polls|
      && PingSpec(setup, pid, timeoutMs, entry, start, sendStatus, polls) == Reply(t4 - start)
  {
    var s := SessionFor(pid, entry, timeoutMs, start);
    var polls := [Poll(t1, Datagram(Frame(ipHeader, foreign)), t2),
                  Poll(t3, Datagram(Frame(ipHeader, EchoReply(EchoRequest(pid)))), t4)];
    ForeignFrameIgnored(ipHeader, foreign, pid);
    GenuineFrameMatches(ipHeader, pid);
    assert !s.Stops(polls[0]);
    assert s.Stops(polls[1]);
    assert FirstStop(polls, 1, s) == 1;
  }

  /** How many times `main` pings, and the timeout of each ping. */
  const Attempts: nat := 4
  const MainTimeoutMs: int := 2500

  /** One `ping` call made by `main`: the statuses its setup calls and its
      send return, the clock readings at entry and at the send, and the
      passes of its loop. */
  datatype Attempt = Attempt(setup: Setup, entry: int, start: int, sendStatus: int, polls: seq<Poll>)

  /** The attempt's loop ends within its passes (or an exception comes first). */
  predicate Ends(a: Attempt, pid: int)
  {
    a.setup.Ready() && a.sendStatus > 0 ==>
      FirstStop(a.polls, 0, SessionFor(pid, a.entry, MainTimeoutMs, a.start)) < |a.polls|
  }

  function AttemptResult(a: Attempt, pid: int): PingResult
    requires Ends(a, pid)
  {
    PingSpec(a.setup, pid, MainTimeoutMs, a.entry, a.start, a.sendStatus, a.polls)
  }

  /** How the C++ program ends: with the value `main` returns, or terminated by an
      exception nobody catches. */
  datatype Exit = Exited(code: int) | Terminated(error: Error)

  /** `main`: -1 without a host argument; otherwise four pings with a
      2500 ms timeout, and `main` returns 0 whether they replied or timed out.
      The first ping whose setup or send throws terminates the program. */
  method MainExit(argc: int, pid: int, attempts: seq<Attempt>) returns (exit: Exit)
    requires |attempts| == Attempts
    requires forall i :: 0 <= i < |attempts| ==> Ends(attempts[i], pid)
    ensures argc < 2 ==> exit == Exited(-1)
    ensures argc >= 2 ==> (exit == Exited(0) <==> forall i :: 0 <= i < |attempts| ==> !AttemptResult(attempts[i], pid).Failed?)
    ensures argc >= 2 && exit.Terminated? ==>
      exists i :: 0 <= i < |attempts| && AttemptResult(attempts[i], pid) == Failed(exit.error)
                  && forall j :: 0 <= j < i ==> !AttemptResult(attempts[j], pid).Failed?
    ensures argc >= 2 ==> exit == Exited(0) || exit.Terminated?
  {
    if argc < 2 {
      return Exited(-1);
    }
    for i := 0 to Attempts
      invariant forall j :: 0 <= j < i ==> !AttemptResult(attempts[j], pid).Failed?
    {
      var a := attempts[i];
      var result := Ping(a.setup, pid, MainTimeoutMs, a.entry, a.start, a.sendStatus, a.polls);
      if result.Failed? {
        return Terminated(result.error);
      }
    }
    return Exited(0);
  }
}
