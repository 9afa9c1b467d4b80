/** The C implementation, src/c/ping.c. Its `struct ping_pkt` is modelled as
    the 64 bytes of memory that hold it, since `calculate_checksum` reads
    that memory through an `unsigned short` pointer. */
module PingC {
  import opened Bytes
  import opened Checksum
  import opened Packet
  import opened Hex
  import opened Transport

  /** `calculate_checksum`: walks the packet memory a 16-bit word at a time
      into an `unsigned int` accumulator, then folds and complements. */
  method CalculateChecksum(packet: array<byte>) returns (r: u16)
    requires packet.Length == PacketSize
    ensures r == InternetChecksum(packet[..])
  {
    ghost var view := packet[..];
    var size := packet.Length;
    var at := 0;  // byte offset of the word `view` points at
    ghost var words := 0;
    var sum := 0;
    while size > 1
      invariant at == 2 * words && size == |view| - at && 0 <= size
      invariant sum == PrefixSum(view, words) && sum <= 0xFFFF * words
    {
      // the `unsigned int` accumulator never wraps: 32 words of at most 0xFFFF
      sum := sum + Word(packet[at], packet[at + 1]);
      at, size := at + 2, size - 2;
      words := words + 1;
    }
    if size == 1 {
      // the trailing odd byte: a ping_pkt has an even size, so never
      assert false;
    }
    PrefixSumIsWordSum(view, words);
    assert view[..at] == view;
    var once := sum / 0x1_0000 + sum % 0x1_0000;  // sum = (sum >> 16) + (sum & 0xFFFF)
    var twice := once + once / 0x1_0000;          // sum += (sum >> 16)
    ChecksumSteps(view, once, twice);
    r := 0xFFFF - twice % 0x1_0000;               // ~sum, truncated to unsigned short
  }

  /** `initialize_icmp_packet`: zeroes the packet, sets type, identifier and
      sequence, fills the payload with `'0' + i`, and only then computes the
      checksum and stores it. The result is the memory image of the Echo
      Request for this process id. */
  method InitializeIcmpPacket(packet: array<byte>, pid: int)
    requires packet.Length == PacketSize
    modifies packet
    ensures Decode(packet[..]) == EchoRequest(pid)
  {
    forall i | 0 <= i < packet.Length {
      packet[i] := 0;
    }
    var id := Truncate16(pid);
    packet[0] := ICMP_ECHO;
    packet[4], packet[5] := Lo(id), Hi(id);
    packet[6], packet[7] := 0, 0;
    for i := 0 to PayloadLength
      invariant packet[..HeaderLength] == [ICMP_ECHO, 0, 0, 0, Lo(id), Hi(id), 0, 0]
      invariant forall j :: HeaderLength <= j < HeaderLength + i ==> packet[j] == '0' as int + (j - HeaderLength)
    {
      packet[HeaderLength + i] := '0' as int + i;
    }
    var blank := EchoPacket(ICMP_ECHO, 0, 0, id, 0, Pattern());
    assert packet[..] == Encode(blank) by {
      assert packet[HeaderLength..] == Pattern();
      assert packet[..] == packet[..HeaderLength] + packet[HeaderLength..];
    }
    ghost var unsealed: seq<byte> := packet[..];
    var checksum := CalculateChecksum(packet);
    packet[2] := Lo(checksum);
    packet[3] := Hi(checksum);
    assert packet[..] == unsealed[2 := Lo(checksum)][3 := Hi(checksum)];
    EncodeWithChecksum(blank, checksum);
    DecodeEncode(EchoRequest(pid));
  }

  /** `struct ping_pkt packet; initialize_icmp_packet(&packet);` in
      `icmp_ping`: the packet that is sent, as the struct `verify_reply`
      later reads it. */
  method PrepareRequest(pid: int) returns (sent: EchoPacket)
    ensures sent == EchoRequest(pid)
  {
    var packet := new byte[PacketSize];
    InitializeIcmpPacket(packet, pid);
    sent := Decode(packet[..]);
  }

  /** Size of the static buffer `to_hex_string` writes into. */
  const HexBufferSize: nat := 1024

  /** The hex column of the buffer: `%02X ` per byte, three characters each. */
  predicate HexColumnWritten(buffer: array<char>, data: seq<byte>, upTo: nat)
    requires upTo <= |data| && 3 * upTo <= buffer.Length
    reads buffer
  {
    forall j :: 0 <= j < upTo ==>
      && buffer[3 * j] == HexDigit(data[j] / 16)
      && buffer[3 * j + 1] == HexDigit(data[j] % 16)
      && buffer[3 * j + 2] == ' '
  }

  /** The first loop of `to_hex_string`: `sprintf(write_pointer, "%02X ",
      data[i])` for each byte, advancing the write pointer by three. Each
      `sprintf` also stores a NUL, which the next write overwrites; the last
      one stays at the write pointer. Nothing after it is touched. */
  method WriteHexColumn(data: seq<byte>, buffer: array<char>) returns (w: nat)
    requires 4 * |data| + 2 <= buffer.Length
    modifies buffer
    ensures w == 3 * |data| && HexColumnWritten(buffer, data, |data|)
    ensures |data| > 0 ==> buffer[w] == '\0'
    ensures |data| == 0 ==> buffer[0] == old(buffer[0])
    ensures forall j :: w < j < buffer.Length ==> buffer[j] == old(buffer[j])
  {
    w := 0;
    for i := 0 to |data|
      invariant w == 3 * i
      invariant forall j :: 0 <= j < i ==>
        && buffer[3 * j] == HexDigit(data[j] / 16)
        && buffer[3 * j + 1] == HexDigit(data[j] % 16)
        && buffer[3 * j + 2] == ' '
      invariant i > 0 ==> buffer[w] == '\0'
      invariant i == 0 ==> buffer[0] == old(buffer[0])
      invariant forall j :: w < j < buffer.Length ==> buffer[j] == old(buffer[j])
    {
      var b := data[i];
      buffer[w] := HexDigit(b / 16);
      buffer[w + 1] := HexDigit(b % 16);
      buffer[w + 2] := ' ';
      buffer[w + 3] := '\0';
      w := w + 3;
    }
  }

  /** The second loop of `to_hex_string`, from write offset `from`: one
      character per byte, `.` for every byte whose signed `char` value is
      below 32. Nothing before `from` is touched. */
  method WriteTextColumn(data: seq<byte>, buffer: array<char>, from: nat) returns (w: nat)
    requires from + |data| < buffer.Length
    modifies buffer
    ensures w == from + |data|
    ensures forall j :: 0 <= j < |data| ==> buffer[from + j] == Shown(data[j])
    ensures buffer[..from] == old(buffer[..from])
    ensures forall j :: w <= j < buffer.Length ==> buffer[j] == old(buffer[j])
  {
    w := from;
    for i := 0 to |data|
      invariant w == from + i
      invariant forall j :: 0 <= j < i ==> buffer[from + j] == Shown(data[j])
      invariant buffer[..from] == old(buffer[..from])
      invariant forall j :: w <= j < buffer.Length ==> buffer[j] == old(buffer[j])
    {
      var c := SignedChar(data[i]);
      if c < 32 {
        buffer[w] := '.';
        w := w + 1;
        continue;
      }
      buffer[w] := data[i] as char;
      w := w + 1;
    }
  }

  /** The writes of `to_hex_string`: the hex column, `;`, the text column
      and the closing NUL, at write offset `w` on return. Nothing after the
      NUL is touched. */
  method WriteDump(data: seq<byte>, buffer: array<char>) returns (w: nat)
    requires 4 * |data| + 2 <= buffer.Length
    modifies buffer
    ensures w == 4 * |data| + 1 && HexColumnWritten(buffer, data, |data|)
    ensures buffer[3 * |data|] == ';' && buffer[w] == '\0'
    ensures forall j :: 0 <= j < |data| ==> buffer[3 * |data| + 1 + j] == Shown(data[j])
    ensures forall j :: w < j < buffer.Length ==> buffer[j] == old(buffer[j])
  {
    var n := |data|;
    w := WriteHexColumn(data, buffer);
    buffer[w] := ';';
    w := w + 1;
    ghost var column := buffer[..w];
    w := WriteTextColumn(data, buffer, w);
    buffer[w] := '\0';
    assert buffer[..3 * n + 1] == column;
    assert HexColumnWritten(buffer, data, n) by {
      forall j | 0 <= j < n
        ensures buffer[3 * j] == column[3 * j] && buffer[3 * j + 1] == column[3 * j + 1]
        ensures buffer[3 * j + 2] == column[3 * j + 2]
      {
      }
    }
  }

  /** `to_hex_string`: writes the dump of `data` into the static buffer
      through a write pointer and NUL-terminates it; the returned text is
      the buffer up to that NUL. The buffer holds the 4n+2 characters only
      for n <= 255 bytes; the source does not check. */
  method ToHexString(data: seq<byte>, buffer: array<char>) returns (text: string)
    requires buffer.Length == HexBufferSize && 4 * |data| + 2 <= buffer.Length
    modifies buffer
    ensures text == HexDump(data) && |text| == 4 * |data| + 1
    ensures buffer[..|text|] == text && buffer[|text|] == '\0'
    ensures forall j :: |text| < j < buffer.Length ==> buffer[j] == old(buffer[j])
    ensures forall k :: 0 <= k < |text| ==> text[k] != '\0'
  {
    var w := WriteDump(data, buffer);
    text := buffer[..w];
    HexDumpFromLayout(data, text);
    HexDumpHasNoNul(data);
  }

  /** What `icmp_ping` reports: -1 when the setup failed (the duration is
      not written then), 1 with the elapsed time when the reply arrived, and
      -2 with the elapsed time when the timeout passed first. */
  datatype PingStatus = SetupFailed | Replied(durationNs: int) | TimedOut(durationNs: int)
  {
    function Code(): (c: int)
      ensures c == -1 <==> this.SetupFailed?
      ensures c == 1 <==> this.Replied?
      ensures c == -2 <==> this.TimedOut?
    {
      match this
      case SetupFailed => -1
      case Replied(_) => 1
      case TimedOut(_) => -2
    }
  }

  /** One pass of the receive loop: what the kernel had for that receive and
      the monotonic clock reading taken right after it returned. */
  datatype Wait = Wait(arrival: Arrival, stop: int)

  /** What the receive loop of one `icmp_ping` call holds fixed: the packet
      it sent, the identifier it expects, when it sent, and its timeout. */
  datatype Watch = Watch(sent: EchoPacket, id: int, start: int, timeoutMs: int)
  {
    /** The loop's timeout test: more than `timeoutMs` since the send. */
    predicate Expired(w: Wait)
    {
      w.stop - start > timeoutMs * NsPerMs
    }

    /** A pass after which the loop ends: our reply arrived, or time ran out. */
    predicate Halts(w: Wait)
    {
      Accepts(w.arrival, sent, id) || Expired(w)
    }
  }

  /** The watch of the `icmp_ping` call made by process `pid`. */
  function WatchFor(pid: int, start: int, timeoutMs: int): Watch
  {
    Watch(EchoRequest(pid), Truncate16(pid), start, timeoutMs)
  }

  /** The first pass from `from` on that ends the loop, or `|waits|` when
      none does. */
  function FirstHalt(waits: seq<Wait>, from: nat, v: Watch): (k: nat)
    requires from <= |waits|
    ensures from <= k <= |waits|
    ensures k < |waits| ==> v.Halts(waits[k])
    decreases |waits| - from
  {
    if from == |waits| then from
    else if v.Halts(waits[from]) then from
    else FirstHalt(waits, from + 1, v)
  }

  /** `FirstHalt` is what its name says: every pass before it goes on, and a pass ending the loop exists exactly
      when it lies inside the script. */
  lemma {:induction false} FirstHaltIsFirst(waits: seq<Wait>, from: nat, v: Watch)
    requires from <= |waits|
    ensures var k := FirstHalt(waits, from, v);
      && (forall j :: from <= j < k ==> !v.Halts(waits[j]))
      && (k < |waits| <==> exists j :: from <= j < |waits| && v.Halts(waits[j]))
    decreases |waits| - from
  {
    if from < |waits| && !v.Halts(waits[from]) {
      FirstHaltIsFirst(waits, from + 1, v);
    }
  }

  /** The status the loop reports at a pass that ends it: a verified reply
      is reported even when the same pass also found the time up. */
  function HaltStatus(w: Wait, v: Watch): (s: PingStatus)
    requires v.Halts(w)
    ensures s.Replied? <==> Accepts(w.arrival, v.sent, v.id)
    ensures s.TimedOut? ==> v.Expired(w)
    ensures !s.SetupFailed? && s.durationNs == w.stop - v.start
  {
    if Accepts(w.arrival, v.sent, v.id) then Replied(w.stop - v.start) else TimedOut(w.stop - v.start)
  }

  /** What the receive loop of `icmp_ping` reports: the status of the first
      pass that ends it. */
  function Await(waits: seq<Wait>, v: Watch): PingStatus
    requires FirstHalt(waits, 0, v) < |waits|
  {
    HaltStatus(waits[FirstHalt(waits, 0, v)], v)
  }

  /** `icmp_ping` on the statuses its setup calls returned and the passes
      its receive loop makes. */
  function IcmpPingSpec(setup: Setup, pid: int, timeoutMs: int, start: int, waits: seq<Wait>): PingStatus
    requires setup.Ready() ==> FirstHalt(waits, 0, WatchFor(pid, start, timeoutMs)) < |waits|
  {
    if setup.Ready() then Await(waits, WatchFor(pid, start, timeoutMs)) else SetupFailed
  }

  /** The receive loop of `icmp_ping`: each pass receives into a buffer of
      `RawResponseLength` bytes, reads the clock, marks the loop done once
      more than the timeout has passed, and returns 1 as soon as a frame of
      exactly that length verifies; anything else is skipped. */
  method ReceiveLoop(v: Watch, waits: seq<Wait>) returns (status: PingStatus)
    requires FirstHalt(waits, 0, v) < |waits|
    ensures status == Await(waits, v)
  {
    var done := false;
    var i := 0;
    var durationNs := 0;
    while !done
      invariant i <= |waits|
      invariant !done ==> FirstHalt(waits, i, v) == FirstHalt(waits, 0, v)
      invariant done ==> Await(waits, v) == TimedOut(durationNs)
      decreases |waits| - i, !done
    {
      var r := RecvFrom(waits[i].arrival, RawResponseLength);
      durationNs := waits[i].stop - v.start;
      if durationNs > v.timeoutMs * NsPerMs {
        done := true;
      }
      if r.count == RawResponseLength {
        var data := Decode(r.data[IpHeaderLength..]);
        if VerifyReply(v.sent, data, v.id) {
          return Replied(durationNs);
        }
        i := i + 1;
        continue;
      }
      i := i + 1;
    }
    return TimedOut(durationNs);
  }

  /** `icmp_ping`: the setup calls in order, any failure giving -1; then
      the Echo Request is built and sent (`sendto`'s result is not looked
      at) and the receive loop runs. */
  method IcmpPing(setup: Setup, pid: int, timeoutMs: int, start: int, waits: seq<Wait>)
    returns (status: PingStatus)
    requires setup.Ready() ==> FirstHalt(waits, 0, WatchFor(pid, start, timeoutMs)) < |waits|
    ensures status == IcmpPingSpec(setup, pid, timeoutMs, start, waits)
  {
    if !setup.resolved {
      return SetupFailed;
    }
    if setup.socketFd < 0 {
      return SetupFailed;
    }
    if setup.ttlStatus != 0 {
      return SetupFailed;
    }
    if setup.timeoutStatus != 0 {
      return SetupFailed;
    }
    var myId := Truncate16(pid);
    var sent := PrepareRequest(pid);
    status := ReceiveLoop(Watch(sent, myId, start, timeoutMs), waits);
  }

  /** A pass that ends the loop with no earlier pass doing so is the first. */
  lemma FirstHaltUnique(waits: seq<Wait>, v: Watch, m: nat)
    requires m < |waits| && v.Halts(waits[m])
    requires forall j :: 0 <= j < m ==> !v.Halts(waits[j])
    ensures FirstHalt(waits, 0, v) == m
  {
    FirstHaltIsFirst(waits, 0, v);
  }

  /** The loop reports a reply exactly when some pass receives our reply
      before any earlier pass has ended the loop. */
  lemma AwaitRepliesIff(waits: seq<Wait>, v: Watch)
    requires FirstHalt(waits, 0, v) < |waits|
    ensures Await(waits, v).Replied? <==>
      exists k :: 0 <= k < |waits| && Accepts(waits[k].arrival, v.sent, v.id)
                  && forall j :: 0 <= j < k ==> !v.Halts(waits[j])
  {
    var k := FirstHalt(waits, 0, v);
    FirstHaltIsFirst(waits, 0, v);
    if exists m :: 0 <= m < |waits| && Accepts(waits[m].arrival, v.sent, v.id)
                   && forall j :: 0 <= j < m ==> !v.Halts(waits[j]) {
      var m :| 0 <= m < |waits| && Accepts(waits[m].arrival, v.sent, v.id)
               && forall j :: 0 <= j < m ==> !v.Halts(waits[j]);
      FirstHaltUnique(waits, v, m);
    }
  }

  /** A timeout is reported only at a pass that found more than the timeout
      elapsed, and only if no pass up to it received our reply. */
  lemma AwaitTimeoutIsLate(waits: seq<Wait>, v: Watch)
    requires FirstHalt(waits, 0, v) < |waits|
    ensures Await(waits, v).TimedOut? ==>
      && Await(waits, v).durationNs > v.timeoutMs * NsPerMs
      && forall j :: 0 <= j <= FirstHalt(waits, 0, v) ==> !Accepts(waits[j].arrival, v.sent, v.id)
  {
    var k := FirstHalt(waits, 0, v);
    FirstHaltIsFirst(waits, 0, v);
    if Await(waits, v).TimedOut? {
      assert !Accepts(waits[k].arrival, v.sent, v.id);
      forall j | 0 <= j < k
        ensures !Accepts(waits[j].arrival, v.sent, v.id)
      {
        assert !v.Halts(waits[j]);
      }
    }
  }

  /** When nothing arrives the loop times out, at the first pass that finds
      the time up, with that pass's elapsed time. */
  lemma SilenceTimesOut(waits: seq<Wait>, v: Watch)
    requires FirstHalt(waits, 0, v) < |waits|
    requires forall j :: 0 <= j < |waits| ==> waits[j].arrival.NoData?
    ensures Await(waits, v).TimedOut?
    ensures Await(waits, v).durationNs == waits[FirstHalt(waits, 0, v)].stop - v.start
  {
  }

  /** An unrelated Echo Reply (another process's identifier) arriving in
      time is skipped, and the genuine reply after it ends the ping with
      the elapsed time of its pass. */
  lemma ForeignThenGenuineReplies(setup: Setup, pid: int, timeoutMs: int, start: int,
                                  ipHeader: seq<byte>, foreign: EchoPacket, t1: int, t2: int)
    requires setup.Ready() && |ipHeader| == IpHeaderLength
    requires foreign.id != Truncate16(pid)
    requires t1 - start <= timeoutMs * NsPerMs
    ensures var waits := [Wait(Datagram(Frame(ipHeader, foreign)), t1),
                          Wait(Datagram(Frame(ipHeader, EchoReply(EchoRequest(pid)))), t2)];
      && FirstHalt(waits, 0, WatchFor(pid, start, timeoutMs)) < |waits|
      && IcmpPingSpec(setup, pid, timeoutMs, start, waits) == Replied(t2 - start)
  {
    var v := WatchFor(pid, start, timeoutMs);
    var waits := [Wait(Datagram(Frame(ipHeader, foreign)), t1),
                  Wait(Datagram(Frame(ipHeader, EchoReply(EchoRequest(pid)))), t2)];
    ForeignFrameIgnored(ipHeader, foreign, pid);
    GenuineFrameMatches(ipHeader, pid);
    assert !v.Halts(waits[0]);
    assert v.Halts(waits[1]);
    assert FirstHalt(waits, 1, v) == 1;
  }

  /** How many times `main` pings, and the timeout of each ping. */
  const Attempts: nat := 4
  const MainTimeoutMs: int := 2500

  /** One `icmp_ping` call made by `main`: the statuses its setup calls
      return, the clock reading at its send, and the passes of its loop. */
  datatype Attempt = Attempt(setup: Setup, start: int, waits: seq<Wait>)

  /** The attempt's loop ends within its passes (or its setup fails). */
  predicate Ends(a: Attempt, pid: int)
  {
    a.setup.Ready() ==> FirstHalt(a.waits, 0, WatchFor(pid, a.start, MainTimeoutMs)) < |a.waits|
  }

  function AttemptStatus(a: Attempt, pid: int): PingStatus
    requires Ends(a, pid)
  {
    IcmpPingSpec(a.setup, pid, MainTimeoutMs, a.start, a.waits)
  }

  /** The value `main` returns (a shell sees it modulo 256): -1 without a host argument; otherwise four pings
      with a 2500 ms timeout, and -2 exactly when at least one of them timed
      out. A ping whose setup failed (-1) does not change the status. */
  method MainStatus(argc: int, pid: int, attempts: seq<Attempt>) returns (status: int)
    requires |attempts| == Attempts
    requires forall i :: 0 <= i < |attempts| ==> Ends(attempts[i], pid)
    ensures argc < 2 ==> status == -1
    ensures argc >= 2 ==> (status == -2 <==> exists i :: 0 <= i < |attempts| && AttemptStatus(attempts[i], pid).TimedOut?)
    ensures argc >= 2 ==> status == 0 || status == -2
  {
    if argc < 2 {
      return -1;
    }
    status := 0;
    for i := 0 to Attempts
      invariant status == 0 || status == -2
      invariant status == -2 <==> exists j :: 0 <= j < i && AttemptStatus(attempts[j], pid).TimedOut?
    {
      var a := attempts[i];
      var result := IcmpPing(a.setup, pid, MainTimeoutMs, a.start, a.waits);
      if result.Code() == -2 {
        status := -2;
        continue;
      }
    }
  }
}
