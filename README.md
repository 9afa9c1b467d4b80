# ICMP Echo ping engine, modelled in Dafny

This project models the ICMP Echo ("ping") engine of `explain_icmp_ping`,
which exists in two near-identical implementations: `src/c/ping.c` and
`src/cpp/ping.cpp`. Each one does the following:

- builds a 64-byte Echo Request (RFC 792, "Echo or Echo Reply Message")
  with the payload `'0' + i`;
- seals it with the Internet checksum of section 1 of RFC 1071;
- sends it on a raw ICMP socket;
- waits, bounded by a deadline, for a receive that returns 20 + 64 bytes
  (a longer datagram is cut to that length) whose ICMP part is an Echo
  Reply with its own identifier and payload.

Both files also format buffers as a hex dump, and their `main` runs four
pings of 2500 ms each.

Modules:

- `Bytes`: bytes, 16-bit words in little-endian memory order (the x86-64
  host), truncation to `uint16_t`, and the signed `char` reading of a byte.
- `Checksum`: the RFC 1071 checksum, with its fold and complement, and the
  verification rule (recomputing over a sealed buffer gives 0).
- `Packet`: the `ping_pkt` struct as the `EchoPacket` value and its
  64-byte memory image (`Encode`/`Decode`), the Echo Request, sealing, and
  `verify_reply`.
- `Hex`: the layout of the `to_hex_string` dump.
- `Transport`: what the loops see of the socket.
  - `recvfrom` truncates into a buffer of fixed capacity.
  - The 20-byte IPv4 header precedes the ICMP message.
  - The `timeval` split of the receive timeout.
  - The statuses the setup calls return.
- `PingC`: the C implementation.
  - `ping_pkt` is an `array` of its 64 bytes, filled in place.
  - `to_hex_string` writes through a pointer into a 1024-byte static buffer.
  - `icmp_ping`'s `while (!done)` loop.
  - `main`'s status code.
- `PingCpp`: the C++ implementation.
  - `ping_pkt` is a value.
  - `icmp_socket` is a class whose `receiveBuffer` field `receive` resizes
    and overwrites.
  - `ping`'s `while (now() < deadline)` loop.
  - `main`, where exceptions are results.

How the environment is modelled:

- The socket is a script. Each receive is given as an `Arrival`: nothing
  before the receive timeout, or one datagram.
- Each setup call is given as the status it returned.
- The clock is a sequence of integer nanosecond readings, one per place
  the source reads it.
- The process id is a parameter.
- A loop's contract assumes the script contains a pass that ends the loop.
  That is an assumption about the environment: with a positive receive
  timeout every receive returns, so the clock moves on. The models do not
  claim it, and for a zero timeout in the C version it is false (see
  "## Left out").

Behaviour of the source worth knowing:

- The C `main` returns -2 when a ping times out. A ping whose setup fails
  returns -1, and `main` ignores that, so its status stays 0.
- The C++ `main` does not catch exceptions. A failed setup or send
  terminates the program instead of moving on to the next attempt, and
  timeouts leave `main`'s return value at 0.
- The C loop checks the elapsed time before looking at the frame. A reply
  that arrives after the timeout, in the same pass, still counts as a
  reply.

## Model

| member | source | states |
|---|---|---|
| Bytes.HalvesOfWord | src/c/ping.c:89 | a word read through the `unsigned short` view gives back the two bytes it was read from |
| Bytes.WordOfHalves | src/c/ping.c:89 | a 16-bit field stored as two little-endian bytes reads back as the same value |
| Bytes.Truncate16 | src/c/ping.c:149 | storing `getpid()` into the 16-bit `id` keeps ids below 2^16 and otherwise reduces modulo 2^16 |
| Bytes.SignedCharRange | src/c/ping.c:46-47 | a byte read as a signed `char` lies in -128..127, keeps its bit pattern, and is negative exactly for bytes 0x80..0xFF |
| Checksum.NotBitsIsSub | src/c/ping.c:103 | inverting every bit of an n-bit value gives 2^n - 1 minus that value |
| Checksum.ComplementIsBitwiseNot | src/c/ping.c:103 | `Complement`, used by the checksum, is the bitwise NOT of the folded sum's 16 bits, which is what `return ~sum` leaves in the `unsigned short` result |
| Checksum.ChecksumNoWrap | src/c/ping.c:92-96 | while the word sum stays below 2^32, the `unsigned int` accumulator holds the exact sum |
| Checksum.ChecksumSteps | src/c/ping.c:101-103 | the two fold statements and the complement compute the RFC 1071 checksum of the buffer |
| Checksum.WordSumStep | src/c/ping.c:93-96 | each pass of the pointer walk adds exactly the next little-endian word to the sum of the prefix |
| Checksum.PrefixSumIsWordSum | src/c/ping.c:93-96 | the front-to-back walk over k words equals the word sum of the first 2k bytes |
| Checksum.WordSumBound | src/c/ping.c:92-96 | the word sum is at most 0xFFFF per word, so 64 bytes can never wrap the 32-bit accumulator |
| Checksum.FoldComplement | src/c/ping.c:101-103 | a sum plus the complement of its fold folds to 0xFFFF (the RFC 1071 verification identity) |
| Checksum.ChecksumVerifies | src/c/ping.c:101-103 | a buffer whose word sum is a sum plus its checksum has checksum 0 |
| Packet.Encode | src/c/ping.c:80-85 | the struct is 64 bytes: the 8-byte header, then the 56 payload bytes |
| Packet.DecodeEncode | src/cpp/ping.cpp:157-163 | copying a packet's memory back into a `ping_pkt` gives the same packet |
| Packet.EncodeDecode | src/c/ping.c:265 | any 64 bytes viewed as a `ping_pkt` have exactly those bytes as its memory |
| Packet.EncodeWithChecksum | src/c/ping.c:159 | storing the checksum changes bytes 2 and 3 of the image and nothing else |
| Packet.EncodedWordSum | src/c/ping.c:89-96 | the packet's word sum splits into header words, the checksum field's value and the payload sum |
| Packet.SealVerifies | src/c/ping.c:145-160 | the checksum is computed over the packet with a zero checksum field and written last; the checksum then recomputed over the sealed packet is 0 |
| Packet.EchoRequestLayout | src/c/ping.c:145-160 | the built request has type 8, code 0, the truncated pid as id, sequence 0, `payload[i] == '0'+i` for all 56 bytes, the checksum of its zero-checksum image, and it self-verifies |
| Packet.VerifyReply | src/c/ping.c:174-193 | true iff type is Echo Reply (0), code is 0, the id is the expected one and all 56 payload bytes equal the sent ones (the same test as src/cpp/ping.cpp:201-220) |
| Packet.GenuineReplyAccepted | src/c/ping.c:174-193 | the RFC 792 reply to our request is accepted and has a valid checksum, while our own request echoed back is rejected |
| Hex.ShownIsPrintable | src/c/ping.c:44-55 | every text-column character is 32..127, and a byte shows as itself exactly when it is 32..127 |
| Hex.HexColumnAt | src/c/ping.c:35-39 | byte i's two upper-case hex digits and a space sit at positions 3i..3i+2 |
| Hex.HexColumnLength | src/c/ping.c:35-39 | the hex column has 3 characters per byte |
| Hex.TextColumnAt | src/c/ping.c:44-55 | byte i's text character sits at position i of the text column |
| Hex.TextColumnLength | src/c/ping.c:44-55 | the text column has one character per byte |
| Hex.HexDumpLayout | src/c/ping.c:30-58 | the dump of n bytes has 4n+1 characters: the hex triples, `;` at 3n, then one shown character per byte |
| Hex.HexDumpHasNoNul | src/c/ping.c:30-58 | no character of the dump is NUL, so the C string the buffer holds ends exactly at the terminator written after it |
| Hex.HexDumpFromLayout | src/c/ping.c:30-58 | any string with that layout is the dump, so the layout determines it |
| Hex.HexDigitValue | src/c/ping.c:37 | each `%X` digit reads back as its value |
| Hex.HexColumnRoundTrip | src/c/ping.c:35-39 | the bytes can be parsed back from the hex column: the column loses nothing |
| Transport.RecvFrom | src/c/ping.c:167-170 | a receive returns -1 for no datagram; otherwise it returns the datagram truncated to the capacity, and reports the capacity exactly when the datagram is at least that long |
| Transport.MatchesOnlyFullFrames | src/c/ping.c:263-266 | nothing, or a frame shorter than 84 bytes, is never matched; a matched frame carries our id and the Echo Reply type |
| Transport.Frame | src/c/ping.c:232-233 | a reply frame is 20 + 64 bytes, with the ICMP message at offset 20 |
| Transport.GenuineFrameMatches | src/c/ping.c:263-270 | the genuine reply frame is matched, whatever IPv4 header it carries |
| Transport.ForeignFrameIgnored | src/c/ping.c:184-187 | a reply carrying another identifier is never matched |
| Transport.SplitTimeout | src/c/ping.c:134-141 | `seconds*1000000 + useconds == timeout_ms*1000`, with 0 <= useconds < 1000000 for a non-negative timeout and the mirrored bounds for a negative one (C division truncates) |
| PingC.CalculateChecksum | src/c/ping.c:87-104 | the pointer walk over the 64-byte struct returns the RFC 1071 checksum of its memory, and the odd-byte branch is never taken |
| PingC.InitializeIcmpPacket | src/c/ping.c:145-160 | after the call, the struct's memory holds the Echo Request of the process |
| PingC.PrepareRequest | src/c/ping.c:235-236 | the packet `icmp_ping` sends is the Echo Request of the process |
| PingC.WriteHexColumn | src/c/ping.c:33-39 | the first loop writes 3 characters per byte, the hex triples, and leaves the write pointer at 3n with the last `sprintf`'s NUL there; everything after 3n, and the whole buffer for no data, is unchanged |
| PingC.WriteTextColumn | src/c/ping.c:44-55 | the second loop writes each byte's shown character after the `;`; everything before its start offset and after the last character it writes is unchanged |
| PingC.WriteDump | src/c/ping.c:33-57 | the writes leave the hex triples, `;` at 3n, one shown character per byte and the NUL at 4n+1; nothing after the NUL changes |
| PingC.ToHexString | src/c/ping.c:30-58 | the static buffer holds the dump of the data followed by `'\0'`, the dump contains no earlier NUL (so the returned C string is exactly the dump), and everything after that NUL keeps its old contents |
| PingC.PingStatus.Code | src/c/ping.c:202-281 | the return codes: -1 for a failed setup, 1 for a reply, -2 for a timeout |
| PingC.FirstHalt | src/c/ping.c:247-278 | the pass where the loop ends (a matched reply or the timeout exceeded), or none |
| PingC.FirstHaltIsFirst | src/c/ping.c:247-278 | no earlier pass ends the loop, and the loop ends within the script iff some pass ends it |
| PingC.HaltStatus | src/c/ping.c:257-270 | the ending pass reports a reply iff it matched; otherwise a timeout with more than the timeout elapsed; the duration is always the time from the send to that pass |
| PingC.ReceiveLoop | src/c/ping.c:247-280 | the `while (!done)` loop returns what the specification `Await` gives for the script |
| PingC.IcmpPing | src/c/ping.c:202-281 | -1 when resolution, the socket or either option fails; otherwise the loop's result for the process's request |
| PingC.AwaitRepliesIff | src/c/ping.c:263-270 | a reply is reported iff some pass receives a matching 84-byte frame before any earlier pass ended the loop |
| PingC.AwaitTimeoutIsLate | src/c/ping.c:257-262 | a timeout is reported only after more than `timeout_ms`, and only if no pass up to it matched |
| PingC.SilenceTimesOut | src/c/ping.c:247-280 | with no datagrams the ping times out at the first pass past the timeout |
| PingC.ForeignThenGenuineReplies | src/c/ping.c:263-272 | an in-time frame with another id is skipped, and the genuine reply after it ends the ping as a reply with its elapsed time |
| PingC.MainStatus | src/c/ping.c:283-317 | `main` returns -1 without a host argument; otherwise four pings, with -2 iff at least one timed out and 0 otherwise |
| PingCpp.ToHexString | src/cpp/ping.cpp:24-43 | the appended string is the dump: hex triples, `;`, one shown character per byte |
| PingCpp.CalculateChecksum | src/cpp/ping.cpp:54-71 | returns the RFC 1071 checksum of the packet's memory, as the C version does |
| PingCpp.WalkWords | src/cpp/ping.cpp:56-70 | the loop and folds over the 64-byte view compute the checksum, and the odd-byte branch is never taken |
| PingCpp.MakeIcmpPacket | src/cpp/ping.cpp:182-197 | the zero-initialised packet, with its fields, payload and last-computed checksum set, is the Echo Request of the process |
| PingCpp.Resize | src/cpp/ping.cpp:138 | `resize(n)` gives n bytes that keep the old prefix and are zero beyond it |
| PingCpp.IcmpSocket.Open | src/cpp/ping.cpp:75-86 | the constructor succeeds iff the name resolves and `socket` returns a descriptor >= 0; otherwise it reports which of the two failed, resolution first |
| PingCpp.IcmpSocket.SetTtl | src/cpp/ping.cpp:114-120 | fails, with the TTL error, iff `setsockopt` did not return 0 |
| PingCpp.IcmpSocket.SetReceiveTimeout | src/cpp/ping.cpp:122-134 | the `timeval` is the same split as the C version's, holds the whole timeout, with microseconds below a second; fails iff `setsockopt` did not return 0 |
| PingCpp.IcmpSocket.Receive | src/cpp/ping.cpp:136-146 | empty when `recvfrom` returns <= 0, leaving the resized buffer; otherwise exactly the bytes received (at most n), which the buffer then equals |
| PingCpp.IcmpSocket.Send | src/cpp/ping.cpp:148-155 | fails, with the send error, iff `sendto` returns <= 0 |
| PingCpp.IcmpSocket.SendObject | src/cpp/ping.cpp:165-169 | sending an object fails iff `sendto` returns <= 0 |
| PingCpp.IcmpSocket.GetReceivedData | src/cpp/ping.cpp:157-163 | callable only when the 64 bytes at the offset are in the buffer; the packet's memory is exactly those bytes |
| PingCpp.FirstStop | src/cpp/ping.cpp:238-256 | the pass that leaves the loop (deadline reached at the test, or a verified reply), or none |
| PingCpp.FirstStopIsFirst | src/cpp/ping.cpp:238-256 | no earlier pass leaves the loop, and the loop ends within the script iff some pass leaves it |
| PingCpp.StopResult | src/cpp/ping.cpp:238-258 | a reply iff the loop test was before the deadline; the reply was verified; its duration runs from the send to the clock read after that receive |
| PingCpp.ReceiveLoop | src/cpp/ping.cpp:238-258 | the loop returns the session's result; it decodes only receives that return exactly 84 bytes (a longer datagram is cut to 84), at offset 20; the socket keeps its descriptor, and on a reply its buffer holds the 84 bytes of that receive |
| PingCpp.Ping | src/cpp/ping.cpp:222-259 | the first failing step among resolution, socket, TTL, timeout and send, or else the loop's result for the process's request |
| PingCpp.SessionRepliesIff | src/cpp/ping.cpp:238-250 | a duration is returned iff some pass, before the deadline, receives a verified 84-byte frame with no earlier pass having left the loop; the duration is that pass's receive time minus the send time |
| PingCpp.SessionTimesOutOnlyAtDeadline | src/cpp/ping.cpp:238-258 | nothing is returned iff some loop test finds the deadline reached, with every earlier pass before the deadline and unanswered |
| PingCpp.SilenceTimesOut | src/cpp/ping.cpp:238-258 | with no datagrams, `ping` returns nothing, at a loop test past the deadline |
| PingCpp.ZeroTimeoutGivesUp | src/cpp/ping.cpp:224-238 | with a 0 ms timeout the first loop test already fails, so `ping` returns nothing without receiving |
| PingCpp.ForeignThenGenuineReplies | src/cpp/ping.cpp:238-256 | a foreign reply before the deadline is skipped, and the genuine reply after it returns its time since the send |
| PingCpp.MainExit | src/cpp/ping.cpp:263-288 | `main` returns -1 without a host argument; otherwise it returns 0 iff no ping throws, whether the pings replied or timed out; otherwise the first ping that throws terminates the program |

## Left out

- Name resolution and reverse lookup are outside the model, and so is
  network-interface enumeration. This covers `dns_lookup_and_store_address`,
  `reverse_dns_lookup`, `dns_lookup` and `get_physical_networkcard_names`.
  Resolution enters only as a success flag.
- The socket system calls are parameters: `socket`, `setsockopt`, `sendto`,
  `recvfrom` and `close`. `getpid` is a parameter too.
- The C `icmp_ping` ignores the result of `sendto`, so the C model has no
  send status.
- Closing the descriptor is not modelled.
- Floating-point time (`get_difference_ms`, `double_milliseconds`) is
  replaced by integer nanoseconds. The C test `duration_ms > timeout_ms`
  becomes `elapsed_ns > timeout_ms * 1000000`.
- `printf`/`fmt::print` diagnostics are not modelled, and neither are the
  usage message or the reporting of each ping's time.
- PingC.MainStatus and PingCpp.MainExit do not model the lookup `main`
  itself performs before pinging. In C, when that lookup fails,
  `dns_lookup_and_store_address` returns NULL (src/c/ping.c:113-116) and
  `main` passes it to `reverse_dns_lookup`, whose `inet_addr(NULL)`
  (src/c/ping.c:66, 292-296) is undefined behaviour before any ping runs.
  So the status 0 that PingC.MainStatus gives when every ping fails to
  resolve is reachable only when `main`'s own lookup succeeded.
- Multi-byte fields are read in little-endian (x86-64) order. RFC 1071,
  section 2(B), makes the checksum byte-order independent, but the model
  fixes one order.
- PingC.ToHexString requires at most 255 bytes, since 4n+2 characters must
  fit the 1024-byte static buffer. Longer input overflows the buffer in the
  source; its only caller is commented out.
- PingC.ReceiveLoop, PingC.PrepareRequest, PingC.WriteHexColumn,
  PingC.WriteTextColumn and PingC.WriteDump are parts of `icmp_ping` and `to_hex_string`, taken
  out as methods of their own. The same holds for PingCpp.ReceiveLoop and
  PingCpp.WalkWords within `ping` and `calculate_checksum`.
- PingCpp.ToHexString: the hex digits of bytes 0x80..0xFF are modelled as
  the byte's two digits. That is how fmt 9 and later format a `char` under
  an integer presentation type (as an `unsigned char`). Earlier fmt
  versions print a negative `char` with a minus sign. The fmt library is
  not part of this model.
- PingCpp.IcmpSocket.SetReceiveTimeout does not model the narrowing of the
  millisecond count to `int`. `main` passes 2500.
- PingCpp.IcmpSocket.SetTtl and the C model's `Setup.ttlStatus` take only
  the `setsockopt` status. The TTL 64 that both versions configure on the
  socket (src/c/ping.c:218, src/cpp/ping.cpp:226) is not recorded; the C++
  error message also quotes it.
- PingCpp.IcmpSocket.Send does not record the bytes handed to `sendto`.
  Its result depends only on the status.
- The `icmp_socket` accessors `get_fd`, `get_name` and `get_sockadd_in` are
  not modelled, and neither is the stored address. They only return fields.
- `main`'s return values are modelled as the `int`s it returns. A shell
  sees them modulo 256, so -1 and -2 appear as 255 and 254.
- The C `icmp_ping` passes `%s` to `printf` with no argument on the TTL and
  receive-timeout failure paths (src/c/ping.c:220, 226). That is undefined
  behaviour; the model returns -1 on those paths as the code intends.
- PingC.IcmpPing with a zero timeout: `set_receive_timeout` stores
  `timeval{0, 0}`, which a socket treats as "never time out". On a silent
  network `recvfrom` then blocks forever. No script of `Wait`s stands for
  that, so the model does not cover it. `main` always passes 2500 ms. The
  C++ `ping` does not hang here, because its first loop test already fails
  (PingCpp.ZeroTimeoutGivesUp).
- PingC.ReceiveLoop and PingCpp.ReceiveLoop require a script in which some
  pass ends the loop. A script that never ends would model a loop that
  does not terminate.
