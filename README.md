# Raw-socket TCP handshake client, modelled in Dafny

The client (`A3/client.cpp`) performs the client side of the TCP three-way
handshake by hand, over a raw socket with `IP_HDRINCL`. It builds a 40-byte
SYN datagram (an IPv4 header and a TCP header, no options, no payload) in a
zeroed 4096-byte buffer and sends it. It then loops on `recv`, looking for a
frame whose TCP header, found at offset `ihl * 4`, has both SYN and ACK set.
Before each `recv` it checks whether more than five whole seconds have passed
since the SYN went out, and it gives up then, or when `recv` itself times out
(after five seconds of `SO_RCVTIMEO`). It checks that the SYN-ACK acknowledges
201, answers with an ACK datagram that acknowledges the peer's sequence number
plus one, and exits with 0. Every outcome that ends the process otherwise exits
with 1; `recv` errors other than a timeout can keep it waiting for ever when
the clock does not advance.

The model has five modules:

- `ByteOrder` (`byte_order.dfy`): fixed-width unsigned numbers, `htons`/`htonl`
  and `ntohs`/`ntohl` as big-endian layout, and the 32-bit wrapping addition.
- `Headers` (`headers.dfy`): the wire layout of the IPv4 header (section 3.1 of
  RFC 791) and of the TCP header (section 3.1 of RFC 793). It has encoders and
  decoders with round trips in both directions, the flag byte, and the
  classifier of received frames (`print_tcp_flags`, the header at `ihl * 4`,
  the SYN-ACK test).
- `Builder` (`builder.dfy`): the constants of the client, and the SYN and ACK
  as header values. `Build` writes them imperatively: it clears the 4096-byte
  `array<byte>` and then assigns the header fields 32-bit word by 32-bit word.
  Its contract states that the first 40 bytes are the encoded headers and that
  every byte after them is zero.
- `Client` (`client.dfy`): the driver of `main`. The outside world is an input:
  - `Syscalls` says which of `socket`, the two `setsockopt` calls and the two
    `sendto` calls succeed;
  - a trace of `Tick`s gives, for each pass of the loop, the seconds elapsed
    and what `recv` returned;
  - the 65536-byte receive buffer is a value whose first contents are arbitrary.

  `Handshake` is the specification of a run: the datagrams `sendto` accepted,
  and the exit code. A trace too short to end the wait is reported as a failed
  run (see "Left out"). `RunClient` is the imperative `main` with its
  `while (true)` loop, early returns and `received_syn_ack` flag, proved to
  produce exactly `Handshake`'s run.
- `ClientProperties` (`client_properties.dfy`): what a run amounts to. This
  covers when the exit code is 0, what a timeout or a wrong acknowledgement
  number does, what the SYN and ACK look like on the wire, and how a server's
  SYN-ACK is answered.

The classifier (`Headers.ReceivedTcp`, `Headers.IsSynAck`) requires the bytes
to hold a TCP header at `ihl * 4`. The client never compares that offset with
the received length. It reads its whole 65536-byte receive buffer instead, so
the requirement always holds there (`Client.BufferReadable`). Bytes past the
received length keep what earlier frames, or the uninitialised stack, left
(`Client.Deliver`).

Frames that are not a SYN-ACK are ignored, whatever they are, and so are
`recv` errors other than a timeout. Ports and addresses of a received frame
are never looked at. The model follows the code here. A general description
of such a driver might say a malformed response ends the run, but this client
keeps waiting.

## Model

| member | source | states |
|---|---|---|
| ByteOrder.Htons | A3/client.cpp:68 | `htons` gives two bytes, most significant first, whose big-endian value is the number |
| ByteOrder.Ntohs | A3/client.cpp:68 | the 16-bit value of two wire bytes has those bytes as its high and low byte |
| ByteOrder.Htonl | A3/client.cpp:80 | `htonl` gives four bytes whose big-endian value, most significant byte first, is the number |
| ByteOrder.Ntohl | A3/client.cpp:24-25 | the 32-bit value `ntohl` reads from four wire bytes has them as its bytes, most significant first |
| ByteOrder.NtohsHtons | A3/client.cpp:68 | reading back a 16-bit field gives the value written |
| ByteOrder.HtonsNtohs | A3/client.cpp:68 | every two wire bytes are the encoding of the value they decode to |
| ByteOrder.NtohlHtonl | A3/client.cpp:24-25 | `ntohl(htonl(x)) == x`, so the logged SEQ and ACK are the numbers written |
| ByteOrder.HtonlNtohl | A3/client.cpp:153 | every four wire bytes are the encoding of the value `ntohl` reads from them |
| ByteOrder.AddWrap32 | A3/client.cpp:153 | the unsigned `ntohl(seq) + 1`: the exact sum, or the sum minus 2^32 when it overflows |
| Headers.ParseFlagsByte | A3/client.cpp:18-23 | the flags written into the flag byte are the ones read back from it |
| Headers.FlagsByteParse | A3/client.cpp:120 | every flag byte is the byte of the flags read from it |
| Headers.FlagMasks | A3/client.cpp:83 | FIN, SYN, RST, PSH, ACK and URG are bits 0x01, 0x02, 0x04, 0x08, 0x10 and 0x20 of byte 13 |
| Headers.DecodeEncodeIp | A3/client.cpp:65-75 | every IP header field written is read back unchanged |
| Headers.EncodeIp | A3/client.cpp:65-75 | the IP header the client writes is 20 bytes, `sizeof(struct iphdr)`; `DecodeEncodeIp` shows no field is lost |
| Headers.DecodeIp | A3/client.cpp:117 | the IP header read from any 20 bytes is the one whose encoding they are |
| Headers.DecodeEncodeTcp | A3/client.cpp:78-85 | every TCP header field written, `doff` and the flags included, is read back unchanged |
| Headers.EncodeTcp | A3/client.cpp:78-85 | the TCP header the client writes is 20 bytes, `sizeof(struct tcphdr)`; `DecodeEncodeTcp` shows no field is lost |
| Headers.DecodeTcp | A3/client.cpp:118 | the TCP header read from any 20 bytes is the one whose encoding they are |
| Headers.DecodeEncodeDatagram | A3/client.cpp:90-91 | the 40 bytes handed to `sendto` decode to the two headers written |
| Headers.SummarizeTcpBytes | A3/client.cpp:16-27 | `print_tcp_flags` reports the flags whose byte is byte 13 and the numbers whose `htonl` bytes are bytes 4-7 and 8-11 |
| Headers.ReceivedTcpBytes | A3/client.cpp:117-118 | the header classified is the one at `ihl * 4`: its flags are byte `ihl * 4 + 13`, its numbers bytes `ihl * 4 + 4` to `ihl * 4 + 11` |
| Headers.SynAckBits | A3/client.cpp:120 | a frame is taken for a SYN-ACK iff bits 0x02 and 0x10 of byte `ihl * 4 + 13` are both set |
| Headers.SummarizeEncodeTcp | A3/client.cpp:16-27 | `print_tcp_flags` on a written header reports its flags, sequence and acknowledgement numbers |
| Headers.ReceivedTcpLocates | A3/client.cpp:117-120 | in a frame of an `ihl * 4`-byte IP header and a TCP header, the classifier reads that TCP header, and the frame is a SYN-ACK iff both its SYN and ACK bits are set |
| Builder.HandshakeHeaders | A3/client.cpp:65-85 | both datagrams have `ihl` and `doff` matching the 20-byte headers, `tot_len` 40, protocol TCP, the server's address and port, the given id and numbers, and the one flag |
| Builder.SynDatagram | A3/client.cpp:69-83 | the SYN has SYN without ACK, id 54321 and sequence number 200, which it uses up, so 201 is the acknowledgement to expect |
| Builder.AckDatagram | A3/client.cpp:142-155 | the ACK has ACK without SYN, id 54322, sequence number 200 + 1, and acknowledgement number (peer sequence + 1) mod 2^32 |
| Builder.OnlyFlag | A3/client.cpp:82-83 | the flag set of a handshake datagram holds SYN or ACK alone, never FIN, RST, PSH or URG |
| Builder.WithLowNibble | A3/client.cpp:65 | assigning `ihl` sets the low four bits and keeps the high four |
| Builder.WithHighNibble | A3/client.cpp:66 | assigning `version` or `doff` sets the high four bits and keeps the low four |
| Builder.WithFlag | A3/client.cpp:83 | `tcph->syn = 1` or `tcph->ack = 1` sets that flag and leaves the other flags as they were |
| Builder.FlagOnCleared | A3/client.cpp:155 | on the zeroed flag byte, setting one flag gives the byte of that flag alone |
| Builder.Clear | A3/client.cpp:53 | `memset` makes every byte of the buffer 0 |
| Builder.FillVersionIhl | A3/client.cpp:65-66 | assigning `ihl` 5 and then `version` 4 makes byte 0 equal 0x45, whatever it held; no other byte changes |
| Builder.FillIpFront | A3/client.cpp:65-70 | bytes 0-7 become 0x45, `tos` 0, `tot_len` 40, the id and `frag_off` 0; no other byte changes |
| Builder.FillIpTransport | A3/client.cpp:71-75 | bytes 8-11 become `ttl` 64, protocol 6 and `check` 0; no other byte changes |
| Builder.FillIpAddresses | A3/client.cpp:73-74 | bytes 12-19 become the addresses 127.0.0.1; no other byte changes |
| Builder.FillIp | A3/client.cpp:65-75 | the first 20 bytes are the encoded IP header of the handshake; no other byte changes |
| Builder.FillTcpPorts | A3/client.cpp:78-79 | bytes 20-23 become ports 54321 and 12345; no other byte changes |
| Builder.FillTcpNumbers | A3/client.cpp:80-81 | bytes 24-31 become the sequence and acknowledgement numbers; no other byte changes |
| Builder.FillTcpControl | A3/client.cpp:82-83 | on zeroed bytes, byte 32 becomes `doff` 5 and byte 33 the one flag; no other byte changes |
| Builder.FillTcpWindow | A3/client.cpp:84-85 | bytes 34-37 become window 8192 and `check` 0; no other byte changes |
| Builder.FillTcp | A3/client.cpp:78-85 | on zeroed bytes, bytes 20-39 are the encoded TCP header, urgent pointer 0 included; no other byte changes |
| Builder.Build | A3/client.cpp:134-157 | after `memset` and the assignments, the first 40 bytes are the encoded headers and all 4056 bytes after them are 0 |
| Client.Deliver | A3/client.cpp:107 | `recv` copies at most 65536 bytes to the front of the buffer, and every byte past them keeps its earlier value |
| Client.BufferReadable | A3/client.cpp:117-118 | the TCP header at `ihl * 4` always lies inside the receive buffer |
| Client.Await | A3/client.cpp:101-120 | a wait that ends with a peer header ends with one that has SYN and ACK set, and a trace that leaves the wait undecided never passes the deadline |
| Client.AwaitAfterQuiet | A3/client.cpp:101-115 | passes that are in time and bring a `recv` error other than a timeout, or a frame that is not a SYN-ACK, leave the wait where it was; only the buffer changes |
| Client.AnsweredAtAwaits | A3/client.cpp:117-123 | when the first SYN-ACK arrives in time at pass k, the wait ends with that SYN-ACK's numbers |
| Client.AwaitAnsweredAt | A3/client.cpp:101-123 | a wait that ends with a SYN-ACK ends with the first SYN-ACK of some pass, all passes before it quiet |
| Client.AwaitAnsweredIff | A3/client.cpp:101-123 | the wait ends with a SYN-ACK iff some pass delivers the first one in time |
| Client.TimeoutEndsWait | A3/client.cpp:102-112 | after quiet passes, elapsed time over 5 seconds ends the wait on the clock; a `recv` timeout ends it otherwise |
| Client.Handshake | A3/client.cpp:29-177 | the exit code is 0 or 1; it is 0 iff two datagrams were sent; nothing is sent iff a call before the loop fails; the first datagram sent is the SYN |
| Client.RunClient | A3/client.cpp:29-177 | `main`'s sequence of calls, buffer writes and loop produces exactly the datagrams and the exit code of `Handshake` |
| ClientProperties.HandshakeAnswered | A3/client.cpp:120-168 | at the first SYN-ACK, acknowledgement 201 and a working `sendto` give the SYN, then the ACK for the peer's sequence number, and exit 0; otherwise only the SYN, and exit 1 |
| ClientProperties.HandshakeTimesOut | A3/client.cpp:101-177 | a clock past 5 seconds or a `recv` timeout before any SYN-ACK gives exit 1, with at most the SYN sent |
| ClientProperties.ExitZeroIff | A3/client.cpp:120-177 | exit 0 iff every call before the loop succeeds, the first SYN-ACK acknowledges 201, and the ACK is sent |
| ClientProperties.HandshakeOnWire | A3/client.cpp:65-85 | a datagram the client builds is 40 bytes with `tot_len` 40; it decodes to the headers built, `print_tcp_flags` sees the one flag and the two numbers, and the client would not take it for a SYN-ACK |
| ClientProperties.AckOnWire | A3/client.cpp:150-157 | the ACK carries the ACK flag alone, sequence number 201 and acknowledgement number (peer sequence + 1) mod 2^32 |
| ClientProperties.OnWire | A3/client.cpp:90-91 | any datagram with `ihl` 5 and `tot_len` 40 decodes from its 40 bytes, and is classified by its own TCP flags |
| ClientProperties.ServerAnswers | A3/client.cpp:117-168 | a server's SYN-ACK within the deadline gets the ACK for its sequence number and exit 0 iff it acknowledges 201, whatever its ports and addresses |
| ClientProperties.ExampleHandshake | A3/client.cpp:152-153 | a SYN-ACK with sequence number 1000 acknowledging 201 is answered with acknowledgement number 1001, and the run exits 0 |
| ClientProperties.AckNumberWraps | A3/client.cpp:153 | a peer sequence number of 2^32 - 1 is acknowledged with 0 |

## Left out

- System calls: `socket`, `setsockopt`, `sendto`, `recv` and `close` are inputs (`Syscalls`, the `Tick` trace). The socket descriptor, the `sockaddr_in` destination of `sendto` and the release of the socket are not modelled.
- Console output: `perror`, the `std::cout`/`std::cerr` messages and the text `print_tcp_flags` prints. `Headers.SummarizeTcp` models only what `print_tcp_flags` reads.
- The clock: `time(nullptr) - start_time` is an input per pass (`Tick.elapsed`), and the `SO_RCVTIMEO` timeout appears only as the `WouldBlock` result of `recv`.
- `inet_pton`/`inet_addr`: 127.0.0.1 is the constant 0x7F000001.
- Checksums: both stay 0, as the client leaves them for the kernel. What the kernel does with the datagram after `sendto` is not modelled.
- The host's C bitfield layout of `struct iphdr`/`struct tcphdr`: the model writes the RFC wire layout that the bitfields produce on the wire.
- Client.RunClient: requires a trace whose wait ends (`Await` is not `Undecided`). The real loop can spin for ever on `recv` errors when the clock does not advance. A finite trace cannot express that.
- Client.Handshake: a trace that runs out while the loop is still waiting (`Await` is `Undecided`: no passes, or only in-time passes with `recv` errors other than a timeout or frames that are not a SYN-ACK) is reported as exit 1 with only the SYN sent. The real process would still be inside `while (true)` and has no exit code yet. `RunClient` excludes such traces, so only decided traces are matched against `main`.
- Builder.FillIp: writes `check` right after `protocol` (bytes 10-11), not after `daddr` as the source does. The assignments touch disjoint bytes, so the result is the same.
- Builder.Build: the SYN and the ACK are built by the same method. The source repeats the assignments at lines 65-85 and 134-157, differing only in id, numbers and flag.
