/**
 * Wire layout of the IPv4 header (section 3.1 of RFC 791) and of the TCP
 * header (section 3.1 of RFC 793), both without options, as the client
 * writes them through `struct iphdr` / `struct tcphdr` and reads them back
 * from received frames.
 */
module Headers {
  import opened ByteOrder

  /** `sizeof(struct iphdr)` and `sizeof(struct tcphdr)`: headers without options. */
  const IpHeaderLen: nat := 20
  const TcpHeaderLen: nat := 20
  const DatagramLen: nat := IpHeaderLen + TcpHeaderLen

  /** `IPPROTO_TCP`. */
  const IpProtoTcp: byte := 6

  /** Bits of the TCP flag byte (byte 13 of the TCP header). */
  const FinBit: byte := 0x01
  const SynBit: byte := 0x02
  const RstBit: byte := 0x04
  const PshBit: byte := 0x08
  const AckBit: byte := 0x10
  const UrgBit: byte := 0x20

  /** The two top bits of the flag byte (`res2` of `struct tcphdr`). */
  type crumb = x: int | 0 <= x < 4

  datatype TcpFlags = TcpFlags(res2: crumb, urg: bool, ack: bool, psh: bool,
                               rst: bool, syn: bool, fin: bool)

  datatype IpHeader = IpHeader(version: nibble, ihl: nibble, tos: byte, totLen: u16,
                               id: u16, fragOff: u16, ttl: byte, protocol: byte,
                               check: u16, saddr: u32, daddr: u32)

  datatype TcpHeader = TcpHeader(source: u16, dest: u16, seqNum: u32, ackNum: u32,
                                 doff: nibble, res1: nibble, flags: TcpFlags,
                                 window: u16, check: u16, urgPtr: u16)

  /** The IP header followed by the TCP header, with no payload. */
  datatype Datagram = Datagram(ip: IpHeader, tcp: TcpHeader)

  /** What `print_tcp_flags` reports of a TCP header: its flags, `SEQ` and `ACK`. */
  datatype TcpSummary = TcpSummary(flags: TcpFlags, seqNum: u32, ackNum: u32)

  function Bit(on: bool): int
  {
    if on then 1 else 0
  }

  /**
   * The flag byte holding the given flags: `res2` in the two top bits, then
   * URG, ACK, PSH, RST, SYN and FIN down to the lowest bit.
   */
  function FlagsByte(f: TcpFlags): (b: byte)
  {
    (((((f.res2 * 2 + Bit(f.urg)) * 2 + Bit(f.ack)) * 2 + Bit(f.psh)) * 2
      + Bit(f.rst)) * 2 + Bit(f.syn)) * 2 + Bit(f.fin)
  }

  /** The flags a flag byte holds: bit k is `(b / 2^k) % 2`. */
  function ParseFlags(b: byte): (f: TcpFlags)
  {
    var b1 := b / 2;
    var b2 := b1 / 2;
    var b3 := b2 / 2;
    var b4 := b3 / 2;
    var b5 := b4 / 2;
    TcpFlags(b5 / 2, b5 % 2 == 1, b4 % 2 == 1, b3 % 2 == 1,
             b2 % 2 == 1, b1 % 2 == 1, b % 2 == 1)
  }

  /** Appending a bit below `x` and shifting it out again gives back `x` and the bit. */
  lemma ShiftIn(x: int, on: bool)
    ensures (x * 2 + Bit(on)) / 2 == x
    ensures ((x * 2 + Bit(on)) % 2 == 1) == on
  {
  }

  /** The flags written into a flag byte are the ones read back from it. */
  lemma ParseFlagsByte(f: TcpFlags)
    ensures ParseFlags(FlagsByte(f)) == f
  {
    var b5 := f.res2 * 2 + Bit(f.urg);
    var b4 := b5 * 2 + Bit(f.ack);
    var b3 := b4 * 2 + Bit(f.psh);
    var b2 := b3 * 2 + Bit(f.rst);
    var b1 := b2 * 2 + Bit(f.syn);
    var b := b1 * 2 + Bit(f.fin);
    ShiftIn(f.res2, f.urg);
    ShiftIn(b5, f.ack);
    ShiftIn(b4, f.psh);
    ShiftIn(b3, f.rst);
    ShiftIn(b2, f.syn);
    ShiftIn(b1, f.fin);
    assert FlagsByte(f) == b;
    assert b / 2 == b1 && b1 / 2 == b2 && b2 / 2 == b3 && b3 / 2 == b4 && b4 / 2 == b5;
  }

  /** Every number is its lowest bit below the rest of it. */
  lemma ShiftOut(x: nat)
    ensures x == (x / 2) * 2 + Bit(x % 2 == 1)
  {
  }

  /** Every flag byte is the byte of the flags read from it: parsing loses no bit. */
  lemma FlagsByteParse(b: byte)
    ensures FlagsByte(ParseFlags(b)) == b
  {
    var b1 := b / 2;
    var b2 := b1 / 2;
    var b3 := b2 / 2;
    var b4 := b3 / 2;
    var b5 := b4 / 2;
    ShiftOut(b);
    ShiftOut(b1);
    ShiftOut(b2);
    ShiftOut(b3);
    ShiftOut(b4);
    ShiftOut(b5);
  }

  /** Bit positions of the flag byte, as in the TCP header of RFC 793. */
  lemma FlagMasks(f: TcpFlags)
    ensures FlagsByte(f) == f.res2 * 0x40 + Bit(f.urg) * UrgBit + Bit(f.ack) * AckBit
                            + Bit(f.psh) * PshBit + Bit(f.rst) * RstBit
                            + Bit(f.syn) * SynBit + Bit(f.fin) * FinBit
  {
  }

  /**
   * The 20 bytes of an IP header: version and `ihl` share byte 0 (version in
   * the high half), then the fields in order, multi-byte ones most significant
   * byte first.
   */
  function EncodeIp(h: IpHeader): (r: seq<byte>)
    ensures |r| == IpHeaderLen
  {
    [h.version as int * 0x10 + h.ihl, h.tos,
     HighByte(h.totLen), LowByte(h.totLen), HighByte(h.id), LowByte(h.id),
     HighByte(h.fragOff), LowByte(h.fragOff), h.ttl, h.protocol,
     HighByte(h.check), LowByte(h.check),
     HighByte(HighHalf(h.saddr)), LowByte(HighHalf(h.saddr)),
     HighByte(LowHalf(h.saddr)), LowByte(LowHalf(h.saddr)),
     HighByte(HighHalf(h.daddr)), LowByte(HighHalf(h.daddr)),
     HighByte(LowHalf(h.daddr)), LowByte(LowHalf(h.daddr))]
  }

  /** The IP header held in 20 bytes: the one header whose encoding they are. */
  function DecodeIp(s: seq<byte>): (h: IpHeader)
    requires |s| == IpHeaderLen
    ensures EncodeIp(h) == s
  {
    IpHeader(s[0] / 0x10, s[0] % 0x10, s[1], Ntohs(s[2..4]), Ntohs(s[4..6]),
             Ntohs(s[6..8]), s[8], s[9], Ntohs(s[10..12]), Ntohl(s[12..16]),
             Ntohl(s[16..20]))
  }

  /**
   * The 20 bytes of a TCP header: ports, numbers, then `doff` over `res1` in
   * byte 12, the flag byte, window, checksum and urgent pointer.
   */
  function EncodeTcp(h: TcpHeader): (r: seq<byte>)
    ensures |r| == TcpHeaderLen
  {
    [HighByte(h.source), LowByte(h.source), HighByte(h.dest), LowByte(h.dest),
     HighByte(HighHalf(h.seqNum)), LowByte(HighHalf(h.seqNum)),
     HighByte(LowHalf(h.seqNum)), LowByte(LowHalf(h.seqNum)),
     HighByte(HighHalf(h.ackNum)), LowByte(HighHalf(h.ackNum)),
     HighByte(LowHalf(h.ackNum)), LowByte(LowHalf(h.ackNum)),
     h.doff as int * 0x10 + h.res1, FlagsByte(h.flags),
     HighByte(h.window), LowByte(h.window), HighByte(h.check), LowByte(h.check),
     HighByte(h.urgPtr), LowByte(h.urgPtr)]
  }

  /** The TCP header held in 20 bytes: the one header whose encoding they are. */
  function DecodeTcp(s: seq<byte>): (h: TcpHeader)
    requires |s| == TcpHeaderLen
    ensures EncodeTcp(h) == s
  {
    HtonsNtohs(s[0..2]);
    HtonsNtohs(s[2..4]);
    HtonlNtohl(s[4..8]);
    HtonlNtohl(s[8..12]);
    FlagsByteParse(s[13]);
    HtonsNtohs(s[14..16]);
    HtonsNtohs(s[16..18]);
    HtonsNtohs(s[18..20]);
    assert s == s[0..2] + s[2..4] + s[4..8] + s[8..12] + s[12..14]
                + s[14..16] + s[16..18] + s[18..20];
    TcpHeader(Ntohs(s[0..2]), Ntohs(s[2..4]), Ntohl(s[4..8]), Ntohl(s[8..12]),
              s[12] / 0x10, s[12] % 0x10, ParseFlags(s[13]),
              Ntohs(s[14..16]), Ntohs(s[16..18]), Ntohs(s[18..20]))
  }

  /** The 40 bytes `sendto` transmits: the IP header, then the TCP header. */
  function EncodeDatagram(d: Datagram): (r: seq<byte>)
    ensures |r| == DatagramLen
  {
    EncodeIp(d.ip) + EncodeTcp(d.tcp)
  }

  /** The two headers held in 40 bytes. */
  function DecodeDatagram(s: seq<byte>): (d: Datagram)
    requires |s| == DatagramLen
  {
    Datagram(DecodeIp(s[..IpHeaderLen]), DecodeTcp(s[IpHeaderLen..]))
  }

  /** The header fields written into an IP header are the ones read back from it. */
  lemma DecodeEncodeIp(h: IpHeader)
    ensures DecodeIp(EncodeIp(h)) == h
  {
  }

  /** The header fields written into a TCP header are the ones read back from it. */
  lemma DecodeEncodeTcp(h: TcpHeader)
    ensures DecodeTcp(EncodeTcp(h)) == h
  {
    var r := EncodeTcp(h);
    assert r[0..2] == Htons(h.source) && r[2..4] == Htons(h.dest);
    assert r[4..8] == Htonl(h.seqNum) && r[8..12] == Htonl(h.ackNum);
    assert r[14..16] == Htons(h.window) && r[16..18] == Htons(h.check) && r[18..20] == Htons(h.urgPtr);
    NtohlHtonl(h.seqNum);
    NtohlHtonl(h.ackNum);
    ParseFlagsByte(h.flags);
    var d := DecodeTcp(r);
    assert d.source == h.source && d.dest == h.dest;
    assert d.seqNum == h.seqNum && d.ackNum == h.ackNum;
    assert d.doff == h.doff && d.res1 == h.res1 && d.flags == h.flags;
    assert d.window == h.window && d.check == h.check && d.urgPtr == h.urgPtr;
  }

  /** The headers written into a datagram are the ones read back from it. */
  lemma DecodeEncodeDatagram(d: Datagram)
    ensures DecodeDatagram(EncodeDatagram(d)) == d
  {
    var r := EncodeDatagram(d);
    assert r[..IpHeaderLen] == EncodeIp(d.ip);
    assert r[IpHeaderLen..] == EncodeTcp(d.tcp);
    DecodeEncodeIp(d.ip);
    DecodeEncodeTcp(d.tcp);
  }

  /**
   * `print_tcp_flags`: the flags of byte 13 and the sequence and acknowledgment
   * numbers of bytes 4-7 and 8-11, converted with `ntohl`.
   */
  function SummarizeTcp(hdr: seq<byte>): TcpSummary
    requires |hdr| == TcpHeaderLen
  {
    TcpSummary(ParseFlags(hdr[13]), Ntohl(hdr[4..8]), Ntohl(hdr[8..12]))
  }

  /** Byte offset of the TCP header in a received frame: the IP header length `ihl * 4`. */
  function TcpOffset(frame: seq<byte>): nat
    requires |frame| > 0
  {
    (frame[0] % 0x10) * 4
  }

  /**
   * The bytes hold a TCP header at `TcpOffset`.  The client never compares the
   * offset with the received length: it reads its whole receive buffer, which
   * is always long enough.
   */
  predicate Readable(frame: seq<byte>)
  {
    |frame| > 0 && TcpOffset(frame) + TcpHeaderLen <= |frame|
  }

  /** The summary of the TCP header found at offset `ihl * 4` of a received frame. */
  function ReceivedTcp(frame: seq<byte>): TcpSummary
    requires Readable(frame)
  {
    var off := TcpOffset(frame);
    SummarizeTcp(frame[off..off + TcpHeaderLen])
  }

  /**
   * A received frame counts as a SYN-ACK iff both the SYN bit (0x02) and the
   * ACK bit (0x10) of byte `ihl * 4 + 13` are set.
   */
  predicate IsSynAck(frame: seq<byte>)
    requires Readable(frame)
  {
    var f := ReceivedTcp(frame).flags;
    f.syn && f.ack
  }

  /**
   * What `print_tcp_flags` reports of a TCP header: the flags whose byte is
   * byte 13, and the numbers whose `htonl` bytes are bytes 4-7 and 8-11.
   */
  lemma SummarizeTcpBytes(hdr: seq<byte>)
    requires |hdr| == TcpHeaderLen
    ensures var r := SummarizeTcp(hdr);
      FlagsByte(r.flags) == hdr[13] && Htonl(r.seqNum) == hdr[4..8] && Htonl(r.ackNum) == hdr[8..12]
  {
    FlagsByteParse(hdr[13]);
    HtonlNtohl(hdr[4..8]);
    HtonlNtohl(hdr[8..12]);
  }

  /**
   * What the classifier reads of a received frame: the flags are byte
   * `ihl * 4 + 13`, the numbers bytes `ihl * 4 + 4` to `ihl * 4 + 11`.
   */
  lemma ReceivedTcpBytes(frame: seq<byte>)
    requires Readable(frame)
    ensures var r, off := ReceivedTcp(frame), TcpOffset(frame);
      FlagsByte(r.flags) == frame[off + 13] &&
      Htonl(r.seqNum) == frame[off + 4..off + 8] && Htonl(r.ackNum) == frame[off + 8..off + 12]
  {
    var off := TcpOffset(frame);
    var hdr := frame[off..off + TcpHeaderLen];
    SummarizeTcpBytes(hdr);
    assert hdr[4..8] == frame[off + 4..off + 8] by {
      assert forall i | 0 <= i < 4 :: hdr[4..8][i] == frame[off + 4 + i];
    }
    assert hdr[8..12] == frame[off + 8..off + 12] by {
      assert forall i | 0 <= i < 4 :: hdr[8..12][i] == frame[off + 8 + i];
    }
  }

  /**
   * The SYN-ACK test reads two bits of byte `ihl * 4 + 13`: the SYN bit
   * (0x02) and the ACK bit (0x10), and nothing else of the frame.
   */
  lemma SynAckBits(frame: seq<byte>)
    requires Readable(frame)
    ensures IsSynAck(frame) <==>
      var b := frame[TcpOffset(frame) + 13];
      (b / SynBit) % 2 == 1 && (b / AckBit) % 2 == 1
  {
    ReceivedTcpBytes(frame);
  }

  /** `print_tcp_flags` on an encoded header reports the flags and numbers written into it. */
  lemma SummarizeEncodeTcp(h: TcpHeader)
    ensures SummarizeTcp(EncodeTcp(h)) == TcpSummary(h.flags, h.seqNum, h.ackNum)
  {
    DecodeEncodeTcp(h);
  }

  /**
   * A frame made of an IP header of `ihl * 4` bytes, a TCP header and anything
   * after it is classified by that TCP header's flags and numbers.
   */
  lemma ReceivedTcpLocates(ipPart: seq<byte>, h: TcpHeader, rest: seq<byte>)
    requires |ipPart| > 0 && |ipPart| == (ipPart[0] % 0x10) * 4
    ensures Readable(ipPart + EncodeTcp(h) + rest)
    ensures ReceivedTcp(ipPart + EncodeTcp(h) + rest) == TcpSummary(h.flags, h.seqNum, h.ackNum)
    ensures IsSynAck(ipPart + EncodeTcp(h) + rest) <==> h.flags.syn && h.flags.ack
  {
    var frame := ipPart + EncodeTcp(h) + rest;
    var off := |ipPart|;
    assert frame[0] == ipPart[0];
    assert frame[off..off + TcpHeaderLen] == EncodeTcp(h);
    SummarizeEncodeTcp(h);
  }
}
