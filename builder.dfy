/**
 * Construction of the client's SYN and ACK datagrams: `main` clears the
 * 4096-byte `datagram` buffer and then assigns the fields of the IP header
 * at offset 0 and of the TCP header at offset 20, in network byte order.
 */
module Builder {
  import opened ByteOrder
  import opened Headers

  /** `SERVER_IP` and the source address `inet_addr("127.0.0.1")`, as 32-bit numbers. */
  const ServerAddr: u32 := 0x7F00_0001
  const LocalAddr: u32 := 0x7F00_0001
  /** `SERVER_PORT` and the client's own port. */
  const ServerPort: u16 := 12345
  const ClientPort: u16 := 54321
  /** The initial sequence number of the SYN, and the one the ACK carries. */
  const InitialSeq: u32 := 200
  const NextSeq: u32 := 201
  /** IP identification of the SYN and of the ACK datagram. */
  const SynId: u16 := 54321
  const AckId: u16 := 54322
  const Ttl: byte := 64
  const Window: u16 := 8192
  /** Size of the `datagram` buffer. */
  const BufferLen: nat := 4096

  /** The one flag a datagram of the handshake sets. */
  datatype Flag = Syn | Ack

  /** The flag set holding only `flag`. */
  function OnlyFlag(flag: Flag): (f: TcpFlags)
    ensures f.syn <==> flag == Syn
    ensures f.ack <==> flag == Ack
    ensures !f.fin && !f.rst && !f.psh && !f.urg
  {
    TcpFlags(0, false, flag == Ack, false, false, flag == Syn, false)
  }

  /**
   * The headers both blocks of `main` write, differing only in id, numbers
   * and flag: header lengths that agree with the 40 bytes sent, a TCP
   * segment from the client's port to the server's, and the one flag.
   */
  function HandshakeHeaders(id: u16, seqNum: u32, ackNum: u32, flag: Flag): (d: Datagram)
    ensures d.ip.ihl as int * 4 == IpHeaderLen && d.tcp.doff as int * 4 == TcpHeaderLen
    ensures d.ip.totLen == IpHeaderLen + TcpHeaderLen
    ensures d.ip.protocol == IpProtoTcp && d.ip.daddr == ServerAddr && d.tcp.dest == ServerPort
    ensures d.ip.id == id && d.tcp.seqNum == seqNum && d.tcp.ackNum == ackNum
    ensures d.tcp.flags == OnlyFlag(flag)
  {
    Datagram(IpHeader(4, 5, 0, DatagramLen as u16, id, 0, Ttl, IpProtoTcp, 0, LocalAddr, ServerAddr),
             TcpHeader(ClientPort, ServerPort, seqNum, ackNum, 5, 0, OnlyFlag(flag), Window, 0, 0))
  }

  /**
   * The SYN opening the handshake: SYN alone, the initial sequence number,
   * which the SYN uses up, so that the server must acknowledge `NextSeq`.
   */
  function SynDatagram(): (d: Datagram)
    ensures d.tcp.flags.syn && !d.tcp.flags.ack && d.ip.id == SynId
    ensures d.tcp.seqNum == InitialSeq && AddWrap32(d.tcp.seqNum, 1) == NextSeq
  {
    HandshakeHeaders(SynId, InitialSeq, 0, Syn)
  }

  /**
   * The ACK answering a SYN-ACK whose sequence number is `peerSeq`: ACK
   * alone, the sequence number after the SYN's, and the peer's sequence
   * number plus one, modulo 2^32, as acknowledgement number.
   */
  function AckDatagram(peerSeq: u32): (d: Datagram)
    ensures d.tcp.flags.ack && !d.tcp.flags.syn && d.ip.id == AckId
    ensures d.tcp.seqNum == AddWrap32(InitialSeq, 1)
    ensures d.tcp.ackNum == (peerSeq + 1) % TwoTo32
  {
    HandshakeHeaders(AckId, NextSeq, AddWrap32(peerSeq, 1), Ack)
  }

  /** Assignment to a 4-bit field in the low half of a byte (`ihl`). */
  function WithLowNibble(b: byte, v: nibble): (r: byte)
    ensures r % 0x10 == v && r / 0x10 == b / 0x10
  {
    (b / 0x10) * 0x10 + v
  }

  /** Assignment to a 4-bit field in the high half of a byte (`version`, `doff`). */
  function WithHighNibble(b: byte, v: nibble): (r: byte)
    ensures r / 0x10 == v && r % 0x10 == b % 0x10
  {
    v as int * 0x10 + b % 0x10
  }

  /** Assignment `tcph->syn = 1` or `tcph->ack = 1` to the flag byte. */
  function WithFlag(b: byte, flag: Flag): (r: byte)
    ensures ParseFlags(r) == if flag == Syn then ParseFlags(b).(syn := true)
                             else ParseFlags(b).(ack := true)
  {
    var f := ParseFlags(b);
    ParseFlagsByte(f.(syn := true));
    ParseFlagsByte(f.(ack := true));
    FlagsByte(if flag == Syn then f.(syn := true) else f.(ack := true))
  }

  /** On the cleared flag byte, setting one flag leaves exactly that flag set. */
  lemma FlagOnCleared(flag: Flag)
    ensures WithFlag(0, flag) == FlagsByte(OnlyFlag(flag))
  {
  }

  /** `memset(datagram, 0, 4096)`. */
  method Clear(a: array<byte>)
    modifies a
    ensures forall i :: 0 <= i < a.Length ==> a[i] == 0
  {
    forall i | 0 <= i < a.Length {
      a[i] := 0;
    }
  }

  /** A slice of an array is the concatenation of its two halves at `mid`. */
  lemma Join(a: array<byte>, lo: nat, mid: nat, hi: nat)
    requires lo <= mid <= hi <= a.Length
    ensures a[lo..hi] == a[lo..mid] + a[mid..hi]
  {
  }

  /** Assigning `ihl` 5 and then `version` 4 leaves byte 0 as 0x45, whatever it held. */
  lemma VersionIhlByte(b: byte)
    ensures WithHighNibble(WithLowNibble(b, 5), 4) == 0x45
  {
  }

  /** `iph->ihl = 5` and `iph->version = 4`: byte 0 becomes 0x45, whatever it held. */
  method FillVersionIhl(datagram: array<byte>)
    requires 1 <= datagram.Length
    modifies datagram
    ensures datagram[0] == 0x45
    ensures forall i :: 0 < i < datagram.Length ==> datagram[i] == old(datagram[i])
  {
    VersionIhlByte(datagram[0]);
    datagram[0] := WithLowNibble(datagram[0], 5);
    datagram[0] := WithHighNibble(datagram[0], 4);
  }

  /**
   * `iph->ihl` to `iph->frag_off` (the first two 32-bit words of the IP
   * header).
   */
  method FillIpFront(datagram: array<byte>, id: u16)
    requires 8 <= datagram.Length
    modifies datagram
    ensures datagram[0..8] == [0x45, 0] + Htons(DatagramLen as u16) + Htons(id) + Htons(0)
    ensures forall i :: 0 <= i < datagram.Length && !(0 <= i < 8) ==> datagram[i] == old(datagram[i])
  {
    FillVersionIhl(datagram);
    datagram[1] := 0;
    var totLen, ident, fragOff := Htons(DatagramLen as u16), Htons(id), Htons(0);
    datagram[2], datagram[3] := totLen[0], totLen[1];
    datagram[4], datagram[5] := ident[0], ident[1];
    datagram[6], datagram[7] := fragOff[0], fragOff[1];
  }

  /** `iph->ttl`, `iph->protocol` and `iph->check` (the third 32-bit word of the IP header). */
  method FillIpTransport(datagram: array<byte>)
    requires 12 <= datagram.Length
    modifies datagram
    ensures datagram[8..12] == [Ttl, IpProtoTcp] + Htons(0)
    ensures forall i :: 0 <= i < datagram.Length && !(8 <= i < 12) ==> datagram[i] == old(datagram[i])
  {
    datagram[8] := Ttl;
    datagram[9] := IpProtoTcp;
    var check := Htons(0);
    datagram[10], datagram[11] := check[0], check[1];
  }

  /** `iph->saddr` and `iph->daddr` (the last two 32-bit words of the IP header). */
  method FillIpAddresses(datagram: array<byte>)
    requires IpHeaderLen <= datagram.Length
    modifies datagram
    ensures datagram[12..IpHeaderLen] == Htonl(LocalAddr) + Htonl(ServerAddr)
    ensures forall i :: 0 <= i < datagram.Length && !(12 <= i < IpHeaderLen) ==> datagram[i] == old(datagram[i])
  {
    var saddr, daddr := Htonl(LocalAddr), Htonl(ServerAddr);
    datagram[12], datagram[13], datagram[14], datagram[15] := saddr[0], saddr[1], saddr[2], saddr[3];
    datagram[16], datagram[17], datagram[18], datagram[19] := daddr[0], daddr[1], daddr[2], daddr[3];
  }

  /** The IP header of the handshake, 32-bit word by 32-bit word. */
  lemma IpWords(id: u16)
    ensures EncodeIp(HandshakeHeaders(id, 0, 0, Syn).ip) ==
      ([0x45, 0] + Htons(DatagramLen as u16) + Htons(id) + Htons(0)) +
      ([Ttl, IpProtoTcp] + Htons(0)) + (Htonl(LocalAddr) + Htonl(ServerAddr))
  {
  }

  /** The assignments to `iph`: every field of the IP header. */
  method FillIp(datagram: array<byte>, id: u16)
    requires IpHeaderLen <= datagram.Length
    modifies datagram
    ensures datagram[0..IpHeaderLen] == EncodeIp(HandshakeHeaders(id, 0, 0, Syn).ip)
    ensures forall i :: 0 <= i < datagram.Length && !(0 <= i < IpHeaderLen) ==> datagram[i] == old(datagram[i])
  {
    FillIpFront(datagram, id);
    ghost var front := datagram[0..8];
    FillIpTransport(datagram);
    ghost var transport := datagram[8..12];
    FillIpAddresses(datagram);
    assert datagram[0..8] == front && datagram[8..12] == transport;
    Join(datagram, 0, 8, 12);
    Join(datagram, 0, 12, IpHeaderLen);
    IpWords(id);
  }

  /** `tcph->source` and `tcph->dest` (the first 32-bit word of the TCP header). */
  method FillTcpPorts(datagram: array<byte>)
    requires 24 <= datagram.Length
    modifies datagram
    ensures datagram[IpHeaderLen..24] == Htons(ClientPort) + Htons(ServerPort)
    ensures forall i :: 0 <= i < datagram.Length && !(IpHeaderLen <= i < 24) ==> datagram[i] == old(datagram[i])
  {
    var source, dest := Htons(ClientPort), Htons(ServerPort);
    datagram[20], datagram[21] := source[0], source[1];
    datagram[22], datagram[23] := dest[0], dest[1];
  }

  /** `tcph->seq` and `tcph->ack_seq` (the second and third 32-bit words of the TCP header). */
  method FillTcpNumbers(datagram: array<byte>, seqNum: u32, ackNum: u32)
    requires 32 <= datagram.Length
    modifies datagram
    ensures datagram[24..32] == Htonl(seqNum) + Htonl(ackNum)
    ensures forall i :: 0 <= i < datagram.Length && !(24 <= i < 32) ==> datagram[i] == old(datagram[i])
  {
    var sn, an := Htonl(seqNum), Htonl(ackNum);
    datagram[24], datagram[25], datagram[26], datagram[27] := sn[0], sn[1], sn[2], sn[3];
    datagram[28], datagram[29], datagram[30], datagram[31] := an[0], an[1], an[2], an[3];
  }

  /** `tcph->doff` and the one flag, over cleared bytes: `res1` and the other flags stay 0. */
  method FillTcpControl(datagram: array<byte>, flag: Flag)
    requires 34 <= datagram.Length && datagram[32] == 0 && datagram[33] == 0
    modifies datagram
    ensures datagram[32..34] == [0x50, FlagsByte(OnlyFlag(flag))]
    ensures forall i :: 0 <= i < datagram.Length && !(32 <= i < 34) ==> datagram[i] == old(datagram[i])
  {
    FlagOnCleared(flag);
    var doff := WithHighNibble(datagram[32], 5);
    var flags := WithFlag(datagram[33], flag);
    assert doff == 0x50 && flags == FlagsByte(OnlyFlag(flag));
    datagram[32], datagram[33] := doff, flags;
  }

  /** `tcph->window` and `tcph->check`. */
  method FillTcpWindow(datagram: array<byte>)
    requires 38 <= datagram.Length
    modifies datagram
    ensures datagram[34..38] == Htons(Window) + Htons(0)
    ensures forall i :: 0 <= i < datagram.Length && !(34 <= i < 38) ==> datagram[i] == old(datagram[i])
  {
    var window, check := Htons(Window), Htons(0);
    datagram[34], datagram[35] := window[0], window[1];
    datagram[36], datagram[37] := check[0], check[1];
  }

  /** The TCP header of the handshake, 32-bit word by 32-bit word. */
  lemma TcpWords(seqNum: u32, ackNum: u32, flag: Flag)
    ensures EncodeTcp(HandshakeHeaders(0, seqNum, ackNum, flag).tcp) ==
      (Htons(ClientPort) + Htons(ServerPort)) + (Htonl(seqNum) + Htonl(ackNum)) +
      [0x50, FlagsByte(OnlyFlag(flag))] + (Htons(Window) + Htons(0)) + [0, 0]
  {
  }

  /**
   * The assignments to `tcph` at offset 20, over cleared bytes: every field
   * of the TCP header; `urg_ptr` is never assigned and stays 0.
   */
  method FillTcp(datagram: array<byte>, seqNum: u32, ackNum: u32, flag: Flag)
    requires DatagramLen <= datagram.Length
    requires forall i :: 32 <= i < DatagramLen ==> datagram[i] == 0
    modifies datagram
    ensures datagram[IpHeaderLen..DatagramLen] == EncodeTcp(HandshakeHeaders(0, seqNum, ackNum, flag).tcp)
    ensures forall i :: 0 <= i < datagram.Length && !(IpHeaderLen <= i < DatagramLen) ==> datagram[i] == old(datagram[i])
  {
    FillTcpPorts(datagram);
    ghost var ports := datagram[IpHeaderLen..24];
    FillTcpNumbers(datagram, seqNum, ackNum);
    ghost var numbers := datagram[24..32];
    FillTcpControl(datagram, flag);
    ghost var control := datagram[32..34];
    FillTcpWindow(datagram);
    assert datagram[IpHeaderLen..24] == ports && datagram[24..32] == numbers;
    assert datagram[32..34] == control && datagram[38..DatagramLen] == [0, 0];
    Join(datagram, IpHeaderLen, 24, 32);
    Join(datagram, IpHeaderLen, 32, 34);
    Join(datagram, IpHeaderLen, 34, 38);
    Join(datagram, IpHeaderLen, 38, DatagramLen);
    TcpWords(seqNum, ackNum, flag);
  }

  /**
   * `memset` followed by the field assignments: the buffer's first 40 bytes
   * are the encoded headers and every byte after them is zero.
   */
  method Build(datagram: array<byte>, id: u16, seqNum: u32, ackNum: u32, flag: Flag)
    requires datagram.Length == BufferLen
    modifies datagram
    ensures datagram[0..DatagramLen] == EncodeDatagram(HandshakeHeaders(id, seqNum, ackNum, flag))
    ensures forall i :: DatagramLen <= i < datagram.Length ==> datagram[i] == 0
  {
    Clear(datagram);
    FillIp(datagram, id);
    ghost var ip := datagram[0..IpHeaderLen];
    FillTcp(datagram, seqNum, ackNum, flag);
    assert datagram[0..IpHeaderLen] == ip;
    Join(datagram, 0, IpHeaderLen, DatagramLen);
  }
}
