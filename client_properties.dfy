/**
 * What a run of the client amounts to: when it exits with 0, which
 * datagrams it puts on the wire, and how it answers a server.
 */
module ClientProperties {
  import opened ByteOrder
  import opened Headers
  import opened Builder
  import opened Client

  /**
   * Once the SYN is out, the first SYN-ACK decides the run: with
   * acknowledgement number 201 and a working `sendto` the client sends the
   * ACK for the peer's sequence number and exits with 0, otherwise it exits
   * with 1 having sent only the SYN.
   */
  lemma HandshakeAnswered(sys: Syscalls, stale: seq<byte>, trace: seq<Tick>, k: nat)
    requires |stale| == RecvBufferLen && SynSent(sys) && AnsweredAt(stale, trace, k)
    ensures var peer := PeerAt(stale, trace, k);
      Handshake(sys, stale, trace) ==
        if peer.ackNum == NextSeq && sys.ackSendOk then Run([SynWire(), AckWire(peer.seqNum)], 0)
        else Run([SynWire()], 1)
  {
    AnsweredAtAwaits(stale, trace, k);
  }

  /**
   * A clock reading past five seconds, or a `recv` timeout, before any
   * SYN-ACK makes the run fail; only the SYN was sent, if even that.
   */
  lemma HandshakeTimesOut(sys: Syscalls, stale: seq<byte>, trace: seq<Tick>, k: nat)
    requires |stale| == RecvBufferLen && k < |trace| && QuietPrefix(stale, trace, k)
    requires trace[k].elapsed > TimeoutSec || trace[k].recv.WouldBlock?
    ensures Handshake(sys, stale, trace) == Run(if SynSent(sys) then [SynWire()] else [], 1)
  {
    TimeoutEndsWait(stale, trace, k);
  }

  /**
   * The client exits with 0 exactly when every system call before the loop
   * succeeds, the first SYN-ACK acknowledges 201, and the ACK is sent.
   */
  lemma ExitZeroIff(sys: Syscalls, stale: seq<byte>, trace: seq<Tick>)
    requires |stale| == RecvBufferLen
    ensures Handshake(sys, stale, trace).exitCode == 0 <==>
      SynSent(sys) && sys.ackSendOk &&
      exists k: nat :: AnsweredAt(stale, trace, k) && PeerAt(stale, trace, k).ackNum == NextSeq
  {
    if Handshake(sys, stale, trace).exitCode == 0 {
      var k := AwaitAnsweredAt(stale, trace);
    }
    forall k: nat | SynSent(sys) && AnsweredAt(stale, trace, k)
      ensures Handshake(sys, stale, trace).exitCode == 0 <==>
        sys.ackSendOk && PeerAt(stale, trace, k).ackNum == NextSeq
    {
      HandshakeAnswered(sys, stale, trace, k);
    }
  }

  /**
   * A datagram built by the client, on the wire: 40 bytes whose `tot_len` is
   * 40, carrying exactly the one flag, and the sequence and acknowledgement
   * numbers as `print_tcp_flags` reports them; the client would never take
   * one for a SYN-ACK.
   */
  lemma HandshakeOnWire(id: u16, seqNum: u32, ackNum: u32, flag: Flag)
    ensures var w := EncodeDatagram(HandshakeHeaders(id, seqNum, ackNum, flag));
      |w| == DatagramLen && Ntohs(w[2..4]) == DatagramLen &&
      DecodeDatagram(w) == HandshakeHeaders(id, seqNum, ackNum, flag) &&
      SummarizeTcp(w[IpHeaderLen..]) == TcpSummary(OnlyFlag(flag), seqNum, ackNum) &&
      Readable(w) && !IsSynAck(w)
  {
    OnWire(HandshakeHeaders(id, seqNum, ackNum, flag));
  }

  /**
   * The ACK on the wire: 40 bytes, `tot_len` 40, exactly the ACK flag,
   * sequence number 201 and the peer's sequence number plus one, modulo
   * 2^32, as acknowledgement number.
   */
  lemma AckOnWire(peerSeq: u32)
    ensures |AckWire(peerSeq)| == DatagramLen && Ntohs(AckWire(peerSeq)[2..4]) == DatagramLen
    ensures DecodeDatagram(AckWire(peerSeq)) == AckDatagram(peerSeq)
    ensures SummarizeTcp(AckWire(peerSeq)[IpHeaderLen..]) ==
      TcpSummary(OnlyFlag(Ack), NextSeq, (peerSeq + 1) % TwoTo32)
    ensures Readable(AckWire(peerSeq)) && !IsSynAck(AckWire(peerSeq))
  {
    HandshakeOnWire(AckId, NextSeq, AddWrap32(peerSeq, 1), Ack);
  }

  /** A datagram of the handshake read back from its 40 wire bytes. */
  lemma OnWire(d: Datagram)
    requires d.ip.ihl == 5 && d.ip.totLen == DatagramLen
    ensures var w := EncodeDatagram(d);
      Ntohs(w[2..4]) == DatagramLen && DecodeDatagram(w) == d &&
      SummarizeTcp(w[IpHeaderLen..]) == TcpSummary(d.tcp.flags, d.tcp.seqNum, d.tcp.ackNum) &&
      Readable(w) && (IsSynAck(w) <==> d.tcp.flags.syn && d.tcp.flags.ack)
  {
    var w := EncodeDatagram(d);
    DecodeEncodeDatagram(d);
    assert w[2..4] == Htons(d.ip.totLen);
    NtohsHtons(d.ip.totLen);
    assert w[IpHeaderLen..] == EncodeTcp(d.tcp);
    SummarizeEncodeTcp(d.tcp);
    ReceivedTcpLocates(EncodeIp(d.ip), d.tcp, []);
    assert w == EncodeIp(d.ip) + EncodeTcp(d.tcp) + [];
  }

  /**
   * A server answering the SYN with one datagram (an IP header of 20 bytes
   * and a TCP header with SYN and ACK set) within the five seconds: the
   * client acknowledges its sequence number when it acknowledged 201, and
   * gives up otherwise.  Ports and addresses are not looked at.
   */
  lemma ServerAnswers(sys: Syscalls, stale: seq<byte>, elapsed: int, reply: Datagram)
    requires |stale| == RecvBufferLen && SynSent(sys) && sys.ackSendOk && elapsed <= TimeoutSec
    requires reply.ip.ihl == 5 && reply.tcp.flags.syn && reply.tcp.flags.ack
    ensures Handshake(sys, stale, [Tick(elapsed, Received(EncodeDatagram(reply)))]) ==
      if reply.tcp.ackNum == NextSeq then Run([SynWire(), AckWire(reply.tcp.seqNum)], 0)
      else Run([SynWire()], 1)
  {
    var ip, frame := EncodeIp(reply.ip), EncodeDatagram(reply);
    var b := Deliver(stale, frame);
    assert b == ip + EncodeTcp(reply.tcp) + stale[DatagramLen..];
    ReceivedTcpLocates(ip, reply.tcp, stale[DatagramLen..]);
  }

  /**
   * The exchange the client is written for: the server's SYN-ACK carries
   * sequence number 1000 and acknowledges 201, and the client answers with
   * acknowledgement number 1001 and exits with 0.
   */
  lemma ExampleHandshake(sys: Syscalls, stale: seq<byte>, reply: Datagram)
    requires |stale| == RecvBufferLen && SynSent(sys) && sys.ackSendOk
    requires reply.ip.ihl == 5 && reply.tcp.flags.syn && reply.tcp.flags.ack
    requires reply.tcp.seqNum == 1000 && reply.tcp.ackNum == 201
    ensures var r := Handshake(sys, stale, [Tick(1, Received(EncodeDatagram(reply)))]);
      r.exitCode == 0 && DecodeDatagram(r.sent[1]).tcp.ackNum == 1001
  {
    ServerAnswers(sys, stale, 1, reply);
    AckOnWire(1000);
  }

  /** A server sequence number of 2^32 - 1 is acknowledged with 0. */
  lemma AckNumberWraps()
    ensures AckDatagram(0xFFFF_FFFF).tcp.ackNum == 0
  {
  }
}
