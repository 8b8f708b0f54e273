/**
 * The handshake driver of `main`: set up the raw socket, send the SYN, wait
 * for a SYN-ACK until five seconds have passed or `recv` times out, check
 * its acknowledgement number, answer with an ACK, and exit with 0 exactly
 * when a SYN-ACK was received and the client did not give up afterwards.
 *
 * The outside world is a parameter.  `Syscalls` says which system calls
 * succeed; a trace of `Tick`s gives, for each pass through the loop, the
 * seconds elapsed since the start time and what `recv` returned.  The
 * 65536-byte receive buffer is a value: its first contents are whatever the
 * stack held (`stale`), and each `recv` overwrites a prefix of it.
 */
module Client {
  import opened ByteOrder
  import opened Headers
  import opened Builder

  /** `TIMEOUT_SEC`: the loop gives up once more than this many seconds have passed. */
  const TimeoutSec: int := 5
  /** Size of the receive buffer `buffer`. */
  const RecvBufferLen: nat := 0x1_0000

  /**
   * Which system calls succeed: `socket`, the `IP_HDRINCL` and
   * `SO_RCVTIMEO` options, and the `sendto` of the SYN and of the ACK.
   */
  datatype Syscalls = Syscalls(socketOk: bool, hdrInclOk: bool, rcvTimeoOk: bool,
                               synSendOk: bool, ackSendOk: bool)

  /** What one `recv` call returns: a frame, a timeout (`EAGAIN`/`EWOULDBLOCK`) or another error. */
  datatype RecvResult = Received(bytes: seq<byte>) | WouldBlock | OtherError

  /** One pass through the loop: the elapsed time read at its top, and the `recv` result. */
  datatype Tick = Tick(elapsed: int, recv: RecvResult)

  /**
   * How the wait for the SYN-ACK ends.  `Undecided` means the trace ran out
   * first; the real loop would then still be waiting.
   */
  datatype Outcome = ClockExpired | RecvTimedOut | Answered(peer: TcpSummary) | Undecided

  /** What the process did: the datagrams `sendto` accepted, in order, and the exit code. */
  datatype Run = Run(sent: seq<seq<byte>>, exitCode: int)

  /**
   * The receive buffer after `recv` copied `bytes` into it: at most
   * `RecvBufferLen` bytes are received, and the bytes past them keep their
   * earlier contents.
   */
  function Deliver(buffer: seq<byte>, bytes: seq<byte>): (r: seq<byte>)
    requires |buffer| == RecvBufferLen
    ensures |r| == RecvBufferLen
    ensures forall i :: 0 <= i < RecvBufferLen ==> r[i] == if i < |bytes| then bytes[i] else buffer[i]
  {
    if |bytes| <= RecvBufferLen then bytes + buffer[|bytes|..] else bytes[..RecvBufferLen]
  }

  /** The header at offset `ihl * 4` always lies inside the receive buffer. */
  lemma BufferReadable(buffer: seq<byte>)
    requires |buffer| == RecvBufferLen
    ensures Readable(buffer)
  {
  }

  /**
   * The wait for the SYN-ACK over the remaining passes of the loop: the
   * clock is checked before `recv`, a `recv` timeout ends the wait, other
   * errors and frames that are not a SYN-ACK are skipped, and the first
   * SYN-ACK found in the buffer is answered.
   */
  function Await(buffer: seq<byte>, trace: seq<Tick>): (o: Outcome)
    requires |buffer| == RecvBufferLen
    ensures o.Answered? ==> o.peer.flags.syn && o.peer.flags.ack
    ensures o == Undecided ==> forall j :: 0 <= j < |trace| ==> trace[j].elapsed <= TimeoutSec
    decreases |trace|
  {
    if trace == [] then Undecided
    else if trace[0].elapsed > TimeoutSec then ClockExpired
    else match trace[0].recv
      case WouldBlock => RecvTimedOut
      case OtherError => Await(buffer, trace[1..])
      case Received(bytes) =>
        var b := Deliver(buffer, bytes);
        BufferReadable(b);
        if IsSynAck(b) then Answered(ReceivedTcp(b)) else Await(b, trace[1..])
  }

  /** A pass that reaches `recv` in time and neither times out nor finds a SYN-ACK. */
  predicate Quiet(buffer: seq<byte>, tick: Tick)
    requires |buffer| == RecvBufferLen
  {
    tick.elapsed <= TimeoutSec && !tick.recv.WouldBlock? &&
    (tick.recv.Received? ==> var b := Deliver(buffer, tick.recv.bytes); BufferReadable(b); !IsSynAck(b))
  }

  /** The receive buffer after a pass that reached `recv`. */
  function AfterTick(buffer: seq<byte>, tick: Tick): (r: seq<byte>)
    requires |buffer| == RecvBufferLen
    ensures |r| == RecvBufferLen
  {
    if tick.recv.Received? then Deliver(buffer, tick.recv.bytes) else buffer
  }

  /** The receive buffer after the passes `ticks`, each of which reached `recv`. */
  function BufferAfter(buffer: seq<byte>, ticks: seq<Tick>): (r: seq<byte>)
    requires |buffer| == RecvBufferLen
    ensures |r| == RecvBufferLen
    decreases |ticks|
  {
    if ticks == [] then buffer else BufferAfter(AfterTick(buffer, ticks[0]), ticks[1..])
  }

  /** The first `k` passes of `trace` are quiet. */
  predicate QuietPrefix(buffer: seq<byte>, trace: seq<Tick>, k: nat)
    requires |buffer| == RecvBufferLen && k <= |trace|
  {
    forall j :: 0 <= j < k ==> Quiet(BufferAfter(buffer, trace[..j]), trace[j])
  }

  /** The buffer after `j + 1` passes is the buffer after the first pass followed by `j` more. */
  lemma BufferAfterFirst(buffer: seq<byte>, trace: seq<Tick>, j: nat)
    requires |buffer| == RecvBufferLen && j < |trace|
    ensures BufferAfter(buffer, trace[..j + 1]) == BufferAfter(AfterTick(buffer, trace[0]), trace[1..][..j])
  {
    assert trace[..j + 1][0] == trace[0];
    assert trace[..j + 1][1..] == trace[1..][..j];
  }

  /** Quiet passes change nothing but the buffer: the wait continues after them. */
  lemma {:induction false} AwaitAfterQuiet(buffer: seq<byte>, trace: seq<Tick>, k: nat)
    requires |buffer| == RecvBufferLen && k <= |trace|
    requires QuietPrefix(buffer, trace, k)
    ensures Await(buffer, trace) == Await(BufferAfter(buffer, trace[..k]), trace[k..])
    decreases k
  {
    if k > 0 {
      var b := AfterTick(buffer, trace[0]);
      assert Quiet(BufferAfter(buffer, trace[..0]), trace[0]);
      assert Await(buffer, trace) == Await(b, trace[1..]);
      forall j | 0 <= j < k - 1
        ensures Quiet(BufferAfter(b, trace[1..][..j]), trace[1..][j])
      {
        assert Quiet(BufferAfter(buffer, trace[..j + 1]), trace[j + 1]);
        BufferAfterFirst(buffer, trace, j);
      }
      AwaitAfterQuiet(b, trace[1..], k - 1);
      BufferAfterFirst(buffer, trace, k - 1);
      assert trace[1..][k - 1..] == trace[k..];
    }
  }

  /** Pass `k` delivers the first SYN-ACK: every pass before it is quiet. */
  predicate AnsweredAt(buffer: seq<byte>, trace: seq<Tick>, k: nat)
    requires |buffer| == RecvBufferLen
  {
    k < |trace| && QuietPrefix(buffer, trace, k) &&
    trace[k].elapsed <= TimeoutSec && trace[k].recv.Received? &&
    var b := Deliver(BufferAfter(buffer, trace[..k]), trace[k].recv.bytes);
    BufferReadable(b);
    IsSynAck(b)
  }

  /** The numbers of the SYN-ACK delivered by pass `k`. */
  function PeerAt(buffer: seq<byte>, trace: seq<Tick>, k: nat): TcpSummary
    requires |buffer| == RecvBufferLen && AnsweredAt(buffer, trace, k)
  {
    var b := Deliver(BufferAfter(buffer, trace[..k]), trace[k].recv.bytes);
    BufferReadable(b);
    ReceivedTcp(b)
  }

  /** A pass delivering the first SYN-ACK makes the wait end with that SYN-ACK. */
  lemma AnsweredAtAwaits(buffer: seq<byte>, trace: seq<Tick>, k: nat)
    requires |buffer| == RecvBufferLen && AnsweredAt(buffer, trace, k)
    ensures Await(buffer, trace) == Answered(PeerAt(buffer, trace, k))
  {
    AwaitAfterQuiet(buffer, trace, k);
    assert trace[k..][0] == trace[k];
  }

  /** A wait that ends with a SYN-ACK ends with the one of some pass `k` answering it first. */
  lemma {:induction false} AwaitAnsweredAt(buffer: seq<byte>, trace: seq<Tick>) returns (k: nat)
    requires |buffer| == RecvBufferLen && Await(buffer, trace).Answered?
    ensures AnsweredAt(buffer, trace, k) && Await(buffer, trace).peer == PeerAt(buffer, trace, k)
    decreases |trace|
  {
    var b := AfterTick(buffer, trace[0]);
    if trace[0].recv.Received? && IsSynAck(b) {
      k := 0;
    } else {
      var k' := AwaitAnsweredAt(b, trace[1..]);
      k := k' + 1;
      forall j | 0 <= j < k
        ensures Quiet(BufferAfter(buffer, trace[..j]), trace[j])
      {
        if j > 0 {
          assert Quiet(BufferAfter(b, trace[1..][..j - 1]), trace[1..][j - 1]);
          BufferAfterFirst(buffer, trace, j - 1);
        }
      }
      BufferAfterFirst(buffer, trace, k');
    }
  }

  /** The wait ends with a SYN-ACK exactly when some pass delivers the first one. */
  lemma AwaitAnsweredIff(buffer: seq<byte>, trace: seq<Tick>)
    requires |buffer| == RecvBufferLen
    ensures Await(buffer, trace).Answered? <==> exists k: nat :: AnsweredAt(buffer, trace, k)
  {
    if Await(buffer, trace).Answered? {
      var k := AwaitAnsweredAt(buffer, trace);
    } else {
      forall k: nat | AnsweredAt(buffer, trace, k)
        ensures false
      {
        AnsweredAtAwaits(buffer, trace, k);
      }
    }
  }

  /**
   * After quiet passes, a pass whose clock reading is past the timeout, or
   * whose `recv` times out, ends the wait without a SYN-ACK.
   */
  lemma TimeoutEndsWait(buffer: seq<byte>, trace: seq<Tick>, k: nat)
    requires |buffer| == RecvBufferLen && k < |trace| && QuietPrefix(buffer, trace, k)
    requires trace[k].elapsed > TimeoutSec || trace[k].recv.WouldBlock?
    ensures Await(buffer, trace) == if trace[k].elapsed > TimeoutSec then ClockExpired else RecvTimedOut
  {
    AwaitAfterQuiet(buffer, trace, k);
    assert trace[k..][0] == trace[k];
  }

  /** Everything before the receive loop succeeds and the SYN has been sent. */
  predicate SynSent(sys: Syscalls)
  {
    sys.socketOk && sys.hdrInclOk && sys.rcvTimeoOk && sys.synSendOk
  }

  /** The 40 bytes of the SYN on the wire. */
  function SynWire(): seq<byte>
  {
    EncodeDatagram(SynDatagram())
  }

  /** The 40 bytes of the ACK answering sequence number `peerSeq`. */
  function AckWire(peerSeq: u32): seq<byte>
  {
    EncodeDatagram(AckDatagram(peerSeq))
  }

  /**
   * What `main` does, given the system call results, the initial contents of
   * the receive buffer and the passes of the loop.
   */
  function Handshake(sys: Syscalls, stale: seq<byte>, trace: seq<Tick>): (r: Run)
    requires |stale| == RecvBufferLen
    ensures r.exitCode == 0 || r.exitCode == 1
    ensures r.exitCode == 0 <==> |r.sent| == 2
    ensures r.sent == [] <==> !SynSent(sys)
    ensures |r.sent| <= 2 && (r.sent != [] ==> r.sent[0] == SynWire())
  {
    if !SynSent(sys) then Run([], 1)
    else match Await(stale, trace)
      case Answered(peer) =>
        if peer.ackNum != NextSeq || !sys.ackSendOk then Run([SynWire()], 1)
        else Run([SynWire(), AckWire(peer.seqNum)], 0)
      case _ => Run([SynWire()], 1)
  }

  /**
   * `main` itself: the system calls in order, the SYN built in `datagram`
   * and sent, then the receive loop, which either gives up or answers the
   * first SYN-ACK by rebuilding `datagram` as the ACK.
   */
  method RunClient(sys: Syscalls, stale: seq<byte>, trace: seq<Tick>) returns (exitCode: int, sent: seq<seq<byte>>)
    requires |stale| == RecvBufferLen
    requires Await(stale, trace) != Undecided
    ensures Run(sent, exitCode) == Handshake(sys, stale, trace)
  {
    sent := [];
    if !sys.socketOk {
      return 1, sent;
    }
    if !sys.hdrInclOk {
      return 1, sent;
    }
    if !sys.rcvTimeoOk {
      return 1, sent;
    }
    var datagram := new byte[BufferLen];
    Build(datagram, SynId, InitialSeq, 0, Syn);
    if !sys.synSendOk {
      return 1, sent;
    }
    sent := sent + [datagram[0..DatagramLen]];

    var buffer := stale;
    var receivedSynAck := false;
    var i := 0;
    while true
      invariant 0 <= i < |trace| && |buffer| == RecvBufferLen
      invariant Await(buffer, trace[i..]) == Await(stale, trace)
      invariant sent == [SynWire()] && !receivedSynAck
      decreases |trace| - i
    {
      var tick := trace[i];
      assert trace[i..][0] == tick && trace[i..][1..] == trace[i + 1..];
      if tick.elapsed > TimeoutSec {
        break;
      }
      if tick.recv.WouldBlock? {
        break;
      }
      if tick.recv.OtherError? {
        i := i + 1;
        continue;
      }
      buffer := Deliver(buffer, tick.recv.bytes);
      BufferReadable(buffer);
      if IsSynAck(buffer) {
        receivedSynAck := true;
        var peer := ReceivedTcp(buffer);
        if peer.ackNum != NextSeq {
          return 1, sent;
        }
        Build(datagram, AckId, NextSeq, AddWrap32(peer.seqNum, 1), Ack);
        if !sys.ackSendOk {
          return 1, sent;
        }
        sent := sent + [datagram[0..DatagramLen]];
        break;
      }
      i := i + 1;
    }
    exitCode := if receivedSynAck then 0 else 1;
  }
}
