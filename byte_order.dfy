/**
 * Fixed-width unsigned integers and network byte order.
 *
 * The client writes every multi-byte header field through `htons`/`htonl`
 * and reads received ones back through `ntohl`.  On the wire the effect of
 * these calls is big-endian layout, so they are modelled here directly as
 * the maps between a number and its most-significant-byte-first bytes.
 */
module ByteOrder {

  type byte = x: int | 0 <= x < 0x100
  type u16 = x: int | 0 <= x < 0x1_0000
  type u32 = x: int | 0 <= x < 0x1_0000_0000

  /** A 4-bit field (the IP version and header length, the TCP data offset). */
  type nibble = x: int | 0 <= x < 0x10

  const TwoTo32: int := 0x1_0000_0000

  /** The most and least significant byte of a 16-bit value. */
  function HighByte(x: u16): byte { x / 0x100 }
  function LowByte(x: u16): byte { x % 0x100 }

  /** The most and least significant 16 bits of a 32-bit value. */
  function HighHalf(x: u32): u16 { x / 0x1_0000 }
  function LowHalf(x: u32): u16 { x % 0x1_0000 }

  /** `htons`: the two wire bytes of a 16-bit field, most significant first. */
  function Htons(x: u16): (r: seq<byte>)
    ensures |r| == 2
    ensures r[0] as int * 0x100 + r[1] == x
  {
    [HighByte(x), LowByte(x)]
  }

  /** `ntohs`: the 16-bit value held in two wire bytes. */
  function Ntohs(s: seq<byte>): (x: u16)
    requires |s| == 2
    ensures HighByte(x) == s[0] && LowByte(x) == s[1]
  {
    s[0] as int * 0x100 + s[1]
  }

  /** `htonl`: the four wire bytes of a 32-bit field, most significant first. */
  function Htonl(x: u32): (r: seq<byte>)
    ensures |r| == 4
    ensures ((r[0] as int * 0x100 + r[1]) * 0x100 + r[2]) * 0x100 + r[3] == x
  {
    [HighByte(HighHalf(x)), LowByte(HighHalf(x)), HighByte(LowHalf(x)), LowByte(LowHalf(x))]
  }

  /** `ntohl`: the 32-bit value held in four wire bytes. */
  function Ntohl(s: seq<byte>): (x: u32)
    requires |s| == 4
    ensures HighByte(HighHalf(x)) == s[0] && LowByte(HighHalf(x)) == s[1]
    ensures HighByte(LowHalf(x)) == s[2] && LowByte(LowHalf(x)) == s[3]
  {
    Ntohs(s[..2]) * 0x1_0000 + Ntohs(s[2..])
  }

  /** Reading back a 16-bit field gives the value that was written. */
  lemma NtohsHtons(x: u16)
    ensures Ntohs(Htons(x)) == x
  {
  }

  /** Every pair of wire bytes is the encoding of the value they decode to. */
  lemma HtonsNtohs(s: seq<byte>)
    requires |s| == 2
    ensures Htons(Ntohs(s)) == s
  {
  }

  /** `ntohl(htonl(x)) == x` for every 32-bit value. */
  lemma NtohlHtonl(x: u32)
    ensures Ntohl(Htonl(x)) == x
  {
    NtohsHtons(HighHalf(x));
    NtohsHtons(LowHalf(x));
  }

  /** Every four wire bytes are the encoding of the value they decode to. */
  lemma HtonlNtohl(s: seq<byte>)
    requires |s| == 4
    ensures Htonl(Ntohl(s)) == s
  {
    var hi, lo := Ntohs(s[..2]), Ntohs(s[2..]);
    var x := Ntohl(s);
    assert HighHalf(x) == hi && LowHalf(x) == lo;
    HtonsNtohs(s[..2]);
    HtonsNtohs(s[2..]);
    assert s == s[..2] + s[2..];
  }

  /** The 32-bit addition of the client (`ntohl(seq) + 1` on an unsigned value). */
  function AddWrap32(x: u32, y: u32): (r: u32)
    ensures r < x ==> r == x + y - TwoTo32
    ensures r >= x ==> r == x + y
  {
    (x + y) % TwoTo32
  }
}
