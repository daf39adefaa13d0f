/** The packet as bytes: what the packet program reads from it, and the IP-in-IP packet it
    sends out (RFC 2003), with the round trip through decapsulation. */
module Encap {
  import opened Words
  import opened Checksum

  const ETH_LEN: nat := 14
  const IP_LEN: nat := 20
  const MIN_LEN: nat := 54   // Ethernet, IPv4 and TCP headers without options
  const ETH_ZLEN: nat := 60  // shortest Ethernet frame, without its check sequence
  const IPPROTO_IPIP: Byte := 4

  function Be16(b: seq<Byte>, i: nat): Word16
    requires i + 2 <= |b|
  {
    b[i] as nat * 0x100 + b[i + 1] as nat
  }

  function Le16(b: seq<Byte>, i: nat): Word16
    requires i + 2 <= |b|
  {
    b[i] as nat + b[i + 1] as nat * 0x100
  }

  function Le32(b: seq<Byte>, i: nat): Word32
    requires i + 4 <= |b|
  {
    Le16(b, i) as nat + Le16(b, i + 2) as nat * 0x1_0000
  }

  // ---------- IPv4 header fields, at the start of `h` ----------

  predicate IsHeader(h: seq<Byte>) { |h| >= IP_LEN }

  function Version(h: seq<Byte>): nat requires IsHeader(h) { h[0] / 16 }
  function HeaderWords(h: seq<Byte>): nat requires IsHeader(h) { h[0] % 16 }
  function TotLen(h: seq<Byte>): Word16 requires IsHeader(h) { Be16(h, 2) }
  function Protocol(h: seq<Byte>): Byte requires IsHeader(h) { h[9] }
  function Source(h: seq<Byte>): seq<Byte> requires IsHeader(h) { h[12..16] }
  function Dest(h: seq<Byte>): seq<Byte> requires IsHeader(h) { h[16..20] }

  // ---------- what is sent ----------

  /** A destination entry: four bytes of IP address, six bytes of hardware address. */
  predicate IsEntry(e: seq<Byte>) { |e| == 10 }

  function EthHeader(src: seq<Byte>, dst: seq<Byte>): (r: seq<Byte>)
    requires IsEntry(src) && IsEntry(dst)
    ensures |r| == ETH_LEN
  {
    dst[4..] + src[4..] + [0x08, 0x00]
  }

  function OuterTotLen(inner: seq<Byte>): Word16
    requires IsHeader(inner)
  {
    (TotLen(inner) + IP_LEN) % 0x1_0000
  }

  /** The outer header with an empty checksum field. */
  function BlankHeader(inner: seq<Byte>, src: seq<Byte>, dst: seq<Byte>): (r: seq<Byte>)
    requires IsHeader(inner) && IsEntry(src) && IsEntry(dst)
    ensures |r| == IP_LEN
  {
    var n := OuterTotLen(inner);
    [0x45, 0, n / 0x100, n % 0x100, 255 - inner[4], 255 - inner[5], 0x40, 0, 64, IPPROTO_IPIP, 0, 0,
     src[0], src[1], src[2], src[3], dst[0], dst[1], dst[2], dst[3]]
  }

  function OuterHeader(inner: seq<Byte>, src: seq<Byte>, dst: seq<Byte>): (r: seq<Byte>)
    requires IsHeader(inner) && IsEntry(src) && IsEntry(dst)
    ensures |r| == IP_LEN
  {
    var h := BlankHeader(inner, src, dst);
    WithChecksum(h, Complement(Fold(LeSum(h))))
  }

  /** How many bytes the program believes to be Ethernet padding, whatever the frame's length. */
  function Padding(inner: seq<Byte>): nat
    requires IsHeader(inner)
  {
    if ETH_LEN + TotLen(inner) < ETH_ZLEN then ETH_ZLEN - (ETH_LEN + TotLen(inner)) else 0
  }

  /** The frame behind the two new headers. */
  function Wrapped(f: seq<Byte>, src: seq<Byte>, dst: seq<Byte>): (r: seq<Byte>)
    requires |f| >= MIN_LEN && IsEntry(src) && IsEntry(dst)
    ensures |r| == |f| + IP_LEN
  {
    EthHeader(src, dst) + OuterHeader(f[ETH_LEN..], src, dst) + f[ETH_LEN..]
  }

  /** The packet sent for frame `f`. A datagram that claims fewer than 6 bytes in a frame
      without padding loses even a part of its new headers. */
  function Output(f: seq<Byte>, src: seq<Byte>, dst: seq<Byte>): (r: seq<Byte>)
    requires |f| >= MIN_LEN && IsEntry(src) && IsEntry(dst)
    ensures |r| == |f| + IP_LEN - Padding(f[ETH_LEN..])
  {
    var whole := Wrapped(f, src, dst);
    whole[..|whole| - Padding(f[ETH_LEN..])]
  }

  // ---------- the receiver's view ----------

  /** The receiver strips the Ethernet header and the outer IPv4 header, and finds the whole
      datagram of frame `f` behind them. */
  predicate Delivers(f: seq<Byte>, out: seq<Byte>)
    requires |f| >= MIN_LEN
  {
    var n := TotLen(f[ETH_LEN..]);
    ETH_LEN + n <= |f| && ETH_LEN + IP_LEN <= |out| && f[ETH_LEN..ETH_LEN + n] <= out[ETH_LEN + IP_LEN..]
  }

  /** The length of the frame that Ethernet makes of the datagram in `f`. */
  function FullLength(f: seq<Byte>): nat
    requires |f| >= MIN_LEN
  {
    var n := 14 + TotLen(f[14..]);
    if n < 60 then 60 else n
  }

  /** Behind the two headers, the datagram's frame is sent up to what looks like padding. */
  lemma SentBehindHeaders(f: seq<Byte>, src: seq<Byte>, dst: seq<Byte>)
    requires |f| >= MIN_LEN && IsEntry(src) && IsEntry(dst)
    requires ETH_LEN + IP_LEN <= |Output(f, src, dst)|
    ensures var inner := f[ETH_LEN..];
            Padding(inner) <= |inner|
            && Output(f, src, dst)[ETH_LEN + IP_LEN..] == inner[..|inner| - Padding(inner)]
  {
    assert Wrapped(f, src, dst)[ETH_LEN + IP_LEN..] == f[ETH_LEN..];
  }

  /** Encapsulation round trip (section 3.1 of RFC 2003): the inner datagram arrives byte for byte
      exactly when the frame was not shorter than Ethernet would have made it. */
  lemma RoundTrip(f: seq<Byte>, src: seq<Byte>, dst: seq<Byte>)
    requires |f| >= MIN_LEN && IsEntry(src) && IsEntry(dst)
    ensures Delivers(f, Output(f, src, dst)) <==> |f| >= FullLength(f)
  {
    var inner, out := f[ETH_LEN..], Output(f, src, dst);
    var n, p := TotLen(inner), Padding(inner);
    if ETH_LEN + IP_LEN <= |out| && ETH_LEN + n <= |f| {
      SentBehindHeaders(f, src, dst);
      assert f[ETH_LEN..ETH_LEN + n] == inner[..n];
      if n <= |inner| - p {
        assert inner[..n] == inner[..|inner| - p][..n];
      }
    }
  }

  /** Nothing but the datagram is sent behind the two headers exactly when the frame held
      nothing but the datagram and Ethernet's own padding. */
  lemma ExactLength(f: seq<Byte>, src: seq<Byte>, dst: seq<Byte>)
    requires |f| >= MIN_LEN && IsEntry(src) && IsEntry(dst)
    ensures |Output(f, src, dst)| == ETH_LEN + IP_LEN + TotLen(f[ETH_LEN..]) <==> |f| == FullLength(f)
    ensures |f| == FullLength(f) ==>
      Output(f, src, dst)[ETH_LEN + IP_LEN..] == f[ETH_LEN..ETH_LEN + TotLen(f[ETH_LEN..])]
  {
    var inner := f[ETH_LEN..];
    if |f| == FullLength(f) {
      SentBehindHeaders(f, src, dst);
      assert inner[..|inner| - Padding(inner)] == f[ETH_LEN..ETH_LEN + TotLen(inner)];
    }
  }

  /** A frame for the backend with entry `dst`, from the balancer with entry `src`: the hardware
      addresses in the order of an Ethernet frame, and the type for IPv4. */
  predicate Addressed(out: seq<Byte>, src: seq<Byte>, dst: seq<Byte>)
    requires IsEntry(src) && IsEntry(dst)
  {
    |out| >= ETH_LEN && out[..6] == dst[4..] && out[6..12] == src[4..] && out[12..14] == [0x08, 0x00]
  }

  /** Whatever is trimmed, the frame that is sent is addressed to its backend. */
  lemma SentFrameIsAddressed(f: seq<Byte>, src: seq<Byte>, dst: seq<Byte>)
    requires |f| >= MIN_LEN && IsEntry(src) && IsEntry(dst)
    ensures Addressed(Output(f, src, dst), src, dst) && Addressed(Wrapped(f, src, dst), src, dst)
  {
    assert Wrapped(f, src, dst)[..ETH_LEN] == Output(f, src, dst)[..ETH_LEN] == dst[4..] + src[4..] + [0x08, 0x00];
  }

  /** The checksum is written into two bytes; the rest of the header stays. */
  lemma OuterHeaderBytes(inner: seq<Byte>, src: seq<Byte>, dst: seq<Byte>)
    requires IsHeader(inner) && IsEntry(src) && IsEntry(dst)
    ensures forall i :: 0 <= i < IP_LEN && i != 10 && i != 11 ==>
      OuterHeader(inner, src, dst)[i] == BlankHeader(inner, src, dst)[i]
  {
  }

  /** The length field: 20 more than the inner one, modulo 2^16. */
  lemma OuterLengthField(inner: seq<Byte>, src: seq<Byte>, dst: seq<Byte>)
    requires IsHeader(inner) && IsEntry(src) && IsEntry(dst)
    ensures TotLen(OuterHeader(inner, src, dst)) == (TotLen(inner) + 20) % 0x1_0000
  {
    var h, n := OuterHeader(inner, src, dst), OuterTotLen(inner);
    OuterHeaderBytes(inner, src, dst);
    assert h[2] == n / 0x100 && h[3] == n % 0x100;
  }

  lemma OuterIdField(inner: seq<Byte>, src: seq<Byte>, dst: seq<Byte>)
    requires IsHeader(inner) && IsEntry(src) && IsEntry(dst)
    ensures Be16(OuterHeader(inner, src, dst), 4) == 0xffff - Be16(inner, 4)
    ensures Be16(OuterHeader(inner, src, dst), 6) == 0x4000
  {
    var h := OuterHeader(inner, src, dst);
    OuterHeaderBytes(inner, src, dst);
    assert h[4] == 255 - inner[4] && h[5] == 255 - inner[5] && h[6] == 0x40 && h[7] == 0;
  }

  lemma OuterAddresses(inner: seq<Byte>, src: seq<Byte>, dst: seq<Byte>)
    requires IsHeader(inner) && IsEntry(src) && IsEntry(dst)
    ensures Source(OuterHeader(inner, src, dst)) == src[..4] && Dest(OuterHeader(inner, src, dst)) == dst[..4]
  {
    OuterHeaderBytes(inner, src, dst);
  }

  /** The outer header says what section 3.1 of RFC 2003 asks for; its length field is
      the inner length plus 20 exactly when that sum fits 16 bits. */
  lemma OuterHeaderFields(inner: seq<Byte>, src: seq<Byte>, dst: seq<Byte>)
    requires IsHeader(inner) && IsEntry(src) && IsEntry(dst)
    ensures var h := OuterHeader(inner, src, dst);
            && Version(h) == 4 && HeaderWords(h) == 5 && Protocol(h) == 4
            && Source(h) == src[..4] && Dest(h) == dst[..4]
            && TotLen(h) == (TotLen(inner) + 20) % 0x1_0000
            && (TotLen(h) == TotLen(inner) + IP_LEN <==> TotLen(inner) <= 65515)
            && Be16(h, 4) == 0xffff - Be16(inner, 4)
            && Be16(h, 6) == 0x4000 && h[8] == 64 && h[1] == 0
  {
    var h := OuterHeader(inner, src, dst);
    OuterLengthField(inner, src, dst);
    OuterIdField(inner, src, dst);
    OuterAddresses(inner, src, dst);
    OuterHeaderBytes(inner, src, dst);
    assert h[0] == 0x45 && h[1] == 0 && h[8] == 64 && h[9] == 4;
  }

  /** The sum of the outer header, in terms of the frame and the two entries. */
  function HeaderSum(inner: seq<Byte>, src: seq<Byte>, dst: seq<Byte>): nat
    requires IsHeader(inner) && IsEntry(src) && IsEntry(dst)
  {
    0x4c5 + Swap(OuterTotLen(inner)) + (0xffff - Le16(inner, 4)) + Le16(src, 0) + Le16(src, 2) + Le16(dst, 0) + Le16(dst, 2)
  }

  lemma HeaderSumIsLeSum(inner: seq<Byte>, src: seq<Byte>, dst: seq<Byte>)
    requires IsHeader(inner) && IsEntry(src) && IsEntry(dst)
    ensures LeSum(BlankHeader(inner, src, dst)) == HeaderSum(inner, src, dst)
  {
    LeSumOfHeader(BlankHeader(inner, src, dst));
  }

  /** The outer checksum verifies exactly when the single fold of this sum leaves no carry. */
  lemma OuterChecksumVerifies(inner: seq<Byte>, src: seq<Byte>, dst: seq<Byte>)
    requires IsHeader(inner) && IsEntry(src) && IsEntry(dst)
    ensures Verifies(OuterHeader(inner, src, dst)) <==> Fold(HeaderSum(inner, src, dst)) < 0x1_0000
  {
    HeaderSumIsLeSum(inner, src, dst);
    ChecksumVerifies(BlankHeader(inner, src, dst));
  }
}
