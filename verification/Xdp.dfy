/** The packet program itself: classification, lookup, encapsulation in place, checksum,
    padding and counters, on a packet buffer with head room. */
module Xdp {
  import opened Words
  import opened Bindings
  import opened Wrappers
  import opened Checksum
  import opened Counters
  import opened Encap
  import opened Jhash
  import opened FlowHash

  /** The context of an XDP program: the packet lies in `buf[data..dataEnd]`. */
  class XdpMd {
    const buf: array<Byte>
    var data: nat
    var dataEnd: nat

    ghost predicate Valid()
      reads this
    {
      data <= dataEnd <= buf.Length
    }

    function Frame(): seq<Byte>
      requires Valid()
      reads this, buf
    {
      buf[data..dataEnd]
    }

    constructor (buf: array<Byte>, data: nat, dataEnd: nat)
      requires data <= dataEnd <= buf.Length
      ensures Valid() && this.buf == buf && this.data == data && this.dataEnd == dataEnd
    {
      this.buf, this.data, this.dataEnd := buf, data, dataEnd;
    }

    /** Grows the packet by `n` bytes at its head. */
    method AdjustHead(n: nat) returns (failed: bool)
      requires Valid()
      modifies this`data
      ensures Valid()
      ensures failed ==> data == old(data)
      ensures !failed ==> n <= old(data) && data == old(data) - n
    {
      if data < n {
        return true;
      }
      if * {
        return true;
      }
      data := data - n;
      return false;
    }

    /** Cuts `n` bytes off the packet's tail; the kernel insists on an Ethernet header. */
    method AdjustTail(n: nat) returns (failed: bool)
      requires Valid()
      modifies this`dataEnd
      ensures Valid()
      ensures failed ==> dataEnd == old(dataEnd)
      ensures !failed ==> n + ETH_LEN <= old(dataEnd) - data && dataEnd == old(dataEnd) - n
    {
      if dataEnd < data + ETH_LEN + n {
        return true;
      }
      if * {
        return true;
      }
      dataEnd := dataEnd - n;
      return false;
    }
  }

  /** One CPU's counters. */
  class StatCounters {
    var rxPacketTotal: Word64
    var rxTotalSize: Word64
    var tooShortPacketTotal: Word64
    var nonIpv4PacketTotal: Word64
    var ipOptionPacketTotal: Word64
    var nonSupportedProtoPacketTotal: Word64
    var noVipMatchTotal: Word64
    var failedAdjustHeadTotal: Word64
    var failedAdjustTailTotal: Word64

    function Value(): Stats
      reads this
    {
      Stats(rxPacketTotal, rxTotalSize, tooShortPacketTotal, nonIpv4PacketTotal, ipOptionPacketTotal,
            nonSupportedProtoPacketTotal, noVipMatchTotal, failedAdjustHeadTotal, failedAdjustTailTotal)
    }

    constructor ()
      ensures Value() == ZERO
    {
      rxPacketTotal, rxTotalSize, tooShortPacketTotal, nonIpv4PacketTotal, ipOptionPacketTotal := 0, 0, 0, 0, 0;
      nonSupportedProtoPacketTotal, noVipMatchTotal, failedAdjustHeadTotal, failedAdjustTailTotal := 0, 0, 0, 0;
    }
  }

  // ---------- classification and lookup ----------

  /** What becomes of a frame without looking at the tables; None if it is to be balanced. */
  function Classify(f: seq<Byte>, vip: Word32): Option<Outcome> {
    if |f| < MIN_LEN then Some(TooShort)
    else
      var ip := f[ETH_LEN..];
      if Version(ip) != 4 then Some(NonIpv4)
      else if HeaderWords(ip) != 5 then Some(IpOption)
      else if Le32(f, 30) != vip then Some(NoVipMatch)
      else if Protocol(ip) != IPPROTO_TCP then Some(NonSupportedProto)
      else if Be16(f, 36) == 22 then Some(SshPassed)
      else None
  }

  function FlowOf(f: seq<Byte>): Flow
    requires |f| >= MIN_LEN
  {
    Flow(Le32(f, 26), Le32(f, 30), Le16(f, 34), Le16(f, 36))
  }

  /** The slot of the lookup table that a frame selects. */
  function KeyOf(f: seq<Byte>): (key: nat)
    requires |f| >= MIN_LEN
    ensures key < MAGLEV_TABLE_SIZE
  {
    Mix(MixInput(FlowOf(f))).c % MAGLEV_TABLE_SIZE
  }

  /** The slot that a frame would be looked up at; frames that are too short never are. */
  function FrameKey(f: seq<Byte>): (key: nat)
    ensures key < MAGLEV_TABLE_SIZE
  {
    if |f| < MIN_LEN then 0 else KeyOf(f)
  }

  /** The checks by bytes: length, version and header length, the four bytes of the balanced address,
      TCP, port 22. Of several that fail, the first one in this order decides. */
  lemma ClassifyByBytes(f: seq<Byte>, vip: Word32, a: Byte, b: Byte, c: Byte, d: Byte)
    requires vip == Number(a, b, c, d)
    ensures Classify(f, vip) ==
      if |f| < 54 then Some(TooShort)
      else if !(0x40 <= f[14] < 0x50) then Some(NonIpv4)
      else if f[14] != 0x45 then Some(IpOption)
      else if !(f[30] == a && f[31] == b && f[32] == c && f[33] == d) then Some(NoVipMatch)
      else if f[23] != 6 then Some(NonSupportedProto)
      else if f[36] == 0 && f[37] == 22 then Some(SshPassed)
      else None
  {
    if |f| >= 54 {
      FourBytes(f[30], f[31], f[32], f[33], a, b, c, d);
    }
  }

  lemma TwoHalves(l: Word16, h: Word16, l': Word16, h': Word16)
    ensures l + h * 0x1_0000 == l' + h' * 0x1_0000 <==> l == l' && h == h'
  {
  }

  lemma TwoBytes(a: Byte, b: Byte, a': Byte, b': Byte)
    ensures a as nat + b as nat * 0x100 == a' as nat + b' as nat * 0x100 <==> a == a' && b == b'
  {
  }

  lemma FourBytes(a: Byte, b: Byte, c: Byte, d: Byte, a': Byte, b': Byte, c': Byte, d': Byte)
    ensures a as nat + b as nat * 0x100 + (c as nat + d as nat * 0x100) * 0x1_0000 == Number(a', b', c', d')
       <==> a == a' && b == b' && c == c' && d == d'
  {
    var l: Word16, h: Word16 := a as nat + b as nat * 0x100, c as nat + d as nat * 0x100;
    var l': Word16, h': Word16 := a' as nat + b' as nat * 0x100, c' as nat + d' as nat * 0x100;
    assert Number(a', b', c', d') == l' + h' * 0x1_0000;
    TwoHalves(l, h, l', h');
    TwoBytes(a, b, a', b');
    TwoBytes(c, d, c', d');
  }

  function Number(a: Byte, b: Byte, c: Byte, d: Byte): nat {
    a as nat + 0x100 * b as nat + 0x1_0000 * c as nat + 0x100_0000 * d as nat
  }

  lemma FlowBytes(f: seq<Byte>)
    requires |f| >= MIN_LEN
    ensures FlowOf(f).srcIp == Number(f[26], f[27], f[28], f[29]) && FlowOf(f).dstIp == Number(f[30], f[31], f[32], f[33])
    ensures FlowOf(f).srcPort / 0x100 == f[35] && FlowOf(f).srcPort % 0x100 == f[34]
    ensures FlowOf(f).dstPort == f[36] as nat + 0x100 * f[37] as nat
  {
  }

  /** The slot by bytes: addresses at 26 and 30, ports at 34 and 36, of which byte 35 is or-ed with 6. */
  lemma KeyByBytes(f: seq<Byte>, t: State)
    requires |f| >= MIN_LEN
    requires t.a == (Number(f[26], f[27], f[28], f[29]) + 0x9e3779b9) % 0x1_0000_0000
    requires t.b == (Number(f[30], f[31], f[32], f[33]) + 0x9e3779b9) % 0x1_0000_0000
    requires t.c == Or(f[35], 6) * 0x100_0000 + f[34] as nat * 0x1_0000 + (f[36] as nat + 0x100 * f[37] as nat)
    ensures KeyOf(f) == Mix(t).c % 65537
  {
    FlowBytes(f);
    MixInputInArithmetic(FlowOf(f));
    assert t == MixInput(FlowOf(f));
  }

  lemma SameNumber(f: seq<Byte>, g: seq<Byte>, i: nat)
    requires i + 4 <= |f| && i + 4 <= |g|
    ensures Le32(f, i) == Le32(g, i) <==> f[i] == g[i] && f[i + 1] == g[i + 1] && f[i + 2] == g[i + 2] && f[i + 3] == g[i + 3]
  {
    FourBytes(f[i], f[i + 1], f[i + 2], f[i + 3], g[i], g[i + 1], g[i + 2], g[i + 3]);
  }

  lemma SamePort(f: seq<Byte>, g: seq<Byte>, i: nat)
    requires i + 2 <= |f| && i + 2 <= |g|
    ensures Le16(f, i) == Le16(g, i) <==> f[i] == g[i] && f[i + 1] == g[i + 1]
    ensures Masked(Le16(f, i)) == Masked(Le16(g, i)) <==>
      f[i] == g[i] && f[i + 1] / 8 == g[i + 1] / 8 && f[i + 1] % 2 == g[i + 1] % 2
  {
    var h, h' := f[i + 1], g[i + 1];
    assert Le16(f, i) / 0x100 == h && Le16(f, i) % 0x100 == f[i] && Le16(g, i) / 0x100 == h' && Le16(g, i) % 0x100 == g[i];
    MaskedSplit(Le16(f, i));
    MaskedSplit(Le16(g, i));
    MaskedMerges(8 * (h / 8) + h % 2, f[i], 8 * (h' / 8) + h' % 2, g[i]);
  }

  /** Bytes 26 to 37 agree, save for bits 0x06 of byte 35. */
  predicate SameFlowBytes(f: seq<Byte>, g: seq<Byte>)
    requires |f| >= MIN_LEN && |g| >= MIN_LEN
  {
    (forall i :: 26 <= i < 38 && i != 35 ==> f[i] == g[i]) && f[35] / 8 == g[35] / 8 && f[35] % 2 == g[35] % 2
  }

  lemma SameFlow(f: seq<Byte>, g: seq<Byte>)
    requires |f| >= MIN_LEN && |g| >= MIN_LEN
    ensures SameFlowBytes(f, g) <==>
      && Le32(f, 26) == Le32(g, 26) && Le32(f, 30) == Le32(g, 30)
      && Le16(f, 36) == Le16(g, 36) && Masked(Le16(f, 34)) == Masked(Le16(g, 34))
  {
    SameNumber(f, g, 26);
    SameNumber(f, g, 30);
    SamePort(f, g, 34);
    SamePort(f, g, 36);
  }

  /** The mixed states of two frames agree exactly if these bytes do. */
  lemma FramesMerge(f: seq<Byte>, g: seq<Byte>)
    requires |f| >= MIN_LEN && |g| >= MIN_LEN
    ensures Mix(MixInput(FlowOf(f))) == Mix(MixInput(FlowOf(g))) <==> SameFlowBytes(f, g)
  {
    FlowsMerge(FlowOf(f), FlowOf(g));
    SameFlow(f, g);
  }

  /** The destination entry behind a slot; None stands for the two assertion failures. */
  function DestinationAt(key: nat, table: seq<nat>, entries: seq<seq<Byte>>): Option<seq<Byte>> {
    if key < |table| && table[key] < |entries| then Some(entries[table[key]]) else None
  }

  // ---------- a packet whose new checksum is wrong ----------

  /** A TCP segment of 40 bytes from 10.0.0.9 to port 80 of 192.0.2.10, in a full-size frame. */
  const IP_HEADER: seq<Byte> := [0x45, 0, 0, 40, 0, 0, 0, 0, 64, 6, 0, 0, 10, 0, 0, 9, 192, 0, 2, 10]
  const SEGMENT: seq<Byte> := IP_HEADER + [4, 210, 0, 80] + seq(22, _ => 0)
  const FRAME: seq<Byte> := [0, 0, 0, 0, 0, 0, 0, 0, 0, 0, 0, 0, 8, 0] + SEGMENT
  const VIP: Word32 := 0xa02_00c0
  const LB_ENTRY: seq<Byte> := [10, 0, 0, 1, 0, 0, 0, 0, 0, 0]
  const CACHE_ENTRY: seq<Byte> := [49, 190, 0, 0, 0, 0, 0, 0, 0, 0]

  lemma FrameIsBalanced()
    ensures |FRAME| == 60 && Classify(FRAME, VIP) == None && FRAME[ETH_LEN..] == SEGMENT
  {
    assert FRAME[ETH_LEN..] == SEGMENT;
    assert forall i :: 0 <= i < 20 ==> FRAME[ETH_LEN + i] == IP_HEADER[i];
    assert FRAME[ETH_LEN] == 0x45 && FRAME[ETH_LEN + 9] == IPPROTO_TCP;
    assert FRAME[30] == 192 && FRAME[31] == 0 && FRAME[32] == 2 && FRAME[33] == 10;
    assert FRAME[36] == 0 && FRAME[37] == 80;
    assert Le16(FRAME, 30) == 192 && Le16(FRAME, 32) == 2562;
    assert Be16(FRAME, 36) == 80;
  }

  lemma SegmentCarries()
    ensures TotLen(SEGMENT) == 40 && Fold(HeaderSum(SEGMENT, LB_ENTRY, CACHE_ENTRY)) >= 0x1_0000
  {
    assert forall i :: 0 <= i < 20 ==> SEGMENT[i] == IP_HEADER[i];
    assert SEGMENT[2] == 0 && SEGMENT[3] == 40 && SEGMENT[4] == 0 && SEGMENT[5] == 0;
    assert OuterTotLen(SEGMENT) == 60 && Le16(SEGMENT, 4) == 0;
    assert LB_ENTRY[0] == 10 && LB_ENTRY[1] == 0 && LB_ENTRY[2] == 0 && LB_ENTRY[3] == 1;
    assert Le16(LB_ENTRY, 0) == 10 && Le16(LB_ENTRY, 2) == 0x100;
    assert CACHE_ENTRY[0] == 49 && CACHE_ENTRY[1] == 190 && CACHE_ENTRY[2] == 0 && CACHE_ENTRY[3] == 0;
    assert Le16(CACHE_ENTRY, 0) == 0xbe31 && Le16(CACHE_ENTRY, 2) == 0;
  }

  lemma SentHeader(f: seq<Byte>, src: seq<Byte>, dst: seq<Byte>)
    requires |f| >= MIN_LEN && IsEntry(src) && IsEntry(dst) && Padding(f[ETH_LEN..]) <= |f| - ETH_LEN
    ensures ETH_LEN + IP_LEN <= |Output(f, src, dst)|
    ensures Output(f, src, dst)[ETH_LEN..ETH_LEN + IP_LEN] == OuterHeader(f[ETH_LEN..], src, dst)
  {
  }

  /** For a packet that the program accepts and sends, the checksum of the header sent does not
      verify; and a computation in network byte order would have stored other bytes. */
  lemma SingleFoldCanFail()
    ensures Classify(FRAME, VIP) == None && ETH_LEN + IP_LEN <= |Output(FRAME, LB_ENTRY, CACHE_ENTRY)|
    ensures !Verifies(Output(FRAME, LB_ENTRY, CACHE_ENTRY)[ETH_LEN..ETH_LEN + IP_LEN])
    ensures var h := BlankHeader(FRAME[ETH_LEN..], LB_ENTRY, CACHE_ENTRY);
            Complement(Fold(LeSum(h))) != Swap(Complement(Fold(BeSum(h))))
  {
    FrameIsBalanced();
    SegmentCarries();
    SentHeader(FRAME, LB_ENTRY, CACHE_ENTRY);
    OuterChecksumVerifies(SEGMENT, LB_ENTRY, CACHE_ENTRY);
    HeaderSumIsLeSum(SEGMENT, LB_ENTRY, CACHE_ENTRY);
    SameBytesInEitherOrder(BlankHeader(SEGMENT, LB_ENTRY, CACHE_ENTRY));
  }

  // ---------- encapsulation in place ----------

  method WriteEthHeader(buf: array<Byte>, at: nat, src: seq<Byte>, dst: seq<Byte>)
    requires IsEntry(src) && IsEntry(dst) && at + ETH_LEN <= buf.Length
    modifies buf
    ensures buf[at..at + ETH_LEN] == EthHeader(src, dst)
    ensures forall k :: 0 <= k < buf.Length && !(at <= k < at + ETH_LEN) ==> buf[k] == old(buf[k])
  {
    buf[at + 12], buf[at + 13] := 0x08, 0x00;
    forall i | 0 <= i < 6 {
      buf[at + 6 + i] := src[4 + i];
    }
    forall i | 0 <= i < 6 {
      buf[at + i] := dst[4 + i];
    }
  }

  method WriteFixedFields(buf: array<Byte>, at: nat, n: Word16, id0: Byte, id1: Byte)
    requires at + IP_LEN <= buf.Length
    modifies buf
    ensures buf[at..at + 12] == [0x45, 0, n / 0x100, n % 0x100, id0, id1, 0x40, 0, 64, IPPROTO_IPIP, 0, 0]
    ensures forall k :: 0 <= k < buf.Length && !(at <= k < at + 12) ==> buf[k] == old(buf[k])
  {
    var fields := [0x45, 0, n / 0x100, n % 0x100, id0, id1, 0x40, 0, 64, IPPROTO_IPIP, 0, 0];
    forall k | 0 <= k < 12 {
      buf[at + k] := fields[k];
    }
  }

  method WriteAddresses(buf: array<Byte>, at: nat, src: seq<Byte>, dst: seq<Byte>)
    requires IsEntry(src) && IsEntry(dst) && at + 8 <= buf.Length
    modifies buf
    ensures buf[at..at + 8] == src[..4] + dst[..4]
    ensures forall k :: 0 <= k < buf.Length && !(at <= k < at + 8) ==> buf[k] == old(buf[k])
  {
    forall i | 0 <= i < 4 {
      buf[at + i] := src[i];
    }
    forall i | 0 <= i < 4 {
      buf[at + 4 + i] := dst[i];
    }
  }

  lemma BlankHeaderParts(inner: seq<Byte>, src: seq<Byte>, dst: seq<Byte>)
    requires IsHeader(inner) && IsEntry(src) && IsEntry(dst)
    ensures var n := OuterTotLen(inner);
            BlankHeader(inner, src, dst)
            == [0x45, 0, n / 0x100, n % 0x100, 255 - inner[4], 255 - inner[5], 0x40, 0, 64, IPPROTO_IPIP, 0, 0]
               + (src[..4] + dst[..4])
  {
  }

  /** Fills in the outer header, field by field, in front of the inner one. */
  method WriteOuterHeader(buf: array<Byte>, at: nat, src: seq<Byte>, dst: seq<Byte>)
    requires IsEntry(src) && IsEntry(dst) && at + 2 * IP_LEN <= buf.Length
    modifies buf
    ensures buf[at..at + IP_LEN] == BlankHeader(old(buf[at + IP_LEN..at + 2 * IP_LEN]), src, dst)
    ensures forall k :: 0 <= k < buf.Length && !(at <= k < at + IP_LEN) ==> buf[k] == old(buf[k])
  {
    ghost var inner := buf[at + IP_LEN..at + 2 * IP_LEN];
    BlankHeaderParts(inner, src, dst);
    var iphdrTotLen := buf[at + 22] as nat * 0x100 + buf[at + 23] as nat;
    assert iphdrTotLen == TotLen(inner);
    WriteFixedFields(buf, at, (iphdrTotLen + IP_LEN) % 0x1_0000, 255 - buf[at + 24], 255 - buf[at + 25]);
    ghost var fixed := buf[at..at + 12];
    assert inner[4] == old(buf[at + 24]) && inner[5] == old(buf[at + 25]);
    WriteAddresses(buf, at + 12, src, dst);
    assert buf[at..at + 12] == fixed;
    assert buf[at..at + IP_LEN] == buf[at..at + 12] + buf[at + 12..at + 20];
  }

  method SumHeader(buf: array<Byte>, at: nat) returns (sum: nat)
    requires at + IP_LEN <= buf.Length
    ensures sum == LeSum(buf[at..at + IP_LEN])
  {
    ghost var h := buf[at..at + IP_LEN];
    sum := 0;
    for i := 0 to IP_LEN / 2
      invariant sum + LeSum(h[2 * i..]) == LeSum(h)
    {
      LeSumFrom(h, 2 * i);
      sum := sum + (buf[at + 2 * i] as nat + buf[at + 2 * i + 1] as nat * 0x100);
    }
  }

  method WriteChecksum(buf: array<Byte>, at: nat)
    requires at + IP_LEN <= buf.Length
    modifies buf
    ensures var h := old(buf[at..at + IP_LEN]);
            buf[at..at + IP_LEN] == WithChecksum(h, Complement(Fold(LeSum(h))))
    ensures forall k :: 0 <= k < buf.Length && !(at <= k < at + IP_LEN) ==> buf[k] == old(buf[k])
  {
    var sum := SumHeader(buf, at);
    sum := Fold(sum);
    var check := Complement(sum);
    buf[at + 10], buf[at + 11] := check % 0x100, check / 0x100;
  }

  method WriteIpHeader(buf: array<Byte>, at: nat, src: seq<Byte>, dst: seq<Byte>)
    requires IsEntry(src) && IsEntry(dst) && at + 2 * IP_LEN <= buf.Length
    modifies buf
    ensures buf[at..at + IP_LEN] == OuterHeader(old(buf[at + IP_LEN..at + 2 * IP_LEN]), src, dst)
    ensures forall k :: 0 <= k < buf.Length && !(at <= k < at + IP_LEN) ==> buf[k] == old(buf[k])
  {
    WriteOuterHeader(buf, at, src, dst);
    WriteChecksum(buf, at);
  }

  /** The outer header depends only on the first 20 bytes of what it wraps. */
  lemma OuterHeaderOfPrefix(inner: seq<Byte>, src: seq<Byte>, dst: seq<Byte>)
    requires IsHeader(inner) && IsEntry(src) && IsEntry(dst)
    ensures OuterHeader(inner[..IP_LEN], src, dst) == OuterHeader(inner, src, dst)
  {
  }

  lemma Rewritten(was: seq<Byte>, now: seq<Byte>, i: nat, j: nat)
    requires |was| == |now| && i <= j <= |was| && forall k :: i <= k < j ==> now[k] == was[k]
    ensures now[i..j] == was[i..j]
  {
  }

  lemma Shortened(b: seq<Byte>, i: nat, j: nat, l: nat)
    requires i <= j <= l <= |b|
    ensures b[i..j] == b[i..l][..j - i]
  {
  }

  lemma SliceJoins(b: seq<Byte>, i: nat, j: nat, k: nat, l: nat)
    requires i <= j <= k <= l <= |b|
    ensures b[i..l] == b[i..j] + b[j..k] + b[k..l]
  {
  }

  /** Wraps the packet whose head was grown by 20 bytes: both headers are written in place,
      and nothing behind them or in front of them changes. */
  method Encapsulate(ctx: XdpMd, src: seq<Byte>, dst: seq<Byte>)
    requires ctx.Valid() && IsEntry(src) && IsEntry(dst)
    requires ctx.dataEnd - ctx.data >= ETH_LEN + 2 * IP_LEN
    modifies ctx.buf
    ensures var inner := old(ctx.buf[ctx.data + ETH_LEN + IP_LEN..ctx.dataEnd]);
            ctx.Frame() == EthHeader(src, dst) + OuterHeader(inner, src, dst) + inner
    ensures forall k :: 0 <= k < ctx.data || ctx.dataEnd <= k < ctx.buf.Length ==> ctx.buf[k] == old(ctx.buf[k])
  {
    var buf, eth, ip2, ip := ctx.buf, ctx.data, ctx.data + ETH_LEN, ctx.data + ETH_LEN + IP_LEN;
    ghost var inner, before := buf[ip..ctx.dataEnd], buf[..];
    OuterHeaderOfPrefix(inner, src, dst);
    WriteEthHeader(buf, eth, src, dst);
    ghost var middle := buf[..];
    Rewritten(before, middle, ip, ctx.dataEnd);
    assert middle[eth..ip2] == EthHeader(src, dst) && buf[ip..ip + IP_LEN] == inner[..IP_LEN];
    WriteIpHeader(buf, ip2, src, dst);
    Rewritten(middle, buf[..], eth, ip2);
    Rewritten(middle, buf[..], ip, ctx.dataEnd);
    SliceJoins(buf[..], eth, ip2, ip, ctx.dataEnd);
  }

  // ---------- the program ----------

  /** The checks at the start, each with its counter; None lets the packet through. */
  method Inspect(ctx: XdpMd, c: StatCounters, vip: Word32) returns (o: Option<Outcome>)
    requires ctx.Valid()
    modifies c
    ensures o == Classify(ctx.Frame(), vip)
    ensures c.Value() == Count(old(c.Value()), if o.Some? then o.value else Transmitted, |ctx.Frame()|)
  {
    var f := ctx.buf[ctx.data..ctx.dataEnd];
    if ctx.data + MIN_LEN > ctx.dataEnd {
      c.tooShortPacketTotal := Wrap64(c.tooShortPacketTotal + 1);
      return Some(TooShort);
    }
    if f[14] / 16 != 4 {
      c.nonIpv4PacketTotal := Wrap64(c.nonIpv4PacketTotal + 1);
      return Some(NonIpv4);
    }
    if f[14] % 16 != 5 {
      c.ipOptionPacketTotal := Wrap64(c.ipOptionPacketTotal + 1);
      return Some(IpOption);
    }
    if Le32(f, 30) != vip {
      c.noVipMatchTotal := Wrap64(c.noVipMatchTotal + 1);
      return Some(NoVipMatch);
    }
    if f[23] != IPPROTO_TCP {
      c.nonSupportedProtoPacketTotal := Wrap64(c.nonSupportedProtoPacketTotal + 1);
      return Some(NonSupportedProto);
    }
    c.rxPacketTotal := Wrap64(c.rxPacketTotal + 1);
    c.rxTotalSize := Wrap64(c.rxTotalSize + (ctx.dataEnd - ctx.data));
    if Be16(f, 36) == 22 {
      return Some(SshPassed);
    }
    return None;
  }

  /** Picks the destination of a packet, from the table as it is at this moment. */
  method LookUp(f: seq<Byte>, destinations: BpfArray<seq<Byte>>, maglev: BpfArray<nat>) returns (dest: Option<seq<Byte>>)
    requires |f| >= MIN_LEN
    ensures dest == DestinationAt(FrameKey(f), maglev.entries, destinations.entries)
  {
    var hash := GenerateHashFromFlow(FlowOf(f));
    var destIdx := maglev.Lookup(hash % MAGLEV_TABLE_SIZE);
    if destIdx.None? {
      return None;
    }
    return destinations.Lookup(destIdx.value);
  }

  /** Makes room in front of the packet and puts both headers there. */
  method Wrap(ctx: XdpMd, src: seq<Byte>, dest: seq<Byte>) returns (failed: bool)
    requires ctx.Valid() && ctx.dataEnd - ctx.data >= MIN_LEN && IsEntry(src) && IsEntry(dest)
    modifies ctx`data, ctx.buf
    ensures ctx.Valid() && ctx.data <= old(ctx.data)
    ensures ctx.Frame() == if failed then old(ctx.Frame()) else Wrapped(old(ctx.Frame()), src, dest)
    ensures forall k :: 0 <= k < ctx.data || ctx.dataEnd <= k < ctx.buf.Length ==> ctx.buf[k] == old(ctx.buf[k])
  {
    assert ctx.Frame()[ETH_LEN..] == ctx.buf[ctx.data + ETH_LEN..ctx.dataEnd];
    failed := ctx.AdjustHead(IP_LEN);
    if !failed {
      Encapsulate(ctx, src, dest);
    }
  }

  lemma WrappedLength(f: seq<Byte>, src: seq<Byte>, dest: seq<Byte>)
    requires |f| >= MIN_LEN && IsEntry(src) && IsEntry(dest)
    ensures Be16(Wrapped(f, src, dest), ETH_LEN + IP_LEN + 2) == TotLen(f[ETH_LEN..])
  {
  }

  /** Encapsulates the packet for `dest` and trims what looks like padding. */
  method Send(ctx: XdpMd, src: seq<Byte>, dest: seq<Byte>) returns (o: Outcome)
    requires ctx.Valid() && ctx.dataEnd - ctx.data >= MIN_LEN && IsEntry(src) && IsEntry(dest)
    modifies ctx, ctx.buf
    ensures ctx.Valid()
    ensures o.HeadFailed? || o.TailFailed? || o.Transmitted?
    ensures o.HeadFailed? ==> ctx.Frame() == old(ctx.Frame())
    ensures o.TailFailed? ==>
      Padding(old(ctx.Frame())[ETH_LEN..]) > 0 && ctx.Frame() == Wrapped(old(ctx.Frame()), src, dest)
    ensures o.Transmitted? ==> ctx.Frame() == Output(old(ctx.Frame()), src, dest)
    ensures !o.HeadFailed? ==> Addressed(ctx.Frame(), src, dest)
    ensures forall k :: 0 <= k < ctx.data || old(ctx.dataEnd) <= k < ctx.buf.Length ==> ctx.buf[k] == old(ctx.buf[k])
  {
    ghost var f := ctx.Frame();
    SentFrameIsAddressed(f, src, dest);
    WrappedLength(f, src, dest);
    var failed := Wrap(ctx, src, dest);
    if failed {
      return HeadFailed;
    }
    var iphdrTotLen := Be16(ctx.buf[ctx.data..ctx.dataEnd], ETH_LEN + IP_LEN + 2);
    var padding := ETH_ZLEN - (ETH_LEN + iphdrTotLen as int);
    if padding > 0 {
      failed := Trim(ctx, padding);
      if failed {
        return TailFailed;
      }
    }
    return Transmitted;
  }

  /** Cuts `n` bytes off the packet's tail, or leaves the packet as it is. */
  method Trim(ctx: XdpMd, n: nat) returns (failed: bool)
    requires ctx.Valid()
    modifies ctx`dataEnd
    ensures ctx.Valid()
    ensures failed ==> ctx.Frame() == old(ctx.Frame())
    ensures !failed ==> n <= |old(ctx.Frame())| && ctx.Frame() == old(ctx.Frame())[..|old(ctx.Frame())| - n]
    ensures ctx.dataEnd <= old(ctx.dataEnd)
  {
    ghost var end := ctx.dataEnd;
    failed := ctx.AdjustTail(n);
    if !failed {
      Shortened(ctx.buf[..], ctx.data, ctx.dataEnd, end);
    }
  }

  /** A failed adjustment is counted on top of the received packet. */
  lemma CountReceived(s: Stats, o: Outcome, size: nat)
    requires !Rejected(o)
    ensures var r := Count(s, Transmitted, size);
            Count(s, o, size) ==
              if o.HeadFailed? then r.(headFailed := Wrap64(r.headFailed + 1))
              else if o.TailFailed? then r.(tailFailed := Wrap64(r.tailFailed + 1))
              else r
  {
  }

  /** Adds the counter of a failed adjustment, if any. */
  method CountFailure(c: StatCounters, o: Outcome, ghost start: Stats, ghost size: nat)
    requires !Rejected(o) && c.Value() == Count(start, Transmitted, size)
    modifies c
    ensures c.Value() == Count(start, o, size)
  {
    CountReceived(start, o, size);
    if o.HeadFailed? {
      c.failedAdjustHeadTotal := Wrap64(c.failedAdjustHeadTotal + 1);
    } else if o.TailFailed? {
      c.failedAdjustTailTotal := Wrap64(c.failedAdjustTailTotal + 1);
    }
  }

  predicate AllEntries(entries: seq<seq<Byte>>) {
    entries != [] && forall i :: 0 <= i < |entries| ==> IsEntry(entries[i])
  }

  /** The frame behind its new headers: with its padding trimmed, or dropped because that failed. */
  predicate Wraps(f: seq<Byte>, out: seq<Byte>, o: Outcome, src: seq<Byte>, dest: seq<Byte>)
    requires |f| >= MIN_LEN && IsEntry(src) && IsEntry(dest)
  {
    || (o.TailFailed? && Padding(f[ETH_LEN..]) > 0 && out == Wrapped(f, src, dest))
    || (o.Transmitted? && out == Output(f, src, dest))
  }

  /** What the program may make of a frame that passed the checks and hashes to slot `key`. */
  predicate Balanced(f: seq<Byte>, out: seq<Byte>, o: Outcome, key: nat, table: seq<nat>, entries: seq<seq<Byte>>)
    requires |f| >= MIN_LEN
  {
    var dest := DestinationAt(key, table, entries);
    if dest.None? then o.NoDestination? && out == f
    else
      || (o.HeadFailed? && out == f)
      || (AllEntries(entries) && IsEntry(dest.value) && Wraps(f, out, o, entries[0], dest.value))
  }

  /** What the program may make of a frame: only the buffer adjustments are left to chance. */
  predicate Handled(f: seq<Byte>, out: seq<Byte>, o: Outcome, vip: Word32, key: nat, table: seq<nat>, entries: seq<seq<Byte>>) {
    var early := Classify(f, vip);
    if early.Some? then o == early.value && out == f
    else Balanced(f, out, o, key, table, entries)
  }

  lemma PassedIsHandled(f: seq<Byte>, o: Outcome, vip: Word32, key: nat, table: seq<nat>, entries: seq<seq<Byte>>)
    requires Classify(f, vip) == Some(o)
    ensures Handled(f, f, o, vip, key, table, entries)
  {
  }

  lemma BalancedIsHandled(f: seq<Byte>, out: seq<Byte>, o: Outcome, vip: Word32, key: nat, table: seq<nat>, entries: seq<seq<Byte>>)
    requires Classify(f, vip) == None && Balanced(f, out, o, key, table, entries)
    ensures Handled(f, out, o, vip, key, table, entries)
  {
  }

  lemma SentIsBalanced(f: seq<Byte>, out: seq<Byte>, o: Outcome, key: nat, table: seq<nat>, entries: seq<seq<Byte>>, dest: seq<Byte>)
    requires |f| >= MIN_LEN && AllEntries(entries)
    requires DestinationAt(key, table, entries) == Some(dest) && IsEntry(dest)
    requires o.HeadFailed? || o.TailFailed? || o.Transmitted?
    requires o.HeadFailed? ==> out == f
    requires o.TailFailed? ==> Padding(f[ETH_LEN..]) > 0 && out == Wrapped(f, entries[0], dest)
    requires o.Transmitted? ==> out == Output(f, entries[0], dest)
    ensures Balanced(f, out, o, key, table, entries)
  {
  }

  lemma LostIsBalanced(f: seq<Byte>, key: nat, table: seq<nat>, entries: seq<seq<Byte>>)
    requires |f| >= MIN_LEN && DestinationAt(key, table, entries) == None
    ensures Balanced(f, f, NoDestination, key, table, entries)
  {
  }

  lemma DestinationIsEntry(key: nat, table: seq<nat>, entries: seq<seq<Byte>>)
    requires AllEntries(entries) && DestinationAt(key, table, entries).Some?
    ensures IsEntry(DestinationAt(key, table, entries).value)
  {
  }

  /** Sends the packet to the destination behind slot `key`. */
  method SendTo(ctx: XdpMd, src: seq<Byte>, dest: seq<Byte>, ghost key: nat, ghost table: seq<nat>, ghost entries: seq<seq<Byte>>)
    returns (o: Outcome)
    requires ctx.Valid() && ctx.dataEnd - ctx.data >= MIN_LEN && AllEntries(entries) && src == entries[0]
    requires DestinationAt(key, table, entries) == Some(dest)
    modifies ctx, ctx.buf
    ensures ctx.Valid() && !Rejected(o)
    ensures Balanced(old(ctx.Frame()), ctx.Frame(), o, key, table, entries)
  {
    ghost var f := ctx.Frame();
    DestinationIsEntry(key, table, entries);
    o := Send(ctx, src, dest);
    SentIsBalanced(f, ctx.Frame(), o, key, table, entries, dest);
  }

  method Balance(ctx: XdpMd, destinations: BpfArray<seq<Byte>>, maglev: BpfArray<nat>) returns (o: Outcome)
    requires ctx.Valid() && ctx.dataEnd - ctx.data >= MIN_LEN && AllEntries(destinations.entries)
    modifies ctx, ctx.buf
    ensures ctx.Valid() && !Rejected(o)
    ensures Balanced(old(ctx.Frame()), ctx.Frame(), o, FrameKey(old(ctx.Frame())), maglev.entries, destinations.entries)
  {
    ghost var f, key := ctx.Frame(), FrameKey(ctx.Frame());
    var dest := LookUp(ctx.Frame(), destinations, maglev);
    if dest.None? {
      LostIsBalanced(f, key, maglev.entries, destinations.entries);
      return NoDestination;
    }
    o := SendTo(ctx, destinations.entries[0], dest.value, key, maglev.entries, destinations.entries);
  }

  /** One run of the program on one packet. */
  method LbMain(ctx: XdpMd, c: StatCounters, vip: Word32, destinations: BpfArray<seq<Byte>>, maglev: BpfArray<nat>)
    returns (o: Outcome)
    requires ctx.Valid() && AllEntries(destinations.entries)
    modifies ctx, ctx.buf, c
    ensures ctx.Valid()
    ensures Handled(old(ctx.Frame()), ctx.Frame(), o, vip, FrameKey(old(ctx.Frame())), maglev.entries, destinations.entries)
    ensures c.Value() == Count(old(c.Value()), o, |old(ctx.Frame())|)
  {
    ghost var f, start := ctx.Frame(), c.Value();
    var early := Inspect(ctx, c, vip);
    if early.Some? {
      PassedIsHandled(f, early.value, vip, FrameKey(f), maglev.entries, destinations.entries);
      return early.value;
    }
    ghost var counted := c.Value();
    assert counted == Count(start, Transmitted, |f|);
    o := Balance(ctx, destinations, maglev);
    BalancedIsHandled(f, ctx.Frame(), o, vip, FrameKey(f), maglev.entries, destinations.entries);
    assert c.Value() == counted;
    CountFailure(c, o, start, |f|);
  }
}
