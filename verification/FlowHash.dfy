/** The hash key of a TCP flow: how the packet program packs five fields into three words,
    and exactly which flows the packing merges. */
module FlowHash {
  import opened Words
  import opened Jhash

  const IPPROTO_TCP: Byte := 6

  datatype Flow = Flow(srcIp: Word32, dstIp: Word32, srcPort: Word16, dstPort: Word16)

  /** `(srcport << 16) | destport | (proto << 24)`: the protocol lands on the port's high byte. */
  function PortWord(srcPort: Word16, dstPort: Word16, proto: Byte): Word32 {
    Or32(Or32(srcPort * 0x1_0000, dstPort), proto * 0x100_0000)
  }

  /** The three words of a flow as they enter the mix, with initval 0. */
  function MixInput(f: Flow): State {
    Absorb(State(0, 0, 0),
           Add32(f.srcIp, GOLDEN_RATIO),
           Add32(f.dstIp, GOLDEN_RATIO),
           PortWord(f.srcPort, f.dstPort, IPPROTO_TCP))
  }

  /** The port without its bits 0x0600. */
  function Masked(port: Word16): Word16 {
    port - port / 0x200 % 4 * 0x200
  }

  method Jhash3Words(a0: Word32, b0: Word32, c0: Word32, initval: Word32) returns (h: Word32)
    ensures h == Mix(State(Add32(a0, GOLDEN_RATIO), Add32(b0, GOLDEN_RATIO), Add32(c0, initval))).c
  {
    var a, b, c := Add32(a0, GOLDEN_RATIO), Add32(b0, GOLDEN_RATIO), Add32(c0, initval);
    a, b, c := JhashMix(a, b, c);
    return c;
  }

  method GenerateHashFromFlow(f: Flow) returns (h: Word32)
    ensures h == Mix(MixInput(f)).c
  {
    h := Jhash3Words(f.srcIp, f.dstIp, PortWord(f.srcPort, f.dstPort, IPPROTO_TCP), 0);
  }

  // ---------- what the packing keeps ----------

  lemma {:induction false} OrZero(x: nat)
    ensures Or(x, 0) == x && Or(0, x) == x
  {
    if x > 0 {
      OrZero(x / 2);
    }
  }

  function OrBit(x: nat, y: nat): nat {
    if x % 2 == 1 || y % 2 == 1 then 1 else 0
  }

  lemma OrStep(x: nat, y: nat)
    ensures Or(x, y) == 2 * Or(x / 2, y / 2) + OrBit(x, y)
  {
  }

  /** `x` shifted left by `k` bits, without a bound. */
  function Up(x: nat, k: nat): nat
    decreases k
  {
    if k == 0 then x else 2 * Up(x, k - 1)
  }

  lemma {:induction false} UpSum(x: nat, j: nat, k: nat)
    ensures Up(x, j + k) == Up(Up(x, j), k)
    decreases k
  {
    if k > 0 {
      UpSum(x, j, k - 1);
    }
  }

  /** Shifts by one, two and three bytes. */
  lemma UpBytes(x: nat)
    ensures Up(x, 8) == x * 0x100 && Up(x, 16) == x * 0x1_0000 && Up(x, 24) == x * 0x100_0000
  {
  }

  /** Or works on the high and the low bits separately. */
  lemma {:induction false} OrSplit(hi: nat, lo: nat, hi': nat, lo': nat, k: nat)
    requires lo < Pow2(k) && lo' < Pow2(k)
    ensures Or(Up(hi, k) + lo, Up(hi', k) + lo') == Up(Or(hi, hi'), k) + Or(lo, lo')
    decreases k
  {
    if k > 0 {
      UpHalf(hi, k, lo);
      UpHalf(hi', k, lo');
      OrSplit(hi, lo / 2, hi', lo' / 2, k - 1);
      OrCombine(Up(hi, k) + lo, Up(hi', k) + lo', lo, lo', Up(Or(hi, hi'), k - 1));
    }
  }

  lemma UpHalf(hi: nat, k: nat, lo: nat)
    requires k > 0
    ensures (Up(hi, k) + lo) / 2 == Up(hi, k - 1) + lo / 2 && (Up(hi, k) + lo) % 2 == lo % 2
  {
  }

  lemma OrCombine(x: nat, y: nat, lo: nat, lo': nat, high: nat)
    requires x % 2 == lo % 2 && y % 2 == lo' % 2
    requires Or(x / 2, y / 2) == high + Or(lo / 2, lo' / 2)
    ensures Or(x, y) == 2 * high + Or(lo, lo')
  {
  }

  lemma OrOfPorts(srcPort: Word16, dstPort: Word16)
    ensures Or(srcPort * 0x1_0000, dstPort) == srcPort * 0x1_0000 + dstPort
  {
    Pow2Of16();
    OrSplit(srcPort, 0, 0, dstPort, 16);
    UpBytes(srcPort);
    UpBytes(0);
    OrZero(srcPort);
    OrZero(dstPort);
  }

  lemma OrOfProtocol(high: nat, low: nat, proto: Byte)
    requires low < 0x100_0000
    ensures Or(high * 0x100_0000 + low, proto * 0x100_0000) == Or(high, proto) * 0x100_0000 + low
  {
    Pow2Of24();
    OrSplit(high, low, proto, 0, 24);
    UpBytes(high);
    UpBytes(proto);
    UpBytes(Or(high, proto));
    OrZero(low);
  }

  lemma Pow2Of16()
    ensures Pow2(16) == 0x1_0000
  {
    assert Pow2(8) == 0x100;
    Pow2Sum(8, 8);
  }

  lemma Pow2Of24()
    ensures Pow2(24) == 0x100_0000
  {
    assert Pow2(8) == 0x100;
    Pow2Of16();
    Pow2Sum(8, 16);
  }

  /** The packed word: the low byte of the source port and the destination port survive,
      the high byte of the source port is or-ed with the protocol. */
  lemma PortWordSplit(srcPort: Word16, dstPort: Word16, proto: Byte)
    ensures PortWord(srcPort, dstPort, proto)
         == Or(srcPort / 0x100, proto) * 0x100_0000 + srcPort % 0x100 * 0x1_0000 + dstPort
  {
    OrOfPorts(srcPort, dstPort);
    OrOfProtocol(srcPort / 0x100, srcPort % 0x100 * 0x1_0000 + dstPort, proto);
  }

  lemma OrSix(h: nat)
    ensures Or(h, 6) == 8 * (h / 8) + 6 + h % 2
  {
    OrStep(h, 6);
    OrStep(h / 2, 3);
    OrStep(h / 2 / 2, 1);
    OrZero(h / 2 / 2 / 2);
    assert h / 2 / 2 / 2 == h / 8;
  }

  lemma MaskedSplit(port: Word16)
    ensures var h := port / 0x100; Masked(port) == (8 * (h / 8) + h % 2) * 0x100 + port % 0x100
  {
    var h := port / 0x100;
    assert port == h * 0x100 + port % 0x100;
    assert port / 0x200 == h / 2;
    assert h == 8 * (h / 8) + 2 * (h / 2 % 4) + h % 2;
  }

  lemma Unpack(a: nat, m: nat, d: nat, a': nat, m': nat, d': nat)
    requires m < 0x100 && d < 0x1_0000 && m' < 0x100 && d' < 0x1_0000
    ensures a * 0x100_0000 + m * 0x1_0000 + d == a' * 0x100_0000 + m' * 0x1_0000 + d'
       <==> a == a' && m == m' && d == d'
  {
  }

  /** Two port pairs collide exactly when they differ in nothing but source-port bits 0x0600. */
  lemma PortWordMerges(s: Word16, d: Word16, s': Word16, d': Word16)
    ensures PortWord(s, d, IPPROTO_TCP) == PortWord(s', d', IPPROTO_TCP) <==> Masked(s) == Masked(s') && d == d'
  {
    var h, h' := s / 0x100, s' / 0x100;
    PortWordSplit(s, d, IPPROTO_TCP);
    PortWordSplit(s', d', IPPROTO_TCP);
    Unpack(Or(h, 6), s % 0x100, d, Or(h', 6), s' % 0x100, d');
    OrSix(h);
    OrSix(h');
    MaskedSplit(s);
    MaskedSplit(s');
    MaskedMerges(8 * (h / 8) + h % 2, s % 0x100, 8 * (h' / 8) + h' % 2, s' % 0x100);
  }

  lemma MaskedMerges(a: nat, m: nat, a': nat, m': nat)
    requires m < 0x100 && m' < 0x100
    ensures a * 0x100 + m == a' * 0x100 + m' <==> a == a' && m == m'
  {
  }

  /** The mixed states of two TCP flows agree exactly when the flows differ in nothing but
      source-port bits 0x0600: the mix loses nothing, the packing loses just these bits. */
  lemma FlowsMerge(f: Flow, g: Flow)
    ensures Mix(MixInput(f)) == Mix(MixInput(g))
       <==> f.srcIp == g.srcIp && f.dstIp == g.dstIp && f.dstPort == g.dstPort && Masked(f.srcPort) == Masked(g.srcPort)
  {
    MixBijection(MixInput(f));
    MixBijection(MixInput(g));
    PortWordMerges(f.srcPort, f.dstPort, g.srcPort, g.dstPort);
    AddInjective(f.srcIp, g.srcIp);
    AddInjective(f.dstIp, g.dstIp);
  }

  lemma AddGolden(x: Word32)
    ensures Add32(0, Add32(x, GOLDEN_RATIO)) == (x + 0x9e3779b9) % 0x1_0000_0000
  {
  }

  /** What is mixed: both addresses plus the golden ratio, and a word of the two bytes of the source
      port, the high one or-ed with 6, and the destination port. */
  lemma MixInputInArithmetic(f: Flow)
    ensures MixInput(f).a == (f.srcIp + 0x9e3779b9) % 0x1_0000_0000 && MixInput(f).b == (f.dstIp + 0x9e3779b9) % 0x1_0000_0000
    ensures MixInput(f).c == Or(f.srcPort / 0x100, 6) * 0x100_0000 + f.srcPort % 0x100 * 0x1_0000 + f.dstPort
  {
    AddGolden(f.srcIp);
    AddGolden(f.dstIp);
    PortWordSplit(f.srcPort, f.dstPort, IPPROTO_TCP);
  }

  lemma AddInjective(x: Word32, y: Word32)
    ensures Add32(x, GOLDEN_RATIO) == Add32(y, GOLDEN_RATIO) <==> x == y
  {
  }
}
