/** The per-CPU statistics of the packet program and their sum over all CPUs. */
module Counters {
  type Word64 = w: nat | w < 0x1_0000_0000_0000_0000

  /** What became of a packet. */
  datatype Outcome =
    | TooShort | NonIpv4 | IpOption | NoVipMatch | NonSupportedProto  // passed to the kernel
    | SshPassed
    | NoDestination
    | HeadFailed | TailFailed
    | Transmitted

  predicate Rejected(o: Outcome) {
    o.TooShort? || o.NonIpv4? || o.IpOption? || o.NoVipMatch? || o.NonSupportedProto?
  }

  datatype Stats = Stats(rxPackets: Word64, rxSize: Word64, tooShort: Word64, nonIpv4: Word64, ipOption: Word64,
                         nonSupportedProto: Word64, noVipMatch: Word64, headFailed: Word64, tailFailed: Word64)

  const ZERO: Stats := Stats(0, 0, 0, 0, 0, 0, 0, 0, 0)

  function Wrap64(n: nat): Word64 {
    n % 0x1_0000_0000_0000_0000
  }

  /** One packet of `size` bytes with outcome `o` on one CPU. */
  function Count(s: Stats, o: Outcome, size: nat): Stats {
    match o
    case TooShort => s.(tooShort := Wrap64(s.tooShort + 1))
    case NonIpv4 => s.(nonIpv4 := Wrap64(s.nonIpv4 + 1))
    case IpOption => s.(ipOption := Wrap64(s.ipOption + 1))
    case NoVipMatch => s.(noVipMatch := Wrap64(s.noVipMatch + 1))
    case NonSupportedProto => s.(nonSupportedProto := Wrap64(s.nonSupportedProto + 1))
    case _ =>
      var r := s.(rxPackets := Wrap64(s.rxPackets + 1), rxSize := Wrap64(s.rxSize + size));
      if o.HeadFailed? then r.(headFailed := Wrap64(s.headFailed + 1))
      else if o.TailFailed? then r.(tailFailed := Wrap64(s.tailFailed + 1))
      else r
  }

  /** The generated `Add`: field by field, with uint64 wrap-around. */
  function Add(s: Stats, t: Stats): Stats {
    Stats(Wrap64(s.rxPackets + t.rxPackets), Wrap64(s.rxSize + t.rxSize), Wrap64(s.tooShort + t.tooShort),
          Wrap64(s.nonIpv4 + t.nonIpv4), Wrap64(s.ipOption + t.ipOption),
          Wrap64(s.nonSupportedProto + t.nonSupportedProto), Wrap64(s.noVipMatch + t.noVipMatch),
          Wrap64(s.headFailed + t.headFailed), Wrap64(s.tailFailed + t.tailFailed))
  }

  function Total(cpus: seq<Stats>): Stats {
    if cpus == [] then ZERO else Add(Total(cpus[..|cpus| - 1]), cpus[|cpus| - 1])
  }

  method ReadStatCountersAggregate(cpus: seq<Stats>) returns (sum: Stats)
    ensures sum == Total(cpus)
  {
    sum := ZERO;
    for i := 0 to |cpus|
      invariant sum == Total(cpus[..i])
    {
      assert cpus[..i + 1][..i] == cpus[..i];
      sum := Add(sum, cpus[i]);
    }
    assert cpus[..|cpus|] == cpus;
  }

  // ---------- conservation ----------

  datatype Field =
    | RxPackets | RxSize | TooShortTotal | NonIpv4Total | IpOptionTotal
    | NonSupportedProtoTotal | NoVipMatchTotal | HeadFailedTotal | TailFailedTotal

  function Get(s: Stats, f: Field): Word64 {
    match f
    case RxPackets => s.rxPackets
    case RxSize => s.rxSize
    case TooShortTotal => s.tooShort
    case NonIpv4Total => s.nonIpv4
    case IpOptionTotal => s.ipOption
    case NonSupportedProtoTotal => s.nonSupportedProto
    case NoVipMatchTotal => s.noVipMatch
    case HeadFailedTotal => s.headFailed
    case TailFailedTotal => s.tailFailed
  }

  /** What a packet of `size` bytes with outcome `o` is worth in a counter that never overflows. */
  function Worth(o: Outcome, size: nat, f: Field): nat {
    match f
    case RxPackets => if Rejected(o) then 0 else 1
    case RxSize => if Rejected(o) then 0 else size
    case TooShortTotal => if o.TooShort? then 1 else 0
    case NonIpv4Total => if o.NonIpv4? then 1 else 0
    case IpOptionTotal => if o.IpOption? then 1 else 0
    case NonSupportedProtoTotal => if o.NonSupportedProto? then 1 else 0
    case NoVipMatchTotal => if o.NoVipMatch? then 1 else 0
    case HeadFailedTotal => if o.HeadFailed? then 1 else 0
    case TailFailedTotal => if o.TailFailed? then 1 else 0
  }

  lemma WrapSmall64(w: Word64)
    ensures Wrap64(w) == w
  {
  }

  lemma WrapPlusWrap(x: nat, y: nat)
    ensures Wrap64(Wrap64(x) + y) == Wrap64(x + y) && Wrap64(y + Wrap64(x)) == Wrap64(x + y)
  {
  }

  lemma CountWorth(s: Stats, o: Outcome, size: nat, f: Field)
    ensures Get(Count(s, o, size), f) == Wrap64(Get(s, f) + Worth(o, size, f))
  {
    WrapSmall64(Get(s, f));
  }

  /** A packet of `size` bytes, handled by CPU `cpu` with outcome `outcome`. */
  datatype Event = Event(cpu: nat, outcome: Outcome, size: nat)

  predicate OnCpus(events: seq<Event>, n: nat) {
    forall k :: 0 <= k < |events| ==> events[k].cpu < n
  }

  /** The counters of `n` CPUs after a run. */
  function After(events: seq<Event>, n: nat): (cpus: seq<Stats>)
    requires OnCpus(events, n)
    ensures |cpus| == n
  {
    if events == [] then seq(n, _ => ZERO)
    else
      var last := events[|events| - 1];
      var cpus := After(events[..|events| - 1], n);
      cpus[last.cpu := Count(cpus[last.cpu], last.outcome, last.size)]
  }

  function TotalWorth(events: seq<Event>, f: Field): nat {
    if events == [] then 0
    else
      var last := events[|events| - 1];
      TotalWorth(events[..|events| - 1], f) + Worth(last.outcome, last.size, f)
  }

  function Sum(cpus: seq<Stats>, f: Field): nat {
    if cpus == [] then 0 else Sum(cpus[..|cpus| - 1], f) + Get(cpus[|cpus| - 1], f)
  }

  lemma {:induction false} TotalIsSum(cpus: seq<Stats>, f: Field)
    ensures Get(Total(cpus), f) == Wrap64(Sum(cpus, f))
  {
    if cpus == [] {
      WrapSmall64(0);
    } else {
      TotalIsSum(cpus[..|cpus| - 1], f);
      WrapPlusWrap(Sum(cpus[..|cpus| - 1], f), Get(cpus[|cpus| - 1], f));
    }
  }

  lemma {:induction false} SumUpdate(cpus: seq<Stats>, i: nat, s: Stats, f: Field)
    requires i < |cpus|
    ensures Sum(cpus[i := s], f) == Sum(cpus, f) - Get(cpus[i], f) + Get(s, f)
  {
    var n := |cpus| - 1;
    if i < n {
      assert cpus[i := s][..n] == cpus[..n][i := s];
      SumUpdate(cpus[..n], i, s, f);
    } else {
      assert cpus[i := s][..n] == cpus[..n];
    }
  }

  lemma {:induction false} SumOfZeros(cpus: seq<Stats>, f: Field)
    requires forall i :: 0 <= i < |cpus| ==> cpus[i] == ZERO
    ensures Sum(cpus, f) == 0
  {
    if cpus != [] {
      SumOfZeros(cpus[..|cpus| - 1], f);
    }
  }

  lemma {:induction false} SumAtLeast(cpus: seq<Stats>, i: nat, f: Field)
    requires i < |cpus|
    ensures Sum(cpus, f) >= Get(cpus[i], f)
  {
    if i < |cpus| - 1 {
      SumAtLeast(cpus[..|cpus| - 1], i, f);
    }
  }

  /** Wrapping one summand changes nothing modulo 2^64. */
  lemma ReplaceOne(sum: nat, g: nat, w: nat, exact: nat)
    requires g <= sum && Wrap64(sum) == Wrap64(exact)
    ensures Wrap64(sum - g + Wrap64(g + w)) == Wrap64(exact + w)
  {
    WrapPlusWrap(g + w, sum - g);
    WrapPlusWrap(sum, w);
    WrapPlusWrap(exact, w);
  }

  /** One CPU's counter grows by `w`, with wrap-around; so does the sum. */
  lemma SumGrows(cpus: seq<Stats>, cpu: nat, s: Stats, f: Field, w: nat, exact: nat)
    requires cpu < |cpus| && Get(s, f) == Wrap64(Get(cpus[cpu], f) + w)
    requires Wrap64(Sum(cpus, f)) == Wrap64(exact)
    ensures Wrap64(Sum(cpus[cpu := s], f)) == Wrap64(exact + w)
  {
    SumUpdate(cpus, cpu, s, f);
    SumAtLeast(cpus, cpu, f);
    ReplaceOne(Sum(cpus, f), Get(cpus[cpu], f), w, exact);
  }

  lemma {:induction false} SumIsExact(events: seq<Event>, n: nat, f: Field)
    requires OnCpus(events, n)
    ensures Wrap64(Sum(After(events, n), f)) == Wrap64(TotalWorth(events, f))
  {
    if events == [] {
      SumOfZeros(After(events, n), f);
    } else {
      var before, e := After(events[..|events| - 1], n), events[|events| - 1];
      SumIsExact(events[..|events| - 1], n, f);
      CountWorth(before[e.cpu], e.outcome, e.size, f);
      assert After(events, n) == before[e.cpu := Count(before[e.cpu], e.outcome, e.size)];
      SumGrows(before, e.cpu, Count(before[e.cpu], e.outcome, e.size), f,
               Worth(e.outcome, e.size, f), TotalWorth(events[..|events| - 1], f));
    }
  }

  /** The aggregate over any number of CPUs, in any interleaving, is the exact count modulo 2^64. */
  lemma AggregateIsExact(events: seq<Event>, n: nat, f: Field)
    requires OnCpus(events, n)
    ensures Get(Total(After(events, n)), f) == Wrap64(TotalWorth(events, f))
  {
    TotalIsSum(After(events, n), f);
    SumIsExact(events, n, f);
  }

  predicate IsTooShort(o: Outcome) { o.TooShort? }
  predicate IsNonIpv4(o: Outcome) { o.NonIpv4? }
  predicate IsIpOption(o: Outcome) { o.IpOption? }
  predicate IsNoVipMatch(o: Outcome) { o.NoVipMatch? }
  predicate IsNonSupportedProto(o: Outcome) { o.NonSupportedProto? }
  predicate IsHeadFailed(o: Outcome) { o.HeadFailed? }
  predicate IsTailFailed(o: Outcome) { o.TailFailed? }
  predicate IsTransmitted(o: Outcome) { o.Transmitted? }
  predicate IsSshPassed(o: Outcome) { o.SshPassed? }
  predicate HasNoDestination(o: Outcome) { o.NoDestination? }

  function CountOf(events: seq<Event>, f: Outcome -> bool): nat {
    if events == [] then 0
    else CountOf(events[..|events| - 1], f) + (if f(events[|events| - 1].outcome) then 1 else 0)
  }

  function BytesOf(events: seq<Event>, f: Outcome -> bool): nat {
    if events == [] then 0
    else BytesOf(events[..|events| - 1], f) + (if f(events[|events| - 1].outcome) then events[|events| - 1].size else 0)
  }

  /** A counter whose worth is 1 for the outcomes in `f`, and 0 for all others. */
  ghost predicate Counts(field: Field, f: Outcome -> bool) {
    forall o, size: nat :: Worth(o, size, field) == if f(o) then 1 else 0
  }

  lemma {:induction false} WorthIsCount(events: seq<Event>, field: Field, f: Outcome -> bool)
    requires Counts(field, f)
    ensures TotalWorth(events, field) == CountOf(events, f)
  {
    if events != [] {
      WorthIsCount(events[..|events| - 1], field, f);
    }
  }

  lemma {:induction false} WorthIsBytes(events: seq<Event>)
    ensures TotalWorth(events, RxSize) == BytesOf(events, IsReceived)
  {
    if events != [] {
      WorthIsBytes(events[..|events| - 1]);
    }
  }

  lemma FieldCounts(events: seq<Event>, n: nat, field: Field, f: Outcome -> bool)
    requires OnCpus(events, n) && Counts(field, f)
    ensures Get(Total(After(events, n)), field) == Wrap64(CountOf(events, f))
  {
    AggregateIsExact(events, n, field);
    WorthIsCount(events, field, f);
  }

  predicate IsReceived(o: Outcome) {
    o.SshPassed? || o.NoDestination? || o.HeadFailed? || o.TailFailed? || o.Transmitted?
  }

  /** Each reject counter counts the packets with its own outcome. */
  lemma RejectsAreCountedApart(events: seq<Event>, n: nat)
    requires OnCpus(events, n)
    ensures Total(After(events, n)).tooShort == Wrap64(CountOf(events, IsTooShort))
    ensures Total(After(events, n)).nonIpv4 == Wrap64(CountOf(events, IsNonIpv4))
    ensures Total(After(events, n)).ipOption == Wrap64(CountOf(events, IsIpOption))
    ensures Total(After(events, n)).noVipMatch == Wrap64(CountOf(events, IsNoVipMatch))
    ensures Total(After(events, n)).nonSupportedProto == Wrap64(CountOf(events, IsNonSupportedProto))
  {
    FieldCounts(events, n, TooShortTotal, IsTooShort);
    FieldCounts(events, n, NonIpv4Total, IsNonIpv4);
    FieldCounts(events, n, IpOptionTotal, IsIpOption);
    FieldCounts(events, n, NoVipMatchTotal, IsNoVipMatch);
    FieldCounts(events, n, NonSupportedProtoTotal, IsNonSupportedProto);
  }

  /** The other counters count the packets and bytes that passed the checks, and the two ways to fail after that. */
  lemma ReceivedAreCountedApart(events: seq<Event>, n: nat)
    requires OnCpus(events, n)
    ensures Total(After(events, n)).rxPackets == Wrap64(CountOf(events, IsReceived))
    ensures Total(After(events, n)).rxSize == Wrap64(BytesOf(events, IsReceived))
    ensures Total(After(events, n)).headFailed == Wrap64(CountOf(events, IsHeadFailed))
    ensures Total(After(events, n)).tailFailed == Wrap64(CountOf(events, IsTailFailed))
  {
    FieldCounts(events, n, RxPackets, IsReceived);
    FieldCounts(events, n, HeadFailedTotal, IsHeadFailed);
    FieldCounts(events, n, TailFailedTotal, IsTailFailed);
    AggregateIsExact(events, n, RxSize);
    WorthIsBytes(events);
  }

  /** In counters that never overflow, every packet is rejected or received. */
  lemma {:induction false} EveryPacketOnce(events: seq<Event>)
    ensures TotalWorth(events, TooShortTotal) + TotalWorth(events, NonIpv4Total) + TotalWorth(events, IpOptionTotal)
          + TotalWorth(events, NonSupportedProtoTotal) + TotalWorth(events, NoVipMatchTotal)
          + TotalWorth(events, RxPackets) == |events|
  {
    if events != [] {
      EveryPacketOnce(events[..|events| - 1]);
    }
  }

  /** Every received packet has exactly one fate. */
  lemma {:induction false} EveryReceivedOnce(events: seq<Event>)
    ensures TotalWorth(events, RxPackets)
         == CountOf(events, IsTransmitted) + CountOf(events, IsSshPassed) + CountOf(events, HasNoDestination)
          + TotalWorth(events, HeadFailedTotal) + TotalWorth(events, TailFailedTotal)
  {
    if events != [] {
      EveryReceivedOnce(events[..|events| - 1]);
    }
  }

  /** The sum of the five reject counters and `rx_packet_total`. */
  function Processed(t: Stats): nat {
    t.tooShort + t.nonIpv4 + t.ipOption + t.nonSupportedProto + t.noVipMatch + t.rxPackets
  }

  /** Packet conservation: modulo 2^64, the packets processed are those rejected plus those received. */
  lemma ProcessedAreRejectedOrReceived(events: seq<Event>, n: nat)
    requires OnCpus(events, n)
    ensures var t := Total(After(events, n));
            Wrap64(Processed(t)) == Wrap64(|events|)
  {
    EveryPacketOnce(events);
    AggregateIsExact(events, n, TooShortTotal);
    AggregateIsExact(events, n, NonIpv4Total);
    AggregateIsExact(events, n, IpOptionTotal);
    AggregateIsExact(events, n, NonSupportedProtoTotal);
    AggregateIsExact(events, n, NoVipMatchTotal);
    AggregateIsExact(events, n, RxPackets);
    WrapSix(Total(After(events, n)), |events|,
            TotalWorth(events, TooShortTotal), TotalWorth(events, NonIpv4Total), TotalWorth(events, IpOptionTotal),
            TotalWorth(events, NonSupportedProtoTotal), TotalWorth(events, NoVipMatchTotal), TotalWorth(events, RxPackets));
  }

  /** Packet conservation: modulo 2^64, the packets received are those transmitted, passed on
      port 22, or dropped for want of a destination, of head room or of a tail adjustment. */
  lemma ReceivedAreAccountedFor(events: seq<Event>, n: nat)
    requires OnCpus(events, n)
    ensures var t := Total(After(events, n));
            t.rxPackets == Wrap64(CountOf(events, IsTransmitted) + CountOf(events, IsSshPassed)
            + CountOf(events, HasNoDestination) + t.headFailed + t.tailFailed)
  {
    EveryReceivedOnce(events);
    AggregateIsExact(events, n, RxPackets);
    AggregateIsExact(events, n, HeadFailedTotal);
    AggregateIsExact(events, n, TailFailedTotal);
    WrapFates(Total(After(events, n)), TotalWorth(events, RxPackets),
              CountOf(events, IsTransmitted), CountOf(events, IsSshPassed), CountOf(events, HasNoDestination),
              TotalWorth(events, HeadFailedTotal), TotalWorth(events, TailFailedTotal));
  }

  /** Packets received are those transmitted, passed on port 22, or dropped by a failed adjustment. */
  predicate FatesAddUp(events: seq<Event>, n: nat)
    requires OnCpus(events, n)
  {
    var t := Total(After(events, n));
    t.rxPackets == Wrap64(CountOf(events, IsTransmitted) + CountOf(events, IsSshPassed) + t.headFailed + t.tailFailed)
  }

  lemma FourFates(events: seq<Event>, n: nat)
    requires OnCpus(events, n) && CountOf(events, HasNoDestination) == 0
    ensures FatesAddUp(events, n)
  {
    ReceivedAreAccountedFor(events, n);
  }

  lemma WrapFates(t: Stats, total: nat, sent: nat, ssh: nat, lost: nat, b: nat, c: nat)
    requires Get(t, RxPackets) == Wrap64(total) && Get(t, HeadFailedTotal) == Wrap64(b) && Get(t, TailFailedTotal) == Wrap64(c)
    requires total == sent + ssh + lost + b + c
    ensures t.rxPackets == Wrap64(sent + ssh + lost + t.headFailed + t.tailFailed)
  {
    WrapThree(sent + ssh + lost, b, c);
  }

  lemma WrapThree(a: nat, b: nat, c: nat)
    ensures Wrap64(a + Wrap64(b) + Wrap64(c)) == Wrap64(a + b + c)
  {
  }

  lemma WrapSix(t: Stats, total: nat, a: nat, b: nat, c: nat, d: nat, e: nat, f: nat)
    requires Get(t, TooShortTotal) == Wrap64(a) && Get(t, NonIpv4Total) == Wrap64(b) && Get(t, IpOptionTotal) == Wrap64(c)
    requires Get(t, NonSupportedProtoTotal) == Wrap64(d) && Get(t, NoVipMatchTotal) == Wrap64(e) && Get(t, RxPackets) == Wrap64(f)
    requires total == a + b + c + d + e + f
    ensures Wrap64(Processed(t)) == Wrap64(total)
  {
    WrapThree(t.tooShort + t.nonIpv4 + t.ipOption + t.nonSupportedProto, e, f);
    WrapThree(t.tooShort + t.nonIpv4 + e + f, c, d);
    WrapThree(c + d + e + f, a, b);
  }
}
