/** The global server load balancer: measured latencies per region, and the query that maps a
    client's address to a point of presence. Latencies are exact reals. */
module Gslb {
  import opened NumberTheory
  import opened Sequences
  import opened Words
  import opened Wrappers

  const DEFAULT_LATENCY: real := 20000000.0

  const MAX_FLOAT64: real := 179769313486231570814527423731704356798070567525844996598917476803157260780028538760589558632766878171540458953514382464234321326889464182768467546703537516986049910576551282076245490090389328944075868508455133942304583236903222948165808559332123347774797926204144723168738177180919299881250404026184124858368.0

  /** A parsed address: its width in bits is 32 or 128; only IPv6 addresses carry a zone. */
  datatype Ip = Ip4(value: nat) | Ip6(value: nat, zone: string)

  datatype Prefix = Prefix(ip: Ip, bits: nat)

  datatype Pop = Pop(id: string, ip: Ip)

  datatype Region = Region(id: string, prefixes: seq<Prefix>, popLatency: seq<real>)

  datatype Status = NotYetAvailable | FetchFailed(error: string) | Fetched(load: real, uptime: real)

  // ---------- prefixes ----------

  function Width(ip: Ip): nat {
    if ip.Ip4? then 32 else 128
  }

  predicate ValidPrefix(p: Prefix) {
    p.bits <= Width(p.ip) && (p.ip.Ip6? ==> p.ip.zone == "")
  }

  /** `v` without its lowest `k` bits. */
  function DropBits(v: nat, k: nat): nat {
    if k == 0 then v else DropBits(v / 2, k - 1)
  }

  /** The network part of an address. */
  function Masked(ip: Ip, bits: nat): nat
    requires bits <= Width(ip)
  {
    DropBits(ip.value, Width(ip) - bits)
  }

  predicate Contains(p: Prefix, ip: Ip) {
    && ValidPrefix(p) && (ip.Ip6? ==> ip.zone == "")
    && p.ip.Ip4? == ip.Ip4?
    && Masked(p.ip, p.bits) == Masked(ip, p.bits)
  }

  predicate SameNetwork(p: Prefix, q: Prefix) {
    && ValidPrefix(p) && ValidPrefix(q) && p.bits == q.bits && p.ip.Ip4? == q.ip.Ip4?
    && Masked(p.ip, p.bits) == Masked(q.ip, q.bits)
  }

  lemma {:induction false} DropBitsDivides(v: nat, k: nat)
    ensures DropBits(v, k) == v / Pow2(k)
  {
    if k > 0 {
      DropBitsDivides(v / 2, k - 1);
      HalfOfQuotient(v, Pow2(k - 1));
    }
  }

  /** A prefix of `bits` bits contains the addresses of its family that differ from it in nothing but
      the last 32 - `bits`, or 128 - `bits`; an address or a prefix with a zone matches nothing. */
  lemma ContainsIffNetworkAgrees(p: Prefix, ip: Ip)
    ensures p.ip.Ip4? ==>
      (Contains(p, ip) <==> p.bits <= 32 && ip.Ip4? && p.ip.value / Pow2(32 - p.bits) == ip.value / Pow2(32 - p.bits))
    ensures p.ip.Ip6? ==>
      (Contains(p, ip) <==> p.bits <= 128 && ip.Ip6? && p.ip.zone == ip.zone == ""
                            && p.ip.value / Pow2(128 - p.bits) == ip.value / Pow2(128 - p.bits))
  {
    if p.bits <= Width(p.ip) {
      DropBitsDivides(p.ip.value, Width(p.ip) - p.bits);
      DropBitsDivides(ip.value, Width(p.ip) - p.bits);
    }
  }

  // ---------- the region of an address ----------

  /** The length of the longest prefix of a region that contains `ip`; -1 if there is none. */
  function MatchBits(prefixes: seq<Prefix>, ip: Ip): (r: int)
    ensures -1 <= r
  {
    if prefixes == [] then -1
    else
      var r, p := MatchBits(prefixes[..|prefixes| - 1], ip), prefixes[|prefixes| - 1];
      if Contains(p, ip) && p.bits > r then p.bits else r
  }

  /** The longest match of each region. */
  function Matches(regions: seq<Region>, ip: Ip): (r: seq<int>)
    ensures |r| == |regions|
    ensures forall i :: 0 <= i < |r| ==> r[i] == MatchBits(regions[i].prefixes, ip)
  {
    seq(|regions|, i requires 0 <= i < |regions| => MatchBits(regions[i].prefixes, ip))
  }

  function Highest(l: seq<int>): (r: int)
    ensures -1 <= r
  {
    if l == [] then -1
    else
      var r := Highest(l[..|l| - 1]);
      if l[|l| - 1] > r then l[|l| - 1] else r
  }

  function FirstHighest(l: seq<int>): (r: Option<nat>)
    ensures r.Some? ==> r.value < |l|
  {
    if l == [] then None
    else if l[|l| - 1] > Highest(l[..|l| - 1]) then Some(|l| - 1)
    else FirstHighest(l[..|l| - 1])
  }

  /** The first region with the longest match. */
  function Home(regions: seq<Region>, ip: Ip): (r: Option<Region>)
    ensures r.Some? ==> r.value in regions
  {
    var i := FirstHighest(Matches(regions, ip));
    if i.None? then None else Some(regions[i.value])
  }

  // ---------- the nearest of several latencies ----------

  /** The lowest latency below `limit`, or `limit`. */
  function Lowest(l: seq<real>, limit: real): (r: real)
    ensures r <= limit
    ensures forall i :: 0 <= i < |l| ==> r <= l[i]
  {
    if l == [] then limit
    else
      var n := |l| - 1;
      var r := Lowest(l[..n], limit);
      assert forall i :: 0 <= i < n ==> l[..n][i] == l[i];
      if l[n] < r then l[n] else r
  }

  function Nearest(l: seq<real>, limit: real): (r: Option<nat>)
    ensures r.Some? ==> r.value < |l|
  {
    if l == [] then None
    else if l[|l| - 1] < Lowest(l[..|l| - 1], limit) then Some(|l| - 1)
    else Nearest(l[..|l| - 1], limit)
  }

  /** The nearest is the first strict minimum below the limit, if any latency is below it. */
  lemma {:induction false} NearestIsFirstMinimum(l: seq<real>, limit: real, i: nat)
    requires i < |l|
    ensures Nearest(l, limit) == Some(i) <==>
      l[i] < limit && (forall j :: 0 <= j < i ==> l[i] < l[j]) && (forall j :: i < j < |l| ==> l[i] <= l[j])
    ensures Nearest(l, limit) == Some(i) ==> Lowest(l, limit) == l[i]
  {
    var n := |l| - 1;
    assert forall j :: 0 <= j < n ==> l[..n][j] == l[j];
    if i < n {
      NearestIsFirstMinimum(l[..n], limit, i);
    } else {
      NoneIsNearest(l[..n], limit);
      LowestIsThere(l[..n], limit);
    }
  }

  lemma {:induction false} LowestIsThere(l: seq<real>, limit: real)
    ensures Lowest(l, limit) == limit || exists i :: 0 <= i < |l| && l[i] == Lowest(l, limit)
  {
    var n := |l| - 1;
    if n >= 0 {
      LowestIsThere(l[..n], limit);
      assert forall j :: 0 <= j < n ==> l[..n][j] == l[j];
    }
  }

  lemma {:induction false} NoneIsNearest(l: seq<real>, limit: real)
    ensures Nearest(l, limit).None? <==> forall i :: 0 <= i < |l| ==> l[i] >= limit
  {
    var n := |l| - 1;
    if n >= 0 {
      NoneIsNearest(l[..n], limit);
      LowestIsThere(l[..n], limit);
      assert forall j :: 0 <= j < n ==> l[..n][j] == l[j];
    }
  }

  // ---------- the fallback ----------

  predicate Complete(regions: seq<Region>, n: nat) {
    forall i :: 0 <= i < |regions| ==> |regions[i].popLatency| == n
  }

  function ColumnSum(regions: seq<Region>, n: nat, j: nat): real
    requires Complete(regions, n) && j < n
  {
    if regions == [] then 0.0
    else ColumnSum(regions[..|regions| - 1], n, j) + regions[|regions| - 1].popLatency[j]
  }

  function ColumnSums(regions: seq<Region>, n: nat): (r: seq<real>)
    requires Complete(regions, n)
    ensures |r| == n
    ensures forall j :: 0 <= j < n ==> r[j] == ColumnSum(regions, n, j)
  {
    seq(n, j requires 0 <= j < n => ColumnSum(regions, n, j))
  }

  /** The index of the point of presence with the lowest latency summed over all regions. */
  function MostAverage(regions: seq<Region>, n: nat): nat
    requires Complete(regions, n)
  {
    var best := Nearest(ColumnSums(regions, n), MAX_FLOAT64);
    if best.Some? then best.value else 0
  }

  // ---------- the query ----------

  /** The nearest measured point of presence of the address's region, if there is one. */
  function Direct(regions: seq<Region>, ip: Ip): Option<nat> {
    var home := Home(regions, ip);
    if home.None? then None else Nearest(home.value.popLatency, DEFAULT_LATENCY)
  }

  /** The index of the point of presence that a query answers with. */
  function Choice(regions: seq<Region>, n: nat, ip: Ip): (r: nat)
    requires Complete(regions, n)
    ensures n > 0 ==> r < n
  {
    var direct := Direct(regions, ip);
    if direct.Some? then direct.value else MostAverage(regions, n)
  }

  // ---------- longest-prefix match ----------

  lemma {:induction false} HighestBounds(l: seq<int>)
    ensures forall i :: 0 <= i < |l| ==> l[i] <= Highest(l)
    ensures FirstHighest(l).None? ==> Highest(l) == -1
    ensures FirstHighest(l).Some? ==> l[FirstHighest(l).value] == Highest(l) > -1
  {
    var n := |l| - 1;
    if n >= 0 {
      HighestBounds(l[..n]);
      assert forall j :: 0 <= j < n ==> l[..n][j] == l[j];
    }
  }

  lemma {:induction false} MatchBound(prefixes: seq<Prefix>, ip: Ip, p: Prefix)
    requires p in prefixes && Contains(p, ip)
    ensures p.bits <= MatchBits(prefixes, ip)
  {
    var n := |prefixes| - 1;
    if p != prefixes[n] {
      assert prefixes == prefixes[..n] + [prefixes[n]];
      MatchBound(prefixes[..n], ip, p);
    }
  }

  lemma {:induction false} MatchIsThere(prefixes: seq<Prefix>, ip: Ip) returns (p: Prefix)
    requires MatchBits(prefixes, ip) > -1
    ensures p in prefixes && Contains(p, ip) && p.bits == MatchBits(prefixes, ip)
  {
    var n := |prefixes| - 1;
    p := prefixes[n];
    if !(Contains(p, ip) && p.bits > MatchBits(prefixes[..n], ip)) {
      p := MatchIsThere(prefixes[..n], ip);
    }
  }

  /** The match of one region is bounded by the match of the chosen one. */
  lemma HomeBound(regions: seq<Region>, ip: Ip, r: Region)
    requires r in regions
    ensures Home(regions, ip).None? ==> MatchBits(r.prefixes, ip) == -1
    ensures Home(regions, ip).Some? ==> MatchBits(r.prefixes, ip) <= MatchBits(Home(regions, ip).value.prefixes, ip)
    ensures Home(regions, ip).Some? ==> MatchBits(Home(regions, ip).value.prefixes, ip) > -1
  {
    var i :| 0 <= i < |regions| && regions[i] == r;
    HighestBounds(Matches(regions, ip));
    assert Matches(regions, ip)[i] == MatchBits(r.prefixes, ip);
  }

  /** The first of the highest entries, if any of them is above -1. */
  lemma {:induction false} FirstHighestIsFirst(l: seq<int>, i: nat)
    requires i < |l|
    ensures FirstHighest(l) == Some(i) <==>
      l[i] > -1 && (forall j :: 0 <= j < i ==> l[j] < l[i]) && (forall j :: i < j < |l| ==> l[j] <= l[i])
  {
    var n := |l| - 1;
    HighestBounds(l[..n]);
    assert forall j :: 0 <= j < n ==> l[..n][j] == l[j];
    if i < n {
      FirstHighestIsFirst(l[..n], i);
    }
  }

  /** A region whose match of this address no other region's match is longer than. */
  ghost predicate Best(regions: seq<Region>, ip: Ip, r: Region) {
    r in regions && MatchBits(r.prefixes, ip) > -1
    && forall s :: s in regions ==> MatchBits(s.prefixes, ip) <= MatchBits(r.prefixes, ip)
  }

  lemma HomeIsBest(regions: seq<Region>, ip: Ip)
    requires Home(regions, ip).Some?
    ensures Best(regions, ip, Home(regions, ip).value)
  {
    forall s | s in regions
      ensures MatchBits(s.prefixes, ip) <= MatchBits(Home(regions, ip).value.prefixes, ip)
    {
      HomeBound(regions, ip, s);
    }
    HomeBound(regions, ip, Home(regions, ip).value);
  }

  /** Of all regions with the longest match, in a configuration of any size, the first is chosen. */
  lemma FirstBestIsHome(regions: seq<Region>, ip: Ip, i: nat)
    requires i < |regions|
    ensures FirstHighest(Matches(regions, ip)) == Some(i) <==>
      Best(regions, ip, regions[i]) && forall j :: 0 <= j < i ==> !Best(regions, ip, regions[j])
    ensures FirstHighest(Matches(regions, ip)) == Some(i) ==> Home(regions, ip) == Some(regions[i])
  {
    var l := Matches(regions, ip);
    FirstHighestIsFirst(l, i);
    if Best(regions, ip, regions[i]) && forall j :: 0 <= j < i ==> !Best(regions, ip, regions[j]) {
      forall j | 0 <= j < |l|
        ensures l[j] <= l[i] && (j < i ==> l[j] < l[i])
      {
        assert regions[j] in regions && (j < i ==> !Best(regions, ip, regions[j]));
      }
    }
  }

  /** Longest-prefix match: the chosen region lists a prefix that contains the address, and no
      prefix of any region that contains it is longer. */
  lemma LongestPrefixMatch(regions: seq<Region>, ip: Ip) returns (p: Prefix)
    requires Home(regions, ip).Some?
    ensures p in Home(regions, ip).value.prefixes && Contains(p, ip)
    ensures forall r, q :: r in regions && q in r.prefixes && Contains(q, ip) ==> q.bits <= p.bits
  {
    var home := Home(regions, ip).value;
    HomeBound(regions, ip, home);
    p := MatchIsThere(home.prefixes, ip);
    forall r, q | r in regions && q in r.prefixes && Contains(q, ip)
      ensures q.bits <= p.bits
    {
      MatchBound(r.prefixes, ip, q);
      HomeBound(regions, ip, r);
    }
  }

  /** No region is chosen exactly if no prefix of any region contains the address. */
  lemma HomelessIffNoMatch(regions: seq<Region>, ip: Ip)
    ensures Home(regions, ip).None? <==> forall r, p :: r in regions && p in r.prefixes ==> !Contains(p, ip)
  {
    if Home(regions, ip).Some? {
      var p := LongestPrefixMatch(regions, ip);
    } else {
      forall r, p | r in regions && p in r.prefixes
        ensures !Contains(p, ip)
      {
        HomeBound(regions, ip, r);
        if Contains(p, ip) {
          MatchBound(r.prefixes, ip, p);
        }
      }
    }
  }

  // ---------- the answer, by what it promises ----------

  /** No prefix that contains the address is longer than `bits`, and none of a region before `i` is as long. */
  predicate FirstWith(regions: seq<Region>, ip: Ip, bits: nat, i: nat) {
    forall k, q :: 0 <= k < |regions| && q in regions[k].prefixes && Contains(q, ip) ==>
      if k < i then q.bits < bits else q.bits <= bits
  }

  /** Region `i` is the first to list a prefix that contains the address and than which no such prefix is longer. */
  ghost predicate LongestAt(regions: seq<Region>, ip: Ip, i: nat) {
    i < |regions| && exists p :: p in regions[i].prefixes && Contains(p, ip) && FirstWith(regions, ip, p.bits, i)
  }

  lemma LongestIsHome(regions: seq<Region>, ip: Ip, i: nat)
    ensures LongestAt(regions, ip, i) <==> FirstHighest(Matches(regions, ip)) == Some(i)
  {
    var l := Matches(regions, ip);
    if LongestAt(regions, ip, i) {
      LongestIsFirst(regions, ip, i);
    } else if FirstHighest(l) == Some(i) {
      FirstIsLongest(regions, ip, i);
    }
  }

  lemma LongestIsFirst(regions: seq<Region>, ip: Ip, i: nat)
    requires LongestAt(regions, ip, i)
    ensures FirstHighest(Matches(regions, ip)) == Some(i)
  {
    var l := Matches(regions, ip);
    var p :| p in regions[i].prefixes && Contains(p, ip) && FirstWith(regions, ip, p.bits, i);
    MatchBound(regions[i].prefixes, ip, p);
    forall k | 0 <= k < |l|
      ensures if k < i then l[k] < p.bits else l[k] <= p.bits
    {
      if l[k] > -1 {
        var q := MatchIsThere(regions[k].prefixes, ip);
      }
    }
    FirstHighestIsFirst(l, i);
  }

  lemma FirstIsLongest(regions: seq<Region>, ip: Ip, i: nat)
    requires FirstHighest(Matches(regions, ip)) == Some(i)
    ensures LongestAt(regions, ip, i)
  {
    var l := Matches(regions, ip);
    FirstHighestIsFirst(l, i);
    var p := MatchIsThere(regions[i].prefixes, ip);
    forall k, q | 0 <= k < |regions| && q in regions[k].prefixes && Contains(q, ip)
      ensures if k < i then q.bits < p.bits else q.bits <= p.bits
    {
      MatchBound(regions[k].prefixes, ip, q);
      assert l[k] == MatchBits(regions[k].prefixes, ip);
    }
    assert FirstWith(regions, ip, p.bits, i);
  }

  /** Entry `j` is the first of the lowest, and below the limit. */
  predicate LowestAt(l: seq<real>, limit: real, j: nat) {
    && j < |l| && l[j] < limit
    && (forall k :: 0 <= k < j ==> l[j] < l[k]) && (forall k :: j < k < |l| ==> l[j] <= l[k])
  }

  /** Column `j` has the first of the lowest sums; the first column counts if no sum is below the largest float. */
  ghost predicate LeastSumAt(regions: seq<Region>, n: nat, j: nat)
    requires Complete(regions, n)
  {
    && j < n
    && if forall k: nat :: k < n ==> ColumnSum(regions, n, k) >= MAX_FLOAT64 then j == 0
       else
         && ColumnSum(regions, n, j) < MAX_FLOAT64
         && (forall k: nat :: k < j ==> ColumnSum(regions, n, j) < ColumnSum(regions, n, k))
         && (forall k: nat :: j < k < n ==> ColumnSum(regions, n, j) <= ColumnSum(regions, n, k))
  }

  lemma MostAverageHasLeastSum(regions: seq<Region>, n: nat, j: nat)
    requires Complete(regions, n) && j < n
    ensures LeastSumAt(regions, n, j) <==> MostAverage(regions, n) == j
  {
    var sums := ColumnSums(regions, n);
    NoneIsNearest(sums, MAX_FLOAT64);
    NearestIsFirstMinimum(sums, MAX_FLOAT64, j);
    if Nearest(sums, MAX_FLOAT64).None? {
      assert forall k: nat :: k < n ==> ColumnSum(regions, n, k) == sums[k];
    } else {
      var k := Nearest(sums, MAX_FLOAT64).value;
      NearestIsFirstMinimum(sums, MAX_FLOAT64, k);
      assert ColumnSum(regions, n, k) == sums[k];
    }
  }

  /** No prefix contains the address, or its region has not measured anything nearer than the default. */
  ghost predicate FallsBack(regions: seq<Region>, ip: Ip) {
    || (forall r, p :: r in regions && p in r.prefixes ==> !Contains(p, ip))
    || exists i: nat :: LongestAt(regions, ip, i) && NothingNear(regions[i])
  }

  predicate NothingNear(r: Region) {
    forall i :: 0 <= i < |r.popLatency| ==> r.popLatency[i] >= 20000000.0
  }

  /** Point of presence `j` is the nearest to the region with the longest match. */
  ghost predicate NearestTo(regions: seq<Region>, ip: Ip, j: nat) {
    exists i: nat :: LongestAt(regions, ip, i) && LowestAt(regions[i].popLatency, 20000000.0, j)
  }

  /** Index `j` answers the address: the nearest of the region with the longest match, or the lowest sum. */
  ghost predicate Answers(regions: seq<Region>, n: nat, ip: Ip, j: nat)
    requires Complete(regions, n)
  {
    if FallsBack(regions, ip) then LeastSumAt(regions, n, j) else NearestTo(regions, ip, j)
  }

  lemma FallsBackIffNotDirect(regions: seq<Region>, ip: Ip)
    ensures FallsBack(regions, ip) <==> Direct(regions, ip).None?
  {
    HomelessIffNoMatch(regions, ip);
    var first := FirstHighest(Matches(regions, ip));
    if first.Some? {
      NoneIsNearest(regions[first.value].popLatency, DEFAULT_LATENCY);
      LongestIsHome(regions, ip, first.value);
    }
    if k: nat :| LongestAt(regions, ip, k) && NothingNear(regions[k]) {
      LongestIsHome(regions, ip, k);
    }
  }

  lemma NearestToIsDirect(regions: seq<Region>, ip: Ip, j: nat)
    ensures NearestTo(regions, ip, j) <==> Direct(regions, ip) == Some(j)
  {
    if k: nat :| LongestAt(regions, ip, k) && LowestAt(regions[k].popLatency, 20000000.0, j) {
      LongestIsHome(regions, ip, k);
      NearestIsFirstMinimum(regions[k].popLatency, DEFAULT_LATENCY, j);
    }
    if Direct(regions, ip) == Some(j) {
      var i := FirstHighest(Matches(regions, ip)).value;
      LongestIsHome(regions, ip, i);
      NearestIsFirstMinimum(regions[i].popLatency, DEFAULT_LATENCY, j);
      assert LowestAt(regions[i].popLatency, 20000000.0, j);
    }
  }

  /** Exactly one index answers each address, and it is the one that the query chooses. */
  lemma ChoiceAnswers(regions: seq<Region>, n: nat, ip: Ip, j: nat)
    requires Complete(regions, n) && j < n
    ensures Answers(regions, n, ip, j) <==> Choice(regions, n, ip) == j
  {
    FallsBackIffNotDirect(regions, ip);
    if FallsBack(regions, ip) {
      MostAverageHasLeastSum(regions, n, j);
    } else {
      NearestToIsDirect(regions, ip, j);
    }
  }

  // ---------- independence of order ----------

  /** Regions of different content never list the same network. */
  predicate NoSharedNetwork(regions: seq<Region>) {
    forall r, s, p, q :: r in regions && s in regions && p in r.prefixes && q in s.prefixes && SameNetwork(p, q) ==> r == s
  }

  /** Every region enters a column sum once, with its own latency. */
  lemma {:induction false} ColumnSumOfUpdate(regions: seq<Region>, n: nat, j: nat, i: nat)
    requires Complete(regions, n) && j < n && i < |regions|
    ensures Complete(regions[..i] + regions[i + 1..], n)
    ensures ColumnSum(regions, n, j) == ColumnSum(regions[..i] + regions[i + 1..], n, j) + regions[i].popLatency[j]
    ensures |regions| == 1 ==> ColumnSum(regions, n, j) == regions[i].popLatency[j]
  {
    var k := |regions| - 1;
    var rest := regions[..i] + regions[i + 1..];
    if i < k {
      ColumnSumOfUpdate(regions[..k], n, j, i);
      assert regions[..k][..i] + regions[..k][i + 1..] == rest[..|rest| - 1];
    } else {
      assert rest == regions[..k];
    }
  }

  lemma TakeOut(rs: seq<Region>, ss: seq<Region>) returns (i: nat)
    requires multiset(rs) == multiset(ss) && rs != []
    ensures i < |ss| && ss[i] == rs[|rs| - 1]
    ensures multiset(rs[..|rs| - 1]) == multiset(ss[..i] + ss[i + 1..])
  {
    var last := rs[|rs| - 1];
    assert rs == rs[..|rs| - 1] + [last];
    assert last in multiset(ss);
    i :| 0 <= i < |ss| && ss[i] == last;
    assert ss == ss[..i] + [last] + ss[i + 1..];
    assert multiset(rs[..|rs| - 1]) == multiset(rs) - multiset{last};
    assert multiset(ss[..i] + ss[i + 1..]) == multiset(ss) - multiset{last};
  }

  /** Sums over all regions do not depend on their order. */
  lemma {:induction false} SumInAnyOrder(rs: seq<Region>, ss: seq<Region>, n: nat, j: nat)
    requires multiset(rs) == multiset(ss) && Complete(rs, n) && Complete(ss, n) && j < n
    ensures ColumnSum(rs, n, j) == ColumnSum(ss, n, j)
    decreases |rs|
  {
    if rs != [] {
      var i := TakeOut(rs, ss);
      ColumnSumOfUpdate(ss, n, j, i);
      SumInAnyOrder(rs[..|rs| - 1], ss[..i] + ss[i + 1..], n, j);
    } else {
      assert |multiset(ss)| == 0;
    }
  }

  /** No two different regions share the longest match of this address. */
  ghost predicate NoTie(regions: seq<Region>, ip: Ip) {
    forall r, s :: Best(regions, ip, r) && Best(regions, ip, s) ==> r == s
  }

  lemma SameBest(rs: seq<Region>, ss: seq<Region>, ip: Ip, r: Region)
    requires multiset(rs) == multiset(ss)
    ensures Best(rs, ip, r) <==> Best(ss, ip, r)
  {
    forall s: Region
      ensures s in rs <==> s in ss
    {
      SameElements(rs, ss, s);
    }
  }

  lemma SomeBestOrNone(rs: seq<Region>, ss: seq<Region>, ip: Ip)
    requires multiset(rs) == multiset(ss) && Home(rs, ip).None?
    ensures Home(ss, ip).None?
  {
    if Home(ss, ip).Some? {
      HomeIsBest(ss, ip);
      SameBest(rs, ss, ip, Home(ss, ip).value);
      HomeBound(rs, ip, Home(ss, ip).value);
    }
  }

  lemma HomeInAnyOrder(rs: seq<Region>, ss: seq<Region>, ip: Ip)
    requires multiset(rs) == multiset(ss) && NoTie(rs, ip)
    ensures Home(rs, ip) == Home(ss, ip)
  {
    if Home(rs, ip).None? {
      SomeBestOrNone(rs, ss, ip);
    } else {
      if Home(ss, ip).None? {
        SomeBestOrNone(ss, rs, ip);
      }
      HomeIsBest(rs, ip);
      HomeIsBest(ss, ip);
      SameBest(rs, ss, ip, Home(ss, ip).value);
    }
  }

  /** Moving one of the best regions to the front makes it the chosen one. */
  lemma FrontIsHome(regions: seq<Region>, ip: Ip, r: Region) returns (ss: seq<Region>)
    requires Best(regions, ip, r)
    ensures multiset(ss) == multiset(regions) && Home(ss, ip) == Some(r)
  {
    var i :| 0 <= i < |regions| && regions[i] == r;
    ss := [r] + (regions[..i] + regions[i + 1..]);
    assert regions == regions[..i] + [r] + regions[i + 1..];
    SameBest(regions, ss, ip, r);
    FirstBestIsHome(ss, ip, 0);
  }

  ghost predicate SameHome(rs: seq<Region>, ss: seq<Region>, ip: Ip) {
    multiset(rs) == multiset(ss) ==> Home(rs, ip) == Home(ss, ip)
  }

  /** The region of an address depends on the order of the configuration exactly if two different
      regions share its longest match. */
  lemma OrderMattersOnlyForTies(regions: seq<Region>, ip: Ip)
    ensures NoTie(regions, ip) <==> forall ss :: SameHome(regions, ss, ip)
  {
    if NoTie(regions, ip) {
      forall ss
        ensures SameHome(regions, ss, ip)
      {
        if multiset(regions) == multiset(ss) {
          HomeInAnyOrder(regions, ss, ip);
        }
      }
    } else {
      var r, s :| Best(regions, ip, r) && Best(regions, ip, s) && r != s;
      var rFirst := FrontIsHome(regions, ip, r);
      var sFirst := FrontIsHome(regions, ip, s);
      assert !SameHome(regions, rFirst, ip) || !SameHome(regions, sFirst, ip);
    }
  }

  lemma SharedNetworkIsTheOnlyTie(regions: seq<Region>, ip: Ip)
    requires NoSharedNetwork(regions)
    ensures NoTie(regions, ip)
  {
    forall r, s | Best(regions, ip, r) && Best(regions, ip, s)
      ensures r == s
    {
      var p := MatchIsThere(r.prefixes, ip);
      var q := MatchIsThere(s.prefixes, ip);
      assert SameNetwork(p, q);
    }
  }

  lemma SameSums(rs: seq<Region>, ss: seq<Region>, n: nat)
    requires Complete(rs, n) && Complete(ss, n)
    requires forall j :: 0 <= j < n ==> ColumnSum(rs, n, j) == ColumnSum(ss, n, j)
    ensures MostAverage(rs, n) == MostAverage(ss, n)
  {
    assert ColumnSums(rs, n) == ColumnSums(ss, n);
  }

  lemma AverageInAnyOrder(rs: seq<Region>, ss: seq<Region>, n: nat)
    requires multiset(rs) == multiset(ss) && Complete(rs, n) && Complete(ss, n)
    ensures MostAverage(rs, n) == MostAverage(ss, n)
  {
    forall j: nat | j < n
      ensures ColumnSum(rs, n, j) == ColumnSum(ss, n, j)
    {
      SumInAnyOrder(rs, ss, n, j);
    }
    SameSums(rs, ss, n);
  }

  /** The answer does not depend on the order of the regions unless two of them share a network. */
  lemma RegionOrderIsIrrelevant(rs: seq<Region>, ss: seq<Region>, n: nat, ip: Ip)
    requires multiset(rs) == multiset(ss) && NoSharedNetwork(rs) && Complete(rs, n) && Complete(ss, n)
    ensures Choice(rs, n, ip) == Choice(ss, n, ip)
  {
    SharedNetworkIsTheOnlyTie(rs, ip);
    HomeInAnyOrder(rs, ss, ip);
    AverageInAnyOrder(rs, ss, n);
  }

  /** What an address of region `r` would be answered. */
  function Pick(r: Region, fallback: nat): nat {
    var i := Nearest(r.popLatency, DEFAULT_LATENCY);
    if i.Some? then i.value else fallback
  }

  ghost predicate SameChoice(rs: seq<Region>, ss: seq<Region>, n: nat, ip: Ip)
    requires Complete(rs, n)
  {
    multiset(rs) == multiset(ss) && Complete(ss, n) ==> Choice(rs, n, ip) == Choice(ss, n, ip)
  }

  /** All regions that share the longest match pick the same point of presence. */
  ghost predicate TiesAgree(regions: seq<Region>, n: nat, ip: Ip)
    requires Complete(regions, n)
  {
    var fallback := MostAverage(regions, n);
    forall r, s :: Best(regions, ip, r) && Best(regions, ip, s) ==> Pick(r, fallback) == Pick(s, fallback)
  }

  lemma CompleteInAnyOrder(rs: seq<Region>, ss: seq<Region>, n: nat)
    requires multiset(rs) == multiset(ss) && Complete(rs, n)
    ensures Complete(ss, n)
  {
    forall i | 0 <= i < |ss|
      ensures |ss[i].popLatency| == n
    {
      SameElements(rs, ss, ss[i]);
      assert ss[i] in rs;
    }
  }

  lemma AgreedChoice(rs: seq<Region>, ss: seq<Region>, n: nat, ip: Ip)
    requires multiset(rs) == multiset(ss) && Complete(rs, n) && Complete(ss, n) && TiesAgree(rs, n, ip)
    ensures Choice(rs, n, ip) == Choice(ss, n, ip)
  {
    AverageInAnyOrder(rs, ss, n);
    if Home(rs, ip).None? {
      SomeBestOrNone(rs, ss, ip);
    } else {
      if Home(ss, ip).None? {
        SomeBestOrNone(ss, rs, ip);
      }
      HomeIsBest(rs, ip);
      HomeIsBest(ss, ip);
      SameBest(rs, ss, ip, Home(ss, ip).value);
      assert Pick(Home(rs, ip).value, MostAverage(rs, n)) == Pick(Home(ss, ip).value, MostAverage(rs, n));
    }
  }

  lemma FrontChoice(regions: seq<Region>, n: nat, ip: Ip, r: Region) returns (ss: seq<Region>)
    requires Complete(regions, n) && Best(regions, ip, r)
    ensures multiset(ss) == multiset(regions) && Complete(ss, n) && Choice(ss, n, ip) == Pick(r, MostAverage(regions, n))
  {
    ss := FrontIsHome(regions, ip, r);
    CompleteInAnyOrder(regions, ss, n);
    AverageInAnyOrder(regions, ss, n);
  }

  /** The answer itself depends on the order of the configuration exactly if regions that share the
      longest match of the address would be answered differently. */
  lemma AnswerOrderMattersOnlyForTies(regions: seq<Region>, n: nat, ip: Ip)
    requires Complete(regions, n)
    ensures TiesAgree(regions, n, ip) <==> forall ss :: SameChoice(regions, ss, n, ip)
  {
    if TiesAgree(regions, n, ip) {
      forall ss
        ensures SameChoice(regions, ss, n, ip)
      {
        if multiset(regions) == multiset(ss) && Complete(ss, n) {
          AgreedChoice(regions, ss, n, ip);
        }
      }
    } else {
      var fallback := MostAverage(regions, n);
      var r, s :| Best(regions, ip, r) && Best(regions, ip, s) && Pick(r, fallback) != Pick(s, fallback);
      var rFirst := FrontChoice(regions, n, ip, r);
      var sFirst := FrontChoice(regions, n, ip, s);
      assert !SameChoice(regions, rFirst, n, ip) || !SameChoice(regions, sFirst, n, ip);
    }
  }

  ghost predicate SamePrefixes(r: Region, s: Region) {
    r.popLatency == s.popLatency && forall p :: p in r.prefixes <==> p in s.prefixes
  }

  lemma SameMatch(r: Region, s: Region, ip: Ip)
    requires SamePrefixes(r, s)
    ensures MatchBits(r.prefixes, ip) <= MatchBits(s.prefixes, ip)
  {
    if MatchBits(r.prefixes, ip) > -1 {
      var p := MatchIsThere(r.prefixes, ip);
      MatchBound(s.prefixes, ip, p);
    }
  }

  lemma {:induction false} SameColumns(rs: seq<Region>, ss: seq<Region>, n: nat, j: nat)
    requires Complete(rs, n) && Complete(ss, n) && j < n && |rs| == |ss|
    requires forall i :: 0 <= i < |rs| ==> SamePrefixes(rs[i], ss[i])
    ensures ColumnSum(rs, n, j) == ColumnSum(ss, n, j)
  {
    var k := |rs| - 1;
    if k >= 0 {
      SameColumns(rs[..k], ss[..k], n, j);
      assert SamePrefixes(rs[k], ss[k]);
    }
  }

  lemma SameDirect(rs: seq<Region>, ss: seq<Region>, ip: Ip)
    requires |rs| == |ss| && forall i :: 0 <= i < |rs| ==> SamePrefixes(rs[i], ss[i])
    ensures Direct(rs, ip) == Direct(ss, ip)
  {
    forall i | 0 <= i < |rs|
      ensures Matches(rs, ip)[i] == Matches(ss, ip)[i]
    {
      assert SamePrefixes(rs[i], ss[i]);
      SameMatch(rs[i], ss[i], ip);
      SameMatch(ss[i], rs[i], ip);
    }
    assert Matches(rs, ip) == Matches(ss, ip);
    assert Home(rs, ip).Some? ==> SamePrefixes(Home(rs, ip).value, Home(ss, ip).value);
  }

  /** The order of the prefixes within the regions never matters. */
  lemma PrefixOrderIsIrrelevant(rs: seq<Region>, ss: seq<Region>, n: nat, ip: Ip)
    requires Complete(rs, n) && Complete(ss, n) && |rs| == |ss|
    requires forall i :: 0 <= i < |rs| ==> SamePrefixes(rs[i], ss[i])
    ensures Choice(rs, n, ip) == Choice(ss, n, ip)
  {
    SameDirect(rs, ss, ip);
    forall j: nat | j < n
      ensures ColumnSum(rs, n, j) == ColumnSum(ss, n, j)
    {
      SameColumns(rs, ss, n, j);
    }
    SameSums(rs, ss, n);
  }
}
