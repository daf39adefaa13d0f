/** The state of the global load balancer: updated by one worker under a lock, queried at any
    moment in between. */
module GslbCore {
  import opened Words
  import opened Wrappers
  import opened Gslb

  datatype RegionInfo = RegionInfo(id: string, prefixes: seq<Prefix>)

  datatype State = State(regions: seq<Region>, popstate: seq<Status>, serial: Word32)

  /** The latencies that a round of probes from one region leaves: a failed probe counts as very slow. */
  function Measured(probes: seq<Option<real>>): (r: seq<real>)
    ensures |r| == |probes|
    ensures forall j :: 0 <= j < |r| ==> r[j] == Shown(probes[j])
  {
    seq(|probes|, j requires 0 <= j < |probes| => Shown(probes[j]))
  }

  function Shown(probe: Option<real>): real {
    if probe.Some? then probe.value else DEFAULT_LATENCY
  }

  /** One update under the lock. */
  datatype Event = Latencies(region: nat, probes: seq<Option<real>>) | Statuses(popstate: seq<Status>)

  predicate Fits(e: Event, regions: nat, pops: nat) {
    match e
    case Latencies(i, probes) => i < regions && |probes| == pops
    case Statuses(popstate) => |popstate| == pops
  }

  predicate AllFit(events: seq<Event>, regions: nat, pops: nat) {
    forall k :: 0 <= k < |events| ==> Fits(events[k], regions, pops)
  }

  function Initial(infos: seq<RegionInfo>, n: nat): (s: State)
    ensures |s.regions| == |infos| && Complete(s.regions, n)
  {
    State(seq(|infos|, i requires 0 <= i < |infos| => Region(infos[i].id, infos[i].prefixes, seq(n, _ => DEFAULT_LATENCY))),
          seq(n, _ => NotYetAvailable), 0)
  }

  function Apply(s: State, e: Event): (r: State)
    requires e.Latencies? ==> e.region < |s.regions|
    ensures |r.regions| == |s.regions|
  {
    match e
    case Latencies(i, probes) =>
      s.(regions := s.regions[i := s.regions[i].(popLatency := Measured(probes))], serial := Add32(s.serial, 1))
    case Statuses(popstate) => s.(popstate := popstate, serial := Add32(s.serial, 1))
  }

  function After(infos: seq<RegionInfo>, n: nat, events: seq<Event>): (s: State)
    requires AllFit(events, |infos|, n)
    ensures |s.regions| == |infos|
  {
    if events == [] then Initial(infos, n)
    else Apply(After(infos, n, events[..|events| - 1]), events[|events| - 1])
  }

  class GslbCore {
    const pops: seq<Pop>
    var popstate: seq<Status>
    var regions: seq<Region>
    var serial: Word32

    predicate Valid()
      reads this
    {
      |popstate| == |pops| && Complete(regions, |pops|)
    }

    function Value(): State
      reads this
    {
      State(regions, popstate, serial)
    }

    constructor (pops: seq<Pop>, infos: seq<RegionInfo>)
      ensures Valid() && this.pops == pops && Value() == Initial(infos, |pops|)
    {
      this.pops := pops;
      popstate := seq(|pops|, _ => NotYetAvailable);
      regions := seq(|infos|, i requires 0 <= i < |infos| =>
        Region(infos[i].id, infos[i].prefixes, seq(|pops|, _ => DEFAULT_LATENCY)));
      serial := 0;
    }

    method UpdatePoPStatus(fetched: seq<Result<(real, real), string>>)
      requires Valid() && |fetched| == |pops|
      modifies this`popstate, this`serial
      ensures Valid()
      ensures Value() == Apply(old(Value()), Statuses(popstate))
      ensures forall i :: 0 <= i < |pops| ==>
        popstate[i] == match fetched[i] case Ok(s) => Fetched(s.0, s.1) case Err(e) => FetchFailed(e)
    {
      var newstate := seq(|pops|, _ => NotYetAvailable);
      for i := 0 to |pops|
        invariant |newstate| == |pops|
        invariant forall k :: 0 <= k < i ==>
          newstate[k] == match fetched[k] case Ok(s) => Fetched(s.0, s.1) case Err(e) => FetchFailed(e)
      {
        match fetched[i] {
          case Err(e) => newstate := newstate[i := FetchFailed(e)];
          case Ok(s) => newstate := newstate[i := Fetched(s.0, s.1)];
        }
      }
      popstate := newstate;
      serial := Add32(serial, 1);
    }

    /** The probes of one region: measured outside the lock, stored under it. */
    method UpdateRegion(i: nat, probes: seq<Option<real>>)
      requires Valid() && i < |regions| && |probes| == |pops|
      modifies this`regions, this`serial
      ensures Valid() && Value() == Apply(old(Value()), Latencies(i, probes))
    {
      var popLatency := seq(|pops|, _ => 0.0);
      for j := 0 to |pops|
        invariant |popLatency| == |pops|
        invariant forall k :: 0 <= k < j ==> popLatency[k] == Shown(probes[k])
      {
        var lat := if probes[j].Some? then probes[j].value else DEFAULT_LATENCY;
        popLatency := popLatency[j := lat];
      }
      assert popLatency == Measured(probes);
      regions := regions[i := regions[i].(popLatency := popLatency)];
      serial := Add32(serial, 1);
    }

    /** The column sums over all regions, accumulated region by region. */
    method SumLatencies() returns (latencies: array<real>)
      requires Valid()
      ensures latencies[..] == ColumnSums(regions, |pops|)
    {
      var n := |pops|;
      latencies := new real[n](_ => 0.0);
      for i := 0 to |regions|
        invariant Complete(regions[..i], n)
        invariant forall j :: 0 <= j < n ==> latencies[j] == ColumnSum(regions[..i], n, j)
      {
        assert regions[..i + 1][..i] == regions[..i];
        for idx := 0 to n
          invariant Complete(regions[..i], n)
          invariant forall j :: 0 <= j < n ==>
            latencies[j] == ColumnSum(regions[..i], n, j) + if j < idx then regions[i].popLatency[j] else 0.0
        {
          latencies[idx] := latencies[idx] + regions[i].popLatency[idx];
        }
      }
      assert regions[..|regions|] == regions;
    }

    /** The loops that look for the first strict minimum below a limit. */
    static method FirstBelow(latencies: seq<real>, limit: real) returns (popIdx: int)
      ensures popIdx == var r := Nearest(latencies, limit); if r.Some? then r.value else -1
    {
      var minLatency := limit;
      popIdx := -1;
      for i := 0 to |latencies|
        invariant minLatency == Lowest(latencies[..i], limit)
        invariant popIdx == var r := Nearest(latencies[..i], limit); if r.Some? then r.value else -1
      {
        assert latencies[..i + 1][..i] == latencies[..i];
        if latencies[i] < minLatency {
          minLatency := latencies[i];
          popIdx := i;
        }
      }
      assert latencies[..|latencies|] == latencies;
    }

    /** None stands for the panic of indexing an empty list of points of presence. */
    method GetMostAveragePop() returns (pop: Option<Pop>)
      requires Valid()
      ensures |pops| == 0 ==> pop == None
      ensures |pops| > 0 ==> MostAverage(regions, |pops|) < |pops| && pop == Some(pops[MostAverage(regions, |pops|)])
      ensures |pops| > 0 ==> exists j: nat :: LeastSumAt(regions, |pops|, j) && pop == Some(pops[j])
    {
      var latencies := SumLatencies();
      var minPopIdx := FirstBelow(latencies[..], MAX_FLOAT64);
      if minPopIdx == -1 {
        minPopIdx := 0;
      }
      if minPopIdx >= |pops| {
        return None;
      }
      MostAverageHasLeastSum(regions, |pops|, minPopIdx);
      return Some(pops[minPopIdx]);
    }

    /** One region's prefixes against the best match so far. */
    static method Longer(prefixes: seq<Prefix>, srcIP: Ip, bits: int) returns (bestBits: int)
      requires bits >= -1
      ensures bestBits == if MatchBits(prefixes, srcIP) > bits then MatchBits(prefixes, srcIP) else bits
    {
      bestBits := bits;
      for k := 0 to |prefixes|
        invariant bestBits == if MatchBits(prefixes[..k], srcIP) > bits then MatchBits(prefixes[..k], srcIP) else bits
      {
        assert prefixes[..k + 1][..k] == prefixes[..k];
        if Contains(prefixes[k], srcIP) && prefixes[k].bits > bestBits {
          bestBits := prefixes[k].bits;
        }
      }
      assert prefixes[..|prefixes|] == prefixes;
    }

    method FindRegion(srcIP: Ip) returns (bestRegion: Option<Region>)
      requires Valid()
      ensures bestRegion == Home(regions, srcIP)
    {
      var bestBits := -1;
      bestRegion := None;
      ghost var all := Matches(regions, srcIP);
      for i := 0 to |regions|
        invariant bestBits == Highest(all[..i])
        invariant bestRegion == var r := FirstHighest(all[..i]); if r.None? then None else Some(regions[r.value])
      {
        assert all[..i + 1][..i] == all[..i];
        var bits := Longer(regions[i].prefixes, srcIP, bestBits);
        if bits > bestBits {
          bestBits := bits;
          bestRegion := Some(regions[i]);
        }
      }
      assert all[..|regions|] == all;
    }

    method Query(srcIP: Ip) returns (answer: Option<Ip>)
      requires Valid()
      ensures |pops| == 0 ==> answer == None
      ensures |pops| > 0 ==> answer == Some(pops[Choice(regions, |pops|, srcIP)].ip)
      ensures |pops| > 0 ==> exists j: nat :: Answers(regions, |pops|, srcIP, j) && j < |pops| && answer == Some(pops[j].ip)
    {
      if |pops| > 0 {
        ChoiceAnswers(regions, |pops|, srcIP, Choice(regions, |pops|, srcIP));
      }
      var popIdx := -1;
      var bestRegion := FindRegion(srcIP);
      if bestRegion.Some? {
        popIdx := FirstBelow(bestRegion.value.popLatency, DEFAULT_LATENCY);
      }
      if popIdx == -1 {
        var pop := GetMostAveragePop();
        return if pop.Some? then Some(pop.value.ip) else None;
      }
      return Some(pops[popIdx].ip);
    }
  }

  // ---------- over any run of updates ----------

  /** Whatever updates have come, every index that a query uses is in range. */
  lemma {:induction false} AlwaysComplete(infos: seq<RegionInfo>, n: nat, events: seq<Event>)
    requires AllFit(events, |infos|, n)
    ensures var s := After(infos, n, events);
            Complete(s.regions, n) && |s.popstate| == n && s.serial == Wrap32(|events|)
    ensures forall i :: 0 <= i < |infos| ==> After(infos, n, events).regions[i].prefixes == infos[i].prefixes
  {
    if events != [] {
      AlwaysComplete(infos, n, events[..|events| - 1]);
      SerialStep(|events| - 1);
    }
  }

  lemma SerialStep(k: nat)
    ensures Add32(Wrap32(k), 1) == Wrap32(k + 1)
  {
  }

  /** The outcome of the last probe from region `i` to point of presence `j`, if there was one. */
  function LastProbe(events: seq<Event>, regions: nat, n: nat, i: nat, j: nat): Option<Option<real>>
    requires AllFit(events, regions, n) && i < regions && j < n
  {
    if events == [] then None
    else
      var last := events[|events| - 1];
      if last.Latencies? && last.region == i then Some(last.probes[j])
      else LastProbe(events[..|events| - 1], regions, n, i, j)
  }

  lemma {:induction false} LatencyIsLastProbe(infos: seq<RegionInfo>, n: nat, events: seq<Event>, i: nat, j: nat)
    requires AllFit(events, |infos|, n) && i < |infos| && j < n
    ensures |After(infos, n, events).regions[i].popLatency| == n
    ensures var probe := LastProbe(events, |infos|, n, i, j);
            After(infos, n, events).regions[i].popLatency[j] ==
              if probe.Some? && probe.value.Some? then probe.value.value else 20000000.0
  {
    if events != [] {
      LatencyIsLastProbe(infos, n, events[..|events| - 1], i, j);
    }
  }

  /** After any run of updates, a query that does not fall back answers with a point of presence
      whose last probe from the address's region succeeded, and beat every other one. */
  lemma DirectAnswerWasProbed(infos: seq<RegionInfo>, n: nat, events: seq<Event>, ip: Ip) returns (i: nat)
    requires AllFit(events, |infos|, n) && Direct(After(infos, n, events).regions, ip).Some?
    ensures i < |infos| && Home(After(infos, n, events).regions, ip) == Some(After(infos, n, events).regions[i])
    ensures var j := Direct(After(infos, n, events).regions, ip).value;
            j < n && LastProbe(events, |infos|, n, i, j).Some? && LastProbe(events, |infos|, n, i, j).value.Some?
            && var lat := LastProbe(events, |infos|, n, i, j).value.value;
            lat < DEFAULT_LATENCY && forall l :: l in After(infos, n, events).regions[i].popLatency ==> lat <= l
  {
    AlwaysComplete(infos, n, events);
    var regions := After(infos, n, events).regions;
    i := FirstHighest(Matches(regions, ip)).value;
    var j := Direct(regions, ip).value;
    NearestIsFirstMinimum(regions[i].popLatency, DEFAULT_LATENCY, j);
    LatencyIsLastProbe(infos, n, events, i, j);
  }
}
