/** The balancer while packets pass: New, health rounds and table rewrites as single map
    writes, each of which may fail, with packets reading the maps at any moment in between. */
module Datapath {
  import opened NumberTheory
  import opened Words
  import opened Maglev
  import opened Bindings
  import opened Wrappers
  import opened L4lb
  import opened Counters
  import opened Encap
  import opened Xdp

  datatype Config = Config(dests: seq<DestinationEntry>, vip: Word32, hash: Addr -> nat)

  /** Where the control plane stands. The program is attached once the first table is written. */
  datatype Phase =
    | Populating(target: seq<nat>, written: nat)  // New: first table
    | Configuring                                 // New: attached, before the configuration is written
    | Syncing(synced: nat)                        // New: destination entries
    | Idle                                        // New has returned
    | Rewriting(target: seq<nat>, written: nat)   // a health round changed something
    | Failed                                      // New has returned an error

  datatype System = System(dead: seq<bool>, table: seq<nat>, entries: seq<seq<Byte>>, vip: Word32, phase: Phase)

  const ZERO_ENTRY: seq<Byte> := [0, 0, 0, 0, 0, 0, 0, 0, 0, 0]

  ghost function Target(cfg: Config, dead: seq<bool>): (t: seq<nat>)
    requires |dead| == |cfg.dests| && Alive(dead) != []
    ensures |t| == MAGLEV_TABLE_SIZE && forall c :: 0 <= c < |t| ==> Live(dead, t[c])
  {
    Prime65537();
    Installed(MAGLEV_TABLE_SIZE, cfg.hash, cfg.dests, dead)
  }

  lemma EverybodyAlive(n: nat)
    requires n >= 2
    ensures Alive(seq(n, _ => false)) != []
  {
  }

  /** `New` gets past its length check; every destination counts as alive, the maps are zero. */
  ghost predicate Init(cfg: Config, s: System) {
    && |cfg.dests| >= 2
    && s.dead == seq(|cfg.dests|, _ => false)
    && s.table == seq(MAGLEV_TABLE_SIZE, _ => 0)
    && s.entries == seq(DESTINATIONS_CAPACITY, _ => ZERO_ENTRY)
    && s.vip == 0
    && (EverybodyAlive(|cfg.dests|); s.phase == Populating(Target(cfg, s.dead), 0))
  }

  predicate WriteTable(s: System, s': System, target: seq<nat>, k: nat) {
    k < |target| && k < |s.table| && s'.table == s.table[k := target[k]]
    && s'.dead == s.dead && s'.entries == s.entries && s'.vip == s.vip
  }

  /** One step: a map write succeeds, or fails, or a health round ends. */
  ghost predicate Next(cfg: Config, s: System, s': System) {
    match s.phase
    case Populating(t, k) =>
      || (WriteTable(s, s', t, k) && s'.phase == if k + 1 == |t| then Configuring else Populating(t, k + 1))
      || s' == s.(phase := Failed)
    case Configuring =>
      || s' == s.(vip := cfg.vip, phase := Syncing(0))
      || s' == s.(phase := Failed)
    case Syncing(k) =>
      || (AllV4(cfg.dests) && |cfg.dests| <= |s.entries| && k < |cfg.dests|
          && s' == s.(entries := s.entries[k := EntryAt(EncodeAll(cfg.dests), k)],
                      phase := if k + 1 == |cfg.dests| then Idle else Syncing(k + 1)))
      || s' == s.(phase := Failed)
    case Idle =>
      exists ok: seq<bool> :: |ok| == |s.dead| > 0 && HealthRound(cfg, s, s', ok)
    case Rewriting(t, k) =>
      || (WriteTable(s, s', t, k) && s'.phase == if k + 1 == |t| then Idle else Rewriting(t, k + 1))
      || s' == s.(phase := Idle)
    case Failed => false
  }

  ghost predicate HealthRound(cfg: Config, s: System, s': System, ok: seq<bool>)
    requires |ok| == |s.dead| > 0
  {
    var dead := DeadAfter(s.dead, ok);
    && |dead| == |cfg.dests|
    && s' == if dead != s.dead && Alive(dead) != []
             then s.(dead := dead, phase := Rewriting(Target(cfg, dead), 0))
             else s.(dead := dead)
  }

  ghost predicate Run(cfg: Config, trace: seq<System>) {
    trace != [] && Init(cfg, trace[0]) &&
    forall i {:trigger Step(cfg, trace, i)} :: 0 <= i < |trace| - 1 ==> Step(cfg, trace, i)
  }

  ghost predicate Step(cfg: Config, trace: seq<System>, i: nat)
    requires i + 1 < |trace|
  {
    Next(cfg, trace[i], trace[i + 1])
  }

  /** `New` has returned without an error. */
  predicate Started(s: System) {
    s.phase.Idle? || s.phase.Rewriting?
  }

  // ---------- the invariant ----------

  predicate RealBackends(cfg: Config, t: seq<nat>) {
    |t| == MAGLEV_TABLE_SIZE && forall c :: 0 <= c < |t| ==> 1 <= t[c] < |cfg.dests|
  }

  predicate Synced(cfg: Config, entries: seq<seq<Byte>>, k: nat) {
    && k <= |cfg.dests| && k <= |entries|
    && (k > 0 ==> AllV4(cfg.dests))
    && (forall i :: 0 <= i < k ==> AllV4(cfg.dests) && entries[i] == EncodeEntry(cfg.dests[i]))
  }

  /** `t` is the table that the balancer computes for the destinations that are not dead. */
  ghost predicate IsTableOf(cfg: Config, dead: seq<bool>, t: seq<nat>) {
    |dead| == |cfg.dests| && Alive(dead) != [] && t == Target(cfg, dead)
  }

  ghost predicate Inv(cfg: Config, s: System) {
    && |s.dead| == |cfg.dests| >= 2 && |s.table| == MAGLEV_TABLE_SIZE
    && |s.entries| == DESTINATIONS_CAPACITY && AllEntries(s.entries)
    && match s.phase
       case Populating(t, k) => RealBackends(cfg, t) && IsTableOf(cfg, s.dead, t) && k < |t| && s.table[..k] == t[..k]
       case Configuring => RealBackends(cfg, s.table) && IsTableOf(cfg, s.dead, s.table)
       case Syncing(k) =>
         s.vip == cfg.vip && RealBackends(cfg, s.table) && IsTableOf(cfg, s.dead, s.table) && Synced(cfg, s.entries, k)
       case Idle => s.vip == cfg.vip && RealBackends(cfg, s.table) && Synced(cfg, s.entries, |cfg.dests|)
       case Rewriting(t, k) =>
         s.vip == cfg.vip && RealBackends(cfg, s.table) && Synced(cfg, s.entries, |cfg.dests|) && RealBackends(cfg, t) && k < |t|
         && IsTableOf(cfg, s.dead, t) && s.table[..k] == t[..k]
       case Failed => true
  }

  lemma InitInv(cfg: Config, s: System)
    requires Init(cfg, s)
    ensures Inv(cfg, s)
  {
  }

  lemma TableWriteInv(cfg: Config, s: System, s': System, target: seq<nat>, k: nat)
    requires Inv(cfg, s) && WriteTable(s, s', target, k)
    requires s.phase == Populating(target, k) || s.phase == Rewriting(target, k)
    requires s'.phase == if k + 1 < |target| then (if s.phase.Populating? then Populating(target, k + 1) else Rewriting(target, k + 1))
                         else if s.phase.Populating? then Configuring else Idle
    ensures Inv(cfg, s')
  {
  }

  lemma SyncInv(cfg: Config, s: System, s': System, k: nat)
    requires Inv(cfg, s) && s.phase == Syncing(k) && AllV4(cfg.dests) && k < |cfg.dests| <= |s.entries|
    requires s' == s.(entries := s.entries[k := EntryAt(EncodeAll(cfg.dests), k)],
                      phase := if k + 1 == |cfg.dests| then Idle else Syncing(k + 1))
    ensures Inv(cfg, s')
  {
    MarshalRoundTrip(cfg.dests, k);
  }

  lemma HealthRoundInv(cfg: Config, s: System, s': System, ok: seq<bool>)
    requires Inv(cfg, s) && s.phase.Idle? && |ok| == |s.dead| && HealthRound(cfg, s, s', ok)
    ensures Inv(cfg, s')
  {
  }

  lemma NextInv(cfg: Config, s: System, s': System)
    requires Inv(cfg, s) && Next(cfg, s, s')
    ensures Inv(cfg, s')
  {
    match s.phase
    case Populating(t, k) =>
      if s'.phase != Failed {
        TableWriteInv(cfg, s, s', t, k);
      }
    case Rewriting(t, k) =>
      if s' != s.(phase := Idle) {
        TableWriteInv(cfg, s, s', t, k);
      }
    case Syncing(k) =>
      if s'.phase != Failed {
        SyncInv(cfg, s, s', k);
      }
    case Idle =>
      var ok: seq<bool> :| |ok| == |s.dead| > 0 && HealthRound(cfg, s, s', ok);
      HealthRoundInv(cfg, s, s', ok);
    case _ =>
  }

  lemma {:induction false} RunInv(cfg: Config, trace: seq<System>, i: nat)
    requires Run(cfg, trace) && i < |trace|
    ensures Inv(cfg, trace[i])
  {
    if i == 0 {
      InitInv(cfg, trace[0]);
    } else {
      RunInv(cfg, trace, i - 1);
      assert Step(cfg, trace, i - 1);
      NextInv(cfg, trace[i - 1], trace[i]);
    }
  }

  /** When the last entry of a table has been written, whatever happened before, the whole table is the
      one for the destinations that are not dead; so it is fair and stable. */
  lemma FinishedTableIsInstalled(cfg: Config, trace: seq<System>, i: nat, t: seq<nat>)
    requires Run(cfg, trace) && i + 1 < |trace| && |t| > 0
    requires trace[i].phase == Populating(t, |t| - 1) || trace[i].phase == Rewriting(t, |t| - 1)
    requires WriteTable(trace[i], trace[i + 1], t, |t| - 1)
    ensures Prime(MAGLEV_TABLE_SIZE) && |trace[i + 1].dead| == |cfg.dests| && Alive(trace[i + 1].dead) != []
    ensures trace[i + 1].table == Installed(MAGLEV_TABLE_SIZE, cfg.hash, cfg.dests, trace[i + 1].dead)
  {
    Prime65537();
    RunInv(cfg, trace, i);
    assert trace[i + 1].table == t;
  }

  lemma {:induction false} StartedForGood(cfg: Config, trace: seq<System>, i: nat, j: nat)
    requires Run(cfg, trace) && i <= j < |trace| && Started(trace[i])
    ensures Started(trace[j])
    decreases j
  {
    if i < j {
      StartedForGood(cfg, trace, i, j - 1);
      assert Step(cfg, trace, j - 1);
    }
  }

  // ---------- what packets find ----------

  /** A packet reads slot `key` at moment `i` and the destination entry at any later moment `j`:
      the configured address is in force, the slot exists, it names a configured backend, and the entry holds that backend's bytes. */
  lemma EveryPacketFindsItsBackend(cfg: Config, trace: seq<System>, i: nat, j: nat, key: nat)
    requires Run(cfg, trace) && i <= j < |trace| && Started(trace[i]) && key < MAGLEV_TABLE_SIZE
    ensures trace[i].vip == trace[j].vip == cfg.vip && key < |trace[i].table| && AllV4(cfg.dests)
    ensures var b := trace[i].table[key];
            1 <= b < |cfg.dests| && b < |trace[j].entries| && trace[j].entries[b] == EncodeEntry(cfg.dests[b])
  {
    RunInv(cfg, trace, i);
    RunInv(cfg, trace, j);
    StartedForGood(cfg, trace, i, j);
  }

  /** A frame that leaves for backend `b`. */
  predicate SentTo(cfg: Config, f: seq<Byte>, out: seq<Byte>, b: nat) {
    && 1 <= b < |cfg.dests| && |f| >= MIN_LEN && AllV4(cfg.dests)
    && out == Output(f, EncodeEntry(cfg.dests[0]), EncodeEntry(cfg.dests[b]))
  }

  /** Once `New` has returned, no packet meets either assertion failure, whatever the state of a
      table rewrite, and a packet that is sent goes out to a configured backend. */
  lemma NoAssertionFailure(cfg: Config, trace: seq<System>, i: nat, f: seq<Byte>, out: seq<Byte>, o: Outcome, key: nat)
    requires Run(cfg, trace) && i < |trace| && Started(trace[i]) && key < MAGLEV_TABLE_SIZE
    requires Handled(f, out, o, trace[i].vip, key, trace[i].table, trace[i].entries)
    ensures !o.NoDestination?
    ensures o.Transmitted? ==> key < |trace[i].table| && SentTo(cfg, f, out, trace[i].table[key])
  {
    if Classify(f, trace[i].vip).None? {
      EveryPacketFindsItsBackend(cfg, trace, i, i, key);
      RunInv(cfg, trace, i);
    }
  }

  /** `out` is a frame from one destination of the list to another, up to its outer IP addresses. */
  predicate FromTo(out: seq<Byte>, from: DestinationEntry, to: DestinationEntry) {
    && |out| >= 14 && out[..6] == MacBytes(to.mac) && out[6..12] == MacBytes(from.mac) && out[12..14] == [0x08, 0x00]
    && from.ip.V4? && to.ip.V4?
    && (|out| >= 34 ==>
          && out[26..30] == [from.ip.a, from.ip.b, from.ip.c, from.ip.d]
          && out[30..34] == [to.ip.a, to.ip.b, to.ip.c, to.ip.d])
  }

  lemma SentFromTo(cfg: Config, f: seq<Byte>, out: seq<Byte>, b: nat)
    requires SentTo(cfg, f, out, b)
    ensures FromTo(out, cfg.dests[0], cfg.dests[b])
  {
    var src, dst := EncodeEntry(cfg.dests[0]), EncodeEntry(cfg.dests[b]);
    SentFrameIsAddressed(f, src, dst);
    if |out| >= 34 {
      SentHeader(f, src, dst);
      OuterHeaderFields(f[ETH_LEN..], src, dst);
      assert out[26..30] == Source(out[14..34]) && out[30..34] == Dest(out[14..34]);
    }
  }

  /** A packet that is sent carries the hardware address of the backend in its slot as destination
      and the balancer's as source, and its outer header the IP addresses of both, unless that is
      cut off because the datagram claims fewer than 6 bytes. */
  lemma SentPacketReachesItsBackend(cfg: Config, trace: seq<System>, i: nat, f: seq<Byte>, out: seq<Byte>, key: nat)
    requires Run(cfg, trace) && i < |trace| && Started(trace[i]) && key < MAGLEV_TABLE_SIZE
    requires Handled(f, out, Transmitted, trace[i].vip, key, trace[i].table, trace[i].entries)
    ensures key < |trace[i].table| && 1 <= trace[i].table[key] < |cfg.dests|
    ensures FromTo(out, cfg.dests[0], cfg.dests[trace[i].table[key]])
  {
    NoAssertionFailure(cfg, trace, i, f, out, Transmitted, key);
    SentFromTo(cfg, f, out, trace[i].table[key]);
  }

  // ---------- conservation on a started balancer ----------

  /** A packet that CPU `cpu` handles at moment `at` of a run. */
  datatype Packet = Packet(at: nat, cpu: nat, frame: seq<Byte>, out: seq<Byte>, outcome: Outcome, key: nat)

  predicate HandledAt(trace: seq<System>, p: Packet, n: nat) {
    && p.at < |trace| && Started(trace[p.at]) && p.cpu < n && p.key < MAGLEV_TABLE_SIZE
    && Handled(p.frame, p.out, p.outcome, trace[p.at].vip, p.key, trace[p.at].table, trace[p.at].entries)
  }

  function Events(ps: seq<Packet>): (events: seq<Event>)
    ensures |events| == |ps|
    ensures forall k :: 0 <= k < |ps| ==> events[k] == Event(ps[k].cpu, ps[k].outcome, |ps[k].frame|)
  {
    seq(|ps|, k requires 0 <= k < |ps| => Event(ps[k].cpu, ps[k].outcome, |ps[k].frame|))
  }

  predicate AllHandled(trace: seq<System>, ps: seq<Packet>, n: nat) {
    forall k :: 0 <= k < |ps| ==> HandledAt(trace, ps[k], n)
  }

  lemma HandledOnCpus(trace: seq<System>, ps: seq<Packet>, n: nat)
    requires AllHandled(trace, ps, n)
    ensures OnCpus(Events(ps), n)
  {
    forall k | 0 <= k < |ps|
      ensures Events(ps)[k].cpu < n
    {
      assert HandledAt(trace, ps[k], n);
    }
  }

  lemma HandledHasDestination(cfg: Config, trace: seq<System>, p: Packet, n: nat)
    requires Run(cfg, trace) && HandledAt(trace, p, n)
    ensures !p.outcome.NoDestination?
  {
    NoAssertionFailure(cfg, trace, p.at, p.frame, p.out, p.outcome, p.key);
  }

  lemma {:induction false} NoneWithoutDestination(cfg: Config, trace: seq<System>, ps: seq<Packet>, n: nat)
    requires Run(cfg, trace) && AllHandled(trace, ps, n)
    ensures CountOf(Events(ps), HasNoDestination) == 0
  {
    if ps != [] {
      var k := |ps| - 1;
      assert AllHandled(trace, ps[..k], n);
      NoneWithoutDestination(cfg, trace, ps[..k], n);
      assert Events(ps)[..k] == Events(ps[..k]);
      HandledHasDestination(cfg, trace, ps[k], n);
    }
  }

  /** Conservation once `New` has returned, on any number of CPUs and at any moments of table
      rewrites: a received packet is transmitted, passed on port 22, or counted as a failed adjustment. */
  lemma StartedPacketsAreAccountedFor(cfg: Config, trace: seq<System>, ps: seq<Packet>, n: nat)
    requires Run(cfg, trace) && AllHandled(trace, ps, n)
    ensures OnCpus(Events(ps), n) && FatesAddUp(Events(ps), n)
  {
    HandledOnCpus(trace, ps, n);
    NoneWithoutDestination(cfg, trace, ps, n);
    FourFates(Events(ps), n);
  }
}
