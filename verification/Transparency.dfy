/** Caching is transparent: over any run, what nodes keep and answer is what the origin said, or
    an error page whose maker is on record. */
module Transparency {
  import opened Wrappers
  import opened Rendezvous
  import opened Http
  import opened Routing
  import opened Cdn

  // ---------- assumptions ----------

  /** Registered hosts have no port to cut off, and no slash. */
  ghost predicate Sane(cfg: Config) {
    forall a, h :: a in cfg.nodes && h in cfg.nodes[a].origins ==> cfg.removePort(h) == h && '/' !in h
  }

  predicate Plain(m: Message) {
    m.port == "" && m.uri != [] && m.uri[0] == '/'
  }

  predicate PlainRun(steps: seq<Step>) {
    forall i :: 0 <= i < |steps| && steps[i].ClientSends? ==> Plain(steps[i].m)
  }

  // ---------- the invariant ----------

  function PageOf(f: Fault): Response {
    match f
    case UnknownHost(_, id, _, _) => NotFoundPage(id)
    case NoReachableUpstream(_, id, _, _) => InternalErrorPage(id)
    case BrokenBody(_, id, _, _) => InternalErrorPage(id)
  }

  predicate Explains(f: Fault, r: Response, host: string, uri: string) {
    f.host == host && f.uri == uri && Strip(r) == Strip(PageOf(f))
  }

  /** Up to hop fields, `r` is the origin's response, or a recorded error page for the same resource. */
  ghost predicate Good(cfg: Config, faults: set<Fault>, r: Response, host: string, uri: string) {
    Strip(r) == Strip(cfg.origin(host, uri)) || exists f :: f in faults && Explains(f, r, host, uri)
  }

  lemma GoodIgnoresHopFields(cfg: Config, faults: set<Fault>, r: Response, r': Response, host: string, uri: string)
    requires Good(cfg, faults, r, host, uri) && Strip(r') == Strip(r)
    ensures Good(cfg, faults, r', host, uri)
  {
  }

  predicate ForResource(a: Attempt, m: Message) {
    a.Abort? || (a.message.host == m.host && a.message.uri == m.uri && a.message.port == "")
  }

  predicate AllForResource(todo: seq<Attempt>, m: Message) {
    forall i :: 0 <= i < |todo| ==> ForResource(todo[i], m)
  }

  predicate FromThisNode(r: Response, id: string) {
    Clean(r, id) || r == NotFoundPage(id) || r == InternalErrorPage(id)
  }

  /** What a call promises, in terms of the messages of all calls and the faults so far. */
  ghost predicate CallOk(cfg: Config, s: System, call: Call)
    requires call.node in cfg.nodes
  {
    var n, m := cfg.nodes[call.node], call.m;
    && Plain(m) && m.uri == call.client.uri && m.host == cfg.removePort(call.client.host)
    && match call.state
       case Waiting(todo) => m.host in n.origins && AllForResource(todo, m)
       case Pending(child, rest) =>
         && m.host in n.origins && AllForResource(rest, m)
         && child < |s.calls| && s.calls[child].m.host == m.host && s.calls[child].m.uri == m.uri
       case Answered(reply) => Good(cfg, s.faults, reply, m.host, m.uri) && FromThisNode(reply, n.id)
       case Dead => true
  }

  ghost predicate EntryFor(cfg: Config, faults: set<Fault>, key: string, o: Response, host: string, uri: string) {
    && key == host + uri && '/' !in host && uri != [] && uri[0] == '/'
    && Good(cfg, faults, o, host, uri)
  }

  ghost predicate EntryOk(cfg: Config, faults: set<Fault>, key: string, o: Response) {
    Cacheable(o) && exists host, uri :: EntryFor(cfg, faults, key, o, host, uri)
  }

  ghost predicate CallsOk(cfg: Config, s: System)
    requires Typed(cfg, s)
  {
    forall c :: 0 <= c < |s.calls| ==> CallOk(cfg, s, s.calls[c])
  }

  ghost predicate CachesOk(cfg: Config, s: System) {
    forall a, k :: a in s.caches && k in s.caches[a] ==> EntryOk(cfg, s.faults, k, s.caches[a][k])
  }

  predicate FaultOk(cfg: Config, f: Fault) {
    f.node in cfg.nodes && f.id == cfg.nodes[f.node].id && (f.UnknownHost? <==> f.host !in cfg.nodes[f.node].origins)
  }

  ghost predicate Inv(cfg: Config, s: System) {
    Typed(cfg, s) && CallsOk(cfg, s) && CachesOk(cfg, s) && forall f :: f in s.faults ==> FaultOk(cfg, f)
  }

  // ---------- growth ----------

  /** Later states have all the calls and faults of earlier ones, about the same messages. */
  predicate Grows(s: System, s': System) {
    && |s.calls| <= |s'.calls| && s.faults <= s'.faults
    && forall c :: 0 <= c < |s.calls| ==> s'.calls[c].m == s.calls[c].m
  }

  lemma GoodGrows(cfg: Config, faults: set<Fault>, faults': set<Fault>, r: Response, host: string, uri: string)
    requires Good(cfg, faults, r, host, uri) && faults <= faults'
    ensures Good(cfg, faults', r, host, uri)
  {
  }

  lemma EntryOkGrows(cfg: Config, faults: set<Fault>, faults': set<Fault>, key: string, o: Response)
    requires EntryOk(cfg, faults, key, o) && faults <= faults'
    ensures EntryOk(cfg, faults', key, o)
  {
    var host, uri :| EntryFor(cfg, faults, key, o, host, uri);
    GoodGrows(cfg, faults, faults', o, host, uri);
    assert EntryFor(cfg, faults', key, o, host, uri);
  }

  lemma CallsGrow(cfg: Config, s: System, s': System)
    requires Typed(cfg, s) && CallsOk(cfg, s) && Grows(s, s')
    ensures forall c :: 0 <= c < |s.calls| ==> CallOk(cfg, s', s.calls[c])
  {
  }

  lemma CachesGrow(cfg: Config, s: System, faults': set<Fault>)
    requires CachesOk(cfg, s) && s.faults <= faults'
    ensures forall a, k :: a in s.caches && k in s.caches[a] ==> EntryOk(cfg, faults', k, s.caches[a][k])
  {
    forall a, k | a in s.caches && k in s.caches[a]
      ensures EntryOk(cfg, faults', k, s.caches[a][k])
    {
      EntryOkGrows(cfg, s.faults, faults', k, s.caches[a][k]);
    }
  }

  // ---------- arrivals ----------

  lemma PlanIsForResource(n: NodeConfig, hash: Hash, m: Message)
    requires m.host in n.origins
    ensures AllForResource(Plan(n, hash, m), m)
  {
  }

  /** An entry is for the resource that is asked for: the key tells host and path apart. */
  lemma EntryIsGood(cfg: Config, faults: set<Fault>, m: Message, o: Response)
    requires Plain(m) && '/' !in m.host && EntryOk(cfg, faults, KeyText(m), o)
    ensures Cacheable(o) && Good(cfg, faults, o, m.host, m.uri)
  {
    var host, uri :| EntryFor(cfg, faults, KeyText(m), o, host, uri);
    assert KeyText(m) == m.host + m.uri;
    SplitAtSlash(m.host, m.uri, host, uri);
  }

  lemma HitIsGood(cfg: Config, faults: set<Fault>, m: Message, o: Response, id: string)
    requires Plain(m) && '/' !in m.host && EntryOk(cfg, faults, KeyText(m), o)
    ensures Good(cfg, faults, Served(id, Hit(o)), m.host, m.uri) && Clean(Served(id, Hit(o)), id)
  {
    EntryIsGood(cfg, faults, m, o);
    HitDiffersOnlyInXCache(o);
    ServedIsClean(id, Hit(o));
    GoodIgnoresHopFields(cfg, faults, o, Served(id, Hit(o)), m.host, m.uri);
  }

  lemma ArrivedCallOk(cfg: Config, s: System, node: string, client: Message, m: Message, depth: nat)
    requires Inv(cfg, s) && Sane(cfg) && node in cfg.nodes && Plain(m)
    requires m.uri == client.uri && cfg.removePort(m.host) == cfg.removePort(client.host)
    ensures var s' := Arrived(cfg, s, node, client, m, depth);
            CallOk(cfg, s', s'.calls[|s.calls|])
  {
    var n, m' := cfg.nodes[node], m.(host := cfg.removePort(m.host));
    var s' := Arrived(cfg, s, node, client, m, depth);
    if m'.host !in n.origins {
      assert Explains(UnknownHost(node, n.id, m'.host, m'.uri), NotFoundPage(n.id), m'.host, m'.uri);
    } else if KeyText(m') in s.caches[node] {
      HitIsGood(cfg, s.faults, m', s.caches[node][KeyText(m')], n.id);
    } else {
      PlanIsForResource(n, cfg.hash, m');
    }
  }

  lemma ArrivedAdds(cfg: Config, s: System, node: string, client: Message, m: Message, depth: nat)
    requires Typed(cfg, s) && node in cfg.nodes && forall f :: f in s.faults ==> FaultOk(cfg, f)
    ensures var s' := Arrived(cfg, s, node, client, m, depth);
            && Typed(cfg, s') && s'.caches == s.caches && s.faults <= s'.faults
            && |s'.calls| == |s.calls| + 1 && s'.calls[..|s.calls|] == s.calls
            && forall f :: f in s'.faults ==> FaultOk(cfg, f)
  {
  }

  lemma ArrivedInv(cfg: Config, s: System, node: string, client: Message, m: Message, depth: nat)
    requires Inv(cfg, s) && Sane(cfg) && node in cfg.nodes && Plain(m)
    requires m.uri == client.uri && cfg.removePort(m.host) == cfg.removePort(client.host)
    ensures Inv(cfg, Arrived(cfg, s, node, client, m, depth))
  {
    ArrivedAdds(cfg, s, node, client, m, depth);
    ArrivedCallOk(cfg, s, node, client, m, depth);
    OneMoreInv(cfg, s, Arrived(cfg, s, node, client, m, depth));
  }

  lemma OneMoreInv(cfg: Config, s: System, s': System)
    requires Inv(cfg, s) && Typed(cfg, s') && s'.caches == s.caches && s.faults <= s'.faults
    requires |s'.calls| == |s.calls| + 1 && s'.calls[..|s.calls|] == s.calls
    requires CallOk(cfg, s', s'.calls[|s.calls|]) && forall f :: f in s'.faults ==> FaultOk(cfg, f)
    ensures Inv(cfg, s')
  {
    assert forall c :: 0 <= c < |s.calls| ==> s'.calls[c] == s'.calls[..|s.calls|][c];
    CallsGrow(cfg, s, s');
    CachesGrow(cfg, s, s'.faults);
  }

  // ---------- changes of one call ----------

  lemma StateInv(cfg: Config, s: System, c: nat, st: CallState)
    requires Inv(cfg, s) && c < |s.calls| && CallOk(cfg, s, s.calls[c].(state := st))
    ensures Inv(cfg, WithState(s, c, st))
  {
  }

  lemma StoredIsEntry(cfg: Config, faults: set<Fault>, resp: Response, m: Message)
    requires Plain(m) && '/' !in m.host && Good(cfg, faults, resp, m.host, m.uri)
    ensures EntryOk(cfg, faults, KeyText(m), Stored(resp))
  {
    StoredIsCacheable(resp);
    GoodIgnoresHopFields(cfg, faults, resp, Stored(resp), m.host, m.uri);
    assert KeyText(m) == m.host + m.uri;
    assert EntryFor(cfg, faults, KeyText(m), Stored(resp), m.host, m.uri);
  }

  lemma StoredIsGood(cfg: Config, faults: set<Fault>, resp: Response, m: Message, id: string)
    requires Good(cfg, faults, resp, m.host, m.uri)
    ensures Good(cfg, faults, Served(id, Stored(resp)), m.host, m.uri) && FromThisNode(Served(id, Stored(resp)), id)
  {
    StoredIsCacheable(resp);
    ServedIsClean(id, Stored(resp));
    GoodIgnoresHopFields(cfg, faults, resp, Served(id, Stored(resp)), m.host, m.uri);
  }

  lemma FinishedInv(cfg: Config, s: System, c: nat, resp: Response)
    requires Inv(cfg, s) && Sane(cfg) && c < |s.calls| && s.calls[c].m.host in cfg.nodes[s.calls[c].node].origins
    requires Good(cfg, s.faults, resp, s.calls[c].m.host, s.calls[c].m.uri)
    ensures Inv(cfg, Finished(cfg, s, c, resp))
  {
    var call := s.calls[c];
    var st := Answered(Served(cfg.nodes[call.node].id, Stored(resp)));
    assert CallOk(cfg, s, call);
    StoredIsEntry(cfg, s.faults, resp, call.m);
    StoredIsGood(cfg, s.faults, resp, call.m, cfg.nodes[call.node].id);
    StateInv(cfg, s, c, st);
    StoreInv(cfg, WithState(s, c, st), call.node, KeyText(call.m), Stored(resp));
  }

  lemma StoreInv(cfg: Config, s: System, node: string, key: string, o: Response)
    requires Inv(cfg, s) && node in s.caches && EntryOk(cfg, s.faults, key, o)
    ensures Inv(cfg, s.(caches := s.caches[node := s.caches[node][key := o]]))
  {
  }

  lemma EvictInv(cfg: Config, s: System, node: string, key: string)
    requires Inv(cfg, s) && node in s.caches
    ensures Inv(cfg, s.(caches := s.caches[node := s.caches[node] - {key}]))
  {
  }

  lemma NextIsForResource(cfg: Config, s: System, call: Call)
    requires Sane(cfg) && call.node in cfg.nodes && CallOk(cfg, s, call) && call.state.Waiting? && call.state.todo != []
    ensures AllForResource(call.state.todo[1..], call.m)
    ensures var next := call.state.todo[0];
            next.Abort? ||
            (Plain(next.message) && next.message.uri == call.client.uri && next.message.host == call.m.host
             && cfg.removePort(next.message.host) == call.m.host == cfg.removePort(call.client.host))
  {
  }

  lemma SentInv(cfg: Config, s: System, arrived: System, c: nat, rest: seq<Attempt>)
    requires Inv(cfg, s) && Inv(cfg, arrived) && c < |s.calls| < |arrived.calls| && arrived.calls[c] == s.calls[c]
    requires s.calls[c].state.Waiting? && AllForResource(rest, s.calls[c].m)
    requires arrived.calls[|s.calls|].m.host == s.calls[c].m.host && arrived.calls[|s.calls|].m.uri == s.calls[c].m.uri
    ensures Inv(cfg, WithState(arrived, c, Pending(|s.calls|, rest)))
  {
  }

  /** The state when a fetch has reached a node, before the sender points to the new call. */
  function AfterArrival(cfg: Config, s: System, c: nat): System
    requires Typed(cfg, s) && Can(cfg, s, Sends(c))
  {
    var call := s.calls[c];
    var next := call.state.todo[0];
    Arrived(cfg, s, next.backend.address, call.client, next.message, call.depth + 1)
  }

  lemma SendShape(cfg: Config, s: System, c: nat)
    requires Typed(cfg, s) && Can(cfg, s, Sends(c))
    ensures var arrived, call := AfterArrival(cfg, s, c), s.calls[c];
            && |arrived.calls| == |s.calls| + 1 && arrived.calls[c] == call
            && arrived.calls[|s.calls|].m.host == cfg.removePort(call.state.todo[0].message.host)
            && arrived.calls[|s.calls|].m.uri == call.state.todo[0].message.uri
            && Apply(cfg, s, Sends(c)) == WithState(arrived, c, Pending(|s.calls|, call.state.todo[1..]))
  {
  }

  lemma ArrivalInv(cfg: Config, s: System, c: nat)
    requires Inv(cfg, s) && Sane(cfg) && Can(cfg, s, Sends(c))
    ensures Inv(cfg, AfterArrival(cfg, s, c))
  {
    var call := s.calls[c];
    var next := call.state.todo[0];
    assert CallOk(cfg, s, call);
    NextIsForResource(cfg, s, call);
    var arrived := Arrived(cfg, s, next.backend.address, call.client, next.message, call.depth + 1);
    ArrivedInv(cfg, s, next.backend.address, call.client, next.message, call.depth + 1);
    assert Inv(cfg, arrived) && AfterArrival(cfg, s, c) == arrived;
  }

  lemma SendInv(cfg: Config, s: System, c: nat)
    requires Inv(cfg, s) && Sane(cfg) && Can(cfg, s, Sends(c))
    ensures Inv(cfg, Apply(cfg, s, Sends(c)))
  {
    assert CallOk(cfg, s, s.calls[c]);
    NextIsForResource(cfg, s, s.calls[c]);
    ArrivalInv(cfg, s, c);
    SendShape(cfg, s, c);
    SentInv(cfg, s, AfterArrival(cfg, s, c), c, s.calls[c].state.todo[1..]);
  }

  lemma RefusedInv(cfg: Config, s: System, c: nat, f: Fault)
    requires Inv(cfg, s) && c < |s.calls| && s.calls[c].m.host in cfg.nodes[s.calls[c].node].origins
    requires var call := s.calls[c];
             f == NoReachableUpstream(call.node, cfg.nodes[call.node].id, call.m.host, call.m.uri) ||
             f == BrokenBody(call.node, cfg.nodes[call.node].id, call.m.host, call.m.uri)
    ensures Inv(cfg, Refused(cfg, s, c, f))
  {
    var call := s.calls[c];
    var noted, page := s.(faults := s.faults + {f}), InternalErrorPage(cfg.nodes[call.node].id);
    CallsGrow(cfg, s, noted);
    CachesGrow(cfg, s, noted.faults);
    assert Explains(f, page, call.m.host, call.m.uri);
    StateInv(cfg, noted, c, Answered(page));
  }

  lemma AnswerInv(cfg: Config, s: System, c: nat)
    requires Inv(cfg, s) && Sane(cfg) && Can(cfg, s, NodeAnswers(c))
    ensures Inv(cfg, Apply(cfg, s, NodeAnswers(c)))
  {
    var child := s.calls[s.calls[c].state.child];
    assert CallOk(cfg, s, child) && CallOk(cfg, s, s.calls[c]);
    FinishedInv(cfg, s, c, child.state.reply);
  }

  lemma OriginInv(cfg: Config, s: System, c: nat)
    requires Inv(cfg, s) && Sane(cfg) && Can(cfg, s, OriginAnswers(c))
    ensures Inv(cfg, Apply(cfg, s, OriginAnswers(c)))
  {
    var call := s.calls[c];
    assert CallOk(cfg, s, call);
    assert ForResource(call.state.todo[0], call.m);
    FinishedInv(cfg, s, c, cfg.origin(call.m.host, call.m.uri));
  }

  lemma FailInv(cfg: Config, s: System, c: nat)
    requires Inv(cfg, s) && Can(cfg, s, Fails(c))
    ensures Inv(cfg, Apply(cfg, s, Fails(c)))
  {
  }

  lemma StepInv(cfg: Config, s: System, step: Step)
    requires Inv(cfg, s) && Sane(cfg) && Can(cfg, s, step)
    requires step.ClientSends? ==> Plain(step.m)
    ensures Inv(cfg, Apply(cfg, s, step))
  {
    match step
    case ClientSends(node, m) => ArrivedInv(cfg, s, node, m, m, 0);
    case Sends(c) => SendInv(cfg, s, c);
    case OriginAnswers(c) => OriginInv(cfg, s, c);
    case NodeAnswers(c) => AnswerInv(cfg, s, c);
    case Fails(c) => FailInv(cfg, s, c);
    case BreaksOff(c) =>
      assert CallOk(cfg, s, s.calls[c]);
      RefusedInv(cfg, s, c, BrokenBody(s.calls[c].node, cfg.nodes[s.calls[c].node].id, s.calls[c].m.host, s.calls[c].m.uri));
    case GivesUp(c) =>
      assert CallOk(cfg, s, s.calls[c]);
      RefusedInv(cfg, s, c, NoReachableUpstream(s.calls[c].node, cfg.nodes[s.calls[c].node].id, s.calls[c].m.host, s.calls[c].m.uri));
    case Crashes(c) =>
      assert CallOk(cfg, s, s.calls[c]);
      StateInv(cfg, s, c, Dead);
    case Evicts(node, key) => EvictInv(cfg, s, node, key);
  }

  lemma {:induction false} RunInv(cfg: Config, steps: seq<Step>)
    requires Sane(cfg) && PlainRun(steps) && After(cfg, steps).Some?
    ensures Inv(cfg, After(cfg, steps).value)
  {
    if steps != [] {
      var n := |steps| - 1;
      RunInv(cfg, steps[..n]);
      StepInv(cfg, After(cfg, steps[..n]).value, steps[n]);
    }
  }

  // ---------- the theorems ----------

  /** Every entry of every cache is the origin's response without hop fields, or a recorded error
      page, for the one resource that has this key. */
  lemma EveryEntryIsTheOrigins(cfg: Config, steps: seq<Step>, s: System, node: string, m: Message)
    requires Sane(cfg) && PlainRun(steps) && After(cfg, steps) == Some(s)
    requires Plain(m) && '/' !in m.host && node in s.caches && KeyText(m) in s.caches[node]
    ensures Cacheable(s.caches[node][KeyText(m)]) && Good(cfg, s.faults, s.caches[node][KeyText(m)], m.host, m.uri)
  {
    RunInv(cfg, steps);
    EntryIsGood(cfg, s.faults, m, s.caches[node][KeyText(m)]);
  }

  /** Every answer is the origin's, up to hop fields, unless somebody made an error page for the
      same resource; and it carries the node id of the node that was asked. */
  lemma EveryAnswerIsTheOrigins(cfg: Config, steps: seq<Step>, s: System, call: Call)
    requires Sane(cfg) && PlainRun(steps) && After(cfg, steps) == Some(s)
    requires call in s.calls && call.state.Answered?
    ensures var host, uri := cfg.removePort(call.client.host), call.client.uri;
            && Good(cfg, s.faults, call.state.reply, host, uri)
            && call.node in cfg.nodes && FromThisNode(call.state.reply, cfg.nodes[call.node].id)
            && ((forall f :: f in s.faults ==> f.host != host || f.uri != uri) ==>
                  Strip(call.state.reply) == Strip(cfg.origin(host, uri)))
  {
    RunInv(cfg, steps);
    assert CallOk(cfg, s, call);
  }

  /** When the nodes' tables agree, error pages for registered hosts come only from nodes that ran
      out of upstreams, or whose upstream's response broke off. */
  lemma {:induction false} OnlyUpstreamFaults(cfg: Config, steps: seq<Step>, s: System, f: Fault, a: string)
    requires Sane(cfg) && PlainRun(steps) && After(cfg, steps) == Some(s) && f in s.faults
    requires forall b, c :: b in cfg.nodes && c in cfg.nodes ==> cfg.nodes[b].origins.Keys == cfg.nodes[c].origins.Keys
    requires a in cfg.nodes && f.host in cfg.nodes[a].origins
    ensures f.NoReachableUpstream? || f.BrokenBody?
  {
    RunInv(cfg, steps);
    assert FaultOk(cfg, f);
    assert cfg.nodes[a].origins.Keys == cfg.nodes[f.node].origins.Keys;
  }

  /** Past the host check, the lookup of the origin never comes back empty. */
  lemma OriginIsAlwaysFound(cfg: Config, steps: seq<Step>, s: System, call: Call)
    requires Sane(cfg) && PlainRun(steps) && After(cfg, steps) == Some(s)
    requires call in s.calls && (call.state.Waiting? || call.state.Pending?)
    ensures call.node in cfg.nodes && call.m.host in cfg.nodes[call.node].origins
  {
    RunInv(cfg, steps);
    assert CallOk(cfg, s, call);
  }
}
