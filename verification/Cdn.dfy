/** The cache network as a system of steps: requests move between edges, shields and origins
    while nodes become unreachable and entries are evicted. Every step is atomic at one node. */
module Cdn {
  import opened Wrappers
  import opened Rendezvous
  import opened Http
  import opened Routing
  import Popcache

  /** The nodes by address, and what the origins would answer to a host and a path. */
  datatype Config = Config(nodes: map<string, NodeConfig>, origin: (string, string) -> Response,
                           removePort: string -> string, hash: Hash)

  datatype CallState =
    | Waiting(todo: seq<Attempt>)               // the fetches that are left
    | Pending(child: nat, rest: seq<Attempt>)   // a fetch is on its way
    | Answered(reply: Response)
    | Dead                                      // the handler crashed

  /** One request at one node: `m` has the port cut off its host, `client` is what the client sent,
      `depth` counts the hops from the node that the client contacted. */
  datatype Call = Call(node: string, client: Message, m: Message, depth: nat, state: CallState)

  /** An error page was made by node `id`. */
  datatype Fault =
    | UnknownHost(node: string, id: string, host: string, uri: string)
    | NoReachableUpstream(node: string, id: string, host: string, uri: string)
    | BrokenBody(node: string, id: string, host: string, uri: string)

  datatype System = System(calls: seq<Call>, caches: map<string, map<string, Response>>, faults: set<Fault>)

  function Initial(cfg: Config): System {
    System([], map a | a in cfg.nodes :: map[], {})
  }

  // ---------- steps ----------

  datatype Step =
    | ClientSends(node: string, m: Message)
    | Sends(c: nat)                             // the next fetch reaches a node
    | OriginAnswers(c: nat)
    | NodeAnswers(c: nat)
    | Fails(c: nat)                             // the next fetch, or the one on its way, is lost
    | BreaksOff(c: nat)                         // the body of the response breaks off
    | GivesUp(c: nat)                           // no fetch is left
    | Crashes(c: nat)
    | Evicts(node: string, key: string)

  predicate HasNext(s: System, c: nat) {
    c < |s.calls| && s.calls[c].state.Waiting? && s.calls[c].state.todo != []
  }

  /** The well-typed part of a state: calls sit at known nodes, and every node has a cache. */
  predicate Typed(cfg: Config, s: System) {
    && s.caches.Keys == cfg.nodes.Keys
    && forall c :: 0 <= c < |s.calls| ==> s.calls[c].node in cfg.nodes
  }

  predicate IsAnswered(s: System, c: nat) {
    && c < |s.calls| && s.calls[c].state.Pending? && s.calls[c].state.child < |s.calls|
    && s.calls[s.calls[c].state.child].state.Answered?
  }

  predicate AtOrigin(s: System, c: nat) {
    HasNext(s, c) && s.calls[c].state.todo[0].ToOrigin?
  }

  predicate Can(cfg: Config, s: System, step: Step) {
    match step
    case ClientSends(node, _) => node in cfg.nodes
    case Sends(c) =>
      HasNext(s, c) && s.calls[c].state.todo[0].ToNode? && s.calls[c].state.todo[0].backend.address in cfg.nodes
    case OriginAnswers(c) => AtOrigin(s, c)
    case NodeAnswers(c) => IsAnswered(s, c)
    case BreaksOff(c) => AtOrigin(s, c) || IsAnswered(s, c)
    case Fails(c) =>
      (HasNext(s, c) && !s.calls[c].state.todo[0].Abort?) || (c < |s.calls| && s.calls[c].state.Pending?)
    case GivesUp(c) => c < |s.calls| && s.calls[c].state == Waiting([])
    case Crashes(c) => HasNext(s, c) && s.calls[c].state.todo[0].Abort?
    case Evicts(node, _) => node in cfg.nodes
  }

  function WithState(s: System, c: nat, st: CallState): System
    requires c < |s.calls|
  {
    s.(calls := s.calls[c := s.calls[c].(state := st)])
  }

  /** The state of a call that has just arrived. */
  function Arrival(n: NodeConfig, hash: Hash, m: Message, cache: map<string, Response>): CallState {
    if m.host !in n.origins then Answered(NotFoundPage(n.id))
    else if KeyText(m) in cache then Answered(Served(n.id, Hit(cache[KeyText(m)])))
    else Waiting(Plan(n, hash, m))
  }

  function NewCall(cfg: Config, node: string, client: Message, m: Message, depth: nat, cache: map<string, Response>): Call
    requires node in cfg.nodes
  {
    var m' := m.(host := cfg.removePort(m.host));
    Call(node, client, m', depth, Arrival(cfg.nodes[node], cfg.hash, m', cache))
  }

  /** A request arrives at a node: host check, cache lookup, choice of the chain. */
  function Arrived(cfg: Config, s: System, node: string, client: Message, m: Message, depth: nat): System
    requires node in cfg.nodes && node in s.caches
  {
    var n, call := cfg.nodes[node], NewCall(cfg, node, client, m, depth, s.caches[node]);
    s.(calls := s.calls + [call],
       faults := if call.m.host in n.origins then s.faults else s.faults + {UnknownHost(node, n.id, call.m.host, call.m.uri)})
  }

  /** A response has come in: it is stored, marked and served. */
  function Finished(cfg: Config, s: System, c: nat, resp: Response): System
    requires c < |s.calls| && s.calls[c].node in cfg.nodes && s.calls[c].node in s.caches
  {
    var node := s.calls[c].node;
    WithState(s, c, Answered(Served(cfg.nodes[node].id, Stored(resp))))
      .(caches := s.caches[node := s.caches[node][KeyText(s.calls[c].m) := Stored(resp)]])
  }

  /** An error page is served, nothing is stored, and the fault is recorded. */
  function Refused(cfg: Config, s: System, c: nat, f: Fault): System
    requires c < |s.calls| && s.calls[c].node in cfg.nodes
  {
    WithState(s, c, Answered(InternalErrorPage(cfg.nodes[s.calls[c].node].id))).(faults := s.faults + {f})
  }

  function Apply(cfg: Config, s: System, step: Step): System
    requires Typed(cfg, s) && Can(cfg, s, step)
  {
    match step
    case ClientSends(node, m) => Arrived(cfg, s, node, m, m, 0)
    case Sends(c) =>
      var call := s.calls[c];
      var next := call.state.todo[0];
      WithState(Arrived(cfg, s, next.backend.address, call.client, next.message, call.depth + 1),
                c, Pending(|s.calls|, call.state.todo[1..]))
    case OriginAnswers(c) =>
      var next := s.calls[c].state.todo[0];
      Finished(cfg, s, c, cfg.origin(next.message.host, next.message.uri))
    case NodeAnswers(c) => Finished(cfg, s, c, s.calls[s.calls[c].state.child].state.reply)
    case Fails(c) =>
      WithState(s, c, Waiting(if s.calls[c].state.Waiting? then s.calls[c].state.todo[1..] else s.calls[c].state.rest))
    case BreaksOff(c) =>
      var call := s.calls[c];
      Refused(cfg, s, c, BrokenBody(call.node, cfg.nodes[call.node].id, call.m.host, call.m.uri))
    case GivesUp(c) =>
      var call := s.calls[c];
      Refused(cfg, s, c, NoReachableUpstream(call.node, cfg.nodes[call.node].id, call.m.host, call.m.uri))
    case Crashes(c) => WithState(s, c, Dead)
    case Evicts(node, key) => s.(caches := s.caches[node := s.caches[node] - {key}])
  }

  lemma StepKeepsTypes(cfg: Config, s: System, step: Step)
    requires Typed(cfg, s) && Can(cfg, s, step)
    ensures Typed(cfg, Apply(cfg, s, step))
  {
  }

  /** The state after a run, None if some step was not possible. */
  function After(cfg: Config, steps: seq<Step>): (r: Option<System>)
    ensures r.Some? ==> Typed(cfg, r.value)
  {
    if steps == [] then Some(Initial(cfg))
    else
      var before := After(cfg, steps[..|steps| - 1]);
      var last := steps[|steps| - 1];
      if before.None? || !Can(cfg, before.value, last) then None
      else
        StepKeepsTypes(cfg, before.value, last);
        Some(Apply(cfg, before.value, last))
  }

  lemma OneMoreStep(cfg: Config, steps: seq<Step>, step: Step)
    requires After(cfg, steps).Some? && Can(cfg, After(cfg, steps).value, step)
    ensures After(cfg, steps + [step]) == Some(Apply(cfg, After(cfg, steps).value, step))
  {
  }

  // ---------- the steps are those of the server ----------

  /** An arrival that is answered at once is answered as the server answers it. */
  lemma ArrivalIsReply(cfg: Config, n: NodeConfig, m: Message, cache: map<string, Response>, o: Outcome)
    requires Arrival(n, cfg.hash, m, cache).Answered?
    ensures Popcache.Reply(n, m, o, cache, cache, Some(Arrival(n, cfg.hash, m, cache).reply))
  {
  }

  /** The fetches of a call that are lost and the one that is answered amount to a walk of its plan. */
  lemma {:induction false} FailuresAreAWalk(plan: seq<Attempt>, k: nat, net: Attempt -> Exchange)
    requires k <= |plan| && forall i :: 0 <= i < k ==> !plan[i].Abort? && net(plan[i]).Lost?
    ensures k == |plan| ==> Walk(plan, net) == NoUpstream
    ensures k < |plan| && plan[k].Abort? ==> Walk(plan, net) == Crashed
    ensures k < |plan| && !plan[k].Abort? && !net(plan[k]).Lost? ==> Walk(plan, net) == Received(net(plan[k]))
  {
    if k > 0 {
      FailuresAreAWalk(plan[1..], k - 1, net);
    }
  }

  /** Fetch `k` is the first of the plan that is not lost, and no crash comes before it. */
  predicate Decides(plan: seq<Attempt>, k: nat, net: Attempt -> Exchange) {
    && k < |plan| && !plan[k].Abort? && !net(plan[k]).Lost?
    && forall i :: 0 <= i < k ==> !plan[i].Abort? && net(plan[i]).Lost?
  }

  lemma {:induction false} FirstNotLost(plan: seq<Attempt>, net: Attempt -> Exchange) returns (k: nat)
    ensures k <= |plan| && forall i :: 0 <= i < k ==> !plan[i].Abort? && net(plan[i]).Lost?
    ensures k < |plan| ==> plan[k].Abort? || !net(plan[k]).Lost?
  {
    k := 0;
    if plan != [] && !plan[0].Abort? && net(plan[0]).Lost? {
      var rest := FirstNotLost(plan[1..], net);
      k := rest + 1;
      assert forall i :: 0 < i < |plan| ==> plan[i] == plan[1..][i - 1];
    }
  }

  lemma DecidedWalk(plan: seq<Attempt>, k: nat, net: Attempt -> Exchange)
    requires Decides(plan, k, net)
    ensures Walk(plan, net) == Received(net(plan[k]))
  {
    FailuresAreAWalk(plan, k, net);
  }

  /** A chain succeeds exactly if the first fetch that is not lost brings a whole response, and
      breaks off exactly if it brings a broken one; it is that response that the chain returns, and
      fetches after it do not count. It ends empty-handed exactly if every fetch is lost. */
  lemma {:induction false} FirstFetchDecides(plan: seq<Attempt>, net: Attempt -> Exchange)
    ensures forall resp :: Walk(plan, net) == Got(resp) <==> exists k: nat :: Decides(plan, k, net) && net(plan[k]) == Whole(resp)
    ensures forall resp :: Walk(plan, net) == Broken(resp) <==> exists k: nat :: Decides(plan, k, net) && net(plan[k]) == Cut(resp)
    ensures Walk(plan, net) == NoUpstream <==> forall i :: 0 <= i < |plan| ==> !plan[i].Abort? && net(plan[i]).Lost?
  {
    var first := FirstNotLost(plan, net);
    FailuresAreAWalk(plan, first, net);
    assert Walk(plan, net).Got? || Walk(plan, net).Broken? ==> Decides(plan, first, net);
    forall k: nat | Decides(plan, k, net)
      ensures Walk(plan, net) == Received(net(plan[k]))
    {
      DecidedWalk(plan, k, net);
    }
  }

  /** The server's answer to call `c`, whose lookup found nothing in `seen`, if its chain returns `o`:
      other calls may have changed the cache since. */
  ghost predicate RepliesAs(cfg: Config, s: System, s': System, c: nat, o: Outcome, seen: map<string, Response>)
    requires Typed(cfg, s) && Typed(cfg, s') && c < |s.calls| == |s'.calls|
  {
    var call := s.calls[c];
    var reaction := Popcache.React(cfg.nodes[call.node], call.m, o, seen);
    && Popcache.Updated(s'.caches[call.node], s.caches[call.node], KeyText(call.m), reaction.stored)
    && s'.calls[c].state == if reaction.response.Some? then Answered(reaction.response.value) else Dead
  }

  /** A response that comes in is stored and served as the server stores and serves it. */
  lemma FinishIsReply(cfg: Config, s: System, c: nat, resp: Response, seen: map<string, Response>)
    requires Typed(cfg, s) && c < |s.calls|
    requires s.calls[c].m.host in cfg.nodes[s.calls[c].node].origins && KeyText(s.calls[c].m) !in seen
    ensures Typed(cfg, Finished(cfg, s, c, resp)) && RepliesAs(cfg, s, Finished(cfg, s, c, resp), c, Got(resp), seen)
  {
    var was, now := s.caches[s.calls[c].node], Finished(cfg, s, c, resp).caches[s.calls[c].node];
    assert Popcache.GoneOnly(now.Keys, was.Keys, KeyText(s.calls[c].m));
  }

  /** So are the ends without a response: a broken body, no upstream left, a crash. */
  lemma FailureIsReply(cfg: Config, s: System, step: Step, c: nat, o: Outcome, seen: map<string, Response>)
    requires Typed(cfg, s) && Can(cfg, s, step) && c < |s.calls|
    requires s.calls[c].m.host in cfg.nodes[s.calls[c].node].origins && KeyText(s.calls[c].m) !in seen
    requires (step == BreaksOff(c) && o.Broken?) || (step == GivesUp(c) && o.NoUpstream?) || (step == Crashes(c) && o.Crashed?)
    ensures Typed(cfg, Apply(cfg, s, step)) && RepliesAs(cfg, s, Apply(cfg, s, step), c, o, seen)
  {
  }

  // ---------- properties of single calls ----------

  /** The states that one step can bring a call to. */
  predicate Follows(before: CallState, now: CallState) {
    match now
    case Waiting(todo) =>
      || (before.Waiting? && before.todo != [] && todo == before.todo[1..])
      || (before.Pending? && todo == before.rest)
    case Pending(_, rest) => before.Waiting? && before.todo != [] && before.todo[0].ToNode? && rest == before.todo[1..]
    case _ => true
  }

  /** `child` is what the next fetch of `call` becomes at the node that it reaches. */
  predicate IsSent(cfg: Config, call: Call, child: Call, cache: map<string, Response>) {
    && call.state.Waiting? && call.state.todo != []
    && var next := call.state.todo[0];
       && next.ToNode? && next.backend.address in cfg.nodes
       && child == NewCall(cfg, next.backend.address, call.client, next.message, call.depth + 1, cache)
  }

  predicate IsRoot(cfg: Config, call: Call, cache: map<string, Response>) {
    call.node in cfg.nodes && call == NewCall(cfg, call.node, call.client, call.client, 0, cache)
  }

  /** A property that the client's calls have, and that is passed on from state to state and from call to call. */
  ghost predicate Inherited(cfg: Config, p: Call -> bool) {
    && (forall call, cache :: IsRoot(cfg, call, cache) ==> p(call))
    && (forall call, st :: p(call) && Follows(call.state, st) ==> p(call.(state := st)))
    && (forall call, child, cache :: p(call) && IsSent(cfg, call, child, cache) ==> p(child))
  }

  ghost predicate All(s: System, p: Call -> bool) {
    forall c :: 0 <= c < |s.calls| ==> p(s.calls[c])
  }

  lemma SendChangesTwo(cfg: Config, s: System, c: nat)
    requires Typed(cfg, s) && Can(cfg, s, Sends(c))
    ensures var call := s.calls[c];
            var next := call.state.todo[0];
            var child := NewCall(cfg, next.backend.address, call.client, next.message, call.depth + 1, s.caches[next.backend.address]);
            IsSent(cfg, call, child, s.caches[next.backend.address]) &&
            Apply(cfg, s, Sends(c)).calls ==
              s.calls[c := call.(state := Pending(|s.calls|, call.state.todo[1..]))] + [child]
  {
  }

  lemma SendInherits(cfg: Config, s: System, c: nat, p: Call -> bool)
    requires Typed(cfg, s) && Can(cfg, s, Sends(c)) && Inherited(cfg, p) && All(s, p)
    ensures All(Apply(cfg, s, Sends(c)), p)
  {
    SendChangesTwo(cfg, s, c);
    assert Follows(s.calls[c].state, Pending(|s.calls|, s.calls[c].state.todo[1..]));
  }

  lemma ClientInherits(cfg: Config, s: System, node: string, m: Message, p: Call -> bool)
    requires Typed(cfg, s) && node in cfg.nodes && Inherited(cfg, p) && All(s, p)
    ensures All(Arrived(cfg, s, node, m, m, 0), p)
  {
    assert IsRoot(cfg, NewCall(cfg, node, m, m, 0, s.caches[node]), s.caches[node]);
  }

  lemma StepInherits(cfg: Config, s: System, step: Step, p: Call -> bool)
    requires Typed(cfg, s) && Can(cfg, s, step) && Inherited(cfg, p) && All(s, p)
    ensures All(Apply(cfg, s, step), p)
  {
    match step
    case ClientSends(node, m) => ClientInherits(cfg, s, node, m, p);
    case Sends(c) => SendInherits(cfg, s, c, p);
    case Evicts(_, _) =>
    case OriginAnswers(c) => Changed(cfg, s, step, c, p);
    case NodeAnswers(c) => Changed(cfg, s, step, c, p);
    case Fails(c) => Changed(cfg, s, step, c, p);
    case BreaksOff(c) => Changed(cfg, s, step, c, p);
    case GivesUp(c) => Changed(cfg, s, step, c, p);
    case Crashes(c) => Changed(cfg, s, step, c, p);
  }

  lemma Changed(cfg: Config, s: System, step: Step, c: nat, p: Call -> bool)
    requires Typed(cfg, s) && Can(cfg, s, step) && Inherited(cfg, p) && All(s, p)
    requires step == OriginAnswers(c) || step == NodeAnswers(c) || step == Fails(c) || step == BreaksOff(c)
          || step == GivesUp(c) || step == Crashes(c)
    ensures All(Apply(cfg, s, step), p)
  {
  }

  /** What is inherited holds of every call of every run. */
  lemma {:induction false} RunInherits(cfg: Config, steps: seq<Step>, p: Call -> bool)
    requires After(cfg, steps).Some? && Inherited(cfg, p)
    ensures All(After(cfg, steps).value, p)
  {
    if steps != [] {
      var n := |steps| - 1;
      RunInherits(cfg, steps[..n], p);
      StepInherits(cfg, After(cfg, steps[..n]).value, steps[n], p);
    }
  }
}
