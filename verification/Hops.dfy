/** How far a request can travel: at most four hops, three if the peer lists agree, and without
    bound exactly when a client sends X-Shard with an empty first value. */
module Hops {
  import opened Wrappers
  import opened Rendezvous
  import opened Http
  import opened Routing
  import opened Cdn
  import opened Transparency

  // ---------- assumptions ----------

  /** Peers are of the node's own tier, shields are shields, and node ids are not empty. */
  ghost predicate Tiered(cfg: Config) {
    forall a :: a in cfg.nodes ==> TieredNode(cfg, cfg.nodes[a])
  }

  ghost predicate TieredNode(cfg: Config, n: NodeConfig) {
    && n.id != ""
    && (forall b :: b in n.peers && b.address in cfg.nodes ==> cfg.nodes[b.address].tier == n.tier)
    && (forall b :: b in n.shields && b.address in cfg.nodes ==> cfg.nodes[b.address].tier == Shield)
  }

  /** The mark is absent, or it is one that a receiver recognises. */
  predicate UsableMark(h: Fields) {
    XShard !in h || h[XShard][0] != ""
  }

  // ---------- four hops ----------

  /** The hops that a request at a node of this tier may still take, up to and including the origin. */
  function Rank(tier: Tier, marked: bool): nat {
    match tier
    case Edge => if marked then 3 else 4
    case Shield => if marked then 1 else 2
  }

  /** Every fetch of the list leads to a call of lower rank, and keeps the mark usable. */
  ghost predicate Descends(cfg: Config, todo: seq<Attempt>, rank: nat) {
    forall i :: 0 <= i < |todo| ==> Lower(cfg, todo[i], rank)
  }

  ghost predicate Lower(cfg: Config, a: Attempt, rank: nat) {
    a.ToNode? ==>
      && UsableMark(a.message.fields)
      && (a.backend.address in cfg.nodes ==> Rank(cfg.nodes[a.backend.address].tier, Marked(a.message)) < rank)
  }

  lemma OwnerIsListed(hash: Hash, key: string, bs: seq<Backend>)
    requires Owner(hash, key, bs).Some?
    ensures Owner(hash, key, bs).value in bs
  {
  }

  lemma UpstreamDescends(cfg: Config, n: NodeConfig, m: Message)
    requires TieredNode(cfg, n) && m.host in n.origins && UsableMark(m.fields)
    ensures Descends(cfg, UpstreamPlan(n, cfg.hash, m), 3)
  {
    if n.tier.Edge? && Owner(cfg.hash, KeyText(m), n.shields).Some? {
      OwnerIsListed(cfg.hash, KeyText(m), n.shields);
    }
  }

  lemma ShieldUpstreamEndsAtOrigin(cfg: Config, n: NodeConfig, m: Message, rank: nat)
    requires m.host in n.origins && n.tier.Shield?
    ensures Descends(cfg, UpstreamPlan(n, cfg.hash, m), rank)
  {
  }

  lemma UpstreamDescendsFrom(cfg: Config, n: NodeConfig, m: Message, rank: nat)
    requires TieredNode(cfg, n) && m.host in n.origins && UsableMark(m.fields)
    requires n.tier.Edge? ==> rank >= 3
    ensures Descends(cfg, UpstreamPlan(n, cfg.hash, m), rank)
  {
    if n.tier.Shield? {
      ShieldUpstreamEndsAtOrigin(cfg, n, m, rank);
    } else {
      UpstreamDescends(cfg, n, m);
      var todo := UpstreamPlan(n, cfg.hash, m);
      forall i | 0 <= i < |todo|
        ensures Lower(cfg, todo[i], rank)
      {
        assert Lower(cfg, todo[i], 3);
      }
    }
  }

  lemma MarkIsUsable(m: Message, id: string)
    requires id != "" && UsableMark(m.fields) && !Marked(m)
    ensures UsableMark(Mark(m, id).fields) && Marked(Mark(m, id))
  {
  }

  lemma PlanDescends(cfg: Config, n: NodeConfig, m: Message)
    requires TieredNode(cfg, n) && m.host in n.origins && UsableMark(m.fields)
    ensures Descends(cfg, Plan(n, cfg.hash, m), Rank(n.tier, Marked(m)))
  {
    var rank := Rank(n.tier, Marked(m));
    if Marked(m) {
      UpstreamDescendsFrom(cfg, n, Unmark(m), rank);
    } else {
      var peer := Owner(cfg.hash, KeyText(m), n.peers);
      if peer.Some? && peer.value.nodeId == n.id {
        UpstreamDescendsFrom(cfg, n, m, rank);
      } else if peer.Some? {
        OwnerIsListed(cfg.hash, KeyText(m), n.peers);
        MarkIsUsable(m, n.id);
        UpstreamDescendsFrom(cfg, n, Mark(m, n.id), rank);
      }
    }
  }

  ghost predicate WithinHops(cfg: Config, call: Call) {
    call.node in cfg.nodes &&
    (UsableMark(call.client.fields) ==>
      var rank := Rank(cfg.nodes[call.node].tier, Marked(call.m));
      UsableMark(call.m.fields) && call.depth + rank <= 4 && StateDescends(cfg, call.state, rank))
  }

  ghost predicate StateDescends(cfg: Config, st: CallState, rank: nat) {
    && (st.Waiting? ==> Descends(cfg, st.todo, rank))
    && (st.Pending? ==> Descends(cfg, st.rest, rank))
  }

  lemma NewCallWithinHops(cfg: Config, node: string, client: Message, m: Message, depth: nat, cache: map<string, Response>)
    requires Tiered(cfg) && node in cfg.nodes
    requires UsableMark(client.fields) ==>
      UsableMark(m.fields) && depth + Rank(cfg.nodes[node].tier, Marked(m)) <= 4
    ensures WithinHops(cfg, NewCall(cfg, node, client, m, depth, cache))
  {
    var n, m' := cfg.nodes[node], m.(host := cfg.removePort(m.host));
    if m'.host in n.origins && UsableMark(m.fields) {
      PlanDescends(cfg, n, m');
    }
  }

  lemma StateStaysDescending(cfg: Config, before: CallState, now: CallState, rank: nat)
    requires StateDescends(cfg, before, rank) && Follows(before, now)
    ensures StateDescends(cfg, now, rank)
  {
  }

  lemma SentWithinHops(cfg: Config, call: Call, child: Call, cache: map<string, Response>)
    requires Tiered(cfg) && WithinHops(cfg, call) && IsSent(cfg, call, child, cache)
    ensures WithinHops(cfg, child)
  {
    var next := call.state.todo[0];
    if UsableMark(call.client.fields) {
      assert Lower(cfg, next, Rank(cfg.nodes[call.node].tier, Marked(call.m)));
    }
    NewCallWithinHops(cfg, next.backend.address, call.client, next.message, call.depth + 1, cache);
  }

  lemma HopsAreInherited(cfg: Config)
    requires Tiered(cfg)
    ensures Inherited(cfg, call => WithinHops(cfg, call))
  {
    forall call, cache | IsRoot(cfg, call, cache)
      ensures WithinHops(cfg, call)
    {
      NewCallWithinHops(cfg, call.node, call.client, call.client, 0, cache);
    }
    forall call: Call, st | WithinHops(cfg, call) && Follows(call.state, st)
      ensures WithinHops(cfg, call.(state := st))
    {
      if UsableMark(call.client.fields) {
        StateStaysDescending(cfg, call.state, st, Rank(cfg.nodes[call.node].tier, Marked(call.m)));
      }
    }
    forall call, child, cache | WithinHops(cfg, call) && IsSent(cfg, call, child, cache)
      ensures WithinHops(cfg, child)
    {
      SentWithinHops(cfg, call, child, cache);
    }
  }

  /** For any peer lists, even disagreeing ones: no node is more than three hops from the node that
      the client contacted, so that the origin is at most the fourth. */
  lemma AtMostFourHops(cfg: Config, steps: seq<Step>, s: System, call: Call)
    requires Tiered(cfg) && After(cfg, steps) == Some(s) && call in s.calls && UsableMark(call.client.fields)
    ensures call.depth + 1 <= 4
  {
    HopsAreInherited(cfg);
    RunInherits(cfg, steps, call => WithinHops(cfg, call));
    assert WithinHops(cfg, call);
  }

  // ---------- three hops ----------

  /** Every listed node that exists goes by the id that the list gives it. */
  ghost predicate RightIds(cfg: Config, bs: seq<Backend>) {
    forall b :: b in bs && b.address in cfg.nodes ==> cfg.nodes[b.address].id == b.nodeId
  }

  /** Edges and shields use one list of shields. */
  ghost predicate Agreeing(cfg: Config, shields: seq<Backend>) {
    && RightIds(cfg, shields)
    && forall a :: a in cfg.nodes ==>
         if cfg.nodes[a].tier.Edge? then cfg.nodes[a].shields == shields else cfg.nodes[a].peers == shields
  }

  /** Edges use one list of edges. */
  ghost predicate EdgesAgree(cfg: Config) {
    forall a, b :: a in cfg.nodes && b in cfg.nodes && cfg.nodes[a].tier.Edge? && cfg.nodes[b].tier.Edge? ==>
      cfg.nodes[a].peers == cfg.nodes[b].peers && RightIds(cfg, cfg.nodes[a].peers)
  }

  /** An edge is not asked twice: its peers recognise the mark, or know that they own the key. */
  ghost predicate Settles(cfg: Config, h: Fields) {
    UsableMark(h) || EdgesAgree(cfg)
  }

  /** The node itself is the owner of the request's key. */
  predicate Owned(n: NodeConfig, hash: Hash, m: Message) {
    var owner := Owner(hash, KeyText(m), n.peers);
    owner.Some? && owner.value.nodeId == n.id
  }

  /** With agreeing lists, whoever owns the key goes straight to the next tier. */
  function AgreedRank(n: NodeConfig, hash: Hash, m: Message): nat {
    (if n.tier.Edge? then 2 else 1) + if Marked(m) || Owned(n, hash, m) then 0 else 1
  }

  /** A fetch leads to a call of lower rank; if to a shield, then to one that goes straight to the origin. */
  ghost predicate AgreedLower(cfg: Config, a: Attempt, rank: nat) {
    a.ToNode? ==>
      && rank > 1 && Settles(cfg, a.message.fields)
      && a.message.port == "" && cfg.removePort(a.message.host) == a.message.host
      && (a.backend.address in cfg.nodes ==>
            var n := cfg.nodes[a.backend.address];
            AgreedRank(n, cfg.hash, a.message) < rank && (n.tier.Shield? ==> AgreedRank(n, cfg.hash, a.message) == 1))
  }

  ghost predicate AgreedDescends(cfg: Config, todo: seq<Attempt>, rank: nat) {
    forall i :: 0 <= i < |todo| ==> AgreedLower(cfg, todo[i], rank)
  }

  /** The shield that a node picks owns the key in its own eyes too. */
  lemma ShieldOwnsWhatItIsSent(cfg: Config, shields: seq<Backend>, m: Message, b: Backend)
    requires Agreeing(cfg, shields) && b in shields && b.address in cfg.nodes && cfg.nodes[b.address].tier.Shield?
    requires Owner(cfg.hash, KeyText(m), shields) == Some(b)
    ensures AgreedRank(cfg.nodes[b.address], cfg.hash, m) == 1
  {
  }

  predicate Settled(cfg: Config, n: NodeConfig, m: Message) {
    m.host in n.origins && m.port == "" && cfg.removePort(m.host) == m.host
  }

  lemma AgreedUpstream(cfg: Config, shields: seq<Backend>, n: NodeConfig, m: Message, rank: nat)
    requires TieredNode(cfg, n) && Agreeing(cfg, shields) && n in cfg.nodes.Values
    requires Settled(cfg, n, m) && Settles(cfg, m.fields) && (n.tier.Edge? ==> rank >= 2)
    ensures AgreedDescends(cfg, UpstreamPlan(n, cfg.hash, m), rank)
  {
    var b := Owner(cfg.hash, KeyText(m), n.shields);
    if n.tier.Edge? && b.Some? {
      OwnerIsListed(cfg.hash, KeyText(m), n.shields);
      if b.value.address in cfg.nodes {
        ShieldOwnsWhatItIsSent(cfg, shields, m, b.value);
      }
      assert Fetched(m) == m;
    }
  }

  /** A peer that is asked for a key goes straight to the next tier. */
  lemma PeerIsSettled(cfg: Config, shields: seq<Backend>, n: NodeConfig, m: Message, b: Backend)
    requires TieredNode(cfg, n) && Agreeing(cfg, shields) && n in cfg.nodes.Values && Settles(cfg, m.fields) && !Marked(m)
    requires Owner(cfg.hash, KeyText(m), n.peers) == Some(b) && b in n.peers && b.address in cfg.nodes
    ensures Settles(cfg, Mark(m, n.id).fields)
    ensures AgreedRank(cfg.nodes[b.address], cfg.hash, Mark(m, n.id)) == if n.tier.Edge? then 2 else 1
  {
    var marked := Mark(m, n.id);
    assert KeyText(marked) == KeyText(m);
    if n.tier.Shield? {
      ShieldOwnsWhatItIsSent(cfg, shields, marked, b);
    }
    if UsableMark(m.fields) {
      MarkIsUsable(m, n.id);
    } else if n.tier.Edge? {
      assert Owned(cfg.nodes[b.address], cfg.hash, marked);
    }
  }

  lemma PeerlessIsSettled(cfg: Config, n: NodeConfig, m: Message)
    requires TieredNode(cfg, n) && Settles(cfg, m.fields) && !Marked(m)
    ensures Settles(cfg, Mark(m, n.id).fields)
  {
    if UsableMark(m.fields) {
      MarkIsUsable(m, n.id);
    }
  }

  lemma AgreedPlan(cfg: Config, shields: seq<Backend>, n: NodeConfig, m: Message)
    requires TieredNode(cfg, n) && Agreeing(cfg, shields) && n in cfg.nodes.Values
    requires Settled(cfg, n, m) && Settles(cfg, m.fields)
    ensures AgreedDescends(cfg, Plan(n, cfg.hash, m), AgreedRank(n, cfg.hash, m))
  {
    var rank := AgreedRank(n, cfg.hash, m);
    var b := Owner(cfg.hash, KeyText(m), n.peers);
    if Marked(m) {
      AgreedUpstream(cfg, shields, n, Unmark(m), rank);
    } else if Owned(n, cfg.hash, m) {
      AgreedUpstream(cfg, shields, n, m, rank);
    } else if b.Some? {
      OwnerIsListed(cfg.hash, KeyText(m), n.peers);
      PeerlessIsSettled(cfg, n, m);
      if b.value.address in cfg.nodes {
        PeerIsSettled(cfg, shields, n, m, b.value);
      }
      AgreedUpstream(cfg, shields, n, Mark(m, n.id), rank);
      assert Fetched(Mark(m, n.id)) == Mark(m, n.id);
    }
  }

  /** Of requests that settle: the rank and the depth make up at most three, and a shield that is
      asked by another node has nothing but the origin to ask. */
  ghost predicate WithinAgreedHops(cfg: Config, call: Call) {
    call.node in cfg.nodes &&
    (Settles(cfg, call.client.fields) && call.client.port == "" ==>
      var n := cfg.nodes[call.node];
      var rank := AgreedRank(n, cfg.hash, call.m);
      && call.depth + rank <= 3 && (n.tier.Shield? && call.depth > 0 ==> rank == 1)
      && StateAgrees(cfg, call.state, rank))
  }

  ghost predicate StateAgrees(cfg: Config, st: CallState, rank: nat) {
    && (st.Waiting? ==> AgreedDescends(cfg, st.todo, rank))
    && (st.Pending? ==> rank > 1 && AgreedDescends(cfg, st.rest, rank))
  }

  lemma NewCallWithinAgreedHops(cfg: Config, shields: seq<Backend>, node: string, client: Message, m: Message,
                                depth: nat, cache: map<string, Response>)
    requires Sane(cfg) && Tiered(cfg) && Agreeing(cfg, shields) && node in cfg.nodes
    requires Settles(cfg, client.fields) && client.port == "" ==>
      var rank := AgreedRank(cfg.nodes[node], cfg.hash, m.(host := cfg.removePort(m.host)));
      && Settles(cfg, m.fields) && m.port == ""
      && depth + rank <= 3 && (cfg.nodes[node].tier.Shield? && depth > 0 ==> rank == 1)
    ensures WithinAgreedHops(cfg, NewCall(cfg, node, client, m, depth, cache))
  {
    var n, m' := cfg.nodes[node], m.(host := cfg.removePort(m.host));
    if m'.host in n.origins && Settles(cfg, m.fields) && m.port == "" {
      AgreedPlan(cfg, shields, n, m');
    }
  }

  lemma StateStaysAgreeing(cfg: Config, before: CallState, now: CallState, rank: nat)
    requires StateAgrees(cfg, before, rank) && Follows(before, now)
    ensures StateAgrees(cfg, now, rank)
  {
  }

  lemma SentWithinAgreedHops(cfg: Config, shields: seq<Backend>, call: Call, child: Call, cache: map<string, Response>)
    requires Sane(cfg) && Tiered(cfg) && Agreeing(cfg, shields)
    requires WithinAgreedHops(cfg, call) && IsSent(cfg, call, child, cache)
    ensures WithinAgreedHops(cfg, child)
  {
    var next := call.state.todo[0];
    if Settles(cfg, call.client.fields) && call.client.port == "" {
      assert AgreedLower(cfg, next, AgreedRank(cfg.nodes[call.node], cfg.hash, call.m));
      assert next.message.(host := cfg.removePort(next.message.host)) == next.message;
    }
    NewCallWithinAgreedHops(cfg, shields, next.backend.address, call.client, next.message, call.depth + 1, cache);
  }

  lemma AgreedHopsAreInherited(cfg: Config, shields: seq<Backend>)
    requires Sane(cfg) && Tiered(cfg) && Agreeing(cfg, shields)
    ensures Inherited(cfg, call => WithinAgreedHops(cfg, call))
  {
    forall call, cache | IsRoot(cfg, call, cache)
      ensures WithinAgreedHops(cfg, call)
    {
      NewCallWithinAgreedHops(cfg, shields, call.node, call.client, call.client, 0, cache);
    }
    forall call: Call, st | WithinAgreedHops(cfg, call) && Follows(call.state, st)
      ensures WithinAgreedHops(cfg, call.(state := st))
    {
      if Settles(cfg, call.client.fields) && call.client.port == "" {
        StateStaysAgreeing(cfg, call.state, st, AgreedRank(cfg.nodes[call.node], cfg.hash, call.m));
      }
    }
    forall call, child, cache | WithinAgreedHops(cfg, call) && IsSent(cfg, call, child, cache)
      ensures WithinAgreedHops(cfg, child)
    {
      SentWithinAgreedHops(cfg, shields, call, child, cache);
    }
  }

  /** With agreeing lists of shields and equal keys at every hop, the origin is at most the third
      hop: for a usable mark, and for any header at all if the lists of edges agree too. */
  lemma AtMostThreeHops(cfg: Config, shields: seq<Backend>, steps: seq<Step>, s: System, call: Call)
    requires Sane(cfg) && Tiered(cfg) && Agreeing(cfg, shields)
    requires After(cfg, steps) == Some(s) && call in s.calls
    requires Settles(cfg, call.client.fields) && call.client.port == ""
    ensures call.depth + 1 <= 3
  {
    AgreedHopsAreInherited(cfg, shields);
    RunInherits(cfg, steps, call => WithinAgreedHops(cfg, call));
    assert WithinAgreedHops(cfg, call);
  }

  /** And no shield asks another shield on behalf of a node: whatever it still has to fetch, it
      fetches from the origin, and it is not waiting for a node. */
  lemma NoShieldAsksAnother(cfg: Config, shields: seq<Backend>, steps: seq<Step>, s: System, call: Call)
    requires Sane(cfg) && Tiered(cfg) && Agreeing(cfg, shields)
    requires After(cfg, steps) == Some(s) && call in s.calls
    requires Settles(cfg, call.client.fields) && call.client.port == ""
    requires call.depth >= 1 && call.node in cfg.nodes && cfg.nodes[call.node].tier.Shield?
    ensures !call.state.Pending?
    ensures call.state.Waiting? ==> forall a :: a in call.state.todo ==> !a.ToNode?
  {
    AgreedHopsAreInherited(cfg, shields);
    RunInherits(cfg, steps, call => WithinAgreedHops(cfg, call));
    assert WithinAgreedHops(cfg, call);
    if call.state.Waiting? {
      forall a | a in call.state.todo
        ensures !a.ToNode?
      {
        assert AgreedLower(cfg, a, 1);
      }
    }
  }

  // ---------- four hops do happen ----------

  /** Each node of this chain believes that the next one owns every key. */
  function Chain(): Config {
    var origins := map["h" := Backend("o", "O")];
    var toB, toS, toT := Backend("b", "B"), Backend("s", "S"), Backend("t", "T");
    Config(map["A" := NodeConfig("a", Edge, [toB], [], origins),
               "B" := NodeConfig("b", Edge, [toB], [toS], origins),
               "S" := NodeConfig("s", Shield, [toT], [], origins),
               "T" := NodeConfig("t", Shield, [toT], [], origins)],
           (_, _) => Response(200, map[], []), h => h, _ => 1)
  }

  const REQUEST: Message := Message("h", "", "/", map[])

  lemma ChainPlans()
    ensures var cfg := Chain();
            && Plan(cfg.nodes["A"], cfg.hash, REQUEST)[0] == ToNode(Backend("b", "B"), Mark(REQUEST, "a"))
            && Plan(cfg.nodes["B"], cfg.hash, Mark(REQUEST, "a"))[0] == ToNode(Backend("s", "S"), REQUEST)
            && Plan(cfg.nodes["S"], cfg.hash, REQUEST)[0] == ToNode(Backend("t", "T"), Mark(REQUEST, "s"))
            && Plan(cfg.nodes["T"], cfg.hash, Mark(REQUEST, "s")) == [ToOrigin(Backend("o", "O"), REQUEST)]
  {
  }

  /** The last of `c + 1` calls waits for `first` to be answered; no cache holds anything. */
  predicate Reached(cfg: Config, s: System, c: nat, first: Attempt) {
    && |s.calls| == c + 1 && s.calls[c].depth == c && s.calls[c].client == REQUEST
    && s.caches.Keys == cfg.nodes.Keys && (forall a :: a in s.caches ==> s.caches[a] == map[])
    && s.calls[c].state.Waiting? && s.calls[c].state.todo != [] && s.calls[c].state.todo[0] == first
  }

  lemma ChainHop(s: System, c: nat, here: Attempt, next: Attempt)
    requires Typed(Chain(), s) && Reached(Chain(), s, c, here) && here.ToNode? && here.backend.address in Chain().nodes
    requires here.message.host == "h" && "h" in Chain().nodes[here.backend.address].origins
    requires var plan := Plan(Chain().nodes[here.backend.address], Chain().hash, here.message);
             plan != [] && plan[0] == next
    ensures Can(Chain(), s, Sends(c)) && Reached(Chain(), Apply(Chain(), s, Sends(c)), c + 1, next)
  {
  }

  lemma ChainStart()
    ensures var s := Initial(Chain());
            Typed(Chain(), s) && Can(Chain(), s, ClientSends("A", REQUEST)) &&
            Reached(Chain(), Apply(Chain(), s, ClientSends("A", REQUEST)), 0, ToNode(Backend("b", "B"), Mark(REQUEST, "a")))
  {
    ChainPlans();
    assert REQUEST.(host := Chain().removePort(REQUEST.host)) == REQUEST;
  }

  lemma ChainIsTiered()
    ensures Tiered(Chain())
  {
  }

  predicate ChainReaches(steps: seq<Step>, c: nat, first: Attempt) {
    After(Chain(), steps).Some? && Reached(Chain(), After(Chain(), steps).value, c, first)
  }

  lemma ChainGoesOn(steps: seq<Step>, c: nat, here: Attempt, next: Attempt)
    requires ChainReaches(steps, c, here) && here.ToNode? && here.backend.address in Chain().nodes
    requires here.message.host == "h" && "h" in Chain().nodes[here.backend.address].origins
    requires var plan := Plan(Chain().nodes[here.backend.address], Chain().hash, here.message);
             plan != [] && plan[0] == next
    ensures ChainReaches(steps + [Sends(c)], c + 1, next)
  {
    ChainHop(After(Chain(), steps).value, c, here, next);
    OneMoreStep(Chain(), steps, Sends(c));
  }

  lemma ChainBegins() returns (steps: seq<Step>)
    ensures ChainReaches(steps, 0, TO_B)
  {
    ChainStart();
    OneMoreStep(Chain(), [], ClientSends("A", REQUEST));
    steps := [] + [ClientSends("A", REQUEST)];
  }

  const TO_B: Attempt := ToNode(Backend("b", "B"), Mark(REQUEST, "a"))
  const TO_S: Attempt := ToNode(Backend("s", "S"), REQUEST)
  const TO_T: Attempt := ToNode(Backend("t", "T"), Mark(REQUEST, "s"))
  const TO_ORIGIN: Attempt := ToOrigin(Backend("o", "O"), REQUEST)

  lemma FromB(steps: seq<Step>)
    requires ChainReaches(steps, 0, TO_B)
    ensures ChainReaches(steps + [Sends(0)], 1, TO_S)
  {
    ChainPlans();
    ChainGoesOn(steps, 0, TO_B, TO_S);
  }

  lemma FromS(steps: seq<Step>)
    requires ChainReaches(steps, 1, TO_S)
    ensures ChainReaches(steps + [Sends(1)], 2, TO_T)
  {
    ChainPlans();
    ChainGoesOn(steps, 1, TO_S, TO_T);
  }

  lemma FromT(steps: seq<Step>)
    requires ChainReaches(steps, 2, TO_T)
    ensures ChainReaches(steps + [Sends(2)], 3, TO_ORIGIN)
  {
    ChainPlans();
    ChainGoesOn(steps, 2, TO_T, TO_ORIGIN);
  }

  /** The bound is met: with lists that disagree, an unmarked request takes edge, edge, shield, shield, origin. */
  lemma FourHopsHappen() returns (steps: seq<Step>)
    ensures Tiered(Chain()) && ChainReaches(steps, 3, TO_ORIGIN) && UsableMark(REQUEST.fields)
  {
    ChainIsTiered();
    var begin := ChainBegins();
    FromB(begin);
    FromS(begin + [Sends(0)]);
    FromT(begin + [Sends(0)] + [Sends(1)]);
    steps := begin + [Sends(0)] + [Sends(1)] + [Sends(2)];
  }

  // ---------- without bound ----------

  /** Two edges that each take the other for the owner of every key. */
  function Mirror(): Config {
    var origins := map["h" := Backend("o", "O")];
    var a := NodeConfig("a", Edge, [Backend("b", "B")], [], origins);
    var b := NodeConfig("b", Edge, [Backend("a", "A")], [], origins);
    Config(map["A" := a, "B" := b], (_, _) => Response(200, map[], []), h => h, _ => 1)
  }

  function Here(n: nat): string {
    if n % 2 == 0 then "A" else "B"
  }

  /** After `n` hops, the request sits at the other edge again, and is about to be sent back. */
  predicate Bounced(s: System, n: nat, fields: Fields) {
    && |s.calls| == n + 1
    && s.caches == map["A" := map[], "B" := map[]]
    && s.calls[n].node == Here(n) && s.calls[n].depth == n && s.calls[n].client.fields == fields
    && s.calls[n].state.Waiting? && s.calls[n].state.todo != []
    && var next := s.calls[n].state.todo[0];
       next.ToNode? && next.backend.address == Here(n + 1) && next.message.host == "h" && !UsableMark(next.message.fields)
  }

  /** The state after one more arrival at the mirror. */
  lemma MirrorArrival(node: string, client: Message, m: Message, depth: nat, other: string)
    requires (node == "A" && other == "B") || (node == "B" && other == "A")
    requires m.host == "h" && !UsableMark(m.fields)
    ensures node in Mirror().nodes
    ensures var call := NewCall(Mirror(), node, client, m, depth, map[]);
            && call.node == node && call.depth == depth && call.client == client && call.state.Waiting? && call.state.todo != []
            && var next := call.state.todo[0];
               next.ToNode? && next.backend.address == other && next.message.host == "h" && !UsableMark(next.message.fields)
  {
  }

  lemma Bounce(s: System, n: nat, fields: Fields)
    requires Typed(Mirror(), s) && Bounced(s, n, fields)
    ensures Can(Mirror(), s, Sends(n)) && Bounced(Apply(Mirror(), s, Sends(n)), n + 1, fields)
  {
    var call := s.calls[n];
    var next := call.state.todo[0];
    assert Here(n + 1) in Mirror().nodes && Here(n + 2) == Here(n);
    MirrorArrival(Here(n + 1), call.client, next.message, call.depth + 1, Here(n));
  }

  lemma FirstBounce(step: Step, fields: Fields)
    requires step == ClientSends("A", Message("h", "", "/", fields)) && !UsableMark(fields)
    ensures Typed(Mirror(), Initial(Mirror())) && Can(Mirror(), Initial(Mirror()), step)
    ensures Bounced(Apply(Mirror(), Initial(Mirror()), step), 0, fields)
  {
    MirrorArrival("A", step.m, step.m, 0, "B");
    assert Initial(Mirror()).caches == map["A" := map[], "B" := map[]];
  }

  predicate BouncesTo(steps: seq<Step>, n: nat, fields: Fields) {
    After(Mirror(), steps).Some? && Bounced(After(Mirror(), steps).value, n, fields)
  }

  lemma BouncesOn(steps: seq<Step>, n: nat, fields: Fields)
    requires BouncesTo(steps, n, fields)
    ensures BouncesTo(steps + [Sends(n)], n + 1, fields)
  {
    Bounce(After(Mirror(), steps).value, n, fields);
    OneMoreStep(Mirror(), steps, Sends(n));
  }

  lemma BouncingBegins(fields: Fields) returns (steps: seq<Step>)
    requires !UsableMark(fields)
    ensures BouncesTo(steps, 0, fields)
  {
    var step := ClientSends("A", Message("h", "", "/", fields));
    FirstBounce(step, fields);
    OneMoreStep(Mirror(), [], step);
    steps := [] + [step];
  }

  lemma {:induction false} KeepsBouncing(n: nat, fields: Fields) returns (steps: seq<Step>)
    requires !UsableMark(fields)
    ensures BouncesTo(steps, n, fields)
  {
    if n == 0 {
      steps := BouncingBegins(fields);
    } else {
      var before := KeepsBouncing(n - 1, fields);
      BouncesOn(before, n - 1, fields);
      steps := before + [Sends(n - 1)];
    }
  }

  /** In a run of a network of tiers, no call of a client that sent these fields is further from the origin. */
  ghost predicate StaysWithin(cfg: Config, steps: seq<Step>, call: Call, bound: nat) {
    Tiered(cfg) && After(cfg, steps).Some? && call in After(cfg, steps).value.calls ==> call.depth + 1 <= bound
  }

  lemma MirrorIsTiered()
    ensures Tiered(Mirror())
  {
  }

  /** Four hops bound every run exactly for the clients whose mark is absent or recognisable; for
      all others there is no bound at all. */
  lemma BoundedIffMarkIsUsable(fields: Fields, bound: nat)
    ensures UsableMark(fields) ==>
      forall cfg, steps, call: Call :: call.client.fields == fields ==> StaysWithin(cfg, steps, call, 4)
    ensures !UsableMark(fields) ==>
      exists cfg, steps, call: Call :: call.client.fields == fields && !StaysWithin(cfg, steps, call, bound)
  {
    if UsableMark(fields) {
      forall cfg, steps, call: Call | call.client.fields == fields
        ensures StaysWithin(cfg, steps, call, 4)
      {
        if Tiered(cfg) && After(cfg, steps).Some? && call in After(cfg, steps).value.calls {
          AtMostFourHops(cfg, steps, After(cfg, steps).value, call);
        }
      }
    } else {
      var steps := KeepsBouncing(bound, fields);
      MirrorIsTiered();
      assert !StaysWithin(Mirror(), steps, After(Mirror(), steps).value.calls[bound], bound);
    }
  }
}
