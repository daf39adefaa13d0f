/** Where a cache node looks for a response it does not have: the handler chains of the edge and
    the shield, as the list of fetches they attempt in order. */
module Routing {
  import opened Wrappers
  import opened Rendezvous
  import opened Http

  /** A GET request as a node sees it. */
  datatype Message = Message(host: string, port: string, uri: string, fields: Fields)

  datatype Tier = Edge | Shield

  /** A node's own view of the network; views need not agree. A shield has no list of shields besides its peers. */
  datatype NodeConfig = NodeConfig(id: string, tier: Tier, peers: seq<Backend>, shields: seq<Backend>, origins: map<string, Backend>)

  /** One fetch. Abort stands for the crash of calling a selector that finds nobody. */
  datatype Attempt = ToNode(backend: Backend, message: Message) | ToOrigin(origin: Backend, message: Message) | Abort

  // ---------- keys ----------

  /** The text that is hashed for the cache and for rendezvous. */
  function KeyText(m: Message): string {
    m.host + m.port + m.uri
  }

  /** A request line has a path, and hosts and ports have no slash in them. */
  predicate WellFormed(m: Message) {
    m.uri != [] && m.uri[0] == '/' && '/' !in m.host && '/' !in m.port
  }

  lemma FirstSlash(a: string, u: string)
    requires '/' !in a && u != [] && u[0] == '/'
    ensures (a + u)[|a|] == '/' && forall i :: 0 <= i < |a| ==> (a + u)[i] != '/'
  {
  }

  lemma SplitAtSlash(a: string, u: string, b: string, v: string)
    requires '/' !in a && '/' !in b && u != [] && v != [] && u[0] == v[0] == '/'
    requires a + u == b + v
    ensures a == b && u == v
  {
    FirstSlash(a, u);
    FirstSlash(b, v);
    assert |a| == |b|;
    assert a == (a + u)[..|a|] && b == (b + v)[..|b|] && u == (a + u)[|a|..] && v == (b + v)[|b|..];
  }

  /** Two requests share a key exactly if they agree on the path, and on host and port run together. */
  lemma KeyIdentifiesResource(m: Message, n: Message)
    requires WellFormed(m) && WellFormed(n)
    ensures KeyText(m) == KeyText(n) <==> m.host + m.port == n.host + n.port && m.uri == n.uri
  {
    if KeyText(m) == KeyText(n) {
      SplitAtSlash(m.host + m.port, m.uri, n.host + n.port, n.uri);
    }
  }

  /** With ports in play, different hosts can share a key. */
  lemma PortsCanCollide() returns (m: Message, n: Message)
    ensures WellFormed(m) && WellFormed(n) && m.host != n.host && KeyText(m) == KeyText(n)
  {
    m, n := Message("a", "80", "/", map[]), Message("a8", "0", "/", map[]);
    assert "a" + "80" == "a8" + "0";
  }

  // ---------- the chains ----------

  /** What arrives at the other end of a fetch: the path alone is requested, so no port is left. */
  function Fetched(m: Message): Message {
    m.(port := "")
  }

  predicate Marked(m: Message) {
    Get(m.fields, XShard) != ""
  }

  function Unmark(m: Message): Message {
    m.(fields := Del(m.fields, XShard))
  }

  function Mark(m: Message, id: string): Message {
    m.(fields := Add(m.fields, XShard, id))
  }

  /** Forward to the registered origin; after it, no upstream is left. */
  function OriginPlan(n: NodeConfig, m: Message): seq<Attempt>
    requires m.host in n.origins
  {
    [ToOrigin(n.origins[m.host], Fetched(m))]
  }

  /** The next tier of a node: shields first for an edge, then the origin. */
  function UpstreamPlan(n: NodeConfig, hash: Hash, m: Message): seq<Attempt>
    requires m.host in n.origins
  {
    match n.tier
    case Shield => OriginPlan(n, m)
    case Edge =>
      var upstream := Owner(hash, KeyText(m), n.shields);
      if upstream.None? then [Abort] else [ToNode(upstream.value, Fetched(m))] + OriginPlan(n, m)
  }

  /** The whole chain: the owner among the node's peers first, unless a peer sent the request. */
  function Plan(n: NodeConfig, hash: Hash, m: Message): seq<Attempt>
    requires m.host in n.origins
  {
    if Marked(m) then UpstreamPlan(n, hash, Unmark(m))
    else
      var peer := Owner(hash, KeyText(m), n.peers);
      if peer.None? then [Abort]
      else if peer.value.nodeId == n.id then UpstreamPlan(n, hash, m)
      else [ToNode(peer.value, Fetched(Mark(m, n.id)))] + UpstreamPlan(n, hash, Mark(m, n.id))
  }

  /** What the network makes of a fetch: no response, a whole one, or one whose body breaks off. */
  datatype Exchange = Lost | Whole(response: Response) | Cut(response: Response)

  /** What a chain of handlers returns. A broken body is not noticed before it is read. */
  datatype Outcome = Got(response: Response) | Broken(response: Response) | NoUpstream | Crashed

  function Received(e: Exchange): Outcome {
    match e
    case Lost => NoUpstream
    case Whole(resp) => Got(resp)
    case Cut(resp) => Broken(resp)
  }

  /** Attempts one fetch after the other until one is answered. */
  function Walk(todo: seq<Attempt>, up: Attempt -> Exchange): Outcome {
    if todo == [] then NoUpstream
    else if todo[0].Abort? then Crashed
    else if up(todo[0]).Lost? then Walk(todo[1..], up)
    else Received(up(todo[0]))
  }

  // ---------- the fallback ----------

  /** A chain goes no further than fetch `e`. */
  predicate EndsWith(o: Outcome, e: Exchange) {
    (e.Whole? ==> o == Got(e.response)) && (e.Cut? ==> o == Broken(e.response)) && (e.Lost? ==> o == NoUpstream)
  }

  lemma OriginAnswers(n: NodeConfig, m: Message, up: Attempt -> Exchange)
    requires m.host in n.origins
    ensures EndsWith(Walk(OriginPlan(n, m), up), up(ToOrigin(n.origins[m.host], Message(m.host, "", m.uri, m.fields))))
  {
  }

  /** A node that asks no peer asks the shield that owns the key, if it is an edge, and the origin if
      that is lost. */
  lemma UpstreamAnswers(n: NodeConfig, hash: Hash, m: Message, up: Attempt -> Exchange)
    requires m.host in n.origins
    ensures var asked, shield := Message(m.host, "", m.uri, m.fields), Owner(hash, m.host + m.port + m.uri, n.shields);
            var o, origin := Walk(UpstreamPlan(n, hash, m), up), up(ToOrigin(n.origins[m.host], asked));
            && (n.tier.Shield? ==> EndsWith(o, origin))
            && (n.tier.Edge? && shield.None? ==> o == Crashed)
            && (n.tier.Edge? && shield.Some? ==>
                  EndsWith(o, if up(ToNode(shield.value, asked)).Lost? then origin else up(ToNode(shield.value, asked))))
  {
    OriginAnswers(n, m, up);
    if n.tier.Edge? && Owner(hash, KeyText(m), n.shields).Some? {
      assert UpstreamPlan(n, hash, m)[1..] == OriginPlan(n, m);
    }
  }

  /** A request that a peer has marked goes on without the mark, one for a key that the node owns as it
      came; neither is sent to a peer. */
  lemma NoPeerIsAsked(n: NodeConfig, hash: Hash, m: Message, up: Attempt -> Exchange, asked: Message)
    requires m.host in n.origins
    requires
      || (XShard in m.fields && m.fields[XShard][0] != "" && asked == Message(m.host, "", m.uri, m.fields - {XShard}))
      || ((XShard in m.fields ==> m.fields[XShard][0] == "") && asked == Message(m.host, "", m.uri, m.fields)
          && exists peer :: Owner(hash, m.host + m.port + m.uri, n.peers) == Some(peer) && peer.nodeId == n.id)
    ensures var shield := Owner(hash, m.host + m.port + m.uri, n.shields);
            var o, origin := Walk(Plan(n, hash, m), up), up(ToOrigin(n.origins[m.host], asked));
            && (n.tier.Shield? ==> EndsWith(o, origin))
            && (n.tier.Edge? && shield.None? ==> o == Crashed)
            && (n.tier.Edge? && shield.Some? ==>
                  EndsWith(o, if up(ToNode(shield.value, asked)).Lost? then origin else up(ToNode(shield.value, asked))))
  {
    UpstreamAnswers(n, hash, if Marked(m) then Unmark(m) else m, up);
  }

  /** Otherwise the peer that owns the key is asked first, with the node's mark. If that is lost, the
      next tier is asked instead, with the mark still set. */
  lemma LostPeerIsReplaced(n: NodeConfig, hash: Hash, m: Message, up: Attempt -> Exchange, peer: Backend, asked: Message)
    requires m.host in n.origins && (XShard !in m.fields || m.fields[XShard][0] == "")
    requires Owner(hash, m.host + m.port + m.uri, n.peers) == Some(peer) && peer.nodeId != n.id
    requires asked == Message(m.host, "", m.uri, m.fields[XShard := Values(m.fields, XShard) + [n.id]])
    ensures var shield, first := Owner(hash, m.host + m.port + m.uri, n.shields), up(ToNode(peer, asked));
            var o, origin := Walk(Plan(n, hash, m), up), up(ToOrigin(n.origins[m.host], asked));
            && (!first.Lost? ==> EndsWith(o, first))
            && (first.Lost? && n.tier.Shield? ==> EndsWith(o, origin))
            && (first.Lost? && n.tier.Edge? && shield.None? ==> o == Crashed)
            && (first.Lost? && n.tier.Edge? && shield.Some? ==>
                  EndsWith(o, if up(ToNode(shield.value, asked)).Lost? then origin else up(ToNode(shield.value, asked))))
  {
    UpstreamAnswers(n, hash, Mark(m, n.id), up);
    assert Plan(n, hash, m)[1..] == UpstreamPlan(n, hash, Mark(m, n.id));
  }

  /** If nobody owns the key among the peers, an unmarked request crashes the handler. */
  lemma NobodyToAsk(n: NodeConfig, hash: Hash, m: Message, up: Attempt -> Exchange)
    requires m.host in n.origins && (XShard !in m.fields || m.fields[XShard][0] == "")
    requires Owner(hash, m.host + m.port + m.uri, n.peers).None?
    ensures Walk(Plan(n, hash, m), up) == Crashed
  {
  }

  /** The origin is the last resort of every chain: if it answers, no body breaks off and every
      selector that is called finds somebody, the chain succeeds, whichever other fetches are lost. */
  lemma OriginIsTheLastResort(n: NodeConfig, hash: Hash, m: Message, up: Attempt -> Exchange)
    requires m.host in n.origins
    requires forall asked :: up(ToOrigin(n.origins[m.host], asked)).Whole?
    requires forall a :: !up(a).Cut?
    requires (XShard in m.fields && m.fields[XShard][0] != "") || Owner(hash, m.host + m.port + m.uri, n.peers).Some?
    requires n.tier.Edge? ==> Owner(hash, m.host + m.port + m.uri, n.shields).Some?
    ensures Walk(Plan(n, hash, m), up).Got?
  {
    var peer := Owner(hash, KeyText(m), n.peers);
    if Marked(m) || peer.value.nodeId == n.id {
      NoPeerIsAsked(n, hash, m, up, if Marked(m) then Fetched(Unmark(m)) else Fetched(m));
    } else {
      LostPeerIsReplaced(n, hash, m, up, peer.value, Fetched(Mark(m, n.id)));
    }
  }
}
