/** Error pages in the cache network: where each of them comes from, that a single one spoils what
    clients see, and that caches keep them after the outage is over. */
module Faults {
  import opened Words
  import opened Wrappers
  import opened Rendezvous
  import opened Http
  import opened Routing
  import opened Cdn
  import opened Transparency

  // ---------- every fault is on record ----------

  /** How many fetches of call `c` were lost. */
  function Losses(steps: seq<Step>, c: nat): nat {
    if steps == [] then 0
    else Losses(steps[..|steps| - 1], c) + if steps[|steps| - 1] == Fails(c) then 1 else 0
  }

  /** Every fetch of a call's plan has been lost, is on its way or is still to come. */
  predicate Balanced(cfg: Config, call: Call, losses: nat)
    requires call.node in cfg.nodes
  {
    var n := cfg.nodes[call.node];
    match call.state
    case Waiting(todo) => call.m.host in n.origins && losses + |todo| == |Plan(n, cfg.hash, call.m)|
    case Pending(_, rest) => call.m.host in n.origins && losses + 1 + |rest| == |Plan(n, cfg.hash, call.m)|
    case _ => true
  }

  /** Call `c` made the page of fault `f`: for want of an upstream after it had lost its whole plan,
      for a broken body before. */
  predicate MadeBy(cfg: Config, steps: seq<Step>, s: System, f: Fault, c: nat) {
    c < |s.calls| && f.node in cfg.nodes &&
    var call, n := s.calls[c], cfg.nodes[f.node];
    && call.node == f.node && call.m.host == f.host && call.m.uri == f.uri && f.id == n.id
    && call.state == Answered(PageOf(f))
    && (f.UnknownHost? ==> f.host !in n.origins)
    && (f.NoReachableUpstream? ==> f.host in n.origins && Losses(steps, c) == |Plan(n, cfg.hash, call.m)|)
    && (f.BrokenBody? ==> f.host in n.origins && Losses(steps, c) < |Plan(n, cfg.hash, call.m)|)
  }

  ghost predicate Recorded(cfg: Config, steps: seq<Step>, s: System)
    requires Typed(cfg, s)
  {
    && (forall c :: |s.calls| <= c ==> Losses(steps, c) == 0)
    && (forall c :: 0 <= c < |s.calls| ==> Balanced(cfg, s.calls[c], Losses(steps, c)))
    && (forall f :: f in s.faults ==> exists c :: MadeBy(cfg, steps, s, f, c))
  }

  lemma LossesStep(steps: seq<Step>, step: Step, c: nat)
    ensures Losses(steps + [step], c) == Losses(steps, c) + if step == Fails(c) then 1 else 0
  {
    assert (steps + [step])[..|steps|] == steps;
  }

  /** What one step does to a call that was there before. */
  lemma CallStep(cfg: Config, s: System, step: Step, c: nat)
    requires Typed(cfg, s) && Can(cfg, s, step) && c < |s.calls|
    ensures var s' := Apply(cfg, s, step);
            && c < |s'.calls| && s'.calls[c] == s.calls[c].(state := s'.calls[c].state)
            && (s.calls[c].state.Answered? ==> s'.calls[c] == s.calls[c] && step != Fails(c))
  {
  }

  lemma BalancedStep(cfg: Config, s: System, step: Step, c: nat, losses: nat)
    requires Typed(cfg, s) && Can(cfg, s, step) && c < |s.calls| && Balanced(cfg, s.calls[c], losses)
    ensures Typed(cfg, Apply(cfg, s, step)) && c < |Apply(cfg, s, step).calls|
    ensures Balanced(cfg, Apply(cfg, s, step).calls[c], losses + if step == Fails(c) then 1 else 0)
  {
    StepKeepsTypes(cfg, s, step);
  }

  lemma NewCallIsBalanced(cfg: Config, s: System, step: Step, c: nat)
    requires Typed(cfg, s) && Can(cfg, s, step) && |s.calls| <= c < |Apply(cfg, s, step).calls|
    ensures Typed(cfg, Apply(cfg, s, step)) && Balanced(cfg, Apply(cfg, s, step).calls[c], 0)
  {
    StepKeepsTypes(cfg, s, step);
  }

  /** An arrival that records a fault has just made the page for it. */
  lemma ArrivalMakesPage(cfg: Config, steps: seq<Step>, s: System, node: string, client: Message, m: Message, depth: nat, f: Fault)
    requires Typed(cfg, s) && node in cfg.nodes
    requires f in Arrived(cfg, s, node, client, m, depth).faults && f !in s.faults
    ensures MadeBy(cfg, steps, Arrived(cfg, s, node, client, m, depth), f, |s.calls|)
  {
  }

  /** So has a call that ends without a response. */
  lemma RefusalMakesPage(cfg: Config, steps: seq<Step>, s: System, c: nat, f: Fault)
    requires Typed(cfg, s) && c < |s.calls| && Balanced(cfg, s.calls[c], Losses(steps, c))
    requires var call := s.calls[c]; var id := cfg.nodes[call.node].id;
             || (f == NoReachableUpstream(call.node, id, call.m.host, call.m.uri) && call.state == Waiting([]))
             || (f == BrokenBody(call.node, id, call.m.host, call.m.uri)
                 && (call.state.Pending? || (call.state.Waiting? && call.state.todo != [])))
    ensures MadeBy(cfg, steps, Refused(cfg, s, c, f), f, c)
  {
  }

  /** A step that records a fault has just made the page for it. */
  lemma NewFaultIsMade(cfg: Config, steps: seq<Step>, s: System, step: Step, f: Fault) returns (c: nat)
    requires Typed(cfg, s) && Can(cfg, s, step) && Recorded(cfg, steps, s)
    requires f in Apply(cfg, s, step).faults && f !in s.faults
    ensures MadeBy(cfg, steps + [step], Apply(cfg, s, step), f, c)
  {
    match step
    case ClientSends(node, m) =>
      c := |s.calls|;
      ArrivalMakesPage(cfg, steps + [step], s, node, m, m, 0, f);
    case Sends(d) =>
      c := |s.calls|;
      var call := s.calls[d];
      var next := call.state.todo[0];
      ArrivalMakesPage(cfg, steps + [step], s, next.backend.address, call.client, next.message, call.depth + 1, f);
    case BreaksOff(d) =>
      c := d;
      LossesStep(steps, step, c);
      RefusalMakesPage(cfg, steps + [step], s, c, f);
    case GivesUp(d) =>
      c := d;
      LossesStep(steps, step, c);
      RefusalMakesPage(cfg, steps + [step], s, c, f);
  }

  lemma OldFaultStaysMade(cfg: Config, steps: seq<Step>, s: System, step: Step, f: Fault, c: nat)
    requires Typed(cfg, s) && Can(cfg, s, step) && MadeBy(cfg, steps, s, f, c)
    ensures MadeBy(cfg, steps + [step], Apply(cfg, s, step), f, c)
  {
    CallStep(cfg, s, step, c);
    LossesStep(steps, step, c);
  }

  lemma StepRecords(cfg: Config, steps: seq<Step>, s: System, step: Step)
    requires Typed(cfg, s) && Can(cfg, s, step) && Recorded(cfg, steps, s)
    ensures Typed(cfg, Apply(cfg, s, step)) && Recorded(cfg, steps + [step], Apply(cfg, s, step))
  {
    StepKeepsTypes(cfg, s, step);
    var s', now := Apply(cfg, s, step), steps + [step];
    CallsOnlyGrow(cfg, s, step);
    forall c: nat | |s'.calls| <= c
      ensures Losses(now, c) == 0
    {
      LossesStep(steps, step, c);
    }
    forall c: nat | c < |s'.calls|
      ensures Balanced(cfg, s'.calls[c], Losses(now, c))
    {
      LossesStep(steps, step, c);
      if c < |s.calls| {
        BalancedStep(cfg, s, step, c, Losses(steps, c));
      } else {
        NewCallIsBalanced(cfg, s, step, c);
      }
    }
    forall f | f in s'.faults
      ensures exists c :: MadeBy(cfg, now, s', f, c)
    {
      if f in s.faults {
        var c :| MadeBy(cfg, steps, s, f, c);
        OldFaultStaysMade(cfg, steps, s, step, f, c);
      } else {
        var c := NewFaultIsMade(cfg, steps, s, step, f);
      }
    }
  }

  lemma CallsOnlyGrow(cfg: Config, s: System, step: Step)
    requires Typed(cfg, s) && Can(cfg, s, step)
    ensures |s.calls| <= |Apply(cfg, s, step).calls|
    ensures forall c :: |s.calls| <= c ==> step != Fails(c)
  {
  }

  /** The state of a run comes from the state before by the last step. */
  lemma LastStep(cfg: Config, steps: seq<Step>) returns (before: seq<Step>, last: Step)
    requires steps != [] && After(cfg, steps).Some?
    ensures steps == before + [last] && |before| == |steps| - 1 && After(cfg, before).Some?
    ensures Can(cfg, After(cfg, before).value, last)
    ensures After(cfg, steps) == Some(Apply(cfg, After(cfg, before).value, last))
  {
    before, last := steps[..|steps| - 1], steps[|steps| - 1];
  }

  lemma {:induction false} RunRecords(cfg: Config, steps: seq<Step>, s: System)
    requires After(cfg, steps) == Some(s)
    ensures Recorded(cfg, steps, s)
    decreases |steps|
  {
    if steps != [] {
      var before, last := LastStep(cfg, steps);
      var was := After(cfg, before).value;
      RunRecords(cfg, before, was);
      StepRecords(cfg, before, was, last);
    }
  }

  /** Every recorded fault has its call, answered with the page. */
  lemma EveryFaultWasMade(cfg: Config, steps: seq<Step>, s: System, f: Fault) returns (c: nat)
    requires After(cfg, steps) == Some(s) && f in s.faults
    ensures MadeBy(cfg, steps, s, f, c)
  {
    RunRecords(cfg, steps, s);
    c := Maker(cfg, steps, s, f);
  }

  lemma Maker(cfg: Config, steps: seq<Step>, s: System, f: Fault) returns (c: nat)
    requires Typed(cfg, s) && Recorded(cfg, steps, s) && f in s.faults
    ensures MadeBy(cfg, steps, s, f, c)
  {
    c :| MadeBy(cfg, steps, s, f, c);
  }

  /** A page for a registered host was made with fetches left exactly if the body of a response broke off. */
  lemma FetchesWereLeftIffBodyBroke(cfg: Config, steps: seq<Step>, s: System, f: Fault, c: nat)
    requires MadeBy(cfg, steps, s, f, c) && f.host in cfg.nodes[f.node].origins
    ensures f.BrokenBody? <==> Losses(steps, c) < |Plan(cfg.nodes[f.node], cfg.hash, s.calls[c].m)|
  {
  }

  // ---------- one fault is enough ----------

  /** All answers so far to requests for this resource are the origin's, up to hop fields. */
  ghost predicate AnswersMatch(cfg: Config, s: System, host: string, uri: string) {
    forall call :: call in s.calls && call.state.Answered? && cfg.removePort(call.client.host) == host && call.client.uri == uri
      ==> Strip(call.state.reply) == Strip(cfg.origin(host, uri))
  }

  /** The origin's response for this resource is not one of the error pages. */
  predicate NoErrorPage(cfg: Config, host: string, uri: string) {
    Strip(cfg.origin(host, uri)) != Strip(NotFoundPage("")) && Strip(cfg.origin(host, uri)) != Strip(InternalErrorPage(""))
  }

  lemma SetAndStrip(h: Fields, n: Name, v: string)
    requires n !in HOP_FIELDS
    ensures Set(h, n, v) - HOP_FIELDS == Set(h - HOP_FIELDS, n, v)
  {
  }

  /** Without its hop fields, an error page does not show who made it. */
  lemma PageLooksLike(id: string, status: nat, text: seq<Byte>)
    ensures Strip(ErrorPage(id, status, text)) == Strip(ErrorPage("", status, text))
  {
    PageFields(id, status, text);
    PageFields("", status, text);
  }

  lemma PageFields(id: string, status: nat, text: seq<Byte>)
    ensures var nothing: Fields := map[];
            Strip(ErrorPage(id, status, text)).fields ==
              Set(Set(nothing, ContentType, "text/plain; charset=utf-8"), Other("X-Content-Type-Options"), "nosniff")
  {
    var node: Fields := map[PopCacheNodeId := [id]];
    assert node - HOP_FIELDS == map[];
    SetAndStrip(node, ContentType, "text/plain; charset=utf-8");
    SetAndStrip(Set(node, ContentType, "text/plain; charset=utf-8"), Other("X-Content-Type-Options"), "nosniff");
  }

  lemma PagesLookAlike(id: string)
    ensures Strip(NotFoundPage(id)) == Strip(NotFoundPage("")) && Strip(InternalErrorPage(id)) == Strip(InternalErrorPage(""))
  {
    PageLooksLike(id, 404, UNKNOWN_HOST);
    PageLooksLike(id, 500, INTERNAL_SERVER_ERROR);
  }

  /** Transparency, exactly: the answers for a resource are the origin's if and only if no node has
      made an error page for it. */
  lemma AnswersMatchIffNoFault(cfg: Config, steps: seq<Step>, s: System, host: string, uri: string)
    requires Sane(cfg) && PlainRun(steps) && After(cfg, steps) == Some(s) && NoErrorPage(cfg, host, uri)
    ensures AnswersMatch(cfg, s, host, uri) <==> forall f :: f in s.faults ==> f.host != host || f.uri != uri
  {
    RunInv(cfg, steps);
    if f :| f in s.faults && f.host == host && f.uri == uri {
      var c := EveryFaultWasMade(cfg, steps, s, f);
      PagesLookAlike(f.id);
      assert CallOk(cfg, s, s.calls[c]);
      assert s.calls[c] in s.calls;
    } else {
      forall call | call in s.calls && call.state.Answered? && cfg.removePort(call.client.host) == host && call.client.uri == uri
        ensures Strip(call.state.reply) == Strip(cfg.origin(host, uri))
      {
        EveryAnswerIsTheOrigins(cfg, steps, s, call);
      }
    }
  }

  // ---------- caches keep error pages ----------

  /** Call `c` was answered with a copy of the internal error page, marked as a cache hit. */
  predicate HitOnErrorPage(s: System, c: nat) {
    && c < |s.calls| && s.calls[c].state.Answered?
    && Strip(s.calls[c].state.reply) == Strip(InternalErrorPage(""))
    && Values(s.calls[c].state.reply.fields, XCache) == ["HIT"]
  }

  lemma StoredPage(id: string, from: string)
    ensures var hit := Served(id, Hit(Stored(InternalErrorPage(from))));
            Strip(hit) == Strip(InternalErrorPage("")) && Values(hit.fields, XCache) == ["HIT"]
  {
    var o := Stored(InternalErrorPage(from));
    StoredIsCacheable(InternalErrorPage(from));
    HitDiffersOnlyInXCache(o);
    ServedIsClean(id, Hit(o));
    ServedFields(id, Hit(o));
    PagesLookAlike(from);
  }

  lemma PageIsStored(cfg: Config, s: System, p: nat, page: Response)
    requires Typed(cfg, s) && Can(cfg, s, NodeAnswers(p)) && s.calls[s.calls[p].state.child].state.reply == page
    ensures var s', call := Apply(cfg, s, NodeAnswers(p)), s.calls[p];
            && Typed(cfg, s') && |s'.calls| == |s.calls| && KeyText(call.m) in s'.caches[call.node]
            && s'.caches[call.node][KeyText(call.m)] == Stored(page)
  {
    StepKeepsTypes(cfg, s, NodeAnswers(p));
  }

  lemma StoredIsServed(cfg: Config, s: System, node: string, m: Message, o: Response)
    requires Typed(cfg, s) && node in cfg.nodes
    requires var m' := m.(host := cfg.removePort(m.host));
             m'.host in cfg.nodes[node].origins && KeyText(m') in s.caches[node] && s.caches[node][KeyText(m')] == o
    ensures var s' := Apply(cfg, s, ClientSends(node, m));
            |s'.calls| == |s.calls| + 1 && s'.calls[|s.calls|].state == Answered(Served(cfg.nodes[node].id, Hit(o)))
  {
  }

  /** A node that fetched an error page serves it as a hit to whoever asks for the same key next. */
  lemma PageIsServedAgain(cfg: Config, s: System, p: nat, from: string, m: Message)
    requires Typed(cfg, s) && Can(cfg, s, NodeAnswers(p))
    requires s.calls[s.calls[p].state.child].state.reply == InternalErrorPage(from)
    requires var m', call := m.(host := cfg.removePort(m.host)), s.calls[p];
             m'.host in cfg.nodes[call.node].origins && KeyText(m') == KeyText(call.m)
    ensures var s' := Apply(cfg, s, NodeAnswers(p));
            && Typed(cfg, s') && Can(cfg, s', ClientSends(s.calls[p].node, m))
            && HitOnErrorPage(Apply(cfg, s', ClientSends(s.calls[p].node, m)), |s.calls|)
  {
    var node := s.calls[p].node;
    PageIsStored(cfg, s, p, InternalErrorPage(from));
    StoredIsServed(cfg, Apply(cfg, s, NodeAnswers(p)), node, m, Stored(InternalErrorPage(from)));
    StoredPage(cfg.nodes[node].id, from);
  }

  /** One edge and one shield, in front of any origin. */
  function Pair(origin: (string, string) -> Response): Config {
    var origins := map["h" := Backend("o", "O")];
    var a, b := Backend("a", "A"), Backend("s", "S");
    Config(map["A" := NodeConfig("a", Edge, [a], [b], origins), "S" := NodeConfig("s", Shield, [b], [], origins)],
           origin, h => h, _ => 1)
  }

  const GET: Message := Message("h", "", "/", map[])
  const TO_SHIELD: Attempt := ToNode(Backend("s", "S"), GET)
  const TO_ORIGIN: Attempt := ToOrigin(Backend("o", "O"), GET)

  lemma PairPlans(origin: (string, string) -> Response)
    ensures var cfg := Pair(origin);
            && Plan(cfg.nodes["A"], cfg.hash, GET) == [TO_SHIELD, TO_ORIGIN]
            && Plan(cfg.nodes["S"], cfg.hash, GET) == [TO_ORIGIN]
  {
    var cfg, key := Pair(origin), KeyText(GET);
    assert [Backend("a", "A")][..0] == [] && [Backend("s", "S")][..0] == [];
    assert Owner(cfg.hash, key, [Backend("a", "A")]) == Some(Backend("a", "A"));
    assert Owner(cfg.hash, key, [Backend("s", "S")]) == Some(Backend("s", "S"));
  }

  predicate Empty(s: System) {
    s.caches == map["A" := map[], "S" := map[]]
  }

  predicate AtEdge(s: System) {
    Empty(s) && |s.calls| == 1 && s.calls[0] == Call("A", GET, GET, 0, Waiting([TO_SHIELD, TO_ORIGIN]))
  }

  /** The edge waits for the shield, which is in state `st`. */
  predicate AtShield(s: System, st: CallState) {
    Empty(s) && s.calls == [Call("A", GET, GET, 0, Pending(1, [TO_ORIGIN])), Call("S", GET, GET, 1, st)]
  }

  lemma PairStarts(origin: (string, string) -> Response)
    ensures var cfg := Pair(origin);
            Typed(cfg, Initial(cfg)) && Can(cfg, Initial(cfg), ClientSends("A", GET))
            && AtEdge(Apply(cfg, Initial(cfg), ClientSends("A", GET)))
  {
    PairPlans(origin);
    assert GET.(host := "h") == GET;
  }

  lemma PairSends(origin: (string, string) -> Response, s: System)
    requires Typed(Pair(origin), s) && AtEdge(s)
    ensures Can(Pair(origin), s, Sends(0)) && AtShield(Apply(Pair(origin), s, Sends(0)), Waiting([TO_ORIGIN]))
  {
    PairPlans(origin);
    assert GET.(host := "h") == GET;
  }

  lemma PairFails(origin: (string, string) -> Response, s: System)
    requires Typed(Pair(origin), s) && AtShield(s, Waiting([TO_ORIGIN]))
    ensures Can(Pair(origin), s, Fails(1)) && AtShield(Apply(Pair(origin), s, Fails(1)), Waiting([]))
  {
  }

  lemma PairGivesUp(origin: (string, string) -> Response, s: System)
    requires Typed(Pair(origin), s) && AtShield(s, Waiting([]))
    ensures Can(Pair(origin), s, GivesUp(1))
    ensures AtShield(Apply(Pair(origin), s, GivesUp(1)), Answered(InternalErrorPage("s")))
  {
  }

  predicate Reaches(origin: (string, string) -> Response, steps: seq<Step>, st: CallState) {
    After(Pair(origin), steps).Some? && AtShield(After(Pair(origin), steps).value, st)
  }

  const BEGIN: seq<Step> := [] + [ClientSends("A", GET)] + [Sends(0)]

  lemma OutageBegins(origin: (string, string) -> Response)
    ensures Reaches(origin, BEGIN, Waiting([TO_ORIGIN]))
  {
    PairStarts(origin);
    OneMoreStep(Pair(origin), [], ClientSends("A", GET));
    PairSends(origin, After(Pair(origin), [] + [ClientSends("A", GET)]).value);
    OneMoreStep(Pair(origin), [] + [ClientSends("A", GET)], Sends(0));
  }

  lemma OutageGoesOn(origin: (string, string) -> Response)
    ensures Reaches(origin, BEGIN + [Fails(1)] + [GivesUp(1)], Answered(InternalErrorPage("s")))
  {
    OutageBegins(origin);
    PairFails(origin, After(Pair(origin), BEGIN).value);
    OneMoreStep(Pair(origin), BEGIN, Fails(1));
    PairGivesUp(origin, After(Pair(origin), BEGIN + [Fails(1)]).value);
    OneMoreStep(Pair(origin), BEGIN + [Fails(1)], GivesUp(1));
  }

  predicate EndsInHit(origin: (string, string) -> Response, steps: seq<Step>, c: nat) {
    After(Pair(origin), steps).Some? && HitOnErrorPage(After(Pair(origin), steps).value, c)
  }

  lemma OutageEnds(origin: (string, string) -> Response, steps: seq<Step>)
    requires Reaches(origin, steps, Answered(InternalErrorPage("s")))
    ensures EndsInHit(origin, steps + [NodeAnswers(0)] + [ClientSends("A", GET)], 2)
  {
    PageIsServedAgain(Pair(origin), After(Pair(origin), steps).value, 0, "s", GET);
    OneMoreStep(Pair(origin), steps, NodeAnswers(0));
    OneMoreStep(Pair(origin), steps + [NodeAnswers(0)], ClientSends("A", GET));
  }

  /** A client asks the edge, the edge the shield, and the shield loses its only fetch; then another client asks. */
  const OUTAGE: seq<Step> :=
    BEGIN + [Fails(1)] + [GivesUp(1)] + [NodeAnswers(0)] + [ClientSends("A", GET)]

  /** Whatever the origin would answer: one lost fetch, and a later client gets the error page as a hit. */
  lemma ErrorPagesAreServedAsHits(origin: (string, string) -> Response)
    ensures EndsInHit(origin, OUTAGE, 2)
  {
    OutageGoesOn(origin);
    OutageEnds(origin, BEGIN + [Fails(1)] + [GivesUp(1)]);
  }

  // ---------- a broken body ends the search ----------

  /** Whatever the origin would answer: if the body of the shield's response breaks off, the edge
      does not turn to the origin, although that fetch is left and would be answered. */
  lemma BrokenBodyEndsTheWalk(origin: (string, string) -> Response, net: Attempt -> Exchange, r: Response)
    requires net(TO_SHIELD) == Cut(r) && net(TO_ORIGIN).Whole?
    ensures var cfg := Pair(origin);
            Walk(Plan(cfg.nodes["A"], cfg.hash, GET), net) == Broken(r) && Walk([TO_ORIGIN], net).Got?
  {
    PairPlans(origin);
    DecidedWalk([TO_SHIELD, TO_ORIGIN], 0, net);
    DecidedWalk([TO_ORIGIN], 0, net);
  }

  const BROKEN: seq<Step> := BEGIN + [OriginAnswers(1)] + [BreaksOff(0)]

  /** The shield has the origin's response, and the edge has made an error page. */
  predicate EndsBroken(origin: (string, string) -> Response, steps: seq<Step>) {
    After(Pair(origin), steps).Some? &&
    var s := After(Pair(origin), steps).value;
    && |s.calls| == 2
    && s.calls[0].state == Answered(InternalErrorPage("a"))
    && s.calls[1].state == Answered(Served("s", Stored(origin("h", "/"))))
  }

  lemma PairIsAnswered(origin: (string, string) -> Response, s: System)
    requires Typed(Pair(origin), s) && AtShield(s, Waiting([TO_ORIGIN]))
    ensures Can(Pair(origin), s, OriginAnswers(1))
    ensures var s' := Apply(Pair(origin), s, OriginAnswers(1));
            && s'.calls == [s.calls[0], s.calls[1].(state := Answered(Served("s", Stored(origin("h", "/")))))]
  {
  }

  lemma PairBreaksOff(origin: (string, string) -> Response, s: System)
    requires Typed(Pair(origin), s) && |s.calls| == 2 && s.calls[0] == Call("A", GET, GET, 0, Pending(1, [TO_ORIGIN]))
    requires s.calls[1].state.Answered?
    ensures Can(Pair(origin), s, BreaksOff(0))
    ensures var s' := Apply(Pair(origin), s, BreaksOff(0));
            |s'.calls| == 2 && s'.calls[0].state == Answered(InternalErrorPage("a")) && s'.calls[1] == s.calls[1]
  {
  }

  /** A run in which the edge answers with an error page while a fetch is left and nothing was lost. */
  lemma ErrorPageWithFetchesLeft(origin: (string, string) -> Response)
    ensures EndsBroken(origin, BROKEN)
  {
    OutageBegins(origin);
    PairIsAnswered(origin, After(Pair(origin), BEGIN).value);
    OneMoreStep(Pair(origin), BEGIN, OriginAnswers(1));
    PairBreaksOff(origin, After(Pair(origin), BEGIN + [OriginAnswers(1)]).value);
    OneMoreStep(Pair(origin), BEGIN + [OriginAnswers(1)], BreaksOff(0));
  }
}
