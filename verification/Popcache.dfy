/** One cache node on the heap: header maps, cached objects and the cache are references, and the
    object that a handler has just stored is still changed through the handler's own pointer. */
module Popcache {
  import opened Words
  import opened Wrappers
  import opened Rendezvous
  import opened Http
  import Lru
  import opened Routing

  /** http.Header: a map behind a reference. */
  class Header {
    var fields: Fields

    constructor (fields: Fields)
      ensures this.fields == fields
    {
      this.fields := fields;
    }

    method SetField(n: Name, v: string)
      modifies this
      ensures fields == Set(old(fields), n, v)
    {
      fields := fields[n := [v]];
    }

    method AddField(n: Name, v: string)
      modifies this
      ensures fields == Add(old(fields), n, v)
    {
      fields := fields[n := (if n in fields then fields[n] else []) + [v]];
    }

    method DelField(n: Name)
      modifies this
      ensures fields == Del(old(fields), n)
    {
      fields := fields - {n};
    }

    method Clone() returns (c: Header)
      ensures fresh(c) && c.fields == fields
    {
      c := new Header(fields);
    }
  }

  /** A response in memory. */
  class Object {
    const statusCode: nat
    const header: Header
    const body: array<Byte>

    function Value(): Response
      reads header, body
    {
      Response(statusCode, header.fields, body[..])
    }

    constructor (statusCode: nat, header: Header, body: array<Byte>)
      ensures this.statusCode == statusCode && this.header == header && this.body == body
    {
      this.statusCode, this.header, this.body := statusCode, header, body;
    }

    /** A deep copy. */
    method Clone() returns (o: Object)
      ensures fresh(o) && fresh(o.header) && fresh(o.body)
      ensures o.Value() == Value()
    {
      var h := header.Clone();
      var b := new Byte[body.Length](i requires 0 <= i < body.Length reads body => body[i]);
      o := new Object(statusCode, h, b);
      assert b[..] == body[..];
    }
  }

  ghost predicate AtMostOneGone(now: set<string>, before: set<string>) {
    exists v :: GoneOnly(now, before, v)
  }

  predicate GoneOnly(now: set<string>, before: set<string>, v: string) {
    before <= now + {v}
  }

  /** A map in which `o` was stored, at the price of at most one other entry. */
  ghost predicate StoredOne<T>(now: map<string, T>, before: map<string, T>, key: string, o: T) {
    && key in now && now[key] == o
    && (forall k :: k in now && k != key ==> k in before && now[k] == before[k])
    && AtMostOneGone(now.Keys, before.Keys)
  }

  /** The cache of a node: at most `capacity` objects, held by reference, and the order in which
      they were last used. */
  class Cache {
    const capacity: nat
    var entries: map<string, Object>
    var order: seq<string>

    /** Everything a change of which would change what the cache holds. */
    ghost function Footprint(): set<object>
      reads this
    {
      {this} + (set k | k in entries :: entries[k].header as object) + (set k | k in entries :: entries[k].body as object)
    }

    ghost function Contents(): map<string, Response>
      reads Footprint()
    {
      map k | k in entries :: entries[k].Value()
    }

    ghost predicate Valid()
      reads this
    {
      |entries| <= capacity && Lru.Tracks(order, entries.Keys)
    }

    constructor (capacity: nat)
      requires capacity > 0
      ensures Valid() && this.capacity == capacity && entries == map[] && order == []
    {
      this.capacity, entries, order := capacity, map[], [];
    }

    /** Hands out a copy, so that nothing done to it reaches the cache; a hit is a use of its key. */
    method Lookup(key: string) returns (obj: Option<Object>)
      requires Valid()
      modifies this`order
      ensures Valid() && order == if key in entries then Lru.Touched(old(order), key) else old(order)
      ensures obj.Some? <==> key in entries
      ensures obj.Some? ==> fresh(obj.value) && fresh(obj.value.header) && fresh(obj.value.body)
      ensures obj.Some? ==> obj.value.Value() == entries[key].Value()
    {
      if key !in entries {
        return None;
      }
      Lru.TouchedTracks(order, entries.Keys, key);
      assert entries.Keys + {key} == entries.Keys;
      order := Lru.Touched(order, key);
      var c := entries[key].Clone();
      return Some(c);
    }

    /** Stores the reference; a new key pushes out the least recently used one if the cache is full. */
    method Put(key: string, obj: Object)
      requires Valid() && capacity > 0
      modifies this
      ensures Valid() && order == Lru.Used(old(order), capacity, key)
      ensures entries == Lru.PutInto(old(entries), old(order), capacity, key, obj)
    {
      Lru.PutKeepsOrder(entries, order, capacity, key, obj);
      Lru.TracksCounts(order, entries.Keys);
      Lru.KeysCount(entries);
      if key !in entries && |entries| == capacity {
        entries := entries - {order[0]};
        order := order[1..];
      }
      entries := entries[key := obj];
      order := Lru.Touched(order, key);
    }
  }

  /** Storing changes one entry, and costs at most one other. */
  lemma PutStoresOne<T>(entries: map<string, T>, order: seq<string>, capacity: nat, key: string, o: T)
    ensures StoredOne(Lru.PutInto(entries, order, capacity, key, o), entries, key, o)
  {
    var now := Lru.PutInto(entries, order, capacity, key, o);
    assert GoneOnly(now.Keys, entries.Keys, if order == [] then key else order[0]);
  }

  /** An incoming request; handlers change its host and its header. */
  class Request {
    var host: string
    const port: string
    const uri: string
    const header: Header

    constructor (host: string, port: string, uri: string, header: Header)
      ensures this.host == host && this.port == port && this.uri == uri && this.header == header
    {
      this.host, this.port, this.uri, this.header := host, port, uri, header;
    }

    function Message(): Message
      reads this, header
    {
      Routing.Message(host, port, uri, header.fields)
    }
  }

  // ---------- the handler chains ----------

  /** What the network makes of each fetch. */
  type Network = Attempt -> Exchange

  /** Forward to the origin of the request's host, which `ServeHTTP` has found registered. */
  method ForwardToOrigin(n: NodeConfig, r: Request, net: Network) returns (o: Outcome)
    requires r.host in n.origins
    ensures o == Walk(OriginPlan(n, r.Message()), net)
  {
    var resp := net(ToOrigin(n.origins[r.host], Fetched(r.Message())));
    return Received(resp);
  }

  /** An edge forwards to the owner among the shields, and to the origin if that fails. */
  method Forward(n: NodeConfig, hash: Hash, r: Request, net: Network) returns (o: Outcome)
    requires r.host in n.origins
    ensures o == Walk(UpstreamPlan(n, hash, r.Message()), net)
  {
    if n.tier == Edge {
      var upstream := RendezvousSelect(hash, KeyText(r.Message()), n.shields);
      if upstream.Fatal? || upstream.owner.None? {
        return Crashed;
      }
      var resp := net(ToNode(upstream.owner.value, Fetched(r.Message())));
      if !resp.Lost? {
        return Received(resp);
      }
    }
    o := ForwardToOrigin(n, r, net);
  }

  /** Shard: to the owner among the peers, unless the request comes from a peer. When the owner
      does not answer, the mark stays on the request that goes upstream. */
  method Shard(n: NodeConfig, hash: Hash, r: Request, net: Network) returns (o: Outcome)
    requires r.host in n.origins
    modifies r.header
    ensures o == Walk(Plan(n, hash, old(r.Message())), net)
  {
    if Get(r.header.fields, XShard) != "" {
      r.header.DelField(XShard);
      o := Forward(n, hash, r, net);
      return;
    }
    var peer := RendezvousSelect(hash, KeyText(r.Message()), n.peers);
    if peer.Fatal? || peer.owner.None? {
      return Crashed;
    }
    if peer.owner.value.nodeId == n.id {
      o := Forward(n, hash, r, net);
      return;
    }
    r.header.AddField(XShard, n.id);
    var resp := net(ToNode(peer.owner.value, Fetched(r.Message())));
    if !resp.Lost? {
      return Received(resp);
    }
    o := Forward(n, hash, r, net);
  }

  // ---------- the cache handler ----------

  /** A copy of an upstream response without the hop fields. */
  method CopyWithoutHopFields(resp: Response) returns (cacheHeader: Header)
    ensures fresh(cacheHeader) && cacheHeader.fields == Strip(resp).fields
  {
    cacheHeader := new Header(resp.fields);
    cacheHeader.DelField(XCache);
    cacheHeader.DelField(PopCacheNodeId);
    cacheHeader.DelField(ShieldNodeId);
    assert resp.fields - {XCache} - {PopCacheNodeId} - {ShieldNodeId} == resp.fields - HOP_FIELDS;
  }

  datatype Fetch = Answer(obj: Object) | Failed | Panic

  /** A hit is answered with a marked copy and leaves the cache as it is. A miss walks the chain;
      the response is stored first and marked afterwards, through the same reference, and the
      caller gets that reference too. */
  method CacheAndFetch(n: NodeConfig, hash: Hash, r: Request, cache: Cache, net: Network) returns (f: Fetch)
    requires cache.Valid() && cache.capacity > 0 && r.host in n.origins && r.header !in cache.Footprint()
    modifies cache, r.header
    ensures cache.Valid()
    ensures SameObjects(cache.entries, old(cache.entries), f)
    ensures var key, before := old(KeyText(r.Message())), old(cache.Contents());
            key in before ==>
              && f.Answer? && fresh(f.obj.header) && fresh(f.obj.body) && f.obj.Value() == Hit(before[key])
              && cache.Contents() == before
    ensures var key, before := old(KeyText(r.Message())), old(cache.Contents());
            key !in before ==> Missed(Walk(Plan(n, hash, old(r.Message())), net), f, key, before, cache)
  {
    var key := KeyText(r.Message());
    ghost var before, msg := cache.Contents(), r.Message();
    var obj := MarkedHit(key, cache);
    if obj.Some? {
      return Answer(obj.value);
    }
    assert cache.Contents() == before && r.Message() == msg;
    f := FetchAndKeep(n, hash, r, key, cache, net);
  }

  /** A copy of the entry, if there is one, marked as a hit; the entry itself is not touched. */
  method MarkedHit(key: string, cache: Cache) returns (obj: Option<Object>)
    requires cache.Valid()
    modifies cache`order
    ensures cache.Valid()
    ensures obj.Some? <==> key in cache.entries
    ensures obj.Some? ==> fresh(obj.value.header) && fresh(obj.value.body) && obj.value.Value() == Hit(cache.Contents()[key])
    ensures cache.Contents() == old(cache.Contents())
  {
    obj := cache.Lookup(key);
    if obj.Some? {
      obj.value.header.SetField(XCache, "HIT");
      ContentsFramed(cache);
    }
  }

  method FetchAndKeep(n: NodeConfig, hash: Hash, r: Request, key: string, cache: Cache, net: Network) returns (f: Fetch)
    requires cache.Valid() && cache.capacity > 0 && r.host in n.origins && r.header !in cache.Footprint()
    modifies cache, r.header
    ensures cache.Valid()
    ensures f.Answer? ==> fresh(f.obj.header) && fresh(f.obj.body)
    ensures SameObjects(cache.entries, old(cache.entries), f)
    ensures Missed(Walk(Plan(n, hash, old(r.Message())), net), f, key, old(cache.Contents()), cache)
  {
    ghost var before := cache.Contents();
    var resp := Shard(n, hash, r, net);
    assert cache.Contents() == before;
    if resp.NoUpstream? {
      return Failed;
    }
    if resp.Crashed? {
      return Panic;
    }
    if resp.Broken? {
      return Failed;
    }
    f := Keep(resp.response, key, cache);
  }

  /** The cache refers to no object that it did not refer to before, but for the answer itself. */
  ghost predicate SameObjects(now: map<string, Object>, before: map<string, Object>, f: Fetch) {
    forall k :: k in now ==> (k in before && now[k] == before[k]) || (f.Answer? && now[k] == f.obj)
  }

  /** What a miss leaves behind; the answer is the stored object itself. */
  ghost predicate Missed(o: Outcome, f: Fetch, key: string, before: map<string, Response>, cache: Cache)
    reads cache, cache.Footprint(), if f.Answer? then {f.obj.header, f.obj.body} else {}
  {
    match o
    case Got(resp) =>
      && f.Answer? && f.obj.Value() == Stored(resp) && Updated(cache.Contents(), before, key, Some(Stored(resp)))
      && key in cache.entries && cache.entries[key] == f.obj
    case Broken(_) => f.Failed? && cache.Contents() == before
    case NoUpstream => f.Failed? && cache.Contents() == before
    case Crashed => f.Panic? && cache.Contents() == before
  }

  method NewObject(resp: Response) returns (o: Object)
    ensures fresh(o) && fresh(o.header) && fresh(o.body)
    ensures o.Value() == Strip(resp)
  {
    var cacheHeader := CopyWithoutHopFields(resp);
    var body := new Byte[|resp.body|](i requires 0 <= i < |resp.body| => resp.body[i]);
    assert body[..] == resp.body;
    o := new Object(resp.status, cacheHeader, body);
  }

  /** The object is stored first and marked afterwards: the cache sees the mark. */
  method StoreAndMark(key: string, obj: Object, cache: Cache)
    requires cache.Valid() && cache.capacity > 0 && forall k :: k in cache.entries ==> cache.entries[k].header != obj.header
    modifies cache, obj.header
    ensures cache.Valid() && obj.header.fields == Add(old(obj.header.fields), XCache, "Miss")
    ensures StoredOne(cache.entries, old(cache.entries), key, obj)
    ensures StoredOne(cache.Contents(), old(cache.Contents()), key, obj.Value())
  {
    ghost var was, before := cache.Contents(), cache.entries;
    assert was.Keys == before.Keys;
    PutStoresOne(cache.entries, cache.order, cache.capacity, key, obj);
    cache.Put(key, obj);
    obj.header.AddField(XCache, "Miss");
    forall k | k in cache.entries && k != key
      ensures cache.Contents()[k] == was[k]
    {
      assert cache.entries[k] == before[k];
      assert before[k].Value() == old(before[k].Value());
    }
    assert cache.Contents().Keys == cache.entries.Keys;
  }

  method Keep(resp: Response, key: string, cache: Cache) returns (f: Fetch)
    requires cache.Valid() && cache.capacity > 0
    modifies cache
    ensures cache.Valid() && f.Answer? && fresh(f.obj.header) && fresh(f.obj.body)
    ensures SameObjects(cache.entries, old(cache.entries), f)
    ensures Missed(Got(resp), f, key, old(cache.Contents()), cache)
  {
    ghost var was := cache.Contents();
    var newObject := NewObject(resp);
    assert cache.Contents() == was;
    StoreAndMark(key, newObject, cache);
    assert newObject.Value() == Stored(resp);
    f := Answer(newObject);
  }

  // ---------- the server ----------

  /** http.ResponseWriter, as far as one handler sees it. */
  class ResponseWriter {
    const header: Header
    var status: nat
    var body: seq<Byte>

    constructor ()
      ensures fresh(header) && header.fields == map[] && status == 200 && body == []
    {
      header := new Header(map[]);
      status, body := 200, [];
    }

    function Value(): Response
      reads this, header
    {
      Response(status, header.fields, body)
    }

    method Error(text: seq<Byte>, code: nat)
      modifies this, header
      ensures status == code && body == text + [10]
      ensures header.fields == Set(Set(old(header.fields), ContentType, "text/plain; charset=utf-8"),
                                   Other("X-Content-Type-Options"), "nosniff")
    {
      header.SetField(ContentType, "text/plain; charset=utf-8");
      header.SetField(Other("X-Content-Type-Options"), "nosniff");
      status, body := code, text + [10];
    }
  }

  ghost predicate SameExcept(a: Fields, b: Fields, n: Name) {
    forall k :: k != n ==> Values(a, k) == Values(b, k)
  }

  lemma AddedOneMore(w: Fields, start: Fields, n: Name, vs: seq<string>, i: nat)
    requires i < |vs| && SameExcept(w, start, n) && Values(w, n) == Values(start, n) + vs[..i]
    ensures SameExcept(Add(w, n, vs[i]), start, n)
    ensures Values(Add(w, n, vs[i]), n) == Values(start, n) + vs[..i + 1]
  {
  }

  method AddAll(w: Header, n: Name, vs: seq<string>)
    modifies w
    ensures SameExcept(w.fields, old(w.fields), n)
    ensures Values(w.fields, n) == Values(old(w.fields), n) + vs
  {
    ghost var start := w.fields;
    for i := 0 to |vs|
      invariant SameExcept(w.fields, start, n)
      invariant Values(w.fields, n) == Values(start, n) + vs[..i]
    {
      AddedOneMore(w.fields, start, n, vs, i);
      w.AddField(n, vs[i]);
    }
    assert vs[..|vs|] == vs;
  }

  /** The fields of `h` that are not to be done have been added to those of `start`. */
  ghost predicate Copied(w: Fields, start: Fields, h: Fields, todo: set<Name>) {
    forall k :: Values(w, k) == if k in todo then Values(start, k) else Values(start, k) + Values(h, k)
  }

  lemma CopiedOneMore(w: Fields, w': Fields, start: Fields, h: Fields, todo: set<Name>, n: Name)
    requires Copied(w, start, h, todo) && n in todo && n in h
    requires SameExcept(w', w, n) && Values(w', n) == Values(w, n) + h[n]
    ensures Copied(w', start, h, todo - {n})
  {
  }

  lemma CopiedNothing(start: Fields, h: Fields)
    ensures Copied(start, start, h, h.Keys)
  {
  }

  lemma CopiedAll(w: Fields, start: Fields, h: Fields)
    requires Copied(w, start, h, {})
    ensures w == Merged(start, h)
  {
    var m := Merged(start, h);
    forall k: Name
      ensures k in w <==> k in m
      ensures k in w && k in m ==> w[k] == m[k]
    {
      assert Values(w, k) == Values(start, k) + Values(h, k);
      assert k in w <==> Values(w, k) != [];
    }
  }

  /** Adds every value of every field, in whatever order the map yields them. */
  method CopyFields(w: Header, h: Fields)
    modifies w
    ensures w.fields == Merged(old(w.fields), h)
  {
    ghost var start := w.fields;
    CopiedNothing(start, h);
    var todo := h.Keys;
    while todo != {}
      invariant todo <= h.Keys && Copied(w.fields, start, h, todo)
      decreases todo
    {
      var n :| n in todo;
      ghost var before := w.fields;
      AddAll(w, n, h[n]);
      CopiedOneMore(before, w.fields, start, h, todo, n);
      todo := todo - {n};
    }
    CopiedAll(w.fields, start, h);
  }

  /** What a node does with a request: the response, None if the handler panics, and what it stores. */
  datatype Reaction = Reaction(response: Option<Response>, stored: Option<Response>)

  function React(n: NodeConfig, m: Message, o: Outcome, before: map<string, Response>): Reaction {
    if m.host !in n.origins then Reaction(Some(NotFoundPage(n.id)), None)
    else if KeyText(m) in before then Reaction(Some(Served(n.id, Hit(before[KeyText(m)]))), None)
    else
      match o
      case Got(resp) => Reaction(Some(Served(n.id, Stored(resp))), Some(Stored(resp)))
      case Broken(_) => Reaction(Some(InternalErrorPage(n.id)), None)
      case NoUpstream => Reaction(Some(InternalErrorPage(n.id)), None)
      case Crashed => Reaction(None, None)
  }

  /** The cache after storing, at most, one object. */
  ghost predicate Updated(now: map<string, Response>, before: map<string, Response>, key: string, stored: Option<Response>) {
    if stored.None? then now == before
    else StoredOne(now, before, key, stored.value)
  }

  /** One answer of a node: `m` is the request with the port cut off its host, `before` and `now`
      are the contents of the cache, `w` is what was written, None if the handler panicked. */
  ghost predicate Reply(n: NodeConfig, m: Message, o: Outcome, before: map<string, Response>, now: map<string, Response>,
                        w: Option<Response>)
  {
    var reaction := React(n, m, o, before);
    w == reaction.response && Updated(now, before, KeyText(m), reaction.stored)
  }

  /** What the node's chain makes of a request. */
  function Upstream(n: NodeConfig, hash: Hash, m: Message, net: Network): Outcome {
    if m.host in n.origins then Walk(Plan(n, hash, m), net) else NoUpstream
  }

  /** A cache whose objects have not been written to holds what it held. */
  twostate lemma ContentsFramed(cache: Cache)
    requires cache.entries == old(cache.entries)
    requires forall k :: k in cache.entries ==> unchanged(cache.entries[k].header) && unchanged(cache.entries[k].body)
    ensures cache.Contents() == old(cache.Contents())
  {
  }

  /** Nothing that a handler writes to its response reaches the cache. */
  method Respond(w: ResponseWriter, id: string, f: Fetch, ghost cache: Cache)
    requires forall k :: k in cache.entries ==> cache.entries[k].header != w.header
    requires w.header.fields == map[PopCacheNodeId := [id]]
    requires f.Answer? ==> f.obj.header != w.header
    modifies w, w.header
    ensures f.Answer? ==> w.Value() == Served(id, old(f.obj.Value()))
    ensures f.Failed? ==> w.Value() == InternalErrorPage(id)
    ensures cache.Contents() == old(cache.Contents())
  {
    match f {
      case Panic =>
      case Failed => w.Error(INTERNAL_SERVER_ERROR, 500);
      case Answer(obj) =>
        CopyFields(w.header, obj.header.fields);
        w.status := obj.statusCode;
        w.body := obj.body[..];
    }
    ContentsFramed(cache);
  }

  method RejectUnknown(w: ResponseWriter, id: string, ghost cache: Cache)
    requires w.header.fields == map[PopCacheNodeId := [id]]
    requires forall k :: k in cache.entries ==> cache.entries[k].header != w.header
    modifies w, w.header
    ensures w.Value() == NotFoundPage(id) && cache.Contents() == old(cache.Contents())
  {
    w.Error(UNKNOWN_HOST, 404);
    ContentsFramed(cache);
  }

  /** A request for a registered host. */
  method ServeRegistered(n: NodeConfig, hash: Hash, w: ResponseWriter, r: Request, cache: Cache, net: Network)
    returns (panicked: bool)
    requires cache.Valid() && cache.capacity > 0 && r.host in n.origins && w.header.fields == map[PopCacheNodeId := [n.id]]
    requires r.header !in cache.Footprint() && r.header != w.header
    requires forall k :: k in cache.entries ==> cache.entries[k].header != w.header
    modifies w, w.header, r.header, cache
    ensures cache.Valid()
    ensures Reply(n, old(r.Message()), Upstream(n, hash, old(r.Message()), net), old(cache.Contents()), cache.Contents(),
                  if panicked then None else Some(w.Value()))
  {
    ghost var before := cache.Contents();
    ghost var reaction := React(n, r.Message(), Upstream(n, hash, r.Message(), net), before);
    var f := CacheAndFetch(n, hash, r, cache, net);
    assert f.Panic? <==> reaction.response.None?;
    Respond(w, n.id, f, cache);
    return f.Panic?;
  }

  /** One request at one node. */
  method ServeHTTP(n: NodeConfig, hash: Hash, removePort: string -> string, w: ResponseWriter, r: Request, cache: Cache,
                   net: Network)
    returns (panicked: bool)
    requires cache.Valid() && cache.capacity > 0 && w.header.fields == map[]
    requires r.header !in cache.Footprint() && r.header != w.header
    requires forall k :: k in cache.entries ==> cache.entries[k].header != w.header
    modifies w, w.header, r`host, r.header, cache
    ensures cache.Valid()
    ensures var m := old(r.Message()).(host := removePort(old(r.host)));
            Reply(n, m, Upstream(n, hash, m, net), old(cache.Contents()), cache.Contents(), if panicked then None else Some(w.Value()))
  {
    ghost var before, m := cache.Contents(), r.Message().(host := removePort(r.host));
    w.header.SetField(PopCacheNodeId, n.id);
    r.host := removePort(r.host);
    ContentsFramed(cache);
    assert cache.Contents() == before;
    if r.host !in n.origins {
      RejectUnknown(w, n.id, cache);
      return false;
    }
    assert r.Message() == m;
    panicked := ServeRegistered(n, hash, w, r, cache, net);
  }

  // ---------- header hygiene ----------

  predicate AllCacheable(contents: map<string, Response>) {
    forall k :: k in contents ==> Cacheable(contents[k])
  }

  /** Whatever the upstreams sent, everything a node delivers from its cache handler carries one
      X-Cache and one node id, its own; and its cache stays free of the hop fields of others. */
  lemma EveryReplyIsClean(n: NodeConfig, m: Message, o: Outcome, before: map<string, Response>, now: map<string, Response>,
                          w: Option<Response>)
    requires Reply(n, m, o, before, now, w) && AllCacheable(before)
    ensures AllCacheable(now)
    ensures w.None? || w.value == NotFoundPage(n.id) || w.value == InternalErrorPage(n.id) || Clean(w.value, n.id)
  {
  }

  /** The server in plain words: 404 for a host it does not know, the entry if it has one, the
      upstream's status and body if the chain succeeds, otherwise 500; only a success changes the cache. */
  lemma WhatTheClientGets(n: NodeConfig, m: Message, o: Outcome, before: map<string, Response>, now: map<string, Response>,
                          w: Option<Response>)
    requires Reply(n, m, o, before, now, w)
    ensures var key := m.host + m.port + m.uri;
            if m.host !in n.origins then w.Some? && w.value.status == 404 && w.value.body == Ascii("unknown host\n") && now == before
            else if key in before then w.Some? && w.value.status == before[key].status && w.value.body == before[key].body && now == before
            else if o.Got? then
              && w.Some? && w.value.status == o.response.status && w.value.body == o.response.body
              && key in now && now[key].status == o.response.status && now[key].body == o.response.body
            else if o.Crashed? then w.None? && now == before
            else w.Some? && w.value.status == 500 && w.value.body == Ascii("internal server error\n") && now == before
  {
    ErrorPages(n.id);
  }

  lemma FirstAndLater(id: string, resp: Response)
    ensures var first, later := Served(id, Stored(resp)), Served(id, Hit(Stored(resp)));
            && later.fields == first.fields[XCache := ["HIT"]] && Values(first.fields, XCache) == ["Miss"]
            && Strip(first) == Strip(later) == Strip(resp)
  {
    var o := Stored(resp);
    StoredIsCacheable(resp);
    HitDiffersOnlyInXCache(o);
    ServedIsClean(id, o);
    ServedIsClean(id, Hit(o));
    ServedFields(id, o);
    ServedFields(id, Hit(o));
  }

  /** A hit, however much later, repeats what the miss that filled the entry had answered, except
      for X-Cache; and both carry the upstream's response. */
  lemma HitRepeatsTheFetch(n: NodeConfig, m: Message, resp: Response, before: map<string, Response>, now: map<string, Response>,
                           w: Option<Response>, m': Message, o': Outcome, before': map<string, Response>,
                           now': map<string, Response>, w': Option<Response>)
    requires m.host in n.origins && KeyText(m) !in before && Reply(n, m, Got(resp), before, now, w)
    requires m'.host in n.origins && KeyText(m') == KeyText(m) && Reply(n, m', o', before', now', w')
    requires KeyText(m) in before' && before'[KeyText(m)] == now[KeyText(m)]
    ensures w.Some? && w'.Some? && w'.value.status == w.value.status == resp.status && w'.value.body == w.value.body == resp.body
    ensures w'.value.fields == w.value.fields[XCache := ["HIT"]] && Values(w.value.fields, XCache) == ["Miss"]
    ensures Strip(w.value) == Strip(w'.value) == Strip(resp)
    ensures forall f :: f != XCache && f != PopCacheNodeId && f != ShieldNodeId ==>
      Values(w'.value.fields, f) == Values(w.value.fields, f) == Values(resp.fields, f)
  {
    FirstAndLater(n.id, resp);
    SameFields(w.value, resp);
    SameFields(w'.value, resp);
  }
}
