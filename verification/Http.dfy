/** What cache nodes do to HTTP responses, as values: header fields, the copy that is stored,
    the copy that is served, and the error pages. */
module Http {
  import opened Words

  /** Canonical header names; the ones that the caches give a meaning to come first. */
  datatype Name = XCache | PopCacheNodeId | ShieldNodeId | XShard | ContentType | Other(name: string)

  /** Header fields; a field that is present has at least one value. */
  type Fields = h: map<Name, seq<string>> | forall n :: n in h ==> h[n] != []

  datatype Response = Response(status: nat, fields: Fields, body: seq<Byte>)

  function Values(h: Fields, n: Name): seq<string> {
    if n in h then h[n] else []
  }

  function Get(h: Fields, n: Name): string {
    if n in h then h[n][0] else ""
  }

  function Set(h: Fields, n: Name, v: string): Fields {
    h[n := [v]]
  }

  function Add(h: Fields, n: Name, v: string): Fields {
    h[n := Values(h, n) + [v]]
  }

  function Del(h: Fields, n: Name): Fields {
    h - {n}
  }

  /** Every value of `h`, appended to those of `w`. */
  function Merged(w: Fields, h: Fields): Fields {
    map n | n in w.Keys + h.Keys :: Values(w, n) + Values(h, n)
  }

  // ---------- what a node makes of a response ----------

  /** The fields that only describe the last hop. */
  const HOP_FIELDS: set<Name> := {XCache, PopCacheNodeId, ShieldNodeId}

  function Strip(r: Response): Response {
    r.(fields := r.fields - HOP_FIELDS)
  }

  /** What a fetched response looks like in the cache, after the handler has marked it. */
  function Stored(r: Response): Response {
    var s := Strip(r);
    s.(fields := Add(s.fields, XCache, "Miss"))
  }

  /** What a cache hit hands out. */
  function Hit(o: Response): Response {
    o.(fields := Set(o.fields, XCache, "HIT"))
  }

  /** What node `id` writes for an object. */
  function Served(id: string, o: Response): Response {
    o.(fields := Merged(map[PopCacheNodeId := [id]], o.fields))
  }

  function ErrorPage(id: string, status: nat, text: seq<Byte>): Response {
    var fields := Set(map[PopCacheNodeId := [id]], ContentType, "text/plain; charset=utf-8");
    Response(status, Set(fields, Other("X-Content-Type-Options"), "nosniff"), text + [10])
  }

  function Ascii(text: string): (b: seq<Byte>)
    ensures |b| == |text| && forall i :: 0 <= i < |text| ==> b[i] == text[i] as nat % 0x80
  {
    seq(|text|, i requires 0 <= i < |text| => text[i] as nat % 0x80)
  }

  const UNKNOWN_HOST: seq<Byte> := Ascii("unknown host")
  const INTERNAL_SERVER_ERROR: seq<Byte> := Ascii("internal server error")

  /** The answer to a host that is not registered at the node. */
  function NotFoundPage(id: string): Response {
    ErrorPage(id, 404, UNKNOWN_HOST)
  }

  /** The answer of a node that got no complete response from upstream. */
  function InternalErrorPage(id: string): Response {
    ErrorPage(id, 500, INTERNAL_SERVER_ERROR)
  }

  // ---------- header hygiene ----------

  /** Exactly one value of each hop header, naming the node that answers. */
  predicate Clean(r: Response, id: string) {
    |Values(r.fields, XCache)| == 1 && Values(r.fields, PopCacheNodeId) == [id] && ShieldNodeId !in r.fields
  }

  predicate Cacheable(o: Response) {
    |Values(o.fields, XCache)| == 1 && PopCacheNodeId !in o.fields && ShieldNodeId !in o.fields
  }

  /** What is stored has the status, the body and every field of the response, except that it names
      no node and is marked as a miss. */
  lemma StoredIsCacheable(r: Response)
    ensures Cacheable(Stored(r)) && Strip(Stored(r)) == Strip(r)
    ensures Stored(r).fields[XCache] == ["Miss"] && Stored(r).status == r.status && Stored(r).body == r.body
    ensures forall n :: n != XCache && n != PopCacheNodeId && n != ShieldNodeId ==> Values(Stored(r).fields, n) == Values(r.fields, n)
  {
  }

  /** A hit is the stored object except for X-Cache. */
  lemma HitDiffersOnlyInXCache(o: Response)
    requires Cacheable(o)
    ensures Cacheable(Hit(o)) && Hit(o).fields[XCache] == ["HIT"]
    ensures Hit(o).status == o.status && Hit(o).body == o.body
    ensures forall n :: n != XCache ==> Values(Hit(o).fields, n) == Values(o.fields, n)
    ensures Strip(Hit(o)) == Strip(o)
  {
  }

  /** It does not matter whether a hit is cloned before or after the handler marks the stored object. */
  lemma HitIgnoresTheMark(o: Response, mark: string)
    requires XCache !in o.fields
    ensures Hit(o.(fields := Add(o.fields, XCache, mark))) == Hit(o)
  {
  }

  lemma AsciiOfBoth(a: string, b: string)
    ensures Ascii(a + b) == Ascii(a) + Ascii(b)
  {
  }

  lemma Lines()
    ensures UNKNOWN_HOST + [10] == Ascii("unknown host\n")
    ensures INTERNAL_SERVER_ERROR + [10] == Ascii("internal server error\n")
  {
    assert Ascii("\n") == [10];
    AsciiOfBoth("unknown host", "\n");
    AsciiOfBoth("internal server error", "\n");
    assert "unknown host" + "\n" == "unknown host\n";
    assert "internal server error" + "\n" == "internal server error\n";
  }

  /** The two error pages, each of which names the node that made it. */
  lemma ErrorPages(id: string)
    ensures NotFoundPage(id).status == 404 && NotFoundPage(id).body == Ascii("unknown host\n")
    ensures InternalErrorPage(id).status == 500 && InternalErrorPage(id).body == Ascii("internal server error\n")
    ensures Values(NotFoundPage(id).fields, PopCacheNodeId) == Values(InternalErrorPage(id).fields, PopCacheNodeId) == [id]
  {
    Lines();
  }

  lemma SameFields(a: Response, b: Response)
    requires Strip(a) == Strip(b)
    ensures a.status == b.status && a.body == b.body
    ensures forall n :: n != XCache && n != PopCacheNodeId && n != ShieldNodeId ==> Values(a.fields, n) == Values(b.fields, n)
  {
    assert forall n :: n !in HOP_FIELDS ==> Values(Strip(a).fields, n) == Values(a.fields, n) && Values(Strip(b).fields, n) == Values(b.fields, n);
  }

  /** Serving adds one field to those of the object. */
  lemma ServedFields(id: string, o: Response)
    requires PopCacheNodeId !in o.fields
    ensures Served(id, o).fields == o.fields[PopCacheNodeId := [id]]
  {
    var w: Fields := map[PopCacheNodeId := [id]];
    forall n | n in Served(id, o).fields
      ensures Served(id, o).fields[n] == o.fields[PopCacheNodeId := [id]][n]
    {
      if n == PopCacheNodeId {
        assert [id] + [] == [id];
      } else {
        assert [] + Values(o.fields, n) == Values(o.fields, n);
      }
    }
  }

  /** Whatever an upstream sent, what a node serves names that node, once, and is marked once. */
  lemma ServedIsClean(id: string, o: Response)
    requires Cacheable(o)
    ensures Clean(Served(id, o), id) && Strip(Served(id, o)) == Strip(o)
  {
    ServedFields(id, o);
    assert Strip(Served(id, o)).fields == Strip(o).fields;
  }

  /** A second node that fetches from a first one stores what the first one stored. */
  lemma StoredAgain(id: string, o: Response)
    requires Cacheable(o)
    ensures Stored(Served(id, o)) == Stored(o) && Stored(Served(id, Hit(o))) == Stored(o)
  {
    ServedIsClean(id, o);
    HitDiffersOnlyInXCache(o);
    ServedIsClean(id, Hit(o));
  }
}
