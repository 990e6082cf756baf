// The response cache in front of the read-only routes
// (backend/middleware/cache.js): GET responses are looked up under a key
// built from the URL, successful ones are stored, and the admin handlers
// clear entries by pattern, by key or all at once. Entry lifetimes are not
// modelled: an entry stays until it is cleared.
module Cache {
  import opened Results
  import opened Strings

  /** A JSON response body, kept as its serialised text. */
  type Body = string

  /** The parts of a request the middleware reads: its method (`verb`), and `originalUrl`, `None` when unset. */
  datatype Request = Request(verb: string, originalUrl: Option<string>, url: string)

  datatype Response = Response(status: int, body: Body)

  const KeyPrefix: string := "__express__"

  /** `req.originalUrl || req.url`: the original URL unless it is missing or empty. */
  function RequestUrl(req: Request): string {
    if req.originalUrl.Some? && req.originalUrl.value != [] then req.originalUrl.value else req.url
  }

  function CacheKey(req: Request): (key: string)
    ensures |key| == |KeyPrefix| + |RequestUrl(req)|
    ensures key[..|KeyPrefix|] == KeyPrefix
  {
    KeyPrefix + RequestUrl(req)
  }

  /** Two requests share a cache entry exactly when they resolve to the same URL. */
  lemma CacheKeyInjective(a: Request, b: Request)
    ensures CacheKey(a) == CacheKey(b) <==> RequestUrl(a) == RequestUrl(b)
  {
    if CacheKey(a) == CacheKey(b) {
      assert RequestUrl(a) == CacheKey(a)[|KeyPrefix|..];
      assert RequestUrl(b) == CacheKey(b)[|KeyPrefix|..];
    }
  }

  /** What the middleware produced: the response sent, whether the route handler ran, and the cache afterwards. */
  datatype Served = Served(response: Response, handlerRan: bool, entries: map<string, Body>)

  /**
   * cacheMiddleware: a request other than GET goes straight to the handler
   * and the cache is neither read nor written; a GET whose key is cached is
   * answered from the cache without the handler; on a miss the handler's
   * response is sent and stored under the key only when its status is 200.
   * `handled` is what the route handler answers when it runs.
   */
  function Respond(entries: map<string, Body>, req: Request, handled: Response): (s: Served)
    ensures req.verb != "GET" ==> s == Served(handled, true, entries)
    ensures req.verb == "GET" && CacheKey(req) in entries ==>
      s == Served(Response(200, entries[CacheKey(req)]), false, entries)
    ensures req.verb == "GET" && CacheKey(req) !in entries ==>
      && s.response == handled && s.handlerRan
      && s.entries == if handled.status == 200 then entries[CacheKey(req) := handled.body] else entries
  {
    if req.verb != "GET" then Served(handled, true, entries)
    else
      var key := CacheKey(req);
      if key in entries then Served(Response(200, entries[key]), false, entries)
      else if handled.status == 200 then Served(handled, true, entries[key := handled.body])
      else Served(handled, true, entries)
  }

  /**
   * A successful GET is answered from the cache the next time, whatever the
   * handler would answer then: the handler does not run and the same body is
   * sent.
   */
  lemma RepeatedGetHits(entries: map<string, Body>, req: Request, first: Response, second: Response)
    requires req.verb == "GET" && first.status == 200
    ensures var s1 := Respond(entries, req, first);
      var s2 := Respond(s1.entries, req, second);
      && !s2.handlerRan && s2.entries == s1.entries
      && s2.response == Response(200, s1.response.body)
  {
  }

  /** Only GET requests with status-200 responses ever add or change an entry. */
  lemma OnlySuccessfulGetsStored(entries: map<string, Body>, req: Request, handled: Response)
    ensures var s := Respond(entries, req, handled);
      s.entries != entries ==>
        && req.verb == "GET" && handled.status == 200 && CacheKey(req) !in entries
        && s.entries == entries[CacheKey(req) := handled.body]
  {
  }

  /** The keys `clearCacheByPattern` deletes: those containing the pattern. */
  function MatchingKeys(entries: map<string, Body>, pattern: string): set<string> {
    set k | k in entries && Contains(k, pattern)
  }

  /** The shared cache. */
  class ResponseCache {
    var entries: map<string, Body>

    constructor ()
      ensures entries == map[]
    {
      entries := map[];
    }

    /** The middleware on one request, the route handler's answer given as `handled`. */
    method Serve(req: Request, handled: Response) returns (response: Response, handlerRan: bool)
      modifies this
      ensures Served(response, handlerRan, entries) == Respond(old(entries), req, handled)
    {
      if req.verb != "GET" {
        return handled, true;
      }
      var key := CacheKey(req);
      if key in entries {
        return Response(200, entries[key]), false;
      }
      if handled.status == 200 {
        entries := entries[key := handled.body];
      }
      return handled, true;
    }

    /**
     * clearCacheByPattern: the keys containing the pattern are collected,
     * then deleted one by one; every other entry stays, and the number of
     * collected keys is returned.
     */
    method ClearCacheByPattern(pattern: string) returns (count: nat)
      modifies this
      ensures count == |MatchingKeys(old(entries), pattern)|
      ensures forall k :: k in entries <==> k in old(entries) && !Contains(k, pattern)
      ensures forall k :: k in entries ==> entries[k] == old(entries)[k]
    {
      var matched := MatchingKeys(entries, pattern);
      count := |matched|;
      var remaining := matched;
      while remaining != {}
        invariant remaining <= matched
        invariant forall k :: k in entries <==> k in old(entries) && (k !in matched || k in remaining)
        invariant forall k :: k in entries ==> entries[k] == old(entries)[k]
        decreases |remaining|
      {
        var k :| k in remaining;
        entries := entries - {k};
        remaining := remaining - {k};
      }
    }

    /** clearCache: deletes one key and answers how many entries went (0 or 1). */
    method ClearCache(key: string) returns (deleted: nat)
      modifies this
      ensures deleted == if key in old(entries) then 1 else 0
      ensures key !in entries
      ensures forall k :: k != key ==> (k in entries <==> k in old(entries))
      ensures forall k :: k in entries ==> entries[k] == old(entries)[k]
    {
      deleted := if key in entries then 1 else 0;
      entries := entries - {key};
    }

    /** clearAllCache: the cache is left empty. */
    method ClearAllCache()
      modifies this
      ensures entries == map[]
    {
      entries := map[];
    }
  }

  /** After clearing by a pattern, no remaining key contains it, so no request whose key contains it can hit. */
  lemma ClearedPatternMisses(entries: map<string, Body>, pattern: string, req: Request, handled: Response)
    requires req.verb == "GET"
    requires Contains(CacheKey(req), pattern)
    requires forall k :: k in entries ==> !Contains(k, pattern)
    ensures Respond(entries, req, handled).handlerRan
  {
  }
}
