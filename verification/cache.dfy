/**
 * The response cache middleware (src/api/cache.rs): a lifetime chosen from
 * the request path, a lookup keyed by the request URI, and on a miss the
 * handler's successful body stored as text.
 *
 * The cache is a map from key to stored body. Expiry and eviction belong to
 * the cache library; `Evict` stands for both: any entries may disappear
 * between requests, and nothing else changes them.
 */
module Cache {
  import opened Wrappers
  import opened Text
  import opened Utf8
  import opened Http

  /** The request target in origin form: a path and an optional query string. */
  datatype Uri = Uri(path: string, query: Option<string>)

  type Store = map<string, string>

  /** `Duration::MAX.as_secs()`, which is `u64::MAX`. */
  const Forever: nat := 18446744073709551615

  const HealthSeconds: nat := 600
  const FoodSeconds: nat := 28800
  const DefaultSeconds: nat := 3600

  /** `uri.to_string()`: the path, then `?` and the query when there is one. */
  function Key(u: Uri): string {
    match u.query
    case None => u.path
    case Some(q) => u.path + "?" + q
  }

  /**
   * The lifetime of a cached response, in seconds, by path. The arms are
   * tried in order, so "/api/foods" is static although it starts with
   * "/api/food".
   */
  function TtlSeconds(path: string): (r: nat)
    ensures r == Forever <==> path == "/api" || path == "/api/foods"
    ensures r == HealthSeconds <==> path == "/api/health"
    ensures r == FoodSeconds <==> path != "/api/foods" && IsPrefix("/api/food", path)
    ensures r == DefaultSeconds <==>
      path != "/api" && path != "/api/health" && !IsPrefix("/api/food", path)
  {
    if path == "/api" || path == "/api/foods" then Forever
    else if path == "/api/health" then
      assert path[5] != "/api/food"[5];
      HealthSeconds
    else if IsPrefix("/api/food", path) then FoodSeconds
    else DefaultSeconds
  }

  /** The `Cache-Control` value sent with every response the middleware builds. */
  function CacheControlValue(ttl: nat): string {
    "public, max-age=" + NatToString(ttl)
  }

  /** The response built from a body text: 200, JSON, with the lifetime header. */
  function Cached(body: string, ttl: nat): (r: Response)
    ensures r.status == StatusOk && IsJson(r) && r.body == Encode(body)
    ensures CacheControl in r.headers && r.headers[CacheControl] == CacheControlValue(ttl)
  {
    Response(StatusOk, map[ContentType := ApplicationJson, CacheControl := CacheControlValue(ttl)], Encode(body))
  }

  /** What one pass through the middleware leaves: the cache, and the response or the bare error status. */
  datatype Outcome = Outcome(cache: Store, response: Result<Response, nat>)

  /**
   * `cache_middleware`. A hit answers from the cache. On a miss the handler
   * runs; anything but 200 passes through untouched and uncached; a 200
   * whose body stream fails while it is collected (`readFails`, which the
   * model cannot observe) or whose body is not UTF-8 fails with 500; any
   * other 200 is stored under the request's key and answered with a fresh
   * response around the same bytes (the handler's own headers are not kept).
   */
  function Middleware(cache: Store, u: Uri, handler: Uri -> Response, readFails: bool): (o: Outcome)
    ensures Key(u) in cache ==>
      o == Outcome(cache, Ok(Cached(cache[Key(u)], TtlSeconds(u.path))))
    ensures Key(u) !in cache && handler(u).status != StatusOk ==> o == Outcome(cache, Ok(handler(u)))
    ensures Key(u) !in cache && handler(u).status == StatusOk && readFails ==>
      o == Outcome(cache, Err(InternalServerError))
    ensures Key(u) !in cache && handler(u).status == StatusOk && Decode(handler(u).body).None? ==>
      o == Outcome(cache, Err(InternalServerError))
    ensures Key(u) !in cache && handler(u).status == StatusOk && !readFails && Decode(handler(u).body).Some? ==>
      && o.response.Ok?
      && o.response.value.status == StatusOk
      && o.response.value.body == handler(u).body
      && CacheControl in o.response.value.headers
      && o.response.value.headers[CacheControl] == CacheControlValue(TtlSeconds(u.path))
      && IsJson(o.response.value)
      && o.cache == cache[Key(u) := Decode(handler(u).body).value]
  {
    var key := Key(u);
    var ttl := TtlSeconds(u.path);
    if key in cache then Outcome(cache, Ok(Cached(cache[key], ttl)))
    else
      var response := handler(u);
      if response.status != StatusOk then Outcome(cache, Ok(response))
      else if readFails then Outcome(cache, Err(InternalServerError))
      else match Decode(response.body)
        case None => Outcome(cache, Err(InternalServerError))
        case Some(text) =>
          EncodeDecode(response.body);
          Outcome(cache[key := text], Ok(Cached(text, ttl)))
  }

  /** Expiry or eviction by the cache library: the given keys are gone, the rest untouched. */
  function Evict(cache: Store, keys: set<string>): (r: Store)
    ensures forall k :: k in r <==> k in cache && k !in keys
    ensures forall k :: k in r ==> r[k] == cache[k]
  {
    cache - keys
  }

  /** A key starts with the path and, when there is a query, has `?` right after it. */
  lemma KeyLayout(u: Uri, i: nat)
    requires i <= |u.path|
    ensures i < |u.path| ==> i < |Key(u)| && Key(u)[i] == u.path[i]
    ensures i == |u.path| && u.query.Some? ==> i < |Key(u)| && Key(u)[i] == '?'
  {
  }

  /** Keys tell requests apart whenever paths do not themselves contain `?`. */
  lemma KeyInjective(u: Uri, v: Uri)
    requires '?' !in u.path && '?' !in v.path
    ensures Key(u) == Key(v) <==> u == v
  {
    if Key(u) == Key(v) {
      match (u.query, v.query)
      case (None, None) =>
      case (Some(q), None) =>
        assert false;
      case (None, Some(q)) =>
        assert false;
      case (Some(q1), Some(q2)) =>
        if |u.path| < |v.path| {
          KeyLayout(u, |u.path|);
          KeyLayout(v, |u.path|);
          assert false;
        } else if |v.path| < |u.path| {
          KeyLayout(v, |v.path|);
          KeyLayout(u, |v.path|);
          assert false;
        } else {
          assert u.path == Key(u)[..|u.path|];
          assert v.path == Key(v)[..|v.path|];
          assert q1 == Key(u)[|u.path| + 1..];
          assert q2 == Key(v)[|v.path| + 1..];
        }
    }
  }

  /** Only the request's own entry can change. */
  lemma MiddlewareTouchesOneKey(cache: Store, u: Uri, handler: Uri -> Response, readFails: bool, k: string)
    requires k != Key(u)
    ensures var o := Middleware(cache, u, handler, readFails);
      (k in o.cache <==> k in cache) && (k in cache ==> o.cache[k] == cache[k])
  {
  }

  /**
   * The cache is transparent to a handler that answers the same way every
   * time: after a stored miss, asking again gives the same response and
   * leaves the cache as it was. The second request never reads a body, so
   * whether that read would fail does not matter.
   */
  lemma HitRepeatsMiss(cache: Store, u: Uri, handler: Uri -> Response, readFails: bool)
    requires Key(u) !in cache && handler(u).status == StatusOk && Decode(handler(u).body).Some?
    ensures var first := Middleware(cache, u, handler, false);
      var second := Middleware(first.cache, u, handler, readFails);
      second == first
  {
  }

  /** After its entry is evicted, a request is served by the handler again and the entry comes back. */
  lemma EvictedEntryReturns(cache: Store, u: Uri, handler: Uri -> Response, keys: set<string>)
    requires Key(u) !in cache && handler(u).status == StatusOk && Decode(handler(u).body).Some?
    requires Key(u) in keys
    ensures var first := Middleware(cache, u, handler, false);
      var again := Middleware(Evict(first.cache, keys), u, handler, false);
      again.response == first.response && again.cache == Evict(first.cache, keys)[Key(u) := first.cache[Key(u)]]
  {
  }

  /** An error response is never stored, so the handler is asked again next time. */
  lemma ErrorsAreNotCached(cache: Store, u: Uri, handler: Uri -> Response, readFails: bool)
    requires Key(u) !in cache && handler(u).status != StatusOk
    ensures Key(u) !in Middleware(cache, u, handler, readFails).cache
  {
  }

  /** A body that cannot be collected is answered with 500 and never stored, so the next request runs the handler again. */
  lemma FailedReadRetried(cache: Store, u: Uri, handler: Uri -> Response)
    requires Key(u) !in cache && handler(u).status == StatusOk && Decode(handler(u).body).Some?
    ensures var first := Middleware(cache, u, handler, true);
      && first == Outcome(cache, Err(InternalServerError))
      && Middleware(first.cache, u, handler, false) == Middleware(cache, u, handler, false)
      && Middleware(first.cache, u, handler, false).response.Ok?
  {
  }

  /** The lifetimes of the routes the API serves. */
  lemma TtlExamples(api: string, foods: string, list: string, health: string, slug: string, other: string)
    requires api == "/api" && foods == "/api/foods" && list == "/api/foods/list"
    requires health == "/api/health" && slug == "/api/food/elma" && other == "/api/status"
    ensures TtlSeconds(api) == Forever && TtlSeconds(foods) == Forever
    ensures TtlSeconds(list) == FoodSeconds && TtlSeconds(slug) == FoodSeconds
    ensures TtlSeconds(health) == HealthSeconds && TtlSeconds(other) == DefaultSeconds
  {
    assert IsPrefix("/api/food", list);
    assert IsPrefix("/api/food", slug);
    assert other[8] != "/api/food"[8];
  }
}
