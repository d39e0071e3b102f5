/**
 * The proxy worker's request handler (workers/index.js): CORS restricted
 * to an origin allow-list, validation of the target URL in a fixed order,
 * client-requested cache bypass, a content check of the upstream page, and
 * storage of successful responses in the edge cache.
 */
module WorkerGate {
  import opened Common
  import opened Text
  import opened ProxyHttp

  /** `ALLOWED_ORIGINS`; the first is the fallback. */
  const AllowedOrigins: seq<string> := [
    "https://taylorjason.github.io",
    "http://localhost:8000",
    "http://127.0.0.1:8000",
    "http://localhost:3000"
  ]

  /** The text a genuine upstream page contains. */
  const PageMarker: string := "Your CQ Line Pilot Comments"

  /**
   * `buildCorsHeaders(origin)`: an allowed origin is echoed, any other gets
   * the first allowed origin, so the header never names an unlisted origin.
   */
  function BuildCorsHeaders(origin: string): (r: CorsHeaders)
    ensures origin in AllowedOrigins ==> r.allowOrigin == origin
    ensures origin !in AllowedOrigins ==> r.allowOrigin == AllowedOrigins[0]
    ensures r.allowOrigin in AllowedOrigins
    ensures r.allowMethods == "GET, HEAD, OPTIONS" && r.allowHeaders == "Content-Type, Cache-Control"
  {
    CorsHeaders(if origin in AllowedOrigins then origin else AllowedOrigins[0],
      "GET, HEAD, OPTIONS", "Content-Type, Cache-Control")
  }

  /** `request.headers.get("Origin") || ""`. */
  function OriginOf(req: Request): string {
    match req.origin
    case Some(o) => o
    case None => ""
  }

  /** `errorResponse(message, status, origin)`. */
  function ErrorResponse(message: string, status: int, origin: string): Response {
    Response(status, ErrorJson(message), Headers(Some("application/json"), None, None, BuildCorsHeaders(origin)))
  }

  /** Where the checks before any cache or network access leave a request. */
  datatype Admission =
    | Preflight
    | Rejected(status: int, message: string)
    | Admitted(target: TargetUrl)

  /** The checks of workers/index.js:54-86, in their order. */
  function Admit(req: Request, parseUrl: string -> Option<TargetUrl>): Admission {
    if req.verb == "OPTIONS" then Preflight
    else if MissingParam(req.urlParam) then
      Rejected(400, "Missing required ?url= query parameter.")
    else
      match parseUrl(req.urlParam.value)
      case None => Rejected(400, "Invalid target URL: " + req.urlParam.value)
      case Some(target) =>
        if target.protocol != "http:" && target.protocol != "https:" then
          Rejected(400, "Invalid protocol: " + target.protocol + ". Only HTTP and HTTPS are allowed.")
        else if target.hostname !in AllowedHosts then
          Rejected(403, "Target host not allowed: " + target.hostname + ". Update ALLOWED_HOSTS in the worker.")
        else Admitted(target)
  }

  /**
   * The response to a fetched upstream page (workers/index.js:118-158): a
   * 2xx page without the marker is a 502 error; otherwise the upstream
   * status and body are passed on and 2xx responses are stored.
   */
  function FromUpstream(upstream: Upstream, origin: string, cachedAt: string): Outcome {
    if IsOk(upstream.status) && !Contains(upstream.body, PageMarker) then
      Outcome(ErrorResponse("Invalid response from origin server", 502, origin), None)
    else
      var response := Response(upstream.status, Text(upstream.body),
        Headers(Some(ContentTypeOf(upstream)), Some(CacheControlFor(upstream.status)), Some(cachedAt), BuildCorsHeaders(origin)));
      Outcome(response, if IsOk(upstream.status) then Some(response) else None)
  }

  /**
   * The whole handler: `cache` is the edge cache's content by key,
   * `upstream` what the network returns when it is asked, `cachedAt` the
   * `X-Cached-At` timestamp text.
   */
  function Handle(req: Request, parseUrl: string -> Option<TargetUrl>, cache: map<string, Response>,
                  upstream: Upstream, cachedAt: string): Outcome
  {
    var origin := OriginOf(req);
    match Admit(req, parseUrl)
    case Preflight => Outcome(Response(204, NoBody, Headers(None, None, None, BuildCorsHeaders(origin))), None)
    case Rejected(status, message) => Outcome(ErrorResponse(message, status, origin), None)
    case Admitted(target) =>
      var key := CacheKeyOf(target);
      if !ForceRefresh(req.cacheControl) && key in cache then
        Outcome(Revalidated(cache[key], BuildCorsHeaders(origin)), None)
      else FromUpstream(upstream, origin, cachedAt)
  }

  // ---------------------------------------------------------------------
  // Properties
  // ---------------------------------------------------------------------

  /** A preflight request gets 204 with the CORS headers before any URL validation, and nothing is stored. */
  lemma PreflightFirst(req: Request, parseUrl: string -> Option<TargetUrl>, cache: map<string, Response>, upstream: Upstream, cachedAt: string)
    requires req.verb == "OPTIONS"
    ensures var out := Handle(req, parseUrl, cache, upstream, cachedAt);
      && out.response.status == 204
      && out.response.body == NoBody
      && out.response.headers.cors == BuildCorsHeaders(OriginOf(req))
      && out.stored.None?
  {
  }

  /**
   * The validation order: a missing parameter, an unparseable URL or a
   * non-HTTP(S) protocol gives 400 and a host outside the allow-list 403,
   * each check only reached when the earlier ones passed.
   */
  lemma RejectionOrder(req: Request, parseUrl: string -> Option<TargetUrl>)
    requires req.verb != "OPTIONS"
    ensures MissingParam(req.urlParam) ==> Admit(req, parseUrl).Rejected? && Admit(req, parseUrl).status == 400
    ensures !MissingParam(req.urlParam) && parseUrl(req.urlParam.value).None? ==>
      Admit(req, parseUrl).Rejected? && Admit(req, parseUrl).status == 400
    ensures !MissingParam(req.urlParam) && parseUrl(req.urlParam.value).Some? ==>
      var t := parseUrl(req.urlParam.value).value;
      && (t.protocol != "http:" && t.protocol != "https:" ==> Admit(req, parseUrl) == Rejected(400, "Invalid protocol: " + t.protocol + ". Only HTTP and HTTPS are allowed."))
      && ((t.protocol == "http:" || t.protocol == "https:") && t.hostname !in AllowedHosts ==> Admit(req, parseUrl).Rejected? && Admit(req, parseUrl).status == 403)
  {
  }

  /** Exactly the non-preflight requests naming a parseable HTTP(S) URL on an allowed host are admitted. */
  lemma AdmittedIff(req: Request, parseUrl: string -> Option<TargetUrl>, target: TargetUrl)
    ensures Admit(req, parseUrl) == Admitted(target) <==>
      && req.verb != "OPTIONS"
      && !MissingParam(req.urlParam)
      && parseUrl(req.urlParam.value) == Some(target)
      && (target.protocol == "http:" || target.protocol == "https:")
      && target.hostname in AllowedHosts
  {
  }

  /** A forced refresh never consults the cache: the outcome is the same whatever the cache holds. */
  lemma ForcedIgnoresCache(req: Request, parseUrl: string -> Option<TargetUrl>, cache1: map<string, Response>,
                           cache2: map<string, Response>, upstream: Upstream, cachedAt: string)
    requires ForceRefresh(req.cacheControl)
    ensures Handle(req, parseUrl, cache1, upstream, cachedAt) == Handle(req, parseUrl, cache2, upstream, cachedAt)
  {
  }

  /** Without a forced refresh, a cache hit is served with fresh CORS headers and the network is not asked. */
  lemma CacheHitServed(req: Request, parseUrl: string -> Option<TargetUrl>, cache: map<string, Response>,
                       upstream1: Upstream, upstream2: Upstream, cachedAt: string, target: TargetUrl)
    requires Admit(req, parseUrl) == Admitted(target)
    requires !ForceRefresh(req.cacheControl) && CacheKeyOf(target) in cache
    ensures var out := Handle(req, parseUrl, cache, upstream1, cachedAt);
      && out == Handle(req, parseUrl, cache, upstream2, cachedAt)
      && out.response.status == cache[CacheKeyOf(target)].status
      && out.response.body == cache[CacheKeyOf(target)].body
      && out.response.headers.cors == BuildCorsHeaders(OriginOf(req))
      && out.stored.None?
  {
  }

  /**
   * On the fetch path: a 2xx page lacking the marker gives 502 and is not
   * stored; otherwise the status is passed through, the response is stored
   * exactly when it is 2xx, and its `Cache-Control` says so.
   */
  lemma FetchPath(req: Request, parseUrl: string -> Option<TargetUrl>, cache: map<string, Response>,
                  upstream: Upstream, cachedAt: string, target: TargetUrl)
    requires Admit(req, parseUrl) == Admitted(target)
    requires ForceRefresh(req.cacheControl) || CacheKeyOf(target) !in cache
    ensures var out := Handle(req, parseUrl, cache, upstream, cachedAt);
      && (IsOk(upstream.status) && !Contains(upstream.body, PageMarker) ==>
            out.response.status == 502 && out.stored.None?)
      && (!IsOk(upstream.status) || Contains(upstream.body, PageMarker) ==>
            && out.response.status == upstream.status
            && out.response.body == Text(upstream.body)
            && (out.stored.Some? <==> IsOk(upstream.status))
            && out.response.headers.cacheControl ==
                 Some(if IsOk(upstream.status) then "public, max-age=86400" else "no-cache, no-store"))
  {
  }

  /**
   * The `Access-Control-Allow-Origin` a request gets: its `Origin` header
   * when that is on the allow-list, the first allowed origin when it is
   * absent or not listed.
   */
  lemma CorsOriginOfRequest(req: Request)
    ensures BuildCorsHeaders(OriginOf(req)).allowOrigin ==
      if req.origin.Some? && req.origin.value in AllowedOrigins then req.origin.value else AllowedOrigins[0]
  {
  }

  /**
   * A rejected request gets the JSON error object with its status,
   * `Content-Type: application/json`, no `Cache-Control`, the CORS headers
   * of the request's origin, and nothing stored.
   */
  lemma ErrorsAreJson(req: Request, parseUrl: string -> Option<TargetUrl>, cache: map<string, Response>,
                      upstream: Upstream, cachedAt: string)
    requires Admit(req, parseUrl).Rejected?
    ensures var out := Handle(req, parseUrl, cache, upstream, cachedAt);
      && out.response.status == Admit(req, parseUrl).status
      && out.response.body == ErrorJson(Admit(req, parseUrl).message)
      && out.response.headers.contentType == Some("application/json")
      && out.response.headers.cacheControl.None?
      && out.response.headers.cors == BuildCorsHeaders(OriginOf(req))
      && out.stored.None?
  {
  }

  /**
   * An admitted request whose fetched 2xx page lacks the marker gets the
   * JSON error object with status 502 and `Content-Type:
   * application/json`, and nothing is stored.
   */
  lemma InvalidPageIsJson(req: Request, parseUrl: string -> Option<TargetUrl>, cache: map<string, Response>,
                          upstream: Upstream, cachedAt: string, target: TargetUrl)
    requires Admit(req, parseUrl) == Admitted(target)
    requires ForceRefresh(req.cacheControl) || CacheKeyOf(target) !in cache
    requires IsOk(upstream.status) && !Contains(upstream.body, PageMarker)
    ensures var out := Handle(req, parseUrl, cache, upstream, cachedAt);
      && out.response.status == 502
      && out.response.body == ErrorJson("Invalid response from origin server")
      && out.response.headers.contentType == Some("application/json")
      && out.response.headers.cors == BuildCorsHeaders(OriginOf(req))
      && out.stored.None?
  {
  }

  /**
   * A fetched page passed on keeps the upstream `Content-Type`, or gets
   * `text/html` when the upstream sent none or an empty one.
   */
  lemma FetchedContentType(req: Request, parseUrl: string -> Option<TargetUrl>, cache: map<string, Response>,
                           upstream: Upstream, cachedAt: string, target: TargetUrl)
    requires Admit(req, parseUrl) == Admitted(target)
    requires ForceRefresh(req.cacheControl) || CacheKeyOf(target) !in cache
    requires !IsOk(upstream.status) || Contains(upstream.body, PageMarker)
    ensures Handle(req, parseUrl, cache, upstream, cachedAt).response.headers.contentType ==
      Some(if upstream.contentType.Some? && upstream.contentType.value != "" then upstream.contentType.value else "text/html")
  {
  }

  /** Whatever is stored is a 2xx response carrying the page marker, marked cacheable for a day. */
  lemma StoredIsGenuine(req: Request, parseUrl: string -> Option<TargetUrl>, cache: map<string, Response>,
                        upstream: Upstream, cachedAt: string)
    requires Handle(req, parseUrl, cache, upstream, cachedAt).stored.Some?
    ensures var s := Handle(req, parseUrl, cache, upstream, cachedAt).stored.value;
      && IsOk(s.status)
      && s.body == Text(upstream.body) && Contains(upstream.body, PageMarker)
      && s.headers.cacheControl == Some("public, max-age=86400")
      && s == Handle(req, parseUrl, cache, upstream, cachedAt).response
  {
  }

  // ---------------------------------------------------------------------
  // The edge cache
  // ---------------------------------------------------------------------

  /** `caches.default`: responses by cache key. */
  class EdgeCache {
    var entries: map<string, Response>

    constructor()
      ensures entries == map[]
    {
      entries := map[];
    }

    /** `fetch(request)`: answer the request, putting a stored response under the target's key. */
    method Serve(req: Request, parseUrl: string -> Option<TargetUrl>, upstream: Upstream, cachedAt: string)
      returns (response: Response)
      modifies this
      ensures response == Handle(req, parseUrl, old(entries), upstream, cachedAt).response
      ensures Handle(req, parseUrl, old(entries), upstream, cachedAt).stored.Some? ==>
        && Admit(req, parseUrl).Admitted?
        && entries == old(entries)[CacheKeyOf(Admit(req, parseUrl).target) := response]
      ensures Handle(req, parseUrl, old(entries), upstream, cachedAt).stored.None? ==> entries == old(entries)
    {
      var outcome := Handle(req, parseUrl, entries, upstream, cachedAt);
      response := outcome.response;
      if outcome.stored.Some? {
        var target := Admit(req, parseUrl).target;
        entries := entries[CacheKeyOf(target) := outcome.stored.value];
      }
    }
  }
}
