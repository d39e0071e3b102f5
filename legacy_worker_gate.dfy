/**
 * The earlier revision of the proxy worker (cloudflare-worker.js): the
 * same host allow-list and cache bypass, but a wildcard CORS origin, no
 * protocol check and no content check of the upstream page.
 */
module LegacyWorkerGate {
  import opened Common
  import opened ProxyHttp
  import WorkerGate

  /** `buildCorsHeaders()`: every origin is allowed. */
  function BuildCorsHeaders(): (r: CorsHeaders)
    ensures r.allowOrigin == "*"
    ensures r.allowMethods == "GET, HEAD, OPTIONS" && r.allowHeaders == "Content-Type"
  {
    CorsHeaders("*", "GET, HEAD, OPTIONS", "Content-Type")
  }

  /** `errorResponse(message, status)`. */
  function ErrorResponse(message: string, status: int): Response {
    Response(status, ErrorJson(message), Headers(Some("application/json"), None, None, BuildCorsHeaders()))
  }

  /** The checks of cloudflare-worker.js:39-65, in their order; there is no protocol check. */
  function Admit(req: Request, parseUrl: string -> Option<TargetUrl>): WorkerGate.Admission {
    if req.verb == "OPTIONS" then WorkerGate.Preflight
    else if MissingParam(req.urlParam) then
      WorkerGate.Rejected(400, "Missing required ?url= query parameter.")
    else
      match parseUrl(req.urlParam.value)
      case None => WorkerGate.Rejected(400, "Invalid target URL: " + req.urlParam.value)
      case Some(target) =>
        if target.hostname !in AllowedHosts then
          WorkerGate.Rejected(403, "Target host not allowed: " + target.hostname + ". Update ALLOWED_HOSTS in the worker.")
        else WorkerGate.Admitted(target)
  }

  /** The response to a fetched upstream page (cloudflare-worker.js:97-131): passed on, stored when 2xx. */
  function FromUpstream(upstream: Upstream, cachedAt: string): Outcome {
    var response := Response(upstream.status, Text(upstream.body),
      Headers(Some(ContentTypeOf(upstream)), Some(CacheControlFor(upstream.status)), Some(cachedAt), BuildCorsHeaders()));
    Outcome(response, if IsOk(upstream.status) then Some(response) else None)
  }

  /** The whole handler, with the same inputs as the later revision's. */
  function Handle(req: Request, parseUrl: string -> Option<TargetUrl>, cache: map<string, Response>,
                  upstream: Upstream, cachedAt: string): Outcome
  {
    match Admit(req, parseUrl)
    case Preflight => Outcome(Response(204, NoBody, Headers(None, None, None, BuildCorsHeaders())), None)
    case Rejected(status, message) => Outcome(ErrorResponse(message, status), None)
    case Admitted(target) =>
      var key := CacheKeyOf(target);
      if !ForceRefresh(req.cacheControl) && key in cache then
        Outcome(Revalidated(cache[key], BuildCorsHeaders()), None)
      else FromUpstream(upstream, cachedAt)
  }

  // ---------------------------------------------------------------------
  // Properties
  // ---------------------------------------------------------------------

  /** A preflight request gets 204 with the CORS headers, and nothing is stored. */
  lemma PreflightFirst(req: Request, parseUrl: string -> Option<TargetUrl>, cache: map<string, Response>, upstream: Upstream, cachedAt: string)
    requires req.verb == "OPTIONS"
    ensures var out := Handle(req, parseUrl, cache, upstream, cachedAt);
      out.response.status == 204 && out.response.body == NoBody && out.response.headers.cors == BuildCorsHeaders() && out.stored.None?
  {
  }

  /** Every response, whatever the request, allows any origin. */
  lemma WildcardOrigin(req: Request, parseUrl: string -> Option<TargetUrl>, cache: map<string, Response>, upstream: Upstream, cachedAt: string)
    ensures Handle(req, parseUrl, cache, upstream, cachedAt).response.headers.cors.allowOrigin == "*"
  {
  }

  /**
   * Exactly the non-preflight requests naming a parseable URL on an allowed
   * host are admitted; the scheme is never looked at.
   */
  lemma AdmittedIff(req: Request, parseUrl: string -> Option<TargetUrl>, target: TargetUrl)
    ensures Admit(req, parseUrl) == WorkerGate.Admitted(target) <==>
      && req.verb != "OPTIONS"
      && !MissingParam(req.urlParam)
      && parseUrl(req.urlParam.value) == Some(target)
      && target.hostname in AllowedHosts
  {
  }

  /** A forced refresh never consults the cache. */
  lemma ForcedIgnoresCache(req: Request, parseUrl: string -> Option<TargetUrl>, cache1: map<string, Response>,
                           cache2: map<string, Response>, upstream: Upstream, cachedAt: string)
    requires ForceRefresh(req.cacheControl)
    ensures Handle(req, parseUrl, cache1, upstream, cachedAt) == Handle(req, parseUrl, cache2, upstream, cachedAt)
  {
  }

  /** Without a forced refresh, a cache hit is served and nothing is stored. */
  lemma CacheHitServed(req: Request, parseUrl: string -> Option<TargetUrl>, cache: map<string, Response>,
                       upstream: Upstream, cachedAt: string, target: TargetUrl)
    requires Admit(req, parseUrl) == WorkerGate.Admitted(target)
    requires !ForceRefresh(req.cacheControl) && CacheKeyOf(target) in cache
    ensures var out := Handle(req, parseUrl, cache, upstream, cachedAt);
      && out.response.status == cache[CacheKeyOf(target)].status
      && out.response.body == cache[CacheKeyOf(target)].body
      && out.stored.None?
  {
  }

  /**
   * On the fetch path the status is always the upstream status, any 2xx
   * body is stored without looking at it, and non-2xx responses are never
   * stored and say `no-cache, no-store`.
   */
  lemma FetchPath(req: Request, parseUrl: string -> Option<TargetUrl>, cache: map<string, Response>,
                  upstream: Upstream, cachedAt: string, target: TargetUrl)
    requires Admit(req, parseUrl) == WorkerGate.Admitted(target)
    requires ForceRefresh(req.cacheControl) || CacheKeyOf(target) !in cache
    ensures var out := Handle(req, parseUrl, cache, upstream, cachedAt);
      && out.response.status == upstream.status
      && out.response.body == Text(upstream.body)
      && (out.stored.Some? <==> IsOk(upstream.status))
      && (!IsOk(upstream.status) ==> out.response.headers.cacheControl == Some("no-cache, no-store"))
  {
  }

  /**
   * A rejected request gets the JSON error object with its status,
   * `Content-Type: application/json`, no `Cache-Control`, the wildcard
   * CORS headers, and nothing stored.
   */
  lemma ErrorsAreJson(req: Request, parseUrl: string -> Option<TargetUrl>, cache: map<string, Response>,
                      upstream: Upstream, cachedAt: string)
    requires Admit(req, parseUrl).Rejected?
    ensures var out := Handle(req, parseUrl, cache, upstream, cachedAt);
      && out.response.status == Admit(req, parseUrl).status
      && out.response.body == ErrorJson(Admit(req, parseUrl).message)
      && out.response.headers.contentType == Some("application/json")
      && out.response.headers.cacheControl.None?
      && out.response.headers.cors == BuildCorsHeaders()
      && out.stored.None?
  {
  }

  // ---------------------------------------------------------------------
  // The two revisions compared
  // ---------------------------------------------------------------------

  /**
   * The later revision admits only what this one admits, and the two
   * differ exactly on targets whose protocol is neither `http:` nor
   * `https:`; for those the later revision answers 400. Preflights and the
   * two 400 checks of this revision are common to both.
   */
  lemma LaterRevisionNarrowsAdmission(req: Request, parseUrl: string -> Option<TargetUrl>)
    ensures WorkerGate.Admit(req, parseUrl).Admitted? ==> Admit(req, parseUrl) == WorkerGate.Admit(req, parseUrl)
    ensures Admit(req, parseUrl).Admitted? && !WorkerGate.Admit(req, parseUrl).Admitted? ==>
      && Admit(req, parseUrl).target.protocol != "http:" && Admit(req, parseUrl).target.protocol != "https:"
      && WorkerGate.Admit(req, parseUrl).Rejected? && WorkerGate.Admit(req, parseUrl).status == 400
    ensures Admit(req, parseUrl).Preflight? <==> WorkerGate.Admit(req, parseUrl).Preflight?
    ensures Admit(req, parseUrl).Rejected? && Admit(req, parseUrl).status == 400 ==>
      Admit(req, parseUrl) == WorkerGate.Admit(req, parseUrl)
  {
  }

  /** For instance, an `ftp:` URL on an allowed host passes this revision's gate and fails the later one's. */
  lemma FtpTargetAdmitted(req: Request, parseUrl: string -> Option<TargetUrl>)
    requires req.verb == "GET" && req.urlParam == Some("ftp://airbusdriver.net/x")
    requires parseUrl("ftp://airbusdriver.net/x") == Some(TargetUrl("ftp:", "airbusdriver.net", "ftp://airbusdriver.net/x"))
    ensures Admit(req, parseUrl).Admitted?
    ensures WorkerGate.Admit(req, parseUrl).Rejected?
  {
  }

  /** `caches.default` as the earlier revision uses it. */
  class EdgeCache {
    var entries: map<string, Response>

    constructor()
      ensures entries == map[]
    {
      entries := map[];
    }

    /** `fetch(request)`: answer the request, putting a stored response under the target's key. */
    method Serve(req: Request, parseUrl: string -> Option<TargetUrl>, upstream: Upstream, cachedAt: string)
      returns (response: Response)
      modifies this
      ensures response == Handle(req, parseUrl, old(entries), upstream, cachedAt).response
      ensures Handle(req, parseUrl, old(entries), upstream, cachedAt).stored.Some? ==>
        && Admit(req, parseUrl).Admitted?
        && entries == old(entries)[CacheKeyOf(Admit(req, parseUrl).target) := response]
      ensures Handle(req, parseUrl, old(entries), upstream, cachedAt).stored.None? ==> entries == old(entries)
    {
      var outcome := Handle(req, parseUrl, entries, upstream, cachedAt);
      response := outcome.response;
      if outcome.stored.Some? {
        var target := Admit(req, parseUrl).target;
        entries := entries[CacheKeyOf(target) := outcome.stored.value];
      }
    }
  }
}
