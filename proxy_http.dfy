/**
 * What the two revisions of the proxy worker share: the request and
 * response shapes they see, the host allow-list, the 2xx test and the
 * force-refresh test. `new URL(...)` is a parameter of the handlers, a
 * target URL being its protocol, hostname and serialisation.
 */
module ProxyHttp {
  import opened Common

  /** The parts of an incoming request the worker reads. */
  datatype Request = Request(
    verb: string,                   // `request.method`
    urlParam: Option<string>,       // `url.searchParams.get("url")`
    origin: Option<string>,         // the `Origin` header
    cacheControl: Option<string>)   // the `Cache-Control` header

  /** A parsed target URL. */
  datatype TargetUrl = TargetUrl(protocol: string, hostname: string, href: string)

  /** What `fetch(target)` returned. */
  datatype Upstream = Upstream(status: int, contentType: Option<string>, body: string)

  /** The three CORS headers. */
  datatype CorsHeaders = CorsHeaders(allowOrigin: string, allowMethods: string, allowHeaders: string)

  /** A response body: none, the JSON error object `{ error: message }`, or text. */
  datatype Body = NoBody | ErrorJson(message: string) | Text(text: string)

  datatype Headers = Headers(
    contentType: Option<string>,
    cacheControl: Option<string>,
    cachedAt: Option<string>,       // `X-Cached-At`
    cors: CorsHeaders)

  datatype Response = Response(status: int, body: Body, headers: Headers)

  /** How a request ends: the response, and the entry put in the edge cache, if any. */
  datatype Outcome = Outcome(response: Response, stored: Option<Response>)

  /** `ALLOWED_HOSTS` (workers/index.js:14-17, cloudflare-worker.js:14-17). */
  const AllowedHosts: set<string> := {"airbusdriver.net", "www.airbusdriver.net"}

  /** `response.ok`. */
  predicate IsOk(status: int) {
    200 <= status <= 299
  }

  /** A client asks to bypass the cache with exactly `no-cache` or `no-store`. */
  predicate ForceRefresh(cacheControl: Option<string>) {
    cacheControl == Some("no-cache") || cacheControl == Some("no-store")
  }

  /** `!targetUrl`: the parameter is absent or empty. */
  predicate MissingParam(urlParam: Option<string>) {
    urlParam.None? || urlParam.value == ""
  }

  /** `upstream.headers.get("Content-Type") || "text/html"`. */
  function ContentTypeOf(upstream: Upstream): string {
    match upstream.contentType
    case Some(t) => if t == "" then "text/html" else t
    case None => "text/html"
  }

  /** The `Cache-Control` header the worker puts on a fetched response. */
  function CacheControlFor(status: int): string {
    if IsOk(status) then "public, max-age=86400" else "no-cache, no-store"
  }

  /** The cache key: the target's serialisation. */
  function CacheKeyOf(target: TargetUrl): string {
    target.href
  }

  /** A cached response served again, its CORS headers replaced by `cors`. */
  function Revalidated(cached: Response, cors: CorsHeaders): (r: Response)
    ensures r.status == cached.status && r.body == cached.body && r.headers.cors == cors
  {
    cached.(headers := cached.headers.(cors := cors))
  }
}
