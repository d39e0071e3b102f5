/**
 * `buildProxyUrl` (app.js:784-793): the URL the application fetches through
 * the proxy worker. `encodeURIComponent` is a parameter.
 */
module ProxyUrl {
  import opened Common
  import opened Text

  /** The text placed between the proxy base and the encoded target. */
  function QuerySeparator(base: string): string {
    if Contains(base, "?") then "" else "?url="
  }

  /**
   * `buildProxyUrl(proxyBase, targetUrl)`: None for a blank base; otherwise
   * the trimmed base, then `?url=` unless the base already holds a `?`,
   * then the encoded target.
   */
  function BuildProxyUrl(proxyBase: string, targetUrl: string, encode: string -> string): (r: Option<string>)
    ensures r.None? <==> AllSpace(proxyBase)
    ensures r.Some? ==>
      var base := Trim(proxyBase);
      && |r.value| == |base| + |QuerySeparator(base)| + |encode(targetUrl)|
      && r.value[..|base|] == base
      && r.value[|base|..|base| + |QuerySeparator(base)|] == QuerySeparator(base)
      && r.value[|base| + |QuerySeparator(base)|..] == encode(targetUrl)
  {
    var trimmed := Trim(proxyBase);
    if trimmed == "" then None
    else if Contains(trimmed, "?") then Some(trimmed + encode(targetUrl))
    else Some(trimmed + "?url=" + encode(targetUrl))
  }

  /** Whatever the base, a proxy URL always carries a query string. */
  lemma ProxyUrlHasQuery(proxyBase: string, targetUrl: string, encode: string -> string)
    requires BuildProxyUrl(proxyBase, targetUrl, encode).Some?
    ensures Contains(BuildProxyUrl(proxyBase, targetUrl, encode).value, "?")
  {
    var base := Trim(proxyBase);
    var url := BuildProxyUrl(proxyBase, targetUrl, encode).value;
    if Contains(base, "?") {
      var i := IndexOf(base, "?").value;
      assert url[i..i + 1] == base[i..i + 1];
      OccurrenceFound(url, "?", i);
    } else {
      assert url[|base|..|base| + 1] == "?";
      OccurrenceFound(url, "?", |base|);
    }
  }

  /** After a text without `?`, a `?` that follows it is the first one. */
  lemma FirstQueryMark(base: string, rest: string)
    requires !Contains(base, "?") && |rest| > 0 && rest[0] == '?'
    ensures IndexOf(base + rest, "?") == Some(|base|)
  {
    var url := base + rest;
    forall j | 0 <= j < |base|
      ensures !OccursAt(url, "?", j)
    {
      assert !OccursAt(base, "?", j);
      assert url[j..j + 1] == base[j..j + 1];
    }
    assert url[|base|..|base| + 1] == "?";
    IndexOfFromIs(url, "?", 0, |base|);
  }

  /**
   * For a base without a query string, the proxy URL's query string starts
   * right after the base and is the `url` parameter holding the encoded target.
   */
  lemma ProxyUrlTargetParam(proxyBase: string, targetUrl: string, encode: string -> string)
    requires !AllSpace(proxyBase) && !Contains(Trim(proxyBase), "?")
    ensures BuildProxyUrl(proxyBase, targetUrl, encode).Some?
    ensures IndexOf(BuildProxyUrl(proxyBase, targetUrl, encode).value, "?") == Some(|Trim(proxyBase)|)
    ensures BuildProxyUrl(proxyBase, targetUrl, encode).value[|Trim(proxyBase)| + 1..] == "url=" + encode(targetUrl)
  {
    NoQueryUrl(proxyBase, targetUrl, encode);
    FirstQueryMark(Trim(proxyBase), "?url=" + encode(targetUrl));
    AfterFirst(Trim(proxyBase), "?url=" + encode(targetUrl));
  }

  /** For a base without a query string, the URL is the base, `?url=` and the encoded target. */
  lemma NoQueryUrl(proxyBase: string, targetUrl: string, encode: string -> string)
    requires !AllSpace(proxyBase) && !Contains(Trim(proxyBase), "?")
    ensures BuildProxyUrl(proxyBase, targetUrl, encode) == Some(Trim(proxyBase) + ("?url=" + encode(targetUrl)))
  {
    assert Trim(proxyBase) + "?url=" + encode(targetUrl) == Trim(proxyBase) + ("?url=" + encode(targetUrl));
  }

  /** What follows the first character after `a` in `a + b`. */
  lemma AfterFirst(a: string, b: string)
    requires |b| > 0
    ensures (a + b)[|a| + 1..] == b[1..]
  {
  }

  /** Surrounding whitespace in the configured base does not matter. */
  lemma BaseIsTrimmed(proxyBase: string, targetUrl: string, encode: string -> string)
    ensures BuildProxyUrl(proxyBase, targetUrl, encode) == BuildProxyUrl(Trim(proxyBase), targetUrl, encode)
  {
    TrimUnchanged(Trim(proxyBase));
  }
}
