/**
 * The endpoint resolver (agent.js `resolveChatCompletionsUrl`): turns the
 * configured API base URL into the chat-completions endpoint the planner posts
 * to, accepting a bare host, a `/v1` base or the full endpoint.
 */
module ChatUrl {
  import opened Text

  const Endpoint := "/chat/completions"

  const VersionSegment := "/v1"

  /** `replace(/\/+$/, "")`: every trailing slash removed. */
  function StripTrailingSlashes(s: string): (r: string)
    ensures StartsWith(s, r)
    ensures forall i :: |r| <= i < |s| ==> s[i] == '/'
    ensures r == [] || r[|r| - 1] != '/'
    decreases |s|
  {
    if s != [] && s[|s| - 1] == '/' then StripTrailingSlashes(s[..|s| - 1]) else s
  }

  /** `resolveChatCompletionsUrl`: the configured URL without its trailing
      slashes, completed to end with the chat-completions path. */
  function ResolveChatCompletionsUrl(rawUrl: string): (url: string)
    ensures EndsWith(url, Endpoint)
    ensures StartsWith(url, StripTrailingSlashes(rawUrl))
  {
    var trimmed := StripTrailingSlashes(rawUrl);
    if EndsWith(trimmed, Endpoint) then trimmed
    else if EndsWith(trimmed, VersionSegment) then trimmed + Endpoint
    else trimmed + VersionSegment + Endpoint
  }

  /** Text without a trailing slash keeps every character under the strip. */
  lemma StripNoSlash(s: string)
    requires s == [] || s[|s| - 1] != '/'
    ensures StripTrailingSlashes(s) == s
  {
  }

  /** An URL already resolved, and only such an URL, is left as it is. */
  lemma ResolveFixpoint(url: string)
    ensures ResolveChatCompletionsUrl(url) == url <==> EndsWith(url, Endpoint)
  {
    if EndsWith(url, Endpoint) {
      assert url[|url| - 1] == Endpoint[|Endpoint| - 1];
      StripNoSlash(url);
    }
  }

  /** Resolving twice is resolving once. */
  lemma ResolveIdempotent(rawUrl: string)
    ensures ResolveChatCompletionsUrl(ResolveChatCompletionsUrl(rawUrl)) == ResolveChatCompletionsUrl(rawUrl)
  {
    ResolveFixpoint(ResolveChatCompletionsUrl(rawUrl));
  }

  /** The three accepted spellings of one service resolve to the same endpoint,
      with or without trailing slashes. */
  lemma ResolveSpellings(host: string)
    requires host == [] || host[|host| - 1] != '/'
    requires !EndsWith(host, VersionSegment) && !EndsWith(host, Endpoint)
    ensures ResolveChatCompletionsUrl(host) == host + VersionSegment + Endpoint
    ensures ResolveChatCompletionsUrl(host + "//") == host + VersionSegment + Endpoint
    ensures ResolveChatCompletionsUrl(host + VersionSegment + "/") == host + VersionSegment + Endpoint
    ensures ResolveChatCompletionsUrl(host + VersionSegment + Endpoint) == host + VersionSegment + Endpoint
  {
    StripNoSlash(host);
    assert StripTrailingSlashes(host + "//") == host by {
      assert (host + "//")[..|host| + 1] == host + "/";
      assert (host + "/")[..|host|] == host;
    }
    var v := host + VersionSegment;
    assert EndsWith(v, VersionSegment) && !EndsWith(v, Endpoint) by {
      assert v[|v| - |VersionSegment|..] == VersionSegment;
      assert v[|v| - 1] == '1';
    }
    assert StripTrailingSlashes(v + "/") == v by {
      assert (v + "/")[..|v|] == v;
    }
    var full := v + Endpoint;
    assert EndsWith(full, Endpoint) by {
      assert full[|full| - |Endpoint|..] == Endpoint;
    }
    ResolveFixpoint(full);
  }
}
