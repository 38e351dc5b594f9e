/**
 * UrlProvider::apiv3: the address of a userbot-api method, either under an
 * explicit endpoint or under the default host, whose protocol and host the
 * GET_COMPASS_CURL_PROTOCOL and GET_COMPASS_CURL_URL constants may override.
 */
module UrlProvider {
  import opened Php

  const PROTOCOL := "https"
  const COMPASS_URL := "getcompass.com"
  const USERBOT_SUBDOMAIN_URL := "userbot"
  const APIV3_URL := "api/v3"

  /** The process-wide constants apiv3 consults when they are defined. */
  datatype Overrides = Overrides(protocol: Option<string>, host: Option<string>)

  const NO_OVERRIDES := Overrides(None, None)

  predicate AllSlashes(s: string)
  {
    forall k :: 0 <= k < |s| ==> s[k] == '/'
  }

  /** Two runs of slashes make one. */
  lemma SlashesAppend(a: string, b: string)
    requires AllSlashes(a) && AllSlashes(b)
    ensures AllSlashes(a + b)
  {
    forall k | 0 <= k < |a + b| ensures (a + b)[k] == '/' {
      if k < |a| {
        assert (a + b)[k] == a[k];
      } else {
        assert (a + b)[k] == b[k - |a|];
      }
    }
  }

  /** rtrim($s, "/"): the longest prefix of s that does not end in '/' after removing only slashes. */
  function RTrimSlashes(s: string): (r: string)
    ensures |r| <= |s| && r == s[..|r|]
    ensures AllSlashes(s[|r|..])
    ensures r == [] || r[|r| - 1] != '/'
  {
    if |s| > 0 && s[|s| - 1] == '/' then
      var r := RTrimSlashes(s[..|s| - 1]);
      assert s[|r|..] == s[..|s| - 1][|r|..] + ['/'];
      SlashesAppend(s[..|s| - 1][|r|..], ['/']);
      r
    else s
  }

  /** ltrim($s, "/"): what is left of s once all its leading slashes are removed. */
  function LTrimSlashes(s: string): (r: string)
    ensures |r| <= |s| && r == s[|s| - |r|..]
    ensures AllSlashes(s[..|s| - |r|])
    ensures r == [] || r[0] != '/'
  {
    if |s| > 0 && s[0] == '/' then
      var r := LTrimSlashes(s[1..]);
      assert s[..|s| - |r|] == ['/'] + s[1..][..|s| - 1 - |r|];
      SlashesAppend(['/'], s[1..][..|s| - 1 - |r|]);
      r
    else s
  }

  /**
   * apiv3($route, $endpoint): `endpoint` is None for the default `false`.
   * An endpoint, even "", takes the first branch (the test is !== false).
   */
  function Apiv3(route: string, endpoint: Option<string>, defined: Overrides): string
  {
    match endpoint
    case Some(e) => RTrimSlashes(e) + ("/" + APIV3_URL + "/") + LTrimSlashes(route)
    case None =>
      var protocol := if defined.protocol.Some? then defined.protocol.value else PROTOCOL;
      var host := if defined.host.Some? then defined.host.value else COMPASS_URL;
      protocol + ("://" + USERBOT_SUBDOMAIN_URL + ".") + host + ("/" + APIV3_URL + "/") + route
  }

  /**
   * With an endpoint, the address is the endpoint stripped of all its trailing
   * slashes, "/api/v3/", and the route stripped of all its leading slashes:
   * no join produces a double slash.
   */
  lemma EndpointJoin(route: string, e: string, defined: Overrides)
    ensures var base, path := RTrimSlashes(e), LTrimSlashes(route);
      && Apiv3(route, Some(e), defined) == base + "/api/v3/" + path
      && e == base + e[|base|..] && AllSlashes(e[|base|..]) && (base == [] || base[|base| - 1] != '/')
      && route == route[..|route| - |path|] + path && AllSlashes(route[..|route| - |path|])
      && (path == [] || path[0] != '/')
  {
    EndpointShape(route, e, defined);
    TrimmedParts(route, e);
  }

  /** The endpoint branch joins the trimmed endpoint and route around "/api/v3/", whatever is defined. */
  lemma EndpointShape(route: string, e: string, defined: Overrides)
    ensures Apiv3(route, Some(e), defined) == RTrimSlashes(e) + "/api/v3/" + LTrimSlashes(route)
  {
    assert "/" + APIV3_URL + "/" == "/api/v3/";
  }

  /** What the trims keep and what they cut, put back together, is what they were given. */
  lemma TrimmedParts(route: string, e: string)
    ensures e == RTrimSlashes(e) + e[|RTrimSlashes(e)|..]
    ensures route == route[..|route| - |LTrimSlashes(route)|] + LTrimSlashes(route)
  {
    var base, path := RTrimSlashes(e), LTrimSlashes(route);
    assert e == e[..|base|] + e[|base|..];
    assert route == route[..|route| - |path|] + route[|route| - |path|..];
  }

  /** Extra slashes in front of the route or behind the endpoint do not change the address. */
  lemma {:induction false} EndpointNormalizes(route: string, e: string, defined: Overrides)
    ensures Apiv3("/" + route, Some(e + "/"), defined) == Apiv3(route, Some(e), defined)
  {
    assert ("/" + route)[1..] == route;
    assert (e + "/")[..|e|] == e;
  }

  /** An empty endpoint still takes the endpoint branch: the address starts at "/api/v3/". */
  lemma EmptyEndpoint(route: string, defined: Overrides)
    ensures Apiv3(route, Some(""), defined) == "/api/v3/" + LTrimSlashes(route)
  {
    assert "/" + APIV3_URL + "/" == "/api/v3/";
    assert RTrimSlashes("") == "";
    assert "" + "/api/v3/" == "/api/v3/";
  }

  /** Without an endpoint or overrides the address is the public host, and the route is not trimmed. */
  lemma DefaultAddress(route: string)
    ensures Apiv3(route, None, NO_OVERRIDES) == "https://userbot.getcompass.com/api/v3/" + route
  {
    assert "/" + APIV3_URL + "/" == "/api/v3/";
    assert "://" + USERBOT_SUBDOMAIN_URL + "." == "://userbot.";
    assert PROTOCOL + "://userbot." == "https://userbot.";
    assert "https://userbot." + COMPASS_URL == "https://userbot.getcompass.com";
    assert "https://userbot.getcompass.com" + "/api/v3/" == "https://userbot.getcompass.com/api/v3/";
  }

  /** Protocol and host are overridden independently; subdomain and path stay fixed. */
  lemma OverriddenAddress(route: string, protocol: string, host: string)
    ensures Apiv3(route, None, Overrides(Some(protocol), None))
         == protocol + "://userbot.getcompass.com/api/v3/" + route
    ensures Apiv3(route, None, Overrides(None, Some(host)))
         == "https://userbot." + host + "/api/v3/" + route
    ensures Apiv3(route, None, Overrides(Some(protocol), Some(host)))
         == protocol + "://userbot." + host + "/api/v3/" + route
  {
    assert "/" + APIV3_URL + "/" == "/api/v3/";
    assert "://" + USERBOT_SUBDOMAIN_URL + "." == "://userbot.";
    assert PROTOCOL + "://userbot." == "https://userbot.";
    assert "://userbot." + COMPASS_URL == "://userbot.getcompass.com";
    assert "://userbot.getcompass.com" + "/api/v3/" == "://userbot.getcompass.com/api/v3/";
    AppendAssoc(protocol, "://userbot.", COMPASS_URL);
    AppendAssoc(protocol, "://userbot.getcompass.com", "/api/v3/");
  }
}
