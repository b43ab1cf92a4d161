/**
 * The HTTP/HTTPS handler's constructor, which splits
 * `scheme://host[:port]/path` into its parts, and the request it sends.
 */
module Http {
  import opened Wrappers
  import opened Base
  import opened Bytes
  import Text
  import Ints

  /** The product string sent as `User-Agent`. */
  const USER_AGENT: string := "Serigoela"

  /** An HTTP or HTTPS handler; `headers` are the request headers, in the order sent. */
  datatype HttpHandler = HttpHandler(
    url: string,
    scheme: string,
    host: string,
    port: int,
    path: string,
    headers: seq<(string, string)>)

  /** The request headers every request carries, in this order. */
  function RequestHeaders(host: string): seq<(string, string)> {
    [("Host", host), ("Connection", "close"), ("User-Agent", USER_AGENT)]
  }

  /** Port 80, given or defaulted, becomes 443 under `https`. */
  function EffectivePort(scheme: string, port: int): (p: int)
    ensures scheme == "https" ==> p != 80
    ensures scheme != "https" ==> p == port
    ensures port != 80 ==> p == port
  {
    if scheme == "https" && port == 80 then 443 else port
  }

  function MakeHandler(url: string, host: string, port: int, path: string): HttpHandler {
    var scheme := SchemeOf(url);
    HttpHandler(url, scheme, host, EffectivePort(scheme, port), path, RequestHeaders(host))
  }

  /**
   * The part of the URL after the first "://" split at its first `/`: the
   * authority, and the path that keeps that `/` (`/` when there is none).
   */
  function SplitPath(rest: string): (r: (string, string))
    ensures '/' !in r.0
    ensures |r.1| > 0 && r.1[0] == '/'
    ensures '/' in rest ==> rest == r.0 + r.1
    ensures '/' !in rest ==> r == (rest, "/")
  {
    Text.SplitOnceShape(rest, '/');
    match Text.SplitOnce(rest, '/')
    case Some((hp, p)) => (hp, "/" + p)
    case None => (rest, "/")
  }

  /** The authority split at its first `:` into host and an integer port (80 when absent). */
  function SplitHostPort(hostport: string): (r: Result<(string, int)>)
    ensures r.Err? ==> r.error == InvalidPort
    ensures r.Ok? ==> ':' !in r.value.0 && |r.value.0| <= |hostport|
    ensures r.Ok? ==> r.value.0 == hostport[..|r.value.0|]
    ensures ':' !in hostport ==> r == Ok((hostport, 80))
  {
    Text.SplitOnceShape(hostport, ':');
    match Text.SplitOnce(hostport, ':')
    case Some((host, portText)) =>
      (match Ints.ParseInt(portText, 10)
       case None => Err(InvalidPort)
       case Some(port) =>
         assert hostport[..|host|] == host;
         Ok((host, port)))
    case None => Ok((hostport, 80))
  }

  /**
   * `HTTPHandler.__init__`. A URL without "://" fails, and so does a port
   * that is not an integer; otherwise the fields are the parts above.
   */
  function NewHttpHandler(url: string): (r: Result<HttpHandler>)
    ensures r.Err? ==> r.error == MissingAuthority || r.error == InvalidPort
    ensures (r.Err? && r.error == MissingAuthority) <==> Text.FindSub(url, "://").None?
    ensures r.Ok? ==> r.value.url == url && r.value.scheme == SchemeOf(url)
    ensures r.Ok? ==> |r.value.path| > 0 && r.value.path[0] == '/'
    ensures r.Ok? ==> ':' !in r.value.host && '/' !in r.value.host
    ensures r.Ok? ==> r.value.headers == RequestHeaders(r.value.host)
    ensures r.Ok? && r.value.scheme == "https" ==> r.value.port != 80
  {
    match Text.FindSub(url, "://")
    case None => Err(MissingAuthority)
    case Some(i) =>
      var (hostport, path) := SplitPath(url[i + 3..]);
      match SplitHostPort(hostport)
      case Err(e) => Err(e)
      case Ok((host, port)) =>
        assert forall k :: 0 <= k < |host| ==> host[k] == hostport[k];
        Ok(MakeHandler(url, host, port, path))
  }

  /** The header block of a request: one `Name: value` line per header. */
  function HeaderLines(hs: seq<(string, string)>): string {
    if hs == [] then "" else hs[0].0 + ": " + hs[0].1 + "\r\n" + HeaderLines(hs[1..])
  }

  /** The request text `fetch` builds. */
  function Request(h: HttpHandler): string {
    "GET " + h.path + " HTTP/1.1\r\n" + HeaderLines(h.headers) + "\r\n"
  }

  /** The connection `fetch` opens and what it sends over it, UTF-8 encoded. */
  function ConnectionFor(h: HttpHandler): (c: Connection)
    ensures c.host == h.host && c.port == h.port
    ensures c.tls <==> h.scheme == "https"
  {
    Connection(h.host, h.port, h.scheme == "https", Utf8Encode(Request(h)))
  }

  /** Every request is a GET of the path with exactly Host, Connection and User-Agent. */
  lemma RequestText(h: HttpHandler)
    requires h.headers == RequestHeaders(h.host)
    ensures Request(h) == "GET " + h.path + " HTTP/1.1\r\n"
                         + "Host: " + h.host + "\r\n"
                         + "Connection: close\r\n"
                         + "User-Agent: Serigoela\r\n"
                         + "\r\n"
  {
    var hs := h.headers;
    assert hs[1..][1..][1..] == [];
    assert HeaderLines(hs[1..][1..]) == "User-Agent: Serigoela\r\n";
    assert HeaderLines(hs[1..]) == "Connection: close\r\n" + "User-Agent: Serigoela\r\n";
  }

  /** The authority text of a URL: a host and, optionally, `:` and a port text. */
  function Authority(host: string, portText: Option<string>): string {
    match portText
    case None => host
    case Some(p) => host + ":" + p
  }

  /**
   * Parsing a URL assembled from its parts gives back those parts: the host,
   * the port `int()` makes of the port text (80 when there is none; 443 for
   * https in place of 80), and the path (`/` for an empty one).
   */
  function AssembledUrl(scheme: string, host: string, portText: Option<string>, path: string): string {
    scheme + "://" + (Authority(host, portText) + path)
  }

  lemma ParseAssembledUrl(scheme: string, host: string, portText: Option<string>, path: string)
    requires ':' !in scheme
    requires ':' !in host && '/' !in host
    requires portText.Some? ==> '/' !in portText.value
    requires path == [] || path[0] == '/'
    ensures SplitHostPort(Authority(host, portText)).Err? ==>
      NewHttpHandler(AssembledUrl(scheme, host, portText, path)) == Err(InvalidPort)
    ensures SplitHostPort(Authority(host, portText)).Ok? ==>
      var port := SplitHostPort(Authority(host, portText)).value.1;
      NewHttpHandler(AssembledUrl(scheme, host, portText, path)) ==
        Ok(HttpHandler(AssembledUrl(scheme, host, portText, path), Text.Lower(scheme), host,
                       EffectivePort(Text.Lower(scheme), port),
                       if path == [] then "/" else path, RequestHeaders(host)))
  {
    var url := AssembledUrl(scheme, host, portText, path);
    var hp := SplitHostPort(Authority(host, portText));
    AssembledParts(scheme, host, portText, path);
    HandlerOfParts(url, |scheme|, Authority(host, portText), if path == [] then "/" else path);
    HostPortOfAuthority(host, portText);
    if hp.Ok? {
      assert hp.value.0 == host;
    }
  }

  /** Where the separators of an assembled URL fall. */
  lemma AssembledParts(scheme: string, host: string, portText: Option<string>, path: string)
    requires ':' !in scheme
    requires ':' !in host && '/' !in host
    requires portText.Some? ==> '/' !in portText.value
    requires path == [] || path[0] == '/'
    ensures var url := AssembledUrl(scheme, host, portText, path);
      Text.FindSub(url, "://") == Some(|scheme|)
      && SplitPath(url[|scheme| + 3..]) == (Authority(host, portText), if path == [] then "/" else path)
      && SchemeOf(url) == Text.Lower(scheme)
  {
    var auth := Authority(host, portText);
    HostPortOfAuthority(host, portText);
    SeparatorAfterScheme(scheme, auth + path);
    SplitAuthorityPath(auth, path);
    SchemeOfPrefix(scheme, AssembledUrl(scheme, host, portText, path));
  }

  lemma SeparatorAfterScheme(scheme: string, rest: string)
    requires ':' !in scheme
    ensures var url := scheme + "://" + rest;
      Text.FindSub(url, "://") == Some(|scheme|) && url[|scheme| + 3..] == rest
      && url[..|scheme|] == scheme && url[|scheme|] == ':'
  {
    Text.FindSubAppend(scheme, "://", rest);
  }

  /** `NewHttpHandler` once the "://" and the path are found. */
  lemma HandlerOfParts(url: string, i: nat, hostport: string, path: string)
    requires Text.FindSub(url, "://") == Some(i)
    requires SplitPath(url[i + 3..]) == (hostport, path)
    ensures var hp := SplitHostPort(hostport);
      NewHttpHandler(url) == if hp.Err? then Err(hp.error) else Ok(MakeHandler(url, hp.value.0, hp.value.1, path))
  {
  }

  lemma SplitAuthorityPath(auth: string, path: string)
    requires '/' !in auth
    requires path == [] || path[0] == '/'
    ensures SplitPath(auth + path) == (auth, if path == [] then "/" else path)
  {
    if path == [] {
      assert auth + path == auth;
    } else {
      assert auth + path == auth + ['/'] + path[1..];
      Text.SplitOnceAppend(auth, '/', path[1..]);
      assert "/" + path[1..] == path;
    }
  }

  lemma HostPortOfAuthority(host: string, portText: Option<string>)
    requires ':' !in host && '/' !in host
    requires portText.Some? ==> '/' !in portText.value
    ensures '/' !in Authority(host, portText)
    ensures SplitHostPort(Authority(host, portText)) ==
      if portText.None? then Ok((host, 80))
      else if Ints.ParseInt(portText.value, 10).None? then Err(InvalidPort)
      else Ok((host, Ints.ParseInt(portText.value, 10).value))
  {
    if portText.Some? {
      assert Authority(host, portText) == host + [':'] + portText.value;
      Text.SplitOnceAppend(host, ':', portText.value);
    }
  }

  /** The scheme of a URL that starts with `scheme:` is `scheme`, lower-cased. */
  lemma SchemeOfPrefix(scheme: string, url: string)
    requires ':' !in scheme
    requires |url| > |scheme| && url[..|scheme|] == scheme && url[|scheme|] == ':'
    ensures SchemeOf(url) == Text.Lower(scheme)
  {
    assert forall k :: 0 <= k < |scheme| ==> url[k] == scheme[k];
  }

  /**
   * The three outcomes of parsing `scheme://host[:port]path`: with no port
   * the port is 80, a decimal port is that number, and port text `int()`
   * refuses is an error; https turns 80 into 443 in both of the first two.
   */
  lemma ParseUrlWithoutPort(scheme: string, host: string, path: string)
    requires ':' !in scheme
    requires ':' !in host && '/' !in host
    requires path == [] || path[0] == '/'
    ensures var r := NewHttpHandler(AssembledUrl(scheme, host, None, path));
      r.Ok? && r.value.host == host && r.value.port == EffectivePort(Text.Lower(scheme), 80)
      && r.value.path == (if path == [] then "/" else path)
  {
    HostPortOfAuthority(host, None);
    ParseAssembledUrl(scheme, host, None, path);
  }

  lemma ParseUrlWithPort(scheme: string, host: string, port: int, path: string)
    requires ':' !in scheme
    requires ':' !in host && '/' !in host
    requires path == [] || path[0] == '/'
    ensures var r := NewHttpHandler(AssembledUrl(scheme, host, Some(Ints.Decimal(port)), path));
      r.Ok? && r.value.host == host && r.value.port == EffectivePort(Text.Lower(scheme), port)
      && r.value.path == (if path == [] then "/" else path)
  {
    var d := Ints.Decimal(port);
    Ints.ParseDecimal(port);
    assert '/' !in d by {
      Ints.DecimalChars(port);
    }
    HostPortOfAuthority(host, Some(d));
    assert SplitHostPort(Authority(host, Some(d))) == Ok((host, port));
    ParseAssembledUrl(scheme, host, Some(d), path);
  }

  lemma ParseUrlBadPort(scheme: string, host: string, portText: string, path: string)
    requires ':' !in scheme
    requires ':' !in host && '/' !in host && '/' !in portText
    requires path == [] || path[0] == '/'
    requires Ints.ParseInt(portText, 10).None?
    ensures NewHttpHandler(AssembledUrl(scheme, host, Some(portText), path)) == Err(InvalidPort)
  {
    HostPortOfAuthority(host, Some(portText));
    assert SplitHostPort(Authority(host, Some(portText))) == Err(InvalidPort);
    ParseAssembledUrl(scheme, host, Some(portText), path);
  }
}
