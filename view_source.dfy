/**
 * `view-source:` URLs, and `handler.fetch()` for every kind of handler the
 * registry builds. A view-source handler looks up the handler of the URL
 * after its prefix, fetches with it and hands back its status and headers
 * with a byte body and the type `text/plain`. The inner URL is shorter, so
 * nested view-source URLs end.
 */
module ViewSource {
  import opened Wrappers
  import opened Bytes
  import opened Base
  import opened Registry
  import Text
  import Http
  import HttpFetch
  import FileUrl
  import DataUrl

  const PREFIX: string := "view-source:"

  /** The body as bytes: bytes unchanged, text UTF-8 encoded. */
  function BodyBytes(b: Body): (r: seq<byte>)
    ensures b.Binary? ==> r == b.bytes
    ensures b.Str? ==> r == Utf8Encode(b.text)
  {
    match b
    case Binary(bytes) => bytes
    case Str(text) => Utf8Encode(text)
  }

  /** What a view-source handler makes of the inner response. */
  function AsSource(resp: Response): (r: Response)
    ensures r.status == resp.status && r.headers == resp.headers
    ensures r.body == Binary(BodyBytes(resp.body)) && r.contentType == Some("text/plain")
  {
    Response(resp.status, resp.headers, Binary(BodyBytes(resp.body)), Some("text/plain"))
  }

  /** `handler.fetch()`, with `handlers` the table a view-source handler looks its inner URL up in. */
  function Fetch(handlers: map<string, Kind>, h: Handler, env: Env): (r: Result<Response>)
    decreases |UrlOf(h)|, 1
  {
    match h
    case HttpH(x) => HttpFetch.FetchSpec(x, env)
    case FileH(b) => FileUrl.FetchFile(b, env)
    case DataH(b) => DataUrl.FetchData(b)
    case ViewSourceH(b) => FetchViewSource(handlers, b, env)
  }

  /** `ViewSourceHandler.fetch`. */
  function FetchViewSource(handlers: map<string, Kind>, h: HandlerBase, env: Env): (r: Result<Response>)
    ensures !(PREFIX <= h.url) ==> r == Err(InvalidViewSourceUrl)
    ensures r.Ok? ==> r.value.contentType == Some("text/plain") && r.value.body.Binary?
    decreases |h.url|, 0
  {
    if !(PREFIX <= h.url) then Err(InvalidViewSourceUrl)
    else
      var inner := h.url[|PREFIX|..];
      match Dispatch(handlers, inner)
      case Err(e) => Err(NoUnderlyingHandler(e))
      case Ok(underlying) =>
        match Fetch(handlers, underlying, env)
        case Err(e) => Err(e)
        case Ok(resp) => Ok(AsSource(resp))
  }

  /** A prefixed URL: the inner handler decides, and a failed lookup is wrapped. */
  lemma ViewSourceOf(handlers: map<string, Kind>, inner: string, env: Env)
    ensures var r := FetchViewSource(handlers, NewHandlerBase(PREFIX + inner), env);
      var u := Dispatch(handlers, inner);
      (u.Err? ==> r == Err(NoUnderlyingHandler(u.error)))
      && (u.Ok? && Fetch(handlers, u.value, env).Err? ==> r == Fetch(handlers, u.value, env))
      && (u.Ok? && Fetch(handlers, u.value, env).Ok? ==> r == Ok(AsSource(Fetch(handlers, u.value, env).value)))
  {
    var url := PREFIX + inner;
    assert PREFIX <= url && url[|PREFIX|..] == inner;
  }

  /** The inner URL is shorter than the view-source URL around it. */
  lemma InnerShorter(url: string)
    requires PREFIX <= url
    ensures |url[|PREFIX|..]| < |url|
  {
  }

  /** Viewing the source twice is viewing it once. */
  lemma AsSourceIdempotent(resp: Response)
    ensures AsSource(AsSource(resp)) == AsSource(resp)
  {
  }

  /** A URL whose scheme is `view-source` in any case gets a view-source handler from the built-in table. */
  lemma DispatchViewSource(scheme: string, rest: string)
    requires ':' !in scheme && Text.Lower(scheme) == "view-source"
    ensures Dispatch(BUILTIN, scheme + ":" + rest) == Ok(ViewSourceH(NewHandlerBase(scheme + ":" + rest)))
  {
    var url := scheme + ":" + rest;
    assert url[..|scheme|] == scheme && url[|scheme|] == ':';
    Http.SchemeOfPrefix(scheme, url);
  }

  /** `VIEW-SOURCE:` reaches this handler through the case-blind registry, and is then refused. */
  lemma UpperCasePrefix(rest: string, env: Env)
    ensures Dispatch(BUILTIN, "VIEW-SOURCE:" + rest) == Ok(ViewSourceH(NewHandlerBase("VIEW-SOURCE:" + rest)))
    ensures FetchViewSource(BUILTIN, NewHandlerBase("VIEW-SOURCE:" + rest), env) == Err(InvalidViewSourceUrl)
  {
    assert "VIEW-SOURCE:" + rest == "VIEW-SOURCE" + ":" + rest;
    assert Text.Lower("VIEW-SOURCE") == "view-source";
    DispatchViewSource("VIEW-SOURCE", rest);
    assert ("VIEW-SOURCE:" + rest)[0] != PREFIX[0];
  }

  /** A response already shown as source is left as it is. */
  lemma SourceOfSource(resp: Response)
    requires resp.body.Binary? && resp.contentType == Some("text/plain")
    ensures AsSource(resp) == resp
  {
  }

  /** `view-source:view-source:u` shows the same as `view-source:u`. */
  lemma NestedViewSource(inner: string, env: Env)
    ensures FetchViewSource(BUILTIN, NewHandlerBase(PREFIX + (PREFIX + inner)), env)
         == FetchViewSource(BUILTIN, NewHandlerBase(PREFIX + inner), env)
  {
    var mid := PREFIX + inner;
    var u := ViewSourceH(NewHandlerBase(mid));
    assert Dispatch(BUILTIN, mid) == Ok(u) by {
      assert mid == "view-source" + ":" + inner;
      ViewSourceName();
      DispatchViewSource("view-source", inner);
    }
    ViewSourceOf(BUILTIN, mid, env);
    var r := FetchViewSource(BUILTIN, NewHandlerBase(mid), env);
    assert Fetch(BUILTIN, u, env) == r;
    if r.Ok? {
      SourceOfSource(r.value);
    }
  }

  /** The scheme name is its own lower case and holds no `:`. */
  lemma ViewSourceName()
    ensures ':' !in "view-source" && Text.Lower("view-source") == "view-source"
  {
  }

  /** Viewing the source of a `data:` URL: its response as source, or its error. */
  lemma ViewSourceOfData(rest: string, env: Env)
    ensures var d := DataUrl.FetchData(NewHandlerBase("data:" + rest));
      var r := FetchViewSource(BUILTIN, NewHandlerBase(PREFIX + ("data:" + rest)), env);
      (d.Err? ==> r == d) && (d.Ok? ==> r == Ok(AsSource(d.value)))
  {
    var inner := "data:" + rest;
    DispatchData(rest);
    FetchOfData(BUILTIN, NewHandlerBase(inner), env);
    ViewSourceOf(BUILTIN, inner, env);
  }

  /** A `data:` URL gets a data handler from the built-in table. */
  lemma DispatchData(rest: string)
    ensures Dispatch(BUILTIN, "data:" + rest) == Ok(DataH(NewHandlerBase("data:" + rest)))
  {
    var inner := "data:" + rest;
    assert inner[..4] == "data" && inner[4] == ':';
    Http.SchemeOfPrefix("data", inner);
    LowerOfBuiltinNames();
  }

  lemma FetchOfData(handlers: map<string, Kind>, b: HandlerBase, env: Env)
    ensures Fetch(handlers, DataH(b), env) == DataUrl.FetchData(b)
  {
  }

  /** The source of a plain data URL whose ASCII payload has no `%` is that payload, as `text/plain`. */
  lemma ViewSourceOfLiteral(meta: string, data: string, env: Env)
    requires ',' !in meta && ';' !in meta && meta != []
    requires IsAscii(data) && '%' !in data
    ensures IsLatin1(data)
    ensures FetchViewSource(BUILTIN, NewHandlerBase(PREFIX + (DataUrl.PREFIX + meta + "," + data)), env)
         == Ok(Response(200, Some(map[]), Binary(Latin1Encode(data)), Some("text/plain")))
  {
    var rest := meta + "," + data;
    assert DataUrl.PREFIX + meta + "," + data == "data:" + rest;
    DataUrl.LiteralPayload(meta, data);
    ViewSourceOfData(rest, env);
  }

  /** `view-source:data:text/html,<b>hi</b>` shows the markup `<b>hi</b>` itself, as `text/plain`. */
  lemma MarkupExample(env: Env)
    ensures FetchViewSource(BUILTIN, NewHandlerBase(PREFIX + (DataUrl.PREFIX + "text/html" + "," + "<b>hi</b>")), env)
         == Ok(Response(200, Some(map[]), Binary([0x3C, 0x62, 0x3E, 0x68, 0x69, 0x3C, 0x2F, 0x62, 0x3E]), Some("text/plain")))
  {
    ViewSourceOfLiteral("text/html", "<b>hi</b>", env);
    MarkupBytes();
  }

  lemma MarkupBytes()
    ensures Latin1Encode("<b>hi</b>") == [0x3C, 0x62, 0x3E, 0x68, 0x69, 0x3C, 0x2F, 0x62, 0x3E]
  {
  }
}
