/**
 * The scheme registry: a table from lower-case scheme names to handler
 * classes that `register` fills in (a later registration of the same
 * scheme replaces the earlier one) and `get_handler_for` consults with the
 * lower-cased text before a URL's first `:`.
 */
module Registry {
  import opened Wrappers
  import opened Base
  import Text
  import Http

  /** The handler classes a scheme can be registered to. */
  datatype Kind = HttpKind | FileKind | DataKind | ViewSourceKind

  /** A constructed handler. */
  datatype Handler =
    | HttpH(http: Http.HttpHandler)
    | FileH(file: HandlerBase)
    | DataH(data: HandlerBase)
    | ViewSourceH(viewSource: HandlerBase)

  function KindOf(h: Handler): Kind {
    match h
    case HttpH(_) => HttpKind
    case FileH(_) => FileKind
    case DataH(_) => DataKind
    case ViewSourceH(_) => ViewSourceKind
  }

  /** The URL a handler was constructed with. */
  function UrlOf(h: Handler): string {
    match h
    case HttpH(x) => x.url
    case FileH(b) => b.url
    case DataH(b) => b.url
    case ViewSourceH(b) => b.url
  }

  /** `cls(url)`: only the HTTP constructor can fail; every handler keeps the URL it was given. */
  function Construct(kind: Kind, url: string): (r: Result<Handler>)
    ensures r.Ok? ==> KindOf(r.value) == kind && UrlOf(r.value) == url
    ensures kind != HttpKind ==> r.Ok?
    ensures kind == HttpKind ==> (r.Ok? <==> Http.NewHttpHandler(url).Ok?)
    ensures r.Ok? && r.value.HttpH? ==> Http.NewHttpHandler(url) == Ok(r.value.http)
    ensures r.Err? ==> Http.NewHttpHandler(url).Err? && r.error == Http.NewHttpHandler(url).error
  {
    match kind
    case HttpKind =>
      (match Http.NewHttpHandler(url)
       case Err(e) => Err(e)
       case Ok(x) => Ok(HttpH(x)))
    case FileKind => Ok(FileH(NewHandlerBase(url)))
    case DataKind => Ok(DataH(NewHandlerBase(url)))
    case ViewSourceKind => Ok(ViewSourceH(NewHandlerBase(url)))
  }

  /** The table after `register(scheme)` of a class. */
  function Registered(handlers: map<string, Kind>, scheme: string, kind: Kind): (m: map<string, Kind>)
    ensures Text.Lower(scheme) in m && m[Text.Lower(scheme)] == kind
    ensures m.Keys == handlers.Keys + {Text.Lower(scheme)}
    ensures forall s :: s in handlers && s != Text.Lower(scheme) ==> m[s] == handlers[s]
  {
    handlers[Text.Lower(scheme) := kind]
  }

  /**
   * `get_handler_for(url)` on a table: an unregistered scheme is an error
   * that names it; a registered one gives its class constructed with the
   * whole URL.
   */
  function Dispatch(handlers: map<string, Kind>, url: string): (r: Result<Handler>)
    ensures SchemeOf(url) !in handlers ==> r.Err? && r.error == UnknownScheme(SchemeOf(url))
    ensures SchemeOf(url) in handlers && r.Err? ==>
      handlers[SchemeOf(url)] == HttpKind && Http.NewHttpHandler(url).Err? && r.error == Http.NewHttpHandler(url).error
    ensures r.Ok? ==> SchemeOf(url) in handlers && KindOf(r.value) == handlers[SchemeOf(url)] && UrlOf(r.value) == url
  {
    var scheme := SchemeOf(url);
    if scheme !in handlers then Err(UnknownScheme(scheme)) else Construct(handlers[scheme], url)
  }

  /** The table the five built-in handlers leave behind. */
  const BUILTIN: map<string, Kind> :=
    map["data" := DataKind, "file" := FileKind, "http" := HttpKind, "https" := HttpKind,
        "view-source" := ViewSourceKind]

  /** The module-level `HANDLERS` table. */
  class HandlerTable {
    var handlers: map<string, Kind>

    constructor ()
      ensures handlers == map[]
    {
      handlers := map[];
    }

    /** `register(scheme)(cls)`: stores the class under the lower-cased scheme and gives the class back. */
    method Register(scheme: string, kind: Kind) returns (registered: Kind)
      modifies this
      ensures handlers == Registered(old(handlers), scheme, kind)
      ensures registered == kind
    {
      handlers := handlers[Text.Lower(scheme) := kind];
      registered := kind;
    }

    /** `get_handler_for(url)`. */
    method GetHandlerFor(url: string) returns (r: Result<Handler>)
      ensures r == Dispatch(handlers, url)
    {
      var scheme := Text.Lower(Text.BeforeFirst(url, ':'));
      var cls := Get(handlers, scheme);
      if cls.None? {
        return Err(UnknownScheme(scheme));
      }
      r := Construct(cls.value, url);
    }
  }

  /** Importing the handlers package: each module registers its class, `http.py` twice. */
  method LoadBuiltins() returns (table: HandlerTable)
    ensures fresh(table) && table.handlers == BUILTIN
  {
    table := new HandlerTable();
    var _ := table.Register("data", DataKind);
    var _ := table.Register("file", FileKind);
    var _ := table.Register("http", HttpKind);
    var _ := table.Register("https", HttpKind);
    var _ := table.Register("view-source", ViewSourceKind);
    LowerOfBuiltinNames();
  }

  lemma LowerOfBuiltinNames()
    ensures Text.Lower("data") == "data" && Text.Lower("file") == "file"
    ensures Text.Lower("http") == "http" && Text.Lower("https") == "https"
    ensures Text.Lower("view-source") == "view-source"
  {
  }

  /** Registering a scheme twice keeps the second class, whatever the case of either spelling. */
  lemma RegisterLastWins(handlers: map<string, Kind>, s1: string, k1: Kind, s2: string, k2: Kind)
    requires Text.Lower(s1) == Text.Lower(s2)
    ensures Registered(Registered(handlers, s1, k1), s2, k2) == Registered(handlers, s2, k2)
  {
  }

  /** After `register(s)(cls)`, every URL whose scheme is `s` in any case dispatches to `cls`. */
  lemma DispatchRegistered(handlers: map<string, Kind>, s: string, kind: Kind, url: string)
    requires SchemeOf(url) == Text.Lower(s)
    ensures Dispatch(Registered(handlers, s, kind), url) == Construct(kind, url)
  {
  }

  /** Registering one scheme does not change how URLs of any other scheme dispatch. */
  lemma DispatchOtherScheme(handlers: map<string, Kind>, s: string, kind: Kind, url: string)
    requires SchemeOf(url) != Text.Lower(s)
    ensures Dispatch(Registered(handlers, s, kind), url) == Dispatch(handlers, url)
  {
  }

  /** `http` and `https` are served by the same class, and exactly five schemes are known. */
  lemma BuiltinSchemes()
    ensures BUILTIN.Keys == {"data", "file", "http", "https", "view-source"}
    ensures BUILTIN["http"] == BUILTIN["https"] == HttpKind
  {
  }

  /** A URL whose scheme is not in the built-in table fails, naming the lower-cased scheme. */
  lemma UnregisteredScheme(scheme: string, rest: string)
    requires ':' !in scheme && Text.Lower(scheme) !in BUILTIN
    ensures Dispatch(BUILTIN, scheme + ":" + rest) == Err(UnknownScheme(Text.Lower(scheme)))
  {
    var url := scheme + ":" + rest;
    assert url[..|scheme|] == scheme && url[|scheme|] == ':';
    Http.SchemeOfPrefix(scheme, url);
  }

  /** `ftp://example.com` names a scheme no handler is registered for. */
  lemma UnknownSchemeExample()
    ensures Dispatch(BUILTIN, "ftp" + ":" + "//example.com") == Err(UnknownScheme("ftp"))
  {
    assert Text.Lower("ftp") == "ftp";
    UnregisteredScheme("ftp", "//example.com");
  }
}
