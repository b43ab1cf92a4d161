/**
 * The response record, the error kinds every handler reports, the part of
 * a handler every scheme shares (its URL and scheme), and the outside
 * world a fetch talks to.
 */
module Base {
  import opened Wrappers
  import opened Bytes
  import Text

  /**
   * Every way a lookup or a fetch can fail. Each constructor is one raise
   * site of the handlers; a few of them are not `HandlerError`s in the
   * code (noted on the constructor).
   */
  datatype Error =
    | UnknownScheme(scheme: string)       // registry `ValueError`
    | MissingAuthority                    // `IndexError`: an http(s) URL without "://"
    | InvalidPort
    | Transport                           // connect, TLS handshake or send failed
    | NoResponse                          // end of stream before the status line
    | MalformedStatusLine
    | InvalidStatus                       // status code not an integer
    | InvalidContentLength                // Content-Length not an integer
    | InvalidReadLength                   // `read(n)` with `n < -1`
    | ChunkedTruncated
    | InvalidChunkSize
    | NotDataUrl                          // `AssertionError`: URL does not start with "data:"
    | MalformedDataUrl
    | Base64DecodeError
    | EmptyFilePath
    | FileNotFound(path: seq<byte>)
    | FileReadError(path: seq<byte>)
    | EmbeddedNul                         // `ValueError` of `open`: the path holds a NUL
    | InvalidViewSourceUrl
    | NoUnderlyingHandler(cause: Error)
    | NotImplemented                      // `NotImplementedError` of the base handler

  datatype Result<T> = Ok(value: T) | Err(error: Error)

  /** A response body: bytes, or text that a wrapper may still have to encode. */
  datatype Body = Binary(bytes: seq<byte>) | Str(text: string)

  datatype Response = Response(
    status: int,
    headers: Option<map<string, string>>,
    body: Body,
    contentType: Option<string>)

  /** `Response()` with every field left at its default. */
  function DefaultResponse(): (r: Response)
    ensures r.status == 200 && r.headers.None? && r.body == Binary([]) && r.contentType.None?
  {
    Response(200, None, Binary([]), None)
  }

  /**
   * The scheme of a URL: the text before its first `:` (all of it when there
   * is none), lower-cased.
   */
  function SchemeOf(url: string): (s: string)
    ensures |s| <= |url| && ':' !in s
    ensures forall i :: 0 <= i < |s| ==> s[i] == Text.LowerChar(url[i])
    ensures |s| < |url| ==> url[|s|] == ':'
    ensures ':' !in url ==> |s| == |url|
  {
    var before := Text.BeforeFirst(url, ':');
    Text.BeforeFirstShape(url, ':');
    Text.LowerAt(before);
    assert forall c :: c != ':' ==> Text.LowerChar(c) != ':';
    Text.Lower(before)
  }

  /** What every handler keeps from its constructor: the URL as given and its scheme. */
  datatype HandlerBase = HandlerBase(url: string, scheme: string)

  function NewHandlerBase(url: string): (h: HandlerBase)
    ensures h.url == url && h.scheme == SchemeOf(url)
  {
    HandlerBase(url, SchemeOf(url))
  }

  /** The base class's `fetch`, which no scheme shares: it always fails. */
  function BaseFetch(h: HandlerBase): (r: Result<Response>)
    ensures r.Err? && r.error == NotImplemented
  {
    Err(NotImplemented)
  }

  /** What reading a local file gave. */
  datatype FileOutcome = FileBytes(bytes: seq<byte>) | FileMissing | FileUnreadable

  /** One outbound request: where to, whether over TLS, and the bytes sent. */
  datatype Connection = Connection(host: string, port: int, tls: bool, request: seq<byte>)

  /**
   * The world outside the model. `exchange` gives every byte the peer sends
   * until it closes the connection, or `None` when connecting, the TLS
   * handshake or sending fails; `readFile` and `guessType` stand for the
   * file system and the extension-to-type table; `isWindows` is
   * `os.name == "nt"`.
   */
  datatype Env = Env(
    exchange: Connection -> Option<seq<byte>>,
    readFile: seq<byte> -> FileOutcome,
    guessType: seq<byte> -> Option<string>,
    isWindows: bool)
}
