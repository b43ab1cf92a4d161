# Serigoela handlers, modelled in Dafny

The handler package of a small command-line text browser. A URL's
scheme picks a handler class from a registry. The handler fetches a
response:
- `http`/`https` over a socket, with `Content-Length` or chunked
  framing;
- `file` from the local file system;
- `data` from the URL itself, base64 or percent-encoded;
- `view-source` by fetching the inner URL and handing its bytes back as
  `text/plain`.

A tiny renderer strips tags from HTML and decodes `&...;` entities.

The model follows the code's own structure:

| module | what it holds |
|---|---|
| `Base` | the `Response` record, the error kinds (one per raise site), what every handler keeps from its URL, and the outside world a fetch sees (`Env`) |
| `Http` | the constructor's `scheme://host[:port]/path` split and the request text |
| `Stream` | the buffered reader `fetch` reads the reply through, as a class (`readline`, `read`) |
| `HttpResponse` | what codes the reply as functions over the received bytes: the status line, the header block, `_read_chunked` and body framing |
| `HttpFetch` | the loops of `fetch` and `_read_chunked` as methods over a `Stream.Reader`, each proved equal to the functions above |
| `HttpWire`, `HttpMessage` | responses built from their parts (status line, header lines, chunked body) and what parsing them gives back |
| `DataUrl`, `FileUrl`, `ViewSource` | the other three handlers |
| `Registry` | the scheme table as a class, plus the same table as a function of its registrations |
| `Renderers` | `strip_tags_and_unescape` as a loop, proved equal to a recursive reading of the text |
| `Text`, `Ints`, `Bytes`, `Base64`, `Percent` | the Python built-ins the handlers call (`split`, `strip`, `lower`, `find`, `replace`, `int()`, ISO-8859-1 and UTF-8 coding, `b64decode`, `unquote_to_bytes`) |

The network, the file system and the MIME table are fields of a
`Base.Env` value:
- `exchange` returns the reply bytes for a connection, or `None` when
  connecting or sending fails;
- `readFile` and `guessType` stand for the file system and the MIME
  table;
- `isWindows` reads as `os.name == "nt"`.

`html.unescape` is a parameter of the renderer.

### What the code does at its edges

Where the code does more or less than its docstrings suggest, the model
follows the code:
- `;base64` anywhere in the media part of a `data:` URL turns base64 on,
  and every occurrence of it is removed from the content type. The
  class docstring's grammar `data:[<mediatype>][;base64],<data>`
  (`src/handlers/data.py:10`) places the flag just before the comma.
- Under `https`, an explicitly written port 80 becomes 443, as well as a
  missing port.
- A `Content-Length` larger than what is left reads what is left, and is
  not an error.
- Percent-decoding in `data:` URLs never fails. There is no decode error
  for a bad `%` escape.
- `file:` URLs lose their first seven characters unchecked.
- The Windows drive letter is looked for before percent-decoding.
- `VIEW-SOURCE:` in upper case reaches the view-source handler through
  the case-blind registry, which then refuses it.
- A chunk size of `-1` reads the rest of the stream and then reports a
  truncated body.
- A blank line where a chunk size is due is an invalid size.
- The error kinds follow the raise sites (`Base.Error`), including the
  `IndexError`, `AssertionError` and `ValueError` that are not
  `HandlerError`s. One of them is the `ValueError` that `open` raises for
  a `file:` path holding a NUL (`file:///a%00b`): it is not an `OSError`,
  so the handler's `except` clauses let it through (`Base.EmbeddedNul`).
- A response body may be text as well as bytes (`Base.Body`), as the
  dataclass allows. `view-source` encodes text bodies to UTF-8.

## Model

| member | source | states |
|---|---|---|
| Base.DefaultResponse | src/handlers/base.py:9-14 | a `Response()` left at its defaults has status 200, no headers, an empty byte body and no content type |
| Base.SchemeOf | src/handlers/base.py:25 | the scheme is the text before the URL's first `:`, lower-cased character by character; the whole URL when there is no `:`; and it never holds a `:` |
| Base.NewHandlerBase | src/handlers/base.py:23-25 | a handler keeps the URL as given and its scheme |
| Base.BaseFetch | src/handlers/base.py:27-28 | the base handler's fetch always fails with `NotImplemented` |
| Http.EffectivePort | src/handlers/http.py:37-38 | under `https` the port is never 80 (80 becomes 443); under any other scheme, and for any port other than 80, the port is kept |
| Http.SplitPath | src/handlers/http.py:20-25 | the authority holds no `/`; the path starts with `/`; authority plus path is the text after `://`, with path `/` when there is no `/` |
| Http.SplitHostPort | src/handlers/http.py:26-35 | without `:` the host is the whole authority and the port is 80; otherwise the host is the text before the first `:`; the only failure is `InvalidPort` |
| Http.NewHttpHandler | src/handlers/http.py:16-43 | fails with `MissingAuthority` exactly when the URL has no `://`, and otherwise only with `InvalidPort`; a handler keeps URL and scheme, has a path starting with `/` and a host without `:` or `/`, carries the three request headers, and under `https` never uses port 80 |
| Http.ParseAssembledUrl | src/handlers/http.py:16-43 | a URL assembled from scheme, host, optional port text and path parses back into exactly those parts (port by `int()`, 80 when absent, 443 in place of 80 under https, path `/` when empty), or fails with `InvalidPort` when `int()` refuses the port |
| Http.ParseUrlWithoutPort | src/handlers/http.py:33-38 | with no port the handler has the host, port 80 (443 under https) and the path |
| Http.ParseUrlWithPort | src/handlers/http.py:26-32 | the decimal text of any integer port gives that port back (443 for 80 under https) |
| Http.ParseUrlBadPort | src/handlers/http.py:29-32 | port text that `int()` refuses makes the constructor fail with `InvalidPort` |
| Http.SchemeOfPrefix | src/handlers/http.py:36 | a URL starting with `scheme:` has `scheme` lower-cased as its scheme |
| Http.ConnectionFor | src/handlers/http.py:47-52 | the connection goes to the handler's host and port, with TLS exactly for `https` |
| Http.RequestText | src/handlers/http.py:57-60 | the request is `GET <path> HTTP/1.1` followed by the `Host`, `Connection: close` and `User-Agent: Serigoela` lines and a blank line |
| Stream.LineEnd | src/handlers/http.py:64 | a line runs from the position to a point within the data, and is empty exactly at the end of the stream |
| Stream.LineEndShape | src/handlers/http.py:75 | a line holds no LF before its last byte, and ends with LF unless it runs to the end of the stream |
| Stream.LineEndAt | src/handlers/http.py:75 | a run of bytes without LF followed by LF is read as one line |
| Stream.ReadEnd | src/handlers/http.py:89 | `read(-1)` reads to the end; `read(n)` reads `n` bytes, or all that is left when fewer remain |
| Stream.Reader.constructor | src/handlers/http.py:54 | the reader starts at the first byte the server sent |
| Stream.Reader.ReadLine | src/handlers/http.py:64 | `readline()` returns the bytes up to and including the next LF and moves past them |
| Stream.Reader.Read | src/handlers/http.py:89 | `read(n)` with `n < -1` is refused and reads nothing; otherwise it returns the bytes up to `ReadEnd` and moves past them |
| HttpResponse.LineAt | src/handlers/http.py:64 | a line decoded as ISO-8859-1 has one character per byte and is empty exactly at the end of the stream |
| HttpResponse.StatusOf | src/handlers/http.py:67-70 | a status line is malformed exactly when it has no space; the only other failure is a status code that is not an integer |
| HttpResponse.HeaderField | src/handlers/http.py:78-81 | a line gives no field exactly when it has no `:`; the key of a field holds no `:` |
| HttpResponse.Store | src/handlers/http.py:81 | a line without a field leaves the headers as they are; a field sets its key to its value and keeps every other key |
| HttpResponse.HeadersFrom | src/handlers/http.py:73-81 | the header loop stops within the stream and never loses a key it has stored |
| Text.JoinAppend | src/handlers/http.py:124-127 | appending one more part to the list adds its bytes at the end of the joined body |
| HttpResponse.SizeText | src/handlers/http.py:111 | the size text of a chunk-size line holds no `;` and is no longer than the line |
| HttpResponse.TrailerEnd | src/handlers/http.py:118-121 | the trailer loop stops within the stream, and moves unless the stream has ended |
| HttpResponse.ChunkedFrom | src/handlers/http.py:105-127 | a decoded body leaves the stream past where it started; the only failures are a truncated body, an invalid size and a refused read length; at the end of the stream the body is truncated |
| HttpResponse.ChunkedFromBound | src/handlers/http.py:123-127 | the decoded body is never longer than what is left of the stream |
| HttpResponse.Prepend | src/handlers/http.py:124 | a chunk decoded before the rest comes first in the body, and errors pass through |
| HttpResponse.PrependPrepend | src/handlers/http.py:124 | collecting two chunks one after the other is collecting their concatenation |
| HttpResponse.ChunkedStep | src/handlers/http.py:123-126 | a positive (or `-1`) size line contributes the chunk after it, and decoding goes on two bytes after the chunk |
| HttpResponse.BodyFrom | src/handlers/http.py:84-92 | the body is never longer than what is left of the stream; its only failures are those of the chunked coding and a `Content-Length` that is not an integer or is below -1 |
| HttpResponse.ParseResponse | src/handlers/http.py:63-99 | an empty reply is "no response" and nothing else is; a status line without a space is malformed; a response's status is the status line's code, its headers are a map, its body is bytes no longer than the reply and its content type is the `content-type` header |
| HttpFetch.SkipTrailer | src/handlers/http.py:118-121 | the trailer loop leaves the reader just past the first blank line, or at the end |
| HttpFetch.ReadChunked | src/handlers/http.py:105-127 | `_read_chunked` returns what `ChunkedFrom` decodes, fails as it fails, and leaves the reader where it ends |
| HttpFetch.FetchSpec | src/handlers/http.py:45-103 | a failed exchange is a transport error; otherwise the response is what the reply parses to |
| HttpFetch.ReadHeaders | src/handlers/http.py:73-81 | the header loop fills the map `HeadersFrom` describes and leaves the reader past the blank line |
| HttpFetch.ReadBody | src/handlers/http.py:84-92 | the body read is `BodyFrom` of the stream: chunked first, else `Content-Length`, else to the end |
| HttpFetch.Fetch | src/handlers/http.py:45-99 | `fetch` returns exactly `FetchSpec` |
| HttpWire.ReadWire | src/handlers/http.py:64 | a line sent with CRLF reads back as that line plus CRLF, and the reader moves past both |
| HttpWire.StatusOfLine | src/handlers/http.py:67-70 | the status of `<version> <code> <reason>` is the code whatever the reason holds, when the version has no space |
| HttpWire.FieldOfLine | src/handlers/http.py:80-81 | a `Name: value` line gives the lower-cased name and the value |
| HttpWire.ReadHeaderBlock | src/handlers/http.py:73-81 | the header loop stores the field of every header line in order and stops just past the blank line after them |
| HttpWire.LastWins | src/handlers/http.py:81 | when several fields set a key, the last of them gives its value |
| HttpWire.KeptKey | src/handlers/http.py:81 | fields that do not set a key leave its entry as it was |
| HttpWire.LastLineWins | src/handlers/http.py:74-81 | for header lines, the last line that sets a key gives its value in the map |
| HttpWire.HexText | src/handlers/http.py:111-113 | hexadecimal digits fit on one line, have no surrounding whitespace and no `;` |
| HttpWire.HexLine | src/handlers/http.py:111-113 | a size line of hexadecimal digits, with or without a `;` extension, gives its size back |
| HttpWire.ReadTrailer | src/handlers/http.py:118-121 | the trailer loop skips every trailer line and the blank line after them |
| HttpWire.LastChunkRoundTrip | src/handlers/http.py:116-122 | a `0` size line and a trailer end the body with nothing more, past the trailer's blank line |
| HttpWire.ChunkedRoundTrip | src/handlers/http.py:105-127 | decoding the chunked coding of any non-empty chunks gives them joined, and leaves the stream just past the coding |
| HttpMessage.Answer | src/handlers/http.py:97-99 | a failed body read is the response's error; otherwise the response holds the status, the headers, the body as bytes and the `content-type` header |
| HttpMessage.ParseMessage | src/handlers/http.py:63-99 | a reply made of a status line, header lines and a blank line parses to its code and the header map, with the body read from just after the blank line |
| HttpMessage.MessageToEnd | src/handlers/http.py:90-92 | without `Transfer-Encoding` or `Content-Length`, the body is everything after the head |
| HttpMessage.MessageContentLength | src/handlers/http.py:87-89 | with `Content-Length: n` and no chunked coding, the body is the next `n` bytes, or all that is left when the stream ends first |
| HttpMessage.MessageBadContentLength | src/handlers/http.py:87-88 | a `Content-Length` that is not an integer is an error when the body is not chunked |
| HttpMessage.MessageChunked | src/handlers/http.py:84-86 | with `Transfer-Encoding: chunked` the body is the chunks joined, whatever `Content-Length` says, and bytes after the coding are not read |
| HttpMessage.ContentLengthLine | src/handlers/http.py:80-88 | a `Content-Length: <n>` line sets `content-length` to a text that `int()` reads back as `n` |
| HttpMessage.ContentLengthField | src/handlers/http.py:80-81 | a `Content-Length: <d>` line sets the lower-cased key `content-length` to `d` |
| HttpMessage.BlankSizeLine | src/handlers/http.py:111-115 | a blank line where a chunk size is due is an invalid size, not the end of the body |
| HttpMessage.MinusOneSize | src/handlers/http.py:108-126 | a chunk size of `-1` reads the rest of the stream, so the body is then truncated |
| DataUrl.ContentTypeOf | src/handlers/data.py:23-29 | without the `;base64` flag the content type is the media part, or none when that is empty; with the flag it is never the media part itself |
| DataUrl.PayloadBytes | src/handlers/data.py:31-38 | plain payloads always decode, to no more bytes than their UTF-8 encoding |
| DataUrl.FetchData | src/handlers/data.py:15-40 | fails only for a URL not starting with `data:` (exactly then `NotDataUrl`), a missing comma or bad base64; a response has status 200, empty headers and a byte body |
| DataUrl.NoComma | src/handlers/data.py:18-21 | a `data:` URL without a comma is malformed |
| DataUrl.FirstComma | src/handlers/data.py:19 | the content type comes from the text before the first comma alone, and the body from everything after it, later commas included |
| DataUrl.PlainPayload | src/handlers/data.py:36-40 | without the flag, the body is the percent-decoding of the payload's UTF-8 bytes, and the type is the media part or none |
| DataUrl.Base64Payload | src/handlers/data.py:31-35 | with the flag, the body is the base64-decoded payload, and payload that does not decode is `Base64DecodeError` |
| DataUrl.Base64Type | src/handlers/data.py:25-27 | `<type>;base64` names `<type>`, and `;base64` alone names no type |
| DataUrl.Base64Url | src/handlers/data.py:25-40 | a base64 URL whose payload decodes gives status 200, empty headers, the decoded bytes and the type before `;base64` |
| DataUrl.Base64RoundTrip | src/handlers/data.py:15-40 | any bytes come back from the base64 `data:` URL that carries them, with the media type given |
| DataUrl.PercentRoundTrip | src/handlers/data.py:36-38 | any bytes come back from the plain `data:` URL that carries them fully percent-escaped |
| DataUrl.HelloBase64 | src/handlers/data.py:33 | `SGVsbG8=` decodes to `Hello` |
| DataUrl.HelloExample | src/handlers/data.py:15-40 | `data:text/plain;base64,SGVsbG8=` is the bytes of `Hello`, of type `text/plain` |
| DataUrl.EscapedSpace | src/handlers/data.py:38 | `%20` decodes to a space, with the text before it copied and the text after it decoded on its own |
| DataUrl.AsciiSpace | src/handlers/data.py:38 | between two ASCII texts without `%`, `%20` decodes to a space and nothing else changes |
| DataUrl.HelloWorldExample | src/handlers/data.py:15-40 | `data:,Hello%20World` is the bytes of `Hello World`, with no content type |
| DataUrl.LiteralPayload | src/handlers/data.py:28-40 | a plain URL with ASCII payload and no `%` gives the payload's bytes as they are, of the type named |
| DataUrl.NoCommaExample | src/handlers/data.py:18-21 | `data:text/plain` is malformed |
| Base64.Decode | src/handlers/data.py:33 | only text whose length is a multiple of four decodes |
| Base64.AlphabetChar | src/handlers/data.py:33 | every 6-bit value has an alphabet character that decodes back to it |
| Base64.Encode | src/handlers/data.py:33 | the padded encoding is a multiple of four characters long, and empty exactly for no bytes |
| Base64.DecodeEncode | src/handlers/data.py:33 | decoding the encoding of any bytes gives them back |
| Percent.Decode | src/handlers/data.py:38 | decoding never lengthens its input, keeps non-empty input non-empty, and leaves input without `%` unchanged |
| Percent.DecodePlainPrefix | src/handlers/data.py:38 | bytes before the first `%` pass through unchanged, whatever follows them |
| Percent.DecodePlain | src/handlers/data.py:38 | a byte other than `%` is copied, and decoding goes on after it |
| Percent.Encode | src/handlers/data.py:38 | the escaped form is three bytes per byte |
| Percent.DecodeEncode | src/handlers/data.py:38 | decoding the escaped form of any bytes gives them back |
| Percent.EncodeIsAscii | src/handlers/data.py:38 | the escaped form is ASCII |
| Ints.TrimShape | src/handlers/http.py:30 | `int()` reads a slice of its text that neither starts nor ends with whitespace |
| Ints.ParseDecimal | src/handlers/http.py:30 | `int(str(n)) == n` for every integer |
| Ints.ParseHex | src/handlers/http.py:113 | `int(format(n, "x"), 16) == n` for every non-negative integer |
| Ints.NoDigitNoNumber | src/handlers/http.py:113 | text without a single digit, such as a blank line, is not a number |
| Ints.DecimalChars | src/handlers/http.py:30 | `str(n)` holds no `/`, `:` or space |
| Text.StripShape | src/handlers/http.py:81 | `strip()` leaves the slice between the leading and the trailing whitespace, which neither starts nor ends with whitespace |
| Text.StripPadded | src/handlers/http.py:81 | whitespace around text without surrounding whitespace is stripped to that text |
| Text.LowerAt | src/handlers/base.py:25 | `lower()` works character by character |
| Text.LowerIdempotent | src/handlers/registry.py:9 | lower-casing twice is lower-casing once |
| Text.LowerAppend | src/handlers/registry.py:19 | lower-casing distributes over concatenation |
| Text.IndexOfShape | src/handlers/renderers.py:33 | the index found holds the element and none before it does; there is none exactly when it does not occur |
| Text.SplitOnceShape | src/handlers/http.py:21 | `split(c, 1)` gives two parts exactly when `c` occurs, and they lie around its first occurrence |
| Text.BeforeFirstShape | src/handlers/base.py:25 | `split(c, 1)[0]` is a prefix without `c`, followed by `c` unless it is everything |
| Text.FindSub | src/handlers/http.py:19 | the index found is the first occurrence of the text, and there is none exactly when it does not occur |
| Text.FindSubAppend | src/handlers/http.py:19 | the first `://` after a scheme without `:` is the one right after it |
| Text.RemoveAll | src/handlers/data.py:27 | `replace(t, "")` never lengthens the text, and leaves it unchanged exactly when `t` does not occur |
| Text.RemoveAllSuffix | src/handlers/data.py:27 | removing `t` from `a + t`, where `a` lacks `t`'s first character, leaves `a` |
| Bytes.Latin1Decode | src/handlers/http.py:64 | ISO-8859-1 decoding gives one character per byte |
| Bytes.Latin1RoundTrip | src/handlers/http.py:64 | ISO-8859-1 decoding undoes encoding |
| Bytes.Utf8Encode | src/handlers/http.py:61 | UTF-8 encoding is never shorter than the text |
| Bytes.Utf8EncodeAppend | src/handlers/view_source.py:30 | UTF-8 encoding distributes over concatenation |
| Bytes.Utf8EncodeAscii | src/handlers/http.py:61 | ASCII text encodes to its character codes, one byte each |
| FileUrl.DropFirst | src/handlers/file.py:21 | `s[7:]` is empty for shorter text and otherwise what follows the first seven characters |
| FileUrl.LocalPath | src/handlers/file.py:21-30 | the path is the URL after its first seven characters, less its leading `/` only on Windows and only before a drive letter |
| FileUrl.DecodedPath | src/handlers/file.py:31 | the decoded path is empty exactly when the undecoded one is |
| FileUrl.FetchFile | src/handlers/file.py:19-44 | an empty path is refused (exactly then `EmptyFilePath`); a decoded path holding a NUL fails exactly then with `EmbeddedNul`, the `ValueError` of `open` that neither `except` clause catches; a non-empty, NUL-free path whose file is missing fails exactly then with `FileNotFound`, and one whose file cannot be read exactly then with `FileReadError`, both naming the decoded path; a response has status 200, empty headers, the file's bytes and the type guessed from the decoded path |
| FileUrl.PrefixNotChecked | src/handlers/file.py:21 | any seven characters are taken for `file://` |
| FileUrl.DriveLetter | src/handlers/file.py:22-30 | `file:///C:/x` opens `C:/x` on Windows and `/C:/x` elsewhere |
| FileUrl.EscapedDriveLetter | src/handlers/file.py:23-31 | an escaped drive letter is not seen as one, so its slash stays |
| FileUrl.EmptyPath | src/handlers/file.py:32-33 | `file://` alone is an empty path |
| FileUrl.NulInPath | src/handlers/file.py:31-41 | `file:///a%00b` decodes to a path holding a NUL, and the fetch fails with `EmbeddedNul` rather than a `HandlerError` |
| Registry.Construct | src/handlers/registry.py:23 | every handler keeps the URL it was given; only the HTTP constructor can fail, and then with its own error |
| Registry.Registered | src/handlers/registry.py:8-15 | registering sets the lower-cased scheme to the class and keeps every other entry |
| Registry.Dispatch | src/handlers/registry.py:18-23 | an unregistered scheme fails naming it; a registered one gives its class built with the whole URL, or the HTTP constructor's error |
| Registry.HandlerTable.constructor | src/handlers/registry.py:5 | the table starts empty |
| Registry.HandlerTable.Register | src/handlers/registry.py:8-15 | `register` updates the table as `Registered` says and gives the class back |
| Registry.HandlerTable.GetHandlerFor | src/handlers/registry.py:18-23 | `get_handler_for` returns what `Dispatch` gives on the current table |
| Registry.LoadBuiltins | src/handlers/__init__.py:9-17 | importing the package leaves the five built-in schemes registered |
| Registry.LowerOfBuiltinNames | src/handlers/registry.py:9 | the built-in scheme names are already lower case |
| Registry.RegisterLastWins | src/handlers/registry.py:9-12 | registering a scheme twice, in any case, keeps the second class |
| Registry.DispatchRegistered | src/handlers/registry.py:18-23 | after `register(s)`, every URL whose scheme is `s` in any case gets that class |
| Registry.DispatchOtherScheme | src/handlers/registry.py:12 | registering a scheme does not change how other schemes dispatch |
| Registry.BuiltinSchemes | src/handlers/http.py:130-131 | `http` and `https` share one class, and exactly five schemes are known |
| Registry.UnregisteredScheme | src/handlers/registry.py:19-22 | a scheme outside the built-in table fails, naming the lower-cased scheme |
| Registry.UnknownSchemeExample | src/handlers/registry.py:19-22 | `ftp://example.com` fails naming `ftp` |
| Renderers.StripTagsAndUnescape | src/handlers/renderers.py:9-45 | the loop returns the text `Render` reads from the whole input, starting outside a tag |
| Renderers.PlainPrefix | src/handlers/renderers.py:43-44 | outside a tag, text without `<`, `>` or `&` is copied in order |
| Renderers.PlainText | src/handlers/renderers.py:9-45 | text without `<`, `>` or `&` comes out unchanged |
| Renderers.InsideTag | src/handlers/renderers.py:24-30 | inside a tag everything up to the next `>` is dropped, and the scan leaves the tag after it |
| Renderers.Tag | src/handlers/renderers.py:20-30 | a tag `<...>` is dropped whole |
| Renderers.NeverClosed | src/handlers/renderers.py:28-30 | inside a tag that is never closed nothing more is output |
| Renderers.UnclosedTag | src/handlers/renderers.py:20-30 | after an unclosed `<` the whole remainder is dropped |
| Renderers.StrayClose | src/handlers/renderers.py:24-27 | a `>` is consumed even outside a tag |
| Renderers.Entity | src/handlers/renderers.py:32-38 | outside a tag, `&` up to the first `;` after it is decoded as one span, even across `<` or `>` |
| Renderers.LoneAmpersand | src/handlers/renderers.py:39-42 | an `&` with no `;` after it is output as it is |
| Renderers.NoAngleBrackets | src/handlers/renderers.py:18-45 | when the decoder emits no `<` or `>`, the output holds none |
| Renderers.TextAroundTag | src/handlers/renderers.py:9-45 | plain text around one tag renders as the text alone |
| Renderers.EntityInParagraph | src/handlers/renderers.py:9-45 | a paragraph of plain text around one entity renders as the text with the entity decoded |
| Renderers.AmpersandText | src/handlers/renderers.py:32-44 | plain text around an `&` that no `;` follows renders as itself |
| Renderers.AmpersandExample | src/handlers/renderers.py:9-45 | `<p>A &amp; B</p>` renders as `A & B`, which renders as itself again |
| ViewSource.BodyBytes | src/handlers/view_source.py:27-30 | a byte body is kept and a text body is UTF-8 encoded |
| ViewSource.AsSource | src/handlers/view_source.py:33-38 | the wrapped response keeps status and headers, has a byte body and the type `text/plain` |
| ViewSource.FetchViewSource | src/handlers/view_source.py:16-38 | a URL not starting with `view-source:` is refused; every response has the type `text/plain` and a byte body |
| ViewSource.ViewSourceOf | src/handlers/view_source.py:20-38 | a failed inner lookup is wrapped in `NoUnderlyingHandler`, a failed inner fetch passes through, and an inner response is shown as source |
| ViewSource.InnerShorter | src/handlers/view_source.py:20 | the inner URL is shorter than the view-source URL, so nesting ends |
| ViewSource.AsSourceIdempotent | src/handlers/view_source.py:33-38 | showing the source twice is showing it once |
| ViewSource.SourceOfSource | src/handlers/view_source.py:26-38 | a byte response of type `text/plain` is left as it is |
| ViewSource.DispatchViewSource | src/handlers/view_source.py:5 | a `view-source` scheme in any case gets the view-source handler |
| ViewSource.UpperCasePrefix | src/handlers/view_source.py:17-19 | `VIEW-SOURCE:` reaches the handler and is then refused |
| ViewSource.NestedViewSource | src/handlers/view_source.py:16-38 | `view-source:view-source:u` shows the same as `view-source:u` |
| ViewSource.DispatchData | src/handlers/data.py:8 | a `data:` URL gets the data handler |
| ViewSource.ViewSourceOfData | src/handlers/view_source.py:20-38 | the source of a `data:` URL is its response as source, or its error |
| ViewSource.ViewSourceOfLiteral | src/handlers/view_source.py:16-38 | the source of a plain `data:` URL with ASCII payload and no `%` is that payload, as `text/plain` |
| ViewSource.MarkupExample | src/handlers/view_source.py:16-38 | `view-source:data:text/html,<b>hi</b>` shows the markup `<b>hi</b>` itself, as `text/plain` |
| Wrappers.Get | src/handlers/http.py:84 | `dict.get` finds a value exactly for a key in the map, and it is that key's value |

## Left out

- Sockets, the 10-second timeout, TLS wrapping and `send` (http.py 47-61) are one `Env.exchange` call. It yields every byte the server sends, or nothing when connecting or sending fails. Closing the reader and the socket is not modelled.
- Opening and reading files is `Env.readFile`. The `mimetypes` table is `Env.guessType`, and `os.name` is `Env.isWindows`.
- `html.unescape` and its entity table are the `unescape` parameter of the renderer. `unescape_entities` (renderers.py 4-6) is only that call, so it has no member of its own.
- `Handler.render` (base.py 30-38) and everything in `browser.py` only print. They are not part of this model.
- The texts of exception messages are not modelled. Each raise site is a constructor of `Base.Error`.
- The `except Exception` wrapping in `fetch` is not modelled separately. Each failure it catches is a kind of `Base.Error`.
- The insertion order of the header dictionary is left out, because it is a map in the model. The request headers are a sequence and keep their order.
- The `**kwargs` of `get_handler_for` are left out, because every call in the repository passes none.
- Base64.Decode: decoding is strict RFC 4648: a padded string of alphabet characters, `=` only in the last group. `base64.b64decode` by default is lenient, and the model refuses every non-canonical input that lenient mode accepts. It drops characters outside the alphabet (`SG Vs bG8=`). It stops at the first complete padding and ignores what follows (`SGVsbG8=QQ==` and `SGVsbG8==` both give `Hello`). It skips an `=` that cannot start padding (`SG=VsbG8=`). So `data:;base64,SGVsbG8=QQ==` is a response in the program and `Base64DecodeError` in the model.
- FileUrl.DecodedPath: does not model `unquote` replacing invalid UTF-8 with U+FFFD, because the decoded path is kept as bytes.
- Text.Lower: `str.lower()` is modelled for ASCII and Latin-1 letters only. `str.isalpha()` (`FileUrl.IsAlpha`) is likewise Latin-1 only, while `strip()` uses Python's full whitespace list.
- Ints.ParseInt: `int()` is modelled for ASCII digits. Non-ASCII decimal digits and the 4300-digit limit are left out.
- The `assert` of `DataHandler.fetch` is modelled as the `NotDataUrl` error. Under `python -O` it would be skipped.
