/**
 * What `HTTPHandler.fetch` makes of the bytes the server sends: the status
 * line, the header block and the body, framed by `Transfer-Encoding:
 * chunked` first, then `Content-Length`, then the end of the stream (the
 * order of section 6.3 of RFC 9112), with the chunked coding of section 7.1
 * of RFC 9112 as `_read_chunked` decodes it. Each function reads the stream
 * from a position, as the reader's `readline` and `read` would.
 */
module HttpResponse {
  import opened Wrappers
  import opened Bytes
  import opened Base
  import opened Stream
  import Text
  import Ints

  /** A line that ends the header block or the trailer: `"\r\n"`, `"\n"` or end of stream. */
  predicate IsBlankLine(line: string) {
    line == "\r\n" || line == "\n" || line == ""
  }

  /** The line that starts at `pos`, decoded as ISO-8859-1. */
  function LineAt(data: seq<byte>, pos: nat): (line: string)
    requires pos <= |data|
    ensures |line| == LineEnd(data, pos) - pos
    ensures line == [] <==> pos == |data|
  {
    Latin1Decode(data[pos..LineEnd(data, pos)])
  }

  // ---------------------------------------------------------------------
  // Status line

  /**
   * The status of a non-empty status line: the integer between its first
   * and its second space (or its end). Without any space the line is
   * malformed.
   */
  function StatusOf(line: string): (r: Result<int>)
    ensures r == Err(MalformedStatusLine) <==> ' ' !in line
    ensures r.Err? ==> r.error == MalformedStatusLine || r.error == InvalidStatus
  {
    Text.SplitOnceShape(line, ' ');
    match Text.SplitOnce(line, ' ')
    case None => Err(MalformedStatusLine)
    case Some((_, after)) =>
      match Ints.ParseInt(Text.BeforeFirst(after, ' '), 10)
      case None => Err(InvalidStatus)
      case Some(code) => Ok(code)
  }

  // ---------------------------------------------------------------------
  // Header block

  /** The field of a header line: the trimmed, lower-cased name before the first `:` and the trimmed rest. */
  function HeaderField(line: string): (r: Option<(string, string)>)
    ensures r.None? <==> ':' !in line
    ensures r.Some? ==> ':' !in r.value.0
  {
    Text.SplitOnceShape(line, ':');
    match Text.SplitOnce(line, ':')
    case None => None
    case Some((name, value)) =>
      var key := Text.Lower(Text.Strip(name));
      assert ':' !in key by {
        Text.StripShape(name);
        Text.LowerAt(Text.Strip(name));
        assert forall k :: 0 <= k < |key| ==> key[k] == Text.LowerChar(Text.Strip(name)[k]);
        assert forall c :: c != ':' ==> Text.LowerChar(c) != ':';
      }
      Some((key, Text.Strip(value)))
  }

  /** The header map after one more line: a line without `:` changes nothing, a later key overwrites. */
  function Store(headers: map<string, string>, field: Option<(string, string)>): (r: map<string, string>)
    ensures field.None? ==> r == headers
    ensures field.Some? ==> r.Keys == headers.Keys + {field.value.0} && r[field.value.0] == field.value.1
    ensures field.Some? ==> forall k :: k in headers && k != field.value.0 ==> r[k] == headers[k]
  {
    match field
    case None => headers
    case Some((k, v)) => headers[k := v]
  }

  /**
   * The header loop from `pos` with the headers gathered so far: the
   * headers once a blank line (or the end) is reached, and the position
   * just past that line. What the map then holds is stated, for a head
   * built from its lines, by `HttpWire.ReadHeaderBlock` (every line's
   * field, stored in order) and `HttpWire.LastLineWins` (the last line
   * that sets a key gives its value).
   */
  function HeadersFrom(data: seq<byte>, pos: nat, acc: map<string, string>): (r: (map<string, string>, nat))
    requires pos <= |data|
    ensures pos <= r.1 <= |data|
    ensures acc.Keys <= r.0.Keys
    decreases |data| - pos
  {
    var e := LineEnd(data, pos);
    var line := LineAt(data, pos);
    if IsBlankLine(line) then (acc, e)
    else HeadersFrom(data, e, Store(acc, HeaderField(line)))
  }

  // ---------------------------------------------------------------------
  // Chunked transfer coding

  /** The text of a chunk-size line that `int(_, 16)` reads: the trimmed line before any `;`. */
  function SizeText(line: string): (t: string)
    ensures ';' !in t && |t| <= |line|
  {
    Text.BeforeFirstShape(Text.Strip(line), ';');
    Text.BeforeFirst(Text.Strip(line), ';')
  }

  /** The chunk size a size line gives, if its size text is an integer in base 16. */
  function ChunkSize(line: string): Option<int> {
    Ints.ParseInt(SizeText(line), 16)
  }

  /** The trailer loop: the position just past the first blank line (or the end) from `pos`. */
  function TrailerEnd(data: seq<byte>, pos: nat): (e: nat)
    requires pos <= |data|
    ensures pos <= e <= |data|
    ensures e == pos <==> pos == |data|
    decreases |data| - pos
  {
    var e := LineEnd(data, pos);
    if IsBlankLine(LineAt(data, pos)) then e else TrailerEnd(data, e)
  }

  /**
   * `_read_chunked` from `pos`: the concatenated chunk data and the
   * position where the stream is left. A size line at the end of the
   * stream is "truncated", one whose size text is not hexadecimal (a blank
   * line among them) is an invalid size; size 0 ends the body and skips the
   * trailer; after every chunk two bytes are skipped unread.
   */
  function ChunkedFrom(data: seq<byte>, pos: nat): (r: Result<(seq<byte>, nat)>)
    requires pos <= |data|
    ensures r.Ok? ==> pos < r.value.1 <= |data|
    ensures r.Err? ==> (r.error == ChunkedTruncated || r.error == InvalidChunkSize || r.error == InvalidReadLength)
    ensures pos == |data| ==> r == Err(ChunkedTruncated)
    decreases |data| - pos
  {
    var e := LineEnd(data, pos);
    if e == pos then Err(ChunkedTruncated)
    else
      var size := ChunkSize(LineAt(data, pos));
      if size.None? then Err(InvalidChunkSize)
      else if size.value == 0 then Ok(([], TrailerEnd(data, e)))
      else if size.value < -1 then Err(InvalidReadLength)
      else
        var c := ReadEnd(data, e, size.value);
        Prepend(data[e..c], ChunkedFrom(data, ReadEnd(data, c, 2)))
  }

  /** The decoded body is never longer than what is left of the stream. */
  lemma {:induction false} ChunkedFromBound(data: seq<byte>, pos: nat)
    requires pos <= |data|
    ensures ChunkedFrom(data, pos).Ok? ==> |ChunkedFrom(data, pos).value.0| <= |data| - pos
    decreases |data| - pos
  {
    var r := ChunkedFrom(data, pos);
    if r.Ok? {
      var e := LineEnd(data, pos);
      var size := ChunkSize(LineAt(data, pos));
      assert e != pos && size.Some? && size.value >= -1;
      if size.value == 0 {
        assert r.value.0 == [];
      } else {
        var c := ReadEnd(data, e, size.value);
        var next := ReadEnd(data, c, 2);
        ChunkedStepAt(data, pos, e, size.value, c, next);
        ChunkedFromBound(data, next);
        PrependBound(data[e..c], ChunkedFrom(data, next), |data| - next);
      }
    }
  }

  lemma PrependBound(prefix: seq<byte>, r: Result<(seq<byte>, nat)>, n: nat)
    requires r.Ok? ==> |r.value.0| <= n
    ensures Prepend(prefix, r).Ok? ==> |Prepend(prefix, r).value.0| <= |prefix| + n
  {
  }

  /** The decoding of what is left of a chunked body, with `prefix` already decoded before it. */
  function Prepend(prefix: seq<byte>, r: Result<(seq<byte>, nat)>): (p: Result<(seq<byte>, nat)>)
    ensures r.Err? ==> p == r
    ensures r.Ok? ==> p.Ok? && p.value.0 == prefix + r.value.0 && p.value.1 == r.value.1
  {
    if r.Err? then r else Ok((prefix + r.value.0, r.value.1))
  }

  lemma PrependPrepend(a: seq<byte>, b: seq<byte>, r: Result<(seq<byte>, nat)>)
    ensures Prepend(a, Prepend(b, r)) == Prepend(a + b, r)
  {
    if r.Ok? {
      assert a + (b + r.value.0) == (a + b) + r.value.0;
    }
  }

  /** What one size line and the chunk after it contribute. */
  lemma ChunkedStep(data: seq<byte>, pos: nat)
    requires pos < |data|
    requires ChunkSize(LineAt(data, pos)).Some?
    requires ChunkSize(LineAt(data, pos)).value > 0 || ChunkSize(LineAt(data, pos)).value == -1
    ensures var e := LineEnd(data, pos);
      var c := ReadEnd(data, e, ChunkSize(LineAt(data, pos)).value);
      ChunkedFrom(data, pos) == Prepend(data[e..c], ChunkedFrom(data, ReadEnd(data, c, 2)))
  {
  }

  /** The same step, with the positions it reaches named. */
  lemma ChunkedStepAt(data: seq<byte>, pos: nat, e: nat, n: int, c: nat, next: nat)
    requires pos < |data| && e == LineEnd(data, pos)
    requires ChunkSize(LineAt(data, pos)) == Some(n) && (n > 0 || n == -1)
    requires c == ReadEnd(data, e, n) && next == ReadEnd(data, c, 2)
    ensures ChunkedFrom(data, pos) == Prepend(data[e..c], ChunkedFrom(data, next))
  {
    ChunkedStep(data, pos);
  }

  // ---------------------------------------------------------------------
  // Body framing and the whole response

  /** `te and "chunked" in te.lower()` for the `transfer-encoding` header. */
  predicate IsChunked(headers: map<string, string>) {
    "transfer-encoding" in headers && headers["transfer-encoding"] != []
    && Text.Contains(Text.Lower(headers["transfer-encoding"]), "chunked")
  }

  /** The body that follows the header block at `pos`. */
  function BodyFrom(data: seq<byte>, pos: nat, headers: map<string, string>): (r: Result<seq<byte>>)
    requires pos <= |data|
    ensures r.Ok? ==> |r.value| <= |data| - pos
    ensures r.Err? ==> (r.error == ChunkedTruncated || r.error == InvalidChunkSize || r.error == InvalidReadLength
      || r.error == InvalidContentLength)
  {
    if IsChunked(headers) then
      ChunkedFromBound(data, pos);
      match ChunkedFrom(data, pos)
      case Err(x) => Err(x)
      case Ok((body, _)) => Ok(body)
    else if "content-length" in headers then
      match Ints.ParseInt(headers["content-length"], 10)
      case None => Err(InvalidContentLength)
      case Some(n) =>
        if n < -1 then Err(InvalidReadLength) else Ok(data[pos..ReadEnd(data, pos, n)])
    else Ok(data[pos..])
  }

  /**
   * The response `fetch` builds from everything the server sent: an empty
   * stream is "no response"; the headers are the map the header loop
   * built, the body is bytes and the content type is the `content-type`
   * header, if any.
   */
  function ParseResponse(data: seq<byte>): (r: Result<Response>)
    ensures r == Err(NoResponse) <==> data == []
    ensures data != [] && ' ' !in LineAt(data, 0) ==> r == Err(MalformedStatusLine)
    ensures r.Ok? ==> StatusOf(LineAt(data, 0)) == Ok(r.value.status)
    ensures r.Ok? ==> r.value.headers.Some? && r.value.body.Binary?
    ensures r.Ok? ==> r.value.contentType == Get(r.value.headers.value, "content-type")
    ensures r.Ok? ==> |r.value.body.bytes| <= |data|
  {
    var e := LineEnd(data, 0);
    var statusLine := LineAt(data, 0);
    if statusLine == [] then Err(NoResponse)
    else
      match StatusOf(statusLine)
      case Err(x) => Err(x)
      case Ok(status) =>
        var (headers, p) := HeadersFrom(data, e, map[]);
        match BodyFrom(data, p, headers)
        case Err(x) => Err(x)
        case Ok(body) => Ok(Response(status, Some(headers), Binary(body), Get(headers, "content-type")))
  }
}
