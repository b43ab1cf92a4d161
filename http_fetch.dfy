/**
 * `HTTPHandler.fetch` and `_read_chunked` as the loops they are: they read
 * a `Stream.Reader` line by line, fill the header map in place and collect
 * the chunks in a list, and are proved to compute what the functions of
 * `HttpResponse` describe.
 */
module HttpFetch {
  import opened Wrappers
  import opened Bytes
  import opened Base
  import opened Stream
  import opened HttpResponse
  import Text
  import Ints
  import Http

  /** The trailer loop: reads lines up to and including a blank one, or to the end. */
  method SkipTrailer(rfile: Reader)
    requires rfile.Valid()
    modifies rfile
    ensures rfile.Valid()
    ensures rfile.pos == TrailerEnd(rfile.data, old(rfile.pos))
  {
    ghost var data := rfile.data;
    ghost var start := rfile.pos;
    while true
      invariant rfile.Valid() && rfile.data == data
      invariant TrailerEnd(data, start) == TrailerEnd(data, rfile.pos)
      decreases |data| - rfile.pos
    {
      ghost var at := rfile.pos;
      var l := rfile.ReadLine();
      assert Latin1Decode(l) == LineAt(data, at);
      if IsBlankLine(Latin1Decode(l)) {
        return;
      }
    }
  }

  /**
   * `_read_chunked`: reads size lines, chunks and the two bytes after each
   * chunk until a size of 0, then the trailer up to a blank line; stops at
   * the first error.
   */
  method ReadChunked(rfile: Reader) returns (r: Result<seq<byte>>)
    requires rfile.Valid()
    modifies rfile
    ensures rfile.Valid()
    ensures ChunkedFrom(rfile.data, old(rfile.pos)).Err? ==> r == Err(ChunkedFrom(rfile.data, old(rfile.pos)).error)
    ensures ChunkedFrom(rfile.data, old(rfile.pos)).Ok? ==>
      r == Ok(ChunkedFrom(rfile.data, old(rfile.pos)).value.0)
      && rfile.pos == ChunkedFrom(rfile.data, old(rfile.pos)).value.1
  {
    ghost var data := rfile.data;
    ghost var start := rfile.pos;
    var parts: seq<seq<byte>> := [];
    assert Prepend([], ChunkedFrom(data, start)) == ChunkedFrom(data, start) by {
      if ChunkedFrom(data, start).Ok? {
        assert [] + ChunkedFrom(data, start).value.0 == ChunkedFrom(data, start).value.0;
      }
    }
    while true
      invariant rfile.Valid() && rfile.data == data
      invariant ChunkedFrom(data, start) == Prepend(Text.Join(parts), ChunkedFrom(data, rfile.pos))
      decreases |data| - rfile.pos
    {
      ghost var here := rfile.pos;
      var lineBytes := rfile.ReadLine();
      var line := Latin1Decode(lineBytes);
      assert line == LineAt(data, here);
      if line == [] {
        return Err(ChunkedTruncated);
      }
      var size := Ints.ParseInt(SizeText(line), 16);
      assert size == ChunkSize(LineAt(data, here));
      if size.None? {
        return Err(InvalidChunkSize);
      }
      if size.value == 0 {
        SkipTrailer(rfile);
        assert Text.Join(parts) + [] == Text.Join(parts);
        return Ok(Text.Join(parts));
      }
      ghost var e := rfile.pos;
      var chunk := rfile.Read(size.value);
      if chunk.None? {
        return Err(InvalidReadLength);
      }
      ghost var next := ReadEnd(data, rfile.pos, 2);
      assert ChunkedFrom(data, here) == Prepend(chunk.value, ChunkedFrom(data, next)) by {
        ChunkedStep(data, here);
      }
      ghost var whole := ChunkedFrom(data, start);
      assert whole == Prepend(Text.Join(parts) + chunk.value, ChunkedFrom(data, next)) by {
        PrependPrepend(Text.Join(parts), chunk.value, ChunkedFrom(data, next));
      }
      ghost var joined := Text.Join(parts) + chunk.value;
      Text.JoinAppend(parts, chunk.value);
      parts := parts + [chunk.value];
      assert Text.Join(parts) == joined;
      var skipped := rfile.Read(2);
      assert rfile.pos == next;
      assert whole == Prepend(Text.Join(parts), ChunkedFrom(data, rfile.pos));
    }
  }

  /** The outcome of `fetch`: a failed exchange is a transport error, else the parsed response. */
  function FetchSpec(h: Http.HttpHandler, env: Env): (r: Result<Response>)
    ensures env.exchange(Http.ConnectionFor(h)).None? ==> r == Err(Transport)
    ensures env.exchange(Http.ConnectionFor(h)).Some? ==> r == ParseResponse(env.exchange(Http.ConnectionFor(h)).value)
  {
    match env.exchange(Http.ConnectionFor(h))
    case None => Err(Transport)
    case Some(data) => ParseResponse(data)
  }

  /** The header loop of `fetch`: header lines into a map until a blank line. */
  method ReadHeaders(rfile: Reader) returns (headers: map<string, string>)
    requires rfile.Valid()
    modifies rfile
    ensures rfile.Valid()
    ensures (headers, rfile.pos) == HeadersFrom(rfile.data, old(rfile.pos), map[])
  {
    ghost var data := rfile.data;
    ghost var start := rfile.pos;
    headers := map[];
    while true
      invariant rfile.Valid() && rfile.data == data
      invariant HeadersFrom(data, start, map[]) == HeadersFrom(data, rfile.pos, headers)
      decreases |data| - rfile.pos
    {
      ghost var at := rfile.pos;
      var lineBytes := rfile.ReadLine();
      var line := Latin1Decode(lineBytes);
      assert line == LineAt(data, at);
      if IsBlankLine(line) {
        return;
      }
      if ':' !in line {
        continue;
      }
      var (name, value) := Text.SplitOnce(line, ':').value;
      headers := headers[Text.Lower(Text.Strip(name)) := Text.Strip(value)];
    }
  }

  /** The body framing of `fetch`: chunked, else `Content-Length` bytes, else the rest of the stream. */
  method ReadBody(rfile: Reader, headers: map<string, string>) returns (r: Result<seq<byte>>)
    requires rfile.Valid()
    modifies rfile
    ensures rfile.Valid()
    ensures r == BodyFrom(rfile.data, old(rfile.pos), headers)
  {
    var te := Get(headers, "transfer-encoding");
    if te.Some? && te.value != [] && Text.Contains(Text.Lower(te.value), "chunked") {
      var chunked := ReadChunked(rfile);
      return chunked;
    } else if "content-length" in headers {
      var length := Ints.ParseInt(headers["content-length"], 10);
      if length.None? {
        return Err(InvalidContentLength);
      }
      var read := rfile.Read(length.value);
      if read.None? {
        return Err(InvalidReadLength);
      }
      return Ok(read.value);
    } else {
      ghost var at := rfile.pos;
      var read := rfile.Read(-1);
      assert read.value == rfile.data[at..];
      return Ok(read.value);
    }
  }

  /**
   * `HTTPHandler.fetch`: sends the request, then reads the status line,
   * the header block and the body.
   */
  method Fetch(h: Http.HttpHandler, env: Env) returns (r: Result<Response>)
    ensures r == FetchSpec(h, env)
  {
    var reply := env.exchange(Http.ConnectionFor(h));
    if reply.None? {
      return Err(Transport);
    }
    var data := reply.value;
    var rfile := new Reader(data);
    var statusBytes := rfile.ReadLine();
    var statusLine := Latin1Decode(statusBytes);
    if statusLine == [] {
      return Err(NoResponse);
    }
    var status := StatusOf(statusLine);
    if status.Err? {
      return Err(status.error);
    }
    var headers := ReadHeaders(rfile);
    var body := ReadBody(rfile, headers);
    if body.Err? {
      return Err(body.error);
    }
    r := Ok(Response(status.value, Some(headers), Binary(body.value), Get(headers, "content-type")));
  }
}
