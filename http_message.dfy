/**
 * Whole responses: a status line, header lines and a blank line, then a
 * body, and what `HTTPHandler.fetch` makes of them under each of the three
 * framings of the body (chunked, `Content-Length`, to the end of the
 * stream), plus the chunked decoder's error paths.
 */
module HttpMessage {
  import opened Wrappers
  import opened Bytes
  import opened Base
  import opened Stream
  import opened HttpResponse
  import opened HttpWire
  import Text
  import Ints

  /** Lines a response head is made of: ISO-8859-1, no LF, not blank. */
  predicate HeaderLines(ls: seq<string>) {
    forall i :: 0 <= i < |ls| ==> TextLine(ls[i]) && ls[i] != ""
  }

  /** The status line, the header lines and the blank line, as sent. */
  function Head(version: string, code: int, reason: string, ls: seq<string>): (b: seq<byte>)
    requires TextLine(StatusLine(version, code, reason)) && HeaderLines(ls)
  {
    Wire(StatusLine(version, code, reason)) + WireLines(ls) + CRLF
  }

  /** The header map the header lines build. */
  function HeaderMap(ls: seq<string>): map<string, string> {
    StoreAll(map[], FieldsOf(ls))
  }

  /** The response `fetch` returns for a status, a header map and the outcome of reading the body. */
  function Answer(code: int, h: map<string, string>, body: Result<seq<byte>>): (r: Result<Response>)
    ensures body.Err? ==> r == Err(body.error)
    ensures body.Ok? ==> (r.Ok? && r.value.status == code && r.value.headers == Some(h)
      && r.value.body == Binary(body.value) && r.value.contentType == Get(h, "content-type"))
  {
    match body
    case Err(x) => Err(x)
    case Ok(b) => Ok(Response(code, Some(h), Binary(b), Get(h, "content-type")))
  }

  /**
   * A response whose status line has a version without spaces: the status
   * is its code, the headers are what the header lines build, and the body
   * is read from just after the blank line.
   */
  lemma ParseMessage(version: string, code: int, reason: string, ls: seq<string>, body: seq<byte>)
    requires ' ' !in version && TextLine(StatusLine(version, code, reason)) && HeaderLines(ls)
    ensures var data := Head(version, code, reason, ls) + body;
      |Head(version, code, reason, ls)| <= |data|
      && ParseResponse(data) == Answer(code, HeaderMap(ls), BodyFrom(data, |Head(version, code, reason, ls)|, HeaderMap(ls)))
  {
    var data := Head(version, code, reason, ls) + body;
    var e := |Wire(StatusLine(version, code, reason))|;
    HeadLayout(version, code, reason, ls, body, e);
    ParseResponseAt(data, e, code, HeaderMap(ls), |Head(version, code, reason, ls)|);
  }

  /** Where the status line and the header block of a response end, and what they give. */
  lemma HeadLayout(version: string, code: int, reason: string, ls: seq<string>, body: seq<byte>, e: nat)
    requires ' ' !in version && TextLine(StatusLine(version, code, reason)) && HeaderLines(ls)
    requires e == |Wire(StatusLine(version, code, reason))|
    ensures var data := Head(version, code, reason, ls) + body;
      0 < e <= |data| && LineEnd(data, 0) == e && StatusOf(LineAt(data, 0)) == Ok(code)
      && HeadersFrom(data, e, map[]).0 == HeaderMap(ls) && HeadersFrom(data, e, map[]).1 == |Head(version, code, reason, ls)|
  {
    var w := Wire(StatusLine(version, code, reason));
    var rest := WireLines(ls) + CRLF;
    var data := Head(version, code, reason, ls) + body;
    assert HasAt(data, 0, w) && HasAt(data, e, rest) by {
      Sections(w, WireLines(ls), CRLF, body);
      HasAtMiddle([], w, rest + body);
      HasAtMiddle(w, rest, body);
    }
    StatusLineAt(data, version, code, reason, e);
    ReadHeaderBlock(data, e, ls, map[]);
  }

  lemma Regroup3(a: seq<byte>, b: seq<byte>, c: seq<byte>)
    ensures a + (b + c) == a + b + c
  {
  }

  /** The status line, the header lines, the blank line and the body, grouped two ways. */
  lemma Sections(w: seq<byte>, m: seq<byte>, c: seq<byte>, b: seq<byte>)
    ensures w + m + c + b == [] + w + ((m + c) + b)
    ensures w + m + c + b == w + (m + c) + b
  {
  }

  /** A stream that starts with a status line starts with a line that gives its code as the status. */
  lemma StatusLineAt(data: seq<byte>, version: string, code: int, reason: string, e: nat)
    requires ' ' !in version && TextLine(StatusLine(version, code, reason))
    requires HasAt(data, 0, Wire(StatusLine(version, code, reason))) && e == |Wire(StatusLine(version, code, reason))|
    ensures 0 < e <= |data| && LineEnd(data, 0) == e && StatusOf(LineAt(data, 0)) == Ok(code)
  {
    var s := StatusLine(version, code, reason);
    ReadWire(data, 0, s);
    StatusOfLine(version, code, reason);
  }

  /** `fetch` once the status line and the header block are read. */
  lemma ParseResponseAt(data: seq<byte>, e: nat, code: int, h: map<string, string>, p: nat)
    requires 0 < e <= |data| && LineEnd(data, 0) == e && StatusOf(LineAt(data, 0)) == Ok(code)
    requires HeadersFrom(data, e, map[]).0 == h && HeadersFrom(data, e, map[]).1 == p
    ensures p <= |data| && ParseResponse(data) == Answer(code, h, BodyFrom(data, p, h))
  {
    assert LineAt(data, 0) != [];
  }

  /** Without `Transfer-Encoding: chunked` or `Content-Length`, the body is everything after the head. */
  lemma MessageToEnd(version: string, code: int, reason: string, ls: seq<string>, body: seq<byte>)
    requires ' ' !in version && TextLine(StatusLine(version, code, reason)) && HeaderLines(ls)
    requires "transfer-encoding" !in HeaderMap(ls) && "content-length" !in HeaderMap(ls)
    ensures ParseResponse(Head(version, code, reason, ls) + body)
         == Ok(Response(code, Some(HeaderMap(ls)), Binary(body), Get(HeaderMap(ls), "content-type")))
  {
    ParseMessage(version, code, reason, ls, body);
    var head := Head(version, code, reason, ls);
    AfterHead(head, body, 0, |head|);
  }

  /**
   * With a `Content-Length` of `n` and no chunked coding, the body is the
   * next `n` bytes, or all that is left when the stream ends first.
   */
  lemma MessageContentLength(version: string, code: int, reason: string, ls: seq<string>, body: seq<byte>, n: nat)
    requires ' ' !in version && TextLine(StatusLine(version, code, reason)) && HeaderLines(ls)
    requires !IsChunked(HeaderMap(ls)) && "content-length" in HeaderMap(ls)
    requires Ints.ParseInt(HeaderMap(ls)["content-length"], 10) == Some(n)
    ensures ParseResponse(Head(version, code, reason, ls) + body)
         == Ok(Response(code, Some(HeaderMap(ls)), Binary(if n <= |body| then body[..n] else body),
                        Get(HeaderMap(ls), "content-type")))
  {
    ParseMessage(version, code, reason, ls, body);
    var head := Head(version, code, reason, ls);
    var end := ReadEnd(head + body, |head|, n);
    AfterHead(head, body, n, end);
  }

  /** The bytes after the head, whole or the first `n` of them. */
  lemma AfterHead(head: seq<byte>, body: seq<byte>, n: nat, end: nat)
    requires end == (if n <= |body| then |head| + n else |head| + |body|)
    ensures (head + body)[|head|..] == body
    ensures (head + body)[|head|..end] == if n <= |body| then body[..n] else body
  {
  }

  /** A `Content-Length` that is not an integer is an error, unless the chunked coding wins. */
  lemma MessageBadContentLength(version: string, code: int, reason: string, ls: seq<string>, body: seq<byte>)
    requires ' ' !in version && TextLine(StatusLine(version, code, reason)) && HeaderLines(ls)
    requires !IsChunked(HeaderMap(ls)) && "content-length" in HeaderMap(ls)
    requires Ints.ParseInt(HeaderMap(ls)["content-length"], 10).None?
    ensures ParseResponse(Head(version, code, reason, ls) + body) == Err(InvalidContentLength)
  {
    ParseMessage(version, code, reason, ls, body);
  }

  /**
   * With `Transfer-Encoding: chunked` the body is the chunks joined, whatever
   * `Content-Length` says, and bytes after the final blank line are not read.
   */
  lemma MessageChunked(version: string, code: int, reason: string, ls: seq<string>,
                       chunks: seq<seq<byte>>, ext: string, sep: seq<byte>, trailer: seq<string>, extra: seq<byte>)
    requires ' ' !in version && TextLine(StatusLine(version, code, reason)) && HeaderLines(ls)
    requires IsChunked(HeaderMap(ls))
    requires forall i :: 0 <= i < |chunks| ==> |chunks[i]| > 0
    requires IsExtension(ext) && |sep| == 2 && HeaderLines(trailer)
    ensures ParseResponse(Head(version, code, reason, ls) + (EncodeChunked(chunks, ext, sep, trailer) + extra))
         == Ok(Response(code, Some(HeaderMap(ls)), Binary(Text.Join(chunks)), Get(HeaderMap(ls), "content-type")))
  {
    var head := Head(version, code, reason, ls);
    var enc := EncodeChunked(chunks, ext, sep, trailer);
    ParseMessage(version, code, reason, ls, enc + extra);
    var data := head + (enc + extra);
    assert HasAt(data, |head|, enc) by {
      Regroup3(head, enc, extra);
      HasAtMiddle(head, enc, extra);
    }
    ChunkedRoundTrip(data, |head|, chunks, ext, sep, trailer);
  }

  /** A `Content-Length: <n>` line sets the `content-length` field to a text that reads back as `n`. */
  lemma ContentLengthLine(n: nat)
    ensures TextLine(FieldLine("Content-Length", Ints.Decimal(n)))
    ensures HeaderField(FieldLine("Content-Length", Ints.Decimal(n)) + "\r\n") == Some(("content-length", Ints.Decimal(n)))
    ensures Ints.ParseInt(Ints.Decimal(n), 10) == Some(n)
  {
    var d := Ints.Decimal(n);
    DecimalText(n);
    ContentLengthField(d);
    Ints.ParseDecimal(n);
  }

  /** `str(n)` of a natural number fits on a line and has no surrounding whitespace. */
  lemma DecimalText(n: nat)
    ensures TextLine(Ints.Decimal(n)) && Trimmed(Ints.Decimal(n))
  {
    var d := Ints.Decimal(n);
    assert d == Ints.Digits(n, 10);
    assert forall k :: 0 <= k < |d| ==> Ints.IsDigit(d[k], 10);
    assert Ints.IsDigit(d[0], 10) && Ints.IsDigit(d[|d| - 1], 10);
  }

  /** A `Content-Length: <d>` line, `d` trimmed, sets `content-length` to `d`. */
  lemma ContentLengthField(d: string)
    requires TextLine(d) && Trimmed(d)
    ensures TextLine(FieldLine("Content-Length", d))
    ensures HeaderField(FieldLine("Content-Length", d) + "\r\n") == Some(("content-length", d))
  {
    assert TextLine(FieldLine("Content-Length", d)) by {
      assert TextLine("Content-Length: ");
      TextLineAppend("Content-Length: ", d);
    }
    assert Trimmed("Content-Length") && ':' !in "Content-Length";
    FieldOfLine("Content-Length", d);
    LowerContentLength();
  }

  lemma LowerContentLength()
    ensures Text.Lower("Content-Length") == "content-length"
  {
  }

  /** A blank line where a chunk size is due is an invalid size, not the end of the body. */
  lemma BlankSizeLine(data: seq<byte>, pos: nat)
    requires HasAt(data, pos, CRLF)
    ensures ChunkedFrom(data, pos) == Err(InvalidChunkSize)
  {
    assert LineAt(data, pos) == "\r\n" by {
      assert Wire("") == CRLF;
      ReadWire(data, pos, "");
    }
    BlankSize();
  }

  lemma BlankSize()
    ensures ChunkSize("\r\n") == None
  {
    assert Text.Strip("\r\n") == "" by {
      Text.StripPadded([], "", "\r\n");
      assert [] + "" + "\r\n" == "\r\n";
    }
    Text.BeforeFirstShape("", ';');
    Ints.NoDigitNoNumber("", 16);
  }

  /**
   * A chunk size of `-1` reads the rest of the stream as the chunk, so the
   * next size line is missing and the body is "truncated".
   */
  lemma MinusOneSize(data: seq<byte>, pos: nat)
    requires pos <= |data| && ChunkSize(LineAt(data, pos)) == Some(-1)
    ensures ChunkedFrom(data, pos) == Err(ChunkedTruncated)
  {
    var e := LineEnd(data, pos);
    assert LineAt(data, pos) != [];
    ChunkedStepAt(data, pos, e, -1, |data|, |data|);
  }
}
