/**
 * Responses as a server writes them (a status line, header lines, a blank
 * line and a body, each line ended by CRLF), and what the parser of
 * `HttpResponse` makes of them: the status, the header map with later
 * duplicates winning, and the body under each framing, the chunked coding
 * decoded back to its chunks.
 */
module HttpWire {
  import opened Wrappers
  import opened Bytes
  import opened Base
  import opened Stream
  import opened HttpResponse
  import Text
  import Ints

  /** Text that fits on one line of the wire: ISO-8859-1, without LF. */
  predicate TextLine(l: string) {
    IsLatin1(l) && '\n' !in l
  }

  /** A line as sent, with its CRLF. */
  function Wire(l: string): (b: seq<byte>)
    requires IsLatin1(l)
    ensures |b| == |l| + 2
  {
    Latin1Encode(l) + CRLF
  }

  /**
   * `data` holds `w` from `pos` on. (Stated byte by byte, so that the
   * verifier unfolds it only a step at a time; `HasAtSlice` gives the slice
   * form.)
   */
  predicate HasAt(data: seq<byte>, pos: nat, w: seq<byte>)
    decreases |w|
  {
    pos + |w| <= |data| && (w == [] || (data[pos] == w[0] && HasAt(data, pos + 1, w[1..])))
  }

  lemma {:induction false} HasAtSlice(data: seq<byte>, pos: nat, w: seq<byte>)
    ensures HasAt(data, pos, w) <==> pos + |w| <= |data| && data[pos..pos + |w|] == w
    decreases |w|
  {
    if w != [] && pos + |w| <= |data| {
      HasAtSlice(data, pos + 1, w[1..]);
      var s := data[pos..pos + |w|];
      assert s == [data[pos]] + data[pos + 1..pos + |w|];
      assert w == [w[0]] + w[1..];
    }
  }

  lemma HasAtSplit(data: seq<byte>, pos: nat, a: seq<byte>, b: seq<byte>)
    requires HasAt(data, pos, a + b)
    ensures HasAt(data, pos, a) && HasAt(data, pos + |a|, b)
  {
    HasAtSlice(data, pos, a + b);
    HasAtSlice(data, pos, a);
    HasAtSlice(data, pos + |a|, b);
    assert data[pos..pos + |a|] == data[pos..pos + |a + b|][..|a|];
    assert data[pos + |a|..pos + |a| + |b|] == data[pos..pos + |a + b|][|a|..];
  }

  lemma HasAtMiddle(pre: seq<byte>, w: seq<byte>, rest: seq<byte>)
    ensures HasAt(pre + w + rest, |pre|, w)
  {
    assert (pre + w + rest)[|pre|..|pre| + |w|] == w;
    HasAtSlice(pre + w + rest, |pre|, w);
  }

  /** Reading a sent line gives the line and its CRLF back, and moves past it. */
  lemma ReadWire(data: seq<byte>, pos: nat, l: string)
    requires TextLine(l) && HasAt(data, pos, Wire(l))
    ensures LineEnd(data, pos) == pos + |l| + 2
    ensures LineAt(data, pos) == l + "\r\n"
  {
    var w := Wire(l);
    var enc := Latin1Encode(l);
    assert w == enc + CRLF;
    HasAtSlice(data, pos, w);
    forall k | pos <= k < pos + |l| + 1
      ensures data[k] != LF
    {
      assert data[k] == w[k - pos];
      if k < pos + |l| {
        assert w[k - pos] == enc[k - pos];
        assert l[k - pos] != '\n';
      } else {
        assert w[k - pos] == CR;
      }
    }
    assert data[pos + |l| + 1] == w[|l| + 1] == LF;
    LineEndAt(data, pos, |l| + 1);
    assert data[pos..pos + |l| + 2] == w;
    Latin1DecodeAppend(enc, CRLF);
    Latin1RoundTrip(l);
    assert Latin1Decode(CRLF) == "\r\n";
  }

  function WireLines(ls: seq<string>): (b: seq<byte>)
    requires forall i :: 0 <= i < |ls| ==> TextLine(ls[i])
    decreases |ls|
  {
    if ls == [] then []
    else
      assert TextLine(ls[0]);
      Wire(ls[0]) + WireLines(ls[1..])
  }

  lemma Regroup(p: seq<byte>, w: seq<byte>, m: seq<byte>, c: seq<byte>, r: seq<byte>)
    ensures p + (w + m) + c + r == p + w + (m + c + r)
    ensures p + (w + m) + c + r == (p + w) + m + c + r
  {
  }

  lemma TextLineAppend(a: string, b: string)
    requires TextLine(a) && TextLine(b)
    ensures TextLine(a + b)
  {
    assert forall k :: 0 <= k < |a + b| ==> (a + b)[k] == if k < |a| then a[k] else b[k - |a|];
  }

  // ---------------------------------------------------------------------
  // Status line

  /** `<version> <code> <reason>`. */
  function StatusLine(version: string, code: int, reason: string): string {
    version + " " + Ints.Decimal(code) + " " + reason
  }

  /** The status is the code of a status line whose version has no space. */
  lemma StatusOfLine(version: string, code: int, reason: string)
    requires ' ' !in version
    ensures StatusOf(StatusLine(version, code, reason) + "\r\n") == Ok(code)
  {
    var d := Ints.Decimal(code);
    var line := StatusLine(version, code, reason) + "\r\n";
    assert line == version + [' '] + (d + [' '] + (reason + "\r\n"));
    Text.SplitOnceAppend(version, ' ', d + [' '] + (reason + "\r\n"));
    Ints.DecimalChars(code);
    Text.BeforeFirstAppend(d, ' ', reason + "\r\n");
    Ints.ParseDecimal(code);
  }

  // ---------------------------------------------------------------------
  // Header block

  /** The field each header line (sent with its CRLF) gives, first to last. */
  function FieldsOf(ls: seq<string>): (fs: seq<Option<(string, string)>>)
    ensures |fs| == |ls|
    decreases |ls|
  {
    if ls == [] then [] else [HeaderField(ls[0] + "\r\n")] + FieldsOf(ls[1..])
  }

  lemma {:induction false} FieldsOfAt(ls: seq<string>, j: nat)
    requires j < |ls|
    ensures FieldsOf(ls)[j] == HeaderField(ls[j] + "\r\n")
    decreases j
  {
    if j > 0 {
      FieldsOfAt(ls[1..], j - 1);
    }
  }

  /** The header map after storing the fields `fs` in order. */
  function StoreAll(acc: map<string, string>, fs: seq<Option<(string, string)>>): map<string, string>
    decreases |fs|
  {
    if fs == [] then acc else StoreAll(Store(acc, fs[0]), fs[1..])
  }

  lemma StoreAllCons(acc: map<string, string>, ls: seq<string>)
    requires ls != []
    ensures StoreAll(acc, FieldsOf(ls)) == StoreAll(Store(acc, HeaderField(ls[0] + "\r\n")), FieldsOf(ls[1..]))
  {
    assert FieldsOf(ls)[1..] == FieldsOf(ls[1..]);
  }

  lemma WireLinesCons(ls: seq<string>)
    requires ls != [] && forall i :: 0 <= i < |ls| ==> TextLine(ls[i])
    ensures TextLine(ls[0])
    ensures WireLines(ls) + CRLF == Wire(ls[0]) + (WireLines(ls[1..]) + CRLF)
  {
    assert TextLine(ls[0]);
  }

  /** The blank line ends the header block. */
  lemma HeadersBlank(data: seq<byte>, pos: nat, acc: map<string, string>)
    requires HasAt(data, pos, CRLF)
    ensures HeadersFrom(data, pos, acc).0 == acc && HeadersFrom(data, pos, acc).1 == pos + 2
  {
    assert Wire("") == CRLF;
    ReadWire(data, pos, "");
  }

  /** A header line is read and stored. */
  lemma HeadersStep(data: seq<byte>, pos: nat, l: string, acc: map<string, string>, next: nat)
    requires TextLine(l) && l != "" && HasAt(data, pos, Wire(l)) && next == pos + |l| + 2
    ensures HeadersFrom(data, pos, acc) == HeadersFrom(data, next, Store(acc, HeaderField(l + "\r\n")))
  {
    ReadWire(data, pos, l);
    assert |l + "\r\n"| > 2;
  }

  /** The first of the header lines is read and stored, and the rest of the block follows it. */
  lemma HeaderLineAt(data: seq<byte>, pos: nat, ls: seq<string>, acc: map<string, string>, next: nat)
    requires ls != [] && forall i :: 0 <= i < |ls| ==> TextLine(ls[i]) && ls[i] != ""
    requires HasAt(data, pos, WireLines(ls) + CRLF) && next == pos + |ls[0]| + 2
    ensures HasAt(data, next, WireLines(ls[1..]) + CRLF)
    ensures |WireLines(ls)| == |ls[0]| + 2 + |WireLines(ls[1..])|
    ensures HeadersFrom(data, pos, acc) == HeadersFrom(data, next, Store(acc, HeaderField(ls[0] + "\r\n")))
    ensures StoreAll(acc, FieldsOf(ls)) == StoreAll(Store(acc, HeaderField(ls[0] + "\r\n")), FieldsOf(ls[1..]))
  {
    WireLinesCons(ls);
    HasAtSplitAt(data, pos, Wire(ls[0]), WireLines(ls[1..]) + CRLF, next);
    HeadersStep(data, pos, ls[0], acc, next);
    StoreAllCons(acc, ls);
  }

  /** The header loop reads every header line and stops at the blank line after them. */
  lemma {:induction false} ReadHeaderBlock(data: seq<byte>, pos: nat, ls: seq<string>, acc: map<string, string>)
    requires forall i :: 0 <= i < |ls| ==> TextLine(ls[i]) && ls[i] != ""
    requires HasAt(data, pos, WireLines(ls) + CRLF)
    ensures HeadersFrom(data, pos, acc).0 == StoreAll(acc, FieldsOf(ls))
    ensures HeadersFrom(data, pos, acc).1 == pos + |WireLines(ls)| + 2
    decreases |ls|
  {
    if ls == [] {
      assert WireLines(ls) + CRLF == CRLF;
      HeadersBlank(data, pos, acc);
    } else {
      var acc' := Store(acc, HeaderField(ls[0] + "\r\n"));
      var next := pos + |ls[0]| + 2;
      HeaderLineAt(data, pos, ls, acc, next);
      ReadHeaderBlock(data, next, ls[1..], acc');
    }
  }

  /** `Name: value`, with `value` already trimmed. */
  function FieldLine(name: string, value: string): string {
    name + ": " + value
  }

  predicate Trimmed(s: string) {
    s == [] || (!Text.IsSpace(s[0]) && !Text.IsSpace(s[|s| - 1]))
  }

  /** A `Name: value` line gives the lower-cased name and the value. */
  lemma FieldOfLine(name: string, value: string)
    requires ':' !in name && Trimmed(name) && Trimmed(value)
    ensures HeaderField(FieldLine(name, value) + "\r\n") == Some((Text.Lower(name), value))
  {
    var line := FieldLine(name, value) + "\r\n";
    assert line == name + [':'] + (" " + value + "\r\n");
    Text.SplitOnceAppend(name, ':', " " + value + "\r\n");
    Text.StripPadded([], name, []);
    assert [] + name + [] == name;
    Text.StripPadded(" ", value, "\r\n");
  }

  /** A later field with the same key overwrites an earlier one: the last such field gives the value. */
  lemma {:induction false} LastWins(acc: map<string, string>, fs: seq<Option<(string, string)>>, i: nat, k: string, v: string)
    requires i < |fs| && fs[i] == Some((k, v))
    requires forall j :: i < j < |fs| ==> fs[j].None? || fs[j].value.0 != k
    ensures k in StoreAll(acc, fs) && StoreAll(acc, fs)[k] == v
    decreases |fs|
  {
    var next := Store(acc, fs[0]);
    if i == 0 {
      KeptKey(next, fs[1..], k);
    } else {
      LastWins(next, fs[1..], i - 1, k, v);
    }
  }

  /** Fields that do not set `k` leave its entry as it was. */
  lemma {:induction false} KeptKey(acc: map<string, string>, fs: seq<Option<(string, string)>>, k: string)
    requires forall j :: 0 <= j < |fs| ==> fs[j].None? || fs[j].value.0 != k
    ensures (k in StoreAll(acc, fs)) == (k in acc)
    ensures k in acc ==> StoreAll(acc, fs)[k] == acc[k]
    decreases |fs|
  {
    if fs != [] {
      KeptKey(Store(acc, fs[0]), fs[1..], k);
    }
  }

  /** For header lines: the last line that sets a key gives its value in the map. */
  lemma LastLineWins(acc: map<string, string>, ls: seq<string>, i: nat, k: string, v: string)
    requires i < |ls| && HeaderField(ls[i] + "\r\n") == Some((k, v))
    requires forall j :: i < j < |ls| ==> ':' !in ls[j] || HeaderField(ls[j] + "\r\n").value.0 != k
    ensures k in StoreAll(acc, FieldsOf(ls)) && StoreAll(acc, FieldsOf(ls))[k] == v
  {
    var fs := FieldsOf(ls);
    FieldsOfAt(ls, i);
    forall j | i < j < |fs|
      ensures fs[j].None? || fs[j].value.0 != k
    {
      FieldsOfAt(ls, j);
    }
    LastWins(acc, fs, i, k, v);
  }

  // ---------------------------------------------------------------------
  // Chunked coding

  /** A chunk extension: nothing, or `;` and text that does not end in whitespace. */
  predicate IsExtension(ext: string) {
    ext == [] || (ext[0] == ';' && TextLine(ext) && !Text.IsSpace(ext[|ext| - 1]))
  }

  /** A hexadecimal digit is plain ASCII: not whitespace, not `;`, not LF. */
  lemma HexDigitChar(c: char)
    requires Ints.IsDigit(c, 16)
    ensures c as int < 128 && !Text.IsSpace(c) && c != ';' && c != '\n'
  {
  }

  /** `format(n, "x")` fits on a line, has no surrounding whitespace and no `;`. */
  lemma HexText(n: nat)
    ensures TextLine(Ints.Hex(n)) && Trimmed(Ints.Hex(n)) && ';' !in Ints.Hex(n)
  {
    var h := Ints.Hex(n);
    forall k | 0 <= k < |h|
      ensures h[k] as int < 128 && !Text.IsSpace(h[k]) && h[k] != ';' && h[k] != '\n'
    {
      HexDigitChar(h[k]);
    }
  }

  /** The size text of a size line is its hexadecimal digits. */
  lemma HexSizeText(n: nat, ext: string)
    requires IsExtension(ext)
    ensures TextLine(Ints.Hex(n) + ext)
    ensures SizeText(Ints.Hex(n) + ext + "\r\n") == Ints.Hex(n)
  {
    var h := Ints.Hex(n);
    HexText(n);
    TextLineAppend(h, ext);
    var s := h + ext;
    assert Trimmed(s) by {
      if ext != [] { assert s[|s| - 1] == ext[|ext| - 1]; }
    }
    assert Text.Strip(s + "\r\n") == s by {
      Text.StripPadded([], s, "\r\n");
      assert [] + s + "\r\n" == s + "\r\n";
    }
    if ext != [] {
      assert s == h + [';'] + ext[1..];
      Text.BeforeFirstAppend(h, ';', ext[1..]);
    } else {
      Text.BeforeFirstShape(s, ';');
    }
  }

  /** A size line `<hex><ext>` gives its size back. */
  lemma HexLine(n: nat, ext: string)
    requires IsExtension(ext)
    ensures TextLine(Ints.Hex(n) + ext)
    ensures ChunkSize(Ints.Hex(n) + ext + "\r\n") == Some(n)
  {
    HexSizeText(n, ext);
    Ints.ParseHex(n);
  }

  /** The chunked coding of `chunks` (none empty), each followed by `sep`, then `0`, the trailer and a blank line. */
  function EncodeChunked(chunks: seq<seq<byte>>, ext: string, sep: seq<byte>, trailer: seq<string>): seq<byte>
    requires IsExtension(ext)
    requires forall i :: 0 <= i < |trailer| ==> TextLine(trailer[i])
  {
    if chunks == [] then Wire("0") + WireLines(trailer) + CRLF
    else
      HexLine(|chunks[0]|, ext);
      Wire(Ints.Hex(|chunks[0]|) + ext) + chunks[0] + sep + EncodeChunked(chunks[1..], ext, sep, trailer)
  }

  lemma TrailerBlank(data: seq<byte>, pos: nat)
    requires HasAt(data, pos, CRLF)
    ensures TrailerEnd(data, pos) == pos + 2
  {
    assert Wire("") == CRLF;
    ReadWire(data, pos, "");
  }

  lemma TrailerStep(data: seq<byte>, pos: nat, l: string, next: nat)
    requires TextLine(l) && l != "" && HasAt(data, pos, Wire(l)) && next == pos + |l| + 2
    ensures TrailerEnd(data, pos) == TrailerEnd(data, next)
  {
    ReadWire(data, pos, l);
    assert |l + "\r\n"| > 2;
  }

  /** The first trailer line is skipped, and the rest of the trailer follows it. */
  lemma TrailerLineAt(data: seq<byte>, pos: nat, ls: seq<string>, next: nat)
    requires ls != [] && forall i :: 0 <= i < |ls| ==> TextLine(ls[i]) && ls[i] != ""
    requires HasAt(data, pos, WireLines(ls) + CRLF) && next == pos + |ls[0]| + 2
    ensures HasAt(data, next, WireLines(ls[1..]) + CRLF)
    ensures |WireLines(ls)| == |ls[0]| + 2 + |WireLines(ls[1..])|
    ensures TrailerEnd(data, pos) == TrailerEnd(data, next)
  {
    WireLinesCons(ls);
    HasAtSplitAt(data, pos, Wire(ls[0]), WireLines(ls[1..]) + CRLF, next);
    TrailerStep(data, pos, ls[0], next);
  }

  /** The trailer loop skips every trailer line and the blank line after them. */
  lemma {:induction false} ReadTrailer(data: seq<byte>, pos: nat, ls: seq<string>)
    requires forall i :: 0 <= i < |ls| ==> TextLine(ls[i]) && ls[i] != ""
    requires HasAt(data, pos, WireLines(ls) + CRLF)
    ensures TrailerEnd(data, pos) == pos + |WireLines(ls)| + 2
    decreases |ls|
  {
    if ls == [] {
      assert WireLines(ls) + CRLF == CRLF;
      TrailerBlank(data, pos);
    } else {
      var next := pos + |ls[0]| + 2;
      TrailerLineAt(data, pos, ls, next);
      ReadTrailer(data, next, ls[1..]);
    }
  }

  lemma EncodeChunkedCons(chunks: seq<seq<byte>>, ext: string, sep: seq<byte>, trailer: seq<string>)
    requires chunks != [] && IsExtension(ext)
    requires forall i :: 0 <= i < |trailer| ==> TextLine(trailer[i])
    ensures TextLine(Ints.Hex(|chunks[0]|) + ext)
    ensures EncodeChunked(chunks, ext, sep, trailer)
      == Wire(Ints.Hex(|chunks[0]|) + ext) + (chunks[0] + (sep + EncodeChunked(chunks[1..], ext, sep, trailer)))
    ensures |EncodeChunked(chunks, ext, sep, trailer)|
      == |Ints.Hex(|chunks[0]|) + ext| + 2 + |chunks[0]| + |sep| + |EncodeChunked(chunks[1..], ext, sep, trailer)|
  {
    HexLine(|chunks[0]|, ext);
    var w := Wire(Ints.Hex(|chunks[0]|) + ext);
    var r := EncodeChunked(chunks[1..], ext, sep, trailer);
    assert EncodeChunked(chunks, ext, sep, trailer) == w + chunks[0] + sep + r;
    Associate(w, chunks[0], sep, r);
  }

  lemma Associate(w: seq<byte>, c: seq<byte>, s: seq<byte>, r: seq<byte>)
    ensures w + c + s + r == w + (c + (s + r))
  {
  }

  /** Moving along `a + (b + (c + r))` piece by piece, to the positions `p`, `q` and `t`. */
  lemma HasAtSplit4(data: seq<byte>, pos: nat, a: seq<byte>, b: seq<byte>, c: seq<byte>, r: seq<byte>,
                    p: nat, q: nat, t: nat)
    requires HasAt(data, pos, a + (b + (c + r)))
    requires p == pos + |a| && q == p + |b| && t == q + |c|
    ensures HasAt(data, pos, a) && HasAt(data, p, b)
    ensures HasAt(data, q, c) && HasAt(data, t, r) && t <= |data|
  {
    HasAtSplit(data, pos, a, b + (c + r));
    HasAtSplit(data, p, b, c + r);
    HasAtSplit(data, q, c, r);
  }

  /** A size line as sent is read back with its size. */
  lemma SizeLineAt(data: seq<byte>, pos: nat, n: nat, ext: string)
    requires IsExtension(ext)
    requires TextLine(Ints.Hex(n) + ext) && HasAt(data, pos, Wire(Ints.Hex(n) + ext))
    ensures pos < |data| && LineEnd(data, pos) == pos + |Wire(Ints.Hex(n) + ext)|
    ensures ChunkSize(LineAt(data, pos)) == Some(n)
  {
    ReadWire(data, pos, Ints.Hex(n) + ext);
    HexLine(n, ext);
  }

  /** Where the first chunk of a chunked coding and the rest of the coding lie. */
  lemma ChunkLayout(data: seq<byte>, pos: nat, chunks: seq<seq<byte>>, ext: string, sep: seq<byte>,
                    trailer: seq<string>, e: nat, next: nat)
    requires chunks != [] && |chunks[0]| > 0 && IsExtension(ext) && |sep| == 2
    requires forall i :: 0 <= i < |trailer| ==> TextLine(trailer[i])
    requires HasAt(data, pos, EncodeChunked(chunks, ext, sep, trailer))
    requires e == pos + |Ints.Hex(|chunks[0]|) + ext| + 2 && next == e + |chunks[0]| + 2
    ensures pos < e <= |data| && LineEnd(data, pos) == e
    ensures ChunkSize(LineAt(data, pos)) == Some(|chunks[0]|)
    ensures next <= |data| && HasAt(data, e, chunks[0])
    ensures HasAt(data, next, EncodeChunked(chunks[1..], ext, sep, trailer))
    ensures pos + |EncodeChunked(chunks, ext, sep, trailer)| == next + |EncodeChunked(chunks[1..], ext, sep, trailer)|
  {
    var c := chunks[0];
    var w := Wire(Ints.Hex(|c|) + ext);
    var tail := EncodeChunked(chunks[1..], ext, sep, trailer);
    EncodeChunkedCons(chunks, ext, sep, trailer);
    HasAtSplit4(data, pos, w, c, sep, tail, e, e + |c|, next);
    SizeLineAt(data, pos, |c|, ext);
  }

  lemma ChunkAt(data: seq<byte>, pos: nat, e: nat, c: seq<byte>, q: nat, next: nat)
    requires pos < e <= |data| && LineEnd(data, pos) == e
    requires ChunkSize(LineAt(data, pos)) == Some(|c|) && |c| > 0
    requires q == e + |c| && next == q + 2 && next <= |data| && HasAt(data, e, c)
    ensures ChunkedFrom(data, pos) == Prepend(c, ChunkedFrom(data, next))
  {
    HasAtRange(data, e, c, q);
    ChunkedStepAt(data, pos, e, |c|, q, next);
  }

  lemma HasAtRange(data: seq<byte>, pos: nat, w: seq<byte>, end: nat)
    requires HasAt(data, pos, w) && end == pos + |w|
    ensures pos <= end <= |data| && data[pos..end] == w
  {
    HasAtSlice(data, pos, w);
  }

  /** The last-chunk line `0` as sent is read back as size 0. */
  lemma ZeroLineAt(data: seq<byte>, pos: nat, e: nat)
    requires HasAt(data, pos, Wire("0")) && e == pos + 3
    ensures pos < e <= |data| && LineEnd(data, pos) == e
    ensures ChunkSize(LineAt(data, pos)) == Some(0)
  {
    ReadWire(data, pos, "0");
    HexLine(0, []);
    assert Ints.Hex(0) + [] == "0";
  }

  /** A last-chunk line followed by a trailer that ends at `endp`. */
  lemma LastChunkAt(data: seq<byte>, pos: nat, e: nat, endp: nat)
    requires pos < e <= |data| && LineEnd(data, pos) == e
    requires ChunkSize(LineAt(data, pos)) == Some(0) && TrailerEnd(data, e) == endp
    ensures ChunkedFrom(data, pos).Ok? && ChunkedFrom(data, pos).value.0 == [] && ChunkedFrom(data, pos).value.1 == endp
  {
  }

  lemma EncodeChunkedNil(ext: string, sep: seq<byte>, trailer: seq<string>)
    requires IsExtension(ext)
    requires forall i :: 0 <= i < |trailer| ==> TextLine(trailer[i])
    ensures EncodeChunked([], ext, sep, trailer) == Wire("0") + (WireLines(trailer) + CRLF)
    ensures |EncodeChunked([], ext, sep, trailer)| == 3 + |WireLines(trailer)| + 2
  {
  }

  lemma HasAtSplitAt(data: seq<byte>, pos: nat, a: seq<byte>, b: seq<byte>, p: nat)
    requires HasAt(data, pos, a + b) && p == pos + |a|
    ensures HasAt(data, pos, a) && HasAt(data, p, b)
  {
    HasAtSplit(data, pos, a, b);
  }

  lemma ReadTrailerAt(data: seq<byte>, pos: nat, ls: seq<string>, endp: nat)
    requires forall i :: 0 <= i < |ls| ==> TextLine(ls[i]) && ls[i] != ""
    requires HasAt(data, pos, WireLines(ls) + CRLF) && endp == pos + |WireLines(ls)| + 2
    ensures pos <= endp <= |data| && TrailerEnd(data, pos) == endp
  {
    ReadTrailer(data, pos, ls);
  }

  lemma LastChunkRoundTrip(data: seq<byte>, pos: nat, ext: string, sep: seq<byte>, trailer: seq<string>)
    requires IsExtension(ext)
    requires forall i :: 0 <= i < |trailer| ==> TextLine(trailer[i]) && trailer[i] != ""
    requires HasAt(data, pos, EncodeChunked([], ext, sep, trailer))
    ensures ChunkedFrom(data, pos).Ok? && ChunkedFrom(data, pos).value.0 == []
    ensures ChunkedFrom(data, pos).value.1 == pos + |EncodeChunked([], ext, sep, trailer)|
  {
    var e := pos + 3;
    var endp := pos + |EncodeChunked([], ext, sep, trailer)|;
    EncodeChunkedNil(ext, sep, trailer);
    HasAtSplitAt(data, pos, Wire("0"), WireLines(trailer) + CRLF, e);
    ZeroLineAt(data, pos, e);
    ReadTrailerAt(data, e, trailer, endp);
    LastChunkAt(data, pos, e, endp);
  }

  /**
   * Decoding the chunked coding gives back the concatenated chunks, for any
   * extension, any trailer and any two bytes after each chunk (they are
   * never looked at), and stops just past the coding.
   */
  lemma {:induction false} ChunkedRoundTrip(data: seq<byte>, pos: nat, chunks: seq<seq<byte>>, ext: string,
                                            sep: seq<byte>, trailer: seq<string>)
    requires forall i :: 0 <= i < |chunks| ==> |chunks[i]| > 0
    requires IsExtension(ext) && |sep| == 2
    requires forall i :: 0 <= i < |trailer| ==> TextLine(trailer[i]) && trailer[i] != ""
    requires HasAt(data, pos, EncodeChunked(chunks, ext, sep, trailer))
    ensures ChunkedFrom(data, pos).Ok? && ChunkedFrom(data, pos).value.0 == Text.Join(chunks)
    ensures ChunkedFrom(data, pos).value.1 == pos + |EncodeChunked(chunks, ext, sep, trailer)|
    decreases |chunks|
  {
    if chunks == [] {
      LastChunkRoundTrip(data, pos, ext, sep, trailer);
    } else {
      var c := chunks[0];
      var e := pos + |Ints.Hex(|c|) + ext| + 2;
      var next := e + |c| + 2;
      var rest := chunks[1..];
      FirstChunkAt(data, pos, chunks, ext, sep, trailer, next);
      NonEmptyTail(chunks);
      ChunkedRoundTrip(data, next, rest, ext, sep, trailer);
      assert Text.Join(chunks) == c + Text.Join(rest);
      PrependOk(c, ChunkedFrom(data, next), Text.Join(rest), ChunkedFrom(data, pos));
    }
  }

  /** The first chunk is decoded, and the rest of the coding follows it at `next`. */
  lemma FirstChunkAt(data: seq<byte>, pos: nat, chunks: seq<seq<byte>>, ext: string, sep: seq<byte>,
                     trailer: seq<string>, next: nat)
    requires forall i :: 0 <= i < |chunks| ==> |chunks[i]| > 0
    requires chunks != [] && IsExtension(ext) && |sep| == 2
    requires forall i :: 0 <= i < |trailer| ==> TextLine(trailer[i])
    requires HasAt(data, pos, EncodeChunked(chunks, ext, sep, trailer))
    requires next == pos + |Ints.Hex(|chunks[0]|) + ext| + 2 + |chunks[0]| + 2
    ensures next <= |data| && ChunkedFrom(data, pos) == Prepend(chunks[0], ChunkedFrom(data, next))
    ensures HasAt(data, next, EncodeChunked(chunks[1..], ext, sep, trailer))
    ensures pos + |EncodeChunked(chunks, ext, sep, trailer)| == next + |EncodeChunked(chunks[1..], ext, sep, trailer)|
  {
    var c := chunks[0];
    var e := pos + |Ints.Hex(|c|) + ext| + 2;
    ChunkLayout(data, pos, chunks, ext, sep, trailer, e, next);
    ChunkAt(data, pos, e, c, e + |c|, next);
  }

  lemma NonEmptyTail(chunks: seq<seq<byte>>)
    requires chunks != [] && forall i :: 0 <= i < |chunks| ==> |chunks[i]| > 0
    ensures forall i :: 0 <= i < |chunks[1..]| ==> |chunks[1..][i]| > 0
  {
    assert forall i :: 0 <= i < |chunks[1..]| ==> chunks[1..][i] == chunks[i + 1];
  }

  lemma PrependOk(c: seq<byte>, r: Result<(seq<byte>, nat)>, d: seq<byte>, whole: Result<(seq<byte>, nat)>)
    requires r.Ok? && r.value.0 == d && whole == Prepend(c, r)
    ensures whole.Ok? && whole.value.0 == c + d && whole.value.1 == r.value.1
  {
  }
}
