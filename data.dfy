/**
 * The `data:` handler: URLs of the form `data:[<mediatype>][;base64],<data>`
 * of section 3 of RFC 2397. Everything after the first comma is the
 * payload; `;base64` anywhere in the part before it switches to base64
 * decoding (section 4 of RFC 4648), and otherwise the payload is
 * percent-decoded (section 2.1 of RFC 3986) from its UTF-8 bytes.
 */
module DataUrl {
  import opened Wrappers
  import opened Bytes
  import opened Base
  import Text
  import Base64
  import Percent

  const PREFIX: string := "data:"
  const BASE64_FLAG: string := ";base64"

  /**
   * The content type the part before the comma names: with the base64 flag,
   * that part without every `;base64` in it; otherwise the part itself; in
   * both cases no content type when nothing is left.
   */
  function ContentTypeOf(meta: string): (r: Option<string>)
    ensures !Text.Contains(meta, BASE64_FLAG) ==> (r.None? <==> meta == []) && (r.Some? ==> r.value == meta)
    ensures Text.Contains(meta, BASE64_FLAG) ==> r != Some(meta)
  {
    var t := if Text.Contains(meta, BASE64_FLAG) then Text.RemoveAll(meta, BASE64_FLAG) else meta;
    if t == [] then None else Some(t)
  }

  /** The body a payload decodes to: base64 (which may fail) or percent-decoded UTF-8. */
  function PayloadBytes(data: string, isBase64: bool): (r: Option<seq<byte>>)
    ensures !isBase64 ==> r.Some? && |r.value| <= |Utf8Encode(data)|
  {
    if isBase64 then Base64.Decode(data) else Some(Percent.Decode(Utf8Encode(data)))
  }

  /** `DataHandler.fetch`. */
  function FetchData(h: HandlerBase): (r: Result<Response>)
    ensures r.Err? ==> r.error == NotDataUrl || r.error == MalformedDataUrl || r.error == Base64DecodeError
    ensures r.Err? && r.error == NotDataUrl <==> !(PREFIX <= h.url)
    ensures r.Ok? ==> r.value.status == 200 && r.value.headers == Some(map[]) && r.value.body.Binary?
  {
    if !(PREFIX <= h.url) then Err(NotDataUrl)
    else
      match Text.SplitOnce(h.url[|PREFIX|..], ',')
      case None => Err(MalformedDataUrl)
      case Some((meta, data)) =>
        match PayloadBytes(data, Text.Contains(meta, BASE64_FLAG))
        case None => Err(Base64DecodeError)
        case Some(raw) => Ok(Response(200, Some(map[]), Binary(raw), ContentTypeOf(meta)))
  }

  /** The handler the registry builds for `url`. */
  function Of(url: string): HandlerBase {
    NewHandlerBase(url)
  }

  /** A `data:` URL with no comma after the prefix is malformed. */
  lemma NoComma(rest: string)
    requires ',' !in rest
    ensures FetchData(Of(PREFIX + rest)).Err? && FetchData(Of(PREFIX + rest)).error == MalformedDataUrl
  {
    var url := PREFIX + rest;
    assert url[|PREFIX|..] == rest;
    Text.SplitOnceShape(rest, ',');
  }

  /**
   * With the first comma after `meta`, the content type comes from `meta`
   * alone and the body from everything after that comma, later commas
   * included.
   */
  lemma FirstComma(meta: string, data: string)
    requires ',' !in meta
    ensures var r := FetchData(Of(PREFIX + meta + "," + data));
      var bytes := PayloadBytes(data, Text.Contains(meta, BASE64_FLAG));
      (bytes.None? ==> r.Err? && r.error == Base64DecodeError)
      && (bytes.Some? ==> r.Ok? && r.value.body == Binary(bytes.value) && r.value.contentType == ContentTypeOf(meta))
  {
    var url := PREFIX + meta + "," + data;
    assert url[|PREFIX|..] == meta + [','] + data;
    Text.SplitOnceAppend(meta, ',', data);
  }

  /** Plain mode: the body is the percent-decoding of the payload's UTF-8 bytes, the type is `meta` or none. */
  lemma PlainPayload(meta: string, data: string)
    requires ',' !in meta && !Text.Contains(meta, BASE64_FLAG)
    ensures var r := FetchData(Of(PREFIX + meta + "," + data));
      r.Ok? && r.value.status == 200 && r.value.headers == Some(map[])
      && r.value.body == Binary(Percent.Decode(Utf8Encode(data)))
      && r.value.contentType == (if meta == [] then None else Some(meta))
  {
    FirstComma(meta, data);
  }

  /** Base64 mode: the body is the decoded payload, and a payload that does not decode is an error. */
  lemma Base64Payload(meta: string, data: string)
    requires ',' !in meta && Text.Contains(meta, BASE64_FLAG)
    ensures var r := FetchData(Of(PREFIX + meta + "," + data));
      (Base64.Decode(data).None? ==> r.Err? && r.error == Base64DecodeError)
      && (Base64.Decode(data).Some? ==> r.Ok? && r.value.body == Binary(Base64.Decode(data).value))
  {
    FirstComma(meta, data);
  }

  /** `<type>;base64` names `<type>`, and `;base64` alone names no type. */
  lemma Base64Type(mediaType: string)
    requires ';' !in mediaType
    ensures Text.Contains(mediaType + BASE64_FLAG, BASE64_FLAG)
    ensures ContentTypeOf(mediaType + BASE64_FLAG) == if mediaType == [] then None else Some(mediaType)
  {
    var meta := mediaType + BASE64_FLAG;
    assert meta[|mediaType|..|mediaType| + |BASE64_FLAG|] == BASE64_FLAG;
    Text.ContainsAt(meta, BASE64_FLAG, |mediaType|);
    Text.RemoveAllSuffix(mediaType, BASE64_FLAG);
  }

  /** Every byte string comes back from the base64 data URL that carries it. */
  lemma Base64RoundTrip(mediaType: string, b: seq<byte>)
    requires ';' !in mediaType && ',' !in mediaType
    ensures var r := FetchData(Of(PREFIX + (mediaType + BASE64_FLAG) + "," + Base64.Encode(b)));
      r.Ok? && r.value.body == Binary(b) && r.value.contentType == (if mediaType == [] then None else Some(mediaType))
  {
    Base64Type(mediaType);
    assert ',' !in mediaType + BASE64_FLAG;
    Base64.DecodeEncode(b);
    FirstComma(mediaType + BASE64_FLAG, Base64.Encode(b));
  }

  /** Every byte string comes back from the plain data URL that carries it fully escaped. */
  lemma PercentRoundTrip(mediaType: string, b: seq<byte>)
    requires ',' !in mediaType && !Text.Contains(mediaType, BASE64_FLAG)
    ensures var r := FetchData(Of(PREFIX + mediaType + "," + Latin1Decode(Percent.Encode(b))));
      r.Ok? && r.value.body == Binary(b)
  {
    var e := Percent.Encode(b);
    var s := Latin1Decode(e);
    Percent.EncodeIsAscii(b);
    assert IsAscii(s);
    Utf8EncodeAscii(s);
    assert Latin1Encode(s) == e;
    Percent.DecodeEncode(b);
    PlainPayload(mediaType, s);
  }

  /** `SGVsbG8=` is `Hello`. */
  lemma HelloBase64()
    ensures Base64.Decode("SGVsbG8=") == Some(Latin1Encode("Hello"))
  {
    var s := "SGVsbG8=";
    assert s[..4] == "SGVs" && s[4..] == "bG8=";
    var hel: seq<byte> := [0x48, 0x65, 0x6C];
    var lo: seq<byte> := [0x6C, 0x6F];
    assert Base64.DecodeFull("SGVs") == Some(hel) by {
      assert Base64.SextetOf('S') == Some(18) && Base64.SextetOf('G') == Some(6);
      assert Base64.SextetOf('V') == Some(21) && Base64.SextetOf('s') == Some(44);
      assert Base64.Triple(18, 6, 21, 44) == hel;
    }
    assert Base64.DecodeFinal("bG8=") == Some(lo) by {
      assert Base64.SextetOf('b') == Some(27) && Base64.SextetOf('G') == Some(6) && Base64.SextetOf('8') == Some(60);
      assert Base64.Byte1(27, 6) == 0x6C && Base64.Byte2(6, 60) == 0x6F;
    }
    assert Base64.DecodeGroups(s[4..]) == Some(lo);
    assert Base64.DecodeGroups(s) == Some(hel + lo);
    assert Base64.Decode(s) == Some(hel + lo);
    HelloBytes();
    assert hel + lo == [0x48, 0x65, 0x6C, 0x6C, 0x6F];
  }

  lemma HelloBytes()
    ensures Latin1Encode("Hello") == [0x48, 0x65, 0x6C, 0x6C, 0x6F]
  {
  }

  /**
   * `%20` in the payload is a space: text before it without `%` passes
   * through, and the rest is decoded on its own (so `Hello%20World` is
   * `Hello World`).
   */
  lemma EscapedSpace(a: string, b: string)
    requires '%' !in a
    ensures Percent.Decode(Utf8Encode(a + "%20" + b)) == Utf8Encode(a) + [0x20] + Percent.Decode(Utf8Encode(b))
  {
    var h, w := Utf8Encode(a), Utf8Encode(b);
    var q: seq<byte> := [0x25, 0x32, 0x30] + w;
    var d := Percent.Decode(w);
    assert Utf8Encode(a + "%20" + b) == h + q by {
      Utf8Around(a, "%20", b);
      Utf8Twenty();
    }
    assert Percent.Decode(h + q) == h + ([0x20] + d) by {
      EscapeTwenty(w);
      Utf8Without(a, '%');
      Percent.DecodePlainPrefix(h, q);
    }
    assert h + ([0x20] + d) == h + [0x20] + d;
  }

  /** The UTF-8 bytes of `a + m + b`, piece by piece. */
  lemma Utf8Around(a: string, m: string, b: string)
    ensures Utf8Encode(a + m + b) == Utf8Encode(a) + (Utf8Encode(m) + Utf8Encode(b))
  {
    var x, y, z := Utf8Encode(a), Utf8Encode(m), Utf8Encode(b);
    assert Utf8Encode(a + m + b) == Utf8Encode(a + m) + z by {
      Utf8EncodeAppend(a + m, b);
    }
    assert Utf8Encode(a + m) == x + y by {
      Utf8EncodeAppend(a, m);
    }
    assert x + y + z == x + (y + z);
  }

  lemma Utf8Twenty()
    ensures Utf8Encode("%20") == [0x25, 0x32, 0x30]
  {
    Utf8EncodeAscii("%20");
  }

  /** `%20` decodes to a space. */
  lemma EscapeTwenty(w: seq<byte>)
    ensures Percent.Decode([0x25, 0x32, 0x30] + w) == [0x20] + Percent.Decode(w)
  {
    var q: seq<byte> := [0x25, 0x32, 0x30] + w;
    assert q[0] == Percent.PERCENT;
    assert Percent.HexValue(q[1]) == Some(2) && Percent.HexValue(q[2]) == Some(0);
    assert Percent.StartsWithEscape(q);
    assert q[3..] == w;
  }

  /** `data:text/plain;base64,SGVsbG8=` is `Hello`, of type `text/plain`. */
  lemma HelloExample()
    ensures FetchData(Of(PREFIX + ("text/plain" + BASE64_FLAG) + "," + "SGVsbG8="))
         == Ok(Response(200, Some(map[]), Binary([0x48, 0x65, 0x6C, 0x6C, 0x6F]), Some("text/plain")))
  {
    HelloBytes();
    HelloBase64();
    Base64Url("text/plain", "SGVsbG8=", Latin1Encode("Hello"));
  }

  /** A base64 data URL whose payload decodes: the decoded bytes, of the type before `;base64`. */
  lemma Base64Url(mediaType: string, data: string, b: seq<byte>)
    requires ';' !in mediaType && ',' !in mediaType && Base64.Decode(data) == Some(b)
    ensures FetchData(Of(PREFIX + (mediaType + BASE64_FLAG) + "," + data))
         == Ok(Response(200, Some(map[]), Binary(b), if mediaType == [] then None else Some(mediaType)))
  {
    Base64Type(mediaType);
    assert ',' !in mediaType + BASE64_FLAG;
    FirstComma(mediaType + BASE64_FLAG, data);
  }

  /** `data:,Hello%20World` is `Hello World`, with no content type. */
  lemma HelloWorldExample()
    ensures FetchData(Of(PREFIX + "" + "," + "Hello%20World"))
         == Ok(Response(200, Some(map[]), Binary([0x48, 0x65, 0x6C, 0x6C, 0x6F, 0x20, 0x57, 0x6F, 0x72, 0x6C, 0x64]), None))
  {
    assert !Text.Contains("", BASE64_FLAG);
    PlainPayload("", "Hello%20World");
    HelloWorldBytes();
  }

  lemma HelloWorldBytes()
    ensures Percent.Decode(Utf8Encode("Hello%20World")) == [0x48, 0x65, 0x6C, 0x6C, 0x6F, 0x20, 0x57, 0x6F, 0x72, 0x6C, 0x64]
  {
    assert "Hello%20World" == "Hello" + "%20" + "World";
    assert "Hello World" == "Hello" + " " + "World";
    AsciiSpace("Hello", "World");
    HelloWorldList();
  }

  lemma HelloWorldList()
    ensures Latin1Encode("Hello World") == [0x48, 0x65, 0x6C, 0x6C, 0x6F, 0x20, 0x57, 0x6F, 0x72, 0x6C, 0x64]
  {
  }

  /** Between two pieces of ASCII text without `%`, `%20` decodes to a space and nothing else changes. */
  lemma AsciiSpace(a: string, b: string)
    requires IsAscii(a) && IsAscii(b) && '%' !in a && '%' !in b
    ensures IsLatin1(a + " " + b)
    ensures Percent.Decode(Utf8Encode(a + "%20" + b)) == Latin1Encode(a + " " + b)
  {
    EscapedSpace(a, b);
    Utf8EncodeAscii(a);
    Utf8EncodeAscii(b);
    Utf8Without(b, '%');
    assert Percent.Decode(Utf8Encode(b)) == Latin1Encode(b);
    Latin1EncodeAppend(a, " ");
    Latin1EncodeAppend(a + " ", b);
    assert Latin1Encode(" ") == [0x20];
  }

  /** A plain data URL whose ASCII payload has no `%`: the payload's bytes as they are, of type `meta`. */
  lemma LiteralPayload(meta: string, data: string)
    requires ',' !in meta && ';' !in meta && meta != []
    requires IsAscii(data) && '%' !in data
    ensures IsLatin1(data)
    ensures FetchData(Of(PREFIX + meta + "," + data))
         == Ok(Response(200, Some(map[]), Binary(Latin1Encode(data)), Some(meta)))
  {
    Text.ContainsHead(meta, BASE64_FLAG);
    PlainPayload(meta, data);
    Utf8EncodeAscii(data);
    Utf8Without(data, '%');
  }

  /** `data:text/plain`, without a comma, is malformed. */
  lemma NoCommaExample()
    ensures FetchData(Of(PREFIX + "text/plain")) == Err(MalformedDataUrl)
  {
    NoComma("text/plain");
  }
}
