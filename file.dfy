/**
 * The `file:` handler up to the file it opens: the URL loses its first
 * seven characters (the length of `file://`, which is not checked), on
 * Windows a leading `/` before a drive letter is dropped, and the rest is
 * percent-decoded; an empty path is refused.
 */
module FileUrl {
  import opened Wrappers
  import opened Bytes
  import opened Base
  import Percent

  /** `len("file://")`. */
  const SCHEME_LENGTH: nat := 7

  /** Python's `str.isalpha()` for one character, for ASCII and Latin-1. */
  predicate IsAlpha(c: char) {
    var n := c as int;
    ('A' <= c <= 'Z') || ('a' <= c <= 'z') || n == 0xAA || n == 0xB5 || n == 0xBA
    || (0xC0 <= n <= 0xFF && n != 0xD7 && n != 0xF7)
  }

  /** `s[n:]` of Python: empty when `s` is shorter than `n`. */
  function DropFirst(s: string, n: nat): (r: string)
    ensures |s| <= n ==> r == []
    ensures |s| > n ==> |r| == |s| - n && s == s[..n] + r
  {
    if |s| <= n then [] else s[n..]
  }

  /** A path of the form `/X:...` with an alphabetic `X`. */
  predicate HasDriveLetter(path: string) {
    |path| > 2 && path[0] == '/' && IsAlpha(path[1]) && path[2] == ':'
  }

  /** The path before decoding: only on Windows, and only before a drive letter, the leading `/` goes. */
  function LocalPath(url: string, isWindows: bool): (p: string)
    ensures var path := DropFirst(url, SCHEME_LENGTH);
      if isWindows && HasDriveLetter(path) then [path[0]] + p == path else p == path
  {
    var path := DropFirst(url, SCHEME_LENGTH);
    if isWindows && HasDriveLetter(path) then path[1..] else path
  }

  /** `urllib.parse.unquote` of the path, as the bytes it stands for. */
  function DecodedPath(url: string, isWindows: bool): (p: seq<byte>)
    ensures p == [] <==> LocalPath(url, isWindows) == []
  {
    var s := LocalPath(url, isWindows);
    Utf8NonEmpty(s);
    Percent.Decode(Utf8Encode(s))
  }

  lemma Utf8NonEmpty(s: string)
    ensures Utf8Encode(s) == [] <==> s == []
  {
    if s != [] {
      assert |Utf8Encode(s)| >= |s|;
    }
  }

  /**
   * `FileHandler.fetch`: the file's bytes with status 200, empty headers and
   * the guessed type. A path holding a NUL makes `open` raise `ValueError`,
   * which is not an `OSError`, so neither handler clause catches it.
   */
  function FetchFile(h: HandlerBase, env: Env): (r: Result<Response>)
    ensures r.Err? ==> r.error == EmptyFilePath || r.error == EmbeddedNul || r.error.FileNotFound? || r.error.FileReadError?
    ensures r.Err? && r.error == EmptyFilePath <==> LocalPath(h.url, env.isWindows) == []
    ensures r == Err(EmbeddedNul) <==> 0 in DecodedPath(h.url, env.isWindows)
    ensures r.Ok? ==> (r.value.status == 200 && r.value.headers == Some(map[]) && r.value.body.Binary?
      && env.readFile(DecodedPath(h.url, env.isWindows)) == FileBytes(r.value.body.bytes))
    ensures r.Ok? ==> r.value.contentType == env.guessType(DecodedPath(h.url, env.isWindows))
    ensures OpensFile(DecodedPath(h.url, env.isWindows)) && env.readFile(DecodedPath(h.url, env.isWindows)).FileMissing?
      <==> r == Err(FileNotFound(DecodedPath(h.url, env.isWindows)))
    ensures OpensFile(DecodedPath(h.url, env.isWindows)) && env.readFile(DecodedPath(h.url, env.isWindows)).FileUnreadable?
      <==> r == Err(FileReadError(DecodedPath(h.url, env.isWindows)))
  {
    var path := DecodedPath(h.url, env.isWindows);
    if path == [] then Err(EmptyFilePath)
    else if 0 in path then Err(EmbeddedNul)
    else
      match env.readFile(path)
      case FileMissing => Err(FileNotFound(path))
      case FileUnreadable => Err(FileReadError(path))
      case FileBytes(data) => Ok(Response(200, Some(map[]), Binary(data), env.guessType(path)))
  }

  /** A path `open` gets as far as the file system with: not empty and free of NUL. */
  predicate OpensFile(path: seq<byte>) {
    path != [] && 0 !in path
  }

  /** Any seven characters are taken for the scheme: the path is what follows them. */
  lemma PrefixNotChecked(prefix: string, rest: string)
    requires |prefix| == SCHEME_LENGTH
    ensures LocalPath(prefix + rest, false) == rest
    ensures !HasDriveLetter(rest) ==> LocalPath(prefix + rest, true) == rest
  {
    assert (prefix + rest)[SCHEME_LENGTH..] == rest;
  }

  /** On Windows, `file:///C:/x` opens `C:/x`; elsewhere it opens `/C:/x`. */
  lemma DriveLetter(drive: char, rest: string)
    requires IsAlpha(drive)
    ensures LocalPath("file://" + ['/', drive, ':'] + rest, true) == [drive, ':'] + rest
    ensures LocalPath("file://" + ['/', drive, ':'] + rest, false) == ['/', drive, ':'] + rest
  {
    var path := ['/', drive, ':'] + rest;
    assert "file://" + ['/', drive, ':'] + rest == "file://" + path;
    PrefixNotChecked("file://", path);
    assert HasDriveLetter(path);
    assert path[1..] == [drive, ':'] + rest;
  }

  /**
   * The drive letter is looked for before decoding: `/%43:/x` (which
   * decodes to `/C:/x`) keeps its slash on Windows.
   */
  lemma EscapedDriveLetter()
    ensures LocalPath("file:///%43:/x", true) == "/%43:/x"
  {
    PrefixNotChecked("file://", "/%43:/x");
    assert !HasDriveLetter("/%43:/x");
  }

  /** `file://` alone names no file. */
  lemma EmptyPath(env: Env)
    ensures FetchFile(NewHandlerBase("file://"), env) == Err(EmptyFilePath)
  {
    assert LocalPath("file://", env.isWindows) == [];
  }

  /** `file:///a%00b` decodes to a path holding a NUL, which `open` refuses. */
  lemma NulInPath(env: Env)
    ensures FetchFile(NewHandlerBase("file:///a%00b"), env) == Err(EmbeddedNul)
  {
    var h := NewHandlerBase("file:///a%00b");
    assert 0 in DecodedPath(h.url, env.isWindows) by {
      NulPath(env.isWindows);
    }
  }

  lemma NulPath(isWindows: bool)
    ensures 0 in DecodedPath("file:///a%00b", isWindows)
  {
    assert LocalPath("file:///a%00b", isWindows) == "/a%00b" by {
      PrefixNotChecked("file://", "/a%00b");
      assert !HasDriveLetter("/a%00b");
    }
    NulEscape();
  }

  lemma NulEscape()
    ensures 0 in Percent.Decode(Utf8Encode("/a%00b"))
  {
    var w: seq<byte> := [0x2F, 0x61, 0x25, 0x30, 0x30, 0x62];
    assert Utf8Encode("/a%00b") == w by {
      Utf8EncodeAscii("/a%00b");
    }
    var q := w[2..];
    assert w == [0x2F, 0x61] + q;
    Percent.DecodePlainPrefix([0x2F, 0x61], q);
    assert Percent.StartsWithEscape(q) by {
      assert Percent.HexValue(q[1]) == Some(0) && Percent.HexValue(q[2]) == Some(0);
    }
    assert Percent.Decode(q)[0] == 0;
  }
}
