/**
 * Byte strings and the two text encodings the fetcher uses: ISO-8859-1 for
 * the lines it reads off the wire and UTF-8 for text it turns into bytes.
 */
module Bytes {

  /** One octet. */
  newtype byte = x: int | 0 <= x < 256

  const LF: byte := 10
  const CR: byte := 13
  const CRLF: seq<byte> := [CR, LF]

  /** `b.decode("iso-8859-1")`: every byte becomes the character with the same code. */
  function Latin1Decode(b: seq<byte>): (s: string)
    ensures |s| == |b|
  {
    seq(|b|, i requires 0 <= i < |b| => (b[i] as int) as char)
  }

  predicate IsLatin1(s: string) {
    forall i :: 0 <= i < |s| ==> s[i] as int < 256
  }

  /** `s.encode("iso-8859-1")` for text whose characters all fit in a byte. */
  function Latin1Encode(s: string): (b: seq<byte>)
    requires IsLatin1(s)
    ensures |b| == |s|
  {
    seq(|s|, i requires 0 <= i < |s| => (s[i] as int) as byte)
  }

  lemma Latin1RoundTrip(s: string)
    requires IsLatin1(s)
    ensures Latin1Decode(Latin1Encode(s)) == s
  {
  }

  lemma Latin1DecodeAppend(a: seq<byte>, b: seq<byte>)
    ensures Latin1Decode(a + b) == Latin1Decode(a) + Latin1Decode(b)
  {
  }

  lemma Latin1EncodeAppend(s: string, t: string)
    requires IsLatin1(s) && IsLatin1(t)
    ensures IsLatin1(s + t) && Latin1Encode(s + t) == Latin1Encode(s) + Latin1Encode(t)
  {
  }

  function Byte(x: int): (b: byte)
    requires 0 <= x < 256
    ensures b as int == x
  {
    x as byte
  }

  /** The UTF-8 encoding of one Unicode scalar value. */
  function Utf8Char(c: char): (b: seq<byte>)
    ensures 1 <= |b| <= 4
    ensures c as int < 128 ==> b == [Byte(c as int)]
    ensures c as int >= 128 ==> forall i :: 0 <= i < |b| ==> b[i] as int >= 128
  {
    var n := c as int;
    if n < 0x80 then [n as byte]
    else if n < 0x800 then
      assert n / 64 < 32;
      [Byte(0xC0 + n / 64), Byte(0x80 + n % 64)]
    else if n < 0x10000 then
      assert n / 4096 < 16;
      [Byte(0xE0 + n / 4096), Byte(0x80 + (n / 64) % 64), Byte(0x80 + n % 64)]
    else
      assert n / 262144 < 5;
      [Byte(0xF0 + n / 262144), Byte(0x80 + (n / 4096) % 64),
       Byte(0x80 + (n / 64) % 64), Byte(0x80 + n % 64)]
  }

  predicate IsAscii(s: string) {
    forall i :: 0 <= i < |s| ==> s[i] as int < 128
  }

  /** `s.encode("utf8")`. */
  function Utf8Encode(s: string): (b: seq<byte>)
    ensures |b| >= |s|
  {
    if s == [] then [] else Utf8Char(s[0]) + Utf8Encode(s[1..])
  }

  lemma {:induction false} Utf8EncodeAppend(s: string, t: string)
    ensures Utf8Encode(s + t) == Utf8Encode(s) + Utf8Encode(t)
    decreases |s|
  {
    if s == [] {
      assert s + t == t;
    } else {
      assert (s + t)[1..] == s[1..] + t;
      Utf8EncodeAppend(s[1..], t);
    }
  }

  /** An ASCII character that text lacks is not among the bytes of its encoding. */
  lemma {:induction false} Utf8Without(s: string, c: char)
    requires c as int < 128 && c !in s
    ensures Byte(c as int) !in Utf8Encode(s)
    decreases |s|
  {
    if s != [] {
      Utf8Without(s[1..], c);
      var head := Utf8Char(s[0]);
      assert Byte(c as int) !in head by {
        if s[0] as int < 128 {
          assert head == [Byte(s[0] as int)];
        }
      }
    }
  }

  /** ASCII text encodes to the same codes, one byte per character. */
  lemma {:induction false} Utf8EncodeAscii(s: string)
    requires IsAscii(s)
    ensures IsLatin1(s) && Utf8Encode(s) == Latin1Encode(s)
    decreases |s|
  {
    if s != [] {
      Utf8EncodeAscii(s[1..]);
      assert Latin1Encode(s) == [Byte(s[0] as int)] + Latin1Encode(s[1..]);
    }
  }
}
