/**
 * Percent-decoding of section 2.1 of RFC 3986, as `urllib.parse.unquote_to_bytes`
 * performs it: every `%` followed by two hexadecimal digits (either case)
 * stands for the byte they spell; every other byte, a lone `%` included,
 * stands for itself.
 */
module Percent {
  import opened Wrappers
  import opened Bytes

  const PERCENT: byte := 0x25

  /** The value of an ASCII hexadecimal digit. */
  function HexValue(b: byte): (r: Option<nat>)
    ensures r.Some? ==> r.value < 16
  {
    var n := b as int;
    if 0x30 <= n <= 0x39 then Some(n - 0x30)
    else if 0x41 <= n <= 0x46 then Some(n - 0x41 + 10)
    else if 0x61 <= n <= 0x66 then Some(n - 0x61 + 10)
    else None
  }

  /** True when `b` starts with `%` and two hexadecimal digits. */
  predicate StartsWithEscape(b: seq<byte>) {
    |b| >= 3 && b[0] == PERCENT && HexValue(b[1]).Some? && HexValue(b[2]).Some?
  }

  /**
   * Decoding never lengthens its input, keeps non-empty input non-empty, and
   * leaves input without any `%` unchanged.
   */
  function Decode(b: seq<byte>): (r: seq<byte>)
    ensures |r| <= |b|
    ensures |b| > 0 ==> |r| > 0
    ensures PERCENT !in b ==> r == b
    decreases |b|
  {
    if |b| == 0 then []
    else if StartsWithEscape(b) then
      [Byte(HexValue(b[1]).value * 16 + HexValue(b[2]).value)] + Decode(b[3..])
    else
      [b[0]] + Decode(b[1..])
  }

  /** Bytes before the first `%` pass through unchanged, whatever follows them. */
  lemma {:induction false} DecodePlainPrefix(p: seq<byte>, q: seq<byte>)
    requires PERCENT !in p
    ensures Decode(p + q) == p + Decode(q)
    decreases |p|
  {
    if p == [] {
      assert p + q == q;
    } else {
      var b := p + q;
      var tail := p[1..];
      assert PERCENT !in tail && b[1..] == tail + q by {
        assert p == [p[0]] + tail;
      }
      assert Decode(b) == [p[0]] + Decode(tail + q) by {
        assert b[0] == p[0];
        DecodePlain(b);
      }
      DecodePlainPrefix(tail, q);
      assert [p[0]] + (tail + Decode(q)) == p + Decode(q) by {
        assert p == [p[0]] + tail;
      }
    }
  }

  /** A byte other than `%` is copied, and decoding goes on after it. */
  lemma DecodePlain(b: seq<byte>)
    requires |b| > 0 && b[0] != PERCENT
    ensures Decode(b) == [b[0]] + Decode(b[1..])
  {
  }

  /** An upper-case hexadecimal digit as an ASCII byte. */
  function HexDigit(d: nat): (b: byte)
    requires d < 16
    ensures HexValue(b) == Some(d) && b as int < 128
  {
    if d < 10 then Byte(0x30 + d) else Byte(0x41 + d - 10)
  }

  /** The escape `%XY` of every byte; the inverse that `Decode` undoes. */
  function Encode(b: seq<byte>): (r: seq<byte>)
    ensures |r| == 3 * |b|
  {
    if |b| == 0 then []
    else [PERCENT, HexDigit(b[0] as int / 16), HexDigit(b[0] as int % 16)] + Encode(b[1..])
  }

  /** Decoding the escaped form gives back every byte. */
  lemma {:induction false} DecodeEncode(b: seq<byte>)
    ensures Decode(Encode(b)) == b
    decreases |b|
  {
    if |b| > 0 {
      var e := Encode(b);
      assert StartsWithEscape(e);
      assert e[3..] == Encode(b[1..]);
      DecodeEncode(b[1..]);
      var x := b[0] as int;
      assert (x / 16) * 16 + x % 16 == x;
    }
  }

  /** The escaped form is ASCII text. */
  lemma {:induction false} EncodeIsAscii(b: seq<byte>)
    ensures forall i :: 0 <= i < |Encode(b)| ==> Encode(b)[i] as int < 128
    decreases |b|
  {
    if |b| > 0 {
      EncodeIsAscii(b[1..]);
      var e := Encode(b);
      assert e == [PERCENT, HexDigit(b[0] as int / 16), HexDigit(b[0] as int % 16)] + Encode(b[1..]);
      assert forall i :: 3 <= i < |e| ==> e[i] == Encode(b[1..])[i - 3];
    }
  }
}
