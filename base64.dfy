/**
 * The base64 encoding of section 4 of RFC 4648: the standard alphabet,
 * groups of four characters for three bytes, and `=` padding in the last
 * group only.
 */
module Base64 {
  import opened Wrappers
  import opened Bytes

  /** The 6-bit value of a character of the standard alphabet. */
  function SextetOf(c: char): (r: Option<nat>)
    ensures r.Some? ==> r.value < 64
  {
    if 'A' <= c <= 'Z' then Some(c as int - 'A' as int)
    else if 'a' <= c <= 'z' then Some(c as int - 'a' as int + 26)
    else if '0' <= c <= '9' then Some(c as int - '0' as int + 52)
    else if c == '+' then Some(62)
    else if c == '/' then Some(63)
    else None
  }

  /** The alphabet character for a 6-bit value. */
  function AlphabetChar(v: nat): (c: char)
    requires v < 64
    ensures SextetOf(c) == Some(v)
  {
    if v < 26 then ('A' as int + v) as char
    else if v < 52 then ('a' as int + v - 26) as char
    else if v < 62 then ('0' as int + v - 52) as char
    else if v == 62 then '+'
    else '/'
  }

  /** The sextets of three bytes `x`, `y`, `z`: the top six bits of `x`, and so on. */
  function Sextet1(x: byte): (r: nat)
    ensures r < 64
  {
    x as int / 4
  }

  function Sextet2(x: byte, y: byte): (r: nat)
    ensures r < 64
  {
    (x as int % 4) * 16 + y as int / 16
  }

  function Sextet3(y: byte, z: byte): (r: nat)
    ensures r < 64
  {
    (y as int % 16) * 4 + z as int / 64
  }

  function Sextet4(z: byte): (r: nat)
    ensures r < 64
  {
    z as int % 64
  }

  /** The bytes of four sextets `a`, `b`, `c`, `d`: `a` and the top two bits of `b`, and so on. */
  function Byte1(a: nat, b: nat): byte
    requires a < 64 && b < 64
  {
    (a * 4 + b / 16) as byte
  }

  function Byte2(b: nat, c: nat): byte
    requires b < 64 && c < 64
  {
    ((b % 16) * 16 + c / 4) as byte
  }

  function Byte3(c: nat, d: nat): byte
    requires c < 64 && d < 64
  {
    ((c % 4) * 64 + d) as byte
  }

  /** Splitting bytes into sextets and joining them again gives the bytes back. */
  lemma JoinSextet1(x: byte, y: byte)
    ensures Byte1(Sextet1(x), Sextet2(x, y)) == x
  {
    var n := x as int;
    assert (n / 4) * 4 + n % 4 == n;
  }

  lemma JoinSextet2(x: byte, y: byte, z: byte)
    ensures Byte2(Sextet2(x, y), Sextet3(y, z)) == y
  {
    var m := y as int;
    var hi, lo := m / 16, m % 16;
    assert hi * 16 + lo == m;
    LowBits(x as int % 4, hi);
    HighBits(lo, z as int / 64);
  }

  lemma LowBits(k: nat, r: nat)
    requires r < 16
    ensures (k * 16 + r) % 16 == r
  {
  }

  lemma LowBits4(k: nat, r: nat)
    requires r < 4
    ensures (k * 4 + r) % 4 == r
  {
  }

  lemma HighBits(k: nat, r: nat)
    requires r < 4
    ensures (k * 4 + r) / 4 == k
  {
  }

  lemma JoinSextet3(y: byte, z: byte)
    ensures Byte3(Sextet3(y, z), Sextet4(z)) == z
  {
    var m := z as int;
    assert (m / 64) * 64 + m % 64 == m;
    LowBits4(y as int % 16, m / 64);
  }

  /** Three bytes from four sextets. */
  function Triple(a: nat, b: nat, c: nat, d: nat): seq<byte>
    requires a < 64 && b < 64 && c < 64 && d < 64
  {
    [Byte1(a, b), Byte2(b, c), Byte3(c, d)]
  }

  /** A group of four alphabet characters. */
  function DecodeFull(q: string): Option<seq<byte>>
    requires |q| == 4
  {
    match (SextetOf(q[0]), SextetOf(q[1]), SextetOf(q[2]), SextetOf(q[3]))
    case (Some(a), Some(b), Some(c), Some(d)) => Some(Triple(a, b, c, d))
    case _ => None
  }

  /** The last group, which may end in `==` (one byte) or `=` (two bytes). */
  function DecodeFinal(q: string): Option<seq<byte>>
    requires |q| == 4
  {
    if q[2] == '=' && q[3] == '=' then
      match (SextetOf(q[0]), SextetOf(q[1]))
      case (Some(a), Some(b)) => Some([Byte1(a, b)])
      case _ => None
    else if q[3] == '=' then
      match (SextetOf(q[0]), SextetOf(q[1]), SextetOf(q[2]))
      case (Some(a), Some(b), Some(c)) => Some([Byte1(a, b), Byte2(b, c)])
      case _ => None
    else DecodeFull(q)
  }

  function DecodeGroups(s: string): Option<seq<byte>>
    requires |s| % 4 == 0
    decreases |s|
  {
    if |s| == 0 then Some([])
    else if |s| == 4 then DecodeFinal(s)
    else match DecodeFull(s[..4])
      case None => None
      case Some(g) =>
        match DecodeGroups(s[4..])
        case None => None
        case Some(rest) => Some(g + rest)
  }

  /** Strict decoding; `None` for text that is not a padded base64 string. */
  function Decode(s: string): (r: Option<seq<byte>>)
    ensures r.Some? ==> |s| % 4 == 0
  {
    if |s| % 4 != 0 then None else DecodeGroups(s)
  }

  /** Encoding, padded with `=` to a multiple of four characters. */
  function Encode(b: seq<byte>): (s: string)
    ensures |s| % 4 == 0 && (|s| == 0 <==> |b| == 0)
    ensures |b| > 3 ==> |s| > 4
    decreases |b|
  {
    if |b| == 0 then []
    else if |b| == 1 then
      [AlphabetChar(Sextet1(b[0])), AlphabetChar(Sextet2(b[0], 0)), '=', '=']
    else if |b| == 2 then
      [AlphabetChar(Sextet1(b[0])), AlphabetChar(Sextet2(b[0], b[1])), AlphabetChar(Sextet3(b[1], 0)), '=']
    else
      var rest := Encode(b[3..]);
      Mod4Step(|rest|);
      [AlphabetChar(Sextet1(b[0])), AlphabetChar(Sextet2(b[0], b[1])),
       AlphabetChar(Sextet3(b[1], b[2])), AlphabetChar(Sextet4(b[2]))] + rest
  }

  lemma Mod4Step(n: nat)
    requires n % 4 == 0
    ensures (4 + n) % 4 == 0
  {
  }

  lemma GroupOfOne(b: seq<byte>)
    requires |b| == 1
    ensures DecodeFinal(Encode(b)) == Some(b)
  {
    var a, c := Sextet1(b[0]), Sextet2(b[0], 0);
    JoinSextet1(b[0], 0);
    var s := Encode(b);
    assert s == [AlphabetChar(a), AlphabetChar(c), '=', '='];
    assert SextetOf(s[0]) == Some(a) && SextetOf(s[1]) == Some(c);
    assert DecodeFinal(s) == Some([Byte1(a, c)]);
    assert b == [b[0]];
  }

  lemma GroupOfTwo(b: seq<byte>)
    requires |b| == 2
    ensures DecodeFinal(Encode(b)) == Some(b)
  {
    var a, c, d := Sextet1(b[0]), Sextet2(b[0], b[1]), Sextet3(b[1], 0);
    JoinSextet1(b[0], b[1]);
    JoinSextet2(b[0], b[1], 0);
    var s := Encode(b);
    assert s == [AlphabetChar(a), AlphabetChar(c), AlphabetChar(d), '='];
    assert SextetOf(s[0]) == Some(a) && SextetOf(s[1]) == Some(c) && SextetOf(s[2]) == Some(d);
    assert DecodeFinal(s) == Some([Byte1(a, c), Byte2(c, d)]);
    assert b == [b[0], b[1]];
  }

  lemma GroupOfThree(b: seq<byte>)
    requires |b| >= 3
    ensures |Encode(b)| >= 4 && DecodeFull(Encode(b)[..4]) == Some(b[..3])
    ensures Encode(b)[4..] == Encode(b[3..])
  {
    var a, c, d, e := Sextet1(b[0]), Sextet2(b[0], b[1]), Sextet3(b[1], b[2]), Sextet4(b[2]);
    JoinSextet1(b[0], b[1]);
    JoinSextet2(b[0], b[1], b[2]);
    JoinSextet3(b[1], b[2]);
    var q := Encode(b)[..4];
    assert q == [AlphabetChar(a), AlphabetChar(c), AlphabetChar(d), AlphabetChar(e)];
    assert Triple(a, c, d, e) == b[..3];
  }

  /** Decoding an encoding gives back the bytes. */
  lemma {:induction false} DecodeEncode(b: seq<byte>)
    ensures Decode(Encode(b)) == Some(b)
    decreases |b|
  {
    var s := Encode(b);
    if |b| == 1 {
      GroupOfOne(b);
    } else if |b| == 2 {
      GroupOfTwo(b);
    } else if |b| >= 3 {
      GroupOfThree(b);
      DecodeEncode(b[3..]);
      if |b| == 3 {
        assert s == s[..4];
        assert b == b[..3];
      } else {
        assert b == b[..3] + b[3..];
      }
    }
  }
}
