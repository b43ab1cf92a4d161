/**
 * The Python `str` operations the fetcher relies on: `isspace`/`strip`,
 * `lower`, `in`, `find`, `split(sep, 1)` and `replace(old, "")`.
 */
module Text {
  import opened Wrappers

  /** Python's `str.isspace()` for one character (CPython's White_Space list). */
  predicate IsSpace(c: char) {
    var n := c as int;
    (9 <= n <= 13) || (28 <= n <= 32) || n == 0x85 || n == 0xA0 || n == 0x1680
    || (0x2000 <= n <= 0x200A) || n == 0x2028 || n == 0x2029 || n == 0x202F
    || n == 0x205F || n == 0x3000
  }

  predicate AllSpace(s: string) {
    forall k :: 0 <= k < |s| ==> IsSpace(s[k])
  }

  /** Number of leading whitespace characters. */
  function StripStart(s: string): (a: nat)
    ensures a <= |s|
  {
    if |s| > 0 && IsSpace(s[0]) then 1 + StripStart(s[1..]) else 0
  }

  /** The leading run is whitespace, and the character after it is not. */
  lemma {:induction false} StripStartShape(s: string)
    ensures forall k :: 0 <= k < StripStart(s) ==> IsSpace(s[k])
    ensures StripStart(s) < |s| ==> !IsSpace(s[StripStart(s)])
    decreases |s|
  {
    if |s| > 0 && IsSpace(s[0]) {
      StripStartShape(s[1..]);
      assert forall k :: 1 <= k < |s| ==> s[k] == s[1..][k - 1];
    }
  }

  /** Length of `s` without its trailing whitespace. */
  function StripEnd(s: string): (b: nat)
    ensures b <= |s|
  {
    if |s| > 0 && IsSpace(s[|s| - 1]) then StripEnd(s[..|s| - 1]) else |s|
  }

  /** The trailing run is whitespace, and the character before it is not. */
  lemma {:induction false} StripEndShape(s: string)
    ensures forall k :: StripEnd(s) <= k < |s| ==> IsSpace(s[k])
    ensures StripEnd(s) > 0 ==> !IsSpace(s[StripEnd(s) - 1])
    decreases |s|
  {
    if |s| > 0 && IsSpace(s[|s| - 1]) {
      StripEndShape(s[..|s| - 1]);
    }
  }

  /** Python's `s.strip()`: the text between the leading and the trailing whitespace. */
  function Strip(s: string): (r: string)
    ensures |r| <= |s|
  {
    var a := StripStart(s);
    StripStartShape(s);
    StripEndShape(s);
    if a == |s| then [] else s[a..StripEnd(s)]
  }

  /**
   * What `strip` leaves is the slice after the leading whitespace, only
   * whitespace follows it, and it neither starts nor ends with whitespace.
   */
  lemma StripShape(s: string)
    ensures StripStart(s) + |Strip(s)| <= |s| && Strip(s) == s[StripStart(s)..StripStart(s) + |Strip(s)|]
    ensures forall k :: StripStart(s) + |Strip(s)| <= k < |s| ==> IsSpace(s[k])
    ensures Strip(s) == [] || (!IsSpace(Strip(s)[0]) && !IsSpace(Strip(s)[|Strip(s)| - 1]))
  {
    StripStartShape(s);
    StripEndShape(s);
    var a, b := StripStart(s), StripEnd(s);
    if a < |s| {
      assert !IsSpace(s[a]);
      assert a < b;
      var r := Strip(s);
      assert r == s[a..b];
      assert r[0] == s[a] && r[|r| - 1] == s[b - 1];
    }
  }

  /** Python's `str.lower()` for one character: ASCII and Latin-1 capitals. */
  function LowerChar(c: char): char {
    var n := c as int;
    if ('A' <= c <= 'Z') || (0xC0 <= n <= 0xDE && n != 0xD7) then (n + 32) as char else c
  }

  function Lower(s: string): (r: string)
    ensures |r| == |s|
  {
    seq(|s|, i requires 0 <= i < |s| => LowerChar(s[i]))
  }

  /** `lower` works character by character. */
  lemma LowerAt(s: string)
    ensures forall i :: 0 <= i < |s| ==> Lower(s)[i] == LowerChar(s[i])
  {
  }

  /** Index of the first occurrence of `x` (Python's `find` for one element). */
  function IndexOf<T(==)>(s: seq<T>, x: T): (r: Option<nat>)
    ensures r.Some? ==> r.value < |s|
  {
    if |s| == 0 then None
    else if s[0] == x then Some(0)
    else match IndexOf(s[1..], x)
      case None => None
      case Some(k) => Some(k + 1)
  }

  /** The index found holds `x` and none before it does; there is none exactly when `x` does not occur. */
  lemma {:induction false} IndexOfShape<T>(s: seq<T>, x: T)
    ensures IndexOf(s, x).Some? ==> s[IndexOf(s, x).value] == x && x !in s[..IndexOf(s, x).value]
    ensures IndexOf(s, x).None? <==> x !in s
    decreases |s|
  {
    if |s| > 0 && s[0] != x {
      IndexOfShape(s[1..], x);
      assert s == [s[0]] + s[1..];
      if IndexOf(s, x).Some? {
        var k := IndexOf(s[1..], x).value;
        assert s[..k + 1] == [s[0]] + s[1..][..k];
      }
    }
  }

  /** `s.split(c, 1)` when it yields two parts: the text before and after the first `c`. */
  function SplitOnce(s: string, c: char): (r: Option<(string, string)>)
  {
    match IndexOf(s, c)
    case None => None
    case Some(i) => Some((s[..i], s[i + 1..]))
  }

  /** There are two parts exactly when `c` occurs; they are what lies around its first occurrence. */
  lemma SplitOnceShape(s: string, c: char)
    ensures SplitOnce(s, c).None? <==> c !in s
    ensures SplitOnce(s, c).Some? ==>
      s == SplitOnce(s, c).value.0 + [c] + SplitOnce(s, c).value.1 && c !in SplitOnce(s, c).value.0
  {
    IndexOfShape(s, c);
    if IndexOf(s, c).Some? {
      var i := IndexOf(s, c).value;
      assert s == s[..i] + [c] + s[i + 1..];
    }
  }

  /** `s.split(c, 1)[0]`: the text before the first `c`, or all of `s`. */
  function BeforeFirst(s: string, c: char): (r: string)
  {
    match SplitOnce(s, c)
    case None => s
    case Some(parts) => parts.0
  }

  /** The text before the first `c` is a prefix without `c`, followed by `c` unless it is everything. */
  lemma BeforeFirstShape(s: string, c: char)
    ensures BeforeFirst(s, c) <= s && c !in BeforeFirst(s, c)
    ensures |BeforeFirst(s, c)| < |s| ==> s[|BeforeFirst(s, c)|] == c
    ensures c !in s ==> BeforeFirst(s, c) == s
  {
    SplitOnceShape(s, c);
    if SplitOnce(s, c).Some? {
      var (a, b) := SplitOnce(s, c).value;
      assert s[..|a|] == a;
      assert s[|a|] == c;
    }
  }

  /** Python's `t in s` for strings. */
  predicate Contains(s: string, t: string)
    decreases |s|
  {
    t <= s || (|s| > 0 && Contains(s[1..], t))
  }

  /** Index of the first occurrence of `t` in `s` (Python's `s.find(t)`). */
  function FindSub(s: string, t: string): (r: Option<nat>)
    ensures r.Some? ==> r.value + |t| <= |s| && t <= s[r.value..]
    ensures r.Some? ==> forall j :: 0 <= j < r.value ==> !(t <= s[j..])
    ensures r.None? ==> forall j :: 0 <= j <= |s| ==> !(t <= s[j..])
    decreases |s|
  {
    if t <= s then Some(0)
    else if |s| == 0 then None
    else match FindSub(s[1..], t)
      case None =>
        assert forall j :: 1 <= j <= |s| ==> s[j..] == s[1..][j - 1..];
        None
      case Some(k) =>
        assert forall j :: 1 <= j <= k + 1 ==> s[j..] == s[1..][j - 1..];
        Some(k + 1)
  }

  /**
   * Python's `s.replace(t, "")`: every occurrence of `t`, found left to
   * right without overlap, is removed. The result equals `s` exactly when
   * `t` does not occur in `s`.
   */
  function RemoveAll(s: string, t: string): (r: string)
    requires |t| > 0
    ensures |r| <= |s|
    ensures r == s <==> !Contains(s, t)
    decreases |s|
  {
    if |s| == 0 then []
    else if t <= s then RemoveAll(s[|t|..], t)
    else [s[0]] + RemoveAll(s[1..], t)
  }

  // ---------------------------------------------------------------------
  // Facts about these operations used by the handler proofs.

  lemma {:induction false} ContainsAt(s: string, t: string, i: nat)
    requires i + |t| <= |s| && s[i..i + |t|] == t
    ensures Contains(s, t)
    decreases i
  {
    if i > 0 {
      assert s[1..][i - 1..i - 1 + |t|] == t;
      ContainsAt(s[1..], t, i - 1);
    }
  }

  /** Whatever a string contains begins with its first character somewhere. */
  lemma {:induction false} ContainsHead(s: string, t: string)
    requires |t| > 0 && t[0] !in s
    ensures !Contains(s, t)
    decreases |s|
  {
    if |s| > 0 {
      assert !(t <= s) by { assert s[0] != t[0]; }
      ContainsHead(s[1..], t);
    }
  }

  /** Removing `t` from `a + t`, where `a` cannot hold the first character of `t`. */
  lemma {:induction false} RemoveAllSuffix(a: string, t: string)
    requires |t| > 0 && t[0] !in a
    ensures RemoveAll(a + t, t) == a
    decreases |a|
  {
    if |a| == 0 {
      assert a + t == t;
      assert t[|t|..] == [];
    } else {
      assert !(t <= a + t) by { assert (a + t)[0] == a[0] != t[0]; }
      assert (a + t)[1..] == a[1..] + t;
      RemoveAllSuffix(a[1..], t);
    }
  }

  lemma {:induction false} IndexOfAppend<T>(a: seq<T>, b: seq<T>, x: T)
    requires x !in a
    ensures IndexOf(a + b, x) == match IndexOf(b, x) case None => None case Some(k) => Some(|a| + k)
    decreases |a|
  {
    if |a| == 0 {
      assert a + b == b;
    } else {
      assert (a + b)[0] == a[0];
      assert (a + b)[1..] == a[1..] + b;
      IndexOfAppend(a[1..], b, x);
    }
  }

  lemma SplitOnceAppend(a: string, c: char, b: string)
    requires c !in a
    ensures SplitOnce(a + [c] + b, c) == Some((a, b))
  {
    IndexOfAppend(a, [c] + b, c);
    assert a + [c] + b == a + ([c] + b);
    var s := a + [c] + b;
    assert s[..|a|] == a;
    assert s[|a| + 1..] == b;
  }

  lemma BeforeFirstAppend(a: string, c: char, b: string)
    requires c !in a
    ensures BeforeFirst(a + [c] + b, c) == a
  {
    SplitOnceAppend(a, c, b);
  }

  lemma {:induction false} FindSubAppend(a: string, t: string, b: string)
    requires |t| > 0 && t[0] !in a
    ensures FindSub(a + t + b, t) == Some(|a|)
    decreases |a|
  {
    var s := a + t + b;
    if |a| == 0 {
      assert s == t + b;
    } else {
      assert s[0] == a[0] != t[0];
      assert s[1..] == a[1..] + t + b;
      FindSubAppend(a[1..], t, b);
    }
  }

  /** Stripping a string padded on both sides by whitespace gives back its trimmed core. */
  lemma StripPadded(p: string, s: string, q: string)
    requires AllSpace(p) && AllSpace(q)
    requires s == [] || (!IsSpace(s[0]) && !IsSpace(s[|s| - 1]))
    ensures Strip(p + s + q) == s
  {
    var w := p + s + q;
    StripStartPadded(p, s + q);
    assert w == p + (s + q);
    if s == [] {
      assert s + q == q;
      StripStartAllSpace(q);
      assert StripStart(w) == |w|;
    } else {
      assert (s + q)[0] == s[0];
      assert StripStart(s + q) == 0;
      assert StripStart(w) == |p|;
      StripEndPadded(p + s, q);
      assert w == (p + s) + q;
      assert (p + s)[|p + s| - 1] == s[|s| - 1];
      assert StripEnd(p + s) == |p| + |s|;
      assert w[|p|..|p| + |s|] == s;
    }
  }

  lemma {:induction false} StripStartAllSpace(q: string)
    requires AllSpace(q)
    ensures StripStart(q) == |q|
    decreases |q|
  {
    if |q| > 0 {
      assert IsSpace(q[0]);
      StripStartAllSpace(q[1..]);
    }
  }

  lemma {:induction false} StripEndPadded(s: string, q: string)
    requires AllSpace(q)
    ensures StripEnd(s + q) == StripEnd(s)
    decreases |q|
  {
    if |q| == 0 {
      assert s + q == s;
    } else {
      assert (s + q)[..|s + q| - 1] == s + q[..|q| - 1];
      StripEndPadded(s, q[..|q| - 1]);
    }
  }

  lemma {:induction false} StripStartPadded(p: string, s: string)
    requires AllSpace(p)
    ensures StripStart(p + s) == |p| + StripStart(s)
    decreases |p|
  {
    if |p| == 0 {
      assert p + s == s;
    } else {
      assert (p + s)[1..] == p[1..] + s;
      StripStartPadded(p[1..], s);
    }
  }

  /** Lower-casing is idempotent, so stored keys are already in lower case. */
  lemma LowerIdempotent(s: string)
    ensures Lower(Lower(s)) == Lower(s)
  {
    LowerAt(s);
    LowerAt(Lower(s));
  }

  lemma LowerAppend(a: string, b: string)
    ensures Lower(a + b) == Lower(a) + Lower(b)
  {
    LowerAt(a);
    LowerAt(b);
    LowerAt(a + b);
  }

  /** `"".join(parts)` and `b"".join(parts)`: the parts one after the other. */
  function Join<T>(parts: seq<seq<T>>): (r: seq<T>)
    ensures parts == [] ==> r == []
  {
    if parts == [] then [] else parts[0] + Join(parts[1..])
  }

  /** Joining one more part adds it at the end. */
  lemma {:induction false} JoinAppend<T>(parts: seq<seq<T>>, d: seq<T>)
    ensures Join(parts + [d]) == Join(parts) + d
    decreases |parts|
  {
    if parts == [] {
      assert parts + [d] == [d];
      assert Join([d]) == d + Join([]);
    } else {
      assert (parts + [d])[1..] == parts[1..] + [d];
      JoinAppend(parts[1..], d);
    }
  }
}
