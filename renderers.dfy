/**
 * The small renderer: a left-to-right scan that drops every `<`, every
 * `>` and everything between a `<` and the next `>`, hands each
 * `&...;` span outside a tag to an entity decoder, and copies every other
 * character. The decoder (`html.unescape`, a large table of HTML5
 * character references) is a parameter.
 */
module Renderers {
  import opened Wrappers
  import Text

  /**
   * What the scan makes of the rest `s` of the text, `inTag` telling
   * whether it starts inside a tag.
   */
  function Render(s: string, inTag: bool, unescape: string -> string): string
    decreases |s|
  {
    if s == [] then []
    else if s[0] == '<' then Render(s[1..], true, unescape)
    else if s[0] == '>' then Render(s[1..], false, unescape)
    else if inTag then Render(s[1..], true, unescape)
    else if s[0] == '&' then
      match Text.IndexOf(s[1..], ';')
      case Some(k) => unescape(s[..k + 2]) + Render(s[k + 2..], false, unescape)
      case None => "&" + Render(s[1..], false, unescape)
    else [s[0]] + Render(s[1..], false, unescape)
  }

  /** `strip_tags_and_unescape(html_text)`. */
  method StripTagsAndUnescape(html: string, unescape: string -> string) returns (r: string)
    ensures r == Render(html, false, unescape)
  {
    var out: seq<string> := [];
    var inTag := false;
    var i := 0;
    while i < |html|
      invariant 0 <= i <= |html|
      invariant Text.Join(out) + Render(html[i..], inTag, unescape) == Render(html, false, unescape)
      decreases |html| - i
    {
      var c := html[i];
      if c == '<' {
        SkipStep(out, html, i, inTag, true, unescape);
        inTag := true;
        i := i + 1;
        continue;
      }
      if c == '>' {
        SkipStep(out, html, i, inTag, false, unescape);
        inTag := false;
        i := i + 1;
        continue;
      }
      if inTag {
        SkipStep(out, html, i, inTag, true, unescape);
        i := i + 1;
        continue;
      }
      if c == '&' {
        var found := Text.IndexOf(html[i + 1..], ';');
        if found.Some? {
          var sem := i + 1 + found.value;
          var ent := html[i..sem + 1];
          EntityStep(out, html, i, found.value, unescape);
          out := out + [unescape(ent)];
          i := sem + 1;
          continue;
        } else {
          CopyStep(out, html, i, unescape);
          out := out + [[c]];
          i := i + 1;
          continue;
        }
      }
      CopyStep(out, html, i, unescape);
      out := out + [[c]];
      i := i + 1;
    }
    r := Text.Join(out);
  }

  /** The loop invariant after one more part is output. */
  lemma Advance(out: seq<string>, x: string, rest: string, before: string, whole: string)
    requires Text.Join(out) + before == whole && before == x + rest
    ensures Text.Join(out + [x]) + rest == whole
  {
    Text.JoinAppend(out, x);
    assert Text.Join(out) + x + rest == Text.Join(out) + (x + rest);
  }

  /** The loop invariant after a character is consumed. */
  lemma SkipStep(out: seq<string>, s: string, i: nat, inTag: bool, nowInTag: bool, unescape: string -> string)
    requires i < |s| && Text.Join(out) + Render(s[i..], inTag, unescape) == Render(s, false, unescape)
    requires (s[i] == '<' && nowInTag) || (s[i] == '>' && !nowInTag)
      || (s[i] != '<' && s[i] != '>' && inTag && nowInTag)
    ensures Text.Join(out) + Render(s[i + 1..], nowInTag, unescape) == Render(s, false, unescape)
  {
    SkipAt(s, i, inTag, nowInTag, unescape);
  }

  /** The loop invariant after an entity span is decoded. */
  lemma EntityStep(out: seq<string>, s: string, i: nat, k: nat, unescape: string -> string)
    requires i < |s| && Text.Join(out) + Render(s[i..], false, unescape) == Render(s, false, unescape)
    requires s[i] == '&' && Text.IndexOf(s[i + 1..], ';') == Some(k)
    ensures i + k + 2 <= |s|
    ensures Text.Join(out + [unescape(s[i..i + k + 2])]) + Render(s[i + k + 2..], false, unescape) == Render(s, false, unescape)
  {
    EntityAt(s, i, k, unescape);
    Advance(out, unescape(s[i..i + k + 2]), Render(s[i + k + 2..], false, unescape), Render(s[i..], false, unescape),
            Render(s, false, unescape));
  }

  /** The loop invariant after a character is copied. */
  lemma CopyStep(out: seq<string>, s: string, i: nat, unescape: string -> string)
    requires i < |s| && Text.Join(out) + Render(s[i..], false, unescape) == Render(s, false, unescape)
    requires s[i] != '<' && s[i] != '>'
    requires s[i] == '&' ==> Text.IndexOf(s[i + 1..], ';').None?
    ensures Text.Join(out + [[s[i]]]) + Render(s[i + 1..], false, unescape) == Render(s, false, unescape)
  {
    CopyAt(s, i, unescape);
    Advance(out, [s[i]], Render(s[i + 1..], false, unescape), Render(s[i..], false, unescape), Render(s, false, unescape));
  }

  /** A `<`, a `>`, or any character inside a tag is consumed, and sets whether the scan is inside a tag. */
  lemma SkipAt(s: string, i: nat, inTag: bool, nowInTag: bool, unescape: string -> string)
    requires i < |s|
    requires (s[i] == '<' && nowInTag) || (s[i] == '>' && !nowInTag)
      || (s[i] != '<' && s[i] != '>' && inTag && nowInTag)
    ensures Render(s[i..], inTag, unescape) == Render(s[i + 1..], nowInTag, unescape)
  {
    var t := s[i..];
    assert t[0] == s[i] && t[1..] == s[i + 1..];
  }

  /** Outside a tag, `&` with a `;` `k + 1` characters later: the span is decoded as one. */
  lemma EntityAt(s: string, i: nat, k: nat, unescape: string -> string)
    requires i < |s| && s[i] == '&' && Text.IndexOf(s[i + 1..], ';') == Some(k)
    ensures i + k + 2 <= |s|
    ensures Render(s[i..], false, unescape) == unescape(s[i..i + k + 2]) + Render(s[i + k + 2..], false, unescape)
  {
    var t := s[i..];
    assert t[0] == s[i] && t[1..] == s[i + 1..];
    assert t[..k + 2] == s[i..i + k + 2] && t[k + 2..] == s[i + k + 2..];
  }

  /** Outside a tag, any other character, and an `&` without a later `;`, is copied. */
  lemma CopyAt(s: string, i: nat, unescape: string -> string)
    requires i < |s| && s[i] != '<' && s[i] != '>'
    requires s[i] == '&' ==> Text.IndexOf(s[i + 1..], ';').None?
    ensures Render(s[i..], false, unescape) == [s[i]] + Render(s[i + 1..], false, unescape)
  {
    var t := s[i..];
    assert t[0] == s[i] && t[1..] == s[i + 1..];
  }

  /** Text with no `<`, `>` or `&`. */
  predicate Plain(s: string) {
    '<' !in s && '>' !in s && '&' !in s
  }

  /** Outside a tag, plain text is copied in order and the scan goes on after it. */
  lemma {:induction false} PlainPrefix(a: string, rest: string, unescape: string -> string)
    requires Plain(a)
    ensures Render(a + rest, false, unescape) == a + Render(rest, false, unescape)
    decreases |a|
  {
    if a != [] {
      assert a == [a[0]] + a[1..];
      assert a[0] in a && Plain(a[1..]);
      assert (a + rest)[0] == a[0] && (a + rest)[1..] == a[1..] + rest;
      PlainPrefix(a[1..], rest, unescape);
      calc {
        Render(a + rest, false, unescape);
        [a[0]] + Render(a[1..] + rest, false, unescape);
        [a[0]] + (a[1..] + Render(rest, false, unescape));
        ([a[0]] + a[1..]) + Render(rest, false, unescape);
      }
    } else {
      assert a + rest == rest;
    }
  }

  /** Text with no `<`, `>` or `&` comes out unchanged. */
  lemma PlainText(s: string, unescape: string -> string)
    requires Plain(s)
    ensures Render(s, false, unescape) == s
  {
    PlainPrefix(s, [], unescape);
    assert s + [] == s;
  }

  /** Inside a tag everything up to the next `>` is dropped, and the scan leaves the tag after it. */
  lemma {:induction false} InsideTag(t: string, rest: string, unescape: string -> string)
    requires '>' !in t
    ensures Render(t + ">" + rest, true, unescape) == Render(rest, false, unescape)
    decreases |t|
  {
    if t == [] {
      assert t + ">" + rest == ">" + rest;
      assert (">" + rest)[1..] == rest;
    } else {
      assert (t + ">" + rest)[0] == t[0] && (t + ">" + rest)[1..] == t[1..] + ">" + rest;
      InsideTag(t[1..], rest, unescape);
    }
  }

  /** A tag `<...>` is dropped whole, whether or not the scan was already inside one. */
  lemma Tag(t: string, rest: string, inTag: bool, unescape: string -> string)
    requires '>' !in t
    ensures Render("<" + t + ">" + rest, inTag, unescape) == Render(rest, false, unescape)
  {
    var s := "<" + t + ">" + rest;
    assert s[1..] == t + ">" + rest;
    InsideTag(t, rest, unescape);
  }

  /** Inside a tag that is never closed, nothing more is output. */
  lemma {:induction false} NeverClosed(s: string, unescape: string -> string)
    requires '>' !in s
    ensures Render(s, true, unescape) == []
    decreases |s|
  {
    if s != [] {
      NeverClosed(s[1..], unescape);
    }
  }

  /** After an unclosed `<` the whole remainder is dropped. */
  lemma UnclosedTag(t: string, inTag: bool, unescape: string -> string)
    requires '>' !in t
    ensures Render("<" + t, inTag, unescape) == []
  {
    assert ("<" + t)[1..] == t;
    NeverClosed(t, unescape);
  }

  /** A `>` is consumed even outside a tag. */
  lemma StrayClose(rest: string, inTag: bool, unescape: string -> string)
    ensures Render(">" + rest, inTag, unescape) == Render(rest, false, unescape)
  {
    assert (">" + rest)[1..] == rest;
  }

  /**
   * Outside a tag, `&` up to the first `;` after it is decoded as one span,
   * even when the span holds `<` or `>`, and the scan goes on after the `;`.
   */
  lemma Entity(span: string, rest: string, unescape: string -> string)
    requires ';' !in span
    ensures Render("&" + span + ";" + rest, false, unescape)
         == unescape("&" + span + ";") + Render(rest, false, unescape)
  {
    var s := "&" + span + ";" + rest;
    assert s[1..] == span + [';'] + rest;
    Text.IndexOfAppend(span, [';'] + rest, ';');
    assert Text.IndexOf([';'] + rest, ';') == Some(0);
    assert span + [';'] + rest == span + ([';'] + rest);
    assert s[..|span| + 2] == "&" + span + ";" && s[|span| + 2..] == rest;
  }

  /** Outside a tag, an `&` with no `;` after it is output as it is. */
  lemma LoneAmpersand(s: string, unescape: string -> string)
    requires ';' !in s
    ensures Render("&" + s, false, unescape) == "&" + Render(s, false, unescape)
  {
    assert ("&" + s)[1..] == s;
    Text.IndexOfShape(s, ';');
  }

  /**
   * Every `<` and `>` in the input is consumed: when the decoder emits
   * neither, the output holds neither.
   */
  lemma {:induction false} NoAngleBrackets(s: string, inTag: bool, unescape: string -> string)
    requires forall t :: '<' !in unescape(t) && '>' !in unescape(t)
    ensures '<' !in Render(s, inTag, unescape) && '>' !in Render(s, inTag, unescape)
    decreases |s|
  {
    if s == [] {
    } else if s[0] == '<' || (s[0] != '>' && inTag) {
      NoAngleBrackets(s[1..], true, unescape);
    } else if s[0] == '>' || s[0] != '&' {
      NoAngleBrackets(s[1..], false, unescape);
    } else {
      match Text.IndexOf(s[1..], ';')
      case Some(k) =>
        var span := unescape(s[..k + 2]);
        assert '<' !in span && '>' !in span;
        NoAngleBrackets(s[k + 2..], false, unescape);
      case None =>
        NoAngleBrackets(s[1..], false, unescape);
    }
  }

  /** A page of plain text around one tag renders as the text alone. */
  lemma TextAroundTag(a: string, t: string, b: string, unescape: string -> string)
    requires Plain(a) && Plain(b) && '>' !in t
    ensures Render(a + "<" + t + ">" + b, false, unescape) == a + b
  {
    assert a + "<" + t + ">" + b == a + ("<" + t + ">" + b);
    PlainPrefix(a, "<" + t + ">" + b, unescape);
    Tag(t, b, false, unescape);
    PlainText(b, unescape);
  }

  /** A paragraph of plain text around one entity renders as the text with the entity decoded. */
  lemma EntityInParagraph(a: string, span: string, b: string, unescape: string -> string)
    requires Plain(a) && Plain(b) && ';' !in span
    ensures Render("<p>" + a + "&" + span + ";" + b + "</p>", false, unescape)
         == a + unescape("&" + span + ";") + b
  {
    var close := "<" + "/p" + ">" + "";
    var tail := "&" + span + ";" + (b + close);
    assert "<p>" + a + "&" + span + ";" + b + "</p>" == "<" + "p" + ">" + (a + tail);
    Tag("p", a + tail, false, unescape);
    PlainPrefix(a, tail, unescape);
    Entity(span, b + close, unescape);
    PlainPrefix(b, close, unescape);
    Tag("/p", "", false, unescape);
    assert a + (unescape("&" + span + ";") + (b + [])) == a + unescape("&" + span + ";") + b;
  }

  /** Plain text around an `&` that no `;` follows renders as itself. */
  lemma AmpersandText(a: string, b: string, unescape: string -> string)
    requires Plain(a) && Plain(b) && ';' !in b
    ensures Render(a + "&" + b, false, unescape) == a + "&" + b
  {
    assert a + "&" + b == a + ("&" + b);
    PlainPrefix(a, "&" + b, unescape);
    LoneAmpersand(b, unescape);
    PlainText(b, unescape);
  }

  /**
   * `<p>A &amp; B</p>` renders as `A & B` with a decoder that reads `&amp;`
   * as `&`, and rendering `A & B` again leaves it as it is.
   */
  lemma AmpersandExample(unescape: string -> string)
    requires unescape("&amp;") == "&"
    ensures Render("<p>A &amp; B</p>", false, unescape) == "A & B"
    ensures Render("A & B", false, unescape) == "A & B"
  {
    assert "<p>A &amp; B</p>" == "<p>" + "A " + "&" + "amp" + ";" + " B" + "</p>";
    assert "&" + "amp" + ";" == "&amp;";
    EntityInParagraph("A ", "amp", " B", unescape);
    assert "A & B" == "A " + "&" + " B";
    AmpersandText("A ", " B", unescape);
  }
}
