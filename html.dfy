/**
 * `escapeHtml` (src/js/app.js:202): three `replaceAll` passes, `&` first,
 * then `<`, then `>`. Its partner `Unescape` reads the three entities back the
 * way an HTML parser does when it produces an element's `textContent`.
 */
module Html {

  /**
   * `s.replaceAll(c, rep)` for a one-character pattern: a non-empty
   * replacement never shortens the string, and a one-character one keeps its
   * length (`ReplaceAllAbsent`: a string without `c` is returned as it is).
   */
  function ReplaceAll(s: string, c: char, rep: string): (r: string)
    ensures |rep| >= 1 ==> |r| >= |s|
    ensures |rep| == 1 ==> |r| == |s|
  {
    if s == [] then []
    else (if s[0] == c then rep else [s[0]]) + ReplaceAll(s[1..], c, rep)
  }

  /** `escapeHtml(s)`: the three passes escape every character on its own, as `EscapeEach` does. */
  function EscapeHtml(s: string): (r: string)
    ensures r == EscapeEach(s)
  {
    ThreePassesEscapeEach(s);
    ReplaceAll(ReplaceAll(ReplaceAll(s, '&', "&amp;"), '<', "&lt;"), '>', "&gt;")
  }

  /** The entity each character becomes when it is escaped on its own. */
  function EscapeChar(c: char): string {
    if c == '&' then "&amp;" else if c == '<' then "&lt;" else if c == '>' then "&gt;" else [c]
  }

  /** Reference definition: escape every character independently, left to right. */
  function EscapeEach(s: string): string {
    if s == [] then [] else EscapeChar(s[0]) + EscapeEach(s[1..])
  }

  /** Decodes `&amp;`, `&lt;` and `&gt;`; every other character stands for itself. */
  function Unescape(s: string): string {
    if |s| >= 5 && s[..5] == "&amp;" then "&" + Unescape(s[5..])
    else if |s| >= 4 && s[..4] == "&lt;" then "<" + Unescape(s[4..])
    else if |s| >= 4 && s[..4] == "&gt;" then ">" + Unescape(s[4..])
    else if s == [] then []
    else [s[0]] + Unescape(s[1..])
  }

  predicate NoAngles(s: string) {
    forall k :: 0 <= k < |s| ==> s[k] != '<' && s[k] != '>'
  }

  predicate NoSpecials(s: string) {
    forall k :: 0 <= k < |s| ==> s[k] != '&' && s[k] != '<' && s[k] != '>'
  }

  lemma {:induction false} ReplaceAllAppend(a: string, b: string, c: char, rep: string)
    ensures ReplaceAll(a + b, c, rep) == ReplaceAll(a, c, rep) + ReplaceAll(b, c, rep)
  {
    if a == [] {
      assert a + b == b;
    } else {
      assert (a + b)[1..] == a[1..] + b;
      ReplaceAllAppend(a[1..], b, c, rep);
    }
  }

  /** A pass whose pattern does not occur changes nothing. */
  lemma {:induction false} ReplaceAllAbsent(s: string, c: char, rep: string)
    requires forall k :: 0 <= k < |s| ==> s[k] != c
    ensures ReplaceAll(s, c, rep) == s
  {
    if s != [] {
      ReplaceAllAbsent(s[1..], c, rep);
    }
  }

  /**
   * The three passes, run over the whole string, escape each character once:
   * because `&` goes first, no pass touches an entity an earlier pass made.
   */
  lemma {:induction false} ThreePassesEscapeEach(s: string)
    ensures ReplaceAll(ReplaceAll(ReplaceAll(s, '&', "&amp;"), '<', "&lt;"), '>', "&gt;") == EscapeEach(s)
  {
    if s != [] {
      var c, t := s[0], s[1..];
      var r1 := if c == '&' then "&amp;" else [c];
      var r2 := if c == '<' then "&lt;" else [c];
      assert ReplaceAll(s, '&', "&amp;") == r1 + ReplaceAll(t, '&', "&amp;");
      ReplaceAllAppend(r1, ReplaceAll(t, '&', "&amp;"), '<', "&lt;");
      var p := ReplaceAll(r1, '<', "&lt;");
      ReplaceAllAppend(p, ReplaceAll(ReplaceAll(t, '&', "&amp;"), '<', "&lt;"), '>', "&gt;");
      if c == '&' {
        ReplaceAllAbsent("&amp;", '<', "&lt;");
        ReplaceAllAbsent("&amp;", '>', "&gt;");
      } else if c == '<' {
        assert p == "&lt;" by { assert ReplaceAll([c], '<', "&lt;") == "&lt;" + ReplaceAll([], '<', "&lt;"); }
        ReplaceAllAbsent("&lt;", '>', "&gt;");
      } else {
        assert p == [c] by { assert ReplaceAll([c], '<', "&lt;") == [c] + ReplaceAll([], '<', "&lt;"); }
        assert ReplaceAll([c], '>', "&gt;") == EscapeChar(c) + ReplaceAll([], '>', "&gt;");
      }
      ThreePassesEscapeEach(t);
    }
  }

  lemma {:induction false} EscapeEachNoAngles(s: string)
    ensures NoAngles(EscapeEach(s))
  {
    if s != [] {
      EscapeEachNoAngles(s[1..]);
      var e, rest := EscapeChar(s[0]), EscapeEach(s[1..]);
      assert NoAngles(e);
      forall k | 0 <= k < |e + rest| ensures (e + rest)[k] != '<' && (e + rest)[k] != '>' {
        if k >= |e| { assert (e + rest)[k] == rest[k - |e|]; }
      }
    }
  }

  /** Escaped text never contains `<` or `>`, so it cannot open or close a tag. */
  lemma EscapeHtmlNoAngles(s: string)
    ensures NoAngles(EscapeHtml(s))
  {
    EscapeEachNoAngles(s);
  }

  /** Text with no `&`, `<` or `>` is left as it is. */
  lemma {:induction false} EscapeHtmlPlainText(s: string)
    requires NoSpecials(s)
    ensures EscapeHtml(s) == s
  {
    ReplaceAllAbsent(s, '&', "&amp;");
    ReplaceAllAbsent(s, '<', "&lt;");
    ReplaceAllAbsent(s, '>', "&gt;");
  }

  lemma {:induction false} UnescapeEscapeEach(s: string)
    ensures Unescape(EscapeEach(s)) == s
  {
    if s != [] {
      var c, rest := s[0], EscapeEach(s[1..]);
      var e := EscapeChar(c) + rest;
      assert EscapeEach(s) == e;
      UnescapeEscapeEach(s[1..]);
      if c == '&' {
        assert e[..5] == "&amp;" && e[5..] == rest;
      } else if c == '<' {
        assert e[..4] == "&lt;" && e[4..] == rest;
        assert |e| >= 5 ==> e[..5][1] == 'l';
      } else if c == '>' {
        assert e[..4] == "&gt;" && e[4..] == rest;
        assert |e| >= 5 ==> e[..5][1] == 'g';
        assert e[..4][1] == 'g';
      } else {
        assert e[0] == c && e[1..] == rest;
        assert |e| >= 5 ==> e[..5][0] == c;
        assert |e| >= 4 ==> e[..4][0] == c;
      }
      assert Unescape(e) == [c] + Unescape(rest);
      assert s == [c] + s[1..];
    }
  }

  /**
   * Because `&` is replaced first, decoding the entities recovers the input:
   * the `textContent` of escaped markup is the original text.
   */
  lemma UnescapeEscapeHtml(s: string)
    ensures Unescape(EscapeHtml(s)) == s
  {
    UnescapeEscapeEach(s);
  }
}
