/**
 * The JavaScript string built-ins the two scripts rely on:
 * `String.prototype.trim`, `toLowerCase` (ASCII letters only) and `includes`.
 */
module JsString {

  /** The characters `trim` removes: ECMAScript WhiteSpace and LineTerminator. */
  predicate IsSpace(c: char) {
    || c == '\t' || c == '\n' || c == '\U{000B}' || c == '\U{000C}' || c == '\r'
    || c == ' ' || c == '\U{00A0}' || c == '\U{1680}'
    || ('\U{2000}' <= c <= '\U{200A}')
    || c == '\U{2028}' || c == '\U{2029}' || c == '\U{202F}' || c == '\U{205F}'
    || c == '\U{3000}' || c == '\U{FEFF}'
  }

  predicate AllSpace(s: string) {
    forall k :: 0 <= k < |s| ==> IsSpace(s[k])
  }

  /** Drops the leading white space. */
  function TrimStart(s: string): (r: string)
    ensures |r| <= |s|
  {
    if s != [] && IsSpace(s[0]) then TrimStart(s[1..]) else s
  }

  /** Drops the trailing white space. */
  function TrimEnd(s: string): (r: string)
    ensures |r| <= |s|
  {
    if s != [] && IsSpace(s[|s| - 1]) then TrimEnd(s[..|s| - 1]) else s
  }

  /** What `TrimStart` leaves is a suffix of `s` after white space only, and does not start with white space. */
  lemma {:induction false} TrimStartSpec(s: string)
    ensures var r := TrimStart(s);
            && r == s[|s| - |r|..]
            && AllSpace(s[..|s| - |r|])
            && (r == [] || !IsSpace(r[0]))
  {
    if s != [] && IsSpace(s[0]) {
      TrimStartSpec(s[1..]);
      var r := TrimStart(s);
      assert s[..|s| - |r|] == [s[0]] + s[1..][..|s| - 1 - |r|];
    }
  }

  /** What `TrimEnd` leaves is a prefix of `s` before white space only, and does not end with white space. */
  lemma {:induction false} TrimEndSpec(s: string)
    ensures var r := TrimEnd(s);
            && r == s[..|r|]
            && AllSpace(s[|r|..])
            && (r == [] || !IsSpace(r[|r| - 1]))
  {
    if s != [] && IsSpace(s[|s| - 1]) {
      TrimEndSpec(s[..|s| - 1]);
      var r := TrimEnd(s);
      assert s[|r|..] == s[..|s| - 1][|r|..] + [s[|s| - 1]];
    }
  }

  /** `r` is `s` with white space only before index `i` and after `i + |r|`. */
  predicate TrimmedAt(s: string, r: string, i: int) {
    0 <= i <= |s| - |r| && r == s[i..i + |r|] && AllSpace(s[..i]) && AllSpace(s[i + |r|..])
  }

  /** Neither starts nor ends with white space. */
  predicate Trimmed(s: string) {
    s == [] || (!IsSpace(s[0]) && !IsSpace(s[|s| - 1]))
  }

  /** `s.trim()`: no longer than `s`, and neither starting nor ending with white space. */
  function Trim(s: string): (r: string)
    ensures |r| <= |s|
    ensures Trimmed(r)
  {
    TrimStartSpec(s);
    TrimEndSpec(TrimStart(s));
    TrimEnd(TrimStart(s))
  }

  /**
   * What `trim` keeps is one slice of `s`, with white space only before and
   * after it and none at either of its own ends.
   */
  lemma TrimIsSlice(s: string)
    ensures var r := Trim(s);
            && (exists i :: TrimmedAt(s, r, i))
            && (r == [] || (!IsSpace(r[0]) && !IsSpace(r[|r| - 1])))
  {
    var t := TrimStart(s);
    var r := TrimEnd(t);
    TrimStartSpec(s);
    TrimEndSpec(t);
    var i := |s| - |t|;
    assert s[i..i + |r|] == t[..|r|];
    assert s[i + |r|..] == t[|r|..];
    assert TrimmedAt(s, r, i);
    assert Trim(s) == r;
  }

  /** `trim` yields the empty string exactly when `s` is all white space. */
  lemma TrimEmptyIff(s: string)
    ensures Trim(s) == [] <==> AllSpace(s)
  {
    var t := TrimStart(s);
    var i := |s| - |t|;
    TrimStartSpec(s);
    TrimEndSpec(t);
    AllSpaceSplit(s, i);
    assert s[i..] == t;
    assert t != [] ==> t[0] == s[i];
  }

  /** A string is all white space exactly when both halves of any split are. */
  lemma AllSpaceSplit(s: string, i: nat)
    requires i <= |s|
    ensures AllSpace(s) <==> AllSpace(s[..i]) && AllSpace(s[i..])
  {
    if AllSpace(s[..i]) && AllSpace(s[i..]) {
      forall k | 0 <= k < |s| ensures IsSpace(s[k]) {
        if k < i { assert s[k] == s[..i][k]; } else { assert s[k] == s[i..][k - i]; }
      }
    }
  }

  function LowerChar(c: char): char {
    if 'A' <= c <= 'Z' then (c as int + 32) as char else c
  }

  /** `s.toLowerCase()`, restricted to the ASCII letters. */
  function ToLower(s: string): (r: string)
    ensures |r| == |s|
    ensures forall k :: 0 <= k < |s| ==> r[k] == LowerChar(s[k])
  {
    if s == [] then [] else [LowerChar(s[0])] + ToLower(s[1..])
  }

  /** `w` occurs in `s` starting at index `i`. */
  predicate OccursAt(s: string, w: string, i: int) {
    0 <= i && i + |w| <= |s| && s[i..i + |w|] == w
  }

  /** `s.includes(w)`: only a string at least as long as `w` can include it. */
  predicate Contains(s: string, w: string)
    ensures Contains(s, w) ==> |w| <= |s|
  {
    exists i :: 0 <= i <= |s| && OccursAt(s, w, i)
  }

  /** Lower-casing both sides keeps a substring a substring. */
  lemma ContainsToLower(s: string, w: string)
    requires Contains(s, w)
    ensures Contains(ToLower(s), ToLower(w))
  {
    var i :| 0 <= i <= |s| && OccursAt(s, w, i);
    assert i + |w| <= |s| && s[i..i + |w|] == w;
    var ls, lw := ToLower(s), ToLower(w);
    forall k | 0 <= k < |w| ensures ls[i..i + |w|][k] == lw[k] {
      assert s[i + k] == w[k];
    }
    assert OccursAt(ls, lw, i);
  }

  /** Every string includes the empty string. */
  lemma ContainsEmpty(s: string)
    ensures Contains(s, [])
  {
    assert OccursAt(s, [], 0);
  }

  /** `includes` is transitive: a substring of a substring is a substring. */
  lemma ContainsTrans(s: string, m: string, w: string)
    requires Contains(s, m) && Contains(m, w)
    ensures Contains(s, w)
  {
    var i :| 0 <= i <= |s| && OccursAt(s, m, i);
    var j :| 0 <= j <= |m| && OccursAt(m, w, j);
    assert s[i..i + |m|] == m;
    assert m[j..j + |w|] == w;
    assert s[i + j..i + j + |w|] == w by {
      forall k | 0 <= k < |w| ensures s[i + j + k] == w[k] {
        assert s[i + j + k] == m[j + k];
      }
    }
    assert OccursAt(s, w, i + j);
  }
}
