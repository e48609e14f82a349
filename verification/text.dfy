/**
 Character classes shared by the string helpers, and trimming.
 JavaScript and Python disagree on what counts as whitespace, so each
 language gets its own class.
 */
module Text {

  /** The characters JavaScript regular expressions treat as line terminators:
      `.` does not match them and, in multiline mode, `^` matches after them. */
  predicate IsLineTerminator(c: char) {
    c == '\n' || c == '\r' || c == '\U{2028}' || c == '\U{2029}'
  }

  /** JavaScript `\s`, which is also the set `String.prototype.trim` removes. */
  predicate IsJsSpace(c: char) {
    || IsLineTerminator(c)
    || c == '\t' || c == '\U{000B}' || c == '\U{000C}' || c == ' '
    || c == '\U{00A0}' || c == '\U{1680}' || ('\U{2000}' <= c <= '\U{200A}')
    || c == '\U{202F}' || c == '\U{205F}' || c == '\U{3000}' || c == '\U{FEFF}'
  }

  /** Python `\s` on `str` patterns, which is also the set `str.strip()` removes
      (the characters for which `str.isspace()` holds). */
  predicate IsPySpace(c: char) {
    || ('\t' <= c <= '\r')
    || ('\U{001C}' <= c <= '\U{001F}') || c == ' '
    || c == '\U{0085}' || c == '\U{00A0}' || c == '\U{1680}' || ('\U{2000}' <= c <= '\U{200A}')
    || c == '\U{2028}' || c == '\U{2029}' || c == '\U{202F}' || c == '\U{205F}' || c == '\U{3000}'
  }

  /** Every character of `s` is in the class `p`. */
  ghost predicate All(s: string, p: char -> bool) {
    forall k :: 0 <= k < |s| ==> p(s[k])
  }

  /** No character of `s` is in the class `p`. */
  ghost predicate NoneOf(s: string, p: char -> bool) {
    forall k :: 0 <= k < |s| ==> !p(s[k])
  }

  /** `s` neither starts nor ends with a character of the class `ws`. */
  ghost predicate Trimmed(s: string, ws: char -> bool) {
    |s| > 0 ==> !ws(s[0]) && !ws(s[|s| - 1])
  }

  /** Drops the leading characters of class `ws`. */
  function TrimStart(s: string, ws: char -> bool): (r: string)
    ensures |r| <= |s| && r == s[|s| - |r|..]
    ensures All(s[..|s| - |r|], ws)
    ensures |r| > 0 ==> !ws(r[0])
  {
    if |s| > 0 && ws(s[0]) then TrimStart(s[1..], ws) else s
  }

  /** Drops the trailing characters of class `ws`. */
  function TrimEnd(s: string, ws: char -> bool): (r: string)
    ensures |r| <= |s| && r == s[..|r|]
    ensures All(s[|r|..], ws)
    ensures |r| > 0 ==> !ws(r[|r| - 1])
  {
    if |s| > 0 && ws(s[|s| - 1]) then TrimEnd(s[..|s| - 1], ws) else s
  }

  /** Drops the leading and the trailing characters of class `ws`; `TrimOffset`
      shows the result is the infix of `s` left once those runs are cut off. */
  function Trim(s: string, ws: char -> bool): (r: string)
    ensures |r| <= |s| && Trimmed(r, ws)
  {
    var a := TrimStart(s, ws);
    var r := TrimEnd(a, ws);
    assert |r| > 0 ==> r[0] == a[0];
    r
  }

  /** Cutting `a`, the suffix of `s` from `i`, down to its prefix `r` leaves
      the infix of `s` from `i`. */
  lemma TrimParts(s: string, a: string, r: string, i: nat, ws: char -> bool)
    requires i <= |s| && a == s[i..] && (|a| > 0 ==> !ws(a[0]))
    requires |r| <= |a| && r == a[..|r|] && All(a[|r|..], ws) && (|r| > 0 ==> !ws(r[|r| - 1]))
    ensures i + |r| <= |s| && r == s[i..i + |r|] && All(s[i + |r|..], ws) && Trimmed(r, ws)
  {
    assert a[|r|..] == s[i + |r|..];
  }

  /** A string with no character of class `ws` is its own trim. */
  lemma TrimNoSpace(s: string, ws: char -> bool)
    requires NoneOf(s, ws)
    ensures Trim(s, ws) == s
  {
    var r := Trim(s, ws);
    var i := TrimOffset(s, ws);
  }

  /** A string that neither starts nor ends with a character of class `ws` is
      its own trim. */
  lemma TrimTrimmed(s: string, ws: char -> bool)
    requires Trimmed(s, ws)
    ensures Trim(s, ws) == s
  {
    var r := Trim(s, ws);
    var i := TrimOffset(s, ws);
  }

  /** Trimming cannot bring in a character of a class the string avoids. */
  lemma TrimNoneOf(s: string, ws: char -> bool, p: char -> bool)
    requires NoneOf(s, p)
    ensures NoneOf(Trim(s, ws), p)
  {
    var r := Trim(s, ws);
    var i := TrimOffset(s, ws);
    assert forall k :: 0 <= k < |r| ==> r[k] == s[i + k];
  }

  /** Trimming the leading run of `x + y`: if `x` is not all of class `ws`,
      the cut stays inside `x`; otherwise all of `x` goes and the cut moves on
      into `y`. */
  lemma {:induction false} TrimStartConcat(x: string, y: string, ws: char -> bool)
    ensures TrimStart(x + y, ws) == if |TrimStart(x, ws)| > 0 then TrimStart(x, ws) + y else TrimStart(y, ws)
  {
    if |x| == 0 {
      assert x + y == y;
    } else {
      assert (x + y)[0] == x[0] && (x + y)[1..] == x[1..] + y;
      if ws(x[0]) {
        TrimStartConcat(x[1..], y, ws);
      }
    }
  }

  /** A trailing character of class `ws` does not change the trim. */
  lemma TrimSpaceSuffix(x: string, c: char, ws: char -> bool)
    requires ws(c)
    ensures Trim(x + [c], ws) == Trim(x, ws)
  {
    TrimStartConcat(x, [c], ws);
    var a := TrimStart(x, ws);
    if |a| > 0 {
      assert (a + [c])[..|a + [c]| - 1] == a;
    }
  }

  /** Where the trimmed result sits in `s`: it starts at `d`, and everything
      cut off at either end is of class `ws`. */
  lemma TrimOffset(s: string, ws: char -> bool) returns (d: nat)
    ensures d + |Trim(s, ws)| <= |s| && Trim(s, ws) == s[d..d + |Trim(s, ws)|]
    ensures All(s[..d], ws) && All(s[d + |Trim(s, ws)|..], ws)
  {
    var a := TrimStart(s, ws);
    d := |s| - |a|;
    TrimParts(s, a, Trim(s, ws), d, ws);
  }
}
