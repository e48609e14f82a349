/**
 `extractSection(md, header)` (website/src/lib/cards.ts): the body of the
 first markdown section `## <header>`, up to the next `##` heading or the end
 of the text, trimmed. The regular expression it builds is
 `^##\s*<header>\s*\r?\n([\s\S]*?)(?=\r?\n##\s|(?![\s\S]))` with the `m`
 flag; this module spells out what that expression matches.
 */
module Cards {
  import opened Wrappers
  import opened Text
  import Storage

  /** Headers for which the interpolated source is a plain literal and the
      leading `\s*` cannot give characters back to it: non-empty, free of
      regular-expression special characters, not starting with whitespace. */
  predicate LiteralHeader(header: string) {
    SolidStart(header) && forall k :: 0 <= k < |header| ==> !Storage.IsRegexSpecial(header[k])
  }

  /** The header's first character is not whitespace, so the `\s*` before it
      stops exactly where it begins. */
  predicate SolidStart(header: string) {
    |header| > 0 && !IsJsSpace(header[0])
  }

  /** `^` in multiline mode: the start of the text or just after a line terminator. */
  predicate LineStart(s: string, i: int) {
    i == 0 || (0 < i <= |s| && IsLineTerminator(s[i - 1]))
  }

  /** The end of the longest whitespace run starting at `from` (greedy `\s*`). */
  function SpaceRunEnd(s: string, from: nat): (e: nat)
    requires from <= |s|
    ensures from <= e <= |s| && All(s[from..e], IsJsSpace)
    ensures e == |s| || !IsJsSpace(s[e])
    decreases |s| - from
  {
    if from < |s| && IsJsSpace(s[from]) then SpaceRunEnd(s, from + 1) else from
  }

  /** The last `\n` in `s[from..stop]`. */
  function LastNewline(s: string, from: nat, stop: nat): (r: Option<nat>)
    requires from <= stop <= |s|
    decreases stop
    ensures r.Some? ==> from <= r.value < stop && s[r.value] == '\n'
    ensures r.Some? ==> forall m :: r.value < m < stop ==> s[m] != '\n'
    ensures r.None? ==> forall m :: from <= m < stop ==> s[m] != '\n'
  {
    if stop == from then None
    else if s[stop - 1] == '\n' then Some(stop - 1)
    else LastNewline(s, from, stop - 1)
  }

  /** The header line `##`, whitespace, `header`, whitespace, newline: `##` at
      `i`, the header at `a`, and the newline just before position `b`. */
  ghost predicate HeaderLine(s: string, header: string, i: int, a: int, b: int) {
    && LineStart(s, i) && 0 <= i && i + 2 <= a && a + |header| < b <= |s|
    && s[i] == '#' && s[i + 1] == '#'
    && All(s[i + 2..a], IsJsSpace)
    && s[a..a + |header|] == header
    && All(s[a + |header|..b - 1], IsJsSpace)
    && s[b - 1] == '\n'
  }

  /** An attempt of the expression at `i`: where the captured body starts,
      just after the last newline of the whitespace that follows the header. */
  function BodyStart(s: string, header: string, i: nat): (r: Option<nat>)
    requires i <= |s|
    ensures r.Some? ==> i + 2 < r.value <= |s|
  {
    if LineStart(s, i) && i + 2 <= |s| && s[i] == '#' && s[i + 1] == '#' then
      var a := SpaceRunEnd(s, i + 2);
      if a + |header| <= |s| && s[a..a + |header|] == header then
        var b := a + |header|;
        match LastNewline(s, b, SpaceRunEnd(s, b))
        case Some(q) => Some(q + 1)
        case None => None
      else None
    else None
  }

  /** An attempt succeeds exactly when a header line starts at `i`, and the
      body then starts after the furthest newline such a line can end with. */
  lemma BodyStartMatches(s: string, header: string, i: nat)
    requires i <= |s| && SolidStart(header)
    ensures var r := BodyStart(s, header, i);
      r.Some? ==> HeaderLine(s, header, i, SpaceRunEnd(s, i + 2), r.value)
    ensures var r := BodyStart(s, header, i);
      r.Some? ==> forall a, b :: HeaderLine(s, header, i, a, b) ==> b <= r.value
    ensures BodyStart(s, header, i).None? ==> forall a, b :: !HeaderLine(s, header, i, a, b)
  {
    if LineStart(s, i) && i + 2 <= |s| && s[i] == '#' && s[i + 1] == '#' {
      var a := SpaceRunEnd(s, i + 2);
      if a + |header| <= |s| && s[a..a + |header|] == header {
        var b := a + |header|;
        match LastNewline(s, b, SpaceRunEnd(s, b))
        case Some(q) =>
          BodyStartFound(s, header, i, a, q);
        case None =>
          BodyStartNoNewline(s, header, i, a);
      } else {
        assert BodyStart(s, header, i).None?;
        HeaderAt(s, header, i, a);
      }
    }
  }

  /** `BodyStartMatches` when the whitespace after the header holds a newline. */
  lemma BodyStartFound(s: string, header: string, i: nat, a: nat, q: nat)
    requires SolidStart(header) && LineStart(s, i) && i + 2 <= |s| && s[i] == '#' && s[i + 1] == '#'
    requires a == SpaceRunEnd(s, i + 2) && a + |header| <= |s| && s[a..a + |header|] == header
    requires LastNewline(s, a + |header|, SpaceRunEnd(s, a + |header|)) == Some(q)
    ensures BodyStart(s, header, i) == Some(q + 1)
    ensures HeaderLine(s, header, i, a, q + 1)
    ensures forall a', b :: HeaderLine(s, header, i, a', b) ==> b <= q + 1
  {
    HeaderLineAt(s, header, i, a, q);
    HeaderLineBounds(s, header, i, a, q);
  }

  /** `BodyStartMatches` when the whitespace after the header holds no newline. */
  lemma BodyStartNoNewline(s: string, header: string, i: nat, a: nat)
    requires SolidStart(header) && LineStart(s, i) && i + 2 <= |s| && s[i] == '#' && s[i + 1] == '#'
    requires a == SpaceRunEnd(s, i + 2) && a + |header| <= |s| && s[a..a + |header|] == header
    requires LastNewline(s, a + |header|, SpaceRunEnd(s, a + |header|)).None?
    ensures BodyStart(s, header, i).None?
    ensures forall a', b :: !HeaderLine(s, header, i, a', b)
  {
    HeaderLineBounds(s, header, i, a, a + |header|);
  }

  /** The pieces `BodyStart` finds make up a header line ending after `q`. */
  lemma HeaderLineAt(s: string, header: string, i: nat, a: nat, q: nat)
    requires LineStart(s, i) && i + 2 <= |s| && s[i] == '#' && s[i + 1] == '#'
    requires a == SpaceRunEnd(s, i + 2) && a + |header| <= |s| && s[a..a + |header|] == header
    requires LastNewline(s, a + |header|, SpaceRunEnd(s, a + |header|)) == Some(q)
    ensures HeaderLine(s, header, i, a, q + 1)
  {
    var b := a + |header|;
    var c := SpaceRunEnd(s, b);
    assert All(s[b..q], IsJsSpace) by {
      forall m | 0 <= m < q - b ensures IsJsSpace(s[b..q][m]) {
        assert s[b..q][m] == s[b..c][m];
      }
    }
  }

  /** Any header line at `i` puts its header where the whitespace run after
      `##` ends. */
  lemma HeaderAt(s: string, header: string, i: nat, a0: nat)
    requires SolidStart(header) && i + 2 <= |s| && a0 == SpaceRunEnd(s, i + 2)
    ensures forall a, b :: HeaderLine(s, header, i, a, b) ==> a == a0
  {
    assert forall m :: i + 2 <= m < a0 ==> IsJsSpace(s[m]) by {
      forall m | i + 2 <= m < a0 ensures IsJsSpace(s[m]) {
        assert s[m] == s[i + 2..a0][m - i - 2];
      }
    }
    forall a, b | HeaderLine(s, header, i, a, b) ensures a == a0 {
      assert forall m :: i + 2 <= m < a ==> s[m] == s[i + 2..a][m - i - 2];
      assert s[a] == header[0];
    }
  }

  /** Every header line at `i` ends with a newline inside the whitespace run
      after the header, so the last newline of that run is the furthest one. */
  lemma HeaderLineBounds(s: string, header: string, i: nat, a0: nat, q0: nat)
    requires SolidStart(header) && i + 2 <= |s| && a0 == SpaceRunEnd(s, i + 2)
    requires a0 + |header| <= q0 <= |s|
    requires LastNewline(s, a0 + |header|, SpaceRunEnd(s, a0 + |header|)) == (if q0 < SpaceRunEnd(s, a0 + |header|) && s[q0] == '\n' then Some(q0) else None)
    ensures forall a, b :: HeaderLine(s, header, i, a, b) ==> b <= q0 + 1 && (q0 < |s| && s[q0] == '\n')
  {
    HeaderAt(s, header, i, a0);
    var b := a0 + |header|;
    var c := SpaceRunEnd(s, b);
    forall a, e | HeaderLine(s, header, i, a, e) ensures e <= q0 + 1 && (q0 < |s| && s[q0] == '\n') {
      assert a == a0;
      assert forall m :: b <= m < e - 1 ==> s[m] == s[b..e - 1][m - b];
      assert e - 1 < c;
    }
  }

  /** The lookahead `\r?\n##\s`: a line break, then `##` and a whitespace character. */
  predicate SectionBoundary(s: string, g: int) {
    || (0 <= g && g + 4 <= |s| && s[g] == '\n' && s[g + 1] == '#' && s[g + 2] == '#' && IsJsSpace(s[g + 3]))
    || (0 <= g && g + 5 <= |s| && s[g] == '\r' && s[g + 1] == '\n' && s[g + 2] == '#' && s[g + 3] == '#' && IsJsSpace(s[g + 4]))
  }

  /** The lazy `([\s\S]*?)` followed by the lookahead: the first position at
      or after `from` where a boundary starts, or the end of the text. */
  function BodyEnd(s: string, from: nat): (g: nat)
    requires from <= |s|
    ensures from <= g <= |s| && (g == |s| || SectionBoundary(s, g))
    ensures forall m :: from <= m < g ==> !SectionBoundary(s, m)
    decreases |s| - from
  {
    if from == |s| || SectionBoundary(s, from) then from else BodyEnd(s, from + 1)
  }

  /** `md.match(regex)`: the leftmost position at or after `i` where the
      expression matches, with the start of the captured body there. */
  function FindHeader(s: string, header: string, i: nat): (r: Option<(nat, nat)>)
    requires i <= |s|
    ensures r.Some? ==> i <= r.value.0 <= |s| && BodyStart(s, header, r.value.0) == Some(r.value.1)
    ensures r.Some? ==> forall m :: i <= m < r.value.0 ==> BodyStart(s, header, m).None?
    ensures r.None? ==> forall m :: i <= m <= |s| ==> BodyStart(s, header, m).None?
  {
    var a := Attempts(s, header);
    var r := FirstSome(a, i);
    assert r.Some? ==> a[r.value.0] == BodyStart(s, header, r.value.0);
    r
  }

  /** The attempts at every position of the text, `0` to `|s|` inclusive. */
  function Attempts(s: string, header: string): (a: seq<Option<nat>>)
    ensures |a| == |s| + 1 && forall m :: 0 <= m <= |s| ==> a[m] == BodyStart(s, header, m)
  {
    seq(|s| + 1, m requires 0 <= m <= |s| => BodyStart(s, header, m))
  }

  /** The leftmost successful attempt at or after `i`, with its value. */
  function FirstSome(a: seq<Option<nat>>, i: nat): (r: Option<(nat, nat)>)
    requires i <= |a|
    ensures r.Some? ==> i <= r.value.0 < |a| && a[r.value.0] == Some(r.value.1)
    ensures r.Some? ==> forall m :: i <= m < r.value.0 ==> a[m].None?
    ensures r.None? ==> forall m :: i <= m < |a| ==> a[m].None?
    decreases |a| - i
  {
    if i == |a| then None
    else match a[i]
      case Some(b) => Some((i, b))
      case None => FirstSome(a, i + 1)
  }

  /** The search stops at the first success. */
  lemma {:induction false} FirstSomeLeftmost(a: seq<Option<nat>>, p: nat, i: nat)
    requires p <= i < |a| && a[i].Some?
    requires forall m :: p <= m < i ==> a[m].None?
    ensures FirstSome(a, p) == Some((i, a[i].value))
    decreases i - p
  {
    if p < i {
      FirstSomeLeftmost(a, p + 1, i);
    }
  }

  /** `extractSection(md, header)`: the trimmed body of the first section
      headed `header`, or `None` (`undefined`) when there is none. */
  function ExtractSection(md: string, header: string): (r: Option<string>)
    requires LiteralHeader(header)
    ensures r.Some? ==> Trimmed(r.value, IsJsSpace)
    ensures r.None? <==> forall i, a, b :: !HeaderLine(md, header, i, a, b)
  {
    match FindHeader(md, header, 0)
    case None =>
      forall i, a, b ensures !HeaderLine(md, header, i, a, b) {
        if 0 <= i <= |md| {
          BodyStartMatches(md, header, i);
        }
      }
      None
    case Some(found) =>
      var b := found.1;
      BodyStartMatches(md, header, found.0);
      Some(Trim(md[b..BodyEnd(md, b)], IsJsSpace))
  }

  /** The search finds the leftmost position where an attempt succeeds. */
  lemma FindLeftmost(s: string, header: string, p: nat, i: nat)
    requires p <= i <= |s|
    requires forall m :: p <= m < i ==> BodyStart(s, header, m).None?
    requires BodyStart(s, header, i).Some?
    ensures FindHeader(s, header, p) == Some((i, BodyStart(s, header, i).value))
  {
    var a := Attempts(s, header);
    assert a[i] == BodyStart(s, header, i);
    FirstSomeLeftmost(a, p, i);
  }

  /** What `extractSection` returns, stated from the text alone: take the
      first line that reads `##`, whitespace, the header, whitespace and a
      newline; the section starts after the last newline of that whitespace
      and stops at the first `\r?\n##` followed by whitespace, or at the end;
      the result is that stretch, trimmed. */
  lemma SectionOfFirstHeader(md: string, header: string, i: nat, a: nat, b: nat)
    requires LiteralHeader(header) && HeaderLine(md, header, i, a, b)
    requires forall i', a', b' :: i' < i ==> !HeaderLine(md, header, i', a', b')
    requires forall b' :: HeaderLine(md, header, i, a, b') ==> b' <= b
    ensures exists g :: && b <= g <= |md|
                        && (g == |md| || SectionBoundary(md, g))
                        && (forall m :: b <= m < g ==> !SectionBoundary(md, m))
                        && ExtractSection(md, header) == Some(Trim(md[b..g], IsJsSpace))
    ensures ExtractSection(md, header) == Some(Trim(md[b..BodyEnd(md, b)], IsJsSpace))
  {
    forall m | 0 <= m < i ensures BodyStart(md, header, m).None? {
      BodyStartMatches(md, header, m);
    }
    BodyStartMatches(md, header, i);
    var b0 := BodyStart(md, header, i).value;
    HeaderAt(md, header, i, SpaceRunEnd(md, i + 2));
    FindLeftmost(md, header, 0, i);
    assert b0 == b;
    var g := BodyEnd(md, b);
    assert ExtractSection(md, header) == Some(Trim(md[b..g], IsJsSpace));
  }

  /** The end of the section is determined: the first boundary, or the end. */
  lemma {:induction false} BodyEndAt(s: string, from: nat, g: nat)
    requires from <= g <= |s| && (g == |s| || SectionBoundary(s, g))
    requires forall m :: from <= m < g ==> !SectionBoundary(s, m)
    ensures BodyEnd(s, from) == g
    decreases g - from
  {
    if from < g {
      BodyEndAt(s, from + 1, g);
    }
  }

  /** The text `## header\nbody\n##rest`, character by character. */
  lemma Layout(md: string, header: string, body: string, rest: string)
    requires md == "## " + header + "\n" + body + "\n##" + rest
    ensures |md| == 7 + |header| + |body| + |rest|
    ensures md[0] == '#' && md[1] == '#' && md[2] == ' ' && md[3 + |header|] == '\n'
    ensures md[3..3 + |header|] == header
    ensures forall m :: 0 <= m < |body| ==> md[4 + |header| + m] == body[m]
    ensures md[4 + |header|..4 + |header| + |body|] == body
    ensures var g := 4 + |header| + |body|; md[g] == '\n' && md[g + 1] == '#' && md[g + 2] == '#'
    ensures forall m :: 0 <= m < |rest| ==> md[7 + |header| + |body| + m] == rest[m]
  {
  }

  /** In that text the header line is the first line and its body starts on the next one. */
  lemma LayoutHeader(md: string, header: string, body: string, rest: string)
    requires LiteralHeader(header) && |body| > 0 && !IsJsSpace(body[0])
    requires md == "## " + header + "\n" + body + "\n##" + rest
    ensures HeaderLine(md, header, 0, 3, 4 + |header|)
    ensures forall b' :: HeaderLine(md, header, 0, 3, b') ==> b' <= 4 + |header|
  {
    Layout(md, header, body, rest);
    var b := 4 + |header|;
    assert md[2..3] == " ";
    assert md[3 + |header|..b - 1] == "";
    assert md[b] == body[0];
    forall b' | b < b' <= |md| ensures !HeaderLine(md, header, 0, 3, b') {
      if b' > b + 1 {
        SpaceRunBlocked(md, 3 + |header|, b' - 1, b);
      }
    }
  }

  /** A run of whitespace cannot stretch over a character that is not whitespace. */
  lemma SpaceRunBlocked(s: string, x: nat, y: nat, k: nat)
    requires x <= k < y <= |s| && !IsJsSpace(s[k])
    ensures !All(s[x..y], IsJsSpace)
  {
    assert s[x..y][k - x] == s[k];
  }

  /** In that text the body ends at the `\n##` that follows it. */
  lemma LayoutEnd(md: string, header: string, body: string, rest: string)
    requires NoneOf(body, IsLineTerminator) && |rest| > 0 && IsJsSpace(rest[0])
    requires md == "## " + header + "\n" + body + "\n##" + rest
    ensures BodyEnd(md, 4 + |header|) == 4 + |header| + |body|
    ensures md[4 + |header|..4 + |header| + |body|] == body
  {
    Layout(md, header, body, rest);
    var b := 4 + |header|;
    var g := b + |body|;
    forall m | b <= m < g ensures !SectionBoundary(md, m) {
      assert md[m] == body[m - b];
    }
    assert md[g + 3] == rest[0];
    assert SectionBoundary(md, g);
    BodyEndAt(md, b, g);
  }

  /** A section whose text starts on the line after its header and holds
      no line break ends where the next `##` heading begins: the result is
      that text, trimmed. */
  lemma SectionBeforeNextHeading(header: string, body: string, rest: string)
    requires LiteralHeader(header)
    requires |body| > 0 && !IsJsSpace(body[0]) && NoneOf(body, IsLineTerminator)
    requires |rest| > 0 && IsJsSpace(rest[0])
    ensures ExtractSection("## " + header + "\n" + body + "\n##" + rest, header) == Some(Trim(body, IsJsSpace))
  {
    SectionOfLayout("## " + header + "\n" + body + "\n##" + rest, header, body, rest);
  }

  /** `SectionBeforeNextHeading`, stated for a named document `md`. */
  lemma SectionOfLayout(md: string, header: string, body: string, rest: string)
    requires LiteralHeader(header)
    requires |body| > 0 && !IsJsSpace(body[0]) && NoneOf(body, IsLineTerminator)
    requires |rest| > 0 && IsJsSpace(rest[0])
    requires md == "## " + header + "\n" + body + "\n##" + rest
    ensures ExtractSection(md, header) == Some(Trim(body, IsJsSpace))
  {
    var b := 4 + |header|;
    LayoutHeader(md, header, body, rest);
    LayoutEnd(md, header, body, rest);
    SectionAtStart(md, header, b, b + |body|, body);
  }

  /** A header line on the first line whose whitespace holds one newline
      gives the section that starts after it. */
  lemma SectionAtStart(md: string, header: string, b: nat, g: nat, body: string)
    requires LiteralHeader(header) && HeaderLine(md, header, 0, 3, b)
    requires forall b' :: HeaderLine(md, header, 0, 3, b') ==> b' <= b
    requires b <= g <= |md| && BodyEnd(md, b) == g && md[b..g] == body
    ensures ExtractSection(md, header) == Some(Trim(body, IsJsSpace))
  {
    SectionOfFirstHeader(md, header, 0, 3, b);
  }

  // An empty section swallows the next heading

  /** The deck converter writes an empty front as `## Front`, a blank line and
      then `## Back`. The greedy `\s*` after the header runs over both line
      breaks, so the body starts at the next `##` and the section comes back
      as the next heading line instead of the empty string. */
  lemma EmptySectionAsWritten(md: string, header: string, rest: string)
    requires LiteralHeader(header) && md == "## " + header + "\n" + "" + "\n\n##" + rest
    requires |rest| > 0 && IsJsSpace(rest[0]) && !IsJsSpace(rest[|rest| - 1]) && NoneOf(rest, IsLineTerminator)
    ensures ExtractSection(md, header) == Some("##" + rest)
  {
    var b := 6 + |header|;
    HeadingTrimmed(rest);
    EmptyLayoutTail(md, header, rest);
    HeadingRunsToEnd(md, b, rest);
    EmptyLayoutHeader(md, header, rest);
    SectionOfFirstHeader(md, header, 0, 3, b);
  }

  /** A heading line that ends in a visible character is its own trim. */
  lemma HeadingTrimmed(rest: string)
    requires |rest| > 0 && !IsJsSpace(rest[|rest| - 1])
    ensures Trim("##" + rest, IsJsSpace) == "##" + rest
  {
    var t := "##" + rest;
    assert t[0] == '#' && t[|t| - 1] == rest[|rest| - 1];
    TrimTrimmed(t, IsJsSpace);
  }

  /** In that text the header line runs over both line breaks and ends just
      before the second `##`. */
  lemma EmptyLayoutHeader(md: string, header: string, rest: string)
    requires SolidStart(header) && |rest| > 0
    requires md == "## " + header + "\n" + "" + "\n\n##" + rest
    ensures HeaderLine(md, header, 0, 3, 6 + |header|)
    ensures forall b' :: HeaderLine(md, header, 0, 3, b') ==> b' <= 6 + |header|
  {
    BlankLineLayout(md, header, "", rest);
    var h := |header|;
    var b := 6 + h;
    assert md[2..3] == " " && md[3 + h..5 + h] == "\n\n";
    forall b' | b < b' <= |md| ensures !HeaderLine(md, header, 0, 3, b') {
      if b' > b + 1 {
        SpaceRunBlocked(md, 3 + h, b' - 1, b);
      }
    }
  }

  /** Nothing after a `##` whose line runs to the end of the text opens
      another section. */
  lemma HeadingRunsToEnd(md: string, b: nat, rest: string)
    requires b <= |md| && md[b..|md|] == "##" + rest && NoneOf(rest, IsLineTerminator)
    ensures BodyEnd(md, b) == |md|
  {
    var t := "##" + rest;
    forall m | b <= m < |md| ensures !SectionBoundary(md, m) {
      assert md[m] == t[m - b];
      if m >= b + 2 {
        var k := m - b - 2;
        assert t[m - b] == rest[k] && !IsLineTerminator(rest[k]);
      }
    }
    BodyEndAt(md, b, |md|);
  }

  /** In that text everything from the second `##` on is the next heading. */
  lemma EmptyLayoutTail(md: string, header: string, rest: string)
    requires md == "## " + header + "\n" + "" + "\n\n##" + rest
    ensures 6 + |header| <= |md| && md[6 + |header|..|md|] == "##" + rest
  {
    var x := "## " + header + "\n\n\n";
    assert md == x + ("##" + rest);
  }

  /** Whitespace that does not end the line: JavaScript `[^\S\r\n]`. */
  predicate IsBlank(c: char) {
    IsJsSpace(c) && c != '\n' && c != '\r'
  }

  /** The end of the run of blanks starting at `from`. */
  function BlankRunEnd(s: string, from: nat): (e: nat)
    requires from <= |s|
    ensures from <= e <= |s| && All(s[from..e], IsBlank)
    ensures e == |s| || !IsBlank(s[e])
    decreases |s| - from
  {
    if from < |s| && IsBlank(s[from]) then BlankRunEnd(s, from + 1) else from
  }

  /** The attempt at `i` with the header line ending at its own line break,
      `^##\s*<header>[^\S\r\n]*\r?\n`: the body starts on the next line. */
  function FixedBodyStart(s: string, header: string, i: nat): (r: Option<nat>)
    requires i <= |s|
    ensures r.Some? ==> i + 2 < r.value <= |s| && s[r.value - 1] == '\n'
  {
    if LineStart(s, i) && i + 2 <= |s| && s[i] == '#' && s[i + 1] == '#' then
      var a := SpaceRunEnd(s, i + 2);
      if a + |header| <= |s| && s[a..a + |header|] == header then
        var c := BlankRunEnd(s, a + |header|);
        if c < |s| && s[c] == '\n' then Some(c + 1)
        else if c + 1 < |s| && s[c] == '\r' && s[c + 1] == '\n' then Some(c + 2)
        else None
      else None
    else None
  }

  /** The fixed attempts at every position of the text. */
  function FixedAttempts(s: string, header: string): (a: seq<Option<nat>>)
    ensures |a| == |s| + 1 && forall m :: 0 <= m <= |s| ==> a[m] == FixedBodyStart(s, header, m)
  {
    seq(|s| + 1, m requires 0 <= m <= |s| => FixedBodyStart(s, header, m))
  }

  /** `extractSection` with the header line ending at its own line break. */
  function ExtractSectionFixed(md: string, header: string): (r: Option<string>)
    ensures r.Some? ==> Trimmed(r.value, IsJsSpace)
  {
    var a := FixedAttempts(md, header);
    match FirstSome(a, 0)
    case None => None
    case Some(found) =>
      var b := found.1;
      assert a[found.0] == FixedBodyStart(md, header, found.0);
      Some(Trim(md[b..BodyEnd(md, b)], IsJsSpace))
  }

  /** The text `## header\nbody\n\n##rest`, the converter's layout, character
      by character. */
  lemma BlankLineLayout(md: string, header: string, body: string, rest: string)
    requires md == "## " + header + "\n" + body + "\n\n##" + rest && |rest| > 0
    ensures |md| == 8 + |header| + |body| + |rest|
    ensures forall m :: 0 <= m < |rest| ==> md[8 + |header| + |body| + m] == rest[m]
    ensures md[0] == '#' && md[1] == '#' && md[2] == ' ' && md[3 + |header|] == '\n'
    ensures md[3..3 + |header|] == header
    ensures forall m :: 0 <= m < |body| ==> md[4 + |header| + m] == body[m]
    ensures md[4 + |header|..5 + |header| + |body|] == body + "\n"
    ensures var g := 4 + |header| + |body|;
      md[g] == '\n' && md[g + 1] == '\n' && md[g + 2] == '#' && md[g + 3] == '#' && md[g + 4] == rest[0]
  {
  }

  /** With the fix, the section of a one-line body in the converter's layout
      is that body, trimmed; an empty body gives the empty string, where the
      code as written returns the next heading (`EmptySectionAsWritten`). */
  lemma FixedSectionOfLayout(header: string, body: string, rest: string)
    requires SolidStart(header) && NoneOf(body, IsLineTerminator)
    requires |rest| > 0 && IsJsSpace(rest[0])
    ensures ExtractSectionFixed("## " + header + "\n" + body + "\n\n##" + rest, header) == Some(Trim(body, IsJsSpace))
  {
    var md := "## " + header + "\n" + body + "\n\n##" + rest;
    var b := 4 + |header|;
    FixedStartOfLayout(md, header, body, rest);
    FixedEndOfLayout(md, header, body, rest);
    var a := FixedAttempts(md, header);
    assert a[0] == Some(b);
    assert FirstSome(a, 0) == Some((0, b));
    assert ExtractSectionFixed(md, header) == Some(Trim(md[b..BodyEnd(md, b)], IsJsSpace));
    assert md[b..BodyEnd(md, b)] == body + "\n";
    TrimSpaceSuffix(body, '\n', IsJsSpace);
  }

  /** In the converter's layout the fixed attempt at the start succeeds and the
      body begins on the line after the header. */
  lemma FixedStartOfLayout(md: string, header: string, body: string, rest: string)
    requires SolidStart(header) && |rest| > 0
    requires md == "## " + header + "\n" + body + "\n\n##" + rest
    ensures FixedBodyStart(md, header, 0) == Some(4 + |header|)
  {
    BlankLineLayout(md, header, body, rest);
    assert SpaceRunEnd(md, 2) == SpaceRunEnd(md, 3) == 3;
    assert BlankRunEnd(md, 3 + |header|) == 3 + |header|;
  }

  /** In the converter's layout a one-line body ends at the blank line's
      `\n##`, taking the body's own line break with it. */
  lemma FixedEndOfLayout(md: string, header: string, body: string, rest: string)
    requires NoneOf(body, IsLineTerminator) && |rest| > 0 && IsJsSpace(rest[0])
    requires md == "## " + header + "\n" + body + "\n\n##" + rest
    ensures var b := 4 + |header|;
      BodyEnd(md, b) == b + |body| + 1 && md[b..b + |body| + 1] == body + "\n"
  {
    BlankLineLayout(md, header, body, rest);
    var b := 4 + |header|;
    var g := b + |body|;
    forall m | b <= m < g + 1 ensures !SectionBoundary(md, m) {
      if m < g {
        assert md[m] == body[m - b];
      }
    }
    assert SectionBoundary(md, g + 1);
    BodyEndAt(md, b, g + 1);
  }
}
