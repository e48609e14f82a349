/**
 The markdown helpers of the image store (website/src/lib/storage.ts):
 escaping a path for use inside a regular expression, swapping local image
 paths for uploaded URLs, and collecting the targets of `![alt](target)`
 image links.
 */
module Storage {
  import opened Wrappers
  import opened Text

  // escapeRegex

  /** The characters of the class `[.*+?^${}()|[\]\\]`. */
  predicate IsRegexSpecial(c: char) {
    c in ".*+?^${}()|[]\\"
  }

  /** How many special characters `s` holds. */
  function CountSpecial(s: string): nat {
    if |s| == 0 then 0 else (if IsRegexSpecial(s[0]) then 1 else 0) + CountSpecial(s[1..])
  }

  /** `escapeRegex(str)`: a backslash before every special character, every
      other character kept as it is. */
  function EscapeRegex(s: string): (r: string)
    ensures |r| == |s| + CountSpecial(s)
  {
    if |s| == 0 then ""
    else (if IsRegexSpecial(s[0]) then ['\\', s[0]] else [s[0]]) + EscapeRegex(s[1..])
  }

  /** The one string a regular expression made only of plain characters and
      escaped special characters matches; `None` for a source that uses any
      other regular-expression feature (a bare special character, an escape of
      an ordinary character such as `\d`, or a dangling backslash). */
  function LiteralOf(pattern: string): (r: Option<string>)
    ensures r.Some? ==> |r.value| <= |pattern|
  {
    if |pattern| == 0 then Some("")
    else if pattern[0] == '\\' then
      if |pattern| >= 2 && IsRegexSpecial(pattern[1]) then
        match LiteralOf(pattern[2..])
        case Some(rest) => Some([pattern[1]] + rest)
        case None => None
      else None
    else if IsRegexSpecial(pattern[0]) then None
    else
      match LiteralOf(pattern[1..])
      case Some(rest) => Some([pattern[0]] + rest)
      case None => None
  }

  /** Escaping a string yields a pattern that matches exactly that string. */
  lemma {:induction false} EscapeIsLiteral(s: string)
    ensures LiteralOf(EscapeRegex(s)) == Some(s)
  {
    if |s| > 0 {
      EscapeIsLiteral(s[1..]);
      var head: string := if IsRegexSpecial(s[0]) then ['\\', s[0]] else [s[0]];
      var e := head + EscapeRegex(s[1..]);
      assert EscapeRegex(s) == e;
      if IsRegexSpecial(s[0]) {
        assert e[2..] == EscapeRegex(s[1..]);
      } else {
        assert e[1..] == EscapeRegex(s[1..]);
      }
      assert s == [s[0]] + s[1..];
    }
  }

  /** Length of the first token of a literal pattern: 2 for an escape, 1 otherwise. */
  function TokenLength(pattern: string): nat
    requires |pattern| > 0
  {
    if pattern[0] == '\\' then 2 else 1
  }

  /** A non-empty literal pattern is its first token followed by a literal pattern;
      the same holds when anything is appended. */
  lemma LiteralUnfold(a: string, b: string)
    requires |a| > 0 && LiteralOf(a).Some?
    ensures TokenLength(a) <= |a| && LiteralOf(a[TokenLength(a)..]).Some?
    ensures LiteralOf(a) == Some([a[TokenLength(a) - 1]] + LiteralOf(a[TokenLength(a)..]).value)
    ensures (a + b)[TokenLength(a)..] == a[TokenLength(a)..] + b
    ensures LiteralOf(a + b) == match LiteralOf(a[TokenLength(a)..] + b)
      case Some(rest) => Some([a[TokenLength(a) - 1]] + rest)
      case None => None
  {
    var k := TokenLength(a);
    assert (a + b)[0] == a[0];
    if k == 2 {
      assert (a + b)[1] == a[1];
    }
    assert (a + b)[k..] == a[k..] + b;
  }

  /** Literal patterns concatenate: the literal of `a + b` is the literal of
      `a` followed by the literal of `b`. */
  lemma {:induction false} LiteralConcat(a: string, b: string)
    requires LiteralOf(a).Some? && LiteralOf(b).Some?
    ensures LiteralOf(a + b) == Some(LiteralOf(a).value + LiteralOf(b).value)
    decreases |a|
  {
    if |a| == 0 {
      assert a + b == b;
      assert LiteralOf(a).value + LiteralOf(b).value == LiteralOf(b).value;
    } else {
      LiteralUnfold(a, b);
      var k := TokenLength(a);
      LiteralConcat(a[k..], b);
      assert [a[k - 1]] + (LiteralOf(a[k..]).value + LiteralOf(b).value) == ([a[k - 1]] + LiteralOf(a[k..]).value) + LiteralOf(b).value;
    }
  }

  /** An escaped special character matches that character. */
  lemma LiteralEscaped(c: char)
    requires IsRegexSpecial(c)
    ensures LiteralOf(['\\', c]) == Some([c])
  {
    assert ['\\', c][2..] == "";
    assert LiteralOf(['\\', c][2..]) == Some("");
    assert [c] + "" == [c];
  }

  /** The source of the regular expression built for one local path:
      an escaped `(`, the escaped path, an escaped `)`. */
  function ImagePattern(localPath: string): string {
    "\\(" + EscapeRegex(localPath) + "\\)"
  }

  /** That regular expression matches exactly `(` + path + `)`. */
  lemma ImagePatternLiteral(localPath: string)
    ensures LiteralOf(ImagePattern(localPath)) == Some("(" + localPath + ")")
  {
    EscapeIsLiteral(localPath);
    LiteralEscaped('(');
    LiteralEscaped(')');
    LiteralConcat("\\(", EscapeRegex(localPath));
    LiteralConcat("\\(" + EscapeRegex(localPath), "\\)");
  }

  // Global replacement of a literal

  /** `pat` occurs in `s` at position `k`. */
  ghost predicate OccursAt(s: string, pat: string, k: int) {
    0 <= k && k + |pat| <= |s| && s[k..k + |pat|] == pat
  }

  /** `pat` occurs somewhere in `s`. */
  ghost predicate Occurs(s: string, pat: string) {
    exists k :: OccursAt(s, pat, k)
  }

  /** `s.replace(/pat/g, rep)` for a pattern that matches the literal `pat`
      and a replacement with no `$` sequences: scanning left to right, each
      occurrence is replaced and the scan resumes after it, so occurrences
      never overlap. */
  function ReplaceAll(s: string, pat: string, rep: string): (r: string)
    requires |pat| > 0
    decreases |s|
  {
    if |s| < |pat| then s
    else if s[..|pat|] == pat then rep + ReplaceAll(s[|pat|..], pat, rep)
    else [s[0]] + ReplaceAll(s[1..], pat, rep)
  }

  /** The stretches of `s` between the occurrences `ReplaceAll` replaces. */
  function Split(s: string, pat: string): (pieces: seq<string>)
    requires |pat| > 0
    ensures |pieces| > 0
    ensures pieces[0] <= s
    decreases |s|
  {
    if |s| < |pat| then [s]
    else if s[..|pat|] == pat then [""] + Split(s[|pat|..], pat)
    else
      var rest := Split(s[1..], pat);
      [[s[0]] + rest[0]] + rest[1..]
  }

  /** The pieces joined with `sep` between consecutive ones. */
  function Join(pieces: seq<string>, sep: string): string
    requires |pieces| > 0
  {
    if |pieces| == 1 then pieces[0] else pieces[0] + sep + Join(pieces[1..], sep)
  }

  /** Gluing the pieces back with the pattern gives the input back. */
  lemma {:induction false} JoinSplit(s: string, pat: string)
    requires |pat| > 0
    ensures Join(Split(s, pat), pat) == s
    decreases |s|
  {
    if |s| < |pat| {
    } else if s[..|pat|] == pat {
      JoinSplit(s[|pat|..], pat);
      var rest := Split(s[|pat|..], pat);
      assert Split(s, pat) == [""] + rest;
      assert ([""] + rest)[1..] == rest;
      assert s == s[..|pat|] + s[|pat|..];
    } else {
      JoinSplit(s[1..], pat);
      JoinHead(s[0], Split(s[1..], pat), pat);
      assert s == [s[0]] + s[1..];
    }
  }

  /** Growing the first piece by one character grows the joined string the same way. */
  lemma JoinHead(c: char, pieces: seq<string>, sep: string)
    requires |pieces| > 0
    ensures Join([[c] + pieces[0]] + pieces[1..], sep) == [c] + Join(pieces, sep)
  {
    var q := [[c] + pieces[0]] + pieces[1..];
    if |pieces| > 1 {
      assert q[1..] == pieces[1..];
    }
  }

  /** An empty first piece contributes only the separator after it. */
  lemma JoinEmptyHead(pieces: seq<string>, sep: string)
    requires |pieces| > 0
    ensures Join([""] + pieces, sep) == sep + Join(pieces, sep)
  {
    assert ([""] + pieces)[1..] == pieces;
  }

  /** Replacing is joining the same pieces with the replacement instead. */
  lemma {:induction false} ReplaceIsJoin(s: string, pat: string, rep: string)
    requires |pat| > 0
    ensures ReplaceAll(s, pat, rep) == Join(Split(s, pat), rep)
    decreases |s|
  {
    if |s| < |pat| {
    } else if s[..|pat|] == pat {
      ReplaceIsJoin(s[|pat|..], pat, rep);
      var rest := Split(s[|pat|..], pat);
      assert Split(s, pat) == [""] + rest;
      JoinEmptyHead(rest, rep);
      assert ReplaceAll(s, pat, rep) == rep + ReplaceAll(s[|pat|..], pat, rep);
    } else {
      ReplaceIsJoin(s[1..], pat, rep);
      var rest := Split(s[1..], pat);
      assert Split(s, pat) == [[s[0]] + rest[0]] + rest[1..];
      JoinHead(s[0], rest, rep);
      assert ReplaceAll(s, pat, rep) == [s[0]] + ReplaceAll(s[1..], pat, rep);
    }
  }

  /** No piece contains the pattern: every occurrence that survives
      replacement straddles a replaced one. */
  lemma {:induction false} SplitPiecesFree(s: string, pat: string)
    requires |pat| > 0
    ensures forall i :: 0 <= i < |Split(s, pat)| ==> !Occurs(Split(s, pat)[i], pat)
    decreases |s|
  {
    var pieces := Split(s, pat);
    if |s| < |pat| {
    } else if s[..|pat|] == pat {
      SplitPiecesFree(s[|pat|..], pat);
      var rest := Split(s[|pat|..], pat);
      assert pieces == [""] + rest;
      forall i | 0 <= i < |pieces| ensures !Occurs(pieces[i], pat) {
        if i > 0 { assert pieces[i] == rest[i - 1]; }
      }
    } else {
      SplitPiecesFree(s[1..], pat);
      var rest := Split(s[1..], pat);
      var first := [s[0]] + rest[0];
      assert pieces == [first] + rest[1..];
      OccursShift(first, pat);
      assert first[1..] == rest[0];
      assert !OccursAt(first, pat, 0) by {
        if |first| >= |pat| {
          assert first[..|pat|] == s[..|pat|];
        }
      }
      forall k | 0 < k ensures !OccursAt(first, pat, k) {
        assert !OccursAt(first[1..], pat, k - 1);
      }
      forall i | 0 <= i < |pieces| ensures !Occurs(pieces[i], pat) {
        if i > 0 { assert pieces[i] == rest[i]; }
      }
    }
  }

  /** Where the pattern does not occur, replacing changes nothing. */
  lemma ReplaceAbsent(s: string, pat: string, rep: string)
    requires |pat| > 0 && !Occurs(s, pat)
    ensures ReplaceAll(s, pat, rep) == s
  {
    NoOccurrenceOnePiece(s, pat);
    ReplaceIsJoin(s, pat, rep);
  }

  /** An occurrence in the tail is an occurrence one place later in the whole,
      and the other way round. */
  lemma OccursShift(s: string, pat: string)
    requires |s| > 0
    ensures forall k :: 0 <= k ==> (OccursAt(s[1..], pat, k) <==> OccursAt(s, pat, k + 1))
  {
    forall k | 0 <= k ensures OccursAt(s[1..], pat, k) <==> OccursAt(s, pat, k + 1) {
      if k + |pat| <= |s| - 1 {
        assert s[1..][k..k + |pat|] == s[k + 1..k + 1 + |pat|];
      }
    }
  }

  /** A string without the pattern is a single piece. */
  lemma {:induction false} NoOccurrenceOnePiece(s: string, pat: string)
    requires |pat| > 0 && !Occurs(s, pat)
    ensures Split(s, pat) == [s]
    decreases |s|
  {
    if |s| >= |pat| {
      assert !OccursAt(s, pat, 0);
      OccursShift(s, pat);
      NoOccurrenceOnePiece(s[1..], pat);
      assert s == [s[0]] + s[1..];
    }
  }

  // replaceImagePaths

  /** `result.replace(new RegExp(pattern, 'g'), rep)` for a pattern whose
      source is a literal. */
  function RegexReplaceLiteral(s: string, pattern: string, rep: string): string
    requires LiteralOf(pattern).Some? && |LiteralOf(pattern).value| > 0
  {
    ReplaceAll(s, LiteralOf(pattern).value, rep)
  }

  /** One iteration of the loop in `replaceImagePaths`. The escaped pattern
      matches the link `(path)` literally, so the iteration replaces every
      non-overlapping occurrence of it. */
  function ReplaceOne(markdown: string, entry: (string, string)): (r: string)
    ensures r == ReplaceAll(markdown, "(" + entry.0 + ")", "(" + entry.1 + ")")
  {
    ImagePatternLiteral(entry.0);
    RegexReplaceLiteral(markdown, ImagePattern(entry.0), "(" + entry.1 + ")")
  }

  /** `replaceImagePaths(markdown, imageMap)`, with the map given as its
      entries in iteration order: each entry rewrites the result of the ones
      before it. */
  function ReplaceImagePaths(markdown: string, entries: seq<(string, string)>): (r: string)
    ensures NoLinkOccurs(markdown, entries) ==> r == markdown
  {
    if |entries| == 0 then markdown
    else
      var n := |entries| - 1;
      var prev := ReplaceImagePaths(markdown, entries[..n]);
      NoLinkPrefix(markdown, entries);
      ReplaceOneKeeps(markdown, prev, entries[n]);
      ReplaceOne(prev, entries[n])
  }

  /** No entry's link `(`path`)` occurs in the markdown. */
  ghost predicate NoLinkOccurs(markdown: string, entries: seq<(string, string)>) {
    forall i :: 0 <= i < |entries| ==> !Occurs(markdown, "(" + entries[i].0 + ")")
  }

  lemma NoLinkPrefix(markdown: string, entries: seq<(string, string)>)
    requires |entries| > 0
    ensures NoLinkOccurs(markdown, entries) ==>
      && NoLinkOccurs(markdown, entries[..|entries| - 1])
      && !Occurs(markdown, "(" + entries[|entries| - 1].0 + ")")
  {
    var n := |entries| - 1;
    assert forall i :: 0 <= i < n ==> entries[..n][i] == entries[i];
  }

  /** An iteration whose link does not occur in the unchanged markdown
      leaves it unchanged. */
  lemma ReplaceOneKeeps(markdown: string, prev: string, entry: (string, string))
    ensures prev == markdown && !Occurs(markdown, "(" + entry.0 + ")") ==> ReplaceOne(prev, entry) == markdown
  {
    if prev == markdown && !Occurs(markdown, "(" + entry.0 + ")") {
      ReplaceAbsent(markdown, "(" + entry.0 + ")", "(" + entry.1 + ")");
    }
  }

  /** An empty map returns the markdown unchanged. */
  lemma ReplaceNoEntries(markdown: string)
    ensures ReplaceImagePaths(markdown, []) == markdown
  {
  }

  /** With one entry, every non-overlapping `(`path`)` becomes `(`url`)` and the
      text between those occurrences is kept: the result is the same pieces
      joined with the new link target. */
  lemma ReplaceSingleEntry(markdown: string, localPath: string, url: string)
    ensures var pieces := Split(markdown, "(" + localPath + ")");
      && Join(pieces, "(" + localPath + ")") == markdown
      && ReplaceImagePaths(markdown, [(localPath, url)]) == Join(pieces, "(" + url + ")")
  {
    var pat := "(" + localPath + ")";
    JoinSplit(markdown, pat);
    ReplaceIsJoin(markdown, pat, "(" + url + ")");
    assert [(localPath, url)][..0] == [];
  }

  /** Entries apply one after another: the later ones see the earlier ones' output. */
  lemma {:induction false} ReplaceSequential(markdown: string, a: seq<(string, string)>, b: seq<(string, string)>)
    ensures ReplaceImagePaths(markdown, a + b) == ReplaceImagePaths(ReplaceImagePaths(markdown, a), b)
  {
    if |b| == 0 {
      assert a + b == a;
    } else {
      var n := |b| - 1;
      var ab := a + b;
      var mid := ReplaceImagePaths(markdown, a);
      assert ReplaceImagePaths(markdown, a + b[..n]) == ReplaceImagePaths(mid, b[..n]) by {
        ReplaceSequential(markdown, a, b[..n]);
      }
      assert ReplaceImagePaths(markdown, ab) == ReplaceOne(ReplaceImagePaths(markdown, a + b[..n]), b[n]) by {
        assert ab[..|ab| - 1] == a + b[..n];
        assert ab[|ab| - 1] == b[n];
        ReplaceLast(markdown, ab);
      }
      ReplaceLast(mid, b);
    }
  }

  lemma ReplaceLast(markdown: string, entries: seq<(string, string)>)
    requires |entries| > 0
    ensures ReplaceImagePaths(markdown, entries)
         == ReplaceOne(ReplaceImagePaths(markdown, entries[..|entries| - 1]), entries[|entries| - 1])
  {
  }

  /** A path whose link does not occur leaves the markdown unchanged. */
  lemma ReplaceMissingPath(markdown: string, localPath: string, url: string)
    requires !Occurs(markdown, "(" + localPath + ")")
    ensures ReplaceImagePaths(markdown, [(localPath, url)]) == markdown
  {
    assert [(localPath, url)][..0] == [];
    ReplaceAbsent(markdown, "(" + localPath + ")", "(" + url + ")");
  }

  // extractImageReferences: the pattern /!\[.*?\]\((.*?)\)/g

  /** The characters `.` matches in a JavaScript regular expression without the `s` flag. */
  predicate IsDot(c: char) { !IsLineTerminator(c) }

  /** A character that ends a link target: `)` or a line terminator. */
  predicate EndsTarget(c: char) { c == ')' || IsLineTerminator(c) }

  /** `s[i..j]` contains no line terminator. */
  ghost predicate DotsOnly(s: string, i: int, j: int)
    requires 0 <= i <= j <= |s|
  {
    forall m :: i <= m < j ==> IsDot(s[m])
  }

  /** `](` starts at position `m` of `s`. */
  predicate LinkMiddleAt(s: string, m: int) {
    0 <= m && m + 2 <= |s| && s[m] == ']' && s[m + 1] == '('
  }

  /** The lazy `.*?\]\(` from `from`: the first `](` reachable without
      crossing a line terminator. */
  function FindLinkMiddle(s: string, from: nat): (r: Option<nat>)
    requires from <= |s|
    ensures r.Some? ==> from <= r.value && LinkMiddleAt(s, r.value) && DotsOnly(s, from, r.value)
    ensures r.Some? ==> forall m :: from <= m < r.value ==> !LinkMiddleAt(s, m)
    ensures r.None? ==> forall j :: from <= j && LinkMiddleAt(s, j) ==> !DotsOnly(s, from, j)
    decreases |s| - from
  {
    if from + 2 > |s| then None
    else if LinkMiddleAt(s, from) then Some(from)
    else if IsLineTerminator(s[from]) then None
    else FindLinkMiddle(s, from + 1)
  }

  /** The lazy `(.*?)\)` from `from`: the first `)` reachable without
      crossing a line terminator. */
  function FindClose(s: string, from: nat): (r: Option<nat>)
    requires from <= |s|
    ensures r.Some? ==> from <= r.value < |s| && s[r.value] == ')' && DotsOnly(s, from, r.value)
    ensures r.Some? ==> forall m :: from <= m < r.value ==> s[m] != ')'
    ensures r.None? ==> forall k :: from <= k < |s| && s[k] == ')' ==> !DotsOnly(s, from, k)
    decreases |s| - from
  {
    if from == |s| then None
    else if s[from] == ')' then Some(from)
    else if IsLineTerminator(s[from]) then None
    else FindClose(s, from + 1)
  }

  /** The regular expression matches at `i` with `](` at `j` and the closing
      `)` at `k`: `![`, then the shortest stretch of non-terminators up to a
      `](`, then the shortest one up to a `)`. */
  ghost predicate IsImageLink(s: string, i: int, j: int, k: int) {
    && 0 <= i && i + 2 <= j && j + 2 <= k < |s|
    && s[i] == '!' && s[i + 1] == '['
    && LinkMiddleAt(s, j) && s[k] == ')'
    && DotsOnly(s, i + 2, j) && (forall m :: i + 2 <= m < j ==> !LinkMiddleAt(s, m))
    && DotsOnly(s, j + 2, k) && (forall m :: j + 2 <= m < k ==> s[m] != ')')
  }

  /** An attempt of the regular expression at position `i`: the captured
      target and the position just after the match, or `None`. */
  function MatchAt(s: string, i: nat): (r: Option<(string, nat)>)
    requires i <= |s|
    ensures r.Some? ==> i < r.value.1 <= |s| && NoneOf(r.value.0, EndsTarget)
  {
    if i + 2 <= |s| && s[i] == '!' && s[i + 1] == '[' then
      match FindLinkMiddle(s, i + 2)
      case None => None
      case Some(j) =>
        match FindClose(s, j + 2)
        case None => None
        case Some(k) => Some((s[j + 2..k], k + 1))
    else None
  }

  /** An attempt succeeds exactly where an image link starts, and captures
      its target. */
  lemma MatchAtLink(s: string, i: nat)
    requires i <= |s|
    ensures MatchAt(s, i).Some? ==> exists j, k :: IsImageLink(s, i, j, k) && MatchAt(s, i).value == (s[j + 2..k], k + 1)
    ensures MatchAt(s, i).None? ==> forall j, k :: !IsImageLink(s, i, j, k)
  {
    if i + 2 <= |s| && s[i] == '!' && s[i + 1] == '[' {
      match FindLinkMiddle(s, i + 2)
      case None =>
      case Some(j) =>
        match FindClose(s, j + 2)
        case None =>
          NoCloseAfter(s, i, j);
        case Some(k) =>
          assert IsImageLink(s, i, j, k);
    }
  }

  /** A match at a given start has one middle and one closing position. */
  lemma LinkDeterministic(s: string, i: int, j: int, k: int, j': int, k': int)
    requires IsImageLink(s, i, j, k) && IsImageLink(s, i, j', k')
    ensures j == j' && k == k'
  {
    assert !(j' < j && LinkMiddleAt(s, j'));
    assert !(j < j' && LinkMiddleAt(s, j));
  }

  /** When the first reachable `](` has no reachable `)` after it, no later
      `](` does either, so the attempt at `i` fails. */
  lemma NoCloseAfter(s: string, i: nat, j: nat)
    requires i + 2 <= |s| && FindLinkMiddle(s, i + 2) == Some(j) && FindClose(s, j + 2).None?
    ensures forall j', k :: !IsImageLink(s, i, j', k)
  {
  }

  /** The loop `while ((match = imageRegex.exec(markdown)) !== null)` from
      `lastIndex == p`: the first position at or after `p` where the pattern
      matches gives the next target, and the search resumes after the match. */
  function Scan(s: string, p: nat): (refs: seq<string>)
    requires p <= |s|
    ensures forall i :: 0 <= i < |refs| ==> NoneOf(refs[i], EndsTarget)
    decreases |s| - p
  {
    if p == |s| then []
    else
      match MatchAt(s, p)
      case Some(m) => [m.0] + Scan(s, m.1)
      case None => Scan(s, p + 1)
  }

  /** `extractImageReferences(markdown)`: the link targets of every image
      link, left to right; none contains `)` or a line break. */
  function ExtractImageReferences(markdown: string): (refs: seq<string>)
    ensures forall i :: 0 <= i < |refs| ==> NoneOf(refs[i], EndsTarget)
  {
    Scan(markdown, 0)
  }

  /** `![` occurs at `i`. */
  predicate BangBracketAt(s: string, i: int) {
    0 <= i && i + 2 <= |s| && s[i] == '!' && s[i + 1] == '['
  }

  /** Without a `![` at or after `p` there is nothing to find. */
  lemma {:induction false} ScanNoImage(s: string, p: nat)
    requires p <= |s|
    requires forall i :: p <= i ==> !BangBracketAt(s, i)
    ensures Scan(s, p) == []
    decreases |s| - p
  {
    if p < |s| {
      assert !BangBracketAt(s, p);
      ScanNoImage(s, p + 1);
    }
  }

  /** Markdown without `![` has no image references. */
  lemma NoImageNoReferences(markdown: string)
    requires forall i :: !BangBracketAt(markdown, i)
    ensures ExtractImageReferences(markdown) == []
  {
    ScanNoImage(markdown, 0);
  }

  /** Positions where the pattern cannot match are skipped: the scan from `p`
      is the scan from the first position that matches. */
  lemma {:induction false} ScanSkips(s: string, p: nat, i: nat)
    requires p <= i <= |s|
    requires forall m :: p <= m < i ==> MatchAt(s, m).None?
    ensures Scan(s, p) == Scan(s, i)
    decreases i - p
  {
    if p < i {
      ScanSkips(s, p + 1, i);
    }
  }

  /** At a given start the middle and the closing positions are determined,
      and so is the attempt's result. */
  lemma LinkUnique(s: string, i: nat, j: nat, k: nat)
    requires IsImageLink(s, i, j, k)
    ensures MatchAt(s, i) == Some((s[j + 2..k], k + 1))
  {
    MatchAtLink(s, i);
    assert MatchAt(s, i).Some?;
    var j', k' :| IsImageLink(s, i, j', k') && MatchAt(s, i).value == (s[j' + 2..k'], k' + 1);
    LinkDeterministic(s, i, j, k, j', k');
  }

  /** The first link at or after `p` contributes its target first, then the
      scan resumes right after its `)`. */
  lemma FirstLinkFirst(s: string, p: nat, i: nat, j: nat, k: nat)
    requires p <= i && IsImageLink(s, i, j, k)
    requires forall m, j', k' :: p <= m < i ==> !IsImageLink(s, m, j', k')
    ensures Scan(s, p) == [s[j + 2..k]] + Scan(s, k + 1)
  {
    forall m | p <= m < i ensures MatchAt(s, m).None? {
      NoLinkNoMatch(s, m);
    }
    ScanSkips(s, p, i);
    LinkUnique(s, i, j, k);
    ScanAtMatch(s, i, s[j + 2..k], k + 1);
  }

  /** A successful attempt at `i` puts its target first. */
  lemma ScanAtMatch(s: string, i: nat, target: string, next: nat)
    requires i <= |s| && MatchAt(s, i) == Some((target, next))
    ensures Scan(s, i) == [target] + Scan(s, next)
  {
  }

  /** An attempt succeeds only where a link starts. */
  lemma NoLinkNoMatch(s: string, m: nat)
    requires m <= |s| && forall j, k :: !IsImageLink(s, m, j, k)
    ensures MatchAt(s, m).None?
  {
    MatchAtLink(s, m);
  }

  /** Markdown that opens with a well-formed image link `![alt](target)`
      yields that target first, whatever follows. */
  lemma ImageLinkFirst(alt: string, target: string, rest: string)
    requires NoneOf(alt, IsLineTerminator) && forall m :: 0 <= m < |alt| - 1 ==> !(alt[m] == ']' && alt[m + 1] == '(')
    requires NoneOf(target, EndsTarget)
    ensures ExtractImageReferences("![" + alt + "](" + target + ")" + rest) ==
      [target] + Scan("![" + alt + "](" + target + ")" + rest, |alt| + |target| + 5)
  {
    var s := "![" + alt + "](" + target + ")" + rest;
    var j := |alt| + 2;
    var k := |alt| + |target| + 4;
    assert forall m :: 0 <= m < |alt| ==> s[m + 2] == alt[m];
    assert forall m :: 0 <= m < |target| ==> s[j + 2 + m] == target[m];
    assert s[0] == '!' && s[1] == '[' && s[j] == ']' && s[j + 1] == '(' && s[k] == ')';
    assert forall m :: 2 <= m < j ==> !LinkMiddleAt(s, m) by {
      forall m | 2 <= m < j ensures !LinkMiddleAt(s, m) {
        if m < j - 1 {
          assert s[m] == alt[m - 2] && s[m + 1] == alt[m - 1];
        } else {
          assert s[m + 1] == ']';
        }
      }
    }
    assert DotsOnly(s, 2, j) by {
      forall m | 2 <= m < j ensures IsDot(s[m]) {
        assert s[m] == alt[m - 2];
      }
    }
    assert DotsOnly(s, j + 2, k) by {
      forall m | j + 2 <= m < k ensures IsDot(s[m]) {
        assert s[m] == target[m - j - 2];
      }
    }
    assert IsImageLink(s, 0, j, k);
    assert s[j + 2..k] == target;
    FirstLinkFirst(s, 0, 0, j, k);
  }
}
