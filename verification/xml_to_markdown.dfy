/**
 The pure string helpers of the deck converter (xml_to_markdown.py):
 `clean_html_tags`, `sanitize_filename` and the per-card file name rule of
 `convert_xml_to_markdown`. Whitespace here is Python's (`Text.IsPySpace`).
 */
module XmlToMarkdown {
  import opened Wrappers
  import opened Text
  import opened Seqs

  // Tags: re.sub(r'<[^>]+>', '', text)

  /** The first position at or after `k` holding `c`. */
  function FirstFrom(s: string, c: char, k: nat): (r: Option<nat>)
    requires k <= |s|
    ensures r.Some? ==> k <= r.value < |s| && s[r.value] == c && forall m :: k <= m < r.value ==> s[m] != c
    ensures r.None? ==> forall m :: k <= m < |s| ==> s[m] != c
    decreases |s| - k
  {
    if k == |s| then None else if s[k] == c then Some(k) else FirstFrom(s, c, k + 1)
  }

  /** The end of the tag `<[^>]+>` starting at the head of `s`, if one starts there:
      the position of the first `>`, which must leave at least one character inside. */
  function TagEnd(s: string): (r: Option<nat>)
    ensures r.Some? ==>
      2 <= r.value < |s| && s[0] == '<' && s[r.value] == '>' && forall m :: 1 <= m < r.value ==> s[m] != '>'
    ensures r.None? ==>
      |s| == 0 || s[0] != '<' || (|s| > 1 && s[1] == '>') || forall m :: 1 <= m < |s| ==> s[m] != '>'
  {
    if |s| == 0 || s[0] != '<' then None
    else
      var j := FirstFrom(s, '>', 1);
      if j.Some? && j.value >= 2 then j else None
  }

  /** `s` holds no `>`. */
  ghost predicate NoGt(s: string) {
    forall m :: 0 <= m < |s| ==> s[m] != '>'
  }

  /** No tag can start anywhere in `s`: every `<` is followed at once by `>`,
      or by no `>` at all. */
  ghost predicate TagFree(s: string)
    decreases |s|
  {
    |s| == 0 || ((s[0] == '<' ==> (|s| > 1 && s[1] == '>') || NoGt(s[1..])) && TagFree(s[1..]))
  }

  /** Removes the tags left to right: each match is the leftmost one starting
      at or after the end of the previous, and scanning resumes after it. */
  function StripTags(s: string): (r: string)
    ensures |r| <= |s|
    ensures NoGt(s) ==> r == s
    decreases |s|
  {
    if |s| == 0 then ""
    else
      var e := TagEnd(s);
      if e.Some? then StripTags(s[e.value + 1..]) else [s[0]] + StripTags(s[1..])
  }

  /** No tag survives `StripTags`. */
  lemma {:induction false} StripTagsTagFree(s: string)
    ensures TagFree(StripTags(s))
    decreases |s|
  {
    if |s| > 0 {
      var e := TagEnd(s);
      if e.Some? {
        StripTagsTagFree(s[e.value + 1..]);
      } else {
        StripTagsTagFree(s[1..]);
        var t := StripTags(s[1..]);
        assert StripTags(s) == [s[0]] + t;
        if s[0] == '<' {
          if |s| > 1 && s[1] == '>' {
            assert TagEnd(s[1..]).None?;
            assert t == [s[1]] + StripTags(s[2..]);
          } else {
            assert NoGt(s[1..]);
          }
        }
        TagFreeCons(s[0], t);
      }
    }
  }

  /** A character in front of a tag-free text keeps it tag-free unless it
      is a `<` that a later `>` closes. */
  lemma TagFreeCons(c: char, t: string)
    requires TagFree(t)
    requires c == '<' ==> (|t| > 0 && t[0] == '>') || NoGt(t)
    ensures TagFree([c] + t)
  {
    assert ([c] + t)[1..] == t;
  }

  /** A tag-free string passes `StripTags` unchanged; with the postcondition
      above this makes `StripTags` idempotent. */
  lemma {:induction false} StripTagFree(s: string)
    requires TagFree(s)
    ensures StripTags(s) == s
    decreases |s|
  {
    if |s| > 0 {
      assert TagEnd(s).None?;
      StripTagFree(s[1..]);
    }
  }

  /** A tag at the head is dropped. */
  lemma StripLeadingTag(t: string, b: string)
    requires |t| > 0 && forall k :: 0 <= k < |t| ==> t[k] != '>'
    ensures StripTags("<" + t + ">" + b) == StripTags(b)
  {
    var s := "<" + t + ">" + b;
    assert s[0] == '<' && s[|t| + 1] == '>';
    assert forall m :: 1 <= m < |t| + 1 ==> s[m] == t[m - 1];
    assert TagEnd(s) == Some(|t| + 1);
    assert s[|t| + 2..] == b;
  }

  /** A character other than `<` is kept and scanning moves past it. */
  lemma StripTagsPlain(s: string)
    requires |s| > 0 && s[0] != '<'
    ensures StripTags(s) == [s[0]] + StripTags(s[1..])
  {
    assert TagEnd(s).None?;
  }

  /** Text without `<` in front of `x` is kept as it is. */
  lemma {:induction false} StripTagsPlainPrefix(a: string, x: string)
    requires forall k :: 0 <= k < |a| ==> a[k] != '<'
    ensures StripTags(a + x) == a + StripTags(x)
    decreases |a|
  {
    if |a| > 0 {
      var s := a + x;
      assert s[0] == a[0] && s[1..] == a[1..] + x;
      StripTagsPlain(s);
      assert forall k :: 0 <= k < |a[1..]| ==> a[1..][k] == a[k + 1];
      StripTagsPlainPrefix(a[1..], x);
      assert [a[0]] + (a[1..] + StripTags(x)) == ([a[0]] + a[1..]) + StripTags(x);
      assert [a[0]] + a[1..] == a;
    } else {
      assert a + x == x;
    }
  }

  /** Plain text before a tag is kept and the tag itself disappears. */
  lemma StripTagsSplice(a: string, t: string, b: string)
    requires forall k :: 0 <= k < |a| ==> a[k] != '<'
    requires |t| > 0 && forall k :: 0 <= k < |t| ==> t[k] != '>'
    ensures StripTags(a + "<" + t + ">" + b) == a + StripTags(b)
  {
    assert a + "<" + t + ">" + b == a + ("<" + t + ">" + b);
    StripTagsPlainPrefix(a, "<" + t + ">" + b);
    StripLeadingTag(t, b);
  }

  /** A suffix of a tag-free string is tag-free. */
  lemma {:induction false} TagFreeSuffix(s: string, d: nat)
    requires TagFree(s) && d <= |s|
    ensures TagFree(s[d..])
    decreases d
  {
    if d > 0 {
      TagFreeSuffix(s[1..], d - 1);
      assert s[1..][d - 1..] == s[d..];
    }
  }

  /** A prefix of a tag-free string is tag-free when no `>` is cut off. */
  lemma {:induction false} TagFreePrefix(s: string, n: nat)
    requires TagFree(s) && n <= |s| && NoGt(s[n..])
    ensures TagFree(s[..n])
    decreases n
  {
    if n > 0 {
      assert s[1..][n - 1..] == s[n..];
      TagFreePrefix(s[1..], n - 1);
      assert s[..n][1..] == s[1..][..n - 1];
      if s[0] == '<' && !(|s| > 1 && s[1] == '>') {
        assert NoGt(s[..n][1..]) by {
          forall m | 0 <= m < |s[..n][1..]| ensures s[..n][1..][m] != '>' {
            assert s[..n][1..][m] == s[1..][m];
          }
        }
      }
    }
  }

  // Whitespace runs: re.sub(r'\s+', sep, text)

  /** No two neighbouring characters of `s` are both of class `ws`. */
  ghost predicate NoAdjacent(s: string, ws: char -> bool) {
    forall k, l :: 0 <= k && l == k + 1 && l < |s| ==> !(ws(s[k]) && ws(s[l]))
  }

  /** Replaces every maximal run of characters of class `ws` by the single
      character `sep`. */
  function Collapse(s: string, ws: char -> bool, sep: char): (r: string)
    ensures |r| <= |s|
    ensures |r| == 0 <==> |s| == 0
    ensures |s| > 0 && !ws(s[0]) ==> r[0] == s[0]
    ensures forall k :: 0 <= k < |r| ==> r[k] == sep || !ws(r[k])
    ensures NoAdjacent(r, ws)
    decreases |s|
  {
    if |s| == 0 then ""
    else
      var t := if ws(s[0]) then Collapse(TrimStart(s, ws), ws, sep) else Collapse(s[1..], ws, sep);
      var r := [if ws(s[0]) then sep else s[0]] + t;
      assert r[1..] == t;
      r
  }

  /** Every character of class `ws` in `s` is `sep`, and none has a neighbour of the class. */
  ghost predicate Collapsed(s: string, ws: char -> bool, sep: char) {
    NoAdjacent(s, ws) && forall k :: 0 <= k < |s| && ws(s[k]) ==> s[k] == sep
  }

  /** A string whose runs are already single `sep` characters is left
      unchanged; in particular so is one without any character of class `ws`. */
  lemma {:induction false} CollapseCollapsed(s: string, ws: char -> bool, sep: char)
    requires Collapsed(s, ws, sep)
    ensures Collapse(s, ws, sep) == s
    decreases |s|
  {
    if |s| > 0 {
      assert Collapsed(s[1..], ws, sep) by {
        forall k, l | 0 <= k && l == k + 1 && l < |s[1..]|
          ensures !(ws(s[1..][k]) && ws(s[1..][l]))
        {
          assert s[1..][k] == s[k + 1] && s[1..][l] == s[l + 1];
        }
      }
      CollapseCollapsed(s[1..], ws, sep);
      if ws(s[0]) {
        assert TrimStart(s, ws) == TrimStart(s[1..], ws);
        assert |s| > 1 ==> !ws(s[1]);
      }
      assert s == [s[0]] + s[1..];
    }
  }

  /** Collapsing cannot bring in a character of a class the string and the
      separator avoid. */
  lemma {:induction false} CollapseNoneOf(s: string, ws: char -> bool, sep: char, p: char -> bool)
    requires NoneOf(s, p) && !p(sep)
    ensures NoneOf(Collapse(s, ws, sep), p)
    decreases |s|
  {
    if |s| > 0 {
      var rest := if ws(s[0]) then TrimStart(s, ws) else s[1..];
      var c := if ws(s[0]) then sep else s[0];
      assert rest == s[|s| - |rest|..];
      NoneOfSuffix(s, |s| - |rest|, p);
      CollapseNoneOf(rest, ws, sep, p);
      assert Collapse(s, ws, sep) == [c] + Collapse(rest, ws, sep);
      NoneOfCons(c, Collapse(rest, ws, sep), p);
    }
  }

  /** A suffix of a string free of `p` is free of `p`. */
  lemma NoneOfSuffix(s: string, d: nat, p: char -> bool)
    requires NoneOf(s, p) && d <= |s|
    ensures NoneOf(s[d..], p)
  {
    assert forall k :: 0 <= k < |s| - d ==> s[d..][k] == s[d + k];
  }

  /** Prepending a character outside `p` keeps a string free of `p`. */
  lemma NoneOfCons(c: char, t: string, p: char -> bool)
    requires !p(c) && NoneOf(t, p)
    ensures NoneOf([c] + t, p)
  {
    assert forall k :: 1 <= k < |t| + 1 ==> ([c] + t)[k] == t[k - 1];
  }

  /** When the separator is no angle bracket and `>` is not of class `ws`,
      collapsing keeps a tag-free string tag-free. */
  lemma {:induction false} CollapseTagFree(s: string, ws: char -> bool, sep: char)
    requires TagFree(s) && sep != '<' && sep != '>' && !ws('>')
    ensures TagFree(Collapse(s, ws, sep))
    decreases |s|
  {
    if |s| > 0 {
      var rest := if ws(s[0]) then TrimStart(s, ws) else s[1..];
      assert rest == s[|s| - |rest|..];
      TagFreeSuffix(s, |s| - |rest|);
      CollapseTagFree(rest, ws, sep);
      var r := Collapse(s, ws, sep);
      assert r[1..] == Collapse(rest, ws, sep);
      if !ws(s[0]) && s[0] == '<' && !(|s| > 1 && s[1] == '>') {
        assert NoGt(s[1..]);
        CollapseNoneOf(s[1..], ws, sep, IsGt);
      }
    }
  }

  predicate IsGt(c: char) {
    c == '>'
  }

  /** Trimming keeps a tag-free string tag-free when `>` is not trimmed. */
  lemma TrimTagFree(s: string, ws: char -> bool)
    requires TagFree(s) && !ws('>')
    ensures TagFree(Trim(s, ws))
  {
    var d := TrimOffset(s, ws);
    TagFreeBeforeSpaces(s, Trim(s, ws), d, ws);
  }

  /** A piece of a tag-free string followed only by characters of class `ws`
      is tag-free when `>` is not of that class. */
  lemma TagFreeBeforeSpaces(s: string, r: string, d: nat, ws: char -> bool)
    requires TagFree(s) && !ws('>') && d + |r| <= |s| && r == s[d..d + |r|] && All(s[d + |r|..], ws)
    ensures TagFree(r)
  {
    SpacesHaveNoGt(s[d + |r|..], ws);
    TagFreeInfix(s, d, |r|);
  }

  lemma SpacesHaveNoGt(t: string, ws: char -> bool)
    requires All(t, ws) && !ws('>')
    ensures NoGt(t)
  {
  }

  /** An infix of a tag-free string is tag-free when no `>` follows it. */
  lemma TagFreeInfix(s: string, d: nat, n: nat)
    requires TagFree(s) && d + n <= |s| && NoGt(s[d + n..])
    ensures TagFree(s[d..d + n])
  {
    TagFreeSuffix(s, d);
    var u := s[d..];
    assert u[n..] == s[d + n..];
    TagFreePrefix(u, n);
    assert u[..n] == s[d..d + n];
  }

  /** Trimming keeps collapsed runs collapsed. */
  lemma TrimCollapsed(s: string, ws: char -> bool, sep: char)
    requires Collapsed(s, ws, sep)
    ensures Collapsed(Trim(s, ws), ws, sep)
  {
    var d := TrimOffset(s, ws);
    CollapsedInfix(s, ws, sep, d, |Trim(s, ws)|);
  }

  /** Any infix of a collapsed string is collapsed. */
  lemma CollapsedInfix(s: string, ws: char -> bool, sep: char, d: nat, n: nat)
    requires Collapsed(s, ws, sep) && d + n <= |s|
    ensures Collapsed(s[d..d + n], ws, sep)
  {
    var r := s[d..d + n];
    forall k, l | 0 <= k && l == k + 1 && l < |r| ensures !(ws(r[k]) && ws(r[l])) {
      assert r[k] == s[d + k] && r[l] == s[d + l];
    }
    forall k | 0 <= k < |r| && ws(r[k]) ensures r[k] == sep {
      assert r[k] == s[d + k];
    }
  }

  /** The characters a collapse must keep: those outside the class `ws`
      other than the separator itself. */
  function Kept(ws: char -> bool, sep: char): char -> bool {
    c => !ws(c) && c != sep
  }

  /** A stretch without whitespace passes through a collapse unchanged. */
  lemma {:induction false} CollapseWord(w: string, x: string, ws: char -> bool, sep: char)
    requires NoneOf(w, ws)
    ensures Collapse(w + x, ws, sep) == w + Collapse(x, ws, sep)
    decreases |w|
  {
    if |w| == 0 {
      assert w + x == x;
    } else {
      var s := w + x;
      assert s[0] == w[0] && s[1..] == w[1..] + x;
      assert Collapse(s, ws, sep) == [w[0]] + Collapse(w[1..] + x, ws, sep);
      CollapseWord(w[1..], x, ws, sep);
      assert w == [w[0]] + w[1..];
    }
  }

  /** A string that does not end in whitespace collapses on its own: what
      follows it is collapsed separately and appended. */
  lemma {:induction false} CollapseAppend(a: string, x: string, ws: char -> bool, sep: char)
    requires |a| == 0 || !ws(a[|a| - 1])
    ensures Collapse(a + x, ws, sep) == Collapse(a, ws, sep) + Collapse(x, ws, sep)
    decreases |a|
  {
    if |a| == 0 {
      assert a + x == x;
    } else if ws(a[0]) {
      var t := TrimStart(a, ws);
      LeadingRunOfAppend(a, x, ws, sep);
      CollapseAppend(t, x, ws, sep);
      AppendStep(Collapse(a + x, ws, sep), Collapse(a, ws, sep), [sep],
                 Collapse(t + x, ws, sep), Collapse(t, ws, sep), Collapse(x, ws, sep));
    } else {
      var t := a[1..];
      LeadingCharOfAppend(a, x, ws, sep);
      CollapseAppend(t, x, ws, sep);
      AppendStep(Collapse(a + x, ws, sep), Collapse(a, ws, sep), [a[0]],
                 Collapse(t + x, ws, sep), Collapse(t, ws, sep), Collapse(x, ws, sep));
    }
  }

  /** The sequence algebra of one step of `CollapseAppend`. */
  lemma AppendStep(whole: string, ca: string, h: string, rest: string, ct: string, cx: string)
    requires whole == h + rest && rest == ct + cx && ca == h + ct
    ensures whole == ca + cx
  {
  }

  /** The step of `CollapseAppend` for a leading character outside the class. */
  lemma LeadingCharOfAppend(a: string, x: string, ws: char -> bool, sep: char)
    requires |a| > 0 && !ws(a[0])
    ensures Collapse(a, ws, sep) == [a[0]] + Collapse(a[1..], ws, sep)
    ensures Collapse(a + x, ws, sep) == [a[0]] + Collapse(a[1..] + x, ws, sep)
  {
    assert (a + x)[0] == a[0] && (a + x)[1..] == a[1..] + x;
  }

  /** The step of `CollapseAppend` for a leading whitespace run: the run
      stays inside `a`, which keeps its last character. */
  lemma LeadingRunOfAppend(a: string, x: string, ws: char -> bool, sep: char)
    requires |a| > 0 && ws(a[0]) && !ws(a[|a| - 1])
    ensures 0 < |TrimStart(a, ws)| < |a| && !ws(TrimStart(a, ws)[|TrimStart(a, ws)| - 1])
    ensures Collapse(a, ws, sep) == [sep] + Collapse(TrimStart(a, ws), ws, sep)
    ensures Collapse(a + x, ws, sep) == [sep] + Collapse(TrimStart(a, ws) + x, ws, sep)
  {
    var t := TrimStart(a, ws);
    if |t| == 0 {
      assert false;
    }
    assert t[|t| - 1] == a[|a| - 1];
    TrimStartConcat(a, x, ws);
    assert (a + x)[0] == a[0];
  }

  /** Splicing a whitespace run between two pieces: each piece collapses on
      its own and the run becomes exactly one separator. */
  lemma CollapseSplice(a: string, w: string, b: string, ws: char -> bool, sep: char)
    requires |a| == 0 || !ws(a[|a| - 1])
    requires |w| > 0 && All(w, ws)
    requires |b| == 0 || !ws(b[0])
    ensures Collapse(a + w + b, ws, sep) == Collapse(a, ws, sep) + [sep] + Collapse(b, ws, sep)
  {
    var wb := w + b;
    assert a + w + b == a + wb;
    CollapseRun(w, b, ws, sep);
    CollapseAppend(a, wb, ws, sep);
    SpliceOf(Collapse(a + wb, ws, sep), Collapse(a, ws, sep), Collapse(wb, ws, sep), Collapse(b, ws, sep), sep);
  }

  lemma SpliceOf(whole: string, p: string, q: string, r: string, sep: char)
    requires whole == p + q && q == [sep] + r
    ensures whole == p + [sep] + r
  {
  }

  /** A whole whitespace run, however long, becomes exactly one separator. */
  lemma CollapseRun(w: string, x: string, ws: char -> bool, sep: char)
    requires |w| > 0 && All(w, ws) && (|x| == 0 || !ws(x[0]))
    ensures Collapse(w + x, ws, sep) == [sep] + Collapse(x, ws, sep)
  {
    var s := w + x;
    assert s[0] == w[0];
    TrimStartConcat(w, x, ws);
    assert TrimStart(s, ws) == x;
  }

  /** Collapsing keeps every kept character, in order: only whitespace runs
      are rewritten. */
  lemma {:induction false} CollapseKeepsWords(s: string, ws: char -> bool, sep: char)
    ensures Filter(Collapse(s, ws, sep), Kept(ws, sep)) == Filter(s, Kept(ws, sep))
    decreases |s|
  {
    if |s| > 0 {
      if ws(s[0]) {
        var t := TrimStart(s, ws);
        assert |t| < |s|;
        RunKeepsWords(s, ws, sep);
        BetweenSpacesKeepsWords(s, t, |s| - |t|, ws, sep);
        CollapseKeepsWords(t, ws, sep);
      } else {
        CharKeepsWords(s, ws, sep);
        CollapseKeepsWords(s[1..], ws, sep);
      }
    }
  }

  /** A leading whitespace run becomes the separator, which is not kept. */
  lemma RunKeepsWords(s: string, ws: char -> bool, sep: char)
    requires |s| > 0 && ws(s[0])
    ensures Filter(Collapse(s, ws, sep), Kept(ws, sep)) == Filter(Collapse(TrimStart(s, ws), ws, sep), Kept(ws, sep))
  {
    var t := TrimStart(s, ws);
    assert Collapse(s, ws, sep) == [sep] + Collapse(t, ws, sep);
    FilterCons(sep, Collapse(t, ws, sep), Kept(ws, sep));
  }

  /** A leading non-whitespace character is kept or dropped alike before and
      after the collapse. */
  lemma CharKeepsWords(s: string, ws: char -> bool, sep: char)
    requires |s| > 0 && !ws(s[0])
    ensures Filter(Collapse(s, ws, sep), Kept(ws, sep))
         == (if Kept(ws, sep)(s[0]) then [s[0]] else []) + Filter(Collapse(s[1..], ws, sep), Kept(ws, sep))
    ensures Filter(s, Kept(ws, sep)) == (if Kept(ws, sep)(s[0]) then [s[0]] else []) + Filter(s[1..], Kept(ws, sep))
  {
    assert Collapse(s, ws, sep) == [s[0]] + Collapse(s[1..], ws, sep);
    FilterCons(s[0], Collapse(s[1..], ws, sep), Kept(ws, sep));
    assert s == [s[0]] + s[1..];
    FilterCons(s[0], s[1..], Kept(ws, sep));
  }

  /** Stripping removes only whitespace, so every kept character survives. */
  lemma TrimKeepsWords(s: string, ws: char -> bool, sep: char)
    ensures Filter(Trim(s, ws), Kept(ws, sep)) == Filter(s, Kept(ws, sep))
  {
    var d := TrimOffset(s, ws);
    BetweenSpacesKeepsWords(s, Trim(s, ws), d, ws, sep);
  }

  /** A piece of `s` with only whitespace around it keeps all of `s`'s kept
      characters. */
  lemma BetweenSpacesKeepsWords(s: string, y: string, d: nat, ws: char -> bool, sep: char)
    requires d + |y| <= |s| && y == s[d..d + |y|] && All(s[..d], ws) && All(s[d + |y|..], ws)
    ensures Filter(y, Kept(ws, sep)) == Filter(s, Kept(ws, sep))
  {
    SpacesKeepNothing(s[..d], ws, sep);
    SpacesKeepNothing(s[d + |y|..], ws, sep);
    FilterMiddle(s, d, d + |y|, Kept(ws, sep));
  }

  /** A whitespace run holds no kept character. */
  lemma SpacesKeepNothing(t: string, ws: char -> bool, sep: char)
    requires All(t, ws)
    ensures Filter(t, Kept(ws, sep)) == []
  {
    FilterNone(t, Kept(ws, sep));
  }

  /** `clean_html_tags(text)`: `""` for a missing or empty text; otherwise the
      tags are removed, whitespace runs become one space and the ends are
      stripped. The result starts and ends with non-whitespace and its only
      whitespace characters are single spaces. */
  function CleanHtmlTags(text: Option<string>): (r: string)
    ensures text.None? || text == Some("") ==> r == ""
    ensures Trimmed(r, IsPySpace)
    ensures Collapsed(r, IsPySpace, ' ')
    ensures TagFree(r)
  {
    if text.None? || text.value == "" then ""
    else
      var c := Collapse(StripTags(text.value), IsPySpace, ' ');
      StripTagsTagFree(text.value);
      CollapseTagFree(StripTags(text.value), IsPySpace, ' ');
      TrimTagFree(c, IsPySpace);
      TrimCollapsed(c, IsPySpace, ' ');
      Trim(c, IsPySpace)
  }

  /** Text with no tag, single spaces and no whitespace at either end is
      already clean: cleaning gives it back unchanged. */
  lemma CleanKeepsCleanText(text: string)
    requires TagFree(text) && Collapsed(text, IsPySpace, ' ') && Trimmed(text, IsPySpace)
    ensures CleanHtmlTags(Some(text)) == text
  {
    if text != "" {
      assert StripTags(text) == text by { StripTagFree(text); }
      assert Collapse(text, IsPySpace, ' ') == text by { CollapseCollapsed(text, IsPySpace, ' '); }
      assert Trim(text, IsPySpace) == text by { TrimTrimmed(text, IsPySpace); }
      CleanPipeline(text);
    }
  }

  /** A non-empty text goes through the three stages. */
  lemma CleanPipeline(x: string)
    requires x != ""
    ensures CleanHtmlTags(Some(x)) == Trim(Collapse(StripTags(x), IsPySpace, ' '), IsPySpace)
  {
  }

  /** Cleaning loses no word: the text left after removing the tags keeps
      every non-whitespace character, in order. */
  lemma CleanKeepsWords(x: string)
    requires x != ""
    ensures Filter(CleanHtmlTags(Some(x)), Kept(IsPySpace, ' ')) == Filter(StripTags(x), Kept(IsPySpace, ' '))
  {
    CollapseKeepsWords(StripTags(x), IsPySpace, ' ');
    TrimKeepsWords(Collapse(StripTags(x), IsPySpace, ' '), IsPySpace, ' ');
  }

  /** Cleaning an already cleaned text changes nothing. */
  lemma CleanIdempotent(text: Option<string>)
    ensures CleanHtmlTags(Some(CleanHtmlTags(text))) == CleanHtmlTags(text)
  {
    CleanKeepsCleanText(CleanHtmlTags(text));
  }

  /** A tag in front of clean text is dropped and nothing else is lost. */
  lemma CleanDropsLeadingTag(t: string, text: string)
    requires |t| > 0 && forall k :: 0 <= k < |t| ==> t[k] != '>'
    requires TagFree(text) && Collapsed(text, IsPySpace, ' ') && Trimmed(text, IsPySpace)
    ensures CleanHtmlTags(Some("<" + t + ">" + text)) == text
  {
    var x := "<" + t + ">" + text;
    StripLeadingTag(t, text);
    StripTagFree(text);
    CleanPipeline(x);
    CleanKeepsCleanText(text);
    if text != "" {
      CleanPipeline(text);
    }
  }

  // sanitize_filename

  /** The characters `sanitize_filename` replaces by `_`. */
  predicate IsForbidden(c: char) {
    c in "<>:\"/\\|?*"
  }

  /** The longest file name `sanitize_filename` returns. */
  const MaxFilename: nat := 100

  /** `_` is neither forbidden nor whitespace. */
  lemma UnderscoreIsSafe()
    ensures !IsForbidden('_') && !IsPySpace('_')
  {
  }

  /** A prefix keeps out what the whole string keeps out. */
  lemma TakeNoneOf(s: string, n: int, p: char -> bool)
    requires NoneOf(s, p)
    ensures NoneOf(Take(s, n), p)
  {
    var r := Take(s, n);
    assert forall k :: 0 <= k < |r| ==> r[k] == s[k];
  }

  /** `re.sub(r'[<>:"/\\|?*]', '_', name)`: each forbidden character becomes
      `_`, every other character stays where it is. */
  function ReplaceForbidden(s: string): (r: string)
    ensures |r| == |s| && NoneOf(r, IsForbidden)
    ensures forall k :: 0 <= k < |s| ==> r[k] == (if IsForbidden(s[k]) then '_' else s[k])
  {
    UnderscoreIsSafe();
    Map(s, ForbiddenToUnderscore)
  }

  function ForbiddenToUnderscore(c: char): char {
    if IsForbidden(c) then '_' else c
  }

  /** `sanitize_filename(name)`: forbidden characters become `_`, the ends are
      stripped, each inner whitespace run becomes one `_`, and the result is
      cut to 100 characters. */
  function SanitizeFilename(name: string): (r: string)
    ensures |r| <= MaxFilename && |r| <= |name|
    ensures NoneOf(r, IsForbidden)
    ensures NoneOf(r, IsPySpace)
  {
    var a := ReplaceForbidden(name);
    var b := Trim(a, IsPySpace);
    TrimNoneOf(a, IsPySpace, IsForbidden);
    var c := Collapse(b, IsPySpace, '_');
    UnderscoreIsSafe();
    CollapseNoneOf(b, IsPySpace, '_', IsForbidden);
    TakeNoneOf(c, MaxFilename, IsForbidden);
    TakeNoneOf(c, MaxFilename, IsPySpace);
    Take(c, MaxFilename)
  }

  /** Sanitizing a sanitized name changes nothing. */
  lemma SanitizeIdempotent(name: string)
    ensures SanitizeFilename(SanitizeFilename(name)) == SanitizeFilename(name)
  {
    SanitizeKeepsSafeNames(SanitizeFilename(name));
  }

  /** A name made only of allowed, non-whitespace characters and short enough
      is kept as it is. */
  lemma SanitizeKeepsSafeNames(name: string)
    requires |name| <= MaxFilename && NoneOf(name, IsForbidden) && NoneOf(name, IsPySpace)
    ensures SanitizeFilename(name) == name
  {
    ReplaceForbiddenSafe(name);
    TrimNoSpace(name, IsPySpace);
    NoneOfCollapsed(name, IsPySpace, '_');
    CollapseCollapsed(name, IsPySpace, '_');
  }

  /** Sanitizing loses no word character: what survives outside whitespace
      and `_` is a prefix of the name's own such characters (forbidden ones
      read as `_`), and all of them when the name fits in 100 characters. */
  lemma SanitizeKeepsWords(name: string)
    ensures Filter(SanitizeFilename(name), Kept(IsPySpace, '_')) <= Filter(ReplaceForbidden(name), Kept(IsPySpace, '_'))
    ensures |name| <= MaxFilename ==>
      Filter(SanitizeFilename(name), Kept(IsPySpace, '_')) == Filter(ReplaceForbidden(name), Kept(IsPySpace, '_'))
  {
    var a := ReplaceForbidden(name);
    var b := Trim(a, IsPySpace);
    var c := Collapse(b, IsPySpace, '_');
    assert Filter(c, Kept(IsPySpace, '_')) == Filter(a, Kept(IsPySpace, '_')) by {
      CollapseKeepsWords(b, IsPySpace, '_');
      TrimKeepsWords(a, IsPySpace, '_');
    }
    SanitizeStages(name);
    FilterTake(c, MaxFilename, Kept(IsPySpace, '_'));
  }

  /** Two safe words separated by a whitespace run of any length are joined
      by exactly one `_`. */
  lemma SanitizeJoinsWords(a: string, w: string, b: string)
    requires |a| > 0 && NoneOf(a, IsPySpace) && NoneOf(a, IsForbidden)
    requires |w| > 0 && All(w, IsPySpace)
    requires |b| > 0 && NoneOf(b, IsPySpace) && NoneOf(b, IsForbidden)
    requires |a| + 1 + |b| <= MaxFilename
    ensures SanitizeFilename(a + w + b) == a + "_" + b
  {
    var n := a + w + b;
    var c := a + "_" + b;
    assert ReplaceForbidden(n) == n by {
      JoinedSafe(a, w, b);
      ReplaceForbiddenSafe(n);
    }
    assert Trim(n, IsPySpace) == n by {
      JoinedTrimmed(a, w, b);
    }
    assert Collapse(n, IsPySpace, '_') == c by {
      JoinedCollapse(a, w, b);
    }
    SanitizeFixedPoint(n, c);
  }

  /** When each stage leaves the name alone except the collapse, the result is
      what the collapse gives. */
  lemma SanitizeFixedPoint(n: string, c: string)
    requires ReplaceForbidden(n) == n && Trim(n, IsPySpace) == n
    requires Collapse(n, IsPySpace, '_') == c && |c| <= MaxFilename
    ensures SanitizeFilename(n) == c
  {
    SanitizeStages(n);
    TakeWhole(c, MaxFilename);
  }

  /** `sanitize_filename` is the four stages in order. */
  lemma SanitizeStages(name: string)
    ensures SanitizeFilename(name) == Take(Collapse(Trim(ReplaceForbidden(name), IsPySpace), IsPySpace, '_'), MaxFilename)
  {
  }

  /** Taking at least the whole string keeps it all. */
  lemma TakeWhole(s: string, n: int)
    requires |s| <= n
    ensures Take(s, n) == s
  {
  }

  /** Whitespace is never a forbidden file name character. */
  lemma SpaceNotForbidden(c: char)
    requires IsPySpace(c)
    ensures !IsForbidden(c)
  {
  }

  lemma JoinedSafe(a: string, w: string, b: string)
    requires NoneOf(a, IsForbidden) && All(w, IsPySpace) && NoneOf(b, IsForbidden)
    ensures NoneOf(a + w + b, IsForbidden)
  {
    var n := a + w + b;
    forall k | 0 <= k < |n| ensures !IsForbidden(n[k]) {
      if k < |a| {
        assert n[k] == a[k];
      } else if k < |a| + |w| {
        assert n[k] == w[k - |a|];
        SpaceNotForbidden(n[k]);
      } else {
        assert n[k] == b[k - |a| - |w|];
      }
    }
  }

  lemma JoinedTrimmed(a: string, w: string, b: string)
    requires |a| > 0 && NoneOf(a, IsPySpace) && |b| > 0 && NoneOf(b, IsPySpace)
    ensures Trim(a + w + b, IsPySpace) == a + w + b
  {
    var n := a + w + b;
    assert n[0] == a[0] && n[|n| - 1] == b[|b| - 1];
    TrimTrimmed(n, IsPySpace);
  }

  lemma JoinedCollapse(a: string, w: string, b: string)
    requires NoneOf(a, IsPySpace) && |w| > 0 && All(w, IsPySpace) && |b| > 0 && NoneOf(b, IsPySpace)
    ensures Collapse(a + w + b, IsPySpace, '_') == a + "_" + b
  {
    RunBetweenWords(a, w, b, IsPySpace, '_');
  }

  /** A whitespace run between two words collapses to one separator. */
  lemma RunBetweenWords(a: string, w: string, b: string, ws: char -> bool, sep: char)
    requires NoneOf(a, ws) && |w| > 0 && All(w, ws) && |b| > 0 && NoneOf(b, ws)
    ensures Collapse(a + w + b, ws, sep) == a + [sep] + b
  {
    var wb := w + b;
    assert a + w + b == a + wb;
    assert Collapse(b, ws, sep) == b by {
      NoneOfCollapsed(b, ws, sep);
      CollapseCollapsed(b, ws, sep);
    }
    assert Collapse(wb, ws, sep) == [sep] + b by {
      CollapseRun(w, b, ws, sep);
    }
    assert Collapse(a + wb, ws, sep) == a + ([sep] + b) by {
      CollapseWord(a, wb, ws, sep);
    }
  }

  lemma ReplaceForbiddenSafe(name: string)
    requires NoneOf(name, IsForbidden)
    ensures ReplaceForbidden(name) == name
  {
  }

  /** A string without any character of class `ws` has nothing to collapse. */
  lemma NoneOfCollapsed(s: string, ws: char -> bool, sep: char)
    requires NoneOf(s, ws)
    ensures Collapsed(s, ws, sep)
  {
  }

  // Card file names: f"{i:03d}_{sanitize_filename(front[:50])}.md"

  /** How much of the front text goes into a file name. */
  const FrontPrefix: nat := 50

  predicate IsDigit(c: char) {
    '0' <= c <= '9'
  }

  function DigitChar(d: nat): (c: char)
    requires d < 10
    ensures IsDigit(c) && c as int - '0' as int == d
  {
    ('0' as int + d) as char
  }

  /** The decimal digits of `n`, without leading zeros. */
  function Digits(n: nat): (r: string)
    ensures |r| >= 1 && All(r, IsDigit)
    decreases n
  {
    if n < 10 then [DigitChar(n)] else Digits(n / 10) + [DigitChar(n % 10)]
  }

  /** The number a string of decimal digits denotes. */
  function ValueOf(ds: string): nat
    requires All(ds, IsDigit)
  {
    if |ds| == 0 then 0
    else
      assert All(ds[..|ds| - 1], IsDigit) by {
        assert forall k :: 0 <= k < |ds| - 1 ==> ds[..|ds| - 1][k] == ds[k];
      }
      ValueOf(ds[..|ds| - 1]) * 10 + (ds[|ds| - 1] as int - '0' as int)
  }

  /** Reading the digits back gives the number. */
  lemma {:induction false} DigitsValue(n: nat)
    ensures ValueOf(Digits(n)) == n
    decreases n
  {
    if n >= 10 {
      DigitsValue(n / 10);
      var ds := Digits(n);
      assert ds[..|ds| - 1] == Digits(n / 10);
    }
  }

  /** Leading zeros do not change the value. */
  lemma {:induction false} ValueOfZeroPrefix(z: string, ds: string)
    requires All(z, IsZero) && All(ds, IsDigit)
    ensures All(z + ds, IsDigit) && ValueOf(z + ds) == ValueOf(ds)
    decreases |ds|
  {
    var s := z + ds;
    assert All(s, IsDigit) by {
      forall k | 0 <= k < |s| ensures IsDigit(s[k]) {
        if k < |z| { assert s[k] == z[k]; } else { assert s[k] == ds[k - |z|]; }
      }
    }
    if |ds| == 0 {
      assert s == z;
      ValueOfZeros(z);
    } else {
      var ds' := ds[..|ds| - 1];
      assert All(ds', IsDigit) by {
        assert forall k :: 0 <= k < |ds'| ==> ds'[k] == ds[k];
      }
      ValueOfZeroPrefix(z, ds');
      assert s[..|s| - 1] == z + ds';
    }
  }

  predicate IsZero(c: char) {
    c == '0'
  }

  lemma {:induction false} ValueOfZeros(z: string)
    requires All(z, IsZero)
    ensures All(z, IsDigit) && ValueOf(z) == 0
  {
    if |z| > 0 {
      assert All(z[..|z| - 1], IsZero) by {
        assert forall k :: 0 <= k < |z| - 1 ==> z[..|z| - 1][k] == z[k];
      }
      ValueOfZeros(z[..|z| - 1]);
    }
  }

  function Zeros(k: nat): (z: string)
    ensures |z| == k && All(z, IsZero)
  {
    if k == 0 then "" else "0" + Zeros(k - 1)
  }

  /** `f"{i:03d}"`: the digits of `i`, padded with zeros to at least three. */
  function Pad3(i: nat): (r: string)
    ensures |r| >= 3 && All(r, IsDigit)
    ensures ValueOf(r) == i
  {
    var ds := Digits(i);
    var r := Zeros(if |ds| < 3 then 3 - |ds| else 0) + ds;
    ValueOfZeroPrefix(Zeros(if |ds| < 3 then 3 - |ds| else 0), ds);
    DigitsValue(i);
    r
  }

  /** The part of a card's file name taken from its front: the sanitized
      first 50 characters, or `card` when the front is empty. */
  function CardStem(front: string): (r: string)
    ensures |r| <= FrontPrefix
    ensures |front| > 0 ==> NoneOf(r, IsForbidden) && NoneOf(r, IsPySpace)
  {
    if |front| > 0 then SanitizeFilename(Take(front, FrontPrefix)) else "card"
  }

  /** What follows the number in a card's file name. */
  function CardSuffix(front: string): (r: string)
    ensures 4 <= |r| <= 1 + FrontPrefix + 3
    ensures r[0] == '_' && r[|r| - 3..] == ".md"
  {
    "_" + CardStem(front) + ".md"
  }

  /** The file name of the `i`-th card (counting from 1) whose cleaned front
      text is `front`: `f"{i:03d}_{stem}.md"`. */
  function CardFilename(i: nat, front: string): (r: string)
    ensures |Pad3(i)| + 4 <= |r| <= |Pad3(i)| + 1 + FrontPrefix + 3
    ensures Pad3(i) <= r && r[|Pad3(i)|] == '_' && r[|r| - 3..] == ".md"
  {
    var p := Pad3(i);
    var t := CardSuffix(front);
    JoinParts(p, t);
    p + t
  }

  /** Where the two halves of `p + t` sit in it. */
  lemma JoinParts(p: string, t: string)
    requires |t| >= 3
    ensures p <= p + t && (p + t)[|p|] == t[0]
    ensures (p + t)[|p + t| - 3..] == t[|t| - 3..]
  {
    assert (p + t)[..|p|] == p;
  }

  /** Between the number and `.md` a card's file name holds its stem. */
  lemma CardFilenameFront(i: nat, front: string)
    ensures var r := CardFilename(i, front); r[|Pad3(i)| + 1..|r| - 3] == CardStem(front)
  {
    NameMiddle(CardFilename(i, front), Pad3(i), CardSuffix(front), CardStem(front));
  }

  /** In `p + "_" + x + ".md"`, `x` sits between the underscore and the extension. */
  lemma NameMiddle(r: string, p: string, t: string, x: string)
    requires r == p + t && t == "_" + x + ".md"
    ensures |p| + 1 <= |r| - 3 && r[|p| + 1..|r| - 3] == x
  {
    assert forall k :: 0 <= k < |x| ==> r[|p| + 1 + k] == x[k];
  }

  /** The digits at the head of `s`. */
  function LeadingDigits(s: string): (r: string)
    ensures r <= s && All(r, IsDigit)
    ensures |r| < |s| ==> !IsDigit(s[|r|])
  {
    if |s| > 0 && IsDigit(s[0]) then
      var t := LeadingDigits(s[1..]);
      assert [s[0]] + t <= s;
      [s[0]] + t
    else ""
  }

  /** The card number a file name starts with. */
  function IndexOf(name: string): nat {
    ValueOf(LeadingDigits(name))
  }

  /** The card number can be read back from every card file name. */
  lemma CardFilenameIndex(i: nat, front: string)
    ensures IndexOf(CardFilename(i, front)) == i
  {
    IndexAfterDigits(Pad3(i), CardSuffix(front));
  }

  /** A run of digits followed by a non-digit is read back as its value. */
  lemma IndexAfterDigits(p: string, rest: string)
    requires All(p, IsDigit) && |rest| > 0 && !IsDigit(rest[0])
    ensures IndexOf(p + rest) == ValueOf(p)
  {
    var s := p + rest;
    assert s[..|p|] == p && s[|p|] == rest[0];
    LeadingOfPrefix(s, p);
  }

  lemma {:induction false} LeadingOfPrefix(s: string, p: string)
    requires p <= s && All(p, IsDigit) && |p| < |s| && !IsDigit(s[|p|])
    ensures LeadingDigits(s) == p
    decreases |p|
  {
    if |p| > 0 {
      assert All(p[1..], IsDigit) by {
        assert forall k :: 0 <= k < |p| - 1 ==> p[1..][k] == p[k + 1];
      }
      LeadingOfPrefix(s[1..], p[1..]);
      assert p == [p[0]] + p[1..];
    }
  }

  /** Different card numbers never share a file name, whatever the fronts. */
  lemma CardFilenamesDistinct(i: nat, j: nat, f: string, g: string)
    requires i != j
    ensures CardFilename(i, f) != CardFilename(j, g)
  {
    CardFilenameIndex(i, f);
    CardFilenameIndex(j, g);
  }
}
