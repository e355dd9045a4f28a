/**
 The HTML-to-plain-text normaliser (`strip_html`). Both copies in the
 repository run the same three stages: a streaming tag-stripping scan, a
 chain of seven entity replacements, and a filter that collapses whitespace
 runs, followed by `trim`. They differ only in the collapse stage: the quick
 search window treats every whitespace character alike, while the command
 line keeps `\n` and lets it end a run.
 */
module Html {
  import opened Text

  // ---------------------------------------------------------------------
  // Stage 1: tag stripping
  // ---------------------------------------------------------------------

  /** Whether the scan is inside a tag after reading `s` from state `inTag`. */
  function InTagAfter(s: string, inTag: bool): bool
    decreases |s|
  {
    if |s| == 0 then inTag
    else if s[0] == '<' then InTagAfter(s[1..], true)
    else if s[0] == '>' then InTagAfter(s[1..], false)
    else InTagAfter(s[1..], inTag)
  }

  /**
   The tag-stripping scan started in state `inTag`: `<` enters a tag, `>`
   leaves it, both brackets are always dropped, and any other character is
   kept only outside a tag.
   */
  function StripTagsFrom(s: string, inTag: bool): (r: string)
    ensures '<' !in r && '>' !in r
    ensures forall c :: c in r ==> c in s
    ensures |r| <= |s|
    decreases |s|
  {
    if |s| == 0 then []
    else
      assert forall c :: c in s[1..] ==> c in s;
      if s[0] == '<' then StripTagsFrom(s[1..], true)
      else if s[0] == '>' then StripTagsFrom(s[1..], false)
      else if inTag then StripTagsFrom(s[1..], true)
      else [s[0]] + StripTagsFrom(s[1..], false)
  }

  /** The scan as `strip_html` runs it, starting outside any tag. */
  function StripTags(html: string): string {
    StripTagsFrom(html, false)
  }

  /** The scan is a fold: stripping `a + b` strips `a`, then `b` from the state `a` left. */
  lemma {:induction false} StripTagsAppend(a: string, b: string, inTag: bool)
    ensures StripTagsFrom(a + b, inTag) == StripTagsFrom(a, inTag) + StripTagsFrom(b, InTagAfter(a, inTag))
    decreases |a|
  {
    if |a| == 0 {
      assert a + b == b;
    } else {
      assert (a + b)[0] == a[0];
      assert (a + b)[1..] == a[1..] + b;
      var next := if a[0] == '<' then true else if a[0] == '>' then false else inTag;
      StripTagsAppend(a[1..], b, next);
    }
  }

  /** Inside a tag, everything up to and including the closing `>` is dropped. */
  lemma {:induction false} InsideTagDropped(mid: string, post: string)
    requires '>' !in mid
    ensures StripTagsFrom(mid + ['>'] + post, true) == StripTagsFrom(post, false)
    decreases |mid|
  {
    if |mid| == 0 {
      assert mid + ['>'] + post == ['>'] + post;
      assert (['>'] + post)[1..] == post;
    } else {
      assert (mid + ['>'] + post)[1..] == mid[1..] + ['>'] + post;
      assert mid[0] in mid;
      InsideTagDropped(mid[1..], post);
    }
  }

  /** A tag with no closing `>` swallows the rest of the input. */
  lemma {:induction false} UnclosedTagDropped(rest: string)
    requires '>' !in rest
    ensures StripTagsFrom(rest, true) == []
    decreases |rest|
  {
    if |rest| > 0 {
      assert rest[0] in rest;
      UnclosedTagDropped(rest[1..]);
    }
  }

  /** No character from a `<` up to the next `>` survives, brackets included. */
  lemma TagSpanRemoved(pre: string, mid: string, post: string)
    requires '>' !in mid
    ensures StripTags(pre + ['<'] + mid + ['>'] + post) == StripTags(pre) + StripTags(post)
  {
    var rest := ['<'] + mid + ['>'] + post;
    assert pre + ['<'] + mid + ['>'] + post == pre + rest;
    StripTagsAppend(pre, rest, false);
    assert rest[1..] == mid + ['>'] + post;
    InsideTagDropped(mid, post);
  }

  /** An unterminated `<` drops the whole rest of the input. */
  lemma UnterminatedTagDropsRest(pre: string, rest: string)
    requires '>' !in rest
    ensures StripTags(pre + ['<'] + rest) == StripTags(pre)
  {
    var tail := ['<'] + rest;
    assert pre + ['<'] + rest == pre + tail;
    StripTagsAppend(pre, tail, false);
    assert tail[1..] == rest;
    UnclosedTagDropped(rest);
  }

  /** Text without angle brackets passes through the scan unchanged. */
  lemma {:induction false} PlainTextKept(s: string)
    requires '<' !in s && '>' !in s
    ensures StripTags(s) == s
    decreases |s|
  {
    if |s| > 0 {
      assert s[0] in s;
      assert forall c :: c in s[1..] ==> c in s;
      PlainTextKept(s[1..]);
    }
  }

  // ---------------------------------------------------------------------
  // Stage 2: entity decoding
  // ---------------------------------------------------------------------

  /**
   The seven chained `replace` calls, in the order written. Each is a single
   left-to-right pass over the previous one's output, so decoding is not
   recursive: `&amp;lt;` becomes `<`, but `&amp;nbsp;` becomes `&nbsp;`.
   Decoding never lengthens the text, introduces only the replacement
   characters, and leaves text without `&` alone. None of `&lt;`, `&gt;`,
   `&quot;`, `&#39;` and `&apos;` is left in the result: each step removes
   its own entity and later steps insert only characters foreign to it.
   `&nbsp;` and `&amp;` can remain, because the `&amp;` step inserts `&`.
   */
  function DecodeEntities(text: string): (r: string)
    ensures |r| <= |text|
    ensures forall c :: c in r ==> c in text || c in " &<>\"'"
    ensures '&' !in text ==> r == text
    ensures !Contains(r, "&lt;") && !Contains(r, "&gt;") && !Contains(r, "&quot;")
    ensures !Contains(r, "&#39;") && !Contains(r, "&apos;")
  {
    var s1 := ReplaceAll(text, "&nbsp;", " ");
    var s2 := ReplaceAll(s1, "&amp;", "&");
    var s3 := ReplaceAll(s2, "&lt;", "<");
    var s4 := ReplaceAll(s3, "&gt;", ">");
    var s5 := ReplaceAll(s4, "&quot;", "\"");
    var s6 := ReplaceAll(s5, "&#39;", "'");
    var s7 := ReplaceAll(s6, "&apos;", "'");
    LtGtCleared(s2);
    QuotesCleared(s4);
    if '&' !in text then
      FirstCharAbsent(text, "&nbsp;");
      FirstCharAbsent(text, "&amp;");
      FirstCharAbsent(text, "&lt;");
      FirstCharAbsent(text, "&gt;");
      FirstCharAbsent(text, "&quot;");
      FirstCharAbsent(text, "&#39;");
      FirstCharAbsent(text, "&apos;");
      s7
    else
      s7
  }

  /** The `&lt;` and `&gt;` steps leave neither entity behind. */
  lemma LtGtCleared(s2: string)
    ensures var s4 := ReplaceAll(ReplaceAll(s2, "&lt;", "<"), "&gt;", ">");
      !Contains(s4, "&lt;") && !Contains(s4, "&gt;")
  {
    var s3 := ReplaceAll(s2, "&lt;", "<");
    ReplaceRemoves(s2, "&lt;", "<");
    ReplaceKeepsAbsent(s3, "&gt;", ">", "&lt;");
    ReplaceRemoves(s3, "&gt;", ">");
  }

  /**
   The three quote steps remove their own entities and, inserting only quote
   characters, keep `&lt;` and `&gt;` out.
   */
  lemma QuotesCleared(s4: string)
    requires !Contains(s4, "&lt;") && !Contains(s4, "&gt;")
    ensures var s7 := ReplaceAll(ReplaceAll(ReplaceAll(s4, "&quot;", "\""), "&#39;", "'"), "&apos;", "'");
      && !Contains(s7, "&lt;") && !Contains(s7, "&gt;") && !Contains(s7, "&quot;")
      && !Contains(s7, "&#39;") && !Contains(s7, "&apos;")
  {
    var s5 := ReplaceAll(s4, "&quot;", "\"");
    var s6 := ReplaceAll(s5, "&#39;", "'");
    ReplaceKeepsAbsent(s4, "&quot;", "\"", "&lt;");
    ReplaceKeepsAbsent(s4, "&quot;", "\"", "&gt;");
    ReplaceRemoves(s4, "&quot;", "\"");
    ApostropheStepsKeep(s5, "&lt;");
    ApostropheStepsKeep(s5, "&gt;");
    ApostropheStepsKeep(s5, "&quot;");
    ReplaceRemoves(s5, "&#39;", "'");
    ReplaceKeepsAbsent(s6, "&apos;", "'", "&#39;");
    ReplaceRemoves(s6, "&apos;", "'");
  }

  /** The two apostrophe steps never create an entity without an apostrophe. */
  lemma ApostropheStepsKeep(s5: string, p: string)
    requires Disjoint("'", p) && !Contains(s5, p)
    ensures !Contains(ReplaceAll(ReplaceAll(s5, "&#39;", "'"), "&apos;", "'"), p)
  {
    ReplaceKeepsAbsent(s5, "&#39;", "'", p);
    ReplaceKeepsAbsent(ReplaceAll(s5, "&#39;", "'"), "&apos;", "'", p);
  }

  /** Decoding is one pass: an escaped `&lt;` is decoded to `<`. */
  lemma DecodeEscapedLt()
    ensures DecodeEntities("&amp;lt;") == "<"
  {
    EscapedLtFirstSteps();
    ReplaceAtFront("&lt;", "", "<");
    assert "&lt;" == "&lt;" + "";
    ReplaceAbsent("<", "&gt;", ">");
    ReplaceAbsent("<", "&quot;", "\"");
    ReplaceAbsent("<", "&#39;", "'");
    ReplaceAbsent("<", "&apos;", "'");
  }

  /** The `&nbsp;` step passes over an escaped entity and the `&amp;` step unescapes it. */
  lemma EscapedLtFirstSteps()
    ensures ReplaceAll(ReplaceAll("&amp;lt;", "&nbsp;", " "), "&amp;", "&") == "&lt;"
  {
    assert "&amp;lt;" == "&amp;" + "lt;";
    assert '&' !in "lt;";
    EscapedSkipsNbsp("lt;");
    EscapedAmpDecoded("lt;");
    assert "&" + "lt;" == "&lt;";
  }

  /** The `&nbsp;` step leaves `&amp;` followed by text without `&` alone. */
  lemma EscapedSkipsNbsp(t: string)
    requires '&' !in t
    ensures ReplaceAll("&amp;" + t, "&nbsp;", " ") == "&amp;" + t
  {
    var rest := "amp;" + t;
    assert "&amp;" + t == ['&'] + rest;
    assert !IsPrefix("&nbsp;", ['&'] + rest) by {
      assert (['&'] + rest)[1] == 'a';
    }
    ReplaceCopiesHead('&', rest, "&nbsp;", " ");
    assert '&' !in rest;
    ReplaceAbsent(rest, "&nbsp;", " ");
  }

  /** The `&amp;` step turns `&amp;` followed by text without `&` into `&` and that text. */
  lemma EscapedAmpDecoded(t: string)
    requires '&' !in t
    ensures ReplaceAll("&amp;" + t, "&amp;", "&") == "&" + t
  {
    ReplaceAtFront("&amp;", t, "&");
    ReplaceAbsent(t, "&amp;", "&");
  }

  /**
   Decoding is one pass: an escaped `&nbsp;` comes out as the literal text
   `&nbsp;`, because the `&nbsp;` step ran before `&amp;` produced it.
   */
  lemma DecodeEscapedNbsp()
    ensures DecodeEntities("&amp;nbsp;") == "&nbsp;"
  {
    EscapedNbspFirstSteps();
    NbspTextSurvives("&lt;", "<");
    NbspTextSurvives("&gt;", ">");
    NbspTextSurvives("&quot;", "\"");
    NbspTextSurvives("&#39;", "'");
    NbspTextSurvives("&apos;", "'");
  }

  lemma EscapedNbspFirstSteps()
    ensures ReplaceAll(ReplaceAll("&amp;nbsp;", "&nbsp;", " "), "&amp;", "&") == "&nbsp;"
  {
    NbspSpelling();
    EscapedSkipsNbsp("nbsp;");
    EscapedAmpDecoded("nbsp;");
  }

  lemma NbspSpelling()
    ensures "&amp;nbsp;" == "&amp;" + "nbsp;"
    ensures "&" + "nbsp;" == "&nbsp;"
    ensures '&' !in "nbsp;"
    ensures "&nbsp;" == ['&'] + "nbsp;"
  {
  }

  /** The text `&nbsp;` is left alone by every step after the first. */
  lemma NbspTextSurvives(pat: string, rep: string)
    requires |pat| > 1 && pat[0] == '&' && pat[1] != 'n'
    ensures ReplaceAll("&nbsp;", pat, rep) == "&nbsp;"
  {
    NbspSpelling();
    var t := ['&'] + "nbsp;";
    assert !IsPrefix(pat, t) by {
      if |pat| <= |t| {
        assert t[..|pat|][1] == t[1] == 'n';
      }
    }
    ReplaceCopiesHead('&', "nbsp;", pat, rep);
    ReplaceAbsent("nbsp;", pat, rep);
  }

  // ---------------------------------------------------------------------
  // Stage 3: whitespace collapse
  // ---------------------------------------------------------------------

  /** The two collapse rules found in the repository. */
  datatype Mode =
    | CollapseAll   // quick search window: newlines collapse like any whitespace
    | KeepNewlines  // command line: `\n` is never dropped and ends a run

  /** Characters the collapse filter treats as part of a whitespace run. */
  predicate InRun(mode: Mode, c: char) {
    IsWhitespace(c) && (mode.CollapseAll? || c != '\n')
  }

  /** No two adjacent characters both belong to a run. */
  predicate NoAdjacentRun(mode: Mode, s: string) {
    forall i :: 0 <= i < |s| - 1 ==> !(InRun(mode, s[i]) && InRun(mode, s[i + 1]))
  }

  /** The characters outside runs, in order. */
  function Kept(mode: Mode, s: string): string
    decreases |s|
  {
    if |s| == 0 then []
    else if InRun(mode, s[0]) then Kept(mode, s[1..])
    else [s[0]] + Kept(mode, s[1..])
  }

  /**
   The collapse filter with its `prev_space` flag: a run character is dropped
   when the previous character was one, otherwise kept unchanged. The result
   has no two adjacent run characters and keeps every other character, in
   order.
   */
  function CollapseFrom(mode: Mode, s: string, prevInRun: bool): (r: string)
    ensures NoAdjacentRun(mode, r)
    ensures prevInRun && |r| > 0 ==> !InRun(mode, r[0])
    ensures Kept(mode, r) == Kept(mode, s)
    ensures forall c :: c in r ==> c in s
    ensures |r| <= |s|
    decreases |s|
  {
    if |s| == 0 then []
    else
      var tail := CollapseFrom(mode, s[1..], InRun(mode, s[0]));
      assert forall c :: c in s[1..] ==> c in s;
      if InRun(mode, s[0]) && prevInRun then tail
      else
        var r := [s[0]] + tail;
        assert r[1..] == tail;
        r
  }

  /** The collapse stage as `strip_html` runs it. */
  function Collapse(mode: Mode, s: string): string {
    CollapseFrom(mode, s, false)
  }

  /** After a run character, a run is skipped whole. */
  lemma {:induction false} RunSkipped(mode: Mode, run: string, t: string)
    requires forall i :: 0 <= i < |run| ==> InRun(mode, run[i])
    ensures CollapseFrom(mode, run + t, true) == CollapseFrom(mode, t, true)
    decreases |run|
  {
    if |run| == 0 {
      assert run + t == t;
    } else {
      assert (run + t)[0] == run[0];
      assert (run + t)[1..] == run[1..] + t;
      RunSkipped(mode, run[1..], t);
    }
  }

  /** A whitespace run collapses to its first character, unchanged. */
  lemma RunKeepsFirst(mode: Mode, w: char, run: string, t: string)
    requires InRun(mode, w)
    requires forall i :: 0 <= i < |run| ==> InRun(mode, run[i])
    requires |t| == 0 || !InRun(mode, t[0])
    ensures Collapse(mode, [w] + run + t) == [w] + Collapse(mode, t)
  {
    var s := [w] + run + t;
    assert s[0] == w;
    assert s[1..] == run + t;
    RunSkipped(mode, run, t);
  }

  /** Text with no adjacent run characters is left as it is. */
  lemma {:induction false} CollapseFixedPoint(mode: Mode, s: string, prevInRun: bool)
    requires NoAdjacentRun(mode, s)
    requires prevInRun && |s| > 0 ==> !InRun(mode, s[0])
    ensures CollapseFrom(mode, s, prevInRun) == s
    decreases |s|
  {
    if |s| > 0 {
      assert NoAdjacentRun(mode, s[1..]) by {
        assert forall i :: 0 <= i < |s| - 1 ==> s[1..][i] == s[i + 1];
      }
      if |s| > 1 {
        assert !(InRun(mode, s[0]) && InRun(mode, s[1]));
        assert s[1..][0] == s[1];
      }
      CollapseFixedPoint(mode, s[1..], InRun(mode, s[0]));
      assert s == [s[0]] + s[1..];
    }
  }

  /** Collapsing twice is the same as collapsing once. */
  lemma CollapseIdempotent(mode: Mode, s: string)
    ensures Collapse(mode, Collapse(mode, s)) == Collapse(mode, s)
  {
    CollapseFixedPoint(mode, Collapse(mode, s), false);
  }

  /** In the command-line mode every newline is one of the kept characters. */
  lemma {:induction false} KeptHoldsNewlines(s: string)
    ensures multiset(Kept(KeepNewlines, s))['\n'] == multiset(s)['\n']
    decreases |s|
  {
    if |s| > 0 {
      assert s == [s[0]] + s[1..];
      KeptHoldsNewlines(s[1..]);
    }
  }

  /** The command-line collapse never drops a newline. */
  lemma CollapseKeepsNewlines(s: string)
    ensures multiset(Collapse(KeepNewlines, s))['\n'] == multiset(s)['\n']
  {
    KeptHoldsNewlines(s);
    KeptHoldsNewlines(Collapse(KeepNewlines, s));
  }

  /** One step of the filter. */
  lemma CollapseStep(mode: Mode, c: char, t: string, prevInRun: bool)
    ensures CollapseFrom(mode, [c] + t, prevInRun)
      == if InRun(mode, c) && prevInRun then CollapseFrom(mode, t, true)
         else [c] + CollapseFrom(mode, t, InRun(mode, c))
  {
    assert ([c] + t)[1..] == t;
  }

  /**
   A newline ends a run in the command-line variant, so the spaces on both
   sides of it survive; the quick-search variant folds it into one run.
   */
  lemma NewlineEndsRun(a: char, b: char)
    requires !IsWhitespace(a) && !IsWhitespace(b)
    ensures Collapse(KeepNewlines, [a, ' ', '\n', ' ', ' ', b]) == [a, ' ', '\n', ' ', b]
    ensures Collapse(CollapseAll, [a, ' ', '\n', ' ', ' ', b]) == [a, ' ', b]
  {
    NewlineEndsRunKeep(a, b);
    NewlineFoldedAll(a, b);
  }

  lemma NewlineEndsRunKeep(a: char, b: char)
    requires !IsWhitespace(a) && !IsWhitespace(b)
    ensures Collapse(KeepNewlines, [a, ' ', '\n', ' ', ' ', b]) == [a, ' ', '\n', ' ', b]
  {
    var m := KeepNewlines;
    SecondRunKept(b);
    CollapseStep(m, '\n', [' ', ' ', b], true);
    assert ['\n', ' ', ' ', b] == ['\n'] + [' ', ' ', b];
    CollapseStep(m, ' ', ['\n', ' ', ' ', b], false);
    assert [' ', '\n', ' ', ' ', b] == [' '] + ['\n', ' ', ' ', b];
    CollapseStep(m, a, [' ', '\n', ' ', ' ', b], false);
    assert [a, ' ', '\n', ' ', ' ', b] == [a] + [' ', '\n', ' ', ' ', b];
  }

  /** After a newline, the run `  b` keeps one space. */
  lemma SecondRunKept(b: char)
    requires !IsWhitespace(b)
    ensures CollapseFrom(KeepNewlines, [' ', ' ', b], false) == [' ', b]
  {
    var m := KeepNewlines;
    CollapseStep(m, b, [], true);
    CollapseStep(m, ' ', [b], true);
    CollapseStep(m, ' ', [' ', b], false);
    assert [' ', ' ', b] == [' '] + [' ', b];
  }

  lemma NewlineFoldedAll(a: char, b: char)
    requires !IsWhitespace(a) && !IsWhitespace(b)
    ensures Collapse(CollapseAll, [a, ' ', '\n', ' ', ' ', b]) == [a, ' ', b]
  {
    var m := CollapseAll;
    FoldedRun(b);
    CollapseStep(m, ' ', ['\n', ' ', ' ', b], false);
    assert [' ', '\n', ' ', ' ', b] == [' '] + ['\n', ' ', ' ', b];
    CollapseStep(m, a, [' ', '\n', ' ', ' ', b], false);
    assert [a, ' ', '\n', ' ', ' ', b] == [a] + [' ', '\n', ' ', ' ', b];
  }

  /** In the quick-search variant the newline and the spaces after it join the run. */
  lemma FoldedRun(b: char)
    requires !IsWhitespace(b)
    ensures CollapseFrom(CollapseAll, ['\n', ' ', ' ', b], true) == [b]
  {
    var run := ['\n', ' ', ' '];
    RunSkipped(CollapseAll, run, [b]);
    CollapseStep(CollapseAll, b, [], true);
    assert ['\n', ' ', ' ', b] == run + [b];
  }

  // ---------------------------------------------------------------------
  // The whole normaliser
  // ---------------------------------------------------------------------

  /**
   `strip_html`: strip tags, decode entities, collapse whitespace, trim. The
   result neither starts nor ends with whitespace, has no two adjacent run
   characters, is never longer than the markup, and can contain `<` or `>`
   only when the markup held an `&` (a decoded `&lt;` or `&gt;`). Apart
   from whitespace it is exactly the decoded text outside the tags: the
   collapse and the trim drop whitespace and nothing else.
   */
  function StripHtml(mode: Mode, html: string): (r: string)
    ensures NonWhitespace(r) == NonWhitespace(DecodeEntities(StripTags(html)))
    ensures |r| == 0 || (!IsWhitespace(r[0]) && !IsWhitespace(r[|r| - 1]))
    ensures NoAdjacentRun(mode, r)
    ensures ('<' in r || '>' in r) ==> '&' in html
    ensures |r| <= |html|
  {
    var decoded := DecodeEntities(StripTags(html));
    var collapsed := Collapse(mode, decoded);
    TrimKeepsShape(mode, collapsed);
    CollapseKeepsText(mode, decoded, false);
    TrimKeepsText(collapsed);
    Trim(collapsed)
  }

  /** Markup with no `<`, `>` or `&` keeps all of its text; only whitespace changes. */
  lemma PlainTextNormalised(mode: Mode, s: string)
    requires '<' !in s && '>' !in s && '&' !in s
    ensures NonWhitespace(StripHtml(mode, s)) == NonWhitespace(s)
  {
    PlainTextKept(s);
  }

  /**
   Plain text already in normal form — no markup characters, no two
   adjacent run characters, no whitespace at either end — comes back
   unchanged: the single spaces between words are kept.
   */
  lemma PlainTextFixed(mode: Mode, s: string)
    requires '<' !in s && '>' !in s && '&' !in s
    requires NoAdjacentRun(mode, s)
    requires |s| == 0 || (!IsWhitespace(s[0]) && !IsWhitespace(s[|s| - 1]))
    ensures StripHtml(mode, s) == s
  {
    PlainTextKept(s);
    CollapseFixedPoint(mode, s, false);
    TrimTrimmed(s);
  }

  /** The collapse drops run characters only, which are all whitespace. */
  lemma {:induction false} CollapseKeepsText(mode: Mode, s: string, prevInRun: bool)
    ensures NonWhitespace(CollapseFrom(mode, s, prevInRun)) == NonWhitespace(s)
    decreases |s|
  {
    if |s| > 0 {
      var tail := CollapseFrom(mode, s[1..], InRun(mode, s[0]));
      CollapseKeepsText(mode, s[1..], InRun(mode, s[0]));
      if !(InRun(mode, s[0]) && prevInRun) {
        var r := [s[0]] + tail;
        assert r[0] == s[0] && r[1..] == tail;
      }
    }
  }

  /** Trimming keeps the no-adjacent-run shape and adds no character. */
  lemma TrimKeepsShape(mode: Mode, s: string)
    requires NoAdjacentRun(mode, s)
    ensures NoAdjacentRun(mode, Trim(s))
    ensures forall c :: c in Trim(s) ==> c in s
  {
    var r := Trim(s);
    var i := LeadingWhitespace(s);
    assert forall k :: 0 <= k < |r| ==> r[k] == s[i + k];
  }

  /** The normalised text of `<p>A&nbsp;&nbsp;B</p>` is `A B`, in both modes. */
  lemma NbspExample(mode: Mode)
    ensures StripHtml(mode, "<p>A&nbsp;&nbsp;B</p>") == "A B"
  {
    NbspExampleTags();
    NbspExampleDecode();
    NbspExampleCollapse(mode);
    NbspExampleTrim();
  }

  lemma NbspExampleTags()
    ensures StripTags("<p>A&nbsp;&nbsp;B</p>") == "A&nbsp;&nbsp;B"
  {
    NbspExampleOpenTag();
    NbspExampleCloseTag();
  }

  lemma NbspExampleOpenTag()
    ensures StripTags("<p>A&nbsp;&nbsp;B</p>") == StripTags("A&nbsp;&nbsp;B</p>")
  {
    var post := "A&nbsp;&nbsp;B</p>";
    assert "<p>A&nbsp;&nbsp;B</p>" == "" + ['<'] + "p" + ['>'] + post;
    TagSpanRemoved("", "p", post);
  }

  lemma NbspExampleCloseTag()
    ensures StripTags("A&nbsp;&nbsp;B</p>") == "A&nbsp;&nbsp;B"
  {
    assert "A&nbsp;&nbsp;B</p>" == "A&nbsp;&nbsp;B" + ['<'] + "/p" + ['>'] + "";
    TagSpanRemoved("A&nbsp;&nbsp;B", "/p", "");
    PlainTextKept("A&nbsp;&nbsp;B");
  }

  lemma NbspExampleDecode()
    ensures DecodeEntities("A&nbsp;&nbsp;B") == "A  B"
  {
    NbspExampleNbspStep();
    ReplaceAbsent("A  B", "&amp;", "&");
    ReplaceAbsent("A  B", "&lt;", "<");
    ReplaceAbsent("A  B", "&gt;", ">");
    ReplaceAbsent("A  B", "&quot;", "\"");
    ReplaceAbsent("A  B", "&#39;", "'");
    ReplaceAbsent("A  B", "&apos;", "'");
  }

  lemma NbspExampleNbspStep()
    ensures ReplaceAll("A&nbsp;&nbsp;B", "&nbsp;", " ") == "A  B"
  {
    assert "A&nbsp;&nbsp;B" == ['A'] + ("&nbsp;" + ("&nbsp;" + "B"));
    ReplaceCopiesHead('A', "&nbsp;" + ("&nbsp;" + "B"), "&nbsp;", " ");
    ReplaceAtFront("&nbsp;", "&nbsp;" + "B", " ");
    ReplaceAtFront("&nbsp;", "B", " ");
    ReplaceAbsent("B", "&nbsp;", " ");
  }

  lemma NbspExampleCollapse(mode: Mode)
    ensures Collapse(mode, "A  B") == "A B"
  {
    CollapseStep(mode, 'B', [], true);
    CollapseStep(mode, ' ', ['B'], true);
    CollapseStep(mode, ' ', [' ', 'B'], false);
    CollapseStep(mode, 'A', [' ', ' ', 'B'], false);
    assert [' ', 'B'] == [' '] + ['B'];
    assert [' ', ' ', 'B'] == [' '] + [' ', 'B'];
    assert "A  B" == ['A'] + [' ', ' ', 'B'];
    assert "A B" == ['A'] + [' '] + ['B'] + [];
  }

  lemma NbspExampleTrim()
    ensures Trim("A B") == "A B"
  {
    assert LeadingWhitespace("A B") == 0;
    assert TrailingWhitespaceStart("A B") == 3;
  }

  /** A decoded `&lt;` is not a tag any more: the output may hold `<`. */
  lemma DecodedBracketSurvives(mode: Mode)
    ensures StripHtml(mode, "&lt;") == "<"
  {
    PlainTextKept("&lt;");
    EscapedBracketDecode();
    assert Collapse(mode, "<") == "<";
    assert LeadingWhitespace("<") == 0;
    assert TrailingWhitespaceStart("<") == 1;
  }

  lemma EscapedBracketDecode()
    ensures DecodeEntities("&lt;") == "<"
  {
    assert "&lt;" == ['&'] + "lt;";
    ReplaceCopiesHead('&', "lt;", "&nbsp;", " ");
    ReplaceAbsent("lt;", "&nbsp;", " ");
    ReplaceCopiesHead('&', "lt;", "&amp;", "&");
    ReplaceAbsent("lt;", "&amp;", "&");
    assert "&lt;" == "&lt;" + "";
    ReplaceAtFront("&lt;", "", "<");
    ReplaceAbsent("<", "&gt;", ">");
    ReplaceAbsent("<", "&quot;", "\"");
    ReplaceAbsent("<", "&#39;", "'");
    ReplaceAbsent("<", "&apos;", "'");
  }
}
