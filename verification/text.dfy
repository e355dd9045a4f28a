/**
 Character and string primitives of the Rust standard library that the note
 retrieval code relies on: `char::is_whitespace`, ASCII lower-casing,
 `str::contains`, `str::replace`, `split_whitespace`, `join`, `trim`,
 `ends_with`, and the UTF-8 byte length behind `str::len` and `&s[..n]`.
 */
module Text {
  import opened Wrappers

  /** Rust's `char::is_whitespace`: the Unicode White_Space property. */
  predicate IsWhitespace(c: char) {
    || c == ' '
    || ('\t' <= c <= '\r')
    || c == '\U{85}'
    || c == '\U{A0}'
    || c == '\U{1680}'
    || ('\U{2000}' <= c <= '\U{200A}')
    || c == '\U{2028}'
    || c == '\U{2029}'
    || c == '\U{202F}'
    || c == '\U{205F}'
    || c == '\U{3000}'
  }

  predicate AllWhitespace(s: string) {
    forall i :: 0 <= i < |s| ==> IsWhitespace(s[i])
  }

  predicate NoWhitespace(s: string) {
    forall i :: 0 <= i < |s| ==> !IsWhitespace(s[i])
  }

  /** The non-whitespace characters of `s`, in order. */
  function NonWhitespace(s: string): string {
    if |s| == 0 then []
    else if IsWhitespace(s[0]) then NonWhitespace(s[1..])
    else [s[0]] + NonWhitespace(s[1..])
  }

  lemma NonWhitespaceAppend(a: string, b: string)
    ensures NonWhitespace(a + b) == NonWhitespace(a) + NonWhitespace(b)
  {
    if |a| > 0 {
      assert (a + b)[1..] == a[1..] + b;
      NonWhitespaceAppend(a[1..], b);
    } else {
      assert a + b == b;
    }
  }

  lemma NonWhitespaceOfWhitespace(s: string)
    requires AllWhitespace(s)
    ensures NonWhitespace(s) == []
  {
    if |s| > 0 {
      NonWhitespaceOfWhitespace(s[1..]);
    }
  }

  lemma NonWhitespaceOfWord(s: string)
    requires NoWhitespace(s)
    ensures NonWhitespace(s) == s
  {
    if |s| > 0 {
      NonWhitespaceOfWord(s[1..]);
    }
  }

  /** Lower-casing of one character; only ASCII letters change. */
  function LowerChar(c: char): char {
    if 'A' <= c <= 'Z' then (c as int + 32) as char else c
  }

  /** `str::to_lowercase`, restricted to ASCII case mapping. */
  function Lower(s: string): (r: string)
    ensures |r| == |s|
    ensures forall i :: 0 <= i < |s| ==> r[i] == LowerChar(s[i])
  {
    seq(|s|, i requires 0 <= i < |s| => LowerChar(s[i]))
  }

  predicate IsPrefix(p: string, s: string) {
    |p| <= |s| && s[..|p|] == p
  }

  predicate EndsWith(s: string, suffix: string) {
    |suffix| <= |s| && s[|s| - |suffix|..] == suffix
  }

  /** `needle` occurs in `hay` starting at index `i`. */
  ghost predicate OccursAt(hay: string, needle: string, i: int) {
    0 <= i && i + |needle| <= |hay| && hay[i..i + |needle|] == needle
  }

  /** `str::contains` with a string pattern, as a left-to-right scan. */
  predicate Contains(hay: string, needle: string)
    decreases |hay|
  {
    IsPrefix(needle, hay) || (|hay| > 0 && Contains(hay[1..], needle))
  }

  /** The scan finds `needle` exactly when it occurs at some index. */
  lemma ContainsIff(hay: string, needle: string)
    ensures Contains(hay, needle) <==> exists i :: OccursAt(hay, needle, i)
  {
    if Contains(hay, needle) {
      var i := ContainsAt(hay, needle);
    }
    if exists i :: OccursAt(hay, needle, i) {
      var i :| OccursAt(hay, needle, i);
      OccursContains(hay, needle, i);
    }
  }

  /** A successful scan stops at an occurrence. */
  lemma {:induction false} ContainsAt(hay: string, needle: string) returns (i: int)
    requires Contains(hay, needle)
    ensures OccursAt(hay, needle, i)
    decreases |hay|
  {
    if IsPrefix(needle, hay) {
      i := 0;
    } else {
      var j := ContainsAt(hay[1..], needle);
      assert hay[1..][j..j + |needle|] == hay[j + 1..j + 1 + |needle|];
      i := j + 1;
    }
  }

  /** An occurrence anywhere is found by the scan. */
  lemma {:induction false} OccursContains(hay: string, needle: string, i: int)
    requires OccursAt(hay, needle, i)
    ensures Contains(hay, needle)
    decreases i
  {
    if i > 0 {
      assert hay[1..][i - 1..i - 1 + |needle|] == hay[i..i + |needle|];
      OccursContains(hay[1..], needle, i - 1);
    } else {
      assert IsPrefix(needle, hay);
    }
  }

  /**
   `str::replace(pat, rep)`: every non-overlapping occurrence of `pat`,
   found left to right, is replaced by `rep` in a single pass.
   */
  function ReplaceAll(s: string, pat: string, rep: string): (r: string)
    requires |pat| > 0
    ensures |rep| <= |pat| ==> |r| <= |s|
    ensures forall c :: c in r ==> c in s || c in rep
    ensures !Contains(s, pat) ==> r == s
    decreases |s|
  {
    if |s| == 0 then []
    else if IsPrefix(pat, s) then rep + ReplaceAll(s[|pat|..], pat, rep)
    else
      var tail := ReplaceAll(s[1..], pat, rep);
      assert forall c :: c in s[1..] ==> c in s;
      [s[0]] + tail
  }

  /** `s` with every occurrence of the character `c` dropped: a filter, independent of `ReplaceAll`. */
  function DropChar(s: string, c: char): (r: string)
    ensures forall x :: x in r ==> x in s && x != c
  {
    if |s| == 0 then []
    else
      assert forall x :: x in s[1..] ==> x in s;
      (if s[0] == c then [] else [s[0]]) + DropChar(s[1..], c)
  }

  /** Replacing a one-character pattern by nothing is the filter that drops it. */
  lemma {:induction false} ReplaceCharByNothing(s: string, c: char)
    ensures ReplaceAll(s, [c], "") == DropChar(s, c)
    decreases |s|
  {
    if |s| > 0 {
      assert IsPrefix([c], s) <==> s[0] == c by {
        assert s[..1] == [s[0]];
      }
      ReplaceCharByNothing(s[1..], c);
    }
  }

  /** Dropping a character distributes over concatenation. */
  lemma {:induction false} DropCharAppend(a: string, b: string, c: char)
    ensures DropChar(a + b, c) == DropChar(a, c) + DropChar(b, c)
    decreases |a|
  {
    if |a| == 0 {
      assert a + b == b;
    } else {
      assert (a + b)[0] == a[0];
      assert (a + b)[1..] == a[1..] + b;
      DropCharAppend(a[1..], b, c);
    }
  }

  /** `s` with every `c` changed to `d`, position by position: a map, independent of `ReplaceAll`. */
  function SwapChar(s: string, c: char, d: char): (r: string)
    ensures |r| == |s|
    ensures forall i :: 0 <= i < |s| ==> r[i] == if s[i] == c then d else s[i]
  {
    seq(|s|, i requires 0 <= i < |s| => if s[i] == c then d else s[i])
  }

  /** Replacing a one-character pattern by one character is the position-wise swap. */
  lemma {:induction false} ReplaceCharByChar(s: string, c: char, d: char)
    ensures ReplaceAll(s, [c], [d]) == SwapChar(s, c, d)
    decreases |s|
  {
    if |s| > 0 {
      assert IsPrefix([c], s) <==> s[0] == c by {
        assert s[..1] == [s[0]];
      }
      ReplaceCharByChar(s[1..], c, d);
      assert SwapChar(s, c, d) == [if s[0] == c then d else s[0]] + SwapChar(s[1..], c, d);
    }
  }

  /** Text without the character is left as it is. */
  lemma {:induction false} DropCharAbsent(s: string, c: char)
    requires c !in s
    ensures DropChar(s, c) == s
    decreases |s|
  {
    if |s| > 0 {
      assert s[0] in s;
      assert forall x :: x in s[1..] ==> x in s;
      DropCharAbsent(s[1..], c);
    }
  }

  /** Characters of `a`, none of which occurs in `p`. */
  predicate Disjoint(a: string, p: string) {
    forall i :: 0 <= i < |a| ==> a[i] !in p
  }

  /** An occurrence in a suffix is an occurrence in the whole text. */
  lemma {:induction false} ContainsSuffix(s: string, k: nat, p: string)
    requires k <= |s| && Contains(s[k..], p)
    ensures Contains(s, p)
    decreases k
  {
    if k > 0 {
      assert s[1..][k - 1..] == s[k..];
      ContainsSuffix(s[1..], k - 1, p);
    } else {
      assert s[0..] == s;
    }
  }

  /** Text whose characters are all foreign to `p` cannot start an occurrence of it. */
  lemma {:induction false} PrependKeepsAbsent(a: string, x: string, p: string)
    requires |p| > 0 && Disjoint(a, p) && !Contains(x, p)
    ensures !Contains(a + x, p)
    decreases |a|
  {
    if |a| == 0 {
      assert a + x == x;
    } else {
      assert p[0] in p;
      assert (a + x)[0] == a[0];
      assert Disjoint(a[1..], p) by {
        assert forall i :: 0 <= i < |a| - 1 ==> a[1..][i] == a[i + 1];
      }
      assert (a + x)[1..] == a[1..] + x;
      PrependKeepsAbsent(a[1..], x, p);
    }
  }

  /**
   A prefix of the replaced text that shares no character with the
   replacement was already a prefix of the original: the scan only copies
   characters outside occurrences.
   */
  lemma {:induction false} PrefixOfReplaced(t: string, pat: string, rep: string, q: string)
    requires |pat| > 0 && |rep| > 0 && Disjoint(q, rep)
    requires IsPrefix(q, ReplaceAll(t, pat, rep))
    ensures IsPrefix(q, t)
    decreases |t|
  {
    var r := ReplaceAll(t, pat, rep);
    assert |t| > 0 && IsPrefix(pat, t) ==> |r| > 0 && r[0] == rep[0] && rep[0] in rep;
    if |q| > 0 && |t| > 0 && !IsPrefix(pat, t) {
      var tail := ReplaceAll(t[1..], pat, rep);
      assert r == [t[0]] + tail;
      assert IsPrefix(q[1..], tail) by {
        assert tail[..|q| - 1] == r[1..|q|];
      }
      assert Disjoint(q[1..], rep) by {
        assert forall i :: 0 <= i < |q| - 1 ==> q[1..][i] == q[i + 1];
      }
      PrefixOfReplaced(t[1..], pat, rep, q[1..]);
      assert q == [q[0]] + q[1..];
      assert t[..|q|] == [t[0]] + t[1..][..|q| - 1];
    }
  }

  /**
   When the replacement is non-empty and shares no character with the
   pattern, no occurrence of the pattern is left after the replace.
   */
  lemma {:induction false} ReplaceRemoves(s: string, pat: string, rep: string)
    requires |pat| > 0 && |rep| > 0 && Disjoint(rep, pat)
    ensures !Contains(ReplaceAll(s, pat, rep), pat)
    decreases |s|
  {
    if |s| > 0 {
      if IsPrefix(pat, s) {
        ReplaceRemoves(s[|pat|..], pat, rep);
        PrependKeepsAbsent(rep, ReplaceAll(s[|pat|..], pat, rep), pat);
      } else {
        var tail := ReplaceAll(s[1..], pat, rep);
        ReplaceRemoves(s[1..], pat, rep);
        CopiedHeadPrefix(s, pat, rep, pat);
        assert ([s[0]] + tail)[1..] == tail;
      }
    }
  }

  /**
   An occurrence of `p` at the front of the replaced text, where the first
   character was copied, was already at the front of the original.
   */
  lemma CopiedHeadPrefix(s: string, pat: string, rep: string, p: string)
    requires |s| > 0 && |pat| > 0 && |rep| > 0 && Disjoint(rep, p)
    requires !IsPrefix(pat, s)
    ensures IsPrefix(p, [s[0]] + ReplaceAll(s[1..], pat, rep)) ==> IsPrefix(p, s)
  {
    var tail := ReplaceAll(s[1..], pat, rep);
    var r := [s[0]] + tail;
    if |p| > 0 && IsPrefix(p, r) {
      assert IsPrefix(p[1..], tail) by {
        assert tail[..|p| - 1] == r[1..|p|];
      }
      assert Disjoint(p[1..], rep) by {
        forall i | 0 <= i < |p| - 1
          ensures p[1..][i] !in rep
        {
          assert p[1..][i] == p[i + 1] && p[i + 1] in p;
        }
      }
      PrefixOfReplaced(s[1..], pat, rep, p[1..]);
      assert p == [p[0]] + p[1..];
      assert s[..|p|] == [s[0]] + s[1..][..|p| - 1];
    }
  }

  /**
   A replace whose non-empty replacement shares no character with `p` never
   creates an occurrence of `p`.
   */
  lemma {:induction false} ReplaceKeepsAbsent(s: string, pat: string, rep: string, p: string)
    requires |pat| > 0 && |rep| > 0 && Disjoint(rep, p)
    requires !Contains(s, p)
    ensures !Contains(ReplaceAll(s, pat, rep), p)
    decreases |s|
  {
    if |s| > 0 {
      assert Contains(s[1..], p) ==> Contains(s, p);
      if IsPrefix(pat, s) {
        if Contains(s[|pat|..], p) {
          ContainsSuffix(s, |pat|, p);
        }
        ReplaceKeepsAbsent(s[|pat|..], pat, rep, p);
        PrependKeepsAbsent(rep, ReplaceAll(s[|pat|..], pat, rep), p);
      } else {
        var tail := ReplaceAll(s[1..], pat, rep);
        ReplaceKeepsAbsent(s[1..], pat, rep, p);
        CopiedHeadPrefix(s, pat, rep, p);
        assert ([s[0]] + tail)[1..] == tail;
      }
    }
  }

  /** A pattern whose first character is absent from `s` does not occur in it. */
  lemma {:induction false} FirstCharAbsent(s: string, pat: string)
    requires |pat| > 0 && pat[0] !in s
    ensures !Contains(s, pat)
    decreases |s|
  {
    if |s| > 0 {
      assert s[0] in s;
      assert forall c :: c in s[1..] ==> c in s;
      FirstCharAbsent(s[1..], pat);
    }
  }

  /** An occurrence at the front is replaced and the scan resumes after it. */
  lemma ReplaceAtFront(pat: string, t: string, rep: string)
    requires |pat| > 0
    ensures ReplaceAll(pat + t, pat, rep) == rep + ReplaceAll(t, pat, rep)
  {
    assert (pat + t)[..|pat|] == pat;
    assert (pat + t)[|pat|..] == t;
  }

  /** A character that does not start an occurrence is copied. */
  lemma ReplaceCopiesHead(c: char, t: string, pat: string, rep: string)
    requires |pat| > 0 && (c != pat[0] || !IsPrefix(pat, [c] + t))
    ensures ReplaceAll([c] + t, pat, rep) == [c] + ReplaceAll(t, pat, rep)
  {
    assert ([c] + t)[1..] == t;
  }

  /** Text without the pattern's first character is left unchanged. */
  lemma ReplaceAbsent(s: string, pat: string, rep: string)
    requires |pat| > 0 && pat[0] !in s
    ensures ReplaceAll(s, pat, rep) == s
  {
    FirstCharAbsent(s, pat);
  }

  /** Replacing a one-character pattern by text without it removes that character. */
  lemma {:induction false} ReplaceRemovesChar(s: string, c: char, rep: string)
    requires c !in rep
    ensures c !in ReplaceAll(s, [c], rep)
    decreases |s|
  {
    if |s| > 0 {
      if IsPrefix([c], s) {
        ReplaceRemovesChar(s[1..], c, rep);
      } else {
        assert s[..1] == [s[0]];
        ReplaceRemovesChar(s[1..], c, rep);
      }
    }
  }

  /** `slice.join(sep)`. */
  function Join(parts: seq<string>, sep: string): string {
    if |parts| == 0 then []
    else if |parts| == 1 then parts[0]
    else parts[0] + sep + Join(parts[1..], sep)
  }

  /** The concatenation of `parts` with no separator. */
  function Concat(parts: seq<string>): string {
    if |parts| == 0 then [] else parts[0] + Concat(parts[1..])
  }

  /** Length of the leading run of non-whitespace characters. */
  function WordLength(s: string): (n: nat)
    ensures n <= |s|
    ensures NoWhitespace(s[..n])
    ensures n == |s| || IsWhitespace(s[n])
  {
    if |s| == 0 || IsWhitespace(s[0]) then 0
    else
      var n := 1 + WordLength(s[1..]);
      assert forall i :: 1 <= i < n ==> s[..n][i] == s[1..][..n - 1][i - 1];
      n
  }

  /**
   `str::split_whitespace`: the maximal runs of non-whitespace characters,
   in order; every word is non-empty and whitespace-free, and together they
   hold exactly the non-whitespace characters of the input.
   */
  function SplitWhitespace(s: string): (words: seq<string>)
    ensures forall k :: 0 <= k < |words| ==> |words[k]| > 0 && NoWhitespace(words[k])
    ensures Concat(words) == NonWhitespace(s)
    decreases |s|
  {
    if |s| == 0 then []
    else if IsWhitespace(s[0]) then
      assert s == [s[0]] + s[1..];
      NonWhitespaceAppend([s[0]], s[1..]);
      SplitWhitespace(s[1..])
    else
      var n := WordLength(s);
      var rest := SplitWhitespace(s[n..]);
      assert s == s[..n] + s[n..];
      NonWhitespaceAppend(s[..n], s[n..]);
      NonWhitespaceOfWord(s[..n]);
      assert ([s[..n]] + rest)[1..] == rest;
      [s[..n]] + rest
  }

  /** The input has no words exactly when it is all whitespace. */
  lemma {:induction false} SplitWhitespaceEmptyIff(s: string)
    ensures SplitWhitespace(s) == [] <==> AllWhitespace(s)
    decreases |s|
  {
    if |s| > 0 {
      if IsWhitespace(s[0]) {
        SplitWhitespaceEmptyIff(s[1..]);
        if AllWhitespace(s[1..]) {
          assert forall i :: 1 <= i < |s| ==> s[i] == s[1..][i - 1];
        }
      }
    }
  }

  /** Leading whitespace produces no word. */
  lemma {:induction false} SplitSkipsWhitespace(ws: string, t: string)
    requires AllWhitespace(ws)
    ensures SplitWhitespace(ws + t) == SplitWhitespace(t)
    decreases |ws|
  {
    if |ws| == 0 {
      assert ws + t == t;
    } else {
      assert (ws + t)[0] == ws[0];
      assert (ws + t)[1..] == ws[1..] + t;
      SplitSkipsWhitespace(ws[1..], t);
    }
  }

  /** A word followed by whitespace (or nothing) is split off whole. */
  lemma SplitTakesWord(w: string, t: string)
    requires |w| > 0 && NoWhitespace(w)
    requires |t| == 0 || IsWhitespace(t[0])
    ensures SplitWhitespace(w + t) == [w] + SplitWhitespace(t)
  {
    var s := w + t;
    WordLengthOfWord(w, t);
    assert s[0] == w[0];
    assert s[..|w|] == w && s[|w|..] == t;
  }

  /** Splitting words joined by single spaces gives the words back. */
  lemma {:induction false} SplitJoin(words: seq<string>)
    requires forall k :: 0 <= k < |words| ==> |words[k]| > 0 && NoWhitespace(words[k])
    ensures SplitWhitespace(Join(words, " ")) == words
    decreases |words|
  {
    if |words| == 1 {
      SplitTakesWord(words[0], []);
      assert words[0] + [] == words[0];
    } else if |words| > 1 {
      var rest := Join(words[1..], " ");
      SplitJoin(words[1..]);
      SplitSkipsWhitespace(" ", rest);
      SplitTakesWord(words[0], " " + rest);
      assert Join(words, " ") == words[0] + (" " + rest);
      assert words == [words[0]] + words[1..];
    }
  }

  lemma {:induction false} WordLengthOfWord(w: string, t: string)
    requires NoWhitespace(w)
    requires |t| == 0 || IsWhitespace(t[0])
    ensures WordLength(w + t) == |w|
    decreases |w|
  {
    if |w| == 0 {
      assert w + t == t;
    } else {
      assert (w + t)[0] == w[0];
      assert (w + t)[1..] == w[1..] + t;
      WordLengthOfWord(w[1..], t);
    }
  }

  /** Number of leading whitespace characters. */
  function LeadingWhitespace(s: string): (n: nat)
    ensures n <= |s|
    ensures AllWhitespace(s[..n])
    ensures n == |s| || !IsWhitespace(s[n])
  {
    if |s| == 0 || !IsWhitespace(s[0]) then 0
    else
      var n := 1 + LeadingWhitespace(s[1..]);
      assert forall i :: 1 <= i < n ==> s[..n][i] == s[1..][..n - 1][i - 1];
      n
  }

  /** Index where the trailing whitespace run starts. */
  function TrailingWhitespaceStart(s: string): (n: nat)
    ensures n <= |s|
    ensures AllWhitespace(s[n..])
    ensures n == 0 || !IsWhitespace(s[n - 1])
  {
    if |s| == 0 || !IsWhitespace(s[|s| - 1]) then |s|
    else
      var n := TrailingWhitespaceStart(s[..|s| - 1]);
      assert s[n..] == s[..|s| - 1][n..] + [s[|s| - 1]];
      n
  }

  /**
   `str::trim`: the result is the infix of `s` left after removing the
   leading and trailing whitespace runs, so it neither starts nor ends with
   whitespace.
   */
  function Trim(s: string): (r: string)
    ensures LeadingWhitespace(s) + |r| <= |s|
    ensures r == s[LeadingWhitespace(s)..LeadingWhitespace(s) + |r|]
    ensures AllWhitespace(s[..LeadingWhitespace(s)])
    ensures AllWhitespace(s[LeadingWhitespace(s) + |r|..])
    ensures |r| == 0 || (!IsWhitespace(r[0]) && !IsWhitespace(r[|r| - 1]))
  {
    var i := LeadingWhitespace(s);
    var t := s[i..];
    var j := TrailingWhitespaceStart(t);
    assert t[j..] == s[i + j..];
    assert j > 0 ==> t[..j][0] == s[i];
    t[..j]
  }
  /** Text with no whitespace at either end is its own trim. */
  lemma TrimTrimmed(s: string)
    requires |s| == 0 || (!IsWhitespace(s[0]) && !IsWhitespace(s[|s| - 1]))
    ensures Trim(s) == s
  {
    if |s| > 0 {
      assert LeadingWhitespace(s) == 0;
      assert s[0..] == s;
      assert TrailingWhitespaceStart(s) == |s|;
    }
  }


  /** Trimming removes whitespace only: every other character survives, in order. */
  lemma TrimKeepsText(s: string)
    ensures NonWhitespace(Trim(s)) == NonWhitespace(s)
  {
    var r := Trim(s);
    var i := LeadingWhitespace(s);
    assert s == s[..i] + r + s[i + |r|..];
    NonWhitespaceAppend(s[..i] + r, s[i + |r|..]);
    NonWhitespaceAppend(s[..i], r);
    NonWhitespaceOfWhitespace(s[..i]);
    NonWhitespaceOfWhitespace(s[i + |r|..]);
  }

  /** Number of bytes `c` occupies in UTF-8. */
  function Utf8Width(c: char): nat {
    if c as int < 0x80 then 1
    else if c as int < 0x800 then 2
    else if c as int < 0x10000 then 3
    else 4
  }

  /** `str::len`: the UTF-8 byte length of `s`. */
  function ByteLength(s: string): nat {
    if |s| == 0 then 0 else Utf8Width(s[0]) + ByteLength(s[1..])
  }

  predicate IsAscii(s: string) {
    forall i :: 0 <= i < |s| ==> s[i] as int < 0x80
  }

  lemma {:induction false} AsciiByteLength(s: string)
    requires IsAscii(s)
    ensures ByteLength(s) == |s|
  {
    if |s| > 0 {
      assert IsAscii(s[1..]) by {
        assert forall i :: 0 <= i < |s| - 1 ==> s[1..][i] == s[i + 1];
      }
      AsciiByteLength(s[1..]);
    }
  }

  lemma ByteLengthAppend(a: string, b: string)
    ensures ByteLength(a + b) == ByteLength(a) + ByteLength(b)
  {
    if |a| == 0 {
      assert a + b == b;
    } else {
      assert (a + b)[1..] == a[1..] + b;
      ByteLengthAppend(a[1..], b);
    }
  }

  /** Byte offset `n` falls between two characters of `s` (or at an end). */
  ghost predicate IsCharBoundary(s: string, n: nat) {
    exists k :: 0 <= k <= |s| && ByteLength(s[..k]) == n
  }

  /**
   `&s[..n]`: the prefix of `s` that is `n` bytes long, or `None` where Rust
   panics because `n` is past the end or inside a character.
   */
  function BytePrefix(s: string, n: nat): (r: Option<string>)
    ensures r.Some? ==> IsPrefix(r.value, s) && ByteLength(r.value) == n
    ensures r.None? <==> !IsCharBoundary(s, n)
    decreases |s|
  {
    if n == 0 then
      assert ByteLength(s[..0]) == 0;
      Some([])
    else if |s| == 0 then
      assert forall k :: 0 <= k <= |s| ==> ByteLength(s[..k]) == 0;
      None
    else if n < Utf8Width(s[0]) then
      assert forall k :: 0 < k <= |s| ==> s[..k] == [s[0]] + s[1..][..k - 1];
      assert forall k :: 0 < k <= |s| ==> ByteLength(s[..k]) >= Utf8Width(s[0]);
      assert ByteLength(s[..0]) == 0;
      None
    else
      var tail := BytePrefix(s[1..], n - Utf8Width(s[0]));
      assert forall k :: 0 < k <= |s| ==> s[..k] == [s[0]] + s[1..][..k - 1];
      assert forall k :: 0 < k <= |s| ==> ByteLength(s[..k]) == Utf8Width(s[0]) + ByteLength(s[1..][..k - 1]);
      if tail.None? then
        assert ByteLength(s[..0]) == 0;
        None
      else
        var k :| 0 <= k <= |s| - 1 && ByteLength(s[1..][..k]) == n - Utf8Width(s[0]);
        assert ByteLength(s[..k + 1]) == n;
        Some([s[0]] + tail.value)
  }

  /** On ASCII text every byte offset up to the length is a boundary. */
  lemma {:induction false} AsciiBytePrefix(s: string, n: nat)
    requires IsAscii(s) && n <= |s|
    ensures BytePrefix(s, n) == Some(s[..n])
  {
    AsciiByteLength(s[..n]);
    assert IsAscii(s[..n]) by {
      assert forall i :: 0 <= i < n ==> s[..n][i] == s[i];
    }
    assert IsCharBoundary(s, n);
    var p := BytePrefix(s, n).value;
    assert IsAscii(p) by {
      assert forall i :: 0 <= i < |p| ==> p[i] == s[i];
    }
    AsciiByteLength(p);
    assert |p| == n;
  }
}
