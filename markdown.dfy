/** The chat panel's markdown subset: `**bold**`, then `*italic*`, then line breaks,
    each a global regular-expression replacement. */
module Markdown {
  import opened Types
  import Text

  /** Where the lazy group `(.*?)` of a delimited pattern ends: the first position `k`
      at which `d` follows, provided the `k` characters before it contain no line
      terminator (the regular-expression `.` matches none of them). */
  function FindCloser(t: string, d: string): (r: Option<nat>)
    requires |d| > 0
    ensures r.Some? ==> r.value + |d| <= |t|
  {
    if d <= t then Some(0)
    else if t == [] || Text.IsLineTerminator(t[0]) then None
    else
      var r := FindCloser(t[1..], d);
      if r.None? then None else Some(r.value + 1)
  }

  /** Where a closing delimiter is found, it is there, and the run before it stays on
      one line. */
  lemma {:induction false} FindCloserSound(t: string, d: string)
    requires |d| > 0
    ensures FindCloser(t, d).Some? ==>
      d <= t[FindCloser(t, d).value..] && Text.NoLineTerminator(t[..FindCloser(t, d).value])
  {
    if !(d <= t) && t != [] && !Text.IsLineTerminator(t[0]) {
      FindCloserSound(t[1..], d);
      var r := FindCloser(t[1..], d);
      if r.Some? {
        assert t[1..][r.value..] == t[r.value + 1..];
        assert t[..r.value + 1] == [t[0]] + t[1..][..r.value];
      }
    }
  }

  /** The closing delimiter found is the first one on the line, and when none is found
      there is no closing delimiter before the next line terminator. */
  lemma {:induction false} FindCloserIsFirst(t: string, d: string)
    requires |d| > 0
    ensures FindCloser(t, d).Some? ==> forall j :: 0 <= j < FindCloser(t, d).value ==> !(d <= t[j..])
    ensures FindCloser(t, d).None? ==>
      forall k :: 0 <= k <= |t| && d <= t[k..] ==> !Text.NoLineTerminator(t[..k])
  {
    if !(d <= t) && t != [] {
      if Text.IsLineTerminator(t[0]) {
        assert forall k :: 0 < k <= |t| ==> t[..k][0] == t[0];
      } else {
        FindCloserIsFirst(t[1..], d);
        assert forall k :: 0 < k <= |t| ==> t[1..][k - 1..] == t[k..] && t[1..][..k - 1] == t[..k][1..];
      }
    }
  }

  /** `s.replace(/D(.*?)D/g, open + '$1' + close)` for the delimiter `D`: scanning from
      the left, each delimiter that has a closing one later on the same line is replaced,
      with the closing one, by the tags around the text between them; the scan resumes
      after the closing delimiter. */
  function ReplacePairs(s: string, d: string, open: string, close: string): string
    requires |d| > 0
    decreases |s|
  {
    if |s| == 0 then []
    else
      var k := if d <= s then FindCloser(s[|d|..], d) else None;
      if k.None? then [s[0]] + ReplacePairs(s[1..], d, open, close)
      else open + s[|d|..|d| + k.value] + close + ReplacePairs(s[|d| + k.value + |d|..], d, open, close)
  }

  /** `s.replace(/\n/g, '<br />')`. */
  function ReplaceNewlines(s: string): string {
    if |s| == 0 then []
    else (if s[0] == '\n' then "<br />" else [s[0]]) + ReplaceNewlines(s[1..])
  }

  /** The output has no line feed, and each line feed became five characters more. */
  lemma {:induction false} ReplaceNewlinesShape(s: string)
    ensures '\n' !in ReplaceNewlines(s)
    ensures |ReplaceNewlines(s)| == |s| + 5 * Text.Count('\n', s)
  {
    if |s| != 0 {
      ReplaceNewlinesShape(s[1..]);
    }
  }

  /** A line feed becomes `<br />`; any other character is kept. */
  lemma ReplaceNewlinesChar(c: char)
    ensures ReplaceNewlines([c]) == if c == '\n' then "<br />" else [c]
  {
    assert [c][1..] == [];
  }

  /** The line-feed replacement works piece by piece; with ReplaceNewlinesChar this
      determines it on every text. */
  lemma {:induction false} ReplaceNewlinesAppend(a: string, b: string)
    ensures ReplaceNewlines(a + b) == ReplaceNewlines(a) + ReplaceNewlines(b)
    decreases |a|
  {
    if a == [] {
      assert a + b == b;
    } else {
      assert (a + b)[1..] == a[1..] + b;
      ReplaceNewlinesAppend(a[1..], b);
    }
  }

  /** The three replacements in order; the result holds no line feed. */
  function MarkdownToHtml(text: string): (html: string)
    ensures '\n' !in html
  {
    var bold := ReplacePairs(text, "**", "<strong>", "</strong>");
    var italic := ReplacePairs(bold, "*", "<em>", "</em>");
    ReplaceNewlinesShape(italic);
    ReplaceNewlines(italic)
  }

  /** Text in which the delimiter never occurs is left alone. */
  lemma {:induction false} ReplacePairsNoMatch(s: string, d: string, open: string, close: string)
    requires |d| > 0 && forall j :: 0 <= j < |s| ==> !(d <= s[j..])
    ensures ReplacePairs(s, d, open, close) == s
    decreases |s|
  {
    if s != [] {
      assert !(d <= s[0..]);
      assert forall j :: 0 <= j < |s| - 1 ==> s[1..][j..] == s[j + 1..];
      ReplacePairsNoMatch(s[1..], d, open, close);
    }
  }

  /** In particular text without the delimiter's first character is left alone. */
  lemma {:induction false} ReplacePairsNoDelimiter(s: string, d: string, open: string, close: string)
    requires |d| > 0 && d[0] !in s
    ensures ReplacePairs(s, d, open, close) == s
  {
    forall j | 0 <= j < |s| ensures !(d <= s[j..]) {
      assert s[j..][0] == s[j];
    }
    ReplacePairsNoMatch(s, d, open, close);
  }

  /** Where a pair is replaced, the text is the opening delimiter, the run, the closing
      delimiter and the rest. */
  lemma {:induction false} PairSplit(s: string, d: string, n: nat)
    requires |d| > 0 && d <= s
    requires n + |d| <= |s[|d|..]| && d <= s[|d|..][n..]
    ensures |d| + n + |d| <= |s|
    ensures s == d + s[|d|..|d| + n] + d + s[|d| + n + |d|..]
    ensures s[|d|..|d| + n] == s[|d|..][..n]
  {
    var L := |d|;
    assert s[L..][n..][..L] == s[L + n..L + n + L];
    assert s == s[..L] + s[L..L + n] + s[L + n..L + n + L] + s[L + n + L..];
  }

  /** Line feeds are counted part by part. */
  lemma {:induction false} CountFour(a: string, b: string, c: string, e: string)
    ensures Text.Count('\n', a + b + c + e) ==
      Text.Count('\n', a) + Text.Count('\n', b) + Text.Count('\n', c) + Text.Count('\n', e)
  {
    Text.CountAppend('\n', a + b + c, e);
    Text.CountAppend('\n', a + b, c);
    Text.CountAppend('\n', a, b);
  }

  lemma {:induction false} NoLineTerminatorHasNoNewline(x: string)
    requires Text.NoLineTerminator(x)
    ensures '\n' !in x
  {
    assert forall i :: 0 <= i < |x| ==> x[i] != '\n';
  }


  lemma {:induction false} ReplacePairsAtPair(s: string, d: string, open: string, close: string, n: nat)
    requires |d| > 0 && d <= s && FindCloser(s[|d|..], d) == Some(n)
    ensures |d| + n + |d| <= |s|
    ensures ReplacePairs(s, d, open, close) ==
      open + s[|d|..|d| + n] + close + ReplacePairs(s[|d| + n + |d|..], d, open, close)
  {
  }

  /** The pair replacements neither add nor remove a line feed when the tags contain none. */
  lemma {:induction false} ReplacePairsKeepsNewlines(s: string, d: string, open: string, close: string)
    requires |d| > 0 && '\n' !in d && '\n' !in open && '\n' !in close
    ensures Text.Count('\n', ReplacePairs(s, d, open, close)) == Text.Count('\n', s)
    decreases |s|
  {
    if s != [] {
      if d <= s && FindCloser(s[|d|..], d).Some? {
        var n := FindCloser(s[|d|..], d).value;
        FindCloserSound(s[|d|..], d);
        PairSplit(s, d, n);
        var rest := s[|d| + n + |d|..];
        ReplacePairsKeepsNewlines(rest, d, open, close);
        NoLineTerminatorHasNoNewline(s[|d|..|d| + n]);
        assert Text.Count('\n', s) == Text.Count('\n', rest) by {
          CountFour(d, s[|d|..|d| + n], d, rest);
        }
        assert Text.Count('\n', ReplacePairs(s, d, open, close)) == Text.Count('\n', ReplacePairs(rest, d, open, close)) by {
          ReplacePairsAtPair(s, d, open, close, n);
          CountFour(open, s[|d|..|d| + n], close, ReplacePairs(rest, d, open, close));
        }
      } else {
        ReplacePairsKeepsNewlines(s[1..], d, open, close);
        assert ([s[0]] + ReplacePairs(s[1..], d, open, close))[1..] == ReplacePairs(s[1..], d, open, close);
      }
    }
  }

  /** The output has no line feed, and each line feed of the input became one `<br />`
      (five characters longer than the line feed it replaced). */
  lemma {:induction false} NewlinesBecomeBreaks(text: string)
    ensures '\n' !in MarkdownToHtml(text)
    ensures var italic := ReplacePairs(ReplacePairs(text, "**", "<strong>", "</strong>"), "*", "<em>", "</em>");
      && Text.Count('\n', italic) == Text.Count('\n', text)
      && |MarkdownToHtml(text)| == |italic| + 5 * Text.Count('\n', text)
  {
    ReplacePairsKeepsNewlines(text, "**", "<strong>", "</strong>");
    ReplacePairsKeepsNewlines(ReplacePairs(text, "**", "<strong>", "</strong>"), "*", "<em>", "</em>");
    ReplaceNewlinesShape(ReplacePairs(ReplacePairs(text, "**", "<strong>", "</strong>"), "*", "<em>", "</em>"));
  }

  /** Text without asterisks and line feeds is shown as it is. */
  lemma {:induction false} PlainTextUnchanged(text: string)
    requires '*' !in text && '\n' !in text
    ensures MarkdownToHtml(text) == text
  {
    ReplacePairsNoDelimiter(text, "**", "<strong>", "</strong>");
    ReplacePairsNoDelimiter(text, "*", "<em>", "</em>");
    NoNewlineUnchanged(text);
  }

  lemma {:induction false} NoNewlineUnchanged(s: string)
    requires '\n' !in s
    ensures ReplaceNewlines(s) == s
  {
    if s != [] {
      NoNewlineUnchanged(s[1..]);
    }
  }

  /** Text free of asterisks and line terminators, between two delimiters. */
  predicate Inline(x: string) {
    '*' !in x && Text.NoLineTerminator(x)
  }

  lemma {:induction false} CloserAfterInline(x: string, d: string, rest: string)
    requires Inline(x) && |d| > 0 && d[0] == '*'
    ensures FindCloser(x + d + rest, d) == Some(|x|)
    decreases |x|
  {
    if x == [] {
      assert x + d + rest == d + rest;
    } else {
      assert !(d <= x + d + rest) by {
        assert (x + d + rest)[0] == x[0];
      }
      assert (x + d + rest)[1..] == x[1..] + d + rest;
      CloserAfterInline(x[1..], d, rest);
    }
  }

  /** A delimited run on one line becomes the tags around it. */
  lemma {:induction false} PairRun(x: string, d: string, open: string, close: string)
    requires Inline(x) && |d| > 0 && d[0] == '*'
    ensures ReplacePairs(d + x + d, d, open, close) == open + x + close
  {
    var s := d + x + d;
    assert s[|d|..] == x + d + [];
    CloserAfterInline(x, d, []);
    assert s[|d|..|d| + |x|] == x;
    assert s[|d| + |x| + |d|..] == [];
    assert open + x + close + [] == open + x + close;
  }

  /** An italic run contains no bold delimiter pair. */
  lemma {:induction false} ItalicRunHasNoBold(x: string, open: string, close: string)
    requires Inline(x)
    ensures ReplacePairs("*" + x + "*", "**", open, close) == "*" + x + "*"
  {
    var s := "*" + x + "*";
    if x == [] {
      assert s == "**" && s[2..] == [] && s[1..] == "*";
      assert !("**" <= s[1..]) && s[1..][1..] == [];
    } else {
      forall j | 0 <= j < |s| ensures !("**" <= s[j..]) {
        if j <= |x| {
          assert s[j..][1] == s[j + 1];
          if j == 0 {
            assert s[1] == x[0];
          } else {
            assert s[j] == x[j - 1];
          }
        }
      }
      ReplacePairsNoMatch(s, "**", open, close);
    }
  }

  /** A bold run on one line becomes a `<strong>` element. */
  lemma {:induction false} BoldRun(x: string)
    requires Inline(x)
    ensures MarkdownToHtml("**" + x + "**") == "<strong>" + x + "</strong>"
  {
    PairRun(x, "**", "<strong>", "</strong>");
    var bold := "<strong>" + x + "</strong>";
    assert '*' !in "<strong>" && '*' !in "</strong>";
    ReplacePairsNoDelimiter(bold, "*", "<em>", "</em>");
    NoLineTerminatorHasNoNewline(x);
    assert '\n' !in "<strong>" && '\n' !in "</strong>";
    NoNewlineUnchanged(bold);
  }

  /** An italic run on one line becomes an `<em>` element. */
  lemma {:induction false} ItalicRun(x: string)
    requires Inline(x)
    ensures MarkdownToHtml("*" + x + "*") == "<em>" + x + "</em>"
  {
    ItalicRunHasNoBold(x, "<strong>", "</strong>");
    PairRun(x, "*", "<em>", "</em>");
    NoLineTerminatorHasNoNewline(x);
    assert '\n' !in "<em>" && '\n' !in "</em>";
    NoNewlineUnchanged("<em>" + x + "</em>");
  }
}
