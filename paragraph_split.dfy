/**
 * Paragraph counting: the split of the text at every run of line feeds,
 * the filter that keeps segments with content, and their relation to a
 * one-unit-at-a-time count of paragraph starts.
 */
module ParagraphSplit {
  import opened JsText

  predicate NoLineFeed(s: Text) {
    forall i :: 0 <= i < |s| ==> s[i] != LINE_FEED
  }

  /** Length of the longest prefix of `s` without a line feed. */
  function LineRun(s: Text): (n: nat)
    ensures n <= |s| && NoLineFeed(s[..n])
    ensures n == |s| || s[n] == LINE_FEED
  {
    if s != [] && s[0] != LINE_FEED then 1 + LineRun(s[1..]) else 0
  }

  /** Length of the longest prefix of `s` made of line feeds. */
  function LineFeedRun(s: Text): (n: nat)
    ensures n <= |s| && forall i :: 0 <= i < n ==> s[i] == LINE_FEED
    ensures n == |s| || s[n] != LINE_FEED
  {
    if s != [] && s[0] == LINE_FEED then 1 + LineFeedRun(s[1..]) else 0
  }

  /** Splitting at the pattern "one or more line feeds": the segment up to
      the next run of line feeds, then the split of what follows the run. A
      text without line feeds, the empty text included, is one segment; a
      leading or trailing run gives an empty first or last segment. */
  function SplitLines(s: Text): (segs: seq<Text>)
    ensures |segs| >= 1
    ensures forall k :: 0 <= k < |segs| ==> NoLineFeed(segs[k])
    decreases |s|
  {
    var i := LineRun(s);
    if i == |s| then [s]
    else [s[..i]] + SplitLines(s[NextLine(s)..])
  }

  /** The segments whose trimmed length is positive, in order: each one
      kept has content, and each one with content is kept. */
  function NonBlank(segs: seq<Text>): (r: seq<Text>)
    ensures |r| <= |segs|
    ensures forall k :: 0 <= k < |r| ==> HasContent(r[k])
    ensures forall k :: 0 <= k < |segs| && HasContent(segs[k]) ==> segs[k] in r
    ensures forall k :: 0 <= k < |r| ==> r[k] in segs
  {
    if segs == [] then []
    else if |Trim(segs[0])| > 0 then [segs[0]] + NonBlank(segs[1..])
    else NonBlank(segs[1..])
  }

  /** The paragraphs: the segments of the split that have content. There
      is one per line with content, and none holds a line feed. */
  function Paragraphs(text: Text): (ps: seq<Text>)
    ensures |ps| == ParagraphStarts(false, text)
    ensures forall k :: 0 <= k < |ps| ==> HasContent(ps[k]) && NoLineFeed(ps[k])
  {
    ParagraphsCountStarts(text);
    NonBlank(SplitLines(text))
  }

  /** Reference definition, one code unit at a time: the number of maximal
      runs of line feeds. `afterFeed` says whether the unit before `s` was a
      line feed. */
  function LineFeedRuns(afterFeed: bool, s: Text): nat
    decreases |s|
  {
    if s == [] then 0
    else (if s[0] == LINE_FEED && !afterFeed then 1 else 0) + LineFeedRuns(s[0] == LINE_FEED, s[1..])
  }

  /** Reference definition, one code unit at a time: the number of
      non-whitespace units that are the first such unit since the start
      or since the last line feed. `seen` says whether the line so far
      already had one. */
  function ParagraphStarts(seen: bool, s: Text): nat
    decreases |s|
  {
    if s == [] then 0
    else if s[0] == LINE_FEED then ParagraphStarts(false, s[1..])
    else (if IsNonWhitespace(s[0]) && !seen then 1 else 0)
         + ParagraphStarts(seen || IsNonWhitespace(s[0]), s[1..])
  }

  function ParagraphCount(text: Text): (n: nat)
    ensures n == ParagraphStarts(false, text)
    ensures n <= LineFeedRuns(false, text) + 1
  {
    SplitCountsRuns(text);
    |Paragraphs(text)|
  }

  /** The reference run count ignores everything up to the next line feed. */
  lemma {:induction false} LineFeedRunsSkipLine(s: Text)
    ensures LineFeedRuns(false, s) == LineFeedRuns(false, s[LineRun(s)..])
    decreases |s|
  {
    if s != [] && s[0] != LINE_FEED {
      LineFeedRunsSkipLine(s[1..]);
      assert s[1..][LineRun(s[1..])..] == s[LineRun(s)..];
    }
  }

  /** Inside a run of line feeds no new run starts. */
  lemma {:induction false} LineFeedRunsSkipFeeds(s: Text)
    ensures LineFeedRuns(true, s) == LineFeedRuns(false, s[LineFeedRun(s)..])
    decreases |s|
  {
    if s != [] && s[0] == LINE_FEED {
      LineFeedRunsSkipFeeds(s[1..]);
      assert s[1..][LineFeedRun(s[1..])..] == s[LineFeedRun(s)..];
    }
  }

  lemma {:induction false} LineFeedRunsNoLineFeed(afterFeed: bool, s: Text)
    requires NoLineFeed(s)
    ensures LineFeedRuns(afterFeed, s) == 0
    decreases |s|
  {
    if s != [] {
      LineFeedRunsNoLineFeed(false, s[1..]);
    }
  }

  /** The split has one more segment than there are runs of line feeds. */
  lemma {:induction false} SplitCountsRuns(s: Text)
    ensures |SplitLines(s)| == LineFeedRuns(false, s) + 1
    decreases |s|
  {
    var i := LineRun(s);
    if i == |s| {
      assert s[..i] == s;
      LineFeedRunsNoLineFeed(false, s);
    } else {
      var rest := s[i..];
      var n := NextLine(s);
      assert |SplitLines(s)| == 1 + |SplitLines(s[n..])|;
      LineFeedRunsSkipLine(s);
      assert LineFeedRuns(false, rest) == 1 + LineFeedRuns(true, rest[1..]);
      LineFeedRunsSkipFeeds(rest[1..]);
      assert n == i + 1 + LineFeedRun(rest[1..]);
      assert rest[1..][LineFeedRun(rest[1..])..] == s[n..];
      SplitCountsRuns(s[n..]);
    }
  }

  lemma {:induction false} HasContentIsTrimmedLength(p: Text)
    ensures |Trim(p)| > 0 <==> HasContent(p)
  {
  }

  lemma {:induction false} HasContentCons(s: Text)
    requires s != []
    ensures HasContent(s) <==> IsNonWhitespace(s[0]) || HasContent(s[1..])
  {
    if HasContent(s[1..]) {
      var i :| 0 <= i < |s[1..]| && IsNonWhitespace(s[1..][i]);
      assert IsNonWhitespace(s[i + 1]);
    }
    if HasContent(s) && !IsNonWhitespace(s[0]) {
      var i :| 0 <= i < |s| && IsNonWhitespace(s[i]);
      assert IsNonWhitespace(s[1..][i - 1]);
    }
  }

  /** Reading one line, the reference count moves on by one if the line
      has content and nothing had been seen on it before. */
  lemma {:induction false} ParagraphStartsSkipLine(seen: bool, s: Text)
    ensures var i := LineRun(s);
      ParagraphStarts(seen, s)
      == (if !seen && HasContent(s[..i]) then 1 else 0)
         + ParagraphStarts(seen || HasContent(s[..i]), s[i..])
    decreases |s|
  {
    var i := LineRun(s);
    if i == 0 {
      assert !HasContent(s[..i]);
    } else {
      var seen' := seen || IsNonWhitespace(s[0]);
      ParagraphStartsSkipLine(seen', s[1..]);
      assert s[1..][..LineRun(s[1..])] == s[..i][1..];
      assert s[1..][LineRun(s[1..])..] == s[i..];
      HasContentCons(s[..i]);
    }
  }

  /** After a line feed the reference count starts a fresh line, and further
      line feeds change nothing. */
  lemma {:induction false} ParagraphStartsSkipFeeds(seen: bool, s: Text)
    requires LineFeedRun(s) > 0
    ensures ParagraphStarts(seen, s) == ParagraphStarts(false, s[LineFeedRun(s)..])
    decreases |s|
  {
    if LineFeedRun(s) > 1 {
      ParagraphStartsSkipFeeds(false, s[1..]);
      assert s[1..][LineFeedRun(s[1..])..] == s[LineFeedRun(s)..];
    } else {
      assert s[1..] == s[LineFeedRun(s)..];
      if s[1..] != [] {
        assert s[1..][0] != LINE_FEED;
      }
    }
  }

  lemma {:induction false} NonBlankCons(x: Text, rest: seq<Text>)
    ensures |NonBlank([x] + rest)| == (if HasContent(x) then 1 else 0) + |NonBlank(rest)|
  {
    assert ([x] + rest)[0] == x && ([x] + rest)[1..] == rest;
    HasContentIsTrimmedLength(x);
  }

  /** The first segment of the split is the text up to the first line
      feed; the rest is the split of what follows that run of line feeds. */
  function NextLine(s: Text): nat
  {
    var i := LineRun(s);
    if i == |s| then i else i + LineFeedRun(s[i..])
  }

  lemma {:induction false} ParagraphsStep(s: Text)
    requires LineRun(s) < |s|
    ensures |NonBlank(SplitLines(s))|
         == (if HasContent(s[..LineRun(s)]) then 1 else 0) + |NonBlank(SplitLines(s[NextLine(s)..]))|
  {
    NonBlankCons(s[..LineRun(s)], SplitLines(s[NextLine(s)..]));
  }

  lemma {:induction false} ParagraphStartsStep(s: Text)
    requires LineRun(s) < |s|
    ensures ParagraphStarts(false, s)
         == (if HasContent(s[..LineRun(s)]) then 1 else 0) + ParagraphStarts(false, s[NextLine(s)..])
  {
    var i := LineRun(s);
    var rest := s[i..];
    ParagraphStartsSkipLine(false, s);
    ParagraphStartsSkipFeeds(HasContent(s[..i]), rest);
    assert rest[LineFeedRun(rest)..] == s[NextLine(s)..];
  }

  /** The filtered split has one segment per paragraph start. */
  lemma {:induction false} ParagraphsCountStarts(s: Text)
    ensures |NonBlank(SplitLines(s))| == ParagraphStarts(false, s)
    decreases |s|
  {
    if LineRun(s) == |s| {
      ParagraphStartsSkipLine(false, s);
      assert s[..LineRun(s)] == s;
      HasContentIsTrimmedLength(s);
    } else {
      ParagraphsStep(s);
      ParagraphStartsStep(s);
      ParagraphsCountStarts(s[NextLine(s)..]);
    }
  }

  lemma {:induction false} ParagraphStartsBlank(seen: bool, s: Text)
    requires AllWhitespace(s)
    ensures ParagraphStarts(seen, s) == 0
    decreases |s|
  {
    if s != [] {
      ParagraphStartsBlank(if s[0] == LINE_FEED then false else seen, s[1..]);
    }
  }

  /** Empty or blank text has no paragraphs. */
  lemma {:induction false} BlankHasNoParagraph(text: Text)
    requires AllWhitespace(text)
    ensures ParagraphCount(text) == 0
  {
    ParagraphStartsBlank(false, text);
  }

  /** Text with content and without a line feed is one paragraph. */
  lemma {:induction false} SingleLineIsOneParagraph(text: Text)
    requires NoLineFeed(text) && HasContent(text)
    ensures ParagraphCount(text) == 1
  {
    assert LineRun(text) == |text|;
    HasContentIsTrimmedLength(text);
  }

  lemma {:induction false} ParagraphStartsMonotone(seen: bool, a: Text, b: Text)
    ensures ParagraphStarts(seen, a + b) >= ParagraphStarts(seen, a)
    decreases |a|
  {
    if a != [] {
      assert (a + b)[1..] == a[1..] + b;
      ParagraphStartsMonotone(if a[0] == LINE_FEED then false else seen || IsNonWhitespace(a[0]), a[1..], b);
    }
  }

  /** Appending text never lowers the paragraph count. */
  lemma {:induction false} ParagraphCountMonotone(a: Text, b: Text)
    ensures ParagraphCount(a + b) >= ParagraphCount(a)
  {
    ParagraphStartsMonotone(false, a, b);
  }

  /** The segments joined back with one line feed between neighbours. */
  function JoinLines(segs: seq<Text>): Text
    requires |segs| >= 1
  {
    if |segs| == 1 then segs[0] else segs[0] + [LINE_FEED] + JoinLines(segs[1..])
  }

  /** Reference definition: the text with every run of line feeds collapsed
      to a single line feed. `afterFeed` says whether the unit before `s`
      was a line feed. */
  function SqueezeLineFeeds(afterFeed: bool, s: Text): Text
    decreases |s|
  {
    if s == [] then []
    else if s[0] == LINE_FEED && afterFeed then SqueezeLineFeeds(true, s[1..])
    else [s[0]] + SqueezeLineFeeds(s[0] == LINE_FEED, s[1..])
  }

  lemma {:induction false} SqueezeSkipLine(s: Text)
    ensures SqueezeLineFeeds(false, s) == s[..LineRun(s)] + SqueezeLineFeeds(false, s[LineRun(s)..])
    decreases |s|
  {
    if s != [] && s[0] != LINE_FEED {
      var n := LineRun(s);
      var line, rest := s[1..][..n - 1], s[n..];
      SqueezeSkipLine(s[1..]);
      assert s[1..][n - 1..] == rest;
      assert SqueezeLineFeeds(false, s) == [s[0]] + (line + SqueezeLineFeeds(false, rest));
      assert [s[0]] + line == s[..n];
    } else {
      assert s[..LineRun(s)] == [] && s[LineRun(s)..] == s;
    }
  }

  lemma {:induction false} SqueezeSkipFeeds(s: Text)
    ensures SqueezeLineFeeds(true, s) == SqueezeLineFeeds(false, s[LineFeedRun(s)..])
    decreases |s|
  {
    if s != [] && s[0] == LINE_FEED {
      SqueezeSkipFeeds(s[1..]);
      assert s[1..][LineFeedRun(s[1..])..] == s[LineFeedRun(s)..];
    }
  }

  /** Round trip: joining the segments with single line feeds gives back the
      text, except that each run of line feeds has become one line feed. */
  lemma {:induction false} JoinStep(s: Text)
    requires LineRun(s) < |s|
    ensures JoinLines(SplitLines(s)) == s[..LineRun(s)] + [LINE_FEED] + JoinLines(SplitLines(s[NextLine(s)..]))
  {
    var line, segs := s[..LineRun(s)], SplitLines(s[NextLine(s)..]);
    assert SplitLines(s) == [line] + segs;
    assert ([line] + segs)[0] == line && ([line] + segs)[1..] == segs;
  }

  lemma {:induction false} SqueezeStep(s: Text)
    requires LineRun(s) < |s|
    ensures SqueezeLineFeeds(false, s) == s[..LineRun(s)] + [LINE_FEED] + SqueezeLineFeeds(false, s[NextLine(s)..])
  {
    var rest := s[LineRun(s)..];
    SqueezeSkipLine(s);
    assert SqueezeLineFeeds(false, rest) == [LINE_FEED] + SqueezeLineFeeds(true, rest[1..]);
    SqueezeSkipFeeds(rest[1..]);
    assert rest[1..][LineFeedRun(rest[1..])..] == s[NextLine(s)..];
  }

  lemma {:induction false} SplitJoin(s: Text)
    ensures JoinLines(SplitLines(s)) == SqueezeLineFeeds(false, s)
    decreases |s|
  {
    if LineRun(s) == |s| {
      SqueezeSkipLine(s);
      assert s[..LineRun(s)] == s;
    } else {
      JoinStep(s);
      SqueezeStep(s);
      SplitJoin(s[NextLine(s)..]);
    }
  }

  /** A text without two line feeds in a row is restored exactly. */
  lemma {:induction false} SqueezeUnchanged(afterFeed: bool, s: Text)
    requires forall i :: 0 < i < |s| ==> s[i - 1] == LINE_FEED ==> s[i] != LINE_FEED
    requires afterFeed ==> s == [] || s[0] != LINE_FEED
    ensures SqueezeLineFeeds(afterFeed, s) == s
    decreases |s|
  {
    if s != [] {
      assert forall i :: 0 < i < |s[1..]| ==> s[1..][i - 1] == s[i] && s[1..][i] == s[i + 1];
      SqueezeUnchanged(s[0] == LINE_FEED, s[1..]);
    }
  }
}
