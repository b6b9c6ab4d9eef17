/**
 * Word extraction: the global match of the word class over the trimmed
 * text, and its relation to a one-unit-at-a-time count of word starts.
 */
module WordScan {
  import opened JsText

  predicate AllWordChars(s: Text) {
    forall i :: 0 <= i < |s| ==> IsWordChar(s[i])
  }

  /** Length of the longest prefix of `s` made of word characters. */
  function WordRun(s: Text): (n: nat)
    ensures n <= |s| && AllWordChars(s[..n])
    ensures n == |s| || !IsWordChar(s[n])
  {
    if s != [] && IsWordChar(s[0]) then 1 + WordRun(s[1..]) else 0
  }

  /** The match of `[word class]+` anchored at the start of `s`: the greedy
      run of word characters, or no match when `s` does not start with one. */
  function WordMatch(s: Text): (m: Option<nat>)
    ensures m.Some? <==> s != [] && IsWordChar(s[0])
    ensures m.Some? ==> 0 < m.value <= |s| && AllWordChars(s[..m.value])
                        && (m.value == |s| || !IsWordChar(s[m.value]))
  {
    var n := WordRun(s);
    if n == 0 then None else Some(n)
  }

  /** The global match of the word class over `s`, left to right and without
      overlap: where no match starts, the search moves on by one code unit;
      after a match it resumes where the match ended. */
  function Words(s: Text): (ws: seq<Text>)
    ensures forall k :: 0 <= k < |ws| ==> ws[k] != [] && AllWordChars(ws[k])
    decreases |s|
  {
    if s == [] then []
    else
      match WordMatch(s)
      case None => Words(s[1..])
      case Some(n) => [s[..n]] + Words(s[n..])
  }

  /** The words of the text: none when the trimmed text is empty, otherwise
      the global match over the trimmed text (a failed match gives none).
      Since whitespace is never a word character, trimming changes nothing:
      these are the matches over the raw text, one per maximal run. */
  function ExtractWords(text: Text): (ws: seq<Text>)
    ensures ws == Words(text)
    ensures |ws| == WordStarts(false, text)
  {
    WordsOfTrim(text);
    WordsCountRuns(text);
    var t := Trim(text);
    if t == [] then [] else Words(t)
  }

  /** Sum of the lengths of the words: the length of their concatenation,
      and at least their number when none is empty. */
  function TotalLength(ws: seq<Text>): (n: nat)
    ensures n == |Concat(ws)|
    ensures (forall k :: 0 <= k < |ws| ==> ws[k] != []) ==> n >= |ws|
  {
    if ws == [] then 0 else |ws[0]| + TotalLength(ws[1..])
  }

  /** Reference definition, one code unit at a time: the number of positions
      holding a word character whose predecessor (if any) is not one, that is,
      the number of maximal runs of word characters. `inWord` says whether the
      code unit before `s` was a word character. */
  function WordStarts(inWord: bool, s: Text): nat
    decreases |s|
  {
    if s == [] then 0
    else (if IsWordChar(s[0]) && !inWord then 1 else 0) + WordStarts(IsWordChar(s[0]), s[1..])
  }

  function WordCount(text: Text): (n: nat)
    ensures n == WordStarts(false, text)
  {
    |ExtractWords(text)|
  }

  /** Inside a run of word characters no new word starts. */
  lemma {:induction false} WordStartsSkipRun(s: Text)
    ensures WordStarts(true, s) == WordStarts(false, s[WordRun(s)..])
  {
    if s != [] && IsWordChar(s[0]) {
      WordStartsSkipRun(s[1..]);
      assert s[1..][WordRun(s[1..])..] == s[WordRun(s)..];
    }
  }

  /** The global match finds exactly one word per maximal run. */
  lemma {:induction false} WordsCountRuns(s: Text)
    ensures |Words(s)| == WordStarts(false, s)
    decreases |s|
  {
    if s != [] {
      match WordMatch(s)
      case None =>
        WordsCountRuns(s[1..]);
      case Some(n) =>
        WordsCountRuns(s[n..]);
        WordStartsSkipRun(s[1..]);
        assert s[1..][WordRun(s[1..])..] == s[n..];
    }
  }

  /** Concatenated, the words are exactly the word characters of the text. */
  lemma {:induction false} WordsConcat(s: Text)
    ensures Concat(Words(s)) == Filter(s, IsWordChar)
    decreases |s|
  {
    if s != [] {
      match WordMatch(s)
      case None =>
        WordsConcat(s[1..]);
      case Some(n) =>
        WordsConcat(s[n..]);
        assert s == s[..n] + s[n..];
        FilterAppend(s[..n], s[n..], IsWordChar);
        FilterKeepsAll(s[..n], IsWordChar);
    }
  }

  predicate NoWordChars(s: Text) {
    forall i :: 0 <= i < |s| ==> !IsWordChar(s[i])
  }

  /** The gaps and the words interleaved: the first gap, the first word, the
      second gap and so on, ending with the last gap. */
  function Weave(gaps: seq<Text>, ws: seq<Text>): Text
    requires |gaps| == |ws| + 1
    decreases |ws|
  {
    if ws == [] then gaps[0] else gaps[0] + ws[0] + Weave(gaps[1..], ws[1..])
  }

  /** Each word is a maximal run of word characters, in order: the text is
      the words woven with gaps that hold no word character, and every gap
      between two words is non-empty, so no two words touch. */
  lemma {:induction false} WordsAreRuns(s: Text) returns (gaps: seq<Text>)
    ensures |gaps| == |Words(s)| + 1
    ensures s == Weave(gaps, Words(s))
    ensures forall k :: 0 <= k < |gaps| ==> NoWordChars(gaps[k])
    ensures forall k :: 0 < k < |gaps| - 1 ==> gaps[k] != []
    decreases |s|
  {
    if s == [] {
      gaps := [[]];
    } else {
      match WordMatch(s)
      case None =>
        var rest := WordsAreRuns(s[1..]);
        gaps := [[s[0]] + rest[0]] + rest[1..];
        WeaveHead([s[0]], rest, Words(s[1..]));
        assert s == [s[0]] + s[1..];
        NoWordCharsCons(s[0], rest[0]);
      case Some(n) =>
        var rest := WordsAreRuns(s[n..]);
        var ws := Words(s[n..]);
        gaps := [[]] + rest;
        WeaveWord(s[..n], rest, ws);
        assert s == s[..n] + s[n..];
        if ws != [] && rest[0] == [] {
          WeaveFirstWord(rest, ws);
        }
    }
  }

  lemma {:induction false} NoWordCharsCons(c: CodeUnit, s: Text)
    requires !IsWordChar(c) && NoWordChars(s)
    ensures NoWordChars([c] + s)
  {
    assert forall i :: 0 < i < |[c] + s| ==> ([c] + s)[i] == s[i - 1];
  }

  /** Code units put before the text land in the first gap. */
  lemma {:induction false} WeaveHead(h: Text, gaps: seq<Text>, ws: seq<Text>)
    requires |gaps| == |ws| + 1
    ensures Weave([h + gaps[0]] + gaps[1..], ws) == h + Weave(gaps, ws)
  {
    var gaps' := [h + gaps[0]] + gaps[1..];
    assert gaps'[0] == h + gaps[0] && gaps'[1..] == gaps[1..];
    if ws != [] {
      assert Weave(gaps', ws) == (h + gaps[0]) + ws[0] + Weave(gaps[1..], ws[1..]);
    }
  }

  /** A word put before the text, with an empty gap before it. */
  lemma {:induction false} WeaveWord(w: Text, gaps: seq<Text>, ws: seq<Text>)
    requires |gaps| == |ws| + 1
    ensures Weave([[]] + gaps, [w] + ws) == w + Weave(gaps, ws)
  {
    var gaps', ws' := [[]] + gaps, [w] + ws;
    assert gaps'[0] == [] && gaps'[1..] == gaps;
    assert ws'[0] == w && ws'[1..] == ws;
  }

  /** With an empty first gap, the weave starts with the first word. */
  lemma {:induction false} WeaveFirstWord(gaps: seq<Text>, ws: seq<Text>)
    requires |gaps| == |ws| + 1 && ws != [] && gaps[0] == [] && ws[0] != []
    ensures Weave(gaps, ws) != [] && Weave(gaps, ws)[0] == ws[0][0]
  {
    assert Weave(gaps, ws) == gaps[0] + ws[0] + Weave(gaps[1..], ws[1..]);
  }

  /** A text with no word characters has no words. */
  lemma {:induction false} WordsOfNoWordChars(s: Text)
    requires forall i :: 0 <= i < |s| ==> !IsWordChar(s[i])
    ensures Words(s) == []
    decreases |s|
  {
    if s != [] {
      WordsOfNoWordChars(s[1..]);
    }
  }

  /** Code units that are not word characters at the end do not change the
      words. */
  lemma {:induction false} WordsIgnoreTail(s: Text, tail: Text)
    requires forall i :: 0 <= i < |tail| ==> !IsWordChar(tail[i])
    ensures Words(s + tail) == Words(s)
    decreases |s|
  {
    if s == [] {
      assert s + tail == tail;
      WordsOfNoWordChars(tail);
    } else {
      assert (s + tail)[1..] == s[1..] + tail;
      match WordMatch(s)
      case None =>
        WordsIgnoreTail(s[1..], tail);
      case Some(n) =>
        WordRunIgnoresTail(s, tail);
        assert (s + tail)[..n] == s[..n];
        assert (s + tail)[n..] == s[n..] + tail;
        WordsIgnoreTail(s[n..], tail);
    }
  }

  lemma {:induction false} WordRunIgnoresTail(s: Text, tail: Text)
    requires forall i :: 0 <= i < |tail| ==> !IsWordChar(tail[i])
    ensures WordRun(s + tail) == WordRun(s)
  {
    if s == [] {
      assert s + tail == tail;
    } else {
      assert (s + tail)[1..] == s[1..] + tail;
      WordRunIgnoresTail(s[1..], tail);
    }
  }

  /** Since whitespace is never a word character, trimming before the match
      changes nothing. */
  lemma {:induction false} WordsOfTrim(text: Text)
    ensures Words(Trim(text)) == Words(text)
  {
    var t := Trim(text);
    var head, tail := TrimParts(text);
    assert text == head + (t + tail);
    NoWordCharsInBlank(head);
    WordsSkipHead(head, t + tail);
    NoWordCharsInBlank(tail);
    WordsIgnoreTail(t, tail);
  }

  lemma {:induction false} NoWordCharsInBlank(s: Text)
    requires AllWhitespace(s)
    ensures forall i :: 0 <= i < |s| ==> !IsWordChar(s[i])
  {
    forall i | 0 <= i < |s| ensures !IsWordChar(s[i]) {
      WordCharIsNonWhitespace(s[i]);
    }
  }

  lemma {:induction false} WordsSkipHead(head: Text, s: Text)
    requires forall i :: 0 <= i < |head| ==> !IsWordChar(head[i])
    ensures Words(head + s) == Words(s)
    decreases |head|
  {
    if head == [] {
      assert head + s == s;
    } else {
      assert (head + s)[1..] == head[1..] + s;
      WordsSkipHead(head[1..], s);
    }
  }

  /** A maximal run of word characters is matched as one word. */
  lemma {:induction false} WordsOfRun(w: Text)
    requires w != [] && AllWordChars(w)
    ensures Words(w) == [w]
  {
    WordRunOfRun(w);
    assert WordMatch(w) == Some(|w|);
    assert w[..|w|] == w && w[|w|..] == [];
    assert Words(w) == [w[..|w|]] + Words(w[|w|..]);
  }

  lemma {:induction false} WordRunOfRun(w: Text)
    requires AllWordChars(w)
    ensures WordRun(w) == |w|
  {
    if w != [] {
      WordRunOfRun(w[1..]);
    }
  }

  /** A code unit that is not a word character separates the words: no word
      spans it, and the words on each side are matched as if alone. */
  lemma {:induction false} WordsSplitAt(a: Text, c: CodeUnit, b: Text)
    requires !IsWordChar(c)
    ensures Words(a + [c] + b) == Words(a) + Words(b)
    decreases |a|
  {
    var s, t := a + [c] + b, [c] + b;
    assert s == a + t;
    if a == [] {
      assert s == t && s[1..] == b;
    } else {
      assert s[1..] == a[1..] + [c] + b;
      WordRunStops(a, t);
      match WordMatch(a)
      case None =>
        WordsSplitAt(a[1..], c, b);
      case Some(n) =>
        assert s[..n] == a[..n];
        assert s[n..] == a[n..] + [c] + b;
        WordsSplitAt(a[n..], c, b);
        assert Words(s) == [a[..n]] + (Words(a[n..]) + Words(b));
        assert Words(a) == [a[..n]] + Words(a[n..]);
    }
  }

  lemma {:induction false} WordRunStops(a: Text, t: Text)
    requires t != [] && !IsWordChar(t[0])
    ensures WordRun(a + t) == WordRun(a)
  {
    if a == [] {
      assert a + t == t;
    } else {
      assert (a + t)[1..] == a[1..] + t;
      WordRunStops(a[1..], t);
    }
  }

  /** The word-start count of a concatenation splits at the seam. */
  lemma {:induction false} WordStartsAppend(inWord: bool, a: Text, b: Text)
    ensures WordStarts(inWord, a + b)
         == WordStarts(inWord, a) + WordStarts(if a == [] then inWord else IsWordChar(a[|a| - 1]), b)
    decreases |a|
  {
    if a == [] {
      assert a + b == b;
    } else {
      assert (a + b)[1..] == a[1..] + b;
      WordStartsAppend(IsWordChar(a[0]), a[1..], b);
    }
  }

  /** Appending text never lowers the word count. */
  lemma {:induction false} WordCountMonotone(a: Text, b: Text)
    ensures WordCount(a + b) >= WordCount(a)
  {
    WordStartsAppend(false, a, b);
  }
}
