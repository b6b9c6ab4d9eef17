/**
 * Sentence counting: the global match of "one or more non-terminators, then
 * one or more terminators", and its relation to a one-unit-at-a-time count
 * of terminator runs that follow text.
 */
module SentenceScan {
  import opened JsText

  predicate NoTerminators(s: Text) {
    forall i :: 0 <= i < |s| ==> !IsTerminator(s[i])
  }

  predicate AllTerminators(s: Text) {
    forall i :: 0 <= i < |s| ==> IsTerminator(s[i])
  }

  /** Length of the longest prefix of `s` without a terminator. */
  function TextRun(s: Text): (n: nat)
    ensures n <= |s| && NoTerminators(s[..n])
    ensures n == |s| || IsTerminator(s[n])
  {
    if s != [] && !IsTerminator(s[0]) then 1 + TextRun(s[1..]) else 0
  }

  /** Length of the longest prefix of `s` made of terminators. */
  function TerminatorRun(s: Text): (n: nat)
    ensures n <= |s| && AllTerminators(s[..n])
    ensures n == |s| || !IsTerminator(s[n])
  {
    if s != [] && IsTerminator(s[0]) then 1 + TerminatorRun(s[1..]) else 0
  }

  /** A sentence as the pattern matches it: a non-empty stretch without
      terminators followed by a non-empty run of terminators. */
  predicate IsSentence(m: Text) {
    var a := TextRun(m);
    0 < a < |m| && AllTerminators(m[a..])
  }

  /** The match of the sentence pattern anchored at the start of `s`. The
      greedy first part takes the whole terminator-free prefix; the second
      part then needs a terminator right after it and takes the whole run.
      Giving back part of the prefix cannot help, since the unit given back
      is not a terminator, so without a terminator after the prefix there is
      no match. */
  function SentenceMatch(s: Text): (m: Option<nat>)
    ensures m.Some? <==> 0 < TextRun(s) < |s|
    ensures m.Some? ==> 0 < m.value <= |s| && IsSentence(s[..m.value])
                        && (m.value == |s| || !IsTerminator(s[m.value]))
  {
    var a := TextRun(s);
    if a == 0 || a == |s| then None
    else
      var n := a + TerminatorRun(s[a..]);
      assert s[..n][..a] == s[..a];
      assert TextRun(s[..n]) == a by { TextRunOfPrefix(s, n); }
      assert s[..n][a..] == s[a..][..n - a];
      Some(n)
  }

  /** Cutting the text after its terminator-free prefix keeps that prefix. */
  lemma {:induction false} TextRunOfPrefix(s: Text, n: nat)
    requires TextRun(s) < n <= |s|
    ensures TextRun(s[..n]) == TextRun(s)
  {
    if s != [] && !IsTerminator(s[0]) {
      assert s[..n][1..] == s[1..][..n - 1];
      TextRunOfPrefix(s[1..], n - 1);
    }
  }

  /** The global match of the sentence pattern over `s`: where no match
      starts, the search moves on by one code unit; after a match it resumes
      where the match ended. */
  function Sentences(s: Text): (ss: seq<Text>)
    ensures forall k :: 0 <= k < |ss| ==> IsSentence(ss[k])
    decreases |s|
  {
    if s == [] then []
    else
      match SentenceMatch(s)
      case None => Sentences(s[1..])
      case Some(n) => [s[..n]] + Sentences(s[n..])
  }

  /** Reference definition, one code unit at a time: the number of positions
      holding a terminator whose predecessor exists and is not a terminator,
      that is, the number of maximal terminator runs that follow text.
      `afterText` says whether the code unit before `s` was a non-terminator. */
  function SentenceEnds(afterText: bool, s: Text): nat
    decreases |s|
  {
    if s == [] then 0
    else (if IsTerminator(s[0]) && afterText then 1 else 0) + SentenceEnds(!IsTerminator(s[0]), s[1..])
  }

  function SentenceCount(text: Text): (n: nat)
    ensures n == SentenceEnds(false, text)
  {
    SentencesCountEnds(text);
    |Sentences(text)|
  }

  /** The state of the reference count after a non-empty stretch of text
      depends only on its last unit. */
  lemma {:induction false} SentenceEndsSkipText(afterText: bool, s: Text)
    requires 0 < TextRun(s)
    ensures SentenceEnds(afterText, s) == SentenceEnds(true, s[TextRun(s)..])
    decreases |s|
  {
    if TextRun(s) > 1 {
      SentenceEndsSkipText(true, s[1..]);
      assert s[1..][TextRun(s[1..])..] == s[TextRun(s)..];
    } else {
      assert s[1..] == s[TextRun(s)..];
      if s[1..] != [] {
        assert IsTerminator(s[1..][0]);
      }
    }
  }

  /** Terminators after terminators end no sentence. */
  lemma {:induction false} SentenceEndsSkipTerminators(s: Text)
    ensures SentenceEnds(false, s) == SentenceEnds(false, s[TerminatorRun(s)..])
    decreases |s|
  {
    if s != [] && IsTerminator(s[0]) {
      SentenceEndsSkipTerminators(s[1..]);
      assert s[1..][TerminatorRun(s[1..])..] == s[TerminatorRun(s)..];
    }
  }

  /** Text without terminators contributes nothing to the reference count. */
  lemma {:induction false} SentenceEndsNoTerminators(afterText: bool, s: Text)
    requires NoTerminators(s)
    ensures SentenceEnds(afterText, s) == 0
    decreases |s|
  {
    if s != [] {
      SentenceEndsNoTerminators(true, s[1..]);
    }
  }

  /** The global match finds exactly one sentence per run of terminators that
      follows text. */
  lemma {:induction false} SentencesCountEnds(s: Text)
    ensures |Sentences(s)| == SentenceEnds(false, s)
    decreases |s|
  {
    if s != [] {
      var a := TextRun(s);
      match SentenceMatch(s)
      case None =>
        SentencesCountEnds(s[1..]);
        if a == |s| {
          assert s[..a] == s;
          SentenceEndsNoTerminators(false, s);
          assert NoTerminators(s[1..]) by {
            assert forall i :: 0 <= i < |s[1..]| ==> s[1..][i] == s[i + 1];
          }
          SentenceEndsNoTerminators(false, s[1..]);
        }
      case Some(n) =>
        SentencesCountEnds(s[n..]);
        SentenceEndsSkipText(false, s);
        var rest := s[a..];
        assert IsTerminator(rest[0]);
        SentenceEndsSkipTerminators(rest[1..]);
        assert rest[1..][TerminatorRun(rest[1..])..] == s[n..];
    }
  }

  /** Text with no terminator has no sentences, however long it is. */
  lemma {:induction false} NoTerminatorNoSentence(text: Text)
    requires NoTerminators(text)
    ensures SentenceCount(text) == 0
  {
    SentenceEndsNoTerminators(false, text);
  }

  /** Text made only of terminators has no sentences either. */
  lemma {:induction false} OnlyTerminatorsNoSentence(text: Text)
    requires AllTerminators(text)
    ensures SentenceCount(text) == 0
  {
    SentenceEndsSkipTerminators(text);
    assert TerminatorRun(text) == |text|;
  }

  /** A well-formed sentence is matched whole, as one sentence. */
  lemma {:induction false} SentencesOfSentence(m: Text)
    requires IsSentence(m)
    ensures Sentences(m) == [m]
  {
    var a := TextRun(m);
    TerminatorRunOfRun(m[a..]);
    assert SentenceMatch(m) == Some(|m|);
    assert m[..|m|] == m && m[|m|..] == [];
    assert Sentences(m) == [m[..|m|]] + Sentences(m[|m|..]);
  }

  lemma {:induction false} TerminatorRunOfRun(s: Text)
    requires AllTerminators(s)
    ensures TerminatorRun(s) == |s|
  {
    if s != [] {
      TerminatorRunOfRun(s[1..]);
    }
  }

  /** Text with no terminator, or with nothing but terminators, holds no
      match. */
  lemma {:induction false} SentencesOfNoSentence(s: Text)
    requires NoTerminators(s) || AllTerminators(s)
    ensures Sentences(s) == []
  {
    SentencesCountEnds(s);
    if NoTerminators(s) {
      NoTerminatorNoSentence(s);
    } else {
      OnlyTerminatorsNoSentence(s);
    }
  }

  /** The matches cover the text except for leading terminators and a
      trailing stretch without terminators: they lie back to back, so each
      one ends with the whole run of terminators that closes it, and the
      next one starts right after. */
  lemma {:induction false} SentencesCover(s: Text) returns (lead: Text, rest: Text)
    ensures s == lead + Concat(Sentences(s)) + rest
    ensures AllTerminators(lead) && NoTerminators(rest)
    decreases |s|
  {
    if s == [] {
      lead, rest := [], [];
    } else {
      match SentenceMatch(s)
      case None =>
        if TextRun(s) == |s| {
          lead, rest := CoverNone(s);
        } else {
          var lead', rest' := SentencesCover(s[1..]);
          lead, rest := CoverSkip(s, lead', rest');
        }
      case Some(n) =>
        var lead', rest' := SentencesCover(s[n..]);
        SentencesStep(s, n);
        lead, rest := CoverStep(s, n, Sentences(s[n..]), lead', rest');
    }
  }

  /** A match followed by the cover of what comes after it. */
  lemma {:induction false} CoverStep(s: Text, n: nat, ms: seq<Text>, lead': Text, rest': Text) returns (lead: Text, rest: Text)
    requires n <= |s| && (n == |s| || !IsTerminator(s[n]))
    requires Sentences(s) == [s[..n]] + ms
    requires s[n..] == lead' + Concat(ms) + rest'
    requires AllTerminators(lead') && NoTerminators(rest')
    ensures s == lead + Concat(Sentences(s)) + rest
    ensures AllTerminators(lead) && NoTerminators(rest)
  {
    CoverMatch(s, n, ms, lead', rest');
    lead, rest := [], rest';
    CoverAssemble(s, Sentences(s), [s[..n]] + ms, rest');
  }

  lemma {:induction false} CoverAssemble(s: Text, x: seq<Text>, y: seq<Text>, rest: Text)
    requires x == y && s == Concat(y) + rest
    ensures s == [] + Concat(x) + rest
  {
  }

  /** Text without a terminator is all trailing stretch. */
  lemma {:induction false} CoverNone(s: Text) returns (lead: Text, rest: Text)
    requires TextRun(s) == |s|
    ensures s == lead + Concat(Sentences(s)) + rest
    ensures AllTerminators(lead) && NoTerminators(rest)
  {
    assert s[..TextRun(s)] == s;
    SentencesOfNoSentence(s);
    lead, rest := [], s;
  }

  /** A leading terminator joins the leading run. */
  lemma {:induction false} CoverSkip(s: Text, lead': Text, rest': Text) returns (lead: Text, rest: Text)
    requires s != [] && SentenceMatch(s).None? && TextRun(s) < |s|
    requires s[1..] == lead' + Concat(Sentences(s[1..])) + rest'
    requires AllTerminators(lead') && NoTerminators(rest')
    ensures s == lead + Concat(Sentences(s)) + rest
    ensures AllTerminators(lead) && NoTerminators(rest)
  {
    lead, rest := [s[0]] + lead', rest';
    AllTerminatorsCons(s[0], lead');
    assert Sentences(s) == Sentences(s[1..]);
    assert s == [s[0]] + s[1..];
    PrependLead([s[0]], lead', Concat(Sentences(s[1..])), rest');
  }

  lemma {:induction false} PrependLead(h: Text, lead: Text, mid: Text, rest: Text)
    ensures h + (lead + mid + rest) == (h + lead) + mid + rest
  {
  }

  /** A match is followed directly by the next one or by the trailing
      stretch: what follows it does not start with a terminator. */
  lemma {:induction false} CoverMatch(s: Text, n: nat, ms: seq<Text>, lead: Text, rest: Text)
    requires n <= |s| && (n == |s| || !IsTerminator(s[n]))
    requires s[n..] == lead + Concat(ms) + rest && AllTerminators(lead)
    ensures s == Concat([s[..n]] + ms) + rest
  {
    var m, tail, c := s[..n], s[n..], Concat(ms);
    ConcatCons(m, ms);
    NoLeadAfterRun(tail, lead, c, rest);
    assert tail == c + rest;
    assert s == m + tail;
    AppendMatch(m, c, rest);
  }

  /** Text that does not start with a terminator has no leading terminators. */
  lemma {:induction false} NoLeadAfterRun(t: Text, lead: Text, mid: Text, rest: Text)
    requires t == lead + mid + rest && AllTerminators(lead)
    requires t == [] || !IsTerminator(t[0])
    ensures lead == [] && t == mid + rest
  {
    assert forall i :: 0 <= i < |lead| ==> t[i] == lead[i];
  }

  lemma {:induction false} AppendMatch(m: Text, mid: Text, rest: Text)
    ensures m + (mid + rest) == (m + mid) + rest
  {
  }

  lemma {:induction false} AllTerminatorsCons(c: CodeUnit, s: Text)
    requires IsTerminator(c) && AllTerminators(s)
    ensures AllTerminators([c] + s)
  {
    assert forall i :: 0 < i < |[c] + s| ==> ([c] + s)[i] == s[i - 1];
  }

  lemma {:induction false} ConcatCons(t: Text, ts: seq<Text>)
    ensures Concat([t] + ts) == t + Concat(ts)
  {
    assert ([t] + ts)[0] == t && ([t] + ts)[1..] == ts;
  }

  /** Where a terminator is followed by a non-terminator, no sentence spans
      the seam: the sentences on each side are matched as if alone. */
  lemma {:induction false} SentencesSplitAt(a: Text, b: Text)
    requires a == [] || IsTerminator(a[|a| - 1])
    requires b == [] || !IsTerminator(b[0])
    ensures Sentences(a + b) == Sentences(a) + Sentences(b)
    decreases |a|
  {
    if a == [] {
      assert a + b == b;
    } else if b == [] {
      assert a + b == a;
    } else {
      SentenceMatchAppend(a, b);
      var n := MatchEnd(a);
      var rest := a[n..];
      assert rest == [] || rest[|rest| - 1] == a[|a| - 1];
      SliceAppend(a, b, n);
      SentencesSplitAt(rest, b);
      SentencesStep(a, n);
      SentencesStep(a + b, n);
    }
  }

  /** Where the global match resumes after trying the start of `s`. */
  function MatchEnd(s: Text): (n: nat)
    requires s != []
    ensures 0 < n <= |s|
  {
    match SentenceMatch(s)
    case None => 1
    case Some(n) => n
  }

  /** One step of the global match. */
  lemma {:induction false} SentencesStep(s: Text, n: nat)
    requires s != [] && n == MatchEnd(s)
    ensures Sentences(s) == (if SentenceMatch(s).Some? then [s[..n]] else []) + Sentences(s[n..])
  {
  }

  lemma {:induction false} SliceAppend(a: Text, b: Text, n: nat)
    requires n <= |a|
    ensures (a + b)[..n] == a[..n] && (a + b)[n..] == a[n..] + b
  {
  }

  /** Under the same conditions the anchored match at the start is the same
      with or without `b`. */
  lemma {:induction false} SentenceMatchAppend(a: Text, b: Text)
    requires a != [] && IsTerminator(a[|a| - 1])
    requires b != [] && !IsTerminator(b[0])
    ensures SentenceMatch(a + b) == SentenceMatch(a)
  {
    var t := TextRun(a);
    TextRunStops(a);
    TextRunAppend(a, b);
    if t > 0 {
      assert (a + b)[t..] == a[t..] + b;
      TerminatorRunAppend(a[t..], b);
    }
  }

  /** Text ending in a terminator is not terminator-free. */
  lemma {:induction false} TextRunStops(a: Text)
    requires a != [] && IsTerminator(a[|a| - 1])
    ensures TextRun(a) < |a|
  {
    if !IsTerminator(a[0]) {
      assert a[1..][|a[1..]| - 1] == a[|a| - 1];
      TextRunStops(a[1..]);
    }
  }

  /** The terminator-free prefix ends inside `a` or at a terminator. */
  lemma {:induction false} TextRunAppend(a: Text, b: Text)
    requires TextRun(a) < |a| || b == [] || IsTerminator(b[0])
    ensures TextRun(a + b) == TextRun(a)
  {
    if a == [] {
      assert a + b == b;
    } else {
      assert (a + b)[1..] == a[1..] + b;
      if !IsTerminator(a[0]) {
        TextRunAppend(a[1..], b);
      }
    }
  }

  /** The terminator run ends inside `a` or at a non-terminator. */
  lemma {:induction false} TerminatorRunAppend(a: Text, b: Text)
    requires TerminatorRun(a) < |a| || b == [] || !IsTerminator(b[0])
    ensures TerminatorRun(a + b) == TerminatorRun(a)
  {
    if a == [] {
      assert a + b == b;
    } else {
      assert (a + b)[1..] == a[1..] + b;
      if IsTerminator(a[0]) {
        TerminatorRunAppend(a[1..], b);
      }
    }
  }

  /** The reference count of a concatenation splits at the seam. */
  lemma {:induction false} SentenceEndsAppend(afterText: bool, a: Text, b: Text)
    ensures SentenceEnds(afterText, a + b)
         == SentenceEnds(afterText, a) + SentenceEnds(if a == [] then afterText else !IsTerminator(a[|a| - 1]), b)
    decreases |a|
  {
    if a == [] {
      assert a + b == b;
    } else {
      assert (a + b)[1..] == a[1..] + b;
      SentenceEndsAppend(!IsTerminator(a[0]), a[1..], b);
    }
  }

  /** Appending text never lowers the sentence count. */
  lemma {:induction false} SentenceCountMonotone(a: Text, b: Text)
    ensures SentenceCount(a + b) >= SentenceCount(a)
  {
    SentenceEndsAppend(false, a, b);
  }

  /** Appending one well-formed sentence adds exactly one to the count. */
  lemma {:induction false} AppendSentence(text: Text, sentence: Text)
    requires IsSentence(sentence)
    ensures SentenceCount(text + sentence) == SentenceCount(text) + 1
  {
    SentenceEndsAppend(false, text, sentence);
    var a := TextRun(sentence);
    SentenceEndsSkipText(if text == [] then false else !IsTerminator(text[|text| - 1]), sentence);
    var tail := sentence[a..];
    assert IsTerminator(tail[0]);
    OnlyTerminatorsNoSentence(tail[1..]);
  }
}
