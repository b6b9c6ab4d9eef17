/**
 * The statistics the word counter computes on every change of the text,
 * and the capped percentages that scale its progress bars.
 */
module TextStatistics {
  import opened JsText
  import opened WordScan
  import opened SentenceScan
  import opened ParagraphSplit

  /** The reading speed the reading time assumes. */
  const WORDS_PER_MINUTE: nat := 200

  /** Caps of the six progress bars: words, characters, characters without
      spaces, paragraphs, sentences and minutes of reading. */
  const WORD_CAP: nat := 1000
  const CHAR_CAP: nat := 5000
  const CHAR_NO_SPACE_CAP: nat := 4000
  const PARAGRAPH_CAP: nat := 50
  const SENTENCE_CAP: nat := 100
  const READING_CAP: nat := 10

  datatype Statistics = Statistics(
    wordCount: nat,
    charCount: nat,
    charCountNoSpace: nat,
    paragraphCount: nat,
    sentenceCount: nat,
    readingTime: nat,
    avgWordLength: real,
    avgWordsPerSentence: real)

  /** The length of the text with every whitespace unit removed. */
  function CharCountNoSpace(text: Text): (n: nat)
    ensures n + |Filter(text, IsWhitespace)| == |text|
    ensures n <= |text|
    ensures n == |text| <==> forall i :: 0 <= i < |text| ==> IsNonWhitespace(text[i])
  {
    FilterComplement(text, IsNonWhitespace, IsWhitespace);
    FilterKeepsAll(text, IsNonWhitespace);
    |Filter(text, IsNonWhitespace)|
  }

  /** The sum of the lengths of the words. */
  function TotalWordLength(text: Text): (n: nat)
    ensures n == |Filter(text, IsWordChar)|
    ensures WordCount(text) <= n <= CharCountNoSpace(text)
  {
    WordLengthBounds(text);
    TotalLength(ExtractWords(text))
  }

  lemma {:induction false} WordLengthBounds(text: Text)
    ensures TotalLength(ExtractWords(text)) == |Filter(text, IsWordChar)|
    ensures |ExtractWords(text)| <= |Filter(text, IsWordChar)| <= |Filter(text, IsNonWhitespace)|
  {
    var ws := ExtractWords(text);
    WordsConcat(text);
    assert TotalLength(ws) == |Concat(ws)|;
    forall c ensures IsWordChar(c) ==> IsNonWhitespace(c) {
      WordCharIsNonWhitespace(c);
    }
    FilterMonotone(text, IsWordChar, IsNonWhitespace);
  }

  /** Minutes of reading, rounded up to whole minutes. */
  function ReadingTime(words: nat): (minutes: nat)
    ensures minutes == 0 <==> words == 0
    ensures words > 0 ==> WORDS_PER_MINUTE * (minutes - 1) < words <= WORDS_PER_MINUTE * minutes
  {
    (words + WORDS_PER_MINUTE - 1) / WORDS_PER_MINUTE
  }

  /** A quotient guarded against a zero divisor, as an exact rational. */
  function GuardedRatio(total: nat, count: nat): (r: real)
    ensures count == 0 ==> r == 0.0
    ensures count > 0 ==> r * count as real == total as real
    ensures r >= 0.0
  {
    if count > 0 then total as real / count as real else 0.0
  }

  /** The statistics of one text. The two averages are guarded quotients:
      the total length of the words over their number, and the number of
      words over the number of sentences. */
  function ComputeStatistics(text: Text): (st: Statistics)
    ensures st.wordCount == WordStarts(false, text)
    ensures st.charCount == |text|
    ensures st.charCountNoSpace + |Filter(text, IsWhitespace)| == st.charCount
    ensures st.paragraphCount == ParagraphStarts(false, text)
    ensures st.paragraphCount <= LineFeedRuns(false, text) + 1
    ensures st.sentenceCount == SentenceEnds(false, text)
    ensures st.readingTime == 0 <==> st.wordCount == 0
    ensures st.wordCount > 0 ==>
              WORDS_PER_MINUTE * (st.readingTime - 1) < st.wordCount <= WORDS_PER_MINUTE * st.readingTime
    ensures st.avgWordLength == GuardedRatio(|Filter(text, IsWordChar)|, st.wordCount)
    ensures st.avgWordsPerSentence == GuardedRatio(st.wordCount, st.sentenceCount)
  {
    var words := WordCount(text);
    Statistics(
      words,
      |text|,
      CharCountNoSpace(text),
      ParagraphCount(text),
      SentenceCount(text),
      ReadingTime(words),
      GuardedRatio(TotalWordLength(text), words),
      GuardedRatio(words, SentenceCount(text)))
  }

  /** Every word has at least one unit and none is whitespace, so a text with
      words has an average word length between one and its number of
      non-whitespace units per word. */
  lemma {:induction false} AverageWordLengthBounds(text: Text)
    ensures var st := ComputeStatistics(text);
      st.wordCount > 0 ==> 1.0 <= st.avgWordLength && AtMostPerWord(st.avgWordLength, st.wordCount, st.charCountNoSpace)
  {
    var st := ComputeStatistics(text);
    var total := TotalWordLength(text);
    assert st.avgWordLength == GuardedRatio(total, st.wordCount);
    if st.wordCount > 0 {
      RatioBounds(st.avgWordLength, total, st.wordCount, st.charCountNoSpace);
    }
  }

  /** `count` items of average size `avg` fit in `bound`. */
  predicate AtMostPerWord(avg: real, count: nat, bound: nat) {
    avg * count as real <= bound as real
  }

  /** A guarded quotient of a total no smaller than the count is at least
      one, and the quotient times the count stays under any bound of the
      total. */
  lemma {:induction false} RatioBounds(r: real, total: nat, count: nat, bound: nat)
    requires r == GuardedRatio(total, count)
    requires 0 < count <= total <= bound
    ensures 1.0 <= r
    ensures AtMostPerWord(r, count, bound)
  {
    RatioProduct(total, count);
    RatioAtLeastOne(total, count);
  }

  lemma {:induction false} RatioProduct(total: nat, count: nat)
    ensures count > 0 ==> GuardedRatio(total, count) * count as real == total as real
  {
  }

  lemma {:induction false} RatioAtLeastOne(total: nat, count: nat)
    requires 0 < count <= total
    ensures GuardedRatio(total, count) >= 1.0
  {
    DivAtMost(total as real, count as real, 1.0);
  }

  lemma {:induction false} MulStrict(a: real, b: real, c: real)
    requires c > 0.0 && a < b
    ensures a * c < b * c
  {
  }

  /** Dividing by a positive number keeps the side of a bound. */
  lemma {:induction false} DivAtMost(x: real, y: real, z: real)
    requires y > 0.0
    ensures x / y <= z <==> x <= z * y
  {
    assert (x / y) * y == x;
    if x / y <= z && x > z * y { MulStrict(z, x / y, y); }
    if x <= z * y && x / y > z { MulStrict(z, x / y, y); }
  }

  /** Width of a progress bar in percent: the value as a share of the cap,
      at most one hundred. */
  function Percentage(value: int, max: int): (p: real)
    requires max > 0
    ensures p <= 100.0
    ensures value >= 0 ==> p >= 0.0
    ensures p == 100.0 <==> value >= max
    ensures value < max ==> p * max as real == value as real * 100.0
  {
    var share := (value as real / max as real) * 100.0;
    ShareBounds(value as real, max as real);
    if share <= 100.0 then share else 100.0
  }

  /** The share of `v` in `m`, in percent, against the one hundred percent
      of `v == m`. */
  lemma {:induction false} ShareBounds(v: real, m: real)
    requires m > 0.0
    ensures (v / m) * 100.0 <= 100.0 <==> v <= m
    ensures (v / m) * 100.0 == 100.0 <==> v == m
    ensures v >= 0.0 ==> (v / m) * 100.0 >= 0.0
    ensures ((v / m) * 100.0) * m == v * 100.0
  {
    var q := v / m;
    assert q * m == v;
    if q < 1.0 { MulStrict(q, 1.0, m); }
    if q > 1.0 { MulStrict(1.0, q, m); }
    if q < 0.0 { MulStrict(q, 0.0, m); }
    assert (q * 100.0) * m == (q * m) * 100.0;
  }

  datatype ProgressBars = ProgressBars(
    wordProgress: real,
    charProgress: real,
    charNoSpaceProgress: real,
    paragraphProgress: real,
    sentenceProgress: real,
    readingProgress: real)

  /** The six bar widths for a set of statistics. */
  function Progress(st: Statistics): (bars: ProgressBars)
    ensures 0.0 <= bars.wordProgress <= 100.0 && 0.0 <= bars.charProgress <= 100.0
    ensures 0.0 <= bars.charNoSpaceProgress <= 100.0 && 0.0 <= bars.paragraphProgress <= 100.0
    ensures 0.0 <= bars.sentenceProgress <= 100.0 && 0.0 <= bars.readingProgress <= 100.0
    ensures bars.wordProgress == 100.0 <==> st.wordCount >= WORD_CAP
    ensures bars.charProgress == 100.0 <==> st.charCount >= CHAR_CAP
    ensures bars.charNoSpaceProgress == 100.0 <==> st.charCountNoSpace >= CHAR_NO_SPACE_CAP
    ensures bars.paragraphProgress == 100.0 <==> st.paragraphCount >= PARAGRAPH_CAP
    ensures bars.sentenceProgress == 100.0 <==> st.sentenceCount >= SENTENCE_CAP
    ensures bars.readingProgress == 100.0 <==> st.readingTime >= READING_CAP
  {
    ProgressBars(
      Percentage(st.wordCount, WORD_CAP),
      Percentage(st.charCount, CHAR_CAP),
      Percentage(st.charCountNoSpace, CHAR_NO_SPACE_CAP),
      Percentage(st.paragraphCount, PARAGRAPH_CAP),
      Percentage(st.sentenceCount, SENTENCE_CAP),
      Percentage(st.readingTime, READING_CAP))
  }

  /** The empty text gives zero everywhere. */
  lemma {:induction false} EmptyTextStatistics()
    ensures ComputeStatistics([]) == Statistics(0, 0, 0, 0, 0, 0, 0.0, 0.0)
  {
  }

  /** Blank text has no words, paragraphs, sentences or reading time; only
      its raw length is counted. */
  lemma {:induction false} BlankTextStatistics(text: Text)
    requires AllWhitespace(text)
    ensures var st := ComputeStatistics(text);
      && st.wordCount == 0 && st.charCount == |text| && st.charCountNoSpace == 0
      && st.paragraphCount == 0 && st.sentenceCount == 0 && st.readingTime == 0
      && st.avgWordLength == 0.0 && st.avgWordsPerSentence == 0.0
  {
    assert Trim(text) == [];
    WordsCountRuns(text);
    BlankHasNoParagraph(text);
    forall i | 0 <= i < |text| ensures !IsTerminator(text[i]) {
    }
    NoTerminatorNoSentence(text);
    FilterKeepsAll(text, IsWhitespace);
  }

  /** Appending text never lowers any of the counts. */
  lemma {:induction false} AppendNeverLowersCounts(a: Text, b: Text)
    ensures var before, after := ComputeStatistics(a), ComputeStatistics(a + b);
      && after.wordCount >= before.wordCount
      && after.charCount >= before.charCount
      && after.charCountNoSpace >= before.charCountNoSpace
      && after.paragraphCount >= before.paragraphCount
      && after.sentenceCount >= before.sentenceCount
      && after.readingTime >= before.readingTime
  {
    WordCountMonotone(a, b);
    SentenceCountMonotone(a, b);
    ParagraphCountMonotone(a, b);
    FilterAppend(a, b, IsNonWhitespace);
    ReadingTimeMonotone(WordCount(a), WordCount(a + b));
  }

  lemma {:induction false} ReadingTimeMonotone(m: nat, n: nat)
    requires m <= n
    ensures ReadingTime(m) <= ReadingTime(n)
  {
  }

  /** Appending one well-formed sentence adds exactly one sentence and loses
      no word. */
  lemma {:induction false} AppendSentenceStatistics(text: Text, sentence: Text)
    requires IsSentence(sentence)
    ensures var before, after := ComputeStatistics(text), ComputeStatistics(text + sentence);
      && after.sentenceCount == before.sentenceCount + 1
      && after.wordCount >= before.wordCount
  {
    AppendSentence(text, sentence);
    WordCountMonotone(text, sentence);
  }
}
