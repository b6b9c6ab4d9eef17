/**
 * Worked cases of the statistics on concrete texts. Each count is taken on
 * its one-unit-at-a-time definition, and the record is then assembled from
 * those counts.
 */
module StatisticsExamples {
  import opened JsText
  import opened WordScan
  import opened SentenceScan
  import opened ParagraphSplit
  import opened TextStatistics

  const HELLO: Text := [0x48, 0x65, 0x6C, 0x6C, 0x6F]
  const WORLD: Text := [0x77, 0x6F, 0x72, 0x6C, 0x64]
  const SPACE: Text := [0x20]
  const FULL_STOP: Text := [0x2E]

  /** "Hello world." */
  const HELLO_WORLD: Text := [0x48, 0x65, 0x6C, 0x6C, 0x6F, 0x20, 0x77, 0x6F, 0x72, 0x6C, 0x64, 0x2E]

  /** The two Arabic words "marhaban" and "bil-alam". */
  const MARHABAN: Text := [0x0645, 0x0631, 0x062D, 0x0628, 0x0627]
  const BIL_ALAM: Text := [0x0628, 0x0627, 0x0644, 0x0639, 0x0627, 0x0644, 0x0645]

  /** "marhaban bil-alam": two Arabic words, one space, no terminator. */
  const ARABIC_GREETING: Text := [0x0645, 0x0631, 0x062D, 0x0628, 0x0627, 0x20,
                                  0x0628, 0x0627, 0x0644, 0x0639, 0x0627, 0x0644, 0x0645]

  /** "Hello world." has two words and one sentence, twelve code units of
      which eleven are not whitespace, two words per sentence, five units
      per word and one minute of reading. */
  lemma {:induction false} HelloWorldStatistics(text: Text)
    requires text == HELLO_WORLD
    ensures var st := ComputeStatistics(text);
      && st.wordCount == 2 && st.sentenceCount == 1 && st.paragraphCount == 1
      && st.charCount == 12 && st.charCountNoSpace == 11
      && st.avgWordsPerSentence == 2.0 && st.avgWordLength == 5.0 && st.readingTime == 1
  {
    HelloWorldWords();
    HelloWorldSentences();
    HelloWorldParagraphs();
    HelloWorldUnits(text);
    StatisticsFromCounts(text, 2, 1, 10, 1, 1);
    RatioProduct(10, 2);
    RatioProduct(2, 1);
  }

  /** Arabic-script words are counted like Latin ones, the interior space
      counts towards the raw length only, and without a terminator there is
      no sentence and the words-per-sentence average is zero. */
  lemma {:induction false} ArabicGreetingStatistics(text: Text)
    requires text == ARABIC_GREETING
    ensures var st := ComputeStatistics(text);
      && st.wordCount == 2 && st.charCount == 13 && st.charCountNoSpace == 12
      && st.sentenceCount == 0 && st.avgWordsPerSentence == 0.0 && st.paragraphCount == 1
  {
    ArabicGreetingWords();
    ArabicGreetingSentences();
    ArabicGreetingParagraphs();
    ArabicGreetingUnits(text);
    StatisticsFromCounts(text, 2, 1, 12, 1, 0);
  }

  /** The reading time rounds up to whole minutes of two hundred words. */
  lemma {:induction false} ReadingTimeCases()
    ensures ReadingTime(0) == 0 && ReadingTime(199) == 1 && ReadingTime(200) == 1
    ensures ReadingTime(201) == 2 && ReadingTime(400) == 2
  {
  }

  /** The record, assembled from the counts of its text. */
  lemma {:induction false} StatisticsFromCounts(text: Text, words: nat, blanks: nat, wordUnits: nat,
                                                paragraphs: nat, sentences: nat)
    requires WordStarts(false, text) == words
    requires |Filter(text, IsWhitespace)| == blanks
    requires |Filter(text, IsWordChar)| == wordUnits
    requires ParagraphStarts(false, text) == paragraphs
    requires SentenceEnds(false, text) == sentences
    ensures blanks <= |text|
    ensures ComputeStatistics(text)
         == Statistics(words, |text|, |text| - blanks, paragraphs, sentences, ReadingTime(words),
                       GuardedRatio(wordUnits, words), GuardedRatio(words, sentences))
  {
  }

  lemma {:induction false} HelloWorldWords()
    ensures WordStarts(false, HELLO_WORLD) == 2
  {
  }

  lemma {:induction false} HelloWorldSentences()
    ensures SentenceEnds(false, HELLO_WORLD) == 1
  {
  }

  lemma {:induction false} HelloWorldParagraphs()
    ensures ParagraphStarts(false, HELLO_WORLD) == 1
  {
    assert IsNonWhitespace(HELLO_WORLD[0]);
    SingleLineIsOneParagraph(HELLO_WORLD);
  }

  lemma {:induction false} HelloWorldUnits(text: Text)
    requires text == HELLO_WORLD
    ensures |Filter(text, IsWhitespace)| == 1
    ensures |Filter(text, IsWordChar)| == 10
  {
    assert text == HELLO + SPACE + WORLD + FULL_STOP;
    HelloWorldPieces();
    FilterFourParts(HELLO, SPACE, WORLD, FULL_STOP, IsWhitespace);
    FilterFourParts(HELLO, SPACE, WORLD, FULL_STOP, IsWordChar);
  }

  lemma {:induction false} HelloWorldPieces()
    ensures |Filter(HELLO, IsWhitespace)| == 0 && |Filter(HELLO, IsWordChar)| == 5
    ensures |Filter(SPACE, IsWhitespace)| == 1 && |Filter(SPACE, IsWordChar)| == 0
    ensures |Filter(WORLD, IsWhitespace)| == 0 && |Filter(WORLD, IsWordChar)| == 5
    ensures |Filter(FULL_STOP, IsWhitespace)| == 0 && |Filter(FULL_STOP, IsWordChar)| == 0
  {
    AsciiWords();
    WordPiece(HELLO);
    WordPiece(WORLD);
    SpacePiece();
    FullStopPiece();
  }

  lemma {:induction false} ArabicGreetingWords()
    ensures WordStarts(false, ARABIC_GREETING) == 2
  {
  }

  lemma {:induction false} ArabicGreetingSentences()
    ensures SentenceEnds(false, ARABIC_GREETING) == 0
  {
    assert NoTerminators(ARABIC_GREETING);
    SentenceEndsNoTerminators(false, ARABIC_GREETING);
  }

  lemma {:induction false} ArabicGreetingParagraphs()
    ensures ParagraphStarts(false, ARABIC_GREETING) == 1
  {
    assert IsNonWhitespace(ARABIC_GREETING[0]);
    SingleLineIsOneParagraph(ARABIC_GREETING);
  }

  lemma {:induction false} ArabicGreetingUnits(text: Text)
    requires text == ARABIC_GREETING
    ensures |Filter(text, IsWhitespace)| == 1
    ensures |Filter(text, IsWordChar)| == 12
  {
    assert text == MARHABAN + SPACE + BIL_ALAM + [];
    ArabicGreetingPieces();
    FilterFourParts(MARHABAN, SPACE, BIL_ALAM, [], IsWhitespace);
    FilterFourParts(MARHABAN, SPACE, BIL_ALAM, [], IsWordChar);
  }

  lemma {:induction false} ArabicGreetingPieces()
    ensures |Filter(MARHABAN, IsWhitespace)| == 0 && |Filter(MARHABAN, IsWordChar)| == 5
    ensures |Filter(SPACE, IsWhitespace)| == 1 && |Filter(SPACE, IsWordChar)| == 0
    ensures |Filter(BIL_ALAM, IsWhitespace)| == 0 && |Filter(BIL_ALAM, IsWordChar)| == 7
  {
    assert AllWordChars(MARHABAN) && AllWordChars(BIL_ALAM);
    WordPiece(MARHABAN);
    WordPiece(BIL_ALAM);
    SpacePiece();
  }

  lemma {:induction false} AsciiWords()
    ensures AllWordChars(HELLO) && AllWordChars(WORLD)
  {
  }

  lemma {:induction false} SpacePiece()
    ensures |Filter(SPACE, IsWhitespace)| == 1 && |Filter(SPACE, IsWordChar)| == 0
  {
    assert IsWhitespace(SPACE[0]) && !IsWordChar(SPACE[0]);
    FilterKeepsAll(SPACE, IsWhitespace);
    FilterKeepsNone(SPACE, IsWordChar);
  }

  lemma {:induction false} FullStopPiece()
    ensures |Filter(FULL_STOP, IsWhitespace)| == 0 && |Filter(FULL_STOP, IsWordChar)| == 0
  {
    assert !IsWhitespace(FULL_STOP[0]) && !IsWordChar(FULL_STOP[0]);
    FilterKeepsNone(FULL_STOP, IsWhitespace);
    FilterKeepsNone(FULL_STOP, IsWordChar);
  }

  /** A stretch of word characters holds no whitespace. */
  lemma {:induction false} WordPiece(s: Text)
    requires AllWordChars(s)
    ensures |Filter(s, IsWhitespace)| == 0 && |Filter(s, IsWordChar)| == |s|
  {
    forall i | 0 <= i < |s| ensures !IsWhitespace(s[i]) {
      WordCharIsNonWhitespace(s[i]);
    }
    FilterKeepsNone(s, IsWhitespace);
    FilterKeepsAll(s, IsWordChar);
  }

  lemma {:induction false} FilterFourParts(a: Text, b: Text, c: Text, d: Text, keep: CodeUnit -> bool)
    ensures |Filter(a + b + c + d, keep)|
         == |Filter(a, keep)| + |Filter(b, keep)| + |Filter(c, keep)| + |Filter(d, keep)|
  {
    FilterAppend(a + b + c, d, keep);
    FilterAppend(a + b, c, keep);
    FilterAppend(a, b, keep);
  }
}
