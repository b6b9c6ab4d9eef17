# Word counter statistics in Dafny

A model of the statistics the word counter recomputes each time its text
changes (`updateStatistics` in `script.js`). The statistics are:

- the words, which are the runs of Arabic-block or ASCII word characters in
  the trimmed text;
- the raw length;
- the length with whitespace removed;
- the paragraphs, which are the segments between runs of line feeds that
  have content;
- the sentences, which are the matches of "non-terminators, then
  terminators" with `.`, `!` and `?` as the terminators;
- the reading time at 200 words a minute;
- the two guarded averages;
- the capped percentage that sizes each progress bar (`updateProgressBar`).

The text is a sequence of UTF-16 code units, as in JavaScript. `length`
counts code units, and a regular expression without the `u` flag matches one
code unit at a time. Whitespace is the set that both `\s` and `trim` use:
ECMAScript's WhiteSpace and LineTerminator code points.

Each metric is modelled in two ways:

- a function that follows the JavaScript operation. For `match` with the
  `g` flag: after a failed match, retry one unit later; after a successful
  match, resume at its end. For `split`: cut at each maximal match of `\n+`.
- an independent count that reads the text one code unit at a time, such as
  the number of word starts or the number of terminator runs that follow
  text.

A lemma proves the two equal for every text. The properties are then proved
on the one-unit-at-a-time counts:

- bounds;
- cases where a count is zero;
- how a count splits when two texts are appended.

Modules:

- `JsText` (`js_text.dfy`): code units, the character classes, `trim`, and
  removal by filter.
- `WordScan` (`word_scan.dfy`): word extraction and word count.
- `SentenceScan` (`sentence_scan.dfy`): sentence matching and sentence count.
- `ParagraphSplit` (`paragraph_split.dfy`): the split at line-feed runs and
  the paragraph count.
- `TextStatistics` (`text_statistics.dfy`): the statistics record, the
  averages, the reading time and the progress percentages.
- `StatisticsExamples` (`statistics_examples.dfy`): worked cases on concrete
  texts.

## Model

| member | source | states |
|---|---|---|
| JsText.WordClass | script.js:51 | The word class is exactly the Arabic block U+0600..U+06FF plus the ASCII letters, digits and `_`, so U+060C counts and U+00E9 does not. No word character is whitespace or a terminator. |
| JsText.WhitespaceClass | script.js:61 | Tab, line feed, carriage return, space, U+00A0 and U+3000 are whitespace and U+200B is not. No whitespace unit is a word character or a terminator. |
| JsText.TerminatorClass | script.js:70 | A code unit is a terminator exactly when it is `.`, `!` or `?`. |
| JsText.Filter | script.js:61 | The result keeps only code units that pass the test, and keeps every code unit of the text that passes it. |
| JsText.FilterKeepsAll | script.js:61 | Filtering leaves the text unchanged, and keeps its full length, exactly when every code unit passes. |
| JsText.FilterComplement | script.js:61 | Each code unit goes to exactly one of a filter and its complement: the two results together equal the text as a multiset, and their lengths add up to its length. |
| JsText.FilterAppend | script.js:61 | Filtering a concatenation is the concatenation of the filtered parts. |
| JsText.Trim | script.js:51 | `trim` gives the empty text exactly when the text is all whitespace. Otherwise the result starts and ends with a non-whitespace unit. |
| JsText.TrimParts | script.js:51 | The text is the trimmed text with an all-whitespace head and an all-whitespace tail around it. |
| WordScan.WordMatch | script.js:51 | An anchored match of the word class exists exactly when the text starts with a word character. The match is the maximal run of word characters. |
| WordScan.Words | script.js:51 | Every match of the global word match is non-empty and made only of word characters. |
| WordScan.WordsCountRuns | script.js:51-52 | The number of matches equals the number of maximal runs of word characters. |
| WordScan.WordsConcat | script.js:51 | Concatenated in order, the matched words are exactly the word characters of the text. |
| WordScan.WordsAreRuns | script.js:51 | Each match is a maximal run of word characters, in order: the text is the matches woven with gaps that hold no word character, and every gap between two matches is non-empty. |
| WordScan.ExtractWords | script.js:51 | Trimming first, and answering no words for a blank text, gives the same words as matching the untrimmed text. There is one word per maximal run of word characters. |
| WordScan.TotalLength | script.js:79 | The summed lengths of the words are the length of their concatenation, and at least their number when none is empty. |
| WordScan.WordCount | script.js:51-52 | The word count is the number of maximal runs of word characters in the raw text. |
| WordScan.WordCountMonotone | script.js:51-52 | Appending text never lowers the word count. |
| SentenceScan.SentenceMatch | script.js:70 | An anchored sentence match exists exactly when a non-empty stretch without terminators is followed by a terminator. The match is that stretch and the whole following run of terminators. |
| SentenceScan.Sentences | script.js:70 | Every match of the global sentence match is a sentence: text without terminators, then only terminators. |
| SentenceScan.SentencesCover | script.js:70 | The matches lie back to back and cover the text, except for leading terminators and a trailing stretch without terminators. So each match ends with the whole run of terminators that closes it. |
| SentenceScan.SentencesCountEnds | script.js:70-71 | The number of matches equals the number of maximal terminator runs that directly follow a non-terminator. |
| SentenceScan.SentenceCount | script.js:70-71 | The sentence count is the number of terminator runs that follow text. |
| SentenceScan.NoTerminatorNoSentence | script.js:70-71 | Text with no `.`, `!` or `?` has no sentence. |
| SentenceScan.OnlyTerminatorsNoSentence | script.js:70-71 | Text made only of terminators has no sentence. |
| SentenceScan.SentenceCountMonotone | script.js:70-71 | Appending text never lowers the sentence count. |
| SentenceScan.AppendSentence | script.js:70-71 | Appending one well-formed sentence raises the count by exactly one. |
| ParagraphSplit.SplitLines | script.js:65 | Splitting at `\n+` gives at least one segment, and no segment holds a line feed. |
| ParagraphSplit.SplitCountsRuns | script.js:65 | The split has exactly one more segment than the text has maximal runs of line feeds. |
| ParagraphSplit.SplitJoin | script.js:65 | Joining the segments with single line feeds gives back the text with each line-feed run reduced to one line feed. |
| ParagraphSplit.SqueezeUnchanged | script.js:65 | A text with no two line feeds in a row is unchanged by that reduction, so its split loses nothing. |
| ParagraphSplit.NonBlank | script.js:65 | Filtering on positive trimmed length keeps a segment exactly when it has a non-whitespace unit. |
| ParagraphSplit.Paragraphs | script.js:65-66 | The kept segments are one per line with content. Each has content and none holds a line feed. |
| ParagraphSplit.ParagraphsCountStarts | script.js:65-66 | The number of non-blank segments equals the number of lines that have content. |
| ParagraphSplit.ParagraphCount | script.js:65-66 | The paragraph count is the number of lines with content, and at most the number of line-feed runs plus one. |
| ParagraphSplit.BlankHasNoParagraph | script.js:65-66 | Empty or all-whitespace text has no paragraph. |
| ParagraphSplit.SingleLineIsOneParagraph | script.js:65-66 | Text with content and no line feed is exactly one paragraph. |
| ParagraphSplit.ParagraphCountMonotone | script.js:65-66 | Appending text never lowers the paragraph count. |
| TextStatistics.CharCountNoSpace | script.js:61 | The count without whitespace plus the number of whitespace units is the raw length. So it is at most the raw length, and equals it exactly when the text has no whitespace. |
| TextStatistics.TotalWordLength | script.js:79 | The total word length is the number of word characters. It lies between the word count and the count without whitespace. |
| TextStatistics.ReadingTime | script.js:75 | The reading time is zero exactly when there are no words. Otherwise it is the ceiling of the word count over 200. |
| TextStatistics.GuardedRatio | script.js:80-84 | A guarded quotient is zero for a zero divisor. Otherwise, multiplied by the divisor, it gives back the total. |
| TextStatistics.ComputeStatistics | script.js:47-94 | Every field of the record is tied to its count: word starts, raw length, length without whitespace, lines with content (at most the line-feed runs plus one), and terminator runs after text. The reading time is the ceiling over 200 and zero only for no words. The averages are word characters per word and words per sentence, both guarded. |
| TextStatistics.AverageWordLengthBounds | script.js:79-80 | With at least one word, the average word length is at least one, and times the word count it stays within the count without whitespace. |
| TextStatistics.Percentage | script.js:108 | The bar width is at most 100. It is non-negative for a non-negative value, and 100 exactly when the value reaches the cap. Below the cap it is the value's share of the cap in percent. |
| TextStatistics.Progress | script.js:88-93 | Each of the six bars lies between 0 and 100. Each is full exactly when its statistic reaches its cap (1000, 5000, 4000, 50, 100 and 10). |
| TextStatistics.EmptyTextStatistics | script.js:47-94 | The empty text gives zero in every field. |
| TextStatistics.BlankTextStatistics | script.js:47-94 | All-whitespace text has no words, paragraphs, sentences or reading time, and zero averages. Its character count is still its raw length. |
| TextStatistics.AppendNeverLowersCounts | script.js:47-94 | Appending text never lowers any count or the reading time. |
| TextStatistics.ReadingTimeMonotone | script.js:75 | More words never give less reading time. |
| TextStatistics.AppendSentenceStatistics | script.js:47-94 | Appending a well-formed sentence adds exactly one sentence and loses no word. |
| StatisticsExamples.HelloWorldStatistics | script.js:47-94 | "Hello world." gives 2 words, 1 sentence, 1 paragraph, 12 units with 11 non-whitespace, 2.0 words per sentence, 5.0 units per word and 1 minute. |
| StatisticsExamples.ArabicGreetingStatistics | script.js:47-94 | Two Arabic words separated by a space give 2 words, a 13-unit raw length with 12 non-whitespace, 0 sentences with a 0 average, and 1 paragraph. |
| StatisticsExamples.ReadingTimeCases | script.js:75 | 0 words read in 0 minutes, 199 and 200 words in 1, and 201 and 400 words in 2. |

## Left out

- The DOM is not modelled: element lookup, `textContent` writes, the
  `animateCount` animation with its timer, and the writes to the
  progress-bar style. They are presentation side effects. The model stops
  at the values they display.
- Clipboard paste and copy are not modelled, and neither is the report
  string built from the displayed values. They are asynchronous browser I/O.
- The theme toggle with its `localStorage` persistence is not modelled, and
  neither are the toasts with their timers. They are UI state.
- TextStatistics.ComputeStatistics: the averages are exact rationals. The
  source divides in floating point. It formats the average with `toFixed(1)`
  when the divisor is non-zero, and shows the number 0 otherwise. The
  rounding to one decimal is not modelled.
- TextStatistics.Percentage: computed on exact reals rather than
  floating-point numbers. Every call passes a positive cap, so the NaN and
  infinity cases of `Math.min` cannot arise and are not modelled.
- TextStatistics.ReadingTime: the ceiling is integer arithmetic. Floating
  division by 200 followed by `Math.ceil` gives the same value for every
  word count a page can hold.
- The words-per-minute rate is the constant 200, as in the code. A
  configurable rate is not modelled.
- A text with only whitespace keeps its raw length as its character count,
  as in the code. All its other counts are zero.
