/**
 * JavaScript text as the word counter sees it: a sequence of UTF-16 code
 * units, the character classes its regular expressions use, and the two
 * string built-ins it relies on (`trim` and removal by `replace`).
 */
module JsText {

  /** One UTF-16 code unit. A JavaScript string is a sequence of these:
      `length` counts them, and a regular expression without the `u` flag
      matches them one at a time. */
  newtype CodeUnit = n: int | 0 <= n < 0x1_0000

  type Text = seq<CodeUnit>

  datatype Option<T> = None | Some(value: T)

  const LINE_FEED: CodeUnit := 0x0A

  /** The word class: the Arabic block U+0600..U+06FF, plus `\w`, which
      without the `u` flag is exactly the ASCII letters, digits and `_`. */
  predicate IsWordChar(c: CodeUnit) {
    || (0x0600 <= c <= 0x06FF)
    || (0x30 <= c <= 0x39)  // 0-9
    || (0x41 <= c <= 0x5A)  // A-Z
    || c == 0x5F            // _
    || (0x61 <= c <= 0x7A)  // a-z
  }

  /** The code units matched by `\s` and stripped by `trim`: ECMAScript's
      WhiteSpace (TAB, VT, FF, ZWNBSP and the Zs space separators) together
      with its LineTerminator (LF, CR, LS, PS). */
  predicate IsWhitespace(c: CodeUnit) {
    || c == 0x09 || c == 0x0A || c == 0x0B || c == 0x0C || c == 0x0D
    || c == 0x20 || c == 0xA0 || c == 0x1680
    || (0x2000 <= c <= 0x200A)
    || c == 0x2028 || c == 0x2029 || c == 0x202F || c == 0x205F
    || c == 0x3000 || c == 0xFEFF
  }

  predicate IsNonWhitespace(c: CodeUnit) {
    !IsWhitespace(c)
  }

  /** The sentence terminators `.`, `!` and `?`. */
  predicate IsTerminator(c: CodeUnit) {
    c == 0x2E || c == 0x21 || c == 0x3F
  }

  lemma {:induction false} WordCharIsNonWhitespace(c: CodeUnit)
    ensures IsWordChar(c) ==> IsNonWhitespace(c)
  {
  }

  /** The ASCII characters that `\w` matches without the `u` flag. */
  predicate IsAsciiWordChar(ch: char) {
    'a' <= ch <= 'z' || 'A' <= ch <= 'Z' || '0' <= ch <= '9' || ch == '_'
  }

  /** The word class `[\u0600-\u06FF\w]` is exactly the Arabic block plus
      the ASCII word characters: Arabic punctuation such as U+060C counts,
      accented Latin letters such as U+00E9 do not, and no word character is
      whitespace or a terminator. */
  lemma {:induction false} WordClass(c: CodeUnit)
    ensures IsWordChar(c) <==> (0x0600 <= c <= 0x06FF || (c < 0x80 && IsAsciiWordChar(c as int as char)))
    ensures IsWordChar(c) ==> !IsWhitespace(c) && !IsTerminator(c)
    ensures IsWordChar(0x060C) && !IsWordChar(0x00E9) && !IsWordChar(0x0700)
  {
  }

  /** `\s` and `trim` see tab, line feed, carriage return, space and the
      no-break space as whitespace, and neither a terminator nor a word
      character ever is. */
  lemma {:induction false} WhitespaceClass(c: CodeUnit)
    ensures IsWhitespace(c) ==> !IsWordChar(c) && !IsTerminator(c)
    ensures c < 0x80 && (c as int as char) in "\t\n\r " ==> IsWhitespace(c)
    ensures IsWhitespace(0xA0) && IsWhitespace(0x3000) && !IsWhitespace(0x200B)
  {
  }

  /** The terminator class `[.!?]` holds exactly those three characters. */
  lemma {:induction false} TerminatorClass(c: CodeUnit)
    ensures IsTerminator(c) <==> c < 0x80 && (c as int as char) in ".!?"
  {
  }

  predicate AllWhitespace(s: Text) {
    forall i :: 0 <= i < |s| ==> IsWhitespace(s[i])
  }

  /** Some code unit of `s` is not whitespace. */
  predicate HasContent(s: Text) {
    exists i :: 0 <= i < |s| && IsNonWhitespace(s[i])
  }

  /** The code units of `s` that satisfy `keep`, in order. */
  function Filter(s: Text, keep: CodeUnit -> bool): (r: Text)
    ensures |r| <= |s|
    ensures forall i :: 0 <= i < |r| ==> keep(r[i])
    ensures forall i :: 0 <= i < |s| && keep(s[i]) ==> s[i] in r
  {
    if s == [] then []
    else if keep(s[0]) then [s[0]] + Filter(s[1..], keep)
    else Filter(s[1..], keep)
  }

  lemma {:induction false} FilterAppend(a: Text, b: Text, keep: CodeUnit -> bool)
    ensures Filter(a + b, keep) == Filter(a, keep) + Filter(b, keep)
  {
    if a != [] {
      assert (a + b)[1..] == a[1..] + b;
      FilterAppend(a[1..], b, keep);
    } else {
      assert a + b == b;
    }
  }

  /** Filtering keeps everything exactly when every code unit passes. */
  lemma {:induction false} FilterKeepsAll(s: Text, keep: CodeUnit -> bool)
    ensures Filter(s, keep) == s <==> forall i :: 0 <= i < |s| ==> keep(s[i])
    ensures |Filter(s, keep)| == |s| <==> forall i :: 0 <= i < |s| ==> keep(s[i])
  {
    if s != [] {
      var rest := Filter(s[1..], keep);
      FilterKeepsAll(s[1..], keep);
      AllPassCons(s, keep);
      assert s == [s[0]] + s[1..];
      if keep(s[0]) {
        assert Filter(s, keep) == [s[0]] + rest;
      } else {
        assert Filter(s, keep) == rest;
        assert |rest| < |s|;
      }
    }
  }

  lemma {:induction false} AllPassCons(s: Text, keep: CodeUnit -> bool)
    requires s != []
    ensures (forall i :: 0 <= i < |s| ==> keep(s[i]))
        <==> keep(s[0]) && forall i :: 0 <= i < |s[1..]| ==> keep(s[1..][i])
  {
    if keep(s[0]) && forall i :: 0 <= i < |s[1..]| ==> keep(s[1..][i]) {
      forall i | 0 <= i < |s| ensures keep(s[i]) {
        if i > 0 { assert s[i] == s[1..][i - 1]; }
      }
    }
  }

  /** Filtering keeps nothing when no code unit passes. */
  lemma {:induction false} FilterKeepsNone(s: Text, keep: CodeUnit -> bool)
    requires forall i :: 0 <= i < |s| ==> !keep(s[i])
    ensures Filter(s, keep) == []
  {
    if s != [] {
      assert forall i :: 0 <= i < |s[1..]| ==> s[1..][i] == s[i + 1];
      FilterKeepsNone(s[1..], keep);
    }
  }

  /** A filter and its complement share the text out between them. */
  lemma {:induction false} FilterComplement(s: Text, keep: CodeUnit -> bool, drop: CodeUnit -> bool)
    requires forall c :: drop(c) == !keep(c)
    ensures multiset(Filter(s, keep)) + multiset(Filter(s, drop)) == multiset(s)
    ensures |Filter(s, keep)| + |Filter(s, drop)| == |s|
  {
    if s != [] {
      FilterComplement(s[1..], keep, drop);
      assert s == [s[0]] + s[1..];
    }
  }

  /** A weaker filter keeps at least as much. */
  lemma {:induction false} FilterMonotone(s: Text, keep: CodeUnit -> bool, wider: CodeUnit -> bool)
    requires forall c :: keep(c) ==> wider(c)
    ensures |Filter(s, keep)| <= |Filter(s, wider)|
  {
    if s != [] {
      FilterMonotone(s[1..], keep, wider);
    }
  }

  /** The texts of `ts` one after the other. */
  function Concat(ts: seq<Text>): Text {
    if ts == [] then [] else ts[0] + Concat(ts[1..])
  }

  /** Number of whitespace code units at the start of `s`. */
  function LeadingBlanks(s: Text): (n: nat)
    ensures n <= |s| && AllWhitespace(s[..n])
    ensures n == |s| || IsNonWhitespace(s[n])
  {
    if s != [] && IsWhitespace(s[0]) then 1 + LeadingBlanks(s[1..]) else 0
  }

  /** Number of whitespace code units at the end of `s`. */
  function TrailingBlanks(s: Text): (n: nat)
    ensures n <= |s| && AllWhitespace(s[|s| - n..])
    ensures n == |s| || IsNonWhitespace(s[|s| - 1 - n])
  {
    if s != [] && IsWhitespace(s[|s| - 1]) then 1 + TrailingBlanks(s[..|s| - 1]) else 0
  }

  /** `String.prototype.trim`: the text between the leading and the
      trailing whitespace. */
  function Trim(s: Text): (r: Text)
    ensures r == [] <==> AllWhitespace(s)
    ensures r == [] || (IsNonWhitespace(r[0]) && IsNonWhitespace(r[|r| - 1]))
  {
    var t := s[LeadingBlanks(s)..];
    var r := t[..|t| - TrailingBlanks(t)];
    assert r != [] ==> r[0] == t[0] && r[|r| - 1] == t[|t| - 1 - TrailingBlanks(t)];
    assert r == [] ==> t == [] by {
      if t != [] { assert IsNonWhitespace(t[0]); }
    }
    assert t == [] ==> s[..LeadingBlanks(s)] == s;
    r
  }

  /** Trimming removes whitespace and nothing else: the text is the trimmed
      text with a blank head and a blank tail around it. */
  lemma {:induction false} TrimParts(s: Text) returns (head: Text, tail: Text)
    ensures s == head + Trim(s) + tail
    ensures AllWhitespace(head) && AllWhitespace(tail)
  {
    var n := LeadingBlanks(s);
    var t := s[n..];
    var m := |t| - TrailingBlanks(t);
    head, tail := s[..n], t[m..];
    SplitThree(s, n, m);
  }

  lemma {:induction false} SplitThree(s: Text, n: nat, m: nat)
    requires n <= |s| && m <= |s| - n
    ensures s == s[..n] + s[n..][..m] + s[n..][m..]
  {
    var t := s[n..];
    assert t == t[..m] + t[m..];
    assert s == s[..n] + t;
  }
}
