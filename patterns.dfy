/**
 * The four start-anchored question-number patterns of the detector
 * (`QUESTION_PATTERNS`) and what `re.match(pattern, text).group(1)` gives
 * for each, read as an `int`.
 */
module Patterns {
  import opened Wrappers
  import opened Text

  /**
   * `Numbered`      `^\s*(\d+)\s*[\.\):\-]\s*`
   * `QPrefixed`     `^\s*Q(\d+)\s*[\.\):\-]\s*`
   * `QuestionWord`  `^\s*Question\s+(\d+)\s*[\.\):\-]\s*`
   * `Parenthesised` `^\s*\((\d+)\)\s*`
   */
  datatype Pattern = Numbered | QPrefixed | QuestionWord | Parenthesised

  /** The patterns in the order the detector tries them. */
  const QuestionPatterns: seq<Pattern> := [Numbered, QPrefixed, QuestionWord, Parenthesised]

  /** The character class `[\.\):\-]`. */
  predicate IsPunct(c: char)
  {
    c == '.' || c == ')' || c == ':' || c == '-'
  }

  /** Length of the longest prefix of `s` made of digits (what a greedy `\d+` consumes). */
  function DigitRun(s: string): (n: nat)
    ensures n <= |s| && AllDigits(s[..n])
    ensures n < |s| ==> !IsDigit(s[n])
  {
    if s == [] || !IsDigit(s[0]) then 0
    else
      var n := 1 + DigitRun(s[1..]);
      assert s[..n] == [s[0]] + s[1..][..n - 1];
      n
  }

  lemma {:induction false} DigitRunExact(s: string, i: nat)
    requires i <= |s| && AllDigits(s[..i])
    requires i < |s| ==> !IsDigit(s[i])
    ensures DigitRun(s) == i
  {
    if i > 0 {
      assert s[..i][0] == s[0];
      var t := s[1..];
      var u := t[..i - 1];
      forall k | 0 <= k < |u| ensures IsDigit(u[k]) {
        assert u[k] == s[..i][k + 1];
      }
      DigitRunExact(t, i - 1);
    }
  }

  /** What a `\s*` consumes: `s` without its leading whitespace. */
  function SkipSpaces(s: string): string
  {
    s[LeadingSpaces(s)..]
  }

  /** `(\d+)\s*[\.\):\-]` at the start of `s`: the value of the digit group. */
  function NumberThenPunct(s: string): Option<nat>
  {
    var k := DigitRun(s);
    var rest := SkipSpaces(s[k..]);
    if k > 0 && rest != [] && IsPunct(rest[0]) then Some(DigitsValue(s[..k])) else None
  }

  /** `Q(\d+)\s*[\.\):\-]` at the start of `t`. */
  function AfterQ(t: string): Option<nat>
  {
    if t != [] && t[0] == 'Q' then NumberThenPunct(t[1..]) else None
  }

  /** `Question\s+(\d+)\s*[\.\):\-]` at the start of `t`. */
  function AfterQuestion(t: string): Option<nat>
  {
    if |t| >= 8 && t[..8] == "Question" && LeadingSpaces(t[8..]) > 0
    then NumberThenPunct(SkipSpaces(t[8..]))
    else None
  }

  /** `\((\d+)\)` at the start of `t`. */
  function AfterParen(t: string): Option<nat>
  {
    if t != [] && t[0] == '(' then
      var u := t[1..];
      var k := DigitRun(u);
      if k > 0 && k < |u| && u[k] == ')' then Some(DigitsValue(u[..k])) else None
    else None
  }

  /** `re.match(p, s)`, and `int(match.group(1))` when it matches. */
  function MatchPattern(p: Pattern, s: string): Option<nat>
  {
    var t := SkipSpaces(s);
    match p
    case Numbered => NumberThenPunct(t)
    case QPrefixed => AfterQ(t)
    case QuestionWord => AfterQuestion(t)
    case Parenthesised => AfterParen(t)
  }

  // ---------------------------------------------------------------------------
  // The same four patterns as a grammar: the text before the digit group, the
  // digit group, and the text that must follow it.
  // ---------------------------------------------------------------------------

  /** `h` is what pattern `p` requires before its digit group. */
  ghost predicate Lead(p: Pattern, h: string)
  {
    match p
    case Numbered => AllSpaces(h)
    case QPrefixed => |h| >= 1 && AllSpaces(h[..|h| - 1]) && h[|h| - 1] == 'Q'
    case QuestionWord =>
      exists i :: 0 <= i && i + 8 < |h| && AllSpaces(h[..i]) && h[i..i + 8] == "Question"
                  && AllSpaces(h[i + 8..])
    case Parenthesised => |h| >= 1 && AllSpaces(h[..|h| - 1]) && h[|h| - 1] == '('
  }

  /** `c` is what pattern `p` requires right after its digit group. */
  ghost predicate Close(p: Pattern, c: string)
  {
    if p == Parenthesised then c == ")"
    else |c| >= 1 && AllSpaces(c[..|c| - 1]) && IsPunct(c[|c| - 1])
  }

  /** `s` begins with a match of `p` whose digit group reads `n`. */
  ghost predicate Accepts(p: Pattern, s: string, n: nat)
  {
    exists i, j, k :: 0 <= i < j < k <= |s| && Lead(p, s[..i]) && AllDigits(s[i..j])
                      && Close(p, s[j..k]) && n == DigitsValue(s[i..j])
  }

  lemma SliceOfSuffix(s: string, i: nat, a: nat, b: nat)
    requires a <= b && i + b <= |s|
    ensures s[i..][a..b] == s[i + a..i + b]
    ensures s[i..][..b] == s[i..i + b]
  {
  }

  lemma SliceOfPrefix(s: string, i: nat, a: nat, b: nat)
    requires a <= b <= i <= |s|
    ensures s[..i][a..b] == s[a..b]
    ensures s[..i][a..] == s[a..i]
    ensures s[..i][..a] == s[..a]
  {
  }

  lemma SkipSpacesTo(s: string, i: nat)
    requires i < |s| && AllSpaces(s[..i]) && !IsSpace(s[i])
    ensures SkipSpaces(s) == s[i..]
  {
    LeadingSpacesExact(s, i);
  }

  /** The digit group and the closing text that `NumberThenPunct` found. */
  lemma NumberThenPunctParts(t: string) returns (d: nat, e: nat)
    requires NumberThenPunct(t).Some?
    ensures 0 < d < e <= |t| && AllDigits(t[..d]) && Close(Numbered, t[d..e])
    ensures NumberThenPunct(t) == Some(DigitsValue(t[..d]))
  {
    d := DigitRun(t);
    var u := t[d..];
    var b := LeadingSpaces(u);
    e := d + b + 1;
    assert t[d..e] == u[..b + 1];
    assert u[..b + 1][..b] == u[..b];
  }

  /** Digits followed by closing text are read by `NumberThenPunct` as exactly those digits. */
  lemma NumberThenPunctFrom(t: string, d: nat, e: nat)
    requires 0 < d < e <= |t| && AllDigits(t[..d]) && Close(Numbered, t[d..e])
    ensures NumberThenPunct(t) == Some(DigitsValue(t[..d]))
  {
    var c := t[d..e];
    assert t[d] == c[0];
    if |c| > 1 {
      assert IsSpace(c[..|c| - 1][0]);
    }
    DigitRunExact(t, d);
    var u := t[d..];
    assert u[..e - d - 1] == c[..|c| - 1];
    assert u[e - d - 1] == c[|c| - 1];
    SkipSpacesTo(u, e - d - 1);
  }

  /** From the digit group on, `s` is read by `NumberThenPunct` as that digit group. */
  lemma DigitsThenClose(s: string, i: nat, j: nat, k: nat)
    requires i < j < k <= |s| && AllDigits(s[i..j]) && Close(Numbered, s[j..k])
    ensures NumberThenPunct(s[i..]) == Some(DigitsValue(s[i..j]))
  {
    var v := s[i..];
    SliceOfSuffix(s, i, j - i, k - i);
    SliceOfSuffix(s, i, 0, j - i);
    assert v[..j - i] == s[i..j];
    NumberThenPunctFrom(v, j - i, k - i);
  }

  /** Every match the matcher reports is a match of the pattern's grammar. */
  lemma MatchPatternSound(p: Pattern, s: string)
    requires MatchPattern(p, s).Some?
    ensures Accepts(p, s, MatchPattern(p, s).value)
  {
    match p
    case Numbered => SoundNumbered(s);
    case QPrefixed => SoundQPrefixed(s);
    case QuestionWord => SoundQuestionWord(s);
    case Parenthesised => SoundParenthesised(s);
  }

  lemma SoundNumbered(s: string)
    requires MatchPattern(Numbered, s).Some?
    ensures Accepts(Numbered, s, MatchPattern(Numbered, s).value)
  {
    var a := LeadingSpaces(s);
    var t := s[a..];
    var d, e := NumberThenPunctParts(t);
    SliceOfSuffix(s, a, d, e);
    SliceOfSuffix(s, a, 0, d);
    assert Lead(Numbered, s[..a]);
  }

  lemma SoundQPrefixed(s: string)
    requires MatchPattern(QPrefixed, s).Some?
    ensures Accepts(QPrefixed, s, MatchPattern(QPrefixed, s).value)
  {
    var a := LeadingSpaces(s);
    var t := s[a..];
    assert t != [] && t[0] == 'Q';
    var v := t[1..];
    assert MatchPattern(QPrefixed, s) == NumberThenPunct(v);
    var d, e := NumberThenPunctParts(v);
    var i := a + 1;
    assert v == s[i..];
    SliceOfSuffix(s, i, d, e);
    SliceOfSuffix(s, i, 0, d);
    var h := s[..i];
    assert h[..a] == s[..a] && h[a] == t[0];
    assert Lead(QPrefixed, h) && AllDigits(s[i..i + d]) && Close(QPrefixed, s[i + d..i + e]);
  }

  lemma SoundQuestionWord(s: string)
    requires MatchPattern(QuestionWord, s).Some?
    ensures Accepts(QuestionWord, s, MatchPattern(QuestionWord, s).value)
  {
    var a, i := QuestionWordParts(s);
    var v := s[i..];
    var d, e := NumberThenPunctParts(v);
    SliceOfSuffix(s, i, d, e);
    SliceOfSuffix(s, i, 0, d);
    LeadQuestionWord(s, a, i);
    assert Close(QuestionWord, s[i + d..i + e]);
  }

  /** Where `^\s*Question\s+` ends in a text the `QuestionWord` matcher accepts. */
  lemma QuestionWordParts(s: string) returns (a: nat, i: nat)
    requires MatchPattern(QuestionWord, s).Some?
    ensures a + 8 < i <= |s| && AllSpaces(s[..a]) && s[a..a + 8] == "Question" && AllSpaces(s[a + 8..i])
    ensures MatchPattern(QuestionWord, s) == NumberThenPunct(s[i..])
  {
    a := LeadingSpaces(s);
    var t := s[a..];
    var j := AfterQuestionParts(t);
    i := a + j;
    ShiftQuestionWord(s, a, j, i);
  }

  /** The parts of `Question\s+` found in `s[a..]`, as positions of `s`. */
  lemma ShiftQuestionWord(s: string, a: nat, j: nat, i: nat)
    requires a <= |s| && 8 < j <= |s| - a && i == a + j
    requires s[a..][..8] == "Question" && AllSpaces(s[a..][8..j])
    ensures s[a..a + 8] == "Question" && AllSpaces(s[a + 8..i]) && s[i..] == s[a..][j..]
  {
    SliceOfSuffix(s, a, 0, 8);
    SliceOfSuffix(s, a, 8, j);
  }

  /** Where `Question\s+` ends in a text `AfterQuestion` accepts. */
  lemma AfterQuestionParts(t: string) returns (j: nat)
    requires AfterQuestion(t).Some?
    ensures 8 < j <= |t| && t[..8] == "Question" && AllSpaces(t[8..j])
    ensures AfterQuestion(t) == NumberThenPunct(t[j..])
  {
    assert |t| >= 8 && t[..8] == "Question" && LeadingSpaces(t[8..]) > 0;
    j := WordThenSpaces(t);
  }

  /** The whitespace run after the word `Question` ends at `j`, where `AfterQuestion` reads on. */
  lemma WordThenSpaces(t: string) returns (j: nat)
    requires |t| >= 8 && t[..8] == "Question" && LeadingSpaces(t[8..]) > 0
    ensures 8 < j <= |t| && AllSpaces(t[8..j])
    ensures AfterQuestion(t) == NumberThenPunct(t[j..])
  {
    var w := t[8..];
    var b := LeadingSpaces(w);
    j := 8 + b;
    SliceOfSuffix(t, 8, 0, b);
    SuffixOfSuffix(t, 8, b);
  }

  lemma SuffixOfSuffix(s: string, i: nat, b: nat)
    requires i + b <= |s|
    ensures s[i..][b..] == s[i + b..]
  {
  }

  /** Past `Question\s+`, `AfterQuestion` reads the text from the digits on. */
  lemma AfterQuestionFrom(t: string, j: nat)
    requires 8 < j < |t| && t[..8] == "Question" && AllSpaces(t[8..j]) && IsDigit(t[j])
    ensures AfterQuestion(t) == NumberThenPunct(t[j..])
  {
    var w := t[8..];
    var b := j - 8;
    assert w[..b] == t[8..j];
    assert w[b] == t[j];
    DigitIsNotSpace(t[j]);
    SkipSpacesTo(w, b);
    assert w[b..] == t[j..];
  }

  lemma LeadQuestionWord(s: string, a: nat, i: nat)
    requires a + 8 < i <= |s| && AllSpaces(s[..a]) && s[a..a + 8] == "Question" && AllSpaces(s[a + 8..i])
    ensures Lead(QuestionWord, s[..i])
  {
    var h := s[..i];
    SliceOfPrefix(s, i, a, a + 8);
    SliceOfPrefix(s, i, a + 8, a + 8);
    assert AllSpaces(h[..a]) && h[a..a + 8] == "Question" && AllSpaces(h[a + 8..]);
  }

  lemma SoundParenthesised(s: string)
    requires MatchPattern(Parenthesised, s).Some?
    ensures Accepts(Parenthesised, s, MatchPattern(Parenthesised, s).value)
  {
    var a := LeadingSpaces(s);
    var t := s[a..];
    var u := t[1..];
    var k := DigitRun(u);
    var i := a + 1;
    assert s[i..i + k] == u[..k] && s[i + k..i + k + 1] == [u[k]];
    assert s[..i][..a] == s[..a];
    assert Lead(Parenthesised, s[..i]) && AllDigits(s[i..i + k])
           && Close(Parenthesised, s[i + k..i + k + 1]);
  }

  /** Every match of the pattern's grammar is reported by the matcher, with the same number. */
  lemma MatchPatternComplete(p: Pattern, s: string, n: nat)
    requires Accepts(p, s, n)
    ensures MatchPattern(p, s) == Some(n)
  {
    var i, j, k :| 0 <= i < j < k <= |s| && Lead(p, s[..i]) && AllDigits(s[i..j])
                   && Close(p, s[j..k]) && n == DigitsValue(s[i..j]);
    assert s[i] == s[i..j][0];
    match p
    case Numbered => CompleteNumbered(s, i, j, k);
    case QPrefixed => CompleteQPrefixed(s, i, j, k);
    case QuestionWord => CompleteQuestionWord(s, i, j, k);
    case Parenthesised => CompleteParenthesised(s, i, j, k);
  }

  lemma CompleteNumbered(s: string, i: nat, j: nat, k: nat)
    requires i < j < k <= |s| && Lead(Numbered, s[..i]) && AllDigits(s[i..j]) && Close(Numbered, s[j..k])
    requires IsDigit(s[i])
    ensures MatchPattern(Numbered, s) == Some(DigitsValue(s[i..j]))
  {
    SkipSpacesTo(s, i);
    var t := s[i..];
    assert t[..j - i] == s[i..j] && t[j - i..k - i] == s[j..k];
    NumberThenPunctFrom(t, j - i, k - i);
  }

  lemma CompleteQPrefixed(s: string, i: nat, j: nat, k: nat)
    requires i < j < k <= |s| && Lead(QPrefixed, s[..i]) && AllDigits(s[i..j]) && Close(QPrefixed, s[j..k])
    ensures MatchPattern(QPrefixed, s) == Some(DigitsValue(s[i..j]))
  {
    var h := s[..i];
    assert h[..i - 1] == s[..i - 1] && h[i - 1] == s[i - 1];
    SkipSpacesTo(s, i - 1);
    assert Close(Numbered, s[j..k]);
    DigitsThenClose(s, i, j, k);
    QThenRest(s, i);
  }

  /** Past a `Q` at index `i - 1`, the `QPrefixed` matcher reads the text from index `i` on. */
  lemma QThenRest(s: string, i: nat)
    requires 0 < i <= |s| && s[i - 1] == 'Q'
    ensures AfterQ(s[i - 1..]) == NumberThenPunct(s[i..])
  {
    assert s[i - 1..][1..] == s[i..];
  }

  lemma CompleteQuestionWord(s: string, i: nat, j: nat, k: nat)
    requires i < j < k <= |s| && Lead(QuestionWord, s[..i]) && AllDigits(s[i..j])
    requires Close(QuestionWord, s[j..k]) && IsDigit(s[i])
    ensures MatchPattern(QuestionWord, s) == Some(DigitsValue(s[i..j]))
  {
    var h := s[..i];
    var a :| 0 <= a && a + 8 < |h| && AllSpaces(h[..a]) && h[a..a + 8] == "Question"
             && AllSpaces(h[a + 8..]);
    SliceOfPrefix(s, i, a, a + 8);
    SliceOfPrefix(s, i, a + 8, a + 8);
    assert Close(Numbered, s[j..k]);
    DigitsThenClose(s, i, j, k);
    QuestionWordReaches(s, a, i);
  }

  /** Past `^\s*Question\s+`, the `QuestionWord` matcher reads the text from the digits on. */
  lemma QuestionWordReaches(s: string, a: nat, i: nat)
    requires a + 8 < i < |s| && AllSpaces(s[..a]) && s[a..a + 8] == "Question"
    requires AllSpaces(s[a + 8..i]) && IsDigit(s[i])
    ensures MatchPattern(QuestionWord, s) == NumberThenPunct(s[i..])
  {
    assert s[a] == s[a..a + 8][0];
    SkipSpacesTo(s, a);
    var t := s[a..];
    var j := i - a;
    SliceOfSuffix(s, a, 8, j);
    SliceOfSuffix(s, a, 0, 8);
    assert t[j] == s[i] && t[j..] == s[i..];
    AfterQuestionFrom(t, j);
  }

  lemma CompleteParenthesised(s: string, i: nat, j: nat, k: nat)
    requires i < j < k <= |s| && Lead(Parenthesised, s[..i]) && AllDigits(s[i..j])
    requires Close(Parenthesised, s[j..k])
    ensures MatchPattern(Parenthesised, s) == Some(DigitsValue(s[i..j]))
  {
    var h := s[..i];
    assert h[..i - 1] == s[..i - 1];
    SkipSpacesTo(s, i - 1);
    var u := s[i..];
    assert s[i - 1..][1..] == u;
    assert u[..j - i] == s[i..j] && u[j - i] == s[j..k][0];
    DigitRunExact(u, j - i);
  }

  /** The matcher is exactly the regular expression: both directions. */
  lemma MatchPatternIsRegex(p: Pattern, s: string, n: nat)
    ensures MatchPattern(p, s) == Some(n) <==> Accepts(p, s, n)
  {
    if MatchPattern(p, s) == Some(n) {
      MatchPatternSound(p, s);
    }
    if Accepts(p, s, n) {
      MatchPatternComplete(p, s, n);
    }
  }

  // ---------------------------------------------------------------------------
  // The patterns never compete, and what one fragment of text contributes.
  // ---------------------------------------------------------------------------

  /** The first characters after the leading whitespace that each pattern needs. */
  lemma MatchShape(p: Pattern, s: string)
    requires MatchPattern(p, s).Some?
    ensures var t := SkipSpaces(s);
      match p
      case Numbered => t != [] && IsDigit(t[0])
      case QPrefixed => |t| >= 2 && t[0] == 'Q' && IsDigit(t[1])
      case QuestionWord => |t| >= 2 && t[0] == 'Q' && t[1] == 'u'
      case Parenthesised => t != [] && t[0] == '('
  {
    match p
    case Numbered => NumberThenPunctShape(SkipSpaces(s));
    case QPrefixed => AfterQShape(SkipSpaces(s));
    case QuestionWord => AfterQuestionShape(SkipSpaces(s));
    case Parenthesised =>
  }

  lemma AfterQuestionShape(t: string)
    requires AfterQuestion(t).Some?
    ensures |t| >= 2 && t[0] == 'Q' && t[1] == 'u'
  {
    assert |t| >= 8 && t[..8] == "Question";
    WordStart(t);
  }

  lemma WordStart(t: string)
    requires |t| >= 8 && t[..8] == "Question"
    ensures t[0] == 'Q' && t[1] == 'u'
  {
    assert t[..8][0] == t[0] && t[..8][1] == t[1];
  }

  lemma AfterQShape(t: string)
    requires AfterQ(t).Some?
    ensures |t| >= 2 && t[0] == 'Q' && IsDigit(t[1])
  {
    var v := t[1..];
    NumberThenPunctShape(v);
    assert v[0] == t[1];
  }

  lemma NumberThenPunctShape(t: string)
    requires NumberThenPunct(t).Some?
    ensures t != [] && IsDigit(t[0])
  {
    assert t[..DigitRun(t)][0] == t[0];
  }

  /** After `strip()` or not, at most one of the four patterns matches any text. */
  lemma AtMostOnePatternMatches(p: Pattern, q: Pattern, s: string)
    requires MatchPattern(p, s).Some? && MatchPattern(q, s).Some?
    ensures p == q
  {
    MatchShape(p, s);
    MatchShape(q, s);
  }

  /**
   * The question number a fragment's text contributes: the number of the one
   * pattern that matches it, if any does.
   */
  function MatchText(s: string): (r: Option<nat>)
    ensures forall p :: MatchPattern(p, s).Some? ==> r == MatchPattern(p, s)
    ensures r.Some? ==> exists p :: MatchPattern(p, s) == r
  {
    if MatchPattern(Numbered, s).Some? then
      assert forall p :: MatchPattern(p, s).Some? ==> p == Numbered by {
        forall p | MatchPattern(p, s).Some? { AtMostOnePatternMatches(p, Numbered, s); }
      }
      MatchPattern(Numbered, s)
    else if MatchPattern(QPrefixed, s).Some? then
      assert forall p :: MatchPattern(p, s).Some? ==> p == QPrefixed by {
        forall p | MatchPattern(p, s).Some? { AtMostOnePatternMatches(p, QPrefixed, s); }
      }
      MatchPattern(QPrefixed, s)
    else if MatchPattern(QuestionWord, s).Some? then
      assert forall p :: MatchPattern(p, s).Some? ==> p == QuestionWord by {
        forall p | MatchPattern(p, s).Some? { AtMostOnePatternMatches(p, QuestionWord, s); }
      }
      MatchPattern(QuestionWord, s)
    else
      MatchPattern(Parenthesised, s)
  }

  /** `"12)"` is question 12. */
  lemma ExampleClosingParen()
    ensures MatchText("12)") == Some(12)
  {
    var s := "12)";
    LeadingSpacesExact(s, 0);
    DigitRunExact(s, 2);
    LeadingSpacesExact(s[2..], 0);
    assert s[..2] == "12";
    assert DigitsValue("12") == 12 by { assert "12"[..1] == "1"; }
  }

  /** `"1.5 kg"` is question 1: only the digits before the first punctuation count. */
  lemma ExampleDecimalNumber()
    ensures MatchText("1.5 kg") == Some(1)
  {
    var s := "1.5 kg";
    LeadingSpacesExact(s, 0);
    DigitRunExact(s, 1);
    LeadingSpacesExact(s[1..], 0);
    assert s[..1] == "1";
  }

  /** `"007."` is question 7: the key is the integer value of the digits. */
  lemma ExampleLeadingZeros()
    ensures MatchText("007.") == Some(7)
  {
    var s := "007.";
    LeadingSpacesExact(s, 0);
    DigitRunExact(s, 3);
    LeadingSpacesExact(s[3..], 0);
    assert s[..3] == "007";
    assert DigitsValue("007") == 7 by {
      assert "007"[..2] == "00";
      assert "00"[..1] == "0";
    }
  }

  /** `"12 apples"` is no question: digits must be followed by one of `.):-`. */
  lemma ExampleNoPunctuation()
    ensures MatchText("12 apples") == None
  {
    DigitsThenWordStart();
    DigitsThenWord();
    MatchTextNone("12 apples");
  }

  lemma DigitsThenWordStart()
    ensures SkipSpaces("12 apples") == "12 apples"
    ensures AfterQ("12 apples") == None && AfterQuestion("12 apples") == None && AfterParen("12 apples") == None
  {
    var s := "12 apples";
    LeadingSpacesExact(s, 0);
    assert s[..8][0] == '1';
  }

  lemma DigitsThenWord()
    ensures NumberThenPunct("12 apples") == None
  {
    var s := "12 apples";
    DigitRunExact(s, 2);
    LeadingSpacesExact(s[2..], 1);
    assert SkipSpaces(s[2..])[0] == 'a';
  }

  /** `"1(a)"` is no question: there are no sub-part patterns. */
  lemma ExampleSubpart()
    ensures MatchText("1(a)") == None
  {
    var s := "1(a)";
    LeadingSpacesExact(s, 0);
    DigitRunExact(s, 1);
    LeadingSpacesExact(s[1..], 0);
  }

  /** `"Q3:"` is question 3. */
  lemma ExampleQPrefix()
    ensures MatchText("Q3:") == Some(3)
  {
    var s := "Q3:";
    LeadingSpacesExact(s, 0);
    var v := s[1..];
    DigitRunExact(v, 1);
    LeadingSpacesExact(v[1..], 0);
    assert v[..1] == "3";
  }

  /** `"Q 3."` is no question: `Q` must be followed directly by the digits. */
  lemma ExampleQSpace()
    ensures MatchText("Q 3.") == None
  {
    var s := "Q 3.";
    LeadingSpacesExact(s, 0);
    DigitRunExact(s[1..], 0);
  }

  /** `"Question 4 -"` is question 4. */
  lemma ExampleQuestionWord()
    ensures MatchText("Question 4 -") == Some(4)
  {
    var s := "Question 4 -";
    assert s[..0] == [] && s[0..8] == "Question" && s[8..9] == " ";
    QuestionWordReaches(s, 0, 9);
    assert s[9..] == "4 -";
    DigitSpacePunct();
    assert MatchPattern(QuestionWord, s) == Some(4);
  }

  /** `"4 -"`: the digit group and its closing text, as `NumberThenPunct` reads them. */
  lemma DigitSpacePunct()
    ensures NumberThenPunct("4 -") == Some(4)
  {
    var v := "4 -";
    DigitRunExact(v, 1);
    LeadingSpacesExact(v[1..], 1);
    assert v[..1] == "4";
  }

  /** `"question 4."` is no question: the word is matched case-sensitively. */
  lemma ExampleLowerCaseWord()
    ensures MatchText("question 4.") == None
  {
    var s := "question 4.";
    LeadingSpacesExact(s, 0);
    assert SkipSpaces(s) == s;
    DigitRunExact(s, 0);
    assert s[..8] != "Question" by { assert s[..8][0] == 'q'; }
    assert NoneOfFirst(|QuestionPatterns|, s);
    NoneOfAll(s);
  }

  /** `"(4)"` is question 4. */
  lemma ExampleParenthesised()
    ensures MatchText("(4)") == Some(4)
  {
    var s := "(4)";
    LeadingSpacesExact(s, 0);
    DigitRunExact(s[1..], 1);
    assert s[1..][..1] == "4";
  }

  /** None of the first `k` patterns, in the detector's order, matches `s`. */
  predicate NoneOfFirst(k: nat, s: string)
    requires k <= |QuestionPatterns|
  {
    forall j :: 0 <= j < k ==> MatchPattern(QuestionPatterns[j], s).None?
  }

  lemma NoneOfFirstStep(k: nat, s: string)
    requires k < |QuestionPatterns| && NoneOfFirst(k, s) && MatchPattern(QuestionPatterns[k], s).None?
    ensures NoneOfFirst(k + 1, s)
  {
  }

  /** When no pattern matches, the text announces no number. */
  lemma NoneOfAll(s: string)
    requires NoneOfFirst(|QuestionPatterns|, s)
    ensures MatchText(s).None?
  {
    assert MatchPattern(QuestionPatterns[0], s).None?;
    assert MatchPattern(QuestionPatterns[1], s).None?;
    assert MatchPattern(QuestionPatterns[2], s).None?;
    assert MatchPattern(QuestionPatterns[3], s).None?;
  }

  /** Past the leading whitespace, when each pattern's own matcher fails the text announces nothing. */
  lemma MatchTextNone(s: string)
    requires var t := SkipSpaces(s);
      NumberThenPunct(t).None? && AfterQ(t).None? && AfterQuestion(t).None? && AfterParen(t).None?
    ensures MatchText(s).None?
  {
  }

  /** Whichever pattern matches gives the number `MatchText` reports. */
  lemma MatchTextAgrees(k: nat, s: string)
    requires k < |QuestionPatterns| && MatchPattern(QuestionPatterns[k], s).Some?
    ensures MatchText(s) == MatchPattern(QuestionPatterns[k], s)
  {
  }
}
