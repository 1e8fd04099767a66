/**
 * What the marker stamps on a document: a tick or a cross beside every
 * answered question whose position is known, and a score summary at the top
 * of the first page.
 */
module Marking {
  import opened Wrappers
  import opened Text
  import opened Pdf
  import opened Patterns
  import opened Detection

  /** One item of `marks`: a question number and whether its answer was correct. */
  datatype Mark = Mark(question: int, correct: bool)

  /** The position mapping handed to the marker, keyed by `str(question)`. */
  type Template = map<string, QuestionPosition>

  const Checkmark: string := "\U{2713}"
  const Crossmark: string := "\U{2717}"
  const MarkFontSize: nat := 16
  const CorrectColor: Color := Rgb(0.0, 0.6, 0.0)
  const IncorrectColor: Color := Rgb(0.8, 0.0, 0.0)
  const Black: Color := Rgb(0.0, 0.0, 0.0)
  const Font: string := "helv"

  /** Horizontal and vertical offsets of a mark from its question's position. */
  const MarkDx: real := 250.0
  const MarkDy: real := -3.0

  // ---------------------------------------------------------------------------
  // Marks.
  // ---------------------------------------------------------------------------

  /** The text record for a mark at a question's position. */
  function Glyph(pos: QuestionPosition, correct: bool): TextInsert
  {
    TextInsert(pos.x + MarkDx, pos.y + MarkDy, if correct then Checkmark else Crossmark, MarkFontSize,
               if correct then CorrectColor else IncorrectColor, Font)
  }

  /** The template knows the mark's question and its page exists in a document of `pageCount` pages. */
  predicate Placeable(t: Template, m: Mark, pageCount: nat)
  {
    IntToString(m.question) in t && t[IntToString(m.question)].page < pageCount
  }

  /** One iteration of the loop of `overlay_marks`. */
  function ApplyMark(d: Document, t: Template, m: Mark): (r: Document)
    ensures |r.pages| == |d.pages|
  {
    if Placeable(t, m, |d.pages|) then
      var pos := t[IntToString(m.question)];
      InsertText(d, pos.page, Glyph(pos, m.correct))
    else d
  }

  /** The document after `overlay_marks(marks)`. */
  function ApplyMarks(d: Document, t: Template, marks: seq<Mark>): (r: Document)
    ensures |r.pages| == |d.pages|
  {
    if marks == [] then d
    else ApplyMark(ApplyMarks(d, t, marks[..|marks| - 1]), t, marks[|marks| - 1])
  }

  /** Overlaying one more mark applies it to the document overlaid so far. */
  lemma ApplyMarksStep(d: Document, t: Template, marks: seq<Mark>, i: nat)
    requires i < |marks|
    ensures ApplyMarks(d, t, marks[..i + 1]) == ApplyMark(ApplyMarks(d, t, marks[..i]), t, marks[i])
  {
    assert marks[..i + 1][..i] == marks[..i];
  }

  /** The records the placeable marks put on page `p`, in the order of the marks. */
  function GlyphsOnPage(t: Template, marks: seq<Mark>, pageCount: nat, p: nat): seq<TextInsert>
  {
    if marks == [] then []
    else
      var m := marks[|marks| - 1];
      GlyphsOnPage(t, marks[..|marks| - 1], pageCount, p)
      + if Placeable(t, m, pageCount) && t[IntToString(m.question)].page == p
        then [Glyph(t[IntToString(m.question)], m.correct)] else []
  }

  /** How many of the marks can be placed. */
  function PlaceableCount(t: Template, marks: seq<Mark>, pageCount: nat): (n: nat)
    ensures n <= |marks|
  {
    if marks == [] then 0
    else PlaceableCount(t, marks[..|marks| - 1], pageCount)
         + if Placeable(t, marks[|marks| - 1], pageCount) then 1 else 0
  }

  /** Every mark is stamped exactly when the count equals the number of marks. */
  lemma {:induction false} PlaceableCountFull(t: Template, marks: seq<Mark>, pageCount: nat)
    ensures PlaceableCount(t, marks, pageCount) == |marks|
            <==> forall i :: 0 <= i < |marks| ==> Placeable(t, marks[i], pageCount)
  {
    if marks != [] {
      PlaceableCountFull(t, marks[..|marks| - 1], pageCount);
      PlaceableCountSplit(t, marks, pageCount);
    }
  }

  /** No mark is stamped exactly when the count is zero. */
  lemma {:induction false} PlaceableCountNone(t: Template, marks: seq<Mark>, pageCount: nat)
    ensures PlaceableCount(t, marks, pageCount) == 0
            <==> forall i :: 0 <= i < |marks| ==> !Placeable(t, marks[i], pageCount)
  {
    if marks != [] {
      PlaceableCountNone(t, marks[..|marks| - 1], pageCount);
      PlaceableCountSplit(t, marks, pageCount);
    }
  }

  /** One step of `PlaceableCount`, and the quantifiers over `marks` split at its last mark. */
  lemma PlaceableCountSplit(t: Template, marks: seq<Mark>, pageCount: nat)
    requires marks != []
    ensures var init, last := marks[..|marks| - 1], marks[|marks| - 1];
            && PlaceableCount(t, marks, pageCount)
               == PlaceableCount(t, init, pageCount) + (if Placeable(t, last, pageCount) then 1 else 0)
            && PlaceableCount(t, init, pageCount) <= |init|
            && ((forall i :: 0 <= i < |marks| ==> Placeable(t, marks[i], pageCount))
                <==> (forall i :: 0 <= i < |init| ==> Placeable(t, init[i], pageCount)) && Placeable(t, last, pageCount))
            && ((forall i :: 0 <= i < |marks| ==> !Placeable(t, marks[i], pageCount))
                <==> (forall i :: 0 <= i < |init| ==> !Placeable(t, init[i], pageCount)) && !Placeable(t, last, pageCount))
  {
    var init := marks[..|marks| - 1];
    assert marks == init + [marks[|marks| - 1]];
  }

  /**
   * Overlaying marks leaves every page's block tree alone and appends to the
   * insert log of each page exactly the glyphs of the marks placed on it, in mark order;
   * marks whose question is unknown or whose page is missing add nothing.
   */
  lemma {:induction false} MarksOnPage(d: Document, t: Template, marks: seq<Mark>, p: nat)
    requires p < |d.pages|
    ensures ApplyMarks(d, t, marks).pages[p].blocks == d.pages[p].blocks
    ensures ApplyMarks(d, t, marks).pages[p].inserts == d.pages[p].inserts + GlyphsOnPage(t, marks, |d.pages|, p)
  {
    if marks != [] {
      var init := marks[..|marks| - 1];
      MarksOnPage(d, t, init, p);
    }
  }

  /** Every placeable mark adds one record to the document, and no other mark adds any. */
  lemma {:induction false} MarksInsertCount(d: Document, t: Template, marks: seq<Mark>)
    ensures InsertCount(ApplyMarks(d, t, marks).pages) == InsertCount(d.pages) + PlaceableCount(t, marks, |d.pages|)
  {
    if marks != [] {
      var init := marks[..|marks| - 1];
      var m := marks[|marks| - 1];
      MarksInsertCount(d, t, init);
      var before := ApplyMarks(d, t, init);
      if Placeable(t, m, |d.pages|) {
        InsertTextAddsOne(before, t[IntToString(m.question)].page, Glyph(t[IntToString(m.question)], m.correct));
      }
    }
  }

  /**
   * With the mapping the detector produced, a mark for a detected question is
   * stamped 250 points right of and 3 points above the first occurrence of the
   * question's number; a mark for any other question is skipped.
   */
  lemma MarkAtDetectedPosition(cs: seq<Candidate>, d: Document, m: Mark)
    ensures var t := AsMap(DetectionEntries(cs));
      if m.question >= 0 && m.question as nat in Scan(cs) && Scan(cs)[m.question as nat].page < |d.pages|
      then ApplyMark(d, t, m) == InsertText(d, Scan(cs)[m.question as nat].page, Glyph(Scan(cs)[m.question as nat], m.correct))
      else ApplyMark(d, t, m) == d
  {
    var es := DetectionEntries(cs);
    var key := IntToString(m.question);
    if m.question >= 0 && m.question as nat in Scan(cs) {
      var q := m.question as nat;
      TemplateLookup(cs, q);
      IntToStringMatchesNat(m.question, q);
    } else {
      DetectionEntriesShape(cs);
      DetectedNumbersAreScanKeys(cs);
      var keys := DetectedNumbers(cs);
      forall i | 0 <= i < |es|
        ensures es[i].key != key
      {
        IntToStringMatchesNat(m.question, keys[i]);
      }
      AsMapKeys(es, key);
    }
  }

  // ---------------------------------------------------------------------------
  // The score summary.
  // ---------------------------------------------------------------------------

  /** `sum(1 for is_correct in marks.values() if is_correct)`. */
  function CountCorrect(marks: seq<Mark>): (c: nat)
    ensures c <= |marks|
    ensures c == |marks| <==> forall i :: 0 <= i < |marks| ==> marks[i].correct
    ensures c == 0 <==> forall i :: 0 <= i < |marks| ==> !marks[i].correct
  {
    if marks == [] then 0
    else
      var init := marks[..|marks| - 1];
      var c := CountCorrect(init) + if marks[|marks| - 1].correct then 1 else 0;
      assert forall i :: 0 <= i < |init| ==> init[i] == marks[i];
      c
  }

  /** `correct_count / total_questions * 100`, or 0 when there are no questions. */
  function Percentage(correct: nat, total: nat): (p: real)
    ensures total == 0 ==> p == 0.0
    ensures total > 0 ==> p * (total as real) == (correct as real) * 100.0
    ensures correct <= total ==> 0.0 <= p <= 100.0
    ensures 0 < total == correct ==> p == 100.0
  {
    if total > 0 then (correct as real) / (total as real) * 100.0 else 0.0
  }

  /** `f"{p:.1f}"` for a non-negative `p`: rounded to tenths, one digit after the point. */
  function PercentText(p: real): (s: string)
    requires p >= 0.0
  {
    var tenths := (p * 10.0 + 0.5).Floor;
    NatToString(tenths / 10) + "." + [DigitChar(tenths % 10)]
  }

  /**
   * The rendered percentage is digits, a point and one digit, and the number it
   * reads as is within half a tenth of `p`.
   */
  lemma PercentTextReadsBack(p: real)
    requires p >= 0.0
    ensures var s := PercentText(p);
      && |s| >= 3 && s[|s| - 2] == '.' && AllDigits(s[..|s| - 2]) && IsDigit(s[|s| - 1])
      && var v := (DigitsValue(s[..|s| - 2]) * 10 + DigitValue(s[|s| - 1])) as real / 10.0;
         v - 0.05 <= p < v + 0.05
  {
    var tenths := (p * 10.0 + 0.5).Floor;
    var whole := NatToString(tenths / 10);
    var s := PercentText(p);
    assert s[..|s| - 2] == whole;
    assert s[|s| - 1] == DigitChar(tenths % 10);
    NatToStringRoundTrip(tenths / 10);
    assert (tenths / 10) * 10 + tenths % 10 == tenths;
  }

  /** The rule of 50 `═` that frames the summary. */
  function Rule(): (r: string)
    ensures |r| == 50 && forall i :: 0 <= i < 50 ==> r[i] == '\U{2550}'
  {
    seq(50, _ => '\U{2550}')
  }

  /** `f"Score: {correct}/{total} ({percentage:.1f}%)"`. */
  function ScoreLine(correct: nat, total: nat): string
  {
    "Score: " + (NatToString(correct) + ("/" + (NatToString(total) + ScoreTail(correct, total))))
  }

  /** The part of the score line after the total: `" (66.7%)"`. */
  function ScoreTail(correct: nat, total: nat): (s: string)
    ensures s != [] && !IsDigit(s[0])
  {
    " (" + PercentText(Percentage(correct, total)) + "%)"
  }

  /** Equal strings with a common prefix have equal remainders. */
  lemma DropCommonPrefix(p: string, x: string, y: string)
    requires p + x == p + y
    ensures x == y
  {
    assert (p + x)[|p|..] == x;
    assert (p + y)[|p|..] == y;
  }

  /** A string of digits followed by a non-digit splits in one way only. */
  lemma DigitsPrefixUnique(a: string, b: string, a': string, b': string)
    requires AllDigits(a) && AllDigits(a')
    requires b != [] && !IsDigit(b[0]) && b' != [] && !IsDigit(b'[0])
    requires a + b == a' + b'
    ensures a == a' && b == b'
  {
    var s := a + b;
    assert s[..|a|] == a && s[..|a'|] == a';
    DigitRunExact(s, |a|);
    DigitRunExact(s, |a'|);
    assert s[|a|..] == b && s[|a'|..] == b';
  }

  /** The score line determines both the correct count and the total it reports. */
  lemma ScoreLineDeterminesCounts(c1: nat, t1: nat, c2: nat, t2: nat)
    requires ScoreLine(c1, t1) == ScoreLine(c2, t2)
    ensures c1 == c2 && t1 == t2
  {
    var rest1 := "/" + (NatToString(t1) + ScoreTail(c1, t1));
    var rest2 := "/" + (NatToString(t2) + ScoreTail(c2, t2));
    DropCommonPrefix("Score: ", NatToString(c1) + rest1, NatToString(c2) + rest2);
    DigitsPrefixUnique(NatToString(c1), rest1, NatToString(c2), rest2);
    NatToStringInjective(c1, c2);
    DropCommonPrefix("/", NatToString(t1) + ScoreTail(c1, t1), NatToString(t2) + ScoreTail(c2, t2));
    DigitsPrefixUnique(NatToString(t1), ScoreTail(c1, t1), NatToString(t2), ScoreTail(c2, t2));
    NatToStringInjective(t1, t2);
  }

  /** The list `summary_lines`. */
  function SummaryLines(driverName: string, examTitle: string, correct: nat, total: nat, examDate: string): seq<string>
  {
    [Rule(), "EXAM MARKING SUMMARY", Rule(), "Driver: " + driverName, "Exam: " + examTitle, ScoreLine(correct, total)]
    + (if examDate != "" then ["Date: " + examDate] else [])
    + [Rule()]
  }

  /**
   * The summary has seven lines, or eight when a date is given; it is framed
   * by rules, the title comes second, and the score line sixth, followed by the
   * date when there is one.
   */
  lemma SummaryLinesShape(driverName: string, examTitle: string, correct: nat, total: nat, examDate: string)
    ensures var ls := SummaryLines(driverName, examTitle, correct, total, examDate);
      && |ls| == (if examDate == "" then 7 else 8)
      && ls[0] == ls[2] == ls[|ls| - 1] == Rule()
      && ls[1] == "EXAM MARKING SUMMARY"
      && ls[3] == "Driver: " + driverName && ls[4] == "Exam: " + examTitle
      && ls[5] == ScoreLine(correct, total)
      && (examDate != "" ==> ls[6] == "Date: " + examDate)
  {
  }

  /** The record for summary line `i`: at (50, 50 + 20i), 11 points, black, Helvetica. */
  function SummaryInsert(i: nat, line: string): TextInsert
  {
    TextInsert(50.0, 50.0 + 20.0 * (i as real), line, 11, Black, Font)
  }

  /** The records of all summary lines, top to bottom. */
  function SummaryInserts(lines: seq<string>): (r: seq<TextInsert>)
    ensures |r| == |lines|
  {
    seq(|lines|, i requires 0 <= i < |lines| => SummaryInsert(i, lines[i]))
  }

  /** The first page after the loop of `add_score_summary` has stamped `lines` one by one. */
  function WithSummary(d: Document, lines: seq<string>): (r: Document)
    requires |d.pages| > 0
    ensures |r.pages| == |d.pages|
  {
    if lines == [] then d
    else
      var n := |lines| - 1;
      InsertText(WithSummary(d, lines[..n]), 0, SummaryInsert(n, lines[n]))
  }

  /**
   * The summary stamps its lines on the first page only, in order, 20 points
   * apart from y = 50; no block tree and no other page changes.
   */
  lemma {:induction false} SummaryLayout(d: Document, lines: seq<string>)
    requires |d.pages| > 0
    ensures var r := WithSummary(d, lines);
      && r.pages[0].inserts == d.pages[0].inserts + SummaryInserts(lines)
      && (forall p :: 0 <= p < |d.pages| ==> r.pages[p].blocks == d.pages[p].blocks)
      && (forall p :: 0 < p < |d.pages| ==> r.pages[p].inserts == d.pages[p].inserts)
  {
    if lines != [] {
      var n := |lines| - 1;
      SummaryLayout(d, lines[..n]);
      assert SummaryInserts(lines) == SummaryInserts(lines[..n]) + [SummaryInsert(n, lines[n])];
    }
  }

  /** The document `mark_pdf_submission` saves: the marks, then the summary. */
  function MarkedDocument(d: Document, t: Template, marks: seq<Mark>, driverName: string, examTitle: string,
                          examDate: string): Document
    requires |d.pages| > 0
  {
    WithSummary(ApplyMarks(d, t, marks), SummaryLines(driverName, examTitle, CountCorrect(marks), |marks|, examDate))
  }
}
