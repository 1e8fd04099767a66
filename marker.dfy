/**
 * `PDFMarker` and `mark_pdf_submission`: open the exam PDF, stamp the marks
 * and the score summary on it, and save it under the output path.
 */
module Marker {
  import opened Wrappers
  import opened Text
  import opened Pdf
  import opened Detection
  import opened Marking

  class PdfMarker {
    const pdfPath: string
    const outputPath: string
    /** The files `fitz.open` reads and `save` writes. */
    var files: Files
    var doc: Option<Document>
    var questionMapping: Template

    constructor(files: Files, pdfPath: string, outputPath: string)
      ensures this.files == files && this.pdfPath == pdfPath && this.outputPath == outputPath
      ensures doc == None && questionMapping == map[]
    {
      this.files := files;
      this.pdfPath := pdfPath;
      this.outputPath := outputPath;
      doc := None;
      questionMapping := map[];
    }

    /** `open_pdf`: on success the document at `pdfPath` replaces `doc`; on failure nothing changes. */
    method OpenPdf() returns (r: Outcome<Error>)
      modifies this
      ensures r.Pass? <==> pdfPath in files
      ensures r.Pass? ==> doc == Some(files[pdfPath])
      ensures r.Fail? ==> r.error == OpenFailed(pdfPath) && doc == old(doc)
      ensures files == old(files) && questionMapping == old(questionMapping)
    {
      match Open(files, pdfPath)
      case Success(d) =>
        doc := Some(d);
        r := Pass;
      case Failure(e) =>
        r := Fail(e);
    }

    /** `close_pdf`: a document that is true in Python's sense is released; afterwards `doc` is never true. */
    method ClosePdf()
      modifies this
      ensures doc == if Truthy(old(doc)) then None else old(doc)
      ensures !Truthy(doc)
      ensures files == old(files) && questionMapping == old(questionMapping)
    {
      if Truthy(doc) {
        doc := None;
      }
    }

    /** `set_question_mapping`. */
    method SetQuestionMapping(mapping: Template)
      modifies this
      ensures questionMapping == mapping
      ensures files == old(files) && doc == old(doc)
    {
      questionMapping := mapping;
    }

    /**
     * `overlay_marks`: reopens the file when `doc` is not true, then stamps a
     * tick or a cross beside each mark's question, skipping marks whose question
     * is not in the mapping or whose page is past the end of the document.
     */
    method OverlayMarks(marks: seq<Mark>) returns (r: Outcome<Error>)
      modifies this
      ensures files == old(files) && questionMapping == old(questionMapping)
      ensures Truthy(old(doc)) ==> r == Pass && doc == Some(ApplyMarks(old(doc).value, questionMapping, marks))
      ensures !Truthy(old(doc)) && pdfPath in files ==>
                r == Pass && doc == Some(ApplyMarks(files[pdfPath], questionMapping, marks))
      ensures !Truthy(old(doc)) && pdfPath !in files ==> r == Fail(OpenFailed(pdfPath)) && doc == old(doc)
    {
      if !Truthy(doc) {
        r := OpenPdf();
        if r.Fail? {
          return;
        }
      }
      var d := StampMarks(doc.value, questionMapping, marks);
      doc := Some(d);
      r := Pass;
    }

    /**
     * `add_score_summary`: reopens the file when `doc` is not true; on a
     * document without pages `self.doc[0]` fails; otherwise the summary lines
     * are stamped on the first page from y = 50 down, 20 points apart.
     */
    method AddScoreSummary(driverName: string, examTitle: string, correctCount: nat, totalQuestions: nat,
                           examDate: string) returns (r: Outcome<Error>)
      modifies this
      ensures files == old(files) && questionMapping == old(questionMapping)
      ensures !Truthy(old(doc)) && pdfPath !in files ==> r == Fail(OpenFailed(pdfPath)) && doc == old(doc)
      ensures Truthy(old(doc)) || pdfPath in files ==>
                var d0 := if Truthy(old(doc)) then old(doc).value else files[pdfPath];
                && (|d0.pages| == 0 ==> r == Fail(SummaryFailed(PageIndexError)) && doc == Some(d0))
                && (|d0.pages| > 0 ==>
                      && r == Pass
                      && doc == Some(WithSummary(d0, SummaryLines(driverName, examTitle, correctCount, totalQuestions, examDate))))
    {
      if !Truthy(doc) {
        r := OpenPdf();
        if r.Fail? {
          return;
        }
      }
      var d := doc.value;
      if |d.pages| == 0 {
        return Fail(SummaryFailed(PageIndexError));
      }
      var lines := SummaryLines(driverName, examTitle, correctCount, totalQuestions, examDate);
      d := StampSummary(d, lines);
      doc := Some(d);
      r := Pass;
    }

    /** `save_marked_pdf`: writes the open document to `outputPath`; fails when no document is open. */
    method SaveMarkedPdf() returns (r: Outcome<Error>)
      modifies this
      ensures !Truthy(doc) ==> r == Fail(SaveFailed(NoDocumentOpen)) && files == old(files)
      ensures Truthy(doc) ==> r == Pass && files == old(files)[outputPath := doc.value]
      ensures doc == old(doc) && questionMapping == old(questionMapping)
    {
      if !Truthy(doc) {
        return Fail(SaveFailed(NoDocumentOpen));
      }
      files := files[outputPath := doc.value];
      r := Pass;
    }
  }

  /** The loop of `overlay_marks`: one tick or cross per placeable mark, in mark order. */
  method StampMarks(d0: Document, t: Template, marks: seq<Mark>) returns (d: Document)
    ensures d == ApplyMarks(d0, t, marks)
  {
    d := d0;
    var i := 0;
    while i < |marks|
      invariant 0 <= i <= |marks|
      invariant d == ApplyMarks(d0, t, marks[..i])
    {
      d := StampMark(d, t, marks[i]);
      ApplyMarksStep(d0, t, marks, i);
      i := i + 1;
    }
    assert marks[..i] == marks;
  }

  /** One iteration of the loop of `overlay_marks`. */
  method StampMark(d0: Document, t: Template, m: Mark) returns (d: Document)
    ensures d == ApplyMark(d0, t, m)
  {
    d := d0;
    var questionStr := IntToString(m.question);
    if questionStr !in t {
      return;
    }
    var info := t[questionStr];
    if info.page >= |d.pages| {
      return;
    }
    var markText := if m.correct then Checkmark else Crossmark;
    var markColor := if m.correct then CorrectColor else IncorrectColor;
    d := InsertText(d, info.page, TextInsert(info.x + MarkDx, info.y + MarkDy, markText, MarkFontSize, markColor, Font));
  }

  /** The loop of `add_score_summary`: the lines on the first page, 20 points apart from y = 50. */
  method StampSummary(d0: Document, lines: seq<string>) returns (d: Document)
    requires |d0.pages| > 0
    ensures d == WithSummary(d0, lines)
  {
    d := d0;
    var yPos: real := 50.0;
    var lineHeight: real := 20.0;
    var i := 0;
    while i < |lines|
      invariant 0 <= i <= |lines|
      invariant yPos == 50.0 + 20.0 * (i as real)
      invariant |d.pages| == |d0.pages|
      invariant d == WithSummary(d0, lines[..i])
    {
      d := InsertText(d, 0, TextInsert(50.0, yPos, lines[i], 11, Black, Font));
      assert lines[..i + 1][..i] == lines[..i];
      yPos := yPos + lineHeight;
      i := i + 1;
    }
    assert lines[..i] == lines;
  }

  /**
   * `mark_pdf_submission`: the marked copy of `sourcePdf` is written to
   * `outputPdf`, or the failure is reported wrapped as a marking error.
   * `marker` is the object the call creates; by its `finally` clause it holds
   * no open document afterwards, on every path.
   */
  method MarkPdfSubmission(files: Files, sourcePdf: string, outputPdf: string, driverName: string,
                           examTitle: string, marks: seq<Mark>, questionMapping: Template, examDate: string)
    returns (r: Outcome<Error>, filesOut: Files, ghost marker: PdfMarker)
    ensures fresh(marker) && marker.pdfPath == sourcePdf && marker.outputPath == outputPdf
    ensures !Truthy(marker.doc) && filesOut == marker.files
    ensures sourcePdf in files ==> marker.questionMapping == questionMapping
    ensures sourcePdf !in files ==> r == Fail(MarkingFailed(OpenFailed(sourcePdf))) && filesOut == files
    ensures sourcePdf in files && |files[sourcePdf].pages| == 0 ==>
              r == Fail(MarkingFailed(SummaryFailed(PageIndexError))) && filesOut == files
    ensures sourcePdf in files && |files[sourcePdf].pages| > 0 ==>
              && r == Pass
              && filesOut == files[outputPdf := MarkedDocument(files[sourcePdf], questionMapping, marks,
                                                               driverName, examTitle, examDate)]
  {
    var m := new PdfMarker(files, sourcePdf, outputPdf);
    marker := m;
    var o := m.OpenPdf();
    if o.Fail? {
      m.ClosePdf();
      return Fail(MarkingFailed(o.error)), m.files, marker;
    }
    m.SetQuestionMapping(questionMapping);
    var correctCount := CountCorrect(marks);
    var totalQuestions := |marks|;
    o := m.OverlayMarks(marks);
    // The document was just opened, so a reopen inside `overlay_marks` cannot fail.
    assert o == Pass;
    o := m.AddScoreSummary(driverName, examTitle, correctCount, totalQuestions, examDate);
    if o.Fail? {
      m.ClosePdf();
      return Fail(MarkingFailed(o.error)), m.files, marker;
    }
    o := m.SaveMarkedPdf();
    m.ClosePdf();
    r, filesOut := Pass, m.files;
  }
}
