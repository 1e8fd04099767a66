/**
 * `PDFQuestionDetector` and `detect_questions_in_pdf`: open a PDF, extract its
 * positioned text, and record where each question number first appears.
 */
module Detector {
  import opened Wrappers
  import opened Text
  import opened Pdf
  import opened Patterns
  import opened Extraction
  import opened Detection

  class PdfQuestionDetector {
    const pdfPath: string
    /** The files `fitz.open` can read. */
    const files: Files
    var doc: Option<Document>
    /** `self.question_mapping`, an ordered dictionary from `str(q)` to positions. */
    var questionMapping: seq<Entry>
    var detectedQuestions: seq<nat>

    /**
     * The detected numbers are strictly ascending and the mapping has one item
     * per number, keyed by its decimal string, in the same order.
     */
    predicate Valid()
      reads this
    {
      && |detectedQuestions| == |questionMapping|
      && StrictlyAscending(detectedQuestions)
      && forall i :: 0 <= i < |questionMapping| ==> questionMapping[i].key == NatToString(detectedQuestions[i])
    }

    constructor(files: Files, pdfPath: string)
      ensures this.files == files && this.pdfPath == pdfPath
      ensures doc == None && questionMapping == [] && detectedQuestions == []
      ensures Valid()
    {
      this.files := files;
      this.pdfPath := pdfPath;
      doc := None;
      questionMapping := [];
      detectedQuestions := [];
    }

    /** `open_pdf`: on success the document at `pdfPath` replaces `doc`; on failure nothing changes. */
    method OpenPdf() returns (r: Outcome<Error>)
      modifies this
      ensures r.Pass? <==> pdfPath in files
      ensures r.Pass? ==> doc == Some(files[pdfPath])
      ensures r.Fail? ==> r.error == OpenFailed(pdfPath) && doc == old(doc)
      ensures questionMapping == old(questionMapping) && detectedQuestions == old(detectedQuestions)
    {
      match Open(files, pdfPath)
      case Success(d) =>
        doc := Some(d);
        r := Pass;
      case Failure(e) =>
        r := Fail(e);
    }

    /**
     * `close_pdf`: a document that is true in Python's sense is released;
     * afterwards `doc` is never true.
     */
    method ClosePdf()
      modifies this
      ensures doc == if Truthy(old(doc)) then None else old(doc)
      ensures !Truthy(doc)
      ensures questionMapping == old(questionMapping) && detectedQuestions == old(detectedQuestions)
    {
      if Truthy(doc) {
        doc := None;
      }
    }

    /**
     * `extract_text_with_coordinates`: reopens the file when `doc` is not true,
     * then lists the non-blank spans of the text blocks, page by page.
     */
    method ExtractTextWithCoordinates() returns (r: Result<seq<Fragment>, Error>)
      modifies this
      ensures Truthy(old(doc)) ==> doc == old(doc) && r == Success(Fragments(doc.value))
      ensures !Truthy(old(doc)) && pdfPath in files ==>
                doc == Some(files[pdfPath]) && r == Success(Fragments(files[pdfPath]))
      ensures !Truthy(old(doc)) && pdfPath !in files ==> doc == old(doc) && r == Failure(OpenFailed(pdfPath))
      ensures questionMapping == old(questionMapping) && detectedQuestions == old(detectedQuestions)
    {
      if !Truthy(doc) {
        var o := OpenPdf();
        if o.Fail? {
          return Failure(o.error);
        }
      }
      var out := ExtractPages(doc.value.pages);
      r := Success(out);
    }

    /**
     * `detect_questions`: scans the fragments, trying the four patterns on each,
     * keeps the first position of every number, and stores the numbers and the
     * mapping in ascending numeric order.
     */
    method DetectQuestions() returns (r: Result<seq<Entry>, Error>)
      modifies this
      ensures r.Failure? <==> !Truthy(old(doc)) && pdfPath !in files
      ensures r.Failure? ==> r.error == OpenFailed(pdfPath) && doc == old(doc)
      ensures r.Failure? ==> questionMapping == old(questionMapping) && detectedQuestions == old(detectedQuestions)
      ensures r.Success? ==> doc == if Truthy(old(doc)) then old(doc) else Some(files[pdfPath])
      ensures r.Success? ==>
                var cs := Candidates(Fragments(doc.value));
                && questionMapping == DetectionEntries(cs)
                && detectedQuestions == DetectedNumbers(cs)
                && r.value == questionMapping
      ensures r.Success? ==> Valid()
    {
      var e := ExtractTextWithCoordinates();
      if e.Failure? {
        return Failure(e.error);
      }
      var frags := e.value;
      ghost var cs := Candidates(frags);
      var found, detected := ScanFragments(frags);
      FirstSeenMatchesScan(cs);
      questionMapping := SortedEntries(found, detected);
      detectedQuestions := SortAscending(detected);
      DetectionConsistent(cs);
      r := Success(questionMapping);
    }

    /** `get_question_mapping`: with a valid detector, the keys are distinct decimal strings. */
    function GetQuestionMapping(): (r: seq<Entry>)
      reads this
      ensures Valid() ==> |r| == |detectedQuestions|
      ensures Valid() ==> forall i, j :: 0 <= i < j < |r| ==> r[i].key != r[j].key
    {
      assert Valid() ==> forall i, j :: 0 <= i < j < |questionMapping| ==>
        questionMapping[i].key != questionMapping[j].key by {
        if Valid() {
          forall i, j | 0 <= i < j < |questionMapping|
            ensures questionMapping[i].key != questionMapping[j].key
          {
            NatToStringInjective(detectedQuestions[i], detectedQuestions[j]);
          }
        }
      }
      questionMapping
    }

    /** `get_detected_question_count`: with a valid detector, the number of items in the mapping. */
    function GetDetectedQuestionCount(): (r: nat)
      reads this
      ensures Valid() ==> r == |questionMapping|
    {
      |detectedQuestions|
    }
  }

  lemma AppendAssoc<T>(a: seq<T>, b: seq<T>, c: seq<T>)
    ensures (a + b) + c == a + (b + c)
  {
  }

  // The nested loops of `extract_text_with_coordinates`, one method per level;
  // each appends the fragments of its level to `text_blocks`.


  /** The loop over the spans of a line. */
  method AppendSpans(out: seq<Fragment>, page: nat, spans: seq<Span>) returns (res: seq<Fragment>)
    ensures res == out + SpansFragments(page, spans)
  {
    res := out;
    var s := 0;
    assert SpansFragments(page, spans[..0]) == [] by { assert spans[..0] == []; }
    while s < |spans|
      invariant 0 <= s <= |spans|
      invariant res == out + SpansFragments(page, spans[..s])
    {
      var text := Strip(spans[s].text);
      ghost var before := res;
      if text != [] {
        var box := BoxOf(spans[s]);
        res := res + [Fragment(text, page, box.x0, box.y0, box.x1, box.y1)];
      }
      assert res == before + SpanFragments(page, spans[s]);
      SpansStep(page, spans, s);
      AppendAssoc(out, SpansFragments(page, spans[..s]), SpanFragments(page, spans[s]));
      s := s + 1;
    }
    assert spans[..s] == spans;
  }

  /** The loop over the lines of a text block. */
  method AppendLines(out: seq<Fragment>, page: nat, lines: seq<Line>) returns (res: seq<Fragment>)
    ensures res == out + LinesFragments(page, lines)
  {
    res := out;
    var l := 0;
    assert LinesFragments(page, lines[..0]) == [] by { assert lines[..0] == []; }
    while l < |lines|
      invariant 0 <= l <= |lines|
      invariant res == out + LinesFragments(page, lines[..l])
    {
      res := AppendSpans(res, page, lines[l].spans);
      LinesStep(page, lines, l);
      AppendAssoc(out, LinesFragments(page, lines[..l]), SpansFragments(page, lines[l].spans));
      l := l + 1;
    }
    assert lines[..l] == lines;
  }

  /** The loop over the pages of the open document. */
  method ExtractPages(pages: seq<Page>) returns (out: seq<Fragment>)
    ensures out == PagesFragments(pages)
  {
    out := [];
    var p := 0;
    assert PagesFragments(pages[..0]) == [] by { assert pages[..0] == []; }
    while p < |pages|
      invariant 0 <= p <= |pages|
      invariant out == PagesFragments(pages[..p])
    {
      out := AppendBlocks(out, p, pages[p].blocks);
      PagesStep(pages, p);
      p := p + 1;
    }
    assert pages[..p] == pages;
  }

  /** The loop over the blocks of a page; image blocks are passed over. */
  method AppendBlocks(out: seq<Fragment>, page: nat, blocks: seq<Block>) returns (res: seq<Fragment>)
    ensures res == out + BlocksFragments(page, blocks)
  {
    res := out;
    var b := 0;
    assert BlocksFragments(page, blocks[..0]) == [] by { assert blocks[..0] == []; }
    while b < |blocks|
      invariant 0 <= b <= |blocks|
      invariant res == out + BlocksFragments(page, blocks[..b])
    {
      ghost var before := res;
      if blocks[b].kind == 0 {
        res := AppendLines(res, page, blocks[b].lines);
      }
      assert res == before + BlockFragments(page, blocks[b]);
      BlocksStep(page, blocks, b);
      AppendAssoc(out, BlocksFragments(page, blocks[..b]), BlockFragments(page, blocks[b]));
      b := b + 1;
    }
    assert blocks[..b] == blocks;
  }

  /**
   * The loop of `detect_questions` over the extracted fragments: the dictionary
   * of first positions and the list of numbers in order of first sight.
   */
  method ScanFragments(frags: seq<Fragment>) returns (found: map<nat, QuestionPosition>, detected: seq<nat>)
    ensures found == Scan(Candidates(frags)) && detected == FirstSeen(Candidates(frags))
  {
    ghost var cs := Candidates(frags);
    found := map[];
    detected := [];
    var i := 0;
    assert cs[..0] == [];
    while i < |frags|
      invariant 0 <= i <= |frags|
      invariant found == Scan(cs[..i]) && detected == FirstSeen(cs[..i])
    {
      var text := frags[i].text;
      assert cs[i] == Candidate(MatchText(text), PositionOf(frags[i]));
      ScanStep(cs, i);
      found, detected := RecordMatch(text, PositionOf(frags[i]), found, detected);
      i := i + 1;
    }
    assert cs[..i] == cs;
  }

  /**
   * The loop over `QUESTION_PATTERNS` for one fragment: the first matching
   * pattern's number is recorded with `position` unless it is already known.
   * The number does not depend on which pattern matched, so this is the scan
   * step for the fragment's candidate.
   */
  method RecordMatch(text: string, position: QuestionPosition, found: map<nat, QuestionPosition>, detected: seq<nat>)
    returns (found': map<nat, QuestionPosition>, detected': seq<nat>)
    ensures MatchText(text).Some? && MatchText(text).value !in found ==>
              found' == found[MatchText(text).value := position] && detected' == detected + [MatchText(text).value]
    ensures MatchText(text).None? || MatchText(text).value in found ==> found' == found && detected' == detected
  {
    found', detected' := found, detected;
    ghost var matched := false;
    var k := 0;
    while k < |QuestionPatterns|
      invariant 0 <= k <= |QuestionPatterns|
      invariant !matched ==> NoneOfFirst(k, text) && found' == found && detected' == detected
      invariant matched ==> MatchText(text).Some? && MatchText(text).value in found'
      invariant matched ==> if MatchText(text).value in found then found' == found && detected' == detected
                            else found' == found[MatchText(text).value := position]
                                 && detected' == detected + [MatchText(text).value]
    {
      var m := MatchPattern(QuestionPatterns[k], text);
      if m.Some? {
        MatchTextAgrees(k, text);
        var q := m.value;
        if q !in found' {
          found' := found'[q := position];
          detected' := detected' + [q];
        }
        matched := true;
      } else if !matched {
        NoneOfFirstStep(k, text);
      }
      k := k + 1;
    }
    if !matched {
      NoneOfAll(text);
    }
  }

  /**
   * `detect_questions_in_pdf`: the mapping and the count for the document at
   * `pdfPath`, or the open failure. `detector` is the object the call creates;
   * by its `finally` clause it holds no open document afterwards, on either path.
   */
  method DetectQuestionsInPdf(files: Files, pdfPath: string)
    returns (r: Result<(seq<Entry>, nat), Error>, ghost detector: PdfQuestionDetector)
    ensures fresh(detector) && detector.files == files && detector.pdfPath == pdfPath
    ensures !Truthy(detector.doc)
    ensures pdfPath !in files ==> r == Failure(OpenFailed(pdfPath))
    ensures pdfPath in files ==>
              var cs := Candidates(Fragments(files[pdfPath]));
              r == Success((DetectionEntries(cs), |Scan(cs)|))
    ensures r.Success? ==>
              && detector.questionMapping == r.value.0
              && |detector.detectedQuestions| == r.value.1
  {
    var d := new PdfQuestionDetector(files, pdfPath);
    detector := d;
    var o := d.OpenPdf();
    if o.Fail? {
      d.ClosePdf();
      return Failure(o.error), detector;
    }
    var m := d.DetectQuestions();
    assert m.Success?;
    var count := d.GetDetectedQuestionCount();
    DetectedNumbersAreScanKeys(Candidates(Fragments(files[pdfPath])));
    d.ClosePdf();
    r := Success((m.value, count));
  }
}
