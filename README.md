# Exam PDF question detection and marking overlay

This project is a Dafny model of the engine in `training/trainapp/pdf_utils.py` of the
training-administration application. The engine has two halves.

- `PDFQuestionDetector` opens an exam PDF and walks the text layer of every page.
  It keeps each non-blank span of a text block as a positioned fragment.
  It matches every fragment against four anchored question-number patterns.
  It records, for each question number, the position of the first fragment that announces it.
  The result is a mapping from `str(number)` to `{page, x, y, text}`, in ascending numeric order, plus the count of numbers.
- `PDFMarker` reopens the same PDF and stamps a tick or a cross 250 points right of and 3 points above each answered question's position.
  It then writes a score summary down the top of the first page and saves the result under a new path.

The module layout follows the program:

| module | file | what it holds |
|---|---|---|
| `Text` | `text.dfy` | Python's `str.isspace`, ASCII `\d`, `str.strip`, `int(...)` of a digit string and `str(...)` of an integer |
| `Pdf` | `pdf.dfy` | the document as PyMuPDF presents it, `fitz.open`, `page.insert_text`, and Python's truth value of the `doc` attribute |
| `Patterns` | `patterns.dfy` | the four `QUESTION_PATTERNS` as matchers, and a grammar each matcher is proved equal to |
| `Extraction` | `extraction.dfy` | what `extract_text_with_coordinates` yields, as a recursive function over pages, blocks, lines and spans |
| `Detection` | `detection.dfy` | what `detect_questions` computes: the first-occurrence scan, the sort, and the string-keyed mapping |
| `Detector` | `detector.dfy` | the `PDFQuestionDetector` class, its loops as methods, and `detect_questions_in_pdf` |
| `Marking` | `marking.dfy` | what `overlay_marks` and `add_score_summary` stamp, as functions on documents |
| `Marker` | `marker.dfy` | the `PDFMarker` class, its loops as methods, and `mark_pdf_submission` |

Modelling choices:

- **Documents.** A document is a value.
  Each page holds the text-layer tree that `page.get_text("dict")` returns: blocks with a type, lines and spans.
  Each page also holds a separate log of the `insert_text` calls made on it.
  A file system is a map from paths to documents: `fitz.open` reads it and `save` writes it.
- **Truth value of `doc`.** `if self.doc` and `not self.doc` test Python's truth value.
  A PyMuPDF `Document` is false when it has no pages, so `Pdf.Truthy` is "a document with at least one page is open".
  Reopen-on-demand, `close_pdf` and `save_marked_pdf` all use this test.
- **Classes.** Both classes keep the source's fields and update them in place.
  The source's nested loops are written as one method per nesting level.
  Each loop method is proved equal to the recursive function that specifies it.
  The loops over the extracted fragments and over the marks keep the order the source iterates in.
- **Detection and marking data.** The detector's ordered mapping is a sequence of key/position entries.
  The marker receives that mapping as a `map` from key strings to positions.
  `marks`, a dictionary from question numbers to booleans, is a sequence of `(question, correct)` pairs in iteration order.
- **Errors.** The source raises `ValueError`s with messages. The model returns `Error` values that name the same causes and nest the same way.

What the code accepts and how it closes documents:

- **Patterns.** There are exactly four patterns, all of them numeric.
  - No sub-part identifiers such as `1a`: "1(a)" announces nothing (`Patterns.ExampleSubpart`).
  - `Q` must be followed directly by the digits: "Q 3." announces nothing (`Patterns.ExampleQSpace`).
  - `Question` is case-sensitive (`Patterns.ExampleLowerCaseWord`).
- **Key order.** Keys are ordered by plain numeric sort of the integer question numbers.
- **Closing zero-page documents.** `close_pdf` releases only a document that is true. An open document without pages therefore stays referenced after `close_pdf` (`Marker.PdfMarker.ClosePdf`).

## Model

| member | source | states |
|---|---|---|
| Text.LeadingSpaces | training/trainapp/pdf_utils.py:17-20 | the whitespace that `^\s*` consumes: everything before the count is whitespace and the character at it is not |
| Text.LeadingSpacesExact | training/trainapp/pdf_utils.py:17-20 | any whitespace prefix followed by a non-space is exactly what the leading `\s*` consumes |
| Text.TrailingSpaces | training/trainapp/pdf_utils.py:61 | the longest whitespace suffix that `strip()` removes on the right |
| Text.StripShape | training/trainapp/pdf_utils.py:61-62 | a stripped text is empty or starts and ends with a non-space, and it is empty exactly when the span is all whitespace, which is the `if text:` filter |
| Text.StripRemovesOnlyOuterSpaces | training/trainapp/pdf_utils.py:61 | `strip()` returns a contiguous piece of the span with only whitespace on either side of it |
| Text.StripTrimmed | training/trainapp/pdf_utils.py:61 | a text with no outer whitespace is left unchanged |
| Text.StripIdempotent | training/trainapp/pdf_utils.py:61 | stripping twice is stripping once |
| Text.NatToString | training/trainapp/pdf_utils.py:100 | `str(q)` of a question number is a non-empty digit string with no leading zero unless it is "0" |
| Text.NatToStringRoundTrip | training/trainapp/pdf_utils.py:100 | `int(str(q)) == q`: the mapping key reads back as the question number |
| Text.NatToStringInjective | training/trainapp/pdf_utils.py:100 | two question numbers get the same key exactly when they are equal |
| Text.IntToString | training/trainapp/pdf_utils.py:163 | `str(question_num)` of a mark's number starts with a minus sign exactly when the number is negative |
| Text.IntToStringMatchesNat | training/trainapp/pdf_utils.py:163-164 | a mark's key equals a detected question's key exactly when the numbers are equal, so the marker finds precisely the detector's entry |
| Pdf.InsertText | training/trainapp/pdf_utils.py:182-188 | `insert_text` appends one record to the chosen page's log and leaves the page count, every page's block tree and every other page's log unchanged |
| Pdf.InsertTextAddsOne | training/trainapp/pdf_utils.py:182-188 | each `insert_text` adds exactly one record to the document |
| Patterns.DigitRun | training/trainapp/pdf_utils.py:17-20 | the greedy `\d+`: a run of digits followed by a non-digit or the end |
| Patterns.DigitRunExact | training/trainapp/pdf_utils.py:17-20 | the digit run is unique: any digit prefix followed by a non-digit is the one `\d+` takes |
| Patterns.NumberThenPunctParts | training/trainapp/pdf_utils.py:17 | a successful `(\d+)\s*[\.\):\-]` match splits into a digit group and a closing part, and the number is the group's value |
| Patterns.MatchPatternSound | training/trainapp/pdf_utils.py:16-21 | every number a pattern reports is the value of a digit group that the pattern's regular expression accepts |
| Patterns.MatchPatternComplete | training/trainapp/pdf_utils.py:16-21 | every way the regular expression accepts a text is found, with the same number |
| Patterns.MatchPatternIsRegex | training/trainapp/pdf_utils.py:16-21 | `re.match(pattern, text)` succeeds with `int(group(1)) == n` exactly when the text matches the pattern's grammar with digit group value `n` |
| Patterns.QuestionWordParts | training/trainapp/pdf_utils.py:19 | a `Question` match is leading whitespace, the literal word, at least one whitespace character and then a numbered match |
| Patterns.MatchShape | training/trainapp/pdf_utils.py:16-21 | after leading whitespace a match starts with a digit, `Q` and a digit, `Qu`, or `(`, depending on the pattern |
| Patterns.AtMostOnePatternMatches | training/trainapp/pdf_utils.py:84-86 | no text matches two of the patterns, so the order in which they are tried never changes the number |
| Patterns.MatchText | training/trainapp/pdf_utils.py:84-88 | a fragment announces the number of whichever pattern matches it, and announces nothing when none does |
| Patterns.MatchTextAgrees | training/trainapp/pdf_utils.py:84-88 | when the k-th pattern matches, the fragment's number is that pattern's number |
| Patterns.NoneOfAll | training/trainapp/pdf_utils.py:84-86 | when all four patterns fail the fragment announces nothing |
| Patterns.ExampleClosingParen | training/trainapp/pdf_utils.py:17 | "12)" announces 12 |
| Patterns.ExampleDecimalNumber | training/trainapp/pdf_utils.py:17 | "1.5 kg" announces 1, because the dot counts as punctuation |
| Patterns.ExampleLeadingZeros | training/trainapp/pdf_utils.py:17 | "007." announces 7 |
| Patterns.ExampleNoPunctuation | training/trainapp/pdf_utils.py:17 | "12 apples" announces nothing |
| Patterns.ExampleSubpart | training/trainapp/pdf_utils.py:16-21 | "1(a)" announces nothing: no pattern has a sub-part letter |
| Patterns.ExampleQPrefix | training/trainapp/pdf_utils.py:18 | "Q3:" announces 3 |
| Patterns.ExampleQSpace | training/trainapp/pdf_utils.py:18 | "Q 3." announces nothing |
| Patterns.ExampleQuestionWord | training/trainapp/pdf_utils.py:19 | "Question 4 -" announces 4 |
| Patterns.DigitSpacePunct | training/trainapp/pdf_utils.py:17 | "4 -" is a number then punctuation with whitespace between |
| Patterns.ExampleLowerCaseWord | training/trainapp/pdf_utils.py:19 | "question 4." announces nothing: the word is case-sensitive |
| Patterns.ExampleParenthesised | training/trainapp/pdf_utils.py:20 | "(4)" announces 4 |
| Extraction.SpansOrigin | training/trainapp/pdf_utils.py:60-71 | every fragment of a line comes from one of its spans |
| Extraction.SpansExtracted | training/trainapp/pdf_utils.py:60-71 | every non-blank span of a line gives a fragment |
| Extraction.BlocksOrigin | training/trainapp/pdf_utils.py:56-71 | every fragment of a page comes from a span of a text block (type 0) |
| Extraction.BlocksExtracted | training/trainapp/pdf_utils.py:56-71 | every non-blank span of a text block gives a fragment |
| Extraction.PagesOrigin | training/trainapp/pdf_utils.py:53-71 | every extracted fragment is the stripped text and box of some span at some page, block, line and span index |
| Extraction.PagesExtracted | training/trainapp/pdf_utils.py:53-71 | every non-blank span of a text block on any page is extracted |
| Extraction.ExtractedIffYielded | training/trainapp/pdf_utils.py:53-71 | a fragment is extracted exactly when a non-blank span of a text block yields it, with its text stripped and its box defaulted to zeros |
| Extraction.FragmentsWellFormed | training/trainapp/pdf_utils.py:61-66 | every fragment has non-empty stripped text and a page index inside the document |
| Extraction.BlocksFragmentsOnPage | training/trainapp/pdf_utils.py:53-66 | every fragment of a page carries that page's index |
| Extraction.FragmentsInPageOrder | training/trainapp/pdf_utils.py:53-71 | fragments come out in non-decreasing page order |
| Detection.ScanStep | training/trainapp/pdf_utils.py:89-96 | one fragment records its number and position only if the number is not yet in the dictionary |
| Detection.ScanKeys | training/trainapp/pdf_utils.py:89-96 | a number is a key of `question_mapping` exactly when some fragment announces it |
| Detection.ScanKeepsFirstOccurrence | training/trainapp/pdf_utils.py:89-96 | a number maps to the position of the first fragment that announces it; later duplicates are ignored |
| Detection.FirstSeenMatchesScan | training/trainapp/pdf_utils.py:89-96 | `detected_questions` has no repeats, holds exactly the dictionary's keys, and is as long as the dictionary |
| Detection.Insert | training/trainapp/pdf_utils.py:101 | inserting into an ascending list gives an ascending list with one more copy of the element |
| Detection.InsertKeepsStrict | training/trainapp/pdf_utils.py:101 | inserting a new number into a strictly ascending list keeps it strictly ascending |
| Detection.SortAscending | training/trainapp/pdf_utils.py:100-101 | `sorted(...)` gives an ascending permutation, and a strictly ascending one when no number repeats |
| Detection.DetectedNumbersAreScanKeys | training/trainapp/pdf_utils.py:100-101 | the sorted detected numbers are strictly ascending and are exactly the mapping's keys, one each |
| Detection.DetectionEntriesShape | training/trainapp/pdf_utils.py:100 | the mapping has one entry per detected number, in ascending order, keyed `str(q)` and holding q's first position; its keys are distinct |
| Detection.AsMapKeys | training/trainapp/pdf_utils.py:100 | a key can be looked up in the mapping exactly when some entry has it |
| Detection.AsMapLookup | training/trainapp/pdf_utils.py:100 | with distinct keys, looking an entry's key up gives that entry's position |
| Detection.TemplateLookup | training/trainapp/pdf_utils.py:100 | `str(q)` is in the mapping exactly when q was detected, and looking it up gives q's first position |
| Detection.DetectionConsistent | training/trainapp/pdf_utils.py:100-101 | `question_mapping` and `detected_questions` list the same numbers in the same strictly ascending order |
| Detector.PdfQuestionDetector.constructor | training/trainapp/pdf_utils.py:23-30 | a new detector has no document, an empty mapping and no detected numbers |
| Detector.PdfQuestionDetector.OpenPdf | training/trainapp/pdf_utils.py:32-38 | success exactly when the file exists, and then `doc` is that file's document; on failure `doc` is unchanged and the error names the path |
| Detector.PdfQuestionDetector.ClosePdf | training/trainapp/pdf_utils.py:40-44 | a true document is released, and afterwards `doc` is never true |
| Detector.PdfQuestionDetector.ExtractTextWithCoordinates | training/trainapp/pdf_utils.py:46-73 | reopens when `doc` is not true, then returns exactly the fragments of the document; fails only when reopening fails |
| Detector.PdfQuestionDetector.DetectQuestions | training/trainapp/pdf_utils.py:75-103 | fails exactly when extraction must reopen and cannot; otherwise stores and returns the sorted first-occurrence mapping of the extracted fragments and the sorted detected numbers |
| Detector.PdfQuestionDetector.GetQuestionMapping | training/trainapp/pdf_utils.py:105-107 | after detection the mapping has one entry per detected number and no repeated key |
| Detector.PdfQuestionDetector.GetDetectedQuestionCount | training/trainapp/pdf_utils.py:109-111 | after detection the count equals the number of entries in the mapping |
| Detector.AppendSpans | training/trainapp/pdf_utils.py:60-71 | the span loop appends exactly the line's fragments |
| Detector.AppendLines | training/trainapp/pdf_utils.py:59-71 | the line loop appends exactly the block's fragments |
| Detector.AppendBlocks | training/trainapp/pdf_utils.py:56-71 | the block loop skips non-text blocks and appends exactly the page's fragments |
| Detector.ExtractPages | training/trainapp/pdf_utils.py:53-73 | the page loop returns exactly the document's fragments, in order |
| Detector.RecordMatch | training/trainapp/pdf_utils.py:84-96 | one fragment adds its number and position only when it announces a number not seen before, and otherwise changes nothing |
| Detector.ScanFragments | training/trainapp/pdf_utils.py:82-98 | the fragment loop yields the first-occurrence dictionary and the numbers in first-seen order |
| Detector.DetectQuestionsInPdf | training/trainapp/pdf_utils.py:256-273 | a missing file fails; otherwise the result is the sorted mapping of the file's fragments and the number of detected questions; the detector the call creates holds no true document afterwards, on either path, and on success its mapping is the returned mapping and its detected list has the returned count |
| Marking.PlaceableCountFull | training/trainapp/pdf_utils.py:162-177 | every mark gets a tick or a cross exactly when each mark's question is in the template and its page exists |
| Marking.PlaceableCountNone | training/trainapp/pdf_utils.py:162-177 | nothing is stamped exactly when no mark's question is in the template with an existing page |
| Marking.MarksOnPage | training/trainapp/pdf_utils.py:162-188 | overlaying leaves every page's block tree alone and appends to each page's insert log exactly the glyphs of the placeable marks for that page, in mark order |
| Marking.MarksInsertCount | training/trainapp/pdf_utils.py:162-188 | overlaying adds one record per mark whose question is known and whose page exists, and none for any other mark |
| Marking.MarkAtDetectedPosition | training/trainapp/pdf_utils.py:163-188 | with the detector's mapping, a mark for a detected question whose page exists stamps a tick (green) or cross (red) at its first position +250, −3 on that page; any other mark stamps nothing |
| Marking.CountCorrect | training/trainapp/pdf_utils.py:305 | the correct count is at most the number of marks, equals it exactly when all are correct, and is zero exactly when none is |
| Marking.Percentage | training/trainapp/pdf_utils.py:210 | the percentage is 0 when there are no questions, otherwise correct·100/total, and lies between 0 and 100 |
| Marking.PercentTextReadsBack | training/trainapp/pdf_utils.py:218 | the percentage prints as digits, a dot and one digit that read back to within half a tenth of the value |
| Marking.ScoreLineDeterminesCounts | training/trainapp/pdf_utils.py:218 | the score line determines the correct count and the total |
| Marking.SummaryLinesShape | training/trainapp/pdf_utils.py:212-224 | the summary is 7 lines without a date and 8 with one: rule (50 copies of `═`), title, rule, driver, exam, score, the optional date, then a rule |
| Marking.SummaryLayout | training/trainapp/pdf_utils.py:226-237 | the summary adds its lines to the first page only, at x = 50 and y = 50, 70, 90, …, and leaves every page's block tree and every other page alone |
| Marker.PdfMarker.constructor | training/trainapp/pdf_utils.py:124-131 | a new marker has no document and an empty mapping |
| Marker.PdfMarker.OpenPdf | training/trainapp/pdf_utils.py:133-139 | success exactly when the source file exists, and then `doc` is its document; failure leaves `doc` unchanged |
| Marker.PdfMarker.ClosePdf | training/trainapp/pdf_utils.py:141-145 | a true document is released, and afterwards `doc` is never true |
| Marker.PdfMarker.SetQuestionMapping | training/trainapp/pdf_utils.py:147-149 | the mapping is replaced and nothing else changes |
| Marker.PdfMarker.OverlayMarks | training/trainapp/pdf_utils.py:151-192 | reopens when `doc` is not true and fails only when that fails; otherwise `doc` becomes the document with every placeable mark stamped |
| Marker.PdfMarker.AddScoreSummary | training/trainapp/pdf_utils.py:194-241 | reopens when `doc` is not true; a document without pages fails with a wrapped index error; otherwise `doc` gets the summary lines on its first page |
| Marker.PdfMarker.SaveMarkedPdf | training/trainapp/pdf_utils.py:243-253 | with no true document it fails and writes nothing; otherwise the document is stored at the output path and nothing else changes |
| Marker.StampMarks | training/trainapp/pdf_utils.py:162-188 | the mark loop produces exactly the overlay, skipping unknown questions and pages past the end |
| Marker.StampSummary | training/trainapp/pdf_utils.py:226-237 | the summary loop produces exactly the stamped summary, with y growing by 20 from 50 |
| Marker.MarkPdfSubmission | training/trainapp/pdf_utils.py:276-316 | a missing source or a source without pages fails, wrapped as a marking error, and writes nothing; otherwise exactly the marked document is written to the output path; the marker the call creates holds the given mapping once the source opens, and holds no true document afterwards, on every path; the returned files are the marker's files |

## Left out

- Loading PyMuPDF (`fitz`) and the `ImportError` raised when it is missing (lines 24-25, 125-126) are not modelled. This depends on the environment, not on the engine's logic.
- PyMuPDF itself is modelled only through its effects:
  - `get_text("dict")` is the block/line/span tree stored in the document;
  - `insert_text` appends to a per-page log;
  - `save` stores the document at the output path.
  
  Fonts, rendering, the PDF byte format and PyMuPDF's own failures are not modelled.
- Text-layer dictionaries without a "blocks", "lines", "spans" or "text" key (lines 57-61) are not modelled separately. In the model these lists and strings are always present, and an empty one behaves like the code's empty default. A block without a "type" key, which raises `KeyError` in the code (line 58), is not modelled. A span without a "bbox" is modelled.
- `\d`, `\s` and `int()` are modelled as follows:
  - `\s` is the full Unicode whitespace set of `str.isspace`.
  - `\d` and `int()` cover ASCII digits only. Python's Unicode decimal digits in other scripts are left out.
  - The limit on integer-string conversion is not modelled. On CPython 3.11 and later, `int()` of a digit group longer than 4300 characters raises `ValueError`, and the code skips that fragment (lines 97-98). The model converts any digit group, so it would detect such a number.
- Coordinates and the percentage are exact reals, not binary floats, so `x + 250` and `y - 3` are exact.
- Marking.PercentText: rounds the exact ratio half up. Python's `:.1f` rounds the binary float to the nearest tenth with ties to even. The two can differ by one tenth at an exact tie, e.g. 1 of 400 correct, which Python prints as "0.2" and the model as "0.3". `Marking.PercentTextReadsBack` therefore bounds the printed value to within half a tenth and does not claim Python's digits.
- Marker.PdfMarker.AddScoreSummary: the counts are natural numbers. A negative `correct_count` or `total_questions` passed by another caller is not modelled, though `mark_pdf_submission` never passes one.
- Marker.PdfMarker.OverlayMarks: template entries are assumed to have integer "page" and numeric "x" and "y" fields. Two cases are not modelled:
  - a malformed template entry, which the code turns into "Failed to overlay marks";
  - a negative page number, which Python would index from the end.
- `MARK_COLOR` (line 120) is never used by the code and is left out.
- `marks` is a sequence of (question, correct) pairs, so the model also admits repeated questions, which a dictionary cannot hold. Every result is stated for any sequence, which includes the dictionary's iteration order.
- Text stamped by `insert_text` is kept in a per-page log, apart from the block tree that extraction reads. In PyMuPDF it becomes page content that a later `get_text("dict")` would return. No flow in the engine extracts text from a document after stamping it, so the model does not merge the two.
- Closing a document is modelled as dropping the reference to it. Native resources and the `finally` clauses' effect on them are not modelled.
- The `os.makedirs` call before saving (line 249) is not modelled, because the file system here has no directories.
- Exception messages are modelled as `Error` constructors that keep the cause chain. The formatted message strings are not modelled.
- The web application around the engine is not part of this model: models, views, forms, admin and the grading workflow that calls `mark_pdf_submission`.
