/**
 * The PDF document as the detector and the marker see it through PyMuPDF:
 * pages whose text layer, as the file holds it, is a tree of blocks, lines
 * and spans (`page.get_text("dict")`), plus, per page, a separate log of the
 * text that `page.insert_text` has stamped on it. PyMuPDF would also return
 * stamped text from a later `get_text`; the engine never extracts after
 * stamping, so the two are kept apart here. A file system maps paths to
 * documents; `fitz.open` reads from it and `Document.save` writes to it.
 */
module Pdf {
  import opened Wrappers

  datatype BBox = BBox(x0: real, y0: real, x1: real, y1: real)

  /** A span of the text layer; `bbox` is `None` where the span dict has no "bbox" key. */
  datatype Span = Span(text: string, bbox: Option<BBox>)

  datatype Line = Line(spans: seq<Span>)

  /** A block of the text layer; `kind` is its "type" (0 for text, 1 for an image). */
  datatype Block = Block(kind: int, lines: seq<Line>)

  datatype Color = Rgb(r: real, g: real, b: real)

  /** One `page.insert_text((x, y), text, fontsize=…, color=…, fontname=…)` call. */
  datatype TextInsert = TextInsert(x: real, y: real, text: string, fontSize: nat, color: Color, font: string)

  datatype Page = Page(blocks: seq<Block>, inserts: seq<TextInsert>)

  datatype Document = Document(pages: seq<Page>)

  /** Paths and the documents stored at them. */
  type Files = map<string, Document>

  /** The `ValueError`s (and the one wrapped `IndexError`) the detector and the marker raise. */
  datatype Error =
    | OpenFailed(path: string)      // "Failed to open PDF: …" (fitz.open found no document at path)
    | NoDocumentOpen                // "No PDF document is open"
    | PageIndexError                // IndexError from `self.doc[0]` on a document without pages
    | SummaryFailed(cause: Error)   // "Failed to add score summary: …"
    | SaveFailed(cause: Error)      // "Failed to save marked PDF: …"
    | MarkingFailed(cause: Error)   // "Error marking PDF: …"

  /**
   * Python's truth value of the `doc` attribute: `None` is false, and a
   * PyMuPDF `Document` has `__len__` (its page count) and no `__bool__`, so an
   * open document without pages is false as well.
   */
  predicate Truthy(doc: Option<Document>)
  {
    doc.Some? && |doc.value.pages| > 0
  }

  /** `fitz.open(path)`. */
  function Open(files: Files, path: string): (r: Result<Document, Error>)
    ensures r.Success? <==> path in files
    ensures r.Success? ==> r.value == files[path]
    ensures r.Failure? ==> r.error == OpenFailed(path)
  {
    if path in files then Success(files[path]) else Failure(OpenFailed(path))
  }

  /** `doc[page].insert_text(…)`: appends `t` to the log of page `page`; nothing else changes. */
  function InsertText(d: Document, page: nat, t: TextInsert): (r: Document)
    requires page < |d.pages|
    ensures |r.pages| == |d.pages|
    ensures forall p :: 0 <= p < |d.pages| ==> r.pages[p].blocks == d.pages[p].blocks
    ensures forall p :: 0 <= p < |d.pages| ==>
              r.pages[p].inserts == if p == page then d.pages[p].inserts + [t] else d.pages[p].inserts
  {
    Document(d.pages[page := d.pages[page].(inserts := d.pages[page].inserts + [t])])
  }

  /** The number of text records stamped on the document, over all pages. */
  function InsertCount(pages: seq<Page>): nat
  {
    if pages == [] then 0 else InsertCount(pages[..|pages| - 1]) + |pages[|pages| - 1].inserts|
  }

  /** Stamping one record on any page adds exactly one record to the document. */
  lemma {:induction false} InsertTextAddsOne(d: Document, page: nat, t: TextInsert)
    requires page < |d.pages|
    ensures InsertCount(InsertText(d, page, t).pages) == InsertCount(d.pages) + 1
  {
    InsertCountOneChanged(d.pages, InsertText(d, page, t).pages, page);
  }

  lemma {:induction false} InsertCountOneChanged(a: seq<Page>, b: seq<Page>, page: nat)
    requires |a| == |b| && page < |a|
    requires forall p :: 0 <= p < |a| && p != page ==> |b[p].inserts| == |a[p].inserts|
    requires |b[page].inserts| == |a[page].inserts| + 1
    ensures InsertCount(b) == InsertCount(a) + 1
  {
    var n := |a|;
    if page == n - 1 {
      InsertCountSame(a[..n - 1], b[..n - 1]);
    } else {
      InsertCountOneChanged(a[..n - 1], b[..n - 1], page);
    }
  }

  lemma {:induction false} InsertCountSame(a: seq<Page>, b: seq<Page>)
    requires |a| == |b|
    requires forall p :: 0 <= p < |a| ==> |b[p].inserts| == |a[p].inserts|
    ensures InsertCount(b) == InsertCount(a)
  {
    if a != [] {
      InsertCountSame(a[..|a| - 1], b[..|b| - 1]);
    }
  }
}
