/**
 * What `extract_text_with_coordinates` yields for a document: one fragment
 * per non-blank span of a text block, in page, block, line and span order.
 */
module Extraction {
  import opened Wrappers
  import opened Text
  import opened Pdf

  /** One positioned piece of text: the dict `{"text", "page", "x0", "y0", "x1", "y1"}`. */
  datatype Fragment = Fragment(text: string, page: nat, x0: real, y0: real, x1: real, y1: real)

  /** `span.get("bbox", (0, 0, 0, 0))`. */
  function BoxOf(span: Span): BBox
  {
    match span.bbox
    case Some(b) => b
    case None => BBox(0.0, 0.0, 0.0, 0.0)
  }

  /** The fragment a span of page `page` gives, once its text is known not to be blank. */
  function FragmentOf(page: nat, span: Span): Fragment
  {
    var b := BoxOf(span);
    Fragment(Strip(span.text), page, b.x0, b.y0, b.x1, b.y1)
  }

  /** `span` is non-blank and gives `f`. */
  ghost predicate SpanYields(page: nat, span: Span, f: Fragment)
  {
    Strip(span.text) != [] && f == FragmentOf(page, span)
  }

  /**
   * Span `s` of line `l` of block `b` of page `p` is a non-blank span of a text
   * block and gives `f`.
   */
  ghost predicate YieldsAt(d: Document, p: nat, b: nat, l: nat, s: nat, f: Fragment)
  {
    && p < |d.pages| && b < |d.pages[p].blocks| && d.pages[p].blocks[b].kind == 0
    && l < |d.pages[p].blocks[b].lines| && s < |d.pages[p].blocks[b].lines[l].spans|
    && SpanYields(p, d.pages[p].blocks[b].lines[l].spans[s], f)
  }

  // The fragments of each level of the text tree, defined on growing prefixes
  // so that they follow the extraction loops one element at a time.

  function SpanFragments(page: nat, span: Span): seq<Fragment>
  {
    if Strip(span.text) == [] then [] else [FragmentOf(page, span)]
  }

  function SpansFragments(page: nat, spans: seq<Span>): seq<Fragment>
  {
    if spans == [] then []
    else SpansFragments(page, spans[..|spans| - 1]) + SpanFragments(page, spans[|spans| - 1])
  }

  function LinesFragments(page: nat, lines: seq<Line>): seq<Fragment>
  {
    if lines == [] then []
    else LinesFragments(page, lines[..|lines| - 1]) + SpansFragments(page, lines[|lines| - 1].spans)
  }

  function BlockFragments(page: nat, block: Block): seq<Fragment>
  {
    if block.kind == 0 then LinesFragments(page, block.lines) else []
  }

  function BlocksFragments(page: nat, blocks: seq<Block>): seq<Fragment>
  {
    if blocks == [] then []
    else BlocksFragments(page, blocks[..|blocks| - 1]) + BlockFragments(page, blocks[|blocks| - 1])
  }

  function PagesFragments(pages: seq<Page>): seq<Fragment>
  {
    if pages == [] then []
    else PagesFragments(pages[..|pages| - 1]) + BlocksFragments(|pages| - 1, pages[|pages| - 1].blocks)
  }

  /** The list `extract_text_with_coordinates` returns for `d`. */
  function Fragments(d: Document): seq<Fragment>
  {
    PagesFragments(d.pages)
  }

  // One more element at each level, as the extraction loops take them.

  lemma SpansStep(page: nat, spans: seq<Span>, s: nat)
    requires s < |spans|
    ensures SpansFragments(page, spans[..s + 1]) == SpansFragments(page, spans[..s]) + SpanFragments(page, spans[s])
  {
    assert spans[..s + 1][..s] == spans[..s];
  }

  lemma LinesStep(page: nat, lines: seq<Line>, l: nat)
    requires l < |lines|
    ensures LinesFragments(page, lines[..l + 1]) == LinesFragments(page, lines[..l]) + SpansFragments(page, lines[l].spans)
  {
    assert lines[..l + 1][..l] == lines[..l];
  }

  lemma BlocksStep(page: nat, blocks: seq<Block>, b: nat)
    requires b < |blocks|
    ensures BlocksFragments(page, blocks[..b + 1]) == BlocksFragments(page, blocks[..b]) + BlockFragments(page, blocks[b])
  {
    assert blocks[..b + 1][..b] == blocks[..b];
  }

  lemma PagesStep(pages: seq<Page>, p: nat)
    requires p < |pages|
    ensures PagesFragments(pages[..p + 1]) == PagesFragments(pages[..p]) + BlocksFragments(p, pages[p].blocks)
  {
    assert pages[..p + 1][..p] == pages[..p];
  }

  // ---------------------------------------------------------------------------
  // Membership: a fragment is extracted exactly when some non-blank span of a
  // text block gives it. Each level has an "origin" lemma (where an extracted
  // fragment comes from) and an "extracted" lemma (a yielding span is extracted).
  // ---------------------------------------------------------------------------

  lemma {:induction false} SpansOrigin(page: nat, spans: seq<Span>, f: Fragment) returns (s: nat)
    requires f in SpansFragments(page, spans)
    ensures s < |spans| && SpanYields(page, spans[s], f)
  {
    var n := |spans| - 1;
    var init := spans[..n];
    if f in SpansFragments(page, init) {
      s := SpansOrigin(page, init, f);
      assert spans[s] == init[s];
    } else {
      s := n;
    }
  }

  lemma InAppend(a: seq<Fragment>, b: seq<Fragment>, f: Fragment)
    ensures f in a + b <==> f in a || f in b
  {
  }

  lemma LastSpanExtracted(page: nat, spans: seq<Span>, f: Fragment)
    requires spans != [] && SpanYields(page, spans[|spans| - 1], f)
    ensures f in SpansFragments(page, spans)
  {
    assert SpanFragments(page, spans[|spans| - 1]) == [f];
  }

  lemma {:induction false} SpansExtracted(page: nat, spans: seq<Span>, s: nat, f: Fragment)
    requires s < |spans| && SpanYields(page, spans[s], f)
    ensures f in SpansFragments(page, spans)
  {
    var n := |spans| - 1;
    if s < n {
      var init := spans[..n];
      assert init[s] == spans[s];
      SpansExtracted(page, init, s, f);
      InAppend(SpansFragments(page, init), SpanFragments(page, spans[n]), f);
    } else {
      LastSpanExtracted(page, spans, f);
    }
  }

  lemma {:induction false} LinesOrigin(page: nat, lines: seq<Line>, f: Fragment) returns (l: nat, s: nat)
    requires f in LinesFragments(page, lines)
    ensures l < |lines| && s < |lines[l].spans| && SpanYields(page, lines[l].spans[s], f)
  {
    var n := |lines| - 1;
    var init := lines[..n];
    if f in LinesFragments(page, init) {
      l, s := LinesOrigin(page, init, f);
      assert lines[l] == init[l];
    } else {
      l := n;
      s := SpansOrigin(page, lines[n].spans, f);
    }
  }

  lemma {:induction false} LinesExtracted(page: nat, lines: seq<Line>, l: nat, s: nat, f: Fragment)
    requires l < |lines| && s < |lines[l].spans| && SpanYields(page, lines[l].spans[s], f)
    ensures f in LinesFragments(page, lines)
  {
    var n := |lines| - 1;
    var init := lines[..n];
    var last := SpansFragments(page, lines[n].spans);
    if l < n {
      assert init[l] == lines[l];
      LinesExtracted(page, init, l, s, f);
    } else {
      assert l == n;
      SpansExtracted(page, lines[n].spans, s, f);
    }
    InAppend(LinesFragments(page, init), last, f);
  }

  lemma {:induction false} BlocksOrigin(page: nat, blocks: seq<Block>, f: Fragment) returns (b: nat, l: nat, s: nat)
    requires f in BlocksFragments(page, blocks)
    ensures b < |blocks| && blocks[b].kind == 0 && l < |blocks[b].lines| && s < |blocks[b].lines[l].spans|
    ensures SpanYields(page, blocks[b].lines[l].spans[s], f)
  {
    var n := |blocks| - 1;
    var init := blocks[..n];
    if f in BlocksFragments(page, init) {
      b, l, s := BlocksOrigin(page, init, f);
      assert blocks[b] == init[b];
    } else {
      b := n;
      l, s := LinesOrigin(page, blocks[n].lines, f);
    }
  }

  lemma {:induction false} BlocksExtracted(page: nat, blocks: seq<Block>, b: nat, l: nat, s: nat, f: Fragment)
    requires b < |blocks| && blocks[b].kind == 0 && l < |blocks[b].lines| && s < |blocks[b].lines[l].spans|
    requires SpanYields(page, blocks[b].lines[l].spans[s], f)
    ensures f in BlocksFragments(page, blocks)
  {
    var n := |blocks| - 1;
    var init := blocks[..n];
    var last := BlockFragments(page, blocks[n]);
    if b < n {
      assert init[b] == blocks[b];
      BlocksExtracted(page, init, b, l, s, f);
    } else {
      assert b == n;
      var lines := blocks[n].lines;
      assert l < |lines| && s < |lines[l].spans| && SpanYields(page, lines[l].spans[s], f);
      LinesExtracted(page, lines, l, s, f);
      assert blocks[n].kind == 0;
      assert f in last;
    }
    InAppend(BlocksFragments(page, init), last, f);
  }

  lemma {:induction false} PagesOrigin(pages: seq<Page>, f: Fragment) returns (p: nat, b: nat, l: nat, s: nat)
    requires f in PagesFragments(pages)
    ensures YieldsAt(Document(pages), p, b, l, s, f)
  {
    var n := |pages| - 1;
    var init := pages[..n];
    if f in PagesFragments(init) {
      p, b, l, s := PagesOrigin(init, f);
      assert pages[p] == init[p];
    } else {
      p := n;
      b, l, s := BlocksOrigin(n, pages[n].blocks, f);
    }
  }

  lemma {:induction false} PagesExtracted(pages: seq<Page>, p: nat, b: nat, l: nat, s: nat, f: Fragment)
    requires YieldsAt(Document(pages), p, b, l, s, f)
    ensures f in PagesFragments(pages)
  {
    var n := |pages| - 1;
    var init := pages[..n];
    var last := BlocksFragments(n, pages[n].blocks);
    if p < n {
      assert YieldsAt(Document(init), p, b, l, s, f) by {
        assert init[p] == pages[p];
      }
      PagesExtracted(init, p, b, l, s, f);
    } else {
      assert p == n;
      var blocks := pages[n].blocks;
      assert b < |blocks| && blocks[b].kind == 0 && l < |blocks[b].lines| && s < |blocks[b].lines[l].spans|;
      BlocksExtracted(n, blocks, b, l, s, f);
    }
    InAppend(PagesFragments(init), last, f);
  }

  /**
   * A fragment is extracted from `d` exactly when a non-blank span of a text
   * block on some page gives it; image blocks and blank spans give nothing.
   */
  lemma ExtractedIffYielded(d: Document, f: Fragment)
    ensures f in Fragments(d) <==> exists p, b, l, s :: YieldsAt(d, p, b, l, s, f)
  {
    if f in Fragments(d) {
      var p, b, l, s := PagesOrigin(d.pages, f);
    }
    if exists p, b, l, s :: YieldsAt(d, p, b, l, s, f) {
      var p, b, l, s :| YieldsAt(d, p, b, l, s, f);
      PagesExtracted(d.pages, p, b, l, s, f);
    }
  }

  /**
   * Every extracted fragment carries stripped, non-empty text and the index of
   * a page of the document.
   */
  lemma FragmentsWellFormed(d: Document, f: Fragment)
    requires f in Fragments(d)
    ensures f.text != [] && Strip(f.text) == f.text
    ensures f.page < |d.pages|
  {
    var p, b, l, s := PagesOrigin(d.pages, f);
    StripIdempotent(d.pages[p].blocks[b].lines[l].spans[s].text);
  }

  /** Every fragment of the blocks of page `page` is labelled with `page`. */
  lemma BlocksFragmentsOnPage(page: nat, blocks: seq<Block>, f: Fragment)
    requires f in BlocksFragments(page, blocks)
    ensures f.page == page
  {
    var b, l, s := BlocksOrigin(page, blocks, f);
  }

  /** The page numbers of `fs` never decrease. */
  predicate InPageOrder(fs: seq<Fragment>)
  {
    forall i, j :: 0 <= i < j < |fs| ==> fs[i].page <= fs[j].page
  }

  /** Fragments come out page by page: their page numbers never decrease. */
  lemma {:induction false} FragmentsInPageOrder(pages: seq<Page>)
    ensures InPageOrder(PagesFragments(pages))
  {
    if pages != [] {
      var n := |pages| - 1;
      var front := PagesFragments(pages[..n]);
      var back := BlocksFragments(n, pages[n].blocks);
      var fs := PagesFragments(pages);
      assert fs == front + back;
      FragmentsInPageOrder(pages[..n]);
      forall i | 0 <= i < |front|
        ensures front[i].page < n
      {
        FragmentsWellFormed(Document(pages[..n]), front[i]);
      }
      forall j | 0 <= j < |back|
        ensures back[j].page == n
      {
        BlocksFragmentsOnPage(n, pages[n].blocks, back[j]);
      }
      forall i, j | 0 <= i < j < |fs|
        ensures fs[i].page <= fs[j].page
      {
        if j < |front| {
          assert fs[i] == front[i] && fs[j] == front[j];
          assert front[i].page <= front[j].page;
        } else if i < |front| {
          assert fs[i] == front[i] && fs[j] == back[j - |front|];
          assert front[i].page < n == back[j - |front|].page;
        } else {
          assert fs[i] == back[i - |front|] && fs[j] == back[j - |front|];
          assert back[i - |front|].page == n == back[j - |front|].page;
        }
      }
    }
  }
}
