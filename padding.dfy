/** Blank-page padding (tools/two_page.py): how many blanks bring the page count
    to a multiple of four, and the page order add_blank_pages_to_pdf writes. */
module Padding {
  import opened Pages
  import opened Plan
  import opened Writer

  /** Size of a blank page when the document has no page to copy it from (A4). */
  const A4Width: int := 595
  const A4Height: int := 842

  /** The number of blank pages to add: 4 - total % 4 when total is not a
      multiple of four, none otherwise. The padded count is a multiple of four,
      so a second padding pass never adds anything. */
  function BlankPagesNeeded(total: nat): (k: nat)
    ensures (total + k) % 4 == 0
    ensures k < 4
    ensures k == 0 <==> total % 4 == 0
  {
    if total % 4 != 0 then 4 - total % 4 else 0
  }

  /** A page of the padded output: a copy of source page `index`, or a new blank
      page (with its placeholder text) of the given size. */
  datatype OutPage = SourcePage(index: nat) | BlankPage(width: int, height: int)

  /** Blank pages take the crop-box size of the first page, or A4 without one. */
  function BlankWidth(doc: Document): int {
    if |doc| > 0 then doc[0].width else A4Width
  }

  function BlankHeight(doc: Document): int {
    if |doc| > 0 then doc[0].height else A4Height
  }

  /** The order add_blank_pages_to_pdf writes: source pages 0 .. n - 2, then the
      k blanks, then source page n - 1 (only the blanks when n == 0). */
  function PaddedLayout(doc: Document, k: nat): (layout: seq<OutPage>)
    ensures forall j :: 0 <= j < |layout| && layout[j].SourcePage? ==> layout[j].index < |doc|
  {
    var n := |doc|;
    seq(n + k, j requires 0 <= j < n + k =>
      if n > 0 && j == n - 1 + k then SourcePage(n - 1)
      else if j < n - 1 then SourcePage(j)
      else BlankPage(BlankWidth(doc), BlankHeight(doc)))
  }

  /** Copies all pages but the last, appends the blanks, then the last page. */
  method AddBlankPagesToPdf(doc: Document, numBlankPages: nat) returns (pages: seq<OutPage>)
    ensures pages == PaddedLayout(doc, numBlankPages)
  {
    ghost var layout := PaddedLayout(doc, numBlankPages);
    var writer := new PdfWriter<OutPage>();
    var n := |doc|;
    var copied := if n > 0 then n - 1 else 0;
    var p := 0;
    while p < n - 1
      invariant 0 <= p <= copied
      invariant writer.pages == layout[..p]
    {
      writer.AddPage(SourcePage(p));
      p := p + 1;
    }
    var width, height := BlankWidth(doc), BlankHeight(doc);
    var b := 0;
    while b < numBlankPages
      invariant 0 <= b <= numBlankPages
      invariant writer.pages == layout[..copied + b]
    {
      writer.AddPage(BlankPage(width, height));
      b := b + 1;
    }
    if n > 0 {
      writer.AddPage(SourcePage(n - 1));
    }
    assert writer.pages == layout[..|layout|];
    pages := writer.pages;
  }

  /** The indices of the copied source pages, in output order. */
  function SourceIndices(ps: seq<OutPage>): seq<int> {
    if ps == [] then []
    else (if ps[0].SourcePage? then [ps[0].index as int] else []) + SourceIndices(ps[1..])
  }

  lemma {:induction false} SourceIndicesAppend(a: seq<OutPage>, b: seq<OutPage>)
    ensures SourceIndices(a + b) == SourceIndices(a) + SourceIndices(b)
    decreases |a|
  {
    if a != [] {
      var head := if a[0].SourcePage? then [a[0].index as int] else [];
      assert (a + b)[0] == a[0];
      assert (a + b)[1..] == a[1..] + b;
      SourceIndicesAppend(a[1..], b);
      assert SourceIndices(a + b) == head + SourceIndices(a[1..] + b);
      assert SourceIndices(a) == head + SourceIndices(a[1..]);
    } else {
      assert a + b == b;
    }
  }

  lemma {:induction false} SourceRunIndices(ps: seq<OutPage>, lo: nat)
    requires forall j :: 0 <= j < |ps| ==> ps[j] == SourcePage(lo + j)
    ensures SourceIndices(ps) == Range(lo, |ps|)
    decreases |ps|
  {
    if ps != [] {
      var rest := ps[1..];
      assert forall j :: 0 <= j < |rest| ==> rest[j] == ps[j + 1];
      SourceRunIndices(rest, lo + 1);
      assert Range(lo, |ps|) == [lo] + Range(lo + 1, |rest|);
    }
  }

  lemma {:induction false} BlankRunIndices(ps: seq<OutPage>)
    requires forall j :: 0 <= j < |ps| ==> ps[j].BlankPage?
    ensures SourceIndices(ps) == []
    decreases |ps|
  {
    if ps != [] {
      var rest := ps[1..];
      assert forall j :: 0 <= j < |rest| ==> rest[j] == ps[j + 1];
      BlankRunIndices(rest);
    }
  }

  /** Padding adds exactly k pages, drops and reorders no source page (the
      copied pages are 0 .. n - 1 in order, so the other k are blanks), and
      keeps the original last page last. */
  lemma {:induction false} PaddedLayoutKeepsPages(doc: Document, k: nat)
    ensures |PaddedLayout(doc, k)| == |doc| + k
    ensures SourceIndices(PaddedLayout(doc, k)) == Range(0, |doc|)
    ensures |doc| > 0 ==> PaddedLayout(doc, k)[|doc| + k - 1] == SourcePage(|doc| - 1)
    ensures |doc| == 0 ==> forall j :: 0 <= j < k ==> PaddedLayout(doc, k)[j].BlankPage?
  {
    var n := |doc|;
    var layout := PaddedLayout(doc, k);
    if n == 0 {
      BlankRunIndices(layout);
    } else {
      var front, blanks, last := layout[..n - 1], layout[n - 1..n - 1 + k], layout[n - 1 + k..];
      assert layout == front + blanks + last;
      LayoutFrontIndices(doc, k);
      LayoutBlankIndices(doc, k);
      assert last == [SourcePage(n - 1)];
      assert SourceIndices(last) == [n - 1] + SourceIndices([]);
      SourceIndicesAppend(front + blanks, last);
      SourceIndicesAppend(front, blanks);
      RangeConcat(0, n - 1, 1);
      assert Range(n - 1, 1) == [n - 1];
    }
  }

  /** The pages before the blanks are source pages 0 .. n - 2, in order. */
  lemma LayoutFrontIndices(doc: Document, k: nat)
    requires |doc| > 0
    ensures SourceIndices(PaddedLayout(doc, k)[..|doc| - 1]) == Range(0, |doc| - 1)
  {
    var layout := PaddedLayout(doc, k);
    var front := layout[..|doc| - 1];
    forall j | 0 <= j < |front|
      ensures front[j] == SourcePage(0 + j)
    {
      assert front[j] == layout[j];
    }
    SourceRunIndices(front, 0);
  }

  /** The k pages after them are blanks. */
  lemma LayoutBlankIndices(doc: Document, k: nat)
    requires |doc| > 0
    ensures SourceIndices(PaddedLayout(doc, k)[|doc| - 1..|doc| - 1 + k]) == []
  {
    var blanks := PaddedLayout(doc, k)[|doc| - 1..|doc| - 1 + k];
    assert forall j :: 0 <= j < |blanks| ==> blanks[j].BlankPage?;
    BlankRunIndices(blanks);
  }

  /** Reading a written layout back as a document: copied pages keep their
      boxes; a blank page is drawn on a canvas of its size, so its box starts at
      the origin. */
  function ReadBack(doc: Document, layout: seq<OutPage>): (padded: Document)
    requires forall j :: 0 <= j < |layout| && layout[j].SourcePage? ==> layout[j].index < |doc|
  {
    seq(|layout|, j requires 0 <= j < |layout| =>
      match layout[j]
      case SourcePage(i) => doc[i]
      case BlankPage(w, h) => PageBox(0, 0, w, h))
  }

  /** The padded document the pipeline re-reads. */
  function PaddedDocument(doc: Document, k: nat): (padded: Document)
    ensures |padded| == |doc| + k
  {
    ReadBack(doc, PaddedLayout(doc, k))
  }
}
