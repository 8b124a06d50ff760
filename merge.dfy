/** merge_pages_for_folding (tools/two_page.py): choose the plan for the layout
    mode, shift it to 0-based indices, and turn each consecutive pair of indices
    into one output sheet twice as wide as its reference page. */
module Merge {
  import opened Pages
  import opened Plan
  import opened Writer

  /** A source page drawn on a sheet, shifted right by xOffset. */
  datatype Placement = Placement(page: nat, xOffset: int)

  /** One output sheet: its size and what is drawn in its left and right halves
      (None: that half stays blank). */
  datatype Sheet = Sheet(width: int, height: int, left: Option<Placement>, right: Option<Placement>)

  /** What one merge run leaves behind: nothing because the input is missing,
      nothing because the run raised before writing (the plan was empty), or the
      written sheets together with whether the out-of-range warning was logged
      (by the comparison as the source writes it, RangeWarningAsWritten). */
  datatype MergeOutcome =
    | InputMissing
    | Aborted
    | Written(sheets: seq<Sheet>, rangeWarning: bool)

  // ---------------------------------------------------------------------------
  // Mode selection and the 0-based shift

  /** The 1-based plan: no_folding wins over unipage; unipage uses
      totalPages / 2 groups of four; otherwise the folded booklet order. */
  function PlanFor(start: int, totalPages: nat, reverse: bool, lastSkip: bool,
                   noFolding: bool, unipage: bool): seq<int>
  {
    if noFolding then Range(start, totalPages * 2)
    else if unipage then UnipageOrder(start, totalPages / 2)
    else FoldPlan(start, totalPages, reverse, lastSkip)
  }

  /** Every plan entry minus one (source pages are 1-based, the reader 0-based). */
  function ZeroBased(plan: seq<int>): seq<int> {
    seq(|plan|, k requires 0 <= k < |plan| => plan[k] - 1)
  }

  /** Every mode yields an even number of entries, so they pair up exactly:
      2 * totalPages for the sequential and folded plans, four per group for unipage. */
  lemma PlanLength(start: int, totalPages: nat, reverse: bool, lastSkip: bool, noFolding: bool, unipage: bool)
    ensures var n := |PlanFor(start, totalPages, reverse, lastSkip, noFolding, unipage)|;
            n % 2 == 0 &&
            n == (if !noFolding && unipage then 4 * (totalPages / 2) else 2 * totalPages)
  {
  }

  /** A blanked slot becomes index -1 after the shift, so it never resolves to a
      page and that half of the sheet stays blank. */
  lemma {:induction false} SkippedSlotStaysBlank(doc: Document, start: int, totalPages: nat, reverse: bool)
    requires totalPages > 0
    ensures var idx := ZeroBased(PlanFor(start, totalPages, reverse, true, false, false));
            |idx| == 2 * totalPages && idx[SkippedSlot(reverse)] == -1 &&
            Resolve(idx[SkippedSlot(reverse)], |doc|).None?
  {
    LastSkipBlanksLastPage(start, totalPages, reverse);
  }

  /** Shifting a range down by one is the range one lower. */
  lemma {:induction false} ZeroBasedRange(start: int, len: nat)
    ensures ZeroBased(Range(start, len)) == Range(start - 1, len)
  {
    forall k | 0 <= k < len
      ensures ZeroBased(Range(start, len))[k] == Range(start - 1, len)[k]
    {
      RangeAt(start, len, k);
      RangeAt(start - 1, len, k);
    }
  }

  /** The shift works entry by entry, so it distributes over concatenation. */
  lemma ZeroBasedAppend(a: seq<int>, b: seq<int>)
    ensures ZeroBased(a + b) == ZeroBased(a) + ZeroBased(b)
  {
    assert forall k :: 0 <= k < |b| ==> (a + b)[|a| + k] == b[k];
  }

  /** Shifting the folded order down by one is the folded order one page lower. */
  lemma {:induction false} ZeroBasedFoldOrder(start: int, pagesLog: nat, reverse: bool)
    ensures ZeroBased(FoldOrder(start, pagesLog, reverse)) == FoldOrder(start - 1, pagesLog, reverse)
    decreases pagesLog
  {
    if pagesLog > 0 {
      ZeroBasedFoldOrder(start + 1, pagesLog - 1, !reverse);
      ZeroBasedAppend(OuterPair(start, pagesLog, reverse), FoldOrder(start + 1, pagesLog - 1, !reverse));
    }
  }

  /** Shifting the unipage order down by one is the unipage order one page lower. */
  lemma {:induction false} ZeroBasedUnipageOrder(start: int, groups: nat)
    ensures ZeroBased(UnipageOrder(start, groups)) == UnipageOrder(start - 1, groups)
    decreases groups
  {
    if groups > 0 {
      ZeroBasedUnipageOrder(start, groups - 1);
      ZeroBasedAppend(UnipageOrder(start, groups - 1), Rotated(start + 4 * (groups - 1)));
    }
  }

  // ---------------------------------------------------------------------------
  // Resolving slots and forming sheets

  /** A slot names a real page only when its index lies in [0, count). */
  function Resolve(index: int, count: nat): Option<nat> {
    if 0 <= index < count then Some(index) else None
  }

  /** The sheet for the index pair (e1, e2), or None when neither index resolves.
      The reference page is the left one when present, otherwise the right one. */
  function FormSheet(doc: Document, e1: int, e2: int): (r: Option<Sheet>)
    ensures r.None? <==> Resolve(e1, |doc|).None? && Resolve(e2, |doc|).None?
    ensures r.Some? ==>
              var ref := if 0 <= e1 < |doc| then e1 else e2;
              0 <= ref < |doc| &&
              r.value.width == 2 * doc[ref].width && r.value.height == doc[ref].height &&
              r.value.left == (if 0 <= e1 < |doc| then Some(Placement(e1, 0)) else None) &&
              r.value.right == (if 0 <= e2 < |doc| then Some(Placement(e2, doc[ref].width)) else None)
  {
    var p1 := Resolve(e1, |doc|);
    var p2 := Resolve(e2, |doc|);
    if p1.None? && p2.None? then None
    else
      var base := doc[if p1.Some? then p1.value else p2.value];
      Some(Sheet(2 * base.width, base.height,
                 if p1.Some? then Some(Placement(p1.value, 0)) else None,
                 if p2.Some? then Some(Placement(p2.value, base.width)) else None))
  }

  /** A pair with one half blank still yields a sheet, sized from the page it has. */
  lemma OneSidedSheet(doc: Document, e1: int, e2: int)
    requires (0 <= e1 < |doc|) != (0 <= e2 < |doc|)
    ensures var p := if 0 <= e1 < |doc| then e1 else e2;
            FormSheet(doc, e1, e2) != None &&
            FormSheet(doc, e1, e2).value.width == 2 * doc[p].width &&
            FormSheet(doc, e1, e2).value.height == doc[p].height &&
            (FormSheet(doc, e1, e2).value.left == None) == (p == e2)
  {
  }

  /** The sheets, in order, that the pairs (idx[0], idx[1]), (idx[2], idx[3]), ... yield. */
  function SheetsOf(doc: Document, idx: seq<int>): seq<Sheet>
    decreases |idx|
  {
    if |idx| < 2 then []
    else
      var s := FormSheet(doc, idx[0], idx[1]);
      (if s.Some? then [s.value] else []) + SheetsOf(doc, idx[2..])
  }

  /** The page indices drawn on a run of sheets, left half before right half. */
  function SlotPages(sheets: seq<Sheet>): seq<int> {
    if sheets == [] then []
    else
      var s := sheets[0];
      (if s.left.Some? then [s.left.value.page as int] else [])
      + (if s.right.Some? then [s.right.value.page as int] else [])
      + SlotPages(sheets[1..])
  }

  /** When every index names a page, there is one sheet per pair and the sheets
      draw exactly the planned pages, in plan order. */
  lemma {:induction false} SheetsOfInRange(doc: Document, idx: seq<int>)
    requires |idx| % 2 == 0
    requires forall k :: 0 <= k < |idx| ==> 0 <= idx[k] < |doc|
    ensures |SheetsOf(doc, idx)| == |idx| / 2
    ensures SlotPages(SheetsOf(doc, idx)) == idx
    decreases |idx|
  {
    if |idx| >= 2 {
      var s := FormSheet(doc, idx[0], idx[1]).value;
      var rest := idx[2..];
      assert forall k :: 0 <= k < |rest| ==> rest[k] == idx[k + 2];
      SheetsOfInRange(doc, rest);
      assert SheetsOf(doc, idx) == [s] + SheetsOf(doc, rest);
      assert SlotPages([s] + SheetsOf(doc, rest)) == [idx[0]] + [idx[1]] + SlotPages(SheetsOf(doc, rest));
      assert idx == [idx[0]] + [idx[1]] + rest;
    }
  }

  /** A plan none of whose indices names a page yields no sheet at all. */
  lemma {:induction false} SheetsOfAllBlank(doc: Document, idx: seq<int>)
    requires forall k :: 0 <= k < |idx| ==> !(0 <= idx[k] < |doc|)
    ensures SheetsOf(doc, idx) == []
    decreases |idx|
  {
    if |idx| >= 2 {
      var rest := idx[2..];
      assert forall k :: 0 <= k < |rest| ==> rest[k] == idx[k + 2];
      SheetsOfAllBlank(doc, rest);
    }
  }

  /** There is never more than one sheet per pair. */
  lemma {:induction false} SheetsOfCount(doc: Document, idx: seq<int>)
    ensures |SheetsOf(doc, idx)| <= |idx| / 2
    decreases |idx|
  {
    if |idx| >= 2 {
      SheetsOfCount(doc, idx[2..]);
    }
  }

  /** The indices of idx that name a page of a count-page document, in order. */
  function PagesNamed(idx: seq<int>, count: nat): seq<int>
    decreases |idx|
  {
    if idx == [] then []
    else (if 0 <= idx[0] < count then [idx[0]] else []) + PagesNamed(idx[1..], count)
  }

  /** The number of pairs (idx[0], idx[1]), (idx[2], idx[3]), ... with at least
      one index that names a page of a count-page document. */
  function LivePairs(idx: seq<int>, count: nat): nat
    decreases |idx|
  {
    if |idx| < 2 then 0
    else (if 0 <= idx[0] < count || 0 <= idx[1] < count then 1 else 0) + LivePairs(idx[2..], count)
  }

  /** For any plan with an even number of entries, the sheets draw exactly the
      indices that name a page, in plan order (blank slots draw nothing), and
      there is one sheet per pair that names at least one page. */
  lemma {:induction false} SheetsOfDraws(doc: Document, idx: seq<int>)
    requires |idx| % 2 == 0
    ensures SlotPages(SheetsOf(doc, idx)) == PagesNamed(idx, |doc|)
    ensures |SheetsOf(doc, idx)| == LivePairs(idx, |doc|)
    decreases |idx|
  {
    if |idx| >= 2 {
      var rest := idx[2..];
      SheetsOfDraws(doc, rest);
      var one := if 0 <= idx[0] < |doc| then [idx[0]] else [];
      var two := if 0 <= idx[1] < |doc| then [idx[1]] else [];
      assert idx[1..][1..] == rest;
      assert PagesNamed(idx, |doc|) == one + (two + PagesNamed(rest, |doc|));
      PairPages(doc, idx[0], idx[1], SheetsOf(doc, rest));
    }
  }

  /** The sheet of one pair, put before later sheets, draws the pair's indices
      that name a page, and adds one sheet exactly when there is one. */
  lemma PairPages(doc: Document, e1: int, e2: int, tail: seq<Sheet>)
    ensures var s := FormSheet(doc, e1, e2);
            var sheets := (if s.Some? then [s.value] else []) + tail;
            SlotPages(sheets) == (if 0 <= e1 < |doc| then [e1] else []) + ((if 0 <= e2 < |doc| then [e2] else []) + SlotPages(tail)) &&
            |sheets| == (if 0 <= e1 < |doc| || 0 <= e2 < |doc| then 1 else 0) + |tail|
  {
    var s := FormSheet(doc, e1, e2);
    if s.Some? {
      var sheets := [s.value] + tail;
      assert sheets[0] == s.value && sheets[1..] == tail;
    } else {
      assert [] + tail == tail;
    }
  }

  /** A page occurs among the named indices as often as in the plan, when it is a
      page of the document, and never otherwise. */
  lemma {:induction false} OccurrencesNamed(idx: seq<int>, count: nat, x: int)
    ensures Occurrences(PagesNamed(idx, count), x) == if 0 <= x < count then Occurrences(idx, x) else 0
    decreases |idx|
  {
    if idx != [] {
      var head := if 0 <= idx[0] < count then [idx[0]] else [];
      OccurrencesNamed(idx[1..], count, x);
      OccurrencesAppend(head, PagesNamed(idx[1..], count), x);
      assert head == [] || head[1..] == [];
    }
  }

  // ---------------------------------------------------------------------------
  // The out-of-range warning

  /** Python's max over a non-empty list. */
  function MaxOf(s: seq<int>): (m: int)
    requires |s| > 0
    ensures forall k :: 0 <= k < |s| ==> s[k] <= m
    ensures exists k :: 0 <= k < |s| && s[k] == m
  {
    if |s| == 1 then s[0]
    else
      var t := MaxOf(s[1..]);
      assert forall k :: 1 <= k < |s| ==> s[k] == s[1..][k - 1];
      if s[0] >= t then s[0] else t
  }

  /** The check as the source writes it: the largest 0-based index is compared
      with the page count using `>`. */
  predicate RangeWarningAsWritten(idx: seq<int>, count: nat)
    requires |idx| > 0
  {
    MaxOf(idx) > count
  }

  /** The check as intended: an index equal to the page count is already past
      the last page. */
  predicate RangeWarning(idx: seq<int>, count: nat)
    requires |idx| > 0
  {
    MaxOf(idx) >= count
  }

  /** The corrected warning fires exactly when some index lies beyond the last page. */
  lemma RangeWarningExact(idx: seq<int>, count: nat)
    requires |idx| > 0
    ensures RangeWarning(idx, count) <==> exists k :: 0 <= k < |idx| && idx[k] >= count
  {
  }

  /** The largest entry of a permutation of lo .. lo + len - 1 is its last value. */
  lemma PermutedMax(idx: seq<int>, lo: int, len: nat)
    requires len > 0 && PermutesRange(idx, lo, len)
    ensures MaxOf(idx) == lo + len - 1
  {
    var k := OccursAt(idx, lo + len - 1);
    var m := MaxOf(idx);
    var j :| 0 <= j < |idx| && idx[j] == m;
    PermutedEntry(idx, lo, len, j);
  }

  /** The check as written misses an index one past the last page: merging one
      sheet from page 2 of a two-page document plans indices 2 and 1; index 2 is
      silently blank, yet `max > len` does not fire. */
  lemma {:induction false} RangeWarningAsWrittenMissesLastIndex(doc: Document)
    requires |doc| == 2
    ensures var idx := ZeroBased(PlanFor(2, 1, false, false, false, false));
            idx == [2, 1] && Resolve(idx[0], |doc|).None? &&
            !RangeWarningAsWritten(idx, |doc|) && RangeWarning(idx, |doc|)
  {
    var idx := ZeroBased(PlanFor(2, 1, false, false, false, false));
    assert FoldOrder(2, 1, false)[0] == 3 && FoldOrder(2, 1, false)[1] == 2;
    assert idx == [2, 1];
    assert MaxOf(idx) == 2;
  }

  /** A sequential or folded run (no blanked slot) from 1-based page start with
      oneSide sheets plans 0-based pages start - 1 .. start + 2 * oneSide - 2,
      each once. */
  lemma WindowPlanPermutes(start: nat, oneSide: nat, reverse: bool, noFolding: bool)
    requires start >= 1
    ensures PermutesRange(ZeroBased(PlanFor(start, oneSide, reverse, false, noFolding, false)), start - 1, 2 * oneSide)
  {
    var plan := PlanFor(start, oneSide, reverse, false, noFolding, false);
    if noFolding {
      ZeroBasedRange(start, 2 * oneSide);
      RangePermutes(start - 1, 2 * oneSide);
      assert ZeroBased(plan) == Range(start - 1, 2 * oneSide);
    } else {
      ZeroBasedFoldOrder(start, oneSide, reverse);
      FoldOrderIsPermutation(start - 1, oneSide, reverse);
      assert ZeroBased(plan) == FoldOrder(start - 1, oneSide, reverse);
    }
  }

  /** A run whose window reaches past the end of the document is not aborted:
      the sheets are still written, drawing each page of the window that exists
      once and leaving the missing ones blank. The warning is logged only when
      the largest 0-based index, start + 2 * oneSide - 2, exceeds the page count,
      although the corrected comparison fires for every such run. */
  lemma {:induction false} ShortDocumentStillWritten(doc: Document, start: nat, oneSide: nat, reverse: bool, noFolding: bool)
    requires start >= 1 && oneSide > 0 && |doc| < start - 1 + 2 * oneSide
    ensures var out := MergeSpec(doc, true, start, oneSide, reverse, false, noFolding, false);
            var idx := ZeroBased(PlanFor(start, oneSide, reverse, false, noFolding, false));
            out.Written? &&
            (out.rangeWarning <==> |doc| < start + 2 * oneSide - 2) &&
            RangeWarning(idx, |doc|) &&
            forall x :: Occurrences(SlotPages(out.sheets), x) == if start - 1 <= x < |doc| then 1 else 0
  {
    var idx := ZeroBased(PlanFor(start, oneSide, reverse, false, noFolding, false));
    WindowPlanPermutes(start, oneSide, reverse, noFolding);
    PermutedMax(idx, start - 1, 2 * oneSide);
    SheetsOfDraws(doc, idx);
    forall x
      ensures Occurrences(SlotPages(SheetsOf(doc, idx)), x) == if start - 1 <= x < |doc| then 1 else 0
    {
      OccurrencesNamed(idx, |doc|, x);
    }
  }

  // ---------------------------------------------------------------------------
  // The merge run

  /** What merge_pages_for_folding produces for a document, as a function. */
  function MergeSpec(doc: Document, inputExists: bool, start: int, totalPages: nat, reverse: bool,
                     lastSkip: bool, noFolding: bool, unipage: bool): MergeOutcome
  {
    if !inputExists then InputMissing
    else
      var idx := ZeroBased(PlanFor(start, totalPages, reverse, lastSkip, noFolding, unipage));
      if |idx| == 0 then Aborted
      else Written(SheetsOf(doc, idx), RangeWarningAsWritten(idx, |doc|))
  }

  /** Builds the plan with the generator the flags select, shifts it to 0-based
      indices and writes one sheet per pair that names at least one page. */
  method MergePagesForFolding(doc: Document, inputExists: bool, start: int, totalPages: nat,
                              reverse: bool, lastSkip: bool, noFolding: bool, unipage: bool)
      returns (out: MergeOutcome)
    ensures out == MergeSpec(doc, inputExists, start, totalPages, reverse, lastSkip, noFolding, unipage)
  {
    if !inputExists {
      return InputMissing;
    }
    var plan: seq<int>;
    if noFolding {
      plan := Range(start, totalPages * 2);
    } else if unipage {
      plan := GenerateUnipagePages(start, totalPages / 2);
    } else {
      plan := GenerateFoldPages(start, totalPages, reverse, lastSkip);
    }
    PlanLength(start, totalPages, reverse, lastSkip, noFolding, unipage);
    var idx := ZeroBased(plan);
    if |idx| == 0 {
      return Aborted;
    }
    var warn := MaxOf(idx) > |doc|;
    var sheets := WriteSheets(doc, idx);
    out := Written(sheets, warn);
  }

  /** The loop over index pairs: each pair that names at least one page adds its
      sheet to a fresh writer; the writer's pages are returned. */
  method WriteSheets(doc: Document, idx: seq<int>) returns (sheets: seq<Sheet>)
    requires |idx| % 2 == 0
    ensures sheets == SheetsOf(doc, idx)
  {
    var writer := new PdfWriter<Sheet>();
    var i := 0;
    while i < |idx|
      invariant 0 <= i <= |idx| && i % 2 == 0
      invariant writer.pages + SheetsOf(doc, idx[i..]) == SheetsOf(doc, idx)
    {
      assert idx[i..][2..] == idx[i + 2..];
      var s := FormSheet(doc, idx[i], idx[i + 1]);
      if s.Some? {
        writer.AddPage(s.value);
      }
      i := i + 2;
    }
    sheets := writer.pages;
  }

  // ---------------------------------------------------------------------------
  // Whole-document imposition

  /** A 0-based plan that permutes the window lo .. lo + len - 1 of the document
      yields len / 2 sheets that draw every page of the window exactly once, and
      no warning. */
  lemma {:induction false} PermutedWindowPrintsWindowOnce(doc: Document, idx: seq<int>, lo: nat, len: nat)
    requires len > 0 && len % 2 == 0 && lo + len <= |doc|
    requires PermutesRange(idx, lo, len)
    ensures |SheetsOf(doc, idx)| == len / 2
    ensures PermutesRange(SlotPages(SheetsOf(doc, idx)), lo, len)
    ensures !RangeWarning(idx, |doc|)
  {
    forall k | 0 <= k < |idx|
      ensures lo <= idx[k] < lo + len
    {
      PermutedEntry(idx, lo, len, k);
    }
    SheetsOfInRange(doc, idx);
  }

  /** A sequential or folded merge run (no blanked slot) from 1-based page start
      with oneSide sheets, whose pages all lie in the document, writes oneSide
      sheets that draw pages start - 1 .. start + 2 * oneSide - 2 (0-based) once
      each, and logs no warning. */
  lemma {:induction false} WindowPrintsEveryPageOnce(doc: Document, start: nat, oneSide: nat, reverse: bool, noFolding: bool)
    requires start >= 1 && oneSide > 0 && start - 1 + 2 * oneSide <= |doc|
    ensures var out := MergeSpec(doc, true, start, oneSide, reverse, false, noFolding, false);
            out.Written? && |out.sheets| == oneSide && !out.rangeWarning &&
            PermutesRange(SlotPages(out.sheets), start - 1, 2 * oneSide)
  {
    var plan := PlanFor(start, oneSide, reverse, false, noFolding, false);
    WindowPlanPermutes(start, oneSide, reverse, noFolding);
    PermutedWindowPrintsWindowOnce(doc, ZeroBased(plan), start - 1, 2 * oneSide);
  }

  /** Arithmetic of a page count that is a multiple of four. */
  lemma MultipleOfFour(n: nat)
    requires n % 4 == 0
    ensures n % 2 == 0 && 2 * (n / 2) == n && (n / 2) / 2 == n / 4 && 4 * (n / 4) == n
  {
    var q := n / 4;
    assert n == 4 * q;
    assert n / 2 == 2 * q;
  }

  /** Running the merge over a whole document whose page count is a non-zero
      multiple of four, from page 1 with half as many one-side sheets as pages
      (the single-document call), draws every page exactly once on |doc| / 2
      sheets in each of the three layout modes, and logs no warning. */
  lemma {:induction false} WholeDocumentPrintsEveryPageOnce(doc: Document, reverse: bool, noFolding: bool, unipage: bool)
    requires |doc| > 0 && |doc| % 4 == 0
    ensures MergeSpec(doc, true, 1, |doc| / 2, reverse, false, noFolding, unipage).Written?
    ensures var out := MergeSpec(doc, true, 1, |doc| / 2, reverse, false, noFolding, unipage);
            |out.sheets| == |doc| / 2 && !out.rangeWarning &&
            PermutesRange(SlotPages(out.sheets), 0, |doc|)
  {
    var n := |doc|;
    if !noFolding && unipage {
      var plan := PlanFor(1, n / 2, reverse, false, noFolding, unipage);
      MultipleOfFour(n);
      ZeroBasedUnipageOrder(1, n / 4);
      UnipageOrderIsPermutation(0, n / 4);
      assert ZeroBased(plan) == UnipageOrder(0, n / 4);
      PermutedWindowPrintsWindowOnce(doc, ZeroBased(plan), 0, n);
    } else {
      MultipleOfFour(n);
      WindowPrintsEveryPageOnce(doc, 1, n / 2, reverse, noFolding);
      assert PlanFor(1, n / 2, reverse, false, noFolding, unipage) == PlanFor(1, n / 2, reverse, false, noFolding, false);
      assert MergeSpec(doc, true, 1, n / 2, reverse, false, noFolding, unipage)
          == MergeSpec(doc, true, 1, n / 2, reverse, false, noFolding, false);
    }
  }
}
