/** Page-order plans: which 1-based source page goes in which slot of which sheet
    (tools/two_page.py, the three generators and the sequential order). Each
    generator is a method that fills an array, proved equal to a recursive
    specification function; the lemmas below state what those plans are. */
module Plan {
  import opened Pages

  /** The blank sentinel: page number 0 never names a real 1-based page. */
  const Blank: int := 0

  /** The entries start, start + 1, ..., start + len - 1 (Python's
      range(start, start + len)). */
  function Range(start: int, len: nat): (r: seq<int>)
    ensures |r| == len
    decreases len
  {
    if len == 0 then [] else [start] + Range(start + 1, len - 1)
  }

  /** Entry k of a range is start + k. */
  lemma {:induction false} RangeAt(start: int, len: nat, k: nat)
    requires k < len
    ensures Range(start, len)[k] == start + k
    decreases len
  {
    if k > 0 {
      RangeAt(start + 1, len - 1, k - 1);
    }
  }

  /** Prefixing a range with the range just below it gives one longer range. */
  lemma {:induction false} RangeConcat(start: int, m: nat, n: nat)
    ensures Range(start, m) + Range(start + m, n) == Range(start, m + n)
    decreases m
  {
    if m > 0 {
      RangeConcat(start + 1, m - 1, n);
      assert Range(start, m) + Range(start + m, n) == [start] + (Range(start + 1, m - 1) + Range(start + 1 + (m - 1), n));
    }
  }

  /** How many times x occurs in s. */
  function Occurrences(s: seq<int>, x: int): nat
    decreases |s|
  {
    if s == [] then 0 else (if s[0] == x then 1 else 0) + Occurrences(s[1..], x)
  }

  /** Occurrences add up over a concatenation. */
  lemma {:induction false} OccurrencesAppend(a: seq<int>, b: seq<int>, x: int)
    ensures Occurrences(a + b, x) == Occurrences(a, x) + Occurrences(b, x)
    decreases |a|
  {
    if a == [] {
      assert a + b == b;
    } else {
      OccurrencesAppend(a[1..], b, x);
      assert (a + b)[1..] == a[1..] + b;
    }
  }

  /** Every entry of s occurs in s. */
  lemma {:induction false} OccurrencesAt(s: seq<int>, k: nat)
    requires k < |s|
    ensures Occurrences(s, s[k]) > 0
    decreases k
  {
    if k > 0 {
      OccurrencesAt(s[1..], k - 1);
    }
  }

  /** A value that occurs in s sits at some index of s. */
  lemma {:induction false} OccursAt(s: seq<int>, x: int) returns (k: nat)
    requires Occurrences(s, x) > 0
    ensures k < |s| && s[k] == x
    decreases |s|
  {
    if s[0] == x {
      k := 0;
    } else {
      var j := OccursAt(s[1..], x);
      k := j + 1;
    }
  }

  /** Overwriting entry k with y trades one occurrence of s[k] for one of y. */
  lemma {:induction false} OccurrencesUpdate(s: seq<int>, k: nat, y: int, x: int)
    requires k < |s|
    ensures Occurrences(s[k := y], x) + (if s[k] == x then 1 else 0)
            == Occurrences(s, x) + (if y == x then 1 else 0)
    decreases k
  {
    if k > 0 {
      OccurrencesUpdate(s[1..], k - 1, y, x);
      assert s[k := y][1..] == s[1..][k - 1 := y];
    }
  }

  /** s names each of start .. start + len - 1 exactly once and nothing else:
      it is a permutation of Range(start, len). */
  ghost predicate PermutesRange(s: seq<int>, start: int, len: nat) {
    |s| == len && forall x :: Occurrences(s, x) == if start <= x < start + len then 1 else 0
  }

  /** The multiset of s counts each value as often as it occurs. */
  lemma {:induction false} MultisetOccurrences(s: seq<int>, x: int)
    ensures multiset(s)[x] == Occurrences(s, x)
    decreases |s|
  {
    if s != [] {
      MultisetOccurrences(s[1..], x);
      assert s == [s[0]] + s[1..];
    }
  }

  /** PermutesRange is the multiset statement multiset(s) == multiset(Range(start, len)),
      in both directions. */
  lemma PermutesRangeAsMultiset(s: seq<int>, start: int, len: nat)
    ensures PermutesRange(s, start, len) <==> multiset(s) == multiset(Range(start, len))
  {
    var r := Range(start, len);
    RangePermutes(start, len);
    if PermutesRange(s, start, len) {
      forall x
        ensures multiset(s)[x] == multiset(r)[x]
      {
        MultisetOccurrences(s, x);
        MultisetOccurrences(r, x);
      }
    }
    if multiset(s) == multiset(r) {
      forall x
        ensures Occurrences(s, x) == if start <= x < start + len then 1 else 0
      {
        MultisetOccurrences(s, x);
        MultisetOccurrences(r, x);
      }
      assert |s| == |multiset(s)| == |multiset(r)| == len;
    }
  }

  /** A range names each of its values once. */
  lemma {:induction false} RangePermutes(start: int, len: nat)
    ensures PermutesRange(Range(start, len), start, len)
    decreases len
  {
    if len > 0 {
      RangePermutes(start + 1, len - 1);
    }
  }

  /** Every entry of a permutation of a range lies in the range. */
  lemma PermutedEntry(s: seq<int>, start: int, len: nat, k: nat)
    requires PermutesRange(s, start, len) && k < |s|
    ensures start <= s[k] < start + len
  {
    OccurrencesAt(s, k);
  }

  /** A permutation of start .. mid - 1 followed by one of mid .. start + whole - 1
      is a permutation of start .. start + whole - 1 (bounds given by name). */
  lemma PermutesConcat(a: seq<int>, b: seq<int>, start: int, m: nat, n: nat, mid: int, whole: nat)
    requires mid == start + m && whole == m + n
    requires PermutesRange(a, start, m) && PermutesRange(b, mid, n)
    ensures PermutesRange(a + b, start, whole)
  {
    forall x
      ensures Occurrences(a + b, x) == if start <= x < start + whole then 1 else 0
    {
      OccurrencesAppend(a, b, x);
    }
  }

  // ---------------------------------------------------------------------------
  // generate_print_page_numbers

  /** Offset of the two-pass print order: 0 for mode "first", 1 for any other mode. */
  function PrintOffset(mode: string): int {
    if mode == "first" then 0 else 1
  }

  /** The print order square by square: each square from initPage on, stepping
      by perSquare, contributes two consecutive page numbers. */
  function PrintPageOrder(initPage: int, pages: nat, perSquare: int, mode: string): (s: seq<int>)
    ensures |s| == 2 * pages
    decreases pages
  {
    if pages == 0 then []
    else [initPage + PrintOffset(mode), initPage + PrintOffset(mode) + 1]
         + PrintPageOrder(initPage + perSquare, pages - 1, perSquare, mode)
  }

  /** Walks the values initPage, initPage + perSquare, ... and appends two page
      numbers for each; None stands for the error range() raises on a zero step. */
  method GeneratePrintPageNumbers(initPage: int, pages: nat, perSquare: int, mode: string)
      returns (numbers: Option<seq<int>>)
    ensures numbers == if perSquare == 0 then None else Some(PrintPageOrder(initPage, pages, perSquare, mode))
  {
    if perSquare == 0 {
      return None;
    }
    ghost var order := PrintPageOrder(initPage, pages, perSquare, mode);
    var offset := PrintOffset(mode);
    var a := new int[2 * pages];
    var value := initPage;
    var k := 0;
    while k < pages
      invariant 0 <= k <= pages
      invariant value == initPage + k * perSquare
      invariant forall m :: 0 <= m < 2 * k ==> a[m] == order[m]
    {
      PrintPagePair(initPage, pages, perSquare, mode, k);
      a[2 * k] := value + offset;
      a[2 * k + 1] := value + 1 + offset;
      value := value + perSquare;
      k := k + 1;
    }
    assert a[..] == order;
    numbers := Some(a[..]);
  }

  /** Pair k of the print order is (initPage + k * perSquare + offset, that + 1). */
  lemma {:induction false} PrintPagePair(initPage: int, pages: nat, perSquare: int, mode: string, k: nat)
    requires k < pages
    ensures PrintPageOrder(initPage, pages, perSquare, mode)[2 * k] == initPage + k * perSquare + PrintOffset(mode)
    ensures PrintPageOrder(initPage, pages, perSquare, mode)[2 * k + 1] == initPage + k * perSquare + PrintOffset(mode) + 1
    decreases k
  {
    if k > 0 {
      PrintPagePair(initPage + perSquare, pages - 1, perSquare, mode, k - 1);
      assert (k - 1) * perSquare + perSquare == k * perSquare;
    }
  }

  /** With two pages per square the squares are contiguous: mode "first" gives the
      sequential order from initPage, any other mode the same order shifted by one. */
  lemma {:induction false} PrintOrderIsSequentialForTwoPerSquare(initPage: int, pages: nat, mode: string)
    ensures PrintPageOrder(initPage, pages, 2, mode) == Range(initPage + PrintOffset(mode), 2 * pages)
    decreases pages
  {
    if pages > 0 {
      var b := initPage + PrintOffset(mode);
      PrintOrderIsSequentialForTwoPerSquare(initPage + 2, pages - 1, mode);
      assert Range(b, 2 * pages) == [b] + ([b + 1] + Range(b + 2, 2 * pages - 2));
    }
  }

  // ---------------------------------------------------------------------------
  // generate_fold_pages

  /** Pair i is emitted as (left, right) exactly when i is even and reverse is set,
      or i is odd and reverse is not set; otherwise as (right, left). */
  predicate LeftFirst(i: int, reverse: bool) {
    (i % 2 == 0 && reverse) || (i % 2 == 1 && !reverse)
  }

  /** The outermost sheet of a fold over start .. start + 2 * pagesLog - 1: the
      first and the last page, in the orientation LeftFirst gives pair 0. */
  function OuterPair(start: int, pagesLog: nat, reverse: bool): seq<int> {
    var left, right := start, start + 2 * pagesLog - 1;
    if LeftFirst(0, reverse) then [left, right] else [right, left]
  }

  /** The folded-booklet order before any slot is blanked, as a booklet nests:
      the outer sheet carries the first and the last page, and the sheets inside
      it fold the pages in between with the orientation flipped. */
  function FoldOrder(start: int, pagesLog: nat, reverse: bool): (o: seq<int>)
    ensures |o| == 2 * pagesLog
    decreases pagesLog
  {
    if pagesLog == 0 then []
    else OuterPair(start, pagesLog, reverse) + FoldOrder(start + 1, pagesLog - 1, !reverse)
  }

  /** The slot that last_skip overwrites with the blank sentinel. */
  function SkippedSlot(reverse: bool): nat {
    if reverse then 1 else 0
  }

  /** What generate_fold_pages returns: the folded order, with SkippedSlot set to
      the blank sentinel when last_skip is set and the order is not empty. */
  function FoldPlan(start: int, pagesLog: nat, reverse: bool, lastSkip: bool): seq<int> {
    var numbers := FoldOrder(start, pagesLog, reverse);
    if lastSkip && |numbers| > 0 then numbers[SkippedSlot(reverse) := Blank] else numbers
  }

  method GenerateFoldPages(start: int, pagesLog: nat, reverse: bool, lastSkip: bool)
      returns (numbers: seq<int>)
    ensures numbers == FoldPlan(start, pagesLog, reverse, lastSkip)
  {
    ghost var order := FoldOrder(start, pagesLog, reverse);
    var total := 2 * pagesLog;
    var a := new int[total];
    var i := 0;
    while i < pagesLog
      invariant 0 <= i <= pagesLog
      invariant forall m :: 0 <= m < 2 * i ==> a[m] == order[m]
    {
      FoldOrderPair(start, pagesLog, reverse, i);
      var left := start + i;
      var right := start + total - 1 - i;
      if (i % 2 == 0 && reverse) || (i % 2 == 1 && !reverse) {
        a[2 * i], a[2 * i + 1] := left, right;
      } else {
        a[2 * i], a[2 * i + 1] := right, left;
      }
      i := i + 1;
    }
    assert a[..] == order;
    if lastSkip && a.Length > 0 {
      a[SkippedSlot(reverse)] := Blank;
    }
    numbers := a[..];
  }

  /** Pair i of the folded order joins page start + i with its mirror
      start + 2 * pagesLog - 1 - i, left first exactly when LeftFirst(i, reverse). */
  lemma {:induction false} FoldOrderPair(start: int, pagesLog: nat, reverse: bool, i: nat)
    requires i < pagesLog
    ensures var o := FoldOrder(start, pagesLog, reverse);
            var left, right := start + i, start + 2 * pagesLog - 1 - i;
            if LeftFirst(i, reverse) then o[2 * i] == left && o[2 * i + 1] == right
            else o[2 * i] == right && o[2 * i + 1] == left
    decreases i
  {
    if i > 0 {
      FoldOrderPair(start + 1, pagesLog - 1, !reverse, i - 1);
      FoldOrderInner(start, pagesLog, reverse, 2 * i);
      FoldOrderInner(start, pagesLog, reverse, 2 * i + 1);
      LeftFirstFlips(i, reverse);
    } else {
      FoldOrderFirst(start, pagesLog, reverse);
    }
  }

  /** The outer pair opens the folded order. */
  lemma FoldOrderFirst(start: int, pagesLog: nat, reverse: bool)
    requires 0 < pagesLog
    ensures var o := FoldOrder(start, pagesLog, reverse);
            var left, right := start, start + 2 * pagesLog - 1;
            if LeftFirst(0, reverse) then o[0] == left && o[1] == right
            else o[0] == right && o[1] == left
  {
  }

  /** Past the outer pair, the folded order is the inner fold. */
  lemma FoldOrderInner(start: int, pagesLog: nat, reverse: bool, k: nat)
    requires 2 <= k < 2 * pagesLog
    ensures FoldOrder(start, pagesLog, reverse)[k] == FoldOrder(start + 1, pagesLog - 1, !reverse)[k - 2]
  {
  }

  /** Flipping the orientation shifts the alternation by one pair. */
  lemma LeftFirstFlips(i: nat, reverse: bool)
    requires i > 0
    ensures LeftFirst(i - 1, !reverse) == LeftFirst(i, reverse)
  {
  }

  /** The folded order is a permutation of start .. start + 2 * pagesLog - 1:
      every page of the range is used exactly once. */
  lemma {:induction false} FoldOrderIsPermutation(start: int, pagesLog: nat, reverse: bool)
    ensures PermutesRange(FoldOrder(start, pagesLog, reverse), start, 2 * pagesLog)
    decreases pagesLog
  {
    if pagesLog > 0 {
      var outer, inner := OuterPair(start, pagesLog, reverse), FoldOrder(start + 1, pagesLog - 1, !reverse);
      FoldOrderIsPermutation(start + 1, pagesLog - 1, !reverse);
      forall x
        ensures Occurrences(outer + inner, x) == if start <= x < start + 2 * pagesLog then 1 else 0
      {
        OccurrencesAppend(outer, inner, x);
      }
    }
  }

  /** With last_skip on a non-empty order, the blanked slot is the one holding the
      last page of the range, whatever reverse is; every other entry is kept. */
  lemma LastSkipBlanksLastPage(start: int, pagesLog: nat, reverse: bool)
    requires pagesLog > 0
    ensures FoldOrder(start, pagesLog, reverse)[SkippedSlot(reverse)] == start + 2 * pagesLog - 1
    ensures var p := FoldPlan(start, pagesLog, reverse, true);
            |p| == 2 * pagesLog && p[SkippedSlot(reverse)] == Blank &&
            forall k :: 0 <= k < |p| && k != SkippedSlot(reverse) ==> p[k] == FoldOrder(start, pagesLog, reverse)[k]
  {
    FoldOrderPair(start, pagesLog, reverse, 0);
  }

  /** So the last_skip plan names start .. start + 2 * pagesLog - 2 once each,
      plus one blank. */
  lemma LastSkipPlanIsPermutation(start: int, pagesLog: nat, reverse: bool)
    requires pagesLog > 0
    ensures var p := FoldPlan(start, pagesLog, reverse, true);
            |p| == 2 * pagesLog &&
            forall x :: Occurrences(p, x)
                        == (if start <= x < start + 2 * pagesLog - 1 then 1 else 0) + (if x == Blank then 1 else 0)
  {
    var o, p := FoldOrder(start, pagesLog, reverse), FoldPlan(start, pagesLog, reverse, true);
    LastSkipBlanksLastPage(start, pagesLog, reverse);
    FoldOrderIsPermutation(start, pagesLog, reverse);
    assert p == o[SkippedSlot(reverse) := Blank];
    forall x
      ensures Occurrences(p, x)
              == (if start <= x < start + 2 * pagesLog - 1 then 1 else 0) + (if x == Blank then 1 else 0)
    {
      OccurrencesUpdate(o, SkippedSlot(reverse), Blank, x);
    }
  }

  /** last_skip leaves an empty order as it is. */
  lemma LastSkipOnEmptyOrder(start: int, reverse: bool)
    ensures FoldPlan(start, 0, reverse, true) == []
  {
  }

  /** The worked example: start 1, two sheets, no reverse gives 4, 1, 2, 3. */
  lemma FoldExample()
    ensures FoldPlan(1, 2, false, false) == [4, 1, 2, 3]
  {
    assert FoldOrder(2, 1, true) == [2, 3] + FoldOrder(3, 0, false);
    assert FoldOrder(1, 2, false) == [4, 1] + FoldOrder(2, 1, true);
  }

  // ---------------------------------------------------------------------------
  // generate_unipage_pages

  /** The 4-1-2-3 rotation of the four pages from b: the fourth page first. */
  function Rotated(b: int): seq<int> {
    [b + 3, b, b + 1, b + 2]
  }

  /** The unipage order: one rotated group of four after another. */
  function UnipageOrder(start: int, groups: nat): (u: seq<int>)
    ensures |u| == 4 * groups
    decreases groups
  {
    if groups == 0 then [] else UnipageOrder(start, groups - 1) + Rotated(start + 4 * (groups - 1))
  }

  method GenerateUnipagePages(start: int, groups: nat) returns (pages: seq<int>)
    ensures pages == UnipageOrder(start, groups)
  {
    var a := new int[4 * groups];
    var i := 0;
    while i < groups
      invariant 0 <= i <= groups
      invariant a[..4 * i] == UnipageOrder(start, i)
    {
      a[4 * i] := start + i * 4 + 3;
      a[4 * i + 1] := start + i * 4;
      a[4 * i + 2] := start + i * 4 + 1;
      a[4 * i + 3] := start + i * 4 + 2;
      assert a[..4 * (i + 1)] == a[..4 * i] + Rotated(start + 4 * i);
      i := i + 1;
    }
    assert a[..] == a[..4 * groups];
    pages := a[..];
  }

  /** Group g of the unipage order is [s + 4g + 3, s + 4g, s + 4g + 1, s + 4g + 2]. */
  lemma {:induction false} UnipageGroup(start: int, groups: nat, g: nat)
    requires g < groups
    ensures UnipageOrder(start, groups)[4 * g..4 * g + 4] == Rotated(start + 4 * g)
    decreases groups
  {
    var prev := UnipageOrder(start, groups - 1);
    if g < groups - 1 {
      UnipageGroup(start, groups - 1, g);
      assert UnipageOrder(start, groups)[4 * g..4 * g + 4] == prev[4 * g..4 * g + 4];
    } else {
      assert UnipageOrder(start, groups)[4 * g..4 * g + 4] == UnipageOrder(start, groups)[|prev|..];
    }
  }

  /** Each group of four is a permutation of its four pages. */
  lemma RotatedPermutes(b: int)
    ensures PermutesRange(Rotated(b), b, 4)
  {
    forall x
      ensures Occurrences(Rotated(b), x) == if b <= x < b + 4 then 1 else 0
    {
      assert Rotated(b) == [b + 3] + ([b] + ([b + 1] + [b + 2]));
      OccurrencesAppend([b + 3], [b] + ([b + 1] + [b + 2]), x);
      OccurrencesAppend([b], [b + 1] + [b + 2], x);
      OccurrencesAppend([b + 1], [b + 2], x);
    }
  }

  /** The unipage order is a permutation of start .. start + 4 * groups - 1. */
  lemma {:induction false} UnipageOrderIsPermutation(start: int, groups: nat)
    ensures PermutesRange(UnipageOrder(start, groups), start, 4 * groups)
    decreases groups
  {
    if groups > 0 {
      var b := start + 4 * (groups - 1);
      UnipageOrderIsPermutation(start, groups - 1);
      RotatedPermutes(b);
      PermutesConcat(UnipageOrder(start, groups - 1), Rotated(b), start, 4 * (groups - 1), 4, b, 4 * groups);
    }
  }

  /** The worked example: one group from page 1 gives 4, 1, 2, 3. */
  lemma UnipageExample()
    ensures UnipageOrder(1, 1) == [4, 1, 2, 3]
  {
  }
}
