/** process_pdf_for_folding (tools/two_page.py): pad the page count to a multiple
    of four and start over once, then either split the document into chunk jobs
    or merge it in one run. */
module Pipeline {
  import opened Pages
  import opened Plan
  import opened Merge
  import opened Padding

  /** The parameters of one merge run: first 1-based page, one-side sheet count,
      the flags it passes, and its part index (None for the single output file). */
  datatype Job = Job(start: int, oneSide: nat, lastSkip: bool, noFolding: bool, unipage: bool, part: Option<nat>)

  /** What one call leaves behind: nothing (missing file); the error range()
      raises for a zero split threshold once chunking is chosen; or a padding pass
      followed by the outcome on the padded document; or chunk jobs with their
      results; or a single merge run with its result. */
  datatype ProcessOutcome =
    | FileMissing
    | ZeroStep
    | PaddedFirst(blanks: nat, padded: ProcessOutcome)
    | Chunked(jobs: seq<Job>, results: seq<MergeOutcome>)
    | Single(job: Job, result: MergeOutcome)

  /** The merge run a job stands for (reverse is never set by the pipeline). */
  function RunJob(doc: Document, job: Job): MergeOutcome {
    MergeSpec(doc, true, job.start, job.oneSide, false, job.lastSkip, job.noFolding, job.unipage)
  }

  /** The merge runs of a list of jobs, in order. */
  function RunAll(doc: Document, jobs: seq<Job>): (results: seq<MergeOutcome>)
    ensures |results| == |jobs|
  {
    if jobs == [] then [] else [RunJob(doc, jobs[0])] + RunAll(doc, jobs[1..])
  }

  // ---------------------------------------------------------------------------
  // Chunk partition

  /** One side's sheet count for pageNum pages: the ceiling of pageNum / 2. */
  function OneSide(pageNum: nat): (r: nat)
    ensures 2 * r == pageNum || 2 * r == pageNum + 1
  {
    if pageNum % 2 == 0 then pageNum / 2 else pageNum / 2 + 1
  }

  /** The job the loop submits for window start i: end_page = min(i + split,
      total), page_num = end_page - i, part_index = (i - 1) // split + 1. */
  function ChunkJob(total: nat, split: nat, noFolding: bool, i: nat): Job
    requires split > 0 && 1 <= i <= total
  {
    var endPage := if i + split < total then i + split else total;
    var pageNum := endPage - i;
    var partIndex := (i - 1) / split + 1;
    Job(i, OneSide(pageNum), false, noFolding, false, Some(partIndex))
  }

  /** The jobs for the window starts i, i + split, ... that range(i, total + 1,
      split) yields. */
  function ChunksFrom(total: nat, split: nat, noFolding: bool, i: nat): seq<Job>
    requires split > 0 && i >= 1
    decreases total + 1 - i
  {
    if i > total then []
    else [ChunkJob(total, split, noFolding, i)] + ChunksFrom(total, split, noFolding, i + split)
  }

  /** All chunk jobs, in submission order. */
  function ChunkPlan(total: nat, split: nat, noFolding: bool): seq<Job>
    requires split > 0
  {
    ChunksFrom(total, split, noFolding, 1)
  }

  /** The loop over window starts, accumulating one job per window. */
  method ChunkJobs(total: nat, split: nat, noFolding: bool) returns (jobs: seq<Job>)
    requires split > 0
    ensures jobs == ChunkPlan(total, split, noFolding)
  {
    jobs := [];
    var i := 1;
    while i < total + 1
      invariant i >= 1
      invariant Submitted(total, split, noFolding, i, jobs)
      decreases total + 1 - i
    {
      var endPage := if i + split < total then i + split else total;
      var pageNum := endPage - i;
      var partIndex := (i - 1) / split + 1;
      var job := Job(i, OneSide(pageNum), false, noFolding, false, Some(partIndex));
      SubmitStep(total, split, noFolding, i, jobs, job);
      jobs := jobs + [job];
      i := i + split;
    }
    assert ChunksFrom(total, split, noFolding, i) == [];
    assert jobs + [] == jobs;
  }

  lemma ChunksFromUnfold(total: nat, split: nat, noFolding: bool, i: nat)
    requires split > 0 && 1 <= i <= total
    ensures ChunksFrom(total, split, noFolding, i)
            == [ChunkJob(total, split, noFolding, i)] + ChunksFrom(total, split, noFolding, i + split)
  {
  }

  /** The jobs submitted before window start i, followed by the jobs still to
      come, are the whole plan. */
  predicate Submitted(total: nat, split: nat, noFolding: bool, i: nat, jobs: seq<Job>)
    requires split > 0 && i >= 1
  {
    jobs + ChunksFrom(total, split, noFolding, i) == ChunkPlan(total, split, noFolding)
  }

  /** One loop iteration: submitting the job for window i moves it from the
      pending jobs to the submitted ones. */
  lemma SubmitStep(total: nat, split: nat, noFolding: bool, i: nat, jobs: seq<Job>, job: Job)
    requires split > 0 && 1 <= i <= total
    requires job == ChunkJob(total, split, noFolding, i)
    requires Submitted(total, split, noFolding, i, jobs)
    ensures Submitted(total, split, noFolding, i + split, jobs + [job])
  {
    ChunksFromUnfold(total, split, noFolding, i);
    AppendAssoc(jobs, [job], ChunksFrom(total, split, noFolding, i + split));
  }

  lemma AppendAssoc<T>(a: seq<T>, b: seq<T>, c: seq<T>)
    ensures a + b + c == a + (b + c)
  {
  }

  lemma MulSucc(j: nat, split: nat)
    ensures (j + 1) * split == j * split + split
  {
  }

  lemma {:induction false} DivOfMultiple(j: nat, split: nat)
    requires split > 0
    ensures (j * split) / split == j
  {
    var q, r := (j * split) / split, (j * split) % split;
    assert j * split == q * split + r;
    if q < j {
      MulMonotone(q + 1, j, split);
    } else if q > j {
      MulMonotone(j + 1, q, split);
    }
  }

  lemma {:induction false} MulMonotone(a: nat, b: nat, c: nat)
    requires a <= b
    ensures a * c <= b * c
  {
    assert b * c == a * c + (b - a) * c;
  }

  /** Job j is the job for window start 1 + j * split, so it starts there,
      carries part index j + 1 and has that window's sheet count; every job
      starts on a page of the document, and the next window start after the
      last job is past the last page. */
  lemma {:induction false} ChunkPlanShape(total: nat, split: nat, noFolding: bool)
    requires split > 0
    ensures var jobs := ChunkPlan(total, split, noFolding);
            (forall j :: 0 <= j < |jobs| ==>
               jobs[j].start == 1 + j * split && jobs[j].part == Some(j + 1) && jobs[j].start <= total &&
               jobs[j] == ChunkJob(total, split, noFolding, 1 + j * split) &&
               !jobs[j].lastSkip && !jobs[j].unipage && jobs[j].noFolding == noFolding) &&
            (|jobs| > 0 <==> total > 0) &&
            1 + |jobs| * split > total
  {
    ChunksFromShape(total, split, noFolding, 0);
    var jobs := ChunkPlan(total, split, noFolding);
    assert 1 + 0 * split == 1;
    forall j | 0 <= j < |jobs|
      ensures jobs[j].start == 1 + j * split && jobs[j].part == Some(j + 1)
      ensures jobs[j] == ChunkJob(total, split, noFolding, 1 + j * split)
    {
      assert 0 + j == j;
      ChunksFromAt(total, split, noFolding, 1, j);
    }
    assert 0 + |jobs| == |jobs|;
  }

  lemma {:induction false} ChunksFromShape(total: nat, split: nat, noFolding: bool, m: nat)
    requires split > 0
    ensures var jobs := ChunksFrom(total, split, noFolding, 1 + m * split);
            (forall j :: 0 <= j < |jobs| ==>
               jobs[j].start == 1 + (m + j) * split && jobs[j].part == Some(m + j + 1) && jobs[j].start <= total &&
               !jobs[j].lastSkip && !jobs[j].unipage && jobs[j].noFolding == noFolding) &&
            (|jobs| > 0 <==> 1 + m * split <= total) &&
            1 + (m + |jobs|) * split > total
    decreases total + 1 - m * split
  {
    var i := 1 + m * split;
    var jobs := ChunksFrom(total, split, noFolding, i);
    if i <= total {
      MulSucc(m, split);
      ChunksFromShape(total, split, noFolding, m + 1);
      var rest := ChunksFrom(total, split, noFolding, 1 + (m + 1) * split);
      assert jobs == [ChunkJob(total, split, noFolding, i)] + rest;
      forall j | 0 <= j < |jobs|
        ensures jobs[j].start == 1 + (m + j) * split && jobs[j].part == Some(m + j + 1) && jobs[j].start <= total &&
                !jobs[j].lastSkip && !jobs[j].unipage && jobs[j].noFolding == noFolding
      {
        if j == 0 {
          ChunkJobShape(total, split, noFolding, m);
          assert m + 0 == m;
        } else {
          assert jobs[j] == rest[j - 1];
          assert m + 1 + (j - 1) == m + j;
        }
      }
      assert m + 1 + |rest| == m + |jobs|;
    }
  }

  /** The j-th job from window start i is the job for window start
      i + j * split. */
  lemma {:induction false} ChunksFromAt(total: nat, split: nat, noFolding: bool, i: nat, j: nat)
    requires split > 0 && i >= 1 && j < |ChunksFrom(total, split, noFolding, i)|
    ensures i + j * split <= total
    ensures ChunksFrom(total, split, noFolding, i)[j] == ChunkJob(total, split, noFolding, i + j * split)
    decreases j
  {
    if j > 0 {
      ChunksFromAt(total, split, noFolding, i + split, j - 1);
      MulSucc(j - 1, split);
    }
  }

  /** The job for window start 1 + m * split starts there and is part m + 1. */
  lemma ChunkJobShape(total: nat, split: nat, noFolding: bool, m: nat)
    requires split > 0 && 1 + m * split <= total
    ensures var job := ChunkJob(total, split, noFolding, 1 + m * split);
            job.start == 1 + m * split && job.part == Some(m + 1) &&
            !job.lastSkip && !job.unipage && job.noFolding == noFolding
  {
    DivOfMultiple(m, split);
  }

  /** With an even split and an even page count, the window of the job at an
      odd start i, pages i .. i + 2 * oneSide - 1, ends just before the next
      start i + split, or at the last page when there is no next start. */
  lemma WindowEnd(total: nat, split: nat, noFolding: bool, i: nat)
    requires split > 0 && split % 2 == 0 && total % 2 == 0 && i % 2 == 1 && 1 <= i <= total
    ensures var job := ChunkJob(total, split, noFolding, i);
            job.oneSide > 0 &&
            i + 2 * job.oneSide == (if i + split <= total then i + split else total + 1)
  {
  }

  /** With an odd split the windows overlap: total 8, split 3 gives a first job
      over pages 1 .. 4 while the second job starts at page 4. */
  lemma OddSplitWindowsOverlap()
    ensures var jobs := ChunkPlan(8, 3, false);
            |jobs| == 3 && jobs[0].start == 1 && jobs[0].oneSide == 2 && jobs[1].start == 4
  {
    assert ChunksFrom(8, 3, false, 10) == [];
    assert ChunksFrom(8, 3, false, 7) == [ChunkJob(8, 3, false, 7)];
    assert ChunksFrom(8, 3, false, 4) == [ChunkJob(8, 3, false, 4), ChunkJob(8, 3, false, 7)];
  }

  /** With an odd split the last page can be lost: total 8, split 5 gives
      windows over pages 1 .. 6 and 6 .. 7, and page 8 lies in neither, so on an
      eight-page document the chunk runs never draw 0-based page 7. */
  lemma {:induction false} OddSplitDropsLastPage(doc: Document)
    requires |doc| == 8
    ensures var jobs := ChunkPlan(8, 5, false);
            jobs == [Job(1, 3, false, false, false, Some(1)), Job(6, 1, false, false, false, Some(2))] &&
            (forall j :: 0 <= j < |jobs| ==> !(jobs[j].start <= 8 < jobs[j].start + 2 * jobs[j].oneSide))
    ensures ProcessSpec(Some(doc), 5, false, false).Chunked?
    ensures Occurrences(Printed(ProcessSpec(Some(doc), 5, false, false)), 7) == 0
  {
    OddSplitPlan();
    AlignedGoesToDispatch(doc, 5, false, false);
    OddSplitRunsMissPage(doc);
  }

  /** The two chunk runs of an eight-page document split every 5 never draw
      0-based page 7. */
  lemma OddSplitRunsMissPage(doc: Document)
    requires |doc| == 8
    ensures Occurrences(PrintedAll(RunAll(doc, ChunkPlan(8, 5, false))), 7) == 0
  {
    var jobs := [Job(1, 3, false, false, false, Some(1)), Job(6, 1, false, false, false, Some(2))];
    OddSplitPlan();
    RunTwo(doc, jobs, 7);
    JobDrawsOnlyItsWindow(doc, jobs[0], 7);
    JobDrawsOnlyItsWindow(doc, jobs[1], 7);
  }

  /** Two jobs print what their two runs print. */
  lemma RunTwo(doc: Document, jobs: seq<Job>, x: int)
    requires |jobs| == 2
    ensures var r0, r1 := RunJob(doc, jobs[0]), RunJob(doc, jobs[1]);
            RunAll(doc, jobs) == [r0, r1] &&
            Occurrences(PrintedAll([r0, r1]), x) == Occurrences(ResultPages(r0), x) + Occurrences(ResultPages(r1), x)
  {
    var r0, r1 := RunJob(doc, jobs[0]), RunJob(doc, jobs[1]);
    assert jobs[1..][1..] == [];
    assert [r0, r1][1..] == [r1] && [r1][1..] == [];
    assert PrintedAll([r1]) == ResultPages(r1) + [];
    OccurrencesAppend(ResultPages(r1), [], x);
    OccurrencesAppend(ResultPages(r0), ResultPages(r1) + [], x);
  }

  lemma OddSplitPlan()
    ensures ChunkPlan(8, 5, false) == [Job(1, 3, false, false, false, Some(1)), Job(6, 1, false, false, false, Some(2))]
  {
    assert ChunksFrom(8, 5, false, 11) == [];
    assert ChunksFrom(8, 5, false, 6) == [Job(6, 1, false, false, false, Some(2))];
  }

  /** With an odd split a job can be empty: total 4, split 3 gives a second job
      at page 4 with no pages, whose fold plan is empty, so its run aborts
      (max of an empty list) and its part file is never written. */
  lemma {:induction false} OddSplitEmptyJob(doc: Document)
    requires |doc| == 4
    ensures var jobs := ChunkPlan(4, 3, false);
            jobs == [Job(1, 2, false, false, false, Some(1)), Job(4, 0, false, false, false, Some(2))] &&
            RunJob(doc, jobs[1]) == Aborted
  {
    assert ChunksFrom(4, 3, false, 7) == [];
    assert ChunksFrom(4, 3, false, 4) == [Job(4, 0, false, false, false, Some(2))];
    assert FoldOrder(4, 0, false) == [];
  }

  /** A sequential or folded job (no last_skip, no unipage) draws no page outside
      its window, 0-based pages start - 1 .. start + 2 * oneSide - 2. */
  lemma JobDrawsOnlyItsWindow(doc: Document, job: Job, x: int)
    requires job.start >= 1 && !job.lastSkip && !job.unipage
    requires !(job.start - 1 <= x < job.start - 1 + 2 * job.oneSide)
    ensures Occurrences(ResultPages(RunJob(doc, job)), x) == 0
  {
    var idx := ZeroBased(PlanFor(job.start, job.oneSide, false, false, job.noFolding, false));
    WindowPlanPermutes(job.start, job.oneSide, false, job.noFolding);
    SheetsOfDraws(doc, idx);
    OccurrencesNamed(idx, |doc|, x);
  }

  /** The job the loop evidently means to submit for window start i: the window
      ends at min(i + split, total + 1), exclusive, so page_num counts the
      window's pages, the last page included. */
  function IntendedChunkJob(total: nat, split: nat, noFolding: bool, i: nat): Job
    requires split > 0 && 1 <= i <= total
  {
    var endPage := if i + split < total + 1 then i + split else total + 1;
    var pageNum := endPage - i;
    var partIndex := (i - 1) / split + 1;
    Job(i, OneSide(pageNum), false, noFolding, false, Some(partIndex))
  }

  /** With the intended window end, every split threshold works: page p lies in
      the window of the job at the (p - 1) / split-th start of the plan, that job
      has at least one sheet, and it keeps the plan's part index. */
  lemma {:induction false} IntendedWindowsCoverEveryPage(total: nat, split: nat, noFolding: bool, p: nat)
    requires split > 0 && 1 <= p <= total
    ensures var jobs := ChunkPlan(total, split, noFolding);
            var j := (p - 1) / split;
            var i := 1 + j * split;
            j < |jobs| && jobs[j].start == i && i <= p &&
            var job := IntendedChunkJob(total, split, noFolding, i);
            job.oneSide > 0 && job.start <= p < job.start + 2 * job.oneSide && job.part == jobs[j].part
  {
    var j := (p - 1) / split;
    var i := 1 + j * split;
    DivModParts(p - 1, split);
    PageWindowStart(total, split, noFolding, p, j);
    IntendedWindow(total, split, noFolding, j, i, p);
  }

  /** A page p with j * split <= p - 1 < (j + 1) * split lies in the split-page
      window of the plan's j-th start. */
  lemma PageWindowStart(total: nat, split: nat, noFolding: bool, p: nat, j: nat)
    requires split > 0 && 1 <= p <= total && j * split <= p - 1 < j * split + split
    ensures var jobs := ChunkPlan(total, split, noFolding);
            j < |jobs| && jobs[j].start == 1 + j * split && jobs[j].part == Some(j + 1)
  {
    var jobs := ChunkPlan(total, split, noFolding);
    ChunkPlanShape(total, split, noFolding);
    FewerMultiples(|jobs|, j, split, p - 1, total);
  }

  /** If n multiples of split already pass total, a multiple j * split that
      stays below total has j < n. */
  lemma FewerMultiples(n: nat, j: nat, split: nat, q: nat, total: nat)
    requires split > 0 && 1 + n * split > total && j * split <= q < total
    ensures j < n
  {
    if j >= n {
      MulMonotone(n, j, split);
    }
  }

  /** The intended job at window start i covers every page p of the window
      i .. i + split - 1 that the document has. */
  lemma IntendedWindow(total: nat, split: nat, noFolding: bool, j: nat, i: nat, p: nat)
    requires split > 0 && i == 1 + j * split && i <= p <= total && p < i + split
    ensures var job := IntendedChunkJob(total, split, noFolding, i);
            job.oneSide > 0 && job.start <= p < job.start + 2 * job.oneSide && job.part == Some(j + 1)
  {
    DivOfMultiple(j, split);
  }

  /** Euclidean division splits a into whole multiples of b and a remainder. */
  lemma DivModParts(a: nat, b: nat)
    requires b > 0
    ensures (a / b) * b <= a < (a / b) * b + b
  {
    assert a == (a / b) * b + a % b;
  }

  /** The intended window end changes nothing for an even split and an even page
      count, the only case the pipeline proofs cover. */
  lemma IntendedMatchesEvenSplit(total: nat, split: nat, noFolding: bool, i: nat)
    requires split > 0 && split % 2 == 0 && total % 2 == 0 && i % 2 == 1 && 1 <= i <= total
    ensures IntendedChunkJob(total, split, noFolding, i) == ChunkJob(total, split, noFolding, i)
  {
  }

  /** The worked example: 200 pages split every 80 give the windows starting at
      pages 1, 81 and 161, with 40, 40 and 20 sheets per side and parts 1, 2, 3;
      the last window's 39 pages round up to 20 sheets, reaching page 200. */
  lemma ChunkPlanExample()
    ensures ChunkPlan(200, 80, false) == [Job(1, 40, false, false, false, Some(1)),
                                          Job(81, 40, false, false, false, Some(2)),
                                          Job(161, 20, false, false, false, Some(3))]
  {
    assert ChunksFrom(200, 80, false, 241) == [];
    assert ChunksFrom(200, 80, false, 161) == [Job(161, 20, false, false, false, Some(3))];
    assert ChunksFrom(200, 80, false, 81) == [Job(81, 40, false, false, false, Some(2))]
                                             + ChunksFrom(200, 80, false, 161);
  }

  // ---------------------------------------------------------------------------
  // The process

  /** What one call of process_pdf_for_folding produces for its input. */
  function ProcessSpec(input: Option<Document>, split: nat, noFolding: bool, unipage: bool): ProcessOutcome
    decreases if input.Some? && |input.value| % 4 != 0 then 1 else 0
  {
    if input.None? then FileMissing
    else
      var doc := input.value;
      if |doc| % 4 != 0 then
        var k := BlankPagesNeeded(|doc|);
        PaddedFirst(k, ProcessSpec(Some(PaddedDocument(doc, k)), split, noFolding, unipage))
      else DispatchSpec(doc, split, noFolding, unipage)
  }

  /** The rest of the call once the page count is a multiple of four: chunk
      jobs above the split threshold (unless unipage), otherwise one merge run
      over the whole document. */
  function DispatchSpec(doc: Document, split: nat, noFolding: bool, unipage: bool): ProcessOutcome {
    var total := |doc|;
    if total > split && !unipage then
      if split == 0 then ZeroStep
      else
        var jobs := ChunkPlan(total, split, noFolding);
        Chunked(jobs, RunAll(doc, jobs))
    else
      var job := Job(1, total / 2, false, noFolding, unipage, None);
      Single(job, RunJob(doc, job))
  }

  /** A call on a document whose page count is a multiple of four goes straight
      to the dispatch. */
  lemma AlignedGoesToDispatch(doc: Document, split: nat, noFolding: bool, unipage: bool)
    requires |doc| % 4 == 0
    ensures ProcessSpec(Some(doc), split, noFolding, unipage) == DispatchSpec(doc, split, noFolding, unipage)
  {
  }

  /** Checks the input, pads and starts over when the page count is not a
      multiple of four, then submits the chunk jobs or runs the single merge. */
  method ProcessPdfForFolding(input: Option<Document>, split: nat, noFolding: bool, unipage: bool)
      returns (out: ProcessOutcome)
    ensures out == ProcessSpec(input, split, noFolding, unipage)
    decreases if input.Some? && |input.value| % 4 != 0 then 1 else 0
  {
    if input.None? {
      return FileMissing;
    }
    var doc := input.value;
    var totalPage := |doc|;
    if totalPage % 4 != 0 {
      var blankPagesNeeded := 4 - totalPage % 4;
      var layout := AddBlankPagesToPdf(doc, blankPagesNeeded);
      assert blankPagesNeeded == BlankPagesNeeded(totalPage);
      var padded := ReadBack(doc, layout);
      assert padded == PaddedDocument(doc, blankPagesNeeded);
      var inner := ProcessPdfForFolding(Some(padded), split, noFolding, unipage);
      return PaddedFirst(blankPagesNeeded, inner);
    }
    if totalPage > split && !unipage {
      if split == 0 {
        return ZeroStep;
      }
      var jobs := ChunkJobs(totalPage, split, noFolding);
      var results := RunJobs(doc, jobs);
      return Chunked(jobs, results);
    }
    var oneSidePhyPageNum := totalPage / 2;
    var r := MergePagesForFolding(doc, true, 1, oneSidePhyPageNum, false, false, noFolding, unipage);
    return Single(Job(1, oneSidePhyPageNum, false, noFolding, unipage, None), r);
  }

  /** Submits every job and collects the results after all have finished. */
  method RunJobs(doc: Document, jobs: seq<Job>) returns (results: seq<MergeOutcome>)
    ensures results == RunAll(doc, jobs)
  {
    results := [];
    var t := 0;
    while t < |jobs|
      invariant 0 <= t <= |jobs|
      invariant results + RunAll(doc, jobs[t..]) == RunAll(doc, jobs)
    {
      var job := jobs[t];
      var r := MergePagesForFolding(doc, true, job.start, job.oneSide, false, job.lastSkip, job.noFolding, job.unipage);
      RunAllFrom(doc, jobs, t);
      AppendAssoc(results, [r], RunAll(doc, jobs[t + 1..]));
      results := results + [r];
      t := t + 1;
    }
    assert results + [] == results;
  }

  /** The results from job t on: job t's, then those from t + 1 on. */
  lemma {:induction false} RunAllFrom(doc: Document, jobs: seq<Job>, t: nat)
    requires t < |jobs|
    ensures RunAll(doc, jobs[t..]) == [RunJob(doc, jobs[t])] + RunAll(doc, jobs[t + 1..])
  {
    assert jobs[t..][1..] == jobs[t + 1..];
  }

  // ---------------------------------------------------------------------------
  // What the pipeline prints

  /** The 0-based page indices a merge result draws. */
  function ResultPages(r: MergeOutcome): seq<int> {
    if r.Written? then SlotPages(r.sheets) else []
  }

  /** The pages drawn by a run of results, in job order. */
  function PrintedAll(results: seq<MergeOutcome>): seq<int> {
    if results == [] then [] else ResultPages(results[0]) + PrintedAll(results[1..])
  }

  /** The pages drawn by everything a call produced. */
  function Printed(out: ProcessOutcome): seq<int> {
    match out
    case FileMissing => []
    case ZeroStep => []
    case PaddedFirst(_, inner) => Printed(inner)
    case Chunked(_, results) => PrintedAll(results)
    case Single(_, result) => ResultPages(result)
  }

  /** Every merge run of the call wrote its file and logged no range warning. */
  predicate Clean(out: ProcessOutcome) {
    match out
    case FileMissing => false
    case ZeroStep => false
    case PaddedFirst(_, inner) => Clean(inner)
    case Chunked(_, results) => AllClean(results)
    case Single(_, result) => result.Written? && !result.rangeWarning
  }

  /** Padding happens exactly when the page count is not a multiple of four; it
      adds 4 - total % 4 pages (one to three), and the padded document is never
      padded again. */
  lemma PaddingHappensOnce(doc: Document, split: nat, noFolding: bool, unipage: bool)
    ensures var out := ProcessSpec(Some(doc), split, noFolding, unipage);
            (out.PaddedFirst? <==> |doc| % 4 != 0) &&
            (out.PaddedFirst? ==>
               out.blanks == 4 - |doc| % 4 && 1 <= out.blanks <= 3 &&
               !out.padded.PaddedFirst? && !out.padded.FileMissing?)
  {
  }

  /** On a document whose page count is a multiple of four, chunking is chosen
      exactly when the page count exceeds the split threshold and the layout is
      not unipage (a zero threshold then raises); otherwise one merge run covers
      the whole document from page 1 with half as many one-side sheets as pages,
      no blanked slot and no part index. */
  lemma PathSelection(doc: Document, split: nat, noFolding: bool, unipage: bool)
    requires |doc| % 4 == 0
    ensures var out := ProcessSpec(Some(doc), split, noFolding, unipage);
            ((out.Chunked? || out.ZeroStep?) <==> |doc| > split && !unipage) &&
            (out.ZeroStep? <==> |doc| > split && !unipage && split == 0) &&
            (out.Single? <==> !(|doc| > split && !unipage)) &&
            (out.Single? ==>
               out.job == Job(1, |doc| / 2, false, noFolding, unipage, None) &&
               2 * out.job.oneSide == |doc|) &&
            (out.Chunked? ==> out.jobs == ChunkPlan(|doc|, split, noFolding) && |out.results| == |out.jobs|)
  {
    AlignedGoesToDispatch(doc, split, noFolding, unipage);
    MultipleOfFour(|doc|);
    var out := DispatchSpec(doc, split, noFolding, unipage);
    if |doc| > split && !unipage {
      if split == 0 {
        assert out == ZeroStep;
      } else {
        var jobs := ChunkPlan(|doc|, split, noFolding);
        assert out == Chunked(jobs, RunAll(doc, jobs));
      }
    } else {
      var job := Job(1, |doc| / 2, false, noFolding, unipage, None);
      assert out == Single(job, RunJob(doc, job));
    }
  }

  /** Every result of the run wrote its file and logged no range warning. */
  predicate AllClean(results: seq<MergeOutcome>) {
    forall j :: 0 <= j < |results| ==> results[j].Written? && !results[j].rangeWarning
  }

  /** The chunk jobs from an odd window start i on (even split, even page
      count) draw pages i - 1 .. total - 1 once each, and each of them writes
      its file without a warning. */
  lemma {:induction false} ChunksFromPrintRest(doc: Document, split: nat, noFolding: bool, i: nat)
    requires split > 0 && split % 2 == 0 && |doc| % 2 == 0 && i % 2 == 1 && 1 <= i <= |doc| + 1
    ensures CleanFrom(doc, split, noFolding, i)
    decreases |doc| + 1 - i
  {
    if i > |doc| {
      assert ChunksFrom(|doc|, split, noFolding, i) == [];
    } else {
      assert (i + split) % 2 == 1;
      if i + split <= |doc| {
        ChunksFromPrintRest(doc, split, noFolding, i + split);
        ChunkStep(doc, split, noFolding, i);
      } else {
        LastChunk(doc, split, noFolding, i);
      }
    }
  }

  /** The results of the chunk jobs from window start i on are clean and draw
      pages i - 1 .. total - 1 once each. */
  ghost predicate CleanFrom(doc: Document, split: nat, noFolding: bool, i: nat)
    requires split > 0 && i >= 1
  {
    i <= |doc| + 1 && CleanRun(doc, RunAll(doc, ChunksFrom(|doc|, split, noFolding, i)), i)
  }

  /** A run of results that are all clean and together draw the pages from
      window start i to the end, i - 1 .. |doc| - 1, once each. */
  ghost predicate CleanRun(doc: Document, results: seq<MergeOutcome>, i: nat)
    requires 1 <= i <= |doc| + 1
  {
    AllClean(results) && PermutesRange(PrintedAll(results), i - 1, |doc| + 1 - i)
  }

  /** A job whose window is followed by another start extends that start's
      clean run to its own. */
  lemma {:induction false} ChunkStep(doc: Document, split: nat, noFolding: bool, i: nat)
    requires split > 0 && split % 2 == 0 && |doc| % 2 == 0 && i % 2 == 1 && 1 <= i
    requires i + split <= |doc| && CleanFrom(doc, split, noFolding, i + split)
    ensures CleanFrom(doc, split, noFolding, i)
  {
    var all := RunAll(doc, ChunksFrom(|doc|, split, noFolding, i));
    var tail := RunAll(doc, ChunksFrom(|doc|, split, noFolding, i + split));
    var job := ChunkJob(|doc|, split, noFolding, i);
    var r := ChunkJobResult(doc, split, noFolding, i);
    ChunksFromCons(doc, split, noFolding, i);
    ConsClean(doc, all, r, tail, i, split, 2 * job.oneSide);
  }

  /** The last job: its window runs to the end and nothing follows it. */
  lemma {:induction false} LastChunk(doc: Document, split: nat, noFolding: bool, i: nat)
    requires split > 0 && split % 2 == 0 && |doc| % 2 == 0 && i % 2 == 1 && 1 <= i <= |doc| < i + split
    ensures CleanFrom(doc, split, noFolding, i)
  {
    var all := RunAll(doc, ChunksFrom(|doc|, split, noFolding, i));
    var job := ChunkJob(|doc|, split, noFolding, i);
    var r := ChunkJobResult(doc, split, noFolding, i);
    ChunksFromCons(doc, split, noFolding, i);
    assert ChunksFrom(|doc|, split, noFolding, i + split) == [];
    assert RunAll(doc, ChunksFrom(|doc|, split, noFolding, i + split)) == [];
    LastClean(doc, all, r, i, 2 * job.oneSide);
  }

  /** The results from window start i: the job at i, then those from i + split. */
  lemma {:induction false} ChunksFromCons(doc: Document, split: nat, noFolding: bool, i: nat)
    requires split > 0 && 1 <= i <= |doc|
    ensures RunAll(doc, ChunksFrom(|doc|, split, noFolding, i))
            == [RunJob(doc, ChunkJob(|doc|, split, noFolding, i))] + RunAll(doc, ChunksFrom(|doc|, split, noFolding, i + split))
  {
    var jobs := ChunksFrom(|doc|, split, noFolding, i);
    assert jobs[1..] == ChunksFrom(|doc|, split, noFolding, i + split);
  }

  /** The chunk job at window start i: a clean merge run that draws the pages
      of its window once each; the window ends at the next start, or at the
      end of the document for the last window. */
  lemma {:induction false} ChunkJobResult(doc: Document, split: nat, noFolding: bool, i: nat) returns (r: MergeOutcome)
    requires split > 0 && split % 2 == 0 && |doc| % 2 == 0 && i % 2 == 1 && 1 <= i <= |doc|
    ensures var job := ChunkJob(|doc|, split, noFolding, i);
            r == RunJob(doc, job) && r.Written? && !r.rangeWarning &&
            PermutesRange(SlotPages(r.sheets), i - 1, 2 * job.oneSide) &&
            i + 2 * job.oneSide == (if i + split <= |doc| then i + split else |doc| + 1)
  {
    var job := ChunkJob(|doc|, split, noFolding, i);
    WindowEnd(|doc|, split, noFolding, i);
    r := RunJob(doc, job);
    assert r == MergeSpec(doc, true, i, job.oneSide, false, false, noFolding, false);
    WindowPrintsEveryPageOnce(doc, i, job.oneSide, false, noFolding);
  }

  /** A clean result over the window i - 1 .. i + split - 2 before a clean run
      from the next window start i + split is a clean run from i. */
  lemma {:induction false} ConsClean(doc: Document, results: seq<MergeOutcome>, r: MergeOutcome, tail: seq<MergeOutcome>,
                  i: nat, split: nat, len: nat)
    requires 1 <= i && i + split <= |doc| + 1 && len == split
    requires results == [r] + tail
    requires r.Written? && !r.rangeWarning && PermutesRange(SlotPages(r.sheets), i - 1, len)
    requires CleanRun(doc, tail, i + split)
    ensures CleanRun(doc, results, i)
  {
    PrintedAllCons(results, r, tail);
    PermutesConcat(SlotPages(r.sheets), PrintedAll(tail), i - 1, len, |doc| + 1 - (i + split), i + split - 1, |doc| + 1 - i);
    ConsAllClean(results, r, tail);
  }

  /** The pages drawn by a written result followed by a run of results. */
  lemma {:induction false} PrintedAllCons(results: seq<MergeOutcome>, r: MergeOutcome, tail: seq<MergeOutcome>)
    requires results == [r] + tail && r.Written?
    ensures PrintedAll(results) == SlotPages(r.sheets) + PrintedAll(tail)
  {
    assert results[0] == r && results[1..] == tail;
  }

  /** A clean result before a clean run is a clean run. */
  lemma {:induction false} ConsAllClean(results: seq<MergeOutcome>, r: MergeOutcome, tail: seq<MergeOutcome>)
    requires results == [r] + tail && r.Written? && !r.rangeWarning && AllClean(tail)
    ensures AllClean(results)
  {
    forall j | 0 <= j < |results|
      ensures results[j].Written? && !results[j].rangeWarning
    {
      if j > 0 {
        assert results[j] == tail[j - 1];
      }
    }
  }

  /** A single clean result over the rest of the document is a clean run. */
  lemma {:induction false} LastClean(doc: Document, results: seq<MergeOutcome>, r: MergeOutcome, i: nat, len: nat)
    requires 1 <= i <= |doc| + 1 && len == |doc| + 1 - i
    requires results == [r] + []
    requires r.Written? && !r.rangeWarning && PermutesRange(SlotPages(r.sheets), i - 1, len)
    ensures CleanRun(doc, results, i)
  {
    assert results[1..] == [];
    assert PrintedAll(results) == SlotPages(r.sheets) + [];
    assert PrintedAll(results) == SlotPages(r.sheets);
  }

  /** Above the threshold (and not unipage), an aligned document with an even
      split is printed through chunk jobs that together draw every page exactly
      once, each writing its file without a warning. */
  lemma {:induction false} ChunkedPrintsEveryPageOnce(doc: Document, split: nat, noFolding: bool)
    requires split > 0 && split % 2 == 0 && |doc| % 4 == 0 && |doc| > split
    ensures var out := ProcessSpec(Some(doc), split, noFolding, false);
            out.Chunked? && Clean(out) && PermutesRange(Printed(out), 0, |doc|)
  {
    var jobs := ChunkPlan(|doc|, split, noFolding);
    var results := RunAll(doc, jobs);
    MultipleOfFour(|doc|);
    ChunksFromPrintRest(doc, split, noFolding, 1);
    CleanRunFromStart(doc, results);
    AlignedGoesToDispatch(doc, split, noFolding, false);
    assert DispatchSpec(doc, split, noFolding, false) == Chunked(jobs, results);
  }

  /** A clean run from the first window start covers the whole document. */
  lemma CleanRunFromStart(doc: Document, results: seq<MergeOutcome>)
    requires CleanRun(doc, results, 1)
    ensures AllClean(results) && PermutesRange(PrintedAll(results), 0, |doc|)
  {
  }

  /** The whole pipeline prints every page of the (padded) document exactly
      once, with every run writing its file and no range warning, for any
      non-empty document, any layout mode and any even split threshold. The
      padded document holds the original pages in their order
      (Padding.PaddedLayoutKeepsPages). */
  lemma {:induction false} EveryPagePrintedOnce(doc: Document, split: nat, noFolding: bool, unipage: bool)
    requires split > 0 && split % 2 == 0 && |doc| > 0
    ensures var out := ProcessSpec(Some(doc), split, noFolding, unipage);
            Clean(out) && PermutesRange(Printed(out), 0, |doc| + BlankPagesNeeded(|doc|))
  {
    var k := BlankPagesNeeded(|doc|);
    if k == 0 {
      AlignedPrintsEveryPageOnce(doc, split, noFolding, unipage);
    } else {
      var padded := PaddedDocument(doc, k);
      AlignedPrintsEveryPageOnce(padded, split, noFolding, unipage);
      assert ProcessSpec(Some(doc), split, noFolding, unipage)
          == PaddedFirst(k, ProcessSpec(Some(padded), split, noFolding, unipage));
    }
  }

  /** A non-empty document whose page count is a multiple of four is printed
      once, page by page, on the path ProcessSpec picks for it. */
  lemma {:induction false} AlignedPrintsEveryPageOnce(doc: Document, split: nat, noFolding: bool, unipage: bool)
    requires split > 0 && split % 2 == 0 && |doc| > 0 && |doc| % 4 == 0
    ensures var out := ProcessSpec(Some(doc), split, noFolding, unipage);
            Clean(out) && PermutesRange(Printed(out), 0, |doc|)
  {
    if |doc| > split && !unipage {
      ChunkedPrintsEveryPageOnce(doc, split, noFolding);
    } else {
      AlignedGoesToDispatch(doc, split, noFolding, unipage);
      WholeDocumentPrintsEveryPageOnce(doc, false, noFolding, unipage);
    }
  }
}
