# Booklet imposition for simplex printers, in Dafny

This project models the page-imposition core of `tools/two_page.py`. That file
prints a PDF as a folded or stapled booklet on a printer that cannot print on
both sides. It decides which source page goes into which half of which output
sheet, and it pads the document with blank pages to a multiple of four. For
large documents it also splits the page range into chunk jobs, each with its
own output file.

The model works over integers and sequences:

- `Pages` holds the shared values. A document is the sequence of its pages'
  visible-content boxes (the PDF crop box), with integer coordinates.
- `Writer` is the output writer. It is a class whose page list grows one
  `AddPage` at a time.
- `Plan` holds the plan generators: `generate_print_page_numbers`,
  `generate_fold_pages` and `generate_unipage_pages`. Each one is a method
  that fills an array. Each method is proved equal to a recursive specification
  function, and lemmas state what that plan is: a permutation, pair by pair.
- `Merge` models `merge_pages_for_folding`. It chooses the plan for the
  layout mode, shifts it to 0-based indices, resolves each slot against the
  document, and writes one sheet per pair that names at least one page.
- `Padding` holds the blank-page count and the page order that
  `add_blank_pages_to_pdf` writes.
- `Pipeline` models `process_pdf_for_folding`. It pads once, then either
  builds the chunk jobs or runs one merge over the whole document. The
  end-to-end lemmas prove that every page of the padded document is printed
  exactly once.

File-system checks become parameters. The input file's existence is an
`Option<Document>` or an `inputExists` flag. Writing an output file becomes
the sequence of sheets a merge run produces.

## Model

"Names each page of `a .. b` exactly once" is the predicate `Plan.PermutesRange`:
every value in the range occurs once in the sequence, and every other value
never occurs. `Plan.PermutesRangeAsMultiset` proves, in both directions, that
this is the same as having the multiset of the range, that is, being a
permutation of it.

| member | source | states |
|---|---|---|
| Plan.GeneratePrintPageNumbers | tools/two_page.py:34-50 | fills an array equal to `PrintPageOrder`, or reports the error `range()` raises when the step is zero |
| Plan.PrintPagePair | tools/two_page.py:44-50 | the print order has `2*pages` entries; pair k is `(initPage + k*perSquare + offset, that + 1)`, with offset 0 for mode "first" and 1 otherwise |
| Plan.PrintOrderIsSequentialForTwoPerSquare | tools/two_page.py:44-50 | with two pages per square, the print order is the consecutive range starting at `initPage + offset` |
| Plan.GenerateFoldPages | tools/two_page.py:56-82 | the array loop plus the optional overwrite produce exactly `FoldPlan` |
| Plan.FoldOrderPair | tools/two_page.py:66-76 | pair i joins `start+i` with `start+2*pagesLog-1-i`, left first exactly when (i even and reverse) or (i odd and not reverse) |
| Plan.FoldOrderFirst | tools/two_page.py:69-76 | the first pair is the first and the last page, in the orientation the rule gives pair 0 |
| Plan.FoldOrderInner | tools/two_page.py:66-76 | past the outer pair, the fold order is the fold order of the inner pages with the orientation flipped |
| Plan.FoldOrderIsPermutation | tools/two_page.py:66-76 | without last_skip, the fold order names each page of `start .. start+2*pagesLog-1` exactly once |
| Plan.LastSkipBlanksLastPage | tools/two_page.py:78-80 | with last_skip on a non-empty order, slot `1 if reverse else 0` becomes the blank sentinel 0 and every other entry is unchanged; the overwritten slot held the range's last page |
| Plan.LastSkipPlanIsPermutation | tools/two_page.py:78-80 | the last_skip plan names each page of `start .. start+2*pagesLog-2` exactly once, plus one blank sentinel, and nothing else |
| Plan.LastSkipOnEmptyOrder | tools/two_page.py:78 | last_skip leaves an empty order empty |
| Plan.FoldExample | tools/two_page.py:66-82 | start 1, two sheets, no reverse, no skip gives `[4, 1, 2, 3]` |
| Plan.GenerateUnipagePages | tools/two_page.py:85-95 | the array loop produces exactly `UnipageOrder` |
| Plan.UnipageGroup | tools/two_page.py:90-94 | group g of the unipage order is `[s+4g+3, s+4g, s+4g+1, s+4g+2]` |
| Plan.RotatedPermutes | tools/two_page.py:91-94 | each group names its four pages exactly once |
| Plan.UnipageOrderIsPermutation | tools/two_page.py:89-95 | the unipage order names each page of `s .. s+4n-1` exactly once |
| Plan.UnipageExample | tools/two_page.py:89-95 | one group from page 1 gives `[4, 1, 2, 3]` |
| Merge.PlanLength | tools/two_page.py:107-113 | every mode gives an even number of entries: `2*totalPages` for the sequential and fold plans, `4*(totalPages/2)` for unipage, with no_folding taking precedence over unipage |
| Merge.ZeroBasedRange | tools/two_page.py:107-117 | the 0-based sequential plan is the same range one page lower |
| Merge.ZeroBasedFoldOrder | tools/two_page.py:112-117 | the 0-based fold order is the fold order one page lower |
| Merge.ZeroBasedUnipageOrder | tools/two_page.py:109-117 | the 0-based unipage order is the unipage order one page lower |
| Merge.SkippedSlotStaysBlank | tools/two_page.py:107-135 | after the 0-based shift the blanked slot holds -1, so it never resolves to a page |
| Merge.FormSheet | tools/two_page.py:127-149 | no sheet exactly when neither slot is in `[0, len)`; otherwise the sheet is twice the reference width and the reference height, where the reference is the left page if present and else the right page; left content goes at x=0 and right content at x=base width |
| Merge.OneSidedSheet | tools/two_page.py:132-149 | a pair with one slot blank still yields a sheet, sized from the page it has |
| Merge.SheetsOfInRange | tools/two_page.py:127-141 | when every index names a page, there is one sheet per pair and the sheets draw exactly the planned pages in plan order |
| Merge.SheetsOfAllBlank | tools/two_page.py:138-141 | a plan none of whose indices names a page writes no sheet |
| Merge.SheetsOfCount | tools/two_page.py:127-141 | there is never more than one sheet per pair |
| Merge.SheetsOfDraws | tools/two_page.py:127-198 | for any plan, the sheets draw exactly the indices that name a page, in plan order, and there is one sheet per pair with at least one such index |
| Merge.RangeWarningExact | tools/two_page.py:123-125 | the corrected warning fires exactly when some 0-based index is at or past the page count |
| Merge.RangeWarningAsWrittenMissesLastIndex | tools/two_page.py:123-125 | the comparison `max > len` stays silent for an index equal to the page count, which is already blank |
| Merge.ShortDocumentStillWritten | tools/two_page.py:123-149 | a sequential or fold run that reaches past the end of the document is still written and draws each existing page of its window exactly once; the warning is logged exactly when the largest 0-based index exceeds the page count, while the corrected comparison fires for every such run |
| Merge.MergePagesForFolding | tools/two_page.py:98-208 | returns `MergeSpec`: input missing, aborted on an empty plan (the `max` of an empty list raises), or the written sheets with the warning flag computed as the source does, `max > len` |
| Merge.WriteSheets | tools/two_page.py:127-198 | the loop over index pairs writes exactly `SheetsOf` |
| Merge.WindowPlanPermutes | tools/two_page.py:107-117 | the 0-based sequential or fold plan from page `start` with `oneSide` sheets names each page of `start-1 .. start+2*oneSide-2` exactly once |
| Merge.PermutedWindowPrintsWindowOnce | tools/two_page.py:123-149 | a 0-based plan that names each page of a window inside the document exactly once writes one sheet per pair, draws each page of the window exactly once, and logs no warning |
| Merge.WindowPrintsEveryPageOnce | tools/two_page.py:107-149 | a sequential or fold run whose pages lie in the document writes one sheet per pair, draws each page of its window exactly once, and logs no warning |
| Merge.WholeDocumentPrintsEveryPageOnce | tools/two_page.py:107-149 | for a non-empty document whose page count is a multiple of four, started at page 1 with half as many one-side sheets as pages, all three modes draw every page exactly once on `n/2` sheets |
| Padding.BlankPagesNeeded | tools/two_page.py:304-305 | the padded count is a multiple of four; fewer than four blanks are added; none exactly when the count is already a multiple of four |
| Padding.AddBlankPagesToPdf | tools/two_page.py:218-279 | the three loops write exactly `PaddedLayout`: pages `0..n-2`, then k blanks, then page `n-1` |
| Padding.PaddedLayoutKeepsPages | tools/two_page.py:225-274 | padding writes `n+k` pages, copies source pages `0..n-1` in order, and keeps the original last page last; with `n == 0` it writes only blanks |
| Padding.LayoutFrontIndices | tools/two_page.py:225-227 | the pages before the blanks are source pages `0..n-2`, in order |
| Padding.LayoutBlankIndices | tools/two_page.py:237-270 | the k pages after them copy no source page |
| Pipeline.OneSide | tools/two_page.py:341-342 | the one-side sheet count is the ceiling of half the window's page count |
| Pipeline.ChunkJobs | tools/two_page.py:336-347 | the loop over window starts submits exactly the jobs of `ChunkPlan` |
| Pipeline.ChunkPlanShape | tools/two_page.py:336-346 | job j is the job built for window start `1 + j*split`: it starts there, has part index `j+1` and as many sheets as the ceiling of half its window's page count; every start is a page of the document; the next start after the last job is past the end; the jobs never set last_skip or unipage |
| Pipeline.WindowEnd | tools/two_page.py:337-342 | with an even split and an even page count, a window ends just before the next start, or at the last page for the final window |
| Pipeline.OddSplitWindowsOverlap | tools/two_page.py:336-342 | with an odd split, consecutive windows overlap (8 pages split every 3) |
| Pipeline.OddSplitDropsLastPage | tools/two_page.py:336-342 | 8 pages split every 5 give jobs over pages 1-6 and 6-7; page 8 lies in no window and the chunk runs never draw it |
| Pipeline.OddSplitEmptyJob | tools/two_page.py:336-346 | 4 pages split every 3 give a second job with no sheets, whose merge run aborts |
| Pipeline.JobDrawsOnlyItsWindow | tools/two_page.py:284-285 | a chunk job's run draws no page outside its window |
| Pipeline.IntendedWindowsCoverEveryPage | tools/two_page.py:336-342 | with the window end `min(i + split, total + 1)`, every page lies in the window of the plan's `(p-1)/split`-th job, and that job has at least one sheet and the same part index |
| Pipeline.IntendedMatchesEvenSplit | tools/two_page.py:337-342 | for an even split and an even page count, the intended job equals the job the code submits |
| Pipeline.ChunkPlanExample | tools/two_page.py:336-346 | 200 pages split every 80 give windows at 1, 81 and 161, with 40, 40 and 20 sheets per side and parts 1, 2, 3 |
| Pipeline.ProcessPdfForFolding | tools/two_page.py:288-365 | returns `ProcessSpec`: missing file, one padding pass followed by the padded run, the error on a zero split, the chunk jobs with their results, or the single run |
| Pipeline.RunJobs | tools/two_page.py:334-351 | runs every submitted job and collects all results in submission order |
| Pipeline.PaddingHappensOnce | tools/two_page.py:304-325 | padding happens exactly when `total % 4 != 0`, adds `4 - total % 4` pages (one to three), and the recursive call never pads again |
| Pipeline.AlignedGoesToDispatch | tools/two_page.py:304-333 | a document whose page count is a multiple of four goes straight to the chunk-or-single choice |
| Pipeline.PathSelection | tools/two_page.py:333-365 | chunking runs exactly when `total > split` and not unipage; otherwise the single run starts at page 1 with `total/2` one-side sheets, no last_skip and no part index |
| Pipeline.ChunkedPrintsEveryPageOnce | tools/two_page.py:333-351 | with a positive even split, the chunk jobs together draw every page of an aligned document exactly once, each writing its file without a warning |
| Pipeline.AlignedPrintsEveryPageOnce | tools/two_page.py:333-365 | on an aligned document with a positive even split, whichever path runs draws every page exactly once without a warning |
| Pipeline.EveryPagePrintedOnce | tools/two_page.py:288-365 | for any non-empty document, any layout mode and any positive even split, the pipeline draws every page of the padded document exactly once, and no run aborts or logs a warning |
| Writer.PdfWriter.AddPage | tools/two_page.py:226-227 | adding a page appends it at the end of the output and changes nothing else |

## Left out

- Reading and writing PDFs (`PdfReader`, `PdfWriter.write`, `merge_transformed_page`) and drawing the "Page for blank." text on the padding pages. A sheet records what is drawn in each half and at which x offset. A blank page records only its size.
- Floating-point geometry. Crop boxes are integers here. The `float()` conversions, the 1% height-difference scaling rule and the transformation matrix are not modelled, so a sheet's placements carry no scale factor.
- Per-slot compositing failures (the `try` around each half). The model always composites both halves. Exceptions from the PDF library other than `max()` of an empty plan are not modelled either.
- The `ProcessPoolExecutor` fan-out. Jobs run one after another, and the model keeps only the list of submitted jobs and their results. Concurrency, worker failure and its propagation are not captured.
- Output file naming (the `str.replace` templating), the temporary padded file and its removal, the interactive `input()` prompt and quote stripping, and all logging except the out-of-range warning of a merge run, which the run's outcome records as a flag. The padded document is passed to the recursive call as a value.
- Page counts and one-side counts are `nat`. The source only ever computes them from page counts, so negative values never arise.
- The split threshold is a `nat`. It is a configuration value, and a negative one is not modelled: there `range()` gets a negative step, submits no job and writes nothing.
- `reverse` is never set by the pipeline, and neither is `last_skip`. These flags are modelled in the generators only.
- `tools/four_paper.py`, `tools/page_number_simple.py`, `tools/page_number_graph.py`, `tools/__init__.py`, the CLI, GUI, memory-disk, file-manager and logging modules are not part of this model.
- Pipeline.EveryPagePrintedOnce: proved only for a positive even split threshold. A zero threshold raises at the `range()` call for every non-unipage document with pages (Pipeline.PathSelection). With an odd threshold the windows overlap (Pipeline.OddSplitWindowsOverlap), so some pages are printed twice; the last window can miss the last page (Pipeline.OddSplitDropsLastPage); and a job can be empty, so its run aborts (Pipeline.OddSplitEmptyJob).

## Findings

| source | as written | input that shows it | evidently intended | confidence | as-written member | corrected member |
|---|---|---|---|---|---|---|
| tools/two_page.py:337-338 | the window end `min(i + split, total)` treats the last page as an exclusive bound, so `page_num` for the final window counts one page too few | 8 pages split every 5: jobs over pages 1-6 and 6-7, page 8 is never printed; 4 pages split every 3: the second job has no sheets and its run aborts | `min(i + split, total + 1)`, so every page lies in some window and no job is empty | medium, not executed; only an odd split threshold shows it, the default 80 is even | Pipeline.OddSplitDropsLastPage | Pipeline.IntendedWindowsCoverEveryPage |
| tools/two_page.py:123 | the out-of-range warning compares the largest 0-based index with the page count using `>` | a two-page document merged from page 2 with one fold sheet: indices `[2, 1]`, index 2 is silently blank, and `2 > 2` is false | `>=`, since index `len` is already past the last page | medium, not executed; the warning is log-only | Merge.RangeWarningAsWrittenMissesLastIndex | Merge.RangeWarningExact |
