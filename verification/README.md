# pdf-remove-blank, page bookkeeping

`removeblank.js` removes visually blank pages from a PDF file. It renders every page, scores it with a
contrast value, and collects the 1-based ordinals of the pages whose score is strictly below the threshold
`SEUIL_CONTRASTE = 0.01`. The ordinals are collected in page order. It then re-loads the document,
reverses the list and calls `removePage(i - 1)` for each ordinal `i`, so the highest ordinal goes first.
Finally it writes the document back.

This project models the two pieces of bookkeeping in that program and proves them correct:

- `ContrastScan` (`contrast_scan.dfy`) models the collection loop. The score of page `i` is an input,
  `scores[i - 1]`. `BlankOrdinals` is its specification, and `CollectBlankOrdinals` is the loop.
- `PageRemoval` (`page_removal.dfy`) models the removal loop. `PdfDocument` is a class whose `pages`
  sequence `RemovePage` shrinks in place. `RemoveOrdinals` reverses the list. It then hands the list to
  `RemoveInPlanOrder`, the `forEach` loop that removes position `i - 1` for each ordinal. The result is
  proved equal to `Retained`, a pure "drop these ordinals" filter.
- `Ordinals` (`ordinals.dfy`) holds what both loops say about ordinal lists: ascending and descending
  order, the set of elements, and `Reverse`.
- `RemoveBlank` (`remove_blank.dfy`) puts both passes together. It proves that the document ends up with
  exactly the pages whose own score is not below the threshold (`NonBlankPages`), in their original
  order.

The argument for the removal order works like this. The list is built in ascending order, so after
`reverse()` it is strictly descending. When ordinal `k` comes up, every page removed so far had a higher
ordinal. So position `k - 1` still holds original page `k` and is in bounds (`RemoveBelowDropped`).
Removing in ascending order instead deletes the wrong page (`AscendingRemovalHitsWrongPage`).

`ThreePageDocument` is a client of these contracts. It takes a three-page document whose outer pages
score 0.0 and whose middle page scores 0.15. From the contracts alone it proves that ordinals `[1, 3]`
are collected, that `RemovePage` is called on positions 2 then 0 (ordinals 3 then 1), and that only
page 2 is left.

## Model

| member | source | states |
|---|---|---|
| `ContrastScan.CollectBlankOrdinals` | removeblank.js:70-113 | The loop over pages `1..nbPages` returns `BlankOrdinals(scores)`. The result is strictly ascending. Ordinal `k` is in it exactly when `1 <= k <= nbPages` and page `k` scores below 0.01. |
| `ContrastScan.BlankOrdinalsMembership` | removeblank.js:110-113 | An ordinal is collected if and only if it names a page whose score is strictly below the threshold. This also bounds every collected ordinal to `[1, nbPages]`. |
| `ContrastScan.BlankOrdinalsAscending` | removeblank.js:71-113 | The collected ordinals are strictly ascending, so none appears twice, because they are pushed in loop order. |
| `ContrastScan.ScoreAtThresholdIsKept` | removeblank.js:111 | A page whose score equals the threshold exactly is not collected, because the comparison is strict. |
| `ContrastScan.NoBlankScoreCollectsNothing` | removeblank.js:111-113 | If no score is below the threshold, the collected list is empty. |
| `ContrastScan.AllBlankCollectsEveryOrdinal` | removeblank.js:72-113 | If every score is below the threshold, the list is `[1, 2, ..., nbPages]`. No first or last page is exempt. |
| `Ordinals.Reverse` | removeblank.js:119 | `reverse()` keeps the length and puts element `|s| - 1 - i` at position `i`. |
| `Ordinals.ReverseOfAscending` | removeblank.js:119 | Reversing the strictly ascending list gives a strictly descending list with the same ordinals. |
| `Ordinals.AscendingDeterminedByElements` | removeblank.js:111-113 | Two strictly ascending lists with the same elements are equal. |
| `ContrastScan.BlankOrdinalsUnique` | removeblank.js:71-113 | Any strictly ascending list that holds exactly the blank ordinals is the collected list. So the ordered list that is pushed is fixed by the set of blank pages, and the order and membership clauses of `CollectBlankOrdinals` determine its result. |
| `PageRemoval.PdfDocument.Load` | removeblank.js:118 | A loaded document holds the decoded pages in order. |
| `PageRemoval.PdfDocument.RemovePage` | removeblank.js:120 | `removePage(index)` deletes exactly the page at 0-based `index` and keeps the others in order. An index outside the document is refused and changes nothing. |
| `PageRemoval.RemoveOrdinals` | removeblank.js:119-121 | Reversing the ascending list and removing in that order leaves `Retained(original, ordinals)`: the original pages whose ordinals were not collected, in their original order. The page count drops by the number of ordinals. The positions removed, in call order, are the reversed ordinals minus one, and they are strictly descending. |
| `PageRemoval.RemoveInPlanOrder` | removeblank.js:119-121 | The `forEach` over a strictly descending list of in-range ordinals calls `removePage(i - 1)` for each one, in list order, and every call is in bounds. It leaves `Retained(original, plan)`, with the page count reduced by the length of the list. |
| `PageRemoval.RemovalStep` | removeblank.js:119-120 | Before each removal of ordinal `k` from the descending plan, position `k - 1` is in bounds of the already shrunk document. Deleting it leaves exactly the original pages that survive the plan entries up to and including `k`. |
| `PageRemoval.RemoveBelowDropped` | removeblank.js:119-120 | Suppose every ordinal removed so far is above `k`. Then position `k - 1` still holds original page `k` and is in bounds. Deleting that position gives the same result as also dropping ordinal `k` from the original. |
| `PageRemoval.RetainedLength` | removeblank.js:118-121 | After removal, the page count is the original count minus the number of dropped ordinals that name a page. |
| `PageRemoval.RetainedNothingDropped` | removeblank.js:119-121 | Dropping no ordinal that names a page leaves the document unchanged. |
| `PageRemoval.RetainedAgreeingDrops` | removeblank.js:119-121 | The result depends only on which of the ordinals `1..n` are dropped. |
| `RemoveBlank.RemoveBlankPages` | removeblank.js:70-121 | Both passes together return `BlankOrdinals(scores)`. They leave the document with exactly `NonBlankPages(original, scores)`, and with `nbPages` minus the number of collected ordinals pages. The positions removed, in call order, are strictly descending: the reversed ordinals minus one. |
| `RemoveBlank.DroppingBlankOrdinalsKeepsNonBlankPages` | removeblank.js:110-121 | Dropping the collected ordinals keeps exactly the pages whose own score is not below the threshold, in order. |
| `RemoveBlank.NoBlankPageKeepsDocument` | removeblank.js:119-121 | If no page scores below the threshold, the document keeps every page, unchanged and in order. |
| `RemoveBlank.TwoAndFourOfFive` | removeblank.js:119-121 | Removing ordinals {2, 4} from five pages leaves pages 1, 3 and 5. |
| `RemoveBlank.AscendingRemovalHitsWrongPage` | removeblank.js:119-120 | Without the reversal, removing positions 1 then 3 from pages 1..5 leaves pages 1, 3, 4. That differs from the intended 1, 3, 5, which is why the reversal matters. |

## Left out

- Rendering each page to a canvas, the canvas factory and its teardown (removeblank.js:6-41, 73-85). These are calls into the rendering libraries.
- The contrast score itself: BT.709 luma, mean and population standard deviation over 255 (removeblank.js:88-106). Each page's score is an input to the model.
- Scores and the threshold are exact reals, not IEEE doubles. The literal 0.01 is not exactly representable as a double, and that difference is not modelled. A page rendered with zero area divides 0 by 0 (removeblank.js:96, 105), so its score is NaN. `NaN < 0.01` is false, so that page is kept. The model has no NaN, but a score of 0.01 or more gives the same outcome.
- Argument checking, console output, and reading and writing the file (removeblank.js:49-58, 108, 115, 125). These are process I/O.
- Decoding the PDF and serializing it with `save()` (removeblank.js:61-67, 118, 122). A document is only an ordered sequence of opaque pages.
- `RemoveBlank.RemoveBlankPages` requires the loaded document to have as many pages as there are scores. It also pairs `scores[k - 1]` with `doc.pages[k - 1]`. The source makes the same two assumptions. It assumes that the rendering library (`getPage(k)`, removeblank.js:73) and the editing library (page `k - 1`, removeblank.js:118-120) decode the same bytes to the same number of pages, in the same order.
- `PageRemoval.PdfDocument.RemovePage`: the PDF library throws on an out-of-range index, and the model returns `false` instead. The removal loop is proved never to reach that case. The PDF library itself is not part of this model.
- `reverse()` reverses the JavaScript array in place. The model replaces the list with its reversal as a value. Nothing else holds that array, so no aliasing is lost.
- The threshold is a fixed constant, as in the code. A configurable threshold is not modelled.
- Async/await sequencing and error propagation through rejected promises are not modelled.
