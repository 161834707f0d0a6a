# BrickKit lazy section layout, in Dafny

BrickKit lays out "bricks" (collection-view cells) in sections. A
`BrickLayoutSection` owns one section: its number of items, a sparse map
from item index to layout attributes (a missing index is an item not
computed yet), the section frame and the section width. Attributes are
computed lazily. Every mutator ends in one pass, `createOrUpdateCells`, which
works as follows:

- It resumes a packing cursor from the items already laid out.
- It packs items into rows in index order. An item wraps to the next row when
  it does not fit the section width.
- It stops at the first new item whose origin falls outside the data
  source's frame of interest.
- It then aligns the heights of the last row and forces the data source's
  downstream items.
- Finally it recomputes the section frame. The height is exact when every item
  is computed and extrapolated from the computed fraction otherwise.

The read side answers rectangle queries. A lower-bound binary search finds an
index near the rectangle's top, and two scans around it collect the
intersecting items. The project also models two utilities:

- the brick width formula and the backward row scan of `BrickUtils`;
- the generic exact-match binary search.

Files:

- `geometry.dfy`: points, sizes, edge insets and rectangles over exact reals.
  Minima, maxima, width and height are standardized (a negative size is
  read as its absolute value). `Contains` is half-open, and
  `Intersects` holds when the open intervals overlap on both axes (shared
  edges do not count).
- `layout_model.dfy`: the values the section works on: an item's
  attributes, the data source as a fixed table, the packing cursor and the
  height override. It also holds the specification predicates of a pass
  (`Computed`, `PassDone`, `LogHasNewKeys`, the downstream run `FreshRun`,
  the row alignment `RowAligned`), of a rectangle query (`RectQueryResult`,
  `ClosestIndex`) and of the resumed cursor (`RowBottom`), together with
  the section height arithmetic and the two loops that, as written, can run
  forever.
- `brick_layout_section.dfy`: the class `BrickLayoutSection`. Its fields are
  the ones the source mutates: `numberOfItems`, `attributes`, `frame` and
  `sectionWidth`, plus `created`, the log of the delegate's creation
  notifications. Every mutator and every step of the pass is a method with
  loops and frames, and each is specified against the predicates above. The
  packing cursor is specified by `Walk`, the cursor after placing a list of
  items in order. `Walked` states a whole pass: its cursors, where every item
  it lays out is placed (`PlacedAt` for the forward walk, `ForcedAt` for the
  downstream items), and the culling in both directions: a new item of the
  forward walk had its origin inside the frame of interest, and the walk
  stopped at the first new one whose origin is outside it.
- `brick_utils.dfy`: `calculateWidth` as a function, and `findRowMaxY` as a
  method with its loop.
- `binary_search.dfy`: `binarySearch` as a method over a sequence of
  integers.
- `wrappers.dfy`: `Option`.

## Model

| member | source | states |
|---|---|---|
| LayoutSection.BrickLayoutSection.constructor | Source/Layout/BrickLayoutSection.swift:82-102 | a new section has no attributes, the given count, width and data source, and a frame at the origin with the section width and height 0 |
| LayoutSection.BrickLayoutSection.UpdateHeightForRowsFromIndex | Source/Layout/BrickLayoutSection.swift:556-579 | no-op for a negative or absent index; otherwise exactly the contiguous run `[lo, index]` of computed items sharing the original top of `index` gets frame height `maxHeight`, the run stops at another row or a hole, nothing else and no original frame changes; where the loop as written terminates it stops at the same `lo` |
| LayoutSection.BrickLayoutSection.CreateAttribute | Source/Layout/BrickLayoutSection.swift:547-554 | stores a fresh attribute under its own index, keeping every key an item of the section, with the data source's identifier and estimate flag, visible and opaque, and zero frames |
| LayoutSection.BrickLayoutSection.WrapRow | Source/Layout/BrickLayoutSection.swift:425-443 | the placement is `Placement`: in vertical flow an item wraps when `x + width - origin.x > sectionWidth - right inset`, to `maxY + inset` when `maxY > y` and to the left inset; horizontal flow never wraps; only row alignment touches attributes, and only reported frame tops and heights below `index` |
| LayoutSection.BrickLayoutSection.FillAttribute | Source/Layout/BrickLayoutSection.swift:474-542 | the item is `Computed`: a new one takes identity, estimate flag, z-index and size from the data source and is logged; an existing one is reset when invalidating, and, when its standardized width equals the requested width and the pass does not invalidate, keeps its standardized height (or the override's); the original frame sits at the placement, the frame is shifted by the parent offset, alpha is 0 exactly when hidden |
| LayoutSection.BrickLayoutSection.CreateOrUpdateAttribute | Source/Layout/BrickLayoutSection.swift:416-545 | the item is laid out exactly when it already exists, is forced, or its shifted origin lies in the frame of interest; otherwise no key is added or logged and the cursor stays (row alignment may still have run); a laid-out item is `Computed` and logged only when new; the cursor advances past it only when it is visible with positive height or the section is hidden |
| LayoutSection.BrickLayoutSection.ResumeCursor | Source/Layout/BrickLayoutSection.swift:279-337 | `ResumesAt`: with no attributes or from item 0 the cursor starts inside the start frame's insets; otherwise it starts right of the nearest visible computed item below `firstIndex` (all items between are hidden), and `maxY` is `RowBottom` from `lowest`, which is 0 or the nearest visible item on another row than the one of `firstIndex` (or of the first item found), with every visible item between on that row; `maxY` is never above the start frame's top; when every earlier item is hidden, start and `maxY` are those of the start frame |
| LayoutSection.BrickLayoutSection.ScanBack | Source/Layout/BrickLayoutSection.swift:294-320 | the backward scan: the first visible item found gives the start; the scan ends at `lowest`, which is 0 or the first visible item met on another row than the one of `firstIndex` (or of the first item found), every visible item above it being on that row; `maxY` is `RowBottom` over `[lowest, firstIndex)`, that row included; with every earlier item hidden the scan changes neither start nor `maxY` |
| LayoutModel.RowBottomIsMax | Source/Layout/BrickLayoutSection.swift:282-320 | the resumed `maxY` is at least the start frame's top, bounds every visible bottom scanned, and equals one of them or the start top |
| LayoutSection.BrickLayoutSection.PackFrom | Source/Layout/BrickLayoutSection.swift:339-350 | the forward walk lays out every index in `[firstIndex, stop)`; it stops only at the end or at an index not computed before whose shifted origin, placed from the cursor the walk ended with, lies outside the frame of interest (`StoppedAt`); the cursor it ends with is `Walk` over `[firstIndex, stop)` from the cursor it started with, each laid-out item advancing it as `createOrUpdateAttribute` does; every new key lies in that range and is logged once; the pass invariant `PassDone` holds; every item of the range is `PlacedAt` the place the walk over the items before it gives, and one not computed before had its shifted origin inside the frame of interest (all of it the state `Packing`) |
| LayoutSection.BrickLayoutSection.PackStep | Source/Layout/BrickLayoutSection.swift:346-350 | one loop step moves `Packing` (the pass invariant, the log, the cursor's `Walk` and the placements) past `index` exactly when the item is laid out; a refused index was not computed before the pass, its shifted origin lies outside the frame of interest (`StoppedAt`) and the cursor stays |
| LayoutSection.BrickLayoutSection.LaidOutStep | Source/Layout/BrickLayoutSection.swift:346-350 | an item laid out at the place the walk gives, computed before or with its origin inside the frame of interest, extends `LaidOut` by one index, the earlier items keeping their places |
| LayoutSection.BrickLayoutSection.ForcedStep | Source/Layout/BrickLayoutSection.swift:360-366 | a downstream item created at the place the walk over the ones before it gives extends `ForcedRun` by one item |
| LayoutSection.BrickLayoutSection.StackedWalk | Tests/Layout/LazyLoadingTests.swift:59-62 | in the lazy-loading section (100 full-width items 100 points high, no insets), the walk over the first `j` laid-out items ends right of item `j - 1`, at its top, with the bottom at `100 j` |
| LayoutSection.BrickLayoutSection.FiveOfHundred | Tests/Layout/LazyLoadingTests.swift:59-63 | in that section, a pass from item 0 over nothing computed, with the frame of interest 320 by 500, stops at item 5 and creates exactly items 0 to 4 |
| LayoutModel.PassStep | Source/Layout/BrickLayoutSection.swift:346-350 | computing one more item, while the others keep their layout, extends `PassDone` by one index, including the override's height for reused estimates |
| LayoutModel.PassDoneKept | Source/Layout/BrickLayoutSection.swift:352-393 | row alignment and origin compensation, which only move reported frame tops and heights, keep what the pass has done |
| LayoutSection.BrickLayoutSection.CreateDownstream | Source/Layout/BrickLayoutSection.swift:357-367 | the new keys are exactly the items of `FreshRun`, the downstream items up to the first one already computed, created in order regardless of the frame of interest; items computed before keep their layout; each new key is logged once; the cursor ends as `Walk` over that run from the one it started with, and each created item is `ForcedAt` the place the walk over the ones before it gives (`ForcedRun`) |
| LayoutModel.FreshRun | Source/Layout/BrickLayoutSection.swift:357-367 | the run is the longest prefix of the downstream list whose items were not computed before and do not repeat an earlier one; the item after it, if any, is computed or a repeat, which is where the loop breaks |
| LayoutSection.BrickLayoutSection.AlignLastRow | Source/Layout/BrickLayoutSection.swift:352-355 | with row heights aligned, the row ending at the last computed item (`attributes.count - 1`) is aligned to height `maxY - y` of the cursor (`RowAligned`: exactly the run `[lo, attributes.count - 1]` of computed items sharing its original top gets that frame height); without alignment nothing changes; every item keeps its layout and the key set stays |
| LayoutSection.BrickLayoutSection.LayOutItems | Source/Layout/BrickLayoutSection.swift:339-367 | the item steps of a pass (`WalkedFrom`): the forward walk covers `[firstIndex, stop)` and ends at `atStop`, the `Walk` of that range from the start cursor, stopping as `StoppedAt` says; the keys after are exactly those before, that range and `FreshRun`; the final cursor is the `Walk` of `FreshRun` from `atStop`; every item of the range is `PlacedAt` its walk position, a new one only with its origin inside the frame of interest (`LaidOut`), and every downstream item is `ForcedAt` its place (`ForcedRun`); each new key is logged once and `PassDone` holds over `[firstIndex, stop)` |
| LayoutSection.BrickLayoutSection.ResumeAndLayOut | Source/Layout/BrickLayoutSection.swift:279-367 | the same guarantees as `LayOutItems` (`Walked`), with the walk started from a cursor that `ResumesAt` states: the one the backward scan of `ResumeCursor` finds |
| LayoutModel.LogStep | Source/Layout/BrickLayoutSection.swift:525-527 | the delegate is told about an item exactly when it was not computed before |
| LayoutModel.LogTrans | Source/Layout/BrickLayoutSection.swift:346-367 | the creation logs of the forward walk and of the downstream step add up to a log of exactly the new keys, each once |
| LayoutSection.BrickLayoutSection.CreateOrUpdateCells | Source/Layout/BrickLayoutSection.swift:268-414 | without a data source nothing changes; otherwise no key is lost, new keys are in `[firstIndex, stop)` or downstream, every new key is logged exactly once, every index in `[firstIndex, stop)` is `Computed`, items outside keep their layout, the walk stopped at the end or at a new item outside the frame of interest (`StoppedAt`, with the frame before the pass), the pass is `Walked` from the resumed cursor (cursors, the place of every laid-out item, a new item of the forward walk only with its origin inside the frame of interest), and the frame is `FrameAfterPass` of the cursor `last` the pass ended with |
| LayoutSection.BrickLayoutSection.WalkIsMax | Source/Layout/BrickLayoutSection.swift:531-537 | the cursor's bottom edge after placing items is the largest of the start's and the bottoms of the placed items that advance the cursor; the cursor ends on the row of the last placed item, right of it past one inset when it advances the cursor |
| LayoutSection.BrickLayoutSection.PassBottomIsMax | Source/Layout/BrickLayoutSection.swift:339-367 | the bottom edge a pass ends with, from which the section height is measured, is never above the resumed cursor's, bounds the bottom of every item the pass placed that advances the cursor, and is one of those bottoms or the resumed one |
| LayoutSection.BrickLayoutSection.FinishPass | Source/Layout/BrickLayoutSection.swift:369-406 | the frame step keeps the key set, the log and `PassDone`, and leaves the frame `FrameAfterPass` |
| LayoutSection.BrickLayoutSection.UpdateSectionFrame | Source/Layout/BrickLayoutSection.swift:369-406 | with the first item computed, top = its original top minus the top inset and height = `SectionHeight`; otherwise the top stays and the height is 0; width = section width (vertical) or `x - inset + right inset` (horizontal); attributes keep their layout |
| LayoutSection.BrickLayoutSection.MoveSectionTop | Source/Layout/BrickLayoutSection.swift:382-393 | only the frame's top changes, to the first item's top minus the top inset; attributes keep their layout and count |
| LayoutSection.BrickLayoutSection.CompensateOrigin | Source/Layout/BrickLayoutSection.swift:388-392 | exactly the reported frames of the items below `firstIndex` move up by the origin difference |
| LayoutModel.SectionHeight | Source/Layout/BrickLayoutSection.swift:371-398 | the height is either 0 or above the vertical insets |
| LayoutModel.SectionHeightComplete | Source/Layout/BrickLayoutSection.swift:378-398 | with every item computed the height is the extent plus both vertical insets, or 0 for a non-positive extent |
| LayoutModel.SectionHeightExtrapolates | Source/Layout/BrickLayoutSection.swift:373-377 | with `count` of `n` items computed, an unclamped height times `count` equals `(extent + inset) * n` |
| LayoutModel.LazyLoadingSectionHeights | Tests/Layout/LazyLoadingTests.swift:59-81 | the heights 10000, 5000 and 11000 the lazy-loading tests expect |
| LayoutModel.MaxKey | Source/Layout/BrickLayoutSection.swift:135-140 | `keys.maxElement()` of a non-empty key set is a key and bounds every key |
| LayoutModel.KeysBelowBound | Source/Layout/BrickLayoutSection.swift:104-143 | a section never holds more attributes than items, so `attributes.count` is a valid start index |
| LayoutSection.BrickLayoutSection.RemoveAttributesFrom | Source/Layout/BrickLayoutSection.swift:116-124 | the shrink loop, corrected: exactly the attributes with index below `n` remain, unchanged |
| LayoutSection.BrickLayoutSection.SetNumberOfItems | Source/Layout/BrickLayoutSection.swift:104-128 | same count: no change; growing packs on from `attributes.count` without invalidating, logs exactly the new keys, `PassDone` holds and the pass is `Walked` (placements and culling both ways included); shrinking keeps exactly the attributes below `n` (`Truncated`) and re-packs them from their count, invalidating, with `PassDone` and `Walked` relative to them; after a pass the frame is `FrameAfterPass` of its final cursor |
| LayoutSection.BrickLayoutSection.AppendItem | Source/Layout/BrickLayoutSection.swift:130-133 | one more item, re-packed from `attributes.count` with invalidation: `PassDone` from there, with the cursors of `Walked` (placements and culling both ways included); no key lost, new keys logged once; after a pass the frame is `FrameAfterPass` of its final cursor |
| LayoutSection.BrickLayoutSection.DeleteLastItem | Source/Layout/BrickLayoutSection.swift:135-143 | no-op on an empty map; otherwise exactly the largest key is removed, the count drops by one, every other key stays, and the remaining attributes are re-packed from their count with invalidation: `PassDone` and `Walked` (placements and culling both ways included) relative to them; after a pass the frame is `FrameAfterPass` of its final cursor |
| LayoutSection.BrickLayoutSection.OffsetFrames | Source/Layout/BrickLayoutSection.swift:165-177 | every attribute is `Moved`: its frame by the offset, its original frame too unless the move comes from behaviors; keys unchanged |
| LayoutSection.BrickLayoutSection.SetOrigin | Source/Layout/BrickLayoutSection.swift:146-163 | the same origin changes nothing; otherwise the frame origin becomes `origin`, its size stays, and every attribute moves by the delta, original frames only when not from behaviors |
| LayoutSection.BrickLayoutSection.InvalidateAttributes | Source/Layout/BrickLayoutSection.swift:187-189 | a pass from 0 with invalidation: `PassDone` from item 0, stopping only at the end or at a new item outside the frame of interest (`Walked` (placements and culling both ways included)), no key lost, new keys logged; vertical frame width is the section width; after a pass the frame is `FrameAfterPass` of its final cursor |
| LayoutSection.BrickLayoutSection.SetSectionWidth | Source/Layout/BrickLayoutSection.swift:180-185 | the same width changes nothing; a new width is stored and everything is re-packed from 0 with invalidation under that width, with `PassDone` and `Walked` (placements and culling both ways included); after a pass the frame is `FrameAfterPass` of its final cursor |
| LayoutSection.BrickLayoutSection.UpdateHeight | Source/Layout/BrickLayoutSection.swift:191-216 | absent index: no change; a height equal to the standardized one: only the estimate flag is cleared; otherwise the new height is stored and a pass from `index` runs with the override (`PassDone`, `Walked` (placements and culling both ways included)), after which the item is not an estimate and, when its width is unchanged, has the reported height, standardized; after a pass the frame is `FrameAfterPass` of its final cursor |
| LayoutModel.PassKeepsReportedHeight | Source/Layout/BrickLayoutSection.swift:198-215 | the item that reported its height is no longer an estimate, so the override never applies to it: it stays exact through the pass and keeps the reported height, standardized, when its width is unchanged |
| LayoutModel.OverrideHeight | Source/Layout/BrickLayoutSection.swift:205-215 | the override supplies a height exactly for an estimated item sharing the reporting item's identifier, and that height is the reporting item's standardized, non-negative height |
| LayoutSection.BrickLayoutSection.InvalidateAt | Source/Layout/BrickLayoutSection.swift:218-237 | the item is reset to an estimate sized afresh by the data source; the re-pack from `index` covers `index` with `PassDone` relative to the reset attributes and is `Walked` (placements and culling both ways included); the item ends an estimate with the data source's size, standardized; after a pass the frame is `FrameAfterPass` of its final cursor |
| LayoutModel.PassKeepsQueriedSize | Source/Layout/BrickLayoutSection.swift:503-513 | an item already holding the data source's size keeps that size, standardized, and its estimate flag through a pass, whether its height is reused or re-queried |
| LayoutSection.BrickLayoutSection.ChangeVisibility | Source/Layout/BrickLayoutSection.swift:239-246 | absent index: no change; otherwise the hidden flag is set, alpha follows it, and a pass from `index` runs over the changed attributes (`PassDone`, `Walked` (placements and culling both ways included)); after a pass the frame is `FrameAfterPass` of its final cursor |
| LayoutSection.BrickLayoutSection.ContinueCalculatingCells | Source/Layout/BrickLayoutSection.swift:255-266 | complete section or no data source: no change; otherwise a pass from `attributes.count - downstream count` without invalidating, with `PassDone` and with the cursors of `Walked` (placements and culling both ways included); after a pass the frame is `FrameAfterPass` of its final cursor |
| LayoutSection.BrickLayoutSection.FindEstimatedClosestIndex | Source/Layout/BrickLayoutSection.swift:628-647 | the result lies in `[0, attributes.count]`; on sorted tops every computed item below it starts above the rect; on sorted tops without holes every item from it on starts at or below, so it is the first such index |
| LayoutSection.BrickLayoutSection.CollectAbove | Source/Layout/BrickLayoutSection.swift:598-616 | exactly the items of `[lo, closest)`, nearest first, all intersecting; the scan stops just before a hole or a non-intersecting item |
| LayoutSection.BrickLayoutSection.CollectBelow | Source/Layout/BrickLayoutSection.swift:598-623 | exactly the items of `[closest, hi)` in order, all intersecting; the scan stops at a hole, a non-intersecting item or `attributes.count` |
| LayoutModel.JoinRuns | Source/Layout/BrickLayoutSection.swift:612-625 | the two runs concatenated are a `RectQueryResult` |
| LayoutSection.BrickLayoutSection.LayoutAttributesForElementsInRect | Source/Layout/BrickLayoutSection.swift:586-626 | empty map: empty result; the closest index is where the binary search lands (`ClosestIndex`: on sorted tops every computed item before it starts above the rect, and without holes every item from it on starts at or below); the result is a `RectQueryResult`: the contiguous run `[lo, hi)` around the closest index, every returned frame intersects the rect, and each run ends at a miss or a hole |
| LayoutModel.TwentyRowsAtTop | Tests/Layout/BrickLayoutSectionBinarySearchTests.swift:46-54 | over 20 stacked items of height 50, the query for the 320 by 480 rect at the top returns items 0 to 9 |
| LayoutModel.TwentyRowsHalfItemDown | Tests/Layout/BrickLayoutSectionBinarySearchTests.swift:56-58 | with the rect 25 points down, the search lands on item 1 and the query returns items 0 to 10 |
| LayoutModel.TwentyRowsFromScreenDown | Tests/Layout/BrickLayoutSectionBinarySearchTests.swift:60-62 | with the rect 480 points down, the search lands on item 10 and the query returns items 9 to 19 |
| LayoutModel.RectQueryDistinct | Source/Layout/BrickLayoutSection.swift:612-623 | a rect query reports every item at most once |
| LayoutModel.ShrinkAsWritten | Source/Layout/BrickLayoutSection.swift:116-124 | the shrink loop as written: when it ends, the map has exactly `n` entries taken from the old keys |
| LayoutModel.ShrinkAsWrittenSpins | Source/Layout/BrickLayoutSection.swift:116-119 | shrinking three items with one computed to two never ends |
| LayoutModel.ShrinkAsWrittenKeepsStaleKey | Source/Layout/BrickLayoutSection.swift:116-124 | shrinking to three with items 0, 1, 7 computed keeps item 7 past the new end |
| LayoutModel.RowWalkAsWritten | Source/Layout/BrickLayoutSection.swift:560-578 | the row walk as written: a result `lo` is the lowest index of the run of computed items at the row's top ending at `index`, the item below it (if any) being on another row; no result means a missing index ends that run |
| LayoutModel.RowWalkAsWrittenSpinsOnHole | Source/Layout/BrickLayoutSection.swift:562-565 | with items 0 and 2 in one row and 1 not computed, the walk from 2 never ends |
| BrickUtils.CalculateWidth | Source/Utils/BrickUtils.swift:30-34 | a full-ratio brick is the total width; without insets the width is the proportional share |
| BrickUtils.ColumnsFillRow | Source/Utils/BrickUtils.swift:31-33 | `n` equal columns and the `n - 1` insets between them fill the total width exactly |
| BrickUtils.FindRowMaxY | Source/Utils/BrickUtils.swift:42-71 | nil exactly when `itemIndex > count`, `itemIndex == 0` or `itemIndex - 1` is absent; a result is the entry at `itemIndex - 1` or a visible entry below it; when that entry is visible with positive height it is returned at once, since it is first compared with itself; otherwise the result is the row maximum (its bottom bounds that of `itemIndex - 1` and of every visible entry below) or a visible entry that does not start at the bottom of a scanned entry |
| BinarySearch.BinarySearch | Source/Utils/BinarySearch.swift:11-25 | a found index holds the key; on a sorted array it misses exactly when the key is absent; an empty array gives nil |

## Left out

- Floating point: `CGFloat` is modelled as exact reals, so rounding, infinities and NaN are not modelled.
- BrickUtils.CalculateWidth: requires a non-zero `ratio` and `widthRatio`; in floating point a zero divisor gives an infinity or NaN width, which exact reals cannot represent.
- UIKit types: `NSIndexPath`, `UICollectionViewLayoutAttributes` and the attribute objects' reference identity are not modelled. Attributes are values in a map, so aliasing between the section and its callers is not modelled.
- Data source: modelled as a fixed table (`DataSource`), read once per pass.
- `prepareForSizeCalculation` (:501) is not modelled: it is an opaque hook.
- Callbacks: the `updatedAttributes` and `removedAttributes` callbacks are not modelled. The delegate's creation notification is modelled as the `created` log.
- Weak references:
  - `dataSource` is a constant `Option`. Absent means every pass is a no-op. A data source that goes away during the section's life is not modelled.
  - The delegate is always present.
- `sectionAttributes` is a constant holding only the parent's original frame and its hidden flag. The section never reassigns it; another object reassigning it is not modelled.
- `OnlyCalculateFrameOfInterest` is the constant `true` in the source, so the model always culls and always forces downstream items.
- Z-index: both z-index behaviours (:494-496, :521-523) copy the data source's value when an item is created or invalidated. The model sets it once, without distinguishing the behaviour.
- Diagnostics and debug output are not modelled:
  - the debug prints (:196, :296, :408-413, :417, :537-539, :573);
  - the `findRowMaxY` comparison that only prints (:322-327);
  - the `else` scan at :328-336, which never runs (`0..<0` is empty).
- Shrinking a section: the loop as written (:116-124) can spin or keep a stale key; the class uses the corrected `RemoveAttributesFrom` (see Findings).
- Row alignment: the walk as written (:562-565) spins on a hole; the class stops the walk at a missing index (see Findings).
- LayoutSection.BrickLayoutSection.InvalidateAt: the source stops with `fatalError` when there is no data source or the index is absent; the model requires both.
- LayoutSection.BrickLayoutSection.ContinueCalculatingCells: with more downstream items than computed ones the start index is negative. With some items computed, the source then traps forming the range `0..<firstIndex` (:330). With none computed, it would create items at negative indices. The model requires that neither happens.
- LayoutSection.BrickLayoutSection.SetNumberOfItems: for a shrink, the log is stated only as growing by the new keys, not as holding each once.
- LayoutSection.BrickLayoutSection.DeleteLastItem: the contract does not state the creation log of the re-pack.
- LayoutSection.BrickLayoutSection.DownstreamFits: every method that runs a pass (`CreateOrUpdateCells`, `SetNumberOfItems`, `AppendItem`, `DeleteLastItem`, `InvalidateAttributes`, `SetSectionWidth`, `UpdateHeight`, `InvalidateAt`, `ChangeVisibility`, `ContinueCalculatingCells`) requires the data source's downstream indices to be items of the section. The source does not check this (Source/Layout/BrickLayoutSection.swift:357-367): it would create an attribute outside the section, which the model's invariant `Valid` (every key is an item of the section) rules out.
- BrickUtils.FindRowMaxY: beyond the immediate return of the entry at `itemIndex - 1`, the contract says the result is the row maximum or a visible entry off a scanned bottom, not which of the two the scan reaches.
- LayoutSection.BrickLayoutSection.LayoutAttributesForElementsInRect: the contract does not state that every computed item intersecting the rect is returned. The two scans stop at the first miss, so that holds only where the intersecting items are contiguous around the closest index, a condition the model does not characterise. The one-column index lists of the binary-search tests are lemmas (`TwentyRowsAtTop`, `TwentyRowsHalfItemDown`, `TwentyRowsFromScreenDown`); the cases with an inset and with two columns are not restated.
- Lazy loading: only the one-column count (Tests/Layout/LazyLoadingTests.swift:59-63) is restated, as `FiveOfHundred`. The two-column count and the inset cases are not. The section frame heights the tests expect are `LazyLoadingSectionHeights`.
- BinarySearch.BinarySearch: the search is generic over `Comparable` in the source and over integers here.
- Integer overflow of Swift's `Int` is not modelled: counts and indices are unbounded.

## Findings

| source | as written | input that shows it | evidently intended | confidence | as-written member | corrected member |
|---|---|---|---|---|---|---|
| Source/Layout/BrickLayoutSection.swift:116-119 | the shrink loop removes the largest key until `attributes.count == numberOfItems`, and `continue`s when no key is left | 3 items with only item 0 computed (the usual lazy state), shrunk to 2: item 0 is removed, then the loop never ends | drop every attribute at or past the new count | not executed | LayoutModel.ShrinkAsWrittenSpins | LayoutSection.BrickLayoutSection.RemoveAttributesFrom |
| Source/Layout/BrickLayoutSection.swift:116-124 | the loop stops as soon as the count matches, whatever the keys | 8 items with 0, 1 and the downstream item 7 computed, shrunk to 3: item 7 stays past the new end | drop every attribute at or past the new count | not executed | LayoutModel.ShrinkAsWrittenKeepsStaleKey | LayoutSection.BrickLayoutSection.RemoveAttributesFrom |
| Source/Layout/BrickLayoutSection.swift:562-565 | a missing index `continue`s without decrementing `currentIndex` | items 0 and 2 computed in one row (2 as a downstream item), item 1 not: aligning the row that ends at 2 never returns | stop the walk at a missing index | not executed | LayoutModel.RowWalkAsWrittenSpinsOnHole | LayoutSection.BrickLayoutSection.UpdateHeightForRowsFromIndex |
