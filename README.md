# Chapter catalog discovery of parser-ranobe-node

This project models, in Dafny, the one part of `index.js` that is not browser
automation: how `getChapters` builds the chapter catalog of a title while it scrolls
through a virtualized list, plus two small decisions around it.

- **Dedup table** (`chapter_table.dfy`, module `ChapterTable`). The object `chapters`
  is keyed by chapter title. A row `{title, link}` is stored only when its title is
  truthy (non-empty) and the title's current value is falsy (missing or empty). The
  object becomes an array of `{title, link}` entries in key insertion order. The
  object is modelled as a `Table`: a map from title to link plus the key order.
  The pure functions `MergeRow` and `MergeBatch` specify the merge, and the
  independent reference definitions `FirstLink` and `FirstIndex` describe the result.
- **Scroll loop** (`scroll.dfy`, module `Scroll`). `currentHeight` starts at 0 and
  grows by 350 per pass. The loop runs while it is below `scrollHeight`, which is
  re-read at the end of each pass. `PassesFrom` and `PassCount` give the number of
  passes for a given sequence of height readings.
- **Discovery** (`discovery.dfy`, module `Discovery`). `GetChapters` is the loop
  itself: a `while` over the observations, with an inner `for` loop (`MergeRows`) for
  the `forEach`. `GetChapters` is proved equal to the specification `Discover`, and
  `MergeRows` is proved equal to `MergeBatch`. The browser is
  an input: the first height reading, then for each pass the rows rendered and the
  height read afterwards. `LoadChapters` is the branch in `main` that uses
  `chapters.json` when it exists and otherwise discovers and writes it.
- **Dialog decision** (`popup.dfy`, module `Popup`). `handlePopup` clicks the checkbox
  and then the confirm button only when the header text is exactly `Внимание`.

## Model

| member | source | states |
|---|---|---|
| ChapterTable.Entries | index.js:140 | The array has one entry per key, in insertion order. Each entry pairs its title with the stored link. Every key appears. Titles are pairwise distinct and non-empty. |
| ChapterTable.MergeBatchValid | index.js:127-133 | Merging any batch keeps the table well formed: every key is listed once in the order, and no key is the empty title. |
| ChapterTable.MergeBatchAt | index.js:127-133 | A title is present after a batch iff it was present before or some row carried it as a non-empty title. A non-empty stored link never changes, so the first non-empty link wins. A missing or empty stored link ends up as the first non-empty link among the rows, so an empty link is overwritten by a later non-empty one. |
| ChapterTable.MergeRow | index.js:128-131 | One `forEach` body with its truthiness guard. A non-empty title is present afterwards. Its link is kept when the stored link is non-empty, and is otherwise set to the row's link. An empty title changes nothing. Other keys keep their links, and the old key order is a prefix of the new one. |
| ChapterTable.MergeBatch | index.js:127-133 | The whole `forEach` over one batch. Merging never removes a title. The old key order is a prefix of the new one. |
| ChapterTable.MergeBatchConcat | index.js:107-138 | Merging the batches of successive passes one after the other equals merging all their rows at once. |
| ChapterTable.MergeIdempotent | index.js:127-133 | Merging the same batch a second time leaves the table (links and order) unchanged. |
| ChapterTable.MergeOrderFirstOccurrence | index.js:127-133 | Starting from `{}`, every key occurs among the rows. Keys are ordered by the position of their first occurrence. |
| ChapterTable.FirstIndex | index.js:127-133 | Reference definition used to state the key order the merge produces: the position returned carries the title, and no earlier row does. |
| Scroll.PassesFrom | index.js:97-137 | The loop makes the least number of passes n whose offset 350·n has reached the height read at that point. For every earlier count the offset was still below the height. If no such count exists within the readings, the result is None. |
| Scroll.NoPassIffNonPositive | index.js:99-107 | The body runs zero times iff the first height read is at most 0. |
| Scroll.ConstantHeightPasses | index.js:97-137 | If the height stays at H >= 0, the loop makes exactly ceil(H/350) passes, given that many observations. |
| Popup.PopupClicks | index.js:60-86 | Something is clicked iff the header text is exactly `Внимание`. A timeout, a `null` text or any other text clicks nothing. The checkbox is always clicked first. The button is clicked iff the text matched and the checkbox click did not throw. |
| Discovery.Discover | index.js:97-140 | Specification of `getChapters`. It is unfinished exactly when the readings run out before the offset reaches the height. Otherwise it reports the pass count at which the loop stops, which is at most the number of readings. The array it yields has distinct, non-empty titles. |
| Discovery.ChaptersUrl | index.js:90 | The URL is `mangaLink` followed by exactly `?section=chapters`. |
| Discovery.MergeRows | index.js:127-133 | The `forEach` loop produces exactly `MergeBatch` of the table and the batch. |
| Discovery.GetChapters | index.js:88-148 | The loop produces exactly `Discover`, and the URL is `ChaptersUrl(mangaLink)`. Its invariants keep `currentHeight` equal to 350 times the number of passes, and keep the table equal to the merge of all rows read so far. |
| Discovery.DiscoveredCatalog | index.js:95-147 | A completed discovery stopped at the first pass count whose offset reached the last height read. Its entries have distinct, non-empty titles. Each title was read and carries its first non-empty link. Every non-empty title read is present. Entries are listed in first-occurrence order. |
| Discovery.LoadChapters | index.js:157-165 | If chapters.json exists, its list is used verbatim, left unchanged, and discovery is not run. Otherwise the discovered list is returned and written. If discovery does not finish, nothing is returned or written. |

## Left out

- Browser automation is not modelled: navigation, `waitForSelector`, typing, clicks, `evaluate`, `scrollBy` and the DOM queries. What the browser supplies (heights, rendered rows, the header probe, whether a click threw) is an input.
- `login` (index.js:37-58) is pure navigation with no decision in it.
- Logging with winston, and every `logger.*` call, is left out. It is observability only.
- The `setTimeout` waits and the `itemCount` debug probe (index.js:103-105, 114) are left out. They do not affect the result.
- File I/O and JSON are left out: `readConfig`, `saveChaptersToFile`, `existsSync`, `readFileSync`, `writeFileSync`, `JSON.stringify`/`JSON.parse`. The cache file is modelled as an optional chapter list, and its serialisation round trip is library behaviour.
- `main`'s outer error handler is left out, and so is a `chapters.json` that fails to parse.
- ChapterTable.MergeRow: titles that name an `Object.prototype` member (for example `"constructor"` or `"toString"`) are not modelled. In the real `{}` these read as truthy functions, so such a title would never be stored. The model treats them as ordinary titles.
- ChapterTable.Entries: uses insertion order for every key. `Object.entries` lists integer-like keys (such as `"12"`) first, in ascending numeric order. That reordering is not modelled.
- Discovery.GetChapters: the loop is bounded by the finite sequence of observations supplied. Against a live page whose height keeps growing, it need not terminate. Running out of observations is reported as `Unfinished`.
- Discovery.LoadChapters: the `main` function itself is not modelled. Launching and closing the browser, the login call and the final log line are left out.
