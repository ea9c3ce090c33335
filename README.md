# Word editor pages and paste pagination, in Dafny

This project models the logic in `src/Word.jsx`, the `WordEditor` React
component of a browser word processor. It covers two things.

- **The page list.** The document is a sequence of `{ id, content }` pages, and
  local storage may hold a saved copy under the key `editorPages`. The model
  covers the initial single empty page, `addPage`, `deletePage`,
  `clearContent`, `saveContent` and the load that runs on mount.
- **Paste pagination.** `handlePaste` appends the pasted plain text to the page
  that carries the last page's id. While that page is taller than
  `maxContentHeight` (750), it scans backwards for a split point, cuts the
  page, and appends a page holding the rest.

The project has three modules.

- `Document` (`document.dfy`) holds the page datatype and the pure page-list
  operations: `WithPageAdded`, `WithoutPage` and `Saved`. It also has
  `ElementIndex`, which models `document.getElementById("page-" + id)`. That
  function returns the first page in display order that carries the id, or
  "none".
- `Pagination` (`pagination.dfy`) holds the inner split scan. The `ScanSplit`
  method is proved against the `ScanFrom` function. The module also holds one
  pass of the outer loop (the `SplitPass` method against the `Pass` function),
  the exact condition under which the outer loop ends (`PassesEnd`), and the
  page list when it ends (`AfterPasses`, `PasteResult`).
- `Editor` (`editor.dfy`) holds the class `WordEditor`. Its field `pages` is the
  page list as rendered, and its field `stored` is the storage slot. Its
  methods are the component's handlers. `Paste` runs the outer `while` loop
  with its invariants.

The rendered height (`scrollHeight`) is a parameter `H: string -> int`: a
function of a page's markup. The model keeps a single page sequence. It stands
for both the React state and the rendered DOM, and it is updated in place as
the handlers run.

The model follows what the code does, even where the intended design of the
editor differs.

- **Ids are not fresh.** `addPage` and a split both use `pages.length + 1` as
  the new id. After a deletion, that id can already be in use
  (`AddAfterDeleteRepeatsId`). `getElementById` then finds the first page with
  that id. So a paste can land on an earlier page (`TargetCanPrecedeLast`), and
  a save copies the first duplicate's content (`SavedCopiesFirstDuplicate`).
- **The split is not lossless.** The kept prefix and the moved remainder share
  one character (`SplitOverlap`).
- **A split can overwrite text.** When a page already carries the new id, it is
  overwritten with the remainder (`PasteCanOverwriteOtherPage`). When that page
  is the edited page, the kept text is lost (`PasteCanLoseKeptText`).
- **The new page is not re-checked.** Only the original page is measured again,
  so the appended page may still overflow (`MovedPageCanOverflow`).
- **Only the edited page is guaranteed to fit.** A paste that returns leaves
  the edited page within the height budget (`AfterPassesFrame`). The pages it
  appends are never measured.

## Model

| member | source | states |
|---|---|---|
| Document.WithPageAdded | src/Word.jsx:55-57 | `addPage` appends exactly one page: id `length + 1`, empty content; the old pages are the prefix, unchanged |
| Document.WithoutPage | src/Word.jsx:59-62 | `deletePage(id)` keeps exactly the pages whose id differs from `id`: every kept page was there and has another id, and every page with another id is kept; the list never grows (order and multiplicity are fixed together with `WithoutPageSplits`) |
| Document.WithoutAbsentId | src/Word.jsx:59-62 | deleting an id no page carries changes nothing |
| Document.WithoutPageIdempotent | src/Word.jsx:59-62 | deleting the same id twice equals deleting it once |
| Document.WithoutPageSplits | src/Word.jsx:59-62 | deletion distributes over concatenation, so the kept pages stay in their original order |
| Document.WithoutPresentIdShrinks | src/Word.jsx:59-62 | deleting an id that some page carries removes at least one page |
| Document.DeleteCanLeaveNoPage | src/Word.jsx:59-62 | there is no guard: deleting the only page of the initial list leaves no page |
| Document.AddThenDeleteRestores | src/Word.jsx:55-62 | adding a page and then deleting its id restores the list, when no older page carried that id |
| Document.AddKeepsSerialIds | src/Word.jsx:55-57 | while pages are only added, ids stay 1..n, and the id `addPage` hands out is not yet in use |
| Document.AddAfterDeleteRepeatsId | src/Word.jsx:55-62 | add twice, delete page 2, add again: the new page repeats id 3, and deleting 3 removes both pages |
| Document.ElementIndex | src/Word.jsx:42 | the element found by id is the first page in display order carrying that id; when none does, the result is the list length |
| Document.ElementIndexOfAbsentId | src/Word.jsx:79-80 | no element is found under an id that no page carries |
| Document.ElementIndexByIds | src/Word.jsx:79 | the lookup depends only on the ids, not on the contents |
| Document.Saved | src/Word.jsx:39-43 | `saveContent`'s mapping keeps length, order and ids; each page takes the content of the element found under its id; pages sharing an id end up with the same content |
| Document.SavedDistinctIds | src/Word.jsx:39-43 | with distinct ids, every page keeps its own rendered content |
| Document.SavedIdempotent | src/Word.jsx:39-43 | saving twice equals saving once |
| Document.SavedCopiesFirstDuplicate | src/Word.jsx:40-42 | with a repeated id, the later page takes the first page's content |
| Pagination.ScanFrom | src/Word.jsx:70-74 | the prefix length where the backward scan stops: between 1 and the start length; it fits or is one character; every longer prefix overflows |
| Pagination.ScanFromIsTheBoundary | src/Word.jsx:68-74 | that boundary is unique: any prefix length that fits (or is 1) and has only overflowing longer prefixes is the scan's answer, so a faster search with this property splits the same way |
| Pagination.ScanSplit | src/Word.jsx:69-74 | the inner loop ends with `0 <= splitPoint < length` (so it ran at most `length - 1` times); the page shows `content[..splitPoint+1]`, of the length `ScanFrom` gives; that prefix fits unless `splitPoint == 0`; every longer prefix, the full content included, overflowed |
| Pagination.TargetIndex | src/Word.jsx:66 | the page a paste edits is a real page, carries the last page's id, and no earlier page carries it |
| Pagination.TargetIsLastWhenIdsDistinct | src/Word.jsx:66 | with distinct ids, the paste edits the last page |
| Pagination.TargetCanPrecedeLast | src/Word.jsx:66 | with ids 1, 3, 3, the paste edits the second page, not the last |
| Pagination.NewIdElement | src/Word.jsx:77-79 | the element found under the new id `count + 1` is among the `count` rendered pages and carries that id; no earlier one does |
| Pagination.PassKeepsIds | src/Word.jsx:72-82 | a pass keeps every id and appends one page with id `count + 1`; the element found under the new id does not move |
| Pagination.PassContents | src/Word.jsx:72-82 | a pass cuts the target to the kept prefix, appends the remainder, and writes the remainder over the page found under the new id (the target itself, if it carries that id); no other page changes |
| Pagination.PassFacts | src/Word.jsx:72-82 | the two lemmas above, together |
| Pagination.SplitPass | src/Word.jsx:69-82 | the outer loop's body, built from `ScanSplit`'s `kept` and `content.substring(splitPoint)`, equals the `Pass` specification |
| Pagination.PassProgress | src/Word.jsx:68-83 | a pass on an overflowing target shortens the target and preserves the loop's end condition and the final page list: the outer loop's variant and invariant |
| Pagination.UnendingPasses | src/Word.jsx:68-83 | outside `PassesEnd`, the target keeps overflowing and every pass leaves a state outside `PassesEnd`: `handlePaste` never returns |
| Pagination.CollidesIffLastIdIsNewId | src/Word.jsx:66-79 | the target is also the element under the new id exactly when the last page's id equals the page count plus one |
| Pagination.AfterPassesFrame | src/Word.jsx:68-83 | when the loop ends: the target fits, no id changed, only the target and the page found under the new id changed, and every appended page has the new id |
| Pagination.OnePassWithoutCollision | src/Word.jsx:68-83 | without a collision, and with a kept prefix that fits, the loop makes exactly one pass |
| Pagination.AppendKeepsNewIdElement | src/Word.jsx:67-79 | appending the pasted text does not move the element found under the new id |
| Pagination.PasteResultFromAppended | src/Word.jsx:63-84 | the paste is the outer loop run on the target holding its old content plus the pasted text |
| Pagination.PasteStart | src/Word.jsx:66-80 | when no page carries the new id, no element is found under it, and the loop starts without a collision |
| Pagination.PasteThatFits | src/Word.jsx:66-68 | whatever ids the pages carry, when the appended text fits the outer loop never runs: the paste returns, the target takes the text, no page is added, and nothing else changes |
| Pagination.PasteThatSplits | src/Word.jsx:66-83 | when no page carries the new id and the appended text overflows: one page is added, with id `length + 1` and the content from the split point on; the target keeps the prefix that fits; every other page is unchanged |
| Pagination.SplitOverlap | src/Word.jsx:72-75 | kept prefix and remainder share exactly one character: their lengths sum to the content's length plus one, and the kept prefix plus the remainder minus its first character is the content |
| Pagination.CollidingPass | src/Word.jsx:72-82 | on pages 1, 3 with a count of 2, a pass on "abc" that allows two characters writes the remainder "bc" over the target |
| Pagination.PasteCanLoseKeptText | src/Word.jsx:66-82 | pasting "c" into pages (1, ""), (3, "ab") yields (1, ""), (3, "bc"), (3, "bc"): the kept "a" is gone |
| Pagination.OverwritingPass | src/Word.jsx:72-82 | on pages 3, 2 with a count of 2, the pass overwrites page 3's "x" with the remainder |
| Pagination.PasteCanOverwriteOtherPage | src/Word.jsx:66-82 | pasting "c" into pages (3, "x"), (2, "ab") yields (3, "bc"), (2, "ab"), (3, "bc") |
| Pagination.MovedPageCanOverflow | src/Word.jsx:68-81 | when one character fits, pasting "c" into (1, "ab") yields (1, "a"), (2, "abc"), and the new page still overflows |
| Editor.WordEditor.constructor | src/Word.jsx:5 | the component starts with one empty page with id 1; storage is what a previous session left |
| Editor.WordEditor.LoadSaved | src/Word.jsx:10-15 | a stored list, the empty list included, replaces the pages; with nothing stored, the pages stay |
| Editor.WordEditor.SaveContent | src/Word.jsx:39-45 | the pages become `Saved(old pages)`, and storage holds exactly that list |
| Editor.WordEditor.ClearContent | src/Word.jsx:49-51 | the pages are the initial list, and storage is empty |
| Editor.WordEditor.AddPage | src/Word.jsx:55-57 | the pages become `WithPageAdded(old pages)`; storage is unchanged |
| Editor.WordEditor.DeletePage | src/Word.jsx:59-62 | the pages become `WithoutPage(old pages, id)`; storage is unchanged |
| Editor.WordEditor.Paste | src/Word.jsx:63-84 | with no page, the lookup of the last page fails and nothing changes; otherwise the pages become `PasteResult` of the old pages; storage is unchanged |
| Editor.SaveThenReload | src/Word.jsx:39-45 | a component mounted after a save shows exactly the saved list, which storage still holds |
| Editor.ClearThenReload | src/Word.jsx:49-51 | a component mounted after a clear shows the initial page list, and nothing is stored |

## Left out

- The formatting handlers `handleCommand`, `handleColorChange`, `handleFontChange` and `handleFontSizeChange` (src/Word.jsx:17-37). They only forward to `document.execCommand`, and the colour, font and size state is used only by the toolbar.
- The JSX rendering, the toolbar and the `alert` notices (src/Word.jsx:46, 52, 91 onward). These are user interface.
- Layout and HTML parsing. The height of a page is a parameter `H` of its raw markup. A cut inside a tag is modelled as a cut of the string, with no repair.
- `JSON.stringify` / `JSON.parse` and `localStorage`. The storage slot holds the page list itself. Malformed or non-array stored JSON, which makes the load throw or store a non-list, is not modelled. A stored empty list is modelled: in JavaScript it is truthy, so it replaces the pages.
- React's asynchronous `setPages`. The model keeps one sequence for both the state and the rendered pages, with every update applied at once. So these are not modelled: the rendered DOM and the React state drifting apart, duplicate React keys, user typing that only reaches the state on save, and the handler's stale `pages` closure beyond its page count. Because state and DOM are one, `saveContent` always finds an element for every page.
- `e.preventDefault()` and the clipboard (src/Word.jsx:64-65). The pasted text is a parameter.
- Strings are sequences of characters. JavaScript's UTF-16 code units, and the browser's normalisation of `innerHTML` on assignment, are not modelled.
- Editor.WordEditor.Paste: requires `PasteEnds`, the exact condition under which the outer loop of `handlePaste` returns. Inputs outside it make the handler loop forever (`UnendingPasses`), so the method does not model them. Three cases fall outside it: an empty target that already overflows (the inner loop does not run, and each pass appends an empty page); a target whose scan gives up at one character that still overflows; and a colliding target that shrinks to a one-character cut.
- Pagination.Pass: a pass on an empty target is not modelled, because it only happens when the empty target overflows, and then the loop never ends. In that pass the inner loop is skipped, `substring(-1)` gives the empty string, and an empty page is appended.
- Pagination.Pass, Pagination.PassesEnd, Pagination.AfterPasses, Pagination.PasteResult: these specification functions (one outer pass, src/Word.jsx:69-82; the end condition of the outer loop; the pages when it ends, src/Word.jsx:68-83; the whole handler, src/Word.jsx:63-84) carry no contract of their own. Their properties are the rows of other members:
  - `Pass`: `PassKeepsIds`, `PassContents`, `PassFacts`, and `SplitPass`, which equals it;
  - `PassesEnd`: `PassProgress` (kept by every pass) and `UnendingPasses` (outside it the loop never ends);
  - `AfterPasses`: `AfterPassesFrame`, `PassProgress` and `OnePassWithoutCollision`;
  - `PasteResult`: `PasteResultFromAppended`, `PasteThatFits`, `PasteThatSplits`, the three concrete pastes, and `Editor.WordEditor.Paste`, whose loop ends in it.
