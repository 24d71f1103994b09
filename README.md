# Artwork table: cross-page selection

This project models the selection logic of the artwork table component
(`vite-project/src/Component/ArtworkTablw.tsx`). The table shows one page of
12 artworks at a time. It keeps a selection map from artwork id to artwork,
and that map spans all pages. Two handlers change the map:

- **Reconcile** (`onSelectionChange`) copies the map. It visits each artwork
  of the visible page. It inserts the artwork under its id when the widget
  reports that id as checked, and deletes the id otherwise. Then it
  publishes the map and its values.
- **Bulk select** (`handleRowSelect` / `fetchAndSelect`) copies the map and
  walks forward from the current page. On each page it takes
  `min(remaining, page length)` artworks from the front and inserts each
  under its id. It lowers `remaining` by the number taken and moves to the
  next page. It stops when `remaining` is no longer positive, then publishes
  the map.

The project also models the page arithmetic. The widget's 0-based page index
becomes a 1-based page number. The widget is given `(page - 1) * 12` as the
offset of the first row.

Files:

- `artwork.dfy` (module `Artworks`): the artwork record, the selection map
  type, the id set of a list, the "every value sits under its own id"
  invariant, and the last occurrence of an id in a list.
- `paging.dfy` (module `Paging`): the page number and first-row offset.
- `reconciliation.dfy` (module `Reconciliation`): the reconcile loop. Its
  specification function `Reconciled` folds over the visible page. The lemmas
  say what that means: checked rows selected, unchecked rows deselected,
  other pages untouched, and idempotence.
- `bulk_selection.dfy` (module `BulkSelection`): the bulk-select loop. It is
  specified by `BulkSelected`: the first `count` records of the pages from
  the current one on, inserted in order. Lemmas cover the one-page and
  two-page cases, growth of the key set, the bound on new keys, the exact
  number of new keys when ids are distinct, and counting
  of records that were already selected.
- `table.dfy` (module `Table`): the component state as a class. Its
  handlers run the loops above on a copy of the map and publish the result.

The page request is a parameter `fetch: int -> seq<Artwork>`. It maps a
1-based page number to the artworks of that page, in the order the
collection returns them.

The source's bulk-select loop never ends when the pages from the current one
on hold fewer records than the count. A Dafny method must end. So
`FetchAndSelect` and `HandleRowSelect` take a ghost `horizon` and require that
the first `horizon` pages from the current one hold at least `count` records.
`BulkSelectedHorizon` proves that the result does not depend on which
sufficient horizon is named.

Details of the code that the model keeps:

- The checked test is by id (`e.value.map(item => item.id)`), not by record.
- The checked list is whatever the widget reports, and it may include rows of
  other pages. Ids that are not on the visible page are ignored.
- The bulk count may be any number. A count of zero or less does nothing.
- Several artworks on one page may share an id. Then the loop's last write
  wins, and the model states it that way (`IsLastOccurrence`).

## Model

| member | source | states |
|---|---|---|
| `Paging.PageNumber` | vite-project/src/Component/ArtworkTablw.tsx:53-55 | a non-negative widget index gives a page number of at least 1, and a negative index gives one below 1 |
| `Paging.FirstRow` | vite-project/src/Component/ArtworkTablw.tsx:138 | the first-row offset of a page is a multiple of the 12-row page size, and it is non-negative for pages from 1 on |
| `Paging.PageIndexRoundTrip` | vite-project/src/Component/ArtworkTablw.tsx:54 | dividing the offset handed to the widget by the page size gives back the widget's own page index |
| `Paging.PagesDoNotOverlap` | vite-project/src/Component/ArtworkTablw.tsx:138 | the row windows of two different pages do not overlap |
| `Artworks.IdsOfSize` | vite-project/src/Component/ArtworkTablw.tsx:91 | a list of n artworks carries at most n distinct ids |
| `Artworks.IdsOfDistinctSize` | vite-project/src/Component/ArtworkTablw.tsx:71-73 | a list of n artworks with pairwise distinct ids carries exactly n ids |
| `Artworks.LastOccurrenceOf` | vite-project/src/Component/ArtworkTablw.tsx:92-97 | every id of a list has a last position in that list holding it, which is the write that survives the loop |
| `Reconciliation.ReconciledMeaning` | vite-project/src/Component/ArtworkTablw.tsx:88-98 | after reconciling, the keys are the prior keys not on the page plus the checked ids on the page; entries off the page are unchanged; each checked id holds the last visible artwork with that id |
| `Reconciliation.CheckedRowsSelected` | vite-project/src/Component/ArtworkTablw.tsx:91-94 | a checked id of the visible page is in the map, and its value is a visible artwork with that id |
| `Reconciliation.UncheckedRowsDeselected` | vite-project/src/Component/ArtworkTablw.tsx:92-97 | an unchecked id of the visible page is absent afterwards, whether or not it was present before |
| `Reconciliation.OtherPagesUntouched` | vite-project/src/Component/ArtworkTablw.tsx:88-98 | an id not on the visible page keeps its entry, or stays absent |
| `Reconciliation.ReconcileIdempotent` | vite-project/src/Component/ArtworkTablw.tsx:88-100 | reconciling a second time with the same page and checked rows gives the same map as reconciling once |
| `Reconciliation.ReconcileKeepsKeyedById` | vite-project/src/Component/ArtworkTablw.tsx:92-97 | if every value of the map sits under its own id before reconciling, that still holds afterwards |
| `Reconciliation.ReconcileExample` | vite-project/src/Component/ArtworkTablw.tsx:87-102 | with {5: R5} selected and R5, R6, R7 visible, checking only R6 leaves exactly {6: R6} |
| `Reconciliation.Reconcile` | vite-project/src/Component/ArtworkTablw.tsx:88-98 | the forEach loop over the visible page computes `Reconciled`: the resulting keys, the unchanged off-page entries, and the last-write values of the checked ids |
| `BulkSelection.InsertAllMeaning` | vite-project/src/Component/ArtworkTablw.tsx:71-73 | inserting a list adds exactly its ids to the keys, keeps the entries it does not touch, and leaves each id holding the last inserted artwork with that id |
| `BulkSelection.InsertAllAppend` | vite-project/src/Component/ArtworkTablw.tsx:63-76 | inserting page after page is the same as inserting their concatenation |
| `BulkSelection.InsertAllKeepsKeyedById` | vite-project/src/Component/ArtworkTablw.tsx:72 | inserting each artwork under its own id keeps every value under its own id |
| `BulkSelection.PagesPrefix` | vite-project/src/Component/ArtworkTablw.tsx:63-76 | visiting more consecutive pages only extends the records already visited |
| `BulkSelection.PagesStep` | vite-project/src/Component/ArtworkTablw.tsx:68-76 | with all records of the first k pages taken, taking toTake more from the front of the next page takes the next toTake records in page order |
| `BulkSelection.BulkSelectedHorizon` | vite-project/src/Component/ArtworkTablw.tsx:63-77 | the published map is the same for every number of pages that holds enough records |
| `BulkSelection.BulkSelectOnePage` | vite-project/src/Component/ArtworkTablw.tsx:59-73 | a count that fits on the current page inserts exactly the first count artworks of that page |
| `BulkSelection.BulkSelectTwoPages` | vite-project/src/Component/ArtworkTablw.tsx:63-76 | a count that spills over inserts the whole current page, then the first (count minus page length) artworks of the next page |
| `BulkSelection.BulkSelectOnlyInserts` | vite-project/src/Component/ArtworkTablw.tsx:60-72 | every previously selected id stays selected, and keeps its artwork unless a taken artwork carries that id |
| `BulkSelection.BulkSelectNewKeysAtMostCount` | vite-project/src/Component/ArtworkTablw.tsx:69-75 | at most count ids are newly selected |
| `BulkSelection.BulkSelectNewKeysExactlyCount` | vite-project/src/Component/ArtworkTablw.tsx:69-75 | when the taken artworks have pairwise distinct ids and none is already selected, exactly count ids are newly selected |
| `BulkSelection.BulkSelectTwentyExample` | vite-project/src/Component/ArtworkTablw.tsx:59-79 | with pages of 12 and distinct ids, selecting 20 into an empty map inserts all of the current page and the first 8 of the next, and the map then holds 20 entries |
| `BulkSelection.BulkSelectCountsReselected` | vite-project/src/Component/ArtworkTablw.tsx:69-75 | when every taken artwork is already selected, no id is added: taken records count toward the total, not new ids |
| `BulkSelection.BulkSelectKeepsKeyedById` | vite-project/src/Component/ArtworkTablw.tsx:72 | bulk selection keeps every value under its own id |
| `BulkSelection.InsertEach` | vite-project/src/Component/ArtworkTablw.tsx:71-73 | the inner forEach inserts the list in order and adds exactly its ids to the keys |
| `BulkSelection.FetchAndSelect` | vite-project/src/Component/ArtworkTablw.tsx:58-77 | the while loop computes `BulkSelected`: nothing changes for a count of zero or less, the keys only grow, and otherwise the first count records of the consecutive pages are inserted |
| `Table.ArtworkTable.constructor` | vite-project/src/Component/ArtworkTablw.tsx:31-36 | the initial state: no rows, empty selection, page 1, count 0, and the map invariant holds |
| `Table.ArtworkTable.OnPageChange` | vite-project/src/Component/ArtworkTablw.tsx:53-55 | the page becomes the 1-based number of the widget's index, whose first row is index times 12 |
| `Table.ArtworkTable.ShowPage` | vite-project/src/Component/ArtworkTablw.tsx:40-49 | the visible rows become the records of the current page |
| `Table.ArtworkTable.OnInputChange` | vite-project/src/Component/ArtworkTablw.tsx:120 | the pending count becomes the typed value |
| `Table.ArtworkTable.OnSelectionChange` | vite-project/src/Component/ArtworkTablw.tsx:87-102 | the published map is the reconciled copy, the selected list is its values, and every value sits under its own id |
| `Table.ArtworkTable.HandleRowSelect` | vite-project/src/Component/ArtworkTablw.tsx:57-85 | the published map is the bulk-selected copy; it equals the old map for a count of zero or less and its keys only grow; the selected list is its values |

## Left out

- The HTTP requests, their URLs, the cache-bypass header and JSON decoding (lines 44-51, 64-68). The page request is the parameter `fetch`. A failed request, which would abort a bulk selection part-way, is not modelled.
- `totalRecords` (lines 35, 50) feeds only the paginator's display and is not modelled.
- React machinery: `useState`, `useRef`, and the effect that fetches a page when `page` changes (lines 40-42). `ShowPage` stands for the state update at line 49.
- The overlay panel's show and hide (lines 81, 104-127) and all rendering (lines 129-153).
- The `async` suspension and the races between overlapping bulk selections, or between a bulk selection and a page change. Each handler runs as one sequential method on the state it started from.
- `Number(e.target.value)` (line 120) can give NaN or a fraction. The count is an `int`.
- `selectedArtworks` is `Object.values(...)`, an array. The model keeps it as the set of the map's values, so the order of that array is not modelled.
- JavaScript object keys are strings. `newMap[item.id]` converts an integer id to a string without collisions, so the model keys the map by `int`.
- BulkSelection.FetchAndSelect: requires a ghost `horizon` of pages holding at least `count` records, because the source loop does not end when the pages run out before `remaining` reaches 0. That case is not modelled.
- Table.ArtworkTable.HandleRowSelect: carries the same `horizon` precondition as `FetchAndSelect`, for the same reason.
