# CMSmall block model

A Dafny model of the block logic of CMSmall, a small content-management
application. Pages are made of ordered content blocks (headers, paragraphs,
images). The model covers:

- the server's block validators for page creation and page update, the image
  lookup, the id and author checks of the page handlers, and the loop that
  routes every submitted block to a delete, insert or update of the `blocks`
  table (`server/index.js`, with the block writes of `server/dao-pages.js`);
- the page queries of the data access layer: folding the rows of the
  pages/blocks/users join into pages, the front-page filter and order, the
  single-page query, the block query, and the normalisation of an empty
  publication date (`server/dao-pages.js`);
- the block-list editor of the page form: add, edit, move up/down, delete with
  a deletion marker, submit with the header/non-header mix check, and the
  arrow-visibility rule (`client/src/components/PageForm.jsx`);
- the page view: the Draft/Published/Programmed status, the render order, and
  when edit/delete controls show (`client/src/components/Page/Page.jsx`).

Files and modules:

| file | module | models |
|---|---|---|
| `wrappers.dfy` | `Wrappers` | `Option`, `Result` |
| `blocks.dfy` | `Blocks` | the block record, JavaScript truthiness of its fields, `Array.some`, the mix rule |
| `sorting.dfy` | `Sorting` | the stable comparator sort used by `sort`/`toSorted` |
| `validation.dfy` | `Validation` | the create and update validators, the position counter |
| `handlers.dfy` | `Handlers` | the handler checks in front of storage |
| `dispatch.dfy` | `Dispatch` | the `blocks` table, its three writes, the update and create loops |
| `dao.dfy` | `PagesDao` | row grouping, front page, `getPage`, `listBlocks`, date normalisation |
| `page_form.dfy` | `PageForm` | the editor state and its handlers |
| `page_view.dfy` | `PageView` | the page view |

Modelling conventions:

- A block is `Block(id, kind, value, position, created, deleted)`. `kind` is the
  JSON field `type`. An absent `type` is `""` and an absent `position` is 0.
  JavaScript reads both the same way: they are falsy, and position 0 is never
  a visited cell of the counter array.
- A block value is `Str(s)`, `Missing` (undefined or null) or `Other(truthy)`
  (a number, boolean or object). The validators tell strings apart with
  `typeof`, test truthiness, and read `.length`. Reading `.length` of
  `Missing` throws, and the model reports that as `ValueUnreadable`.
- Dates are day numbers, and "now" is a `today` parameter. A publication
  date is published when it is not after today.
- The image collection is a parameter set. The stored author of a page, and
  the user an admin names, are parameters. The outcome of the field
  validators other than the block validator is one boolean, `fieldErrors`.
- JavaScript `Object.values` lists integer keys in ascending order, so the
  grouped page list is ordered by page id.

Behaviour of the code worth knowing:

- Positions outside `1..n` are not rejected. They are never counted
  (`Validation.OutOfRangeIgnored`).
- On update, the mix rule is checked over all blocks, deletion markers
  included. A marker has no type, so it counts as a non-header block
  (`Validation.MarkerCountsAsNonHeader`).
- The update handler does not build a separate plan of deletes, inserts and
  updates. It writes each block as it goes and stops at the first write that
  reports an error (`Dispatch.BlockStore.ApplyBlocks`).
- The create handler does not await its user lookup. So only a falsy author
  id is refused as an invalid author (`Handlers.CreateGate`).
- On update, the type `switch` also runs on deleted blocks. A deleted block
  that still names the header or paragraph type must carry a value of fitting
  length (`Validation.UpdateAcceptsIff`, `Validation.DeletedHeaderMeasured`).

## Model

| member | source | states |
|---|---|---|
| Blocks.Any | server/index.js:197 | `Array.some` is true iff some element satisfies the predicate |
| Blocks.MixOkAppend | server/index.js:292 | appending blocks to a list with a header and a non-header keeps the mix rule |
| Sorting.SortBy | server/dao-pages.js:14 | the comparator sort returns a position-sorted permutation of its input, of the same length |
| Sorting.SortStable | server/dao-pages.js:61-65 | the sort is stable: the elements that share a key come out in the order they went in |
| Sorting.SortTiesKeepOrder | server/dao-pages.js:61-65 | sorting a list strictly ascending by a second key leaves equal-key elements ascending by that second key |
| Validation.FirstError | server/index.js:206-224 | the per-block loop passes iff every block passes; otherwise it reports the first failing block's error |
| Validation.CollidesIff | server/index.js:226-230 | the counter array reports a collision iff two blocks with `id` or `created` share a position in 1..n |
| Validation.PositionsCollide | server/index.js:226-230 | the zero-filled counter, incremented per recorded block and scanned for a count above one, computes exactly the collision predicate |
| Validation.ValidateCreate | server/index.js:196-231 | the create validator throws exactly the error of the first failed check, in source order |
| Validation.ValidateUpdate | server/index.js:282-319 | the update validator throws exactly the error of the first failed check, in source order |
| Validation.CreateAcceptsIff | server/index.js:196-231 | creation accepts iff every block has its fields, a known type and a string value of fitting length, the mix rule holds, and no recorded positions collide in 1..n |
| Validation.CreateRejections | server/index.js:197-204 | "Blocks missing props" iff some field is absent; otherwise "Blocks inconsistency" iff the mix rule fails or a type is unknown; "Invalid positions" only when two recorded blocks share a position in 1..n |
| Validation.ValueChecksAgree | server/index.js:206-224 | for a live string block of known type, create and update measure it alike: a header needs 1..50 characters, a paragraph 1..300, an image has no limit |
| Validation.UpdateAcceptsIff | server/index.js:282-319 | update accepts iff every block has `id`, `created` or `deleted`, every live block passes as on creation, a deleted block of type header or paragraph has a value that is not undefined or null and, if it is a string, fits its type's length, the mix rule holds over all blocks, and no recorded positions collide in 1..n |
| Validation.DeletedHeaderMeasured | server/index.js:300-308 | a deleted header whose value is the empty string makes the update validator throw "Invalid header length" when no other block fails the value loop |
| Validation.DistinctPositionsPass | server/index.js:226-230 | distinct positions among recorded blocks never raise "Invalid positions" |
| Validation.DensePositionsPass | server/index.js:314-318 | positions 1..n in list order never raise "Invalid positions" |
| Validation.OutOfRangeIgnored | server/index.js:226-228 | positions outside 1..n never raise "Invalid positions", however many blocks share them |
| Validation.MarkerCountsAsNonHeader | server/index.js:292 | a typeless deletion marker satisfies the non-header half of the mix rule |
| Handlers.ReadGate | server/index.js:172-179 | a page is served iff its author is set and the user is that author or an admin; "Unauthorized" iff the author is set and the user is neither; "Invalid author" iff the stored author is falsy |
| Handlers.CreateGate | server/index.js:234-257 | creation proceeds iff the fields and blocks validate, the author id is truthy, the user is that author or an admin, and every image is known; on success the blocks are acceptable and mixed; "Invalid author", "Unauthorized" and "Image not found!" each come back exactly when every earlier check passed and theirs fails |
| Handlers.UpdateGate | server/index.js:322-365 | update proceeds iff the blocks validate, the body id equals the URL id, the page exists, an admin names a truthy author or a non-admin is the stored author, and every image is known; the page keeps the returned author, which for a non-admin is the user; the validation failure, "URL and body id mismatch", "Page not found", "Invalid author", "Unauthorized" and "Image not found!" each come back exactly when every earlier check passed and theirs fails |
| Dispatch.Step | server/index.js:371-383 | a deletion marker removes the matching row of the page and fails with "No block deleted." exactly when there is none; a created block is stored as a new row under the next id, old rows kept; any other block sets the value and position of the matching row, keeping its type, and fails with "No block was updated." exactly when there is none; a failed write changes nothing; rows of other pages and id freshness are kept |
| Dispatch.BlockStore.DeleteBlock | server/dao-pages.js:113-127 | deletes exactly the row with that id on that page, or reports "No block deleted." and changes nothing |
| Dispatch.BlockStore.UpdateBlock | server/dao-pages.js:129-144 | sets value and position of exactly the row with that id on that page, or reports "No block was updated." and changes nothing |
| Dispatch.BlockStore.CreateBlock | server/dao-pages.js:146-157 | inserts the block under the next id and returns that id |
| Dispatch.BlockStore.ApplyBlocks | server/index.js:371-383 | the update loop leaves the table and the error exactly as the fold of `Step` that stops at the first error |
| Dispatch.BlockStore.CreateBlocks | server/index.js:259-261 | the create loop leaves the table as inserting every block in order |
| Dispatch.RunKeepsFresh | server/index.js:371-383 | every row id stays below the next id through the update loop |
| Dispatch.RunStopsAtFirstError | server/index.js:371-383 | a reported error comes from block k, all blocks before k were written without error, nothing after k was written |
| Dispatch.RunLeavesOtherPages | server/index.js:371-383 | the update loop never touches rows of another page |
| Dispatch.AbsentStaysAbsent | server/index.js:371-383 | an id that is gone and below the next id never comes back during a successful loop; this rests on inserts taking ids from a counter that is never reused (see `Dispatch.BlockStore.CreateBlock` under Left out) |
| Dispatch.RunRemovesDeleted | server/index.js:372-375 | after a successful loop no row is left under any deletion marker's id; this rests on the same never-reused id counter |
| Dispatch.RunKeepsRow | server/index.js:371-383 | a row that no deleting or updating block names comes through a successful loop unchanged |
| Dispatch.RunUpdatesRow | server/index.js:379-382 | after a successful loop, the row of a block that is neither created nor deleted is on the page and holds that block's value and position, unless a later block writes to the same id |
| Dispatch.RunRowCount | server/index.js:371-383 | after a successful loop the row count has grown by the created blocks and shrunk by the deletion markers |
| Dispatch.InsertAllRows | server/index.js:259-261 | creating a page's blocks adds one row per block under consecutive fresh ids, in block order, and keeps every existing row |
| PagesDao.GroupedSpec | server/dao-pages.js:36-44 | the grouping has one page per distinct row id, holding exactly that id's blocks in row order |
| PagesDao.GroupedFirstRow | server/dao-pages.js:40-42 | a page's own fields come from the first row with its id |
| PagesDao.KeysAscending | server/dao-pages.js:46 | the page ids are listed strictly ascending, each key exactly once |
| PagesDao.GroupRows | server/dao-pages.js:36-46 | the `forEach` loop and `Object.values` give the grouped pages, each once, ascending by id |
| PagesDao.GroupingPages | server/dao-pages.js:36-47 | every row's page is listed, every listed page has rows, and each page holds exactly its rows' blocks in row order |
| PagesDao.GroupingBlockCount | server/dao-pages.js:36-47 | the listed pages hold as many blocks in total as there are rows |
| PagesDao.FilterVisible | server/dao-pages.js:49-60 | the filter keeps exactly the pages with a publication date not after today, as often as they occur |
| PagesDao.FrontPages | server/dao-pages.js:49-66 | the front list is sorted ascending by publication date and is a permutation of the visible pages |
| PagesDao.FrontIff | server/dao-pages.js:49-60 | a page is on the front list iff it is listed and visible today |
| PagesDao.FrontTiesById | server/dao-pages.js:49-66 | on the front list, pages published on the same day appear in ascending id order when the input list is ascending by id |
| PagesDao.ListPages | server/dao-pages.js:30-69 | without `front` the result is the grouping; with `front`, each visible grouped page once, ascending by publication date, pages of the same day ascending by id |
| PagesDao.GetPage | server/dao-pages.js:84-91 | the page fields come from the first row and there is one block per row, in row order; no rows gives no page |
| PagesDao.GetPageAgreesWithGrouping | server/dao-pages.js:72-91 | for the rows of one page, `getPage` and the grouping of `listPages` build the same page |
| PagesDao.ListBlocks | server/dao-pages.js:14 | the block rows come back sorted by position, as a permutation, unchanged if already sorted |
| PagesDao.NormalizedPublication | server/dao-pages.js:99-100 | an empty publication string becomes null; any other value is kept |
| PagesDao.PageDraft.NormalizePublication | server/dao-pages.js:160-161 | the page's publication date is normalised in place and its other fields are kept |
| PageForm.NewBlock | client/src/components/PageForm.jsx:115-119 | the added block is `created`, one past the last position (1 in an empty list); header/paragraph keys give an empty block of that type, any other key an image naming it |
| PageForm.AddKeepsDense | client/src/components/PageForm.jsx:114-121 | adding to a dense list keeps it dense, the new block at position n + 1 |
| PageForm.WithValue | client/src/components/PageForm.jsx:123-130 | the blocks at the edited position take the new value and every other block is unchanged |
| PageForm.WithValueLayout | client/src/components/PageForm.jsx:123-130 | editing keeps every position and density, and the last edit wins |
| PageForm.Neighbour | client/src/components/PageForm.jsx:133-146 | "up" exchanges with position p - 1 and any other direction with p + 1 |
| PageForm.Moved | client/src/components/PageForm.jsx:134-148 | the move map swaps positions p and its neighbour and keeps every other field |
| PageForm.Reordered | client/src/components/PageForm.jsx:132-150 | after a move the list is sorted by position and is a permutation of the mapped list |
| PageForm.UpIsDownFromAbove | client/src/components/PageForm.jsx:132-150 | moving the block at p up is the same as moving the block at p - 1 down |
| PageForm.DenseReorder | client/src/components/PageForm.jsx:132-150 | on a dense list a move to an existing neighbour exchanges exactly the two blocks and the list stays dense |
| PageForm.UpThenDown | client/src/components/PageForm.jsx:132-150 | on a dense list moving a block up and back down restores the list |
| PageForm.UpAtFirst | client/src/components/PageForm.jsx:133-140 | "up" at position 1 moves the first block to position 0 and breaks density |
| PageForm.ArrowsOfferDenseMoves | client/src/components/PageForm.jsx:52-61 | on a dense list the up arrow shows iff p ≥ 2, the down arrow iff p ≤ n - 1, no arrow when n = 1, and every offered move keeps the list dense |
| PageForm.Without | client/src/components/PageForm.jsx:158-159 | no block at the deleted position remains |
| PageForm.WithoutMultiset | client/src/components/PageForm.jsx:158-159 | the filter keeps every block not at the deleted position, as often as it occurs |
| PageForm.Lowered | client/src/components/PageForm.jsx:160-163 | every position above the deleted one moves down by one; the rest stay |
| PageForm.Marker | client/src/components/PageForm.jsx:155 | the marker carries only the id and `deleted`: no type, no value (undefined), position 0, not created |
| PageForm.MarkersFor | client/src/components/PageForm.jsx:153-157 | a created block leaves no marker; any other leaves one |
| PageForm.WithoutDense | client/src/components/PageForm.jsx:158-159 | on a dense list the filter drops exactly the p-th block |
| PageForm.DenseDelete | client/src/components/PageForm.jsx:158-164 | deleting from a dense list keeps the blocks before p, moves the later ones up one place in order, and leaves the list dense |
| PageForm.SubmissionWithMarkers | client/src/components/PageForm.jsx:107 | a dense list plus its markers passes the server's position check and keeps the mix rule |
| PageForm.FilterOut | client/src/components/PageForm.jsx:158-159 | the filter loop computes the filtered list |
| PageForm.LowerAbove | client/src/components/PageForm.jsx:160-164 | the decrement loop computes the lowered list |
| PageForm.PageForm.constructor | client/src/components/PageForm.jsx:71-74 | the editor starts with the stored page's blocks sorted by position (or none), no markers and no message |
| PageForm.PageForm.AddBlock | client/src/components/PageForm.jsx:114-121 | the new block is appended and nothing else changes |
| PageForm.PageForm.HandleBlock | client/src/components/PageForm.jsx:123-130 | the blocks become the edited list and nothing else changes |
| PageForm.PageForm.HandleOrder | client/src/components/PageForm.jsx:132-150 | the blocks become the reordered list and nothing else changes |
| PageForm.PageForm.DeleteBlock | client/src/components/PageForm.jsx:152-165 | the marker of the block at index p - 1 is recorded unless it was created, and the blocks become the filtered, lowered list; an index outside the list changes nothing |
| PageForm.PageForm.HandleSubmit | client/src/components/PageForm.jsx:88-112 | without a header and a non-header the mix message is shown and nothing is submitted; otherwise the blocks are submitted, with the markers pushed onto them when editing |
| PageView.PageStatus | client/src/components/Page/Page.jsx:17-23 | Draft iff no date, Published iff the date is not after today, Programmed iff it is after today; exactly one holds |
| PageView.PublishedIsVisible | client/src/components/Page/Page.jsx:18-20 | the view's Published status is the front page's visibility |
| PageView.RenderOrder | client/src/components/Page/Page.jsx:24 | the rendered blocks are a position-sorted permutation of the page's blocks |
| PageView.RenderSorted | client/src/components/Page/Page.jsx:24 | blocks already in order render in that order |
| PageView.ControlsImplyAuthorized | client/src/components/Page/Page.jsx:44 | the controls show iff there is a user who passes the handlers' author-or-admin check and the view is labelled "Back" |

## Left out

- HTTP routing, status codes, sessions and login are not modelled. Each refusal is a `Refusal` constructor.
- The title, author and date validators of express-validator are one boolean parameter, `fieldErrors`.
- Validation.LengthError: counts the characters of a Dafny string. JavaScript `.length` counts UTF-16 code units, so characters outside the Basic Multilingual Plane are not modelled as two.
- Handlers.UpdateGate: the body id is an integer. A body id that is a numeric string is not modelled; it fails the strict `!==` comparison exactly like any other mismatch.
- `userDao.getUserById` is not modelled. Its result is the `bodyAuthor` parameter, with 0 for a missing user. The un-awaited call in the create handler always yields a truthy promise, so the model drops it.
- `getPageAuthor` on a missing page throws inside the sqlite callback. The model takes the lookup result as the `pageAuthor` parameter, with 0 when no author is found.
- PagesDao.GetPage: with no rows the source throws a TypeError inside the callback; the model returns `None`.
- The block-existence check at server/index.js:358-362 is not modelled. It tests an un-awaited promise and returns from inside `forEach`, so it has no effect.
- The result of `updatePage` and its `{error}` check, the title and author update of the `pages` table, `deletePage`, `getImages`, the CMS title queries and `getBlock` are not modelled. They are single SQL statements with no block logic.
- Dispatch.BlockStore.CreateBlock: sqlite's `lastID` is modelled as a counter `nextId`. Rowid reuse after deletions is not modelled. `Dispatch.AbsentStaysAbsent` and `Dispatch.RunRemovesDeleted` depend on this.
- A JSON array as a block value is `Other(_)`, whose `.length` the model takes as undefined. An array has a length, so the server rejects a deleted header whose value is `[]`, but the model accepts it.
- Block positions are integers. A non-integer position such as 1.5 is never counted by the position check, and the model cannot represent one.
- SQL text, sqlite errors (rejected promises) and the `this.changes` count are not modelled beyond "a row matched or not".
- Dates and the clock are day numbers with a `today` parameter. The time of day, time zones and date parsing by dayjs are not modelled.
- PagesDao.PublishedKey: the front comparator's branches for a missing date are not modelled. They are never reached after the filter.
- PageForm: React state batching, re-rendering and object aliasing are not modelled. Mutating `block.position` in place inside `map` is modelled as building a new list.
- PageForm.PageForm.HandleSubmit: the title, author and dates of the submitted page, the navigation and the `addPage`/`updatePage` calls are not modelled. The method returns the submitted block list.
- The admin author selector and `actual_user` in the page form are not modelled. They are UI state.
- Async ordering and concurrent requests are not modelled.
