# Book catalogue screens: retrieval, grouping and view state

This project models the core of a React Native catalogue browser. The app
queries a volume-search service for one subject category and groups the
volumes it gets back into author sections. It then shows those sections as
a list, with category tabs above them and a detail view for one selected
book.

The repository holds two diverging copies of the same screen. Each copy is
modelled in its own module, and the model does not reconcile them:

- `FilteredScreen` models the screen in `styles/global.js`. It requests up
  to 20 pages of 40 results at offsets `i*40` and stops once 800 results
  have been gathered. It keeps only volumes with a non-empty description
  and publisher, and files each one under its first author (or
  `Autor desconocido`). It shows the sections only when at least 10
  volumes survive the filter.
- `FanOutScreen` models the screen in `screens/BookScreen.js`. It makes a
  single request, applies no filter and no threshold, and files every
  volume under each of its authors.

Shared modules:

- `Books`: the volume, hit, response and section records, JavaScript
  truthiness, the view-state record `{category, books, loading, error,
  selectedBook}`, and the two navigation taps (open a book, go back). Both
  screens implement these taps identically.
- `Grouping`: the `if (!grouped[k]) grouped[k] = []; grouped[k].push(v)` /
  `Object.keys` idiom, as an ordered list of sections. It also gives
  independent reference definitions of what that idiom should yield:
  `Keys` (the distinct keys in first-occurrence order), `Select` (the
  volumes filed under one key, in order) and `FirstIndex`.
- `Pages`: the page loop, as a method with loop invariants
  (`FetchPages`) and as a function (`FetchAll`). The remote service is a
  function from the `startIndex` offset to a response.

A fetch cycle is modelled as two atomic transitions: `BeginFetch` when the
cycle starts and `Finish`/`Resolve` when it ends. Between them, any number
of other events may happen. The `Event`/`Run` machinery lets a cycle
resolve at any point, because the source does not track which cycles are
still in flight.

## Behaviour worth noting

- Results are applied in the order cycles finish. Whichever cycle finishes
  last without a load failure sets the list, even one started for the
  previous category (`LateResultOfOldCategoryWins`). A cycle that fails
  keeps the list and shows the load-failure message. The first cycle to
  finish also clears `loading`.
- A page with no `items` uses up one of the 20 requests, adds nothing, and
  the loop carries on (`EmptyPagesUseEveryRequest`).
- A hit without `volumeInfo` makes the grouping code throw inside the
  `try`, so the whole cycle takes the load-failure branch (`Cycle` in both
  screens).
- A book can be opened while a cycle is loading. The list stays rendered
  during loading as long as no error text replaces it (`Tappable`).
- In `FanOutScreen` a volume with several authors is in several sections.
  In `FilteredScreen` every kept volume is in exactly one section
  (`ExactlyOneSection`).
- The filtered screen never clears the selection when the category changes,
  but the tabs are hidden while a book is open, so the effect is the same
  (`TapCategory`).

## Model

| member | source | states |
|---|---|---|
| Books.PageItems | styles/global.js:33 | a response's `items`, or nothing when `items` is absent |
| Books.Volumes | styles/global.js:38-40 | reading `volumeInfo` succeeds exactly when every hit has one, and then yields those records in order |
| Books.Total | styles/global.js:52 | the reduce over section lengths equals the number of volumes in the flattened sections |
| Books.InAllVolumes | styles/global.js:117-121 | a volume is rendered in the list exactly when some section contains it |
| Books.Initial | styles/global.js:17-21 | the hook defaults: category `Fiction`, no books, not loading, empty error, nothing selected |
| Books.BeginFetch | styles/global.js:24-25 | a cycle starts with loading on and the error cleared, and nothing else changes (the same two calls open screens/BookScreen.js's cycle at lines 23-24) |
| Books.TapBook | styles/global.js:121 | tapping a rendered row (list shown, no error text, volume in a section) selects it and changes nothing else; a row that is not rendered leaves the state unchanged |
| Books.TapBack | styles/global.js:78 | back returns to the list and changes nothing else |
| Books.TapBookThenBack | screens/BookScreen.js:72-108 | opening a book and going back restores the exact list state; while a book is open no other row can be opened |
| Grouping.Keys | styles/global.js:47 | reference: the distinct keys of the pushes, each once, and exactly those that occur |
| Grouping.FirstIndex | styles/global.js:42 | reference: the position of the first push under a key, with no earlier push under it |
| Grouping.TitleIndex | styles/global.js:42 | the `grouped[author]` lookup finds the section with that key, or reports that there is none |
| Grouping.Push | styles/global.js:42-43 | one push appends the volume to its key's section, or opens a new section at the end; other sections, all titles and distinctness are kept |
| Grouping.Group | styles/global.js:37-50 | the whole accumulation yields distinct sections whose titles are `Keys` in order and whose data are exactly `Select` of each title |
| Grouping.SelectNonEmpty | styles/global.js:42-43 | a key has volumes filed under it exactly when some push uses it |
| Grouping.KeysInFirstOccurrenceOrder | styles/global.js:47-50 | keys appear in strictly increasing order of their first push |
| Grouping.PushAddsOne | styles/global.js:43 | one push adds exactly that volume, once, to the flattened sections |
| Grouping.GroupPartitions | styles/global.js:38-50 | the flattened sections are a permutation of the pushed volumes: none lost, none duplicated |
| Grouping.GroupTotal | styles/global.js:52 | the sum of the section sizes equals the number of pushes |
| Grouping.SelectAppend | screens/BookScreen.js:31-37 | the volumes under a key in two consecutive runs of pushes are those of the first run followed by those of the second |
| Pages.FetchPages | styles/global.js:27-35 | the loop issues 1 to 20 requests, request k at offset 40k, and yields what `FetchAll` yields, which is characterised by `Describes` |
| Pages.LoopSpec | styles/global.js:29-35 | from any iteration reached with all requests successful, the rest of the loop ends as `Describes` says |
| Pages.Loop | styles/global.js:29-35 | from iteration `i` the loop makes at most 20 requests in all; on success the items gathered so far are a prefix of the result and the loop stopped at 800 results or 20 requests; on failure the last request issued is the one that failed |
| Pages.FetchAll | styles/global.js:29-35 | success exactly when no issued request failed, giving the page items concatenated in request order; the loop stops at the first point where 800 results are reached or 20 requests were made; on failure the last request issued is the failed one |
| Pages.EmptyPagesUseEveryRequest | styles/global.js:33-34 | pages without `items` add nothing but do not end the loop: all 20 requests are made |
| FilteredScreen.Qualifies | styles/global.js:41 | a volume passes the filter exactly when its description and publisher are both present and non-empty, as JavaScript truthiness of strings says |
| FilteredScreen.PrimaryAuthor | styles/global.js:40 | the first author when the list is present, non-empty and its first name is non-empty; otherwise `Autor desconocido` |
| FilteredScreen.Retained | styles/global.js:41 | the kept volumes are exactly the input volumes with a non-empty description and publisher |
| FilteredScreen.SectionOf | styles/global.js:41-43 | reference section of an author: exactly the kept volumes with that first author |
| FilteredScreen.Keyed | styles/global.js:38-44 | the pushes are the kept volumes in input order, each under its own first author |
| FilteredScreen.KeyedSpec | styles/global.js:38-44 | the pushes under an author are that author's reference section |
| FilteredScreen.GroupByFirstAuthor | styles/global.js:37-50 | no two sections share an author; every volume in a section is kept and has that section's author first; each section is its author's reference section, in input order |
| FilteredScreen.GroupByFirstAuthorSpec | styles/global.js:37-52 | sections are distinct, hold only kept volumes under their own first author, each equals its reference section in input order, and together they are a permutation of the kept volumes (total = number kept) |
| FilteredScreen.SectionTitles | styles/global.js:42-47 | there is a section for an author exactly when some kept volume has that first author |
| FilteredScreen.ExactlyOneSection | styles/global.js:38-45 | a volume is in a section exactly when it is kept and the section is its first author's; every kept volume has its section |
| FilteredScreen.SectionsInFirstOccurrenceOrder | styles/global.js:42-50 | sections are ordered by the first kept volume of each author |
| FilteredScreen.FirstPushIsFirstRetained | styles/global.js:38-43 | the first push under an author is the first kept volume with that first author, so section order is first-occurrence order among the kept volumes |
| FilteredScreen.Aggregate | styles/global.js:52-58 | the outcome is the sections exactly when at least 10 volumes are kept, and those sections are well grouped with at least 10 volumes; otherwise it is the not-enough outcome |
| FilteredScreen.Cycle | styles/global.js:26-60 | a cycle fails exactly when a request fails or a gathered hit lacks `volumeInfo`; otherwise it loads the first-author grouping of the gathered volumes exactly when at least 10 are kept, and reports too few exactly when fewer are kept |
| FilteredScreen.Finish | styles/global.js:53-62 | loading ends on every outcome; success replaces the books; too few empties them and sets the not-enough message; failure keeps the books and sets the load-failure message |
| FilteredScreen.Resolve | styles/global.js:23-63 | a whole cycle ends loading and keeps category and selection; a failed request or a hit without `volumeInfo` keeps the books and shows the load-failure message; otherwise 10 or more kept volumes replace the books with their grouping, and fewer empty them and show the not-enough message |
| FilteredScreen.Mount | styles/global.js:66-68 | the mount effect starts the first cycle for `Fiction` |
| FilteredScreen.TapCategory | styles/global.js:103 | a tab tap does nothing while a book is open or when it is the current category; otherwise it switches category and starts a cycle with the books kept |
| FilteredScreen.StepPreservesConsistent | styles/global.js:52-58 | no single event breaks consistency (well-grouped sections, a non-empty list holds at least 10 volumes, the open book has a description and publisher) |
| FilteredScreen.RunPreservesConsistent | styles/global.js:37-63 | any sequence of taps and resolving cycles preserves consistency |
| FilteredScreen.MountedScreenStaysConsistent | styles/global.js:76-77 | from mount on, the detail view's description and publisher fallback texts are never needed |
| FilteredScreen.ThresholdSplit | styles/global.js:52-58 | 10 or more kept volumes replace the books and leave the error as is; fewer empty the books and set the not-enough message |
| FilteredScreen.FailedRequestKeepsBooks | styles/global.js:59-60 | if any issued request fails, the books stay as they were and the load-failure message is shown |
| FilteredScreen.LateResultOfOldCategoryWins | styles/global.js:23-64 | after a category change, a loaded cycle that resolves last replaces the books under the new category, and loading is off |
| FanOutScreen.AuthorList | screens/BookScreen.js:33 | a present author list is used as is, even when empty; an absent one is replaced by the sentinel |
| FanOutScreen.FanOne | screens/BookScreen.js:34-37 | one push per listed author, in list order |
| FanOutScreen.FanOut | screens/BookScreen.js:31-38 | as many pushes as there are (author, volume) pairs, each of an input volume under an author it lists |
| FanOutScreen.FanOutPrefix | screens/BookScreen.js:31-38 | the pushes for the first volumes come before all later pushes |
| FanOutScreen.FanOutBlocks | screens/BookScreen.js:31-38 | the pushes of each volume form one block, in author-list order, placed after the pushes of every earlier volume: the outer loop runs in input order and the inner one in author order |
| FanOutScreen.FanSelect | screens/BookScreen.js:34-37 | the pushes for one author list put the volume under an author once per listing |
| FanOutScreen.FanOneSelect | screens/BookScreen.js:34-37 | the same fact for a volume's own author list |
| FanOutScreen.FanOutSelect | screens/BookScreen.js:31-38 | the pushes under an author are that author's reference section |
| FanOutScreen.GroupByEachAuthor | screens/BookScreen.js:30-43 | no two sections share an author; every volume in a section lists that author; each section is its author's reference section, in input order, once per listing |
| FanOutScreen.InSectionOf | screens/BookScreen.js:33-37 | a volume is in an author's reference section exactly when it lists that author |
| FanOutScreen.GroupByEachAuthorSpec | screens/BookScreen.js:30-43 | sections are distinct; each equals its author's reference section (input order, once per listing); the total is the number of (author, volume) pairs, with nothing filtered |
| FanOutScreen.SectionMembership | screens/BookScreen.js:33-37 | a volume is in exactly the sections of its listed authors: the sentinel's when it has no authors field, none when the array is empty |
| FanOutScreen.SectionTitles | screens/BookScreen.js:35-40 | there is a section for an author exactly when some volume lists that author |
| FanOutScreen.SectionsInFirstOccurrenceOrder | screens/BookScreen.js:40-43 | sections are ordered by the first push of each author |
| FanOutScreen.Cycle | screens/BookScreen.js:26-45 | the cycle fails exactly when the request fails or a hit lacks `volumeInfo`; otherwise it loads the fan-out grouping of the response's volumes, with no threshold: one volume per (author, volume) pair, each section its author's reference section, and a section exactly for each listed author; absent `items` gives no sections |
| FanOutScreen.Finish | screens/BookScreen.js:45-50 | loading ends on every outcome; success replaces the books; failure keeps them and sets `Error al cargar libros.` |
| FanOutScreen.Resolve | screens/BookScreen.js:22-51 | a cycle ends loading and keeps category and selection; a failed request or a hit without `volumeInfo` keeps the books and shows `Error al cargar libros.`; any other response replaces the books with its fan-out grouping |
| FanOutScreen.CategoryEffect | screens/BookScreen.js:53-56 | the category effect clears the selection, then starts a cycle |
| FanOutScreen.Mount | screens/BookScreen.js:53-56 | the mount effect starts the first cycle for `Fiction` with nothing selected |
| FanOutScreen.TapCategory | screens/BookScreen.js:87 | a tab tap does nothing while a book is open or when it is the current category; otherwise it switches category, clears the selection and starts a cycle |
| FanOutScreen.RunPreservesWellGrouped | screens/BookScreen.js:30-50 | any sequence of events keeps the books well grouped (distinct authors, each volume lists its section's author) |
| FanOutScreen.MountedScreenStaysWellGrouped | screens/BookScreen.js:53-56 | from mount on, the books are always well grouped |
| FanOutScreen.ResolveReplacesBooks | screens/BookScreen.js:31-50 | a response without `items` empties the books; a failed request keeps them and sets the load-failure message; loading ends either way |

## Left out

- HTTP, axios and URL building are not modelled. Each request is an abstract
  response: failed, or a body whose `items` may be absent. The search query
  string and the category in it are not modelled, so a response function
  stands for "the service answering for the current category".
- Overlapping cycles are two independent atomic start/finish transitions.
  The model keeps no record of how many cycles are pending, so a cycle may
  resolve at any point. This over-approximates the source, and the
  invariants are proved for that larger set of runs.
- `Object.keys` puts integer-like keys ("2024", say) first, in ascending
  numeric order. The model keeps pure insertion order, so it differs from
  the source when an author name is a canonical array index.
- A plain object literal inherits `Object.prototype`. An author named like
  one of its members (`constructor`, `toString`, `__proto__`, ...) makes
  `grouped[author]` truthy and `push` throw, which ends the cycle in the
  load-failure branch. The model treats every author name as a fresh key.
- JavaScript truthiness is modelled only for the fields the code tests: an
  optional string is truthy when present and non-empty, and a present author
  array is truthy even when empty. Non-string and non-array field values
  are not representable.
- `components/BookItem.js` is not modelled. It is presentation only: the
  thumbnail fallback and a 150-character description preview.
- Rendering and layout are not modelled: styles, `SectionList`,
  `keyExtractor`, images, the status bar, the activity indicator and the
  detail-view fallback strings. What the rendering decides about the state
  is modelled as guards: `ListShown` and `Tappable`.
- The category list constant is not part of this model. A category is any
  string, and tapping any string other than the current category counts as
  a change.
- Image links and any other `volumeInfo` fields the core never reads are not
  modelled.
