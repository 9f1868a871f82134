# Book Connect browsing core, in Dafny

A model of the book-browsing logic of Book Connect's `scripts.js`, a
client-side page that lists a book catalog a page at a time, filters it by
title, author and genre, and opens a detail dialog for a clicked book.

- `text.dfy` (module `Text`): the string operations the search relies on —
  JavaScript's `trim` (the ECMAScript white-space and line-terminator set),
  `toLowerCase` restricted to ASCII letters, and `includes`.
- `search.dfy` (module `Search`): the `Book` and `Criteria` records, the three
  tests a book must pass, the specification `Selected` of the filter, and the
  search handler's two loops as the methods `Filter` and `GenreMatch`.
- `selection.dfy` (module `Selection`): the item-click lookup of a book by id
  in the whole catalog, as the specification `Lookup` and the loop `FindById`.
- `paging.dfy` (module `Paging`): `Array.prototype.slice` for non-negative
  bounds, the preview fragment builder as the loop `BookListFragment`, and the
  "remaining books" arithmetic behind the "Show more" button.
- `book_connect.dfy` (module `BookConnect`): class `App`, holding the globals
  `globalPage` and `globalMatches` as `page` and `matches`, plus what the page
  displays: the rendered list (as book ids), the button's disabled flag and
  count, the empty-results message and the detail dialog's fields. Its
  methods are the start-up load, the search submit (the filter followed by
  `ResetWith`), the "Show more" click, the
  item click and the shared render step `loadNextPageOfBooks`. `Valid()` is
  the invariant between events: the list shows exactly the first `page + 1`
  pages of the matches, so it grows by cumulative append.
- `scenarios.dfy` (module `Scenarios`): two clients that page through 25 books
  shown 10 at a time and search for a missing genre, using only `App`'s
  contracts.

The catalog, the author-name map and `BOOKS_PER_PAGE` come from `data.js`,
which is not part of this model; they are the parameters of `App`'s
constructor, which requires a positive page size.

Three behaviours of the code that the model keeps as written:
- the substring test uses the untrimmed query; only the emptiness test trims.
  So a query made of a title followed by a space, such as `"dune "` for the
  title `"Dune"`, does not find that title
  (`Search.UntrimmedQueryMissesTitle`);
- "Show more" has no guard of its own: `ShowMore` always increments `page`.
  Once the button is disabled the batch it renders is empty, so the list and
  the button are unchanged;
- the empty-results message is only touched by a search; at start-up it keeps
  its initial, hidden state.

## Model

| member | source | states |
|---|---|---|
| `Text.TrimStart` | scripts.js:117 | the result is a suffix of the input, everything cut off is white space, and it does not start with white space |
| `Text.TrimEnd` | scripts.js:117 | the result is a prefix of the input, everything cut off is white space, and it does not end with white space |
| `Text.Trim` | scripts.js:117 | `trim` returns the input with only white space cut off at either end, and with no white space left at either end |
| `Text.TrimStartThenEnd` | scripts.js:117 | cutting leading white space and then trailing white space leaves a stretch of the input with only white space before and after it |
| `Text.TrimEmptyIffBlank` | scripts.js:117 | a query trims to `''` exactly when every character of it is white space |
| `Text.Lower` | scripts.js:117 | lower-casing keeps the length, maps each character on its own and leaves no ASCII upper-case letter |
| `Text.LowerIdempotent` | scripts.js:117 | lower-casing an already lower-cased string changes nothing |
| `Text.LowerCharKeepsWhiteSpace` | scripts.js:117 | lower-casing a character neither makes nor removes white space |
| `Text.LowerKeepsBlankness` | scripts.js:117 | a query is blank after lower-casing exactly when it was blank before |
| `Search.Selected` | scripts.js:106-123 | the filter result is no longer than the catalog and holds only catalog books |
| `Search.KeptPositions` | scripts.js:108-123 | the positions the filter keeps are valid catalog positions in strictly increasing order |
| `Search.KeptPositionsExact` | scripts.js:108-122 | a catalog position is kept exactly when the book there passes the title, author and genre tests |
| `Search.SelectedIsOrderedSubsequence` | scripts.js:106-123 | the result is the catalog read at the kept positions in order: a stable filter with no reordering, duplication or loss |
| `Search.SelectedMembership` | scripts.js:108-122 | a book is in the result if and only if it is in the catalog and passes the title, author and genre tests |
| `Search.SelectedEmptyWhenNothingMatches` | scripts.js:106-123 | when no catalog book passes, the result is the empty list |
| `Search.BlankQueryMatchesEveryTitle` | scripts.js:117 | a title query of white space only puts no constraint on the title |
| `Search.TitleMatchIgnoresCase` | scripts.js:117 | the title test gives the same answer when title and query are lower-cased first |
| `Search.UntrimmedQueryMissesTitle` | scripts.js:117 | for any title that is not blank, the query made of that title followed by a space is not blank yet does not match the title, because the substring test does not trim |
| `Search.GenreMatch` | scripts.js:109-114 | the genre loop, with its early exit, answers true exactly when the genre is `'any'` or one of the book's genres |
| `Search.Filter` | scripts.js:106-123 | the handler's loop, pushing each book that passes the three tests, returns exactly `Selected` of the catalog |
| `Selection.Lookup` | scripts.js:161-167 | the lookup returns a catalog book carrying the clicked id, and returns nothing exactly when no catalog book carries it |
| `Selection.LookupFindsFirst` | scripts.js:161-167 | the book returned is the one at the first catalog position carrying the id |
| `Selection.LookupByOwnId` | scripts.js:161-166 | in a catalog with unique ids every book is found by its own id, whatever the current matches |
| `Selection.FindById` | scripts.js:158-169 | the loop over the whole catalog, stopping once a book is found, returns `Lookup` of the clicked id |
| `Paging.Slice` | scripts.js:243 | `slice` yields the elements from `start` that exist before `end`, in order, and none when `end` does not exceed `start` |
| `Paging.IdsAppend` | scripts.js:274-276 | appending a batch of previews appends its ids |
| `Paging.BookListFragment` | scripts.js:240-264 | the fragment loop builds one preview per book of the slice, in slice order |
| `Paging.RemainingCountsUnshown` | scripts.js:279-283 | the button is disabled exactly when every match is shown, and its count is the number of matches not yet shown, never negative |
| `Paging.NextPageExtendsWindow` | scripts.js:271-276 | the first `p` pages followed by page `p`'s batch are the first `p + 1` pages |
| `Paging.PagePastEndIsEmpty` | scripts.js:275-280 | once the button would be disabled, the next page's batch is empty |
| `BookConnect.App.constructor` | scripts.js:56-65 | start-up: page 0 and the whole catalog as matches (the two globals), then the first load of `initializeBookConnect` (scripts.js:289-291): its first page rendered, button state consistent, no message and no detail |
| `BookConnect.App.LoadNextPage` | scripts.js:268-285 | clears the list on page 0, appends the current page's slice, and leaves the list and button in the state `Valid` describes |
| `BookConnect.App.Search` | scripts.js:102-134 | after a search: page 0, matches are `Selected` of the whole catalog whatever the old state, message shown iff no match, first page rendered |
| `BookConnect.App.ResetWith` | scripts.js:125-134 | page 0 and the given matches whatever the old state, message shown iff there are none, first page rendered, detail untouched |
| `BookConnect.App.ShowMore` | scripts.js:141-144 | page up by exactly 1, matches unchanged, the page's batch appended; when the button was disabled nothing changes in the list |
| `BookConnect.App.SelectItem` | scripts.js:147-181 | an empty preview id or an unknown id leaves the detail as it was; a known id fills it from the first catalog book with that id; a rendered non-empty id always opens one |
| `BookConnect.App.ButtonReflectsList` | scripts.js:279-283 | between events the button is disabled exactly when every match is listed, and its count is the number of matches not yet listed |
| `BookConnect.App.RenderedIdsResolve` | scripts.js:246 | every id in the rendered list is found by the catalog lookup |

## Left out

- The DOM: element lookups, modal open and close listeners, `scrollTo`,
  `focus`, and the HTML templates of previews and of the button. The list is
  modelled as the sequence of preview ids, the button as its disabled flag
  and count.
- The event-path traversal around the lookup: `SelectItem` takes the id of
  the first node on the path that carries a `data-preview` value, with `""`
  standing for "no such node" (an empty value is falsy and opens nothing).
- The publication year in the detail subtitle, which depends on `Date`
  parsing; the subtitle is modelled by the author's name only.
- Theme switching (`toggleDisplayMode`, the `matchMedia` check) and the
  building of the author and genre `<option>` lists, which are styling and
  DOM construction.
- `components.js`, the custom dialog element, which only assigns properties.
- The contents of `data.js`: the catalog, the author names and the page size
  are parameters.
- `Text.Lower`: lower-cases ASCII letters only, not the full Unicode mapping
  of `toLowerCase`.
- Closing the detail dialog is not modelled, so `detail` records the last
  book the dialog was opened with.
