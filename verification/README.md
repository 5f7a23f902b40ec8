# Travel Explorer: favorites store and search acceptance, in Dafny

This project models the two pieces of the Travel Explorer web client that
hold real logic:

- **The favorites page** (`src/favorites.js`). Favorite destination queries
  are kept as a JSON array of strings in the browser's durable key-value
  storage, under the single key `travelExplorerFavorites`. `getFavorites`
  reads that list. `removeFavorite` drops every entry equal to a query and
  writes the rest back. `displayFavorites` renders the list as rows: a
  single "You have no saved favorites yet." row for an empty list, otherwise
  one row per stored query, in stored order. Each row's remove button runs
  `removeFavorite` and then re-renders.
- **The search form** (`src/home.js`, `handleSearch`). The raw input is
  trimmed. A non-empty query navigates to
  `destination.html?query=` + `encodeURIComponent(query)`. An empty one is
  refused with an alert.

Modules:

- `Wrappers` (wrappers.dfy): `Result`. It stands for the exception a read of
  malformed storage throws.
- `Filter` (filter.dfy): `Without(xs, q)` models `xs.filter(x => x !== q)`.
  It is characterised by an independent definition: the unique
  order-preserving subsequence of `xs` whose multiset is `xs`'s multiset
  with `q` removed. `FilterOut` is the loop version, proved equal to it.
- `Links` (links.dfy): the destination link that both files build.
- `Favorites` (favorites.dfy): storage, read, remove, rows, and the remove
  button.
- `Search` (search.dfy): ECMAScript white space, `String.prototype.trim`
  and `handleSearch`.

Modelling choices:

- Storage is a `map<string, Blob>`. A missing key is a key outside the map.
- A `Blob` is the empty string (`Blank`), a JSON array of strings
  without lone surrogates (`Encoded(items)`), or anything else (`Malformed`).
- `JSON.stringify` followed by `JSON.parse` gives back the same array of
  strings. So writing a list stores `Encoded(list)`, and reading it back
  yields that list.
- `encodeURIComponent` and `decodeURIComponent` are parameters
  `encode`/`decode` of type `string -> string`. This treats them as total
  functions; nothing else is assumed about them.
- White space is the exact code-point set that `String.prototype.trim`
  strips: WhiteSpace and LineTerminator, sections 12.2 and 12.3 of ECMA-262.
  Apart from `IsWhiteSpace`'s own ensures, no proof depends on which
  characters are in that set.

Behaviour of the code that the model keeps:

- `getFavorites` calls `JSON.parse` on any non-empty stored string
  (src/favorites.js:11), and `JSON.parse` throws on malformed text. Such text
  is not read as an empty list. `GetFavorites` therefore returns `Failure` for
  `Malformed`. `RemoveFavorite` and `Listing` propagate that failure, and
  nothing is written.
- The code deduplicates neither on read nor on write, so the model keeps
  duplicates, and `removeFavorite` drops every copy (src/favorites.js:52).
- Removing from a missing or blank slot still writes `"[]"`. The list read
  back is identical (`RemoveAbsentKeepsList`), but the slot now exists.

## Model

| member | source | states |
|---|---|---|
| Filter.Without | src/favorites.js:52 | the filtered list never contains the query; an entry survives iff it was in the list and differs from the query; its length is the old length minus the number of occurrences |
| Filter.WithoutAbsent | src/favorites.js:52 | filtering a query that does not occur returns the list unchanged |
| Filter.WithoutIdempotent | src/favorites.js:52 | filtering the same query twice equals filtering it once |
| Filter.WithoutAppend | src/favorites.js:52 | filtering a concatenation is the concatenation of the filtered parts, so survivors keep their relative order |
| Filter.WithoutCommutes | src/favorites.js:52 | filtering two queries gives the same list in either order |
| Filter.WithoutEmpty | src/favorites.js:52 | nothing survives exactly when every entry equals the query |
| Filter.WithoutMultiset | src/favorites.js:52 | every entry other than the query survives with its original multiplicity, and every copy of the query is dropped |
| Filter.WithoutIsSubsequence | src/favorites.js:52 | the survivors are an order-preserving subsequence of the original list |
| Filter.WithoutUnique | src/favorites.js:52 | any order-preserving subsequence that keeps all non-matching entries and no matching one is the filtered list |
| Filter.FilterOut | src/favorites.js:52 | the element-by-element filter loop computes exactly `Without` |
| Links.DestinationLink | src/home.js:52 | the link splits into the fixed `destination.html?query=` prefix followed by exactly the encoded query |
| Favorites.GetFavorites | src/favorites.js:9-12 | a missing key or an empty string reads as the empty list; the read fails exactly when the stored text is malformed |
| Favorites.Persist | src/favorites.js:53 | after writing a list, the favorites key reads back that list, and every other key is unchanged |
| Favorites.RemoveFavorite | src/favorites.js:50-55 | fails iff the read fails; otherwise writes only the favorites key, which then holds a serialized list even if the slot was missing or blank, and the new list has no copy of the query, is a subsequence of the old list, and keeps every other entry's multiplicity and its length minus the removed copies |
| Favorites.RemoveWritesFiltered | src/favorites.js:51-53 | the list read back after a removal is exactly the filtered old list |
| Favorites.RemoveAbsentKeepsList | src/favorites.js:51-53 | removing a query that is not stored writes back the identical list |
| Favorites.RemoveIdempotent | src/favorites.js:50-55 | removing a query twice leaves the same storage as removing it once |
| Favorites.RemoveAfterWrite | src/favorites.js:50-55 | removing right after a write filters the written list, and the second write replaces the first |
| Favorites.RemoveTwice | src/favorites.js:50-55 | two removals in a row leave the storage of one write of the twice-filtered list |
| Favorites.RemoveCommutes | src/favorites.js:50-55 | removing two queries leaves the same storage in either order |
| Favorites.EntryFor | src/favorites.js:29-33 | the row for a query is an entry that removes that query, shows its decoding, and links to `destination.html?query=` followed by exactly its encoding |
| Favorites.EntryRows | src/favorites.js:28-47 | one row per stored query, at the same position; each links to `destination.html?query=` plus its encoded query and shows its decoded query |
| Favorites.Rows | src/favorites.js:23-28 | the listing is the single no-favorites row iff the list is empty; the notice never appears beside entries; otherwise there is one row per entry |
| Favorites.RowsQueries | src/favorites.js:23-47 | the queries read off the rendered rows are the stored list: none lost, duplicated or reordered |
| Favorites.Listing | src/favorites.js:17-47 | the listing fails iff the read fails; otherwise it shows the stored queries in stored order; it is the notice row iff the list is empty, and the notice never appears beside other rows; a non-empty list gives exactly one row per stored query, at its position, each the entry for that query |
| Favorites.OnRemoveClicked | src/favorites.js:39-42 | after the remove button, only the favorites key has changed, and it holds exactly the list the re-rendered rows show; those rows are what `displayFavorites` renders for the old list without any copy of the query: the notice row iff every old entry equalled the query and never beside other rows, and otherwise exactly one `EntryFor` row per surviving query, in order |
| Search.IsWhiteSpace | src/home.js:45 | every code point `trim` strips is a single non-surrogate UTF-16 code unit, so stripping code points and code units agree |
| Search.TrimStart | src/home.js:45 | the result is a suffix of the input; the cut-off prefix is all white space; the result does not start with white space |
| Search.TrimEnd | src/home.js:45 | the result is a prefix of the input; the cut-off suffix is all white space; the result does not end with white space |
| Search.Trim | src/home.js:45 | the trimmed query neither starts nor ends with white space |
| Search.TrimSplit | src/home.js:45 | the input is the trimmed query wrapped in a leading and a trailing white-space run |
| Search.TrimStrips | src/home.js:45 | there exist white-space runs around the trimmed query that rebuild the input |
| Search.TrimUnique | src/home.js:45 | for any split of the input into white space, an unpadded middle and white space, the middle is the trimmed query |
| Search.TrimmedIsFixed | src/home.js:45 | a string with no white space at either end is unchanged by trimming |
| Search.TrimIdempotent | src/home.js:45 | trimming twice equals trimming once |
| Search.TrimEmptyIffWhite | src/home.js:45-47 | the trimmed query is empty iff the input is all white space, including the empty input |
| Search.TrimIgnoresPadding | src/home.js:45 | white space added around the input does not change the trimmed query |
| Search.HandleSearch | src/home.js:43-56 | the input is refused with the alert text iff it is all white space; otherwise the target is `destination.html?query=` followed by the encoding of the non-empty trimmed query |
| Search.SearchNavigatesToStripped | src/home.js:45-52 | whenever the input is a non-empty unpadded query wrapped in white space, the search navigates to that query's destination link |
| Search.SearchIgnoresPadding | src/home.js:43-56 | white space added around the input never changes the outcome of a search |
| Search.TrimBounds | src/home.js:45 | scanning inward from both ends finds bounds whose slice is the trimmed query, with only white space outside them |

## Left out

- Weather, attraction, photo and currency fetching, the map, currency recalculation, and adding or toggling favorites. `src/destination.js` only has placeholders and TODO comments for these, so there is no behaviour to model.
- `src/destination.js` in general. It assigns DOM text. Its `getQueryParam` is a thin wrapper over `URLSearchParams`.
- The static featured-destinations list in `src/home.js`. It is constant data with no logic.
- `vite.config.js`. It is build configuration.
- DOM construction and styling, `console.log`, `alert`, `preventDefault` and the `window.location` assignment. These are I/O. The alert appears only as its message in `Rejected`, and the assignment appears as the `Navigate` target.
- The early return of `displayFavorites` when the list element is missing from the page. That is a DOM lookup.
- Favorites.EntryRows: `decodeURIComponent` can throw `URIError` on a malformed escape. The model treats `decode` as total. A throw would stop the rendering loop part-way. The log line of `removeFavorite` (src/favorites.js:54) decodes again, but on the remove button's path that decoding already succeeded at src/favorites.js:33, so it can throw only on a direct call of `removeFavorite`.
- Favorites.GetFavorites: stored JSON that parses but is not an array of strings is folded into `Malformed`, and the model reports failure for it. In JavaScript some such text runs without error. The JSON string `""` parses to an empty string of length 0, so the listing shows the no-favorites row (src/favorites.js:23-24). An array of numbers such as `[1,2]` renders one row per element, and `removeFavorite` filters it and writes it back (src/favorites.js:52-53). An object whose `length` is 0, such as `{"length":0}`, also shows the no-favorites row without error (src/favorites.js:23), and only `removeFavorite` throws, at `filter` (src/favorites.js:52). Other shapes (`null`, a number, another object, a non-empty string) throw later, at `.length`, `forEach` or `filter`, rather than at `JSON.parse`. A stored array whose strings include a lone surrogate, such as `["\ud800"]`, is an array of strings in JavaScript, but a Dafny string cannot hold a lone surrogate, so it cannot be `Encoded` and is read as a failure. In JavaScript `getFavorites` and `removeFavorite` run on it without error (src/favorites.js:11, src/favorites.js:52-53), and only the listing throws, at `encodeURIComponent` (src/favorites.js:32).
- `encodeURIComponent` throws `URIError` on a lone surrogate (src/home.js:52, src/favorites.js:32). Dafny strings cannot hold a lone surrogate, so the model treats `encode` as total and that error path is not modelled.
- `localStorage.getItem` and `localStorage.setItem` can throw, for example `SecurityError` when storage is disabled or `QuotaExceededError` when it is full (src/favorites.js:10, src/favorites.js:53). Storage is modelled as a map that is always readable and writable.
- JSON parsing and serialization, and URI encoding and decoding, are not modelled beyond the assumptions listed above.
