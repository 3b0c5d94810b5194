# Movie watchlist — a Dafny model

This project models the bookkeeping core of `MovieWatchlistApp`, a browser
client that searches a movie-metadata service and keeps a personal
watchlist in the browser's durable key-value store (`localStorage`):

- **Watchlist store** (`Storage`, `Watchlist`): the store is an immutable
  `map<string, string>` from movie identifier to display title. A movie is
  "in the watchlist" when its key is present with a non-empty value, because
  the source tests the truthiness of `getItem`. Adding, removing and the
  delegated click handler are transitions of the store. Each transition also
  carries the page effect it asks for: nothing, an in-place "Added" label, or
  a re-render of the watchlist page.
- **Search** (`Search`): the search-bar guard (`trim` and the falsy test), the
  keyword-search reply, and the per-search dedup set. Each stub's detail
  lookup is an opaque outcome (`Option<Movie>`). The lookups settle in an
  order passed as a parameter, which must visit each lookup exactly once.
- **Watchlist page** (`WatchlistPage`): the empty-store placeholder, one
  detail request per stored key, and dropping failed lookups.
- **Rendering decisions** (`Render`, `Pages`): the poster-or-fallback choice,
  placeholder text for missing fields, and the control a card carries.
  Cards are datatypes, not markup.

`JsText` models the two pieces of JavaScript semantics the logic relies on.
These are truthiness of a possibly-undefined string, and
`String.prototype.trim` with the ECMAScript whitespace and line-terminator
characters.

Behaviours of the code that the model follows:
- An empty `Search` array is truthy in JavaScript. Such a reply therefore
  renders an empty card list, not the "no results" view (`Search.PerformSearch`).
- If the keyword request or its JSON decoding throws, the catch runs before
  `movieIds.clear()`. The dedup set then keeps the previous search's
  identifiers until the next search clears it. The view is "no results" either way.
- The add path treats a key stored with an empty title as absent, and it
  overwrites that key.
- `isWatchlistEmpty` counts every key of the origin. So a store holding only
  keys that fail to look up shows an empty card list, not the placeholder.
- An add click on a movie with an empty title shows the "Added" label, but
  the stored empty title is falsy, so the movie is not treated as
  watchlisted and the next render offers the add control again.

## Model

| member | source | states |
|---|---|---|
| JsText.Trim | src/main.js:148 | the trimmed term is empty exactly when the input is all whitespace; otherwise it starts and ends with non-whitespace and is a slice of the input between whitespace-only prefix and suffix |
| JsText.TrimIsIdempotent | src/main.js:148 | trimming a trimmed term changes nothing |
| Storage.GetItem | src/main.js:132 | `getItem` yields a value exactly when the key is stored, and that value is the stored one |
| Storage.SetItem | src/main.js:139 | `setItem` adds the key with the given value and keeps every other entry |
| Storage.RemoveItem | src/main.js:143 | `removeItem` drops exactly the key, keeps every other entry, and is a no-op on an absent key |
| Storage.EnumerationLength | src/main.js:70 | `Object.keys(localStorage)`, for keys that are not built-in property names, has exactly one position per stored key |
| Movies.Successes | src/main.js:80 | filtering out failed lookups keeps exactly the successful movies and never lengthens the list |
| Movies.SuccessesDistributes | src/main.js:80 | filtering distributes over concatenation, keeps a success as one element and drops a failure, so order and one entry per successful position are kept |
| Movies.MaskedSuccessesAreSubsequence | src/main.js:185-200 | nulling out some lookups and then filtering yields a subsequence of the successful lookups |
| Movies.DistinctSuccesses | src/main.js:189-200 | lookups kept with pairwise distinct identifiers filter to a list without duplicate identifiers |
| Movies.IdsOfSuccesses | src/main.js:200 | the identifiers of the filtered list are the identifiers of the successful positions |
| Render.PosterSrc | src/main.js:243-245 | the poster when defined, non-empty and not "N/A", else the fallback image; never empty and never "N/A" |
| Render.PosterSrcIsUsable | src/main.js:243-245 | the chosen source is itself a usable poster, so choosing again keeps it |
| Render.FieldOr | src/main.js:228-237 | a missing or empty field shows the placeholder; a present one shows itself; the shown text is never empty |
| Render.FieldOrIsStable | src/main.js:228-237 | a shown field read back shows the same text, and a missing field displays like one holding the placeholder |
| Render.CreateAddButton | src/main.js:247-258 | the "Added" label exactly when the movie is in the watchlist at render time, else the add control; both carry the movie's identifier and title |
| Render.CreateRemoveButton | src/main.js:260-265 | the remove control, carrying the movie's identifier and title |
| Render.CreateMovieCard | src/main.js:212-241 | the watchlist page gets a remove control, the search page an add control or the "Added" label by membership; the poster is the movie's usable poster or else the fallback image, each field is the movie's value or its placeholder ("N/A", or "No plot available." for the plot), and none of them is empty |
| Render.RenderMovies | src/main.js:205-210 | one card per movie, in order |
| Render.RenderKeepsIds | src/main.js:205-210 | the cards carry exactly the movies' identifiers, and distinct movies give cards with distinct identifiers |
| Render.SearchCardControls | src/main.js:247-257 | every search-page card shows "Added" exactly for watchlisted movies and never a remove control |
| Watchlist.StoredTitle | src/main.js:118 | a missing `data-title` is stored as the text "undefined", a present one as itself |
| Watchlist.AddToWatchlist | src/main.js:131-140 | a watchlisted movie leaves the store and page unchanged; otherwise the identifier maps to the title, every other entry is kept, and the "Added" label replaces the control |
| Watchlist.RemoveFromWatchlist | src/main.js:142-145 | the key is absent afterwards, every other entry is kept, and the watchlist page is rendered again |
| Watchlist.HandleWatchlistClick | src/main.js:117-129 | no identifier changes nothing; a `data-remove` marker removes that identifier only; any other click adds it with its title |
| Watchlist.AddIsIdempotent | src/main.js:131-132 | a repeated add stores the same as one add, and with a non-empty title it has no effect at all |
| Watchlist.AddThenRemoveRestores | src/main.js:139-143 | adding an unstored movie and removing it restores the store |
| Watchlist.RemoveIsIdempotent | src/main.js:143 | removing twice equals removing once |
| Watchlist.ControlDataset | src/main.js:251-263 | a control's data attributes carry its identifier and title, and a remove marker exactly on the remove control |
| Watchlist.ClickOnCardControl | src/main.js:117-129 | clicking a card's remove control removes, its add control stores the title, the "Added" label changes nothing, and an empty identifier is ignored |
| Watchlist.AddedLabelMatchesRerender | src/main.js:134-139 | for a non-empty identifier and title, the label an add click shows in place equals the control a fresh search-page render would show |
| Watchlist.EmptyTitleLabelDisagreesWithRerender | src/main.js:134-139 | with an empty title, an add click shows the "Added" label while a fresh search-page render of the updated store shows the add control again |
| WatchlistPage.IsWatchlistEmpty | src/main.js:51-53 | the page counts as empty exactly when the store holds no key at all, whatever the stored titles |
| WatchlistPage.EmptinessCountsEveryKey | src/main.js:51-53 | a store whose only entry has an empty title watchlists nothing yet is not empty for the page |
| WatchlistPage.FetchedKeysDistinct | src/main.js:69-81 | distinct stored keys stay distinct after the keys whose lookup failed are dropped |
| WatchlistPage.SuccessesFollowFetchedKeys | src/main.js:70-80 | filtering the lookups leaves, position by position, the movie of each key whose lookup succeeded |
| WatchlistPage.FetchWatchlistMovies | src/main.js:69-81 | one movie per key whose lookup succeeded, in key order, each the one that key's lookup returned; a movie is in the list exactly when some key's lookup returned it |
| WatchlistPage.RenderWatchlistPage | src/main.js:38-49 | the placeholder exactly when the store is empty, with no requests; otherwise a card list is shown, each stored key is requested once, and there is one remove-control card per key whose lookup succeeded |
| WatchlistPage.WatchlistShowsExactlyFetched | src/main.js:46-48 | every card belongs to a movie fetched for a stored key, and every stored key that fetched has its card |
| WatchlistPage.RenderedCardsAreFetched | src/main.js:46-48 | each card rendered from the fetched list is the card of a stored key whose lookup succeeded |
| WatchlistPage.FetchedCardsAreRendered | src/main.js:46-48 | each stored key whose lookup succeeds has its card among those rendered |
| WatchlistPage.RemoveThenReload | src/main.js:142-145 | after a removal the reloaded page is either the placeholder, exactly when nothing else was stored, or a card list showing exactly the remaining keys that fetch |
| Search.SearchTerm | src/main.js:147-150 | no term exactly when the search bar is missing or holds only whitespace; otherwise the non-empty trimmed text |
| Search.FetchSearchResults | src/main.js:184-200 | for any settle order, each promise settles to its own lookup or to null; the kept movies have distinct identifiers and cover every successful identifier not already in the dedup set; the dedup set grows by exactly those identifiers |
| Search.PerformSearch | src/main.js:147-203 | a blank query issues no request and leaves the page unchanged; a failed request or a missing `Search` shows "no results"; otherwise the cleared dedup set ends up holding exactly the card identifiers; there is one card per distinct successful movie, the shown movies are a subsequence of the successful lookups, and each card shows "Added" exactly for watchlisted movies |

## Left out

- Network I/O: `fetch`, URL construction and `encodeURIComponent`, the
  API key and base URL, `response.ok`, `response.json()` and the `movie.Error`
  check (src/main.js:83-115, 153-155). Each lookup is an opaque outcome:
  `Some(movie)` on success, `None` for any failure. The keyword search is a
  `CoarseReply`.
- `Promise.all` concurrency. The lookups of one search are modelled as settling one
  after another in a given order. The race between overlapping searches is
  not modelled: they share `movieIds`, and a slow earlier reply can overwrite
  a newer one. Nor are overlapping watchlist re-renders: `removeFromWatchlist`
  does not await `renderWatchListMovies` (src/main.js:144). Each render clears
  the page (46) and appends its own batch after its await (47-48). Two quick
  removals can therefore show the movie removed second and duplicate the
  other cards. If the second removal empties the store, the placeholder (42)
  is followed by the first batch's cards. `WatchlistPage.RemoveThenReload`
  holds only for removals whose re-renders do not overlap. A click cannot
  start such an overlap: each render clears the page before its first
  await, so no remove control exists until that render has appended its
  batch. Only a second call made from code triggers the race.
- The DOM: `innerHTML` strings and their markup, `querySelector`, listener
  wiring, `DOMContentLoaded`, `preventDefault`, and the image `onerror`
  fallback. Cards and controls are datatypes. The `alt` text and attribute
  escaping of titles are not modelled.
- `console.error` logging.
- `localStorage` as a browser API. It is an immutable map. Key order is the
  `keys` parameter of the watchlist page, which must enumerate the store.
  `Object.keys` skips stored keys that shadow built-in properties of the
  storage object (such as "length" or "getItem"), while `localStorage.length`
  still counts them. The model assumes no stored key does.
- The `if (!this.watchlistPage) return` guard (src/main.js:39). `RenderWatchlistPage`
  models the watchlist page only. On the search page the `ReloadWatchlist`
  effect of a removal does nothing.
- Search.PerformSearch: a reply whose `Search` field is truthy but not an
  array, or whose JSON is `null`, is not modelled. In the source both reach
  the catch and show "no results".
