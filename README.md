# MovieFinder core, modelled in Dafny

MovieFinder is a browser client for a movie database. It searches for movies, shows them a page at a time, shows details pages, and keeps a list of favorite movies in browser storage. This project models the three pieces of it that are plain logic. Rendering, routing and network access are not modelled.

- **Pagination strip** (`pagination.dfy`, module `Pagination`). `getVisiblePages` takes the current page `c` and the page count `t`. It returns page 1, the pages within 2 of `c` (clipped to 2..t-1) and page `t`, with a `'...'` marker wherever pages are skipped. The component renders nothing for `t <= 1`. Otherwise it draws "previous" and "next" buttons around one button per token. The `for`/`push` loop is the method `GetVisiblePages`, and it is proved equal to the specification function `VisiblePages`. That function is defined for every pair of integers, because the source puts no condition on its inputs. The properties are proved for the inputs the search page passes once the guard lets it through: `1 <= c <= t` and `t >= 2`. `VisiblePages` is also proved equal to a second, independent description: keep page 1, page `t` and the pages near `c`, then mark each gap with one ellipsis.
- **Favorites store** (`favorites.dfy`, module `Favorites`). The updaters of `useFavorites` are functions over `seq<Movie>`: `some` is `HasId`, the append updater is `Added`, `filter` is `Removed`, and the toggle decision is `Toggled`. The hook's state is the class `FavoritesStore`. Its methods replace the list the way `setFavorites` does. A ghost field records the list this instance's save effect last wrote to storage. Reading storage and `JSON.parse` are parameters of the load: the stored text is an `Option<string>`, and the parser is a function returning `Option<seq<Movie>>`.
- **Image address** (`image_url.dfy`, module `TmdbImages`). `getImageUrl` returns no address for a missing or empty path. Otherwise it returns base URL + `/` + size + path, with the size defaulting to `w500`.

`optional.dfy` holds the `Option` type used by all three.

The model follows the code at these points, where its behaviour is easy to misread:
- Removing deletes every entry with the id. It is a `filter`, not a removal of one entry.
- An empty stored text is treated like a missing one. The load effect does nothing, so the list stays empty.
- A successfully parsed list is taken as it is, without removing duplicates. So unique ids are an invariant the updates preserve, not something the store enforces. `Load` promises nothing about uniqueness.
- Saving is a React effect that runs after each change of the list, not a step of each update. The model treats it as completing with the update.

## Model

| member | source | states |
|---|---|---|
| Pagination.WindowStart | src/components/Pagination.jsx:11 | no contract of its own: the first window page, described by `Window` and `VisiblePagesAt` (never below 2, at most 2 before the current page) |
| Pagination.WindowEnd | src/components/Pagination.jsx:12 | no contract of its own: the last window page, described by `Window` and `VisiblePagesAt` (never above t - 1, at most 2 after the current page) |
| Pagination.Window | src/components/Pagination.jsx:10-16 | the middle window has at most 5 pages, each in 2..t-1 and within 2 of the current page |
| Pagination.VisiblePages | src/components/Pagination.jsx:5-33 | the strip has 2 to 9 tokens, starts with page 1 and ends with page t |
| Pagination.Head | src/components/Pagination.jsx:18-22 | no contract of its own: page 1 and the leading '...', described by `VisiblePagesAt` and `VisiblePagesEllipses` (a '...' second exactly when c - 2 > 2) |
| Pagination.Tail | src/components/Pagination.jsx:26-30 | no contract of its own: the trailing '...' and page t, described by `VisiblePagesAt` and `VisiblePagesEllipses` (a '...' second-to-last exactly when c + 2 < t - 1) |
| Pagination.Paginate | src/components/Pagination.jsx:35-37 | nothing is produced exactly when t <= 1; otherwise the strip runs from page 1 to page t |
| Pagination.GetVisiblePages | src/components/Pagination.jsx:5-33 | the counting loop and the pushes build exactly the strip `VisiblePages(c, t)`, for any integers c and t |
| Pagination.VisiblePagesOrdered | src/components/Pagination.jsx:10-30 | for t >= 2 (any c) page numbers strictly increase, so none repeats, and all lie in 1..t |
| Pagination.VisiblePagesShowsCurrent | src/components/Pagination.jsx:10-30 | for 1 <= c <= t the current page is among the tokens |
| Pagination.VisiblePagesEllipses | src/components/Pagination.jsx:18-30 | the second token is '...' iff c - 2 > 2; the second-to-last is '...' iff c + 2 < t - 1; no other position holds one |
| Pagination.VisiblePagesGaps | src/components/Pagination.jsx:10-30 | the first and last tokens are numbers; every '...' sits between two numbers that differ by at least 2, so a '...' is never first, last or next to another |
| Pagination.VisiblePagesRuns | src/components/Pagination.jsx:10-30 | two neighbouring numbers with no '...' between them differ by exactly 1 |
| Pagination.VisiblePagesExamples | src/components/Pagination.jsx:5-33 | (1,2) gives [1,2]; (2,20) gives [1,2,3,4,'...',20]; (10,20) gives [1,'...',8,9,10,11,12,'...',20] |
| Pagination.VisiblePagesIsCompressedShown | src/components/Pagination.jsx:5-33 | for 1 <= c <= t, t >= 2 the strip equals the kept pages (1, t, and those within 2 of c) in order, with one '...' in each gap |
| Pagination.Render | src/components/Pagination.jsx:35-72 | no bar exactly when t <= 1; otherwise one strip button per token |
| Pagination.PageButtonFor | src/components/Pagination.jsx:53-57 | no contract of its own: one strip button, described by `RenderButtonStates` (disabled exactly for '...') and `RenderHighlightsCurrentOnce` (highlighted exactly for the current page) |
| Pagination.ClickNav | src/components/Pagination.jsx:43-44 | no contract of its own: the page a "previous" or "next" click asks for, described by `RenderButtonStates` and `RenderNavigatesWithinRange`; the same rule holds for "next" at lines 66-67 |
| Pagination.ClickPage | src/components/Pagination.jsx:56-57 | no contract of its own: the page a strip click asks for, described by `RenderButtonStates` (a '...' asks for none, a number for its own page) and `RenderNavigatesWithinRange` |
| Pagination.RenderButtonStates | src/components/Pagination.jsx:41-70 | "previous" is disabled iff c == 1 and otherwise asks for c - 1; "next" is disabled iff c == t and otherwise asks for c + 1; a strip button is disabled iff it is '...'; a '...' never navigates; a number asks for its own page |
| Pagination.RenderNavigatesWithinRange | src/components/Pagination.jsx:41-70 | for 1 <= c <= t every page that any enabled button asks for lies in 1..t |
| Pagination.RenderHighlightsCurrentOnce | src/components/Pagination.jsx:50-61 | for 1 <= c <= t exactly one strip button is highlighted, and it carries the current page |
| Favorites.HasId | src/hooks/useFavorites.js:29 | true iff some entry has the id |
| Favorites.Load | src/hooks/useFavorites.js:9-19 | absent text, or a parse that fails, gives the empty list; non-empty text that parses gives the parsed list; a non-empty result always comes from a successful parse |
| Favorites.LoadAfterSave | src/hooks/useFavorites.js:9-24 | text that the parser reads back as a list reloads as that same list, in the same order |
| Favorites.Added | src/hooks/useFavorites.js:28-34 | no contract of its own: the add updater, described by `AddedShape`, `AddedMembership`, `AddedIdempotent` and `AddedUnique` |
| Favorites.AddedShape | src/hooks/useFavorites.js:27-35 | adding keeps every earlier entry in place; the list is unchanged iff the id was present; otherwise the movie is appended at the end |
| Favorites.AddedMembership | src/hooks/useFavorites.js:27-35 | after adding, an id is present iff it was before or it is the added movie's |
| Favorites.AddedIdempotent | src/hooks/useFavorites.js:29-32 | adding the same movie twice is the same as adding it once |
| Favorites.AddedUnique | src/hooks/useFavorites.js:28-34 | adding to a list with unique ids keeps them unique |
| Favorites.AddAll | src/hooks/useFavorites.js:27-35 | no contract of its own: a run of `addToFavorites` calls, one updater after another, described by `AddAllUnique` |
| Favorites.AddAllUnique | src/hooks/useFavorites.js:27-35 | any run of adds, duplicates included, keeps the ids unique |
| Favorites.Removed | src/hooks/useFavorites.js:39 | no contract of its own: the `filter` updater, pinned down by `RemovedContents` with `RemovedOrder`, and described by `RemovedMembership`, `RemovedAbsent` and `RemovedUnique` |
| Favorites.RemovedContents | src/hooks/useFavorites.js:37-40 | removing deletes every entry with the id and keeps each other entry as many times as it occurred |
| Favorites.RemovedOrder | src/hooks/useFavorites.js:37-40 | the entries left keep their original relative order |
| Favorites.RemovedMembership | src/hooks/useFavorites.js:37-40 | after removing, an id is present iff it was before and it is not the removed id |
| Favorites.RemovedAbsent | src/hooks/useFavorites.js:37-40 | removing an id that is not present leaves the list unchanged |
| Favorites.RemovedUnique | src/hooks/useFavorites.js:37-40 | removing keeps ids unique |
| Favorites.Toggled | src/hooks/useFavorites.js:49-53 | no contract of its own: the toggle decision, described by `ToggledFlips`, `ToggleTwiceAbsent`, `ToggleTwicePresent` and `ToggledUnique` |
| Favorites.ToggledFlips | src/hooks/useFavorites.js:47-54 | toggling flips the presence of the movie's id and leaves every other id as it was |
| Favorites.ToggleTwiceAbsent | src/hooks/useFavorites.js:47-54 | toggling twice a movie whose id was absent restores the original list exactly |
| Favorites.ToggleTwicePresent | src/hooks/useFavorites.js:47-54 | toggling twice a movie whose id was present keeps the id, but moves the entry to the end holding the record passed in |
| Favorites.ToggledUnique | src/hooks/useFavorites.js:47-54 | toggling keeps ids unique |
| Favorites.FavoritesStore.constructor | src/hooks/useFavorites.js:5-19 | the store starts with the loaded list, which is also the list this instance last wrote |
| Favorites.FavoritesStore.AddToFavorites | src/hooks/useFavorites.js:27-35 | the new list is the add updater applied to the old one; the id is then present; unique ids stay unique; the list this instance last wrote is the new list |
| Favorites.FavoritesStore.RemoveFromFavorites | src/hooks/useFavorites.js:37-40 | the new list is the filter applied to the old one; the id is then absent; unique ids stay unique; the list this instance last wrote is the new list |
| Favorites.FavoritesStore.IsFavorite | src/hooks/useFavorites.js:42-45 | true iff some entry of the current list has the id; it reads the state and changes nothing |
| Favorites.FavoritesStore.ToggleFavorite | src/hooks/useFavorites.js:47-54 | removes if the id is a favorite and adds otherwise, so presence of the id flips; unique ids stay unique; the list this instance last wrote is the new list |
| Favorites.MountAfterSave | src/hooks/useFavorites.js:5-24 | a store mounted on the text another store last wrote, when that text reads back as its saved list, starts with that store's favorites in the same order |
| TmdbImages.SizeOrDefault | src/services/tmdbApi.js:42 | no contract of its own: the default size argument, described by `DefaultSizeIsW500` and by the prefix in `GetImageUrl`'s contract |
| TmdbImages.GetImageUrl | src/services/tmdbApi.js:42-45 | no address iff the path is missing or empty; otherwise the address starts with "https://image.tmdb.org/t/p/" followed by the size, ends with the path, and has exactly their combined length |
| TmdbImages.DefaultSizeIsW500 | src/services/tmdbApi.js:42 | omitting the size is the same as passing "w500" |
| TmdbImages.GetImageUrlInjective | src/services/tmdbApi.js:44 | for a given size, two paths that give the same address are the same path |

## Left out

- Network calls: `searchMovies`, `getMovieDetails` and `getPopularMovies` (src/services/tmdbApi.js:6-21, 24-39, 48-63) are asynchronous HTTP requests to a remote service.
- Browser storage and JSON. `localStorage.getItem` becomes the `stored` argument of `Load`, and `JSON.parse` becomes its `parse` argument. `JSON.stringify` is not modelled, so `LoadAfterSave` assumes the parser reads back what was written. A parsed JSON value that is not a list of records (for example `null`) is not modelled either.
- React effect scheduling. At mount, the save effect can write `[]` before the loaded list lands. The model runs the load in the constructor and treats the save as finishing with each update.
- Several hook instances. Every call of `useFavorites` holds its own list, and all of them write the same storage key. The header holds one instance while a page holds another. When the page changes its list, the header's instance keeps its older list, so its badge is stale, and what it last wrote is no longer what storage holds. The model covers one instance at a time. It does not capture one instance going stale after another writes. `MountAfterSave` covers only a fresh mount that reads what one store wrote.
- Render snapshots. `isFavorite` closes over the rendered `favorites`, while the updaters see the latest `prev`. The model runs every operation on the current list, one call at a time.
- Page components, routing, the header, movie cards, and float, locale and date formatting are presentation. The 500-page cap on the page count in the search page needs no precondition: every pagination property holds for any page count of at least 2.
- Numbers are JavaScript numbers in the source and unbounded integers here. Fractional or non-numeric page numbers and ids are not modelled.
- Movie records keep only `id` as a field the model reads. The other fields are an uninterpreted map from names to text.
- TmdbImages.GetImageUrl: a path counts as missing only when it is absent or the empty string; other falsy values and an explicitly `null` size are not modelled.
