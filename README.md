# Movies server: a Dafny model of its request handlers and caches

The system is a small Express server in front of a MongoDB database. It serves a
movie catalog, keeps at most five user accounts, and lets a user mark movies as
favourites. This project models the behaviour of:

- the route handlers of `server/server.js`: `/checkConnectedUser`, `/signup`,
  `/login`, `/logout`, `GET /movies`, `GET /movies/:id`, `GET /favorites`,
  `/favoriteMovie` and `/unfavoriteMovie`;
- the one piece of server state, `loggedInUserId`, the id of the user of a
  single global session;
- the lazy movie cache of `server/services/moviesService.js`;
- the lazy user cache of `server/services/usersService.js`;
- the formatting step of the import script `server/utils/importMovies.js`, which
  stores each movie's genre list as one string joined with `", "`.

Modules, in dependency order:

| module | file | contents |
|---|---|---|
| `Options` | text.dfy | the `Option` datatype (absent vs present) |
| `Text` | text.dfy | `toLowerCase` (ASCII), `includes`, `split`/`join`, global `parseInt` without radix (ECMAScript section 19.2.5), and the decimal rendering that `parseInt` reads back |
| `Seqs` | seqs.dfy | the array operations `filter`, `map`, `findIndex`, `slice`, and the "keeps the original order" relation `Subseq` |
| `ImportMovies` | import_movies.dfy | data-file movies, stored movie documents, and the genre join |
| `MoviesService` | movies_service.dfy | the `Movie` object class (its `isFavorite` field is written in place), the movies collection, and the `MovieCache` class |
| `UsersService` | users_service.dfy | the `User` object class (its `favoriteMovies` field is written in place), the users collection with `find`/`insertOne`/`updateOne`, and the `UserCache` class |
| `ServerLogic` | server_logic.dfy | the pure parts of the handlers: paging validation, the two filter stages, the set of movies the favourite overlay flags, pagination, the favourites list, and the edits of a favourites list |
| `Server` | server.dfy | the `Server` class, one method per handler, and the overlay loop as a method writing into the cached objects |
| `Scenarios` | scenarios.dfy | concrete client runs: a login followed by catalog queries, and queries against a two-movie catalog as the import formats it |

How the model represents the system:

- Both caches are classes. Their `cachedMovies`/`cachedUsers` field is `None`
  until the first read, so it stands for JavaScript's `null`.
- The cached movie and user objects are Dafny objects. Two handlers writing into
  "the same movie" therefore write into the same object, as in the source.
- Each collection is an object holding its documents and a `reachable` flag that
  says whether database calls succeed. A ghost counter `finds` counts queries, so
  a contract can state that a handler did not touch the database.
- `NextSnapshot()` of the user cache is the list of user documents that the next
  `getUsers` returns. Handler contracts state the user state through it.

Behaviour of the code worth knowing when reading the contracts:

- The favourite overlay of `GET /movies` sets `isFavorite = true` on the cached
  movie objects themselves (server.js:149), not on copies. The flag stays set,
  across requests and across sessions, until the next `initializeMovies`
  (server.js:210, 235). `Server.Server.MoviesRoute` states that flags are only
  ever added, and `Scenarios.FlagOutlivesSession` shows a movie still reported as
  a favourite after logout.
- `genres` is stored as one string, the genres joined with `", "`, so the genre
  filter is a substring test on that string (`ServerLogic.GenrePieceMatches`).
- The favourite edits work on the user named in the request body
  (`req.body.userId`), not on the session user.
- A signup while the users collection is down still logs the new user in, with
  no stored user behind the session. `Scenarios.DanglingSession` shows the
  requests that are still answered in that state.

## Model

| member | source | states |
|---|---|---|
| `Text.Lower` | server/server.js:131-132 | `toLowerCase` keeps the length and lowercases every character (ASCII letters) |
| `Text.LowerIdempotent` | server/server.js:131-132 | lowercasing a lowercased string changes nothing |
| `Text.Join` | server/utils/importMovies.js:24 | joining no genres gives `""`; joining one genre gives that genre |
| `Text.JoinContainsParts` | server/utils/importMovies.js:24 | every part is a substring of the joined string |
| `Text.Split` | server/server.js:137 | `split(',')` yields at least one token and no token contains the separator |
| `Text.JoinSplit` | server/server.js:137 | joining the tokens of `split` with the separator gives back the input |
| `Text.SplitJoin` | server/server.js:137 | splitting a join of separator-free parts gives back the parts |
| `Text.SplitPrefix` | server/server.js:137 | the text before the first separator is the first token; the rest splits on its own |
| `Text.SplitNoSep` | server/server.js:137 | a string without the separator is one token |
| `Text.SplitTrailingSep` | server/server.js:137 | a string ending in the separator has an empty last token |
| `Text.Contains` | server/server.js:132 | `includes`: the substring occurs at some position (no contract; its properties are the lemmas below) |
| `Text.ContainsEmpty` | server/server.js:138 | every string includes the empty string |
| `Text.ContainsInfix` | server/server.js:138 | a string includes each of its infixes |
| `Text.TrimStart` | server/server.js:119-120 | parseInt's skipping of leading white space: a suffix of the input, only white space removed, no white space left in front |
| `Text.DigitPrefix` | server/server.js:119-120 | the longest run of digits at the start: all digits, and the next character is not one |
| `Text.Show` | server/server.js:119-120 | the decimal numeral of a natural number: non-empty, digits only |
| `Text.DigitsValueShow` | server/server.js:119-120 | the value of a number's decimal numeral is the number |
| `Text.ParseInt` | server/server.js:119-120 | `parseInt` without radix (no contract; stated by the lemmas below) |
| `Text.ParseNaN` | server/server.js:119-123 | an absent or blank parameter, or one whose first non-blank character is neither a sign nor a digit, is NaN |
| `Text.ParseShow` | server/server.js:119-120 | `parseInt` of a numeral followed by any non-digit text reads the number back; only after a lone `0` must the text not start with `x`/`X`, which would make a hexadecimal prefix |
| `Text.ParseShowNegative` | server/server.js:119-120 | `parseInt` of `-` followed by a numeral, and any text allowed after it in `ParseShow`, reads the negated number |
| `Text.ShowLead` | server/server.js:119-120 | the numeral of a positive number does not start with `0`, so it never forms a `0x` prefix |
| `Text.ParseMinus` | server/server.js:119-120 | a leading minus negates whatever the unsigned part reads, and NaN stays NaN |
| `Text.ParseSkipsWhitespace` | server/server.js:119-120 | leading white space does not change what `parseInt` reads |
| `Seqs.Filter` | server/server.js:132 | `filter` keeps exactly the elements that pass, with their multiplicities, in order |
| `Seqs.FilterFilter` | server/server.js:132-138 | two filters in a row equal one filter with the conjunction of their tests |
| `Seqs.FilterAll` | server/server.js:127 | a filter that every element passes returns its input |
| `Seqs.Map` | server/server.js:184 | `map` keeps the length and applies the function at every position |
| `Seqs.MapFilter` | server/server.js:182-184 | filtering and then mapping equals mapping and then filtering on the mapped test |
| `Seqs.FirstIndex` | server/server.js:146 | `findIndex` gives -1 exactly when nothing matches, and otherwise the first match |
| `Seqs.FirstIndexAgree` | server/server.js:143 | lists that agree position by position on the test have the same first match |
| `Seqs.Slice` | server/server.js:157 | `slice` with end clamped to the length: its length and elements |
| `ImportMovies.FormatMovie` | server/utils/importMovies.js:23-24 | the spread copy of one movie with its genres joined (no contract; stated by the lemmas below) |
| `ImportMovies.FormatMovies` | server/utils/importMovies.js:22-25 | the `map` over all movies of the file (no contract; stated by `ImportMovies.FormatMoviesFields`) |
| `ImportMovies.FormatMoviesFields` | server/utils/importMovies.js:22-25 | the import keeps the number and order of movies and every field except genres, and sets genres to the join with `", "` |
| `ImportMovies.FormatNoGenres` | server/utils/importMovies.js:24 | a movie without genres is stored with the empty genre string |
| `ImportMovies.FormatKeepsGenres` | server/utils/importMovies.js:24 | each original genre is a substring of the stored genre string |
| `MoviesService.View` | server/server.js:159-162 | the JSON form of a movie carries its current favourite flag |
| `MoviesService.Views` | server/server.js:159-162 | the JSON list has one entry per movie, each the movie's current view |
| `MoviesService.Docs` | server/services/moviesService.js:19 | the documents of a movie list, one per object, in order |
| `MoviesService.Movie.constructor` | server/services/moviesService.js:19 | an object read from the collection has the document's fields and is not flagged |
| `MoviesService.MovieCollection.Find` | server/services/moviesService.js:13-19 | connect and find: fails exactly when the database is unreachable; otherwise new unflagged objects, one per document, no object twice, in order |
| `MoviesService.MovieCache.constructor` | server/services/moviesService.js:9 | the movie cache starts out `null` |
| `MoviesService.MovieCache.InitializeMovies` | server/services/moviesService.js:11-25 | always queries the collection once; the cache becomes the documents read, or `[]` when the query fails |
| `MoviesService.MovieCache.GetMovies` | server/services/moviesService.js:27-32 | a loaded cache (even `[]`) is returned as it is, without a query; a `null` cache is loaded first; the list has as many movies as the cache or reachable collection held; the flags are the old ones on old objects and false on new ones |
| `UsersService.User.constructor` | server/services/usersService.js:19 | a user object read from the collection has the document's fields |
| `UsersService.UserDocs` | server/services/usersService.js:19 | the documents of the cached user objects, one per object, in order |
| `UsersService.UserDocsExceptAt` | server/server.js:205-207 | writing one cached user leaves the documents of all the others unchanged |
| `UsersService.IndexesAgree` | server/server.js:38 | `users.find` by id or name finds the same position in the objects as in their documents |
| `UsersService.UpdateOne` | server/services/usersService.js:55 | `updateOne` by userId on the documents (no contract; stated by `UsersService.UpdateOneEffect`) |
| `UsersService.UpdateOneEffect` | server/services/usersService.js:55 | `updateOne` by userId replaces the first document with that id and leaves every other position, including later documents with the same id, unchanged; without a match nothing changes (no upsert) |
| `UsersService.UpdateOneIdempotent` | server/services/usersService.js:55 | saving the same user twice stores what saving once stores |
| `UsersService.UserCollection.Find` | server/services/usersService.js:13-19 | fails exactly when unreachable; otherwise new distinct user objects, one per document, in order |
| `UsersService.UserCollection.InsertOne` | server/services/usersService.js:39 | a successful insert appends the document; a failed one changes nothing |
| `UsersService.UserCollection.UpdateOneDoc` | server/services/usersService.js:55 | a successful update applies `UpdateOne`; a failed one changes nothing |
| `UsersService.UserCache.constructor` | server/services/usersService.js:9 | the cache starts out `null` |
| `UsersService.UserCache.SnapshotKept` | server/services/usersService.js:27-32 | a step that touches neither the cache, nor the collection, nor a cached user leaves what the next `getUsers` returns unchanged |
| `UsersService.UserCache.InitializeUsers` | server/services/usersService.js:11-25 | always queries the collection once; the cache becomes the documents read, or `[]` when the query fails; no object is cached twice |
| `UsersService.UserCache.GetUsers` | server/services/usersService.js:27-32 | returns the snapshot that was due; a loaded cache is the same list and needs no query |
| `UsersService.UserCache.AddUser` | server/services/usersService.js:34-47 | when the database is reachable, the document is appended and the cache is reloaded from the collection; otherwise the error is swallowed and nothing changes |
| `UsersService.UserCache.SaveUser` | server/services/usersService.js:49-60 | stores the user's current fields by `updateOne`; never assigns the cache; a failure is swallowed |
| `ServerLogic.ValidPaging` | server/server.js:119-125 | rejected exactly when either parameter is NaN or below 1; otherwise the parsed pair |
| `ServerLogic.ValidPagingNumerals` | server/server.js:119-125 | numerals, possibly followed by non-digits ("2abc", "5x"; after a lone `0` not `x`/`X`), are accepted exactly when both are at least 1, and with their values |
| `ServerLogic.ValidPagingRejects` | server/server.js:119-125 | a missing parameter or a negative numeral is rejected |
| `ServerLogic.Truthy` | server/server.js:130 | JavaScript truthiness of a query parameter or session id: present and non-empty (no contract; used at server.js:130, 136 and 141) |
| `ServerLogic.SearchStage` | server/server.js:130-133 | without a truthy search, all movies; with one, exactly the movies whose lowercased title includes the lowercased search, in order, with their multiplicities |
| `ServerLogic.GenreStage` | server/server.js:136-139 | without truthy genres, all movies; with them, exactly the movies whose genre string includes some comma-separated token, in order |
| `ServerLogic.Matching` | server/server.js:127-139 | the two stages together form one filter: exactly the movies every active filter accepts, in catalog order |
| `ServerLogic.TrailingCommaKeepsAll` | server/server.js:137-138 | a genre list ending in a comma keeps every movie, because its empty last token matches everything |
| `ServerLogic.ImportedGenreKept` | server/server.js:138 | a movie stored by the import is kept by a genre filter naming one of its original genres |
| `ServerLogic.GenrePieceMatches` | server/server.js:138 | any substring of the genre string selects the movie, even a piece of one genre's name |
| `ServerLogic.Marked` | server/server.js:145-150 | the movies the overlay loop flags, favourite id by favourite id (no contract; characterised by `ServerLogic.MarkedIff`) |
| `ServerLogic.MarkedIff` | server/server.js:145-150 | a movie is flagged exactly when it is in the filtered list, its id is a favourite, and it is the first movie with that id |
| `ServerLogic.MarkedTwice` | server/server.js:145-151 | running the overlay loop over the favourite ids twice flags the same movies as running it once |
| `ServerLogic.MarkedWithin` | server/server.js:146-149 | the overlay loop only flags movies of the filtered list |
| `ServerLogic.Paginate` | server/server.js:154-157 | the page holds at most `pageSize` consecutive movies, starting after the full earlier pages; it is empty exactly when it starts past the end, full when enough movies remain, and cut short at the end |
| `ServerLogic.PageOfPosition` | server/server.js:154-157 | the movie at position `i` is item `i % pageSize` of page `i / pageSize + 1` |
| `ServerLogic.WithId` | server/server.js:170 | exactly the movies with the id, in order |
| `ServerLogic.FavoritesOf` | server/server.js:182-184 | no more entries than catalog movies; every entry is a flagged copy of a catalog movie whose id is a favourite; every such movie appears as a flagged copy |
| `ServerLogic.FavoritesInCatalogOrder` | server/server.js:182-184 | the favourites list is the catalog's flagged copies with the non-favourites removed, in catalog order |
| `ServerLogic.AddFavorite` | server/server.js:205-206 | afterwards the id is present; a missing id is appended at the end (`push`), and nothing changes when it is present |
| `ServerLogic.RemoveFirst` | server/server.js:230-232 | when the id is present, its first occurrence is cut out and nothing else changes; otherwise the list is kept; in both cases the multiset loses one copy of the id at most |
| `ServerLogic.Applied` | server/server.js:205-206 | an edit changes the list exactly when it says it does (add a missing id, remove a present one) |
| `ServerLogic.AddFavoriteIdempotent` | server/server.js:205-206 | favouriting twice gives what favouriting once gives |
| `ServerLogic.AddFavoriteNoDuplicates` | server/server.js:205-206 | favouriting never creates a duplicate id |
| `ServerLogic.RemoveUndoesAdd` | server/server.js:230-232 | unfavouriting undoes favouriting a movie that was not a favourite |
| `ServerLogic.RemoveFirstRemovesId` | server/server.js:230-232 | in a list without duplicates, unfavouriting leaves no occurrence of the id |
| `Server.SameId` | server/server.js:36 | `storedUserId === loggedInUserId` over absent, `null` and string ids (no contract) |
| `Server.Taken` | server/server.js:56 | some user document has the username (no contract) |
| `Server.FindById` | server/server.js:38 | the first user with the id (no earlier user has it); none when the session id is `null` or no user has it |
| `Server.Overlay` | server/server.js:145-151 | after the loop, a movie in the filtered list is flagged exactly when it was flagged before or is one of the movies the favourite ids pick; flags are never cleared |
| `Server.Server.constructor` | server/server.js:11 | the server starts with no session |
| `Server.Server.SessionFavorites` | server/server.js:142-145 | whether some user has the session id, and that user's favourite ids (none without one), taken from the snapshot `getUsers` returns |
| `Server.Server.CheckConnectedUser` | server/server.js:30-43 | when the stored id is not identical to the session id, `isValid` is false and the users are not read; otherwise `isValid` is true and `user` is the session user (none without a session or a match) |
| `Server.Server.Signup` | server/server.js:46-74 | rejects with 400 when five users exist or the name is taken, and nothing changes; otherwise logs the new user in and answers 200, whether or not the insert succeeded; a successful insert appends the new document and reloads the cache |
| `Server.Server.Login` | server/server.js:77-103 | answers with the first user of that name when the password check passes, and makes that user the session; otherwise 400 and the session unchanged |
| `Server.Server.Logout` | server/server.js:106-110 | ends the session and answers 200 |
| `Server.Server.MoviesRoute` | server/server.js:112-163 | loads the movie cache before validating; invalid paging gives 400; otherwise the page of matching movies and their count; with valid paging and an active session, the matching favourites are flagged in the cached objects, and old flags stay |
| `Server.Server.ServePage` | server/server.js:116-162 | over the list just fetched: invalid paging gives 400 and reads no user; valid paging gives the page of the filtered list and its length, with the session's favourites flagged in the list's objects and old flags kept |
| `Server.Server.MarkSessionFavorites` | server/server.js:141-152 | without a session the users are not read and no flag changes; with one, the session user's favourites are flagged |
| `Server.Server.MovieById` | server/server.js:165-171 | all cached movies with the id, as they are now; no flag is written, so a movie loaded by this request is unflagged |
| `Server.Server.Favorites` | server/server.js:173-189 | without a session, 500 and no database access; with one, flagged copies of the catalog movies the session user favours (none when the catalog is empty, even if the user is gone), and no flag of a cached object is written, so the movies loaded by this request are unflagged |
| `Server.Server.FetchFavorites` | server/server.js:176-185 | with a user logged in: the movies are fetched with `getMovies`, no flag is written, and the answer is 200 with the flagged copies of the favoured catalog movies |
| `Server.Server.ServeFavorites` | server/server.js:179-185 | over the list just fetched: the session user is looked up, and the answer is 200 with the flagged copies of the movies that user favours |
| `Server.Server.FindUser` | server/server.js:197-198 | the cached users and the position of the first user with the id, or -1 |
| `Server.Server.StoreFavorites` | server/server.js:205-207 | writes the new list into the one cached user and saves that user; every other cached user keeps its document |
| `Server.Server.ChangeFavorites` | server/server.js:197-208 | finds the user named in the request; applies the edit in the cache, and saves only when the list changed |
| `Server.Server.FavoriteMovie` | server/server.js:191-216 | an unknown user gives 404 and no reload; otherwise the id is added when missing (and only then saved), the movie cache is reloaded with every flag cleared, and the answer is 200 |
| `Server.Server.UnfavoriteMovie` | server/server.js:218-241 | an unknown user gives 404 and no reload; otherwise the first occurrence of the id is removed when present (and only then saved), the movie cache is reloaded, and the answer is 200 |
| `Scenarios.AliceLoggedIn` | server/server.js:77-103 | a fresh server over a two-movie catalog, after the one user logs in, has that user's session |
| `Scenarios.FirstQuery` | server/server.js:141-152 | the first query of a logged-in user flags the favourite movie in the cached list and reports it |
| `Scenarios.QueryAfterLogout` | server/server.js:106-152 | after logout, the same query still reports the flag left in the cached object |
| `Scenarios.FlagOutlivesSession` | server/server.js:141-152 | both queries, one before and one after logout, list the favourite as flagged |
| `Scenarios.DanglingSession` | server/server.js:46-74 | after a signup against an unreachable database, GET /movies without paging answers 400 and GET /favorites answers `[]` |
| `Scenarios.FirstPage` | server/server.js:119-125 | `page=1&pageSize=10` is valid |
| `Scenarios.Flagged` | server/server.js:145-150 | with no filters, favourite id "1" flags the first of two movies and not the second |
| `Scenarios.SearchMa` | server/server.js:130-133 | `search=ma` keeps "Matrix" and drops "Amelie", regardless of case |
| `Scenarios.GenresRomanceComedy` | server/server.js:136-139 | `genres=Romance,Comedy` keeps the romance and drops the action movie |
| `Scenarios.PagesOfTwo` | server/server.js:154-162 | on a two-movie catalog, page 2 of size 1 is the second movie, page 5 of size 10 is empty, and the total is 2 |

## Left out

- The HTTP layer is not modelled: Express routing, the CORS headers, the static
  files and `listen`. A request is modelled as method arguments and a response as
  a status and a body.
- bcrypt is not modelled. The hash is an input of `Server.Server.Signup`, and
  `bcrypt.compare` is a function parameter of `Server.Server.Login`.
- `uuid.v4()` is not modelled; the new id is a parameter of
  `Server.Server.Signup`.
- The database is not modelled call by call. Each collection has one `reachable`
  flag, and the `client.connect()` before each query is part of that query.
- A database that fails in one call and works in the next is not modelled.
- The `await` points are not modelled: each handler runs to completion before the
  next one starts. Interleavings of concurrent requests are not covered.
- Console logging is not modelled.
- The import script's file reading, JSON parsing, `insertMany` and connection
  handling are left out. Only its formatting map is modelled.
- server/models/user.js declares fields only and is not part of this model.
- Text.Lower: lowercases the ASCII letters only, not the rest of Unicode.
- Text.ParseInt: reads an unbounded integer. JavaScript's loss of precision past
  2^53 and its `Infinity` are not modelled.
- Server.Server.Signup: the 500 answer is left out. It is reached only when
  bcrypt or `getUsers` throws, and neither can throw in this model.
- Server.Server.Login: the 500 answer is left out, for the same reason.
- Server.Server.FavoriteMovie: the 500 answer is left out. Every database error
  below it is swallowed by the services.
- Server.Server.UnfavoriteMovie: the 500 answer is left out, for the same reason
  as FavoriteMovie.
- Server.Server.MoviesRoute: with valid paging and an active session, requires
  that the session user is still among the users. Otherwise the source
  dereferences `undefined` at server.js:145 and the request fails with an
  unhandled rejection, which is not modelled.
- Server.Server.Favorites: with a non-empty catalog and an active session,
  requires the same. Otherwise the filter callback at server.js:183 dereferences
  `undefined`, which is not modelled.
- The body fields `username`, `password`, `userId` and `movieId` are taken to
  be strings. An absent body field is not modelled: for example, POST
  /favoriteMovie without `movieId` pushes `undefined` and saves it
  (server.js:205-207). Query parameters are strings or absent. Bodies of other
  JSON types are not modelled.
- `/checkConnectedUser` is the exception: its `storedUserId` is modelled as
  absent, `null` or a string.
- `isFavorite` absent and `isFavorite` false are one state, false.
- The movie fields besides `id`, `title`, `genres` and `isFavorite` are a map
  from names to strings.
