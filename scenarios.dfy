/** Runs of the server from a fresh start, with concrete data, as a client
    would drive it. */
module Scenarios {
  import opened Options
  import opened Text
  import opened Seqs
  import opened ImportMovies
  import opened MoviesService
  import opened UsersService
  import opened ServerLogic
  import opened Server

  const heat := MovieDoc("1", "Heat", "Action, Crime", map[])
  const up := MovieDoc("2", "Up", "Animation", map[])
  const alice := UserDoc("u1", "alice", "hash", ["1"])

  /** A server over a reachable catalog of two movies and one user, whose
      favourite is the first movie, just after that user has logged in. */
  method AliceLoggedIn() returns (server: Server)
    ensures fresh(server) && fresh(server.movies) && fresh(server.movies.backend)
    ensures fresh(server.users) && fresh(server.users.backend)
    ensures server.Valid() && server.loggedInUserId == Some("u1")
    ensures server.movies.cachedMovies.None?
    ensures server.movies.backend.documents == [heat, up] && server.movies.backend.reachable
    ensures server.users.NextSnapshot() == [alice] && server.SessionResolves()
  {
    var catalog := new MovieCollection([heat, up], true);
    var movies := new MovieCache(catalog);
    var accounts := new UserCollection([alice], true);
    var users := new UserCache(accounts);
    server := new Server(movies, users);
    assert DocIndexByName([alice], "alice") == 0;
    var login := server.Login("alice", "secret", (plain: string, stored: string) => true);
    assert DocIndexById([alice], "u1") == 0;
  }

  /** A page that lists two movies, of which only the first is flagged. */
  predicate FirstOfTwoFlagged(res: Response) {
    res.status == 200 && res.body.PageOfMovies? && |res.body.paginatedMovies| == 2
    && res.body.paginatedMovies[0].isFavorite && !res.body.paginatedMovies[1].isFavorite
  }

  /** The favourite flag that GET /movies writes into a cached movie object
      is still set after the session has ended: the next catalog query, by
      nobody, reports the movie as a favourite. */
  method FlagOutlivesSession() returns (firstAnswer: Response, secondAnswer: Response)
    ensures FirstOfTwoFlagged(firstAnswer) && FirstOfTwoFlagged(secondAnswer)
  {
    var server := AliceLoggedIn();
    var page, size := Some("1"), Some("10");
    FirstPage();
    firstAnswer := FirstQuery(server, page, size);
    secondAnswer := QueryAfterLogout(server, page, size);
  }

  /** Alice's first catalog query loads the catalog and flags her favourite. */
  method FirstQuery(server: Server, page: Option<string>, size: Option<string>) returns (res: Response)
    requires ValidPaging(page, size) == Some(Paging(1, 10))
    requires server.Valid() && server.loggedInUserId == Some("u1")
    requires server.movies.cachedMovies.None?
    requires server.movies.backend.documents == [heat, up] && server.movies.backend.reachable
    requires server.users.NextSnapshot() == [alice] && server.SessionResolves()
    modifies server.movies`cachedMovies, server.movies.backend`finds
    modifies server.users`cachedUsers, server.users.backend`finds
    ensures server.Valid() && server.movies.cachedMovies.Some?
    ensures var all := server.movies.cachedMovies.value;
      |all| == 2 && all[0].isFavorite && !all[1].isFavorite && forall m | m in all :: fresh(m)
    ensures FirstOfTwoFlagged(res)
  {
    ghost var ids := server.OverlayIds(ValidPaging(page, size));
    assert ids == ["1"];
    res := server.MoviesRoute(page, size, None, None);
    var all := server.movies.cachedMovies.value;
    Flagged(all, heat, up);
    WholeList(all);
    assert all[0].isFavorite && !all[1].isFavorite;
    assert res == Response(200, PageOfMovies(Views(all), 2));
  }

  /** After logout, the same query flags no movie afresh, but the flag
      already in the cached object is reported again. */
  method QueryAfterLogout(server: Server, page: Option<string>, size: Option<string>) returns (res: Response)
    requires ValidPaging(page, size) == Some(Paging(1, 10))
    requires server.Valid() && server.movies.cachedMovies.Some?
    requires var all := server.movies.cachedMovies.value;
      |all| == 2 && all[0].isFavorite && !all[1].isFavorite
    modifies server`loggedInUserId, server.movies`cachedMovies, server.movies.backend`finds
    modifies server.users`cachedUsers, server.users.backend`finds, server.movies.Loaded()
    ensures FirstOfTwoFlagged(res)
  {
    var all := server.movies.cachedMovies.value;
    var logout := server.Logout();
    res := server.MoviesRoute(page, size, None, None);
    assert server.movies.cachedMovies.value == all;
    FilterAll(all, (m: Movie) => Selected(m, None, None));
    assert Marked(Matching(all, None, None), []) == {};
    WholeList(all);
    assert all[0].isFavorite && !all[1].isFavorite;
    assert res == Response(200, PageOfMovies(Views(all), 2));
  }

  /** A signup while the database is down logs in a user that no lookup
      finds.  GET /movies without paging parameters still answers 400, and
      GET /favorites over the empty catalog of a failed load answers `[]`. */
  method DanglingSession() returns (moviesAnswer: Response, favoritesAnswer: Response)
    ensures moviesAnswer == Response(400, Error(InvalidPagingMessage))
    ensures favoritesAnswer == Response(200, MovieList([]))
  {
    var catalog := new MovieCollection([heat, up], false);
    var movies := new MovieCache(catalog);
    var accounts := new UserCollection([], false);
    var users := new UserCache(accounts);
    var server := new Server(movies, users);
    var signup := server.Signup("bob", "u2", "hash");
    moviesAnswer := server.MoviesRoute(None, None, None, None);
    favoritesAnswer := server.Favorites();
  }

  /** `page=1&pageSize=10` is valid. */
  lemma FirstPage()
    ensures ValidPaging(Some("1"), Some("10")) == Some(Paging(1, 10))
  {
    var one, ten := Show(1), Show(10);
    assert one == [DigitChar(1)] == "1";
    assert ten == one + [DigitChar(0)] == "10";
    assert one + "" == one && ten + "" == ten;
    ValidPagingNumerals(1, 10, "", "");
  }

  /** The first page of ten of a two-movie list is the whole list. */
  lemma WholeList(all: seq<Movie>)
    requires |all| == 2
    ensures Paginate(all, Paging(1, 10)) == all
  {
  }

  /** With no filters, the catalog query keeps the whole list, and the
      favourite id "1" picks the first movie and not the second. */
  lemma Flagged(all: seq<Movie>, first: MovieDoc, second: MovieDoc)
    requires Docs(all) == [first, second] && first.id == "1" && second.id == "2"
    ensures Matching(all, None, None) == all
    ensures all[0] in Marked(all, ["1"]) && all[1] !in Marked(all, ["1"])
  {
    FilterAll(all, (m: Movie) => Selected(m, None, None));
    MarkedIff(all, ["1"], all[0]);
    MarkedIff(all, ["1"], all[1]);
    assert all[0].id == "1" && all[1].id == "2";
    assert MovieIndex(all, "1") == 0;
  }

  // ---------------------------------------------------------------------
  // catalog queries over a two-movie catalog, as imported from the data file

  /** The two movies of the catalog below, as the import formats them. */
  predicate TwoMovieCatalog(ms: seq<Movie>) {
    |ms| == 2
    && ms[0].Doc() == FormatMovie(RawMovie("1", "Matrix", ["Action", "SciFi"], map[]))
    && ms[1].Doc() == FormatMovie(RawMovie("2", "Amelie", ["Romance"], map[]))
  }

  lemma TwoMovieGenres(ms: seq<Movie>)
    requires TwoMovieCatalog(ms)
    ensures ms[0].title == "Matrix" && ms[0].genres == "Action, SciFi"
    ensures ms[1].title == "Amelie" && ms[1].genres == "Romance"
  {
    assert Join(["Action", "SciFi"], ", ") == "Action" + ", " + Join(["SciFi"], ", ");
  }

  /** `search=ma` keeps "Matrix" (the case of the title does not matter) and
      drops "Amelie". */
  lemma SearchMa(ms: seq<Movie>)
    requires TwoMovieCatalog(ms)
    ensures Matching(ms, Some("ma"), None) == [ms[0]]
  {
    TwoMovieGenres(ms);
    LowerTitles();
    assert OccursAt("matrix", "ma", 0);
    AmelieLacksMa();
    assert TitleMatches(ms[0], "ma") && !TitleMatches(ms[1], "ma");
    assert ms == [ms[0]] + [ms[1]];
  }

  lemma LowerTitles()
    ensures Lower("Matrix") == "matrix" && Lower("Amelie") == "amelie" && Lower("ma") == "ma"
  {
  }

  lemma AmelieLacksMa()
    ensures !Contains("amelie", "ma")
  {
    forall i | 0 <= i <= 4 ensures !OccursAt("amelie", "ma", i) {
      assert "amelie"[i] != 'm' || "amelie"[i + 1] != 'a';
    }
  }

  /** `genres=Romance,Comedy` keeps "Amelie" and drops "Matrix". */
  lemma GenresRomanceComedy(ms: seq<Movie>, genres: string)
    requires TwoMovieCatalog(ms) && genres == "Romance,Comedy"
    ensures Matching(ms, None, Some(genres)) == [ms[1]]
  {
    RomanceComedyTokens(genres);
    RomanceComedyVerdicts(ms, genres);
    assert ms == [ms[0], ms[1]];
    FilterPair(ms[0], ms[1], (m: Movie) => Selected(m, None, Some(genres)));
  }

  lemma RomanceComedyVerdicts(ms: seq<Movie>, g: string)
    requires TwoMovieCatalog(ms) && Split(g, ',') == ["Romance", "Comedy"]
    ensures !Selected(ms[0], None, Some(g)) && Selected(ms[1], None, Some(g))
  {
    TwoMovieGenres(ms);
    var tokens := Split(g, ',');
    assert tokens[0] == "Romance";
    assert Contains("Romance", "Romance") by {
      assert OccursAt("Romance", "Romance", 0);
    }
    assert GenreMatches(ms[1], tokens);
    ActionSciFiLacks();
    assert !GenreMatches(ms[0], tokens);
  }

  lemma FilterPair<T>(a: T, b: T, p: T -> bool)
    ensures Filter([a, b], p) == (if p(a) then [a] else []) + (if p(b) then [b] else [])
  {
    assert [a, b][1..] == [b];
  }

  lemma RomanceComedyTokens(g: string)
    requires g == "Romance,Comedy"
    ensures Split(g, ',') == ["Romance", "Comedy"]
  {
    var a, b := "Romance", "Comedy";
    assert g == a + [','] + b;
    SplitPrefix(a, b, ',');
    SplitNoSep(b, ',');
  }

  lemma ActionSciFiLacks()
    ensures !Contains("Action, SciFi", "Romance") && !Contains("Action, SciFi", "Comedy")
  {
    forall i | 0 <= i <= 6 ensures !OccursAt("Action, SciFi", "Romance", i) {
      assert "Action, SciFi"[i] != 'R';
    }
    forall i | 0 <= i <= 7 ensures !OccursAt("Action, SciFi", "Comedy", i) {
      assert "Action, SciFi"[i] != 'C';
    }
  }

  /** Page 2 of size 1 is the second movie; page 5 of size 10 is empty;
      either way the total is the whole catalog. */
  lemma PagesOfTwo(ms: seq<Movie>)
    requires TwoMovieCatalog(ms)
    ensures Paginate(Matching(ms, None, None), Paging(2, 1)) == [ms[1]]
    ensures Paginate(Matching(ms, None, None), Paging(5, 10)) == []
    ensures |Matching(ms, None, None)| == 2
  {
    FilterAll(ms, (m: Movie) => Selected(m, None, None));
  }
}
