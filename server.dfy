/** The route handlers of server/server.js over the two caches.  The one
    piece of server state besides the caches is `loggedInUserId`, the id of
    the user of the single global session.  Each handler is a method: what it
    answers, and what it leaves in the session, the caches, the collections
    and the cached objects. */
module Server {
  import opened Options
  import opened Seqs
  import opened MoviesService
  import opened UsersService
  import opened ServerLogic

  const CapacityMessage := "The system can have maximum of 5 registered users"
  const TakenMessage := "Username already taken"
  const InvalidCredentials := "Invalid username or password"
  const LogoutMessage := "Logout successful"
  const InvalidPagingMessage := "Invalid page or pageSize"
  const InternalError := "Internal Server Error"
  const UserNotFound := "User not found"
  const AddedMessage := "Movie added to favorites"
  const RemovedMessage := "Movie removed from favorites"

  /** The largest number of registered users signup lets in. */
  const MaxUsers := 5

  /** The JSON bodies the handlers send. */
  datatype Body =
    | Message(message: string)
    | Error(error: string)
    | PageOfMovies(paginatedMovies: seq<MovieView>, total: nat)
    | MovieList(items: seq<MovieView>)
    | NewUser(username: string, userId: string, favoriteMovies: seq<string>)
    | UserRecord(record: UserDoc)
    | Connection(isValid: bool, user: Option<UserDoc>)
    | FavoriteChange(message: string, movieId: string)

  datatype Response = Response(status: int, body: Body)

  /** The `storedUserId` field of a /checkConnectedUser request body: absent
      (`undefined`), `null`, or a string. */
  datatype StoredId = Missing | Null | Id(id: string)

  /** `storedUserId === loggedInUserId`, where the session id is `null` or a
      string: `undefined` equals neither. */
  predicate SameId(stored: StoredId, session: Option<string>) {
    match stored
    case Missing => false
    case Null => session.None?
    case Id(s) => session == Some(s)
  }

  /** The first user document with the given id; no user has the id
      `null`. */
  function FindById(docs: seq<UserDoc>, id: Option<string>): (r: Option<UserDoc>)
    ensures r.Some? ==> r.value in docs && id == Some(r.value.userId)
    ensures r.Some? ==>
      exists i :: 0 <= i < |docs| && docs[i] == r.value && forall j :: 0 <= j < i ==> docs[j].userId != id.value
    ensures r.None? <==> id.None? || forall i :: 0 <= i < |docs| ==> docs[i].userId != id.value
  {
    if id.None? then None
    else
      var i := DocIndexById(docs, id.value);
      if i < 0 then None else Some(docs[i])
  }

  /** Some user document has the given username. */
  predicate Taken(docs: seq<UserDoc>, name: string) {
    exists i :: 0 <= i < |docs| && docs[i].username == name
  }

  /** The `forEach` of GET /movies: for each favourite id, the first movie
      with that id in `filtered` gets `isFavorite = true`.  Flags are only
      ever set, never cleared. */
  method Overlay(filtered: seq<Movie>, favs: seq<string>)
    modifies set m | m in filtered
    ensures forall m | m in filtered :: m.isFavorite == (old(m.isFavorite) || m in Marked(filtered, favs))
  {
    for k := 0 to |favs|
      invariant forall m | m in filtered :: m.isFavorite == (old(m.isFavorite) || m in Marked(filtered, favs[..k]))
    {
      assert favs[..k + 1][..k] == favs[..k];
      var i := MovieIndex(filtered, favs[k]);
      if i != -1 {
        filtered[i].isFavorite := true;
      }
    }
    assert favs[..|favs|] == favs;
  }

  /** How a handler that calls `getMovies` leaves the movie cache: the list
      it held, untouched, or else a list of distinct new objects just read
      from the collection (empty when the collection cannot be read). */
  twostate predicate MoviesFetched(c: MovieCache)
    reads c, c.backend
  {
    c.cachedMovies.Some?
    && (old(c.cachedMovies).Some? ==>
          c.cachedMovies == old(c.cachedMovies) && c.backend.finds == old(c.backend.finds))
    && (old(c.cachedMovies).None? ==>
          c.backend.finds == old(c.backend.finds) + 1
          && Distinct(c.cachedMovies.value)
          && Docs(c.cachedMovies.value) == (if c.backend.reachable then c.backend.documents else [])
          && forall m | m in c.cachedMovies.value :: fresh(m))
  }

  /** How a handler that calls `initializeMovies` leaves the movie cache: a
      list just read from the collection, none of it flagged. */
  twostate predicate MoviesReloaded(c: MovieCache)
    reads c, c.backend, c.Loaded()
  {
    c.backend.finds == old(c.backend.finds) + 1
    && c.cachedMovies.Some?
    && LoadedFrom(c.cachedMovies.value, c.backend.documents, c.backend.reachable)
    && forall m | m in c.cachedMovies.value :: fresh(m)
  }

  /** How POST /favoriteMovie and POST /unfavoriteMovie leave the users,
      given the snapshot `before` that `getUsers` was due to return and the
      stored documents `stored` at the start: the cache is loaded; when some
      user has the id `userId`, the first such user has the edit applied to
      its favourites in the cache, and the collection is updated when the
      edit changed the list and the database is reachable; otherwise neither
      the users nor the collection change. */
  ghost predicate FavoritesEdited(c: UserCache, before: seq<UserDoc>, stored: seq<UserDoc>, userId: string, e: Edit)
    reads c, c.backend, c.Loaded()
  {
    c.cachedUsers.Some?
    && var i := DocIndexById(before, userId);
       if i < 0 then
         UserDocs(c.cachedUsers.value) == before && c.backend.documents == stored
       else
         var after := before[i].(favoriteMovies := Applied(e, before[i].favoriteMovies));
         UserDocs(c.cachedUsers.value) == before[i := after]
         && c.backend.documents ==
              (if Changes(e, before[i].favoriteMovies) && c.backend.reachable
               then UpdateOne(stored, after)
               else stored)
  }

  class Server {
    const movies: MovieCache
    const users: UserCache
    var loggedInUserId: Option<string>

    ghost predicate Valid()
      reads this, users
    {
      users.Valid()
    }

    constructor (movies: MovieCache, users: UserCache)
      requires users.Valid()
      ensures Valid() && this.movies == movies && this.users == users && loggedInUserId == None
    {
      this.movies, this.users := movies, users;
      loggedInUserId := None;
    }

    /** The session is active: its id is present and non-empty (JavaScript
        truthiness). */
    predicate SessionActive()
      reads this
    {
      Truthy(loggedInUserId)
    }

    /** The session's user is among the users the next `getUsers` returns.
        Without it, GET /movies and GET /favorites dereference `undefined`. */
    ghost predicate SessionResolves()
      reads this, users, users.backend, users.Loaded()
    {
      SessionActive() ==> FindById(users.NextSnapshot(), loggedInUserId).Some?
    }

    /** The lookup of the session's user after `getUsers`: `found` says
        whether some user has the session id, and `favs` are that user's
        favourite ids (none when no user has it). */
    method SessionFavorites() returns (favs: seq<string>, found: bool)
      requires Valid() && SessionActive()
      modifies users`cachedUsers, users.backend`finds
      ensures Valid()
      ensures users.cachedUsers.Some? && UserDocs(users.cachedUsers.value) == old(users.NextSnapshot())
      ensures old(users.cachedUsers).Some? ==>
        users.cachedUsers == old(users.cachedUsers) && users.backend.finds == old(users.backend.finds)
      ensures found == FindById(old(users.NextSnapshot()), loggedInUserId).Some?
      ensures favs == old(SessionFavoriteIds())
    {
      var us := users.GetUsers();
      var i := UserIndexById(us, loggedInUserId.value);
      IndexesAgree(us, UserDocs(us), loggedInUserId.value);
      found := i >= 0;
      favs := if found then us[i].favoriteMovies else [];
    }

    /** POST /checkConnectedUser. */
    method CheckConnectedUser(storedUserId: StoredId) returns (res: Response)
      requires Valid()
      modifies users`cachedUsers, users.backend`finds
      ensures Valid() && loggedInUserId == old(loggedInUserId)
      ensures !SameId(storedUserId, loggedInUserId) ==>
        res == Response(200, Connection(false, None))
        && users.cachedUsers == old(users.cachedUsers) && users.backend.finds == old(users.backend.finds)
      ensures SameId(storedUserId, loggedInUserId) ==>
        res == Response(200, Connection(true, FindById(old(users.NextSnapshot()), loggedInUserId)))
        && users.cachedUsers.Some? && UserDocs(users.cachedUsers.value) == old(users.NextSnapshot())
    {
      if SameId(storedUserId, loggedInUserId) {
        var us := users.GetUsers();
        var user: Option<UserDoc> := None;
        if loggedInUserId.Some? {
          var i := UserIndexById(us, loggedInUserId.value);
          IndexesAgree(us, UserDocs(us), loggedInUserId.value);
          if i >= 0 {
            user := Some(us[i].Doc());
          }
        }
        return Response(200, Connection(true, user));
      }
      res := Response(200, Connection(false, None));
    }

    /** POST /signup.  `freshId` stands for `uuid.v4()` and `hashed` for the
        bcrypt hash of the password. */
    method Signup(username: string, freshId: string, hashed: string) returns (res: Response)
      requires Valid()
      modifies this`loggedInUserId, users`cachedUsers, users.backend`documents, users.backend`finds
      ensures Valid()
      ensures users.cachedUsers.Some?
      ensures var before := old(users.NextSnapshot());
        var newDoc := UserDoc(freshId, username, hashed, []);
        if |before| >= MaxUsers || Taken(before, username) then
          res == Response(400, Message(if |before| >= MaxUsers then CapacityMessage else TakenMessage))
          && loggedInUserId == old(loggedInUserId)
          && users.backend.documents == old(users.backend.documents)
          && UserDocs(users.cachedUsers.value) == before
        else
          res == Response(200, NewUser(username, freshId, []))
          && loggedInUserId == Some(freshId)
          && (users.backend.reachable ==>
                users.backend.documents == old(users.backend.documents) + [newDoc]
                && UserDocs(users.cachedUsers.value) == users.backend.documents)
          && (!users.backend.reachable ==>
                users.backend.documents == old(users.backend.documents)
                && UserDocs(users.cachedUsers.value) == before)
    {
      var us := users.GetUsers();
      if |us| >= MaxUsers {
        return Response(400, Message(CapacityMessage));
      }
      if exists i :: 0 <= i < |us| && us[i].username == username {
        return Response(400, Message(TakenMessage));
      }
      assert !Taken(UserDocs(us), username);
      label Adding:
      users.AddUser(UserDoc(freshId, username, hashed, []));
      if !users.backend.reachable {
        users.SnapshotKept@Adding();
      }
      label Session:
      loggedInUserId := Some(freshId);
      users.SnapshotKept@Session();
      res := Response(200, NewUser(username, freshId, []));
    }

    /** POST /login.  `compare` stands for `bcrypt.compare` of a password
        with a stored hash. */
    method Login(username: string, password: string, compare: (string, string) -> bool) returns (res: Response)
      requires Valid()
      modifies this`loggedInUserId, users`cachedUsers, users.backend`finds
      ensures Valid()
      ensures users.cachedUsers.Some? && UserDocs(users.cachedUsers.value) == old(users.NextSnapshot())
      ensures var before := old(users.NextSnapshot());
        var i := DocIndexByName(before, username);
        if i >= 0 && compare(password, before[i].password) then
          res == Response(200, UserRecord(before[i])) && loggedInUserId == Some(before[i].userId)
        else
          res == Response(400, Message(InvalidCredentials)) && loggedInUserId == old(loggedInUserId)
    {
      var us := users.GetUsers();
      var i := UserIndexByName(us, username);
      IndexesAgree(us, UserDocs(us), username);
      if i < 0 {
        return Response(400, Message(InvalidCredentials));
      }
      var valid := compare(password, us[i].password);
      if !valid {
        return Response(400, Message(InvalidCredentials));
      }
      label Session:
      loggedInUserId := Some(us[i].userId);
      users.SnapshotKept@Session();
      res := Response(200, UserRecord(us[i].Doc()));
    }

    /** POST /logout. */
    method Logout() returns (res: Response)
      modifies this`loggedInUserId
      ensures loggedInUserId == None && !SessionActive()
      ensures res == Response(200, Message(LogoutMessage))
    {
      loggedInUserId := None;
      res := Response(200, Message(LogoutMessage));
    }

    /** The favourite ids of the session's user, or none without an active
        session whose user exists. */
    ghost function SessionFavoriteIds(): seq<string>
      reads this, users, users.backend, users.Loaded()
    {
      var u := FindById(users.NextSnapshot(), loggedInUserId);
      if SessionActive() && u.Some? then u.value.favoriteMovies else []
    }

    /** The favourite ids GET /movies marks the filtered movies with: those
        of the session's user once the paging parameters are valid. */
    ghost function OverlayIds(paging: Option<Paging>): seq<string>
      reads this, users, users.backend, users.Loaded()
    {
      if paging.Some? then SessionFavoriteIds() else []
    }

    /** GET /movies.  The movie cache is read before the paging parameters
        are checked; the favourite flags are written into the cached objects
        themselves and stay there after the response. */
    method MoviesRoute(page: Option<string>, pageSize: Option<string>, search: Option<string>, genres: Option<string>)
      returns (res: Response)
      requires Valid() && (ValidPaging(page, pageSize).Some? ==> SessionResolves())
      modifies movies`cachedMovies, movies.backend`finds, users`cachedUsers, users.backend`finds, movies.Loaded()
      ensures Valid() && loggedInUserId == old(loggedInUserId)
      ensures MoviesFetched(movies)
      ensures ValidPaging(page, pageSize).None? ==> res == Response(400, Error(InvalidPagingMessage))
      ensures ValidPaging(page, pageSize).Some? ==>
        var fs := Matching(movies.cachedMovies.value, search, genres);
        res == Response(200, PageOfMovies(Views(Paginate(fs, ValidPaging(page, pageSize).value)), |fs|))
      ensures forall m | m in movies.cachedMovies.value ::
        m.isFavorite ==
          ((m in old(movies.Loaded()) && old(m.isFavorite))
           || m in Marked(Matching(movies.cachedMovies.value, search, genres), old(OverlayIds(ValidPaging(page, pageSize)))))
      ensures ValidPaging(page, pageSize).Some? && old(SessionActive()) ==>
        users.cachedUsers.Some? && UserDocs(users.cachedUsers.value) == old(users.NextSnapshot())
      ensures ValidPaging(page, pageSize).None? || !old(SessionActive()) ==>
        users.cachedUsers == old(users.cachedUsers) && users.backend.finds == old(users.backend.finds)
    {
      ghost var loaded := movies.Loaded();
      var all := movies.GetMovies();
      users.SnapshotKept();
      assert forall m | m in all :: m.isFavorite == (m in loaded && old(m.isFavorite));
      res := ServePage(all, page, pageSize, search, genres);
    }

    /** The rest of GET /movies over the movie list just fetched: the
        validation of the paging parameters, then the two filter stages, the
        favourite overlay of an active session, and the page of the filtered
        list with its length. */
    method ServePage(all: seq<Movie>, page: Option<string>, pageSize: Option<string>,
                     search: Option<string>, genres: Option<string>)
      returns (res: Response)
      requires Valid() && (ValidPaging(page, pageSize).Some? ==> SessionResolves())
      modifies users`cachedUsers, users.backend`finds, set m | m in all
      ensures Valid() && loggedInUserId == old(loggedInUserId)
      ensures ValidPaging(page, pageSize).None? ==> res == Response(400, Error(InvalidPagingMessage))
      ensures ValidPaging(page, pageSize).Some? ==>
        var fs := Matching(all, search, genres);
        res == Response(200, PageOfMovies(Views(Paginate(fs, ValidPaging(page, pageSize).value)), |fs|))
      ensures forall m | m in all ::
        m.isFavorite == (old(m.isFavorite) || m in Marked(Matching(all, search, genres), old(OverlayIds(ValidPaging(page, pageSize)))))
      ensures ValidPaging(page, pageSize).Some? && old(SessionActive()) ==>
        users.cachedUsers.Some? && UserDocs(users.cachedUsers.value) == old(users.NextSnapshot())
      ensures ValidPaging(page, pageSize).None? || !old(SessionActive()) ==>
        users.cachedUsers == old(users.cachedUsers) && users.backend.finds == old(users.backend.finds)
    {
      var paging := ValidPaging(page, pageSize);
      if paging.None? {
        return Response(400, Error(InvalidPagingMessage));
      }
      var p := paging.value;
      // the genre stage run on the result of the search stage
      var filtered := Matching(all, search, genres);
      ghost var ids := SessionFavoriteIds();
      MarkSessionFavorites(filtered);
      forall m | m in all && m !in filtered
        ensures m !in Marked(filtered, ids)
      {
        MarkedIff(filtered, ids, m);
      }
      res := Response(200, PageOfMovies(Views(Paginate(filtered, p)), |filtered|));
    }

    /** The overlay step of GET /movies: with an active session, the movies of `filtered` that the session user's
        favourite ids pick are flagged. */
    method MarkSessionFavorites(filtered: seq<Movie>)
      requires Valid() && SessionResolves()
      modifies users`cachedUsers, users.backend`finds, set m | m in filtered
      ensures Valid()
      ensures forall m | m in filtered ::
        m.isFavorite == (old(m.isFavorite) || m in Marked(filtered, old(SessionFavoriteIds())))
      ensures old(SessionActive()) ==>
        users.cachedUsers.Some? && UserDocs(users.cachedUsers.value) == old(users.NextSnapshot())
      ensures !old(SessionActive()) ==>
        users.cachedUsers == old(users.cachedUsers) && users.backend.finds == old(users.backend.finds)
    {
      if SessionActive() {
        var favs, found := SessionFavorites();
        label Marking:
        Overlay(filtered, favs);
        users.SnapshotKept@Marking();
      }
    }

    /** GET /movies/:id. */
    method MovieById(id: string) returns (res: Response)
      modifies movies`cachedMovies, movies.backend`finds
      ensures MoviesFetched(movies)
      ensures res == Response(200, MovieList(Views(WithId(movies.cachedMovies.value, id))))
      ensures movies.FlagsKept()
    {
      var all := movies.GetMovies();
      res := Response(200, MovieList(Views(WithId(all, id))));
    }

    /** GET /favorites: flagged copies of the session user's favourite
        movies; the cached movie objects are not written.  The session's
        user is only read inside the filter callback, so a session whose user
        is gone still gets an answer over an empty catalog. */
    method Favorites() returns (res: Response)
      requires Valid() && (movies.NextCount() > 0 ==> SessionResolves())
      modifies movies`cachedMovies, movies.backend`finds, users`cachedUsers, users.backend`finds
      ensures Valid() && loggedInUserId == old(loggedInUserId)
      ensures !old(SessionActive()) ==>
        res == Response(500, Message(InternalError))
        && movies.cachedMovies == old(movies.cachedMovies) && movies.backend.finds == old(movies.backend.finds)
        && users.cachedUsers == old(users.cachedUsers) && users.backend.finds == old(users.backend.finds)
      ensures old(SessionActive()) ==>
        MoviesFetched(movies)
        && users.cachedUsers.Some? && UserDocs(users.cachedUsers.value) == old(users.NextSnapshot())
        && res == Response(200, MovieList(FavoritesOf(movies.cachedMovies.value, old(SessionFavoriteIds()))))
      ensures movies.FlagsKept()
    {
      if !SessionActive() {
        return Response(500, Message(InternalError));
      }
      res := FetchFavorites();
    }

    /** GET /favorites with a user logged in: `getMovies`, then the answer. */
    method FetchFavorites() returns (res: Response)
      requires Valid() && SessionActive() && (movies.NextCount() > 0 ==> SessionResolves())
      modifies movies`cachedMovies, movies.backend`finds, users`cachedUsers, users.backend`finds
      ensures movies.FlagsKept()
      ensures Valid() && MoviesFetched(movies)
      ensures users.cachedUsers.Some? && UserDocs(users.cachedUsers.value) == old(users.NextSnapshot())
      ensures res == Response(200, MovieList(FavoritesOf(movies.cachedMovies.value, old(SessionFavoriteIds()))))
    {
      var all := movies.GetMovies();
      users.SnapshotKept();
      res := ServeFavorites(all);
    }

    /** The answer of GET /favorites over the movies `getMovies` returned:
        the session user is looked up, and the movie objects are only read. */
    method ServeFavorites(all: seq<Movie>) returns (res: Response)
      requires Valid() && SessionActive() && (|all| > 0 ==> SessionResolves())
      modifies users`cachedUsers, users.backend`finds
      ensures Valid()
      ensures users.cachedUsers.Some? && UserDocs(users.cachedUsers.value) == old(users.NextSnapshot())
      ensures res == Response(200, MovieList(FavoritesOf(all, old(SessionFavoriteIds()))))
    {
      var favs, found := SessionFavorites();
      if !found {
        // the callback that reads the missing user's favourites runs on no movie
        assert all == [];
      }
      res := Response(200, MovieList(FavoritesOf(all, favs)));
    }

    /** `getUsers` followed by the lookup of the first user with id `id`:
        the cached list and the position of the first user with that id, or
        -1. */
    method FindUser(id: string) returns (us: seq<User>, i: int)
      requires Valid()
      modifies users`cachedUsers, users.backend`finds
      ensures Valid() && users.cachedUsers == Some(us)
      ensures UserDocs(us) == old(users.NextSnapshot())
      ensures i == DocIndexById(old(users.NextSnapshot()), id)
      ensures forall u | u in us :: u in old(users.Loaded()) || fresh(u)
    {
      us := users.GetUsers();
      i := UserIndexById(us, id);
      IndexesAgree(us, UserDocs(us), id);
    }

    /** Writes `favs` into the cached user at position `i` and saves that
        user; every other cached user keeps its document. */
    method StoreFavorites(us: seq<User>, i: nat, favs: seq<string>)
      requires Valid() && users.cachedUsers == Some(us) && i < |us|
      modifies us[i], users.backend`documents
      ensures Valid() && users.cachedUsers == Some(us)
      ensures UserDocs(us) == old(UserDocs(us))[i := old(us[i].Doc()).(favoriteMovies := favs)]
      ensures users.backend.documents ==
        if users.backend.reachable then UpdateOne(old(users.backend.documents), us[i].Doc())
        else old(users.backend.documents)
    {
      ghost var before := UserDocs(us);
      var u := us[i];
      u.favoriteMovies := favs;
      users.SaveUser(u);
      assert forall k | 0 <= k < |us| && k != i :: us[k].Doc() == before[k];
      UserDocsExceptAt(us, i, before);
    }

    /** The user side of POST /favoriteMovie and POST /unfavoriteMovie: find
        the user named in the request (not the session user) and, when the
        edit changes that user's favourites, apply it to the cached object
        and save the user. */
    method ChangeFavorites(userId: string, e: Edit) returns (found: bool)
      requires Valid()
      modifies users`cachedUsers, users.backend`documents, users.backend`finds, users.Loaded()
      ensures Valid()
      ensures found == (DocIndexById(old(users.NextSnapshot()), userId) >= 0)
      ensures FavoritesEdited(users, old(users.NextSnapshot()), old(users.backend.documents), userId, e)
    {
      ghost var before := users.NextSnapshot();
      var us, i := FindUser(userId);
      found := i >= 0;
      if !found {
        return;
      }
      var favs := us[i].favoriteMovies;
      if Changes(e, favs) {
        // `push`, or the `findIndex` and `splice` of the first occurrence
        StoreFavorites(us, i, Applied(e, favs));
      } else {
        assert before[i := before[i]] == before;
      }
    }

    /** POST /favoriteMovie: the named user gets `movieId` appended to the
        favourites unless it is there already; only then is the user saved.
        The movie cache is then reloaded from the collection, which drops
        every favourite flag. */
    method FavoriteMovie(userId: string, movieId: string) returns (res: Response)
      requires Valid()
      modifies users`cachedUsers, users.backend`documents, users.backend`finds, users.Loaded()
      modifies movies`cachedMovies, movies.backend`finds
      ensures Valid() && loggedInUserId == old(loggedInUserId)
      ensures FavoritesEdited(users, old(users.NextSnapshot()), old(users.backend.documents), userId, Add(movieId))
      ensures DocIndexById(old(users.NextSnapshot()), userId) < 0 ==>
        res == Response(404, Message(UserNotFound))
        && movies.cachedMovies == old(movies.cachedMovies) && movies.backend.finds == old(movies.backend.finds)
      ensures DocIndexById(old(users.NextSnapshot()), userId) >= 0 ==>
        res == Response(200, FavoriteChange(AddedMessage, movieId)) && MoviesReloaded(movies)
    {
      var found := ChangeFavorites(userId, Add(movieId));
      if !found {
        return Response(404, Message(UserNotFound));
      }
      label Reload:
      movies.InitializeMovies();
      assert MoviesReloaded(movies);
      users.SnapshotKept@Reload();
      res := Response(200, FavoriteChange(AddedMessage, movieId));
    }

    /** POST /unfavoriteMovie: the first occurrence of `movieId` is removed
        from the named user's favourites when it is there, and only then is
        the user saved; the movie cache is reloaded either way. */
    method UnfavoriteMovie(userId: string, movieId: string) returns (res: Response)
      requires Valid()
      modifies users`cachedUsers, users.backend`documents, users.backend`finds, users.Loaded()
      modifies movies`cachedMovies, movies.backend`finds
      ensures Valid() && loggedInUserId == old(loggedInUserId)
      ensures FavoritesEdited(users, old(users.NextSnapshot()), old(users.backend.documents), userId, Remove(movieId))
      ensures DocIndexById(old(users.NextSnapshot()), userId) < 0 ==>
        res == Response(404, Message(UserNotFound))
        && movies.cachedMovies == old(movies.cachedMovies) && movies.backend.finds == old(movies.backend.finds)
      ensures DocIndexById(old(users.NextSnapshot()), userId) >= 0 ==>
        res == Response(200, FavoriteChange(RemovedMessage, movieId)) && MoviesReloaded(movies)
    {
      var found := ChangeFavorites(userId, Remove(movieId));
      if !found {
        return Response(404, Message(UserNotFound));
      }
      label Reload:
      movies.InitializeMovies();
      assert MoviesReloaded(movies);
      users.SnapshotKept@Reload();
      res := Response(200, FavoriteChange(RemovedMessage, movieId));
    }
  }
}
