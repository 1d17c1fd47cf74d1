/** The pure parts of the route handlers in server/server.js: validation of
    the paging parameters, the title and genre filters of the catalog query,
    the choice of the movies the favourite overlay marks, pagination, the
    favourites list, and the edits of a user's favourite ids. */
module ServerLogic {
  import opened Options
  import opened Text
  import opened Seqs
  import opened MoviesService
  import ImportMovies

  /** JavaScript truthiness of an optional string: present and non-empty. */
  predicate Truthy(o: Option<string>) {
    o.Some? && o.value != ""
  }

  // ---------------------------------------------------------------------
  // paging parameters

  datatype Paging = Paging(page: int, pageSize: int)

  /** Both paging parameters are read with `parseInt`; the request is
      rejected when either is NaN or below 1. */
  function ValidPaging(page: Option<string>, pageSize: Option<string>): (r: Option<Paging>)
    ensures r.None? <==>
      ParseInt(page).None? || ParseInt(pageSize).None? || ParseInt(page).value < 1 || ParseInt(pageSize).value < 1
    ensures r.Some? ==> r.value == Paging(ParseInt(page).value, ParseInt(pageSize).value)
  {
    var p, ps := ParseInt(page), ParseInt(pageSize);
    if p.None? || ps.None? || p.value < 1 || ps.value < 1 then None
    else Some(Paging(p.value, ps.value))
  }

  /** Paging parameters written as decimal numerals (possibly followed by
      non-digits, as in "2abc") are accepted exactly when both are at least 1. */
  lemma ValidPagingNumerals(page: nat, pageSize: nat, t1: string, t2: string)
    requires t1 == [] || (!IsDigit(t1[0], 10) && (page == 0 ==> t1[0] != 'x' && t1[0] != 'X'))
    requires t2 == [] || (!IsDigit(t2[0], 10) && (pageSize == 0 ==> t2[0] != 'x' && t2[0] != 'X'))
    ensures ValidPaging(Some(Show(page) + t1), Some(Show(pageSize) + t2)) ==
      if page >= 1 && pageSize >= 1 then Some(Paging(page, pageSize)) else None
  {
    ParseShow(page, t1);
    ParseShow(pageSize, t2);
  }

  /** A missing parameter, or a negative one, is rejected. */
  lemma ValidPagingRejects(n: nat, other: Option<string>)
    ensures ValidPaging(None, other) == None && ValidPaging(other, None) == None
    ensures ValidPaging(Some("-" + Show(n)), other) == None
    ensures ValidPaging(other, Some("-" + Show(n))) == None
  {
    ParseShowNegative(n, "");
    assert "-" + Show(n) + "" == "-" + Show(n);
  }

  // ---------------------------------------------------------------------
  // the search and genre filters

  /** The lowercased title includes the lowercased search string. */
  predicate TitleMatches(m: Movie, search: string) {
    Contains(Lower(m.title), Lower(search))
  }

  /** Some selected genre is included in the movie's genres: a substring
      test on the stored genre string, not list membership. */
  predicate GenreMatches(m: Movie, selected: seq<string>) {
    exists k :: 0 <= k < |selected| && Contains(m.genres, selected[k])
  }

  /** The search stage: applied only when `search` is truthy. */
  function SearchStage(ms: seq<Movie>, search: Option<string>): (r: seq<Movie>)
    ensures !Truthy(search) ==> r == ms
    ensures Truthy(search) ==>
      (forall m | m in r :: m in ms && TitleMatches(m, search.value))
      && (forall m | m in ms && TitleMatches(m, search.value) :: m in r)
      && (forall m | m in ms :: multiset(r)[m] == if TitleMatches(m, search.value) then multiset(ms)[m] else 0)
    ensures Subseq(r, ms)
  {
    SubseqRefl(ms);
    if Truthy(search) then Filter(ms, (m: Movie) => TitleMatches(m, search.value)) else ms
  }

  /** The genre stage: applied only when `genres` is truthy, to the result of
      the search stage, with the tokens of `genres.split(',')` (not trimmed). */
  function GenreStage(ms: seq<Movie>, genres: Option<string>): (r: seq<Movie>)
    ensures !Truthy(genres) ==> r == ms
    ensures Truthy(genres) ==>
      (forall m | m in r :: m in ms && GenreMatches(m, Split(genres.value, ',')))
      && (forall m | m in ms && GenreMatches(m, Split(genres.value, ',')) :: m in r)
    ensures Subseq(r, ms)
  {
    SubseqRefl(ms);
    if Truthy(genres) then Filter(ms, (m: Movie) => GenreMatches(m, Split(genres.value, ','))) else ms
  }

  /** What both stages together demand of a movie: each active filter must
      accept it. */
  predicate Selected(m: Movie, search: Option<string>, genres: Option<string>) {
    (Truthy(search) ==> TitleMatches(m, search.value))
    && (Truthy(genres) ==> GenreMatches(m, Split(genres.value, ',')))
  }

  lemma {:induction false} FilterExt<T>(s: seq<T>, p: T -> bool, q: T -> bool)
    requires forall x :: p(x) == q(x)
    ensures Filter(s, p) == Filter(s, q)
  {
    if s != [] {
      FilterExt(s[1..], p, q);
    }
  }

  /** The movies a catalog query keeps: the genre stage run on the result of
      the search stage.  It is one filter with the conjunction of the two
      tests, so the kept movies are exactly those that every active filter
      accepts, each as often as in the catalog, in catalog order. */
  function Matching(ms: seq<Movie>, search: Option<string>, genres: Option<string>): (r: seq<Movie>)
    ensures r == Filter(ms, (m: Movie) => Selected(m, search, genres))
    ensures forall m | m in r :: m in ms && Selected(m, search, genres)
    ensures forall m | m in ms && Selected(m, search, genres) :: m in r
    ensures Subseq(r, ms)
  {
    var sel := (m: Movie) => Selected(m, search, genres);
    if Truthy(search) && Truthy(genres) then
      FilterFilter(ms, (m: Movie) => TitleMatches(m, search.value),
        (m: Movie) => GenreMatches(m, Split(genres.value, ',')), sel);
      GenreStage(SearchStage(ms, search), genres)
    else if Truthy(search) then
      FilterExt(ms, (m: Movie) => TitleMatches(m, search.value), sel);
      GenreStage(SearchStage(ms, search), genres)
    else if Truthy(genres) then
      FilterExt(ms, (m: Movie) => GenreMatches(m, Split(genres.value, ',')), sel);
      GenreStage(SearchStage(ms, search), genres)
    else
      FilterAll(ms, sel);
      GenreStage(SearchStage(ms, search), genres)
  }

  /** A genre list that ends with a comma (`"Action,"`) splits into an empty
      last token, which every genre string includes, so the genre stage then
      keeps every movie. */
  lemma TrailingCommaKeepsAll(ms: seq<Movie>, genres: string)
    requires genres != [] && genres[|genres| - 1] == ','
    ensures GenreStage(ms, Some(genres)) == ms
  {
    var tokens := Split(genres, ',');
    SplitTrailingSep(genres, ',');
    forall m: Movie | m in ms
      ensures GenreMatches(m, tokens)
    {
      ContainsEmpty(m.genres);
      assert Contains(m.genres, tokens[|tokens| - 1]);
    }
    FilterAll(ms, (m: Movie) => GenreMatches(m, tokens));
  }

  /** A movie imported from the data file is kept by a genre filter that
      names one of its original genres. */
  lemma ImportedGenreKept(raw: ImportMovies.RawMovie, m: Movie, k: nat, genres: string)
    requires m.Doc() == ImportMovies.FormatMovie(raw)
    requires k < |raw.genres| && raw.genres[k] in Split(genres, ',')
    ensures GenreMatches(m, Split(genres, ','))
  {
    ImportMovies.FormatKeepsGenres(raw, k);
    var tokens := Split(genres, ',');
    var j :| 0 <= j < |tokens| && tokens[j] == raw.genres[k];
    assert Contains(m.genres, tokens[j]);
  }

  /** Any piece of the stored genre string selects the movie, including a
      piece of one genre's name ("Fiction" selects "Science Fiction"). */
  lemma GenrePieceMatches(m: Movie, a: string, piece: string, b: string)
    requires m.genres == a + piece + b
    ensures GenreMatches(m, [piece])
  {
    ContainsInfix(a, piece, b);
    assert [piece][0] == piece;
  }

  // ---------------------------------------------------------------------
  // the favourite overlay

  /** The position of the first movie with the id, or -1. */
  function MovieIndex(ms: seq<Movie>, id: string): int {
    FirstIndex(ms, (m: Movie) => m.id == id)
  }

  ghost function FirstWithId(ms: seq<Movie>, id: string): set<Movie> {
    var i := MovieIndex(ms, id);
    if i < 0 then {} else {ms[i]}
  }

  /** The movies that the loop over the user's favourite ids flags in the
      filtered list: for each favourite id, the first movie with that id, if
      any. */
  ghost function Marked(ms: seq<Movie>, favs: seq<string>): set<Movie> {
    if favs == [] then {}
    else Marked(ms, favs[..|favs| - 1]) + FirstWithId(ms, favs[|favs| - 1])
  }

  /** A movie is flagged exactly when it is in the list, its id is one of
      the favourite ids, and it is the first movie with that id: a second
      movie with the same id is never flagged. */
  lemma {:induction false} MarkedIff(ms: seq<Movie>, favs: seq<string>, m: Movie)
    ensures m in Marked(ms, favs) <==>
      (m in ms && m.id in favs && ms[MovieIndex(ms, m.id)] == m)
  {
    if favs != [] {
      var init, last := favs[..|favs| - 1], favs[|favs| - 1];
      MarkedIff(ms, init, m);
      assert favs == init + [last];
      assert m.id in favs <==> m.id in init || m.id == last;
    }
  }

  /** Running the overlay's loop over the favourite ids twice flags what
      running it once flags. */
  lemma MarkedTwice(ms: seq<Movie>, favs: seq<string>)
    ensures Marked(ms, favs + favs) == Marked(ms, favs)
  {
    var twice, once := Marked(ms, favs + favs), Marked(ms, favs);
    MarkedWithin(ms, favs + favs);
    MarkedWithin(ms, favs);
    forall m | m in ms ensures m in twice <==> m in once {
      MarkedIff(ms, favs + favs, m);
      MarkedIff(ms, favs, m);
      assert m.id in favs + favs <==> m.id in favs;
    }
  }

  lemma {:induction false} MarkedWithin(ms: seq<Movie>, favs: seq<string>)
    ensures Marked(ms, favs) <= set m | m in ms
  {
    if favs != [] {
      MarkedWithin(ms, favs[..|favs| - 1]);
    }
  }

  // ---------------------------------------------------------------------
  // pagination

  /** The position of the first item of a page: the pages before it are full. */
  function PageStart(p: Paging): (start: nat)
    requires p.page >= 1 && p.pageSize >= 1
  {
    (p.page - 1) * p.pageSize
  }

  /** The page `p` of the filtered list: the slice of `pageSize` items that
      starts after the earlier pages, cut short at the end of the list. */
  function Paginate(fs: seq<Movie>, p: Paging): (r: seq<Movie>)
    requires p.page >= 1 && p.pageSize >= 1
    ensures var start := PageStart(p);
      |r| <= p.pageSize
      && (forall k :: 0 <= k < |r| ==> start + k < |fs| && r[k] == fs[start + k])
      && (r == [] <==> start >= |fs|)
      && (start + p.pageSize <= |fs| ==> |r| == p.pageSize)
      && (start < |fs| < start + p.pageSize ==> |r| == |fs| - start)
  {
    var start := PageStart(p);
    Slice(fs, start, start + p.pageSize)
  }

  /** Every matching movie is on exactly the page its position says:
      position `i` is item `i % pageSize` of page `i / pageSize + 1`. */
  lemma PageOfPosition(fs: seq<Movie>, i: nat, pageSize: int)
    requires i < |fs| && pageSize >= 1
    ensures var p := Paging(i / pageSize + 1, pageSize);
      i % pageSize < |Paginate(fs, p)| && Paginate(fs, p)[i % pageSize] == fs[i]
  {
    var p := Paging(i / pageSize + 1, pageSize);
    assert PageStart(p) + i % pageSize == i;
  }

  // ---------------------------------------------------------------------
  // GET /movies/:id and GET /favorites

  /** The movies with the id, in list order. */
  function WithId(ms: seq<Movie>, id: string): (r: seq<Movie>)
    ensures forall m | m in r :: m in ms && m.id == id
    ensures forall m | m in ms && m.id == id :: m in r
    ensures Subseq(r, ms)
  {
    Filter(ms, (m: Movie) => m.id == id)
  }

  /** `{ ...movie, isFavorite: true }`: a fresh copy that is flagged. */
  function FavoriteCopy(m: Movie): MovieView {
    MovieView(m.id, m.title, m.genres, m.extras, true)
  }

  /** The favourites list of GET /favorites: flagged copies of exactly the catalog movies whose id is a favourite,
      in catalog order. */
  function FavoritesOf(ms: seq<Movie>, favs: seq<string>): (r: seq<MovieView>)
    ensures |r| <= |ms|
    ensures forall i :: 0 <= i < |r| ==> r[i].isFavorite && r[i].id in favs
    ensures forall i :: 0 <= i < |r| ==> exists m :: m in ms && m.id in favs && r[i] == FavoriteCopy(m)
    ensures forall m | m in ms && m.id in favs :: FavoriteCopy(m) in r
  {
    var kept := Filter(ms, (m: Movie) => m.id in favs);
    FavoritesOfFacts(ms, favs, kept);
    Map(kept, FavoriteCopy)
  }

  lemma FavoritesOfFacts(ms: seq<Movie>, favs: seq<string>, kept: seq<Movie>)
    requires kept == Filter(ms, (m: Movie) => m.id in favs)
    ensures forall i :: 0 <= i < |kept| ==> kept[i] in ms && kept[i].id in favs
    ensures forall m | m in ms && m.id in favs :: FavoriteCopy(m) in Map(kept, FavoriteCopy)
  {
    forall i | 0 <= i < |kept| ensures kept[i] in ms && kept[i].id in favs {
      assert kept[i] in kept;
    }
    forall m | m in ms && m.id in favs ensures FavoriteCopy(m) in Map(kept, FavoriteCopy) {
      assert m in kept;
      MapIn(kept, FavoriteCopy, m);
    }
  }

  /** The favourites list is the catalog's flagged copies with the other
      movies left out: the movies keep their catalog order. */
  lemma FavoritesInCatalogOrder(ms: seq<Movie>, favs: seq<string>)
    ensures FavoritesOf(ms, favs) == Filter(Map(ms, FavoriteCopy), (v: MovieView) => v.id in favs)
    ensures Subseq(FavoritesOf(ms, favs), Map(ms, FavoriteCopy))
  {
    MapFilter(ms, FavoriteCopy, (m: Movie) => m.id in favs, (v: MovieView) => v.id in favs);
  }

  // ---------------------------------------------------------------------
  // a user's favourite ids

  /** Favouriting: the id is appended unless the list already holds it. */
  function AddFavorite(favs: seq<string>, id: string): (r: seq<string>)
    ensures id in r
    ensures multiset(r) == if id in favs then multiset(favs) else multiset(favs) + multiset{id}
    ensures Subseq(favs, r)
    ensures id !in favs ==> r == favs + [id]
  {
    assert favs + [id] == (favs + [id])[..|favs|] + [id];
    SubseqPrefix(favs, [id]);
    SubseqRefl(favs);
    if id in favs then favs else favs + [id]
  }

  /** Unfavouriting: the first occurrence of the id, if any, is cut out. */
  function RemoveFirst(favs: seq<string>, id: string): (r: seq<string>)
    ensures multiset(r) == multiset(favs) - multiset{id}
    ensures |r| == if id in favs then |favs| - 1 else |favs|
    ensures Subseq(r, favs)
    ensures id in favs ==>
      exists k :: 0 <= k < |favs| && favs[k] == id && id !in favs[..k] && r == favs[..k] + favs[k + 1..]
  {
    SubseqRefl(favs);
    if id in favs then
      var k := FirstIndex(favs, (x: string) => x == id);
      assert id !in favs[..k] by {
        forall i | 0 <= i < k ensures favs[..k][i] != id {
          assert favs[..k][i] == favs[i];
        }
      }
      assert favs == favs[..k] + [id] + favs[k + 1..];
      SubseqRemoveAt(favs, k);
      favs[..k] + favs[k + 1..]
    else favs
  }

  lemma {:induction false} SubseqPrefix<T>(s: seq<T>, t: seq<T>)
    ensures Subseq(s, s + t)
  {
    if s != [] {
      SubseqPrefix(s[1..], t);
      assert (s + t)[1..] == s[1..] + t;
    } else {
      assert s == [];
    }
  }

  lemma {:induction false} SubseqRemoveAt<T>(s: seq<T>, k: nat)
    requires k < |s|
    ensures Subseq(s[..k] + s[k + 1..], s)
  {
    if k == 0 {
      assert s[..0] + s[1..] == s[1..];
      SubseqRefl(s[1..]);
    } else {
      SubseqRemoveAt(s[1..], k - 1);
      var r := s[..k] + s[k + 1..];
      assert r[0] == s[0];
      assert r[1..] == s[1..][..k - 1] + s[1..][k..];
    }
  }

  /** The two edits of a favourites list that the server makes. */
  datatype Edit = Add(movieId: string) | Remove(movieId: string)

  /** Whether the handler changes, and then saves, the list: POST
      /favoriteMovie only when the id is missing, POST /unfavoriteMovie only
      when it is present. */
  predicate Changes(e: Edit, favs: seq<string>) {
    match e
    case Add(id) => id !in favs
    case Remove(id) => id in favs
  }

  /** The list after the edit; a list the edit does not change stays as it
      is. */
  function Applied(e: Edit, favs: seq<string>): (r: seq<string>)
    ensures !Changes(e, favs) ==> r == favs
    ensures Changes(e, favs) ==> r != favs
  {
    match e
    case Add(id) => AddFavorite(favs, id)
    case Remove(id) => RemoveFirst(favs, id)
  }

  /** Favouriting is idempotent: a second request changes nothing. */
  lemma AddFavoriteIdempotent(favs: seq<string>, id: string)
    ensures AddFavorite(AddFavorite(favs, id), id) == AddFavorite(favs, id)
  {
  }

  /** Favouriting never creates a duplicate id. */
  lemma AddFavoriteNoDuplicates(favs: seq<string>, id: string)
    requires Distinct(favs)
    ensures Distinct(AddFavorite(favs, id))
  {
  }

  /** Unfavouriting undoes favouriting a movie that was not a favourite. */
  lemma RemoveUndoesAdd(favs: seq<string>, id: string)
    requires id !in favs
    ensures RemoveFirst(AddFavorite(favs, id), id) == favs
  {
    var a := favs + [id];
    var k := FirstIndex(a, (x: string) => x == id);
    assert a[|favs|] == id;
    assert k == |favs|;
    assert a[..k] == favs;
  }

  /** Without duplicates, unfavouriting removes the id altogether. */
  lemma RemoveFirstRemovesId(favs: seq<string>, id: string)
    requires Distinct(favs)
    ensures id !in RemoveFirst(favs, id)
  {
    if id in favs {
      var k := FirstIndex(favs, (x: string) => x == id);
      var r := favs[..k] + favs[k + 1..];
      forall i | 0 <= i < |r| ensures r[i] != id {
        if i < k { assert r[i] == favs[i]; } else { assert r[i] == favs[i + 1]; }
      }
    }
  }
}
