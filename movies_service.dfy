/** The movie cache of the server: a module-level list that starts out
    `null`, is filled from the movies collection on the first read, falls
    back to the empty list when the collection cannot be read, and is
    rebuilt from the collection whenever `initializeMovies` is called. */
module MoviesService {
  import opened Options
  import opened ImportMovies
  import Seqs

  /** A movie object held in the cache.  Its descriptive fields never change;
      `isFavorite` is the one property the server writes into the object
      (false stands for "property absent"). */
  class Movie {
    const id: string
    const title: string
    const genres: string
    const extras: map<string, string>
    var isFavorite: bool

    constructor (d: MovieDoc)
      ensures Doc() == d && !isFavorite
    {
      id, title, genres, extras := d.id, d.title, d.genres, d.extras;
      isFavorite := false;
    }

    /** The stored document this object was read from. */
    function Doc(): MovieDoc {
      MovieDoc(id, title, genres, extras)
    }
  }

  /** The JSON form of a movie object at the moment it is sent. */
  datatype MovieView = MovieView(id: string, title: string, genres: string, extras: map<string, string>, isFavorite: bool)

  function View(m: Movie): (v: MovieView)
    reads m
    ensures v.isFavorite == m.isFavorite
  {
    MovieView(m.id, m.title, m.genres, m.extras, m.isFavorite)
  }

  function Views(ms: seq<Movie>): (r: seq<MovieView>)
    reads set m | m in ms
    ensures |r| == |ms|
    ensures forall i :: 0 <= i < |ms| ==> r[i] == View(ms[i])
  {
    if ms == [] then [] else [View(ms[0])] + Views(ms[1..])
  }

  function Docs(ms: seq<Movie>): (r: seq<MovieDoc>)
    ensures |r| == |ms|
    ensures forall i :: 0 <= i < |ms| ==> r[i] == ms[i].Doc()
  {
    if ms == [] then [] else [ms[0].Doc()] + Docs(ms[1..])
  }

  /** A list just read from the collection: one distinct object per
      document, in the collection's order, none flagged as favourite; or the empty list when the
      collection could not be read. */
  ghost predicate LoadedFrom(ms: seq<Movie>, docs: seq<MovieDoc>, reachable: bool)
    reads set m | m in ms
  {
    if reachable then Seqs.Distinct(ms) && Docs(ms) == docs && forall m :: m in ms ==> !m.isFavorite
    else ms == []
  }

  /** The movies collection of the database.  `reachable` says whether the
      connection and the query succeed; `finds` counts the queries made. */
  class MovieCollection {
    var documents: seq<MovieDoc>
    var reachable: bool
    ghost var finds: nat

    constructor (documents: seq<MovieDoc>, reachable: bool)
      ensures this.documents == documents && this.reachable == reachable && finds == 0
    {
      this.documents, this.reachable := documents, reachable;
      finds := 0;
    }

    /** `client.connect()` followed by `collection.find({}).toArray()`: one
        new object per document, or `None` when the database fails. */
    method Find() returns (found: Option<seq<Movie>>)
      modifies this`finds
      ensures finds == old(finds) + 1
      ensures found.Some? == reachable
      ensures found.Some? ==> LoadedFrom(found.value, documents, true)
      ensures found.Some? ==> forall m :: m in found.value ==> fresh(m)
    {
      finds := finds + 1;
      if !reachable {
        return None;
      }
      var ms: seq<Movie> := [];
      for i := 0 to |documents|
        invariant finds == old(finds) + 1
        invariant |ms| == i
        invariant forall k :: 0 <= k < i ==> ms[k].Doc() == documents[k]
        invariant forall m :: m in ms ==> fresh(m) && !m.isFavorite
        invariant Seqs.Distinct(ms)
      {
        var m := new Movie(documents[i]);
        ms := ms + [m];
      }
      found := Some(ms);
    }
  }

  class MovieCache {
    var cachedMovies: Option<seq<Movie>>
    const backend: MovieCollection

    constructor (backend: MovieCollection)
      ensures this.backend == backend && cachedMovies == None
    {
      this.backend := backend;
      cachedMovies := None;
    }

    /** The movie objects the cache holds now. */
    function Loaded(): set<Movie>
      reads this
    {
      if cachedMovies.Some? then set m | m in cachedMovies.value else {}
    }

    /** No flag of a cached movie was written: a movie cached before the step
        keeps its flag, and one loaded by the step is unflagged. */
    twostate predicate FlagsKept()
      reads this, Loaded()
    {
      cachedMovies.Some? ==>
        forall m | m in cachedMovies.value :: m.isFavorite == (m in old(Loaded()) && old(m.isFavorite))
    }

    /** The number of movies the next `getMovies` returns. */
    ghost function NextCount(): nat
      reads this, backend
    {
      if cachedMovies.Some? then |cachedMovies.value|
      else if backend.reachable then |backend.documents|
      else 0
    }

    /** `initializeMovies`: always queries the collection and replaces the
        cache with what it returns, or with `[]` when the query fails; the
        failure is not reported to the caller. */
    method InitializeMovies()
      modifies this`cachedMovies, backend`finds
      ensures backend.finds == old(backend.finds) + 1
      ensures cachedMovies.Some?
      ensures LoadedFrom(cachedMovies.value, backend.documents, backend.reachable)
      ensures forall m :: m in cachedMovies.value ==> fresh(m)
    {
      var found := backend.Find();
      match found
      case Some(ms) => cachedMovies := Some(ms);
      case None => cachedMovies := Some([]);
    }

    /** `getMovies`: loads only while the cache is `null`; otherwise returns
        the cached list itself without touching the collection. */
    method GetMovies() returns (ms: seq<Movie>)
      modifies this`cachedMovies, backend`finds
      ensures cachedMovies == Some(ms) && |ms| == old(NextCount())
      ensures old(cachedMovies).Some? ==>
        ms == old(cachedMovies).value && backend.finds == old(backend.finds)
      ensures old(cachedMovies).None? ==>
        backend.finds == old(backend.finds) + 1
        && LoadedFrom(ms, backend.documents, backend.reachable)
        && forall m :: m in ms ==> fresh(m)
      ensures FlagsKept()
    {
      if cachedMovies.None? {
        InitializeMovies();
      }
      ms := cachedMovies.value;
    }
  }
}
