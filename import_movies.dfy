/** The formatting step of the one-off import script: each movie read from
    the JSON file gets its list of genres replaced by one string, the genres
    joined with ", ", before the movies are stored.  This fixes the shape of
    the `genres` field that the catalog's genre filter later searches. */
module ImportMovies {
  import opened Text
  import Seqs

  /** A movie as listed in the data file.  `extras` stands for every field
      besides `id`, `title` and `genres` (year, poster, ...). */
  datatype RawMovie = RawMovie(id: string, title: string, genres: seq<string>, extras: map<string, string>)

  /** A movie as stored in the movies collection: `genres` is one string. */
  datatype MovieDoc = MovieDoc(id: string, title: string, genres: string, extras: map<string, string>)

  /** A copy of the movie whose genre list is replaced by the genres joined
      with a comma and a space. */
  function FormatMovie(m: RawMovie): MovieDoc {
    MovieDoc(m.id, m.title, Join(m.genres, ", "), m.extras)
  }

  /** The formatting applied to every movie of the file, in order. */
  function FormatMovies(movies: seq<RawMovie>): seq<MovieDoc> {
    Seqs.Map(movies, FormatMovie)
  }

  /** The formatted list has the input's length and order; every field but
      `genres` is copied and `genres` is the join of the input's genres. */
  lemma FormatMoviesFields(movies: seq<RawMovie>, i: nat)
    requires i < |movies|
    ensures |FormatMovies(movies)| == |movies|
    ensures var d := FormatMovies(movies)[i];
      d.id == movies[i].id && d.title == movies[i].title && d.extras == movies[i].extras
      && d.genres == Join(movies[i].genres, ", ")
  {
  }

  /** A movie with no genres is stored with the empty genre string. */
  lemma FormatNoGenres(m: RawMovie)
    requires m.genres == []
    ensures FormatMovie(m).genres == ""
  {
  }

  /** Every genre of the data file is a substring of the stored genre
      string, which is why the catalog's `includes` test finds it. */
  lemma FormatKeepsGenres(m: RawMovie, k: nat)
    requires k < |m.genres|
    ensures Contains(FormatMovie(m).genres, m.genres[k])
  {
    JoinContainsParts(m.genres, ", ", k);
  }
}
