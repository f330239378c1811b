/** internal/data/movies.go, the values: a movie, its validation, and the
    filter and order the listing query applies. */
module Movies {
  import opened Common
  import opened Order
  import opened Text
  import opened Validation
  import opened Filters

  datatype Movie = Movie(id: int, createdAt: Time, title: Bytes, runtime: Int32,
                         year: Int32, genres: seq<Bytes>, version: int)

  const MaxTitleLength: nat := 500
  const FirstFilmYear: int := 1888
  const MaxGenres: nat := 5

  predicate TitleOk(m: Movie) { m.title != [] && |m.title| <= MaxTitleLength }
  predicate RuntimeOk(m: Movie) { m.runtime > 0 }
  predicate YearOk(m: Movie, currentYear: int) { FirstFilmYear <= m.year <= currentYear }
  predicate GenresOk(m: Movie) { 1 <= |m.genres| <= MaxGenres && Distinct(m.genres) }

  /** ValidateMovie, with the current year (from the clock) passed in: the
      checks of the four fields in the source's order. The upper year bound
      reuses the lower bound's message, as in the source. */
  function ValidateMovie(errors: Errors, m: Movie, currentYear: int): (r: Errors)
    ensures Extends(r, errors)
    ensures r.Keys ==
      errors.Keys
      + (if TitleOk(m) then {} else {"title"})
      + (if RuntimeOk(m) then {} else {"runtime"})
      + (if YearOk(m, currentYear) then {} else {"year"})
      + (if GenresOk(m) then {} else {"genres"})
  {
    var e1 := CheckTitle(errors, m);
    var e2 := CheckRuntime(e1, m);
    var e3 := CheckYear(e2, m, currentYear);
    assert Extends(e3, errors);
    CheckGenres(e3, m)
  }

  function CheckTitle(errors: Errors, m: Movie): (r: Errors)
    ensures Extends(r, errors) && r.Keys == errors.Keys + (if TitleOk(m) then {} else {"title"})
  {
    var e := Checked(errors, m.title != [], "title", "must be provided");
    Checked(e, |m.title| <= MaxTitleLength, "title", "cannot more than 500 characters")
  }

  function CheckRuntime(errors: Errors, m: Movie): (r: Errors)
    ensures Extends(r, errors) && r.Keys == errors.Keys + (if RuntimeOk(m) then {} else {"runtime"})
  {
    var e := Checked(errors, m.runtime != 0, "runtime", "must be provided");
    Checked(e, m.runtime >= 0, "runtime", "must be postive integer")
  }

  function CheckYear(errors: Errors, m: Movie, currentYear: int): (r: Errors)
    ensures Extends(r, errors) && r.Keys == errors.Keys + (if YearOk(m, currentYear) then {} else {"year"})
  {
    var e1 := Checked(errors, m.year != 0, "year", "must be provided");
    var e2 := Checked(e1, m.year >= FirstFilmYear, "year", "must be at least 1888");
    Checked(e2, m.year <= currentYear, "year", "must be at least 1888")
  }

  function CheckGenres(errors: Errors, m: Movie): (r: Errors)
    ensures Extends(r, errors) && r.Keys == errors.Keys + (if GenresOk(m) then {} else {"genres"})
  {
    var e1 := Checked(errors, |m.genres| >= 1, "genres", "must at have at least one");
    var e2 := Checked(e1, |m.genres| <= MaxGenres, "genres", "cannot have more than five");
    Checked(e2, Distinct(m.genres), "genres", "cannot have duplicates")
  }

  /** A fresh validator stays valid exactly for a movie with a 1-500 byte
      title, a positive runtime, a year from 1888 to the current year, and
      one to five distinct genres. */
  lemma ValidateMovieValid(m: Movie, currentYear: int)
    ensures NoErrors(ValidateMovie(map[], m, currentYear)) <==>
      TitleOk(m) && RuntimeOk(m) && YearOk(m, currentYear) && GenresOk(m)
  {
    var keys := ValidateMovie(map[], m, currentYear).Keys;
    if !TitleOk(m) { assert "title" in keys; }
    if !RuntimeOk(m) { assert "runtime" in keys; }
    if !YearOk(m, currentYear) { assert "year" in keys; }
    if !GenresOk(m) { assert "genres" in keys; }
  }

  /** A zero runtime or year is reported as missing, not as out of range. */
  lemma ZeroIsMissing(m: Movie, currentYear: int)
    ensures m.runtime == 0 ==> ValidateMovie(map[], m, currentYear)["runtime"] == "must be provided"
    ensures m.year == 0 ==> ValidateMovie(map[], m, currentYear)["year"] == "must be provided"
  {
  }

  /** The columns a listing can be ordered by. */
  datatype Column = IdColumn | TitleColumn | RuntimeColumn | YearColumn | GenresColumn

  /** The column named in the ORDER BY clause; None for a name the table lacks. */
  function ColumnNamed(name: Bytes): (c: Option<Column>)
    ensures name in MovieSortColumns ==> c.Some?
  {
    if name == Ascii("id") then Some(IdColumn)
    else if name == Ascii("title") then Some(TitleColumn)
    else if name == Ascii("runtime") then Some(RuntimeColumn)
    else if name == Ascii("year") then Some(YearColumn)
    else if name == Ascii("genres") then Some(GenresColumn)
    else None
  }

  const MovieSortColumns: seq<Bytes> :=
    [Ascii("id"), Ascii("title"), Ascii("runtime"), Ascii("year"), Ascii("genres")]

  /** Postgres array order: element by element, a proper prefix first. */
  predicate GenresLess(a: seq<Bytes>, b: seq<Bytes>)
  {
    LexLess(a, b, BytesLess)
  }

  /** a's value in the column is below b's. */
  predicate ColumnLess(a: Movie, b: Movie, c: Column)
  {
    match c
    case IdColumn => a.id < b.id
    case TitleColumn => BytesLess(a.title, b.title)
    case RuntimeColumn => a.runtime < b.runtime
    case YearColumn => a.year < b.year
    case GenresColumn => GenresLess(a.genres, b.genres)
  }

  predicate SameInColumn(a: Movie, b: Movie, c: Column)
  {
    match c
    case IdColumn => a.id == b.id
    case TitleColumn => a.title == b.title
    case RuntimeColumn => a.runtime == b.runtime
    case YearColumn => a.year == b.year
    case GenresColumn => a.genres == b.genres
  }

  /** `ORDER BY <column> <direction>, id ASC`: a comes before b. */
  predicate Precedes(a: Movie, b: Movie, c: Column, dir: Direction)
  {
    || (dir == Asc && ColumnLess(a, b, c))
    || (dir == Desc && ColumnLess(b, a, c))
    || (SameInColumn(a, b, c) && a.id < b.id)
  }

  lemma PrecedesIrreflexive(a: Movie, c: Column, dir: Direction)
    ensures !Precedes(a, a, c, dir)
  {
    BytesLessStrictTotalOrder();
    if c == GenresColumn { LexIrreflexive(a.genres, BytesLess); }
  }

  lemma ColumnLessTransitive(a: Movie, b: Movie, m: Movie, c: Column)
    requires ColumnLess(a, b, c) && ColumnLess(b, m, c)
    ensures ColumnLess(a, m, c)
  {
    BytesLessStrictTotalOrder();
    if c == GenresColumn { LexTransitive(a.genres, b.genres, m.genres, BytesLess); }
  }

  lemma PrecedesTransitive(a: Movie, b: Movie, m: Movie, c: Column, dir: Direction)
    requires Precedes(a, b, c, dir) && Precedes(b, m, c, dir)
    ensures Precedes(a, m, c, dir)
  {
    if dir == Asc && ColumnLess(a, b, c) && ColumnLess(b, m, c) {
      ColumnLessTransitive(a, b, m, c);
    } else if dir == Desc && ColumnLess(b, a, c) && ColumnLess(m, b, c) {
      ColumnLessTransitive(m, b, a, c);
    }
  }

  /** Two movies with different IDs are always ordered one way or the other:
      the id tiebreak makes the order total. */
  lemma PrecedesTotal(a: Movie, b: Movie, c: Column, dir: Direction)
    requires a.id != b.id
    ensures Precedes(a, b, c, dir) || Precedes(b, a, c, dir)
  {
    BytesLessStrictTotalOrder();
    if c == GenresColumn && a.genres != b.genres { LexTotal(a.genres, b.genres, BytesLess); }
  }

  /** The listing's WHERE clause, with the Postgres full-text title match
      passed in: an empty title, year -1 and an empty genre list match
      everything; otherwise the movie must have all the requested genres. */
  predicate Matches(m: Movie, title: Bytes, year: int, genres: seq<Bytes>,
                    titleMatch: (Bytes, Bytes) -> bool)
    ensures title == [] && year == -1 && genres == [] ==> Matches(m, title, year, genres, titleMatch)
    ensures Matches(m, title, year, genres, titleMatch) && year != -1 ==> m.year == year
  {
    && (title == [] || titleMatch(m.title, title))
    && (year == -1 || m.year == year)
    && (genres == [] || forall g | g in genres :: g in m.genres)
  }
}

/** internal/data/movies.go, the MovieModel: the statements on the movies table. */
module MovieModel {
  import opened Common
  import opened Filters
  import opened Movies
  import opened Storage
  import opened Window

  /** MovieModel.InsertMovie: the row gets the next id, the current time and
      version 1, which are also written back into the caller's movie. */
  method InsertMovie(db: Database, movie: Movie, now: Time) returns (saved: Movie)
    requires db.Valid()
    modifies db`movies, db`nextMovieId
    ensures db.Valid()
    ensures saved == movie.(id := old(db.nextMovieId), createdAt := now, version := 1)
    ensures saved.id !in old(db.movies)
    ensures db.movies == old(db.movies)[saved.id := saved]
  {
    saved := movie.(id := db.nextMovieId, createdAt := now, version := 1);
    db.movies := db.movies[saved.id := saved];
    db.nextMovieId := db.nextMovieId + 1;
  }

  /** MovieModel.GetByID: the stored movie, or ErrNoRecord. */
  method GetByID(db: Database, id: int) returns (r: Result<Movie>)
    ensures r.Ok? <==> id in db.movies
    ensures r.Ok? ==> r.value == db.movies[id]
    ensures r.Err? ==> r.error == ErrNoRecord
  {
    if id in db.movies {
      r := Ok(db.movies[id]);
    } else {
      r := Err(ErrNoRecord);
    }
  }

  /** MovieModel.DeleteByID: ErrNoRecord when no row was affected. */
  method DeleteByID(db: Database, id: int) returns (err: Option<DataError>)
    requires db.Valid()
    modifies db`movies
    ensures db.Valid()
    ensures err.None? <==> id in old(db.movies)
    ensures err.Some? ==> err.value == ErrNoRecord
    ensures db.movies == old(db.movies) - {id}
  {
    if id !in db.movies {
      return Some(ErrNoRecord);
    }
    db.movies := db.movies - {id};
    err := None;
  }

  /** MovieModel.UpdateMovie, an optimistic update: when no row has the id
      and the version the caller read, ErrEditConflict and nothing changes;
      otherwise title, runtime, year and genres are written, the creation
      time is kept, and the version goes up by one in the row and in the
      caller's movie. */
  method UpdateMovie(db: Database, movie: Movie) returns (r: Result<Movie>)
    requires db.Valid()
    modifies db`movies
    ensures db.Valid()
    ensures !(movie.id in old(db.movies) && old(db.movies)[movie.id].version == movie.version) ==>
      r == Err(ErrEditConflict) && db.movies == old(db.movies)
    ensures movie.id in old(db.movies) && old(db.movies)[movie.id].version == movie.version ==>
      && r == Ok(movie.(version := movie.version + 1))
      && db.movies == old(db.movies)[movie.id := r.value.(createdAt := old(db.movies)[movie.id].createdAt)]
  {
    if !(movie.id in db.movies && db.movies[movie.id].version == movie.version) {
      return Err(ErrEditConflict);
    }
    var saved := movie.(version := movie.version + 1);
    db.movies := db.movies[movie.id := saved.(createdAt := db.movies[movie.id].createdAt)];
    r := Ok(saved);
  }

  /** The movies the WHERE clause selects. */
  function Selected(db: Database, title: Bytes, year: int, genres: seq<Bytes>,
                    titleMatch: (Bytes, Bytes) -> bool): (r: set<Movie>)
    reads db
    ensures forall id | id in db.movies :: Matches(db.movies[id], title, year, genres, titleMatch) <==> db.movies[id] in r
    ensures forall m | m in r :: m in db.movies.Values
    ensures title == [] && year == -1 && genres == [] ==> r == db.movies.Values
  {
    set id | id in db.movies && Matches(db.movies[id], title, year, genres, titleMatch) :: db.movies[id]
  }

  /** No two distinct candidates share an id, as rows of one table. */
  predicate DistinctIds(s: set<Movie>)
  {
    forall a, b | a in s && b in s && a != b :: a.id != b.id
  }

  /** Rows stored under their own ids have pairwise different ids. */
  lemma SelectedDistinctIds(db: Database, title: Bytes, year: int, genres: seq<Bytes>,
                            titleMatch: (Bytes, Bytes) -> bool)
    requires db.Valid()
    ensures DistinctIds(Selected(db, title, year, genres, titleMatch))
  {
    var selected := Selected(db, title, year, genres, titleMatch);
    forall a, b | a in selected && b in selected && a != b
      ensures a.id != b.id
    {
      var ka :| ka in db.movies && Matches(db.movies[ka], title, year, genres, titleMatch) && db.movies[ka] == a;
      var kb :| kb in db.movies && Matches(db.movies[kb], title, year, genres, titleMatch) && db.movies[kb] == b;
    }
  }

  /** `ORDER BY <column> <direction>, id ASC` orders rows with distinct ids
      strictly and totally. */
  lemma PrecedesStrictTotalOn(s: set<Movie>, c: Column, dir: Direction)
    requires DistinctIds(s)
    ensures StrictTotalOn(s, (a, b) => Precedes(a, b, c, dir))
  {
    forall x | x in s
      ensures !Precedes(x, x, c, dir)
    {
      PrecedesIrreflexive(x, c, dir);
    }
    forall x, y, z | x in s && y in s && z in s && Precedes(x, y, c, dir) && Precedes(y, z, c, dir)
      ensures Precedes(x, z, c, dir)
    {
      PrecedesTransitive(x, y, z, c, dir);
    }
    forall x, y | x in s && y in s && x != y
      ensures Precedes(x, y, c, dir) || Precedes(y, x, c, dir)
    {
      PrecedesTotal(x, y, c, dir);
    }
  }

  /** The listing's page: the movies and the paging metadata. */
  datatype Listing = Listing(movies: seq<Movie>, metadata: Metadata)

  /** MovieModel.ListMovies. The page is the window LIMIT and OFFSET cut
      from the selected movies in the ORDER BY order; a sort column the
      table lacks is a query error. Each row carries COUNT(*) OVER(), so the
      total is 0 when the page is empty even if earlier pages hold movies.
      The source panics for a sort key outside the safe list, and its OFFSET
      and last page are meaningless for a page or page size below 1; the
      precondition excludes those. */
  method ListMovies(db: Database, title: Bytes, year: int, genres: seq<Bytes>, f: Filter,
                    titleMatch: (Bytes, Bytes) -> bool) returns (r: Result<Listing>)
    requires db.Valid()
    requires SortOk(f) && f.page >= 1 && f.pageSize >= 1
    ensures r.Err? <==> ColumnNamed(SortColumn(f)).None?
    ensures r.Err? ==> r.error == ErrQuery
    ensures r.Ok? ==>
      && IsPage(r.value.movies, Selected(db, title, year, genres, titleMatch),
                (a, b) => Precedes(a, b, ColumnNamed(SortColumn(f)).value, SortDirection(f)),
                Offset(f), Limit(f))
      && r.value.metadata == NewMetadata(f.page, f.pageSize,
           if r.value.movies == [] then 0 else |Selected(db, title, year, genres, titleMatch)|)
  {
    var column := ColumnNamed(SortColumn(f));
    if column.None? {
      return Err(ErrQuery);
    }
    var c, dir := column.value, SortDirection(f);
    var selected := Selected(db, title, year, genres, titleMatch);
    SelectedDistinctIds(db, title, year, genres, titleMatch);
    PrecedesStrictTotalOn(selected, c, dir);
    var rows := OrderedPage(selected, (a, b) => Precedes(a, b, c, dir), Offset(f), Limit(f));
    var total := if rows == [] then 0 else |selected|;
    r := Ok(Listing(rows, NewMetadata(f.page, f.pageSize, total)));
  }
}
