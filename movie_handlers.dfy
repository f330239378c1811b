/** cmd/api/movies.go: the movie handlers as transitions of the movies table
    and the response each one sends. The JSON body is the decoded input, or
    None when readJSON rejected it. */
module MovieHandlers {
  import opened Common
  import opened Text
  import opened Validation
  import opened Filters
  import opened Movies
  import opened Storage
  import opened Responses
  import opened Helpers
  import opened Window
  import MovieModel

  /** The JSON input of createMovie and updateMovie. Genres is None when the
      field is absent or null (a nil slice in the source). */
  datatype MovieInput = MovieInput(title: Bytes, runtime: Int32, year: Int32, genres: Option<seq<Bytes>>)

  /** The movie createMovie builds: placeholder id and version 1; a missing
      genres field is an empty list. */
  function NewMovie(input: MovieInput, now: Time): (m: Movie)
    ensures m.id == 1 && m.version == 1 && m.createdAt == now
    ensures m.title == input.title && m.runtime == input.runtime && m.year == input.year
    ensures m.genres == if input.genres.Some? then input.genres.value else []
  {
    Movie(1, now, input.title, input.runtime, input.year,
          if input.genres.Some? then input.genres.value else [], 1)
  }

  /** createMovie. A rejected body is a bad request and an invalid movie a
      failed validation, with nothing written; otherwise the movie is inserted
      and 201 is sent with the stored movie. */
  method CreateMovie(db: Database, body: Option<MovieInput>, now: Time, currentYear: int)
    returns (resp: Response, created: Option<Movie>)
    requires db.Valid()
    modifies db`movies, db`nextMovieId
    ensures db.Valid()
    ensures body.None? ==> resp == BadRequest
    ensures body.Some? && !NoErrors(ValidateMovie(map[], NewMovie(body.value, now), currentYear)) ==>
      resp == FailedValidation(ValidateMovie(map[], NewMovie(body.value, now), currentYear))
    ensures resp != Success(StatusCreated) ==>
      created.None? && db.movies == old(db.movies) && db.nextMovieId == old(db.nextMovieId)
    ensures body.Some? && NoErrors(ValidateMovie(map[], NewMovie(body.value, now), currentYear)) ==>
      && resp == Success(StatusCreated)
      && created == Some(NewMovie(body.value, now).(id := old(db.nextMovieId)))
      && old(db.nextMovieId) !in old(db.movies)
      && db.movies == old(db.movies)[old(db.nextMovieId) := created.value]
  {
    created := None;
    if body.None? {
      return BadRequest, None;
    }
    var movie := NewMovie(body.value, now);
    var errors := ValidateMovie(map[], movie, currentYear);
    if !NoErrors(errors) {
      return FailedValidation(errors), None;
    }
    var saved := MovieModel.InsertMovie(db, movie, now);
    resp, created := Success(StatusCreated), Some(saved);
  }

  /** GetMovieByID: the `id` route parameter as readParamID reads it, whose
      error is always nil, so an id that does not parse looks up -1. */
  method ShowMovie(db: Database, param: Bytes) returns (resp: Response, movie: Option<Movie>)
    ensures ReadParamID(param) in db.movies ==>
      resp == Success(StatusOK) && movie == Some(db.movies[ReadParamID(param)])
    ensures ReadParamID(param) !in db.movies ==> resp == NotFound && movie.None?
  {
    var id := ReadParamID(param);
    var r := MovieModel.GetByID(db, id);
    if r.Err? {
      return LookupFailure(r.error), None;
    }
    resp, movie := Success(StatusOK), Some(r.value);
  }

  /** The PATCH merge of updateMovie: a title only if non-empty, a runtime or
      year only if non-zero, genres whenever the field was sent (even empty);
      id, creation time and version are never taken from the input. */
  function Merge(m: Movie, input: MovieInput): (r: Movie)
    ensures r.id == m.id && r.createdAt == m.createdAt && r.version == m.version
    ensures input.title != [] ==> r.title == input.title
    ensures input.title == [] ==> r.title == m.title
    ensures input.runtime != 0 ==> r.runtime == input.runtime
    ensures input.runtime == 0 ==> r.runtime == m.runtime
    ensures input.year != 0 ==> r.year == input.year
    ensures input.year == 0 ==> r.year == m.year
    ensures input.genres.Some? ==> r.genres == input.genres.value
    ensures input.genres.None? ==> r.genres == m.genres
  {
    var m1 := if input.title != [] then m.(title := input.title) else m;
    var m2 := if input.runtime != 0 then m1.(runtime := input.runtime) else m1;
    var m3 := if input.year != 0 then m2.(year := input.year) else m2;
    if input.genres.Some? then m3.(genres := input.genres.value) else m3
  }

  /** An input that sends nothing leaves the movie as it is. */
  lemma EmptyPatchKeepsMovie(m: Movie)
    ensures Merge(m, MovieInput([], 0, 0, None)) == m
  {
  }

  /** Applying the same patch twice is applying it once. */
  lemma MergeIdempotent(m: Movie, input: MovieInput)
    ensures Merge(Merge(m, input), input) == Merge(m, input)
  {
  }

  /** A patch that sends every field replaces all four, whatever was stored. */
  lemma FullPatchReplaces(m: Movie, n: Movie, input: MovieInput)
    requires input.title != [] && input.runtime != 0 && input.year != 0 && input.genres.Some?
    requires m.id == n.id && m.createdAt == n.createdAt && m.version == n.version
    ensures Merge(m, input) == Merge(n, input)
  {
  }

  /** updateMovie. An unknown id is a 404 before the body is read; a rejected
      body a bad request; a merged movie that fails validation a failed
      validation; nothing is written in those cases. Otherwise the merge is
      written with the version read at load time, and the stored and returned
      version is one higher. */
  method UpdateMovieHandler(db: Database, param: Bytes, body: Option<MovieInput>, currentYear: int)
    returns (resp: Response, updated: Option<Movie>)
    requires db.Valid()
    modifies db`movies
    ensures db.Valid()
    ensures resp != Success(StatusOK) ==> updated.None? && db.movies == old(db.movies)
    ensures ReadParamID(param) !in old(db.movies) ==> resp == NotFound
    ensures ReadParamID(param) in old(db.movies) && body.None? ==> resp == BadRequest
    ensures ReadParamID(param) in old(db.movies) && body.Some? ==>
      (resp == Success(StatusOK) <==> MergeValid(old(db.movies)[ReadParamID(param)], body.value, currentYear))
    ensures resp.FailedValidation? ==>
      && ReadParamID(param) in old(db.movies) && body.Some?
      && resp.errors == ValidateMovie(map[], Merge(old(db.movies)[ReadParamID(param)], body.value), currentYear)
    ensures resp == Success(StatusOK) ==>
      && ReadParamID(param) in old(db.movies) && body.Some?
      && var merged := Merge(old(db.movies)[ReadParamID(param)], body.value);
         && updated.Some? && updated.value == merged.(version := merged.version + 1)
         && db.movies == old(db.movies)[ReadParamID(param) := updated.value]
  {
    updated := None;
    var id := ReadParamID(param);
    var found := MovieModel.GetByID(db, id);
    if found.Err? {
      return LookupFailure(found.error), None;
    }
    if body.None? {
      return BadRequest, None;
    }
    var movie := Merge(found.value, body.value);
    assert movie == Merge(old(db.movies)[ReadParamID(param)], body.value);
    assert movie.id == id && movie.version == found.value.version && movie.createdAt == found.value.createdAt;
    resp, updated := SaveMovie(db, movie, currentYear);
    if updated.Some? {
      assert updated.value.(createdAt := found.value.createdAt) == updated.value;
    }
  }

  /** The tail of updateMovie for the merged movie: validation, then the
      update guarded by the version read at load time. A row deleted or
      edited since then is an edit conflict. */
  method SaveMovie(db: Database, movie: Movie, currentYear: int) returns (resp: Response, updated: Option<Movie>)
    requires db.Valid()
    modifies db`movies
    ensures db.Valid()
    ensures !NoErrors(ValidateMovie(map[], movie, currentYear)) ==>
      && resp == FailedValidation(ValidateMovie(map[], movie, currentYear))
      && updated.None? && db.movies == old(db.movies)
    ensures (NoErrors(ValidateMovie(map[], movie, currentYear))
      && !(movie.id in old(db.movies) && old(db.movies)[movie.id].version == movie.version)) ==>
      && resp == EditConflict && updated.None? && db.movies == old(db.movies)
    ensures (NoErrors(ValidateMovie(map[], movie, currentYear))
      && movie.id in old(db.movies) && old(db.movies)[movie.id].version == movie.version) ==>
      && resp == Success(StatusOK)
      && updated == Some(movie.(version := movie.version + 1))
      && db.movies == old(db.movies)[movie.id := updated.value.(createdAt := old(db.movies)[movie.id].createdAt)]
  {
    var errors := ValidateMovie(map[], movie, currentYear);
    if !NoErrors(errors) {
      return FailedValidation(errors), None;
    }
    var r := MovieModel.UpdateMovie(db, movie);
    match r {
      case Err(e) =>
        return UpdateFailure(e), None;
      case Ok(saved) =>
        resp, updated := Success(StatusOK), Some(saved);
    }
  }

  /** The merge passes ValidateMovie. */
  predicate MergeValid(m: Movie, input: MovieInput, currentYear: int)
  {
    NoErrors(ValidateMovie(map[], Merge(m, input), currentYear))
  }

  /** DeleteMovieByID: 200 when a row was removed, 404 when there was none. */
  method DeleteMovie(db: Database, param: Bytes) returns (resp: Response)
    requires db.Valid()
    modifies db`movies
    ensures db.Valid()
    ensures resp == Success(StatusOK) <==> ReadParamID(param) in old(db.movies)
    ensures resp != Success(StatusOK) ==> resp == NotFound
    ensures db.movies == old(db.movies) - {ReadParamID(param)}
  {
    var err := MovieModel.DeleteByID(db, ReadParamID(param));
    if err.Some? {
      return LookupFailure(err.value);
    }
    resp := Success(StatusOK);
  }

  /** The sort keys ListMovies accepts: each column, ascending or descending. */
  const MovieSafeSortList: seq<Bytes> := [
    Ascii("id"), Ascii("-id"),
    Ascii("title"), Ascii("-title"),
    Ascii("runtime"), Ascii("-runtime"),
    Ascii("year"), Ascii("-year"),
    Ascii("genres"), Ascii("-genres")
  ]

  /** The filter ListMovies builds from the query string, with its defaults:
      page 1, page size 100, sort "id". */
  function QueryFilter(qs: Query): (f: Filter)
    ensures f.safeSortList == MovieSafeSortList
    ensures f.page == QueryInt(qs, "page", 1) && f.pageSize == QueryInt(qs, "page_size", 100)
    ensures Get(qs, "page") == [] ==> f.page == 1
    ensures Get(qs, "page_size") == [] ==> f.pageSize == 100
    ensures Get(qs, "sort") == [] ==> f.sort == Ascii("id")
    ensures Get(qs, "sort") != [] ==> f.sort == ToLower(Get(qs, "sort"))
  {
    Filter(QueryInt(qs, "page", 1), QueryInt(qs, "page_size", 100), ReadString(qs, "sort", Ascii("id")),
           MovieSafeSortList)
  }

  /** Every key of the safe list names a column of the movies table, so a
      validated filter never makes the listing query fail. */
  lemma SafeSortKeyResolves(f: Filter)
    requires f.safeSortList == MovieSafeSortList && SortOk(f)
    ensures ColumnNamed(SortColumn(f)).Some?
  {
    SafeSortListShape();
    var i :| 0 <= i < |MovieSafeSortList| && MovieSafeSortList[i] == f.sort;
    var name := MovieSortColumns[i / 2];
    if i % 2 == 0 {
      AscendingKey(name);
      assert SortColumn(f) == name;
    } else {
      assert f.sort == [Dash] + name && HasPrefix(f.sort, [Dash]);
      assert SortColumn(f) == name;
    }
    assert name in MovieSortColumns;
  }

  /** The safe list is each column name followed by its descending key. */
  lemma SafeSortListShape()
    ensures forall i | 0 <= i < |MovieSafeSortList| ::
      MovieSafeSortList[i] == if i % 2 == 0 then MovieSortColumns[i / 2] else [Dash] + MovieSortColumns[i / 2]
  {
    Dashed("id");
    assert "-id" == ['-'] + "id";
    Dashed("title");
    assert "-title" == ['-'] + "title";
    Dashed("runtime");
    assert "-runtime" == ['-'] + "runtime";
    Dashed("year");
    assert "-year" == ['-'] + "year";
    Dashed("genres");
    assert "-genres" == ['-'] + "genres";
  }

  /** A descending key is the column's name after one dash. */
  lemma Dashed(name: string)
    requires IsAscii(name)
    ensures IsAscii(['-'] + name) && Ascii(['-'] + name) == [Dash] + Ascii(name)
  {
  }

  /** No column name starts with a dash. */
  lemma AscendingKey(name: Bytes)
    requires name in MovieSortColumns
    ensures !HasPrefix(name, [Dash])
  {
    assert name[0] != Dash;
  }

  /** A request with no query string lists the first hundred movies of any
      title, year and genres by ascending id. */
  lemma EmptyQueryDefaults()
    ensures QueryFilter(map[]) == Filter(1, 100, Ascii("id"), MovieSafeSortList)
    ensures ReadString(map[], "title", []) == [] && QueryInt(map[], "year", -1) == -1
    ensures ReadCSV(map[], "genres", []) == []
    ensures PageOk(QueryFilter(map[])) && PageSizeOk(QueryFilter(map[])) && SortOk(QueryFilter(map[]))
  {
    ReadIntAbsent(map[], "page", 1);
    ReadIntAbsent(map[], "page_size", 100);
  }

  /** The order a filter asks for; None for a sort key with no column. */
  function OrderOf(f: Filter): Option<Column>
    requires SortOk(f)
  {
    ColumnNamed(SortColumn(f))
  }

  /** ListMovies. The query values are read with their defaults (title "",
      year -1, genres none, page 1, page size 100, sort "id"); a year, page
      or page size that is not an integer, or a filter that fails
      validation, is a failed validation with every message collected.
      Otherwise the page is the window of the matching movies in the
      requested order, and 200 is sent. */
  /** The error map after one readInt: "must be integer" under the key when
      the value is present but not an integer. */
  function ReadIntErrors(errors: Errors, qs: Query, key: string): (r: Errors)
    ensures Extends(r, errors)
    ensures r.Keys == errors.Keys + (if IntMalformed(qs, key) then {key} else {})
  {
    if IntMalformed(qs, key) then WithError(errors, key, "must be integer") else errors
  }

  /** The error map listMoviesHandler's three readInt calls leave, in their
      order: year, page, page_size. */
  function ListReadErrors(qs: Query): (r: Errors)
    ensures NoErrors(r) <==> !IntMalformed(qs, "year") && !IntMalformed(qs, "page") && !IntMalformed(qs, "page_size")
  {
    ReadIntErrors(ReadIntErrors(ReadIntErrors(map[], qs, "year"), qs, "page"), qs, "page_size")
  }

  /** The reading half of listMoviesHandler: the six query values, read in
      the source's order through one validator, and the errors it holds. */
  method ReadListQuery(qs: Query) returns (title: Bytes, year: int, genres: seq<Bytes>, f: Filter, errors: Errors)
    ensures title == ReadString(qs, "title", []) && year == QueryInt(qs, "year", -1)
    ensures genres == ReadCSV(qs, "genres", [])
    ensures f == QueryFilter(qs)
    ensures errors == ListReadErrors(qs)
  {
    var v := new Validator();
    title := ReadString(qs, "title", []);
    year := ReadInt(qs, "year", -1, v);
    assert v.errors == ReadIntErrors(map[], qs, "year");
    genres := ReadCSV(qs, "genres", []);
    var page := ReadInt(qs, "page", 1, v);
    assert v.errors == ReadIntErrors(ReadIntErrors(map[], qs, "year"), qs, "page");
    var pageSize := ReadInt(qs, "page_size", 100, v);
    var sort := ReadString(qs, "sort", Ascii("id"));
    f := Filter(page, pageSize, sort, MovieSafeSortList);
    errors := v.errors;
  }

  method ListMoviesHandler(db: Database, qs: Query, titleMatch: (Bytes, Bytes) -> bool)
    returns (resp: Response, listing: Option<MovieModel.Listing>)
    requires db.Valid()
    ensures var f := QueryFilter(qs);
      var valid := !IntMalformed(qs, "year") && !IntMalformed(qs, "page") && !IntMalformed(qs, "page_size")
                   && PageOk(f) && PageSizeOk(f) && SortOk(f);
      && (resp.FailedValidation? <==> !valid)
      && (valid ==>
            && resp == Success(StatusOK) && listing.Some?
            && OrderOf(f).Some?
            && var selected := MovieModel.Selected(db, ReadString(qs, "title", []), QueryInt(qs, "year", -1),
                                                   ReadCSV(qs, "genres", []), titleMatch);
               && IsPage(listing.value.movies, selected,
                         (a, b) => Precedes(a, b, OrderOf(f).value, SortDirection(f)), Offset(f), Limit(f))
               && listing.value.metadata == NewMetadata(f.page, f.pageSize,
                    if listing.value.movies == [] then 0 else |selected|))
    ensures resp.FailedValidation? ==> resp.errors == ValidateFilters(ListReadErrors(qs), QueryFilter(qs))
  {
    var title, year, genres, f, read := ReadListQuery(qs);
    ValidateFiltersValid(f);
    var errors := ValidateFilters(read, f);
    if !NoErrors(errors) {
      return FailedValidation(errors), None;
    }
    SafeSortKeyResolves(f);
    var r := MovieModel.ListMovies(db, title, year, genres, f, titleMatch);
    if r.Err? {
      return ServerError, None;
    }
    resp, listing := Success(StatusOK), Some(r.value);
  }
}
