/** The service layer: a validator with a fixed first-failure order in front of
    the store. A thrown `IllegalArgumentException` is a `Failure` carrying the
    violated rule; on failure the store is returned untouched. */
module Service {
  import opened Wrappers
  import opened JavaString
  import opened Movies
  import Repository

  /** The five validation rules, in the order they are checked. */
  datatype ValidationError =
    | TitleRequired
    | DescriptionRequired
    | GenreRequired
    | ReleaseYearOutOfRange
    | RatingOutOfRange

  /** The exception message each rule reports. */
  function Message(e: ValidationError): (msg: string)
    ensures e == TitleRequired ==> msg == "Title is required and cannot be empty"
    ensures e == DescriptionRequired ==> msg == "Description is required and cannot be empty"
    ensures e == GenreRequired ==> msg == "Genre is required and cannot be empty"
    ensures e == ReleaseYearOutOfRange ==> msg == "Release year must be between 1800 and 2030"
    ensures e == RatingOutOfRange ==> msg == "Rating must be between 0.0 and 10.0"
  {
    match e
    case TitleRequired => "Title is required and cannot be empty"
    case DescriptionRequired => "Description is required and cannot be empty"
    case GenreRequired => "Genre is required and cannot be empty"
    case ReleaseYearOutOfRange => "Release year must be between 1800 and 2030"
    case RatingOutOfRange => "Rating must be between 0.0 and 10.0"
  }

  /** Each rule has its own message, so the message identifies the rule. */
  lemma MessagesDistinct(e1: ValidationError, e2: ValidationError)
    requires e1 != e2
    ensures Message(e1) != Message(e2)
  {
  }

  const MinYear := 1800
  const MaxYear := 2030
  const MinRating := 0.0
  const MaxRating := 10.0

  /** A text field passes when it is non-null and not blank after `trim()`. */
  predicate Filled(s: Option<string>) {
    s.Some? && !IsBlank(s.value)
  }

  predicate YearInRange(year: int) {
    MinYear <= year <= MaxYear
  }

  predicate RatingInRange(rating: real) {
    MinRating <= rating <= MaxRating
  }

  /** Whether `m` breaks rule `e`. */
  predicate Breaks(m: Movie, e: ValidationError) {
    match e
    case TitleRequired => !Filled(m.title)
    case DescriptionRequired => !Filled(m.description)
    case GenreRequired => !Filled(m.genre)
    case ReleaseYearOutOfRange => !YearInRange(m.releaseYear)
    case RatingOutOfRange => !RatingInRange(m.rating)
  }

  /** All five rules hold; the id is not among them. */
  predicate IsValidMovie(m: Movie) {
    Filled(m.title) && Filled(m.description) && Filled(m.genre)
    && YearInRange(m.releaseYear) && RatingInRange(m.rating)
  }

  /** The rules in checking order. */
  const RuleOrder := [TitleRequired, DescriptionRequired, GenreRequired,
                      ReleaseYearOutOfRange, RatingOutOfRange]

  /** Every rule `m` breaks, in checking order: the report a validator listing
      all violations would give. */
  function Violations(m: Movie): (r: seq<ValidationError>)
    ensures forall e :: e in r <==> Breaks(m, e)
    ensures r == [] <==> IsValidMovie(m)
  {
    var r := Keep(m, RuleOrder);
    assert forall e :: e in RuleOrder;
    assert r != [] ==> r[0] in r;
    assert IsValidMovie(m) <==>
      !Breaks(m, TitleRequired) && !Breaks(m, DescriptionRequired) && !Breaks(m, GenreRequired)
      && !Breaks(m, ReleaseYearOutOfRange) && !Breaks(m, RatingOutOfRange);
    r
  }

  /** The rules of `rules` that `m` breaks, in their order. */
  function Keep(m: Movie, rules: seq<ValidationError>): (r: seq<ValidationError>)
    ensures forall e :: e in r <==> e in rules && Breaks(m, e)
    ensures |r| <= |rules|
  {
    if rules == [] then []
    else (if Breaks(m, rules[0]) then [rules[0]] else []) + Keep(m, rules[1..])
  }

  /** `validateMovie`: the first rule, in the order title, description, genre,
      release year, rating, that `m` breaks; `Pass` when there is none. */
  function Validate(m: Movie): (r: Outcome<ValidationError>)
    ensures r == Pass <==> IsValidMovie(m)
    ensures r == Fail(TitleRequired) <==> !Filled(m.title)
    ensures r == Fail(DescriptionRequired) <==> Filled(m.title) && !Filled(m.description)
    ensures r == Fail(GenreRequired) <==>
              Filled(m.title) && Filled(m.description) && !Filled(m.genre)
    ensures r == Fail(ReleaseYearOutOfRange) <==>
              Filled(m.title) && Filled(m.description) && Filled(m.genre)
              && !YearInRange(m.releaseYear)
    ensures r == Fail(RatingOutOfRange) <==>
              Filled(m.title) && Filled(m.description) && Filled(m.genre)
              && YearInRange(m.releaseYear) && !RatingInRange(m.rating)
  {
    if m.title.None? || IsBlank(m.title.value) then Fail(TitleRequired)
    else if m.description.None? || IsBlank(m.description.value) then Fail(DescriptionRequired)
    else if m.genre.None? || IsBlank(m.genre.value) then Fail(GenreRequired)
    else if m.releaseYear < MinYear || m.releaseYear > MaxYear then Fail(ReleaseYearOutOfRange)
    else if m.rating < MinRating || m.rating > MaxRating then Fail(RatingOutOfRange)
    else Pass
  }

  /** The single error reported is the first entry of the full violation
      list, and validation passes exactly when that list is empty. */
  lemma ValidateReportsFirstViolation(m: Movie)
    ensures Validate(m) == Pass <==> Violations(m) == []
    ensures Validate(m).Fail? ==> Violations(m) != [] && Validate(m).error == Violations(m)[0]
  {
    var k5 := Keep(m, [RatingOutOfRange]);
    var k4 := Keep(m, [ReleaseYearOutOfRange, RatingOutOfRange]);
    var k3 := Keep(m, [GenreRequired, ReleaseYearOutOfRange, RatingOutOfRange]);
    var k2 := Keep(m, [DescriptionRequired, GenreRequired, ReleaseYearOutOfRange, RatingOutOfRange]);
    assert k4 == (if Breaks(m, ReleaseYearOutOfRange) then [ReleaseYearOutOfRange] else []) + k5;
    assert k3 == (if Breaks(m, GenreRequired) then [GenreRequired] else []) + k4;
    assert k2 == (if Breaks(m, DescriptionRequired) then [DescriptionRequired] else []) + k3;
    assert Violations(m) == (if Breaks(m, TitleRequired) then [TitleRequired] else []) + k2;
  }

  /** Validation reads the five content fields only: two movies that differ
      at most in their id get the same verdict. */
  lemma ValidateIgnoresId(m: Movie, m': Movie)
    requires SameContent(m, m')
    ensures Validate(m) == Validate(m')
  {
  }

  /** A text field is filled exactly when it is non-null and holds some
      character above U+0020: a string of spaces, tabs or control characters
      counts as empty. */
  lemma FilledIff(s: Option<string>)
    ensures Filled(s) <==> s.Some? && !AllTrimmable(s.value)
  {
    if s.Some? {
      BlankIffAllTrimmable(s.value);
    }
  }

  /** The composed write `addMovie`: validate, then add. On failure the store
      is returned as it was and the error is the first rule broken. */
  function AddMovie(st: Repository.Store, m: Movie): (res: (Repository.Store, Result<Movie, ValidationError>))
    ensures !IsValidMovie(m) ==> res.0 == st && res.1 == Failure(Violations(m)[0])
    ensures IsValidMovie(m) ==>
              var (st', added) := Repository.Add(st, m);
              res.0 == st' && res.1 == Success(added)
  {
    ValidateReportsFirstViolation(m);
    match Validate(m)
    case Fail(e) => (st, Failure(e))
    case Pass =>
      var (st', added) := Repository.Add(st, m);
      (st', Success(added))
  }

  /** `getMovieById`: the repository lookup, with no validation. */
  function GetMovieById(st: Repository.Store, id: int): (r: Option<Movie>)
    ensures r == Repository.FindById(st, id)
  {
    Repository.FindById(st, id)
  }

  /** `getAllMovies`: the repository listing, with no validation. */
  function GetAllMovies(st: Repository.Store): (r: seq<Movie>)
    ensures r == Repository.FindAll(st)
  {
    Repository.FindAll(st)
  }

  /** The composed write `updateMovie`: validate first, then update. A
      validation failure is reported even for an id that is not stored, and
      the store is then returned as it was. */
  function UpdateMovie(st: Repository.Store, id: int, m: Movie)
    : (res: (Repository.Store, Result<Option<Movie>, ValidationError>))
    ensures !IsValidMovie(m) ==> res.0 == st && res.1 == Failure(Violations(m)[0])
    ensures IsValidMovie(m) ==>
              var (st', updated) := Repository.Update(st, id, m);
              res.0 == st' && res.1 == Success(updated)
  {
    ValidateReportsFirstViolation(m);
    match Validate(m)
    case Fail(e) => (st, Failure(e))
    case Pass =>
      var (st', updated) := Repository.Update(st, id, m);
      (st', Success(updated))
  }

  /** `deleteMovie`: the repository delete, with no validation. */
  function DeleteMovie(st: Repository.Store, id: int): (res: (Repository.Store, bool))
    ensures res == Repository.Delete(st, id)
  {
    Repository.Delete(st, id)
  }

  /** The service-level invariant: the store's own invariant, and every stored
      record passes validation. */
  predicate Guarded(st: Repository.Store) {
    Repository.Valid(st) && forall i :: 0 <= i < |st.movies| ==> IsValidMovie(st.movies[i])
  }

  /** A text that begins with a prefix whose first character is above U+0020
      is filled. Going through a short prefix lets the verifier read the first
      character of a long literal, which is why the sample descriptions are
      written as their first word followed by the rest. */
  lemma FilledByPrefix(p: string, s: string)
    requires p <= s && p != [] && !Trimmable(p[0])
    ensures Filled(Some(s))
  {
    assert s[0] == p[0];
    FilledIff(Some(s));
  }

  lemma ShawshankValid()
    ensures IsValidMovie(Repository.Shawshank)
  {
    FilledByPrefix("The ", Repository.Shawshank.title.value);
    FilledByPrefix("Two ", Repository.Shawshank.description.value);
    FilledByPrefix("Drama", Repository.Shawshank.genre.value);
  }

  lemma DarkKnightValid()
    ensures IsValidMovie(Repository.DarkKnight)
  {
    FilledByPrefix("The ", Repository.DarkKnight.title.value);
    FilledByPrefix("When ", Repository.DarkKnight.description.value);
    FilledByPrefix("Action", Repository.DarkKnight.genre.value);
  }

  lemma InceptionValid()
    ensures IsValidMovie(Repository.Inception)
  {
    FilledByPrefix("Inception", Repository.Inception.title.value);
    FilledByPrefix("A ", Repository.Inception.description.value);
    FilledByPrefix("Sci-Fi", Repository.Inception.genre.value);
  }

  /** Validity is a property of the five content fields alone. */
  lemma ValidityByContent(m: Movie, m': Movie)
    requires SameContent(m, m') && IsValidMovie(m')
    ensures IsValidMovie(m)
  {
  }

  /** The three sample records pass validation. */
  lemma InitGuarded()
    ensures Guarded(Repository.Init())
  {
    var st := Repository.Init();
    forall i | 0 <= i < |st.movies|
      ensures IsValidMovie(st.movies[i])
    {
      if i == 0 {
        ShawshankValid();
        ValidityByContent(st.movies[0], Repository.Shawshank);
      } else if i == 1 {
        DarkKnightValid();
        ValidityByContent(st.movies[1], Repository.DarkKnight);
      } else {
        InceptionValid();
        ValidityByContent(st.movies[2], Repository.Inception);
      }
    }
  }

  /** Writes through the service keep every stored record valid. */
  lemma AddMovieKeepsGuarded(st: Repository.Store, m: Movie)
    requires Guarded(st)
    ensures Guarded(AddMovie(st, m).0)
  {
    if IsValidMovie(m) {
      Repository.AddPreservesValid(st, m);
      ValidateIgnoresId(m, Repository.Add(st, m).1);
    }
  }

  lemma UpdateMovieKeepsGuarded(st: Repository.Store, id: int, m: Movie)
    requires Guarded(st)
    ensures Guarded(UpdateMovie(st, id, m).0)
  {
    if IsValidMovie(m) {
      Repository.UpdatePreservesValid(st, id, m);
      var st' := Repository.Update(st, id, m).0;
      match Repository.FirstIndex(st.movies, id)
      case None =>
      case Some(k) =>
        assert Repository.IsFirstMatch(st.movies, id, k);
        ValidateIgnoresId(m, st'.movies[k]);
    }
  }

  lemma DeleteMovieKeepsGuarded(st: Repository.Store, id: int)
    requires Guarded(st)
    ensures Guarded(DeleteMovie(st, id).0)
  {
    Repository.DeletePreservesValid(st, id);
    var st' := DeleteMovie(st, id).0;
    forall i | 0 <= i < |st'.movies|
      ensures IsValidMovie(st'.movies[i])
    {
      assert st'.movies[i] in st.movies;
    }
  }
}
