/** Concrete runs through the service, starting from the seeded store: the
    lifecycle of one new record, and the rejection of each single bad field. */
module Scenarios {
  import opened Wrappers
  import opened JavaString
  import opened Movies
  import opened Service
  import Repository

  const Dune := Create(None, Some("Dune"), Some("A duke's son..."), Some("Sci-Fi"), 2021, 8.0)

  lemma DuneValid()
    ensures IsValidMovie(Dune)
  {
    FilledByPrefix("Du", Dune.title.value);
    FilledByPrefix("A ", Dune.description.value);
    FilledByPrefix("Sci", Dune.genre.value);
  }

  /** Create, read, update the rating, delete, read again: the new record gets
      id 4 after the three samples, keeps it across the update, and is gone
      after the delete. */
  lemma DuneLifecycle()
    ensures var (st1, added) := AddMovie(Repository.Init(), Dune);
            && added == Success(SetId(Dune, Some(4)))
            && GetMovieById(st1, 4) == Some(SetId(Dune, Some(4)))
            && var (st2, updated) := UpdateMovie(st1, 4, SetRating(Dune, 9.5));
               && updated == Success(Some(SetId(SetRating(Dune, 9.5), Some(4))))
               && var (st3, deleted) := DeleteMovie(st2, 4);
                  deleted && GetMovieById(st3, 4) == None
  {
    var st0 := Repository.Init();
    DuneValid();
    var (st1, added) := AddMovie(st0, Dune);
    Repository.FindAfterAdd(st0, Dune);
    Repository.AddPreservesValid(st0, Dune);
    var upd := SetRating(Dune, 9.5);
    assert IsValidMovie(upd);
    assert Repository.HasId(st1.movies[3], 4);
    Repository.FindAfterUpdate(st1, 4, upd);
    var (st2, updated) := UpdateMovie(st1, 4, upd);
    assert Repository.IsFirstMatch(st1.movies, 4, 3);
    assert updated == Success(Some(st2.movies[3]));
    assert Repository.HasId(st2.movies[3], 4);
    var (st3, deleted) := DeleteMovie(st2, 4);
    assert !Repository.Contains(st3.movies, 4) by {
      forall i | 0 <= i < |st3.movies|
        ensures !Repository.HasId(st3.movies[i], 4)
      {
        assert st3.movies[i] in st3.movies;
      }
    }
  }

  /** A rejected record leaves the store as it was, through either write,
      and the error the write reports is the rule validation names. */
  lemma Rejected(st: Repository.Store, id: int, m: Movie, e: ValidationError)
    requires Validate(m) == Fail(e)
    ensures AddMovie(st, m) == (st, Failure(e))
    ensures UpdateMovie(st, id, m) == (st, Failure(e))
  {
    ValidateReportsFirstViolation(m);
  }

  /** Null, empty or blank text in any one text field is rejected by that
      field's own rule. */
  lemma TextRejections()
    ensures Validate(SetTitle(Dune, None)) == Fail(TitleRequired)
    ensures Validate(SetTitle(Dune, Some(""))) == Fail(TitleRequired)
    ensures Validate(SetTitle(Dune, Some(" \t"))) == Fail(TitleRequired)
    ensures Validate(SetDescription(Dune, None)) == Fail(DescriptionRequired)
    ensures Validate(SetDescription(Dune, Some(""))) == Fail(DescriptionRequired)
    ensures Validate(SetDescription(Dune, Some(" \t"))) == Fail(DescriptionRequired)
    ensures Validate(SetGenre(Dune, None)) == Fail(GenreRequired)
    ensures Validate(SetGenre(Dune, Some(""))) == Fail(GenreRequired)
    ensures Validate(SetGenre(Dune, Some(" \t"))) == Fail(GenreRequired)
  {
    DuneValid();
    FilledIff(Some(" \t"));
    assert AllTrimmable(" \t");
  }

  /** Years 1799 and 2031 and ratings -0.1 and 10.1 are rejected by their own
      rule; both ends of each range pass. */
  lemma RangeRejections()
    ensures Validate(SetReleaseYear(Dune, 1799)) == Fail(ReleaseYearOutOfRange)
    ensures Validate(SetReleaseYear(Dune, 2031)) == Fail(ReleaseYearOutOfRange)
    ensures Validate(SetRating(Dune, -0.1)) == Fail(RatingOutOfRange)
    ensures Validate(SetRating(Dune, 10.1)) == Fail(RatingOutOfRange)
    ensures Validate(SetReleaseYear(Dune, 1800)) == Pass
    ensures Validate(SetReleaseYear(Dune, 2030)) == Pass
    ensures Validate(SetRating(Dune, 0.0)) == Pass
    ensures Validate(SetRating(Dune, 10.0)) == Pass
  {
    DuneValid();
  }

  /** Each single bad field, sent through either write, fails with its own
      rule and leaves the store unchanged, whether or not `id` is stored. */
  lemma SingleFieldRejections(st: Repository.Store, id: int)
    ensures AddMovie(st, SetTitle(Dune, None)) == (st, Failure(TitleRequired))
    ensures AddMovie(st, SetTitle(Dune, Some(""))) == (st, Failure(TitleRequired))
    ensures AddMovie(st, SetTitle(Dune, Some(" \t"))) == (st, Failure(TitleRequired))
    ensures AddMovie(st, SetDescription(Dune, None)) == (st, Failure(DescriptionRequired))
    ensures AddMovie(st, SetDescription(Dune, Some(""))) == (st, Failure(DescriptionRequired))
    ensures AddMovie(st, SetDescription(Dune, Some(" \t"))) == (st, Failure(DescriptionRequired))
    ensures AddMovie(st, SetGenre(Dune, None)) == (st, Failure(GenreRequired))
    ensures AddMovie(st, SetGenre(Dune, Some(""))) == (st, Failure(GenreRequired))
    ensures AddMovie(st, SetGenre(Dune, Some(" \t"))) == (st, Failure(GenreRequired))
    ensures AddMovie(st, SetReleaseYear(Dune, 1799)) == (st, Failure(ReleaseYearOutOfRange))
    ensures AddMovie(st, SetReleaseYear(Dune, 2031)) == (st, Failure(ReleaseYearOutOfRange))
    ensures AddMovie(st, SetRating(Dune, -0.1)) == (st, Failure(RatingOutOfRange))
    ensures AddMovie(st, SetRating(Dune, 10.1)) == (st, Failure(RatingOutOfRange))
    ensures UpdateMovie(st, id, SetTitle(Dune, None)) == (st, Failure(TitleRequired))
    ensures UpdateMovie(st, id, SetTitle(Dune, Some(""))) == (st, Failure(TitleRequired))
    ensures UpdateMovie(st, id, SetTitle(Dune, Some(" \t"))) == (st, Failure(TitleRequired))
    ensures UpdateMovie(st, id, SetDescription(Dune, None)) == (st, Failure(DescriptionRequired))
    ensures UpdateMovie(st, id, SetDescription(Dune, Some(""))) == (st, Failure(DescriptionRequired))
    ensures UpdateMovie(st, id, SetDescription(Dune, Some(" \t"))) == (st, Failure(DescriptionRequired))
    ensures UpdateMovie(st, id, SetGenre(Dune, None)) == (st, Failure(GenreRequired))
    ensures UpdateMovie(st, id, SetGenre(Dune, Some(""))) == (st, Failure(GenreRequired))
    ensures UpdateMovie(st, id, SetGenre(Dune, Some(" \t"))) == (st, Failure(GenreRequired))
    ensures UpdateMovie(st, id, SetReleaseYear(Dune, 1799)) == (st, Failure(ReleaseYearOutOfRange))
    ensures UpdateMovie(st, id, SetReleaseYear(Dune, 2031)) == (st, Failure(ReleaseYearOutOfRange))
    ensures UpdateMovie(st, id, SetRating(Dune, -0.1)) == (st, Failure(RatingOutOfRange))
    ensures UpdateMovie(st, id, SetRating(Dune, 10.1)) == (st, Failure(RatingOutOfRange))
  {
    TextRejections();
    RangeRejections();
    Rejected(st, id, SetTitle(Dune, None), TitleRequired);
    Rejected(st, id, SetTitle(Dune, Some("")), TitleRequired);
    Rejected(st, id, SetTitle(Dune, Some(" \t")), TitleRequired);
    Rejected(st, id, SetDescription(Dune, None), DescriptionRequired);
    Rejected(st, id, SetDescription(Dune, Some("")), DescriptionRequired);
    Rejected(st, id, SetDescription(Dune, Some(" \t")), DescriptionRequired);
    Rejected(st, id, SetGenre(Dune, None), GenreRequired);
    Rejected(st, id, SetGenre(Dune, Some("")), GenreRequired);
    Rejected(st, id, SetGenre(Dune, Some(" \t")), GenreRequired);
    Rejected(st, id, SetReleaseYear(Dune, 1799), ReleaseYearOutOfRange);
    Rejected(st, id, SetReleaseYear(Dune, 2031), ReleaseYearOutOfRange);
    Rejected(st, id, SetRating(Dune, -0.1), RatingOutOfRange);
    Rejected(st, id, SetRating(Dune, 10.1), RatingOutOfRange);
  }
}
