# Movie API core in Dafny

A model of the two layers behind the movie CRUD service:

- the **repository** (`MovieRepository`): an insertion-ordered list of movie
  records plus an id counter, seeded with three sample movies. `addMovie`
  stamps the next counter value as the id and appends; `findById` returns the
  first record with a given id; `findAll` returns a copy of the list;
  `updateMovie` overwrites the five non-id fields of the first record with the
  id, in place; `deleteMovie` removes every record with the id;
- the **service** (`MovieService`): a validator that checks title,
  description, genre, release year and rating in that order and reports the
  first broken rule, composed with the repository for the two writes; reads
  and deletes pass straight through;
- the **record** (`Movie`): six fields, a constructor, one setter per field,
  and `equals`/`hashCode` that look at the id alone.

Everything is a value. A `Store(movies, counter)` is passed in and the new
store is returned beside what the Java method returns. A Java exception is a
`Failure`, an `Optional` or nullable reference is an `Option`, `double` is
`real`, and `String` is `seq<char>`. `String.trim()` is modelled as the JDK
implements it: it strips every leading and trailing character at or below
U+0020, which is wider than white space.

| file | module | models |
|---|---|---|
| `wrappers.dfy` | `Wrappers` | `Option`, `Result`, `Outcome` |
| `java_string.dfy` | `JavaString` | `String.trim()` / `isEmpty()` as the validator uses them |
| `movie.dfy` | `Movies` | `model/Movie.java` |
| `repository.dfy` | `Repository` | `repository/MovieRepository.java`, its invariant, and runs of operations |
| `service.dfy` | `Service` | `service/MovieService.java` and the "every stored record is valid" invariant |
| `scenarios.dfy` | `Scenarios` | a create/read/update/delete walkthrough and single-field rejections |

`JavaString.IsBlank` (`trim().isEmpty()`, service/MovieService.java:75) is a
helper predicate; what it means is stated by `JavaString.BlankIffAllTrimmable`.

Main facts proved:

- `Repository.Valid` holds after construction. Ids are distinct, at least 1
  and below the counter. Add, update and delete keep it, and so does any run
  of them (`RunPreservesValid`).
- The ids a run hands out strictly increase and start at the counter. So an
  id ever stored is never handed out again, even after it is deleted
  (`IdNeverReused`).
- With unique ids, delete removes exactly one position and keeps the rest in
  order (`DeleteRemovesOne`). A second delete returns false and changes nothing.
- The validator's single error is the first entry of the list of all broken
  rules (`ValidateReportsFirstViolation`). It never reads the id. Writes
  through the service keep every stored record valid.

## Model

| member | source | states |
|---|---|---|
| Movies.Blank | src/main/java/com/example/movieapi/model/Movie.java:17-18 | the no-argument constructor leaves references null and numbers zero |
| Movies.Create | src/main/java/com/example/movieapi/model/Movie.java:20-27 | the six-argument constructor stores each argument unchanged in its own field |
| Movies.SetId | src/main/java/com/example/movieapi/model/Movie.java:34-36 | sets the id; the five content fields are unchanged |
| Movies.SetTitle | src/main/java/com/example/movieapi/model/Movie.java:42-44 | sets the title; every other field is unchanged |
| Movies.SetDescription | src/main/java/com/example/movieapi/model/Movie.java:50-52 | sets the description; every other field is unchanged |
| Movies.SetGenre | src/main/java/com/example/movieapi/model/Movie.java:58-60 | sets the genre; every other field is unchanged |
| Movies.SetReleaseYear | src/main/java/com/example/movieapi/model/Movie.java:66-68 | sets the release year; every other field is unchanged |
| Movies.SetRating | src/main/java/com/example/movieapi/model/Movie.java:74-76 | sets the rating; every other field is unchanged |
| Movies.Equals | src/main/java/com/example/movieapi/model/Movie.java:79-84 | false against null; otherwise true iff the ids are equal, both null included, whatever the other fields hold |
| Movies.EqualsIsEquivalence | src/main/java/com/example/movieapi/model/Movie.java:79-84 | `equals` is reflexive, symmetric and transitive |
| Movies.ToInt32 | src/main/java/com/example/movieapi/model/Movie.java:88 | the narrowing to Java `int`: a 32-bit value congruent to its argument modulo 2^32, and the argument itself when already in range |
| Movies.LongHashCode | src/main/java/com/example/movieapi/model/Movie.java:87-89 | `Long.hashCode` is a 32-bit value and equals the id itself for ids in 0..2^31-1 |
| Movies.XorZero | src/main/java/com/example/movieapi/model/Movie.java:87-89 | folding a zero high half into the low half of a long leaves it unchanged |
| Movies.HashCode | src/main/java/com/example/movieapi/model/Movie.java:87-89 | `Objects.hash(id)` is a 32-bit value; 31 for a null id; 31 + id for small non-negative ids |
| Movies.HashCodeConsistentWithEquals | src/main/java/com/example/movieapi/model/Movie.java:79-89 | movies that are `equals` have equal hash codes |
| JavaString.TrimStart | src/main/java/com/example/movieapi/service/MovieService.java:75 | drops exactly the leading characters at or below U+0020; the rest is a suffix that starts above U+0020 or is empty |
| JavaString.TrimEnd | src/main/java/com/example/movieapi/service/MovieService.java:75 | drops exactly the trailing characters at or below U+0020; the rest is a prefix that ends above U+0020 or is empty |
| JavaString.Trim | src/main/java/com/example/movieapi/service/MovieService.java:75 | `trim()` yields an infix of the input with only characters at or below U+0020 removed around it, and with neither end at or below U+0020 |
| JavaString.BlankIffAllTrimmable | src/main/java/com/example/movieapi/service/MovieService.java:75-85 | `trim().isEmpty()` holds iff every character is at or below U+0020; the empty string included |
| Repository.Add | src/main/java/com/example/movieapi/repository/MovieRepository.java:38-42 | the stored record takes the counter value as id whatever id it had, keeps its content, and is appended after the unchanged earlier records; the counter grows by one |
| Repository.Init | src/main/java/com/example/movieapi/repository/MovieRepository.java:17-31 | after construction the store is valid and holds exactly the three samples with ids 1, 2, 3 in order, and the counter is 4 |
| Repository.IndexFrom | src/main/java/com/example/movieapi/repository/MovieRepository.java:50-52 | the scan from a position finds the first matching position at or after it, or reports that none from there on match |
| Repository.FirstIndex | src/main/java/com/example/movieapi/repository/MovieRepository.java:49-53 | the first position with the id, or none iff no record has the id |
| Repository.FindById | src/main/java/com/example/movieapi/repository/MovieRepository.java:49-53 | none iff no record has the id; otherwise the record at the first matching position |
| Repository.FindAll | src/main/java/com/example/movieapi/repository/MovieRepository.java:59-61 | every record, in insertion order, as a value the caller cannot use to change the store |
| Repository.Overwrite | src/main/java/com/example/movieapi/repository/MovieRepository.java:70-77 | the five setters keep the stored id and take every content field from the argument |
| Repository.Update | src/main/java/com/example/movieapi/repository/MovieRepository.java:69-78 | none iff the id is absent, and then the store is unchanged; otherwise the first match keeps its id and position and takes the argument's content, no other record changes, and the counter and size stay the same |
| Repository.RemoveId | src/main/java/com/example/movieapi/repository/MovieRepository.java:86 | the kept records are exactly those without the id; the length drops iff some record had it |
| Repository.Delete | src/main/java/com/example/movieapi/repository/MovieRepository.java:85-87 | true iff some record had the id; afterwards exactly the records without the id remain; the counter is unchanged; on false the store is unchanged |
| Repository.RemoveIdAbsent | src/main/java/com/example/movieapi/repository/MovieRepository.java:86 | filtering out an absent id returns the list unchanged |
| Repository.RemoveIdAppend | src/main/java/com/example/movieapi/repository/MovieRepository.java:86 | the filter distributes over concatenation, so the kept records stay in their original order |
| Repository.AddPreservesValid | src/main/java/com/example/movieapi/repository/MovieRepository.java:18-42 | adding keeps ids distinct and below the counter; the new id exceeds every stored id |
| Repository.FindStoredRecord | src/main/java/com/example/movieapi/repository/MovieRepository.java:49-53 | in a valid store each record is what a lookup of its own id returns |
| Repository.FindAfterAdd | src/main/java/com/example/movieapi/repository/MovieRepository.java:38-53 | looking up the id that add returned yields the added record |
| Repository.ListAfterAdd | src/main/java/com/example/movieapi/repository/MovieRepository.java:38-61 | the listing after add is the old listing with the new record at the end |
| Repository.UpdatePreservesValid | src/main/java/com/example/movieapi/repository/MovieRepository.java:69-78 | update keeps ids distinct and below the counter |
| Repository.FindAfterUpdate | src/main/java/com/example/movieapi/repository/MovieRepository.java:49-78 | after updating a stored id, a lookup yields a record with that id and the new content |
| Repository.DeletePreservesValid | src/main/java/com/example/movieapi/repository/MovieRepository.java:85-87 | delete keeps ids distinct and below the counter |
| Repository.SubsequenceUnique | src/main/java/com/example/movieapi/repository/MovieRepository.java:86 | filtering a list with distinct ids leaves ids distinct |
| Repository.DeleteRemovesOne | src/main/java/com/example/movieapi/repository/MovieRepository.java:85-87 | in a valid store, deleting a present id removes exactly its position; the rest keep their order; the size drops by one |
| Repository.DeleteTwice | src/main/java/com/example/movieapi/repository/MovieRepository.java:85-87 | deleting the same id a second time returns false and leaves the store unchanged |
| Repository.RunPreservesValid | src/main/java/com/example/movieapi/repository/MovieRepository.java:17-87 | any sequence of add, update and delete keeps the invariant and never lowers the counter |
| Repository.IssuedIncreasing | src/main/java/com/example/movieapi/repository/MovieRepository.java:18-42 | ids handed out in a run strictly increase from the starting counter |
| Repository.IdNeverReused | src/main/java/com/example/movieapi/repository/MovieRepository.java:18-87 | an id present in a valid store is never handed out again by later adds, deletion of it included |
| Service.Message | src/main/java/com/example/movieapi/service/MovieService.java:75-93 | each rule's exception message, character for character |
| Service.MessagesDistinct | src/main/java/com/example/movieapi/service/MovieService.java:75-93 | each rule reports its own message |
| Service.Violations | src/main/java/com/example/movieapi/service/MovieService.java:74-94 | lists exactly the broken rules; empty iff the record is valid |
| Service.Validate | src/main/java/com/example/movieapi/service/MovieService.java:74-94 | passes iff title, description and genre are non-null and non-blank, 1800 <= year <= 2030 and 0.0 <= rating <= 10.0; each error holds iff its rule is the first broken one in the order title, description, genre, year, rating |
| Service.ValidateReportsFirstViolation | src/main/java/com/example/movieapi/service/MovieService.java:74-94 | validation passes iff no rule is broken, and otherwise reports the first of all broken rules |
| Service.ValidateIgnoresId | src/main/java/com/example/movieapi/service/MovieService.java:74-94 | records that differ only in id get the same verdict |
| Service.FilledIff | src/main/java/com/example/movieapi/service/MovieService.java:75-85 | a text field passes iff it is non-null and has a character above U+0020 |
| Service.AddMovie | src/main/java/com/example/movieapi/service/MovieService.java:26-29 | an invalid record fails with the first broken rule and the store unchanged; a valid one gets exactly the repository add |
| Service.GetMovieById | src/main/java/com/example/movieapi/service/MovieService.java:36-38 | returns the repository lookup with no validation |
| Service.GetAllMovies | src/main/java/com/example/movieapi/service/MovieService.java:44-46 | returns the repository listing with no validation |
| Service.UpdateMovie | src/main/java/com/example/movieapi/service/MovieService.java:55-58 | validation comes first: an invalid record fails with the store unchanged even for an absent id; a valid one gets exactly the repository update |
| Service.DeleteMovie | src/main/java/com/example/movieapi/service/MovieService.java:65-67 | returns the repository delete with no validation |
| Service.InitGuarded | src/main/java/com/example/movieapi/repository/MovieRepository.java:20-31 | the three samples pass validation and the seeded store is valid |
| Service.AddMovieKeepsGuarded | src/main/java/com/example/movieapi/service/MovieService.java:26-29 | adding through the service keeps the store valid with only valid records |
| Service.UpdateMovieKeepsGuarded | src/main/java/com/example/movieapi/service/MovieService.java:55-58 | updating through the service keeps the store valid with only valid records |
| Service.DeleteMovieKeepsGuarded | src/main/java/com/example/movieapi/service/MovieService.java:65-67 | deleting keeps the store valid with only valid records |
| Scenarios.DuneLifecycle | src/main/java/com/example/movieapi/service/MovieService.java:26-67 | from the seeded store, a new valid movie gets id 4. A lookup returns it. A rating update keeps id 4. Delete returns true, and a later lookup finds nothing |
| Scenarios.Rejected | src/main/java/com/example/movieapi/service/MovieService.java:26-58 | a record validation rejects makes both service writes fail with that rule and leaves the store unchanged |
| Scenarios.TextRejections | src/main/java/com/example/movieapi/service/MovieService.java:75-85 | null, empty or blank text in the title, description or genre alone is rejected by that field's own rule |
| Scenarios.RangeRejections | src/main/java/com/example/movieapi/service/MovieService.java:87-93 | years 1799 and 2031 and ratings -0.1 and 10.1 are rejected by their own rule; 1800, 2030, 0.0 and 10.0 pass |
| Scenarios.SingleFieldRejections | src/main/java/com/example/movieapi/service/MovieService.java:26-94 | each of the thirteen single-field bad records, through add or update, fails with its own rule and leaves the store unchanged, whether or not the id is stored |

## Left out

- `MovieController` (HTTP routing, status codes, the `ErrorResponse` wrapper) and `MovieApiApplication` (bootstrap and console output) are not part of this model.
- Concurrency: the `AtomicLong` counter is a plain `nat`, and the thread-safety of the list is not modelled.
- Overflow of the `long` counter is not modelled; ids are unbounded integers.
- Floating point: `rating` is a `real` and is only compared. IEEE quirks are not captured. For example, in Java a NaN rating passes both range checks because both comparisons are false.
- Object aliasing: Java `addMovie` sets the id on the caller's object and stores that same reference. `findAll` copies only the list, and `findById`/`updateMovie` return the stored object itself. The model uses values, so changing a returned record through a shared reference is not modelled.
- Lookup, update and delete take a non-null `int` id, because the HTTP layer always supplies one. The case of a `null` argument is not modelled; in Java it matches nothing. The `NullPointerException` a stored record with a null id would raise cannot occur, because `Repository.Valid` rules such records out.
- Movies.Equals: its argument is a `Movie` or null. The `getClass()` test against objects of other classes is not modelled.
- `toString` is cosmetic and not modelled.
- `releaseYear` is an unbounded `int`. Java's 32-bit `int` only matters for values that the year range check rejects anyway.

## Notes on the source

- The store never changes a stored id. `Movie.setId` is public, though, so the immutability of ids holds only because the repository calls it once, in `addMovie`.
- `deleteMovie` removes every record with the id, not just one. Under the uniqueness invariant the two are the same (`DeleteRemovesOne`).
