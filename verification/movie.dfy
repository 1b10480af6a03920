/** The movie record. Java's `Movie` is a mutable bean; here it is an immutable
    value and each setter returns the updated copy. A nullable `Long`/`String`
    field is an `Option`; `double` is `real` (compared only, never computed
    with). */
module Movies {
  import opened Wrappers

  datatype Movie = Movie(
    id: Option<int>,
    title: Option<string>,
    description: Option<string>,
    genre: Option<string>,
    releaseYear: int,
    rating: real)

  /** The no-argument constructor: references null, numbers zero. */
  function Blank(): (m: Movie)
    ensures m.id.None? && m.title.None? && m.description.None? && m.genre.None?
    ensures m.releaseYear == 0 && m.rating == 0.0
  {
    Movie(None, None, None, None, 0, 0.0)
  }

  /** The six-argument constructor stores every argument in its own field. */
  function Create(id: Option<int>, title: Option<string>, description: Option<string>,
                  genre: Option<string>, releaseYear: int, rating: real): (m: Movie)
    ensures m.id == id && m.title == title && m.description == description
    ensures m.genre == genre && m.releaseYear == releaseYear && m.rating == rating
  {
    Movie(id, title, description, genre, releaseYear, rating)
  }

  /** `m` and `m'` agree on every field except possibly the id. */
  predicate SameContent(m: Movie, m': Movie) {
    && m.title == m'.title
    && m.description == m'.description
    && m.genre == m'.genre
    && m.releaseYear == m'.releaseYear
    && m.rating == m'.rating
  }

  function SetId(m: Movie, id: Option<int>): (r: Movie)
    ensures r.id == id && SameContent(r, m)
  {
    m.(id := id)
  }

  function SetTitle(m: Movie, title: Option<string>): (r: Movie)
    ensures r.title == title
    ensures r.id == m.id && r.description == m.description && r.genre == m.genre
    ensures r.releaseYear == m.releaseYear && r.rating == m.rating
  {
    m.(title := title)
  }

  function SetDescription(m: Movie, description: Option<string>): (r: Movie)
    ensures r.description == description
    ensures r.id == m.id && r.title == m.title && r.genre == m.genre
    ensures r.releaseYear == m.releaseYear && r.rating == m.rating
  {
    m.(description := description)
  }

  function SetGenre(m: Movie, genre: Option<string>): (r: Movie)
    ensures r.genre == genre
    ensures r.id == m.id && r.title == m.title && r.description == m.description
    ensures r.releaseYear == m.releaseYear && r.rating == m.rating
  {
    m.(genre := genre)
  }

  function SetReleaseYear(m: Movie, releaseYear: int): (r: Movie)
    ensures r.releaseYear == releaseYear
    ensures r.id == m.id && r.title == m.title && r.description == m.description
    ensures r.genre == m.genre && r.rating == m.rating
  {
    m.(releaseYear := releaseYear)
  }

  function SetRating(m: Movie, rating: real): (r: Movie)
    ensures r.rating == rating
    ensures r.id == m.id && r.title == m.title && r.description == m.description
    ensures r.genre == m.genre && r.releaseYear == m.releaseYear
  {
    m.(rating := rating)
  }

  /** `equals(Object o)`: the argument may be null (`None`); otherwise two
      movies are equal exactly when their ids are, both null included. The
      five content fields play no part. */
  function Equals(m: Movie, o: Option<Movie>): (r: bool)
    ensures o.None? ==> !r
    ensures o.Some? ==> (r <==> m.id == o.value.id)
  {
    match o
    case None => false
    case Some(other) => m == other || other.id == m.id
  }

  /** `equals` is an equivalence relation on non-null movies. */
  lemma EqualsIsEquivalence(a: Movie, b: Movie, c: Movie)
    ensures Equals(a, Some(a))
    ensures Equals(a, Some(b)) ==> Equals(b, Some(a))
    ensures Equals(a, Some(b)) && Equals(b, Some(c)) ==> Equals(a, Some(c))
  {
  }

  /** Java `int` arithmetic: the two's-complement value of `x` modulo 2^32. */
  function ToInt32(x: int): (r: int)
    ensures -0x8000_0000 <= r < 0x8000_0000
    ensures (r - x) % 0x1_0000_0000 == 0
    ensures -0x8000_0000 <= x < 0x8000_0000 ==> r == x
  {
    var u := x % 0x1_0000_0000;
    if u < 0x8000_0000 then u else u - 0x1_0000_0000
  }

  /** Bitwise exclusive or of two non-negative integers, one bit at a time. */
  function Xor(a: nat, b: nat): nat
    decreases a + b
  {
    if a == 0 && b == 0 then 0
    else 2 * Xor(a / 2, b / 2) + (if a % 2 == b % 2 then 0 else 1)
  }

  /** Exclusive or with zero changes nothing. */
  lemma {:induction false} XorZero(a: nat)
    ensures Xor(a, 0) == a
  {
    if a != 0 {
      XorZero(a / 2);
    }
  }

  /** `Long.hashCode(v)`, that is `(int)(v ^ (v >>> 32))`: the exclusive or of
      the two 32-bit halves of the 64-bit pattern of `v`, read as an `int`. */
  function LongHashCode(v: int): (h: int)
    ensures -0x8000_0000 <= h < 0x8000_0000
    ensures 0 <= v < 0x8000_0000 ==> h == v
  {
    var bits := v % 0x1_0000_0000_0000_0000;
    var high := bits / 0x1_0000_0000;
    var low := bits % 0x1_0000_0000;
    if 0 <= v < 0x8000_0000 then
      XorZero(low);
      ToInt32(Xor(low, high))
    else
      ToInt32(Xor(low, high))
  }

  /** `hashCode()`, that is `Objects.hash(id)`: `31 * 1 + h` in `int`
      arithmetic, where `h` is 0 for a null id and `Long.hashCode` otherwise. */
  function HashCode(m: Movie): (h: int)
    ensures -0x8000_0000 <= h < 0x8000_0000
    ensures m.id.None? ==> h == 31
    ensures m.id.Some? && 0 <= m.id.value < 0x8000_0000 - 31 ==> h == 31 + m.id.value
  {
    match m.id
    case None => ToInt32(31)
    case Some(v) => ToInt32(31 + LongHashCode(v))
  }

  /** Movies that are `equals` have equal hash codes: `hashCode` reads the id
      and nothing else. */
  lemma HashCodeConsistentWithEquals(a: Movie, b: Movie)
    requires Equals(a, Some(b))
    ensures HashCode(a) == HashCode(b)
  {
  }
}
