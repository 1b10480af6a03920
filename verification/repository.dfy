/** The in-memory movie store: an insertion-ordered list of records plus the
    counter that hands out ids. Every operation is a pure transition from one
    `Store` value to the next, paired with what the Java method returns.
    Records are values: mutating an element obtained from `FindAll` or
    `FindById` through a shared reference is not modelled. */
module Repository {
  import opened Wrappers
  import opened Movies

  /** `movies` is the `ArrayList`, `counter` the next value of `idCounter`. */
  datatype Store = Store(movies: seq<Movie>, counter: nat)

  /** The lookup test `movie.getId().equals(id)`. */
  predicate HasId(m: Movie, id: int) {
    m.id == Some(id)
  }

  /** Some record of `ms` has id `id`. */
  predicate Contains(ms: seq<Movie>, id: int) {
    exists i :: 0 <= i < |ms| && HasId(ms[i], id)
  }

  /** `i` is the position of the first record of `ms` with id `id`. */
  predicate IsFirstMatch(ms: seq<Movie>, id: int, i: int) {
    && 0 <= i < |ms|
    && HasId(ms[i], id)
    && forall j :: 0 <= j < i ==> !HasId(ms[j], id)
  }

  /** The store invariant: the counter has moved past every stored id (ids
      start at 1), and no two stored records share an id. */
  predicate Valid(st: Store) {
    && st.counter >= 1
    && (forall i :: 0 <= i < |st.movies| ==>
          st.movies[i].id.Some? && 1 <= st.movies[i].id.value < st.counter)
    && (forall i, j :: 0 <= i < j < |st.movies| ==> st.movies[i].id != st.movies[j].id)
  }

  /** A fresh repository before seeding: an empty list and `new AtomicLong(1)`. */
  const Empty := Store([], 1)

  /** `addMovie`: the record gets the current counter value as its id, whatever
      id it carried, and is appended; the counter moves on by one. */
  function Add(st: Store, m: Movie): (res: (Store, Movie))
    ensures res.1.id == Some(st.counter) && SameContent(res.1, m)
    ensures res.0.counter == st.counter + 1
    ensures |res.0.movies| == |st.movies| + 1
    ensures res.0.movies[..|st.movies|] == st.movies && res.0.movies[|st.movies|] == res.1
  {
    var stored := SetId(m, Some(st.counter));
    (Store(st.movies + [stored], st.counter + 1), stored)
  }

  /** The three sample records the constructor adds. Each description is
      split at its first word; the text is the same. */
  const Shawshank := Create(None, Some("The Shawshank Redemption"),
    Some("Two " + "imprisoned men bond over a number of years"), Some("Drama"), 1994, 9.3)
  const DarkKnight := Create(None, Some("The Dark Knight"),
    Some("When " + "the menace known as the Joker wreaks havoc"), Some("Action"), 2008, 9.0)
  const Inception := Create(None, Some("Inception"),
    Some("A " + "thief who steals corporate secrets through dream-sharing"), Some("Sci-Fi"), 2010, 8.8)

  /** The constructor: an empty store into which the three samples are added
      in order. */
  function Init(): (st: Store)
    ensures Valid(st)
    ensures |st.movies| == 3 && st.counter == 4
    ensures st.movies[0].id == Some(1) && SameContent(st.movies[0], Shawshank)
    ensures st.movies[1].id == Some(2) && SameContent(st.movies[1], DarkKnight)
    ensures st.movies[2].id == Some(3) && SameContent(st.movies[2], Inception)
  {
    var st1 := Add(Empty, Shawshank).0;
    var st2 := Add(st1, DarkKnight).0;
    Add(st2, Inception).0
  }

  /** The stream scan of `findById`, from position `k` on. */
  function IndexFrom(ms: seq<Movie>, id: int, k: nat): (r: Option<nat>)
    requires k <= |ms|
    ensures r.Some? ==> k <= r.value < |ms| && HasId(ms[r.value], id)
                        && forall j :: k <= j < r.value ==> !HasId(ms[j], id)
    ensures r.None? ==> forall j :: k <= j < |ms| ==> !HasId(ms[j], id)
    decreases |ms| - k
  {
    if k == |ms| then None
    else if HasId(ms[k], id) then Some(k)
    else IndexFrom(ms, id, k + 1)
  }

  /** Position of the first record with id `id`, if any. */
  function FirstIndex(ms: seq<Movie>, id: int): (r: Option<nat>)
    ensures r.Some? ==> IsFirstMatch(ms, id, r.value)
    ensures r.None? <==> !Contains(ms, id)
  {
    IndexFrom(ms, id, 0)
  }

  /** `findById`: the first record whose id is `id`, or none. */
  function FindById(st: Store, id: int): (r: Option<Movie>)
    ensures r.None? <==> !Contains(st.movies, id)
    ensures forall i :: IsFirstMatch(st.movies, id, i) ==> r == Some(st.movies[i])
  {
    match FirstIndex(st.movies, id)
    case None => None
    case Some(i) => Some(st.movies[i])
  }

  /** `findAll`: a copy of the list. As a value it is independent of the store,
      so what a caller does to it cannot reach the store. */
  function FindAll(st: Store): (r: seq<Movie>)
    ensures |r| == |st.movies|
    ensures forall i :: 0 <= i < |r| ==> r[i] == st.movies[i]
  {
    st.movies
  }

  /** The lambda of `updateMovie`: the five setters applied to the stored
      record with the values of `upd`. */
  function Overwrite(stored: Movie, upd: Movie): (r: Movie)
    ensures r.id == stored.id && SameContent(r, upd)
  {
    var m1 := SetTitle(stored, upd.title);
    var m2 := SetDescription(m1, upd.description);
    var m3 := SetGenre(m2, upd.genre);
    var m4 := SetReleaseYear(m3, upd.releaseYear);
    SetRating(m4, upd.rating)
  }

  /** `updateMovie`: on the first record with id `id`, replace every field but
      the id with those of `upd`, in place; no match leaves the store as it was. */
  function Update(st: Store, id: int, upd: Movie): (res: (Store, Option<Movie>))
    ensures res.1.None? <==> !Contains(st.movies, id)
    ensures res.1.None? ==> res.0 == st
    ensures res.0.counter == st.counter && |res.0.movies| == |st.movies|
    ensures forall i :: IsFirstMatch(st.movies, id, i) ==>
              && res.1 == Some(res.0.movies[i])
              && res.0.movies[i].id == Some(id)
              && SameContent(res.0.movies[i], upd)
    ensures forall i, j :: IsFirstMatch(st.movies, id, i) && 0 <= j < |st.movies| && j != i ==>
              res.0.movies[j] == st.movies[j]
  {
    match FirstIndex(st.movies, id)
    case None => (st, None)
    case Some(i) =>
      var m := Overwrite(st.movies[i], upd);
      (st.(movies := st.movies[i := m]), Some(m))
  }

  /** The filter of `removeIf`: every record except those with id `id`, in
      their original order. */
  function RemoveId(ms: seq<Movie>, id: int): (r: seq<Movie>)
    ensures |r| <= |ms|
    ensures forall m :: m in r <==> m in ms && !HasId(m, id)
    ensures |r| == |ms| <==> !Contains(ms, id)
  {
    if ms == [] then []
    else
      var rest := RemoveId(ms[1..], id);
      if HasId(ms[0], id) then rest
      else
        assert Contains(ms, id) ==> Contains(ms[1..], id) by {
          if Contains(ms, id) {
            var i :| 0 <= i < |ms| && HasId(ms[i], id);
            assert ms[1..][i - 1] == ms[i];
          }
        }
        [ms[0]] + rest
  }

  /** `deleteMovie`: drop every record with id `id` and report whether any was
      there. The counter is untouched, so the id is not handed out again. */
  function Delete(st: Store, id: int): (res: (Store, bool))
    ensures res.1 <==> Contains(st.movies, id)
    ensures !res.1 ==> res.0 == st
    ensures res.0.counter == st.counter
    ensures forall m :: m in res.0.movies <==> m in st.movies && !HasId(m, id)
  {
    var kept := RemoveId(st.movies, id);
    if |kept| < |st.movies| then (Store(kept, st.counter), true)
    else
      RemoveIdAbsent(st.movies, id);
      (st, false)
  }

  /** Filtering a list with no match returns it unchanged. */
  lemma {:induction false} RemoveIdAbsent(ms: seq<Movie>, id: int)
    requires !Contains(ms, id)
    ensures RemoveId(ms, id) == ms
  {
    if ms != [] {
      assert !HasId(ms[0], id);
      assert !Contains(ms[1..], id);
      RemoveIdAbsent(ms[1..], id);
    }
  }

  /** Filtering distributes over concatenation: `removeIf` keeps order. */
  lemma {:induction false} RemoveIdAppend(a: seq<Movie>, b: seq<Movie>, id: int)
    ensures RemoveId(a + b, id) == RemoveId(a, id) + RemoveId(b, id)
  {
    if a != [] {
      assert (a + b)[1..] == a[1..] + b;
      RemoveIdAppend(a[1..], b, id);
    } else {
      assert a + b == b;
    }
  }

  /** Adding keeps the invariant; the new id exceeds every id already stored. */
  lemma AddPreservesValid(st: Store, m: Movie)
    requires Valid(st)
    ensures Valid(Add(st, m).0)
    ensures forall i :: 0 <= i < |st.movies| ==> st.movies[i].id.value < Add(st, m).1.id.value
  {
    var st' := Add(st, m).0;
    forall i, j | 0 <= i < j < |st'.movies|
      ensures st'.movies[i].id != st'.movies[j].id
    {
      if j == |st.movies| {
        assert st'.movies[i] == st.movies[i];
      } else {
        assert st'.movies[i] == st.movies[i] && st'.movies[j] == st.movies[j];
      }
    }
  }

  /** In a valid store the record with a given id is found under it. */
  lemma FindStoredRecord(st: Store, i: int)
    requires Valid(st) && 0 <= i < |st.movies|
    ensures FindById(st, st.movies[i].id.value) == Some(st.movies[i])
  {
    var id := st.movies[i].id.value;
    var k := FirstIndex(st.movies, id).value;
    assert IsFirstMatch(st.movies, id, k);
  }

  /** Looking up the id that `Add` returned yields the added record. */
  lemma FindAfterAdd(st: Store, m: Movie)
    requires Valid(st)
    ensures FindById(Add(st, m).0, st.counter) == Some(Add(st, m).1)
  {
    AddPreservesValid(st, m);
    FindStoredRecord(Add(st, m).0, |st.movies|);
  }

  /** Adding appends: the listing after `Add` is the old listing plus the new
      record, at the end. */
  lemma ListAfterAdd(st: Store, m: Movie)
    ensures FindAll(Add(st, m).0) == FindAll(st) + [Add(st, m).1]
  {
  }

  /** Updating keeps the invariant: ids and the counter do not change. */
  lemma UpdatePreservesValid(st: Store, id: int, upd: Movie)
    requires Valid(st)
    ensures Valid(Update(st, id, upd).0)
  {
    var st' := Update(st, id, upd).0;
    assert forall i :: 0 <= i < |st.movies| ==> st'.movies[i].id == st.movies[i].id by {
      match FirstIndex(st.movies, id)
      case None =>
      case Some(k) =>
        forall i | 0 <= i < |st.movies|
          ensures st'.movies[i].id == st.movies[i].id
        {
          if i != k {
            assert IsFirstMatch(st.movies, id, k);
          }
        }
    }
  }

  /** After updating a stored id, looking it up yields the new content. */
  lemma FindAfterUpdate(st: Store, id: int, upd: Movie)
    requires Valid(st) && Contains(st.movies, id)
    ensures var r := FindById(Update(st, id, upd).0, id);
            r.Some? && r.value.id == Some(id) && SameContent(r.value, upd)
  {
    var k := FirstIndex(st.movies, id).value;
    UpdatePreservesValid(st, id, upd);
    var st' := Update(st, id, upd).0;
    FindStoredRecord(st', k);
  }

  /** Deleting keeps the invariant. */
  lemma DeletePreservesValid(st: Store, id: int)
    requires Valid(st)
    ensures Valid(Delete(st, id).0)
  {
    var st' := Delete(st, id).0;
    if Delete(st, id).1 {
      SubsequenceUnique(st.movies, id);
      forall i | 0 <= i < |st'.movies|
        ensures st'.movies[i].id.Some? && 1 <= st'.movies[i].id.value < st'.counter
      {
        assert st'.movies[i] in st.movies;
      }
    }
  }

  /** Filtering keeps ids distinct. */
  lemma {:induction false} SubsequenceUnique(ms: seq<Movie>, id: int)
    requires forall i, j :: 0 <= i < j < |ms| ==> ms[i].id != ms[j].id
    ensures forall i, j :: 0 <= i < j < |RemoveId(ms, id)| ==>
              RemoveId(ms, id)[i].id != RemoveId(ms, id)[j].id
  {
    if ms != [] {
      SubsequenceUnique(ms[1..], id);
      var rest := RemoveId(ms[1..], id);
      if !HasId(ms[0], id) {
        var r := [ms[0]] + rest;
        assert r == RemoveId(ms, id);
        forall i, j | 0 <= i < j < |r|
          ensures r[i].id != r[j].id
        {
          if i == 0 {
            assert r[j] in ms[1..];
          }
        }
      }
    }
  }

  /** In a valid store the only record with the id is at its first match, and
      deleting it removes exactly that position and keeps the rest in order. */
  lemma DeleteRemovesOne(st: Store, id: int, i: int)
    requires Valid(st) && IsFirstMatch(st.movies, id, i)
    ensures Delete(st, id).0.movies == st.movies[..i] + st.movies[i + 1..]
    ensures |Delete(st, id).0.movies| == |st.movies| - 1
  {
    var ms := st.movies;
    assert ms == ms[..i] + ([ms[i]] + ms[i + 1..]);
    assert !Contains(ms[..i], id);
    assert !Contains(ms[i + 1..], id);
    RemoveIdAppend(ms[..i], [ms[i]] + ms[i + 1..], id);
    RemoveIdAppend([ms[i]], ms[i + 1..], id);
    RemoveIdAbsent(ms[..i], id);
    RemoveIdAbsent(ms[i + 1..], id);
    assert RemoveId([ms[i]], id) == [];
  }

  /** Deleting twice: the second call finds nothing and changes nothing. */
  lemma DeleteTwice(st: Store, id: int)
    ensures var st' := Delete(st, id).0;
            Delete(st', id) == (st', false)
  {
    var st' := Delete(st, id).0;
    assert !Contains(st'.movies, id);
  }

  /** One store operation, as a caller of the repository issues it. */
  datatype Op = AddOp(m: Movie) | UpdateOp(id: int, upd: Movie) | DeleteOp(id: int)

  function Apply(st: Store, op: Op): Store {
    match op
    case AddOp(m) => Add(st, m).0
    case UpdateOp(id, upd) => Update(st, id, upd).0
    case DeleteOp(id) => Delete(st, id).0
  }

  /** The store after running `ops` in order from `st`. */
  function Run(st: Store, ops: seq<Op>): Store
    decreases |ops|
  {
    if ops == [] then st else Run(Apply(st, ops[0]), ops[1..])
  }

  /** The ids the adds among `ops` hand out, in order. */
  function Issued(st: Store, ops: seq<Op>): seq<int>
    decreases |ops|
  {
    if ops == [] then []
    else
      var head := if ops[0].AddOp? then [st.counter] else [];
      head + Issued(Apply(st, ops[0]), ops[1..])
  }

  /** Any run of operations keeps the invariant and never lowers the counter. */
  lemma {:induction false} RunPreservesValid(st: Store, ops: seq<Op>)
    requires Valid(st)
    ensures Valid(Run(st, ops))
    ensures Run(st, ops).counter >= st.counter
    decreases |ops|
  {
    if ops != [] {
      match ops[0] {
        case AddOp(m) => AddPreservesValid(st, m);
        case UpdateOp(id, upd) => UpdatePreservesValid(st, id, upd);
        case DeleteOp(id) => DeletePreservesValid(st, id);
      }
      RunPreservesValid(Apply(st, ops[0]), ops[1..]);
    }
  }

  /** Ids handed out during a run are strictly increasing and at least the
      counter the run started from, so none of them repeats. */
  lemma {:induction false} IssuedIncreasing(st: Store, ops: seq<Op>)
    ensures forall k :: 0 <= k < |Issued(st, ops)| ==> Issued(st, ops)[k] >= st.counter
    ensures forall k, l :: 0 <= k < l < |Issued(st, ops)| ==> Issued(st, ops)[k] < Issued(st, ops)[l]
    decreases |ops|
  {
    if ops != [] {
      var st1 := Apply(st, ops[0]);
      IssuedIncreasing(st1, ops[1..]);
      assert st1.counter >= st.counter;
      if ops[0].AddOp? {
        assert st1.counter == st.counter + 1;
      }
    }
  }

  /** An id present in a valid store is never handed out again, whatever is
      done afterwards, deleting that record included. */
  lemma IdNeverReused(st: Store, i: int, ops: seq<Op>)
    requires Valid(st) && 0 <= i < |st.movies|
    ensures st.movies[i].id.value !in Issued(st, ops)
  {
    IssuedIncreasing(st, ops);
  }
}
