/** The movie record returned by the metadata service, and the properties of
    result lists that the search and watchlist pages rely on. */
module Movies {
  import opened Wrappers

  /** An API-shaped movie record. Optional display fields may be undefined. */
  datatype Movie = Movie(
    imdbID: string,
    title: string,
    poster: Option<string>,
    imdbRating: Option<string>,
    runtime: Option<string>,
    genre: Option<string>,
    plot: Option<string>)

  /** The outcome of one detail lookup: Some(movie), or None when the request
      failed, the response was not OK, or the API reported an error. */
  type Lookup = Option<Movie>

  /** `movies.filter(movie => movie !== null)`: the successful lookups, in
      order. */
  function Successes(outcomes: seq<Lookup>): (r: seq<Movie>)
    ensures |r| <= |outcomes|
    ensures forall m :: m in r <==> Some(m) in outcomes
  {
    if outcomes == [] then []
    else
      var rest := Successes(outcomes[1..]);
      assert forall o :: o in outcomes <==> o == outcomes[0] || o in outcomes[1..];
      match outcomes[0]
      case Some(m) => [m] + rest
      case None => rest
  }

  /** Filtering distributes over concatenation and keeps a success as one
      element and drops a failure, so it preserves order and keeps each
      successful position exactly once. */
  lemma {:induction false} SuccessesDistributes(a: seq<Lookup>, b: seq<Lookup>)
    ensures Successes(a + b) == Successes(a) + Successes(b)
    ensures forall m :: Successes([Some(m)]) == [m]
    ensures Successes([None]) == []
  {
    if a != [] {
      assert (a + b)[1..] == a[1..] + b;
      SuccessesDistributes(a[1..], b);
    } else {
      assert a + b == b;
    }
  }

  /** No two movies of the list share an identifier. */
  predicate NoDuplicateIds(movies: seq<Movie>) {
    forall i, j :: 0 <= i < j < |movies| ==> movies[i].imdbID != movies[j].imdbID
  }

  function IdsOf(movies: seq<Movie>): set<string> {
    set m | m in movies :: m.imdbID
  }

  /** `a` is obtained from `b` by deleting elements. */
  predicate IsSubsequence<T(==)>(a: seq<T>, b: seq<T>)
    decreases |b|
  {
    if a == [] then true
    else if b == [] then false
    else if a[0] == b[0] then IsSubsequence(a[1..], b[1..])
    else IsSubsequence(a, b[1..])
  }

  /** Blanking out some lookups (keeping the others as they are) and then
      dropping failures yields a subsequence of the successful lookups. */
  lemma {:induction false} MaskedSuccessesAreSubsequence(kept: seq<Lookup>, outcomes: seq<Lookup>)
    requires |kept| == |outcomes|
    requires forall i :: 0 <= i < |kept| ==> kept[i].None? || kept[i] == outcomes[i]
    ensures IsSubsequence(Successes(kept), Successes(outcomes))
  {
    if kept != [] {
      MaskedSuccessesAreSubsequence(kept[1..], outcomes[1..]);
      if kept[0].Some? {
        assert Successes(kept) == [kept[0].value] + Successes(kept[1..]);
        assert Successes(outcomes) == [kept[0].value] + Successes(outcomes[1..]);
      } else {
        SubsequenceOfTail(Successes(kept[1..]), Successes(outcomes[1..]), outcomes[0]);
      }
    }
  }

  /** A subsequence of a tail is a subsequence after dropping the successful
      head too. */
  lemma {:induction false} SubsequenceOfTail(a: seq<Movie>, b: seq<Movie>, head: Lookup)
    requires IsSubsequence(a, b)
    ensures IsSubsequence(a, Successes([head]) + b)
  {
    if head.Some? {
      assert Successes([head]) == [head.value];
      SubsequenceCons(a, b, head.value);
    } else {
      assert Successes([head]) + b == b;
    }
  }

  /** Prepending an element to the longer sequence keeps the subsequence
      relation. */
  lemma SubsequenceCons<T>(a: seq<T>, b: seq<T>, x: T)
    requires IsSubsequence(a, b)
    ensures IsSubsequence(a, [x] + b)
  {
    assert ([x] + b)[1..] == b;
    SubsequenceOfLonger(a, [x] + b);
  }

  /** A subsequence of the tail of `b` is a subsequence of `b`. */
  lemma {:induction false} SubsequenceOfLonger<T>(a: seq<T>, b: seq<T>)
    requires b != []
    requires IsSubsequence(a, b[1..])
    ensures IsSubsequence(a, b)
    decreases |b|, 0
  {
    if a != [] && a[0] == b[0] {
      SubsequenceDropHead(a, b[1..]);
    }
  }

  /** If `a` is a subsequence of `b`, so is `a` without its head. */
  lemma {:induction false} SubsequenceDropHead<T>(a: seq<T>, b: seq<T>)
    requires a != []
    requires IsSubsequence(a, b)
    ensures IsSubsequence(a[1..], b)
    decreases |b|, 1
  {
    if a[0] != b[0] {
      SubsequenceDropHead(a, b[1..]);
    }
    SubsequenceOfLonger(a[1..], b);
  }

  /** Dropping failures from lookups whose successes carry pairwise distinct
      identifiers yields a list without duplicate identifiers. */
  lemma {:induction false} DistinctSuccesses(kept: seq<Lookup>)
    requires forall i, j :: 0 <= i < j < |kept| && kept[i].Some? && kept[j].Some?
               ==> kept[i].value.imdbID != kept[j].value.imdbID
    ensures NoDuplicateIds(Successes(kept))
  {
    if kept != [] {
      var rest := kept[1..];
      DistinctSuccesses(rest);
      var r := Successes(rest);
      if kept[0].Some? {
        forall m | m in r ensures m.imdbID != kept[0].value.imdbID {
          assert Some(m) in rest;
          var j :| 0 <= j < |rest| && rest[j] == Some(m);
          assert kept[j + 1] == Some(m);
        }
        assert Successes(kept) == [kept[0].value] + r;
        assert forall j :: 0 <= j < |r| ==> r[j] in r;
      }
    }
  }

  /** The identifiers of the successful lookups, by position. */
  function SuccessIds(kept: seq<Lookup>): set<string> {
    set i | 0 <= i < |kept| && kept[i].Some? :: kept[i].value.imdbID
  }

  /** Filling one failed position with a movie adds exactly its identifier. */
  lemma SuccessIdsFill(kept: seq<Lookup>, i: nat, m: Movie)
    requires i < |kept| && kept[i].None?
    ensures SuccessIds(kept[i := Some(m)]) == SuccessIds(kept) + {m.imdbID}
  {
    var after := kept[i := Some(m)];
    forall id | id in SuccessIds(after) ensures id in SuccessIds(kept) + {m.imdbID} {
      var j :| 0 <= j < |after| && after[j].Some? && after[j].value.imdbID == id;
      if j != i { assert kept[j] == after[j]; }
    }
    forall id | id in SuccessIds(kept) ensures id in SuccessIds(after) {
      var j :| 0 <= j < |kept| && kept[j].Some? && kept[j].value.imdbID == id;
      assert after[j] == kept[j];
    }
    assert after[i] == Some(m);
  }

  /** The identifiers of the successful lookups, computed over positions. */
  lemma IdsOfSuccesses(kept: seq<Lookup>)
    ensures IdsOf(Successes(kept)) == SuccessIds(kept)
  {
  }
}
