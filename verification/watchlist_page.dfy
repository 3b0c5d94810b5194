/** The watchlist page: rebuilt from the store on load and after every
    removal, by fetching each stored identifier's details. */
module WatchlistPage {
  import opened Wrappers
  import opened Storage
  import opened Movies
  import opened Render
  import opened Pages
  import opened Watchlist

  /** `isWatchlistEmpty`: compares the number of keys in the whole origin's
      store with zero, not the number of watchlisted movies. */
  function IsWatchlistEmpty(store: Store): (r: bool)
    ensures r <==> store.Keys == {}
  {
    |store| == 0
  }

  /** A store whose only entry has an empty title watchlists nothing, yet is
      not empty for the page. */
  lemma EmptinessCountsEveryKey()
    ensures var store := map["tt0372784" := ""];
            !IsWatchlistEmpty(store) && forall k :: !InWatchlist(store, k)
  {
  }

  /** The keys whose lookup succeeds, in enumeration order. */
  function FetchedKeys(keys: seq<string>, fetchById: string -> Lookup): (r: seq<string>)
    ensures |r| <= |keys|
    ensures forall k :: k in r <==> k in keys && fetchById(k).Some?
  {
    if keys == [] then []
    else
      var rest := FetchedKeys(keys[1..], fetchById);
      assert forall k :: k in keys <==> k == keys[0] || k in keys[1..];
      if fetchById(keys[0]).Some? then [keys[0]] + rest else rest
  }

  /** Distinct keys stay distinct when the failed lookups are dropped. */
  lemma {:induction false} FetchedKeysDistinct(keys: seq<string>, fetchById: string -> Lookup)
    requires forall i, j :: 0 <= i < j < |keys| ==> keys[i] != keys[j]
    ensures forall i, j :: 0 <= i < j < |FetchedKeys(keys, fetchById)| ==>
              FetchedKeys(keys, fetchById)[i] != FetchedKeys(keys, fetchById)[j]
  {
    if keys != [] {
      FetchedKeysDistinct(keys[1..], fetchById);
      var rest := FetchedKeys(keys[1..], fetchById);
      assert keys[0] !in keys[1..];
      if fetchById(keys[0]).Some? {
        var r := FetchedKeys(keys, fetchById);
        assert r == [keys[0]] + rest;
        forall i, j | 0 <= i < j < |r| ensures r[i] != r[j] {
          assert r[j] == rest[j - 1] && rest[j - 1] in rest;
          if i > 0 {
            assert r[i] == rest[i - 1];
          }
        }
      } else {
        assert FetchedKeys(keys, fetchById) == rest;
      }
    }
  }

  /** `keys.map(id => this.fetchMovieById(id))`, awaited: one outcome per key. */
  function Lookups(keys: seq<string>, fetchById: string -> Lookup): (outcomes: seq<Lookup>)
    ensures |outcomes| == |keys|
    ensures forall i :: 0 <= i < |keys| ==> outcomes[i] == fetchById(keys[i])
  {
    seq(|keys|, i requires 0 <= i < |keys| => fetchById(keys[i]))
  }

  /** Filtering the lookups leaves, position by position, the movie of each
      key whose lookup succeeded. */
  lemma {:induction false} SuccessesFollowFetchedKeys(keys: seq<string>, fetchById: string -> Lookup)
    ensures |Successes(Lookups(keys, fetchById))| == |FetchedKeys(keys, fetchById)|
    ensures forall j :: 0 <= j < |FetchedKeys(keys, fetchById)| ==>
              fetchById(FetchedKeys(keys, fetchById)[j]) == Some(Successes(Lookups(keys, fetchById))[j])
  {
    if keys != [] {
      var head := fetchById(keys[0]);
      assert Lookups(keys, fetchById) == [head] + Lookups(keys[1..], fetchById);
      SuccessesDistributes([head], Lookups(keys[1..], fetchById));
      SuccessesFollowFetchedKeys(keys[1..], fetchById);
    }
  }

  /** `fetchWatchlistMovies`: look every key up by identifier and drop the
      failed lookups. `keys` is the store's key enumeration and `fetchById`
      the outcome of the detail request for an identifier. The result has
      one movie per key whose lookup succeeded, in key order. */
  function FetchWatchlistMovies(keys: seq<string>, fetchById: string -> Lookup): (movies: seq<Movie>)
    ensures |movies| == |FetchedKeys(keys, fetchById)|
    ensures forall j :: 0 <= j < |movies| ==> fetchById(FetchedKeys(keys, fetchById)[j]) == Some(movies[j])
    ensures forall m :: m in movies <==> exists i :: 0 <= i < |keys| && fetchById(keys[i]) == Some(m)
  {
    var outcomes := Lookups(keys, fetchById);
    assert forall m :: Some(m) in outcomes <==> exists i :: 0 <= i < |keys| && outcomes[i] == Some(m);
    SuccessesFollowFetchedKeys(keys, fetchById);
    Successes(outcomes)
  }

  /** The result of rendering the watchlist page: the view and the
      identifiers whose details were requested. */
  datatype WatchlistRender = WatchlistRender(view: View, requests: seq<string>)

  /** `renderWatchListMovies` on the watchlist page: an empty store shows the
      placeholder and requests nothing; otherwise every stored key is
      requested once and each movie that was fetched gets a card with a
      remove control. */
  function RenderWatchlistPage(store: Store, keys: seq<string>, fetchById: string -> Lookup): (r: WatchlistRender)
    requires IsEnumeration(keys, store)
    ensures r.view == EmptyWatchlist <==> IsWatchlistEmpty(store)
    ensures IsWatchlistEmpty(store) ==> r.requests == []
    ensures !IsWatchlistEmpty(store) ==> r.requests == keys && |r.requests| == |store|
    ensures !IsWatchlistEmpty(store) ==> r.view.Cards?
    ensures r.view.Cards? ==>
      && |r.view.cards| == |FetchedKeys(keys, fetchById)| <= |store|
      && forall c :: c in r.view.cards ==> c.control.kind == RemoveControl
  {
    if IsWatchlistEmpty(store) then WatchlistRender(EmptyWatchlist, [])
    else
      EnumerationLength(keys, store);
      WatchlistRender(Cards(RenderMovies(FetchWatchlistMovies(keys, fetchById), store, true)), keys)
  }

  /** The remove-control cards of the movies fetched for the store's keys. */
  ghost function FetchedCards(store: Store, fetchById: string -> Lookup): set<MovieCard> {
    set k | k in store && fetchById(k).Some? :: CreateMovieCard(fetchById(k).value, store, true)
  }

  /** Every card of the list belongs to the given set. */
  ghost predicate AllCardsIn(cards: seq<MovieCard>, allowed: set<MovieCard>) {
    cards == [] || (cards[0] in allowed && AllCardsIn(cards[1..], allowed))
  }

  lemma {:induction false} AllCardsInIntro(cards: seq<MovieCard>, allowed: set<MovieCard>)
    requires forall c :: c in cards ==> c in allowed
    ensures AllCardsIn(cards, allowed)
  {
    if cards != [] {
      AllCardsInIntro(cards[1..], allowed);
    }
  }

  /** The cards are exactly those of the fetched movies: each card belongs to
      some stored key's movie, and each key whose lookup succeeded has its
      card. */
  ghost predicate ShowsExactlyFetched(cards: seq<MovieCard>, store: Store, fetchById: string -> Lookup) {
    && AllCardsIn(cards, FetchedCards(store, fetchById))
    && (forall c :: c in FetchedCards(store, fetchById) ==> c in cards)
  }

  /** A non-empty store's page shows exactly the cards of the movies fetched
      for its keys. */
  lemma WatchlistShowsExactlyFetched(store: Store, keys: seq<string>, fetchById: string -> Lookup)
    requires IsEnumeration(keys, store)
    requires !IsWatchlistEmpty(store)
    ensures ShowsExactlyFetched(RenderWatchlistPage(store, keys, fetchById).view.cards, store, fetchById)
  {
    var cards := RenderMovies(FetchWatchlistMovies(keys, fetchById), store, true);
    assert RenderWatchlistPage(store, keys, fetchById).view.cards == cards;
    RenderedCardsAreFetched(store, keys, fetchById);
    FetchedCardsAreRendered(store, keys, fetchById);
    AllCardsInIntro(cards, FetchedCards(store, fetchById));
  }

  /** Each card rendered from the fetched movies belongs to a stored key. */
  lemma RenderedCardsAreFetched(store: Store, keys: seq<string>, fetchById: string -> Lookup)
    requires IsEnumeration(keys, store)
    ensures forall c :: c in RenderMovies(FetchWatchlistMovies(keys, fetchById), store, true) ==>
              c in FetchedCards(store, fetchById)
  {
  }

  /** Each stored key whose lookup succeeds has its card rendered. */
  lemma FetchedCardsAreRendered(store: Store, keys: seq<string>, fetchById: string -> Lookup)
    requires IsEnumeration(keys, store)
    ensures forall c :: c in FetchedCards(store, fetchById) ==>
              c in RenderMovies(FetchWatchlistMovies(keys, fetchById), store, true)
  {
  }

  /** Removing an entry and rendering the page again shows exactly the cards
      of the remaining keys whose lookups succeed (failed lookups shrink the
      page, never the store), and the placeholder exactly when nothing else
      was stored. */
  lemma RemoveThenReload(store: Store, imdbId: string, keys: seq<string>, fetchById: string -> Lookup)
    requires IsEnumeration(keys, RemoveFromWatchlist(store, imdbId).store)
    ensures var rest := RemoveFromWatchlist(store, imdbId).store;
            var page := RenderWatchlistPage(rest, keys, fetchById);
      && rest.Keys == store.Keys - {imdbId}
      && (page.view == EmptyWatchlist || (page.view.Cards? && ShowsExactlyFetched(page.view.cards, rest, fetchById)))
      && (page.view == EmptyWatchlist <==> store.Keys <= {imdbId})
  {
    var rest := RemoveFromWatchlist(store, imdbId).store;
    if !IsWatchlistEmpty(rest) {
      WatchlistShowsExactlyFetched(rest, keys, fetchById);
    }
    assert IsWatchlistEmpty(rest) <==> rest.Keys == {};
  }
}
