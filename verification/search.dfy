/** The search page: a keyword search, one detail lookup per result stub, and
    a per-search set of identifiers that keeps at most one card per movie. */
module Search {
  import opened Wrappers
  import opened JsText
  import opened Storage
  import opened Movies
  import opened Render
  import opened Pages

  /** A lightweight entry of the keyword search; only its title is used. */
  datatype Stub = Stub(title: string)

  /** The keyword search's outcome: the request or its JSON decoding threw,
      or a decoded reply whose `Search` array may be missing. */
  datatype CoarseReply = RequestFailed | Reply(search: Option<seq<Stub>>)

  /** The search page's state: the results container and the dedup set
      (`movieIds`), which lives on the app object between searches. */
  datatype SearchPage = SearchPage(container: View, movieIds: set<string>)

  /** `searchBar?.value?.trim()` followed by the falsy test: the term that is
      searched for, or None when nothing is searched. */
  function SearchTerm(barValue: Option<string>): (term: Option<string>)
    ensures term.None? <==> barValue.None? || AllWhitespace(barValue.value)
    ensures term.Some? ==> term.value != "" && term.value == Trim(barValue.value)
  {
    if barValue.None? then None
    else
      var trimmed := Trim(barValue.value);
      if trimmed == "" then None else Some(trimmed)
  }

  /** The order in which the detail lookups of one search settle: each of the
      `n` lookups exactly once. */
  predicate IsSettleOrder(order: seq<nat>, n: nat) {
    && |order| == n
    && (forall k :: 0 <= k < |order| ==> order[k] < n)
    && (forall i: nat :: i < n ==> i in order)
  }

  /** The selection half of `fetchAndRenderSearchResults`; `PerformSearch`
      renders what it selects. `outcomes[i]` is the detail lookup of the i-th
      stub. As each lookup settles (in `order`), a successful movie whose
      identifier is not yet in the dedup set is kept and its identifier
      added; any other lookup settles to null. `results` is the array the
      settled promises form, in stub order, and the movies to render are its
      non-null entries in that order. Which of two duplicates survives
      depends on `order`; the contract does not say which. */
  method FetchSearchResults(outcomes: seq<Lookup>, order: seq<nat>, movieIds: set<string>)
    returns (results: seq<Lookup>, shown: seq<Movie>, seenIds: set<string>)
    requires IsSettleOrder(order, |outcomes|)
    ensures |results| == |outcomes|
    ensures forall i :: 0 <= i < |results| ==> results[i].None? || results[i] == outcomes[i]
    ensures shown == Successes(results)
    ensures NoDuplicateIds(shown)
    ensures IdsOf(shown) == SuccessIds(outcomes) - movieIds
    ensures movieIds <= seenIds && seenIds - movieIds == IdsOf(shown)
  {
    var n := |outcomes|;
    // What each lookup promise settles to: the movie, or null.
    results := seq(n, _ => None);
    var seen := movieIds;
    var k := 0;
    while k < n
      invariant 0 <= k <= n
      invariant |results| == n
      invariant forall i :: 0 <= i < n && results[i].Some? ==>
                  results[i] == outcomes[i] && results[i].value.imdbID !in movieIds
      invariant forall i, j :: 0 <= i < j < n && results[i].Some? && results[j].Some?
                  ==> results[i].value.imdbID != results[j].value.imdbID
      invariant seen == movieIds + SuccessIds(results)
      invariant forall l :: 0 <= l < k && outcomes[order[l]].Some? ==> outcomes[order[l]].value.imdbID in seen
    {
      var i := order[k];
      if outcomes[i].Some? && outcomes[i].value.imdbID !in seen {
        assert results[i].None?;
        SuccessIdsFill(results, i, outcomes[i].value);
        results := results[i := outcomes[i]];
        seen := seen + {outcomes[i].value.imdbID};
      }
      k := k + 1;
    }
    shown := Successes(results);
    DistinctSuccesses(results);
    IdsOfSuccesses(results);
    IdsOfSuccesses(outcomes);
    forall id | id in SuccessIds(outcomes) - movieIds ensures id in IdsOf(shown) {
      var i :| 0 <= i < n && outcomes[i].Some? && outcomes[i].value.imdbID == id;
      assert i in order;
      var l :| 0 <= l < n && order[l] == i;
    }
    seenIds := seen;
  }

  /** `performSearch`. A blank query issues no request and leaves the page
      alone. Otherwise the trimmed term is requested; a request that throws
      shows "no results" before the dedup set is cleared; a reply without a
      `Search` array shows "no results"; a reply with one (even an empty one)
      clears the container and the dedup set and shows one card per distinct
      successfully looked-up movie. */
  method PerformSearch(page: SearchPage, barValue: Option<string>, reply: CoarseReply,
                       outcomes: seq<Lookup>, order: seq<nat>, store: Store)
    returns (page': SearchPage, request: Option<string>, shown: seq<Movie>)
    requires reply.Reply? && reply.search.Some? ==>
               |outcomes| == |reply.search.value| && IsSettleOrder(order, |outcomes|)
    ensures request.None? <==> barValue.None? || AllWhitespace(barValue.value)
    ensures request.Some? ==> request.value == Trim(barValue.value)
    ensures request.None? ==> page' == page
    ensures request.Some? && reply.RequestFailed? ==> page' == SearchPage(NoResults, page.movieIds)
    ensures request.Some? && reply == Reply(None) ==> page' == SearchPage(NoResults, {})
    ensures request.Some? && reply == Reply(Some([])) ==> page' == SearchPage(Cards([]), {})
    ensures request.Some? && reply.Reply? && reply.search.Some? ==>
      && page'.container.Cards?
      && page'.container.cards == RenderMovies(shown, store, false)
      && NoDuplicateIds(shown)
      && IsSubsequence(shown, Successes(outcomes))
      && IdsOf(shown) == SuccessIds(outcomes)
      && page'.movieIds == CardIds(page'.container.cards)
      && (forall c :: c in page'.container.cards ==>
            c.control.kind != RemoveControl
            && (c.control.kind == AddedLabel <==> InWatchlist(store, c.control.imdbID)))
  {
    shown := [];
    request := SearchTerm(barValue);
    if request.None? {
      page' := page;
      return;
    }
    match reply
    case RequestFailed =>
      page' := SearchPage(NoResults, page.movieIds);
    case Reply(search) =>
      // The container and the dedup set are cleared before the reply is read.
      var cleared := SearchPage(Cards([]), {});
      if search.None? {
        page' := SearchPage(NoResults, cleared.movieIds);
      } else {
        var results, ids;
        results, shown, ids := FetchSearchResults(outcomes, order, cleared.movieIds);
        var cards := RenderMovies(shown, store, false);
        MaskedSuccessesAreSubsequence(results, outcomes);
        page' := SearchPage(Cards(cleared.container.cards + cards), ids);
        assert cleared.container.cards + cards == cards;
        RenderKeepsIds(shown, store, false);
        SearchCardControls(shown, store);
        if search.value == [] {
          assert Successes(outcomes) == [];
          assert shown == [] && cards == [];
          // Names the set difference so the dedup clause can match it.
          assert ids == ids - {};
        }
      }
  }
}
