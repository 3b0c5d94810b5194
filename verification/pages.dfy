/** What a results container shows. */
module Pages {
  import opened Render

  /** The container's content: whatever the page started with, a list of
      movie cards, the "no results" view of the search page, or the
      "empty watchlist" view of the watchlist page. */
  datatype View = Initial | Cards(cards: seq<MovieCard>) | NoResults | EmptyWatchlist
}
