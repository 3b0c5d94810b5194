/** The rendering decisions of the movie card, as data instead of markup:
    which poster image to show, which placeholder fills a missing field, and
    which watchlist control the card carries. */
module Render {
  import opened Wrappers
  import opened JsText
  import opened Storage
  import opened Movies

  /** The local image shown when a movie has no usable poster. */
  const FallbackImage: string := "./poster-unavailable.png"
  /** The API's sentinel for "no poster", and the text shown for a missing
      rating, runtime or genre. */
  const NotAvailable: string := "N/A"
  const NoPlot: string := "No plot available."

  /** The watchlist control of a card: the static "Added" label, the add
      control, or the remove control (the latter marked with `data-remove`). */
  datatype ControlKind = AddedLabel | AddControl | RemoveControl

  /** A control with the identifier and title it binds as data attributes. */
  datatype Control = Control(kind: ControlKind, imdbID: string, title: string)

  /** Everything a rendered movie card shows. */
  datatype MovieCard = MovieCard(
    posterSrc: string,
    title: string,
    rating: string,
    runtime: string,
    genre: string,
    plot: string,
    control: Control)

  /** The poster is usable when it is defined, non-empty and not the sentinel. */
  predicate HasPoster(poster: Option<string>) {
    Truthy(poster) && poster.value != NotAvailable
  }

  /** `getPosterSrc`: the poster if usable, else the fallback image; either
      way never empty and never the sentinel. */
  function PosterSrc(poster: Option<string>): (r: string)
    ensures HasPoster(poster) ==> r == poster.value
    ensures !HasPoster(poster) ==> r == FallbackImage
    ensures r != "" && r != NotAvailable
  {
    if HasPoster(poster) then poster.value else FallbackImage
  }

  /** The chosen source is itself a usable poster, so choosing again keeps it. */
  lemma PosterSrcIsUsable(poster: Option<string>)
    ensures HasPoster(Some(PosterSrc(poster)))
    ensures PosterSrc(Some(PosterSrc(poster))) == PosterSrc(poster)
  {
  }

  /** `field || placeholder`: a missing or empty optional field shows the
      placeholder; the shown text is never empty. */
  function FieldOr(field: Option<string>, placeholder: string): (r: string)
    requires placeholder != ""
    ensures Truthy(field) ==> r == field.value
    ensures !Truthy(field) ==> r == placeholder
    ensures r != ""
  {
    if Truthy(field) then field.value else placeholder
  }

  /** A shown field, read back as a field, shows the same text again; and a
      missing field is displayed just like one holding the placeholder. */
  lemma FieldOrIsStable(field: Option<string>, placeholder: string)
    requires placeholder != ""
    ensures FieldOr(Some(FieldOr(field, placeholder)), placeholder) == FieldOr(field, placeholder)
    ensures FieldOr(None, placeholder) == FieldOr(Some(placeholder), placeholder)
  {
  }

  /** `createAddButton`: on the search page a movie already in the watchlist
      gets the static "Added" label, any other movie the add control; both
      carry the movie's identifier and title. Membership is read per item at
      render time. */
  function CreateAddButton(movie: Movie, store: Store): (c: Control)
    ensures c.imdbID == movie.imdbID && c.title == movie.title
    ensures c.kind == AddedLabel <==> InWatchlist(store, movie.imdbID)
    ensures c.kind != RemoveControl
  {
    var stored := GetItem(store, movie.imdbID);
    Control(if Truthy(stored) then AddedLabel else AddControl, movie.imdbID, movie.title)
  }

  /** `createRemoveButton`: the watchlist page always offers removal. */
  function CreateRemoveButton(movie: Movie): (c: Control)
    ensures c.kind == RemoveControl
    ensures c.imdbID == movie.imdbID && c.title == movie.title
  {
    Control(RemoveControl, movie.imdbID, movie.title)
  }

  /** `createMovieHTML`: the card of one movie. */
  function CreateMovieCard(movie: Movie, store: Store, isWatchlistPage: bool): (card: MovieCard)
    ensures card.title == movie.title
    ensures card.control.imdbID == movie.imdbID && card.control.title == movie.title
    ensures isWatchlistPage ==> card.control.kind == RemoveControl
    ensures !isWatchlistPage ==> (card.control.kind == AddedLabel <==> InWatchlist(store, movie.imdbID))
    ensures !isWatchlistPage ==> card.control.kind != RemoveControl
    ensures HasPoster(movie.poster) ==> card.posterSrc == movie.poster.value
    ensures !HasPoster(movie.poster) ==> card.posterSrc == FallbackImage
    ensures card.rating == FieldOr(movie.imdbRating, NotAvailable)
    ensures card.runtime == FieldOr(movie.runtime, NotAvailable)
    ensures card.genre == FieldOr(movie.genre, NotAvailable)
    ensures card.plot == FieldOr(movie.plot, NoPlot)
    ensures card.posterSrc != "" && card.posterSrc != NotAvailable
    ensures card.rating != "" && card.runtime != "" && card.genre != "" && card.plot != ""
  {
    MovieCard(
      PosterSrc(movie.poster),
      movie.title,
      FieldOr(movie.imdbRating, NotAvailable),
      FieldOr(movie.runtime, NotAvailable),
      FieldOr(movie.genre, NotAvailable),
      FieldOr(movie.plot, NoPlot),
      if isWatchlistPage then CreateRemoveButton(movie) else CreateAddButton(movie, store))
  }

  /** `renderMovies`: one card per movie, in order. */
  function RenderMovies(movies: seq<Movie>, store: Store, isWatchlistPage: bool): (cards: seq<MovieCard>)
    ensures |cards| == |movies|
    ensures forall i :: 0 <= i < |movies| ==> cards[i] == CreateMovieCard(movies[i], store, isWatchlistPage)
  {
    seq(|movies|, i requires 0 <= i < |movies| => CreateMovieCard(movies[i], store, isWatchlistPage))
  }

  /** The identifiers the cards' controls carry. */
  function CardIds(cards: seq<MovieCard>): set<string> {
    set c | c in cards :: c.control.imdbID
  }

  /** Rendering keeps the identifiers: the cards carry exactly the movies'
      identifiers, and distinct movies give distinct cards. */
  lemma RenderKeepsIds(movies: seq<Movie>, store: Store, isWatchlistPage: bool)
    ensures var cards := RenderMovies(movies, store, isWatchlistPage);
      && CardIds(cards) == IdsOf(movies)
      && (NoDuplicateIds(movies) ==>
            forall i, j :: 0 <= i < j < |cards| ==> cards[i].control.imdbID != cards[j].control.imdbID)
  {
  }

  /** On the search page every card offers an add control or shows "Added",
      and shows "Added" exactly for movies already in the watchlist. */
  lemma SearchCardControls(movies: seq<Movie>, store: Store)
    ensures forall c :: c in RenderMovies(movies, store, false) ==>
              && c.control.kind != RemoveControl
              && (c.control.kind == AddedLabel <==> InWatchlist(store, c.control.imdbID))
  {
  }
}
