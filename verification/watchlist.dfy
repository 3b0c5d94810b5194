/** The watchlist mutation handler: one delegated click listener reads the
    clicked element's data attributes and ignores the click, removes an entry
    or adds one. Each operation is a transition of the store plus the page
    effect it asks for. */
module Watchlist {
  import opened Wrappers
  import opened JsText
  import opened Storage
  import opened Movies
  import opened Render

  /** The clicked element's `dataset`: `data-imdbid`, `data-title` and
      `data-remove`, each undefined when the attribute is absent. */
  datatype Dataset = Dataset(imdbid: Option<string>, title: Option<string>, remove: Option<string>)

  /** What the page does after a click besides writing the store: nothing,
      replace the clicked control's container with a static label, or re-run
      the watchlist page render (which does nothing off the watchlist page). */
  datatype Effect = NoEffect | ShowAdded(added: Control) | ReloadWatchlist

  datatype Transition = Transition(store: Store, effect: Effect)

  /** `setItem` stores `String(value)`, so an undefined title is stored as the
      text "undefined". */
  function StoredTitle(title: Option<string>): (r: string)
    ensures title.Some? ==> r == title.value
    ensures title.None? ==> r == "undefined"
  {
    title.GetOr("undefined")
  }

  /** `addToWatchlist`: a movie already in the watchlist is left alone;
      otherwise its title is stored under its identifier and the clicked
      control turns into the "Added" label. */
  function AddToWatchlist(store: Store, imdbId: string, title: string): (t: Transition)
    ensures InWatchlist(store, imdbId) ==> t == Transition(store, NoEffect)
    ensures !InWatchlist(store, imdbId) ==>
      && t.store.Keys == store.Keys + {imdbId}
      && t.store[imdbId] == title
      && (forall k :: k in store && k != imdbId ==> t.store[k] == store[k])
      && t.effect == ShowAdded(Control(AddedLabel, imdbId, title))
  {
    if Truthy(GetItem(store, imdbId)) then Transition(store, NoEffect)
    else Transition(SetItem(store, imdbId, title), ShowAdded(Control(AddedLabel, imdbId, title)))
  }

  /** `removeFromWatchlist`: the entry is gone, every other entry is kept, and
      the watchlist page is rendered again. */
  function RemoveFromWatchlist(store: Store, imdbId: string): (t: Transition)
    ensures imdbId !in t.store && !InWatchlist(t.store, imdbId)
    ensures forall k :: k != imdbId ==> (k in t.store <==> k in store)
    ensures forall k :: k in t.store ==> t.store[k] == store[k]
    ensures t.effect == ReloadWatchlist
  {
    Transition(RemoveItem(store, imdbId), ReloadWatchlist)
  }

  /** `handleWatchlistClick`: no identifier means the click is not for the
      watchlist; a `data-remove` marker removes; anything else adds. */
  function HandleWatchlistClick(store: Store, target: Dataset): (t: Transition)
    ensures !Truthy(target.imdbid) ==> t == Transition(store, NoEffect)
    ensures Truthy(target.imdbid) && Truthy(target.remove) ==>
      && target.imdbid.value !in t.store
      && (forall k :: k != target.imdbid.value ==> (k in t.store <==> k in store))
      && (forall k :: k in t.store ==> t.store[k] == store[k])
      && t.effect == ReloadWatchlist
    ensures Truthy(target.imdbid) && !Truthy(target.remove) ==>
      t == AddToWatchlist(store, target.imdbid.value, StoredTitle(target.title))
  {
    if !Truthy(target.imdbid) then Transition(store, NoEffect)
    else if Truthy(target.remove) then RemoveFromWatchlist(store, target.imdbid.value)
    else AddToWatchlist(store, target.imdbid.value, StoredTitle(target.title))
  }

  /** Adding twice stores the same as adding once; once the stored title is
      non-empty, the repeated click has no effect at all. */
  lemma AddIsIdempotent(store: Store, imdbId: string, title: string)
    ensures var once := AddToWatchlist(store, imdbId, title);
            var twice := AddToWatchlist(once.store, imdbId, title);
            && twice.store == once.store
            && (title != "" ==> twice.effect == NoEffect)
  {
  }

  /** Adding a movie that was not stored and then removing it restores the
      store exactly. */
  lemma AddThenRemoveRestores(store: Store, imdbId: string, title: string)
    requires imdbId !in store
    ensures RemoveFromWatchlist(AddToWatchlist(store, imdbId, title).store, imdbId).store == store
  {
  }

  /** Removing twice is the same as removing once. */
  lemma RemoveIsIdempotent(store: Store, imdbId: string)
    ensures var once := RemoveFromWatchlist(store, imdbId).store;
            RemoveFromWatchlist(once, imdbId).store == once
  {
  }

  /** The data attributes a rendered control carries: identifier and title,
      plus the `data-remove` marker on the remove control. */
  function ControlDataset(c: Control): (d: Dataset)
    ensures d.imdbid == Some(c.imdbID) && d.title == Some(c.title)
    ensures Truthy(d.remove) <==> c.kind == RemoveControl
  {
    Dataset(Some(c.imdbID), Some(c.title), if c.kind == RemoveControl then Some("#") else None)
  }

  /** Clicking the control of a rendered card does what the control shows:
      the remove control removes the movie, the add control stores it under
      its title, and the "Added" label changes nothing. A movie with an empty
      identifier yields controls the handler ignores. */
  lemma ClickOnCardControl(movie: Movie, store: Store, isWatchlistPage: bool)
    ensures var card := CreateMovieCard(movie, store, isWatchlistPage);
            var t := HandleWatchlistClick(store, ControlDataset(card.control));
            && (movie.imdbID == "" ==> t == Transition(store, NoEffect))
            && (movie.imdbID != "" && card.control.kind == RemoveControl ==>
                  movie.imdbID !in t.store && t.effect == ReloadWatchlist)
            && (movie.imdbID != "" && card.control.kind == AddControl ==>
                  movie.imdbID in t.store && t.store[movie.imdbID] == movie.title)
            && (card.control.kind == AddedLabel ==> t == Transition(store, NoEffect))
  {
  }

  /** The label an add click puts in place is the control a fresh render of
      the same movie on the search page would show. */
  lemma AddedLabelMatchesRerender(movie: Movie, store: Store)
    requires movie.imdbID != "" && movie.title != ""
    requires !InWatchlist(store, movie.imdbID)
    ensures var t := HandleWatchlistClick(store, ControlDataset(CreateAddButton(movie, store)));
            t.effect == ShowAdded(CreateMovieCard(movie, t.store, false).control)
  {
  }

  /** With an empty title the two disagree: the add click shows the "Added"
      label and stores the empty title, which `getItem` reads back as falsy,
      so a fresh render offers the add control again. */
  lemma EmptyTitleLabelDisagreesWithRerender(movie: Movie, store: Store)
    requires movie.imdbID != "" && movie.title == ""
    requires !InWatchlist(store, movie.imdbID)
    ensures var t := HandleWatchlistClick(store, ControlDataset(CreateAddButton(movie, store)));
            && t.effect == ShowAdded(Control(AddedLabel, movie.imdbID, ""))
            && CreateMovieCard(movie, t.store, false).control.kind == AddControl
  {
  }
}
