/**
 * The library page (frontend/library.js): one card per installed game, its cover
 * taken from the first catalogue game with the same normalised title, the card
 * named in the `selected` URL parameter opened automatically, and a search box
 * that hides the cards whose key does not contain the query's key.
 */
module Library {
  import opened Common
  import opened Text
  import opened LibraryNames
  import opened Catalog
  import opened Cards

  const Placeholder: string := "placeholder.jpg"

  /** `apiGames.find(ag => normalize(ag.name) === normalize(name))`, as an index. */
  function FindApiGame(apiGames: seq<Game>, name: string): Option<nat> {
    FindFrom(apiGames, Normalize(name), 0)
  }

  function FindFrom(apiGames: seq<Game>, title: string, i: nat): Option<nat>
    requires i <= |apiGames|
    decreases |apiGames| - i
  {
    if i == |apiGames| then None
    else if Normalize(apiGames[i].name) == title then Some(i)
    else FindFrom(apiGames, title, i + 1)
  }

  lemma {:induction false} FindFromFirst(apiGames: seq<Game>, title: string, i: nat)
    requires i <= |apiGames|
    ensures var r := FindFrom(apiGames, title, i);
      && (r.Some? ==> i <= r.value < |apiGames| && Normalize(apiGames[r.value].name) == title)
      && (r.Some? ==> forall k {:trigger Normalize(apiGames[k].name)} :: i <= k < r.value ==> Normalize(apiGames[k].name) != title)
      && (r.None? ==> forall k {:trigger Normalize(apiGames[k].name)} :: i <= k < |apiGames| ==> Normalize(apiGames[k].name) != title)
    decreases |apiGames| - i
  {
    if i < |apiGames| && Normalize(apiGames[i].name) != title {
      FindFromFirst(apiGames, title, i + 1);
    }
  }

  /** The catalogue game found for a title is the first one whose normalised name equals the title's; none is found only when no name matches. */
  lemma FindApiGameFirst(apiGames: seq<Game>, name: string)
    ensures var r := FindApiGame(apiGames, name);
      && (r.Some? ==> r.value < |apiGames| && Normalize(apiGames[r.value].name) == Normalize(name))
      && (r.Some? ==> forall k {:trigger Normalize(apiGames[k].name)} :: 0 <= k < r.value ==> Normalize(apiGames[k].name) != Normalize(name))
      && (r.None? ==> forall k {:trigger Normalize(apiGames[k].name)} :: 0 <= k < |apiGames| ==> Normalize(apiGames[k].name) != Normalize(name))
  {
    FindFromFirst(apiGames, Normalize(name), 0);
  }

  /** The image of an installed game's card: the matching game's `cover_url` when it is set and non-empty, else the placeholder. */
  function CoverImage(apiGames: seq<Game>, name: string): string {
    match FindApiGame(apiGames, name)
    case Some(k) =>
      if k < |apiGames| && apiGames[k].coverUrl.Some? && apiGames[k].coverUrl.value != [] then apiGames[k].coverUrl.value
      else Placeholder
    case None => Placeholder
  }

  /**
   * The image is the `cover_url` of the first catalogue game with the same normalised
   * title, and the placeholder when there is no such game or its cover is missing or empty.
   */
  lemma CoverImageOfFirstMatch(apiGames: seq<Game>, name: string, k: nat)
    requires k < |apiGames| && Normalize(apiGames[k].name) == Normalize(name)
    requires forall j {:trigger Normalize(apiGames[j].name)} :: 0 <= j < k ==> Normalize(apiGames[j].name) != Normalize(name)
    ensures apiGames[k].coverUrl.GetOr([]) != [] ==> CoverImage(apiGames, name) == apiGames[k].coverUrl.value
    ensures apiGames[k].coverUrl.GetOr([]) == [] ==> CoverImage(apiGames, name) == Placeholder
  {
    FindApiGameFirst(apiGames, name);
    var r := FindApiGame(apiGames, name);
    assert r.Some? && r.value <= k;
  }

  lemma CoverImageWithoutMatch(apiGames: seq<Game>, name: string)
    requires forall k {:trigger Normalize(apiGames[k].name)} :: 0 <= k < |apiGames| ==> Normalize(apiGames[k].name) != Normalize(name)
    ensures CoverImage(apiGames, name) == Placeholder
  {
    FindApiGameFirst(apiGames, name);
  }

  /** Whatever the catalogue holds, the image is never empty and is the placeholder or the cover of a game with the same normalised title. */
  lemma CoverImageSource(apiGames: seq<Game>, name: string)
    ensures CoverImage(apiGames, name) != []
    ensures CoverImage(apiGames, name) == Placeholder ||
      exists k :: 0 <= k < |apiGames| && apiGames[k].coverUrl == Some(CoverImage(apiGames, name)) && Normalize(apiGames[k].name) == Normalize(name)
  {
    FindApiGameFirst(apiGames, name);
  }

  // ---- the installed-games loop --------------------------------------------

  /** A `selected` parameter that is present and non-empty, the only kind that auto-selects. */
  predicate Selects(selected: Option<string>) { selected.Some? && selected.value != [] }

  /** The card opened automatically: the first installed game whose normalised title equals that of `selected`. */
  function AutoSelect(installed: seq<InstalledGame>, selected: Option<string>): Option<nat> {
    if Selects(selected) then SelectFrom(installed, Normalize(selected.value), 0) else None
  }

  function SelectFrom(installed: seq<InstalledGame>, title: string, i: nat): Option<nat>
    requires i <= |installed|
    decreases |installed| - i
  {
    if i == |installed| then None
    else if Normalize(installed[i].name) == title then Some(i)
    else SelectFrom(installed, title, i + 1)
  }

  lemma {:induction false} SelectFromFirst(installed: seq<InstalledGame>, title: string, i: nat)
    requires i <= |installed|
    ensures var r := SelectFrom(installed, title, i);
      && (r.Some? ==> i <= r.value < |installed| && Normalize(installed[r.value].name) == title)
      && (r.Some? ==> forall k {:trigger Normalize(installed[k].name)} :: i <= k < r.value ==> Normalize(installed[k].name) != title)
      && (r.None? ==> forall k {:trigger Normalize(installed[k].name)} :: i <= k < |installed| ==> Normalize(installed[k].name) != title)
    decreases |installed| - i
  {
    if i < |installed| && Normalize(installed[i].name) != title {
      SelectFromFirst(installed, title, i + 1);
    }
  }

  /**
   * At most one card is opened: the first installed game whose normalised title equals
   * that of a non-empty `selected`; none when `selected` is missing or empty, or nothing matches.
   */
  lemma AutoSelectFirst(installed: seq<InstalledGame>, selected: Option<string>)
    ensures var r := AutoSelect(installed, selected);
      && (r.Some? ==> Selects(selected) && r.value < |installed| && Normalize(installed[r.value].name) == Normalize(selected.value))
      && (r.Some? ==> forall k {:trigger Normalize(installed[k].name)} :: 0 <= k < r.value ==> Normalize(installed[k].name) != Normalize(selected.value))
      && (r.None? ==> !Selects(selected) || forall k {:trigger Normalize(installed[k].name)} :: 0 <= k < |installed| ==> Normalize(installed[k].name) != Normalize(selected.value))
  {
    if Selects(selected) {
      SelectFromFirst(installed, Normalize(selected.value), 0);
    }
  }

  /** How a load of the page ends. */
  datatype Page =
    | NoGamesInstalled                  // "No games installed."
    | LoadFailed                        // "Error loading library."
    | Listed(autoSelected: Option<nat>) // the cards, and the one opened automatically

  /**
   * `loadLibrary`: `installed` is what the installed-list request resolves to
   * (`None` when it fails) and `apiGames` what the catalogue request yields
   * (`None` when the request or its JSON decoding fails). The catalogue is only
   * consulted when some game is installed.
   */
  method LoadLibrary(installed: Option<seq<InstalledGame>>, apiGames: Option<seq<Game>>, selected: Option<string>)
    returns (page: Page, cards: seq<Card>)
    ensures installed.None? ==> page == LoadFailed && cards == []
    ensures installed == Some([]) ==> page == NoGamesInstalled && cards == []
    ensures installed.Some? && installed.value != [] && apiGames.None? ==> page == LoadFailed && cards == []
    ensures installed.Some? && installed.value != [] && apiGames.Some? ==>
      && page == Listed(AutoSelect(installed.value, selected))
      && CardsFor(cards, installed.value, apiGames.value)
    ensures forall k :: 0 <= k < |cards| ==> fresh(cards[k])
  {
    if installed.None? {
      return LoadFailed, [];
    }
    if |installed.value| == 0 {
      return NoGamesInstalled, [];
    }
    if apiGames.None? {
      return LoadFailed, [];
    }
    var choice;
    cards, choice := BuildCards(installed.value, apiGames.value, selected);
    page := Listed(choice);
  }

  /** One displayed card per installed game, in list order, each with its cover image. */
  predicate CardsFor(cards: seq<Card>, installed: seq<InstalledGame>, apiGames: seq<Game>)
    reads cards
  {
    |cards| == |installed| && forall k :: 0 <= k < |cards| ==> CardFor(cards[k], installed[k], apiGames)
  }

  predicate CardFor(card: Card, g: InstalledGame, apiGames: seq<Game>)
    reads card
  {
    card.name == g.name && card.image == Some(CoverImage(apiGames, g.name)) && card.shown
  }

  /** The card of one installed game, showing its cover image. */
  method MakeCard(g: InstalledGame, apiGames: seq<Game>) returns (card: Card)
    ensures fresh(card) && CardFor(card, g, apiGames)
  {
    card := new Card(g.name, Some(CoverImage(apiGames, g.name)));
  }

  /** What is known after the first `i` installed games are visited: the auto-selected index so far. */
  predicate ChoiceSoFar(installed: seq<InstalledGame>, selected: Option<string>, title: string, choice: Option<nat>, i: nat)
    requires i <= |installed|
  {
    && (!Selects(selected) ==> choice.None?)
    && (Selects(selected) && choice.Some? ==> choice == SelectFrom(installed, title, 0))
    && (Selects(selected) && choice.None? ==> SelectFrom(installed, title, i) == SelectFrom(installed, title, 0))
  }

  /** The test inside the loop: this game is the first to match `selected`. */
  method MaybeSelect(installed: seq<InstalledGame>, selected: Option<string>, title: string,
                     choice: Option<nat>, autoSelected: bool, i: nat)
    returns (choice': Option<nat>, autoSelected': bool)
    requires i < |installed| && (autoSelected <==> choice.Some?)
    requires ChoiceSoFar(installed, selected, title, choice, i)
    ensures (autoSelected' <==> choice'.Some?) && ChoiceSoFar(installed, selected, title, choice', i + 1)
  {
    choice', autoSelected' := choice, autoSelected;
    if !autoSelected && Selects(selected) && Normalize(installed[i].name) == title {
      choice' := Some(i);
      autoSelected' := true;
    }
  }

  /** The `installed.forEach` loop: it pushes one card per game and flips `autoSelected` at the first match. */
  method BuildCards(installed: seq<InstalledGame>, apiGames: seq<Game>, selected: Option<string>)
    returns (cards: seq<Card>, choice: Option<nat>)
    ensures CardsFor(cards, installed, apiGames)
    ensures forall k :: 0 <= k < |cards| ==> fresh(cards[k])
    ensures choice == AutoSelect(installed, selected)
  {
    var title := if Selects(selected) then Normalize(selected.value) else [];
    cards := [];
    choice := None;
    var autoSelected := false;
    var i := 0;
    while i < |installed|
      invariant 0 <= i <= |installed|
      invariant |cards| == i
      invariant forall k :: 0 <= k < i ==> CardFor(cards[k], installed[k], apiGames)
      invariant forall k :: 0 <= k < i ==> fresh(cards[k])
      invariant autoSelected <==> choice.Some?
      invariant ChoiceSoFar(installed, selected, title, choice, i)
    {
      var card := MakeCard(installed[i], apiGames);
      cards := cards + [card];
      choice, autoSelected := MaybeSelect(installed, selected, title, choice, autoSelected, i);
      i := i + 1;
    }
    SelectionComplete(installed, selected, title, choice);
  }

  lemma SelectionComplete(installed: seq<InstalledGame>, selected: Option<string>, title: string, choice: Option<nat>)
    requires title == if Selects(selected) then Normalize(selected.value) else []
    requires ChoiceSoFar(installed, selected, title, choice, |installed|)
    ensures choice == AutoSelect(installed, selected)
  {
  }

  // ---- search --------------------------------------------------------------

  /** The search filter's test: the card's key contains the query's key. */
  predicate Matches(name: string, query: string) {
    Includes(NormalizeKey(name), NormalizeKey(query))
  }

  /** An empty query (or one that normalises to nothing) shows every card. */
  lemma EmptyQueryShowsAll(name: string, query: string)
    requires NormalizeKey(query) == []
    ensures Matches(name, query)
  {
    assert OccursAt(NormalizeKey(name), [], 0);
  }

  /** The search box's input handler: each card is shown exactly when its key contains the query's key. */
  method Search(cards: seq<Card>, query: string)
    modifies cards
    ensures forall k :: 0 <= k < |cards| ==> cards[k].shown == Matches(cards[k].name, query)
  {
    var q := NormalizeKey(query);
    var i := 0;
    while i < |cards|
      invariant 0 <= i <= |cards|
      invariant forall k :: 0 <= k < i ==> cards[k].shown == Matches(cards[k].name, query)
    {
      cards[i].shown := Includes(NormalizeKey(cards[i].name), q);
      i := i + 1;
    }
  }
}
