/**
 * The store page (frontend/store.js): catalogue cards for the games that are not
 * installed yet, a search box, the archive name a download is saved under, and the
 * progress line that follows the download and install events.
 */
module Store {
  import opened Common
  import opened Text
  import opened Catalog
  import opened Cards
  import opened Events

  // ---- the store's search key ------------------------------------------------

  /** The characters `/[-_\s]/g` deletes. */
  predicate IsKeySeparator(c: char) { c == '-' || c == '_' || IsSpace(c) }

  function DropSeparators(s: string): string {
    if s == [] then []
    else (if IsKeySeparator(s[0]) then [] else [s[0]]) + DropSeparators(s[1..])
  }

  /** `normalizeKey` of frontend/store.js: lower-case, then delete every '-', '_' and whitespace; a missing or empty name gives "". */
  function StoreKey(s: string): string {
    DropSeparators(Lower(s))
  }

  lemma {:induction false} DropSeparatorsShape(s: string)
    ensures forall c :: c in DropSeparators(s) ==> c in s && !IsKeySeparator(c)
    ensures (forall c :: c in s ==> !IsKeySeparator(c)) ==> DropSeparators(s) == s
    ensures |DropSeparators(s)| <= |s|
  {
    if s != [] {
      DropSeparatorsShape(s[1..]);
      assert forall c :: c in s[1..] ==> c in s;
      assert s == [s[0]] + s[1..];
    }
  }

  lemma {:induction false} DropSeparatorsConcat(a: string, b: string)
    ensures DropSeparators(a + b) == DropSeparators(a) + DropSeparators(b)
  {
    if a == [] {
      assert a + b == b;
    } else {
      assert (a + b)[0] == a[0];
      assert (a + b)[1..] == a[1..] + b;
      DropSeparatorsConcat(a[1..], b);
    }
  }

  /** The key holds no upper-case letter and none of the deleted characters. */
  lemma StoreKeyShape(s: string)
    ensures s == [] ==> StoreKey(s) == []
    ensures forall c :: c in StoreKey(s) ==> !IsUpper(c) && !IsKeySeparator(c)
  {
    DropSeparatorsShape(Lower(s));
  }

  /**
   * The key is built character by character: a '-', '_' or whitespace character
   * contributes nothing, any other character its lower-case form.
   */
  lemma StoreKeyByCharacter(a: string, b: string, c: char)
    ensures StoreKey(a + b) == StoreKey(a) + StoreKey(b)
    ensures StoreKey([c]) == if IsKeySeparator(c) then [] else [LowerChar(c)]
  {
    LowerConcat(a, b);
    DropSeparatorsConcat(Lower(a), Lower(b));
    assert Lower([c]) == [LowerChar(c)];
    assert DropSeparators([LowerChar(c)]) == (if IsKeySeparator(LowerChar(c)) then [] else [LowerChar(c)]) + DropSeparators([]);
  }

  /** Taking the key of a key changes nothing. */
  lemma StoreKeyIdempotent(s: string)
    ensures StoreKey(StoreKey(s)) == StoreKey(s)
  {
    var k := StoreKey(s);
    StoreKeyShape(s);
    assert Lower(k) == k;
    DropSeparatorsShape(k);
  }

  /** Deleting or inserting a '-', '_' or whitespace character anywhere does not change the key. */
  lemma StoreKeyIgnoresSeparator(a: string, c: char, b: string)
    requires IsKeySeparator(c)
    ensures StoreKey(a + [c] + b) == StoreKey(a + b)
  {
    LowerConcat(a + [c], b);
    LowerConcat(a, [c]);
    LowerConcat(a, b);
    DropSeparatorsConcat(Lower(a) + Lower([c]), Lower(b));
    DropSeparatorsConcat(Lower(a), Lower([c]));
    DropSeparatorsConcat(Lower(a), Lower(b));
    assert Lower([c]) == [c];
    assert DropSeparators([c]) == [];
  }

  /** Changing the case of an ASCII letter does not change the key. */
  lemma StoreKeyIgnoresCase(a: string, x: char, y: char, b: string)
    requires LowerChar(x) == LowerChar(y)
    ensures StoreKey(a + [x] + b) == StoreKey(a + [y] + b)
  {
    assert Lower(a + [x] + b) == Lower(a + [y] + b);
  }

  /** Lower-case ASCII letters are all kept. */
  lemma {:induction false} DropSeparatorsKeepsLetters(s: string)
    requires forall i :: 0 <= i < |s| ==> 'a' <= s[i] <= 'z'
    ensures DropSeparators(s) == s
  {
    if s != [] {
      DropSeparatorsKeepsLetters(s[1..]);
      assert s == [s[0]] + s[1..];
    }
  }

  /** A separator between two pieces is dropped. */
  lemma DropSeparatorBetween(a: string, c: char, b: string)
    requires IsKeySeparator(c)
    ensures DropSeparators(a + [c] + b) == DropSeparators(a) + DropSeparators(b)
  {
    assert DropSeparators([c]) == [] by {
      assert [c][1..] == [];
    }
    DropSeparatorsConcat(a + [c], b);
    DropSeparatorsConcat(a, [c]);
  }

  lemma MyGameLetters()
    ensures DropSeparators("my") == "my" && DropSeparators("game") == "game"
  {
    DropSeparatorsKeepsLetters("my");
    DropSeparatorsKeepsLetters("game");
  }

  lemma SpacedLower()
    ensures Lower("My Game") == "my game"
  {
  }

  lemma SpacedSplit()
    ensures DropSeparators("my game") == DropSeparators("my") + DropSeparators("game")
  {
    assert "my game" == "my" + [' '] + "game";
    DropSeparatorBetween("my", ' ', "game");
  }

  lemma SpacedDropped()
    ensures DropSeparators("my game") == "mygame"
  {
    SpacedSplit();
    MyGameLetters();
  }

  lemma MyGameSpaceKey()
    ensures StoreKey("My Game") == "mygame"
  {
    assert StoreKey("My Game") == DropSeparators(Lower("My Game"));
    SpacedLower();
    SpacedDropped();
  }

  lemma UnderscoredLower()
    ensures Lower("my_game") == "my_game"
  {
  }

  lemma UnderscoredSplit()
    ensures DropSeparators("my_game") == DropSeparators("my") + DropSeparators("game")
  {
    assert "my_game" == "my" + ['_'] + "game";
    DropSeparatorBetween("my", '_', "game");
  }

  lemma UnderscoredDropped()
    ensures DropSeparators("my_game") == "mygame"
  {
    UnderscoredSplit();
    MyGameLetters();
  }

  lemma MyGameUnderscoreKey()
    ensures StoreKey("my_game") == "mygame"
  {
    assert StoreKey("my_game") == DropSeparators(Lower("my_game"));
    UnderscoredLower();
    UnderscoredDropped();
  }

  lemma DashedLower()
    ensures Lower("MY-GAME") == "my-game"
  {
  }

  lemma DashedSplit()
    ensures DropSeparators("my-game") == DropSeparators("my") + DropSeparators("game")
  {
    assert "my-game" == "my" + ['-'] + "game";
    DropSeparatorBetween("my", '-', "game");
  }

  lemma DashedDropped()
    ensures DropSeparators("my-game") == "mygame"
  {
    DashedSplit();
    MyGameLetters();
  }

  lemma MyGameDashKey()
    ensures StoreKey("MY-GAME") == "mygame"
  {
    assert StoreKey("MY-GAME") == DropSeparators(Lower("MY-GAME"));
    DashedLower();
    DashedDropped();
  }

  // ---- catalogue cards -------------------------------------------------------

  /** `installed.some(game => normalizeKey(game.name) === normalizeKey(name))`. */
  predicate IsInstalled(installed: seq<InstalledGame>, name: string) {
    exists k :: 0 <= k < |installed| && StoreKey(installed[k].name) == StoreKey(name)
  }

  /** The catalogue games that get a card: those not installed, in catalogue order. */
  function NotInstalled(games: seq<Game>, installed: seq<InstalledGame>): seq<Game>
    decreases |games|
  {
    if games == [] then []
    else
      var last := games[|games| - 1];
      NotInstalled(games[..|games| - 1], installed) + (if IsInstalled(installed, last.name) then [] else [last])
  }

  /** A catalogue game gets a card exactly when no installed game has the same key. */
  lemma {:induction false} NotInstalledMembers(games: seq<Game>, installed: seq<InstalledGame>, g: Game)
    ensures g in NotInstalled(games, installed) <==> g in games && !IsInstalled(installed, g.name)
    decreases |games|
  {
    if games != [] {
      var init := games[..|games| - 1];
      NotInstalledMembers(init, installed, g);
      assert games == init + [games[|games| - 1]];
    }
  }

  /** The filter works piece by piece, so the cards keep catalogue order. */
  lemma {:induction false} NotInstalledConcat(a: seq<Game>, b: seq<Game>, installed: seq<InstalledGame>)
    ensures NotInstalled(a + b, installed) == NotInstalled(a, installed) + NotInstalled(b, installed)
    decreases |b|
  {
    if b == [] {
      assert a + b == a;
    } else {
      var init := b[..|b| - 1];
      NotInstalledConcat(a, init, installed);
      assert (a + b)[..|a + b| - 1] == a + init;
    }
  }

  /** One displayed card per listed game, carrying its name and cover. */
  predicate CardsShow(cards: seq<Card>, games: seq<Game>)
    reads cards
  {
    && |cards| == |games|
    && forall k :: 0 <= k < |cards| ==>
         cards[k].name == games[k].name && cards[k].image == games[k].coverUrl && cards[k].shown
  }

  /** The `games.forEach` loop: a card for each game that is not installed. */
  method CatalogCards(games: seq<Game>, installed: seq<InstalledGame>) returns (cards: seq<Card>)
    ensures CardsShow(cards, NotInstalled(games, installed))
    ensures forall k :: 0 <= k < |cards| ==> fresh(cards[k])
  {
    cards := [];
    var i := 0;
    while i < |games|
      invariant 0 <= i <= |games|
      invariant CardsShow(cards, NotInstalled(games[..i], installed))
      invariant forall k :: 0 <= k < |cards| ==> fresh(cards[k])
    {
      var g := games[i];
      assert games[..i + 1][..i] == games[..i];
      if !IsInstalled(installed, g.name) {
        var card := new Card(g.name, g.coverUrl);
        cards := cards + [card];
      }
      i := i + 1;
    }
    assert games[..i] == games;
  }

  // ---- search ----------------------------------------------------------------

  predicate Matches(name: string, query: string) {
    Includes(StoreKey(name), StoreKey(query))
  }

  /** An empty query shows every card. */
  lemma EmptyQueryShowsAll(name: string)
    ensures Matches(name, "")
  {
    assert OccursAt(StoreKey(name), [], 0);
  }

  /** The search box's input handler: each card is shown exactly when its key contains the query's key. */
  method Search(cards: seq<Card>, query: string)
    modifies cards
    ensures forall k :: 0 <= k < |cards| ==> cards[k].shown == Matches(cards[k].name, query)
  {
    var q := StoreKey(query);
    var i := 0;
    while i < |cards|
      invariant 0 <= i <= |cards|
      invariant forall k :: 0 <= k < i ==> cards[k].shown == Matches(cards[k].name, query)
    {
      cards[i].shown := Includes(StoreKey(cards[i].name), q);
      i := i + 1;
    }
  }

  // ---- the archive name --------------------------------------------------------

  const ArchiveExtension: string := ".rar"

  /** `g.name.replace(/\s+/g, '_') + '.rar'`: the name the archive is saved under. */
  function DownloadFilename(name: string): (r: string)
    ensures NoSpace(r)
    ensures |r| >= |ArchiveExtension| && r[|r| - |ArchiveExtension|..] == ArchiveExtension
  {
    ReplaceSpaceRunsShape(name, '_');
    ReplaceSpaceRuns(name, '_') + ArchiveExtension
  }

  /** The filename keeps every character of the name other than whitespace and '_', in order, before ".rar". */
  lemma DownloadFilenameKeepsName(name: string)
    ensures Squash(DownloadFilename(name), '_') == Squash(name, '_') + ArchiveExtension
  {
    ReplaceSpaceRunsKeepsText(name, '_');
    SquashConcat(ReplaceSpaceRuns(name, '_'), ArchiveExtension, '_');
    assert Squash(ArchiveExtension, '_') == ArchiveExtension;
  }

  /** A name without whitespace is saved under itself plus ".rar". */
  lemma DownloadFilenameOfPlainName(name: string)
    requires NoSpace(name)
    ensures DownloadFilename(name) == name + ArchiveExtension
  {
    ReplaceSpaceRunsFixed(name, '_');
  }

  /**
   * Each whole run of whitespace in the name, of any length, turns into one '_':
   * the text before the run is converted on its own, and the text after it keeps
   * the name it would be saved under by itself.
   */
  lemma DownloadFilenameJoinsRun(a: string, w: string, b: string)
    requires a == [] || !IsSpace(a[|a| - 1])
    requires w != [] && forall i :: 0 <= i < |w| ==> IsSpace(w[i])
    requires b == [] || !IsSpace(b[0])
    ensures DownloadFilename(a + w + b) == ReplaceSpaceRuns(a, '_') + ['_'] + DownloadFilename(b)
  {
    AppendAssoc(a, w, b);
    ReplaceSpaceRunsConcat(a, w + b, '_');
    ReplaceSpaceRunOnce(w, b, '_');
    AppendAssoc(ReplaceSpaceRuns(a, '_'), ['_'], ReplaceSpaceRuns(b, '_'));
    AppendAssoc(ReplaceSpaceRuns(a, '_') + ['_'], ReplaceSpaceRuns(b, '_'), ArchiveExtension);
  }

  // ---- the progress line -------------------------------------------------------

  /** `total ? Math.round(received / total * 100) : 0`, in exact arithmetic. */
  function DownloadPercent(received: nat, total: nat): (p: nat)
    ensures total == 0 ==> p == 0
    ensures total > 0 ==> 2 * total * p <= 200 * received + total < 2 * total * (p + 1)
  {
    if total == 0 then 0 else (200 * received + total) / (2 * total)
  }

  /** Multiplying both sides by the same positive factor keeps a strict order. */
  lemma CancelFactor(t: nat, a: nat, b: nat)
    requires t > 0 && t * a < t * b
    ensures a < b
  {
  }

  /** The percentage never exceeds 100 while no more than `total` bytes have arrived, and it is 100 once all have. */
  lemma PercentBounded(received: nat, total: nat)
    requires received <= total
    ensures DownloadPercent(received, total) <= 100
    ensures total > 0 && received == total ==> DownloadPercent(received, total) == 100
  {
    var p := DownloadPercent(received, total);
    if total > 0 {
      assert 2 * total * p < 2 * total * 101;
      CancelFactor(2 * total, p, 101);
      if received == total {
        assert 2 * total * 99 < 2 * total * (p + 1);
        CancelFactor(2 * total, 99, p + 1);
      }
    }
  }

  /** More bytes received never lowers the percentage. */
  lemma PercentMonotone(r1: nat, r2: nat, total: nat)
    requires r1 <= r2
    ensures DownloadPercent(r1, total) <= DownloadPercent(r2, total)
  {
    if total > 0 {
      var p1, p2 := DownloadPercent(r1, total), DownloadPercent(r2, total);
      assert 2 * total * p1 < 2 * total * (p2 + 1);
      CancelFactor(2 * total, p1, p2 + 1);
    }
  }

  datatype SizeUnit = MB | GB | TB

  const KiB: nat := 1024
  const MiB: nat := KiB * 1024
  const GiB: nat := MiB * 1024
  const TiB: nat := GiB * 1024

  function UnitSize(u: SizeUnit): nat {
    match u
    case MB => MiB
    case GB => GiB
    case TB => TiB
  }

  /** The unit the progress line uses for a download of `total` bytes. */
  function UnitFor(total: nat): SizeUnit {
    if total < GiB then MB else if total < TiB then GB else TB
  }

  /** The chosen unit shows the total as less than 1024 units (except in TB) and as at least one unit (except in MB). */
  lemma UnitScale(total: nat)
    ensures UnitFor(total) != TB ==> total < 1024 * UnitSize(UnitFor(total))
    ensures UnitFor(total) != MB ==> UnitSize(UnitFor(total)) <= total
    ensures UnitFor(total) == MB <==> total < GiB
    ensures UnitFor(total) == GB <==> GiB <= total < TiB
    ensures UnitFor(total) == TB <==> TiB <= total
  {
  }

  /** What the progress line says. */
  datatype Status =
    | Blank                                                             // ''
    | StartingDownload                                                  // 'Starting download…'
    | Downloading(percent: nat, unit: SizeUnit, received: nat, total: nat) // 'Downloading: <p>% (<r> <u> of <t> <u>)'
    | Downloaded                                                        // 'Download complete. Installing…'
    | InstallPressed                                                    // 'Installing…'
    | Installing(data: InstallData)                                     // 'Installing: <p>%' or 'Installing: <message>'
    | Installed(filename: string)                                       // 'Installation complete: <filename>'
    | InstallFailed(text: string)                                       // 'Installation failed: <text>'

  /** The overlay's progress line and buttons, updated by clicks and by the main process's events. */
  class ProgressPanel {
    var status: Status
    var downloadShown: bool
    var installShown: bool
    var libraryShown: bool
    var playShown: bool
    /** The game whose card was opened last: the download button's handler is bound to it. */
    var current: Option<Game>

    /**
     * The page's markup, which sets the buttons' initial visibility, is not part of this
     * model: a new panel is assumed to start blank with every button shown.
     */
    constructor ()
      ensures status == Blank && downloadShown && installShown && libraryShown && playShown
      ensures current == None
    {
      status := Blank;
      downloadShown, installShown, libraryShown, playShown := true, true, true, true;
      current := None;
    }

    /**
     * A click on the card of `g` clears the line, offers only the download button (the
     * play button is left alone) and rebinds the download button to `g`.
     */
    method OpenCard(g: Game)
      modifies this
      ensures status == Blank && downloadShown && !installShown && !libraryShown
      ensures playShown == old(playShown)
      ensures current == Some(g)
    {
      status := Blank;
      downloadShown, installShown, libraryShown := true, false, false;
      current := Some(g);
    }

    /**
     * The download button: asks the main process to fetch the archive of the game whose
     * card was opened last, under its derived filename. Before any card was opened the
     * button has no handler and the click does nothing.
     */
    method ClickDownload() returns (request: Option<(string, string)>)
      modifies this
      ensures current.None? ==> request == None && status == old(status)
      ensures current.Some? ==>
        request == Some((current.value.downloadUrl, DownloadFilename(current.value.name))) &&
        status == StartingDownload
      ensures current == old(current)
      ensures downloadShown == old(downloadShown) && installShown == old(installShown)
      ensures libraryShown == old(libraryShown) && playShown == old(playShown)
    {
      request := None;
      if current.Some? {
        var g := current.value;
        var filename := DownloadFilename(g.name);
        request := Some((g.downloadUrl, filename));
        status := StartingDownload;
      }
    }

    method OnDownloadProgress(received: nat, total: nat)
      modifies this
      ensures current == old(current)
      ensures status == Downloading(DownloadPercent(received, total), UnitFor(total), received, total)
      ensures downloadShown == old(downloadShown) && installShown == old(installShown)
      ensures libraryShown == old(libraryShown) && playShown == old(playShown)
    {
      status := Downloading(DownloadPercent(received, total), UnitFor(total), received, total);
    }

    /** The download finished: the install button replaces the download button. */
    method OnDownloadComplete(path: string)
      modifies this
      ensures current == old(current)
      ensures status == Downloaded && installShown && !downloadShown
      ensures libraryShown == old(libraryShown) && playShown == old(playShown)
    {
      status := Downloaded;
      installShown, downloadShown := true, false;
    }

    method ClickInstall()
      modifies this
      ensures current == old(current)
      ensures status == InstallPressed
      ensures downloadShown == old(downloadShown) && installShown == old(installShown)
      ensures libraryShown == old(libraryShown) && playShown == old(playShown)
    {
      status := InstallPressed;
    }

    /** A percentage is shown when present, otherwise a non-empty message; an empty message leaves the line as it was. */
    method OnInstallProgress(data: InstallData)
      modifies this
      ensures current == old(current)
      ensures data.Percent? ==> status == Installing(data)
      ensures data.Message? && data.text != [] ==> status == Installing(data)
      ensures data.Message? && data.text == [] ==> status == old(status)
      ensures downloadShown == old(downloadShown) && installShown == old(installShown)
      ensures libraryShown == old(libraryShown) && playShown == old(playShown)
    {
      if data.Percent? {
        status := Installing(data);
      } else if data.text != [] {
        status := Installing(data);
      }
    }

    /** The install finished: play and library buttons appear, the install button goes. */
    method OnInstallComplete(filename: string)
      modifies this
      ensures current == old(current)
      ensures status == Installed(filename) && playShown && libraryShown && !installShown
      ensures downloadShown == old(downloadShown)
    {
      status := Installed(filename);
      playShown, installShown, libraryShown := true, false, true;
    }

    method OnInstallError(text: string)
      modifies this
      ensures current == old(current)
      ensures status == InstallFailed(text)
      ensures downloadShown == old(downloadShown) && installShown == old(installShown)
      ensures libraryShown == old(libraryShown) && playShown == old(playShown)
    {
      status := InstallFailed(text);
    }
  }
}
