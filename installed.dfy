/**
 * The `list-installed-games` and `run-game` handlers of frontend/main.js: which
 * directories under the apps directory count as installed games, the cover each
 * one gets, and the executable a launch looks for.
 */
module InstalledGames {
  import opened Common
  import opened Text
  import opened Paths
  import opened Catalog
  import opened Events
  import opened CoverSearch

  /** `/^[\w]/.test(name) && !name.startsWith('_')`: starts with a letter or a digit. */
  predicate KeepsName(name: string) {
    name != [] && IsWordChar(name[0]) && name[0] != '_'
  }

  predicate IsGameDir(e: Entry) { e.Dir? && KeepsName(e.name) }

  /** The `filter` over the apps directory's entries, in listing order. */
  function GameDirs(es: seq<Entry>): seq<Entry>
    decreases |es|
  {
    if es == [] then []
    else GameDirs(es[..|es| - 1]) + (if IsGameDir(es[|es| - 1]) then [es[|es| - 1]] else [])
  }

  /** An entry is listed exactly when it is a directory with a kept name. */
  lemma {:induction false} GameDirsMembers(es: seq<Entry>, e: Entry)
    ensures e in GameDirs(es) <==> e in es && IsGameDir(e)
    decreases |es|
  {
    if es != [] {
      GameDirsMembers(es[..|es| - 1], e);
      assert es == es[..|es| - 1] + [es[|es| - 1]];
    }
  }

  lemma {:induction false} GameDirsShape(es: seq<Entry>)
    ensures |GameDirs(es)| <= |es|
    ensures forall k :: 0 <= k < |GameDirs(es)| ==> IsGameDir(GameDirs(es)[k])
    decreases |es|
  {
    if es != [] {
      GameDirsShape(es[..|es| - 1]);
    }
  }

  /** The installed list built from the kept directories: the first directory whose search fails makes the whole list fail. */
  function Listed(apps: string, dirs: seq<Entry>): Result<seq<InstalledGame>, string>
    requires forall k :: 0 <= k < |dirs| ==> dirs[k].Dir?
    decreases |dirs|
  {
    if dirs == [] then Ok([])
    else
      var d := dirs[|dirs| - 1];
      match Listed(apps, dirs[..|dirs| - 1])
      case Err(path) => Err(path)
      case Ok(games) =>
        match Outcome(Stops(Join(apps, d.name), d.listing))
        case Err(path) => Err(path)
        case Ok(cover) => Ok(games + [InstalledGame(d.name, cover)])
  }

  /** The handler's answer for the apps directory `apps`, absent (`None`) or present with `listing`. */
  function InstalledList(apps: string, listing: Option<Listing>): Result<seq<InstalledGame>, string> {
    match listing
    case None => Ok([])
    case Some(Unreadable) => Err(apps)
    case Some(Entries(es)) =>
      GameDirsShape(es);
      Listed(apps, GameDirs(es))
  }

  /** The filter step: keeps the directories with kept names, in listing order. */
  method FilterGameDirs(es: seq<Entry>) returns (dirs: seq<Entry>)
    ensures dirs == GameDirs(es)
  {
    dirs := [];
    for i := 0 to |es|
      invariant dirs == GameDirs(es[..i])
    {
      assert es[..i + 1][..i] == es[..i];
      if es[i].Dir? && KeepsName(es[i].name) {
        dirs := dirs + [es[i]];
      }
    }
    assert es[..|es|] == es;
  }

  /** `list-installed-games`: `[]` without an apps directory, otherwise one entry per kept directory with its cover. */
  method ListInstalled(apps: string, listing: Option<Listing>) returns (r: Result<seq<InstalledGame>, string>)
    ensures r == InstalledList(apps, listing)
  {
    if listing.None? {
      return Ok([]);
    }
    if listing.value.Unreadable? {
      return Err(apps);
    }
    var dirs := FilterGameDirs(listing.value.entries);
    GameDirsShape(listing.value.entries);
    var games: seq<InstalledGame> := [];
    for i := 0 to |dirs|
      invariant Listed(apps, dirs[..i]) == Ok(games)
    {
      assert dirs[..i + 1][..i] == dirs[..i];
      var d := dirs[i];
      var cover := FindCover(Join(apps, d.name), d.listing);
      if cover.Err? {
        ListedFailsOnward(apps, dirs, i + 1);
        return Err(cover.error);
      }
      games := games + [InstalledGame(d.name, cover.value)];
    }
    assert dirs[..|dirs|] == dirs;
    return Ok(games);
  }

  lemma {:induction false} ListedFailsOnward(apps: string, dirs: seq<Entry>, i: nat)
    requires forall k :: 0 <= k < |dirs| ==> dirs[k].Dir?
    requires i <= |dirs| && Listed(apps, dirs[..i]).Err?
    ensures Listed(apps, dirs) == Listed(apps, dirs[..i])
    decreases |dirs| - i
  {
    if i < |dirs| {
      var next := dirs[..i + 1];
      assert next[..i] == dirs[..i];
      ListedFailsOnward(apps, dirs, i + 1);
    } else {
      assert dirs[..i] == dirs;
    }
  }

  /**
   * A successful list names the kept directories one for one, in listing order
   * (nothing is sorted, and nothing looks for an executable), and each cover is
   * what the walk of that directory found.
   */
  lemma {:induction false} ListedNames(apps: string, dirs: seq<Entry>)
    requires forall k :: 0 <= k < |dirs| ==> dirs[k].Dir?
    ensures var r := Listed(apps, dirs);
      r.Ok? ==> (
        && |r.value| == |dirs|
        && forall k :: 0 <= k < |dirs| ==>
             r.value[k].name == dirs[k].name &&
             Ok(r.value[k].cover) == Outcome(Stops(Join(apps, dirs[k].name), dirs[k].listing)))
    decreases |dirs|
  {
    if dirs != [] {
      ListedNames(apps, dirs[..|dirs| - 1]);
    }
  }

  /** The list fails exactly when the walk of some kept directory fails. */
  lemma {:induction false} ListedFails(apps: string, dirs: seq<Entry>)
    requires forall k :: 0 <= k < |dirs| ==> dirs[k].Dir?
    ensures Listed(apps, dirs).Err? <==>
      exists k :: 0 <= k < |dirs| && Outcome(Stops(Join(apps, dirs[k].name), dirs[k].listing)).Err?
    decreases |dirs|
  {
    if dirs != [] {
      var init := dirs[..|dirs| - 1];
      ListedFails(apps, init);
      assert forall k :: 0 <= k < |init| ==> init[k] == dirs[k];
    }
  }

  /** A missing apps directory lists nothing; an unreadable one makes the handler fail. */
  lemma InstalledListCases(apps: string, listing: Option<Listing>)
    ensures listing.None? ==> InstalledList(apps, listing) == Ok([])
    ensures listing == Some(Unreadable) ==> InstalledList(apps, listing) == Err(apps)
    ensures var r := InstalledList(apps, listing);
      listing.Some? && listing.value.Entries? && r.Ok? ==>
        var dirs := GameDirs(listing.value.entries);
        |r.value| == |dirs| && forall k :: 0 <= k < |dirs| ==> r.value[k].name == dirs[k].name && KeepsName(dirs[k].name)
  {
    if listing.Some? && listing.value.Entries? {
      GameDirsShape(listing.value.entries);
      ListedNames(apps, GameDirs(listing.value.entries));
    }
  }

  // ---- run-game ------------------------------------------------------------------

  /** `<apps>/<name>/<name>.exe`. */
  function ExePath(apps: string, name: string): string {
    Join(Join(apps, name), name + ".exe")
  }

  const ExeMissing: string := "Game executable not found"

  /**
   * `run-game`: the existing files are `files`; the launch is `wine <exe>` on Linux and
   * the executable itself elsewhere.
   */
  function RunGame(apps: string, name: string, files: set<string>, platform: string): Result<Action, string> {
    var exe := ExePath(apps, name);
    if exe !in files then Err(ExeMissing)
    else if platform == "linux" then Ok(Spawn("wine", [exe]))
    else Ok(Spawn(exe, []))
  }

  /**
   * Only `<apps>/<name>/<name>.exe` matters: the launch fails exactly when it is
   * missing, and otherwise runs exactly that file.
   */
  lemma RunGameLooksAtOnePath(apps: string, name: string, files1: set<string>, files2: set<string>, platform: string)
    requires ExePath(apps, name) in files1 <==> ExePath(apps, name) in files2
    ensures RunGame(apps, name, files1, platform) == RunGame(apps, name, files2, platform)
    ensures RunGame(apps, name, files1, platform).Err? <==> ExePath(apps, name) !in files1
    ensures RunGame(apps, name, files1, platform).Err? ==> RunGame(apps, name, files1, platform).error == ExeMissing
    ensures var r := RunGame(apps, name, files1, platform);
      r.Ok? ==> (if platform == "linux" then r.value.program == "wine" && r.value.args == [ExePath(apps, name)]
                 else r.value.program == ExePath(apps, name) && r.value.args == [])
  {
  }
}
