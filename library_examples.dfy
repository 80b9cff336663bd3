/**
 * Worked titles for the library normaliser (frontend/library.js), each computed pass by
 * pass: one lemma per pass and title, then a chain lemma puts the passes together.
 */
module LibraryExamples {
  import opened Common
  import opened Text
  import opened LibraryNames

  // ---- chaining the passes ---------------------------------------------------

  /** `normalize` of a title, given what each pass of the chain makes of it. */
  lemma NormalizeChain(s: string, l: string, g: string, p: string, v: string, d: string, c: string, t: string)
    requires s != []
    requires Lower(s) == l && ReplaceAll(Group, l) == g && ReplaceAll(Separator, g) == p
    requires ReplaceAll(VersionToken, p) == v && ReplaceAll(DottedNumber, v) == d
    requires ReplaceSpaceRuns(d, ' ') == c && Trim(c) == t
    ensures Normalize(s) == t
  {
    NormalizeUnfolds(s);
  }

  /** Words followed by two spaces collapse to the words and one space, which trims away. */
  lemma WordsThenTwoSpaces(w: string)
    requires w != [] && !IsSpace(w[0]) && !IsSpace(w[|w| - 1])
    requires ReplaceSpaceRuns(w, ' ') == w
    ensures ReplaceSpaceRuns(w + "  ", ' ') == w + " "
    ensures Trim(w + " ") == w
  {
    ReplaceSpaceRunsConcat(w, "  ", ' ');
    TwoSpaces();
    TrimPadded(w);
  }

  lemma TwoSpaces()
    ensures ReplaceSpaceRuns("  ", ' ') == " "
  {
  }

  /** A '-' or '_' becomes one space. */
  lemma SeparatorAt(s: string, i: nat)
    requires i < |s| && (s[i] == '-' || s[i] == '_')
    ensures Replace(Separator, s, i) == " " + Replace(Separator, s, i + 1)
  {
    assert MatchAt(Separator, s, i) == Some(i + 1);
  }

  /** "my", one separator, "game": the separator pass turns it into "my game". */
  lemma MyGameSeparated(s: string)
    requires |s| == 7 && s[..2] == "my" && s[3..] == "game" && (s[2] == '-' || s[2] == '_')
    ensures ReplaceAll(Separator, s) == "my game"
  {
    CopyPlain(Separator, s, 0, 2);
    SeparatorAt(s, 2);
    CopyPlain(Separator, s, 3, 7);
    assert s[3..7] == s[3..];
  }

  // ---- "Left 4 Dead (v1.2)" -------------------------------------------------

  lemma LeftForDeadLower()
    ensures Lower("Left 4 Dead (v1.2)") == "left 4 dead (v1.2)"
  {
    LowerConcat("Left 4 ", "Dead (v1.2)");
    assert Lower("Left 4 ") == "left 4 ";
    assert Lower("Dead (v1.2)") == "dead (v1.2)";
    assert "Left 4 " + "Dead (v1.2)" == "Left 4 Dead (v1.2)";
  }

  lemma LeftForDeadGroupAt()
    ensures Replace(Group, "left 4 dead (v1.2)", 12) == " "
  {
    var s := "left 4 dead (v1.2)";
    assert CloseFrom(s, 13) == Some(17);
    assert MatchAt(Group, s, 12) == Some(18);
  }

  lemma LeftForDeadGroup()
    ensures ReplaceAll(Group, "left 4 dead (v1.2)") == "left 4 dead  "
  {
    var s := "left 4 dead (v1.2)";
    CopyPlain(Group, s, 0, 12);
    LeftForDeadGroupAt();
    assert s[0..12] == "left 4 dead ";
  }

  lemma LeftForDeadSeparator()
    ensures ReplaceAll(Separator, "left 4 dead  ") == "left 4 dead  "
  {
    Unchanged(Separator, "left 4 dead  ");
  }

  lemma LeftForDeadVersion()
    ensures ReplaceAll(VersionToken, "left 4 dead  ") == "left 4 dead  "
  {
    Unchanged(VersionToken, "left 4 dead  ");
  }

  lemma LeftForDeadNumber()
    ensures ReplaceAll(DottedNumber, "left 4 dead  ") == "left 4 dead  "
  {
    Unchanged(DottedNumber, "left 4 dead  ");
  }

  lemma LeftForDeadWords()
    ensures ReplaceSpaceRuns("left 4 dead", ' ') == "left 4 dead"
  {
    ReplaceSpaceRunsFixed("left 4 dead", ' ');
  }

  lemma LeftForDeadCollapse()
    ensures ReplaceSpaceRuns("left 4 dead  ", ' ') == "left 4 dead "
    ensures Trim("left 4 dead ") == "left 4 dead"
  {
    LeftForDeadWords();
    WordsThenTwoSpaces("left 4 dead");
    assert "left 4 dead" + "  " == "left 4 dead  ";
    assert "left 4 dead" + " " == "left 4 dead ";
  }

  /** The bracketed version goes with its group; the lone "4" is not a version and stays. */
  lemma LeftForDead()
    ensures Normalize("Left 4 Dead (v1.2)") == "left 4 dead"
  {
    LeftForDeadLower();
    LeftForDeadGroup();
    LeftForDeadSeparator();
    LeftForDeadVersion();
    LeftForDeadNumber();
    LeftForDeadCollapse();
    NormalizeChain("Left 4 Dead (v1.2)", "left 4 dead (v1.2)", "left 4 dead  ", "left 4 dead  ",
      "left 4 dead  ", "left 4 dead  ", "left 4 dead ", "left 4 dead");
  }

  // ---- "Half-Life_2" --------------------------------------------------------

  lemma HalfLifeLower()
    ensures Lower("Half-Life_2") == "half-life_2"
  {
  }

  lemma HalfLifeGroup()
    ensures ReplaceAll(Group, "half-life_2") == "half-life_2"
  {
    Unchanged(Group, "half-life_2");
  }

  lemma HalfLifeTail()
    ensures Replace(Separator, "half-life_2", 5) == "life 2"
  {
    var s := "half-life_2";
    CopyPlain(Separator, s, 5, 9);
    SeparatorAt(s, 9);
    CopyPlain(Separator, s, 10, 11);
    assert s[5..9] == "life" && s[10..11] == "2";
  }

  lemma HalfLifeHead()
    ensures Replace(Separator, "half-life_2", 0) == "half" + Replace(Separator, "half-life_2", 4)
  {
    CopyPlain(Separator, "half-life_2", 0, 4);
    assert "half-life_2"[0..4] == "half";
  }

  lemma HalfLifeSeparators()
    ensures ReplaceAll(Separator, "half-life_2") == "half life 2"
  {
    HalfLifeHead();
    SeparatorAt("half-life_2", 4);
    HalfLifeTail();
    HalfLifeText();
  }

  lemma HalfLifeText()
    ensures "half" + (" " + "life 2") == "half life 2"
  {
  }

  lemma HalfLifeVersion()
    ensures ReplaceAll(VersionToken, "half life 2") == "half life 2"
  {
    Unchanged(VersionToken, "half life 2");
  }

  lemma HalfLifeNumber()
    ensures ReplaceAll(DottedNumber, "half life 2") == "half life 2"
  {
    Unchanged(DottedNumber, "half life 2");
  }

  lemma HalfLifeTrimmed()
    ensures ReplaceSpaceRuns("half life 2", ' ') == "half life 2"
    ensures Trim("half life 2") == "half life 2"
  {
    ReplaceSpaceRunsFixed("half life 2", ' ');
    TrimPadded("half life 2");
  }

  /** '-' and '_' separate words like spaces do. */
  lemma HalfLife()
    ensures Normalize("Half-Life_2") == "half life 2"
  {
    HalfLifeLower();
    HalfLifeGroup();
    HalfLifeSeparators();
    HalfLifeVersion();
    HalfLifeNumber();
    HalfLifeTrimmed();
    NormalizeChain("Half-Life_2", "half-life_2", "half-life_2", "half life 2",
      "half life 2", "half life 2", "half life 2", "half life 2");
  }

  // ---- "Game v2" ------------------------------------------------------------

  lemma GameV2Lower()
    ensures Lower("Game v2") == "game v2"
  {
  }

  lemma GameV2Group()
    ensures ReplaceAll(Group, "game v2") == "game v2"
  {
    Unchanged(Group, "game v2");
  }

  lemma GameV2Separator()
    ensures ReplaceAll(Separator, "game v2") == "game v2"
  {
    Unchanged(Separator, "game v2");
  }

  lemma GameV2Token()
    ensures Replace(VersionToken, "game v2", 5) == " "
  {
    var s := "game v2";
    assert Boundary(s, 5);
    VersionPrefixes();
    assert WordAtCI(s, 5, "v");
    assert VersionAlternative(s, 5, 1) == Some(7);
    assert MatchAt(VersionToken, s, 5) == Some(7);
  }

  lemma GameV2Version()
    ensures ReplaceAll(VersionToken, "game v2") == "game  "
  {
    var s := "game v2";
    CopyPlain(VersionToken, s, 0, 5);
    GameV2Token();
    assert s[0..5] == "game ";
  }

  lemma GameNumber()
    ensures ReplaceAll(DottedNumber, "game  ") == "game  "
  {
    Unchanged(DottedNumber, "game  ");
  }

  lemma GameTrimmed()
    ensures ReplaceSpaceRuns("game  ", ' ') == "game "
    ensures Trim("game ") == "game"
  {
    ReplaceSpaceRunsFixed("game", ' ');
    WordsThenTwoSpaces("game");
    assert "game" + "  " == "game  ";
    assert "game" + " " == "game ";
  }

  /** A "v<digits>" token is removed. */
  lemma GameV2()
    ensures Normalize("Game v2") == "game"
  {
    GameV2Lower();
    GameV2Group();
    GameV2Separator();
    GameV2Version();
    GameNumber();
    GameTrimmed();
    NormalizeChain("Game v2", "game v2", "game v2", "game v2", "game  ", "game  ", "game ", "game");
  }

  // ---- "Game version1.2.3" --------------------------------------------------

  lemma GameVersionLower()
    ensures Lower("Game version1.2.3") == "game version1.2.3"
  {
  }

  lemma GameVersionGroup()
    ensures ReplaceAll(Group, "game version1.2.3") == "game version1.2.3"
  {
    Unchanged(Group, "game version1.2.3");
  }

  lemma GameVersionSeparator()
    ensures ReplaceAll(Separator, "game version1.2.3") == "game version1.2.3"
  {
    Unchanged(Separator, "game version1.2.3");
  }

  lemma VersionWordAt()
    ensures WordAtCI("game version1.2.3", 5, "version")
  {
  }

  lemma VersionSeparators()
    ensures SeparatorsEnd("game version1.2.3", 12) == 12
  {
  }

  lemma VersionNumber()
    ensures NumberEnd("game version1.2.3", 12, false) == Some(17)
  {
    var s := "game version1.2.3";
    assert DigitsEnd(s, 12) == 13;
    assert DigitsEnd(s, 14) == 15;
    assert DigitsEnd(s, 16) == 17;
    assert DotGroupsFrom(s, 17) == DotGroups(0, 17, 17);
    assert DotGroupsFrom(s, 15) == DotGroups(1, 15, 17);
    assert DotGroupsFrom(s, 13) == DotGroups(2, 15, 17);
  }

  lemma VersionWordAlternative()
    ensures VersionAlternative("game version1.2.3", 5, 7) == Some(17)
  {
    VersionPrefixes();
    VersionWordAt();
    VersionSeparators();
    VersionNumber();
  }

  /** An alternative whose word is followed, after any separators, by something other than a digit fails. */
  lemma NoDigitAfterWord(s: string, i: nat, n: nat, q: nat)
    requires n <= |VersionWord| && i + n <= |s| && WordAtCI(s, i, VersionWord[..n])
    requires SeparatorsEnd(s, i + n) == q && q < |s| && !IsDigit(s[q])
    ensures VersionAlternative(s, i, n) == None
  {
  }

  lemma VAt()
    ensures WordAtCI("game version1.2.3", 5, "v") && SeparatorsEnd("game version1.2.3", 6) == 6
    ensures !IsDigit("game version1.2.3"[6])
  {
  }

  lemma VerAt()
    ensures WordAtCI("game version1.2.3", 5, "ver") && SeparatorsEnd("game version1.2.3", 8) == 8
    ensures !IsDigit("game version1.2.3"[8])
  {
  }

  lemma VAlternative()
    ensures VersionAlternative("game version1.2.3", 5, 1) == None
  {
    VersionPrefixes();
    VAt();
    NoDigitAfterWord("game version1.2.3", 5, 1, 6);
  }

  lemma VerAlternative()
    ensures VersionAlternative("game version1.2.3", 5, 3) == None
  {
    VersionPrefixes();
    VerAt();
    NoDigitAfterWord("game version1.2.3", 5, 3, 8);
  }

  /** "v" and "ver" match at the start of "version", but no digit follows them. */
  lemma VersionShortAlternatives()
    ensures VersionAlternative("game version1.2.3", 5, 1) == None
    ensures VersionAlternative("game version1.2.3", 5, 3) == None
  {
    VAlternative();
    VerAlternative();
  }

  /** When the short alternatives fail at a boundary, the token is what "version" matches. */
  lemma LongestAlternative(s: string, i: nat)
    requires i < |s| && Boundary(s, i)
    requires VersionAlternative(s, i, 1).None? && VersionAlternative(s, i, 3).None?
    ensures MatchAt(VersionToken, s, i) == VersionAlternative(s, i, 7)
  {
  }

  lemma VersionTokenMatch()
    ensures MatchAt(VersionToken, "game version1.2.3", 5) == Some(17)
  {
    var s := "game version1.2.3";
    assert Boundary(s, 5) by {
      assert !IsWordChar(s[4]) && IsWordChar(s[5]);
    }
    VersionShortAlternatives();
    VersionWordAlternative();
    LongestAlternative(s, 5);
  }

  lemma GameVersionTail()
    ensures Replace(VersionToken, "game version1.2.3", 5) == " "
  {
    var s := "game version1.2.3";
    VersionTokenMatch();
    assert Replace(VersionToken, s, 17) == [];
  }

  lemma GameVersionToken()
    ensures ReplaceAll(VersionToken, "game version1.2.3") == "game  "
  {
    var s := "game version1.2.3";
    CopyPlain(VersionToken, s, 0, 5);
    GameVersionTail();
    assert s[0..5] == "game ";
  }

  /** A "version<digits>(.<digits>)*" token is removed whole. */
  lemma GameVersion()
    ensures Normalize("Game version1.2.3") == "game"
  {
    GameVersionLower();
    GameVersionGroup();
    GameVersionSeparator();
    GameVersionToken();
    GameNumber();
    GameTrimmed();
    NormalizeChain("Game version1.2.3", "game version1.2.3", "game version1.2.3", "game version1.2.3",
      "game  ", "game  ", "game ", "game");
  }

  // ---- a lone integer ------------------------------------------------------

  lemma LoneIntegerPasses()
    ensures ReplaceAll(Group, "4") == "4" && ReplaceAll(Separator, "4") == "4"
    ensures ReplaceAll(VersionToken, "4") == "4" && ReplaceAll(DottedNumber, "4") == "4"
  {
    Unchanged(Group, "4");
    Unchanged(Separator, "4");
    Unchanged(VersionToken, "4");
    Unchanged(DottedNumber, "4");
  }

  /** The dotted pattern needs at least one ".digits", so a plain number survives. */
  lemma LoneInteger()
    ensures Normalize("4") == "4"
  {
    LoneIntegerPasses();
    assert Lower("4") == "4";
    assert ReplaceSpaceRuns("4", ' ') == "4";
    TrimPadded("4");
    NormalizeChain("4", "4", "4", "4", "4", "4", "4", "4");
  }

  // ---- search keys ---------------------------------------------------------

  lemma MyGameGroup()
    ensures ReplaceAll(Group, "my game") == "my game"
  {
    Unchanged(Group, "my game");
  }

  lemma MyGameSeparator()
    ensures ReplaceAll(Separator, "my game") == "my game"
  {
    Unchanged(Separator, "my game");
  }

  lemma MyGameVersion()
    ensures ReplaceAll(VersionToken, "my game") == "my game"
  {
    Unchanged(VersionToken, "my game");
  }

  lemma MyGameNumber()
    ensures ReplaceAll(DottedNumber, "my game") == "my game"
  {
    Unchanged(DottedNumber, "my game");
  }

  lemma MyGameUnderscoreGroup()
    ensures ReplaceAll(Group, "my_game") == "my_game"
  {
    Unchanged(Group, "my_game");
  }

  lemma MyGameDashGroup()
    ensures ReplaceAll(Group, "my-game") == "my-game"
  {
    Unchanged(Group, "my-game");
  }

  lemma MyGameSeparators()
    ensures ReplaceAll(Separator, "my_game") == "my game"
    ensures ReplaceAll(Separator, "my-game") == "my game"
  {
    MyGameSeparated("my_game");
    MyGameSeparated("my-game");
  }

  lemma MyGameLowers()
    ensures Lower("My Game") == "my game"
    ensures Lower("my_game") == "my_game"
    ensures Lower("MY-GAME") == "my-game"
  {
  }

  lemma MyGameTrimmed()
    ensures ReplaceSpaceRuns("my game", ' ') == "my game"
    ensures Trim("my game") == "my game"
  {
    ReplaceSpaceRunsFixed("my game", ' ');
    TrimPadded("my game");
  }

  /** Two words around one space join up when the space is removed. */
  lemma JoinWords(a: string, b: string)
    requires NoSpace(a) && NoSpace(b)
    ensures RemoveSpaces(a + " " + b) == a + b
  {
    RemoveSpacesConcat(a + " ", b);
    RemoveSpacesConcat(a, " ");
    RemoveSpacesShape(a);
    RemoveSpacesShape(b);
    assert RemoveSpaces(" ") == [];
  }

  lemma MyGameJoined()
    ensures RemoveSpaces("my game") == "mygame"
  {
    assert NoSpace("my") && NoSpace("game");
    JoinWords("my", "game");
    assert "my" + " " + "game" == "my game";
    assert "my" + "game" == "mygame";
  }

  /** The three spellings all normalise to "my game". */
  lemma MyGameNormalized()
    ensures Normalize("My Game") == "my game"
    ensures Normalize("my_game") == "my game"
    ensures Normalize("MY-GAME") == "my game"
  {
    MyGameLowers();
    MyGameGroup();
    MyGameUnderscoreGroup();
    MyGameDashGroup();
    MyGameSeparator();
    MyGameSeparators();
    MyGameVersion();
    MyGameNumber();
    MyGameTrimmed();
    NormalizeChain("My Game", "my game", "my game", "my game", "my game", "my game", "my game", "my game");
    NormalizeChain("my_game", "my_game", "my_game", "my game", "my game", "my game", "my game", "my game");
    NormalizeChain("MY-GAME", "my-game", "my-game", "my game", "my game", "my game", "my game", "my game");
  }

  /** Case and separator variants of a title share one search key. */
  lemma MyGameKeys()
    ensures NormalizeKey("My Game") == "mygame"
    ensures NormalizeKey("my_game") == "mygame"
    ensures NormalizeKey("MY-GAME") == "mygame"
  {
    MyGameNormalized();
    MyGameJoined();
  }

  // ---- normalising twice ---------------------------------------------------

  lemma TabPasses()
    ensures ReplaceAll(Group, "v\t1") == "v\t1" && ReplaceAll(Separator, "v\t1") == "v\t1"
    ensures ReplaceAll(DottedNumber, "v\t1") == "v\t1"
  {
    Unchanged(Group, "v\t1");
    Unchanged(Separator, "v\t1");
    Unchanged(DottedNumber, "v\t1");
  }

  /** `[ _-]*` does not take the tab, so no version token starts anywhere in "v\t1". */
  lemma TabVersion()
    ensures ReplaceAll(VersionToken, "v\t1") == "v\t1"
  {
    CopyRun(VersionToken, "v\t1", 0, 3);
  }

  lemma TabCollapsed()
    ensures ReplaceSpaceRuns("v\t1", ' ') == "v 1"
  {
    var s := "v\t1";
    assert ReplaceSpaceRuns(s, ' ') == "v" + ReplaceSpaceRuns(s[1..], ' ');
    assert SpaceRun(s[1..]) == 1;
    assert ReplaceSpaceRuns(s[1..], ' ') == " " + ReplaceSpaceRuns("1", ' ');
  }

  lemma TabSeparatedVersion()
    ensures Normalize("v\t1") == "v 1"
  {
    assert Lower("v\t1") == "v\t1";
    TabPasses();
    TabVersion();
    TabCollapsed();
    TrimPadded("v 1");
    NormalizeChain("v\t1", "v\t1", "v\t1", "v\t1", "v\t1", "v\t1", "v 1", "v 1");
  }

  lemma SpacePasses()
    ensures ReplaceAll(Group, "v 1") == "v 1" && ReplaceAll(Separator, "v 1") == "v 1"
    ensures ReplaceAll(DottedNumber, " ") == " "
  {
    Unchanged(Group, "v 1");
    Unchanged(Separator, "v 1");
    Unchanged(DottedNumber, " ");
  }

  lemma SpaceVersion()
    ensures ReplaceAll(VersionToken, "v 1") == " "
  {
    VersionPrefixes();
    assert WordAtCI("v 1", 0, "v");
    assert VersionAlternative("v 1", 0, 1) == Some(3);
    assert MatchAt(VersionToken, "v 1", 0) == Some(3);
  }

  lemma SpaceSeparatedVersion()
    ensures Normalize("v 1") == ""
  {
    assert Lower("v 1") == "v 1";
    SpacePasses();
    SpaceVersion();
    assert ReplaceSpaceRuns(" ", ' ') == " ";
    assert Trim(" ") == "";
    NormalizeChain("v 1", "v 1", "v 1", "v 1", " ", " ", " ", "");
  }

  /**
   * Normalising is not idempotent: `[ _-]*` does not take a tab, so "v\t1" keeps its
   * version token, and the whitespace collapse that runs afterwards turns it into "v 1",
   * which a second pass removes.
   */
  lemma NormalizeNotIdempotent()
    ensures Normalize(Normalize("v\t1")) != Normalize("v\t1")
  {
    TabSeparatedVersion();
    SpaceSeparatedVersion();
  }
}
