/**
 * `installArchive` of frontend/main.js: the 7-Zip command line, the reading of
 * each chunk 7-Zip writes to stdout as a percentage or a message, and the event
 * its exit code turns into.
 */
module Extractor {
  import opened Common
  import opened Text
  import opened Paths
  import opened Events

  // ---- stdout chunks ---------------------------------------------------------------

  /**
   * `(\d+)%` matches at index `i`. The greedy `\d+` takes the whole digit run
   * starting at `i`; giving digits back cannot help, since the character after
   * any shorter run is a digit, so the match exists exactly when the run is followed by '%'.
   */
  predicate PercentAt(s: string, i: nat) {
    i < |s| && IsDigit(s[i]) && DigitsEnd(s, i) < |s| && s[DigitsEnd(s, i)] == '%'
  }

  /** The regular expression's own reading: some non-empty run of digits starting at `i` is followed by '%'. */
  predicate SomeRunBeforePercent(s: string, i: nat) {
    exists j :: i < j < |s| && AllDigits(s[i..j]) && s[j] == '%'
  }

  /** Greedy matching finds a match at `i` exactly when backtracking could. */
  lemma PercentAtMeans(s: string, i: nat)
    ensures PercentAt(s, i) <==> SomeRunBeforePercent(s, i)
  {
    if SomeRunBeforePercent(s, i) {
      var j :| i < j < |s| && AllDigits(s[i..j]) && s[j] == '%';
      assert IsDigit(s[i..j][0]);
      var q := DigitsEnd(s, i);
      assert q == j;
    }
    if PercentAt(s, i) {
      var q := DigitsEnd(s, i);
      assert AllDigits(s[i..q]);
    }
  }

  /** The regular expression engine's scan: try each start index from `i` on, leftmost first. */
  function FindPercentFrom(s: string, i: nat): Option<nat>
    decreases |s| - i
  {
    if i >= |s| then None
    else if PercentAt(s, i) then Some(i)
    else FindPercentFrom(s, i + 1)
  }

  lemma {:induction false} FindPercentFromFirst(s: string, i: nat)
    ensures var r := FindPercentFrom(s, i);
      && (r.Some? ==> i <= r.value && PercentAt(s, r.value) && forall j :: i <= j < r.value ==> !PercentAt(s, j))
      && (r.None? ==> forall j :: i <= j ==> !PercentAt(s, j))
    decreases |s| - i
  {
    if i < |s| && !PercentAt(s, i) {
      FindPercentFromFirst(s, i + 1);
    }
  }

  /** `match[1]` of the leftmost match: the whole digit run in front of the '%'. */
  function PercentDigits(s: string, i: nat): (d: string)
    requires PercentAt(s, i)
    ensures AllDigits(d)
  {
    s[i..DigitsEnd(s, i)]
  }

  /** One stdout chunk: `{ percent }` from the leftmost digits-then-'%' match, otherwise `{ message }` with the trimmed chunk. */
  function ClassifyChunk(s: string): InstallData {
    match FindPercentFrom(s, 0)
    case Some(i) =>
      FindPercentFromFirst(s, 0);
      Percent(DigitsValue(PercentDigits(s, i)))
    case None => Message(Trim(s))
  }

  /** A chunk gives a percentage exactly when some '%' directly follows a digit. */
  lemma ClassifyPercentIff(s: string)
    ensures ClassifyChunk(s).Percent? <==> exists k :: 0 < k < |s| && s[k] == '%' && IsDigit(s[k - 1])
    ensures ClassifyChunk(s).Message? ==> ClassifyChunk(s) == Message(Trim(s))
  {
    FindPercentFromFirst(s, 0);
    if k :| 0 < k < |s| && s[k] == '%' && IsDigit(s[k - 1]) {
      var i := RunStart(s, k - 1);
      assert s[i..k] == s[i..k];
      assert forall m :: i <= m < k ==> IsDigit(s[m]);
      assert DigitsEnd(s, i) == k by {
        DigitsEndIs(s, i, k);
      }
      assert PercentAt(s, i);
    }
    match FindPercentFrom(s, 0)
    case None =>
    case Some(i) =>
      var q := DigitsEnd(s, i);
      assert 0 < q < |s| && s[q] == '%' && IsDigit(s[q - 1]);
  }

  /** The start of the digit run that ends at index `k`. */
  lemma {:induction false} RunStart(s: string, k: nat) returns (i: nat)
    requires k < |s| && IsDigit(s[k])
    ensures i <= k && (i == 0 || !IsDigit(s[i - 1]))
    ensures forall m :: i <= m <= k ==> IsDigit(s[m])
    decreases k
  {
    if k > 0 && IsDigit(s[k - 1]) {
      i := RunStart(s, k - 1);
    } else {
      i := k;
    }
  }

  lemma {:induction false} DigitsEndIs(s: string, p: nat, q: nat)
    requires p <= q <= |s| && (forall m :: p <= m < q ==> IsDigit(s[m])) && (q == |s| || !IsDigit(s[q]))
    ensures DigitsEnd(s, p) == q
    decreases q - p
  {
    if p < q {
      DigitsEndIs(s, p + 1, q);
    }
  }

  /** The percentage read is the whole digit run in front of the leftmost '%' that follows a digit, never a tail of it. */
  lemma ClassifyLeftmostRun(s: string)
    ensures var r := FindPercentFrom(s, 0);
      r.Some? ==> PercentAt(s, r.value) && (r.value == 0 || !IsDigit(s[r.value - 1])) && forall j :: 0 <= j < r.value ==> !PercentAt(s, j)
  {
    FindPercentFromFirst(s, 0);
    var r := FindPercentFrom(s, 0);
    if r.Some? && r.value > 0 && IsDigit(s[r.value - 1]) {
      var i := r.value;
      DigitsEndIs(s, i - 1, DigitsEnd(s, i));
      assert PercentAt(s, i - 1);
    }
  }

  lemma PercentChunkExample()
    ensures ClassifyChunk(" 45% 3 - game.exe") == Percent(45)
  {
    var s := " 45% 3 - game.exe";
    assert !PercentAt(s, 0);
    assert DigitsEnd(s, 1) == 3 by {
      DigitsEndIs(s, 1, 3);
    }
    assert PercentAt(s, 1);
    assert PercentDigits(s, 1) == "45";
    assert DigitsValue("45") == 45 by {
      assert "45"[..1] == "4";
      assert "4"[..0] == "";
    }
  }

  lemma MessageChunkExample()
    ensures ClassifyChunk("Everything is Ok\n") == Message("Everything is Ok")
  {
    var s := "Everything is Ok\n";
    assert '%' !in s;
    ClassifyPercentIff(s);
    TrimExample();
  }

  lemma TrimExample()
    ensures Trim("Everything is Ok\n") == "Everything is Ok"
  {
    var s := "Everything is Ok\n";
    var lo := TrimSlice(s);
    assert !IsSpace(s[0]) && !IsSpace(s[15]) && IsSpace(s[16]);
  }

  // ---- exit ----------------------------------------------------------------------

  const ExitPrefix: string := "7z exited with code "

  /** `${code}`: decimal, with a '-' for a negative code and "null" when the process ended without one. */
  function CodeText(code: Option<int>): string {
    match code
    case None => "null"
    case Some(c) => if c < 0 then "-" + DecimalString(-c) else DecimalString(c)
  }

  /** The event the `close` handler sends: completion with the archive's base name on 0, an error otherwise. */
  function ExitEvent(code: Option<int>, src: string): Event {
    if code == Some(0) then InstallComplete(Basename(src))
    else InstallError(ExitPrefix + CodeText(code))
  }

  /**
   * Only 0 means success, and then the event names the archive file (extension
   * included); any other code can be read back from the error text.
   */
  lemma ExitEventCases(code: Option<int>, src: string)
    ensures ExitEvent(code, src).InstallComplete? <==> code == Some(0)
    ensures code == Some(0) ==> ExitEvent(code, src) == InstallComplete(Basename(src))
    ensures var e := ExitEvent(code, src);
      e.InstallError? ==> |ExitPrefix| < |e.text| && e.text[..|ExitPrefix|] == ExitPrefix
    ensures var e := ExitEvent(code, src);
      code.Some? && code.value > 0 ==> var t := e.text[|ExitPrefix|..]; AllDigits(t) && DigitsValue(t) == code.value
    ensures var e := ExitEvent(code, src);
      code.Some? && code.value < 0 ==>
        var t := e.text[|ExitPrefix|..]; t[0] == '-' && AllDigits(t[1..]) && DigitsValue(t[1..]) == -code.value
    ensures code.None? ==> ExitEvent(code, src) == InstallError("7z exited with code null")
  {
    if code.Some? && code.value != 0 {
      ErrorText(code.value, src);
      var t := ExitEvent(code, src).text[|ExitPrefix|..];
      if code.value > 0 {
        DecimalRoundTrip(code.value);
      } else {
        assert t[1..] == DecimalString(-code.value);
        DecimalRoundTrip(-code.value);
      }
    }
  }

  /** A non-zero code gives an error whose text is the prefix and then the code's text. */
  lemma ErrorText(c: int, src: string)
    requires c != 0
    ensures ExitEvent(Some(c), src).InstallError?
    ensures var text := ExitEvent(Some(c), src).text;
      |ExitPrefix| < |text| && text[..|ExitPrefix|] == ExitPrefix && text[|ExitPrefix|..] == CodeText(Some(c))
  {
    var text := ExitPrefix + CodeText(Some(c));
    assert text[..|ExitPrefix|] == ExitPrefix;
    assert text[|ExitPrefix|..] == CodeText(Some(c));
  }

  // ---- the command line -------------------------------------------------------------

  /** The bundled 7-Zip binary: `7z.exe` on Windows, `7z` elsewhere. */
  function BinName(platform: string): string {
    if platform == "win32" then "7z.exe" else "7z"
  }

  /** `<appDir>/../resources/7z/<platform>/<binary>`, `appDir` being the directory of the main script. */
  function BinPath(appDir: string, platform: string): string {
    Join(Join(Join(appDir, "../resources/7z"), platform), BinName(platform))
  }

  /** Extract with full paths (`x`), answer yes to every prompt (`-y`), into `dest` (`-o`), printing progress (`-bsp1`). */
  function ExtractArgs(src: string, dest: string): seq<string> {
    ["x", "-y", src, "-o" + dest, "-bsp1"]
  }

  /** The archive and the destination reach 7-Zip unchanged, in the third and fourth places. */
  lemma ExtractArgsCarry(src: string, dest: string)
    ensures var args := ExtractArgs(src, dest);
      |args| == 5 && args[0] == "x" && args[1] == "-y" && args[2] == src && args[3][..2] == "-o" && args[3][2..] == dest && args[4] == "-bsp1"
    ensures BinName("win32") == "7z.exe"
    ensures forall p :: p != "win32" ==> BinName(p) == "7z"
    ensures Basename(BinPath("/opt/smoke", "linux")) == "7z"
  {
    BasenameOfJoin(Join(Join("/opt/smoke", "../resources/7z"), "linux"), "7z");
  }

  // ---- one run of the extractor ---------------------------------------------------------

  /** One `install-progress` message per stdout chunk, in order. */
  function ProgressMessages(chunks: seq<string>): seq<Action> {
    if chunks == [] then []
    else ProgressMessages(chunks[..|chunks| - 1]) + [Send(InstallProgress(ClassifyChunk(chunks[|chunks| - 1])))]
  }

  lemma {:induction false} ProgressMessagesAt(chunks: seq<string>)
    ensures |ProgressMessages(chunks)| == |chunks|
    ensures forall k :: 0 <= k < |chunks| ==> ProgressMessages(chunks)[k] == Send(InstallProgress(ClassifyChunk(chunks[k])))
    decreases |chunks|
  {
    if chunks != [] {
      ProgressMessagesAt(chunks[..|chunks| - 1]);
    }
  }

  /**
   * What `installArchive(src, dest)` does when 7-Zip starts: spawn it, report each
   * stdout chunk, then report the exit. Everything 7-Zip writes reaches the handlers
   * before `close` fires.
   */
  function InstallRun(appDir: string, platform: string, src: string, dest: string, chunks: seq<string>, code: Option<int>): seq<Action> {
    [Spawn(BinPath(appDir, platform), ExtractArgs(src, dest))] + ProgressMessages(chunks) + [Send(ExitEvent(code, src))]
  }

  predicate IsTerminal(a: Action) {
    a.Send? && (a.event.InstallComplete? || a.event.InstallError?)
  }

  /**
   * A run spawns 7-Zip first, sends one progress message per chunk, and ends with
   * exactly one completion or error, which is its last action.
   */
  lemma InstallRunShape(appDir: string, platform: string, src: string, dest: string, chunks: seq<string>, code: Option<int>)
    ensures var t := InstallRun(appDir, platform, src, dest, chunks, code);
      && |t| == |chunks| + 2
      && t[0] == Spawn(BinPath(appDir, platform), ExtractArgs(src, dest))
      && (forall k :: 1 <= k <= |chunks| ==> t[k] == Send(InstallProgress(ClassifyChunk(chunks[k - 1]))))
      && t[|t| - 1] == Send(ExitEvent(code, src))
      && (forall k :: 0 <= k < |t| && IsTerminal(t[k]) ==> k == |t| - 1)
      && (forall a :: a in t ==> IsInstallStep(a))
  {
    ProgressMessagesAt(chunks);
  }
}
