/**
 * The title normaliser of the library page (frontend/library.js, `normalize` and
 * `normalizeKey`). Each `replace` call of the JavaScript chain is one left-to-right
 * pass over the string, modelled as a scanner that, at every position, either
 * matches its pattern (and emits one space in place of the match) or copies one
 * character and moves on. Word boundaries are decided on the string the pass
 * reads, exactly as a global `replace` does.
 */
module LibraryNames {
  import opened Common
  import opened Text

  /** The four patterns the chain replaces by a single space before whitespace is collapsed. */
  datatype Pattern =
    | Group          // /\([^)]*\)/g
    | Separator      // /[-_]/g
    | VersionToken   // /\b(?:v|ver|version)[ _-]*\d+(?:\.\d+)*\b/gi
    | DottedNumber   // /\b\d+(?:\.\d+)+\b/g

  // ---- pieces of the patterns ----------------------------------------------

  /** The first ')' at or after `from`, which is where `[^)]*\)` ends. */
  function CloseFrom(s: string, from: nat): (r: Option<nat>)
    ensures r.Some? ==> from <= r.value < |s| && s[r.value] == ')'
    ensures r.Some? ==> forall k :: from <= k < r.value ==> s[k] != ')'
    ensures r.None? ==> forall k :: from <= k < |s| ==> s[k] != ')'
    decreases |s| - from
  {
    if from >= |s| then None
    else if s[from] == ')' then Some(from)
    else CloseFrom(s, from + 1)
  }

  predicate WordAt(s: string, k: int) { 0 <= k < |s| && IsWordChar(s[k]) }

  /** `\b` at position `i`: exactly one of the two characters around `i` is a word character. */
  predicate Boundary(s: string, i: int) { WordAt(s, i - 1) != WordAt(s, i) }

  predicate IsTokenSeparator(c: char) { c == ' ' || c == '_' || c == '-' }

  /** End of the greedy `[ _-]*` that starts at `p`. */
  function SeparatorsEnd(s: string, p: nat): (q: nat)
    requires p <= |s|
    ensures p <= q <= |s|
    ensures forall k :: p <= k < q ==> IsTokenSeparator(s[k])
    ensures q == |s| || !IsTokenSeparator(s[q])
    decreases |s| - p
  {
    if p < |s| && IsTokenSeparator(s[p]) then SeparatorsEnd(s, p + 1) else p
  }

  /** What the greedy `(?:\.\d+)*` takes from `p`: how many groups, where the last one starts, where it ends. */
  datatype DotGroups = DotGroups(count: nat, lastStart: nat, end: nat)

  function DotGroupsFrom(s: string, p: nat): (g: DotGroups)
    requires p <= |s|
    ensures p <= g.lastStart <= g.end <= |s|
    ensures forall k :: p <= k < g.end ==> IsDigit(s[k]) || s[k] == '.'
    ensures g.count == 0 ==> g.lastStart == g.end == p
    ensures g.count > 0 ==> g.lastStart + 1 < g.end && s[g.lastStart] == '.' && IsDigit(s[g.end - 1])
    ensures g.count > 0 && g.lastStart > p ==> IsDigit(s[g.lastStart - 1])
    ensures g.count > 0 ==> g.end == |s| || !IsDigit(s[g.end])
    decreases |s| - p
  {
    if p + 1 < |s| && s[p] == '.' && IsDigit(s[p + 1]) then
      var q := DigitsEnd(s, p + 1);
      var rest := DotGroupsFrom(s, q);
      if rest.count == 0 then DotGroups(1, p, q)
      else DotGroups(rest.count + 1, rest.lastStart, rest.end)
    else DotGroups(0, p, p)
  }

  /**
   * Where `\d+(?:\.\d+)*\b` (or `\d+(?:\.\d+)+\b` when `dotted`) starting at digit `p`
   * ends, with the engine's backtracking: the greedy run is taken whole; when no boundary
   * follows it, giving back digits of the last group leaves a digit on both sides (never
   * a boundary), so the first success is the end of the previous group, where a '.'
   * follows; with nothing to give back, no match.
   */
  function NumberEnd(s: string, p: nat, dotted: bool): (r: Option<nat>)
    requires p < |s| && IsDigit(s[p])
    ensures r.Some? ==> p < r.value <= |s| && Boundary(s, r.value) && IsDigit(s[r.value - 1])
    ensures r.Some? ==> forall k :: p <= k < r.value ==> IsDigit(s[k]) || s[k] == '.'
    ensures r.Some? && dotted ==> '.' in s[p..r.value]
  {
    var d := DigitsEnd(s, p);
    var g := DotGroupsFrom(s, d);
    var least := if dotted then 1 else 0;
    DotGroupsFacts(s, d);
    assert g.count > 0 ==> s[p..g.end][d - p] == '.';
    assert g.count > 1 ==> s[p..g.lastStart][d - p] == '.';
    if g.count >= least && Boundary(s, g.end) then Some(g.end)
    else if g.count > least then Some(g.lastStart)
    else None
  }

  /**
   * `s[p..e]` is a match of `\d+(?:\.\d+)*`: digits, and each '.' between two digits;
   * with `dotted` it holds at least one '.', as `\d+(?:\.\d+)+` demands.
   */
  predicate NumberShape(s: string, p: nat, e: nat, dotted: bool) {
    && p < e <= |s| && IsDigit(s[p]) && IsDigit(s[e - 1])
    && (forall k :: p <= k < e ==> NumberChar(s, e, k))
    && (dotted ==> exists k :: p <= k < e && s[k] == '.')
  }

  /** Position `k` of a number ending at `e`: a digit, or a '.' before `e - 1` with a digit on each side. */
  predicate NumberChar(s: string, e: nat, k: int) {
    0 <= k < |s| &&
    (IsDigit(s[k]) || (0 < k && k + 1 < e && k + 1 < |s| && s[k] == '.' && IsDigit(s[k - 1]) && IsDigit(s[k + 1])))
  }

  /**
   * What the greedy `(?:\.\d+)*` from `p`, right after a digit, took: number characters
   * only, nothing more it could take, and where its groups start.
   */
  predicate GroupFacts(s: string, p: nat, g: DotGroups) {
    && 0 < p <= g.lastStart <= g.end <= |s| && IsDigit(s[p - 1])
    && (forall k :: p <= k < g.end ==> NumberChar(s, g.end, k))
    && (g.end < |s| ==> !IsDigit(s[g.end]) && !(g.end + 1 < |s| && s[g.end] == '.' && IsDigit(s[g.end + 1])))
    && (g.count == 0 ==> g.lastStart == g.end == p)
    && (g.count > 0 ==> g.lastStart + 1 < g.end && s[p] == '.' && s[g.lastStart] == '.' && IsDigit(s[g.lastStart - 1]))
    && (g.count == 1 ==> g.lastStart == p)
    && (g.count > 1 ==> g.lastStart > p)
    && (forall k :: g.lastStart < k < g.end ==> IsDigit(s[k]))
  }

  lemma {:induction false} DotGroupsFacts(s: string, p: nat)
    requires 0 < p <= |s| && IsDigit(s[p - 1]) && (p == |s| || !IsDigit(s[p]))
    ensures GroupFacts(s, p, DotGroupsFrom(s, p))
    decreases |s| - p
  {
    if p + 1 < |s| && s[p] == '.' && IsDigit(s[p + 1]) {
      var q := DigitsEnd(s, p + 1);
      var rest := DotGroupsFrom(s, q);
      DotGroupsFacts(s, q);
      GroupInFront(s, p, q, rest);
    }
  }

  /** One more group `.digits` in front of what the greedy loop takes after it. */
  lemma GroupInFront(s: string, p: nat, q: nat, rest: DotGroups)
    requires 0 < p && p + 1 < q <= |s| && IsDigit(s[p - 1]) && s[p] == '.'
    requires forall k :: p < k < q ==> IsDigit(s[k])
    requires GroupFacts(s, q, rest)
    ensures GroupFacts(s, p, if rest.count == 0 then DotGroups(1, p, q) else DotGroups(rest.count + 1, rest.lastStart, rest.end))
  {
    assert IsDigit(s[p + 1]);
    assert forall k :: p < k < q ==> NumberChar(s, rest.end, k);
    assert NumberChar(s, rest.end, p);
  }

  /** A number that ends inside another one, after a digit, is a number too. */
  lemma NumberPrefix(s: string, p: nat, e: nat, e': nat)
    requires NumberShape(s, p, e, false)
    requires p < e' <= e && IsDigit(s[e' - 1])
    ensures NumberShape(s, p, e', false)
  {
    forall k | p <= k < e'
      ensures NumberChar(s, e', k)
    {
      assert NumberChar(s, e, k);
      assert k + 1 != e' || IsDigit(s[k]);
    }
  }

  /**
   * What the greedy run from digit `p` is made of: digits up to `d`, then the groups `g`
   * of `(?:\.\d+)*`, the last of them starting with the '.' at `g.lastStart`.
   */
  predicate RunFacts(s: string, p: nat, d: nat, g: DotGroups) {
    && p < d <= g.lastStart <= g.end <= |s|
    && (forall k :: p <= k < d ==> IsDigit(s[k]))
    && (forall k :: d <= k < g.end ==> NumberChar(s, g.end, k))
    && IsDigit(s[g.end - 1])
    && (g.end < |s| ==> !IsDigit(s[g.end]) && !(g.end + 1 < |s| && s[g.end] == '.' && IsDigit(s[g.end + 1])))
    && (g.count == 0 ==> g.end == d)
    && (g.count > 0 ==> g.lastStart + 1 < g.end && s[d] == '.' && s[g.lastStart] == '.' && IsDigit(s[g.lastStart - 1]))
    && (g.count == 1 ==> g.lastStart == d)
    && (g.count > 1 ==> g.lastStart > d)
    && (forall k :: g.lastStart < k < g.end ==> IsDigit(s[k]))
  }

  lemma Run(s: string, p: nat)
    requires p < |s| && IsDigit(s[p])
    ensures RunFacts(s, p, DigitsEnd(s, p), DotGroupsFrom(s, DigitsEnd(s, p)))
  {
    var d := DigitsEnd(s, p);
    assert d > p;
    DotGroupsFacts(s, d);
    var g := DotGroupsFrom(s, d);
    assert GroupFacts(s, d, g);
  }

  /** The greedy run is a number. */
  lemma RunIsNumber(s: string, p: nat, d: nat, g: DotGroups)
    requires RunFacts(s, p, d, g)
    ensures NumberShape(s, p, g.end, false)
  {
    assert forall k :: p <= k < d ==> NumberChar(s, g.end, k);
  }

  /**
   * Every number from `p` ends within the greedy run, and before the run's end it is
   * followed by a digit (no boundary) or by a '.' (a boundary).
   */
  lemma NumberWithinRun(s: string, p: nat, d: nat, g: DotGroups, e: nat)
    requires RunFacts(s, p, d, g)
    requires NumberShape(s, p, e, false)
    ensures e <= g.end
    ensures e < g.end ==> (Boundary(s, e) <==> s[e] == '.')
  {
    assert g.end < |s| ==> !NumberChar(s, e, g.end);
    if e < g.end {
      RunIsNumber(s, p, d, g);
      assert NumberChar(s, g.end, e);
    }
  }

  /**
   * `NumberEnd` is the engine's answer: the longest number from `p` that ends at a word
   * boundary, and no match when no number from `p` ends at one.
   */
  lemma NumberEndLongest(s: string, p: nat, dotted: bool)
    requires p < |s| && IsDigit(s[p])
    ensures var r := NumberEnd(s, p, dotted);
      r.Some? ==> NumberShape(s, p, r.value, dotted) && Boundary(s, r.value)
    ensures var r := NumberEnd(s, p, dotted);
      r.Some? ==> forall e: nat :: NumberShape(s, p, e, dotted) && Boundary(s, e) ==> e <= r.value
    ensures NumberEnd(s, p, dotted).None? ==> forall e: nat :: NumberShape(s, p, e, dotted) ==> !Boundary(s, e)
  {
    var d := DigitsEnd(s, p);
    var g := DotGroupsFrom(s, d);
    var least := if dotted then 1 else 0;
    Run(s, p);
    if g.count >= least && Boundary(s, g.end) {
      WholeRun(s, p, d, g, dotted);
    } else if g.count > least {
      BackOffOneGroup(s, p, d, g, dotted);
    } else {
      NoNumberAtBoundary(s, p, d, g, dotted);
    }
  }

  /** When the whole run may be taken, it is the longest number. */
  lemma WholeRun(s: string, p: nat, d: nat, g: DotGroups, dotted: bool)
    requires RunFacts(s, p, d, g)
    requires dotted ==> g.count > 0
    ensures NumberShape(s, p, g.end, dotted)
    ensures forall e: nat :: NumberShape(s, p, e, dotted) ==> e <= g.end
  {
    RunIsNumber(s, p, d, g);
    if dotted {
      assert s[d] == '.' && d < g.end;
    }
    forall e: nat | NumberShape(s, p, e, dotted)
      ensures e <= g.end
    {
      NumberWithinRun(s, p, d, g, e);
    }
  }

  /** With no boundary after the run but a group to give back, the match ends where the last group starts. */
  lemma BackOffOneGroup(s: string, p: nat, d: nat, g: DotGroups, dotted: bool)
    requires RunFacts(s, p, d, g)
    requires g.count > (if dotted then 1 else 0) && !Boundary(s, g.end)
    ensures NumberShape(s, p, g.lastStart, dotted) && Boundary(s, g.lastStart)
    ensures forall e: nat :: NumberShape(s, p, e, dotted) && Boundary(s, e) ==> e <= g.lastStart
  {
    RunIsNumber(s, p, d, g);
    NumberPrefix(s, p, g.end, g.lastStart);
    if dotted {
      assert s[d] == '.' && d < g.lastStart;
    }
    forall e: nat | NumberShape(s, p, e, dotted) && Boundary(s, e)
      ensures e <= g.lastStart
    {
      NumberWithinRun(s, p, d, g, e);
    }
  }

  /** Otherwise no number from `p` ends at a boundary. */
  lemma NoNumberAtBoundary(s: string, p: nat, d: nat, g: DotGroups, dotted: bool)
    requires RunFacts(s, p, d, g)
    requires var least := if dotted then 1 else 0; g.count <= least && (g.count == least ==> !Boundary(s, g.end))
    ensures forall e: nat :: NumberShape(s, p, e, dotted) ==> !Boundary(s, e)
  {
    forall e: nat | NumberShape(s, p, e, dotted)
      ensures !Boundary(s, e)
    {
      NumberWithinRun(s, p, d, g, e);
      if dotted {
        var k :| p <= k < e && s[k] == '.';
        assert d <= k;
      }
    }
  }

  const VersionWord: string := "version"

  /** `w` (lower case) occurs at `i` in `s` when letters are compared without regard to case. */
  predicate WordAtCI(s: string, i: nat, w: string)
    decreases |w|
  {
    w == [] || (i < |s| && LowerChar(s[i]) == w[0] && WordAtCI(s, i + 1, w[1..]))
  }

  /** The three alternatives `v`, `ver` and `version`. */
  lemma VersionPrefixes()
    ensures VersionWord[..1] == "v" && VersionWord[..3] == "ver" && VersionWord[..7] == "version"
  {
  }

  /** One alternative of `(?:v|ver|version)` (the first `n` letters of "version", any case), then `[ _-]*\d+(?:\.\d+)*\b`. */
  function VersionAlternative(s: string, i: nat, n: nat): (r: Option<nat>)
    requires n <= |VersionWord|
    ensures r.Some? ==> i + n < r.value <= |s| && Boundary(s, r.value)
    ensures r.Some? && n > 0 ==> LowerChar(s[i]) == 'v'
  {
    if i + n <= |s| && WordAtCI(s, i, VersionWord[..n]) then
      var q := SeparatorsEnd(s, i + n);
      if q < |s| && IsDigit(s[q]) then NumberEnd(s, q, false) else None
    else None
  }

  /**
   * `s[i..e]` is a match of one alternative followed by `[ _-]*\d+(?:\.\d+)*`: the first `n`
   * letters of "version" in any case, then separators from `i + n` up to some `q`, then a
   * number from `q` to `e`.
   */
  predicate VersionShape(s: string, i: nat, n: nat, e: nat)
    requires n <= |VersionWord|
  {
    && i + n <= |s| && WordAtCI(s, i, VersionWord[..n])
    && exists q: nat :: i + n <= q <= |s| && SeparatorsBetween(s, i + n, q) && NumberShape(s, q, e, false)
  }

  /** Every character of `s[a..q]` is one of `[ _-]`. */
  predicate SeparatorsBetween(s: string, a: nat, q: nat) {
    q <= |s| && forall k :: a <= k < q ==> IsTokenSeparator(s[k])
  }

  /** A digit after separators can only be where the greedy `[ _-]*` stops: giving any back leaves a separator in front. */
  lemma SeparatorsThenDigit(s: string, a: nat, q: nat)
    requires a <= q < |s| && SeparatorsBetween(s, a, q) && IsDigit(s[q])
    ensures q == SeparatorsEnd(s, a)
  {
    var stop := SeparatorsEnd(s, a);
    assert stop < |s| ==> !IsTokenSeparator(s[stop]);
  }

  /**
   * One alternative matches exactly as the engine does: the longest `VersionShape` end at a
   * word boundary, and no match when there is none.
   */
  lemma VersionAlternativeLongest(s: string, i: nat, n: nat)
    requires n <= |VersionWord|
    ensures var r := VersionAlternative(s, i, n);
      r.Some? ==> VersionShape(s, i, n, r.value) && Boundary(s, r.value)
    ensures var r := VersionAlternative(s, i, n);
      r.Some? ==> forall e: nat :: VersionShape(s, i, n, e) && Boundary(s, e) ==> e <= r.value
    ensures VersionAlternative(s, i, n).None? ==> forall e: nat :: VersionShape(s, i, n, e) ==> !Boundary(s, e)
  {
    if i + n <= |s| && WordAtCI(s, i, VersionWord[..n]) {
      var q := SeparatorsEnd(s, i + n);
      assert SeparatorsBetween(s, i + n, q);
      forall e: nat, q': nat | i + n <= q' && SeparatorsBetween(s, i + n, q') && NumberShape(s, q', e, false)
        ensures q' == q && NumberShape(s, q, e, false)
      {
        SeparatorsThenDigit(s, i + n, q');
      }
      if q < |s| && IsDigit(s[q]) {
        NumberEndLongest(s, q, false);
      }
    }
  }

  /** Where a match of `pat` that starts at `i` ends, if one does. */
  function MatchAt(pat: Pattern, s: string, i: nat): (r: Option<nat>)
    requires i < |s|
    ensures r.Some? ==> i < r.value <= |s|
  {
    match pat
    case Group =>
      if s[i] == '(' then
        match CloseFrom(s, i + 1)
        case Some(j) => Some(j + 1)
        case None => None
      else None
    case Separator =>
      if s[i] == '-' || s[i] == '_' then Some(i + 1) else None
    case VersionToken =>
      if !Boundary(s, i) then None
      else
        var v := VersionAlternative(s, i, 1);
        if v.Some? then v
        else
          var ver := VersionAlternative(s, i, 3);
          if ver.Some? then ver else VersionAlternative(s, i, 7)
    case DottedNumber =>
      if IsDigit(s[i]) && Boundary(s, i) then NumberEnd(s, i, true) else None
  }

  /** `s.replace(pat, ' ')` on the part of `s` from `i` on. */
  function Replace(pat: Pattern, s: string, i: nat): (r: string)
    requires i <= |s|
    decreases |s| - i
  {
    if i == |s| then []
    else
      match MatchAt(pat, s, i)
      case Some(e) => [' '] + Replace(pat, s, e)
      case None => [s[i]] + Replace(pat, s, i + 1)
  }

  function ReplaceAll(pat: Pattern, s: string): string {
    Replace(pat, s, 0)
  }

  /** A pass only copies characters of `s` or writes spaces. */
  lemma {:induction false} ReplaceChars(pat: Pattern, s: string, i: nat)
    requires i <= |s|
    ensures forall c :: c in Replace(pat, s, i) ==> c == ' ' || c in s[i..]
    decreases |s| - i
  {
    if i < |s| {
      match MatchAt(pat, s, i)
      case Some(e) =>
        ReplaceChars(pat, s, e);
        assert forall c :: c in s[e..] ==> c in s[i..];
      case None =>
        ReplaceChars(pat, s, i + 1);
        assert forall c :: c in s[i + 1..] ==> c in s[i..];
    }
  }

  /** Positions where `pat` cannot start are copied one by one. */
  lemma CopyRun(pat: Pattern, s: string, i: nat, j: nat)
    requires i <= j <= |s|
    requires forall k :: i <= k < j ==> MatchAt(pat, s, k).None?
    ensures Replace(pat, s, i) == s[i..j] + Replace(pat, s, j)
  {
    var rest := Replace(pat, s, j);
    var k := j;
    while k > i
      invariant i <= k <= j
      invariant Replace(pat, s, k) == s[k..j] + rest
    {
      k := k - 1;
      CopyOne(pat, s, k);
      PrependCopied(s, k, j, rest);
    }
  }

  /** One copied character in front of a copied stretch is the longer stretch. */
  lemma PrependCopied(s: string, i: nat, j: nat, rest: string)
    requires i < j <= |s|
    ensures [s[i]] + (s[i + 1..j] + rest) == s[i..j] + rest
  {
    assert s[i..j] == [s[i]] + s[i + 1..j];
  }

  /** A position where `pat` does not match is copied. */
  lemma CopyOne(pat: Pattern, s: string, i: nat)
    requires i < |s| && MatchAt(pat, s, i).None?
    ensures Replace(pat, s, i) == [s[i]] + Replace(pat, s, i + 1)
  {
  }

  /** The characters a match of each pattern can start with. */
  predicate CanStart(pat: Pattern, c: char) {
    match pat
    case Group => c == '('
    case Separator => c == '-' || c == '_'
    case VersionToken => c == 'v' || c == 'V'
    case DottedNumber => IsDigit(c)
  }

  lemma MatchStart(pat: Pattern, s: string, k: nat)
    requires k < |s| && MatchAt(pat, s, k).Some?
    ensures CanStart(pat, s[k])
  {
    if pat == VersionToken {
      assert LowerChar(s[k]) == 'v';
    }
  }

  /** A stretch where no match can start is copied as it is. */
  lemma CopyPlain(pat: Pattern, s: string, i: nat, j: nat)
    requires i <= j <= |s|
    requires forall k :: i <= k < j ==> !CanStart(pat, s[k])
    ensures Replace(pat, s, i) == s[i..j] + Replace(pat, s, j)
  {
    forall k | i <= k < j ensures MatchAt(pat, s, k).None? {
      if MatchAt(pat, s, k).Some? { MatchStart(pat, s, k); }
    }
    CopyRun(pat, s, i, j);
  }

  /** A character each pattern needs in order to match at all. */
  predicate MayMatch(pat: Pattern, s: string) {
    match pat
    case Group => '(' in s
    case Separator => '-' in s || '_' in s
    case VersionToken => 'v' in s || 'V' in s
    case DottedNumber => '.' in s
  }

  lemma MatchNeeds(pat: Pattern, s: string, k: nat)
    requires k < |s| && MatchAt(pat, s, k).Some?
    ensures MayMatch(pat, s)
  {
    assert s[k] in s;
    match pat
    case Group =>
    case Separator =>
    case VersionToken =>
      assert LowerChar(s[k]) == 'v';
      assert s[k] == 'v' || s[k] == 'V';
    case DottedNumber =>
      assert '.' in s[k..];
      assert forall c :: c in s[k..] ==> c in s;
  }

  /** A pass whose pattern cannot match leaves the string as it is. */
  lemma Unchanged(pat: Pattern, s: string)
    requires !MayMatch(pat, s)
    ensures ReplaceAll(pat, s) == s
  {
    forall k | 0 <= k < |s| ensures MatchAt(pat, s, k).None? {
      if MatchAt(pat, s, k).Some? { MatchNeeds(pat, s, k); }
    }
    CopyRun(pat, s, 0, |s|);
  }

  /** The chain up to, not including, the whitespace collapse. */
  function Stripped(s: string): string {
    var lowered := Lower(s);
    var noGroups := ReplaceAll(Group, lowered);
    var spaced := ReplaceAll(Separator, noGroups);
    var noVersions := ReplaceAll(VersionToken, spaced);
    ReplaceAll(DottedNumber, noVersions)
  }

  /** One step of the `normalize` chain. */
  datatype Step = LowerCase | Strip(pat: Pattern) | CollapseSpaces | TrimEnds

  /** The steps of `normalize`, in the order the chain applies them. */
  const NormalizeSteps: seq<Step> :=
    [LowerCase, Strip(Group), Strip(Separator), Strip(VersionToken), Strip(DottedNumber), CollapseSpaces, TrimEnds]

  function ApplyStep(step: Step, s: string): string {
    match step
    case LowerCase => Lower(s)
    case Strip(pat) => ReplaceAll(pat, s)
    case CollapseSpaces => ReplaceSpaceRuns(s, ' ')   // .replace(/\s+/g, ' ')
    case TrimEnds => Trim(s)
  }

  /** Applies `steps` left to right. */
  function RunSteps(steps: seq<Step>, s: string): string
    decreases |steps|, |s|
  {
    if steps == [] then s else RunSteps(steps[1..], ApplyStep(steps[0], s))
  }

  /** `normalize` of frontend/library.js; a missing title is the empty string. */
  function Normalize(s: string): string {
    if s == [] then [] else RunSteps(NormalizeSteps, s)
  }

  /** The chain written out: collapse and trim what the four stripping passes leave. */
  lemma NormalizeUnfolds(s: string)
    requires s != []
    ensures Normalize(s) == Trim(ReplaceSpaceRuns(Stripped(s), ' '))
  {
    var t0 := Lower(s);
    var t1 := ReplaceAll(Group, t0);
    var t2 := ReplaceAll(Separator, t1);
    var t3 := ReplaceAll(VersionToken, t2);
    var t4 := ReplaceAll(DottedNumber, t3);
    var t5 := ReplaceSpaceRuns(t4, ' ');
    var steps := NormalizeSteps;
    assert RunSteps(steps, s) == RunSteps(steps[1..], t0);
    assert RunSteps(steps[1..], t0) == RunSteps(steps[2..], t1);
    assert RunSteps(steps[2..], t1) == RunSteps(steps[3..], t2);
    assert RunSteps(steps[3..], t2) == RunSteps(steps[4..], t3);
    assert RunSteps(steps[4..], t3) == RunSteps(steps[5..], t4);
    assert RunSteps(steps[5..], t4) == RunSteps(steps[6..], t5);
    assert RunSteps(steps[6..], t5) == RunSteps([], Trim(t5));
  }

  /** `normalizeKey` of frontend/library.js: the normalised title without whitespace. */
  function NormalizeKey(s: string): string {
    RemoveSpaces(Normalize(s))
  }

  // ---- the shape of a normalised title -------------------------------------

  /** No ')' anywhere after a '(': no closed parenthetical group is left. */
  predicate NoGroup(s: string) {
    forall i, j :: 0 <= i < j < |s| && s[i] == '(' ==> s[j] != ')'
  }

  /** Every whitespace character is a plain space and no two are adjacent. */
  predicate SingleSpaced(s: string) {
    && (forall i :: 0 <= i < |s| && IsSpace(s[i]) ==> s[i] == ' ')
    && (forall i :: 0 < i < |s| && IsSpace(s[i]) ==> !IsSpace(s[i - 1]))
  }

  predicate Trimmed(s: string) { s == [] || (!IsSpace(s[0]) && !IsSpace(s[|s| - 1])) }

  predicate NoSeparatorOrUpper(s: string) { forall c :: c in s ==> c != '-' && c != '_' && !IsUpper(c) }

  lemma NoGroupCons(x: char, rest: string)
    requires NoGroup(rest)
    requires x == '(' ==> ')' !in rest
    ensures NoGroup([x] + rest)
  {
    var t := [x] + rest;
    forall i, j | 0 <= i < j < |t| && t[i] == '(' ensures t[j] != ')' {
      if i > 0 {
        assert t[i] == rest[i - 1] && t[j] == rest[j - 1];
      } else {
        assert t[j] == rest[j - 1] && t[j] in rest;
      }
    }
  }

  /** The group pass leaves no closed group: an unmatched '(' has no ')' anywhere after it. */
  lemma {:induction false} GroupPassLeavesNoGroup(s: string, i: nat)
    requires i <= |s|
    ensures NoGroup(Replace(Group, s, i))
    decreases |s| - i
  {
    if i < |s| {
      match MatchAt(Group, s, i)
      case Some(e) =>
        GroupPassLeavesNoGroup(s, e);
        NoGroupCons(' ', Replace(Group, s, e));
      case None =>
        var rest := Replace(Group, s, i + 1);
        GroupPassLeavesNoGroup(s, i + 1);
        if s[i] == '(' {
          assert CloseFrom(s, i + 1).None?;
          assert ')' !in s[i + 1..];
          ReplaceChars(Group, s, i + 1);
        }
        NoGroupCons(s[i], rest);
    }
  }

  /** The other passes copy characters in order and only add spaces, so no group appears. */
  lemma {:induction false} PassKeepsNoGroup(pat: Pattern, s: string, i: nat)
    requires i <= |s| && NoGroup(s[i..])
    ensures NoGroup(Replace(pat, s, i))
    decreases |s| - i
  {
    if i < |s| {
      match MatchAt(pat, s, i)
      case Some(e) =>
        assert s[e..] == s[i..][e - i..];
        PassKeepsNoGroup(pat, s, e);
        NoGroupCons(' ', Replace(pat, s, e));
      case None =>
        assert s[i + 1..] == s[i..][1..];
        PassKeepsNoGroup(pat, s, i + 1);
        if s[i] == '(' {
          forall k | i + 1 <= k < |s| ensures s[k] != ')' {
            assert s[i..][0] == '(' && s[i..][k - i] == s[k];
          }
          ReplaceChars(pat, s, i + 1);
        }
        NoGroupCons(s[i], Replace(pat, s, i + 1));
    }
  }

  lemma {:induction false} CollapseKeepsNoGroup(s: string)
    requires NoGroup(s)
    ensures NoGroup(ReplaceSpaceRuns(s, ' '))
    decreases |s|
  {
    if s != [] {
      if IsSpace(s[0]) {
        var n := SpaceRun(s);
        assert NoGroup(s[n..]) by { SliceKeepsShape(s, n, |s|); }
        CollapseKeepsNoGroup(s[n..]);
        NoGroupCons(' ', ReplaceSpaceRuns(s[n..], ' '));
      } else {
        assert NoGroup(s[1..]) by { SliceKeepsShape(s, 1, |s|); }
        CollapseKeepsNoGroup(s[1..]);
        var rest := ReplaceSpaceRuns(s[1..], ' ');
        if s[0] == '(' {
          ReplaceSpaceRunsShape(s[1..], ' ');
          forall k | 1 <= k < |s| ensures s[k] != ')' { }
          assert ')' !in s[1..];
        }
        NoGroupCons(s[0], rest);
      }
    }
  }

  /** The separator pass replaces every '-' and '_'. */
  lemma {:induction false} SeparatorPassRemovesSeparators(s: string, i: nat)
    requires i <= |s|
    ensures '-' !in Replace(Separator, s, i) && '_' !in Replace(Separator, s, i)
    decreases |s| - i
  {
    if i < |s| {
      match MatchAt(Separator, s, i)
      case Some(e) => SeparatorPassRemovesSeparators(s, e);
      case None => SeparatorPassRemovesSeparators(s, i + 1);
    }
  }

  lemma StrippedChars(s: string)
    ensures NoSeparatorOrUpper(Stripped(s))
  {
    var noGroups := ReplaceAll(Group, Lower(s));
    var spaced := ReplaceAll(Separator, noGroups);
    var noVersions := ReplaceAll(VersionToken, spaced);
    ReplaceChars(Group, Lower(s), 0);
    SeparatorPassRemovesSeparators(noGroups, 0);
    ReplaceChars(Separator, noGroups, 0);
    assert NoSeparatorOrUpper(spaced);
    ReplaceChars(VersionToken, spaced, 0);
    assert NoSeparatorOrUpper(noVersions);
    ReplaceChars(DottedNumber, noVersions, 0);
  }

  lemma StrippedNoGroup(s: string)
    ensures NoGroup(Stripped(s))
  {
    var lowered := Lower(s);
    var noGroups := ReplaceAll(Group, lowered);
    var spaced := ReplaceAll(Separator, noGroups);
    var noVersions := ReplaceAll(VersionToken, spaced);
    GroupPassLeavesNoGroup(lowered, 0);
    assert noGroups[0..] == noGroups;
    PassKeepsNoGroup(Separator, noGroups, 0);
    assert spaced[0..] == spaced;
    PassKeepsNoGroup(VersionToken, spaced, 0);
    assert noVersions[0..] == noVersions;
    PassKeepsNoGroup(DottedNumber, noVersions, 0);
  }

  lemma SliceKeepsShape(u: string, lo: nat, hi: nat)
    requires lo <= hi <= |u|
    ensures NoSeparatorOrUpper(u) ==> NoSeparatorOrUpper(u[lo..hi])
    ensures SingleSpaced(u) ==> SingleSpaced(u[lo..hi])
    ensures NoGroup(u) ==> NoGroup(u[lo..hi])
  {
    var r := u[lo..hi];
    assert forall k :: 0 <= k < |r| ==> r[k] == u[lo + k];
    forall c | c in r ensures c in u {
      var k :| 0 <= k < |r| && r[k] == c;
      assert u[lo + k] == c;
    }
    if NoGroup(u) {
      forall i, j | 0 <= i < j < |r| && r[i] == '(' ensures r[j] != ')' {
        assert u[lo + i] == '(';
      }
    }
  }

  lemma CollapseShape(t: string)
    requires NoSeparatorOrUpper(t) && NoGroup(t)
    ensures NoSeparatorOrUpper(ReplaceSpaceRuns(t, ' '))
    ensures SingleSpaced(ReplaceSpaceRuns(t, ' '))
    ensures NoGroup(ReplaceSpaceRuns(t, ' '))
  {
    ReplaceSpaceRunsShape(t, ' ');
    CollapseKeepsNoGroup(t);
  }

  lemma TrimKeepsShape(u: string)
    ensures NoSeparatorOrUpper(u) ==> NoSeparatorOrUpper(Trim(u))
    ensures SingleSpaced(u) ==> SingleSpaced(Trim(u))
    ensures NoGroup(u) ==> NoGroup(Trim(u))
  {
    var lo := TrimSlice(u);
    var r := Trim(u);
    assert r == u[lo..lo + |r|];
    SliceKeepsShape(u, lo, lo + |r|);
  }

  /** Trimming a collapsed string keeps its characters, its spacing and its lack of groups. */
  lemma TrimCollapsed(t: string)
    requires NoSeparatorOrUpper(t) && NoGroup(t)
    ensures NoSeparatorOrUpper(Trim(ReplaceSpaceRuns(t, ' ')))
    ensures SingleSpaced(Trim(ReplaceSpaceRuns(t, ' ')))
    ensures NoGroup(Trim(ReplaceSpaceRuns(t, ' ')))
  {
    CollapseShape(t);
    TrimKeepsShape(ReplaceSpaceRuns(t, ' '));
  }

  /**
   * A normalised title has no '-', '_' or upper-case letter, no whitespace at either
   * end, single plain spaces between words and no parenthetical group.
   */
  lemma NormalizeShape(s: string)
    ensures s == [] ==> Normalize(s) == []
    ensures NoSeparatorOrUpper(Normalize(s))
    ensures Trimmed(Normalize(s))
    ensures SingleSpaced(Normalize(s))
    ensures NoGroup(Normalize(s))
  {
    if s != [] {
      NormalizeUnfolds(s);
      StrippedChars(s);
      StrippedNoGroup(s);
      TrimCollapsed(Stripped(s));
      var _ := TrimSlice(ReplaceSpaceRuns(Stripped(s), ' '));
    }
  }

  /** The search key has no whitespace, '-', '_' or upper-case letter. */
  lemma NormalizeKeyShape(s: string)
    ensures s == [] ==> NormalizeKey(s) == []
    ensures NoSpace(NormalizeKey(s)) && NoSeparatorOrUpper(NormalizeKey(s))
  {
    NormalizeShape(s);
    RemoveSpacesShape(Normalize(s));
  }
}
