/**
 * Character classes and string helpers that mirror the JavaScript built-ins the
 * launcher relies on: the `\s`, `\d` and `\w` regular-expression classes,
 * `toLowerCase` on ASCII letters, `trim`, `includes` and decimal rendering.
 */
module Text {
  import opened Common

  /** JavaScript's `\s`: the WhiteSpace and LineTerminator code points (also what `trim` removes). */
  predicate IsSpace(c: char) {
    || c == ' ' || '\t' <= c <= '\r'
    || c == '\U{A0}' || c == '\U{1680}' || '\U{2000}' <= c <= '\U{200A}'
    || c == '\U{2028}' || c == '\U{2029}' || c == '\U{202F}' || c == '\U{205F}'
    || c == '\U{3000}' || c == '\U{FEFF}'
  }

  /** JavaScript's `\d`. */
  predicate IsDigit(c: char) { '0' <= c <= '9' }

  predicate IsUpper(c: char) { 'A' <= c <= 'Z' }

  /** JavaScript's `\w`: ASCII letters, digits and the underscore. */
  predicate IsWordChar(c: char) { 'a' <= c <= 'z' || IsUpper(c) || IsDigit(c) || c == '_' }

  /** `toLowerCase` restricted to ASCII. */
  function LowerChar(c: char): (d: char)
    ensures !IsUpper(d)
    ensures IsUpper(c) ==> d as int == c as int + 32
    ensures !IsUpper(c) ==> d == c
  {
    if IsUpper(c) then (c as int + 32) as char else c
  }

  function Lower(s: string): (r: string)
    ensures |r| == |s|
    ensures forall i :: 0 <= i < |s| ==> r[i] == LowerChar(s[i])
    ensures forall c :: c in r ==> !IsUpper(c)
  {
    seq(|s|, i requires 0 <= i < |s| => LowerChar(s[i]))
  }

  lemma LowerIdempotent(s: string)
    ensures Lower(Lower(s)) == Lower(s)
  {
  }

  lemma LowerConcat(a: string, b: string)
    ensures Lower(a + b) == Lower(a) + Lower(b)
  {
  }

  /** Case-insensitive equality of ASCII characters, as a regular expression with the `i` flag compares them. */
  predicate SameLetterCI(c: char, d: char) { LowerChar(c) == LowerChar(d) }

  predicate EndsWithCI(s: string, suffix: string) {
    |suffix| <= |s| && Lower(s[|s| - |suffix|..]) == Lower(suffix)
  }

  // ---- whitespace ----------------------------------------------------------

  predicate NoSpace(s: string) { forall i :: 0 <= i < |s| ==> !IsSpace(s[i]) }

  /** `s.replace(/\s+/g, '')`. */
  function RemoveSpaces(s: string): string {
    if s == [] then []
    else if IsSpace(s[0]) then RemoveSpaces(s[1..])
    else [s[0]] + RemoveSpaces(s[1..])
  }

  /** Removing whitespace leaves no whitespace, keeps only characters of `s`, and changes nothing when there is none. */
  lemma {:induction false} RemoveSpacesShape(s: string)
    ensures NoSpace(RemoveSpaces(s))
    ensures |RemoveSpaces(s)| <= |s|
    ensures forall c :: c in RemoveSpaces(s) ==> c in s
    ensures NoSpace(s) ==> RemoveSpaces(s) == s
  {
    if s != [] {
      RemoveSpacesShape(s[1..]);
      assert forall c :: c in s[1..] ==> c in s;
    }
  }

  lemma RemoveSpacesConcat(a: string, b: string)
    ensures RemoveSpaces(a + b) == RemoveSpaces(a) + RemoveSpaces(b)
  {
    if a == [] {
      assert a + b == b;
    } else {
      assert (a + b)[0] == a[0];
      assert (a + b)[1..] == a[1..] + b;
      RemoveSpacesConcat(a[1..], b);
    }
  }

  /** Length of the run of whitespace at the front of `s`. */
  function SpaceRun(s: string): (n: nat)
    ensures n <= |s|
    ensures forall i :: 0 <= i < n ==> IsSpace(s[i])
    ensures n < |s| ==> !IsSpace(s[n])
  {
    if s != [] && IsSpace(s[0]) then 1 + SpaceRun(s[1..]) else 0
  }

  /** `s.replace(/\s+/g, c)`: every maximal run of whitespace becomes the single character `c`. */
  function ReplaceSpaceRuns(s: string, c: char): string
    decreases |s|
  {
    if s == [] then []
    else if IsSpace(s[0]) then [c] + ReplaceSpaceRuns(s[SpaceRun(s)..], c)
    else [s[0]] + ReplaceSpaceRuns(s[1..], c)
  }

  /**
   * After the replacement every whitespace character is `c`, no two whitespace
   * characters are adjacent, and every other character comes from `s`.
   */
  lemma {:induction false} ReplaceSpaceRunsShape(s: string, c: char)
    ensures var r := ReplaceSpaceRuns(s, c);
      && |r| <= |s|
      && (forall i :: 0 <= i < |r| && IsSpace(r[i]) ==> r[i] == c)
      && (forall i :: 0 < i < |r| && IsSpace(r[i]) ==> !IsSpace(r[i - 1]))
      && (s != [] && !IsSpace(s[0]) ==> r != [] && r[0] == s[0])
      && (forall d :: d in r ==> d == c || d in s)
    decreases |s|
  {
    if s != [] {
      if IsSpace(s[0]) {
        var n := SpaceRun(s);
        ReplaceSpaceRunsShape(s[n..], c);
        var rest := ReplaceSpaceRuns(s[n..], c);
        assert n < |s| ==> s[n..][0] == s[n];
        assert forall d :: d in s[n..] ==> d in s;
        ConsShape(c, rest, c);
      } else {
        ReplaceSpaceRunsShape(s[1..], c);
        var rest := ReplaceSpaceRuns(s[1..], c);
        assert forall d :: d in s[1..] ==> d in s;
        ConsShape(s[0], rest, c);
      }
    }
  }

  /** One more character in front keeps the whitespace single when it is `c` before a non-space, or not a space. */
  lemma ConsShape(x: char, rest: string, c: char)
    requires forall i :: 0 <= i < |rest| && IsSpace(rest[i]) ==> rest[i] == c
    requires forall i :: 0 < i < |rest| && IsSpace(rest[i]) ==> !IsSpace(rest[i - 1])
    requires IsSpace(x) ==> x == c && (rest == [] || !IsSpace(rest[0]))
    ensures var r := [x] + rest;
      && (forall i :: 0 <= i < |r| && IsSpace(r[i]) ==> r[i] == c)
      && (forall i :: 0 < i < |r| && IsSpace(r[i]) ==> !IsSpace(r[i - 1]))
      && (forall d :: d in r ==> d == x || d in rest)
  {
    var r := [x] + rest;
    assert forall i :: 0 < i < |r| ==> r[i] == rest[i - 1];
  }

  /** Runs do not cross a non-space character, so the replacement works piece by piece. */
  lemma {:induction false} ReplaceSpaceRunsConcat(a: string, b: string, c: char)
    requires a == [] || !IsSpace(a[|a| - 1])
    ensures ReplaceSpaceRuns(a + b, c) == ReplaceSpaceRuns(a, c) + ReplaceSpaceRuns(b, c)
    decreases |a|
  {
    if a == [] {
      assert a + b == b;
    } else {
      var n := if IsSpace(a[0]) then SpaceRun(a) else 1;
      ConcatFirstStep(a, b, c);
      ReplaceSpaceRunsConcat(a[n..], b, c);
      AppendAssoc([if IsSpace(a[0]) then c else a[0]], ReplaceSpaceRuns(a[n..], c), ReplaceSpaceRuns(b, c));
    }
  }

  /** A whole run of whitespace, however long, becomes exactly one `c` in front of what follows it. */
  lemma ReplaceSpaceRunOnce(w: string, b: string, c: char)
    requires w != [] && forall i :: 0 <= i < |w| ==> IsSpace(w[i])
    requires b == [] || !IsSpace(b[0])
    ensures ReplaceSpaceRuns(w + b, c) == [c] + ReplaceSpaceRuns(b, c)
  {
    var s := w + b;
    assert forall i :: 0 <= i < |w| ==> s[i] == w[i];
    assert |w| < |s| ==> s[|w|] == b[0];
    assert SpaceRun(s) == |w|;
    assert s[|w|..] == b;
  }

  /** The first step of the replacement on `a + b` consumes the same prefix as on `a`. */
  lemma ConcatFirstStep(a: string, b: string, c: char)
    requires a != [] && !IsSpace(a[|a| - 1])
    ensures var n := if IsSpace(a[0]) then SpaceRun(a) else 1;
      && 0 < n <= |a|
      && (a[n..] == [] || !IsSpace(a[n..][|a[n..]| - 1]))
      && ReplaceSpaceRuns(a + b, c) == [if IsSpace(a[0]) then c else a[0]] + ReplaceSpaceRuns(a[n..] + b, c)
      && ReplaceSpaceRuns(a, c) == [if IsSpace(a[0]) then c else a[0]] + ReplaceSpaceRuns(a[n..], c)
  {
    assert (a + b)[0] == a[0];
    var n := if IsSpace(a[0]) then SpaceRun(a) else 1;
    if IsSpace(a[0]) {
      SpaceRunPrefix(a, b);
    }
    assert (a + b)[n..] == a[n..] + b;
  }

  lemma {:induction false} SpaceRunPrefix(a: string, b: string)
    requires a != [] && !IsSpace(a[|a| - 1])
    ensures SpaceRun(a + b) == SpaceRun(a)
    decreases |a|
  {
    assert (a + b)[0] == a[0];
    if IsSpace(a[0]) {
      assert (a + b)[1..] == a[1..] + b;
      SpaceRunPrefix(a[1..], b);
    }
  }

  lemma SpaceRunAt(s: string, n: nat)
    requires n < |s| && !IsSpace(s[n])
    requires forall i :: 0 <= i < n ==> IsSpace(s[i])
    ensures SpaceRun(s) == n
  {
    if n > 0 {
      SpaceRunAt(s[1..], n - 1);
    }
  }

  /** A string whose whitespace is already single `c`s is left as it is. */
  lemma {:induction false} ReplaceSpaceRunsFixed(s: string, c: char)
    requires forall i :: 0 <= i < |s| && IsSpace(s[i]) ==> s[i] == c
    requires forall i :: 0 < i < |s| && IsSpace(s[i]) ==> !IsSpace(s[i - 1])
    ensures ReplaceSpaceRuns(s, c) == s
    decreases |s|
  {
    if s != [] {
      if IsSpace(s[0]) {
        if |s| > 1 { SpaceRunAt(s, 1); }
      }
      ReplaceSpaceRunsFixed(s[1..], c);
    }
  }

  /** `s` without whitespace and without any occurrence of `c`. */
  function Squash(s: string, c: char): string {
    if s == [] then []
    else if IsSpace(s[0]) || s[0] == c then Squash(s[1..], c)
    else [s[0]] + Squash(s[1..], c)
  }

  lemma {:induction false} SquashSpaceRun(s: string, c: char, n: nat)
    requires n <= |s|
    requires forall i :: 0 <= i < n ==> IsSpace(s[i])
    ensures Squash(s, c) == Squash(s[n..], c)
  {
    if n > 0 {
      SquashSpaceRun(s[1..], c, n - 1);
      assert s[1..][n - 1..] == s[n..];
    }
  }

  /** Squashing works piecewise. */
  lemma {:induction false} SquashConcat(a: string, b: string, c: char)
    ensures Squash(a + b, c) == Squash(a, c) + Squash(b, c)
    decreases |a|
  {
    if a != [] {
      SquashConcat(a[1..], b, c);
      assert (a + b)[1..] == a[1..] + b;
      assert (a + b)[0] == a[0];
    } else {
      assert a + b == b;
    }
  }

  /** Replacing whitespace runs keeps every other character, in order. */
  lemma {:induction false} ReplaceSpaceRunsKeepsText(s: string, c: char)
    ensures Squash(ReplaceSpaceRuns(s, c), c) == Squash(s, c)
    decreases |s|
  {
    if s != [] {
      if IsSpace(s[0]) {
        var n := SpaceRun(s);
        ReplaceSpaceRunsKeepsText(s[n..], c);
        SquashSpaceRun(s, c, n);
        assert ([c] + ReplaceSpaceRuns(s[n..], c))[1..] == ReplaceSpaceRuns(s[n..], c);
      } else {
        ReplaceSpaceRunsKeepsText(s[1..], c);
        assert ([s[0]] + ReplaceSpaceRuns(s[1..], c))[1..] == ReplaceSpaceRuns(s[1..], c);
      }
    }
  }

  function TrimStart(s: string): string {
    if s != [] && IsSpace(s[0]) then TrimStart(s[1..]) else s
  }

  function TrimEnd(s: string): string {
    if s != [] && IsSpace(s[|s| - 1]) then TrimEnd(s[..|s| - 1]) else s
  }

  /** `s.trim()`: `s` without its leading and trailing whitespace. */
  function Trim(s: string): string {
    TrimEnd(TrimStart(s))
  }

  /** `TrimStart` drops exactly the leading whitespace. */
  lemma {:induction false} TrimStartShape(s: string)
    ensures |TrimStart(s)| <= |s| && TrimStart(s) == s[|s| - |TrimStart(s)|..]
    ensures forall i :: 0 <= i < |s| - |TrimStart(s)| ==> IsSpace(s[i])
    ensures TrimStart(s) == [] || !IsSpace(TrimStart(s)[0])
  {
    if s != [] && IsSpace(s[0]) {
      var rest := s[1..];
      TrimStartShape(rest);
      var t := TrimStart(rest);
      assert TrimStart(s) == t;
      assert rest[|rest| - |t|..] == s[|s| - |t|..];
      forall i | 0 <= i < |s| - |t| ensures IsSpace(s[i]) {
        if i > 0 { assert s[i] == rest[i - 1]; }
      }
    }
  }

  /** `TrimEnd` drops exactly the trailing whitespace. */
  lemma {:induction false} TrimEndShape(s: string)
    ensures |TrimEnd(s)| <= |s| && TrimEnd(s) == s[..|TrimEnd(s)|]
    ensures forall i :: |TrimEnd(s)| <= i < |s| ==> IsSpace(s[i])
    ensures TrimEnd(s) == [] || !IsSpace(TrimEnd(s)[|TrimEnd(s)| - 1])
  {
    if s != [] && IsSpace(s[|s| - 1]) {
      var init := s[..|s| - 1];
      TrimEndShape(init);
      var t := TrimEnd(init);
      assert TrimEnd(s) == t;
      assert init[..|t|] == s[..|t|];
      forall i | |t| <= i < |s| ensures IsSpace(s[i]) {
        if i < |s| - 1 { assert s[i] == init[i]; }
      }
    }
  }

  /**
   * Trimming cuts a contiguous piece out of `s`, drops only whitespace around it,
   * and leaves no whitespace at either end.
   */
  lemma TrimSlice(s: string) returns (lo: nat)
    ensures lo + |Trim(s)| <= |s| && Trim(s) == s[lo..lo + |Trim(s)|]
    ensures forall i :: 0 <= i < lo ==> IsSpace(s[i])
    ensures forall i :: lo + |Trim(s)| <= i < |s| ==> IsSpace(s[i])
    ensures Trim(s) == [] || (!IsSpace(Trim(s)[0]) && !IsSpace(Trim(s)[|Trim(s)| - 1]))
  {
    var t := TrimStart(s);
    TrimStartShape(s);
    TrimEndShape(t);
    lo := |s| - |t|;
    var r := TrimEnd(t);
    assert r == t[..|r|];
    assert forall i :: lo + |r| <= i < |s| ==> s[i] == t[i - lo];
  }

  /** A string with no whitespace at its ends trims to itself, also after one trailing space. */
  lemma TrimPadded(s: string)
    requires s != [] && !IsSpace(s[0]) && !IsSpace(s[|s| - 1])
    ensures Trim(s) == s && Trim(s + " ") == s
  {
    assert (s + " ")[0] == s[0];
    assert (s + " ")[..|s|] == s;
  }

  // ---- substrings ----------------------------------------------------------

  /** `needle` occurs in `hay` starting at index `i`. */
  predicate OccursAt(hay: string, needle: string, i: int) {
    0 <= i && i + |needle| <= |hay| && hay[i..i + |needle|] == needle
  }

  lemma OccursAtTail(hay: string, needle: string, i: nat)
    requires hay != []
    ensures OccursAt(hay, needle, i + 1) <==> OccursAt(hay[1..], needle, i)
  {
    if i + 1 + |needle| <= |hay| {
      assert hay[i + 1..i + 1 + |needle|] == hay[1..][i..i + |needle|];
    }
  }

  /** `hay.includes(needle)`. */
  function Includes(hay: string, needle: string): (b: bool)
    ensures b <==> exists i :: OccursAt(hay, needle, i)
    decreases |hay|
  {
    if needle <= hay then
      assert OccursAt(hay, needle, 0);
      true
    else if hay == [] then false
    else
      var b := Includes(hay[1..], needle);
      if b then
        var i :| OccursAt(hay[1..], needle, i);
        OccursAtTail(hay, needle, i);
        true
      else
        forall i | 0 < i
          ensures OccursAt(hay, needle, i) ==> OccursAt(hay[1..], needle, i - 1)
        {
          OccursAtTail(hay, needle, i - 1);
        }
        false
  }

  // ---- decimal numbers -----------------------------------------------------

  predicate AllDigits(s: string) { forall i :: 0 <= i < |s| ==> IsDigit(s[i]) }

  /** End of the greedy `\d*` that starts at `p`. */
  function DigitsEnd(s: string, p: nat): (q: nat)
    requires p <= |s|
    ensures p <= q <= |s|
    ensures forall k :: p <= k < q ==> IsDigit(s[k])
    ensures q == |s| || !IsDigit(s[q])
    decreases |s| - p
  {
    if p < |s| && IsDigit(s[p]) then DigitsEnd(s, p + 1) else p
  }

  /** The value of a run of decimal digits, leading zeros allowed (`parseInt(s, 10)`, `Number(s)`). */
  function DigitsValue(s: string): nat
    requires AllDigits(s)
  {
    if s == [] then 0 else DigitsValue(s[..|s| - 1]) * 10 + (s[|s| - 1] as int - '0' as int)
  }

  /** The decimal rendering of `n` that a template literal produces. */
  function DecimalString(n: nat): (s: string)
    ensures s != [] && AllDigits(s)
    ensures |s| > 1 ==> s[0] != '0'
  {
    if n < 10 then [('0' as int + n) as char]
    else DecimalString(n / 10) + [('0' as int + n % 10) as char]
  }

  lemma {:induction false} DecimalRoundTrip(n: nat)
    ensures DigitsValue(DecimalString(n)) == n
  {
    if n >= 10 {
      DecimalRoundTrip(n / 10);
      var s := DecimalString(n);
      assert s[..|s| - 1] == DecimalString(n / 10);
    }
  }
}
