/**
 * The POSIX path operations of Node's `path` module that the main process uses
 * (frontend/main.js): `join`, `basename` and `extname`, and the launcher's
 * directories under the user's home.
 */
module Paths {
  import opened Common

  /**
   * `path.join(a, b)` for the paths the launcher builds. Node would also collapse
   * repeated '/', '.' and '..' segments; that normalisation is not part of this model.
   */
  function Join(a: string, b: string): string {
    a + "/" + b
  }

  /** `~/.smoke`, `~/.smoke/downloads` and `~/.smoke/apps` for the home directory `home`. */
  function SmokeDir(home: string): string { Join(home, ".smoke") }
  function DownloadsDir(home: string): string { Join(SmokeDir(home), "downloads") }
  function AppsDir(home: string): string { Join(SmokeDir(home), "apps") }

  function TrimTrailingSlashes(p: string): string {
    if p != [] && p[|p| - 1] == '/' then TrimTrailingSlashes(p[..|p| - 1]) else p
  }

  /** The text after the last '/'. */
  function LastSegment(p: string): string {
    if p == [] || p[|p| - 1] == '/' then [] else LastSegment(p[..|p| - 1]) + [p[|p| - 1]]
  }

  /** `path.basename(p)`: the last segment once trailing slashes are dropped. */
  function Basename(p: string): string {
    LastSegment(TrimTrailingSlashes(p))
  }

  /** The index of the last '.' of `s`, if any. */
  function LastDot(s: string): (r: Option<nat>)
    ensures r.Some? ==> r.value < |s| && s[r.value] == '.'
    ensures r.Some? ==> forall k :: r.value < k < |s| ==> s[k] != '.'
    ensures r.None? ==> forall k :: 0 <= k < |s| ==> s[k] != '.'
  {
    if s == [] then None
    else if s[|s| - 1] == '.' then Some(|s| - 1)
    else LastDot(s[..|s| - 1])
  }

  /**
   * `path.extname(p)`: from the last '.' of the base name to its end; empty when the
   * base name has no '.', when its only candidate '.' is its first character, or when it is "..".
   */
  function ExtName(p: string): string {
    var seg := Basename(p);
    match LastDot(seg)
    case None => []
    case Some(d) => if d == 0 || seg == ".." then [] else seg[d..]
  }

  /** `path.basename(p, path.extname(p))`: the base name without its extension. */
  function StripExtension(p: string): string {
    var seg := Basename(p);
    var e := ExtName(p);
    if |e| <= |seg| then seg[..|seg| - |e|] else seg
  }

  lemma {:induction false} LastSegmentShape(p: string)
    ensures '/' !in LastSegment(p)
    ensures '/' !in p ==> LastSegment(p) == p
    ensures |LastSegment(p)| <= |p| && LastSegment(p) == p[|p| - |LastSegment(p)|..]
  {
    if p != [] && p[|p| - 1] != '/' {
      var init := p[..|p| - 1];
      LastSegmentShape(init);
      assert '/' !in p ==> '/' !in init by {
        assert forall c :: c in init ==> c in p;
      }
      assert p == init + [p[|p| - 1]];
    }
  }

  lemma {:induction false} TrimTrailingSlashesShape(p: string)
    ensures var t := TrimTrailingSlashes(p); |t| <= |p| && t == p[..|t|]
    ensures var t := TrimTrailingSlashes(p); t == [] || t[|t| - 1] != '/'
    ensures p == [] || p[|p| - 1] != '/' ==> TrimTrailingSlashes(p) == p
  {
    if p != [] && p[|p| - 1] == '/' {
      TrimTrailingSlashesShape(p[..|p| - 1]);
    }
  }

  /** The base name holds no '/', and a name without '/' is its own base name. */
  lemma BasenameShape(p: string)
    ensures '/' !in Basename(p)
    ensures '/' !in p ==> Basename(p) == p
  {
    TrimTrailingSlashesShape(p);
    LastSegmentShape(TrimTrailingSlashes(p));
    if '/' !in p {
      assert p == [] || p[|p| - 1] != '/';
    }
  }

  /** Joining a directory with a name that holds no '/' and taking the base name gives the name back. */
  lemma BasenameOfJoin(dir: string, name: string)
    requires name != [] && '/' !in name
    ensures Basename(Join(dir, name)) == name
  {
    var p := Join(dir, name);
    assert p[|p| - 1] == name[|name| - 1];
    TrimTrailingSlashesShape(p);
    assert p == (dir + "/") + name;
    LastSegmentConcat(dir + "/", name);
  }

  lemma {:induction false} LastSegmentConcat(a: string, b: string)
    requires a != [] && a[|a| - 1] == '/' && '/' !in b
    ensures LastSegment(a + b) == b
  {
    if b == [] {
      assert a + b == a;
    } else {
      var init := b[..|b| - 1];
      assert '/' !in init by {
        assert forall c :: c in init ==> c in b;
      }
      LastSegmentConcat(a, init);
      assert (a + b)[..|a + b| - 1] == a + init;
      assert b == init + [b[|b| - 1]];
    }
  }

  /**
   * A non-empty extension starts with the base name's last '.', which is not its
   * first character, and runs to its end; stripping it leaves the rest of the base name.
   */
  lemma ExtNameShape(p: string)
    ensures |ExtName(p)| < |Basename(p)| || ExtName(p) == []
    ensures var seg, e := Basename(p), ExtName(p);
      e != [] ==> e[0] == '.' && seg == seg[..|seg| - |e|] + e && '.' !in e[1..] && |seg| - |e| > 0
    ensures StripExtension(p) + ExtName(p) == Basename(p)
  {
    var seg := Basename(p);
    match LastDot(seg)
    case None =>
    case Some(d) =>
      if d != 0 && seg != ".." {
        var e := seg[d..];
        assert forall k :: 0 <= k < |e| - 1 ==> e[1..][k] == seg[d + 1 + k];
      }
  }

  /** The last '.' of `a + "." + b` is the one after `a` when `b` holds none. */
  lemma {:induction false} LastDotBefore(a: string, b: string)
    requires '.' !in b
    ensures LastDot(a + ['.'] + b) == Some(|a|)
  {
    if b != [] {
      var init := b[..|b| - 1];
      assert '.' !in init by {
        assert forall c :: c in init ==> c in b;
      }
      LastDotBefore(a, init);
      assert (a + ['.'] + b)[..|a + ['.'] + b| - 1] == a + ['.'] + init;
    } else {
      assert a + ['.'] + b == a + ['.'];
    }
  }

  lemma ExtNameOfArchive()
    ensures ExtName("game.rar") == ".rar"
    ensures StripExtension("game.rar") == "game"
  {
    BasenameShape("game.rar");
    LastDotBefore("game", "rar");
    assert "game" + ['.'] + "rar" == "game.rar";
  }

  /** A name that starts with its only '.' has no extension, so nothing is stripped. */
  lemma ExtNameOfDotfile()
    ensures ExtName(".rar") == ""
    ensures StripExtension(".rar") == ".rar"
  {
    BasenameShape(".rar");
    LastDotBefore("", "rar");
    assert "" + ['.'] + "rar" == ".rar";
  }
}
