/** `drupal:find-sites`: turning the result of the external `find` search
    for `settings.php` files into the list of site directories. The search
    itself is outside the model; its exit code and its standard output are
    the inputs. */
module FindSites {
  import opened Wrappers
  import opened PhpStrings

  /** The directory of each file, in order. */
  function Dirnames(files: seq<string>): (dirs: seq<string>)
    ensures |dirs| == |files|
  {
    seq(|files|, i requires 0 <= i < |files| => Dirname(files[i]))
  }

  /** What `findSites` returns for a `find` run that exited with
      `exitCode` and printed `output`: `None` (PHP `null`) when the run
      failed or printed nothing but white space (or "0"), otherwise the
      directory of every non-falsy output line (neither "" nor "0"). */
  function FindSitesResult(exitCode: int, output: string): Option<seq<string>>
  {
    if exitCode != 0 then None
    else
      var trimmed := Trim(output);
      if IsFalsy(trimmed) then None
      else Some(Dirnames(DropFalsy(Explode(trimmed))))
  }

  /** `findSites` after the search: check the exit code, trim and split
      the output, drop the falsy entries ("" and "0") and collect each
      entry's directory. */
  method FindSites(exitCode: int, output: string) returns (directories: Option<seq<string>>)
    ensures directories == FindSitesResult(exitCode, output)
  {
    if exitCode != 0 {
      return None;
    }
    var trimmed := Trim(output);
    if IsFalsy(trimmed) {
      return None;
    }
    var files := DropFalsy(Explode(trimmed));
    var found: seq<string> := [];
    for i := 0 to |files|
      invariant |found| == i
      invariant forall j :: 0 <= j < i ==> found[j] == Dirname(files[j])
    {
      found := found + [Dirname(files[i])];
    }
    assert found == Dirnames(files);
    return Some(found);
  }

  // ---------------------------------------------------------------- lemmas

  /** A failed search, or one that printed only white space, gives no
      list at all; otherwise there is one directory per non-falsy output
      line (neither "" nor "0"), the directory of that line's path, in
      output order. This unfolds `FindSitesResult`; what the lines and
      directories are comes from the contracts of `Trim`, `Explode`,
      `DropFalsyOne`, `DropFalsyAppend` and `DirnameOfChild`. */
  lemma FindSitesResultMeaning(exitCode: int, output: string)
    ensures FindSitesResult(exitCode, output).None? <==> exitCode != 0 || IsFalsy(Trim(output))
    ensures FindSitesResult(exitCode, output).Some? ==>
              var files := DropFalsy(Explode(Trim(output)));
              var dirs := FindSitesResult(exitCode, output).value;
              && |dirs| == |files|
              && (forall i :: 0 <= i < |files| ==> dirs[i] == Dirname(files[i]) && !IsFalsy(files[i]))
  {
  }

  function SettingsPath(dir: string): string
  {
    dir + "/settings.php"
  }

  lemma {:induction false} ImplodeEnds(parts: seq<string>)
    requires |parts| >= 1 && forall i :: 0 <= i < |parts| ==> parts[i] != []
    ensures var s := Implode(parts);
      && s != []
      && s[0] == parts[0][0]
      && s[|s| - 1] == parts[|parts| - 1][|parts[|parts| - 1]| - 1]
  {
    if |parts| > 1 {
      ImplodeEnds(parts[1..]);
    }
  }

  lemma {:induction false} DropFalsyKeepsTruthy(parts: seq<string>)
    requires forall p :: p in parts ==> !IsFalsy(p)
    ensures DropFalsy(parts) == parts
  {
    if parts != [] {
      assert parts[0] in parts;
      assert forall p :: p in parts[1..] ==> p in parts;
      DropFalsyKeepsTruthy(parts[1..]);
    }
  }

  /** `trim` removes the newline that ends `find`'s listing and nothing
      else, when the listing does not start or end with white space. */
  lemma TrimListing(s: string)
    requires s != [] && !IsTrimChar(s[0]) && !IsTrimChar(s[|s| - 1])
    ensures Trim(s + "\n") == s
  {
  }

  /** The paths `find` lists for the directories `dirs`, in order. */
  function SettingsPaths(dirs: seq<string>): (paths: seq<string>)
    ensures |paths| == |dirs|
  {
    seq(|dirs|, i requires 0 <= i < |dirs| => SettingsPath(dirs[i]))
  }

  /** The listing `find` prints for `settings.php` files in the directories
      `dirs` (one path per line, in order) gives back exactly `dirs`. */
  lemma ListingYieldsSiteDirectories(dirs: seq<string>)
    requires |dirs| >= 1
    requires forall d :: d in dirs ==> d != [] && d[|d| - 1] != '/' && HasNoNewline(d)
    requires !IsTrimChar(dirs[0][0])
    ensures FindSitesResult(0, Implode(SettingsPaths(dirs)) + "\n") == Some(dirs)
  {
    var paths := SettingsPaths(dirs);
    var listing := Implode(paths);
    SettingsPathsFacts(dirs);
    ListingIsTrimmed(dirs);
    ExplodeImplode(paths);
    DropFalsyKeepsTruthy(paths);
    assert DropFalsy(Explode(Trim(listing + "\n"))) == paths;
    assert Dirnames(paths) == dirs;
  }

  lemma SettingsPathsFacts(dirs: seq<string>)
    requires forall d :: d in dirs ==> d != [] && d[|d| - 1] != '/' && HasNoNewline(d)
    ensures forall i :: 0 <= i < |dirs| ==>
              var p := SettingsPaths(dirs)[i];
              && HasNoNewline(p) && |p| > 1 && p[0] == dirs[i][0] && p[|p| - 1] == 'p'
              && Dirname(p) == dirs[i]
    ensures forall p :: p in SettingsPaths(dirs) ==> HasNoNewline(p) && !IsFalsy(p)
  {
    forall i | 0 <= i < |dirs|
      ensures var p := SettingsPaths(dirs)[i];
        && HasNoNewline(p) && |p| > 1 && p[0] == dirs[i][0] && p[|p| - 1] == 'p'
        && Dirname(p) == dirs[i]
    {
      assert dirs[i] in dirs;
      SettingsPathFacts(dirs[i]);
    }
  }

  lemma ListingIsTrimmed(dirs: seq<string>)
    requires |dirs| >= 1
    requires forall d :: d in dirs ==> d != [] && d[|d| - 1] != '/' && HasNoNewline(d)
    requires !IsTrimChar(dirs[0][0])
    ensures Trim(Implode(SettingsPaths(dirs)) + "\n") == Implode(SettingsPaths(dirs))
    ensures !IsFalsy(Implode(SettingsPaths(dirs)))
  {
    var paths := SettingsPaths(dirs);
    var listing := Implode(paths);
    SettingsPathsFacts(dirs);
    ImplodeEnds(paths);
    TrimListing(listing);
    ImplodeLength(paths);
  }

  lemma SettingsPathFacts(dir: string)
    requires dir != [] && dir[|dir| - 1] != '/' && HasNoNewline(dir)
    ensures var p := SettingsPath(dir);
      && HasNoNewline(p) && |p| > 1 && p[0] == dir[0] && p[|p| - 1] == 'p'
      && Dirname(p) == dir
  {
    var p := SettingsPath(dir);
    assert p == dir + "/" + "settings.php";
    assert forall j :: |dir| <= j < |p| ==> p[j] == "/settings.php"[j - |dir|];
    DirnameOfChild(dir, "settings.php");
  }

  lemma {:induction false} ImplodeLength(parts: seq<string>)
    requires |parts| >= 1
    ensures |Implode(parts)| >= |parts[0]|
  {
  }
}
