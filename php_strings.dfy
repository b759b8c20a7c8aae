/** The few PHP string built-ins the commands rely on: `stripos` (as a
    case-insensitive containment test), `trim`, `explode("\n", ...)`,
    `array_filter` on strings and `dirname`. Strings are `seq<char>`;
    case folding is ASCII only. */
module PhpStrings {

  /** ASCII lower-casing of one character, as `stripos` folds it. */
  function LowerChar(c: char): char
  {
    if 'A' <= c <= 'Z' then (c as int + 32) as char else c
  }

  function Lower(s: string): (r: string)
    ensures |r| == |s|
    ensures forall i :: 0 <= i < |s| ==> r[i] == LowerChar(s[i])
  {
    seq(|s|, i requires 0 <= i < |s| => LowerChar(s[i]))
  }

  lemma LowerConcat(a: string, b: string)
    ensures Lower(a + b) == Lower(a) + Lower(b)
  {
  }

  /** `n` occurs in `h` at position `i`. */
  ghost predicate OccursAt(h: string, n: string, i: int)
  {
    0 <= i && i + |n| <= |h| && h[i..i + |n|] == n
  }

  /** Case-sensitive substring test (PHP `strpos($h, $n) !== FALSE`). */
  function Contains(h: string, n: string): (r: bool)
    ensures r <==> exists i :: OccursAt(h, n, i)
    decreases |h|
  {
    if |h| < |n| then false
    else if h[..|n|] == n then
      assert OccursAt(h, n, 0);
      true
    else
      var r := Contains(h[1..], n);
      if r then
        assert exists i :: OccursAt(h, n, i) by {
          var i :| OccursAt(h[1..], n, i);
          assert h[1..][i..i + |n|] == h[i + 1..i + 1 + |n|];
          assert OccursAt(h, n, i + 1);
        }
        r
      else
        assert !OccursAt(h, n, 0) by { assert h[..|n|] == h[0..|n|]; }
        assert forall i :: OccursAt(h, n, i) ==> OccursAt(h[1..], n, i - 1) by {
          forall i | OccursAt(h, n, i) ensures OccursAt(h[1..], n, i - 1) {
            assert h[1..][i - 1..i - 1 + |n|] == h[i..i + |n|];
          }
        }
        r
  }

  /** `stripos($haystack, $needle) !== FALSE`: containment after ASCII
      lower-casing both sides. */
  function ContainsCI(haystack: string, needle: string): (r: bool)
    ensures r <==> exists i :: OccursAt(Lower(haystack), Lower(needle), i)
    ensures r ==> |needle| <= |haystack|
  {
    Contains(Lower(haystack), Lower(needle))
  }

  lemma {:induction false} ContainsCIExtendRight(h: string, t: string, n: string)
    requires ContainsCI(h, n)
    ensures ContainsCI(h + t, n)
  {
    var i :| OccursAt(Lower(h), Lower(n), i);
    LowerConcat(h, t);
    assert (Lower(h) + Lower(t))[i..i + |n|] == Lower(h)[i..i + |n|];
    assert OccursAt(Lower(h + t), Lower(n), i);
  }

  lemma {:induction false} ContainsCIExtendLeft(h: string, t: string, n: string)
    requires ContainsCI(t, n)
    ensures ContainsCI(h + t, n)
  {
    var i :| OccursAt(Lower(t), Lower(n), i);
    LowerConcat(h, t);
    assert (Lower(h) + Lower(t))[|h| + i..|h| + i + |n|] == Lower(t)[i..i + |n|];
    assert OccursAt(Lower(h + t), Lower(n), |h| + i);
  }

  lemma ContainsCISelf(n: string)
    ensures ContainsCI(n, n)
  {
  }

  // ---------------------------------------------------------------- trim

  /** The characters PHP's `trim` strips by default: " \t\n\r\0\x0B". */
  predicate IsTrimChar(c: char)
  {
    c == ' ' || c == '\t' || c == '\n' || c == '\r' || c == '\0' || c == '\U{0B}'
  }

  function LeadingTrimChars(s: string): (k: nat)
    ensures k <= |s|
    ensures forall j :: 0 <= j < k ==> IsTrimChar(s[j])
    ensures k < |s| ==> !IsTrimChar(s[k])
  {
    if s != [] && IsTrimChar(s[0]) then 1 + LeadingTrimChars(s[1..]) else 0
  }

  function TrailingTrimChars(s: string): (k: nat)
    ensures k <= |s|
    ensures forall j :: |s| - k <= j < |s| ==> IsTrimChar(s[j])
    ensures k < |s| ==> !IsTrimChar(s[|s| - 1 - k])
  {
    if s != [] && IsTrimChar(s[|s| - 1]) then 1 + TrailingTrimChars(s[..|s| - 1]) else 0
  }

  /** `r` is the slice of `s` at `i`, and only trim characters lie around it. */
  ghost predicate TrimmedAt(s: string, r: string, i: int)
  {
    && 0 <= i && i + |r| <= |s| && s[i..i + |r|] == r
    && (forall j :: 0 <= j < i ==> IsTrimChar(s[j]))
    && (forall j :: i + |r| <= j < |s| ==> IsTrimChar(s[j]))
  }

  /** PHP `trim($s)`: `s` with its leading and trailing trim characters
      removed. The result is a slice of `s`, neither of its ends is a trim
      character, and everything cut away is a trim character. */
  function Trim(s: string): (r: string)
    ensures exists i :: TrimmedAt(s, r, i)
    ensures r != [] ==> !IsTrimChar(r[0]) && !IsTrimChar(r[|r| - 1])
  {
    var a := LeadingTrimChars(s);
    var t := s[a..];
    var b := TrailingTrimChars(t);
    var r := t[..|t| - b];
    assert TrimmedAt(s, r, a);
    r
  }

  // ------------------------------------------------------------- explode

  /** Index of the first '\n' in `s`, or `|s|` when there is none. */
  function NewlineIndex(s: string): (k: nat)
    ensures k <= |s|
    ensures k < |s| ==> s[k] == '\n'
    ensures forall j :: 0 <= j < k ==> s[j] != '\n'
  {
    if s == [] || s[0] == '\n' then 0 else 1 + NewlineIndex(s[1..])
  }

  predicate HasNoNewline(s: string)
  {
    forall j :: 0 <= j < |s| ==> s[j] != '\n'
  }

  /** `implode("\n", parts)` for a non-empty list. */
  function Implode(parts: seq<string>): string
    requires |parts| >= 1
  {
    if |parts| == 1 then parts[0] else parts[0] + "\n" + Implode(parts[1..])
  }

  /** PHP `explode("\n", s)`: the pieces between newlines, at least one,
      none holding a newline, and gluing them back gives `s`. */
  function Explode(s: string): (parts: seq<string>)
    ensures |parts| >= 1
    ensures forall p :: p in parts ==> HasNoNewline(p)
    ensures Implode(parts) == s
    decreases |s|
  {
    var k := NewlineIndex(s);
    if k == |s| then [s]
    else
      var rest := Explode(s[k + 1..]);
      assert s == s[..k] + "\n" + s[k + 1..];
      [s[..k]] + rest
  }

  /** The other direction: exploding a newline-free list glued with
      newlines gives the list back. */
  lemma {:induction false} ExplodeImplode(parts: seq<string>)
    requires |parts| >= 1
    requires forall p :: p in parts ==> HasNoNewline(p)
    ensures Explode(Implode(parts)) == parts
  {
    if |parts| > 1 {
      var s := Implode(parts);
      var rest := Implode(parts[1..]);
      assert s == parts[0] + "\n" + rest;
      assert parts[0] in parts;
      NewlineOf(parts[0], rest);
      assert s[|parts[0]| + 1..] == rest;
      assert s[..|parts[0]|] == parts[0];
      assert forall p :: p in parts[1..] ==> p in parts;
      ExplodeImplode(parts[1..]);
    } else {
      assert parts[0] in parts;
      assert NewlineIndex(parts[0]) == |parts[0]|;
    }
  }

  lemma {:induction false} NewlineOf(a: string, b: string)
    requires HasNoNewline(a)
    ensures NewlineIndex(a + "\n" + b) == |a|
  {
    var s := a + "\n" + b;
    assert forall j :: 0 <= j < |a| ==> s[j] == a[j];
    assert s[|a|] == '\n';
  }

  // -------------------------------------------------------- array_filter

  /** PHP truthiness of a string: only "" and "0" are falsy. */
  predicate IsFalsy(s: string)
  {
    s == "" || s == "0"
  }

  /** `array_filter($parts)` read in order: the truthy elements, order kept. */
  function DropFalsy(parts: seq<string>): (r: seq<string>)
    ensures |r| <= |parts|
    ensures forall x :: x in r <==> x in parts && !IsFalsy(x)
  {
    if parts == [] then []
    else
      var rest := DropFalsy(parts[1..]);
      assert forall x :: x in parts <==> x == parts[0] || x in parts[1..];
      if IsFalsy(parts[0]) then rest else [parts[0]] + rest
  }

  /** A single entry is kept exactly when it is truthy. */
  lemma DropFalsyOne(x: string)
    ensures DropFalsy([x]) == if IsFalsy(x) then [] else [x]
  {
  }

  /** Filtering distributes over concatenation. With `DropFalsyOne` and
      `DropFalsy([]) == []` this pins the result down: every truthy entry
      is kept, once per occurrence, in input order. */
  lemma {:induction false} DropFalsyAppend(a: seq<string>, b: seq<string>)
    ensures DropFalsy(a + b) == DropFalsy(a) + DropFalsy(b)
  {
    if a == [] {
      assert a + b == b;
    } else {
      assert (a + b)[1..] == a[1..] + b;
      DropFalsyAppend(a[1..], b);
    }
  }

  // ------------------------------------------------------------- dirname

  function DropTrailingSlashes(s: string): (r: string)
    ensures r <= s
    ensures r != [] ==> r[|r| - 1] != '/'
  {
    if s != [] && s[|s| - 1] == '/' then DropTrailingSlashes(s[..|s| - 1]) else s
  }

  function DropTrailingName(s: string): (r: string)
    ensures r <= s
    ensures r != [] ==> r[|r| - 1] == '/'
  {
    if s != [] && s[|s| - 1] != '/' then DropTrailingName(s[..|s| - 1]) else s
  }

  /** PHP `dirname($path)` on a Unix system: trailing slashes are dropped,
      then the last name, then the slashes before it; "." when no slash is
      left and "/" when only the root is. */
  function Dirname(path: string): (r: string)
    ensures path == [] ==> r == []
    ensures path != [] ==> r == "." || r == "/" || (r != [] && r < path && r[|r| - 1] != '/')
  {
    if path == [] then []
    else
      var a := DropTrailingSlashes(path);
      if a == [] then "/"
      else
        var b := DropTrailingName(a);
        if b == [] then "."
        else
          var c := DropTrailingSlashes(b);
          if c == [] then "/" else c
  }

  lemma {:induction false} DropNameOf(d: string, f: string)
    requires d == [] || d[|d| - 1] == '/'
    requires forall j :: 0 <= j < |f| ==> f[j] != '/'
    ensures DropTrailingName(d + f) == d
    decreases |f|
  {
    if f != [] {
      assert (d + f)[..|d + f| - 1] == d + f[..|f| - 1];
      DropNameOf(d, f[..|f| - 1]);
    } else {
      assert d + f == d;
    }
  }

  /** The directory of `dir/name` is `dir`, for a plain file name and a
      directory without a trailing slash. */
  lemma DirnameOfChild(dir: string, name: string)
    requires dir != [] && dir[|dir| - 1] != '/'
    requires name != [] && forall j :: 0 <= j < |name| ==> name[j] != '/'
    ensures Dirname(dir + "/" + name) == dir
  {
    var p := dir + "/" + name;
    assert p[|p| - 1] == name[|name| - 1];
    assert DropTrailingSlashes(p) == p;
    DropNameOf(dir + "/", name);
    assert (dir + "/")[..|dir|] == dir;
    assert DropTrailingSlashes(dir) == dir;
  }
}
