/**
 * The PHP string built-ins the controllers lean on, over `seq<char>`:
 * `trim`, `empty` on a string, `basename` with the platform's separator, `pathinfo(..., PATHINFO_EXTENSION)`,
 * `strtolower` and `str_replace` of one character by another.
 */
module PhpStrings {

  /** The characters `trim` strips by default: space, tab, newline, carriage return, NUL, vertical tab. */
  predicate IsTrimmed(c: char) {
    c == ' ' || c == '\t' || c == '\n' || c == '\r' || c == 0 as char || c == 11 as char
  }

  /** How many trimmable characters `s` starts with. */
  function LeadingTrimmed(s: string): (k: nat)
    ensures k <= |s|
    ensures forall i :: 0 <= i < k ==> IsTrimmed(s[i])
    ensures k < |s| ==> !IsTrimmed(s[k])
  {
    if s != [] && IsTrimmed(s[0]) then 1 + LeadingTrimmed(s[1..]) else 0
  }

  /** How many trimmable characters `s` ends with. */
  function TrailingTrimmed(s: string): (k: nat)
    ensures k <= |s|
    ensures forall i :: |s| - k <= i < |s| ==> IsTrimmed(s[i])
    ensures k < |s| ==> !IsTrimmed(s[|s| - k - 1])
  {
    if s != [] && IsTrimmed(s[|s| - 1]) then 1 + TrailingTrimmed(s[..|s| - 1]) else 0
  }

  /** `trim($s)`: the middle of `s` between its leading and trailing whitespace. */
  function Trim(s: string): (r: string)
    ensures LeadingTrimmed(s) + |r| <= |s|
    ensures r == s[LeadingTrimmed(s)..LeadingTrimmed(s) + |r|]
    ensures forall i :: LeadingTrimmed(s) + |r| <= i < |s| ==> IsTrimmed(s[i])
    ensures r != [] ==> !IsTrimmed(r[0]) && !IsTrimmed(r[|r| - 1])
  {
    var k := LeadingTrimmed(s);
    if k == |s| then []
    else
      var t := TrailingTrimmed(s);
      s[k..|s| - t]
  }

  lemma {:induction false} TrimOfClean(s: string)
    requires s == [] || (!IsTrimmed(s[0]) && !IsTrimmed(s[|s| - 1]))
    ensures Trim(s) == s
  {
  }

  /** PHP's `empty` on a string: the empty string and "0" are both empty. */
  predicate IsEmpty(s: string) {
    s == "" || s == "0"
  }

  /** PHP's `DIRECTORY_SEPARATOR`: `/` on Unix-like systems, `\\` on Windows. */
  type DirSeparator = c: char | c == '/' || c == '\\' witness '/'

  /** Drops every trailing `a` or `b` from `s`. */
  function StripTrailing(s: string, a: char, b: char): (r: string)
    ensures |r| <= |s| && r == s[..|r|]
    ensures forall i :: |r| <= i < |s| ==> s[i] == a || s[i] == b
    ensures r == [] || (r[|r| - 1] != a && r[|r| - 1] != b)
  {
    if s != [] && (s[|s| - 1] == a || s[|s| - 1] == b) then StripTrailing(s[..|s| - 1], a, b) else s
  }

  /** The part of `s` after its last `a` or `b`; all of `s` when it has neither. */
  function AfterLast(s: string, a: char, b: char): (r: string)
    ensures |r| <= |s| && r == s[|s| - |r|..]
    ensures forall i :: 0 <= i < |r| ==> r[i] != a && r[i] != b
    ensures |r| < |s| ==> s[|s| - |r| - 1] == a || s[|s| - |r| - 1] == b
  {
    if s == [] then []
    else if s[|s| - 1] == a || s[|s| - 1] == b then []
    else AfterLast(s[..|s| - 1], a, b) + [s[|s| - 1]]
  }

  /** A string holding neither `a` nor `b` has nothing to strip and nothing to split. */
  lemma NothingToSplit(s: string, a: char, b: char)
    requires forall i :: 0 <= i < |s| ==> s[i] != a && s[i] != b
    ensures StripTrailing(s, a, b) == s && AfterLast(s, a, b) == s
  {
    AfterLastOfClean(s, a, b);
  }

  lemma {:induction false} AfterLastOfClean(s: string, a: char, b: char)
    requires forall i :: 0 <= i < |s| ==> s[i] != a && s[i] != b
    ensures AfterLast(s, a, b) == s
  {
    if s != [] {
      var init := s[..|s| - 1];
      assert forall i :: 0 <= i < |init| ==> init[i] == s[i];
      AfterLastOfClean(init, a, b);
      assert init + [s[|s| - 1]] == s;
    }
  }

  /** `r` ends `t` and is preceded there by a separator, unless it is all of `t`. */
  predicate IsLastComponent(r: string, t: string, separator: DirSeparator) {
    && |r| <= |t| && r == t[|t| - |r|..]
    && (|r| < |t| ==> t[|t| - |r| - 1] == '/' || t[|t| - |r| - 1] == separator)
  }

  /**
   * `basename($path)`: trailing separators dropped, then the last path
   * component.  PHP splits on `/` everywhere and also on the platform's
   * `DIRECTORY_SEPARATOR`, here `separator`.
   */
  function Basename(path: string, separator: DirSeparator): (r: string)
    ensures forall i :: 0 <= i < |r| ==> r[i] != '/' && r[i] != separator
    ensures (forall i :: 0 <= i < |path| ==> path[i] != '/' && path[i] != separator) ==> r == path
    ensures IsLastComponent(r, StripTrailing(path, '/', separator), separator)
  {
    LastComponent(path, separator);
    AfterLast(StripTrailing(path, '/', separator), '/', separator)
  }

  /**
   * The last component after stripping holds no separator, is the last
   * component of the stripped path, and a path free of separators is its
   * own last component.
   */
  lemma LastComponent(path: string, separator: DirSeparator)
    ensures var t := StripTrailing(path, '/', separator);
            var r := AfterLast(t, '/', separator);
            && (forall i :: 0 <= i < |r| ==> r[i] != '/' && r[i] != separator)
            && IsLastComponent(r, t, separator)
            && ((forall i :: 0 <= i < |path| ==> path[i] != '/' && path[i] != separator) ==> r == path)
  {
    AfterLastIsLast(StripTrailing(path, '/', separator), separator);
    if forall i :: 0 <= i < |path| ==> path[i] != '/' && path[i] != separator {
      NothingToSplit(path, '/', separator);
    }
  }

  lemma AfterLastIsLast(t: string, separator: DirSeparator)
    ensures IsLastComponent(AfterLast(t, '/', separator), t, separator)
  {
  }

  /** `r` is what follows the last dot of `b`: it holds no dot and comes right after one. */
  predicate FollowsLastDot(r: string, b: string) {
    && |r| < |b| && b[|b| - |r| - 1] == '.' && r == b[|b| - |r|..]
    && forall i :: 0 <= i < |r| ==> r[i] != '.'
  }

  /**
   * `pathinfo($path, PATHINFO_EXTENSION)`: what follows the last dot of the
   * basename, or "" when the basename has no dot.
   */
  function Extension(path: string, separator: DirSeparator): (r: string)
    ensures forall i :: 0 <= i < |r| ==> r[i] != '.' && r[i] != '/' && r[i] != separator
    ensures '.' !in Basename(path, separator) ==> r == ""
    ensures '.' in Basename(path, separator) ==> FollowsLastDot(r, Basename(path, separator))
  {
    ExtensionOf(Basename(path, separator), separator)
  }

  /** The extension of a name that holds no separator. */
  function ExtensionOf(b: string, separator: DirSeparator): (r: string)
    requires forall i :: 0 <= i < |b| ==> b[i] != '/' && b[i] != separator
    ensures forall i :: 0 <= i < |r| ==> r[i] != '.' && r[i] != '/' && r[i] != separator
    ensures '.' !in b ==> r == ""
    ensures '.' in b ==> FollowsLastDot(r, b)
  {
    if '.' in b then
      AfterLastDot(b, separator);
      AfterLast(b, '.', '.')
    else ""
  }

  /** In a name free of separators that holds a dot, the part after the last dot follows that dot and holds no separator. */
  lemma AfterLastDot(b: string, separator: DirSeparator)
    requires '.' in b
    requires forall i :: 0 <= i < |b| ==> b[i] != '/' && b[i] != separator
    ensures FollowsLastDot(AfterLast(b, '.', '.'), b)
    ensures var r := AfterLast(b, '.', '.');
            forall i :: 0 <= i < |r| ==> r[i] != '/' && r[i] != separator
  {
    var r := AfterLast(b, '.', '.');
    assert forall i :: 0 <= i < |r| ==> r[i] == b[|b| - |r| + i];
  }

  function ToLowerChar(c: char): (d: char)
    ensures 'A' <= c <= 'Z' ==> 'a' <= d <= 'z' && d as int == c as int + 32
    ensures !('A' <= c <= 'Z') ==> d == c
  {
    if 'A' <= c <= 'Z' then (c as int + 32) as char else c
  }

  /** `strtolower`: ASCII letters folded to lower case, everything else kept. */
  function ToLower(s: string): (r: string)
    ensures |r| == |s|
    ensures forall i :: 0 <= i < |s| ==> r[i] == ToLowerChar(s[i])
  {
    if s == [] then [] else [ToLowerChar(s[0])] + ToLower(s[1..])
  }

  /** `str_replace($from, $to, $s)` for single characters. */
  function ReplaceChar(s: string, from: char, to: char): (r: string)
    ensures |r| == |s|
    ensures forall i :: 0 <= i < |s| ==> r[i] == if s[i] == from then to else s[i]
  {
    seq(|s|, i requires 0 <= i < |s| => if s[i] == from then to else s[i])
  }

  /** Replacing a character by itself changes nothing. */
  lemma ReplaceSame(s: string, c: char)
    ensures ReplaceChar(s, c, c) == s
  {
  }

  /** `str_replace` on single characters works piece by piece. */
  lemma ReplaceAppend(a: string, b: string, from: char, to: char)
    ensures ReplaceChar(a + b, from, to) == ReplaceChar(a, from, to) + ReplaceChar(b, from, to)
  {
  }

  lemma ReplaceAbsent(s: string, from: char, to: char)
    requires from !in s
    ensures ReplaceChar(s, from, to) == s
  {
  }
}
