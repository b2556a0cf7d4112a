/**
 * The string operations the comparator relies on: Python's `str.strip()`
 * with no arguments, `str.endswith`, the substring test `t in s`, and the
 * final component of a path (`pathlib.Path(p).name`).
 */
module Text {

  /** The characters Python's `str.isspace` accepts, which are the ones `str.strip()` removes. */
  predicate IsSpace(c: char) {
    if c <= ' ' then c == ' ' || '\t' <= c <= '\r' || '\U{1C}' <= c
    else if c <= '\U{A0}' then c == '\U{85}' || c == '\U{A0}'
    else
      || c == '\U{1680}' || '\U{2000}' <= c <= '\U{200A}'
      || c == '\U{2028}' || c == '\U{2029}' || c == '\U{202F}' || c == '\U{205F}' || c == '\U{3000}'
  }

  predicate AllSpace(s: string) {
    forall k :: 0 <= k < |s| ==> IsSpace(s[k])
  }

  /** The first index at or after `i` whose character is not whitespace, or `|s|` when there is none. */
  function SkipSpaces(s: string, i: nat): (r: nat)
    requires i <= |s|
    ensures i <= r <= |s|
    ensures forall k :: i <= k < r ==> IsSpace(s[k])
    ensures r < |s| ==> !IsSpace(s[r])
    decreases |s| - i
  {
    if i < |s| && IsSpace(s[i]) then SkipSpaces(s, i + 1) else i
  }

  /** The end of `s[lo..j]` once its trailing whitespace is dropped. */
  function BackSpaces(s: string, lo: nat, j: nat): (r: nat)
    requires lo <= j <= |s|
    ensures lo <= r <= j
    ensures forall k :: r <= k < j ==> IsSpace(s[k])
    ensures r > lo ==> !IsSpace(s[r - 1])
  {
    if j > lo && IsSpace(s[j - 1]) then BackSpaces(s, lo, j - 1) else j
  }

  /** `s.strip()`: `s` without its leading and its trailing whitespace. */
  function Strip(s: string): (r: string)
    ensures r == [] || (!IsSpace(r[0]) && !IsSpace(r[|r| - 1]))
  {
    var i := SkipSpaces(s, 0);
    s[i..BackSpaces(s, i, |s|)]
  }

  /** `r` is `s[i..j]`, and everything of `s` outside that slice is whitespace. */
  predicate TrimmedSlice(s: string, i: int, j: int, r: string) {
    && 0 <= i <= j <= |s| && r == s[i..j]
    && (forall k :: 0 <= k < i ==> IsSpace(s[k]))
    && (forall k :: j <= k < |s| ==> IsSpace(s[k]))
  }

  /** `s.strip()` is a contiguous slice of `s`, and everything cut off on either side is whitespace. */
  lemma StripIsTrimmedSlice(s: string)
    ensures exists i, j :: TrimmedSlice(s, i, j, Strip(s))
  {
    var i := SkipSpaces(s, 0);
    assert TrimmedSlice(s, i, BackSpaces(s, i, |s|), Strip(s));
  }

  /** A line is blank after `strip()` exactly when it consists of whitespace only. */
  lemma StripEmptyIffAllSpace(s: string)
    ensures Strip(s) == [] <==> AllSpace(s)
  {
    var i := SkipSpaces(s, 0);
    var j := BackSpaces(s, i, |s|);
    if Strip(s) == [] && i < |s| {
      assert false;
    } else if Strip(s) != [] && AllSpace(s) {
      assert false;
    }
  }

  /** `s.endswith(suffix)`. */
  predicate EndsWith(s: string, suffix: string) {
    |suffix| <= |s| && s[|s| - |suffix|..] == suffix
  }

  /** `t` occurs in `s` starting at index `i`. */
  predicate OccursAt(s: string, t: string, i: int) {
    0 <= i <= |s| - |t| && s[i..i + |t|] == t
  }

  /** `t in s` for strings: `t` occurs in `s` as a contiguous substring. */
  predicate Contains(s: string, t: string) {
    exists i :: 0 <= i <= |s| - |t| && OccursAt(s, t, i)
  }

  /** A string that ends with `suffix` contains it. */
  lemma EndsWithContains(s: string, suffix: string)
    requires EndsWith(s, suffix)
    ensures Contains(s, suffix)
  {
    assert OccursAt(s, suffix, |s| - |suffix|);
  }

  /**
   * The part of `path` after its last '/', or the whole path when it has
   * no separator. This is `pathlib.Path(path).name` for a path whose last
   * component is a file name, as `os.path.join(root, file)` builds it; it
   * is not `pathlib` on a path ending in '/', "." or "..".
   */
  function FileName(path: string): (name: string)
    ensures '/' !in name
    ensures EndsWith(path, name)
    ensures |name| < |path| ==> path[|path| - |name| - 1] == '/'
  {
    if path == [] || path[|path| - 1] == '/' then []
    else
      var name := FileName(path[..|path| - 1]) + [path[|path| - 1]];
      assert path[..|path| - 1][|path| - |name|..] + [path[|path| - 1]] == path[|path| - |name|..];
      name
  }
}
