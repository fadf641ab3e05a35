/**
  `os.path.splitext` as POSIX Python defines it: the extension starts at the
  last `.` of the last path component, provided that component has some
  character other than `.` before that dot; otherwise there is no extension.
 */
module Paths {

  /** Index of the last `c` in `s`, or -1 (`str.rfind`). */
  function LastIndexOf(s: string, c: char): (r: int)
    ensures -1 <= r < |s|
    ensures r >= 0 ==> s[r] == c
    ensures forall k :: r < k < |s| ==> s[k] != c
    decreases |s|
  {
    if |s| == 0 then -1
    else if s[|s| - 1] == c then |s| - 1
    else LastIndexOf(s[..|s| - 1], c)
  }

  /** The dot at `d` starts an extension of `p`: it is the last `.`, no `/`
      follows it, and some non-dot character of the same path component
      precedes it. */
  ghost predicate ExtensionAt(p: string, d: int) {
    && 0 <= d < |p| && p[d] == '.'
    && (forall k :: d < k < |p| ==> p[k] != '.' && p[k] != '/')
    && (exists k :: 0 <= k < d && p[k] != '.' && forall m :: k <= m < d ==> p[m] != '/')
  }

  /** `os.path.splitext(p)`: `(root, ext)`. The two halves make up `p`; the
      extension, when there is one, is a dot and what follows it within the
      last path component. */
  function SplitExt(p: string): (r: (string, string))
    ensures r.0 + r.1 == p
    ensures r.1 != [] ==> r.1[0] == '.'
    ensures forall k :: 0 <= k < |r.1| ==> r.1[k] != '/'
  {
    var sepIndex := LastIndexOf(p, '/');
    var dotIndex := LastIndexOf(p, '.');
    if dotIndex > sepIndex && NonDotBetween(p, sepIndex + 1, dotIndex) then
      (p[..dotIndex], p[dotIndex..])
    else
      (p, "")
  }

  /** The loop of `splitext` that skips the leading dots of the file name:
      some character of `p[lo..hi]` is not a dot. */
  predicate NonDotBetween(p: string, lo: nat, hi: nat)
    requires hi <= |p|
    decreases hi - lo
  {
    lo < hi && (p[lo] != '.' || NonDotBetween(p, lo + 1, hi))
  }

  lemma {:induction false} NonDotBetweenSpec(p: string, lo: nat, hi: nat)
    requires hi <= |p|
    ensures NonDotBetween(p, lo, hi) <==> exists k :: lo <= k < hi && p[k] != '.'
    decreases hi - lo
  {
    if lo < hi {
      NonDotBetweenSpec(p, lo + 1, hi);
    }
  }

  /** The extension `splitext` reports is empty exactly when `p` has none,
      and otherwise starts at the dot that begins it. */
  lemma {:induction false} SplitExtSpec(p: string)
    ensures var r := SplitExt(p);
      && (r.1 != [] <==> exists d :: ExtensionAt(p, d))
      && (r.1 != [] ==> ExtensionAt(p, |r.0|))
  {
    var sepIndex := LastIndexOf(p, '/');
    var dotIndex := LastIndexOf(p, '.');
    if dotIndex > sepIndex {
      NonDotBetweenSpec(p, sepIndex + 1, dotIndex);
    }
    if dotIndex > sepIndex && exists k :: sepIndex < k < dotIndex && p[k] != '.' {
      var k :| sepIndex < k < dotIndex && p[k] != '.';
      assert forall m :: k <= m < dotIndex ==> p[m] != '/';
      assert ExtensionAt(p, dotIndex);
    }
  }

  /** The file name without its extension, as `splitext(name)[0]`. */
  function Stem(name: string): string {
    SplitExt(name).0
  }
}
