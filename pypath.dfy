/**
 * The POSIX path helpers the reader uses to move between a recording's file
 * name and its index: `os.path.splitext`, `os.path.basename` and
 * `os.path.join` with two arguments.
 */
module PyPath {

  /** `str.rfind` for one character: the last position holding `c`, or -1. */
  function RFind(s: string, c: char): (r: int)
    ensures -1 <= r < |s|
    ensures r >= 0 ==> s[r] == c
    ensures forall i :: r < i < |s| ==> s[i] != c
  {
    if s == [] then -1
    else if s[|s| - 1] == c then |s| - 1
    else RFind(s[..|s| - 1], c)
  }

  /** Some character strictly between `lo` and `hi` is not a dot. */
  predicate HasNonDot(p: string, lo: int, hi: int)
    requires 0 <= lo && hi <= |p|
  {
    exists i :: lo <= i < hi && p[i] != '.'
  }

  /** `posixpath.splitext`: the extension runs from the last dot of the final
      component, unless everything before that dot in the component is dots. */
  function SplitExt(p: string): (r: (string, string))
    ensures r.0 + r.1 == p
    ensures r.1 == [] || (r.1[0] == '.' && forall i :: 0 < i < |r.1| ==> r.1[i] != '.' && r.1[i] != '/')
  {
    var sepIndex := RFind(p, '/');
    var dotIndex := RFind(p, '.');
    if dotIndex > sepIndex && HasNonDot(p, sepIndex + 1, dotIndex) then
      assert p == p[..dotIndex] + p[dotIndex..];
      (p[..dotIndex], p[dotIndex..])
    else
      (p, [])
  }

  /** `posixpath.basename`: what follows the last slash. */
  function Basename(p: string): (r: string)
    ensures forall i :: 0 <= i < |r| ==> r[i] != '/'
  {
    p[RFind(p, '/') + 1..]
  }

  /** `posixpath.join(a, b)`: an absolute `b` replaces `a`; otherwise `b` is
      appended to `a`, with one slash put between them when `a` is non-empty
      and does not already end with one. */
  function Join(a: string, b: string): (r: string)
    ensures |b| <= |r| && r[|r| - |b|..] == b
    ensures |b| > 0 && b[0] == '/' ==> r == b
    ensures !(|b| > 0 && b[0] == '/') ==>
      && |a| <= |r| - |b| <= |a| + 1 && r[..|a|] == a
      && (|r| - |b| == |a| + 1 <==> a != [] && a[|a| - 1] != '/')
      && (|r| - |b| == |a| + 1 ==> r[|a|] == '/')
  {
    if |b| > 0 && b[0] == '/' then b
    else if a == [] || a[|a| - 1] == '/' then a + b
    else a + "/" + b
  }

  /** What follows the last occurrence of `c` does not see earlier text. */
  lemma {:induction false} RFindAppend(x: string, y: string, c: char)
    requires forall i :: 0 <= i < |y| ==> y[i] != c
    ensures RFind(x + y, c) == RFind(x, c)
    decreases |y|
  {
    if y == [] {
      assert x + y == x;
    } else {
      var xy := x + y;
      assert xy[..|xy| - 1] == x + y[..|y| - 1];
      RFindAppend(x, y[..|y| - 1], c);
    }
  }

  lemma RFindLast(x: string, c: char)
    ensures RFind(x + [c], c) == |x|
  {
    assert (x + [c])[|x|] == c;
  }
}
