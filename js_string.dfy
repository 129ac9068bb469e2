/**
 * The JavaScript string primitives the extension relies on, stated with their
 * ECMAScript behaviour, with a `string` taken as a sequence of code points
 * rather than UTF-16 code units: `indexOf`/`lastIndexOf` with a start index,
 * `substring` (which clamps and swaps its arguments), `split` on one character,
 * `Array.prototype.join`, `trim`/`trimStart`, and the regular-expression
 * classes `\s`, `\w` and the line terminators that `.` does not match.
 */
module JsString {

  /** The characters a JavaScript `.` does not match (and where `^`/`$` anchor in multiline mode). */
  predicate IsLineTerminator(c: char) {
    c == '\n' || c == '\r' || c == '\U{2028}' || c == '\U{2029}'
  }

  /** The JavaScript `\s` class; `trim` and `trimStart` remove exactly these characters. */
  predicate IsSpace(c: char) {
    || c == '\t' || c == '\n' || c == '\U{000B}' || c == '\U{000C}' || c == '\r' || c == ' '
    || c == '\U{00A0}' || c == '\U{1680}' || ('\U{2000}' <= c <= '\U{200A}')
    || c == '\U{2028}' || c == '\U{2029}' || c == '\U{202F}' || c == '\U{205F}'
    || c == '\U{3000}' || c == '\U{FEFF}'
  }

  /** The JavaScript `\w` class: ASCII letters, digits and underscore. */
  predicate IsWordChar(c: char) {
    ('a' <= c <= 'z') || ('A' <= c <= 'Z') || ('0' <= c <= '9') || c == '_'
  }

  predicate IsAsciiLetterOrDigit(c: char) {
    ('a' <= c <= 'z') || ('A' <= c <= 'Z') || ('0' <= c <= '9')
  }

  function Max(a: int, b: int): int { if a < b then b else a }

  function Min(a: int, b: int): int { if a < b then a else b }

  /** `s.startsWith(p)`. */
  predicate StartsWith(s: string, p: string) {
    |p| <= |s| && s[..|p|] == p
  }

  /** `p` occurs in `s` starting at index `i`. */
  predicate OccursAt(s: string, p: string, i: int) {
    0 <= i && i + |p| <= |s| && s[i..i + |p|] == p
  }

  /**
   * `s.indexOf(p, from)`: the first occurrence of `p` at an index no smaller
   * than `from` (a negative `from` counts as 0), or -1.
   */
  function IndexOf(s: string, p: string, from: int): (r: int)
    decreases |s| - from
    ensures r == -1 || (Max(from, 0) <= r && OccursAt(s, p, r))
    ensures r != -1 ==> forall i :: Max(from, 0) <= i < r ==> !OccursAt(s, p, i)
    ensures r == -1 ==> forall i :: Max(from, 0) <= i ==> !OccursAt(s, p, i)
  {
    if from < 0 then IndexOf(s, p, 0)
    else if from + |p| > |s| then -1
    else if s[from..from + |p|] == p then from
    else IndexOf(s, p, from + 1)
  }

  /** The first index at or after `from` holding `c`, or -1: `indexOf` for one character. */
  function IndexOfChar(s: string, c: char, from: nat): (r: int)
    requires from <= |s|
    decreases |s| - from
    ensures r == -1 || (from <= r < |s| && s[r] == c)
    ensures forall k :: from <= k < |s| && (r == -1 || k < r) ==> s[k] != c
  {
    if from == |s| then -1
    else if s[from] == c then from
    else IndexOfChar(s, c, from + 1)
  }

  /** `s.indexOf(c, from)` for a one-character pattern, with `from` clamped as JavaScript does. */
  function IndexOfCharFrom(s: string, c: char, from: int): (r: int)
    ensures r == -1 || (Max(from, 0) <= r < |s| && s[r] == c)
    ensures forall k :: Max(from, 0) <= k < |s| && (r == -1 || k < r) ==> s[k] != c
  {
    var f := Max(from, 0);
    if f <= |s| then IndexOfChar(s, c, f) else -1
  }

  /** The character search is `indexOf` with a one-character pattern. */
  lemma IndexOfCharAgrees(s: string, c: char, from: int)
    ensures IndexOfCharFrom(s, c, from) == IndexOf(s, [c], from)
  {
    var r, q := IndexOfCharFrom(s, c, from), IndexOf(s, [c], from);
    if q != -1 {
      OccursChar(s, c, q);
    }
    if r != -1 {
      OccursChar(s, c, r);
    }
    forall k | Max(from, 0) <= k < |s| && (r == -1 || k < r)
      ensures !OccursAt(s, [c], k)
    {
      OccursChar(s, c, k);
    }
  }

  /** The last occurrence of `p` in `s` at an index no larger than `i`, or -1. */
  function LastAtOrBefore(s: string, p: string, i: int): (r: int)
    decreases i + 1
    ensures r == -1 || (0 <= r <= i && OccursAt(s, p, r))
    ensures forall j :: r < j <= i ==> !OccursAt(s, p, j)
  {
    if i < 0 then -1
    else if OccursAt(s, p, i) then i
    else LastAtOrBefore(s, p, i - 1)
  }

  /** `s.lastIndexOf(p)`. */
  function LastIndexOf(s: string, p: string): (r: int)
    ensures r == -1 || OccursAt(s, p, r)
    ensures forall j :: r < j ==> !OccursAt(s, p, j)
  {
    LastAtOrBefore(s, p, |s| - |p|)
  }

  /** `s.lastIndexOf(c)` for a one-character search string. */
  function LastIndexOfChar(s: string, c: char): (r: int)
    ensures -1 <= r < |s|
    ensures r >= 0 ==> s[r] == c
    ensures forall j :: r < j < |s| ==> s[j] != c
  {
    if s == [] then -1
    else if s[|s| - 1] == c then |s| - 1
    else LastIndexOfChar(s[..|s| - 1], c)
  }

  /** The last index in `[a, b)` holding `c`, or -1: `s.substring(a, b).lastIndexOf(c)`, shifted by `a`. */
  function LastIndexOfCharIn(s: string, c: char, a: nat, b: nat): (r: int)
    requires a <= b <= |s|
    decreases b - a
    ensures r == -1 || (a <= r < b && s[r] == c)
    ensures forall q :: a <= q < b && r < q ==> s[q] != c
  {
    if a == b then -1
    else if s[b - 1] == c then b - 1
    else LastIndexOfCharIn(s, c, a, b - 1)
  }

  /** `s.lastIndexOf(p, from)`: the start index is clamped to `[0, |s|]`. */
  function LastIndexOfFrom(s: string, p: string, from: int): (r: int)
    ensures r == -1 || (0 <= r <= Max(from, 0) && OccursAt(s, p, r))
    ensures forall j :: r < j <= Max(from, 0) ==> !OccursAt(s, p, j)
  {
    LastAtOrBefore(s, p, Min(Max(from, 0), |s| - |p|))
  }

  function Clamp(i: int, n: nat): (r: nat)
    ensures r <= n
  {
    if i < 0 then 0 else if i > n then n else i
  }

  /**
   * `s.substring(a, b)`: both ends are clamped into `[0, |s|]` and swapped
   * when the first exceeds the second.
   */
  function Substring(s: string, a: int, b: int): (r: string)
    ensures |r| <= |s|
    ensures 0 <= a <= b <= |s| ==> r == s[a..b]
  {
    var x, y := Clamp(a, |s|), Clamp(b, |s|);
    if x <= y then s[x..y] else s[y..x]
  }

  /** `s.trimStart()`. */
  function TrimStart(s: string): (r: string)
    ensures |r| <= |s| && r == s[|s| - |r|..]
    ensures forall i :: 0 <= i < |s| - |r| ==> IsSpace(s[i])
    ensures r == [] || !IsSpace(r[0])
  {
    if s != [] && IsSpace(s[0]) then TrimStart(s[1..]) else s
  }

  /** `s.trimEnd()`. */
  function TrimEnd(s: string): (r: string)
    ensures |r| <= |s| && r == s[..|r|]
    ensures forall i :: |r| <= i < |s| ==> IsSpace(s[i])
    ensures r == [] || !IsSpace(r[|r| - 1])
  {
    if s != [] && IsSpace(s[|s| - 1]) then TrimEnd(s[..|s| - 1]) else s
  }

  /** `s.trim()`. */
  function Trim(s: string): string {
    TrimEnd(TrimStart(s))
  }

  /** `parts.join(sep)`; an empty array joins to the empty string. */
  function Join(parts: seq<string>, sep: string): string
    decreases |parts|
  {
    if |parts| == 0 then ""
    else if |parts| == 1 then parts[0]
    else parts[0] + sep + Join(parts[1..], sep)
  }

  /** `s.split(c)` for a one-character separator. */
  function Split(s: string, c: char): (r: seq<string>)
    decreases |s|
    ensures |r| >= 1
    ensures forall i :: 0 <= i < |r| ==> c !in r[i]
  {
    if s == [] then [""]
    else
      var rest := Split(s[1..], c);
      if s[0] == c then [""] + rest else [[s[0]] + rest[0]] + rest[1..]
  }

  /** A string without the separator splits into itself alone. */
  lemma {:induction false} SplitNoSep(a: string, c: char)
    requires c !in a
    ensures Split(a, c) == [a]
    decreases |a|
  {
    if a != [] {
      SplitNoSep(a[1..], c);
      assert a == [a[0]] + a[1..];
    }
  }

  lemma {:induction false} JoinSplit(s: string, c: char)
    ensures Join(Split(s, c), [c]) == s
    decreases |s|
  {
    if s != [] {
      var rest := Split(s[1..], c);
      JoinSplit(s[1..], c);
      if s[0] == c {
        assert Split(s, c) == [""] + rest;
        assert Join([""] + rest, [c]) == "" + [c] + Join(rest, [c]);
      } else {
        assert Split(s, c) == [[s[0]] + rest[0]] + rest[1..];
        if |rest| == 1 {
          assert Join(rest, [c]) == rest[0];
        } else {
          assert Join(rest, [c]) == rest[0] + [c] + Join(rest[1..], [c]);
          assert ([[s[0]] + rest[0]] + rest[1..])[1..] == rest[1..];
        }
      }
    }
  }

  /** Joining two pieces puts exactly one separator between them. */
  lemma JoinCons(x: string, rest: seq<string>, sep: string)
    requires |rest| > 0
    ensures Join([x] + rest, sep) == x + sep + Join(rest, sep)
  {
    assert ([x] + rest)[1..] == rest;
  }

  /** ASCII upper-casing of one character (`toUpperCase` on ASCII input). */
  function UpperChar(c: char): char {
    if 'a' <= c <= 'z' then (c as int - 32) as char else c
  }

  /** ASCII lower-casing of one character (`toLowerCase` on ASCII input). */
  function LowerChar(c: char): char {
    if 'A' <= c <= 'Z' then (c as int + 32) as char else c
  }

  /** ASCII `s.toLowerCase()`. */
  function Lower(s: string): (r: string)
    ensures |r| == |s|
    ensures forall i :: 0 <= i < |s| ==> r[i] == LowerChar(s[i])
  {
    if s == [] then [] else [LowerChar(s[0])] + Lower(s[1..])
  }

  /** The index one past the maximal run of `\w` characters of `s` starting at index `i`. */
  function WordEnd(s: string, i: nat): (r: nat)
    requires i <= |s|
    decreases |s| - i
    ensures i <= r <= |s|
    ensures forall k :: i <= k < r ==> IsWordChar(s[k])
    ensures r == |s| || !IsWordChar(s[r])
  {
    if i < |s| && IsWordChar(s[i]) then WordEnd(s, i + 1) else i
  }

  /** The index one past the maximal run of `\s` characters starting at `i`. */
  function SpaceRunEnd(s: string, i: nat): (r: nat)
    requires i <= |s|
    decreases |s| - i
    ensures i <= r <= |s|
    ensures forall k :: i <= k < r ==> IsSpace(s[k])
    ensures r == |s| || !IsSpace(s[r])
  {
    if i < |s| && IsSpace(s[i]) then SpaceRunEnd(s, i + 1) else i
  }

  /** The index of the first line terminator at or after `i`, or `|s|`: where a `.*` started at `i` must stop. */
  function LineEnd(s: string, i: nat): (r: nat)
    requires i <= |s|
    decreases |s| - i
    ensures i <= r <= |s|
    ensures forall k :: i <= k < r ==> !IsLineTerminator(s[k])
    ensures r == |s| || IsLineTerminator(s[r])
  {
    if i < |s| && !IsLineTerminator(s[i]) then LineEnd(s, i + 1) else i
  }

  /** A one-character occurrence is that character at that index. */
  lemma OccursChar(s: string, c: char, i: int)
    ensures OccursAt(s, [c], i) <==> 0 <= i < |s| && s[i] == c
  {
    if 0 <= i < |s| {
      assert s[i..i + 1] == [s[i]];
    }
  }

  /** An occurrence inside the slice `s[a..b]` is an occurrence in `s`, shifted by `a`, that ends by `b`. */
  lemma OccursInSlice(s: string, a: nat, b: nat, p: string, i: int)
    requires a <= b <= |s|
    ensures OccursAt(s[a..b], p, i) <==> 0 <= i && a + i + |p| <= b && OccursAt(s, p, a + i)
  {
    if 0 <= i && a + i + |p| <= b {
      var u, v := s[a..b][i..i + |p|], s[a + i..a + i + |p|];
      assert |u| == |v|;
      assert forall k :: 0 <= k < |u| ==> u[k] == s[a + i + k] == v[k];
      assert u == v;
    }
  }

  /** `s.substring(a, b).lastIndexOf(p)`, shifted by `a`, is the last occurrence of `p` lying wholly in `s[a..b]`. */
  lemma LastIndexOfSlice(s: string, a: nat, b: nat, p: string)
    requires a <= b <= |s|
    ensures var w := LastIndexOf(Substring(s, a, b), p);
      && (w == -1 <==> forall i :: a <= i && i + |p| <= b ==> !OccursAt(s, p, i))
      && (w >= 0 ==>
            && a + w + |p| <= b && OccursAt(s, p, a + w)
            && forall i :: a + w < i && i + |p| <= b ==> !OccursAt(s, p, i))
  {
    var window := s[a..b];
    assert Substring(s, a, b) == window;
    var w := LastIndexOf(window, p);
    forall i | a <= i && i + |p| <= b && OccursAt(s, p, i)
      ensures w >= 0 && i <= a + w
    {
      OccursInSlice(s, a, b, p, i - a);
    }
    if w >= 0 {
      OccursInSlice(s, a, b, p, w);
      forall i | a + w < i && i + |p| <= b
        ensures !OccursAt(s, p, i)
      {
        OccursInSlice(s, a, b, p, i - a);
      }
    }
  }
}
