/**
 * The subset of Node's `path` module (POSIX flavour) that the extension uses:
 * `isAbsolute`, `join`, `resolve`, `dirname`, `basename` and `extname`.
 * Paths are plain strings. `join` and `resolve` collapse repeated
 * separators as Node's normalisation does; `.`/`..` segments are not
 * resolved.
 */
module Paths {
  import opened JsString

  predicate IsAbsolute(p: string) {
    |p| > 0 && p[0] == '/'
  }

  /** A `..` segment starts at `i`. */
  predicate ParentAt(p: string, i: int) {
    0 <= i && i + 1 < |p| && (i == 0 || p[i - 1] == '/') && p[i] == '.' && p[i + 1] == '.'
    && (i + 2 == |p| || p[i + 2] == '/')
  }

  /** No segment of `p` is `..`. */
  predicate NoParentSegment(p: string) {
    forall i :: 0 <= i < |p| ==> !ParentAt(p, i)
  }

  /** A separator at `i` follows another. */
  predicate DoubleAt(p: string, i: int) {
    0 < i < |p| && p[i - 1] == '/' && p[i] == '/'
  }

  /** No two separators are adjacent. */
  predicate Collapsed(p: string) {
    forall i :: 0 < i < |p| ==> !DoubleAt(p, i)
  }

  /** The separator collapsing of `path.normalize`: every run of `/` becomes one `/`. */
  function Collapse(p: string): (r: string)
    decreases |p|
    ensures |r| <= |p| && (r == "" <==> p == "")
    ensures p != "" ==> r[0] == p[0]
    ensures Collapsed(r)
    ensures Collapsed(p) ==> r == p
  {
    if |p| < 2 then p
    else if p[0] == '/' && p[1] == '/' then assert DoubleAt(p, 1); Collapse(p[1..])
    else
      var rest := Collapse(p[1..]);
      assert rest[0] == p[1];
      assert Collapsed(p) ==> Collapsed(p[1..]) by {
        assert forall i :: DoubleAt(p[1..], i) ==> DoubleAt(p, i + 1);
      }
      var r := [p[0]] + rest;
      assert forall i :: DoubleAt(r, i) ==> i == 1 || DoubleAt(rest, i - 1);
      r
  }

  /** Collapsing a longer string keeps what collapsing its prefix gives as a prefix. */
  lemma {:induction false} CollapsePrefix(x: string, y: string)
    ensures StartsWith(Collapse(x + y), Collapse(x))
    decreases |x|
  {
    if |x| == 0 {
      assert x + y == y;
    } else if |x| == 1 {
      if y != "" && x[0] == '/' && y[0] == '/' {
        assert (x + y)[1..] == y;
      } else if y != "" {
        assert (x + y)[1..] == y;
      }
    } else {
      assert (x + y)[1..] == x[1..] + y;
      CollapsePrefix(x[1..], y);
    }
  }

  /**
   * `path.join(a, b)`: the non-empty parts joined by a separator, with
   * repeated separators collapsed; nothing left gives `.`.
   */
  function Join(a: string, b: string): (r: string)
    ensures Collapsed(r) && r != ""
  {
    if a == "" && b == "" then "."
    else if a == "" then Collapse(b)
    else if b == "" then Collapse(a)
    else Collapse(a + "/" + b)
  }

  /** `path.resolve(p)`: a relative path is taken relative to the working directory; an absolute one is normalised. */
  function ResolveFromCwd(cwd: string, p: string): string {
    if IsAbsolute(p) then Collapse(p) else Join(cwd, p)
  }

  /** `path.resolve(base, p)`: `p` when absolute, else `p` under `base`, made absolute against the working directory. */
  function Resolve(cwd: string, base: string, p: string): string {
    if IsAbsolute(p) then Collapse(p) else ResolveFromCwd(cwd, Join(base, p))
  }

  /**
   * Node's `dirname` scan: from index `i` down to index 1, the first `/`
   * met after a character that is not a separator, or -1. Separators at the
   * end are skipped while `trailing` holds.
   */
  function DirCut(p: string, i: int, trailing: bool): (r: int)
    requires i < |p|
    ensures r == -1 || (1 <= r <= i && p[r] == '/')
    decreases i
  {
    if i < 1 then -1
    else if p[i] == '/' then (if trailing then DirCut(p, i - 1, true) else i)
    else DirCut(p, i - 1, false)
  }

  /**
   * `path.dirname(p)`: trailing separators are ignored, then everything
   * before the last separator is kept; `/` for a top-level entry (`//`
   * below a double root), `.` for a bare name.
   */
  function Dirname(p: string): (r: string)
    ensures r != "" && (IsAbsolute(p) ==> IsAbsolute(r))
  {
    if p == "" then "."
    else
      var cut := DirCut(p, |p| - 1, true);
      if cut == -1 then (if p[0] == '/' then "/" else ".")
      else if p[0] == '/' && cut == 1 then "//"
      else p[..cut]
  }

  /** The scan over the final segment stops at the separator before it. */
  lemma {:induction false} DirCutSegment(p: string, k: nat, i: int)
    requires 1 <= k <= i < |p| && p[k] == '/'
    requires forall j :: k < j <= i ==> p[j] != '/'
    ensures DirCut(p, i, false) == k
    decreases i
  {
    if i > k {
      DirCutSegment(p, k, i - 1);
    }
  }

  /**
   * The directory of `d/b`, with any separators after `b`, is `d`, for a
   * final segment `b` and a directory `d` that is neither empty nor the root.
   */
  lemma DirnameOf(d: string, b: string, t: string)
    requires b != "" && '/' !in b && d != "" && d != "/"
    requires forall j :: 0 <= j < |t| ==> t[j] == '/'
    ensures Dirname(d + "/" + b + t) == d
  {
    var p := d + "/" + b + t;
    var k := |d|;
    assert p[k] == '/';
    assert forall j :: k < j < k + 1 + |b| ==> p[j] == b[j - k - 1];
    assert forall j :: k + 1 + |b| <= j < |p| ==> p[j] == t[j - k - 1 - |b|];
    if t == "" {
      DirCutTail(p, k, |p| - 1, b);
    } else {
      DirCutTrailing(p, k, |p| - 1, b, t);
    }
    assert p[..k] == d;
    assert k == 1 ==> d == [d[0]];
  }

  /** `DirnameOf` with nothing after the final segment. */
  lemma DirCutTail(p: string, k: nat, i: nat, b: string)
    requires 1 <= k && i == |p| - 1 && i == k + |b| && b != "" && p[k] == '/'
    requires forall j :: k < j < k + 1 + |b| ==> p[j] == b[j - k - 1]
    requires '/' !in b
    ensures DirCut(p, i, true) == k
  {
    forall j | k < j <= i
      ensures p[j] != '/'
    {
      assert b[j - k - 1] in b;
    }
    DirCutSegment(p, k, i);
  }

  /** `DirnameOf` with separators after the final segment. */
  lemma {:induction false} DirCutTrailing(p: string, k: nat, i: int, b: string, t: string)
    requires 1 <= k && |p| == k + 1 + |b| + |t| && b != "" && p[k] == '/' && '/' !in b
    requires k + |b| <= i < |p|
    requires forall j :: k < j < k + 1 + |b| ==> p[j] == b[j - k - 1]
    requires forall j :: k + 1 + |b| <= j < |p| ==> p[j] == '/'
    ensures DirCut(p, i, true) == k
    decreases i
  {
    if i == k + |b| {
      forall j | k < j <= i
        ensures p[j] != '/'
      {
        assert b[j - k - 1] in b;
      }
      DirCutSegment(p, k, i);
    } else {
      DirCutTrailing(p, k, i - 1, b, t);
    }
  }

  /** `path.basename(p)`: everything after the last separator. */
  function Basename(p: string): (r: string)
    ensures '/' !in r
  {
    p[LastIndexOfChar(p, '/') + 1..]
  }

  /** `path.extname(p)`: from the last `.` of the base name on, unless that dot starts the base name. */
  function Extname(p: string): string {
    var base := Basename(p);
    var d := LastIndexOfChar(base, '.');
    if d <= 0 then "" else base[d..]
  }

  /** `path.join(p)` with a single argument: the path normalised, the empty path becoming `.`. */
  function JoinOne(p: string): (r: string)
    ensures p != "" ==> r == Collapse(p)
  {
    if p == "" then "." else Collapse(p)
  }

  /** Joining onto a non-empty base keeps the normalised base as a prefix, and onto an absolute base gives an absolute path. */
  lemma JoinUnder(a: string, b: string)
    requires a != ""
    ensures StartsWith(Join(a, b), Collapse(a))
    ensures IsAbsolute(a) ==> IsAbsolute(Join(a, b))
  {
    if b != "" {
      CollapsePrefix(a, "/" + b);
      assert a + "/" + b == a + ("/" + b);
    }
  }

  /** A doubled separator collapses like a single one. */
  lemma {:induction false} CollapseDoubled(x: string, y: string)
    ensures Collapse(x + "//" + y) == Collapse(x + "/" + y)
    decreases |x|
  {
    if x == "" {
      assert ("" + "//" + y)[1..] == "/" + y;
    } else {
      assert (x + "//" + y)[1..] == x[1..] + "//" + y;
      assert (x + "/" + y)[1..] == x[1..] + "/" + y;
      CollapseDoubled(x[1..], y);
    }
  }

  /** A separator at the junction is not doubled: `path.join("/r", "/abs.bib")` is `/r/abs.bib`. */
  lemma JoinExample()
    ensures Join("/r", "/abs.bib") == "/r/abs.bib"
  {
    assert "/r" + "/" + "/abs.bib" == "/r" + "//" + "abs.bib";
    CollapseDoubled("/r", "abs.bib");
    assert "/r" + "/" + "abs.bib" == "/r/abs.bib";
    ExampleCollapsed();
  }

  lemma ExampleCollapsed()
    ensures Collapsed("/r/abs.bib")
  {
    var t := "/r/abs.bib";
    assert forall i :: 0 <= i < |t| && i != 0 && i != 2 ==> t[i] != '/';
  }


}
