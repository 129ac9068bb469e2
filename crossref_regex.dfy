/**
 * Hand-coded matchers for the regular expressions of the cross-reference
 * scanner, each returning what the JavaScript `exec` returns: the leftmost
 * match, with greedy quantifiers backtracked the way the regex engine does.
 * The scanned text of each extractor is one document line followed by
 * `,type,label`, which holds no line terminator, so `.` matches any of it.
 */
module CrossrefRegex {
  import opened Wrappers
  import opened JsString

  /** The kinds `(fig|tbl|eq|sec|lst)` of the line pattern. */
  const Kinds: seq<string> := ["fig", "tbl", "eq", "sec", "lst"]

  /** A match of the line pattern: its index in the document, the matched text, and the two groups. */
  datatype LineMatch = LineMatch(index: nat, text: string, kind: string, name: string)

  /** The alternation `(fig|tbl|eq|sec|lst)` at index `i`: the first alternative that occurs there (see `KindAtMeaning`). */
  function KindAt(s: string, i: nat): (r: Option<string>)
    ensures r.Some? ==> r.value in Kinds
  {
    if CharsAt(s, i, "fig") then Some("fig")
    else if CharsAt(s, i, "tbl") then Some("tbl")
    else if CharsAt(s, i, "eq") then Some("eq")
    else if CharsAt(s, i, "sec") then Some("sec")
    else if CharsAt(s, i, "lst") then Some("lst")
    else None
  }

  /** The two- or three-letter word `w` occurs at index `i`, compared character by character. */
  predicate CharsAt(s: string, i: nat, w: string)
    requires 2 <= |w| <= 3
  {
    && i + |w| <= |s| && s[i] == w[0] && s[i + 1] == w[1]
    && (|w| == 2 || s[i + 2] == w[2])
  }

  /** `KindAt` finds an alternative exactly when one of the kinds occurs at `i`, and it finds one that occurs. */
  lemma KindAtMeaning(s: string, i: nat)
    ensures KindAt(s, i).Some? ==> OccursAt(s, KindAt(s, i).value, i)
    ensures KindAt(s, i).None? ==> forall k :: k in Kinds ==> !OccursAt(s, k, i)
  {
    forall w | w in Kinds
      ensures OccursAt(s, w, i) <==> CharsAt(s, i, w)
    {
      if OccursAt(s, w, i) {
        assert s[i..i + |w|][1] == s[i + 1];
        if |w| == 3 {
          assert s[i..i + |w|][2] == s[i + 2];
        }
      }
      if CharsAt(s, i, w) {
        assert s[i..i + |w|] == w;
      }
    }
  }

  /**
   * `#(kind):(\w+).*\}` at index `h` of a line ending at `e`: the kind and the
   * label. The label is the whole run of word characters (a shorter run
   * cannot bring a `}` into reach), and a `}` must follow it on the line.
   */
  function RefAt(s: string, h: nat, e: nat): (r: Option<(string, string)>)
    requires h < e <= |s|
    ensures r.Some? ==> s[h] == '#' && r.value.0 in Kinds && r.value.1 != ""
    ensures r.Some? ==> forall k :: 0 <= k < |r.value.1| ==> IsWordChar(r.value.1[k])
  {
    if s[h] != '#' then None
    else
      match KindAt(s, h + 1)
      case None => None
      case Some(k) =>
        var c := h + 1 + |k|;
        if c < e && s[c] == ':' then
          var w := WordEnd(s, c + 1);
          var b := IndexOfChar(s, '}', w);
          if c + 1 < w && 0 <= b < e then Some((k, s[c + 1..w])) else None
        else None
  }

  /** The last index in `[p, j)` where `RefAt` succeeds, or -1. */
  function LastRef(s: string, p: nat, j: nat, e: nat): (r: int)
    requires p <= j <= e <= |s|
    ensures r == -1 || (p <= r < j && RefAt(s, r, e).Some?)
    decreases j - p
  {
    if j <= p then -1
    else if RefAt(s, j - 1, e).Some? then j - 1
    else LastRef(s, p, j - 1, e)
  }

  /** No reference starts after the one `LastRef` finds. */
  lemma LastRefIsLast(s: string, p: nat, j: nat, e: nat)
    requires p <= j <= e <= |s|
    ensures forall h :: LastRef(s, p, j, e) < h < j && p <= h ==> RefAt(s, h, e).None?
  {
    forall h | LastRef(s, p, j, e) < h < j && p <= h
      ensures RefAt(s, h, e).None?
    {
      LastRefSkips(s, p, j, e, h);
    }
  }

  /** `LastRefIsLast` at one index `h`. */
  lemma {:induction false} LastRefSkips(s: string, p: nat, j: nat, e: nat, h: nat)
    requires p <= j <= e <= |s| && LastRef(s, p, j, e) < h < j && p <= h
    ensures RefAt(s, h, e).None?
    decreases j - p
  {
    if h < j - 1 {
      assert RefAt(s, j - 1, e).None?;
      LastRefSkips(s, p, j - 1, e, h);
    }
  }

  /**
   * `/.*\{.*#(fig|tbl|eq|sec|lst):(\w+).*\}.*\/` tried at index `p`: the
   * trailing `.*` runs to the end of the line; the greedy leading `.*`s pick
   * the last `#kind:label` that has a `{` before it on the line.
   */
  function MatchAt(s: string, p: nat): (r: Option<LineMatch>)
    requires p <= |s|
    ensures r.Some? ==> r.value.index == p && p < LineEnd(s, p) && r.value.text == s[p..LineEnd(s, p)]
    ensures r.Some? ==> EndOf(r.value) == LineEnd(s, p)
    ensures r.Some? ==> r.value.kind in Kinds && r.value.name != ""
  {
    var e := LineEnd(s, p);
    var h := LastRef(s, p, e, e);
    var a := IndexOfChar(s, '{', p);
    if h >= 0 && 0 <= a < h then
      var kl := RefAt(s, h, e).value;
      Some(LineMatch(p, s[p..e], kl.0, kl.1))
    else None
  }

  /** What `MatchAt` means: the groups come from the last reference on the line, and a `{` precedes it. */
  lemma MatchAtMeaning(s: string, p: nat)
    requires p <= |s|
    ensures var e, r := LineEnd(s, p), MatchAt(s, p);
      && (r.Some? ==>
            exists a, h :: (
              && p <= a < h < e && s[a] == '{'
              && RefAt(s, h, e) == Some((r.value.kind, r.value.name))
              && forall h' :: h < h' < e ==> RefAt(s, h', e).None?))
      && (r.None? ==> forall a, h :: p <= a < h < e && s[a] == '{' ==> RefAt(s, h, e).None?)
  {
    var e := LineEnd(s, p);
    var a := IndexOfChar(s, '{', p);
    var h := LastRef(s, p, e, e);
    LastRefIsLast(s, p, e, e);
    if !(h >= 0 && 0 <= a < h) {
      forall a', h' | p <= a' < h' < e && s[a'] == '{'
        ensures RefAt(s, h', e).None?
      {
      }
    }
  }

  /**
   * The shape of a line-pattern match in `s`: its text lies inside `s` and
   * holds a `{`, its kind is one of the pattern's, and its label is a
   * non-empty word.
   */
  predicate OnLine(s: string, m: LineMatch) {
    && m.index + |m.text| <= |s|
    && m.kind in Kinds
    && m.name != ""
    && (exists a :: 0 <= a < |m.text| && m.text[a] == '{')
    && forall k :: 0 <= k < |m.name| ==> IsWordChar(m.name[k])
  }

  /** Every match of the line pattern has that shape. */
  lemma MatchOnLine(s: string, p: nat)
    requires p <= |s| && MatchAt(s, p).Some?
    ensures OnLine(s, MatchAt(s, p).value)
  {
    var e := LineEnd(s, p);
    var a := IndexOfChar(s, '{', p);
    var m := MatchAt(s, p).value;
    assert m.text[a - p] == s[a];
  }

  /** `exec` with `lastIndex == from`: the leftmost match at an index no smaller than `from` (see `ExecMeaning`). */
  function Exec(s: string, from: nat): (r: Option<LineMatch>)
    requires from <= |s|
    ensures r.Some? ==> from <= r.value.index && WholeLine(s, r.value)
    decreases |s| - from
  {
    if MatchAt(s, from).Some? then MatchAt(s, from)
    else if from == |s| then None
    else Exec(s, from + 1)
  }

  /** `m` matched a non-empty line remainder: it ends at a line terminator or at the end of `s`. */
  predicate WholeLine(s: string, m: LineMatch) {
    && m.index < EndOf(m) <= |s|
    && (EndOf(m) == |s| || IsLineTerminator(s[EndOf(m)]))
  }

  /**
   * `exec` returns the match of the line pattern at the first index from
   * `from` where there is one, and no match when there is none.
   */
  lemma ExecMeaning(s: string, from: nat)
    requires from <= |s|
    ensures Exec(s, from).Some? ==> MatchAt(s, Exec(s, from).value.index) == Exec(s, from)
    ensures Exec(s, from).Some? ==> forall q :: from <= q < Exec(s, from).value.index ==> MatchAt(s, q).None?
    ensures Exec(s, from).None? ==> forall q :: from <= q <= |s| ==> MatchAt(s, q).None?
  {
    ExecFound(s, from);
    forall q | from <= q <= |s| && (Exec(s, from).None? || q < Exec(s, from).value.index)
      ensures MatchAt(s, q).None?
    {
      ExecSkips(s, from, q);
    }
  }

  /** The match `exec` returns is the line pattern's match at its index. */
  lemma {:induction false} ExecFound(s: string, from: nat)
    requires from <= |s|
    ensures Exec(s, from).Some? ==> MatchAt(s, Exec(s, from).value.index) == Exec(s, from)
    decreases |s| - from
  {
    if MatchAt(s, from).None? && from < |s| {
      ExecFound(s, from + 1);
    }
  }

  /** No index that `exec` passes over holds a match. */
  lemma {:induction false} ExecSkips(s: string, from: nat, q: nat)
    requires from <= q <= |s| && (Exec(s, from).None? || q < Exec(s, from).value.index)
    ensures MatchAt(s, q).None?
    decreases |s| - from
  {
    if from < q {
      ExecSkips(s, from + 1, q);
    }
  }

  /** The end of a match: the line end it ran to. */
  function EndOf(m: LineMatch): nat {
    m.index + |m.text|
  }

  /** No match starts on a line terminator or at the end of the text. */
  lemma NoMatchAtLineEnd(s: string, q: nat)
    requires q <= |s| && (q == |s| || IsLineTerminator(s[q]))
    ensures MatchAt(s, q).None?
  {
  }

  /**
   * All the matches of the global regex from `lastIndex == from`, in the
   * order the `while ((match = exec(...)) !== null)` loop sees them.
   */
  function Matches(s: string, from: nat): (r: seq<LineMatch>)
    requires from <= |s|
    ensures forall i :: 0 <= i < |r| ==> from <= r[i].index < EndOf(r[i]) <= |s|
    ensures forall i :: 0 <= i < |r| - 1 ==> EndOf(r[i]) < r[i + 1].index
    decreases |s| - from
  {
    match Exec(s, from)
    case None => []
    case Some(m) =>
      var e := EndOf(m);
      NoMatchAtLineEnd(s, e);
      [m] + Matches(s, e)
  }

  /** Each element of `Matches` is the match of the line pattern at its own index, and each comes from `exec`. */
  lemma {:induction false} MatchesAreMatches(s: string, from: nat)
    requires from <= |s|
    ensures forall i :: 0 <= i < |Matches(s, from)| ==> MatchAt(s, Matches(s, from)[i].index) == Some(Matches(s, from)[i])
    ensures Matches(s, from) == [] <==> Exec(s, from).None?
    decreases |s| - from
  {
    match Exec(s, from)
    case None =>
    case Some(m) =>
      ExecMeaning(s, from);
      var rest := Matches(s, EndOf(m));
      MatchesAreMatches(s, EndOf(m));
      var r := Matches(s, from);
      assert r == [m] + rest;
      forall i | 0 <= i < |r|
        ensures MatchAt(s, r[i].index) == Some(r[i])
      {
        if i > 0 {
          assert r[i] == rest[i - 1];
        }
      }
  }

  /**
   * The line pattern cannot cross a line terminator, so every match is one
   * whole line remainder and a line terminator separates any two matches:
   * at most one match per line.
   */
  lemma {:induction false} OneMatchPerLine(s: string, from: nat)
    requires from <= |s|
    ensures var r := Matches(s, from);
      && (forall i :: 0 <= i < |r| ==> forall k :: 0 <= k < |r[i].text| ==> !IsLineTerminator(r[i].text[k]))
      && (forall i, j :: 0 <= i < j < |r| ==>
            EndOf(r[i]) < r[j].index && IsLineTerminator(s[EndOf(r[i])]))
  {
    var r := Matches(s, from);
    MatchesAreMatches(s, from);
    Increasing(r);
    forall i | 0 <= i < |r|
      ensures forall k :: 0 <= k < |r[i].text| ==> !IsLineTerminator(r[i].text[k])
      ensures EndOf(r[i]) == |s| || IsLineTerminator(s[EndOf(r[i])])
    {
      assert MatchAt(s, r[i].index) == Some(r[i]);
      MatchIsLine(s, r[i]);
    }
  }

  /** A line remainder up to, and not including, its terminator holds no terminator and is followed by one or by the end. */
  lemma MatchIsLine(s: string, m: LineMatch)
    requires m.index <= |s| && EndOf(m) == LineEnd(s, m.index) && m.text == s[m.index..EndOf(m)]
    ensures forall k :: 0 <= k < |m.text| ==> !IsLineTerminator(m.text[k])
    ensures EndOf(m) == |s| || IsLineTerminator(s[EndOf(m)])
  {
    LineRest(s, m.index);
  }

  /** The rest of the line from `i` holds no line terminator. */
  lemma LineRest(s: string, i: nat)
    requires i <= |s|
    ensures var t := s[i..LineEnd(s, i)];
      forall k :: 0 <= k < |t| ==> !IsLineTerminator(t[k])
  {
    var e := LineEnd(s, i);
    var t := s[i..e];
    forall k | 0 <= k < |t|
      ensures !IsLineTerminator(t[k])
    {
      assert t[k] == s[i + k];
    }
  }

  /** Matches that follow each other end before the next begins, so any two do. */
  lemma {:induction false} Increasing(r: seq<LineMatch>)
    requires forall i :: 0 <= i < |r| ==> r[i].index < EndOf(r[i])
    requires forall i :: 0 <= i < |r| - 1 ==> EndOf(r[i]) < r[i + 1].index
    ensures forall i, j :: 0 <= i < j < |r| ==> EndOf(r[i]) < r[j].index
    decreases |r|
  {
    if |r| > 1 {
      var t := r[1..];
      assert forall i :: 1 <= i < |r| ==> r[i] == t[i - 1];
      Increasing(t);
      forall i, j | 0 <= i < j < |r|
        ensures EndOf(r[i]) < r[j].index
      {
        if i == 0 && j > 1 {
          assert EndOf(r[0]) < r[1].index < EndOf(r[1]);
          assert EndOf(t[0]) < t[j - 1].index;
        } else if i > 0 {
          assert EndOf(t[i - 1]) < t[j - 1].index;
        }
      }
    }
  }

  // ---------------------------------------------------------------------
  // The extractor patterns
  // ---------------------------------------------------------------------

  /** No character of `t` in `[a, b)` is `c`, from the absence of one-character occurrences. */
  lemma NoCharBetween(t: string, c: char, a: int, b: int)
    requires forall i :: a <= i < b ==> !OccursAt(t, [c], i)
    ensures forall k :: a <= k < b && 0 <= k < |t| ==> t[k] != c
  {
    forall k | a <= k < b && 0 <= k < |t|
      ensures t[k] != c
    {
      OccursChar(t, c, k);
    }
  }

  /** `t.indexOf(c)`: the first `c`, none before it, and none at all when it finds nothing. */
  lemma FirstChar(t: string, c: char)
    ensures var r := IndexOf(t, [c], 0);
      && (r >= 0 ==> r < |t| && t[r] == c)
      && forall j :: 0 <= j < |t| && (r < 0 || j < r) ==> t[j] != c
  {
    var r := IndexOf(t, [c], 0);
    if r >= 0 {
      OccursChar(t, c, r);
      NoCharBetween(t, c, 0, r);
    } else {
      NoCharBetween(t, c, 0, |t|);
    }
  }

  /** `t.lastIndexOf(c)`: the last `c`, and none after it. */
  lemma LastChar(t: string, c: char)
    ensures var r := LastIndexOf(t, [c]);
      && (r >= 0 ==> r < |t| && t[r] == c)
      && forall j :: r < j < |t| ==> t[j] != c
  {
    var r := LastIndexOf(t, [c]);
    if r >= 0 {
      OccursChar(t, c, r);
    }
    NoCharBetween(t, c, r + 1, |t|);
  }

  /**
   * `/!\[(.*)\]\((.+)\)\{/`: the caption and the path. The match starts at the
   * first `![`; the greedy groups end at the last `){` and at the last `](`
   * three or more characters before it.
   */
  function FigMatch(t: string): Option<(string, string)> {
    var b := LastIndexOf(t, "){");
    var a := LastIndexOfFrom(t, "](", b - 3);
    var i := IndexOf(t, "![", 0);
    if b < 5 || a < 0 || a + 3 > b || i < 0 || i + 2 > a then None
    else Some((t[i + 2..a], t[a + 2..b]))
  }

  /**
   * The figure pattern matches exactly when `![`, `](` and `){` occur in that
   * order with room for both groups; the match uses the first `![`, the last
   * `){`, and the last `](` at least three characters before that `){`.
   */
  lemma FigMatchMeaning(t: string)
    ensures var r := FigMatch(t);
      && (r.Some? ==>
            exists i, a, b :: (
              && 0 <= i && i + 2 <= a && a + 3 <= b
              && OccursAt(t, "![", i) && OccursAt(t, "](", a) && OccursAt(t, "){", b)
              && (forall j :: 0 <= j < i ==> !OccursAt(t, "![", j))
              && (forall j :: b < j ==> !OccursAt(t, "){", j))
              && (forall j :: a < j <= b - 3 ==> !OccursAt(t, "](", j))
              && r.value.0 == t[i + 2..a] && r.value.1 == t[a + 2..b]))
      && (r.None? ==>
            forall i, a, b :: 0 <= i && i + 2 <= a && a + 3 <= b ==>
              !(OccursAt(t, "![", i) && OccursAt(t, "](", a) && OccursAt(t, "){", b)))
  {
    var b := LastIndexOf(t, "){");
    var a := LastIndexOfFrom(t, "](", b - 3);
    var i := IndexOf(t, "![", 0);
    if FigMatch(t).Some? {
      assert Max(b - 3, 0) == b - 3;
    }
  }

  /** The index after the run of `#` starting at `i`. */
  function HashRunEnd(t: string, i: nat): (r: nat)
    requires i <= |t|
    ensures i <= r <= |t|
    ensures forall k :: i <= k < r ==> t[k] == '#'
    decreases |t| - i
  {
    if i < |t| && t[i] == '#' then HashRunEnd(t, i + 1) else i
  }

  /** A run of `#` or of `\s` cannot pass a `{`. */
  lemma RunsStopAtBrace(t: string, c: nat)
    requires c < |t| && t[c] == '{'
    ensures HashRunEnd(t, 0) <= c
    ensures forall i :: 0 <= i <= c ==> SpaceRunEnd(t, i) <= c
  {
  }

  /**
   * `/#*\s*(.*)\s*\{/`: it matches from index 0 whenever there is a `{`; the
   * group runs from after the leading `#`s and spaces to the last `{`, so it
   * keeps the spaces before that `{`.
   */
  function SecMatch(t: string): Option<string> {
    var c := LastIndexOf(t, "{");
    if c < 0 then None
    else
      OccursChar(t, '{', c);
      RunsStopAtBrace(t, c);
      Some(t[SpaceRunEnd(t, HashRunEnd(t, 0))..c])
  }

  /** The section pattern matches exactly the texts with a `{`, and its group ends at the last one. */
  lemma SecMatchMeaning(t: string)
    ensures SecMatch(t).None? <==> '{' !in t
    ensures SecMatch(t).Some? ==> exists c :: (
      && 0 <= c < |t| && t[c] == '{' && (forall k :: c < k < |t| ==> t[k] != '{')
      && SecMatch(t).value == t[SpaceRunEnd(t, HashRunEnd(t, 0))..c])
  {
    LastChar(t, '{');
  }

  /**
   * `/:\s*(.*)\s*\{/`: it starts at the first `:`, which must come before the
   * last `{`; the group runs from after the spaces to the last `{`.
   */
  function TblMatch(t: string): Option<string> {
    var l := LastIndexOf(t, "{");
    var c := IndexOf(t, ":", 0);
    if l < 0 || c < 0 || c >= l then None
    else
      OccursChar(t, '{', l);
      RunsStopAtBrace(t, l);
      Some(t[SpaceRunEnd(t, c + 1)..l])
  }

  /** The table pattern matches exactly when a `:` precedes a `{`; its group runs from the first `:` to the last `{`. */
  lemma TblMatchMeaning(t: string)
    ensures TblMatch(t).Some? ==> exists c, l :: (
      && 0 <= c < l < |t| && t[c] == ':' && t[l] == '{'
      && (forall k :: 0 <= k < c ==> t[k] != ':') && (forall k :: l < k < |t| ==> t[k] != '{')
      && TblMatch(t).value == t[SpaceRunEnd(t, c + 1)..l])
    ensures TblMatch(t).None? <==> forall c, l :: 0 <= c < l < |t| && t[c] == ':' ==> t[l] != '{'
  {
    LastChar(t, '{');
    FirstChar(t, ':');
  }

  /** `/```.*\{/`: some `{` after the first three backticks. */
  predicate LstFence(t: string) {
    var f := IndexOf(t, "```", 0);
    f >= 0 && IndexOf(t, "{", f + 3) >= 0
  }

  /** `\.(\w+).*\}` at index `d`: a dot, a word run, and a `}` somewhere after the run. */
  predicate DotAt(t: string, d: nat) {
    && d + 1 < |t| && t[d] == '.' && IsWordChar(t[d + 1])
    && IndexOfChar(t, '}', WordEnd(t, d + 1)) >= 0
  }

  /** The last index below `j` where `DotAt` holds, or -1. */
  function LastDot(t: string, j: nat): (r: int)
    ensures -1 <= r < j
    ensures r >= 0 ==> DotAt(t, r)
    ensures forall d :: r < d < j ==> !DotAt(t, d)
    decreases j
  {
    if j == 0 then -1 else if DotAt(t, j - 1) then j - 1 else LastDot(t, j - 1)
  }

  /** `/\{.*\.(\w+).*\}/`: the word after the last suitable dot, when a `{` comes before that dot. */
  function LangMatch(t: string): Option<string> {
    var d := LastDot(t, |t|);
    var f := IndexOfChar(t, '{', 0);
    if d < 0 || f < 0 || f >= d then None
    else Some(t[d + 1..WordEnd(t, d + 1)])
  }

  /** The language is the non-empty word after the last `.word…}` of the text, which must follow a `{`. */
  lemma LangMatchMeaning(t: string)
    ensures LangMatch(t).Some? ==> exists d :: (
      && 0 <= d && DotAt(t, d) && LangMatch(t).value == t[d + 1..WordEnd(t, d + 1)]
      && (forall d' :: d < d' < |t| ==> !DotAt(t, d'))
      && exists f :: 0 <= f < d && t[f] == '{')
    ensures LangMatch(t).Some? ==> LangMatch(t).value != ""
    ensures LangMatch(t).None? ==> forall f, d :: 0 <= f < d < |t| && t[f] == '{' ==> !DotAt(t, d)
  {
    if LangMatch(t).Some? {
      var d := LastDot(t, |t|);
      assert t[d + 1..WordEnd(t, d + 1)][0] == t[d + 1];
    } else {
      forall f, d | 0 <= f < d < |t| && t[f] == '{'
        ensures !DotAt(t, d)
      {
        LangNoneAt(t, f, d);
      }
    }
  }

  /** `LangMatchMeaning` without a match, at one `{` and one candidate dot. */
  lemma LangNoneAt(t: string, f: nat, d: nat)
    requires LangMatch(t).None? && f < d < |t| && t[f] == '{'
    ensures !DotAt(t, d)
  {
    var f0 := IndexOfChar(t, '{', 0);
    assert 0 <= f0 <= f;
  }

  /**
   * `/\{.*caption="(.+)".*\}/`: the group ends at the last `"` before the last
   * `}`, and starts after the last `caption="` that leaves it non-empty; a
   * `{` must come before that `caption="`.
   */
  function CaptionMatch(t: string): Option<string> {
    var rb := LastIndexOfChar(t, '}');
    var q := if rb < 0 then -1 else LastIndexOfCharIn(t, '"', 0, rb);
    var k := LastIndexOfFrom(t, "caption=\"", q - 10);
    var f := IndexOfChar(t, '{', 0);
    if q < 0 || k < 0 || k + 10 > q || f < 0 || f >= k then None
    else Some(t[k + 9..q])
  }

  /**
   * The caption pattern's match positions: the first `{` at `f`, the last
   * `caption="` at `k` that leaves room for the group, the last `"` at `q`
   * before the last `}` at `b`.
   */
  predicate CaptionSpan(t: string, f: int, k: int, q: int, b: int) {
    && 0 <= f < k && k + 10 <= q < b < |t| && t[f] == '{' && OccursAt(t, "caption=\"", k)
    && t[q] == '"' && t[b] == '}'
    && (forall j :: 0 <= j < f ==> t[j] != '{')
    && (forall j :: b < j < |t| ==> t[j] != '}')
    && (forall j :: q < j < b ==> t[j] != '"')
    && (forall j :: k < j <= q - 10 ==> !OccursAt(t, "caption=\"", j))
  }

  /**
   * A caption is the non-empty text of a `caption="…"` between a `{` and a
   * later `}`: the match uses the first `{` and the last `}`, the group ends
   * at the last `"` before that `}` and starts after the last `caption="`
   * that leaves it non-empty.
   */
  lemma CaptionMatchMeaning(t: string)
    ensures CaptionMatch(t).Some? ==> exists f, k, q, b ::
      CaptionSpan(t, f, k, q, b) && CaptionMatch(t).value == t[k + 9..q]
    ensures CaptionMatch(t).Some? ==> CaptionMatch(t).value != ""
  {
    if CaptionMatch(t).Some? {
      var rb := LastIndexOfChar(t, '}');
      var q := LastIndexOfCharIn(t, '"', 0, rb);
      var k := LastIndexOfFrom(t, "caption=\"", q - 10);
      var f := IndexOfChar(t, '{', 0);
      assert Max(q - 10, 0) == q - 10;
      assert CaptionSpan(t, f, k, q, rb);
    }
  }

  /** Without a `{`, a `caption="`, a `"` and a `}` in that order, with room for the group, there is no caption. */
  lemma CaptionMatchNone(t: string)
    ensures CaptionMatch(t).None? ==> forall f, k, q, b ::
      0 <= f < k && k + 10 <= q < b < |t| && t[f] == '{' && OccursAt(t, "caption=\"", k) && t[q] == '"' ==>
        t[b] != '}'
  {
    forall f, k, q, b | 0 <= f < k && k + 10 <= q < b < |t| && t[f] == '{'
        && OccursAt(t, "caption=\"", k) && t[q] == '"' && t[b] == '}'
      ensures CaptionMatch(t).Some?
    {
      CaptionFromWitness(t, f, k, q, b);
    }
  }

  /** Any `{`, `caption="`, `"`, `}` in order make the caption pattern match. */
  lemma CaptionFromWitness(t: string, f: nat, k: nat, q: nat, b: nat)
    requires f < k && k + 10 <= q < b < |t| && t[f] == '{' && OccursAt(t, "caption=\"", k)
    requires t[q] == '"' && t[b] == '}'
    ensures CaptionMatch(t).Some?
  {
    var rb := LastIndexOfChar(t, '}');
    assert b <= rb;
    var q0 := LastIndexOfCharIn(t, '"', 0, rb);
    assert q <= q0 < rb;
    var k0 := LastIndexOfFrom(t, "caption=\"", q0 - 10);
    assert k <= k0 <= q0 - 10;
    var f0 := IndexOfChar(t, '{', 0);
    assert 0 <= f0 <= f;
  }

  /** `$$\s*\{` at index `m`. */
  predicate EqAt(t: string, m: nat) {
    OccursAt(t, "$$", m) && SpaceRunEnd(t, m + 2) < |t| && t[SpaceRunEnd(t, m + 2)] == '{'
  }

  /** `/\$\$\s*\{/` from index `i`: the index of the leftmost match. */
  function EqFrom(t: string, i: nat): (r: Option<nat>)
    ensures r.Some? ==> i <= r.value && EqAt(t, r.value)
    decreases |t| - i
  {
    if i >= |t| then None
    else if EqAt(t, i) then Some(i)
    else EqFrom(t, i + 1)
  }

  /** `EqFrom` finds the leftmost match, and none exists when it finds nothing. */
  lemma EqFromMeaning(t: string, i: nat)
    ensures EqFrom(t, i).Some? ==> forall m :: i <= m < EqFrom(t, i).value ==> !EqAt(t, m)
    ensures EqFrom(t, i).None? ==> forall m :: i <= m ==> !EqAt(t, m)
  {
    forall m | i <= m && (EqFrom(t, i).None? || m < EqFrom(t, i).value)
      ensures !EqAt(t, m)
    {
      EqFromSkips(t, i, m);
    }
  }

  /** No index that the search from `i` passes over holds a match. */
  lemma {:induction false} EqFromSkips(t: string, i: nat, m: nat)
    requires i <= m && (EqFrom(t, i).None? || m < EqFrom(t, i).value)
    ensures !EqAt(t, m)
    decreases |t| - i
  {
    if i < m && i < |t| {
      EqFromSkips(t, i + 1, m);
    }
  }

  function EqMatch(t: string): Option<nat> {
    EqFrom(t, 0)
  }
}
