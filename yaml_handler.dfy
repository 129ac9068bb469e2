/**
 * Front-matter handling for Markdown documents: detecting a leading `---`
 * block, extracting its lines, and handing them to a YAML loader (js-yaml's
 * `load`, a parameter here).
 */
module YamlHandler {
  import opened Wrappers
  import opened JsString

  const Fence: string := "---"

  /** `hasYamlFrontmatter`: after leading whitespace the text starts with `---`. */
  predicate HasYamlFrontmatter(text: string) {
    StartsWith(TrimStart(text), Fence)
  }

  /** A line that closes the front matter: `---` once surrounding whitespace is trimmed. */
  predicate IsClosing(line: string) {
    Trim(line) == Fence
  }

  /** The first index at or after `i` whose line closes the front matter, or -1. */
  function FirstClosing(lines: seq<string>, i: nat): (r: int)
    decreases |lines| - i
    ensures r == -1 || (i <= r < |lines| && IsClosing(lines[r]))
    ensures r == -1 ==> forall j :: i <= j < |lines| ==> !IsClosing(lines[j])
    ensures r != -1 ==> forall j :: i <= j < r ==> !IsClosing(lines[j])
  {
    if i >= |lines| then -1
    else if IsClosing(lines[i]) then i
    else FirstClosing(lines, i + 1)
  }

  /**
   * `extractYamlFrontmatter` as a value: None unless the trimmed text opens
   * with `---` and a later line closes it; otherwise the lines strictly
   * between the opening line and the first closing line, joined by `\n`.
   */
  function Frontmatter(text: string): (r: Option<string>)
    ensures r.Some? ==> HasYamlFrontmatter(text)
  {
    var t := TrimStart(text);
    if !StartsWith(t, Fence) then None
    else
      var lines := Split(t, '\n');
      var e := FirstClosing(lines, 1);
      if e == -1 then None else Some(Join(lines[1..e], "\n"))
  }

  /**
   * What `Frontmatter` means line by line: it is present exactly when the
   * trimmed text opens with `---` and some later line closes it, and then it
   * is the join of the lines before the first such line.
   */
  lemma FrontmatterMeaning(text: string)
    ensures !HasYamlFrontmatter(text) ==> Frontmatter(text) == None
    ensures HasYamlFrontmatter(text) ==>
      var lines := Split(TrimStart(text), '\n');
      && (Frontmatter(text).Some? <==> exists e :: 1 <= e < |lines| && IsClosing(lines[e]))
      && (Frontmatter(text).Some? ==>
            exists e :: && 1 <= e < |lines| && IsClosing(lines[e])
                        && (forall j :: 1 <= j < e ==> !IsClosing(lines[j]))
                        && Frontmatter(text).value == Join(lines[1..e], "\n"))
  {
    if HasYamlFrontmatter(text) {
      var lines := Split(TrimStart(text), '\n');
      var e := FirstClosing(lines, 1);
      if e != -1 {
        assert 1 <= e < |lines| && IsClosing(lines[e]);
      }
    }
  }

  /** `extractYamlFrontmatter`: the scan for the closing line is a loop that stops at the first one. */
  method ExtractYamlFrontmatter(text: string) returns (r: Option<string>)
    ensures r == Frontmatter(text)
  {
    var trimmed := TrimStart(text);
    if !StartsWith(trimmed, Fence) {
      return None;
    }
    var lines := Split(trimmed, '\n');
    var endIndex := FindClosing(lines);
    if endIndex == -1 {
      return None;
    }
    return Some(Join(lines[1..endIndex], "\n"));
  }

  /** The loop of `extractYamlFrontmatter` that looks for the closing line after the opening one. */
  method FindClosing(lines: seq<string>) returns (endIndex: int)
    requires |lines| >= 1
    ensures endIndex == FirstClosing(lines, 1)
  {
    endIndex := -1;
    var i := 1;
    while i < |lines|
      invariant 1 <= i <= |lines|
      invariant forall j :: 1 <= j < i ==> !IsClosing(lines[j])
      invariant endIndex == -1
    {
      if IsClosing(lines[i]) {
        endIndex := i;
        break;
      }
      i := i + 1;
    }
    if endIndex == -1 {
      FirstClosingNone(lines, 1);
    } else {
      FirstClosingIs(lines, 1, endIndex);
    }
  }

  /** With no closing line from `i` on, `FirstClosing` finds none. */
  lemma FirstClosingNone(lines: seq<string>, i: nat)
    requires forall j :: i <= j < |lines| ==> !IsClosing(lines[j])
    ensures FirstClosing(lines, i) == -1
  {
  }

  /** A closing line preceded by no other closing line is the one `FirstClosing` finds. */
  lemma FirstClosingIs(lines: seq<string>, i: nat, e: nat)
    requires i <= e < |lines| && IsClosing(lines[e])
    requires forall j :: i <= j < e ==> !IsClosing(lines[j])
    ensures FirstClosing(lines, i) == e
  {
  }

  /**
   * `parseYamlFrontmatter`: None when there is no front matter or it is
   * empty; otherwise what the loader yields (None also standing for a loader
   * that throws).
   */
  function ParseYamlFrontmatter<V>(text: string, load: string -> Option<V>): (r: Option<V>)
    ensures Frontmatter(text) == None ==> r == None
    ensures Frontmatter(text) == Some("") ==> r == None
    ensures Frontmatter(text).Some? && Frontmatter(text).value != "" ==> r == load(Frontmatter(text).value)
    ensures r.Some? ==> Frontmatter(text).Some? && r == load(Frontmatter(text).value)
  {
    match Frontmatter(text)
    case None => None
    case Some(yamlText) => if yamlText == "" then None else load(yamlText)
  }

  /** Splitting at a separator splits the two sides independently. */
  lemma {:induction false} SplitAround(a: string, b: string, c: char)
    requires c !in a
    ensures Split(a + [c] + b, c) == [a] + Split(b, c)
    decreases |a|
  {
    if a == [] {
      assert ([c] + b)[1..] == b;
    } else {
      SplitAround(a[1..], b, c);
      assert (a + [c] + b)[1..] == a[1..] + [c] + b;
      assert (a + [c] + b)[0] == a[0];
      assert [a[0]] + a[1..] == a;
    }
  }

  /** Splitting a joined sequence of separator-free lines gives the lines back. */
  lemma {:induction false} SplitJoin(lines: seq<string>, c: char)
    requires |lines| >= 1
    requires forall k :: 0 <= k < |lines| ==> c !in lines[k]
    ensures Split(Join(lines, [c]), c) == lines
    decreases |lines|
  {
    if |lines| == 1 {
      SplitNoSep(lines[0], c);
    } else {
      SplitJoin(lines[1..], c);
      SplitAround(lines[0], Join(lines[1..], [c]), c);
      assert lines == [lines[0]] + lines[1..];
    }
  }

  /**
   * The behaviour pinned down by the unit tests, for every input of that
   * shape: an opening `---` line, body lines none of which trims to `---`,
   * a closing line that trims to `---` (trailing spaces allowed), then any
   * tail, possibly holding further `---`. The result is exactly the body.
   */
  lemma ExtractBody(body: seq<string>, closing: string, tail: seq<string>)
    requires forall k :: 0 <= k < |body| ==> '\n' !in body[k] && !IsClosing(body[k])
    requires '\n' !in closing && IsClosing(closing)
    requires forall k :: 0 <= k < |tail| ==> '\n' !in tail[k]
    ensures Frontmatter(Join([Fence] + body + [closing] + tail, "\n")) == Some(Join(body, "\n"))
  {
    FramedFrontmatter(body, closing, tail);
    FramedSlice(body, closing, tail);
  }

  /**
   * A framed, non-empty body is what the loader is given: for a document of
   * the shape `ExtractBody` describes, parsing is loading the body lines
   * joined by `\n`.
   */
  lemma ParseFramed<V>(body: seq<string>, closing: string, tail: seq<string>, load: string -> Option<V>)
    requires forall k :: 0 <= k < |body| ==> '\n' !in body[k] && !IsClosing(body[k])
    requires '\n' !in closing && IsClosing(closing)
    requires forall k :: 0 <= k < |tail| ==> '\n' !in tail[k]
    requires Join(body, "\n") != ""
    ensures ParseYamlFrontmatter(Join([Fence] + body + [closing] + tail, "\n"), load) == load(Join(body, "\n"))
  {
    ExtractBody(body, closing, tail);
  }

  lemma FramedFrontmatter(body: seq<string>, closing: string, tail: seq<string>)
    requires forall k :: 0 <= k < |body| ==> '\n' !in body[k] && !IsClosing(body[k])
    requires '\n' !in closing && IsClosing(closing)
    requires forall k :: 0 <= k < |tail| ==> '\n' !in tail[k]
    ensures var lines := [Fence] + body + [closing] + tail;
      Frontmatter(Join(lines, "\n")) == Some(Join(lines[1..|body| + 1], "\n"))
  {
    var lines := [Fence] + body + [closing] + tail;
    FramedLines(body, closing, tail);
    FrontmatterOfLines(lines, |body| + 1);
  }

  lemma FramedSlice(body: seq<string>, closing: string, tail: seq<string>)
    ensures ([Fence] + body + [closing] + tail)[1..|body| + 1] == body
  {
  }

  lemma FramedLines(body: seq<string>, closing: string, tail: seq<string>)
    requires forall k :: 0 <= k < |body| ==> '\n' !in body[k] && !IsClosing(body[k])
    requires '\n' !in closing && IsClosing(closing)
    requires forall k :: 0 <= k < |tail| ==> '\n' !in tail[k]
    ensures var lines := [Fence] + body + [closing] + tail;
      && (forall k :: 0 <= k < |lines| ==> '\n' !in lines[k])
      && FirstClosing(lines, 1) == |body| + 1
  {
    var lines := [Fence] + body + [closing] + tail;
    assert SingleLines([Fence] + body) by {
      SingleLinesAppend([Fence], body);
    }
    SingleLinesAppend([Fence] + body, [closing]);
    SingleLinesAppend([Fence] + body + [closing], tail);
    FramedSlices(body, closing, tail);
    FirstClosingAfter(lines, 1, |body| + 1);
  }

  lemma FramedSlices(body: seq<string>, closing: string, tail: seq<string>)
    ensures var lines := [Fence] + body + [closing] + tail;
      lines[1..|body| + 1] == body && lines[|body| + 1] == closing
  {
    var lines := [Fence] + body + [closing] + tail;
    assert lines == [Fence] + (body + ([closing] + tail));
  }

  /** No element of `ls` holds a newline. */
  predicate SingleLines(ls: seq<string>) {
    forall k :: 0 <= k < |ls| ==> '\n' !in ls[k]
  }

  lemma SingleLinesAppend(a: seq<string>, b: seq<string>)
    requires SingleLines(a) && SingleLines(b)
    ensures SingleLines(a + b)
  {
    forall k | 0 <= k < |a + b|
      ensures '\n' !in (a + b)[k]
    {
      if k >= |a| {
        assert (a + b)[k] == b[k - |a|];
      }
    }
  }

  /** The closing line at `e` is the first from `i` when the lines `lines[i..e]` do not close. */
  lemma FirstClosingAfter(lines: seq<string>, i: nat, e: nat)
    requires i <= e < |lines| && IsClosing(lines[e])
    requires forall k :: 0 <= k < e - i ==> !IsClosing(lines[i..e][k])
    ensures FirstClosing(lines, i) == e
  {
    forall j | i <= j < e
      ensures !IsClosing(lines[j])
    {
      assert lines[j] == lines[i..e][j - i];
    }
    FirstClosingIs(lines, i, e);
  }

  /** A text made of an opening `---` line and newline-free lines: its front matter is read off the lines. */
  lemma FrontmatterOfLines(lines: seq<string>, e: nat)
    requires |lines| >= 1 && lines[0] == Fence
    requires forall k :: 0 <= k < |lines| ==> '\n' !in lines[k]
    requires FirstClosing(lines, 1) == e && 1 <= e
    ensures Frontmatter(Join(lines, "\n")) == Some(Join(lines[1..e], "\n"))
  {
    var text := Join(lines, "\n");
    SplitJoin(lines, '\n');
    OpensWithFence(lines);
    NoLeadingSpace(text);
  }

  lemma OpensWithFence(lines: seq<string>)
    requires |lines| >= 2 && lines[0] == Fence
    ensures StartsWith(Join(lines, "\n"), Fence)
  {
    JoinCons(Fence, lines[1..], "\n");
    assert lines == [Fence] + lines[1..];
  }

  lemma NoLeadingSpace(text: string)
    requires StartsWith(text, Fence)
    ensures TrimStart(text) == text
  {
    assert text[0] == Fence[0];
  }

  /** `---\n---\nContent`: empty front matter extracts to the empty string. */
  lemma ExtractEmpty()
    ensures Frontmatter("---\n---\nContent") == Some("")
  {
    EmptyExampleText();
    FenceCloses();
    ExtractBody([], Fence, ["Content"]);
  }

  lemma FenceCloses()
    ensures IsClosing(Fence)
  {
  }

  lemma EmptyExampleText()
    ensures Join([Fence] + [] + [Fence] + ["Content"], "\n") == "---\n---\nContent"
  {
    assert [Fence] + [] + [Fence] + ["Content"] == [Fence, Fence, "Content"];
    assert Join([Fence, Fence, "Content"], "\n") == Fence + "\n" + Join([Fence, "Content"], "\n");
    assert Join([Fence, "Content"], "\n") == Fence + "\n" + Join(["Content"], "\n");
  }

  /** `---\ntitle: Test\n---  \nContent`: trailing spaces on the closing line are ignored. */
  lemma ExtractTrailingSpaces()
    ensures Frontmatter("---\ntitle: Test\n---  \nContent") == Some("title: Test")
  {
    TrailingExampleText();
    TrailingExampleLines();
    ExtractBody(["title: Test"], "---  ", ["Content"]);
  }

  lemma TrailingExampleLines()
    ensures !IsClosing("title: Test") && IsClosing("---  ")
    ensures '\n' !in "title: Test" && '\n' !in "---  " && '\n' !in "Content"
  {
    TitleLineOpen();
    SpacedFenceCloses();
    assert '\n' !in "title: Test" && '\n' !in "---  " && '\n' !in "Content" by {
      NoNewlineIn("title: Test");
      NoNewlineIn("---  ");
      NoNewlineIn("Content");
    }
  }

  /** A string none of whose characters is `\n` does not contain it. */
  lemma NoNewlineIn(s: string)
    requires forall k :: 0 <= k < |s| ==> s[k] != '\n'
    ensures '\n' !in s
  {
  }

  lemma TitleLineOpen()
    ensures !IsClosing("title: Test")
  {
    var t := "title: Test";
    assert TrimStart(t) == t by {
      assert !IsSpace(t[0]);
    }
    assert TrimEnd(t) == t by {
      assert !IsSpace(t[|t| - 1]);
    }
  }

  lemma SpacedFenceCloses()
    ensures IsClosing("---  ")
  {
    var t := "---  ";
    assert TrimStart(t) == t by {
      assert !IsSpace(t[0]);
    }
    assert t == Fence + [' '] + [' '];
    TrimEndSpace(Fence + [' '], ' ');
    TrimEndSpace(Fence, ' ');
    assert TrimEnd(Fence) == Fence by {
      assert !IsSpace(Fence[2]);
    }
  }

  /** `trimEnd` drops a trailing space. */
  lemma TrimEndSpace(s: string, c: char)
    requires IsSpace(c)
    ensures TrimEnd(s + [c]) == TrimEnd(s)
  {
    assert (s + [c])[..|s|] == s;
  }

  lemma TrailingExampleText()
    ensures Join([Fence] + ["title: Test"] + ["---  "] + ["Content"], "\n") == "---\ntitle: Test\n---  \nContent"
  {
    var c := Join(["Content"], "\n");
    var b := Join(["---  "] + ["Content"], "\n");
    var a := Join(["title: Test"] + (["---  "] + ["Content"]), "\n");
    JoinCons("---  ", ["Content"], "\n");
    JoinCons("title: Test", ["---  "] + ["Content"], "\n");
    JoinCons(Fence, ["title: Test"] + (["---  "] + ["Content"]), "\n");
    assert [Fence] + ["title: Test"] + ["---  "] + ["Content"] == [Fence] + (["title: Test"] + (["---  "] + ["Content"]));
    assert b == "---  \nContent";
    assert a == "title: Test\n---  \nContent";
  }

  /** Without an opening `---` there is no front matter. */
  lemma NoOpeningFence(text: string)
    requires !StartsWith(TrimStart(text), Fence)
    ensures Frontmatter(text) == None
  {
  }
}
