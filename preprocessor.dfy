/**
 * The two text rewrites applied to a Markdown document before it is handed to
 * pandoc: expanding `$HOME` and deleting `{{ ... }}` comments.
 */
module Preprocessor {
  import opened JsString
  import opened Wrappers

  const HomeVar: string := "$HOME"

  /** `$HOME` occurs in `s` at index `i`. */
  predicate HomeAt(s: string, i: nat) {
    i + 5 <= |s| && s[i] == '$' && s[i + 1] == 'H' && s[i + 2] == 'O' && s[i + 3] == 'M' && s[i + 4] == 'E'
  }

  predicate ContainsHome(s: string) {
    exists i: nat :: i < |s| && HomeAt(s, i)
  }

  /**
   * `preprocessMarkdown`: `content.replace(/\$HOME/g, home)`, the home
   * directory (`os.homedir()`) being a parameter.
   */
  function PreprocessMarkdown(content: string, home: string): string
    decreases |content|
  {
    if |content| < 5 then content
    else if HomeAt(content, 0) then home + PreprocessMarkdown(content[5..], home)
    else [content[0]] + PreprocessMarkdown(content[1..], home)
  }

  /** Text without `$HOME` comes back unchanged. */
  lemma {:induction false} PreprocessWithoutHome(content: string, home: string)
    requires !ContainsHome(content)
    ensures PreprocessMarkdown(content, home) == content
    decreases |content|
  {
    if |content| >= 5 {
      assert !HomeAt(content, 0);
      NoHomeInTail(content);
      PreprocessWithoutHome(content[1..], home);
    }
  }

  /**
   * The first `$HOME` is replaced and the scan resumes right after it: with
   * no `$HOME` in `a`, `a + "$HOME" + b` becomes `a + home` followed by the
   * rewrite of `b`. With the previous lemma this pins the rewrite down on
   * every input: each occurrence, left to right, is replaced.
   */
  lemma {:induction false} PreprocessFirstHome(a: string, b: string, home: string)
    requires !ContainsHome(a)
    ensures PreprocessMarkdown(a + HomeVar + b, home) == a + home + PreprocessMarkdown(b, home)
    decreases |a|
  {
    var s := a + HomeVar + b;
    if a == [] {
      assert HomeAt(s, 0);
      assert s[5..] == b;
    } else {
      HomeNotFirst(a, b);
      NoHomeInTail(a);
      PreprocessFirstHome(a[1..], b, home);
      assert s[1..] == a[1..] + HomeVar + b;
      assert PreprocessMarkdown(s, home) == [a[0]] + PreprocessMarkdown(s[1..], home);
      assert [a[0]] + (a[1..] + home) == a + home;
    }
  }

  /** `a + "$HOME" + b` with `a` non-empty and free of `$HOME` does not start with `$HOME`. */
  lemma HomeNotFirst(a: string, b: string)
    requires a != [] && !ContainsHome(a)
    ensures |a + HomeVar + b| >= 5 && !HomeAt(a + HomeVar + b, 0)
  {
    var s := a + HomeVar + b;
    if |a| >= 5 {
      assert !HomeAt(a, 0);
      assert s[..5] == a[..5];
    } else {
      // An occurrence at 0 would need a '$' where `HOME` stands.
      assert s[|a|] == '$';
    }
  }

  /** Dropping the first character keeps a text free of `$HOME`. */
  lemma NoHomeInTail(a: string)
    requires a != [] && !ContainsHome(a)
    ensures !ContainsHome(a[1..])
  {
    forall i: nat | HomeAt(a[1..], i)
      ensures false
    {
      assert HomeAt(a, i + 1);
    }
  }

  /**
   * The index just past the lazily matched `}}` of a `{{ ... }}` comment whose
   * body starts at `k`, or None when a line terminator or the end of the text
   * comes first (`.*?` does not cross a line).
   */
  function CommentEnd(s: string, k: nat): (r: Option<nat>)
    decreases |s| - k
    ensures r.Some? ==> k + 2 <= r.value <= |s| && s[r.value - 2..r.value] == "}}"
    ensures r.Some? ==> forall j :: k <= j < r.value - 2 ==> !IsLineTerminator(s[j])
    ensures r.Some? ==> forall j :: k <= j < r.value - 2 ==> !CloseAt(s, j)
  {
    if k + 1 < |s| && s[k] == '}' && s[k + 1] == '}' then Some(k + 2)
    else if k >= |s| || IsLineTerminator(s[k]) then None
    else CommentEnd(s, k + 1)
  }

  /** `removeCurlyBracketComments`: `content.replace(/\{\{.*?\}\}/g, '')`. */
  function RemoveCurlyBracketComments(s: string): (r: string)
    decreases |s|
    ensures |r| <= |s|
  {
    if |s| >= 2 && s[0] == '{' && s[1] == '{' && CommentEnd(s, 2).Some? then
      RemoveCurlyBracketComments(s[CommentEnd(s, 2).value..])
    else if s == [] then []
    else [s[0]] + RemoveCurlyBracketComments(s[1..])
  }

  /** `{{` starts at index `i`. */
  predicate OpenAt(s: string, i: int) {
    0 <= i < |s| - 1 && s[i] == '{' && s[i + 1] == '{'
  }

  /** `}}` starts at index `j`. */
  predicate CloseAt(s: string, j: int) {
    0 <= j < |s| - 1 && s[j] == '}' && s[j + 1] == '}'
  }

  predicate ContainsOpen(s: string) {
    exists i :: 0 <= i < |s| && OpenAt(s, i)
  }

  /** Text without `{{` comes back unchanged. */
  lemma {:induction false} RemoveCommentsWithoutOpen(s: string)
    requires !ContainsOpen(s)
    ensures RemoveCurlyBracketComments(s) == s
    decreases |s|
  {
    if s != [] {
      assert !OpenAt(s, 0);
      assert !ContainsOpen(s[1..]) by {
        assert forall i :: OpenAt(s[1..], i) ==> OpenAt(s, i + 1);
      }
      RemoveCommentsWithoutOpen(s[1..]);
    }
  }

  /**
   * A comment body as one lazy match takes it: no line terminator, no `}}`
   * inside, and no `}` at its end (that `}` would close the comment early).
   */
  predicate CommentBody(body: string) {
    && (forall j :: 0 <= j < |body| ==> !IsLineTerminator(body[j]))
    && (forall j :: 0 <= j < |body| ==> !CloseAt(body + "}", j))
  }

  /** The lazy scan from `k` stops at the first `}}`, when no line terminator comes before it. */
  lemma {:induction false} CommentEndAt(s: string, k: nat, m: nat)
    requires k <= m && m + 1 < |s| && s[m] == '}' && s[m + 1] == '}'
    requires forall j :: k <= j < m ==> !IsLineTerminator(s[j])
    requires forall j :: k <= j < m ==> !CloseAt(s, j)
    ensures CommentEnd(s, k) == Some(m + 2)
    decreases m - k
  {
    if k < m {
      assert !CloseAt(s, k);
      CommentEndAt(s, k + 1, m);
    }
  }

  /**
   * The first comment is deleted and the scan resumes right after it: when
   * `a` holds no `{{` (not even one completed by the comment's own `{`),
   * `a + "{{" + body + "}}" + b` becomes `a` followed by the rewrite of `b`.
   * With the lemma above and `RemoveUnclosedComment`/`RemoveUnclosedAtEnd`
   * this pins the rewrite down on every input: split the text at its first
   * `{{`; either a `}}` closes it on its line (take `body` up to the first
   * one) or none does.
   */
  lemma {:induction false} RemoveFirstComment(a: string, body: string, b: string)
    requires !ContainsOpen(a + "{") && CommentBody(body)
    ensures RemoveCurlyBracketComments(a + "{{" + body + "}}" + b) == a + RemoveCurlyBracketComments(b)
    decreases |a|
  {
    var s := a + "{{" + body + "}}" + b;
    if a == [] {
      var m := 2 + |body|;
      assert forall j :: 2 <= j < m ==> s[j] == body[j - 2];
      assert s[m] == '}' && s[m + 1] == '}';
      var bb := body + "}";
      forall j | 2 <= j < m
        ensures !IsLineTerminator(s[j]) && !CloseAt(s, j)
      {
        var i := j - 2;
        assert s[j] == body[i] == bb[i] && s[j + 1] == bb[i + 1];
        assert !CloseAt(bb, i);
      }
      CommentEndAt(s, 2, m);
      assert s[m + 2..] == b;
    } else {
      var t := a[1..];
      assert !OpenAt(s, 0) by {
        assert (a + "{")[0] == s[0] && (a + "{")[1] == s[1];
        assert !OpenAt(a + "{", 0);
      }
      assert !ContainsOpen(t + "{") by {
        assert forall i :: 0 <= i < |t + "{"| - 1 ==> (t + "{")[i] == (a + "{")[i + 1];
        assert forall i :: OpenAt(t + "{", i) ==> OpenAt(a + "{", i + 1);
      }
      RemoveFirstComment(t, body, b);
      assert s[1..] == t + "{{" + body + "}}" + b;
      assert [a[0]] + (t + RemoveCurlyBracketComments(b)) == a + RemoveCurlyBracketComments(b);
    }
  }

  /** The lazy scan from `k` finds no `}}` when none starts before the line terminator or the end at `m`. */
  lemma {:induction false} CommentEndNone(s: string, k: nat, m: nat)
    requires k <= m <= |s| && (m == |s| || IsLineTerminator(s[m]))
    requires forall j :: k <= j < m ==> !CloseAt(s, j)
    ensures CommentEnd(s, k).None?
    decreases m - k
  {
    if k < m {
      assert !CloseAt(s, k);
      CommentEndNone(s, k + 1, m);
    }
  }

  /** Text without `}}` comes back unchanged: no comment can close. */
  lemma {:induction false} RemoveCommentsWithoutClose(s: string)
    requires forall j :: 0 <= j < |s| ==> !CloseAt(s, j)
    ensures RemoveCurlyBracketComments(s) == s
    decreases |s|
  {
    if s != [] {
      if |s| >= 2 {
        CommentEndNone(s, 2, |s|);
      }
      assert forall j :: 0 <= j < |s[1..]| ==> !CloseAt(s[1..], j) by {
        assert forall j :: CloseAt(s[1..], j) ==> CloseAt(s, j + 1);
      }
      RemoveCommentsWithoutClose(s[1..]);
    }
  }

  /**
   * A line that holds no `}}` is kept whole, line terminator included, and
   * the scan resumes on the next line: a `{{` on it, closed only on a later
   * line, is no comment.
   */
  lemma {:induction false} RemoveLineWithoutClose(u: string, t: char, b: string)
    requires forall j :: 0 <= j < |u| ==> !IsLineTerminator(u[j]) && !CloseAt(u, j)
    requires IsLineTerminator(t)
    ensures RemoveCurlyBracketComments(u + [t] + b) == u + [t] + RemoveCurlyBracketComments(b)
    decreases |u|
  {
    var s := u + [t] + b;
    if u == [] {
      assert s[1..] == b;
    } else {
      if |u| >= 2 {
        assert forall j :: 0 <= j < |u| ==> s[j] == u[j];
        assert s[|u|] == t;
        CommentEndNone(s, 2, |u|);
      }
      assert s[1..] == u[1..] + [t] + b;
      assert forall j :: 0 <= j < |u[1..]| ==> u[1..][j] == u[j + 1];
      assert forall j :: CloseAt(u[1..], j) ==> CloseAt(u, j + 1);
      RemoveLineWithoutClose(u[1..], t, b);
      assert [u[0]] + (u[1..] + [t] + RemoveCurlyBracketComments(b)) == u + [t] + RemoveCurlyBracketComments(b);
    }
  }

  /** Text without `{{`, even one completed by the next character `{`, is copied before the rewrite of what follows. */
  lemma {:induction false} RemovePlainPrefix(a: string, rest: string)
    requires !ContainsOpen(a + "{") && rest != [] && rest[0] == '{'
    ensures RemoveCurlyBracketComments(a + rest) == a + RemoveCurlyBracketComments(rest)
    decreases |a|
  {
    if a != [] {
      var s := a + rest;
      var t := a[1..];
      assert !OpenAt(s, 0) by {
        assert (a + "{")[0] == s[0] && (a + "{")[1] == s[1];
        assert !OpenAt(a + "{", 0);
      }
      assert !ContainsOpen(t + "{") by {
        assert forall i :: 0 <= i < |t + "{"| - 1 ==> (t + "{")[i] == (a + "{")[i + 1];
        assert forall i :: OpenAt(t + "{", i) ==> OpenAt(a + "{", i + 1);
      }
      RemovePlainPrefix(t, rest);
      assert s[1..] == t + rest;
      assert [a[0]] + (t + RemoveCurlyBracketComments(rest)) == a + RemoveCurlyBracketComments(rest);
    } else {
      assert a + rest == rest;
    }
  }

  /** `{{` followed on its line by text without `}}` opens no comment. */
  predicate Unclosed(c: string) {
    forall j :: 0 <= j < |c| ==> !IsLineTerminator(c[j]) && !CloseAt(c, j)
  }

  /** `{{` and the rest of its line are kept when no `}}` closes it there. */
  lemma UnclosedLine(c: string)
    requires Unclosed(c)
    ensures forall j :: 0 <= j < |"{{" + c| ==> !IsLineTerminator(("{{" + c)[j]) && !CloseAt("{{" + c, j)
  {
    var u := "{{" + c;
    assert forall j :: 2 <= j < |u| ==> u[j] == c[j - 2];
    assert forall j :: CloseAt(u, j) ==> CloseAt(c, j - 2);
  }

  /**
   * A `{{` with no `}}` after it on its line is kept with the rest of that
   * line, and the scan resumes after the line terminator: when `a` holds no
   * `{{` (not even one completed by the `{{` itself),
   * `a + "{{" + c + [t] + b` becomes `a + "{{" + c + [t]` followed by the
   * rewrite of `b`.
   */
  lemma RemoveUnclosedComment(a: string, c: string, t: char, b: string)
    requires !ContainsOpen(a + "{") && Unclosed(c) && IsLineTerminator(t)
    ensures RemoveCurlyBracketComments(a + "{{" + c + [t] + b) == a + "{{" + c + [t] + RemoveCurlyBracketComments(b)
  {
    var rest := "{{" + c + [t] + b;
    assert a + "{{" + c + [t] + b == a + rest;
    RemovePlainPrefix(a, rest);
    UnclosedLine(c);
    RemoveLineWithoutClose("{{" + c, t, b);
  }

  /** At the end of the text, an unclosed `{{` and what follows it are kept. */
  lemma RemoveUnclosedAtEnd(a: string, c: string)
    requires !ContainsOpen(a + "{") && Unclosed(c)
    ensures RemoveCurlyBracketComments(a + "{{" + c) == a + "{{" + c
  {
    var rest := "{{" + c;
    assert a + "{{" + c == a + rest;
    RemovePlainPrefix(a, rest);
    UnclosedLine(c);
    RemoveCommentsWithoutClose(rest);
  }

  /** `{{a}}b{{c}}` becomes `b`: each comment is the shortest `{{ ... }}`, not one running from the first `{{` to the last `}}`. */
  lemma RemoveCommentsExample()
    ensures RemoveCurlyBracketComments("{{a}}b{{c}}") == "b"
  {
    var s := "{{a}}b{{c}}";
    assert CommentEnd(s, 2) == Some(5) by {
      assert CommentEnd(s, 3) == Some(5);
    }
    var t := s[5..];
    assert t == "b{{c}}";
    assert RemoveCurlyBracketComments(t) == ['b'] + RemoveCurlyBracketComments(t[1..]);
    assert t[1..] == "{{c}}";
    assert CommentEnd("{{c}}", 2) == Some(5) by {
      assert CommentEnd("{{c}}", 3) == Some(5);
    }
  }

  /** A comment may not span lines: `{{a\nb}}` is left alone. */
  lemma RemoveCommentsSingleLine()
    ensures RemoveCurlyBracketComments("{{a\nb}}") == "{{a\nb}}"
  {
    var s := "{{a\nb}}";
    assert CommentEnd(s, 2) == None by {
      assert CommentEnd(s, 3) == None;
    }
    assert !ContainsOpen(s[1..]) by {
      var t := s[1..];
      assert t == "{a\nb}}";
      assert forall i :: 0 <= i < |t| && i != 0 ==> t[i] != '{';
    }
    RemoveCommentsWithoutOpen(s[1..]);
  }
}
