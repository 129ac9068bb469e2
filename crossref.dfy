/**
 * The cross-reference completion provider. It scans a Markdown document for
 * pandoc-crossref labels (`{#fig:…}`, `{#tbl:…}`, `{#eq:…}`, `{#sec:…}`,
 * `{#lst:…}`) and offers one completion item per label: with a title and a
 * preview in "full" mode, with the label alone in "minimal" mode, and none in
 * "none" mode.
 */
module Crossref {
  import opened Wrappers
  import opened JsString
  import opened CrossrefRegex
  import Paths

  /** How many characters before a label the table, listing and equation previews look back. */
  const ForeSearchChars: nat := 800
  /** Body rows of a table preview; the header and the separator row come on top. */
  const TblPrintLines: nat := 3

  /** An open editor document: its file name and its text. */
  datatype Document = Document(fileName: string, text: string)

  /** A completion item of kind Reference: its label (`key`), its detail, and its Markdown documentation. */
  datatype Item = Item(key: string, detail: Option<string>, documentation: Option<string>)

  /** What a parser receives: one match of the line pattern and the document it was found in. */
  datatype Context = Context(m: LineMatch, doc: Document)

  /** `${type}:${label}`. */
  function LabelOf(m: LineMatch): string {
    m.kind + ":" + m.name
  }

  /** `lineMatch.toString()`: the match array joined with commas. */
  function MatchString(m: LineMatch): string {
    m.text + Groups(m)
  }

  /** The two groups as `toString` appends them to the matched text. */
  function Groups(m: LineMatch): string {
    "," + m.kind + "," + m.name
  }

  /** A context the scan can produce: its match is the line pattern's match at its index. */
  predicate FromScan(c: Context) {
    c.m.index <= |c.doc.text| && MatchAt(c.doc.text, c.m.index) == Some(c.m)
  }

  /** A scanned context has the shape of a line-pattern match, which is all the parsers' lemmas rely on. */
  lemma ScanOnLine(c: Context)
    requires FromScan(c)
    ensures OnLine(c.doc.text, c.m)
  {
    MatchOnLine(c.doc.text, c.m.index);
  }

  // ---------------------------------------------------------------------
  // Figures and sections
  // ---------------------------------------------------------------------

  /** `parseFig`: the caption as detail, and an image link to the path taken relative to the document's directory. */
  function FigItem(c: Context): Option<Item> {
    match FigMatch(MatchString(c.m))
    case None => None
    case Some(g) =>
      var link := Paths.Join(Paths.Dirname(c.doc.fileName), g.1);
      Some(Item(LabelOf(c.m), Some(g.0), Some("![](" + link + "|\"width=300\")")))
  }

  /**
   * A figure item exists exactly when the figure pattern matches; its detail
   * is the caption group and its image link is absolute when the document's
   * path is. When the image path holds no `..` segment, the link also lies
   * under the document's directory (separators collapsed).
   */
  lemma FigItemMeaning(c: Context)
    ensures FigItem(c).Some? <==> FigMatch(MatchString(c.m)).Some?
    ensures FigItem(c).Some? ==>
      var g, dir := FigMatch(MatchString(c.m)).value, Paths.Dirname(c.doc.fileName);
      && FigItem(c).value.detail == Some(g.0)
      && (Paths.NoParentSegment(g.1) ==> StartsWith(Paths.Join(dir, g.1), Paths.Collapse(dir)))
      && (Paths.IsAbsolute(c.doc.fileName) ==> Paths.IsAbsolute(Paths.Join(dir, g.1)))
  {
    match FigMatch(MatchString(c.m))
    case None =>
    case Some(g) =>
      Paths.JoinUnder(Paths.Dirname(c.doc.fileName), g.1);
  }

  /** `parseSec`: the heading text as detail, no documentation. */
  function SecItem(c: Context): Option<Item> {
    match SecMatch(MatchString(c.m))
    case None => None
    case Some(title) => Some(Item(LabelOf(c.m), Some(title), None))
  }

  /** A matched line holds a `{` before its label, so the section pattern always matches it. */
  lemma MatchedLineHasBrace(c: Context)
    requires OnLine(c.doc.text, c.m)
    ensures '{' in MatchString(c.m)
  {
    var a :| 0 <= a < |c.m.text| && c.m.text[a] == '{';
    assert MatchString(c.m)[a] == '{';
  }

  /** Every scanned section label yields an item, titled by the heading text up to its last `{`. */
  lemma SecItemAlways(c: Context)
    requires OnLine(c.doc.text, c.m)
    ensures SecItem(c).Some?
    ensures exists k :: (
      && 0 <= k < |MatchString(c.m)| && MatchString(c.m)[k] == '{'
      && (forall j :: k < j < |MatchString(c.m)| ==> MatchString(c.m)[j] != '{')
      && SecItem(c).value.detail == Some(MatchString(c.m)[SpaceRunEnd(MatchString(c.m), HashRunEnd(MatchString(c.m), 0))..k]))
  {
    MatchedLineHasBrace(c);
    SecMatchMeaning(MatchString(c.m));
  }

  // ---------------------------------------------------------------------
  // Table previews
  // ---------------------------------------------------------------------

  /**
   * The cursor of the preview loop: from `start`, move to the next newline
   * `n` times, stopping early at the last newline of the text.
   */
  function Cursor(text: string, start: int, n: nat): (r: int)
    ensures start <= r
    ensures r == start || (0 <= r < |text| && text[r] == '\n')
    decreases n
  {
    if n == 0 then start
    else
      var pos := IndexOfCharFrom(text, '\n', start + 1);
      if pos < 0 then start else Cursor(text, pos, n - 1)
  }

  /** The cursor passes at most `n` newlines, and it passes fewer only when no newline is left. */
  lemma {:induction false} CursorMeaning(text: string, start: int, n: nat)
    requires -1 <= start < |text|
    ensures Cursor(text, start, n) < |text| && CursorWithin(text, start, n, Cursor(text, start, n))
    decreases n, 1
  {
    if n == 0 {
      assert text[start + 1..start + 1] == [];
    } else if IndexOfCharFrom(text, '\n', start + 1) >= 0 {
      CursorMoves(text, start, n);
    }
  }

  /** `CursorMeaning` when a newline follows `start`: the cursor moves to it and goes on from there. */
  lemma {:induction false} CursorMoves(text: string, start: int, n: nat)
    requires -1 <= start < |text| && n > 0 && IndexOfCharFrom(text, '\n', start + 1) >= 0
    ensures start <= Cursor(text, start, n) < |text| && CursorWithin(text, start, n, Cursor(text, start, n))
    decreases n, 0
  {
    var pos := IndexOfCharFrom(text, '\n', start + 1);
    var r := Cursor(text, pos, n - 1);
    assert Cursor(text, start, n) == r;
    CursorMeaning(text, pos, n - 1);
    CursorAdvance(text, start, pos, r, n);
  }

  /** From `start` to `r` at most `n` newlines are passed, and fewer only when none is left after `r`. */
  ghost predicate CursorWithin(text: string, start: int, n: nat, r: int)
    requires -1 <= start <= r < |text|
  {
    && Newlines(text, start + 1, r + 1) <= n
    && (Newlines(text, start + 1, r + 1) < n ==> forall k :: r < k < |text| ==> text[k] != '\n')
  }

  /** One step of `CursorMeaning`: the first newline after `start` is one more passed. */
  lemma CursorAdvance(text: string, start: int, pos: int, r: int, n: nat)
    requires -1 <= start < pos <= r < |text| && text[pos] == '\n' && n > 0
    requires forall k :: start < k < pos ==> text[k] != '\n'
    requires CursorWithin(text, pos, n - 1, r)
    ensures CursorWithin(text, start, n, r)
  {
    NewlinesSkip(text, start + 1, pos, r + 1);
  }

  /** The number of newlines in `text[a..b]`. */
  function Newlines(text: string, a: nat, b: nat): nat
    requires a <= b <= |text|
    decreases b - a
  {
    if a == b then 0 else (if text[a] == '\n' then 1 else 0) + Newlines(text, a + 1, b)
  }

  /** A stretch without newlines adds none. */
  lemma {:induction false} NewlinesSkip(text: string, a: nat, pos: nat, b: nat)
    requires a <= pos <= b <= |text|
    requires forall k :: a <= k < pos ==> text[k] != '\n'
    ensures Newlines(text, a, b) == Newlines(text, pos, b)
    decreases pos - a
  {
    if a < pos {
      NewlinesSkip(text, a + 1, pos, b);
    }
  }

  /**
   * The preview of a table (or of a listing shown as a table): when the last
   * `signature` within the 800 characters before the label starts past the
   * first of them, the text from after the last blank line before it, over
   * the header, the separator and two rows; otherwise nothing.
   */
  function Preview(text: string, index: int, signature: string): string {
    match PreviewStart(text, index, signature)
    case None => ""
    case Some(begin) => PreviewFrom(text, begin)
  }

  /** The blank line the preview starts after, when the window holds a suitable signature. */
  function PreviewStart(text: string, index: int, signature: string): Option<int> {
    var searchStart := Max(index - ForeSearchChars, 0);
    var sig := LastIndexOf(Substring(text, searchStart, index), signature);
    if sig > 0 then Some(LastIndexOfFrom(text, "\n\n", sig + searchStart)) else None
  }

  /** The lines shown from after the blank line at `begin`. */
  function PreviewFrom(text: string, begin: int): string {
    Substring(text, begin + 2, Cursor(text, begin, TblPrintLines + 2))
  }

  /** `signature` occurs in the search window at an index past its first character. */
  ghost predicate SignatureAfter(text: string, index: nat, signature: string) {
    exists w :: Max(index - ForeSearchChars, 0) < w && w + |signature| <= index && OccursAt(text, signature, w)
  }

  /**
   * Without a signature in the window the preview is empty; with one, it is
   * cut from the last blank line at or before the last signature (or from the
   * second character when there is none) up to the cursor.
   */
  lemma PreviewMeaning(text: string, index: nat, signature: string)
    requires index <= |text|
    ensures !SignatureAfter(text, index, signature) ==> Preview(text, index, signature) == ""
    ensures SignatureAfter(text, index, signature) ==>
      exists w, begin :: PreviewCut(text, index, signature, w, begin) && Preview(text, index, signature) == PreviewFrom(text, begin)
  {
    if SignatureAfter(text, index, signature) {
      PreviewFound(text, index, signature);
    } else {
      LastSignature(text, index, signature);
    }
  }

  /** `PreviewMeaning` with a signature in the window. */
  lemma PreviewFound(text: string, index: nat, signature: string)
    requires index <= |text| && SignatureAfter(text, index, signature)
    ensures exists w, begin :: PreviewCut(text, index, signature, w, begin) && Preview(text, index, signature) == PreviewFrom(text, begin)
  {
    var ss := Max(index - ForeSearchChars, 0);
    var sig := LastIndexOf(Substring(text, ss, index), signature);
    LastSignature(text, index, signature);
    var w := ss + sig;
    var begin := LastIndexOfFrom(text, "\n\n", w);
    CutAtLastBlank(text, index, signature, w);
    assert PreviewCut(text, index, signature, w, begin);
  }

  /** Cutting at the last blank line at or before the last signature `w` meets `PreviewCut`. */
  lemma CutAtLastBlank(text: string, index: nat, signature: string, w: int)
    requires Max(index - ForeSearchChars, 0) < w && w + |signature| <= index && OccursAt(text, signature, w)
    requires forall w' :: w < w' && w' + |signature| <= index ==> !OccursAt(text, signature, w')
    ensures PreviewCut(text, index, signature, w, LastIndexOfFrom(text, "\n\n", w))
  {
  }

  /**
   * The last `signature` in the window starts at `w`, past the window's first
   * character, and `begin` is the last blank line at or before it (-1 when
   * there is none).
   */
  ghost predicate PreviewCut(text: string, index: nat, signature: string, w: int, begin: int) {
    && Max(index - ForeSearchChars, 0) < w && w + |signature| <= index && OccursAt(text, signature, w)
    && (forall w' :: w < w' && w' + |signature| <= index ==> !OccursAt(text, signature, w'))
    && -1 <= begin <= w
    && (begin == -1 || OccursAt(text, "\n\n", begin))
    && (forall b :: begin < b <= w ==> !OccursAt(text, "\n\n", b))
  }

  /** The `lastIndexOf` in the window finds a signature past its start exactly when there is one, and then the last one. */
  lemma LastSignature(text: string, index: nat, signature: string)
    requires index <= |text|
    ensures var ss := Max(index - ForeSearchChars, 0);
      var sig := LastIndexOf(Substring(text, ss, index), signature);
      && (sig > 0 <==> SignatureAfter(text, index, signature))
      && (sig > 0 ==>
            && ss + sig + |signature| <= index && OccursAt(text, signature, ss + sig)
            && forall w' :: ss + sig < w' && w' + |signature| <= index ==> !OccursAt(text, signature, w'))
  {
    var ss := Max(index - ForeSearchChars, 0);
    LastIndexOfSlice(text, ss, index, signature);
    if SignatureAfter(text, index, signature) {
      var w :| ss < w && w + |signature| <= index && OccursAt(text, signature, w);
    }
  }

  /** The cursor loop of the table preview: up to `TblPrintLines + 2` newlines on from `begin`. */
  method AdvanceCursor(text: string, begin: int) returns (cursor: int)
    ensures cursor == Cursor(text, begin, TblPrintLines + 2)
  {
    cursor := begin;
    var i := 0;
    while i < TblPrintLines + 2
      invariant 0 <= i <= TblPrintLines + 2
      invariant Cursor(text, cursor, TblPrintLines + 2 - i) == Cursor(text, begin, TblPrintLines + 2)
    {
      var pos := IndexOfCharFrom(text, '\n', cursor + 1);
      if pos < 0 {
        break;
      }
      cursor := pos;
      i := i + 1;
    }
  }

  /** The table preview of `parseTbl` and `parseLstTableMatch`. */
  method TablePreview(text: string, index: int, signature: string) returns (documentation: string)
    ensures documentation == Preview(text, index, signature)
  {
    var start := SignatureBlank(text, index, signature);
    documentation := "";
    if start.Some? {
      documentation := PreviewLines(text, start.value);
    }
  }

  /** The window search of the table preview: the last signature, then the blank line before it. */
  method SignatureBlank(text: string, index: int, signature: string) returns (start: Option<int>)
    ensures start == PreviewStart(text, index, signature)
  {
    var searchStart := Max(index - ForeSearchChars, 0);
    var sig := LastIndexOf(Substring(text, searchStart, index), signature);
    start := None;
    if sig > 0 {
      start := Some(LastIndexOfFrom(text, "\n\n", sig + searchStart));
    }
  }

  /** The lines of the preview: from after the blank line at `begin` up to where the cursor loop stops. */
  method PreviewLines(text: string, begin: int) returns (documentation: string)
    ensures documentation == PreviewFrom(text, begin)
  {
    var cursor := AdvanceCursor(text, begin);
    documentation := Substring(text, begin + 2, cursor);
  }

  // ---------------------------------------------------------------------
  // Tables and listings
  // ---------------------------------------------------------------------

  /** `parseTbl`: the caption after the first `:` as detail, the table preview as documentation. */
  function TblItem(c: Context): Option<Item> {
    match TblMatch(MatchString(c.m))
    case None => None
    case Some(title) => Some(Item(LabelOf(c.m), Some(title), Some(Preview(c.doc.text, c.m.index, "|:-"))))
  }

  method ParseTbl(c: Context) returns (r: Option<Item>)
    ensures r == TblItem(c)
  {
    match TblMatch(MatchString(c.m))
    case None =>
      r := None;
    case Some(title) =>
      var documentation := TablePreview(c.doc.text, c.m.index, "|:-");
      r := Some(Item(LabelOf(c.m), Some(title), Some(documentation)));
  }

  /** A table item exists exactly when a `:` precedes a `{` on the matched line, and a preview without a `|:-` row is empty. */
  lemma TblItemMeaning(c: Context)
    requires c.m.index <= |c.doc.text|
    ensures TblItem(c).None? <==>
      forall i, j :: 0 <= i < j < |MatchString(c.m)| && MatchString(c.m)[i] == ':' ==> MatchString(c.m)[j] != '{'
    ensures TblItem(c).Some? && !SignatureAfter(c.doc.text, c.m.index, "|:-") ==>
      TblItem(c).value.documentation == Some("")
  {
    TblMatchMeaning(MatchString(c.m));
    PreviewMeaning(c.doc.text, c.m.index, "|:-");
  }

  /**
   * `parseLstNormalMatch`: the `.lang` class and the `caption="…"` attribute
   * of the fence line, and the code up to the next fence after the label's
   * index as a fenced preview.
   */
  function LstNormalItem(c: Context): Item {
    var t := MatchString(c.m);
    Item(LabelOf(c.m), Some(CaptionMatch(t).GetOr(c.m.name)), Some(ListingCode(c.doc.text, c.m, LangMatch(t).GetOr(""))))
  }

  /** The preview of a fence-line listing: the code up to the next fence after the label's index, if there is one. */
  function ListingCode(text: string, m: LineMatch, lang: string): string {
    var end := IndexOf(text, "```", m.index + 1);
    if end > 0 then Fenced(lang, Substring(text, m.index + |m.text|, end)) else ""
  }

  /** Code shown as a fenced block in the given language. */
  function Fenced(lang: string, code: string): string {
    "``` " + lang + " " + code + "\n```"
  }

  /** `parseLstTableMatch`: the caption as detail, and the preview cut at the last fence before the label. */
  function LstTableItem(c: Context, title: string): Item {
    Item(LabelOf(c.m), Some(title), Some(Preview(c.doc.text, c.m.index, "```")))
  }

  method ParseLstTableMatch(c: Context, title: string) returns (r: Item)
    ensures r == LstTableItem(c, title)
  {
    var documentation := TablePreview(c.doc.text, c.m.index, "```");
    r := Item(LabelOf(c.m), Some(title), Some(documentation));
  }

  /** `parseLst`: a fence line takes precedence over a caption line. */
  function LstItem(c: Context): Option<Item> {
    var t := MatchString(c.m);
    if LstFence(t) then Some(LstNormalItem(c))
    else
      match TblMatch(t)
      case None => None
      case Some(title) => Some(LstTableItem(c, title))
  }

  method ParseLst(c: Context) returns (r: Option<Item>)
    ensures r == LstItem(c)
  {
    var t := MatchString(c.m);
    if LstFence(t) {
      r := Some(LstNormalItem(c));
      return;
    }
    match TblMatch(t)
    case None =>
      r := None;
    case Some(title) =>
      var item := ParseLstTableMatch(c, title);
      r := Some(item);
  }

  /** A fence-line listing is titled by its caption when it has one and by its label otherwise, never by an empty text. */
  lemma LstNormalTitle(c: Context)
    requires OnLine(c.doc.text, c.m)
    ensures CaptionMatch(MatchString(c.m)).None? ==> LstNormalItem(c).detail == Some(c.m.name)
    ensures CaptionMatch(MatchString(c.m)).Some? ==> LstNormalItem(c).detail == CaptionMatch(MatchString(c.m))
    ensures LstNormalItem(c).detail != Some("")
  {
    CaptionMatchMeaning(MatchString(c.m));
  }

  /**
   * The preview of a fence-line listing is the code between the end of the
   * label line and the next fence after the label's index, as a fenced block
   * in the listing's language.
   */
  lemma ListingCodeMeaning(c: Context, lang: string, e: int)
    requires OnLine(c.doc.text, c.m)
    requires c.m.index + |c.m.text| <= e && OccursAt(c.doc.text, "```", e)
    requires forall f :: c.m.index + 1 <= f < e ==> !OccursAt(c.doc.text, "```", f)
    ensures ListingCode(c.doc.text, c.m, lang) == Fenced(lang, c.doc.text[c.m.index + |c.m.text|..e])
  {
    var text, a := c.doc.text, c.m.index + |c.m.text|;
    assert IndexOf(text, "```", c.m.index + 1) == e;
    assert Substring(text, a, e) == text[a..e];
  }

  /**
   * When the next fence after the label's index lies inside the matched line
   * itself, `substring` swaps its arguments: the preview is the rest of the
   * line from that fence on.
   */
  lemma ListingCodeInLine(c: Context, lang: string, e: int)
    requires OnLine(c.doc.text, c.m)
    requires c.m.index + 1 <= e < c.m.index + |c.m.text| && OccursAt(c.doc.text, "```", e)
    requires forall f :: c.m.index + 1 <= f < e ==> !OccursAt(c.doc.text, "```", f)
    ensures ListingCode(c.doc.text, c.m, lang) == Fenced(lang, c.doc.text[e..c.m.index + |c.m.text|])
  {
    var text, a := c.doc.text, c.m.index + |c.m.text|;
    assert IndexOf(text, "```", c.m.index + 1) == e;
    assert Substring(text, a, e) == text[e..a];
  }

  /** With no fence after the label's index, a fence-line listing has an empty preview. */
  lemma ListingNoCode(c: Context, lang: string)
    requires forall f :: c.m.index + 1 <= f ==> !OccursAt(c.doc.text, "```", f)
    ensures ListingCode(c.doc.text, c.m, lang) == ""
  {
  }

  // ---------------------------------------------------------------------
  // Equations
  // ---------------------------------------------------------------------

  /**
   * `parseEq`: the label itself as detail, and as documentation the equation
   * source between the last `$$` within the 800 characters before the
   * labelled `$$` and that `$$`. When the window holds no `$$` there is no
   * item (the evidently intended reading of the `begin < 0` test; see
   * `EqItemAsWritten`).
   */
  function EqItem(c: Context): Option<Item> {
    match EqMatch(MatchString(c.m))
    case None => None
    case Some(k) => EquationAt(c, c.m.index + k)
  }

  /** The equation item for the labelled `$$` at `matchIndex` of the document. */
  function EquationAt(c: Context, matchIndex: int): Option<Item> {
    var searchStart := Max(matchIndex - ForeSearchChars, 0);
    var w := LastIndexOf(Substring(c.doc.text, searchStart, matchIndex), "$$");
    if w < 0 then None
    else Some(Item(LabelOf(c.m), Some(c.m.name), Some(Substring(c.doc.text, searchStart + w + 2, matchIndex))))
  }

  /** `parseEq` as written: the window's offset is added to `lastIndexOf` before the `begin < 0` test. */
  function EqItemAsWritten(c: Context): Option<Item> {
    match EqMatch(MatchString(c.m))
    case None => None
    case Some(k) => EquationAtAsWritten(c, c.m.index + k)
  }

  function EquationAtAsWritten(c: Context, matchIndex: int): Option<Item> {
    var searchStart := Max(matchIndex - ForeSearchChars, 0);
    var begin := LastIndexOf(Substring(c.doc.text, searchStart, matchIndex), "$$") + searchStart;
    if begin < 0 then None
    else Some(Item(LabelOf(c.m), Some(c.m.name), Some(Substring(c.doc.text, begin + 2, matchIndex))))
  }

  /**
   * There is an equation item for the `$$` at `mi` exactly when a `$$` lies
   * wholly inside the 800 characters before it; its documentation is then the
   * text between the last such `$$` and the one at `mi`.
   */
  lemma EquationAtMeaning(c: Context, mi: nat)
    requires mi <= |c.doc.text|
    ensures var ss, text := Max(mi - ForeSearchChars, 0), c.doc.text;
      && (EquationAt(c, mi).None? <==> forall b :: ss <= b && b + 2 <= mi ==> !OccursAt(text, "$$", b))
      && (EquationAt(c, mi).Some? ==>
            exists b :: (
              && ss <= b && b + 2 <= mi && OccursAt(text, "$$", b)
              && (forall b' :: b < b' && b' + 2 <= mi ==> !OccursAt(text, "$$", b'))
              && EquationAt(c, mi).value == Item(LabelOf(c.m), Some(c.m.name), Some(text[b + 2..mi]))))
  {
    var ss := Max(mi - ForeSearchChars, 0);
    LastIndexOfSlice(c.doc.text, ss, mi, "$$");
  }

  /**
   * As written, the `$$` at `mi` gets an item even when the window starts past
   * the document's beginning and holds no `$$`: its documentation then starts
   * one character into the window, where the intended reading gives none.
   */
  lemma EquationAtAsWrittenStray(c: Context, mi: nat)
    requires ForeSearchChars < mi <= |c.doc.text|
    requires forall b :: mi - ForeSearchChars <= b && b + 2 <= mi ==> !OccursAt(c.doc.text, "$$", b)
    ensures EquationAt(c, mi).None?
    ensures EquationAtAsWritten(c, mi) == Some(Item(LabelOf(c.m), Some(c.m.name), Some(c.doc.text[mi - ForeSearchChars + 1..mi])))
  {
    LastIndexOfSlice(c.doc.text, mi - ForeSearchChars, mi, "$$");
  }

  /** Everywhere else the as-written and the intended `parseEq` agree. */
  lemma EqAsWrittenAgrees(c: Context)
    ensures EqItemAsWritten(c) != EqItem(c) ==> EqItem(c).None? && EqItemAsWritten(c).Some?
  {
  }

  /** The groups hold no `{` and no `$`, since the kind is a letter word and the label a word. */
  lemma GroupsPlain(m: LineMatch)
    requires m.kind in Kinds && forall k :: 0 <= k < |m.name| ==> IsWordChar(m.name[k])
    ensures forall j :: 0 <= j < |Groups(m)| ==> Groups(m)[j] != '{' && Groups(m)[j] != '$'
  {
    var g := Groups(m);
    forall j | 0 <= j < |g|
      ensures g[j] != '{' && g[j] != '$'
    {
      if 1 <= j < 1 + |m.kind| {
        assert g[j] == m.kind[j - 1];
      } else if j >= 2 + |m.kind| {
        assert g[j] == m.name[j - 2 - |m.kind|];
      }
    }
  }

  /** The text appended to a matched line holds no `{` and no `$`. */
  lemma SuffixPlain(c: Context)
    requires OnLine(c.doc.text, c.m)
    ensures forall q :: |c.m.text| <= q < |MatchString(c.m)| ==> MatchString(c.m)[q] != '{' && MatchString(c.m)[q] != '$'
  {
    GroupsPlain(c.m);
    forall q | |c.m.text| <= q < |MatchString(c.m)|
      ensures MatchString(c.m)[q] == Groups(c.m)[q - |c.m.text|]
    {
    }
  }

  /** The labelled `$$` of a scanned equation lies on its line, inside the document. */
  lemma EqIndexInText(c: Context)
    requires OnLine(c.doc.text, c.m) && EqMatch(MatchString(c.m)).Some?
    ensures c.m.index + EqMatch(MatchString(c.m)).value + 2 <= |c.doc.text|
  {
    var t := MatchString(c.m);
    var k := EqMatch(t).value;
    assert k + 2 <= |t| && t[k + 1] == '$' by {
      assert OccursAt(t, "$$", k);
      assert t[k..k + 2][1] == t[k + 1];
    }
    assert k + 1 < |c.m.text| by {
      SuffixPlain(c);
    }
  }

  /** For a scanned line, the equation pattern's `$$` lies inside the document, so `EquationAtMeaning` describes its item. */
  lemma EqItemMeaning(c: Context)
    requires OnLine(c.doc.text, c.m)
    ensures EqMatch(MatchString(c.m)).None? ==> EqItem(c).None?
    ensures EqMatch(MatchString(c.m)).Some? ==>
      var mi := c.m.index + EqMatch(MatchString(c.m)).value;
      mi + 2 <= |c.doc.text| && EqItem(c) == EquationAt(c, mi)
  {
    var k := EqMatch(MatchString(c.m));
    if k.Some? {
      EqIndexInText(c);
    }
  }

  // ---------------------------------------------------------------------
  // The provider
  // ---------------------------------------------------------------------

  /** The parser chosen by `parsers[type]`, with the corrected `EqItem` for `eq` (`EqItemAsWritten` is the code as written). */
  function Parse(c: Context): Option<Item> {
    if c.m.kind == "fig" then FigItem(c)
    else if c.m.kind == "sec" then SecItem(c)
    else if c.m.kind == "tbl" then TblItem(c)
    else if c.m.kind == "lst" then LstItem(c)
    else if c.m.kind == "eq" then EqItem(c)
    else None
  }

  method ParseLine(c: Context) returns (r: Option<Item>)
    ensures r == Parse(c)
  {
    if c.m.kind == "fig" {
      r := FigItem(c);
    } else if c.m.kind == "sec" {
      r := SecItem(c);
    } else if c.m.kind == "tbl" {
      r := ParseTbl(c);
    } else if c.m.kind == "lst" {
      r := ParseLst(c);
    } else if c.m.kind == "eq" {
      r := EqItem(c);
    } else {
      r := None;
    }
  }

  /** Every parser labels its item `${type}:${label}`. */
  lemma ParseLabel(c: Context)
    ensures Parse(c).Some? ==> Parse(c).value.key == LabelOf(c.m)
  {
  }

  /** What one match contributes in the given mode. */
  function Step(mode: string, doc: Document, m: LineMatch): seq<Item> {
    if mode == "full" then
      match Parse(Context(m, doc))
      case Some(item) => [item]
      case None => []
    else if mode == "minimal" then [Item(LabelOf(m), None, None)]
    else []
  }

  /** The items of a sequence of matches, in order. */
  function Collect(mode: string, doc: Document, ms: seq<LineMatch>): seq<Item>
    decreases |ms|
  {
    if ms == [] then [] else Step(mode, doc, ms[0]) + Collect(mode, doc, ms[1..])
  }

  /** `provide` when the line pattern's `lastIndex` is `from` on entry. */
  function ProvideFrom(args: Option<Document>, mode: string, from: nat): seq<Item> {
    if args.None? || mode == "none" then []
    else if from > |args.value.text| then []
    else Collect(mode, args.value, Matches(args.value.text, from))
  }

  /** In "minimal" mode every match gives exactly its label, in document order. */
  lemma {:induction false} MinimalItems(doc: Document, ms: seq<LineMatch>)
    ensures Collect("minimal", doc, ms) == seq(|ms|, i requires 0 <= i < |ms| => Item(LabelOf(ms[i]), None, None))
    decreases |ms|
  {
    if ms != [] {
      MinimalItems(doc, ms[1..]);
    }
  }

  /** A mode other than "full" and "minimal" offers nothing. */
  lemma {:induction false} OtherModesEmpty(mode: string, doc: Document, ms: seq<LineMatch>)
    requires mode != "full" && mode != "minimal"
    ensures Collect(mode, doc, ms) == []
    decreases |ms|
  {
    if ms != [] {
      OtherModesEmpty(mode, doc, ms[1..]);
    }
  }

  /** The values of the present options, in order. */
  function Somes<T>(os: seq<Option<T>>): seq<T>
    decreases |os|
  {
    if os == [] then []
    else (if os[0].Some? then [os[0].value] else []) + Somes(os[1..])
  }

  /** What the parsers return for each match, in order. */
  function Outcomes(doc: Document, ms: seq<LineMatch>): (r: seq<Option<Item>>)
    ensures |r| == |ms|
  {
    seq(|ms|, i requires 0 <= i < |ms| => Parse(Context(ms[i], doc)))
  }

  /** In "full" mode the loop collects exactly the items the parsers return. */
  lemma {:induction false} CollectFull(doc: Document, ms: seq<LineMatch>)
    ensures Collect("full", doc, ms) == Somes(Outcomes(doc, ms))
    decreases |ms|
  {
    if ms != [] {
      CollectFull(doc, ms[1..]);
      assert Outcomes(doc, ms)[1..] == Outcomes(doc, ms[1..]);
    }
  }

  /**
   * The scan of a whole document gives the parsers only contexts the scan can
   * produce, with one line each; so in "full" mode the items are the parsed
   * labels, in order, one per line at most.
   */
  lemma FullProvide(doc: Document)
    ensures var ms := Matches(doc.text, 0);
      && ProvideFrom(Some(doc), "full", 0) == Somes(Outcomes(doc, ms))
      && |ProvideFrom(Some(doc), "full", 0)| <= |ms|
      && (forall i, j :: 0 <= i < j < |ms| ==> EndOf(ms[i]) < ms[j].index && IsLineTerminator(doc.text[EndOf(ms[i])]))
  {
    var ms := Matches(doc.text, 0);
    var p := ProvideFrom(Some(doc), "full", 0);
    assert p == Somes(Outcomes(doc, ms)) by {
      assert p == Collect("full", doc, ms);
      CollectFull(doc, ms);
    }
    assert |p| <= |ms| by {
      SomesLength(Outcomes(doc, ms));
    }
    OneMatchPerLine(doc.text, 0);
  }

  /** Dropping the absent values never lengthens the list. */
  lemma {:induction false} SomesLength<T>(os: seq<Option<T>>)
    ensures |Somes(os)| <= |os|
    decreases |os|
  {
    if os != [] {
      SomesLength(os[1..]);
    }
  }

  /** Every context the scan hands to a parser is one the scan can produce. */
  lemma ScannedContexts(doc: Document, from: nat)
    requires from <= |doc.text|
    ensures forall i :: 0 <= i < |Matches(doc.text, from)| ==> FromScan(Context(Matches(doc.text, from)[i], doc))
  {
    MatchesAreMatches(doc.text, from);
  }

  /**
   * The provider. The line pattern is global, so its `lastIndex` is state of
   * the provider that `exec` advances and resets to 0 when it finds no more
   * matches.
   */
  class Crossref {
    /** The `lastIndex` of the global line pattern. */
    var lastIndex: nat

    constructor()
      ensures lastIndex == 0
    {
      lastIndex := 0;
    }

    /** Between calls the line pattern is at rest. */
    ghost predicate Valid()
      reads this
    {
      lastIndex == 0
    }

    /** `lineRegex.exec(s)`: the next match from `lastIndex`, which moves to its end or back to 0. */
    method ExecLine(s: string) returns (m: Option<LineMatch>)
      modifies this
      ensures m == (if old(lastIndex) <= |s| then Exec(s, old(lastIndex)) else None)
      ensures lastIndex == (if m.Some? then EndOf(m.value) else 0)
    {
      if lastIndex <= |s| {
        m := Exec(s, lastIndex);
      } else {
        m := None;
      }
      lastIndex := if m.Some? then EndOf(m.value) else 0;
    }

    /** `provide`: the items of every match left from `lastIndex`, which ends back at 0. */
    method Provide(args: Option<Document>, mode: string) returns (targets: seq<Item>)
      modifies this
      ensures targets == ProvideFrom(args, mode, old(lastIndex))
      ensures lastIndex == (if args.None? || mode == "none" then old(lastIndex) else 0)
      ensures old(Valid()) ==> Valid()
    {
      if args.None? {
        return [];
      }
      if mode == "none" {
        return [];
      }
      var doc := args.value;
      var s := doc.text;
      ghost var total := ProvideFrom(args, mode, lastIndex);
      ghost var pending := if lastIndex <= |s| then Matches(s, lastIndex) else [];
      targets := [];
      var m := ExecLine(s);
      NextMatches(s, old(lastIndex), m, lastIndex);
      while m.Some?
        invariant m.Some? ==> m.value.index < lastIndex == EndOf(m.value) <= |s|
        invariant m.None? ==> lastIndex == 0
        invariant pending == if m.Some? then [m.value] + Matches(s, lastIndex) else []
        invariant targets + Collect(mode, doc, pending) == total
        decreases if m.Some? then |s| - m.value.index + 1 else 0
      {
        var items := Emit(mode, doc, m.value);
        CollectCons(mode, doc, m.value, Matches(s, lastIndex), targets, items);
        targets := targets + items;
        pending := Matches(s, lastIndex);
        ghost var from := lastIndex;
        m := ExecLine(s);
        NextMatches(s, from, m, lastIndex);
      }
    }
  }

  /** What the loop of `provide` adds for one match, in the given mode. */
  method Emit(mode: string, doc: Document, m: LineMatch) returns (items: seq<Item>)
    ensures items == Step(mode, doc, m)
  {
    items := [];
    if mode == "full" {
      var item := ParseLine(Context(m, doc));
      if item.Some? {
        items := [item.value];
      }
    } else if mode == "minimal" {
      items := [Item(LabelOf(m), None, None)];
    }
  }

  /** One more `exec` from an in-range `lastIndex` takes the next of the remaining matches. */
  lemma NextMatches(s: string, from: nat, m: Option<LineMatch>, next: nat)
    requires m == (if from <= |s| then Exec(s, from) else None)
    requires next == if m.Some? then EndOf(m.value) else 0
    ensures (if from <= |s| then Matches(s, from) else []) == if m.Some? then [m.value] + Matches(s, next) else []
  {
  }

  /** Handing the first pending match's items over to the result keeps the total. */
  lemma CollectCons(mode: string, doc: Document, m: LineMatch, rest: seq<LineMatch>, targets: seq<Item>, items: seq<Item>)
    requires items == Step(mode, doc, m)
    ensures targets + Collect(mode, doc, [m] + rest) == (targets + items) + Collect(mode, doc, rest)
  {
    assert ([m] + rest)[1..] == rest;
  }
}
