/**
 * The pandoc side of the "Compile Markdown" command: per-format default
 * configurations, the merge of a document's `pandoc.<format>` front-matter
 * section into them, and the serialisation of a configuration into one
 * pandoc command line.
 */
module CompileMarkdown {
  import opened Wrappers
  import JsString
  import Paths

  /**
   * `PandocConfig`. Every key is optional; `None` stands for a key that is
   * absent from the object (so a spread does not override with it).
   */
  datatype PandocConfig = PandocConfig(
    engine: Option<string>,
    filters: Option<seq<string>>,
    options: Option<seq<string>>,
    referenceDoc: Option<string>,
    standalone: Option<bool>,
    selfContained: Option<bool>,
    toc: Option<bool>,
    numberSections: Option<bool>)

  /** `{}`. */
  const Empty := PandocConfig(None, None, None, None, None, None, None, None)

  const MarkdownReader: string := "markdown+simple_tables+table_captions+yaml_metadata_block+smart"

  /** `DEFAULT_CONFIGS[format] || {}`: the three known formats, and `{}` for any other. */
  function Defaults(format: string): PandocConfig {
    if format == "pdf" then
      Empty.(engine := Some("xelatex"), filters := Some(["pandoc-xnos"]), options := Some(["-r", MarkdownReader, "-s"]))
    else if format == "docx" then
      Empty.(filters := Some([]), options := Some(["-r", MarkdownReader, "-s"]))
    else if format == "html" then
      Empty.(standalone := Some(true), filters := Some([]), options := Some(["-r", MarkdownReader]))
    else Empty
  }

  /** JavaScript truthiness of an optional string: present and non-empty. */
  predicate Truthy(s: Option<string>) {
    s.Some? && s.value != ""
  }

  /** JavaScript truthiness of an optional boolean. */
  predicate IsTrue(b: Option<bool>) {
    b == Some(true)
  }

  /** `{...a, ...b}` on one key: the right-hand object wins when it has the key. */
  function Override<T>(a: Option<T>, b: Option<T>): Option<T> {
    if b.Some? then b else a
  }

  /**
   * `resolveFilePath`: an absolute path is kept, a relative one is resolved
   * against the directory of the source document (and, through
   * `path.resolve`, against the working directory `cwd` if that directory is
   * itself relative).
   */
  function ResolveFilePath(relativePath: string, sourceDocumentPath: string, cwd: string): (r: string)
    ensures Paths.IsAbsolute(relativePath) ==> r == relativePath
    ensures Paths.IsAbsolute(cwd) ==> Paths.IsAbsolute(r)
  {
    if Paths.IsAbsolute(relativePath) then relativePath
    else Paths.Resolve(cwd, Paths.Dirname(sourceDocumentPath), relativePath)
  }

  /**
   * `buildPandocConfig`: the user's section (`yamlData?.pandoc?.[format]`,
   * None when missing or falsy) is spread over the defaults, except that the
   * two lists are concatenated, defaults first; a truthy `reference-doc` is
   * then resolved against the source document.
   */
  function BuildPandocConfig(format: string, user: Option<PandocConfig>, sourceDocumentPath: string, cwd: string): (r: PandocConfig)
    ensures r.filters.Some? && r.options.Some?
    ensures Truthy(r.referenceDoc) && Paths.IsAbsolute(cwd) ==> Paths.IsAbsolute(r.referenceDoc.value)
  {
    var d := Defaults(format);
    var u := user.GetOr(Empty);
    var merged := PandocConfig(
      Override(d.engine, u.engine),
      Some(d.filters.GetOr([]) + u.filters.GetOr([])),
      Some(d.options.GetOr([]) + u.options.GetOr([])),
      Override(d.referenceDoc, u.referenceDoc),
      Override(d.standalone, u.standalone),
      Override(d.selfContained, u.selfContained),
      Override(d.toc, u.toc),
      Override(d.numberSections, u.numberSections));
    if Truthy(merged.referenceDoc) then
      merged.(referenceDoc := Some(ResolveFilePath(merged.referenceDoc.value, sourceDocumentPath, cwd)))
    else merged
  }

  /** The merged lists are the default list followed by the user's list, each in its own order. */
  lemma MergedListsConcatenate(format: string, user: Option<PandocConfig>, src: string, cwd: string)
    ensures var r := BuildPandocConfig(format, user, src, cwd);
      var df, uf := Defaults(format).filters.GetOr([]), user.GetOr(Empty).filters.GetOr([]);
      var dop, uop := Defaults(format).options.GetOr([]), user.GetOr(Empty).options.GetOr([]);
      && |r.filters.value| == |df| + |uf| && r.filters.value[..|df|] == df && r.filters.value[|df|..] == uf
      && |r.options.value| == |dop| + |uop| && r.options.value[..|dop|] == dop && r.options.value[|dop|..] == uop
  {
  }

  /** A key the user sets replaces the default; a key the user omits keeps the default. */
  lemma UserScalarsOverride(format: string, u: PandocConfig, src: string, cwd: string)
    ensures var r := BuildPandocConfig(format, Some(u), src, cwd);
      && r.engine == (if u.engine.Some? then u.engine else Defaults(format).engine)
      && r.standalone == (if u.standalone.Some? then u.standalone else Defaults(format).standalone)
      && r.selfContained == u.selfContained
      && r.toc == u.toc && r.numberSections == u.numberSections
  {
  }

  /** A missing user section contributes nothing: the merge of a known format is its defaults. */
  lemma MissingUserSectionGivesDefaults(format: string, src: string, cwd: string)
    requires format == "pdf" || format == "docx" || format == "html"
    ensures BuildPandocConfig(format, None, src, cwd) == Defaults(format)
  {
    var d := Defaults(format);
    assert d.filters.value + [] == d.filters.value;
    assert d.options.value + [] == d.options.value;
  }

  /** An unknown format has empty defaults: only the user's section counts. */
  lemma UnknownFormatUsesUserOnly(format: string, u: PandocConfig, src: string, cwd: string)
    requires format != "pdf" && format != "docx" && format != "html"
    requires !Truthy(u.referenceDoc)
    ensures BuildPandocConfig(format, Some(u), src, cwd)
         == u.(filters := Some(u.filters.GetOr([])), options := Some(u.options.GetOr([])))
  {
    assert [] + u.filters.GetOr([]) == u.filters.GetOr([]);
    assert [] + u.options.GetOr([]) == u.options.GetOr([]);
  }

  /** A relative `reference-doc` ends up under the source document's directory. */
  lemma ReferenceDocResolved(format: string, u: PandocConfig, src: string, cwd: string)
    requires Truthy(u.referenceDoc) && !Paths.IsAbsolute(u.referenceDoc.value)
    ensures BuildPandocConfig(format, Some(u), src, cwd).referenceDoc
         == Some(Paths.Resolve(cwd, Paths.Dirname(src), u.referenceDoc.value))
  {
  }

  // ---- The command line, segment by segment ----

  function Quote(s: string): string {
    "\"" + s + "\""
  }

  function OptionArgs(c: PandocConfig): seq<string> {
    c.options.GetOr([])
  }

  function EngineArgs(format: string, c: PandocConfig): seq<string> {
    if format == "pdf" && Truthy(c.engine) then ["--pdf-engine=" + c.engine.value] else []
  }

  function ReferenceDocArgs(format: string, c: PandocConfig): seq<string> {
    if format == "docx" && Truthy(c.referenceDoc) then ["--reference-doc=" + Quote(c.referenceDoc.value)] else []
  }

  /** `--filter <name>` for each filter, in list order. */
  function FilterArgs(filters: seq<string>): (r: seq<string>)
    decreases |filters|
  {
    if filters == [] then []
    else FilterArgs(filters[..|filters| - 1]) + ["--filter", filters[|filters| - 1]]
  }

  function HtmlArgs(format: string, c: PandocConfig): seq<string> {
    if format == "html" then
      (if IsTrue(c.standalone) then ["-s"] else []) + (if IsTrue(c.selfContained) then ["--self-contained"] else [])
    else []
  }

  function CommonArgs(c: PandocConfig): seq<string> {
    (if IsTrue(c.toc) then ["--toc"] else []) + (if IsTrue(c.numberSections) then ["--number-sections"] else [])
  }

  function IoArgs(inputPath: string, outputPath: string): seq<string> {
    [Quote(inputPath), "-o", Quote(outputPath)]
  }

  /** The arguments of the pandoc command, in the order `buildPandocCommand` pushes them. */
  function CommandParts(inputPath: string, outputPath: string, format: string, c: PandocConfig): seq<string> {
    ["pandoc"] + OptionArgs(c) + EngineArgs(format, c) + ReferenceDocArgs(format, c)
      + FilterArgs(c.filters.GetOr([])) + ["--citeproc"] + HtmlArgs(format, c) + CommonArgs(c)
      + IoArgs(inputPath, outputPath)
  }

  /** `buildPandocCommand`: the parts are pushed one group at a time, the filters by a loop, then joined by spaces. */
  method BuildPandocCommand(inputPath: string, outputPath: string, format: string, config: PandocConfig) returns (command: string)
    ensures command == JsString.Join(CommandParts(inputPath, outputPath, format, config), " ")
  {
    var parts := HeadParts(format, config);
    parts := PushFilters(parts, config.filters.GetOr([]));
    parts := parts + ["--citeproc"];
    parts := PushHtml(parts, format, config);
    parts := PushCommon(parts, config);
    parts := parts + IoArgs(inputPath, outputPath);
    command := JsString.Join(parts, " ");
  }

  /** The command name, the user's options and the format-specific engine and reference document. */
  method HeadParts(format: string, config: PandocConfig) returns (parts: seq<string>)
    ensures parts == ["pandoc"] + OptionArgs(config) + EngineArgs(format, config) + ReferenceDocArgs(format, config)
  {
    parts := ["pandoc"];
    if config.options.Some? {
      parts := parts + config.options.value;
    }
    if format == "pdf" && Truthy(config.engine) {
      parts := parts + ["--pdf-engine=" + config.engine.value];
    }
    if format == "docx" && Truthy(config.referenceDoc) {
      parts := parts + ["--reference-doc=" + Quote(config.referenceDoc.value)];
    }
  }

  /** The filter loop: `--filter <name>` pushed for each filter in turn. */
  method PushFilters(head: seq<string>, filters: seq<string>) returns (parts: seq<string>)
    ensures parts == head + FilterArgs(filters)
  {
    parts := head;
    var i := 0;
    while i < |filters|
      invariant 0 <= i <= |filters|
      invariant parts == head + FilterArgs(filters[..i])
    {
      assert filters[..i + 1][..i] == filters[..i];
      parts := parts + ["--filter", filters[i]];
      i := i + 1;
    }
    assert filters[..i] == filters;
  }

  /** The HTML-only switches. */
  method PushHtml(head: seq<string>, format: string, config: PandocConfig) returns (parts: seq<string>)
    ensures parts == head + HtmlArgs(format, config)
  {
    parts := head;
    if format == "html" {
      if IsTrue(config.standalone) {
        parts := parts + ["-s"];
      }
      if IsTrue(config.selfContained) {
        parts := parts + ["--self-contained"];
      }
    }
  }

  /** The switches for every format. */
  method PushCommon(head: seq<string>, config: PandocConfig) returns (parts: seq<string>)
    ensures parts == head + CommonArgs(config)
  {
    parts := head;
    if IsTrue(config.toc) {
      parts := parts + ["--toc"];
    }
    if IsTrue(config.numberSections) {
      parts := parts + ["--number-sections"];
    }
  }

  /** Filter arguments alternate `--filter` and the filter names, in list order. */
  lemma {:induction false} FilterArgsShape(filters: seq<string>)
    ensures |FilterArgs(filters)| == 2 * |filters|
    ensures forall i :: 0 <= i < |filters| ==>
      FilterArgs(filters)[2 * i] == "--filter" && FilterArgs(filters)[2 * i + 1] == filters[i]
    decreases |filters|
  {
    if filters != [] {
      var init := filters[..|filters| - 1];
      FilterArgsShape(init);
      forall i | 0 <= i < |filters|
        ensures FilterArgs(filters)[2 * i] == "--filter" && FilterArgs(filters)[2 * i + 1] == filters[i]
      {
        if i < |init| {
          assert filters[i] == init[i];
        }
      }
    }
  }

  /**
   * The shape of every command: `pandoc`, then the options in their order,
   * and at the end the quoted input, `-o` and the quoted output; `--citeproc`
   * stands right after the last filter argument.
   */
  lemma CommandShape(inputPath: string, outputPath: string, format: string, c: PandocConfig)
    ensures var parts := CommandParts(inputPath, outputPath, format, c);
      var opts := OptionArgs(c);
      var k := 1 + |opts| + |EngineArgs(format, c)| + |ReferenceDocArgs(format, c)| + 2 * |c.filters.GetOr([])|;
      && |parts| >= k + 4
      && parts[0] == "pandoc"
      && parts[1..1 + |opts|] == opts
      && parts[k] == "--citeproc"
      && parts[|parts| - 3..] == [Quote(inputPath), "-o", Quote(outputPath)]
  {
    FilterArgsShape(c.filters.GetOr([]));
  }

  // ---- Counting ----

  /** How many elements of `s` satisfy `p`. */
  function CountIf(s: seq<string>, p: string -> bool): nat
    decreases |s|
  {
    if s == [] then 0 else (if p(s[0]) then 1 else 0) + CountIf(s[1..], p)
  }

  lemma {:induction false} CountIfAppend(a: seq<string>, b: seq<string>, p: string -> bool)
    ensures CountIf(a + b, p) == CountIf(a, p) + CountIf(b, p)
    decreases |a|
  {
    if a == [] {
      assert a + b == b;
    } else {
      assert (a + b)[0] == a[0];
      assert (a + b)[1..] == a[1..] + b;
      CountIfAppend(a[1..], b, p);
    }
  }

  lemma {:induction false} CountIfFilterArgs(filters: seq<string>, p: string -> bool)
    ensures CountIf(FilterArgs(filters), p) == CountIf(filters, p) + (if p("--filter") then |filters| else 0)
    decreases |filters|
  {
    if filters != [] {
      var init, last := filters[..|filters| - 1], filters[|filters| - 1];
      CountIfFilterArgs(init, p);
      CountIfAppend(FilterArgs(init), ["--filter", last], p);
      assert filters == init + [last];
      CountIfAppend(init, [last], p);
      assert CountIf(["--filter", last], p) == (if p("--filter") then 1 else 0) + CountIf([last], p) by {
        assert ["--filter", last][1..] == [last];
      }
    }
  }

  function B(b: bool): nat {
    if b then 1 else 0
  }

  lemma CountIfOne(x: string, p: string -> bool)
    ensures CountIf([x], p) == B(p(x))
  {
    assert [x][1..] == [];
  }

  lemma CountIfTwo(x: string, y: string, p: string -> bool)
    ensures CountIf([x, y], p) == B(p(x)) + B(p(y))
  {
    assert [x, y][1..] == [y];
    CountIfOne(y, p);
  }

  lemma CountIfOptionalPair(b1: bool, x: string, b2: bool, y: string, p: string -> bool)
    ensures CountIf((if b1 then [x] else []) + (if b2 then [y] else []), p) == B(b1 && p(x)) + B(b2 && p(y))
  {
    var s: seq<string> := if b1 then [x] else [];
    var t: seq<string> := if b2 then [y] else [];
    CountIfAppend(s, t, p);
    CountIfOne(x, p);
    CountIfOne(y, p);
  }

  lemma CountIfIo(inputPath: string, outputPath: string, p: string -> bool)
    ensures CountIf(IoArgs(inputPath, outputPath), p) == B(p(Quote(inputPath))) + B(p("-o")) + B(p(Quote(outputPath)))
  {
    var io := IoArgs(inputPath, outputPath);
    assert io[1..] == ["-o", Quote(outputPath)];
    CountIfTwo("-o", Quote(outputPath), p);
  }

  /** The count of any kind of argument, split over the groups of the command. */
  lemma CountParts(inputPath: string, outputPath: string, format: string, c: PandocConfig, p: string -> bool)
    ensures CountIf(CommandParts(inputPath, outputPath, format, c), p)
         == B(p("pandoc")) + CountIf(OptionArgs(c), p)
          + B(format == "pdf" && Truthy(c.engine) && p("--pdf-engine=" + c.engine.value))
          + B(format == "docx" && Truthy(c.referenceDoc) && p("--reference-doc=" + Quote(c.referenceDoc.value)))
          + CountIf(c.filters.GetOr([]), p) + (if p("--filter") then |c.filters.GetOr([])| else 0)
          + B(p("--citeproc"))
          + B(format == "html" && IsTrue(c.standalone) && p("-s"))
          + B(format == "html" && IsTrue(c.selfContained) && p("--self-contained"))
          + B(IsTrue(c.toc) && p("--toc")) + B(IsTrue(c.numberSections) && p("--number-sections"))
          + B(p(Quote(inputPath))) + B(p("-o")) + B(p(Quote(outputPath)))
  {
    CountSegments(inputPath, outputPath, format, c, p);
    CountIfFilterArgs(c.filters.GetOr([]), p);
    CountIfOne("pandoc", p);
    CountIfOne("--citeproc", p);
    CountFormatArgs(format, c, p);
    CountIfOptionalPair(IsTrue(c.toc), "--toc", IsTrue(c.numberSections), "--number-sections", p);
    CountIfIo(inputPath, outputPath, p);
  }

  /** The counts of the format-specific groups. */
  lemma CountFormatArgs(format: string, c: PandocConfig, p: string -> bool)
    ensures CountIf(EngineArgs(format, c), p) == B(format == "pdf" && Truthy(c.engine) && p("--pdf-engine=" + c.engine.value))
    ensures CountIf(ReferenceDocArgs(format, c), p)
         == B(format == "docx" && Truthy(c.referenceDoc) && p("--reference-doc=" + Quote(c.referenceDoc.value)))
    ensures CountIf(HtmlArgs(format, c), p)
         == B(format == "html" && IsTrue(c.standalone) && p("-s")) + B(format == "html" && IsTrue(c.selfContained) && p("--self-contained"))
  {
    if format == "pdf" && Truthy(c.engine) {
      CountIfOne("--pdf-engine=" + c.engine.value, p);
    }
    if format == "docx" && Truthy(c.referenceDoc) {
      CountIfOne("--reference-doc=" + Quote(c.referenceDoc.value), p);
    }
    if format == "html" {
      CountIfOptionalPair(IsTrue(c.standalone), "-s", IsTrue(c.selfContained), "--self-contained", p);
    }
  }

  lemma CountSegments(inputPath: string, outputPath: string, format: string, c: PandocConfig, p: string -> bool)
    ensures CountIf(CommandParts(inputPath, outputPath, format, c), p)
         == CountIf(["pandoc"], p) + CountIf(OptionArgs(c), p) + CountIf(EngineArgs(format, c), p)
          + CountIf(ReferenceDocArgs(format, c), p) + CountIf(FilterArgs(c.filters.GetOr([])), p)
          + CountIf(["--citeproc"], p) + CountIf(HtmlArgs(format, c), p) + CountIf(CommonArgs(c), p)
          + CountIf(IoArgs(inputPath, outputPath), p)
  {
    var a0: seq<string> := ["pandoc"];
    var a1 := OptionArgs(c);
    var a2 := EngineArgs(format, c);
    var a3 := ReferenceDocArgs(format, c);
    var a4 := FilterArgs(c.filters.GetOr([]));
    var a5: seq<string> := ["--citeproc"];
    var a6 := HtmlArgs(format, c);
    var a7 := CommonArgs(c);
    var a8 := IoArgs(inputPath, outputPath);
    CountIfAppend(a0, a1, p);
    CountIfAppend(a0 + a1, a2, p);
    CountIfAppend(a0 + a1 + a2, a3, p);
    CountIfAppend(a0 + a1 + a2 + a3, a4, p);
    CountIfAppend(a0 + a1 + a2 + a3 + a4, a5, p);
    CountIfAppend(a0 + a1 + a2 + a3 + a4 + a5, a6, p);
    CountIfAppend(a0 + a1 + a2 + a3 + a4 + a5 + a6, a7, p);
    CountIfAppend(a0 + a1 + a2 + a3 + a4 + a5 + a6 + a7, a8, p);
  }

  lemma QuotedIsNoFlag(s: string)
    ensures Quote(s)[0] == '"'
  {
  }

  predicate IsCiteproc(s: string) { s == "--citeproc" }

  /** `--citeproc` is added exactly once; any other occurrence comes from the user's own options or filters. */
  lemma CiteprocOnce(inputPath: string, outputPath: string, format: string, c: PandocConfig)
    ensures CountIf(CommandParts(inputPath, outputPath, format, c), IsCiteproc)
         == 1 + CountIf(OptionArgs(c), IsCiteproc) + CountIf(c.filters.GetOr([]), IsCiteproc)
  {
    CountParts(inputPath, outputPath, format, c, IsCiteproc);
    QuotedIsNoFlag(inputPath);
    QuotedIsNoFlag(outputPath);
    if format == "pdf" && Truthy(c.engine) {
      assert |"--pdf-engine=" + c.engine.value| > 10;
    }
    if format == "docx" && Truthy(c.referenceDoc) {
      assert |"--reference-doc=" + Quote(c.referenceDoc.value)| > 10;
    }
  }

  predicate IsStandalone(s: string) { s == "-s" }

  /** The command adds `-s` only for html with `standalone` set; elsewhere `-s` comes from the options. */
  lemma StandaloneOnlyForHtml(inputPath: string, outputPath: string, format: string, c: PandocConfig)
    ensures CountIf(CommandParts(inputPath, outputPath, format, c), IsStandalone)
         == CountIf(OptionArgs(c), IsStandalone) + CountIf(c.filters.GetOr([]), IsStandalone)
          + B(format == "html" && IsTrue(c.standalone))
  {
    CountParts(inputPath, outputPath, format, c, IsStandalone);
    QuotedIsNoFlag(inputPath);
    QuotedIsNoFlag(outputPath);
    if format == "pdf" && Truthy(c.engine) {
      assert |"--pdf-engine=" + c.engine.value| > 2;
    }
    if format == "docx" && Truthy(c.referenceDoc) {
      assert |"--reference-doc=" + Quote(c.referenceDoc.value)| > 2;
    }
  }

  /**
   * The count of a kind of argument that none of the fixed words, `-s`,
   * `--toc`, `--number-sections` and the quoted paths belong to: only the
   * user's options and filters and the three format-dependent arguments can
   * add to it.
   */
  lemma CountOwnArgs(inputPath: string, outputPath: string, format: string, c: PandocConfig, p: string -> bool)
    requires !p("pandoc") && !p("--filter") && !p("--citeproc") && !p("-s") && !p("--toc") && !p("-o")
    requires !p("--number-sections") && !p(Quote(inputPath)) && !p(Quote(outputPath))
    ensures CountIf(CommandParts(inputPath, outputPath, format, c), p)
         == CountIf(OptionArgs(c), p) + CountIf(c.filters.GetOr([]), p)
          + B(format == "pdf" && Truthy(c.engine) && p("--pdf-engine=" + c.engine.value))
          + B(format == "docx" && Truthy(c.referenceDoc) && p("--reference-doc=" + Quote(c.referenceDoc.value)))
          + B(format == "html" && IsTrue(c.selfContained) && p("--self-contained"))
  {
    CountParts(inputPath, outputPath, format, c, p);
  }

  predicate IsSelfContained(s: string) { s == "--self-contained" }

  /** `--self-contained` is added only for html with `self-contained` set. */
  lemma SelfContainedOnlyForHtml(inputPath: string, outputPath: string, format: string, c: PandocConfig)
    ensures CountIf(CommandParts(inputPath, outputPath, format, c), IsSelfContained)
         == CountIf(OptionArgs(c), IsSelfContained) + CountIf(c.filters.GetOr([]), IsSelfContained)
          + B(format == "html" && IsTrue(c.selfContained))
  {
    assert !IsSelfContained(Quote(inputPath)) && !IsSelfContained(Quote(outputPath)) by {
      QuotedIsNoFlag(inputPath);
      QuotedIsNoFlag(outputPath);
    }
    assert !IsSelfContained("--number-sections") by {
      assert "--number-sections"[2] != "--self-contained"[2];
    }
    CountOwnArgs(inputPath, outputPath, format, c, IsSelfContained);
    if format == "pdf" && Truthy(c.engine) {
      assert ("--pdf-engine=" + c.engine.value)[2] == 'p';
    }
    if format == "docx" && Truthy(c.referenceDoc) {
      assert ("--reference-doc=" + Quote(c.referenceDoc.value))[2] == 'r';
    }
  }

  /** A string that differs from `pre` at some index below both lengths does not start with `pre`. */
  lemma DiffersAt(s: string, pre: string, i: nat)
    requires i < |pre| && i < |s| && s[i] != pre[i]
    ensures !JsString.StartsWith(s, pre)
  {
    if |pre| <= |s| {
      assert s[..|pre|][i] == s[i];
    }
  }

  /** A flag followed by its value starts with the flag. */
  lemma FlagPrefix(flag: string, v: string)
    ensures JsString.StartsWith(flag + v, flag)
  {
    assert (flag + v)[..|flag|] == flag;
  }

  /** None of the fixed arguments starts with `pre`, a flag of the form `--x…=`. */
  lemma FixedArgsArePlain(inputPath: string, outputPath: string, pre: string)
    requires |pre| > 12 && pre[0] == '-' && pre[1] == '-' && pre[2] != 's' && pre[2] != 'n' && pre[2] != 't'
    requires pre[2] != 'f' && pre[2] != 'c'
    ensures && !JsString.StartsWith("pandoc", pre) && !JsString.StartsWith("--filter", pre)
            && !JsString.StartsWith("--citeproc", pre) && !JsString.StartsWith("-s", pre)
            && !JsString.StartsWith("--toc", pre) && !JsString.StartsWith("-o", pre)
            && !JsString.StartsWith("--number-sections", pre) && !JsString.StartsWith("--self-contained", pre)
            && !JsString.StartsWith(Quote(inputPath), pre) && !JsString.StartsWith(Quote(outputPath), pre)
  {
    DiffersAt("--number-sections", pre, 2);
    DiffersAt("--self-contained", pre, 2);
    QuotedIsNoFlag(inputPath);
    QuotedIsNoFlag(outputPath);
    if |Quote(inputPath)| >= |pre| {
      DiffersAt(Quote(inputPath), pre, 0);
    }
    if |Quote(outputPath)| >= |pre| {
      DiffersAt(Quote(outputPath), pre, 0);
    }
  }

  predicate IsPdfEngine(s: string) { JsString.StartsWith(s, "--pdf-engine=") }

  /** A `--pdf-engine=` argument is added only for pdf with a non-empty engine. */
  lemma PdfEngineOnlyForPdf(inputPath: string, outputPath: string, format: string, c: PandocConfig)
    ensures CountIf(CommandParts(inputPath, outputPath, format, c), IsPdfEngine)
         == CountIf(OptionArgs(c), IsPdfEngine) + CountIf(c.filters.GetOr([]), IsPdfEngine)
          + B(format == "pdf" && Truthy(c.engine))
  {
    FixedArgsArePlain(inputPath, outputPath, "--pdf-engine=");
    CountOwnArgs(inputPath, outputPath, format, c, IsPdfEngine);
    PdfEngineArgs(format, c);
  }

  /** Of the format-dependent arguments, exactly the engine argument is a `--pdf-engine=` one. */
  lemma PdfEngineArgs(format: string, c: PandocConfig)
    ensures B(format == "pdf" && Truthy(c.engine) && IsPdfEngine("--pdf-engine=" + c.engine.value))
         == B(format == "pdf" && Truthy(c.engine))
    ensures B(format == "docx" && Truthy(c.referenceDoc) && IsPdfEngine("--reference-doc=" + Quote(c.referenceDoc.value))) == 0
  {
    if format == "pdf" && Truthy(c.engine) {
      FlagPrefix("--pdf-engine=", c.engine.value);
    }
    if format == "docx" && Truthy(c.referenceDoc) {
      var arg := "--reference-doc=" + Quote(c.referenceDoc.value);
      assert arg[2] == 'r';
      DiffersAt(arg, "--pdf-engine=", 2);
    }
  }

  predicate IsReferenceDoc(s: string) { JsString.StartsWith(s, "--reference-doc=") }

  /** A `--reference-doc=` argument is added only for docx with a non-empty reference document. */
  lemma ReferenceDocOnlyForDocx(inputPath: string, outputPath: string, format: string, c: PandocConfig)
    ensures CountIf(CommandParts(inputPath, outputPath, format, c), IsReferenceDoc)
         == CountIf(OptionArgs(c), IsReferenceDoc) + CountIf(c.filters.GetOr([]), IsReferenceDoc)
          + B(format == "docx" && Truthy(c.referenceDoc))
  {
    FixedArgsArePlain(inputPath, outputPath, "--reference-doc=");
    CountOwnArgs(inputPath, outputPath, format, c, IsReferenceDoc);
    ReferenceDocArgsCount(format, c);
  }

  /** Of the format-dependent arguments, exactly the reference-document argument is a `--reference-doc=` one. */
  lemma ReferenceDocArgsCount(format: string, c: PandocConfig)
    ensures B(format == "docx" && Truthy(c.referenceDoc) && IsReferenceDoc("--reference-doc=" + Quote(c.referenceDoc.value)))
         == B(format == "docx" && Truthy(c.referenceDoc))
    ensures B(format == "pdf" && Truthy(c.engine) && IsReferenceDoc("--pdf-engine=" + c.engine.value)) == 0
  {
    if format == "docx" && Truthy(c.referenceDoc) {
      FlagPrefix("--reference-doc=", Quote(c.referenceDoc.value));
    }
    if format == "pdf" && Truthy(c.engine) {
      var arg := "--pdf-engine=" + c.engine.value;
      assert arg[2] == 'p';
      DiffersAt(arg, "--reference-doc=", 2);
    }
  }

  /** The default pdf command, argument by argument. */
  lemma DefaultPdfCommand(inputPath: string, outputPath: string, src: string, cwd: string)
    ensures CommandParts(inputPath, outputPath, "pdf", BuildPandocConfig("pdf", None, src, cwd))
         == ["pandoc", "-r", MarkdownReader, "-s", "--pdf-engine=xelatex", "--filter", "pandoc-xnos",
             "--citeproc", Quote(inputPath), "-o", Quote(outputPath)]
  {
    MissingUserSectionGivesDefaults("pdf", src, cwd);
    var c := Defaults("pdf");
    var filters := ["pandoc-xnos"];
    assert FilterArgs(filters) == ["--filter", "pandoc-xnos"] by {
      assert filters[..0] == [];
    }
    assert Truthy(c.engine) && c.engine.value == "xelatex";
    assert "--pdf-engine=" + "xelatex" == "--pdf-engine=xelatex";
    assert EngineArgs("pdf", c) == ["--pdf-engine=xelatex"];
    assert ReferenceDocArgs("pdf", c) == [];
    assert HtmlArgs("pdf", c) == [];
    assert CommonArgs(c) == [];
  }

  /** The default html command: standalone through `-s` after `--citeproc`, and no filters. */
  lemma DefaultHtmlCommand(inputPath: string, outputPath: string, src: string, cwd: string)
    ensures CommandParts(inputPath, outputPath, "html", BuildPandocConfig("html", None, src, cwd))
         == ["pandoc", "-r", MarkdownReader, "--citeproc", "-s", Quote(inputPath), "-o", Quote(outputPath)]
  {
    MissingUserSectionGivesDefaults("html", src, cwd);
  }
}
