/**
 * The bibliography entry store behind citation completion: one slot of
 * suggestions per bibliography file, filled from a BibTeX or a BibJSON file,
 * flattened for completion, searched by key, checked for duplicate keys, and
 * emptied when a file is forgotten.
 *
 * The BibTeX parser (latex-utensils) and `JSON.parse` are parameters whose
 * results are given as datatypes; `None` stands for a parser that throws.
 * File contents come from a map, and a path that is not in it makes the read
 * throw.
 */
module Citation {
  import opened Wrappers
  import opened JsString
  import Paths
  import Lists

  datatype Position = Position(line: int, character: int)

  /** `Suggestion`: the completion item kept for one bibliography entry. */
  datatype Suggestion = Suggestion(
    key: string,
    labelText: string,
    file: string,
    position: Position,
    documentation: string,
    fields: map<string, string>)

  /** The value of a BibTeX field: a single string, or an array of parts (`Array.isArray`). */
  datatype FieldValue = Text(text: string) | Parts(parts: seq<string>)

  datatype BibField = BibField(name: string, value: FieldValue)

  /**
   * A node of the BibTeX syntax tree: an entry (with its optional citation
   * key, its 1-based start line and column, and its fields in order), or
   * anything else (preamble, string definition, comment), which
   * `bibtexParser.isEntry` filters out.
   */
  datatype BibNode =
    | Entry(internalKey: Option<string>, line: int, column: int, content: seq<BibField>)
    | Other

  /**
   * One element of a BibJSON array: its `id`, the name lists `author` and
   * `editor` (each element given by its property values in order), the
   * values of `issued`, and the remaining string-valued properties.
   */
  datatype JsonEntry = JsonEntry(
    id: string,
    author: Option<seq<seq<string>>>,
    editor: Option<seq<seq<string>>>,
    issued: Option<seq<string>>,
    props: map<string, string>)

  /**
   * Everything outside the store that parsing consults: the readable files,
   * the two parsers, and the `nous.CitationFormat` setting.
   */
  datatype Env = Env(
    files: map<string, string>,
    parseBibtex: string -> Option<seq<BibNode>>,
    parseJson: string -> Option<seq<JsonEntry>>,
    citationFormat: seq<string>)

  /** The allow-list: the configured field names, lower-cased. */
  function AllowList(env: Env): (r: seq<string>)
    ensures |r| == |env.citationFormat|
    ensures forall i :: 0 <= i < |r| ==> r[i] == Lower(env.citationFormat[i])
  {
    LowerAll(env.citationFormat)
  }

  function LowerAll(names: seq<string>): (r: seq<string>)
    ensures |r| == |names|
    ensures forall i :: 0 <= i < |r| ==> r[i] == Lower(names[i])
  {
    if names == [] then [] else [Lower(names[0])] + LowerAll(names[1..])
  }

  // ---- deParenthesis ----

  /** The index one past the run of `c` starting at `i` (`{+` or `}+` in the pattern below). */
  function RunEnd(s: string, i: nat, c: char): (r: nat)
    requires i <= |s|
    decreases |s| - i
    ensures i <= r <= |s| && (r == |s| || s[r] != c)
    ensures forall k :: i <= k < r ==> s[k] == c
  {
    if i < |s| && s[i] == c then RunEnd(s, i + 1, c) else i
  }

  predicate IsBraceContent(c: char) {
    c != '\\' && c != '{' && c != '}'
  }

  /** The index one past the run of characters other than `\`, `{` and `}` starting at `i`. */
  function ContentEnd(s: string, i: nat): (r: nat)
    requires i <= |s|
    decreases |s| - i
    ensures i <= r <= |s| && (r == |s| || !IsBraceContent(s[r]))
    ensures forall k :: i <= k < r ==> IsBraceContent(s[k])
  {
    if i < |s| && IsBraceContent(s[i]) then ContentEnd(s, i + 1) else i
  }

  /**
   * `deParenthesis`: `str.replace(/{+([^\\{}]+)}+/g, "$1")`. At a `{` the
   * match takes the whole run of `{`, then the longest non-empty run of
   * content, and needs a `}` right after it; it then swallows the whole run
   * of `}` and leaves the content. Anywhere else the character is kept.
   */
  function DeParenthesis(s: string): (r: string)
    decreases |s|
    ensures |r| <= |s|
  {
    if s == [] then []
    else if s[0] == '{' then
      var j := RunEnd(s, 0, '{');
      var k := ContentEnd(s, j);
      if j < k && k < |s| && s[k] == '}' then s[j..k] + DeParenthesis(s[RunEnd(s, k, '}')..])
      else [s[0]] + DeParenthesis(s[1..])
    else [s[0]] + DeParenthesis(s[1..])
  }

  /** `{{A Study}}` becomes `A Study`. */
  lemma DeParenthesisExample()
    ensures DeParenthesis("{{A Study}}") == "A Study"
  {
    var s := "{{A Study}}";
    assert RunEnd(s, 0, '{') == 2 by {
      assert RunEnd(s, 1, '{') == 2;
    }
    assert ContentEnd(s, 2) == 9 by {
      assert ContentEnd(s, 9) == 9;
      assert ContentEnd(s, 8) == 9;
      assert ContentEnd(s, 7) == 9;
      assert ContentEnd(s, 6) == 9;
      assert ContentEnd(s, 5) == 9;
      assert ContentEnd(s, 4) == 9;
      assert ContentEnd(s, 3) == 9;
    }
    assert RunEnd(s, 9, '}') == 11 by {
      assert RunEnd(s, 10, '}') == 11;
    }
    assert s[11..] == [];
  }

  /** A string without `{` comes back unchanged. */
  lemma {:induction false} DeParenthesisWithoutBraces(s: string)
    requires '{' !in s
    ensures DeParenthesis(s) == s
    decreases |s|
  {
    if s != [] {
      assert '{' !in s[1..] by {
        forall k | 0 <= k < |s[1..]|
          ensures s[1..][k] != '{'
        {
          assert s[1..][k] == s[k + 1];
        }
      }
      DeParenthesisWithoutBraces(s[1..]);
    }
  }

  // ---- BibTeX entries ----

  /** `name.charAt(0).toUpperCase() + name.slice(1)`. */
  function Capitalise(name: string): (r: string)
    ensures |r| == |name|
  {
    if name == [] then [] else [UpperChar(name[0])] + name[1..]
  }

  /** The index of the first field of `content` named exactly `name`, or -1. */
  function FirstNamedIndex(content: seq<BibField>, name: string): (r: int)
    ensures -1 <= r < |content|
    ensures r >= 0 ==> content[r].name == name
    ensures forall j :: 0 <= j < |content| && (r == -1 || j < r) ==> content[j].name != name
  {
    if content == [] then -1
    else if content[0].name == name then 0
    else
      var k := FirstNamedIndex(content[1..], name);
      if k == -1 then -1 else k + 1
  }

  /** The first field of `content` named exactly `name` (`filter(...)[0]`). */
  function FirstNamed(content: seq<BibField>, name: string): (r: Option<BibField>)
    ensures r.Some? ==> r.value.name == name
  {
    var k := FirstNamedIndex(content, name);
    if k == -1 then None else Some(content[k])
  }

  /** The text stored for a field: array parts joined by spaces, a single string with its braces removed. */
  function FieldText(v: FieldValue): string {
    match v
    case Parts(ps) => Join(ps, " ")
    case Text(t) => DeParenthesis(t)
  }

  /** The documentation line of one allow-listed field, empty when the entry lacks it. */
  function BibtexLine(content: seq<BibField>, name: string): string {
    match FirstNamed(content, name)
    case None => ""
    case Some(f) => Capitalise(f.name) + ": " + FieldText(f.value) + "\n"
  }

  /** The documentation accumulated over the allow-list, in allow-list order. */
  function BibtexDoc(allow: seq<string>, content: seq<BibField>): string
    decreases |allow|
  {
    if allow == [] then ""
    else BibtexDoc(allow[..|allow| - 1], content) + BibtexLine(content, allow[|allow| - 1])
  }

  /** The `fields` object accumulated over the allow-list. */
  function BibtexFields(allow: seq<string>, content: seq<BibField>): map<string, string>
    decreases |allow|
  {
    if allow == [] then map[]
    else
      var m := BibtexFields(allow[..|allow| - 1], content);
      var name := allow[|allow| - 1];
      match FirstNamed(content, name)
      case None => m
      case Some(f) => m[f.name := FieldText(f.value)]
  }

  /** Only allow-listed names present in the entry become fields, each with the text of its first occurrence. */
  lemma {:induction false} BibtexFieldsMeaning(allow: seq<string>, content: seq<BibField>)
    ensures forall name :: name in BibtexFields(allow, content) <==> name in allow && FirstNamed(content, name).Some?
    ensures forall name :: name in BibtexFields(allow, content) ==>
      BibtexFields(allow, content)[name] == FieldText(FirstNamed(content, name).value.value)
    decreases |allow|
  {
    if allow != [] {
      var init := allow[..|allow| - 1];
      BibtexFieldsMeaning(init, content);
      assert allow == init + [allow[|allow| - 1]];
    }
  }

  /** The suggestion built for a BibTeX entry that has a key. */
  function BibtexItem(file: string, e: BibNode, allow: seq<string>): (r: Suggestion)
    requires e.Entry? && e.internalKey.Some?
  {
    Suggestion(e.internalKey.value, e.internalKey.value, file, Position(e.line - 1, e.column - 1),
               BibtexDoc(allow, e.content), BibtexFields(allow, e.content))
  }

  /** The slot a BibTeX file fills: one suggestion per entry with a key, in file order. */
  function BibtexItems(file: string, nodes: seq<BibNode>, allow: seq<string>): seq<Suggestion>
    decreases |nodes|
  {
    if nodes == [] then []
    else
      var last := nodes[|nodes| - 1];
      BibtexItems(file, nodes[..|nodes| - 1], allow)
        + (if last.Entry? && last.internalKey.Some? then [BibtexItem(file, last, allow)] else [])
  }

  predicate Keyed(n: BibNode) {
    n.Entry? && n.internalKey.Some?
  }

  /** The entries with a key, in file order. */
  function KeyedNodes(nodes: seq<BibNode>): (r: seq<BibNode>)
    ensures |r| <= |nodes|
    ensures forall i :: 0 <= i < |r| ==> Keyed(r[i]) && r[i] in nodes
    decreases |nodes|
  {
    if nodes == [] then []
    else
      var init := KeyedNodes(nodes[..|nodes| - 1]);
      var last := nodes[|nodes| - 1];
      var r := init + (if Keyed(last) then [last] else []);
      assert forall i :: 0 <= i < |init| ==> r[i] == init[i];
      r
  }

  /** A node is kept exactly when it is an entry with a key. */
  lemma {:induction false} KeyedNodesMeaning(nodes: seq<BibNode>)
    ensures forall n :: n in KeyedNodes(nodes) <==> n in nodes && Keyed(n)
    decreases |nodes|
  {
    if nodes != [] {
      var init := nodes[..|nodes| - 1];
      KeyedNodesMeaning(init);
      assert nodes == init + [nodes[|nodes| - 1]];
    }
  }

  /**
   * Entries without a key are skipped and every other entry gives exactly
   * one suggestion, in file order: the `i`-th suggestion is the one built
   * for the `i`-th entry with a key, so it carries that key, sits at that
   * entry's 0-based position, and belongs to the file.
   */
  lemma {:induction false} BibtexItemsMeaning(file: string, nodes: seq<BibNode>, allow: seq<string>)
    ensures |BibtexItems(file, nodes, allow)| == |KeyedNodes(nodes)|
    ensures forall i :: 0 <= i < |KeyedNodes(nodes)| ==>
      BibtexItems(file, nodes, allow)[i] == BibtexItem(file, KeyedNodes(nodes)[i], allow)
    ensures forall i :: 0 <= i < |BibtexItems(file, nodes, allow)| ==>
      var item := BibtexItems(file, nodes, allow)[i];
      && item.key == item.labelText && item.file == file
      && item.position == Position(KeyedNodes(nodes)[i].line - 1, KeyedNodes(nodes)[i].column - 1)
    decreases |nodes|
  {
    if nodes != [] {
      var init := nodes[..|nodes| - 1];
      BibtexItemsMeaning(file, init, allow);
      var items := BibtexItems(file, nodes, allow);
      var prev := BibtexItems(file, init, allow);
      var keyed := KeyedNodes(nodes);
      assert forall i :: 0 <= i < |prev| ==> items[i] == prev[i] && keyed[i] == KeyedNodes(init)[i];
    }
  }

  /** One more allow-listed name extends the documentation by its line and the fields by its first occurrence. */
  lemma BibtexSnoc(allow: seq<string>, i: nat, content: seq<BibField>)
    requires i < |allow|
    ensures BibtexDoc(allow[..i + 1], content) == BibtexDoc(allow[..i], content) + BibtexLine(content, allow[i])
    ensures var f := FirstNamed(content, allow[i]);
      BibtexFields(allow[..i + 1], content)
      == if f.Some? then BibtexFields(allow[..i], content)[f.value.name := FieldText(f.value.value)]
         else BibtexFields(allow[..i], content)
  {
    assert allow[..i + 1][..i] == allow[..i];
  }

  /** `parseBibtexFile`'s inner loop: one documentation line and one field per allow-listed name present. */
  method ConvertBibtexEntry(file: string, e: BibNode, allow: seq<string>) returns (item: Suggestion)
    requires e.Entry? && e.internalKey.Some?
    ensures item == BibtexItem(file, e, allow)
  {
    var documentation := "";
    var fields: map<string, string> := map[];
    for i := 0 to |allow|
      invariant documentation == BibtexDoc(allow[..i], e.content)
      invariant fields == BibtexFields(allow[..i], e.content)
    {
      BibtexSnoc(allow, i, e.content);
      var first := FirstNamed(e.content, allow[i]);
      if first.Some? {
        var value := FieldText(first.value.value);
        fields := fields[first.value.name := value];
        documentation := documentation + (Capitalise(first.value.name) + ": " + value + "\n");
      }
    }
    assert allow[..|allow|] == allow;
    item := Suggestion(e.internalKey.value, e.internalKey.value, file, Position(e.line - 1, e.column - 1),
                       documentation, fields);
  }

  // ---- BibJSON entries ----

  /** One step of the name fold: `" and "` only after a non-empty name so far. */
  function NameStep(acc: Option<string>, element: seq<string>): string {
    (if acc.Some? && acc.value != "" then acc.value + " and " else "") + Join(element, ", ")
  }

  /** The `author` (or `editor`) field after the fold over the name list; None when the list is empty. */
  function NameFold(elements: seq<seq<string>>): (r: Option<string>)
    decreases |elements|
    ensures r.None? <==> elements == []
  {
    if elements == [] then None
    else Some(NameStep(NameFold(elements[..|elements| - 1]), elements[|elements| - 1]))
  }

  /** The names as they are joined: each element's values by `", "`, the elements by `" and "`. */
  function JoinedNames(elements: seq<seq<string>>): seq<string>
    decreases |elements|
  {
    if elements == [] then []
    else JoinedNames(elements[..|elements| - 1]) + [Join(elements[|elements| - 1], ", ")]
  }

  lemma {:induction false} JoinSnoc(parts: seq<string>, x: string, sep: string)
    requires |parts| > 0
    ensures Join(parts + [x], sep) == Join(parts, sep) + sep + x
    decreases |parts|
  {
    if |parts| == 1 {
      assert (parts + [x])[1..] == [x];
    } else {
      JoinSnoc(parts[1..], x, sep);
      assert (parts + [x])[1..] == parts[1..] + [x];
    }
  }

  /**
   * When every name is non-empty, the fold is the names joined by `" and "`,
   * each name being its values joined by `", "`.
   */
  lemma {:induction false} NameFoldJoins(elements: seq<seq<string>>)
    requires elements != []
    requires forall i :: 0 <= i < |elements| ==> Join(elements[i], ", ") != ""
    ensures NameFold(elements) == Some(Join(JoinedNames(elements), " and "))
    decreases |elements|
  {
    var init := elements[..|elements| - 1];
    if init == [] {
      assert NameFold(init) == None;
      assert NameStep(None, elements[0]) == Join(elements[0], ", ");
      assert JoinedNames(init) == [];
      assert JoinedNames(elements) == [Join(elements[0], ", ")];
    } else {
      NameFoldJoins(init);
      var names := JoinedNames(init);
      assert |names| > 0 by {
        JoinedNamesLength(init);
      }
      JoinedNamesNonEmpty(init);
      JoinSnoc(names, Join(elements[|elements| - 1], ", "), " and ");
    }
  }

  lemma {:induction false} JoinedNamesLength(elements: seq<seq<string>>)
    ensures |JoinedNames(elements)| == |elements|
    decreases |elements|
  {
    if elements != [] {
      JoinedNamesLength(elements[..|elements| - 1]);
    }
  }

  /** A join of non-empty names is non-empty. */
  lemma JoinedNamesNonEmpty(elements: seq<seq<string>>)
    requires elements != []
    requires forall i :: 0 <= i < |elements| ==> Join(elements[i], ", ") != ""
    ensures Join(JoinedNames(elements), " and ") != ""
  {
    JoinedNamesLength(elements);
    var names := JoinedNames(elements);
    JoinedNamesAt(elements, 0);
    if |names| > 1 {
      assert |Join(names, " and ")| >= |names[0]|;
    }
  }

  lemma {:induction false} JoinedNamesAt(elements: seq<seq<string>>, i: nat)
    requires i < |elements|
    ensures |JoinedNames(elements)| == |elements|
    ensures JoinedNames(elements)[i] == Join(elements[i], ", ")
    decreases |elements|
  {
    JoinedNamesLength(elements);
    if i < |elements| - 1 {
      JoinedNamesAt(elements[..|elements| - 1], i);
    }
  }

  /** The value a BibJSON entry offers for an allow-listed name (`entry[field]` when it is a string). */
  function Prop(e: JsonEntry, name: string): Option<string> {
    if name == "id" then Some(e.id)
    else if name == "author" || name == "editor" || name == "issued" then None
    else if name in e.props then Some(e.props[name])
    else None
  }

  /** JavaScript truthiness of an optional string. */
  predicate Truthy(s: Option<string>) {
    s.Some? && s.value != ""
  }

  function Get(m: map<string, string>, k: string): Option<string> {
    if k in m then Some(m[k]) else None
  }

  /** The name line: `author` if the entry has an author list, `editor` otherwise if it has an editor list. */
  function NameLine(e: JsonEntry): string {
    if e.author.Some? then "author: " + NameFold(e.author.value).GetOr("undefined") + "\n"
    else if e.editor.Some? then "editor: " + NameFold(e.editor.value).GetOr("undefined") + "\n"
    else ""
  }

  /** The fields set by the name fold. */
  function NameFields(e: JsonEntry): (r: map<string, string>)
    ensures e.author.Some? ==> "editor" !in r
    ensures r.Keys <= {"author", "editor"}
  {
    if e.author.Some? then (if e.author.value == [] then map[] else map["author" := NameFold(e.author.value).value])
    else if e.editor.Some? then (if e.editor.value == [] then map[] else map["editor" := NameFold(e.editor.value).value])
    else map[]
  }

  function DateLine(e: JsonEntry): string {
    if e.issued.Some? then "date: " + Join(e.issued.value, ",") + "\n" else ""
  }

  /** The link line: the DOI resolver when there is a DOI, else the URL, else nothing. */
  function LinkLine(e: JsonEntry): (r: string)
    ensures Truthy(Get(e.props, "DOI")) ==> r == "link: https://doi.org/" + e.props["DOI"] + "\n"
    ensures !Truthy(Get(e.props, "DOI")) && Truthy(Get(e.props, "URL")) ==> r == "link: " + e.props["URL"] + "\n"
    ensures !Truthy(Get(e.props, "DOI")) && !Truthy(Get(e.props, "URL")) ==> r == ""
  {
    if Truthy(Get(e.props, "DOI")) then "link: https://doi.org/" + e.props["DOI"] + "\n"
    else if Truthy(Get(e.props, "URL")) then "link: " + e.props["URL"] + "\n"
    else ""
  }

  datatype Acc = Acc(fields: map<string, string>, documentation: string)

  /** The allow-list loop of `parseBibjsonFile`: a truthy property is copied unless the field is already truthy. */
  function JsonFieldsFold(allow: seq<string>, e: JsonEntry, start: Acc): Acc
    decreases |allow|
  {
    if allow == [] then start
    else
      var a := JsonFieldsFold(allow[..|allow| - 1], e, start);
      var field := allow[|allow| - 1];
      if Truthy(Prop(e, field)) && !Truthy(Get(a.fields, field)) then
        Acc(a.fields[field := Prop(e, field).value], a.documentation + field + ": " + Prop(e, field).value + "\n")
      else a
  }

  /**
   * The fold never overwrites a truthy field, every field it adds is an
   * allow-listed name carrying the entry's own value, and every allow-listed
   * name whose property is truthy and whose field is not is copied.
   */
  lemma {:induction false} JsonFieldsFoldMeaning(allow: seq<string>, e: JsonEntry, start: Acc)
    ensures var r := JsonFieldsFold(allow, e, start);
      && start.fields.Keys <= r.fields.Keys
      && (forall k :: k in start.fields && start.fields[k] != "" ==> r.fields[k] == start.fields[k])
      && (forall k :: k in r.fields && (k !in start.fields || r.fields[k] != start.fields[k]) ==>
            k in allow && Prop(e, k) == Some(r.fields[k]))
      && (forall k :: k in allow && Truthy(Prop(e, k)) && !Truthy(Get(start.fields, k)) ==>
            k in r.fields && r.fields[k] == Prop(e, k).value)
    decreases |allow|
  {
    if allow != [] {
      var init := allow[..|allow| - 1];
      JsonFieldsFoldMeaning(init, e, start);
      assert allow == init + [allow[|allow| - 1]];
    }
  }

  /**
   * The names the allow-list loop copies, in allow-list order: each name at
   * its first occurrence in the list, when the entry's property is truthy and
   * the starting field is not.
   */
  function CopiedNames(allow: seq<string>, e: JsonEntry, fields: map<string, string>): (r: seq<string>)
    decreases |allow|
  {
    if allow == [] then []
    else
      var init := allow[..|allow| - 1];
      var f := allow[|allow| - 1];
      CopiedNames(init, e, fields)
        + (if Truthy(Prop(e, f)) && !Truthy(Get(fields, f)) && f !in init then [f] else [])
  }

  /** One `name: value` documentation line per name, in order. */
  function FieldLines(e: JsonEntry, names: seq<string>): string
    decreases |names|
  {
    if names == [] then ""
    else
      var f := names[|names| - 1];
      FieldLines(e, names[..|names| - 1]) + f + ": " + Prop(e, f).GetOr("") + "\n"
  }

  /** The documentation gains one `field: value` line for each copied name, in allow-list order. */
  lemma {:induction false} JsonFieldsFoldDocumentation(allow: seq<string>, e: JsonEntry, start: Acc)
    ensures JsonFieldsFold(allow, e, start).documentation
      == start.documentation + FieldLines(e, CopiedNames(allow, e, start.fields))
    decreases |allow|
  {
    if allow != [] {
      var init := allow[..|allow| - 1];
      var f := allow[|allow| - 1];
      var a := JsonFieldsFold(init, e, start);
      var names := CopiedNames(init, e, start.fields);
      JsonFieldsFoldDocumentation(init, e, start);
      if Truthy(Prop(e, f)) {
        JsonFieldsFoldTruthy(init, e, start, f);
      }
      if Truthy(Prop(e, f)) && !Truthy(Get(start.fields, f)) && f !in init {
        var v := Prop(e, f).value;
        assert CopiedNames(allow, e, start.fields) == names + [f];
        assert (names + [f])[..|names|] == names;
        assert FieldLines(e, names + [f]) == FieldLines(e, names) + f + ": " + v + "\n";
        assert JsonFieldsFold(allow, e, start).documentation == a.documentation + f + ": " + v + "\n";
        LineAppend(start.documentation, FieldLines(e, names), f, v);
      } else {
        assert names + [] == names;
      }
    }
  }

  /** Appending a `name: value` line after two pieces of documentation is appending it to the second. */
  lemma LineAppend(x: string, y: string, f: string, v: string)
    ensures (x + y) + f + ": " + v + "\n" == x + (y + f + ": " + v + "\n")
  {
    assert (x + y) + f == x + (y + f);
    assert x + (y + f) + ": " == x + (y + f + ": ");
    assert x + (y + f + ": ") + v == x + (y + f + ": " + v);
  }

  /** For a truthy property, the fold leaves the field truthy exactly when it started truthy or the name is allow-listed. */
  lemma {:induction false} JsonFieldsFoldTruthy(allow: seq<string>, e: JsonEntry, start: Acc, f: string)
    requires Truthy(Prop(e, f))
    ensures Truthy(Get(JsonFieldsFold(allow, e, start).fields, f)) <==> Truthy(Get(start.fields, f)) || f in allow
    decreases |allow|
  {
    if allow != [] {
      var init := allow[..|allow| - 1];
      JsonFieldsFoldTruthy(init, e, start, f);
      assert allow == init + [allow[|allow| - 1]];
    }
  }

  /** The suggestion built for a BibJSON entry. */
  function JsonItem(file: string, e: JsonEntry, allow: seq<string>): Suggestion {
    var start := Acc(NameFields(e), NameLine(e) + DateLine(e) + LinkLine(e));
    var r := JsonFieldsFold(allow, e, start);
    Suggestion(e.id, e.id, file, Position(0, 0), r.documentation, r.fields)
  }

  /**
   * The editor list is consulted only when there is no author list. The copy
   * loop would set `editor` itself were it allow-listed, hence the second
   * precondition.
   */
  lemma EditorOnlyWithoutAuthor(file: string, e: JsonEntry, allow: seq<string>)
    requires e.author.Some?
    requires "editor" !in allow
    ensures "editor" !in JsonItem(file, e, allow).fields
  {
    var start := Acc(NameFields(e), NameLine(e) + DateLine(e) + LinkLine(e));
    JsonFieldsFoldMeaning(allow, e, start);
  }

  /** The name loop of `parseBibjsonFile`: `" and "` is appended only to a non-empty accumulated name. */
  method FoldNames(names: seq<seq<string>>) returns (acc: Option<string>)
    ensures acc == NameFold(names)
  {
    acc := None;
    for i := 0 to |names|
      invariant acc == NameFold(names[..i])
    {
      assert names[..i + 1][..i] == names[..i];
      var name := Join(names[i], ", ");
      if acc.Some? && acc.value != "" {
        acc := Some(acc.value + " and ");
      } else {
        acc := Some("");
      }
      acc := Some(acc.value + name);
    }
    assert names[..|names|] == names;
  }

  /** The allow-list loop of `parseBibjsonFile`. */
  method CopyAllowListed(allow: seq<string>, e: JsonEntry, start: Acc) returns (r: Acc)
    ensures r == JsonFieldsFold(allow, e, start)
  {
    var fields := start.fields;
    var documentation := start.documentation;
    for i := 0 to |allow|
      invariant Acc(fields, documentation) == JsonFieldsFold(allow[..i], e, start)
    {
      assert allow[..i + 1][..i] == allow[..i];
      var field := allow[i];
      var value := Prop(e, field);
      if Truthy(value) && !Truthy(Get(fields, field)) {
        fields := fields[field := value.value];
        documentation := documentation + field + ": " + value.value + "\n";
      }
    }
    assert allow[..|allow|] == allow;
    r := Acc(fields, documentation);
  }

  /** The author-or-editor part of `parseBibjsonFile`'s per-entry work. */
  method NamePart(e: JsonEntry) returns (fields: map<string, string>, documentation: string)
    ensures fields == NameFields(e) && documentation == NameLine(e)
  {
    fields := map[];
    documentation := "";
    if e.author.Some? {
      var acc := FoldNames(e.author.value);
      if acc.Some? {
        fields := fields["author" := acc.value];
      }
      documentation := documentation + "author: " + acc.GetOr("undefined") + "\n";
    } else if e.editor.Some? {
      var acc := FoldNames(e.editor.value);
      if acc.Some? {
        fields := fields["editor" := acc.value];
      }
      documentation := documentation + "editor: " + acc.GetOr("undefined") + "\n";
    }
  }

  /** `parseBibjsonFile`'s per-entry work: the name line, the date line, the link line, then the allow-listed fields. */
  method ConvertJsonEntry(file: string, e: JsonEntry, allow: seq<string>) returns (item: Suggestion)
    ensures item == JsonItem(file, e, allow)
  {
    var fields, documentation := NamePart(e);
    if e.issued.Some? {
      documentation := documentation + ("date: " + Join(e.issued.value, ",") + "\n");
    }
    if Truthy(Get(e.props, "DOI")) {
      documentation := documentation + ("link: https://doi.org/" + e.props["DOI"] + "\n");
    } else if Truthy(Get(e.props, "URL")) {
      documentation := documentation + ("link: " + e.props["URL"] + "\n");
    }
    assert documentation == NameLine(e) + DateLine(e) + LinkLine(e);
    var r := CopyAllowListed(allow, e, Acc(fields, documentation));
    item := Suggestion(e.id, e.id, file, Position(0, 0), r.documentation, r.fields);
  }

  /** The slot a BibJSON file fills: one suggestion per array element, in order. */
  function JsonItems(file: string, entries: seq<JsonEntry>, allow: seq<string>): (r: seq<Suggestion>)
    decreases |entries|
    ensures |r| == |entries|
  {
    if entries == [] then []
    else JsonItems(file, entries[..|entries| - 1], allow) + [JsonItem(file, entries[|entries| - 1], allow)]
  }

  lemma BibtexItemsSnoc(file: string, nodes: seq<BibNode>, i: nat, allow: seq<string>)
    requires i < |nodes|
    ensures nodes[i].Entry? && nodes[i].internalKey.Some? ==>
      BibtexItems(file, nodes[..i + 1], allow) == BibtexItems(file, nodes[..i], allow) + [BibtexItem(file, nodes[i], allow)]
    ensures !(nodes[i].Entry? && nodes[i].internalKey.Some?) ==>
      BibtexItems(file, nodes[..i + 1], allow) == BibtexItems(file, nodes[..i], allow)
  {
    assert nodes[..i + 1][..i] == nodes[..i];
    assert BibtexItems(file, nodes[..i], allow) + [] == BibtexItems(file, nodes[..i], allow);
  }

  /** A second write to the same key overrides the first. */
  lemma UpdateTwice<K, V>(m: map<K, V>, k: K, a: V, b: V)
    ensures m[k := a][k := b] == m[k := b]
  {
  }

  lemma JsonItemsSnoc(file: string, entries: seq<JsonEntry>, i: nat, allow: seq<string>)
    requires i < |entries|
    ensures JsonItems(file, entries[..i + 1], allow) == JsonItems(file, entries[..i], allow) + [JsonItem(file, entries[i], allow)]
  {
    assert entries[..i + 1][..i] == entries[..i];
  }

  // ---- Duplicate keys ----

  function Keys(items: seq<Suggestion>): (r: seq<string>)
    ensures |r| == |items|
    ensures forall i :: 0 <= i < |r| ==> r[i] == items[i].key
  {
    if items == [] then [] else [items[0].key] + Keys(items[1..])
  }

  /** The keys counted more than once, in order of first occurrence (`Object.keys` of the count object, for ordinary keys). */
  function Duplicates(keys: seq<string>): (r: seq<string>)
    ensures Lists.NoDups(r)
    ensures forall k :: k in r <==> Lists.Count(keys, k) > 1
  {
    var d := Lists.Distinct(keys);
    var r := FilterRepeated(d, keys);
    assert forall k :: Lists.Count(keys, k) > 1 ==> k in d by {
      forall k | Lists.Count(keys, k) > 1
        ensures k in d
      {
        var i :| 0 <= i < |keys| && keys[i] == k;
      }
    }
    r
  }

  function FilterRepeated(d: seq<string>, keys: seq<string>): (r: seq<string>)
    requires Lists.NoDups(d)
    ensures Lists.NoDups(r)
    ensures forall k :: k in r <==> k in d && Lists.Count(keys, k) > 1
  {
    if d == [] then []
    else
      var rest := FilterRepeated(d[1..], keys);
      assert d[0] !in d[1..];
      if Lists.Count(keys, d[0]) > 1 then [d[0]] + rest else rest
  }

  /**
   * `checkForDuplicates`: a notice listing the repeated keys (an array in a
   * template literal is joined with commas) whenever the number of distinct
   * keys differs from the number of keys.
   */
  function CheckForDuplicates(items: seq<Suggestion>): (r: Option<string>)
  {
    var keys := Keys(items);
    if |set k | k in keys| != |keys| then Some("Duplicate key(s): " + Join(Duplicates(keys), ",")) else None
  }

  /**
   * A notice is given exactly when some key occurs twice, and it names
   * exactly the keys that occur more than once.
   */
  lemma DuplicateNotice(items: seq<Suggestion>)
    ensures CheckForDuplicates(items).Some? <==> !Lists.NoDups(Keys(items))
    ensures CheckForDuplicates(items).Some? ==>
      CheckForDuplicates(items).value == "Duplicate key(s): " + Join(Duplicates(Keys(items)), ",")
    ensures forall k :: k in Duplicates(Keys(items)) <==> Lists.Count(Keys(items), k) > 1
    ensures Lists.NoDups(Keys(items)) <==> Duplicates(Keys(items)) == []
  {
    var keys := Keys(items);
    Lists.SetSizeNoDups(keys);
    Lists.NoDupsCount(keys);
    if Duplicates(keys) != [] {
      assert Duplicates(keys)[0] in Duplicates(keys);
    }
  }

  // ---- Lookup ----

  /** `suggestions.find(elm => elm.key === key)`. */
  function FindByKey(items: seq<Suggestion>, key: string): (r: Option<Suggestion>)
    ensures r.None? <==> forall i :: 0 <= i < |items| ==> items[i].key != key
    ensures r.Some? ==> exists i :: (0 <= i < |items| && items[i] == r.value && r.value.key == key
      && forall j :: 0 <= j < i ==> items[j].key != key)
  {
    if items == [] then None
    else if items[0].key == key then Some(items[0])
    else
      var r := FindByKey(items[1..], key);
      if r.Some? then
        var i :| (0 <= i < |items[1..]| && items[1..][i] == r.value && r.value.key == key
          && forall j :: 0 <= j < i ==> items[1..][j].key != key);
        assert items[i + 1] == r.value;
        r
      else r
  }

  // ---- The store ----

  /** All slots concatenated, in key order. */
  function Flatten(order: seq<string>, slots: map<string, seq<Suggestion>>): seq<Suggestion>
    requires forall f :: f in order ==> f in slots
    decreases |order|
  {
    if order == [] then []
    else Flatten(order[..|order| - 1], slots) + slots[order[|order| - 1]]
  }

  function SumLengths(order: seq<string>, slots: map<string, seq<Suggestion>>): nat
    requires forall f :: f in order ==> f in slots
    decreases |order|
  {
    if order == [] then 0 else SumLengths(order[..|order| - 1], slots) + |slots[order[|order| - 1]]|
  }

  /** The flattened list is as long as all slots together, and holds exactly their elements. */
  lemma {:induction false} FlattenMeaning(order: seq<string>, slots: map<string, seq<Suggestion>>)
    requires forall f :: f in order ==> f in slots
    ensures |Flatten(order, slots)| == SumLengths(order, slots)
    ensures forall x :: x in Flatten(order, slots) <==> exists f :: f in order && x in slots[f]
    decreases |order|
  {
    if order != [] {
      var init, last := order[..|order| - 1], order[|order| - 1];
      FlattenMeaning(init, slots);
      forall x | x in Flatten(order, slots)
        ensures exists f :: f in order && x in slots[f]
      {
        if x in Flatten(init, slots) {
          var f :| f in init && x in slots[f];
          assert f in order;
        }
      }
      forall x | exists f :: f in order && x in slots[f]
        ensures x in Flatten(order, slots)
      {
        var f :| f in order && x in slots[f];
        if f != last {
          var i :| 0 <= i < |order| && order[i] == f;
          assert init[i] == f;
        }
      }
    }
  }

  /** The key order after assigning to `file`: an existing key keeps its place, a new one goes last. */
  function WithKey(order: seq<string>, file: string): seq<string> {
    if file in order then order else order + [file]
  }

  /** The store's state as a value: the key order and the slots. */
  datatype Store = Store(order: seq<string>, entries: map<string, seq<Suggestion>>)

  /** What a `.bib` file's slot holds after parsing: the keyed entries, or nothing when the read or the parse threw. */
  function BibtexSlot(file: string, env: Env): seq<Suggestion> {
    if file in env.files && env.parseBibtex(env.files[file]).Some?
    then BibtexItems(file, env.parseBibtex(env.files[file]).value, AllowList(env))
    else []
  }

  /** What a `.json` file's slot holds after parsing. */
  function JsonSlot(file: string, env: Env): seq<Suggestion> {
    if file in env.files && env.parseJson(env.files[file]).Some?
    then JsonItems(file, env.parseJson(env.files[file]).value, AllowList(env))
    else []
  }

  /**
   * Whether `parseBibFile(file)` throws: for a `.bib` or a `.json` file, the
   * read or the parse throws (`readFileSync`, `bibtexParser.parse`,
   * `JSON.parse`), and nothing in the parser catches it.
   */
  predicate ParseThrows(file: string, env: Env) {
    var ext := Paths.Extname(file);
    || (ext == ".bib" && !(file in env.files && env.parseBibtex(env.files[file]).Some?))
    || (ext == ".json" && !(file in env.files && env.parseJson(env.files[file]).Some?))
  }

  /** The store after `parseBibFile(file)`. */
  function Reparse(s: Store, file: string, env: Env): Store {
    var ext := Paths.Extname(file);
    if ext == ".bib" then Store(WithKey(s.order, file), s.entries[file := BibtexSlot(file, env)])
    else if ext == ".json" then Store(WithKey(s.order, file), s.entries[file := JsonSlot(file, env)])
    else s
  }

  /** The store after `forgetParsedBibItems(file)`. */
  function Evict(s: Store, file: string): Store {
    Store(Lists.Without(s.order, file), s.entries - {file})
  }

  /**
   * Parsing a file replaces its slot wholesale and touches no other slot, so
   * parsing the same file twice leaves what parsing it once leaves.
   */
  lemma ReparseReplacesSlot(s: Store, file: string, env: Env)
    ensures var r := Reparse(s, file, env);
      && (forall g :: g != file ==> (g in r.entries <==> g in s.entries))
      && (forall g :: g != file && g in s.entries ==> r.entries[g] == s.entries[g])
      && Reparse(r, file, env) == r
  {
    var ext := Paths.Extname(file);
    if ext == ".bib" || ext == ".json" {
      var slot := if ext == ".bib" then BibtexSlot(file, env) else JsonSlot(file, env);
      var r := Store(WithKey(s.order, file), s.entries[file := slot]);
      assert Reparse(s, file, env) == r;
      assert file in r.order;
      UpdateTwice(s.entries, file, slot, slot);
      assert Reparse(r, file, env) == Store(r.order, r.entries[file := slot]);
    }
  }

  /** Evicting a file removes exactly its slot and its key. */
  lemma EvictRemovesSlot(s: Store, file: string)
    requires Lists.NoDups(s.order)
    ensures var r := Evict(s, file);
      && file !in r.entries && file !in r.order
      && (forall g :: g != file ==> (g in r.entries <==> g in s.entries))
      && (forall g :: g != file && g in s.entries ==> r.entries[g] == s.entries[g])
      && Lists.NoDups(r.order)
  {
    Lists.WithoutNoDups(s.order, file);
  }

  class Citation {
    /** The keys of `bibEntries`, in insertion order (the order `Object.keys` reports). */
    var order: seq<string>
    /** `bibEntries`: file path to the suggestions parsed from it. */
    var entries: map<string, seq<Suggestion>>

    ghost predicate Valid()
      reads this
    {
      Lists.NoDups(order) && (forall f :: f in entries <==> f in order)
    }

    /** The current state as a value. */
    function Snapshot(): Store
      reads this
    {
      Store(order, entries)
    }

    constructor ()
      ensures Valid() && order == [] && entries == map[]
    {
      order := [];
      entries := map[];
    }

    /** `this.bibEntries[file] = items`. */
    method Assign(file: string, items: seq<Suggestion>)
      requires Valid()
      modifies this
      ensures Valid()
      ensures order == WithKey(old(order), file)
      ensures entries == old(entries)[file := items]
    {
      if file !in order {
        assert Lists.NoDups(order + [file]) by {
          forall i, j | 0 <= i < j < |order + [file]|
            ensures (order + [file])[i] != (order + [file])[j]
          {
            if j == |order| {
              assert (order + [file])[i] == order[i];
            }
          }
        }
        order := order + [file];
      }
      entries := entries[file := items];
    }

    /**
     * `parseBibtexFile`: the slot is emptied first, then the file is read and
     * parsed (either may throw, leaving the slot empty), then one suggestion is
     * pushed per entry with a key. Returns false when the read or the parse
     * threw.
     */
    method ParseBibtexFile(file: string, env: Env) returns (ok: bool)
      requires Valid()
      modifies this
      ensures Valid()
      ensures ok <==> file in env.files && env.parseBibtex(env.files[file]).Some?
      ensures order == WithKey(old(order), file)
      ensures entries == old(entries)[file :=
        if ok then BibtexItems(file, env.parseBibtex(env.files[file]).value, AllowList(env)) else []]
    {
      var fields := AllowList(env);
      Assign(file, []);
      if file !in env.files {
        return false;
      }
      var ast := env.parseBibtex(env.files[file]);
      if ast.None? {
        return false;
      }
      PushBibtexEntries(file, ast.value, fields);
      UpdateTwice(old(entries), file, [], BibtexItems(file, ast.value, fields));
      return true;
    }

    /** The loop of `parseBibtexFile`: one suggestion pushed onto `file`'s slot per entry with a key. */
    method PushBibtexEntries(file: string, nodes: seq<BibNode>, fields: seq<string>)
      requires Valid() && file in entries && entries[file] == []
      modifies this
      ensures Valid()
      ensures order == old(order)
      ensures entries == old(entries)[file := BibtexItems(file, nodes, fields)]
    {
      ghost var entries0 := entries;
      for i := 0 to |nodes|
        invariant order == old(order)
        invariant entries == entries0[file := BibtexItems(file, nodes[..i], fields)]
      {
        var entry := nodes[i];
        BibtexItemsSnoc(file, nodes, i, fields);
        if entry.Entry? && entry.internalKey.Some? {
          var item := ConvertBibtexEntry(file, entry, fields);
          UpdateTwice(entries0, file, BibtexItems(file, nodes[..i], fields), entries[file] + [item]);
          entries := entries[file := entries[file] + [item]];
        }
      }
      assert nodes[..|nodes|] == nodes;
      assert entries.Keys == entries0.Keys;
    }

    /**
     * `parseBibjsonFile`: the slot is emptied first, then the file is read and
     * parsed (either may throw, leaving the slot empty), then one suggestion
     * is pushed per array element.
     */
    method ParseBibjsonFile(file: string, env: Env) returns (ok: bool)
      requires Valid()
      modifies this
      ensures Valid()
      ensures ok <==> file in env.files && env.parseJson(env.files[file]).Some?
      ensures order == WithKey(old(order), file)
      ensures entries == old(entries)[file :=
        if ok then JsonItems(file, env.parseJson(env.files[file]).value, AllowList(env)) else []]
    {
      var fields := AllowList(env);
      Assign(file, []);
      if file !in env.files {
        return false;
      }
      var json := env.parseJson(env.files[file]);
      if json.None? {
        return false;
      }
      PushJsonEntries(file, json.value, fields);
      UpdateTwice(old(entries), file, [], JsonItems(file, json.value, fields));
      return true;
    }

    /** The loop of `parseBibjsonFile`: one suggestion pushed onto `file`'s slot per array element. */
    method PushJsonEntries(file: string, elements: seq<JsonEntry>, fields: seq<string>)
      requires Valid() && file in entries && entries[file] == []
      modifies this
      ensures Valid()
      ensures order == old(order)
      ensures entries == old(entries)[file := JsonItems(file, elements, fields)]
    {
      ghost var entries0 := entries;
      for i := 0 to |elements|
        invariant order == old(order)
        invariant entries == entries0[file := JsonItems(file, elements[..i], fields)]
      {
        var item := ConvertJsonEntry(file, elements[i], fields);
        JsonItemsSnoc(file, elements, i, fields);
        UpdateTwice(entries0, file, JsonItems(file, elements[..i], fields), entries[file] + [item]);
        entries := entries[file := entries[file] + [item]];
      }
      assert elements[..|elements|] == elements;
      assert entries.Keys == entries0.Keys;
    }

    /**
     * `parseBibFile`: dispatch on the extension. Any other extension is only
     * logged and leaves the store as it was (`ok` is then true: nothing threw).
     */
    method ParseBibFile(file: string, env: Env) returns (ok: bool)
      requires Valid()
      modifies this
      ensures Valid()
      ensures Snapshot() == Reparse(old(Snapshot()), file, env)
      ensures ok <==> !ParseThrows(file, env)
      ensures Paths.Extname(file) != ".bib" && Paths.Extname(file) != ".json" ==>
        ok && order == old(order) && entries == old(entries)
      ensures Paths.Extname(file) == ".bib" ==>
        && (ok <==> file in env.files && env.parseBibtex(env.files[file]).Some?)
        && order == WithKey(old(order), file)
        && entries == old(entries)[file :=
             if ok then BibtexItems(file, env.parseBibtex(env.files[file]).value, AllowList(env)) else []]
      ensures Paths.Extname(file) == ".json" ==>
        && (ok <==> file in env.files && env.parseJson(env.files[file]).Some?)
        && order == WithKey(old(order), file)
        && entries == old(entries)[file :=
             if ok then JsonItems(file, env.parseJson(env.files[file]).value, AllowList(env)) else []]
    {
      var ext := Paths.Extname(file);
      if ext == ".bib" {
        ok := ParseBibtexFile(file, env);
      } else if ext == ".json" {
        ok := ParseBibjsonFile(file, env);
      } else {
        ok := true;
      }
    }

    /** `updateAll`: all slots concatenated in key order, with the duplicate-key notice. */
    method UpdateAll() returns (suggestions: seq<Suggestion>, notice: Option<string>)
      requires Valid()
      ensures suggestions == Flatten(order, entries)
      ensures notice == CheckForDuplicates(suggestions)
    {
      suggestions := [];
      var files := order;
      for i := 0 to |files|
        invariant suggestions == Flatten(files[..i], entries)
      {
        assert files[..i + 1][..i] == files[..i];
        suggestions := suggestions + entries[files[i]];
      }
      assert files[..|files|] == files;
      notice := CheckForDuplicates(suggestions);
    }

    /** `getEntry`: the first suggestion with the key over all slots (the duplicate notice comes along). */
    method GetEntry(key: string) returns (entry: Option<Suggestion>, notice: Option<string>)
      requires Valid()
      ensures entry == FindByKey(Flatten(order, entries), key)
      ensures notice == CheckForDuplicates(Flatten(order, entries))
    {
      var suggestions;
      suggestions, notice := UpdateAll();
      entry := FindByKey(suggestions, key);
    }

    /** `forgetParsedBibItems`: `delete this.bibEntries[bibPath]`. */
    method ForgetParsedBibItems(bibPath: string)
      requires Valid()
      modifies this
      ensures Valid()
      ensures entries == old(entries) - {bibPath}
      ensures order == Lists.Without(old(order), bibPath)
      ensures Snapshot() == Evict(old(Snapshot()), bibPath)
    {
      Lists.WithoutNoDups(order, bibPath);
      order := Lists.Without(order, bibPath);
      entries := entries - {bibPath};
    }
  }
}
