# Citation, cross-reference and compilation core of the Nous Markdown extension

This project models, in Dafny, the core of a VS Code extension for academic Markdown writing:

- **The bibliography entry store** (`Citation`). There is one slot of completion suggestions per bibliography file, keyed by path in insertion order. A slot is filled from a BibTeX syntax tree or from a BibJSON array. The store can be:
  - flattened for completion;
  - searched for the first entry with a key;
  - checked for duplicate keys;
  - emptied slot by slot.
- **The source manager** (`Manager`). It finds the bibliography sources a document names:
  - an inline `bibliography: [a, b]` line;
  - the YAML front matter;
  - a configured root file;
  - the configured default sources.

  It resolves each source against the root folder, the document's directory or the working directory. It applies the `.json`/`.bib` extension fallback against the set of existing files. It keeps the duplicate-free list of watched paths. The watcher's change and unlink events re-parse or evict a file's slot. With `ForgetUnusedBib` set, every watched path no source resolved to is forgotten.
- **The cross-reference scanner** (`CrossrefRegex`, `Crossref`).
  - A line pattern finds `{… #kind:label …}` on each line, at most one match per line.
  - A per-kind extractor builds the completion item: figure, section, table, listing or equation.
  - The extractors consult a bounded 800-character window before the match, and a cursor loop cuts the table preview.
  - `provide` runs the global pattern over the document in `full`, `minimal` or `none` mode.
  - Each regular expression is a hand-written matcher. Each matcher has a lemma saying in plain terms what it matches.
- **Front-matter extraction** (`YamlHandler`). This covers detecting a leading `---` block, extracting the lines between it and the first closing line, and handing them to a YAML loader.
- **The pandoc command builder** (`CompileMarkdown`). It has per-format defaults. A document's `pandoc.<format>` section is merged into them, with the two lists concatenated. The merged configuration is serialised into one command line.
- **Text rewrites** (`Preprocessor`, `PlaintextHelpers`). These are the `$HOME` expansion, the removal of `{{ … }}` comments, and the two selection commands: newlines to spaces, and word characters to `_`.

Shared modules supply the JavaScript primitives the code relies on:

- `JsString` has, on strings of code points, `indexOf`/`lastIndexOf` with JavaScript's clamping, `substring` with its argument swap, `split`, `join`, `trim` and the `\s` and `\w` classes.
- `Paths` has a POSIX subset of `path.*`.
- `Lists` has `indexOf`/`splice` and the set-like list operations.
- `Wrappers` has `Option`.

The model takes the source's own form:

- **`Citation.Citation`** is a class. Its `order` and `entries` fields change in place:
  - the parse methods empty the slot, then push entry after entry in a loop;
  - `ForgetParsedBibItems` deletes a slot.
- **`Manager.Manager`** is a class. Its `watched` list grows by appending and shrinks by splicing, and it shares its `Citation` object.
- **`Crossref.Crossref`** is a class. It holds the stateful `lastIndex` of the global line pattern. `Provide` is the `while` loop over `exec`.

Loops in the source are methods with invariants. Each is proved against a function that specifies it, and the lemmas about that function state what the code promises. Pure code is functions and lemmas.

Outside inputs are parameters:

- **The file system** is a map from path to contents (`Env.files`). `fs.existsSync(p)` means that `p` is a key of it.
- **The parsers** (BibTeX, `JSON.parse`, js-yaml `load`/`loadAll`) are functions returning `None` where the real one throws.
- **A throwing parse** inside `addBibToWatcher` propagates. The path stays watched with an emptied slot. In `findBib` the inline and default groups have no `try`, so the throw leaves `findBib` before the diff. The YAML and root-file groups catch it, which ends that group without recording the failing path.
- **The rest:** the configuration, the working directory, the home directory and the active editor.

## Model

| member | source | states |
|---|---|---|
| Citation.AllowList | src/features/citations/providers/completer/citation.ts:265-271 | the field allow-list is the configured `CitationFormat` names, each lower-cased, in order |
| Citation.DeParenthesis | src/features/citations/providers/completer/citation.ts:334-336 | removing brace runs around brace-free text never lengthens a field value |
| Citation.DeParenthesisExample | src/features/citations/providers/completer/citation.ts:334-336 | `{{A Study}}` becomes `A Study` |
| Citation.DeParenthesisWithoutBraces | src/features/citations/providers/completer/citation.ts:334-336 | a value with no `{` is returned unchanged |
| Citation.FirstNamedIndex | src/features/citations/providers/completer/citation.ts:295-297 | the index found is the first field with the name; no earlier field has it, and -1 means no field has it |
| Citation.BibtexFieldsMeaning | src/features/citations/providers/completer/citation.ts:294-307 | a name is in `fields` exactly when it is allow-listed and the entry has a field of that name; its value is the first such field's text (array parts joined by spaces, otherwise de-parenthesised) |
| Citation.BibtexSnoc | src/features/citations/providers/completer/citation.ts:294-307 | each allow-listed name, in allow-list order, appends one `Capitalised: value\n` line to the documentation and sets that one field; a name the entry lacks adds nothing |
| Citation.BibtexItemsMeaning | src/features/citations/providers/completer/citation.ts:276-308 | the items are, in file order, exactly one per entry with a key: the i-th item is the one built for the i-th keyed entry, so it carries that key as key and label, the file, that entry's position (line − 1, column − 1) and that entry's fields |
| Citation.KeyedNodesMeaning | src/features/citations/providers/completer/citation.ts:278 | a node is kept exactly when it is an entry with a key |
| Citation.ConvertBibtexEntry | src/features/citations/providers/completer/citation.ts:282-307 | the field loop builds exactly the item the BibTeX rules define |
| Citation.NameFold | src/features/citations/providers/completer/citation.ts:215-225 | the author fold yields a value exactly when the name list is non-empty |
| Citation.NameFoldJoins | src/features/citations/providers/completer/citation.ts:215-225 | with non-empty names, the fold is the elements joined by ` and `, each element's values joined by `, ` |
| Citation.JoinedNamesAt | src/features/citations/providers/completer/citation.ts:217-224 | the i-th joined name is the i-th element's values joined by `, ` |
| Citation.JoinedNamesNonEmpty | src/features/citations/providers/completer/citation.ts:215-225 | a non-empty list of non-empty names folds to a non-empty field |
| Citation.FoldNames | src/features/citations/providers/completer/citation.ts:215-225 | the `forEach` accumulation over the name list computes the fold |
| Citation.NameFields | src/features/citations/providers/completer/citation.ts:215-237 | only `author` or `editor` is set by the name fold, and `editor` never when there is an author list |
| Citation.NamePart | src/features/citations/providers/completer/citation.ts:215-237 | the author-or-editor branch computes the name fields and the name line |
| Citation.EditorOnlyWithoutAuthor | src/features/citations/providers/completer/citation.ts:215-237 | with `editor` not allow-listed, an entry with an author list never gets an `editor` field: the name branch consults the editor list only without an author list |
| Citation.LinkLine | src/features/citations/providers/completer/citation.ts:241-245 | with a DOI the link line is `https://doi.org/<DOI>`; otherwise with a URL it is the URL; with neither there is no link line |
| Citation.JsonFieldsFoldMeaning | src/features/citations/providers/completer/citation.ts:246-251 | the copy loop never drops or overwrites a field already set to a non-empty value; every field it adds or changes is allow-listed and holds the entry's own value of that property; and every allow-listed property that is non-empty, whose field was not already non-empty, is copied |
| Citation.JsonFieldsFoldDocumentation | src/features/citations/providers/completer/citation.ts:246-251 | the documentation gains one `field: value` line per copied name, in allow-list order, each name at its first occurrence in the list |
| Citation.CopyAllowListed | src/features/citations/providers/completer/citation.ts:246-251 | the allow-list loop computes the copy fold |
| Citation.ConvertJsonEntry | src/features/citations/providers/completer/citation.ts:206-251 | one BibJSON element becomes the item keyed and labelled by its `id` at position (0, 0), with the name, date, link and copied lines |
| Citation.JsonItems | src/features/citations/providers/completer/citation.ts:205-253 | one item per array element |
| Citation.Keys | src/features/citations/providers/completer/citation.ts:364 | the key list is the items' keys in order |
| Citation.Duplicates | src/features/citations/providers/completer/citation.ts:368-370 | the listed keys are duplicate-free and are exactly the keys counted more than once |
| Citation.DuplicateNotice | src/features/citations/providers/completer/citation.ts:363-375 | a notice is raised exactly when some key occurs twice; it lists exactly the keys with count > 1; the listing is empty exactly when the keys are distinct |
| Citation.FindByKey | src/features/citations/providers/completer/citation.ts:323 | `find` returns the first item with the key, or nothing exactly when no item has it |
| Citation.FlattenMeaning | src/features/citations/providers/completer/citation.ts:345-356 | the flattened list's length is the sum of the slot lengths, and an item is in it exactly when it is in the slot of some listed file |
| Citation.ReparseReplacesSlot | src/features/citations/providers/completer/citation.ts:176-185 | parsing a file replaces its own slot and leaves every other slot as it was; parsing it again leaves the same store, so nothing from an earlier parse survives |
| Citation.EvictRemovesSlot | src/features/citations/providers/completer/citation.ts:384-387 | forgetting a file removes its slot and its key and nothing else |
| Citation.Citation.Assign | src/features/citations/providers/completer/citation.ts:201 | assigning a slot sets that slot alone; a new key goes to the end of the key order |
| Citation.Citation.ParseBibtexFile | src/features/citations/providers/completer/citation.ts:264-313 | the slot is emptied first; it then holds the keyed entries of the parsed tree when the read and the parse succeed, and stays empty when either throws; no other slot changes |
| Citation.Citation.PushBibtexEntries | src/features/citations/providers/completer/citation.ts:276-309 | the entry loop pushes exactly the keyed entries' items, in order, into the emptied slot |
| Citation.Citation.ParseBibjsonFile | src/features/citations/providers/completer/citation.ts:192-257 | the slot is emptied first; it then holds one item per array element when the read and `JSON.parse` succeed, and stays empty when the read or `JSON.parse` throws; no other slot changes |
| Citation.Citation.PushJsonEntries | src/features/citations/providers/completer/citation.ts:205-253 | the element loop pushes one item per element, in order |
| Citation.Citation.ParseBibFile | src/features/citations/providers/completer/citation.ts:176-185 | `.bib` goes to the BibTeX parser and `.json` to the BibJSON one; any other extension leaves the store unchanged; the call returns normally exactly when no read or parse throws |
| Citation.Citation.UpdateAll | src/features/citations/providers/completer/citation.ts:345-356 | the concatenation loop returns every slot in key order, together with the duplicate-key notice for the result |
| Citation.Citation.GetEntry | src/features/citations/providers/completer/citation.ts:321-325 | the first entry of the flattened store with the key, or none |
| Citation.Citation.ForgetParsedBibItems | src/features/citations/providers/completer/citation.ts:384-387 | removes slot `bibPath` and its key, and nothing else |
| Manager.StripQuotes | src/features/citations/components/manager.ts:215-224 | the result is the input or the input without its first and last character, and it differs only when both are the same quote `"` or `'` |
| Manager.StripQuotesInverse | src/features/citations/components/manager.ts:215-224 | quoting any text with `"` or `'` and stripping gives the text back |
| Manager.StripQuotesUnquoted | src/features/citations/components/manager.ts:215-224 | the empty string and text not opening with a quote are returned unchanged |
| Manager.ResolveBibFile | src/features/citations/components/manager.ts:233-249 | an absolute path comes back unchanged; with an absolute working directory the result is always absolute |
| Manager.ResolveBibFileOrder | src/features/citations/components/manager.ts:233-249 | a relative path lands under the root folder if one is given, else under the editor document's directory, else under the working directory; resolving again changes nothing |
| Paths.Collapse | src/features/citations/components/manager.ts:237 | normalising leaves no two adjacent separators, keeps the first character, and changes nothing in a path that has none |
| Paths.JoinUnder | src/features/citations/components/manager.ts:237 | joining onto a base keeps the normalised base as a prefix, and onto an absolute base gives an absolute path |
| Paths.JoinExample | src/features/citations/components/manager.ts:164 | a separator at the junction is not doubled: joining `/r` and `/abs.bib` gives `/r/abs.bib` |
| Paths.DirnameOf | src/features/citations/components/manager.ts:164 | the directory of `d/b`, with any separators after `b`, is `d` |
| Manager.Fallback | src/features/citations/components/manager.ts:261-266 | the path used is the path itself, `p.json` or `p.bib`, and it exists exactly when one of the three exists |
| Manager.AddedMeaning | src/features/citations/components/manager.ts:259-305 | a path missing after the fallback changes nothing (watched list and store); an already watched path changes nothing; a new existing path is appended exactly once and parsed once; the watched list stays duplicate-free |
| Manager.AddAllMeaning | src/features/citations/components/manager.ts:126-132 | adding a list of sources, every add returning, keeps the old watched list as a prefix; it appends only existing resolved sources and leaves every existing source watched, with no duplicates |
| Manager.AddUntilThrow | src/features/citations/components/manager.ts:126-132 | a run of adds stops at the first one that throws: it completes every path when none throws, and fewer otherwise |
| Manager.AddUntilThrowMeaning | src/features/citations/components/manager.ts:126-132 | the state after a run is that of adding every attempted path, the throwing one included, since its push comes before its parse; no completed add threw, and after a throw the next add is the one that threw |
| Manager.AddUntilThrowStops | src/features/citations/components/manager.ts:126-132 | once an add has thrown, no later path is added |
| Manager.AddUntilThrowClean | src/features/citations/components/manager.ts:126-132 | when no parse throws, a run adds every path |
| Manager.RunMeaning | src/features/citations/components/manager.ts:126-132 | a run keeps the watched list duplicate-free, only appends to it, and leaves watched every existing path a completed add settled on |
| Manager.ForgetMeaning | src/features/citations/components/manager.ts:283-290 | unlinking a watched path removes exactly that path and evicts its slot; for a path not watched, the index −1 drops the last watched path instead |
| Manager.ForgetAllMeaning | src/features/citations/components/manager.ts:311-324 | forgetting a duplicate-free list of watched paths removes exactly those from the watched list and the key order, and evicts exactly their slots |
| Manager.DiffMeaning | src/features/citations/components/manager.ts:199-206 | without `ForgetUnusedBib` nothing changes; with it the watched list keeps exactly the found paths, and exactly the slots of the unfound watched paths are evicted |
| Manager.InlineAt | src/features/citations/components/manager.ts:90-92 | the pattern matches at an index exactly when it is a line start holding `bibliography:`, the maximal `\s` run after it ends at a `[`, and a `]` follows later on that line; the capture is everything from the `[` up to the last such `]`, and crosses no line |
| Manager.InlineFromLeftmost | src/features/citations/components/manager.ts:90-92 | `match` takes the match at the leftmost index that has one, and finds none exactly when no index has one |
| Manager.InlineSources | src/features/citations/components/manager.ts:90-101 | no capture, or an empty one, gives no sources; otherwise source i is item i of the capture split on `,`, trimmed, its quotes stripped, resolved under the document's directory |
| Manager.InlineExample | src/features/citations/components/manager.ts:90-101 | `bibliography: [refs]` in `/w/doc.md` names `/w/refs` |
| Manager.YamlBlockFromSound | src/features/citations/components/manager.ts:110-117 | a front-matter block found by the scan starts with `---` and occurs in the text |
| Manager.LineStepMeaning | src/features/citations/components/manager.ts:110 | one `.+\r?\n` step finds the line starting at its index exactly when there is one, and then its end |
| Manager.LineEndsMeaning | src/features/citations/components/manager.ts:110 | the line ends are the longest run of `.+\r?\n` lines after the opening, each starting where the previous ends |
| Manager.CloseAfterMeaning | src/features/citations/components/manager.ts:110 | the backtracking close picks the last line end followed by `---`, and finds none exactly when no line end is |
| Manager.YamlBlockAtMeaning | src/features/citations/components/manager.ts:110 | tried at one index, the pattern matches exactly when a block opened there can close, and then runs to the last `---` that closes it |
| Manager.YamlBlockFromLeftmost | src/features/citations/components/manager.ts:110-116 | the search takes the match at the leftmost index that has one, and finds none only when no index has one |
| Manager.YamlBlockNone | src/features/citations/components/manager.ts:110-113 | there is no front-matter block exactly when no `---\r?\n` opening anywhere can close |
| Manager.YamlBlockFirst | src/features/citations/components/manager.ts:110-116 | the block used is the first that can close, from its opening `---` up to and including the last `---` that closes it |
| Manager.YamlSources | src/features/citations/components/manager.ts:110-140 | without a front-matter block there are no YAML sources; with one, source i is the i-th `bibliography` entry of the first loaded document, its quotes stripped, resolved under the root folder |
| Manager.RootSources | src/features/citations/components/manager.ts:143-176 | without a configured root file, or when it does not exist, there are no root sources; otherwise there is one per `bibliography` entry of the root file's first YAML document, the i-th being that entry joined onto the root file's directory and resolved. The root file is read at the configured path after a one-argument join, or, when that is relative and there is a root folder, at the configured path joined onto the root folder |
| Manager.RootSourcesUnderRootDir | src/features/citations/components/manager.ts:164-165 | for an absolute root file whose `bibliography` entries hold no `..` segment, every root-file source lies under the root file's directory |
| Manager.DefaultSources | src/features/citations/components/manager.ts:179-197 | without `UseDefaultBib` there are no default sources; with it the first is `DefaultBib`, joined on its own and resolved, when it is set, and the rest are the `DefaultBibs` loop's sources, one per configured file |
| Manager.ResolvedDefaults | src/features/citations/components/manager.ts:189-196 | the `DefaultBibs` loop gives one source per element, in order, each the element joined on its own and resolved |
| Manager.FindBibBySources | src/features/citations/components/manager.ts:78-208 | when no parse throws, `findBib` adds every discovered source in order, then applies the diff, to the found list as written or to the resolved paths, and does not throw |
| Manager.GatherMeaning | src/features/citations/components/manager.ts:86-197 | the four groups keep the invariant, only append to the watched list, and leave every existing recorded path watched; `findBib` throws exactly when an inline or a default add throws |
| Manager.CaughtThrowForgetsSource | src/features/citations/components/manager.ts:113-139 | a throw in the YAML group is caught and ends the group; the path that threw stays watched but is not recorded, so with `ForgetUnusedBib` it is forgotten in the same pass unless another source recorded it |
| Manager.FindBibCleanKeepsSources | src/features/citations/components/manager.ts:78-208 | when no parse throws, the corrected pass leaves every existing source watched after its fallback, and with `ForgetUnusedBib` keeps exactly the watched paths some source resolved to |
| Manager.ThrowStopsExample | src/features/citations/components/manager.ts:94-100 | the inline list `[/a.bib, /b.bib]` with `/a.bib` malformed watches `/a.bib`, throws, and never reaches `/b.bib` |
| Manager.FindBibKeepsFoundSources | src/features/citations/components/manager.ts:78-208 | the corrected pass keeps the invariant and every existing found path watched, and throws exactly when the groups throw; after a throw, or without `ForgetUnusedBib`, nothing is forgotten; otherwise the watched list keeps exactly the found paths |
| Manager.AsWrittenForgetsFallbackSource | src/features/citations/components/manager.ts:99 | as written, a source found only through the fallback is forgotten in the same pass when it is not itself a source; the corrected pass keeps it |
| Manager.FallbackForgottenExample | src/features/citations/components/manager.ts:99 | `bibliography: [refs]` with only `/w/refs.bib` existing: the as-written pass ends watching nothing, while the corrected one watches `/w/refs.bib` |
| Manager.Manager.constructor | src/features/citations/components/manager.ts:63-67 | a new manager watches nothing and has no watcher |
| Manager.Manager.AddBibToWatcher | src/features/citations/components/manager.ts:259-305 | returns the fallback path and whether the parse threw, which happens exactly for a new existing path whose read or parse fails; the state moves as `AddedMeaning` describes even then |
| Manager.Manager.OnChange | src/features/citations/components/manager.ts:276-281 | a change event re-parses that file's slot alone |
| Manager.Manager.OnUnlink | src/features/citations/components/manager.ts:283-290 | an unlink event evicts the slot and splices the path out of the watched list |
| Manager.Manager.ForgetUnusedFiles | src/features/citations/components/manager.ts:311-324 | forgets each listed path in turn |
| Manager.Manager.WatchAll | src/features/citations/components/manager.ts:94-100 | the loop adds each source in turn until one throws; it reports the throw and returns the paths watched by the adds that returned |
| Manager.Manager.FindBib | src/features/citations/components/manager.ts:78-208 | with no editor nothing changes; otherwise the state and the throw are those of the corrected discovery pass |
| CrossrefRegex.KindAtMeaning | src/features/citations/providers/completer/crossref.ts:74 | the kind alternation matches exactly when one of `fig`, `tbl`, `eq`, `sec`, `lst` occurs there |
| CrossrefRegex.RefAt | src/features/citations/providers/completer/crossref.ts:74 | a reference is `#`, a kind and a non-empty word label |
| CrossrefRegex.LastRefIsLast | src/features/citations/providers/completer/crossref.ts:74 | the reference the greedy pattern picks is the last on the line |
| CrossrefRegex.MatchAt | src/features/citations/providers/completer/crossref.ts:74 | a match runs from its index to the end of its line and has a kind and a non-empty label |
| CrossrefRegex.MatchAtMeaning | src/features/citations/providers/completer/crossref.ts:74 | the groups come from the last reference on the line that has a `{` before it, and there is no match when no reference has one |
| CrossrefRegex.MatchOnLine | src/features/citations/providers/completer/crossref.ts:74 | every match lies inside the text, holds a `{`, and has a word label and a kind of the pattern |
| CrossrefRegex.ExecMeaning | src/features/citations/providers/completer/crossref.ts:319 | `exec` returns the match at the first index from `lastIndex` where there is one, and nothing when there is none |
| CrossrefRegex.NoMatchAtLineEnd | src/features/citations/providers/completer/crossref.ts:74 | no match starts on a line terminator or at the end of the text |
| CrossrefRegex.Matches | src/features/citations/providers/completer/crossref.ts:319-345 | the global pattern's matches are in range and in increasing order, each ending before the next begins |
| CrossrefRegex.MatchesAreMatches | src/features/citations/providers/completer/crossref.ts:319-345 | each match is the line pattern's match at its own index, and there are none exactly when the first `exec` fails |
| CrossrefRegex.OneMatchPerLine | src/features/citations/providers/completer/crossref.ts:74 | no match crosses a line terminator and a line terminator separates any two matches: at most one match per line |
| CrossrefRegex.FigMatchMeaning | src/features/citations/providers/completer/crossref.ts:76 | the figure pattern matches exactly when `![`, `](` and `){` occur in that order with room for both groups; it uses the first `![`, the last `){`, and the last `](` at least three characters before it |
| CrossrefRegex.SecMatchMeaning | src/features/citations/providers/completer/crossref.ts:78 | the section pattern matches exactly when the text has a `{`; the title runs from after the leading `#`s and spaces up to the last `{` |
| CrossrefRegex.TblMatchMeaning | src/features/citations/providers/completer/crossref.ts:79 | the table pattern matches exactly when a `:` precedes a `{`; the caption runs from after the first `:` and its spaces up to the last `{` |
| CrossrefRegex.LangMatchMeaning | src/features/citations/providers/completer/crossref.ts:174-175 | the language is the non-empty word after the last `.word … }` that follows a `{`, and there is none when no such dot follows a `{` |
| CrossrefRegex.CaptionMatchMeaning | src/features/citations/providers/completer/crossref.ts:178-179 | a caption is the non-empty text between the last `caption="` that leaves room for it and the last `"` before the last `}`, with a `{` before it |
| CrossrefRegex.CaptionMatchNone | src/features/citations/providers/completer/crossref.ts:178-179 | without a `{`, a `caption="`, a `"` and a `}` in that order, with room for the group, there is no caption |
| CrossrefRegex.EqFromMeaning | src/features/citations/providers/completer/crossref.ts:77 | the equation pattern finds the leftmost `$$`, spaces, `{`, and finds nothing only when there is none |
| Crossref.ScanOnLine | src/features/citations/providers/completer/crossref.ts:319-321 | every context the scan hands a parser has the shape of a line match |
| Crossref.FigItemMeaning | src/features/citations/providers/completer/crossref.ts:90-103 | a figure item exists exactly when the figure pattern matches the match string; its detail is the caption and its image link is absolute when the document's path is; when the image path holds no `..` segment the link lies under the document's directory |
| Crossref.SecItemAlways | src/features/citations/providers/completer/crossref.ts:111-120 | every scanned section label gives an item titled by the text up to the last `{`, trailing spaces kept |
| Crossref.CursorMeaning | src/features/citations/providers/completer/crossref.ts:140-146 | the cursor passes at most `tblPrintLines + 2` newlines, and fewer only when no newline is left |
| Crossref.LastSignature | src/features/citations/providers/completer/crossref.ts:134-138 | the window's `lastIndexOf` is > 0 exactly when the signature occurs past the window's first character within the last 800 characters, and then it is the last such occurrence |
| Crossref.PreviewMeaning | src/features/citations/providers/completer/crossref.ts:128-157 | without the signature in the window the preview is empty; with it, the preview is cut from the last blank line before the last signature up to the cursor |
| Crossref.AdvanceCursor | src/features/citations/providers/completer/crossref.ts:140-146 | the cursor loop stops at the position the cursor rules define |
| Crossref.TablePreview | src/features/citations/providers/completer/crossref.ts:134-149 | the preview code computes the preview the window rules define |
| Crossref.SignatureBlank | src/features/citations/providers/completer/crossref.ts:134-139 | the window search yields the blank line before the last signature exactly when the signature's offset in the window is > 0 |
| Crossref.PreviewLines | src/features/citations/providers/completer/crossref.ts:140-149 | the text cut from after the blank line up to where the cursor loop stops |
| Crossref.ParseTbl | src/features/citations/providers/completer/crossref.ts:128-157 | the table parser computes the table item |
| Crossref.TblItemMeaning | src/features/citations/providers/completer/crossref.ts:128-157 | there is no table item exactly when no `:` precedes a `{` on the matched line; without the table-separator signature in the window an item is still returned, with empty documentation |
| Crossref.ParseLstTableMatch | src/features/citations/providers/completer/crossref.ts:206-239 | the caption form's item is the caption with the preview cut at the last fence before the label |
| Crossref.ParseLst | src/features/citations/providers/completer/crossref.ts:247-257 | a fence line is tried first, then the caption form; nothing only when both fail |
| Crossref.LstNormalTitle | src/features/citations/providers/completer/crossref.ts:166-197 | a fenced listing is titled by its `caption="…"` when there is one and by its label otherwise, never by an empty string |
| Crossref.ListingCodeMeaning | src/features/citations/providers/completer/crossref.ts:182-190 | the code shown is the text from the end of the matched line up to the next fence, in a fenced block of the listing's language |
| Crossref.ListingCodeInLine | src/features/citations/providers/completer/crossref.ts:182-190 | when the next fence after the label's index lies inside the matched line, `substring` swaps its bounds and the code shown is the rest of that line from the fence on |
| Crossref.ListingNoCode | src/features/citations/providers/completer/crossref.ts:182-190 | with no later fence the listing preview is empty |
| Crossref.EquationAtMeaning | src/features/citations/providers/completer/crossref.ts:265-285 | there is an equation item exactly when a `$$` lies wholly inside the 800 characters before the labelled one; its documentation is the text between the last such `$$` and the labelled one |
| Crossref.EqItemMeaning | src/features/citations/providers/completer/crossref.ts:265-285 | no equation pattern gives no item; otherwise the labelled `$$` lies inside the document and the item is the one `EquationAtMeaning` describes |
| Crossref.EquationAtAsWrittenStray | src/features/citations/providers/completer/crossref.ts:271-276 | as written, a labelled `$$` far into the document with no `$$` in its window still gets an item, made of the last 799 characters before it; the corrected parser gives none |
| Crossref.EqAsWrittenAgrees | src/features/citations/providers/completer/crossref.ts:271-276 | the as-written and the corrected equation parsers differ only where the corrected one gives no item |
| Crossref.ParseLine | src/features/citations/providers/completer/crossref.ts:311-317 | the dispatch on the kind picks that kind's parser, the corrected `EqItem` for `eq` |
| Crossref.ParseLabel | src/features/citations/providers/completer/crossref.ts:311-337 | every parser labels its item `type:label` |
| Crossref.MinimalItems | src/features/citations/providers/completer/crossref.ts:338-343 | in `minimal` mode there is exactly one item per match, labelled `type:label`, in document order |
| Crossref.OtherModesEmpty | src/features/citations/providers/completer/crossref.ts:305 | a mode other than `full` and `minimal` offers nothing |
| Crossref.CollectFull | src/features/citations/providers/completer/crossref.ts:323-337 | in `full` mode the items are the parsers' non-null results, in match order, equations parsed by the corrected `EqItem` |
| Crossref.FullProvide | src/features/citations/providers/completer/crossref.ts:319-337 | over a whole document `full` mode returns the parsers' non-null results in document order, equations parsed by the corrected `EqItem`; there are never more items than matches, and at most one match per line |
| Crossref.ScannedContexts | src/features/citations/providers/completer/crossref.ts:319-321 | every context the loop builds comes from the line pattern at its own index |
| Crossref.Crossref.constructor | src/features/citations/providers/completer/crossref.ts:74 | the global pattern starts at `lastIndex` 0 |
| Crossref.Crossref.ExecLine | src/features/citations/providers/completer/crossref.ts:319 | `exec` returns the next match from `lastIndex`, which moves to the match's end, or back to 0 when there is none |
| Crossref.Crossref.Provide | src/features/citations/providers/completer/crossref.ts:296-347 | no document or mode `none` gives no items; otherwise the loop returns the items of every match from `lastIndex`, equations parsed by the corrected `EqItem`, and leaves `lastIndex` at 0 |
| YamlHandler.FirstClosing | src/compilation_tools/yamlHandler.ts:22-27 | the index found is the first closing line from the start index, and -1 means there is none |
| YamlHandler.Frontmatter | src/compilation_tools/yamlHandler.ts:11-34 | an extraction is only ever found when `hasYamlFrontmatter` holds |
| YamlHandler.FrontmatterMeaning | src/compilation_tools/yamlHandler.ts:5-34 | without an opening `---` after leading whitespace there is none; otherwise there is one exactly when a later line trims to `---`, and it is the lines before the first such line joined by `\n` |
| YamlHandler.ExtractYamlFrontmatter | src/compilation_tools/yamlHandler.ts:11-34 | the loop with its early `break` computes the extraction |
| YamlHandler.FindClosing | src/compilation_tools/yamlHandler.ts:19-27 | the loop finds the first closing line after line 0, or -1 |
| YamlHandler.ParseYamlFrontmatter | src/compilation_tools/yamlHandler.ts:37-50 | no or empty front matter gives null; non-empty front matter gives exactly the loader's result on the extracted text, null when it throws |
| YamlHandler.ParseFramed | src/compilation_tools/yamlHandler.ts:37-50 | for a document framed as in the unit tests, with a non-empty body, parsing gives the loader's result on the body lines joined by `\n` |
| YamlHandler.ExtractBody | src/test/suite/yaml.test.ts:29-64 | for any body of non-closing lines, a closing line with any surrounding spaces, and any tail, including further `---`, the extraction is exactly the body |
| YamlHandler.ExtractEmpty | src/test/suite/yaml.test.ts:45-48 | `---\n---\nContent` extracts to the empty string |
| YamlHandler.ExtractTrailingSpaces | src/test/suite/yaml.test.ts:61-64 | trailing spaces on the closing line are ignored |
| YamlHandler.NoOpeningFence | src/compilation_tools/yamlHandler.ts:14-16 | text not opening with `---` after leading whitespace has no front matter |
| CompileMarkdown.ResolveFilePath | src/compilation_tools/compileMarkdown.ts:58-65 | an absolute path is kept; with an absolute working directory the result is absolute |
| CompileMarkdown.BuildPandocConfig | src/compilation_tools/compileMarkdown.ts:68-100 | the merged lists are always present, and a truthy reference document ends up absolute |
| CompileMarkdown.MergedListsConcatenate | src/compilation_tools/compileMarkdown.ts:81-88 | merged `filters` and `options` are the default lists followed by the user's, each in its own order |
| CompileMarkdown.UserScalarsOverride | src/compilation_tools/compileMarkdown.ts:77-79 | a key the user sets replaces the default, and a key the user omits keeps it |
| CompileMarkdown.MissingUserSectionGivesDefaults | src/compilation_tools/compileMarkdown.ts:73-74 | a missing user section contributes nothing |
| CompileMarkdown.UnknownFormatUsesUserOnly | src/compilation_tools/compileMarkdown.ts:73 | an unknown format takes empty defaults, so only the user's section counts |
| CompileMarkdown.ReferenceDocResolved | src/compilation_tools/compileMarkdown.ts:92-97 | a relative `reference-doc` is resolved under the source document's directory |
| CompileMarkdown.BuildPandocCommand | src/compilation_tools/compileMarkdown.ts:103-160 | the successive pushes and the filter loop produce the command parts in order, joined by spaces |
| CompileMarkdown.PushFilters | src/compilation_tools/compileMarkdown.ts:128-131 | the filter loop appends `--filter <name>` for each filter |
| CompileMarkdown.FilterArgsShape | src/compilation_tools/compileMarkdown.ts:128-131 | the filter arguments alternate `--filter` and the names, in list order |
| CompileMarkdown.CommandShape | src/compilation_tools/compileMarkdown.ts:109-159 | the command starts with `pandoc` and then the options in order; `--citeproc` stands right after the filters; the command ends with the quoted input, `-o` and the quoted output |
| CompileMarkdown.CiteprocOnce | src/compilation_tools/compileMarkdown.ts:133-134 | `--citeproc` is added exactly once; any other occurrence comes from the user's own options or filters |
| CompileMarkdown.StandaloneOnlyForHtml | src/compilation_tools/compileMarkdown.ts:137-140 | the builder adds `-s` only for html with `standalone`; for other formats `-s` comes only from the options |
| CompileMarkdown.SelfContainedOnlyForHtml | src/compilation_tools/compileMarkdown.ts:141-143 | `--self-contained` is added only for html with `self-contained` set |
| CompileMarkdown.PdfEngineOnlyForPdf | src/compilation_tools/compileMarkdown.ts:116-119 | a `--pdf-engine=` argument is added only for pdf with an engine |
| CompileMarkdown.ReferenceDocOnlyForDocx | src/compilation_tools/compileMarkdown.ts:121-125 | a `--reference-doc=` argument is added only for docx with a reference document |
| CompileMarkdown.DefaultPdfCommand | src/compilation_tools/compileMarkdown.ts:23-31 | the default pdf command uses xelatex and the `pandoc-xnos` filter |
| CompileMarkdown.DefaultHtmlCommand | src/compilation_tools/compileMarkdown.ts:39-45 | the default html command is standalone through `-s` after `--citeproc` |
| Preprocessor.PreprocessWithoutHome | src/utils/preprocessor.ts:3-6 | text without `$HOME` comes back unchanged |
| Preprocessor.PreprocessFirstHome | src/utils/preprocessor.ts:3-6 | the first `$HOME` is replaced by the home path and the scan resumes right after it, so every occurrence is replaced, left to right |
| Preprocessor.CommentEnd | src/utils/preprocessor.ts:9 | a comment ends at the first `}}` after its opening, with no line terminator and no other `}}` before it |
| Preprocessor.RemoveCurlyBracketComments | src/utils/preprocessor.ts:8-10 | removing comments never lengthens the text |
| Preprocessor.RemoveCommentsWithoutOpen | src/utils/preprocessor.ts:8-10 | text without `{{` comes back unchanged |
| Preprocessor.CommentEndAt | src/utils/preprocessor.ts:9 | the lazy scan stops at the first `}}` when no line terminator comes before it |
| Preprocessor.RemoveFirstComment | src/utils/preprocessor.ts:8-10 | with no `{{` before it, the first comment closed on its line is deleted and the scan resumes right after it |
| Preprocessor.CommentEndNone | src/utils/preprocessor.ts:9 | the lazy scan finds no comment end when no `}}` starts before the next line terminator or the end of the text |
| Preprocessor.RemoveCommentsWithoutClose | src/utils/preprocessor.ts:8-10 | text without `}}` comes back unchanged |
| Preprocessor.RemoveLineWithoutClose | src/utils/preprocessor.ts:8-10 | a line without `}}` is kept whole with its line terminator, and the scan resumes on the next line |
| Preprocessor.RemovePlainPrefix | src/utils/preprocessor.ts:8-10 | text without `{{` before a `{` is copied ahead of the rewrite of what follows |
| Preprocessor.UnclosedLine | src/utils/preprocessor.ts:9 | a `{{` followed on its line by text without `}}` leaves a line with no `}}` and no line terminator |
| Preprocessor.RemoveUnclosedComment | src/utils/preprocessor.ts:8-10 | with no `{{` before it, a first `{{` that no `}}` closes on its line is kept with the rest of its line and the scan resumes on the next line; with `RemoveFirstComment` and `RemoveUnclosedAtEnd` every input is covered, so every comment, left to right, is removed |
| Preprocessor.RemoveUnclosedAtEnd | src/utils/preprocessor.ts:8-10 | with no `{{` before it, a first `{{` on the last line with no `}}` after it is kept, with the rest of the text |
| Preprocessor.RemoveCommentsExample | src/utils/preprocessor.ts:9 | each comment is the shortest `{{…}}`: `{{a}}b{{c}}` becomes `b` |
| Preprocessor.RemoveCommentsSingleLine | src/utils/preprocessor.ts:9 | a comment cannot span lines |
| PlaintextHelpers.RemoveNewlines | src/utils/plaintextHelpers.ts:9 | newline removal keeps the length and turns exactly the `\n` characters into spaces |
| PlaintextHelpers.RemoveNewlinesLeavesNone | src/utils/plaintextHelpers.ts:9 | no `\n` is left |
| PlaintextHelpers.RemoveNewlinesIdempotent | src/utils/plaintextHelpers.ts:9 | removing newlines twice is removing them once |
| PlaintextHelpers.Anonymize | src/utils/plaintextHelpers.ts:20 | anonymising keeps the length, maps each `[A-Za-z0-9_]` character to `_`, and leaves every other character unchanged |
| PlaintextHelpers.AnonymizeLeavesNoLetters | src/utils/plaintextHelpers.ts:20 | no ASCII letter or digit is left |
| PlaintextHelpers.AnonymizeIdempotent | src/utils/plaintextHelpers.ts:20 | anonymising twice is anonymising once |

## Left out

- VS Code user interfaces are not modelled: completion-item kinds, the quick pick and citation browser (`provide`/`browser` in `citation.ts`), the hover provider and log messages. The duplicate-key message is returned as a value instead of being shown.
- The chokidar watcher's asynchronous event delivery, its options, and `unwatch` are not modelled. The watcher's `change` and `unlink` events are explicit method calls on the manager.
- The BibTeX parser, `JSON.parse`, js-yaml `load`/`loadAll` and `fs.readFileSync` are outside the model.
  - They are parameters, and `None` stands for a throw.
  - A YAML `bibliography` value is a string or a list of strings. Other YAML values are not modelled.
- BibTeX field values are a string or an array of string parts. Other value forms of the syntax tree are not modelled.
- `Citation.Prop`: an allow-listed `author`, `editor` or `issued` is never copied by the BibJSON copy loop, because the model keeps those properties only as name lists and a date list, not as strings. A BibJSON element without a string `id` is not modelled.
- Citation.EditorOnlyWithoutAuthor: the lemma requires `editor` not to be allow-listed. With `editor` in `CitationFormat`, the copy loop at citation.ts:246-251 sets `fields.editor` to the raw editor array even when there is an author list; the model keeps name lists only as lists (see `Citation.Prop`), so that case is not stated.
- Citation.Duplicates: the count object is modelled as a map from every key, so `Citation.Duplicates`, `Citation.DuplicateNotice` and the notice of `Citation.Citation.UpdateAll` differ from the source for two kinds of key. A key named after an `Object.prototype` member (`toString`, `constructor`, …) starts from the inherited function, its count becomes a string, and the source never lists it; `__proto__` is never stored at all. Integer-like keys are listed first by `Object.keys`, in ascending order, while the model lists every key in order of first occurrence.
- Citation.Citation.ParseBibjsonFile: an element whose conversion throws is not modelled: an `author` or `editor` that is truthy but not an array, or a `null` name element. The source then keeps the items pushed for the earlier elements in the slot and the exception leaves `parseBibFile`; the model's `JsonEntry` cannot hold such an element.
- `Citation.Citation.UpdateAll`: the optional `bibFiles` argument of `updateAll` is not modelled, because its callers never pass it. Object keys are in insertion order. JavaScript's ordering of integer-like keys first is not modelled.
- `fs.existsSync` is membership in the file map. It does not distinguish directories from files.
- `path.*` is modelled on POSIX paths. `Paths.Resolve` takes the working directory as a parameter.
- Paths.Collapse: `.` and `..` segments are not resolved; only repeated separators are collapsed. A source spelled with such segments is watched under that spelling, not under the one Node's normalisation gives.
- Manager.RootSourcesUnderRootDir: the prefix is only stated for `bibliography` entries without a `..` segment, because Node's normalisation of such an entry can climb out of the root file's directory.
- Crossref.FigItemMeaning: the link is only stated to lie under the document's directory for an image path without a `..` segment, for the same reason.
- Crossref.Parse: the `eq` kind is parsed by the corrected `EqItem`, not by `parseEq` as written at crossref.ts:271-276 (see Findings). The behaviour as written is `Crossref.EqItemAsWritten`, and `Crossref.EqAsWrittenAgrees` shows the two differ only where the corrected parser gives no item.
- Crossref.ParseLine: dispatches `eq` to the corrected `EqItem`, as `Crossref.Parse` does.
- Crossref.CollectFull: the items of `eq` matches come from the corrected `EqItem`, as in `Crossref.Parse`.
- Crossref.FullProvide: the items of `eq` matches come from the corrected `EqItem`, as in `Crossref.Parse`.
- Crossref.Crossref.Provide: the items of `eq` matches come from the corrected `EqItem`, as in `Crossref.Parse`.
- Paths.Resolve: the trailing separator that `path.resolve` drops is kept.
- Paths.Basename: trailing separators are not skipped as `path.basename` skips them, so neither is the extension of `a.bib/` taken. `Paths.Extname` of a base name `..` is `.`, where Node gives the empty string; neither is `.bib` or `.json`, so the parse dispatch is the same.
- JsString: strings are sequences of Unicode code points. JavaScript indexes UTF-16 code units, so for text with characters outside the Basic Multilingual Plane every index, length and window differs from the source's: the 800-character windows of `Crossref.PreviewStart` and `Crossref.EquationAt`, the match indices of `CrossrefRegex` and every `substring` bound. UTF-16 indexing is not modelled.
- `Lower` and `Capitalise` map ASCII letters only. Case mapping beyond ASCII is not modelled.
- `Preprocessor.PreprocessMarkdown`: `$`-patterns in the home path (`$&`, `$1`) are inserted literally, which is not what `String.prototype.replace` would do with them. The home path is a parameter (`os.homedir()`).
- CompileMarkdown.BuildPandocConfig: the user's `pandoc.<format>` section is taken at its declared types, with an absent key as `None`. Other YAML values, which the spread at compileMarkdown.ts:77-88 treats differently, are not modelled: an explicit `engine: null` that overrides `xelatex` (so no `--pdf-engine` is emitted), a string `filters` or `options` that is spread into single characters, and a truthy non-boolean switch such as `standalone: "no"` that adds `-s`.
- Pandoc detection, running pandoc, temporary files and the save dialog (the body of the compile command) are not modelled, because they are process and user-interface glue. `parseYamlFromDocument` is not modelled either, because it only reads the document text.
- The configuration reads (`CitationFormat`, `RootFile`, `UseDefaultBib`, `DefaultBib`, `DefaultBibs`, `ForgetUnusedBib`) and the crossref `mode` are parameters.
- `extension.ts`, `apiHandler.ts`, `keyHandler.ts` and `hover.ts` are not part of this model.
- The model follows the code as written in these places:
  - `parseBibtexFile` and `parseBibjsonFile` empty the slot before reading. A file whose read or parse throws therefore leaves an empty slot, not the old entries.
  - Section and table captions keep the spaces before their `{`, because the greedy `(.*)` takes them before `\s*` can.
  - The table preview's first newline found is the second half of the blank line. The loop then shows the header, the separator line and two rows.
- The model corrects the code in these places (see Findings):
  - `findBib` records the path before the extension fallback in its found list. The manager method `Manager.Manager.FindBib` uses the corrected found list, the watched paths. The behaviour as written is `Manager.FindBibAsWritten`.
  - `parseEq` accepts a window without `$$` once the window starts past 0. The provider uses the corrected `EqItem`; the behaviour as written is `Crossref.EqItemAsWritten`.

## Findings

| source | as written | input that shows it | evidently intended | confidence | as-written member | corrected member |
|---|---|---|---|---|---|---|
| src/features/citations/components/manager.ts:99 | `foundFiles` receives the source path before the `.json`/`.bib` fallback, while `watched` receives the path after it. The diff at lines 199-206 then forgets every watched path missing from `foundFiles`. | `ForgetUnusedBib` set; the document `/w/doc.md` contains the line `bibliography: [refs]`; only `/w/refs.bib` exists. The pass adds `/w/refs.bib`, then forgets it, because only `/w/refs` was found. | A source found through the fallback stays watched: the found list records the paths actually watched. | high — not executed | Manager.FindBibAsWritten, Manager.AsWrittenForgetsFallbackSource, Manager.FallbackForgottenExample | Manager.FindBibSpec, Manager.FindBibKeepsFoundSources, Manager.Manager.FindBib |
| src/features/citations/providers/completer/crossref.ts:271-276 | `begin` is `lastIndexOf` in the 800-character window plus `searchStart`, and the guard is `begin < 0`. Once `searchStart > 0`, a `-1` from `lastIndexOf` gives `begin = searchStart - 1`, which is never negative. | A `$${#eq:a}` line more than 800 characters into a document with no `$$` in the 800 characters before it. The parser returns an item whose documentation is the 799 characters before the line, although there is no opening `$$`. | With no `$$` in the window there is no equation item, as when the window starts at 0. | high — not executed | Crossref.EqItemAsWritten, Crossref.EquationAtAsWritten, Crossref.EquationAtAsWrittenStray | Crossref.EqItem, Crossref.EquationAt, Crossref.EquationAtMeaning, Crossref.EqItemMeaning |
