/**
 * The bibliography-source manager: discovery of the sources a Markdown
 * document names (an inline `bibliography: [...]` line, the YAML front
 * matter, a configured root file, configured default sources), the
 * `.json`/`.bib` extension fallback, the list of watched paths, and the
 * watcher events that re-parse or evict a source in the citation store.
 *
 * `fs.existsSync(p)` is `p in env.files`; the YAML loader is a function
 * parameter whose result `None` stands for a throwing load.
 */
module Manager {
  import opened Wrappers
  import opened JsString
  import Paths
  import Lists
  import Citation

  /** A JavaScript string is truthy when it is defined and not empty. */
  predicate Given(o: Option<string>) {
    o.Some? && o.value != ""
  }

  // ---------------------------------------------------------------------
  // Path helpers
  // ---------------------------------------------------------------------

  /**
   * `stripQuotes`: when the first and the last character are the same quote
   * (`"` or `'`), both are dropped (`slice(1, -1)`, which turns a lone quote
   * into the empty string); anything else, the empty string included, is
   * returned as it is.
   */
  function StripQuotes(s: string): (r: string)
    ensures r == s || (|s| >= 2 && r == s[1..|s| - 1]) || (|s| == 1 && r == "")
    ensures r != s ==> s[0] == s[|s| - 1] && (s[0] == '"' || s[0] == '\'')
  {
    if |s| > 0 && s[0] == s[|s| - 1] && (s[0] == '"' || s[0] == '\'') then
      (if |s| >= 2 then s[1..|s| - 1] else "")
    else s
  }

  /** Quoting a path and stripping the quotes gives the path back. */
  lemma StripQuotesInverse(x: string, q: char)
    requires q == '"' || q == '\''
    ensures StripQuotes([q] + x + [q]) == x
  {
    var s := [q] + x + [q];
    assert s[0] == q && s[|s| - 1] == q;
    assert s[1..|s| - 1] == x;
  }

  /** A string that does not start with a quote is returned unchanged. */
  lemma StripQuotesUnquoted(s: string)
    requires s == "" || (s[0] != '"' && s[0] != '\'')
    ensures StripQuotes(s) == s
  {
  }

  /**
   * `resolveBibFile`: an absolute path is kept; otherwise it is resolved
   * under the workspace root folder when there is one, else under the
   * directory of the active editor's document, else under the working
   * directory.
   */
  function ResolveBibFile(bibFile: string, rootFolder: Option<string>, editorFile: Option<string>, cwd: string): (r: string)
    ensures Paths.IsAbsolute(bibFile) ==> r == bibFile
    ensures Paths.IsAbsolute(cwd) ==> Paths.IsAbsolute(r)
  {
    if Paths.IsAbsolute(bibFile) then bibFile
    else if Given(rootFolder) then Paths.ResolveFromCwd(cwd, Paths.Join(rootFolder.value, bibFile))
    else if editorFile.None? then Paths.ResolveFromCwd(cwd, bibFile)
    else Paths.Resolve(cwd, Paths.Dirname(editorFile.value), bibFile)
  }

  /**
   * The resolution order: a relative path lands under the (normalised) root
   * folder when one is given, else under the document's directory, else
   * under the working directory (each assumed absolute); resolving again
   * changes nothing.
   */
  lemma ResolveBibFileOrder(bibFile: string, rootFolder: Option<string>, editorFile: Option<string>, cwd: string)
    requires !Paths.IsAbsolute(bibFile) && Paths.IsAbsolute(cwd)
    ensures var r := ResolveBibFile(bibFile, rootFolder, editorFile, cwd);
      && (Given(rootFolder) && Paths.IsAbsolute(rootFolder.value) ==> StartsWith(r, Paths.Collapse(rootFolder.value)))
      && (!Given(rootFolder) && editorFile.Some? && Paths.IsAbsolute(editorFile.value) ==>
            StartsWith(r, Paths.Collapse(Paths.Dirname(editorFile.value))))
      && (!Given(rootFolder) && editorFile.None? ==> StartsWith(r, Paths.Collapse(cwd)))
      && ResolveBibFile(r, rootFolder, editorFile, cwd) == r
  {
    if Given(rootFolder) {
      Paths.JoinUnder(rootFolder.value, bibFile);
    } else if editorFile.None? {
      Paths.JoinUnder(cwd, bibFile);
    } else if Paths.IsAbsolute(editorFile.value) {
      Paths.JoinUnder(Paths.Dirname(editorFile.value), bibFile);
    } else {
      var j := Paths.Join(Paths.Dirname(editorFile.value), bibFile);
      if !Paths.IsAbsolute(j) {
        Paths.JoinUnder(cwd, j);
      }
    }
  }

  /**
   * The extension fallback of `addBibToWatcher`: the path itself when it
   * exists, else the path with `.json` when that exists, else with `.bib`
   * when that exists, else the path itself.
   */
  function Fallback(existing: set<string>, p: string): (r: string)
    ensures r == p || r == p + ".json" || r == p + ".bib"
    ensures r in existing <==> p in existing || p + ".json" in existing || p + ".bib" in existing
  {
    if p in existing then p
    else if p + ".json" in existing then p + ".json"
    else if p + ".bib" in existing then p + ".bib"
    else p
  }

  // ---------------------------------------------------------------------
  // The watcher state as a value
  // ---------------------------------------------------------------------

  /** The manager's state: the watched paths, whether the watcher exists, and the citation store. */
  datatype WatchState = WatchState(watched: seq<string>, created: bool, store: Citation.Store)

  /** No path is watched twice, and nothing is watched before the watcher is created. */
  predicate Inv(w: WatchState) {
    Lists.NoDups(w.watched) && (!w.created ==> w.watched == [])
  }

  /** The state after `addBibToWatcher(bibPath)`. */
  function Added(w: WatchState, bibPath: string, env: Citation.Env): WatchState {
    var p := Fallback(env.files.Keys, bibPath);
    if p !in env.files then w
    else if !w.created then WatchState(w.watched + [p], true, Citation.Reparse(w.store, p, env))
    else if p !in w.watched then WatchState(w.watched + [p], true, Citation.Reparse(w.store, p, env))
    else w
  }

  /**
   * What adding does: a path that is still missing after the fallback changes
   * nothing, an already watched path changes nothing, and an existing new path
   * is appended once and parsed once; no path is ever watched twice.
   */
  lemma AddedMeaning(w: WatchState, bibPath: string, env: Citation.Env)
    requires Inv(w)
    ensures var p, r := Fallback(env.files.Keys, bibPath), Added(w, bibPath, env);
      && Inv(r)
      && (p !in env.files ==> r == w)
      && (p in env.files && p in w.watched ==> r == w)
      && (p in env.files && p !in w.watched ==>
            && r.watched == w.watched + [p]
            && Lists.Count(r.watched, p) == 1
            && r.created
            && r.store == Citation.Reparse(w.store, p, env))
  {
    var p := Fallback(env.files.Keys, bibPath);
    if p in env.files && p !in w.watched {
      Lists.SnocNoDups(w.watched, p);
      assert (w.watched + [p])[..|w.watched|] == w.watched;
    }
  }

  /** `AddedMeaning` for the watched list alone. */
  lemma AddedWatched(w: WatchState, bibPath: string, env: Citation.Env)
    requires Inv(w)
    ensures var p, r := Fallback(env.files.Keys, bibPath), Added(w, bibPath, env);
      && Inv(r)
      && (p !in env.files ==> r.watched == w.watched)
      && (p in env.files && p in w.watched ==> r.watched == w.watched)
      && (p in env.files && p !in w.watched ==> r.watched == w.watched + [p])
  {
    AddedMeaning(w, bibPath, env);
  }

  /** The state after adding each path of `ps` in turn. */
  function AddAll(w: WatchState, ps: seq<string>, env: Citation.Env): WatchState
    decreases |ps|
  {
    if ps == [] then w else Added(AddAll(w, ps[..|ps| - 1], env), ps[|ps| - 1], env)
  }

  /** The paths `addBibToWatcher` settles on for each of `ps`. */
  function Resolved(existing: set<string>, ps: seq<string>): (r: seq<string>)
    ensures |r| == |ps|
    ensures forall i :: 0 <= i < |ps| ==> r[i] == Fallback(existing, ps[i])
  {
    seq(|ps|, i requires 0 <= i < |ps| => Fallback(existing, ps[i]))
  }

  lemma {:induction false} AddAllAppend(w: WatchState, a: seq<string>, b: seq<string>, env: Citation.Env)
    ensures AddAll(w, a + b, env) == AddAll(AddAll(w, a, env), b, env)
    decreases |b|
  {
    if b == [] {
      assert a + b == a;
    } else {
      assert (a + b)[..|a + b| - 1] == a + b[..|b| - 1];
      AddAllAppend(w, a, b[..|b| - 1], env);
    }
  }

  /** Adding a list of paths keeps the invariant and only appends to the watched list. */
  lemma {:induction false} AddAllPrefix(w: WatchState, ps: seq<string>, env: Citation.Env)
    requires Inv(w)
    ensures var r := AddAll(w, ps, env);
      Inv(r) && |w.watched| <= |r.watched| && r.watched[..|w.watched|] == w.watched
    decreases |ps|
  {
    if ps != [] {
      var init := ps[..|ps| - 1];
      AddAllPrefix(w, init, env);
      var m := AddAll(w, init, env);
      AddedWatched(m, ps[|ps| - 1], env);
      var r := AddAll(w, ps, env);
      assert r.watched[..|m.watched|] == m.watched;
      assert r.watched[..|w.watched|] == m.watched[..|w.watched|];
    }
  }

  /**
   * Adding a list of paths keeps the invariant, only appends to the watched
   * list, appends only existing resolved paths, and leaves every existing
   * resolved path watched.
   */
  lemma AddAllMeaning(w: WatchState, ps: seq<string>, env: Citation.Env)
    requires Inv(w)
    ensures var r := AddAll(w, ps, env);
      && Inv(r)
      && |w.watched| <= |r.watched| && r.watched[..|w.watched|] == w.watched
      && (forall i :: |w.watched| <= i < |r.watched| ==>
            r.watched[i] in env.files && r.watched[i] in Resolved(env.files.Keys, ps))
      && (forall i :: 0 <= i < |ps| && Fallback(env.files.Keys, ps[i]) in env.files ==>
            Fallback(env.files.Keys, ps[i]) in r.watched)
  {
    AddAllGrows(w, ps, env);
    AddAllCovers(w, ps, env);
    assert forall i :: 0 <= i < |ps| ==> ps[i] in ps;
  }

  /** The first three parts of `AddAllMeaning`. */
  lemma {:induction false} AddAllGrows(w: WatchState, ps: seq<string>, env: Citation.Env)
    requires Inv(w)
    ensures var r := AddAll(w, ps, env);
      && Inv(r)
      && |w.watched| <= |r.watched| && r.watched[..|w.watched|] == w.watched
      && (forall i :: |w.watched| <= i < |r.watched| ==>
            r.watched[i] in env.files && r.watched[i] in Resolved(env.files.Keys, ps))
    decreases |ps|
  {
    if ps != [] {
      var init := ps[..|ps| - 1];
      AddAllGrows(w, init, env);
      var m := AddAll(w, init, env);
      var r := Added(m, ps[|ps| - 1], env);
      AddedWatched(m, ps[|ps| - 1], env);
      assert AddAll(w, ps, env) == r;
      GrowPrefix(w.watched, m.watched, r.watched, env.files.Keys, ps);
    }
  }

  /** The last part of `AddAllMeaning`: every existing resolved path ends up watched. */
  lemma {:induction false} AddAllCovers(w: WatchState, ps: seq<string>, env: Citation.Env)
    requires Inv(w)
    ensures var r := AddAll(w, ps, env);
      forall x :: x in ps && Fallback(env.files.Keys, x) in env.files ==> Fallback(env.files.Keys, x) in r.watched
    decreases |ps|
  {
    if ps != [] {
      var init := ps[..|ps| - 1];
      AddAllGrows(w, init, env);
      AddAllCovers(w, init, env);
      var m := AddAll(w, init, env);
      var r := Added(m, ps[|ps| - 1], env);
      AddedWatched(m, ps[|ps| - 1], env);
      assert AddAll(w, ps, env) == r;
      assert ps == init + [ps[|ps| - 1]];
      GrowCovers(m.watched, r.watched, env.files.Keys, init, ps[|ps| - 1]);
    }
  }

  /**
   * One step of `AddAllGrows` on the watched lists alone: `mw` grew from
   * `w0` by resolved existing paths of all but the last of `ps`, and `rw`
   * is `mw` with the last resolved path appended when it exists and is new.
   */
  lemma GrowPrefix(w0: seq<string>, mw: seq<string>, rw: seq<string>, files: set<string>, ps: seq<string>)
    requires ps != []
    requires |w0| <= |mw| && mw[..|w0|] == w0
    requires forall i :: |w0| <= i < |mw| ==> mw[i] in files && mw[i] in Resolved(files, ps[..|ps| - 1])
    requires var p := Fallback(files, ps[|ps| - 1]);
      && (p !in files ==> rw == mw)
      && (p in files && p in mw ==> rw == mw)
      && (p in files && p !in mw ==> rw == mw + [p])
    ensures |w0| <= |rw| && rw[..|w0|] == w0
    ensures forall i :: |w0| <= i < |rw| ==> rw[i] in files && rw[i] in Resolved(files, ps)
  {
    var init, p := ps[..|ps| - 1], Fallback(files, ps[|ps| - 1]);
    assert rw[..|mw|] == mw;
    assert rw[..|w0|] == mw[..|w0|];
    forall i | |w0| <= i < |rw|
      ensures rw[i] in files && rw[i] in Resolved(files, ps)
    {
      if i < |mw| {
        assert rw[i] == mw[i];
        assert Resolved(files, init) == Resolved(files, ps)[..|init|];
      } else {
        assert rw[i] == p;
        assert Resolved(files, ps)[|ps| - 1] == p;
      }
    }
  }

  /** One step of `AddAllCovers` on the watched lists alone. */
  lemma GrowCovers(mw: seq<string>, rw: seq<string>, files: set<string>, init: seq<string>, last: string)
    requires forall x :: x in init && Fallback(files, x) in files ==> Fallback(files, x) in mw
    requires var p := Fallback(files, last);
      && (p !in files ==> rw == mw)
      && (p in files && p in mw ==> rw == mw)
      && (p in files && p !in mw ==> rw == mw + [p])
    ensures forall x :: x in init + [last] && Fallback(files, x) in files ==> Fallback(files, x) in rw
  {
    var p := Fallback(files, last);
    forall x | x in init + [last] && Fallback(files, x) in files
      ensures Fallback(files, x) in rw
    {
      if x in init {
        var k :| 0 <= k < |mw| && mw[k] == Fallback(files, x);
        assert rw[k] == mw[k];
      } else if p !in mw {
        assert rw[|mw|] == p;
      }
    }
  }

  /**
   * Whether `addBibToWatcher(bibPath)` throws: the path after the fallback
   * exists and is new, so it is pushed onto the watched list and parsed, and
   * that parse throws; nothing in `addBibToWatcher` catches it.
   */
  predicate AddThrows(w: WatchState, bibPath: string, env: Citation.Env) {
    var p := Fallback(env.files.Keys, bibPath);
    p in env.files && (!w.created || p !in w.watched) && Citation.ParseThrows(p, env)
  }

  /** Adding a group of paths in turn: the state reached, how many calls returned, and whether the next call threw. */
  datatype Run = Run(state: WatchState, completed: nat, threw: bool)

  /**
   * The paths of `ps` added in turn until an add throws. The throwing add
   * still leaves its path watched and its slot emptied (the push and the
   * slot reset come before the parse); no later path is added.
   */
  function AddUntilThrow(w: WatchState, ps: seq<string>, env: Citation.Env): (r: Run)
    decreases |ps|
    ensures r.completed <= |ps|
    ensures r.threw ==> r.completed < |ps|
    ensures !r.threw ==> r.completed == |ps|
  {
    if ps == [] then Run(w, 0, false)
    else
      var m := AddUntilThrow(w, ps[..|ps| - 1], env);
      if m.threw then m
      else
        var t := AddThrows(m.state, ps[|ps| - 1], env);
        Run(Added(m.state, ps[|ps| - 1], env), if t then |ps| - 1 else |ps|, t)
  }

  /** The add of `ps[i]`, after the adds of the paths before it, throws. */
  predicate ThrowsAt(w: WatchState, ps: seq<string>, i: nat, env: Citation.Env)
    requires i < |ps|
  {
    AddThrows(AddAll(w, ps[..i], env), ps[i], env)
  }

  /**
   * What a run does: the state is that of adding the attempted paths (the
   * completed ones and, after a throw, the throwing one); none of the
   * completed adds threw, and after a throw the next add is the one that threw.
   */
  lemma AddUntilThrowMeaning(w: WatchState, ps: seq<string>, env: Citation.Env)
    ensures var r := AddUntilThrow(w, ps, env);
      && r.state == AddAll(w, ps[..if r.threw then r.completed + 1 else r.completed], env)
      && (forall i: nat :: i < r.completed ==> !ThrowsAt(w, ps, i, env))
      && (r.threw ==> ThrowsAt(w, ps, r.completed, env))
  {
    AddUntilThrowState(w, ps, env);
    AddUntilThrowThrows(w, ps, env);
  }

  /** The state part of `AddUntilThrowMeaning`. */
  lemma {:induction false} AddUntilThrowState(w: WatchState, ps: seq<string>, env: Citation.Env)
    ensures var r := AddUntilThrow(w, ps, env);
      r.state == AddAll(w, ps[..if r.threw then r.completed + 1 else r.completed], env)
    decreases |ps|
  {
    if ps != [] {
      var init := ps[..|ps| - 1];
      AddUntilThrowState(w, init, env);
      var m := AddUntilThrow(w, init, env);
      if m.threw {
        assert AddUntilThrow(w, ps, env) == m;
        assert init[..m.completed + 1] == ps[..m.completed + 1];
      } else {
        var r := AddUntilThrow(w, ps, env);
        assert r.state == Added(m.state, ps[|ps| - 1], env);
        assert init[..m.completed] == init;
        assert ps[..if r.threw then r.completed + 1 else r.completed] == ps;
        assert AddAll(w, ps, env) == Added(AddAll(w, init, env), ps[|ps| - 1], env);
      }
    }
  }

  /** Taking a prefix of the paths does not change whether an earlier add throws. */
  lemma ThrowsAtPrefix(w: WatchState, ps: seq<string>, k: nat, i: nat, env: Citation.Env)
    requires i < k <= |ps|
    ensures ThrowsAt(w, ps[..k], i, env) == ThrowsAt(w, ps, i, env)
  {
    assert ps[..k][..i] == ps[..i] && ps[..k][i] == ps[i];
  }

  /** The throwing part of `AddUntilThrowMeaning`. */
  lemma AddUntilThrowThrows(w: WatchState, ps: seq<string>, env: Citation.Env)
    ensures var r := AddUntilThrow(w, ps, env);
      && (forall i: nat :: i < r.completed ==> !ThrowsAt(w, ps, i, env))
      && (r.threw ==> ThrowsAt(w, ps, r.completed, env))
  {
    var r := AddUntilThrow(w, ps, env);
    forall i: nat | i < r.completed
      ensures !ThrowsAt(w, ps, i, env)
    {
      AddUntilThrowNone(w, ps, i, env);
    }
    if r.threw {
      AddUntilThrowAt(w, ps, env);
    }
  }

  /** No completed add of a run threw. */
  lemma {:induction false} AddUntilThrowNone(w: WatchState, ps: seq<string>, i: nat, env: Citation.Env)
    requires i < AddUntilThrow(w, ps, env).completed
    ensures !ThrowsAt(w, ps, i, env)
    decreases |ps|
  {
    var init := ps[..|ps| - 1];
    var m := AddUntilThrow(w, init, env);
    if i < m.completed {
      AddUntilThrowNone(w, init, i, env);
      ThrowsAtPrefix(w, ps, |init|, i, env);
    } else {
      assert !m.threw && i == |init|;
      AddUntilThrowState(w, init, env);
      assert init[..m.completed] == init;
      assert !AddThrows(m.state, ps[|ps| - 1], env);
    }
  }

  /** A run that threw stopped at the add that threw. */
  lemma {:induction false} AddUntilThrowAt(w: WatchState, ps: seq<string>, env: Citation.Env)
    requires AddUntilThrow(w, ps, env).threw
    ensures ThrowsAt(w, ps, AddUntilThrow(w, ps, env).completed, env)
    decreases |ps|
  {
    var init := ps[..|ps| - 1];
    var m := AddUntilThrow(w, init, env);
    if m.threw {
      AddUntilThrowAt(w, init, env);
      ThrowsAtPrefix(w, ps, |init|, m.completed, env);
    } else {
      AddUntilThrowState(w, init, env);
      assert init[..m.completed] == init;
      assert AddThrows(m.state, ps[|ps| - 1], env);
    }
  }

  /** One more path after a run that has not thrown: the next add decides. */
  lemma AddUntilThrowSnoc(w: WatchState, ps: seq<string>, i: nat, m: WatchState, env: Citation.Env)
    requires i < |ps| && AddUntilThrow(w, ps[..i], env) == Run(m, i, false)
    ensures var t := AddThrows(m, ps[i], env);
      AddUntilThrow(w, ps[..i + 1], env) == Run(Added(m, ps[i], env), if t then i else i + 1, t)
  {
    assert ps[..i + 1][..i] == ps[..i];
  }

  /** `AddUntilThrowSnoc` and `AddUntilThrowStops` together: the next add either throws, which ends the run, or extends it. */
  lemma AddUntilThrowNext(w: WatchState, ps: seq<string>, i: nat, m: WatchState, env: Citation.Env)
    requires i < |ps| && AddUntilThrow(w, ps[..i], env) == Run(m, i, false)
    ensures AddThrows(m, ps[i], env) ==> AddUntilThrow(w, ps, env) == Run(Added(m, ps[i], env), i, true)
    ensures !AddThrows(m, ps[i], env) ==> AddUntilThrow(w, ps[..i + 1], env) == Run(Added(m, ps[i], env), i + 1, false)
  {
    AddUntilThrowSnoc(w, ps, i, m, env);
    if AddThrows(m, ps[i], env) {
      AddUntilThrowStops(w, ps, i + 1, env);
    }
  }

  /** Once a run has thrown, more paths after it change nothing. */
  lemma {:induction false} AddUntilThrowStops(w: WatchState, ps: seq<string>, k: nat, env: Citation.Env)
    requires k <= |ps| && AddUntilThrow(w, ps[..k], env).threw
    ensures AddUntilThrow(w, ps, env) == AddUntilThrow(w, ps[..k], env)
    decreases |ps|
  {
    if k < |ps| {
      assert ps[..|ps| - 1][..k] == ps[..k];
      AddUntilThrowStops(w, ps[..|ps| - 1], k, env);
    } else {
      assert ps[..k] == ps;
    }
  }

  /** No parse of any of `ps` throws, once the fallback is applied. */
  predicate Clean(env: Citation.Env, ps: seq<string>) {
    forall x :: x in ps ==> !Citation.ParseThrows(Fallback(env.files.Keys, x), env)
  }

  /** Without a throwing parse, a run adds every path. */
  lemma {:induction false} AddUntilThrowClean(w: WatchState, ps: seq<string>, env: Citation.Env)
    requires Clean(env, ps)
    ensures AddUntilThrow(w, ps, env) == Run(AddAll(w, ps, env), |ps|, false)
    decreases |ps|
  {
    if ps != [] {
      var init := ps[..|ps| - 1];
      assert forall x :: x in init ==> x in ps;
      AddUntilThrowClean(w, init, env);
      assert ps[|ps| - 1] in ps;
    }
  }

  /** A run keeps the invariant and only appends to the watched list. */
  lemma RunGrows(w: WatchState, ps: seq<string>, env: Citation.Env)
    requires Inv(w)
    ensures var r := AddUntilThrow(w, ps, env);
      Inv(r.state) && |w.watched| <= |r.state.watched| && r.state.watched[..|w.watched|] == w.watched
  {
    var r := AddUntilThrow(w, ps, env);
    AddUntilThrowState(w, ps, env);
    AddAllPrefix(w, ps[..if r.threw then r.completed + 1 else r.completed], env);
  }

  /**
   * A run from a state satisfying the invariant keeps it, only appends to the
   * watched list, and leaves watched every existing path that a completed
   * add settled on.
   */
  lemma RunMeaning(w: WatchState, ps: seq<string>, env: Citation.Env)
    requires Inv(w)
    ensures var r := AddUntilThrow(w, ps, env);
      && Inv(r.state)
      && |w.watched| <= |r.state.watched| && r.state.watched[..|w.watched|] == w.watched
      && (forall x :: x in Resolved(env.files.Keys, ps[..r.completed]) && x in env.files ==> x in r.state.watched)
  {
    var r := AddUntilThrow(w, ps, env);
    RunGrows(w, ps, env);
    forall x | x in Resolved(env.files.Keys, ps[..r.completed]) && x in env.files
      ensures x in r.state.watched
    {
      var i :| 0 <= i < r.completed && Resolved(env.files.Keys, ps[..r.completed])[i] == x;
      RunCovers(w, ps, i, env);
    }
  }

  /** The path a completed add settled on, when it exists, is watched after the run. */
  lemma RunCovers(w: WatchState, ps: seq<string>, i: nat, env: Citation.Env)
    requires Inv(w) && i < AddUntilThrow(w, ps, env).completed
    requires Fallback(env.files.Keys, ps[i]) in env.files
    ensures Fallback(env.files.Keys, ps[i]) in AddUntilThrow(w, ps, env).state.watched
  {
    var r := AddUntilThrow(w, ps, env);
    AddUntilThrowState(w, ps, env);
    var n := if r.threw then r.completed + 1 else r.completed;
    AddAllCovers(w, ps[..n], env);
    assert ps[..n][i] == ps[i];
  }

  /** A path watched before a run is still watched after it. */
  lemma RunKeeps(w: WatchState, ps: seq<string>, env: Citation.Env, x: string)
    requires Inv(w) && x in w.watched
    ensures x in AddUntilThrow(w, ps, env).state.watched
  {
    RunGrows(w, ps, env);
    var r := AddUntilThrow(w, ps, env);
    var k :| 0 <= k < |w.watched| && w.watched[k] == x;
    assert r.state.watched[k] == r.state.watched[..|w.watched|][k];
  }

  /** The state after a watcher `unlink` event, or after forgetting one unused path: `splice(indexOf(p), 1)`. */
  function Forget(w: WatchState, p: string): WatchState {
    WatchState(Lists.RemoveAt(w.watched, Lists.IndexOfValue(w.watched, p)), w.created, Citation.Evict(w.store, p))
  }

  /**
   * Forgetting a watched path removes exactly that path; forgetting a path
   * that is not watched drops the last watched path instead (the index is
   * `-1`). Either way the slot of `p` is evicted and no path is watched twice.
   */
  lemma ForgetMeaning(w: WatchState, p: string)
    requires Inv(w)
    ensures var r := Forget(w, p);
      && Inv(r)
      && r.store == Citation.Evict(w.store, p)
      && (p in w.watched ==> r.watched == Lists.Without(w.watched, p) && p !in r.watched)
      && (p !in w.watched && w.watched != [] ==> r.watched == w.watched[..|w.watched| - 1])
  {
    Lists.RemoveAtNoDups(w.watched, Lists.IndexOfValue(w.watched, p));
    if p in w.watched {
      Lists.RemoveAtIndexOf(w.watched, p);
    } else if w.watched != [] {
      Lists.RemoveAtMissing(w.watched, p);
    }
  }

  /** The state after forgetting each path of `ps` in turn. */
  function ForgetAll(w: WatchState, ps: seq<string>): WatchState
    decreases |ps|
  {
    if ps == [] then w else Forget(ForgetAll(w, ps[..|ps| - 1]), ps[|ps| - 1])
  }

  /**
   * Forgetting distinct watched paths removes exactly those paths from the
   * watched list and exactly their slots from the store.
   */
  lemma {:induction false} ForgetAllMeaning(w: WatchState, d: seq<string>)
    requires Inv(w) && Lists.NoDups(d)
    requires forall i :: 0 <= i < |d| ==> d[i] in w.watched
    ensures var r := ForgetAll(w, d);
      && Inv(r)
      && r.created == w.created
      && r.watched == Lists.DropIn(w.watched, d)
      && r.store.order == Lists.DropIn(w.store.order, d)
      && r.store.entries == w.store.entries - (set x | x in d)
    decreases |d|
  {
    if d == [] {
      Lists.DropInNone(w.watched);
      Lists.DropInNone(w.store.order);
    } else {
      var init, x := d[..|d| - 1], d[|d| - 1];
      Lists.NoDupsInit(d);
      assert forall i :: 0 <= i < |init| ==> init[i] == d[i];
      ForgetAllMeaning(w, init);
      assert d == init + [x];
      ForgetStep(w, init, x, ForgetAll(w, init));
    }
  }

  /** One step of `ForgetAllMeaning`: forgetting one more distinct watched path. */
  lemma ForgetStep(w: WatchState, init: seq<string>, x: string, m: WatchState)
    requires Inv(m) && m.created == w.created
    requires m.watched == Lists.DropIn(w.watched, init)
    requires m.store.order == Lists.DropIn(w.store.order, init)
    requires m.store.entries == w.store.entries - (set y | y in init)
    requires x in w.watched && x !in init
    ensures var r := Forget(m, x);
      && Inv(r)
      && r.created == w.created
      && r.watched == Lists.DropIn(w.watched, init + [x])
      && r.store.order == Lists.DropIn(w.store.order, init + [x])
      && r.store.entries == w.store.entries - (set y | y in init + [x])
  {
    Lists.DropInKeeps(w.watched, init, x);
    ForgetMeaning(m, x);
    Lists.WithoutDropIn(w.watched, init, x);
    Lists.WithoutDropIn(w.store.order, init, x);
    SetOfSnoc(init, x);
  }

  lemma SetOfSnoc(s: seq<string>, x: string)
    ensures (set y | y in s + [x]) == (set y | y in s) + {x}
  {
  }

  /** The forget-unused diff at the end of `findBib`. */
  function Diff(w: WatchState, found: seq<string>, forgetUnused: bool): WatchState {
    var unused := Lists.DropIn(w.watched, found);
    if forgetUnused && |unused| > 0 then ForgetAll(w, unused) else w
  }

  /**
   * With `ForgetUnusedBib`, exactly the watched paths absent from the found
   * list stop being watched and lose their slots; without it nothing changes.
   */
  lemma DiffMeaning(w: WatchState, found: seq<string>, forgetUnused: bool)
    requires Inv(w)
    ensures !forgetUnused ==> Diff(w, found, forgetUnused) == w
    ensures forgetUnused ==>
      var r := Diff(w, found, forgetUnused);
      && Inv(r)
      && r.watched == Lists.KeepIn(w.watched, found)
      && r.store.entries == w.store.entries - (set x | x in w.watched && x !in found)
  {
    var unused := Lists.DropIn(w.watched, found);
    Lists.DropInNoDups(w.watched, found);
    forall i | 0 <= i < |unused|
      ensures unused[i] in w.watched
    {
    }
    ForgetAllMeaning(w, unused);
    Lists.DropInComplement(w.watched, unused, found);
    assert (set x | x in unused) == (set x | x in w.watched && x !in found) by {
      forall x | x in w.watched && x !in found
        ensures x in unused
      {
        var k :| 0 <= k < |w.watched| && w.watched[k] == x;
      }
    }
  }

  // ---------------------------------------------------------------------
  // Discovery
  // ---------------------------------------------------------------------

  /** The active editor: the document's file name and text. */
  datatype Editor = Editor(fileName: string, text: string)

  /** The `nous` configuration keys `findBib` reads. */
  datatype Config = Config(
    rootFile: Option<string>,
    useDefaultBib: bool,
    defaultBib: Option<string>,
    defaultBibs: seq<string>,
    forgetUnusedBib: bool)

  /** The `bibliography` value of a YAML document. */
  datatype BibSetting = Unset | Single(path: string) | Several(paths: seq<string>)

  /** One loaded YAML document: a falsy value, or one whose `bibliography` is read. */
  datatype YamlDoc = Falsy | Mapping(bibliography: BibSetting)

  /**
   * The list `findBib` iterates over for a `loadAll` result: nothing when the
   * load threw, gave no document, a falsy first document or a falsy
   * `bibliography`; an array as it is; any other value as a one-element list.
   */
  function BibliographyEntries(loaded: Option<seq<YamlDoc>>): seq<string> {
    if loaded.None? || |loaded.value| == 0 then []
    else match loaded.value[0]
      case Falsy => []
      case Mapping(b) =>
        match b
        case Unset => []
        case Single(p) => if p == "" then [] else [p]
        case Several(ps) => ps
  }

  /** The regex `^` in multiline mode: the start of the text or just after a line terminator. */
  predicate LineStart(s: string, i: nat)
    requires i <= |s|
  {
    i == 0 || IsLineTerminator(s[i - 1])
  }

  /** `/^bibliography:\s*\[(.*)\]/m` tried at index `i`: the capture group, or `None`. */
  function InlineAt(s: string, i: nat): (r: Option<string>)
    requires i <= |s|
    ensures r.Some? <==>
      && LineStart(s, i) && OccursAt(s, "bibliography:", i)
      && var j := SpaceRunEnd(s, i + 13);
         j < |s| && s[j] == '[' && exists k :: j + 1 <= k < LineEnd(s, j + 1) && s[k] == ']'
    ensures r.Some? ==>
      var j := SpaceRunEnd(s, i + 13);
      var e := j + 1 + |r.value|;
      && e < LineEnd(s, j + 1) && s[j + 1..e] == r.value && s[e] == ']'
      && forall k :: e < k < LineEnd(s, j + 1) ==> s[k] != ']'
    ensures r.Some? ==> forall k :: 0 <= k < |r.value| ==> !IsLineTerminator(r.value[k])
  {
    if LineStart(s, i) && OccursAt(s, "bibliography:", i) then
      var j := SpaceRunEnd(s, i + 13);
      if j < |s| && s[j] == '[' then
        var e := LineEnd(s, j + 1);
        var k := LastIndexOfCharIn(s, ']', j + 1, e);
        if k >= 0 then Some(s[j + 1..k]) else None
      else None
    else None
  }

  /** The leftmost match at an index no smaller than `i`. */
  function InlineFrom(s: string, i: nat): (r: Option<string>)
    requires i <= |s|
    decreases |s| - i
  {
    if InlineAt(s, i).Some? then InlineAt(s, i)
    else if i == |s| then None
    else InlineFrom(s, i + 1)
  }

  /** The index of the leftmost match at or after `i`, or `|s| + 1` when there is none. */
  function InlineIndex(s: string, i: nat): (k: nat)
    requires i <= |s|
    ensures i <= k <= |s| + 1
    decreases |s| - i
  {
    if InlineAt(s, i).Some? then i
    else if i == |s| then |s| + 1
    else InlineIndex(s, i + 1)
  }

  /** The search from `i` finds the match at the leftmost index that has one, and none when no index has one. */
  lemma InlineFromLeftmost(s: string, i: nat)
    requires i <= |s|
    ensures var k := InlineIndex(s, i);
      && (k <= |s| ==> InlineAt(s, k).Some? && InlineFrom(s, i) == InlineAt(s, k))
      && (k > |s| ==> InlineFrom(s, i).None?)
      && forall k' :: i <= k' < k && k' <= |s| ==> InlineAt(s, k').None?
  {
    InlineFromIndex(s, i);
    forall k' | i <= k' < InlineIndex(s, i) && k' <= |s|
      ensures InlineAt(s, k').None?
    {
      InlineBeforeIndex(s, i, k');
    }
  }

  /** The search from `i` stops at the index `InlineIndex` names. */
  lemma {:induction false} InlineFromIndex(s: string, i: nat)
    requires i <= |s|
    ensures var k := InlineIndex(s, i);
      && (k <= |s| ==> InlineAt(s, k).Some? && InlineFrom(s, i) == InlineAt(s, k))
      && (k > |s| ==> InlineFrom(s, i).None?)
    decreases |s| - i
  {
    if InlineAt(s, i).None? && i < |s| {
      InlineFromIndex(s, i + 1);
    }
  }

  /** No index the search passes over holds a match. */
  lemma {:induction false} InlineBeforeIndex(s: string, i: nat, k': nat)
    requires i <= k' <= |s| && k' < InlineIndex(s, i)
    ensures InlineAt(s, k').None?
    decreases |s| - i
  {
    if i < k' {
      InlineBeforeIndex(s, i + 1, k');
    }
  }

  /** The capture of the inline `bibliography: [...]` line, when the regex matches. */
  function InlineCapture(s: string): Option<string> {
    InlineFrom(s, 0)
  }

  /**
   * The inline sources: the capture split on `,`, each item trimmed, its
   * quotes stripped and resolved without a root folder (so under the
   * document's directory).
   */
  function InlineSources(doc: Editor, cwd: string): (r: seq<string>)
    ensures InlineCapture(doc.text).None? || InlineCapture(doc.text).value == "" ==> r == []
    ensures InlineCapture(doc.text).Some? && InlineCapture(doc.text).value != "" ==>
      var items := Split(InlineCapture(doc.text).value, ',');
      && |r| == |items|
      && forall i :: 0 <= i < |items| ==>
           r[i] == ResolveBibFile(StripQuotes(Trim(items[i])), None, Some(doc.fileName), cwd)
  {
    var m := InlineCapture(doc.text);
    if m.None? || m.value == "" then []
    else
      var items := Split(m.value, ',');
      seq(|items|, i requires 0 <= i < |items| =>
        ResolveBibFile(StripQuotes(Trim(items[i])), None, Some(doc.fileName), cwd))
  }

  /** After `---`, an optional `\r` and a `\n` at index `i`: the index after them, or -1. */
  function OpenEnd(s: string, i: nat): (r: int)
    ensures r == -1 || (i + 4 <= r <= |s| && OccursAt(s, "---", i))
  {
    if OccursAt(s, "---\r\n", i) then
      assert s[i..i + 3] == s[i..i + 5][..3];
      i + 5
    else if OccursAt(s, "---\n", i) then
      assert s[i..i + 3] == s[i..i + 4][..3];
      i + 4
    else -1
  }

  /** `.+\r?\n` at index `j`: the index after the line terminator, or -1. */
  function LineStep(s: string, j: nat): (r: int)
    requires j <= |s|
    ensures r == -1 || j < r <= |s|
  {
    var e := LineEnd(s, j);
    if e == j then -1
    else if e < |s| && s[e] == '\n' then e + 1
    else if e + 1 < |s| && s[e] == '\r' && s[e + 1] == '\n' then e + 2
    else -1
  }

  /**
   * `s[j..n]` is one `.+\r?\n` line: at least one character that is not a
   * line terminator, then `\r\n` or `\n`.
   */
  predicate IsLine(s: string, j: nat, n: nat) {
    && j < n <= |s| && s[n - 1] == '\n'
    && var b := if n >= 2 && s[n - 2] == '\r' then n - 2 else n - 1;
       j < b && forall k :: j <= k < b ==> !IsLineTerminator(s[k])
  }

  /** `LineStep` finds the line starting at `j` exactly when there is one. */
  lemma LineStepMeaning(s: string, j: nat)
    requires j <= |s|
    ensures LineStep(s, j) >= 0 ==> IsLine(s, j, LineStep(s, j))
    ensures forall n: nat :: IsLine(s, j, n) ==> LineStep(s, j) == n
  {
    var e := LineEnd(s, j);
    forall n: nat | IsLine(s, j, n)
      ensures LineStep(s, j) == n
    {
      var b := if n >= 2 && s[n - 2] == '\r' then n - 2 else n - 1;
      assert IsLineTerminator(s[b]);
      assert e == b;
    }
    if LineStep(s, j) >= 0 && s[e] == '\n' {
      assert !IsLineTerminator(s[e - 1]);
    }
  }

  /** The ends of the longest run of `.+\r?\n` lines starting at `j`. */
  function LineEnds(s: string, j: nat): (r: seq<nat>)
    requires j <= |s|
    ensures forall k :: 0 <= k < |r| ==> j < r[k] <= |s|
    ensures forall k, l :: 0 <= k < l < |r| ==> r[k] < r[l]
    decreases |s| - j
  {
    var n := LineStep(s, j);
    if n < 0 then [] else [n] + LineEnds(s, n)
  }

  /** Where the `k`-th line of a run that starts at `j` and ends at `r` begins: `j`, or the end before it. */
  function LineBegin(r: seq<nat>, j: nat, k: nat): nat
    requires k < |r|
  {
    if k == 0 then j else r[k - 1]
  }

  /**
   * `LineEnds` is the run of lines: each end closes a line that starts at the
   * previous end (the first at `j`), and no line starts after the last one.
   */
  lemma LineEndsMeaning(s: string, j: nat)
    requires j <= |s|
    ensures var r := LineEnds(s, j);
      forall k :: 0 <= k < |r| ==> IsLine(s, LineBegin(r, j, k), r[k])
    ensures var r := LineEnds(s, j);
      var last := if r == [] then j else r[|r| - 1];
      forall n: nat :: !IsLine(s, last, n)
  {
    var r := LineEnds(s, j);
    forall k | 0 <= k < |r|
      ensures IsLine(s, LineBegin(r, j, k), r[k])
    {
      LineEndsAt(s, j, k);
    }
    LineEndsLast(s, j);
    var last := if r == [] then j else r[|r| - 1];
    assert forall n: nat :: !IsLine(s, last, n);
  }

  /** The `k`-th end of the run closes a line that starts at the end before it. */
  lemma {:induction false} LineEndsAt(s: string, j: nat, k: nat)
    requires j <= |s| && k < |LineEnds(s, j)|
    ensures var r := LineEnds(s, j);
      IsLine(s, LineBegin(r, j, k), r[k])
    decreases k
  {
    var n := LineStep(s, j);
    LineStepMeaning(s, j);
    var r := LineEnds(s, j);
    assert r == [n] + LineEnds(s, n);
    if k > 0 {
      LineEndsAt(s, n, k - 1);
      assert r[k] == LineEnds(s, n)[k - 1];
      assert LineBegin(r, j, k) == LineBegin(LineEnds(s, n), n, k - 1);
    }
  }

  /** No line starts where the run ends. */
  lemma {:induction false} LineEndsLast(s: string, j: nat)
    requires j <= |s|
    ensures var r := LineEnds(s, j);
      var last := if r == [] then j else r[|r| - 1];
      forall n: nat :: !IsLine(s, last, n)
    decreases |s| - j
  {
    var n := LineStep(s, j);
    LineStepMeaning(s, j);
    if n >= 0 {
      LineEndsLast(s, n);
      var t := LineEnds(s, n);
      assert LineEnds(s, j) == [n] + t;
    }
  }

  /** Greedy backtracking of `(.+\r?\n)+---`: the last line end followed by `---`. */
  function CloseAfter(s: string, ends: seq<nat>): (r: Option<nat>)
    ensures r.Some? ==> r.value in ends && OccursAt(s, "---", r.value)
    decreases |ends|
  {
    if ends == [] then None
    else if OccursAt(s, "---", ends[|ends| - 1]) then Some(ends[|ends| - 1])
    else CloseAfter(s, ends[..|ends| - 1])
  }

  /** `CloseAfter` picks the last end followed by `---`, and finds none exactly when there is none. */
  lemma {:induction false} CloseAfterMeaning(s: string, ends: seq<nat>)
    ensures CloseAfter(s, ends).None? <==> forall k :: 0 <= k < |ends| ==> !OccursAt(s, "---", ends[k])
    ensures CloseAfter(s, ends).Some? ==>
      exists k :: 0 <= k < |ends| && ends[k] == CloseAfter(s, ends).value
        && forall l :: k < l < |ends| ==> !OccursAt(s, "---", ends[l])
    decreases |ends|
  {
    if ends != [] && !OccursAt(s, "---", ends[|ends| - 1]) {
      var init := ends[..|ends| - 1];
      CloseAfterMeaning(s, init);
      assert forall k :: 0 <= k < |init| ==> init[k] == ends[k];
      if CloseAfter(s, init).Some? {
        var k :| 0 <= k < |init| && init[k] == CloseAfter(s, init).value
          && forall l :: k < l < |init| ==> !OccursAt(s, "---", init[l]);
        assert forall l :: k < l < |ends| ==> !OccursAt(s, "---", ends[l]);
      }
    }
  }

  /** `/---\r?\n((.+\r?\n)+)---/` tried at index `i`: the whole match. */
  function YamlBlockAt(s: string, i: nat): (r: Option<string>)
    requires i <= |s|
    ensures r.Some? ==> OccursAt(s, r.value, i) && StartsWith(r.value, "---")
  {
    var o := OpenEnd(s, i);
    if o < 0 then None
    else
      match CloseAfter(s, LineEnds(s, o))
      case None => None
      case Some(e) =>
        if i <= e then
          assert s[i..i + 3] == s[i..e + 3][..3];
          Some(s[i..e + 3])
        else None
  }

  /** The leftmost match at an index no smaller than `i`. */
  function YamlBlockFrom(s: string, i: nat): (r: Option<string>)
    requires i <= |s|
    decreases |s| - i
  {
    if YamlBlockAt(s, i).Some? then YamlBlockAt(s, i)
    else if i == |s| then None
    else YamlBlockFrom(s, i + 1)
  }

  /** The first front-matter block of the document, delimiters included. */
  function YamlBlock(s: string): (r: Option<string>)
    ensures r.Some? ==> StartsWith(r.value, "---") && exists i :: OccursAt(s, r.value, i)
  {
    YamlBlockFromSound(s, 0);
    YamlBlockFrom(s, 0)
  }

  /**
   * A block opened by `---\r?\n` at `i` can close at `e`: a run of one or
   * more `.+\r?\n` lines follows the opening line and ends at `e`, and `---`
   * starts at `e`.
   */
  predicate Closes(s: string, i: nat, e: nat) {
    var o := OpenEnd(s, i);
    o >= 0 && e in LineEnds(s, o) && OccursAt(s, "---", e)
  }

  /** Tried at `i`, the pattern matches exactly when the block can close, and then up to its last closing `---`. */
  lemma YamlBlockAtMeaning(s: string, i: nat)
    requires i <= |s|
    ensures YamlBlockAt(s, i).Some? <==> exists e :: Closes(s, i, e)
    ensures YamlBlockAt(s, i).Some? ==>
      exists e :: Closes(s, i, e) && i <= e && YamlBlockAt(s, i).value == s[i..e + 3]
        && forall e' :: Closes(s, i, e') ==> e' <= e
  {
    var o := OpenEnd(s, i);
    if o >= 0 {
      var ends := LineEnds(s, o);
      forall e': nat | Closes(s, i, e')
        ensures CloseAfter(s, ends).Some? && e' <= CloseAfter(s, ends).value
      {
        ClosesBelowLast(s, i, e');
      }
      if CloseAfter(s, ends).Some? {
        assert Closes(s, i, CloseAfter(s, ends).value);
      }
    }
  }

  /** Every place that closes the block opened at `i` lies at or before the one the pattern takes. */
  lemma ClosesBelowLast(s: string, i: nat, e: nat)
    requires Closes(s, i, e)
    ensures OpenEnd(s, i) >= 0
    ensures var ends := LineEnds(s, OpenEnd(s, i));
      CloseAfter(s, ends).Some? && e <= CloseAfter(s, ends).value
  {
    var ends := LineEnds(s, OpenEnd(s, i));
    CloseAfterMeaning(s, ends);
    var l :| 0 <= l < |ends| && ends[l] == e;
    var c := CloseAfter(s, ends).value;
    var k :| 0 <= k < |ends| && ends[k] == c && forall l' :: k < l' < |ends| ==> !OccursAt(s, "---", ends[l']);
    assert l <= k;
  }

  /** The index of the leftmost match at or after `i`, or `|s| + 1` when there is none. */
  function YamlBlockIndex(s: string, i: nat): (k: nat)
    requires i <= |s|
    ensures i <= k <= |s| + 1
    decreases |s| - i
  {
    if YamlBlockAt(s, i).Some? then i
    else if i == |s| then |s| + 1
    else YamlBlockIndex(s, i + 1)
  }

  /** The search from `i` finds the match at the leftmost index that has one. */
  lemma YamlBlockFromLeftmost(s: string, i: nat)
    requires i <= |s|
    ensures var k := YamlBlockIndex(s, i);
      && (k <= |s| ==> YamlBlockAt(s, k).Some? && YamlBlockFrom(s, i) == YamlBlockAt(s, k))
      && (k > |s| ==> YamlBlockFrom(s, i).None?)
      && forall k' :: i <= k' < k && k' <= |s| ==> YamlBlockAt(s, k').None?
  {
    var k := YamlBlockIndex(s, i);
    YamlBlockFromIndex(s, i);
    forall k' | i <= k' < k && k' <= |s|
      ensures YamlBlockAt(s, k').None?
    {
      YamlBlockBeforeIndex(s, i, k');
    }
  }

  /** The search from `i` stops at the index `YamlBlockIndex` names. */
  lemma {:induction false} YamlBlockFromIndex(s: string, i: nat)
    requires i <= |s|
    ensures var k := YamlBlockIndex(s, i);
      && (k <= |s| ==> YamlBlockAt(s, k).Some? && YamlBlockFrom(s, i) == YamlBlockAt(s, k))
      && (k > |s| ==> YamlBlockFrom(s, i).None?)
    decreases |s| - i
  {
    if YamlBlockAt(s, i).None? && i < |s| {
      YamlBlockFromIndex(s, i + 1);
    }
  }

  /** No index the search passes over holds a match. */
  lemma {:induction false} YamlBlockBeforeIndex(s: string, i: nat, k': nat)
    requires i <= k' <= |s| && k' < YamlBlockIndex(s, i)
    ensures YamlBlockAt(s, k').None?
    decreases |s| - i
  {
    if i < k' {
      YamlBlockBeforeIndex(s, i + 1, k');
    }
  }

  /**
   * The block opened at `i` and closed at `e` is the first one: no block
   * opens before `i` that can close, and `e` is the last place that closes
   * the block opened at `i`.
   */
  ghost predicate FirstBlock(s: string, i: nat, e: nat) {
    && i <= e && Closes(s, i, e)
    && (forall i': nat, e': nat :: i' < i ==> !Closes(s, i', e'))
    && (forall e': nat :: Closes(s, i, e') ==> e' <= e)
  }

  /** There is no front-matter block exactly when no block opens anywhere that can close. */
  lemma YamlBlockNone(s: string)
    ensures YamlBlock(s).None? <==> forall i: nat, e: nat :: i <= |s| ==> !Closes(s, i, e)
  {
    YamlBlockFromLeftmost(s, 0);
    var k := YamlBlockIndex(s, 0);
    if k <= |s| {
      YamlBlockAtMeaning(s, k);
    } else {
      forall i: nat, e: nat | i <= |s|
        ensures !Closes(s, i, e)
      {
        YamlBlockAtMeaning(s, i);
      }
    }
  }

  /** A front-matter block found is the first block that can close, up to its last closing `---`. */
  lemma YamlBlockFirst(s: string)
    ensures YamlBlock(s).Some? ==>
      exists i: nat, e: nat :: e + 3 <= |s| && FirstBlock(s, i, e) && YamlBlock(s).value == s[i..e + 3]
  {
    YamlBlockFromLeftmost(s, 0);
    var k := YamlBlockIndex(s, 0);
    if k <= |s| {
      var m := YamlBlockAt(s, k);
      assert YamlBlock(s) == m;
      YamlBlockAtMeaning(s, k);
      var e :| Closes(s, k, e) && k <= e && m.value == s[k..e + 3]
        && forall e' :: Closes(s, k, e') ==> e' <= e;
      forall i': nat, e': nat | i' < k
        ensures !Closes(s, i', e')
      {
        YamlBlockAtMeaning(s, i');
      }
      assert FirstBlock(s, k, e);
    }
  }

  lemma {:induction false} YamlBlockFromSound(s: string, i: nat)
    requires i <= |s|
    ensures var r := YamlBlockFrom(s, i);
      r.Some? ==> StartsWith(r.value, "---") && exists k :: OccursAt(s, r.value, k)
    decreases |s| - i
  {
    if YamlBlockAt(s, i).None? && i < |s| {
      YamlBlockFromSound(s, i + 1);
    }
  }

  /** A text without `-` holds no front-matter block. */
  lemma {:induction false} NoDashNoYamlFrom(s: string, i: nat)
    requires i <= |s|
    requires forall k :: 0 <= k < |s| ==> s[k] != '-'
    ensures YamlBlockFrom(s, i).None?
    decreases |s| - i
  {
    assert !OccursAt(s, "---", i) by {
      if i + 3 <= |s| {
        assert s[i..i + 3][0] == s[i];
      }
    }
    if i < |s| {
      NoDashNoYamlFrom(s, i + 1);
    }
  }

  /** The YAML sources: the first front-matter block's `bibliography`, quotes stripped, resolved under the root folder. */
  function YamlSources(doc: Editor, rootFolder: Option<string>, cwd: string, loadAll: string -> Option<seq<YamlDoc>>): (r: seq<string>)
    ensures YamlBlock(doc.text).None? ==> r == []
    ensures YamlBlock(doc.text).Some? ==>
      var items := BibliographyEntries(loadAll(YamlBlock(doc.text).value));
      && |r| == |items|
      && forall i :: 0 <= i < |items| ==>
           r[i] == ResolveBibFile(StripQuotes(items[i]), rootFolder, Some(doc.fileName), cwd)
  {
    var block := YamlBlock(doc.text);
    if block.None? then []
    else
      var items := BibliographyEntries(loadAll(block.value));
      seq(|items|, i requires 0 <= i < |items| =>
        ResolveBibFile(StripQuotes(items[i]), rootFolder, Some(doc.fileName), cwd))
  }

  /**
   * The configured root file, normalised by a one-argument join, or the
   * root file joined onto the root folder when it is relative and there is
   * one.
   */
  function RootInput(config: Config, rootFolder: Option<string>): string
    requires Given(config.rootFile)
  {
    var rootFile := config.rootFile.value;
    var cur := Paths.JoinOne(rootFile);
    if !Paths.IsAbsolute(cur) && Given(rootFolder) then Paths.Join(rootFolder.value, rootFile)
    else cur
  }

  /**
   * The root-file sources: when the root file exists, its first YAML
   * document's `bibliography`, each entry joined onto the root file's
   * directory and then resolved.
   */
  function RootSources(config: Config, rootFolder: Option<string>, doc: Editor, cwd: string,
                       env: Citation.Env, loadAll: string -> Option<seq<YamlDoc>>): (r: seq<string>)
    ensures !Given(config.rootFile) ==> r == []
    ensures Given(config.rootFile) && RootInput(config, rootFolder) !in env.files ==> r == []
    ensures Given(config.rootFile) && RootInput(config, rootFolder) in env.files ==>
      var input := RootInput(config, rootFolder);
      var items := BibliographyEntries(loadAll(env.files[input]));
      && |r| == |items|
      && forall i :: 0 <= i < |items| ==>
           r[i] == ResolveBibFile(Paths.Join(Paths.Dirname(input), items[i]), rootFolder, Some(doc.fileName), cwd)
  {
    if !Given(config.rootFile) then []
    else
      var input := RootInput(config, rootFolder);
      if input !in env.files then []
      else
        var items := BibliographyEntries(loadAll(env.files[input]));
        seq(|items|, i requires 0 <= i < |items| =>
          ResolveBibFile(Paths.Join(Paths.Dirname(input), items[i]), rootFolder, Some(doc.fileName), cwd))
  }

  /**
   * An absolute root file's sources all lie under the root file's directory,
   * when no `bibliography` entry climbs out of it through a `..` segment.
   */
  lemma RootSourcesUnderRootDir(config: Config, rootFolder: Option<string>, doc: Editor, cwd: string,
                                env: Citation.Env, loadAll: string -> Option<seq<YamlDoc>>)
    requires Given(config.rootFile) && Paths.IsAbsolute(RootInput(config, rootFolder))
    requires RootInput(config, rootFolder) in env.files ==>
      forall e :: e in BibliographyEntries(loadAll(env.files[RootInput(config, rootFolder)])) ==> Paths.NoParentSegment(e)
    ensures forall x :: x in RootSources(config, rootFolder, doc, cwd, env, loadAll) ==>
      StartsWith(x, Paths.Collapse(Paths.Dirname(RootInput(config, rootFolder))))
  {
    var input := RootInput(config, rootFolder);
    var dir := Paths.Dirname(input);

    var r := RootSources(config, rootFolder, doc, cwd, env, loadAll);
    if input in env.files {
      var items := BibliographyEntries(loadAll(env.files[input]));
      forall i | 0 <= i < |items|
        ensures StartsWith(r[i], Paths.Collapse(dir))
      {
        Paths.JoinUnder(dir, items[i]);
      }
    }
  }

  /** The default sources: `DefaultBib` and then `DefaultBibs`, only when `UseDefaultBib` is set. */
  function DefaultSources(config: Config, rootFolder: Option<string>, doc: Editor, cwd: string): (r: seq<string>)
    ensures !config.useDefaultBib ==> r == []
    ensures |r| == (if config.useDefaultBib && Given(config.defaultBib) then 1 else 0)
                 + (if config.useDefaultBib then |config.defaultBibs| else 0)
    ensures config.useDefaultBib && Given(config.defaultBib) ==>
      r[0] == ResolveBibFile(Paths.JoinOne(config.defaultBib.value), rootFolder, Some(doc.fileName), cwd)
    ensures config.useDefaultBib ==>
      r[|r| - |config.defaultBibs|..] == ResolvedDefaults(config.defaultBibs, rootFolder, doc, cwd)
  {
    var single :=
      if config.useDefaultBib && Given(config.defaultBib)
      then [ResolveBibFile(Paths.JoinOne(config.defaultBib.value), rootFolder, Some(doc.fileName), cwd)]
      else [];
    var several :=
      if config.useDefaultBib && |config.defaultBibs| > 0
      then ResolvedDefaults(config.defaultBibs, rootFolder, doc, cwd)
      else [];
    assert config.useDefaultBib ==> several == ResolvedDefaults(config.defaultBibs, rootFolder, doc, cwd);
    single + several
  }

  /** The `DefaultBibs` loop: each element joined on its own and resolved. */
  function ResolvedDefaults(list: seq<string>, rootFolder: Option<string>, doc: Editor, cwd: string): (r: seq<string>)
    ensures |r| == |list|
    ensures forall i :: 0 <= i < |list| ==>
      r[i] == ResolveBibFile(Paths.JoinOne(list[i]), rootFolder, Some(doc.fileName), cwd)
  {
    seq(|list|, i requires 0 <= i < |list| =>
      ResolveBibFile(Paths.JoinOne(list[i]), rootFolder, Some(doc.fileName), cwd))
  }

  /** Every source `findBib` hands to `addBibToWatcher` when no parse throws, in call order. */
  function Sources(doc: Editor, config: Config, rootFolder: Option<string>, env: Citation.Env,
                   cwd: string, loadAll: string -> Option<seq<YamlDoc>>): seq<string>
  {
    InlineSources(doc, cwd) + YamlSources(doc, rootFolder, cwd, loadAll)
      + RootSources(config, rootFolder, doc, cwd, env, loadAll) + DefaultSources(config, rootFolder, doc, cwd)
  }

  /**
   * What the completed calls of a group put on the found list: as written,
   * the paths handed to `addBibToWatcher`; corrected, the paths it watched.
   */
  function Recorded(existing: set<string>, ps: seq<string>, asWritten: bool): seq<string> {
    if asWritten then ps else Resolved(existing, ps)
  }

  /** The outcome of the discovery groups: the state, the found list, and whether `findBib` threw. */
  datatype Pass = Pass(state: WatchState, found: seq<string>, threw: bool)

  /**
   * The four groups of sources added in turn: inline `a`, YAML `b`, root
   * file `c`, defaults `d`. A throw in the inline or the default group
   * leaves `findBib` at once, since no `try` surrounds them; a throw in the
   * YAML or the root-file group is caught by that group's `catch`, which
   * ends the group without recording the failing path.
   */
  function Gather(w: WatchState, a: seq<string>, b: seq<string>, c: seq<string>, d: seq<string>,
                  env: Citation.Env, asWritten: bool): Pass
  {
    var files := env.files.Keys;
    var ra := AddUntilThrow(w, a, env);
    if ra.threw then Pass(ra.state, Recorded(files, a[..ra.completed], asWritten), true)
    else
      var rb := AddUntilThrow(ra.state, b, env);
      var rc := AddUntilThrow(rb.state, c, env);
      var rd := AddUntilThrow(rc.state, d, env);
      Pass(rd.state,
           Recorded(files, a, asWritten) + Recorded(files, b[..rb.completed], asWritten)
             + Recorded(files, c[..rc.completed], asWritten) + Recorded(files, d[..rd.completed], asWritten),
           rd.threw)
  }

  /** The forget-unused diff, reached only when no group threw past its `catch`. */
  function Finish(g: Pass, forgetUnused: bool): Pass {
    if g.threw then g else g.(state := Diff(g.state, g.found, forgetUnused))
  }

  /** `findBib` with the found list as written or corrected. */
  function FindBibWith(w: WatchState, editor: Option<Editor>, config: Config, rootFolder: Option<string>,
                       env: Citation.Env, cwd: string, loadAll: string -> Option<seq<YamlDoc>>, asWritten: bool): Pass
  {
    if editor.None? then Pass(w, [], false)
    else
      var doc := editor.value;
      Finish(Gather(w, InlineSources(doc, cwd), YamlSources(doc, rootFolder, cwd, loadAll),
                    RootSources(config, rootFolder, doc, cwd, env, loadAll), DefaultSources(config, rootFolder, doc, cwd),
                    env, asWritten),
             config.forgetUnusedBib)
  }

  /**
   * `findBib` as written: the found list records each source as it was
   * before the extension fallback, while the watched list records it after.
   */
  function FindBibAsWritten(w: WatchState, editor: Option<Editor>, config: Config, rootFolder: Option<string>,
                            env: Citation.Env, cwd: string, loadAll: string -> Option<seq<YamlDoc>>): Pass
  {
    FindBibWith(w, editor, config, rootFolder, env, cwd, loadAll, true)
  }

  /** `findBib` with the found list recording the paths actually watched. */
  function FindBibSpec(w: WatchState, editor: Option<Editor>, config: Config, rootFolder: Option<string>,
                       env: Citation.Env, cwd: string, loadAll: string -> Option<seq<YamlDoc>>): Pass
  {
    FindBibWith(w, editor, config, rootFolder, env, cwd, loadAll, false)
  }

  /**
   * The groups keep the invariant, only append to the watched list, and
   * leave every existing recorded path watched; `findBib` throws exactly
   * when an inline or a default add throws.
   */
  lemma GatherMeaning(w: WatchState, a: seq<string>, b: seq<string>, c: seq<string>, d: seq<string>, env: Citation.Env)
    requires Inv(w)
    ensures var g := Gather(w, a, b, c, d, env, false);
      var ra := AddUntilThrow(w, a, env);
      && Inv(g.state)
      && |w.watched| <= |g.state.watched| && g.state.watched[..|w.watched|] == w.watched
      && (forall x :: x in g.found && x in env.files ==> x in g.state.watched)
      && (g.threw <==> ra.threw || AddUntilThrow(AddUntilThrow(AddUntilThrow(ra.state, b, env).state, c, env).state, d, env).threw)
  {
    var files := env.files.Keys;
    var ra := AddUntilThrow(w, a, env);
    RunMeaning(w, a, env);
    if !ra.threw {
      var rb := AddUntilThrow(ra.state, b, env);
      var rc := AddUntilThrow(rb.state, c, env);
      var rd := AddUntilThrow(rc.state, d, env);
      RunMeaning(ra.state, b, env);
      RunMeaning(rb.state, c, env);
      RunMeaning(rc.state, d, env);
      assert a[..|a|] == a;
      var g := Gather(w, a, b, c, d, env, false);
      forall x | x in g.found && x in env.files
        ensures x in g.state.watched
      {
        if x in Resolved(files, a) {
          RunKeeps(ra.state, b, env, x);
          RunKeeps(rb.state, c, env, x);
          RunKeeps(rc.state, d, env, x);
        } else if x in Resolved(files, b[..rb.completed]) {
          RunKeeps(rb.state, c, env, x);
          RunKeeps(rc.state, d, env, x);
        } else if x in Resolved(files, c[..rc.completed]) {
          RunKeeps(rc.state, d, env, x);
        }
      }
      GrowsTrans(w.watched, ra.state.watched, rb.state.watched);
      GrowsTrans(w.watched, rb.state.watched, rc.state.watched);
      GrowsTrans(w.watched, rc.state.watched, rd.state.watched);
    }
  }

  lemma GrowsTrans(a: seq<string>, b: seq<string>, c: seq<string>)
    requires |a| <= |b| && b[..|a|] == a && |b| <= |c| && c[..|b|] == b
    ensures |a| <= |c| && c[..|a|] == a
  {
    assert c[..|a|] == c[..|b|][..|a|];
  }

  /**
   * The corrected discovery pass keeps the invariant and every existing
   * found path watched. After a throw nothing is forgotten; otherwise, with
   * `ForgetUnusedBib`, the watched list keeps exactly the found paths.
   */
  lemma FindBibKeepsFoundSources(w: WatchState, doc: Editor, config: Config, rootFolder: Option<string>,
                                 env: Citation.Env, cwd: string, loadAll: string -> Option<seq<YamlDoc>>)
    requires Inv(w)
    ensures var g := Gather(w, InlineSources(doc, cwd), YamlSources(doc, rootFolder, cwd, loadAll),
                            RootSources(config, rootFolder, doc, cwd, env, loadAll),
                            DefaultSources(config, rootFolder, doc, cwd), env, false);
      var r := FindBibSpec(w, Some(doc), config, rootFolder, env, cwd, loadAll);
      && Inv(r.state)
      && r.threw == g.threw
      && (g.threw || !config.forgetUnusedBib ==> r.state == g.state)
      && (forall x :: x in g.found && x in env.files ==> x in r.state.watched)
      && (!g.threw && config.forgetUnusedBib ==> r.state.watched == Lists.KeepIn(g.state.watched, g.found))
  {
    var a, b := InlineSources(doc, cwd), YamlSources(doc, rootFolder, cwd, loadAll);
    var c, d := RootSources(config, rootFolder, doc, cwd, env, loadAll), DefaultSources(config, rootFolder, doc, cwd);
    var g := Gather(w, a, b, c, d, env, false);
    GatherMeaning(w, a, b, c, d, env);
    DiffMeaning(g.state, g.found, config.forgetUnusedBib);
    if !g.threw && config.forgetUnusedBib {
      forall x | x in g.found && x in env.files
        ensures x in Lists.KeepIn(g.state.watched, g.found)
      {
        var k :| 0 <= k < |g.state.watched| && g.state.watched[k] == x;
      }
    }
  }

  /**
   * When a YAML or root-file add throws and the pass goes on, the path that
   * threw was watched but not recorded, so with `ForgetUnusedBib` it is
   * forgotten again in the same pass unless another source recorded it.
   */
  lemma CaughtThrowForgetsSource(w: WatchState, a: seq<string>, b: seq<string>, c: seq<string>, d: seq<string>,
                                 env: Citation.Env)
    requires Inv(w)
    requires var ra := AddUntilThrow(w, a, env);
      !ra.threw && AddUntilThrow(ra.state, b, env).threw
    requires var g := Gather(w, a, b, c, d, env, false);
      var rb := AddUntilThrow(AddUntilThrow(w, a, env).state, b, env);
      !g.threw && Fallback(env.files.Keys, b[rb.completed]) !in g.found
    ensures var g := Gather(w, a, b, c, d, env, false);
      var rb := AddUntilThrow(AddUntilThrow(w, a, env).state, b, env);
      && Fallback(env.files.Keys, b[rb.completed]) in g.state.watched
      && Fallback(env.files.Keys, b[rb.completed]) !in Finish(g, true).state.watched
  {
    var g := Gather(w, a, b, c, d, env, false);
    var ra := AddUntilThrow(w, a, env);
    var rb := AddUntilThrow(ra.state, b, env);
    var rc := AddUntilThrow(rb.state, c, env);
    var p := Fallback(env.files.Keys, b[rb.completed]);
    var rd := AddUntilThrow(rc.state, d, env);
    RunGrows(w, a, env);
    ThrowerWatched(ra.state, b, env);
    RunGrows(ra.state, b, env);
    RunGrows(rb.state, c, env);
    RunGrows(rc.state, d, env);
    RunKeeps(rb.state, c, env, p);
    RunKeeps(rc.state, d, env, p);
    assert g.state == rd.state;
    UnfoundForgotten(g.state, g.found, p);
  }

  /** With `ForgetUnusedBib`, a watched path missing from the found list is forgotten. */
  lemma UnfoundForgotten(w: WatchState, found: seq<string>, p: string)
    requires Inv(w) && p in w.watched && p !in found
    ensures p !in Diff(w, found, true).watched
  {
    DiffMeaning(w, found, true);
  }

  /** The add that throws leaves its path watched: the push comes before the parse. */
  lemma ThrowerWatched(w: WatchState, ps: seq<string>, env: Citation.Env)
    requires Inv(w) && AddUntilThrow(w, ps, env).threw
    ensures var r := AddUntilThrow(w, ps, env);
      Fallback(env.files.Keys, ps[r.completed]) in r.state.watched
  {
    var r := AddUntilThrow(w, ps, env);
    var n := r.completed;
    AddUntilThrowState(w, ps, env);
    AddUntilThrowAt(w, ps, env);
    var m := AddAll(w, ps[..n], env);
    AddAllPrefix(w, ps[..n], env);
    assert ps[..n + 1][..n] == ps[..n];
    assert r.state == Added(m, ps[n], env);
    AddedWatched(m, ps[n], env);
  }

  /**
   * Without a throwing parse both passes depend on the document only through
   * its sources: every source is added, then the diff runs against the
   * sources as written or against the paths they resolved to.
   */
  lemma FindBibBySources(w: WatchState, doc: Editor, config: Config, rootFolder: Option<string>,
                         env: Citation.Env, cwd: string, loadAll: string -> Option<seq<YamlDoc>>, sources: seq<string>)
    requires Sources(doc, config, rootFolder, env, cwd, loadAll) == sources && Clean(env, sources)
    ensures FindBibAsWritten(w, Some(doc), config, rootFolder, env, cwd, loadAll)
         == Pass(Diff(AddAll(w, sources, env), sources, config.forgetUnusedBib), sources, false)
    ensures FindBibSpec(w, Some(doc), config, rootFolder, env, cwd, loadAll)
         == Pass(Diff(AddAll(w, sources, env), Resolved(env.files.Keys, sources), config.forgetUnusedBib),
                 Resolved(env.files.Keys, sources), false)
  {
    var a, b := InlineSources(doc, cwd), YamlSources(doc, rootFolder, cwd, loadAll);
    var c, d := RootSources(config, rootFolder, doc, cwd, env, loadAll), DefaultSources(config, rootFolder, doc, cwd);
    GatherClean(w, a, b, c, d, env, true);
    GatherClean(w, a, b, c, d, env, false);
  }

  /** Without a throwing parse the four groups add every source and record every one. */
  lemma GatherClean(w: WatchState, a: seq<string>, b: seq<string>, c: seq<string>, d: seq<string>,
                    env: Citation.Env, asWritten: bool)
    requires Clean(env, a + b + c + d)
    ensures Gather(w, a, b, c, d, env, asWritten)
         == Pass(AddAll(w, a + b + c + d, env), Recorded(env.files.Keys, a + b + c + d, asWritten), false)
  {
    CleanParts(env, a, b, c, d);
    AddUntilThrowClean(w, a, env);
    var wa := AddAll(w, a, env);
    AddUntilThrowClean(wa, b, env);
    var wb := AddAll(wa, b, env);
    AddUntilThrowClean(wb, c, env);
    var wc := AddAll(wb, c, env);
    AddUntilThrowClean(wc, d, env);
    assert a[..|a|] == a && b[..|b|] == b && c[..|c|] == c && d[..|d|] == d;
    SourcesAdded(w, a, b, c, d, env);
  }

  lemma CleanParts(env: Citation.Env, a: seq<string>, b: seq<string>, c: seq<string>, d: seq<string>)
    requires Clean(env, a + b + c + d)
    ensures Clean(env, a) && Clean(env, b) && Clean(env, c) && Clean(env, d)
  {
    forall x | x in a ensures x in a + b + c + d { }
    forall x | x in b ensures x in a + b + c + d { }
    forall x | x in c ensures x in a + b + c + d { }
    forall x | x in d ensures x in a + b + c + d { }
  }

  /**
   * Without a throwing parse, the corrected pass leaves every existing
   * source watched, after its fallback; with `ForgetUnusedBib` exactly the
   * watched paths that no source resolved to lose their watch and their slot.
   */
  lemma FindBibCleanKeepsSources(w: WatchState, doc: Editor, config: Config, rootFolder: Option<string>,
                                 env: Citation.Env, cwd: string, loadAll: string -> Option<seq<YamlDoc>>)
    requires Inv(w) && Clean(env, Sources(doc, config, rootFolder, env, cwd, loadAll))
    ensures var sources := Sources(doc, config, rootFolder, env, cwd, loadAll);
      var r := FindBibSpec(w, Some(doc), config, rootFolder, env, cwd, loadAll);
      && Inv(r.state) && !r.threw
      && (forall i :: 0 <= i < |sources| && Fallback(env.files.Keys, sources[i]) in env.files ==>
            Fallback(env.files.Keys, sources[i]) in r.state.watched)
      && (config.forgetUnusedBib ==>
            r.state.watched == Lists.KeepIn(AddAll(w, sources, env).watched, Resolved(env.files.Keys, sources)))
  {
    var sources := Sources(doc, config, rootFolder, env, cwd, loadAll);
    FindBibBySources(w, doc, config, rootFolder, env, cwd, loadAll, sources);
    KeepsFound(w, sources, env, config.forgetUnusedBib);
  }

  /** `FindBibCleanKeepsSources` for any list of sources. */
  lemma KeepsFound(w: WatchState, sources: seq<string>, env: Citation.Env, forgetUnused: bool)
    requires Inv(w)
    ensures var found := Resolved(env.files.Keys, sources);
      var r := Diff(AddAll(w, sources, env), found, forgetUnused);
      && Inv(r)
      && (forall i :: 0 <= i < |sources| && Fallback(env.files.Keys, sources[i]) in env.files ==>
            Fallback(env.files.Keys, sources[i]) in r.watched)
      && (forgetUnused ==> r.watched == Lists.KeepIn(AddAll(w, sources, env).watched, found))
  {
    var found := Resolved(env.files.Keys, sources);
    AddAllMeaning(w, sources, env);
    var m := AddAll(w, sources, env);
    DiffMeaning(m, found, forgetUnused);
    forall i | 0 <= i < |sources| && Fallback(env.files.Keys, sources[i]) in env.files
      ensures Fallback(env.files.Keys, sources[i]) in Diff(m, found, forgetUnused).watched
    {
      var x := Fallback(env.files.Keys, sources[i]);
      assert x == found[i];
      var k :| 0 <= k < |m.watched| && m.watched[k] == x;
    }
  }

  /**
   * As written, with `ForgetUnusedBib` and no throwing parse, a source found
   * only through the `.json`/`.bib` fallback is watched and parsed, then
   * forgotten in the same pass, because its watched path is not on the
   * found list.
   */
  lemma AsWrittenForgetsFallbackSource(w: WatchState, doc: Editor, config: Config, rootFolder: Option<string>,
                                       env: Citation.Env, cwd: string, loadAll: string -> Option<seq<YamlDoc>>, s: string)
    requires Inv(w) && config.forgetUnusedBib
    requires Clean(env, Sources(doc, config, rootFolder, env, cwd, loadAll))
    requires s in Sources(doc, config, rootFolder, env, cwd, loadAll)
    requires Fallback(env.files.Keys, s) in env.files
    requires Fallback(env.files.Keys, s) !in Sources(doc, config, rootFolder, env, cwd, loadAll)
    ensures Fallback(env.files.Keys, s) !in FindBibAsWritten(w, Some(doc), config, rootFolder, env, cwd, loadAll).state.watched
    ensures Fallback(env.files.Keys, s) in FindBibSpec(w, Some(doc), config, rootFolder, env, cwd, loadAll).state.watched
  {
    var sources := Sources(doc, config, rootFolder, env, cwd, loadAll);
    FindBibBySources(w, doc, config, rootFolder, env, cwd, loadAll, sources);
    ForgetsFallback(w, sources, env, s);
  }

  /** `AsWrittenForgetsFallbackSource` for any list of sources. */
  lemma ForgetsFallback(w: WatchState, sources: seq<string>, env: Citation.Env, s: string)
    requires Inv(w)
    requires s in sources && Fallback(env.files.Keys, s) in env.files && Fallback(env.files.Keys, s) !in sources
    ensures Fallback(env.files.Keys, s) !in Diff(AddAll(w, sources, env), sources, true).watched
    ensures Fallback(env.files.Keys, s) in Diff(AddAll(w, sources, env), Resolved(env.files.Keys, sources), true).watched
  {
    var m := AddAll(w, sources, env);
    AddAllMeaning(w, sources, env);
    DiffMeaning(m, sources, true);
    KeepsFound(w, sources, env, true);
    var i :| 0 <= i < |sources| && sources[i] == s;
  }

  /** The inline line `bibliography: [refs]` of `/w/doc.md` names `/w/refs`. */
  lemma InlineExample()
    ensures InlineSources(Editor("/w/doc.md", "bibliography: [refs]"), "/") == ["/w/refs"]
  {
    var doc := Editor("/w/doc.md", "bibliography: [refs]");
    CaptureExample();
    SplitExample();
    InlineSourcesOne(doc, "/", "refs");
    ResolveExample();
  }

  lemma SplitExample()
    ensures Split("refs", ',') == ["refs"]
  {
    SplitNoSep("refs", ',');
  }

  /** A capture without a comma names exactly one source. */
  lemma InlineSourcesOne(doc: Editor, cwd: string, item: string)
    requires InlineCapture(doc.text) == Some(item) && item != "" && Split(item, ',') == [item]
    ensures InlineSources(doc, cwd) == [ResolveBibFile(StripQuotes(Trim(item)), None, Some(doc.fileName), cwd)]
  {
    var r := InlineSources(doc, cwd);
    assert |r| == 1;
    assert r[0] == ResolveBibFile(StripQuotes(Trim(item)), None, Some(doc.fileName), cwd);
  }

  lemma ResolveExample()
    ensures ResolveBibFile(StripQuotes(Trim("refs")), None, Some("/w/doc.md"), "/") == "/w/refs"
  {
    TrimExample();
    assert StripQuotes("refs") == "refs";
    DirnameExample();
    assert "/w" + "/" + "refs" == "/w/refs";
    JoinedCollapsed();
  }

  lemma TrimExample()
    ensures Trim("refs") == "refs"
  {
    assert TrimStart("refs") == "refs";
    assert TrimEnd("refs") == "refs";
  }

  lemma JoinedCollapsed()
    ensures Paths.Collapsed("/w/refs")
  {
    var t := "/w/refs";
    assert forall i :: 0 <= i < |t| && i != 0 && i != 2 ==> t[i] != '/';
  }

  lemma CaptureExample()
    ensures InlineCapture("bibliography: [refs]") == Some("refs")
  {
    var t := "bibliography: [refs]";
    assert t[..13] == "bibliography:";
    assert OccursAt(t, "bibliography:", 0);
    assert SpaceRunEnd(t, 13) == 14 by {
      assert IsSpace(t[13]) && !IsSpace(t[14]);
    }
    assert LineEnd(t, 15) == 20;
    assert LastIndexOfCharIn(t, ']', 15, 20) == 19;
    assert t[15..19] == "refs";
    assert InlineAt(t, 0) == Some("refs");
  }

  lemma DirnameExample()
    ensures Paths.Dirname("/w/doc.md") == "/w"
  {
    assert "/w" + "/" + "doc.md" + "" == "/w/doc.md";
    Paths.DirnameOf("/w", "doc.md", "");
  }

  /**
   * The document `/w/doc.md` holding only the line `bibliography: [refs]`,
   * with `/w/refs.bib` the only existing file, well-formed, and
   * `ForgetUnusedBib` set: as written the pass watches and parses
   * `/w/refs.bib` and then forgets it; with the watched paths recorded it
   * stays watched.
   */
  lemma FallbackForgottenExample(env: Citation.Env, loadAll: string -> Option<seq<YamlDoc>>)
    requires env.files.Keys == {"/w/refs.bib"} && env.parseBibtex(env.files["/w/refs.bib"]).Some?
    ensures var w0, doc, config := WatchState([], false, Citation.Store([], map[])),
                                   Editor("/w/doc.md", "bibliography: [refs]"),
                                   Config(None, false, None, [], true);
      && FindBibAsWritten(w0, Some(doc), config, None, env, "/", loadAll).state.watched == []
      && FindBibSpec(w0, Some(doc), config, None, env, "/", loadAll).state.watched == ["/w/refs.bib"]
  {
    var w0, doc, config := WatchState([], false, Citation.Store([], map[])),
                           Editor("/w/doc.md", "bibliography: [refs]"),
                           Config(None, false, None, [], true);
    SourcesExample(env, loadAll);
    AddExample(env);
    FallbackExampleClean(env);
    FindBibBySources(w0, doc, config, None, env, "/", loadAll, ["/w/refs"]);
    OneFallbackSource(w0, env, "/w/refs");
  }

  /**
   * The inline list `[/a.bib, /b.bib]` with `/a.bib` malformed: adding it
   * watches `/a.bib`, throws, and never reaches `/b.bib`.
   */
  lemma ThrowStopsExample(env: Citation.Env)
    requires env.files.Keys == {"/a.bib", "/b.bib"} && env.parseBibtex(env.files["/a.bib"]).None?
    ensures var r := AddUntilThrow(WatchState([], false, Citation.Store([], map[])), ["/a.bib", "/b.bib"], env);
      r.threw && r.completed == 0 && r.state.watched == ["/a.bib"] && "/b.bib" !in r.state.watched
  {
    var w0 := WatchState([], false, Citation.Store([], map[]));
    var ps := ["/a.bib", "/b.bib"];
    ExtnameExample("/a.bib", 0, 2);
    assert Fallback(env.files.Keys, "/a.bib") == "/a.bib";
    assert AddThrows(w0, "/a.bib", env);
    assert ps[..1] == ["/a.bib"] && ps[..2] == ps;
    assert ["/a.bib"][..0] == [];
    assert AddUntilThrow(w0, ps[..1], env) == Run(Added(w0, "/a.bib", env), 0, true);
    assert "/b.bib" != "/a.bib" by {
      assert "/b.bib"[1] != "/a.bib"[1];
    }
  }

  /** A path whose last separator is at `k` and whose final segment has its only `.` at `d` has the extension `.bib`. */
  lemma ExtnameExample(p: string, k: nat, d: nat)
    requires (p == "/a.bib" && k == 0 && d == 2) || (p == "/w/refs.bib" && k == 2 && d == 7)
    ensures Paths.Extname(p) == ".bib"
  {
    assert p[k] == '/' && forall j :: k < j < |p| ==> p[j] != '/';
    assert LastIndexOfChar(p, '/') == k;
    var base := p[k + 1..];
    assert base == Paths.Basename(p);
    assert base[d - k - 1] == '.' && forall j :: d - k - 1 < j < |base| ==> base[j] != '.';
    assert LastIndexOfChar(base, '.') == d - k - 1;
    assert base[d - k - 1..] == ".bib";
  }

  /**
   * Forgetting after a single source, found only through the fallback,
   * starting from nothing watched: against the sources as written nothing
   * stays watched, against the resolved paths the fallback path does.
   */
  lemma OneFallbackSource(w0: WatchState, env: Citation.Env, s: string)
    requires Inv(w0) && w0.watched == []
    requires AddAll(w0, [s], env).watched == [Fallback(env.files.Keys, s)]
    requires Fallback(env.files.Keys, s) != s
    ensures Diff(AddAll(w0, [s], env), [s], true).watched == []
    ensures Diff(AddAll(w0, [s], env), Resolved(env.files.Keys, [s]), true).watched == [Fallback(env.files.Keys, s)]
  {
    var m := AddAll(w0, [s], env);
    var p := Fallback(env.files.Keys, s);
    AddAllMeaning(w0, [s], env);
    DiffMeaning(m, [s], true);
    assert Lists.KeepIn(m.watched, [s]) == [];
    assert Resolved(env.files.Keys, [s]) == [p];
    DiffMeaning(m, [p], true);
    assert Lists.KeepIn(m.watched, [p]) == [p];
  }

  lemma SourcesExample(env: Citation.Env, loadAll: string -> Option<seq<YamlDoc>>)
    ensures Sources(Editor("/w/doc.md", "bibliography: [refs]"), Config(None, false, None, [], true),
                    None, env, "/", loadAll) == ["/w/refs"]
  {
    InlineExample();
    YamlExample(loadAll);
  }

  lemma YamlExample(loadAll: string -> Option<seq<YamlDoc>>)
    ensures YamlSources(Editor("/w/doc.md", "bibliography: [refs]"), None, "/", loadAll) == []
  {
    var t := "bibliography: [refs]";
    assert forall k :: 0 <= k < |t| ==> t[k] != '-';
    NoDashNoYamlFrom(t, 0);
  }

  lemma FallbackExampleClean(env: Citation.Env)
    requires env.files.Keys == {"/w/refs.bib"} && env.parseBibtex(env.files["/w/refs.bib"]).Some?
    ensures Clean(env, ["/w/refs"]) && Fallback(env.files.Keys, "/w/refs") != "/w/refs"
  {
    AddExample(env);
    assert "/w/refs" != "/w/refs.bib" by {
      assert |"/w/refs"| != |"/w/refs.bib"|;
    }
    ExtnameExample("/w/refs.bib", 2, 7);
  }

  lemma AddExample(env: Citation.Env)
    requires env.files.Keys == {"/w/refs.bib"}
    ensures AddAll(WatchState([], false, Citation.Store([], map[])), ["/w/refs"], env).watched == ["/w/refs.bib"]
  {
    assert "/w/refs" + ".bib" == "/w/refs.bib";
    assert |"/w/refs"| != |"/w/refs.bib"| && |"/w/refs" + ".json"| != |"/w/refs.bib"|;
    assert Fallback(env.files.Keys, "/w/refs") == "/w/refs.bib";
    assert ["/w/refs"][..0] == [];
  }

  /** Adding the four groups of sources one group after another is adding them all. */
  lemma SourcesAdded(w: WatchState, a: seq<string>, b: seq<string>, c: seq<string>, d: seq<string>, env: Citation.Env)
    ensures AddAll(AddAll(AddAll(AddAll(w, a, env), b, env), c, env), d, env) == AddAll(w, a + b + c + d, env)
    ensures Resolved(env.files.Keys, a) + Resolved(env.files.Keys, b) + Resolved(env.files.Keys, c)
          + Resolved(env.files.Keys, d) == Resolved(env.files.Keys, a + b + c + d)
  {
    AddAllAppend(w, a, b, env);
    AddAllAppend(w, a + b, c, env);
    AddAllAppend(w, a + b + c, d, env);
    ResolvedAppend(env.files.Keys, a, b);
    ResolvedAppend(env.files.Keys, a + b, c);
    ResolvedAppend(env.files.Keys, a + b + c, d);
  }

  lemma ResolvedSnoc(existing: set<string>, ps: seq<string>, i: nat)
    requires i < |ps|
    ensures Resolved(existing, ps[..i + 1]) == Resolved(existing, ps[..i]) + [Fallback(existing, ps[i])]
  {
    assert ps[..i + 1] == ps[..i] + [ps[i]];
    ResolvedAppend(existing, ps[..i], [ps[i]]);
  }

  lemma ResolvedAppend(existing: set<string>, a: seq<string>, b: seq<string>)
    ensures Resolved(existing, a) + Resolved(existing, b) == Resolved(existing, a + b)
  {
    var l, r := Resolved(existing, a) + Resolved(existing, b), Resolved(existing, a + b);
    forall i | 0 <= i < |r|
      ensures l[i] == r[i]
    {
      if i < |a| {
        assert (a + b)[i] == a[i];
      } else {
        assert (a + b)[i] == b[i - |a|];
      }
    }
  }

  // ---------------------------------------------------------------------
  // The manager object
  // ---------------------------------------------------------------------

  class Manager {
    /** The watched bibliography paths. */
    var watched: seq<string>
    /** Whether `bibWatcher` has been created. */
    var watcherCreated: bool
    /** The citation store the watcher events update (`extension.completer.citation`). */
    const citation: Citation.Citation

    function State(): WatchState
      reads this, citation
    {
      WatchState(watched, watcherCreated, citation.Snapshot())
    }

    ghost predicate Valid()
      reads this, citation
    {
      Inv(State()) && citation.Valid()
    }

    constructor (citation: Citation.Citation)
      requires citation.Valid()
      ensures Valid()
      ensures watched == [] && !watcherCreated && this.citation == citation
    {
      this.citation := citation;
      watched := [];
      watcherCreated := false;
    }

    /**
     * `addBibToWatcher`: apply the extension fallback, then, for an existing
     * path, create the watcher on first use or add the path when it is not yet
     * watched, record it and parse it. Returns the path after the fallback and
     * whether the parse threw; the path stays watched either way.
     */
    method AddBibToWatcher(bibPath: string, env: Citation.Env) returns (resolved: string, threw: bool)
      requires Valid()
      modifies this, citation
      ensures Valid()
      ensures resolved == Fallback(env.files.Keys, bibPath)
      ensures threw == AddThrows(old(State()), bibPath, env)
      ensures State() == Added(old(State()), bibPath, env)
    {
      resolved := bibPath;
      if resolved !in env.files && resolved + ".json" in env.files {
        resolved := resolved + ".json";
      }
      if resolved !in env.files && resolved + ".bib" in env.files {
        resolved := resolved + ".bib";
      }
      AddedWatched(State(), bibPath, env);
      threw := false;
      if resolved in env.files {
        if !watcherCreated {
          watcherCreated := true;
          watched := watched + [resolved];
          var ok := citation.ParseBibFile(resolved, env);
          threw := !ok;
        } else if Lists.IndexOfValue(watched, resolved) < 0 {
          watched := watched + [resolved];
          var ok := citation.ParseBibFile(resolved, env);
          threw := !ok;
        }
      }
    }

    /** The watcher's `change` event: re-parse the file. */
    method OnChange(filePath: string, env: Citation.Env)
      requires Valid()
      modifies citation
      ensures Valid()
      ensures State() == old(State()).(store := Citation.Reparse(old(State()).store, filePath, env))
    {
      var ok := citation.ParseBibFile(filePath, env);
    }

    /** The watcher's `unlink` event: evict the file's entries and splice it out of the watched list. */
    method OnUnlink(filePath: string)
      requires Valid()
      modifies this, citation
      ensures Valid()
      ensures State() == Forget(old(State()), filePath)
    {
      ForgetMeaning(State(), filePath);
      citation.ForgetParsedBibItems(filePath);
      watched := Lists.RemoveAt(watched, Lists.IndexOfValue(watched, filePath));
    }

    /** `forgetUnusedFiles`: evict and unwatch each file in turn. */
    method ForgetUnusedFiles(filesToForget: seq<string>)
      requires Valid()
      modifies this, citation
      ensures Valid()
      ensures State() == ForgetAll(old(State()), filesToForget)
    {
      for i := 0 to |filesToForget|
        invariant Valid()
        invariant State() == ForgetAll(old(State()), filesToForget[..i])
      {
        assert filesToForget[..i + 1][..i] == filesToForget[..i];
        OnUnlink(filesToForget[i]);
      }
      assert filesToForget[..|filesToForget|] == filesToForget;
    }

    /**
     * Add each path in turn, collecting the paths actually watched, until an
     * add throws; the throwing path is not collected.
     */
    method WatchAll(paths: seq<string>, env: Citation.Env) returns (found: seq<string>, threw: bool)
      requires Valid()
      modifies this, citation
      ensures Valid()
      ensures var r := AddUntilThrow(old(State()), paths, env);
        && State() == r.state
        && threw == r.threw
        && found == Resolved(env.files.Keys, paths[..r.completed])
    {
      ghost var w0 := State();
      found := [];
      threw := false;
      var i := 0;
      while i < |paths|
        invariant 0 <= i <= |paths|
        invariant Valid()
        invariant AddUntilThrow(w0, paths[..i], env) == Run(State(), i, false)
        invariant found == Resolved(env.files.Keys, paths[..i])
      {
        ghost var m := State();
        AddUntilThrowNext(w0, paths, i, m, env);
        ResolvedSnoc(env.files.Keys, paths, i);
        var p, t := AddBibToWatcher(paths[i], env);
        if t {
          threw := true;
          return;
        }
        found := found + [p];
        i := i + 1;
      }
      assert paths[..|paths|] == paths;
    }

    /**
     * `findBib`: nothing without an active editor; otherwise the inline, YAML,
     * root-file and default sources are added in that order, and with
     * `ForgetUnusedBib` the watched paths that were not found are forgotten.
     * A throwing parse in the inline or the default group makes `findBib`
     * throw (`threw`); one in the YAML or the root-file group is caught and
     * ends that group.
     */
    method FindBib(editor: Option<Editor>, config: Config, rootFolder: Option<string>,
                   env: Citation.Env, cwd: string, loadAll: string -> Option<seq<YamlDoc>>) returns (threw: bool)
      requires Valid()
      modifies this, citation
      ensures Valid()
      ensures var r := FindBibSpec(old(State()), editor, config, rootFolder, env, cwd, loadAll);
        State() == r.state && threw == r.threw
    {
      if editor.None? {
        return false;
      }
      var doc := editor.value;
      var a := InlineSources(doc, cwd);
      var b := YamlSources(doc, rootFolder, cwd, loadAll);
      var c := RootSources(config, rootFolder, doc, cwd, env, loadAll);
      var d := DefaultSources(config, rootFolder, doc, cwd);
      var found, t := WatchAll(a, env);
      if t {
        return true;
      }
      assert a[..|a|] == a;
      var more;
      more, t := WatchAll(b, env);
      found := found + more;
      more, t := WatchAll(c, env);
      found := found + more;
      more, t := WatchAll(d, env);
      if t {
        return true;
      }
      found := found + more;
      var unused := Lists.DropIn(watched, found);
      if config.forgetUnusedBib && |unused| > 0 {
        ForgetUnusedFiles(unused);
      }
      return false;
    }
  }
}
