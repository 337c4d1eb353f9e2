/** The `importJS` object (importJS.js lines 32-353): the registry, the script list, and the
    operations that fill them as files are requested and arrive. */
module Loader {
  import opened Js
  import opened Url
  import opened Directive
  import opened Registry
  import opened Assembly

  /** The text `handleScript` goes on with: `''` after an error, otherwise the fetched text passed
      through the entry's preprocessor when it has one. */
  function Received(e: Entry, err: Option<int>, text: string): string
  {
    if err.Some? then "" else if e.handle.Some? then e.handle.value(text) else text
  }

  /** A failed download is handled as an empty file, whatever the preprocessor: it has no segments
      (so its placeholders are removed with nothing put in their place) and it imports nothing. */
  lemma FailedFileIsBlank(e: Entry, code: int, text: string, url: string)
    ensures Received(e, Some(code), text) == ""
    ensures Segments(Received(e, Some(code), text), url) == []
    ensures Imports(Received(e, Some(code), text), url) == []
  {
    assert Split("") == [""];
    assert Strip([""]) == StripFrom([], 1, 1);
  }

  /** A lone root file that is nothing but one directive completes the session at once: its
      placeholder is replaced by an empty block, no placeholder is left, and the script is empty, so
      `handleScript` runs it and never requests the import. */
  lemma DirectiveOnlyRootCompletes(url: string, path: string, reg: map<string, Entry>)
    requires IsPath(path)
    ensures var data := ImportText(path);
            var after := reg[url := Entry(Loaded, data, Segments(data, url), None)];
            var units := Expand([Placeholder(url)], LoadedKeys(after), Block(Segments(data, url), Join(Imports(data, url), "@@")));
            units == [] && Complete(units) && Build(units) == ""
  {
    var data := ImportText(path);
    DirectiveOnlyFile(path, url);
    var after := reg[url := Entry(Loaded, data, Segments(data, url), None)];
    assert url in LoadedKeys(after);
  }

  /** What `load` changes: the registry, the script list, and the requests sent. */
  datatype World = World(reg: map<string, Entry>, units: seq<Unit>, issued: seq<string>)

  /** One turn of the `load` loop for the root path `path`. */
  function LoadOne(w: World, path: string, base: string, pre: Option<string -> string>): (r: World)
    ensures path in w.reg ==> r == w
    ensures path !in w.reg ==>
              r.reg == w.reg[Resolve(path, base) := Entry(Loading, "", [], pre)] &&
              r.units == w.units + [Placeholder(Resolve(path, base))] &&
              r.issued == w.issued + [Resolve(path, base)]
  {
    if path in w.reg then w
    else
      var f := Resolve(path, base);
      var reg := w.reg[f := Fresh(pre)];
      World(Get(reg, f, None), w.units + [Placeholder(f)], w.issued + (if WillRequest(reg, f) then [f] else []))
  }

  /** The `load` loop over `paths`, in order. */
  function LoadAll(w: World, paths: seq<string>, base: string, pre: Option<string -> string>): World
  {
    if |paths| == 0 then w
    else LoadOne(LoadAll(w, paths[..|paths| - 1], base, pre), paths[|paths| - 1], base, pre)
  }

  lemma LoadAllSnoc(w: World, paths: seq<string>, i: nat, base: string, pre: Option<string -> string>)
    requires i < |paths|
    ensures LoadAll(w, paths[..i + 1], base, pre) == LoadOne(LoadAll(w, paths[..i], base, pre), paths[i], base, pre)
  {
    assert paths[..i + 1][..i] == paths[..i];
  }

  /** A placeholder for each of `urls`, in order. */
  function Placeholders(urls: seq<string>): (r: seq<Unit>)
    ensures |r| == |urls|
  {
    seq(|urls|, k requires 0 <= k < |urls| => Placeholder(urls[k]))
  }

  /** `r` extends `w`'s request log, and its units are `w`'s followed by one placeholder per new request,
      in the order of the requests. */
  predicate PlaceholderPerRequest(w: World, r: World)
  {
    |w.issued| <= |r.issued| && r.issued[..|w.issued|] == w.issued &&
    r.units == w.units + Placeholders(r.issued[|w.issued|..])
  }

  /** `load` appends exactly one placeholder per request it sends, in the same order. */
  lemma {:induction false} LoadPlaceholders(w: World, paths: seq<string>, base: string, pre: Option<string -> string>)
    ensures PlaceholderPerRequest(w, LoadAll(w, paths, base, pre))
  {
    if |paths| == 0 {
      assert w.issued[|w.issued|..] == [];
    } else {
      var init := paths[..|paths| - 1];
      LoadPlaceholders(w, init, base, pre);
      var m := LoadAll(w, init, base, pre);
      if paths[|paths| - 1] !in m.reg {
        var f := Resolve(paths[|paths| - 1], base);
        var r := LoadOne(m, paths[|paths| - 1], base, pre);
        assert r.issued == m.issued + [f];
        assert r.issued[..|w.issued|] == m.issued[..|w.issued|];
        assert r.issued[|w.issued|..] == m.issued[|w.issued|..] + [f];
        assert Placeholders(r.issued[|w.issued|..]) == Placeholders(m.issued[|w.issued|..]) + [Placeholder(f)];
      }
    }
  }

  /** An absolute root path is a registry key once loaded, so loading it again does nothing. */
  lemma AbsoluteLoadedOnce(w: World, path: string, base: string, pre: Option<string -> string>)
    requires IsAbsolute(path)
    ensures LoadAll(w, [path, path], base, pre) == LoadAll(w, [path], base, pre)
  {
    assert [path, path][..1] == [path];
    assert [path][..0] == [];
    var once := LoadAll(w, [path], base, pre);
    assert path in once.reg;
  }

  /** A relative root path is never a key itself (the key is its resolution), so loading it twice
      requests its file twice and appends two placeholders. */
  lemma RelativeRequestedTwice(w: World, path: string, base: string, pre: Option<string -> string>)
    requires path !in w.reg && Resolve(path, base) != path
    ensures LoadAll(w, [path, path], base, pre).issued == w.issued + [Resolve(path, base), Resolve(path, base)]
    ensures LoadAll(w, [path, path], base, pre).units ==
            w.units + [Placeholder(Resolve(path, base)), Placeholder(Resolve(path, base))]
  {
    assert [path, path][..1] == [path];
    assert [path][..0] == [];
    assert LoadAll(w, [], base, pre) == w;
    var once := LoadAll(w, [path], base, pre);
    assert once == LoadOne(w, path, base, pre);
    assert path !in once.reg;
    assert LoadAll(w, [path, path], base, pre) == LoadOne(once, path, base, pre);
  }

  /** One importJS session. */
  class Session {
    /** `BASE_PATH`: the URL of the page's directory, against which root paths are resolved. */
    const basePath: string
    /** `jsList`: the registry, keyed by absolute URL. */
    var jsList: map<string, Entry>
    /** `scriptList`: literal code and placeholders, in execution order. */
    var scriptList: seq<Unit>
    /** `script`: the last assembled script. */
    var script: string
    /** The URLs requested from the transport, in order. */
    ghost var requests: seq<string>
    /** The scripts handed to `run`, in order. */
    ghost var runs: seq<string>

    /** The script list holds no empty literal (every literal the loader inserts is non-empty), and
        every requested URL has a registry entry. */
    ghost predicate Valid()
      reads this
    {
      AllTruthy(scriptList) && forall u :: u in requests ==> u in jsList
    }

    constructor(basePath: string)
      ensures Valid()
      ensures this.basePath == basePath && jsList == map[] && scriptList == [] && script == ""
      ensures requests == [] && runs == []
    {
      this.basePath := basePath;
      jsList := map[];
      scriptList := [];
      script := "";
      requests := [];
      runs := [];
    }

    /** `getScript`: registers `url` if it is new, and sends its request only from WAIT. */
    method GetScript(url: string, pre: Option<string -> string>)
      requires Valid()
      modifies this
      ensures Valid()
      ensures jsList == Get(old(jsList), url, pre)
      ensures requests == old(requests) + (if WillRequest(old(jsList), url) then [url] else [])
      ensures scriptList == old(scriptList) && script == old(script) && runs == old(runs)
    {
      var e := if url in jsList then jsList[url] else Fresh(pre);
      jsList := jsList[url := e];
      if jsList[url].status == Wait {
        requests := requests + [url];
        jsList := jsList[url := jsList[url].(status := Loading)];
      }
    }

    /** `load`: each root path up to the first empty one that is not a key already is resolved against
        the base, (re)registered as WAIT with the preprocessor, given a placeholder, and requested. */
    method Load(paths: seq<string>, pre: Option<string -> string>)
      requires Valid()
      modifies this
      ensures Valid()
      ensures World(jsList, scriptList, requests) ==
              LoadAll(old(World(jsList, scriptList, requests)), paths[..TruthyPrefix(paths, "")], basePath, pre)
      ensures script == old(script) && runs == old(runs)
    {
      ghost var w0 := World(jsList, scriptList, requests);
      var i := 0;
      while i < |paths| && paths[i] != ""
        invariant i <= TruthyPrefix(paths, "")
        invariant Valid()
        invariant World(jsList, scriptList, requests) == LoadAll(w0, paths[..i], basePath, pre)
        invariant script == old(script) && runs == old(runs)
      {
        TruthyPrefixStep(paths, "", i);
        LoadAllSnoc(w0, paths, i, basePath, pre);
        LoadPath(paths[i], pre);
        i := i + 1;
      }
      TruthyPrefixExit(paths, "", i);
    }

    /** The body of the `load` loop for one root path. */
    method LoadPath(path: string, pre: Option<string -> string>)
      requires Valid()
      modifies this
      ensures Valid()
      ensures World(jsList, scriptList, requests) == LoadOne(old(World(jsList, scriptList, requests)), path, basePath, pre)
      ensures script == old(script) && runs == old(runs)
    {
      if path !in jsList {
        var filePath := HandleUrl(path, basePath);
        jsList := jsList[filePath := Fresh(pre)];
        scriptList := scriptList + [Placeholder(filePath)];
        GetScript(filePath, None);
      }
    }

    /** `updateScriptList`: marks `scriptPath` LOADED with its segments, replaces every visited
        placeholder of a LOADED file by this file's segments, and reports whether no placeholder is
        left before the first falsy unit. */
    method UpdateScriptList(segs: seq<string>, loadList: seq<string>, scriptPath: string, content: string)
      returns (completed: bool)
      requires Valid()
      modifies this
      ensures Valid()
      ensures jsList == old(jsList)[scriptPath := Entry(Loaded, content, segs, None)]
      ensures scriptList == Expand(old(scriptList), LoadedKeys(jsList), Block(segs, Join(loadList, "@@")))
      ensures completed == Complete(scriptList)
      ensures script == old(script) && requests == old(requests) && runs == old(runs)
    {
      var joined := Join(loadList, "@@");
      jsList := jsList[scriptPath := Entry(Loaded, content, segs, None)];
      ExpandAllTruthy(scriptList, LoadedKeys(jsList), Block(segs, joined));
      scriptList := SpliceLoaded(scriptList, jsList, segs, joined);
      completed := IsComplete(scriptList);
    }

    /** `handleScript`, run when the request for `url` completes: the text (empty after an error,
        otherwise preprocessed when the entry has a preprocessor) is split on directives, the paths
        are resolved against `url`, empty literals are stripped, and the script list is updated.
        When no placeholder is left the script is assembled and run; otherwise every import of the
        file is passed to `getScript`. */
    method OnLoaded(url: string, err: Option<int>, text: string)
      requires Valid() && url in requests
      modifies this
      ensures Valid()
      ensures var data := Received(old(jsList)[url], err, text);
              var reg := old(jsList)[url := Entry(Loaded, data, Segments(data, url), None)];
              var next := Imports(data, url)[..TruthyPrefix(Imports(data, url), "")];
              scriptList == Expand(old(scriptList), LoadedKeys(reg), Block(Segments(data, url), Join(Imports(data, url), "@@"))) &&
              url in jsList && jsList[url] == reg[url] &&
              if Complete(scriptList) then
                jsList == reg && requests == old(requests) && script == Build(scriptList) && runs == old(runs) + [script]
              else
                jsList == GetAll(reg, next) && requests == old(requests) + Requested(reg, next) &&
                script == old(script) && runs == old(runs)
    {
      var data := if err.Some? then "" else text;
      if err.None? && jsList[url].handle.Some? {
        data := jsList[url].handle.value(data);
      }
      var segs, loadList := HandleText(data, url);
      var completed := UpdateScriptList(segs, loadList, url, data);
      if completed {
        script := Build(scriptList);
        runs := runs + [script];
      } else {
        ghost var reg := jsList;
        RequestAll(loadList);
        GetAllKeepsSettled(reg, loadList[..TruthyPrefix(loadList, "")], url);
      }
    }

    /** The last loop of `handleScript`: `getScript` for each import up to the first empty one, with
        no preprocessor. */
    method RequestAll(urls: seq<string>)
      requires Valid()
      modifies this
      ensures Valid()
      ensures jsList == GetAll(old(jsList), urls[..TruthyPrefix(urls, "")])
      ensures requests == old(requests) + Requested(old(jsList), urls[..TruthyPrefix(urls, "")])
      ensures scriptList == old(scriptList) && script == old(script) && runs == old(runs)
    {
      var i := 0;
      while i < |urls| && urls[i] != ""
        invariant i <= TruthyPrefix(urls, "")
        invariant Valid()
        invariant jsList == GetAll(old(jsList), urls[..i])
        invariant requests == old(requests) + Requested(old(jsList), urls[..i])
        invariant scriptList == old(scriptList) && script == old(script) && runs == old(runs)
      {
        TruthyPrefixStep(urls, "", i);
        GetAllSnoc(old(jsList), urls, i);
        ghost var sent := if WillRequest(jsList, urls[i]) then [urls[i]] else [];
        ConcatAssoc(old(requests), Requested(old(jsList), urls[..i]), sent);
        GetScript(urls[i], None);
        i := i + 1;
      }
      TruthyPrefixExit(urls, "", i);
    }
  }

  /** The first half of `handleScript`: the text split on directives, the paths resolved against
      `filePath`, the empty literals stripped; and the list of resolved imports. */
  method HandleText(data: string, filePath: string) returns (segs: seq<string>, loadList: seq<string>)
    ensures segs == Segments(data, filePath) && loadList == Imports(data, filePath)
  {
    var resolved;
    resolved, loadList := ResolveImports(data, filePath);
    segs := StripEmpty(resolved);
  }

  /** The splice loop of `updateScriptList` over the script list `units`, with the registry `reg`
      already updated: a visited placeholder whose URL is LOADED is removed, the segments are inserted
      one by one at its place, and the visit goes on after the last inserted unit. */
  method SpliceLoaded(units: seq<Unit>, reg: map<string, Entry>, segs: seq<string>, joined: string)
    returns (r: seq<Unit>)
    ensures r == Expand(units, LoadedKeys(reg), Block(segs, joined))
  {
    r := units;
    ghost var k := 0;
    var i: nat := 0;
    while i < |r| && r[i] != Text("")
      invariant Spliced(units, k, r, i, LoadedKeys(reg), Block(segs, joined))
      decreases |units| - k
    {
      r, i := SpliceNext(units, k, r, i, reg, segs, joined);
      k := k + 1;
    }
    SpliceDone(units, k, r, i, LoadedKeys(reg), Block(segs, joined));
  }

  /** The state of the splice loop after `k` units of the original list: those units expanded, the
      rest untouched, and the visit at the first unit not yet expanded. */
  ghost predicate Spliced(units: seq<Unit>, k: nat, r: seq<Unit>, i: nat, loaded: set<string>, block: seq<Unit>)
  {
    k <= TruthyPrefix(units, Text("")) &&
    r == ExpandUpTo(units, k, loaded, block) + units[k..] &&
    i == |ExpandUpTo(units, k, loaded, block)|
  }

  /** One turn of the splice loop, in terms of the units of the original list. */
  method SpliceNext(units: seq<Unit>, ghost k: nat, r: seq<Unit>, i: nat, reg: map<string, Entry>, segs: seq<string>, joined: string)
    returns (r2: seq<Unit>, i2: nat)
    requires Spliced(units, k, r, i, LoadedKeys(reg), Block(segs, joined))
    requires i < |r| && r[i] != Text("")
    ensures Spliced(units, k + 1, r2, i2, LoadedKeys(reg), Block(segs, joined))
  {
    ghost var loaded := LoadedKeys(reg);
    ghost var block := Block(segs, joined);
    ghost var done := ExpandUpTo(units, k, loaded, block);
    assert (done + units[k..])[..|done|] == done && (done + units[k..])[|done|] == units[k];
    assert (done + units[k..])[|done| + 1..] == units[k + 1..];
    TruthyPrefixStep(units, Text(""), k);
    r2, i2 := SpliceAt(r, i, reg, segs, joined);
    SpliceStep(units, k, r, i, r2, i2, loaded, block);
  }

  /** One turn of the splice loop at index `i`: a placeholder whose URL is LOADED is removed and the
      segments are inserted in its place (the `i--` and the loop's `i++` then step past them);
      any other unit is stepped over. */
  method SpliceAt(units: seq<Unit>, i: nat, reg: map<string, Entry>, segs: seq<string>, joined: string)
    returns (r: seq<Unit>, next: nat)
    requires i < |units|
    ensures r == units[..i] + Replace(units[i], LoadedKeys(reg), Block(segs, joined)) + units[i + 1..]
    ensures next == i + |Replace(units[i], LoadedKeys(reg), Block(segs, joined))|
  {
    var x := units[i];
    var j: int := i;
    r := units;
    if x.Placeholder? && x.url in reg && reg[x.url].status == Loaded {
      r := r[..i] + r[i + 1..];
      r, j := InsertSegments(r, i, segs, joined);
      assert r[..i] == units[..i] && r[i..][..j - i] == Block(segs, joined);
      j := j - 1;
    } else {
      assert units == units[..i] + [x] + units[i + 1..];
    }
    next := j + 1;
  }

  /** The inner loop of the splice: the segments up to the first empty one are inserted at `i`
      one after the other, each as a placeholder or a literal. */
  method InsertSegments(units: seq<Unit>, i: nat, segs: seq<string>, joined: string) returns (r: seq<Unit>, e: nat)
    requires i <= |units|
    ensures r == units[..i] + Block(segs, joined) + units[i..]
    ensures e == i + |Block(segs, joined)|
  {
    ghost var block := Block(segs, joined);
    r, e := units, i;
    var j := 0;
    while j < |segs| && segs[j] != ""
      invariant j <= TruthyPrefix(segs, "")
      invariant r == units[..i] + block[..j] + units[i..]
      invariant e == i + j
    {
      assert r[..e] == units[..i] + block[..j] && r[e..] == units[i..];
      assert block[..j + 1] == block[..j] + [block[j]];
      BlockAt(segs, joined, j);
      r := r[..e] + [Wrap(segs[j], joined)] + r[e..];
      e := e + 1;
      j := j + 1;
    }
    assert block[..j] == block;
  }

  /** The final loop of `updateScriptList`: `completed` stays true unless a placeholder comes before
      the first falsy unit. */
  method IsComplete(units: seq<Unit>) returns (completed: bool)
    ensures completed == Complete(units)
  {
    completed := true;
    var i := 0;
    while i < |units| && units[i] != Text("")
      invariant 0 <= i <= TruthyPrefix(units, Text(""))
      invariant forall m :: 0 <= m < i ==> units[m].Text?
    {
      if units[i].Placeholder? {
        completed := false;
        break;
      }
      i := i + 1;
    }
  }

  /** One turn of the splice loop, in terms of the units of the original list. */
  lemma SpliceStep(units: seq<Unit>, k: nat, r: seq<Unit>, i: nat, r2: seq<Unit>, i2: nat,
                   loaded: set<string>, block: seq<Unit>)
    requires k < |units|
    requires r == ExpandUpTo(units, k, loaded, block) + units[k..] && i == |ExpandUpTo(units, k, loaded, block)|
    requires r2 == r[..i] + Replace(units[k], loaded, block) + r[i + 1..]
    requires i2 == i + |Replace(units[k], loaded, block)|
    ensures r2 == ExpandUpTo(units, k + 1, loaded, block) + units[k + 1..]
    ensures i2 == |ExpandUpTo(units, k + 1, loaded, block)|
  {
    ghost var done := ExpandUpTo(units, k, loaded, block);
    assert (done + units[k..])[..|done|] == done && (done + units[k..])[|done|] == units[k];
    assert (done + units[k..])[|done| + 1..] == units[k + 1..];
  }

  /** When the splice loop stops, the list is the expansion of the original one. */
  lemma SpliceDone(units: seq<Unit>, k: nat, r: seq<Unit>, i: nat, loaded: set<string>, block: seq<Unit>)
    requires k <= TruthyPrefix(units, Text(""))
    requires r == ExpandUpTo(units, k, loaded, block) + units[k..] && i == |ExpandUpTo(units, k, loaded, block)|
    requires i >= |r| || r[i] == Text("")
    ensures r == Expand(units, loaded, block)
  {
    ExpandPrefix(units, k, loaded, block);
    if k < |units| {
      ghost var done := ExpandUpTo(units, k, loaded, block);
      assert (done + units[k..])[|done|] == units[k];
    }
  }

}
