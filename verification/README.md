# importJS, modelled in Dafny

importJS is a client-side `import` for JavaScript. A page calls `importJS.load([...paths], preprocessor)`. Each root file is downloaded and split on its `//@import(path)` directives. The imported files are downloaded as they are discovered. When a file arrives, its pieces are spliced into an ordered script list in place of the placeholder `[url]` that was waiting for it. Once no placeholder is left, the list is joined into one script and handed to the page.

The model covers the loader's state and operations:

- the session object, with its registry `jsList` (URL to status WAIT/LOADING/LOADED, content, segments, optional preprocessor) and its script list `scriptList` (literal code or placeholder units);
- URL resolution (`handleUrl`);
- directive splitting, path resolution and the removal of empty literals (`handleScript`);
- `getScript`, `updateScriptList`, `buildScript` and `load`.

Modules:

- `Js`: the JavaScript built-ins the loader relies on, as functions following their ECMAScript definitions. These are `indexOf`, `lastIndexOf`, `substring` (arguments clamped, then swapped), `split` on one character and `join`. It also holds `TruthyPrefix`, the element count a `for (...; a[i]; ...)` loop visits, for arrays of strings and of script units alike.
- `Url`: `handleUrl` as a method with its two loops. It is proved against `Resolve`: the absolute test, then the walk of the reference segments over the base's directory segments.
- `Directive`: a scanner for the fixed pattern `//@import([a-zA-Z0-9_./]+)` and the `split` it drives. It also holds the path-resolving loop and the empty-literal removal loop, with the `i`/`offset` arithmetic kept as written.
- `Registry`: the entry and status datatypes, `getScript`'s effect on the registry, and its repetition over an import list.
- `Assembly`: script units, the splice that `updateScriptList` performs (`Expand`), the completion test and `buildScript`.
- `Loader`: the `load` fold and the class `Session`, whose methods change `jsList`, `scriptList` and `script` in place. Each download completion is one call of `Session.OnLoaded(url, err, text)`, in any order the caller likes. The requests sent and the scripts handed to `run` are kept in ghost logs.

Several behaviours of the code differ from what a depth-first inliner would do. The model states them as the code has them:

- A file that is nothing but one directive splits into `["", path, ""]`, which is `["", url, ""]` once the path is resolved. The empty-literal loop turns that into `[""]`, so the file's placeholder is removed and nothing takes its place: the directive itself gets no placeholder (`Directive.DirectiveOnlyFile`). A depth-first inliner would put the imported file's text at the directive; this code does not. If placeholders remain, `getScript` is called for the import, and it sends a request only if the import is new or still WAIT. The import's text then lands wherever a placeholder for it, or any stale LOADED placeholder, remains. If no placeholder remains, the session completes and the script run is the join of the literals left. That script is empty exactly when no literal is left, as when the file's placeholder was the whole list (`Loader.DirectiveOnlyRootCompletes`).
- `load` tests whether the path as given is a registry key, but it registers the resolved URL. So loading the same relative path twice sends two requests and appends two placeholders (`Loader.RelativeRequestedTwice`).
- Any LOADED placeholder is replaced by the file that just arrived, whichever URL it stands for.
- A literal that happens to occur inside the `'@@'`-joined import list is wrapped as a placeholder.
- Every `for (...; a[i]; ...)` loop stops at the first empty string.

The model states these behaviours; it does not correct them.

## Model

| member | source | states |
|---|---|---|
| Url.HandleUrl | importJS.js:124-162 | an absolute reference (`http://` or `https://` followed by at least one character that is not a line terminator) comes back unchanged; any other reference yields `Resolve(url, base)`: the base's scheme prefix, then the base's directory segments walked by the reference's segments and joined with `/` |
| Url.WalkSegments | importJS.js:138-149 | the pop/push loop leaves exactly the directory segments walked by the reference segments |
| Url.JoinAfter | importJS.js:151-160 | the gluing loop yields the scheme prefix followed by the segments joined with `/` |
| Url.WalkAppends | importJS.js:138-149 | a reference without `..` segments appends all of its segments in order, `.` and empty segments included |
| Url.WalkPops | importJS.js:140-142 | each `..` pops one directory segment, and pops nothing once none are left |
| Url.WalkConcat | importJS.js:138-149 | walking a reference in two pieces gives the same result as walking it whole |
| Url.ResolveAgainstDirectory | importJS.js:129-160 | for a base of the form `scheme://` + directory + `/` + file name, a relative reference resolves to the scheme followed by the directory's segments walked by the reference |
| Url.ResolveSiblingExample | importJS.js:124-160 | `../lib/u.js` against `http://h/dir/file.js` resolves to `http://h/lib/u.js` |
| Url.ResolveAbsoluteExample | importJS.js:126-128 | `http://other/a.js` is returned unchanged whatever the base |
| Js.JoinSplit | importJS.js:135-136 | joining the pieces of a one-character split with that character gives the string back |
| Js.SplitJoin | importJS.js:135-136 | splitting the join of pieces that are free of the separator gives the pieces back |
| Js.IndexOfExtended | importJS.js:131 | the first `://` of a prefix is still the first one after text is appended |
| Directive.MatchAt | importJS.js:35 | a match found at a position is exactly a directive text around a non-empty path of path characters |
| Directive.MatchesDirective | importJS.js:35 | every directive occurring in the text is recognised at its position, with its whole path captured |
| Directive.Split | importJS.js:183 | the split has odd length, with captured paths at odd indices, each one a non-empty run of path characters; with `SplitLiterals`, no directive is left inside a literal |
| Directive.SplitLiterals | importJS.js:35 | no literal of the split (an even index) contains a directive text around any valid path, so every directive of the text is split out |
| Directive.SplitRoundTrip | importJS.js:183 | putting each captured path back inside its directive and concatenating gives the text back, so the split loses and invents nothing |
| Directive.SplitDirectiveOnly | importJS.js:183 | a text that is exactly one directive splits into `["", path, ""]` |
| Directive.ResolveImports | importJS.js:183-192 | the loop resolves every captured path in place and leaves the literals alone; `loadList` is the resolved paths in source order, duplicates kept |
| Directive.ResolvedPointwise | importJS.js:187-192 | element `i` of the resolved array is `handleUrl(parts[i], filePath)` at odd `i` and `parts[i]` at even `i`, and import `k` is element `2k+1` |
| Directive.ImportsEach | importJS.js:187-192 | import `k` is the resolution of the captured path at index `2k+1` |
| Directive.StripEmpty | importJS.js:194-199 | the result is what the literal `i`/`offset` loop leaves, and with at most one empty string it is the input with that one removed and the rest in order |
| Directive.StripAtMostOneEmpty | importJS.js:194-199 | with at most one empty string, the loop removes exactly the empty strings and keeps the others in order |
| Directive.StripTwoEmpties | importJS.js:194-199 | `["", url, ""]` comes out as `[""]`, losing the URL, because the second removal hits the wrong index |
| Directive.DirectiveOnlyFile | importJS.js:181-199 | a file holding only one directive yields the segments `[""]`, yet its import list names the resolved import |
| Registry.Get | importJS.js:102-115 | the key is added if new, as WAIT with the given preprocessor; a new or WAIT entry moves to LOADING; an existing entry keeps its other fields; every other key is unchanged |
| Registry.GetAllSettles | importJS.js:207-210 | after `getScript` for each import, every import is a key that is not WAIT, no key is lost or invented, and keys not imported are untouched |
| Registry.RequestedOnce | importJS.js:207-210 | those calls never request the same URL twice, and request only imports that were new or WAIT beforehand |
| Registry.GetAllKeepsSettled | importJS.js:104-114 | an entry that is LOADING or LOADED is never requested again and keeps all of its fields |
| Js.TruthyPrefix | importJS.js:245 | a `for (...; a[i]; ...)` visit covers the longest prefix of elements that are not the one falsy value: every element before the count is truthy, and the element at the count, if any, is falsy |
| Assembly.Block | importJS.js:254-262 | the inserted block holds one unit per segment up to the first empty one, none of them an empty literal |
| Assembly.BlockAt | importJS.js:254-260 | inserted unit `j` is segment `j`, wrapped |
| Assembly.WrapOccurs | importJS.js:235 | a segment becomes a placeholder exactly when it occurs somewhere in the `'@@'`-joined import list |
| Assembly.ImportWrapped | importJS.js:255-256 | every resolved import of the file becomes a placeholder |
| Assembly.LiteralInsideImportWrapped | importJS.js:255-256 | a literal that occurs inside one of the imports also becomes a placeholder |
| Assembly.SpliceInPlace | importJS.js:245-266 | one LOADED placeholder is replaced in place by the block, and the units before and after it keep their order |
| Assembly.ExpandIdle | importJS.js:245-266 | with no LOADED placeholder, the list is unchanged |
| Assembly.ExpandConcat | importJS.js:245-266 | over units that are not the empty literal, the splice works unit by unit: inserted units are never revisited |
| Assembly.ExpandStops | importJS.js:245 | an empty literal ends the visit, and it and everything after it stay as they are |
| Assembly.ExpandAllTruthy | importJS.js:245-266 | the splice never introduces an empty literal |
| Assembly.CompleteMeansNoPlaceholder | importJS.js:269-275 | when the list has no empty literal, `completed` holds exactly when no placeholder is left anywhere |
| Assembly.BuildConcat | importJS.js:219-221 | the built script of two lists is the concatenation of their built scripts |
| Loader.FailedFileIsBlank | importJS.js:174-180 | after a failed download the text is `''` whatever the preprocessor, so the file has no segments and no imports |
| Loader.DirectiveOnlyRootCompletes | importJS.js:181-205 | when the list holds only the placeholder of a file that is one directive and that file arrives, the list becomes empty, counts as complete and builds to the empty script, so `Session.OnLoaded` takes its complete branch: the empty script is run and the import is never requested |
| Loader.LoadOne | importJS.js:295-305 | a path that is already a key changes nothing; otherwise the resolved URL is (re)registered, then moved to LOADING, one placeholder for it is appended, and it is requested |
| Loader.LoadPlaceholders | importJS.js:294-306 | `load` appends exactly one placeholder per request it sends, in request order, and keeps the earlier request log |
| Loader.AbsoluteLoadedOnce | importJS.js:295 | loading an absolute path twice has the same effect as loading it once |
| Loader.RelativeRequestedTwice | importJS.js:295-304 | a relative path loaded twice is requested twice and gets two placeholders |
| Loader.Session.constructor | importJS.js:325-339 | a session starts with an empty registry, an empty script list and an empty script |
| Loader.Session.GetScript | importJS.js:102-115 | the registry becomes `Get(old registry, url, pre)`; a request is logged exactly when the key was new or WAIT |
| Loader.Session.Load | importJS.js:292-308 | the registry, script list and request log become the `load` fold over the paths before the first empty one |
| Loader.Session.LoadPath | importJS.js:295-305 | one turn of the `load` loop has the effect `LoadOne` states |
| Loader.Session.UpdateScriptList | importJS.js:233-276 | the file is LOADED with its content and segments; the script list is the splice of the file's block into every visited LOADED placeholder; the result is the completion test on the new list |
| Loader.Session.OnLoaded | importJS.js:172-212 | the file's text (blank on error, preprocessed otherwise) is split and resolved; the file is LOADED and spliced in; when complete, the script is the join of the list and is run once; otherwise the registry and request log are those of `getScript` over the imports before the first empty one |
| Loader.Session.RequestAll | importJS.js:207-210 | the registry and the request log become those of `getScript` on each import in turn |
| Loader.HandleText | importJS.js:181-199 | the segments and the import list are those of the split, resolve and strip definitions |
| Loader.SpliceLoaded | importJS.js:244-266 | the list after the splice loop equals `Expand` of the old list, with this file's block and the LOADED keys |
| Loader.SpliceAt | importJS.js:247-264 | one visit replaces a LOADED placeholder by the block and moves past it, and steps over any other unit |
| Loader.InsertSegments | importJS.js:254-262 | the block is inserted at the visited position, and the index ends just after it |
| Loader.IsComplete | importJS.js:268-275 | the result holds exactly when no placeholder comes before the first empty literal |

## Left out

- `httpRequest` (the XHR transport, the content-type dispatch to `responseXML` or `JSON.parse`, and the status-code mapping) is not part of this model. The transport is the ghost request log plus `Session.OnLoaded`, which may only be called for a URL that was requested. A 1xx response never calls back, and in the model that is a call that is never made. Responses are text.
- `run` and the DOM script injection are not part of this model. A completed script is appended to the ghost log `runs`.
- `BASE_PATH` comes from `window.location`; here it is the constructor's parameter. `substring` is modelled with its clamping and swapping, so no shape of the base needs to be assumed.
- `log` (console output) is not part of this model.
- Asynchronous interleaving is not modelled. Each completion is one atomic call, and calls may come in any order.
- User preprocessors are opaque `string -> string` functions. Their effect on the text is not analysed.
- Keys inherited from `Object.prototype` (for which `in` is true in JavaScript) are treated as absent.
- The regular-expression engine is replaced by a scanner for the one fixed directive pattern, with leftmost, non-overlapping matches.
- No termination, deduplication across `load` calls or depth-first ordering is claimed for a whole session, because the code does not guarantee them.
- The entry that `updateScriptList` writes has no `handle`; the model stores `None` there.
- Loader.SpliceLoaded: the splice is modelled on a sequence value that the method returns and `UpdateScriptList` assigns back, not as an in-place array splice. The visiting index is tied to the original list through a ghost counter.
