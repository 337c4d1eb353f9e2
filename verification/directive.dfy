/** Splitting fetched script text on import directives `//@import(path)` (importJS.js line 35), and
    the two loops of `handleScript` that resolve the captured paths and strip empty literals
    (importJS.js lines 181-199). */
module Directive {
  import opened Js
  import opened Url

  /** What precedes the path in a directive. */
  const Marker: string := "//@import("

  /** The directive that imports `path`. */
  function ImportText(path: string): string
  {
    Marker + path + ")"
  }

  /** The class `[a-zA-Z0-9_.\/]` of the directive pattern. */
  predicate IsPathChar(c: char)
  {
    ('a' <= c <= 'z') || ('A' <= c <= 'Z') || ('0' <= c <= '9') || c == '_' || c == '.' || c == '/'
  }

  /** What the group `([a-zA-Z0-9_.\/]+)` can capture. */
  predicate IsPath(p: string)
  {
    |p| > 0 && forall i :: 0 <= i < |p| ==> IsPathChar(p[i])
  }

  /** The length of the longest run of path characters starting at `k`. */
  function PathRun(t: string, k: nat): (n: nat)
    requires k <= |t|
    ensures k + n <= |t|
    ensures forall j :: k <= j < k + n ==> IsPathChar(t[j])
    ensures k + n == |t| || !IsPathChar(t[k + n])
    decreases |t| - k
  {
    if k < |t| && IsPathChar(t[k]) then 1 + PathRun(t, k + 1) else 0
  }

  /** A directive found at some position: where it ends, and the path it captures. */
  datatype Match = Match(end: nat, path: string)

  /** The directive pattern matched at position `q`. The greedy `+` takes the longest run of path
      characters; giving characters back cannot help, because `)` is not a path character. */
  function MatchAt(t: string, q: nat): (m: Option<Match>)
    requires q <= |t|
    ensures m.Some? ==> q < m.value.end <= |t| && IsPath(m.value.path) &&
                        t[q..m.value.end] == ImportText(m.value.path)
  {
    var s := q + |Marker|;
    if s <= |t| && t[q..s] == Marker then
      var n := PathRun(t, s);
      if n > 0 && s + n < |t| && t[s + n] == ')' then
        assert t[q..s + n + 1] == t[q..s] + t[s..s + n] + [t[s + n]];
        Some(Match(s + n + 1, t[s..s + n]))
      else None
    else None
  }

  /** Every occurrence of a directive is recognised, with its whole path captured. */
  lemma MatchesDirective(t: string, q: nat, p: string)
    requires IsPath(p)
    requires q + |Marker| + |p| < |t| && t[q..q + |Marker| + |p| + 1] == ImportText(p)
    ensures MatchAt(t, q) == Some(Match(q + |Marker| + |p| + 1, p))
  {
    var s := q + |Marker|;
    assert t[q..s] == (Marker + p + ")")[..|Marker|];
    forall j | s <= j < s + |p| ensures t[j] == p[j - s] {
      assert t[j] == (Marker + p + ")")[j - q];
    }
    assert t[s + |p|] == (Marker + p + ")")[|Marker| + |p|];
    PathRunIs(t, s, |p|);
    assert t[s..s + |p|] == p;
  }

  lemma {:induction false} PathRunIs(t: string, k: nat, n: nat)
    requires k + n <= |t|
    requires forall j :: k <= j < k + n ==> IsPathChar(t[j])
    requires k + n == |t| || !IsPathChar(t[k + n])
    ensures PathRun(t, k) == n
    decreases n
  {
    if n > 0 {
      PathRunIs(t, k + 1, n - 1);
    }
  }

  /** `t.split(IMPORT_EX)` continued from literal start `p`, trying a match at `q`: the
      ECMAScript split algorithm with the capture group spliced into the result. */
  function SplitFrom(t: string, p: nat, q: nat): (r: seq<string>)
    requires p <= q <= |t|
    ensures |r| % 2 == 1
    ensures forall i :: 0 <= i < |r| && i % 2 == 1 ==> IsPath(r[i])
    decreases |t| - q
  {
    if q == |t| then [t[p..]]
    else match MatchAt(t, q)
      case Some(m) =>
        var rest := SplitFrom(t, m.end, m.end);
        assert forall i :: 2 <= i < |rest| + 2 ==> ([t[p..q], m.path] + rest)[i] == rest[i - 2];
        [t[p..q], m.path] + rest
      case None => SplitFrom(t, p, q + 1)
  }

  /** `t.split(IMPORT_EX)`: literal code at even indices, captured paths at odd indices. */
  function Split(t: string): (r: seq<string>)
    ensures |r| % 2 == 1
    ensures forall i :: 0 <= i < |r| && i % 2 == 1 ==> IsPath(r[i])
  {
    SplitFrom(t, 0, 0)
  }

  /** Puts a split text back together: each captured path inside its directive again. */
  function Unsplit(parts: seq<string>): string
    requires |parts| % 2 == 1
  {
    if |parts| == 1 then parts[0]
    else parts[0] + (ImportText(parts[1]) + Unsplit(parts[2..]))
  }

  /** Splitting loses nothing: the literals and the directives around the paths make up the text. */
  lemma SplitRoundTrip(t: string)
    ensures Unsplit(Split(t)) == t
  {
    SplitFromRoundTrip(t, 0, 0);
  }

  lemma {:induction false} SplitFromRoundTrip(t: string, p: nat, q: nat)
    requires p <= q <= |t|
    ensures Unsplit(SplitFrom(t, p, q)) == t[p..]
    decreases |t| - q
  {
    if q < |t| {
      match MatchAt(t, q)
      case Some(m) =>
        SplitFromRoundTrip(t, m.end, m.end);
        Reassemble(t, p, q, m.end, m.path, SplitFrom(t, m.end, m.end));
      case None =>
        SplitFromRoundTrip(t, p, q + 1);
    }
  }

  /** A literal, a directive and the reassembled rest of the text give back the text. */
  lemma Reassemble(t: string, p: nat, q: nat, e: nat, path: string, rest: seq<string>)
    requires p <= q < e <= |t| && t[q..e] == ImportText(path)
    requires |rest| % 2 == 1 && Unsplit(rest) == t[e..]
    ensures Unsplit([t[p..q], path] + rest) == t[p..]
  {
    var r := [t[p..q], path] + rest;
    assert r[0] == t[p..q] && r[1] == path && r[2..] == rest;
    SliceSplit(t, q, e);
    SliceSplit(t, p, q);
  }

  /** No directive occurs anywhere in `s`. */
  ghost predicate NoDirectiveIn(s: string)
  {
    forall x: nat, path :: IsPath(path) ==> !OccursAt(s, ImportText(path), x)
  }

  /** No literal of a split (even index) holds a directive. */
  ghost predicate LiteralsFree(parts: seq<string>)
  {
    forall i :: 0 <= i < |parts| && i % 2 == 0 ==> NoDirectiveIn(parts[i])
  }

  /** Splitting finds every directive: no literal of the split still holds one. With
      `SplitRoundTrip`, the captured paths are therefore exactly the directives of the text. */
  lemma SplitLiterals(t: string)
    ensures forall i :: 0 <= i < |Split(t)| && i % 2 == 0 ==> NoDirectiveIn(Split(t)[i])
  {
    SplitFromLiterals(t, 0, 0);
  }

  lemma {:induction false} SplitFromLiterals(t: string, p: nat, q: nat)
    requires p <= q <= |t|
    requires forall x :: p <= x < q ==> MatchAt(t, x).None?
    ensures LiteralsFree(SplitFrom(t, p, q))
    decreases |t| - q
  {
    if q == |t| {
      LiteralFree(t, p, q);
      assert t[p..] == t[p..q];
      assert SplitFrom(t, p, q) == [t[p..q]];
    } else {
      match MatchAt(t, q)
      case Some(m) =>
        LiteralFree(t, p, q);
        SplitFromLiterals(t, m.end, m.end);
        LiteralsCons(t[p..q], m.path, SplitFrom(t, m.end, m.end));
      case None =>
        SplitFromLiterals(t, p, q + 1);
    }
  }

  lemma LiteralsCons(lit: string, path: string, rest: seq<string>)
    requires NoDirectiveIn(lit) && LiteralsFree(rest)
    ensures LiteralsFree([lit, path] + rest)
  {
    var r := [lit, path] + rest;
    forall i | 0 <= i < |r| && i % 2 == 0 ensures NoDirectiveIn(r[i]) {
      if i >= 2 {
        assert r[i] == rest[i - 2];
      }
    }
  }

  /** A stretch of the text where the scanner matched nowhere holds no directive. */
  lemma LiteralFree(t: string, p: nat, q: nat)
    requires p <= q <= |t|
    requires forall x :: p <= x < q ==> MatchAt(t, x).None?
    ensures NoDirectiveIn(t[p..q])
  {
    forall x: nat, path | IsPath(path) ensures !OccursAt(t[p..q], ImportText(path), x) {
      OccursInSlice(t, p, q, ImportText(path), x);
      if p + x < q {
        DirectiveFound(t, p + x, path);
      }
    }
  }

  /** An occurrence inside a slice is an occurrence in the whole text, shifted by the slice start. */
  lemma OccursInSlice(t: string, p: nat, q: nat, pat: string, x: nat)
    requires p <= q <= |t| && |pat| > 0
    ensures OccursAt(t[p..q], pat, x) ==> p + x < q && OccursAt(t, pat, p + x)
  {
    if OccursAt(t[p..q], pat, x) {
      var a, b := t[p..q][x..x + |pat|], t[p + x..p + x + |pat|];
      assert forall j :: 0 <= j < |pat| ==> a[j] == t[p + x + j] == b[j];
      assert a == b;
    }
  }

  /** A directive occurring at a position is matched there. */
  lemma DirectiveFound(t: string, y: nat, path: string)
    requires IsPath(path) && y <= |t|
    ensures OccursAt(t, ImportText(path), y) ==> MatchAt(t, y).Some?
  {
    if OccursAt(t, ImportText(path), y) {
      MatchesDirective(t, y, path);
    }
  }

  /** Kept as a lemma rather than an inline `assert`: the caller's context then never sees the
      slice terms of the proof, which keeps `Reassemble` cheap. */
  lemma SliceSplit(t: string, a: nat, b: nat)
    requires a <= b <= |t|
    ensures t[a..] == t[a..b] + t[b..]
  {
  }

  /** A text that is exactly one directive splits into two empty literals around the path. */
  lemma SplitDirectiveOnly(path: string)
    requires IsPath(path)
    ensures Split(ImportText(path)) == ["", path, ""]
  {
    var t := ImportText(path);
    assert t[0..|t|] == t;
    MatchesDirective(t, 0, path);
    assert t[|t|..] == "";
    assert SplitFrom(t, |t|, |t|) == [""];
    assert SplitFrom(t, 0, 0) == [t[0..0], path] + SplitFrom(t, |t|, |t|);
  }

  /** The resolution `handleUrl` applies to every captured path of a file at `base`. */
  function Resolver(base: string): string -> string
  {
    url => Resolve(url, base)
  }

  /** The split text with every captured path (odd index) passed through `resolve`: what the first
      loop of `handleScript` leaves in the array. */
  function ResolvePaths(parts: seq<string>, resolve: string -> string): (r: seq<string>)
    requires |parts| % 2 == 1
    ensures |r| == |parts|
  {
    if |parts| == 1 then parts
    else ResolvePaths(parts[..|parts| - 2], resolve) + [resolve(parts[|parts| - 2]), parts[|parts| - 1]]
  }

  /** `loadList`: the resolved captured paths in source order, duplicates kept. */
  function ImportList(parts: seq<string>, resolve: string -> string): (r: seq<string>)
    requires |parts| % 2 == 1
    ensures |r| == |parts| / 2
  {
    if |parts| == 1 then []
    else ImportList(parts[..|parts| - 2], resolve) + [resolve(parts[|parts| - 2])]
  }

  /** Each captured path (odd index) is replaced by its resolution and each literal (even index)
      is kept; the import list holds the same resolutions, in order. */
  lemma ResolvedPointwise(parts: seq<string>, resolve: string -> string)
    requires |parts| % 2 == 1
    ensures forall i :: 0 <= i < |parts| ==>
              ResolvePaths(parts, resolve)[i] == if i % 2 == 1 then resolve(parts[i]) else parts[i]
    ensures forall k :: 0 <= k < |parts| / 2 ==>
              ImportList(parts, resolve)[k] == ResolvePaths(parts, resolve)[2 * k + 1]
  {
    forall i | 0 <= i < |parts|
      ensures ResolvePaths(parts, resolve)[i] == if i % 2 == 1 then resolve(parts[i]) else parts[i]
    {
      ResolvedAt(parts, resolve, i);
    }
    forall k | 0 <= k < |parts| / 2
      ensures ImportList(parts, resolve)[k] == ResolvePaths(parts, resolve)[2 * k + 1]
    {
      ImportAt(parts, resolve, k);
      ResolvedAt(parts, resolve, 2 * k + 1);
    }
  }

  /** Element `i` of the resolved array. */
  lemma {:induction false} ResolvedAt(parts: seq<string>, resolve: string -> string, i: nat)
    requires |parts| % 2 == 1 && i < |parts|
    ensures ResolvePaths(parts, resolve)[i] == if i % 2 == 1 then resolve(parts[i]) else parts[i]
  {
    if |parts| > 1 {
      var m := |parts| - 2;
      if i < m {
        ResolvedAt(parts[..m], resolve, i);
        assert parts[..m][i] == parts[i];
      }
    }
  }

  /** The import list, element by element: import `k` is the resolution of the path at `2k+1`. */
  lemma ImportsEach(parts: seq<string>, resolve: string -> string)
    requires |parts| % 2 == 1
    ensures forall k :: 0 <= k < |parts| / 2 ==> ImportList(parts, resolve)[k] == resolve(parts[2 * k + 1])
  {
    forall k | 0 <= k < |parts| / 2
      ensures ImportList(parts, resolve)[k] == resolve(parts[2 * k + 1])
    {
      ImportAt(parts, resolve, k);
    }
  }

  /** Import `k` alone. */
  lemma {:induction false} ImportAt(parts: seq<string>, resolve: string -> string, k: nat)
    requires |parts| % 2 == 1 && k < |parts| / 2
    ensures ImportList(parts, resolve)[k] == resolve(parts[2 * k + 1])
  {
    if |parts| > 1 {
      var m := |parts| - 2;
      if k < m / 2 {
        ImportAt(parts[..m], resolve, k);
        assert parts[..m][2 * k + 1] == parts[2 * k + 1];
      }
    }
  }

  /** One turn of the first `handleScript` loop: the path at odd index `i` is resolved in place and
      its resolution appended to the import list. */
  lemma ResolveStep(parts: seq<string>, i: nat, resolve: string -> string)
    requires i % 2 == 1 && i < |parts| && |parts| % 2 == 1
    ensures i + 2 <= |parts|
    ensures ResolvePaths(parts[..i + 2], resolve) + parts[i + 2..] ==
            (ResolvePaths(parts[..i], resolve) + parts[i..])[i := resolve(parts[i])]
    ensures ImportList(parts[..i + 2], resolve) == ImportList(parts[..i], resolve) + [resolve(parts[i])]
  {
    assert parts[..i + 2][..i] == parts[..i];
  }

  /** The split of `handleScript` and its first loop (`for(i = 1; scriptList[i]; i += 2)`): each
      captured path is replaced in place by its absolute URL, which is also pushed onto `loadList`.
      No captured path is empty, so the loop visits every one of them. */
  method ResolveImports(data: string, filePath: string) returns (resolved: seq<string>, loadList: seq<string>)
    ensures resolved == ResolvePaths(Split(data), Resolver(filePath))
    ensures loadList == ImportList(Split(data), Resolver(filePath))
  {
    var parts := Split(data);
    resolved, loadList := parts, [];
    var i := 1;
    assert parts[..1] == [parts[0]];
    while i < |resolved| && resolved[i] != ""
      invariant Resolving(parts, i, resolved, loadList, Resolver(filePath))
      decreases |parts| - i
    {
      resolved, loadList := ResolveNext(parts, i, resolved, loadList, filePath);
      i := i + 2;
    }
    ResolvingDone(parts, i, resolved, loadList, Resolver(filePath));
  }

  /** The state of that loop at odd index `i`: the paths before `i` resolved in place and listed. */
  ghost predicate Resolving(parts: seq<string>, i: nat, resolved: seq<string>, loadList: seq<string>,
                            resolve: string -> string)
  {
    |parts| % 2 == 1 && i % 2 == 1 && i <= |parts| &&
    (forall j :: 0 <= j < |parts| && j % 2 == 1 ==> IsPath(parts[j])) &&
    resolved == ResolvePaths(parts[..i], resolve) + parts[i..] &&
    loadList == ImportList(parts[..i], resolve)
  }

  /** One turn of that loop. */
  method ResolveNext(parts: seq<string>, i: nat, resolved: seq<string>, loadList: seq<string>, filePath: string)
    returns (resolved2: seq<string>, loadList2: seq<string>)
    requires Resolving(parts, i, resolved, loadList, Resolver(filePath)) && i < |resolved|
    ensures Resolving(parts, i + 2, resolved2, loadList2, Resolver(filePath))
  {
    var loadFilePath := HandleUrl(resolved[i], filePath);
    ResolveStep(parts, i, Resolver(filePath));
    resolved2 := resolved[i := loadFilePath];
    loadList2 := loadList + [loadFilePath];
  }

  /** The loop stops only at the end of the array, since no captured path is empty. */
  lemma ResolvingDone(parts: seq<string>, i: nat, resolved: seq<string>, loadList: seq<string>,
                      resolve: string -> string)
    requires Resolving(parts, i, resolved, loadList, resolve)
    requires i >= |resolved| || resolved[i] == ""
    ensures resolved == ResolvePaths(parts, resolve) && loadList == ImportList(parts, resolve)
  {
    assert parts[..i] == parts;
  }

  /** The state of the empty-literal loop of `handleScript` at index `i` with `offset` removals so
      far: an element equal to `''` is found at index `i` but the one removed is at `i - offset`. */
  function StripFrom(parts: seq<string>, i: nat, offset: nat): seq<string>
    requires offset <= i
    decreases |parts| - i
  {
    if i >= |parts| then parts
    else if parts[i] == "" then StripFrom(parts[..i - offset] + parts[i - offset + 1..], i + 1, offset + 1)
    else StripFrom(parts, i + 1, offset)
  }

  /** What the empty-literal loop leaves of `parts`. */
  function Strip(parts: seq<string>): seq<string>
  {
    StripFrom(parts, 0, 0)
  }

  /** The intended result of that loop: `parts` without its empty strings, the others in order. */
  function RemoveEmpty(parts: seq<string>): (r: seq<string>)
    ensures forall i :: 0 <= i < |r| ==> r[i] != ""
  {
    if |parts| == 0 then []
    else (if parts[0] == "" then [] else [parts[0]]) + RemoveEmpty(parts[1..])
  }

  /** At most one element of `parts` is the empty string. */
  predicate AtMostOneEmpty(parts: seq<string>)
  {
    forall j, k :: 0 <= j < k < |parts| ==> parts[j] != "" || parts[k] != ""
  }

  /** The empty-literal loop of `handleScript`, splicing the array it walks. */
  method StripEmpty(parts: seq<string>) returns (r: seq<string>)
    ensures r == Strip(parts)
    ensures AtMostOneEmpty(parts) ==> r == RemoveEmpty(parts)
  {
    r := parts;
    var offset, i := 0, 0;
    while i < |r|
      invariant offset <= i
      invariant StripFrom(r, i, offset) == Strip(parts)
      decreases |r| - i
    {
      if r[i] == "" {
        r := r[..i - offset] + r[i - offset + 1..];
        offset := offset + 1;
      }
      i := i + 1;
    }
    if AtMostOneEmpty(parts) {
      StripAtMostOneEmpty(parts);
    }
  }

  /** With at most one empty string the loop removes exactly that one and keeps the rest in order. */
  lemma StripAtMostOneEmpty(parts: seq<string>)
    requires AtMostOneEmpty(parts)
    ensures Strip(parts) == RemoveEmpty(parts)
  {
    if e :| 0 <= e < |parts| && parts[e] == "" {
      StripOneEmpty(parts, 0, e);
      RemoveOneEmpty(parts, e);
    } else {
      StripNoEmpty(parts, 0, 0);
      RemoveEmptyNone(parts);
    }
  }

  lemma RemoveOneEmpty(parts: seq<string>, e: nat)
    requires e < |parts| && parts[e] == ""
    requires forall j :: 0 <= j < |parts| && j != e ==> parts[j] != ""
    ensures RemoveEmpty(parts) == parts[..e] + parts[e + 1..]
  {
    var a, c := parts[..e], parts[e + 1..];
    assert parts == a + [""] + c;
    forall j | 0 <= j < |a| ensures a[j] != "" {
      assert a[j] == parts[j];
    }
    forall j | 0 <= j < |c| ensures c[j] != "" {
      assert c[j] == parts[e + 1 + j];
    }
    RemoveEmptyConcat(a + [""], c);
    RemoveEmptyConcat(a, [""]);
    assert RemoveEmpty([""]) == [];
    RemoveEmptyNone(a);
    RemoveEmptyNone(c);
  }

  lemma {:induction false} StripNoEmpty(parts: seq<string>, i: nat, offset: nat)
    requires offset <= i
    requires forall j :: i <= j < |parts| ==> parts[j] != ""
    ensures StripFrom(parts, i, offset) == parts
    decreases |parts| - i
  {
    if i < |parts| {
      StripNoEmpty(parts, i + 1, offset);
    }
  }

  lemma {:induction false} StripOneEmpty(parts: seq<string>, i: nat, e: nat)
    requires i <= e < |parts| && parts[e] == ""
    requires forall j :: i <= j < |parts| && j != e ==> parts[j] != ""
    ensures StripFrom(parts, i, 0) == parts[..e] + parts[e + 1..]
    decreases e - i
  {
    if i < e {
      StripOneEmpty(parts, i + 1, e);
    } else {
      var rest := parts[..e] + parts[e + 1..];
      forall j | e + 1 <= j < |rest| ensures rest[j] != "" {
        assert rest[j] == parts[j + 1];
      }
      StripNoEmpty(rest, e + 1, 1);
    }
  }

  lemma {:induction false} RemoveEmptyConcat(a: seq<string>, b: seq<string>)
    ensures RemoveEmpty(a + b) == RemoveEmpty(a) + RemoveEmpty(b)
    decreases |a|
  {
    if |a| == 0 {
      assert a + b == b;
    } else {
      assert (a + b)[1..] == a[1..] + b;
      RemoveEmptyConcat(a[1..], b);
    }
  }

  lemma {:induction false} RemoveEmptyNone(parts: seq<string>)
    requires forall j :: 0 <= j < |parts| ==> parts[j] != ""
    ensures RemoveEmpty(parts) == parts
  {
    if |parts| > 0 {
      RemoveEmptyNone(parts[1..]);
    }
  }

  /** With two empty strings the loop removes the wrong element: the array `['', url, '']` that a
      file holding nothing but one directive produces comes out as `['']`, losing the import. */
  lemma StripTwoEmpties(url: string)
    ensures Strip(["", url, ""]) == [""]
  {
    var s0 := ["", url, ""];
    assert s0[..0] + s0[1..] == [url, ""];
    var s1 := [url, ""];
    assert s1[..0] + s1[1..] == [""];
    assert Strip(s0) == StripFrom(s1, 1, 1);
    assert StripFrom(s1, 1, 1) == StripFrom([""], 2, 2);
  }

  /** The segments `handleScript` stores for a file and splices into the script list. */
  function Segments(text: string, filePath: string): seq<string>
  {
    Strip(ResolvePaths(Split(text), Resolver(filePath)))
  }

  /** The import list `handleScript` builds for a file. */
  function Imports(text: string, filePath: string): seq<string>
  {
    ImportList(Split(text), Resolver(filePath))
  }

  /** A file that is nothing but one directive yields the single segment `''` (which the splice loop
      treats as the end of the segments), while its import list still names the imported file. */
  lemma DirectiveOnlyFile(path: string, filePath: string)
    requires IsPath(path)
    ensures Segments(ImportText(path), filePath) == [""]
    ensures Imports(ImportText(path), filePath) == [Resolve(path, filePath)]
  {
    SplitDirectiveOnly(path);
    assert ["", path, ""][..1] == [""];
    assert ResolvePaths(["", path, ""], Resolver(filePath)) == ["", Resolve(path, filePath), ""];
    StripTwoEmpties(Resolve(path, filePath));
  }
}
