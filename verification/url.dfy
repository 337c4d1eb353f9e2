/** Turning an import reference into an absolute URL, relative to the URL of the file that holds it
    (`handleUrl`, importJS.js lines 124-162). */
module Url {
  import opened Js

  /** The characters that `.` in a JavaScript regular expression does not match. */
  predicate IsLineTerminator(c: char)
  {
    c == '\n' || c == '\r' || c as int == 0x2028 || c as int == 0x2029
  }

  predicate NoLineTerminator(s: string)
  {
    forall i :: 0 <= i < |s| ==> !IsLineTerminator(s[i])
  }

  const Http: string := "http://"
  const Https: string := "https://"

  /** The pattern `^http\:\/\/.+$|^https\:\/\/.+$`: the scheme prefix, then at least one character,
      none of them a line terminator. */
  predicate IsAbsolute(url: string)
  {
    (|url| > |Http| && url[..|Http|] == Http && NoLineTerminator(url[|Http|..])) ||
    (|url| > |Https| && url[..|Https|] == Https && NoLineTerminator(url[|Https|..]))
  }

  /** One step of the path walk: `..` pops the last segment (a no-op on an empty list, as
      `Array.prototype.pop` is), anything else, `.` and the empty segment included, is pushed. */
  function Step(segments: seq<string>, s: string): seq<string>
  {
    if s == ".." then (if |segments| == 0 then [] else segments[..|segments| - 1])
    else segments + [s]
  }

  /** The directory segments after walking the reference segments `refs` from left to right. */
  function Walk(segments: seq<string>, refs: seq<string>): seq<string>
    decreases |refs|
  {
    if |refs| == 0 then segments else Walk(Step(segments, refs[0]), refs[1..])
  }

  /** The scheme prefix of `base`: everything up to and including the first `://`. */
  function SchemeOf(base: string): string
  {
    Substring(base, 0, IndexOf(base, "://") + 3)
  }

  /** The directory part of `base`: after the scheme, up to (excluding) the last `/`. */
  function DirectoryOf(base: string): string
  {
    Substring(base, IndexOf(base, "://") + 3, LastIndexOf(base, '/'))
  }

  /** The URL `handleUrl(url, base)` returns. */
  function Resolve(url: string, base: string): string
  {
    if IsAbsolute(url) then url
    else SchemeOf(base) + Join(Walk(SplitOn(DirectoryOf(base), '/'), SplitOn(url, '/')), "/")
  }

  /** `handleUrl`: the pop/push walk over the reference segments, then the loop that glues the
      segments together with `/` after the scheme. */
  method HandleUrl(url: string, localPath: string) returns (r: string)
    ensures IsAbsolute(url) ==> r == url
    ensures r == Resolve(url, localPath)
  {
    if IsAbsolute(url) {
      return url;
    }
    var httpStr := Substring(localPath, 0, IndexOf(localPath, "://") + 3);
    var dir := Substring(localPath, IndexOf(localPath, "://") + 3, LastIndexOf(localPath, '/'));
    var localArray := WalkSegments(SplitOn(dir, '/'), SplitOn(url, '/'));
    r := JoinAfter(httpStr, localArray);
  }

  /** The first loop of `handleUrl`: pop on `..`, push anything else. */
  method WalkSegments(segments: seq<string>, refs: seq<string>) returns (localArray: seq<string>)
    ensures localArray == Walk(segments, refs)
  {
    localArray := segments;
    var urlArray := refs;
    while |urlArray| > 0
      invariant Walk(localArray, urlArray) == Walk(segments, refs)
    {
      if urlArray[0] == ".." {
        if |localArray| > 0 {
          localArray := localArray[..|localArray| - 1];
        }
      } else {
        localArray := localArray + [urlArray[0]];
      }
      urlArray := urlArray[1..];
    }
  }

  /** The second loop of `handleUrl`: the segments glued after the scheme, `/` between them. */
  method JoinAfter(httpStr: string, localArray: seq<string>) returns (r: string)
    ensures r == httpStr + Join(localArray, "/")
  {
    r := httpStr;
    var i := 0;
    while i < |localArray|
      invariant 0 <= i <= |localArray|
      invariant r == httpStr + JoinedUpTo(localArray, i)
    {
      var piece := if i != |localArray| - 1 then localArray[i] + "/" else localArray[i];
      JoinedStep(localArray, i);
      assert httpStr + JoinedUpTo(localArray, i) + piece == httpStr + (JoinedUpTo(localArray, i) + piece);
      r := r + piece;
      i := i + 1;
    }
    assert localArray[..i] == localArray;
  }

  /** What the gluing loop of `handleUrl` has appended after visiting the first `i` segments: each
      of them, with a `/` after every one but the last segment of all. */
  function JoinedUpTo(parts: seq<string>, i: nat): string
    requires i <= |parts|
  {
    Join(parts[..i], "/") + (if 0 < i < |parts| then "/" else "")
  }

  lemma JoinedStep(parts: seq<string>, i: nat)
    requires i < |parts|
    ensures JoinedUpTo(parts, i + 1) ==
            JoinedUpTo(parts, i) + (if i != |parts| - 1 then parts[i] + "/" else parts[i])
  {
    if i > 0 {
      JoinSnoc(parts[..i], parts[i], "/");
      assert parts[..i] + [parts[i]] == parts[..i + 1];
    } else {
      assert parts[..1] == [parts[0]];
    }
  }

  /** Walking is compositional: the segments of a reference can be walked in two goes. */
  lemma {:induction false} WalkConcat(segments: seq<string>, a: seq<string>, b: seq<string>)
    ensures Walk(segments, a + b) == Walk(Walk(segments, a), b)
    decreases |a|
  {
    if |a| > 0 {
      assert (a + b)[1..] == a[1..] + b;
      WalkConcat(Step(segments, a[0]), a[1..], b);
    } else {
      assert a + b == b;
    }
  }

  /** A reference without `..` segments only appends: every segment, `.` and empty ones included,
      lands after the directory segments in order. */
  lemma {:induction false} WalkAppends(segments: seq<string>, refs: seq<string>)
    requires forall i :: 0 <= i < |refs| ==> refs[i] != ".."
    ensures Walk(segments, refs) == segments + refs
    decreases |refs|
  {
    if |refs| > 0 {
      WalkAppends(segments + [refs[0]], refs[1..]);
      assert segments + [refs[0]] + refs[1..] == segments + refs;
    }
  }

  /** A run of `..` segments pops one directory segment each and never more than there are. */
  lemma {:induction false} WalkPops(segments: seq<string>, n: nat)
    ensures Walk(segments, seq(n, _ => "..")) == segments[..|segments| - (if n <= |segments| then n else |segments|)]
    decreases n
  {
    if n > 0 {
      var ups := seq(n, _ => "..");
      assert ups[1..] == seq(n - 1, _ => "..");
      WalkPops(Step(segments, ".."), n - 1);
    }
  }

  /** For a relative reference and a base of the form `scheme://` + directory + `/` + file name, the
      result is the scheme followed by the directory's segments walked by the reference's segments. */
  lemma ResolveAgainstDirectory(url: string, scheme: string, dir: string, file: string)
    requires !IsAbsolute(url)
    requires |scheme| >= 3 && IndexOf(scheme, "://") == |scheme| - 3
    requires '/' !in file
    ensures Resolve(url, scheme + dir + "/" + file) ==
            scheme + Join(Walk(SplitOn(dir, '/'), SplitOn(url, '/')), "/")
  {
    BaseParts(scheme, dir, file);
  }

  /** The scheme and the directory of a base of that form. */
  lemma BaseParts(scheme: string, dir: string, file: string)
    requires |scheme| >= 3 && IndexOf(scheme, "://") == |scheme| - 3
    requires '/' !in file
    ensures SchemeOf(scheme + dir + "/" + file) == scheme
    ensures DirectoryOf(scheme + dir + "/" + file) == dir
  {
    var rest := dir + "/" + file;
    assert scheme + dir + "/" + file == scheme + rest;
    SchemeIndex(scheme, rest);
    SchemeOfBase(scheme, rest);
    DirectoryOfBase(scheme, dir, file);
  }

  lemma SchemeOfBase(scheme: string, rest: string)
    requires IndexOf(scheme + rest, "://") + 3 == |scheme|
    ensures SchemeOf(scheme + rest) == scheme
  {
    SchemePrefix(scheme, rest);
  }

  lemma DirectoryOfBase(scheme: string, dir: string, file: string)
    requires IndexOf(scheme + (dir + "/" + file), "://") + 3 == |scheme|
    requires '/' !in file
    ensures DirectoryOf(scheme + dir + "/" + file) == dir
  {
    assert scheme + (dir + "/" + file) == scheme + dir + "/" + file;
    LastSlash(scheme + dir, file);
    DirectorySlice(scheme, dir, "/" + file);
    assert scheme + dir + "/" + file == scheme + dir + ("/" + file);
  }

  lemma SchemeIndex(scheme: string, rest: string)
    requires |scheme| >= 3 && IndexOf(scheme, "://") == |scheme| - 3
    ensures IndexOf(scheme + rest, "://") + 3 == |scheme|
  {
    IndexOfExtended(scheme, rest, "://");
  }

  lemma SchemePrefix(scheme: string, rest: string)
    ensures Substring(scheme + rest, 0, |scheme|) == scheme
  {
    assert (scheme + rest)[0..|scheme|] == scheme;
  }

  lemma DirectorySlice(scheme: string, dir: string, rest: string)
    ensures Substring(scheme + dir + rest, |scheme|, |scheme| + |dir|) == dir
  {
    assert (scheme + dir + rest)[|scheme|..|scheme| + |dir|] == dir;
  }

  /** The last `/` of `head + "/" + file` is the one before `file` when `file` holds none. */
  lemma LastSlash(head: string, file: string)
    requires '/' !in file
    ensures LastIndexOf(head + "/" + file, '/') == |head|
  {
    var s := head + "/" + file;
    assert s[|head|] == '/';
    assert forall j :: |head| < j < |s| ==> s[j] == file[j - |head| - 1];
  }

  /** The example of a sibling directory: `../lib/u.js` against `http://h/dir/file.js`. */
  lemma ResolveSiblingExample(url: string, base: string)
    requires url == "../lib/u.js" && base == "http://h/dir/file.js"
    ensures Resolve(url, base) == "http://" + "h/lib/u.js"
  {
    ExampleBase(url, base);
    ExampleTail(url);
  }

  lemma ExampleBase(url: string, base: string)
    requires url == "../lib/u.js" && base == "http://h/dir/file.js"
    ensures Resolve(url, base) == "http://" + Join(Walk(SplitOn("h/dir", '/'), SplitOn(url, '/')), "/")
  {
    NotAbsoluteUnlessH(url);
    HttpSchemeIndex();
    assert base == "http://" + "h/dir" + "/" + "file.js";
    ResolveAgainstDirectory(url, "http://", "h/dir", "file.js");
  }

  lemma ExampleTail(url: string)
    requires url == "../lib/u.js"
    ensures Join(Walk(SplitOn("h/dir", '/'), SplitOn(url, '/')), "/") == "h/lib/u.js"
  {
    ExampleSegments(url);
    ExampleWalk();
  }

  /** A reference that does not start with `h` has no scheme. */
  lemma NotAbsoluteUnlessH(url: string)
    requires |url| > 0 && url[0] != 'h'
    ensures !IsAbsolute(url)
  {
    if |url| > |Http| {
      assert url[..|Http|][0] == url[0];
    }
    if |url| > |Https| {
      assert url[..|Https|][0] == url[0];
    }
  }

  lemma HttpSchemeIndex()
    ensures IndexOf("http://", "://") == 4
  {
    assert OccursAt("http://", "://", 4);
    assert "http://"[0..3][0] == 'h' && "http://"[1..4][0] == 't';
    assert "http://"[2..5][0] == 't' && "http://"[3..6][0] == 'p';
  }

  lemma ExampleSegments(url: string)
    requires url == "../lib/u.js"
    ensures SplitOn("h/dir", '/') == ["h", "dir"]
    ensures SplitOn(url, '/') == ["..", "lib", "u.js"]
  {
    assert Join(["h", "dir"], "/") == "h/dir";
    SplitJoin(["h", "dir"], '/');
    assert Join(["..", "lib", "u.js"], "/") == url;
    SplitJoin(["..", "lib", "u.js"], '/');
  }

  lemma ExampleWalk()
    ensures Join(Walk(["h", "dir"], ["..", "lib", "u.js"]), "/") == "h/lib/u.js"
  {
    var refs := ["..", "lib", "u.js"];
    assert refs[1..] == ["lib", "u.js"];
    assert Step(["h", "dir"], "..") == ["h"];
    assert "lib" != ".." && "u.js" != "..";
    WalkAppends(["h"], ["lib", "u.js"]);
    var p := ["h", "lib", "u.js"];
    assert p[1..] == ["lib", "u.js"];
    assert p[1..][1..] == ["u.js"];
  }

  /** An absolute reference is returned unchanged whatever the base. */
  lemma ResolveAbsoluteExample(base: string)
    ensures Resolve("http://other/a.js", base) == "http://other/a.js"
  {
    var u := "http://other/a.js";
    assert u[..7] == "http://";
    assert NoLineTerminator(u[7..]) by {
      forall i | 0 <= i < |u[7..]| ensures !IsLineTerminator(u[7..][i]) {
        assert u[7..][i] in "other/a.js";
      }
    }
  }
}
