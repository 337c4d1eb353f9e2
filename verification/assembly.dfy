/** The script list `scriptList` (importJS.js lines 327-334): what `updateScriptList` splices into it
    (importJS.js lines 233-276) and what `buildScript` makes of it (importJS.js lines 219-221). */
module Assembly {
  import opened Js

  /** A unit of the script list: literal code, or the one-element array `[url]` that stands for a
      file whose text is not spliced in yet. */
  datatype Unit = Text(code: string) | Placeholder(url: string)

  /** Only the empty literal is falsy; an array is truthy whatever it holds. */
  predicate Truthy(x: Unit)
  {
    x != Text("")
  }

  /** No unit of `units` is falsy. */
  predicate AllTruthy(units: seq<Unit>)
  {
    forall k :: 0 <= k < |units| ==> Truthy(units[k])
  }

  /** `loadListStr.indexOf(seg) >= 0`: a segment of a loaded file becomes a placeholder when the
      `'@@'`-joined import list contains it, and a literal otherwise. */
  function Wrap(seg: string, joined: string): Unit
  {
    if IndexOf(joined, seg) >= 0 then Placeholder(seg) else Text(seg)
  }

  /** The test is containment, whole or not: a placeholder exactly when `seg` occurs somewhere in
      the joined list. */
  lemma WrapOccurs(seg: string, joined: string)
    ensures Wrap(seg, joined) == if exists k: nat :: OccursAt(joined, seg, k) then Placeholder(seg) else Text(seg)
  {
  }

  /** What replaces a ready placeholder: the file's segments up to the first empty one, each wrapped. */
  function Block(segs: seq<string>, joined: string): (b: seq<Unit>)
    ensures |b| == TruthyPrefix(segs, "")
    ensures AllTruthy(b)
  {
    if |segs| == 0 || segs[0] == "" then []
    else
      var rest := Block(segs[1..], joined);
      assert forall j :: 1 <= j < |rest| + 1 ==> ([Wrap(segs[0], joined)] + rest)[j] == rest[j - 1];
      [Wrap(segs[0], joined)] + rest
  }

  /** The `j`-th unit of the block is the `j`-th segment, wrapped. */
  lemma {:induction false} BlockAt(segs: seq<string>, joined: string, j: nat)
    requires j < TruthyPrefix(segs, "")
    ensures Block(segs, joined)[j] == Wrap(segs[j], joined)
  {
    if j > 0 {
      BlockAt(segs[1..], joined, j - 1);
    }
  }

  /** What the splice loop makes of one visited unit. */
  function Replace(x: Unit, loaded: set<string>, block: seq<Unit>): seq<Unit>
  {
    if x.Placeholder? && x.url in loaded then block else [x]
  }

  /** The splice loop of `updateScriptList`: every visited placeholder whose URL is `loaded` is
      replaced by `block`; the visit stops at the first falsy unit, and inserted units are stepped
      over rather than visited. */
  function Expand(units: seq<Unit>, loaded: set<string>, block: seq<Unit>): seq<Unit>
  {
    if |units| == 0 then []
    else if !Truthy(units[0]) then units
    else Replace(units[0], loaded, block) + Expand(units[1..], loaded, block)
  }

  /** The replacements of the first `k` units, in order: what the splice loop has produced when it
      reaches the `k`-th unit of the original list. */
  function ExpandUpTo(units: seq<Unit>, k: nat, loaded: set<string>, block: seq<Unit>): seq<Unit>
    requires k <= |units|
  {
    if k == 0 then [] else ExpandUpTo(units, k - 1, loaded, block) + Replace(units[k - 1], loaded, block)
  }

  /** Up to the first falsy unit, expanding unit by unit from the left agrees with `Expand`. */
  lemma {:induction false} ExpandPrefix(units: seq<Unit>, k: nat, loaded: set<string>, block: seq<Unit>)
    requires k <= TruthyPrefix(units, Text(""))
    ensures Expand(units, loaded, block) == ExpandUpTo(units, k, loaded, block) + Expand(units[k..], loaded, block)
  {
    if k > 0 {
      ExpandPrefix(units, k - 1, loaded, block);
      var rest := units[k - 1..];
      assert rest[0] == units[k - 1] && rest[1..] == units[k..];
    } else {
      assert units[0..] == units;
    }
  }

  /** No unit before the first falsy one is a placeholder: the test that decides `completed`. */
  predicate Complete(units: seq<Unit>)
  {
    forall k :: 0 <= k < TruthyPrefix(units, Text("")) ==> units[k].Text?
  }

  /** `scriptList.join('')`: an array `[url]` prints as `url`. */
  function Build(units: seq<Unit>): string
  {
    if |units| == 0 then ""
    else (match units[0] case Text(c) => c case Placeholder(u) => u) + Build(units[1..])
  }

  /** Expansion works unit by unit over truthy units. */
  lemma {:induction false} ExpandConcat(a: seq<Unit>, b: seq<Unit>, loaded: set<string>, block: seq<Unit>)
    requires AllTruthy(a)
    ensures Expand(a + b, loaded, block) == Expand(a, loaded, block) + Expand(b, loaded, block)
  {
    if |a| == 0 {
      assert a + b == b;
    } else {
      assert (a + b)[0] == a[0];
      assert (a + b)[1..] == a[1..] + b;
      ExpandConcat(a[1..], b, loaded, block);
    }
  }

  /** One more truthy unit adds its replacement at the end. */
  lemma ExpandSnoc(a: seq<Unit>, x: Unit, loaded: set<string>, block: seq<Unit>)
    requires AllTruthy(a) && Truthy(x)
    ensures Expand(a + [x], loaded, block) == Expand(a, loaded, block) + Replace(x, loaded, block)
  {
    ExpandConcat(a, [x], loaded, block);
    assert Expand([x], loaded, block) == Replace(x, loaded, block) + Expand([], loaded, block);
  }

  /** A falsy unit ends the visit: it and everything after it stay as they are. */
  lemma ExpandStops(a: seq<Unit>, rest: seq<Unit>, loaded: set<string>, block: seq<Unit>)
    requires AllTruthy(a) && |rest| > 0 && !Truthy(rest[0])
    ensures Expand(a + rest, loaded, block) == Expand(a, loaded, block) + rest
  {
    ExpandConcat(a, rest, loaded, block);
  }

  /** Units that are not ready placeholders keep their place: with none ready the list is unchanged. */
  lemma {:induction false} ExpandIdle(units: seq<Unit>, loaded: set<string>, block: seq<Unit>)
    requires forall k :: 0 <= k < |units| ==> !(units[k].Placeholder? && units[k].url in loaded)
    ensures Expand(units, loaded, block) == units
  {
    if |units| > 0 && Truthy(units[0]) {
      ExpandIdle(units[1..], loaded, block);
      assert [units[0]] + units[1..] == units;
    }
  }

  /** A single ready placeholder among truthy units is replaced in place by the block; the units
      before and after it keep their order. */
  lemma SpliceInPlace(pre: seq<Unit>, url: string, post: seq<Unit>, loaded: set<string>, block: seq<Unit>)
    requires url in loaded
    requires AllTruthy(pre)
    requires forall k :: 0 <= k < |pre| ==> !(pre[k].Placeholder? && pre[k].url in loaded)
    requires forall k :: 0 <= k < |post| ==> !(post[k].Placeholder? && post[k].url in loaded)
    ensures Expand(pre + [Placeholder(url)] + post, loaded, block) == pre + block + post
  {
    ExpandConcat(pre + [Placeholder(url)], post, loaded, block);
    ExpandSnoc(pre, Placeholder(url), loaded, block);
    ExpandIdle(pre, loaded, block);
    ExpandIdle(post, loaded, block);
  }

  /** Expansion of truthy units with a truthy block leaves no falsy unit behind. */
  lemma {:induction false} ExpandAllTruthy(units: seq<Unit>, loaded: set<string>, block: seq<Unit>)
    requires AllTruthy(units) && AllTruthy(block)
    ensures AllTruthy(Expand(units, loaded, block))
  {
    if |units| > 0 {
      ExpandAllTruthy(units[1..], loaded, block);
      var r := Replace(units[0], loaded, block);
      var e := Expand(units[1..], loaded, block);
      assert forall k :: |r| <= k < |r| + |e| ==> (r + e)[k] == e[k - |r|];
    }
  }

  /** Without falsy units, `completed` means no placeholder is left at all. */
  lemma CompleteMeansNoPlaceholder(units: seq<Unit>)
    requires AllTruthy(units)
    ensures Complete(units) <==> forall k :: 0 <= k < |units| ==> units[k].Text?
  {
    assert TruthyPrefix(units, Text("")) == |units|;
  }

  /** The built script is the concatenation of the parts' scripts. */
  lemma {:induction false} BuildConcat(a: seq<Unit>, b: seq<Unit>)
    ensures Build(a + b) == Build(a) + Build(b)
  {
    if |a| == 0 {
      assert a + b == b;
    } else {
      assert (a + b)[0] == a[0];
      assert (a + b)[1..] == a[1..] + b;
      BuildConcat(a[1..], b);
    }
  }

  /** `pat` occurring inside `t` also occurs inside `s + t`, shifted by `|s|`. */
  lemma OccursShifted(s: string, t: string, pat: string, k: nat)
    requires OccursAt(t, pat, k)
    ensures OccursAt(s + t, pat, |s| + k)
  {
    assert (s + t)[|s| + k..|s| + k + |pat|] == t[k..k + |pat|];
  }

  /** `pat` occurring inside `s` also occurs inside `s + t`, at the same place. */
  lemma OccursExtended(s: string, t: string, pat: string, k: nat)
    requires OccursAt(s, pat, k)
    ensures OccursAt(s + t, pat, k)
  {
    assert (s + t)[k..k + |pat|] == s[k..k + |pat|];
  }

  /** Whatever occurs inside one of the joined strings occurs inside the join. */
  lemma {:induction false} OccursInJoin(parts: seq<string>, sep: string, i: nat, pat: string, k: nat)
    requires i < |parts| && OccursAt(parts[i], pat, k)
    ensures exists q: nat :: OccursAt(Join(parts, sep), pat, q)
  {
    if |parts| == 1 {
      assert OccursAt(Join(parts, sep), pat, k);
    } else if i == 0 {
      OccursExtended(parts[0], sep + Join(parts[1..], sep), pat, k);
      assert Join(parts, sep) == parts[0] + (sep + Join(parts[1..], sep));
      assert OccursAt(Join(parts, sep), pat, k);
    } else {
      OccursInJoin(parts[1..], sep, i - 1, pat, k);
      var q: nat :| OccursAt(Join(parts[1..], sep), pat, q);
      OccursShifted(parts[0] + sep, Join(parts[1..], sep), pat, q);
      assert OccursAt(Join(parts, sep), pat, |parts[0] + sep| + q);
    }
  }

  /** Every resolved import of a file becomes a placeholder when its segments are spliced in. */
  lemma ImportWrapped(loadList: seq<string>, i: nat)
    requires i < |loadList|
    ensures Wrap(loadList[i], Join(loadList, "@@")) == Placeholder(loadList[i])
  {
    WrapOccurs(loadList[i], Join(loadList, "@@"));
    assert loadList[i][0..|loadList[i]|] == loadList[i];
    OccursInJoin(loadList, "@@", i, loadList[i], 0);
  }

  /** So does any literal that happens to occur inside one of the imports, e.g. the code `a` of a
      file importing `http://h/a.js`: it is then taken for a file that is still to come. */
  lemma LiteralInsideImportWrapped(seg: string, loadList: seq<string>, i: nat, k: nat)
    requires i < |loadList| && OccursAt(loadList[i], seg, k)
    ensures Wrap(seg, Join(loadList, "@@")) == Placeholder(seg)
  {
    WrapOccurs(seg, Join(loadList, "@@"));
    OccursInJoin(loadList, "@@", i, seg, k);
  }
}
