/** The JavaScript string and array built-ins the loader relies on, as pure functions.
    Each follows the ECMAScript 5 definition for the arguments the loader passes. */
module Js {

  /** A value that may be `undefined`. */
  datatype Option<+T> = None | Some(value: T)

  /** `pat` occurs in `s` starting at position `k`. */
  predicate OccursAt(s: string, pat: string, k: nat)
  {
    k + |pat| <= |s| && s[k..k + |pat|] == pat
  }

  /** `s.indexOf(pat)`: the first position at which `pat` occurs, or -1 when it does not occur. */
  function IndexOf(s: string, pat: string): (r: int)
    ensures r == -1 || (0 <= r && OccursAt(s, pat, r))
    ensures r == -1 ==> forall k: nat :: !OccursAt(s, pat, k)
    ensures r >= 0 ==> forall k: nat :: k < r ==> !OccursAt(s, pat, k)
  {
    IndexFrom(s, pat, 0)
  }

  function IndexFrom(s: string, pat: string, k: nat): (r: int)
    requires k <= |s|
    ensures r == -1 || (k <= r && OccursAt(s, pat, r))
    ensures r == -1 ==> forall j: nat :: k <= j ==> !OccursAt(s, pat, j)
    ensures r >= 0 ==> forall j: nat :: k <= j < r ==> !OccursAt(s, pat, j)
    decreases |s| - k
  {
    if OccursAt(s, pat, k) then k
    else if k == |s| then -1
    else IndexFrom(s, pat, k + 1)
  }

  /** A first occurrence inside a prefix is also the first occurrence in any extension of it. */
  lemma {:induction false} IndexOfExtended(s: string, t: string, pat: string)
    requires IndexOf(s, pat) >= 0
    ensures IndexOf(s + t, pat) == IndexOf(s, pat)
  {
    IndexFromExtended(s, t, pat, 0);
  }

  lemma {:induction false} IndexFromExtended(s: string, t: string, pat: string, k: nat)
    requires k <= |s| && IndexFrom(s, pat, k) >= 0
    ensures IndexFrom(s + t, pat, k) == IndexFrom(s, pat, k)
    decreases |s| - k
  {
    if k + |pat| <= |s| {
      assert (s + t)[k..k + |pat|] == s[k..k + |pat|];
    }
    if !OccursAt(s, pat, k) {
      IndexFromExtended(s, t, pat, k + 1);
    }
  }

  /** `s.lastIndexOf(c)` for a one-character pattern: the last position holding `c`, or -1. */
  function LastIndexOf(s: string, c: char): (r: int)
    ensures -1 <= r < |s|
    ensures r == -1 ==> forall j :: 0 <= j < |s| ==> s[j] != c
    ensures r >= 0 ==> s[r] == c && forall j :: r < j < |s| ==> s[j] != c
  {
    LastBefore(s, c, |s|)
  }

  function LastBefore(s: string, c: char, k: nat): (r: int)
    requires k <= |s|
    ensures -1 <= r < k
    ensures r == -1 ==> forall j :: 0 <= j < k ==> s[j] != c
    ensures r >= 0 ==> s[r] == c && forall j :: r < j < k ==> s[j] != c
  {
    if k == 0 then -1
    else if s[k - 1] == c then k - 1
    else LastBefore(s, c, k - 1)
  }

  /** The argument clamping of `String.prototype.substring`. */
  function Clamp(x: int, n: nat): (r: nat)
    ensures r <= n
  {
    if x < 0 then 0 else if x > n then n else x
  }

  /** `s.substring(a, b)`: both bounds are clamped into the string, then swapped if out of order. */
  function Substring(s: string, a: int, b: int): string
  {
    var x, y := Clamp(a, |s|), Clamp(b, |s|);
    if x <= y then s[x..y] else s[y..x]
  }

  /** `s.split(c)` for a one-character separator: the maximal pieces free of `c`, in order. */
  function SplitOn(s: string, c: char): (r: seq<string>)
    ensures |r| >= 1
    ensures forall i :: 0 <= i < |r| ==> c !in r[i]
  {
    if |s| == 0 then [""]
    else
      var rest := SplitOn(s[1..], c);
      if s[0] == c then [""] + rest else [[s[0]] + rest[0]] + rest[1..]
  }

  /** `parts.join(sep)`. */
  function Join(parts: seq<string>, sep: string): string
  {
    if |parts| == 0 then ""
    else if |parts| == 1 then parts[0]
    else parts[0] + sep + Join(parts[1..], sep)
  }

  /** Joining keeps the earlier pieces when one more piece is added at the end. */
  lemma {:induction false} JoinSnoc(parts: seq<string>, x: string, sep: string)
    requires |parts| >= 1
    ensures Join(parts + [x], sep) == Join(parts, sep) + sep + x
  {
    if |parts| > 1 {
      assert (parts + [x])[1..] == parts[1..] + [x];
      JoinSnoc(parts[1..], x, sep);
    }
  }

  /** Splitting and joining on the same character are inverse: joining the pieces gives the string back. */
  lemma {:induction false} JoinSplit(s: string, c: char)
    ensures Join(SplitOn(s, c), [c]) == s
  {
    if |s| > 0 {
      JoinSplit(s[1..], c);
      var rest := SplitOn(s[1..], c);
      if s[0] != c && |rest| > 1 {
        assert ([[s[0]] + rest[0]] + rest[1..])[1..] == rest[1..];
      }
      if s[0] == c {
        assert ([""] + rest)[1..] == rest;
        if |rest| == 1 {
          assert Join(rest, [c]) == rest[0];
        }
      }
    }
  }

  /** ... and splitting the join of pieces free of the separator gives the pieces back. */
  lemma {:induction false} SplitJoin(parts: seq<string>, c: char)
    requires |parts| >= 1
    requires forall i :: 0 <= i < |parts| ==> c !in parts[i]
    ensures SplitOn(Join(parts, [c]), c) == parts
  {
    if |parts| == 1 {
      SplitPiece(parts[0], c);
    } else {
      SplitJoin(parts[1..], c);
      SplitGlued(parts[0], Join(parts[1..], [c]), c);
    }
  }

  /** A string free of the separator splits into itself. */
  lemma {:induction false} SplitPiece(s: string, c: char)
    requires c !in s
    ensures SplitOn(s, c) == [s]
  {
    if |s| > 0 {
      assert c !in s[1..] by {
        forall j | 0 <= j < |s[1..]| ensures s[1..][j] != c {
          assert s[1..][j] == s[j + 1];
        }
      }
      SplitPiece(s[1..], c);
      assert [s[0]] + s[1..] == s;
    }
  }

  lemma {:induction false} SplitGlued(a: string, b: string, c: char)
    requires c !in a
    ensures SplitOn(a + [c] + b, c) == [a] + SplitOn(b, c)
  {
    if |a| == 0 {
      assert a + [c] + b == [c] + b;
      assert ([c] + b)[1..] == b;
    } else {
      assert (a + [c] + b)[1..] == a[1..] + [c] + b;
      assert c !in a[1..] by {
        forall j | 0 <= j < |a[1..]| ensures a[1..][j] != c {
          assert a[1..][j] == a[j + 1];
        }
      }
      SplitGlued(a[1..], b, c);
      assert [a[0]] + a[1..] == a;
    }
  }

  /** The length of the longest prefix of `a` free of `falsy`: over an array whose only falsy
      value is `falsy` (the empty string, say), a `for (...; a[i]; ...)` loop visits exactly
      these elements. */
  function TruthyPrefix<T(==)>(a: seq<T>, falsy: T): (n: nat)
    ensures n <= |a|
    ensures forall i :: 0 <= i < n ==> a[i] != falsy
    ensures n < |a| ==> a[n] == falsy
  {
    if |a| == 0 || a[0] == falsy then 0
    else
      var n := TruthyPrefix(a[1..], falsy);
      assert forall i :: 1 <= i < n + 1 ==> a[i] == a[1..][i - 1];
      1 + n
  }

  /** A `for (...; a[i]; ...)` loop that has reached `i` and sees a truthy element may go on ... */
  lemma TruthyPrefixStep<T>(a: seq<T>, falsy: T, i: nat)
    requires i <= TruthyPrefix(a, falsy) && i < |a| && a[i] != falsy
    ensures i + 1 <= TruthyPrefix(a, falsy)
  {
  }

  /** ... and one that sees a falsy element or the end has visited exactly the truthy prefix. */
  lemma TruthyPrefixExit<T>(a: seq<T>, falsy: T, i: nat)
    requires i <= TruthyPrefix(a, falsy) && (i >= |a| || a[i] == falsy)
    ensures i == TruthyPrefix(a, falsy)
  {
  }

  /** Regrouping a concatenation, stated once so that loops over request logs can cite it without
      the solver searching for it. */
  lemma ConcatAssoc<T>(a: seq<T>, b: seq<T>, c: seq<T>)
    ensures a + b + c == a + (b + c)
  {
  }
}
