/**
 * Searching, splitting and joining sequences, with the semantics of the
 * Foundation and Swift standard-library calls the request parser and the
 * response writer rely on:
 *  - `components(separatedBy:)` splits at every non-overlapping occurrence of
 *    a separator, scanning left to right, and keeps empty pieces (Components);
 *  - `split(separator:)` with its default `omittingEmptySubsequences: true`
 *    returns the maximal non-empty runs free of the separator (Tokens);
 *  - `joined(separator:)` (Join).
 * Everything is generic so that it serves both text (`seq<char>`) and bytes.
 */
module Seqs {
  import opened Wrappers

  /** The line terminator of HTTP/1.1 (section 2.2 of RFC 9112). */
  const CRLF: string := "\r\n"

  /** `pat` occurs in `s` starting at index `j`. */
  predicate MatchAt<T(==)>(s: seq<T>, pat: seq<T>, j: nat) {
    j + |pat| <= |s| && s[j..j + |pat|] == pat
  }

  /** The first occurrence of `pat` in `s` at or after index `i`. */
  function FindFrom<T(==)>(s: seq<T>, pat: seq<T>, i: nat): (r: Option<nat>)
    requires |pat| > 0
    ensures r.Some? ==> i <= r.value && MatchAt(s, pat, r.value)
    ensures r.Some? ==> forall j: nat :: i <= j < r.value ==> !MatchAt(s, pat, j)
    ensures r.None? ==> forall j: nat :: i <= j ==> !MatchAt(s, pat, j)
    decreases |s| - i
  {
    if i + |pat| > |s| then None
    else if s[i..i + |pat|] == pat then Some(i)
    else FindFrom(s, pat, i + 1)
  }

  /** `components(separatedBy: sep)`: the pieces between successive
      non-overlapping occurrences of `sep`, empty pieces included. */
  function Components<T(==)>(s: seq<T>, sep: seq<T>): (r: seq<seq<T>>)
    requires |sep| > 0
    ensures |r| >= 1
    ensures forall k: nat, j: nat :: k < |r| ==> !MatchAt(r[k], sep, j)
    decreases |s|
  {
    match FindFrom(s, sep, 0)
    case None => [s]
    case Some(j) =>
      NoMatchInPrefix(s, sep, j);
      [s[..j]] + Components(s[j + |sep|..], sep)
  }

  /** A prefix that ends before the first occurrence holds no occurrence. */
  lemma NoMatchInPrefix<T>(s: seq<T>, pat: seq<T>, n: nat)
    requires |pat| > 0 && n <= |s|
    requires forall j: nat :: j < n ==> !MatchAt(s, pat, j)
    ensures forall j: nat :: !MatchAt(s[..n], pat, j)
  {
    forall j: nat | MatchAt(s[..n], pat, j) ensures false {
      assert s[j..j + |pat|] == s[..n][j..j + |pat|];
      assert MatchAt(s, pat, j);
    }
  }

  /** `joined(separator: sep)`. */
  function Join<T>(parts: seq<seq<T>>, sep: seq<T>): seq<T> {
    if |parts| == 0 then []
    else if |parts| == 1 then parts[0]
    else parts[0] + sep + Join(parts[1..], sep)
  }

  /** Joining the components with their separator gives back the input. */
  lemma {:induction false} JoinComponents<T>(s: seq<T>, sep: seq<T>)
    requires |sep| > 0
    ensures Join(Components(s, sep), sep) == s
    decreases |s|
  {
    match FindFrom(s, sep, 0)
    case None =>
    case Some(j) =>
      var rest := s[j + |sep|..];
      var comps := Components(s, sep);
      JoinComponents(rest, sep);
      assert comps == [s[..j]] + Components(rest, sep);
      assert comps[1..] == Components(rest, sep);
      assert Join(comps, sep) == s[..j] + sep + Join(Components(rest, sep), sep);
      assert s == s[..j] + sep + rest by {
        assert s[j..j + |sep|] == sep;
      }
  }

  /** Every line followed by `sep` (the shape of an HTTP header block). */
  function Terminated<T>(lines: seq<seq<T>>, sep: seq<T>): seq<T> {
    if |lines| == 0 then [] else lines[0] + sep + Terminated(lines[1..], sep)
  }

  /** Joining lines plus two empty lines ends every line with `sep` and adds
      one more `sep`: the blank line that closes a header block. */
  lemma {:induction false} JoinWithBlankLine<T>(lines: seq<seq<T>>, sep: seq<T>)
    requires |lines| > 0
    ensures Join(lines + [[], []], sep) == Terminated(lines, sep) + sep
    decreases |lines|
  {
    var all := lines + [[], []];
    assert all[1..] == lines[1..] + [[], []];
    if |lines| == 1 {
      assert Join([[], []], sep) == [] + sep + Join([[]], sep);
    } else {
      JoinWithBlankLine(lines[1..], sep);
    }
  }

  /** Index of the first `x` in `s`, or `|s|` when there is none. */
  function FirstIndex<T(==)>(s: seq<T>, x: T): (r: nat)
    ensures r <= |s|
    ensures x !in s[..r]
    ensures r < |s| ==> s[r] == x
    decreases |s|
  {
    if |s| == 0 then 0
    else if s[0] == x then 0
    else
      var n := FirstIndex(s[1..], x);
      assert s[..n + 1] == [s[0]] + s[1..][..n];
      1 + n
  }

  /** `split(separator: x)` with empty pieces omitted: the maximal non-empty
      runs of `s` that do not contain `x`, in order. */
  function Tokens<T(==)>(s: seq<T>, x: T): (r: seq<seq<T>>)
    ensures forall k :: 0 <= k < |r| ==> |r[k]| > 0 && x !in r[k]
    decreases |s|
  {
    if |s| == 0 then []
    else if s[0] == x then Tokens(s[1..], x)
    else
      var n := FirstIndex(s, x);
      [s[..n]] + Tokens(s[n..], x)
  }

  /** Splitting a join of non-empty, separator-free pieces gives them back. */
  lemma {:induction false} TokensOfJoin<T>(parts: seq<seq<T>>, x: T)
    requires forall k :: 0 <= k < |parts| ==> |parts[k]| > 0 && x !in parts[k]
    ensures Tokens(Join(parts, [x]), x) == parts
    decreases |parts|
  {
    if |parts| == 0 {
    } else if |parts| == 1 {
      TokensOfRun(parts[0], [], x);
      assert parts[0] + [] == parts[0];
    } else {
      var rest := [x] + Join(parts[1..], [x]);
      assert Join(parts, [x]) == parts[0] + rest;
      TokensOfRun(parts[0], rest, x);
      TokensOfJoin(parts[1..], x);
      assert rest[1..] == Join(parts[1..], [x]);
    }
  }

  /** A separator-free run followed by a separator (or by nothing) is one token. */
  lemma TokensOfRun<T>(t: seq<T>, rest: seq<T>, x: T)
    requires |t| > 0 && x !in t
    requires rest == [] || rest[0] == x
    ensures Tokens(t + rest, x) == [t] + Tokens(rest, x)
  {
    var s := t + rest;
    FirstIndexAfterRun(t, rest, x);
    assert s[..|t|] == t;
    assert s[|t|..] == rest;
  }

  /** The first `x` after a run free of `x` is where the run ends. */
  lemma {:induction false} FirstIndexAfterRun<T>(t: seq<T>, rest: seq<T>, x: T)
    requires x !in t
    requires rest == [] || rest[0] == x
    ensures FirstIndex(t + rest, x) == |t|
    decreases |t|
  {
    if |t| > 0 {
      assert (t + rest)[1..] == t[1..] + rest;
      FirstIndexAfterRun(t[1..], rest, x);
    }
  }

  /** Splitting at one separator: the tokens of `a`, then the tokens of `b`.
      Together with the corollaries below this is why leading, trailing and
      repeated separators produce no piece. */
  lemma {:induction false} TokensSplit<T>(a: seq<T>, b: seq<T>, x: T)
    ensures Tokens(a + [x] + b, x) == Tokens(a, x) + Tokens(b, x)
    decreases |a|
  {
    var s := a + [x] + b;
    if |a| == 0 {
      assert s[1..] == b;
    } else if a[0] == x {
      assert s[1..] == a[1..] + [x] + b;
      TokensSplit(a[1..], b, x);
    } else {
      var m := FirstIndex(a, x);
      FirstIndexAppend(a, [x] + b, x);
      assert s == a + ([x] + b);
      assert s[..m] == a[..m];
      assert s[m..] == a[m..] + [x] + b;
      TokensSplit(a[m..], b, x);
    }
  }

  /** Appending text that starts with `x` does not move the first `x`, or
      puts it at the join when `a` has none. */
  lemma {:induction false} FirstIndexAppend<T>(a: seq<T>, c: seq<T>, x: T)
    requires |c| > 0 && c[0] == x
    ensures FirstIndex(a + c, x) == FirstIndex(a, x)
    decreases |a|
  {
    if |a| > 0 && a[0] != x {
      assert (a + c)[1..] == a[1..] + c;
      FirstIndexAppend(a[1..], c, x);
    }
  }

  /** Separators never make a piece of their own: a leading or a trailing
      separator is skipped, and a run of two counts as one. */
  lemma TokensSkipSeparators<T>(a: seq<T>, b: seq<T>, x: T)
    ensures Tokens([x] + a, x) == Tokens(a, x)
    ensures Tokens(a + [x], x) == Tokens(a, x)
    ensures Tokens(a + [x, x] + b, x) == Tokens(a + [x] + b, x)
  {
    TokensSplit([], a, x);
    assert [] + [x] + a == [x] + a;
    TokensSplit(a, [], x);
    assert a + [x] + [] == a + [x];
    TokensSplit([], b, x);
    assert [] + [x] + b == [x] + b;
    TokensSplit(a, [x] + b, x);
    assert a + [x] + ([x] + b) == a + [x, x] + b;
    TokensSplit(a, b, x);
  }

  /** Occurrences in a suffix are the occurrences in the whole, shifted. */
  lemma MatchShift<T>(s: seq<T>, pat: seq<T>, a: nat, j: nat)
    requires a <= |s|
    ensures MatchAt(s[a..], pat, j) <==> MatchAt(s, pat, a + j)
  {
    if j + |pat| <= |s| - a {
      assert s[a..][j..j + |pat|] == s[a + j..a + j + |pat|];
    }
  }

  /** Unfolding helper: components at the first occurrence are the piece
      before it, then the components of what follows it. */
  lemma ComponentsAt<T>(s: seq<T>, sep: seq<T>, j: nat)
    requires |sep| > 0 && FindFrom(s, sep, 0) == Some(j)
    ensures Components(s, sep) == [s[..j]] + Components(s[j + |sep|..], sep)
  {
    var r := FindFrom(s, sep, 0);
    assert r.Some? && r.value == j;
  }

  /** Without an occurrence there is a single component. */
  lemma ComponentsNone<T>(s: seq<T>, sep: seq<T>)
    requires |sep| > 0 && forall j: nat :: !MatchAt(s, sep, j)
    ensures Components(s, sep) == [s]
  {
    assert FindFrom(s, sep, 0).None?;
  }

  /** The first component is everything before the first occurrence. */
  lemma FirstComponent<T>(s: seq<T>, sep: seq<T>, n: nat)
    requires |sep| > 0 && n <= |s|
    requires forall j: nat :: j < n ==> !MatchAt(s, sep, j)
    requires n == |s| || MatchAt(s, sep, n)
    ensures Components(s, sep)[0] == s[..n]
  {
    if n == |s| {
      assert FindFrom(s, sep, 0).None?;
    } else {
      assert FindFrom(s, sep, 0) == Some(n);
    }
  }

  /** There is more than one component exactly when the separator occurs. */
  lemma ComponentsCount<T>(s: seq<T>, sep: seq<T>)
    requires |sep| > 0
    ensures |Components(s, sep)| > 1 <==> exists j: nat :: MatchAt(s, sep, j)
  {
    match FindFrom(s, sep, 0)
    case None =>
    case Some(j) =>
      assert |Components(s, sep)| == 1 + |Components(s[j + |sep|..], sep)|;
  }

  /** The search finds the first occurrence. */
  lemma FindFirst<T>(s: seq<T>, pat: seq<T>, j: nat)
    requires |pat| > 0 && MatchAt(s, pat, j)
    requires forall i: nat :: i < j ==> !MatchAt(s, pat, i)
    ensures FindFrom(s, pat, 0) == Some(j)
  {
    var r := FindFrom(s, pat, 0);
    assert r.Some?;
  }

  /** The second component runs from the end of the first occurrence to the
      next occurrence after it, or to the end. */
  lemma SecondComponent<T>(s: seq<T>, sep: seq<T>, j: nat, k: nat)
    requires |sep| > 0 && MatchAt(s, sep, j)
    requires forall i: nat :: i < j ==> !MatchAt(s, sep, i)
    requires j + |sep| <= k <= |s|
    requires forall i: nat :: j + |sep| <= i < k ==> !MatchAt(s, sep, i)
    requires k == |s| || MatchAt(s, sep, k)
    ensures |Components(s, sep)| > 1 && Components(s, sep)[1] == s[j + |sep|..k]
  {
    FindFirst(s, sep, j);
    var a := j + |sep|;
    var rest := s[a..];
    assert Components(s, sep) == [s[..j]] + Components(rest, sep);
    NoMatchInSuffix(s, sep, a, k);
    FirstComponent(rest, sep, k - a);
    assert rest[..k - a] == s[a..k];
  }

  /** A first match at or after `a` is also the first match in the suffix from `a`. */
  lemma NoMatchInSuffix<T>(s: seq<T>, sep: seq<T>, a: nat, k: nat)
    requires a <= k <= |s|
    requires forall i: nat :: a <= i < k ==> !MatchAt(s, sep, i)
    requires k == |s| || MatchAt(s, sep, k)
    ensures forall i: nat :: i < k - a ==> !MatchAt(s[a..], sep, i)
    ensures k == |s[a..]| + a || MatchAt(s[a..], sep, k - a)
  {
    forall i: nat | i < k - a ensures !MatchAt(s[a..], sep, i) {
      MatchShift(s, sep, a, i);
    }
    if k < |s| {
      MatchShift(s, sep, a, k - a);
    }
  }

  /** The text of terminated lines ends with the terminator. */
  lemma {:induction false} TerminatedEnds<T>(lines: seq<seq<T>>, sep: seq<T>)
    requires |lines| > 0
    ensures |Terminated(lines, sep)| >= |sep|
    ensures Terminated(lines, sep)[|Terminated(lines, sep)| - |sep|..] == sep
    decreases |lines|
  {
    if |lines| > 1 {
      TerminatedEnds(lines[1..], sep);
    }
  }

  /** In terminated non-empty lines that never contain `cr`, no `cr` is
      followed two places later by another `cr`. */
  lemma {:induction false} NoCrPairInside<T>(lines: seq<seq<T>>, cr: T, lf: T)
    requires cr != lf
    requires forall k :: 0 <= k < |lines| ==> |lines[k]| > 0 && cr !in lines[k]
    ensures forall j: nat :: j + 3 <= |Terminated(lines, [cr, lf])| ==>
      Terminated(lines, [cr, lf])[j] != cr || Terminated(lines, [cr, lf])[j + 2] != cr
    decreases |lines|
  {
    if |lines| > 0 {
      var t := Terminated(lines, [cr, lf]);
      var l0 := lines[0];
      var tail := Terminated(lines[1..], [cr, lf]);
      assert t == l0 + [cr, lf] + tail;
      NoCrPairInside(lines[1..], cr, lf);
      forall j: nat | j + 3 <= |t| ensures t[j] != cr || t[j + 2] != cr {
        if j < |l0| {
          assert t[j] == l0[j];
        } else if j == |l0| {
          assert |lines| > 1;
          assert t[j + 2] == lines[1][0];
        } else if j == |l0| + 1 {
          assert t[j] == lf;
        } else {
          assert t[j] == tail[j - |l0| - 2];
          assert t[j + 2] == tail[j - |l0|];
        }
      }
    }
  }

  /** A block of terminated, non-empty, `cr`-free lines followed by an empty
      line: the first `cr lf cr lf` is the one that closes the block,
      whatever comes after it. */
  lemma FirstEmptyLine<T>(lines: seq<seq<T>>, cr: T, lf: T, rest: seq<T>)
    requires cr != lf && |lines| > 0
    requires forall k :: 0 <= k < |lines| ==> |lines[k]| > 0 && cr !in lines[k]
    ensures FindFrom(Terminated(lines, [cr, lf]) + [cr, lf] + rest, [cr, lf, cr, lf], 0)
            == Some(|Terminated(lines, [cr, lf])| - 2)
  {
    var t := Terminated(lines, [cr, lf]);
    var s := t + [cr, lf] + rest;
    var pat := [cr, lf, cr, lf];
    TerminatedEnds(lines, [cr, lf]);
    NoCrPairInside(lines, cr, lf);
    var n := |t| - 2;
    assert t[n..] == [cr, lf];
    assert s[n..n + 4] == pat;
    forall j: nat | j < n ensures !MatchAt(s, pat, j) {
      assert s[j] == t[j] && s[j + 2] == t[j + 2];
    }
    assert MatchAt(s, pat, n);
    FindFirst(s, pat, n);
  }

  /** Joining pieces that avoid `x` with a separator that avoids `x`. */
  lemma {:induction false} JoinAvoids<T>(parts: seq<seq<T>>, sep: seq<T>, x: T)
    requires x !in sep
    requires forall k :: 0 <= k < |parts| ==> x !in parts[k]
    ensures x !in Join(parts, sep)
    decreases |parts|
  {
    if |parts| > 1 {
      JoinAvoids(parts[1..], sep, x);
    }
  }

  /** Terminating two runs of lines one after the other. */
  lemma {:induction false} TerminatedAppend<T>(a: seq<seq<T>>, b: seq<seq<T>>, sep: seq<T>)
    ensures Terminated(a + b, sep) == Terminated(a, sep) + Terminated(b, sep)
    decreases |a|
  {
    if |a| == 0 {
      assert a + b == b;
    } else {
      assert (a + b)[0] == a[0];
      assert (a + b)[1..] == a[1..] + b;
      TerminatedAppend(a[1..], b, sep);
    }
  }
}
