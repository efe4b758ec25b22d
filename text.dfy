/**
  The Python string operations the pipeline relies on, on `seq<char>`:
  `startswith`, `endswith`, `replace` (all non-overlapping occurrences, left to
  right), `split(sep)` and the lexicographic order `<=` that `list.sort()`
  uses on file paths.
 */
module Text {
  import opened Common

  predicate StartsWith(s: string, p: string) {
    |p| <= |s| && s[..|p|] == p
  }

  predicate EndsWith(s: string, p: string) {
    |p| <= |s| && s[|s| - |p|..] == p
  }

  /** An occurrence of `pat` starts at position i of `s`. */
  predicate MatchAt(s: string, pat: string, i: int) {
    0 <= i && i + |pat| <= |s| && s[i..i + |pat|] == pat
  }

  lemma MatchAtFirstChar(s: string, pat: string, i: int)
    requires |pat| > 0 && MatchAt(s, pat, i)
    ensures s[i] == pat[0]
  {
    assert s[i..i + |pat|][0] == s[i];
  }

  lemma MatchAtShift(s: string, pat: string, i: nat)
    requires |s| > 0
    ensures MatchAt(s[1..], pat, i) <==> MatchAt(s, pat, i + 1)
  {
    if i + |pat| <= |s[1..]| {
      assert s[1..][i..i + |pat|] == s[i + 1..i + 1 + |pat|];
    }
  }

  /** `s.replace(pat, rep)`: every non-overlapping occurrence, scanning left to right. */
  function ReplaceAll(s: string, pat: string, rep: string): string
    requires |pat| > 0
    decreases |s|
  {
    if |s| < |pat| then s
    else if MatchAt(s, pat, 0) then rep + ReplaceAll(s[|pat|..], pat, rep)
    else [s[0]] + ReplaceAll(s[1..], pat, rep)
  }

  /** No occurrence of `pat` starts at any of the first `n` positions of `s`. */
  predicate NoMatchBefore(s: string, pat: string, n: nat)
  {
    forall i :: 0 <= i < n ==> !MatchAt(s, pat, i)
  }

  /** A prefix that no occurrence starts in is copied through unchanged. */
  lemma {:induction false} ReplaceSkipsPrefix(u: string, v: string, pat: string, rep: string)
    requires |pat| > 0
    requires NoMatchBefore(u + v, pat, |u|)
    ensures ReplaceAll(u + v, pat, rep) == u + ReplaceAll(v, pat, rep)
    decreases |u|
  {
    if |u| > 0 {
      var s := u + v;
      assert !MatchAt(s, pat, 0);
      assert s[1..] == u[1..] + v;
      forall i | 0 <= i < |u| - 1 ensures !MatchAt(s[1..], pat, i) {
        MatchAtShift(s, pat, i);
      }
      ReplaceSkipsPrefix(u[1..], v, pat, rep);
      if |s| < |pat| {
        assert ReplaceAll(v, pat, rep) == v;
      } else {
        calc {
          ReplaceAll(s, pat, rep);
          [s[0]] + ReplaceAll(s[1..], pat, rep);
          [u[0]] + (u[1..] + ReplaceAll(v, pat, rep));
          { assert u == [u[0]] + u[1..]; }
          u + ReplaceAll(v, pat, rep);
        }
      }
    } else {
      assert u + v == v;
    }
  }

  /** An occurrence at the front is replaced and the scan resumes after it. */
  lemma ReplaceAtFront(pat: string, v: string, rep: string)
    requires |pat| > 0
    ensures ReplaceAll(pat + v, pat, rep) == rep + ReplaceAll(v, pat, rep)
  {
    assert (pat + v)[0..|pat|] == pat;
    assert (pat + v)[|pat|..] == v;
  }

  /** A string in which `pat` does not occur is its own replacement. */
  lemma ReplaceNothing(s: string, pat: string, rep: string)
    requires |pat| > 0
    requires NoMatchBefore(s, pat, |s|)
    ensures ReplaceAll(s, pat, rep) == s
  {
    assert s + [] == s;
    ReplaceSkipsPrefix(s, [], pat, rep);
    assert ReplaceAll([], pat, rep) == [];
  }

  /** The first position at or after `from` at which `sep` occurs in `s`, if any. */
  function FindFirst(s: string, sep: string, from: nat): (r: Option<nat>)
    requires |sep| > 0
    ensures r.Some? ==> from <= r.value && MatchAt(s, sep, r.value)
    ensures r.Some? ==> forall i :: from <= i < r.value ==> !MatchAt(s, sep, i)
    ensures r.None? ==> forall i :: from <= i ==> !MatchAt(s, sep, i)
    decreases |s| - from
  {
    if from + |sep| > |s| then None
    else if MatchAt(s, sep, from) then Some(from)
    else FindFirst(s, sep, from + 1)
  }

  /** `s.split(sep)`: the pieces between successive occurrences of `sep`. */
  function Split(s: string, sep: string): (parts: seq<string>)
    requires |sep| > 0
    ensures |parts| >= 1
    decreases |s|
  {
    match FindFirst(s, sep, 0)
    case None => [s]
    case Some(i) => [s[..i]] + Split(s[i + |sep|..], sep)
  }

  /** `x + sep + y` splits into exactly `[x, y]` when neither piece holds the separator's first character. */
  lemma SplitTwo(x: string, y: string, sep: string)
    requires |sep| > 0
    requires forall i :: 0 <= i < |x| ==> x[i] != sep[0]
    requires forall i :: 0 <= i < |y| ==> y[i] != sep[0]
    ensures Split(x + sep + y, sep) == [x, y]
  {
    var s := x + sep + y;
    assert s[|x|..|x| + |sep|] == sep;
    assert MatchAt(s, sep, |x|);
    forall i | 0 <= i < |x| ensures !MatchAt(s, sep, i) {
      if MatchAt(s, sep, i) {
        MatchAtFirstChar(s, sep, i);
      }
    }
    assert FindFirst(s, sep, 0) == Some(|x|);
    assert s[..|x|] == x;
    assert s[|x| + |sep|..] == y;
    forall i | 0 <= i ensures !MatchAt(y, sep, i) {
      if MatchAt(y, sep, i) {
        MatchAtFirstChar(y, sep, i);
      }
    }
    assert FindFirst(y, sep, 0).None?;
  }

  /** Character c does not occur in s. */
  predicate Avoids(s: string, c: char) {
    forall i :: 0 <= i < |s| ==> s[i] != c
  }

  /** A string in which the first character of `pat` never occurs holds no occurrence of `pat`. */
  lemma AvoidsNoMatch(s: string, pat: string)
    requires |pat| > 0 && Avoids(s, pat[0])
    ensures NoMatchBefore(s, pat, |s|)
  {
    forall i | 0 <= i < |s| ensures !MatchAt(s, pat, i) {
      if MatchAt(s, pat, i) {
        MatchAtFirstChar(s, pat, i);
      }
    }
  }

  /** The first occurrence of `sep` in s is at i when one starts there and none starts before. */
  lemma FindFirstAt(s: string, sep: string, i: nat)
    requires |sep| > 0 && MatchAt(s, sep, i) && NoMatchBefore(s, sep, i)
    ensures FindFirst(s, sep, 0) == Some(i)
  {
  }

  /** A string without the one-character separator is a single part. */
  lemma SplitWhole(s: string, sep: string)
    requires |sep| == 1 && Avoids(s, sep[0])
    ensures Split(s, sep) == [s]
  {
    AvoidsNoMatch(s, sep);
    assert FindFirst(s, sep, 0).None?;
  }

  /** Splitting at a one-character separator distributes over a join at that separator. */
  lemma {:induction false} SplitAppend(p: string, t: string, sep: string)
    requires |sep| == 1
    ensures Split(p + sep + t, sep) == Split(p, sep) + Split(t, sep)
    decreases |p|
  {
    var s := p + sep + t;
    var i := match FindFirst(p, sep, 0) case None => |p| case Some(i) => i;
    assert i <= |p|;
    assert NoMatchBefore(p, sep, i);
    forall k | 0 <= k < i ensures !MatchAt(s, sep, k) {
      assert !MatchAt(p, sep, k);
      assert s[k..k + 1] == p[k..k + 1];
    }
    assert s[i..i + 1] == sep by {
      if i < |p| {
        assert s[i..i + 1] == p[i..i + 1];
      }
    }
    FindFirstAt(s, sep, i);
    assert s[..i] == p[..i];
    if i == |p| {
      assert s[..i] == p;
      assert s[i + 1..] == t;
    } else {
      assert s[i + 1..] == p[i + 1..] + sep + t;
      SplitAppend(p[i + 1..], t, sep);
    }
  }

  /** `sep.join(parts)`. */
  function Join(parts: seq<string>, sep: string): string
    requires |parts| >= 1
  {
    if |parts| == 1 then parts[0] else parts[0] + sep + Join(parts[1..], sep)
  }

  /**
    At a one-character separator, the parts of s hold no separator and
    joining them back gives s.
   */
  lemma {:induction false} SplitJoin(s: string, sep: string)
    requires |sep| == 1
    ensures Join(Split(s, sep), sep) == s
    ensures forall k :: 0 <= k < |Split(s, sep)| ==> Avoids(Split(s, sep)[k], sep[0])
    decreases |s|
  {
    var parts := Split(s, sep);
    match FindFirst(s, sep, 0)
    case None =>
      forall i | 0 <= i < |s| ensures s[i] != sep[0] {
        assert !MatchAt(s, sep, i);
        assert s[i..i + 1] == [s[i]];
      }
    case Some(i) =>
      var rest := s[i + 1..];
      SplitJoin(rest, sep);
      assert parts == [s[..i]] + Split(rest, sep);
      assert s == s[..i] + sep + rest by {
        assert s[i..i + 1] == sep;
      }
      forall k | 0 <= k < i ensures s[..i][k] != sep[0] {
        assert !MatchAt(s, sep, k);
        assert s[k..k + 1] == [s[k]];
      }
      forall k | 1 <= k < |parts| ensures Avoids(parts[k], sep[0]) {
        assert parts[k] == Split(rest, sep)[k - 1];
      }
  }

  /** Parts that hold no one-character separator split back out of their join. */
  lemma {:induction false} JoinSplit(parts: seq<string>, sep: string)
    requires |sep| == 1 && |parts| >= 1
    requires forall k :: 0 <= k < |parts| ==> Avoids(parts[k], sep[0])
    ensures Split(Join(parts, sep), sep) == parts
    decreases |parts|
  {
    SplitWhole(parts[0], sep);
    if |parts| > 1 {
      JoinSplit(parts[1..], sep);
      SplitAppend(parts[0], Join(parts[1..], sep), sep);
      assert parts == [parts[0]] + parts[1..];
    }
  }

  /** The lexicographic order of Python strings, by code point. */
  predicate StrLeq(a: string, b: string)
    decreases |a|
  {
    |a| == 0 || (|b| > 0 && (a[0] < b[0] || (a[0] == b[0] && StrLeq(a[1..], b[1..]))))
  }

  lemma {:induction false} StrLeqTotal(a: string, b: string)
    ensures StrLeq(a, b) || StrLeq(b, a)
    decreases |a|
  {
    if |a| > 0 && |b| > 0 && a[0] == b[0] {
      StrLeqTotal(a[1..], b[1..]);
    }
  }

  lemma {:induction false} StrLeqTrans(a: string, b: string, c: string)
    requires StrLeq(a, b) && StrLeq(b, c)
    ensures StrLeq(a, c)
    decreases |a|
  {
    if |a| > 0 && a[0] == b[0] && b[0] == c[0] {
      StrLeqTrans(a[1..], b[1..], c[1..]);
    }
  }

  lemma {:induction false} StrLeqAntisym(a: string, b: string)
    requires StrLeq(a, b) && StrLeq(b, a)
    ensures a == b
    decreases |a|
  {
    if |a| > 0 {
      StrLeqAntisym(a[1..], b[1..]);
      assert a == [a[0]] + a[1..];
      assert b == [b[0]] + b[1..];
    }
  }
}
