/**
 * The JavaScript array and string primitives the core is built from:
 * `Array.prototype.filter`, `Array.prototype.join` and `String.prototype.includes`,
 * together with an independent description of what a filter selects.
 */
module Sequences {

  /* ----------------------------------------------------------------------
   * Array.prototype.filter
   * ---------------------------------------------------------------------- */

  /** The elements of `s` for which `p` holds, in their original order. */
  function Filter<T>(s: seq<T>, p: T -> bool): (r: seq<T>)
    ensures |r| <= |s|
    ensures forall k :: 0 <= k < |r| ==> p(r[k]) && r[k] in s
    ensures forall k :: 0 <= k < |s| && p(s[k]) ==> s[k] in r
    decreases |s|
  {
    if s == [] then []
    else if p(s[0]) then [s[0]] + Filter(s[1..], p)
    else Filter(s[1..], p)
  }

  /** `idx` lists strictly increasing positions of `s` at which the elements of `r` sit. */
  ghost predicate IsEmbedding<T>(idx: seq<nat>, r: seq<T>, s: seq<T>) {
    && |idx| == |r|
    && (forall k :: 0 <= k < |idx| ==> idx[k] < |s| && r[k] == s[idx[k]])
    && (forall j, k :: 0 <= j < k < |idx| ==> idx[j] < idx[k])
  }

  /** `r` is obtained from `s` by deleting elements, without reordering. */
  ghost predicate IsSubsequence<T>(r: seq<T>, s: seq<T>) {
    exists idx :: IsEmbedding(idx, r, s)
  }

  /**
   * `r` is the subsequence of `s` taken at exactly the positions whose element
   * satisfies `p`. This determines `r` uniquely, so it is a complete,
   * definition-independent description of filtering.
   */
  ghost predicate SelectsExactly<T>(r: seq<T>, s: seq<T>, p: T -> bool) {
    exists idx :: IsEmbedding(idx, r, s) && forall i :: 0 <= i < |s| ==> (i in idx <==> p(s[i]))
  }

  /** The positions `i >= from` of `s` with `p(s[i])`, in increasing order. */
  ghost function MatchPositions<T>(s: seq<T>, p: T -> bool, from: nat): (idx: seq<nat>)
    requires from <= |s|
    ensures forall k :: 0 <= k < |idx| ==> from <= idx[k] < |s|
    decreases |s| - from
  {
    if from == |s| then []
    else if p(s[from]) then [from] + MatchPositions(s, p, from + 1)
    else MatchPositions(s, p, from + 1)
  }

  /** The positions are listed in strictly increasing order. */
  lemma {:induction false} MatchPositionsIncreasing<T>(s: seq<T>, p: T -> bool, from: nat)
    requires from <= |s|
    ensures forall j, k :: 0 <= j < k < |MatchPositions(s, p, from)| ==>
      MatchPositions(s, p, from)[j] < MatchPositions(s, p, from)[k]
    decreases |s| - from
  {
    if from < |s| {
      MatchPositionsIncreasing(s, p, from + 1);
      var rest := MatchPositions(s, p, from + 1);
      var idx := MatchPositions(s, p, from);
      if p(s[from]) {
        forall j, k | 0 <= j < k < |idx| ensures idx[j] < idx[k] {
          assert idx[k] == rest[k - 1];
          if j > 0 {
            assert idx[j] == rest[j - 1];
          }
        }
      }
    }
  }

  /** A position at or after `from` is listed exactly when its element passes. */
  lemma {:induction false} MatchPositionsComplete<T>(s: seq<T>, p: T -> bool, from: nat)
    requires from <= |s|
    ensures forall i :: from <= i < |s| ==> (i in MatchPositions(s, p, from) <==> p(s[i]))
    decreases |s| - from
  {
    if from < |s| {
      MatchPositionsComplete(s, p, from + 1);
      var rest := MatchPositions(s, p, from + 1);
      assert from !in rest;
    }
  }

  /** The filter of the suffix from `from` holds the elements at the listed positions. */
  lemma {:induction false} FilterAtMatchPositions<T>(s: seq<T>, p: T -> bool, from: nat)
    requires from <= |s|
    ensures |Filter(s[from..], p)| == |MatchPositions(s, p, from)|
    ensures forall k :: 0 <= k < |MatchPositions(s, p, from)| ==>
      Filter(s[from..], p)[k] == s[MatchPositions(s, p, from)[k]]
    decreases |s| - from
  {
    if from < |s| {
      FilterAtMatchPositions(s, p, from + 1);
      var t, f, rest := s[from..], Filter(s[from + 1..], p), MatchPositions(s, p, from + 1);
      assert t[0] == s[from] && t[1..] == s[from + 1..];
      var r, idx := Filter(t, p), MatchPositions(s, p, from);
      if p(s[from]) {
        assert r == [s[from]] + f && idx == [from] + rest;
        forall k | 0 <= k < |idx| ensures r[k] == s[idx[k]] {
          if k > 0 {
            assert r[k] == f[k - 1] && idx[k] == rest[k - 1];
          }
        }
      } else {
        assert r == f && idx == rest;
      }
    }
  }

  /** Filtering selects exactly the positions whose element passes the test. */
  lemma FilterSelectsExactly<T>(s: seq<T>, p: T -> bool)
    ensures SelectsExactly(Filter(s, p), s, p)
    ensures IsSubsequence(Filter(s, p), s)
  {
    MatchPositionsIncreasing(s, p, 0);
    MatchPositionsComplete(s, p, 0);
    FilterAtMatchPositions(s, p, 0);
    assert s[0..] == s;
    var idx := MatchPositions(s, p, 0);
    assert IsEmbedding(idx, Filter(s, p), s);
  }

  /** Filtering distributes over concatenation: it works element by element, in order. */
  lemma {:induction false} FilterConcat<T>(a: seq<T>, b: seq<T>, p: T -> bool)
    ensures Filter(a + b, p) == Filter(a, p) + Filter(b, p)
    decreases |a|
  {
    if a == [] {
      assert a + b == b;
    } else {
      assert (a + b)[0] == a[0] && (a + b)[1..] == a[1..] + b;
      FilterConcat(a[1..], b, p);
    }
  }

  /** Two tests that agree on every element select the same elements. */
  lemma {:induction false} FilterCongruent<T>(s: seq<T>, p: T -> bool, q: T -> bool)
    requires forall k :: 0 <= k < |s| ==> p(s[k]) == q(s[k])
    ensures Filter(s, p) == Filter(s, q)
    decreases |s|
  {
    if s != [] {
      FilterCongruent(s[1..], p, q);
    }
  }

  /**
   * Filtering by a weaker test first and by a stronger test afterwards is the
   * same as filtering by the stronger test alone.
   */
  lemma {:induction false} FilterNarrow<T>(s: seq<T>, p: T -> bool, q: T -> bool)
    requires forall k :: 0 <= k < |s| && p(s[k]) ==> q(s[k])
    ensures Filter(Filter(s, q), p) == Filter(s, p)
    decreases |s|
  {
    if s != [] {
      FilterNarrow(s[1..], p, q);
      var rest := Filter(s[1..], q);
      if q(s[0]) {
        var f := [s[0]] + rest;
        assert f[0] == s[0] && f[1..] == rest;
      }
    }
  }

  /** Applying the same filter twice gives the result of applying it once. */
  lemma {:induction false} FilterIdempotent<T>(s: seq<T>, p: T -> bool)
    ensures Filter(Filter(s, p), p) == Filter(s, p)
  {
    FilterNarrow(s, p, p);
  }

  lemma HeadIsMember<T>(s: seq<T>)
    requires s != []
    ensures s[0] in s
  {
  }

  /* ----------------------------------------------------------------------
   * Array.prototype.join and String.prototype.includes
   * ---------------------------------------------------------------------- */

  /** `xs.join(sep)`: the entries with `sep` between consecutive ones. */
  function Join(xs: seq<string>, sep: string): (r: string)
    ensures sep != "" ==> (r == "" <==> |xs| == 0 || (|xs| == 1 && xs[0] == ""))
    decreases |xs|
  {
    if |xs| == 0 then ""
    else if |xs| == 1 then xs[0]
    else xs[0] + sep + Join(xs[1..], sep)
  }

  /** `p` occurs in `s` starting at position `i`. */
  predicate OccursAt(s: string, p: string, i: int) {
    0 <= i && i + |p| <= |s| && s[i..i + |p|] == p
  }

  /** `s.includes(p)`. */
  ghost predicate Contains(s: string, p: string) {
    exists i :: OccursAt(s, p, i)
  }

  /** A non-empty pattern cannot occur in a string whose characters exclude its first one. */
  lemma FirstCharAbsent(s: string, p: string)
    requires |p| > 0 && p[0] !in s
    ensures !Contains(s, p)
  {
  }

  /** Every entry of a list appears verbatim in the list's join. */
  lemma {:induction false} JoinContainsEntry(xs: seq<string>, sep: string, k: nat)
    requires k < |xs|
    ensures Contains(Join(xs, sep), xs[k])
    decreases |xs|
  {
    if |xs| == 1 {
      assert OccursAt(Join(xs, sep), xs[k], 0);
    } else {
      var head := xs[0] + sep;
      var tail := Join(xs[1..], sep);
      var j := head + tail;
      assert Join(xs, sep) == j;
      if k == 0 {
        assert j[0..|xs[0]|] == xs[0];
        assert OccursAt(j, xs[k], 0);
      } else {
        JoinContainsEntry(xs[1..], sep, k - 1);
        var i :| OccursAt(tail, xs[k], i);
        assert j[|head| + i..|head| + i + |xs[k]|] == tail[i..i + |xs[k]|];
        assert OccursAt(j, xs[k], |head| + i);
      }
    }
  }

  /**
   * A pattern without the separator character that occurs in a join occurs in
   * one of the entries: it cannot straddle a separator.
   */
  lemma {:induction false} JoinOccurrenceInEntry(xs: seq<string>, c: char, p: string)
    requires |p| > 0 && c !in p
    requires Contains(Join(xs, [c]), p)
    ensures exists k :: 0 <= k < |xs| && Contains(xs[k], p)
    decreases |xs|
  {
    var i :| OccursAt(Join(xs, [c]), p, i);
    if |xs| == 0 {
      assert false;
    } else if |xs| == 1 {
      assert Contains(xs[0], p);
    } else {
      var x := xs[0];
      var tail := Join(xs[1..], [c]);
      var j := x + [c] + tail;
      assert Join(xs, [c]) == j;
      if i + |p| <= |x| {
        assert j[i..i + |p|] == x[i..i + |p|];
        assert OccursAt(x, p, i);
      } else if i > |x| {
        assert j[i..i + |p|] == tail[i - |x| - 1..i - |x| - 1 + |p|];
        assert OccursAt(tail, p, i - |x| - 1);
        JoinOccurrenceInEntry(xs[1..], c, p);
        var k :| 0 <= k < |xs| - 1 && Contains(xs[1..][k], p);
        assert xs[1..][k] == xs[k + 1];
      } else {
        WindowChar(j, p, i, |x|);
        assert false;
      }
    }
  }

  /** The character of `s` at position `m` inside an occurrence of `p` at `i` belongs to `p`. */
  lemma WindowChar(s: string, p: string, i: int, m: int)
    requires OccursAt(s, p, i) && i <= m < i + |p|
    ensures p[m - i] == s[m]
  {
    assert s[i..i + |p|][m - i] == s[m];
  }
}
