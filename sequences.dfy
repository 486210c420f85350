/** Facts about sequences used to state that a result lists a set of labels
    exactly once. */
module Sequences {

  /** No element occurs twice. */
  predicate Distinct<T(==)>(s: seq<T>) {
    forall i, j :: 0 <= i < j < |s| ==> s[i] != s[j]
  }

  /** `s` lists every element of `keys` exactly once and nothing else. */
  ghost predicate IsEnumeration(s: seq<string>, keys: set<string>) {
    |s| == |keys| && Distinct(s) && forall x :: x in s <==> x in keys
  }

  /** The labels `s[o[0]], s[o[1]], ...` picked out by a sequence of positions. */
  function Labels<T>(s: seq<T>, o: seq<int>): (r: seq<T>)
    requires forall k :: 0 <= k < |o| ==> 0 <= o[k] < |s|
    ensures |r| == |o|
    ensures forall k :: 0 <= k < |o| ==> r[k] == s[o[k]]
  {
    seq(|o|, k requires 0 <= k < |o| => s[o[k]])
  }

  /** The positions `0, 1, ..., n - 1` in increasing order. */
  function Range(n: nat): (r: seq<int>)
    ensures |r| == n && forall i :: 0 <= i < n ==> r[i] == i
  {
    seq(n, i => i)
  }

  /** The first position of `x` in `s`. */
  function IndexOf<T(==)>(s: seq<T>, x: T): (r: nat)
    requires x in s
    ensures r < |s| && s[r] == x && x !in s[..r]
  {
    if s[0] == x then 0 else 1 + IndexOf(s[1..], x)
  }

  /** `s` read from its last element to its first. */
  function Reversed<T>(s: seq<T>): (r: seq<T>)
    ensures |r| == |s| && forall i :: 0 <= i < |s| ==> r[i] == s[|s| - 1 - i]
  {
    seq(|s|, i requires 0 <= i < |s| => s[|s| - 1 - i])
  }

  /** In a sequence without repetitions, an element's first position is its only one. */
  lemma IndexOfDistinct<T>(s: seq<T>, p: int)
    requires Distinct(s) && 0 <= p < |s|
    ensures IndexOf(s, s[p]) == p
  {
  }

  /** An enumeration read backwards is an enumeration of the same set. */
  lemma ReversedEnumeration(s: seq<string>, keys: set<string>)
    requires IsEnumeration(s, keys)
    ensures IsEnumeration(Reversed(s), keys)
  {
    var r := Reversed(s);
    forall x ensures x in r <==> x in s {
      if x in s {
        var i := IndexOf(s, x);
        assert r[|s| - 1 - i] == x;
      }
    }
  }

  /** The elements of `ss[0]`, then of `ss[1]`, and so on. */
  function Flatten<T>(ss: seq<seq<T>>): seq<T> {
    if |ss| == 0 then [] else Flatten(ss[..|ss| - 1]) + ss[|ss| - 1]
  }

  /** No element of `ss` is empty. */
  predicate NoneEmpty<T>(ss: seq<seq<T>>) {
    forall i :: 0 <= i < |ss| ==> ss[i] != []
  }

  lemma FlattenAppend<T>(ss: seq<seq<T>>, c: seq<T>)
    ensures Flatten(ss + [c]) == Flatten(ss) + c
  {
    assert (ss + [c])[..|ss|] == ss;
  }

  /** Non-empty parts number at most the elements they hold together. */
  lemma {:induction false} FlattenLength<T>(ss: seq<seq<T>>)
    requires NoneEmpty(ss)
    ensures |ss| <= |Flatten(ss)|
  {
    if |ss| > 0 {
      FlattenLength(ss[..|ss| - 1]);
    }
  }

  lemma LabelsAppend<T>(s: seq<T>, a: seq<int>, b: seq<int>)
    requires forall k :: 0 <= k < |a| ==> 0 <= a[k] < |s|
    requires forall k :: 0 <= k < |b| ==> 0 <= b[k] < |s|
    ensures Labels(s, a + b) == Labels(s, a) + Labels(s, b)
  {
    assert forall k :: 0 <= k < |a + b| ==> (a + b)[k] == if k < |a| then a[k] else b[k - |a|];
  }

  /** Pigeonhole: distinct integers drawn from `[0, n)` number at most `n`. */
  lemma {:induction false} DistinctBound(s: seq<int>, n: nat)
    requires Distinct(s)
    requires forall k :: 0 <= k < |s| ==> 0 <= s[k] < n
    ensures |s| <= n
  {
    if |s| > 0 {
      assert 0 <= s[0] < n;
      if n - 1 in s {
        var k := IndexOf(s, n - 1);
        var t := s[..k] + s[k + 1..];
        assert forall i :: 0 <= i < |t| ==> t[i] == if i < k then s[i] else s[i + 1];
        DistinctBound(t, n - 1);
      } else {
        DistinctBound(s, n - 1);
      }
    }
  }

  /** A sequence holding every integer of `[0, n)` has at least `n` elements. */
  lemma {:induction false} CoverBound(s: seq<int>, n: nat)
    requires forall x :: 0 <= x < n ==> x in s
    ensures |s| >= n
  {
    if n > 0 {
      var k := IndexOf(s, n - 1);
      var t := s[..k] + s[k + 1..];
      forall x | 0 <= x < n - 1 ensures x in t {
        assert x in s;
        var i :| 0 <= i < |s| && s[i] == x;
        if i < k {
          assert t[i] == x;
        } else {
          assert i != k;
          assert t[i - 1] == x;
        }
      }
      CoverBound(t, n - 1);
    }
  }

  /** Picking every position of an enumeration once, in any order, gives an
      enumeration of the same set. */
  lemma LabelsEnumeration(s: seq<string>, keys: set<string>, o: seq<int>)
    requires IsEnumeration(s, keys)
    requires Distinct(o)
    requires forall k :: 0 <= k < |o| ==> 0 <= o[k] < |s|
    requires forall i :: 0 <= i < |s| ==> i in o
    ensures IsEnumeration(Labels(s, o), keys)
  {
    var r := Labels(s, o);
    DistinctBound(o, |s|);
    CoverBound(o, |s|);
    forall x ensures x in r <==> x in keys {
      if x in keys {
        var i :| 0 <= i < |s| && s[i] == x;
        assert i in o;
        var k :| 0 <= k < |o| && o[k] == i;
        assert r[k] == x;
      }
    }
  }
}
