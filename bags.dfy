/** The adjacency lists of the graph.  A `Bag` is a singly-linked list whose
    `add` links a new first node; it is modelled by the sequence of its items
    from the first node on, which is also the order its iterator yields. */
module Bags {
  import opened Sequences

  type Bag = seq<string>

  /** `Bag.add`: the item becomes the first node, so it is the first one the
      iterator yields, and it is counted once more. */
  function Add(bag: Bag, item: string): (r: Bag)
    ensures |r| == |bag| + 1 && r[0] == item && r[1..] == bag
    ensures multiset(r) == multiset(bag) + multiset{item}
  {
    [item] + bag
  }

  /** Unlinks the node at position `k`: the entry is counted once less and
      the others keep their order. */
  function Remove(bag: Bag, k: int): (r: Bag)
    requires 0 <= k < |bag|
    ensures |r| == |bag| - 1 && r == bag[..k] + bag[k + 1..]
    ensures multiset(r) == multiset(bag) - multiset{bag[k]}
  {
    assert bag == bag[..k] + [bag[k]] + bag[k + 1..];
    bag[..k] + bag[k + 1..]
  }

  /** Removing the first entry equal to the item just added gives the bag back. */
  lemma RemoveAdded(bag: Bag, item: string)
    ensures Remove(Add(bag, item), IndexOf(Add(bag, item), item)) == bag
  {
  }

  /** The number of entries over all bags. */
  function Total(bags: seq<Bag>): nat {
    if bags == [] then 0 else Total(bags[..|bags| - 1]) + |bags[|bags| - 1]|
  }

  lemma {:induction false} TotalAppend(a: seq<Bag>, b: seq<Bag>)
    ensures Total(a + b) == Total(a) + Total(b)
  {
    if b != [] {
      assert (a + b)[..|a + b| - 1] == a + b[..|b| - 1];
      TotalAppend(a, b[..|b| - 1]);
    } else {
      assert a + b == a;
    }
  }

  /** Replacing one bag changes the total by the difference in its size. */
  lemma TotalUpdate(bags: seq<Bag>, i: int, b: Bag)
    requires 0 <= i < |bags|
    ensures Total(bags[i := b]) == Total(bags) - |bags[i]| + |b|
  {
    assert bags == bags[..i] + [bags[i]] + bags[i + 1..];
    assert bags[i := b] == bags[..i] + [b] + bags[i + 1..];
    TotalAppend(bags[..i] + [bags[i]], bags[i + 1..]);
    TotalAppend(bags[..i], [bags[i]]);
    TotalAppend(bags[..i] + [b], bags[i + 1..]);
    TotalAppend(bags[..i], [b]);
    assert [bags[i]][..0] == [] && [b][..0] == [];
  }

  /** `n` empty bags. */
  function Empties(n: nat): (r: seq<Bag>)
    ensures |r| == n && forall i :: 0 <= i < n ==> r[i] == []
  {
    seq(n, _ => [])
  }

  /** There are no entries exactly when every bag is empty. */
  lemma {:induction false} TotalZero(bags: seq<Bag>)
    ensures Total(bags) == 0 <==> forall i :: 0 <= i < |bags| ==> bags[i] == []
  {
    if bags != [] {
      var init := bags[..|bags| - 1];
      TotalZero(init);
      assert forall i :: 0 <= i < |init| ==> init[i] == bags[i];
    }
  }

  /** The number of entries of the bags at the given positions; a position
      outside `bags` holds no bag. */
  function SumAt(bags: seq<Bag>, idx: seq<int>): nat {
    if idx == [] then 0
    else
      var i := idx[|idx| - 1];
      SumAt(bags, idx[..|idx| - 1]) + if 0 <= i < |bags| then |bags[i]| else 0
  }

  lemma {:induction false} SumAtAppend(bags: seq<Bag>, a: seq<int>, b: seq<int>)
    ensures SumAt(bags, a + b) == SumAt(bags, a) + SumAt(bags, b)
  {
    if b != [] {
      assert (a + b)[..|a + b| - 1] == a + b[..|b| - 1];
      SumAtAppend(bags, a, b[..|b| - 1]);
    } else {
      assert a + b == a;
    }
  }

  lemma {:induction false} SumAtRange(bags: seq<Bag>, n: nat)
    requires n <= |bags|
    ensures SumAt(bags, Range(n)) == Total(bags[..n])
  {
    if n > 0 {
      assert Range(n)[..n - 1] == Range(n - 1);
      assert bags[..n][..n - 1] == bags[..n - 1];
      SumAtRange(bags, n - 1);
    }
  }

  /** Taking one position out of a distinct sequence of positions leaves the
      others, each once. */
  lemma RemoveAt(b: seq<int>, k: int)
    requires Distinct(b) && 0 <= k < |b|
    ensures Distinct(b[..k] + b[k + 1..])
    ensures forall y :: y in b[..k] + b[k + 1..] <==> y in b && y != b[k]
  {
    var x := b[k];
    var b' := b[..k] + b[k + 1..];
    assert forall i :: 0 <= i < |b'| ==> b'[i] == if i < k then b[i] else b[i + 1];
    forall y | y in b && y != x ensures y in b' {
      var j :| 0 <= j < |b| && b[j] == y;
      if j < k { assert b'[j] == y; } else { assert b'[j - 1] == y; }
    }
  }

  /** Taking one position out of the positions summed over subtracts its bag. */
  lemma SumAtRemove(bags: seq<Bag>, b: seq<int>, k: int)
    requires 0 <= k < |b|
    ensures SumAt(bags, b) == SumAt(bags, b[..k] + b[k + 1..]) + SumAt(bags, [b[k]])
  {
    assert b == b[..k] + [b[k]] + b[k + 1..];
    SumAtAppend(bags, b[..k] + [b[k]], b[k + 1..]);
    SumAtAppend(bags, b[..k], [b[k]]);
    SumAtAppend(bags, b[..k], b[k + 1..]);
  }

  /** The sum over distinct positions depends only on which positions they are. */
  lemma {:induction false} SumAtSameElements(bags: seq<Bag>, a: seq<int>, b: seq<int>)
    requires |a| == |b| && Distinct(a) && Distinct(b)
    requires forall x :: x in a <==> x in b
    ensures SumAt(bags, a) == SumAt(bags, b)
    decreases |a|
  {
    if a != [] {
      var x := a[|a| - 1];
      assert x in b;
      var k := IndexOf(b, x);
      RemoveAt(a, |a| - 1);
      SumAtRemove(bags, a, |a| - 1);
      RemoveAt(b, k);
      SumAtRemove(bags, b, k);
      var a', b' := a[..|a| - 1], b[..k] + b[k + 1..];
      assert a' + a[|a|..] == a';
      forall y ensures y in a' <==> y in b' {
        assert y in a' <==> y in a && y != x;
      }
      SumAtSameElements(bags, a', b');
    }
  }
}
