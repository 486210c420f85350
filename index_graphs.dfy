/** Directed graphs over the dense vertex indices `0 .. n - 1`, as the depth-first
    searches see them, with the facts about walks, cycles and finishing orders
    that the searches rely on. */
module IndexGraphs {
  import opened Sequences

  /** `H[i]` lists the successors of vertex `i`, with repetitions. */
  type Adj = seq<seq<int>>

  predicate Edge(H: Adj, a: int, b: int) {
    0 <= a < |H| && b in H[a]
  }

  /** Every step of `p` follows an edge. */
  predicate IsWalk(H: Adj, p: seq<int>) {
    forall k :: 0 < k < |p| ==> Edge(H, p[k - 1], p[k])
  }

  /** A walk of at least one edge that ends where it starts. */
  predicate IsCycle(H: Adj, c: seq<int>) {
    |c| >= 2 && c[0] == c[|c| - 1] && IsWalk(H, c)
  }

  /** Some vertex reaches itself by a non-empty walk. */
  ghost predicate HasCycle(H: Adj) {
    exists c :: IsCycle(H, c)
  }

  /** The state of a depth-first search over `|marked|` vertices: `path` is the
      chain of calls still active (the "grey" vertices), `order` lists the
      finished vertices in the order they finished, each vertex is in at most
      one of them, and exactly the vertices in either are marked. */
  predicate Marking(marked: seq<bool>, path: seq<int>, order: seq<int>) {
    Distinct(path) && Distinct(order) &&
    (forall k :: 0 <= k < |path| ==> 0 <= path[k] < |marked| && path[k] !in order) &&
    (forall k :: 0 <= k < |order| ==> 0 <= order[k] < |marked|) &&
    (forall i :: 0 <= i < |marked| ==> (marked[i] <==> i in path || i in order))
  }

  /** Every vertex that finished at position `start` or later finished after
      all of its successors. */
  predicate ClosedFrom(H: Adj, order: seq<int>, start: nat) {
    forall p :: start <= p < |order| ==>
      0 <= order[p] < |H| && forall w :: w in H[order[p]] ==> w in order[..p]
  }

  /** A search can only be entered on an unmarked vertex while fewer than all
      vertices are grey or finished; this bounds the recursion. */
  lemma MarkingBound(marked: seq<bool>, path: seq<int>, order: seq<int>, v: int)
    requires Marking(marked, path, order)
    requires 0 <= v < |marked| && !marked[v]
    ensures |path| + |order| + 1 <= |marked|
  {
    var s := path + order + [v];
    forall i, j | 0 <= i < j < |s| ensures s[i] != s[j] {
      if j < |path| {
      } else if i < |path| && j < |path| + |order| {
        assert s[j] in order;
      } else if i >= |path| && j < |path| + |order| {
      } else {
        assert s[j] == v;
        assert s[i] in path || s[i] in order;
      }
    }
    DistinctBound(s, |marked|);
  }

  /** Grey and finished vertices together number at most all vertices. */
  lemma MarkingSize(marked: seq<bool>, path: seq<int>, order: seq<int>)
    requires Marking(marked, path, order)
    ensures |path| + |order| <= |marked|
  {
    var s := path + order;
    forall i, j | 0 <= i < j < |s| ensures s[i] != s[j] {
      if i < |path| <= j {
        assert s[j] in order;
      }
    }
    DistinctBound(s, |marked|);
  }

  /** A walk followed by one more edge is a walk. */
  lemma WalkExtend(H: Adj, p: seq<int>, w: int)
    requires IsWalk(H, p) && |p| > 0 && Edge(H, p[|p| - 1], w)
    ensures IsWalk(H, p + [w])
  {
    var q := p + [w];
    forall k | 0 < k < |q| ensures Edge(H, q[k - 1], q[k]) {
      if k < |p| {
        assert q[k - 1] == p[k - 1] && q[k] == p[k];
      }
    }
  }

  /** Entering vertex `v` marks it and makes it grey. */
  lemma MarkingEnter(marked: seq<bool>, path: seq<int>, order: seq<int>, v: int)
    requires Marking(marked, path, order) && 0 <= v < |marked| && !marked[v]
    ensures Marking(marked[v := true], path + [v], order)
  {
    var path' := path + [v];
    forall i, j | 0 <= i < j < |path'| ensures path'[i] != path'[j] {
      if j == |path| {
        assert path'[i] in path;
      }
    }
    forall i | 0 <= i < |marked| ensures marked[v := true][i] <==> i in path' || i in order {
      assert i in path' <==> i in path || i == v;
    }
  }

  /** Leaving vertex `v`, the last grey one, moves it to the end of the order. */
  lemma MarkingFinish(marked: seq<bool>, path: seq<int>, v: int, order: seq<int>)
    requires Marking(marked, path + [v], order)
    ensures Marking(marked, path, order + [v])
  {
    var path', order' := path + [v], order + [v];
    assert v == path'[|path|] && v !in order;
    forall i, j | 0 <= i < j < |path| ensures path[i] != path[j] {
      assert path[i] == path'[i] && path[j] == path'[j];
    }
    forall k | 0 <= k < |path| ensures 0 <= path[k] < |marked| && path[k] !in order' {
      assert path[k] == path'[k];
      assert path'[k] != path'[|path|];
    }
    forall i, j | 0 <= i < j < |order'| ensures order'[i] != order'[j] {
      if j == |order| {
        assert order'[i] in order;
      }
    }
    forall i | 0 <= i < |marked| ensures marked[i] <==> i in path || i in order' {
      assert i in path' <==> i in path || i == v;
      assert i in order' <==> i in order || i == v;
    }
  }

  /** Finishing `v` after all of its successors keeps the order closed. */
  lemma ClosedFinish(H: Adj, order: seq<int>, v: int, start: nat)
    requires ClosedFrom(H, order, start) && start <= |order| && 0 <= v < |H|
    requires forall w :: w in H[v] ==> w in order
    ensures ClosedFrom(H, order + [v], start)
  {
    var order' := order + [v];
    forall p | start <= p < |order'| ensures 0 <= order'[p] < |H| && forall w :: w in H[order'[p]] ==> w in order'[..p] {
      if p < |order| {
        assert order'[p] == order[p] && order'[..p] == order[..p];
      } else {
        assert order'[..p] == order;
      }
    }
  }

  /** An edge from the end of a walk back to one of its vertices closes a cycle. */
  lemma BackEdgeCycle(H: Adj, q: seq<int>, m: int)
    requires IsWalk(H, q)
    requires 0 <= m < |q|
    requires Edge(H, q[|q| - 1], q[m])
    ensures HasCycle(H)
  {
    var c := q[m..] + [q[m]];
    forall k | 0 < k < |c| ensures Edge(H, c[k - 1], c[k]) {
      if k < |c| - 1 {
        assert c[k - 1] == q[m + k - 1] && c[k] == q[m + k];
      } else {
        assert c[k - 1] == q[|q| - 1];
      }
    }
    assert IsCycle(H, c);
  }

  /** Along a walk that starts at a finished vertex of a closed order, the
      finishing positions strictly decrease. */
  lemma {:induction false} WalkDescends(H: Adj, order: seq<int>, c: seq<int>, k: int)
    requires Distinct(order) && ClosedFrom(H, order, 0)
    requires IsWalk(H, c) && |c| > 0 && c[0] in order
    requires 0 <= k < |c|
    ensures c[k] in order && IndexOf(order, c[k]) + k <= IndexOf(order, c[0])
  {
    if k > 0 {
      WalkDescends(H, order, c, k - 1);
      var p := IndexOf(order, c[k - 1]);
      assert Edge(H, c[k - 1], c[k]);
      assert c[k] in order[..p];
      var j :| 0 <= j < p && order[j] == c[k];
      IndexOfDistinct(order, j);
    }
  }

  /** If every vertex finished after all of its successors, there is no cycle. */
  lemma ClosedAcyclic(H: Adj, order: seq<int>)
    requires Distinct(order) && ClosedFrom(H, order, 0)
    requires forall i :: 0 <= i < |H| ==> i in order
    ensures !HasCycle(H)
  {
    if HasCycle(H) {
      var c :| IsCycle(H, c);
      assert Edge(H, c[0], c[1]);
      WalkDescends(H, order, c, |c| - 1);
    }
  }

  /** Two closed stretches of one order make one closed stretch. */
  lemma ClosedJoin(H: Adj, o1: seq<int>, o2: seq<int>, start: nat)
    requires start <= |o1| <= |o2| && o2[..|o1|] == o1
    requires ClosedFrom(H, o1, start) && ClosedFrom(H, o2, |o1|)
    ensures ClosedFrom(H, o2, start)
  {
    forall p | start <= p < |o1| ensures 0 <= o2[p] < |H| && forall w :: w in H[o2[p]] ==> w in o2[..p] {
      assert o2[p] == o1[p];
      assert o2[..p] == o1[..p];
    }
  }

  /** In a closed finishing order without repetitions, no edge leads from a
      vertex to one that finished after it; read backwards, the order is
      topological. */
  lemma ReverseClosed(H: Adj, order: seq<int>)
    requires Distinct(order) && ClosedFrom(H, order, 0)
    ensures forall i, j :: 0 <= i < j < |order| ==> order[j] !in H[order[i]]
  {
  }
}
