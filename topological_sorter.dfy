/** Depth-first searches over a `DirectedGraph`: cycle detection, topological
    sorting and strongly connected components.  Every search visits the
    positions `0 .. size - 1` of the label array `vertices`; at position `v` it
    reads the bag of the label `vertices[v]`, and for an entry `w` it marks and
    recurses on the index of `w` in the vertex map.  The graph that a search
    explores is therefore `Explored(vi, bags, vertices)`, which is the graph
    itself when `vertices[i]` is the label with index `i`. */
module TopologicalSorter {
  import opened Outcomes
  import opened Sequences
  import opened Bags
  import opened IndexGraphs
  import opened DirectedGraphs

  /** A search over `g` with the label array `vertices` explores `H`. */
  ghost predicate Explorable(g: DirectedGraph, vertices: seq<string>, H: Adj)
    reads g, g.adj
  {
    g.Valid() && IsEnumeration(vertices, g.vertexIndices.Keys) &&
    H == Explored(g.vertexIndices, g.adj[..], vertices)
  }

  /** The label at position `i` is a vertex whose index is a position. */
  lemma VertexAt(vi: map<string, int>, names: seq<string>, vertices: seq<string>, i: int)
    requires Bijection(vi, names) && IsEnumeration(vertices, vi.Keys) && 0 <= i < |vertices|
    ensures vertices[i] in vi && 0 <= vi[vertices[i]] < |vertices|
  {
    assert vertices[i] in vertices;
  }

  /** What a search reads at position `i`: a vertex, and a bag of vertices
      whose indices are the successors of `i` in the explored graph. */
  lemma ExploredAt(vi: map<string, int>, names: seq<string>, bags: seq<Bag>, vertices: seq<string>, i: int)
    requires Bijection(vi, names) && BagsWellFormed(bags, vi, names) && IsEnumeration(vertices, vi.Keys)
    requires 0 <= i < |vertices|
    ensures vertices[i] in vi && 0 <= vi[vertices[i]] < |vertices|
    ensures Explored(vi, bags, vertices)[i] == Indices(vi, BagAt(bags, vi, vertices[i]))
    ensures forall k :: 0 <= k < |BagAt(bags, vi, vertices[i])| ==>
              BagAt(bags, vi, vertices[i])[k] in vi &&
              0 <= vi[BagAt(bags, vi, vertices[i])[k]] < |vertices| &&
              Indices(vi, BagAt(bags, vi, vertices[i]))[k] == vi[BagAt(bags, vi, vertices[i])[k]]
  {
    var x := vertices[i];
    assert x in vertices;
    var bag := BagAt(bags, vi, x);
    if 0 <= vi[x] < |bags| {
      assert SlotOk(bags[vi[x]], vi[x], vi, names);
    }
    forall k | 0 <= k < |bag| ensures bag[k] in vi && 0 <= vi[bag[k]] < |vertices| {
    }
  }

  /** `topologicalSortDFS` and `pseudoSortDFS`, which are the same code: marks
      `v`, searches every unmarked successor, then pushes `vertices[v]`.  On
      success the new finishing order extends the old one and ends with `v`,
      the stack grew by the labels of the vertices that finished, and when the
      explored graph has no cycle every vertex finished after its successors.
      It fails only where reading an adjacency list fails. */
  method PostorderDfs(g: DirectedGraph, v: int, marked: array<bool>, stack: seq<string>, vertices: seq<string>,
                      ghost H: Adj, ghost path: seq<int>, ghost order: seq<int>)
    returns (r: Result<seq<string>>, ghost order': seq<int>)
    requires Explorable(g, vertices, H) && marked.Length == |H|
    requires 0 <= v < |H| && !marked[v]
    requires Marking(marked[..], path, order) && IsWalk(H, path + [v])
    modifies marked
    decreases |H| - |path| - |order|, 2
    ensures r.Ok? ==> |order| < |order'| && order'[..|order|] == order && order'[|order'| - 1] == v
    ensures r.Ok? ==> Marking(marked[..], path, order')
    ensures r.Ok? ==> r.value == stack + Labels(vertices, order'[|order|..])
    ensures r.Ok? && !HasCycle(H) ==> ClosedFrom(H, order', |order|)
    ensures g.Healthy() ==> r.Ok?
  {
    MarkingEnter(marked[..], path, order, v);
    marked[v] := true;
    ExploredAt(g.vertexIndices, g.names, g.adj[..], vertices, v);
    var adjacency := g.GetAdjacencyList(Some(vertices[v]));
    if adjacency.Err? {
      return Err(adjacency.error), order;
    }
    ghost var cur;
    r, cur := SearchSuccessors(g, v, adjacency.value, marked, stack, vertices, H, path, order);
    if r.Err? {
      return r, cur;
    }
    MarkingFinish(marked[..], path, v, cur);
    if !HasCycle(H) {
      ClosedFinish(H, cur, v, |order|);
    }
    Advance(H, vertices, stack, order, cur, cur + [v]);
    return Ok(r.value + [vertices[v]]), cur + [v];
  }

  /** The loop over the adjacency list `bag` of the grey vertex `v`.  When the
      explored graph has no cycle, every successor of `v` has finished
      afterwards. */
  method SearchSuccessors(g: DirectedGraph, v: int, bag: Bag, marked: array<bool>, stack: seq<string>,
                          vertices: seq<string>, ghost H: Adj, ghost path: seq<int>, ghost order: seq<int>)
    returns (r: Result<seq<string>>, ghost cur: seq<int>)
    requires Explorable(g, vertices, H) && marked.Length == |H|
    requires 0 <= v < |H| && bag == BagAt(g.adj[..], g.vertexIndices, vertices[v])
    requires Marking(marked[..], path + [v], order) && IsWalk(H, path + [v])
    modifies marked
    decreases |H| - |path| - |order|, 1
    ensures r.Ok? ==> |order| <= |cur| && cur[..|order|] == order
    ensures r.Ok? ==> Marking(marked[..], path + [v], cur)
    ensures r.Ok? ==> r.value == stack + Labels(vertices, cur[|order|..])
    ensures r.Ok? && !HasCycle(H) ==> ClosedFrom(H, cur, |order|) && forall w :: w in H[v] ==> w in cur
    ensures g.Healthy() ==> r.Ok?
  {
    ExploredAt(g.vertexIndices, g.names, g.adj[..], vertices, v);
    cur := order;
    var acc := stack;
    var k := 0;
    while k < |bag|
      invariant 0 <= k <= |bag|
      invariant |order| <= |cur| && cur[..|order|] == order
      invariant Marking(marked[..], path + [v], cur)
      invariant acc == stack + Labels(vertices, cur[|order|..])
      invariant !HasCycle(H) ==> ClosedFrom(H, cur, |order|)
      invariant !HasCycle(H) ==> forall j :: 0 <= j < k ==> H[v][j] in cur
    {
      var indexOfW := g.vertexIndices[bag[k]];
      assert H[v][k] == indexOfW;
      MarkingSize(marked[..], path + [v], cur);
      var res;
      ghost var next;
      res, next := SearchSuccessor(g, v, indexOfW, marked, acc, stack, vertices, H, path, order, cur);
      if res.Err? {
        return res, next;
      }
      if !HasCycle(H) {
        CoveredExtend(H[v], k, cur, next);
      }
      acc, cur := res.value, next;
      k := k + 1;
    }
    if !HasCycle(H) {
      forall w | w in H[v] ensures w in cur {
        var j := IndexOf(H[v], w);
      }
    }
    return Ok(acc), cur;
  }

  /** The body of the loop over the adjacency list of `v`: searches the
      successor `w` unless it is marked.  When the explored graph has no
      cycle, `w` has finished afterwards. */
  method SearchSuccessor(g: DirectedGraph, v: int, w: int, marked: array<bool>, acc: seq<string>,
                         ghost stack: seq<string>, vertices: seq<string>,
                         ghost H: Adj, ghost path: seq<int>, ghost order: seq<int>, ghost cur: seq<int>)
    returns (r: Result<seq<string>>, ghost next: seq<int>)
    requires Explorable(g, vertices, H) && marked.Length == |H|
    requires 0 <= v < |H| && 0 <= w < |H| && w in H[v]
    requires |order| <= |cur| && cur[..|order|] == order
    requires Marking(marked[..], path + [v], cur) && IsWalk(H, path + [v])
    requires acc == stack + Labels(vertices, cur[|order|..])
    requires !HasCycle(H) ==> ClosedFrom(H, cur, |order|)
    modifies marked
    decreases |H| - |path| - |cur|, 0
    ensures r.Ok? ==> |cur| <= |next| && next[..|cur|] == cur && next[..|order|] == order
    ensures r.Ok? ==> Marking(marked[..], path + [v], next)
    ensures r.Ok? ==> r.value == stack + Labels(vertices, next[|order|..])
    ensures r.Ok? && !HasCycle(H) ==> ClosedFrom(H, next, |order|) && w in next
    ensures g.Healthy() ==> r.Ok?
  {
    ghost var grey := path + [v];
    if !marked[w] {
      MarkingBound(marked[..], grey, cur, w);
      WalkExtend(H, grey, w);
      ghost var after;
      r, after := PostorderDfs(g, w, marked, acc, vertices, H, grey, cur);
      if r.Ok? {
        Advance(H, vertices, stack, order, cur, after);
        if !HasCycle(H) {
          ClosedJoin(H, cur, after, |order|);
        }
      }
      return r, after;
    }
    if !HasCycle(H) && w !in cur {
      BackEdgeCycle(H, grey, IndexOf(grey, w));
      assert false;
    }
    return Ok(acc), cur;
  }

  /** `hasCycle`: the search of `PostorderDfs` that also keeps `onStack`, the
      grey vertices, and answers true as soon as an edge leads to one of
      them.  True means the explored graph has a cycle; false means `v` and
      every vertex it reached finished after all of their successors, and
      `onStack` is as it was. */
  method HasCycleDfs(g: DirectedGraph, v: int, marked: array<bool>, onStack: array<bool>, vertices: seq<string>,
                     ghost H: Adj, ghost path: seq<int>, ghost order: seq<int>)
    returns (r: Result<bool>, ghost order': seq<int>)
    requires Explorable(g, vertices, H) && marked.Length == |H| && onStack.Length == |H| && marked != onStack
    requires 0 <= v < |H| && !marked[v]
    requires Marking(marked[..], path, order) && IsWalk(H, path + [v])
    requires forall i :: 0 <= i < |H| ==> (onStack[i] <==> i in path)
    modifies marked, onStack
    decreases |H| - |path| - |order|, 2
    ensures r == Ok(true) ==> HasCycle(H)
    ensures r == Ok(false) ==> |order| < |order'| && order'[..|order|] == order && order'[|order'| - 1] == v
    ensures r == Ok(false) ==> Marking(marked[..], path, order') && ClosedFrom(H, order', |order|)
    ensures r == Ok(false) ==> onStack[..] == old(onStack[..])
    ensures g.Healthy() ==> r.Ok?
  {
    ghost var before := onStack[..];
    MarkingEnter(marked[..], path, order, v);
    marked[v] := true;
    onStack[v] := true;
    ExploredAt(g.vertexIndices, g.names, g.adj[..], vertices, v);
    var adjacency := g.GetAdjacencyList(Some(vertices[v]));
    if adjacency.Err? {
      return Err(adjacency.error), order;
    }
    ghost var cur;
    r, cur := CycleSuccessors(g, v, adjacency.value, marked, onStack, vertices, H, path, order);
    if r != Ok(false) {
      return r, cur;
    }
    MarkingFinish(marked[..], path, v, cur);
    ClosedFinish(H, cur, v, |order|);
    onStack[v] := false;
    assert onStack[..] == before;
    return Ok(false), cur + [v];
  }

  /** The loop of `hasCycle` over the adjacency list `bag` of the grey vertex `v`. */
  method CycleSuccessors(g: DirectedGraph, v: int, bag: Bag, marked: array<bool>, onStack: array<bool>,
                         vertices: seq<string>, ghost H: Adj, ghost path: seq<int>, ghost order: seq<int>)
    returns (r: Result<bool>, ghost cur: seq<int>)
    requires Explorable(g, vertices, H) && marked.Length == |H| && onStack.Length == |H| && marked != onStack
    requires 0 <= v < |H| && bag == BagAt(g.adj[..], g.vertexIndices, vertices[v])
    requires Marking(marked[..], path + [v], order) && IsWalk(H, path + [v])
    requires forall i :: 0 <= i < |H| ==> (onStack[i] <==> i in path + [v])
    modifies marked, onStack
    decreases |H| - |path| - |order|, 1
    ensures r == Ok(true) ==> HasCycle(H)
    ensures r == Ok(false) ==> |order| <= |cur| && cur[..|order|] == order
    ensures r == Ok(false) ==> Marking(marked[..], path + [v], cur) && ClosedFrom(H, cur, |order|)
    ensures r == Ok(false) ==> (forall w :: w in H[v] ==> w in cur) && onStack[..] == old(onStack[..])
    ensures g.Healthy() ==> r.Ok?
  {
    ExploredAt(g.vertexIndices, g.names, g.adj[..], vertices, v);
    cur := order;
    var k := 0;
    while k < |bag|
      invariant 0 <= k <= |bag|
      invariant |order| <= |cur| && cur[..|order|] == order
      invariant Marking(marked[..], path + [v], cur) && ClosedFrom(H, cur, |order|)
      invariant forall j :: 0 <= j < k ==> H[v][j] in cur
      invariant onStack[..] == old(onStack[..])
    {
      var indexOfW := g.vertexIndices[bag[k]];
      assert H[v][k] == indexOfW;
      MarkingSize(marked[..], path + [v], cur);
      var res;
      ghost var next;
      res, next := CycleSuccessor(g, v, indexOfW, marked, onStack, vertices, H, path, order, cur);
      if res != Ok(false) {
        return res, next;
      }
      CoveredExtend(H[v], k, cur, next);
      cur := next;
      k := k + 1;
    }
    forall w | w in H[v] ensures w in cur {
      var j := IndexOf(H[v], w);
    }
    return Ok(false), cur;
  }

  /** The body of the loop of `hasCycle`: recurses on an unmarked successor
      `w`, and answers true for a marked one that is still on the stack. */
  method CycleSuccessor(g: DirectedGraph, v: int, w: int, marked: array<bool>, onStack: array<bool>,
                        vertices: seq<string>, ghost H: Adj, ghost path: seq<int>, ghost order: seq<int>,
                        ghost cur: seq<int>)
    returns (r: Result<bool>, ghost next: seq<int>)
    requires Explorable(g, vertices, H) && marked.Length == |H| && onStack.Length == |H| && marked != onStack
    requires 0 <= v < |H| && 0 <= w < |H| && w in H[v]
    requires |order| <= |cur| && cur[..|order|] == order
    requires Marking(marked[..], path + [v], cur) && IsWalk(H, path + [v]) && ClosedFrom(H, cur, |order|)
    requires forall i :: 0 <= i < |H| ==> (onStack[i] <==> i in path + [v])
    modifies marked, onStack
    decreases |H| - |path| - |cur|, 0
    ensures r == Ok(true) ==> HasCycle(H)
    ensures r == Ok(false) ==> |cur| <= |next| && next[..|cur|] == cur && next[..|order|] == order
    ensures r == Ok(false) ==> Marking(marked[..], path + [v], next) && ClosedFrom(H, next, |order|)
    ensures r == Ok(false) ==> w in next && onStack[..] == old(onStack[..])
    ensures g.Healthy() ==> r.Ok?
  {
    ghost var grey := path + [v];
    if !marked[w] {
      MarkingBound(marked[..], grey, cur, w);
      WalkExtend(H, grey, w);
      ghost var after;
      r, after := HasCycleDfs(g, w, marked, onStack, vertices, H, grey, cur);
      if r == Ok(false) {
        assert after[..|order|] == order by {
          assert after[..|cur|][..|order|] == after[..|order|];
        }
        ClosedJoin(H, cur, after, |order|);
      }
      return r, after;
    }
    if onStack[w] {
      BackEdgeCycle(H, grey, IndexOf(grey, w));
      return Ok(true), cur;
    }
    return Ok(false), cur;
  }

  /** The loop of `isDirectedCycle` over the label array `vertices`: true
      exactly when the explored graph has a cycle. */
  method CycleSearch(g: DirectedGraph, vertices: seq<string>) returns (r: Result<bool>)
    requires g.Valid() && IsEnumeration(vertices, g.vertexIndices.Keys)
    ensures r.Ok? ==> (r.value <==> HasCycle(Explored(g.vertexIndices, g.adj[..], vertices)))
    ensures g.Healthy() ==> r.Ok?
  {
    ghost var H := Explored(g.vertexIndices, g.adj[..], vertices);
    var n := g.Size();
    var marked := new bool[n](_ => false);
    var onStack := new bool[n](_ => false);
    ghost var order: seq<int> := [];
    var v := 0;
    while v < n
      invariant 0 <= v <= n && marked.Length == n == |H| && onStack.Length == n
      invariant Marking(marked[..], [], order) && ClosedFrom(H, order, 0)
      invariant forall i :: 0 <= i < n ==> !onStack[i]
      invariant forall i :: 0 <= i < v ==> marked[i]
    {
      var res;
      ghost var next;
      res, next := CycleRoot(g, v, marked, onStack, vertices, H, order);
      if res.Err? {
        return Err(res.error);
      }
      if res.value {
        return Ok(true);
      }
      order := next;
      v := v + 1;
    }
    ClosedAcyclic(H, order);
    return Ok(false);
  }

  /** The body of the loop of `isDirectedCycle`: a search from `v` unless it
      is marked.  False leaves every position up to `v` marked and the
      finishing order closed. */
  method CycleRoot(g: DirectedGraph, v: int, marked: array<bool>, onStack: array<bool>, vertices: seq<string>,
                   ghost H: Adj, ghost order: seq<int>)
    returns (r: Result<bool>, ghost next: seq<int>)
    requires Explorable(g, vertices, H) && marked.Length == |H| && onStack.Length == |H| && marked != onStack
    requires 0 <= v < |H| && Marking(marked[..], [], order) && ClosedFrom(H, order, 0)
    requires forall i :: 0 <= i < |H| ==> !onStack[i]
    requires forall i :: 0 <= i < v ==> marked[i]
    modifies marked, onStack
    ensures r == Ok(true) ==> HasCycle(H)
    ensures r == Ok(false) ==> Marking(marked[..], [], next) && ClosedFrom(H, next, 0)
    ensures r == Ok(false) ==> onStack[..] == old(onStack[..])
    ensures r == Ok(false) ==> forall i :: 0 <= i <= v ==> marked[i]
    ensures g.Healthy() ==> r.Ok?
  {
    if marked[v] {
      return Ok(false), order;
    }
    ghost var before := marked[..];
    r, next := HasCycleDfs(g, v, marked, onStack, vertices, H, [], order);
    if r == Ok(false) {
      MarkingGrows(before, marked[..], order, next, v);
      ClosedJoin(H, order, next, 0);
    }
  }

  /** `isDirectedCycle`: the search over the labels in the map's key order.
      Its answer is about the graph explored with that order. */
  method IsDirectedCycle(g: DirectedGraph) returns (r: Result<bool>, ghost vertices: seq<string>)
    requires g.Valid()
    ensures IsEnumeration(vertices, g.vertexIndices.Keys)
    ensures r.Ok? ==> (r.value <==> HasCycle(Explored(g.vertexIndices, g.adj[..], vertices)))
    ensures r.Ok? && IndexConsistent(g.vertexIndices, vertices) ==> (r.value <==> HasCycle(g.Graph()))
    ensures |g.vertexIndices| == 0 ==> r == Ok(false)
    ensures g.Healthy() ==> r.Ok?
  {
    var keyOrder := g.GetVertices();
    r := CycleSearch(g, keyOrder);
    vertices := keyOrder;
    if IndexConsistent(g.vertexIndices, vertices) {
      ConsistentExplored(g.vertexIndices, g.adj[..], vertices);
    }
    if |g.vertexIndices| == 0 {
      EmptyHealthy(g);
      ClosedAcyclic(Explored(g.vertexIndices, g.adj[..], vertices), []);
    }
  }

  /** The loop of `sortTopologically` over the label array `vertices`,
      followed by popping the whole stack.  The result lists every vertex once;
      when the explored graph has no cycle, no edge of it leads from a later
      label back to an earlier one. */
  method TopologicalOrder(g: DirectedGraph, vertices: seq<string>) returns (r: Result<seq<string>>)
    requires g.Valid() && IsEnumeration(vertices, g.vertexIndices.Keys)
    ensures r.Ok? ==> IsEnumeration(r.value, g.vertexIndices.Keys)
    ensures r.Ok? && !HasCycle(Explored(g.vertexIndices, g.adj[..], vertices)) ==>
              forall p, q :: 0 <= p < q < |r.value| ==>
                IndexOf(vertices, r.value[p]) !in
                Explored(g.vertexIndices, g.adj[..], vertices)[IndexOf(vertices, r.value[q])]
    ensures g.Healthy() ==> r.Ok?
  {
    ghost var H := Explored(g.vertexIndices, g.adj[..], vertices);
    var stack;
    ghost var order;
    stack, order := PostorderAll(g, vertices, H);
    if stack.Err? {
      return stack;
    }
    var sorted, _ := PopAll(stack.value, g.Size());
    SortedFacts(H, vertices, g.vertexIndices.Keys, order, sorted);
    return Ok(sorted);
  }

  /** Searches from every unmarked position of `vertices` in turn and returns
      the stack: the labels of all positions, each once, in finishing order. */
  method PostorderAll(g: DirectedGraph, vertices: seq<string>, ghost H: Adj)
    returns (r: Result<seq<string>>, ghost order: seq<int>)
    requires Explorable(g, vertices, H)
    ensures r.Ok? ==> Distinct(order) && |order| == |H| && forall k :: 0 <= k < |order| ==> 0 <= order[k] < |H|
    ensures r.Ok? ==> r.value == Labels(vertices, order) && forall i :: 0 <= i < |H| ==> i in order
    ensures r.Ok? && !HasCycle(H) ==> ClosedFrom(H, order, 0)
    ensures g.Healthy() ==> r.Ok?
  {
    var n := g.Size();
    var marked := new bool[n](_ => false);
    var stack: seq<string> := [];
    order := [];
    var v := 0;
    while v < n
      invariant 0 <= v <= n && marked.Length == n == |H|
      invariant Marking(marked[..], [], order)
      invariant !HasCycle(H) ==> ClosedFrom(H, order, 0)
      invariant stack == Labels(vertices, order)
      invariant forall i :: 0 <= i < v ==> marked[i]
    {
      var res;
      res, order := SearchRoot(g, v, marked, stack, vertices, H, order);
      if res.Err? {
        return res, order;
      }
      stack := res.value;
      v := v + 1;
    }
    DistinctBound(order, n);
    CoverBound(order, n);
    return Ok(stack), order;
  }

  /** The body of the loop over the roots: a search from `v` unless it is marked. */
  method SearchRoot(g: DirectedGraph, v: int, marked: array<bool>, stack: seq<string>, vertices: seq<string>,
                    ghost H: Adj, ghost order: seq<int>)
    returns (r: Result<seq<string>>, ghost next: seq<int>)
    requires Explorable(g, vertices, H) && marked.Length == |H| && 0 <= v < |H|
    requires Marking(marked[..], [], order) && stack == Labels(vertices, order)
    requires !HasCycle(H) ==> ClosedFrom(H, order, 0)
    requires forall i :: 0 <= i < v ==> marked[i]
    modifies marked
    ensures r.Ok? ==> Marking(marked[..], [], next) && r.value == Labels(vertices, next)
    ensures r.Ok? ==> forall i :: 0 <= i <= v ==> marked[i]
    ensures r.Ok? && !HasCycle(H) ==> ClosedFrom(H, next, 0)
    ensures g.Healthy() ==> r.Ok?
  {
    if marked[v] {
      return Ok(stack), order;
    }
    ghost var before := marked[..];
    r, next := PostorderDfs(g, v, marked, stack, vertices, H, [], order);
    if r.Ok? {
      MarkingGrows(before, marked[..], order, next, v);
      LabelsExtend(vertices, order, next);
      if !HasCycle(H) {
        ClosedJoin(H, order, next, 0);
      }
    }
  }

  /** `sortTopologically`: the sort over the labels in the map's key order. */
  method SortTopologically(g: DirectedGraph) returns (r: Result<seq<string>>, ghost vertices: seq<string>)
    requires g.Valid()
    ensures IsEnumeration(vertices, g.vertexIndices.Keys)
    ensures r.Ok? ==> IsEnumeration(r.value, g.vertexIndices.Keys)
    ensures r.Ok? && !HasCycle(Explored(g.vertexIndices, g.adj[..], vertices)) ==>
              forall p, q :: 0 <= p < q < |r.value| ==>
                IndexOf(vertices, r.value[p]) !in
                Explored(g.vertexIndices, g.adj[..], vertices)[IndexOf(vertices, r.value[q])]
    ensures r.Ok? && IndexConsistent(g.vertexIndices, vertices) && !HasCycle(g.Graph()) ==>
              forall p, q :: 0 <= p < q < |r.value| ==> r.value[p] !in g.BagOf(r.value[q])
    ensures |g.vertexIndices| == 0 ==> r == Ok([])
    ensures g.Healthy() ==> r.Ok?
  {
    var keyOrder := g.GetVertices();
    r := TopologicalOrder(g, keyOrder);
    vertices := keyOrder;
    if r.Ok? && IndexConsistent(g.vertexIndices, vertices) && !HasCycle(g.Graph()) {
      ConsistentExplored(g.vertexIndices, g.adj[..], vertices);
      ConsistentSorted(g.vertexIndices, g.names, g.adj[..], vertices, r.value);
    }
    if |g.vertexIndices| == 0 {
      EmptyHealthy(g);
    }
  }

  /** With the label array by index, an order in which no explored edge
      leads backwards is one in which no edge of the graph does. */
  lemma ConsistentSorted(vi: map<string, int>, names: seq<string>, bags: seq<Bag>, vertices: seq<string>,
                         sorted: seq<string>)
    requires Bijection(vi, names) && IndexConsistent(vi, vertices) && IsEnumeration(vertices, vi.Keys)
    requires IsEnumeration(sorted, vi.Keys)
    requires forall p, q :: 0 <= p < q < |sorted| ==>
               IndexOf(vertices, sorted[p]) !in Explored(vi, bags, vertices)[IndexOf(vertices, sorted[q])]
    ensures forall p, q :: 0 <= p < q < |sorted| ==> sorted[p] !in BagAt(bags, vi, sorted[q])
  {
    forall p, q | 0 <= p < q < |sorted| ensures sorted[p] !in BagAt(bags, vi, sorted[q]) {
      assert sorted[p] in sorted && sorted[q] in sorted;
      if sorted[p] in BagAt(bags, vi, sorted[q]) {
        ConsistentEdge(vi, names, bags, vertices, sorted[q], sorted[p]);
      }
    }
  }

  /** `findStrongComponents`: reverses the graph, runs the first pass over
      the reverse graph's key order, pops the stack into `sorted`, and runs
      the second pass over `sorted`.  Both passes search `g` itself; the
      reverse graph is used only for its vertex order.  The components are
      non-empty and together list every vertex exactly once.  Reversing fails
      from the 41st vertex on, and otherwise only reading an adjacency list
      can fail. */
  method FindStrongComponents(g: DirectedGraph) returns (r: Result<seq<seq<string>>>)
    requires g.Valid()
    ensures r.Ok? ==> NoneEmpty(r.value) && IsEnumeration(Flatten(r.value), g.vertexIndices.Keys)
    ensures r.Ok? ==> |r.value| <= |g.vertexIndices|
    ensures |g.vertexIndices| == 0 ==> r == Ok([])
    ensures |g.vertexIndices| > 2 * g.initialVertexCount ==> r == Err(IndexOutOfBounds)
    ensures g.Healthy() ==> r.Ok?
  {
    var reversed := g.MakeReverseGraph();
    if reversed.Err? {
      return Err(reversed.error);
    }
    var reverse := reversed.value;
    var vertices := reverse.GetVertices();
    ghost var H1 := Explored(g.vertexIndices, g.adj[..], vertices);
    var pass1;
    ghost var order1;
    pass1, order1 := PostorderAll(g, vertices, H1);
    if pass1.Err? {
      return Err(pass1.error);
    }
    var size := g.Size();
    var sorted, stack := PopAll(pass1.value, size);
    SortedFacts(H1, vertices, g.vertexIndices.Keys, order1, sorted);
    assert stack == [];
    r := ComponentsInOrder(g, sorted);
    if r.Ok? {
      FlattenLength(r.value);
    }
    if |g.vertexIndices| == 0 {
      EmptyHealthy(g);
    }
  }

  /** The second pass of `findStrongComponents`: for every label of
      `sorted` whose vertex is unmarked, a search from that vertex over the
      label array `sorted`; the labels it pushes form the next component. */
  method ComponentsInOrder(g: DirectedGraph, sorted: seq<string>) returns (r: Result<seq<seq<string>>>)
    requires g.Valid() && IsEnumeration(sorted, g.vertexIndices.Keys)
    ensures r.Ok? ==> NoneEmpty(r.value) && IsEnumeration(Flatten(r.value), g.vertexIndices.Keys)
    ensures g.Healthy() ==> r.Ok?
  {
    ghost var H := Explored(g.vertexIndices, g.adj[..], sorted);
    ghost var roots := Indices(g.vertexIndices, sorted);
    var size := |sorted|;
    var strongComponents := new seq<string>[size](_ => []);
    var marked := new bool[size](_ => false);
    var componentIndex := 0;
    ghost var order: seq<int> := [];
    var v := 0;
    while v < |sorted|
      invariant 0 <= v <= |sorted| && marked.Length == |H|
      invariant Marking(marked[..], [], order)
      invariant 0 <= componentIndex <= |order| <= size
      invariant Flatten(strongComponents[..componentIndex]) == Labels(sorted, order)
      invariant NoneEmpty(strongComponents[..componentIndex])
      invariant forall j :: 0 <= j < v ==> roots[j] in order
    {
      var res;
      res, componentIndex, order := ComponentAt(g, v, marked, strongComponents, componentIndex, sorted, H, order);
      if res.Fail? {
        return Err(res.error);
      }
      v := v + 1;
    }
    r := Ok(strongComponents[..componentIndex]);
    MarkingSize(marked[..], [], order);
    EnumerationIndices(g.vertexIndices, g.names, sorted);
    ComponentsCover(sorted, g.vertexIndices.Keys, roots, order, r.value);
  }

  /** Components that together list the labels of an order in which every
      root finished list every vertex once. */
  lemma ComponentsCover(sorted: seq<string>, keys: set<string>, roots: seq<int>, order: seq<int>,
                        components: seq<seq<string>>)
    requires IsEnumeration(sorted, keys) && |roots| == |sorted|
    requires Distinct(order) && |order| <= |sorted|
    requires forall k :: 0 <= k < |order| ==> 0 <= order[k] < |sorted|
    requires forall x :: x in roots <==> x in Range(|sorted|)
    requires forall j :: 0 <= j < |roots| ==> roots[j] in order
    requires Flatten(components) == Labels(sorted, order)
    ensures IsEnumeration(Flatten(components), keys)
  {
    RootsCover(roots, order, |sorted|);
    LabelsEnumeration(sorted, keys, order);
  }

  /** When the roots are the positions `0 .. n - 1` in some order and all of
      them finished, every position finished. */
  lemma RootsCover(roots: seq<int>, order: seq<int>, n: nat)
    requires forall x :: x in roots <==> x in Range(n)
    requires forall j :: 0 <= j < |roots| ==> roots[j] in order
    ensures forall i :: 0 <= i < n ==> i in order
  {
    forall i | 0 <= i < n ensures i in order {
      assert Range(n)[i] == i;
      var j := IndexOf(roots, i);
    }
  }

  /** The body of the second pass at position `v` of `sorted`. */
  method ComponentAt(g: DirectedGraph, v: int, marked: array<bool>, strongComponents: array<seq<string>>,
                     componentIndex: int, sorted: seq<string>, ghost H: Adj, ghost order: seq<int>)
    returns (r: Outcome, componentIndex': int, ghost next: seq<int>)
    requires Explorable(g, sorted, H) && marked.Length == |H| == strongComponents.Length
    requires 0 <= v < |sorted| && Marking(marked[..], [], order)
    requires 0 <= componentIndex <= |order| <= |H|
    requires Flatten(strongComponents[..componentIndex]) == Labels(sorted, order)
    requires NoneEmpty(strongComponents[..componentIndex])
    requires forall j :: 0 <= j < v ==> Indices(g.vertexIndices, sorted)[j] in order
    modifies marked, strongComponents
    ensures r.Pass? ==> Marking(marked[..], [], next)
    ensures r.Pass? ==> 0 <= componentIndex' <= |next| <= |H|
    ensures r.Pass? ==> Flatten(strongComponents[..componentIndex']) == Labels(sorted, next)
    ensures r.Pass? ==> NoneEmpty(strongComponents[..componentIndex'])
    ensures r.Pass? ==> forall j :: 0 <= j < v + 1 ==> Indices(g.vertexIndices, sorted)[j] in next
    ensures g.Healthy() ==> r.Pass?
  {
    VertexAt(g.vertexIndices, g.names, sorted, v);
    var indexOfV := g.vertexIndices[sorted[v]];
    ghost var roots := Indices(g.vertexIndices, sorted);
    assert roots[v] == indexOfV;
    if marked[indexOfV] {
      CoveredExtend(roots, v, order, order);
      return Pass, componentIndex, order;
    }
    r, next := NewComponent(g, indexOfV, marked, strongComponents, componentIndex, sorted, H, order);
    if r.Fail? {
      return r, componentIndex, next;
    }
    CoveredExtend(roots, v, order, next);
    return Pass, componentIndex + 1, next;
  }

  /** A search from the unmarked vertex `w`, whose finished labels are stored
      as the next component. */
  method NewComponent(g: DirectedGraph, w: int, marked: array<bool>, strongComponents: array<seq<string>>,
                      componentIndex: int, sorted: seq<string>, ghost H: Adj, ghost order: seq<int>)
    returns (r: Outcome, ghost next: seq<int>)
    requires Explorable(g, sorted, H) && marked.Length == |H| == strongComponents.Length
    requires 0 <= w < |H| && !marked[w] && Marking(marked[..], [], order)
    requires 0 <= componentIndex <= |order| <= |H|
    requires Flatten(strongComponents[..componentIndex]) == Labels(sorted, order)
    requires NoneEmpty(strongComponents[..componentIndex])
    modifies marked, strongComponents
    ensures r.Pass? ==> componentIndex < |next| <= |H| && |order| < |next|
    ensures r.Pass? ==> Marking(marked[..], [], next) && next[..|order|] == order && next[|next| - 1] == w
    ensures r.Pass? ==> Flatten(strongComponents[..componentIndex + 1]) == Labels(sorted, next)
    ensures r.Pass? ==> NoneEmpty(strongComponents[..componentIndex + 1])
    ensures g.Healthy() ==> r.Pass?
  {
    var component;
    component, next := SearchComponent(g, w, marked, sorted, H, order);
    if component.Err? {
      return Fail(component.error), next;
    }
    LabelsExtend(sorted, order, next);
    StoreComponent(strongComponents, componentIndex, component.value);
    return Pass, next;
  }

  /** A search of the second pass from the unmarked vertex `v`, with the
      stack empty, and the stack then drained into a component: the labels of
      the vertices that finished, in finishing order. */
  method SearchComponent(g: DirectedGraph, v: int, marked: array<bool>, sorted: seq<string>,
                         ghost H: Adj, ghost order: seq<int>)
    returns (r: Result<seq<string>>, ghost next: seq<int>)
    requires Explorable(g, sorted, H) && marked.Length == |H|
    requires 0 <= v < |H| && !marked[v] && Marking(marked[..], [], order)
    modifies marked
    ensures r.Ok? ==> Marking(marked[..], [], next) && |order| < |next| <= |H|
    ensures r.Ok? ==> next[..|order|] == order && next[|next| - 1] == v
    ensures r.Ok? ==> r.value == Labels(sorted, next[|order|..])
    ensures g.Healthy() ==> r.Ok?
  {
    var res;
    res, next := PostorderDfs(g, v, marked, [], sorted, H, [], order);
    if res.Err? {
      return res, next;
    }
    assert [] + Labels(sorted, next[|order|..]) == Labels(sorted, next[|order|..]);
    var component, stack := Drain(res.value);
    MarkingSize(marked[..], [], next);
    return Ok(component), next;
  }

  /** `strongComponents[componentIndex] = component`. */
  method StoreComponent(strongComponents: array<seq<string>>, componentIndex: int, component: seq<string>)
    requires 0 <= componentIndex < strongComponents.Length
    modifies strongComponents
    ensures strongComponents[..componentIndex + 1] == old(strongComponents[..componentIndex]) + [component]
    ensures old(NoneEmpty(strongComponents[..componentIndex])) && component != [] ==>
              NoneEmpty(strongComponents[..componentIndex + 1])
    ensures Flatten(strongComponents[..componentIndex + 1]) == old(Flatten(strongComponents[..componentIndex])) + component
  {
    ghost var before := strongComponents[..componentIndex];
    strongComponents[componentIndex] := component;
    assert strongComponents[..componentIndex + 1] == before + [component];
    FlattenAppend(before, component);
  }

  /** Pops the whole stack into an array from its last slot to its first, so
      the component lists the labels in the order they were pushed. */
  method Drain(stack: seq<string>) returns (component: seq<string>, rest: seq<string>)
    ensures component == stack && rest == []
  {
    var slots := new string[|stack|];
    rest := stack;
    var i := |stack| - 1;
    while i >= 0
      invariant -1 <= i < |stack| && rest == stack[..i + 1]
      invariant forall j :: i < j < |stack| ==> slots[j] == stack[j]
    {
      slots[i] := rest[|rest| - 1];
      rest := rest[..|rest| - 1];
      i := i - 1;
    }
    component := slots[..];
  }

  /** Pops `count` labels off `stack`, whose top is its last element, into an
      array: the top comes first. */
  method PopAll(stack: seq<string>, count: nat) returns (popped: seq<string>, rest: seq<string>)
    requires count <= |stack|
    ensures popped == Reversed(stack)[..count] && rest == stack[..|stack| - count]
  {
    var sorted := new string[count];
    rest := stack;
    var i := 0;
    while i < count
      invariant 0 <= i <= count && rest == stack[..|stack| - i]
      invariant forall j :: 0 <= j < i ==> sorted[j] == stack[|stack| - 1 - j]
    {
      sorted[i] := rest[|rest| - 1];
      rest := rest[..|rest| - 1];
      i := i + 1;
    }
    popped := sorted[..];
  }

  /** Vertices stay marked while the finishing order grows. */
  lemma MarkingGrows(before: seq<bool>, after: seq<bool>, order: seq<int>, next: seq<int>, v: int)
    requires |before| == |after| && Marking(before, [], order) && Marking(after, [], next)
    requires |order| < |next| && next[..|order|] == order && next[|next| - 1] == v
    requires 0 <= v < |before| && forall i :: 0 <= i < v ==> before[i]
    ensures forall i :: 0 <= i <= v ==> after[i]
  {
    forall i | 0 <= i <= v ensures after[i] {
      if i < v {
        assert i in order;
        var k := IndexOf(order, i);
        assert next[k] == i;
      } else {
        assert next[|next| - 1] == i;
      }
    }
  }

  /** The labels of a finishing order grow with it. */
  lemma LabelsExtend(vertices: seq<string>, order: seq<int>, next: seq<int>)
    requires |order| <= |next| && next[..|order|] == order
    requires forall k :: 0 <= k < |next| ==> 0 <= next[k] < |vertices|
    ensures Labels(vertices, next) == Labels(vertices, order) + Labels(vertices, next[|order|..])
  {
    assert next == order + next[|order|..];
    LabelsAppend(vertices, order, next[|order|..]);
  }

  /** The popped stack of a complete finishing order lists every vertex once,
      and when that order is closed it is a topological order. */
  lemma SortedFacts(H: Adj, vertices: seq<string>, keys: set<string>, order: seq<int>, sorted: seq<string>)
    requires IsEnumeration(vertices, keys) && |H| == |vertices|
    requires Distinct(order) && |order| == |vertices|
    requires forall k :: 0 <= k < |order| ==> 0 <= order[k] < |vertices|
    requires forall i :: 0 <= i < |vertices| ==> i in order
    requires sorted == Reversed(Labels(vertices, order))[..|vertices|]
    ensures IsEnumeration(sorted, keys)
    ensures ClosedFrom(H, order, 0) ==>
              forall p, q :: 0 <= p < q < |sorted| ==>
                IndexOf(vertices, sorted[p]) !in H[IndexOf(vertices, sorted[q])]
  {
    var labels := Labels(vertices, order);
    assert sorted == Reversed(labels);
    LabelsEnumeration(vertices, keys, order);
    ReversedEnumeration(labels, keys);
    if ClosedFrom(H, order, 0) {
      SortedIndices(vertices, order, sorted);
      ReverseClosed(H, order);
    }
  }

  /** Position `p` of the popped stack holds the vertex that finished
      `p + 1`-th from the end. */
  lemma SortedIndices(vertices: seq<string>, order: seq<int>, sorted: seq<string>)
    requires Distinct(vertices) && |order| == |vertices|
    requires forall k :: 0 <= k < |order| ==> 0 <= order[k] < |vertices|
    requires sorted == Reversed(Labels(vertices, order))
    ensures forall p :: 0 <= p < |sorted| ==> IndexOf(vertices, sorted[p]) == order[|order| - 1 - p]
  {
    forall p | 0 <= p < |sorted| ensures IndexOf(vertices, sorted[p]) == order[|order| - 1 - p] {
      var i := order[|order| - 1 - p];
      assert sorted[p] == Labels(vertices, order)[|order| - 1 - p] == vertices[i];
      IndexOfDistinct(vertices, i);
    }
  }

  /** `isDirectedCycle` with the label array of `VerticesByIndex`: true
      exactly when the graph has a cycle. */
  method IsDirectedCycleByIndex(g: DirectedGraph) returns (r: Result<bool>)
    requires g.Valid()
    ensures r.Ok? ==> (r.value <==> HasCycle(g.Graph()))
    ensures g.Healthy() ==> r.Ok?
  {
    var vertices := g.VerticesByIndex();
    r := CycleSearch(g, vertices);
    ConsistentExplored(g.vertexIndices, g.adj[..], vertices);
  }

  /** `sortTopologically` with the label array of `VerticesByIndex`: every
      vertex once, and for a graph without a cycle every vertex before all
      vertices it has an edge to. */
  method SortTopologicallyByIndex(g: DirectedGraph) returns (r: Result<seq<string>>)
    requires g.Valid()
    ensures r.Ok? ==> IsEnumeration(r.value, g.vertexIndices.Keys)
    ensures r.Ok? && !HasCycle(g.Graph()) ==>
              forall p, q :: 0 <= p < q < |r.value| ==> r.value[p] !in g.BagOf(r.value[q])
    ensures g.Healthy() ==> r.Ok?
  {
    var vertices := g.VerticesByIndex();
    r := TopologicalOrder(g, vertices);
    if r.Ok? && !HasCycle(g.Graph()) {
      ConsistentExplored(g.vertexIndices, g.adj[..], vertices);
      ConsistentSorted(g.vertexIndices, g.names, g.adj[..], vertices, r.value);
    }
  }

  /** With the label array by index, an entry `b` in the bag of `a` is an
      edge of the explored graph between their positions. */
  lemma ConsistentEdge(vi: map<string, int>, names: seq<string>, bags: seq<Bag>, vertices: seq<string>,
                       a: string, b: string)
    requires Bijection(vi, names) && IndexConsistent(vi, vertices) && IsEnumeration(vertices, vi.Keys)
    requires a in vertices && b in BagAt(bags, vi, a) && b in vertices
    ensures IndexOf(vertices, b) in Explored(vi, bags, vertices)[IndexOf(vertices, a)]
  {
    var i, j := IndexOf(vertices, a), IndexOf(vertices, b);
    assert vi[a] == i && vi[b] == j;
    var bag := BagAt(bags, vi, a);
    var k := IndexOf(bag, b);
    assert Explored(vi, bags, vertices)[i] == Indices(vi, bag);
    assert Indices(vi, bag)[k] == j;
  }

  /** The searches index the key-order label array by insertion index.  With
      `b` inserted before `a` and the single edge `b -> a`, a `HashMap` lists
      the keys as `a, b` (their hash buckets are 1 and 2), and the graph
      explored with that order has a self-loop although the graph has no
      cycle: `isDirectedCycle` answers true. */
  lemma KeyOrderCounterexample()
    ensures var vi := map["b" := 0, "a" := 1];
            var bags: seq<Bag> := [["a"], []];
            IsEnumeration(["a", "b"], vi.Keys) &&
            HasCycle(Explored(vi, bags, ["a", "b"])) && !HasCycle(IndexGraph(vi, bags, 2))
  {
    var vi := map["b" := 0, "a" := 1];
    var bags: seq<Bag> := [["a"], []];
    var H := Explored(vi, bags, ["a", "b"]);
    assert H[1] == Indices(vi, ["a"]) == [1];
    assert IsCycle(H, [1, 1]);
    var G := IndexGraph(vi, bags, 2);
    assert G[0] == [1] && G[1] == [];
    assert ClosedFrom(G, [1, 0], 0) by {
      assert [1, 0][..1] == [1];
    }
    ClosedAcyclic(G, [1, 0]);
    assert ["a", "b"][0] == "a";
  }

  /** The same mismatch in `sortTopologically`: with `b` inserted before `a`
      and the single edge `a -> b`, the keys again iterate as `a, b`, and the
      graph explored with that order has a self-loop at position 0 although
      the graph has no cycle, so the explored order promises nothing about
      the edge `a -> b`. */
  lemma SortKeyOrderCounterexample()
    ensures var vi := map["b" := 0, "a" := 1];
            var bags: seq<Bag> := [[], ["b"]];
            IsEnumeration(["a", "b"], vi.Keys) &&
            HasCycle(Explored(vi, bags, ["a", "b"])) && !HasCycle(IndexGraph(vi, bags, 2))
  {
    var vi := map["b" := 0, "a" := 1];
    var bags: seq<Bag> := [[], ["b"]];
    var H := Explored(vi, bags, ["a", "b"]);
    assert H[0] == Indices(vi, ["b"]) == [0];
    assert IsCycle(H, [0, 0]);
    var G := IndexGraph(vi, bags, 2);
    assert G[0] == [] && G[1] == [0];
    assert ClosedFrom(G, [0, 1], 0) by {
      assert [0, 1][..1] == [0];
    }
    ClosedAcyclic(G, [0, 1]);
    assert ["a", "b"][0] == "a";
  }

  /** The stack grows with the finishing order. */
  lemma Advance(H: Adj, vertices: seq<string>, stack: seq<string>, order: seq<int>, cur: seq<int>, next: seq<int>)
    requires |order| <= |cur| <= |next| && cur[..|order|] == order && next[..|cur|] == cur
    requires forall k :: 0 <= k < |next| ==> 0 <= next[k] < |vertices|
    ensures next[..|order|] == order
    ensures stack + Labels(vertices, cur[|order|..]) + Labels(vertices, next[|cur|..]) ==
            stack + Labels(vertices, next[|order|..])
  {
    assert next[|order|..] == cur[|order|..] + next[|cur|..];
    LabelsAppend(vertices, cur[|order|..], next[|cur|..]);
  }

  /** The successors searched so far stay finished as the order grows. */
  lemma CoveredExtend(succ: seq<int>, k: int, cur: seq<int>, next: seq<int>)
    requires 0 <= k < |succ| && |cur| <= |next| && next[..|cur|] == cur
    requires forall j :: 0 <= j < k ==> succ[j] in cur
    requires succ[k] in next
    ensures forall j :: 0 <= j < k + 1 ==> succ[j] in next
  {
    forall j | 0 <= j < k + 1 ensures succ[j] in next {
      if j < k {
        var i := IndexOf(cur, succ[j]);
        assert next[i] == cur[i];
      }
    }
  }
}
