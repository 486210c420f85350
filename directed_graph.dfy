/** A mutable directed graph whose vertices are labelled by strings.  Labels
    map to dense indices; index `i` owns the `Bag` of labels that vertex `i`
    has an edge to. */
module DirectedGraphs {
  import opened Outcomes
  import opened Sequences
  import opened Bags
  import opened IndexGraphs

  /** The indices of the labels in `bag`; a label that is no vertex gets -1. */
  function Indices(vi: map<string, int>, bag: Bag): (r: seq<int>)
    ensures |r| == |bag|
    ensures forall k :: 0 <= k < |bag| ==> r[k] == if bag[k] in vi then vi[bag[k]] else -1
  {
    seq(|bag|, k requires 0 <= k < |bag| => if bag[k] in vi then vi[bag[k]] else -1)
  }

  /** The bag stored at the index of `u`; none when `u` is unknown or its index
      lies outside the array. */
  function BagAt(bags: seq<Bag>, vi: map<string, int>, u: string): Bag {
    if u in vi && 0 <= vi[u] < |bags| then bags[vi[u]] else []
  }

  /** The graph on indices that a search explores when, at index `i`, it reads
      the bag of the label `vertices[i]` and moves on to the indices of the
      labels in it. */
  ghost function Explored(vi: map<string, int>, bags: seq<Bag>, vertices: seq<string>): (H: Adj)
    ensures |H| == |vertices|
  {
    seq(|vertices|, i requires 0 <= i < |vertices| => Indices(vi, BagAt(bags, vi, vertices[i])))
  }

  /** The graph itself on indices: an edge from `i` to the index of every label
      in bag `i`. */
  ghost function IndexGraph(vi: map<string, int>, bags: seq<Bag>, n: nat): (H: Adj)
    ensures |H| == n
  {
    seq(n, i requires 0 <= i < n => Indices(vi, if i < |bags| then bags[i] else []))
  }

  /** `vertices[i]` is the label whose index is `i`. */
  ghost predicate IndexConsistent(vi: map<string, int>, vertices: seq<string>) {
    forall i :: 0 <= i < |vertices| ==> vertices[i] in vi && vi[vertices[i]] == i
  }

  /** When the enumeration agrees with the indices, a search explores the graph itself. */
  lemma ConsistentExplored(vi: map<string, int>, bags: seq<Bag>, vertices: seq<string>)
    requires IndexConsistent(vi, vertices)
    ensures Explored(vi, bags, vertices) == IndexGraph(vi, bags, |vertices|)
  {
  }

  /** `names` lists the keys of `vi` by index. */
  ghost predicate Bijection(vi: map<string, int>, names: seq<string>) {
    |names| == |vi| &&
    (forall i :: 0 <= i < |names| ==> names[i] in vi && vi[names[i]] == i) &&
    (forall x :: x in vi ==> 0 <= vi[x] < |names| && names[vi[x]] == x)
  }

  /** The keys of a bijection are the labels it lists. */
  lemma BijectionKeys(vi: map<string, int>, names: seq<string>)
    requires Bijection(vi, names)
    ensures forall x :: x in vi <==> x in names
  {
    forall x | x in names ensures x in vi {
      var i :| 0 <= i < |names| && names[i] == x;
    }
  }

  /** The bag in slot `i`: a slot without a vertex is empty; a bag holds only
      vertices other than its owner, and never the empty label, and a vertex
      with an edge is not the empty label. */
  ghost predicate SlotOk(bag: Bag, i: int, vi: map<string, int>, names: seq<string>) {
    if 0 <= i < |names| then
      (bag != [] ==> names[i] != "") &&
      forall k :: 0 <= k < |bag| ==> bag[k] in vi && bag[k] != "" && bag[k] != names[i]
    else
      bag == []
  }

  /** Every slot is as `SlotOk` describes. */
  ghost predicate BagsWellFormed(bags: seq<Bag>, vi: map<string, int>, names: seq<string>) {
    forall i :: 0 <= i < |bags| ==> SlotOk(bags[i], i, vi, names)
  }

  /** Inserting a vertex with the next index, and any number of empty slots,
      keeps both invariants. */
  lemma InsertKeepsInvariant(bags: seq<Bag>, pad: seq<Bag>, vi: map<string, int>, names: seq<string>, x: string)
    requires Bijection(vi, names) && BagsWellFormed(bags, vi, names)
    requires x !in vi
    requires forall i :: 0 <= i < |pad| ==> pad[i] == []
    ensures Bijection(vi[x := |names|], names + [x])
    ensures BagsWellFormed(bags + pad, vi[x := |names|], names + [x])
  {
    var vi', names' := vi[x := |names|], names + [x];
    assert |vi'| == |vi| + 1;
    forall i | 0 <= i < |names'| ensures names'[i] in vi' && vi'[names'[i]] == i {
      if i < |names| {
        assert names'[i] == names[i] && names[i] in vi;
      }
    }
    forall y | y in vi' ensures 0 <= vi'[y] < |names'| && names'[vi'[y]] == y {
      if y != x {
        assert y in vi;
      }
    }
    var all := bags + pad;
    forall i | 0 <= i < |all| ensures SlotOk(all[i], i, vi', names') {
      if i < |bags| {
        assert all[i] == bags[i] && SlotOk(bags[i], i, vi, names);
        if i < |names| {
          assert names'[i] == names[i];
        }
      } else {
        assert all[i] == pad[i - |bags|];
      }
    }
  }

  /** Adding an entry that is a vertex other than the owner keeps the bags
      well formed. */
  lemma AddKeepsInvariant(bags: seq<Bag>, vi: map<string, int>, names: seq<string>, i: int, w: string)
    requires Bijection(vi, names) && BagsWellFormed(bags, vi, names)
    requires 0 <= i < |names| && i < |bags| && names[i] != ""
    requires w in vi && w != "" && w != names[i]
    ensures BagsWellFormed(bags[i := Add(bags[i], w)], vi, names)
  {
    var bags' := bags[i := Add(bags[i], w)];
    forall j | 0 <= j < |bags'| ensures SlotOk(bags'[j], j, vi, names) {
      assert SlotOk(bags[j], j, vi, names);
      if j == i {
        var b := Add(bags[i], w);
        forall k | 0 <= k < |b| ensures b[k] in vi && b[k] != "" && b[k] != names[i] {
          if k > 0 {
            assert b[k] == bags[i][k - 1];
          }
        }
      } else {
        assert bags'[j] == bags[j];
      }
    }
  }

  /** Unlinking an entry keeps the bags well formed. */
  lemma RemoveKeepsInvariant(bags: seq<Bag>, vi: map<string, int>, names: seq<string>, i: int, k: int)
    requires BagsWellFormed(bags, vi, names)
    requires 0 <= i < |bags| && 0 <= k < |bags[i]|
    ensures BagsWellFormed(bags[i := Remove(bags[i], k)], vi, names)
  {
    var bags' := bags[i := Remove(bags[i], k)];
    forall j | 0 <= j < |bags'| ensures SlotOk(bags'[j], j, vi, names) {
      assert SlotOk(bags[j], j, vi, names);
      if j == i {
        var b := Remove(bags[i], k);
        forall m | 0 <= m < |b| ensures b[m] in vi && b[m] != "" && b[m] != names[i] {
          assert b[m] == if m < k then bags[i][m] else bags[i][m + 1];
        }
      } else {
        assert bags'[j] == bags[j];
      }
    }
  }

  /** A graph without vertices has nothing a search could fail on. */
  lemma EmptyHealthy(g: DirectedGraph)
    requires g.Valid() && |g.vertexIndices| == 0
    ensures g.Healthy()
  {
    forall i | 0 <= i < g.adj.Length ensures |g.adj[i]| <= |g.vertexIndices| {
      assert SlotOk(g.adj[..][i], i, g.vertexIndices, g.names);
    }
  }

  /** The indices of an enumeration of the vertices are `0 .. n - 1`, each once. */
  lemma EnumerationIndices(vi: map<string, int>, names: seq<string>, keys: seq<string>)
    requires Bijection(vi, names) && IsEnumeration(keys, vi.Keys)
    ensures |Indices(vi, keys)| == |names| && Distinct(Indices(vi, keys))
    ensures forall x :: x in Indices(vi, keys) <==> x in Range(|names|)
  {
    var n := |names|;
    var ids := Indices(vi, keys);
    forall i, j | 0 <= i < j < |ids| ensures ids[i] != ids[j] {
      assert keys[i] in keys && keys[j] in keys;
    }
    forall x ensures x in ids <==> x in Range(n) {
      if x in ids {
        var k :| 0 <= k < |ids| && ids[k] == x;
        assert keys[k] in keys;
        assert Range(n)[x] == x;
      }
      if x in Range(n) {
        var i :| 0 <= i < n && Range(n)[i] == x;
        assert names[i] in vi;
        var k :| 0 <= k < |keys| && keys[k] == names[i];
        assert ids[k] == x;
      }
    }
  }

  /** Summing the bag sizes over an enumeration of the vertices counts every
      entry of every bag once. */
  lemma EnumerationTotal(bags: seq<Bag>, vi: map<string, int>, names: seq<string>, keys: seq<string>)
    requires Bijection(vi, names) && BagsWellFormed(bags, vi, names) && |names| <= |bags|
    requires IsEnumeration(keys, vi.Keys)
    ensures SumAt(bags, Indices(vi, keys)) == Total(bags)
  {
    var n := |names|;
    EnumerationIndices(vi, names, keys);
    SumAtSameElements(bags, Indices(vi, keys), Range(n));
    SumAtRange(bags, n);
    var rest := bags[n..];
    assert bags == bags[..n] + rest;
    forall i | 0 <= i < |rest| ensures rest[i] == [] {
      assert SlotOk(bags[n + i], n + i, vi, names);
    }
    TotalAppend(bags[..n], rest);
    TotalZero(rest);
  }

  /** How often `y` occurs in the bag of `x`. */
  function Count(bags: seq<Bag>, vi: map<string, int>, x: string, y: string): nat
  {
    multiset(BagAt(bags, vi, x))[y]
  }

  /** The reversed graph `(rvi, rbags)` holds, from `x` to `y`, as many edges
      as `(vi, bags)` holds from `y` to `x` for the vertices `y` in `done`, plus
      one for every `x` in `part` when `y` is `extra`. */
  ghost predicate ReversedCounts(rvi: map<string, int>, rbags: seq<Bag>, vi: map<string, int>, bags: seq<Bag>,
                                 done: seq<string>, extra: string, part: Bag)
  {
    forall x, y {:trigger Count(rbags, rvi, x, y)} :: x in vi && y in vi ==>
      Count(rbags, rvi, x, y) ==
        (if y in done then Count(bags, vi, y, x) else 0) +
        (if y == extra then multiset(part)[x] else 0)
  }

  /** A reversed graph without edges accounts for no vertex yet. */
  lemma ReversedEmpty(rvi: map<string, int>, rbags: seq<Bag>, vi: map<string, int>, bags: seq<Bag>)
    requires forall i :: 0 <= i < |rbags| ==> rbags[i] == []
    ensures ReversedCounts(rvi, rbags, vi, bags, [], "", [])
  {
    forall x, y | x in vi && y in vi
      ensures Count(rbags, rvi, x, y) == (if y in [] then Count(bags, vi, y, x) else 0) + (if y == "" then multiset([])[x] else 0)
    {
      assert BagAt(rbags, rvi, x) == [];
    }
  }

  /** One pair of vertices after adding the reversed edge `a -> extra`. */
  lemma ReversedPair(rvi: map<string, int>, rbags: seq<Bag>, rbags': seq<Bag>, extra: string, part: Bag,
                     a: string, x: string, y: string, before: nat)
    requires a in rvi && 0 <= rvi[a] < |rbags| && rbags' == rbags[rvi[a] := Add(rbags[rvi[a]], extra)]
    requires forall z :: z in rvi && z != a ==> rvi[z] != rvi[a]
    requires Count(rbags, rvi, x, y) == before + (if y == extra then multiset(part)[x] else 0)
    ensures Count(rbags', rvi, x, y) == before + (if y == extra then multiset(part + [a])[x] else 0)
  {
    assert multiset(part + [a]) == multiset(part) + multiset{a};
    if x == a {
      assert BagAt(rbags', rvi, x) == [extra] + BagAt(rbags, rvi, x);
      assert multiset(BagAt(rbags', rvi, x)) == multiset{extra} + multiset(BagAt(rbags, rvi, x));
    } else {
      assert BagAt(rbags', rvi, x) == BagAt(rbags, rvi, x);
    }
  }

  /** Adding the reversed edge `a -> extra` accounts for one more entry `a`. */
  lemma ReversedStep(rvi: map<string, int>, rnames: seq<string>, rbags: seq<Bag>, vi: map<string, int>,
                     bags: seq<Bag>, done: seq<string>, extra: string, part: Bag, a: string)
    requires ReversedCounts(rvi, rbags, vi, bags, done, extra, part)
    requires Bijection(rvi, rnames) && a in rvi && rvi[a] < |rbags|
    ensures ReversedCounts(rvi, rbags[rvi[a] := Add(rbags[rvi[a]], extra)], vi, bags, done, extra, part + [a])
  {
    var rbags' := rbags[rvi[a] := Add(rbags[rvi[a]], extra)];
    forall z | z in rvi && z != a ensures rvi[z] != rvi[a] {
      assert rnames[rvi[z]] == z;
    }
    forall x, y | x in vi && y in vi
      ensures Count(rbags', rvi, x, y) ==
        (if y in done then Count(bags, vi, y, x) else 0) +
        (if y == extra then multiset(part + [a])[x] else 0)
    {
      ReversedPair(rvi, rbags, rbags', extra, part, a, x, y,
                   if y in done then Count(bags, vi, y, x) else 0);
    }
  }

  /** Starting on the bag of `extra`, none of its entries is accounted for yet. */
  lemma ReversedStart(rvi: map<string, int>, rbags: seq<Bag>, vi: map<string, int>, bags: seq<Bag>,
                      done: seq<string>, extra: string)
    requires ReversedCounts(rvi, rbags, vi, bags, done, "", [])
    ensures ReversedCounts(rvi, rbags, vi, bags, done, extra, [])
  {
    forall x, y | x in vi && y in vi
      ensures Count(rbags, rvi, x, y) ==
        (if y in done then Count(bags, vi, y, x) else 0) + (if y == extra then multiset([])[x] else 0)
    {
      assert multiset([])[x] == 0;
    }
  }

  /** Finishing the bag of `extra` moves it to the vertices done. */
  lemma ReversedNext(rvi: map<string, int>, rbags: seq<Bag>, vi: map<string, int>, bags: seq<Bag>,
                     done: seq<string>, extra: string)
    requires extra in vi && extra !in done
    requires ReversedCounts(rvi, rbags, vi, bags, done, extra, BagAt(bags, vi, extra))
    ensures ReversedCounts(rvi, rbags, vi, bags, done + [extra], "", [])
  {
    forall x, y | x in vi && y in vi
      ensures Count(rbags, rvi, x, y) ==
        (if y in done + [extra] then Count(bags, vi, y, x) else 0) + (if y == "" then multiset([])[x] else 0)
    {
      assert y in done + [extra] <==> y in done || y == extra;
    }
  }

  /** What the invariant says about the entries of one bag. */
  lemma BagEntries(bags: seq<Bag>, vi: map<string, int>, names: seq<string>, i: int)
    requires BagsWellFormed(bags, vi, names) && 0 <= i < |bags|
    ensures forall k :: 0 <= k < |bags[i]| ==>
              i < |names| && names[i] != "" && bags[i][k] in vi && bags[i][k] != "" && bags[i][k] != names[i]
  {
    assert SlotOk(bags[i], i, vi, names);
  }

  /** Summing over one more vertex adds the size of its bag. */
  lemma SumAtNext(bags: seq<Bag>, vi: map<string, int>, keys: seq<string>, v: string)
    requires v in vi && 0 <= vi[v] < |bags|
    ensures SumAt(bags, Indices(vi, keys + [v])) == SumAt(bags, Indices(vi, keys)) + |BagAt(bags, vi, v)|
  {
    var ids := Indices(vi, keys + [v]);
    assert ids[..|ids| - 1] == Indices(vi, keys);
    assert ids[|ids| - 1] == vi[v];
  }

  /** Once every vertex is done, the reversed graph holds every edge turned around. */
  lemma ReversedAll(rvi: map<string, int>, rbags: seq<Bag>, vi: map<string, int>, bags: seq<Bag>, keys: seq<string>)
    requires ReversedCounts(rvi, rbags, vi, bags, keys, "", [])
    requires forall x :: x in vi ==> x in keys
    ensures forall u, w :: u in vi && w in vi ==>
              multiset(BagAt(rbags, rvi, u))[w] == multiset(BagAt(bags, vi, w))[u]
  {
    forall u, w | u in vi && w in vi
      ensures multiset(BagAt(rbags, rvi, u))[w] == multiset(BagAt(bags, vi, w))[u]
    {
      assert Count(rbags, rvi, u, w) == Count(bags, vi, w, u);
    }
  }

  class DirectedGraph {
    var initialVertexCount: int
    var edgeCount: int
    var adj: array<Bag>
    var vertexIndices: map<string, int>
    /** `names[i]` is the label whose index is `i`. */
    ghost var names: seq<string>

    /** The invariant of every reachable state.  `initialVertexCount` is never
        updated, so the array has 20 slots until the 21st vertex and 40 after;
        from the 41st vertex on, the map holds indices the array has no slot for.
        The map is a bijection onto `0 .. size - 1`; bags hold only vertices
        other than their owner, and never the empty label. */
    ghost predicate Valid()
      reads this, adj
    {
      initialVertexCount == 20 &&
      adj.Length == (if |vertexIndices| <= initialVertexCount then initialVertexCount else 2 * initialVertexCount) &&
      |names| == |vertexIndices| &&
      Bijection(vertexIndices, names) &&
      BagsWellFormed(adj[..], vertexIndices, names)
    }

    /** What the searches need to run without an exception: every vertex has a
        slot, no vertex is the empty label (getAdjacencyList refuses it), and
        no bag is longer than the number of vertices (getAdjacencyList copies a
        bag into an array of that length). */
    ghost predicate Healthy()
      reads this, adj
    {
      |vertexIndices| <= adj.Length && "" !in vertexIndices &&
      forall i :: 0 <= i < adj.Length ==> |adj[i]| <= |vertexIndices|
    }

    /** `edgeCount` is the number of entries over all bags. */
    ghost predicate CountsAgree()
      reads this, adj
    {
      edgeCount == Total(adj[..])
    }

    /** The bag of vertex `u`. */
    ghost function BagOf(u: string): Bag
      reads this, adj
    {
      BagAt(adj[..], vertexIndices, u)
    }

    /** The graph on indices. */
    ghost function Graph(): Adj
      reads this, adj
    {
      IndexGraph(vertexIndices, adj[..], |vertexIndices|)
    }

    /** An empty graph with room for 20 vertices. */
    constructor ()
      ensures Valid() && CountsAgree()
      ensures vertexIndices == map[] && edgeCount == 0 && fresh(adj)
    {
      initialVertexCount := 20;
      edgeCount := 0;
      vertexIndices := map[];
      names := [];
      adj := new Bag[20](_ => []);
      new;
      TotalZero(adj[..]);
    }

    /** Inserts a vertex with the next index. */
    method AddVertex(name: Option<string>) returns (r: Outcome)
      requires Valid()
      modifies this, adj
      ensures Valid()
      ensures r == (if name.None? then Fail(IllegalName)
                    else if name.value in old(vertexIndices) then Fail(DuplicateVertex)
                    else if |old(vertexIndices)| >= 2 * initialVertexCount then Fail(IndexOutOfBounds)
                    else Pass)
      ensures initialVertexCount == old(initialVertexCount) && edgeCount == old(edgeCount)
      ensures r == Fail(IllegalName) || r == Fail(DuplicateVertex) ==>
        vertexIndices == old(vertexIndices) && names == old(names) && adj == old(adj) && adj[..] == old(adj[..])
      ensures r == Pass || r == Fail(IndexOutOfBounds) ==>
        vertexIndices == old(vertexIndices)[name.value := |old(vertexIndices)|] && names == old(names) + [name.value]
      ensures adj == old(adj) || fresh(adj)
      ensures adj.Length == if r == Pass && |old(vertexIndices)| == initialVertexCount
                            then 2 * initialVertexCount else old(adj.Length)
      ensures adj[..] == old(adj[..]) + Empties(adj.Length - old(adj.Length))
      ensures Total(adj[..]) == old(Total(adj[..]))
      ensures old(CountsAgree()) ==> CountsAgree()
    {
      if name.None? {
        return Fail(IllegalName);
      }
      if name.value in vertexIndices {
        return Fail(DuplicateVertex);
      }
      if |vertexIndices| == initialVertexCount {
        ResizeArray();
      }
      var index := |vertexIndices|;
      ghost var pad := Empties(adj.Length - old(adj.Length));
      assert adj[..] == old(adj[..]) + pad;
      InsertKeepsInvariant(old(adj[..]), pad, vertexIndices, names, name.value);
      TotalAppend(old(adj[..]), pad);
      TotalZero(pad);
      vertexIndices := vertexIndices[name.value := index];
      names := names + [name.value];
      if index >= adj.Length {
        return Fail(IndexOutOfBounds);
      }
      ghost var before := adj[..];
      assert adj[index] == [];
      adj[index] := [];
      assert adj[..] == before;
      return Pass;
    }

    /** Doubles `initialVertexCount` into a new array, copying the bags; the
        doubled value is not stored back. */
    method ResizeArray()
      requires Valid()
      modifies this
      ensures initialVertexCount == old(initialVertexCount) && edgeCount == old(edgeCount)
      ensures vertexIndices == old(vertexIndices) && names == old(names)
      ensures fresh(adj) && adj.Length == 2 * initialVertexCount
      ensures adj[..] == old(adj[..]) + Empties(2 * initialVertexCount - old(adj.Length))
    {
      var newSize := initialVertexCount * 2;
      var newAdj := new Bag[newSize](_ => []);
      forall i | 0 <= i < adj.Length {
        newAdj[i] := adj[i];
      }
      adj := newAdj;
    }

    /** Adds an edge from `vertex1` to `vertex2` at the head of `vertex1`'s bag. */
    method AddEdge(vertex1: Option<string>, vertex2: Option<string>) returns (r: Outcome)
      requires Valid()
      modifies this`edgeCount, adj
      ensures Valid()
      ensures r == (if vertex1.None? || vertex2.None? || vertex1.value == "" || vertex2.value == "" then Fail(IllegalName)
                    else if vertex1.value == vertex2.value then Fail(SelfLoop)
                    else if vertex1.value !in vertexIndices || vertex2.value !in vertexIndices then Fail(UnknownVertex)
                    else if vertexIndices[vertex1.value] >= adj.Length then Fail(IndexOutOfBounds)
                    else Pass)
      ensures r.Pass? ==>
        adj[..] == old(adj[..])[vertexIndices[vertex1.value] := Add(old(adj[vertexIndices[vertex1.value]]), vertex2.value)] &&
        edgeCount == old(edgeCount) + 1
      ensures r.Fail? ==> adj[..] == old(adj[..]) && edgeCount == old(edgeCount)
      ensures old(CountsAgree()) ==> CountsAgree()
    {
      if vertex1.None? || vertex2.None? || vertex1.value == "" || vertex2.value == "" {
        return Fail(IllegalName);
      }
      if vertex1.value == vertex2.value {
        return Fail(SelfLoop);
      }
      if vertex1.value !in vertexIndices || vertex2.value !in vertexIndices {
        return Fail(UnknownVertex);
      }
      var indexOfVertex1 := vertexIndices[vertex1.value];
      if indexOfVertex1 >= adj.Length {
        return Fail(IndexOutOfBounds);
      }
      TotalUpdate(adj[..], indexOfVertex1, Add(adj[indexOfVertex1], vertex2.value));
      AddKeepsInvariant(adj[..], vertexIndices, names, indexOfVertex1, vertex2.value);
      adj[indexOfVertex1] := Add(adj[indexOfVertex1], vertex2.value);
      edgeCount := edgeCount + 1;
      return Pass;
    }

    /** Searches `vertex1`'s bag for `vertex2`.  On a hit it decrements
        `edgeCount` and reports success, but the iterator's `remove` has an
        empty body, so the bag keeps the entry. */
    method DeleteEdge(vertex1: Option<string>, vertex2: Option<string>) returns (r: Result<bool>)
      requires Valid()
      modifies this`edgeCount
      ensures r == (if vertex1.None? || vertex1.value == "" || vertex2.None? || vertex2.value == "" then Err(IllegalName)
                    else if vertex1.value !in vertexIndices || vertex2.value !in vertexIndices then Err(UnknownVertex)
                    else if vertexIndices[vertex1.value] >= adj.Length then Err(IndexOutOfBounds)
                    else Ok(vertex2.value in adj[vertexIndices[vertex1.value]]))
      ensures Valid()
      ensures edgeCount == old(edgeCount) - if r == Ok(true) then 1 else 0
      ensures r == Ok(true) && old(CountsAgree()) ==> !CountsAgree()
    {
      if vertex1.None? || vertex1.value == "" || vertex2.None? || vertex2.value == "" {
        return Err(IllegalName);
      }
      if vertex1.value !in vertexIndices || vertex2.value !in vertexIndices {
        return Err(UnknownVertex);
      }
      var indexOfVertex1 := vertexIndices[vertex1.value];
      if indexOfVertex1 >= adj.Length {
        return Err(IndexOutOfBounds);
      }
      var bag := adj[indexOfVertex1];
      var k := 0;
      while k < |bag|
        invariant 0 <= k <= |bag|
        invariant vertex2.value !in bag[..k]
      {
        if bag[k] == vertex2.value {
          edgeCount := edgeCount - 1;
          return Ok(true);
        }
        k := k + 1;
      }
      assert bag[..k] == bag;
      return Ok(false);
    }

    /** The deletion `deleteEdge` evidently intends: the first entry of
        `vertex1`'s bag equal to `vertex2` is unlinked, so the count of edges
        stays the number of entries. */
    method RemoveEdge(vertex1: Option<string>, vertex2: Option<string>) returns (r: Result<bool>)
      requires Valid()
      modifies this`edgeCount, adj
      ensures Valid()
      ensures r == (if vertex1.None? || vertex1.value == "" || vertex2.None? || vertex2.value == "" then Err(IllegalName)
                    else if vertex1.value !in vertexIndices || vertex2.value !in vertexIndices then Err(UnknownVertex)
                    else if vertexIndices[vertex1.value] >= adj.Length then Err(IndexOutOfBounds)
                    else Ok(vertex2.value in old(adj[vertexIndices[vertex1.value]])))
      ensures r == Ok(true) ==>
        adj[..] == old(adj[..])[vertexIndices[vertex1.value] :=
          Remove(old(adj[vertexIndices[vertex1.value]]), IndexOf(old(adj[vertexIndices[vertex1.value]]), vertex2.value))] &&
        edgeCount == old(edgeCount) - 1
      ensures r != Ok(true) ==> adj[..] == old(adj[..]) && edgeCount == old(edgeCount)
      ensures old(CountsAgree()) ==> CountsAgree()
    {
      if vertex1.None? || vertex1.value == "" || vertex2.None? || vertex2.value == "" {
        return Err(IllegalName);
      }
      if vertex1.value !in vertexIndices || vertex2.value !in vertexIndices {
        return Err(UnknownVertex);
      }
      var indexOfVertex1 := vertexIndices[vertex1.value];
      if indexOfVertex1 >= adj.Length {
        return Err(IndexOutOfBounds);
      }
      var bag := adj[indexOfVertex1];
      var k := 0;
      while k < |bag|
        invariant 0 <= k <= |bag|
        invariant vertex2.value !in bag[..k]
      {
        if bag[k] == vertex2.value {
          assert IndexOf(bag, vertex2.value) == k;
          TotalUpdate(adj[..], indexOfVertex1, Remove(bag, k));
          RemoveKeepsInvariant(adj[..], vertexIndices, names, indexOfVertex1, k);
          adj[indexOfVertex1] := Remove(bag, k);
          edgeCount := edgeCount - 1;
          return Ok(true);
        }
        k := k + 1;
      }
      assert bag[..k] == bag;
      return Ok(false);
    }

    /** The number of vertices: in a valid graph, one more than the largest
        index, so every vertex index is a position of an array of this size. */
    function Size(): (r: nat)
      reads this, adj
      ensures Valid() ==> r == |names| && forall x :: x in vertexIndices ==> vertexIndices[x] < r
    {
      |vertexIndices|
    }

    /** Whether `vertex` is a vertex; a null or empty label is refused. */
    function IsValidVertex(vertex: Option<string>): (r: Result<bool>)
      reads this
      ensures r.Err? <==> vertex.None? || vertex.value == ""
      ensures r.Err? ==> r.error == IllegalName
      ensures r.Ok? ==> (r.value <==> vertex.value in vertexIndices)
    {
      if vertex.None? || vertex.value == "" then Err(IllegalName)
      else Ok(vertex.value in vertexIndices)
    }

    /** The labels `vertex` has an edge to, most recently added first, copied
        through an array of length `size()`. */
    method GetAdjacencyList(vertex: Option<string>) returns (r: Result<seq<string>>)
      requires Valid()
      ensures r == (if vertex.None? || vertex.value == "" then Err(IllegalName)
                    else if vertex.value !in vertexIndices then Err(UnknownVertex)
                    else if vertexIndices[vertex.value] >= adj.Length then Err(IndexOutOfBounds)
                    else if |adj[vertexIndices[vertex.value]]| > |vertexIndices| then Err(IndexOutOfBounds)
                    else Ok(adj[vertexIndices[vertex.value]]))
    {
      if vertex.None? || vertex.value == "" {
        return Err(IllegalName);
      }
      if vertex.value !in vertexIndices {
        return Err(UnknownVertex);
      }
      var indexOfVertex := vertexIndices[vertex.value];
      if indexOfVertex >= adj.Length {
        return Err(IndexOutOfBounds);
      }
      var adjacencyList := adj[indexOfVertex];
      var adjList := new string[|vertexIndices|];
      var i := 0;
      while i < |adjacencyList|
        invariant 0 <= i <= |adjacencyList| && i <= adjList.Length
        invariant adjList[..i] == adjacencyList[..i]
      {
        if i >= adjList.Length {
          return Err(IndexOutOfBounds);
        }
        adjList[i] := adjacencyList[i];
        i := i + 1;
      }
      assert adjacencyList[..i] == adjacencyList;
      r := Ok(adjList[..i]);
    }

    /** A new graph with the same vertices and every edge turned around: the
        vertices are inserted in key order, then for every vertex (again in key
        order) and every entry of its bag the reversed edge is added. */
    method MakeReverseGraph() returns (r: Result<DirectedGraph>)
      requires Valid()
      ensures r.Err? <==> |vertexIndices| > 2 * initialVertexCount
      ensures r.Err? ==> r.error == IndexOutOfBounds
      ensures r.Ok? ==> fresh(r.value) && fresh(r.value.adj)
      ensures r.Ok? ==> r.value.Valid() && r.value.CountsAgree()
      ensures r.Ok? ==> r.value.vertexIndices.Keys == vertexIndices.Keys
      ensures r.Ok? ==> forall u, w :: u in vertexIndices && w in vertexIndices ==>
                multiset(r.value.BagOf(u))[w] == multiset(BagOf(w))[u]
      ensures r.Ok? ==> r.value.edgeCount == Total(adj[..])
    {
      var reverse := new DirectedGraph();
      var keys := GetVertices();
      var inserted := reverse.InsertAll(keys, vertexIndices.Keys);
      if inserted.Fail? {
        return Err(inserted.error);
      }
      TotalZero(reverse.adj[..]);
      ReversedEmpty(reverse.vertexIndices, reverse.adj[..], vertexIndices, adj[..]);
      AddReversedBags(reverse, keys, vertexIndices, adj[..], names);
      ReversedAll(reverse.vertexIndices, reverse.adj[..], vertexIndices, adj[..], keys);
      EnumerationTotal(adj[..], vertexIndices, names, keys);
      return Ok(reverse);
    }

    /** Adds to `reverse`, for every label of `keys` in order, the reversed
        edges of its bag in `bags`. */
    static method AddReversedBags(reverse: DirectedGraph, keys: seq<string>,
                                  vi: map<string, int>, bags: seq<Bag>, ghost names: seq<string>)
      requires Bijection(vi, names) && BagsWellFormed(bags, vi, names) && |names| <= |bags|
      requires reverse.Valid() && reverse.CountsAgree() && |reverse.vertexIndices| <= 2 * reverse.initialVertexCount
      requires reverse.vertexIndices.Keys == vi.Keys && reverse.edgeCount == 0
      requires IsEnumeration(keys, vi.Keys)
      requires ReversedCounts(reverse.vertexIndices, reverse.adj[..], vi, bags, [], "", [])
      modifies reverse`edgeCount, reverse.adj
      ensures reverse.Valid() && reverse.CountsAgree()
      ensures reverse.vertexIndices == old(reverse.vertexIndices)
      ensures ReversedCounts(reverse.vertexIndices, reverse.adj[..], vi, bags, keys, "", [])
      ensures reverse.edgeCount == SumAt(bags, Indices(vi, keys))
    {
      assert Indices(vi, keys[..0]) == [];
      var j := 0;
      while j < |keys|
        invariant 0 <= j <= |keys|
        invariant reverse.Valid() && reverse.CountsAgree()
        invariant reverse.vertexIndices == old(reverse.vertexIndices)
        invariant reverse.edgeCount == SumAt(bags, Indices(vi, keys[..j]))
        invariant ReversedCounts(reverse.vertexIndices, reverse.adj[..], vi, bags, keys[..j], "", [])
      {
        AddReversedBagAt(reverse, keys, j, vi, bags, names);
        j := j + 1;
      }
      assert keys[..j] == keys;
    }

    /** One step of `AddReversedBags`: the reversed edges of the bag of `keys[j]`. */
    static method AddReversedBagAt(reverse: DirectedGraph, keys: seq<string>, j: nat,
                                   vi: map<string, int>, bags: seq<Bag>, ghost names: seq<string>)
      requires Bijection(vi, names) && BagsWellFormed(bags, vi, names) && |names| <= |bags|
      requires reverse.Valid() && reverse.CountsAgree() && |reverse.vertexIndices| <= 2 * reverse.initialVertexCount
      requires reverse.vertexIndices.Keys == vi.Keys
      requires IsEnumeration(keys, vi.Keys) && j < |keys|
      requires ReversedCounts(reverse.vertexIndices, reverse.adj[..], vi, bags, keys[..j], "", [])
      modifies reverse`edgeCount, reverse.adj
      ensures reverse.Valid() && reverse.CountsAgree()
      ensures reverse.vertexIndices == old(reverse.vertexIndices)
      ensures ReversedCounts(reverse.vertexIndices, reverse.adj[..], vi, bags, keys[..j + 1], "", [])
      ensures reverse.edgeCount - old(reverse.edgeCount) ==
              SumAt(bags, Indices(vi, keys[..j + 1])) - SumAt(bags, Indices(vi, keys[..j]))
    {
      var vertex := keys[j];
      assert vertex in vi && vertex !in keys[..j];
      var indexOfVertex := vi[vertex];
      assert indexOfVertex < |names| <= |bags|;
      var bag := bags[indexOfVertex];
      BagEntries(bags, vi, names, indexOfVertex);
      AddReversedBag(reverse, vertex, bag, vi, bags, keys[..j]);
      assert keys[..j + 1] == keys[..j] + [vertex];
      SumAtNext(bags, vi, keys[..j], vertex);
    }

    /** Inserts `keys[j]` after the labels before it. */
    method InsertKey(keys: seq<string>, j: nat) returns (r: Outcome)
      requires Valid() && CountsAgree() && edgeCount == 0
      requires Distinct(keys) && j < |keys| && names == keys[..j]
      modifies this, adj
      ensures r == if j < 2 * initialVertexCount then Pass else Fail(IndexOutOfBounds)
      ensures Valid() && CountsAgree() && edgeCount == 0
      ensures adj == old(adj) || fresh(adj)
      ensures r.Pass? ==> names == keys[..j + 1]
    {
      BijectionKeys(vertexIndices, names);
      assert keys[j] !in keys[..j];
      r := AddVertex(Some(keys[j]));
      assert keys[..j + 1] == keys[..j] + [keys[j]];
    }

    /** Inserts the labels of `keys`, in order, into this graph, which has
        no vertices yet. */
    method InsertAll(keys: seq<string>, ghost keySet: set<string>) returns (r: Outcome)
      requires Valid() && CountsAgree() && vertexIndices == map[] && edgeCount == 0
      requires IsEnumeration(keys, keySet)
      modifies this, adj
      ensures r == if |keys| <= 2 * initialVertexCount then Pass else Fail(IndexOutOfBounds)
      ensures Valid() && CountsAgree() && edgeCount == 0
      ensures adj == old(adj) || fresh(adj)
      ensures r.Pass? ==> vertexIndices.Keys == keySet && |vertexIndices| <= 2 * initialVertexCount
    {
      var j := 0;
      while j < |keys|
        invariant 0 <= j <= |keys| && j <= 2 * initialVertexCount
        invariant adj == old(adj) || fresh(adj)
        invariant Valid() && CountsAgree() && edgeCount == 0
        invariant names == keys[..j]
      {
        var added := InsertKey(keys, j);
        if added.Fail? {
          return added;
        }
        j := j + 1;
      }
      BijectionKeys(vertexIndices, names);
      assert keys[..j] == keys;
      return Pass;
    }

    /** Adds to `reverse` the edge `w -> vertex` for every entry `w` of `bag`,
        the bag of `vertex`, most recent entry first. */
    static method AddReversedBag(reverse: DirectedGraph, vertex: string, bag: Bag,
                                 ghost vi: map<string, int>, ghost bags: seq<Bag>, ghost done: seq<string>)
      requires reverse.Valid() && reverse.CountsAgree() && |reverse.vertexIndices| <= 2 * reverse.initialVertexCount
      requires reverse.vertexIndices.Keys == vi.Keys && vertex in vi && vertex !in done
      requires bag == BagAt(bags, vi, vertex) && (bag != [] ==> vertex != "")
      requires forall k :: 0 <= k < |bag| ==> bag[k] in vi && bag[k] != "" && bag[k] != vertex
      requires ReversedCounts(reverse.vertexIndices, reverse.adj[..], vi, bags, done, "", [])
      modifies reverse`edgeCount, reverse.adj
      ensures reverse.Valid() && reverse.CountsAgree()
      ensures reverse.vertexIndices == old(reverse.vertexIndices)
      ensures ReversedCounts(reverse.vertexIndices, reverse.adj[..], vi, bags, done + [vertex], "", [])
      ensures reverse.edgeCount == old(reverse.edgeCount) + |bag|
    {
      ReversedStart(reverse.vertexIndices, reverse.adj[..], vi, bags, done, vertex);
      assert bag[..0] == [];
      var m := 0;
      while m < |bag|
        invariant 0 <= m <= |bag|
        invariant reverse.Valid() && reverse.CountsAgree()
        invariant reverse.vertexIndices == old(reverse.vertexIndices)
        invariant ReversedCounts(reverse.vertexIndices, reverse.adj[..], vi, bags, done, vertex, bag[..m])
        invariant reverse.edgeCount == old(reverse.edgeCount) + m
      {
        assert bag[m] in reverse.vertexIndices;
        assert bag[..m + 1] == bag[..m] + [bag[m]];
        AddReversedEdge(reverse, bag[m], vertex, vi, bags, done, bag[..m]);
        m := m + 1;
      }
      assert bag[..m] == bag;
      ReversedNext(reverse.vertexIndices, reverse.adj[..], vi, bags, done, vertex);
    }

    /** Adds to `reverse` the edge `w -> vertex`, turning around one entry of
        the bag of `vertex`. */
    static method AddReversedEdge(reverse: DirectedGraph, w: string, vertex: string,
                                  ghost vi: map<string, int>, ghost bags: seq<Bag>, ghost done: seq<string>, ghost part: Bag)
      requires reverse.Valid() && reverse.CountsAgree()
      requires |reverse.vertexIndices| <= 2 * reverse.initialVertexCount
      requires vertex != "" && w in reverse.vertexIndices && w != "" && w != vertex && vertex in reverse.vertexIndices
      requires ReversedCounts(reverse.vertexIndices, reverse.adj[..], vi, bags, done, vertex, part)
      modifies reverse`edgeCount, reverse.adj
      ensures reverse.Valid() && reverse.CountsAgree()
      ensures reverse.vertexIndices == old(reverse.vertexIndices)
      ensures reverse.edgeCount == old(reverse.edgeCount) + 1
      ensures ReversedCounts(reverse.vertexIndices, reverse.adj[..], vi, bags, done, vertex, part + [w])
    {
      ghost var before := reverse.adj[..];
      assert reverse.vertexIndices[w] < reverse.adj.Length;
      ReversedStep(reverse.vertexIndices, reverse.names, before, vi, bags, done, vertex, part, w);
      var r := reverse.AddEdge(Some(w), Some(vertex));
      assert r == Pass;
    }

    /** The label array the searches evidently intend: the label with index
        `i` at position `i`. */
    method VerticesByIndex() returns (vertices: seq<string>)
      requires Valid()
      ensures IsEnumeration(vertices, vertexIndices.Keys) && IndexConsistent(vertexIndices, vertices)
    {
      var result := new string[|vertexIndices|];
      var rest := vertexIndices.Keys;
      while rest != {}
        invariant rest <= vertexIndices.Keys
        invariant forall i :: 0 <= i < |names| && names[i] !in rest ==> result[i] == names[i]
      {
        var x :| x in rest;
        result[vertexIndices[x]] := x;
        rest := rest - {x};
      }
      assert result[..] == names;
      BijectionKeys(vertexIndices, names);
      vertices := result[..];
    }

    /** All labels, each once, in the map's own (unspecified) key order. */
    method GetVertices() returns (vertices: seq<string>)
      ensures IsEnumeration(vertices, vertexIndices.Keys)
    {
      var result := new string[|vertexIndices|];
      var rest := vertexIndices.Keys;
      var i := 0;
      while rest != {}
        invariant rest <= vertexIndices.Keys
        invariant 0 <= i && i + |rest| == result.Length
        invariant Distinct(result[..i])
        invariant forall x :: x in result[..i] <==> x in vertexIndices && x !in rest
      {
        var x :| x in rest;
        result[i] := x;
        assert result[..i + 1] == result[..i] + [x];
        rest := rest - {x};
        i := i + 1;
      }
      assert result[..i] == result[..];
      vertices := result[..];
    }
  }
}
