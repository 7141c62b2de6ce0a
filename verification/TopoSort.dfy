/**
 The batched topological sort of `GetTxns`. The map iterations of the source run
 in an arbitrary order, so the code picks arbitrary elements.
 */
module TopoSort {
  import opened Types
  import opened PoolGraph

  type Edges = map<Hash, seq<Hash>>

  function Targets(head: Edges, u: Hash): seq<Hash> {
    if u in head then head[u] else []
  }

  function Count(xs: seq<Hash>, v: Hash): nat {
    if xs == [] then 0 else (if xs[0] == v then 1 else 0) + Count(xs[1..], v)
  }

  /** The number of edges from `u` to `v`. */
  function EdgeCount(head: Edges, u: Hash, v: Hash): nat {
    Count(Targets(head, u), v)
  }

  /** The edges into `v` are those of the inputs `vins` that name the pool. */
  ghost predicate EdgesInto(pool: Pool, head: Edges, v: Hash, vins: seq<TxnInput>) {
    forall u {:trigger EdgeCount(head, u, v)} :: EdgeCount(head, u, v) == if u in pool then Occurs(vins, u) else 0
  }

  method AddEdge(head: Edges, indeg: map<Hash, int>, u: Hash, v: Hash) returns (head': Edges, indeg': map<Hash, int>)
    requires v in indeg
    ensures forall a, b :: EdgeCount(head', a, b) == EdgeCount(head, a, b) + if a == u && b == v then 1 else 0
    ensures indeg' == indeg[v := indeg[v] + 1]
  {
    head' := head[u := [v] + Targets(head, u)];
    indeg' := indeg[v := indeg[v] + 1];
    assert ([v] + Targets(head, u))[1..] == Targets(head, u);
  }

  /** Adds the edges of the inputs of one transaction. */
  method AddInputs(pool: Pool, head0: Edges, indeg0: map<Hash, int>, v: Hash)
      returns (head: Edges, indeg: map<Hash, int>)
    requires v in pool && indeg0.Keys == pool.Keys && indeg0[v] == 0 && EdgesInto(pool, head0, v, [])
    ensures EdgesInto(pool, head, v, pool[v].vin)
    ensures indeg == indeg0[v := Pending(pool[v].vin, pool.Keys)]
    ensures forall u, w :: w != v ==> EdgeCount(head, u, w) == EdgeCount(head0, u, w)
  {
    var vins := pool[v].vin;
    head, indeg := head0, indeg0;
    for i := 0 to |vins|
      invariant EdgesInto(pool, head, v, vins[..i])
      invariant indeg == indeg0[v := Pending(vins[..i], pool.Keys)]
      invariant forall u, w :: w != v ==> EdgeCount(head, u, w) == EdgeCount(head0, u, w)
    {
      CountNextInput(vins, i, pool.Keys);
      if vins[i].voutHash in pool {
        head, indeg := AddEdge(head, indeg, vins[i].voutHash, v);
      }
    }
    assert vins[..|vins|] == vins;
  }

  /** Edges and in-degrees are complete for a transaction once its inputs were added. */
  ghost predicate Complete(pool: Pool, head: Edges, indeg: map<Hash, int>, rest: set<Hash>, v: Hash)
    requires v in indeg && v in pool
  {
    var vins := if v in rest then [] else pool[v].vin;
    EdgesInto(pool, head, v, vins) && indeg[v] == Pending(vins, pool.Keys)
  }

  /** The graph of the pool without the edges into `rest`. */
  ghost predicate Graph(pool: Pool, head: Edges, indeg: map<Hash, int>, rest: set<Hash>) {
    && indeg.Keys == pool.Keys
    && (forall v {:trigger Complete(pool, head, indeg, rest, v)} :: v in pool ==> Complete(pool, head, indeg, rest, v))
    && (forall u, v {:trigger EdgeCount(head, u, v)} :: v !in pool ==> EdgeCount(head, u, v) == 0)
  }

  lemma {:induction false} EdgesKept(pool: Pool, head0: Edges, head: Edges, w: Hash, vins: seq<TxnInput>)
    requires EdgesInto(pool, head0, w, vins)
    requires forall u :: EdgeCount(head, u, w) == EdgeCount(head0, u, w)
    ensures EdgesInto(pool, head, w, vins)
  {
  }

  lemma {:induction false} GraphGrows(pool: Pool, head0: Edges, indeg0: map<Hash, int>, rest: set<Hash>, v: Hash,
                   head: Edges, indeg: map<Hash, int>)
    requires Graph(pool, head0, indeg0, rest) && v in rest && v in pool
    requires EdgesInto(pool, head, v, pool[v].vin)
    requires indeg == indeg0[v := Pending(pool[v].vin, pool.Keys)]
    requires forall u, w :: w != v ==> EdgeCount(head, u, w) == EdgeCount(head0, u, w)
    ensures Graph(pool, head, indeg, rest - {v})
  {
    forall w | w in pool ensures Complete(pool, head, indeg, rest - {v}, w) {
      if w != v {
        assert Complete(pool, head0, indeg0, rest, w);
        EdgesKept(pool, head0, head, w, if w in rest then [] else pool[w].vin);
      }
    }
  }

  method BuildGraph(pool: Pool) returns (head: Edges, indeg: map<Hash, int>)
    ensures Graph(pool, head, indeg, {})
  {
    head := map[];
    indeg := map h | h in pool :: 0;
    var rest := pool.Keys;
    while rest != {}
      invariant rest <= pool.Keys && Graph(pool, head, indeg, rest)
      decreases rest
    {
      var v :| v in rest;
      assert Complete(pool, head, indeg, rest, v);
      ghost var head0, indeg0 := head, indeg;
      head, indeg := AddInputs(pool, head, indeg, v);
      GraphGrows(pool, head0, indeg0, rest, v, head, indeg);
      rest := rest - {v};
    }
  }

  // ----- The sort -----

  /** The pool transactions not yet processed. */
  function Unprocessed(pool: Pool, nodes: seq<Hash>, done: nat): set<Hash>
    requires done <= |nodes|
  {
    pool.Keys - Elements(nodes[..done])
  }

  /** The in-degree that `h` has left, when the edges to the targets `ptr` are still to be taken off. */
  function InDegree(pool: Pool, left: set<Hash>, ptr: seq<Hash>, h: Hash): nat
    requires h in pool
  {
    Pending(pool[h].vin, left) + Count(ptr, h)
  }

  /**
   While the edges of the last processed node are followed: `nodes` holds exactly the
   transactions whose in-degree is 0, and `indeg` the in-degree of the others.
   */
  ghost predicate Sorting(pool: Pool, indeg: map<Hash, int>, nodes: seq<Hash>, done: nat, ptr: seq<Hash>) {
    && done <= |nodes|
    && TopologicalOrder(pool, nodes)
    && var left := Unprocessed(pool, nodes, done);
    && forall h {:trigger Filed(pool, indeg, nodes, left, ptr, h)} :: h in pool ==> Filed(pool, indeg, nodes, left, ptr, h)
  }

  ghost predicate Filed(pool: Pool, indeg: map<Hash, int>, nodes: seq<Hash>, left: set<Hash>, ptr: seq<Hash>, h: Hash)
    requires h in pool
  {
    if h in nodes then InDegree(pool, left, ptr, h) == 0
    else h in indeg && indeg[h] == InDegree(pool, left, ptr, h) > 0
  }

  lemma {:induction false} TopologicalAppend(pool: Pool, nodes: seq<Hash>, v: Hash)
    requires TopologicalOrder(pool, nodes) && v in pool && v !in nodes
    requires ParentsIn(pool, pool[v], Elements(nodes))
    ensures TopologicalOrder(pool, nodes + [v])
  {
    var longer := nodes + [v];
    forall i | 0 <= i < |longer|
      ensures longer[i] in pool && ParentsIn(pool, pool[longer[i]], Elements(longer[..i]))
    {
      if i < |nodes| {
        assert longer[..i] == nodes[..i];
      } else {
        assert longer[..i] == nodes;
      }
    }
  }

  lemma {:induction false} ReadyParents(pool: Pool, nodes: seq<Hash>, done: nat, v: Hash)
    requires done <= |nodes| && v in pool && Pending(pool[v].vin, Unprocessed(pool, nodes, done)) == 0
    ensures ParentsIn(pool, pool[v], Elements(nodes))
  {
    PendingZero(pool[v].vin, Unprocessed(pool, nodes, done));
  }

  lemma {:induction false} CountFirst(ptr: seq<Hash>, h: Hash)
    requires ptr != []
    ensures Count(ptr, h) == Count(ptr[1..], h) + if ptr[0] == h then 1 else 0
  {
  }

  /** Following one edge. */
  method TakeEdge(pool: Pool, indeg0: map<Hash, int>, nodes0: seq<Hash>, ghost done: nat, ptr: seq<Hash>)
      returns (indeg: map<Hash, int>, nodes: seq<Hash>)
    requires ptr != [] && ptr[0] in pool && Sorting(pool, indeg0, nodes0, done, ptr)
    ensures Sorting(pool, indeg, nodes, done, ptr[1..])
    ensures nodes0 <= nodes
  {
    var v := ptr[0];
    ghost var left := Unprocessed(pool, nodes0, done);
    CountFirst(ptr, v);
    assert Filed(pool, indeg0, nodes0, left, ptr, v);
    indeg := indeg0[v := indeg0[v] - 1];
    nodes := nodes0;
    if indeg[v] == 0 {
      ReadyParents(pool, nodes0, done, v);
      TopologicalAppend(pool, nodes0, v);
      nodes := nodes + [v];
    }
    assert nodes[..done] == nodes0[..done];
    forall h | h in pool ensures Filed(pool, indeg, nodes, left, ptr[1..], h) {
      CountFirst(ptr, h);
      assert Filed(pool, indeg0, nodes0, left, ptr, h);
    }
  }

  /** Processing a node starts with all its edges still to be followed. */
  lemma {:induction false} StartNode(pool: Pool, head: Edges, graph: map<Hash, int>, indeg: map<Hash, int>, nodes: seq<Hash>, done: nat)
    requires Graph(pool, head, graph, {}) && done < |nodes| && Sorting(pool, indeg, nodes, done, [])
    ensures Sorting(pool, indeg - {nodes[done]}, nodes, done + 1, Targets(head, nodes[done]))
  {
    var u, ptr := nodes[done], Targets(head, nodes[done]);
    var left, left' := Unprocessed(pool, nodes, done), Unprocessed(pool, nodes, done + 1);
    assert nodes[..done + 1] == nodes[..done] + [u];
    assert left' == left - {u};
    assert u in left;
    forall h | h in pool ensures Filed(pool, indeg - {u}, nodes, left', ptr, h) {
      assert Filed(pool, indeg, nodes, left, [], h);
      PendingWithout(pool[h].vin, left, u);
      assert Complete(pool, head, graph, {}, h);
      assert EdgeCount(head, u, h) == Occurs(pool[h].vin, u);
    }
  }

  lemma {:induction false} TargetsInPool(pool: Pool, head: Edges, graph: map<Hash, int>, u: Hash, k: nat)
    requires Graph(pool, head, graph, {}) && k < |Targets(head, u)|
    ensures Targets(head, u)[k] in pool
  {
    CountPositive(Targets(head, u), k);
    assert EdgeCount(head, u, Targets(head, u)[k]) > 0;
  }

  lemma {:induction false} CountPositive(xs: seq<Hash>, k: nat)
    requires k < |xs|
    ensures Count(xs, xs[k]) > 0
    decreases k
  {
    if k > 0 {
      CountPositive(xs[1..], k - 1);
    }
  }

  /** Processing one node. */
  method ProcessNode(pool: Pool, head: Edges, ghost graph: map<Hash, int>, indeg0: map<Hash, int>, nodes0: seq<Hash>, done: nat)
      returns (indeg: map<Hash, int>, nodes: seq<Hash>)
    requires Graph(pool, head, graph, {}) && done < |nodes0| && Sorting(pool, indeg0, nodes0, done, [])
    ensures Sorting(pool, indeg, nodes, done + 1, []) && nodes0 <= nodes
  {
    var u := nodes0[done];
    StartNode(pool, head, graph, indeg0, nodes0, done);
    indeg, nodes := indeg0 - {u}, nodes0;
    var ptr := Targets(head, u);
    ghost var k := 0;
    while ptr != []
      invariant k <= |Targets(head, u)| && ptr == Targets(head, u)[k..]
      invariant Sorting(pool, indeg, nodes, done + 1, ptr) && nodes0 <= nodes
      decreases |ptr|
    {
      TargetsInPool(pool, head, graph, u, k);
      indeg, nodes := TakeEdge(pool, indeg, nodes, done + 1, ptr);
      ptr := ptr[1..];
      k := k + 1;
    }
  }

  /** The transactions without parents in the pool, in any order. */
  method InitialNodes(pool: Pool, head: Edges, indeg: map<Hash, int>) returns (nodes: seq<Hash>)
    requires Graph(pool, head, indeg, {})
    ensures Sorting(pool, indeg, nodes, 0, [])
  {
    nodes := [];
    var rest := indeg.Keys;
    while rest != {}
      invariant rest <= pool.Keys && Distinct(nodes)
      invariant forall h :: h in nodes <==> h in pool && h !in rest && indeg[h] == 0
      decreases rest
    {
      var h :| h in rest;
      if indeg[h] == 0 {
        nodes := nodes + [h];
      }
      rest := rest - {h};
    }
    StartSorting(pool, head, indeg, nodes);
  }

  lemma {:induction false} StartSorting(pool: Pool, head: Edges, indeg: map<Hash, int>, nodes: seq<Hash>)
    requires Graph(pool, head, indeg, {}) && Distinct(nodes)
    requires forall h :: h in nodes <==> h in pool && indeg[h] == 0
    ensures Sorting(pool, indeg, nodes, 0, [])
  {
    assert Elements(nodes[..0]) == {};
    assert Unprocessed(pool, nodes, 0) == pool.Keys;
    forall h | h in pool ensures Filed(pool, indeg, nodes, pool.Keys, [], h) {
      assert Complete(pool, head, indeg, {}, h);
    }
    forall i | 0 <= i < |nodes| ensures nodes[i] in pool && ParentsIn(pool, pool[nodes[i]], Elements(nodes[..i])) {
      assert nodes[i] in nodes;
      assert Complete(pool, head, indeg, {}, nodes[i]);
      PendingZero(pool[nodes[i]].vin, pool.Keys);
    }
  }

  lemma {:induction false} OrderFitsPool(pool: Pool, order: seq<Hash>)
    requires Distinct(order) && forall i :: 0 <= i < |order| ==> order[i] in pool
    ensures |order| <= |pool|
    decreases |order|
  {
    if order != [] {
      var h := order[|order| - 1];
      var rest := pool - {h};
      OrderFitsPool(rest, order[..|order| - 1]);
      assert rest.Keys == pool.Keys - {h};
    }
  }

  /** When every node is processed, what is left out feeds itself. */
  lemma {:induction false} SortingEnds(pool: Pool, indeg: map<Hash, int>, nodes: seq<Hash>)
    requires Sorting(pool, indeg, nodes, |nodes|, [])
    ensures SelfFed(pool, pool.Keys - Elements(nodes))
  {
    assert nodes[..|nodes|] == nodes;
    var left := Unprocessed(pool, nodes, |nodes|);
    forall h | h in left ensures HasParentIn(pool[h], left) {
      assert Filed(pool, indeg, nodes, left, [], h);
      PendingZero(pool[h].vin, left);
    }
  }

  /** The whole sort, batch by batch; it ends because no node enters twice. */
  method Sort(pool: Pool) returns (nodes: seq<Hash>)
    ensures TopologicalOrder(pool, nodes)
    ensures SelfFed(pool, pool.Keys - Elements(nodes))
  {
    var head, indeg := BuildGraph(pool);
    ghost var graph := indeg;
    var lenBefore := 0;
    nodes := InitialNodes(pool, head, indeg);
    OrderFitsPool(pool, nodes);
    var lenAfter := |nodes|;
    while lenAfter != lenBefore
      invariant lenBefore <= lenAfter == |nodes| <= |pool|
      invariant Sorting(pool, indeg, nodes, lenBefore, [])
      decreases |pool| - lenBefore
    {
      for i := lenBefore to lenAfter
        invariant lenAfter <= |nodes| && Sorting(pool, indeg, nodes, i, [])
      {
        indeg, nodes := ProcessNode(pool, head, graph, indeg, nodes, i);
      }
      lenBefore := lenAfter;
      lenAfter := |nodes|;
      OrderFitsPool(pool, nodes);
    }
    SortingEnds(pool, indeg, nodes);
  }
}
