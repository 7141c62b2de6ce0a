/**
 Merkle trees and inclusion paths, with the exact domain on which folding the
 path that `FindPath` returns gives the root.
 */
module MerkleTree {
  import opened Types

  /** A leaf covers its own position; a node records the range `l` to `r` of its children. */
  datatype Tree =
    | Leaf(pos: nat, hash: Hash)
    | Node(l: nat, r: nat, left: Tree, right: Tree, hash: Hash)
  {
    function Lo(): nat { if Leaf? then pos else l }
    function Hi(): nat { if Leaf? then pos else r }
  }

  function NewNode(left: Tree, right: Tree): Tree {
    Node(left.Lo(), right.Hi(), left, right, Join(left.hash, right.hash))
  }

  function Pow2(j: nat): (p: nat)
    ensures p > 0
  {
    if j == 0 then 1 else 2 * Pow2(j - 1)
  }

  // ----- The shape of a built tree -----

  /** The node of level `j` that starts at leaf `lo`, in a tree over `leaves`. */
  ghost predicate Shape(t: Tree, j: nat, lo: nat, leaves: seq<Hash>)
    decreases j
  {
    && lo < |leaves|
    && t.Lo() == lo
    && t.Hi() == Min(lo + Pow2(j), |leaves|) - 1
    && if j == 0 then t == Leaf(lo, leaves[lo])
       else
         && t.Node?
         && t.hash == Join(t.left.hash, t.right.hash)
         && Shape(t.left, j - 1, lo, leaves)
         && var mid := lo + Pow2(j - 1);
         && (mid < |leaves| ==> Shape(t.right, j - 1, mid, leaves))
         && (mid >= |leaves| ==> t.right == t.left)
  }

  function Min(a: int, b: int): int {
    if a < b then a else b
  }

  // ----- Building the tree level by level -----

  /** The nodes of one level, left to right. */
  ghost predicate Level(nodes: seq<Tree>, j: nat, leaves: seq<Hash>) {
    && (|nodes| - 1) * Pow2(j) < |leaves| <= |nodes| * Pow2(j)
    && forall a {:trigger nodes[a]} :: 0 <= a < |nodes| ==> Shape(nodes[a], j, a * Pow2(j), leaves)
  }

  lemma {:induction false} PairPositions(a: nat, p: nat)
    ensures (2 * a) * p == a * (2 * p) && (2 * a + 1) * p == a * (2 * p) + p
  {
  }

  lemma {:induction false} PairShape(nodes: seq<Tree>, a: nat, j: nat, leaves: seq<Hash>)
    requires Level(nodes, j, leaves) && 2 * a < |nodes|
    ensures Shape(NewNode(nodes[2 * a], if 2 * a + 1 < |nodes| then nodes[2 * a + 1] else nodes[2 * a]),
                  j + 1, a * Pow2(j + 1), leaves)
  {
    var p := Pow2(j);
    assert Pow2(j + 1) == 2 * p;
    PairPositions(a, p);
    var lo := a * (2 * p);
    assert Shape(nodes[2 * a], j, lo, leaves);
    if 2 * a + 1 < |nodes| {
      assert Shape(nodes[2 * a + 1], j, lo + p, leaves);
      JoinShape(nodes[2 * a], nodes[2 * a + 1], j, lo, leaves);
    } else {
      JoinShape(nodes[2 * a], nodes[2 * a], j, lo, leaves);
    }
  }

  /** Two neighbours, or a last node twice, make a node of the next level. */
  lemma {:induction false} JoinShape(left: Tree, right: Tree, j: nat, lo: nat, leaves: seq<Hash>)
    requires Shape(left, j, lo, leaves)
    requires if lo + Pow2(j) < |leaves| then Shape(right, j, lo + Pow2(j), leaves) else right == left
    ensures Shape(NewNode(left, right), j + 1, lo, leaves)
  {
    assert Pow2(j + 1) == 2 * Pow2(j);
  }

  /** Joins the nodes of a level in pairs; an odd last node is paired with itself. */
  method NextLevel(nodes: seq<Tree>, ghost j: nat, ghost leaves: seq<Hash>) returns (level: seq<Tree>)
    requires |nodes| > 1 && Level(nodes, j, leaves)
    ensures Level(level, j + 1, leaves) && |level| < |nodes|
  {
    level := [];
    var ns := nodes;
    var i := 0;
    while i < |ns|
      invariant i == 2 * |level| && (i <= |nodes| == |ns| || i == |ns| == |nodes| + 1)
      invariant ns[..|nodes|] == nodes
      invariant forall a :: 0 <= a < |level| ==> Shape(level[a], j + 1, a * Pow2(j + 1), leaves)
    {
      if i == |ns| - 1 {
        ns := ns + [ns[i]];
      }
      PairShape(nodes, |level|, j, leaves);
      assert ns[i] == nodes[i];
      level := level + [NewNode(ns[i], ns[i + 1])];
      i := i + 2;
    }
    LevelCount(|nodes|, |level|, j, |leaves|);
  }

  lemma LevelCount(n: nat, m: nat, j: nat, count: nat)
    requires (n - 1) * Pow2(j) < count <= n * Pow2(j) && (2 * m == n || 2 * m == n + 1)
    ensures (m - 1) * Pow2(j + 1) < count <= m * Pow2(j + 1)
  {
  }

  function LeafHash(data: Bytes): Hash {
    Sha256(data)
  }

  /** The hashes of the leaves. */
  function LeafHashes(dataSeq: seq<Bytes>): seq<Hash> {
    seq(|dataSeq|, i requires 0 <= i < |dataSeq| => LeafHash(dataSeq[i]))
  }

  /** The root level: the least `j` with `count <= 2^j`. */
  ghost predicate RootLevel(j: nat, count: nat) {
    count <= Pow2(j) && (j > 0 ==> Pow2(j - 1) < count)
  }

  method NewLeaves(dataSeq: seq<Bytes>) returns (nodes: seq<Tree>)
    ensures |nodes| == |dataSeq| && Level(nodes, 0, LeafHashes(dataSeq))
  {
    nodes := [];
    for index := 0 to |dataSeq|
      invariant |nodes| == index
      invariant forall a :: 0 <= a < index ==> Shape(nodes[a], 0, a * Pow2(0), LeafHashes(dataSeq))
    {
      nodes := nodes + [Leaf(index, LeafHash(dataSeq[index]))];
    }
  }

  lemma RootShape(nodes: seq<Tree>, j: nat, leaves: seq<Hash>)
    requires |nodes| == 1 && Level(nodes, j, leaves)
    ensures Shape(nodes[0], j, 0, leaves) && |leaves| <= Pow2(j)
  {
    assert Shape(nodes[0], j, 0 * Pow2(j), leaves);
  }

  lemma {:induction false} AtLeastOnce(k: nat, p: nat)
    requires k > 0
    ensures p <= k * p
    decreases k
  {
    if k > 1 {
      AtLeastOnce(k - 1, p);
      assert k * p == (k - 1) * p + p;
    }
  }

  lemma {:induction false} LevelIsShort(count: nat, j: nat, leaves: nat)
    requires count > 1 && (count - 1) * Pow2(j) < leaves
    ensures Pow2(j) < leaves
  {
    AtLeastOnce(count - 1, Pow2(j));
  }

  /** Building ends for every non-empty input; the empty input is refused. */
  method NewMerkleTree(dataSeq: seq<Bytes>) returns (tree: Option<Tree>, ghost j: nat)
    ensures tree.None? <==> dataSeq == []
    ensures tree.Some? ==> Shape(tree.value, j, 0, LeafHashes(dataSeq)) && RootLevel(j, |dataSeq|)
  {
    j := 0;
    var nodes := NewLeaves(dataSeq);
    if |nodes| == 0 {
      return None, 0;
    }
    while |nodes| != 1
      invariant |nodes| > 0 && Level(nodes, j, LeafHashes(dataSeq))
      invariant j > 0 ==> Pow2(j - 1) < |dataSeq|
      decreases |nodes|
    {
      LevelIsShort(|nodes|, j, |dataSeq|);
      nodes := NextLevel(nodes, j, LeafHashes(dataSeq));
      j := j + 1;
    }
    RootShape(nodes, j, LeafHashes(dataSeq));
    tree := Some(nodes[0]);
  }

  // ----- Finding a path -----

  predicate IsEnd(t: Tree) {
    t.Lo() == t.Hi()
  }

  function Child(t: Tree, index: int): Tree
    requires t.Node?
  {
    if index < (t.l + t.r) / 2 then t.left else t.right
  }

  /** The steps a node contributes to the path. */
  function Steps(t: Tree, index: int): seq<PathStep> {
    if t.Leaf? then []
    else
      (if index > t.left.Hi() then [PathStep(t.left.hash, true)] else []) +
      (if index < t.right.Lo() then [PathStep(t.right.hash, false)] else [])
  }

  function Path(t: Tree, index: int): seq<PathStep> {
    if t.Leaf? || IsEnd(t) then [] else Path(Child(t, index), index) + Steps(t, index)
  }

  /** The steps of the first `n` nodes of a walk, the last node first. */
  function WalkSteps(walk: seq<Tree>, n: nat, index: int): seq<PathStep>
    requires n <= |walk|
  {
    if n == 0 then [] else Steps(walk[n - 1], index) + WalkSteps(walk, n - 1, index)
  }

  lemma {:induction false} WalkStepsPrefix(walk: seq<Tree>, longer: seq<Tree>, n: nat, index: int)
    requires n <= |walk| && walk <= longer
    ensures WalkSteps(longer, n, index) == WalkSteps(walk, n, index)
    decreases n
  {
    if n > 0 {
      WalkStepsPrefix(walk, longer, n - 1, index);
    }
  }

  ghost predicate AllNodes(walk: seq<Tree>) {
    forall k {:trigger walk[k]} :: 0 <= k < |walk| ==> walk[k].Node?
  }

  /** Going down from a node moves its steps from the path below to the walk. */
  lemma {:induction false} WalkNext(walk: seq<Tree>, node: Tree, index: int)
    requires node.Node? && !IsEnd(node)
    ensures AllNodes(walk) ==> AllNodes(walk + [node])
    ensures Path(node, index) + WalkSteps(walk, |walk|, index)
         == Path(Child(node, index), index) + WalkSteps(walk + [node], |walk| + 1, index)
  {
    var longer := walk + [node];
    WalkStepsPrefix(walk, longer, |walk|, index);
    var below, steps, rest := Path(Child(node, index), index), Steps(node, index), WalkSteps(walk, |walk|, index);
    assert longer[|walk|] == node;
    assert WalkSteps(longer, |walk| + 1, index) == steps + rest;
    Regroup(below, steps, rest);
  }

  lemma {:induction false} Regroup<T>(a: seq<T>, b: seq<T>, c: seq<T>)
    ensures a + (b + c) == a + b + c
  {
  }

  /** Walks down to a node of one leaf, then collects the steps from the bottom up. */
  method FindPath(root: Tree, index: int) returns (path: seq<PathStep>)
    ensures path == Path(root, index)
  {
    var node := root;
    var walk: seq<Tree> := [];
    ghost var all := Path(root, index);
    while !IsEnd(node)
      invariant AllNodes(walk)
      invariant all == Path(node, index) + WalkSteps(walk, |walk|, index)
      decreases node
    {
      WalkNext(walk, node, index);
      walk := walk + [node];
      node := Child(node, index);
    }
    path := CollectSteps(walk, index);
    assert [] + path == path;
  }

  /** The two tests of the collecting loop. */
  method StepsAt(node: Tree, index: int) returns (steps: seq<PathStep>)
    requires node.Node?
    ensures steps == Steps(node, index)
  {
    steps := [];
    if index > node.left.Hi() {
      steps := steps + [PathStep(node.left.hash, true)];
    }
    if index < node.right.Lo() {
      steps := steps + [PathStep(node.right.hash, false)];
    }
  }

  method CollectSteps(walk: seq<Tree>, index: int) returns (path: seq<PathStep>)
    requires AllNodes(walk)
    ensures path == WalkSteps(walk, |walk|, index)
  {
    path := [];
    var i := |walk|;
    ghost var all := WalkSteps(walk, |walk|, index);
    while i > 0
      invariant 0 <= i <= |walk|
      invariant all == path + WalkSteps(walk, i, index)
    {
      ghost var rest := WalkSteps(walk, i - 1, index);
      i := i - 1;
      var steps := StepsAt(walk[i], index);
      Regroup(path, steps, rest);
      path := path + steps;
    }
  }

  /** The loop of `Block.Hash` and `RelayVerify`. */
  method FoldPath(leaf: Hash, path: seq<PathStep>) returns (hash: Hash)
    ensures hash == Fold(leaf, path)
  {
    hash := leaf;
    for i := 0 to |path|
      invariant Fold(leaf, path) == Fold(hash, path[i..])
    {
      assert path[i..][1..] == path[i + 1..];
      hash := if path[i].left then Join(path[i].hash, hash) else Join(hash, path[i].hash);
    }
  }
}
