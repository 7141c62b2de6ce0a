/**
 When an inclusion path folds back to the root.

 Hashes are abstracted to terms: a term is the expression by which a hash was
 computed from the leaves. A fold that reaches the root's term reaches the root
 under every hash function; one that does not can only reach it by a collision.
 */
module MerklePath {
  import opened Types
  import opened MerkleTree

  datatype Term = LeafTerm(index: nat) | JoinTerm(left: Term, right: Term)

  datatype TermStep = TermStep(term: Term, left: bool)

  function Eval(x: Term, leaves: seq<Hash>): Hash {
    match x
    case LeafTerm(index) => if index < |leaves| then leaves[index] else NO_HASH
    case JoinTerm(a, b) => Join(Eval(a, leaves), Eval(b, leaves))
  }

  function TermOf(t: Tree): Term {
    match t
    case Leaf(pos, _) => LeafTerm(pos)
    case Node(_, _, left, right, _) => JoinTerm(TermOf(left), TermOf(right))
  }

  function TermSteps(t: Tree, index: int): seq<TermStep>
    requires t.Node?
  {
    (if index > t.left.Hi() then [TermStep(TermOf(t.left), true)] else []) +
    (if index < t.right.Lo() then [TermStep(TermOf(t.right), false)] else [])
  }

  function TermPath(t: Tree, index: int): seq<TermStep> {
    if t.Leaf? || IsEnd(t) then [] else TermPath(Child(t, index), index) + TermSteps(t, index)
  }

  function Climb(x: Term, s: TermStep): Term {
    if s.left then JoinTerm(s.term, x) else JoinTerm(x, s.term)
  }

  function TermFold(x: Term, path: seq<TermStep>): Term
    decreases |path|
  {
    if path == [] then x else TermFold(Climb(x, path[0]), path[1..])
  }

  /** The term that folding the path of leaf `i` computes. */
  function Folded(t: Tree, i: nat): Term {
    TermFold(LeafTerm(i), TermPath(t, i))
  }

  /**
   The arithmetic condition under which the path of leaf `i` works in a node of
   level `j` over the leaves from `lo`, of `n` leaves in all: no ancestor was
   duplicated, and at no ancestor above the lowest one does the walk turn right
   while the leaf is on the left.
   */
  predicate PathWorks(j: nat, lo: nat, n: nat, i: nat)
    decreases j
  {
    j == 0 ||
    var mid := lo + Pow2(j - 1);
    && mid < n
    && if i < mid then
         (j == 1 || i < (lo + Min(lo + Pow2(j), n) - 1) / 2) && PathWorks(j - 1, lo, n, i)
       else PathWorks(j - 1, mid, n, i)
  }

  // ----- Terms evaluate to the hashes of the tree -----

  lemma {:induction false} EvalTree(t: Tree, j: nat, lo: nat, leaves: seq<Hash>)
    requires Shape(t, j, lo, leaves)
    ensures t.hash == Eval(TermOf(t), leaves)
    decreases j
  {
    if j > 0 {
      EvalTree(t.left, j - 1, lo, leaves);
      if lo + Pow2(j - 1) < |leaves| {
        EvalTree(t.right, j - 1, lo + Pow2(j - 1), leaves);
      }
    }
  }

  function EvalPath(path: seq<TermStep>, leaves: seq<Hash>): (steps: seq<PathStep>)
    ensures |steps| == |path|
    ensures forall k :: 0 <= k < |path| ==> steps[k] == PathStep(Eval(path[k].term, leaves), path[k].left)
  {
    seq(|path|, k requires 0 <= k < |path| => PathStep(Eval(path[k].term, leaves), path[k].left))
  }

  lemma {:induction false} EvalSteps(t: Tree, j: nat, lo: nat, leaves: seq<Hash>, i: int)
    requires j > 0 && Shape(t, j, lo, leaves)
    ensures Steps(t, i) == EvalPath(TermSteps(t, i), leaves)
  {
    EvalTree(t.left, j - 1, lo, leaves);
    var mid := lo + Pow2(j - 1);
    if mid < |leaves| {
      EvalTree(t.right, j - 1, mid, leaves);
    }
  }

  lemma {:induction false} EvalPathConcat(p: seq<TermStep>, q: seq<TermStep>, leaves: seq<Hash>)
    ensures EvalPath(p + q, leaves) == EvalPath(p, leaves) + EvalPath(q, leaves)
  {
  }

  lemma {:induction false} EvalPathOf(t: Tree, j: nat, lo: nat, leaves: seq<Hash>, i: int)
    requires Shape(t, j, lo, leaves)
    ensures Path(t, i) == EvalPath(TermPath(t, i), leaves)
    decreases j
  {
    if j > 0 && !IsEnd(t) {
      EvalSteps(t, j, lo, leaves, i);
      EvalPathConcat(TermPath(Child(t, i), i), TermSteps(t, i), leaves);
      if Child(t, i) == t.left {
        EvalPathOf(t.left, j - 1, lo, leaves, i);
      } else {
        EvalPathOf(t.right, j - 1, lo + Pow2(j - 1), leaves, i);
      }
    }
  }

  lemma {:induction false} EvalFold(x: Term, path: seq<TermStep>, leaves: seq<Hash>)
    ensures Fold(Eval(x, leaves), EvalPath(path, leaves)) == Eval(TermFold(x, path), leaves)
    decreases |path|
  {
    if path != [] {
      EvalFold(Climb(x, path[0]), path[1..], leaves);
      assert EvalPath(path, leaves)[1..] == EvalPath(path[1..], leaves);
    }
  }

  lemma {:induction false} FoldIsFolded(t: Tree, j: nat, lo: nat, leaves: seq<Hash>, i: nat)
    requires Shape(t, j, lo, leaves) && i < |leaves|
    ensures Fold(leaves[i], Path(t, i)) == Eval(Folded(t, i), leaves)
  {
    EvalPathOf(t, j, lo, leaves, i);
    EvalFold(LeafTerm(i), TermPath(t, i), leaves);
  }

  // ----- The term the fold computes -----

  lemma {:induction false} FoldConcat(x: Term, p: seq<TermStep>, q: seq<TermStep>)
    ensures TermFold(x, p + q) == TermFold(TermFold(x, p), q)
    decreases |p|
  {
    if p == [] {
      assert p + q == q;
    } else {
      assert (p + q)[1..] == p[1..] + q;
      FoldConcat(Climb(x, p[0]), p[1..], q);
    }
  }

  lemma {:induction false} FoldedStep(t: Tree, i: nat)
    requires t.Node? && !IsEnd(t)
    ensures Folded(t, i) == TermFold(Folded(Child(t, i), i), TermSteps(t, i))
  {
    FoldConcat(LeafTerm(i), TermPath(Child(t, i), i), TermSteps(t, i));
  }

  function Size(x: Term): nat {
    match x
    case LeafTerm(_) => 1
    case JoinTerm(a, b) => 1 + Size(a) + Size(b)
  }

  function Rightmost(x: Term): nat {
    match x
    case LeafTerm(index) => index
    case JoinTerm(_, b) => Rightmost(b)
  }

  lemma {:induction false} RightmostInRange(t: Tree, j: nat, lo: nat, leaves: seq<Hash>)
    requires Shape(t, j, lo, leaves)
    ensures lo <= Rightmost(TermOf(t)) <= t.Hi()
    decreases j
  {
    if j > 0 {
      RightmostInRange(t.left, j - 1, lo, leaves);
      if lo + Pow2(j - 1) < |leaves| {
        RightmostInRange(t.right, j - 1, lo + Pow2(j - 1), leaves);
      }
    }
  }

  /** A walk for a leaf left of the node folds the node's own right child in last. */
  lemma {:induction false} FoldedOutside(t: Tree, j: nat, lo: nat, leaves: seq<Hash>, i: nat)
    requires Shape(t, j, lo, leaves) && i < lo
    ensures Folded(t, i) == LeafTerm(i) || (t.Node? && Folded(t, i).JoinTerm? && Folded(t, i).right == TermOf(t.right))
  {
    if j > 0 && !IsEnd(t) {
      FoldedStep(t, i);
      assert TermSteps(t, i) == [TermStep(TermOf(t.right), false)];
    }
  }

  /** The last sibling folded in is smaller than the node. */
  lemma {:induction false} FoldedIsSmall(t: Tree, j: nat, lo: nat, leaves: seq<Hash>, i: nat)
    requires Shape(t, j, lo, leaves) && lo <= i <= t.Hi()
    ensures Folded(t, i).JoinTerm? ==> Size(Folded(t, i).left) < Size(TermOf(t)) || Size(Folded(t, i).right) < Size(TermOf(t))
    decreases j
  {
    if j > 0 && !IsEnd(t) {
      FoldedStep(t, i);
      if lo + Pow2(j - 1) >= |leaves| {
        assert TermSteps(t, i) == [];
        FoldedIsSmall(t.left, j - 1, lo, leaves, i);
      } else if i < t.right.Lo() {
        assert TermSteps(t, i) == [TermStep(TermOf(t.right), false)];
      } else {
        assert TermSteps(t, i) == [TermStep(TermOf(t.left), true)];
      }
    }
  }

  /** A duplicated node is missing from the path, so the fold cannot reach its term. */
  lemma {:induction false} DuplicateFails(t: Tree, j: nat, lo: nat, leaves: seq<Hash>, i: nat)
    requires j > 0 && Shape(t, j, lo, leaves) && lo <= i <= t.Hi() && lo + Pow2(j - 1) >= |leaves|
    ensures Folded(t, i) != TermOf(t)
  {
    if !IsEnd(t) {
      FoldedStep(t, i);
      assert TermSteps(t, i) == [];
      FoldedIsSmall(t.left, j - 1, lo, leaves, i);
    }
  }

  /** A walk that turns right above the lowest node, with the leaf on the left, ends in the wrong half. */
  lemma {:induction false} WrongTurnFails(t: Tree, j: nat, lo: nat, leaves: seq<Hash>, i: nat)
    requires j > 1 && Shape(t, j, lo, leaves)
    requires lo <= i < lo + Pow2(j - 1) < |leaves| && i >= (t.l + t.r) / 2
    ensures Folded(t, i) != TermOf(t)
  {
    var mid := lo + Pow2(j - 1);
    FoldedStep(t, i);
    assert TermSteps(t, i) == [TermStep(TermOf(t.right), false)];
    FoldedOutside(t.right, j - 1, mid, leaves, i);
    var inner := t.left.right;
    var innerLo := lo + Pow2(j - 2);
    RightmostInRange(inner, j - 2, innerLo, leaves);
    RightmostInRange(t.right, j - 1, mid, leaves);
    assert Rightmost(TermOf(t.right)) == Rightmost(TermOf(t.right.right));
  }

  /** Folding the path gives the term of the node exactly under the arithmetic condition. */
  lemma {:induction false} FoldedIffWorks(t: Tree, j: nat, lo: nat, leaves: seq<Hash>, i: nat)
    requires Shape(t, j, lo, leaves) && lo <= i <= t.Hi()
    ensures Folded(t, i) == TermOf(t) <==> PathWorks(j, lo, |leaves|, i)
    decreases j
  {
    if j > 0 {
      var mid := lo + Pow2(j - 1);
      if mid >= |leaves| {
        DuplicateFails(t, j, lo, leaves, i);
      } else if i >= mid {
        FoldedStep(t, i);
        assert TermSteps(t, i) == [TermStep(TermOf(t.left), true)];
        FoldedIffWorks(t.right, j - 1, mid, leaves, i);
      } else if j > 1 && i >= (t.l + t.r) / 2 {
        WrongTurnFails(t, j, lo, leaves, i);
      } else {
        FoldedStep(t, i);
        assert TermSteps(t, i) == [TermStep(TermOf(t.right), false)];
        FoldedIffWorks(t.left, j - 1, lo, leaves, i);
      }
    }
  }

  // ----- The theorems -----

  predicate Subterm(a: Term, x: Term) {
    a == x || (x.JoinTerm? && (Subterm(a, x.left) || Subterm(a, x.right)))
  }

  /**
   The two terms do not collide: as leaves they hash alike only if they are the same
   leaf, as joins only if they join the same hashes, and a leaf never like a join.
   */
  predicate NoCollision(a: Term, b: Term, leaves: seq<Hash>) {
    Eval(a, leaves) == Eval(b, leaves) ==>
      match (a, b)
      case (LeafTerm(m), LeafTerm(n)) => m == n
      case (JoinTerm(al, ar), JoinTerm(bl, br)) => Eval(al, leaves) == Eval(bl, leaves) && Eval(ar, leaves) == Eval(br, leaves)
      case _ => false
  }

  /** Nothing that is hashed for `x` collides with anything that is hashed for `y`. */
  ghost predicate ToldApart(x: Term, y: Term, leaves: seq<Hash>) {
    forall a, b {:trigger Subterm(a, x), Subterm(b, y)} ::
      Subterm(a, x) && Subterm(b, y) ==> NoCollision(a, b, leaves)
  }

  lemma {:induction false} ChildrenToldApart(x: Term, y: Term, leaves: seq<Hash>)
    requires x.JoinTerm? && y.JoinTerm? && ToldApart(x, y, leaves)
    ensures ToldApart(x.left, y.left, leaves) && ToldApart(x.right, y.right, leaves)
  {
    forall a, b | Subterm(a, x.left) && Subterm(b, y.left) ensures NoCollision(a, b, leaves) {
      assert Subterm(a, x) && Subterm(b, y);
    }
    forall a, b | Subterm(a, x.right) && Subterm(b, y.right) ensures NoCollision(a, b, leaves) {
      assert Subterm(a, x) && Subterm(b, y);
    }
  }

  /** Without collisions among their parts, terms that hash alike are alike. */
  lemma {:induction false} EvalTellsApart(x: Term, y: Term, leaves: seq<Hash>)
    requires ToldApart(x, y, leaves) && Eval(x, leaves) == Eval(y, leaves)
    ensures x == y
  {
    assert Subterm(x, x) && Subterm(y, y);
    assert NoCollision(x, y, leaves);
    if x.JoinTerm? {
      ChildrenToldApart(x, y, leaves);
      EvalTellsApart(x.left, y.left, leaves);
      EvalTellsApart(x.right, y.right, leaves);
    }
  }

  /** No hash of the tree collides with one that is computed when folding the path of leaf `i`. */
  ghost predicate FoldToldApart(t: Tree, i: nat, leaves: seq<Hash>) {
    ToldApart(Folded(t, i), TermOf(t), leaves)
  }

  /** Where the condition holds, the path folds to the root under every hash function. */
  lemma {:induction false} PathFoldsToRoot(t: Tree, j: nat, leaves: seq<Hash>, i: nat)
    requires Shape(t, j, 0, leaves) && RootLevel(j, |leaves|) && i < |leaves|
    requires PathWorks(j, 0, |leaves|, i)
    ensures Fold(leaves[i], Path(t, i)) == t.hash
  {
    FoldIsFolded(t, j, 0, leaves, i);
    FoldedIffWorks(t, j, 0, leaves, i);
    EvalTree(t, j, 0, leaves);
  }

  /** Without collisions it folds to the root exactly where the condition holds. */
  lemma {:induction false} PathFoldsExactly(t: Tree, j: nat, leaves: seq<Hash>, i: nat)
    requires Shape(t, j, 0, leaves) && RootLevel(j, |leaves|) && i < |leaves|
    requires FoldToldApart(t, i, leaves)
    ensures Fold(leaves[i], Path(t, i)) == t.hash <==> PathWorks(j, 0, |leaves|, i)
  {
    FoldIsFolded(t, j, 0, leaves, i);
    FoldedIffWorks(t, j, 0, leaves, i);
    EvalTree(t, j, 0, leaves);
    if Fold(leaves[i], Path(t, i)) == t.hash {
      EvalTellsApart(Folded(t, i), TermOf(t), leaves);
    }
  }

  lemma {:induction false} Pow2Even(j: nat)
    requires j > 0
    ensures Pow2(j) % 2 == 0
  {
    var half := Pow2(j - 1);
    assert Pow2(j) == 2 * half;
    assert (2 * half) % 2 == 0;
  }

  lemma {:induction false} WorksInFullNode(j: nat, lo: nat, n: nat, i: nat)
    requires lo % 2 == 0 && lo + Pow2(j) <= n && lo <= i < lo + Pow2(j)
    ensures PathWorks(j, lo, n, i) <==> i % 2 == 0 || i == lo + Pow2(j) - 1
    decreases j
  {
    if j == 1 {
      assert Pow2(1) == 2 * Pow2(0);
    } else if j > 1 {
      Pow2Even(j - 1);
      var mid := lo + Pow2(j - 1);
      if i < mid {
        WorksInFullNode(j - 1, lo, n, i);
      } else {
        WorksInFullNode(j - 1, mid, n, i);
      }
    }
  }

  /** For a power of two the path works exactly for the even indices and the last one. */
  lemma {:induction false} PowerOfTwoDomain(j: nat, i: nat)
    requires i < Pow2(j)
    ensures PathWorks(j, 0, Pow2(j), i) <==> i % 2 == 0 || i == Pow2(j) - 1
  {
    WorksInFullNode(j, 0, Pow2(j), i);
  }

  lemma {:induction false} Pow2Grows(i: nat, j: nat)
    requires i < j
    ensures 2 * Pow2(i) <= Pow2(j)
    decreases j
  {
    if i < j - 1 {
      Pow2Grows(i, j - 1);
    }
  }

  /** With 2^k leaves, every even index and the last one have a path that folds to the root. */
  lemma {:induction false} PowerOfTwoFolds(t: Tree, j: nat, leaves: seq<Hash>, k: nat, i: nat)
    requires Shape(t, j, 0, leaves) && RootLevel(j, |leaves|) && |leaves| == Pow2(k) && i < |leaves|
    requires i % 2 == 0 || i == |leaves| - 1
    ensures Fold(leaves[i], Path(t, i)) == t.hash
  {
    if j < k {
      Pow2Grows(j, k);
    } else if k < j {
      if k < j - 1 {
        Pow2Grows(k, j - 1);
      }
    }
    PowerOfTwoDomain(k, i);
    PathFoldsToRoot(t, j, leaves, i);
  }

  lemma {:induction false} SmallPowers()
    ensures Pow2(0) == 1 && Pow2(1) == 2 && Pow2(2) == 4
  {
    assert Pow2(1) == 2 * Pow2(0);
    assert Pow2(2) == 2 * Pow2(1);
  }

  /** Two leaves below a node of level 1. */
  lemma {:induction false} PairOfLeaves(t: Tree, lo: nat, leaves: seq<Hash>)
    requires Shape(t, 1, lo, leaves) && lo + 1 < |leaves|
    ensures t == Node(lo, lo + 1, Leaf(lo, leaves[lo]), Leaf(lo + 1, leaves[lo + 1]), Join(leaves[lo], leaves[lo + 1]))
  {
    SmallPowers();
    assert Shape(t.left, 0, lo, leaves) && Shape(t.right, 0, lo + 1, leaves);
  }

  /** The last of an odd number of leaves is paired with itself, under its own range. */
  lemma {:induction false} DoubledLeaf(t: Tree, lo: nat, leaves: seq<Hash>)
    requires Shape(t, 1, lo, leaves) && lo + 1 == |leaves|
    ensures t == Node(lo, lo, Leaf(lo, leaves[lo]), Leaf(lo, leaves[lo]), Join(leaves[lo], leaves[lo]))
  {
    SmallPowers();
    assert Shape(t.left, 0, lo, leaves);
  }

  lemma {:induction false} FoldTwo(leaf: Hash, a: PathStep, b: PathStep)
    requires !a.left && !b.left
    ensures Fold(leaf, [a, b]) == Join(Join(leaf, a.hash), b.hash)
  {
    assert [a, b][1..] == [b];
    FoldOne(Join(leaf, a.hash), b);
  }

  lemma {:induction false} FoldOne(leaf: Hash, a: PathStep)
    ensures Fold(leaf, [a]) == if a.left then Join(a.hash, leaf) else Join(leaf, a.hash)
  {
    assert [a][1..] == [];
  }

  /** The search for leaf 1 of four goes right, and its fold joins it with leaf 3. */
  lemma {:induction false} FourLeavesFail(t: Tree, leaves: seq<Hash>)
    requires |leaves| == 4 && Shape(t, 2, 0, leaves)
    ensures Fold(leaves[1], Path(t, 1)) == Join(Join(leaves[1], leaves[3]), t.right.hash)
    ensures FoldToldApart(t, 1, leaves) ==> Fold(leaves[1], Path(t, 1)) != t.hash
  {
    SmallPowers();
    PairOfLeaves(t.left, 0, leaves);
    PairOfLeaves(t.right, 2, leaves);
    assert Path(t.right, 1) == [PathStep(leaves[3], false)];
    assert Path(t, 1) == [PathStep(leaves[3], false), PathStep(t.right.hash, false)];
    FoldTwo(leaves[1], PathStep(leaves[3], false), PathStep(t.right.hash, false));
    if FoldToldApart(t, 1, leaves) {
      PathFoldsExactly(t, 2, leaves, 1);
    }
  }

  /** With three leaves, leaf 1 loses its own pair and leaf 2 its doubling. */
  lemma {:induction false} ThreeLeavesFold(t: Tree, leaves: seq<Hash>)
    requires |leaves| == 3 && Shape(t, 2, 0, leaves)
    ensures Fold(leaves[1], Path(t, 1)) == Join(leaves[1], t.right.hash)
    ensures Fold(leaves[2], Path(t, 2)) == Join(t.left.hash, leaves[2])
    ensures t.hash == Join(t.left.hash, Join(leaves[2], leaves[2]))
  {
    SmallPowers();
    PairOfLeaves(t.left, 0, leaves);
    DoubledLeaf(t.right, 2, leaves);
    assert Path(t, 1) == [PathStep(t.right.hash, false)];
    FoldOne(leaves[1], PathStep(t.right.hash, false));
    assert Path(t, 2) == [PathStep(t.left.hash, true)];
    FoldOne(leaves[2], PathStep(t.left.hash, true));
  }

  lemma {:induction false} ThreeLeavesWork(i: nat)
    requires i < 3
    ensures PathWorks(2, 0, 3, i) <==> i == 0
  {
    SmallPowers();
  }

  /** So with three leaves exactly leaf 0 folds to the root. */
  lemma {:induction false} ThreeLeavesFail(t: Tree, leaves: seq<Hash>, i: nat)
    requires |leaves| == 3 && Shape(t, 2, 0, leaves) && i < 3
    requires FoldToldApart(t, i, leaves)
    ensures Fold(leaves[i], Path(t, i)) == t.hash <==> i == 0
  {
    SmallPowers();
    assert RootLevel(2, 3);
    ThreeLeavesWork(i);
    PathFoldsExactly(t, 2, leaves, i);
  }

  // ----- What a root stands for -----

  /** The string that is hashed for a node. */
  function HashedFor(t: Tree, dataSeq: seq<Bytes>): Bytes {
    match t
    case Leaf(pos, _) => if pos < |dataSeq| then dataSeq[pos] else []
    case Node(_, _, left, right, _) => left.hash.bytes + right.hash.bytes
  }

  /** No two different strings hashed for nodes in the same place of the two trees have the same `Sha256`. */
  ghost predicate NoShaCollision(a: Tree, b: Tree, da: seq<Bytes>, db: seq<Bytes>) {
    && (Sha256(HashedFor(a, da)) == Sha256(HashedFor(b, db)) ==> HashedFor(a, da) == HashedFor(b, db))
    && (a.Node? && b.Node? ==> NoShaCollision(a.left, b.left, da, db) && NoShaCollision(a.right, b.right, da, db))
  }

  /** Hashes in a tree are 32 bytes long. */
  lemma {:induction false} TreeHashLength(t: Tree, j: nat, lo: nat, leaves: seq<Hash>, dataSeq: seq<Bytes>)
    requires Shape(t, j, lo, leaves) && leaves == LeafHashes(dataSeq)
    ensures t.hash == Sha256(HashedFor(t, dataSeq)) && |t.hash.bytes| == 32
  {
  }

  lemma {:induction false} NodeLength(t: Tree, j: nat, lo: nat, leaves: seq<Hash>, dataSeq: seq<Bytes>)
    requires j > 0 && Shape(t, j, lo, leaves) && leaves == LeafHashes(dataSeq)
    ensures |t.left.hash.bytes| == 32 && |t.right.hash.bytes| == 32
  {
    TreeHashLength(t.left, j - 1, lo, leaves, dataSeq);
    if lo + Pow2(j - 1) < |leaves| {
      TreeHashLength(t.right, j - 1, lo + Pow2(j - 1), leaves, dataSeq);
    }
  }

  lemma {:induction false} HalvesAreEqual(a: Bytes, b: Bytes, c: Bytes, d: Bytes)
    requires a + b == c + d && |a| == |c|
    ensures a == c && b == d
  {
    assert (a + b)[..|a|] == a && (c + d)[..|c|] == c && (a + b)[|a|..] == b && (c + d)[|c|..] == d;
  }

  /** Equal nodes in the same place stand for equal leaves. */
  lemma {:induction false} EqualNodesEqualLeaves(
      a: Tree, b: Tree, j: nat, lo: nat, la: seq<Hash>, lb: seq<Hash>, da: seq<Bytes>, db: seq<Bytes>, i: nat)
    requires la == LeafHashes(da) && lb == LeafHashes(db) && |da| == |db|
    requires Shape(a, j, lo, la) && Shape(b, j, lo, lb) && a.hash == b.hash && NoShaCollision(a, b, da, db)
    requires lo <= i < lo + Pow2(j) && i < |da|
    ensures da[i] == db[i]
    decreases j
  {
    TreeHashLength(a, j, lo, la, da);
    TreeHashLength(b, j, lo, lb, db);
    if j > 0 {
      NodeLength(a, j, lo, la, da);
      NodeLength(b, j, lo, lb, db);
      HalvesAreEqual(a.left.hash.bytes, a.right.hash.bytes, b.left.hash.bytes, b.right.hash.bytes);
      var mid := lo + Pow2(j - 1);
      if i < mid {
        EqualNodesEqualLeaves(a.left, b.left, j - 1, lo, la, lb, da, db, i);
      } else {
        EqualNodesEqualLeaves(a.right, b.right, j - 1, mid, la, lb, da, db, i);
      }
    }
  }

  /** Without a collision of `Sha256` trees over equally many leaves have one root only if the leaves are the same. */
  lemma {:induction false} EqualRootsEqualLeaves(a: Tree, b: Tree, j: nat, da: seq<Bytes>, db: seq<Bytes>)
    requires |da| == |db| && RootLevel(j, |da|)
    requires Shape(a, j, 0, LeafHashes(da)) && Shape(b, j, 0, LeafHashes(db))
    requires a.hash == b.hash && NoShaCollision(a, b, da, db)
    ensures da == db
  {
    forall i | 0 <= i < |da| ensures da[i] == db[i] {
      EqualNodesEqualLeaves(a, b, j, 0, LeafHashes(da), LeafHashes(db), da, db, i);
    }
  }

  // ----- Relayed transactions -----

  function EncodedTxns(txns: seq<Txn>): (dataSeq: seq<Bytes>)
    ensures |dataSeq| == |txns| && forall i :: 0 <= i < |txns| ==> dataSeq[i] == EncodeTxn(txns[i])
  {
    seq(|txns|, i requires 0 <= i < |txns| => EncodeTxn(txns[i]))
  }

  method RelayVerify(t: Txn, merkleRoot: Hash, path: seq<PathStep>) returns (ok: bool)
    ensures ok <==> Fold(TxnHash(t), path) == merkleRoot
  {
    var hash := FoldPath(TxnHash(t), path);
    ok := merkleRoot == hash;
  }

  /** A transaction relayed with its path is accepted wherever the path works, and without collisions only there. */
  lemma {:induction false} RelayedIsAccepted(txns: seq<Txn>, t: Tree, j: nat, i: nat)
    requires i < |txns| && Shape(t, j, 0, LeafHashes(EncodedTxns(txns))) && RootLevel(j, |txns|)
    ensures PathWorks(j, 0, |txns|, i) ==> Fold(TxnHash(txns[i]), Path(t, i)) == t.hash
    ensures FoldToldApart(t, i, LeafHashes(EncodedTxns(txns))) ==>
      (Fold(TxnHash(txns[i]), Path(t, i)) == t.hash <==> PathWorks(j, 0, |txns|, i))
  {
    var leaves := LeafHashes(EncodedTxns(txns));
    assert leaves[i] == LeafHash(EncodeTxn(txns[i])) == TxnHash(txns[i]);
    if PathWorks(j, 0, |txns|, i) {
      PathFoldsToRoot(t, j, leaves, i);
    }
    if FoldToldApart(t, i, leaves) {
      PathFoldsExactly(t, j, leaves, i);
    }
  }
}
