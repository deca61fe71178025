/**
 * The static operations of the Merkle tree: building a tree from transactions
 * or from bare hashes, the completeness check, loading a transaction into a
 * skeleton, finding the root-to-leaf path of a hash, producing the audit proof
 * for a transaction and verifying such a proof against a root hash.
 *
 * The hash primitive is not part of the model: `leafHash` stands for the
 * transaction digest and `combine` for the digest of two child hashes, both
 * passed in by the caller.
 */
module MerkelTree {
  import opened Wrappers
  import opened MerkelModel
  import opened MerkelNodes

  /** The exceptions the operations let escape. */
  datatype Failure = IllegalArgument | NullPointer | IndexOutOfBounds

  /** The leaves of a full tree: each transaction in a leaf keyed by its digest. */
  function FullLeaves<T>(transactions: seq<T>, leafHash: T -> Hash): seq<Tree<T>>
  {
    seq(|transactions|, i requires 0 <= i < |transactions| =>
      Node(Nil, Nil, leafHash(transactions[i]), Some(transactions[i])))
  }

  /** The leaves of a skeleton tree: each hash in a leaf without a transaction. */
  function SkeletonLeaves<T>(hashes: seq<Hash>): seq<Tree<T>>
  {
    seq(|hashes|, i requires 0 <= i < |hashes| => Node(Nil, Nil, hashes[i], None))
  }

  /** The trees of a and b share no node. */
  ghost predicate Apart<T>(a: MerkelNode<T>, b: MerkelNode<T>)
  {
    a.Repr !! b.Repr
  }

  /** No two of the nodes share a node of their trees. */
  ghost predicate PairwiseDisjoint<T>(nodes: seq<MerkelNode<T>>)
  {
    forall i, j {:trigger Apart(nodes[i], nodes[j])} :: 0 <= i < j < |nodes| ==> Apart(nodes[i], nodes[j])
  }

  /** The nodes of each tree hold the transactions they were built with. */
  ghost predicate AllAsBuilt<T>(nodes: seq<MerkelNode<T>>)
    reads set i, n | 0 <= i < |nodes| && n in nodes[i].Repr :: n
  {
    forall i :: 0 <= i < |nodes| ==> AsBuilt(nodes[i].Repr)
  }

  /** The nodes are valid and were built as the trees of `level`, element by element. */
  ghost predicate Denotes<T>(nodes: seq<MerkelNode<T>>, level: seq<Tree<T>>)
  {
    |nodes| == |level| &&
    forall i :: 0 <= i < |nodes| ==> nodes[i].Valid() && nodes[i].Initial == level[i]
  }

  /** Every node the trees of `nodes` own. */
  ghost function Footprint<T>(nodes: seq<MerkelNode<T>>): set<MerkelNode<T>>
  {
    if nodes == [] then {} else Footprint(nodes[..|nodes| - 1]) + nodes[|nodes| - 1].Repr
  }

  lemma FootprintAppend<T>(nodes: seq<MerkelNode<T>>, n: MerkelNode<T>)
    ensures Footprint(nodes + [n]) == Footprint(nodes) + n.Repr
  {
    assert (nodes + [n])[..|nodes|] == nodes;
  }

  lemma {:induction false} FootprintHas<T>(nodes: seq<MerkelNode<T>>, i: nat)
    requires i < |nodes|
    ensures nodes[i].Repr <= Footprint(nodes)
    decreases |nodes|
  {
    if i < |nodes| - 1 {
      FootprintHas(nodes[..|nodes| - 1], i);
    }
  }

  /** What is covered by nodes made in two rounds and the original ones. */
  lemma CoverTransitive<T>(a: set<MerkelNode<T>>, m1: set<MerkelNode<T>>, b: set<MerkelNode<T>>,
                           m0: set<MerkelNode<T>>, c: set<MerkelNode<T>>)
    requires a <= m1 + b && b <= m0 + c
    ensures a <= m0 + m1 + c
  {
  }

  /**
   * A parent of children `index` and `index + 1` (or of child `index` and a
   * childless pad) adds only the new nodes to what the parents own.
   */
  lemma ParentCovered<T>(parents: seq<MerkelNode<T>>, parent: MerkelNode<T>, children: seq<MerkelNode<T>>,
                         index: nat, made: set<MerkelNode<T>>, newNodes: set<MerkelNode<T>>)
    requires index < |children| && Footprint(parents) <= made + Footprint(children)
    requires parent.Valid() && parent in newNodes && parent.left == children[index] && parent.right != null
    requires (index + 1 < |children| && parent.right == children[index + 1]) ||
             (parent.right.IsLeaf() && parent.right in newNodes)
    ensures Footprint(parents + [parent]) <= made + newNodes + Footprint(children)
  {
    FootprintAppend(parents, parent);
    FootprintHas(children, index);
    if index + 1 < |children| && parent.right == children[index + 1] {
      FootprintHas(children, index + 1);
    }
  }

  /** The children from `index` on: those `buildTree`'s inner loop has not paired yet. */
  function Unpaired<T>(children: seq<MerkelNode<T>>, index: nat): seq<MerkelNode<T>>
  {
    if index <= |children| then children[index..] else []
  }

  /**
   * `buildTree`: reduce the level pairwise, neighbour with neighbour, until one
   * node is left.
   */
  method BuildTree<T>(children: seq<MerkelNode<T>>, ghost level: seq<Tree<T>>, combine: Combiner)
    returns (root: MerkelNode<T>, ghost made: set<MerkelNode<T>>)
    requires |children| >= 1
    requires Denotes(children, level) && PairwiseDisjoint(children) && AllAsBuilt(children)
    ensures root.Valid() && AsBuilt(root.Repr)
    ensures root.Initial == Build(level, combine)
    ensures fresh(made) && root.Repr <= made + Footprint(children)
  {
    var current := children;
    ghost var currentLevel := level;
    made := {};
    while |current| != 1
      invariant |current| >= 1
      invariant Denotes(current, currentLevel) && PairwiseDisjoint(current) && AllAsBuilt(current)
      invariant Build(currentLevel, combine) == Build(level, combine)
      invariant forall o :: o in made ==> !old(allocated(o))
      invariant Footprint(current) <= made + Footprint(children)
      decreases |current|
    {
      ghost var pairMade;
      ghost var before := current;
      current, pairMade := PairNeighbours(current, currentLevel, combine);
      currentLevel := Level(currentLevel, combine);
      CoverTransitive(Footprint(current), pairMade, Footprint(before), made, Footprint(children));
      made := made + pairMade;
    }
    root := current[0];
    assert current == [] + [root];
    FootprintAppend([], root);
  }

  /**
   * One pass of `buildTree`'s inner loop: a parent for each pair of neighbours,
   * and for an unpaired last node a parent whose right child is a fresh
   * childless node carrying the same hash.
   */
  method PairNeighbours<T>(children: seq<MerkelNode<T>>, ghost level: seq<Tree<T>>, combine: Combiner)
    returns (parents: seq<MerkelNode<T>>, ghost made: set<MerkelNode<T>>)
    requires Denotes(children, level) && PairwiseDisjoint(children) && AllAsBuilt(children)
    ensures Denotes(parents, Level(level, combine)) && PairwiseDisjoint(parents) && AllAsBuilt(parents)
    ensures forall o :: o in made ==> !old(allocated(o))
    ensures Footprint(parents) <= made + Footprint(children)
  {
    parents := [];
    made := {};
    var index, length := 0, |children|;
    UnpairedAll(children, level, combine);
    while index < length
      invariant 0 <= index <= length + 1 && index == 2 * |parents|
      invariant PairsBuilt(parents, level, combine)
      invariant PairwiseDisjoint(parents + Unpaired(children, index))
      invariant AllAsBuilt(parents + Unpaired(children, index))
      invariant forall o :: o in made ==> !old(allocated(o))
      invariant Footprint(parents) <= made + Footprint(children)
    {
      parents, index, made := PairNext(parents, children, index, level, combine, made);
    }
    UnpairedNone(parents, children, index);
    PairsBuiltLevel(parents, level, combine);
  }

  /** The body of `buildTree`'s inner loop: the parent of the pair at `index`, and the index after it. */
  method PairNext<T>(parents: seq<MerkelNode<T>>, children: seq<MerkelNode<T>>, index: nat,
                     ghost level: seq<Tree<T>>, combine: Combiner, ghost made: set<MerkelNode<T>>)
    returns (next: seq<MerkelNode<T>>, nextIndex: nat, ghost nextMade: set<MerkelNode<T>>)
    requires index < |children| && index == 2 * |parents| && Denotes(children, level)
    requires PairsBuilt(parents, level, combine)
    requires PairwiseDisjoint(parents + Unpaired(children, index))
    requires AllAsBuilt(parents + Unpaired(children, index))
    requires Footprint(parents) <= made + Footprint(children)
    ensures nextIndex == index + 2 && |next| == |parents| + 1
    ensures PairsBuilt(next, level, combine)
    ensures PairwiseDisjoint(next + Unpaired(children, nextIndex))
    ensures AllAsBuilt(next + Unpaired(children, nextIndex))
    ensures made <= nextMade && fresh(nextMade - made)
    ensures Footprint(next) <= nextMade + Footprint(children)
  {
    var parent;
    ghost var newNodes;
    parent, newNodes := MakeParentAt(parents, children, index, level, combine);
    ParentCovered(parents, parent, children, index, made, newNodes);
    next, nextIndex, nextMade := parents + [parent], index + 2, made + newNodes;
  }

  /**
   * The parent of `children[index]` and its right neighbour, or of the last
   * child and a fresh pad: it extends the parents built so far, and the pool of
   * parents and unpaired children stays disjoint.
   */
  method MakeParentAt<T>(parents: seq<MerkelNode<T>>, children: seq<MerkelNode<T>>, index: nat,
                         ghost level: seq<Tree<T>>, combine: Combiner)
    returns (parent: MerkelNode<T>, ghost made: set<MerkelNode<T>>)
    requires index < |children| && index == 2 * |parents| && Denotes(children, level)
    requires PairsBuilt(parents, level, combine)
    requires PairwiseDisjoint(parents + Unpaired(children, index))
    requires AllAsBuilt(parents + Unpaired(children, index))
    ensures PairsBuilt(parents + [parent], level, combine)
    ensures PairwiseDisjoint(parents + [parent] + Unpaired(children, index + 2))
    ensures AllAsBuilt(parents + [parent] + Unpaired(children, index + 2))
    ensures fresh(made) && parent.Valid() && parent in made
    ensures parent.left == children[index] && parent.right != null
    ensures (index + 1 < |children| && parent.right == children[index + 1]) ||
            (parent.right.IsLeaf() && parent.right in made)
  {
    var leftChild := children[index];
    var rightChild: MerkelNode?<T> := null;
    if index + 1 < |children| {
      rightChild := children[index + 1];
    }
    UnpairedSplit(parents, children, index, leftChild, rightChild);
    parent, made := MakeParent(leftChild, rightChild, combine, parents, Unpaired(children, index + 2));
    PairsBuiltAppend(parents, parent, children, level, combine, leftChild, rightChild);
  }

  /** Before the first pass every child is unpaired. */
  lemma UnpairedAll<T>(children: seq<MerkelNode<T>>, level: seq<Tree<T>>, combine: Combiner)
    requires Denotes(children, level)
    ensures PairsBuilt([], level, combine)
    ensures [] + Unpaired(children, 0) == children
  {
  }

  /** Once the index has run past the end no child is left unpaired. */
  lemma UnpairedNone<T>(parents: seq<MerkelNode<T>>, children: seq<MerkelNode<T>>, index: nat)
    requires index >= |children|
    ensures parents + Unpaired(children, index) == parents
  {
  }

  /** The unpaired children split into the next one or two and the rest. */
  lemma UnpairedSplit<T>(parents: seq<MerkelNode<T>>, children: seq<MerkelNode<T>>, index: nat,
                         l: MerkelNode<T>, r: MerkelNode?<T>)
    requires index < |children| && l == children[index]
    requires r == if index + 1 < |children| then children[index + 1] else null
    ensures parents + Unpaired(children, index) ==
      parents + [l] + (if r != null then [r] else []) + Unpaired(children, index + 2)
  {
  }

  /** Each parent is valid and was built over the pair of `level` at twice its position. */
  ghost predicate PairsBuilt<T>(parents: seq<MerkelNode<T>>, level: seq<Tree<T>>, combine: Combiner)
  {
    AllNodes(level) &&
    forall j :: 0 <= j < |parents| ==>
      2 * j < |level| && parents[j].Valid() &&
      parents[j].Initial == Parent(level[2 * j], if 2 * j + 1 < |level| then level[2 * j + 1] else Pad(level[2 * j]), combine)
  }

  /** A parent built over the next pair extends the parents built so far. */
  lemma PairsBuiltAppend<T>(parents: seq<MerkelNode<T>>, parent: MerkelNode<T>,
                            children: seq<MerkelNode<T>>, level: seq<Tree<T>>, combine: Combiner,
                            l: MerkelNode<T>, r: MerkelNode?<T>)
    requires Denotes(children, level) && PairsBuilt(parents, level, combine)
    requires 2 * |parents| < |children| && l == children[2 * |parents|]
    requires r == if 2 * |parents| + 1 < |children| then children[2 * |parents| + 1] else null
    requires parent.Valid()
    requires parent.Initial == Parent(l.Initial, if r != null then r.Initial else Pad(l.Initial), combine)
    ensures PairsBuilt(parents + [parent], level, combine)
  {
  }

  /** Parents built over every pair of `level` are the nodes of the next level. */
  lemma PairsBuiltLevel<T>(parents: seq<MerkelNode<T>>, level: seq<Tree<T>>, combine: Combiner)
    requires PairsBuilt(parents, level, combine) && |level| <= 2 * |parents| <= |level| + 1
    ensures Denotes(parents, Level(level, combine))
  {
    forall j | 0 <= j < |parents|
      ensures parents[j].Initial == Level(level, combine)[j]
    {
      LevelAt(level, combine, j);
    }
  }

  /**
   * One parent of `buildTree`: over a node and its right neighbour, or, when
   * the node has none, over the node and a fresh childless copy of its hash.
   * The parent takes the place of its children among the other trees `before`
   * and `after`, which it shares no node with.
   */
  method MakeParent<T>(leftChild: MerkelNode<T>, rightNeighbour: MerkelNode?<T>, combine: Combiner,
                       ghost before: seq<MerkelNode<T>>, ghost after: seq<MerkelNode<T>>)
    returns (parent: MerkelNode<T>, ghost made: set<MerkelNode<T>>)
    requires leftChild.Valid() && (rightNeighbour != null ==> rightNeighbour.Valid())
    requires PairwiseDisjoint(before + [leftChild] + (if rightNeighbour != null then [rightNeighbour] else []) + after)
    requires AllAsBuilt(before + [leftChild] + (if rightNeighbour != null then [rightNeighbour] else []) + after)
    ensures parent.Valid()
    ensures parent.Initial == Parent(leftChild.Initial,
      if rightNeighbour != null then rightNeighbour.Initial else Pad(leftChild.Initial), combine)
    ensures PairwiseDisjoint(before + [parent] + after) && AllAsBuilt(before + [parent] + after)
    ensures fresh(made) && parent in made && parent.left == leftChild
    ensures rightNeighbour != null ==> parent.right == rightNeighbour
    ensures rightNeighbour == null ==> parent.right != null && parent.right in made && parent.right.IsLeaf()
  {
    ghost var others := before + after;
    PoolParts(before, leftChild, rightNeighbour, after);
    var rightChild := rightNeighbour;
    if rightChild == null {
      rightChild := new MerkelNode(null, null, leftChild.hash);
    }
    parent := new MerkelNode(leftChild, rightChild, combine(leftChild.hash, rightChild.hash));
    made := if rightNeighbour == null then {parent, rightChild} else {parent};
    forall i | 0 <= i < |others|
      ensures Apart(others[i], parent)
    {
      assert Apart(others[i], leftChild) && Apart(others[i], rightChild);
    }
    PoolJoin(before, parent, after);
  }

  /** What a pool with the two children in it says about the children and the other trees. */
  lemma PoolParts<T>(before: seq<MerkelNode<T>>, l: MerkelNode<T>, r: MerkelNode?<T>, after: seq<MerkelNode<T>>)
    requires PairwiseDisjoint(before + [l] + (if r != null then [r] else []) + after)
    requires AllAsBuilt(before + [l] + (if r != null then [r] else []) + after)
    ensures r != null ==> Apart(l, r)
    ensures PairwiseDisjoint(before + after) && AllAsBuilt(before + after)
    ensures AsBuilt(l.Repr) && (r != null ==> AsBuilt(r.Repr))
    ensures forall i :: 0 <= i < |before + after| ==>
      Apart((before + after)[i], l) && (r != null ==> Apart((before + after)[i], r))
  {
    var pool := before + [l] + (if r != null then [r] else []) + after;
    var gap := if r != null then 2 else 1;
    assert pool[|before|] == l;
    assert r != null ==> pool[|before| + 1] == r && Apart(pool[|before|], pool[|before| + 1]);
    // position in the pool of the i-th of the other trees
    assert forall i :: 0 <= i < |before| + |after| ==>
      (before + after)[i] == pool[if i < |before| then i else i + gap];
    forall i | 0 <= i < |before + after|
      ensures Apart((before + after)[i], l) && (r != null ==> Apart((before + after)[i], r))
    {
      if i < |before| {
        assert Apart(pool[i], pool[|before|]);
        assert r != null ==> Apart(pool[i], pool[|before| + 1]);
      } else {
        assert Apart(pool[|before|], pool[i + gap]);
        assert r != null ==> Apart(pool[|before| + 1], pool[i + gap]);
      }
    }
    forall i, j | 0 <= i < j < |before + after|
      ensures Apart((before + after)[i], (before + after)[j])
    {
      var pi := if i < |before| then i else i + gap;
      var pj := if j < |before| then j else j + gap;
      assert Apart(pool[pi], pool[pj]);
    }
    assert AsBuilt(pool[|before|].Repr);
    assert r != null ==> AsBuilt(pool[|before| + 1].Repr);
    forall i | 0 <= i < |before + after|
      ensures AsBuilt((before + after)[i].Repr)
    {
      var pi := if i < |before| then i else i + gap;
      assert AsBuilt(pool[pi].Repr);
    }
  }

  /** Putting a tree apart from all the others between `before` and `after` keeps the pool disjoint. */
  lemma PoolJoin<T>(before: seq<MerkelNode<T>>, n: MerkelNode<T>, after: seq<MerkelNode<T>>)
    requires PairwiseDisjoint(before + after) && AllAsBuilt(before + after)
    requires AsBuilt(n.Repr)
    requires forall i :: 0 <= i < |before + after| ==> Apart((before + after)[i], n)
    ensures PairwiseDisjoint(before + [n] + after) && AllAsBuilt(before + [n] + after)
  {
    var pool := before + [n] + after;
    assert forall i :: 0 <= i < |pool| && i != |before| ==>
      pool[i] == (before + after)[if i < |before| then i else i - 1];
    forall i, j | 0 <= i < j < |pool|
      ensures Apart(pool[i], pool[j])
    {
      if j == |before| {
        assert Apart((before + after)[i], n);
      } else if i == |before| {
        assert Apart((before + after)[j - 1], n);
      } else {
        var oi := if i < |before| then i else i - 1;
        var oj := if j < |before| then j else j - 1;
        assert Apart((before + after)[oi], (before + after)[oj]);
      }
    }
    forall i | 0 <= i < |pool|
      ensures AsBuilt(pool[i].Repr)
    {
      if i != |before| {
        assert AsBuilt((before + after)[if i < |before| then i else i - 1].Repr);
      }
    }
  }

  /**
   * `generateFullTree`: a tree whose leaves hold the given transactions, in
   * order. Refused with IllegalArgument unless the count is a power of two.
   */
  method GenerateFullTree<T>(transactions: seq<T>, leafHash: T -> Hash, combine: Combiner)
    returns (r: Result<MerkelNode<T>, Failure>)
    ensures r.Err? <==> !IsPowerOfTwo(|transactions|)
    ensures r.Err? ==> r.error == IllegalArgument
    ensures r.Ok? ==> r.value.Valid() && fresh(r.value.Repr)
    ensures r.Ok? ==> r.value.Model() == Build(FullLeaves(transactions, leafHash), combine)
    ensures r.Ok? ==> Leaves(r.value.Model()) == FullLeaves(transactions, leafHash)
    ensures r.Ok? ==> Perfect(r.value.Model(), Log2(|transactions|))
    ensures r.Ok? ==> HashConsistent(r.value.Model(), combine)
    ensures r.Ok? ==> IsComplete(r.value)
  {
    var len := |transactions|;
    if !IsLeafCount(len) {
      return Err(IllegalArgument);
    }
    ghost var leaves := FullLeaves(transactions, leafHash);
    ghost var leafNodes, innerNodes;
    var childNodes, root;
    childNodes, leafNodes := LoadedLeaves(transactions, leafHash);
    root, innerNodes := BuildTree(childNodes, leaves, combine);
    AsBuiltModel(root);
    FullTreeFacts(transactions, leafHash, combine);
    return Ok(root);
  }

  /**
   * `generateEmptyTree`: a skeleton whose leaves carry the given hashes, in
   * order, and no transactions. Refused with IllegalArgument unless the count
   * is a power of two.
   */
  method GenerateEmptyTree<T>(hashes: seq<Hash>, combine: Combiner)
    returns (r: Result<MerkelNode<T>, Failure>)
    ensures r.Err? <==> !IsPowerOfTwo(|hashes|)
    ensures r.Err? ==> r.error == IllegalArgument
    ensures r.Ok? ==> r.value.Valid() && fresh(r.value.Repr)
    ensures r.Ok? ==> r.value.Model() == Build(SkeletonLeaves(hashes), combine)
    ensures r.Ok? ==> Leaves(r.value.Model()) == SkeletonLeaves(hashes)
    ensures r.Ok? ==> Perfect(r.value.Model(), Log2(|hashes|))
    ensures r.Ok? ==> HashConsistent(r.value.Model(), combine)
    ensures r.Ok? ==> !IsComplete(r.value)
  {
    var len := |hashes|;
    if !IsLeafCount(len) {
      return Err(IllegalArgument);
    }
    ghost var leaves: seq<Tree<T>> := SkeletonLeaves(hashes);
    ghost var leafNodes, innerNodes;
    var childNodes, root;
    childNodes, leafNodes := SkeletonLeafNodes(hashes);
    root, innerNodes := BuildTree(childNodes, leaves, combine);
    AsBuiltModel(root);
    SkeletonTreeFacts<T>(hashes, combine);
    return Ok(root);
  }

  /** The first loop of `generateFullTree`: one leaf node per transaction, in order. */
  method LoadedLeaves<T>(transactions: seq<T>, leafHash: T -> Hash)
    returns (childNodes: seq<MerkelNode<T>>, ghost made: set<MerkelNode<T>>)
    ensures Denotes(childNodes, FullLeaves(transactions, leafHash))
    ensures PairwiseDisjoint(childNodes) && AllAsBuilt(childNodes)
    ensures fresh(made) && Footprint(childNodes) <= made
  {
    ghost var leaves := FullLeaves(transactions, leafHash);
    childNodes, made := [], {};
    for i := 0 to |transactions|
      invariant Denotes(childNodes, leaves[..i]) && PairwiseDisjoint(childNodes) && AllAsBuilt(childNodes)
      invariant forall o :: o in made ==> !old(allocated(o))
      invariant Footprint(childNodes) <= made
    {
      var leaf := LoadedLeaf(transactions[i], leafHash, childNodes);
      DenotesAppend(childNodes, leaf, leaves, i);
      FootprintAppend(childNodes, leaf);
      childNodes := childNodes + [leaf];
      made := made + {leaf};
    }
    DenotesAll(childNodes, leaves);
  }

  /** The first loop of `generateEmptyTree`: one childless node per hash, in order. */
  method SkeletonLeafNodes<T>(hashes: seq<Hash>)
    returns (childNodes: seq<MerkelNode<T>>, ghost made: set<MerkelNode<T>>)
    ensures Denotes(childNodes, SkeletonLeaves(hashes))
    ensures PairwiseDisjoint(childNodes) && AllAsBuilt(childNodes)
    ensures fresh(made) && Footprint(childNodes) <= made
  {
    ghost var leaves: seq<Tree<T>> := SkeletonLeaves(hashes);
    childNodes, made := [], {};
    for i := 0 to |hashes|
      invariant Denotes(childNodes, leaves[..i]) && PairwiseDisjoint(childNodes) && AllAsBuilt(childNodes)
      invariant forall o :: o in made ==> !old(allocated(o))
      invariant Footprint(childNodes) <= made
    {
      var leaf := SkeletonLeaf(hashes[i], childNodes);
      DenotesAppend(childNodes, leaf, leaves, i);
      FootprintAppend(childNodes, leaf);
      childNodes := childNodes + [leaf];
      made := made + {leaf};
    }
    DenotesAll(childNodes, leaves);
  }

  /** `new MerkelNode(null, null, transaction)`, placed after the leaves made before it. */
  method LoadedLeaf<T>(tx: T, leafHash: T -> Hash, ghost before: seq<MerkelNode<T>>) returns (leaf: MerkelNode<T>)
    requires PairwiseDisjoint(before) && AllAsBuilt(before)
    ensures leaf.Valid() && leaf.Initial == Node(Nil, Nil, leafHash(tx), Some(tx))
    ensures fresh(leaf) && leaf.Repr == {leaf}
    ensures PairwiseDisjoint(before + [leaf] + []) && AllAsBuilt(before + [leaf] + [])
  {
    leaf := new MerkelNode.Loaded(tx, leafHash);
    assert before + [] == before;
    PoolJoin(before, leaf, []);
  }

  /** `new MerkelNode(null, null, hash)`, placed after the leaves made before it. */
  method SkeletonLeaf<T>(h: Hash, ghost before: seq<MerkelNode<T>>) returns (leaf: MerkelNode<T>)
    requires PairwiseDisjoint(before) && AllAsBuilt(before)
    ensures leaf.Valid() && leaf.Initial == Node(Nil, Nil, h, None)
    ensures fresh(leaf) && leaf.Repr == {leaf}
    ensures PairwiseDisjoint(before + [leaf] + []) && AllAsBuilt(before + [leaf] + [])
  {
    leaf := new MerkelNode(null, null, h);
    assert before + [] == before;
    PoolJoin(before, leaf, []);
  }

  /** One more leaf node made for the next leaf of the level. */
  lemma DenotesAppend<T>(nodes: seq<MerkelNode<T>>, leaf: MerkelNode<T>, level: seq<Tree<T>>, i: nat)
    requires i < |level| && Denotes(nodes, level[..i])
    requires leaf.Valid() && leaf.Initial == level[i]
    requires PairwiseDisjoint(nodes + [leaf] + []) && AllAsBuilt(nodes + [leaf] + [])
    ensures Denotes(nodes + [leaf], level[..i + 1])
    ensures PairwiseDisjoint(nodes + [leaf]) && AllAsBuilt(nodes + [leaf])
  {
    assert nodes + [leaf] + [] == nodes + [leaf];
    assert level[..i + 1] == level[..i] + [level[i]];
  }

  /** Once a node is made for every leaf, the nodes denote the whole level. */
  lemma DenotesAll<T>(nodes: seq<MerkelNode<T>>, level: seq<Tree<T>>)
    requires Denotes(nodes, level[..|level|])
    ensures Denotes(nodes, level)
  {
    assert level[..|level|] == level;
  }

  /** What `generateFullTree` promises of the tree over its transactions. */
  lemma FullTreeFacts<T>(transactions: seq<T>, leafHash: T -> Hash, combine: Combiner)
    requires IsPowerOfTwo(|transactions|)
    ensures AllNodes(FullLeaves(transactions, leafHash)) && |transactions| >= 1
    ensures Leaves(Build(FullLeaves(transactions, leafHash), combine)) == FullLeaves(transactions, leafHash)
    ensures Perfect(Build(FullLeaves(transactions, leafHash), combine), Log2(|transactions|))
    ensures HashConsistent(Build(FullLeaves(transactions, leafHash), combine), combine)
    ensures AllLoaded(Build(FullLeaves(transactions, leafHash), combine))
  {
    var len := |transactions|;
    PowerOfTwoIsPow2(len);
    BuiltTreeFacts(FullLeaves(transactions, leafHash), combine, Log2(len));
  }

  /** What `generateEmptyTree` promises of the skeleton over its hashes. */
  lemma SkeletonTreeFacts<T>(hashes: seq<Hash>, combine: Combiner)
    requires IsPowerOfTwo(|hashes|)
    ensures AllNodes(SkeletonLeaves<T>(hashes)) && |hashes| >= 1
    ensures Leaves(Build(SkeletonLeaves<T>(hashes), combine)) == SkeletonLeaves(hashes)
    ensures Perfect(Build(SkeletonLeaves<T>(hashes), combine), Log2(|hashes|))
    ensures HashConsistent(Build(SkeletonLeaves<T>(hashes), combine), combine)
    ensures !AllLoaded(Build(SkeletonLeaves<T>(hashes), combine))
  {
    var len := |hashes|;
    PowerOfTwoIsPow2(len);
    var leaves := SkeletonLeaves<T>(hashes);
    BuiltTreeFacts(leaves, combine, Log2(len));
    assert Leaves(Build(leaves, combine))[0].tx.None?;
  }

  /** What the builders promise of a tree built from 2^e leaves. */
  lemma BuiltTreeFacts<T>(leaves: seq<Tree<T>>, combine: Combiner, e: nat)
    requires |leaves| == Pow2(e)
    requires forall i :: 0 <= i < |leaves| ==> leaves[i].IsLeaf()
    ensures AllNodes(leaves)
    ensures Leaves(Build(leaves, combine)) == leaves
    ensures Perfect(Build(leaves, combine), e)
    ensures HashConsistent(Build(leaves, combine), combine)
  {
    BuildPerfect(leaves, combine, 0, e);
    FlattenOfLeaves(leaves);
    BuildConsistent(leaves, combine);
  }

  /**
   * `isComplete`: false for null; a leaf is complete when it holds a
   * transaction; a node is complete when each child it has is complete.
   */
  function IsComplete<T>(root: MerkelNode?<T>): (complete: bool)
    requires root != null ==> root.Valid()
    reads if root == null then {} else root.Repr
    ensures complete <==> root != null && AllLoaded(root.Model())
    decreases if root == null then {} else root.Repr
  {
    if root == null then false
    else if root.left != null && root.right != null then
      AllLoadedOfNode(root);
      IsComplete(root.left) && IsComplete(root.right)
    else if root.left != null then
      AllLoadedOfNode(root);
      IsComplete(root.left)
    else if root.right != null then
      AllLoadedOfNode(root);
      IsComplete(root.right)
    else
      AllLoadedLeaf(root.Model());
      root.transaction.Some?
  }

  /** An inner node is fully loaded exactly when each child it has is. */
  lemma AllLoadedOfNode<T>(n: MerkelNode<T>)
    requires n.Valid() && !n.IsLeaf()
    ensures AllLoaded(n.Model()) <==>
      (n.left != null ==> AllLoaded(n.left.Model())) && (n.right != null ==> AllLoaded(n.right.Model()))
  {
    AllLoadedSplit(n.Model());
  }

  /**
   * `load`: walk the tree, left subtree first, and attach the transaction to
   * the first leaf whose hash equals the transaction's digest. Only that
   * leaf's transaction changes.
   */
  method Load<T>(root: MerkelNode?<T>, transaction: T, leafHash: T -> Hash) returns (found: bool)
    requires root != null ==> root.Valid()
    modifies if root == null then {} else root.Repr
    ensures root == null ==> !found
    ensures root != null ==> (found, root.Model()) == Attach(old(root.Model()), transaction, leafHash(transaction))
    decreases if root == null then {} else root.Repr
  {
    if root == null {
      return false;
    }
    var hash := leafHash(transaction);
    ghost var before := root.Model();
    if root.left != null && root.right != null {
      found := Load(root.left, transaction, leafHash);
      if !found {
        found := Load(root.right, transaction, leafHash);
      }
    } else if root.left != null {
      found := Load(root.left, transaction, leafHash);
    } else if root.right != null {
      found := Load(root.right, transaction, leafHash);
    } else {
      if root.hash == hash {
        root.transaction := Some(transaction);
        return true;
      }
      return false;
    }
  }

  // ---------------------------------------------------------------------------
  // path: depth-first search with an explicit stack
  // ---------------------------------------------------------------------------

  /**
   * Bookkeeping of the search: every node ever pushed lies in the tree, the
   * stack holds pushed nodes only, and a pushed node that has left the stack
   * has its hash recorded as visited.
   */
  ghost predicate Explored<T>(root: MerkelNode<T>, stack: seq<MerkelNode<T>>, pushed: set<MerkelNode<T>>, visited: seq<Hash>)
  {
    pushed <= root.Repr &&
    (forall i :: 0 <= i < |stack| ==> stack[i] in pushed) &&
    (forall n :: n in pushed && n !in stack ==> n.hash in visited)
  }

  /** No node of the tree whose hash has been visited has a leaf with hash h below it. */
  ghost predicate Exhausted<T>(root: MerkelNode<T>, visited: seq<Hash>, h: Hash)
  {
    forall n :: n in root.Repr && n.hash in visited ==> !HasLeaf(n.Initial, h)
  }

  /**
   * `path`: null for a null root; for a leaf root an empty list when its hash
   * matches and null otherwise; for an inner root the search either returns the
   * stack, read from the root down to a leaf carrying the hash, or null once the
   * stack runs empty. The search marks subtrees done by hash, so it is certain to
   * find a present leaf only when no two nodes share a hash.
   */
  method Path<T>(root: MerkelNode?<T>, hash: Hash) returns (path: Option<seq<MerkelNode<T>>>)
    requires root != null ==> root.Valid()
    ensures root == null ==> path.None?
    ensures root != null && root.IsLeaf() ==> path == (if root.hash == hash then Some([]) else None)
    ensures root != null && !root.IsLeaf() && path.Some? ==> IsLeafChain(root, path.value, hash)
    ensures root != null && !root.IsLeaf() && path.Some? ==> HasLeaf(root.Model(), hash)
    ensures root != null && !root.IsLeaf() && root.DistinctHashes() ==> (path.Some? <==> HasLeaf(root.Model(), hash))
  {
    if root == null {
      return None;
    }
    if root.left == null && root.right == null {
      return if root.hash == hash then Some([]) else None;
    }
    var stack: seq<MerkelNode<T>> := [root];
    var visited: seq<Hash> := [];
    ghost var pushed: set<MerkelNode<T>> := {root};
    while stack != []
      invariant stack != [] ==> IsChain(root, stack)
      invariant Explored(root, stack, pushed, visited)
      invariant root.DistinctHashes() ==> Exhausted(root, visited, hash)
      invariant stack == [] ==> root.hash in visited
      decreases root.Repr - pushed, |stack|
    {
      var node := stack[|stack| - 1];
      if node.left == null && node.right == null {
        if node.hash == hash {
          ChainHasLeaf(root, stack, hash);
          return Some(stack);
        }
        PopDone(root, stack, pushed, visited, hash);
        visited := visited + [node.hash];
        stack := stack[..|stack| - 1];
      } else if node.left != null && node.left.hash !in visited {
        PushChild(root, stack, pushed, visited, node.left);
        stack := stack + [node.left];
        pushed := pushed + {node.left};
      } else if node.right != null && node.right.hash !in visited {
        PushChild(root, stack, pushed, visited, node.right);
        stack := stack + [node.right];
        pushed := pushed + {node.right};
      } else {
        PopDone(root, stack, pushed, visited, hash);
        visited := visited + [node.hash];
        stack := stack[..|stack| - 1];
      }
    }
    if root.DistinctHashes() {
      SearchExhausted(root, visited, hash);
    }
    return None;
  }

  /** A child of the top node whose hash is not visited is in the tree and was never pushed. */
  lemma PushChild<T>(root: MerkelNode<T>, stack: seq<MerkelNode<T>>, pushed: set<MerkelNode<T>>,
                     visited: seq<Hash>, c: MerkelNode<T>)
    requires root.Valid() && IsChain(root, stack) && Explored(root, stack, pushed, visited)
    requires c == stack[|stack| - 1].left || c == stack[|stack| - 1].right
    requires c.hash !in visited
    ensures IsChain(root, stack + [c])
    ensures c in root.Repr - pushed
    ensures Explored(root, stack + [c], pushed + {c}, visited)
  {
    ChainInTree(root, stack);
    var top := stack[|stack| - 1];
    forall i | 0 <= i < |stack|
      ensures stack[i] != c
    {
      assert top in stack[i].Repr;
    }
    assert c !in stack;
  }

  /**
   * Popping a node whose subtree is done (a leaf that is not the target, or an
   * inner node each of whose children is absent or visited) keeps the search's
   * bookkeeping; popping the root records its hash.
   */
  lemma PopDone<T>(root: MerkelNode<T>, stack: seq<MerkelNode<T>>, pushed: set<MerkelNode<T>>,
                   visited: seq<Hash>, h: Hash)
    requires root.Valid() && IsChain(root, stack) && Explored(root, stack, pushed, visited)
    requires root.DistinctHashes() ==> Exhausted(root, visited, h)
    requires var top := stack[|stack| - 1];
      if top.IsLeaf() then top.hash != h
      else (top.left != null ==> top.left.hash in visited) && (top.right != null ==> top.right.hash in visited)
    ensures |stack| > 1 ==> IsChain(root, stack[..|stack| - 1])
    ensures Explored(root, stack[..|stack| - 1], pushed, visited + [stack[|stack| - 1].hash])
    ensures root.DistinctHashes() ==> Exhausted(root, visited + [stack[|stack| - 1].hash], h)
    ensures |stack| == 1 ==> root.hash in visited + [stack[|stack| - 1].hash]
  {
    ChainInTree(root, stack);
    var top := stack[|stack| - 1];
    assert stack == stack[..|stack| - 1] + [top];
    if root.DistinctHashes() {
      TopExhausted(root, top, visited, h);
    }
  }

  /** Under distinct hashes, the top node of a finished subtree has no leaf with hash h. */
  lemma TopExhausted<T>(root: MerkelNode<T>, top: MerkelNode<T>, visited: seq<Hash>, h: Hash)
    requires root.Valid() && root.DistinctHashes() && Exhausted(root, visited, h)
    requires top in root.Repr && top.Valid()
    requires if top.IsLeaf() then top.hash != h
      else (top.left != null ==> top.left.hash in visited) && (top.right != null ==> top.right.hash in visited)
    ensures Exhausted(root, visited + [top.hash], h)
  {
    ReprClosed(root, top);
    if !top.IsLeaf() {
      var t := top.Initial;
      assert LeafHashes(t) == LeafHashes(t.left) + LeafHashes(t.right);
      if top.left != null {
        assert top.left in root.Repr;
      }
      if top.right != null {
        assert top.right in root.Repr;
      }
    }
  }

  /** Once the root's hash is visited, the tree has no leaf with hash h. */
  lemma SearchExhausted<T>(root: MerkelNode<T>, visited: seq<Hash>, h: Hash)
    requires root.Valid() && Exhausted(root, visited, h) && root.hash in visited
    ensures !HasLeaf(root.Model(), h)
  {
    ModelLeafHashes(root);
  }

  // ---------------------------------------------------------------------------
  // Audit proofs: hashesNeededToVerifyTransaction and verify
  // ---------------------------------------------------------------------------

  /**
   * `e` is the entry emitted for `node` when climbing from its child `child`:
   * the node has both children, and either the left child carries the child's
   * hash and the right hash is sent as right operand, or the child is the right
   * child and the left hash is sent as left operand.
   */
  ghost predicate EntryFor<T>(node: MerkelNode<T>, child: MerkelNode<T>, e: AuditEntry)
  {
    node.left != null && node.right != null &&
    (e.isRight ==> e.sibling == node.right.hash && node.left.hash == child.hash) &&
    (!e.isRight ==> e.sibling == node.left.hash && child == node.right)
  }

  /** proof holds one entry per node of chain above the last, from the bottom up. */
  ghost predicate AuditTrail<T>(chain: seq<MerkelNode<T>>, proof: seq<AuditEntry>)
  {
    |chain| >= 1 && |proof| == |chain| - 1 &&
    forall k :: 0 <= k < |proof| ==> EntryFor(chain[|chain| - 2 - k], chain[|chain| - 1 - k], proof[k])
  }

  /** A node with two children carries the digest of their hashes. */
  ghost predicate CombinesChildren<T>(n: MerkelNode<T>, combine: Combiner)
  {
    n.left != null && n.right != null ==> n.hash == combine(n.left.hash, n.right.hash)
  }

  /** Every node of a consistent tree combines its children's hashes. */
  lemma NodeCombines<T>(n: MerkelNode<T>, combine: Combiner)
    requires n.Valid() && HashConsistent(n.Model(), combine)
    ensures CombinesChildren(n, combine)
  {
    if n.left != null && n.right != null {
      assert n.Model().left == n.left.Model();
      assert n.Model().right == n.right.Model();
    }
  }

  /**
   * Folding an audit trail from the hash at the bottom of the chain yields the
   * hash at its top, when every node on the chain is hash-consistent.
   */
  lemma {:induction false} AuditTrailFolds<T>(chain: seq<MerkelNode<T>>, proof: seq<AuditEntry>, combine: Combiner)
    requires AuditTrail(chain, proof)
    requires forall k :: 0 <= k < |chain| ==> CombinesChildren(chain[k], combine)
    ensures Fold(proof, chain[|chain| - 1].hash, combine) == chain[0].hash
    decreases |chain|
  {
    if |chain| > 1 {
      var rest, prefix := chain[1..], proof[..|proof| - 1];
      forall k | 0 <= k < |prefix|
        ensures EntryFor(rest[|rest| - 2 - k], rest[|rest| - 1 - k], prefix[k])
      {
        assert rest[|rest| - 2 - k] == chain[|chain| - 2 - k];
      }
      AuditTrailFolds(rest, prefix, combine);
      assert EntryFor(chain[0], chain[1], proof[|proof| - 1]);
    }
  }

  /** Adding the entry for the node above the trail's top extends the trail upwards. */
  lemma AuditTrailExtend<T>(path: seq<MerkelNode<T>>, i: nat, hashes: seq<AuditEntry>, e: AuditEntry)
    requires i + 1 < |path| && AuditTrail(path[i + 1..], hashes)
    requires EntryFor(path[i], path[i + 1], e)
    ensures AuditTrail(path[i..], hashes + [e])
  {
    var chain, proof := path[i..], hashes + [e];
    forall k | 0 <= k < |proof|
      ensures EntryFor(chain[|chain| - 2 - k], chain[|chain| - 1 - k], proof[k])
    {
      if k < |hashes| {
        assert chain[|chain| - 2 - k] == path[i + 1..][|path[i + 1..]| - 2 - k];
        assert chain[|chain| - 1 - k] == path[i + 1..][|path[i + 1..]| - 1 - k];
      }
    }
  }

  /** Every node of a chain in a consistent tree, above its last, has both children. */
  lemma ChainInner<T>(root: MerkelNode<T>, chain: seq<MerkelNode<T>>, combine: Combiner)
    requires root.Valid() && IsChain(root, chain) && HashConsistent(root.Model(), combine)
    ensures forall k :: 0 <= k < |chain| ==> CombinesChildren(chain[k], combine)
    ensures forall k :: 0 <= k < |chain| - 1 ==> chain[k].left != null && chain[k].right != null
  {
    ChainConsistent(root, chain, combine);
    forall k | 0 <= k < |chain|
      ensures CombinesChildren(chain[k], combine)
    {
      NodeCombines(chain[k], combine);
    }
    forall k | 0 <= k < |chain| - 1
      ensures chain[k].left != null && chain[k].right != null
    {
      assert chain[k + 1] == chain[k].left || chain[k + 1] == chain[k].right;
      assert !chain[k].Model().IsLeaf();
    }
  }

  /**
   * `hashesNeededToVerifyTransaction`: finds the path to the transaction's leaf
   * and climbs it from the leaf's parent to the root, emitting for each node the
   * hash of the child not climbed from and whether it is the right operand. A
   * missing path or a missing child is a null dereference; the empty path of a
   * single-leaf tree makes the index start at -2, an out-of-bounds access.
   * `combine` is the digest the tree was built with; it is used by the contract only.
   */
  method HashesNeededToVerifyTransaction<T>(root: MerkelNode?<T>, transactionHash: Hash, ghost combine: Combiner)
    returns (r: Result<seq<AuditEntry>, Failure>)
    requires root != null ==> root.Valid()
    ensures root == null ==> r == Err(NullPointer)
    ensures root != null && root.IsLeaf() ==>
      r == Err(if root.hash == transactionHash then IndexOutOfBounds else NullPointer)
    ensures root != null && !root.IsLeaf() && r.Err? ==> r.error == NullPointer
    ensures r.Ok? ==> root != null && exists chain :: IsLeafChain(root, chain, transactionHash) && AuditTrail(chain, r.value)
    ensures r.Ok? ==> root != null && HasLeaf(root.Model(), transactionHash)
    ensures r.Ok? ==> root != null && (HashConsistent(root.Model(), combine) ==>
                                         Fold(r.value, transactionHash, combine) == root.hash)
    ensures root != null && !root.IsLeaf() && root.DistinctHashes() && HashConsistent(root.Model(), combine) ==>
      (r.Ok? <==> HasLeaf(root.Model(), transactionHash))
  {
    var found := Path(root, transactionHash);
    if found.None? {
      return Err(NullPointer);
    }
    var path := found.value;
    ghost var consistent := root != null && !root.IsLeaf() && HashConsistent(root.Model(), combine);
    if consistent {
      ChainInner(root, path, combine);
    }
    var hashes: seq<AuditEntry> := [];
    var curHash := transactionHash;
    var i := |path| - 2;
    while i != -1
      invariant -2 <= i <= |path| - 2
      invariant i == -2 ==> path == [] && root.IsLeaf()
      invariant i >= -1 ==> !root.IsLeaf() && AuditTrail(path[i + 1..], hashes) && curHash == path[i + 1].hash
      decreases i + 2
    {
      if i < 0 {
        return Err(IndexOutOfBounds);
      }
      var node := path[i];
      assert path[i + 1] == node.left || path[i + 1] == node.right;
      if node.left == null {
        return Err(NullPointer);
      }
      var entry: AuditEntry;
      if node.left.hash == curHash {
        if node.right == null {
          return Err(NullPointer);
        }
        entry := AuditEntry(node.right.hash, true);
      } else {
        entry := AuditEntry(node.left.hash, false);
      }
      AuditTrailExtend(path, i, hashes, entry);
      hashes := hashes + [entry];
      curHash := node.hash;
      i := i - 1;
    }
    assert path[0..] == path;
    ChainHasLeaf(root, path, transactionHash);
    if consistent {
      AuditTrailFolds(path, hashes, combine);
    }
    return Ok(hashes);
  }

  /**
   * `verify`: fold the received entries into a hash, starting from the
   * transaction's hash, and compare the result with the root hash.
   */
  method Verify(receivedHashes: seq<AuditEntry>, rootHash: Hash, transactionHash: Hash, combine: Combiner)
    returns (ok: bool)
    ensures ok <==> rootHash == Fold(receivedHashes, transactionHash, combine)
  {
    var curHash := transactionHash;
    for k := 0 to |receivedHashes|
      invariant curHash == Fold(receivedHashes[..k], transactionHash, combine)
    {
      var entry := receivedHashes[k];
      assert receivedHashes[..k + 1][..k] == receivedHashes[..k];
      curHash := if entry.isRight then combine(curHash, entry.sibling) else combine(entry.sibling, curHash);
    }
    assert receivedHashes[..|receivedHashes|] == receivedHashes;
    return rootHash == curHash;
  }

  /**
   * The audit round trip: the proof produced for a transaction present in a
   * hash-consistent tree with distinct hashes is accepted against the root hash.
   */
  method AuditRoundTrip<T>(root: MerkelNode<T>, transactionHash: Hash, combine: Combiner) returns (accepted: bool)
    requires root.Valid() && !root.IsLeaf() && root.DistinctHashes()
    requires HashConsistent(root.Model(), combine) && HasLeaf(root.Model(), transactionHash)
    ensures accepted
  {
    var proof := HashesNeededToVerifyTransaction(root, transactionHash, combine);
    accepted := Verify(proof.value, root.hash, transactionHash, combine);
  }
}
