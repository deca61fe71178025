/**
 * The tree node the Merkle code builds and walks. Its children and hash are
 * fixed when it is created; only its transaction is ever changed (by `load`).
 * `Repr` is the set of nodes the node owns, itself included, and `Model()` is
 * the value the node currently denotes.
 */
module MerkelNodes {
  import opened Wrappers
  import opened MerkelModel

  class MerkelNode<T> {
    const left: MerkelNode?<T>
    const right: MerkelNode?<T>
    const hash: Hash
    var transaction: Option<T>
    ghost const Repr: set<MerkelNode<T>>
    /** The tree rooted here as it was built, with the transactions given at construction. */
    ghost const Initial: Tree<T>

    /**
     * Strict ownership: each child owns a part of Repr that excludes this node,
     * and the two children own disjoint parts. Only constant fields are read,
     * so validity never changes once established.
     */
    ghost predicate Valid()
      decreases Repr
    {
      this in Repr &&
      (left != null ==> left in Repr && left.Repr <= Repr && this !in left.Repr && left.Valid()) &&
      (right != null ==> right in Repr && right.Repr <= Repr && this !in right.Repr && right.Valid()) &&
      (left != null && right != null ==> left.Repr !! right.Repr) &&
      Repr == {this} + (if left != null then left.Repr else {}) + (if right != null then right.Repr else {}) &&
      Initial.Node? && Initial.hash == hash &&
      Initial.left == (if left == null then Nil else left.Initial) &&
      Initial.right == (if right == null then Nil else right.Initial)
    }

    /** A node without children. */
    predicate IsLeaf() {
      left == null && right == null
    }

    /** The tree rooted here, with the transactions the nodes hold now. */
    ghost function Model(): (t: Tree<T>)
      requires Valid()
      reads Repr
      ensures t.Node? && t.hash == hash && t.tx == transaction
      ensures t.left.Nil? <==> left == null
      ensures t.right.Nil? <==> right == null
      decreases Repr
    {
      Node(if left == null then Nil else left.Model(),
           if right == null then Nil else right.Model(),
           hash, transaction)
    }

    /** No two nodes of this tree carry the same hash. */
    ghost predicate DistinctHashes()
    {
      forall n, m :: n in Repr && m in Repr && n.hash == m.hash ==> n == m
    }

    /** `new MerkelNode(null, null, transaction)`: a leaf holding tx, keyed by the transaction's hash. */
    constructor Loaded(tx: T, leafHash: T -> Hash)
      ensures Valid() && fresh(Repr) && AsBuilt(Repr)
      ensures Initial == Node(Nil, Nil, leafHash(tx), Some(tx))
    {
      left, right := null, null;
      hash := leafHash(tx);
      transaction := Some(tx);
      Repr := {this};
      Initial := Node(Nil, Nil, leafHash(tx), Some(tx));
    }

    /** `new MerkelNode(left, right, hash)`: a node owning the given children, without a transaction. */
    constructor (l: MerkelNode?<T>, r: MerkelNode?<T>, h: Hash)
      requires l != null ==> l.Valid()
      requires r != null ==> r.Valid()
      requires l != null && r != null ==> l.Repr !! r.Repr
      ensures Valid()
      ensures left == l && right == r && hash == h && transaction == None
      ensures Repr == {this} + (if l != null then l.Repr else {}) + (if r != null then r.Repr else {})
      ensures Initial == Node(if l == null then Nil else l.Initial, if r == null then Nil else r.Initial, h, None)
    {
      left, right := l, r;
      hash := h;
      transaction := None;
      Repr := {this} + (if l != null then l.Repr else {}) + (if r != null then r.Repr else {});
      Initial := Node(if l == null then Nil else l.Initial, if r == null then Nil else r.Initial, h, None);
    }
  }

  /** Every node of the set still holds the transaction it was built with. */
  ghost predicate AsBuilt<T>(nodes: set<MerkelNode<T>>)
    reads nodes
  {
    forall n :: n in nodes ==> n.Initial.Node? && n.transaction == n.Initial.tx
  }

  /** A tree whose nodes all hold the transactions they were built with denotes its initial tree. */
  lemma {:induction false} AsBuiltModel<T>(root: MerkelNode<T>)
    requires root.Valid() && AsBuilt(root.Repr)
    ensures root.Model() == root.Initial
    decreases root.Repr
  {
    if root.left != null {
      AsBuiltModel(root.left);
    }
    if root.right != null {
      AsBuiltModel(root.right);
    }
  }

  /** Transactions do not affect leaf hashes: a node's tree has the leaf hashes it was built with. */
  lemma {:induction false} ModelLeafHashes<T>(n: MerkelNode<T>)
    requires n.Valid()
    ensures LeafHashes(n.Model()) == LeafHashes(n.Initial)
    decreases n.Repr
  {
    if n.left != null {
      ModelLeafHashes(n.left);
    }
    if n.right != null {
      ModelLeafHashes(n.right);
    }
  }

  /** Every node a valid node owns is valid and owns part of the same footprint. */
  lemma {:induction false} ReprClosed<T>(root: MerkelNode<T>, n: MerkelNode<T>)
    requires root.Valid() && n in root.Repr
    ensures n.Valid() && n.Repr <= root.Repr
    decreases root.Repr
  {
    if n != root {
      if root.left != null && n in root.left.Repr {
        ReprClosed(root.left, n);
      } else {
        ReprClosed(root.right, n);
      }
    }
  }

  /** c runs from root downwards, each node a child of the one before. */
  ghost predicate IsChain<T>(root: MerkelNode<T>, c: seq<MerkelNode<T>>)
  {
    |c| >= 1 && c[0] == root &&
    forall i :: 0 <= i < |c| - 1 ==> c[i + 1] == c[i].left || c[i + 1] == c[i].right
  }

  /** c is a chain from root that ends at a leaf whose hash is h. */
  ghost predicate IsLeafChain<T>(root: MerkelNode<T>, c: seq<MerkelNode<T>>, h: Hash)
  {
    IsChain(root, c) && c[|c| - 1].IsLeaf() && c[|c| - 1].hash == h
  }

  /** Every node of a chain from a valid root belongs to the root's tree, each inside the one above. */
  lemma {:induction false} ChainInTree<T>(root: MerkelNode<T>, c: seq<MerkelNode<T>>)
    requires root.Valid() && IsChain(root, c)
    ensures forall i :: 0 <= i < |c| ==> c[i] in root.Repr && c[i].Valid()
    ensures forall i, j :: 0 <= i <= j < |c| ==> c[j].Repr <= c[i].Repr
  {
    var k := 0;
    while k < |c| - 1
      invariant 0 <= k <= |c| - 1
      invariant forall i :: 0 <= i <= k ==> c[i].Valid() && c[i].Repr <= root.Repr
      invariant forall i :: 0 <= i <= k ==> c[k].Repr <= c[i].Repr
      invariant forall i, j :: 0 <= i <= j <= k ==> c[j].Repr <= c[i].Repr
    {
      var next := c[k + 1];
      assert next == c[k].left || next == c[k].right;
      assert next.Valid() && next.Repr <= c[k].Repr;
      k := k + 1;
    }
  }

  /** A chain to a leaf with hash h witnesses that the root's tree has such a leaf. */
  lemma {:induction false} ChainHasLeaf<T>(root: MerkelNode<T>, c: seq<MerkelNode<T>>, h: Hash)
    requires root.Valid() && IsLeafChain(root, c, h)
    ensures HasLeaf(root.Model(), h)
  {
    ChainInTree(root, c);
    var k := |c| - 1;
    while k > 0
      invariant 0 <= k <= |c| - 1
      invariant HasLeaf(c[k].Model(), h)
    {
      var parent := c[k - 1];
      assert c[k] == parent.left || c[k] == parent.right;
      assert parent.Model().left == (if parent.left == null then Nil else parent.left.Model());
      assert parent.Model().right == (if parent.right == null then Nil else parent.right.Model());
      assert !parent.Model().IsLeaf();
      k := k - 1;
    }
  }

  /** Hash consistency of the root carries down to every node of a chain. */
  lemma {:induction false} ChainConsistent<T>(root: MerkelNode<T>, c: seq<MerkelNode<T>>, combine: Combiner)
    requires root.Valid() && IsChain(root, c) && HashConsistent(root.Model(), combine)
    ensures forall i :: 0 <= i < |c| ==> c[i].Valid() && HashConsistent(c[i].Model(), combine)
  {
    ChainInTree(root, c);
    var k := 0;
    while k < |c| - 1
      invariant 0 <= k <= |c| - 1
      invariant forall i :: 0 <= i <= k ==> HashConsistent(c[i].Model(), combine)
    {
      var parent := c[k];
      assert c[k + 1] == parent.left || c[k + 1] == parent.right;
      assert parent.Model().left == (if parent.left == null then Nil else parent.left.Model());
      assert parent.Model().right == (if parent.right == null then Nil else parent.right.Model());
      k := k + 1;
    }
  }
}
