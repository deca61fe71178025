/**
 * The value-level view of a Merkle tree: what a MerkelNode graph denotes once
 * object identity is forgotten, how the builder's level-by-level reduction
 * behaves, and the specification functions the imperative code is proved against.
 */
module MerkelModel {
  import opened Wrappers

  /** Digests are the strings the hash primitive returns. */
  type Hash = string

  /**
   * The digest of two child hashes. The builder obtains it from
   * `Hash.createHash(left, right)` and the verifier from
   * `Hash.applySha256(left.hash + right.hash)`; the model uses one function for
   * both, which is the assumption that these two agree.
   */
  type Combiner = (Hash, Hash) -> Hash

  /** A node with its subtrees; `Nil` stands for a null child. */
  datatype Tree<T> = Nil | Node(left: Tree<T>, right: Tree<T>, hash: Hash, tx: Option<T>)
  {
    /** A node without children. */
    predicate IsLeaf() {
      Node? && left.Nil? && right.Nil?
    }
  }

  /** One step of an audit proof: a sibling hash and whether it is the right operand. */
  datatype AuditEntry = AuditEntry(sibling: Hash, isRight: bool)

  // ---------------------------------------------------------------------------
  // Leaf counts: powers of two and the bitwise test the builders use
  // ---------------------------------------------------------------------------

  function Pow2(e: nat): (p: nat)
    ensures p >= 1
  {
    if e == 0 then 1 else 2 * Pow2(e - 1)
  }

  /** n is 1, 2, 4, 8, ... */
  predicate IsPowerOfTwo(n: nat)
  {
    n == 1 || (n >= 2 && n % 2 == 0 && IsPowerOfTwo(n / 2))
  }

  function Log2(n: nat): nat
  {
    if n <= 1 then 0 else 1 + Log2(n / 2)
  }

  lemma {:induction false} PowerOfTwoIsPow2(n: nat)
    requires IsPowerOfTwo(n)
    ensures n == Pow2(Log2(n))
  {
    if n != 1 {
      PowerOfTwoIsPow2(n / 2);
    }
  }

  /**
   * Java's `&` on two non-negative ints: bit i of the result is set iff bit i is
   * set in both operands.
   */
  function BitAnd(a: nat, b: nat): nat
  {
    if a == 0 || b == 0 then 0
    else 2 * BitAnd(a / 2, b / 2) + (if a % 2 == 1 && b % 2 == 1 then 1 else 0)
  }

  lemma {:induction false} BitAndSelf(a: nat)
    ensures BitAnd(a, a) == a
  {
    if a > 0 {
      BitAndSelf(a / 2);
    }
  }

  /** On positive sizes the classic bit trick `len & (len - 1) == 0` is exactly "is a power of two". */
  lemma {:induction false} BitTestIsPowerOfTwo(len: nat)
    requires len >= 1
    ensures BitAnd(len, len - 1) == 0 <==> IsPowerOfTwo(len)
  {
    if len >= 2 {
      var m := len / 2;
      if len % 2 == 0 {
        assert (len - 1) / 2 == m - 1 && (len - 1) % 2 == 1;
        assert BitAnd(len, len - 1) == 2 * BitAnd(m, m - 1);
        BitTestIsPowerOfTwo(m);
      } else {
        assert (len - 1) / 2 == m && (len - 1) % 2 == 0;
        assert BitAnd(len, len - 1) == 2 * BitAnd(m, m);
        BitAndSelf(m);
      }
    }
  }

  /**
   * The guard `(len & len - 1) != 0` as written: a list size passes it when the
   * AND is zero. For len == 0, `len - 1` is -1 (all bits set) and `0 & -1` is 0,
   * so zero passes along with the powers of two.
   */
  function PassesLeafCountTestAsWritten(len: nat): (passes: bool)
    ensures passes <==> len == 0 || IsPowerOfTwo(len)
  {
    if len == 0 then 0 == 0
    else
      BitTestIsPowerOfTwo(len);
      BitAnd(len, len - 1) == 0
  }

  /** The leaf-count guard the builders evidently intend: a power of two, hence at least one. */
  function IsLeafCount(len: nat): (ok: bool)
    ensures ok <==> IsPowerOfTwo(len)
    ensures ok ==> PassesLeafCountTestAsWritten(len)
  {
    if len == 0 then false
    else
      BitTestIsPowerOfTwo(len);
      BitAnd(len, len - 1) == 0
  }

  /**
   * The as-written guard lets an empty list through, and the reduction the
   * builder then runs maps the empty level to the empty level, so its loop
   * `while (children.size() != 1)` never ends.
   */
  lemma EmptyInputPassesAsWritten<T>(combine: Combiner)
    ensures PassesLeafCountTestAsWritten(0) && !IsLeafCount(0) && !IsPowerOfTwo(0)
    ensures Level<T>([], combine) == []
  {
  }

  // ---------------------------------------------------------------------------
  // Tree construction
  // ---------------------------------------------------------------------------

  predicate AllNodes<T>(s: seq<Tree<T>>)
  {
    forall i :: 0 <= i < |s| ==> s[i].Node?
  }

  /** The node the builder creates for the pair (l, r). */
  function Parent<T>(l: Tree<T>, r: Tree<T>, combine: Combiner): Tree<T>
    requires l.Node? && r.Node?
  {
    Node(l, r, combine(l.hash, r.hash), None)
  }

  /** The placeholder sibling for an unpaired last node: its hash, no children, no transaction. */
  function Pad<T>(n: Tree<T>): Tree<T>
    requires n.Node?
  {
    Node(Nil, Nil, n.hash, None)
  }

  /**
   * A parent is an inner node without a transaction whose leaves are its
   * children's, left before right, and it is hash-consistent exactly when both
   * children are.
   */
  lemma ParentJoins<T>(l: Tree<T>, r: Tree<T>, combine: Combiner)
    requires l.Node? && r.Node?
    ensures var p := Parent(l, r, combine);
      !p.IsLeaf() && p.tx.None? &&
      Leaves(p) == Leaves(l) + Leaves(r) && LeafHashes(p) == LeafHashes(l) + LeafHashes(r) &&
      (HashConsistent(p, combine) <==> HashConsistent(l, combine) && HashConsistent(r, combine))
  {
  }

  /** A pad is one more leaf, carrying its sibling's hash and no transaction. */
  lemma PadIsBareLeaf<T>(n: Tree<T>)
    requires n.Node?
    ensures var p := Pad(n);
      p.IsLeaf() && Leaves(p) == [p] && LeafHashes(p) == [n.hash] && !AllLoaded(p)
  {
    var p := Pad(n);
    assert Leaves(p)[0].tx.None?;
  }

  /** One pass of the builder's inner loop: pair neighbours, padding an odd last node. */
  function Level<T>(s: seq<Tree<T>>, combine: Combiner): (r: seq<Tree<T>>)
    requires AllNodes(s)
    ensures |r| == (|s| + 1) / 2
    ensures AllNodes(r)
  {
    if |s| == 0 then []
    else if |s| == 1 then [Parent(s[0], Pad(s[0]), combine)]
    else [Parent(s[0], s[1], combine)] + Level(s[2..], combine)
  }

  /** The builder's outer loop: reduce levels until one node is left. */
  function Build<T>(s: seq<Tree<T>>, combine: Combiner): (root: Tree<T>)
    requires |s| >= 1 && AllNodes(s)
    ensures root.Node?
    ensures |s| == 1 ==> root == s[0]
    decreases |s|
  {
    if |s| == 1 then s[0] else Build(Level(s, combine), combine)
  }

  /** Every parent owns exactly the two nodes it was built from, or one node and its pad. */
  lemma {:induction false} LevelAt<T>(s: seq<Tree<T>>, combine: Combiner, j: nat)
    requires AllNodes(s) && j < (|s| + 1) / 2
    ensures Level(s, combine)[j]
         == Parent(s[2 * j], if 2 * j + 1 < |s| then s[2 * j + 1] else Pad(s[2 * j]), combine)
  {
    if j > 0 {
      LevelAt(s[2..], combine, j - 1);
    }
  }

  /** True when no level of the reduction of s has odd length above the root. */
  predicate NeverPads<T>(s: seq<Tree<T>>, combine: Combiner)
    requires |s| >= 1 && AllNodes(s)
    decreases |s|
  {
    |s| == 1 || (|s| % 2 == 0 && NeverPads(Level(s, combine), combine))
  }

  /** The padding branch is taken at no level exactly when the leaf count is a power of two. */
  lemma {:induction false} NeverPadsIffPowerOfTwo<T>(s: seq<Tree<T>>, combine: Combiner)
    requires |s| >= 1 && AllNodes(s)
    ensures NeverPads(s, combine) <==> IsPowerOfTwo(|s|)
    decreases |s|
  {
    if |s| > 1 {
      NeverPadsIffPowerOfTwo(Level(s, combine), combine);
    }
  }

  /** Every leaf hangs at depth d below t and every inner node has two children. */
  predicate Perfect<T>(t: Tree<T>, d: nat)
  {
    t.Node? &&
    if d == 0 then t.IsLeaf() else Perfect(t.left, d - 1) && Perfect(t.right, d - 1)
  }

  /** The leaves of t, left to right. */
  function Leaves<T>(t: Tree<T>): (ls: seq<Tree<T>>)
    ensures forall i :: 0 <= i < |ls| ==> ls[i].IsLeaf()
  {
    match t
    case Nil => []
    case Node(l, r, _, _) => if t.IsLeaf() then [t] else Leaves(l) + Leaves(r)
  }

  /** The leaves of a sequence of subtrees, left to right. */
  function Flatten<T>(s: seq<Tree<T>>): seq<Tree<T>>
  {
    if s == [] then [] else Leaves(s[0]) + Flatten(s[1..])
  }

  lemma {:induction false} FlattenOfLeaves<T>(s: seq<Tree<T>>)
    requires forall i :: 0 <= i < |s| ==> s[i].IsLeaf()
    ensures Flatten(s) == s
  {
    if s != [] {
      FlattenOfLeaves(s[1..]);
    }
  }

  /** Pairing an even level keeps its leaves and their order. */
  lemma {:induction false} LevelKeepsLeaves<T>(s: seq<Tree<T>>, combine: Combiner)
    requires AllNodes(s) && |s| % 2 == 0
    ensures Flatten(Level(s, combine)) == Flatten(s)
  {
    if s != [] {
      LevelKeepsLeaves(s[2..], combine);
      assert s[1..][1..] == s[2..];
      calc {
        Flatten(Level(s, combine));
        Leaves(Parent(s[0], s[1], combine)) + Flatten(Level(s[2..], combine));
        Leaves(s[0]) + Leaves(s[1]) + Flatten(s[2..]);
        Leaves(s[0]) + (Leaves(s[1]) + Flatten(s[1..][1..]));
        Flatten(s);
      }
    }
  }

  /**
   * Reducing 2^e perfect subtrees of depth d yields a perfect tree of depth
   * d + e whose leaves are theirs, in order.
   */
  lemma {:induction false} BuildPerfect<T>(s: seq<Tree<T>>, combine: Combiner, d: nat, e: nat)
    requires |s| == Pow2(e)
    requires forall i :: 0 <= i < |s| ==> Perfect(s[i], d)
    ensures AllNodes(s)
    ensures Perfect(Build(s, combine), d + e)
    ensures Leaves(Build(s, combine)) == Flatten(s)
    decreases e
  {
    assert AllNodes(s);
    if e == 0 {
      assert Flatten(s) == Leaves(s[0]) + Flatten(s[1..]);
    } else {
      LevelPerfect(s, combine, d);
      LevelKeepsLeaves(s, combine);
      BuildPerfect(Level(s, combine), combine, d + 1, e - 1);
    }
  }

  /** Pairing 2^(e+1) perfect subtrees of depth d gives 2^e perfect subtrees of depth d + 1. */
  lemma LevelPerfect<T>(s: seq<Tree<T>>, combine: Combiner, d: nat)
    requires AllNodes(s) && |s| % 2 == 0
    requires forall i :: 0 <= i < |s| ==> Perfect(s[i], d)
    ensures forall j :: 0 <= j < |Level(s, combine)| ==> Perfect(Level(s, combine)[j], d + 1)
  {
    forall j | 0 <= j < |Level(s, combine)|
      ensures Perfect(Level(s, combine)[j], d + 1)
    {
      LevelAt(s, combine, j);
    }
  }

  /** A well-formed hash tree: zero or two children per node, parent hash = Combine(child hashes). */
  predicate HashConsistent<T>(t: Tree<T>, combine: Combiner)
  {
    match t
    case Nil => true
    case Node(l, r, h, _) =>
      l.Nil? == r.Nil? &&
      (l.Node? ==> h == combine(l.hash, r.hash) && HashConsistent(l, combine) && HashConsistent(r, combine))
  }

  /** The builder produces a hash-consistent tree from any non-empty level of leaves. */
  lemma {:induction false} BuildConsistent<T>(s: seq<Tree<T>>, combine: Combiner)
    requires |s| >= 1 && AllNodes(s)
    requires forall i :: 0 <= i < |s| ==> HashConsistent(s[i], combine)
    ensures HashConsistent(Build(s, combine), combine)
    decreases |s|
  {
    if |s| > 1 {
      var next := Level(s, combine);
      forall j | 0 <= j < |next|
        ensures HashConsistent(next[j], combine)
      {
        LevelAt(s, combine, j);
      }
      BuildConsistent(next, combine);
    }
  }

  // ---------------------------------------------------------------------------
  // Leaf queries
  // ---------------------------------------------------------------------------

  /** The hashes of the leaves of t, left to right. */
  function LeafHashes<T>(t: Tree<T>): seq<Hash>
  {
    match t
    case Nil => []
    case Node(l, r, h, _) => if t.IsLeaf() then [h] else LeafHashes(l) + LeafHashes(r)
  }

  lemma {:induction false} LeafHashesAreLeaves<T>(t: Tree<T>)
    ensures |LeafHashes(t)| == |Leaves(t)|
    ensures forall i :: 0 <= i < |Leaves(t)| ==> LeafHashes(t)[i] == Leaves(t)[i].hash
  {
    match t
    case Nil =>
    case Node(l, r, _, _) =>
      if !t.IsLeaf() {
        LeafHashesAreLeaves(l);
        LeafHashesAreLeaves(r);
      }
  }

  /** Some leaf of t carries hash h. */
  predicate HasLeaf<T>(t: Tree<T>, h: Hash)
  {
    h in LeafHashes(t)
  }

  /** Every leaf of t carries a transaction. */
  predicate AllLoaded<T>(t: Tree<T>)
  {
    forall i :: 0 <= i < |Leaves(t)| ==> Leaves(t)[i].tx.Some?
  }

  /** A leaf is loaded exactly when it holds a transaction. */
  lemma AllLoadedLeaf<T>(t: Tree<T>)
    requires t.IsLeaf()
    ensures AllLoaded(t) <==> t.tx.Some?
  {
    assert Leaves(t) == [t];
    assert Leaves(t)[0] == t;
  }

  /** An inner node is fully loaded exactly when both of its subtrees are. */
  lemma AllLoadedSplit<T>(t: Tree<T>)
    requires t.Node? && !t.IsLeaf()
    ensures AllLoaded(t) <==> AllLoaded(t.left) && AllLoaded(t.right)
  {
    var a, b := Leaves(t.left), Leaves(t.right);
    assert Leaves(t) == a + b;
    if AllLoaded(t.left) && AllLoaded(t.right) {
      forall i | 0 <= i < |Leaves(t)|
        ensures Leaves(t)[i].tx.Some?
      {
        if i >= |a| {
          assert Leaves(t)[i] == b[i - |a|];
        }
      }
    }
    if AllLoaded(t) {
      forall i | 0 <= i < |a|
        ensures a[i].tx.Some?
      {
        assert a[i] == Leaves(t)[i];
      }
      forall i | 0 <= i < |b|
        ensures b[i].tx.Some?
      {
        assert b[i] == Leaves(t)[|a| + i];
      }
    }
  }

  /** The index of the leftmost leaf in ls whose hash is h, or |ls| if there is none. */
  function FirstLeaf<T>(ls: seq<Tree<T>>, h: Hash): (k: nat)
    requires forall i :: 0 <= i < |ls| ==> ls[i].Node?
    ensures k <= |ls|
    ensures k < |ls| ==> ls[k].hash == h
    ensures forall i :: 0 <= i < k ==> ls[i].hash != h
  {
    if ls == [] then 0
    else if ls[0].hash == h then 0
    else 1 + FirstLeaf(ls[1..], h)
  }

  // ---------------------------------------------------------------------------
  // Loading a transaction into a skeleton
  // ---------------------------------------------------------------------------

  /**
   * The tree with every transaction dropped: what stays fixed once a tree is
   * built (its shape and all of its hashes).
   */
  function Skeleton<T>(t: Tree<T>): Tree<T>
  {
    match t
    case Nil => Nil
    case Node(l, r, h, _) => Node(Skeleton(l), Skeleton(r), h, None)
  }

  /**
   * The value-level effect of `load`: the recursion tries the left subtree
   * first and stops at the first leaf whose hash is h, attaching tx to it.
   */
  function Attach<T>(t: Tree<T>, tx: T, h: Hash): (res: (bool, Tree<T>))
    ensures res.0 <==> HasLeaf(t, h)
    ensures !res.0 ==> res.1 == t
    ensures Skeleton(res.1) == Skeleton(t)
  {
    match t
    case Nil => (false, Nil)
    case Node(l, r, hh, x) =>
      if t.IsLeaf() then
        if hh == h then (true, Node(Nil, Nil, hh, Some(tx))) else (false, t)
      else
        var (foundLeft, l') := Attach(l, tx, h);
        if foundLeft then (true, Node(l', r, hh, x))
        else
          var (foundRight, r') := Attach(r, tx, h);
          (foundRight, Node(l, r', hh, x))
  }

  /**
   * Loading touches exactly one leaf, the leftmost whose hash matches, and
   * gives it the transaction; every other leaf is unchanged.
   */
  lemma {:induction false} AttachLeaves<T>(t: Tree<T>, tx: T, h: Hash)
    requires Attach(t, tx, h).0
    ensures FirstLeaf(Leaves(t), h) < |Leaves(t)|
    ensures Leaves(Attach(t, tx, h).1)
         == Leaves(t)[FirstLeaf(Leaves(t), h) := Node(Nil, Nil, h, Some(tx))]
  {
    var loaded := Node(Nil, Nil, h, Some(tx));
    match t
    case Node(l, r, hh, x) =>
      if !t.IsLeaf() {
        var ll, lr := Leaves(l), Leaves(r);
        assert Leaves(t) == ll + lr;
        LeafHashesAreLeaves(l);
        FirstLeafOfConcat(ll, lr, h);
        var (fl, l') := Attach(l, tx, h);
        if fl {
          AttachLeaves(l, tx, h);
          var k := FirstLeaf(ll, h);
          assert Attach(t, tx, h).1 == Node(l', r, hh, x);
          assert Skeleton(l') == Skeleton(l);
          assert Leaves(Node(l', r, hh, x)) == Leaves(l') + lr;
          UpdateConcat(ll, lr, k, loaded);
        } else {
          var (fr, r') := Attach(r, tx, h);
          AttachLeaves(r, tx, h);
          var k := FirstLeaf(lr, h);
          assert FirstLeaf(ll, h) == |ll|;
          assert Attach(t, tx, h).1 == Node(l, r', hh, x);
          assert Skeleton(r') == Skeleton(r);
          assert Leaves(Node(l, r', hh, x)) == ll + Leaves(r');
          UpdateConcat(ll, lr, |ll| + k, loaded);
        }
      }
  }

  lemma UpdateConcat<X>(a: seq<X>, b: seq<X>, k: nat, v: X)
    requires k < |a| + |b|
    ensures k < |a| ==> (a + b)[k := v] == a[k := v] + b
    ensures k >= |a| ==> (a + b)[k := v] == a + b[k - |a| := v]
  {
  }

  /** Locating the first match in a concatenation. */
  lemma {:induction false} FirstLeafOfConcat<T>(a: seq<Tree<T>>, b: seq<Tree<T>>, h: Hash)
    requires forall i :: 0 <= i < |a| ==> a[i].Node?
    requires forall i :: 0 <= i < |b| ==> b[i].Node?
    ensures FirstLeaf(a, h) < |a| ==> FirstLeaf(a + b, h) == FirstLeaf(a, h)
    ensures FirstLeaf(a, h) == |a| ==> FirstLeaf(a + b, h) == |a| + FirstLeaf(b, h)
  {
    if a == [] {
      assert a + b == b;
    } else {
      assert (a + b)[1..] == a[1..] + b;
      FirstLeafOfConcat(a[1..], b, h);
    }
  }

  /** Hash consistency depends only on the skeleton, so loading preserves it. */
  lemma {:induction false} ConsistentSkeleton<T>(t: Tree<T>, u: Tree<T>, combine: Combiner)
    requires Skeleton(t) == Skeleton(u)
    ensures HashConsistent(t, combine) <==> HashConsistent(u, combine)
  {
    match t
    case Nil =>
    case Node(l, r, _, _) =>
      ConsistentSkeleton(l, u.left, combine);
      ConsistentSkeleton(r, u.right, combine);
  }

  // ---------------------------------------------------------------------------
  // Audit proofs
  // ---------------------------------------------------------------------------

  /**
   * The hash the verifier arrives at: starting from `start`, each entry is
   * combined on the side its flag names.
   */
  function Fold(proof: seq<AuditEntry>, start: Hash, combine: Combiner): (h: Hash)
    ensures proof == [] ==> h == start
  {
    if proof == [] then start
    else
      var cur := Fold(proof[..|proof| - 1], start, combine);
      var e := proof[|proof| - 1];
      if e.isRight then combine(cur, e.sibling) else combine(e.sibling, cur)
  }

  /**
   * With a combiner that never maps two different pairs to the same hash, a
   * proof leads to a given hash from one start hash only.
   */
  lemma {:induction false} FoldInjective(proof: seq<AuditEntry>, a: Hash, b: Hash, combine: Combiner)
    requires forall x, y, u, v :: combine(x, y) == combine(u, v) ==> x == u && y == v
    requires Fold(proof, a, combine) == Fold(proof, b, combine)
    ensures a == b
  {
    if proof != [] {
      FoldInjective(proof[..|proof| - 1], a, b, combine);
    }
  }

  /**
   * Folding a proof in two parts, the second starting where the first ended,
   * gives the fold of the whole: the verifier's loop can stop after any entry
   * and resume from the hash it has reached.
   */
  lemma {:induction false} FoldConcat(p: seq<AuditEntry>, q: seq<AuditEntry>, start: Hash, combine: Combiner)
    ensures Fold(p + q, start, combine) == Fold(q, Fold(p, start, combine), combine)
    decreases |q|
  {
    if q == [] {
      assert p + q == p;
    } else {
      assert (p + q)[..|p + q| - 1] == p + q[..|q| - 1];
      FoldConcat(p, q[..|q| - 1], start, combine);
    }
  }
}
