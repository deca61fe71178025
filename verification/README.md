# Merkle tree and message cache of the blockchain node, modelled in Dafny

This project models two sequential components of a small blockchain node.

The first is the Merkle tree over a block's transactions (`MerkelTree`). It covers:
- building a full tree from transactions, or a skeleton from bare leaf hashes;
- checking that every leaf holds a transaction;
- loading a transaction into the skeleton leaf whose hash matches it;
- finding the root-to-leaf path of a hash by an explicit-stack depth-first search;
- extracting the audit proof (sibling hashes with a side flag) for a transaction;
- verifying such a proof against a root hash.

The second is the server's message cache (`MessageCache`). It is an insertion-ordered set of message ids that refuses duplicates and evicts its oldest ids after each insertion.

Modules:
- `Wrappers` (`wrappers.dfy`): `Option` and `Result`.
- `MerkelModel` (`merkel_model.dfy`): the value-level tree `Tree<T>` and the specification functions the code is proved against. These are the level reduction `Level`/`Build`, leaf order `Leaves`, depth `Perfect`, the hash invariant `HashConsistent`, the loading effect `Attach`, and the proof fold `Fold`. It also holds the lemmas about them.
- `MerkelNodes` (`merkel_node.dfy`): the heap node `MerkelNode`.
  - Its children and hash are constant.
  - Its transaction is the only mutable field.
  - `Repr` is its footprint.
  - `Model()` is the tree value it currently denotes.
  - `Initial` is the tree it was built as.
- `MerkelTree` (`merkel_tree.dfy`): the static operations, as imperative methods over `MerkelNode` objects.
- `ServerMessage` (`message_cache.dfy`): the cache class, with `Evict` as the specification of its eviction loop.

The hash primitive is a pair of parameters:
- `leafHash: T -> Hash` stands for a transaction's digest.
- `combine: (Hash, Hash) -> Hash` stands for the parent digest.

The builder computes parents with `Hash.createHash(left, right)`. The verifier computes `Hash.applySha256(cur + sibling)`. Passing the same `combine` to both is the model's explicit assumption that `Hash.createHash(l, r)` equals `Hash.applySha256(l.hash + r.hash)`. The round trip depends on it.

The builders implement the corrected leaf-count guard: they refuse an empty list with IllegalArgument, as the comment "must be power of two" at MerkelTree.java:24 and :44 asks. The guard as written lets the empty list through, and `buildTree` then never returns (see Findings). `PassesLeafCountTestAsWritten` and `EmptyInputPassesAsWritten` model that guard.

Everywhere else the model follows the code. Two of these points contradict a comment in the source:
- `path` returns the nodes root first. The comment at MerkelTree.java:174 says the path runs from the lowest node to the root.
- The audit proof holds one entry for every node above the leaf, the root included, from the leaf's parent up to the root. The comment at MerkelTree.java:190 says the loop skips the root; it skips the leaf.

The others are behaviour no comment describes:
- On a one-node tree, `hashesNeededToVerifyTransaction` fails with an index out of bounds. It does not return an empty proof.
- `load` attaches the transaction to the leftmost leaf whose hash matches. It does not assume that leaf is unique.
- The message cache inserts first, then evicts while the size is at least the capacity. It therefore keeps at most `capacity - 1` ids, and may evict the id it has just added.

## Model

| member | source | states |
|---|---|---|
| MerkelModel.BitTestIsPowerOfTwo | src/main/java/mainpackage/blockchain/Trees/MerkelTree.java:24 | On positive sizes, the bit test `len & (len - 1) == 0` holds exactly for powers of two. |
| MerkelModel.PassesLeafCountTestAsWritten | src/main/java/mainpackage/blockchain/Trees/MerkelTree.java:24 | The guard as written passes a size iff it is 0 or a power of two. |
| MerkelModel.IsLeafCount | src/main/java/mainpackage/blockchain/Trees/MerkelTree.java:44 | The corrected guard passes a size iff it is a power of two; whatever it passes, the guard as written passes too. |
| MerkelModel.EmptyInputPassesAsWritten | src/main/java/mainpackage/blockchain/Trees/MerkelTree.java:43-45 | The guard as written lets size 0 through, although 0 is not a power of two. The level reduction maps the empty level to itself, so `buildTree` never reaches one node. |
| MerkelModel.ParentJoins | src/main/java/mainpackage/blockchain/Trees/MerkelTree.java:68-69 | A parent is an inner node without a transaction. Its leaves and leaf hashes are its left child's followed by its right child's, and it is hash-consistent iff both children are. |
| MerkelModel.PadIsBareLeaf | src/main/java/mainpackage/blockchain/Trees/MerkelTree.java:65 | The pad for an unpaired node is a leaf carrying that node's hash and no transaction, so a tree containing it is never complete. |
| MerkelModel.Level | src/main/java/mainpackage/blockchain/Trees/MerkelTree.java:57-73 | One pass turns a level of k nodes into ceil(k/2) nodes, so the outer loop terminates. |
| MerkelModel.Build | src/main/java/mainpackage/blockchain/Trees/MerkelTree.java:56-75 | The outer loop stops with exactly one node and returns it: the root is a node, never null, and a single node is its own root. |
| MerkelModel.LevelAt | src/main/java/mainpackage/blockchain/Trees/MerkelTree.java:59-69 | Parent j of a pass owns nodes 2j and 2j+1. For an unpaired last node it owns that node and a childless pad carrying its hash. Its hash is the combination of the two children's hashes, and it has no transaction. |
| MerkelModel.NeverPadsIffPowerOfTwo | src/main/java/mainpackage/blockchain/Trees/MerkelTree.java:62-66 | No level of the reduction has odd length (the padding branch is never taken) iff the leaf count is a power of two. |
| MerkelModel.LevelKeepsLeaves | src/main/java/mainpackage/blockchain/Trees/MerkelTree.java:58-71 | Pairing an even level keeps its leaves, in order. |
| MerkelModel.LevelPerfect | src/main/java/mainpackage/blockchain/Trees/MerkelTree.java:58-71 | Pairing an even level of perfect subtrees of depth d gives perfect subtrees of depth d+1. |
| MerkelModel.BuildPerfect | src/main/java/mainpackage/blockchain/Trees/MerkelTree.java:54-76 | Reducing 2^e perfect subtrees of depth d gives one perfect tree of depth d+e. Its leaves are theirs, left to right. |
| MerkelModel.BuildConsistent | src/main/java/mainpackage/blockchain/Trees/MerkelTree.java:68-69 | Every built tree is hash-consistent: every inner node has two children, and its hash is their combination. |
| MerkelModel.AllLoadedLeaf | src/main/java/mainpackage/blockchain/Trees/MerkelTree.java:96-97 | A leaf is complete iff it holds a transaction. |
| MerkelModel.AllLoadedSplit | src/main/java/mainpackage/blockchain/Trees/MerkelTree.java:90-91 | An inner node is complete iff both of its subtrees are. |
| MerkelModel.FirstLeaf | src/main/java/mainpackage/blockchain/Trees/MerkelTree.java:115-116 | Gives the index of the leftmost leaf with hash h. Every earlier leaf has another hash. |
| MerkelModel.Attach | src/main/java/mainpackage/blockchain/Trees/MerkelTree.java:108-128 | Loading succeeds iff some leaf carries the transaction's hash. On failure the tree is unchanged. Shape and all hashes are always unchanged. |
| MerkelModel.AttachLeaves | src/main/java/mainpackage/blockchain/Trees/MerkelTree.java:115-124 | A successful load changes exactly one leaf, the leftmost with a matching hash, which gets the transaction. Every other leaf is unchanged. |
| MerkelModel.ConsistentSkeleton | src/main/java/mainpackage/blockchain/Trees/MerkelTree.java:121-123 | Hash consistency depends only on shape and hashes, so loading preserves it. |
| MerkelModel.FoldInjective | src/main/java/mainpackage/blockchain/Trees/MerkelTree.java:203-211 | If `combine` never maps two different pairs to one hash, a proof reaches a given hash from only one start hash. |
| MerkelModel.Fold | src/main/java/mainpackage/blockchain/Trees/MerkelTree.java:206-210 | An empty proof leaves the transaction hash as it is, so it verifies only against a root hash equal to the transaction hash. |
| MerkelModel.FoldConcat | src/main/java/mainpackage/blockchain/Trees/MerkelTree.java:206-210 | Folding a proof in two parts, the second starting from the hash the first reached, gives the fold of the whole proof. |
| MerkelNodes.MerkelNode.Loaded | src/main/java/mainpackage/blockchain/Trees/MerkelTree.java:28-30 | A leaf made for a transaction is valid, owns only itself, carries the transaction's digest, and holds the transaction. |
| MerkelNodes.MerkelNode.constructor | src/main/java/mainpackage/blockchain/Trees/MerkelTree.java:69 | A node made from two children owns exactly them and itself, carries the given hash, and holds no transaction. |
| MerkelNodes.ChainHasLeaf | src/main/java/mainpackage/blockchain/Trees/MerkelTree.java:154-156 | A chain from the root to a leaf with hash h shows that the tree has such a leaf. |
| MerkelTree.LoadedLeaf | src/main/java/mainpackage/blockchain/Trees/MerkelTree.java:28-30 | Each new leaf node is newly allocated, owns only itself, and denotes the next transaction's leaf. It shares no node with the leaves made before it. |
| MerkelTree.SkeletonLeaf | src/main/java/mainpackage/blockchain/Trees/MerkelTree.java:48-50 | Each new leaf node is newly allocated, owns only itself, and denotes the next hash's leaf, with no transaction. It shares no node with the leaves made before it. |
| MerkelTree.LoadedLeaves | src/main/java/mainpackage/blockchain/Trees/MerkelTree.java:26-30 | The first loop of `generateFullTree` makes one leaf node per transaction, in order. The nodes are pairwise disjoint and all newly allocated. |
| MerkelTree.SkeletonLeafNodes | src/main/java/mainpackage/blockchain/Trees/MerkelTree.java:46-50 | The first loop of `generateEmptyTree` makes one childless node per hash, in order, with no transactions. The nodes are pairwise disjoint and all newly allocated. |
| MerkelTree.MakeParent | src/main/java/mainpackage/blockchain/Trees/MerkelTree.java:59-69 | Creates the parent of a pair, or of an unpaired node and its pad. It denotes `Parent` of the two, and the level's nodes stay pairwise disjoint. The parent and the pad are newly allocated; the children are the nodes passed in. |
| MerkelTree.MakeParentAt | src/main/java/mainpackage/blockchain/Trees/MerkelTree.java:59-69 | The parent made at position `index` extends the parents built so far by the parent of the pair at `2 * index`. The parents and the children not yet paired stay pairwise disjoint. |
| MerkelTree.PairNext | src/main/java/mainpackage/blockchain/Trees/MerkelTree.java:59-70 | One turn of the inner loop advances the index by two and adds one parent. Every node the parents own is newly allocated or owned by a child. |
| MerkelTree.PairNeighbours | src/main/java/mainpackage/blockchain/Trees/MerkelTree.java:57-71 | One inner-loop pass produces nodes that denote `Level` of the current level. They own disjoint subtrees, and every node they own is newly allocated or owned by a child. |
| MerkelTree.BuildTree | src/main/java/mainpackage/blockchain/Trees/MerkelTree.java:54-76 | The returned root denotes `Build` of the leaves. Every node it owns is newly allocated or owned by a leaf node passed in. |
| MerkelTree.FullTreeFacts | src/main/java/mainpackage/blockchain/Trees/MerkelTree.java:28-32 | For 2^e transactions, the built tree has the transaction leaves in input order. It is perfect of depth e, hash-consistent, and every leaf holds a transaction. |
| MerkelTree.SkeletonTreeFacts | src/main/java/mainpackage/blockchain/Trees/MerkelTree.java:48-51 | For 2^e hashes, the built skeleton has the hash leaves in input order. It is perfect of depth e, hash-consistent, and not complete. |
| MerkelTree.GenerateFullTree | src/main/java/mainpackage/blockchain/Trees/MerkelTree.java:22-33 | Fails with IllegalArgument iff the count is not a power of two, 0 included. Otherwise every node of the tree is newly allocated, and the tree denotes `Build` of the transaction leaves, keeps their order, has depth log2(n), and is hash-consistent and complete. |
| MerkelTree.GenerateEmptyTree | src/main/java/mainpackage/blockchain/Trees/MerkelTree.java:42-52 | Fails with IllegalArgument iff the count is not a power of two, 0 included. Otherwise every node of the skeleton is newly allocated, so it can be loaded into, and it denotes `Build` of the hash leaves, keeps their order, has depth log2(n), and is hash-consistent and not complete. |
| MerkelTree.IsComplete | src/main/java/mainpackage/blockchain/Trees/MerkelTree.java:85-99 | True iff the root is not null and every leaf of its tree holds a transaction. |
| MerkelTree.Load | src/main/java/mainpackage/blockchain/Trees/MerkelTree.java:108-128 | Returns false for a null root. Otherwise the result and the new tree are exactly `Attach` of the old tree, and only nodes of the tree are modified. |
| MerkelTree.PushChild | src/main/java/mainpackage/blockchain/Trees/MerkelTree.java:158-161 | Descending into a child whose hash is unvisited extends the root-to-top chain. The child was never pushed before, so the search terminates. |
| MerkelTree.PopDone | src/main/java/mainpackage/blockchain/Trees/MerkelTree.java:153-164 | Backtracking from a non-matching leaf or an exhausted node keeps the stack a root chain and records the node's hash. With distinct hashes, no visited hash marks a subtree holding the target. |
| MerkelTree.Path | src/main/java/mainpackage/blockchain/Trees/MerkelTree.java:137-169 | Null root gives null. A leaf root gives an empty list if its hash matches, else null. For an inner root, a result starts at the root, each node is a child of the one before, and it ends at a leaf with the hash. With distinct hashes, it finds a path iff such a leaf exists. |
| MerkelTree.AuditTrailFolds | src/main/java/mainpackage/blockchain/Trees/MerkelTree.java:188-200 | Folding the audit entries of a chain of hash-consistent nodes, starting from the bottom hash, gives the top hash. |
| MerkelTree.HashesNeededToVerifyTransaction | src/main/java/mainpackage/blockchain/Trees/MerkelTree.java:173-201 | Null root, an absent hash or a missing child gives NullPointer. A matching one-node tree gives IndexOutOfBounds. Otherwise there is one entry per node above the leaf, from its parent up to the root, each holding the other child's hash and whether it is the right one. On a consistent tree the entries fold to the root hash. With distinct hashes, a proof exists iff the leaf does. |
| MerkelTree.Verify | src/main/java/mainpackage/blockchain/Trees/MerkelTree.java:203-211 | Accepts iff folding the entries from the transaction hash, on the side each flag names, gives the root hash. |
| MerkelTree.AuditRoundTrip | src/main/java/mainpackage/blockchain/Trees/MerkelTree.java:188-211 | The proof produced for a transaction present in a consistent tree with distinct hashes is accepted against that tree's root hash. |
| ServerMessage.Evict | src/main/java/server/message/MessageCache.java:19-21 | Eviction keeps the newest ids, in order: all of them when fewer than the capacity, otherwise the newest `capacity - 1`. |
| ServerMessage.EvictStep | src/main/java/server/message/MessageCache.java:19-20 | Removing the oldest id while the size is at least the capacity does not change what the whole eviction loop leaves. |
| ServerMessage.EvictCapacityOne | src/main/java/server/message/MessageCache.java:19-21 | With capacity 1, eviction leaves the cache empty. |
| ServerMessage.EvictAfterAdd | src/main/java/server/message/MessageCache.java:18-21 | Adding to a cache below capacity evicts at most one id, the oldest. |
| ServerMessage.NewestSurvives | src/main/java/server/message/MessageCache.java:18-21 | With capacity at least 2, the id just added survives as the newest. |
| ServerMessage.EvictKeeps | src/main/java/server/message/MessageCache.java:16-22 | After adding a new id, the survivors repeat no id, and each is an old id or the new one. |
| ServerMessage.MessageCache.constructor | src/main/java/server/message/MessageCache.java:10-13 | A new cache is empty and keeps the given capacity. |
| ServerMessage.MessageCache.Add | src/main/java/server/message/MessageCache.java:15-23 | A held id is refused and nothing changes. A new id yields true even if evicted again. The contents become `Evict(old + [id])`, so the cache keeps no duplicates and holds fewer than `capacity` ids. |

## Left out

- The bodies of `Hash.createHash` and `Hash.applySha256` (SHA-256): they are the parameters `leafHash` and `combine`. Collision and tamper resistance are cryptographic assumptions, not properties of this code, and are not proved. `FoldInjective` states what an injective combiner would give.
- `MerkelNode`, `Transaction` and `Pair` are not part of this model. The node has only the fields the tree code reads and writes. A leaf built from a transaction is assumed to carry `leafHash(tx)`, the same digest `load` computes.
- MerkelTree.Path: with duplicate hashes it is proved sound only, not complete. Its `visited` list is keyed by hash, so a subtree whose hash equals an already explored one is skipped. Completeness is proved under the precondition that no two nodes share a hash.
- MerkelTree.HashesNeededToVerifyTransaction: for the same reason, it is proved to succeed on a present leaf only when no two nodes share a hash.
- ServerMessage.MessageCache.Add: it requires `capacity >= 1`. With a smaller capacity, the eviction loop removes the first element of an empty set (`remove(null)`) forever, so `add` never returns.
- The `synchronized` modifier on `add` (concurrency), and the inherited `LinkedHashSet` operations such as `remove` and `addAll` that bypass the capacity logic.
- Java null ids, hashes and transactions are not modelled: `T` and `Hash` have no null. The model therefore misses these cases:
  - `add(null)` is accepted by the `LinkedHashSet`. Once null is the oldest id, `findFirst()` at MessageCache.java:20 throws NullPointerException. It does so after `super.add` has inserted the new id, so every later new id also throws, stays in the set, and the set grows past its capacity.
  - A null transaction at MerkelTree.java:29 gives a leaf that `isComplete` rejects.
  - A null `rootHash` at MerkelTree.java:211 throws NullPointerException.
- Java exceptions are modelled as `Err` results that name them: IllegalArgument, NullPointer, IndexOutOfBounds.
- Java `int` overflow of list sizes: sizes are unbounded naturals. The `len - 1 = -1` case of the guard is written out.
- The commented-out debug printing in `hashesNeededToVerifyTransaction` and `verify`.
- The staking transaction class (a static key-file load, which is I/O) is not part of this model.

## Findings

| source | as written | input that shows it | evidently intended | confidence | as-written member | corrected member |
|---|---|---|---|---|---|---|
| src/main/java/mainpackage/blockchain/Trees/MerkelTree.java:24 | The guard `(len & len - 1) != 0` in `generateFullTree` lets `len == 0` through, because `0 & -1 == 0`. `buildTree` then loops forever: an empty level pairs into an empty level and never reaches size 1. | An empty transaction list | Refuse every count that is not a power of two, including 0, with IllegalArgumentException | high (not executed) | MerkelModel.EmptyInputPassesAsWritten | MerkelTree.GenerateFullTree |
| src/main/java/mainpackage/blockchain/Trees/MerkelTree.java:44 | The same guard in `generateEmptyTree` lets `len == 0` through, and `buildTree` loops forever. | An empty hash list | Refuse every count that is not a power of two, including 0, with IllegalArgumentException | high (not executed) | MerkelModel.EmptyInputPassesAsWritten | MerkelTree.GenerateEmptyTree |
