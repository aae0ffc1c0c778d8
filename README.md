# MNode: a node of the IoTDB metadata tree

IoTDB keeps its time-series namespace (`root.sg1.d1.s1`) as a tree of
`MNode` objects. Each node has:

- a name and a parent link;
- two lazily allocated child maps: the primary `children` and the `aliasChildren`;
- a cached full path, interned through a process-wide string pool.

A node can count the leaves below it and serialize its subtree, one line
`type,name,childCount` per node, in post-order.

The model is a Dafny class `MNodes.MNode` with the same fields. A Java
`null` map or cache is `None`. The mutating operations are methods with
`modifies` frames, and the side-effect-free queries are functions.

- **Upward walks.** These build the full path and the partial path. Each
  takes the ancestor chain as a ghost argument (`AncestorChain`: the node
  first, each next element the previous one's parent, the root last). The
  lemma `AncestorChainUnique` shows the parent links fix this chain.
- **Downward recursions.** These are the leaf count and the serialization.
  Each takes a ghost footprint and a height bound (`Bounded`).
- **Iteration order.** The child map is a `ConcurrentHashMap`, so its order
  is unspecified. `EntryOrder` yields some listing of the keys, and the
  loops follow it or pick keys arbitrarily. Every property of the output is
  proved for all orders. A property that must not depend on the order is
  stated over sets and multisets.
- **Writer.** The `BufferedWriter` is a sequence of `Line(tag, name,
  childCount)` triples. The serialization takes it and returns it extended.
- **Format check.** The module `Encoding` gives the format an abstract
  `Tree` and the single-pass stack reconstruction the format is designed
  for (`Decode`). It proves that `Decode` inverts `Encode` in both
  directions.
- **Path strings.** The module `Paths` joins names with the separator and
  splits them back.
- **Scenarios.** The module `Scenarios` builds small trees and states
  their outcomes:
  - the first writer wins;
  - alias conflicts;
  - the stale full-path cache;
  - the four-line serialization of `root.sg1.d1.s1`.

## Model

All source paths are under `server/src/main/java/org/apache/iotdb/db/metadata/mnode/`.

| member | source | states |
|---|---|---|
| MNodes.MNode.constructor | server/src/main/java/org/apache/iotdb/db/metadata/mnode/MNode.java:73-76 | a new node has the given parent and name, no cached path and neither child map allocated |
| MNodes.PathPool.constructor | server/src/main/java/org/apache/iotdb/db/metadata/mnode/MNode.java:43-44 | the path pool starts empty, hence interned |
| MNodes.MNode.GetChildren | server/src/main/java/org/apache/iotdb/db/metadata/mnode/MNode.java:220-225 | an unallocated child map reads as the empty map, an allocated one as itself |
| MNodes.MNode.HasChild | server/src/main/java/org/apache/iotdb/db/metadata/mnode/MNode.java:81-84 | true exactly when the name is a key of the primary children or of the aliases |
| MNodes.MNode.GetChild | server/src/main/java/org/apache/iotdb/db/metadata/mnode/MNode.java:129-138 | non-null exactly when HasChild holds; a primary child shadows an alias of the same name, and the alias is the fallback |
| MNodes.PutIfAbsent | server/src/main/java/org/apache/iotdb/db/metadata/mnode/MNode.java:105 | the key set grows by the key, every earlier binding is kept, and the new value is stored only under an absent key |
| MNodes.MNode.AddChild | server/src/main/java/org/apache/iotdb/db/metadata/mnode/MNode.java:91-106 | the child map is allocated and is the old map with the name inserted if absent; the child now found under the name is the earlier one if there was one, else the new one; the aliases are untouched |
| MNodes.MNode.DeleteChild | server/src/main/java/org/apache/iotdb/db/metadata/mnode/MNode.java:111-115 | the child map is the old one minus the name, stays unallocated if it was, and the aliases are untouched |
| MNodes.MNode.DeleteAliasChild | server/src/main/java/org/apache/iotdb/db/metadata/mnode/MNode.java:120-124 | the alias map is the old one minus the alias, stays unallocated if it was, and the primary children are untouched |
| MNodes.MNode.AddAlias | server/src/main/java/org/apache/iotdb/db/metadata/mnode/MNode.java:157-168 | the alias map is allocated and gets the alias only if absent; the result is true exactly when the alias was absent or already named the same node |
| MNodes.MNode.SetParent | server/src/main/java/org/apache/iotdb/db/metadata/mnode/MNode.java:216-218 | only the parent link changes |
| MNodes.MNode.SetChildren | server/src/main/java/org/apache/iotdb/db/metadata/mnode/MNode.java:227-229 | only the child map changes |
| MNodes.MNode.SetName | server/src/main/java/org/apache/iotdb/db/metadata/mnode/MNode.java:235-237 | only the name changes; the cached full path is left as it was |
| MNodes.PathNames | server/src/main/java/org/apache/iotdb/db/metadata/mnode/MNode.java:186-195 | the names along the ancestor chain in reverse: one per node, the root's first and the node's own last |
| MNodes.AncestorChainUnique | server/src/main/java/org/apache/iotdb/db/metadata/mnode/MNode.java:190-193 | the walk up the parent links is determined by the node: two ancestor chains of one node are equal |
| MNodes.MNode.ConcatFullPath | server/src/main/java/org/apache/iotdb/db/metadata/mnode/MNode.java:197-205 | the walk yields the names from root to the node joined by the separator, and when no name holds the separator, splitting the result gives those names back |
| Paths.SplitJoin | server/src/main/java/org/apache/iotdb/db/metadata/mnode/MNode.java:202 | splitting a separator-joined path gives the segments back when no segment contains the separator |
| MNodes.MNode.GetFullPath | server/src/main/java/org/apache/iotdb/db/metadata/mnode/MNode.java:173-184 | the first call returns the joined ancestor names, caches them on the node and registers them in the pool; a later call returns the cache unchanged and leaves the pool alone; the pool stays interned |
| MNodes.MNode.GetPartialPath | server/src/main/java/org/apache/iotdb/db/metadata/mnode/MNode.java:186-195 | the segments are the ancestor names root first and the node last, one per level |
| MNodes.MNode.GetLeafCount | server/src/main/java/org/apache/iotdb/db/metadata/mnode/MNode.java:143-152 | the loop computes the order-independent sum of the children's leaf counts (0 for an unallocated map), and for base nodes that sum is 0 |
| MNodes.LeafSumPick | server/src/main/java/org/apache/iotdb/db/metadata/mnode/MNode.java:148-150 | the sum over the children does not depend on which child is taken first |
| MNodes.LeafCountZero | server/src/main/java/org/apache/iotdb/db/metadata/mnode/MNode.java:143-152 | a subtree of base nodes counts no leaves |
| MNodes.LeafSumZero | server/src/main/java/org/apache/iotdb/db/metadata/mnode/MNode.java:147-151 | the sum of the leaf counts of base-node children is 0 |
| MNodes.EntryOrder | server/src/main/java/org/apache/iotdb/db/metadata/mnode/MNode.java:252 | the entry iteration visits every key of the child map exactly once, in some order |
| MNodes.EnumerationLength | server/src/main/java/org/apache/iotdb/db/metadata/mnode/MNode.java:243 | a listing of the keys has as many entries as the map, the count the node writes |
| MNodes.MNode.SerializeTo | server/src/main/java/org/apache/iotdb/db/metadata/mnode/MNode.java:239-246 | the writer is extended by the post-order encoding of a tree depicting this subtree (any child order); the last line is the node's own `type,name,childCount` with the child-map size |
| MNodes.MNode.SerializeChildren | server/src/main/java/org/apache/iotdb/db/metadata/mnode/MNode.java:248-255 | what was written before is kept, and the writer is extended by the blocks of every child, one per entry, in the order the entries were taken; nothing is written for an unallocated map |
| MNodes.ChildWritten | server/src/main/java/org/apache/iotdb/db/metadata/mnode/MNode.java:252-254 | writing one more child's block extends the listing and the output together |
| Encoding.Encode | server/src/main/java/org/apache/iotdb/db/metadata/mnode/MNode.java:239-246 | a node's block ends with the node's own line carrying its child count |
| Encoding.RebuildEncode | server/src/main/java/org/apache/iotdb/db/metadata/mnode/MNode.java:239-246 | reading a subtree's block with the stack reconstruction pushes exactly that subtree |
| Encoding.RebuildEncodeAll | server/src/main/java/org/apache/iotdb/db/metadata/mnode/MNode.java:248-255 | reading the children's blocks pushes all the children, in the order written |
| Encoding.ReduceEncodesAt | server/src/main/java/org/apache/iotdb/db/metadata/mnode/MNode.java:242-243 | a node built over some subtrees encodes as their lines followed by its own line |
| Encoding.ReduceEncodes | server/src/main/java/org/apache/iotdb/db/metadata/mnode/MNode.java:242-243 | one reconstruction step appends exactly the line it read to the stack's encoding |
| Encoding.RebuildSound | server/src/main/java/org/apache/iotdb/db/metadata/mnode/MNode.java:239-255 | whatever the reconstruction builds re-encodes to the lines it read |
| Encoding.DecodeOfEncode | server/src/main/java/org/apache/iotdb/db/metadata/mnode/MNode.java:239-255 | decoding a written subtree gives the subtree back |
| Encoding.EncodeOfDecode | server/src/main/java/org/apache/iotdb/db/metadata/mnode/MNode.java:239-255 | a successful decoding came from the encoding of its result |
| Encoding.DecodeEncode | server/src/main/java/org/apache/iotdb/db/metadata/mnode/MNode.java:239-255 | decoding succeeds with a tree exactly when the lines are that tree's encoding |
| MNodes.LinesSumPick | server/src/main/java/org/apache/iotdb/db/metadata/mnode/MNode.java:252-254 | the multiset of the children's lines does not depend on which child is taken first |
| MNodes.SerializedLines | server/src/main/java/org/apache/iotdb/db/metadata/mnode/MNode.java:239-255 | whatever child order was taken, the written lines are, as a multiset, one line per node of the subtree with its name and child count |
| MNodes.KidsLines | server/src/main/java/org/apache/iotdb/db/metadata/mnode/MNode.java:248-255 | the children's blocks hold, as a multiset, the lines of every child subtree |
| MNodes.SerializedRoundTrip | server/src/main/java/org/apache/iotdb/db/metadata/mnode/MNode.java:239-255 | what one serializeTo wrote reads back as the tree it depicts, and holds exactly one line per node of the subtree |
| MNodes.DepictsNoChildren | server/src/main/java/org/apache/iotdb/db/metadata/mnode/MNode.java:249-251 | a node without children is written as a single line with count 0 |
| MNodes.DepictsSingleChild | server/src/main/java/org/apache/iotdb/db/metadata/mnode/MNode.java:252-254 | a node with one child entry is written with that child's tree as its only kid |
| Scenarios.FirstWriterWins | server/src/main/java/org/apache/iotdb/db/metadata/mnode/MNode.java:91-106 | two distinct nodes added under one name: the first is the one found |
| Scenarios.AliasConflict | server/src/main/java/org/apache/iotdb/db/metadata/mnode/MNode.java:157-168 | an alias succeeds, succeeds again for the same node, fails for another node, and still resolves to the first node |
| Scenarios.StaleFullPath | server/src/main/java/org/apache/iotdb/db/metadata/mnode/MNode.java:173-184 | after renaming sg1 to sg2, the full path is still "root.sg1" while a fresh walk gives "root.sg2" |
| Scenarios.ChildPath | server/src/main/java/org/apache/iotdb/db/metadata/mnode/MNode.java:197-205 | the path of a child of "root" is "root", the separator and the child's name |
| Scenarios.BuildChain | server/src/main/java/org/apache/iotdb/db/metadata/mnode/MNode.java:91-106 | adding sg1 under root, d1 under sg1 and s1 under d1 gives each node exactly that one child |
| Scenarios.ChainPartialPath | server/src/main/java/org/apache/iotdb/db/metadata/mnode/MNode.java:186-195 | the partial path of s1 is ["root", "sg1", "d1", "s1"] |
| Scenarios.ChainLines | server/src/main/java/org/apache/iotdb/db/metadata/mnode/MNode.java:239-255 | the chain encodes as the lines of s1, d1, sg1 and root, in that order, with counts 0, 1, 1, 1 |
| Scenarios.ChainBounded | server/src/main/java/org/apache/iotdb/db/metadata/mnode/MNode.java:148-149 | the chain's downward walk stays in its four nodes and ends within four levels |
| Scenarios.ChainDepicted | server/src/main/java/org/apache/iotdb/db/metadata/mnode/MNode.java:248-255 | the only tree the chain's serialization can depict is the chain itself |
| Scenarios.SerializeChain | server/src/main/java/org/apache/iotdb/db/metadata/mnode/MNode.java:239-255 | for root, sg1, d1, s1: the partial path of s1, a leaf count of 0, and four lines deepest first that decode back to the chain |

## Left out

- Concurrency: the `synchronized`/`volatile` double-checked allocation of both child maps and the thread safety of `ConcurrentHashMap` are not modelled, because that code exists only for concurrency. Lazy allocation is a sequential "if unallocated, allocate an empty map".
- Java reference identity of interned strings is not modelled, because Dafny strings are values. The path pool is a map from path to path, and the model states its entries and the returned value.
- MNodes.MNode.GetFullPath: requires the pool to be interned (every entry maps a path to itself). This node only ever writes such entries, and the pool's other writers are not part of this model.
- MNodes.MNode.ConcatFullPath, MNodes.MNode.GetPartialPath and MNodes.MNode.GetFullPath: take the ancestor chain as a ghost argument. They therefore require the parent links to end at a root. The Java code relies on the tree having no cycles and would loop forever on a cycle.
- MNodes.MNode.GetLeafCount and MNodes.MNode.SerializeTo: require the subtree to be finite and closed in a footprint. This is the tree shape the callers keep, not something the Java code checks.
- MNodes.MNode.GetLeafCount: models only the base class. The measurement node that counts itself as one leaf is a subclass not part of this model, so every base-node subtree counts 0. Every addend is 0, so the 32-bit `int` sum cannot overflow.
- MNodes.MNode.GetChildren and MNodes.MNode.SetChildren: map identity is not captured. Java hands out the node's own live map, or a shared immutable empty map, and setChildren stores the caller's map object. The model copies map values, so two nodes never share one child map: a later AddChild on one is not seen by the other. An insertion into the immutable empty map, which throws in Java, has no counterpart.
- MNodes.MNode.SerializeTo: the per-child call is virtual in Java, and storage-group and measurement nodes write their own lines. Those subclasses are not part of this model, so every descendant is written with the one base-node `tag`.
- MNodes.MNode.AddChild and MNodes.MNode.AddAlias: a null child is not modelled, because both take a non-null node. In Java `addChild(name, null)` throws a NullPointerException from `putIfAbsent`. `addAlias(alias, null)` on an absent alias stores nothing and returns true, because `computeIfAbsent` records no null result and null equals null.
- The text rendering of a line (`String.valueOf`, the commas, `newLine`) is not modelled: a line is the triple (tag, name, child count). A name containing a comma, which would make the text line ambiguous, is outside this model.
- `BufferedWriter` failures and `IOException` propagation are not modelled: the writer is a sequence that is always extended.
- The concrete values of the path separator and of `MetadataConstant.MNODE_TYPE` are not fixed: both are parameters (`sep`, `tag`).
- `PartialPath` construction is not modelled: GetPartialPath returns the segment sequence, and `PartialPath` is not part of this model.
- `Serializable`, `serialVersionUID`, the `transient` markers and `toString` are not modelled, because they carry no behaviour to state.
- `getName` and `getParent` are plain field reads. The model reads the fields directly.
- The cluster classes `DataClientProvider` (client pools) and `CheckConsistencyException` (a message only) are not part of this model.
- Deserialization of the lines back into `MNode` objects happens outside this class. The format's reader is modelled as `Encoding.Decode` on abstract trees.
