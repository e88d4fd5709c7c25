# Disjoint set (union–find) in Dafny

A verified model of a generic disjoint-set structure with union by rank and
path compression. The structure keeps a table from each registered element
value to its node. A node holds a rank, its own copy of the value and an
optional link to a parent node. It has three operations:

- `make_set` registers a value as a singleton partition.
- `find` walks parent links to the root and returns the root's value. It then
  points every node it passed directly at that root.
- `union` finds both roots and attaches the root of lower rank under the other.
  On a tie, the second value's root goes under the first's, and the first's rank
  rises by one. It returns the root that was absorbed, not the one that survives.
  It returns `None` when either value was never registered.

The model has four modules:

- `Forest` (`forest.dfy`) is the node arena. Nodes live at the indices of a
  sequence, and a parent link is the index of the parent node. It holds the pure
  functions that say what the operations do to the arena: `Root`, `Path`,
  `Compress`, `Link` and `Promote`. Its lemmas show that the arena stays a
  *ranked forest*: ranks strictly increase along every parent link, so there
  are no cycles and every walk ends. They also show what each operation does to
  each node's root.
- `Partitions` (`partition.dfy`) is the structure as a caller sees it. It maps
  every registered value to its representative and to its rank. `UnionPlan` and
  `UnionResult` define union by rank on that view alone, including the
  absorbed-root return value. The lemmas state the properties a caller relies
  on.
- `DisjointSets` (`disjoint_set.dfy`) contains the class `DisjointSet`. Its
  fields are the table `elements` (value to node index) and the arena `nodes`.
  Its methods update the fields in place, as the original does. `Find` keeps the
  original's `while` walk, which collects the visited nodes, and its `for`
  rewrite loop. Each method is proved against the caller's view:
  - `Find` leaves the partition and the ranks unchanged.
  - `Union` produces exactly `UnionResult` of the old view.
  - Every public method (the constructor, `MakeSet`, `Find` and `Union`) keeps the table and the arena consistent.
- `Scenarios` (`scenarios.dfy`) holds client code. It includes the rank-tie and
  chained-union examples, with every returned value fixed by the contracts.

## Model

| member | source | states |
|---|---|---|
| Forest.NewSubSet | src/lib.rs:106-111 | a new node has rank 0, carries the given value and has no parent |
| Forest.Root | src/lib.rs:40-44 | the walk from a node ends at a node without a parent; a node without a parent is its own root; otherwise the root has strictly higher rank, so the walk terminates |
| Forest.Path | src/lib.rs:34-44 | the nodes the walk records before reaching the root: none exactly when the start has no parent, and otherwise the start first |
| Forest.PathFollowsLinks | src/lib.rs:41-44 | the recorded nodes form a chain of parent links: each one's parent is the next recorded node, and the last one's parent is the root |
| Forest.PathLeadsToRoot | src/lib.rs:40-44 | every node the walk records is a non-root node of the arena with the same root as the start; the start is recorded exactly when it has a parent |
| Forest.AppendSingleton | src/lib.rs:106-111 | a fresh node of rank 0 without a parent keeps the arena a ranked forest, is its own root, adds exactly one root and leaves every other node's root alone |
| Forest.Compress | src/lib.rs:49-51 | compression keeps the arena's length and every rank and value, points every listed node at the root, and leaves every unlisted node as it was |
| Forest.CompressKeepsForest | src/lib.rs:49-51 | pointing the visited nodes at the root keeps a ranked forest with the same roots, ranks and values, and every visited node's parent becomes the root |
| Forest.CompressKeepsRoot | src/lib.rs:49-51 | after compression every node still reaches the root it reached before |
| Forest.Link | src/lib.rs:83-89 | attaching a node sets only that node's parent link, to the given parent; its rank and value and every other node stay as they were |
| Forest.Promote | src/lib.rs:90 | promotion raises only the given node's rank, by exactly one; its value and parent link and every other node stay as they were |
| Forest.FindCompress | src/lib.rs:31-54 | the arena a find from a node leaves behind: still a ranked forest of the same size with the same roots, in which every node of the walk points directly at the root |
| Forest.LinkByRank | src/lib.rs:78-91 | union's link between the roots of a and b: none when they coincide; otherwise only those two nodes change. a's root gets b's as parent exactly when its rank is lower; b's root gets a's as parent exactly when its rank is not lower; a's root's rank rises by one exactly on a tie |
| Forest.LinkKeepsForest | src/lib.rs:82-87 | attaching a root under a root of higher rank keeps the arena a ranked forest and removes exactly the attached root from the roots |
| Forest.LinkRedirectsRoot | src/lib.rs:82-87 | after that link every node that reached the attached root reaches the other root, and every other node keeps its root |
| Forest.PromoteKeepsForest | src/lib.rs:90 | raising a root's rank keeps the arena a ranked forest with the same roots, node by node |
| Forest.LinkEqualRanks | src/lib.rs:88-91 | in the tie case, linking then raising the survivor's rank keeps a ranked forest, removes exactly the attached root and redirects its nodes to the survivor |
| Partitions.UnionPlan | src/lib.rs:59-92 | union decides Unregistered exactly when a value is unregistered, and Shared exactly when both share a representative. Otherwise it absorbs one of the two distinct representatives into the other, never the one of higher rank. It promotes exactly when the ranks tie, and then b's representative is the one absorbed |
| Partitions.UnionResult | src/lib.rs:59-92 | union returns None exactly when a value is unregistered, and then changes nothing; otherwise it returns one of the two representatives. The partition keeps the same values, and every value outside both partitions keeps its representative |
| Partitions.PlanByLowerRank | src/lib.rs:82-87 | when the two representatives differ in rank, union absorbs the lower one into the higher one and promotes no one |
| Partitions.PlanByEqualRank | src/lib.rs:88-91 | when two distinct representatives tie, union absorbs b's into a's and promotes a's |
| Partitions.MergeKeepsCanonical | src/lib.rs:82-91 | folding one partition into another keeps every representative its own representative and removes exactly one representative |
| Partitions.UnionJoins | src/lib.rs:59-93 | a union of two registered values returns a value, keeps the view canonical over the same values and ranks, and leaves a and b with one representative |
| Partitions.UnionAbsorbsReturned | src/lib.rs:78-92 | for values in different partitions the returned value is one of the two representatives and is a representative no longer, so the partition count drops by exactly one |
| Partitions.UnionKeepsJoined | src/lib.rs:59-93 | two values that share a representative still share one after any later union |
| Partitions.UnionWithItself | src/lib.rs:78-80 | union of a value with itself returns its representative and changes neither the partition nor the ranks |
| DisjointSets.Representative | src/lib.rs:53 | the value returned for v is registered and names exactly the root node of v's walk |
| DisjointSets.PartitionIsCanonical | src/lib.rs:72-73 | in the caller's view every representative is registered and represents itself |
| DisjointSets.PartitionCount | src/lib.rs:25-54 | the number of distinct values find can return equals the number of nodes without a parent, which is at most the number of nodes and the number of registered values |
| DisjointSets.AppendKeepsPartition | src/lib.rs:25-27 | registering a fresh value keeps table and arena consistent, makes the value its own representative and changes no other value's representative |
| DisjointSets.AppendKeepsRanks | src/lib.rs:106-111 | registering a fresh value gives it rank 0 and changes no other rank |
| DisjointSets.CompressKeepsPartition | src/lib.rs:47-51 | path compression keeps table and arena consistent and changes neither the partition nor any rank |
| DisjointSets.RedirectMergesPartition | src/lib.rs:82-91 | when a link sends exactly the nodes of one root to another, the new partition folds the first root's value into the second's |
| DisjointSets.LinkMergesPartition | src/lib.rs:82-87 | attaching the lower-rank root keeps table and arena consistent, merges its partition into the other, sets its parent and removes one root |
| DisjointSets.LinkEqualRanksMergesPartition | src/lib.rs:88-91 | in the tie case the link followed by the promotion keeps table and arena consistent, merges b's root's partition into a's and removes one root |
| DisjointSets.LinkEqualRanksPromotesSurvivor | src/lib.rs:90 | in the tie case the survivor's rank rises by exactly one and no other rank changes |
| DisjointSets.SameRootIsUnion | src/lib.rs:78-80 | when a and b already reach the same root, union on the caller's view finds them sharing that root's value |
| DisjointSets.LinkIsUnion | src/lib.rs:82-87 | when the roots differ in rank, attaching the lower under the higher yields exactly the value returned and the partition that union on the caller's view yields |
| DisjointSets.LinkKeepsRanks | src/lib.rs:82-87 | in that case the ranks are exactly those union on the caller's view yields: unchanged |
| DisjointSets.TieLinkIsUnion | src/lib.rs:88-91 | on a tie, attaching b's root under a's and promoting a's yields exactly the value returned (b's root) and the partition that union on the caller's view yields |
| DisjointSets.TiePromotesRank | src/lib.rs:90 | on a tie the new ranks are exactly those union on the caller's view yields: a's root's rank plus one |
| DisjointSets.DisjointSet.constructor | src/lib.rs:18-22 | a new structure is empty: no value is registered and both views are empty |
| DisjointSets.DisjointSet.MakeSet | src/lib.rs:25-27 | a fresh value gets a new node of rank 0 without a parent; the partition gains it as its own representative and the ranks gain it with 0 |
| DisjointSets.DisjointSet.Find | src/lib.rs:31-54 | returns None exactly for unregistered values and then changes nothing; otherwise returns the value of the root of v's walk, points every visited node at that root and nothing else, and keeps partition, ranks, roots and table |
| DisjointSets.DisjointSet.WalkToRoot | src/lib.rs:40-44 | the loop stops at the root of the start node and has collected exactly the nodes on the walk |
| DisjointSets.DisjointSet.CompressPath | src/lib.rs:49-51 | the loop points every collected node at the root and changes nothing else |
| DisjointSets.DisjointSet.Union | src/lib.rs:59-93 | returns, and changes partition and ranks, exactly as union by rank on the caller's view says; with a unregistered nothing changes; with only b unregistered only a's compression happened; already joined, no root changes; otherwise the returned value's parent is the new representative of a and one root fewer remains; with both registered the new arena is exactly a's find compression, then b's, then the link by rank between the roots found |
| DisjointSets.DisjointSet.LinkRoots | src/lib.rs:72-92 | given both roots, the three-way rank comparison produces exactly the union on the caller's view, and the new arena is exactly the link by rank between the two roots (unchanged when they coincide) |
| DisjointSets.DisjointSet.AttachRoot | src/lib.rs:82-87 | attaching the lower-rank root returns it, yields the union's partition and unchanged ranks, and leaves one root fewer; the new arena is the old one with only the lower root's parent link set |
| DisjointSets.DisjointSet.AttachTie | src/lib.rs:88-91 | on a tie, attaching b's root under a's and raising a's rank returns b's root and yields the union's partition and ranks; the new arena is the old one with only b's root's parent link set and a's root's rank raised by one |
| Scenarios.UnionOfTwoSingletons | src/lib.rs:88-91 | union(1, 2) of two rank-0 singletons returns 2, leaves both represented by 1, and gives 1 rank 1 |
| Scenarios.UnionBesideSingleton | src/lib.rs:88-91 | the same union with a third singleton 3 beside the pair leaves 3 alone |
| Scenarios.UnionPairWithSingleton | src/lib.rs:85-87 | union(2, 3) against a rank-1 pair represented by 1 absorbs the singleton 3 and returns 3 |
| Scenarios.RankTie | src/lib.rs:88-91 | make_set(1), make_set(2), union(1, 2) returns Some(2), and afterwards find(1) and find(2) both return Some(1) |
| Scenarios.ChainedUnion | src/lib.rs:59-93 | after make_set of 1, 2, 3, union(1, 2) and union(2, 3) return Some(2) and Some(3); all three finds return Some(1), and 3's node points directly at 1 |
| Scenarios.FindAfterMakeSet | src/lib.rs:25-27 | find right after make_set of a fresh value returns that value |
| Scenarios.FindsAgreeAfterUnion | src/lib.rs:59-93 | after union of two registered values, find on either returns the same value |

## Left out

- Shared ownership (`Rc`, `Weak`, `RefCell`, `upgrade`/`downgrade`) is modelled as node indices into an arena; a parent link is an index, and a `Weak` link that fails to upgrade cannot arise in the model.
- The `HashMap` and the `Hash`/`Clone` bounds on the element type are modelled as a Dafny `map` over any type with equality; `#[derive(Clone)]` has no counterpart.
- DisjointSets.DisjointSet.MakeSet: requires the value to be unregistered. The original replaces the table entry of a registered value with a fresh node. The old node's only strong owner is then gone, so a `find` from any node that hung below it panics when upgrading the parent link at src/lib.rs:43. Re-inserting a value is therefore not modelled.
- DisjointSets.DisjointSet.AttachTie: ranks are unbounded naturals, while the original's rank is a `u32` incremented at src/lib.rs:90 without a check. A root of rank r heads a tree of at least 2^r nodes, so union by rank keeps every rank at most the base-2 logarithm of the number of nodes, and the increment cannot wrap in any reachable state. This bound is an argument, not a proof: the model does not prove it.
- Amortized running time (the inverse-Ackermann bound) is not a functional property and is not modelled. What compression leaves behind is modelled: every visited node points directly at the root.
