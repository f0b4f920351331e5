# mydht, modelled in Dafny

This project models the algorithmic cores of the mydht crates and proves what they keep over all
inputs and all runs. Sequential code that updates state in place is modelled by classes, arrays and
loops, each proved against a specification; what the code is for is then proved about the
specification.

| files | what they model |
|---|---|
| `Elements`, `KBucket`, `BucketTree`, `BucketGrowth`, `BucketPruning`, `BucketQueries`, `Nearness`, `KNodeTable`, `TableRuns` | the Kademlia bucket table of mydht-btkad |
| `TrustLevels`, `WotTrust`, `TrustRuns` | the two web-of-trust calculators of mydht-wot |
| `Shuffles`, `KvCache`, `SimpleCache` | random selection from caches in mydht-base |
| `TunnelRoutes` | the route provider of mydht-tunnel |
| `AsymShadow` | the asymmetric-only block buffering of mydht-openssl |
| `UserPolls` | the user-space poll of mydht-userpoll |
| `RoundRobin` | round-robin routing of mydht-inefficientmap and the hop history of mydht-base |
| `Sequences` | shared facts about sequences |

## How the bucket table is specified

Three descriptions of a table are tied together by `BucketTree.TableInv`. The flat vectors
`bintree`, `buckets` and `rem_ix` represent (`Rep`, `Free`) a tree whose nodes carry their index;
the tree represents (`Sem`) a plain list of distinct elements, oldest first, each leaf holding the
sub-list of the elements whose distance bits start with its path. Operations are specified twice:
on the list (`Touched`, `Without`), and on the shape of the tree without its indices. `AddTo`
refreshes one bucket and splits it if it is over-full; `RemoveFrom` works bottom-up and says of
every subtree whether it keeps its form, becomes a single bucket, or is damaged. An element is the
pair of its routing bits and its long key: `kelem_eq` compares both, so several elements can share
their bits, as mydht-base/src/route.rs:95-102 allows.

## What turned out false, and when it holds

- `remove` looks for the sibling of an emptied bucket by walking all the way to a bucket. When the
  sibling is an inner node and the walk does not stop the loop, a slot in use ends up pointing to a
  freed one. `Remove` proves both directions: the result is the right table exactly when
  `RemoveFrom` does not end in `Wrong`, and otherwise it is no table for any tree and any list.
  `RemoveBreaksTable` is a concrete run from `new`; it removes an element that was never added, and
  afterwards the lookup of a stored one ends in the wrong bucket.
- `add` splits an over-full bucket without checking that its elements differ in their bits. It
  panics exactly when more than a bucketful of elements share the bits of the new one
  (`SplittableIffFewCollisions`); that is the precondition of `Add`. `ThirdCollisionPanics` is a run.
- `get_closest` does not return the nearest elements, as its own comment says: `LatestIsNotNearest`
  is a run. `Nearness` proves that buckets are totally ordered by nearness to any identifier, the
  bucket it resolves to coming first, and gives the exact condition on the table (`VisitsInOrder`):
  the buckets that the visit reaches before it has collected enough are nearer than the others that
  it is not through with by then, and where it stops inside a bucket, the latest are the nearest
  there. Up to the size of the first bucket this depends on the order inside it alone; for exactly
  that size, and when everything is asked for, the result is the nearest.
- Exp returns early when the capped level of a signature is unchanged, also when the signer's own
  level changed. Its table then is not the histogram of the current signatures;
  `ExpInStepIff` gives the exact condition over whole runs, and `ExpOutOfStep` is a run.
- More signatures can make the Classic trust worse (`ClassicNotMonotone`). `ClassicMonotoneIff` says
  exactly when; a caller only needs to know that no originator better than those who decided signs
  more (`ClassicMonotoneBelow`). Exp is monotone.
- The routing position is not corrected when a peer is removed. `RemoveVal` says exactly when it
  stays in range, and `RemoveLeavesNextOutOfRange` is a run after which it is not.
- `poll` replaces the content of the event buffer. Events are conserved exactly when the previous
  batch was drained or the poll yields (`PollConserves`); `PollLosesEvent` is a run that loses one.
- The hop before the destination can be the destination: a single hop is drawn again excluding only
  us, and the last two hops are swapped without looking at the second one.
  `LastHopIsDestinationIff` gives the exact condition, `RoutesRepeatDestination` the runs. With two
  hops or more and distinct addresses it never happens.

## How the outside world enters

Random numbers, random bytes and nonces are parameters; statements hold for all of them. Reads of
the underlying stream return any non-empty prefix of what is left. The iteration order of a map is
any sequence of its keys. The cipher is any pair of functions where decryption undoes encryption and
ciphertexts have a fixed positive length, as in section 7.2 of RFC 8017. References to cache entries
are positions in iteration order.

## Model

| member | source | states |
|---|---|---|
| `TableRuns.Run` | mydht-btkad/src/knodetable.rs:164-398 | every run of `add` and `remove` from `new`: as long as no removal goes wrong the table satisfies the whole invariant, holds exactly the reference recency list and has the reference shape; the first removal that goes wrong leaves vectors that fit no tree and no list |
| `TableRuns.Apply` | mydht-btkad/src/knodetable.rs:164-398 | one operation, against the reference list and the reference shape |
| `TableRuns.StoredIffAddedLast` | mydht-btkad/src/knodetable.rs:163-398 | an element is in the reference list iff it was added and no later `add` or `remove` was about it; no element is listed twice |
| `TableRuns.AddAll` | mydht-btkad/src/knodetable.rs:163-240 | every run of `add` from `new`, for keys told apart by their bits, never panics and ends in a valid table holding the last occurrence of every element, in order |
| `TableRuns.RecencyIsLastOccurrences` | mydht-btkad/src/knodetable.rs:163-164 | refreshing positions one by one gives the list of last occurrences of the whole run |
| `TableRuns.RemoveBreaksTable` | mydht-btkad/src/knodetable.rs:313-398 | a concrete run: three additions and the removal of an element that was never added return false and leave vectors that fit no tree and no list; looking up an element that was added and never removed then ends in a bucket that does not hold it |
| `TableRuns.FewAdded` | mydht-btkad/src/knodetable.rs:164-240 | the table after up to three additions to buckets for two: one bucket, and then the split of the three elements |
| `TableRuns.LatestIsNotNearest` | mydht-btkad/src/knodetable.rs:253-294 | a concrete run: two additions, the nearer element first, after which asking for the closest one gives the farther one |
| `TableRuns.ThirdCollisionPanics` | mydht-btkad/src/knodetable.rs:446-482 | a concrete run: after two elements with the same bits in buckets of two, adding a third one ends in a bucket that cannot be split |
| `KNodeTables.KNodeTable.constructor` | mydht-btkad/src/knodetable.rs:44-60 | the new table is valid, empty and a single bucket |
| `KNodeTables.KNodeTable.Add` | mydht-btkad/src/knodetable.rs:164-240 | keeps the whole invariant (proper tree rooted at 0, no sharing, exact free list, capacities, every element in the leaf its distance bits lead to), moves the element to the end of the recency list, and gives the tree the shape of the reference `AddTo`, and takes slots from the end of the free list before it appends any; required: no more than a bucketful of elements with the same bits |
| `KNodeTables.KNodeTable.Remove` | mydht-btkad/src/knodetable.rs:313-398 | true iff the element was stored; if the reference `RemoveFrom` does not go wrong the table is valid, without the element, with the reference shape; if it does, no tree and no list fit the vectors; a bucket emptied just below the root makes exactly one merge; slots are freed, none is appended |
| `KNodeTables.KNodeTable.GetClosest` | mydht-btkad/src/knodetable.rs:253-294 | exactly min(nb, stored) pairwise different stored elements, starting with the latest of the bucket `id` resolves to, in bucket order; then later slots, then earlier ones; position by position, from every bucket reached the end of its list in its order. They are the nearest of the table iff the buckets reached before nb elements are collected are nearer than those not exhausted by then, and the latest are the nearest in the bucket where the count is reached, a condition on the table before the call; up to the size of the first bucket this is decided within it; it holds for exactly that size and when everything is asked for |
| `KNodeTables.KNodeTable.GetClosestOneBucket` | mydht-btkad/src/knodetable.rs:243-248 | the end of the list of the bucket that `id` resolves to, in its order; they are the nearest of the table iff they are the nearest of the bucket, and the whole bucket is strictly nearer than everything else |
| `KNodeTables.KNodeTable.ResolveBucket` | mydht-btkad/src/knodetable.rs:95-113 | the loop ends, within the key length, in the leaf of the tree that the distance bits lead to |
| `KNodeTables.KNodeTable.Resolved` | mydht-btkad/src/knodetable.rs:95-113 | the same on any valid table, with the data of the leaf |
| `KNodeTables.KNodeTable.LeafOf` | mydht-btkad/src/knodetable.rs:95-113 | the leaf of a key exists in the vectors and holds its bucket |
| `KNodeTables.KNodeTable.ResolveBucketParent` | mydht-btkad/src/knodetable.rs:116-137 | the loop ends in the leaf of the walk, and returns the last inner node before it |
| `KNodeTables.KNodeTable.TakeIn` | mydht-btkad/src/knodetable.rs:167-174 | the bucket an element resolves to is refreshed and nothing else changes |
| `KNodeTables.KNodeTable.TakeOut` | mydht-btkad/src/knodetable.rs:175-188 | the over-full bucket is split and its slot emptied |
| `KNodeTables.KNodeTable.SplitOver` | mydht-btkad/src/knodetable.rs:181-238 | an over-full leaf is replaced so that the table is valid again, for the same elements |
| `KNodeTables.KNodeTable.SplitLeaf` | mydht-btkad/src/knodetable.rs:182-238 | the splitting loop: a chain of nodes down to the split bit, with the shape of the reference split |
| `KNodeTables.KNodeTable.ChainRound` | mydht-btkad/src/knodetable.rs:192-235 | one round above the split bit keeps the invariant with a hole one level deeper |
| `KNodeTables.KNodeTable.ChainEnd` | mydht-btkad/src/knodetable.rs:192-237 | the last round closes the hole with the two halves |
| `KNodeTables.KNodeTable.Branch` | mydht-btkad/src/knodetable.rs:203-228 | an inner node gets two new children from the free list or the end of the vectors |
| `KNodeTables.KNodeTable.NewSlot` | mydht-btkad/src/knodetable.rs:204-215 | a slot that was not in use, from the end of the free list, or appended iff that is empty; everything in use is unchanged |
| `KNodeTables.KNodeTable.HasContent` | mydht-btkad/src/knodetable.rs:295-311 | a bucket has content iff it has elements, an inner node iff it has a child, a slot that does not exist has none |
| `KNodeTables.KNodeTable.TakeAway` | mydht-btkad/src/knodetable.rs:314-327 | the element leaves the bucket it resolves to; whether it was there and whether the bucket is now empty |
| `KNodeTables.KNodeTable.FindBrother` | mydht-btkad/src/knodetable.rs:340-345 | flipping one key bit and walking down finds the bucket that the model calls the brother, and its last inner node |
| `KNodeTables.KNodeTable.DropBrother` | mydht-btkad/src/knodetable.rs:345-367 | the brother and our slot are freed and our bucket moves to the parent |
| `KNodeTables.KNodeTable.KeepBrother` | mydht-btkad/src/knodetable.rs:368-390 | the brother and our slot are freed and the brother's bucket moves to the parent |
| `KNodeTables.KNodeTable.PruneRound` | mydht-btkad/src/knodetable.rs:333-394 | one round of the merging loop keeps the loop state, clean or broken, stops exactly as the reference says, and otherwise merges exactly the two slots that the walk with one bit flipped decides |
| `KNodeTables.KNodeTable.Prune` | mydht-btkad/src/knodetable.rs:329-395 | the whole merge-upward loop: a valid table of the reference shape iff no examined sibling was an inner node that did not stop the loop; otherwise no table at all |
| `Elements.Xor` | mydht-btkad/src/knodetable.rs:408-412 | bit by bit, whether the two differ |
| `Elements.WithoutAt` | mydht-btkad/src/knodetable.rs:507-519 | removing the one matching entry by position is removing the element |
| `Elements.RegionTouched` | mydht-btkad/src/knodetable.rs:429-443 | refreshing an element in the whole list refreshes it in its region and leaves other regions alone |
| `Elements.RegionWithout` | mydht-btkad/src/knodetable.rs:507-519 | the same for removal |
| `Elements.RegionNarrow` | mydht-btkad/src/knodetable.rs:192-201 | when a whole region lies on one side of a bit, that side is the region and the other is empty |
| `Elements.RegionHalf` | mydht-btkad/src/knodetable.rs:345-390 | when one half of a region is empty, the region is its other half, in the same order |
| `KBuckets.SplitIndex` | mydht-btkad/src/knodetable.rs:457-469 | the loop returns the length of the longest common prefix of all distances, although its reference element changes; it is the full length iff all distances are equal |
| `KBuckets.LargerHasEarlierBit` | mydht-btkad/src/knodetable.rs:460-468 | the larger of two xors has its first set bit no later |
| `KBuckets.LcpSplits` | mydht-btkad/src/knodetable.rs:457-469 | at the longest common prefix all distances agree before, and some two differ at, the split bit |
| `KBuckets.SidesPartition` | mydht-btkad/src/knodetable.rs:470-494 | both halves are non-empty and together are the bucket, as multisets and by size |
| `KBuckets.Position` | mydht-btkad/src/knodetable.rs:432-432 | finds a matching element iff there is one |
| `KBuckets.KBucket.constructor` | mydht-btkad/src/knodetable.rs:417-422 | the new bucket is empty |
| `KBuckets.KBucket.Add` | mydht-btkad/src/knodetable.rs:429-443 | insert at the end, or move to the end; the size follows |
| `KBuckets.KBucket.Remove` | mydht-btkad/src/knodetable.rs:507-519 | the list without the element; true iff it was there |
| `KBuckets.KBucket.GetClosest` | mydht-btkad/src/knodetable.rs:498-505 | the last `nb` entries, or all |
| `KBuckets.LatestIsSuffix` | mydht-btkad/src/knodetable.rs:498-505 | the latest entries are the end of the list, in its order |
| `KBuckets.KBucket.Split` | mydht-btkad/src/knodetable.rs:446-495 | for distances that are not all equal: two non-empty halves, in the original order, by the first bit where any two differ |
| `KBuckets.KBucket.Deal` | mydht-btkad/src/knodetable.rs:470-482 | the reverse-and-pop loop deals every element to its side and keeps the order |
| `BucketTree.InvPut` | mydht-btkad/src/knodetable.rs:164-398 | replacing a subtree in the tree and in the vectors keeps the whole invariant |
| `BucketTree.RepPut` | mydht-btkad/src/knodetable.rs:187-238 | the vectors represent the tree with one subtree replaced |
| `BucketTree.SemPut` | mydht-btkad/src/knodetable.rs:187-238 | a replaced subtree changes the contents on its path only |
| `BucketTree.BrotherWalk` | mydht-btkad/src/knodetable.rs:338-344 | walking the key with bit `j` flipped ends where the walk from the sibling at depth `j + 1` ends |
| `BucketTree.InnerNode` | mydht-btkad/src/knodetable.rs:95-113 | in any table, an index in use without a bucket has both children in use |
| `BucketGrowth.LeafFacts` | mydht-btkad/src/knodetable.rs:95-113 | every lookup ends within the key length in the leaf that holds the region of its path |
| `BucketGrowth.TouchLeaf` | mydht-btkad/src/knodetable.rs:167-180 | refreshing the leaf an element resolves to refreshes the recency list |
| `BucketGrowth.AboveSplit` | mydht-btkad/src/knodetable.rs:192-201 | above the split bit all pending elements go the way of the new one |
| `BucketGrowth.AtSplit` | mydht-btkad/src/knodetable.rs:192-237 | at the split bit the halves are the two sub-regions |
| `BucketGrowth.ChainStep` | mydht-btkad/src/knodetable.rs:192-235 | turning a leaf into an inner node with two leaves keeps the invariant |
| `BucketGrowth.RoundStep` | mydht-btkad/src/knodetable.rs:192-235 | a round above the split bit keeps the invariant |
| `BucketGrowth.EndStep` | mydht-btkad/src/knodetable.rs:192-237 | the last round restores the invariant without holes |
| `BucketGrowth.MovedDownShape` | mydht-btkad/src/knodetable.rs:192-235 | a round above the split bit leaves less to do of the same shape |
| `BucketGrowth.SplitTreeShape` | mydht-btkad/src/knodetable.rs:236-237 | the last round completes the reference split |
| `BucketGrowth.AddToLeaf` | mydht-btkad/src/knodetable.rs:164-240 | the reference `AddTo` changes the bucket at the end of the walk and nothing else |
| `BucketGrowth.AddToMeaning` | mydht-btkad/src/knodetable.rs:164-240 | a bucket that still fits stays where it is and no bucket is made; one that is over-full gives way to the buckets of its split only |
| `BucketGrowth.SplitShapeMeaning` | mydht-btkad/src/knodetable.rs:181-238 | a split makes exactly two buckets with elements, the halves by the first differing bit, and one empty bucket per bit above it |
| `BucketPruning.RemoveOutcome` | mydht-btkad/src/knodetable.rs:329-395 | the reference `RemoveFrom`, defined bottom-up on shapes, says exactly how far the merging loop rises, what it merges and when it goes wrong |
| `BucketPruning.RemoveMergesAll` | mydht-btkad/src/knodetable.rs:313-398 | when nothing goes wrong, a bucket that keeps an element stays where it is; one that becomes empty goes, and merging goes on until all is one bucket or the next brother has content |
| `BucketPruning.MergedRegion` | mydht-btkad/src/knodetable.rs:345-390 | a subtree that the loop turns into one bucket holds, in recency order, exactly the elements of that bucket |
| `BucketPruning.MergeRound` | mydht-btkad/src/knodetable.rs:345-394 | a merge keeps the loop state clean iff the examined sibling is a bucket |
| `BucketPruning.EndClean` | mydht-btkad/src/knodetable.rs:333-395 | a clean end of the loop is a valid table for the same list |
| `BucketPruning.PrunedTreeShape` | mydht-btkad/src/knodetable.rs:333-395 | where the loop ends decides the shape, as the reference says |
| `BucketPruning.StuckForever` | mydht-btkad/src/knodetable.rs:345-390 | once an inner node in use points to a freed slot, no tree and no list fit the vectors |
| `BucketPruning.LoopEnd` | mydht-btkad/src/knodetable.rs:329-395 | the end of the loop, clean or broken |
| `BucketPruning.NoPruning` | mydht-btkad/src/knodetable.rs:322-327 | nothing is merged when the bucket keeps an element or is the root |
| `BucketPruning.TakenOutInv` | mydht-btkad/src/knodetable.rs:314-320 | taking an element out of its bucket keeps the invariant for the list without it |
| `BucketPruning.StoredInLeaf` | mydht-btkad/src/knodetable.rs:314-320 | an element is stored iff the bucket it resolves to has it |
| `BucketPruning.RemoveShape` | mydht-btkad/src/knodetable.rs:314-327 | what taking an element out leaves of the tree, when the merging loop starts and how it ends, by the reference `RemoveFrom` |
| `BucketQueries.ClosestExact` | mydht-btkad/src/knodetable.rs:253-294 | bucket first, then later slots, then earlier ones: exactly min(nb, stored) different stored elements |
| `BucketQueries.SlotsPartition` | mydht-btkad/src/knodetable.rs:253-294 | the slots of a table partition its elements |
| `BucketQueries.SplittableIffFewCollisions` | mydht-btkad/src/knodetable.rs:457-482 | an `add` meets an over-full bucket that cannot be split iff more than a bucketful of elements share the new element's bits |
| `BucketQueries.FewCollisions` | mydht-base/src/route.rs:95-102 | when bits tell elements apart, at most one has given bits, so `add` never panics |
| `Nearness.BucketIsNearest` | mydht-btkad/src/knodetable.rs:243-248 | every element of the bucket that `id` resolves to is strictly nearer to `id` by XOR than every stored element outside it |
| `Nearness.NearestInBucket` | mydht-btkad/src/knodetable.rs:243-248 | a choice within that bucket is nearest in the table iff it is nearest in the bucket |
| `Nearness.SlotsAreOrdered` | mydht-btkad/src/knodetable.rs:253-294 | of any two buckets of a table one is, as a whole, strictly nearer to `id` |
| `Nearness.NearestIffInOrder` | mydht-btkad/src/knodetable.rs:253-294 | a choice of stored elements is nearest iff it takes buckets in the order of their nearness and the last one nearest first |
| `Nearness.ClosestIsNearestIff` | mydht-btkad/src/knodetable.rs:250-294 | for every nb, exactly when `get_closest` returns the nearest elements, by the sizes and the nearness of the buckets in the order of the visit |
| `Nearness.TakenInOrderIff` | mydht-btkad/src/knodetable.rs:253-294 | what is taken from each bucket and what is left in it follows from the number of elements visited before it |
| `Nearness.ClosestTakes` | mydht-btkad/src/knodetable.rs:253-294 | of every bucket exactly the latest are returned, as many as the buckets visited before left of nb |
| `Nearness.ClosestReadsOff` | mydht-btkad/src/knodetable.rs:253-294 | position by position: what comes from each bucket starts right after what came before and is the end of its list |
| `Nearness.LatestIsNearestIff` | mydht-btkad/src/knodetable.rs:243-248 | the latest of the bucket are nearest in the table iff nearest in the bucket |
| `Nearness.FillLength` | mydht-btkad/src/knodetable.rs:263-290 | a completion loop returns min(nb, total size of its slots) elements |
| `Nearness.PartingWays` | mydht-btkad/src/knodetable.rs:408-412 | of two elements that part below a path, the one that goes the way of `id` is nearer |
| `TrustLevels.ClassicIsFirstHit` | mydht-wot/src/classictrust.rs:235-265 | the Classic level is that of the lexicographically first hit (L, s), and there is none iff nothing hits |
| `TrustLevels.ExpIsLeastHit` | mydht-wot/src/exptrust.rs:184-219 | the Exp level is the least s of any hit, and there is none iff nothing hits |
| `TrustLevels.RowsAreCols` | mydht-wot/src/classictrust.rs:240-257 | counting by originator rows and by level columns agree |
| `TrustLevels.ExpNeverWorse` | mydht-wot/src/exptrust.rs:160-219 | on the same signatures and rules Exp has a level iff Classic has one, and it is never numerically worse |
| `TrustLevels.ExpMonotone` | mydht-wot/src/exptrust.rs:184-219 | a cell-wise larger histogram never gives a numerically worse Exp trust |
| `TrustLevels.ClassicNotMonotone` | mydht-wot/src/classictrust.rs:235-265 | two concrete histograms on which one more signature makes the Classic level worse |
| `TrustLevels.ClassicMonotoneIff` | mydht-wot/src/classictrust.rs:235-265 | for any two histograms, one cell-wise larger: there is still a level, and it is no worse iff the first row that now hits at all hits at the old level |
| `TrustLevels.ClassicMonotoneBelow` | mydht-wot/src/classictrust.rs:235-265 | when no row better than the one that decided grows, the Classic level does not get worse |
| `TrustLevels.ClassicAtMostIff` | mydht-wot/src/classictrust.rs:235-265 | the Classic level is s or better iff the first row that hits at all hits at s |
| `TrustLevels.RowHitsIff` | mydht-wot/src/classictrust.rs:240-257 | a row hits at some level iff it hits at the worst one |
| `TrustLevels.HitsAboveBarrier` | mydht-wot/src/classictrust.rs:235-265 | with no signature of an originator better than k, neither level is better than k |
| `TrustLevels.LevelsSame` | mydht-wot/src/classictrust.rs:235-265 | only cells with originator ≤ capped level below the number of rules matter |
| `ClassicTrust.RowPass` | mydht-wot/src/classictrust.rs:240-257 | the inner accumulator loop finds the first hit of its row and turns column counts up to L - 1 into column counts up to L |
| `ClassicTrust.Recalculate` | mydht-wot/src/classictrust.rs:235-265 | for any `calcmap` contents the nested loops return the closed form |
| `ClassicTrust.SetCellHolds` | mydht-wot/src/classictrust.rs:214-233 | changing one cell is changing the count of one signature |
| `Signatures.CappedAtMost` | mydht-wot/src/classictrust.rs:203-204 | the capped level is n or better iff both the signer's level and the level it gives are |
| `Signatures.CountedIff` | mydht-wot/src/classictrust.rs:214-233 | a signature is counted once, at the signer's own level and the worse of the two levels, iff both levels are in range |
| `ClassicTrust.NoSignatures` | mydht-wot/src/classictrust.rs:188-200 | without signatures and with positive thresholds there is no level |
| `ClassicTrust.ClassicWotTrust.constructor` | mydht-wot/src/classictrust.rs:188-200 | the empty histogram in its triangular shape, trust 255 |
| `ClassicTrust.ClassicWotTrust.Update` | mydht-wot/src/classictrust.rs:202-281 | `calcmap` stays the histogram of the signatures with the old one taken out and the new one put in; trust is their level or stays; the two flags say exactly what changed |
| `ClassicTrust.ClassicWotTrust.TakeOff` | mydht-wot/src/classictrust.rs:214-224 | takes one signature out of the histogram if it is in range and there |
| `ClassicTrust.ClassicWotTrust.PutOn` | mydht-wot/src/classictrust.rs:225-233 | puts one signature into the histogram if it is in range |
| `ExpTrust.RowPass` | mydht-wot/src/exptrust.rs:205-215 | the inner accumulator loop finds whether any originator level hits at this level, and keeps the row counts |
| `ExpTrust.ChangeRow` | mydht-wot/src/exptrust.rs:190-202 | one row of the table after the update; whether it changed |
| `ExpTrust.Sweep` | mydht-wot/src/exptrust.rs:184-219 | updating and counting in one loop gives the updated histogram and its closed form, 255 without a hit |
| `ExpTrust.ExpWotTrust.constructor` | mydht-wot/src/exptrust.rs:166-175 | the empty histogram, trust 255 |
| `ExpTrust.ExpWotTrust.Update` | mydht-wot/src/exptrust.rs:177-231 | the transposed table stays the histogram of the counted signatures, trust is their closed form; nothing happens when the capped level is unchanged |
| `TrustRuns.RunClassic` | mydht-wot/src/classictrust.rs:188-281 | over every run of updates that report a held signature or one out of range, the table is the histogram of the current signatures and trust is the level of the last time they had one, or 255 |
| `TrustRuns.ClassicTrustIsLastLevel` | mydht-wot/src/classictrust.rs:266-279 | that trust without recursion: the level after the last prefix of the run that had one, 255 if none ever had |
| `TrustRuns.ClassicStep` | mydht-wot/src/classictrust.rs:202-233 | reporting a signer's previous and new signature moves the histogram from one event to the next |
| `TrustRuns.HistogramUpdate` | mydht-wot/src/classictrust.rs:214-233 | replacing one signer's signature takes one count out of the histogram and puts one in |
| `TrustRuns.QCountsSigners` | mydht-wot/src/classictrust.rs:235-257 | the sums over cells count the signers at level L or better, themselves at s or better, who give s or better |
| `TrustRuns.LevelsBySigners` | mydht-wot/src/classictrust.rs:235-265 | both levels in terms of signers: the first pair (L, s), and the least s of any pair, such that rules[L] signers are at level L or better and give s or better; none iff there is no such pair |
| `TrustRuns.RunExp` | mydht-wot/src/exptrust.rs:166-231 | over every run of updates, whatever they report, Exp trust is the closed form of the signatures it counted, 255 without a hit |
| `TrustRuns.ClassicBarrier` | mydht-wot/src/classictrust.rs:202-281 | over every run in which only originators from level k on sign, Classic trust is never better than k |
| `TrustRuns.ExpBarrier` | mydht-wot/src/exptrust.rs:177-231 | the same for Exp |
| `TrustRuns.AdditionKeepsClassic` | mydht-wot/src/classictrust.rs:225-265 | one more signature of an originator no better than those who decided never makes the Classic level worse |
| `TrustRuns.UpdatesAgreeIff` | mydht-wot/src/exptrust.rs:178-182 | the two calculators count a held signature in the same way iff its change is not one of the signer's own level that leaves the in-range capped level as it was |
| `TrustRuns.ReportedIsHeld` | mydht-wot/src/classictrust.rs:214-224 | a reported signature that is held or out of range can be taken out of the histogram |
| `TrustRuns.ExpKeepsHistogramIff` | mydht-wot/src/exptrust.rs:178-182 | one event: Exp keeps the histogram of the current signatures iff the event is not such a change |
| `TrustRuns.ExpInStepIff` | mydht-wot/src/exptrust.rs:177-231 | whole runs: Exp has the histogram of the current signatures at every moment iff no event is such a change |
| `TrustRuns.ExpWorseOnlyWithoutLevel` | mydht-wot/src/exptrust.rs:160-231 | in those runs Exp trust is numerically worse than Classic trust only while the current signatures give no level, and then it is 255 |
| `TrustRuns.ExpOutOfStep` | mydht-wot/src/exptrust.rs:178-182 | a concrete run after which Exp trust is 2 while the current signatures give no level |
| `KvCache.ExactRand` | mydht-base/src/kvcache/mod.rs:49-90 | fails iff the cache is smaller than `min_no_repeat`; otherwise (min(nb_tot, len) / min_no_repeat) * min_no_repeat values, none missing, each aligned block from different entries, and exactly those the draws select |
| `KvCache.DrawBlock` | mydht-base/src/kvcache/mod.rs:65-76 | the inner loop is one partial Fisher-Yates shuffle of the array |
| `KvCache.PicksDistinct` | mydht-base/src/kvcache/mod.rs:63-76 | over all blocks, the pool stays a permutation and every aligned block is free of repetition |
| `KvCache.Resolve` | mydht-base/src/kvcache/mod.rs:77-89 | the fold fills every place with the entry picked for it |
| `Shuffles.PoolInjective` | mydht-base/src/kvcache/mod.rs:65-76 | the shuffle keeps the pool a permutation and draws different values |
| `Shuffles.ShuffleStep` | mydht-base/src/kvcache/mod.rs:67-75 | one round draws one more value and leaves the earlier ones alone |
| `Shuffles.EverySelectionCanBeDrawn` | mydht-base/src/kvcache/mod.rs:65-76 | every selection without repetition is the result of some draws |
| `KvCache.NextRandomValues` | mydht-base/src/kvcache/mod.rs:155-209 | stops at the first accepted roll with exactly the wanted number (what was asked for if at most two thirds of the l eligible entries, else two thirds rounded down, one for a single entry) of different entries that satisfy the filter, the ones that roll selects; empty iff nothing is eligible or asked for |
| `KvCache.Reroll` | mydht-base/src/kvcache/mod.rs:196-208 | the retry loop returns the selection of the first accepted roll, and nothing iff no roll is accepted |
| `KvCache.AcceptedIff` | mydht-base/src/kvcache/mod.rs:198-206 | a roll yields ceil(nb / ratio) entries, so it is accepted iff enough are marked and ratio = 1 or nb = 1 |
| `KvCache.AcceptedRollExists` | mydht-base/src/kvcache/mod.rs:196-208 | an accepted roll exists for every cache and filter |
| `KvCache.BvRand` | mydht-base/src/kvcache/mod.rs:220-278 | nothing iff fewer than nb entries are marked, else every ratio-th marked eligible entry before the nb-th |
| `KvCache.CountMarked` | mydht-base/src/kvcache/mod.rs:230-252 | counting over entries and, without a filter, counting over bits give the number of marked entries |
| `KvCache.PickMarked` | mydht-base/src/kvcache/mod.rs:259-276 | the second fold is the thinned list of marked entries |
| `KvCache.ThinLength` | mydht-base/src/kvcache/mod.rs:254-267 | every ratio-th of the first nb marked entries: ceil of the division |
| `KvCache.ThinIncreasing` | mydht-base/src/kvcache/mod.rs:259-276 | the picked entries are different, in cache order, and marked |
| `KvCache.CeilDivSame` | mydht-base/src/kvcache/mod.rs:198-203 | ceil(nb / ratio) = nb iff ratio = 1 or nb = 1 |
| `KvCache.MarkedUnfiltered` | mydht-base/src/kvcache/mod.rs:251-251 | without a filter, set bits beyond the unused ones are marked entries |
| `KvCache.CountEligible` | mydht-base/src/kvcache/mod.rs:160-163 | the number of entries that pass the filter |
| `KvCache.Marked` | mydht-base/src/kvcache/mod.rs:230-252 | the marked entries pass the filter and come in cache order |
| `KvCache.Wanted` | mydht-base/src/kvcache/mod.rs:168-181 | what was asked for if 3 queried <= 2 l, else the n with 3 n <= 2 l < 3 (n + 1), one for a single entry; at least 1, at most the eligible entries |
| `KvCache.Xess` | mydht-base/src/kvcache/mod.rs:183-195 | fewer than 8 unused bits, which fill the last byte |
| `KvCache.CountOkIsCard` | mydht-base/src/kvcache/mod.rs:129-134 | the count is the number of entries that pass the filter |
| `KvCache.MarkedIff` | mydht-base/src/kvcache/mod.rs:238-252 | an entry is marked iff it passes and the bit with its number among those that pass is set |
| `KvCache.ThinAt` | mydht-base/src/kvcache/mod.rs:259-276 | the k-th picked entry is the (k * ratio)-th marked one |
| `KvCache.SelectionIsFirst` | mydht-base/src/kvcache/mod.rs:196-208 | an accepted roll selects the first nb marked entries |
| `SimpleCaches.SimpleCache.constructor` | mydht-base/src/simplecache.rs:243-249 | the empty store |
| `SimpleCaches.SimpleCache.AddVal` | mydht-base/src/simplecache.rs:102-104 | stored under its own key, everything else unchanged |
| `SimpleCaches.SimpleCache.RemoveVal` | mydht-base/src/simplecache.rs:160-162 | gone, everything else unchanged |
| `SimpleCaches.SimpleCache.GetNextVals` | mydht-base/src/simplecache.rs:111-152 | exactly min(nb, len) different stored values, the random ones first, then those after the random position in cache order, then, only when these are used up, those up to it, for every random selection and every random position |
| `SimpleCaches.SimpleCache.NextVals` | mydht-base/src/simplecache.rs:111-152 | the same with the selection made by `next_random_values`, for every sequence of rolls; nothing iff no roll is accepted |
| `SimpleCaches.TopUp` | mydht-base/src/simplecache.rs:123-150 | the two complementary folds complete any selection to min(nb, len) different values; an entry up to the position is added only when all after it are in the result |
| `SimpleCaches.AddMissing` | mydht-base/src/simplecache.rs:128-147 | one fold adds missing entries on its side of the position, in cache order, and all of them when it falls short |
| `TunnelRoutes.Rp.constructor` | mydht-tunnel/src/tunnelconf.rs:84-95 | no peers, room for the longest route |
| `TunnelRoutes.Rp.ChangeRouteLength` | mydht-tunnel/src/tunnelconf.rs:97-107 | room for the new longest route, positions untouched |
| `TunnelRoutes.Rp.AddOnline` | mydht-tunnel/src/tunnelconf.rs:261-265 | the peer is appended, `positions` stays a permutation of the peer indices, and one peer fewer is missing |
| `TunnelRoutes.Rp.RemOnline` | mydht-tunnel/src/tunnelconf.rs:266-274 | exactly the first peer with that address goes, by swap with the last, and `positions` stays a permutation |
| `TunnelRoutes.Rp.FirstWith` | mydht-tunnel/src/tunnelconf.rs:267-267 | the first connected peer with an address, or nothing iff there is none |
| `TunnelRoutes.Rp.DropPosition` | mydht-tunnel/src/tunnelconf.rs:269-272 | the index that no longer exists is always found and taken out of the permutation |
| `TunnelRoutes.Rp.ShuffleDraw` | mydht-tunnel/src/tunnelconf.rs:303-311 | the swap loop draws pairwise different peer indices, as the draws say, and keeps the permutation |
| `TunnelRoutes.Rp.NewRoute` | mydht-tunnel/src/tunnelconf.rs:280-337 | from us to the destination, within the bias, hops at different connected peers, exactly the drawn ones, corrected when the last is the destination: the last two swapped, or a single one drawn again |
| `TunnelRoutes.LastHopIsDestinationIff` | mydht-tunnel/src/tunnelconf.rs:315-335 | the last hop is the destination iff, with two hops or more, the last two drawn both have its address, and with one hop, the drawn one and the first redrawn one that is not us both have it; never with two hops and distinct addresses |
| `TunnelRoutes.CorrectedPlaces` | mydht-tunnel/src/tunnelconf.rs:315-335 | all hops are the drawn ones at their own places, with the last two exchanged iff the last is the destination; only a single hop can be another one, the first redraw that is not us |
| `TunnelRoutes.FirstNotUsMeaning` | mydht-tunnel/src/tunnelconf.rs:324-331 | the redrawn hop is that of the first redraw that is not us; there is none iff all redraws are us |
| `TunnelRoutes.RoutesRepeatDestination` | mydht-tunnel/src/tunnelconf.rs:315-335 | concrete runs: a one-hop and a two-hop route whose last hop is the destination |
| `TunnelRoutes.Rp.Redraw` | mydht-tunnel/src/tunnelconf.rs:324-331 | the redraw loop returns the first redraw that is not us |
| `TunnelRoutes.HopCount` | mydht-tunnel/src/tunnelconf.rs:281-290 | within the bias of the route length |
| `TunnelRoutes.HopCountOnto` | mydht-tunnel/src/tunnelconf.rs:281-290 | every number of hops within the bias can be drawn |
| `TunnelRoutes.Rp.EnoughPeersIff` | mydht-tunnel/src/tunnelconf.rs:251-260 | `missing_peer` is 0 iff every route that can be drawn has enough peers |
| `TunnelRoutes.Rp.MissingPeer` | mydht-tunnel/src/tunnelconf.rs:251-260 | that many more peers, and no fewer, are enough for the longest route |
| `TunnelRoutes.SwapRemoveMultiset` | mydht-tunnel/src/tunnelconf.rs:266-274 | swap-removal takes out one entry and keeps all others |
| `TunnelRoutes.RouteOf` | mydht-tunnel/src/tunnelconf.rs:297-337 | us, the picked peers in order, the destination |
| `AsymShadow.RoundTrip` | mydht-openssl/src/rsa_openssl.rs:955-1122 | for every cut into writes, every positive read size and every pattern of short reads, reading gives exactly the bytes written and then end of stream |
| `AsymShadow.SendAll` | mydht-openssl/src/rsa_openssl.rs:1050-1122 | the encrypted blocks are the bytes cut at the plaintext length, whatever the chunks were |
| `AsymShadow.Writer.constructor` | mydht-openssl/src/rsa_openssl.rs:1026-1033 | nothing accepted, nothing sent |
| `AsymShadow.Writer.WriteInto` | mydht-openssl/src/rsa_openssl.rs:1050-1074 | accepts exactly as much as the buffer has room for, after a full one was sent; accepted bytes are the sent blocks followed by the buffer |
| `AsymShadow.Writer.FlushInto` | mydht-openssl/src/rsa_openssl.rs:1076-1098 | sends a full buffer and nothing else |
| `AsymShadow.Writer.WriteEnd` | mydht-openssl/src/rsa_openssl.rs:1100-1122 | everything accepted is sent, in full blocks and one rest |
| `AsymShadow.Writer.Emit` | mydht-openssl/src/rsa_openssl.rs:1082-1086 | one more ciphertext on the wire for the buffered bytes |
| `AsymShadow.Reader.constructor` | mydht-openssl/src/rsa_openssl.rs:928-934 | all blocks of the stream are still to be read |
| `AsymShadow.Reader.ReadFrom` | mydht-openssl/src/rsa_openssl.rs:955-983 | the next bytes in order, exactly as many as fit and as the current or else the next block has; none iff the buffer is empty or everything was read |
| `AsymShadow.Reader.Produce` | mydht-openssl/src/rsa_openssl.rs:957-971 | decrypts the next block when the last is used up, and loses nothing |
| `AsymShadow.Reader.Fill` | mydht-openssl/src/rsa_openssl.rs:961-966 | the fill loop ends with a whole ciphertext or at the end of the stream, for every pattern of short reads |
| `AsymShadow.FullBlocksThenRest` | mydht-openssl/src/rsa_openssl.rs:1050-1122 | full blocks followed by a rest are the blocks of the concatenation |
| `AsymShadow.BlocksMeaning` | mydht-openssl/src/rsa_openssl.rs:1050-1122 | the blocks are the bytes, cut so that every block but the last is full and none is empty |
| `AsymShadow.CarriesSnoc` | mydht-openssl/src/rsa_openssl.rs:1082-1086 | appending a ciphertext appends its block to what the wire carries |
| `AsymShadow.Refill` | mydht-openssl/src/rsa_openssl.rs:961-971 | a full ciphertext buffer decrypts to the next block; an empty one means there is none |
| `AsymShadow.CopyAt` | mydht-openssl/src/rsa_openssl.rs:1058-1060 | the buffer up to the copied part is the old prefix followed by it |
| `UserPolls.UserPoll.constructor` | mydht-userpoll/src/lib.rs:88-95 | no descriptors, no events |
| `UserPolls.UserPoll.NewFd` | mydht-userpoll/src/lib.rs:108-130 | the first number after the last one given, around and without 0, that is not live; fails iff all numbers but one are live, and then at least MAX - 1 are |
| `UserPolls.UserPoll.CtlAdd` | mydht-userpoll/src/lib.rs:96-107 | keeps live descriptors non-zero, pairwise different and in bijection with the registered items; fails iff a new one is needed and the search fails; registering again adds an interest and keeps the others and the token |
| `UserPolls.UserPoll.CtlRem` | mydht-userpoll/src/lib.rs:131-136 | keeps the same, with exactly this descriptor gone |
| `UserPolls.UserPoll.TriggerEvent` | mydht-userpoll/src/lib.rs:139-150 | appends the event iff the descriptor is live and interested |
| `UserPolls.UserPoll.Poll` | mydht-userpoll/src/lib.rs:70-80 | moves the oldest min(limit, queued) events, in order; yields iff suspendable and empty |
| `UserPolls.UserEvents.Next` | mydht-userpoll/src/lib.rs:183-185 | the oldest pending event, or nothing iff there is none |
| `UserPolls.FullIsLarge` | mydht-userpoll/src/lib.rs:108-130 | pigeonhole: a failed search has seen MAX - 1 different live descriptors |
| `UserPolls.CandidatesDiffer` | mydht-userpoll/src/lib.rs:155-161 | the search meets all numbers from 1 on before it repeats one |
| `UserPolls.TopicsAreASet` | mydht-userpoll/src/lib.rs:196-223 | the two bits behave as a set under add, remove and contains |
| `UserPolls.RunEvents` | mydht-userpoll/src/lib.rs:70-334 | over every run of register, reregister, deregister, readiness and drained polls on a new poll: delivered events followed by queued ones are exactly the triggered ones, in order; live descriptors are non-zero, pairwise different and hold exactly the current items; an action fails only when MAX - 1 registrations are live |
| `UserPolls.Act` | mydht-userpoll/src/lib.rs:70-334 | one action of such a run, against the registrations of that moment |
| `UserPolls.Join` | mydht-userpoll/src/lib.rs:295-306 | registering changes the item of one registration only; it fails only when the poll is full |
| `UserPolls.Leave` | mydht-userpoll/src/lib.rs:308-310 | deregistering changes the item of one registration only |
| `UserPolls.ItemsAreFew` | mydht-userpoll/src/lib.rs:96-136 | live descriptors are no more than live registrations |
| `UserPolls.UserPoll.Register` | mydht-userpoll/src/lib.rs:295-302 | registers and queues one event at once, with the token of the item |
| `UserPolls.UserPoll.SetReadiness` | mydht-userpoll/src/lib.rs:327-333 | queues an event iff registered and interested |
| `UserPolls.JoinedIsInterested` | mydht-userpoll/src/lib.rs:295-302 | a registered item is interested in what it was registered for |
| `UserPolls.JoinedKeeps` | mydht-userpoll/src/lib.rs:96-107 | registering again adds exactly the interest, loses none and keeps the token |
| `UserPolls.LiveMeaning` | mydht-userpoll/src/lib.rs:96-136 | by the actions alone: a registration is interested in exactly what it was registered for since it last deregistered, with the token of the first registration since then |
| `UserPolls.SetReadyFiresIff` | mydht-userpoll/src/lib.rs:327-333 | becoming ready fires iff registered for it since the last deregistration, with that token |
| `UserPolls.RegisterFires` | mydht-userpoll/src/lib.rs:295-302 | registering fires iff it succeeds, with that token |
| `UserPolls.OthersDoNotFire` | mydht-userpoll/src/lib.rs:303-310 | reregistering, deregistering and polling fire nothing |
| `UserPolls.PollConserves` | mydht-userpoll/src/lib.rs:70-80 | a poll conserves events iff the previous batch was drained or the poll yields |
| `UserPolls.PollLosesEvent` | mydht-userpoll/src/lib.rs:70-80 | a concrete run in which the first of two events is neither pending nor queued any more |
| `UserPolls.Drain` | mydht-userpoll/src/lib.rs:183-185 | iterating takes the whole batch in order |
| `RoundRobin.InefficientMap.constructor` | mydht-inefficientmap/src/inefficientmap.rs:42-49 | no peers |
| `RoundRobin.InefficientMap.AddVal` | mydht-inefficientmap/src/inefficientmap.rs:121-133 | the peer is at the end with its new token, once; table and peers stay in bijection; an in-range position stays in range |
| `RoundRobin.InefficientMap.RemoveVal` | mydht-inefficientmap/src/inefficientmap.rs:143-148 | exactly this peer goes; an in-range next position stays in range iff it was not the last of several with a peer removed |
| `RoundRobin.InefficientMap.GetClosest` | mydht-inefficientmap/src/inefficientmap.rs:62-101 | visits downwards and around, each peer at most once, returns the tokens of the connected peers not in the history in visiting order, and extends the history by exactly those |
| `RoundRobin.InefficientMap.RouteBase` | mydht-inefficientmap/src/inefficientmap.rs:108-116 | one round over the message's history: at most the number asked for of different connected peers not in the history, fewer only if all such were chosen; then, by peers, the last maxnb of history and chosen remain, by hops, all of it with one hop fewer, and without hops left all but as many of the oldest as were chosen |
| `RoundRobin.RoundChoosesEnough` | mydht-inefficientmap/src/inefficientmap.rs:62-101 | asked for at least one, a round chooses at most that many, nobody twice, nobody from the history, and fewer only if it chose every eligible peer |
| `RoundRobin.ChosenFacts` | mydht-inefficientmap/src/inefficientmap.rs:68-97 | chosen are exactly the eligible positions visited so far |
| `RoundRobin.ChosenInVisitOrder` | mydht-inefficientmap/src/inefficientmap.rs:68-97 | the chosen come in the order of the visit |
| `RoundRobin.Visit` | mydht-inefficientmap/src/inefficientmap.rs:87-94 | the visit goes down from the start and around |
| `RoundRobin.VisitsAll` | mydht-inefficientmap/src/inefficientmap.rs:87-94 | one turn visits every position |
| `RoundRobin.VisitsDiffer` | mydht-inefficientmap/src/inefficientmap.rs:87-94 | and none twice |
| `RoundRobin.VisitStep` | mydht-inefficientmap/src/inefficientmap.rs:68-97 | one visit; keys chosen earlier in the round hide no later peer |
| `RoundRobin.Rounds` | mydht-inefficientmap/src/inefficientmap.rs:62-101 | over every run of rounds without history on an unchanged table, whatever each asks for: each round goes on where the last stopped, and no connected peer is chosen a second time before every connected peer was chosen |
| `RoundRobin.AlongIsFair` | mydht-inefficientmap/src/inefficientmap.rs:87-97 | the connected peers along the walk of any number of visits are chosen fairly |
| `RoundRobin.SpinDiffer` | mydht-inefficientmap/src/inefficientmap.rs:87-94 | over any number of turns, a position does not come again within one turn |
| `RoundRobin.SpinMeets` | mydht-inefficientmap/src/inefficientmap.rs:87-94 | and a full turn from anywhere comes to every position |
| `RoundRobin.RoundIsAlong` | mydht-inefficientmap/src/inefficientmap.rs:62-101 | a round without history chooses the connected peers that it visits |
| `RoundRobin.RoundOnTheWay` | mydht-inefficientmap/src/inefficientmap.rs:62-101 | rounds in a row are one walk |
| `RoundRobin.RemoveLeavesNextOutOfRange` | mydht-inefficientmap/src/inefficientmap.rs:143-148 | a concrete run after which the next round would panic |
| `RoundRobin.AdjustLastsentNextHop` | mydht-base/src/query.rs:131-153 | what remains of the history, in both modes and with and without hops left |
| `RoundRobin.AdjustedRemains` | mydht-base/src/query.rs:131-153 | the same of the function that the loops compute |
| `RoundRobin.HopRounds` | mydht-base/src/query.rs:140-149 | over every run of rounds, a history bounded by hops forgets nobody as long as hops are left: it grows by exactly the chosen peers, nobody twice and nobody from the history |
| `RoundRobin.PopFront` | mydht-base/src/query.rs:135-148 | popping more often than there are entries is harmless |
| `RoundRobin.PeerHistoryIsLast` | mydht-base/src/query.rs:133-139 | in LastSentPeer mode the history is exactly the last maxnb of old history followed by chosen peers |

## Left out

- TunnelRoutes.Rp.NewRoute: the unbounded redraw loop of a one-hop route is cut at the end of the given redraws, since its termination rests on luck.
- TunnelRoutes.Rp.Redraw: the same loop; it answers nothing exactly when all given redraws are us.
- KvCache.NextRandomValues: the unbounded retry loop is cut at the end of the given rolls; that an accepted roll always exists is proved, that it comes up is a matter of probability.
- KvCache.Reroll: the same loop; it answers nothing exactly when no given roll is accepted.
- SimpleCaches.SimpleCache.NextVals: calls the same loop, and answers nothing exactly when no given roll is accepted.
- The branch of `remove` for a brother without a bucket is dead, because the walk to it ends in a bucket, and is not modelled.
- Probabilities: nothing is said about the uniformity of random choices, only which outcomes are possible.
- Machine integers: counters, sizes and indices are unbounded, except the descriptors of the poll, which wrap around at 64 bits, and trust levels, which are bytes.
- The `hash_size` field, logging, debugging output, persistence and clone or reference conversions.
- The `sending = false` branch of the tunnel's `exact_rand`, which is never called, and the choice of random destinations.
- The mode byte at the head of a shadowed stream, the symmetric modes of the openssl shadower and all cryptographic primitives.
- The recursion of the trust store over the whole web of trust, and the merging of promoted signatures.
- The reader of the shadower replaces its plaintext buffer as a whole; bytes of an earlier block behind a shorter one are not modelled, they are never returned.
- Registrations of one item with several polls at once: the model has one poll, so a registration holds one descriptor.
- The other functions on query messages, among them the older `update_lastsent_conf`.
- The processes of the main crate (main loop, peer management, services), all transports and all serializers.
- The splitting loop of `add` runs one round more in the source; the model does that last round, which differs in all its branches, after the loop.
