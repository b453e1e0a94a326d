# Merkle subtrees, their proofs and their byte formats

This project models three connected parts of a Bitcoin Merkle subtree library and
proves that each fast, index-based implementation agrees with a simple meaning.

- **Merkle store and proofs** (`Hashing`, `PowersOfTwo`, `Canonical`, `MerkleStore`,
  `MerkleFill`, `MerkleProof`, `DuplicateLast`, `CoinbaseProof`, `BlockProof`).
  `Canonical` defines Bitcoin's tree level by level, without index arithmetic. The flat
  store, its chunked concurrent fill, the proof walk, the lifting of roots and the
  coinbase proof are the code, and the theorems connect the two.
- **Packed inpoints** (`Inpoints`, `Packing`, `PackedInpoints`, `InpointsCodec`,
  `SubtreeMeta`, `InpointsLayout`). The count-prefixed word buffer with its in-place
  insertion, proved against the grouping of inputs by parent; its self-delimiting wire
  format; and the frame `Meta` puts around many of these records.
- **The subtree object** (`SubtreeState`, `SubtreeLaws`, `Subtrees`, `SubtreeRuns`,
  `SubtreeCodec`, `SubtreeLayout`, `SubtreeProjections`). `SubtreeState` is a state
  machine on values, with theorems over every run; `SubtreeLaws` says by position what
  each operation does. The class `Subtree` updates fields and a node array in place, and
  each of its methods is proved to make one step of that machine. The codec has one
  writer, three full readers and two readers that keep part of the data, and its bytes
  are pinned one by one.

Verify everything with `dafny verify dfyconfig.toml`.

## Assumptions

- Double SHA-256 of two concatenated hashes is an arbitrary function `pair`, and the
  all-zero hash is the sentinel `zero`. Theorems that need it assume that no leaf is the
  sentinel and that `pair` never yields it (`Proper`); a hasher over 32-byte hashes does
  so, and meets the hypotheses of the coinbase theorems
  (`SubtreeState.ProperIsSatisfiable`, `BlockProof.CoinbaseHypothesesAreSatisfiable`). What would fail only by a collision of the hash
  assumes no injectivity: proof uniqueness and the exact reach of the coinbase proof
  extract the collision. `OnlyProof`, `RootInjective` and `ReachesBlockRootInjective` are
  corollaries for an injective hash (the last also without cycles under hashing a value
  with itself), such as the term algebra of `Hashing.HypothesesAreSatisfiable`.
- `Log2`, `Pow`, `Ceil` and `Floor` on floating-point numbers are exact integer functions;
  leaf counts are taken to be small enough for float64 to agree with them.
- A Go panic is the error `Panic` or a failed call. Negative indices are not modelled:
  they panic in the source.
- A goroutine performs single cell accesses (read left, read right, write the parent);
  accesses of different goroutines interleave in any order. `wg.Wait` returns when
  no goroutine has work left.
- A reader is a sequence of bytes with a position. Memory is never exhausted, but the two
  theorems that compare the conflicting-only reader with the full readers speak of streams
  shorter than 2^63 bytes: longer ones announce more nodes than memory can be asked for.

## Where the code does not do what one could expect

Each of these is proved as an exact condition, or follows from the contract named.

- `RemoveNodeAtIndex` does not shift later entries of the hash index. The index stays
  right exactly when the last node is removed and no other node has its hash
  (`SubtreeState.RemoveKeepsIndexIff`). `AddCoinbaseNode` and `ReplaceRootNode` do not
  touch the index either (`SubtreeState.ApplyKeepsIndexIff`, `SubtreeState.ReplaceKeepsIndexIff`).
- `ReplaceRootNode` leaves `Fees` alone and only adds to `SizeInBytes`. The totals stay
  right exactly when the fee is unchanged and the old size was zero
  (`SubtreeState.ReplaceKeepsTotalsIff`).
- `GetMerkleProofForCoinbase` builds its top tree over unpadded roots. It reaches the
  block's Merkle root when there is one subtree or the last one has the height of the
  others. Below that height it does so only if a collision of the hash is exhibited or the
  last root lies on a cycle of hashing a value with itself
  (`CoinbaseProof.ReachesOrCollides`, `CoinbaseProof.ReachesBlockRootIff`).
- `DeserializeSubtreeConflictingFromReader` multiplies the leaf count by 48 in an int64
  and ignores the error of `Discard`. It agrees with the full readers exactly unless the
  product wraps and the bytes where the skip lands read as a counted list of hashes
  (`SubtreeProjections.ProjectionIff`); it is then laxer than they are. A 64-byte stream
  that announces 2^60 leaves is an instance (`SubtreeProjections.ProjectionAcceptsMore`).
- Records without parents come back with nil parents, which `Meta.Serialize` refuses
  at every position but the first. A meta that was read back can be written again exactly
  when no later record is without parents (`SubtreeMeta.RewritableIff`).
- `appendInput` lets a count word wrap: the layout is well-formed exactly when no parent
  is spent from 2^32 times (`Packing.PackedIffFewVouts`, `Inpoints.CountWordIff`).
- The documentation of the packed layout promises a count of at least 1 for every parent
  (inpoints.go:52-57). The reader does not check it, nor that parents differ: 40 bytes with
  a count of zero are accepted. Listing the inpoints of an accepted record and grouping
  them again gives it back exactly when the stream has neither
  (`InpointsCodec.TidyIff`, `InpointsCodec.ZeroCountIsAccepted`,
  `InpointsCodec.RepeatedParentIsAccepted`).
- `AddCoinbaseNode` and `ReplaceRootNode` do not look at the tree size. They exceed it
  exactly when it is zero, as it is after a subtree without nodes has been read
  (`SubtreeState.ApplyKeepsCapacityIff`).
- Where a level is odd, its last hash stands twice. The last of an odd number of leaves
  verifies with its own proof at the next index, which `GetMerkleProof` refuses, and
  repeating it leaves the root unchanged (`DuplicateLast.LastLeafTwice`,
  `DuplicateLast.RepeatedLastLeaf`). Exactly which leaf verifies at which index, and which
  lists of one height share a root, is `DuplicateLast.VerifiesOnlyAt`,
  `DuplicateLast.SamePositionsSameRoot` and `DuplicateLast.DifferentPositionCollides`.
- Deserializing takes size and height from the leaf count, trusts the stored root and
  keeps an index the object already had (`SubtreeCodec.DeserializeFromReader`). A subtree
  read without nodes therefore holds a root, and `GetMerkleProofForCoinbase` accepts it
  behind the first position (`BlockProof.GetMerkleProofForCoinbase`).
- The guard in `calculateTreePosition` compares with a length that is larger than the
  store, so it does not keep the access in bounds; the shape of the walk does
  (`MerkleProof.WalkInBounds`).

## Model

| member | source | states |
|---|---|---|
| Hashing.HypothesesAreSatisfiable | merkle_tree.go:136-162 | Over terms, one hasher is injective, never yields the sentinel and has no lifting cycle, so that the corollaries for such hashes are not vacuous. |
| SubtreeState.ProperIsSatisfiable | merkle_tree.go:136-162 | Over 32-byte hashes, a hasher meets the sentinel hypothesis exactly for the lists of leaves without the zero hash. |
| BlockProof.CoinbaseHypothesesAreSatisfiable | merkle_tree.go:13-42 | With it, all subtrees without cached roots over such leaves, a lone placeholder excepted, meet the hypotheses of the coinbase theorems. |
| PowersOfTwo.IsPowerOfTwoIff | power_of_two.go:24-30 | The bit trick accepts exactly the powers of two, for every integer including zero and negatives. |
| PowersOfTwo.ClearLowestBit | power_of_two.go:35-45 | Clearing the lowest set bit of a positive number gives zero if and only if the number is a power of two. |
| PowersOfTwo.CeilIsLeast | power_of_two.go:9-21 | The rounded-up power is at least the argument and at most every other power that is. |
| PowersOfTwo.CeilPowerIsLeast | power_of_two.go:9-21 | On every integer, zero and negatives included, the result is the least power of two that is at least it. |
| PowersOfTwo.RoundingOfZero | power_of_two.go:35-55 | Both other roundings answer zero for zero and for nothing else. |
| PowersOfTwo.NextPowerIsCeil | power_of_two.go:35-45 | Doubling past the integer logarithm and the ceiling of the logarithm give the same power. |
| PowersOfTwo.HeightAgreement | subtree.go:507-507 | Store, proof and padding use one height: both roundings and the bit length of n-1 agree with the ceiling of log2, and the power is the least one at or above n. |
| PowersOfTwo.NextLowerIsGreatest | power_of_two.go:48-55 | The result is a power of two not above the argument, and no greater one is. |
| PowersOfTwo.CeilLog2Unique | merkle_tree.go:66-66 | A height is determined by the two bounds n at most 2^k and n above 2^(k-1). |
| Canonical.UpAt | merkle_tree.go:136-162 | Parent i is the hash of children 2i and 2i+1, the last child being paired with itself on an odd level. |
| Canonical.LevelSize | merkle_tree.go:45-94 | Level j of a tree over n leaves has exactly ceil(n / 2^j) hashes. |
| Canonical.RootIsTopLevel | merkle_tree.go:66-70 | The level at the ceiling of log2 of the leaf count is the root alone. |
| Canonical.LevelIsPaddedRoot | subtree.go:481-522 | At any height at or above its own, a tree is one hash: its root hashed with itself once per missing level. |
| Canonical.RootOfLevel | merkle_tree.go:66-91 | The tree built over any level of a tree has the same root, and is lower by that level. |
| Canonical.LevelAppend | subtree.go:481-496 | For k levels, a full block of 2^k leaves and whatever follows it do not interact. |
| Canonical.LevelOfBlocks | subtree.go:481-496 | Level k of the flat tree over all leaves of a block is the list of padded subtree roots. |
| Canonical.Composition | subtree.go:481-522 | For full subtrees of 2^k leaves and a last one of 1 to 2^k leaves, at least two in all, the tree over the padded roots has the root of the flat tree over all leaves. |
| Canonical.CompositionHeight | subtree.go:481-522 | The height of that flat tree is k plus the height of the tree over the subtree roots. |
| Canonical.TreesCollide | merkle_tree.go:136-162 | Different leaf lists of equal length under one root: a collision of the hash is extracted from the two trees. |
| Canonical.RootInjective | merkle_tree.go:136-162 | Without collisions, trees of equal leaf count with equal roots have equal leaves. |
| MerkleStore.ReduceAt | merkle_tree.go:97-109 | Cell c of the next row is the parent hash of cells 2c and 2c+1, sentinel rules included. |
| MerkleStore.ReduceIsUp | merkle_tree.go:136-162 | On a sentinel-padded level, the sentinel rules of calcMerkle compute Bitcoin's duplicate-last level, padded again. |
| MerkleStore.StoreLength | merkle_tree.go:45-62 | The store has P-1 cells for the next power P, and one cell for a single leaf. |
| MerkleStore.StoreSegment | merkle_tree.go:45-162 | The store refines the canonical tree: the segment of level j holds the hashes of that level followed by sentinels only. |
| MerkleStore.StoreRootIsRoot | merkle_tree.go:45-162 | The last cell of the store is the canonical root, for every non-empty list of non-sentinel leaves. |
| MerkleStore.SentinelRootIff | merkle_tree.go:136-162 | On any leaves whatever, zero hashes included, the last cell of the store is the zero hash if and only if the first leaf is. |
| MerkleFill.ChunksPartition | merkle_tree.go:74-83 | The chunks of a level are disjoint, in order, start at even cells, and every pair of the level belongs to one of them, for any width. |
| MerkleFill.ReadsAreStable | merkle_tree.go:112-124 | A cell the level reads keeps its value through the whole phase. |
| MerkleFill.WritesAreDisjoint | merkle_tree.go:74-87 | A cell one goroutine owns has not been written by any other goroutine. |
| MerkleFill.StepKeepsInv | merkle_tree.go:97-109 | Every read or write of every goroutine keeps: held values are those of the start of the phase, finished cells are right, all others untouched. |
| MerkleFill.DoneIsFilled | merkle_tree.go:74-87 | When the barrier is reached, every cell of the level has the value of the sequential fill, and no other cell has changed. |
| MerkleFill.ScheduleIndependence | merkle_tree.go:69-91 | Every interleaving that reaches the barrier, for every even chunk width, leaves the array of the sequential fill. |
| MerkleFill.SchedulesAgree | merkle_tree.go:69-91 | Any two such runs, even with different chunk widths, leave the same array. |
| MerkleFill.RaceFree | merkle_tree.go:69-91 | At every moment of every run, the cell one goroutine writes next is neither written nor read next by another, and lies in the array. |
| MerkleFill.SafeStep | merkle_tree.go:97-124 | An access of an unfinished goroutine is in bounds and brings the barrier closer, so every fair schedule ends. |
| MerkleFill.CalcMerkles | merkle_tree.go:97-109 | The in-place loop fills the cells of its range from the cells below and changes nothing else. |
| MerkleFill.Access | merkle_tree.go:97-124 | The in-place access has the effect the interleaving model gives it. |
| MerkleFill.CalcMerklesConcurrently | merkle_tree.go:71-87 | Whatever goroutine the scheduler picks at each access, the loop ends and leaves what the sequential fill leaves. |
| MerkleFill.FillLevel | merkle_tree.go:69-88 | A level is filled the same way below and above the threshold for goroutines. |
| MerkleFill.FillAllLevels | merkle_tree.go:64-91 | Filling level after level from moving offsets leaves all reduced rows, one behind the other. |
| MerkleFill.BuildMerkleTreeStoreFromBytes | merkle_tree.go:45-94 | For every list of leaves, empty and single included, the new array is the specified store, whose segments and root are characterised above. |
| MerkleProof.ParentOfSibling | subtree.go:648-660 | A hash and its sibling, in the order of the index bit, hash to the parent, also on a duplicated edge. |
| MerkleProof.SiblingsFoldToRoot | subtree.go:613-645 | The canonical proof has one entry per level and folds the leaf to the root by the bits of the index. |
| MerkleProof.ProofReachesRootHash | subtree.go:613-645 | Folding the stored leaf with its proof gives what RootHash answers. |
| MerkleProof.TwoProofsCollide | subtree.go:613-677 | Two leaf and sibling lists of one length and index that fold to one hash are equal, or a collision is extracted from them. |
| MerkleProof.ProofIsUnique | subtree.go:613-677 | Whoever folds another leaf or other siblings to the root has found a collision, and the extractor returns it. |
| MerkleProof.OnlyProof | subtree.go:613-677 | With an injective hash the stored leaf and its canonical proof are the only ones that fold to the root. |
| MerkleProof.WalkInBounds | subtree.go:663-677 | Above the leaves, the walk's cell and the one right of an even cell are inside the store. |
| MerkleProof.WalkReadsSibling | subtree.go:663-677 | In the segment of a level, the cell chosen by parity and sentinel holds the canonical sibling. |
| MerkleProof.GetMerkleProof | subtree.go:613-645 | The walk over the flat store returns the canonical proof, of exactly ceil(log2 n) entries, for every index; an index beyond the leaves is the only error. |
| DuplicateLast.SourceOfLeaf | merkle_tree.go:148-149 | Of the 2^h positions below a root, each leaf stands at its own. |
| DuplicateLast.SourceWraps | subtree.go:613-645 | Behind the 2^h positions a proof index starts again at the first. |
| DuplicateLast.FoldAt | merkle_tree.go:148-149 | At every index whatever, the leaf of that position and the proof for it fold to the root. |
| DuplicateLast.ProofAtLeaf | subtree.go:613-645 | For the index of a leaf they are that leaf and its canonical proof. |
| DuplicateLast.VerifiesOnlyAt | merkle_tree.go:148-149 | At every index whatever, no other leaf and no other proof fold to the root, unless a collision is extracted from them. |
| DuplicateLast.LastLeafTwice | subtree.go:614-616 | The last of an odd number of leaves verifies with its own proof at the index behind it, which is refused. |
| DuplicateLast.RepeatedLastLeaf | merkle_tree.go:148-149 | Repeating the last of an odd number of leaves, at least three, leaves the root unchanged. |
| DuplicateLast.SamePositionsIff | merkle_tree.go:148-149 | Whether two lists of one height agree at all positions is decided by 2^h of them. |
| DuplicateLast.SamePositionsSameRoot | merkle_tree.go:148-149 | Lists of one height, of any lengths, that agree at all positions have one root. |
| DuplicateLast.DifferentPositionCollides | merkle_tree.go:148-149 | Where two lists of one height under one root disagree at a position, a collision is extracted from the two proofs for it. |
| CoinbaseProof.SiblingsOfFirst | subtree.go:613-645 | The proof of the first leaf does not depend on that leaf. |
| CoinbaseProof.FoldAppend | merkle_tree.go:41-41 | Folding with two concatenated proofs at index 0 is folding with one after the other. |
| CoinbaseProof.SurvivesReplacement | merkle_tree.go:18-41 | With any coinbase hash, the concatenated proof folds to the root of the top tree in which only the first subtree's root is recomputed. |
| CoinbaseProof.FoldsToTopRoot | merkle_tree.go:18-41 | The first leaf itself folds to the root of the tree over the subtree roots. |
| CoinbaseProof.ReachesBlockRoot | merkle_tree.go:18-41 | When the last subtree has the height of the others, the proof folds leaf 0 to the root of the flat tree over all leaves of all subtrees. |
| CoinbaseProof.CoinbaseReachesBlockRoot | merkle_tree.go:13-42 | And any coinbase in the place of leaf 0 is folded by the same proof to the root of the flat tree that starts with it. |
| CoinbaseProof.SameRootsIff | merkle_tree.go:29-34 | Unpadded and padded subtree roots are the same list if and only if lifting to height k leaves the last root what it is. |
| CoinbaseProof.ReachesOrCollides | merkle_tree.go:13-42 | Exactly when the proof reaches the block root, for every hash: if lifting leaves the last root what it is, and else only with a collision that is extracted. |
| CoinbaseProof.MissesBlockRoot | merkle_tree.go:29-34 | With a lower last subtree, reaching the block root exhibits a collision or a value that hashing with itself leads back to. |
| CoinbaseProof.ReachesBlockRootIff | merkle_tree.go:13-42 | Barring these two coincidences in this block, the proof reaches the block root if and only if there is one subtree or the last has full height. |
| BlockProof.RootOfHealthy | subtree.go:457-479 | A non-empty subtree with a right cache answers the canonical root of its leaves, never the sentinel. |
| BlockProof.PaddedRootsCompose | subtree.go:481-522 | As computed: the store over what RootHashPadded answers for the subtrees of a block ends in the root of the store over all leaves. |
| BlockProof.BuildTopTree | merkle_tree.go:23-34 | The top tree holds every subtree root in order; it fails exactly when some subtree answers no root or the coinbase placeholder. |
| BlockProof.GetMerkleProofForCoinbase | merkle_tree.go:13-42 | Exactly when it succeeds; then one entry per level of the two trees, and, with no zero hash among first leaves and roots, the canonical proofs over them, whatever roots the subtrees hold; only root caches change. |
| BlockProof.ProofSurvivesReplacement | merkle_tree.go:13-42 | For all subtrees on which the call succeeds, stale and stored roots included, any non-zero coinbase is folded by the returned list to the root of the top tree over RootHashWithReplaceRootNode and the other roots. |
| BlockProof.FirstReplaced | subtree.go:525-543 | The proof of leaf 0 folds any other non-zero leaf 0 to the root of the store with it in place. |
| BlockProof.HealthyProof | merkle_tree.go:13-42 | With right caches, the call succeeds if and only if no root is the placeholder, and the list is the canonical proof of the block. |
| BlockProof.CoinbaseReachesStoreRoot | merkle_tree.go:13-42 | With right caches and a last subtree of full height, the list folds the coinbase to the root of the one store over all leaves of the block, with the coinbase as the first of them. |
| SubtreeState.ApplyKeepsRoot | subtree.go:457-479 | Every operation keeps a cached root equal to the store root of the nodes. |
| SubtreeState.CachedRootIsCanonical | subtree.go:457-479 | After any run of all operations from a new tree, a cached root is the canonical root of the nodes then held. |
| SubtreeState.BuildIndexIsIndex | subtree.go:561-580 | The index built on first use maps each hash to its largest position and no other hash. |
| SubtreeState.RemoveKeepsIndexIff | subtree.go:433-454 | Removal keeps an existing index right if and only if it removes the last node and no other node has its hash. |
| SubtreeState.ReplaceKeepsIndexIff | subtree.go:271-290 | Replacing the first node keeps it right if and only if the hash stays, or both old and new hash also occur later. |
| SubtreeState.ApplyKeepsIndexIff | subtree.go:561-580 | For every operation, exactly the states in which it keeps lookups right. |
| SubtreeState.AddsAndLookupsKeepIndex | subtree.go:293-335 | Any run of the three adding operations, lookups and operations that leave the nodes alone meets that condition at every step. |
| SubtreeState.RunKeepsIndex | subtree.go:561-580 | After such a run, whenever the index was built, NodeIndex answers the largest position of the hash or -1. |
| SubtreeState.AppendKeepsTotals | subtree.go:293-316 | Adding keeps fees and sizes equal to the node sums modulo 2^64. |
| SubtreeState.RemoveKeepsTotals | subtree.go:433-454 | Removing at any position does too, wrap-around included. |
| SubtreeState.ReplaceKeepsTotalsIff | subtree.go:271-290 | ReplaceRootNode does if and only if the fee is the old one and the old size was zero. |
| SubtreeState.ApplyKeepsCapacityIff | subtree.go:271-353 | An operation keeps the nodes within the tree size if and only if that size is positive or the operation is neither AddCoinbaseNode nor ReplaceRootNode. |
| SubtreeState.RunKeepsDistinct | subtree.go:356-385 | No run records a conflicting hash twice, whatever the tree size. |
| SubtreeState.RunKeepsTotals | subtree.go:293-454 | From any tree of positive size, as every new tree is, capacity over every run; from right totals, right totals over every run without ReplaceRootNode. |
| SubtreeLaws.NewTreeIsEmpty | subtree.go:60-75 | A new tree: no nodes, 2^height places, right totals, no cached root, no index. |
| SubtreeLaws.AddOutcome | subtree.go:293-335 | For the three adding operations: exactly when each refusal is answered, without any change, and else the given node behind the others with its fee and its size added to the right totals. |
| SubtreeLaws.AddsRecordDone | subtree.go:293-430 | Any run of additions records exactly the nodes of the calls answered Done, in order, with the sums of their fees and sizes. |
| SubtreeLaws.AddsAppend | subtree.go:293-430 | With room, and no placeholder where it is refused, every call of the run is answered Done and all nodes stand behind the old ones. |
| SubtreeLaws.CoinbaseOutcome | subtree.go:338-353 | Only an empty subtree takes it, and then holds one node of 32 bytes 0xFF, no fee and no size, which AddNode refuses as misuse. |
| SubtreeLaws.RemoveByPosition | subtree.go:433-454 | The nodes before the position stay, those behind it move down by one in order; out of range nothing changes. |
| SubtreeLaws.RemoveUndoesAdd | subtree.go:293-454 | Removing the last node undoes its addition: nodes, totals and conflicting hashes are as before, wrap-around included. |
| SubtreeLaws.ReplaceByPosition | subtree.go:271-290 | The given node stands first, all others where they were, the fees stay and the size is added; of at most one node the root answered is the given hash. |
| SubtreeLaws.ReplaceAnswersRoot | subtree.go:271-290 | Of several nodes it is the canonical root of the leaves with the first one replaced. |
| SubtreeLaws.ConflictingOutcome | subtree.go:356-385 | A hash is recorded, once and behind the others, exactly when a node has it; nothing else changes. |
| SubtreeLaws.RunRecordsConflicting | subtree.go:356-385 | After any run, recorded are the old hashes and exactly those whose call was answered Done. |
| SubtreeLaws.QuestionsKeepContent | subtree.go:223-241 | Duplicate, RootHash and NodeIndex leave everything but the two caches as it is. |
| SubtreeLaws.RootHashAnswersRoot | subtree.go:457-479 | With a right cache RootHash answers the canonical root of the nodes, and none without nodes. |
| Subtrees.Subtree.constructor | subtree.go:60-75 | A new tree is empty, with a node array of exactly 2^height cells. |
| Subtrees.Subtree.NewTree | subtree.go:60-75 | A negative height is the only error. |
| Subtrees.Subtree.NewTreeByLeafCount | subtree.go:78-86 | Exactly the powers of two are accepted, and then size, capacity and height agree with the count. |
| Subtrees.Subtree.AddSubtreeNode | subtree.go:293-316 | One step of the machine, after which the given node is behind the others, in the same backing array while it has room. |
| Subtrees.Subtree.AddSubtreeNodeWithoutLock | subtree.go:319-335 | As above, but only a full tree is refused, not the coinbase placeholder. |
| Subtrees.Subtree.AddNode | subtree.go:397-430 | As above: a full tree and the placeholder are refused, in this order, and then nothing changes. |
| Subtrees.Subtree.AddCoinbaseNode | subtree.go:338-353 | Only an empty subtree takes the placeholder; totals become zero and the index is not touched. |
| Subtrees.Subtree.AddConflictingNode | subtree.go:356-385 | One step of the machine: a hash answered Done is in the list afterwards, and nothing but the list changes. |
| Subtrees.Subtree.DeleteNode | subtree.go:445-445 | Moving the tail down in place is deletion from the sequence. |
| Subtrees.Subtree.RemoveNodeAtIndex | subtree.go:433-454 | One step of the machine in the same backing array: by position, the nodes behind the removed one move down by one; out of range is refused without a change. |
| Subtrees.Subtree.ComputeRoot | subtree.go:471-476 | The computed root is the last cell of the specified store over the node hashes. |
| Subtrees.Subtree.RootHash | subtree.go:457-479 | The cached root if there is one, none without nodes, else the store root, which is then cached; nothing else changes. |
| Subtrees.Subtree.RootHashPadded | subtree.go:497-522 | The root lifted by the missing levels; nil, empty and too low targets as the source answers them, without a change. |
| Subtrees.Subtree.LiftRoot | subtree.go:513-520 | Hashing the root with itself in a loop climbs exactly the missing levels. |
| Subtrees.Subtree.Duplicate | subtree.go:223-241 | An equal subtree without an index, in fresh memory. |
| Subtrees.Subtree.ReplaceRootNode | subtree.go:271-290 | By position, the first node replaced or added in place and the others untouched; the new root answered and cached, the given hash if it is the only node. |
| Subtrees.Subtree.RootHashWithReplaceRootNode | subtree.go:525-543 | The root of the node list with position 0 replaced, the given hash for at most one node; no existing object changes. |
| Subtrees.Subtree.NodeIndex | subtree.go:561-580 | The lazily built index is the specified one, and nothing but the index changes. |
| Subtrees.Subtree.GetMerkleProof | subtree.go:613-645 | On the object: the canonical proof of the node hashes, an index beyond them being the only error, without any change. |
| SubtreeRuns.Perform | subtree.go:223-580 | Each method call on the object has the new state and the answer of the machine's step. |
| SubtreeRuns.Execute | subtree.go:223-580 | Any list of calls ends in the state of the machine's run; from a tree whose capacity is its size, and without copying, the object and its backing array are never replaced. |
| Bytes.PutLEAt | subtree.go:690-693 | Byte k of a written word has the weight 256^k: little-endian. |
| SubtreeLayout.HeaderLayout | subtree.go:684-712 | The root, the fees, the size and the number of nodes, byte by byte. |
| SubtreeLayout.NodeLayout | subtree.go:715-736 | Node i from byte 56 + 48i on: its hash, its fee, its size, byte by byte. |
| SubtreeLayout.ConflictingLayout | subtree.go:738-751 | Behind the nodes the number of conflicting hashes, byte by byte, and hash j of them in its place. |
| SubtreeLayout.NodesOnlyLayout | subtree.go:757-771 | SerializeNodes writes hash i at byte 32i and nothing else. |
| SubtreeCodec.RoundTrip | subtree.go:680-754 | Every encoding followed by any bytes is accepted, read back as written and consumed exactly. |
| SubtreeCodec.EncodeDecode | subtree.go:807-847 | Every accepted stream encodes again to exactly the bytes consumed. |
| SubtreeCodec.ReadBack | subtree.go:680-847 | A non-empty subtree written and read keeps nodes, totals, conflicting hashes and root, loses its index, gets size and height from its leaves, and a right root cache stays right. |
| SubtreeCodec.Serialize | subtree.go:680-754 | The bytes are the encoding of the state with its root cached; a subtree without a root panics. |
| SubtreeCodec.SerializeNodes | subtree.go:757-771 | The concatenated node hashes. |
| SubtreeCodec.ReadNodes | subtree.go:945-986 | Whatever the buffer held, the first n cells become the nodes of the stream; fails exactly when the stream is short. |
| SubtreeCodec.ReadConflicting | subtree.go:989-1009 | The counted hashes, or a failure exactly when the stream is short. |
| SubtreeCodec.DeserializeFromReaderWithAllocator | subtree.go:807-847 | Accepts exactly the well-formed streams and then holds their content, in the caller's buffer if that is large enough, whatever it held before. |
| SubtreeCodec.DeserializeFromReader | subtree.go:871-873 | The same content in fresh memory. |
| SubtreeCodec.DeserializeFromReaderMmap | subtree.go:876-939 | The same content in mapped memory; a stream without nodes is refused. |
| SubtreeProjections.DeserializeNodesFromReader | subtree.go:194-220 | On every stream a full reader accepts, exactly the hashes of its nodes; and exactly which streams it accepts. |
| SubtreeProjections.DeserializeSubtreeConflictingFromReader | subtree.go:1012-1058 | The int64 skip with its ignored errors, on every stream. |
| SubtreeProjections.ProjectionIff | subtree.go:1012-1058 | On every stream below 2^63 bytes: it accepts what a full reader accepts, with that reader's conflicting hashes, if and only if the skip does not wrap or what follows it is no list of hashes. |
| SubtreeProjections.ProjectionIsLaxer | subtree.go:1012-1058 | The streams it accepts and the full readers refuse are exactly the others; it refuses none they accept. |
| SubtreeProjections.AcceptedIsProjected | subtree.go:1012-1058 | Every stream below 2^63 bytes that a full reader accepts is projected rightly. |
| SubtreeProjections.ProjectionAcceptsMore | subtree.go:1033-1046 | Instance: a concrete stream whose leaf count wraps the skip, accepted here, refused by the full readers. |
| Inpoints.PackAt | inpoints.go:259-269 | The walk over count words finds the count and the vouts of every parent. |
| Inpoints.CountWordIff | inpoints.go:316-320 | A count word tells the length of its run if and only if that length is below 2^32. |
| Inpoints.PackLength | inpoints.go:276-283 | The layout has one word per parent and one per vout. |
| Inpoints.PackInsert | inpoints.go:309-320 | Inserting behind a run and bumping its count is the layout of the longer run; all other runs are intact. |
| Inpoints.FirstSeenDistinct | inpoints.go:374-394 | Grouping lists each parent of the inputs once, and nothing else. |
| Inpoints.FirstSeenOrder | inpoints.go:374-394 | Parents stand in the order in which they first appear among the inputs. |
| Inpoints.AddKeepsGroups | inpoints.go:297-321 | One more input keeps the grouping: each parent with its vouts in input order. |
| Inpoints.GroupsKeepInputs | inpoints.go:175-193 | The grouped list has exactly the multiset of the inputs, no run is empty, and the vouts are as many as the inputs. |
| Inpoints.VoutsInInputOrder | inpoints.go:374-394 | The vout of an input stands among those of its parent behind as many as earlier inputs have that parent. |
| Inpoints.FlattenAt | inpoints.go:175-193 | Vout k of parent i is listed behind all vouts of the parents before it. |
| Packing.ParsePack | inpoints.go:259-269 | Walking a packing, whatever words follow it, finds its runs and what follows. |
| Packing.ParseCanonical | inpoints.go:259-269 | Words that can be walked are the packing of the runs found and the rest. |
| Packing.RunStartInPack | inpoints.go:260-264 | Skipping counts finds the start of every run of a packing. |
| Packing.AddPackedIsAddInput | inpoints.go:297-321 | On a packing, appendInput makes the packing of the grouping with the input added; it stays well-formed unless the parent already has 2^32-1 vouts. |
| Packing.AddPackedInserts | inpoints.go:306-320 | Inserting behind the run and bumping its count makes that run longer and keeps everything else, on any words that can be walked so far. |
| Packing.PackInputsGroups | inpoints.go:374-394 | For every input list in which no parent is spent from 2^32 times, the result is the packing of its grouping. |
| Packing.PackedIffFewVouts | inpoints.go:374-394 | For no other list do all runs of its grouping fit their count words. |
| Packing.ListIsFlatten | inpoints.go:175-193 | The loop lists the runs found parent by parent, and fails exactly where a run is cut off. |
| Packing.RegroupIff | inpoints.go:175-193 | Listing a grouping and grouping the list again gives it back if and only if every parent stands once and has a vout. |
| PackedInpoints.TxInpoints.CountPos | inpoints.go:260-264 | The position where the count word asked for begins, or the panic of an index out of range. |
| PackedInpoints.TxInpoints.InsertWord | inpoints.go:317-319 | Shifting the tail in place inserts one word, without a new buffer while there is room. |
| PackedInpoints.TxInpoints.AppendInput | inpoints.go:297-321 | On any contents: when it panics, else the contents as specified, whose meaning the lemmas above give; neither buffer is replaced while it has room. |
| PackedInpoints.TxInpoints.NewSizedFromInputs | inpoints.go:374-394 | For every input list: lengths n and at most 2n in the buffers allocated at the start, and the packing of the grouping if no parent is spent from 2^32 times. |
| PackedInpoints.TxInpoints.VoutSliceForParent | inpoints.go:259-269 | On any contents: the vouts of the parent where its run is complete, and else a longer slice into unused capacity or a panic, each exactly when. |
| PackedInpoints.TxInpoints.NrInputs | inpoints.go:276-283 | For every packing the number of its inputs, from two lengths alone. |
| PackedInpoints.TxInpoints.GetTxInpoints | inpoints.go:175-193 | On any contents: the inputs parent by parent, vout by vout, or a panic exactly where a run is cut off. |
| InpointsLayout.RecordLayout | inpoints.go:230-250 | Byte by byte: the number of parents, or the largest int32 beyond 2^32-1 of them, hash i and word j in their places. |
| InpointsLayout.MetaLayout | subtree_meta.go:163-295 | The root, the number of records byte by byte, and the records behind it. |
| InpointsLayout.RecordsLayout | subtree_meta.go:280-292 | Record i stands where the lengths of the records before it end. |
| InpointsCodec.RunsRoundTrip | inpoints.go:240-368 | Packed runs followed by any bytes are read back and the bytes left over. |
| InpointsCodec.RecordRoundTrip | inpoints.go:208-253 | Every well-formed value passes the layout check and is recovered, up to nil versus empty, from its bytes followed by any suffix, which is left. |
| InpointsCodec.RecordCanonical | inpoints.go:325-368 | Every accepted stream is well-formed and serializes again to exactly the bytes consumed. |
| InpointsCodec.TidyIff | inpoints.go:325-368 | Exactly which accepted records are groupings of inputs: those of streams without repeated parents and zero counts. |
| InpointsCodec.ZeroCountIsAccepted | inpoints.go:345-365 | A stream of 40 bytes with a count of zero is accepted. |
| InpointsCodec.RepeatedParentIsAccepted | inpoints.go:325-368 | A stream with one parent twice is accepted. |
| InpointsCodec.Serialize | inpoints.go:208-253 | The encoding, whose bytes are pinned above, or an error exactly when there are words without parents or fewer words than parents. |
| InpointsCodec.ReadRun | inpoints.go:350-365 | One count word and that many vouts are appended; fails exactly when the stream is short. |
| InpointsCodec.DeserializeFromReader | inpoints.go:325-368 | Accepts exactly the decodable streams, consumes exactly one record, and leaves the object alone when there are no parents. |
| InpointsCodec.NewTxInpointsFromReader | inpoints.go:136-144 | A new object with exactly the decoded value, nil parents when there are none. |
| SubtreeMeta.RecordsRoundTrip | subtree_meta.go:240-295 | Concatenated records followed by any bytes are read back one by one, up to nil versus empty. |
| SubtreeMeta.RecordsCanonical | subtree_meta.go:240-256 | What is read as n records is the concatenated encoding of these records and the rest. |
| SubtreeMeta.MetaRoundTrip | subtree_meta.go:163-295 | A meta written and read against a subtree with at least as much room has its root and every record back, and empty records behind them. |
| SubtreeMeta.MetaCanonical | subtree_meta.go:204-229 | Every accepted stream is the encoding of the root and the records it announces, followed by what was not consumed. |
| SubtreeMeta.RewritableIff | subtree_meta.go:171-177 | A meta that was read back can be written again if and only if no record but the first is without parents. |
| SubtreeMeta.RewriteIsIdentity | subtree_meta.go:163-194 | Reading back does not change the bytes a meta is written as. |
| SubtreeMeta.Meta.constructor | subtree_meta.go:34-39 | One empty record per cell of the subtree's capacity. |
| SubtreeMeta.Meta.SerializeTxInpoints | subtree_meta.go:259-295 | The counted records, or an error exactly when there are too few, too many or one has a bad layout. |
| SubtreeMeta.Meta.Serialize | subtree_meta.go:163-194 | Exactly which metas are written, as root, count and the records of the nodes; the subtree is as before, or has its root cached and nothing else changed. |
| SubtreeMeta.Meta.DeserializeFromReader | subtree_meta.go:204-229 | Accepts exactly the decodable streams that fit the subtree's capacity and then holds exactly what they encode. |
| SubtreeMeta.ReadSlots | subtree_meta.go:240-256 | The announced records fill the first slots, the others stay empty; a record beyond the last slot is a failure. |

## Left out

- GetMerkleProofForCoinbase: the list is not described when a leaf of the first subtree or a subtree root is the all-zero sentinel.
- AppendInput: on a panic says nothing of the buffers.
- Subtree.GetMerkleProof: the source returns pointers, the first one into the node array; a later in-place removal or replacement changes the leaf sibling of a proof already handed out. The model returns values.
- VoutSliceForParent: the source answers a slice of the buffer itself, the model its value.
- NextPowerIsCeil: does not model the overflow of the doubled power for arguments above 2^62.
- DeserializeFromReaderWithAllocator: on failure promises a valid object with its old index, but not which other fields were already filled; the height of a subtree without leaves is arbitrary, as the logarithm of zero is.
- SubtreeCodec.DeserializeFromReader: as above.
- DeserializeFromReaderMmap: on failure as above; mapped memory is an array of the announced length that may be refused; files, temporary directories and `Close` are foreign calls.
- InpointsCodec.DeserializeFromReader: on failure says nothing of the buffers already replaced.
- Meta.DeserializeFromReader: on failure says nothing of the records already read; slices of different records share no memory here.
- CalculateTreePosition: demands that the cell and its right neighbour exist, which the walk guarantees; elsewhere the source would panic.
- Double SHA-256 itself, and leaves equal to the all-zero sentinel.
- Floating-point rounding of logarithms and powers.
- Read-ahead of buffered readers: a full subtree reader is given the bytes its reader delivers.
- Mutexes of `Subtree`: the object is modelled sequentially; concurrency is modelled in the store fill.
- Error texts, logging and `recover` handlers: an error is a value or a failed call.
- `subtree_data.go` and coinbase transaction code, which rest on transactions of another library; only the placeholder hash is modelled.
- `GetMap` and `Difference`, which wrap an external map.
- Getters, `String`, `Min`, `Max`, `HasNode`, `GetNode`, `ReleaseNodes`, `SetTxInpoints` and constructors that only call modelled ones: easy members.
- `NewTxInpointsFromPacked` and the sharing of its arguments; the methods are modelled on any contents it may be given.
- `FeeHash`, which is never written to, and `SubtreeIndex`.
