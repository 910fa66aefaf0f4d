# Verification of the bridge relayer's proofs

The relayer turns TON blocks and Ethereum receipts into proofs that contracts on the other side can check.
This project models the operations that build, split, reassemble and check those proofs, and proves what they keep.

Trees of cells (`src/lib/block-utils.ts` and the steps around it):

- `Cells` models a cell, its level mask, and the hashes and depths of `src/lib/ton-rocks-js/types/Cell.js` at every
  level. A digest is the hashed representation itself, so distinct representations never collide and nothing is
  assumed about SHA-256. `getHash()` is the level-0 hash; a pruned branch answers it from what it stores, while its
  `depth[0]` is its own depth, zero.
- `BlockUtils` has the loops that measure, cut, clone and search trees; `HashPreservation` and `ProofHashes` say
  exactly which cut trees keep their root hash; `Volumes` and `PartPositions` what measuring promises; `Paths`,
  `ShardStates` and `Transactions` what paths of cells and their proofs are. `Depths` says what level masks and depths
  mean for the positions of a tree, and `ProofContents` what stands at each position of a cut tree or a proof.
- `Grafting` and `WalkTrees` reassemble: the first on values, the second in place on shared cell objects whose
  references are overwritten. Both recurse into a part that is no subterm of the cell they were given. They terminate
  because the level-0 hash of a reference is a proper part of the level-0 hash of its parent, also below Merkle cells.
- `SetValidators` reduces a key block to the path to its validators and splits that into pieces. `HonestTrees` is about
  trees whose pruned branches store the right depths: what cutting them does to a hash, and what grafting undoes.
  `BlockProofs` says exactly when the pieces of a block, grafted together, prove the block's own validators, and
  `SharedParts` has blocks for which they do and blocks for which they do not.

The rest: `MerklePatricia` and `Tries` (receipt proofs), `ValidatorSets` (main validators and signed weight),
`ReceiptCells` (logs in cells), `ProvenStates` (runs of proof steps), `BitStrings`, `ByteStrings` and `Results` (shared).

Where a promise does not hold of the code, the code is kept and the exact condition is proved:

- Cutting listed hashes keeps the root hash exactly when nothing new is cut below a Merkle cell and no pruned branch of
  non-zero depth is cut again (`ProofHashes.CutKeepsHashExactly`, `ProofHashes.RecutStubLosesRootHash`).
- The grafted pieces of a key block have its root hash and lead to its own parameter 34 when each part, or another part
  with its hash, has no pruned branch with the hash of a part (`HonestTrees.EveryPartKept`); otherwise they do not lead to
  the place of parameter 34 at all (`BlockProofs.BlockPiecesProveValidators`). The root hash alone they have exactly when
  each pruned branch of the proof with the hash of a part has such a part (`HonestTrees.StubsKept`). In the blocks of
  `SharedParts.SharedBlockProves` a path cell becomes a part with such a pruned branch once sixteen cells stand above
  parameter 34.
- The first piece, before grafting, has the root hash of the block exactly when no pruned branch of the proof has the hash
  of a part (`BlockProofs.BlockPiecesProveValidators`). It has another one where a cut reference of the block's root is
  also a part of its config (`BlockProofs.PartElsewhereLosesRootHash`), though grafting may repair that.
- Keeping a path keeps the root hash exactly when nothing changes from a Merkle cell on and look-alikes of a path cell
  have its depth (`ProofHashes.ProofKeepsHashExactly`). A new-state-hash proof is cut below a Merkle update, and loses the
  block's root hash (`ProofHashes.StateHashProofLosesRootHash`).
- The walk over a Merkle-Patricia proof ignores the last nibble of every node key (`MerklePatricia.MatchingIgnoresLast`),
  so it accepts the path 0x13 where only 0x12 is stored (`Tries.WrongKeyIsAccepted`). What is accepted is stored under the
  path exactly when the nodes of the proof, decoded, match the path to its last nibble (`Tries.AcceptedIsStoredExactly`).
- A signer that is listed again is counted again: the signed weight is that of the distinct signers exactly when no
  repeated signer has weight (`ValidatorSets.RepeatedSignersCountAgain`).
- A step after a shard block is not justified by what that shard block contributed: a shard block is accepted exactly when
  a shard state names its block before the first shard block (`ProvenStates.ShardBlockAcceptedExactly`).

Run `dafny verify dfyconfig.toml` to check everything.

## Model

| member | source | states |
|---|---|---|
| Cells.RefHashSmaller | src/lib/ton-rocks-js/types/Cell.js:336-447 | in a finalised tree the level-0 hash of a reference is a proper part of its parent's, Merkle cells and pruned branches included; the reason grafting terminates |
| Depths.MaskMeans | src/lib/ton-rocks-js/types/Cell.js:354-446 | a level is significant for a finalised tree if and only if a pruned branch in it hides that level plus the number of Merkle cells above it |
| Depths.StubStores | src/lib/ton-rocks-js/types/Cell.js:177-210 | which of its stored hashes and depths a pruned branch answers for a level, and that it answers its own for the highest one |
| Depths.DepthIsLongestWay | src/lib/ton-rocks-js/types/Cell.js:503-529 | the depth of a finalised tree is the length of the longest way down, counting below a pruned branch the depth it stores, unless a Merkle cell is above it |
| Depths.DepthIsLongestAddress | src/lib/ton-rocks-js/types/Cell.js:503-529 | without pruned branches and Merkle cells no position is longer than the depth, and one is as long |
| Depths.MerkleProofAcceptedExactly | src/lib/ton-rocks-js/types/Cell.js:397-416 | a Merkle proof cell passes the checks of `finalize` if and only if it states the hash and the depth of its reference |
| Depths.MerkleUpdateAcceptedExactly | src/lib/ton-rocks-js/types/Cell.js:419-446 | a Merkle update does so if and only if it states both for its old and for its new tree |
| Depths.StubAcceptedExactly | src/lib/ton-rocks-js/types/Cell.js:365-389 | a pruned branch does so if and only if it has no reference, hides some level, and has a hash and a depth for each level it hides |
| HashPreservation.PruningKeepsHash | src/lib/ton-rocks-js/types/Cell.js:466-555 | replacing subtrees by pruned branches outside Merkle cells keeps level-0 hash and depth |
| HashPreservation.UpperHashDetermines | src/lib/ton-rocks-js/types/Cell.js:466-555 | among trees whose pruned branches are level-1 ones, a hash at level 1 or above determines the whole tree, pruned branches included |
| HashPreservation.WholeHashDetermines | src/lib/ton-rocks-js/types/Cell.js:466-555 | among trees whose pruned branches are level-1 ones, the level-0 hash determines every tree that has no pruned branch outside Merkle cells |
| HashPreservation.KeepsHashExactly | src/lib/ton-rocks-js/types/Cell.js:177-210 | a pruning of a tree whose pruned branches are level-1 ones keeps hash and depth if and only if no new pruned branch is below a Merkle cell and none has a wrong depth |
| HashPreservation.LevelTwoStubIsMistaken | src/lib/ton-rocks-js/types/Cell.js:177-210 | with a pruned branch of level 2 the condition is not necessary: one is cut below a Merkle cell and the root keeps its hash |
| HashPreservation.LevelTwoStubLooksAlike | src/lib/ton-rocks-js/types/Cell.js:177-210 | a pruned branch of level 2 can have the level-0 and level-1 hashes of any other cell |
| ProofHashes.CutKeepsHashExactly | src/lib/block-utils.ts:145-172 | `buildProofExcept` keeps root hash and depth if the tree is safe to cut with that list, and only if so when all its pruned branches are level-1 ones |
| ProofHashes.RecutStubLosesRootHash | src/lib/block-utils.ts:145-172 | cutting a pruned branch of depth three again loses the root hash |
| ProofHashes.UntouchedExactly | src/lib/block-utils.ts:145-172 | the list-side condition under which cutting returns the very same tree, both directions |
| ProofHashes.ProofKeepsHashExactly | src/lib/block-utils.ts:206-263 | for every non-empty path, also one that leaves the tree, `buildProof` keeps hash and depth of the first path cell if nothing changes from a Merkle cell on and references with the hash of the next path cell have its depth; and only if so when the pruned branches are level-1 ones |
| ProofHashes.PathUntouchedExactly | src/lib/block-utils.ts:206-263 | `buildProof` returns the very same tree if and only if every reference off the path is kept and every one on it is already the proof of the rest; for every path |
| ProofHashes.StateHashProofLosesRootHash | src/lib/steps/ps-new-state-hash.ts:30-43 | the proof of a new state hash never has the block's root hash, unless the old or new state would not be cut |
| ProofHashes.PruningIsFinalized | src/lib/ton-rocks-js/types/Cell.js:336-451 | a pruning that keeps the hash passes the checks of `finalize` again |
| BlockUtils.PrintTreeVolume | src/lib/block-utils.ts:25-68 | returns the volume, and appends exactly the tree's parts to the list it was given, which stays a prefix |
| BlockUtils.BuildProofExcept | src/lib/block-utils.ts:145-172 | the loop builds the tree that the hash, size and round-trip results speak of |
| ProofContents.CutAt | src/lib/block-utils.ts:145-172 | where no cell on the way has a listed hash the cut tree has a copy, and a listed reference there is a level-1 pruned branch with its hash and the length of its longest way |
| BlockUtils.CloneTree | src/lib/block-utils.ts:174-185 | a clone is the same tree |
| BlockUtils.BuildPath | src/lib/block-utils.ts:188-204 | returns the first chain, among all root-to-cell chains in preorder, that ends in the wanted hash, or nothing |
| BlockUtils.BuildProof | src/lib/block-utils.ts:206-263 | the loop builds the tree that keeps the path, and fails for an empty path |
| ProofContents.OffPathRef | src/lib/block-utils.ts:236-249 | beside the path a pruned branch stays, and so does an ordinary cell whose first eight bits are 00000001; every other cell, Merkle cells included, becomes the pruned branch that stands for it |
| ProofContents.FirstByteIsOne | src/lib/block-utils.ts:242-243 | the first byte reads as one for these eight bits only, never for fewer |
| ProofContents.OnPathRef | src/lib/block-utils.ts:223-235 | whatever has the hash of the next path cell is replaced by the proof of the rest of the path |
| ProofContents.BesidePath | src/lib/block-utils.ts:206-263 | the same at every position of the path, and below its last cell unless the tail is cloned |
| Volumes.VolumeConservation | src/lib/block-utils.ts:29-67 | cells of the tree = its volume + the volumes of all its parts |
| Volumes.VolumeBounds | src/lib/block-utils.ts:44-63 | with at most four references the volume is 1 to 129 and every part's is 33 to 129 |
| Volumes.PartsAreFew | src/lib/block-utils.ts:44-63 | 33 times the number of parts, plus one, is at most the number of cells |
| Volumes.NestedPartsFirst | src/lib/block-utils.ts:35-55 | the parts inside a part stand, in their own order, before that part |
| PartPositions.PartsByPosition | src/lib/block-utils.ts:29-63 | the parts are those at all positions that their parents split off, each exactly once, ordered from left to right and with those of a cell after everything below it |
| Volumes.PartIsReference | src/lib/block-utils.ts:49-55 | a part is the reference of its recorded parent at its recorded index, and exceeds the limits there |
| Volumes.CutSize | src/lib/block-utils.ts:145-172 | the cut tree has the copied cells and the fresh pruned branches, nothing else |
| Volumes.CutMatchesVolume | src/lib/block-utils.ts:25-68 | cutting at the part hashes copies at most the measured volume, and exactly that if and only if those hashes are met only at parts |
| Volumes.EmittedPiecesAreSmall | src/lib/block-utils.ts:25-68 | the split tree and every part, cut, hold at most 129 copied cells |
| Paths.AddressesInPreorder | src/lib/block-utils.ts:196-202 | the positions that are searched are all positions of the tree, in strict preorder, hence each once |
| Paths.PreorderIsStrict | src/lib/block-utils.ts:196-202 | preorder is a strict total order of positions, so none is searched twice |
| Paths.ChainsAlong | src/lib/block-utils.ts:188-204 | the chain listed for a position holds the cells from the root to it |
| Paths.ChainCount | src/lib/block-utils.ts:188-204 | there are as many chains as cells |
| Paths.PathToFirst | src/lib/block-utils.ts:188-204 | the search finds nothing if and only if no cell has the hash, and otherwise the path to the preorder-first cell that has it |
| Paths.WholeTreesAgree | src/lib/block-utils.ts:223-235 | in a tree without pruned branches outside Merkle cells, references with the hash of the next path cell are that cell, and so have its depth |
| Paths.ProofContainsPath | src/lib/block-utils.ts:218-250 | at the positions of the path the proof has copies of its cells, and with `cloneTail` the whole last subtree |
| Paths.ProofIsOnlyPath | src/lib/block-utils.ts:236-249 | beside a clear path, the cells that are not pruned branches number exactly the path's |
| Paths.LastOfProof | src/lib/block-utils.ts:206-263 | at the end of the path stands the last cell with its references cut away |
| ShardStates.CollectLeafs | src/lib/steps/ps-shard-state.ts:13-29 | for an ordinary root, the chain to each position that is reached by ordinary cells only and has no references, every one once and in preorder; for an exotic root itself |
| ShardStates.LeafPositions | src/lib/steps/ps-shard-state.ts:13-29 | the leaf chains correspond one to one and in order to these positions |
| ShardStates.OnlyExoticRefs | src/lib/steps/ps-shard-state.ts:21-25 | a cell whose references are all exotic contributes no chain |
| ShardStates.LeafIsProven | src/lib/steps/ps-shard-state.ts:46-64 | the proof of whichever leaf chain is chosen has the root hash and the whole leaf, when look-alikes of a chain cell have its depth |
| ShardStates.LeafHashExactly | src/lib/steps/ps-shard-state.ts:46-64 | where pruned branches are level-1 ones, the proof of a leaf chain has the root hash if and only if look-alikes of a chain cell have its depth |
| Transactions.FromBlock | src/lib/steps/ps-transaction.ts:40-65 | succeeds if and only if the account blocks hold the hash; keeps the path to its first occurrence, and that cell |
| Transactions.TransactionIsProven | src/lib/steps/ps-transaction.ts:76-107 | what `fromBlock` returns: the stored cell has the wanted hash and, when the path is safe, the proof has the block hash and a cell of that hash and content at the place of the transaction |
| Transactions.AccountBlocksAre | src/lib/steps/ps-transaction.ts:46-47 | the account blocks are the third reference of the fourth reference of the block |
| ProofContents.BesideTransaction | src/lib/steps/ps-transaction.ts:51-62 | at its place in the proof the transaction has its references cut |
| Grafting.SplitRoundTrip | src/lib/steps/a-validators-proof-step.ts:11-36 | grafting the cut parts into the cut tree gives the tree back, nested parts included, when references with the hash of a part are that part and no uncut reference acquires such a hash |
| Grafting.NamedPartsAgree | src/lib/steps/a-validators-proof-step.ts:17-33 | it suffices that two references of the tree with the same listed hash hold equal subtrees |
| Grafting.GraftKeepsHash | src/lib/steps/a-validators-proof-step.ts:11-36 | grafting keeps level-0 hash and depth of trees without Merkle cells whose pruned branches store the depths of the parts |
| Grafting.GraftNothing | src/lib/steps/a-validators-proof-step.ts:13-15 | without parts the tree stays as it is |
| WalkTrees.WalkTree | src/lib/steps/a-validators-proof-step.ts:11-36 | in place: every object from the returned one on has its parts in place, no object has anything but its loaded or its grafted references, whatever is shared |
| WalkTrees.DoneIsGrafted | src/lib/steps/a-validators-proof-step.ts:17-35 | where parts are in place the tree that unfolds is the grafted tree of the loaded ones |
| WalkTrees.Reassemble | src/lib/steps/a-validators-proof-step.ts:56-70 | after the walk the root unfolds to the grafted tree; with a single piece nothing changes |
| SetValidators.BuildPathToConfig | src/lib/block-utils.ts:322-437 | nothing unless the block is a key block whose config has parameter 34, else the path through the config |
| SetValidators.PathToConfigLeads | src/lib/block-utils.ts:322-437 | that path leads by the extra, custom and config cells to the first config cell with the hash of parameter 34 |
| SetValidators.PathToConfigExactly | src/lib/block-utils.ts:322-437 | the path exists if and only if the extra of the block starts with 0xcca5 and a set bit and its config has a cell with the hash of parameter 34; by which references it goes |
| SetValidators.BuildValidatorsData | src/lib/steps/ps-set-validators.ts:35-99 | when it fails, and that its output is the cut root followed by the cut parts in the order found |
| ProofContents.BesideExtra | src/lib/steps/ps-set-validators.ts:49-50 | the proof has the root cell of the block info with every reference of it cut, and the other references of the block cut as a whole, a Merkle update for one |
| ProofContents.SplitsExactly | src/lib/steps/ps-set-validators.ts:55-60 | for an extra cell with at most four references the proof can be split if and only if there are four |
| SetValidators.PiecesAreSmall | src/lib/steps/ps-set-validators.ts:55-73 | each emitted part and the rest of the config hold at most 129 copied cells, for a config with at most four references a cell |
| BlockProofs.ValidatorsProofIsFaithful | src/lib/steps/ps-set-validators.ts:40-50 | before splitting, the proof is a finalised tree with the block hash that holds the path and all of parameter 34, when the path and the block info are safe to keep |
| BlockProofs.BlockPathIsSafe | src/lib/steps/ps-set-validators.ts:40-50 | blocks without pruned branches outside Merkle cells, and with no Merkle cell in the proof, have such a path and block info |
| BlockProofs.WholeTreeRoundTrip | src/lib/steps/a-validators-proof-step.ts:11-36 | a finalised tree without pruned branches and Merkle cells is always restored after splitting at the parts of any of its subtrees |
| BlockProofs.PiecesRestoreProof | src/lib/steps/ps-set-validators.ts:50-73 | grafting the pieces gives the proof itself, when hashes of parts name one subtree each, and the first piece already has its hash |
| BlockProofs.PiecesProveValidators | src/lib/steps/ps-set-validators.ts:35-99 | end to end for such a proof: the grafted pieces are the proof, with the root hash of the block and, at its place, the whole parameter 34 of the block |
| HonestTrees.CutKeepsHashWithoutStubs | src/lib/block-utils.ts:145-172 | where pruned branches store right depths, cutting keeps the root hash if and only if no pruned branch that is reached has a listed hash |
| HonestTrees.CutHasRightDepths | src/lib/block-utils.ts:145-172 | a pruned branch that is cut again leaves a wrong depth in the hash of the cut tree, and nothing else does |
| HonestTrees.CutHashDetermines | src/lib/block-utils.ts:145-172 | cut trees with the same hash were cut from trees with the same hash, also where the cut changed it |
| HonestTrees.CutFindsKept | src/lib/steps/a-validators-proof-step.ts:17-29 | a cut reference finds a piece if and only if a part with its hash was cut without touching a pruned branch, and the piece found is of a part with its hash |
| HonestTrees.UncutFindsNothing | src/lib/steps/a-validators-proof-step.ts:17-29 | a reference that was not cut never finds a piece |
| HonestTrees.RegraftedKeepsHashExactly | src/lib/steps/a-validators-proof-step.ts:11-36 | cutting a proof tree and grafting the cut parts gives back its hash if and only if each pruned branch that is cut again has a kept part, though the cut itself may have changed the hash |
| HonestTrees.WholeComesBack | src/lib/steps/a-validators-proof-step.ts:11-36 | a subtree without pruned branches whose references with the hash of a part are that part comes back as it was |
| BlockProofs.PiecesKeepHashesExactly | src/lib/steps/ps-set-validators.ts:50-73 | the pieces of a proof have the hashes of the trees they are cut from if and only if no pruned branch that is reached has the hash of a part |
| BlockProofs.BlockPiecesKeepHashesExactly | src/lib/steps/ps-set-validators.ts:35-99 | the same for the proof of every key block without pruned branches outside Merkle cells: there the first piece has the hash of the block |
| BlockProofs.BlockPiecesProveValidators | src/lib/steps/ps-set-validators.ts:35-99 | end to end for every such block: the grafted pieces lead to the place of parameter 34 if and only if every part is kept, and then have the root hash of the block and its whole parameter 34; they have the root hash if and only if each pruned branch of the proof that is cut again has a kept part; the first piece alone has the root hash if and only if no pruned branch of the proof is cut again |
| BlockProofs.RefRestoredExactly | src/lib/steps/a-validators-proof-step.ts:17-35 | from any tree that holds a path cell, or what the proof keeps of it, grafting leads on to the end of the path if and only if each later path cell that is cut has a kept part |
| BlockProofs.PartElsewhereLosesRootHash | src/lib/steps/ps-set-validators.ts:52-73 | when a reference of the block root that is cut has the hash of a part, the first piece does not have the hash of the block |
| SharedParts.SharedBlockProves | src/lib/steps/ps-set-validators.ts:35-99 | key blocks with one part at several places, and up to sixteen cells above parameter 34: the first piece never has the root hash; the grafted pieces lead to parameter 34 if and only if these are fewer than sixteen, and then have the root hash and the parameter itself |
| SharedParts.BushBlockProves | src/lib/steps/ps-set-validators.ts:35-99 | such blocks written out, with the bits of a key block and a part of 85 cells: the first piece has another hash, and the grafted pieces lead to parameter 34 if and only if fewer than sixteen cells stand above it |
| MerklePatricia.MatchingNibbleLength | src/lib/evm-data/verify-merkle-proof.ts:4-7 | one past the first difference, or the whole length |
| MerklePatricia.MatchingIgnoresLast | src/lib/evm-data/verify-merkle-proof.ts:124-131 | the comparison passes if and only if all nibbles of the node key but the last agree |
| MerklePatricia.VerifyMerkleProof | src/lib/evm-data/verify-merkle-proof.ts:43-167 | the loop returns the value of the walk, or fails where the walk does |
| MerklePatricia.KeyedStepMeans | src/lib/evm-data/verify-merkle-proof.ts:119-152 | a leaf or extension leads on if and only if its key agrees with the path up to its last nibble and the path is longer, then to what follows the key; it ends the walk if and only if such a key covers the path, the node is the last and its value is the expected one |
| MerklePatricia.BranchStepMeans | src/lib/evm-data/verify-merkle-proof.ts:83-117 | which child a branch leads on to, when an embedded node ends the walk, and that neither its value nor that of the branch is compared with the expected one |
| MerklePatricia.HexPrefixMeans | src/lib/evm-data/verify-merkle-proof.ts:29-33 | a first nibble of two or more marks a leaf, and the key follows an odd first nibble or any other first two |
| MerklePatricia.ProofsBind | src/lib/evm-data/verify-merkle-proof.ts:62-159 | for one root and path, proofs without mutual collisions that are accepted are equal and return one value |
| MerklePatricia.NoTrailingNodes | src/lib/evm-data/verify-merkle-proof.ts:86-138 | an accepted proof is no longer accepted with further nodes |
| Tries.HexPrefixRoundTrip | src/lib/evm-data/verify-merkle-proof.ts:29-33 | node keys decode to the nibbles and the leaf flag that were hex-prefix encoded |
| Tries.WalkAcceptsExactly | src/lib/evm-data/verify-merkle-proof.ts:43-167 | for a given trie a proof is accepted with a value if and only if both are what the trie determines for that path |
| Tries.AcceptedProofWalks | src/lib/evm-data/verify-merkle-proof.ts:62-159 | completeness: the nodes along the path are accepted |
| Tries.StoredValueIsProven | src/lib/evm-data/verify-merkle-proof.ts:43-167 | a stored key has an accepted proof of its value, and no other proof without node collisions, expected value or returned value is accepted for it |
| Tries.AcceptedIsStoredExactly | src/lib/evm-data/verify-merkle-proof.ts:119-148 | what is accepted for a path is stored under it if and only if every node key decoded from the proof matches the path to its last nibble and the proof ends in a leaf with the rest of the path as its key |
| Tries.WrongKeyIsAccepted | src/lib/evm-data/verify-merkle-proof.ts:4-7 | the byte path 0x13 is accepted for a trie that stores only 0x12 |
| ValidatorSets.RecordKeepsLast | src/lib/ton-types/index.ts:559-566 | the record has distinct node ids and finds the last validator given for an id |
| ValidatorSets.RecordInOrder | src/lib/ton-types/index.ts:559-566 | the record has its ids in the order in which they were given first |
| ValidatorSets.SortKeyOrder | src/lib/ton-types/index.ts:573-577 | below 2^64 the padded strings are ordered as the weights |
| ValidatorSets.SortByWeightAscends | src/lib/ton-types/index.ts:573-577 | sorting is a permutation into ascending weights |
| ValidatorSets.SortIsStable | src/lib/ton-types/index.ts:573-577 | validators of equal weight stay in the order of the record |
| ValidatorSets.MainIsHeaviest | src/lib/ton-types/index.ts:569-588 | the main set has min(main, n) members of the set, and no other choice of at most that many weighs more |
| ValidatorSets.MainComeLast | src/lib/ton-types/index.ts:569-588 | exactly which are chosen: every other one weighs less than each of them, or as much and stands earlier in the record; they are listed in that order |
| ValidatorSets.MainOfMain | src/lib/ton-types/index.ts:594-600 | the main set of the main set is the main set |
| ValidatorSets.ValidatorSet.BuildMainValidatorSet | src/lib/ton-types/index.ts:569-588 | a new set with exactly the main validators and their total weight |
| ValidatorSets.ValidatorSet.GetMain | src/lib/ton-types/index.ts:594-600 | computes the main set once and then returns the same object |
| ValidatorSets.Verify | src/lib/ton-types/index.ts:425-465 | the sum of the weights of the named validators, or failure if one is unknown; nothing is changed |
| ValidatorSets.SignersExactly | src/lib/ton-types/index.ts:433-440 | verification fails if and only if some named id is not in the record |
| ValidatorSets.WeightAdds | src/lib/ton-types/index.ts:426-462 | no validators weigh nothing, one weighs its weight, and weights of lists add up |
| ValidatorSets.SignedWeightIsBounded | src/lib/ton-types/index.ts:425-465 | with distinct node ids the signed weight is at most the weight of the record |
| ValidatorSets.MainSignedWeightIsBounded | src/lib/ton-types/index.ts:425-465 | for a main set the signed weight of distinct ids is at most its total weight |
| ValidatorSets.RepeatedSignersCountAgain | src/lib/ton-types/index.ts:427-453 | the signed weight equals that of the list without repetitions if and only if no repeated id has weight, and is never less |
| ValidatorSets.OnceIsBounded | src/lib/ton-types/index.ts:427-453 | counting every id once bounds the signed weight by the weight of the record, for every list |
| ReceiptCells.BufRoundTrip | src/lib/evm-data/receipt.ts:94-103 | data is read back; max(1, ceil(n/96)) cells; limits respected |
| ReceiptCells.SlicesAreFull | src/lib/evm-data/receipt.ts:94-103 | every cell of the chain but the last holds 96 bytes |
| ReceiptCells.TopicsRoundTrip | src/lib/evm-data/receipt.ts:105-115 | topics are read back in order; one cell each, and one for none; limits respected |
| ReceiptCells.LogsRoundTrip | src/lib/evm-data/receipt.ts:117-135 | every log's address, topics and data are read back in order; limits respected |
| ReceiptCells.WellSizedUnchanged | src/lib/evm-data/utils/index.ts:10-45 | fixing sizes changes no 20-byte address and no 32-byte topic |
| ReceiptCells.ToBufferAligns | src/lib/evm-data/utils/index.ts:36-41 | fixing a size aligns to the right: missing bytes are zero, and those too many are cut off on the left |
| ReceiptCells.BuildBufs | src/lib/evm-data/receipt.ts:94-103 | builds the chain of cells that the data round trip speaks of |
| ReceiptCells.BuildTopics | src/lib/evm-data/receipt.ts:105-115 | consumes the whole queue and builds the cell of its topics |
| ReceiptCells.BuildLogs | src/lib/evm-data/receipt.ts:117-135 | consumes the whole queue and builds the cell of its logs, or nothing |
| ReceiptCells.Receipt.ToCell | src/lib/evm-data/receipt.ts:137-148 | bloom and all logs can be read from the cell; the receipt and its logs are unchanged |
| ProvenStates.ProvenState.Add | src/lib/steps/proven-state.ts:46-64 | the state stays what the recorded steps have read; a failing check changes nothing |
| ProvenStates.FromJSON | src/lib/steps/proven-state.ts:35-44 | succeeds if and only if every check of the run does, and then holds all steps and the state of what they have read |
| ProvenStates.RunReads | src/lib/steps/proven-state.ts:49-61 | after any run validators and state hash are those that a step read last, and the references are those of the shard states and shard blocks, in order, and no others |
| ProvenStates.RunSucceedsExactly | src/lib/steps/proven-state.ts:35-48 | a run succeeds if and only if every step can be read and each shard block is named by a shard state before the first shard block |
| ProvenStates.ShardBlockIsJustified | src/lib/steps/ps-shard-block.ts:29-51 | in any successful run a shard block is justified by a shard state naming that block, before the first shard block |
| ProvenStates.ShardBlockAcceptedExactly | src/lib/steps/ps-shard-block.ts:29-51 | after any successful run a shard block is accepted if and only if its cells can be read and a shard state names its block before the first shard block |
| ProvenStates.ShardBlockIsNotAJustification | src/lib/steps/ps-shard-block.ts:36-50 | once an `ExtBlkRef` is reached, looking for a block not named before it throws |

## Left out

- BoC encoding: a tree is identified with the tree that its BoC decodes to. `toBoc` merges cells with equal level-0 hash, so
  for a tree that holds a subtree and also a pruned branch for that very subtree the decoded tree can be another one.
- The `proof` flag and the stored `levelMask` of cells in memory: masks are computed from the tree, as `finalize` does for
  every tree read from a BoC. A clone marked as proof reports no levels, which matters only below Merkle cells.
- The checks of `finalize` on bit-string sizes and on a depth of 1024: not modelled. Library cells are taken to have no
  references.
- HashPreservation.KeepsHashExactly: trees with pruned branches of other levels than 1 keep only the sufficient direction
  (`PruningKeepsHash`); the other one is false of them (`LevelTwoStubIsMistaken`). The same holds for
  `ProofHashes.CutKeepsHashExactly` and `ProofHashes.ProofKeepsHashExactly`.
- HashPreservation.UpperHashDetermines: not for pruned branches of other levels, which hide level 1 (`LevelTwoStubLooksAlike`).
- BlockProofs.BlockPiecesProveValidators: asks for an extra cell of four references, because the path takes its last
  reference and the split its fourth, and for a proof without Merkle cells, because pruned branches below them change the
  root hash.
- BlockProofs.PiecesProveValidators: for any block, not only whole ones, but asks that part hashes name one subtree each of
  the proof (`PartsNameSubtrees`), which makes the grafted tree the proof itself; so does `BlockProofs.PiecesRestoreProof`.
- SetValidators.BuildPathToConfig: the walk over the config dictionary is a parameter that tells the hash stored under key 34.
- `printTreeVolume` as used by `buildValidatorsData` in `src/lib/block-utils.ts`, a logging variant, and `printTreeList`.
- The step from a reassembled tree to a `ValidatorSet`: `BlockParser` is not part of this model.
- MerklePatricia.VerifyMerkleProof: the expected value is given; exclusion proofs (`expectedValue === null`) are not modelled.
  Keccak and RLP are parameters, nodes whose key is a list fail, and error texts are merged.
- Tries.WalkAcceptsExactly: tries with inlined children or values in branches are not modelled. Proof nodes must not collide
  with the trie nodes on the way, nor, where the way meets a leaf before the path ends, hash to the value stored in it,
  since a leaf with too short a key is followed like an extension.
- ValidatorSets.MainIsHeaviest: for weights of 64 bits, which is what a block can hold.
- Node ids as SHA-256 of public keys and their decoding: ids are opaque and decoding is a parameter. `Validator.verify` is
  empty, so nothing is said about signatures; the two-thirds quorum after the early return is never reached.
- ReceiptCells.Receipt.ToCell: type, status and gas are one opaque header, and texts have already been turned into bytes.
- The further choice among the leaf chains of a shard state (`_.sortBy`, second entry): LeafIsProven holds for any of them.
- ProvenStates: what a step reads from its own cells is part of the step; overlapping calls of `add` are not modelled.
- JSON forms of block ids, the block header of Ethereum, the file provider, services, events and contracts.
