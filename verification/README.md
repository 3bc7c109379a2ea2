# Stellar Enclave: trees, elimination, replicas and include closure

A Dafny model of the parts of Stellar Enclave that keep cryptographic trees and the
client's copies of them, with proofs of what they are for:

- the ASP non-membership contract, a sparse Merkle tree stored node by node under node
  hashes: it refines a key-value map, its root depends on that map alone, and its storage
  always holds the tree;
- the two incremental Merkle trees (ASP membership, pool), the whole-tree root and proof of
  the circuits crate and the client's full tree: all compute one root, proofs verify, known
  roots bind their leaves;
- in-place matrix inversion for Poseidon2 over an arbitrary field;
- the client's event fetch, gap check, ASP replica and pool replica, and end to end: which
  synchronisations give the client the contracts' roots;
- the include closure and staleness check of the circuit build.

`dafny verify dfyconfig.toml` checks everything.

## How the model is built

Hashes of the sparse tree are free terms (`SparseTree.Hash`): a leaf hash is `Leaf(key,
value)`, an internal hash `Node(left, right)`, the empty branch `Zero`. This is collision
resistance, domain separation and "no hash is 0" as equalities of terms. Keys and values are
256-bit numbers; hashing one outside the BN254 scalar field panics, as `poseidon2_hash2`
does, and the call is reverted (`Trap`). The fixed-depth trees take any two-argument
compression function, so root agreement needs no assumption about it; which values lie in
the field is a parameter of the contracts, whose insertions trap on the others. Opening claims return
a concrete collision instead of assuming there is none, and the injective case is a
corollary. `get_zeroes` is a parameter whose entry i + 1 is the compression of entry i with
itself. A field is a record of operations satisfying the field laws; the reals and the two
truth values are shown to be instances.

Contracts, stores and controllers are classes with the source's fields, and each method
states its whole new state, mostly through a function of the old one
(`SparseState.Apply`, `AspStore.AfterBatch`, `PoolStore.AfterEvents`, `SyncController.AfterSync`);
the lemmas over runs are about those functions. Storage maps are `map`s, tables keyed by
index are sequences in key order, the working matrices of the elimination are arrays. The
long loops of the source sit in methods of their own (`RebuildPath`, `ReplacePath`,
`CollapsePath`, `ClimbPath`, `ClimbFromLeaf`, `ClearRow`, `ProcessSorted`, `FetchChunks`). RPC answers, latest
ledgers and retention windows are parameters, and so is what throws during a synchronisation.
An RPC is any function of the request number and the ledger range; a page callback is any
verdict on the request number and its events. A synchronisation has one event type for each
contract; `ReplicaSync` and `PoolSync` each fix one of them. Of the pool's store a run is a
sequence of states, since a rebuild that throws leaves some part of the tree and the client
may be restarted between synchronisations.

## Where the code and its description part

- An update to the value already stored writes the path and then removes it: the root stays
  published, its node is gone, every later search fails (`SparseRuns.SameValueUpdateFreezes`).
  The contract stays valid exactly when updates change values (`SparseState.UpdateKeepsValid`).
- `delete_leaf` leaves the old path in storage exactly when it promotes a leaf sibling
  (`SparseState.DeleteKeepsValid`); two insertions and a deletion are enough
  (`SparseRuns.GarbageIsReachable`), and undoing an insertion restores the storage exactly if
  the insertion met no other leaf (`SparseRuns.StorageRestoredIff`).
- `verify_non_membership` rejects the true proof of an absent key when the colliding leaf's
  value is 0; it accepts in every other case (`AspNonMembership.Contract.VerifyNonMembership`).
  Such a leaf is one insertion away (`SparseRuns.ZeroLeafIsReachable`).
- `mat_inverse` does not pivot: it succeeds exactly when all leading blocks are nonsingular,
  and refuses some invertible matrices (`MatInverse.ExchangeIsRejected`).
- `fetchAllContractEvents` says it pages by cursor; it asks for one page a chunk and never
  sends the cursor. It is complete exactly when every chunk fits a page
  (`EventFetch.FetchCompleteIff`, `EventFetch.SecondEventLost`). `startSync` likewise says a
  cursor takes precedence, but every run starts at the retention window.
- `fetchAllContractEvents` documents a cursor for resuming. Resuming by a cursor alone, with no
  start, fetches nothing and reports success (`EventFetch.FetchAllContractEvents`).
- `checkSyncGap` looks at the more recent of the two contracts. Both stay without a gap exactly
  if the less recent one is within the window (`SyncController.NoGapOpensIff`), so a contract
  whose fetches kept failing falls out of it unnoticed (`SyncController.LaggingPoolUnnoticed`,
  `SyncController.LaggingAspUnnoticed`).
- The pool store inserts replayed commitments into its live tree, which is rebuilt only after
  a fetch that succeeded. However the replays are cut into pages, they are accepted exactly if
  they fit the tree on top of what it holds (`PoolStore.PagesAcceptedIff`,
  `PoolStore.ReplayOverflows`), so a fetch succeeds exactly if the window's commitments do,
  and otherwise leaves the pool's metadata as they were (`PoolSync.SyncRecordsIff`). A log that
  fills more than half the tree is synced once and refused the second time
  (`PoolSync.SecondSyncFails`), and then again, restarted or not, until the window holds fewer
  commitments (`PoolSync.RefusedAgain`). A fetch that fails for another reason leaves its
  replays in the live tree (`PoolSync.ReplaysStayInTree`).
- The database's index on the pool's commitments is unique, so a commitment published at two
  indices makes every fetch fail that would store both
  (`PoolStore.RepeatedCommitmentBlocks`); the contract does not compare commitments.
- The ASP store writes a row before it checks the order. A batch that starts after the next
  index is refused, and the row it has left behind stops every restart at the gap
  (`AspStore.LateSliceBlocks`); a client whose first window starts after the first leaf meets
  this.
- `extract_circom_dependencies` says it parses all includes; its pattern is anchored at the
  start of the text, so only an include that opens a file is found. The circuits open with a
  pragma (`CircomDeps.HeaderHidesIncludes`, `CircomDeps.ExtractionCompleteIff`), and their
  staleness is then decided by the main file alone (`CircomDeps.CheckCircuit`).

## Model

| member | source | states |
|---|---|---|
| Bits.SplitBits | contracts/asp-non-membership/src/lib.rs:187-199 | the 256 bits are those of the key, least significant first, and recompose to it |
| Bits.DistinctKeysDiffer | contracts/asp-non-membership/src/lib.rs:187-199 | two different keys differ in one of their 256 bits |
| SparseTree.CanonicalIsBuild | contracts/asp-non-membership/src/lib.rs:351-703 | a canonical tree is the one built top down from its own key-value pairs |
| SparseTree.BuildIsCanonical | contracts/asp-non-membership/src/lib.rs:351-703 | for every map of field elements the built tree is canonical and holds exactly that map |
| SparsePath.SearchIsLookup | contracts/asp-non-membership/src/lib.rs:222-297 | a search gives a present key's value and zeros beside it, or for an absent key value 0 and either the key itself, where nothing is stored, or another stored pair; its siblings fold back to the root and number at most 256 |
| SparsePath.AnswerIsSearch | contracts/asp-non-membership/src/lib.rs:222-297 | no other result answers for the key and folds to the root: all six fields are determined by the stored pairs and the root |
| SparsePath.LeafHasSibling | contracts/asp-non-membership/src/lib.rs:528-546 | the deepest sibling of a leaf is never an empty branch |
| SparsePath.InsertIsCanonical | contracts/asp-non-membership/src/lib.rs:351-477 | inserting an absent key keeps the tree canonical and adds exactly that pair |
| SparsePath.InsertFolds | contracts/asp-non-membership/src/lib.rs:376-449 | hashing up from the new leaf with the extended siblings gives the tree with the key inserted |
| SparsePath.DeleteIsCanonical | contracts/asp-non-membership/src/lib.rs:501-602 | deleting keeps the tree canonical and removes exactly the key |
| SparsePath.DeleteCollapses | contracts/asp-non-membership/src/lib.rs:524-589 | promoting the leaf sibling and hashing from the deepest nonzero sibling up gives the tree without the key |
| SparsePath.UpdateIsCanonical | contracts/asp-non-membership/src/lib.rs:625-703 | updating a present key keeps the tree canonical and changes exactly its value |
| SparsePath.UpdateFolds | contracts/asp-non-membership/src/lib.rs:657-688 | hashing up from the changed leaf with the found siblings gives the updated tree |
| SparsePath.ProofIsSearch | contracts/asp-non-membership/src/lib.rs:748-789 | a sibling list that folds to the root from a leaf or from nothing is the one a search finds |
| SparsePath.NonMembershipProofSound | contracts/asp-non-membership/src/lib.rs:766-791 | siblings that fold to the root from nothing or from another key's leaf prove the key absent |
| SparsePath.MembershipProofSound | contracts/asp-non-membership/src/lib.rs:299-327 | siblings that fold to the root from a key's leaf prove the pair present |
| NodeStore.FindIsSearch | contracts/asp-non-membership/src/lib.rs:222-297 | with the tree's nodes stored, the search through storage never fails or traps and finds what the tree holds |
| NodeStore.PathIsApart | contracts/asp-non-membership/src/lib.rs:421-434 | no node on a search path occurs again beside or below the path |
| SparseState.NewSiblingsBound | contracts/asp-non-membership/src/lib.rs:377-394 | the common-prefix loop stops in time: the new leaf has at most 256 siblings |
| SparseState.InsertSets | contracts/asp-non-membership/src/lib.rs:404-449 | the removed old path is disjoint from the new tree, and new path and untouched nodes make it up |
| SparseState.InsertKeepsValid | contracts/asp-non-membership/src/lib.rs:401-466 | insertion adds one pair, and in storage replaces exactly the old tree's nodes by the new tree's |
| SparseState.UpdateKeepsValid | contracts/asp-non-membership/src/lib.rs:642-691 | an update keeps the tree stored if and only if it changes the value, and then replaces exactly the old tree's nodes by the new tree's |
| SparseState.DeleteKeepsValid | contracts/asp-non-membership/src/lib.rs:520-592 | deletion removes one pair, keeps the new tree stored, and leaves garbage exactly if a leaf is promoted |
| SparseState.PromotionKeepsPath | contracts/asp-non-membership/src/lib.rs:520-569 | with a promotion, of the old tree's nodes only the deleted leaf is removed; all others stay stored |
| SparseState.OldRootIsGarbage | contracts/asp-non-membership/src/lib.rs:534-569 | after a promotion the old root is still stored and not reachable |
| AspNonMembership.Contract.constructor | contracts/asp-non-membership/src/lib.rs:111-118 | a new contract is valid and holds nothing |
| AspNonMembership.Contract.FindKey | contracts/asp-non-membership/src/lib.rs:320-327 | in every valid state a search succeeds, answers for the key as the stored pairs do in all fields, and its siblings fold to the root |
| AspNonMembership.Contract.InsertLeaf | contracts/asp-non-membership/src/lib.rs:351-477 | fails exactly for a present key, traps exactly for a key or value outside the field, and otherwise adds the pair; the state after is the one `Apply` gives |
| AspNonMembership.Contract.ExtendSiblings | contracts/asp-non-membership/src/lib.rs:370-399 | on a collision the siblings gain an empty branch for each common bit and then the old leaf |
| AspNonMembership.Contract.RebuildPath | contracts/asp-non-membership/src/lib.rs:406-449 | the loop stores exactly the new path and removes exactly the old one, padding levels removing nothing |
| AspNonMembership.Contract.UpdateLeaf | contracts/asp-non-membership/src/lib.rs:625-703 | fails exactly for an absent key, else sets the value; the contract stays valid unless the value was the same |
| AspNonMembership.Contract.ReplacePath | contracts/asp-non-membership/src/lib.rs:657-688 | the loop's stored set is the old one with the new path and without the old path |
| AspNonMembership.Contract.DeleteLeaf | contracts/asp-non-membership/src/lib.rs:501-602 | succeeds exactly for a present key, removes that pair, and never takes the invalid-node or missing-sibling exits |
| AspNonMembership.Contract.PromotedSibling | contracts/asp-non-membership/src/lib.rs:528-549 | a stored leaf sibling is promoted and dropped from the list, an internal one is kept, a missing one is an error |
| AspNonMembership.Contract.CollapsePath | contracts/asp-non-membership/src/lib.rs:551-589 | the loop stores the collapsed path and removes the recomputed hashes, none of which it has just stored |
| AspNonMembership.Contract.VerifyNonMembership | contracts/asp-non-membership/src/lib.rs:726-792 | false exactly for a present key; true exactly for an absent key with the searched siblings and collision, unless a colliding leaf has value 0; an invalid proof otherwise |
| SparseRuns.ApplyRefinesMap | contracts/asp-non-membership/src/lib.rs:351-703 | every call does to the map what it should, one that fails changes nothing, and validity breaks exactly at a successful same-value update |
| SparseRuns.RunRefinesMap | contracts/asp-non-membership/src/lib.rs:351-703 | over every run of value-changing calls the contract is valid, holds the map, and its root is built from the map alone |
| SparseRuns.HistoryIndependence | contracts/asp-non-membership/src/test.rs:398-408 | two histories end in the same root exactly if they end in the same map |
| SparseRuns.SearchNeverFails | contracts/asp-non-membership/src/lib.rs:222-327 | in every reachable state every search succeeds and answers as the map does, in all fields |
| SparseRuns.RunStaysExact | contracts/asp-non-membership/src/lib.rs:404-449 | over every run without deletions the storage holds exactly the tree's nodes |
| SparseRuns.DeleteUndoesInsert | contracts/asp-non-membership/src/lib.rs:351-602 | inserting an absent key and deleting it restores the root |
| SparseRuns.StorageRestoredIff | contracts/asp-non-membership/src/lib.rs:351-602 | inserting and deleting an absent key restores the storage too exactly if the insertion met no other leaf |
| SparseRuns.GarbageIsReachable | contracts/asp-non-membership/src/lib.rs:528-569 | for any two field keys, inserting both and deleting the second leaves the first one's tree with other nodes stored |
| SparseRuns.ZeroLeafIsReachable | contracts/asp-non-membership/src/lib.rs:769-776 | after one insertion of value 0 every other key's search ends at that leaf, where absence cannot be proved |
| SparseRuns.UpdateUndoesUpdate | contracts/asp-non-membership/src/lib.rs:625-703 | changing a value and changing it back restores the root |
| SparseRuns.SameValueUpdateFreezes | contracts/asp-non-membership/src/lib.rs:642-691 | after a same-value update the root is unchanged and every search fails |
| MerkleSpec.RootOfHalves | circuits/src/core/merkle.rs:33-47 | top down: a root is the compression of the roots of the left and right halves, in this order, down to single leaves |
| MerkleSpec.InsertLevel | contracts/asp-membership/src/lib.rs:212-225 | a level's new hash combines the stored left neighbour, or the empty hash on the right |
| MerkleSpec.LevelDone | contracts/asp-membership/src/lib.rs:212-225 | a stored hash is again usable for the next leaf after its level is processed |
| MerkleSpec.PathFolds | circuits/src/core/merkle.rs:130-144 | the true siblings of a node fold from it to its ancestor |
| MerkleSpec.OpeningBinds | circuits/src/core/merkle.rs:130-144 | a path that opens a node to anything but its true descendant exhibits a concrete collision |
| CoreMerkle.MerkleRoot | circuits/src/core/merkle.rs:33-47 | the level-by-level loop computes the root of the recursive tree |
| CoreMerkle.MerkleProof | circuits/src/core/merkle.rs:62-94 | the path is that of the index in the tree, and the packed bits are the index |
| CoreMerkle.PackBits | circuits/src/core/merkle.rs:88-91 | or-ing each bit into its place gives the low bits of the index |
| CoreMerkle.FoldProof | circuits/src/core/merkle.rs:130-144 | the verifier's loop folds the path by the bits of the packed indices |
| CoreMerkle.ProofVerifies | circuits/src/core/merkle.rs:125-145 | every leaf's proof folds to the root |
| CoreMerkle.ProofBinds | circuits/src/core/merkle.rs:125-145 | a full-length path from any other value to the root exhibits a collision |
| CoreMerkle.PaddedRoot | circuits/src/core/merkle.rs:33-47 | the root of the explicitly padded leaves is the root of the leaves with empty positions |
| MerkleContracts.AspMembership.constructor | contracts/asp-membership/src/lib.rs:82-108 | a new contract is valid, with the empty tree's root |
| MerkleContracts.AspMembership.Deploy | contracts/asp-membership/src/lib.rs:82-108 | deployment fails exactly for level counts outside 1 to 32 |
| MerkleContracts.AspMembership.GetRoot | contracts/asp-membership/src/lib.rs:155-160 | the root is the whole-tree root of the inserted leaves |
| MerkleContracts.AspMembership.InsertLeaf | contracts/asp-membership/src/lib.rs:193-241 | fails exactly when full, traps exactly on a leaf outside the field, changing nothing, and otherwise appends the leaf and publishes its index and the new whole-tree root |
| MerkleContracts.MerkleTreeWithHistory.Init | contracts/pool/src/merkle_with_history.rs:67-98 | the errors for level counts and reinitialisation, and else an empty tree |
| MerkleContracts.MerkleTreeWithHistory.InsertTwoLeaves | contracts/pool/src/merkle_with_history.rs:121-183 | fails exactly when uninitialised or full, traps exactly on a leaf outside the field, changing nothing, and otherwise appends both leaves and returns their indices without loss |
| MerkleContracts.MerkleTreeWithHistory.ClimbPath | contracts/pool/src/merkle_with_history.rs:151-170 | the loop computes the new whole-tree root and leaves usable hashes at every level from 1 |
| MerkleContracts.MerkleTreeWithHistory.IsKnownRoot | contracts/pool/src/merkle_with_history.rs:201-228 | true exactly for a nonzero root among the latest 90, the initial one included; the loop sees each slot once |
| MerkleContracts.MerkleTreeWithHistory.GetLastRoot | contracts/pool/src/merkle_with_history.rs:241-250 | the last root is the whole-tree root of all leaves |
| MerkleContracts.HistoryStep | contracts/pool/src/merkle_with_history.rs:172-176 | writing the newest root overwrites only the one that is no longer recent |
| MerkleContracts.IncrementalEqualsNaive | contracts/pool/src/merkle_with_history.rs:121-183 | both contracts' roots are the root of their leaves padded with zero leaves to a full tree |
| MerkleContracts.PairInsertionRefinesSingle | contracts/pool/src/merkle_with_history.rs:144-170 | pair and single insertion give the same root and the same usable stored hashes |
| MerkleContracts.KnownRootBinds | contracts/pool/src/merkle_with_history.rs:185-228 | a full-length path to a past root opens it to the leaf of that time, or exhibits a collision |
| MerkleContracts.KnownRootsBind | contracts/pool/src/merkle_with_history.rs:185-228 | with an injective compression every recent root binds the leaf at every index |
| ClientTree.MerkleTree.BuildTree | app/crates/prover/src/merkle.rs:96-131 | fails exactly for a depth outside 1 to 32 or too large for the platform's indices, else all levels of the new tree hold the empty hashes |
| ClientTree.MerkleTree.Insert | app/crates/prover/src/merkle.rs:135-182 | fails exactly when full, else every stored hash is that of the tree with the leaf appended |
| ClientTree.MerkleTree.Root | app/crates/prover/src/merkle.rs:186-189 | the root is the whole-tree root |
| ClientTree.MerkleTree.GetProof | app/crates/prover/src/merkle.rs:193-233 | the proof of any position is its path, with the index packed without loss |
| FieldAlgebra.DotReduced | poseidon2/src/utils.rs:29-40 | a row operation on the inverse is the same row operation on its product with the matrix |
| FieldAlgebra.ProductAssociates | poseidon2/src/utils.rs:10-92 | a row times one matrix times another is the row times their product |
| MatInverse.EliminateColumns | poseidon2/src/utils.rs:23-41 | the inner loop writes the reduced row, with the entries it skips set to zero |
| MatInverse.EliminateStep | poseidon2/src/utils.rs:22-42 | the entries written as zero are what the full row operation gives |
| MatInverse.ScaleStep | poseidon2/src/utils.rs:43-54 | scaling by the pivot's inverse finishes a row |
| MatInverse.ZeroPivot | poseidon2/src/utils.rs:44 | a zero pivot means that a leading block is singular |
| MatInverse.TriangularNonsingular | poseidon2/src/utils.rs:20-55 | a finished first phase means that every leading block is nonsingular |
| MatInverse.LowerPhase | poseidon2/src/utils.rs:20-55 | succeeds exactly if all leading blocks are nonsingular, leaving a unit upper triangular product |
| MatInverse.ClearStep | poseidon2/src/utils.rs:59-75 | subtracting a finished row clears exactly one more column |
| MatInverse.UpperPhase | poseidon2/src/utils.rs:57-89 | the result times the matrix is the identity, in debug and release builds; a debug build's working matrix ends as the identity |
| MatInverse.LeftIsRight | poseidon2/src/utils.rs:10-92 | the left inverse found is a right inverse too |
| MatInverse.ExchangeIsRejected | poseidon2/src/utils.rs:44 | over every field an invertible matrix exists that is refused |
| MatInverse.MatInverse | poseidon2/src/utils.rs:10-92 | an inverse from both sides, exactly if all leading blocks are nonsingular |
| IndexedTable.PutEntries | app/js/state/asp-membership-store.js:83-88 | storing a row changes the table at its index only |
| IndexedTable.EntriesDetermine | app/js/state/asp-membership-store.js:53-63 | a table in key order is determined by its entries |
| AspStore.SortedIs | app/js/state/asp-membership-store.js:140-153 | sorting any rearrangement of a strictly ascending batch gives the batch |
| AspStore.SortIsStable | app/js/state/asp-membership-store.js:140-153 | events with the same index keep their order |
| AspStore.AspMembershipStore.Init | app/js/state/asp-membership-store.js:42-66 | the tree gets the rows' leaves up to the first gap or until it is full; it fails exactly if a row is left over, for that reason, and the table stays |
| AspStore.AspMembershipStore.ProcessLeafAdded | app/js/state/asp-membership-store.js:77-116 | under its index the event's leaf, published root and ledger are stored, the default ledger only if it has none; then the tree takes the leaf exactly if it is next and there is room |
| AspStore.AspMembershipStore.ProcessEvents | app/js/state/asp-membership-store.js:124-177 | filters, sorts and skips as `AfterBatch` says, stopping at the first failure |
| AspStore.AspMembershipStore.Clear | app/js/state/asp-membership-store.js:246-251 | empties table and tree |
| AspStore.BatchSucceedsIff | app/js/state/asp-membership-store.js:161-177 | a batch is accepted exactly if its unseen events, sorted, continue the local tree and fit it |
| AspStore.BatchStores | app/js/state/asp-membership-store.js:124-177 | an accepted batch appends its unseen leaves and stores for each of them its leaf, root and ledger, leaving every other row as it was |
| AspStore.SortedRefusedAt | app/js/state/asp-membership-store.js:161-177 | of a refused batch the events before some unseen one are accepted, and that one's row is stored although the tree does not take it, being out of order or full |
| AspStore.UninitialisedBatch | app/js/state/asp-membership-store.js:90-177 | a store that is not initialised takes every leaf event of a batch and keeps having no tree |
| AspStore.ReplicaRows | app/js/state/asp-membership-store.js:77-88 | row i of a replica has index i and the leaf, root and ledger of the log's event i, the root being the tree root of the first i + 1 leaves |
| AspStore.BatchReplicates | app/js/state/asp-membership-store.js:124-177 | a slice of the log in any order is accepted exactly if it is empty or starts at or before the next index, and then brings the replica exactly to its end |
| AspStore.LateSliceBlocks | app/js/state/asp-membership-store.js:42-116 | a slice that starts later is refused at its first event, whose row stays and makes every restart fail at the gap, with the tree as it was |
| AspStore.InitReplicates | app/js/state/asp-membership-store.js:42-66 | restarting from a stored prefix restores the replica |
| AspStore.ReplicaRoot | app/js/state/asp-membership-store.js:103-112 | the local root is the root the contract published with the last leaf |
| AspStore.ReplicaMatchesContract | app/js/state/asp-membership-store.js:103-112 | a replica of the contract's whole log has the contract's current root |
| AspStore.LeafCountDecides | app/js/state/sync-controller.js:271-287 | a replica has fewer rows than the contract has leaves exactly if it lacks some, and else it has the contract's root |
| AspStore.RunAgrees | app/js/state/asp-membership-store.js:42-177 | over every run of slices, restarts and clears no error is raised, the table is a prefix of the log and the root agrees with it |
| AspStore.RunAcceptedIff | app/js/state/asp-membership-store.js:42-177 | over every run of slices, restarts and clears nothing is refused exactly if every slice starts at or before the index the replica is at |
| PoolStore.PoolStore.RebuildTree | app/js/state/pool-store.js:65-87 | the new tree holds the stored commitments in index order; it fails exactly if they do not fit, and then holds those that do |
| PoolStore.PoolStore.ProcessNewCommitment | app/js/state/pool-store.js:98-126 | a commitment that another row has is refused before anything is stored; else its row and, under the commitment, its index, ciphertext and ledger are stored, and the live tree takes it if it has room |
| PoolStore.PoolStore.ProcessEvents | app/js/state/pool-store.js:150-179 | tables, tree and counts after a batch are those of `AfterEvents`, of a batch that stops halfway too |
| PoolStore.BatchAcceptedIff | app/js/state/pool-store.js:150-179 | accepted exactly if the live tree has room for all commitments, repeats included, and none comes to be stored at two indices; tables and counts are then those of the events in order |
| PoolStore.BatchRejectedAt | app/js/state/pool-store.js:98-179 | a rejected batch has stored its events before the first refused commitment, and that one's row too if the tree was full, but not if it clashed |
| PoolStore.PagesAreOneBatch | app/js/state/sync-controller.js:211-221 | however a stream of events is cut into pages, the store accepts or refuses it alike and ends the same |
| PoolStore.PagesAcceptedIff | app/js/state/sync-controller.js:211-221 | any list of pages is accepted exactly if its events fit the live tree together and none comes to be stored at two indices |
| PoolStore.ReplaysRebuild | app/js/state/pool-store.js:65-126 | any accepted repeats and reorderings, in any pages, that cover the log rebuild the tree of the log applied once in order |
| PoolStore.RebuiltRootIsKnown | app/js/state/pool-store.js:65-87 | a table of any of the contract's latest 90 states rebuilds to a root the contract accepts, and one of all insertions to its last root |
| PoolStore.RebuildIsFaithfulIff | app/js/state/pool-store.js:74-84 | rebuilding puts each commitment at its own index exactly if no index is missing |
| PoolStore.BatchRecords | app/js/state/pool-store.js:98-179 | a batch adds exactly its nullifiers and its commitments' outputs to what is recorded, so replays add nothing |
| PoolStore.LastOutputIsStored | app/js/state/pool-store.js:98-119 | after a batch each commitment's output is that of its last event, with index, ciphertext and ledger, and all other outputs are as they were |
| PoolStore.LastNullifierIsStored | app/js/state/pool-store.js:135-142 | after a batch each nullifier's ledger is that of its last event, and all others are as they were |
| PoolStore.ReplayOutputs | app/js/state/pool-store.js:98-179 | over replays of a log, refused ones too, every stored row's output stays that of its log event |
| PoolStore.ReplayOverflows | app/js/state/pool-store.js:98-126 | onto a replica of a log, the log from any index on, cut into any pages, is accepted again exactly if both together fit the tree; the whole log is refused exactly if it fills more than half of it |
| PoolStore.RepeatedCommitmentBlocks | app/js/state/db.js:17-20 | no replay that would bring the table to hold one commitment at two indices is accepted |
| EventFetch.FetchAllContractEvents | app/js/stellar.js:577-719 | delivers the events of the turns of the loop, and succeeds with cursor, count and end exactly if no request failed and no callback threw; with neither start nor cursor it fails, and with a cursor alone it succeeds with nothing |
| EventFetch.TurnsAnswer | app/js/stellar.js:621-701 | turn by turn what the RPC's answer calls for: a page is a chunk of at most 5000 ledgers, a range error above the start moves to the oldest ledger it names, anything else ends the fetch; each turn starts where the one before ended |
| EventFetch.RetainedIsNotSkipped | app/js/stellar.js:654-668 | against an RPC whose range errors name no oldest ledger above r, no ledger from r on is skipped |
| EventFetch.RetainedAreCovered | app/js/stellar.js:621-701 | a successful fetch then covers all of its range from r on |
| EventFetch.RetainedFound | app/js/stellar.js:621-701 | against an RPC that retains exactly the ledgers from r on, with pages that suffice, a successful fetch delivers exactly the events of its range from r on |
| EventFetch.CursorIsLast | app/js/stellar.js:682-684 | the cursor is that of the last page with events, or its last event's id, or without events the one given |
| EventFetch.StepsAscend | app/js/stellar.js:621-701 | chunks are ascending, disjoint, within the range and at most 5000 ledgers long |
| EventFetch.FetchCovers | app/js/stellar.js:621-701 | a successful fetch covers exactly its range without what the RPC no longer retains |
| EventFetch.ClampsEnd | app/js/stellar.js:654-668 | no ledger from the last clamp on is given up, and the one before it is |
| EventFetch.FetchCompleteIff | app/js/stellar.js:622-648 | one page a chunk finds every event of the covered ledgers if every chunk's events fit a page, and otherwise fewer |
| EventFetch.FetchFindsAllIff | app/js/stellar.js:622-648 | a fetch that gives up no ledger finds every event of its range exactly if every chunk's events fit a page |
| EventFetch.BusyLedgerLosesEvents | app/js/stellar.js:622-648 | a covered ledger with more events than a page loses some, in a fetch that succeeds |
| EventFetch.SecondEventLost | app/js/stellar.js:622-648 | with pages of one event, the second event of a ledger is lost |
| SyncController.Controller.StartSync | app/js/state/sync-controller.js:158-361 | the stored metadata and the reported status after a run, whatever throws or fails in it, and nothing while another run is on |
| SyncController.GapCheckIs | app/js/state/sync-controller.js:97-141 | broken exactly if something has been synced and both contracts are further behind than the window; else a warning exactly if both are further behind than the threshold |
| SyncController.OutOfWindowIsFlagged | app/js/state/sync-controller.js:173-192 | with both contracts further behind than the window, both are flagged, their ledgers and cursors stay, and the report is broken |
| SyncController.ReportIs | app/js/state/sync-controller.js:158-361 | an error is reported exactly if something threw, and then nothing was saved unless it threw after saving; a complete run reports the numbers of events taken |
| SyncController.FetchIsRecorded | app/js/state/sync-controller.js:202-265 | a saved run records of each successful fetch its end and cursor, starting over on a forced refresh, and leaves a failed one's contract as it was |
| SyncController.PoolFlagIff | app/js/state/sync-controller.js:173-225 | the pool's flag is raised exactly by a saved run out of the window and cleared exactly by a saved successful fetch within it |
| SyncController.AspFlagIff | app/js/state/sync-controller.js:173-288 | the ASP's flag likewise, but a saved successful fetch sets it to whether the chain is known to have more leaves |
| SyncController.BrokenStays | app/js/state/sync-controller.js:158-192 | flagged contracts stay as they are over every run that finds them out of the window each time |
| SyncController.RetainedInTime | app/js/stellar.js:654-668 | a fetch's ledgers are covered from the window's start or the oldest retained ledger on, and nothing since the recorded ledger is lost if the one after it is retained |
| SyncController.FetchExtendsIff | app/js/state/sync-controller.js:193-229 | a successful fetch continues the covered range exactly if the window reaches back to it and the RPC has given up no ledger since |
| SyncController.NoGapOpensIff | app/js/state/sync-controller.js:102-288 | when the gap check passes and both fetches succeed, both contracts stay without a gap exactly if the less recent one is within the window and no new ledger is given up |
| SyncController.LaggingPoolUnnoticed | app/js/state/sync-controller.js:102-229 | a pool further behind than the window, beside an ASP within it, passes the check and is recorded as synced by a fetch that covers no ledger before the window |
| SyncController.LaggingAspUnnoticed | app/js/state/sync-controller.js:102-288 | the same for the ASP, which is flagged exactly if the chain is known to have more leaves |
| SyncController.LaggingPoolExample | app/js/state/sync-controller.js:102-229 | from nothing on, in numbers: both fetched at 1000, the pool failing at 17000, and at 30000 recorded as synced although no fetch has covered 1001 to 12720 |
| SyncController.RunKeepsFaithful | app/js/state/sync-controller.js:158-292 | over every run, whatever fails in it, everything from the last clamp of each contract's first recorded fetch up to its recorded ledger has been fetched, if each later recorded fetch was in time for its own contract |
| SyncController.RunCovers | app/js/state/sync-controller.js:97-288 | over every good run from nothing each contract's ledgers are covered without a gap from the start of its first recorded fetch on, or from that fetch's last clamp |
| ReplicaSync.FetchReplicates | app/js/state/sync-controller.js:246-258 | whole pages fed to the store are all accepted and bring the replica to the end of the fetched range |
| ReplicaSync.RunReplicates | app/js/state/sync-controller.js:231-292 | over every run, whatever else fails in it, if fetches give up no unknown leaf, the store refuses no page, the replica is a prefix of the contract's log and holds all that was published up to the recorded ledger |
| ReplicaSync.SyncedRootIsContractRoot | app/js/state/sync-controller.js:231-292 | once the recorded ledger is past the last publication, the local root is the contract's |
| ReplicaSync.GoodRunGivesContractRoot | app/js/state/sync-controller.js:158-292 | a good run whose first fetch starts, after any clamps, no later than the first leaf, with pages that suffice, gives the contract's root |
| PoolSync.FetchedFits | app/js/stellar.js:669-691 | a fetch that succeeds has found room for everything it found, and has stored it |
| PoolSync.HonestFetchIff | app/js/stellar.js:622-716 | with whole pages and a callback that is the store's verdict, a fetch succeeds exactly if the window's commitments fit the live tree on top of what it holds and none comes to be stored at two indices |
| PoolSync.SyncRecordsIff | app/js/state/sync-controller.js:202-229 | the pool is recorded as synced exactly if the window fits and nothing throws before saving, and else keeps its metadata |
| PoolSync.RefetchSucceedsIff | app/js/state/sync-controller.js:202-229 | on top of a rebuilt tree a fetch succeeds exactly if the stored commitments and the window's together fit the tree |
| PoolSync.RefusedAgain | app/js/state/sync-controller.js:202-229 | a fetch refused for want of room is refused again, after a restart too, while the window holds no fewer commitments |
| PoolSync.SecondSyncFails | app/js/state/sync-controller.js:202-229 | from nothing on, a log that fills more than half the tree is synced by the first synchronisation and refused by the second |
| PoolSync.ReplaysStayInTree | app/js/state/pool-store.js:121-125 | replays that add nothing to the table stand a second time in the live tree until it is rebuilt |
| PoolSync.RecordedFinds | app/js/state/sync-controller.js:202-225 | a recorded fetch finds every commitment from the recorded ledger to the latest |
| PoolSync.RunReplicates | app/js/state/sync-controller.js:202-229 | over every run of synchronisations and restarts, whatever fails in them, the tables hold rows of the contract's log only, each with its event's output, and all of those published up to the recorded ledger |
| PoolSync.GoodRunGivesKnownRoot | app/js/state/sync-controller.js:202-229 | a good run up to one of the contract's latest 90 states gives a root that the contract accepts, its last root if nothing was inserted since, and every commitment's own output |
| CircomDeps.ExtractDependencies | circuits/build.rs:307-349 | terminates on cyclic includes with exactly the reached files, and fails exactly if a reached file cannot be read or resolved |
| CircomDeps.NeedsRebuild | circuits/build.rs:409-429 | true exactly if a newer file comes before any unreadable one, false exactly if none is newer or unreadable |
| CircomDeps.CheckCircuit | circuits/build.rs:148-171 | no rebuild exactly if main and all it reaches are readable and none is newer; a rebuild only for a newer one; an unreadable file is an error; with all includes first this is about the documented closure, with another header about main alone |
| CircomDeps.CapturesAllIff | circuits/build.rs:319-333 | the pattern finds all includes of a file exactly if none comes after its first statement |
| CircomDeps.ExtractionCompleteIff | circuits/build.rs:300-349 | the list is all that the files' text includes reach exactly if no listed file, nor main, includes a file outside the list |
| CircomDeps.IncludesFirstSuffices | circuits/build.rs:300-349 | if no file that main reaches by its text has an include after its first statement, the list is the documented closure |
| CircomDeps.HeaderHidesIncludes | circuits/build.rs:319-333 | a file that does not open with an include has no extracted dependency |
| CircomDeps.PragmaThenInclude | circuits/build.rs:319-333 | a pragma followed by an include hides the included file |

## Left out

- Poseidon2, BN254, Groth16 and the circuits: foreign cryptography, represented by free terms or an arbitrary compression function.
- Authorisation, admin rotation, events and storage lifetime of the contracts: one-line checks. Host panics revert a call, so they appear only as `Trap`.
- The trimming of `siblings` after the loop of `insert_leaf`: the list is not read again.
- AspNonMembership.Contract.UpdateLeaf: calls after a same-value update are not modelled as method calls; that every search then fails is `SparseRuns.SameValueUpdateFreezes`.
- MatInverse.MatInverse: a failed pivot is `None`; the source panics.
- `mat_transpose`, byte and hex helpers, amount balancing, registries and dashboards are not modelled.
- `pool.rs`, the nullifier cache of the facilitator, note scanning, the UI and the wallet.
- AspStore.AspMembershipStore: the tree is held as its leaves with the whole-tree root; that the client's stored tree computes that root is `ClientTree.MerkleTree.Insert`.
- EventFetch.FetchAllContractEvents: malformed RPC replies and decoding errors are one failure case.
- SyncController.Controller.StartSync: note scanning is only a step that may throw; progress events are left out. A page callback may throw for any reason; only `PoolSync.HonestFetchIff` and what rests on it take the pool's callback to throw on nothing but the store's refusals, not on the address book's or the progress callback's. The latest ledger is taken to be positive.
- The pool store's `clear`: it empties tables and tree, as `AspStore.AspMembershipStore.Clear` does.
- ReplicaSync.RunReplicates: a restart of the client between synchronisations is `AspStore.InitReplicates`, not a step of the run.
- The compile loop of `circuits/build.rs`, and the file search: input and output only.
