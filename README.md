# Append-only Merkle tree, two drafts

The repository holds two drafts of a fixed-depth, append-only binary Merkle
tree.

Both store the tree level by level:
- `tree[d]` holds 2^d digests;
- level 0 is the root and level `depth` holds the leaves;
- a cursor `index` says how many leaves have been appended.

Appending writes the next leaf. Then it recomputes, from their children, the
ancestors that the new leaf completes. It climbs while the current position is
a right child, which happens once per trailing 1-bit of the cursor.

- `src/main.rs` is the first draft.
  - `new_tree` allocates `depth + 1` levels and fills the leaves with the
    digest of the empty string. It then builds every level above from the
    level below.
  - `add_data` overwrites the slot at the cursor and rehashes the path.
- `contract/lib.rs` is a smart-contract draft of the same tree over `u128`
  balances. It adds `generate_proof`, an inclusion proof of one sibling digest
  per level plus the declared root. It also adds `verify`, which folds a value
  through that proof.

The model has three modules.

- `MerkleSpec` (merkle_spec.dfy) holds the shared ideal tree.
  - Hashing is a pair of uninterpreted functions (`Hasher`).
  - `MerkleRoot` is the ideal digest of a subtree.
  - `EmptyRoot` is the digest of a subtree whose leaves are all the
    placeholder.
  - `NodeDigest` is what the node at height h, position j holds after a
    sequence of appends: the Merkle root of its leaves once all of them are
    appended, and the placeholder root otherwise.
  - `Ideal` gives all levels.
  - The lemmas prove what one append does to the levels. The bit-level fact
    behind the loop is in `JustCompletedIff`.
- `MerkleMain` (merkle_main.dfy) models `src/main.rs` as a class.
  - Each level is an `array` of 64-bit digests.
  - The slots are a sequence of strings that `add_data` updates.
  - Levels are built and rehashed in place, with loop invariants.
- `MerkleContract` (merkle_contract.dfy) models `contract/lib.rs` as a class
  over sequences.
  - Proof generation and verification are loops, proved against the
    specification functions `Proof` and `Fold`. `Fold` and `Pushed`, the
    order in which the loop pushes entries, are recursive.

Each class's `Valid()` ties its levels to `Ideal` of the data appended so far.

## Model

| member | source | states |
|---|---|---|
| MerkleSpec.Pow2 | src/main.rs:27 | 2^n is positive, and even for n > 0, so every level has whole pairs of children |
| MerkleSpec.ClimbStep | src/main.rs:81-83 | one iteration of the upward loop, taken on an odd position, moves to the parent and uses up one trailing 1-bit of the cursor |
| MerkleSpec.MerkleRoot | src/main.rs:77-92 | the ideal digest of the subtree at height h, position j: the leaf digest of its value at height 0, otherwise the combine of its two children's Merkle roots |
| MerkleSpec.EmptyRoot | src/main.rs:37-64 | the digest new_tree writes on every node of height h: the digest of the placeholder at the leaves, and above them the combine of two copies of the placeholder root one height lower |
| MerkleSpec.Recomputed | src/main.rs:80-92 | the nodes one append rewrites: the leaf k itself and its ancestors k >> h for every h up to the number of trailing 1-bits of k |
| MerkleSpec.JustCompletedIff | src/main.rs:80-92 | appending at cursor k completes the node (h, j) if and only if the loop rewrites it: h is at most the trailing 1-bits of k and j = k >> h |
| MerkleSpec.ShrBound | contract/lib.rs:117-129 | the ancestor position k >> s of a leaf is in range on its level |
| MerkleSpec.MerkleRootPrefix | src/main.rs:72-95 | later appends never change the Merkle root of a subtree whose leaves were all present |
| MerkleSpec.PlaceholderRoot | src/main.rs:37-39 | a subtree lying wholly in a tail of the slots that holds only the placeholder has the placeholder root of its height |
| MerkleSpec.BlankSubtree | src/main.rs:32-39 | in a full set of 2^depth slots, a node lying wholly past the first n slots fits in the slots, is incomplete, and its Merkle root is the placeholder root |
| MerkleSpec.BlankRoots | src/main.rs:32-95 | after n appends, every node lying wholly past the first n slots holds the Merkle root of the slots it covers |
| MerkleSpec.NodeCombines | src/main.rs:84-90 | a node that is fully appended, or entirely unappended, is the combine of its two children |
| MerkleSpec.AppendNode | src/main.rs:77-92 | after one append, the rewritten nodes hold the new leaf digest or the combine of their children, and every other node keeps its digest |
| MerkleSpec.FullRoot | src/main.rs:97-108 | once 2^depth values are appended the root is the Merkle root of all of them |
| MerkleSpec.FullComplete | src/main.rs:97-108 | in a full tree every node is fully appended |
| MerkleSpec.NodeDigest | src/main.rs:72-95 | what node (h, j) holds after a sequence of appends: the Merkle root of its leaves once all of them are appended, otherwise the placeholder root written by new_tree, since a node is only rewritten when its last leaf arrives |
| MerkleSpec.Ideal | src/main.rs:23-95 | the levels of a tree after a sequence of appends, root level first, level d holding 2^d digests; both Valid() predicates pin the stored levels to it |
| MerkleSpec.IdealAt | src/main.rs:72-95 | node j of level d holds NodeDigest at height depth - d |
| MerkleSpec.IdealCombines | src/main.rs:84-90 | every fully appended or untouched internal node equals the combine of its children |
| MerkleSpec.IdealEmpty | src/main.rs:37-64 | the freshly built level d is 2^d copies of the placeholder root of height depth - d |
| MerkleSpec.AppendLevelStep | contract/lib.rs:65-73 | on a level the loop reaches, the append changes exactly the node on the path, to the leaf digest or the combine of its new children |
| MerkleSpec.AppendLevelUntouched | contract/lib.rs:69-74 | a level with no rewritten node is unchanged by the append |
| MerkleSpec.AppendLevelAbove | contract/lib.rs:69-74 | every level above where the loop stops is unchanged by the append |
| MerkleSpec.PathRewritten | src/main.rs:80-92 | the effect of the upward loop on the levels above the leaves: every node an append at cursor k rewrites holds the combine of its children in the new levels, and every other node keeps its old digest |
| MerkleSpec.AppendLevels | contract/lib.rs:64-74 | the append sets the leaf at the cursor, and each other node is either rewritten as the combine of its children or kept |
| MerkleSpec.AppendCell | contract/lib.rs:67-74 | the same, for one internal node |
| MerkleSpec.AppendLoopStart | contract/lib.rs:65 | after the leaf write, the leaf level is the one after the append and all levels above are the ones before it |
| MerkleSpec.AppendLoopStep | contract/lib.rs:69-74 | one loop iteration makes level d the one after the append, reading only levels already updated; all indexes are in range |
| MerkleSpec.AppendLoopExit | contract/lib.rs:69-74 | when the loop stops, at an even position, the whole vector of levels is the one after the append |
| MerkleContract.PathIndex | contract/lib.rs:117-128 | the position on level d of the ancestor of leaf k, k >> (depth - d), is below 2^d |
| MerkleContract.Sibling | contract/lib.rs:121-125 | the entry for position i is the digest of the other child of i's parent, flagged to go on the right exactly when i is a left child |
| MerkleContract.LevelEntry | contract/lib.rs:119-128 | the entry for level d on the path of leaf k is the digest of the other child of the path's level d - 1 node, flagged to go on the right exactly when the path goes through the left child |
| MerkleContract.Proof | contract/lib.rs:96-104 | the proof as documented has depth + 1 entries and starts with (root_hash, true) |
| MerkleContract.Pushed | contract/lib.rs:119-129 | the loop pushes the entries of levels d, d - 1, ..., 1, in that order |
| MerkleContract.Fold | contract/lib.rs:83-91 | the digest verify computes: starting from the leaf digest, fold in the entries of levels d, d - 1, ..., 1, each on the side its flag gives |
| MerkleContract.Verifies | contract/lib.rs:81-94 | a value verifies against a proof when its folded digest equals the digest in the proof's root slot |
| MerkleContract.ProofAsWritten | contract/lib.rs:112-131 | generate_proof's vector starts with (root_hash, true), but its slot m holds the entry for level depth + 1 - m |
| MerkleContract.FoldClimbs | contract/lib.rs:83-91 | folding the proof from the digest of the level-d ancestor reaches tree[0][0] when that path is consistent |
| MerkleContract.RoundTrip | contract/lib.rs:81-94 | on a consistent path whose declared root is the computed one, the value whose digest is at leaf k verifies |
| MerkleContract.FoldInjective | contract/lib.rs:85-91 | with injective digests, the fold determines the digest it started from |
| MerkleContract.Binding | contract/lib.rs:81-94 | with injective digests, only the value at leaf k verifies against the proof for k |
| MerkleContract.FullPathConsistent | contract/lib.rs:67-74 | in a full tree every path is consistent |
| MerkleContract.ProofAsWrittenShallow | contract/lib.rs:112-131 | for depth at most 1 the proof as written equals the documented one |
| MerkleContract.ReversedProofRejectsAppendedLeaf | contract/lib.rs:81-131 | a full depth-2 tree over [0, 1, 0, 0], with digests of one byte combined by concatenation: the documented proof of leaf 0 verifies, the proof as written does not |
| MerkleContract.BuildAsWritten | contract/lib.rs:41-53 | the build loop as written either fails or only appends rows, and it can only run when level d of the vector exists |
| MerkleContract.NewAsWritten | contract/lib.rs:33-53 | new as written succeeds exactly for depth 0, where it yields the single row [calculate_hash(0)] |
| MerkleContract.BuildLevels | contract/lib.rs:41-53 | the corrected bottom-up build yields the levels of a tree with nothing appended |
| MerkleContract.MerkleTree.Valid | contract/lib.rs:12-18 | the invariant every operation keeps: data holds exactly the index balances appended so far, index is at most 2^depth, and the levels are Ideal of the appended balances |
| MerkleContract.MerkleTree.constructor | contract/lib.rs:23-56 | the levels of an empty tree: placeholder leaves and every internal node the combine of its children; for depth 0 the single row [calculate_hash(0)] |
| MerkleContract.MerkleTree.AddData | contract/lib.rs:60-77 | a full tree is left unchanged; otherwise the balance is appended, the leaf set, the path rewritten, the cursor advanced, and Valid kept |
| MerkleContract.MerkleTree.GenerateProof | contract/lib.rs:107-132 | empty for an unappended position, otherwise the documented proof |
| MerkleContract.MerkleTree.Verify | contract/lib.rs:81-94 | true exactly when the value folds through the proof of k to the declared root |
| MerkleContract.MerkleTree.AppendedVerifies | contract/lib.rs:814-821 | in a full tree whose declared root is the computed one, every appended value verifies at its own position |
| MerkleContract.MerkleTree.OnlyAppendedVerifies | contract/lib.rs:822-829 | with injective digests, in such a tree a value verifies at position k only if it is the one appended there |
| MerkleContract.DepthZeroScenario | contract/lib.rs:156-170 | new(0, r) then add_data(10): the single level is [calculate_hash(10)] and the cursor is 1 |
| MerkleMain.FillLevel | src/main.rs:53-64 | every node of the level is the combine of the two nodes below it |
| MerkleMain.BlankLevel | src/main.rs:49-64 | a level filled above blank subtrees of height h - 1 is half as long and holds the blank root of height h |
| MerkleMain.NewLevels | src/main.rs:34-64 | depth + 1 distinct, fresh levels, level e of length 2^e, each node the blank root of its height |
| MerkleMain.SetNode | src/main.rs:84-90 | a node store changes that one node of that one level |
| MerkleMain.RehashNode | src/main.rs:85-91 | one store of the upward loop makes node i of level d the combine of its two children and changes nothing else |
| MerkleMain.Rehash | src/main.rs:80-92 | after the leaf write, the upward loop leaves every level as the append makes it |
| MerkleMain.AppendLeaf | src/main.rs:78-92 | writing the leaf of an append and running the upward loop takes the levels of the appended strings to those of the strings plus the new one; the leaf holds its digest and every other node is kept or rewritten as the combine of its children |
| MerkleMain.BlankLevels | src/main.rs:37-64 | the blank levels new_tree builds are the levels of a tree with nothing appended |
| MerkleMain.MerkleTree.Valid | src/main.rs:5-11 | the invariant every operation keeps: 2^depth slots, index at most 2^depth, depth + 1 distinct level vectors, every slot from index on still "", and the levels are Ideal of the first index slots |
| MerkleMain.MerkleTree.constructor | src/main.rs:23-70 | depth + 1 fresh levels, 2^depth blank slots, cursor 0, levels those of an empty tree |
| MerkleMain.MerkleTree.AddData | src/main.rs:72-95 | a full tree is left unchanged; otherwise slot index takes the string, the leaf its digest, the path is rewritten, index grows by one, Valid kept |
| MerkleMain.MerkleTree.LeafRow | src/main.rs:37-39 | every leaf holds calculate_hash of its slot, the appended string or the empty one |
| MerkleMain.MerkleTree.CompleteNodes | src/main.rs:72-95 | a node whose leaves are all appended holds their Merkle root and is the combine of its children; every other node still holds the blank root |
| MerkleMain.MerkleTree.BlankNodes | src/main.rs:32-95 | a node all of whose slots lie past the cursor, and so hold "", holds the Merkle root of its slots; with CompleteNodes, every node whose slots are all appended or all blank holds the Merkle root of its slots |
| MerkleMain.MerkleTree.FullTreeRoot | src/main.rs:72-95 | once every slot is taken the root is the Merkle root of all slots |
| MerkleMain.FillDepthThree | src/main.rs:97-108 | new_tree(3, 1556255166675498662) and eight add_data calls: cursor 8 and the root is the Merkle root of the slots |

## Left out

- Concrete hashing is left out. `DefaultHasher`, the decimal `format!("{}{}", ..)` concatenation and `hash_encoded::<Sha2x256>` become the two functions of a `Hasher` value. No lemma assumes injectivity except as the stated hypothesis of `FoldInjective`, `Binding` and `OnlyAppendedVerifies`.
- `concat_hash` makes two `hash_encoded` calls into one output buffer. Whether the second call keeps the first input is not visible in the source, so the model treats `concat_hash` as an arbitrary function of both digests.
- The negative expectations of the commented tests are left out as stated. They say that a value verifies only at its own position. They would fail if the particular digests involved collided. `Binding` and `OnlyAppendedVerifies` prove them under an explicit `Injective` hypothesis, which is sufficient but stronger than the tests need. The source's `concat_hash` maps two 32-byte digests to one 32-byte digest, so it cannot be injective.
- The literal SHA-256 arrays in the tests are left out, because they cannot be checked against an abstract hash.
- The `u32`/`usize` width of `2^depth`, the cursor and the positions is left out. The model uses unbounded integers, so the overflow of `pow(2, depth)` for large depths is not modelled.
- The ink! contract scaffolding is left out: attributes, storage boxes and the storage allocator. Its storage is plain sequences.
- Debug printing is left out, and so is the output of `main`.
- `root_hash` is stored and never compared with the computed root, as in the source. The properties that need the two to agree take that as a hypothesis.
- The initial leaf differs between the drafts: `calculate_hash(0)` in `contract/lib.rs` and the digest of `""` in `src/main.rs`. Each module keeps its own placeholder.
- MerkleContract.MerkleTree.Verify: requires `k < index`. For any other position the draft indexes its empty proof out of range. It also folds the proof in the documented order that `GenerateProof` returns, so at depth 2 and above it differs from the draft's `verify`, which folds the order the loop pushes (second finding below); no tree built by `new` as written reaches that depth.
- MerkleContract.MerkleTree.constructor: for depth 1 and above it builds the levels bottom-up, as `new_tree` does, not as `new` is written (first finding below).
- MerkleContract.MerkleTree.GenerateProof: returns the proof in the documented order, not in the order the loop pushes it (second finding below).
- MerkleMain.FillDepthThree: does not state which string ends up in which slot. It states that the tree is full and that its root is the Merkle root of its slots. The slot contents follow from the contract of `MerkleMain.MerkleTree.AddData`, one append at a time.
- MerkleMain.MerkleTree: the outer vector of levels is a sequence of arrays, not an array of arrays. The source never resizes that vector or replaces one of its elements after construction. The slot vector is a sequence field that `add_data` reassigns.

## Findings

| source | as written | input that shows it | evidently intended | confidence | as-written member | corrected member |
|---|---|---|---|---|---|---|
| contract/lib.rs:33-53 | `new` pushes the root row `[calculate_hash(0)]` first, then builds level d from `tree[d + 1]` | any depth of at least 1: the first iteration reads `tree[depth]` while the vector holds one row, which panics | build the leaves first and each level from the one below, as `new_tree` in src/main.rs does | high, not executed | MerkleContract.BuildAsWritten, MerkleContract.NewAsWritten | MerkleContract.BuildLevels, MerkleContract.MerkleTree.constructor |
| contract/lib.rs:112-131 | `generate_proof` pushes the entries from the leaf level upward, so slot m holds the entry for level depth + 1 - m; `verify` reads slot d as the entry for level d | latent: `new` as written fails for every depth of at least 1 (first row), and at depths 0 and 1 the two orders agree (`ProofAsWrittenShallow`). Once `new` builds the levels, depth 2 with leaves [0, 1, 0, 0], digests of one byte combined by concatenation and the declared root equal to the computed one shows it: leaf 0 folds to [0, 0, 0, 1], not the root [0, 1, 0, 0] | slot d holds the entry for level d, as the comment at contract/lib.rs:96-104 says and as the commented depth-2 test at contract/lib.rs:294-420 expects: its slot 2 for position 0 is the leaf-level sibling digest that the depth-1 test at contract/lib.rs:258-263 expects in slot 1. Then every appended value verifies | high, not executed | MerkleContract.ProofAsWritten, MerkleContract.ReversedProofRejectsAppendedLeaf | MerkleContract.MerkleTree.GenerateProof, MerkleContract.RoundTrip |
