# A verified model of the Merkle Patricia trie in alloy-trie

This project models the core of the Rust crate `alloy-trie` in Dafny and proves what it promises:

- the streaming **hash builder**, which takes keys in ascending order and computes the root hash, the
  branch records for a database and the nodes of a proof without ever building the trie;
- the **proof retainer**, a post-order state machine that decides which nodes to keep for given targets
  and given added and removed keys;
- the **proof verifier**, which follows a list of encoded nodes from the root, decoding nodes that are
  stored inside their parents on the way;
- the **node codec**, with RLP (appendix B of the Ethereum Yellow Paper) and hex-prefix paths
  (appendix C);
- the **roots** of lists and of storage, and the 16-bit **masks** everything rests on.

The specification is in `Tries.dfy`: the trie of a finite prefix-free map (appendix D of the Yellow
Paper), its encoding, its references and its root hash, as functions of the map.  Everything else is
proved against it.  Keccak is a constant function without a definition, so every result holds for
every hash function; where collisions matter, their absence among the nodes involved is a hypothesis.

## Main results

- **Builder.** `Runs.RunBuilder`: for all entries in ascending prefix-free order, leaves and known
  branch hashes alike, the builder returns the root hash of the specification trie, the records of
  exactly its kept branches, and exactly the nodes the retainer is to keep.  Between two keys the stack
  is the references of the finished siblings of the path and the three mask vectors mark them
  (`HashBuilder.Valid`, `BuilderShape`).
- **No panic.** With records on, a run needs the branch children of every branch to be long enough to
  be hashed; `BuilderInvariant.HashesReadable` shows that this is exactly when the hashes can be read.
- **Replacement.** `TwoRuns.RunBoth`: cutting any set of branches out and adding them by hash changes
  neither the root nor any remaining record.
- **Records.** `Records` tells them from the map alone: which branches leave one, and what its three masks,
  its hashes and its root hash say about the keys.
- **Retention.** `KeptExactly.KeepsExactly` says exactly which nodes are kept; authenticity,
  monotonicity, collapse and split retention follow (`KeptTheorems`).  `KeptPromises.RetainedExactly` says the
  same from the targets and the added and removed keys alone.
- **Verification.** Soundness of inclusion and of exclusion (`VerifySound`), exactly what can be accepted
  over all proofs and exactly when it is right (`VerifyExactly`), exactly when a query panics (`Panics`),
  completeness as an if-and-only-if (`VerifyComplete`, `ProofNodes`), completeness for all keys once
  nodes stored inside their parents are left out (`VerifyInPlace`), which error is returned and with what
  (`Refusals`), and build, retain and verify joined end to end (`EndToEnd.ProveKey`).
- **Codec and roots.** Round trips for all nodes, exactly which bytes either decoder reads and as what
  (`NodeReadings`, `BranchReadings`), injectivity of the root hash, order and permutation of list keys,
  independence of the storage root from the order of the slots.

## Where the code and its promises part

- A key's retained nodes do not verify when one of them has fewer than 32 bytes: the retainer keeps it,
  but the verifier has already walked through it inside its parent.
  `ProofNodes.RetainedProofVerifies` gives the exact condition, `EndToEnd.ShortTrieRefused` an input,
  `VerifyInPlace.LongProof` the repair (leave such nodes out).
- A proof cut short is accepted as a proof of absence, or for the reference of the node it stops at:
  `VerifyComplete.CutAccepted` says exactly when, `Truncation.RootAloneAccepted` and
  `Truncation.LeafReferenceAccepted` give inputs.
- The verifier compares the next node of a proof with the bytes it reached last, be they a reference or
  a value.  A value that is the reference of a node is gone on from, and a wrong value
  (`Misreadings.InnerValueAccepted`) or a wrong absence (`Misreadings.InnerAbsenceAccepted`) is accepted.
  `VerifyExactly.RightExactly` gives the exact condition on the values of a map: none of fewer than 32
  bytes may read as a node.  It leaves aside proofs that invert a hash, that is, hold a node of 32 bytes or
  more whose reference is a stored value; a map without values of 33 bytes from 0xA0 has none
  (`VerifyExactly.HashFormFreeForMap`).
- For the same reason the `unreachable!` arm can be reached (`Misreadings.OddBranchPanics`), but only by
  a query longer than some key of the trie (`Panics.DeepNeverPanics`), so never where keys and queries have one
  length.  `Panics.PanicsExactly` gives, for queries of at most n nibbles, the exact condition on values: some
  value of fewer than 32 bytes leads, within the nibbles that its key leaves of n, to an in-place extension to
  something that decodes and is no branch.
- A run with records panics when a branch child has fewer than 32 bytes: `BuilderInvariant.HashesReadable`
  is the exact condition for one branch, `ShortChildren.ShortChildUnhashed` an input.
- `BranchNode::decode` and `TrieNode::decode` differ on a branch with a child that is a bare byte
  below 0x80: `NodeCodec.BranchDecoderAgrees` says exactly when they agree, `TrieNodes.BareByteDisagrees`
  gives an input, `TrieNodes.BranchDecodersOnTries` shows that no trie has such a branch.
- The comment in `process_branch` that an in-place branch has only leaf children is right by size alone
  (`Verify.InPlaceBranchIsFlat`).

## Layout

| files | contents |
|---|---|
| `Primitives`, `Masks`, `MaskBits` | bytes, nibbles and their order; masks as sets, and as 16-bit words |
| `Rlp`, `HexPrefix`, `Nodes`, `NodeCodec`, `NodeReadings`, `BranchReadings` | encoding and decoding of items, paths and nodes |
| `Tries`, `Traversal`, `Locations`, `Lookups`, `TrieNodes` | the specification trie, its post-order, records, nodes by path, lookup |
| `Spines`, `SpineSteps`, `ChildMarks`, `BuilderInvariant` | the builder's invariant and what each of its steps does to it |
| `HashBuilder`, `Runs`, `BuilderShape`, `Replacement`, `TwoRuns`, `Records`, `ShortChildren` | the builder, whole runs, sizes, replacement by hashes, records |
| `Retention`, `Kept`, `KeptExactly`, `KeptTheorems`, `KeptPromises` | the retainer and what it keeps |
| `Verify`, `Walks`, `Readings`, `VerifySound`, `VerifyComplete`, `VerifyInPlace`, `VerifyExactly`, `Panics`, `Refusals` | the verifier and what its verdicts mean |
| `Truncation`, `Misreadings` | inputs on which its verdicts mislead |
| `ProofNodes`, `EndToEnd`, `RootInjective` | proofs for a target, the whole round, injectivity |
| `OrderedRoot`, `StorageRoot` | the roots of lists and of storage |

`dafny verify dfyconfig.toml` checks the project.

## Model

| member | source | states |
|---|---|---|
| `HashBuilders.HashBuilder.constructor` | alloy-trie/src/hash_builder/mod.rs:60-109 | a new builder is valid, holds no entry, and has records and a retainer as asked |
| `HashBuilders.HashBuilder.AddLeaf` | alloy-trie/src/hash_builder/mod.rs:145-160 | keeps the whole invariant: the entries gain the leaf, and stack, masks, records and retainer again describe all entries |
| `HashBuilders.HashBuilder.AddBranch` | alloy-trie/src/hash_builder/mod.rs:163-177 | the same for a branch known by its hash, and for the hash of a whole trie at the empty path |
| `HashBuilders.HashBuilder.Prepare` | alloy-trie/src/hash_builder/mod.rs:154-160 | finishing what the next key leaves behind re-establishes the invariant for the map with that key |
| `HashBuilders.HashBuilder.Root` | alloy-trie/src/hash_builder/mod.rs:180-194 | returns the root hash of the specification trie; records and retained nodes are those of its whole post-order, and the empty trie leaves its one-byte proof |
| `HashBuilders.HashBuilder.Update` | alloy-trie/src/hash_builder/mod.rs:224-377 | ends, and leaves the finished siblings of the next key's path on the stack, or the root's reference alone |
| `HashBuilders.HashBuilder.Round` | alloy-trie/src/hash_builder/mod.rs:233-376 | one iteration: done with everything finished, or the node at a strictly shorter path is finished; `len` is inside the path |
| `HashBuilders.HashBuilder.Advance` | alloy-trie/src/hash_builder/mod.rs:252-342 | marks the path's nibble and finishes the node below it |
| `HashBuilders.HashBuilder.FinishNode` | alloy-trie/src/hash_builder/mod.rs:277-342 | a leaf, a known hash or a finished branch becomes the specification's node just below the last marked level |
| `HashBuilders.HashBuilder.PushLeaf` | alloy-trie/src/hash_builder/mod.rs:283-302 | pushes the leaf's reference and shows exactly that leaf to the retainer |
| `HashBuilders.HashBuilder.PushHash` | alloy-trie/src/hash_builder/mod.rs:303-317 | a known hash takes its place as a branch child in stack and masks |
| `HashBuilders.HashBuilder.Extend` | alloy-trie/src/hash_builder/mod.rs:319-342 | the node on top becomes an extension to it, and the masks above stop counting it as a direct branch child |
| `HashBuilders.HashBuilder.WrapExtension` | alloy-trie/src/hash_builder/mod.rs:321-339 | replaces the top reference by the extension's and shows the extension to the retainer |
| `HashBuilders.HashBuilder.CloseLevel` | alloy-trie/src/hash_builder/mod.rs:349-371 | the children at the deepest marked level become one branch, and that level and the empty ones above it are dropped |
| `HashBuilders.HashBuilder.FinishBranch` | alloy-trie/src/hash_builder/mod.rs:349-358 | the branch pushed and recorded is the specification's branch at that path |
| `HashBuilders.HashBuilder.PushBranchNode` | alloy-trie/src/hash_builder/mod.rs:385-423 | replaces the children's references by the branch's own and returns the hashes of its branch children |
| `HashBuilders.HashBuilder.StoreBranchNode` | alloy-trie/src/hash_builder/mod.rs:429-457 | marks the parent's masks and records the branch exactly when it is to be kept |
| `HashBuilders.HashBuilder.UpdateMasks` | alloy-trie/src/hash_builder/mod.rs:459-469 | clears the hash bit and moves the tree bit up across an extension |
| `Spines.ResizedBits` | alloy-trie/src/hash_builder/mod.rs:471-481 | a resized mask vector has the new length and exactly the old bits below it |
| `HashBuilders.HashBuilder.PopEmptyStateMasks` | alloy-trie/src/hash_builder/mod.rs:369-371 | removes exactly the trailing empty masks |
| `HashBuilders.TopHash` | alloy-trie/src/hash_builder/mod.rs:212-218 | the word of a 33-byte reference, or the hash of a shorter one, is the node's hash |
| `HashBuilders.StoredMasks` | alloy-trie/src/nodes/branch.rs:289-308 | the assertions of a new record hold for every branch, and a branch is kept exactly when one of its masks is not empty |
| `BuilderInvariant.BranchFacts` | alloy-trie/src/hash_builder/mod.rs:385-457 | at the deepest marked level masks and stack tail are those of the specification's branch: its encoding, its child hashes, its three masks |
| `BuilderInvariant.HashesReadable` | alloy-trie/src/nodes/branch.rs:172-177 | the child hashes can be sliced out of the references if and only if every branch child has at least 32 bytes |
| `BuilderInvariant.PushedLeaf` | alloy-trie/src/hash_builder/mod.rs:283-302 | pushing a leaf keeps stack and visited nodes in step with the finished subtries |
| `BuilderInvariant.PushedExtension` | alloy-trie/src/hash_builder/mod.rs:319-342 | so does replacing a branch by the extension to it |
| `BuilderInvariant.PushedBranch` | alloy-trie/src/hash_builder/mod.rs:385-423 | so does replacing a row of children by the branch over them |
| `BuilderInvariant.MovedOn` | alloy-trie/src/hash_builder/mod.rs:344-347 | leaving the path towards the next key, the marked level turns the finished node into a sibling |
| `BuilderInvariant.ExtendedKids` | alloy-trie/src/hash_builder/mod.rs:459-469 | after the bit moves the masks still mark exactly the branch children and the children that lead to kept branches |
| `BuilderInvariant.AddedLatest` | alloy-trie/src/hash_builder/mod.rs:145-160 | a key that follows the last one keeps the map prefix-free and becomes its latest key |
| `BuilderShape.StackSize` | alloy-trie/src/hash_builder/mod.rs:224-377 | between two keys the stack length is the sum of the state masks' bit counts |
| `BuilderShape.MasksSize` | alloy-trie/src/hash_builder/mod.rs:224-377 | from the second key on there is one more state mask than the common prefix of the last two keys, and the last is not empty |
| `Runs.RunBuilder` | alloy-trie/src/hash_builder/mod.rs:145-377 | a whole run gives root, records and retained nodes of the specification trie of its entries |
| `Runs.EntryListed` | alloy-trie/src/hash_builder/mod.rs:145-177 | the map of a run holds every entry under its key |
| `Runs.EntryOnly` | alloy-trie/src/hash_builder/mod.rs:145-177 | and no other keys |
| `Runs.FeedableEntries` | alloy-trie/src/hash_builder/mod.rs:145-177 | entries each of which follows the one before form a prefix-free map |
| `Runs.HashedSoFar` | alloy-trie/src/hash_builder/mod.rs:385-394 | if the final trie's branch children can be hashed, so can those of every step of the run |
| `Replacement.SameRoot` | alloy-trie/src/hash_builder/mod.rs:163-177 | replacing everything below any disjoint non-empty paths of branches of at least 32 bytes by their hashes keeps the root |
| `Replacement.SameRecord` | alloy-trie/src/hash_builder/mod.rs:303-317 | and every branch that is left is kept as before, with the same record, when the stored flags are right |
| `Replacement.ReplacedAlike` | alloy-trie/src/hash_builder/mod.rs:163-177 | every subtrie above the cuts keeps its reference, encoding and mask bits |
| `TwoRuns.RunBoth` | alloy-trie/src/hash_builder/mod.rs:145-377 | a run over all entries and one with branches added by hash return the same root, and the second records exactly the first's branches that are not cut off |
| `TwoRuns.SameRecords` | alloy-trie/src/hash_builder/mod.rs:429-457 | the records after the cuts are those before at the spared paths, unchanged |
| `ShortChildren.ShortChildUnhashed` | alloy-trie/src/nodes/branch.rs:172-177 | an input: three entries in order whose trie has a branch child of 22 bytes, so that a run with records panics |
| `Tries.AtCanonical` | alloy-trie/src/hash_builder/mod.rs:233-377 | every branch has at least two children, every extension a non-empty path to a branch, and a subtrie is empty exactly when no key lies below it |
| `Tries.AtSingle` | alloy-trie/src/hash_builder/mod.rs:282-317 | one key below a path gives the leaf with the rest of the key, or the hash it stands for |
| `Tries.AtSkip` | alloy-trie/src/hash_builder/mod.rs:319-342 | keys that all go on to a branch give the extension to it |
| `Tries.AtBranch` | alloy-trie/src/hash_builder/mod.rs:385-423 | keys that part give the branch over the sixteen subtries below |
| `Locations.RecordsOfTrie` | alloy-trie/src/hash_builder/mod.rs:429-457 | a branch is recorded if and only if it has a branch child or a child leading to a recorded branch, with its own masks and child hashes, which `Records` tells from the map |
| `Records.RecordedExactlyWhere` | alloy-trie/src/hash_builder/mod.rs:429-457 | a record is left exactly where keys part and, one nibble on, keys part again, a hash is known, or all keys go on to a recorded or stored branch |
| `Records.RecordMasks` | alloy-trie/src/hash_builder/mod.rs:446-453 | a nibble is in the state mask exactly when a key lies below it, in the hash mask when keys part there or a hash is known there, in the tree mask when the keys below it go on to a branch that is recorded or stored |
| `Records.RecordHashes` | alloy-trie/src/hash_builder/mod.rs:391-394 | one hash for every nibble of the hash mask, in nibble order: the known one, or the hash of the branch |
| `Records.RecordRoot` | alloy-trie/src/hash_builder/mod.rs:449-453 | the record at the empty path has the root hash of the whole trie, every other record has none |
| `Locations.VisitedStands` | alloy-trie/src/hash_builder/mod.rs:282-358 | whatever is finished stands in the trie at its path |
| `Locations.StandsVisited` | alloy-trie/src/hash_builder/mod.rs:282-358 | whatever stands in the trie is finished |
| `Locations.HashForNibbleIsChild` | alloy-trie/src/nodes/branch.rs:311-315 | for every nibble of the hash mask, the hash returned is that of the child at that nibble |
| `MaskBits.HashIndex` | alloy-trie/src/nodes/branch.rs:311-315 | the bit count of the mask below the nibble is the nibble's rank in the mask |
| `MaskBits.Shifted` | alloy-trie/src/mask.rs:61-63 | the table of bits is one shifted by the nibble |
| `MaskBits.NibbleWord` | alloy-trie/src/mask.rs:61-63 | the word of a nibble is the set of that nibble alone |
| `MaskBits.OrIsUnion` | alloy-trie/src/mask.rs:103-105 | setting bits is union |
| `MaskBits.AndIsIntersection` | alloy-trie/src/mask.rs:67-75 | masking is intersection |
| `MaskBits.AndNotIsDifference` | alloy-trie/src/mask.rs:109-111 | unsetting bits is difference |
| `MaskBits.SubsetWord` | alloy-trie/src/mask.rs:67-69 | the subset check on words holds exactly for subsets |
| `MaskBits.EmptyWord` | alloy-trie/src/mask.rs:85-87 | a word is zero exactly when its set is empty |
| `MaskBits.TrailingZeros` | alloy-trie/src/mask.rs:97-99 | finds the lowest set bit |
| `MaskBits.NextBit` | alloy-trie/src/mask.rs:183-190 | the iterator yields the least nibble and removes exactly it |
| `MaskBits.CountOnes` | alloy-trie/src/mask.rs:91-93 | the bit count is the number of nibbles |
| `Retention.AddedRemovedKeys.GetRemovedMask` | alloy-trie/src/proof/added_removed_keys.rs:79-89 | exactly the children that lead to a removed key |
| `KeptPromises.TargetsRetainedExactly` | alloy-trie/src/proof/retainer.rs:114-116 | without added and removed keys: a node is kept exactly when its path is empty or a prefix of a target |
| `KeptPromises.RetainedExactly` | alloy-trie/src/proof/retainer.rs:177-308 | with them, told from the sets of keys: a node is kept exactly when it is on a target's path, is the last child left of a branch there, or is the untouched branch below an extension there at or below which keys are added |
| `KeptPromises.UnsplitDropped` | alloy-trie/src/proof/retainer.rs:217-228 | when no key is assumed or listed as added at or below an extension, the branch below it is kept exactly when it is on a target's path |
| `Retention.ProofRetainer.Matches` | alloy-trie/src/proof/retainer.rs:114-116 | true exactly for the empty path and the prefixes of targets |
| `Retention.ProofRetainer.MaybeTrackNontarget` | alloy-trie/src/proof/retainer.rs:161-174 | remembers an untargeted node unless a removed key lies below it |
| `Retention.ProofRetainer.RetainLeafProof` | alloy-trie/src/proof/retainer.rs:177-183 | the state step for a leaf |
| `Retention.ProofRetainer.RetainExtensionProof` | alloy-trie/src/proof/retainer.rs:186-238 | the state step for an extension, with the branch below it when a key is added there |
| `Retention.ProofRetainer.RetainBranchProof` | alloy-trie/src/proof/retainer.rs:241-308 | the state step for a branch, with its one surviving child when the others are removed |
| `Retention.ProofRetainer.RetainEmptyRootProof` | alloy-trie/src/proof/retainer.rs:150-152 | the empty trie's proof is the code of the empty string |
| `Kept.RunKeeps` | alloy-trie/src/proof/retainer.rs:114-308 | after a whole post-order the machine holds the nodes of a recursive definition that has no running state |
| `Kept.RunPost` | alloy-trie/src/proof/retainer.rs:161-308 | over any subtrie, from any state: nodes added, last tracked node and last branch are functions of the subtrie |
| `KeptExactly.KeepsExactly` | alloy-trie/src/proof/retainer.rs:177-308 | a node is kept if and only if it is on a target's path, adopted by a collapsing branch or split off an extension |
| `KeptTheorems.RetainsAuthentic` | alloy-trie/src/proof/retainer.rs:114-308 | every kept pair is the encoding of the trie's node at that path, and every node on a target's path is kept |
| `KeptTheorems.KeysOnlyAdd` | alloy-trie/src/proof/retainer.rs:161-308 | added and removed keys only add entries and change none |
| `KeptTheorems.CollapsesExactly` | alloy-trie/src/proof/retainer.rs:241-308 | when the state machine takes a branch to collapse into a child, in terms of the trie alone |
| `KeptTheorems.CollapseRetained` | alloy-trie/src/proof/retainer.rs:241-308 | if every key of a targeted branch but those of one child is removed, and none of that child's is, the child is kept |
| `KeptTheorems.SplitRetained` | alloy-trie/src/proof/retainer.rs:186-238 | if some added key, or the assumption that all are, lies at or below an extension on a target's path, and no removed key below its branch, the branch is kept under path and short key |
| `Verify.VerifyProofLoop` | alloy-trie/src/proof/verify.rs:18-73 | the loop over the proof gives the verdict of the recursive walk, empty proofs and errors included |
| `Verify.ProcessBranchLoop` | alloy-trie/src/proof/verify.rs:125-191 | stepping through nibbles and stack side by side finds the child at the key's next nibble |
| `Verify.DecodeShrinks` | alloy-trie/src/proof/verify.rs:100-191 | a decoded node's references are strictly shorter than it, so the recursion through in-place children ends |
| `Verify.InPlaceBranchIsFlat` | alloy-trie/src/proof/verify.rs:143-172 | a branch of fewer than 32 bytes holds no branch and no extension to a branch inside it |
| `Walks.ProcessTrie` | alloy-trie/src/proof/verify.rs:100-191 | processing one node of a trie ends at the child, value or gap the trie says, and does not panic; for whole walks see `Panics` |
| `Walks.StopLeads` | alloy-trie/src/proof/verify.rs:100-191 | where it ends is consistent with looking the key up |
| `Walks.StopHolds` | alloy-trie/src/proof/verify.rs:100-191 | a value reached is held under the path walked, whatever the key |
| `VerifySound.WalkSound` | alloy-trie/src/proof/verify.rs:46-60 | by induction over a proof whose nodes are all compared with references: every accepted node is the trie's own, and the walk stays on the lookup path |
| `VerifySound.AcceptedMeans` | alloy-trie/src/proof/verify.rs:46-73 | what an accepted proof says about the trie behind the root, when no node of the proof follows a value or no value of the trie is the reference of a node of the proof |
| `VerifySound.WalkIntoValue` | alloy-trie/src/proof/verify.rs:46-60 | every walk follows references to the end of the proof, is refused, or goes on from a value that the trie holds under the path walked |
| `VerifySound.ReferencesOnly` | alloy-trie/src/proof/verify.rs:46-56 | when no value is the reference of a node of the proof, every node of an accepted walk is compared with a reference, and no walk panics |
| `VerifySound.InclusionSound` | alloy-trie/src/proof/verify.rs:46-73 | an accepted value is the trie's, or is the reference of the long node standing exactly at the key |
| `VerifySound.InclusionForMap` | alloy-trie/src/proof/verify.rs:46-73 | for any map, the empty one included, none of whose values is the reference of a node of the proof: an accepted value is the map's, when it has not the form of a hash reference or the walk ended at a value |
| `VerifySound.ExclusionSound` | alloy-trie/src/proof/verify.rs:62-73 | an accepted absence is one, when the walk did not stop at a reference above the key |
| `VerifySound.ExclusionForMap` | alloy-trie/src/proof/verify.rs:62-73 | for such a map and proof a conclusive accepted absence is the map's |
| `VerifySound.EmptyRootExactly` | alloy-trie/src/proof/verify.rs:29-45 | the verdict on the empty map's root: accepted exactly for an absence and a proof that is empty or starts with the empty node, and otherwise which error |
| `Refusals.NothingRefused` | alloy-trie/src/proof/verify.rs:29-45 | no proof, or the empty node, for a trie that is not empty: a root mismatch that names both hashes |
| `Refusals.ChainVerdict` | alloy-trie/src/proof/verify.rs:62-73 | the whole chain of a key, for any expectation: accepted, or a mismatch that names the key, its value and the expectation |
| `Refusals.WrongNodeVerdict` | alloy-trie/src/proof/verify.rs:46-54 | another node in the place of the chain's: a mismatch that names the path, the node found and the hash reference expected |
| `Refusals.PastValueVerdict` | alloy-trie/src/proof/verify.rs:56-60 | a value taken for the next node: the empty node is refused as such, and what does not decode with the decoder's error |
| `VerifySound.PlainUnreadValues` | alloy-trie/src/proof/verify.rs:46-56 | values that neither read as a short node nor have the form of a hash reference are the reference of no node of any proof |
| `VerifyExactly.AcceptedValuesExactly` | alloy-trie/src/proof/verify.rs:18-73 | for every trie, over all proofs that tell references from values: some proof is accepted for a value if and only if the root is long and the value is the trie's or the reference of a long node at the key |
| `VerifyExactly.AcceptedAbsenceExactly` | alloy-trie/src/proof/verify.rs:18-73 | for every trie, over all such proofs: some proof of absence is accepted if and only if the root is long and the key is absent or a long node stands strictly between root and key |
| `VerifyExactly.PlainAcceptable` | alloy-trie/src/proof/verify.rs:18-73 | for a map of plain values these are all accepted proofs |
| `VerifyExactly.RightExactly` | alloy-trie/src/proof/verify.rs:46-73 | for every map: everything conclusive proofs that invert no hash are accepted for is right if and only if no value of fewer than 32 bytes reads as a node |
| `VerifyExactly.HashFormFreeForMap` | alloy-trie/src/proof/verify.rs:46-56 | when no value has the form of a hash reference, no proof inverts a hash |
| `VerifyExactly.MisreadValue` | alloy-trie/src/proof/verify.rs:46-73 | a short value that reads as a node is accepted, by a conclusive proof, for something other than itself |
| `Readings.OpenReaches` | alloy-trie/src/proof/verify.rs:100-122 | a leaf, a branch or an extension leading to one is processed successfully once the walk is at the key |
| `Readings.ClosedFails` | alloy-trie/src/proof/verify.rs:100-122 | every other decoded node is refused for every key |
| `Misreadings.InnerValueAccepted` | alloy-trie/src/proof/verify.rs:46-56 | an input for every key of 60 to 64 nibbles and every value: the value inside a node is accepted for a key that holds the node's reference |
| `Misreadings.InnerAbsenceAccepted` | alloy-trie/src/proof/verify.rs:46-73 | an input for every such key and every branch, short or long: a key that holds the branch's reference is accepted as absent, by a walk that ends at the key and not at a reference |
| `Misreadings.ShortAbsenceAccepted` | alloy-trie/src/proof/verify.rs:46-73 | the same for a concrete value of 18 bytes |
| `Misreadings.OddBranchPanics` | alloy-trie/src/proof/verify.rs:150-172 | an input for every key of 60 to 62 nibbles: a query one nibble longer reaches the `unreachable!` arm, on a walk of at most 64 nibbles |
| `Misreadings.HolderNeverPanics` | alloy-trie/src/proof/verify.rs:150-172 | with a key of 64 nibbles no query of at most 64 does |
| `Panics.DeepNeverPanics` | alloy-trie/src/proof/verify.rs:125-172 | no query at most as long as every key of the trie panics, for any values and any proof |
| `Panics.DeepNeverPanicsForMap` | alloy-trie/src/proof/verify.rs:125-172 | so none does on a map whose keys all have the query's length |
| `Panics.UnreadNeverPanics` | alloy-trie/src/proof/verify.rs:46-60 | no query panics when no value is the reference of a node of the proof |
| `Panics.PanicTrips` | alloy-trie/src/proof/verify.rs:100-191 | a query panics, on a proof that inverts no hash, only when some value of fewer than 32 bytes, under a key that is no longer, trips with the nibbles left of the query |
| `Panics.TrippedOver` | alloy-trie/src/proof/verify.rs:100-191 | a value that trips within n nibbles makes some query that extends its key by at most n panic |
| `Panics.PanicsExactly` | alloy-trie/src/proof/verify.rs:100-191 | for every n, 64 in the source: some query of at most n nibbles panics, on a proof that inverts no hash, if and only if some value of fewer than 32 bytes trips within the n nibbles |
| `VerifyComplete.CompleteExactly` | alloy-trie/src/proof/verify.rs:18-73 | a key's chain of nodes is accepted for what the trie holds, value or absence, if and only if every node has at least 32 bytes |
| `VerifyComplete.CutAccepted` | alloy-trie/src/proof/verify.rs:62-73 | a chain cut before a long node is accepted as absence if and only if that node stands above the key, and for the node's reference if and only if it stands at the key |
| `VerifyInPlace.LongProof` | alloy-trie/src/proof/verify.rs:136-178 | without the in-place nodes a key's chain is accepted for every key, when the root has at least 32 bytes |
| `VerifyInPlace.ShortRootAcceptsNothing` | alloy-trie/src/proof/verify.rs:46-56 | when it has fewer, no proof is accepted for any key and any expected value |
| `VerifyInPlace.LongProofForMap` | alloy-trie/src/proof/verify.rs:18-73 | the same for the map |
| `Truncation.RootAloneAccepted` | alloy-trie/src/proof/verify.rs:62-73 | an input: the root node alone accepted as the absence of a key that is present |
| `Truncation.LeafReferenceAccepted` | alloy-trie/src/proof/verify.rs:62-73 | an input: the root node alone accepted for a leaf's reference as the value of a path that is no key |
| `Truncation.RootOfEntries` | alloy-trie/src/proof/verify.rs:62-73 | the trie of these two inputs is the trie of a map of two entries |
| `ProofNodes.MatchingNodesSorted` | alloy-trie/src/proof/proof_nodes.rs:34-51 | the entries on the target's path, each once, in ascending order of path |
| `ProofNodes.ListingIsChain` | alloy-trie/src/proof/proof_nodes.rs:34-51 | for a target, the listing of the retained nodes is the chain from the root towards it |
| `ProofNodes.RetainedProofVerifies` | alloy-trie/src/proof/verify.rs:18-73 | the proof retained for a target verifies if and only if every node on its path has at least 32 bytes |
| `EndToEnd.ProveKey` | alloy-trie/src/proof/verify.rs:658-682 | build, retain, list and verify: accepted if and only if there are no entries or all nodes on the path have at least 32 bytes |
| `EndToEnd.ShortTrieRefused` | alloy-trie/src/proof/verify.rs:46-56 | an input: the proof of a one-leaf trie of three bytes is refused |
| `RootInjective.SameRootSameMap` | alloy-trie/src/hash_builder/mod.rs:212-218 | maps with the same root hash are equal, if no two of their nodes share a hash |
| `RootInjective.EncodeInjective` | alloy-trie/src/nodes/mod.rs:41-130 | equal encodings come from equal tries |
| `RootInjective.ReferenceInjective` | alloy-trie/src/nodes/rlp.rs:101-130 | equal references come from equal encodings |
| `NodeCodec.NodeRoundTrip` | alloy-trie/src/nodes/mod.rs:41-130 | decoding an encoded node gives it back, whatever follows, for all four kinds |
| `NodeCodec.FillBranch` | alloy-trie/src/nodes/mod.rs:81-96 | the loop over the items fills stack and mask in step, or fails as the first bad item does |
| `NodeCodec.DecodeBranchNode` | alloy-trie/src/nodes/branch.rs:46-80 | the byte-by-byte loop of the second decoder, against a recursive reading |
| `NodeCodec.BranchDecoderAgrees` | alloy-trie/src/nodes/branch.rs:46-80 | the two branch decoders agree on a well-formed branch if and only if no child is a bare byte |
| `NodeCodec.HeaderIsCanonical` | alloy-rlp/crates/rlp/src/header.rs:21-76 | only the shortest header of a length is accepted |
| `NodeReadings.DecodesExactly` | alloy-trie/src/nodes/mod.rs:65-130 | for every input: it decodes as a node exactly when it starts with the list of that node's items, spelled out for each kind, or with the empty string for the empty root |
| `NodeReadings.EncodedItems` | alloy-trie/src/nodes/mod.rs:41-63 | a trie's node is encoded as the nibbles of its path and its value or child's reference, or its sixteen references in nibble order and an empty value |
| `BranchReadings.BranchDecodesExactly` | alloy-trie/src/nodes/branch.rs:46-80 | for every input: the second decoder reads a branch exactly from a slot for every nibble and an empty value, where a byte below 0x80 takes the next byte along |
| `TrieNodes.EncodeAgrees` | alloy-trie/src/nodes/mod.rs:41-63 | the codec's encoding of a trie's node is the specification's |
| `TrieNodes.DecodeTrie` | alloy-trie/src/nodes/mod.rs:65-130 | an encoded trie node decodes as that node |
| `TrieNodes.BranchDecodersOnTries` | alloy-trie/src/nodes/branch.rs:46-80 | both decoders read every branch of a trie alike |
| `TrieNodes.BareByteDisagrees` | alloy-trie/src/nodes/branch.rs:46-80 | an input: a branch the two decoders read differently |
| `TrieNodes.ReferenceOk` | alloy-trie/src/nodes/rlp.rs:101-130 | a child's reference is one item, of 33 bytes exactly when it is a hash, and otherwise the child's own encoding |
| `Lookups.LookupIsGet` | alloy-trie/src/proof/verify.rs:100-191 | looking a key up in the trie of a map gives the map's value |
| `Nodes.EncodeLeaf` | alloy-trie/src/nodes/leaf.rs:103-140 | the bytes written are the specification's leaf, under a header of the exact length |
| `Nodes.EncodeExtension` | alloy-trie/src/nodes/extension.rs:104-143 | the bytes written are the specification's extension |
| `Nodes.EncodeBranch` | alloy-trie/src/nodes/branch.rs:121-143 | the loop over nibbles and stack tail writes seventeen slots, each child at its nibble |
| `Nodes.BranchPayloadLength` | alloy-trie/src/nodes/branch.rs:188-198 | the length computed in advance is the exact byte count |
| `Nodes.ChildHashesOf` | alloy-trie/src/nodes/branch.rs:172-177 | the words at the nibbles of the hash mask, in ascending order |
| `Nodes.PathLengthExact` | alloy-trie/src/nodes/leaf.rs:131-140 | the path length computed in advance is the length of the encoded path |
| `HexPrefixes.HexPrefixNibbles` | alloy-trie/src/nodes/mod.rs:222-244 | the nibbles of the compact form: flag 0, 1, 2 or 3 for kind and parity, a zero nibble where the path is even, and the path |
| `HexPrefixes.PathReadExactly` | alloy-trie/src/nodes/mod.rs:98-127 | which bytes are read as a path and as which: the flag nibble is below four, its high bit says leaf, its low bit where the path starts |
| `HexPrefixes.PackUnpack` | alloy-trie/src/root.rs:108-111 | a key is packed back from its nibbles |
| `HexPrefixes.PathRoundTrip` | alloy-trie/src/nodes/mod.rs:166-244 | every path and node kind is read back from its compact form |
| `HexPrefixes.HexPrefixShape` | alloy-trie/src/nodes/mod.rs:224-244 | the length of the compact form and the range of its first byte; for its nibbles see `HexPrefixes.HexPrefixNibbles` |
| `Rlp.DecodeItems` | alloy-rlp/crates/rlp/src/header.rs:119-145 | the loop cuts a payload as the recursive definition does, errors included |
| `Rlp.SplitExactly` | alloy-rlp/crates/rlp/src/header.rs:119-145 | a payload is cut into items exactly when it is their concatenation |
| `Rlp.HeaderShape` | alloy-rlp/crates/rlp/src/header.rs:149-160 | the code of a header for every length, and the number behind it |
| `Rlp.HeaderReadExactly` | alloy-rlp/crates/rlp/src/header.rs:21-76 | for every input: exactly the headers as they are written, with their payload behind them, and bytes below 0x80 are accepted |
| `Rlp.PlaceValue` | alloy-rlp/crates/rlp/src/header.rs:53-57 | big-endian: a byte weighs 256 times the byte after it |
| `Rlp.SplitConcat` | alloy-rlp/crates/rlp/src/header.rs:119-145 | a concatenation of items is cut back into them |
| `Rlp.HeaderRoundTrip` | alloy-rlp/crates/rlp/src/header.rs:21-160 | a header is read back, whatever follows |
| `Rlp.StringRoundTrip` | alloy-rlp/crates/rlp/src/header.rs:84-94 | an encoded string is read back |
| `Rlp.ListRoundTrip` | alloy-rlp/crates/rlp/src/header.rs:84-160 | an encoded list is read back |
| `Rlp.LengthOfLength` | alloy-rlp/crates/rlp/src/encode.rs:393-399 | the header length computed in advance is exact |
| `Rlp.BigEndianValue` | alloy-rlp/crates/rlp/src/encode.rs:69-74 | big-endian bytes have no leading zero and give the number back |
| `OrderedRoot.VisitRound` | alloy-trie/src/root.rs:8-16 | the adjusted index is a permutation: each index is visited in exactly one round |
| `OrderedRoot.EncodeUint` | alloy-rlp/crates/rlp/src/encode.rs:160-187 | the three cases of the integer encoding are the string encoding of the big-endian bytes |
| `OrderedRoot.KeysFollow` | alloy-trie/src/root.rs:8-16 | the keys of any two rounds ascend and neither is a prefix of the other |
| `OrderedRoot.OrderedTrieRootEncoded` | alloy-trie/src/root.rs:59-76 | for every list, the root of the map from the RLP of each index to its item, without breaking the key order |
| `OrderedRoot.IndexedItemRead` | alloy-trie/src/root.rs:59-76 | in that map item x stands under a key whose packed nibbles decode as the number x |
| `OrderedRoot.IndexedKeyRead` | alloy-trie/src/root.rs:59-76 | and every key decodes as the index of an item |
| `StorageRoot.SlotRead` | alloy-trie/src/root.rs:106-112 | in the map of the slots a slot's value stands, as the RLP of that number, under the nibbles that pack to the slot's key |
| `StorageRoot.SlotKeyRead` | alloy-trie/src/root.rs:106-112 | and every key packs to the key of a slot |
| `StorageRoot.Sort` | alloy-trie/src/root.rs:95-99 | in ascending order of keys, repeated ones included, and a permutation |
| `StorageRoot.OrderedIsSorted` | alloy-trie/src/root.rs:95-115 | sorted distinct keys ascend strictly, as `add_leaf` demands |
| `StorageRoot.StorageRootUnsorted` | alloy-trie/src/root.rs:95-115 | the root of the map of the slots, as `StorageRoot.SlotRead` reads it, in whatever order they come |
| `StorageRoot.SameEntries` | alloy-trie/src/root.rs:95-115 | the map does not depend on the order of the slots |

## Left out

- Keccak-256, and the internals of `nybbles`: the hash is an undefined constant function, paths are
  sequences of nibbles.
- `HashBuilder` reuse after `root`, and keys that are out of order or extend the previous key: the
  source panics on them or gives no promise, so they are preconditions.
- The capacity of `Nibbles`: paths are unbounded sequences, so what the source does with a walk that a node's
  path takes past 64 nibbles is not modelled.
- The order in which hash maps and hash sets are iterated: maps and sets are values, loops pick elements
  in any order.
- The standard library's in-place sorts: modelled by insertion, with the same result for distinct keys.
- `LeafNode::decode`, `ExtensionNode::decode` and the other single-kind decoders next to
  `TrieNode::decode`: easy variants of the decoder that is modelled.
- `DecodedProofRetainer`, `DecodedProofNodes`: the retainer and its map with decoding added.
- `TrieAccount`, `state_root` and the unhashed and generic root wrappers: account encoding followed by the
  builder.
- The mutators of `AddedRemovedKeys`: the retainer only reads it.
- `rlp_buf` and other buffers, `unsafe` code, `ArrayVec` capacities, serde, arbitrary values, `Debug`,
  tracing: no behaviour at this level.
- alloy-chains, revm-inspectors and the scripts: tables, counters and plumbing.
- HashBuilders.HashBuilder.AddLeaf: with a retainer that has added and removed keys, paths have at most
  64 nibbles, as `Nibbles` in the source has.
