# BeaconKit consensus core in Dafny

BeaconKit is a consensus client: it proposes and verifies beacon blocks over CometBFT, hands their
execution payloads to an Ethereum execution client, and keeps the blobs and deposits that blocks
refer to. This project models the parts of it whose correctness spans several functions or several
goroutines, and proves what they promise.

| file | models |
|---|---|
| `Bytes.dfy` | bytes, fixed-width integers, powers of two, little-endian numbers |
| `MerkleBranch.dfy` | climbing and checking a Merkle branch |
| `MerkleTree.dfy` | the zero-padded Merkle tree: building (in parallel), inserting, proving |
| `Inclusion.dfy` | KZG inclusion proofs: the sidecar factory against the sidecar verifier |
| `Ssz.dfy`, `SszTransactions.dfy`, `SszPayload.dfy`, `SszBody.dfy`, `SszBlock.dfy` | the nested SSZ codec |
| `PayloadCache.dfy`, `PayloadBuilder.dfy` | the payload-ID cache and the payload builder around it |
| `Forkchoice.dfy` | the forkchoice updates a node sends over a run |
| `BlobStore.dfy` | blob storage, the availability window and pruning |
| `Deposits.dfy` | fetching, retrying and pruning deposits |
| `Hex.dfy` | hexadecimal numbers and byte strings |
| `RootCache.dfy` | the execution payload's cached header and root |
| `Errors.dfy`, `Verdict.dfy`, `Finalization.dfy` | fatal errors, the way from an engine reply to a verdict, and finalising what passed |

## How to read it

Pure code is a `function`. Code that updates variables is a `method` with a loop, or a `class` whose
methods change its fields; each is proved against a function of its inputs or of its old state, and
the laws are lemmas about that function. Concurrent code is a state machine: a `StepTo` predicate
lists the atomic steps of every goroutine, `IsRun` is any finite sequence of them, and a theorem
speaks about every state of every run.

The pair hash is a parameter `h`, so every statement about Merkle trees holds for every hash
function; where the usual argument would need an injective hash, a function extracts the collision.
Clocks, engine replies, RPC failures, goroutine schedules and storage failures are parameters too.

The main results:

* **Builder and verifier agree.** For every body and every commitment index, the branch the factory
  joins from two proofs passes the check the verifier makes at its own generalized index. Conversely,
  whatever 64-bit index a sidecar claims, a full-length branch that passes shows what lies at the
  position its low bits name, or gives away a hash collision. The index arithmetic is right exactly
  when the configured maximum is a power of two of at most 2^60.
* **The codec is the format.** What bytes say as a block is written out without a decoder, field by
  field and digit by digit; the decoder accepts exactly those bytes and gives exactly that block.
  Decoding an encoded block gives it back through all three levels exactly when the body's last
  offset fits 32 bits, and what decodes re-encodes to its own bytes exactly on canonical input.
* **Runs keep their promises.** In every interleaving: cached payload IDs were issued for exactly
  their slot and parent; every blob of an accepted block inside the window is still stored; every
  forkchoice update is well formed; no finished deposit attempt is forgotten; and a memoised payload
  root is the root computed without the caches.
* **The parser computes the number.** The word-by-word parser yields the base-16 value of exactly the
  well-formed strings and inverts the printer.
* **The verdict follows from the reply.** Which blocks pass as proposals, and which of those then
  finalise, both as equivalences; joining errors, nested to any depth, keeps fatality.

Properties that turned out false of the code, each with a witness and the exact condition:

* `BuildParentTreeRootsWithNRoutines` hashes the whole layer for every input exactly when it is given
  at most 50 routines (`ParallelHashingIsComplete`); with more, some even input leaves zero chunks at
  the end of the output (`ManyRoutinesLeaveGap`).
* `Tree.Insert` checks neither capacity nor order; the tree stays the tree of its leaves exactly for a
  replaced leaf or the next free one (`Tree.Insert`, `SkippingInsertBreaksTree`).
* An accepted sidecar's index need not be its commitment's: the verifier reads only the low k + 4 bits
  (`VerdictIgnoresHighBits`, `InclusionSoundness`, `ReplayedIndexPasses`).
* Encoding then decoding is not the identity once the last offset passes 2^32, although every list
  is within its limit (`PayloadRoundTrip`, `BodyRoundTrip`, `BlockRoundTrip`; `OversizedPayloadIsLost`,
  `OversizedBodyIsLost`, `OversizedBlockIsLost`).
* Decoding into a payload object that was used before leaves one that can be encoded exactly when it
  held no bloom and the extra data fit together (`ReusedObjectEncodes`, `SecondDecodeSpoils`).
* A finalized height sent to the engine can move back. It does exactly when the chain grew by less
  than the later update is deeper below its tip; without lagging goroutines that is a rebuild or
  optimistic update followed by another kind at the same tip, and the distance is one, while a late
  post-block update can go back any distance (`FinalityMovesBackExactly`,
  `PromptFinalityMovesBackExactly`, `FinalityMayMoveBack`, `LateUpdateMovesBackAnyDistance`).
* An update can be repeated for a pair whose ID was issued: exactly when its lookup came before that
  ID was stored, or after a Set three or more slots ahead (`LookMissesExactly`, `RepeatsExplained`,
  `InterleavingMayRepeat`, `OlderSlotRepeats`).
* `RangeDB.Prune` keeps the database's low-water mark truthful exactly when nothing is left between
  the mark and the start of the pruned range (`RangeDB.Prune`, `LatePruneBreaksMark`); the blob pruner
  always starts at zero.
* A proposal whose payload is ACCEPTED passes without the checks that follow the engine call, the
  state root among them (`PassMeansFullTransition`, `AcceptedHidesLaterFailure`).
* A block that passed as a proposal need not finalise (`FinalizesAfterProposal`, `AcceptedThenRefused`,
  `NoSidecarsThenRefused`).

Where code and comments disagree, the model follows the code: the deposit store's `Prune` documents a
half-open range but deletes `count` keys (mod/storage/pkg/deposit/store.go:117-127), which is the
reading under which the deposit pruner is right; `JoinFatal` of nothing but nils is a non-nil error,
which is why callers ask `IsFatal`.

## Model

| member | source | states |
|---|---|---|
| MerkleBranch.RootFromBranch | mod/primitives/pkg/merkle/proof.go:69-90 | The loop over index bits reaches the recursively defined root of the branch. |
| MerkleBranch.IsValidMerkleBranch | mod/primitives/pkg/merkle/proof.go:53-62 | True exactly for a branch of the stated depth that climbs to the root. |
| MerkleBranch.VerifyProof | mod/primitives/pkg/merkle/proof.go:29-47 | True exactly for a proof of at most 255 chunks that climbs to the root. |
| MerkleBranch.BranchRootConcat | mod/primitives/pkg/merkle/proof.go:69-90 | Climbing p + q from x is climbing q, at x shifted right by the length of p, from where p leads. |
| MerkleBranch.BranchRootModDepth | mod/primitives/pkg/merkle/proof.go:75-89 | The root depends only on the index modulo 2^depth. |
| MerkleBranch.BranchSoundness | mod/primitives/pkg/merkle/proof.go:69-90 | Two (leaf, branch) pairs of one depth, index and root are equal, or FindCollision returns two different inputs with one hash. |
| MerkleTree.PaddingIsZeroHash | mod/primitives/pkg/merkle/tree.go:72-100 | Every node past the end of a layer is the zero hash of its height. |
| MerkleTree.TopLayerIsRoot | mod/primitives/pkg/merkle/utils.go:30-47 | A layer at height d is a single node exactly when the leaves fit 2^d. |
| MerkleTree.HashSegment | mod/primitives/pkg/merkle/root.go:98-167 | One routine hashes exactly its own segment of pairs, in place, and touches nothing else. |
| MerkleTree.BuildParentTreeRoots | mod/primitives/pkg/merkle/root.go:98-167 | Odd input is refused; otherwise each output is the hash of its pair where a routine covers it and zero elsewhere. |
| MerkleTree.ParallelHashingIsComplete | mod/primitives/pkg/merkle/root.go:98-167 | All even inputs are hashed completely if and only if there are at most 50 routines. |
| MerkleTree.FewRoutinesCover | mod/primitives/pkg/merkle/root.go:98-167 | With at most 50 routines the segments cover every parallelised layer. |
| MerkleTree.ManyRoutinesLeaveGap | mod/primitives/pkg/merkle/root.go:98-167 | With more than 50 routines some even input is not covered. |
| MerkleTree.SmallTreesAreHashed | mod/primitives/pkg/merkle/root.go:98-167 | Trees below the parallel threshold, or built by at most 50 routines, are hashed in every layer. |
| MerkleTree.NewRootWithDepth | mod/primitives/pkg/merkle/root.go:56-82 | The in-place reduction gives the root of the zero-padded tree; leaves beyond the capacity give the zero hash instead. |
| MerkleTree.BuildLayers | mod/primitives/pkg/merkle/tree.go:72-100 | Each stored layer is the corresponding layer of the zero-padded tree over the leaves. |
| MerkleTree.NewTree | mod/primitives/pkg/merkle/tree.go:72-100 | Succeeds exactly for 0 < n <= 2^depth leaves and a depth of 1 to 62; then a tree whose layers all belong to its leaves. |
| MerkleTree.Tree.Root | mod/primitives/pkg/merkle/tree.go:150-152 | The stored top node is the root of the zero-padded tree. |
| MerkleTree.Tree.HashTreeRoot | mod/primitives/pkg/merkle/tree.go:156-163 | The hash of the root and the chunk whose first eight bytes are the length, least significant first, and the rest zero; a single zero leaf counts as an empty list. |
| MerkleTree.Tree.MerkleProof | mod/primitives/pkg/merkle/tree.go:166-185 | Fails exactly past the last leaf; otherwise the siblings on the way up, zero hashes where a layer ends. |
| MerkleTree.Tree.MerkleProofWithMixin | mod/primitives/pkg/merkle/tree.go:189-200 | The same branch followed by the length chunk: byte i is digit i of the number of leaves in base 256 for i below 8, and zero above. |
| MerkleTree.LengthChunkIsLength | mod/primitives/pkg/merkle/tree.go:189-212 | Exactly one chunk is the length of a list, byte by byte. |
| MerkleTree.Tree.Insert | mod/primitives/pkg/merkle/tree.go:103-147 | Replaces or appends one leaf; all layers belong to the new leaves if and only if the index is a leaf or the next free one within capacity. |
| MerkleTree.SkippingInsertBreaksTree | mod/primitives/pkg/merkle/tree.go:103-147 | Inserting at index 2 of a one-leaf tree of depth 2 leaves a tree that is not the tree of its leaves. |
| MerkleTree.UpdateAncestors | mod/primitives/pkg/merkle/tree.go:116-145 | Rewriting one node per layer turns the layers of the old leaves into those of the new. |
| MerkleTree.NodeAfterUpdate | mod/primitives/pkg/merkle/tree.go:103-147 | Changing a leaf changes no node that is not its ancestor. |
| MerkleTree.TreeBranchClimbs | mod/primitives/pkg/merkle/tree.go:166-185 | A proof taken from the tree climbs from its leaf to the root. |
| MerkleTree.TreeBranchAt | mod/primitives/pkg/merkle/tree.go:166-185 | The i-th chunk of a proof is the sibling of the leaf's ancestor at height i. |
| Inclusion.Leafify | mod/primitives/pkg/eip4844/kzg_commitment.go:93-99 | The roots of all commitments in order, each the hash of its two chunks. |
| Inclusion.ToHashChunks | mod/primitives/pkg/eip4844/kzg_commitment.go:49-61 | Hashes the first 32 bytes with the other 16 followed by zeros, in place. |
| Inclusion.GetTopLevelRoots | mod/consensus-types/pkg/types/body.go:195-223 | Randao, eth1 data, graffiti, deposits, payload and a zero, at positions 0 to 5; fails exactly when one of the four computed roots fails. |
| Inclusion.BuildBlockBodyProof | mod/da/pkg/blob/factory.go:134-152 | The payload root, the hash of two zero chunks, and the hash over the first four roots, written out. |
| Inclusion.BodyRootWrittenOut | mod/consensus-types/pkg/types/body.ssz.go:190-244 | The body root as the nested hash of its six field roots, the last with the length mixed in, and two zero chunks. |
| Inclusion.BuildCommitmentProof | mod/da/pkg/blob/factory.go:155-173 | The branch of the commitment in its list tree, then the length; fails exactly on no commitments, a tree depth of 0 (a maximum of 0 or 1) or above 62, more commitments than the depth holds, or an index past the last. |
| Inclusion.BuildKZGInclusionProof | mod/da/pkg/blob/factory.go:108-131 | The commitment proof followed by the body proof, with each leg's failure passed on. |
| Inclusion.OffsetIsExact | mod/consensus-types/pkg/types/body.go:81-91 | The verifier's 64-bit index names the factory's position if and only if the maximum is a power of two of at most 2^60. |
| Inclusion.VerifierIndexWrittenOut | mod/da/pkg/types/sidecar.go:82-95 | Without overflow the verifier checks at 26 times the maximum plus the index. |
| Inclusion.VerifierChecksClimb | mod/da/pkg/types/sidecar.go:74-96 | For proofs of any length: at most 255 chunks, and the climb from the commitment reaches the header's body root. |
| Inclusion.BranchIgnoresOwnLeaf | mod/consensus-types/pkg/types/body.go:195-223 | The value at a leaf cannot affect the branch for that leaf, so the zero left at position 5 is harmless. |
| Inclusion.CommitmentLeg | mod/da/pkg/blob/factory.go:155-173 | The first k siblings climb from any leaf of the padded list to the root of the list tree. |
| Inclusion.MixinLeg | mod/da/pkg/blob/factory.go:128-130 | The length sibling climbs to the list root, on side 0, leaving body position 5. |
| Inclusion.BodyLeg | mod/da/pkg/blob/factory.go:134-152 | The last three siblings climb from the real list root to the body root although they were computed beside a zero. |
| Inclusion.InclusionProofClimbs | mod/da/pkg/blob/factory.go:108-131 | The joined proof for any leaf i of the padded list climbs from it to the body root at 10·2^k + i. |
| Inclusion.VerifierVerdict | mod/da/pkg/types/sidecar.go:74-96 | On full-length proofs, for every 64-bit index, the verifier decides exactly whether the branch climbs to the header's body root from the position that the low k + 4 bits of the index name. |
| Inclusion.InclusionProofVerifies | mod/da/pkg/types/sidecar.go:74-96 | Every proof the factory builds passes the verifier at offset 26·2^k. |
| Inclusion.VerdictIgnoresHighBits | mod/da/pkg/types/sidecar.go:74-96 | The verdict depends only on the index modulo 2^(k + 4). |
| Inclusion.ReplayedIndexPasses | mod/da/pkg/types/sidecar.go:84-95 | An honest sidecar under the index i + 2^(k + 4), beyond every commitment, passes too. |
| Inclusion.InclusionSoundness | mod/da/pkg/types/sidecar.go:74-96 | For every 64-bit index with low bits y, a full-length proof that passes carries commitment y and the factory's proof; or y is padding and the commitment hashes to zero; or y lies past the list and the first k + 1 siblings lead to the field y points into; or a collision is extracted. |
| Inclusion.BuildSidecars | mod/da/pkg/blob/factory.go:67-105 | Succeeds exactly when there is no blob, or the commitments fit a tree of depth 1 to 62, each blob has one, and the field roots can be computed; sidecar i has index, blob, commitment and KZG proof i, the header, and the inclusion proof of i. |
| Inclusion.HonestBundleVerifies | mod/da/pkg/types/sidecars.go:67-85 | All sidecars built for an honest proposal pass together. |
| Inclusion.BuildThenVerify | mod/da/pkg/blob/factory.go:67-105 | At a maximum of 2^k, what BuildSidecars returns is accepted by VerifyInclusionProofs without an error. |
| Inclusion.VerifyInclusionProofs | mod/da/pkg/types/sidecars.go:67-85 | No error exactly when no sidecar is nil and every proof is valid. |
| Inclusion.ValidateBlockRoots | mod/da/pkg/types/sidecars.go:43-64 | With two or more sidecars, succeeds exactly when all header roots can be computed and are equal; otherwise reports a failed root or a difference. |
| Bytes.LittleEndianDigit | mod/consensus-types/pkg/types/payload.ssz.go:44-57 | Byte i of a written number is its digit i in base 256, least significant first. |
| Bytes.ReadsDigits | mod/consensus-types/pkg/types/payload.ssz.go:155-164 | Bytes read as a number exactly when they are its digits. |
| Ssz.ListDecodes | mod/consensus-types/pkg/types/payload.ssz.go:233-248 | A list of fixed-width items is accepted exactly when the string is those items one after the other, within the limit. |
| Ssz.ListRefusals | mod/consensus-types/pkg/types/payload.ssz.go:233-248 | A part of an item left over, or too many items, each with its error. |
| SszTransactions.MarshalTransactions | mod/consensus-types/pkg/types/payload.ssz.go:89-107 | Appends the offset table and the transactions, or reports that there are more than 1048576 or one is longer than 2^30 bytes. |
| SszTransactions.UnmarshalTransactions | mod/consensus-types/pkg/types/payload.ssz.go:210-232 | The decoding loop computes the recursive decoder, with the same error on the same input. |
| SszTransactions.TransactionsDecodeExactly | mod/consensus-types/pkg/types/payload.ssz.go:210-232 | A section decodes to given transactions if and only if its bytes say them: a table of little-endian starts and the slices between them, or nothing at all. |
| SszTransactions.SectionRefusals | mod/consensus-types/pkg/types/payload.ssz.go:210-232 | Too few bytes, a first offset that is no multiple of four, or too many items, each with its error. |
| SszTransactions.TransactionsRoundTrip | mod/consensus-types/pkg/types/payload.ssz.go:210-232 | A section within limits and below 2^32 bytes decodes to the transactions it encodes. |
| SszTransactions.TransactionsCanonical | mod/consensus-types/pkg/types/payload.ssz.go:210-232 | A decoded section is within limits and re-encodes to itself exactly when it is empty or its first offset is not zero. |
| SszPayload.PayloadFailure | mod/consensus-types/pkg/types/payload.ssz.go:18-121 | No failure exactly for a bloom of 256 bytes, at most 32 of extra data, 1048576 transactions of at most 2^30 bytes and 16 withdrawals; otherwise the first violated limit's error. |
| SszPayload.EncodingLaidOut | mod/consensus-types/pkg/types/payload.ssz.go:18-121 | Every fixed field is at its place and every written offset is where its field starts. |
| SszPayload.LaidOutUnique | mod/consensus-types/pkg/types/payload.ssz.go:18-121 | Only the encoding is laid out that way. |
| SszPayload.PayloadRoundTrip | mod/consensus-types/pkg/types/payload.ssz.go:124-251 | Encode then decode into a fresh object is the identity if and only if the last offset fits 32 bits. |
| SszPayload.WrappedOffsetMisleads | mod/consensus-types/pkg/types/payload.ssz.go:18-121 | Beyond that the wrapped offset makes the decoder miss the payload. |
| SszPayload.DecodedPayloadWithinLimits | mod/consensus-types/pkg/types/payload.ssz.go:124-251 | Whatever decodes is within every limit. |
| SszPayload.PayloadDecodesExactly | mod/consensus-types/pkg/types/payload.ssz.go:124-251 | Bytes decode to a payload if and only if they say it: each field at its place, numbers least significant byte first, three offsets in order, and the slices they point to. |
| SszPayload.DecodesWhatReads | mod/consensus-types/pkg/types/payload.ssz.go:124-251 | The same for an object in use, which has the bloom and the extra data appended. |
| SszPayload.PayloadRefusals | mod/consensus-types/pkg/types/payload.ssz.go:124-203 | Too short, an offset into the fixed part, out of order or past the end, or too much extra data, each with its error. |
| SszPayload.EncodedPayloadReads | mod/consensus-types/pkg/types/payload.ssz.go:18-121 | The encoding says the payload it is of, if and only if every offset fits 32 bits. |
| SszPayload.EncodedFixedReads | mod/consensus-types/pkg/types/payload.ssz.go:18-80 | Whatever the sizes, fixed fields are in place and the first offset is the bytes 16, 2, 0, 0. |
| SszPayload.EncodedIsCanonical | mod/consensus-types/pkg/types/payload.ssz.go:18-121 | The encoder's own output is canonical. |
| SszPayload.PayloadCanonical | mod/consensus-types/pkg/types/payload.ssz.go:124-251 | A decoded payload re-encodes to its bytes if and only if the first offset is 528 and the transaction section is canonical. |
| SszPayload.ReusedObjectEncodes | mod/consensus-types/pkg/types/payload.ssz.go:124-251 | What a decode into a used object leaves can be encoded if and only if there was no logs bloom and the extra data, old and new, fit 32 bytes. |
| SszPayload.SecondDecodeSpoils | mod/consensus-types/pkg/types/payload.ssz.go:146-151 | Decoding a payload's own encoding into the object that holds it succeeds and leaves an object that cannot be encoded. |
| SszPayload.OversizedPayloadIsLost | mod/consensus-types/pkg/types/payload.ssz.go:18-121 | Four transactions of 2^30 bytes are within every limit and do not survive the round trip. |
| SszPayload.SizePayload | mod/consensus-types/pkg/types/payload.ssz.go:254-270 | The size loop is the exact encoded length. |
| SszPayload.MarshalPayload | mod/consensus-types/pkg/types/payload.ssz.go:18-121 | The given prefix followed by the encoding, which is on the wire as the format says it, byte by byte; or the violated limit. |
| SszPayload.ExecutableData.SizeSSZ | mod/consensus-types/pkg/types/payload.ssz.go:254-270 | The exact encoded length: 528, the extra data, four bytes and the length of each transaction, and 44 per withdrawal. |
| SszPayload.ExecutableData.MarshalSSZTo | mod/consensus-types/pkg/types/payload.ssz.go:18-121 | Prefix followed by the object's value as the format says it, the bytes at 436 being 16, 2, 0, 0 and numbers least significant byte first. |
| SszPayload.ExecutableData.UnmarshalSSZ | mod/consensus-types/pkg/types/payload.ssz.go:124-251 | The object holds the decoded value on success; the error is the decoder's. |
| SszBody.BodyFailure | mod/consensus-types/pkg/types/body.ssz.go:17-75 | No failure exactly for at most 16 deposits, 16 commitments and a payload without one; otherwise the first violated limit's error. |
| SszBody.BodyEncodingLaidOut | mod/consensus-types/pkg/types/body.ssz.go:17-75 | Fixed fields in place; the three offsets are where deposits, payload and commitments start. |
| SszBody.BodyRoundTrip | mod/consensus-types/pkg/types/body.ssz.go:78-163 | The identity on fresh objects if and only if the last offset fits 32 bits. |
| SszBody.OversizedBodyIsLost | mod/consensus-types/pkg/types/body.ssz.go:17-75 | A body with that payload does not survive it. |
| SszBody.DecodedBodyWithinLimits | mod/consensus-types/pkg/types/body.ssz.go:78-163 | Whatever decodes is within every limit of the body and of its payload. |
| SszBody.BodyDecodesExactly | mod/consensus-types/pkg/types/body.ssz.go:78-163 | Bytes decode to a body if and only if they say it: fields at their places, three little-endian offsets, 192-byte deposits, the payload's own bytes, 48-byte commitments. |
| SszBody.DecodesWhatBodyReads | mod/consensus-types/pkg/types/body.ssz.go:78-163 | The same for an object in use. |
| SszBody.BodyRefusals | mod/consensus-types/pkg/types/body.ssz.go:78-125 | Too short, or an offset into the fixed part, out of order or past the end, each with its error. |
| SszBody.EncodedBodyReads | mod/consensus-types/pkg/types/body.ssz.go:17-75 | The encoding says the body it is of, if and only if every offset fits 32 bits. |
| SszBody.EncodedBodyIsCanonical | mod/consensus-types/pkg/types/body.ssz.go:17-75 | The encoder's own output is canonical, its payload section included. |
| SszBody.BodyCanonical | mod/consensus-types/pkg/types/body.ssz.go:78-163 | Re-encodes to its bytes if and only if the first offset is 212 and the payload section is canonical. |
| SszBody.BeaconBlockBody.SizeSSZ | mod/consensus-types/pkg/types/body.ssz.go:166-182 | The exact encoded length: 212, 192 per deposit, the payload and 48 per commitment; a missing payload counts as an empty one. |
| SszBody.BeaconBlockBody.MarshalSSZTo | mod/consensus-types/pkg/types/body.ssz.go:17-75 | Prefix followed by bytes that say the body, below 2^32; the object keeps its value. |
| SszBody.BeaconBlockBody.UnmarshalSSZ | mod/consensus-types/pkg/types/body.ssz.go:78-163 | The nested objects hold the decoded body on success; the error is the decoder's. |
| SszBlock.BlockLength | mod/consensus-types/pkg/types/block.ssz.go:89-99 | The encoded length from the sizes of its parts. |
| SszBlock.BlockDecodesExactly | mod/consensus-types/pkg/types/block.ssz.go:44-86 | Bytes decode to a block if and only if they say it, down to the last transaction: the format written out without a decoder. |
| SszBlock.DecodesWhatBlockReads | mod/consensus-types/pkg/types/block.ssz.go:44-86 | The same for an object in use. |
| SszBlock.BlockRefusals | mod/consensus-types/pkg/types/block.ssz.go:44-86 | Too short, an offset into the fixed part or past the end, or the body's error. |
| SszBlock.EncodedBlockReads | mod/consensus-types/pkg/types/block.ssz.go:16-41 | The encoding says the block it is of, if and only if every offset fits 32 bits. |
| SszBlock.BlockRoundTrip | mod/consensus-types/pkg/types/block.ssz.go:44-86 | Through all three levels, the identity if and only if the body's last offset fits 32 bits; always for blocks below 2^32 bytes. |
| SszBlock.OversizedBlockIsLost | mod/consensus-types/pkg/types/block.ssz.go:16-41 | A block with that body does not survive it. |
| SszBlock.BlockCanonical | mod/consensus-types/pkg/types/block.ssz.go:44-86 | Whatever decodes is within limits and re-encodes to its bytes if and only if the offset is 84 and the body is canonical. |
| SszBlock.BeaconBlock.SizeSSZ | mod/consensus-types/pkg/types/block.ssz.go:89-99 | The exact encoded length: 84 and the body's; a missing body counts as an empty one. |
| SszBlock.BeaconBlock.MarshalSSZTo | mod/consensus-types/pkg/types/block.ssz.go:16-41 | Prefix followed by bytes that say the whole block, below 2^32. |
| SszBlock.BeaconBlock.UnmarshalSSZ | mod/consensus-types/pkg/types/block.ssz.go:44-86 | The three nested objects hold the decoded block on success; the error is the decoder's. |
| SszBlock.NewFromSSZ | mod/consensus-types/pkg/types/block.go:80-96 | Succeeds exactly on bytes that say some block, and then the new object is that block. |
| PayloadCache.PayloadIDCache.Get | mod/payload/pkg/cache/payload_id.go:70-85 | Looks up slot, then parent root. |
| PayloadCache.PayloadIDCache.Prune | mod/payload/pkg/cache/payload_id.go:123-129 | Deleting while ranging removes exactly the slots below the given one and keeps the others' entries. |
| PayloadCache.PayloadIDCache.Set | mod/payload/pkg/cache/payload_id.go:90-108 | Prunes all but the two slots before, then stores the pair. |
| PayloadCache.LookupAfterSet | mod/payload/pkg/cache/payload_id.go:90-108 | One Set answers its own pair, forgets slots at least three older and changes nothing else. |
| PayloadCache.LookupIsLastUnpruned | mod/payload/pkg/cache/payload_id.go:70-108 | After any sequence of Sets, Get returns the value of the last Set for the pair if no later Set used a slot of s + 3 or more, and nothing otherwise. |
| PayloadCache.LiveSlots | mod/payload/pkg/cache/payload_id.go:90-129 | With non-decreasing slots only the last slot and the two before it are live. |
| PayloadCache.AtMostThreeSlots | mod/payload/pkg/cache/payload_id.go:90-129 | So at most three slots are ever live. |
| PayloadBuilder.LocalBuilder.RequestPayloadAsync | mod/payload/pkg/builder/payload.go:36-103 | A hit returns the cached ID and sends nothing; a miss sends one update and caches the ID it brings; every error path. |
| PayloadBuilder.ServedIsServed | mod/payload/pkg/builder/payload.go:36-103 | Case by case: a cached ID is returned and nothing sent; otherwise exactly this update is logged and its reply decides, an ID being returned and found under its pair. |
| PayloadBuilder.LocalBuilder.RequestPayloadSync | mod/payload/pkg/builder/payload.go:107-161 | Every outcome: the request's error, no ID, a cancelled wait, or whatever the engine gives for the requested ID. |
| PayloadBuilder.LocalBuilder.RetrievePayload | mod/payload/pkg/builder/payload.go:167-230 | Every outcome: no cached ID, the engine's error for it, a nil envelope, or the envelope of the cached ID. |
| PayloadBuilder.ServeKeepsInvariant | mod/payload/pkg/builder/payload.go:36-103 | One request keeps the sequential invariant: nothing sent twice, recent IDs cached. |
| PayloadBuilder.SequentialRuns | mod/payload/pkg/builder/payload.go:36-103 | In every sequential run with non-decreasing slots no update is sent for a pair once its ID was returned, and each recent ID is the one retrieved. |
| PayloadBuilder.StepKeepsIssued | mod/payload/pkg/builder/payload.go:36-103 | Every step of every goroutine keeps: only issued IDs are cached or held. |
| PayloadBuilder.InterleavedRuns | mod/payload/pkg/builder/payload.go:36-103 | In every interleaving each cached or returned ID was issued for an update for exactly that slot and parent root. |
| PayloadBuilder.MissesExactly | mod/payload/pkg/cache/payload_id.go:70-108 | After any Sets, a pair is missing exactly when each Set for it was followed by one three or more slots ahead. |
| PayloadBuilder.RunsAreAccounted | mod/payload/pkg/builder/payload.go:36-103 | In every interleaving the cache is what the Sets so far made it, each Set stored an issued ID, and whoever sends had looked and missed. |
| PayloadBuilder.LookMissesExactly | mod/payload/pkg/builder/payload.go:51-60 | In every interleaving a request goes on to send if and only if each ID issued for its pair is not stored yet or was pruned by a Set three or more slots ahead. |
| PayloadBuilder.RepeatsExplained | mod/payload/pkg/builder/payload.go:36-103 | An update for a pair with an issued ID looked before that ID was stored, or after a Set three or more slots ahead. |
| PayloadBuilder.InterleavingMayRepeat | mod/payload/pkg/builder/payload.go:36-103 | Two interleaved requests can both miss and both send. |
| PayloadBuilder.OlderSlotRepeats | mod/payload/pkg/cache/payload_id.go:90-108 | One caller whose slots go back by three sends twice for a pair. |
| Forkchoice.NextTimestampExceeds | mod/beacon/blockchain/execution_engine.go:151-165 | The timestamp is the later of the clock's reading and the second after the head's, and exceeds the head's if and only if that second can be represented. |
| Forkchoice.Node.SendForceHeadFCU | mod/payload/pkg/builder/payload.go:237-270 | Is the startup step of the run model, and keeps every update sent so far good. |
| Forkchoice.Node.SendPostBlockFCU | mod/beacon/blockchain/execution_engine.go:32-145 | Is the post-block step, with the head read from the state and the timestamp from the block, and keeps every update good, which needs the two to agree. |
| Forkchoice.Node.OptimisticPayloadBuild | mod/beacon/blockchain/payload.go:202-265 | Is the optimistic step on a candidate that passed the parent check, and keeps every update good. |
| Forkchoice.Node.RebuildPayloadForRejectedBlock | mod/beacon/blockchain/payload.go:96-175 | Is the rebuild step, and keeps every update good. |
| Forkchoice.Node.RequestPayloadForProposal | mod/beacon/validator/propose.go:284-297 | Is the propose step, and keeps every update good. |
| Forkchoice.Node.ProcessPayload | mod/state-transition/pkg/core/state_processor_payload.go:33-113 | Takes a payload exactly when its parent is the latest one, as the finalise step, and keeps the chain linked and each header its block's. |
| Forkchoice.StepSendsGood | mod/beacon/blockchain/execution_engine.go:63-145 | Each sender's update has the hash of a known payload as head, one hash as safe and finalized that the chain finalised and that is the head's or its parent's, and attributes exactly when its sender asks for a payload, timed by that sender's clock and the head. |
| Forkchoice.EveryUpdateIsGood | mod/beacon/blockchain/payload.go:96-265 | Over every run, however late its goroutines, all updates ever sent are of that kind, and each header in the state is that of its block. |
| Forkchoice.FinalityMovesBackExactly | mod/beacon/blockchain/execution_engine.go:63-145 | Over every run, the finalized height moves back between two updates if and only if the chain grew by less in between than the second is deeper below its tip; by at most one more than the second's lag. |
| Forkchoice.PromptFinalityMovesBackExactly | mod/beacon/blockchain/payload.go:96-265 | Between updates that do not lag, if and only if the first is a rebuild or optimistic update and the second another kind at the same tip. |
| Forkchoice.FinalityMayMoveBack | mod/beacon/validator/propose.go:284-297 | On every chain, a run in which a rebuild and then a proposal move it back by one. |
| Forkchoice.LateUpdateMovesBackAnyDistance | mod/beacon/blockchain/process.go:119-129 | On every chain, a run in which a late post-block update moves it back to the genesis payload. |
| BlobStore.PruningVersusDAPeriod | mod/da/pkg/store/pruner.go:27-39 | Pruning removes every slot the availability check rejects and besides them exactly s mod SlotsPerEpoch slots. |
| BlobStore.WithinDAPeriodExact | mod/primitives/pkg/chain/helpers.go:60-72 | Barring overflow, the epoch comparison rejects exactly the slots below an epoch boundary. |
| BlobStore.WithinDAPeriodWrittenOut | mod/primitives/pkg/chain/helpers.go:60-72 | The comparison of epochs with its 64-bit overflow. |
| BlobStore.WindowWrittenOut | mod/da/pkg/store/pruner.go:27-39 | The window is the product of its two settings, cut to 64 bits. |
| BlobStore.RangeDB.Put | mod/storage/pkg/filedb/range_db.go:73-79 | Stores one entry unless the write fails, lowers the mark either way, keeps nothing below it. |
| BlobStore.RangeDB.DeleteRange | mod/storage/pkg/filedb/range_db.go:91-102 | Removes the half-open range, or the part before the index that fails. |
| BlobStore.RangeDB.Prune | mod/storage/pkg/filedb/range_db.go:105-117 | Removes from the mark or the start on; the mark stays truthful if and only if it failed or nothing was stored between mark and start. |
| BlobStore.LatePruneBreaksMark | mod/storage/pkg/filedb/range_db.go:105-117 | An entry at 1 and a prune of [2, 3) leave the entry below the mark. |
| BlobStore.AvailabilityStore.IsDataAvailable | mod/da/pkg/store/store.go:59-72 | True exactly when every commitment can be read and is stored under the slot. |
| BlobStore.AvailabilityStore.Persist | mod/da/pkg/store/store.go:76-117 | Under the slot, the commitment of every sidecar that is there, encodes and can be written holds an encoding it came with, and all else is as before; no error exactly when nothing had to be, or everything could be, stored. |
| BlobStore.PersistOneMore | mod/da/pkg/store/store.go:96-113 | One more sidecar, whatever the order, keeps that description. |
| BlobStore.AvailabilityStore.OnFinalized | mod/da/pkg/store/pruner.go:27-39 | Removes nothing at or above slot minus window, everything below unless deletion fails, and keeps the mark truthful. |
| BlobStore.StepRetains | mod/da/pkg/store/store.go:76-117 | Each step, single deletions included, keeps recent blobs and leaves pruning behind the window. |
| BlobStore.StepStaysTruthful | mod/storage/pkg/filedb/range_db.go:73-117 | Each step, writes during a prune included, keeps the low-water mark and the pruner's progress truthful. |
| BlobStore.RunsRetain | mod/beacon/blockchain/process.go:100-117 | Over every run with non-decreasing slots and any delay or order of pruning events, every commitment of every accepted block inside the window is still stored, and nothing is stored below the mark. |
| BlobStore.EndedPruneIsComplete | mod/da/pkg/store/pruner.go:27-39 | When a prune ends, nothing is left below its bound, whatever was written meanwhile. |
| Deposits.KVStore.GetDepositsByIndex | mod/storage/pkg/deposit/store.go:72-90 | The consecutive deposits from the start, stopping early exactly at a missing index, or with an error exactly at one that cannot be read. |
| Deposits.KVStore.EnqueueDeposits | mod/storage/pkg/deposit/store.go:100-109 | Stores all deposits, or those before the first failing write: the last one with an index is what is found under it, and every other entry is unchanged. |
| Deposits.KVStore.Prune | mod/storage/pkg/deposit/store.go:117-127 | Removes exactly the `count` keys from `start` on, in 64-bit arithmetic. |
| Deposits.PrunedKeys | mod/execution/pkg/deposit/pruner.go:27-52 | Handed to the store, a prune range never wraps and removes exactly the indices from last minus maximum up to the last. |
| Deposits.StoredKeys | mod/storage/pkg/deposit/store.go:100-114 | Storing adds exactly the indices of the deposits. |
| Deposits.StoredHolds | mod/storage/pkg/deposit/store.go:100-114 | Storing deposits: the last one with an index wins, and nothing else changes. |
| Deposits.PruneEndsAtLastIncluded | mod/execution/pkg/deposit/pruner.go:27-52 | Start plus count is always the last included index. |
| Deposits.RangeReadingPrunesNothing | mod/execution/pkg/deposit/pruner.go:27-52 | Read as (start, end), the same pair would be empty once the index reaches twice the maximum. |
| Deposits.PruningFollowsChain | mod/execution/pkg/deposit/pruner.go:27-52 | Over every run of blocks with consecutive indices, exactly the indices below the last included one are pruned. |
| Deposits.Service.FetchAndStoreDeposits | mod/execution/pkg/deposit/sync.go:88-114 | The block leaves the failed set exactly when all its deposits were stored, and joins it otherwise; what the store holds either way. |
| Deposits.Service.RetryFailed | mod/execution/pkg/deposit/sync.go:59-86 | Exactly the blocks that fail again remain, and the deposits of all others are stored. |
| Deposits.StepForgetsNothing | mod/execution/pkg/deposit/sync.go:35-114 | Each step of either worker keeps: a finished attempt is enqueued or in the failed set. |
| Deposits.StepKeepsDeposits | mod/execution/pkg/deposit/sync.go:88-114 | Deposits of enqueued blocks are stored or were pruned. |
| Deposits.RunsForgetNothing | mod/execution/pkg/deposit/sync.go:35-114 | Both hold in every state of every interleaving of the two workers and the pruner. |
| Deposits.CaughtUp | mod/execution/pkg/deposit/sync.go:47-52 | When the failed set is empty and the fetcher idle, every finalised number minus the follow distance was enqueued and its deposits are stored or pruned. |
| Deposits.FollowedWrittenOut | mod/execution/pkg/deposit/sync.go:47-52 | A number below the follow distance wraps around. |
| Hex.ParseWord | mod/primitives/pkg/hex/string.go:150-157 | One word never overflows and is the value of its digits; fails exactly on a bad digit. |
| Hex.ParseWords | mod/primitives/pkg/hex/string.go:143-161 | The word loop consumes every digit and yields the base-16 value of the whole string. |
| Hex.ToBigInt | mod/primitives/pkg/hex/string.go:131-162 | For 8 and 16 nibbles per word alike: the value of every well-formed string of at most 64 digits, and the right error otherwise. |
| Hex.BigIntRoundTrip | mod/primitives/pkg/hex/string.go:72-80 | Parsing a printed number gives it back if and only if it is below 2^256. |
| Hex.BigIntAccepts | mod/primitives/pkg/hex/string.go:131-162 | Accepts exactly the well-formed numbers of at most 64 digits, with the digits' value; otherwise the right error. |
| Hex.NumberFormat | mod/primitives/pkg/hex/format.go:73-90 | The number format character by character, and the error for what is missing. |
| Hex.TextFormat | mod/primitives/pkg/hex/format.go:58-70 | The text format: nothing, or a prefix and an even number of characters. |
| Hex.DigitTable | mod/primitives/pkg/hex/nibble.go:28-40 | Exactly '0'-'9', 'A'-'F' and 'a'-'f' are digits, with their values by character code. |
| Hex.BigIntCanonical | mod/primitives/pkg/hex/string.go:131-162 | Printing a parsed number gives its digits in lower case. |
| Hex.PrintedIsWellFormed | mod/primitives/pkg/hex/format.go:73-90 | Printed numbers have the prefix, a digit and no leading zero, and pass validation. |
| Hex.UnmarshalUint64Text | mod/primitives/pkg/hex/u64.go:52-70 | The 64-bit running value never wraps and ends at the value of the digits. |
| Hex.Uint64RoundTrip | mod/primitives/pkg/hex/u64.go:33-70 | Parsing inverts printing on all 64-bit values. |
| Hex.Uint64Accepts | mod/primitives/pkg/hex/u64.go:52-70 | Accepts exactly the well-formed numbers below 2^64, and agrees there with ToBigInt. |
| Hex.NibbleCanonical | mod/primitives/pkg/hex/nibble.go:28-40 | A digit's nibble is below 16 and prints as the digit in lower case. |
| Hex.DecodeFixedText | mod/primitives/pkg/hex/bytes.go:68-90 | Succeeds exactly on a valid text of the buffer's length; byte i is then the value of digits 2i and 2i + 1; the buffer is unchanged on every error, and which error it is. |
| Hex.UnmarshalByteText | mod/primitives/pkg/hex/bytes.go:37-47 | Succeeds exactly on a valid text and gives its bytes. |
| Hex.BytesRoundTrip | mod/primitives/pkg/hex/bytes.go:30-47 | Decoding encoded bytes gives them back. |
| Hex.HexCanonical | mod/primitives/pkg/hex/bytes.go:30-47 | Encoding decoded digits gives them in lower case. |
| Hex.BytesOfHexAt | mod/primitives/pkg/hex/bytes.go:37-47 | Byte i is the value of digits 2i and 2i + 1. |
| Hex.EncodedBytesAt | mod/primitives/pkg/hex/bytes.go:30-35 | The prefix, then the high and the low half of each byte. |
| Hex.EncodedBytesDecode | mod/primitives/pkg/hex/bytes.go:30-90 | What EncodeBytes prints is accepted by the decoder and decodes to the bytes. |
| RootCache.ExecutionPayload.ToHeader | mod/consensus-types/pkg/types/payload.go:104-163 | The result without a cache, field by field the payload's, and the header is cached exactly on success. |
| RootCache.ExecutionPayload.HashTreeRoot | mod/consensus-types/pkg/types/payload.go:70-101 | The result without a cache; a header already cached supplies the root without storing it. |
| RootCache.BuildHeader | mod/consensus-types/pkg/types/payload.go:109-163 | Fails exactly when one of the two list roots fails, with one of their errors; otherwise every field is the payload's field of that name. |
| RootCache.HeaderRoot | mod/consensus-types/pkg/types/payload_header.ssz.go:187-256 | The root of the tree of depth 5 over the 17 fields in order; fails exactly on a bloom that is not 256 bytes or extra data over 32. |
| RootCache.HeaderRootIsPayloadRoot | mod/consensus-types/pkg/types/payload_header.ssz.go:187-256 | A remark on the field order: header and payload put the same leaves in the same places, given the SSZ roots of the two lists. |
| RootCache.StepKeepsAgreement | mod/consensus-types/pkg/types/payload.go:70-163 | Each load, store or computation keeps both pointers right and never changes a set pointer's value. |
| RootCache.AgreesThroughout | mod/consensus-types/pkg/types/payload.go:70-163 | In every state of every interleaving, cached header and root are those of the inner payload. |
| RootCache.CacheNeverChangesValue | mod/consensus-types/pkg/types/payload.go:70-163 | Once set, a pointer keeps its value for the rest of the run. |
| RootCache.EveryCallAgrees | mod/consensus-types/pkg/types/payload.go:70-163 | Every returned call gave what a computation without caches gives, errors included. |
| RootCache.EveryRootIsThePayloadRoot | mod/consensus-types/pkg/types/payload.ssz.go:278-380 | What the remark means for every root returned in any interleaving, under the same hypothesis. |
| Errors.JoinFatal | mod/errors/mod.go:99-112 | The loop's result is fatal exactly when some member is. |
| Errors.JoinFatalIsExact | mod/errors/mod.go:70-112 | IsFatal of the join holds if and only if it holds of a member. |
| Errors.NestedJoinIsExact | mod/errors/mod.go:70-112 | For lists nested to any depth, the joined error is fatal if and only if some leaf is. |
| Errors.FatalityTable | mod/errors/mod.go:70-95 | Which errors are fatal, kind by kind. |
| Errors.IdentityTable | mod/errors/mod.go:30-49 | What an error is, kind by kind; a DetailedError hides what it holds. |
| Errors.JoinKeepsNonNil | mod/errors/mod.go:30-40 | Joining keeps exactly the errors that are not nil, in order. |
| Errors.PlainJoinIsFirstDetailed | mod/errors/mod.go:70-95 | A plain Join is judged by its first member holding a DetailedError, and is fatal when none does. |
| Verdict.RpcErrorNamesNoStatus | mod/execution/pkg/client/errors.go:60-131 | No error of the RPC layer can be taken for a payload status. |
| Verdict.RpcErrorTable | mod/execution/pkg/client/errors.go:60-131 | Each JSON-RPC and Engine API code with the error it becomes. |
| Verdict.PreDefinedExactly | mod/primitives/pkg/net/json-rpc/errors.go:39-52 | Exactly the six codes of the JSON-RPC specification count as pre-defined. |
| Verdict.StatusTable | mod/execution/pkg/client/helpers.go:52-67 | Each status with the error it becomes; a hash only on VALID and INVALID. |
| Verdict.ClientErrorNames | mod/execution/pkg/client/helpers.go:52-67 | The client reports no error exactly on VALID, and names each other status exactly on that status. |
| Verdict.EngineVerdict | mod/execution/pkg/engine/engine.go:169-273 | A local mismatch and INVALID always come back as errors; optimistic mode swallows all else; otherwise only VALID passes. |
| Verdict.AcceptedIsNamed | mod/execution/pkg/engine/engine.go:169-273 | The non-optimistic error names ACCEPTED exactly when that was the reply to a consistent payload. |
| Verdict.AnsweredRpcError | mod/execution/pkg/engine/engine.go:169-273 | The non-optimistic error for each answer the client can get. |
| Verdict.FailedRpcNames | mod/execution/pkg/engine/engine.go:233-251 | When the call failed, the error names the client's error, and the pre-defined kind exactly for its codes. |
| Verdict.LocalErrorTable | mod/engine-primitives/pkg/engine-primitives/requests.go:130-232 | The name of each local mismatch. |
| Verdict.ForkchoiceVerdict | mod/execution/pkg/engine/engine.go:98-164 | Which updates succeed; on VALID the payload ID and the hash are the reply's, on every other reply there is no ID; ACCEPTED and SYNCING give no hash; INVALID reports a bad block with the latest valid hash. |
| Verdict.ForkchoiceErrors | mod/execution/pkg/engine/engine.go:98-164 | The error for each answer the client can get to an update. |
| Verdict.TransitionSucceeds | mod/state-transition/pkg/core/state_processor.go:141-174 | A transition succeeds exactly when every stage does and the reply is VALID, or not INVALID in optimistic mode. |
| Verdict.TransitionReports | mod/state-transition/pkg/core/state_processor.go:141-174 | The first stage that fails is the one reported. |
| Verdict.StateRootVerdict | mod/beacon/blockchain/receive.go:144-182 | Exactly which blocks pass verifyStateRoot, and that its errors are always fatal. |
| Verdict.PassesOnValidOrAccepted | mod/beacon/blockchain/receive.go:159-181 | Given an otherwise successful transition, a proposal passes exactly on VALID or ACCEPTED. |
| Verdict.PassMeansFullTransition | mod/beacon/blockchain/receive.go:170-177 | A passing block went through the whole transition if and only if the reply was not ACCEPTED. |
| Verdict.AcceptedHidesLaterFailure | mod/beacon/blockchain/receive.go:170-177 | On ACCEPTED any failure after the engine call goes unseen. |
| Verdict.ReceiveBlockAndBlobs | mod/beacon/blockchain/receive.go:34-67 | The joined error is never nil, and fatal exactly when block or blobs do not pass. |
| Verdict.ProcessProposal | mod/runtime/pkg/runtime/middleware/validator.go:214-257 | A proposal is accepted exactly when it has no block, or block and blobs pass. |
| Finalization.ProcessBlockAndBlobs | mod/beacon/blockchain/process.go:73-129 | Succeeds exactly when there is a block, its transition succeeds in optimistic mode, every sidecar that must be stored can be, and every commitment is stored or arrives and can be read. |
| Finalization.FinalizesAfterProposal | mod/beacon/blockchain/process.go:73-129 | A block that passed as a proposal finalises if and only if the engine does not now reply INVALID, its blobs can be stored and are complete, and, had it passed on ACCEPTED, the stages skipped then succeed. |
| Finalization.ProposeThenFinalize | mod/beacon/blockchain/process.go:73-129 | Both rounds run in turn have exactly that outcome. |
| Finalization.AcceptedThenRefused | mod/beacon/blockchain/receive.go:170-177 | A block that passed on ACCEPTED with a later stage failing is refused at finalisation whatever the engine then replies. |
| Finalization.NoSidecarsThenRefused | mod/beacon/blockchain/receive.go:205-213 | A block with a commitment and no sidecars passes as a proposal and cannot be finalised. |

## Left out

- SHA-256, BLS and KZG cryptography: the pair hash is a parameter, and KZG proofs and signatures are opaque bytes.
- The fastssz helpers for offsets, integers and dynamic lists: written as definitions from their documented behaviour, since the library is not part of the repository.
- The SSZ merkleizer behind the body's field roots: the five roots other than the commitments' are given values, and the two root computations are not claimed to agree beyond that.
- Fixed-width leaf codecs (deposit, eth1 data, withdrawal): byte strings of 192, 72 and 44 bytes, because their codecs only repeat an easier form of the payload's; nil deposit and withdrawal pointers are therefore absent.
- The execution payload header, state and blob sidecar codecs: the same easier form.
- SszPayload.ExecutableData.UnmarshalSSZ: does not say which fields a failed decode has already written; the checks on offsets are made before the fields are written, with the same error.
- SszBody.BeaconBlockBody.UnmarshalSSZ: does not say which fields a failed decode has already written.
- SszBlock.BeaconBlock.UnmarshalSSZ: does not say which fields a failed decode has already written.
- Inclusion.BuildSidecars: the goroutines fill distinct slots and are run in turn; the block is taken as unchanged meanwhile, and of several failures the first is reported.
- Inclusion.InclusionSoundness: is about proofs of k + 4 chunks, because the verifier takes the depth from the proof itself and other lengths lead to other tree heights; the sidecar's own encoding fixes eight chunks.
- NextPowerOfTwo and the base-two logarithm: given by their meaning (the least depth that holds the leaves), for maxima up to 2^63.
- The body codec fixes 16 commitments in its generated code while the factory reads the maximum from the chain specification: the theorems about proofs are for every maximum, those about the codec for 16.
- PayloadBuilder.LocalBuilder.RetrievePayload: what is logged about the envelope is not modelled.
- PayloadBuilder.LocalBuilder.RequestPayloadSync: the wait for the payload is a cancellation flag.
- Forkchoice: state copying and slot processing before an update are left out, as only the latest execution header they preserve matters to the update; an update that a failure or an already cached payload ID suppresses is a run without that step.
- BlobStore.AvailabilityStore.Persist: demands a non-nil first sidecar, which the code dereferences without a check.
- Deposits: the failed-block map is accessed by two goroutines without a lock; steps on it are taken as atomic, so Go's runtime check for concurrent map access is not modelled.
- Numbers below the follow distance wrap around in depositFetcher; the wrapped number is attempted like any other, and CaughtUp speaks of numbers at or above the distance.
- RootCache.HeaderRootIsPayloadRoot: takes the agreement of the two ways to compute the list roots as a hypothesis, and the leaf hashers as given.
- RootCache.EveryRootIsThePayloadRoot: rests on the same hypothesis.
- BlobStore: a write that fails is taken to leave no entry behind.
- Finalization.ProcessBlockAndBlobs: the transition and the persisting run in parallel and share nothing, so they are run one after the other; which of several errors is reported is not modelled.
- Verdict: the stages of the state processor other than payload validation are outcomes (success or a message), not computations; HasValidVersionedAndBlockHashes likewise.
- Fork version switches: only Deneb exists in the code, so the unknown-version errors and panics are absent.
- Validator predicates, withdrawal credentials, chain specification getters, JSON codecs, JWT, RPC dialing, contract bindings, node API, command line, dependency injection, metrics and logging: plumbing, or settled by reading one expression.
