# TSL core: a verified model

TSL commits signed events to a log, closes segments of it with checkpoints, chains the checkpoints,
and scores and authorizes on top of that evidence. This project models the core of its TypeScript
implementation in Dafny and proves what the parts promise each other.

Four groups of modules, each built on the ones before it:

- **Authenticated structures.** `Text` (UTF-16 strings and their order), `Canonical` (canonical JSON and a
  decoder for it), `Crypto` (byte layouts, UTF-8), `MerkleLog` (the indexed log with odd-node promotion),
  `SparseMerkle` (the sparse tree with pruned empty subtrees), `Layout` (what exactly is hashed for each object),
  with `Hashing` (what is assumed of a hash function).
- **The log and the checkpoint chain.** `RelayStore` (the in-memory relay, as a class and as a state machine
  whose steps are the stretches of code between awaits), `RelaySchedules` (which interleavings keep the log
  numbered and its roots right), `RelayTimeline` (the same in terms of what happens between a call's beginning and
  end), `RelayObjects` (what an accepted object does to each root of a checkpoint), `RelayChain` (when settled
  checkpoints form a hash chain), `RelayBinding` (what commitments determine), `Consistency` (checkpoints and chain
  proofs),
  `CheckpointTable` (the checkpoint table, as a class and as atomic steps), `Verifier` (the inclusion and
  checkpoint part of the verifier, down to the log).
- **Graph algorithms.** `Graph` (projection, components), `SeedDistance` (breadth-first search), `Community`
  (partitions and their canonical numbering), `Louvain` (greedy passes), `Leiden` (refinement), `Modularity` (the
  score they climb).
- **Arithmetic and authorization.** `FixedPoint` (square root, Gauss-Jordan elimination), `Score` (weighted
  score, calibration, interval), `Delegation` (delegation chains), with helpers in `Bps`, `Sorting` and `Wrappers`.

## Reading the theorems

*Hashing.* SHA-256 is an arbitrary function from bytes to 32 bytes. Refinement and completeness results hold for
every such function. Binding results assume that the function has no collision **on the finite set of inputs that
are actually hashed** in the situation at hand (the queries of a tree, of a proof, the bodies of a chain) and hits
zero on none of them; nothing is assumed about other inputs. Trees and chains are stated over symbolic queries
(`LeafQuery`, `NodeQuery`, checkpoint bodies). `Layout` shows that collision-freeness of SHA-256 on the byte
strings gives collision-freeness on the queries, because tags, lengths, hexadecimal text and canonical JSON can all
be read back. `Verifier.LoggedEventIsEnvelope` and `Verifier.SameSlotSameEvent` put the whole tower together.

*Relay runs.* `RelayStore.ClosedSegmentsAreFinal` quantifies over every interleaving of accept and submit calls at
their awaits, every verification answer and every backend reply, including failure. Numbering, nonces and settled
roots do not hold over all of these: `RelaySchedules.OfferedTwice` and `RelaySchedules.AcceptedLate` are two runs in
which they fail, and `RelaySchedules.RunIsExact` says over every run exactly when they hold.
For backends that change nothing that is hashed, `RelayTimeline.ScheduleIsExact` gives the condition on the schedule
itself: nothing that a call relies on is added while it waits. `RelaySchedules.OrderlyRunsKeepInv` gives schedules that
meet it, and `RelaySchedules.WholeCallsAreOrderly` shows that runs of whole calls are among them.
Collision-free hashing enters as two functions, `home` (a commitment determines its segment) and `nonceOf` (a
commitment determines its nonce key), which `RelayBinding.RunsAreFixed` derives from SHA-256.

*Sparse non-membership.* `SparseMerkle.AcceptedProofNamesLeaf` says what an accepted proof shows of the tree: the
state of the leaf its sides lead to. The verifier takes the sides as they come, so an accepted non-membership proof
need not speak of its own leaf index: `SparseMerkle.ElsewhereIsAccepted` gives the proofs it takes for values of the
set, and `SparseMerkle.NonMembershipHoldsExactly` the only trees for which there are none. With sides that follow the
bits of the leaf index, which a caller can check and every proof made by the prover has,
`SparseMerkle.NonMembershipIsSound` holds for every tree.

*Components.* `Graph.ConnectedComponents` is specified for every graph and projection: a node gets the rank of the
least node that reaches it. `Graph.ComponentsAreExact` specializes this to undirected projections.

## Model

| member | source | states |
|---|---|---|
| Text.SortedIsCanonical | packages/core-ts/src/canonicalize.ts:28-28 | A list of keys in strict code-unit order is determined by the set of its keys; that the text holds them in this order is Canonical.NamesAscend. |
| Text.LessIsFirstDifference | packages/core-ts/src/canonicalize.ts:28-28 | The order of keys is the one of section 3.2.3 of RFC 8785: a proper prefix first, otherwise the smaller code unit at the first difference. |
| Canonical.EncodesAccepted | packages/core-ts/src/canonicalize.ts:7-40 | Encoding succeeds on exactly null, booleans, safe integers other than negative zero, strings, and arrays and objects of those. |
| Canonical.RoundTrip | packages/core-ts/src/canonicalize.ts:7-40 | A JSON decoder, with the string escapes of section 7 of RFC 8259, reads the canonical text of every accepted value back to that value and consumes all of it; so does the strict decoder, which takes canonical forms only, at every level: names in ascending order, shortest escapes in lower case, no leading zeros. |
| Canonical.NamesAscend | packages/core-ts/src/canonicalize.ts:27-36 | The names read from the text of an object, in the order they stand, are strictly ascending, and their set is the set of its fields. |
| Canonical.StrictIsCanonical | packages/core-ts/src/canonicalize.ts:7-40 | Of all texts the strict decoder reads as an accepted value, its canonical text is the only one. |
| Canonical.SafeIntegerIs | packages/core-ts/src/canonicalize.ts:13-21 | The safe integers are those strictly between minus and plus two to the 53rd. |
| Canonical.Injective | packages/core-ts/src/canonicalize.ts:7-40 | Equal canonical text means equal values, objects compared as maps. |
| Canonical.WithoutField | packages/core-ts/src/canonicalize.ts:50-58 | The copy holds exactly the defined fields with another name. |
| Crypto.ConcatBytes | packages/core-ts/src/crypto.ts:87-96 | The filled buffer is the concatenation of the parts, with no byte left over. |
| Crypto.BigEndianRoundTrip | packages/core-ts/src/crypto.ts:98-106 | The big-endian bytes of a number that fits give the number back. |
| Crypto.Uint64beInjective | packages/core-ts/src/crypto.ts:98-106 | Different 64-bit indexes have different eight bytes. |
| Crypto.DomainSeparated | packages/core-ts/src/crypto.ts:108-111 | Tag and payload are recovered from a hashed message, so messages under different tags differ. |
| Crypto.HashDomain | packages/core-ts/src/crypto.ts:108-111 | The buffer that is hashed is tag, zero byte and payload, copied one after the other. |
| Crypto.Utf8Injective | packages/core-ts/src/canonicalize.ts:46-48 | UTF-8 encoding is injective on text without lone surrogates. |
| Crypto.HeadIsUtf8 | packages/core-ts/src/canonicalize.ts:46-48 | Every code point is written in the bytes that stand for it in UTF-8, surrogate pairs as one, in the fewest there are. |
| Crypto.LoneSurrogate | packages/core-ts/src/canonicalize.ts:46-48 | A lone surrogate is written as the replacement character U+FFFD. |
| Crypto.TextIsWellFormed | packages/core-ts/src/canonicalize.ts:7-40 | Canonical text never holds a lone surrogate, so encoding it loses nothing. |
| Crypto.CanonicalBytesInjective | packages/core-ts/src/canonicalize.ts:46-48 | Equal canonical bytes mean equal values. |
| MerkleLog.NextLevel | packages/core-ts/src/merkle.ts:27-36 | The pairing loop gives the level above: neighbours hashed, an odd last node carried over. |
| MerkleLog.BuildMerkleTree | packages/core-ts/src/merkle.ts:18-39 | Leaves, levels and root of the bottom-up build; the root is that of the recursive tree, zero for the empty list. |
| MerkleLog.SplitIsPowerOfTwo | packages/core-ts/src/merkle.ts:18-39 | The recursive tree splits at a power of two. |
| MerkleLog.SplitUnique | packages/core-ts/src/merkle.ts:18-39 | No other power of two k has k < n <= 2k: it is the largest below n, as in section 2.1 of RFC 6962. |
| MerkleLog.PairUpKeepsRoot | packages/core-ts/src/merkle.ts:27-36 | One level of pairing with odd promotion keeps the root of the recursive tree, for every nonempty level. |
| MerkleLog.VerifyInclusion | packages/core-ts/src/merkle.ts:87-102 | Accepts exactly the proofs whose leaf hash is right, whose sides are left or right, and whose fold is the root. |
| MerkleLog.AuditPathUp | packages/core-ts/src/merkle.ts:59-70 | The recursive audit path of a node is its sibling on this level, if any, and then the audit path of its parent one level up. |
| MerkleLog.BuildInclusionProof | packages/core-ts/src/merkle.ts:41-85 | Fails exactly for an index out of range; otherwise returns the commitment there with the audit path of the recursive tree and the list's root. |
| MerkleLog.BuiltProofsVerify | packages/core-ts/src/merkle.ts:41-102 | Every proof that is built is accepted, for every list, index and hash function. |
| MerkleLog.InclusionIsSound | packages/core-ts/src/merkle.ts:87-102 | Any proof accepted against the root of a list, whatever its path, names the commitment that stands in the list at its leaf index. |
| MerkleLog.RootBindsList | packages/core-ts/src/merkle.ts:18-39 | Equal roots mean equal lists, lengths included. |
| SparseMerkle.ZeroHashes | packages/core-ts/src/nonMembership.ts:25-31 | Entry l is the hash of the empty subtree of height l. |
| SparseMerkle.Index | packages/core-ts/src/nonMembership.ts:41-45 | Depths 1 to 30 only, and the index is below two to the depth; which one it is, is SparseMerkle.IndexIsRemainder. |
| SparseMerkle.IndexIsRemainder | packages/core-ts/src/nonMembership.ts:41-45 | The index is the remainder of the value's digest by two to the depth. |
| SparseMerkle.NextLevel | packages/core-ts/src/nonMembership.ts:49-58 | Building only the parents of present nodes and pruning those that hash like an empty subtree gives, read with the zero hash as default, the whole next level. |
| SparseMerkle.RootFromLeaves | packages/core-ts/src/nonMembership.ts:47-61 | The pruned computation gives the root of the full binary tree, for every leaf map and hash function. |
| SparseMerkle.BuildPath | packages/core-ts/src/nonMembership.ts:63-82 | The siblings are those of the full tree, with the side of each set by the index bit. |
| SparseMerkle.BuildTree | packages/core-ts/src/nonMembership.ts:84-98 | Succeeds exactly when no two different values share an index and the depth is allowed, or there are no values, which any depth takes; every value then stands at its index and nothing else does; which error is returned. |
| SparseMerkle.TreeIsDetermined | packages/core-ts/src/nonMembership.ts:84-98 | The tree depends on the set of values alone, not on order or repetition. |
| SparseMerkle.VerifyProof | packages/core-ts/src/nonMembership.ts:229-255 | Returns true on exactly the proofs that meet every field check and whose fold is the root; throws only for a depth outside 1 to 30. |
| SparseMerkle.AcceptedMeans | packages/core-ts/src/nonMembership.ts:229-255 | What acceptance says of each field: tree, depth and roots are the caller's, the index is the digest's remainder, both commitments, the empty leaf and the seal over the path are the right hashes. |
| SparseMerkle.ProveInclusion | packages/core-ts/src/nonMembership.ts:100-121 | Succeeds exactly for the values in the set; the proof names the value, is sealed as inclusion over root, index, depth and path, and is accepted. |
| SparseMerkle.ProveNonMembership | packages/core-ts/src/nonMembership.ts:123-145 | Succeeds exactly for the values whose index is free; the proof names the value and the empty leaf, is sealed as non-membership, is accepted, and its sides follow the index bits. |
| SparseMerkle.AcceptedProofNamesLeaf | packages/core-ts/src/nonMembership.ts:229-255 | The leaf an accepted proof starts from is the one at the position its sides lead to. |
| SparseMerkle.InclusionIsSound | packages/core-ts/src/nonMembership.ts:229-255 | Accepted inclusion means the value is in the set, whatever the sides. |
| SparseMerkle.NonMembershipIsSound | packages/core-ts/src/nonMembership.ts:229-255 | Accepted non-membership with sides following the index bits means the value is not in the set, and no value with its index is. |
| SparseMerkle.SidesFollowExactly | packages/core-ts/src/nonMembership.ts:63-82 | The sides of a path follow the bits of an index if and only if they lead to it. |
| SparseMerkle.ElsewhereIsAccepted | packages/core-ts/src/nonMembership.ts:229-255 | Without that condition the property fails: for a value of the set and any free position, the proof with the value's index and the free position's path is accepted as non-membership, with no collision. |
| SparseMerkle.NonMembershipHoldsExactly | packages/core-ts/src/nonMembership.ts:229-255 | Every accepted non-membership proof against a tree speaks of a value outside the set if and only if the set is empty or every position is occupied. |
| Layout.HexReads | packages/core-ts/src/crypto.ts:67-73 | Hexadecimal text is 0x and two lower-case digits a byte, and the bytes are read back from it. |
| Layout.WordIsAscii | packages/core-ts/src/crypto.ts:108-111 | The tags are their own UTF-8. |
| Layout.LogLayout | packages/core-ts/src/merkle.ts:10-16 | Byte by byte: tag, zero, eight-byte index and commitment for a leaf; tag, zero, left child and right child for a node. |
| Layout.CommitmentLayout | packages/core-ts/src/crypto.ts:253-267 | Byte by byte: event hash and signature, after tag and zero byte in the current form. |
| Layout.EventLayout | packages/core-ts/src/crypto.ts:131-134 | Tag, zero byte and the canonical bytes of exactly the defined fields but the signature. |
| Layout.OtherLayout | packages/core-ts/src/crypto.ts:143-172 | Receipts, attestations and revocations are hashed under their own tags. |
| Layout.ObjectLayout | packages/core-ts/src/nonMembership.ts:21-23 | Labelled objects are hashed as their tag, a zero byte and their canonical bytes. |
| Layout.BodyFields | packages/core-ts/src/relayStore.ts:292-297 | Under each of its names the hashed checkpoint holds that field; the identity hash is not in it. |
| Layout.SparseFieldsAre | packages/core-ts/src/nonMembership.ts:21-39 | Which label and which named values are hashed for each input of the sparse tree. |
| Layout.SealFieldsAre | packages/core-ts/src/nonMembership.ts:100-145 | What the seal of a sparse proof covers under each name, step by step of the path; inclusion and non-membership differ in the label. |
| Layout.LogMessageInjective | packages/core-ts/src/merkle.ts:10-16 | Leaf and node messages determine kind, index, commitment and children. |
| Layout.LogCollisionFree | packages/core-ts/src/merkle.ts:10-16 | No collision of SHA-256 on the log's byte strings gives no collision on its leaves and nodes. |
| Layout.CommitmentBindsEvent | packages/core-ts/src/crypto.ts:253-267 | A commitment, current or legacy, determines the form, every unsigned field of the event and the signature; across the two forms, for signatures of one length or event hashes that do not begin like a tag. |
| Layout.LogCommitmentBinds | packages/core-ts/src/crypto.ts:131-172 | The commitments a relay logs determine whether they are of an event, a receipt, an attestation or a revocation, and its unsigned fields. |
| Layout.BodyMessageInjective | packages/core-ts/src/relayStore.ts:292-297 | The hashed payload of a checkpoint determines every field of it but signature, settlement transaction and identity hash. |
| Layout.CheckpointCollisionFree | packages/core-ts/src/relayStore.ts:292-297 | No collision of SHA-256 on checkpoint payloads gives no collision on checkpoint bodies. |
| Layout.CheckpointMessageBinds | packages/core-ts/src/relayStore.ts:292-304 | Across the current and the legacy form, the hashed payload determines every field of the body but the settlement backend. |
| Layout.SparseMessageInjective | packages/core-ts/src/nonMembership.ts:21-39 | Labelled canonical objects determine label and contents, across all labels. |
| Layout.SparseCollisionFree | packages/core-ts/src/nonMembership.ts:21-39 | No collision of SHA-256 on those objects gives no collision on the sparse tree's inputs. |
| Sorting.SortKeepsMembers | packages/core-ts/src/consistency.ts:6-22 | The sort returns the same elements with the same multiplicities in key order. |
| Sorting.SortIsStable | packages/core-ts/src/consistency.ts:6-22 | Elements with equal keys keep their order. |
| Consistency.VerifyProof | packages/core-ts/src/consistency.ts:30-40 | Accepts exactly the proofs of two or more links with matching ends in which each link names the hash before it at a later epoch. |
| Consistency.BuildsExactly | packages/core-ts/src/consistency.ts:6-22 | A proof is built if and only if there are two or more checkpoints and all are of one shard, which it then names; fewer than two is the other error. |
| Consistency.BuiltProofAccepted | packages/core-ts/src/consistency.ts:6-40 | A built proof is accepted if and only if the checkpoints in epoch order form a hash chain with strictly rising epochs. |
| Consistency.NoForks | packages/core-ts/src/consistency.ts:6-40 | Of two lists whose built proofs are accepted with the same end, the shorter is a suffix of the longer, up to the fields the hash leaves out. |
| Consistency.RootedChainsEqual | packages/core-ts/src/consistency.ts:6-40 | Two chains from the zero hash with the same last hash are the same chain. |
| CheckpointTable.QueryLatestBefore | packages/core-ts/src/persistence/postgres.ts:712-719 | The row found is the shard's latest before the epoch; none is found exactly when there is none. |
| CheckpointTable.QueryEarliestAfter | packages/core-ts/src/persistence/postgres.ts:636-642 | The row found is the shard's earliest after the epoch; none is found exactly when there is none. |
| CheckpointTable.Repository.InsertCheckpoint | packages/core-ts/src/persistence/postgres.ts:623-685 | New table and outcome of one atomic insert: both chain checks, conflict, duplicate hash, and settlement of a repeated row. |
| CheckpointTable.Repository.MarkCheckpointSettled | packages/core-ts/src/persistence/postgres.ts:927-939 | New table and outcome: only settlement fields of the one row change, and only if the identity hash matches. |
| CheckpointTable.InsertDecides | packages/core-ts/src/persistence/postgres.ts:623-685 | An insert fails for the chain if and only if it does not name the hash before it or the row after does not name it, then exactly for a conflicting or a taken hash; a failure changes nothing, a new row holds what was given, an old one is at most settled. |
| CheckpointTable.SettleDecides | packages/core-ts/src/persistence/postgres.ts:927-939 | Settling succeeds if and only if the row is there with the same identity; it is then marked settled with the caller's transaction, and nothing else changes. |
| CheckpointTable.InsertKeepsInv | packages/core-ts/src/persistence/postgres.ts:623-685 | An insert keeps every row, in every shard, naming the hash of the shard's row before it, the first one zero. |
| CheckpointTable.SettleKeepsInv | packages/core-ts/src/persistence/postgres.ts:927-939 | Settling keeps the chains. |
| CheckpointTable.RunKeepsInv | packages/core-ts/src/persistence/postgres.ts:623-685 | The chains hold after every run of inserts and settlements from the empty table. |
| CheckpointTable.NoInsertBefore | packages/core-ts/src/persistence/postgres.ts:632-645 | With a later row in the shard, a checkpoint for a new epoch is refused. |
| CheckpointTable.AcceptedInsert | packages/core-ts/src/persistence/postgres.ts:623-685 | An accepted insert comes after the shard's latest epoch, or repeats a row with the same hash and so the same body. |
| CheckpointTable.ShardRowsExact | packages/core-ts/src/persistence/postgres.ts:762-790 | The list read for a shard holds its rows up to the epoch, all of them and no others. |
| CheckpointTable.ShardRowsChained | packages/core-ts/src/persistence/postgres.ts:762-790 | The list read for a shard is a hash chain from zero with strictly rising epochs. |
| CheckpointTable.BuildConsistencyProofFor | packages/core-ts/src/persistence/postgres.ts:762-790 | With two or more rows, and only then, a proof is returned; its links are those of the listed rows, one by one, and the verifier accepts it. |
| CheckpointTable.RepositoriesAgree | packages/core-ts/src/persistence/postgres.ts:623-685 | Two repositories whose last checkpoints of a shard hash alike hold the same checkpoints of that shard up to there. |
| RelayStore.InMemoryRelayStore.BeginAcceptEvent | packages/core-ts/src/relayStore.ts:91-108 | The checks before the await, in their order; nothing changes. |
| RelayObjects.FirstChecks | packages/core-ts/src/relayStore.ts:91-108 | An event gets past them if and only if it is well formed, its time is within the window on either side and its nonce key is unused; a refusal's reason is true. |
| RelayObjects.NonceKeyBinds | packages/core-ts/src/relayStore.ts:105-105 | The nonce key determines sender, key id and nonce where the latter two hold no colon. |
| RelayObjects.SegmentHoldsTime | packages/core-ts/src/relayStore.ts:115-116 | The epoch is the multiple of the duration whose span holds the time, before 1970 too; the shard is the owner's. |
| RelayStore.InMemoryRelayStore.FinishAcceptEvent | packages/core-ts/src/relayStore.ts:110-137 | New state after verification has answered: the event gets the next index of its segment and uses up its nonce, or nothing changes. |
| RelayStore.InMemoryRelayStore.AcceptLogObject | packages/core-ts/src/relayStore.ts:139-179 | New state for a receipt, attestation or revocation; refused for a closed segment. |
| RelayStore.InMemoryRelayStore.CheckpointFor | packages/core-ts/src/relayStore.ts:205-242 | The settled checkpoint if there is one, otherwise a new one; its fields are the subject of RelayObjects.OpenCheckpoint and RelayChain.PreviousIsLatest. |
| RelayObjects.OpenCheckpoint | packages/core-ts/src/relayStore.ts:205-242 | An open segment's checkpoint has the root of each of the four lists under its own name, both counts, the segment's header, and an identity hash and signature over its body. |
| RelayObjects.ObjectChangesItsRoot | packages/core-ts/src/relayStore.ts:139-242 | Accepting an object of one kind leaves the event root, the event count and the roots of the other kinds as they were; the receipt count grows by one exactly for a new receipt. |
| RelayObjects.ObjectIsNumbered | packages/core-ts/src/relayStore.ts:139-179 | A new object gets the next number of its segment, which stays numbered, and goes to the end of its kind's list. |
| RelayObjects.ObjectIsProvable | packages/core-ts/src/relayStore.ts:139-242 | The inclusion proof built for a new object at its log index is accepted against the root of its kind in the checkpoint the segment then has. |
| RelayObjects.EventChangesItsRoot | packages/core-ts/src/relayStore.ts:110-242 | Accepting an event changes no other root and no receipt count; the event count grows by one exactly for a new event. |
| RelayObjects.PutCounts | packages/core-ts/src/relayStore.ts:134-135 | Setting an entry makes its segment's list longer by one, or not at all for a commitment that was there. |
| RelayStore.InMemoryRelayStore.FinishSubmitCheckpoint | packages/core-ts/src/relayStore.ts:244-258 | New state after the backend's reply: the segment closed with its commitments and the reply stored, unless another identity was settled before. |
| RelayStore.StepKeeps | packages/core-ts/src/relayStore.ts:91-179 | Every step between awaits keeps closed and settled segments the same, recorded commitments equal to the current ones, and closed segments unchanged. |
| RelayStore.ClosedSegmentsAreFinal | packages/core-ts/src/relayStore.ts:91-264 | Over every interleaving and every reply, a closed segment's events, receipts, attestations and revocations never change and its checkpoint's identity hash is written once. |
| RelayStore.SerialRunsKeepInv | packages/core-ts/src/relayStore.ts:91-258 | In every run of whole calls, each segment's log indexes are 0 to n-1, no two events share a nonce key, and settled checkpoints carry the root of the events they closed. |
| RelaySchedules.CallsAreRuns | packages/core-ts/src/relayStore.ts:91-258 | A run of whole calls is a run of the actions between awaits: the same store, and nothing left waiting. |
| RelaySchedules.StepIsExact | packages/core-ts/src/relayStore.ts:110-258 | From a state with these three properties, a step keeps them if and only if an event it adds has an unused nonce and a reply it stores, whatever the backend made of it, is for the segment and carries the root of its current events. |
| RelaySchedules.RunIsExact | packages/core-ts/src/relayStore.ts:91-258 | Over every interleaving and every reply, even one with other contents, the three properties hold all along a run if and only if every step of it meets that condition. |
| RelayTimeline.CurrentMeansSame | packages/core-ts/src/relayStore.ts:205-258 | A checkpoint made from one state is still current in another if and only if the segment holds the same events in both. |
| RelayTimeline.ScheduleIsExact | packages/core-ts/src/relayStore.ts:91-258 | Where the backend changes nothing that is hashed, the three properties hold all along a run if and only if no event with the nonce key of an added event was added between that accept's beginning and its end, and no event of a segment between the sending of a stored reply's checkpoint and the reply. |
| RelaySchedules.OrderlyRunsKeepInv | packages/core-ts/src/relayStore.ts:91-258 | They hold in every interleaving in which no two waiting accepts share a nonce key, no accept is taken up while a submit of its segment waits, and the backend changes nothing that is hashed. |
| RelaySchedules.WholeCallsAreOrderly | packages/core-ts/src/relayStore.ts:91-258 | Every action of every run of whole calls is orderly in this sense. |
| RelaySchedules.OfferedTwice | packages/core-ts/src/relayStore.ts:91-137 | They fail otherwise: one event offered twice before the first offer is verified ends as one event numbered 1 in a list of length 1. |
| RelaySchedules.AcceptedLate | packages/core-ts/src/relayStore.ts:244-258 | They fail otherwise: an event accepted between sending its segment's checkpoint and the reply is closed under a root that does not cover it. |
| RelayBinding.RunsAreFixed | packages/core-ts/src/relayStore.ts:91-179 | Collision-free SHA-256 on what is hashed for the objects of a run gives the two functions the run theorems assume: commitment to segment, and commitment to nonce key. |
| RelayStore.EventAtLogIndex | packages/core-ts/src/relayStore.ts:260-264 | An accepted event stands in its segment's list at its log index. |
| RelayStore.SubmittedRoot | packages/core-ts/src/relayStore.ts:205-242 | The checkpoint of a segment, open or settled, carries the root of the segment's current events and the segment's epoch and shard. |
| RelayChain.PreviousIsLatest | packages/core-ts/src/relayStore.ts:276-281 | The hash a new checkpoint names is that of a settled one of its shard with the greatest earlier epoch, and zero if there is none. |
| RelayChain.PreviousAgrees | packages/core-ts/src/relayStore.ts:276-281 | It is the hash that the checkpoint table asks for. |
| RelayChain.NewRowIsExact | packages/core-ts/src/persistence/postgres.ts:623-685 | A checkpoint that names its predecessor is taken by the table, and keeps the chains, if and only if its shard has no later row. |
| RelayChain.CallIsExact | packages/core-ts/src/relayStore.ts:205-258 | A whole call keeps the settled checkpoints of every shard a hash chain from zero if and only if a segment it settles for the first time comes after all settled ones of its shard; exactly then would the table take its checkpoint. |
| RelayChain.ChainsExactly | packages/core-ts/src/relayStore.ts:205-258 | Over every run of whole calls the chains hold all along if and only if every segment is settled in that order. |
| RelayChain.ShardIsChained | packages/core-ts/src/relayStore.ts:205-258 | Where they hold, a shard's settled checkpoints in epoch order form the chain that consistency proofs are built from. |
| RelayStore.InMemoryRelayStore.ProofFor | packages/core-ts/src/relayStore.ts:185-203 | Finds every accepted event and, in every run of whole calls, before and after settlement, returns an accepted proof whose root is the checkpoint's event root. |
| Verifier.VerifyTsl | packages/core-ts/src/verifier.ts:1469-1525 | Verified if and only if the other checks hold on the recorded ones, what is present is well formed, the checkpoint is valid and signed, a required relay authorization is found true, and required inclusion and checkpoint match hold; every recorded check of this part is determined. |
| Verifier.VerifiedMeans | packages/core-ts/src/verifier.ts:1469-1525 | Verified means: a checkpoint that is there is well formed, signed and not under another identity; a required relay is one of those listed; a required proof is of the event tree and of the envelope's own commitment. |
| Verifier.CheckProof | packages/core-ts/src/verifier.ts:509-523 | The inclusion checks hold exactly for accepted proofs of the kind in question and, for events, of the envelope's current or legacy commitment. |
| Verifier.CheckCheckpoint | packages/core-ts/src/verifier.ts:1374-1413 | The checkpoint is valid exactly when well formed with no other identity hash, and matches the proof exactly when header, hash and root of the proof's kind agree. |
| Verifier.MatchMeans | packages/core-ts/src/verifier.ts:1374-1413 | A matching proof has the checkpoint's epoch, duration, shard and hash, and its root is the one of the proof's own kind. |
| Verifier.VerifiedIsLogged | packages/core-ts/src/verifier.ts:1405-1525 | Verified with inclusion and checkpoint required means that the envelope's commitment stands, at the proof's leaf index, in the list behind the event root. |
| Verifier.LoggedEventIsEnvelope | packages/core-ts/src/verifier.ts:432-433 | The event that was logged at that index is the verified envelope, every field and the signature. |
| Verifier.SameHashSameCheckpoint | packages/core-ts/src/verifier.ts:56-58 | Two inputs verified with the same checkpoint hash, each in the current or the legacy form, were verified against the same checkpoint up to the settlement backend. |
| Verifier.SameSlotSameEvent | packages/core-ts/src/verifier.ts:1405-1525 | Two verified envelopes whose proofs name the same checkpoint hash and leaf index are the same signed event. |
| Verifier.RelayProofPasses | packages/core-ts/src/relayStore.ts:185-203 | After every run of the relay whose steps fit, its answer for any accepted event passes the inclusion and checkpoint checks, but for an identity hash replaced by the backend. |
| Verifier.ObjectProofPasses | packages/core-ts/src/verifier.ts:509-523 | The proof of a receipt, attestation or revocation newly accepted by the relay passes the verifier's checks for its kind and matches the checkpoint. |
| Graph.ProjectedGraphArcs | packages/core-ts/src/v2.ts:842-856 | The arcs of every edge in order: none for weight zero, both ways unless directed or a loop. |
| Graph.ArcsOfIs | packages/core-ts/src/v2.ts:830-856 | Which arcs an edge has: its ways, with its weight, negated for a negative edge if signed, and none otherwise or if it is zero. |
| Graph.EffectiveWeightIs | packages/core-ts/src/v2.ts:817-828 | Positive edges count in full; negative ones are capped at the policy's limit by default, in full if signed or without a profile, and not at all if ignored. |
| Graph.ScaledStep | packages/core-ts/src/v2.ts:817-822 | Each multiplier that is there takes its share of the weight, rounded down, in order. |
| Graph.GraphLinksAre | packages/core-ts/src/v2.ts:867-890 | Components are found along the edges that are not negative, of positive weight at or above the floor, from listed nodes. |
| Graph.ConnectedComponents | packages/core-ts/src/v2.ts:867-890 | The stack search ends, and every node gets the rank of the least listed node that reaches it, for every graph. |
| Graph.SameNumberSharesRoot | packages/core-ts/src/v2.ts:867-890 | For every graph, directed or not, two nodes get the same number if and only if the same node is the least to reach them. |
| Graph.ComponentsAreExact | packages/core-ts/src/v2.ts:842-890 | Undirected with all endpoints listed: same number if and only if joined by a walk of arcs at or above the floor; numbers follow the order of least nodes. |
| Graph.UndirectedLinks | packages/core-ts/src/v2.ts:842-856 | The undirected projection is symmetric. |
| SeedDistance.ShortestSeedDistance | packages/core-ts/src/v2.ts:1161-1177 | The least number of arcs at or above the floor to any seed, and nothing if and only if none is reachable, although it returns when a seed is first seen. |
| SeedDistance.SeedLinksAre | packages/core-ts/src/v2.ts:1161-1177 | Seeds are looked for along the edges of a weight that is not zero and at or above the floor. |
| Community.NormalizeCommunityIds | packages/core-ts/src/v2.ts:962-971 | The result groups the nodes as before and is numbered in order of first occurrence. |
| Community.CanonicalIsUnique | packages/core-ts/src/v2.ts:962-971 | The same partition of the same nodes has one such numbering. |
| Community.CanonicalUsesAll | packages/core-ts/src/v2.ts:962-971 | The numbers used are exactly those from 0 up to the number of communities. |
| Louvain.ScanBounds | packages/core-ts/src/v2.ts:1057-1067 | The score kept is that of the move kept; for tolerance >= 0 it does not fall and no candidate beats it by more than the tolerance; a move goes to a candidate. |
| Louvain.ScanGains | packages/core-ts/src/v2.ts:1057-1067 | For tolerance >= 0 a node moves only for a gain above the tolerance, or to a smaller number at the same score. |
| Louvain.OtherEndIs | packages/core-ts/src/v2.ts:1053-1056 | The neighbours of a node are the other ends of its edges, in either direction. |
| Louvain.ScanIsBest | packages/core-ts/src/v2.ts:1057-1067 | Without tolerance the move kept is the best and, among the best, the one with the least number. |
| Louvain.BestMove | packages/core-ts/src/v2.ts:1057-1067 | The loop keeps what the scan of the candidates keeps, for every tolerance. |
| Louvain.MovesToNeighbour | packages/core-ts/src/v2.ts:1052-1072 | A node that moves goes to the community of a neighbour. |
| Louvain.MoveNode | packages/core-ts/src/v2.ts:1052-1072 | The loop body is one turn; the score stays the modularity of the assignment, and a move is reported exactly when something changed. |
| Louvain.LouvainPass | packages/core-ts/src/v2.ts:1051-1073 | The inner loop is the turns of all nodes in order; it reports no change exactly when no turn moved its node. |
| Louvain.LouvainModularity | packages/core-ts/src/v2.ts:1042-1079 | The result is the assignment after the passes up to the first quiet one or the limit, with their number and its modularity; it is canonical after any pass. |
| Louvain.EndIsUnique | packages/core-ts/src/v2.ts:1048-1077 | A run has one end, so the contract determines the result. |
| Louvain.PassesNeverFall | packages/core-ts/src/v2.ts:1042-1079 | For tolerance >= 0 modularity never falls from one pass to a later one. |
| Louvain.AboveSingletons | packages/core-ts/src/v2.ts:1042-1079 | For tolerance >= 0 every later assignment scores at least what all singletons score. |
| Louvain.EndsInOptimum | packages/core-ts/src/v2.ts:1042-1079 | For tolerance >= 0 a run that ends before its limit ends where no single move to a neighbour's community gains more than the tolerance. |
| Louvain.OptimumIsPartitionOnly | packages/core-ts/src/v2.ts:1074-1075 | Renumbering communities keeps a local optimum one. |
| Leiden.SplitCommunity | packages/core-ts/src/v2.ts:1093-1098 | The parts of a coarse community are the components of its edges at or above the threshold, directed or not. |
| Leiden.Refine | packages/core-ts/src/v2.ts:1085-1108 | Whatever the coarse partition: every node is assigned once, the result refines it, and its parts are exactly what the inner links hold together. |
| Leiden.RefinementIsUnique | packages/core-ts/src/v2.ts:1085-1108 | A coarse partition has one such refinement, and one canonical numbering of it. |
| Leiden.LeidenRefinement | packages/core-ts/src/v2.ts:1081-1113 | The result is that refinement of the partition the Louvain run ends with. |
| Leiden.CommunitiesAreConnected | packages/core-ts/src/v2.ts:1081-1113 | Two nodes of a refined community are joined by a walk that stays inside that community. |
| Leiden.InnerLinksAreEdges | packages/core-ts/src/v2.ts:1093-1097 | The links used are the community's edges of positive weight at or above the refinement threshold, and all of them. |
| Leiden.DefaultsAre | packages/core-ts/src/v2.ts:1082-1084 | Missing settings: tolerance 0, 20 passes, floor 1000, and the floor as refinement threshold. |
| Modularity.UndirectedPositiveMass | packages/core-ts/src/v2.ts:1008-1019 | The table holds each linked pair once, and whatever is summed over it gives the same as summed over the edges. |
| Modularity.PairIsUnordered | packages/core-ts/src/v2.ts:1008-1019 | Two edges have one entry if and only if they join the same two nodes, in whatever direction. |
| Modularity.MassIs | packages/core-ts/src/v2.ts:1008-1019 | Mass comes from edges between different nodes that are not negative and reach the floor, with their effective weight. |
| Modularity.Degrees | packages/core-ts/src/v2.ts:1023-1030 | Every node's degree and the total mass are the sums over the table. |
| Modularity.ComputeModularityBps | packages/core-ts/src/v2.ts:1021-1040 | The accumulated score is the inside share of the mass less the expected share, from sums over edges and pairs, in clamped basis points. |
| Modularity.QualityOfPair | packages/core-ts/src/v2.ts:1032-1040 | Two joined nodes score one half in one community and nothing in two. |
| Modularity.QualityOfInside | packages/core-ts/src/v2.ts:1032-1040 | More mass inside communities raises the quality by its share of the total. |
| Modularity.ModularityIsPartitionOnly | packages/core-ts/src/v2.ts:1021-1040 | Modularity depends on the partition alone, as the passes require. |
| FixedPoint.FixedPointSqrt | packages/core-ts/src/v2.ts:1748-1760 | r with r*r <= v < (r+1)*(r+1) for every v >= 0, and 0 below. |
| FixedPoint.InvertRegularizedMatrixFixed | packages/core-ts/src/v2.ts:1762-1786 | In place on the augmented matrix: a result is the right block of the elimination, whose left block is then exactly 1,000,000 times the identity; null on a square matrix only at a column with no nonzero candidate. How the result relates to the input is FixedPoint.InverseWithinBounds. |
| FixedPoint.StartIsRegularized | packages/core-ts/src/v2.ts:1766-1769 | The elimination starts from the input with the regularization added on the diagonal, beside the identity. |
| FixedPoint.TruncDivTowardZero | packages/core-ts/src/v2.ts:1778-1782 | Division rounds toward zero: the quotient's sign is the exact one's, and no larger quotient fits. |
| FixedPoint.LeftBlockIsIdentity | packages/core-ts/src/v2.ts:1762-1786 | After any number of columns, those columns are 1,000,000 times the identity's, despite truncating divisions and row swaps. |
| FixedPoint.NoStepMeansNoCandidate | packages/core-ts/src/v2.ts:1762-1786 | A column step fails if and only if the column is zero on and below the diagonal. |
| FixedPoint.ExactRunInverts | packages/core-ts/src/v2.ts:1762-1786 | When no division left a remainder, the result times the input with the regularization on its diagonal is 1,000,000 times the identity. |
| FixedPoint.InverseWithinBounds | packages/core-ts/src/v2.ts:1762-1786 | For every run that goes through, truncating or not, the result times the input with the regularization on its diagonal differs from 1,000,000 times the identity by at most bounds computed from the run's pivots and factors. |
| Score.PreparePoints | packages/core-ts/src/v2.ts:379-385 | The clamped points in raw order, or an error exactly when raw values repeat or calibrated values fall. |
| Score.Calibrate | packages/core-ts/src/v2.ts:386-398 | The loop computes the function of the points that the next four rows determine. |
| Score.CalibrationOnLine | packages/core-ts/src/v2.ts:386-398 | From each point to the next, calibration is the straight line through the two, rounded down. |
| Score.CalibrationAtEnds | packages/core-ts/src/v2.ts:386-398 | Up to the first point calibration is its calibrated value, and from the last point on that one's. |
| Score.CalibrationMonotone | packages/core-ts/src/v2.ts:379-398 | For every profile that passes the check, calibration is monotone and stays within 0 to 10000. |
| Score.CalibrationHitsKnots | packages/core-ts/src/v2.ts:386-398 | Calibration takes every point's raw value to its calibrated value exactly. |
| Score.ComputeReferenceScore | packages/core-ts/src/v2.ts:363-474 | The first failing gate decides a refusal; otherwise the score is the calibrated raw score and lies inside its interval, within 0 to 10000. |
| Score.RefusalMeans | packages/core-ts/src/v2.ts:363-371 | A refusal names the first of the six labels whose gate fails, and only that. |
| Score.PassingMeans | packages/core-ts/src/v2.ts:363-371 | No refusal if and only if every gate is passed; inclusion, checkpoint and delegation pass when not reported, a required settlement does not. |
| Score.WidthIs | packages/core-ts/src/v2.ts:438-438 | The interval's width is the given one within its limits. |
| Score.WeightedScore | packages/core-ts/src/v2.ts:373-378 | The clamped sum of floored shares less the coverage penalty. |
| Score.ShareIs | packages/core-ts/src/v2.ts:373-378 | A feature's share is its clamped value times its clamped weight over 10000, rounded down; a missing one has none. |
| Score.PenaltyIs | packages/core-ts/src/v2.ts:373-378 | The penalty is the missing coverage times its weight over 10000, rounded down; the weight is 1000 unless set. |
| Score.ScoreMonotone | packages/core-ts/src/v2.ts:363-399 | With the gates passed, raising features or coverage closes no gate and never lowers the score. |
| Delegation.VerifyDelegatedAgentAction | packages/core-ts/src/v2.ts:2199-2328 | Accepts if and only if the action and every policy of the chain meet a declarative condition; returns the collected scope; a rejection names something that is true of the action or of some policy. |
| Delegation.AcceptedPolicy | packages/core-ts/src/v2.ts:2199-2328 | Of an accepted chain, every policy is signed by its principal, not revoked, and valid at the action's time. |
| Delegation.AcceptedAllow | packages/core-ts/src/v2.ts:2199-2328 | Of an accepted chain, every allow policy covers action and resource and, above the last one, lets the action be delegated to its depth. |
| Delegation.AcceptedConstraints | packages/core-ts/src/v2.ts:2199-2328 | Of an accepted chain, tool, currency, counterparty, count, value and approval meet every allow policy's constraints. |
| Delegation.ResourceMatchesIs | packages/core-ts/src/v2.ts:2178-2188 | A star at the end of a pattern stands for anything; without it only the same text matches. |
| Delegation.ValueIs | packages/core-ts/src/v2.ts:2194-2197 | The value is the action's, else the parameters', else zero, and never below zero. |
| Delegation.CollectedHolds | packages/core-ts/src/v2.ts:2312-2323 | The final checks on the collected scope hold if and only if every allow policy matches, its limit covers the value, and approval is there where it asks for it. |
| Delegation.AllowChains | packages/core-ts/src/v2.ts:2199-2328 | For allow chains the condition, in chain order: unbroken principal-to-agent path with parent ids, subdelegation at every policy but the last, and every policy's own checks. |
| Delegation.DenyWins | packages/core-ts/src/v2.ts:2253-2255 | A matching deny at any place of any chain means not authorized. |
| Delegation.AcceptedAndAllowed | packages/core-ts/src/v2.ts:2199-2328 | For every accepted chain, matching allow policies lead from the action's principal to the agent if and only if some allow policy of the chain is the principal's own. |
| Delegation.OnlyDenyAccepted | packages/core-ts/src/v2.ts:2253-2256 | A chain of one deny policy that does not match is accepted, with an empty scope. |
| Delegation.DelegateAloneAccepted | packages/core-ts/src/v2.ts:2253-2256 | A non-matching deny of the principal followed by an allow of its delegate is accepted. |

## Left out

- HTTP services, command line, browser clients, SDK stores, the queue, Ethereum calls: input and output around libraries.
- SHA-256, Ed25519, HMAC, Groth16, receipt tries: arbitrary functions or given outcomes.
- JSON-schema validation: a given boolean.
- The other checks of the verifier: one arbitrary condition on the recorded checks.
- Floating-point features (entropy, saturation, decay, PageRank, bootstrap width): given numbers.
- SQL beyond the checkpoint table, migrations, transactions, wall-clock time: map operations and parameters. The primary key on the checkpoint hash is modelled as a refused insert.
- Score labels, risk codes, drift and Sybil tables, metadata buckets: threshold tables read off one branch.
- JavaScript numbers beyond the safe integers: integers are unbounded where the source does not check; counts and indexes that could exceed them do not occur in practice.
- Sparse arrays, `__proto__` keys and objects with a foreign prototype: canonical values are plain arrays and objects; anything else is `Unsupported`.
- Hexadecimal text in upper case or without its prefix: hashes are their 32 bytes, and hashed text is the lower-case form the code produces.
- Timestamps of receipts, attestations and revocations that do not parse: `RelayStore.InMemoryRelayStore.AcceptLogObject` takes a parsed time.
- The string that joins epoch and shard to a store key, and the one that joins two node ids to a pair key: pairs. An epoch in decimal holds no colon, so the first is no loss; node ids with a NUL character are not modelled.
- Modularity.ComputeModularityBps: real arithmetic instead of IEEE doubles, since rounding is not the point; `resolution` is a parameter. The greedy passes take any function of assignments, so they cover the rounded one as well.
- RelayStore.SerialRunsKeepInv: speaks of runs of whole calls; overlapping calls are the subject of RelaySchedules.RunIsExact and RelayTimeline.ScheduleIsExact.
- Layout.CommitmentBindsEvent: a current commitment of one event can be a legacy commitment of another only if their signatures differ in length and an event hash begins with the commitment tag; that case is left out.
- SparseMerkle.NonMembershipIsSound: assumes sides that follow the index bits, which the verifier does not check; what holds without that is SparseMerkle.NonMembershipHoldsExactly.
- Delegation.VerifyDelegatedAgentAction: the returned commitment is modelled as the scope it hashes. A policy date that does not parse bounds nothing, as comparisons with NaN are false in the code.
- Weights under the negative-edge treatment "ignore": the code gives every edge, positive ones too, signed weight 0, and so does the model.
- `Repository` rows keep the checkpoint body as one value rather than column by column.
