# A Dafny model of a redactable-ledger fork of Hyperledger Fabric

The project models the parts of the system whose correctness is not visible from any one function, and proves what they are for.

- **Channel configuration** (`ConfigTree`, `ConfigMap`, `ConfigMapLoops`, `ConfigUpdate`, `ConfigReach`, `ConfigValidator`). A configuration tree is flattened to a map from paths to elements, updates carry a read set and a write set, and an accepted update is laid over the old map and folded back to a tree. Go's map iteration is an arbitrary choice at every step of every loop.
- **Block store** (`BlockFile`, `BlockStore`, `BlockfileMgr`, `BlockSerialization`). Blocks written as bytes and read back, length-prefixed records in rolling files, a summary saved with or without sync, a scan on restart, an index rebuilt from its save point. A disk carries what is synced and which summaries may have reached it, and a crash may leave any prefix of the unsynced part. The manager records every disk it ever leaves behind, and each of them is proved safe to crash on.
- **Identity Mixer** (`ModArith`, `Idemix`, `IdemixScheme`, `IdemixOps`, `IdemixSoundness`). Credentials and signatures of knowledge over them. G1, G2 and GT are Z_q written additively with the product as pairing. Honest signatures verify, and accepted signatures give away a credential in the sense of special soundness.
- **Chameleon hash** (`Chameleon`, `ChameleonSteps`). Hash and trapdoor collision, as functions and as the step-by-step code.
- **Policies** (`SignaturePolicy`, `SignatureSet`, `GateExact`, `PolicyConvert`, `ImplicitMeta`, `ConvertExact`, `PolicyWitness`, `PolicyManager`). The greedy evaluator of signature policies, the deduplication of signers, the translation of implicit meta policies to signature policies, and lookup by path.
- **Caches and access checks** (`AuthCache`, `Deliver`, `LoggerLevels`). The eligibility cache as a transition system in which every lock region and every read of the configuration sequence is one step, the delivery loop with its session access control, and the logger levels.
- **Threshold trees** (`Combinations`, `Permutations`, `PermuteExact`). Choosing k of n with the storage sharing of Go's `append` modelled, pruning, and the expansion of a tree into all its choices.

Code that works by expressions is modelled by functions and lemmas, code that updates state by methods and classes whose contracts tie them to those functions. `dafny verify dfyconfig.toml` checks the whole project.

Some properties turned out not to hold as one would state them first. The lemmas give the condition under which they do; it is exact except where a sentence below or the last section says that it is sufficient.

- Moving to the next file is crash safe exactly when a block has been written (`MoveIsSafeIff`), so adding a block is crash safe exactly when it is not a first block too large for a file (`AddBlock`).
- The greedy evaluator of signature policies can refuse although a satisfying subtree of different unused signers exists. It finds one whenever there is one if at every gate that asks for two or more the sub-rules share no identity, or are signatures of which an earlier one that shares an identity with a later one is the narrower (`AcceptsIffProved`, sufficient). For a gate that asks for all of any number of signatures that is exact, unless one of them nobody can give (`AllOfExact`). It misses in two ways: the order of the signers (`OrderMatters`), and a gate that takes more signers than it needs (`GateTakesTooMany`).
- A converted implicit meta policy is the policy run from left to right on shared marks (`ConvertMeaning`). It accepts the same lists if sub-policies share no identity wherever the threshold is two or more (`ConvertKeeps`, sufficient), so always for ANY, and for ALL and MAJORITY if nothing is shared (`RuleKeeps`). For sub-policies of one signature each the condition is exact (`LeafyExact`): a threshold of one is always safe, a larger one that can be reached is not once an identity is shared. Sharing only makes it refuse more as long as no gate is inside a gate (`OnlyStricter`), and can make it accept more otherwise (`ConvertTooLax`). A threshold of zero over sub-policies, which an undeclared rule gives, is treated differently by the two sides (`ZeroThreshold`).
- Choosing k of n loses lists to shared storage: from the length on at which the last array is made, only the last numbers are left (`ListsAre`). So every subset is listed exactly when the append that completes a list takes a new array or there is nothing to choose (`ListsExact`); with doubling capacities it first loses a choice of four out of five (`FourOfFive`). Expanding a tree gives exactly the trees over the lists that are left (`Permute`), which is every tree the thresholds allow exactly when no vertex such a tree can hold loses a list (`FittingIsOffered`).
- The position kept while reading a block is that of the block as it would be written (`ReadBlock`), not that of the bytes read: the two agree exactly when the bytes are what SerializeBlock writes, bits of the number beyond the 64th aside, which are dropped (`PositionExact`, `PaddedReads`).
- Signers are told apart by a key that joins two names without a separator: all of them are kept exactly when signers with the same key have ids of the same length (`SignersKept`).
- A disclosed revocation handle makes signing panic exactly when nothing after it is hidden either (`SignOutcome`).
- Activating the string that Spec() prints gives the same specification exactly when no level in it is payload, and is refused otherwise (`SpecRoundTrip`).
- An absolute policy path is checked to begin with the manager's path but not to go on with a slash (`AbsoluteExact`, `AbsoluteMisreads`).

Where documentation and code differ the code was followed: `compile` asks for deduplicated identities and says nothing of order, but whether a list is accepted depends on its order (`OrderMatters`); `SessionAccessControl` is said to cache the decision, but after a refusal at a sequence it accepts the next call at that sequence without asking (`RefusedThenAccepted`); and `addMetadataBytes` counts missing metadata as no items and then reads it, so SerializeBlock stops there (`SerializeBlock`).

## Model

| member | source | states |
|---|---|---|
| `ConfigTree.GroupPathsExact` | common/configtx/configmap.go:74-101 | the paths a walk of the tree reaches are exactly those at which there is a group |
| `ConfigMap.FqPathInjective` | common/configtx/configmap.go:44-71 | for legal keys, equal map keys mean equal kind and equal path |
| `ConfigMap.FlattenExact` | common/configtx/configmap.go:74-101 | a legal path is a key of the flattened tree if and only if the tree has the element |
| `ConfigMap.RoundTripAt` | common/configtx/configmap.go:112-157 | every subtree comes back, at its own path, out of the map of the whole tree |
| `ConfigMap.FillTwice` | common/configtx/configmap.go:166-187 | setting empty mod_policies is idempotent on whole trees |
| `ConfigMap.CapabilitiesKey` | common/configtx/configmap.go:166-166 | the capabilities key is in the map of a tree exactly when the tree has that element under that root |
| `ConfigMap.RoundTrip` | common/configtx/configmap.go:32-190 | mapping a legally keyed tree to paths and back gives the same tree, or with the orderer's capabilities the tree with empty mod_policies filled; a second pass changes nothing |
| `ConfigMapLoops.JoinedPath` | common/configtx/configmap.go:60-64 | both ways of putting a path together give the same key |
| `ConfigMapLoops.Accumulator.AddToMap` | common/configtx/configmap.go:44-71 | files the element under its path, or refuses exactly the illegal keys and leaves the map alone |
| `ConfigMapLoops.Accumulator.AddGroups` | common/configtx/configmap.go:79-86 | in any order, adds exactly the flattened subgroups, failing exactly on an illegal key below |
| `ConfigMapLoops.Accumulator.AddValues` | common/configtx/configmap.go:88-92 | in any order, adds exactly the values |
| `ConfigMapLoops.Accumulator.AddPolicies` | common/configtx/configmap.go:94-98 | in any order, adds exactly the policies |
| `ConfigMapLoops.Accumulator.RecurseConfig` | common/configtx/configmap.go:74-101 | in any order, adds exactly the flattened tree, failing exactly when a key is illegal |
| `ConfigMapLoops.MapConfigInOrder` | common/configtx/configmap.go:32-41 | the result does not depend on the order of the walk |
| `ConfigMapLoops.RebuildGroups` | common/configtx/configmap.go:126-132 | in any order, rebuilds every subgroup or reports that one cannot be |
| `ConfigMapLoops.RebuildValues` | common/configtx/configmap.go:134-144 | in any order, takes every value from the map or reports a missing or misplaced one |
| `ConfigMapLoops.RebuildPolicies` | common/configtx/configmap.go:146-157 | in any order, takes every policy from the map or reports a missing or misplaced one |
| `ConfigMapLoops.UpgradeModPolicies` | common/configtx/configmap.go:166-187 | sets exactly the empty mod_policies of the group and its leaves |
| `ConfigMapLoops.RecurseConfigMap` | common/configtx/configmap.go:112-190 | whatever the order, the group rebuilt at a path is the folded one, errors included |
| `ConfigUpdate.ComputeDeltaSet` | common/configtx/update.go:32-46 | in any order, the write set without the elements whose version the read set already has |
| `ConfigUpdate.ComputeUpdateResult` | common/configtx/update.go:193-203 | in any order, the old map overlaid with the update |
| `ConfigUpdate.ProposedLegal` | common/configtx/validator.go:103-129 | a tree proposed by an accepted update is legally keyed, so that it flattens again |
| `ConfigUpdate.StepElement` | common/configtx/update.go:68-102 | after an accepted update each element is authorised with its version up by one, or new at version zero, or as it was |
| `ConfigUpdate.ForkChangesOwn` | common/configtx/compare.go:160-176 | a group in both trees whose child on a path is in one of them only has changed |
| `ConfigUpdate.ChangesAreAuthorised` | common/configtx/update.go:68-159 | every element changed, added or removed is covered by an element of the current configuration whose current mod_policy accepted the signatures and whose version rose by exactly one: itself if changed, else the nearest group above present in both trees; the empty mod_policy fill-in is the one exception |
| `ConfigUpdate.StepPossible` | common/configtx/validator.go:103-129 | every accepted proposal can be adopted as the next configuration |
| `ConfigUpdate.RunValid` | common/configtx/validator.go:137-160 | over any run every validator is well formed and the sequence counts the updates |
| `ConfigUpdate.VersionsTell` | common/configtx/update.go:68-102 | over any stretch of a run in which an element stays, its version never falls, and if it is unchanged so is the element |
| `ConfigUpdate.ReadSetStable` | common/configtx/update.go:18-30 | if a read set verifies at two points of a run, every element it names is present and the same at both and at every point between, but for the fill-in; delete and recreate is noticed |
| `ConfigUpdate.ReadSetUnchanged` | common/configtx/update.go:18-30 | from a configuration whose elements all have a mod_policy, the same with the source's own equality and no exception |
| `ConfigUpdate.ValidateMatchesPropose` | common/configtx/validator.go:163-197 | Validate accepts an envelope if and only if ProposeConfigUpdate returns it for the same update in the same state |
| `ConfigReach.CarriedFolds` | common/configtx/configmap.go:112-190 | a map that says under a tree's paths what the tree's elements say folds to that tree, whatever else it holds |
| `ConfigReach.UpdateReaches` | common/configtx/update.go:115-159 | the converse of authorisation: a legally keyed configuration each of whose elements is unchanged, raised by one under an accepting current policy, or new at version zero is accepted, and is exactly what is proposed but for the fill-in |
| `ConfigReach.RootCanBeRaised` | common/configtx/validator.go:137-160 | in every valid state whoever the root's policy accepts can raise the root's version and give it any legal mod_policy, and nothing else changes |
| `ConfigValidator.AuthorizeInOrder` | common/configtx/update.go:115-159 | the authorised map, or the refusal, is the same in every order of the walks |
| `ConfigValidator.ProposeInOrder` | common/configtx/validator.go:137-160 | the proposed envelope is the same in every order of the walks |
| `ConfigValidator.ValidateInOrder` | common/configtx/validator.go:163-197 | in any order, accepts exactly what a proposal for the same update gives, no other tree or sequence |
| `BlockFile.VarintRoundTrip` | vendor/github.com/golang/protobuf/proto/encode.go:72-82 | a length prefix decodes to the length and its own size, whatever bytes follow |
| `BlockFile.VarintCut` | vendor/github.com/golang/protobuf/proto/decode.go:57-72 | a length prefix cut short does not decode |
| `BlockFile.DecodeVarintLoop` | vendor/github.com/golang/protobuf/proto/decode.go:57-72 | the shifting loop gives, for any bytes, the number modulo 2^64 and its size, or that it does not end within ten bytes; up to nine bytes the number itself |
| `BlockFile.NextReads` | common/ledger/blkstorage/block_stream.go:83-139 | a complete record is read as its block, with the right offsets, whatever comes before and after |
| `BlockFile.NextCut` | common/ledger/blkstorage/block_stream.go:96-122 | what is left of a record after a crash is reported as partial wherever it was cut |
| `BlockFile.BlockfileStream.NextBlock` | common/ledger/blkstorage/block_stream.go:83-139 | returns the next record and moves past it, and does not move on the end or on a partial record |
| `BlockFile.ScanFinds` | blockfile_mgr.go:1590-1617 | a scan from any record start over a cut tail finds the last complete block, its end and the number of blocks passed |
| `BlockFile.ScanForLastCompleteBlock` | blockfile_mgr.go:1590-1617 | the loop returns what the scan finds |
| `BlockStore.SyncInfoExact` | blockfile_mgr.go:225-260 | from any summary saved since the last sync and any crashed files, the summary brought up to date is that of exactly the complete blocks |
| `BlockStore.CrashLeaves` | common/ledger/blkstorage/blockfile_rw.go:37-48 | every image of a consistent disk holds the synced blocks, at most the one being written, and a cut record |
| `BlockStore.RestartOfImage` | blockfile_mgr.go:112-138 | restart on any such image yields number and end offset of the last completely written block |
| `BlockStore.ConsistentIsCrashSafe` | blockfile_mgr.go:112-138 | on every image of a consistent disk restart is right, no committed block is lost, no partial tail is kept and the index can be completed |
| `BlockStore.FoundIsCrashSafe` | blockfile_mgr.go:126-135 | so is a disk just found after a crash, with the summary brought up to date and the current file still untruncated or missing |
| `BlockStore.IndexedStable` | blockfile_mgr.go:441-453 | entries of earlier blocks stay right when a block or a file is added |
| `BlockStore.FetchFinds` | blockfile_mgr.go:1495-1506 | the entry of block n leads to the n-th block appended, and its shifted transaction offsets to that block's transactions in the file |
| `BlockfileMgr.Manager.AddBlock` | blockfile_mgr.go:291-482 | appends exactly the accepted block, refuses exactly the wrong number or hash or a failing write; every disk on the way is crash safe for the blocks committed before, if and only if it is not a first block too large for a file |
| `BlockfileMgr.Manager.AppendRecord` | blockfile_mgr.go:454-459 | length, bytes and sync leave the block complete, and each write in between is crash safe |
| `BlockfileMgr.Manager.FailToAppend` | blockfile_mgr.go:460-466 | after an append that fails at any point the file is cut back to the known size, the store is as before, and both disks are crash safe |
| `BlockfileMgr.Manager.FailToSave` | blockfile_mgr.go:476-482 | a complete record whose summary cannot be saved is cut off again, and the next block can be appended |
| `BlockfileMgr.Manager.Commit` | blockfile_mgr.go:468-490 | saves the summary and indexes the block with the place and shifted offsets it has, crash safe after each |
| `BlockfileMgr.Manager.MoveToNextFile` | blockfile_mgr.go:270-289 | the blocks stay and the current file is a new empty one; with a block written every disk on the way is crash safe, without one the last is not |
| `BlockfileMgr.MoveIsSafeIff` | blockfile_mgr.go:270-289 | the rollover is crash safe if and only if a block has been written |
| `BlockfileMgr.Manager.Restart` | blockfile_mgr.go:103-178 | from any disk a crash can leave, the manager holds exactly the complete blocks; the saved summary, the file made, the truncation and every index entry each leave a disk that is crash safe again |
| `BlockfileMgr.Manager.SyncIndex` | blockfile_mgr.go:1214-1326 | from any earlier save point, across files, the index ends up as addBlock would have left it |
| `BlockfileMgr.Manager.FetchBlock` | blockfile_mgr.go:1361-1379 | block n is the n-th block appended |
| `BlockfileMgr.AcrossFinds` | common/ledger/blkstorage/block_stream.go:173-190 | from any record start or file end the stream gives the next block where it is, across files, and ends after the last |
| `BlockfileMgr.IndexedNext` | common/ledger/blkstorage/blockindex.go:82-155 | indexing the next block extends a right index to a right index |
| `BlockSerialization.SerializeBlock` | common/ledger/blkstorage/block_serialization.go:28-44 | writes the specified bytes and notes each transaction with its id, place and size, or stops on missing metadata |
| `BlockSerialization.SizeVarintExact` | vendor/github.com/golang/protobuf/proto/encode.go:98-120 | the size table is the size of the encoding |
| `BlockSerialization.Buffer.NextVarint` | common/ledger/blkstorage/protobuf_util.go:27-35 | reads a varint, and moves the position by the size of its shortest encoding |
| `BlockSerialization.Buffer.NextRawBytes` | common/ledger/blkstorage/protobuf_util.go:38-46 | reads bytes with their length, and moves the position by what they would take when written |
| `BlockSerialization.ExtractData` | common/ledger/blkstorage/block_serialization.go:185-211 | reads the transactions and notes the places they would have in the block as written |
| `BlockSerialization.ReadBlock` | common/ledger/blkstorage/block_serialization.go:96-114 | for any bytes, the places extractSerializedBlockInfo notes are those SerializeBlock notes for the block read, and the position ends at the size of that block as written |
| `BlockSerialization.RoundTrip` | common/ledger/blkstorage/block_serialization.go:80-94 | a written block is read back, up to its end, whatever follows |
| `BlockSerialization.CutFails` | common/ledger/blkstorage/block_serialization.go:80-94 | a written block with its end missing is not read as any block |
| `BlockSerialization.PositionExact` | common/ledger/blkstorage/protobuf_util.go:27-51 | the position is never ahead of what was read, and is there if and only if the bytes are those SerializeBlock writes, bits of the number beyond the 64th aside |
| `BlockSerialization.PaddedReads` | common/ledger/blkstorage/protobuf_util.go:27-35 | for every block with a one-byte number, writing the number one byte longer reads as the same block, and every transaction lies one byte after its noted place |
| `BlockSerialization.TxsPlaced` | common/ledger/blkstorage/block_serialization.go:129-149 | each noted place of a written block holds that transaction with its length |
| `BlockSerialization.CodecAgrees` | common/ledger/blkstorage/block_serialization.go:96-114 | number, hashes and transaction places read off a written block are those of the block, so addBlock and syncIndex index alike |
| `BlockSerialization.FetchTransaction` | blockfile_mgr.go:1484-1493 | from the index entry of a written block in the files, fetching by a transaction's place gives its envelope |
| `BlockSerialization.FetchRead` | blockfile_mgr.go:1484-1493 | that holds of the entries made by reading the blocks in the files back |
| `Idemix.AddProducts` | idemix/credential.go:70-85 | the pairwise loop with its odd residue adds the plain sum of products |
| `Idemix.HiddenPlusDisclosed` | idemix/signature.go:318-325 | hidden and disclosed terms together make the full sum, for every disclosure |
| `Idemix.ModsubIsDifference` | idemix/util.go:151-153 | adding the negated operand is subtraction modulo the order |
| `IdemixScheme.RequestComplete` | idemix/credrequest.go:35-109 | an honest credential request passes the check |
| `IdemixScheme.CredentialComplete` | idemix/credential.go:37-160 | an issued credential passes Ver, given prime order and isk + E not zero |
| `IdemixScheme.CommitmentsKept` | idemix/signature.go:285-330 | what Ver recomputes from an honest signature are the values the signer committed to, and the pairing equation holds, for any disclosure that hides something from the revocation handle on |
| `IdemixScheme.SignOutcome` | idemix/signature.go:50-237 | signing fails exactly on bad input or an unknown revocation algorithm, and otherwise panics exactly when nothing from the handle on is hidden or the credential lacks the handle or a hidden attribute |
| `IdemixScheme.VerPanics` | idemix/signature.go:243-405 | verifying panics exactly when, every earlier check passed, a disclosed value is missing or nothing from the handle on is hidden |
| `IdemixScheme.SignatureComplete` | idemix/signature.go:50-405 | a signature on an issued credential and a made pseudonym passes Ver, for any number of attributes and any disclosure that hides something from the revocation handle on, given r1, isk + E and B not zero |
| `IdemixOps.HiddenIndices` | idemix/signature.go:35-43 | the loop collects the hidden positions in order |
| `IdemixOps.AppendBytes` | idemix/util.go:54-56 | writes the bytes at the index, returns the next index and touches nothing after it |
| `IdemixOps.ComputeChallenge` | idemix/signature.go:171-194 | the filled buffer holds exactly the transcript, hashed twice with the nonce |
| `IdemixOps.IssueCredential` | idemix/credential.go:37-107 | the accumulating code issues the specified credential |
| `IdemixOps.CheckCredential` | idemix/credential.go:111-160 | the accumulating code accepts exactly the specified credentials |
| `IdemixOps.Sign` | idemix/signature.go:50-237 | the accumulating code makes the specified signature, failing and panicking where SignOutcome says |
| `IdemixOps.Verify` | idemix/signature.go:243-405 | the accumulating code answers as specified, for value lists of any length, panicking where VerPanics says |
| `IdemixSoundness.RequestExtracts` | idemix/credrequest.go:76-109 | two requests from one commitment with different challenges give away the secret of the pseudonym |
| `IdemixSoundness.SignatureExtracts` | idemix/signature.go:243-405 | two accepted signatures from the same commitments with different challenges give a credential that passes Credential.Ver for the extracted secret, with the disclosed attributes as shown and the pseudonym opening to that secret; its A is the identity exactly when both have the same answer for r3 |
| `IdemixSoundness.HonestFork` | idemix/signature.go:50-237 | an honest signer rewound to another hash function gives two accepted signatures from the same commitments, and the secret extracted from them is the signer's |
| `IdemixSoundness.CredentialExact` | idemix/credential.go:111-160 | Ver accepts if and only if B is the sum over the bases and A raised by isk + E is B |
| `Chameleon.HexRoundTrip` | blockfile_mgr.go:918-919 | a number written in hexadecimal reads back |
| `Chameleon.BytesRoundTrip` | blockfile_mgr.go:853-853 | a number written big endian reads back |
| `Chameleon.ExponentsCong` | blockfile_mgr.go:846-849 | exponents count modulo the order of the base |
| `Chameleon.TrapdoorExponent` | blockfile_mgr.go:902-916 | with s2 from the trapdoor, hk to the e times g to the s2 is g to the k |
| `Chameleon.CollisionCollides` | blockfile_mgr.go:855-920 | if g to the q is 1 and hk is g to the tk, then for all messages, all texts r1 and s1, however they are read, and every k the second message hashes to the first value |
| `Chameleon.HexCollides` | blockfile_mgr.go:918-919 | so it is when numbers are read as hexadecimal numerals and other text in any way |
| `ChameleonSteps.Hash` | protoutil/blockutils.go:144-182 | the step-by-step code computes the hash; both copies are the same code |
| `ChameleonSteps.Collide` | blockfile_mgr.go:855-920 | the step-by-step code computes the collision, which collides for sound parameters |
| `SignaturePolicy.Evaluate` | common/cauthdsl/cauthdsl.go:40-88 | the evaluators, with their copies of the used marks, answer and mark as specified |
| `SignaturePolicy.AcceptedHasProof` | common/cauthdsl/cauthdsl.go:40-88 | acceptance gives a satisfying subtree whose leaves are different and were unused, and the marks added are exactly those leaves, so failed sub-rules leave none |
| `SignaturePolicy.AcceptsIffProved` | common/cauthdsl/cauthdsl.go:40-88 | if at every gate asking for two or more the sub-rules share no identity, or are signatures going from the narrower to the wider, the evaluator accepts exactly when a satisfying subtree of different unused signers exists, for every used vector |
| `SignaturePolicy.GreedyBest` | common/cauthdsl/cauthdsl.go:40-88 | for signatures that go from the narrower to the wider, no assignment of free signers beats the greedy count |
| `SignaturePolicy.EvalLocal` | common/cauthdsl/cauthdsl.go:66-87 | an evaluation neither reads nor changes marks of identities that satisfy no principal of its rule |
| `SignatureSet.SignatureSetToValidIdentities` | common/policies/policy.go:365-402 | the loop keeps the specified identities |
| `SignatureSet.ValidIdentitiesExact` | common/policies/policy.go:365-402 | the keys kept are different and are exactly the keys with a valid signature |
| `SignatureSet.SignersKept` | common/policies/policy.go:380-399 | every signer with a valid signature is kept if and only if signers with the same key have ids of the same length |
| `SignatureSet.EvaluateSignedData` | common/cauthdsl/policy.go:87-109 | accepts if and only if the rule accepts the valid identities, all unused |
| `SignatureSet.AcceptedHasSigners` | common/cauthdsl/policy.go:87-109 | an accepted signature set assigns the leaves of a satisfying subtree to different keys, each with a valid signature and satisfying its principal |
| `PolicyConvert.IdKeyTells` | common/policies/convert.go:66-66 | equal deduplication keys mean equal principals unless neither classification is declared |
| `PolicyConvert.RemapTotal` | common/policies/convert.go:21-56 | remap panics exactly on the rules compile refuses, and what it returns compiles |
| `PolicyConvert.RemapMeaning` | common/policies/convert.go:21-56 | the remapped rule answers and marks as the original, for every used vector |
| `PolicyConvert.MergeIdsExact` | common/policies/convert.go:63-88 | the merged list extends the old one by new names only, and every principal is led to one of its own name |
| `PolicyConvert.MergeMeaning` | common/policies/convert.go:61-94 | merge panics exactly on an envelope that does not compile; the new rule and all earlier ones keep answers and marks for every used vector |
| `ImplicitMeta.EvaluateIdentities` | common/policies/implicitmeta.go:107-144 | counting down from the threshold accepts exactly when enough sub-policies are satisfied, or for zero when none is |
| `ImplicitMeta.Draft.Merge` | common/policies/convert.go:61-94 | updates the envelope in place to the merged one, or stops |
| `ImplicitMeta.ConvertPolicy` | common/policies/convert.go:98-129 | the loop converts as specified, errors included |
| `ImplicitMeta.ConvertDefined` | common/policies/convert.go:98-129 | conversion of built policies never panics, fails exactly on a missing sub-policy, and yields an envelope that compiles |
| `ImplicitMeta.ConvertMeaning` | common/policies/convert.go:98-129 | for any nesting, every list and every used vector, the envelope answers and marks as the policy run from left to right on shared marks |
| `ImplicitMeta.ConvertKeeps` | common/policies/convert.go:98-129 | if at every level with a threshold of two or more no identity satisfies principals of two sub-policies, the envelope accepts exactly the identity lists the policy accepts |
| `ImplicitMeta.RuleKeeps` | common/policies/implicitmeta.go:46-58 | so ANY always keeps it, ALL and MAJORITY if their sub-policies share no identity or are one at most |
| `ImplicitMeta.ZeroThreshold` | common/policies/implicitmeta.go:132-143 | with threshold zero the envelope accepts everything and the policy only lists that satisfy no sub-policy |
| `ConvertExact.LeafyExact` | common/policies/convert.go:98-129 | for any number of sub-policies of one signature each, policy and envelope accept the same lists if and only if the threshold is one, out of reach, or no identity satisfies two of the principals |
| `ConvertExact.LeafyDiffers` | common/policies/convert.go:98-129 | otherwise there is a list the policy accepts and the envelope refuses |
| `ConvertExact.OnlyStricter` | common/policies/convert.go:98-129 | whatever is shared, if no sub-policy has a gate inside a gate the envelope accepts only lists the policy accepts |
| `PolicyWitness.OrderMatters` | common/cauthdsl/cauthdsl.go:66-87 | for all such signers and principals the same two signers are refused in one order and accepted in the other |
| `GateExact.OrderedFinds` | common/cauthdsl/cauthdsl.go:40-88 | any number of signatures in that order: the evaluator accepts a list exactly when it has signers enough |
| `GateExact.AllOfExact` | common/cauthdsl/cauthdsl.go:40-88 | for a gate asking for all of any signatures, the evaluator finds the signers on every list that has them if and only if nobody can give one of them, or of any two the earlier shares no identity with the later or is the narrower |
| `PolicyWitness.GateTakesTooMany` | common/cauthdsl/cauthdsl.go:40-60 | a gate goes on after it has enough: for all such signers, in any order, its sibling is left without one |
| `PolicyWitness.ConvertTooLax` | common/policies/convert.go:98-129 | with a gate inside a gate, a shared identity makes the envelope accept a list that the policy refuses |
| `PolicyManager.NewManagerImpl` | common/policies/policy.go:187-247 | in any order, the manager of the group with its own policies, made from the sub-managers in whatever order they come, overlaid by the joined names below, or a policy that cannot be made |
| `PolicyManager.Overlay` | common/policies/policy.go:236-240 | in any order, the flattened map holds exactly the own and the joined names, joined ones winning |
| `PolicyManager.FlatLookup` | common/policies/policy.go:332-360 | with slash-free names, a joined path is in the flattened map exactly when walking the sub-managers reaches the policy, and it is that policy |
| `PolicyManager.RelativeFinds` | common/policies/policy.go:332-360 | GetPolicy on a relative path finds exactly the policy reached by walking |
| `PolicyManager.AbsoluteFinds` | common/policies/policy.go:332-360 | GetPolicy on an absolute path, asked of any manager along it, does so too |
| `PolicyManager.WalkSplit` | common/policies/policy.go:260-275 | walking a path in two parts is walking it at once |
| `PolicyManager.AbsoluteExact` | common/policies/policy.go:339-346 | an absolute path panics exactly when it is the manager's own path, and is found exactly when some character and a known relative path follow it |
| `PolicyManager.AbsoluteMisreads` | common/policies/policy.go:339-346 | a path whose last name only begins like the manager's path finds one of its policies |
| `AuthCache.AccessCache.ConfigChange` | discovery/authcache.go:174-180 | the sequence is recorded and every entry is gone |
| `AuthCache.AccessCache.PurgeEntriesIfNeeded` | discovery/authcache.go:147-166 | when full, exactly so many entries go, whichever, or all if the number is negative or too large; otherwise nothing changes |
| `AuthCache.CheckKeeps` | discovery/authcache.go:168-172 | a positive isValid leaves only entries at least as new as the sequence the caller read |
| `AuthCache.RecheckKeeps` | discovery/authcache.go:125-134 | reading the same sequence again under the lock fixes the sequence the answer was computed under and bounds what waiting callers have read |
| `AuthCache.NextKeeps` | discovery/authcache.go:102-139 | every step of every caller and every configuration change keeps the invariant |
| `AuthCache.NeverStale` | discovery/authcache.go:102-139 | in every interleaving, an answer returned was computed by the service at a sequence no older than the one its caller read, for a request with the caller's key |
| `AuthCache.SameAsDirect` | discovery/authcache.go:67-84 | if keys tell requests apart and the sequence did not change during the call, the answer is the service's own |
| `Deliver.SessionAccessControl.Evaluate` | common/deliver/acl.go:58-76 | answers and remembers as specified in every state; while no call refused, acceptance means that the policy passed at the first reading of the newest sequence read |
| `Deliver.RefusedThenAccepted` | common/deliver/acl.go:63-75 | after a refusal the next call accepts unasked exactly if the sequence has not grown |
| `Deliver.DeliverBlocks` | common/deliver/deliver.go:251-346 | every block sent had arrived in its turn, after a covering evaluation and, if asked for, within the height; SUCCESS over a consecutive cursor means exactly the blocks from start to stop in order |
| `LoggerLevels.EffectiveIsLongest` | common/flogging/loggerlevels.go:127-140 | the walk gives the exact name's level, else that of the longest specified dotted prefix, else the default |
| `LoggerLevels.LoggerLevels.ActivateSpec` | common/flogging/loggerlevels.go:42-96 | activates what the string means and empties the cache, or changes nothing on an error |
| `LoggerLevels.LoggerLevels.StoreLevel` | common/flogging/loggerlevels.go:117-120 | caches the level of the active specification, whichever it is by then, or panics on the nil map before any was activated |
| `LoggerLevels.LoggerLevels.CalculateLevel` | common/flogging/loggerlevels.go:127-140 | the loop terminates with the effective level |
| `LoggerLevels.LoggerLevels.Level` | common/flogging/loggerlevels.go:112-123 | cached or not, the effective level, of the specification active when it is looked up whatever others activate between the two lock regions; panics exactly if none has been activated by then |
| `LoggerLevels.LoggerLevels.Enabled` | common/flogging/loggerlevels.go:169-174 | a rejected entry is below the effective level of every logger |
| `LoggerLevels.MinLevel` | common/flogging/loggerlevels.go:83-88 | in any order, the smallest level of the specification |
| `LoggerLevels.ParseFields` | common/flogging/loggerlevels.go:46-81 | the parsing loops give what the string means, or its error |
| `LoggerLevels.LoggerLevels.SpecString` | common/flogging/loggerlevels.go:152-165 | in any order of the map, prints the active specification as its sorted fields and the default |
| `LoggerLevels.PrintsOnce` | common/flogging/loggerlevels.go:152-165 | a specification is printed in one way only |
| `LoggerLevels.SpecRoundTrip` | common/flogging/loggerlevels.go:42-165 | activating what is printed gives the same specification if and only if no level in it is payload, and is an error otherwise |
| `Combinations.Storage.AppendTo` | common/graph/choose.go:62-62 | append writes in place when there is room and allocates otherwise |
| `Combinations.Storage.ChooseFrom` | common/graph/choose.go:50-65 | the recursion on shared arrays leaves the specified store |
| `Combinations.ChooseCount` | common/graph/choose.go:50-65 | as many slices are added as there are ways to complete the current one |
| `Combinations.ChooseAscending` | common/graph/choose.go:50-65 | slices that share storage overwrite each other, and every slice found still ends up with k ascending numbers below n |
| `Combinations.NestsForever` | common/graph/choose.go:50-65 | the recursion nests without end if and only if k is negative |
| `Combinations.LevelLists` | common/graph/choose.go:50-65 | the slices found hold, in order, exactly the lists of a recursion without sharing that stops branching at the length the last array is made at |
| `Combinations.ListedExact` | common/graph/choose.go:50-65 | the lists of the recursion are exactly the ascending ones that continue the current one and end, from the length of the last array on, with the last numbers |
| `Combinations.ListsAre` | common/graph/choose.go:40-65 | for every growth of capacities, a list is returned if and only if it is ascending with k numbers below n and ends, from that length on, with the last numbers |
| `Combinations.ListsExact` | common/graph/choose.go:40-65 | for every growth of capacities, every subset is listed, and none twice, if and only if that append takes a new array or k is at least n |
| `Combinations.DoublingTight` | common/graph/choose.go:62-62 | with doubling capacities that is so exactly when k is at most one or one more than a power of two |
| `Combinations.FourOfFive` | common/graph/choose.go:40-65 | with doubling, some choice of four of five is not listed |
| `Permutations.ChooseKOutOfN` | common/graph/choose.go:40-48 | returns what the slices hold when all have been added: binomially many lists, each of k ascending numbers below n |
| `Permutations.Prune` | common/graph/perm.go:111-115 | whichever victims are drawn, pruning ends with descendants of the original in order and within the bound; with a bound of at least one never below a threshold that could be reached, otherwise one below it; it panics exactly for such a bound and a threshold of zero or less |
| `Permutations.BoundExact` | common/graph/choose.go:29-38 | a bound of at least one is exactly what stops pruning at the threshold |
| `Permutations.ReplacePartly` | common/graph/tree.go:87-97 | replacing a vertex's descendants by a choice expands every partly expanded tree at that vertex and nowhere else |
| `Permutations.PruneTree` | common/graph/perm.go:97-123 | prunes here and below, or does not return, exactly if some inner vertex, dropped or not, has a negative threshold, or zero with a bound below one; changes nothing if no vertex has too many combinations |
| `Permutations.Expand` | common/graph/perm.go:53-85 | the trees without the vertex stay, and those with it are replaced by one per list |
| `Permutations.ExpandToward` | common/graph/perm.go:69-85 | a tree on the way to any given one that chooses from the lists stays on the way, by one of the lists, when a vertex is expanded |
| `Permutations.Permute` | common/graph/perm.go:39-93 | returns, thresholds aside, exactly the trees that choose one of the lists at every vertex of the pruned tree; with a bound of at least one each uses only original vertices and edges with exactly the threshold of descendants at every inner vertex kept, and there is one if every threshold can be reached; with a smaller bound none does, unless the root is a leaf |
| `PermuteExact.FittingIsOffered` | common/graph/tree.go:103-113 | for every tree with different ids, every tree the thresholds allow is among them if and only if no vertex such a tree can hold loses a choice it can make |

## Left out

- Versions and sequences of configurations are unbounded numbers; wrap-around of 64-bit unsigned integers is not modelled there.
- Protocol buffer messages other than the block file's own format, ASN.1 and PEM encodings, SHA-256, the curve and LevelDB are parameters or plain values; nil entries inside protocol buffer maps are not modelled.
- BlockfileMgr.Manager.AddBlock: blocks are shorter than 2^56 bytes, so that eight bytes hold every length prefix; a failed index write is a crash; nothing is stated of calls after a first block too large for a file.
- BlockfileMgr.Manager.FailToAppend: truncating is atomic and durable in the model, here and in FailToSave and Restart, and not synced in the source; a torn write leaves a prefix of the record.
- BlockSerialization.SerializeBlock: a block without header or data is a nil dereference as well and is not modelled; nil and empty byte strings are the same.
- The branches of addBlock that rewrite earlier blocks and keep certificate files (blockfile_mgr.go:302-411 and blockfile_mgr.go:492-679), and GetCollision, which reads the messages off two blocks.
- Ledgers bootstrapped from a snapshot, the reconstruction of a lost summary (common/ledger/blkstorage/blockfile_helper.go), the encoding of the summary, and lookup by hash or transaction.
- Chameleon.CollisionCollides: takes what it needs of p, q, g, hk and tk as hypotheses and does not compute that the constants written in the source satisfy them.
- Idemix: points and credentials are values without their byte encodings, except that transcripts are byte strings; nonces of credential requests have fixed length; only the algorithm without revocation; weak Boneh-Boyen signatures, nym signatures and revocation keys are not modelled.
- IdemixOps.Sign: the issuer key has a base for every attribute name and a hash of one field element, here and in Verify, which is what the check of the key establishes (idemix/issuerkey.go:129-184).
- IdemixSoundness.SignatureExtracts: is the algebraic extraction; that different challenges can be obtained by rewinding, and hardness assumptions, are outside the model.
- SignaturePolicy.Evaluate: counters and thresholds are unbounded integers, not 32-bit ones; logging is left out.
- SignaturePolicy.AcceptsIffProved: the condition is sufficient for any rule; AllOfExact is exact for a gate that asks for all of several signatures, on lists that may hold an identity more than once; no exact condition is stated for two or more but not all of them, nor for gates inside gates.
- ConvertExact.LeafyExact: is exact for sub-policies of one signature; for others ConvertMeaning says what the envelope computes and ConvertKeeps gives a sufficient condition.
- Principal sets and inquireable policies (common/policies/inquire), certificate validation in msp, and the PolicyLogger wrapper, which only logs.
- AuthCache.NeverStale: one evaluation by the service is one step under one configuration sequence, and the hash in the key is a function about which SameAsDirect assumes no collisions.
- Deliver.DeliverBlocks: starts after the envelope has been parsed and the channel found; waiting, clocks, cancellation and consenter errors are what each turn of the loop is told.
- Permutations.Permute: vertices are values with different ids, so pruning in place and sharing of descendants between returned trees are not visible; a recursion without end and a panic are one outcome.
