# Verified models of the MCMS library

The library builds, hashes, signs and merges proposals for many-chain multi-signature (MCMS) contracts on several
chain families. This project models the parts of it where the logic is hard and proves what they promise. Everything
is Dafny 4.11; `dafny verify dfyconfig.toml` checks the whole project.

| file | what it covers |
|---|---|
| `GoTypes.dfy`, `ByteStrings.dfy`, `Chunking.dfy`, `Sorting.dfy` | Go's fixed-width numbers and map reads; byte strings and how they come apart; cutting a sequence into pieces; sorting by a key |
| `Config.dfy` | the signer tree, its rosters and its quorum rule |
| `ConfigEquality.dfy` | `Equals` against an independent notion of unordered tree; agreement of the configs of several chains |
| `ConfigCodec.dfy` | flattening the tree into the on-chain arrays and rebuilding it |
| `ConfigVariants.dfy` | the TON and Canton forms of the on-chain arrays |
| `TimelockIds.dfy` | operation ids, conversion, salts and derived proposals |
| `Nonces.dfy`, `MerkleLeaves.dfy` | nonce windows within a proposal and over a queue; the sorted leaves of the Merkle tree |
| `SolanaBatch.dfy`, `SolanaHash.dfy` | the Solana batch compiler, its account lists and the preimage of its operation ids |
| `SolanaPreload.dfy` | the signature upload with bounded retries over an unreliable link |
| `CantonPreimages.dfy`, `StellarPreimages.dfy` | the hash preimages of Canton and Stellar |
| `Bcs.dfy`, `SuiBatch.dfy` | the Sui batch serializer and deserializer |
| `Merge.dfy` | merging timelock proposals |
| `Ledger.dfy` | the Ledger wallet transport and its chunk-size search |

Code that changes state is modelled by methods and classes, each proved against a specification function; the
properties are then lemmas about those functions. What a specification function computes is also stated without it: quorums
by cardinalities (`ConsensusIsThreshold`), merged proposals field by field (`MergedScalars` and its neighbours), operation
ids by the preimage that is hashed (`IdOfFirst`, `IdOfNext`), and encodings by readers that do not refer to the writers
(`ReadsPreimage`, `ReadsTimelockOp`, `ReadsSchedule`, `StellarOpWords`).

## What the proofs show about the code

- `Config.Equals` searches in one direction only. It decides equality up to reordering against every other config if
  and only if no group anywhere in the left config has two child groups that are equal up to reordering
  (`EqualsExactWhen`). A validated config that lists no signer twice has none. The same condition decides whether
  `Equals` is symmetric at a config (`SymmetricExactWhen`), and whether every config that `ValidateConfigs` accepts next
  to it gives the same verdicts on signatures (`VerdictsAgreeExactWhen`); `TwinChainsDisagree` shows two validated chains
  that pass and disagree on a quorum. For the quorum number alone the condition is not necessary
  (`QuorumCanSurviveTwins`).
- A config of 33 to 256 groups is encoded without an error: only the first 32 groups are kept
  (sdk/confighelpers.go:68), while its signers keep their group numbers. The source promises an error "if the structure
  cannot be flattened (e.g., too many groups)" (sdk/confighelpers.go:20); the error comes only beyond 256. Such an
  encoding of a validated config can never be read back (`RoundTrip`); `WideIsLost` gives one such config for every size.
- TON cuts off the groups behind the last one with a direct signer. Reading back restores the arrays if and only if all
  that was cut off has quorum 0 and hangs from the root (`TruncationIsLosslessIff`), which holds of every validated
  config; but the TON encoder does not validate, and `TruncationNeedsSigners` loses a group.
- No chain family hashes the chain selector into an operation id, so two chains of one family with the same calls have
  the same ids (`SameHistorySameId`). Among preimages without a collision an id names exactly the salt and the calls of
  its chain so far (`IdsNameHistories`).
- `deriveNewProposal` says that the original is not modified, but the metadata map is shared, so the original proposal
  sees the new metadata too (`DeriveNewProposal`).
- `Merge` is not associative for all inputs (`MetadataGroupingShows`, `MissingFieldsShow`, `EmptyFieldsShow`), and
  `MergeAssociativeIff` gives the exact condition: no scalar (or other kind) stands between two lists or two objects in
  the metadata, and the chains' additional fields are not missing in the middle, nor written out empty twice before any
  content. A salt taken over from another proposal is shared with
  it, so a later merge rewrites that proposal's salt as well (`AdoptedSaltIsShared`).
- Canton operation data that is not hex is hashed as the hex of its bytes, so two different texts can be hashed alike
  (`TextsCanShareBytes`). A text is hashed like no other if and only if it is hex of decimal digits whose bytes are
  themselves hex, or is too long to have a hex form (`TextAloneIff`). Compared as bytes, the preimage determines
  everything (`TimelockOpPreimageUnique`).
- `HashStellarOp` is documented as `abi.encode(domain, StellarOp)`. The Solidity encoding of that pair has one more
  word, the offset of the dynamic tuple (`NotSolidityPair`); the code hashes the domain followed by the encoding of the
  tuple, as the comment at sdk/stellar/encode_test.go:76-78 has it.
- The Ledger chunk search stops at 251 or above for every payload of 4 to 8096759 bytes; at 8096760 it reaches 250
  (`ChunkSizeBounds`, `ChunkSizeBoundIsSharp`). For any payload it is the largest size up to 255 that
  leaves more than three bytes over (`ChunkSize`).

## Assumptions

- Hash functions and the encodings of calls are parameters, one for each chain family. Where distinctness is claimed,
  the assumption is made only for the preimages of the chains that are compared, or for the two preimages compared: no
  two of them collide and none hashes to zero (`CollisionFree`).
- The Solana programs are not in the repository. The model assumes that loading an operation is refused unless it is
  open, that finalizing needs every announced call, and that execution needs finalization; for signatures, that init
  needs an unused address, append and finalize an open account of the announced size, and that clear closes any
  existing account. A send may report an error with or without having had its effect.
- The BCS library is not in the repository. The model follows the BCS specification, section "ULEB128-Encoded
  Integers", and leaves open what a reader returns once its input has run out, except that reading a fixed number of
  bytes always returns that many (`ReadFixedBytes`); the only-if half of `SuiBatch.RoundTrip` relies on this.
- Library sorts are stood for by a method that promises the order and the same elements.

## Model

| member | source | states |
|---|---|---|
| Configs.GetAllSigners | types/config.go:136-145 | returns the whole roster in tree order, repeats included |
| Configs.RosterIs | types/config.go:136-145 | the roster is the direct signers of every group, each group in front of the groups below it |
| Configs.RegisteredIff | types/config.go:136-145 | an address is in the roster if and only if some group of the tree lists it |
| Configs.Collector.Collect | types/config.go:33-52 | one walk with a seen map appends exactly the addresses of the subtree not seen before, and keeps map and list consistent |
| Configs.AllSigners | types/config.go:33-53 | returns the roster with later repeats removed |
| Configs.FirstsDistinct | types/config.go:33-53 | removing later repeats leaves each registered address exactly once |
| Configs.DedupIsFirsts | types/config.go:33-53 | the accumulating walk computes the roster with later repeats removed, defined from the other end |
| Configs.IsGroupAtConsensus | types/config.go:175-196 | the two counters decide the recursive quorum rule |
| Configs.ConsensusIsThreshold | types/config.go:180-196 | a group is at consensus if and only if the number of its direct signers that signed and the number of its groups at consensus, as cardinalities, together reach its quorum |
| Configs.CanSetRoot | types/config.go:155-167 | fails exactly when some recovered address is not registered, naming the first one; otherwise reports the quorum |
| Configs.QuorumMonotone | types/config.go:169-196 | signatures of further registered signers never lose a quorum |
| Configs.QuorumDependsOnRegistered | types/config.go:169-196 | order, repeats and unregistered addresses do not matter |
| Configs.ValidReachesQuorum | types/config.go:72-92 | a validated config reaches quorum when all its own signers sign |
| Configs.ValidIff | types/config.go:72-92 | validation accepts exactly the configs without a group, at any depth, whose quorum is 0 or above its number of signers and groups |
| Configs.ValidIffSatisfiable | types/config.go:72-92 | a config is valid if and only if every group in it has a quorum other than 0 and reaches it when the whole roster signs |
| ConfigEquality.UnorderedArrayEquals | types/config.go:199-221 | counting and using up decides equality as bags, for any two slices |
| ConfigEquality.Equals | types/config.go:95-126 | the search decides its specification: equal quorums, equal signer bags, equally many groups, and each left group has an equal right group |
| ConfigEquality.EqualsReflexive | types/config.go:95-126 | every config equals itself |
| ConfigEquality.EqualsTransitive | types/config.go:95-126 | equality is transitive on all configs |
| ConfigEquality.SameUnorderedIsEqual | types/config.go:95-126 | configs equal up to reordering of signers and sibling groups are accepted, always |
| ConfigEquality.EqualIsSameUnordered | types/config.go:112-123 | without twin groups on the left the one-directional search finds a bijection, so nothing else is accepted |
| ConfigEquality.TwinsAreConfused | types/config.go:112-123 | a left config with twins wrongly accepts some right config, with any further signer; a validated left config accepts a validated one |
| ConfigEquality.SymmetricExactWhen | types/config.go:95-126 | every accepted right config accepts the left one in turn, if and only if the left has no twins |
| ConfigEquality.EqualsExactWhen | types/config.go:95-126 | agreement with equality up to reordering, against every right config, holds if and only if the left has no twins |
| ConfigEquality.ValidDistinctHasNoTwins | types/config.go:72-126 | a validated config that lists no signer twice has no twins |
| ConfigEquality.SameUnorderedSameQuorum | types/config.go:180-196 | configs equal up to reordering reach quorum on the same signatures |
| ConfigEquality.CheckQuorum | signable.go:169-192 | the first unregistered recovered address is reported by index; otherwise the verdict is the quorum |
| ConfigEquality.VerdictIs | signable.go:169-192 | there is exactly one verdict: the first recovered address that no group lists, and otherwise whether the approving signers and groups, as cardinalities, reach the quorum |
| ConfigEquality.ValidateConfigs | signable.go:216-236 | succeeds exactly when every adjacent pair passes, and reports the first pair that does not |
| ConfigEquality.VerdictsAgreeExactWhen | signable.go:216-236 | all configs accepted next to a given one give its verdict on every list of recovered signers, if and only if it has no twins; for a validated config, also among validated ones only |
| ConfigEquality.ConsistentChainsShareQuorum | signable.go:216-236 | lifted to any number of chains: once the adjacent checks pass on twin-free configs, all chains give the same verdicts |
| ConfigEquality.TwinChainsDisagree | signable.go:216-236 | two validated configs that pass the check one way round, fail it the other way, and disagree on a quorum |
| ConfigEquality.QuorumCanSurviveTwins | signable.go:216-236 | a validated config with twins whose accepted neighbours all have its quorum, so for the quorum alone the condition is not necessary |
| ConfigCodec.Flattener.Extract | sdk/confighelpers.go:71-106 | appends exactly the pre-order layout of the subtree to the four slices; fails exactly when a group index exceeds a uint8 |
| ConfigCodec.ExtractSetConfigInputs | sdk/confighelpers.go:21-69 | the padded arrays are the first 32 entries of the layout and the signer table is its sorted permutation |
| ConfigCodec.ToChainConfig | sdk/evm/config_transformer.go:61-94 | the two errors, exactly when they occur, and otherwise the encoding |
| ConfigCodec.GroupSigners | sdk/evm/config_transformer.go:26-29 | files each group's addresses in table order; fails exactly on a group index past the table |
| ConfigCodec.LinkGroups | sdk/evm/config_transformer.go:45-51 | the in-place downward loop links every group in front of its parent's groups; fails exactly on a parent out of range |
| ConfigCodec.ToConfig | sdk/evm/config_transformer.go:23-58 | returns what the arrays decode to, index panics included; every group of a returned config, at any depth, has a quorum between 1 and its number of signers and groups |
| ConfigCodec.DecodeCases | sdk/evm/config_transformer.go:23-58 | an index panic exactly when an index that is followed is out of range; the validation error exactly when all are in range and the linked root has somewhere a quorum of 0 or above its number of signers and groups; otherwise the linked root |
| ConfigCodec.RootIsTree | sdk/evm/config_transformer.go:45-51 | whatever wrote the arrays, if parents come first the linked root is the tree that the parent indices describe, children in index order |
| ConfigCodec.LinkTree | sdk/evm/config_transformer.go:45-51 | linking the index range of a subtree gives its parent that subtree and touches nothing else, because children lie above their parent |
| ConfigCodec.LinkWhole | sdk/evm/config_transformer.go:45-57 | linking a laid-out tree with empty slots behind it rebuilds the root |
| ConfigCodec.StoredTreeIsLaid | sdk/confighelpers.go:71-106 | the stored arrays hold each group of a validated tree at its pre-order index, with its own signers |
| ConfigCodec.RoundTrip | sdk/evm/config_transformer.go:23-94 | encoding then decoding a validated config gives the same tree with each group's signers sorted, if and only if it has at most 32 groups; a larger one cannot be read back |
| ConfigCodec.RoundTripKeepsMeaning | sdk/evm/config_transformer.go:23-94 | the rebuilt config equals the original both ways round and has the same quorums |
| ConfigCodec.EncodingIsInjective | sdk/confighelpers.go:21-106 | two validated configs stored alike are the same tree up to the order of signers |
| ConfigCodec.EntriesAreRoster | sdk/confighelpers.go:71-106 | the flattened signers are the roster in its order |
| ConfigCodec.WideIsLost | sdk/confighelpers.go:21-69 | for every number of groups from 33 to 256, a validated config within the signer limit whose encodings cannot be read back |
| ConfigCodec.EncodeWide | sdk/evm/config_transformer.go:23-94 | the encoder succeeds on it and the decoder fails on the result |
| ConfigCodec.LastGroupHasSigner | sdk/confighelpers.go:71-106 | the last group in pre-order of a validated config has a direct signer |
| ConfigVariants.TonToChainConfig | sdk/ton/config_transformer.go:35-125 | succeeds exactly within the group and signer limits and keeps the groups up to the highest one with a direct signer |
| ConfigVariants.TonToConfig | sdk/ton/config_transformer.go:128-204 | reads the dictionaries back into 32-entry arrays and decodes them; more than 32 entries panic |
| ConfigVariants.LastGroupIsMax | sdk/ton/config_transformer.go:46-102 | in a validated config the highest group with a direct signer is the last group |
| ConfigVariants.TruncationLosslessIff | sdk/ton/config_transformer.go:76-102 | truncating and reading back restores the arrays if and only if all entries cut off are zero |
| ConfigVariants.TruncationIsLosslessIff | sdk/ton/config_transformer.go:46-102 | in terms of the config, validated or not: if and only if every stored group behind the last one with a direct signer has quorum 0 and hangs from the root |
| ConfigVariants.TruncationIsLossless | sdk/ton/config_transformer.go:46-102 | every validated config is such a config |
| ConfigVariants.TruncationNeedsSigners | sdk/ton/config_transformer.go:46-102 | a config without validation that loses a group |
| ConfigVariants.CantonToConfig | sdk/canton/inspector.go:209-279 | accepts exactly the configs in range that the EVM reader accepts, with the same tree, whose groups all have a quorum between 1 and their number of members; the error otherwise is the range or validation error that applies |
| ConfigVariants.CantonReadsAsEvm | sdk/canton/inspector.go:209-279 | a Canton config reads like the EVM arrays that hold the same numbers and signers, missing entries as 0 |
| TimelockIds.CalcOperationIds | timelock_proposal.go:313-339 | fails exactly when a batch has no supported family or no encoding; otherwise each id hashes its batch onto the last id of its chain |
| TimelockIds.IdOfFirst | sdk/solana/timelock_converter.go:129-145 | the id of the first batch of a chain, and of any batch of a Solana bypass, is the hash of its calls, the zero hash and the salt |
| TimelockIds.IdOfNext | timelock_proposal.go:313-339 | in every other case it is the hash of its calls, the id of the batch before it on its chain, and the salt |
| TimelockIds.PredecessorsAre | timelock_proposal.go:171-247 | the predecessors returned are the previous ids of the chain, the zero hash for its first batch |
| TimelockIds.Convert | timelock_proposal.go:171-247 | the second loop gives the same predecessors and ids; it succeeds exactly when every batch has a converter, metadata and an id and its conversion, given its own predecessor and id, succeeds |
| TimelockIds.ConvertsIff | timelock_proposal.go:202-244 | a batch converts exactly when its selector has a converter, metadata and a supported family, its calls can be encoded, and its conversion with its predecessor and its own id succeeds; its operations follow those of the batches before it |
| TimelockIds.IdAt | timelock_proposal.go:313-339 | every id is the hash of its batch, its predecessor and the salt |
| TimelockIds.IdsIgnoreOtherChains | timelock_proposal.go:313-339 | a chain's ids depend on that chain's batches only, however chains are interleaved |
| TimelockIds.SameHistorySameId | sdk/evm/timelock_converter.go:105-141 | the selector is not hashed: batches with the same salt and the same calls so far on chains of one family have the same id |
| TimelockIds.IdsNameHistories | timelock_proposal.go:313-339 | two ids of one family, on one chain or two, in one proposal or two, are equal exactly when the salts and all calls of their chains so far are |
| TimelockIds.IdsDistinctOnChain | timelock_proposal.go:313-339 | on one chain all ids differ, even for identical batches, unless it is a Solana chain and the proposal a bypass |
| TimelockIds.SolanaBypassIds | sdk/solana/timelock_converter.go:140-142 | Solana bypass ids agree exactly when the salts and the encoded calls do, whatever came before |
| TimelockIds.SaltsSeparateProposals | timelock_proposal.go:70-85 | proposals with different salts share no id on a chain, nor on two chains of one family |
| TimelockIds.SaltBytes | timelock_proposal.go:74-85 | an override is the salt; without one the expiry fills the first four bytes and 28 zero bytes follow, so different expiries give different salts |
| TimelockIds.TimelockProposal.ReplaceChainMetadata | timelock_proposal.go:115-125 | every entry is replaced in the shared map; fails exactly when a chain has no replacement, naming such a chain |
| TimelockIds.TimelockProposal.DeriveNewProposal | timelock_proposal.go:128-149 | pins the salt, keeps the operations, drops the signatures and shares the metadata map with the original; the errors exactly when they occur |
| TimelockIds.TimelockProposal.DeriveCancellationProposal | timelock_proposal.go:152-158 | only a schedule can be cancelled; the cancellation is a derived proposal with exactly its operation ids |
| TimelockIds.TimelockProposal.DeriveBypassProposal | timelock_proposal.go:161-167 | only a schedule can be bypassed; the bypass is a derived proposal with its salt and operations |
| TimelockIds.CancelKeepsIds | timelock_proposal.go:152-158 | a cancellation computes the ids of the schedule |
| TimelockIds.BypassKeepsLinkedIds | timelock_proposal.go:161-167 | off Solana a bypass computes the ids of the schedule too |
| TimelockIds.BypassKeepsSolanaIdsOfFirst | sdk/solana/timelock_converter.go:129-145 | on Solana it keeps an id exactly when the batch is the first of its chain |
| Nonces.TransactionCounts | proposal.go:324-331 | counts each chain's operations, with entries for exactly the chains used |
| Nonces.TransactionNonces | proposal.go:339-362 | the wrapped start plus the number of earlier operations of the chain; fails exactly when an operation's chain has no metadata |
| Nonces.NonceIs | proposal.go:339-362 | the nonce is the number, as a cardinality, of operations in front on the same chain plus the start of the chain, modulo 2^64 |
| Nonces.NoncesFillWindow | proposal.go:339-362 | a chain's nonces are exactly its window from the starting op count, in operation order |
| Nonces.GenerateQueuedStartingOpCounts | utils.go:24-39 | the op count each chain has reached after the predecessors, from the first one that uses it |
| Nonces.NewProposal | utils.go:58-86 | rewrites the start of every chain that the predecessors use and no other |
| Nonces.QueueFillsOneWindow | utils.go:24-86 | over any queue, each chain's nonces are one window with nothing skipped or repeated |
| Nonces.QueueNoncesDistinct | utils.go:24-86 | no nonce is used twice on a chain, wrap-around included, up to 2^64 transactions |
| Nonces.StartsWherePreviousEnded | sdk/evm/encoder.go:131-144 | each proposal starts a chain at the post op count of the last proposal that used it |
| MerkleLeaves.HashMetadata | proposal.go:241-257 | one leaf a chain from its start and its number of transactions, or failure |
| MerkleLeaves.HashOperations | proposal.go:259-284 | one leaf an operation under its nonce; fails exactly on missing metadata, a nonce beyond 32 bits or an operation without encoding |
| MerkleLeaves.MerkleTreeLeaves | proposal.go:235-292 | the leaf list is the sorted permutation of all chain and operation leaves, or there is no tree |
| MerkleLeaves.OperationLeafIs | proposal.go:259-284 | the leaf of an operation is the encoder applied to its nonce and itself if the nonce is below 2^32, and otherwise missing |
| MerkleLeaves.ChainLeafIs | proposal.go:241-257 | the leaf of a chain is the encoder applied to its start and its number of operations |
| MerkleLeaves.LeafListHolds | proposal.go:235-292 | a leaf list holds the leaf of every chain and of every operation and is as long as both together |
| MerkleLeaves.LeavesWithout | proposal.go:259-284 | taking out the last operation of a chain takes out its leaf and changes no other operation's leaf |
| MerkleLeaves.InterleavingKeepsLeaves | proposal.go:235-292 | proposals whose chains see the same operations in the same order have the same leaf list, however the chains are interleaved |
| SolanaBatch.ChunkSizePositive | sdk/solana/timelock_converter.go:539-599 | the chunk size is 579 − 32·numProofs, positive exactly up to 18 proofs and never zero |
| SolanaBatch.AppendChunks | sdk/solana/timelock_converter.go:370-393 | emits the pieces of one call's data in order; fails exactly when the size is negative and there is data |
| SolanaBatch.ScheduleBatchInstructions | sdk/solana/timelock_converter.go:337-414 | emits the schedule stream; panics exactly when the chunk size is negative and some call has data |
| SolanaBatch.BypassInstructions | sdk/solana/timelock_converter.go:428-525 | emits the bypass stream, its accounts synced; panics in the same case |
| SolanaBatch.ReplaySchedule | sdk/solana/timelock_converter.go:337-414 | replaying the stream on an empty account rebuilds exactly the batch, its data included, and schedules it |
| SolanaBatch.ReplayBypass | sdk/solana/timelock_converter.go:428-525 | replaying the stream rebuilds exactly the batch and executes it with the given accounts |
| SolanaBatch.EveryReplayIsSound | sdk/solana/timelock_converter.go:337-525 | whatever instructions are replayed in whatever order, only complete operations become final, and only those of the right kind are scheduled or executed |
| SolanaBatch.StreamLength | sdk/solana/timelock_converter.go:337-525 | three instructions, one a call, and one for every chunk begun |
| SolanaBatch.ChunksFit | sdk/solana/timelock_converter.go:370-393 | every appended chunk is non-empty and at most the chunk size |
| SolanaBatch.SyncWritableAttribute | sdk/solana/timelock_converter.go:279-293 | every entry takes the strongest writable flag of its key |
| SolanaBatch.SyncedIs | sdk/solana/timelock_converter.go:279-293 | each entry keeps its key and its signer flag and is writable exactly if some entry with its key was |
| SolanaBatch.SyncedAgrees | sdk/solana/timelock_converter.go:279-293 | after syncing, entries of one key agree; syncing again changes nothing |
| SolanaBatch.UniqueAccounts | sdk/solana/timelock_converter.go:219-251 | one entry a key in first-occurrence order, never a signer, writable exactly if some occurrence is |
| SolanaBatch.AccountsAre | sdk/solana/timelock_converter.go:219-251 | call by call, the accounts are the program, neither signer nor writable, and then the accounts of the call |
| SolanaBatch.FirstKeysAre | sdk/solana/timelock_converter.go:219-251 | the deduplicated keys are exactly the keys that occur, none twice, ordered by first occurrence |
| SolanaBatch.ApplyExecutePayer | sdk/solana/timelock_converter.go:270-277 | the payer's entry becomes a signer and nothing else changes |
| SolanaHash.Preimage | sdk/solana/timelock_converter.go:148-181 | the buffer holds the count, the instructions, the predecessor and the salt |
| SolanaHash.ReadsPreimage | sdk/solana/timelock_converter.go:148-181 | reading the bytes, counts lowest byte first, 32-byte keys and flags 1 for yes, gives back the instructions; the last 32 bytes are the salt and the 32 before them the predecessor |
| SolanaHash.InstructionCut | sdk/solana/timelock_converter.go:156-175 | an instruction's bytes say where it ends, whatever follows |
| SolanaHash.PreimageUnique | sdk/solana/timelock_converter.go:148-181 | preimages are equal exactly when instructions, predecessor and salt are, for lengths that fit their uint32 |
| SolanaPreload.SolanaSignatures | sdk/solana/executor.go:311-323 | converts every signature in order, recovery ids 0 and 1 becoming 27 and 28 |
| SolanaPreload.ConvertedIs | sdk/solana/executor.go:311-323 | each signature keeps its place, r and s; v becomes v + 27 exactly if it is below 2 |
| SolanaPreload.ConvertIsCanonical | sdk/solana/executor.go:311-323 | converting again changes nothing, and only 0 with 27 and 1 with 28 are identified |
| SolanaPreload.ChunkIndexes | sdk/solana/common.go:205-217 | the consecutive ranges of the chunk size |
| SolanaPreload.RangesTile | sdk/solana/common.go:205-217 | the ranges are non-empty, as long as the chunk size except perhaps the last, and tile the items in order |
| SolanaPreload.Executor.PreloadSignatures | sdk/solana/executor.go:215-255 | for every prior account and every pattern of failures it ends; success means an account finalized with exactly the converted signatures in order; over a reliable link it succeeds |
| SolanaPreload.Executor.RetryPreloadSignatures | sdk/solana/executor.go:257-278 | the same for a retry, which clears first and stops at the third attempt |
| SolanaPreload.AttemptCounts | sdk/solana/executor.go:215-278 | a run sends at most one init more than the attempts left and one clear an attempt |
| SolanaPreload.WholeRunCounts | sdk/solana/executor.go:215-278 | a whole run sends at most four inits and three clears |
| SolanaPreload.FinalizedWhenFull | sdk/solana/executor.go:215-255 | an account is finalized exactly when it holds as many signatures as were announced, and never holds more |
| CantonPreimages.DecodeAscii | sdk/canton/encoder.go:197-199 | hex-encoding a string and decoding it gives back its bytes |
| CantonPreimages.WordBytesInjective | sdk/canton/encoder.go:171-194 | padded words of different 64-bit numbers decode to different bytes |
| CantonPreimages.PartsCut | sdk/canton/timelock_crypto.go:22-55 | numbers and length-prefixed strings of the same shape are encoded alike exactly when they are equal, whatever follows |
| CantonPreimages.TimelockOpPreimage | sdk/canton/timelock_crypto.go:22-58 | the text decodes to the call count, the calls, the predecessor and the salt; hex decoding fails exactly on a non-hex or odd-length text |
| CantonPreimages.ReadsTimelockOp | sdk/canton/timelock_crypto.go:22-58 | reading the bytes, numbers as 32-byte big-endian words and strings behind their length, gives the calls with their data as bytes, then the predecessor, then the salt |
| CantonPreimages.TimelockOpPreimageUnique | sdk/canton/timelock_crypto.go:22-58 | preimages are equal exactly when the calls, the predecessor and the salt are, operation data compared as bytes, for any two numbers of calls |
| CantonPreimages.TextsCanShareBytes | sdk/canton/timelock_crypto.go:61-67 | two different operation-data texts that are encoded alike |
| CantonPreimages.TextAloneIff | sdk/canton/timelock_crypto.go:61-84 | a text is encoded like no other text if and only if it is hex of decimal digits whose bytes are themselves hex, or has no hex form |
| CantonPreimages.EncodedBytesStayApart | sdk/canton/timelock_crypto.go:61-67 | operation data that was hex-encoded beforehand is determined by its bytes |
| CantonPreimages.OpLeafPreimageUnique | sdk/canton/encoder.go:88-129 | the operation-leaf text is hex, and its bytes determine every field |
| CantonPreimages.ReadsOpLeaf | sdk/canton/encoder.go:88-129 | the bytes are those of the domain separator and then, read in the same way, the six fields in their order |
| CantonPreimages.MetadataLeafPreimageUnique | sdk/canton/encoder.go:134-165 | the metadata-leaf text is hex, and its bytes determine every field |
| CantonPreimages.ReadsMetadataLeaf | sdk/canton/encoder.go:134-165 | the same for the metadata leaf, whose last byte is 1 for an override and 0 otherwise |
| StellarPreimages.EncodingUnique | sdk/stellar/encode.go:44-54 | ABI encodings of tuples of the same types are equal exactly when the tuples are |
| StellarPreimages.Buffer.AppendUint40 | sdk/stellar/encode.go:22-33 | appends the number's ABI word, or fails and appends nothing, exactly from 2^40 on |
| StellarPreimages.Buffer.AppendBool | sdk/stellar/encode.go:35-41 | appends the ABI word of 0 or 1 |
| StellarPreimages.Buffer.AppendABIBytes | sdk/stellar/encode.go:44-54 | appends the length word, the payload and zeros up to a whole word |
| StellarPreimages.BytesValueInjective | sdk/stellar/encode.go:44-54 | the encoding of a byte string determines it |
| StellarPreimages.RootMetadataPreimage | sdk/stellar/encode.go:58-78 | the buffer is the ABI encoding of the domain and the five fields; fails exactly when an op count reaches 2^40 |
| StellarPreimages.RootMetadataWords | sdk/stellar/encode.go:58-78 | its six words are the domain, the chain id, the multisig, the two op counts as big-endian numbers, and 1 or 0 |
| StellarPreimages.RootMetadataPreimageUnique | sdk/stellar/encode.go:58-78 | that encoding determines every field |
| StellarPreimages.StellarOpPreimage | sdk/stellar/encode.go:82-107 | the buffer is the domain followed by the ABI encoding of the operation tuple, offset 192 included; fails exactly when the nonce reaches 2^40 |
| StellarPreimages.StellarOpWords | sdk/stellar/encode.go:82-107 | its words are the domain, chain id, multisig, nonce, target, value, the offset 192 and the length of the data, followed by the data and zeros up to a whole word |
| StellarPreimages.StellarOpPreimageUnique | sdk/stellar/encode.go:82-107 | it determines the domain and every field |
| StellarPreimages.NotSolidityPair | sdk/stellar/encode.go:80-81 | the Solidity encoding of the pair (domain, tuple) is one word longer, the offset 64 |
| SuiBatch.SerializeBypasserExecuteBatch | sdk/sui/encoder.go:176-209 | the buffer holds the four lists, each behind its 32-bit count |
| SuiBatch.DeserializeBypasserExecuteBatch | sdk/sui/decoder.go:80-134 | returns the lists it read as calls, or the length mismatch; its targets always have 32 bytes |
| SuiBatch.ReadsBatch | sdk/sui/decoder.go:80-113 | reading a serialized batch gives back the batch and whatever follows it |
| SuiBatch.RoundTrip | sdk/sui/decoder.go:80-134 | serializing and deserializing returns the original calls if and only if the four lists are equally long and every target has 32 bytes; lists of different lengths give the mismatch error |
| SuiBatch.SerializeScheduleBatch | sdk/sui/encoder.go:134-174 | the buffer holds the four lists, the predecessor, the salt and the delay |
| SuiBatch.ReadsSchedule | sdk/sui/encoder.go:134-174 | reading the batch, the predecessor, the salt and eight bytes lowest first gives the schedule back |
| SuiBatch.ScheduleUnique | sdk/sui/encoder.go:134-174 | the serialization of a schedule with 32-byte targets determines it |
| Merge.MergeMetadataMaps | merge.go:94-124 | the loop, in any key order, appends lists, merges objects and overwrites the rest, at every depth |
| Merge.MergeMetadata | merge.go:86-92 | the shortcut for empty metadata is no special case |
| Merge.AbsorbedIffMergeIsRight | merge.go:94-124 | merging changes nothing in the right side exactly when it contains or overwrites the left |
| Merge.MergeValueAssociativeIff | merge.go:94-124 | metadata merging is associative if and only if no value of another kind stands between two lists or two objects whose merge would show |
| Merge.MergeChainMetadata | types/chain.go:15-63 | the smaller op count, the common address and the union of agreeing fields; when it fails, and that panics come only from a nil map or from comparing lists or objects |
| Merge.FieldsAssociativeIff | types/chain.go:21-61 | when either grouping of three field documents succeeds, the other does if and only if none is missing in the middle or written out empty twice before content, and then they agree |
| Merge.ChainsAssociativeIff | merge.go:42-56 | the same, chain by chain, for whole chain metadata maps |
| Merge.TimelockProposal.MergeSalt | merge.go:71-79 | adopts the other salt by reference or XORs it into this one in place |
| Merge.TimelockProposal.Merge | merge.go:14-84 | succeeds exactly when the two can be merged, and then the receiver is the combination of both, without signatures |
| Merge.MergeSucceedsIff | merge.go:14-84 | merging succeeds exactly when version, kind and action agree, shared addresses agree, and shared chains have the same MCM address and, under every common field, the same scalar, with nothing to write into missing fields |
| Merge.MergedScalars | merge.go:14-84 | the earlier expiry and the longer delay of the two, the override flag of either, the operations one after the other, the addresses of both |
| Merge.MergedDescription | merge.go:30-35 | one text where the other is empty, otherwise both with a newline between |
| Merge.MergedSalt | merge.go:71-79 | one salt where the other is missing, otherwise the exclusive or, byte by byte |
| Merge.MergedChains | types/chain.go:15-63 | a chain of one side as it is; of a shared one the smaller op count, the common address and the fields of both |
| Merge.MergedMetadata | merge.go:94-124 | a key of one side as it is; lists appended in order, objects merged in the same way, otherwise the value of the right side |
| Merge.MergeAssociativeIff | merge.go:14-124 | when either grouping of three proposals succeeds, both agree if and only if metadata and chain fields group freely, and both succeed if and only if the chain fields do |
| Merge.MetadataGroupingShows | merge.go:94-124 | metadata [1], "s" and [2] under one key: both groupings succeed with different results |
| Merge.MissingFieldsShow | types/chain.go:31-42 | additional fields missing in the middle: only the left grouping succeeds |
| Merge.EmptyFieldsShow | types/chain.go:31-56 | additional fields written out empty twice before any content: only the right grouping succeeds |
| Merge.MergeAssociative | merge.go:14-124 | with metadata of the same kinds and freely grouping fields, both groupings fail together or agree |
| Merge.AdoptedSaltIsShared | merge.go:71-79 | after adopting a salt, the next merge rewrites the salt of the proposal it came from |
| Ledger.Send | sdk/usbwallet/ledger.go:493-528 | refuses exactly commands longer than a uint16; otherwise writes the numbered packets of the length-prefixed command |
| Ledger.CommandBytes | sdk/usbwallet/ledger.go:493-508 | a command is its length in two bytes, highest first, then 0xe0, opcode, both parameters, the data length and the data |
| Ledger.PacketHeaders | sdk/usbwallet/ledger.go:509-528 | every packet but the last has 64 bytes and each starts with 01 01 05 and its number in two bytes |
| Ledger.PacketsCarry | sdk/usbwallet/ledger.go:509-528 | behind their headers the packets carry exactly the bytes of the command |
| Ledger.ReadReply | sdk/usbwallet/ledger.go:530-560 | reassembles a reply packet by packet, with its header error, read error and slice panic |
| Ledger.EchoGivesCommand | sdk/usbwallet/ledger.go:493-561 | reading back the packets of any accepted command, padded with anything, gives the command without its last two bytes |
| Ledger.BrokenEcho | sdk/usbwallet/ledger.go:530-560 | a reply that breaks off before its end is a read error, and one that goes on with a foreign packet is an invalid header |
| Ledger.OnePacketReply | sdk/usbwallet/ledger.go:530-561 | a reply announced to fit one packet is its payload without the two status bytes, and a slice panic below two |
| Ledger.PacketIndices | sdk/usbwallet/ledger.go:511-514 | packet numbers count up and never wrap to zero |
| Ledger.PacketCount | sdk/usbwallet/ledger.go:511-528 | one packet for every 59 bytes begun |
| Ledger.ChunkSize | sdk/usbwallet/eip191.go:94-97 | the search finds the largest size up to 255 whose last piece is long enough |
| Ledger.ChunkSizeBounds | sdk/usbwallet/eip191.go:94-97 | for every payload of 4 to 8096759 bytes it stops between 251 and 255 |
| Ledger.ChunkSizeBoundIsSharp | sdk/usbwallet/eip191.go:94-97 | one byte more and it reaches 250 |
| Ledger.FullChunksWhen | sdk/usbwallet/eip191.go:94-97 | the full 255 bytes are used exactly when they leave more than three over |
| Ledger.SendInChunks | sdk/usbwallet/eip191.go:99-112 | the commands carry the pieces in order, the first with parameter 0x00 and every other with 0x80 |
| Ledger.PiecesAreLongEnough | sdk/usbwallet/ledger.go:354-374 | the pieces concatenate to the payload, each fits one length byte, and each, the last included, is longer than three bytes |

## Left out

- RPC clients, wallets, inspectors, configurers and transaction submission, which talk to go-ethereum, the Solana, Aptos,
  Sui and TON SDKs and Canton's ledger API: not modelled.
- Keccak, ECDSA recovery, address derivation, JSON and struct-tag validation: the models start from parsed values.
- The Merkle tree itself: only its sorted leaf list is modelled.
- Chain-specific conversion of a batch: a parameter of `TimelockIds.Convert`.
- Parsing of program ids, addresses and additional fields, and the errors it gives.
- TimelockIds.IdsNameHistories: assumes no collision among the preimages of the chains compared, as do the other
  distinctness lemmas; each family's encoding of the calls is a parameter, and two batches with the same encoding are the
  same calls.
- SolanaBatch.ReplaySchedule: for batches of fewer than 2^32 calls; beyond that the builder's 32-bit instruction index
  wraps.
- SolanaBatch.ReplayBypass: the same bound.
- SolanaHash.PreimageUnique: for lengths below 2^32; longer ones are truncated by the cast.
- SolanaHash.ReadsPreimage: the same bound.
- SuiBatch.ReadsSchedule: the same bounds as for `ScheduleUnique`.
- SuiBatch.ScheduleUnique: for lists below 2^32 entries and 32-byte targets; strings are below 2^32 bytes throughout,
  the limit of a BCS length.
- SuiBatch.DeserializeBypasserExecuteBatch: promises nothing about the values read from input that ends early, since
  those come from the BCS library.
- Merge.TimelockProposal.Merge: nothing is promised about the receiver when it fails, nor about its value when a
  proposal is merged into itself; salts of two proposals have the same length, as 32-byte hashes do.
- Merge.MergeChainMetadata: JSON null and the difference between a missing and an empty metadata document beyond a nil
  map are not modelled.
- SolanaPreload.Executor.PreloadSignatures: at most 255 signatures, as its caller ensures.
- CantonPreimages.OpLeafPreimageUnique: for non-negative chain ids; a negative one makes the source panic.
- TimelockIds.Convert: the errors of a failed conversion are not told apart.
- Sharing of a slice's backing array after `append` is not modelled; slices are values.
- TON dictionaries are lists in key order; their cell encoding is left out.
- Execution error decoding, Canton's reflective decoder, USB enumeration, wall-clock checks, the chain wrappers, the
  factories, the builders and the mocks: not modelled.
