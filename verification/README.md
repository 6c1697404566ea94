# The sealable trie, the guest chain and its light client: a Dafny model

This project models the logic of three parts of the repository and proves what they are for.

**The sealable Merkle trie.** A binary Patricia trie in a pool of fixed-size blocks that commits to a map
from byte keys to value hashes. Values and whole subtries can be sealed: their nodes are freed while the
commitment stays. `Tree`, `SetSpec`, `DelSpec` and `SealSpec` describe each operation on the trie as a
value, branch by branch as the code has it; `History` shows that every history of operations acts as on a
finite map, `Answers` that the map alone decides every answer and every error, `Commitment` what the root
hash says about the map and `Proof` that membership and non-membership proofs are sound, complete and
unambiguous. `Memory` models the allocator, whose free list
runs through the free blocks, and the write log that makes operations atomic. `Heap` places the nodes of a
trie in blocks, and `TrieSet`, `TrieDel`, `TrieSeal`, `Trie` and `Subtrie` are the operations as the code
performs them, reading and writing blocks, each proved to do in memory what the value-level operation does,
with an exact account of the blocks used. `DoubleFree` says when freeing a block runs into the assertion
against double frees, and `ZeroHash` that this takes a zero hash among the values stored. `Bits` holds the
operations on bit slices, `ByteBits` the code that does them with bytes and masks, `Encoding` the bytes of
nodes and of what is hashed, and `Serialisation` the bytes of proofs.

**The guest chain.** `Candidates` is the ranking of validator candidates with its incrementally kept head
sum, `Epochs` epochs and quorums, `GuestChain` blocks and finalised chains, `Manager` the state machine that
generates blocks, collects signatures and rotates epochs. `Client` is the light client and `Following`
composes the two: what the client accepts of a chain and when its two epoch commitments are the right ones.

**Two smaller parts.** `Fanout` is the Merkle tree with a fan-out of sixteen over account hashes and its
proofs, `Ed25519` the writer and the reader of signature verification instructions.

Objects whose methods update fields are classes here; functions and lemmas describe what they do. Hashes are
unbounded numbers and the hash functions are constants about which nothing is assumed but that the node
hash and the block hash are never the all-zero hash. Where a property needs different inputs to have
different hashes, it says which inputs must not collide (`NoCollision` and its like) and nothing is assumed
beyond these. Signature verification is an arbitrary relation.

Preconditions come from the code: validators' public keys are distinct, a genesis block commits to the epoch
it brings, sums of stakes fit 128 bits and heights 64 bits where the code would panic.

What the proofs found where documentation and code differ, or where a promise holds on part of the inputs:

- The allocator's documentation takes it for cryptographically impossible that a node ends in 32 zero bytes, which
  mark a free block. A node ends in the hash of a child, and a value stored may have the zero hash: freeing such a
  node panics. No run of operations ever panics if and only if the zero hash is not among the values stored
  (`ZeroHash.SafeWithoutZero`); stored alone it can never be deleted (`ZeroHash.ZeroPanics`). The IBC program
  stores the zero hash as packet receipt (`solana/solana-ibc/programs/solana-ibc/src/execution_context.rs:203-209`),
  and the witnessed trie stores any 32 bytes of an instruction (`solana/witnessed-trie/src/api.rs:127`). The trie's
  methods return `Panic` then and promise nothing about the state behind it, which the runtime rolls back.
- The documentation of `Trie` speaks of keys of up to 36 bytes that fit one node; the code allows 34 bytes, and
  the root hash is a function of the stored map exactly for keys of at most that many
  (`Commitment.ThirtyFourBytes`).
- `seal` is documented to seal all keys that start with the given one as well; a trie never holds such keys
  (`Tree.PrefixFree`), so one entry is sealed.
- `new_instruction` is documented to fail only for more than 255 entries or a message longer than 65535
  bytes; it also fails when all messages together, repeated ones included, might not fit
  (`Ed25519.NewInstruction`).
- `maybe_generate_next_epoch` is documented to panic without candidates; it returns nothing, but there always
  are candidates.
- `update_config` compares the minimum total stake with the head as it was before a change of
  `max_validators` (`Manager.MinimumAfterUpdate`, `Manager.MinimumCanBeMissed`).
- When an epoch's commitment returns after one other epoch, the client can be left expecting the wrong epoch
  (`Following.RepeatedCommitmentMisleads`); `Following.ExpectsRightEpoch` tells from the header when it is not,
  `Following.StaysInSync` when the epoch before is right as well.
- `generate_merkle_proof` panics when a node on the way to the root is alone in its chunk, and the proof for
  a single account does not verify (`Fanout.GenerateMerkleProof`, `Fanout.SingleAccount`).
- `forward_common_prefix` panics on an empty slice that starts inside a byte (`ByteBits.CommonPrefix`);
  insertion returns before that when its key is used up.

`dafny verify dfyconfig.toml` checks the whole project.

## Model

| member | source | states |
|---|---|---|
| History.RunRefines | common/sealable-trie/src/trie.rs:256-335 | every history of set, del, seal and set-and-seal acts on the trie exactly as it acts on a finite map from keys to entries, refused operations changing nothing |
| History.StepRefines | common/sealable-trie/src/trie.rs:256-335 | one operation keeps the trie well formed and changes its entries just as the map operation changes the map |
| History.SetMeaning | common/sealable-trie/src/trie.rs:256-282 | set succeeds if and only if no stored key is a proper prefix or extension of the key and the entry, if any, is not sealed; then it changes that one entry and no other |
| History.DelMeaning | common/sealable-trie/src/trie.rs:320-335 | del removes the entry if and only if there is one and it is not sealed; a key for which get finds nothing is reported as absent without change, and an error is the one get gives, a seal or a key that is too long |
| History.SealMeaning | common/sealable-trie/src/trie.rs:284-307 | seal succeeds if and only if the key has an unsealed entry; it marks that entry only and keeps the root hash |
| History.GetMeaning | common/sealable-trie/src/trie.rs:157-234 | get answers with the stored hash, refuses sealed entries, and for an absent key answers nothing or reports the seal it met |
| History.SetAndSealMeaning | common/sealable-trie/src/trie.rs:309-318 | set-and-seal succeeds exactly when set would and leaves the new entry sealed; otherwise the map is as before |
| Answers.GetAnswer | common/sealable-trie/src/trie.rs:157-234 | get answers by the map alone: an error for a key too long or one that sealed entries leave no room below, the hash of the entry, or nothing |
| Answers.DelAnswer | common/sealable-trie/src/trie.rs:320-335 | del answers by the map alone: the seal exactly where get reports it, and otherwise whether there was an entry; an absent key changes nothing |
| Answers.SealAnswer | common/sealable-trie/src/trie.rs:284-307 | seal answers by the map alone, every error told apart: not found exactly where get finds nothing or the trie is empty |
| Answers.SetAnswer | common/sealable-trie/src/trie.rs:256-282 | set answers by the map alone, every error told apart: the seal exactly at a sealed entry and behind sealed entries that cover a prefix of the key no entry starts, a bad prefix at any other comparable entry |
| Answers.SetAndSealAnswer | common/sealable-trie/src/trie.rs:309-318 | set-and-seal is refused exactly as set is, for the same reason |
| Answers.MapDecides | common/sealable-trie/src/trie.rs:157-335 | tries with equal entries, whatever their shape, give the same answers and errors to every operation |
| History.SealedStays | common/sealable-trie/src/trie/seal.rs:27-101 | no sequence of operations changes or removes a sealed entry |
| History.SealedForever | common/sealable-trie/src/trie.rs:188-233 | after a successful seal, whatever happens later, get, set, del and seal of that key all fail with the sealed error |
| History.RunCompact | common/sealable-trie/src/trie/del.rs:100-161 | with keys of at most 34 bytes no Extension ever leads to an Extension, over all histories |
| History.SameMapSameRoot | common/sealable-trie/src/trie/set.rs:109-176 | two histories over keys of at most 34 bytes that end in the same values, sealed or not, end in the same root hash |
| Commitment.RootBindsMap | common/sealable-trie/src/nodes.rs:150-180 | two well-formed tries with equal root hashes hold equal maps, for keys of any length, unless node hashes collide |
| Commitment.RootCommitsToMap | common/sealable-trie/src/nodes.rs:150-180 | for tries over keys of at most 34 bytes, and as long as no node hashes collide, equal root hashes and equal maps are equivalent |
| Commitment.HashDeterminesShape | common/sealable-trie/src/nodes.rs:150-180 | equal hashes without collision mean the same tree up to what is sealed |
| Commitment.OrderShows | common/sealable-trie/src/nodes.rs:10-16 | two keys of 35 bytes whose order of insertion shows in the root hash |
| Commitment.ThirtyFourBytes | common/sealable-trie/src/nodes.rs:10-16 | the root hash is a function of the stored map for all histories over keys of n bytes if and only if n is at most 34 |
| Tree.CanonicalIsUnique | common/sealable-trie/src/nodes.rs:33-36 | two tries without Extension chains that hold the same values have the same hash |
| Tree.PrefixFree | common/sealable-trie/src/trie/set.rs:182-205 | no key of a well-formed trie is a proper prefix of another |
| Tree.KeysAreBytes | common/sealable-trie/src/trie.rs:256-259 | every key of a well-formed trie is a whole number of bytes, at least one and at most 8191 |
| SetSpec.SetLookup | common/sealable-trie/src/trie/set.rs:64-236 | after insertion the looked-up entry is the new one at the key and the old one everywhere else |
| SetSpec.SetShape | common/sealable-trie/src/trie/set.rs:64-236 | insertion keeps well-formedness, the absence of Extension chains for short keys and the depth limit, and never yields a sealed node |
| SetSpec.SetRefused | common/sealable-trie/src/trie/set.rs:182-205 | a refused insertion exhibits a stored key that is comparable with the new one, sealed if it is the same |
| SetSpec.SetAccepted | common/sealable-trie/src/trie/set.rs:182-205 | an accepted insertion meets no comparable stored key but the same unsealed one |
| SetSpec.SetSealed | common/sealable-trie/src/trie/set.rs:182-205 | insertion at a sealed entry fails with the sealed error |
| SetSpec.FreedIsComplete | common/sealable-trie/src/trie/seal.rs:51-65 | every key meets a sealed entry of a freed subtrie, so nothing can be inserted below it |
| SetSpec.SplitLookup | common/sealable-trie/src/trie/set.rs:97-180 | splitting an Extension gives the new value on one side and all old entries on the other |
| SetSpec.ChainLookup | common/sealable-trie/src/trie/set.rs:214-236 | a value behind a chain of Extension nodes is found under the concatenation of their keys |
| TrieSet.Context.InsertValue | common/sealable-trie/src/trie/set.rs:214-240 | in memory: the loop over chunks from the back builds exactly the chain for the key in fresh blocks, one per chunk, or runs out of blocks; only the first block drawn can end in a zero hash |
| TrieSet.Context.HandleReference | common/sealable-trie/src/trie/set.rs:182-212 | in memory: the blocks below a reference are replaced by those of the trie with the value stored, the number of blocks drawn is exact, and failure is the one of the trie operation or lack of blocks |
| TrieSet.Context.Handle | common/sealable-trie/src/trie/set.rs:64-76 | the same for a node, dispatching on its kind |
| TrieSet.Context.HandleBranch | common/sealable-trie/src/trie/set.rs:78-95 | the same through a Branch, which is updated in place |
| TrieSet.Context.HandleExtension | common/sealable-trie/src/trie/set.rs:97-180 | the same through an Extension, followed when the key continues it and otherwise split in one of three ways |
| TrieSet.Context.PutBranch | common/sealable-trie/src/trie/set.rs:128-160 | the Branch of a split reuses the block of the Extension; both children are in place |
| TrieSet.Context.PutExtension | common/sealable-trie/src/trie/set.rs:160-178 | the common prefix of a split becomes one more Extension |
| TrieSet.Context.Set | common/sealable-trie/src/trie/set.rs:34-62 | the whole operation is committed, or dropped with nothing changed; it runs out of memory only when the blocks needed exceed those there are, and then panics exactly when one of the blocks drawn by then ends in a zero hash |
| TrieSet.ChainLast | common/sealable-trie/src/bits/ext_key.rs:173-198 | cutting the last chunk off a key yields the same chain as cutting off the first one |
| DelSpec.DelLookup | common/sealable-trie/src/trie/del.rs:45-161 | after deletion the key is gone and every other entry is as before |
| DelSpec.DelOutcome | common/sealable-trie/src/trie/del.rs:45-63 | deletion succeeds if and only if the key has an unsealed entry; a sealed entry is reported as such |
| DelSpec.DelShape | common/sealable-trie/src/trie/del.rs:76-194 | deletion cannot fail otherwise and keeps well-formedness, the depth limit and, for short keys, the absence of Extension chains |
| DelSpec.CollapseLookup | common/sealable-trie/src/trie/del.rs:100-117 | a Branch that lost one child keeps all entries of the other one behind its bit |
| DelSpec.ChunksClosedForm | common/sealable-trie/src/bits/ext_key.rs:168-170 | a key is cut into as many chunks as runs of 34 bytes cover the bytes it spans |
| DelSpec.DelCredit | common/sealable-trie/src/trie/del.rs:76-194 | the blocks freed on the way cover the Extension nodes still to be built, so no fresh block is drawn |
| TrieDel.Context.HandleReference | common/sealable-trie/src/trie/del.rs:45-59 | in memory: deletion below a reference frees or rewrites exactly the blocks concerned and defers an Extension that may merge |
| TrieDel.Context.HandleBranch | common/sealable-trie/src/trie/del.rs:76-117 | the same through a Branch, which collapses when a child is gone |
| TrieDel.Context.CollapseBranch | common/sealable-trie/src/trie/del.rs:100-117 | the Branch and an Extension next to it are freed and merged into one deferred Extension |
| TrieDel.Context.HandleExtension | common/sealable-trie/src/trie/del.rs:119-142 | the same through an Extension, whose key is prepended to a deferred one |
| TrieDel.Context.RefFromAction | common/sealable-trie/src/trie/del.rs:180-194 | a deferred Extension is built chunk by chunk from freed blocks |
| TrieDel.Context.Del | common/sealable-trie/src/trie/del.rs:27-43 | the whole operation never runs out of memory; it panics exactly when a block freed and not used again ends in a zero hash; otherwise the pool holds exactly the nodes of the remaining trie, or on failure what it held before |
| SealSpec.GetOutcome | common/sealable-trie/src/trie.rs:174-234 | retrieval in the tree: the entry of the map, or a seal |
| SealSpec.GetSealed | common/sealable-trie/src/trie.rs:188-233 | a seal reported for an absent key is one of a sealed entry comparable with it |
| SealSpec.SealOutcome | common/sealable-trie/src/trie/seal.rs:27-49 | sealing succeeds if and only if the key has an unsealed entry |
| SealSpec.DelFollowsGet | common/sealable-trie/src/trie/del.rs:45-63 | where retrieval finds nothing deletion reports not found, and where it reports a seal so does deletion |
| SealSpec.SealFollowsGet | common/sealable-trie/src/trie/seal.rs:27-49 | where retrieval finds nothing sealing reports not found, and where it reports a seal so does sealing |
| SealSpec.SealLookup | common/sealable-trie/src/trie/seal.rs:27-101 | sealing marks one entry and leaves all hashes and other entries alone |
| SealSpec.SealShape | common/sealable-trie/src/trie/seal.rs:51-101 | sealing keeps the reference of every node, its hash included, and never needs more blocks |
| TrieSeal.SealedIsGone | common/sealable-trie/src/trie/seal.rs:51-65 | no block is kept for anything below a sealed reference |
| TrieSeal.Context.Seal | common/sealable-trie/src/trie/seal.rs:27-49 | in memory: sealing rewrites references or frees Branch nodes just as the tree operation says, and panics exactly when a Branch that becomes sealed ends in a zero hash |
| TrieSeal.Context.UpdateBranch | common/sealable-trie/src/trie/seal.rs:51-65 | a Branch is freed exactly when both its children are sealed; freeing it panics exactly when it ends in a zero hash |
| TrieSeal.Context.SealExtension | common/sealable-trie/src/trie/seal.rs:67-79 | an Extension over a sealed child is rewritten but never freed |
| TrieSeal.Context.SealChild | common/sealable-trie/src/trie/seal.rs:81-101 | the reference to store in the parent, if it changed |
| Trie.Trie.Faithful | common/sealable-trie/src/trie.rs:66-77 | in every state the blocks in use are as many as the trie has nodes in memory, and the stored root hash is the hash of the trie |
| Trie.Trie.constructor | common/sealable-trie/src/trie.rs:124-127 | a new trie is empty |
| Trie.Trie.GetImpl | common/sealable-trie/src/trie.rs:174-234 | the walk over memory gives the answer and the proof of the tree walk |
| Trie.Trie.Get | common/sealable-trie/src/trie.rs:157-163 | get in memory is get on the map |
| Trie.Trie.ProveKey | common/sealable-trie/src/trie.rs:166-172 | the proof handed out is accepted by the verifier for the stored root and its answer is that of get |
| Trie.Trie.Set | common/sealable-trie/src/trie.rs:256-282 | set in memory is set on the tree and one step of a trie in a pool of that size; no block leaks, any error leaves trie and pool alone, lack of memory is reported exactly when the blocks do not suffice, and it panics exactly when then a block drawn ends in a zero hash |
| Trie.Trie.Del | common/sealable-trie/src/trie.rs:320-335 | del in memory is del on the tree and reports an absent key exactly where get finds nothing; it never needs more blocks, never reports lack of memory and panics exactly when a block freed for good ends in a zero hash |
| Trie.Trie.Seal | common/sealable-trie/src/trie.rs:284-307 | seal in memory is seal on the tree, keeps the root hash, never needs more blocks and panics exactly when a Branch that becomes sealed ends in a zero hash |
| Trie.Trie.SetAndSeal | common/sealable-trie/src/trie.rs:309-318 | set-and-seal in memory: it panics exactly when the step in a pool of that size does; any error leaves trie and pool alone |
| ZeroHash.SafeWithoutZero | solana/trie/src/alloc.rs:181-197 | whatever is set, deleted and sealed in whatever order in a pool of whatever size, freeing a block never panics, if and only if the zero hash is not among the values that may be stored |
| ZeroHash.ZeroPanics | solana/trie/src/alloc.rs:181-197 | a zero hash stored in an empty trie and deleted again panics, for every key and every pool |
| ZeroHash.StepIsSafe | solana/trie/src/alloc.rs:181-197 | one operation that stores no zero hash on a trie without any never panics, lack of memory included, and leaves it without any |
| DoubleFree.FreedAreGone | common/sealable-trie/src/trie/del.rs:76-194 | the blocks deletion frees and does not use again are as many as the trie has nodes less |
| DoubleFree.DrawnAreNew | common/sealable-trie/src/trie/set.rs:64-236 | the blocks insertion draws are as many as the trie has nodes more |
| Proof.VerifyImpl | common/sealable-trie/src/proof.rs:199-229 | the loop of the verifier computes the climb from the value to the root |
| Proof.OneAnswer | common/sealable-trie/src/proof.rs:80-229 | for any root hash and key no two different values, and no value together with its absence, are ever accepted, unless node hashes collide |
| Proof.Sound | common/sealable-trie/src/proof.rs:80-229 | against a well-formed trie only what the map says is accepted, unless node hashes collide |
| Proof.SoundMember | common/sealable-trie/src/proof.rs:106-120 | an accepted membership proof shows the value stored |
| Proof.SoundAbsent | common/sealable-trie/src/proof.rs:125-197 | an accepted non-membership proof shows that nothing is stored |
| Proof.NoValueBelow | common/sealable-trie/src/proof.rs:140-197 | what a non-membership proof exhibits leaves no room for a value at the key |
| Proof.ClimbsAgree | common/sealable-trie/src/proof.rs:199-229 | two climbs to one reference agree as far as their keys do |
| Proof.ClimbIsReach | common/sealable-trie/src/proof.rs:199-229 | a climb that ends at the hash of a trie started at the subtrie its key leads to |
| Proof.Complete | common/sealable-trie/src/proof.rs:246-322 | whatever proof the trie produces is accepted, and its answer is that of get |
| Proof.ProveIsGet | common/sealable-trie/src/trie.rs:174-234 | asking for a proof does not change the answer |
| Memory.Allocator.Alloc | solana/trie/src/alloc.rs:156-167 | a block that was not live is handed out, the free list first; it fails just when no room is left |
| Memory.Allocator.AllocFromFreelist | solana/trie/src/alloc.rs:42-50 | the first free block is taken off the list inside the blocks; live blocks are untouched |
| Memory.Allocator.AllocNextBlock | solana/trie/src/alloc.rs:52-62 | the next block never used is taken, or there is no room |
| Memory.Allocator.Get | solana/trie/src/alloc.rs:169-173 | what was stored last |
| Memory.Allocator.Set | common/memory/src/lib.rs:127-132 | one block changes |
| Memory.Allocator.Free | solana/trie/src/alloc.rs:181-197 | one live block becomes free and all others keep their contents; it fails, and changes nothing, exactly when the last 32 bytes of the block are zero |
| Memory.WriteLog.constructor | common/memory/src/lib.rs:172-182 | a log starts without changes |
| Memory.WriteLog.Alloc | common/memory/src/lib.rs:198-207 | a block freed in the same log is reused, the one freed last first, before a fresh one is drawn; the block is live in the pending state and was not before |
| Memory.WriteLog.Set | common/memory/src/lib.rs:209-211 | a pending write to one block |
| Memory.WriteLog.Free | common/memory/src/lib.rs:213 | a pending free of one block |
| Memory.WriteLog.Commit | common/memory/src/lib.rs:185-194 | the pool afterwards holds exactly the pending state, last writes included; it fails exactly when a block still to be freed looks free by what it will hold |
| Memory.WriteLog.Drop | common/memory/src/lib.rs:216-224 | the pool afterwards holds exactly what it held when the log was opened; it fails exactly when a block drawn since looks free |
| Memory.AfterReuse | common/memory/src/lib.rs:198-207 | a freed block that is handed out again is not freed at commit |
| Heap.OneBlockPerNode | solana/trie/src/alloc.rs:12-28 | nodes do not share blocks: as many blocks as nodes |
| Bits.CommonPrefixLen | common/sealable-trie/src/bits.rs:395-435 | the longest common prefix of two bit sequences |
| ByteBits.CommonPrefix | common/sealable-trie/src/bits.rs:395-435 | comparing byte by byte finds the longest common prefix of two slices; it fails exactly on an empty slice that starts inside a byte |
| ByteBits.EqualViews | common/sealable-trie/src/bits.rs:711-748 | equality by masks on the first and last byte is equality of offset and bits |
| ByteBits.StartsWithViews | common/sealable-trie/src/bits.rs:285-336 | a slice starts with another one, as compared by bytes, exactly when its bits and offset do |
| ByteBits.PrependBitView | common/sealable-trie/src/bits/concat.rs:124-140 | a bit put in front, in the first byte or in one of its own, is concatenation of the bits, refused when too long |
| ByteBits.SplitViews | common/sealable-trie/src/bits.rs:248-264 | splitting by moving the byte pointer splits the bits |
| ByteBits.Owned.PushBack | common/sealable-trie/src/bits.rs:608-627 | a bit is appended unless the length would not fit sixteen bits; no bytes more than needed are kept |
| ByteBits.Owned.PopBack | common/sealable-trie/src/bits.rs:644-652 | the last bit is returned and removed |
| ByteBits.Owned.Truncate | common/sealable-trie/src/bits.rs:679-684 | the first bits are kept |
| ByteBits.Owned.SetLast | common/sealable-trie/src/bits.rs:703-708 | the last bit is replaced |
| ByteBits.Owned.Extend | common/sealable-trie/src/bits/concat.rs:187-216 | appending by mixing the byte the slices meet in is concatenation of the bits, refused when misaligned or too long |
| ByteBits.ChunksMakeUp | common/sealable-trie/src/bits/ext_key.rs:145-158 | every chunk is an Extension key and together they make up the slice |
| ByteBits.NextBackViews | common/sealable-trie/src/bits/ext_key.rs:173-198 | the last run of 34 bytes, less the bits of the last byte outside of the slice, is the last chunk, and what is left are the bits before it |
| ByteBits.BackIsReverse | common/sealable-trie/src/bits/ext_key.rs:173-198 | chunks taken from the back by bytes are those from the front in reverse |
| Encoding.DecodeEncodedKey | common/sealable-trie/src/bits/ext_key.rs:64-92 | decoding an Extension key gives back what was encoded |
| Encoding.EncodeDecodedKey | common/sealable-trie/src/bits/ext_key.rs:64-92 | whatever decodes is the encoding of its key with all other bits cleared |
| Encoding.DecodeEncodedRef | common/sealable-trie/src/nodes.rs:289-324 | decoding a reference gives back what was encoded |
| Encoding.EncodeDecodedRef | common/sealable-trie/src/nodes.rs:289-324 | no two byte strings decode to one reference |
| Encoding.DecodeEncodedNode | common/sealable-trie/src/nodes.rs:213-245 | a node stored in a block is the node read from it |
| Encoding.EncodeDecodedNode | common/sealable-trie/src/nodes.rs:213-245 | no two byte strings decode to one node |
| Encoding.LooksFree | common/sealable-trie/src/nodes.rs:101-107 | the last 32 bytes of a stored node are cleared exactly when the hash it ends with is all zero, which is what the allocator is told to look for |
| Encoding.HashInputInjective | common/sealable-trie/src/nodes.rs:150-180 | different node contents are hashed from different bytes |
| Encoding.KeyLayout | common/sealable-trie/src/bits/ext_key.rs:64-92 | where length, offset, tag and each single bit of an Extension key are in its bytes, all other bits being clear |
| Encoding.NodeLayout | common/sealable-trie/src/nodes.rs:38-100 | where the two references of a Branch, or key and child of an Extension, are in the 72 bytes, and where pointer, marks and hash are in a reference |
| Encoding.HashInputLayout | common/sealable-trie/src/nodes.rs:150-180 | what is hashed for a node byte by byte: the tag, the left hash before the right one, or the key before the hash of the child |
| Encoding.ParseFingerprintBytes | common/guestchain/src/block.rs:282-303 | parsing a fingerprint gives back genesis hash, height and block hash |
| Encoding.FingerprintLayout | common/guestchain/src/block.rs:282-303 | a fingerprint is the genesis hash, the height with its least significant byte first, and the block hash, at these positions |
| Serialisation.DecodeEncodedProof | common/sealable-trie/src/proof/serialisation.rs:20-96 | a proof is refused exactly from 8192 entries on; otherwise decoding gives it back and consumes exactly its bytes, whatever follows |
| Serialisation.ReadWrittenItem | common/sealable-trie/src/proof/serialisation.rs:101-146 | the same for one item, whose first byte tells it from an actual entry |
| Serialisation.ReadWrittenActual | common/sealable-trie/src/proof/serialisation.rs:152-236 | the same for the actual entry of a non-membership proof, which leaves at least one bit of the key when it is a value |
| Serialisation.ProofLayout | common/sealable-trie/src/proof/serialisation.rs:20-236 | where number of entries, kind, actual entry and items with their tags, lengths and hashes are in the bytes of a proof |
| Serialisation.SentProofVerifies | common/sealable-trie/src/proof/serialisation.rs:20-96 | a proof made by the trie arrives as it was sent and is accepted |
| Subtrie.EntriesTell | common/sealable-trie/src/trie/iter.rs:77-140 | the entries listed below a key are exactly what is known of the keys it starts: values and, where a seal begins, one entry without hash; below a seal there is just one entry |
| Subtrie.KnownOrSealed | common/sealable-trie/src/trie/iter.rs:158-220 | every stored value is either known or behind a seal that is |
| Subtrie.EntriesInOrder | common/sealable-trie/src/trie/iter.rs:158-220 | entries come in strict key order |
| Subtrie.Context.HandleNode | common/sealable-trie/src/trie/iter.rs:158-190 | in memory: the entries of the subtrie are added and the shared prefix is cut back to the length asked for |
| Subtrie.Context.HandleRef | common/sealable-trie/src/trie/iter.rs:192-220 | the same below a reference |
| Subtrie.GetSubtrieRoot | common/sealable-trie/src/trie/iter.rs:77-140 | the loop finds where the key ends, inside an Extension too |
| Subtrie.GetEntries | common/sealable-trie/src/trie/iter.rs:35-51 | the list returned for a trie in memory is that of its tree |
| Candidates.Ranking.constructor | common/guestchain/src/candidates.rs:70-94 | a ranking starts as the sorted validators and counts as changed exactly when there are more than may validate |
| Candidates.Ranking.Update | common/guestchain/src/candidates.rs:146-172 | the ranking becomes the one wanted, or the update is refused with the error the limits call for and changes nothing; the flag is set if and only if it was or the head is another one now |
| Candidates.Ranking.DoUpdate | common/guestchain/src/candidates.rs:174-192 | placing a candidate by binary search, with or without an old entry; the flag is set exactly when the head changes |
| Candidates.Ranking.DoRemove | common/guestchain/src/candidates.rs:194-210 | removal, refused when too few candidates or too little stake would be left; the flag is set exactly when the head changes |
| Candidates.Ranking.AddImpl | common/guestchain/src/candidates.rs:212-221 | a new candidate; the head sum changes by what comes in less what is pushed out, and the flag is set exactly when the head changes |
| Candidates.Ranking.UpdateImpl | common/guestchain/src/candidates.rs:223-267 | moving a candidate by rotation, for each way to enter, leave or stay in the head; the flag is set exactly when the head changes |
| Candidates.Ranking.UpdateStakeForRemove | common/guestchain/src/candidates.rs:269-282 | the head sum without a candidate, never below zero |
| Candidates.Ranking.UpdateMaxValidators | common/guestchain/src/candidates.rs:107-116 | resizing the head recomputes its sum only when its size changes; the flag is set exactly when the head changes |
| Candidates.Ranking.BinarySearch | common/guestchain/src/candidates.rs:174-192 | the position a candidate is or belongs at |
| Candidates.WantedStakes | common/guestchain/src/candidates.rs:140-145 | the ranking wanted is that of the stakes with one changed |
| Candidates.StakesDetermineRanking | common/guestchain/src/candidates.rs:355-376 | equal stakes give equal rankings, whatever the history |
| Candidates.RefusalMeans | common/guestchain/src/candidates.rs:146-210 | why an update is refused, in terms of stakes and head sums: a stake below the minimum, too few candidates left, or a candidate that loses weight in the head and leaves it below the minimum total |
| Candidates.HeadSumHolds | common/guestchain/src/candidates.rs:223-267 | an update in which a candidate does not lose weight in the head never lowers the head sum |
| Candidates.LimitsHold | common/guestchain/src/candidates.rs:146-210 | once the limits are met they stay met whatever updates are requested: enough candidates, no stake below the minimum, enough stake in the head |
| Candidates.RotatedIsMove | common/guestchain/src/candidates.rs:337-353 | rotating and overwriting is removing and inserting |
| Candidates.HeadSumInsert | common/guestchain/src/candidates.rs:212-221 | how an insertion moves the sum of the head |
| Candidates.HeadSumRemove | common/guestchain/src/candidates.rs:269-282 | how a removal moves the sum of the head |
| Epochs.NewWith | common/guestchain/src/epoch.rs:65-81 | an epoch is made exactly when the stakes sum to a positive 128-bit number and the quorum does not exceed it |
| Epochs.QuorumsMeet | common/guestchain/src/manager.rs:295-301 | two quorums of an epoch that needs a majority have a validator in common |
| Epochs.SomeoneMissing | common/guestchain/src/manager.rs:325-331 | without a quorum some validator has not signed |
| Epochs.SignedAdd | common/guestchain/src/manager.rs:320-327 | one more signer adds exactly its stake |
| GuestChain.GenerateNext | common/guestchain/src/block.rs:206-242 | the next block continues the header in height, times, hash and epoch identifier, or is refused for the time that does not rise |
| GuestChain.RisingAlongChain | common/guestchain/src/block.rs:206-242 | along every finalised chain heights rise by one and host heights and timestamps rise strictly |
| GuestChain.EpochIdNamesEpoch | common/guestchain/src/block.rs:45-66 | the epoch identifier of a block is the hash of the block that committed to the epoch whose validators signed it, with no other commitment in between |
| GuestChain.FirstOfEpoch | common/guestchain/src/block.rs:52-56 | a block starts an epoch exactly when its epoch identifier is the hash of its predecessor, unless block hashes collide |
| GuestChain.ForkIsAccountable | common/guestchain/src/manager.rs:305-341 | where two finalised chains with a common genesis part, some validator has signed two different headers for one height |
| Manager.ChainManager.New | common/guestchain/src/manager.rs:128-151 | a chain starts unless the block has a predecessor or an epoch identifier or brings no epoch; the candidates are its validators, and the flag is set exactly when they are more than may validate |
| GuestChain.FingerprintNamesHeader | common/guestchain/src/block.rs:282-303 | what validators sign names one header of one chain, unless block hashes collide |
| Manager.QuorumFor | common/guestchain/src/manager.rs:295-301 | the quorum of a generated epoch is the least stake that is more than half and at least the configured minimum, or all there is |
| Manager.ChainManager.MaybeGenerateNextEpoch | common/guestchain/src/manager.rs:286-302 | an epoch of the head of the candidates with a majority quorum is generated exactly when the current one is old enough and the head has changed |
| Manager.ChainManager.ValidateGenerateNext | common/guestchain/src/manager.rs:245-272 | exactly when, and with which error, no block may be generated |
| Manager.ChainManager.GenerateRefusal | common/guestchain/src/manager.rs:245-272 | each refusal in plain terms: a block pending, too few host blocks since the last one, or nothing new, no epoch due and the last block too young |
| Manager.FinalisedSpaced | common/guestchain/src/manager.rs:196-272 | blocks that keep least distances in host blocks, epochs in host blocks and idle blocks in time still do once the pending one is finalised |
| Manager.ChainManager.GenerateNext | common/guestchain/src/manager.rs:196-236 | the generated block waits with no signers, continues the chain, is remembered among the last twenty, brings an epoch exactly when one is due, with the least quorum there may be, and then clears the flag; it keeps the distances configured, and a refusal changes nothing |
| Manager.ChainManager.AddSignature | common/guestchain/src/manager.rs:305-341 | the outcome for every input; stake is counted once per validator without overflow, the block is finalised exactly at a quorum, and before that some validator is missing |
| Manager.SignatureCounts | common/guestchain/src/manager.rs:320-331 | what one more valid signature does to a pending block |
| Manager.ChainManager.UpdateCandidate | common/guestchain/src/manager.rs:349-359 | candidates change as the ranking says and the chain is untouched; the flag is set exactly when the head changes, and a head not marked as changed is the validator set of the epoch generated last |
| Manager.ChainManager.UpdateConfig | common/guestchain/src/config.rs:141-185 | the configuration changes exactly when its limits fit each other, the validators of the epoch and the stake of the head before the change; the flag is set exactly when the head changes |
| Manager.ConfigRefusal | common/guestchain/src/config.rs:141-185 | a configuration is accepted if and only if no limit exceeds what there is or what it is to be below; each refusal names a limit that does |
| Manager.AppliedSets | common/guestchain/src/config.rs:146-184 | each limit that is given, and no other, changes |
| Manager.MinimumQuorumNeeded | common/guestchain/src/config.rs:160-172 | with an accepted configuration and a head above the minimum total stake, a generated epoch needs the minimum quorum |
| Manager.MinimumAfterUpdate | common/guestchain/src/manager.rs:172-185 | after an accepted change the head holds the minimum total stake exactly when the candidates dropped from it, which the check does not look at, hold no more than was to spare |
| Manager.MinimumCanBeMissed | common/guestchain/src/manager.rs:172-185 | an accepted change that leaves the head below the minimum accepted with it |
| Manager.RememberedBlocks | common/guestchain/src/manager.rs:217-224 | the blocks remembered are the last twenty generated, or all if fewer, at consecutive heights with rising timestamps and with their hashes |
| Manager.ChainManager.constructor | common/guestchain/src/manager.rs:139-150 | the manager of a chain that has only its genesis block |
| Client.VerifyHeader | common/cf-guest/src/client/impls.rs:481-524 | a header passes if and only if genesis and epoch are expected and some run of good signatures by different validators from the start reaches the quorum; each refusal says what it found |
| Client.AcceptedHasQuorum | common/cf-guest/src/client/impls.rs:500-520 | an accepted header was signed by validators of its epoch that hold a quorum |
| Client.QuorumIsAccepted | common/cf-guest/src/client/impls.rs:500-520 | what a quorum of an expected epoch signed can be presented so that it is accepted |
| Client.LightClient.CheckForMisbehaviourInHeader | common/cf-guest/src/client/impls.rs:545-594 | looking at the neighbours finds a contradiction exactly when there is one with any stored state; height zero is an error |
| Client.ConsistentKeepsRising | common/cf-guest/src/client/impls.rs:573-593 | a header is not flagged exactly when storing it keeps timestamps rising with height |
| Client.ContradictionIsConflict | common/cf-guest/src/client/impls.rs:545-594 | a header contradicts what is stored if and only if no map with rising timestamps holds it along with all that is stored |
| Client.EvidenceIsConflict | common/cf-guest/src/client/impls.rs:596-617 | two valid headers are evidence of misbehaviour if and only if no map with rising timestamps holds both, unless block hashes collide |
| Client.ContradictionIsMisbehaviour | common/cf-guest/src/client/impls.rs:545-617 | a header contradicts the stored state of another one if and only if the two are evidence |
| Client.LightClient.DoUpdateState | common/cf-guest/src/client/impls.rs:408-437 | the state of the header is stored and all other states stay but an earliest one that expired; the latest height follows; timestamps keep rising if the header was not flagged |
| Client.UpdateTakesIn | common/cf-guest/src/client/impls.rs:408-437 | the same in plain terms for the state after an update |
| Client.LightClient.PruneOldestConsensusState | common/cf-guest/src/client/impls.rs:633-647 | the earliest state is dropped exactly when it has expired |
| Client.PrunedStaysConsistent | common/cf-guest/src/client/impls.rs:408-437 | pruning before the insertion lets no contradiction through |
| Following.StaysInSync | common/cf-guest/src/client.rs:76-97 | a header above the latest height keeps an up-to-date client up to date if and only if it belongs to the epoch expected and, unless it ends it, that epoch has the predecessor expected |
| Following.ExpectsRightEpoch | common/cf-guest/src/client.rs:76-97 | after a header above the latest height the client expects the right epoch if and only if the header ends its epoch or is of the epoch the client expected |
| Following.OnlyExpectedEpoch | common/cf-guest/src/client/impls.rs:481-495 | with pairwise different commitments no header above the latest height from another epoch is accepted |
| Following.AcceptableBlocks | common/cf-guest/src/client/impls.rs:481-524 | the blocks above its latest height a client can be made to accept are exactly those up to the end of the expected epoch |
| Following.DeliverTracks | common/cf-guest/src/client.rs:76-97 | accepting a block keeps the client tracking the chain: expected epoch, previous epoch and all stored states |
| Following.RunTracks | common/cf-guest/src/client/impls.rs:408-437 | after any finalised headers in any order the client tracks the chain |
| Following.RepeatedCommitmentMisleads | common/cf-guest/src/client.rs:84-94 | when an epoch returns after another one in a finalised chain, a header its validators signed is accepted by the older commitment and the client is left expecting the wrong epoch |
| Following.NeverFlagged | common/cf-guest/src/client/impls.rs:545-594 | blocks of one chain are never flagged against what is stored |
| Following.NoMisbehaviour | common/cf-guest/src/client/impls.rs:596-617 | two blocks of one chain are never evidence of misbehaviour |
| Following.BlockIsEvidence | common/cf-guest/src/client/impls.rs:545-617 | a header contradicts a finalised block if and only if it is evidence together with the header of that block |
| Following.FlaggedIsEvidence | common/cf-guest/src/client/impls.rs:545-617 | whenever a client that tracks a chain flags a header, some finalised block it contradicts is evidence together with it |
| Following.DeliverStores | common/cf-guest/src/client/impls.rs:408-437 | the state of an accepted block is stored |
| Following.AcceptedStaysStored | common/cf-guest/src/client/impls.rs:408-437 | and stays stored, whatever is shown to the client, until the trusting period is over |
| Following.GenesisInSync | common/cf-guest/src/client.rs:62-74 | a client made from the genesis block is up to date |
| Following.ConflictIsAccountable | common/cf-guest/src/client/impls.rs:481-524 | a header accepted against a finalised block of the same epoch and height was signed by a validator that signed both |
| Fanout.ComputeMerkleRoot | common/cf-solana/src/proof.rs:532-563 | collapsing level by level in one buffer computes the root of the tree |
| Fanout.CollapseLevel | common/cf-solana/src/proof.rs:544-560 | one level is replaced by the next; writing never overtakes reading |
| Fanout.LevelInOrder | common/cf-solana/src/proof.rs:532-563 | sixteen hashes in order make one of the next level; up to sixteen accounts are hashed in order to the root |
| Fanout.GenerateMerkleProof | common/cf-solana/src/proof.rs:569-593 | a proof is made if and only if no node on the way up is without sibling; hashing along it gives the root of two or more accounts, and each byte of its path holds position and number of siblings |
| Fanout.ExpectedRootImpl | common/cf-solana/src/proof.rs:91-108 | the loop over levels hashes along the proof |
| Fanout.PushLevel | common/cf-solana/src/proof.rs:124-137 | position and siblings are appended, or the assertion on a lone node fails |
| Fanout.SingleAccount | common/cf-solana/src/proof.rs:532-563 | for one account the empty proof gives the root exactly when the account hash is its own digest |
| Fanout.AloneSomewhere | common/cf-solana/src/proof.rs:150-157 | account 16 of 17 and account 256 of 258 have no proof |
| Fanout.EveryoneProvable | common/cf-solana/src/proof.rs:569-593 | all accounts have proofs if and only if no level of the tree has sixteen times some number plus one nodes, above one |
| Fanout.OneAccount | common/cf-solana/src/proof.rs:91-108 | one proof and one root belong to one account hash, unless chunk hashes collide |
| Fanout.DecodeEncoded | common/cf-solana/src/proof.rs:162-187 | decoding a proof gives back what was encoded |
| Fanout.EncodeDecoded | common/cf-solana/src/proof.rs:162-187 | whatever decodes is the encoding of a valid proof |
| Fanout.BinaryLayout | common/cf-solana/src/proof.rs:162-187 | where depth, path and each sibling are in the bytes |
| Fanout.DecodingPanics | common/cf-solana/src/proof.rs:139-187 | decoding panics exactly when the path, complete and of at most sixteen levels, holds a position beyond the siblings |
| Ed25519.NewInstruction | solana/signature-verifier/src/ed25519_program.rs:35-64 | an instruction is made exactly for fewer than 256 entries that fit sixteen-bit offsets without sharing, and parsing it gives back the entries in order |
| Ed25519.WriteInstructionData | solana/signature-verifier/src/ed25519_program.rs:66-124 | the same for the data, whose size counts a message that starts an earlier one only once |
| Ed25519.MessageReused | solana/signature-verifier/src/ed25519_program.rs:93-104 | a repeated message or prefix is found where the earlier message is |
| Ed25519.EntryReadsBack | solana/signature-verifier/src/ed25519_program.rs:242-276 | a descriptor that leads to an entry is decoded to it |
| Ed25519.EntryLayout | solana/signature-verifier/src/ed25519_program.rs:179-276 | parsing yields an entry if and only if the descriptor at its place, field by field, leads to the signature, key and message in the data |
| Ed25519.Refused | solana/signature-verifier/src/ed25519_program.rs:179-271 | what is no instruction, and which entries are refused for a reference to another instruction |

## Left out

- SHA-256, Blake3 and Ed25519 are arbitrary functions and relations.
- Blocks hold decoded nodes: a block in `Memory` is either a node or a link of the free list. The allocator is given a test on what a block holds in place of a look at its last 32 bytes; `Encoding.LooksFree` shows that the test is that look, and `Encoding` that nodes and their bytes determine each other.
- What a write log does while a panic unwinds, and memory after it, are not modelled.
- The data buffer grows up to a fixed number of blocks; how an account is enlarged beyond is up to the runtime. The header of the buffer and the conversion between block numbers and byte addresses are not modelled.
- Errors of decoding a node do not occur, as only nodes the trie has written are read.
- `ByteBits` covers slices that own or borrow bytes as sequences of eight-bit groups; raw pointers and lifetimes are not modelled.
- The reader and writer loops of the proof serialisation, and the buffer Ed25519 instructions are written into, are modelled on sequences; the order of writes into uninitialised memory is not.
- Borsh encodings of headers, epochs, the manager and consensus states stand behind the arbitrary hash functions; protobuf, serde, `Any` and base64 forms are conversions without logic of their own.
- The consensus states of a client are a map; how the host stores them and their metadata, several clients in one host, client creation, upgrades, status and delays are left out, as are errors of the host.
- Evidence made of two headers is checked by `Client.Misbehaviour`; verifying both headers first is twice `Client.VerifyHeader`.
- In `Fanout` the account list is taken as sorted already; looking the key up, the layout of account hash data and the bank hash around the tree are left out.
- Manager.ChainManager.UpdateConfig: does not promise that the head keeps the minimum total stake, because the code does not; `Manager.MinimumAfterUpdate` says exactly when it does.
- Epochs of a genesis block may have any quorum; the properties that need a majority ask for one.
- Accessors that return a field, and printing.
- The Solana client, account handling, rent, cross-program calls, restaking, the witnessed trie account, the validator program and the command-line tools run on interfaces that are not part of this repository's logic.
