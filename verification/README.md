# Ethereum tries, chains and accounts: a verified model

This project models the parts of ethereumjs-vm 5.9.3, and one encoder of Ganache 7.4.4, on which the
integrity of their data rests, and proves what those parts promise:

- the Modified Merkle Patricia trie with its stack-rewriting `put` and `del`, its node store, its
  checkpoints, its membership proofs, two kinds of range proof, and the transaction trie built on it;
- the RLP codec, in the recursive and in the two-step form;
- fork choice and reorganisation in the blockchain, the database below it, uncle validation and the
  rule on recent Clique signers;
- the supply equation of a block, the EIP-1559 base fee, and the executor of trie walks.

`dafny verify dfyconfig.toml` checks everything.

## Layout

| file | content |
|---|---|
| `ByteStrings.dfy`, `Rlp.dfy`, `RangeEncodings.dfy` | bytes, the RLP printer and parser, Ganache's `encodeRange` and `digest` |
| `NibblePaths.dfy`, `FiniteSets.dfy` | nibble paths and hex-prefix, sizes of sets |
| `Trees.dfy`, `CanonicalTrees.dfy`, `TreeDeletion.dfy` | the trie as an algebraic tree: put, uniqueness of the canonical form, deletion as the code does it |
| `TrieNodes.dfy`, `TriePaths.dfy`, `TrieUpdates.dfy`, `TrieStores.dfy` | nodes and hashes, stacks of nodes whose links are out of date, the store |
| `CheckpointDbs.dfy`, `Tries.dfy`, `TrieRuns.dfy` | the overlay store, the trie object, whole runs against a stack of maps |
| `TrieProofs.dfy`, `TrieLists.dfy`, `RangeProofs.dfy`, `TxTries.dfy` | proofs and the transaction trie |
| `TrieSamples.dfy` | concrete tries, down to the string behind the root |
| `ChainDbs.dfy`, `Ancestries.dfy`, `Reorgs.dfy` | block tables, ancestry, the theory of a reorganisation |
| `Blockchains.dfy`, `ChainRuns.dfy` | the blockchain object, its whole runs |
| `DbManagers.dfy`, `StoredTables.dfy` | keys and caches of the database, the block tables as it stores them |
| `Uncles.dfy`, `CliqueSigners.dfy` | uncle validation over chains, the window of signers |
| `Supply.dfy`, `BaseFees.dfy`, `TaskExecutors.dfy` | balances and gas, base fee, task executor |

## How the proofs are built

The trie has three layers. A tree datatype has a `Lookup`, an `Insert` and a `Delete` that does what the
code does for all keys, right or wrong. The trie object, with its root hash and its checkpointed store, is
proved method by method against that tree: its ghost field names the tree, and `Valid` says that the
store holds every node of it. Runs of the tree are then related to runs of a stack of maps. So a
statement about `get` after any history goes through the stacks, the embedded nodes and the overlays.

The hash function is a parameter. Nothing assumes it injective. Where a property needs it, the
statement names the finite set of strings among which there must be no collision: the strings of the tries involved and of the
proof. Blocks with different contents are likewise required to have different hashes, among the blocks that occur.

The blockchain object keeps, as a ghost field, the headers ever stored, so that "the total
difficulty is the sum along the ancestry" also has a meaning after deletions.

## Where the code does something else than one might expect

- `del` is wrong in two situations, both outside what the callers use. The empty key on a root branch empties the
  whole trie (baseTrie.ts:486-490). A branch with a value of its own and two children collapses when one of
  its leaf children is deleted, and loses that value (baseTrie.ts:511-530); with one child it stays as a branch
  without children. `TreeDeletion.DeleteCorrectIff` and `DeleteCanonicalIff` give the exact conditions,
  `DeleteLosesValues` and `DeleteLosesForm` keys that meet them.
- `getHeader` reads the canonical hash one number below (manager.ts:189). Without validation, a heavier block more
  than two numbers above the canonical height becomes head over a gap in `numberToHash`
  (`Reorgs.ReorgIff`, `Blockchains.GapExample`). With `validateBlocks`, or under Clique, such a
  block is always refused, because reading its parent, or finding the common ancestor, fails first
  (`Blockchains.Blockchain.PutBlocks`).
- After a block beside the canonical chain was deleted, a validating chain can still accept a block three or more above it.
  If that block is heavier than the head, `numberToHash` no longer is its ancestry. Blocks of the least difficulty
  131072 on both branches do it (`ChainRuns.HoleExample`); `ChainRuns.Run` gives the exact condition over whole runs.
- `delBlock` moves the heads in memory but does not save them: the saved entries go on naming a deleted block.
- `hasRightElement` indexes past the end of a key that ends at a branch, and throws
  (`RangeProofs.HasRightExact`, `HasRightThrows`).
- The comment in block.ts:439 says one to eight ancestors are fetched for uncles; it is two to seven. The one exception
  is an uncle that claims number 0: its header is not validated (header.ts:621-623), the fetch goes down
  past the genesis block, and fails there (`Uncles.DepthRange`, `NoGenesisUncle`).
- The comment of `nibblesCompare` states the opposite sign of what the code returns (nibbles.ts:36-43); the code is followed.
- `runBlock` commits the state before it compares the results with the header (runBlock.ts:182, 204-243), so a block that
  throws there keeps all its changes (`Supply.Vm.RunBlock`, `Supply.FailsWithChangedState`).
- With EIP-1559 active, what is bounded by twice the block's gas limit is the gas used so far plus the gas limit of the next
  transaction (runBlock.ts:330-342), so a block can be applied with up to twice its gas limit used. It is accepted if it is
  generated, or not validated; a validated block that agrees with its header stays within the limit
  (`Supply.TwiceTheLimit`, `GasRuleIff`, `Vm.RunBlock`).
- An executor without spots says it is finished while tasks wait forever (`TaskExecutors.WaitsForever`).

## Model

| member | source | states |
|---|---|---|
| `Rlp.RoundTrip` | ethereumjs-monorepo--ethereumjs-vm-5.9.3/packages/rlp/src/index.ts:17-182 | decoding an encoding followed by anything gives back the item and exactly what followed, for every nested list whose lengths fit in eight bytes |
| `Rlp.Exact` | ethereumjs-monorepo--ethereumjs-vm-5.9.3/packages/rlp/src/index.ts:95-182 | every input the parser accepts is the encoding of what it returned, followed by the remainder: there is only one encoding of each item |
| `Rlp.DecodeIsInverse` | ethereumjs-monorepo--ethereumjs-vm-5.9.3/packages/rlp/src/index.ts:76-92 | on non-empty input, `decode` returns an item if and only if the input is the encoding of that item |
| `Rlp.PrefixFree` | ethereumjs-monorepo--ethereumjs-vm-5.9.3/packages/rlp/src/index.ts:17-66 | no encoding is a prefix of another |
| `Rlp.DecodeOne` | ethereumjs-monorepo--ethereumjs-vm-5.9.3/packages/rlp/src/index.ts:95-182 | each parsing step consumes at least one byte, which is why decoding ends |
| `Rlp.EncodeLoop` | ethereumjs-monorepo--ethereumjs-vm-5.9.3/packages/rlp/src/index.ts:17-31 | the recursive encoder with its loop computes the printer |
| `Rlp.DecodeLoop` | ethereumjs-monorepo--ethereumjs-vm-5.9.3/packages/rlp/src/index.ts:95-182 | the recursive decoder with its inner loops computes the parser, errors included |
| `Rlp.DecodeItemsLoop` | ethereumjs-monorepo--ethereumjs-vm-5.9.3/packages/rlp/src/index.ts:147-175 | the loop that takes items off the inner remainder computes the list parser |
| `Rlp.StringForm` | ethereumjs-monorepo--ethereumjs-vm-5.9.3/packages/rlp/src/index.ts:17-66 | strings are written as appendix B of the Ethereum Yellow Paper says: a small byte alone, a short string behind 128 plus its length, a long one behind 183 plus the length of its length and that length |
| `Rlp.ListForm` | ethereumjs-monorepo--ethereumjs-vm-5.9.3/packages/rlp/src/index.ts:17-66 | lists likewise, behind 192 or 247 |
| `Rlp.PayloadForm` | ethereumjs-monorepo--ethereumjs-vm-5.9.3/packages/rlp/src/index.ts:17-31 | the payload of a list is the encodings of its items in order |
| `Rlp.DecodeNothing` | ethereumjs-monorepo--ethereumjs-vm-5.9.3/packages/rlp/src/index.ts:76-92 | the empty input decodes to the empty string |
| `ByteStrings.BigEndianRoundTrip` | ethereumjs-monorepo--ethereumjs-vm-5.9.3/packages/rlp/src/index.ts:194-248 | numbers written big-endian read back, without a leading zero |
| `NibblePaths.BufferRoundTrip` | ethereumjs-monorepo--ethereumjs-vm-5.9.3/packages/trie/src/util/nibbles.ts:8-34 | nibbles of a key make the key again |
| `NibblePaths.NibblePrefix` | ethereumjs-monorepo--ethereumjs-vm-5.9.3/packages/trie/src/util/nibbles.ts:8-20 | paths are prefixes of one another exactly when the keys are |
| `NibblePaths.MatchingLength` | ethereumjs-monorepo--ethereumjs-vm-5.9.3/packages/trie/src/util/nibbles.ts:75-81 | the matching length is the longest common prefix: equal up to it, different at it |
| `NibblePaths.CompareZero` | ethereumjs-monorepo--ethereumjs-vm-5.9.3/packages/trie/src/util/nibbles.ts:44-67 | the comparison is zero exactly on equal paths, and antisymmetric |
| `NibblePaths.CompareTransitive` | ethereumjs-monorepo--ethereumjs-vm-5.9.3/packages/trie/src/util/nibbles.ts:44-67 | the comparison is transitive |
| `NibblePaths.CompareIsOrder` | ethereumjs-monorepo--ethereumjs-vm-5.9.3/packages/trie/src/util/nibbles.ts:44-67 | the comparison is negative exactly when the first path is a proper prefix of the second or has the smaller nibble where they first differ |
| `NibblePaths.HexPrefixRoundTrip` | ethereumjs-monorepo--ethereumjs-vm-5.9.3/packages/trie/src/util/hex.ts:8-47 | reading a hex-prefixed path recovers the path and the leaf flag, for odd and even lengths |
| `NibblePaths.HexPrefixForm` | ethereumjs-monorepo--ethereumjs-vm-5.9.3/packages/trie/src/util/hex.ts:8-47 | a stored path is the compact form of appendix C of the Ethereum Yellow Paper: its first byte is 32 for a leaf, plus 16 and the first nibble for an odd length, and then two nibbles a byte |
| `Trees.InsertLookup` | ethereumjs-monorepo--ethereumjs-vm-5.9.3/packages/trie/src/baseTrie.ts:318-415 | a put changes the value under its own key and under no other key, for arbitrary keys |
| `Trees.InsertCanonical` | ethereumjs-monorepo--ethereumjs-vm-5.9.3/packages/trie/src/baseTrie.ts:370-412 | a put keeps the canonical form: no extension without a key, only branches below extensions, at least two entries in each branch |
| `Trees.InsertShape` | ethereumjs-monorepo--ethereumjs-vm-5.9.3/packages/trie/src/baseTrie.ts:318-415 | a put keeps all paths within the length of the longest key |
| `CanonicalTrees.CanonicalUnique` | ethereumjs-monorepo--ethereumjs-vm-5.9.3/packages/trie/src/baseTrie.ts:318-576 | there is only one canonical tree for each content |
| `CanonicalTrees.StoredKey` | ethereumjs-monorepo--ethereumjs-vm-5.9.3/packages/trie/src/baseTrie.ts:509-540 | every non-empty canonical tree stores a value under some key |
| `TreeDeletion.DeleteCorrectIff` | ethereumjs-monorepo--ethereumjs-vm-5.9.3/packages/trie/src/baseTrie.ts:421-540 | a deletion removes its key and nothing else if and only if it is not the empty key on a root branch and no value sits on a two-child branch directly above the deleted leaf |
| `TreeDeletion.DeleteCanonicalIff` | ethereumjs-monorepo--ethereumjs-vm-5.9.3/packages/trie/src/baseTrie.ts:509-540 | a deletion keeps the canonical form if and only if no value sits on a one-child branch directly above the deleted leaf |
| `TreeDeletion.ValueAboveIsPrefix` | ethereumjs-monorepo--ethereumjs-vm-5.9.3/packages/trie/src/baseTrie.ts:509-540 | the failing branch is only ever taken when a proper prefix of the key is itself a stored key |
| `TreeDeletion.DeletePrefixFree` | ethereumjs-monorepo--ethereumjs-vm-5.9.3/packages/trie/src/baseTrie.ts:421-540 | on content without a prefix of the key, a deletion of a non-empty key is right and keeps the canonical form |
| `TreeDeletion.DeleteLosesValues` | ethereumjs-monorepo--ethereumjs-vm-5.9.3/packages/trie/src/baseTrie.ts:486-490 | with 0x12, 0x1234 and 0x1256 stored, deleting 0x1234 loses another value; with 0x10 and 0x20 stored, deleting the empty key, which is absent, clears the trie |
| `TreeDeletion.DeleteLosesForm` | ethereumjs-monorepo--ethereumjs-vm-5.9.3/packages/trie/src/baseTrie.ts:509-540 | with 0x12 and 0x1234 stored, deleting 0x1234 leaves a tree that is not canonical |
| `TrieNodes.NodeRoundTrip` | ethereumjs-monorepo--ethereumjs-vm-5.9.3/packages/trie/src/trieNode.ts:180-200 | a node read back, embedded or serialized, is the node that was written, and never the empty trie's string |
| `TrieNodes.GetChildren` | ethereumjs-monorepo--ethereumjs-vm-5.9.3/packages/trie/src/trieNode.ts:60-69 | collects exactly the occupied branches, each once with its index, in ascending order |
| `TrieNodes.RefAbsent` | ethereumjs-monorepo--ethereumjs-vm-5.9.3/packages/trie/src/trieNode.ts:51-58 | a link counts as absent exactly when the subtree is empty |
| `TrieNodes.RootCommits` | ethereumjs-monorepo--ethereumjs-vm-5.9.3/packages/trie/src/baseTrie.ts:587-619 | two tries have one root if and only if they are the same tree, among strings that do not collide |
| `TrieNodes.NotTheEmptyRoot` | ethereumjs-monorepo--ethereumjs-vm-5.9.3/packages/trie/src/baseTrie.ts:147-158 | a non-empty trie does not have the root of the empty one, among strings that do not collide |
| `TrieNodes.PairForm` | ethereumjs-monorepo--ethereumjs-vm-5.9.3/packages/trie/src/trieNode.ts:113-178 | a leaf is stored as the RLP pair of its compact path and value, an extension as that of its path and link |
| `TrieNodes.BranchForm` | ethereumjs-monorepo--ethereumjs-vm-5.9.3/packages/trie/src/trieNode.ts:39-49 | a branch is stored as the RLP list of its sixteen links and its value |
| `TrieNodes.RefForm` | ethereumjs-monorepo--ethereumjs-vm-5.9.3/packages/trie/src/baseTrie.ts:587-619 | a link is the empty string, the hash of a node string of 32 bytes or more, or the shorter node itself |
| `TrieNodes.RootForm` | ethereumjs-monorepo--ethereumjs-vm-5.9.3/packages/trie/src/baseTrie.ts:549-619 | the root is the hash of the string of the top node, and of 0x80 for the empty trie |
| `TrieSamples.OneLeaf` | ethereumjs-monorepo--ethereumjs-vm-5.9.3/packages/trie/src/baseTrie.ts:276-280 | the value 0x61 under 0x12 gives the root of c4 82 20 12 61 |
| `TrieSamples.TwoLeaves` | ethereumjs-monorepo--ethereumjs-vm-5.9.3/packages/trie/src/baseTrie.ts:370-412 | with 0x62 under 0x13 as well, the string of an extension above a branch with two embedded leaves |
| `TrieSamples.PutTwo` | ethereumjs-monorepo--ethereumjs-vm-5.9.3/packages/trie/src/baseTrie.ts:147-164 | a new trie object has that root after the two puts |
| `TrieNodes.ResolveRef` | ethereumjs-monorepo--ethereumjs-vm-5.9.3/packages/trie/src/baseTrie.ts:285-299 | a link is read back, from its parent or from the store, as the node it stands for, or is missing |
| `TriePaths.OpenLast` | ethereumjs-monorepo--ethereumjs-vm-5.9.3/packages/trie/src/baseTrie.ts:549-569 | on a stack of stale nodes, refreshing the link of the last one makes it the node of its tree and leaves a shorter stale stack |
| `TriePaths.UpperOpen` | ethereumjs-monorepo--ethereumjs-vm-5.9.3/packages/trie/src/baseTrie.ts:187-249 | the nodes `findPath` collected above any point of the path are such a stale stack for whatever replaces that point |
| `TrieUpdates.InsertIsPlug` | ethereumjs-monorepo--ethereumjs-vm-5.9.3/packages/trie/src/baseTrie.ts:318-415 | a put replaces exactly the last node of the path |
| `TrieUpdates.DeleteAtBranch` | ethereumjs-monorepo--ethereumjs-vm-5.9.3/packages/trie/src/baseTrie.ts:509-540 | a deletion replaces exactly the cleared branch, except where the collapsed rest merges into an extension above |
| `TrieUpdates.DeleteIntoExtension` | ethereumjs-monorepo--ethereumjs-vm-5.9.3/packages/trie/src/baseTrie.ts:452-474 | where the rest merges into the extension above, the deletion replaces that extension |
| `TrieUpdates.ForkReady` | ethereumjs-monorepo--ethereumjs-vm-5.9.3/packages/trie/src/baseTrie.ts:370-412 | the pushed extension, branch and leaf form a stale stack for the forked tree |
| `TrieUpdates.CollapseReady` | ethereumjs-monorepo--ethereumjs-vm-5.9.3/packages/trie/src/baseTrie.ts:429-477 | the pushed extension or shortened node forms a stale stack for the collapsed tree |
| `TrieStores.SoundAfter` | ethereumjs-monorepo--ethereumjs-vm-5.9.3/packages/trie/src/baseTrie.ts:575-575 | a batch of a tree's new node strings leaves a store that holds that tree completely, keeps every older string and gains only strings of that tree |
| `TrieStores.BatchStores` | ethereumjs-monorepo--ethereumjs-vm-5.9.3/packages/trie/src/baseTrie.ts:607-613 | strings filed under their hashes stay filed so, and none is overwritten by another, among strings that do not collide |
| `CheckpointDbs.CachedReadInvisible` | ethereumjs-monorepo--ethereumjs-vm-5.9.3/packages/trie/src/checkpointDb.ts:88-105 | caching a read, even a miss, changes neither the current contents nor any saved ones |
| `CheckpointDbs.MergedOverlay` | ethereumjs-monorepo--ethereumjs-vm-5.9.3/packages/trie/src/checkpointDb.ts:69-71 | folding an overlay into the one below it shows the same contents |
| `CheckpointDbs.FoldDown` | ethereumjs-monorepo--ethereumjs-vm-5.9.3/packages/trie/src/checkpointDb.ts:48-73 | committing an inner checkpoint keeps the current contents and all outer snapshots |
| `CheckpointDbs.CheckpointDB.Get` | ethereumjs-monorepo--ethereumjs-vm-5.9.3/packages/trie/src/checkpointDb.ts:88-105 | returns the value of the current snapshot and changes no snapshot |
| `CheckpointDbs.CheckpointDB.Put` | ethereumjs-monorepo--ethereumjs-vm-5.9.3/packages/trie/src/checkpointDb.ts:112-119 | writes the current snapshot only |
| `CheckpointDbs.CheckpointDB.Del` | ethereumjs-monorepo--ethereumjs-vm-5.9.3/packages/trie/src/checkpointDb.ts:125-133 | removes from the current snapshot only |
| `CheckpointDbs.CheckpointDB.Batch` | ethereumjs-monorepo--ethereumjs-vm-5.9.3/packages/trie/src/checkpointDb.ts:139-151 | applies the operations in order to the current snapshot only |
| `CheckpointDbs.CheckpointDB.AddCheckpoint` | ethereumjs-monorepo--ethereumjs-vm-5.9.3/packages/trie/src/checkpointDb.ts:41-43 | saves the current snapshot with the root |
| `CheckpointDbs.CheckpointDB.Flush` | ethereumjs-monorepo--ethereumjs-vm-5.9.3/packages/trie/src/checkpointDb.ts:50-67 | writing the last overlay to disk, cached misses included, leaves the contents as they were seen |
| `CheckpointDbs.CheckpointDB.Commit` | ethereumjs-monorepo--ethereumjs-vm-5.9.3/packages/trie/src/checkpointDb.ts:48-73 | drops the last saved snapshot and keeps the current contents |
| `CheckpointDbs.CheckpointDB.Revert` | ethereumjs-monorepo--ethereumjs-vm-5.9.3/packages/trie/src/checkpointDb.ts:78-81 | returns to the last saved snapshot and its root |
| `Tries.Trie.LookupNode` | ethereumjs-monorepo--ethereumjs-vm-5.9.3/packages/trie/src/baseTrie.ts:285-299 | decodes the embedded or stored node, or reports it missing |
| `Tries.Trie.FindPath` | ethereumjs-monorepo--ethereumjs-vm-5.9.3/packages/trie/src/baseTrie.ts:187-249 | on any store that says nothing false about the tree behind the root: the node, remaining nibbles and stack of the key's path, or a missing node; with all nodes present, never an error |
| `Tries.Trie.Get` | ethereumjs-monorepo--ethereumjs-vm-5.9.3/packages/trie/src/baseTrie.ts:131-138 | returns the value under the key in every tree with this root |
| `Tries.Trie.FormatNode` | ethereumjs-monorepo--ethereumjs-vm-5.9.3/packages/trie/src/baseTrie.ts:587-619 | embeds short nodes and files the others under their hash |
| `Tries.Trie.SaveStack` | ethereumjs-monorepo--ethereumjs-vm-5.9.3/packages/trie/src/baseTrie.ts:549-576 | turns a stale stack into the root of the tree it stands for, writing exactly the strings of its nodes that are stored by hash |
| `Tries.Trie.ForkNode` | ethereumjs-monorepo--ethereumjs-vm-5.9.3/packages/trie/src/baseTrie.ts:370-412 | builds the nodes of the fork and stores the shortened node |
| `Tries.Trie.UpdateNode` | ethereumjs-monorepo--ethereumjs-vm-5.9.3/packages/trie/src/baseTrie.ts:318-415 | the trie object moves from its tree to the tree after the put; 'Stack underflow' is unreachable |
| `Tries.Trie.CreateInitialNode` | ethereumjs-monorepo--ethereumjs-vm-5.9.3/packages/trie/src/baseTrie.ts:276-280 | from the empty trie to a single leaf |
| `Tries.Trie.ClearEnd` | ethereumjs-monorepo--ethereumjs-vm-5.9.3/packages/trie/src/baseTrie.ts:479-507 | clears the value or the leaf at the end of the path; 'Expected branch node' is unreachable |
| `Tries.Trie.ProcessBranchNode` | ethereumjs-monorepo--ethereumjs-vm-5.9.3/packages/trie/src/baseTrie.ts:422-477 | merges the remaining child into what is above, in all six cases |
| `Tries.Trie.DeleteNode` | ethereumjs-monorepo--ethereumjs-vm-5.9.3/packages/trie/src/baseTrie.ts:421-540 | the trie object moves from its tree to the tree after the deletion, for all keys |
| `Tries.Trie.Put` | ethereumjs-monorepo--ethereumjs-vm-5.9.3/packages/trie/src/baseTrie.ts:147-164 | never fails, and the object then stands for the tree after the put, its store holding every node of it and of all saved trees |
| `Tries.Trie.Del` | ethereumjs-monorepo--ethereumjs-vm-5.9.3/packages/trie/src/baseTrie.ts:172-179 | never fails, and the object then stands for the tree after the deletion |
| `Tries.Trie.GetValue` | ethereumjs-monorepo--ethereumjs-vm-5.9.3/packages/trie/src/baseTrie.ts:131-138 | returns the value of the object's tree |
| `Tries.Trie.Checkpoint` | ethereumjs-monorepo--ethereumjs-vm-5.9.3/packages/trie/src/checkpointTrie.ts:26-28 | saves tree, root and store |
| `Tries.Trie.Commit` | ethereumjs-monorepo--ethereumjs-vm-5.9.3/packages/trie/src/checkpointTrie.ts:35-43 | fails exactly outside checkpoints; otherwise keeps the tree and forgets the last saved one |
| `Tries.Trie.Revert` | ethereumjs-monorepo--ethereumjs-vm-5.9.3/packages/trie/src/checkpointTrie.ts:50-58 | fails exactly outside checkpoints; otherwise restores the tree, root and store of the matching checkpoint |
| `TrieRuns.Execute` | ethereumjs-monorepo--ethereumjs-vm-5.9.3/packages/trie/src/checkpointTrie.ts:26-58 | over every run of put, del, checkpoint, commit and revert, the object stands for what the run makes of the tree and of the saved trees |
| `TrieRuns.ExecuteAndGet` | ethereumjs-monorepo--ethereumjs-vm-5.9.3/packages/trie/src/baseTrie.ts:131-179 | end to end, from a new trie: after any run over non-empty keys from a prefix-free set, `get` of any key returns what the stack of maps binds it to |
| `TrieRuns.RunRefines` | ethereumjs-monorepo--ethereumjs-vm-5.9.3/packages/trie/src/baseTrie.ts:318-576 | every run whose deletions avoid the two blind spots behaves as a stack of maps and keeps all trees canonical |
| `TrieRuns.PrefixFreeRunRefines` | ethereumjs-monorepo--ethereumjs-vm-5.9.3/packages/trie/src/baseTrie.ts:131-179 | every run over non-empty keys from a prefix-free set behaves as a stack of maps, nested checkpoints included |
| `TrieRuns.PutsRefine` | ethereumjs-monorepo--ethereumjs-vm-5.9.3/packages/trie/src/baseTrie.ts:147-164 | runs of puts behave as a map for arbitrary keys |
| `TrieRuns.HistoryIndependence` | ethereumjs-monorepo--ethereumjs-vm-5.9.3/packages/trie/src/baseTrie.ts:549-576 | equal maps give equal trees and roots, whatever the order and history of puts and dels |
| `TrieRuns.RootDeterminesMap` | ethereumjs-monorepo--ethereumjs-vm-5.9.3/packages/trie/src/baseTrie.ts:549-619 | roots are equal if and only if the maps are, among strings that do not collide |
| `TrieRuns.RevertRestores` | ethereumjs-monorepo--ethereumjs-vm-5.9.3/packages/trie/src/checkpointTrie.ts:26-58 | after any properly nested run, revert gives back the state at the matching checkpoint, and commit keeps the current tree |
| `TrieProofs.CreateProof` | ethereumjs-monorepo--ethereumjs-vm-5.9.3/packages/trie/src/baseTrie.ts:688-694 | serializes the nodes on the path of the key |
| `TrieProofs.FromProof` | ethereumjs-monorepo--ethereumjs-vm-5.9.3/packages/trie/src/baseTrie.ts:653-672 | files each proof string under its hash, below the claimed root |
| `TrieProofs.VerifyProof` | ethereumjs-monorepo--ethereumjs-vm-5.9.3/packages/trie/src/baseTrie.ts:704-721 | whatever the proof holds, a verdict agrees with every trie that has this root, absence included; a proof with all the nodes on the path gets a verdict |
| `TrieProofs.ProofHasNeeded` | ethereumjs-monorepo--ethereumjs-vm-5.9.3/packages/trie/src/baseTrie.ts:688-694 | a created proof holds every node that verification reads |
| `TrieProofs.ProveAndVerify` | ethereumjs-monorepo--ethereumjs-vm-5.9.3/packages/trie/src/baseTrie.ts:688-721 | a proof created from a non-empty trie verifies to what `get` returns |
| `TrieLists.ListRootCommits` | ethereumjs-monorepo--ethereumjs-vm-5.9.3/packages/trie/src/verifyRangeProof.ts:433-443 | a list of pairs rebuilds a given root if and only if that trie holds exactly the map of the list |
| `TrieLists.MapOfDistinct` | ethereumjs-monorepo--ethereumjs-vm-5.9.3/packages/trie/src/verifyRangeProof.ts:433-443 | distinct keys each keep their own value |
| `RangeProofs.CheckLists` | ethereumjs-monorepo--ethereumjs-vm-5.9.3/packages/trie/src/verifyRangeProof.ts:416-431 | accepts exactly lists of equal length with ascending keys and no empty value |
| `RangeProofs.VerifyAllElements` | ethereumjs-monorepo--ethereumjs-vm-5.9.3/packages/trie/src/verifyRangeProof.ts:416-443 | accepts exactly when the checks pass and the rebuilt trie has the given root |
| `RangeProofs.AllElementsExact` | ethereumjs-monorepo--ethereumjs-vm-5.9.3/packages/trie/src/verifyRangeProof.ts:433-443 | accepted lists are exactly the whole content of the trie behind the root, each key with its own value |
| `RangeProofs.HasRightElement` | ethereumjs-monorepo--ethereumjs-vm-5.9.3/packages/trie/src/verifyRangeProof.ts:347-378 | on a store that may lack nodes, computes the verdict on the right side of a key, including the exception when the key ends at a branch |
| `RangeProofs.HasRightExact` | ethereumjs-monorepo--ethereumjs-vm-5.9.3/packages/trie/src/verifyRangeProof.ts:347-378 | for a stored key, the verdict is true if and only if a stored key lies beyond it without continuing it; otherwise the code throws if and only if a stored key continues it |
| `RangeProofs.HasRightThrows` | ethereumjs-monorepo--ethereumjs-vm-5.9.3/packages/trie/src/verifyRangeProof.ts:347-378 | with 0x12 and 0x1234 stored, the code throws on 0x12 |
| `RangeProofs.HasRightCorrect` | ethereumjs-monorepo--ethereumjs-vm-5.9.3/packages/trie/src/verifyRangeProof.ts:347-378 | with stored keys of one length, the verdict is true if and only if some stored key is greater |
| `RangeProofs.VerifyOneElement` | ethereumjs-monorepo--ethereumjs-vm-5.9.3/packages/trie/src/verifyRangeProof.ts:463-474 | accepting means the trie behind the root binds the key to the value, with the right verdict on what lies to the right; a proof with the needed nodes is accepted exactly then |
| `TxTries.TxKeysPrefixFree` | ethereumjs-monorepo--ethereumjs-vm-5.9.3/packages/block/src/block.ts:212-215 | the keys of different transactions are different and none is a prefix of another |
| `TxTries.TxTreeHolds` | ethereumjs-monorepo--ethereumjs-vm-5.9.3/packages/block/src/block.ts:210-218 | the trie holds transaction i under its key for every i, and nothing else |
| `TxTries.TxRootBinds` | ethereumjs-monorepo--ethereumjs-vm-5.9.3/packages/block/src/block.ts:210-236 | two lists of transactions have one root if and only if they are equal in length, order and content, among strings that do not collide |
| `TxTries.GenTxTrie` | ethereumjs-monorepo--ethereumjs-vm-5.9.3/packages/block/src/block.ts:210-218 | the loop of puts builds that trie |
| `TxTries.TxTreeIs` | ethereumjs-monorepo--ethereumjs-vm-5.9.3/packages/block/src/block.ts:210-218 | the trie is the one canonical tree that stores transaction i under the encoding of i, for every i, and nothing else: every stored key decodes to an index without leading zeros, and its value is that transaction |
| `TxTries.ValidateTransactionsTrie` | ethereumjs-monorepo--ethereumjs-vm-5.9.3/packages/block/src/block.ts:224-236 | accepts exactly the root of a canonical tree that holds the transactions in this way, whether or not the trie had been generated before |
| `Ancestries.AncestorAt` | ethereumjs-monorepo--ethereumjs-vm-5.9.3/packages/blockchain/src/index.ts:1469-1529 | each ancestor of a block is stored under the hash that the block's line gives for its number, and has the lower part of the line as its own |
| `Ancestries.LinkedMore` | ethereumjs-monorepo--ethereumjs-vm-5.9.3/packages/blockchain/src/index.ts:985-991 | storing more blocks changes neither the ancestry nor the total difficulty of a block |
| `Reorgs.CanonicalParents` | ethereumjs-monorepo--ethereumjs-vm-5.9.3/packages/blockchain/src/index.ts:1469-1529 | consecutive canonical hashes are parent-linked |
| `Reorgs.CanonicalBlock` | ethereumjs-monorepo--ethereumjs-vm-5.9.3/packages/blockchain/src/index.ts:1469-1529 | every canonical hash names a stored block of that number whose ancestry is the canonical chain below it |
| `Reorgs.CommonIsHighest` | ethereumjs-monorepo--ethereumjs-vm-5.9.3/packages/blockchain/src/index.ts:1352-1376 | the common number is the highest at which the new line and the canonical chain agree; they agree everywhere below it and nowhere above |
| `Reorgs.WalkFindsAll` | ethereumjs-monorepo--ethereumjs-vm-5.9.3/packages/blockchain/src/index.ts:1469-1529 | up to two blocks above the old head, the walk over the old database finds every header, rewrites exactly the numbers above the common block and stops on that block |
| `Reorgs.WalkStopsShort` | ethereumjs-monorepo--ethereumjs-vm-5.9.3/packages/blockchain/src/db/manager.ts:183-193 | more than two blocks above the old head, the first read of a parent already fails |
| `Reorgs.ReorgIff` | ethereumjs-monorepo--ethereumjs-vm-5.9.3/packages/blockchain/src/index.ts:1016-1023 | after a put that becomes head, `numberToHash` is exactly the ancestry of the new head, without gap and with nothing above, if and only if the ancestry is stored and the new head is at most two blocks above the old one |
| `Reorgs.HeadsAfter` | ethereumjs-monorepo--ethereumjs-vm-5.9.3/packages/blockchain/src/index.ts:1423-1529 | iterator heads above the new head go to it, those between it and the common block go to the common block, the others stay |
| `Reorgs.MovedOnChain` | ethereumjs-monorepo--ethereumjs-vm-5.9.3/packages/blockchain/src/index.ts:1520-1529 | every moved head is on the new canonical chain |
| `Reorgs.PutConsistent` | ethereumjs-monorepo--ethereumjs-vm-5.9.3/packages/blockchain/src/index.ts:981-991 | a stored total difficulty is the sum of the difficulties along the ancestry, after every put, over everything ever stored |
| `Reorgs.HeavierIsNew` | ethereumjs-monorepo--ethereumjs-vm-5.9.3/packages/blockchain/src/index.ts:994-999 | a block heavier than the head is not yet on the canonical chain |
| `Reorgs.DoomedIsUpper` | ethereumjs-monorepo--ethereumjs-vm-5.9.3/packages/blockchain/src/index.ts:1230-1264 | deleting the children of a canonical block one after the other deletes exactly the canonical chain from it upwards |
| `Reorgs.DeleteConsistent` | ethereumjs-monorepo--ethereumjs-vm-5.9.3/packages/blockchain/src/index.ts:1236-1240 | deletions keep the tables consistent |
| `Blockchains.Blockchain.constructor` | ethereumjs-monorepo--ethereumjs-vm-5.9.3/packages/blockchain/src/index.ts:338-373 | an empty database with a genesis block is in order |
| `Blockchains.Blockchain.DeleteCanonicalChainReferences` | ethereumjs-monorepo--ethereumjs-vm-5.9.3/packages/blockchain/src/index.ts:1423-1452 | removes the numbers from the given one up to the first gap and retargets the heads found there |
| `Blockchains.Blockchain.RebuildCanonical` | ethereumjs-monorepo--ethereumjs-vm-5.9.3/packages/blockchain/src/index.ts:1469-1529 | the walk with its pending operations: lookups for exactly the headers visited, heads moved only if every header was found |
| `Blockchains.Blockchain.FindAncient` | ethereumjs-monorepo--ethereumjs-vm-5.9.3/packages/blockchain/src/index.ts:1352-1376 | succeeds if and only if the ancestry is stored and the block is at most two above the head, and then returns the highest common block |
| `Blockchains.Blockchain.TakeHead` | ethereumjs-monorepo--ethereumjs-vm-5.9.3/packages/blockchain/src/index.ts:1000-1023 | the branch of a heavier block: all pending operations, heads and head hashes after it |
| `Blockchains.Blockchain.PutBlock` | ethereumjs-monorepo--ethereumjs-vm-5.9.3/packages/blockchain/src/index.ts:902-1035 | exactly when a put succeeds; that a failed one changes nothing; what each table becomes; that the head stays the heaviest block; when the whole state stays in order; and that the memory is saved |
| `Blockchains.Blockchain.PutKeepsOrder` | ethereumjs-monorepo--ethereumjs-vm-5.9.3/packages/blockchain/src/index.ts:929-932 | with validation, or under Clique, an accepted block is near enough for the walk to find every header |
| `Blockchains.Blockchain.PutBlocks` | ethereumjs-monorepo--ethereumjs-vm-5.9.3/packages/blockchain/src/index.ts:841-846 | on any chain, every run of puts keeps the total difficulties sums along the ancestry and the head the heaviest block; on a validating or Clique chain from which nothing was deleted, it also keeps the canonical chain and all heads in order |
| `Blockchains.Blockchain.DelChild` | ethereumjs-monorepo--ethereumjs-vm-5.9.3/packages/blockchain/src/index.ts:1230-1264 | collects the deletions up the chain and moves the head hashes |
| `Blockchains.Blockchain.DelBlock` | ethereumjs-monorepo--ethereumjs-vm-5.9.3/packages/blockchain/src/index.ts:1189-1213 | deleting a canonical block above genesis truncates the chain at its parent and moves head, head block and all affected heads there; deleting the genesis block empties `numberToHash`; deleting another block leaves the chain alone; the saved heads are not updated and still name a deleted block |
| `Blockchains.Blockchain.Iterator` | ethereumjs-monorepo--ethereumjs-vm-5.9.3/packages/blockchain/src/index.ts:1281-1318 | moves the named head up the canonical chain by the number of blocks run, to the end if not limited |
| `ChainRuns.Run` | ethereumjs-monorepo--ethereumjs-vm-5.9.3/packages/blockchain/src/index.ts:841-1318 | from an ordered state, over every interleaving of puts, deletions and iterations on any kind of chain: each call makes its exact step, and all states are in order if and only if each call meets its condition; the condition of a put that becomes head is that its ancestry is stored (and near enough, without validation and Clique), that of a deletion is that it spares the genesis block |
| `ChainRuns.StillLeads` | ethereumjs-monorepo--ethereumjs-vm-5.9.3/packages/blockchain/src/index.ts:841-1318 | over every such trace, in order or not, the head is the heaviest block as long as no canonical block and no head is deleted |
| `ChainRuns.OrderedIff` | ethereumjs-monorepo--ethereumjs-vm-5.9.3/packages/blockchain/src/index.ts:841-1318 | over every such trace, the states are all in order if and only if every operation meets its condition in the state in which it is called |
| `ChainRuns.RunPut` | ethereumjs-monorepo--ethereumjs-vm-5.9.3/packages/blockchain/src/index.ts:902-1035 | the step of a put, and exactly when it keeps the order |
| `ChainRuns.RunDelete` | ethereumjs-monorepo--ethereumjs-vm-5.9.3/packages/blockchain/src/index.ts:1189-1213 | the step of a deletion, and exactly when it keeps the order |
| `ChainRuns.RunIterate` | ethereumjs-monorepo--ethereumjs-vm-5.9.3/packages/blockchain/src/index.ts:1281-1318 | the step of an iteration, which always keeps the order: the head ends at the top or after as many blocks as allowed |
| `ChainRuns.HoleExample` | ethereumjs-monorepo--ethereumjs-vm-5.9.3/packages/blockchain/src/index.ts:985-1023 | a run on a validating chain that is not Clique, with blocks of the least difficulty and any hashes: after a deletion beside the chain, the last put is accepted and breaks the canonical chain |
| `ChainRuns.HoleRun` | ethereumjs-monorepo--ethereumjs-vm-5.9.3/packages/blockchain/src/index.ts:841-1213 | the same run on the object, from an empty database |
| `Blockchains.GapExample` | ethereumjs-monorepo--ethereumjs-vm-5.9.3/packages/blockchain/src/db/manager.ts:187-190 | concrete blocks for which a put without validation leaves a canonical chain with a gap |
| `DbManagers.KeyRoundTrip` | ethereumjs-monorepo--ethereumjs-vm-5.9.3/packages/blockchain/src/db/constants.ts:62-72 | the target can be read off its key, so no two targets share a key, within or across tables (32-byte hashes, numbers below 2^64) |
| `DbManagers.NamesSpelled` | ethereumjs-monorepo--ethereumjs-vm-5.9.3/packages/blockchain/src/db/constants.ts:5-32 | the keys of the heads and of the Clique snapshots are these names |
| `DbManagers.KeyForm` | ethereumjs-monorepo--ethereumjs-vm-5.9.3/packages/blockchain/src/db/constants.ts:34-72 | the other keys are a letter, the number in eight bytes, the hash, and a letter |
| `DbManagers.TablesIndependent` | ethereumjs-monorepo--ethereumjs-vm-5.9.3/packages/blockchain/src/db/manager.ts:254-260 | on the flat store a batch changes each table as if it were alone; the last operation on a target decides |
| `DbManagers.DbManager.Get` | ethereumjs-monorepo--ethereumjs-vm-5.9.3/packages/blockchain/src/db/manager.ts:227-249 | returns what the table holds, and keeps every cached value equal to the stored one |
| `DbManagers.DbManager.Batch` | ethereumjs-monorepo--ethereumjs-vm-5.9.3/packages/blockchain/src/db/manager.ts:254-260 | changes the tables accordingly, with caches that stay equal to the store under any evictions |
| `DbManagers.DbManager.UpdateCache` | ethereumjs-monorepo--ethereumjs-vm-5.9.3/packages/blockchain/src/db/operation.ts:146-157 | one operation on one cache keeps all five coherent |
| `StoredTables.ApplyImage` | ethereumjs-monorepo--ethereumjs-vm-5.9.3/packages/blockchain/src/db/helpers.ts:11-78 | an operation on the block tables changes the stored value of its own target to its encoding, and no other |
| `StoredTables.BatchImage` | ethereumjs-monorepo--ethereumjs-vm-5.9.3/packages/blockchain/src/db/manager.ts:254-260 | a batch of table operations acts on each stored target as the batch of the encoded operations |
| `StoredTables.TdRoundTrip` | ethereumjs-monorepo--ethereumjs-vm-5.9.3/packages/blockchain/src/db/manager.ts:198-201 | a total difficulty is read back as it was written |
| `StoredTables.TdForm` | ethereumjs-monorepo--ethereumjs-vm-5.9.3/packages/blockchain/src/db/helpers.ts:11-16 | a total difficulty is written as the item of its shortest big-endian form |
| `StoredTables.BatchTables` | ethereumjs-monorepo--ethereumjs-vm-5.9.3/packages/blockchain/src/db/manager.ts:254-260 | a batch through the manager leaves a store that holds exactly the tables after the batch |
| `StoredTables.HashToNumber` | ethereumjs-monorepo--ethereumjs-vm-5.9.3/packages/blockchain/src/db/manager.ts:206-209 | the lookup through store and caches is that of the tables |
| `StoredTables.NumberToHash` | ethereumjs-monorepo--ethereumjs-vm-5.9.3/packages/blockchain/src/db/manager.ts:214-220 | the same |
| `StoredTables.GetTd` | ethereumjs-monorepo--ethereumjs-vm-5.9.3/packages/blockchain/src/db/manager.ts:198-201 | the same |
| `StoredTables.GetHeader` | ethereumjs-monorepo--ethereumjs-vm-5.9.3/packages/blockchain/src/db/manager.ts:183-193 | the same, with the reads for the hardfork |
| `StoredTables.GetBlock` | ethereumjs-monorepo--ethereumjs-vm-5.9.3/packages/blockchain/src/db/manager.ts:136-168 | the same, for a block by its hash |
| `StoredTables.GetBlockByNumber` | ethereumjs-monorepo--ethereumjs-vm-5.9.3/packages/blockchain/src/db/manager.ts:136-168 | the same, for a block by its number |
| `Uncles.ValidateUncles` | ethereumjs-monorepo--ethereumjs-vm-5.9.3/packages/block/src/block.ts:345-364 | accepts exactly blocks whose uncles satisfy the stated rules |
| `Uncles.ValidateUncleHeaders` | ethereumjs-monorepo--ethereumjs-vm-5.9.3/packages/block/src/block.ts:414-490 | the window loop and its lookup tables decide exactly those rules |
| `Uncles.ValidateHeader` | ethereumjs-monorepo--ethereumjs-vm-5.9.3/packages/block/src/header.ts:621-718 | the checks on an uncle header, one after the other |
| `Uncles.UnclesValidIff` | ethereumjs-monorepo--ethereumjs-vm-5.9.3/packages/block/src/block.ts:345-490 | exactly which uncles a block of a chain may have: at most two and different; each with the other rules met, one to six below the block, its parent the block of the chain below it, and equal to no block and no uncle from the parent of the lowest uncle up |
| `Uncles.DepthRange` | ethereumjs-monorepo--ethereumjs-vm-5.9.3/packages/block/src/block.ts:439-440 | two to seven ancestors are fetched, never eight, unless an uncle claims number 0; then the fetch reaches below the genesis block |
| `Uncles.NoGenesisUncle` | ethereumjs-monorepo--ethereumjs-vm-5.9.3/packages/block/src/header.ts:621-623 | an uncle that claims number 0 skips its own validation but is in no accepted block |
| `Uncles.UncleRange` | ethereumjs-monorepo--ethereumjs-vm-5.9.3/packages/block/src/header.ts:680-718 | an uncle comes from one to six blocks below its block and its parent is a block of the chain |
| `Uncles.UncleIncludedOnce` | ethereumjs-monorepo--ethereumjs-vm-5.9.3/packages/block/src/block.ts:444-490 | no uncle is included by two blocks of a chain, however far apart |
| `Uncles.UncleIsNoBlock` | ethereumjs-monorepo--ethereumjs-vm-5.9.3/packages/block/src/block.ts:444-490 | no uncle is a block of the chain, also not outside the window |
| `Uncles.AllUnclesDistinct` | ethereumjs-monorepo--ethereumjs-vm-5.9.3/packages/block/src/block.ts:345-490 | over a whole chain all uncles are pairwise different and none is a block of the chain |
| `CliqueSigners.CliqueChain.CheckRecentlySigned` | ethereumjs-monorepo--ethereumjs-vm-5.9.3/packages/blockchain/src/index.ts:472-489 | in any state, objects exactly if the shortened window is complete and holds the signer |
| `CliqueSigners.CliqueChain.UpdateLatestBlockSigners` | ethereumjs-monorepo--ethereumjs-vm-5.9.3/packages/blockchain/src/index.ts:701-732 | appends the signer and trims to the limit |
| `CliqueSigners.CliqueChain.ExtendChain` | ethereumjs-monorepo--ethereumjs-vm-5.9.3/packages/blockchain/src/index.ts:942-951 | a block is accepted if and only if an authorized signer signed it that signed none of the floor(n/2) blocks before; any floor(n/2)+1 consecutive accepted blocks have different signers |
| `CliqueSigners.SignAll` | ethereumjs-monorepo--ethereumjs-vm-5.9.3/packages/blockchain/src/index.ts:472-489 | over every run of submitted blocks, those accepted are exactly the ones whose signer signed none of the floor(n/2) accepted before, and any floor(n/2)+1 consecutive ones have different signers |
| `CliqueSigners.SomeoneMaySign` | ethereumjs-monorepo--ethereumjs-vm-5.9.3/packages/blockchain/src/index.ts:754-756 | some signer is always free to sign next |
| `CliqueSigners.MaySignIff` | ethereumjs-monorepo--ethereumjs-vm-5.9.3/packages/blockchain/src/index.ts:472-489 | the rule written out: a signer that signed none of the last floor(n/2) blocks |
| `TaskExecutors.SortOrders` | ethereumjs-monorepo--ethereumjs-vm-5.9.3/packages/trie/src/prioritizedTaskExecutor.ts:41-41 | the stable sort puts higher priorities first and keeps the order of submission within one |
| `TaskExecutors.PrioritizedTaskExecutor.Submit` | ethereumjs-monorepo--ethereumjs-vm-5.9.3/packages/trie/src/prioritizedTaskExecutor.ts:35-49 | a task starts at once if a spot is free and waits otherwise; at most the maximum runs, and tasks wait only while the pool is full |
| `TaskExecutors.PrioritizedTaskExecutor.Complete` | ethereumjs-monorepo--ethereumjs-vm-5.9.3/packages/trie/src/prioritizedTaskExecutor.ts:38-45 | a completion hands its spot to the waiting task that comes before all others, in any order of completions |
| `TaskExecutors.PrioritizedTaskExecutor.Finished` | ethereumjs-monorepo--ethereumjs-vm-5.9.3/packages/trie/src/prioritizedTaskExecutor.ts:56-58 | finished means nothing runs, and then everything submitted has completed if and only if there was a spot at all or nothing waits |
| `TaskExecutors.WaitsForever` | ethereumjs-monorepo--ethereumjs-vm-5.9.3/packages/trie/src/prioritizedTaskExecutor.ts:35-58 | an executor without spots takes a task, never starts it, and says it is finished |
| `TaskExecutors.PrioritizedTaskExecutor.StartedOnce` | ethereumjs-monorepo--ethereumjs-vm-5.9.3/packages/trie/src/prioritizedTaskExecutor.ts:35-49 | every submitted task is waiting, running or completed, and counted once |
| `BaseFees.StepBounds` | ethereumjs-monorepo--ethereumjs-vm-5.9.3/packages/block/src/header.ts:754-787 | one step stays within an eighth of the fee, and goes up by at least one when above target |
| `BaseFees.StepExact` | ethereumjs-monorepo--ethereumjs-vm-5.9.3/packages/block/src/header.ts:754-787 | the exact step: with target t and deviation v, the d with 8td <= fee*v < 8t(d+1) is taken off below the target, and d but at least one is added above it |
| `BaseFees.StepSample` | ethereumjs-monorepo--ethereumjs-vm-5.9.3/packages/block/src/header.ts:754-787 | from a fee of 10^9 and a limit of 2*10^7 gas, 9*10^6 gas used give 987500000 and 11*10^6 give 1012500000 |
| `BaseFees.StepMonotone` | ethereumjs-monorepo--ethereumjs-vm-5.9.3/packages/block/src/header.ts:754-787 | more gas used never gives a lower fee |
| `BaseFees.NeverBelowSeven` | ethereumjs-monorepo--ethereumjs-vm-5.9.3/packages/block/src/header.ts:273-275 | from seven or more the fee never drops below seven, over any chain |
| `BaseFees.EmptyBlocksReachSeven` | ethereumjs-monorepo--ethereumjs-vm-5.9.3/packages/block/src/header.ts:754-787 | a long enough run of empty blocks brings the fee to exactly seven |
| `BaseFees.SmallFeesStay` | ethereumjs-monorepo--ethereumjs-vm-5.9.3/packages/block/src/header.ts:773-785 | an empty block keeps the fee if and only if it is at most seven |
| `Supply.TotalPut` | ethereumjs-monorepo--ethereumjs-vm-5.9.3/packages/vm/src/runBlock.ts:428-436 | writing one account changes the total by the change of its balance |
| `Supply.Vm.RunTx` | ethereumjs-monorepo--ethereumjs-vm-5.9.3/packages/vm/src/runTx.ts:237-534 | a transaction is accepted exactly when it is payable at a price its fees allow; then sender, miner and EVM are settled at that price and tip: the sender pays the gas used times the price, never above its maximum, the miner gets the gas used times the tip, the refund is capped, no balance is negative, and the total shrinks by the gas used times the base fee, also when sender, recipient and miner coincide |
| `Supply.Vm.CheckTx` | ethereumjs-monorepo--ethereumjs-vm-5.9.3/packages/vm/src/runTx.ts:281-355 | the checks before execution in their order, which pass exactly when there is a price at which the transaction is payable |
| `Supply.Vm.Prices` | ethereumjs-monorepo--ethereumjs-vm-5.9.3/packages/vm/src/runTx.ts:357-373 | the price and the tip for each gas, for fee-market and legacy transactions |
| `Supply.CheckIff` | ethereumjs-monorepo--ethereumjs-vm-5.9.3/packages/vm/src/runTx.ts:281-355 | the checks hold if and only if gas limits, base fee, balance and nonce fit at some price that the fees allow |
| `Supply.TxSettles` | ethereumjs-monorepo--ethereumjs-vm-5.9.3/packages/vm/src/runTx.ts:357-534 | an accepted transaction is settled: a tip that is the smaller of the offered one and what the maximum leaves above the base fee, the refund capped at one part in q, and the resulting balances |
| `Supply.RewardForms` | ethereumjs-monorepo--ethereumjs-vm-5.9.3/packages/vm/src/runBlock.ts:411-426 | an ommer d blocks below gets 8 - d eighths of the reward, the miner a thirty-second more for each ommer, each rounded down before multiplying |
| `Supply.Vm.RewardAccount` | ethereumjs-monorepo--ethereumjs-vm-5.9.3/packages/vm/src/runBlock.ts:428-436 | adds the reward to one account and to the total |
| `Supply.Vm.AssignBlockRewards` | ethereumjs-monorepo--ethereumjs-vm-5.9.3/packages/vm/src/runBlock.ts:388-426 | each account gets exactly its ommer and miner rewards |
| `Supply.Vm.ApplyTransactions` | ethereumjs-monorepo--ethereumjs-vm-5.9.3/packages/vm/src/runBlock.ts:316-382 | exactly when a block of transactions is refused; otherwise the state after all of them in order, receipts with the running sums of the gas used, and a total that shrinks by the burnt fees |
| `Supply.StepIff` | ethereumjs-monorepo--ethereumjs-vm-5.9.3/packages/vm/src/runBlock.ts:330-372 | a transaction is applied in a block if and only if its gas limit fits next to the gas used before, within the limit of the block, or twice that under EIP-1559, and it is payable; it is then settled |
| `Supply.ValidationIff` | ethereumjs-monorepo--ethereumjs-vm-5.9.3/packages/vm/src/runBlock.ts:284-296 | validation passes if and only if it is skipped, or the gas limit is below 2^63, the gas used within it and the other rules hold |
| `Supply.ComparisonIff` | ethereumjs-monorepo--ethereumjs-vm-5.9.3/packages/vm/src/runBlock.ts:204-243 | the comparison passes if and only if receipt root, bloom, gas used and state root agree |
| `Supply.Vm.CalculateOmmerReward` | ethereumjs-monorepo--ethereumjs-vm-5.9.3/packages/vm/src/runBlock.ts:411-418 | the reward of an ommer |
| `Supply.Vm.ApplyBlock` | ethereumjs-monorepo--ethereumjs-vm-5.9.3/packages/vm/src/runBlock.ts:284-306 | validation, transactions and rewards: exactly when they fail, and the state, receipts and supply equation when they do not |
| `Supply.Vm.RunBlock` | ethereumjs-monorepo--ethereumjs-vm-5.9.3/packages/vm/src/runBlock.ts:160-243 | a block is accepted if and only if it applies and, unless it is generated, agrees with its header in receipt root, bloom, gas used and state root; one that does not apply leaves no trace; one that applies changes the state to exactly what was applied, with the supply equation (miner reward, plus n times floor(reward/32), plus ommer rewards, minus gas used times base fee), also when the comparison then throws; a validated and compared block stays within its gas limit |
| `Supply.FailsWithChangedState` | ethereumjs-monorepo--ethereumjs-vm-5.9.3/packages/vm/src/runBlock.ts:182-232 | for any digests and addresses, a block with one transfer that throws on its gas used after its balance changes were committed |
| `Supply.GasWithinLimits` | ethereumjs-monorepo--ethereumjs-vm-5.9.3/packages/vm/src/runBlock.ts:316-382 | the gas used by accepted transactions is at most the sum of their gas limits, and exactly that when each uses all it may |
| `Supply.GasWithinBlockIff` | ethereumjs-monorepo--ethereumjs-vm-5.9.3/packages/vm/src/runBlock.ts:330-342 | for transactions that are accepted even when each uses all its gas: whatever the EVM, their block stays within its gas limit if and only if their limits add up to no more than it |
| `Supply.GasRuleIff` | ethereumjs-monorepo--ethereumjs-vm-5.9.3/packages/vm/src/runBlock.ts:330-342 | for every accepted list under EIP-1559: whatever more gas its transactions use, as far as the rule on the gas of the block admits it, they stay within the gas limit of the block if and only if their limits add up to no more than it |
| `Supply.AcceptedAdmitted` | ethereumjs-monorepo--ethereumjs-vm-5.9.3/packages/vm/src/runBlock.ts:316-382 | the gas that accepted transactions use is admitted by that rule |
| `Supply.BurntFromSupply` | ethereumjs-monorepo--ethereumjs-vm-5.9.3/packages/vm/src/runBlock.ts:316-382 | the base fees of accepted transactions are taken from the supply, so the gas used times the base fee never exceeds it |
| `Supply.FundsKeepWithin` | ethereumjs-monorepo--ethereumjs-vm-5.9.3/packages/vm/src/runBlock.ts:330-342 | two transactions with limits above that of the block, accepted with some EVM, that stay within it whatever the EVM, because the funds do not allow more |
| `Supply.LegacyGasWithinBlock` | ethereumjs-monorepo--ethereumjs-vm-5.9.3/packages/vm/src/runBlock.ts:330-342 | before EIP-1559, every accepted block stays within its gas limit |
| `Supply.TwiceTheLimit` | ethereumjs-monorepo--ethereumjs-vm-5.9.3/packages/vm/src/runBlock.ts:330-342 | under EIP-1559, a generated block of two transfers, at base fee seven, that is accepted with twice its gas limit used |
| `RangeEncodings.EncodeRange` | ganache-7.4.4/src/packages/rlp/index.ts:25-44 | the encodings of a range and their total length |
| `RangeEncodings.CopyTo` | ganache-7.4.4/src/packages/rlp/index.ts:63-63 | writes the entry at the offset and nothing else |
| `RangeEncodings.Digest` | ganache-7.4.4/src/packages/rlp/index.ts:52-68 | the buffer holds the list header followed by all parts in order |
| `RangeEncodings.RangesMakeTheWhole` | ganache-7.4.4/src/packages/rlp/index.ts:25-105 | for every cut of a list into consecutive ranges, the digest of the encoded ranges is the encoding of the whole list |

## Left out

- Asynchrony: each public operation is one atomic step; semaphores, promises, events and streams are not modelled.
- keccak256, signature recovery, Ethash and the remaining validation rules of headers and transactions: parameters (`HashFn`, `accepted`, `rulesHold`).
- `walkController`: the walk is written as the direct descent that its callbacks make of it.
- Nodes on a stack are values: two references to one node object are not modelled, nor is the change of a decoded node that the source then throws away.
- `deleteFromDB = true`, `copy()` of a trie or a blockchain, overlays shared between copies, and `SecureTrie`.
- Tries.Trie.Put: keys and values are shorter than 2^53 bytes, the longest a JavaScript buffer can be.
- Rlp.RoundTrip: items whose length does not fit in eight bytes are excluded; the source's 'invalid hex' and type conversions of other inputs (numbers, strings, null) are not modelled.
- `decodeRawNode` on a two-item list whose first item is itself a list: an invalid node here, while the source converts it.
- The npm package `rlp` that the trie uses through ethereumjs-util is not part of this model; `packages/rlp` of the same repository stands for it.
- RangeProofs.VerifyOneElement: only one key with equal edge keys; the zero-element case and the two-edge case of `verifyRangeProof` are left out.
- Block bodies in the blockchain database, `putHeader`, proof of stake, `setIteratorHead`, hardfork selection, and the callback of `iterator`.
- Blockchains.Blockchain.DelBlock: of deleting the genesis block only consistent tables and an empty `numberToHash` are claimed.
- Clique votes, signer changes and the rebuilding of snapshots on a reorganisation.
- DbManagers.DbManager.Get: the order of eviction in the caches is left open, any entries may go at any time; concurrent reads during a batch are not modelled.
- Supply.Vm.RunBlock: the options `root`, `skipBalance` and `skipNonce` are not modelled: the state root is the current one, and balances and nonces are always checked.
- Supply.GasWithinBlockIff: lists that are refused when each transaction uses all its gas are outside; `GasRuleIff` covers every accepted list, over what the gas rule admits instead of over the EVM, because over the EVM it is false where funds are short (`FundsKeepWithin`).
- Supply.Vm.RunTx: the options `skipBalance`, `skipNonce` and `skipBlockGasLimitValidation` are not modelled; the EVM is one step that conserves balances; self-destruction, the removal of empty accounts, EIP-3607, access lists and the DAO fork are left out.
- Supply.Vm.ApplyBlock: receipt root, bloom and state root are functions given as parameters (`Digests`); of `block.validate` only the bound on `header.gasUsed` is spelled out, its other rules are the flag `rulesHold`.
- ChainRuns.Run: the tables behind an order-breaking step are only described by `PutStep` and `DeleteStep`; what later operations make of a broken state is not.
- The validation of gas limits against the parent block and the difficulty formula.
- The client, RPC, networking, command lines and the other Ganache packages.
