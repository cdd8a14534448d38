# Verified models of MFCoin's data structures and protocols

This project models the parts of MFCoin (a Bitcoin 0.14 / Peercoin / Emercoin derivative)
whose correctness is a property of whole runs, or the agreement of a fast form with a simple
one, and proves those properties in Dafny. `dafny verify dfyconfig.toml` checks everything.

| file | subject |
|---|---|
| AddrBook, AddrTimes, AddrMan, AddrCheck | the address manager: six coupled structures, their invariant over every run, and its debugging check |
| Peers, PeersAny, PeersFile, PeersFailed, PeersCases | saving the address manager, and loading any file, also one that is refused or ends early |
| CoinsCache | the stack of coin caches with DIRTY and FRESH flags as plain maps |
| CoinsCodec, Compressor, VarInts | how unspent outputs are stored |
| CheckQueue | the master and worker protocol of the script check queue |
| Cuckoo | the cuckoo cache with lazy erasure and epochs |
| CompactBlocks | compact block relay from sender to reconstructed block |
| PartialMerkle, MerkleSize, MerkleClaim | partial Merkle trees, their encoded size, and what a wrong transaction count does |
| StakeModifier | the recursive exchange sort and the selection of stake modifier bits |
| ArithUint256, Limbs, CompactTarget | multi-limb arithmetic, compact targets, block trust |
| Miner | filling a block template |
| RollingBloom | the rolling Bloom filter |
| Chain, SkipList | skip links, the length of a walk along them, and the active chain |
| Base58, Radix | Base58 with and without checksum |
| Numbers, ByteBits, Options | shared facts |

Code that updates state is modelled by classes and methods with the source's fields and loops.
The address manager and the cuckoo cache are also given as functions on whole states, so that
runs can be reasoned about as values; each method is proved to do what its function does.
Hashes, signatures, the elliptic curve, random draws and the clock are parameters. The check
queue is a state machine over atomic steps for any number of threads.

Some things the code or its comments say turned out otherwise. Each is stated in a member below:

- A partial Merkle tree may need more than the documented 2N - 1 flag bits
  (`BitsPromise`, `BitsPromiseFails`), and more bytes than 10 + ceil(32.25 N) (`SizePromise`,
  `SizePromiseFails`).
- `CAddrMan::Add_` reports an address as added even when it finds no cell and is dropped again
  (`AddStores`, `AddDrops`).
- `CAddrMan::Check_` does not notice an address left in the address map without an entry, and enters
  the address of entry 0 if it is missing (`PassesOrSound`, `StalePasses`), which a file of peers
  that names an address twice can bring about (`LoadedSound`, `TwicePasses`).
- Negative counts in a file of peers are accepted and leave counters that no structure agrees with
  (`AnyFile`, `LoadedSound`, `NegativeLoads`).
- After a file of peers fails to load, `CAddrDB::Read` resets the manager to leave it clean, but
  entries already read stay in its maps (`FailedSound`, `CutShortLeft`).
- Times at or before the epoch break what `CAddrMan::Check_` asks of times, though no structure
  (`StepTimes`, `RunTimes`, `EpochFails`).
- A partial Merkle tree that claims too few transactions can prove an inner hash as a transaction
  (`ClaimProves`, `TooLow`).
- A compact block with 65536 prefilled transactions and a short id makes the search for a free slot
  endless, since its 16-bit offset wraps (`AllWalksEnd`, `FullNeverEnds`).
- A request for block transactions may be read as a list that is not increasing, since the
  16-bit offset wraps after 65535 (`ReadIncreasing`, `ReadNotIncreasing`).
- In a block of more than 65536 transactions the 16-bit positions wrap, and a transaction may be
  taken for the coinbase (`RightForAllPools`).
- The cuckoo cache first evicts at the second hash place, not at the first as its comment says,
  and may move the element it just put in when two hash places coincide (`FirstSwap`, `MovesBack`,
  `MovedBack`).
- Multiplying a `base_uint` by itself in place gives zero, because the operand is cleared before
  it is read (`Multiply`). The binary operator copies first and is not affected.
- A negative number does not survive `VARINT` (`VarIntRoundTrip`), so neither does the negative
  version of a transaction in the coin database (`CoinsRoundTrip`, `VersionLost`), and a script longer than
  `MAX_SCRIPT_SIZE` comes back as `OP_RETURN` (`ScriptRoundTrip`).

## Model

| member | source | states |
|---|---|---|
| `AddrBook.EveryRunIsSound` | src/addrman.cpp:81-313 | from construction, every run of Add, Good, Attempt, Connected, SetServices and GetAddr, for any announcements, times, hashes and random draws, keeps the structures consistent: id map, address map and random vector inverse to each other, every tried entry alone in its hashed cell, every new entry's nRefCount equal to its number of cells and in 1..8, counters exact |
| `AddrBook.SwapKeeps` | src/addrman.cpp:93-111 | swapping two places of the random vector keeps the consistency check and changes nothing but two recorded positions |
| `AddrBook.CreateKeeps` | src/addrman.cpp:81-91 | a created entry gets an unused id and leaves everything consistent but for itself, which is in no table and not counted yet |
| `AddrBook.DeleteKeeps` | src/addrman.cpp:113-125 | deleting an unreferenced new entry keeps the consistency check and all other entries up to their random position |
| `AddrBook.ReferKeeps` | src/addrman.cpp:300-308 | a free cell may take one more reference to a new entry below the limit of eight |
| `AddrBook.UnreferKeeps` | src/addrman.cpp:127-140 | emptying a cell lowers its entry's count, which was positive |
| `AddrBook.ClearNewKeeps` | src/addrman.cpp:127-140 | clearing a new cell empties exactly that cell and deletes its entry exactly if it was the last reference |
| `AddrBook.StripBucket` | src/addrman.cpp:144-152 | an entry can only be at one position of a bucket, so looking at that one per bucket finds all its references |
| `AddrBook.StripKeeps` | src/addrman.cpp:142-156 | taking an entry out of every new bucket leaves it with no cell and everything else consistent |
| `AddrBook.MakeRoomKeeps` | src/addrman.cpp:158-181 | evicting the entry in a tried cell moves it back to one new cell, keeps the check and disturbs at most one further entry |
| `AddrBook.MakeTriedKeeps` | src/addrman.cpp:142-188 | moving a new entry to tried, with its cascade of eviction and deletion, keeps the full check |
| `AddrBook.MakeTriedEffect` | src/addrman.cpp:142-188 | exactly what that cascade changes: the tried cell now holds the entry, the evicted one is in one new cell, and at most one more entry lost a reference |
| `AddrBook.GoodKeeps` | src/addrman.cpp:190-240 | marking an address good keeps the structures consistent, at any time |
| `AddrBook.UpdatesKeep` | src/addrman.cpp:315-519 | attempts, connections and service updates keep them consistent, at any time |
| `AddrBook.PlaceKeeps` | src/addrman.cpp:285-311 | giving an entry one more cell, displacing what may be displaced or deleting an entry that finds no cell, keeps the check |
| `AddrBook.AddKeeps` | src/addrman.cpp:242-313 | adding an announced address keeps the check on every path |
| `AddrBook.AddStores` | src/addrman.cpp:242-313 | an unknown address is stored exactly if its cell is free or holds an entry that is terrible or has other cells; the call reports it as added in either case |
| `AddrBook.AddDrops` | src/addrman.cpp:242-313 | two addresses announced for one cell of an empty manager: the second is reported as added and is not stored |
| `AddrBook.ShuffleKeeps` | src/addrman.cpp:462-481 | any prefix of the random selection only permutes positions |
| `AddrBook.WorthyDraw` | src/addrman.cpp:462-481 | one draw extends the selection by the drawn entry exactly if it is worth handing out |
| `AddrBook.AllWorthy` | src/addrman.cpp:462-481 | walking the whole random vector meets every entry worth handing out exactly once |
| `AddrTimes.StepTimes` | src/addrman.cpp:393-418 | one operation keeps the tests on times true exactly if it sets no time before the epoch and no last success at it |
| `AddrTimes.RunTimes` | src/addrman.cpp:393-418 | the tests on times hold after every prefix of a run exactly if every operation of it is in time |
| `AddrCheck.EpochFails` | src/addrman.cpp:393-418 | one announcement, then a success at time 0: the structures are consistent and the debugging check fails |
| `AddrTimes.GoodTimes` | src/addrman.cpp:190-240 | marking a known address good keeps them exactly at positive times, through the whole cascade |
| `AddrCheck.Check_` | src/addrman.cpp:385-459 | returns 0 exactly if there is a key, the id map, random vector, both tables, the reference counts, the counters and the times are consistent and no entry but number 0 is missing from the address map; otherwise the error names the first part that is wrong; only that one address may have been entered, and a fully consistent manager passes unchanged |
| `AddrCheck.PassesOrSound` | src/addrman.cpp:390-456 | what passes is fully consistent exactly if ids are below the counter and the address map misses no entry and holds no address without one |
| `AddrCheck.EveryRunPasses` | src/addrman.cpp:385-459 | a manager reached by any run passes exactly if its times are right, as they are if every operation is in time |
| `AddrCheck.RebornPasses` | src/addrman.h:346-449 | a passing, consistent manager passes after saving and loading |
| `AddrCheck.StalePasses` | src/addrman.cpp:409-410 | an address left in the address map without an entry goes unnoticed; no run leaves one |
| `AddrCheck.CheckEntries` | src/addrman.cpp:393-419 | goes through the entries by ascending id, returns the error of the first entry that has one, and else collects the tried ids and the new ids with their counts |
| `AddrCheck.SizesRight` | src/addrman.cpp:390-424 | the three size tests hold exactly if the counters are right and the random vector is a permutation of the ids, though only one direction of it is looked at |
| `AddrCheck.CheckTried` | src/addrman.cpp:426-438 | stops with an error only if the tried table is wrong; otherwise what is left are the tried entries not in the table |
| `AddrCheck.TriedEnd` | src/addrman.cpp:426-438 | nothing is left exactly if every tried entry is at its hashed cell and every occupied cell holds one |
| `AddrCheck.CheckNew` | src/addrman.cpp:440-451 | stops with an error only if the new table or a count is wrong; otherwise what is left are the new entries with references to come |
| `AddrCheck.NewEnd` | src/addrman.cpp:440-451 | nothing is left exactly if every count is the number of cells and every occupied cell holds a new entry at its hashed position |
| `Peers.RoundTrip` | src/addrman.h:296-449 | loading what was saved gives the same entries, cells and reference counts under new ids: no collision, loss or pruning |
| `Peers.RebornSound` | src/addrman.h:346-449 | the structures of the loaded manager are consistent |
| `Peers.SameCells` | src/addrman.h:346-449 | every new and tried cell and every address leads to the entry it led to, renumbered |
| `Peers.SameRefs` | src/addrman.h:346-449 | every entry is referred to by exactly the cells it had |
| `Peers.RebornInfo` | src/addrman.h:296-449 | an entry comes back with all its fields but the two that live in memory only |
| `Peers.SizesFit` | src/addrman.h:346-375 | a consistent manager never has more entries than the loader accepts |
| `Peers.NumberedByRank` | src/addrman.h:312-328 | the walk over the id map numbers new entries by their rank |
| `PeersAny.AnyFile` | src/addrman.h:346-449 | whatever the file says, collisions, repeated or wrong indexes and lost entries included, the loaded manager is consistent but for the address map if and only if neither count in the header is negative |
| `PeersFile.WhichKept` | src/addrman.h:375-448 | which entries of any file are left: the new ones that get a cell from a bucket list (a usable index, fewer than eight cells so far, a free slot) or, without usable lists, are the first at their own hashed cell, and the tried ones that are first in their cell |
| `PeersFile.LoadedSound` | src/addrman.h:346-449 | whatever the file says, the loaded manager is fully consistent if and only if neither count is negative and no kept entry of the file has the address of another entry given an id; in particular if no address is named twice |
| `PeersCases.NegativeLoads` | src/addrman.h:358-372 | a header with a new count of -1 is accepted and leaves the id counter at -1; the debugging check fails |
| `PeersFailed.ClearedSound` | src/addrman.h:451-470 | resetting a manager makes it consistent if and only if it had no entry and no address |
| `PeersFailed.FailedSound` | src/addrdb.cpp:197-218 | after a failed load the reset manager is consistent if and only if no entry was read, because the header is refused, announces none, or nothing follows |
| `PeersCases.CutShortLeft` | src/addrdb.cpp:197-218 | a file that ends behind its only entry: loading fails, and the entry outlives the reset |
| `PeersCases.TwicePasses` | src/addrman.h:346-449 | a file with one address twice, the second copy in no bucket, loads into a manager whose only entry has lost its address; the debugging check lets it pass |
| `AddrMan.AddrMan.SwapRandom` | src/addrman.cpp:93-111 | swaps two places of the random vector as the pure operation does |
| `AddrMan.AddrMan.Create` | src/addrman.cpp:81-91 | the new state is the pure operation on the old one, and the id is the old counter |
| `AddrMan.AddrMan.Delete` | src/addrman.cpp:113-125 | the new state is the pure operation on the old one |
| `AddrMan.AddrMan.ClearNew` | src/addrman.cpp:127-140 | the new state is the pure operation on the old one and the cell is empty |
| `AddrMan.AddrMan.StripNew` | src/addrman.cpp:144-156 | the loop over 1024 buckets removes the entry from all its cells |
| `AddrMan.AddrMan.MakeRoom` | src/addrman.cpp:158-181 | the new state is the pure operation on the old one and the tried cell is free |
| `AddrMan.AddrMan.MakeTried` | src/addrman.cpp:142-188 | the new state is the pure operation on the old one and passes the check; none of its asserts can fail |
| `AddrMan.AddrMan.Good_` | src/addrman.cpp:190-240 | the new state is the pure operation on the old one; the search for a bucket of a new entry always succeeds, so the error exit is unreachable |
| `AddrMan.AddrMan.Place_` | src/addrman.cpp:285-311 | the new state is the pure operation on the old one and passes the check |
| `AddrMan.AddrMan.Add_` | src/addrman.cpp:242-313 | new state and result are the pure operation's, and the check holds |
| `AddrMan.AddrMan.Attempt_` | src/addrman.cpp:315-335 | the new state is the pure operation on the old one and passes the check |
| `AddrMan.AddrMan.Connected_` | src/addrman.cpp:483-501 | the new state is the pure operation on the old one and passes the check |
| `AddrMan.AddrMan.SetServices_` | src/addrman.cpp:503-519 | the new state is the pure operation on the old one and passes the check |
| `AddrMan.AddrMan.GetAddr_` | src/addrman.cpp:462-481 | hands out entries worth it only, at most the allowed share, and either that share or all of them; only positions change |
| `AddrMan.AddrMan.constructor` | src/addrman.h:451-470 | a constructed manager is empty and passes the check |
| `AddrMan.AddrMan.Serialize` | src/addrman.h:296-343 | writes the entries in id order with bucket lists that name them by rank |
| `AddrMan.AddrMan.Unserialize` | src/addrman.h:346-449 | loads exactly what the stream describes, consistent exactly if the counts are not negative and the addresses kept are apart; reports failure exactly if a size is out of range above or the stream ends early, and then holds the entries read so far |
| `AddrMan.AddrMan.Clear` | src/addrman.h:451-470 | resets everything but the id map and the address map |
| `AddrMan.AddrMan.Read` | src/addrdb.cpp:197-218 | loads the file or resets; which of the two, and in both cases exactly when the manager is consistent afterwards |
| `AddrMan.SaveThenLoad` | src/addrman.h:296-449 | saving and loading into a fresh manager gives the same manager, renumbered, and it passes the check |
| `CoinsCache.Run` | src/coins.cpp:63-280 | for stacks of any depth and any run of fetch, modify, create, uncache, flush and new layers, every layer means what the same run makes of plain maps from txid to coins |
| `CoinsCache.Step` | src/coins.cpp:63-280 | one operation on a stack does to the layers' meanings what the same operation does to plain maps |
| `CoinsCache.FetchKeeps` | src/coins.cpp:93-109 | caching what the parent says, fresh if spent, keeps the layer's meaning |
| `CoinsCache.UncacheKeeps` | src/coins.cpp:273-280 | dropping a clean entry keeps the layer's meaning |
| `CoinsCache.SetKeeps` | src/coins.cpp:120-174 | a dirty entry, fresh only over nothing, changes the meaning at its txid only |
| `CoinsCache.DropKeeps` | src/coins.cpp:351-363 | a fresh entry with nothing unspent can be dropped |
| `CoinsCache.WriteKeeps` | src/coins.cpp:209-264 | writing a child's entry gives the parent the child's coins whatever the flags let it skip, and the misapplied-FRESH exception cannot occur |
| `CoinsCache.FlushMeaning` | src/coins.cpp:266-271 | after a flush parent and child mean the same |
| `CoinsCache.TrimKeepsPruned` | src/coins.h:121-128 | cleaning up does not change whether anything is unspent |
| `CoinsCache.CoinsViewCache.constructor` | src/coins.cpp:63-82 | a new layer means what its base means, but for the randpay entry every layer overrides |
| `CoinsCache.CoinsViewCache.FetchCoins` | src/coins.cpp:93-109 | finds the coins the layer means, and misses exactly what it does not have |
| `CoinsCache.CoinsViewCache.GetCoins` | src/coins.cpp:111-118 | answers what the plain map answers, up to pruned coins |
| `CoinsCache.CoinsViewCache.HaveCoins` | src/coins.cpp:185-192 | testing only for an empty list of outputs answers as the plain map, when every layer holds cleaned-up coins and no modification is open |
| `CoinsCache.CoinsViewCache.ModifyCoins` | src/coins.cpp:120-144 | starting a modification keeps every layer's meaning and leaves the entry dirty |
| `CoinsCache.CoinsViewCache.ModifyNewCoins` | src/coins.cpp:155-174 | creating coins that BIP 30 promises are absent replaces the map entry |
| `CoinsCache.CoinsViewCache.EndModify` | src/coins.cpp:351-363 | the end of a modification sets the map entry to the cleaned-up coins |
| `CoinsCache.CoinsViewCache.Uncache` | src/coins.cpp:273-280 | changes no lookup |
| `CoinsCache.CoinsViewCache.BatchWrite` | src/coins.cpp:209-264 | the parent then means what the child meant |
| `CoinsCache.CoinsViewCache.Flush` | src/coins.cpp:266-271 | every lookup in this layer answers as before and the parent means the same |
| `CoinsCache.CoinsViewDB.BatchWrite` | src/txdb.cpp:48-69 | the database then holds exactly the written map |
| `CheckQueue.StepKeeps` | src/checkqueue.h:69-127 | every step of every thread keeps: nTodo is queued plus in-flight checks, idle and total counts are right, the verdict so far plus what is still to run is the verdict on everything added, and queued work never meets only sleeping workers |
| `CheckQueue.RunKeeps` | src/checkqueue.h:69-168 | every interleaving of any number of workers keeps that invariant |
| `CheckQueue.Initially` | src/checkqueue.h:131 | a new queue satisfies it |
| `CheckQueue.WaitVerdict` | src/checkqueue.h:69-144 | in every reachable state, a Wait that returns reports exactly whether every check added since the last one succeeds, with the queue empty and the status reset |
| `CheckQueue.SleepingMasterHasAWaker` | src/checkqueue.h:84-104 | the master sleeps only while some worker holds a batch whose end will notify it |
| `CheckQueue.AddWakes` | src/checkqueue.h:146-158 | adding checks finds or makes a worker awake, if there is any |
| `CheckQueue.UnusedIsIdle` | src/checkqueue.h:164-191 | a queue nobody uses passes the idle test of its next user |
| `CheckQueue.NeverStuck` | src/checkqueue.h:69-127 | while the master waits, some thread can step on its own |
| `CheckQueue.RankDrops` | src/checkqueue.h:69-127 | every such step lowers a measure |
| `CheckQueue.WaitComesBack` | src/checkqueue.h:69-144 | under any schedule Wait returns after at most that many steps |
| `PartialMerkle.EncodeThenDecode` | src/merkleblock.cpp:78-181 | extracting a built tree, padded to whole bytes or not, gives the true root and exactly the matched transactions with their positions |
| `PartialMerkle.ExtractSound` | src/merkleblock.cpp:96-132 | for any bits and hashes, a node that extracts without complaint to its true hash reports only true transactions under it |
| `PartialMerkle.TrueRootProves` | src/merkleblock.cpp:150-181 | whatever arrives with the right transaction count: an extraction that yields the block's root reports only transactions of the block, each at its position |
| `MerkleClaim.ClaimProves` | src/merkleblock.cpp:150-181 | for any claimed transaction count the source accepts, with hashing free of collisions and no transaction id that is an inner hash: every extraction that yields the block's root reports only transactions of the block if and only if the claimed tree is at least as high as the block's |
| `MerkleClaim.HighEnough` | src/merkleblock.cpp:97-181 | a claimed tree at least as high: whatever arrives and yields the root reports only transactions of the block |
| `MerkleClaim.TooLow` | src/merkleblock.cpp:97-181 | a lower claimed tree: an encoding that yields the root and reports an inner hash as a transaction |
| `PartialMerkle.BuildSizes` | src/merkleblock.cpp:78-94 | stored hashes are at most the leaves and at most 1 + matched * height; the bits are 2N - 1 plus one for every node opened that has an only child |
| `PartialMerkle.BitsPromise` | src/merkleblock.h:36-47 | both bounds on N hold; the documented 2N - 1 bits hold if and only if no level of odd width has a match under its last node |
| `PartialMerkle.BitsPromiseFails` | src/merkleblock.h:47 | three transactions with the last one matched take four bits for two hashes |
| `MerkleSize.SizePromise` | src/merkleblock.h:31-48 | the documented bound 10 + ceil(32.25 N) on the encoded size holds if and only if a condition on the number of stored hashes and of opened only children holds, both functions of the matches |
| `MerkleSize.WhenRoomy` | src/merkleblock.h:31-48 | up to 65535 hashes and 33 opened only children: there is room below 253 hashes, and from there on exactly if the flag bits fit in a quarter byte a hash, with two bytes more as long as the flag bytes' own count takes one |
| `MerkleSize.SmallTree` | src/merkleblock.h:31-48 | every tree of at most 33 levels, as any with a 32-bit count of transactions has, and fewer than 253 hashes has the documented size |
| `MerkleSize.AllMatchedSize` | src/merkleblock.h:31-48 | with every transaction matched it depends on the number of transactions only |
| `MerkleSize.SizePromiseFails` | src/merkleblock.h:31-48 | 1012 transactions, all matched, take more than the documented size |
| `PartialMerkle.PartialMerkleTree.constructor` | src/merkleblock.cpp:134-146 | builds the encoding of the block and matches |
| `PartialMerkle.PartialMerkleTree.TreeHeight` | src/merkleblock.cpp:138-142 | the loop finds the height at which one node is left |
| `PartialMerkle.PartialMerkleTree.ParentOfMatch` | src/merkleblock.cpp:79-82 | the loop finds whether a match is below the node |
| `PartialMerkle.PartialMerkleTree.TraverseAndBuild` | src/merkleblock.cpp:78-94 | appends the encoding of a subtree |
| `PartialMerkle.PartialMerkleTree.TraverseAndExtract` | src/merkleblock.cpp:96-132 | reads a subtree as the pure decoder does, error flag included |
| `PartialMerkle.PartialMerkleTree.ExtractMatches` | src/merkleblock.cpp:150-181 | all the checks of the decoder, in order; the root or zero; a tree already found bad gives zero |
| `PartialMerkle.PackBits` | src/merkleblock.h:99-104 | eight bits to a byte, least significant first, zeros at the end |
| `PartialMerkle.UnpackBits` | src/merkleblock.h:92-98 | gives back every packed bit |
| `PartialMerkle.SendAndExtract` | src/merkleblock.cpp:78-181 | built, packed, unpacked and extracted: the root and exactly the selected transactions |
| `CompactBlocks.CompactBlock` | src/blockencodings.cpp:20-38 | the coinbase in full and a short id for every other transaction, in order |
| `CompactBlocks.PositionsGrow` | src/blockencodings.cpp:69-84 | coded prefilled positions are strictly increasing |
| `CompactBlocks.PlacedCount` | src/blockencodings.cpp:69-84 | every prefilled transaction fills a slot of its own |
| `CompactBlocks.EnoughSlots` | src/blockencodings.cpp:92-109 | there are exactly as many free slots as short ids, so the walk over filled slots stays in bounds |
| `CompactBlocks.IdsInSlots` | src/blockencodings.cpp:92-109 | every short id maps to a slot, and to one that is not prefilled if positions fit in 16 bits |
| `CompactBlocks.CountIsFilled` | src/blockencodings.cpp:112-172 | whatever the pools hold, mempool_count is the number of filled slots that are not prefilled, and prefilled slots stay, if short ids lead to free slots |
| `CompactBlocks.ReceivedRight` | src/blockencodings.cpp:58-172 | if no pool transaction collides with a short id of another, slot i holds only the block's i-th transaction |
| `CompactBlocks.RightForAllPools` | src/blockencodings.cpp:58-172 | for a block with distinct short ids, all pools without collisions fill only right slots if and only if the block has at most 65536 transactions |
| `CompactBlocks.AllWalksEnd` | src/blockencodings.cpp:92-96 | for every message that is not invalid, every walk over filled slots ends if and only if at most 65535 transactions are prefilled or no short id follows |
| `CompactBlocks.FullNeverEnds` | src/blockencodings.cpp:92-96 | 65536 prefilled transactions and one short id: not invalid, and the walk never ends |
| `CompactBlocks.PartiallyDownloadedBlock.InitData` | src/blockencodings.cpp:58-179 | invalid exactly for the messages described as invalid; on success the slots are those of the reference fill and the counters add up; failure only for repeated or crowded short ids; requires that the walk over filled slots ends |
| `CompactBlocks.PartiallyDownloadedBlock.MapIds` | src/blockencodings.cpp:92-109 | with a 16-bit offset, the i-th short id is mapped to the i-th slot left free |
| `CompactBlocks.PartiallyDownloadedBlock.Match` | src/blockencodings.cpp:112-172 | offers a pool to the slots, taking back double matches, and stops when all ids are matched |
| `CompactBlocks.PartiallyDownloadedBlock.FillBlock` | src/blockencodings.cpp:187-206 | too few or too many missing transactions are refused; otherwise the block has what the slots had and the missing ones in the empty slots in order, and a second call is impossible |
| `CompactBlocks.IndexesRoundTrip` | src/blockencodings.h:38-68 | reading differentially coded indexes gives back every increasing list of 16-bit indexes |
| `CompactBlocks.ReadIncreasing` | src/blockencodings.h:58-63 | a list that was read is increasing if and only if no gap follows once the gaps read, each plus one, add up to 65536, where the 16-bit offset wraps |
| `CompactBlocks.ReadNotIncreasing` | src/blockencodings.h:58-63 | the gaps 65535 and 0 are read as the indexes 65535 and 0 |
| `CompactBlocks.WriteIndexes` | src/blockencodings.h:64-67 | writes the gaps |
| `CompactBlocks.ReadIndexes` | src/blockencodings.h:44-63 | rebuilds the indexes in place, or fails on an overflow of 16 bits |
| `CompactBlocks.Request` | src/net_processing.cpp:2125-2129 | asks for exactly the empty slots, in order |
| `CompactBlocks.Answer` | src/net_processing.cpp:1165-1175 | the transactions asked for, or nothing if an index is out of range |
| `CompactBlocks.Relay` | src/blockencodings.cpp:20-206 | the whole exchange is lossless: if short ids differ from each other and from those of other pool transactions, the receiver ends up with exactly the sender's transactions, whatever the pools hold |
| `Cuckoo.EveryRun` | src/cuckoocache.h:264-453 | in every run of insertions and erasing lookups every element is at one of its eight places, none but the default is there twice, only inserted ones are there, and current-epoch entries plus the counter stay within epoch_size + max(1, epoch_size / 16) |
| `Cuckoo.EnterConserves` | src/cuckoocache.h:368-416 | after the epoch check, the kept elements with the new one are the kept elements afterwards with at most one dropped |
| `Cuckoo.PushConserves` | src/cuckoocache.h:380-416 | the same for the bounded chain of evictions |
| `Cuckoo.InsertKeeps` | src/cuckoocache.h:368-416 | insertion keeps elements at home and unique |
| `Cuckoo.KeptIsFound` | src/cuckoocache.h:443-453 | an element that is not discardable is found |
| `Cuckoo.NoFalsePositives` | src/cuckoocache.h:443-453 | a lookup never finds what was not inserted |
| `Cuckoo.InsertBound` | src/cuckoocache.h:264-296 | insertion keeps the epoch bound, through ageing and rescans |
| `Cuckoo.EraseBound` | src/cuckoocache.h:443-453 | erasing keeps it |
| `Cuckoo.CheckSpares` | src/cuckoocache.h:264-296 | the epoch check makes no element of the current epoch discardable |
| `Cuckoo.FirstSwap` | src/cuckoocache.h:391-405 | the first eviction is at the second hash place, not at the first as the comment says |
| `Cuckoo.MovesBack` | src/cuckoocache.h:391-412 | when the evicted element has no free place either, the next swap takes out the element just put in exactly if its place is repeated in a row among the evicted element's places; the cache is then as before and two swaps are used up |
| `Cuckoo.MovedBack` | src/cuckoocache.h:368-416 | a run from a set-up cache, a hasher and an element for which this happens: the element is dropped |
| `Cuckoo.BitPackedFlags.BitSet` | src/cuckoocache.h:92-95 | sets one flag and no other |
| `Cuckoo.BitPackedFlags.BitUnset` | src/cuckoocache.h:103-106 | clears one flag and no other |
| `Cuckoo.BitPackedFlags.BitIsSet` | src/cuckoocache.h:113-116 | reads one flag |
| `Cuckoo.CuckooCache.EpochCheck` | src/cuckoocache.h:264-296 | the table scan and the ageing loop do what the reference step does |
| `Cuckoo.CuckooCache.Insert` | src/cuckoocache.h:368-416 | the eviction loop over the arrays does what the reference step does |
| `Cuckoo.CuckooCache.Contains` | src/cuckoocache.h:443-453 | finds what the table holds; erasing only marks it |
| `ArithUint256.BaseUint.Add` | src/arith_uint256.h:135-145 | addition modulo 2^(32 * width), for any width, also of a number to itself |
| `ArithUint256.BaseUint.Invert` | src/arith_uint256.h:69-75 | the largest number minus this one |
| `ArithUint256.BaseUint.Increment` | src/arith_uint256.h:173-180 | plus one, modulo |
| `ArithUint256.BaseUint.Decrement` | src/arith_uint256.h:190-197 | minus one, modulo |
| `ArithUint256.BaseUint.Negate` | src/arith_uint256.h:77-84 | the negative, modulo |
| `ArithUint256.BaseUint.Subtract` | src/arith_uint256.h:147-151 | subtraction, modulo |
| `ArithUint256.BaseUint.MultiplySmall` | src/arith_uint256.cpp:56-65 | multiplication by a 32-bit number, modulo; the 64-bit intermediate never overflows |
| `ArithUint256.BaseUint.Multiply` | src/arith_uint256.cpp:68-81 | the schoolbook loops are multiplication modulo 2^(32 * width); multiplying a number by itself in place gives zero |
| `ArithUint256.BaseUint.Divide` | src/arith_uint256.cpp:84-107 | shift and subtract is floor division; division by zero fails and leaves zero |
| `ArithUint256.BaseUint.ShiftLeft` | src/arith_uint256.cpp:22-36 | multiplication by 2^shift, modulo |
| `ArithUint256.BaseUint.ShiftRight` | src/arith_uint256.cpp:39-53 | floor division by 2^shift |
| `ArithUint256.BaseUint.CompareTo` | src/arith_uint256.cpp:110-119 | the order of the numbers |
| `ArithUint256.BaseUint.EqualTo` | src/arith_uint256.cpp:122-133 | equality with a 64-bit number |
| `ArithUint256.BaseUint.Bits` | src/arith_uint256.cpp:172-183 | the position of the highest bit set plus one, or zero |
| `ArithUint256.BaseUint.GetLow64` | src/arith_uint256.h:245-249 | the number modulo 2^64 |
| `CompactTarget.SetCompact` | src/arith_uint256.cpp:204-222 | the mantissa times a power of 256, modulo 2^256; the overflow flag is set exactly if the exact value does not fit, the sign flag exactly for negative non-zero values |
| `CompactTarget.GetCompact` | src/arith_uint256.cpp:224-245 | the encoding stands for a number that is never larger, smaller by at most one part in 2^15, and equal if the number is a 23-bit number times a power of 256 |
| `CompactTarget.ThroughCompact` | src/arith_uint256.cpp:204-245 | encoded and decoded: y <= x, (x - y) * 2^15 <= x, no flag set, and y = x for every x that has a compact form |
| `CompactTarget.TrustFormula` | src/chain.cpp:131-135 | (m - 1 - t) / (t + 1) + 1 is m / (t + 1) rounded down |
| `CompactTarget.TargetRoom` | src/chain.cpp:125-135 | no compact target is all ones, so target + 1 does not wrap |
| `CompactTarget.GetBlockTrust` | src/chain.cpp:123-136 | zero for invalid targets, else floor(2^256 / (target + 1)) exactly for proof of stake and 1 for proof of work |
| `StakeModifier.ExchangeDrops` | src/kernel.cpp:138 | exchanging neighbours in the wrong order removes exactly one inversion |
| `StakeModifier.Greater` | src/kernel.cpp:117-136 | compares by time, then by the 256-bit hash, word by word |
| `StakeModifier.SwapSort` | src/kernel.cpp:110-141 | terminates, permutes, and if the items up to a position were in order then one more is afterwards, although it recurses to both sides |
| `StakeModifier.SortCandidates` | src/kernel.cpp:214-216 | the driver sorts any candidates, with exactly as many exchanges as there were inversions |
| `StakeModifier.PickIs` | src/kernel.cpp:60-108 | a scan picks the first minimum-hash unselected candidate with time up to the stop, or the earliest unselected one if there is none |
| `StakeModifier.SelectBlock` | src/kernel.cpp:60-108 | with cached hashes it picks what the scan without a cache picks |
| `StakeModifier.RoundsSucceed` | src/kernel.cpp:257-277 | while there are candidates every round picks one not picked before |
| `StakeModifier.SelectRounds` | src/kernel.cpp:254-277 | all min(64, n) rounds succeed with the picks of the recomputing scan, and bit k is the k-th pick's entropy bit |
| `StakeModifier.NewModifier` | src/kernel.cpp:200-278 | sorting and selecting together, from the candidates of one selection interval |
| `StakeModifier.SelectionInterval` | src/kernel.cpp:46-55 | the sum of the 64 sections |
| `StakeModifier.SectionsGrow` | src/kernel.cpp:39-43 | sections never shrink, from a third of the interval to the whole |
| `StakeModifier.StopShifts` | src/kernel.cpp:254-260 | the last stop is the start plus the whole selection interval |
| `Miner.BlockAssembler.constructor` | src/miner.cpp:76-111 | the limits end up between 4000 and MAX_BLOCK_WEIGHT - 4000, and between 1000 and MAX_BLOCK_SERIALIZED_SIZE - 1000, whatever was asked for |
| `Miner.BlockAssembler.ResetBlock` | src/miner.cpp:113-129 | an empty block with the reserve for the coinbase |
| `Miner.BlockAssembler.IsStillDependent` | src/miner.cpp:464-473 | whether some parent is outside the block |
| `Miner.BlockAssembler.TestForBlock` | src/miner.cpp:526-576 | accepts exactly final transactions that fit, sizes counting only when they are accounted for, and declares the block finished only over one that does not fit |
| `Miner.BlockAssembler.AddToBlock` | src/miner.cpp:578-602 | keeps order, totals and limits |
| `Miner.StillWaiting` | src/miner.cpp:853-863 | a waiting transaction that is not a child of the new one still lacks a parent |
| `Miner.BlockAssembler.Wake` | src/miner.cpp:853-863 | all children that waited are tried again, and whoever still waits lacks a parent |
| `Miner.BlockAssembler.Step` | src/miner.cpp:820-865 | one turn of the loop; the selected-twice assert and the size break cannot be reached |
| `Miner.BlockAssembler.AddTxs` | src/miner.cpp:799-867 | filling terminates, selects nothing twice, puts parents first, keeps totals equal to the reserve plus the sums and within the limits; unless the block was declared full, every transaction left out lacks a parent, may not be in the block, or does not fit any more |
| `RollingBloom.RecentIsFound` | src/bloom.cpp:249-297 | each of the last nElements insertions, and of the last 2 * ((nElements + 1) / 2) + 1, is found in every run, for any hash functions |
| `RollingBloom.FedRemembers` | src/bloom.cpp:249-277 | how old the trace of an insertion can be, in every run |
| `RollingBloom.WipesOldest` | src/bloom.cpp:251-266 | starting a generation clears exactly the positions of the oldest one |
| `RollingBloom.MaskedBit` | src/bloom.cpp:258-265 | the word masks clear exactly the positions of one generation |
| `RollingBloom.Rewritten` | src/bloom.cpp:269-276 | writing two bits changes the generation of one position only |
| `RollingBloom.RollingBloomFilter.constructor` | src/bloom.cpp:217-242 | a new filter has every position unset |
| `RollingBloom.RollingBloomFilter.Wipe` | src/bloom.cpp:258-265 | the loop over word pairs wipes one generation |
| `RollingBloom.RollingBloomFilter.Insert` | src/bloom.cpp:249-277 | the words stand for the generations the reference insertion gives |
| `RollingBloom.RollingBloomFilter.Contains` | src/bloom.cpp:285-297 | whether all positions are set |
| `RollingBloom.RollingBloomFilter.Clear` | src/bloom.cpp:305-313 | a filter with every position unset |
| `RollingBloom.RememberAndLook` | src/bloom.cpp:249-297 | insert any keys, look one up: recent ones are found |
| `Chain.BlockIndex.GetAncestor` | src/chain.cpp:86-110 | terminates and finds what walking the parents finds, or nothing if the height is out of range; with all skip links set, in a number of steps that depends on the heights only |
| `Chain.BlockIndex.BuildSkip` | src/chain.cpp:117-121 | sets the right skip link and keeps the tree right |
| `Chain.GrowTree` | src/chain.cpp:117-121 | every tree grown block by block from genesis has all its skip links, each to the ancestor at its skip height |
| `Chain.FindAncestor` | src/chain.cpp:76-110 | in every such tree a block below height 2^18 finds any ancestor in at most 110 steps, as the comment has it from simulations, and below height 2^m in at most (m^2 + 10 m) / 4 |
| `SkipList.LowestOneGoes` | src/chain.cpp:72-73 | clearing the lowest one bit |
| `SkipList.SkipsDown` | src/chain.cpp:76-84 | the skip height is strictly lower |
| `SkipList.ChainOdd` | src/chain.cpp:86-110 | from an odd height above the middle of 2^m aligned heights, every link followed takes two one bits, until the middle is crossed |
| `SkipList.StepsBound` | src/chain.cpp:76-110 | for every pair of heights the walk is within an explicit bound that grows as m^2 / 4 |
| `SkipList.Steps110` | src/chain.cpp:80-83 | at most 110 steps between any heights below 2^18 |
| `Chain.ActiveChain.SetTip` | src/chain.cpp:14-24 | the vector holds the tip's ancestor at every height although rewriting stops early |
| `Chain.ActiveChain.FindFork` | src/chain.cpp:54-63 | exactly the heights up to the result are common to the chain and the block's past |
| `Chain.ActiveChain.GetLocator` | src/chain.cpp:26-52 | starts at the block, ends at genesis, single steps first and then doubling ones, every entry an ancestor |
| `Chain.ActiveChain.Next` | src/chain.h:561-567 | the block's successor in the chain, whose parent it is |
| `Base58.Alphabet` | src/base58.cpp:19-20 | the characters by value are the alphabet string |
| `Base58.EncodeFits` | src/base58.cpp:82 | the 138/100 buffer holds every encoding |
| `Base58.DecodeFits` | src/base58.cpp:35 | the 733/1000 buffer holds every decoding |
| `Radix.MultiplyAdd` | src/base58.cpp:44-53 | the carry loop multiplies the number in the buffer and adds a digit, and the carry is zero at the end |
| `Radix.ConvertBack` | src/base58.cpp:22-110 | converting a digit string to another base and back gives the same string, leading zeros included |
| `Base58.EncodeBase58` | src/base58.cpp:72-110 | one '1' per leading zero byte, then the number in base 58 |
| `Base58.DecodeBase58` | src/base58.cpp:22-70 | the bytes of a text with any spaces around it, or failure exactly if a character is not in the alphabet or follows a space |
| `Base58.DecodeEncode` | src/base58.cpp:22-110 | decoding undoes encoding for all byte strings |
| `Base58.EncodeDecode` | src/base58.cpp:22-110 | encoding undoes decoding for all valid texts without spaces |
| `Base58.EncodeBase58Check` | src/base58.cpp:122-129 | encodes the bytes and their checksum |
| `Base58.DecodeBase58Check` | src/base58.cpp:131-146 | succeeds with b exactly if the text decodes to b and its checksum |
| `Base58.CheckRoundTrip` | src/base58.cpp:122-146 | the checksummed form round-trips for any hash |
| `VarInts.VarIntRoundTrip` | src/serialize.h:341-369 | reading gives back what was written if and only if it was not negative; of a negative number only seven bits remain |
| `VarInts.WriteVarInt` | src/serialize.h:341-355 | writes that form, and the temporary buffer is never too small |
| `VarInts.Reader.ReadVarInt` | src/serialize.h:358-369 | reads that form, or fails at the end of the data |
| `Compressor.CompressedBack` | src/compressor.cpp:142-185 | amount compression is a bijection of the natural numbers |
| `Compressor.CompressedFits` | src/compressor.cpp:142-159 | the result is at most 9 * n + 8 |
| `Compressor.CompressAmount` | src/compressor.cpp:142-159 | the loop computes it in 64-bit arithmetic |
| `Compressor.DecompressAmount` | src/compressor.cpp:161-185 | the loops undo it in 64-bit arithmetic |
| `Compressor.AmountRoundTrip` | src/compressor.cpp:142-185 | every amount in MoneyRange survives without overflow |
| `Compressor.CompressBack` | src/compressor.cpp:48-132 | the short form of a script gives the script back, for any lawful curve |
| `Compressor.ScriptRoundTrip` | src/compressor.h:58-88 | a script is read back unchanged if and only if it has at most MAX_SCRIPT_SIZE bytes; if longer but of 32-bit size it comes back as OP_RETURN |
| `CoinsCodec.BitIs` | src/coins.h:185-191 | bit p of mask byte b says whether output 2 + 8b + p is unspent |
| `CoinsCodec.Covered` | src/coins.cpp:19-35 | the mask covers every unspent output |
| `CoinsCodec.CalcMaskSize` | src/coins.cpp:19-35 | the number of mask bytes up to the last used one, and how many are not zero |
| `CoinsCodec.MaskRoundTrip` | src/coins.h:216-227 | the reader stops exactly behind the last mask byte written |
| `CoinsCodec.CodeParts` | src/coins.h:176-179 | the code holds the coinbase flag, the first two outputs and the number of non-zero mask bytes, less one if both outputs are spent |
| `CoinsCodec.OutRoundTrip` | src/compressor.h:106-119 | a storable output is read back unchanged |
| `CoinsCodec.CoinsRoundTrip` | src/coins.h:173-244 | for any pattern of spent outputs and any signed version and height, what was stored is read back as its cleaned-up form with nothing more consumed if and only if version and height are not negative; else these come back as their low seven bits |
| `CoinsCodec.VersionLost` | src/coins.h:173-244 | one unspent output of a transaction with version -1 comes back with version 127 |
| `CoinsCodec.Serialize` | src/coins.h:173-204 | writes that form; there is always something unspent to write |
| `CoinsCodec.Unserialize` | src/coins.h:207-244 | reads any stream as the reference parser does |
| `CoinsCodec.StoreAndLoad` | src/coins.h:173-244 | stored and loaded: the cleaned-up coins exactly if version and height are not negative, else with those two cut to seven bits |

## Left out

- `CAddrMan::Select_` and `GetChance`: probabilistic termination and floating point.
- Use of an address manager after `Clear` has left entries in its maps; runs start from construction.
- The 32-bit range of ids and times in the address manager: ids and times are unbounded.
- The byte framing of peers.dat: a saved manager is a record of counts, entries and bucket lists; a bucket list is there or not, never in part.
- Memory usage accounting, best-block hashes and `SetBackend` in the coin caches.
- The `fQuit` flag of the check queue, which nothing ever sets.
- AddrCheck.Check_: whether the key is null is a parameter, since the key is part of the hasher; among the errors of one table it is not stated which is returned.
- AddrMan.AddrMan.Unserialize: loads into a fresh manager, as at start-up; a used one keeps its old id map and address map, which `Clear` leaves in place. After a failure only these two maps are stated.
- AddrMan.AddrMan.Read: loads into a fresh manager too; the magic number and the checksum of the file are not modelled.
- AddrMan.AddrMan.constructor: models the state after construction; the random key is part of the hasher.
- CompactBlocks.PartiallyDownloadedBlock.InitData: requires that the walk over filled slots ends, which `AllWalksEnd` characterises, since otherwise the source does not return; the bucket-size cutoff is a parameter, and `extra_count` is not kept.
- CompactBlocks.Relay: requires a coinbase that is not null and a header that is not null, as every block has, and at most 65536 transactions, beyond which `RightForAllPools` shows it wrong.
- CompactBlocks.ReceivedRight: requires at most 65536 transactions for the same reason.
- Transport of compact blocks and requests as bytes; short-id hashing is a parameter.
- `CalcTreeWidth` in 32 bits: tree widths are unbounded numbers.
- Cuckoo sizes from `setup`'s logarithm, and the Bloom filter's sizing formulas: sizes are parameters.
- Memory ordering of the cuckoo cache's atomic flags: erasures are atomic steps between insertions.
- Conversion of big integers to doubles and hexadecimal text.
- The walk that gathers stake modifier candidates, the protocol switches, kernel checks and the proof of stake itself.
- StakeModifier.NewModifier: takes the candidates as given, all unselected with nothing cached.
- Package and priority selection in the miner, and the mining loops; the pool's parent and child links are assumed to agree.
- Miner.BlockAssembler.AddTxs: the adjusted time is one value for the whole call.
- `FindEarliestAtLeast` and block index flags.
- Embedded NUL characters in Base58 text, and the address types built on it.
- CoinsCodec.Serialize: requires fewer than 2^32 - 16 outputs, beyond which the 32-bit header code and loop counters wrap.
- CoinsCodec.Unserialize: signed 32-bit values of a foreign stream wrap, where the source leaves overflow undefined.
- CoinsCache.CoinsViewDB.BatchWrite: the best-block record written with the batch is not modelled.
- RollingBloom.RollingBloomFilter.constructor: the number of hash functions and the table size are given, not computed from a false positive rate.
- Elliptic-curve arithmetic: a curve is any validity test and expansion that agree on valid keys.
- `CBloomFilter`, checkpoints, alerts, key stores, RPC, wallet and network handling.
