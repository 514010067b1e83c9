# A verified model of the node's core data structures

The project models the parts of the node whose correctness rests on invariants that span many functions, and proves
these invariants for every input, every run and every reachable state. Code that works in place is modelled in place:
classes with fields and arrays, methods with loops, each proved against a specification on values. Hash functions,
random numbers, the clock, the socket and the mempool's own bookkeeping are parameters or nondeterministic choices, so
every result holds whatever they do.

| component | files | main results |
|---|---|---|
| address manager | AddrManModel, AddrMan | `AddrMan.Run`, `AddrManModel.AddRemembers` |
| its stored form | AddrManImage, AddrManRoundTrip, AddrManFile | `AddrManRoundTrip.RoundTrip`, `AddrManImage.LoadedConsistent`, `AddrManFile.Reload` |
| coin caches | CoinsModel, CoinsFlush, Coins, CoinsSpec | `CoinsSpec.Run`, `Coins.Stack.Flush` |
| block assembly | MinerModel, Miner | `Miner.BlockAssembler.Assemble`, `MinerModel.UpdatedExact`, `MinerModel.PassingIsComplete` |
| check queue | CheckQueue | `CheckQueue.EveryRun`, `CheckQueue.WaitIsFinal`, `CheckQueue.WaitReturns` |
| Merkle trees | MerkleModel, BlockMerkle, Merkle | `BlockMerkle.ComputeMerkleRoot`, `MerkleModel.Soundness`, `MerkleModel.RoundTrip`, `Merkle.Relay` |
| cuckoo cache | Cuckoo, ByteBits, FastRange | `Cuckoo.Cache.Insert`, `Cuckoo.Run` |
| 256-bit arithmetic, difficulty, work | Limbs, Uint256, Work, Arithmetic | `Uint256.Uint.Divide`, `Work.SetCompact`, `Work.CompactRoundTrip`, `Work.GetBlockProof` |
| block index and active chain | SkipList, Chain | `Chain.BlockIndex.GetAncestor`, `SkipList.StepsBound`, `Chain.ActiveChain.SetTip`, `Chain.LocatorLength` |
| compact blocks (BIP 152) | CompactBlocks, BlockRequest | `CompactBlocks.Relay`, `BlockRequest.RoundTrip` |
| rolling Bloom filter | RollingBloom | `RollingBloom.InsertAll`, `RollingBloom.RollingFilter.Contains` |
| message streams | Wire | `Wire.ReceiveAll`, `Wire.SendAll`, `Wire.PartReceived` |
| Golomb-coded sets (section "Golomb-Coded Sets" of BIP 158) | BitStream, CompactSize, Gcs | `Gcs.BuildAndQuery`, `Gcs.Filter.MatchInternal`, `Gcs.MapIntoRange` |
| Base58 | Radix, Base58 | `Base58.DecodeEncoded`, `Base58.EncodeDecoded`, `Base58.CheckRoundTrip` |
| Bech32 (section "Bech32" of BIP 173) | Bech32Code, Bech32 | `Bech32.VerifiesIff`, `Bech32.OneErrorDetected`, `Bech32.DecodeEncoded` |

Common holds what several components share.

## Properties that hold only under a condition

Each of these is a property one would expect of the code and that fails for some input. The model keeps the code as it
is and proves exactly when the property holds.

- A manager read from an accepted file is consistent if and only if neither stored count is negative and no entry that
  found a place shares its address with another entry (`AddrManImage.LoadedConsistent`; the second condition is on the
  state before entries without a place are pruned). Distinct stored addresses are enough
  (`AddrManImage.DistinctIsConsistent`); two records of one address are a counterexample
  (`AddrManImage.TwiceIsInconsistent`).
- `Add` reports a new address even when that address is dropped again at once (`AddrMan.AddForgets`). It is remembered if
  and only if its slot was free or its occupant was terrible or had another reference (`AddrManModel.AddRemembers`).
- A flush into the database shows what the cache showed if and only if the cache had not popped the empty tree
  (`CoinsFlush.FlushIntoDatabaseShows`, `CoinsSpec.PopEmptyTree`): the database reports the empty tree without looking.
- A flush into another cache carries the best block and anchor over if and only if the child names them itself or the
  parent shows what lies below it (`CoinsFlush.FlushTips`, `CoinsSpec.LoseTip`): a null hash of the child erases the
  parent's.
- `SpendCoin` succeeds if and only if a coin is visible or the cache has any entry for it, a spent one included
  (`Coins.Stack.SpendCoin`, `CoinsSpec.SpendTwice`); what it hands out is then a spent coin.
- An accepted list of block-transaction indexes is strictly increasing if and only if the distances reach index 65535 at
  most with the last one (`BlockRequest.ReadIncreasing`, `BlockRequest.WrappedIndexes`): the 16-bit offset wraps.
- An honest partial Merkle tree is rejected if and only if two sibling nodes on the way have equal hashes
  (`MerkleModel.RoundTrip`, `MerkleModel.TwinsAreRejected`), which never happens for distinct ids under an injective hash
  (`BlockMerkle.DistinctHasNoTwins`).
- A query of a Golomb-coded set is answered with yes if and only if it equals a stored value that no earlier one exceeds
  (`Gcs.Filter.MatchInternal`). The values of a set built from elements ascend, so each of them is found; those of a
  loaded one may wrap around, and then some are not (`Gcs.FalseNegative`).
- A set of elements can be built up to 2^32 - 1 of them, but queried and loaded if and only if there are at most
  0x02000000 (`Gcs.BuildAndQuery`): that is as far as sizes are read back (`CompactSize.DecodeEncoded`).
- Up to 65536 transactions, a block is rebuilt by every receiver without false matches (`CompactBlocks.Relay`,
  `CompactBlocks.NoneLateBelow`); positions are kept in 16 bits, and of any larger block a receiver that has only the
  transaction at position 65536 puts that one first (`CompactBlocks.RelayLate`). A larger one is still rebuilt by
  receivers that have none of the transactions from that position on.
- For a message that passes the checks before it, the search for the slots of the short ids ends if and only if there
  are at most 65535 prefilled transactions or no short ids (`CompactBlocks.PartialBlock.MapShortIds`, `CompactBlocks.NeverFound`).
- The fees of a package in the miner's side table are those of what is missing of it if and only if the priorities of
  all but one of the ancestors taken off cancel out (`MinerModel.FeesExactIff`, `Miner.PriorityStays`): the first one is
  taken off with its priority and the others without. Sizes and signature costs are exact for every candidate that has
  not failed (`MinerModel.UpdatedExact`).
- The collection flags of a cuckoo cache are enough if and only if its 32-bit size is at most 2^32 - 8
  (`Cuckoo.Cache.constructor`): the number of bytes is rounded up in 32 bits.
- A compact target comes back from reading and writing if and only if it is canonical (`Work.CompactRoundTrip`).

## Where code and comments disagree

The model follows the code.

- `src/cuckoocache.h:416-429` says that the first displacement uses the first location; the code at line 430 uses the
  second one, because a search for an absent location ends at the end of the list.
- `src/merkleblock.h:47` bounds the flag bits by twice the number of stored hashes less one. That holds if and only if no
  matched node has a single child (`MerkleModel.BitsCount`, `MerkleModel.MoreBits`).
- `src/merkleblock.cpp:132-163` clears the matched ids but not the list of positions; a caller who passes a non-empty
  list gets the new positions appended, and the model does the same.
- `src/addrman.cpp:231-234` handles a case that cannot occur (`AddrManModel.InSomeBucket`), and so does
  `src/addrman.cpp:575-577` in a manager that was not cleared or loaded while collisions were noted
  (`AddrMan.Manager.ResolveCollision`).
- `src/chain.cpp:77-79` reports the number of steps of a walk from simulations; `SkipList.StepsBound` is a bound for all
  heights, quadratic in their bit length.

## Model

| member | source | states |
|---|---|---|
| AddrMan.AddForgets | src/addrman.cpp:254-325 | two addresses that want the same slot of a new manager: the second is reported as added and is unknown afterwards |
| AddrMan.Perform | src/addrman.cpp:397-471 | each call takes the indexes, the noted collisions and the time of the last good connection to specified new ones |
| AddrMan.Run | src/addrman.cpp:397-471 | from a fresh manager, every sequence of Add, Good, Attempt, Connected, SetServices, GetAddr, ResolveCollisions and SelectTriedCollision calls, for every outcome of the random numbers and the clock, goes from state to state as each call specifies and ends with all indexes consistent: reference counts equal occupied slots and lie in 1..8 outside tried, every id sits at its hashed slot, counters are exact, random order and positions are inverse, the address map is a bijection, and every noted live collision has its tried slot taken; with positive times the time stamps are sound too |
| AddrMan.Manager.constructor | src/addrman.h:472-494 | a new manager is empty and consistent, time stamps included |
| AddrMan.Manager.Find | src/addrman.cpp:68-79 | answers exactly whether the address is known, and then with the one live entry that bears it |
| AddrMan.Manager.Create | src/addrman.cpp:81-91 | the new id was unused; exactly one entry, one address and the last place of the random order are added |
| AddrMan.Manager.SwapRandom | src/addrman.cpp:93-111 | the two entries exchange places in the order and their stored positions follow; nothing else moves |
| AddrMan.Manager.Delete | src/addrman.cpp:113-125 | exactly the unreferenced entry, its address and its place in the order disappear, and the entry that was last takes its place |
| AddrMan.Manager.ClearNew | src/addrman.cpp:127-140 | the slot is empty afterwards; its occupant has one reference less and is deleted just when that was its last one; nobody else is touched |
| AddrMan.Manager.LeaveNew | src/addrman.cpp:144-154 | one walk over the buckets removes every reference of the entry and no other one |
| AddrMan.Manager.LeaveTried | src/addrman.cpp:162-170 | the evicted id is the live tried occupant of the slot, has no reference, and leaves only the tried table |
| AddrMan.Manager.Fill | src/addrman.cpp:316-317 | one more reference and one slot filled |
| AddrMan.Manager.Take | src/addrman.cpp:172-181 | the slot goes to the entry; only an entry whose last reference was that slot is lost |
| AddrMan.Manager.Evict | src/addrman.cpp:160-182 | the occupant of the tried slot moves to the new-table slot of its own source; at most the entry with its last reference there is lost, statistics stay |
| AddrMan.Manager.EnterTried | src/addrman.cpp:183-187 | the entry takes the free tried slot and all counts are exact again |
| AddrMan.Manager.MakeTried | src/addrman.cpp:142-188 | the complete effect of the move on both tables and on the set of known entries, with consistency restored |
| AddrMan.Manager.FindNewBucket | src/addrman.cpp:219-229 | the scan from a random bucket always ends at a bucket that holds the entry |
| AddrMan.Manager.Promote | src/addrman.cpp:236-251 | under test-before-evict a taken slot only notes the collision, up to the limit; otherwise the entry moves to tried; consistent either way |
| AddrMan.Manager.Good | src/addrman.cpp:190-252 | complete effect of marking an address good: unknown or changed addresses are ignored, known ones are stamped, then promoted or noted as a collision; consistency and sound times are kept |
| AddrMan.Manager.Place | src/addrman.cpp:303-323 | a filed entry takes its slot if that is free or its occupant is terrible or has other references while it has none; otherwise it is deleted when it has no reference |
| AddrMan.Manager.Introduce | src/addrman.cpp:296-301 | an unknown address gets a fresh entry whose time is reduced by the penalty, not below zero |
| AddrMan.Manager.Hardness | src/addrman.cpp:290-293 | the odds against refiling an entry double with each reference it already has |
| AddrMan.Manager.Refresh | src/addrman.cpp:268-295 | only the announced time and services of a known entry change, and refiling is granted only below eight references and under the stated conditions |
| AddrMan.Manager.Add | src/addrman.cpp:254-325 | complete effect of an announcement, for both readings of the clock: unroutable addresses change nothing, known ones are refreshed and possibly refiled, unknown ones are introduced and filed; true is returned just for the last kind |
| AddrMan.Manager.Attempt | src/addrman.cpp:327-347 | only the matching entry changes, and its failure count grows only for the first counted attempt since the last success |
| AddrMan.Manager.Draw | src/addrman.cpp:485-487 | each draw moves a yet undrawn entry to the front of the order without changing any entry |
| AddrMan.Manager.Sample | src/addrman.cpp:480-492 | the sample consists exactly of the entries that were not terrible when they were drawn, in order, and every entry is drawn unless the limit is reached |
| AddrMan.Manager.GetAddr | src/addrman.cpp:474-493 | at most 2500 and at most 23 percent of the known addresses, all of them known, no address twice; every entry that was drawn is in it exactly when it was not terrible at that moment, and all are drawn unless the limit is reached; entries change at most their place in the random order |
| AddrMan.Manager.Connected | src/addrman.cpp:495-513 | only the matching entry changes, and only when its time is more than twenty minutes old |
| AddrMan.Manager.SetServices | src/addrman.cpp:515-531 | only the services of the matching entry change |
| AddrMan.Manager.GoodKeepsCollisions | src/addrman.cpp:567-577 | settling a collision by Good without the test notes no further collision |
| AddrMan.Manager.ResolveCollision | src/addrman.cpp:539-580 | the four outcomes of one visit, as a function of what each clock reading showed; the contested slot is taken whenever the newcomer is live, so the branch for a vanished collision is never entered |
| AddrMan.Manager.VisitCollision | src/addrman.cpp:543-586 | one visit erases exactly a settled collision, and changes nothing otherwise |
| AddrMan.Manager.ResolveCollisions | src/addrman.cpp:537-587 | visits every noted collision exactly once; each visit settles it or not, and changes the indexes, as specified of one visit; exactly the settled ones are erased; adds no entries |
| AddrMan.Manager.SelectTriedCollision | src/addrman.cpp:589-614 | a reported address is a live tried entry that holds the slot some noted newcomer wants; otherwise there was no collision, or a stale one has been dropped |
| AddrManModel.CreateChange | src/addrman.cpp:81-91 | adding an entry keeps consistency up to one missing reference and one uncounted entry |
| AddrManModel.SwapChange | src/addrman.cpp:93-111 | exchanging two places of the order keeps consistency and every entry up to its place |
| AddrManModel.ExchangeChange | src/addrman.cpp:93-111 | the same when both places may coincide, with the exact new order |
| AddrManModel.RemoveChange | src/addrman.cpp:113-125 | removing an unreferenced entry that stands last keeps consistency |
| AddrManModel.DeleteChange | src/addrman.cpp:113-125 | so does deleting any unreferenced entry outside tried; only its address is forgotten |
| AddrManModel.UnrefChange | src/addrman.cpp:127-140 | the occupant of a new slot always has a positive count, and clearing the slot keeps counts exact |
| AddrManModel.RefChange | src/addrman.cpp:314-317 | filling a free slot of an entry with fewer than eight references keeps counts and positions exact |
| AddrManModel.UntryChange | src/addrman.cpp:167-170 | an entry that leaves tried has no reference left and becomes pending |
| AddrManModel.TryChange | src/addrman.cpp:185-187 | an unreferenced entry that enters its free tried slot settles all counts |
| AddrManModel.MarkChange | src/addrman.cpp:208-211 | stamping a success keeps consistency, pending collisions and sound times |
| AddrManModel.CollisionsAfterMove | src/addrman.cpp:142-188 | every noted live collision still finds its tried slot taken after any move to tried |
| AddrManModel.CollisionsAfterPlace | src/addrman.cpp:303-323 | the same after any filing in the new table |
| AddrManModel.TimesAfterMove | src/addrman.cpp:142-188 | sound time stamps survive a move to tried |
| AddrManModel.InSomeBucket | src/addrman.cpp:219-234 | an entry outside tried sits in some new bucket, so the exit for a missing bucket is unreachable |
| AddrManModel.AddRemembers | src/addrman.cpp:254-325 | exactly when a newly accepted address is still known afterwards: its slot was free, or its occupant was terrible or had another reference; and only an occupant with its last reference there is forgotten |
| AddrManModel.FirstAdded | src/addrman.cpp:254-325 | the first address of an empty manager is filed under its slot with one reference |
| AddrManModel.DistinctIps | src/addrman.cpp:474-493 | two places of the random order never bear the same address |
| AddrManModel.SampleFacts | src/addrman.cpp:480-492 | sampled addresses are known and different, and a judged entry is sampled exactly when it was not terrible |
| AddrManModel.ResolvedKeepsEntries | src/addrman.cpp:537-587 | a visit to a collision adds no entry and changes nothing unless it settles the collision |
| AddrManModel.WinnerTakesSlot | src/addrman.cpp:564-573 | a newcomer that replaces its rival holds the contested tried slot afterwards |
| AddrManImage.FlipTwice | src/addrman.h:381-385 | the version marker on the bucket count is undone by applying it again, for negative numbers too |
| AddrManImage.NextBucket | src/addrman.h:437-452 | reading bucket lists from a position of the stream consumes exactly one counted list and continues, or fails exactly when the stream is too short |
| AddrManImage.LoadEntriesOrdered | src/addrman.h:395-434 | whatever is read, the random order stays sound and the new entries have the first ids |
| AddrManImage.LoadEntriesFiled | src/addrman.h:395-434 | however many entries collide, all tables, positions, references and counts are right when no count is negative |
| AddrManImage.LoadBucketsFiled | src/addrman.h:436-452 | arbitrary bucket lists keep all of that and change no address |
| AddrManImage.PrunedFiled | src/addrman.h:454-464 | pruning removes exactly the entries without a place, and takes the address of each away from the map |
| AddrManImage.PrunedAddrs | src/addrman.h:454-464 | afterwards the address map is right if and only if no placed entry shared its address with another entry |
| AddrManImage.LoadedConsistent | src/addrman.h:366-470 | for every accepted image of any version, bucket count and bucket lists: the manager read from it is consistent if and only if neither count is negative and, before pruning, no entry that found a place shares its address with another |
| AddrManImage.DistinctIsConsistent | src/addrman.h:366-470 | in particular whenever the stored addresses are distinct |
| AddrManImage.TwiceIsInconsistent | src/addrman.h:366-470 | and not always: any two records of one address, as the only entries of an image without bucket lists, are accepted and yield an inconsistent manager |
| AddrManRoundTrip.AscendingMember | src/addrman.h:330-340 | the numbering of entries lists ids in ascending order: each one stands at the number of smaller ones |
| AddrManRoundTrip.AscendingAt | src/addrman.h:330-340 | and every entry is listed |
| AddrManRoundTrip.AscendingSize | src/addrman.h:330-340 | exactly once |
| AddrManRoundTrip.RankOf | src/addrman.h:330-349 | new entries get the first numbers and tried entries the following ones |
| AddrManRoundTrip.RankAt | src/addrman.h:330-349 | every entry has exactly one number |
| AddrManRoundTrip.SavedHeaderOk | src/addrman.h:387-393 | the counts of a consistent manager always pass the limits that reading imposes |
| AddrManRoundTrip.SavedDistinct | src/addrman.h:330-349 | no address is written twice |
| AddrManRoundTrip.LoadTriedNumbered | src/addrman.h:415-434 | tried entries whose slots differ are all kept, in order, in their slots |
| AddrManRoundTrip.RoomForReference | src/addrman.h:440-451 | when a reference of the written manager is read back, its slot is free and the entry has room for it |
| AddrManRoundTrip.RefileAll | src/addrman.h:436-452 | reading all written bucket lists refiles exactly the written references |
| AddrManRoundTrip.RestoredIndexes | src/addrman.h:366-470 | consistency and equal entries determine the tried table and the address map |
| AddrManRoundTrip.PrunedNothing | src/addrman.h:454-464 | nothing is pruned from a manager whose entries all have a place |
| AddrManRoundTrip.RoundTrip | src/addrman.h:316-470 | reading what a consistent manager wrote succeeds, restores under new ids all addresses, sources, persistent statistics, new slots, tried slots, reference counts and counters, and is consistent |
| AddrManFile.WriteNew | src/addrman.h:330-340 | exactly the entries outside tried are written, in ascending order, and each is numbered by its rank |
| AddrManFile.NotYetAll | src/addrman.h:336-345 | the number of entries written before any entry is below the counter, so the two assertions hold |
| AddrManFile.WriteTried | src/addrman.h:341-349 | exactly the tried entries are written, in ascending order |
| AddrManFile.BucketSize | src/addrman.h:351-355 | the announced length of a bucket list is the number of its occupied slots |
| AddrManFile.WriteBucket | src/addrman.h:357-362 | the list names the occupants of the bucket in slot order by their numbers |
| AddrManFile.WriteBuckets | src/addrman.h:350-363 | the whole stream of counted bucket lists |
| AddrManFile.Serialize | src/addrman.h:316-364 | writes the image that the round trip is about |
| AddrManFile.Clear | src/addrman.h:472-494 | forgets everything but noted collisions |
| AddrManFile.ClearTable | src/addrman.h:477-486 | empties every slot |
| AddrManFile.ReadNewEntry | src/addrman.h:396-412 | one new entry read as specified, filed at once when the bucket lists are unusable |
| AddrManFile.ReadNew | src/addrman.h:395-412 | fails exactly on a stream that is too short, otherwise all of them read as specified |
| AddrManFile.ReadTriedEntry | src/addrman.h:418-432 | kept exactly when its slot is free |
| AddrManFile.ReadTried | src/addrman.h:415-434 | the number of lost entries is the number of collisions |
| AddrManFile.ReadIndex | src/addrman.h:441-450 | one index filed exactly when it names a new entry with room whose slot is free |
| AddrManFile.ReadBucket | src/addrman.h:438-451 | one counted list of indexes |
| AddrManFile.ReadBuckets | src/addrman.h:436-452 | fails exactly on a stream that is too short |
| AddrManFile.Prune | src/addrman.h:454-464 | deletes exactly the entries without a place, in ascending order |
| AddrManFile.Unserialize | src/addrman.h:366-470 | accepts exactly the images that the specification accepts and rebuilds exactly what it says, into a manager in any state |
| AddrManFile.ReadEntries | src/addrman.h:395-434 | both kinds of entries in turn |
| AddrManFile.Reload | src/addrman.h:316-494 | writing a valid manager and reading it into a fresh one yields a valid manager that restores it |
| Coins.Stack.constructor | src/coins.cpp:51-51 | a stack over a sound database and no cache |
| Coins.Stack.NewCache | src/coins.cpp:51-51 | an empty cache on top keeps the stack coherent |
| Coins.Stack.FetchCoin | src/coins.cpp:57-72 | finds an entry exactly when the cache has one or the level below shows a coin; no view at any level changes |
| Coins.Stack.GetAnchorAt | src/coins.cpp:74-95 | answers with the view of its level; only caches below change, and no view does |
| Coins.Stack.GetNullifier | src/coins.cpp:97-109 | likewise for nullifiers |
| Coins.Stack.PushAnchor | src/coins.cpp:111-136 | the root of the new tree becomes the best anchor and exactly its entry changes; nothing changes when it already is the best one |
| Coins.Stack.PopAnchor | src/coins.cpp:138-161 | exactly the former best anchor disappears from the view and the given root becomes the best one |
| Coins.Stack.SetNullifier | src/coins.cpp:163-167 | exactly one nullifier of the top view changes |
| Coins.Stack.GetCoin | src/coins.cpp:169-176 | answers with the view of its level; no view changes |
| Coins.Stack.AddCoin | src/coins.cpp:178-197 | throws exactly when a visible coin would be replaced without permission; otherwise exactly one coin of the top view changes, or none for an unspendable output; the entry is fresh exactly when it was, or when no overwrite is allowed and there was no dirty entry |
| Coins.Stack.SpendCoin | src/coins.cpp:210-224 | the coin handed out is the visible one; afterwards exactly that coin is gone from the top view; an entry that was not fresh stays cached as spent |
| Coins.Stack.GetBestBlock | src/coins.cpp:247-251 | the best block of its level; reading it changes no view |
| Coins.Stack.GetBestAnchor | src/coins.cpp:253-257 | the best anchor of its level; reading it changes no view |
| Coins.Stack.SetBestBlock | src/coins.cpp:259-261 | only the best block of the top view changes; a null hash shows the one below |
| Coins.Stack.Flush | src/coins.cpp:373-380 | never throws; the parent shows afterwards exactly the coins, anchors and nullifiers the child showed, except that the database cannot forget the empty tree; best hashes survive exactly when, for each, the child has one of its own, or the parent has none or only the one it shows anyway |
| Coins.Stack.Uncache | src/coins.cpp:382-389 | exactly an entry without flags is dropped and no view changes |
| Coins.Stack.SpendVisible | src/coins.cpp:210-224 | the exact visible coin before the spend, whatever the return value says |
| Coins.Stack.ReadTips | src/coins.cpp:247-257 | after both best hashes are read, the cache holds them itself |
| Coins.Stack.NoneSpent | src/coins.cpp:413-420 | true exactly when no listed nullifier is spent in the top view |
| Coins.Stack.HaveJoinSplitRequirements | src/coins.cpp:407-439 | true if and only if no nullifier is spent in the view and every join split is anchored at a tree of the view or at the root of an earlier join split of the transaction, from which its own root follows by its commitments |
| Coins.NoTreeNext | src/coins.cpp:422-428 | with no tree of that root in the view or among the earlier ones, the join splits are not chained in any way |
| Coins.BatchWriteCoins | src/coins.cpp:269-321 | the loop over the child entries throws exactly on a misapplied fresh entry and otherwise computes the entrywise merge |
| Coins.BatchWriteAnchors | src/coins.cpp:323-346 | the entrywise merge of anchors |
| Coins.BatchWriteNullifiers | src/coins.cpp:348-366 | the entrywise merge of nullifiers |
| CoinsModel.HiddenEdit | src/coins.cpp:57-109 | a change of one cache that shows through as before is noticed at no level of the stack |
| CoinsModel.TopEdit | src/coins.cpp:163-197 | a change of the top cache changes no lower view |
| CoinsModel.VisibleCoinsAreUnspent | src/coins.cpp:169-176 | no level ever shows a spent coin |
| CoinsModel.VisibleTreesHaveTheirRoot | src/coins.cpp:74-95 | every visible anchor is a tree with exactly that root |
| CoinsFlush.MergeCoinOk | src/coins.cpp:269-321 | for entries that fit their views, the throw is unreachable and the merged entry shows what the child showed and fits the view below |
| CoinsFlush.CoinsFlushed | src/coins.cpp:269-321 | the same for whole coin maps |
| CoinsFlush.AnchorsFlushed | src/coins.cpp:323-346 | the same for anchors, with injective tree roots |
| CoinsFlush.NullifiersFlushed | src/coins.cpp:348-366 | the same for nullifiers |
| CoinsFlush.FlushIntoCache | src/coins.cpp:373-380 | flushing any inner cache shows its view one level down, leaves every other level alone and never misapplies a fresh entry |
| CoinsFlush.FlushIntoDatabase | src/coins.cpp:373-380 | flushing the lowest cache keeps the stack coherent |
| CoinsFlush.FlushIntoDatabaseShows | src/txdb.cpp:62-72 | the database shows what the cache showed if and only if the cache did not pop the empty tree, which the database always reports |
| CoinsFlush.FlushTips | src/coins.cpp:368-369 | best block and anchor reach the parent if and only if each is non-null in the child, or the parent shows what lies below it |
| CoinsFlush.FlushTipsIntoDatabase | src/txdb.cpp:112-140 | the database takes a best block that is set, and every level still shows the same |
| CoinsSpec.Perform | src/coins.cpp:57-439 | one operation on a stack that refines a list of flat maps leaves it refining the updated list, and gives the answer of the flat maps |
| CoinsSpec.Run | src/coins.cpp:57-439 | every allowed sequence of reads, writes, flushes, pushes and discards of caches on any database gives exactly the answers of the flat reference |
| CoinsSpec.PopEmptyTree | src/coins.cpp:138-161 | a cache from which the empty tree is popped does not show it, and the database shows it after the flush |
| CoinsSpec.LoseTip | src/coins.cpp:368-369 | a child that never read the best block erases its parent's: 5 is shown before the flush and 7, of the database, after it |
| CoinsSpec.SpendTwice | src/coins.cpp:210-224 | two spends of one coin of the database in a row both succeed, and the second hands out a spent coin |
| MinerModel.FullTotalsCover | src/miner.cpp:366-368 | cached ancestor totals bound what is still missing of a package, and are exact as long as none of it is in the block |
| MinerModel.ReducedMore | src/miner.h:106-119 | taking off one more included ancestor, once the fee with its priority and else the plain fee |
| MinerModel.UpdateStep | src/miner.cpp:253-264 | one descendant of an added transaction: a new or an old entry loses exactly that ancestor |
| MinerModel.ReducedCovers | src/miner.cpp:243-268 | an entry that loses what was added still bounds what is missing |
| MinerModel.ReducedExact | src/miner.cpp:243-268 | and stays exact if it was |
| MinerModel.UpdatedExact | src/miner.cpp:243-268 | after an update, the transactions that are partly in the block are exactly those of the side table, with exact totals, up to those that have failed |
| MinerModel.FeesExactIff | src/miner.cpp:257-262 | the fees of an entry are those of what is missing if and only if priorities cancel out over all but one of the ancestors taken off |
| MinerModel.PackageFits | src/miner.cpp:199-207 | totals that bound a package bound its weight, at four weight units per byte, and its signature cost |
| MinerModel.AncestorIsBefore | src/miner.h:81-88 | an ancestor has strictly fewer ancestors, so the order by count puts it first |
| MinerModel.SortedPackageOrder | src/miner.cpp:285-294 | in that order, each transaction finds all its ancestors in the block or before it |
| MinerModel.ProgressNext | src/miner.cpp:327-433 | one more trial: it paid, its totals were exact if it was the first of its package, and it was added exactly when it fits and all that is missing of it may be in a block |
| MinerModel.WalkedNext | src/miner.cpp:327-364 | every transaction passed in the mempool is in the block, waits in the side table or was rejected |
| MinerModel.PassingIsComplete | src/miner.cpp:306-434 | a mempool whose packages all pay, fit and may be in a block is in the block entirely |
| Miner.UpdateDescendants | src/miner.cpp:249-264 | the entries of exactly the descendants that are not added themselves lose the transaction, and their number |
| Miner.UpdatePackagesForAdded | src/miner.cpp:243-268 | exactly the old entries and the descendants of what was added are in the side table, each less exactly its ancestors among what was added; the number of changes |
| Miner.PriorityStays | src/miner.cpp:257-262 | two prioritised ancestors taken off: for the second only the plain fee is, so that the third transaction is taken to bring more than it does |
| Miner.SortForBlock | src/miner.cpp:285-294 | a permutation of the package without inversions |
| Miner.BlockAssembler.constructor | src/miner.cpp:60-65 | the weight limit ends up between 4000 and the block limit less 4000, and is kept when it was there |
| Miner.BlockAssembler.ResetBlock | src/miner.cpp:85-97 | an empty block within the limits, counting the reserved coinbase |
| Miner.BlockAssembler.AddToBlock | src/miner.cpp:224-241 | weight, signature cost and fees stay the sums over the block; the block stays ordered and duplicate-free |
| Miner.BlockAssembler.AddPackage | src/miner.cpp:416-432 | exactly the package is added, by ancestor count and hash, within the limits, and the side table is updated for it |
| Miner.BlockAssembler.Consider | src/miner.cpp:380-432 | too big exactly when the totals do not fit, not final exactly when a missing transaction may not be in a block, added otherwise; a rejected candidate changes nothing, an added one brings exactly its package |
| Miner.BlockAssembler.TryPackage | src/miner.cpp:380-414 | a candidate of the side table that is not added leaves the table and is marked as failed; nothing else changes |
| Miner.BlockAssembler.Choose | src/miner.cpp:336-364 | the candidate is never already in the block, so the assertion holds; its totals bound its package, and are exact unless it has failed |
| Miner.BlockAssembler.RunTrial | src/miner.cpp:380-433 | a package that paid is tried by the rules; the selection gives up exactly when the block is almost full and more than 1000 packages in a row were too big |
| Miner.BlockAssembler.Turn | src/miner.cpp:330-433 | one turn of the loop: it ends at a package below the minimum fee or when the selection gives up |
| Miner.BlockAssembler.AddPackageTxs | src/miner.cpp:306-434 | terminates with the block ordered and within the limits; every package considered paid the minimum fee and was added exactly when it fits and may be in a block; the loop stops only when no candidate is left, at one below the minimum fee, or when it gives up; packages and updates are counted |
| Miner.BlockAssembler.Assemble | src/miner.cpp:99-128 | over every mempool graph, besides the course of the selection: a duplicate-free block with every in-mempool ancestor before its descendants, weight at most the limit, signature cost below the limit, and exact totals of weight, cost and fees; everything if all packages pass |
| CheckQueue.BatchFits | src/checkqueue.h:102-107 | the batch size never divides by zero and takes at least one and at most all queued checks |
| CheckQueue.AddKeeps | src/checkqueue.h:146-158 | adding checks and waking one or all workers keeps the invariant |
| CheckQueue.LockedFinish | src/checkqueue.h:75-82 | handing in a finished batch keeps the counts and wakes the master exactly at the last one |
| CheckQueue.TakeKeeps | src/checkqueue.h:102-117 | taking a batch keeps every unevaluated failing check accounted for |
| CheckQueue.SleepKeeps | src/checkqueue.h:88-101 | going to sleep keeps the invariant: the master only sleeps while work is left |
| CheckQueue.ReturnKeeps | src/checkqueue.h:89-97 | when the master returns, the flag says whether all checks added since the last time passed |
| CheckQueue.EvaluateKeeps | src/checkqueue.h:118-122 | evaluating one check outside the lock keeps the invariant |
| CheckQueue.SpawnKeeps | src/checkqueue.h:133-137 | a worker may start at any time |
| CheckQueue.CallWaitKeeps | src/checkqueue.h:139-143 | the master may call at any time |
| CheckQueue.StepKeeps | src/checkqueue.h:66-158 | every enabled step of every thread keeps the invariant |
| CheckQueue.RunKeeps | src/checkqueue.h:66-158 | so does every interleaving |
| CheckQueue.NeverStuck | src/checkqueue.h:66-124 | while the master is inside, some thread can take a step that is not a spurious wake-up |
| CheckQueue.StepDecreases | src/checkqueue.h:66-124 | every step without a spurious wake-up, new thread or new check leaves strictly less to do: queued checks, evaluations and passages through the critical section |
| CheckQueue.WaitReturns | src/checkqueue.h:66-143 | so every such run is at most as long as the work there is, and one that cannot be continued has brought the master out: a wait returns without any fairness |
| CheckQueue.RunAnswers | src/checkqueue.h:139-158 | the returns of Wait answer, in order, for the checks added before the first call, between the first two, and so on, as the actions of the run alone tell |
| CheckQueue.MasterIsFree | src/checkqueue.h:139-158 | between two waits the master can add any checks and wait again |
| CheckQueue.StepAwake | src/checkqueue.h:146-158 | a step leaves some worker awake while checks are queued |
| CheckQueue.EveryRun | src/checkqueue.h:66-158 | over every interleaving of one master and any number of workers, read off the actions alone: the k-th finished wait returned true exactly when every check added between the (k-1)-th and it passed, the open count is queued plus in-flight checks, the master is never asleep unnotified with nothing left, and some worker is awake while checks are queued |
| CheckQueue.WaitIsFinal | src/checkqueue.h:89-97 | at the step where a wait returns, nothing is queued, open or in flight, and the state is reset |
| MerkleModel.Soundness | src/merkleblock.cpp:78-163 | with an injective pair hash, any partial tree that yields the root of an n-element list proves only transactions at their true positions, in increasing order |
| MerkleModel.ExtractSound | src/merkleblock.cpp:78-114 | the same below any node |
| MerkleModel.RoundTrip | src/merkleblock.cpp:116-163 | for a list within the size limit, any marks and any padding of the last byte, extraction returns the root, the marked ids and positions, and rejects if and only if two sibling nodes it visits have equal hashes |
| MerkleModel.TwinsAreRejected | src/merkleblock.cpp:101-107 | the honest tree of a block of two equal transactions that marks the first is rejected |
| MerkleModel.ExtractBuilt | src/merkleblock.cpp:60-114 | extraction consumes exactly what building produced below any node |
| MerkleModel.HashesBound | src/merkleblock.h:31-42 | the number of stored hashes is at least one, at most the number of transactions, and at most one plus matches times height |
| MerkleModel.BitsCount | src/merkleblock.h:42-48 | the exact number of flag bits: twice the stored hashes less one, plus one for every matched node with a single child |
| MerkleModel.MoreBits | src/merkleblock.h:42-48 | so the documented bound on the flag bits fails, for three transactions of which the last is matched |
| MerkleModel.DistinctNodes | src/merkleblock.cpp:40-58 | distinct ids give distinct node hashes on every level |
| MerkleModel.DistinctMeansNoTwins | src/merkleblock.cpp:101-107 | so the duplicate test never rejects an honest tree |
| BlockMerkle.NextLevelAt | src/consensus/merkle.cpp:51-61 | node k of the next level is the hash of nodes 2k and 2k+1, in this order, the last one standing in for a missing right one |
| BlockMerkle.RootIsMerkleRoot | src/consensus/merkle.cpp:46-64 | hashing level by level gives the root of the recursive tree, for any hash function |
| BlockMerkle.HasEqualPair | src/consensus/merkle.cpp:50-54 | whether two neighbours that are hashed together are equal |
| BlockMerkle.Halve | src/consensus/merkle.cpp:55-60 | one level replaced by the next |
| BlockMerkle.ComputeMerkleRoot | src/consensus/merkle.cpp:46-64 | the root, zero for no transaction, and mutated exactly when some level has two equal neighbours |
| BlockMerkle.NoneOnTheWay | src/merkleblock.cpp:101-107 | without such a level no honest partial tree meets equal siblings |
| BlockMerkle.DistinctHasNoTwins | src/consensus/merkle.cpp:50-54 | distinct ids and an injective pair hash give no equal neighbours at any level |
| Merkle.Pack | src/merkleblock.h:100-103 | bits fill bytes from the lowest bit up and the padding is zero |
| Merkle.Unpack | src/merkleblock.h:93-97 | every bit of every byte is read, lowest first |
| Merkle.Relay | src/merkleblock.cpp:13-38 | building, sending, receiving and extracting returns the level-by-level root of the block and exactly the marked ids with their positions, or rejects; it does not reject unless two equal neighbours occur at some level |
| Merkle.PartialMerkleTree.ParentOfMatch | src/merkleblock.cpp:61-66 | whether a node has a marked leaf below it |
| Merkle.PartialMerkleTree.TraverseAndBuild | src/merkleblock.cpp:60-76 | appends exactly the specified bits and hashes of the subtree |
| Merkle.PartialMerkleTree.TreeHeight | src/merkleblock.cpp:121-124 | the smallest height at which one node is left |
| Merkle.PartialMerkleTree.Build | src/merkleblock.cpp:116-128 | the tree over all transactions |
| Merkle.PartialMerkleTree.Receive | src/merkleblock.h:87-98 | the tree a message describes |
| Merkle.PartialMerkleTree.Send | src/merkleblock.h:99-104 | the message that describes the tree |
| Merkle.PartialMerkleTree.TraverseAndExtract | src/merkleblock.cpp:78-114 | the recursive walk with its cursors equals its specification, for arbitrary input |
| Merkle.PartialMerkleTree.ExtractMatches | src/merkleblock.cpp:132-163 | the answer, including every reason to reject, equals its specification |
| Cuckoo.PutFree | src/cuckoocache.h:408-415 | filling a collectible slot adds one element and forgets none |
| Cuckoo.PutSwap | src/cuckoocache.h:430-435 | filling a live slot exchanges one element |
| Cuckoo.PutSame | src/cuckoocache.h:398-405 | marking the slot that holds the element forgets none |
| Cuckoo.PutLocated | src/cuckoocache.h:406-439 | every live element stays at one of its eight locations |
| Cuckoo.Erase | src/cuckoocache.h:467-477 | erasing one slot forgets its element and only that |
| Cuckoo.LiveIsFound | src/cuckoocache.h:467-477 | a live element is found among its eight locations |
| Cuckoo.AbsentFromSlots | src/cuckoocache.h:398-405 | an element at none of its locations is in no live slot |
| Cuckoo.Loc | src/cuckoocache.h:243-253 | every 32-bit hash leads to a location within the table |
| Cuckoo.AgedFacts | src/cuckoocache.h:289-321 | ageing keeps exactly the elements of the current epoch |
| Cuckoo.PutYoung | src/cuckoocache.h:408-435 | what filling a slot changes about the elements of the current epoch |
| Cuckoo.NotBack | src/cuckoocache.h:416-430 | an element whose eight locations differ is not put back into the slot it was just taken from |
| Cuckoo.CarriedOn | src/cuckoocache.h:430-439 | a displacement loses no live element and no current one but the one in hand |
| Cuckoo.FlagBytes | src/cuckoocache.h:61-65 | the 32-bit number of bytes of the flags is enough if and only if the size leaves room to round up |
| Cuckoo.RipeInsert | src/cuckoocache.h:289-321 | an element of the old epoch has seen, with what is left of the countdown, more insertions than an epoch has |
| Cuckoo.Perform | src/cuckoocache.h:392-477 | one call: what it loses, what it ages out, and that all else inserted and not erased is live |
| Cuckoo.Run | src/cuckoocache.h:340-477 | over every sequence of calls: live elements were inserted, a positive answer is only given for an element inserted before, and the live slots of the current epoch never exceed the epoch size plus a sixteenth of it, at least one; an inserted element that is not erased stays live and is reported, unless it is the at most one element that an insertion loses or it is aged out, which takes more insertions after its own than an epoch has |
| Cuckoo.Cache.constructor | src/cuckoocache.h:340-353 | an empty cache with every slot collectible, for every 32-bit size that leaves room to round up to bytes; for the last seven sizes the flags are too few |
| Cuckoo.Cache.AllowErase | src/cuckoocache.h:266-269 | exactly one collection flag is set |
| Cuckoo.Cache.PleaseKeep | src/cuckoocache.h:275-278 | exactly one collection flag is cleared |
| Cuckoo.Cache.CountCurrent | src/cuckoocache.h:295-300 | the number of live slots of the current epoch |
| Cuckoo.Cache.Age | src/cuckoocache.h:305-310 | exactly the live slots of earlier epochs become collectible |
| Cuckoo.Cache.EpochCheck | src/cuckoocache.h:289-321 | afterwards the live current slots, the coming insertion and the countdown together stay within the bound on the epoch; what is forgotten is exactly what ageing forgets |
| Cuckoo.Cache.FindElement | src/cuckoocache.h:400-405 | the first location that holds the element |
| Cuckoo.Cache.FindFree | src/cuckoocache.h:408-415 | the first collectible location |
| Cuckoo.Cache.Swap | src/cuckoocache.h:430-435 | table and epoch flag exchange one element with the one in hand |
| Cuckoo.Cache.NextOf | src/cuckoocache.h:430-430 | the location after the last one used, or the second one |
| Cuckoo.Cache.Displace | src/cuckoocache.h:406-439 | each displacement meets an element without a free location and moves it on to the next one; after fewer than the limit a free location is found, the first one, or else what is in hand is dropped: the live elements and the new one are kept except for at most one, with their epochs, and all of them when some location is free; what is dropped is nowhere in the table |
| Cuckoo.Cache.Keep | src/cuckoocache.h:400-405 | the element becomes live and current |
| Cuckoo.Cache.Insert | src/cuckoocache.h:392-440 | measured after the epoch check, the live elements and the new one are kept except for at most one; all are kept when a location is free or the element is there already |
| Cuckoo.Cache.Contains | src/cuckoocache.h:467-477 | a live element is always found, only stored elements are, and erasing forgets exactly that element |
| Uint256.Uint.Add | src/arith_uint256.h:133-143 | addition modulo the range, for a number added to itself too |
| Uint256.Uint.MulSmall | src/arith_uint256.cpp:58-67 | multiplication by a word modulo the range |
| Uint256.Uint.Increment | src/arith_uint256.h:171-178 | plus one modulo the range |
| Uint256.Uint.Decrement | src/arith_uint256.h:188-195 | minus one modulo the range |
| Uint256.Uint.Complement | src/arith_uint256.h:67-73 | the largest number minus the value |
| Uint256.Uint.Negate | src/arith_uint256.h:75-82 | the negative modulo the range |
| Uint256.Uint.Subtract | src/arith_uint256.h:145-149 | subtraction modulo the range |
| Uint256.Uint.CompareTo | src/arith_uint256.cpp:112-121 | the sign of the difference of the values |
| Uint256.Uint.AddRow | src/arith_uint256.cpp:73-80 | one row of the product, up to a multiple of the range |
| Uint256.Uint.Multiply | src/arith_uint256.cpp:70-83 | the product modulo the range |
| Uint256.Uint.ShiftLeft | src/arith_uint256.cpp:24-38 | multiplication by the power of two modulo the range, for any shift |
| Uint256.Uint.ShiftRight | src/arith_uint256.cpp:41-55 | the floor of the division by the power of two, for any shift |
| Uint256.Uint.Bits | src/arith_uint256.cpp:174-186 | the position after the highest set bit |
| Uint256.Uint.DivideRound | src/arith_uint256.cpp:99-106 | one round of the long division keeps quotient times divisor plus rest, with the rest below the shifted divisor |
| Uint256.Uint.Divide | src/arith_uint256.cpp:86-109 | the floor quotient for every nonzero divisor; a zero divisor is reported |
| Work.SetCompact | src/arith_uint256.cpp:206-224 | the magnitude modulo 2^256, the sign exactly for a nonzero magnitude with the sign bit, and overflow exactly when the magnitude reaches 2^256 |
| Work.OverflowIff | src/arith_uint256.cpp:219-222 | the three comparisons of the overflow test amount to that |
| Work.GetCompact | src/arith_uint256.cpp:226-247 | the shortest base-256 form whose mantissa leaves the sign bit clear |
| Work.CompactMagnitude | src/arith_uint256.cpp:226-247 | reading it back gives the number exactly up to three bytes, and otherwise the number with everything below the mantissa cut off |
| Work.CompactRoundTrip | src/arith_uint256.cpp:206-247 | reading and writing a compact form gives it back if and only if it is canonical: zero, or in range with a mantissa of at least 0x8000 that the size has room for |
| Work.FormsAreCanonical | src/arith_uint256.cpp:226-247 | every form that is written is canonical |
| Work.CanonicalComesBack | src/arith_uint256.cpp:226-247 | every canonical form is the one written for its magnitude |
| Work.EqualTo | src/arith_uint256.cpp:124-135 | equality of the values |
| Work.GetLow64 | src/arith_uint256.h:243-247 | the value modulo 2^64 |
| Work.NotLargest | src/chain.cpp:121-134 | no target that fits is the largest number, so the divisor is never zero |
| Work.ProofIs | src/chain.cpp:121-134 | the rewritten quotient plus one is the floor of 2^256 over the target plus one, and fits |
| Work.GetBlockProof | src/chain.cpp:121-134 | the floor of 2^256 over the target plus one for every valid target, and zero for every other one |
| Chain.AncestryPrefix | src/chain.cpp:83-108 | the ancestors of an ancestor are a prefix of the ancestors |
| Chain.SharedPrefix | src/chain.cpp:11-21 | a block that is in place in a chain has all its ancestors in place |
| Chain.StoppedInPlace | src/chain.cpp:11-21 | so stopping at the first block in place leaves the whole ancestry of the new tip |
| Chain.LocatorDescends | src/chain.cpp:23-49 | locator heights strictly descend from the start to zero |
| Chain.LocatorReach | src/chain.cpp:23-49 | only the last entry is as far back as genesis |
| Chain.LocatorLength | src/chain.cpp:23-49 | in closed form: entry i lies i blocks back up to 11 and 2^(i-10)+9 blocks back from then on, or at genesis, and the last entry is the first that gets there, so that the number of entries is logarithmic in the height |
| Chain.LastCommonAncestor | src/chain.cpp:155-170 | the highest block both descend from, or null exactly when there is none |
| SkipList.GetSkipHeight | src/chain.cpp:73-81 | always lower than the height it starts from |
| SkipList.OddFollows | src/chain.cpp:94-97 | from an odd height every skip that does not go too far is followed |
| SkipList.BetterBelow | src/chain.cpp:94-97 | where the walk prefers the skip of the block below an even height, that skip removes a one bit too |
| SkipList.DifferingLess | src/chain.cpp:83-108 | where the skip of an even height would go too far, one step back leaves fewer bits to differ in |
| SkipList.StepsBound | src/chain.cpp:83-108 | a walk takes at most n(2n+1)+2n steps for a height of n bits, however far it goes |
| Chain.BlockIndex.GetAncestor | src/chain.cpp:83-108 | equal to walking predecessors for every height; the assertion on the way holds, and when all skip pointers are set the number of steps is within a bound quadratic in the bit length of the height |
| Chain.BlockIndex.BuildSkip | src/chain.cpp:115-119 | the skip pointer leads to the ancestor at the skip height, and is then set for all blocks up to this one if it was for the predecessors |
| Chain.ActiveChain.NextIsChild | src/chain.h:485-495 | a block is contained exactly when the tip descends from it, and the block after it is its child in the chain, missing exactly at the tip and outside |
| Chain.ActiveChain.SetTip | src/chain.cpp:11-21 | the vector is exactly the ancestry of the new tip, by height |
| Chain.ActiveChain.Fill | src/chain.cpp:16-20 | which slots are written before the walk stops |
| Chain.ActiveChain.GoBack | src/chain.cpp:36-43 | the ancestor at the height, whether by index or by skip pointers |
| Chain.ActiveChain.LocatorFrom | src/chain.cpp:23-49 | the hashes of the ancestors at the locator heights, in order |
| Chain.ActiveChain.GetLocator | src/chain.cpp:23-49 | the same for a block, for the tip, or nothing for an empty chain |
| Chain.ActiveChain.FindFork | src/chain.cpp:51-60 | the highest ancestor of the block that is in the chain, or null when there is none |
| CompactBlocks.PositionsIncrease | src/blockencodings.cpp:58-72 | prefilled positions strictly increase |
| CompactBlocks.PlacedFree | src/blockencodings.cpp:58-73 | each accepted prefilled transaction takes exactly one free slot |
| CompactBlocks.NoCollision | src/blockencodings.cpp:80-102 | the map has as many ids as the message exactly when the ids are distinct |
| CompactBlocks.IdAt | src/blockencodings.cpp:80-85 | distinct ids are sent, in order, to the slots they are given |
| CompactBlocks.TakenBelow | src/blockencodings.cpp:81-84 | the distance over taken slots never exceeds their number |
| CompactBlocks.NeverFound | src/blockencodings.cpp:80-85 | a message that passes the checks and has more prefilled transactions than a 16-bit distance can count, with a short id left, has every slot taken that such a distance reaches: for those messages, and by the contract of the search for no others, the search does not end |
| CompactBlocks.SlotNext | src/blockencodings.cpp:107-163 | one more transaction: a slot that it hits is filled, emptied or left as specified |
| CompactBlocks.AllHave | src/blockencodings.cpp:126-131 | when as many slots hold a match as there are ids, every id has been matched |
| CompactBlocks.OfferedHits | src/blockencodings.cpp:126-163 | what is not offered any more hits only slots that were hit before |
| CompactBlocks.MatchedIsKnown | src/blockencodings.cpp:104-163 | a slot that no transaction hits is as the message left it; any other holds one that hits it, or was hit twice and is empty; exactly which, by the transactions offered |
| CompactBlocks.HitOnce | src/blockencodings.cpp:104-163 | a slot that exactly one of the transactions hits holds that one |
| CompactBlocks.CompletedIs | src/blockencodings.cpp:182-197 | filling the gaps in order with the true missing transactions gives the block |
| CompactBlocks.HitSource | src/blockencodings.cpp:80-85 | a transaction hits only slots that are the 16-bit positions of transactions of the block with its short id |
| CompactBlocks.KnownIsRight | src/blockencodings.cpp:48-168 | without false matches and without matches beyond 16 bits every available transaction is the one of the block |
| CompactBlocks.CompactDescribes | src/blockencodings.cpp:18-28 | the message made from a block describes it |
| CompactBlocks.Requested | src/blockencodings.cpp:182-190 | the gaps in order |
| CompactBlocks.Relay | src/blockencodings.cpp:48-218 | for a block of any size: above the limit on transactions the message is invalid; otherwise, without false matches and without matches beyond 16 bits, a described block is rebuilt exactly whenever reading succeeds, and reading succeeds with distinct ids and buckets within the limit |
| CompactBlocks.NoneLateBelow | src/blockencodings.cpp:80-85 | up to 65536 transactions no match is beyond 16 bits |
| CompactBlocks.LateHits | src/blockencodings.cpp:80-85 | the short id of the transaction at position 65536 is given slot 0 |
| CompactBlocks.RelayLate | src/blockencodings.cpp:48-218 | in every larger block that the receiver accepts, a receiver that has only the transaction at position 65536 puts it first |
| CompactBlocks.PartialBlock.Place | src/blockencodings.cpp:58-74 | accepts exactly lists whose positions fit, and puts each transaction at its position |
| CompactBlocks.PartialBlock.MapShortIds | src/blockencodings.cpp:80-102 | succeeds exactly with distinct ids and no crowded bucket, and then maps ids in order onto the free slots, kept in 16 bits |
| CompactBlocks.PartialBlock.SkipTaken | src/blockencodings.cpp:82-84 | stays in bounds and stops at the next free slot, for every distance that 16 bits can count |
| CompactBlocks.PartialBlock.Offer | src/blockencodings.cpp:107-157 | a slot keeps the first transaction that hits it until a later one of the mempool, or one with another hash, hits it too, and is empty from then on; the counter is the number of slots that hold a match |
| CompactBlocks.PartialBlock.OfferAll | src/blockencodings.cpp:107-163 | so for a list, offered just until as many slots hold a match as there are ids |
| CompactBlocks.PartialBlock.MatchOwn | src/blockencodings.cpp:104-163 | mempool first and then the others: exactly what stands in each slot |
| CompactBlocks.PartialBlock.InitData | src/blockencodings.cpp:48-168 | the status is decided by the message alone: invalid exactly for a malformed one, failed exactly for colliding ids or a crowded bucket; otherwise every slot is known as specified, positions beyond 16 bits included |
| CompactBlocks.PartialBlock.IsTxAvailable | src/blockencodings.cpp:170-174 | true exactly outside the gaps |
| CompactBlocks.PartialBlock.FillBlock | src/blockencodings.cpp:176-218 | with exactly as many transactions as gaps, the completed block and its verdict; any other number is invalid |
| BlockRequest.Write | src/blockencodings.h:63-66 | the distances between consecutive indexes |
| BlockRequest.Read | src/blockencodings.h:41-61 | reads in growing pieces, fails exactly on a short stream, a number above 16 bits or an index above 16 bits |
| BlockRequest.Accumulate | src/blockencodings.h:55-61 | indexes from distances, failing exactly when one leaves 16 bits |
| BlockRequest.RoundTrip | src/blockencodings.h:38-68 | every strictly increasing list of 16-bit indexes survives |
| BlockRequest.ReadIncreasing | src/blockencodings.h:55-61 | an accepted list of distances gives strictly increasing indexes if and only if at no distance but the last the sum of the distances so far and of the indexes before is 65535, where the 16-bit offset wraps |
| BlockRequest.IndexIsTotal | src/blockencodings.h:55-61 | until the offset wraps, an index is the sum of the distances up to it and the number of indexes before it |
| BlockRequest.WrappedIndexes | src/blockencodings.h:55-61 | the distances 65535 and 0 are accepted and give the indexes 65535 and 0 |
| BlockRequest.IndexesFit | src/blockencodings.h:44-53 | a distance above 16 bits is never accepted |
| BlockRequest.IndexesPrefix | src/blockencodings.h:55-61 | a failure is final |
| RollingBloom.MarkedHeld | src/bloom.cpp:265-273 | marking a cell changes that cell only |
| RollingBloom.WipePair | src/bloom.cpp:253-261 | the masked wipe clears exactly the cells of the generation in two words at once |
| RollingBloom.ExactRoll | src/bloom.cpp:247-262 | starting a generation empties exactly the cells that no key of the last two has |
| RollingBloom.LatestIs | src/bloom.cpp:282-294 | a cell has a last key exactly when some key has it |
| RollingBloom.ExactMark | src/bloom.cpp:265-273 | a new key takes over its cells and leaves the others |
| RollingBloom.InsertAll | src/bloom.cpp:205-294 | after any sequence of insertions, each of the last nElements keys is reported, and a key is reported exactly when all its cells are cells of keys of the last three generations |
| RollingBloom.RollingFilter.constructor | src/bloom.cpp:205-230 | an empty filter with half the elements, rounded up, per generation |
| RollingBloom.RollingFilter.Reset | src/bloom.cpp:302-310 | no key and no set cell is left |
| RollingBloom.RollingFilter.Wipe | src/bloom.cpp:253-261 | exactly the cells of the new generation are cleared |
| RollingBloom.RollingFilter.Roll | src/bloom.cpp:247-262 | starting a generation keeps every key that must be remembered |
| RollingBloom.RollingFilter.Mark | src/bloom.cpp:265-273 | exactly the cells of the key hold the current generation now |
| RollingBloom.RollingFilter.Insert | src/bloom.cpp:245-274 | the key is remembered and the counts of the generation advance |
| RollingBloom.RollingFilter.HeldIff | src/bloom.cpp:282-294 | a cell is set exactly when some key of the last three generations has it |
| RollingBloom.RollingFilter.RecentIsHeld | src/bloom.cpp:282-294 | all cells of the last two full generations and the current one are set |
| RollingBloom.RollingFilter.CoversElements | src/bloom.cpp:205-230 | those include the last nElements keys |
| RollingBloom.RollingFilter.Contains | src/bloom.cpp:282-294 | true exactly when every cell of the key is one of some key of the last three generations, and so for every recent key |
| Wire.ReadHeader | src/net.cpp:821-849 | takes just the missing header bytes; fails exactly on an oversized length |
| Wire.ReadData | src/net.cpp:851-867 | takes just the missing payload bytes |
| Wire.CompletePayload | src/net.h:605-610 | a complete message holds exactly its payload |
| Wire.TakeBytesSplit | src/net.cpp:742-792 | reading a stream in two pieces is reading it at once, failures included |
| Wire.HeaderChunk | src/net.cpp:821-849 | a piece of a header as a whole is its bytes one by one |
| Wire.HeaderEnd | src/net.cpp:821-849 | so is its end, with both length limits |
| Wire.DataChunk | src/net.cpp:851-867 | so is a piece of payload |
| Wire.ReceiveAll | src/net.cpp:742-792 | messages and failures depend on the concatenated bytes only, however they were cut |
| Wire.FlowPart | src/net.cpp:886-936 | a partial send keeps accepted plus unsent bytes equal to what was pushed |
| Wire.FlowWhole | src/net.cpp:886-936 | so does a completed buffer, and the size counter follows |
| Wire.FlowMore | src/net.cpp:2833-2868 | so does a pushed buffer |
| Wire.SendAll | src/net.cpp:886-936 | over every run with arbitrary answers of the socket, the accepted bytes are a prefix of the concatenation of all pushed headers and payloads; every call acts on queue, offset and socket as its answers say; a socket that takes whatever it is offered has taken everything |
| Wire.NothingWaits | src/net.cpp:2862-2864 | with such a socket nothing is queued between two calls |
| Wire.Perform | src/net.cpp:886-936 | one call: a message is sent at once exactly when nothing was queued |
| Wire.FramesReceived | src/net.cpp:742-792 | a receiver of the bytes of any frames gets exactly these frames |
| Wire.FinishedStay | src/net.cpp:742-792 | finished messages never change |
| Wire.PartReceived | src/net.cpp:742-792 | any prefix of the bytes yields a prefix of the frames, so what one side pushed the other side gets in order |
| Wire.Receiver.Start | src/net.cpp:751-754 | a new message is begun exactly when the last one is complete |
| Wire.Receiver.Absorb | src/net.cpp:751-788 | one round takes a nonempty piece as the byte-by-byte reading does |
| Wire.Receiver.ReceiveMsgBytes | src/net.cpp:742-792 | fails exactly when the byte-by-byte reading does, and otherwise leaves the same messages and says whether one was finished |
| Wire.Sender.constructor | src/net.cpp:2833-2868 | nothing pushed, nothing accepted, nothing queued |
| Wire.Sender.SendBuffer | src/net.cpp:891-923 | the rest of one buffer is offered; what is taken of it, and an error for good, show in offset, size, pause and socket |
| Wire.Sender.SocketSendData | src/net.cpp:886-936 | for every behaviour of the socket: buffers are offered one by one as long as each is taken whole, exactly these leave the queue, only an error for good closes the socket, the result counts the accepted bytes, and the three assertions hold |
| Wire.Sender.PushMessage | src/net.cpp:2833-2868 | header and payload are appended in order and sent at once exactly when the queue was empty; exactly a queue above the limit pauses |
| BitStream.WrittenPiece | src/streams.h:587-590 | the two shifts of the writer bring exactly the next bits of the word to their place in the byte |
| BitStream.WriteRound | src/streams.h:587-591 | one round moves bits from the word to the byte and loses none |
| BitStream.FlushedByte | src/streams.h:602-610 | a byte that is written early ends in zeros |
| BitStream.ReadPiece | src/streams.h:546-548 | the two shifts of the reader take exactly the next bits of the byte |
| BitStream.ReadRound | src/streams.h:546-550 | one round appends them to the word, without overflow up to 64 bits |
| BitStream.BitWriter.constructor | src/streams.h:556-572 | nothing written, nothing pending |
| BitStream.BitWriter.Put | src/streams.h:587-591 | bits written before and bits still in the word stay the same sequence |
| BitStream.BitWriter.Write | src/streams.h:582-597 | the bits of the bytes written and the pending ones grow by exactly the low bits of the word, highest first |
| BitStream.BitWriter.Flush | src/streams.h:602-610 | a pending byte is written out filled up with zeros; without pending bits nothing happens |
| BitStream.BitReader.constructor | src/streams.h:513-529 | all bits of the bytes are to be read |
| BitStream.BitReader.Refill | src/streams.h:541-544 | takes the next byte without losing a bit; fails exactly at the end |
| BitStream.BitReader.Take | src/streams.h:546-550 | bits read before and bits still to be read stay the same sequence |
| BitStream.BitReader.Read | src/streams.h:534-553 | the value of the next bits, which are then gone; fails exactly when there are not so many |
| CompactSize.DecodeEncoded | src/serialize.h:255-310 | a written size is read back, with the rest of the stream, if and only if it is at most 0x02000000 |
| CompactSize.EncodeDecoded | src/serialize.h:280-310 | only the shortest form of a size within the limit is accepted |
| Gcs.MapIntoRange | src/blockfilter.cpp:53-77 | the 32-bit pieces give the upper half of the 128-bit product, without intermediate overflow, and land in the range |
| Gcs.GolombRiceEncode | src/blockfilter.cpp:18-32 | the bits written grow by the unary quotient, written in pieces of at most 64 bits, a zero and the remainder |
| Gcs.GolombRiceDecode | src/blockfilter.cpp:35-46 | the specified decoding of the bits to be read, with 64-bit wrap-around; fails exactly when they run out |
| Gcs.DecodeCode | src/blockfilter.cpp:18-46 | decoding inverts encoding for every 64-bit number, with the rest of the stream untouched |
| Gcs.SumsOfCodes | src/blockfilter.cpp:128-189 | decoding a coded ascending list gives the list |
| Gcs.Place | src/blockfilter.cpp:87-96 | sorted insertion |
| Gcs.SkipBelow | src/blockfilter.cpp:175-185 | the first query not below the value, and whether it is equal |
| Gcs.PassedMore | src/blockfilter.cpp:169-186 | what is known after each value: skipped queries lie below an earlier value, and no earlier value was an answer |
| Gcs.SortedFound | src/blockfilter.cpp:159-189 | for ascending values the answer of the walk is whether the two lists have a number in common |
| Gcs.FalseNegative | src/blockfilter.cpp:102-195 | not for others: an encoding of 2^63+5 and 5 is accepted, and an element whose hash scales to 5 is not matched |
| Gcs.WriteOnes | src/blockfilter.cpp:21-26 | the ones of a quotient of any size, at most 64 at a time |
| Gcs.Reload | src/blockfilter.cpp:102-126 | the bytes of a filter are accepted if and only if its number of elements is within the limit on sizes, and give the same values |
| Gcs.BuildAndQuery | src/blockfilter.cpp:98-201 | over bytes: a filter is built for fewer than 2^32 elements; above 0x02000000 of them it can be neither queried nor loaded; otherwise it can be loaded, answers like the original, and answers true whenever a queried element is one of them |
| Gcs.Filter.constructor | src/blockfilter.cpp:98-100 | the empty filter, without an encoding |
| Gcs.Filter.HashToRange | src/blockfilter.cpp:79-85 | the hash scaled into the range |
| Gcs.Filter.BuildHashedSet | src/blockfilter.cpp:87-96 | sorted, with exactly the hashes of the elements |
| Gcs.Filter.Encode | src/blockfilter.cpp:147-157 | bytes that hold the codes of the differences and fewer than eight zeros |
| Gcs.Filter.Build | src/blockfilter.cpp:128-157 | fails exactly from 2^32 elements on; otherwise the encoding is the number of elements and bytes whose values are the hashes of the elements, sorted |
| Gcs.Filter.Load | src/blockfilter.cpp:102-126 | accepts exactly byte strings that are a size within the limit followed by exactly as many codes, up to the last byte |
| Gcs.Filter.Walk | src/blockfilter.cpp:167-188 | true exactly when some value that no earlier one exceeds is among the sorted queries, for every encoding |
| Gcs.Filter.MatchInternal | src/blockfilter.cpp:159-189 | throws exactly for a filter without an encoding or above the limit on sizes; otherwise the exact answer, wrapped sums included |
| Gcs.Filter.Match | src/blockfilter.cpp:191-195 | the same for one element |
| Gcs.Filter.MatchAny | src/blockfilter.cpp:197-201 | the same for several |
| Base58.EncodeBuffer | src/base58.cpp:92-106 | 138 percent of the bytes plus one characters always suffice, so the carry assertion holds |
| Base58.DecodeBuffer | src/base58.cpp:46-62 | 733 per mille of the characters plus one bytes always suffice, so the carry assertion holds |
| Base58.Convert | src/base58.cpp:46-113 | the buffer loops compute the digits of the value in the other base |
| Base58.EncodeBase58 | src/base58.cpp:83-121 | leading zeros become ones and the rest is the base-58 form |
| Base58.ReadDigits | src/base58.cpp:51-55 | succeeds exactly when all characters are in the alphabet |
| Base58.DecodeBase58 | src/base58.cpp:34-81 | decodes up to the first null, with white space around one word allowed, and fails exactly otherwise |
| Base58.DecodeEncoded | src/base58.cpp:34-121 | decoding inverts encoding on every byte string |
| Base58.EncodeDecoded | src/base58.cpp:34-121 | encoding inverts decoding on every decodable string |
| Base58.SpacesIgnored | src/base58.cpp:36-70 | white space around a word changes nothing |
| Base58.TextOfEncoded | src/base58.cpp:34-131 | the same round trip through strings |
| Base58.EncodeBase58Check | src/base58.cpp:133-140 | the encoding of the bytes and their checksum |
| Base58.DecodeBase58Check | src/base58.cpp:142-157 | succeeds exactly when the text decodes to some bytes followed by their checksum, and returns these |
| Base58.CheckRoundTrip | src/base58.cpp:133-157 | the round trip with checksum, for any hash of at least four bytes |
| Radix.MulAdd | src/base58.cpp:56-63 | one pass of the carry loop multiplies and adds exactly, provided the result fits |
| Radix.EnoughDigits | src/base58.cpp:46-47 | one comparison of powers fixes the number of digits for all lengths |
| Bech32Code.StepLinear | src/bech32.cpp:80-91 | one step is linear over exclusive or |
| Bech32Code.PolyLinear | src/bech32.cpp:37-94 | so is the whole remainder |
| Bech32Code.Kernel | src/bech32.cpp:80-91 | a step of a nonzero remainder by a zero symbol is never zero |
| Bech32Code.StaysNonZero | src/bech32.cpp:80-91 | however many follow |
| Bech32Code.PackUnpacked | src/bech32.cpp:128-139 | six symbols cover all remainders |
| Bech32Code.UnpackPacked | src/bech32.cpp:128-139 | and no two of them the same |
| Bech32Code.GeneratorMultiples | src/bech32.cpp:86-91 | the five constants are the products of one polynomial by the powers of {2} in GF(32), coefficient by coefficient |
| Bech32Code.StepReduces | src/bech32.cpp:80-91 | so one step multiplies by x, adds the symbol and reduces modulo the generator polynomial over GF(32) |
| Bech32Code.ChecksumUnique | src/bech32.cpp:118-139 | exactly one checksum verifies |
| Bech32Code.OneError | src/bech32.cpp:37-94 | changing one symbol always changes the remainder |
| Bech32.PolyMod | src/bech32.cpp:37-94 | the remainder of the symbols modulo the generator, as the code computes it |
| Bech32.ExpandHrp | src/bech32.cpp:103-115 | high bits, a zero, low bits |
| Bech32.VerifyChecksum | src/bech32.cpp:118-125 | the verdict of the remainder |
| Bech32.CreateChecksum | src/bech32.cpp:128-139 | the one checksum that verifies |
| Bech32.VerifiesIff | src/bech32.cpp:118-139 | six appended values verify if and only if they are that checksum |
| Bech32.OneErrorDetected | src/bech32.cpp:118-125 | two lists of equal length that differ in one place never both verify |
| Bech32.Encode | src/bech32.cpp:147-156 | prefix, separator, and values with checksum in the alphabet |
| Bech32.IsReadable | src/bech32.cpp:160-167 | printable characters, not both cases |
| Bech32.ReadValues | src/bech32.cpp:172-181 | succeeds exactly when all characters are in the alphabet |
| Bech32.Decode | src/bech32.cpp:159-190 | accepts exactly the well-formed strings, for any input |
| Bech32.DecodeEncoded | src/bech32.cpp:147-190 | decoding inverts encoding if and only if the prefix is not empty, printable and without upper case and the text has at most 90 characters; the prefix may contain the separator |
| Bech32.EncodeDecoded | src/bech32.cpp:147-190 | encoding what was decoded gives the string in lower case |
| Bech32.CharFacts | src/bech32.cpp:12-25 | the two tables agree on the alphabet |
| Bech32.RevFacts | src/bech32.cpp:12-25 | and the reverse table ignores case |

## Left out

- CompactBlocks.PartialBlock.InitData: requires that the search for a free slot ends; `CompactBlocks.NeverFound` describes the messages for which it does not.
- CompactBlocks.Relay: exact for receivers without a match beyond 16 bits; with such matches the outcome depends on the order of the receiver's transactions, and `CompactBlocks.RelayLate` shows one that is wrong.
- AddrManFile.Unserialize: entries and bucket lists are separate streams read through cursors, not bytes of one stream; a stream that is too short fails in the same cases.
- AddrManFile.Clear: noted collisions survive, as in the source; runs that clear or load a manager with noted collisions are not part of `AddrMan.Run`.
- AddrMan.Manager.Create: ids are unbounded integers; the overflow of the 32-bit counter is not modelled.
- AddrMan.Manager.Refresh: the coin that decides about refiling is an arbitrary choice; its probability is not modelled.
- Coins.Stack.Flush: the database is one atomic map; batches, head blocks and replay after a crash are not modelled.
- Coins.Stack.AddCoin: an outpoint added without permission to overwrite must be absent below the top cache, as the source demands of its callers.
- Coins.Stack.HaveJoinSplitRequirements: a tree is the list of its commitments with an injective root; the error of a full tree is not modelled.
- CoinsSpec.Run: best block and anchor of a cache are read before it is flushed, and the lowest cache is flushed only with a best block set and the empty tree present; `Coins.Stack.Flush` covers the other cases.
- Miner.BlockAssembler.AddPackageTxs: the order of candidates by fee rate is arbitrary and optimality of fees is not claimed; ancestors, descendants and cached totals of the mempool are given by an exact finite graph.
- Miner.BlockAssembler.Assemble: coinbase, header and validity test of the template are not modelled.
- CheckQueue.WaitReturns: runs without spurious wake-ups and without new worker threads; each of these may add a step.
- Cuckoo.Cache.constructor: the depth limit is a parameter instead of a floating-point logarithm.
- Cuckoo.Run: excludes the last seven 32-bit sizes, for which the source's number of flag bytes wraps around.
- Cuckoo.Cache.Contains: for the default element, which fills untouched slots, only that it is found when live is claimed.
- Cuckoo.Cache.Insert: atomicity of the collection flags between readers is not modelled.
- RollingBloom.RollingFilter.constructor: the number of words and of hash functions are parameters instead of results of floating-point logarithms; false positive rates are not modelled.
- RollingBloom.RollingFilter.Reset: the tweak is a parameter instead of a random number.
- Wire.Sender.SocketSendData: the socket accepts any prefix, fails or refuses at will; locks and optimistic writes of other threads are not modelled.
- Wire.ReadHeader: of the header only the length field is read; a failure to decode the header is not modelled.
- Wire.Receiver.ReceiveMsgBytes: byte counters per command are not modelled.
- Gcs.GolombRiceEncode: requires P of at most 64; above that the source throws in `Write`. For P = 64 the source shifts a 64-bit word by 64, which the language leaves undefined; the model shifts everything out.
- Gcs.Filter.BuildHashedSet: an element set is a list of elements, so repeated elements are allowed.
- Chain.BlockIndex.BuildSkip: the predecessor's skip pointers must have been built, as they are when blocks are added in order.
- Address manager: selection by chance (`Select_`, `GetChance`), the debug check itself and bucket hashing are not modelled; buckets and positions are arbitrary functions into their ranges.
- Coin caches: memory accounting (`cachedCoinsUsage`), cursors and `AccessByTxid`.
- Arithmetic: conversion to and from hexadecimal and floating point.
- Chain: `FindEarliestAtLeast` and `GetBlockProofEquivalentTime`.
- Compact blocks: the short-id hash and the serialization of messages other than the index list.
- Sockets, threads, configuration, remote procedure calls, wallets, keys and scripts.
