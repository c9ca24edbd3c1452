# Prova, modelled and verified

A Dafny model of the hard core of the Prova full node: choosing and reorganizing the best chain, undoing blocks on
the set of unspent outputs and on the admin state, the storage formats, the address manager, the parallel script
validator and the arithmetic kernels. Every loop of these parts is a method proved against a function, and the
functions carry the claims: over every run, every interleaving or every input.

Modules, from the bottom up:

- `Bytes`, `Arithmetic`, `Sorting`: machine words, splicing of buffers, division, sorting.
- `Vlq`, `Amount`, `AmountOverflow`, `Curve`, `Script`, `TxOut`: variable-length numbers, compressed amounts, scripts and
  outputs.
- `SpendJournal`, `UtxoEntry`, `UtxoEntryCode`: the journal of spent outputs and the entries of the utxo set.
- `UtxoView`, `UtxoCoins`, `UtxoJournal`, `UtxoHistory`, `UtxoViewpoint`: connecting and disconnecting blocks on the
  utxo set, what that does to every coin, and doing so through the bytes of the journal.
- `BlockTree`, `Chain`, `OrphanPool`, `OrphanExpiry`, `OrphanDrain`, `Process`: the best-chain state machine, the code
  that refines it, and orphans.
- `KeyView`, `KeyParts`, `KeyHistory`, `KeyReorganize`, `KeyRecorded`, `KeyEffects`, `KeyViewpoint`: the admin state,
  its runs, reorganizations, what transactions do to it, and the code.
- `AddrBook`, `AddrManager`: the invariant of the address manager and its operations.
- `ScriptValidator`: the dispatcher and its workers.
- `Endomorphism`, `Newton`, `MedianTime`, `Difficulty`, `Retarget`, `Merkle`, `Locator`: the kernels.

Where the code and its comments disagree, or a property that looks natural fails, the model follows the code:

- Amounts whose compressed form exceeds 64 bits are not recovered, and there are such amounts.
- `blockchain/chain.go:25-27` calls 1000 the maximum number of orphans; a stale oldest reference lets the pool hold 1001.
- The locator example in `blockchain/blocklocator.go:22-28` shows ten consecutive blocks; the code gives eleven.
- `server.go:688-693` means to answer nothing when the stop hash is unknown and there are no locators, but compares with a different constant than it sets, so it sends the hash back.
- Undoing admin operations forwards is harmless for key sets and the key-ID map but not for the last key ID, although validation accepts several new key IDs in one transaction.
- An announcement of a known address that is older but brings a new service moves its last-seen time back.
- A reorganization counts the issuance of the attached blocks twice in the recorded supply.
- The journal of a block that spends the last output of a transaction of height zero, as the genesis coinbase is, or part of one with version zero, cannot be read back.

Hashes and keys are only compared, so they are numbers; the hash of two Merkle nodes, the elliptic curve, the
clock, random numbers and map iteration order are parameters or arbitrary choices.

## Model

| member | source | states |
|---|---|---|
| `BlockTree.AcceptKeepsMostWork` | blockchain/chain.go:1436-1577 | every accepted block keeps the main chain valid and no valid indexed chain heavier; the tip is given up only for a block on top of it or for strictly more work, so ties keep the incumbent |
| `BlockTree.RunMostWork` | blockchain/chain.go:1436-1577 | in every run without fast-add from the genesis block the main chain is fully checked and no fully checked indexed chain has more work |
| `BlockTree.WorkNeverDecreases` | blockchain/chain.go:1436-1577 | over every such run the work of the tip never decreases |
| `BlockTree.AcceptKeepsStructure` | blockchain/chain.go:1436-1577 | with or without fast-add the tree stays well formed and the tip never has an indexed child |
| `BlockTree.VerdictIsTip` | blockchain/chain.go:1419-1577 | connectBestChain answers that a block is on the main chain exactly when the block is the new tip, and reports an error whenever it drops the block |
| `BlockTree.VerdictIsRight` | blockchain/chain.go:1419-1577 | when connectBestChain reports an error, both ways: on the tip, unless the block passes its check or is fast-added; elsewhere, exactly when it has more work than the tip and one of the blocks to attach fails; on a checked chain, exactly when the path to the block fails a check that matters. The answer says what was indexed and what is the tip |
| `BlockTree.StepIndexes` | blockchain/accept.go:27-89 | a step indexes its block and nothing else, and does so whenever it reports no error |
| `BlockTree.AttachableIsChecked` | blockchain/chain.go:1267-1319 | checking only the blocks that leave a checked main chain is the same as checking the whole new path |
| `Chain.BlockChain.constructor` | blockchain/chainio.go:1273-1376 | a fresh chain is consistent and consists of the genesis block |
| `Chain.BlockChain.ConnectBlock` | blockchain/chain.go:941-1062 | refuses a block that does not extend the tip and otherwise appends it: flag, index, both buckets and transaction count again describe the path to the tip |
| `Chain.BlockChain.DisconnectBlock` | blockchain/chain.go:1068-1191 | refuses any block but the tip and otherwise takes it off: flag, both buckets and transaction count again describe the path to its parent |
| `Chain.AttachFrom` | blockchain/chain.go:889-895 | from the flags alone finds the highest shared ancestor: the paths agree below it, and exactly the blocks above it are to be attached, in order |
| `Chain.DetachTo` | blockchain/chain.go:906-911 | the blocks to detach are those of the main chain above the ancestor, tip first |
| `Chain.BlockChain.GetReorganizeNodes` | blockchain/chain.go:877-914 | the two lists for any indexed node, with the fork they share |
| `Chain.CheckAttached` | blockchain/chain.go:1267-1319 | the check phase changes nothing and passes exactly when every block to attach passes |
| `Chain.BlockChain.DetachAll` | blockchain/chain.go:1337-1362 | disconnecting the detach list leaves the shared part as the main chain, consistently |
| `Chain.BlockChain.AttachAll` | blockchain/chain.go:1364-1393 | connecting the attach list extends the main chain along the new path, consistently |
| `Chain.BlockChain.ReorganizeChain` | blockchain/chain.go:1216-1417 | all or nothing: succeeds exactly when the blocks off the main chain pass their checks; on failure or a dry run nothing at all has changed, otherwise the main chain is the path to the new node |
| `Chain.ForkIsProper` | blockchain/chain.go:1404-1414 | a reorganization always has a block to attach and one to detach, which its log lines rely on |
| `Chain.BlockChain.ConnectSide` | blockchain/chain.go:1504-1577 | indexes a side-chain block, reorganizes when its work sum is larger, answers as the state machine does, and undoes the indexing of a dry run exactly |
| `Chain.BlockChain.ConnectBestChain` | blockchain/chain.go:1436-1577 | makes exactly the step of the block-tree state machine; reports an error exactly when a check that the block needs fails, says main chain exactly when the block is the new tip, and a dry run changes nothing |
| `Chain.BlockChain.MaybeAcceptBlock` | blockchain/accept.go:27-89 | refuses a block that does not fit above its parent, and otherwise refines a step of the state machine with the right answer, keeping every invariant |
| `Chain.WorkSumIsWork` | blockchain/accept.go:63-70 | a node's accumulated work sum is the work of its whole path |
| `Chain.ConsistentState` | blockchain/chain.go:941-1191 | in a consistent state the flagged nodes are exactly the ancestors of the tip, the hash and height buckets are mutually inverse over 0 to the tip's height, and TotalTxns is the sum over the main chain |
| `Chain.BucketsAreInverse` | blockchain/chainio.go:884-950 | over the buckets of a chain the two lookups are mutually inverse and cover exactly its heights |
| `Chain.RemoveBuckets` | blockchain/chainio.go:904-917 | removing the last block's index entries gives back the buckets without it |
| `OrphanPool.Drop` | blockchain/chain.go:391-399 | the shifting loop removes every orphan with the hash and keeps the order of the rest |
| `OrphanPool.RemovedIsIndexed` | blockchain/chain.go:377-408 | removing an orphan, even one that left the pool before, keeps both indexes over the same orphans, once each and without empty lists |
| `OrphanPool.AddedIsIndexed` | blockchain/chain.go:446-455 | adding a new orphan keeps both indexes over the same orphans |
| `Process.Processor.RemoveOrphanBlock` | blockchain/chain.go:377-408 | both indexes lose exactly that orphan and stay in step |
| `Process.Processor.Expire` | blockchain/chain.go:418-429 | in any iteration order drops exactly the expired orphans; the oldest reference stays unless an orphan that is left expires strictly before it, and then names an earliest one |
| `Process.Processor.MakeRoom` | blockchain/chain.go:416-436 | leaves all unexpired orphans, or all but a victim when the pool is full and the reference is not stale, and never follows a missing reference |
| `Process.Processor.AddOrphanBlock` | blockchain/chain.go:416-458 | of the unexpired orphans all stay, or all but one that the others do not expire before; the pool holds 1001 orphans exactly when it had 1001 unexpired ones, or 1000 and a reference that is stale |
| `OrphanExpiry.OldestIsVictim` | blockchain/chain.go:424-436 | after the expiry loop the reference names an orphan that no other one left expires before, unless it is stale |
| `OrphanExpiry.LiveVictim` | blockchain/chain.go:431-436 | while the reference is live, the orphan that goes is an earliest to expire among those left |
| `OrphanExpiry.AddedSize` | blockchain/chain.go:431-455 | the exact condition for outgrowing the limit, and that it is never outgrown by more than one |
| `Process.Processor.Outgrow` | blockchain/chain.go:416-458 | a run of these operations from an empty pool that ends with 1001 orphans: the first orphan leaves while the reference names it |
| `OrphanExpiry.FilledOutgrows` | blockchain/chain.go:25-27 | a pool of 1000 orphans that expire after what the reference still names outgrows the limit with the next |
| `Process.Processor.AcceptChildren` | blockchain/process.go:90-114 | takes out and offers every orphan waiting for the first hash of the worklist, in the order they came, up to the first that does not go; without an error exactly when all go, and then each is indexed and at the end of the worklist |
| `Process.Processor.ProcessOrphans` | blockchain/process.go:70-117 | terminates; the orphans that left the pool are the first ones of a breadth-first order, the chain made exactly their steps in that order, and there is an error exactly when the last of them did not go; otherwise they are all there are, they are indexed, and no orphan waits for any of them |
| `Process.Processor.ProcessBlock` | blockchain/process.go:129-239 | duplicates, insane blocks, orphans and dry runs are told apart exactly; a block with a known parent makes its own step first and then those of the orphans to offer; it is refused exactly when it or one of these does not go, and otherwise on the main chain exactly when its own step made it the tip; a dry run gives the answer for the block alone; short of an error no orphan stays behind whose parent is indexed, and without fast-add the chain stays the valid one with the most work |
| `OrphanDrain.HandledIndexes` | blockchain/process.go:218-238 | a block that fits on the tip and passes its check goes, and one that goes is indexed afterwards, whatever becomes of the orphans |
| `OrphanDrain.HandledMoves` | blockchain/process.go:218-238 | handling a block with its orphans is a run of the block-tree state machine |
| `OrphanDrain.DrainsMore` | blockchain/process.go:76-115 | offering blocks in two batches is offering them in one, with the error of the second |
| `OrphanDrain.OrderTakes` | blockchain/process.go:76-115 | the next orphan to offer is the first that waits for the head of the worklist, and its own hash goes to the end |
| `OrphanDrain.LeftMore` | blockchain/process.go:99-108 | over a drain each orphan that left was offered once |
| `OrphanDrain.StepShowsTip` | blockchain/process.go:218-238 | a block that goes is on the main chain exactly when its step made it the tip |
| `Process.DrainHandles` | blockchain/process.go:218-238 | a block that goes, followed by a drain, is handled as said, and no orphan is left ready |
| `MedianTime.CalcPastMedianTime` | blockchain/chain.go:661-709 | the upper median of the last eleven timestamps, fewer near the genesis block, whose time stands in when there is no block |
| `MedianTime.MedianGrows` | blockchain/chain.go:661-709 | a block later than its parent's median time does not take the median time back |
| `MedianTime.MedianNeverDecreases` | blockchain/validate.go:700-711 | along every chain that keeps the rule the median time never decreases |
| `Vlq.SerializeSize` | blockchain/compress.go:53-60 | the size is the length of the encoding |
| `Vlq.Put` | blockchain/compress.go:67-89 | the write-then-reverse loop writes exactly the encoding, of that size, and leaves the rest of the buffer alone |
| `Vlq.Deserialize` | blockchain/compress.go:94-107 | the loop computes the 64-bit decoding and the bytes it read, for any input |
| `Vlq.DecodeEncode` | blockchain/compress.go:67-107 | decoding an encoding followed by any bytes gives the number and those bytes, without overflow |
| `Vlq.EncodeValue` | blockchain/compress.go:67-107 | every well-formed byte string is the encoding of its own value |
| `Vlq.EncodeIsWellFormed` | blockchain/compress.go:67-89 | encodings are well formed and stand for the number encoded |
| `Vlq.SizeBound` | blockchain/compress.go:53-60 | a 64-bit number takes at most ten bytes |
| `Amount.CompressTxOutAmount` | blockchain/compress.go:464-489 | the 64-bit loop computes the compression modulo 2^64 |
| `Amount.DecompressTxOutAmount` | blockchain/compress.go:494-529 | the 64-bit loop computes the decompression modulo 2^64 |
| `Amount.DecompressCompress` | blockchain/compress.go:464-529 | decompression inverts compression on all naturals |
| `Amount.CompressDecompress` | blockchain/compress.go:464-529 | compression inverts decompression on all naturals, so it is a bijection |
| `Amount.ExactIn64Bits` | blockchain/compress.go:464-529 | the 64-bit code recovers every amount whose compressed form fits, in particular whenever nine times the amount does |
| `AmountOverflow.RecoveredIffFits` | blockchain/compress.go:464-529 | the 64-bit code recovers an amount if and only if its compressed form fits in 64 bits: none that wraps around comes back by accident |
| `AmountOverflow.OverflowForm` | blockchain/compress.go:464-489 | only amounts that do not end in zero can overflow |
| `AmountOverflow.UnpackWrapped` | blockchain/compress.go:494-521 | what a form that wrapped around unpacks to |
| `AmountOverflow.BackEquation` | blockchain/compress.go:464-529 | an amount that comes back from a wrapped form solves a linear equation modulo 2^64 |
| `AmountOverflow.OnlyOne` | blockchain/compress.go:464-529 | that equation has at most one solution in 63 bits for each last digit |
| `AmountOverflow.WrappedIsLost` | blockchain/compress.go:464-529 | for all ways to wrap around, up to eight times, the solution is out of range, so the amount is lost |
| `Amount.OverflowLosesAmounts` | blockchain/compress.go:464-529 | a concrete amount the code loses: 2^64 - 1 does not come back |
| `Curve.CompressPoint` | btcec/pubkey.go:61-143 | on a lawful curve the x coordinate and the oddness of y give the point back |
| `Script.CompressedSize` | blockchain/compress.go:245-266 | the size is the length of the compressed script |
| `Script.PutCompressed` | blockchain/compress.go:300-339 | writes exactly the compressed script |
| `Script.DecodeSizeExact` | blockchain/compress.go:272-293 | the length of a compressed script is recovered from its bytes followed by any others |
| `Script.CompressedIsFramed` | blockchain/compress.go:300-339 | every compressed script can be cut out of a longer string |
| `Script.DecompressCompressed` | blockchain/compress.go:348-422 | decompression inverts compression for every script |
| `TxOut.CompressedSize` | blockchain/compress.go:550-557 | the size is the length of the compressed output |
| `TxOut.Put` | blockchain/compress.go:567-577 | writes exactly the compressed output, compressing only what is not compressed yet |
| `TxOut.DecodeEncode` | blockchain/compress.go:582-604 | decoding a compressed output followed by any bytes gives its amount, its script and those bytes |
| `TxOut.DecompressStored` | blockchain/utxoviewpoint.go:38-47 | decompressing a stored output gives the original script, and the original amount if and only if its compressed form fits in 64 bits |
| `SpendJournal.EntrySize` | blockchain/chainio.go:207-215 | the size is the length of the entry |
| `SpendJournal.PutEntry` | blockchain/chainio.go:221-229 | writes exactly the entry |
| `SpendJournal.DecodeEncodeEntry` | blockchain/chainio.go:243-298 | decoding an entry followed by any bytes gives the stored entry, or the error of a version that is not known, and those bytes |
| `SpendJournal.SerializeJournal` | blockchain/chainio.go:388-408 | the sized buffer is filled exactly with the entries, last spend first |
| `SpendJournal.NextVersion` | blockchain/chainio.go:336-365 | the version comes from the view, or from the last spend of the same transaction, which the in-flight map remembers |
| `SpendJournal.DeserializeJournal` | blockchain/chainio.go:307-384 | the nested backward loops compute the decoding, including its errors |
| `SpendJournal.RoundTrip` | blockchain/chainio.go:188-408 | a journal is read back in stored form with every byte consumed if and only if each spend without details finds its non-zero version in the view or with the last spend from the same transaction |
| `SpendJournal.ConnectedRoundTrip` | blockchain/chainio.go:188-408 | a journal whose last spends of missing transactions carry the details is read back |
| `SpendJournal.ReadOrRefused` | blockchain/chainio.go:243-384 | a journal whose spends find no wrong version is refused for a missing version exactly when it is not read back |
| `SpendJournal.HeightZeroIsLost` | blockchain/chainio.go:188-203 | the last spend from a fully spent transaction of height zero is never read back |
| `UtxoEntry.HeaderCodeRoundTrip` | blockchain/chainio.go:565-600 | the header code gives back the coinbase flag, the first two outputs and the bitmap length, across the N-1 adjustment |
| `UtxoEntry.BitmapRoundTrip` | blockchain/chainio.go:639-655 | a bitmap of whole bytes gives back its flags |
| `UtxoEntry.RoundTrip` | blockchain/chainio.go:565-777 | an entry with an unspent output is read back as its version, height, coinbase flag and exactly its unspent outputs, with every byte consumed, if and only if its 32-bit bitmap length does not wrap |
| `UtxoEntry.OutputsLost` | blockchain/chainio.go:565-777 | when the length wraps, outputs from the third on cannot be read back |
| `UtxoEntryCode.SortedKeys` | blockchain/chainio.go:604-613 | the output indexes in ascending order, each once |
| `UtxoEntryCode.SerializeEntry` | blockchain/chainio.go:604-673 | the computed size is exactly filled with the format, or nothing is written for a fully spent entry, or the header error is passed on |
| `UtxoEntryCode.DeserializeEntry` | blockchain/chainio.go:678-777 | the bit and output loops compute the decoding of the format, including its errors |
| `UtxoViewpoint.UtxoViewpoint.AddTxOuts` | blockchain/utxoviewpoint.go:231-273 | the loop adds or overwrites exactly the spendable outputs; an entry that was there keeps its version and coinbase flag |
| `UtxoViewpoint.UtxoViewpoint.ConnectTransaction` | blockchain/utxoviewpoint.go:280-330 | fails exactly when an input's transaction has no entry; of a new transaction that spends what is there, every spendable output is a coin with its own value, version, coinbase flag and height, the inputs are gone, and every other coin is as before |
| `UtxoViewpoint.UtxoViewpoint.ConnectTransactions` | blockchain/utxoviewpoint.go:337-349 | after a valid block every coin its transactions spend is gone, every other output they create is there, and all else is as before |
| `UtxoCoins.CreatedAt` | blockchain/utxoviewpoint.go:246-271 | an index holds the last spendable output stored there, or nothing if there is none |
| `UtxoCoins.MakesOwnOutput` | blockchain/utxoviewpoint.go:246-271 | with at most 2^32 outputs that is the coin of output i at index i exactly when it is spendable |
| `UtxoCoins.SpentCoins` | blockchain/utxoviewpoint.go:290-324 | spending inputs takes away exactly their coins |
| `UtxoCoins.TxCoins` | blockchain/utxoviewpoint.go:280-330 | a new transaction connects, and what it leaves of every coin is said without the functions that compute it |
| `UtxoCoins.BlockCoins` | blockchain/utxoviewpoint.go:337-349 | a valid block connects, and what it leaves of every coin follows from what its transactions spend and create |
| `UtxoCoins.TxRecords` | blockchain/utxoviewpoint.go:291-325 | each record holds the value and version of the coin its input names, and its height and coinbase flag exactly when it is the last of its transaction |
| `UtxoCoins.RecordsHoldCoins` | blockchain/utxoviewpoint.go:291-349 | the same of a block, whose records come in the order of its inputs |
| `UtxoViewpoint.UtxoViewpoint.DisconnectTransactions` | blockchain/utxoviewpoint.go:355-440 | refuses a wrong number of records and otherwise undoes the block along its records, backwards |
| `UtxoView.ValidConnects` | blockchain/utxoviewpoint.go:337-349 | a block whose inputs are unspent at their turn connects without an error |
| `UtxoView.MetaRecovered` | blockchain/utxoviewpoint.go:399-411 | when an output is restored its entry is still there, or was spent down to nothing and its details are in that very record |
| `UtxoView.BlockRestored` | blockchain/utxoviewpoint.go:280-440 | disconnecting a valid block from the stored set with its records gives back the stored set it was connected to |
| `UtxoView.HistoryIndependent` | blockchain/utxoviewpoint.go:280-440 | after any run of connects and disconnects the stored set is that of connecting only the current chain |
| `UtxoJournal.JournalReads` | blockchain/chainio.go:188-408 | the journal of a valid block is read back whole if and only if the last spend from every fully spent transaction has a height and every other spend a version, and refused for a missing version otherwise |
| `UtxoJournal.FetchSpendJournal` | blockchain/chainio.go:415-437 | reading along the transactions after the coinbase computes that decoding |
| `UtxoJournal.JournalRestores` | blockchain/chainio.go:415-447 | end to end: the bytes of a block's journal are read back under exactly that condition, and what is read undoes the block on the stored set |
| `UtxoJournal.AllowedIsOrdinary` | blockchain/validate.go:217-230 | every amount validation allows survives compression |
| `UtxoJournal.LastOutputAtHeightZero` | blockchain/chainio.go:1295-1304 | a block that spends the last output of the genesis coinbase is valid and cannot be undone: its journal is refused |
| `UtxoJournal.SpendingBlockRefused` | blockchain/chainio.go:188-384 | the journal of a block with a single spend and any outputs is refused exactly when the entry spent from has no height and is fully spent, or no version and is not |
| `UtxoJournal.StuckAtHeightZero` | blockchain/chainio.go:1295-1304 | a concrete such block, with inputs and outputs in every transaction |
| `UtxoJournal.StuckAtVersionZero` | blockchain/validate.go:189-209 | another for version zero |
| `UtxoHistory.RetractedIs` | blockchain/chainio.go:415-447 | with every block's journal kept from its connect: the tip comes off through the bytes of its journal exactly when its spends are journaled, and then the set below it is back |
| `UtxoHistory.JournaledHistory` | blockchain/chain.go:1068-1191 | after any run of connects, and of disconnects through the journal, the stored set is that of connecting only the current chain |
| `UtxoJournal.PartOfVersionZero` | blockchain/validate.go:189-209 | nor can one that spends part of a transaction with version zero, which validation accepts |
| `KeyViewpoint.Pos` | btcec/pubkeyset.go:74-81 | a position of the key, or -1 exactly when it is absent |
| `KeyViewpoint.Add` | btcec/pubkeyset.go:93-98 | adds the key once |
| `KeyViewpoint.Remove` | btcec/pubkeyset.go:101-109 | swaps out exactly the key at the position, and does nothing out of range |
| `KeyViewpoint.KeyViewpoint.constructor` | blockchain/keyviewpoint.go:252-260 | the empty admin state |
| `KeyViewpoint.KeyViewpoint.ApplyAdminOp` | blockchain/keyviewpoint.go:156-173 | applies one operation to the key-ID map, the last key ID or a key set |
| `KeyViewpoint.KeyViewpoint.UndoAdminOp` | blockchain/keyviewpoint.go:223-241 | undoes one operation; the last key ID becomes the one below, in 32-bit arithmetic |
| `KeyViewpoint.KeyViewpoint.CountIssued` | blockchain/keyviewpoint.go:136-142 | adds or takes off the value of all outputs but the first, modulo 2^64 |
| `KeyViewpoint.KeyViewpoint.CountDestroyed` | blockchain/keyviewpoint.go:121-135 | adds or takes off the value of the null-data outputs, modulo 2^64 |
| `KeyViewpoint.KeyViewpoint.ProcessAdminOuts` | blockchain/keyviewpoint.go:113-153 | applies an admin transaction: a destruction takes its null-data outputs off the supply, an issuance adds all outputs but the first, output 0 becomes the tip of its thread, no other tip moves, and any other transaction is left alone |
| `KeyViewpoint.KeyViewpoint.ConnectTransactions` | blockchain/keyviewpoint.go:184-188 | applies a block in order; the supply with what the block destroys is the old one with what it issues, modulo 2^64 |
| `KeyViewpoint.KeyViewpoint.DisconnectTransactions` | blockchain/keyviewpoint.go:193-249 | undoes a block from its last transaction to its first, and moves the supply the other way |
| `KeyEffects.ConnectMovesSupply` | blockchain/keyviewpoint.go:118-142 | what a transaction does to the supply, in terms of the values of its outputs after the first |
| `KeyEffects.DisconnectMovesSupply` | blockchain/keyviewpoint.go:207-221 | undoing it does the opposite |
| `KeyEffects.NetIsBalance` | blockchain/keyviewpoint.go:118-142 | the net issuance of a list of transactions is everything it issues less everything it destroys |
| `KeyEffects.SupplyBalances` | blockchain/keyviewpoint.go:113-188 | over any list of transactions the supply with everything destroyed is the old supply with everything issued, modulo 2^64, and exactly their difference when that fits |
| `KeyEffects.UndoneSupplyBalances` | blockchain/keyviewpoint.go:193-249 | the same for undoing, the other way round |
| `KeyEffects.RunBalances` | blockchain/keyviewpoint.go:113-249 | after any run of connected and disconnected blocks the supply is what the current chain issued less what it destroyed |
| `KeyEffects.TipsAfter` | blockchain/keyviewpoint.go:143-152 | only the tip of the transaction's own thread moves, to its output 0 and back to the outpoint it spent |
| `KeyEffects.KeysAfter` | blockchain/keyviewpoint.go:145-173 | a key ID or key-set member holds what the last output about it says: its key if added, nothing if removed; undoing leaves the opposite |
| `KeyEffects.OtherKeysStay` | blockchain/keyviewpoint.go:113-173 | key IDs and members that no output is about stay as they are |
| `KeyEffects.KeyIDAfter` | blockchain/keyviewpoint.go:156-162 | the last key ID becomes the last one added, and stays if none is |
| `KeyView.RegistersRestored` | blockchain/keyviewpoint.go:223-241 | undoing the operations of a transaction forwards still restores every key set and key ID they touched |
| `KeyView.TransactionRestored` | blockchain/keyviewpoint.go:193-249 | disconnecting an accepted transaction restores supply, thread tips, key sets and key-ID map |
| `KeyView.TransactionKeyID` | blockchain/keyviewpoint.go:156-249 | connecting counts the last key ID on by the number of added ones; the forward undo ends just below the last added one |
| `KeyView.BlockRoundTrip` | blockchain/keyviewpoint.go:184-249 | connecting and disconnecting an accepted block gives the same admin state back if and only if the first transaction in it that adds key IDs adds a single one |
| `KeyReorganize.TwoAddsAreNotRestored` | blockchain/validate.go:1126-1203 | a transaction that adds two key IDs is accepted and not undone: the last key ID stays one too high |
| `KeyHistory.HistoryIndependent` | blockchain/keyviewpoint.go:113-249 | after any run of connects and disconnects supply, thread tips, key sets and key-ID map are those of connecting only the current chain; the last key ID is too where a flag kept by the moves says so, and over runs that add fewer than 2^32 key IDs exactly there |
| `KeyHistory.KeyIDsNeverExceedLast` | blockchain/keyviewpoint.go:113-249 | over every run that adds fewer than 2^32 key IDs no key ID in the map exceeds the last one |
| `KeyHistory.WrappedKeyIDExceeds` | blockchain/keyviewpoint.go:156-173 | with one key ID more the bound fails: after the largest comes zero |
| `KeyHistory.ExtendedKeyID` | blockchain/keyviewpoint.go:156-173 | connecting a block that adds a key ID makes a wrong last key ID right again, and any other block leaves it as wrong or right as it was |
| `KeyHistory.RetractedKeyID` | blockchain/keyviewpoint.go:193-249 | undoing a block leaves the last key ID right exactly if it was right before the block and the first transaction to add any added one, or if none did and it was right after |
| `KeyReorganize.ConnectedTwice` | blockchain/chain.go:1235-1240 | a reorganization connects the attached transactions to one view twice: everything comes out as after once, except that their net issuance is counted twice |
| `KeyReorganize.ReorganizedState` | blockchain/chain.go:1235-1394 | over the whole reorganization, with any blocks detached and attached: the recorded admin state is that of the new chain if and only if what is attached issues nothing on balance modulo 2^64, and either the detached blocks are restorable or the attached ones add a key ID |
| `KeyReorganize.UnrestoredRefuses` | blockchain/chain.go:1267-1319 | when the detached blocks are not restorable, a chain that adds key IDs and is acceptable above the fork fails its checks |
| `KeyRecorded.RecordedSupply` | blockchain/chain.go:1216-1417 | over every sequence of connected blocks and reorganizations the recorded keys and thread tips are those of the current chain, and the recorded supply is off by the net issuance of everything reorganizations ever attached, so right exactly when that is nothing modulo 2^64 |
| `KeyRecorded.Detached` | blockchain/chain.go:1241-1277 | detaching any number of blocks gives the keys of those kept and their supply, as far off as it was |
| `KeyReorganize.IssuanceCountsTwice` | blockchain/chain.go:1364-1386 | a concrete issuing block whose amount the reorganization counts twice |
| `KeyReorganize.DetachedAddsStay` | blockchain/chain.go:1267-1277 | a concrete reorganization that detaches two added key IDs and leaves the last one too high |
| `AddrManager.AddrManager.constructor` | addrmgr/addrmanager.go:1085-1095 | a fresh manager is sound and empty |
| `AddrManager.AddrManager.UpdateAddress` | addrmgr/addrmanager.go:163-235 | keeps the book sound for any random number, clock and hash; a new routable address is indexed with its source in its new bucket; a known one loses no service, takes a newer time, and joins another bucket exactly when it is not tried, is in fewer than eight and the draw is zero; tried buckets are untouched, and the random range is never empty |
| `AddrManager.AddrManager.ExpireBad` | addrmgr/addrmanager.go:239-261 | in any iteration order throws away exactly the bad addresses of the bucket and finds an oldest of the others |
| `AddrManager.AddrManager.ExpireNew` | addrmgr/addrmanager.go:239-275 | leaves the good addresses of the bucket but an oldest one, changes nothing outside the bucket and its entries, and keeps the book sound |
| `AddrManager.PickTried` | addrmgr/addrmanager.go:280-292 | the first of the oldest addresses of a tried bucket, and none exactly for an empty one |
| `AddrManager.AddrManager.Attempt` | addrmgr/addrmanager.go:814-827 | counts the attempt of a known address and changes nothing else |
| `AddrManager.AddrManager.Connected` | addrmgr/addrmanager.go:832-850 | moves the last seen time on when it is more than twenty minutes old |
| `AddrManager.AddrManager.ClearNew` | addrmgr/addrmanager.go:884-894 | takes the address out of every new bucket, counts its references down to zero and finds the first bucket |
| `AddrManager.AddrManager.Good` | addrmgr/addrmanager.go:855-939 | keeps the book sound and its set of addresses; the address is tried, with the time of success and attempt and no failed attempts; a new address goes to its tried bucket, at the end or in place of the oldest there, which goes back to its own new bucket or to the one just freed |
| `AddrBook.Totals` | addrmgr/addrmanager.go:614-616 | in a sound book the index splits exactly into new and tried, the counters add up to its size, and an address sits in one to eight new buckets if new and in none if tried |
| `AddrBook.LinkedIsSound` | addrmgr/addrmanager.go:226-232 | adding an address to a bucket with room keeps reference counts, counters and bucket bounds |
| `AddrBook.UnlinkedIsSound` | addrmgr/addrmanager.go:249-257 | removing one keeps them too, and takes the entry out of the index with its last reference |
| `AddrBook.PromotedIsSound` | addrmgr/addrmanager.go:904-910 | moving to a tried bucket with room keeps the book sound |
| `AddrBook.SwappedIsSound` | addrmgr/addrmanager.go:912-938 | swapping with a tried address keeps the book sound, new buckets within newBucketSize + 1 and tried buckets within triedBucketSize |
| `ScriptValidator.WorkerCount` | blockchain/scriptval.go:187-197 | three workers a processor, at least one and at most one an item |
| `ScriptValidator.OutcomeIsRight` | blockchain/scriptval.go:43-236 | for any interleaving nil is returned only if every item passed and an error only of an item that failed, within two steps an item and one a worker |
| `ScriptValidator.ParallelIsSequential` | blockchain/scriptval.go:182-236 | a run that can go no further has returned, nil exactly when every item passes, and every worker has ended |
| `ScriptValidator.NeverStuck` | blockchain/scriptval.go:212-232 | until it returns the dispatcher can always hand over an item or receive a result |
| `ScriptValidator.OneWorkerPerItem` | blockchain/scriptval.go:53-178 | no two workers hold the same item, and none holds an item that was reported |
| `Endomorphism.EndomorphismVectors` | btcec/gensecp256k1.go:110-204 | the first vector is in the lattice, with a1 below the root and the size of b1 times the root at most N; so is the second, and the two span the lattice (their determinant is N or -N) if and only if gcd(lambda, N) < nSqrt <= lambda mod N |
| `Endomorphism.CurveVectors` | btcec/gensecp256k1.go:85-204 | for every group of prime order above three the code's own root ends, the first vector keeps its bounds, and the vectors span the lattice exactly if lambda mod N is not below the root |
| `Endomorphism.GcdWithPrime` | btcec/gensecp256k1.go:110-204 | the greatest common divisor with a prime is one unless the prime divides the number |
| `Endomorphism.Shorter` | btcec/gensecp256k1.go:175-194 | the second vector is the shorter of the two candidates |
| `Endomorphism.StepHolds` | btcec/gensecp256k1.go:127-151 | each round keeps both equations, turns the sign of the determinant and keeps the greatest common divisor |
| `Endomorphism.GcdIsGreatest` | btcec/gensecp256k1.go:110-204 | the function the condition uses is the greatest common divisor |
| `Newton.Sqrt` | btcec/gensecp256k1.go:85-102 | ends with the square root rounded down for every positive number that is not one below a square |
| `Newton.EndsOrNot` | btcec/gensecp256k1.go:85-102 | from its start value the loop repeats a guess after some round if and only if the number is not one below a square |
| `Newton.NotRepeated` | btcec/gensecp256k1.go:93-100 | on a number one below a square no round repeats its guess |
| `Newton.PrimesEnd` | btcec/gensecp256k1.go:85-102 | a prime above three, such as a group order, is not one below a square |
| `Difficulty.CompactRoundTrip` | blockchain/difficulty.go:62-130 | encoding then decoding gives the number rounded down if and only if it is below 2^2039, where the exponent fits its eight bits |
| `Difficulty.RoundedIsLargest` | blockchain/difficulty.go:62-130 | the rounded number is the largest with a 23-bit mantissa that is not above the given one |
| `Difficulty.RoundingLoss` | blockchain/difficulty.go:94-130 | rounding loses less than one part in 2^15 |
| `Difficulty.RoundedIsMonotone` | blockchain/difficulty.go:62-130 | rounding is monotone |
| `Difficulty.RoundedTwice` | blockchain/difficulty.go:62-130 | rounding is idempotent |
| `Difficulty.WorkGrowsWithDifficulty` | blockchain/difficulty.go:142-154 | a smaller target is worth at least as much work, and a 256-bit target is worth some |
| `Difficulty.WorkIsQuotient` | blockchain/difficulty.go:142-154 | the work is exactly how often the target plus one goes into 2^256, and none for a target that is not positive |
| `Retarget.RequiredTargetIsBounded` | blockchain/difficulty.go:221-250 | the required target lies between those of the shortest and the longest timespan allowed, rounded, and under the limit |
| `Retarget.RequiredIsWithinLimit` | blockchain/difficulty.go:172-250 | the required difficulty after any chain never decodes above the limit |
| `Retarget.CalcNextRequiredDifficulty` | blockchain/difficulty.go:172-250 | a short chain gets the limit; otherwise the target follows from the sum of the last window's targets and the two median times: the time taken is moved to a quarter of its distance from the intended one, clamped, and scales the average, under the limit |
| `Retarget.RuleIsFollowed` | blockchain/difficulty.go:172-250 | the required difficulty after any chain is the limit for a short one, and otherwise follows from the sum of the last targets and the two median times as stated |
| `Retarget.DampedIsQuartered` | blockchain/difficulty.go:228-234 | the damped timespan before clamping lies on the same side of the intended one as the measured one, at a quarter of the distance rounded towards zero |
| `Retarget.SlowerIsEasier` | blockchain/difficulty.go:221-250 | the decoded target is monotone in the last median time and in the average, and antitone in the first |
| `Retarget.IntendedTimeKeepsAverage` | blockchain/difficulty.go:221-250 | a window that took the intended time asks for the average rounded down to a multiple of its milliseconds, under the limit |
| `Retarget.AverageIsBetween` | blockchain/difficulty.go:178-198 | the average lies between the hardest and the easiest target of the window |
| `Merkle.NextPowerOfTwo` | blockchain/merkle.go:18-27 | the least power of two that is not below the number |
| `Merkle.FillParents` | blockchain/merkle.go:88-109 | every cell behind the leaves is the parent of its two children, with the left one doubled when the right is empty |
| `Merkle.BuildMerkleTreeStore` | blockchain/merkle.go:70-112 | for every list of at least one transaction the array is exactly filled with the levels, and its last cell is the hash of the two level-by-level roots |
| `Merkle.RootOfHalves` | blockchain/merkle.go:70-112 | over the two padded halves the top is the hash of their duplicate-last Merkle roots |
| `Merkle.EmptyCells` | blockchain/merkle.go:70-112 | a cell on any level is empty exactly when it covers no transaction |
| `Merkle.EmptyInStore` | blockchain/merkle.go:70-112 | the same at the place of the cell in the array |
| `Locator.BlockLocatorFromHash` | blockchain/blocklocator.go:43-150 | for every main-chain block with a 31-bit height the locator names exactly the specified heights, without 32-bit overflow and without reaching the message limit |
| `Locator.HeightsDescend` | blockchain/blocklocator.go:78-149 | the heights go strictly down from the block to the genesis block |
| `Locator.HeightsAreFew` | blockchain/blocklocator.go:78-149 | their number is logarithmic in the height |
| `Locator.LocateBlocks` | server.go:676-721 | the answer is the stretch of the main chain after the first known locator, up to the stop hash if that is within a message and else a full message, also when the 32-bit difference wraps, and the range asked for is never refused; without locators the stop hash comes back, known or not |
| `Locator.HeightRange` | blockchain/chainio.go:1624-1676 | the hashes from the start height up to the end height or the tip; an error exactly when the end is before the start |
| `Locator.LocatorSync` | server.go:703-711 | a peer that shares the chain exactly up to height f resumes at a shared block that is no further below f than the locator's block is above it |
| `BlockTree.LastStep` | blockchain/chain.go:1436-1577 | in every run without fast-add a block takes over the tip only from its parent or with strictly more work |
| `BlockTree.RunKeepsMostWork` | blockchain/chain.go:1436-1577 | the same invariant over every run from any state that has it |
| `BlockTree.MovesKeepMostWork` | blockchain/process.go:129-239 | whatever moves by steps without fast-add keeps the most work, and never has less |
| `Chain.PutBuckets` | blockchain/chainio.go:884-899 | adding a block's index entries gives the buckets of the longer chain |
| `Chain.ConnectedIsConsistent` | blockchain/chain.go:941-1062 | connecting a block on top of the tip keeps index, flags, work sums, buckets and transaction count consistent |
| `Chain.DisconnectedIsConsistent` | blockchain/chain.go:1068-1191 | disconnecting the tip keeps them consistent and gives back the shorter main chain |
| `Chain.BlockChain.AttachNext` | blockchain/chain.go:1364-1393 | connecting the next block of the new path gets one block further along it |
| `Chain.BlockChain.ReorganizeTo` | blockchain/chain.go:1557-1577 | the two lists of any heavier side-chain node make a reorganization that succeeds exactly when the node's path can be attached |
| `Process.Processor.constructor` | blockchain/chain.go:1814-1815 | a fresh processor has an empty pool over a valid chain |
| `Process.Processor.Offer` | blockchain/process.go:220-223 | offering a block is its step of the block tree, without an error exactly when the block goes and on the main chain exactly when it is the new tip; it indexes the block at most, and does unless there is an error |
| `Process.Processor.AcceptOrphan` | blockchain/process.go:99-108 | the orphan leaves the pool whatever happens, its step is made, and there is an error exactly when it does not go |
| `Process.Processor.AcceptAndDrain` | blockchain/process.go:218-238 | the block's own step comes first, then those of the orphans to offer; the answer is the right one for both, and an accepted block leaves no orphan that could follow it |
| `Process.Processor.TryBlock` | blockchain/process.go:218-238 | a dry run changes nothing and answers whether the block would go, and be the tip |
| `OrphanExpiry.FullMakesRoom` | blockchain/chain.go:431-436 | removing what the reference names, and clearing it, makes that room in a full pool |
| `Process.DrainedIsNotReady` | blockchain/process.go:70-117 | if no orphan had its parent indexed before, a complete drain leaves none that has |
| `MedianTime.MedianByCounting` | blockchain/chain.go:696-708 | the sorted middle is characterised by counting: it is at least x exactly when at most half the window is below x |
| `Vlq.Reverse` | blockchain/compress.go:83-86 | the swapping loop reverses its part of the buffer and leaves the rest alone |
| `Vlq.DecodeWellFormed` | blockchain/compress.go:94-107 | a well-formed string whose value fits 64 bits decodes to it |
| `Amount.ApplyExponent` | blockchain/compress.go:522-526 | repeated multiplication modulo 2^64 is scaling by the power of ten |
| `Amount.CompressBound` | blockchain/compress.go:464-489 | the compressed form is at most nine times the amount |
| `Script.PutTagged` | blockchain/compress.go:300-332 | writes a tag and its data |
| `TxOut.PutScript` | blockchain/compress.go:567-577 | writes the script, compressed unless it already is |
| `TxOut.Append` | blockchain/compress.go:567-577 | a compressed output follows what was written before it |
| `TxOut.StoredTwice` | blockchain/compress.go:560-577 | storing what is already compressed changes neither value nor bytes |
| `SpendJournal.PutHeader` | blockchain/chainio.go:221-229 | writes the header code and, with details, the version |
| `SpendJournal.JournalSize` | blockchain/chainio.go:388-397 | the size is the length of the journal |
| `SpendJournal.FillJournal` | blockchain/chainio.go:398-407 | the backward loop fills the buffer exactly with the journal |
| `SpendJournal.NumStxos` | blockchain/chainio.go:307-312 | the number of spends the transactions make |
| `SpendJournal.ReadTx` | blockchain/chainio.go:333-380 | the inner backward loop reads one transaction's spends and keeps the in-flight map right |
| `SpendJournal.ReadTxns` | blockchain/chainio.go:330-382 | the outer backward loop reads all of them |
| `UtxoEntry.DecodeEncodeOutputs` | blockchain/chainio.go:656-777 | decoding the encoded outputs at their indexes gives them back in stored form, and the bytes after them |
| `UtxoEntryCode.HighestKey` | blockchain/chainio.go:616-618 | the last key in order is the highest output index |
| `UtxoEntryCode.IsFullySpent` | blockchain/chainio.go:604-608 | whether every output is spent |
| `UtxoEntryCode.HeaderSize` | blockchain/chainio.go:624-627 | the size of the three numbers of the header |
| `UtxoEntryCode.OutputsSize` | blockchain/chainio.go:628-636 | the size of the compressed unspent outputs |
| `UtxoEntryCode.PutNumbers` | blockchain/chainio.go:640-643 | writes the three numbers one after the other |
| `UtxoEntryCode.UnspentBits` | blockchain/chainio.go:645-654 | eight outputs from the third on as one byte, lowest first |
| `UtxoEntryCode.PutBitmap` | blockchain/chainio.go:645-657 | writes exactly the bitmap |
| `UtxoEntryCode.PutHeader` | blockchain/chainio.go:638-657 | writes exactly the numbers and the bitmap |
| `UtxoEntryCode.PutOutputs` | blockchain/chainio.go:659-670 | writes exactly the compressed unspent outputs in order |
| `UtxoEntryCode.SerializeParts` | blockchain/chainio.go:624-673 | the computed size is exactly filled by header and outputs |
| `UtxoEntryCode.AppendByte` | blockchain/chainio.go:738-751 | the bits of one byte add exactly the indexes they stand for |
| `UtxoEntryCode.BitmapIndexes` | blockchain/chainio.go:726-751 | the indexes of the two header flags and the bitmap, in order |
| `UtxoEntryCode.ReadOutputs` | blockchain/chainio.go:753-777 | reads an output for each index, or fails as the specification does |
| `UtxoEntryCode.ReadBody` | blockchain/chainio.go:703-777 | reads the bitmap and the outputs after the header code |
| `UtxoViewpoint.UtxoViewpoint.constructor` | blockchain/utxoviewpoint.go:575-579 | a view of the given entries |
| `UtxoViewpoint.UtxoViewpoint.SpendAll` | blockchain/utxoviewpoint.go:290-324 | spends the inputs in order, with a record each, or fails at the first whose transaction has no entry |
| `UtxoViewpoint.UtxoViewpoint.Clear` | blockchain/utxoviewpoint.go:368-386 | creates a missing entry for the transaction and takes all its outputs away |
| `UtxoViewpoint.UtxoViewpoint.Restore` | blockchain/utxoviewpoint.go:391-433 | unspends the inputs backwards from their records, and says how many records are left |
| `UtxoViewpoint.SpendCount` | blockchain/chain.go:1194-1201 | the number of spends after the coinbase |
| `UtxoView.BlockMirrors` | blockchain/utxoviewpoint.go:355-440 | over a whole block: disconnecting mirrors connecting, up to entries with nothing left in them |
| `UtxoView.RetractRestores` | blockchain/utxoviewpoint.go:355-440 | in a run a disconnect gives back exactly the history before the last connect |
| `UtxoJournal.BlockRecords` | blockchain/utxoviewpoint.go:302-324 | a record carries details exactly when its transaction ends the block spent down to nothing and this was its last spend |
| `KeyView.AppliedAt` | blockchain/keyviewpoint.go:156-173 | after the operations each key set member and key ID is what the last operation on it wrote |
| `KeyView.UndoneAt` | blockchain/keyviewpoint.go:223-241 | and after undoing them forwards, what undoing that same operation leaves |
| `KeyView.RestoredKeyID` | blockchain/keyviewpoint.go:223-241 | the forward undo of n added key IDs restores the last one exactly when n is one modulo 2^32 |
| `KeyView.BlockRestored` | blockchain/keyviewpoint.go:193-249 | disconnecting an accepted block restores supply, thread tips, key sets and key-ID map |
| `KeyView.BlockKeyID` | blockchain/keyviewpoint.go:193-249 | after disconnecting, the last key ID depends only on the first transaction that added any |
| `KeyViewpoint.KeyViewpoint.ApplyToKeySet` | blockchain/keyviewpoint.go:156-173 | adds the key to the set or removes it |
| `KeyViewpoint.KeyViewpoint.ApplyOps` | blockchain/keyviewpoint.go:145-149 | applies the operations of a transaction in order |
| `KeyViewpoint.KeyViewpoint.UndoOps` | blockchain/keyviewpoint.go:223-241 | undoes the operations of a transaction in the same order |
| `KeyViewpoint.KeyViewpoint.UndoAdminOuts` | blockchain/keyviewpoint.go:193-249 | undoes an admin transaction: applying it to the new supply would give the old one, and its thread tip goes back to the outpoint it spent |
| `AddrBook.EmptyIsSound` | addrmgr/addrmanager.go:1085-1095 | the empty book is sound |
| `AddrBook.TouchedIsSound` | addrmgr/addrmanager.go:172-187 | changing neither key, buckets nor references of an entry keeps the book sound |
| `AddrBook.IndexedIsSound` | addrmgr/addrmanager.go:205-214 | a new entry without references is the one thing to repair |
| `AddrManager.AddrManager.Unlink` | addrmgr/addrmanager.go:249-257 | takes an address out of one bucket, and out of the index with its last reference |
| `AddrManager.AddrManager.AddToNew` | addrmgr/addrmanager.go:217-232 | puts the address in its bucket unless it is there, with one more reference; an over-full bucket first loses what expires, and nothing else changes |
| `AddrManager.RefreshedIsAnnounced` | addrmgr/addrmanager.go:179-187 | an announcement adds its services and a newer time; the time moves back exactly when an older announcement brings a new service |
| `AddrManager.AddrManager.MoveToTried` | addrmgr/addrmanager.go:876-939 | moves a new address to its tried bucket, at the end or in place of the oldest |
| `AddrManager.AddrManager.Evict` | addrmgr/addrmanager.go:912-938 | replaces the oldest tried address and puts it back into a new bucket that has room |
| `AddrManager.EvictedFits` | addrmgr/addrmanager.go:918-923 | the bucket chosen for the evicted address has room: its own, or the one just freed |
| `ScriptValidator.StepKeeps` | blockchain/scriptval.go:53-236 | every step of dispatcher or worker keeps the books: no item is lost, held twice or reported twice |
| `ScriptValidator.StepDecreases` | blockchain/scriptval.go:53-236 | every step uses up some of a bounded amount of work |
| `ScriptValidator.RunInv` | blockchain/scriptval.go:53-236 | so every run keeps the books and has a bounded length |
| `Endomorphism.FirstVector` | btcec/gensecp256k1.go:153-163 | the first vector is in the lattice and within the bounds |
| `Endomorphism.CoefficientBound` | btcec/gensecp256k1.go:127-151 | the size of each coefficient times the remainder before it is at most N |
| `Endomorphism.SecondVector` | btcec/gensecp256k1.go:170-196 | when there is one more round, the vectors span the lattice exactly under the condition |
| `Endomorphism.NoSecondVector` | btcec/gensecp256k1.go:127-168 | when there is none, they do not, and the condition fails |
| `Newton.NotBelowRoot` | btcec/gensecp256k1.go:94-98 | no round falls below the root |
| `Newton.ComesDown` | btcec/gensecp256k1.go:94-98 | above the root every round comes down |
| `Retarget.DampedIsBounded` | blockchain/difficulty.go:221-234 | the damped timespan stays within the bounds, in whole milliseconds |
| `Retarget.SumWindow` | blockchain/difficulty.go:178-196 | sums exactly the last targets, as many as the window holds or there are |
| `Merkle.FillLeaves` | blockchain/merkle.go:81-85 | the two hashes of each transaction, in the two halves |
| `Merkle.StoreIsLevels` | blockchain/merkle.go:88-109 | an array whose parents lie behind the leaves in order is the list of its levels |
| `Merkle.LevelInStore` | blockchain/merkle.go:88-109 | where every cell of every level lies in the array |
| `Locator.SyncDistance` | blockchain/blocklocator.go:78-149 | the first named height a peer shares is no further below f than the block is above it |
| `Locator.IncrementFits` | blockchain/blocklocator.go:92-102 | the doubled increment never exceeds 2^30 |

## Left out

- Dynamic loading of block nodes and pruning of the memory index (blockchain/chain.go:467-625): every node is resident, and a block exists when it is indexed.
- Block, transaction and script validation: each check is a parameter, a predicate on the path to a block or on an item; for the admin and utxo state the facts validation establishes are stated as predicates (`KeyView.Acceptable`, `UtxoView.ValidBlock`).
- Databases: a database update is one assignment; the work sum persisted during a disconnect and storing blocks that fail to connect are not part of the model.
- Nodes, known addresses and utxo entries are values in maps under their hash or key instead of shared objects, so aliasing between buckets and index is by key.
- The modified flags of utxo entries and loading only the entries a block needs: the view holds the whole stored set, and `UtxoView.Pruned` is what storing it leaves.
- Chain.BlockChain.ConnectBlock: does not model 32-bit heights and 64-bit transaction counts wrapping around, nor the check that there is a spend record for every input, which `UtxoViewpoint.UtxoViewpoint.ConnectTransactions` makes true.
- Chain.BlockChain.MaybeAcceptBlock: of the context checks only those on the parent and the height are modelled; a block that fails another one is one that is not offered.
- Process.Processor.ProcessBlock: a block is known when it is indexed or an orphan; blocks that are stored but not indexed are not modelled.
- UtxoJournal.JournalRestores: requires amounts whose compressed form fits in 64 bits, as do all that validation allows (`UtxoJournal.AllowedIsOrdinary`), and scripts that fit a slice.
- KeyHistory.HistoryIndependent: says where the last key ID is wrong only for runs that add fewer than 2^32 key IDs, after which key IDs wrap around and a wrong one can become right by accident.
- Locator.BlockLocatorFromHash: main-chain blocks only; the walk along a side chain is not modelled.
- Address files, address selection and its floating-point weights, and local addresses (addrmgr/addrmanager.go:338-535, 637-806, 943-1081).
- Negative targets in BigToCompact, and 64-bit overflow of nanosecond durations.
- Channel scheduling fairness: the validator's claims are about every run and about runs that can go no further.
- RPC, peers, wallets, networking and logging.
