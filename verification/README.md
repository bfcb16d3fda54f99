# Verified model of the FISCO BCOS node core

This project models, in Dafny, the parts of a FISCO BCOS node whose correctness
is least visible from reading the code, and proves what they are there for.
`dafny verify dfyconfig.toml` verifies all of it. Nothing here executes the node.

**Parallel block execution** (`Conflicts`, `EdgeCounts`, `TxDag`, `Scheduler`,
`SchedulerInvariant`, `SchedulerProgress`, `Serializability`,
`ParallelExecution`, `Branching`, `SoloRun`, `OverlapRun`, `Overlap`,
`Uncontended`, `BlockVerifier`). The classes that build the dependency graph of a
block are modelled as classes. The worker threads are modelled as a step machine
in which every decrement, push and pop is a step of its own. A transaction is an
abstract function on a state; all that is assumed of it is that transactions that
do not conflict commute. The main result is `ParallelExecution.Serializable`, and
`BlockVerifier.ParallelBlockEqualsSerialBlock` carries it to receipts and
cumulative gas. That conflicting transactions are never both held up to the end
of `consume` is false: `Overlap.ForkOverlaps` has a block that shows it, and
`Overlap.OverlapExactly` says for which blocks and numbers of workers it can
happen. What is always true is `ParallelExecution.ConflictingNeverTogether`.

**RLP** (`BigEndian`, `RlpFormat`, `RlpBytes`, `RlpWriter`, `RlpReader`, `Splitting`,
`RlpCursor`), after Appendix B of the Ethereum Yellow Paper. The stream that opens
lists before their size is known is a class proved against the recursive
encoding; the reader is proved to be its inverse in both directions; the
list-indexing cache and the iterator are proved against a fresh scan.

**Merkle Patricia trie** (`HexPrefix`, `TrieLayout`, `TrieNodes`, `TrieLookup`, `TrieHash`,
`TrieRoot`), after Appendices C and D of the Yellow Paper. The layout of a set of
entries is a function; `TrieHash` proves that the recursion over ranges of a
sorted map writes exactly its bytes; `TrieLookup` proves that following paths and
hashes finds exactly the map. The hash is any function to 32 bytes.

**Merkle tree with sixteen children** (`MerkleTree`, `MerkleProof`,
`TransactionProof`): the root, the parent and child maps, and the proofs that
connect the two, up to the proof of a transaction. Loops that the source
runs in parallel are modelled with their iterations in any order.

**Contract ABI** (`AbiFormat`, `AbiReader`, `AbiCodec`, `AbiWords`,
`ContractAbi`), after the
section "Formal Specification of the Encoding" of the Solidity Contract ABI
Specification.

**Broadcast tree** (`TreeShape`, `TreeFlood`, `TreeTopology`, `Broadcast`), **chain commit and
block cache** (`ChainCommit`, `BlockCache`), **compact proposals**
(`PartiallyBlock`) and **channel framing** (`ChannelFraming`).

Where the code and its documentation differ, the model follows the code. The
comment of `RLP::operator[]` says that it indexes lists only; the code indexes the
payload of data in the same way, and so does `RlpCursor.Rlp.At`. The comment of
`toInt` says that it returns 0 for what is not a number; under the default flags
it throws, and so does the model. The comparison in the decoder of `int256` is
with `0x8fff...f`, not with `0x7fff...f`, so numbers below -7 * 2^252 are not read
back; `AbiReader.ReadAsItself` has the exact range.

## Model

| member | source | states |
|---|---|---|
| `Conflicts.HoldersSound` | libblockverifier/TxDAG.h:100-139 | Every remembered holder of a key is an earlier transaction that has the key; the remembered critical-to-all transaction has no key list. |
| `Conflicts.HoldersLatest` | libblockverifier/TxDAG.h:104-134 | Whoever had a key, or was critical to all, the remembered holder of the key is that transaction or a later one. |
| `Conflicts.EdgeExactly` | libblockverifier/TxDAG.cpp:68-101 | There is an edge exactly from the latest holder of one of the keys, or, to a transaction that is critical to all, exactly from every remembered one. |
| `Conflicts.EdgesIntoCount` | libblockverifier/TxDAG.cpp:68-98 | A transaction has one edge for every key in its list with a holder, repeated keys included; one that is critical to all has one for every remembered key and one for the remembered critical-to-all transaction. |
| `Conflicts.EdgeForwardAndConflicting` | libblockverifier/TxDAG.cpp:61-102 | Every edge goes from a lower to a higher id and joins transactions that conflict. |
| `Conflicts.ConflictHasPath` | libblockverifier/TxDAG.cpp:59-102 | Every earlier/later pair that conflicts is joined by a path, although only the latest holder of a key is kept and critical-to-all clears the map. |
| `Conflicts.PathsAreConflictChains` | libblockverifier/TxDAG.cpp:59-102 | The paths of the graph are exactly the ascending chains of conflicts. |
| `Conflicts.EmptyCriticalsAreIsolated` | libblockverifier/TxDAG.cpp:69-88 | A transaction whose key list is there but empty has no edge at all, not even with one that is critical to all. |
| `TxDag.CriticalField.Get` | libblockverifier/TxDAG.h:104-114 | The holder of a key: its own entry, else the critical-to-all transaction, else none. |
| `TxDag.CriticalField.Fields` | libblockverifier/TxDAG.h:118-128 | Every id is visited once for each key it holds, and once more if it is the critical-to-all one. |
| `TxDag.Dag.Init` | libblockverifier/DAG.cpp:34-41 | Vertices without edges, with in-degrees that count the edges; the queue is left as it was. |
| `TxDag.Dag.AddEdge` | libblockverifier/DAG.cpp:43-51 | The edge is appended at its source, parallel edges included, and every in-degree still counts the incoming edges. |
| `TxDag.Dag.Generate` | libblockverifier/DAG.cpp:53-65 | Exactly the vertices of in-degree zero are queued, in order. |
| `TxDag.Dag.WaitPop` | libblockverifier/DAG.cpp:67-98 | The front of the queue, or the invalid id when it is empty. |
| `TxDag.Dag.Consume` | libblockverifier/DAG.cpp:100-135 | The out-edge loop: in-degrees fall, the first successor that gets free is handed on, the others are queued in order. |
| `TxDag.ReadyExactly` | libblockverifier/DAG.cpp:53-59 | The vertices without predecessors, each once. |
| `TxDag.OutListExactly` | libblockverifier/TxDAG.cpp:75-98 | The out-edges of a vertex have the multiplicities that the key lists demand. |
| `TxDag.OutEdgesAreEdges` | libblockverifier/TxDAG.cpp:59-102 | The out-edge vectors hold exactly the edges, and only forward ones. |
| `TxDag.TxDAG.Init` | libblockverifier/TxDAG.cpp:37-110 | The graph built from a block is that of its key lists, its in-degrees are balanced, and its queue holds the vertices without predecessors. |
| `TxDag.TxDAG.AddTransaction` | libblockverifier/TxDAG.cpp:61-102 | One turn of the loop: the edges into one transaction, and its keys recorded. |
| `TxDag.TxDAG.AddKeyEdges` | libblockverifier/TxDAG.cpp:75-82 | One edge for every key with a holder, before any key is recorded. |
| `TxDag.TxDAG.AddAllEdges` | libblockverifier/TxDAG.cpp:92-97 | One edge from every remembered holder. |
| `SchedulerInvariant.StepKeepsInv` | libblockverifier/DAG.cpp:67-135 | Every step of every worker keeps the invariant: each vertex in one place, in-degrees equal to the edges not yet decremented, the log faithful to the world, the counters balanced. |
| `SchedulerInvariant.RunKeepsInv` | libblockverifier/TxDAG.cpp:118-140 | The invariant holds after every run, for any number of workers and any interleaving. |
| `SchedulerInvariant.PredecessorsExecuted` | libblockverifier/DAG.cpp:105-124 | A vertex whose in-degree is zero has only predecessors that have executed. |
| `ParallelExecution.ExactlyOnePlace` | libblockverifier/DAG.cpp:43-135 | In every reachable state each vertex is waiting, queued, handed on, with one worker or done, never two of these, and the consumed count is the number of done ones. |
| `ParallelExecution.DegreesCountUndecremented` | libblockverifier/DAG.cpp:105-124 | In every reachable state an in-degree is the number of incoming edges, with multiplicity, that no worker has decremented yet. |
| `ParallelExecution.ReleasedAfterConflicts` | libblockverifier/DAG.cpp:100-135 | When a transaction is released, every earlier one that conflicts with it has its receipt and is held, if at all, only for the bookkeeping of consume. |
| `ParallelExecution.ConflictingNeverTogether` | libblockverifier/TxDAG.cpp:118-140 | Of two conflicting transactions no worker has the later one while a worker has the earlier one before the end of its execution. |
| `ParallelExecution.FinishedMeansConsumed` | libblockverifier/TxDAG.h:74-77 | hasFinished without an exit request means that every transaction was executed and consumed and that nothing is queued or held. |
| `ParallelExecution.CountsAreExecutions` | libblockverifier/TxDAG.cpp:122-139 | The flushed count and the local counts of the workers add up to the transactions whose execution has begun. |
| `ParallelExecution.EveryRunCanFinish` | libblockverifier/BlockVerifier.cpp:274-296 | Every run can be continued until all transactions are consumed and every worker has left. |
| `ParallelExecution.Serializable` | libblockverifier/BlockVerifier.cpp:255-306 | If transactions that do not conflict commute, every run of any number of workers that has finished, or that a worker has left, ends with the state and the receipts of the serial loop: there are states from the initial to the final one such that each transaction, executed on its state, gives the next state and its receipt. |
| `ParallelExecution.TakesEffectInTurn` | libblockverifier/BlockVerifier.cpp:259-265 | In every reachable state, finished or not, some transactions have been executed one after the other, each on the state the one before it left, conflicting ones in block order, and exactly these have a receipt. |
| `Serializability.OrderInTurn` | libblockverifier/BlockVerifier.cpp:259-265 | Any order without repetition is executed in turn: each transaction on the state the one before it left, its receipt at its index, and no other receipt touched. |
| `SchedulerProgress.UsefulStepsBounded` | libblockverifier/DAG.cpp:100-135 | The steps that are not idle are bounded by a sum over vertices and edges, in every run. |
| `SchedulerProgress.NotStuck` | libblockverifier/DAG.cpp:67-98 | While a transaction is not consumed, the queue is not empty or a worker is active. |
| `SchedulerProgress.CanConsumeAll` | libblockverifier/TxDAG.cpp:123-133 | Every reachable state leads on to one in which every transaction is consumed, as long as there is a worker. |
| `SchedulerProgress.AllConsumed` | libblockverifier/DAG.cpp:126-129 | When the consumed count has reached the number of transactions, nothing is queued, held or waiting. |
| `SchedulerProgress.QueueIsFifo` | libblockverifier/DAG.cpp:67-135 | What was queued and what a run pushes is what it pops and what is left, in order. |
| `SchedulerProgress.FinishedRunsEnd` | libblockverifier/TxDAG.h:74-77 | Once hasFinished holds, every worker takes at most three more steps. |
| `Serializability.SwapAdjacent` | libblockverifier/BlockVerifier.cpp:259-265 | Two neighbouring transactions that commute can be exchanged without changing state or receipts. |
| `Serializability.OrderIrrelevant` | libblockverifier/BlockVerifier.cpp:255-306 | Any order of a block in which only independent transactions are exchanged gives the world of the serial order. |
| `Serializability.LogInversionsIndependent` | libblockverifier/TxDAG.cpp:59-102 | In the order in which a run takes effect only transactions that do not conflict are exchanged. |
| `Branching.FindJoin` | libblockverifier/DAG.cpp:105-124 | If two unordered transactions precede a common one, some transaction has two unordered direct predecessors, one of them its last. |
| `Branching.FindFork` | libblockverifier/DAG.cpp:105-124 | If no two unordered transactions precede a common one, but two unordered ones follow a common one, then some transaction is the last thing that two others wait for. |
| `SoloRun.SoloReach` | libblockverifier/TxDAG.cpp:118-140 | A worker moving alone comes to hold one of any vertices that are not taken, as long as no other worker keeps what they still wait for, and takes none of the others on its way. |
| `SoloRun.Linger` | libblockverifier/DAG.cpp:100-124 | A worker moving alone can go through all out-edges of its vertex and stay in consume. |
| `OverlapRun.JoinRun` | libblockverifier/DAG.cpp:100-135 | Where two unordered transactions precede a third, two workers can come to the state in which the third is taken while one of the two is still in consume. |
| `OverlapRun.ForkRun` | libblockverifier/DAG.cpp:100-135 | Where a transaction frees two others, a second worker can take one of them while the first is still in consume. |
| `Overlap.KeptApart` | libblockverifier/DAG.cpp:105-133 | While every worker in consume still has the successor it released, no two workers are at transactions joined by a path. |
| `Overlap.ReleasesOne` | libblockverifier/DAG.cpp:105-124 | In a block that does not branch, the out-edge loop releases at most one successor, the one it hands on. |
| `Overlap.OverlapExactly` | libblockverifier/DAG.cpp:100-135 | For every block, state and number of workers: some run has two conflicting transactions both taken and not past consume, if and only if there are two workers and two transactions that no path orders have a common predecessor or a common successor. |
| `Overlap.ForkOverlaps` | libblockverifier/DAG.cpp:105-124 | A concrete block of three transactions on which that happens, with any number of workers from two on. |
| `Uncontended.ConsumeIsUninterruptedRun` | libblockverifier/DAG.cpp:100-135 | The code of consume is a run of one worker: its decrements and pushes, one step each. |
| `Uncontended.TurnIsRun` | libblockverifier/TxDAG.cpp:126-131 | A turn of the inner loop of executeUnit is a run of the step machine. |
| `Uncontended.ExecuteUnit` | libblockverifier/TxDAG.cpp:118-140 | Called alone on a fresh graph it executes every transaction, each on the state the one before it left, ends with the serial world and adds the right count. |
| `BlockVerifier.SerialExecute` | libblockverifier/BlockVerifier.cpp:130-137 | The serial loop: transaction i, executed on the i-th state, gives the next state and the receipt at index i; the first state is the initial and the last one the final state. |
| `BlockVerifier.UpdateSequenceReceiptGas` | libethcore/Block.h:240-248 | The receipts are rewritten in place with running totals modulo 2^256. |
| `BlockVerifier.CumulativeGasIsPrefixSum` | libethcore/Block.h:240-248 | The running total at an index is the sum of the gas up to and including it, and nothing else of a receipt changes. |
| `BlockVerifier.FinishReceipts` | libblockverifier/BlockVerifier.cpp:311-316 | In place: every receipt ends with the gas of all receipts up to it modulo 2^256, the final state root, and otherwise what its execution gave. |
| `BlockVerifier.ReceiptsAgreeExactly` | libblockverifier/BlockVerifier.cpp:156-164 | The post-processing of the two modes gives the same receipts exactly from version 2.2.0 on, or when every receipt has the final state root already. |
| `BlockVerifier.ParallelBlockEqualsSerialBlock` | libblockverifier/BlockVerifier.cpp:255-321 | From version 2.2.0 on a parallel run, whatever its interleaving, gives the same state and the same receipts as the serial loop, which executes each transaction on the state the one before it left; the gas of each final receipt is the prefix sum. |
| `BigEndian.ValueCompact` | libdevcore/CommonData.h:187-201 | The shortest big-endian form has the value it was made from and no leading zero. |
| `BigEndian.ValueJoin` | libdevcore/CommonData.h:153-159 | Bytes in front count 256 times as much for every byte behind them. |
| `BigEndian.CompactValue` | libdevcore/CommonData.h:153-159 | A byte string without a leading zero is the shortest form of its value. |
| `BigEndian.ValueFixed` | libdevcore/CommonData.h:137-159 | A number that fits is read back from a field of given size. |
| `BigEndian.FixedValue` | libdevcore/CommonData.h:137-159 | A field is the fixed-size form of its value. |
| `BigEndian.BytesRequired` | libdevcore/CommonData.h:253-263 | The length of the shortest form. |
| `BigEndian.ToBigEndian` | libdevcore/CommonData.h:137-146 | The array is filled with the low bytes, the rest with zeros. |
| `BigEndian.FromBigEndian` | libdevcore/CommonData.h:153-159 | The value of the bytes. |
| `RlpWriter.WalkIsEncoding` | libdevcore/RLP.cpp:242-371 | For every item tree and every state of the stream, the append calls that walk the tree append its recursive encoding as one item. |
| `RlpBytes.EncodeIsRlp` | libdevcore/RLP.cpp:295-371 | The bytes of an encoding: a byte below 0x80 is itself, short payloads follow 0x80 or 0xc0 plus their length, long ones the length of the length and the length. |
| `RlpWriter.WalkOpenList` | libdevcore/RLP.cpp:249-303 | The elements of a list that was opened before its size was known end as the encoding of the list, closed with its header. |
| `RlpWriter.FreshWalk` | libdevcore/RLP.cpp:295-303 | In a fresh stream the walk of a tree leaves exactly its encoding and no open list. |
| `RlpWriter.StrippedIsCompact` | libdevcore/RLP.cpp:315-322 | Dropping leading zeros gives the shortest form of the number. |
| `RlpWriter.RlpStream.PushInt` | libdevcore/RLP.h:727-734 | The shortest big-endian form is written backwards into room made at the end. |
| `RlpWriter.RlpStream.PushCount` | libdevcore/RLP.cpp:364-371 | The long header: a byte for the size of the length and the length, or an exception when it does not fit. |
| `RlpWriter.RlpStream.InsertHeader` | libdevcore/RLP.cpp:266-288 | The payload is shifted in place and the header put in front of it. |
| `RlpWriter.RlpStream.MakeRoom` | libdevcore/RLP.cpp:274-276 | Bytes in front of the place stay, bytes behind it move up. |
| `RlpWriter.RlpStream.NoteAppended` | libdevcore/RLP.cpp:249-293 | The items still missing are counted down, and lists are closed one after the other as they get complete; too many items, and a list too long for a header, are exceptions that leave the stream as the code has it at that point. |
| `RlpWriter.RlpStream.AppendRaw` | libdevcore/RLP.cpp:242-247 | Raw bytes, counted as the given number of items. |
| `RlpWriter.RlpStream.AppendList` | libdevcore/RLP.cpp:295-303 | A list is opened, or the empty list appended. |
| `RlpWriter.RlpStream.AppendListBytes` | libdevcore/RLP.cpp:305-313 | A list with a given payload is appended as one item. |
| `RlpWriter.RlpStream.Append` | libdevcore/RLP.cpp:315-336 | The encoding of a string is appended as one item, with or without its leading zeros. |
| `RlpWriter.RlpStream.AppendInt` | libdevcore/RLP.cpp:338-362 | The encoding of a number is appended as one item. |
| `RlpWriter.RlpStream.AppendItem` | libdevcore/RLP.cpp:242-371 | The calls that walk a tree append its encoding as one item. |
| `RlpReader.HeadRead` | libdevcore/RLP.cpp:171-227 | The header that the writer makes is read back, up to the limit of the reader, whatever follows it. |
| `RlpReader.HeadWritten` | libdevcore/RLP.cpp:171-227 | A header that the reader accepts is the one that the writer makes. |
| `RlpReader.SizeOfPrefix` | libdevcore/RLP.cpp:120-129 | The size of an item does not depend on what follows it. |
| `RlpReader.EncodedItem` | libdevcore/RLP.cpp:120-227 | Size, payload and kind of an encoded item are found whatever follows it. |
| `RlpReader.StrictlySized` | libdevcore/RLP.cpp:40-58 | Bytes that pass the strict constructor are the header of their payload and the payload. |
| `RlpReader.DecodeEncode` | libdevcore/RLP.cpp:120-227 | Reading the encoding of a tree through every level returns the tree, exactly when its payload is below the limit of the reader. |
| `RlpReader.EncodeDecode` | libdevcore/RLP.cpp:40-86 | Whatever is accepted strictly at every level is the encoding of what was read. |
| `RlpReader.EncodingsUnique` | libdevcore/RLP.cpp:120-227 | No encoding is a proper beginning of another one, and two trees with the same encoding are equal, whatever their size. |
| `RlpReader.AcceptedExactly` | libdevcore/RLP.cpp:40-227 | Exactly the encodings of trees below the limit are accepted. |
| `RlpReader.TooLong` | libdevcore/RLP.cpp:40-58 | An encoding with more bytes behind it is refused as too long. |
| `RlpReader.CutShort` | libdevcore/RLP.cpp:40-86 | An encoding cut inside its header, or before the one byte of a one-byte string, is bad; cut later it is too short. |
| `RlpReader.IntRoundTrip` | libdevcore/RLP.h:375-396 | A number is read back from its encoding, exactly when the target type is wide enough. |
| `RlpReader.NotANumber` | libdevcore/RLP.h:390-415 | A list, or data with a leading zero, is a bad cast to a number. |
| `RlpReader.IntCanonical` | libdevcore/RLP.h:375-396 | An item that reads as a number is the one encoding of that number. |
| `RlpCursor.ItemsOfEncoding` | libdevcore/RLP.cpp:229-240 | A scan of the payload of an encoded list finds the encodings of its elements. |
| `RlpCursor.Rlp.At` | libdevcore/RLP.cpp:88-103 | After any requests, in any order and past the end, the cached lookup returns the item that a fresh scan finds, or null past the end, and throws nothing. |
| `RlpCursor.Rlp.Rewind` | libdevcore/RLP.cpp:90-95 | The cache is at the first item. |
| `RlpCursor.Rlp.Advance` | libdevcore/RLP.cpp:96-101 | The cache is at the next item, or one past the last. |
| `RlpCursor.CountItems` | libdevcore/RLP.cpp:229-240 | The number of items of a fresh scan, or its error. |
| `RlpCursor.Iterator.Forward` | libdevcore/RLP.cpp:60-71 | The view moves to the next item, or behind the last byte. |
| `RlpCursor.Collect` | libdevcore/RLP.h:217-221 | Iteration visits exactly the items of a fresh scan, in order, and stops at the end; an error of the scan is its error. |
| `RlpCursor.ToList` | libdevcore/RLP.cpp:105-118 | The items of a list in order; a bad cast for anything else. |
| `Splitting.ItemAt` | libdevcore/RLP.cpp:88-103 | A scan that starts where item k starts finds item k. |
| `HexPrefix.PrefixedReadBack` | libdevcore/TrieCommon.h:108-123 | The nibbles and the leaf flag are read back from hex-prefix form. |
| `HexPrefix.NibbleAtIsIndex` | libdevcore/TrieCommon.h:29-32 | The nibble at an index is that of the nibble sequence of the bytes. |
| `HexPrefix.NibblesOfByte` | libdevcore/CommonData.h:124-126 | A byte is its first nibble times sixteen and its second one. |
| `HexPrefix.AsNibblesInjective` | libdevcore/CommonData.h:124-126 | Different byte strings have different nibbles. |
| `HexPrefix.PackedIsPrefixed` | libdevcore/TrieCommon.cpp:71-79 | Packing one nibble at a time gives the same form as packing pairs. |
| `HexPrefix.EncodeVector` | libdevcore/TrieCommon.cpp:42-57 | The nibbles of the result are 1 or 3 in front of an odd range, 0 or 2 and a zero in front of an even one, the larger for a leaf, and then the range; its end is counted from the back when it is negative. |
| `HexPrefix.EncodeSlice` | libdevcore/TrieCommon.cpp:59-81 | The same form of a range of the nibbles of a byte string behind an offset. |
| `HexPrefix.EncodeTwoSlices` | libdevcore/TrieCommon.cpp:83-114 | The same form of the rest of two byte strings one after the other. |
| `TrieLayout.SharedByAll` | libdevcore/TrieHash.cpp:42-53 | All entries agree on the shared prefix, and one of them agrees with the first no further. |
| `TrieNodes.LayoutIsTrie` | libdevcore/TrieHash.cpp:30-99 | The layout of entries is a trie of them: leaves, extensions over the nibbles that all keys share, branches with sixteen children and the value that ends there; a child of fewer than 32 bytes stands in its parent itself, any other by its hash. |
| `TrieNodes.BucketExactly` | libdevcore/TrieHash.cpp:62-76 | A child of a branch gets exactly the entries with its nibble. |
| `TrieLayout.BucketAgrees` | libdevcore/TrieHash.cpp:67-78 | The entries of one slot of a branch agree on one nibble more. |
| `TrieLayout.SlotAt` | libdevcore/TrieHash.cpp:67-78 | A slot of a branch is that of the entries with its nibble. |
| `TrieLookup.LookupFinds` | libdevcore/TrieHash.cpp:27-99 | From the node of any set of entries, following paths and hashes finds exactly the entries. |
| `TrieLookup.LookupExtension` | libdevcore/TrieHash.cpp:54-59 | Below an extension exactly the keys that go on with its path are found. |
| `TrieLookup.LookupBranch` | libdevcore/TrieHash.cpp:60-83 | In a branch a key is found in the slot of its next nibble, or in the value slot. |
| `TrieLookup.TrieIsMap` | libdevcore/TrieHash.cpp:101-112 | Looking up a key from the root is looking it up in the map. |
| `TrieLookup.RootCommits` | libdevcore/TrieHash.cpp:101-117 | Two maps of non-empty values with the same root bytes, and their nodes in one database, are equal. |
| `TrieLookup.ExtensionLeadsToBranch` | libdevcore/TrieHash.cpp:54-59 | Every extension leads to a branch. |
| `TrieLookup.BranchHasTwo` | libdevcore/TrieHash.cpp:60-83 | Every branch has at least two occupied slots, if no value is empty. |
| `TrieLookup.NodesStored` | libdevcore/TrieHash.cpp:87-99 | A database with every node that is referred to by hash holds all that a lookup needs. |
| `TrieHash.SharedPrefix` | libdevcore/TrieHash.cpp:42-53 | The loop finds how many nibbles all entries share. |
| `TrieHash.RunEnd` | libdevcore/TrieHash.cpp:69-72 | The run of neighbouring entries is exactly the set of entries with the nibble of the slot. |
| `TrieHash.Hash256Aux` | libdevcore/TrieHash.cpp:87-99 | A child shorter than a hash is inlined, any other one replaced by its hash. |
| `TrieHash.Hash256Rlp` | libdevcore/TrieHash.cpp:27-85 | Into a fresh stream exactly the bytes of the layout are written, and no list is left open; the recursion ends. |
| `TrieHash.WriteExtension` | libdevcore/TrieHash.cpp:54-59 | An extension is written as its path and its child. |
| `TrieHash.WriteBranch` | libdevcore/TrieHash.cpp:60-83 | A branch is written slot by slot, and its value last. |
| `TrieRoot.DatabaseServes` | libdevcore/TrieHash.cpp:87-99 | If the hash tells the nodes of a map apart, the nodes under their hashes are a database that serves lookups in its trie. |
| `TrieRoot.Insert` | libdevcore/TrieHash.cpp:107-108 | An entry with a new key goes to its place in the order of the keys. |
| `TrieRoot.HexMap` | libdevcore/TrieHash.cpp:106-108 | The map keyed by nibbles: every entry once, in the order of the keys. |
| `TrieRoot.Rlp256` | libdevcore/TrieHash.cpp:101-112 | The bytes of the root node of a trie of the map; with its nodes in a database, looking up any key from them is looking it up in the map. |
| `TrieRoot.RootHashCommits` | libdevcore/TrieHash.cpp:101-117 | Two maps of non-empty values with the same root hash are equal, if the hash tells their nodes and roots apart. |
| `MerkleTree.GetHash256` | libdevcore/TrieHash2.cpp:40-76 | The level-by-level loop computes the root, the hash of the empty string for no leaves. |
| `MerkleTree.RootIs` | libdevcore/TrieHash2.cpp:40-76 | The root is the hash of nothing, of a single node, or the root of the level above, whose nodes are the hashes of sixteen or fewer nodes joined in order. |
| `MerkleTree.HigherLevel` | libdevcore/TrieHash2.cpp:53-74 | One round gives the next level, in whatever order its nodes are hashed. |
| `MerkleTree.TowerRoot` | libdevcore/TrieHash2.cpp:51-75 | The last level of the tower of a list of leaves is its root. |
| `MerkleProof.BuildParents` | libdevcore/TrieHash2.cpp:78-125 | If no two nodes are equal, the map has exactly the children of every node above the leaves. |
| `MerkleProof.AddLevel` | libdevcore/TrieHash2.cpp:90-121 | One round adds the entries of one level, in whatever order they are written. |
| `MerkleProof.ParseMerkleMap` | libblockchain/BlockChainImp.cpp:1060-1081 | In whatever order the threads write, every child but the empty string gets one of its parents, and nothing else gets one. |
| `MerkleProof.ParentOf` | libblockchain/BlockChainImp.cpp:1060-1081 | A child in the map is a node below the root, and its parent is the node above it. |
| `MerkleProof.WalkUp` | libblockchain/BlockChainImp.cpp:1083-1113 | The walk ends; for a node of the tree, hashing left part, node and right part step by step yields the root exactly if the node is not the empty string; for anything else the proof is empty. |
| `MerkleProof.ProveTransaction` | libblockchain/BlockChainImp.cpp:1060-1113 | If no two nodes of the tree are equal, the proof of a leaf that is not empty, through both maps, hashes to the root that getHash256 computes. |
| `TransactionProof.LeavesDiffer` | libethcore/Block.cpp:197-205 | No leaf is the empty string, and leaves are equal exactly when index and hash are. |
| `TransactionProof.MakeLeaves` | libethcore/Block.cpp:193-207 | For every index a leaf that starts with an item read as that index and ends with the hash of the transaction, in whatever order they are made. |
| `TransactionProof.CalTransactionRoot` | libethcore/Block.cpp:186-214 | The transactions root is the root over those leaves. |
| `TransactionProof.GetTransactionProof` | libethcore/Block.cpp:216-244 | The proof for a transaction of a block hashes, from its leaf, to the transactions root of the block, if no two nodes of the tree are equal. |
| `AbiFormat.StaticLength` | libethcore/ABI.h:146-165 | A static value takes as many words as its type says. |
| `AbiWords.EncodeSpells` | libethcore/ABI.cpp:80-129 | The bytes of a value by its type: numbers and truth values as one word, addresses behind twelve zeros, strings as length, text and zeros up to a multiple of 32, arrays as elements or as offsets and elements. |
| `AbiWords.ArgumentsSpelled` | libethcore/ABI.h:309-387 | The arguments: static ones and offsets in the fixed part, the dynamic ones behind it where the offsets say, in order and with nothing in between. |
| `AbiReader.DecodeAt` | libethcore/ABI.h:443-491 | A value of any type is read back from wherever its encoding stands; signed numbers are read through the sign test. |
| `AbiReader.DecodeWord` | libethcore/ABI.cpp:131-176 | What any word is read as: numbers by value, signed ones through the sign test, every other word than zero as true, the last twenty bytes as address. |
| `AbiReader.NoWord` | libethcore/ABI.cpp:131-176 | A word that is not all there is an error. |
| `AbiReader.DecodeString` | libethcore/ABI.cpp:178-186 | A string is read as the bytes its length says, or is an error if they are not there. |
| `AbiReader.ReadAsItself` | libethcore/ABI.cpp:131-147 | A value is read as itself exactly when every signed number in it is at least -7 * 2^252 and below 9 * 2^252. |
| `AbiReader.DynamicLocated` | libethcore/ABI.h:474-490 | Dynamic elements are found through their offsets. |
| `AbiReader.StaticLocated` | libethcore/ABI.h:446-462 | Static elements are found one after the other. |
| `AbiCodec.RoundTrip` | libethcore/ABI.h:309-347 | For every list of types and values, reading the arguments back succeeds, and returns them exactly when their signed numbers are in that range. |
| `AbiCodec.FixedLength` | libethcore/ABI.h:167-196 | The fixed part has the words of its types. |
| `AbiCodec.PartsLocated` | libethcore/ABI.h:330-347 | Static arguments are in their slots, dynamic ones where their slots point. |
| `ContractAbi.Serialise` | libethcore/ABI.cpp:80-129 | The bytes of a value of any type, as the specification has them. |
| `ContractAbi.SerialiseElements` | libethcore/ABI.h:396-441 | The loop over the elements of an array: offsets if they are dynamic, then the elements. |
| `ContractAbi.Deserialise` | libethcore/ABI.cpp:131-186 | What decoding of any type at an offset gives, the length errors included. |
| `ContractAbi.DeserialiseElements` | libethcore/ABI.h:443-491 | The loop over the elements of an array, up to the first error. |
| `ContractAbi.ContractABI.AbiInAux` | libethcore/ABI.h:309-326 | Arguments are appended to the fixed part, dynamic ones by their offset there and themselves to the dynamic part. |
| `ContractAbi.ContractABI.AbiIn` | libethcore/ABI.h:376-387 | The arguments as the specification has them, behind the first four bytes of the hash of the signature if there is one. |
| `ContractAbi.ContractABI.AbiOut` | libethcore/ABI.h:330-364 | The decoded arguments, or false if anything was thrown. |
| `ContractAbi.InAndOut` | libethcore/ABI.h:350-387 | abiOut on the output of abiIn succeeds, and returns the values exactly when their signed numbers are in range. |
| `TreeShape.RangeExactly` | libdevcore/TreeTopology.cpp:98-136 | The selected children are exactly the live positions that are reached with nothing alive in between. |
| `TreeShape.SelectedExactly` | libdevcore/TreeTopology.cpp:98-176 | A position is selected by a live one exactly when that is the nearest live position above it. |
| `TreeShape.SelectedOnce` | libdevcore/TreeTopology.cpp:98-136 | No position is selected twice. |
| `TreeFlood.FloodKeeps` | libdevcore/TreeTopology.cpp:98-136 | In whatever order messages are delivered, there is one copy for each position whose selector has the message, and none for others. |
| `TreeFlood.FloodCovers` | libdevcore/TreeTopology.cpp:98-136 | When nothing is in flight any more, every live position has got the message exactly once. |
| `TreeFlood.FloodEnds` | libdevcore/TreeTopology.cpp:98-136 | There are at most as many deliveries as positions. |
| `TreeTopology.RotateBack` | libdevcore/TreeTopology.cpp:178-193 | Rotating the position of a node gives the node, for every start index. |
| `TreeTopology.UnrotateBack` | libdevcore/TreeTopology.cpp:85-88 | The position of the node at a rotated position is that position. |
| `TreeTopology.TreeTopology.GetNodeIndexByNodeId` | libdevcore/TreeTopology.cpp:54-67 | The index of the first occurrence, or -1. |
| `TreeTopology.TreeTopology.UpdateConsensusNodeInfo` | libdevcore/TreeTopology.cpp:27-46 | The indices follow the list of consensus nodes. |
| `TreeTopology.TreeTopology.RecursiveSelectChildNodes` | libdevcore/TreeTopology.cpp:98-136 | The live positions below are appended in order; the recursion ends. |
| `TreeTopology.TreeTopology.SelectParentNodes` | libdevcore/TreeTopology.cpp:147-176 | The nearest live position above is appended, or all of them. |
| `TreeTopology.TreeTopology.SelectNodes` | libdevcore/TreeTopology.cpp:195-226 | What a consensus node sends to. |
| `TreeTopology.TreeTopology.SelectParent` | libdevcore/TreeTopology.cpp:228-243 | What a consensus node gets from. |
| `TreeTopology.ChildExactlyOfParent` | libdevcore/TreeTopology.cpp:85-243 | Among consensus nodes, b is selected by the live node a exactly when b is alive and a is the parent that b selects, although neither counts itself. |
| `TreeTopology.GetsAllAbove` | libdevcore/TreeTopology.cpp:147-176 | When all parents are asked for, they are exactly the peers above. |
| `TreeTopology.LiveAboveOrdered` | libdevcore/TreeTopology.cpp:147-176 | They are listed from the nearest to the root. |
| `TreeTopology.RotatedInCircle` | libdevcore/TreeTopology.cpp:85-88 | The start node is at position 0, and neighbouring positions hold neighbouring nodes in a circle. |
| `ChainCommit.StepKeeps` | libblockchain/BlockChainImp.cpp:1525-1603 | Every step of every committer keeps the invariant: a chain in the storage, one thread in the lock, and no number read too low. |
| `ChainCommit.RunKeeps` | libblockchain/BlockChainImp.cpp:1538-1603 | The invariant holds after every run of any number of committers. |
| `Broadcast.BroadcastIsFlood` | libdevcore/TreeTopology.cpp:98-136 | A broadcast in which every node sends to what it selects is, position by position, a flood of the tree. |
| `Broadcast.BroadcastAtMostOnce` | libdevcore/TreeTopology.cpp:85-226 | When every node sends to what it selects for its own peers, no node gets the message twice and no node that is not alive gets it, in any order of deliveries. |
| `Broadcast.BroadcastReachesAll` | libdevcore/TreeTopology.cpp:85-226 | When no message is left in flight, every live consensus node has got it exactly once, for any width, any start index, any live nodes with the start node among them, and any order of deliveries. |
| `ChainCommit.EveryRunCommitsAChain` | libblockchain/BlockChainImp.cpp:1538-1603 | For every interleaving each height is committed at most once, each committed block names the hash stored one height below, the stored total and the stored blocks are those of the committed blocks, and the threads whose commit was accepted have committed exactly these blocks, one each. |
| `ChainCommit.UninterruptedCall` | libblockchain/BlockChainImp.cpp:1527-1603 | From every reachable state with the lock free, a call that no other thread interrupts is answered OK and its block appended if and only if the block has the next height, names the hash at the current one and the storage accepts; otherwise the error says which failed first, and nothing is written. |
| `ChainCommit.AnswerAtTheLock` | libblockchain/BlockChainImp.cpp:1561-1603 | A thread that gets the lock, whatever the others did since it checked its block, is turned away with the parent error if the height has moved on, and otherwise commits. |
| `ChainCommit.WriteKeeps` | libblockchain/BlockChainImp.cpp:1348-1401 | A commit that the storage accepts extends the chain by one block and adds its transactions to the total; one that it refuses changes nothing. |
| `ChainCommit.ChainInStore` | libblockchain/BlockChainImp.cpp:1470-1484 | The storage has every committed block at its height, and below it the hash that the block names. |
| `ChainCommit.OneInside` | libblockchain/BlockChainImp.cpp:1562-1603 | Two threads are never both behind the lock. |
| `BlockCache.AddedFits` | libblockchain/BlockChainImp.cpp:56-89 | Adding keeps at most eleven blocks, all of them in the queue, also when one hash is added again and again and when the cache is cleared. |
| `BlockCache.AddedKeeps` | libblockchain/BlockChainImp.cpp:56-89 | When a block is added, everything stays up to ten blocks; with eleven, everything but the oldest hash, or nothing if that one was gone. |
| `BlockCache.Cache.Add` | libblockchain/BlockChainImp.cpp:56-89 | The oldest hash is dropped when the map is full, the whole cache if that did not help, and the block is entered unless its hash is there. |
| `BlockCache.Cache.GetBlock` | libblockchain/BlockChainImp.cpp:198-256 | The block that the storage holds under a hash, or none; a hit leaves the cache as it is, a miss that is stored is in it afterwards. |
| `BlockCache.HappensGood` | libblockchain/BlockChainImp.cpp:56-106 | Every step of a commit or of a read by another thread keeps the cache in shape and within the storage, and the answers right. |
| `BlockCache.CacheInvisible` | libblockchain/BlockChainImp.cpp:198-256 | For every interleaving of the steps of commits and reads, the block that a read by hash answers is the one that the storage has at the return, it answers none only if there was none at the call, and the cache has at most eleven blocks, all in the queue. |
| `BlockCache.UninterruptedRead` | libblockchain/BlockChainImp.cpp:198-256 | A read that no other thread interrupts answers from the cache without changing it, or from the storage and enters the block. |
| `BlockCache.UninterruptedCommit` | libblockchain/BlockChainImp.cpp:1541-1610 | After a commit that no other thread interrupts its block is in the storage and in the cache. |
| `ChannelFraming.DecodeEncode` | libchannelserver/ChannelMessage.h:70-115 | A message is decoded from its encoding, whatever follows it. |
| `ChannelFraming.EncodeIsFrame` | libchannelserver/ChannelMessage.h:70-92 | The bytes of a message: total length, type, sequence and result in big-endian fields of 4, 2, 32 and 4 bytes, and the data. |
| `ChannelFraming.DecodePrefix` | libchannelserver/ChannelMessage.h:87-115 | What is decoded does not change when more bytes come in. |
| `ChannelFraming.DeliveredJoin` | libchannelserver/ChannelSession.cpp:245-276 | Two reads deliver what one read of both delivers, and leave the same bytes. |
| `ChannelFraming.AllDelivered` | libchannelserver/ChannelSession.cpp:245-276 | From the encodings of messages exactly the messages are delivered, and nothing is left. |
| `ChannelFraming.ChannelSession.AppendMessage` | libchannelserver/ChannelMessage.h:70-84 | The encoding is appended to the buffer. |
| `ChannelFraming.ChannelSession.OnRead` | libchannelserver/ChannelSession.cpp:230-276 | After every read the messages that are complete are delivered and the rest is kept; the loop ends. |
| `ChannelFraming.ChannelSession.OnReads` | libchannelserver/ChannelSession.cpp:230-276 | However the encodings of messages are cut into reads, exactly the messages are delivered in order and the buffer is empty. |
| `PartiallyBlock.PartiallyBlock.CalTxsHashBytes` | libethcore/PartiallyBlock.cpp:53-65 | The hash of every transaction at its index, in whatever order they are computed. |
| `PartiallyBlock.PartiallyBlock.EncodeProposal` | libethcore/PartiallyBlock.cpp:29-51 | The proposal announces the hash of every transaction at its index. |
| `PartiallyBlock.PartiallyBlock.DecodeProposal` | libethcore/PartiallyBlock.cpp:67-88 | As many slots as announced hashes, or an exception when the block hash is not that of the header. |
| `PartiallyBlock.PartiallyBlock.FetchMissedTxs` | libethcore/PartiallyBlock.cpp:181-235 | Answered exactly when number and hash are right and every requested transaction has the requested hash, with those transactions in order. |
| `PartiallyBlock.PartiallyBlock.FillBlock` | libethcore/PartiallyBlock.cpp:90-160 | A response is accepted exactly when it has the missing transactions; then every slot has the announced transaction. A rejected one puts no other transaction into any slot, and slots that were not missing stay. |
| `PartiallyBlock.FillOne` | libethcore/PartiallyBlock.cpp:143-159 | Filling a missed slot with a transaction of the requested hash leaves every filled slot as announced. |
| `PartiallyBlock.Exchange` | libethcore/PartiallyBlock.cpp:29-235 | Proposal, request, response and fill: the exchange succeeds, and every slot of the follower has a transaction of the hash that the leader has there. |

## Left out

- Transactions themselves, state and table storage: a transaction is an abstract function on a state, storage a set of maps with an atomic commit that may fail.
- Timing: the 10 ms wait, the timeout warning and the exit request of the process; a wait that times out is an idle step.
- TxDag.Dag.AddEdge: in-degrees are unbounded numbers; the source counts them modulo 2^32.
- TxDag.Dag.WaitPop: one attempt to pop; waiting is repetition of the attempt.
- DAG::clear does not empty the queue; the model has one graph per block, as the block verifier does.
- RlpFormat.Encode: items whose encoding would not fit into 2^64 bytes are excluded, as no buffer can hold them.
- RlpWriter.RlpStream.AppendInt: numbers are not negative; the source writes nothing meaningful for negative ones.
- RlpCursor.Rlp.At: stated for payloads that a scan can read to the end; how far the cache gets in a malformed payload before it throws is not modelled.
- RlpCursor.ToList: for objects whose size was checked when they were made, as the default flags do.
- The conversions of RLP items other than to lists and numbers: they only add easy members.
- orderedTrieRoot, sharedNibbles, isEarlierThan and the reading of nodes with uniqueInUse: they add no harder property than those above.
- TrieLayout.Sized: keys have fewer than 2^31 nibbles, since hash256rlp takes their lengths as int.
- AbiReader.Decode: a read whose offset wraps around the end of the address space leaves the target as it was, which the model takes to be zero; exhaustion of memory by a huge length field is not modelled.
- abiOutByFuncSelector: a list of four types decoded like any other.
- The observer branch of TreeTopology::selectNodes: it passes the start index both as tree position and as rotation.
- TreeTopology.TreeTopology.SelectNodes: start indices are not negative and the width is at least one; the source divides by the width.
- TreeTopology.TreeTopology.SelectParent: start indices are not negative, as for SelectNodes.
- ChainCommit.EveryRunCommitsAChain: the six tables are written by one atomic commit, so how their writes are spread over threads does not matter; the failed-transaction total, nonces and headers are written in the same way and are left out.
- BlockCache.CacheInvisible: a hash belongs to one block, so the storage never replaces a block; decoding a stored block gives the block that was stored.
- ChannelFraming.Decode: a length field below the size of the header is undefined in the source; the model stops there.
- PartiallyBlock.PartiallyBlock.FetchMissedTxs: requested indices are in range; the source takes that for granted.
- The bytes of proposals, requests and responses: messages are given by their contents; the RLP modules cover their encoding, and the encoding of transactions is taken to be invertible.
- The consensus engine, the transaction pool, block synchronisation, networking, RPC and cryptographic primitives.
