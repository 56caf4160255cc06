# Verified model of the PoC 6 node's core

A Dafny model of the parts of this Ethereum node that hold its state and move it forward: the hash-addressed
Merkle-Patricia trie with its write-back cache, the RLP codec beneath it, account storage and the world state with
snapshots, the transaction and block transition, the virtual machine, the bloom-indexed message filter, the wire
framing, the event reactor and the mnemonic codec. `dafny verify dfyconfig.toml` checks the whole project.

The main results, each for all inputs or all runs:

- **A trie is a map with a save point.** Any run of Update, Get, Sync and Undo on one trie, with keys of any lengths,
  answers as a plain map would (`Runs.Drive`). Runs may also delete, if the keys have one length: Sync still changes no
  answer, Undo still restores the last Sync, and only a deletion can lose other keys, which it never does among values
  of 32 bytes or more (`Runs.DriveEvenly`). Two runs of updates end in equal roots exactly when they leave equal
  bindings (`Runs.TwoRuns`), so the order in which accounts are flushed cannot show. A copy shares the database with a
  trie that goes on with any such run, and still answers as at the copy (`Runs.CopyIsolated`).
- **What Delete loses.** Where a branch collapses onto an extension, the code reads the extension's child with `Str()`,
  which drops a child stored inline. `Deletion.RemovalKeepsExactly` gives the exact condition under which a deletion
  keeps the other bindings, whichever empty slots are recognised; `Deletion.DeleteKeepsExactly` is the case of a
  canonical trie in memory, and `Deletion.DeleteCanLose` a trie on which a key is lost. Storage cells are short values,
  so setting a cell to 0 can lose other cells: `Storage.ZeroCellExactly` says when, `Storage.SyncCanLose` shows three
  cells of which two are lost.
- **Write-back.** State.Update and State.Sync on real tries over one database, then a state opened at the new root:
  every account reads as it was cached, with its nonce, balance, code and cells, up to the exact conditions on each
  (`Account.WriteBackAndReopen`).
- **What each opcode answers** is stated for its number and a stack written out, without the functions the machine
  computes with: arithmetic by congruence, quotient and remainder, gates bit by bit, PUSH, DUP, SWAP and jumps, memory
  byte by byte, CALL and CREATE by their operands, and every fee (`Opcodes`).
- **Iteration and ParanoiaCheck.** Each calls back once per binding; the rebuilt copy has the same bindings, and
  ParanoiaCheck is true exactly for canonical tries (`Paranoia.ParanoiaCheck`).
- **RLP** is decoded in any context to what was encoded and is prefix-free; re-encoding is exact exactly when no string
  is the single byte 0 (`Rlp.ReencodeExact`). What is written, and what the parser makes of any bytes, is given by
  position (`Layout`), as are the hex-prefix form of paths, the account record and the frames of the wire.
- **Snapshots isolate.** Whatever a frame does, also through pointers it still holds, Set(snapshot) restores every read
  (`Snapshot.RunFrame`).
- **Ether is conserved** by every transaction to code-less recipients and by every failing call, for any coincidence of
  sender, recipient and coinbase (`Transition.NetEffect`, `Transition.SettleConserves`), and a block adds exactly its
  rewards (`Block.ProcessBlock`). How a transaction ends is decided exactly by the sender's account, the pool and the
  recipient's code (`Transition.OutcomeExactly`), and a block is accepted exactly if every receipt has the root of the
  trie that reads as the accounts after its transaction (`Block.ProcessTransactions`). A failed call pays for all the gas it bought: `Set` detaches the objects that the
  deferred refund then credits.
- **The machine keeps its books.** One turn of the machine's loop is a function, with its arithmetic, jumps, memory and
  fees; every run of the loop ends, and what it returns, leaves and forfeits is that of a history of such turns
  (`Interpreter.RunClosure`). Over every history gas is only moved or burnt (`Vm.GasConserved`), fees, turns and nesting
  depth are bounded by the gas bought (`Vm.FeesBounded`, `Vm.StepsBounded`, `Vm.TurnsBounded`, `Vm.DepthBounded`), and
  a frame's memory fees are its memory in words, as long as operands are small (`Vm.MemoryTelescopes`).
- **The index agrees with the scan** exactly when the listed ends are visible to it (`Filter.IndexExact`), **frames**
  parse back from any stream (`Wire.StreamRoundTrip`), **events** arrive in post order in every interleaving
  (`Reactor.OrderedDelivery`), a channel is unsubscribed without a panic exactly when no two entries for it are adjacent
  and it is last only alone (`Reactor.RemoveExactly`), and **mnemonics** decode to what was encoded exactly for 64
  lower-case hex digits and for nothing at all (`Mnemonic.RoundTripExactly`).

How the model is cut:

- Hash functions are parameters. An `Env` lists the strings that are stored under their hashes, and `Merkle.Tame` asks
  that the hash function give at least 32 bytes for each and not collide among them. `Fits`, `Removable`, `RunFits`,
  `Rebuildable`, `StoreFits` and `PlanFits` say that the nodes an operation can make are among those strings; for runs,
  whichever way their deletions go. The list is finite. `Hypothesis.OneWrite`, `Hypothesis.TwoWrites` and
  `Hypothesis.OneAccount` meet the assumptions for 32-byte hashes and keys of any length; the last two exactly if the
  hashes of the strings at hand differ.
- `big.Int` is `int`; machine widths, wrap-around and the sign rules of `Int64` and `Uint64` are written out where they
  matter. Panics are modelled as results. Addresses are taken as `ethutil.Address` leaves them.
- The world state of the transition modules holds its trie as the map of its bindings. `Runs.DriveEvenly` justifies this
  for keys of one length and records of 32 bytes or more, which account records are (`Account.RecordLong`), and
  `Runs.CopyIsolated` justifies it for copies. Storage tries, whose values are short, are trees there, and a deletion in
  them goes any of the ways that the cache and the database can make it go.
- What a turn of the virtual machine gets from outside (the environment, world state and hashes, the code of a callee,
  whether an account can pay, the rounded maximum of two numbers beyond 2^53) is an `Oracle`; the claims hold for every
  one.
- Where comments and code disagree the code is followed: `skip` in Find has no effect because its loop tests `i < i`;
  code of a single byte never executes; `DUP` and `SWAP` count from the bottom of the stack; a failed message call
  leaves the value with the recipient and keeps the gas; `IsGasLimitErr` of ethchain never recognises the error that
  ethstate returns, so a transaction above the pool is handled like any other failure.

## Model

| member | source | states |
|---|---|---|
| `Runs.Drive` | ethtrie/trie.go:174-242 | any sequence of Update, Get, Sync and Undo gives the answers of a map with a saved copy, and ends with that map; keys may be prefixes of one another, and canonical tries stay canonical |
| `Runs.DriveEvenly` | ethtrie/trie.go:174-242 | the same with Delete among the calls, for keys of one length, whether or not nodes were reloaded: each answer is that of the map of the moment, Sync changes no map, Undo restores the last synced one, and only a deletion can lose other keys; among values of 32 bytes or more it loses none |
| `Runs.TwoRuns` | ethtrie/trie.go:174-216 | two runs of updates on new tries over one database reach equal roots if and only if they leave equal bindings |
| `Runs.CopyIsolated` | ethtrie/trie.go:224-231 | a copy keeps its bindings and root while the trie it was taken from goes on with any run of Update, Delete, Get, Sync and Undo over the same database |
| `Runs.RootIsBindings` | ethtrie/trie.go:174-216 | two canonical tries over any caches and databases have equal roots if and only if they have equal bindings |
| `Trie.Trie.constructor` | ethtrie/trie.go:162-169 | a new trie binds nothing and satisfies the invariant over any database in which what is stored under a listed string's hash is that string |
| `Trie.Trie.Open` | ethtrie/trie.go:162-169 | a trie opened at a root answers for the bindings that the database holds under it |
| `Trie.Trie.Copy` | ethtrie/trie.go:224-231 | a trie with a cache of its own over the same database, with the same root and bindings |
| `Trie.Trie.Undisturbed` | ethtrie/trie.go:224-237 | what other tries add to a shared database changes no answer, and not the last Sync |
| `Trie.Trie.Get` | ethtrie/trie.go:191-199 | returns the value bound to the key, or the empty string |
| `Trie.Trie.GetState` | ethtrie/trie.go:248-276 | the lookup through hashed and inlined nodes finds what the tree binds, and only fills the cache |
| `Trie.Trie.GetNode` | ethtrie/trie.go:278-295 | following a reference opens the node it stands for |
| `Trie.Trie.Update` | ethtrie/trie.go:174-189 | binds the key and leaves every other binding and the last Sync alone; the tree afterwards is the one with the key inserted |
| `Trie.Trie.InsertState` | ethtrie/trie.go:323-339 | the item returned stands for the tree with the key inserted; nodes reachable before stay reachable |
| `Trie.Trie.InsertShort` | ethtrie/trie.go:338-375 | replacing a value, descending and splitting a two-item node all give the inserted tree |
| `Trie.Trie.Expand` | ethtrie/trie.go:356-366 | the 17-item node where two paths part holds both rests in their slots |
| `Trie.Trie.InsertBranch` | ethtrie/trie.go:376-391 | copying a branch and replacing one slot gives the inserted tree |
| `Trie.Trie.Delete` | ethtrie/trie.go:201-216 | unbinds the key, invents and changes no binding; loses no other exactly if the collapses on the way keep them, never among long values, and in a canonical trie in memory exactly if no collapse meets an inline child, when the trie stays canonical |
| `Trie.Trie.DeleteState` | ethtrie/trie.go:396-412 | the item returned stands for the tree that deletion as coded leaves, given which branches it found with a single occupied slot |
| `Trie.Trie.DeleteShort` | ethtrie/trie.go:414-446 | dropping a leaf or joining two two-item nodes gives that tree |
| `Trie.Trie.DeleteBranch` | ethtrie/trie.go:447-489 | deleting in a slot, counting and collapsing gives that tree |
| `Trie.CountSlots` | ethtrie/trie.go:459-469 | the counting loop gives the one slot that is not the empty string, -1 for none, -2 for several |
| `Trie.Trie.Sync` | ethtrie/trie.go:234-237 | the database takes over and only gains entries, no answer changes even when the cache is emptied, and the save point moves here |
| `Trie.Trie.Undo` | ethtrie/trie.go:239-242 | bindings and root are those of the last Sync |
| `Trie.Trie.Each` | ethtrie/trie.go:575-615 | the calls are exactly the bindings, each key once, with original keys and values |
| `Trie.Trie.IterateNode` | ethtrie/trie.go:583-615 | iterating below a node calls back for the entries of its tree in order |
| `Trie.Cache.PutValue` | ethtrie/trie.go:65-79 | nodes of 32 bytes or more, or forced, are stored dirty under their hash; shorter ones are returned as they are |
| `Trie.Cache.Get` | ethtrie/trie.go:85-99 | a miss is loaded from the database and kept clean; a hit changes nothing |
| `Trie.Cache.Commit` | ethtrie/trie.go:107-126 | every dirty node is written and cleaned, and a cache of more than 200 nodes is emptied, others keep all their nodes |
| `Trie.Cache.Undo` | ethtrie/trie.go:128-135 | exactly the dirty nodes are dropped |
| `Merkle.CommitAgrees` | ethtrie/trie.go:107-126 | after Commit every node is fetched as before, from cache and database and from the database alone |
| `Merkle.UndoAgrees` | ethtrie/trie.go:128-135 | after Undo every node is fetched as the database has it |
| `Merkle.PutSits` | ethtrie/trie.go:65-83 | what Put returns is what a parent stores for the node, and it can be followed |
| `Tree.LookupInsert` | ethtrie/trie.go:323-394 | after an insertion the key finds the new value and every other key what it found before |
| `Tree.InsertCanonical` | ethtrie/trie.go:323-394 | insertion keeps the canonical form |
| `Tree.CanonicalUnique` | ethtrie/trie.go:323-394 | two canonical trees with the same bindings are equal |
| `Bindings.BuildRepresents` | ethtrie/trie.go:174-189 | any sequence of updates binds the last value given to each key |
| `Bindings.BuildOrderFree` | ethstate/state.go:192-202 | two sequences of updates with the same outcome build the same tree |
| `Bindings.EntriesExact` | ethtrie/trie.go:583-615 | the entries of a tree are exactly its bindings, without repetition |
| `Bindings.RebuildFromEntries` | ethtrie/trie.go:15-26 | inserting the entries of a trie into an empty one gives the same bindings, and the same tree if it was canonical |
| `Paranoia.ParanoiaCheck` | ethtrie/trie.go:15-26 | the copy is canonical and binds the same, and the check is true if and only if the original was canonical |
| `Hypothesis.OneWrite` | ethtrie/trie.go:65-79 | under any 32-byte hash a key of any length can be written and deleted: the assumptions about the trie's strings are met |
| `Hypothesis.TwoWrites` | ethtrie/trie.go:65-79 | for two keys that part at once they are met if and only if no two of the nodes made have one hash |
| `Hypothesis.OneAccount` | ethstate/state.go:57-63 | a new account with one cell can be written back under any 32-byte hash that does not collide on its code, the node of its storage and the node of its record |
| `Hypothesis.FitsExactly` | ethtrie/trie.go:65-79 | a tree fits an environment if and only if the encodings of its nodes are listed and no value is the single byte 0 |
| `Commitment.RootCommits` | ethtrie/trie.go:65-83 | two tries in play have the same root if and only if they are the same |
| `Commitment.SameRootSameBindings` | ethtrie/trie.go:174-189 | canonical tries have the same root if and only if every key finds the same |
| `Commitment.LeafRoot` | ethtrie/trie.go:323-339 | the root of a trie with one key is the hash of the two-item list of 0x20 with the key, and the value |
| `Commitment.ForkRoot` | ethtrie/trie.go:338-375 | the root of a trie with two one-byte keys that part at once is the hash of the 17-item list with a leaf in each of two slots, inline below 32 bytes and hashed from there on |
| `Removal.LookupRemove` | ethtrie/trie.go:396-490 | deletion that recognises every empty slot takes away one key and nothing else |
| `Removal.RemoveCanonical` | ethtrie/trie.go:396-490 | such a deletion keeps the canonical form |
| `Removal.RemoveUndoesInsert` | ethtrie/trie.go:396-490 | deleting a key just inserted gives back the very tree there was before |
| `Deletion.DeleteKeepsExactly` | ethtrie/trie.go:447-489 | in memory, deletion as coded keeps the other bindings of a canonical trie if and only if no collapse on the way meets an extension over an inline child |
| `Deletion.RemovalKeepsExactly` | ethtrie/trie.go:447-489 | for any tree, reloaded or not and canonical or not, and whichever single occupied slots the deletion finds, it keeps the other bindings if and only if none of its collapses cuts off a child that binds something |
| `Deletion.RemoveByLoses` | ethtrie/trie.go:396-490 | whichever way a deletion goes, the key is gone, and every other key finds what it found before or nothing |
| `Deletion.ReloadedKeeps` | ethtrie/trie.go:459-469 | where every empty slot came back from the database, nothing collapses and nothing is lost |
| `Deletion.DeleteCanLose` | ethtrie/trie.go:476-479 | a concrete trie on which deleting one key loses another |
| `Deletion.ThickKeeps` | ethtrie/trie.go:476-479 | with values of 32 bytes or more no collapse can lose anything |
| `Deletion.FixedLengthGuarded` | ethtrie/trie.go:424 | in a canonical trie with keys of one length the slice key[:len(k)] is always in range |
| `Deletion.LevelGuarded` | ethtrie/trie.go:424 | the same for any trie, canonical or not, whose paths fit one key length |
| `Deletion.InsertKeeps` | ethtrie/trie.go:323-394 | insertion keeps keys of one length and values long |
| `HexPrefix.CompactRoundTrip` | ethtrie/encoding.go:9-48 | CompactDecode undoes CompactEncode on every path, with or without terminator |
| `HexPrefix.KeyPathLayout` | ethtrie/encoding.go:50-61 | the high half of each byte, the low half, and 16 at the end |
| `HexPrefix.CompactLayout` | ethtrie/encoding.go:9-33 | the first half byte tells terminator and oddness, then come the nibbles by twos |
| `HexPrefix.KeyLayout` | ethtrie/encoding.go:9-33 | a whole key is written after the byte 0x20 |
| `HexPrefix.CompactInjective` | ethtrie/encoding.go:9-33 | different paths have different hex-prefix forms |
| `HexPrefix.CompactEncodeLoop` | ethtrie/encoding.go:9-33 | the loop writes the hex-prefix form |
| `HexPrefix.DecodeCompact` | ethtrie/encoding.go:63-76 | gives back the key a path was made from, for paths of whole bytes |
| `HexPrefix.KeyPathInjective` | ethtrie/encoding.go:50-61 | different keys have different paths |
| `HexPrefix.FullNotPrefix` | ethtrie/encoding.go:50-61 | no terminated path is a proper prefix of another |
| `HexPrefix.CompareIntSlice` | ethtrie/slice.go:6-17 | true exactly for equal slices |
| `HexPrefix.MatchingNibbleLength` | ethtrie/slice.go:19-27 | the length of the longest common prefix |
| `Rlp.RoundTripAt` | ethutil/rlp.go:92-230 | an encoding found anywhere in a buffer decodes to its value in decoded form and to the position just past it |
| `Rlp.RoundTrip` | ethutil/rlp.go:92-230 | the same with prefix and suffix written out |
| `Rlp.PrefixFree` | ethutil/rlp.go:92-168 | no encoding is a proper prefix of another |
| `Rlp.EncodeInjective` | ethutil/rlp.go:92-168 | equal encodings come from values equal in decoded form |
| `Layout.EncodeLayout` | ethutil/rlp.go:92-168 | the bytes of every encoding: strings below 56 bytes after one byte, longer ones after the shortest form of their length, numbers as their shortest strings, lists after the length of their joined items |
| `Layout.HashLayout` | ethutil/rlp.go:125-134 | a 32-byte hash is written after the byte 0xa0 |
| `Layout.DecodeString` | ethutil/rlp.go:170-187 | what the parser makes of any bytes up to 0xbf, and when it panics |
| `Layout.DecodeList` | ethutil/rlp.go:189-223 | a list is parsed exactly if items read one after another use up its payload, or more |
| `Layout.MinimalUnique` | ethutil/rlp.go:124-130 | a number has one form without zeros in front |
| `Rlp.EncodeBuffer` | ethutil/rlp.go:92-168 | the writer that fills a buffer prints the encoding |
| `Rlp.DecodeAt` | ethutil/rlp.go:170-230 | the parser with its loops returns what the grammar says, and panics where slicing does |
| `Rlp.ReencodeExact` | ethutil/rlp.go:118-119 | re-encoding a decoded value gives the same bytes if and only if no string in it is the single byte 0 |
| `Rlp.ZeroByteIsLost` | ethutil/rlp.go:174-175 | the single byte 0 comes back as the empty string |
| `Bytes.ReadVarIntIsNum` | ethutil/bytes.go:47-69 | whatever width is chosen the result is the big-endian number of up to eight bytes; the rest is ignored |
| `Bytes.NumBigBytes` | ethutil/rlp.go:124-130 | a number is recovered from its minimal big-endian bytes |
| `Bytes.LeftPadLayout` | ethutil/bytes.go:165-174 | zeros in front up to a width, and longer slices as they are |
| `World.State.GetOrNew` | ethstate/state.go:73-100 | loading or making an object changes no read; the object returned is the one the state reads through |
| `World.State.NewObject` | ethstate/state.go:103-112 | the address reads as nothing afterwards, all others as before |
| `World.State.Copy` | ethstate/state.go:127-138 | the snapshot reads the same and shares no object with the original |
| `World.State.Set` | ethstate/state.go:140-147 | the state reads what the snapshot reads, through the snapshot's objects |
| `World.State.Update` | ethstate/state.go:192-202 | marked accounts are gone, all others keep nonce, balance and code, and no cell is invented; if nothing is marked and no cached cell is 0, no read changes and the trie alone reads as cache and trie did |
| `World.State.DeleteObject` | ethstate/state.go:66-70 | one address is gone from cache and trie, all others read as before |
| `World.StateObject.GetStorage` | ethstate/state_object.go:107-122 | cached cells come first, and reading changes no cell |
| `World.StateObject.SetStorage` | ethstate/state_object.go:124-127 | sets one cell under its padded key and no other |
| `World.StateObject.Sync` | ethstate/state_object.go:147-165 | the storage trie is that of some walk over the cells, each written, or deleted in one of the ways a deletion can go, and then checked; no cell is invented, and if every deletion on the walk keeps the others the trie holds exactly what the account reads |
| `World.StateObject.BuyGas` | ethstate/state_object.go:214-225 | pays the coinbase when the pool is large enough; the pool is not charged |
| `World.StateObject.RefundGas` | ethstate/state_object.go:227-234 | takes the refund back from the coinbase and adds the gas to the pool |
| `World.StateObject.Copy` | ethstate/state_object.go:236-250 | a new object with the same account and gas pool, not marked for removal |
| `Snapshot.RunFrame` | ethstate/state.go:127-147 | after Copy, any changes and Set, every balance, nonce, code and cell reads as at the Copy |
| `Snapshot.Perform` | ethstate/state_object.go:107-187 | every change stays within the state's objects, objects the code holds, and new ones |
| `Processing.StateTransition.BuyGas` | ethchain/state_transition.go:94-112 | which check fails and what sender and coinbase then hold, also when they are one account |
| `Processing.StateTransition.RefundGas` | ethchain/state_transition.go:114-121 | moves the price of the gas left from coinbase to sender if the state still uses their objects |
| `Processing.StateTransition.PreCheck` | ethchain/state_transition.go:123-140 | a refused transaction changes no account |
| `Processing.StateTransition.Execute` | ethchain/state_transition.go:155-252 | nonce, fees, transfer and call end as the specification says; after a failed call no held object belongs to the state |
| `Processing.StateTransition.TransitionState` | ethchain/state_transition.go:142-252 | for a code-less recipient or a failing call, whatever the called code did, the accounts, the pool and the gas left are those of the specification Apply, whose outcome and effect Transition.OutcomeExactly and Transition.BalanceExactly give in numbers |
| `Transition.OutcomeExactly` | ethchain/state_transition.go:94-252 | if and only if conditions for each of the seven ways a transaction ends, on the sender's nonce and balance, the pool, 500 gas and 5 for each byte of data, the value, and the recipient's code |
| `Transition.BalanceExactly` | ethchain/state_transition.go:94-252 | for each way it ends, every balance and nonce and the pool afterwards in numbers |
| `Transition.AddressLayout` | ethutil/bytes.go:198-211 | the last twenty bytes, with zeros in front of fewer |
| `Transition.NetEffect` | ethchain/state_transition.go:142-252 | for every account: balance, nonce, code and storage afterwards in closed form, in all cases of aliasing and failure |
| `Transition.ApplyConserves` | ethchain/state_transition.go:94-252 | the sum of all balances does not change |
| `Transition.ApplyNonNegative` | ethchain/state_transition.go:94-252 | no balance becomes negative |
| `Block.ProcessTransactions` | ethchain/state_manager.go:112-172 | accounts and handled transactions are those of Settle: a wrong nonce is passed over, every other failure is handled, a pool too small as well. The list is accepted if and only if, for each transaction not passed over that comes with a receipt, the trie that reads as the accounts after it has the receipt's root; the receipts made have those roots and the gas used so far |
| `Transition.SettleConserves` | ethchain/state_manager.go:112-172 | over any list of such transactions the sum of balances is unchanged, nobody is overdrawn and no code changes |
| `Transition.SettleIsAfter` | ethchain/state_manager.go:112-172 | the accounts after a list are those after its transactions one by one from the front |
| `World.HoldsUnique` | ethstate/state.go:192-202 | there is one trie with proper storage tries that reads as given accounts |
| `Storage.ProperUnique` | ethstate/state_object.go:147-165 | there is one canonical storage trie, with cells as they are written, for what the cells read |
| `Block.RewardNumbers` | ethchain/fees.go:7-9 | the rewards in wei |
| `Block.CalculateBlockReward` | ethchain/state_manager.go:335-342 | the block reward plus one inclusion reward for each uncle |
| `Block.AccumelateRewards` | ethchain/state_manager.go:348-366 | every account's balance afterwards, and the sum raised by exactly the rewards |
| `Block.ProcessBlock` | ethchain/state_manager.go:263-274 | gas limit, transactions and rewards together: every account afterwards, the sum raised by exactly the rewards, no balance negative; the block is accepted under the same condition on its receipts, and otherwise nothing is raised |
| `Account.RecordRoundTrip` | ethstate/state_object.go:287-310 | an account record comes back with root and code hash; the nonce does if and only if it is at most 2^63, the balance if and only if it is not negative |
| `Account.RecordLayout` | ethstate/state_object.go:287-296 | the bytes of a record parse to four items: the magnitude of the nonce's int64, that of the balance, the storage root or nothing, and the hash of the code |
| `Account.FieldsRead` | ethstate/state_object.go:298-310 | a list of four strings is read into nonce, balance, root and code hash by position |
| `Account.SyncStore` | ethstate/state_object.go:147-165 | StateObject.Sync on a trie with its cache and database ends in a tree that one walk over the cells and the check can leave |
| `Account.WriteRecord` | ethstate/state.go:57-70 | the state trie binds the account's record, whose bytes parse to nonce, balance, storage root and code hash in this order, and no other key changes, or the account is gone and no other; its code is in the database |
| `Account.UpdateAll` | ethstate/state.go:192-202 | the loop over the cached accounts leaves the state trie with exactly their records, with the roots of their synced storage tries, and without those marked |
| `Account.SyncState` | ethstate/state.go:171-186 | every storage trie and the state trie end up in the database under their roots, with no answer changed |
| `Account.RecordedAt` | ethstate/state.go:192-202 | written accounts are bound to their records, marked ones are not bound, and all other keys are as before |
| `Account.OnDiskStays` | ethstate/state.go:171-186 | a trie once synced stays readable at its root whatever is added later |
| `Account.Reopen` | ethstate/state_object.go:80-85 | an account read through a state opened at a root: the nonce if and only if it is at most 2^63, the balance if and only if it is not negative, the code, and the storage trie in any case |
| `Account.FlushedReads` | ethstate/state_object.go:147-165 | a synced storage trie reads every cell as cached, or behind the cache as before, or as 0; and never as 0 instead if no cached cell is 0 |
| `Account.WriteBackAndReopen` | ethstate/state.go:171-202 | after Update and Sync a state opened at the new root reads every account that was not marked: nonce and balance under their exact conditions, code, and the cells as the synced storage trie has them |
| `Storage.CellBack` | ethstate/state_object.go:92-98 | a number written to a cell is the number read |
| `Storage.CellLayout` | ethstate/state_object.go:96-98 | a cell is written as its number's shortest string |
| `Storage.CellRead` | ethstate/state_object.go:92-94 | a cell bound to a string reads as its number |
| `Storage.ChainReads` | ethstate/state_object.go:147-157 | after any walk over the cells each reads as it should or as 0, and as it should if every deletion keeps the others |
| `Storage.CheckedReads` | ethstate/state_object.go:159-164 | ParanoiaCheck and the swap change no cell |
| `Storage.ZeroCellExactly` | ethstate/state_object.go:149-153 | setting one cell to 0 in a canonical trie in memory leaves all other cells as they were if and only if no collapse on the way meets an inline child |
| `Storage.SyncCanLose` | ethstate/state_object.go:149-153 | three cells holding 1, of which one is set to 0: after Sync the other two read 0 |
| `Account.WriteBack` | ethstate/state.go:171-202 | State.Update and State.Sync: the state trie's bindings are the records of the plan over the old ones, and the database holds it and every storage trie under their roots |
| `Interpreter.RunClosure` | ethvm/vm.go:72-230 | every run ends; output, failure and gas left are those of a lawful history from the frame's code and gas, and what is left goes to the caller |
| `Interpreter.Step` | ethvm/vm.go:111-235 | one pass of the loop on stack, memory and closure adds exactly one turn to the history; a pass that goes on lowers the gas, or is a free SSTORE that moves one position on |
| `Interpreter.Call` | ethvm/vm.go:778-838 | CALL: declined, or the callee's whole run becomes part of the history, its gas comes back and its output is stored |
| `Interpreter.Create` | ethvm/vm.go:707-777 | CREATE: the new frame runs with all the gas, and becomes part of the history |
| `Interpreter.DoOp` | ethvm/vm.go:237-865 | the second switch on the objects does what the turn says: position, every stack word, every memory byte, halting and panics |
| `Interpreter.DoMemoryOp` | ethvm/vm.go:536-662 | MLOAD, MSTORE, MSTORE8, SHA3 and RETURN pop, read and write in the source's order with the specified outcome |
| `Interpreter.CopyOp` | ethvm/vm.go:536-576 | the two copying operations, with their clipping of the source stretch |
| `Vm.CopiedExact` | ethvm/vm.go:536-576 | within a small covered stretch CALLDATACOPY and CODECOPY write exactly the bytes asked for, or nothing when those are not all there |
| `Vm.StoreThenLoad` | ethvm/vm.go:643-654 | a 256-bit word stored is the word loaded, and the rest of memory is as it was |
| `Opcodes.Add` | ethvm/vm.go:242-253 | the word pushed is congruent to the sum |
| `Opcodes.Sub` | ethvm/vm.go:254-265 | top operand less the one below it |
| `Opcodes.Mul` | ethvm/vm.go:266-277 | the word pushed is congruent to the product |
| `Opcodes.Div` | ethvm/vm.go:278-305 | the quotient of the top operand by the one below it, and 0 by 0 |
| `Opcodes.Mod` | ethvm/vm.go:306-330 | the remainder; by 0 the frame fails |
| `Opcodes.ExpMore` | ethvm/vm.go:331-343 | one more in the exponent multiplies by the base |
| `Opcodes.ExpNone` | ethvm/vm.go:331-343 | an exponent that is not positive gives 1 |
| `Opcodes.Neg` | ethvm/vm.go:344-347 | 2 to the 256 less the operand |
| `Opcodes.Compare` | ethvm/vm.go:348-402 | LT, SLT, GT, SGT and EQ compare the top operand with the one below it |
| `Opcodes.Not` | ethvm/vm.go:403-410 | 0 for a positive operand, otherwise 1 |
| `Opcodes.Gates` | ethvm/vm.go:413-430 | AND, OR and XOR bit by bit |
| `Opcodes.BitsDetermine` | ethvm/vm.go:413-430 | numbers with the same bits are equal |
| `Opcodes.ByteOfWord` | ethvm/vm.go:431-441 | the byte of a word counted from the top of 32, where the number has one |
| `Opcodes.ModThree` | ethvm/vm.go:442-471 | ADDMOD and MULMOD by quotient and remainder; by 0 the frame fails |
| `Opcodes.LoadData` | ethvm/vm.go:513-530 | 32 bytes of the arguments from an offset, with zeros past their end |
| `Opcodes.Knows` | ethvm/vm.go:531-706 | sizes, position, memory length and gas as they are when the opcode has been paid for |
| `Opcodes.Push` | ethvm/vm.go:618-629 | the bytes that follow as one number, and the position past them |
| `Opcodes.Dup` | ethvm/vm.go:633-637 | the n-th word above the lowest |
| `Opcodes.Swap` | ethvm/vm.go:638-642 | the lowest word and the n-th above it change places |
| `Opcodes.PopTop` | ethvm/vm.go:630-632 | the top operand is gone |
| `Opcodes.TooFew` | ethvm/vm.go:104-108 | with too few operands the frame fails after paying |
| `Opcodes.Jump` | ethvm/vm.go:681-687 | to the top operand |
| `Opcodes.JumpIf` | ethvm/vm.go:688-699 | to the top operand if the one below it is 1 or more |
| `Opcodes.Halt` | ethvm/vm.go:857-859 | STOP and the end of the code halt for free |
| `Opcodes.Starves` | ethvm/vm.go:143-230 | a frame runs out of gas exactly if it holds less than the schedule's fee, the words of memory and the gas handed on |
| `Opcodes.ChargedTurn` | ethvm/vm.go:143-235 | what an opcode is charged by the schedule in numbers, and the memory made for it |
| `Opcodes.StoreWord` | ethvm/vm.go:650-656 | 32 bytes, most significant first, at the top operand's place |
| `Opcodes.LoadWord` | ethvm/vm.go:643-649 | the 32 bytes from the top operand on, as a number |
| `Opcodes.StoreByte` | ethvm/vm.go:657-664 | the lowest byte of the number |
| `Opcodes.Return` | ethvm/vm.go:839-846 | the frame halts with the stretch of memory its operands name |
| `Opcodes.Copy` | ethvm/vm.go:536-576 | the stretch of arguments or code in its place in memory, or nothing if it is not all there |
| `Opcodes.StoreCell` | ethvm/vm.go:160-171 | 200 for filling an empty cell, nothing for emptying a full one, otherwise 100 |
| `Opcodes.LookUp` | ethvm/vm.go:487-495 | BALANCE and SLOAD replace their operand by what they look up, for 20 gas |
| `Opcodes.Environment` | ethvm/vm.go:483-617 | what the environment knows is pushed for 1 gas |
| `Opcodes.EnterCall` | ethvm/vm.go:778-838 | the callee's frame, arguments and gas, and what the caller keeps, by CALL's seven operands |
| `Opcodes.CallReturns` | ethvm/vm.go:810-838 | 1 and the output in its place, or 0; the gas left comes back |
| `Opcodes.EnterCreate` | ethvm/vm.go:707-777 | the new frame's code and gas by CREATE's three operands |
| `Opcodes.CreateReturns` | ethvm/vm.go:755-777 | the new address, or 0; the gas left comes back |
| `Opcodes.NoOpcode` | ethvm/vm.go:860-863 | numbers that are no opcode end the frame in error |
| `Opcodes.Suicide` | ethvm/vm.go:847-860 | takes an operand, costs nothing, and halts |
| `Opcodes.SubtractFromFive` | ethvm/vm.go:254-265 | the program PUSH1 3, PUSH1 5, SUB leaves 2 and 97 of 100 gas |
| `Opcodes.RunsTo` | ethvm/vm.go:72-230 | every run of a frame whose turns do not depend on what comes from outside returns what the last one halts with |
| `Opcodes.ReturnsByte` | ethvm/vm.go:618-664 | every run of a six-step program with 100 gas returns its byte and leaves 93 gas |
| `Interpreter.DoPlainOp` | ethvm/vm.go:242-535 | arithmetic, comparison, bit, environment, PUSH, DUP and SWAP operations change the stack as specified, or panic where big.Int or the stack does |
| `Vm.GasConserved` | ethvm/closure.go:86-110 | over every lawful history, down through the frames it entered, the gas a frame came with is what it leaves plus what was burnt |
| `Vm.TurnBalance` | ethvm/vm.go:224-230 | in one turn the gas held before is the gas held, handed on or returned afterwards plus the turn's fee and loss |
| `Vm.FeesBounded` | ethvm/vm.go:224-230 | all fees of a history together with the gas left are at most the gas bought |
| `Vm.StepsBounded` | ethvm/vm.go:143-152 | the turns of a whole call tree that cost anything are at most the gas bought |
| `Vm.TurnsBounded` | ethvm/vm.go:111-152 | all turns of a frame, free ones included, are at most the gas bought plus one, times the code length plus one |
| `Vm.Progress` | ethvm/vm.go:111-230 | a turn that goes on costs gas, or clears a storage cell for free and moves forward in the code; one that enters a frame keeps 20 gas back |
| `Vm.DepthBounded` | ethvm/vm.go:746-806 | frames of a lawful history nest at most one level per 20 gas |
| `Vm.SizeCovers` | ethvm/vm.go:173-218 | the size memory is enlarged to is a multiple of 32 and covers every stretch the operation touches |
| `Vm.MemoryTelescopes` | ethvm/vm.go:218-235 | after turns with small operands a frame's memory is whole words, and it has paid for each once |
| `Vm.MemoryPaid` | ethvm/vm.go:218-235 | the same including the turn that ends the frame |
| `Vm.MemoryGrows` | ethvm/stack.go:110-130 | memory never shrinks from turn to turn |
| `Vm.TurnMemory` | ethvm/vm.go:218-235 | with small operands memory has after a turn the length paid for, and the place for a call's output lies within it |
| `Vm.WordsExact` | ethvm/vm.go:218-222 | the memory fee pays for the enlargement word by word |
| `Vm.NextPosition` | ethvm/closure.go:60-68 | reading positions advance by one even where a position wraps as int64 |
| `Vm.MemSetExact` | ethvm/stack.go:110-124 | writing within memory puts the value in its place, keeps all other bytes and the length |
| `Vm.MemGetExact` | ethvm/stack.go:132-140 | a stretch inside memory is returned exactly |
| `Interpreter.Memory.Set` | ethvm/stack.go:110-124 | grows to the end of the stretch, copies as much of the value as fits, and panics as the slice expression does |
| `Interpreter.Closure.Return` | ethvm/closure.go:86-91 | the caller gets what is left |
| `Filter.Find` | ethchain/filter.go:136-174 | the search through the index finds what the search that opens every block finds, and panics only for a missing or short bin |
| `Filter.NegativeMeansNone` | ethchain/filter.go:227-260 | a block the index turns away has no message the filter passes |
| `Filter.BinOfExact` | ethchain/state_manager.go:373-388 | a cell is full if and only if a message's sender or recipient has it among its last eight bytes |
| `Filter.PassingExactly` | ethchain/filter.go:186-225 | a message passes exactly if it is the block's, its ends are listed where lists are given, and some alteration given names its recipient or none and an address it changed or none |
| `Filter.PassingInOrder` | ethchain/filter.go:186-225 | messages that pass keep their order |
| `Filter.CellsExactly` | ethchain/bloom.go:17-27 | an address has the cells of its last eight bytes, if it has so many |
| `Filter.ScanIsMax` | ethchain/filter.go:136-174 | the search covers at most the given number of blocks, from the latest towards genesis |
| `Filter.ScanStopsAtEarliest` | ethchain/filter.go:136-174 | the earliest block asked for is the last one covered |
| `Filter.BinOfIndexes` | ethchain/state_manager.go:373-403 | the bin made for a block covers all its messages |
| `Filter.CreateBloomFilter` | ethchain/state_manager.go:373-403 | the loop over messages fills the specified bin |
| `Filter.BloomFilter.Set` | ethchain/bloom.go:17-27 | marks the cells of the last eight bytes and no others; shorter addresses mark nothing |
| `Filter.BloomFilter.Search` | ethchain/bloom.go:29-43 | stops at the first empty cell, and panics at a cell outside the bin |
| `Filter.FilterMessages` | ethchain/filter.go:186-225 | returns the messages that match, in order |
| `Filter.RunBloomFilter` | ethchain/filter.go:227-260 | the two address loops agree with the specified check |
| `Filter.ShortAddressLost` | ethchain/bloom.go:29-34 | for every address shorter than eight bytes the index hides a message that the scan finds |
| `Filter.IndexExact` | ethchain/filter.go:227-260 | for a filter on senders and recipients, the index hides no passing message of any block if and only if the cells of every listed pair hit both lists; with one list, if and only if its addresses have eight bytes or more |
| `Filter.GenesisBinPanics` | ethchain/block_chain.go:323-324 | the 255-cell bin of the genesis block makes a search for byte 255 panic |
| `Wire.StreamRoundTrip` | ethwire/messaging.go:235-348 | the concatenation of written frames parses to the same types and data in order, and a last frame cut short anywhere takes nothing away |
| `Wire.ReadSent` | ethwire/messaging.go:235-268 | one written frame followed by anything is read back with the rest untouched |
| `Wire.CutShort` | ethwire/messaging.go:235-252 | a frame cut short yields no message, and panics exactly when more than its header is there |
| `Wire.ReadMessages` | ethwire/messaging.go:277-325 | the loop returns all messages up to the first that cannot be read |
| `Wire.WriteMessage` | ethwire/messaging.go:329-340 | writes magic token, length and payload |
| `Wire.TypeSurvives` | ethwire/messaging.go:254-262 | every message type from 0 to 255 comes back |
| `Wire.FrameLayout` | ethwire/messaging.go:329-340 | the token, the length as four bytes, most significant first, and the payload |
| `Wire.ReadAny` | ethwire/messaging.go:235-268 | what any received bytes give: nothing without the token, a panic without the whole payload or its list |
| `Wire.WrongToken` | ethwire/messaging.go:240-247 | a buffer that starts with another token yields no message |
| `Wire.U32RoundTrip` | ethutil/bytes.go:15-42 | the four length bytes are read back as the length |
| `Reactor.OrderedDelivery` | ethreact/reactor.go:22-182 | in every run a channel gets accepted posts only, under names it subscribed to, in post order, and no post twice if no subscription repeats one in force |
| `Reactor.InvNext` | ethreact/reactor.go:87-182 | every step keeps one dispatch loop at most, the queue as the untaken rest of the posts, and sends in post order |
| `Reactor.OnceNext` | ethreact/reactor.go:22-59 | every step with fresh subscriptions keeps sends without repetition |
| `Reactor.ListenerMissesNothing` | ethreact/reactor.go:22-38 | a channel that stays subscribed and ready is sent every event of its name that is dispatched |
| `Reactor.PostIsSent` | ethreact/reactor.go:160-182 | an event posted to the waiting loop is sent to every channel subscribed to its name, in the order of their subscriptions |
| `Reactor.PostUnheard` | ethreact/reactor.go:173-182 | an event that nobody subscribed to is taken and dropped |
| `Reactor.PostsNext` | ethreact/reactor.go:160-171 | a post is accepted and queued exactly while the reactor runs |
| `Reactor.PostBlocks` | ethreact/reactor.go:160-171 | a post waits exactly while the reactor runs and ten events are queued |
| `Reactor.StopEnds` | ethreact/reactor.go:87-124 | Stop ends the waiting loop and leaves the queue |
| `Reactor.SubscribesOne` | ethreact/reactor.go:131-158 | Subscribe adds one entry at the end of the list; Unsubscribe changes it as Remove does, and drops an empty one |
| `Reactor.RemoveExactly` | ethreact/reactor.go:49-59 | for every list: Remove takes the channel away without a panic if and only if no two adjacent entries are the channel and it is last only as its sole entry; what is left is then every other entry in order |
| `Reactor.RemoveIs` | ethreact/reactor.go:49-59 | for every list: it panics if and only if the last entry is a repeated occurrence, and otherwise leaves what skipping the entry after each removed one leaves |
| `Reactor.RemoveKeepsOthers` | ethreact/reactor.go:49-59 | removing a channel never drops another one or adds any |
| `Reactor.RemoveTwice` | ethreact/reactor.go:49-59 | removing a channel subscribed twice can leave it subscribed, or panic |
| `Reactor.RemoveLoop` | ethreact/reactor.go:49-59 | the loop that shifts the slice it walks over does what the specification says |
| `Reactor.SubscribedTwice` | ethreact/reactor.go:22-38 | a channel subscribed twice is sent an event twice |
| `Mnemonic.RoundTripExactly` | ethcrypto/mnemonic.go:18-60 | over all strings: encoding does not panic and decoding gives the string back if and only if it is empty or 64 lower-case hex digits |
| `Mnemonic.MnemonicRoundTrip` | ethcrypto/mnemonic.go:18-60 | decoding the words of any readable chunks gives as many lower-case digits, and the chunks themselves if they were such |
| `Mnemonic.ChunkRoundTrip` | ethcrypto/mnemonic.go:24-27 | three words carry 32 bits, because 1626 cubed exceeds 2^32 |
| `Mnemonic.FirstWords` | ethcrypto/mnemonic.go:21-28 | the first three words of a message, by number and order |
| `Mnemonic.ThreeRead` | ethcrypto/mnemonic.go:37-57 | the digits that three words of the list stand for, by number and order |
| `Mnemonic.SplitInList` | ethcrypto/mnemonic.go:23-28 | an index is negative, and panics, exactly for a chunk that reads as a negative number |
| `Mnemonic.SpellInjective` | ethcrypto/mnemonic.go:18-31 | different messages have different words |
| `Mnemonic.MnemonicEncode` | ethcrypto/mnemonic.go:18-31 | for any message: the loop spells the chunks it reads at steps of an eighth, and panics exactly unless the message is empty or has 64 characters or more in eight equal parts and no chunk reads as negative |
| `Mnemonic.MnemonicDecode` | ethcrypto/mnemonic.go:33-60 | the loop reads words in threes, and panics exactly when their number is not a multiple of three |
| `Mnemonic.IndexOf` | ethcrypto/mnemonic.go:9-16 | the first position of a word, or -1 |

## Left out

- Networking, RPC, UI bridging, logging, LevelDB and key files: I/O.
- Keccak, secp256k1 and proof of work: hash values, recovered senders and validity of a nonce are taken as given.
- Trie.Trie.Copy: a copy does not take over `IsDirty` and `prevRoot`; it answers and can be written to, but Sync and Undo are specified only once its cache's flag covers its dirty nodes.
- `getNode` on strings of 1 to 31 bytes, which it would decode: no such string is ever a reference in a trie, and `Trie.GetNode` shows the branch is not taken.
- Trie.Trie.Update: the value consisting of the single byte 0 is excluded, because it changes when it is reloaded (`Rlp.ZeroByteIsLost`).
- Trie.Trie.Delete: needs keys no shorter than the paths they meet, because `key[:len(k)]` is not guarded (ethtrie/trie.go:424), and a trie without empty values.
- Trie.Trie.Each: for tries without empty values, which the callbacks of a branch do not show. Deletions make such a value only when a reloaded branch loses all its 16 children before it is reloaded again; `Account.StoreFits` and `Account.PlanFits` exclude that, and `Storage.Checked` leaves such a tree as it is.
- HexPrefix.DecodeCompact: what it gives for half a byte at the end depends on the Go version of `hex.DecodeString`.
- Rlp.DecodeAt: a slice's capacity is taken to be its length, so a length that runs past the data panics even where the slice could be extended.
- TrieIterator's Collect and Purge, and the reader-based RLP decoder, which nothing uses.
- World.State.Update: the maps and trees of the transition modules, not the tries with their cache; `Account.UpdateAll` is about those.
- Processing.StateTransition.TransitionState: what a call that succeeds in running code does to the accounts is not specified, since that is the called code's doing; contract creation and SUICIDE are not modelled, because a failing creation keeps the endowment and a removed account's balance disappears. A recipient of twenty zero bytes is a creation and excluded.
- Block gas limits: BuyGas never takes gas from the pool, so no limit follows.
- Block.ProcessBlock: validation of the block and comparison of state roots are outside; the state's root is a function of its records. The condition on receipts that mentions no trie of the loop is for states whose storage tries are canonical and hold cells as they are written, which every step keeps; without that it is about the tries left after each prefix of the list.
- Account.WriteBack: a cached account has its code in memory, and addresses of 20 bytes that differ.
- The manifest of messages and the removal mark are not part of a snapshot, as in the source.
- Interpreter.RunClosure: `UsedGas`, the debugger, the loop that looks for a free address in CREATE, effects on the world state, and memory too large to allocate are not modelled.
- Effects of a failed inner call on objects the running closure still holds: the closure keeps a detached account, so no claim about its later writes is made beyond `Snapshot.RunFrame`.
- Filter.Find: the chain's blocks count up from their parents, and re-execution gives the messages the bin was made from.
- Wire.ReadMessages: reading from the connection and its deadlines; the received bytes are a parameter. Messages have payloads below 2^32 bytes.
- Reactor: `drained` and `Flush` only delay steps and are not part of the state; creating a handler and adding its first channel is one step, and so is removing a channel and dropping an empty handler, because a dispatch in between finds no channel either way.
- Mnemonic.MnemonicEncode: the word list is a parameter of 1626 distinct words.
- FindCanonicalChain, ResetTillBlockHash and BlockPool: their loops and lists do not keep an invariant worth stating.
- Opcode tables, disassemblers and currency formatting: easy members.
