# A toy proof-of-work ledger and its peer-to-peer node, in Dafny

This project models the core of a small educational blockchain. Each
transaction moves an amount of coins from a sender to a receiver, and each
block holds at most one transaction. A block is linked to the previous block by
that block's hash and is "mined" by raising its nonce until the stored hash
starts with `DIFFICULTY` zeros. The chain keeps a pool of pending transactions.
A transaction from the mint accounts "System" and "Genesis" is always admitted.
Any other transaction is admitted only when the sender's confirmed balance plus
pending balance covers the amount; this is the ledger's only double-spend
guard. Mining takes one pending transaction at a time. It queues a mining reward
for the miner unless that transaction came from a mint account. A node keeps a
registry of at most `MAX_PEERS` peers and accepts blocks, transactions and whole
chains from them. To resolve conflicts it takes the first of the longest chains
its peers report. It adopts that chain only when it is strictly longer than its
own, decodes and is valid. A shared directory records the nodes of the network,
and the latest registration for a username or port wins.

The modules follow the repository's files:

| file | module | models |
|---|---|---|
| common.dfy | `Common`, `Config` | optional values, results, JSON values, config.py constants |
| transaction.dfy | `Transactions` | core/transaction.py |
| block.dfy | `Blocks` | core/block.py |
| proof_of_work.dfy | `ProofOfWork` | core/proof_of_work.py |
| blockchain.dfy | `Chain` | core/blockchain.py |
| node.dfy | `Nodes` | network/node.py (and the peer flooding of attack/eclipse_attack.py) |
| network_manager.dfy | `Directory` | network/network_manager.py |

Modelling choices:
- **Values and objects.** Transactions and blocks are immutable values. `Blockchain`, `Node` and `NetworkManager` are classes whose methods update their fields.
- **Hashing.** The SHA-256 digest of a block's sorted-key JSON is an uninterpreted function `Digest` from the block's fields, its stored hash excluded. It is passed as a parameter.
- **Clocks and oracles.** The clock is a parameter `now`. Peer liveness (`alive`), peer chain fetches (`fetch`) and the directory listing are parameters too.
- **Peers.** A node's peers form a sequence with distinct ids, in insertion order like a Python dict. The consensus needs that order: it picks the first peer chain of greatest length.
- **Errors.** Decoding failures that raise in Python (a missing key, a value of the wrong kind) are `Err` results.

Behaviour of the code worth noting:
- **Amounts.** No amount is validated. A negative amount is not refused for being negative: it passes `add_transaction` whenever the sender's available balance is at least the amount, for instance whenever that balance is non-negative (`Chain.NegativeAmountDrainsReceiver`).
- **Block acceptance.** The `/block/new` handler never recomputes the hash of the block it accepts. Appending a block with a wrong stored hash breaks chain validity (`Nodes.AcceptedBlockKeepsValidIff`).
- **Chain replacement.** The `/chain/replace` handler compares the claimed `length`, not the chain itself. It accepts a chain of equal length. It installs the chain without validating it and clears the pool.
- **Mining on an empty chain.** `mine_pending_transactions` pops the pool before it reads the tip. On an empty chain it loses a pending transaction and fails (`NoLatestBlock`).

## Model

| member | source | states |
|---|---|---|
| Transactions.New | core/transaction.py:19-22 | fields stored as given, no validation; a missing or zero timestamp becomes `now` |
| Transactions.ToDict | core/transaction.py:24-31 | exactly the keys sender, receiver, amount, timestamp |
| Transactions.FromDict | core/transaction.py:37-45 | decodes iff the four keys are present with the right kinds; the fields are the dictionary's values, the timestamp rule applied |
| Transactions.RoundTrip | core/transaction.py:24-45 | decoding an encoded transaction gives it back, with a zero timestamp replaced by `now` |
| Blocks.CalculateHash | core/block.py:31-42 | the digest of exactly the six fields index, transaction, previous hash, timestamp, nonce and miner; the stored hash is not among them |
| Blocks.New | core/block.py:11-29 | fields stored, timestamp rule, and the stored hash equals `calculate_hash()` |
| Blocks.HashIgnoresStoredHash | core/block.py:31-42 | the hash depends on every field but the stored hash |
| Blocks.MeetsTargetIsSliceTest | core/block.py:51-53 | the target predicate is exactly Python's `hash[:d] == '0' * d`, short hashes included |
| Blocks.MeetsTargetMonotone | core/block.py:51-53 | meeting a difficulty implies meeting every lower one, and difficulty 0 always holds |
| Blocks.MineBlock | core/block.py:44-55 | only nonce and hash change; the nonce never decreases; the result meets the target with the least such nonce; a block that already meets it is unchanged; a correct hash stays correct |
| Blocks.ToDict | core/block.py:59-69 | the seven keys; the transaction entry is the encoded transaction or null |
| Blocks.TransactionField | core/block.py:74-76 | an absent or falsy transaction entry decodes to no transaction |
| Blocks.MinerField | core/block.py:84 | an absent or null miner decodes to no miner |
| Blocks.FromDict | core/block.py:71-87 | the stored hash, index, nonce and previous hash are the dictionary's, the hash kept without recomputation; absent entries give no transaction or no miner |
| Blocks.RoundTrip | core/block.py:59-87 | decoding an encoded block gives back every field, the stored hash included, even when that hash is wrong |
| ProofOfWork.Mine | core/proof_of_work.py:29-45 | the least nonce from 0 whose hash meets the target; the block's nonce is set and its stored hash is not; the returned hash is that block's hash |
| ProofOfWork.ValidateProof | core/proof_of_work.py:52-64 | valid iff the stored hash's `[:difficulty]` slice is all zeros (short hashes included) and the stored hash is the recomputed hash |
| ProofOfWork.MinedBlockValidates | core/proof_of_work.py:63-64 | a block mined by `mine_block` from a correct hash passes `validate_proof` |
| ProofOfWork.TamperedHashFails | core/proof_of_work.py:63-64 | a block whose stored hash was replaced by any other value fails `validate_proof` |
| Chain.BalanceAppend | core/blockchain.py:211-216 | one more block adds exactly its transaction's effect on the balance |
| Chain.PendingAppend | core/blockchain.py:235-239 | one more pending transaction adds exactly its effect on the pending balance |
| Chain.PendingFirst | core/blockchain.py:112 | popping the first pending transaction removes exactly its share of the pending balance |
| Chain.DoubleSpendRefused | core/blockchain.py:82-92 | once a transfer is pending, a second one by the same sender is refused when together they exceed the sender's available balance |
| Chain.GuardKeepsAvailableNonNegative | core/blockchain.py:82-94 | with non-negative amounts, admission never makes an ordinary account's available balance negative |
| Chain.NegativeAmountDrainsReceiver | core/blockchain.py:82-94 | a negative amount is admitted and lowers the receiver's available balance |
| Chain.MiningConservesAvailable | core/blockchain.py:112-139 | moving the first pending transaction into a block leaves every available balance unchanged except for the reward |
| Chain.GenesisBalance | core/blockchain.py:28-45 | the owner holds INITIAL_BALANCE after genesis, and every other ordinary account holds 0 |
| Chain.MiningRewardScenario | test_balance.py:162-196 | Alice→Bob 50 mined: Alice 50, Bob 50 confirmed and 10 pending; after the reward is mined Bob holds 60 |
| Chain.GenesisOnlyChainIsValid | core/blockchain.py:152 | a chain of one block is valid; the genesis block is never examined |
| Chain.ValidAppend | core/blockchain.py:115-125 | appending a linked, correctly hashed block that meets the target keeps a valid chain valid |
| Chain.ToList | core/blockchain.py:264-266 | one dictionary per block, in order |
| Chain.DecodeChain | core/blockchain.py:188 | decodes iff every block decodes, pointwise; otherwise the error of the first failing block |
| Chain.ListRoundTrip | core/blockchain.py:264-293 | decoding `to_list()` gives the same blocks, hence the same confirmed balances |
| Chain.Blockchain.constructor | core/blockchain.py:12-55 | one mined genesis block with index 0, previous hash "0" and the owner's endowment, empty pool, a valid chain; its nonce is non-negative: 0 when the unmined block already meets the target, otherwise the least nonce above 0 whose hash does |
| Chain.Blockchain.Loaded | core/blockchain.py:281-286 | the given blocks, the owner and an empty pool |
| Chain.Blockchain.FromList | core/blockchain.py:268-293 | a chain of the decoded blocks and an empty pool exactly when every block decodes; otherwise the first decoding error |
| Chain.Blockchain.LatestBlock | core/blockchain.py:62-64 | the last block, or none for an empty chain |
| Chain.Blockchain.GetBalance | core/blockchain.py:198-221 | the sum over confirmed blocks, senders minus and receivers plus |
| Chain.Blockchain.GetPendingBalance | core/blockchain.py:223-241 | the same sum over the pool |
| Chain.Blockchain.GetTotalBalance | core/blockchain.py:243-257 | (confirmed, pending, confirmed + pending) |
| Chain.Blockchain.AddTransaction | core/blockchain.py:66-95 | appended iff a mint sender or enough available balance; a refusal reports both balances and leaves the pool unchanged |
| Chain.Blockchain.MinePendingTransactions | core/blockchain.py:97-143 | empty pool: nothing changes; otherwise the first transaction is popped and mined into a block linked to the tip, with a non-negative nonce: 0 when the unmined block already meets the target, otherwise the least nonce above 0 whose hash does; a reward is queued iff the sender is not a mint; a valid chain stays valid |
| Chain.Blockchain.IsChainValid | core/blockchain.py:145-171 | true iff every block from index 1 has a correct hash, links to its predecessor and meets the target |
| Chain.Blockchain.ReplaceChain | core/blockchain.py:173-196 | installs the decoded candidate iff it is strictly longer and valid; a decoding error of a longer candidate is returned as the first failing block's error; otherwise the chain is unchanged; the pool is never touched |
| Directory.Registered | network/network_manager.py:36-73 | the new entry with its URL and active flag; no other entry shares its username or port; entries with another id, username and port survive; uniqueness and keying preserved |
| Directory.MarkKeepsUnique | network/network_manager.py:158-174 | changing an activity flag preserves username and port uniqueness |
| Directory.NetworkManager.constructor | network/network_manager.py:10-13 | the directory as loaded |
| Directory.NetworkManager.RegisterNode | network/network_manager.py:36-73 | the directory becomes `Registered(...)`: superseded entries deleted, then the new entry written |
| Directory.NetworkManager.UnregisterNode | network/network_manager.py:75-88 | deletes the id if present, no-op otherwise |
| Directory.NetworkManager.GetNode | network/network_manager.py:90-102 | the entry for the id, or none |
| Directory.NetworkManager.GetActiveNodes | network/network_manager.py:115-124 | exactly the entries whose flag is true or missing |
| Directory.NetworkManager.GetRandomNodes | network/network_manager.py:126-146 | min(count, eligible) distinct active, non-excluded entries; a negative count fails |
| Directory.NetworkManager.MarkNodeInactive | network/network_manager.py:148-160 | only the flag of an existing entry changes; unknown ids are a no-op |
| Directory.NetworkManager.MarkNodeActive | network/network_manager.py:162-174 | only the flag of an existing entry changes; unknown ids are a no-op |
| Directory.NetworkManager.GetNetworkSize | network/network_manager.py:176-185 | the number of entries |
| Nodes.AddPeerTo | network/node.py:339-354 | own id refused; known id reported present with nothing changed; a new id is refused when full and appended otherwise; the registry stays within MAX_PEERS |
| Nodes.HasSnoc | network/node.py:352 | helper for `add_peer`'s append: appending a peer adds exactly its id to the known ids |
| Nodes.Without | network/node.py:364-365 | removes exactly the peers with the given ids, keeping the others and their order |
| Nodes.RemoveCount | network/node.py:364-365 | helper for `remove_peer`: removing a present id drops exactly one entry; an absent id changes nothing |
| Nodes.WithoutTwice | network/node.py:405-408 | helper for the cleanup loop: removing ids one after another is removing them all at once |
| Nodes.WithoutAgrees | network/node.py:405-408 | helper for the cleanup loop: removal depends only on which of the registry's ids are removed |
| Nodes.Live | network/node.py:397-414 | exactly the peers the health oracle reports alive |
| Nodes.DeadIds | network/node.py:397-402 | exactly the ids of the peers reported dead; their count plus the live count is the registry size |
| Nodes.DeadIdsStep | network/node.py:400-402 | helper for the collection loop: it adds the id of each dead peer in order |
| Nodes.ElemsStep | network/node.py:405-408 | helper for the removal loop: each removal adds one id to the set removed so far |
| Nodes.SweepKeepsLive | network/node.py:397-414 | deleting the dead ids leaves exactly the live peers |
| Nodes.Ids | attack/eclipse_attack.py:89 | the registry's ids in order |
| Nodes.RemoveEachRemovesAll | attack/eclipse_attack.py:91-92 | helper for the eclipse lemma: removing ids one by one removes them all |
| Nodes.RemoveAllPeers | attack/eclipse_attack.py:91-92 | phase 1 of the attack: removing each of the registry's ids in turn leaves no peer |
| Nodes.AddEachKeepsWellFormed | network/node.py:532-535 | any sequence of `add_peer` calls keeps the peer count within MAX_PEERS |
| Nodes.AddEachAppends | attack/eclipse_attack.py:100-102 | new, distinct candidates within capacity are all added, in order |
| Nodes.EclipseAttack | attack/eclipse_attack.py:88-119 | after dropping every peer and adding MAX_PEERS attacker ids, the registry is exactly the attackers and an honest peer is refused |
| Nodes.Candidates | network/node.py:532-535 | the directory entries other than the node itself, as `http://host:port` peers |
| Nodes.DropSameTransfers | network/node.py:192-200 | exactly the pending transactions that are not approximate copies, in order; nothing changes when there is no copy |
| Nodes.ScanPicksFirstLongest | network/node.py:541-553 | the scan keeps its pick when no reply is longer, and otherwise picks the first longest reply |
| Nodes.LongestIsFirstLongest | network/node.py:516-553 | nothing is picked iff no reply is longer than the local chain; otherwise the pick is the first reply of greatest length |
| Nodes.Replies | network/node.py:542-544 | the fetch oracle's answer for each peer URL, in registry order |
| Nodes.AcceptedBlockKeepsValidIff | network/node.py:182-189 | a block accepted onto a valid chain keeps it valid iff its stored hash is its real hash |
| Nodes.NodeName | network/node.py:28 | the given non-empty username, or `Node_<port>` |
| Nodes.Node.constructor | network/node.py:16-34 | its own chain over the given digest, owned by its username, and no peers; the genesis block is the chain's genesis block (index 0, previous hash "0", the endowment, the timestamp `now`, no miner) with a non-negative nonce and a correct hash that meets DIFFICULTY |
| Nodes.Node.AddPeer | network/node.py:327-354 | the registry and the reply are `AddPeerTo`'s; the registry stays well formed |
| Nodes.Node.RemovePeer | network/node.py:356-367 | the id is removed if present; nothing else changes |
| Nodes.Node.CleanupStalePeers | network/node.py:387-414 | the registry becomes exactly the live peers; returns the number of dead peers removed |
| Nodes.Node.NewTransaction | network/node.py:140-170 | malformed: error; an approximate copy pending: "already exists" with no change; otherwise added iff `add_transaction` admits it, and refused with the insufficient-balance report when it does not, the pool then unchanged |
| Nodes.Node.NewBlock | network/node.py:172-206 | rejects a malformed block, a missing tip, a bad link or a missing target prefix with nothing changed; otherwise appends without recomputing the hash and drops the pending copies of its transaction |
| Nodes.Node.ReplaceChainRoute | network/node.py:208-261 | rejects an empty chain or zero length; keeps a longer local chain unless forced; rejects a malformed chain with its first error, and a decoded chain whose first index is not 0 as an invalid genesis; otherwise installs the decoded chain unvalidated and clears the pool |
| Nodes.Node.ResolveConflicts | network/node.py:509-561 | bootstraps an empty registry from the directory through `add_peer`; the chain changes only through `replace_chain` on the first longest reply; the pool is untouched |
| Nodes.Node.Resolve | network/node.py:263-277 | bootstraps an empty registry as resolve_conflicts does; fails iff the first longest reply fails to decode; reports a replacement iff that reply decodes to a valid chain, which is exactly when the chain grew, and the chain is then that decoded reply; returns the chain it now holds |

## Left out

- Flask routing, HTTP, JSON responses and status codes: each handler body is a method taking the request fields as arguments, and its reply is a datatype. The `/add_peer` and `/remove_peer` payload checks, `/ping`, `/info`, `/chain`, `/sync` and `/shutdown` are not modelled.
- Server threads and concurrency: everything is sequential.
- Broadcasting (`broadcast_transaction`, `broadcast_block`), `request_chain` and `check_peer_health`: these are network calls. Fetched chains and peer liveness are the oracle parameters `fetch` and `alive`.
- `Node.create_transaction`, `Node.mine_block`, `Node.get_balance`, `display_info`, `start`, `stop` and `get_url` are not part of this model: they are `Blockchain` calls followed by a broadcast, or console and server plumbing.
- `find_available_port` and `uuid.uuid4()`: the free port and the node id are parameters of the constructor.
- SHA-256 and JSON canonicalisation: the digest is uninterpreted. The model cannot tell an integer from an equal float in the hashed JSON.
- Floating point: amounts and timestamps are exact reals, so rounding is not modelled.
- Several `datetime.now()` readings within one operation are a single clock reading `now`.
- `elapsed_time` and the progress output of `ProofOfWork.mine`. Its `difficulty` field is a parameter.
- Termination of mining: the source loops until a nonce works. `Blocks.MineBlock` requires (`Mineable`) and `ProofOfWork.Mine` requires that such a nonce exists.
- Update in place: `mine_block` and `ProofOfWork.mine` mutate the block object that the caller holds. The model returns the updated block as a new value, so aliasing of block objects is not modelled.
- Chain.Blockchain.ReplaceChain: the scratch `Blockchain()` it builds mines a fresh genesis block that is then discarded. That mining is not modelled.
- Decoding is stricter than Python: a value of the wrong JSON kind is a `WrongType` error, where Python would store it and fail later, or not at all.
- Blocks.FromDict: its contract does not state exactly when decoding succeeds. `Blocks.RoundTrip` states what an encoded block decodes to.
- Nodes.Node.ReplaceChainRoute: `length` and `force` are taken as an integer and a boolean, already defaulted to 0 and false. Python compares whatever JSON values arrive.
- Directory.NetworkManager.GetRandomNodes: the choice is an arbitrary one, so the uniform distribution of `random.sample` is not modelled.
- The directory's reload-from-file on every call and `save_network`: the directory is an in-memory map.
- `resolve_conflicts` swallows any exception from the directory lookup. The directory listing is given, so that path is not modelled.
- auth/user_manager.py, network/peer_discovery.py, cleanup scripts, demo and attack scripts other than the eclipse flooding sequence, and visualization.py: these are I/O, menus or process control.
- test_system.py tests 1 and 5 send coins from an account with no balance, which `add_transaction` refuses. They are not used as a description of the behaviour.
