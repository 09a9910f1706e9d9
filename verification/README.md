# RexCoin, verified model

RexCoin is a C++ blockchain: blocks of transactions linked by double-SHA256 hashes, an output set kept
in memory and in a key-value store, a block cache, Base58 addresses, Merkle trees, stake-weighted
consensus, governance, a gas-metered virtual machine, a length-prefixed wire protocol and a payment
routing layer. This project states in Dafny what these parts guarantee and proves it for all inputs and
all runs.

Check everything with `dafny verify dfyconfig.toml`.

## How the model is built

- Objects that the program updates in place are classes with the same fields; their methods are proved
  against specification functions, and the theorems about whole runs are lemmas about those functions.
- Digests are an arbitrary function from text to 64 lower-case hexadecimal characters, passed as a
  parameter. No theorem assumes it collision free: where a collision would matter, the lemma returns the
  two colliding inputs.
- Integer widths are explicit: `Wrap32` and `Wrap64` stand at every place where the program's unsigned
  arithmetic can wrap around.
- Clock readings and the bytes a peer sends are parameters. Where the program iterates over a hash map,
  the order is a parameter (`order`) or is chosen arbitrarily inside the loop, so results hold for every order.
- Exceptions and error returns are `Option` results or boolean results.

| file | models |
|---|---|
| `Lightning.dfy` | channel graph and breadth-first route search |
| `LruCache.dfy`, `LruTraces.dfy` | recency list with a map of iterators; properties of whole operation traces |
| `Base58.dfy`, `Base58Check.dfy` | base conversion loops; the checksum frame |
| `Merkle.dfy`, `MerkleLayers.dfy` | root building, proofs, collisions; leaf lists and proofs of any length |
| `Transactions.dfy`, `Blocks.dfy` | transaction and header hashing, coinbases, mining |
| `Utxo.dfy`, `Supply.dfy` | output set, conservation of value, halving schedule, supply bound |
| `Database.dfy`, `ChainModel.dfy`, `Blockchain.dfy` | key-value store, abstract chain state, the chain object |
| `BlockWrites.dfy`, `Records.dfy` | what a block writes under each kind of key; the fields of stored texts |
| `Agreement.dfy`, `ChainRuns.dfy` | memory against database for one block; invariants of every run |
| `RunRecords.dfy` | difficulty, metadata, height index, cache and records after every run |
| `ProofOfStake.dfy`, `SeedPicks.dfy` | weighted selection, rewards; which validators a seed can select |
| `Hybrid.dfy`, `HeadsAndStakes.dfy` | finality quorums; when a quorum of heads is one of stakes |
| `Governance.dfy` | proposals and stake-weighted ballots |
| `Vm.dfy` | gas meter and interpreter |
| `Wire.dfy` | framing and the receiving loop |
| `CapRuns.dfy` | runs that issue everything there is to issue |
| `Doubles.dfy` | the comparison of a quotient of doubles with 0.67 |
| `Text.dfy`, `MapSums.dfy`, `Arithmetic.dfy` | decimal text and sequences, sums over maps, products and quotients |

## What the program does that its documents do not say

- The halving is an integer shift: the rewards are 50, 25, 12, 6, 3 and 1 coins (`Supply.RewardSchedule`),
  not 12.5 and 6.25, and 20,370,000 coins are ever issued, not 21,000,000. The halving count passes through
  a 32-bit cast, so the reward starts over at chain size 210,000 * 2^32: honest runs of n blocks stay within
  the cap if and only if n is at most that (`Supply.SupplyCapExactly`, and `CapRuns.CapHoldsExactly` for the
  chain object under any digest that lets blocks of the initial difficulty be mined), and under each such
  digest runs that issue everything exist for every n (`CapRuns.EverythingIsIssued`).
- The hash of a coinbase does not cover its block height. Two coinbases of one reward share their hash exactly
  when they agree in second and miner (`Transactions.CoinbaseHashDetermines`), and then the second replaces
  the first; otherwise it is paid in full, unless its key is in use already (`Supply.PaidInFullExactly`).
- `updateUTXOs` deletes spent outputs from the database before `persistBlock` writes the block's outputs, so
  an output that is created and spent in one block stays in the database
  (`Agreement.ChainedSpendBreaksAgreement`). `ChainRuns.AgreementOverRun` proves that this is the only way in
  which memory and database can part.
- `verifyProof` always puts the running hash on the left and looks at no length. It accepts a digest-sized string
  exactly with the proof of the first node of the layer as far below the root as the proof is long, or, with a
  longer proof, if it hashes up to the first leaf (`MerkleLayers.AcceptedExactly`). So it accepts the root itself
  and inner nodes as leaves (`MerkleLayers.RootIsAccepted`, `MerkleLayers.InnerNodeIsAccepted`).
- An odd layer repeats its last element, so lists of different lengths can share a root. They do exactly when
  their completed trees agree as far down as the lower one reaches, or a digest collision is exhibited
  (`MerkleLayers.EqualRootsExactly`).
- Header fields are hashed without separators, so two different headers can have one hash whatever the
  digest function is (`Blocks.HeaderTextIsAmbiguous`). The hash determines the header exactly when time and
  difficulty are written with as many characters (`Blocks.HeaderHashDetermines`). Transactions behave alike
  (`Transactions.TransactionTextIsAmbiguous`, `Transactions.TransactionHashCommits`).
- The pick of a validator is read from eight hexadecimal characters, a byte each, so it always lies between
  0x3030303030303030 and 0x6666666666666666 (`SeedPicks.PickRange`), and an active validator may be out of reach
  of every seed (`SeedPicks.NeverSelectable`). A validator can be selected by some digest if and only if the
  remainder of some code of eight characters makes the scan stop there first (`SeedPicks.SelectableExactly`).
  Only for picks that range over all of [0, total) is selection proportional to stake, and then if and only if
  the stakes add up to less than 2^64 (`ProofOfStake.SelectionIsProportional`).
- Stakes are added in 64 bits. `distributeRewards` multiplies before it divides, and
  divides by that total. While the total fits, the payout is exact if and only if no product reaches 2^64
  (`ProofOfStake.PayoutIsExact`), which realistic amounts already violate (`ProofOfStake.RealisticRewardWraps`).
  When the total does not fit and no product wraps, nearly twice the reward or more is paid
  (`ProofOfStake.WrappedTotalOverpays`), so that for a reward of at least one satoshi per active validator the
  reward is conserved if and only if the total fits (`ProofOfStake.RewardsAreConserved`). Where total and
  products wrap together the payout can be exact by accident (`ProofOfStake.ExactByAccident`).
- The documents ask for 67% stake-weighted votes, or two thirds; `finalizeBlock` counts heads, so validators
  holding less than 1% of the stake can finalize (`Hybrid.HeadsOutvoteStake`). The two agree for all lists
  without repetitions if and only if the smallest stakes that make a head quorum hold 67% and the largest that
  make none do not (`HeadsAndStakes.HeadsAreStakesExactly`). It also counts a repeated voter repeatedly: the
  count is that of distinct supporters if and only if no active validator is listed twice (`Hybrid.VotesAreSupporters`), and with
  repetitions any two active validators can finalize two blocks without a common supporter
  (`Hybrid.RepeatedVoterIsQuorum`).
- Vote ratios are compared as doubles. Below a total of 643,371,375,338,703 satoshis this is the exact
  comparison with 67%; at that total a smaller share passes (`Doubles.ExactBelow`, `Doubles.FirstRoundedUp`),
  and the exact condition is `Doubles.AtLeast67Exactly`.
- Ballots are added in 64 bits as well. A proposal's totals are the stakes of its ballots if and only if neither
  side reaches 2^64 (`Governance.OutcomeIsTheBallots`); beyond, less than half of the weight can pass a proposal
  (`Governance.MinorityRun`).
- Proposal identifiers run proposer, title and number together, so the eleventh proposal can bring the
  identifier of the first (`Governance.IdentifierIsReused`). A passed proposal stays passed if and only if no
  submission reuses its identifier (`Governance.PassedStaysExactly`); a reuse starts the votes anew but keeps
  the earlier voters locked out (`Governance.ReuseResets`). `Governance.PassedIsUndoneInARun` is a run in which
  that happens.
- Blocks are indexed under their plain height, and `getHashAtHeight` reads the height filled up to ten digits. It
  finds a block if and only if its height has ten digits (`RunRecords.HashAtHeightExactly`).
- A digest has 64 characters, so no block of a higher difficulty can be mined: over every run the difficulty
  stays between 1 and 64 and its increment never wraps (`RunRecords.DifficultyOverRun`).
- Base58 adds one superfluous '1' to a non-empty all-zero input; the round trips hold exactly for all
  others.
- The route search marks the end of its way back with the empty string. An empty address on the path cuts the
  route short (`Lightning.EmptyAddressCutsRoute`); `Lightning.RouteIsWhole` says exactly when. A
  search without a path leaves the fee uninitialised.
- The gas meter adds in 64 bits. For limits within 200 of 2^64 it can wrap around instead of refusing;
  `Vm.TooLittleGas` gives the exact condition.

## Model

| member | source | states |
|---|---|---|
| `Lightning.LightningNetwork.FindRoute` | src/layer2/lightning.cpp:18-44 | for every graph and all addresses the search ends; without a path there are no hops; otherwise the route is what follows the empty string on a repetition-free path that no other path beats in length, and between non-empty addresses it is such a path; 10 per intermediate hop |
| `Lightning.RouteIsWhole` | src/layer2/lightning.cpp:40-41 | a route joins its two ends exactly when the shortest path it comes from avoids the empty string |
| `Lightning.EmptyAddressCutsRoute` | src/layer2/lightning.cpp:40-41 | a graph with an empty address in which the route from a to b is cut down to b |
| `Lightning.LightningNetwork.AddChannel` | src/layer2/lightning.cpp:9-16 | one more link in each direction and no other change, so symmetry is kept |
| `Lightning.RoutesAreReversible` | src/layer2/lightning.cpp:9-44 | in a symmetric graph routes exist both ways or neither, and the shortest have equal length |
| `LruCache.LRUCache.Put` | src/storage/cache.cpp:2-6 | the list and the map of iterators together refine a bounded move-to-front list |
| `LruCache.LRUCache.Get` | src/storage/cache.cpp:7-11 | a hit returns the value and moves the key to the front; a miss changes nothing |
| `LruTraces.LargerCacheIncludes` | src/storage/cache.cpp:2-11 | on every trace the smaller cache's list is a subsequence of the larger one's, with equal values |
| `LruTraces.PresentExactly` | src/storage/cache.cpp:2-11 | a key is present exactly while fewer than capacity distinct other keys were put or hit since its own last put or hit |
| `LruTraces.CacheIsTopOfRanking` | src/storage/cache.cpp:2-11 | the cache holds the first capacity keys of the unbounded recency ranking |
| `LruTraces.PresentValueIsLatest` | src/storage/cache.cpp:2-11 | a present key carries the value of its latest put |
| `Base58.Encode` | src/crypto/base58.cpp:9-35 | the loops compute leading '1's followed by the base-58 digits of the number |
| `Base58.Decode` | src/crypto/base58.cpp:62-84 | the loops compute the bytes of the number, or fail on a foreign character |
| `Base58.Divide` | src/crypto/base58.cpp:19-28 | one pass is exact division by 58: value = quotient * 58 + remainder, quotient without leading zeros |
| `Base58.MultiplyAdd` | src/crypto/base58.cpp:72-78 | the in-place pass with its carry, which never exceeds 57, equals the recursive multiply-and-add |
| `Base58.DecodeEncode` | src/crypto/base58.cpp:9-84 | decoding undoes encoding if and only if the input is empty or has a non-zero byte; otherwise one zero is added |
| `Base58.EncodeDecode` | src/crypto/base58.cpp:9-84 | encoding undoes decoding if and only if the string is empty or has a character other than '1' |
| `Base58.EncodeInjective` | src/crypto/base58.cpp:9-35 | no two byte vectors share an encoding |
| `Base58.LettersExactly` | src/crypto/base58.cpp:5-6 | a single character is decoded if and only if it is a digit or letter other than '0', 'I', 'O' and 'l' |
| `Base58.LettersInOrder` | src/crypto/base58.cpp:5-6 | greater characters stand for greater digits |
| `Base58.EncodedExamples` | src/crypto/base58.cpp:9-35 | the byte 57 is written "z", 58 is "21" and the bytes 1, 0 are "5R" |
| `Base58Check.EncodeCheck` | src/crypto/base58.cpp:37-60 | encodes version, payload and the first four bytes of the double digest |
| `Base58Check.ChecksumIs` | src/crypto/base58.cpp:44-57 | the checksum, written in hexadecimal, is the first eight characters of the digest of the bytes that the first digest denotes |
| `Base58Check.DecodeCheck` | src/crypto/base58.cpp:86-112 | accepts exactly the strings with a correct checksum; what is left in the reference parameters in every case |
| `Base58Check.CheckRoundTrip` | src/crypto/base58.cpp:37-112 | version and payload come back exactly when version, payload and checksum are not all zero |
| `Base58Check.AcceptedIsEncoding` | src/crypto/base58.cpp:37-112 | an accepted string is the encoding of what it yields if and only if it has a character other than '1' |
| `Base58Check.AddressesAreUnique` | src/crypto/base58.cpp:86-112 | two accepted strings with one version and payload, neither a run of '1's, are equal |
| `Merkle.BuildRoot` | src/core/merkle.cpp:9-26 | the layer loop computes the root of the tree |
| `MerkleLayers.RootOfHalves` | src/core/merkle.cpp:5-26 | for two lists of 2^k leaves each, the root of both is the double digest of the left root followed by the right root |
| `MerkleLayers.SmallRoots` | src/core/merkle.cpp:10-25 | no leaf gives 64 zeros, one gives itself, and of three the last is hashed with itself |
| `Merkle.GenerateProof` | src/core/merkle.cpp:28-55 | the loop collects the siblings of the first occurrence, or nothing |
| `Merkle.VerifyProof` | src/core/merkle.cpp:57-66 | accepts exactly when the left fold of the proof is the root |
| `Merkle.ParityFoldRebuildsRoot` | src/core/merkle.cpp:9-55 | every generated proof, folded by index parity, rebuilds exactly the root |
| `Merkle.ProofLength` | src/core/merkle.cpp:40-53 | a proof has the logarithm of the number of leaves, rounded up, many entries |
| `Merkle.EqualRootsCollide` | src/core/merkle.cpp:9-26 | two different leaf lists of one length with one root yield two different pairs with one pair hash |
| `Merkle.EqualRootsBreakHash` | src/core/merkle.cpp:5-26 | when the leaves are digests they yield a collision of the digest itself |
| `MerkleLayers.EqualRootsExactly` | src/core/merkle.cpp:9-26 | two lists of digests of any lengths have one root exactly when their trees, completed by repeating the odd tail of every layer, agree as far down as the lower one reaches, or a collision is exhibited |
| `MerkleLayers.SameTreeSameLength` | src/core/merkle.cpp:9-26 | for lists of one length this means that they are equal |
| `MerkleLayers.TopCompleted` | src/core/merkle.cpp:15-25 | completing the leaves does not change the root |
| `Merkle.OddTailIsInvisible` | src/core/merkle.cpp:17-18 | repeating the last one of an odd number of leaves keeps the root |
| `MerkleLayers.RootIsALeaf` | src/core/merkle.cpp:10-11 | a single leaf can have the root of any list, and the empty list that of a leaf of zeros |
| `Merkle.VerifyAcceptsFirstLeafOnly` | src/core/merkle.cpp:28-66 | of the generated proofs, that of a leaf first at index 0 is accepted; acceptance of the proof of a later leaf exhibits a digest collision |
| `MerkleLayers.AcceptedExactly` | src/core/merkle.cpp:57-66 | for proofs of any length: a digest-sized string is accepted exactly with the proof of the first node of the layer as far below the root as the proof is long, or, with a longer proof, if it hashes up to the first leaf, or a collision is exhibited |
| `MerkleLayers.RootIsAccepted` | src/core/merkle.cpp:57-66 | the root is accepted as a leaf, with the empty proof |
| `MerkleLayers.InnerNodeIsAccepted` | src/core/merkle.cpp:57-66 | the parent of the first two leaves is accepted with the rest of the first leaf's proof |
| `Transactions.CalculateHash` | src/core/transaction.cpp:45-53 | the streamed text is time, coinbase flag, inputs and outputs in order; scripts are not covered |
| `Transactions.TextWithInput` | src/core/transaction.cpp:48-49 | every input adds the hash and the index it names to the hashed text |
| `Transactions.TextWithOutput` | src/core/transaction.cpp:50-51 | every output adds its amount and its address |
| `Transactions.CreateCoinbase` | src/core/transaction.cpp:12-34 | the coinbase with its placeholder input, reward in satoshis and hash |
| `Transactions.CoinbaseParts` | src/core/transaction.cpp:12-34 | flag, time, the all-zero placeholder with index 2^32 - 1 and the height in its script, the reward in satoshis, the miner and both script texts |
| `Transactions.CoinbaseHashIs` | src/core/transaction.cpp:12-53 | a coinbase hash is the double digest of second, flag, placeholder input, satoshis and miner, in this order |
| `Transactions.CoinbaseHashDetermines` | src/core/transaction.cpp:12-53 | two coinbases of one reward share their hash exactly when they agree in second and miner, whatever their heights, or a collision is exhibited |
| `Transactions.TransactionHashCommits` | src/core/transaction.cpp:45-53 | two transactions have equal content, scripts aside, exactly when their hashes are equal and all parts are written with as many characters, or a collision is exhibited |
| `Transactions.TransactionTextIsAmbiguous` | src/core/transaction.cpp:45-53 | two transactions that pay different amounts to different addresses with one hash, for every digest function |
| `Utxo.KeyInjective` | src/core/utxo.h:15-17 | the key determines transaction hash and index, whatever the hash contains |
| `Utxo.UTXOSet.SpendUTXO` | src/core/utxo.cpp:8-14 | succeeds exactly on a live output, which becomes spent; otherwise nothing changes |
| `Utxo.UTXOSet.GetBalance` | src/core/utxo.cpp:24-30 | the sum of the address's live outputs modulo 2^64, in every iteration order |
| `Utxo.BalancesAddUp` | src/core/utxo.cpp:24-30 | the balances of all addresses add up to the unspent value |
| `Utxo.TransactionConserves` | src/core/blockchain.cpp:166-180 | after a transaction unspent + accepted inputs + overwritten value = unspent before + outputs; a new hash overwrites nothing |
| `Supply.BlockConserves` | src/core/blockchain.cpp:164-182 | the same balance for whole blocks, with spending inside the block |
| `Supply.PaidInFullExactly` | src/core/transaction.cpp:12-34 | after one coinbase a second one of the same reward is paid in full exactly when it differs in second or miner, or a collision is exhibited |
| `Supply.RewardSchedule` | src/core/blockchain.cpp:193-197 | 50, 25, 12, 6, 3, 1 coins and then nothing, by the 32-bit era number |
| `Supply.IssuanceCap` | src/core/blockchain.cpp:193-197 | full rewards stay within 20,370,000 coins if and only if the chain has at most 210,000 * 2^32 blocks |
| `Supply.SupplyCapExactly` | src/core/blockchain.cpp:164-197 | all honest runs of n blocks keep the unspent value within 20,370,000 coins if and only if n is at most 210,000 * 2^32 |
| `Supply.SupplyNeverExceedsCap` | src/core/blockchain.cpp:164-197 | up to there the balances of all addresses add up to the unspent value, at most 20,370,000 coins, below 21,000,000, and no balance wraps |
| `ChainRuns.SupplyIsCapped` | src/core/blockchain.cpp:123-197 | the same sum of balances and bound for every run of the chain object up to that number of blocks |
| `CapRuns.CapHoldsExactly` | src/core/blockchain.cpp:123-197 | honest runs of the chain object that reach n blocks stay within the cap for n up to 210,000 * 2^32 under any digest, and for no other n under any digest that lets every header of the initial difficulty be mined |
| `CapRuns.EverythingIsIssued` | src/core/blockchain.cpp:69-197 | under every such digest there is, for every n, an honest run of n blocks whose unspent value is all that is issued |
| `CapRuns.SomeDigestIsMinable` | src/core/block.cpp:38-49 | there is such a digest |
| `Database.BlockchainDB.WriteBatch` | src/storage/leveldb.cpp:108-123 | all puts in order, then all deletions; nothing when closed |
| `Database.BatchAt` | src/storage/leveldb.cpp:119-121 | a batch read key by key: deletions win, then the last put, then the old value |
| `BlockWrites.HeightPersisted` | src/core/blockchain.cpp:97-140 | of all that a block writes exactly one entry concerns the height index: its own, with its hash |
| `BlockWrites.MetaPersisted` | src/core/blockchain.cpp:136-140 | of the metadata a block changes exactly height and best hash |
| `Records.BlockFields` | src/core/blockchain.cpp:80-94 | split at '|', a block record reads index, hash, previous hash, Merkle root, time, difficulty, nonce, number of transactions, and then hash, flag and number of outputs of each transaction |
| `Records.TransactionFields` | src/core/blockchain.cpp:104-110 | a transaction record reads hash, flag and time, and then address and amount of every output |
| `Records.UnspentFields` | src/core/blockchain.cpp:114-116 | an output record reads address, amount and 0 |
| `Blocks.Block.constructor` | src/core/block.cpp:8-25 | version 1, nonce 0, the Merkle root of the transactions and the hash of that header |
| `Blocks.Block.Mine` | src/core/block.cpp:38-55 | when it returns the block is valid, only nonce and hash have changed, and every earlier nonce was losing |
| `Blocks.Block.IsValid` | src/core/block.cpp:57-61 | the stored hash is the header's and starts with the required zeros |
| `Blocks.ValidExactly` | src/core/block.cpp:27-61 | a block is valid if and only if its hash is the double digest of version, previous hash, Merkle root, time, difficulty and nonce in this order and has the character '0' at each of the first places, as many as the difficulty says |
| `Blocks.HeaderHashCommits` | src/core/block.cpp:27-36 | equal header hashes mean equal previous hash, Merkle root and run of time, difficulty and nonce, and conversely, or a collision is exhibited |
| `Blocks.HeaderHashDetermines` | src/core/block.cpp:27-36 | two headers are equal exactly when their hashes are and time and difficulty are written with as many characters, or a collision is exhibited |
| `Blocks.HeaderTextIsAmbiguous` | src/core/block.cpp:27-36 | two different headers with one hash, for every digest function |
| `Blockchain.Blockchain.constructor` | src/core/blockchain.cpp:8-20 | an open, empty database, an empty cache of 512 entries, difficulty 4 |
| `Blockchain.Blockchain.StartFresh` | src/core/blockchain.cpp:23-31 | a fresh chain holds a mined genesis block, recorded in output set and database; the whole initial state |
| `Blockchain.Blockchain.AddBlock` | src/core/blockchain.cpp:123-148 | the new state of chain, output set, database, cache and difficulty as one function of the old one; the new tip is a mined successor |
| `Blockchain.Blockchain.UpdateUTXOs` | src/core/blockchain.cpp:164-182 | the block's effect on the output set, and the deletion of every named input from the database |
| `Blockchain.Blockchain.PersistBlock` | src/core/blockchain.cpp:97-120 | the block's puts in order: record, height index, transactions and outputs |
| `Blockchain.Blockchain.AdjustDifficulty` | src/core/blockchain.cpp:151-161 | one step up (wrapping at 32 bits) or down (not below 1) by the age of the window; the time and the stored value follow |
| `Blockchain.Blockchain.GetBlockByHash` | src/core/blockchain.cpp:208-216 | answers from the cache, then the database, and reorders only the cache |
| `Blockchain.Blockchain.IsValid` | src/core/blockchain.cpp:185-191 | accepts exactly the chains whose later blocks are valid and name their predecessor |
| `Agreement.BlockKeepsAgreement` | src/core/blockchain.cpp:97-182 | a block keeps memory and database in agreement if and only if it spends no output after creating it (unless it creates it again), even when hashes repeat |
| `Agreement.FreshBlockKeepsAgreement` | src/core/blockchain.cpp:97-182 | with new hashes: if and only if no transaction spends an output of an earlier one of the block |
| `Agreement.ChainedSpendBreaksAgreement` | src/core/blockchain.cpp:123-182 | a block of two transactions after which memory has forgotten an output that the database keeps |
| `ChainRuns.AgreementOverRun` | src/core/blockchain.cpp:123-216 | memory and database agree after every call of a run if and only if no block of the run spends an output after creating it (unless it creates it again) |
| `ChainRuns.CacheFaithfulOverRun` | src/core/blockchain.cpp:123-216 | in every reachable state each cached item is the database's record |
| `ChainRuns.LookupIsTransparent` | src/core/blockchain.cpp:208-216 | in every reachable state the cached lookup answers what the database would, for every hash |
| `ChainRuns.BlocksStayRetrievable` | src/core/blockchain.cpp:123-216 | every block added stays retrievable by its hash, through evictions, until a block of the same hash follows |
| `ChainRuns.RunsAreValid` | src/core/blockchain.cpp:123-191 | every run leaves a chain that the validity check accepts and whose blocks carry their Merkle roots |
| `RunRecords.BlocksAreMined` | src/core/blockchain.cpp:23-148 | in every run each block hash starts with as many zeros as the block's difficulty says |
| `RunRecords.GenesisFields` | src/core/blockchain.cpp:69-77 | the genesis block pays 5,000,000,000 satoshis to the fixed address, names 64 zeros as predecessor, and its hash starts with four zeros |
| `RunRecords.DifficultyOverRun` | src/core/blockchain.cpp:123-161 | in every run the difficulty of each block is that of the block before, moved every 2016 blocks by at most one according to the clock readings at both ends of the window; it never wraps and stays between 1 and 64 |
| `RunRecords.TipRecordedOverRun` | src/core/blockchain.cpp:23-161 | after every run the metadata hold height, hash and difficulty of the tip |
| `RunRecords.IndexOverRun` | src/core/blockchain.cpp:23-148 | after every run the entry of a height is the hash of the last block of that height in 32 bits, or is missing |
| `RunRecords.HashAtHeightExactly` | src/storage/leveldb.cpp:176-177 | after every run the padded reader finds a height if and only if it has ten digits and is that of a block, and then the right hash |
| `RunRecords.TransactionsOverRun` | src/core/blockchain.cpp:97-148 | after every run the record under a transaction hash is that of the last transaction of the chain with that hash, or is missing |
| `RunRecords.OutputsListedOverRun` | src/core/blockchain.cpp:97-182 | in runs that lose no output, the database holds address and amount of an output exactly while memory has it unspent |
| `RunRecords.CachedExactly` | src/core/blockchain.cpp:142-216 | after every run a block is cached exactly while fewer than 512 other blocks were added or hit since it was |
| `RunRecords.LookupReads` | src/core/blockchain.cpp:80-216 | the lookup of a block after genesis answers with a record whose first fields are its index, its hash and the hash of the block before it |
| `RunRecords.DatabaseHoldsChain` | src/core/blockchain.cpp:23-148 | after every run the records met from the recorded best hash along the previous hashes are those of the whole chain, in order down to genesis, or a collision is exhibited or some block has the hash of 64 zeros |
| `ChainRuns.TipHashCommits` | src/core/blockchain.cpp:185-191 | two valid chains of one length and tip hash agree on all previous hashes and Merkle roots after genesis, and on a whole header exactly where time and difficulty have equal widths, or exhibit a collision |
| `ChainRuns.TipHashCommitsToHistory` | src/core/blockchain.cpp:123-191 | two runs of one length with one tip hash have one completed tree of transaction hashes in every block after genesis, and the same hashes where there are as many, or a collision is exhibited |
| `ChainRuns.TipHashCommitsToContents` | src/core/blockchain.cpp:123-191 | when transactions carry their own hashes, their contents agree at every position of equally high trees exactly where written with equal widths, or a collision is exhibited |
| `ProofOfStake.ProofOfStake.SelectValidator` | src/consensus/pos.cpp:28-49 | the scan over any visiting order, with the pick read from eight digest characters |
| `ProofOfStake.SelectedExactly` | src/consensus/pos.cpp:42-48 | for stakes of any size, the validator selected is the first active one whose wrapped running total exceeds the pick |
| `ProofOfStake.NeverFallsThrough` | src/consensus/pos.cpp:32-48 | for stakes of any size the fallback is never reached and an inactive validator is never selected |
| `ProofOfStake.SelectionIsProportional` | src/consensus/pos.cpp:42-48 | over all picks in [0, total), each validator is selected exactly its active stake many times if and only if the stakes add up to less than 2^64; otherwise somebody is selected too rarely |
| `SeedPicks.PickRange` | src/consensus/pos.cpp:36-39 | the pick read from a digest lies between 0x3030303030303030 and 0x6666666666666666 |
| `SeedPicks.PicksFollowCodes` | src/consensus/pos.cpp:36-39 | different codes of eight characters give different picks, in alphabetical order |
| `SeedPicks.SelectableExactly` | src/consensus/pos.cpp:36-48 | some digest selects a validator if and only if the remainder of some code of eight hexadecimal characters makes the scan stop there first |
| `SeedPicks.SelectableInSlot` | src/consensus/pos.cpp:36-48 | while the stakes add up to less than 2^64: if and only if the remainder of some code lies in its slot |
| `SeedPicks.NeverSelectable` | src/consensus/pos.cpp:36-48 | two active validators, the first of which no digest ever selects |
| `ProofOfStake.ProofOfStake.DistributeRewards` | src/consensus/pos.cpp:59-69 | each active validator's rewards grow by its share and nothing else changes |
| `ProofOfStake.PayoutIsExact` | src/consensus/pos.cpp:59-69 | while the stakes add up to less than 2^64 the payout never exceeds what is due and equals it if and only if no product wraps |
| `ProofOfStake.WrappedTotalOverpays` | src/consensus/pos.cpp:59-69 | when they do not, no product wraps and the divisor is not zero, more than twice the reward less one satoshi per active validator is paid |
| `ProofOfStake.TwoArePaidTwice` | src/consensus/pos.cpp:59-69 | two validators whose stakes add up to more than 2^64 are paid twice the reward or more |
| `ProofOfStake.OneSatoshiPaysCoins` | src/consensus/pos.cpp:59-69 | stakes of 2^63 and 2^63 plus 1000 coins: a reward of one satoshi pays 184,467,441 |
| `ProofOfStake.RewardsAreConserved` | src/consensus/pos.cpp:59-69 | without wrapping products and for at least one satoshi per active validator: the reward is paid, short of less than one satoshi each, if and only if the stakes add up to less than 2^64 |
| `ProofOfStake.ExactByAccident` | src/consensus/pos.cpp:59-69 | three validators for which total and product wrap and the payout is exact all the same |
| `ProofOfStake.RecordedGrowth` | src/consensus/pos.cpp:63-68 | the recorded rewards grow by exactly the payout if and only if no counter overflows |
| `ProofOfStake.RealisticRewardWraps` | src/consensus/pos.cpp:66 | 50 coins over the minimum stake already wrap |
| `Hybrid.ConfirmedExactly` | src/consensus/hybrid.cpp:19-55 | over every run a block is confirmed exactly if it was before or some call finalized it; finality is never lost |
| `Hybrid.HybridConsensus.FinalizeBlock` | src/consensus/hybrid.cpp:19-46 | finalizes exactly with no active validators or when the rounded ratio of counted votes reaches 0.67; the whole new state |
| `Hybrid.FinalizesExactly` | src/consensus/hybrid.cpp:35-37 | for counts that fit an int this is the exact comparison with 67% |
| `Hybrid.QuorumsIntersect` | src/consensus/hybrid.cpp:30-41 | two duplicate-free accepted voter lists share at least 34% of the active validators; exact discount for repetitions |
| `Hybrid.FinalizationsIntersect` | src/consensus/hybrid.cpp:19-46 | two finalizations of one run with the same active validators and duplicate-free lists have at least 34% of these behind both |
| `Hybrid.VotesAreSupporters` | src/consensus/hybrid.cpp:30-32 | the counted votes are the distinct supporters if and only if no active validator is listed twice |
| `Hybrid.RepeatedVoterIsQuorum` | src/consensus/hybrid.cpp:30-41 | two active validators, each listed often enough, finalize two blocks without a common supporter |
| `Hybrid.HeadsAreStakes` | src/consensus/hybrid.cpp:19-46 | for equal stakes and no repetition a head quorum is a stake quorum |
| `HeadsAndStakes.HeadsAreStakesExactly` | src/consensus/hybrid.cpp:19-46 | heads and stakes agree for all lists without repetitions if and only if the smallest stakes that make a head quorum hold 67% and the largest that make none do not |
| `Hybrid.AllButOne` | src/consensus/hybrid.cpp:19-46 | everyone but one is a head quorum exactly from four validators on, and a stake quorum exactly if that one holds at most 33% |
| `Hybrid.HeadsOutvoteStake` | src/consensus/hybrid.cpp:19-46 | three small validators finalize against one that holds more than 99% of the stake |
| `Vm.GasMeter.Consume` | src/vm/gas.h:7-11 | charges exactly when the 64-bit sum stays within the limit |
| `Vm.VM.Execute` | src/vm/vm.cpp:32-91 | for every limit the loop yields the outcome determined by the live code and the 64-bit meter |
| `Vm.EnoughGas` | src/vm/vm.cpp:32-91 | there is one requirement; every limit at or above it gives the same result and uses exactly it |
| `Vm.TooLittleGas` | src/vm/vm.cpp:50-54 | a smaller limit reverts after exactly the longest affordable prefix if and only if the next sum of the meter stays below 2^64 |
| `Vm.AffordableIsLongest` | src/vm/vm.cpp:50-54 | a prefix is affordable exactly up to the length at which a smaller limit stops |
| `Vm.OutcomeIsSmall` | src/vm/vm.cpp:39-87 | at most one string is on the stack and the storage stays empty |
| `Vm.OutcomeStack` | src/vm/vm.cpp:39-87 | that string is the digest applied once for each SHA256 after the last SLOAD of what runs, to the empty string after an SLOAD and to the input otherwise; what runs is the live code or its longest affordable prefix |
| `Vm.LiveExactly` | src/vm/vm.cpp:44-62 | the live code ends with the first HALT (0x62) or REVERT (0x63) |
| `Vm.CostByCount` | src/vm/opcode.cpp:22-34 | the price of a program from the numbers of its instructions of each price |
| `Governance.GovernanceSystem.SubmitProposal` | src/governance/proposal.cpp:11-35 | a new active proposal without votes under a 12-character identifier |
| `Governance.GovernanceSystem.CastVote` | src/governance/proposal.cpp:37-64 | accepted exactly for an active proposal, enough stake and an unused vote key; the whole new state, tallied with the rounded ratio |
| `Governance.GovernanceSystem.TallyVotes` | src/governance/proposal.cpp:66-78 | passes the proposal when the ratio of doubles reaches 0.67 of a non-zero weight |
| `Doubles.AtLeast67Exactly` | src/governance/proposal.cpp:72-73 | for totals below 2^53 the exact condition under which the rounded ratio reaches 0.67 |
| `Doubles.AtLeast67IsRounded` | src/governance/proposal.cpp:72-73 | the modelled comparison is that of the quotient of doubles, rounded half to even, with the double nearest to 0.67 |
| `Doubles.ExactBelow` | src/governance/proposal.cpp:72-73 | below a total of 643,371,375,338,703 this is the exact comparison with 67% |
| `Doubles.FirstRoundedUp` | src/governance/proposal.cpp:72-73 | at that total a share below 67% passes |
| `Governance.OutcomeIsTheBallots` | src/governance/proposal.cpp:11-78 | in every run with new identifiers, whatever stakes are passed in: totals are the stakes of the accepted ballots modulo 2^64, one ballot per voter, and the stakes themselves if and only if each side stays below 2^64; active means a rounded ratio of these totals below 0.67 or none, which is the ratio of the stakes while they fit and the exact fraction below 643,371,375,338,703 |
| `Governance.MinorityPasses` | src/governance/proposal.cpp:56-77 | with 2^63 for and 2^63 plus 100 coins against, the proposal has passed with less than half of the weight |
| `Governance.MinorityRun` | src/governance/proposal.cpp:11-78 | a run of three calls that ends this way, for every digest function |
| `Governance.AcceptedExactly` | src/governance/proposal.cpp:41-54 | a ballot is accepted exactly if the voter has none yet on that active proposal; the vote key is unambiguous |
| `Governance.PassedStaysExactly` | src/governance/proposal.cpp:11-78 | a passed proposal stays passed through every later call if and only if no submission reuses its identifier |
| `Governance.IdentifierIsReused` | src/governance/proposal.cpp:6-9 | the first and the eleventh proposal of one proposer can have one identifier, for every digest function |
| `Governance.PassedIsUndone` | src/governance/proposal.cpp:11-35 | such an eleventh proposal undoes the first one although it has passed |
| `Governance.PassedIsUndoneInARun` | src/governance/proposal.cpp:11-78 | a run of ten submissions and a vote in which the first proposal passes, and the eleventh submission undoes it |
| `Governance.ReuseResets` | src/governance/proposal.cpp:11-54 | a reused identifier starts with no votes, and whoever voted before is refused |
| `Wire.Frame` | src/network/node.cpp:27-37 | four little-endian length bytes, sixteen type bytes, the payload |
| `Wire.FrameBytes` | src/network/node.cpp:27-37 | the first four bytes denote the length of the rest, lowest first; then the type filled up with spaces to sixteen, and the payload |
| `Wire.Unframe` | src/network/node.cpp:39-50 | the type without trailing spaces and the announced payload, or failure with the parameters untouched |
| `Wire.PayloadIsAnnounced` | src/network/node.cpp:39-50 | bytes beyond the announced length are not part of the payload |
| `Wire.LongTypeIsCut` | src/network/node.cpp:27-50 | a type of sixteen characters and more arrives cut off and without trailing spaces |
| `Wire.Socket.RecvRaw` | src/network/node.cpp:62-76 | consumes one record, or reports failure and what it has consumed by then |
| `Wire.Socket.HandlePeer` | src/network/node.cpp:183-217 | delivers the messages of the stream in order until the first failed read |
| `Wire.StreamRoundTrip` | src/network/node.cpp:27-76 | reading the concatenated frames of any list of sendable messages yields that list |
| `Wire.ArrivesExactly` | src/network/node.cpp:27-76 | a list of messages arrives unchanged if and only if every type fits and has no trailing space and every body is within 4 MiB |
| `Wire.DeliveredIsSendable` | src/network/node.cpp:39-76 | whatever the bytes, only such messages are ever delivered |
| `Wire.FrameUnframed` | src/network/node.cpp:27-50 | framing an unframed record of its announced length, at least 16, returns the record |

## Left out

- Governance.OutcomeIsTheBallots: holds for runs in which identifiers are new; with a reused identifier the totals start anew while the ballots remain.
- ChainRuns.TipHashCommitsToHistory: transaction hashes are 64 characters long, as digests are; longer and shorter strings can be concatenated ambiguously.
- Hybrid.FinalizesExactly: counts of 2^31 and more, which do not fit the program's counters.
- ProofOfStake.RewardsAreConserved: says nothing where products wrap as well as the total, since the payout can then be exact by accident.
- Blocks.Block.Mine: some nonce must win, since otherwise the program searches forever; the same holds for the start of a fresh chain and `addBlock`, which call it.
- Transactions with 2^32 or more outputs, for which the 32-bit output counter would never end.
- Reopening a saved chain (`loadFromDB` recreates only the genesis block), the LevelDB build, and the destructor's last metadata writes.
- The rounds of SHA-256, SHA-3 and RIPEMD-160, elliptic-curve and BLS signatures, zero-knowledge, stealth and wallet code.
- Sockets, threads, locks, peer tables, the PING, VERSION and GETADDR replies, DNS, Tor and synchronisation.
- Payment channels, fee rules, the mempool, pruning, the mixer, the treasury and the contract compiler.
- `HybridConsensus.proposeBlock`, which only calls the proof-of-work check; `getUTXOs`, `getUTXO`, prefix scans and printing.
- RPC, REST, WebSocket and command-line handling.
