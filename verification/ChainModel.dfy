/** The abstract state of the chain and the effect of each public operation on it. */
module ChainModel {
  import opened Text
  import opened Transactions
  import opened Utxo
  import opened Database
  import opened Blocks
  import Merkle
  import LruCache

  const CACHE_CAPACITY: nat := 512
  const GENESIS_ADDRESS: string := "RXCGenesisAddress_RexNetwork_2026"

  datatype ChainState = ChainState(
    chain: seq<BlockData>,          // the in-memory blocks, genesis first
    utxos: Utxos,                   // the in-memory output set
    memdb: Store,                   // the database
    cached: LruCache.Recency,       // the block cache, most recently used first
    difficulty: u32,
    lastAdjustment: int)

  // ---------------------------------------------------------------------------------------------
  // Serialized forms and database keys.

  function UtxoKey(k: string): string {
    "u:" + k
  }

  function BlockKey(hash: string): string {
    "b:" + hash
  }

  function HeightKey(index: u32): string {
    "h:" + Dec(index)
  }

  function CacheKey(hash: string): string {
    "blk:" + hash
  }

  function UtxoData(address: string, amount: nat): string {
    address + "|" + Dec(amount) + "|0"
  }

  function OutputData(output: TxOutput): string {
    UtxoData(output.address, output.amount)
  }

  function BlockSummary(b: BlockData): string {
    Dec(b.index) + "|" + b.hash + "|" + b.header.previousHash + "|" + b.header.merkleRoot + "|"
    + DecInt(b.header.timestamp) + "|" + Dec(b.header.difficulty) + "|" + Dec(b.header.nonce) + "|"
    + Dec(|b.transactions|)
  }

  function TxSummary(tx: Transaction): string {
    "|" + tx.txHash + "|" + (if tx.isCoinbase then "1" else "0") + "|" + Dec(|tx.outputs|)
  }

  function TxHead(tx: Transaction): string {
    tx.txHash + "|" + (if tx.isCoinbase then "1" else "0") + "|" + DecInt(tx.timestamp)
  }

  function OutputSummary(output: TxOutput): string {
    "|OUT:" + output.address + ":" + Dec(output.amount)
  }

  ghost function TxsSummary(txs: seq<Transaction>): string {
    if txs == [] then "" else TxsSummary(txs[..|txs| - 1]) + TxSummary(txs[|txs| - 1])
  }

  ghost function Serialized(b: BlockData): string {
    BlockSummary(b) + TxsSummary(b.transactions)
  }

  ghost function OutputsSummary(outputs: seq<TxOutput>): string {
    if outputs == [] then "" else OutputsSummary(outputs[..|outputs| - 1]) + OutputSummary(outputs[|outputs| - 1])
  }

  ghost function TxRecord(tx: Transaction): string {
    TxHead(tx) + OutputsSummary(tx.outputs)
  }

  // ---------------------------------------------------------------------------------------------
  // The two batches a block writes.

  ghost function InputDels(inputs: seq<TxInput>): (dels: seq<string>)
    ensures |dels| == |inputs| && forall i :: 0 <= i < |inputs| ==> dels[i] == UtxoKey(InputKey(inputs[i]))
  {
    seq(|inputs|, i requires 0 <= i < |inputs| => UtxoKey(InputKey(inputs[i])))
  }

  ghost function Dels(txs: seq<Transaction>): seq<string> {
    if txs == [] then [] else Dels(txs[..|txs| - 1]) + InputDels(txs[|txs| - 1].inputs)
  }

  ghost function OutputPuts(tx: Transaction, n: nat): seq<Put>
    requires n <= |tx.outputs|
  {
    if n == 0 then []
    else OutputPuts(tx, n - 1) + [Put(UtxoKey(KeyOf(tx.txHash, n - 1)), OutputData(tx.outputs[n - 1]))]
  }

  function TxKey(txHash: string): string {
    "t:" + txHash
  }

  ghost function TxPuts(tx: Transaction): seq<Put> {
    [Put(TxKey(tx.txHash), TxRecord(tx))] + OutputPuts(tx, |tx.outputs|)
  }

  ghost function TxsPuts(txs: seq<Transaction>): seq<Put> {
    if txs == [] then [] else TxsPuts(txs[..|txs| - 1]) + TxPuts(txs[|txs| - 1])
  }

  ghost function BlockPuts(b: BlockData): seq<Put> {
    [Put(BlockKey(b.hash), Serialized(b)), Put(HeightKey(b.index), b.hash)] + TxsPuts(b.transactions)
  }

  /** First the deletions of spent outputs, then everything the block adds. */
  ghost function AfterBlockWrites(db: Store, b: BlockData): Store {
    AfterBatch(AfterBatch(db, DBBatch([], Dels(b.transactions))), DBBatch(BlockPuts(b), []))
  }

  ghost function WithMeta(db: Store, name: string, v: string): Store {
    db[MetaKey(name) := v]
  }

  /** The height and the hash of the tip are written last. */
  ghost function WithTip(db: Store, hash: string, height: nat): Store {
    WithMeta(WithMeta(db, "height", Dec(height)), "bestHash", hash)
  }

  /** All that a block writes when it becomes the tip of a chain of the given height. */
  ghost function Persisted(db: Store, b: BlockData, height: nat): Store {
    WithTip(AfterBlockWrites(db, b), b.hash, height)
  }

  // ---------------------------------------------------------------------------------------------
  // The operations.

  /** Every 2016 blocks the difficulty moves by one when the window was four times too fast or too slow. */
  ghost function Adjusted(s: ChainState, clock: int): ChainState {
    if |s.chain| % 2016 == 0 && |s.chain| > 0 then
      var elapsed := clock - s.lastAdjustment;
      var d: u32 := if elapsed < 302_400 then Wrap32(s.difficulty + 1)
                    else if elapsed > 4_838_400 && s.difficulty > 1 then s.difficulty - 1
                    else s.difficulty;
      s.(difficulty := d, lastAdjustment := clock, memdb := WithMeta(s.memdb, "difficulty", Dec(d)))
    else s
  }

  /** The header of the next block before mining. */
  ghost function NextHeader(sha: Hash, s: ChainState, txs: seq<Transaction>, clock: int, now: int): Header
    requires s.chain != []
  {
    Header(1, s.chain[|s.chain| - 1].hash, Merkle.Root(sha, TxHashes(txs)), now, Adjusted(s, clock).difficulty, 0)
  }

  /** `b` is a mined successor of the tip of `s`. */
  ghost predicate IsSuccessor(sha: Hash, s: ChainState, b: BlockData, clock: int) {
    && s.chain != []
    && IsValidBlock(sha, b)
    && b.index == Wrap32(|s.chain|)
    && b.header == NextHeader(sha, s, b.transactions, clock, b.header.timestamp).(nonce := b.header.nonce)
  }

  /** A mined block is recorded in the output set, the database, the chain and the cache. */
  ghost function Appended(t: ChainState, b: BlockData): ChainState {
    t.(chain := t.chain + [b],
       utxos := AfterTxs(t.utxos, b.transactions),
       memdb := Persisted(t.memdb, b, |t.chain| + 1),
       cached := LruCache.AfterPut(CACHE_CAPACITY, t.cached, CacheKey(b.hash), Serialized(b)))
  }

  ghost function AfterAdd(s: ChainState, b: BlockData, clock: int): ChainState {
    Appended(Adjusted(s, clock), b)
  }

  /** A lookup by hash only touches the cache. */
  ghost function AfterLookup(s: ChainState, hash: string): ChainState {
    s.(cached := LruCache.AfterGet(s.cached, CacheKey(hash)))
  }

  /** What `getBlockByHash` answers: the cache first, then the database. */
  ghost function LookupResult(s: ChainState, hash: string): Lookup {
    match LruCache.Find(s.cached, CacheKey(hash))
    case Some(data) => Present(data)
    case None => Get(s.memdb, BlockKey(hash))
  }

  ghost function GenesisTx(sha: Hash, txTime: int): Transaction {
    Coinbase(sha, GENESIS_ADDRESS, 50, 0, txTime)
  }

  ghost function GenesisHeader(sha: Hash, txTime: int, now: int): Header {
    Header(1, seq(64, i => '0'), Merkle.Root(sha, TxHashes([GenesisTx(sha, txTime)])), now, 4, 0)
  }

  /** The genesis block of the given times, for the nonce that was found. */
  ghost function GenesisBlock(sha: Hash, txTime: int, now: int, nonce: u64): BlockData {
    var header := GenesisHeader(sha, txTime, now).(nonce := nonce);
    BlockData(0, header, [GenesisTx(sha, txTime)], HeaderHash(sha, header))
  }

  ghost predicate IsGenesis(sha: Hash, b: BlockData, txTime: int) {
    b == GenesisBlock(sha, txTime, b.header.timestamp, b.header.nonce) && Meets(b.hash, b.header.difficulty)
  }

  /** The state a fresh chain starts in. */
  ghost function Initial(b: BlockData, clock: int): ChainState {
    ChainState([b], AfterTxs(map[], b.transactions),
               WithMeta(Persisted(map[], b, 1), "difficulty", Dec(4)),
               [], 4, clock)
  }
}
