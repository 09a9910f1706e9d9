/** The chain object: blocks, output set, database and block cache kept side by side. */
module Blockchain {
  import opened Text
  import opened Transactions
  import opened Utxo
  import opened Database
  import opened Blocks
  import opened ChainModel
  import Merkle
  import LruCache
  import Supply

  class Blockchain {
    const sha: Hash
    var chain: seq<BlockData>
    const utxoSet: UTXOSet
    const db: BlockchainDB
    const blockCache: LruCache.LRUCache
    var currentDifficulty: u32
    var lastAdjustmentTime: int

    ghost predicate Valid()
      reads this, db, blockCache
    {
      db.isOpen && blockCache.Valid() && blockCache.cap == CACHE_CAPACITY && chain != []
    }

    ghost function State(): ChainState
      requires blockCache.Valid()
      reads this, utxoSet, db, blockCache
    {
      ChainState(chain, utxoSet.utxos, db.memdb, blockCache.Contents(), currentDifficulty, lastAdjustmentTime)
    }

    /** Everything is open and empty. */
    ghost predicate Blank()
      reads this, utxoSet, db, blockCache
    {
      && db.isOpen && db.memdb == map[] && utxoSet.utxos == map[] && chain == []
      && blockCache.Valid() && blockCache.cap == CACHE_CAPACITY && blockCache.Contents() == []
      && currentDifficulty == 4
    }

    /** The constructor up to the search for a saved chain. */
    constructor (sha: Hash, clock: int)
      ensures Blank() && blockCache.cap == 512 && this.sha == sha && lastAdjustmentTime == clock
    {
      this.sha := sha;
      chain := [];
      utxoSet := new UTXOSet();
      db := new BlockchainDB();
      blockCache := new LruCache.LRUCache(512);
      currentDifficulty := 4;
      lastAdjustmentTime := clock;
      new;
      var ok := db.Open();
    }

    /** The rest of the constructor for a fresh start: the genesis block is created, appended and saved. */
    method StartFresh(txTime: int, now: int) returns (genesis: BlockData)
      requires Blank()
      requires Winnable(sha, GenesisHeader(sha, txTime, now))
      modifies this`chain, utxoSet, db`memdb
      ensures Valid() && IsGenesis(sha, genesis, txTime)
      ensures State() == Initial(genesis, lastAdjustmentTime)
    {
      genesis := CreateGenesisBlock(txTime, now);
      chain := [genesis];
      SaveGenesis(genesis);
    }

    /** Saves the genesis block and the initial metadata. */
    method SaveGenesis(genesis: BlockData)
      requires db.isOpen
      modifies db`memdb
      ensures db.memdb == WithMeta(WithTip(AfterBatch(old(db.memdb), DBBatch(BlockPuts(genesis), [])), genesis.hash, 1),
                                   "difficulty", Dec(currentDifficulty))
    {
      PersistBlock(genesis);
      var ok := db.SetMeta("height", "1");
      ok := db.SetMeta("bestHash", genesis.hash);
      ok := db.SetMeta("difficulty", Dec(currentDifficulty));
    }

    method CreateGenesisBlock(txTime: int, now: int) returns (genesis: BlockData)
      requires db.isOpen && utxoSet.utxos == map[] && currentDifficulty == 4
      requires Winnable(sha, GenesisHeader(sha, txTime, now))
      modifies utxoSet, db`memdb
      ensures IsGenesis(sha, genesis, txTime)
      ensures utxoSet.utxos == AfterTxs(map[], genesis.transactions)
      ensures db.memdb == AfterBatch(old(db.memdb), DBBatch([], Dels(genesis.transactions)))
    {
      var genesisTx := CreateCoinbase(sha, GENESIS_ADDRESS, 50, 0, txTime);
      var b := new Block(sha, 0, seq(64, i => '0'), [genesisTx], currentDifficulty, now);
      var attempts := b.Mine();
      genesis := BlockData(b.index, b.header, b.transactions, b.hash);
      UpdateUTXOs(genesis);
    }

    method SerializeBlock(b: BlockData) returns (ss: string)
      ensures ss == Serialized(b)
    {
      var txs := SerializeTxs(b.transactions);
      ss := BlockSummary(b) + txs;
    }

    /** The loop of `serializeBlock`. */
    method SerializeTxs(txs: seq<Transaction>) returns (ss: string)
      ensures ss == TxsSummary(txs)
    {
      ss := "";
      for i := 0 to |txs|
        invariant ss == TxsSummary(txs[..i])
      {
        assert txs[..i + 1][..i] == txs[..i];
        ss := ss + TxSummary(txs[i]);
      }
      assert txs[..|txs|] == txs;
    }

    method RecordTx(tx: Transaction) returns (ts: string)
      ensures ts == TxRecord(tx)
    {
      ts := TxHead(tx);
      for i := 0 to |tx.outputs|
        invariant ts == TxHead(tx) + OutputsSummary(tx.outputs[..i])
      {
        assert tx.outputs[..i + 1][..i] == tx.outputs[..i];
        ts := ts + OutputSummary(tx.outputs[i]);
      }
      assert tx.outputs[..|tx.outputs|] == tx.outputs;
    }

    /** The puts of one transaction: its record and its outputs. */
    method PutTx(tx: Transaction) returns (puts: seq<Put>)
      ensures puts == TxPuts(tx)
    {
      var ts := RecordTx(tx);
      puts := [Put(TxKey(tx.txHash), ts)];
      for j := 0 to |tx.outputs|
        invariant puts == [Put(TxKey(tx.txHash), TxRecord(tx))] + OutputPuts(tx, j)
      {
        puts := puts + [Put(UtxoKey(KeyOf(tx.txHash, j)), OutputData(tx.outputs[j]))];
      }
    }

    /** The puts of all transactions of a block, in order. */
    method PutTxs(txs: seq<Transaction>) returns (puts: seq<Put>)
      ensures puts == TxsPuts(txs)
    {
      puts := [];
      for i := 0 to |txs|
        invariant puts == TxsPuts(txs[..i])
      {
        assert txs[..i + 1][..i] == txs[..i];
        var more := PutTx(txs[i]);
        puts := puts + more;
      }
      assert txs[..|txs|] == txs;
    }

    method PersistBlock(b: BlockData)
      requires db.isOpen
      modifies db`memdb
      ensures db.memdb == AfterBatch(old(db.memdb), DBBatch(BlockPuts(b), []))
    {
      var data := SerializeBlock(b);
      var puts := [Put(BlockKey(b.hash), data), Put(HeightKey(b.index), b.hash)];
      var more := PutTxs(b.transactions);
      var ok := db.WriteBatch(DBBatch(puts + more, []));
    }

    method UpdateUTXOs(block: BlockData)
      requires db.isOpen
      modifies utxoSet, db`memdb
      ensures utxoSet.utxos == AfterTxs(old(utxoSet.utxos), block.transactions)
      ensures db.memdb == AfterBatch(old(db.memdb), DBBatch([], Dels(block.transactions)))
    {
      var dels: seq<string> := [];
      var txs := block.transactions;
      for i := 0 to |txs|
        invariant utxoSet.utxos == AfterTxs(old(utxoSet.utxos), txs[..i])
        invariant dels == Dels(txs[..i])
        invariant db.memdb == old(db.memdb)
      {
        var tx := txs[i];
        assert txs[..i + 1][..i] == txs[..i];
        var more := SpendInputs(tx.inputs);
        dels := dels + more;
        AddOutputs(tx);
      }
      assert txs[..|txs|] == txs;
      if db.isOpen {
        var ok := db.WriteBatch(DBBatch([], dels));
      }
    }

    /** The first inner loop of `updateUTXOs`. */
    method SpendInputs(inputs: seq<TxInput>) returns (dels: seq<string>)
      modifies utxoSet
      ensures utxoSet.utxos == AfterInputs(old(utxoSet.utxos), inputs)
      ensures dels == InputDels(inputs)
    {
      dels := [];
      for i := 0 to |inputs|
        invariant utxoSet.utxos == AfterInputs(old(utxoSet.utxos), inputs[..i])
        invariant dels == InputDels(inputs)[..i]
      {
        assert inputs[..i + 1][..i] == inputs[..i];
        var ok := utxoSet.SpendUTXO(inputs[i].prevTxHash, inputs[i].outputIndex);
        dels := dels + [UtxoKey(KeyOf(inputs[i].prevTxHash, inputs[i].outputIndex))];
      }
      assert inputs[..|inputs|] == inputs;
    }

    /** The second inner loop of `updateUTXOs`. */
    method AddOutputs(tx: Transaction)
      modifies utxoSet
      ensures utxoSet.utxos == AfterOutputs(old(utxoSet.utxos), tx, |tx.outputs|)
    {
      for i := 0 to |tx.outputs|
        invariant utxoSet.utxos == AfterOutputs(old(utxoSet.utxos), tx, i)
      {
        utxoSet.AddUTXO(UTXO(tx.txHash, i, tx.outputs[i].address, tx.outputs[i].amount, false));
      }
    }

    method AdjustDifficulty(now: int)
      requires db.isOpen
      modifies this`currentDifficulty, this`lastAdjustmentTime, db`memdb
      ensures currentDifficulty == var elapsed := now - old(lastAdjustmentTime);
                                   if elapsed < 302_400 then Wrap32(old(currentDifficulty) + 1)
                                   else if elapsed > 4_838_400 && old(currentDifficulty) > 1
                                   then old(currentDifficulty) - 1 else old(currentDifficulty)
      ensures lastAdjustmentTime == now
      ensures db.memdb == WithMeta(old(db.memdb), "difficulty", Dec(currentDifficulty))
    {
      var elapsed := now - lastAdjustmentTime;
      var expected := 600 * 2016;
      if elapsed < expected / 4 {
        currentDifficulty := Wrap32(currentDifficulty + 1);
      } else if elapsed > expected * 4 && currentDifficulty > 1 {
        currentDifficulty := currentDifficulty - 1;
      }
      lastAdjustmentTime := now;
      var ok := db.SetMeta("difficulty", Dec(currentDifficulty));
    }

    /** The window test at the head of `addBlock`. */
    method AdjustIfDue(clock: int)
      requires Valid()
      modifies this`currentDifficulty, this`lastAdjustmentTime, db`memdb
      ensures Valid() && State() == Adjusted(old(State()), clock)
    {
      if |chain| % 2016 == 0 && |chain| > 0 {
        AdjustDifficulty(clock);
      }
    }

    /** Returns when the new block can be mined at all; `clock` and `now` are the two readings of the system clock. */
    method AddBlock(txs: seq<Transaction>, clock: int, now: int)
      requires Valid()
      requires Winnable(sha, NextHeader(sha, State(), txs, clock, now))
      modifies this`chain, this`currentDifficulty, this`lastAdjustmentTime, utxoSet, db`memdb, blockCache
      ensures Valid()
      ensures |chain| == |old(chain)| + 1
      ensures var b := chain[|chain| - 1];
        && b.transactions == txs && b.header.timestamp == now
        && IsSuccessor(sha, old(State()), b, clock)
        && State() == AfterAdd(old(State()), b, clock)
    {
      AdjustIfDue(clock);
      assert TipHeader(txs, now) == NextHeader(sha, old(State()), txs, clock, now);
      var newBlock := MineNext(txs, now);
      Append(newBlock);
    }

    /** Builds and mines the successor of the tip. */
    method MineNext(txs: seq<Transaction>, now: int) returns (newBlock: BlockData)
      requires chain != []
      requires Winnable(sha, TipHeader(txs, now))
      ensures IsValidBlock(sha, newBlock)
      ensures var header := TipHeader(txs, now).(nonce := newBlock.header.nonce);
        newBlock == BlockData(Wrap32(|chain|), header, txs, newBlock.hash)
    {
      var b := new Block(sha, Wrap32(|chain|), chain[|chain| - 1].hash, txs, currentDifficulty, now);
      var attempts := b.Mine();
      newBlock := BlockData(b.index, b.header, b.transactions, b.hash);
    }

    ghost function TipHeader(txs: seq<Transaction>, now: int): Header
      requires chain != []
      reads this
    {
      Header(1, chain[|chain| - 1].hash, Merkle.Root(sha, TxHashes(txs)), now, currentDifficulty, 0)
    }

    /** Writes a mined block to the output set and the database. */
    method Record(newBlock: BlockData)
      requires db.isOpen
      modifies utxoSet, db`memdb
      ensures utxoSet.utxos == AfterTxs(old(utxoSet.utxos), newBlock.transactions)
      ensures db.memdb == Persisted(old(db.memdb), newBlock, |chain| + 1)
    {
      UpdateUTXOs(newBlock);
      PersistBlock(newBlock);
      var ok := db.SetMeta("height", Dec(|chain| + 1));
      ok := db.SetMeta("bestHash", newBlock.hash);
    }

    /** Records a mined block in the output set, the database, the chain and the cache, in this order. */
    method Append(newBlock: BlockData)
      requires Valid()
      modifies this`chain, utxoSet, db`memdb, blockCache
      ensures Valid()
      ensures State() == Appended(old(State()), newBlock)
    {
      Record(newBlock);
      chain := chain + [newBlock];
      var data := SerializeBlock(newBlock);
      blockCache.Put(CacheKey(newBlock.hash), data);
    }

    method GetBlockByHash(hash: string, data0: string) returns (found: bool, data: string)
      requires Valid()
      modifies blockCache
      ensures Valid()
      ensures State() == AfterLookup(old(State()), hash)
      ensures match LookupResult(old(State()), hash)
              case Absent => !found && data == data0
              case Present(d) => found && data == d
    {
      var hit := blockCache.Contains(CacheKey(hash));
      if hit {
        var present, cached := blockCache.Get(CacheKey(hash));
        return true, cached;
      }
      found, data := db.GetBlock(hash, data0);
    }

    method IsValid() returns (ok: bool)
      ensures ok <==> IsValidChain(sha, chain)
    {
      var i := 1;
      while i < |chain|
        invariant 1 <= i
        invariant forall j :: 1 <= j < i && j < |chain| ==> LinkedAt(sha, chain, j)
      {
        var b := chain[i];
        if !IsValidBlock(sha, b) {
          assert !LinkedAt(sha, chain, i);
          return false;
        }
        if b.header.previousHash != chain[i - 1].hash {
          assert !LinkedAt(sha, chain, i);
          return false;
        }
        i := i + 1;
      }
      ok := true;
    }

    method GetBlockReward() returns (reward: nat)
      ensures reward == Supply.BlockReward(|chain|)
    {
      var halvings := Wrap32(|chain| / 210_000);
      if halvings >= 64 {
        return 0;
      }
      reward := Supply.ShiftRight(50, halvings);
    }
  }

  ghost predicate LinkedAt(sha: Hash, chain: seq<BlockData>, i: nat)
    requires 1 <= i < |chain|
  {
    IsValidBlock(sha, chain[i]) && chain[i].header.previousHash == chain[i - 1].hash
  }

  /** Every block after the genesis block is valid and names its predecessor. */
  ghost predicate IsValidChain(sha: Hash, chain: seq<BlockData>) {
    forall i :: 1 <= i < |chain| ==> LinkedAt(sha, chain, i)
  }
}
