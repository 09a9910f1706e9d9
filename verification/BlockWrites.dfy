/** What the batches of a block write under each kind of key. */
module BlockWrites {
  import opened Text
  import opened Transactions
  import opened Utxo
  import opened Database
  import opened Blocks
  import opened ChainModel
  import Agreement

  /** Not the key of a transaction or of an output. */
  ghost predicate Elsewhere(key: string) {
    key != "" && key[0] != 't' && key[0] != 'u'
  }

  lemma {:induction false} TxsPutElsewhere(txs: seq<Transaction>, key: string)
    requires Elsewhere(key)
    ensures LastPut(TxsPuts(txs), key) == Absent
  {
    if txs != [] {
      var tx := txs[|txs| - 1];
      TxsPutElsewhere(txs[..|txs| - 1], key);
      OutputsPutElsewhere(tx, |tx.outputs|, key);
      LastPutConcat(TxsPuts(txs[..|txs| - 1]), TxPuts(tx), key);
      var head := Put(TxKey(tx.txHash), TxRecord(tx));
      LastPutConcat([head], OutputPuts(tx, |tx.outputs|), key);
      assert head.key[0] == 't';
      Agreement.LastPutSnoc([], head, key);
      assert [] + [head] == [head];
    }
  }

  lemma {:induction false} OutputsPutElsewhere(tx: Transaction, n: nat, key: string)
    requires n <= |tx.outputs| && Elsewhere(key)
    ensures LastPut(OutputPuts(tx, n), key) == Absent
  {
    if n > 0 {
      OutputsPutElsewhere(tx, n - 1, key);
      var p := Put(UtxoKey(KeyOf(tx.txHash, n - 1)), OutputData(tx.outputs[n - 1]));
      assert p.key[0] == 'u';
      Agreement.LastPutSnoc(OutputPuts(tx, n - 1), p, key);
    }
  }

  lemma {:induction false} DelsElsewhere(txs: seq<Transaction>, key: string)
    requires Elsewhere(key)
    ensures key !in Dels(txs)
  {
    if txs != [] {
      DelsElsewhere(txs[..|txs| - 1], key);
      var dels := InputDels(txs[|txs| - 1].inputs);
      forall i | 0 <= i < |dels| ensures dels[i] != key {
        assert dels[i][0] == 'u';
      }
    }
  }

  /** Apart from transactions and outputs a block writes its record and its place in the height index. */
  lemma BlockWritesAt(db: Store, b: BlockData, key: string)
    requires Elsewhere(key)
    ensures Get(AfterBlockWrites(db, b), key) ==
            if key == HeightKey(b.index) then Present(b.hash)
            else if key == BlockKey(b.hash) then Present(Serialized(b))
            else Get(db, key)
  {
    var p, q := Put(BlockKey(b.hash), Serialized(b)), Put(HeightKey(b.index), b.hash);
    var mid := AfterBatch(db, DBBatch([], Dels(b.transactions)));
    BatchAt(db, DBBatch([], Dels(b.transactions)), key);
    BatchAt(mid, DBBatch(BlockPuts(b), []), key);
    DelsElsewhere(b.transactions, key);
    TxsPutElsewhere(b.transactions, key);
    LastPutConcat([p, q], TxsPuts(b.transactions), key);
    Agreement.LastPutSnoc([p], q, key);
    Agreement.LastPutSnoc([], p, key);
    assert [p] + [q] == [p, q] && [] + [p] == [p];
  }

  lemma KeysByHash(g: string, h: string)
    ensures BlockKey(g) == BlockKey(h) ==> g == h
    ensures CacheKey(g) == CacheKey(h) ==> g == h
  {
    if BlockKey(g) == BlockKey(h) {
      ConcatSplits("b:", g, "b:", h);
    }
    if CacheKey(g) == CacheKey(h) {
      ConcatSplits("blk:", g, "blk:", h);
    }
  }

  lemma HeightKeyInjective(i: u32, j: u32)
    requires HeightKey(i) == HeightKey(j)
    ensures i == j
  {
    ConcatSplits("h:", Dec(i), "h:", Dec(j));
    DecInjective(i, j);
  }

  lemma MetaElsewhere(db: Store, name: string, v: string, key: string)
    requires key != "" && key[0] != 'm'
    ensures Get(WithMeta(db, name, v), key) == Get(db, key)
  {
    assert MetaKey(name)[0] == 'm';
  }

  lemma TipElsewhere(db: Store, hash: string, height: nat, key: string)
    requires key != "" && key[0] != 'm'
    ensures Get(WithTip(db, hash, height), key) == Get(db, key)
  {
    MetaElsewhere(db, "height", Dec(height), key);
    MetaElsewhere(WithMeta(db, "height", Dec(height)), "bestHash", hash, key);
  }

  /** Of all the writes of a block exactly one touches block records: its own. */
  lemma RecordPersisted(db: Store, b: BlockData, height: nat, hash: string)
    ensures Get(Persisted(db, b, height), BlockKey(hash)) ==
            if hash == b.hash then Present(Serialized(b)) else Get(db, BlockKey(hash))
  {
    var key := BlockKey(hash);
    assert key[0] == 'b' && HeightKey(b.index)[0] == 'h';
    BlockWritesAt(db, b, key);
    TipElsewhere(AfterBlockWrites(db, b), b.hash, height, key);
    KeysByHash(b.hash, hash);
  }

  /** And exactly one touches the height index. */
  lemma HeightPersisted(db: Store, b: BlockData, height: nat, i: u32)
    ensures Get(Persisted(db, b, height), HeightKey(i)) ==
            if i == b.index then Present(b.hash) else Get(db, HeightKey(i))
  {
    var key := HeightKey(i);
    assert key[0] == 'h' && BlockKey(b.hash)[0] == 'b';
    BlockWritesAt(db, b, key);
    TipElsewhere(AfterBlockWrites(db, b), b.hash, height, key);
    if key == HeightKey(b.index) {
      HeightKeyInjective(i, b.index);
    }
  }

  lemma MetaKeyInjective(a: string, b: string)
    requires MetaKey(a) == MetaKey(b)
    ensures a == b
  {
    ConcatSplits("meta:", a, "meta:", b);
  }

  lemma MetaAt(db: Store, name: string, v: string, other: string)
    ensures Get(WithMeta(db, name, v), MetaKey(other)) == if other == name then Present(v) else Get(db, MetaKey(other))
  {
    if MetaKey(name) == MetaKey(other) {
      MetaKeyInjective(name, other);
    }
  }

  /** Of the metadata a block writes the height and the hash of the tip. */
  lemma MetaPersisted(db: Store, b: BlockData, height: nat, name: string)
    ensures Get(Persisted(db, b, height), MetaKey(name)) ==
            if name == "bestHash" then Present(b.hash) else if name == "height" then Present(Dec(height))
            else Get(db, MetaKey(name))
  {
    var key := MetaKey(name);
    var e := AfterBlockWrites(db, b);
    assert HeightKey(b.index)[0] == 'h' && BlockKey(b.hash)[0] == 'b' && key[0] == 'm';
    BlockWritesAt(db, b, key);
    MetaAt(e, "height", Dec(height), name);
    MetaAt(WithMeta(e, "height", Dec(height)), "bestHash", b.hash, name);
  }
}
