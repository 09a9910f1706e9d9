/** When the "u:" entries of the database agree with the in-memory set of unspent outputs. */
module Agreement {
  import opened Text
  import opened Transactions
  import opened Utxo
  import opened Database
  import opened Blocks
  import opened ChainModel
  import Supply

  /** What the in-memory set says about `k`, in the form the database would hold it. */
  ghost function InMemory(u: Utxos, k: string): Lookup {
    if Live(u, k) then Present(UtxoData(u[k].address, u[k].amount)) else Absent
  }

  ghost function InDatabase(db: Store, k: string): Lookup {
    Get(db, UtxoKey(k))
  }

  /** The database lists exactly the unspent outputs, each with its address and amount. */
  ghost predicate Agrees(u: Utxos, db: Store) {
    forall k :: InDatabase(db, k) == InMemory(u, k)
  }

  /** The last record for `k` among the outputs of some transactions. */
  ghost function CreatedIn(txs: seq<Transaction>, k: string): Lookup {
    LastPut(TxsPuts(txs), UtxoKey(k))
  }

  ghost function CreatedBy(tx: Transaction, k: string): Lookup {
    LastPut(TxPuts(tx), UtxoKey(k))
  }

  ghost predicate Spends(tx: Transaction, k: string) {
    exists i :: 0 <= i < |tx.inputs| && InputKey(tx.inputs[i]) == k
  }

  ghost predicate SpendsAny(txs: seq<Transaction>, k: string) {
    exists j :: 0 <= j < |txs| && Spends(txs[j], k)
  }

  // ---------------------------------------------------------------------------------------------
  // The in-memory side, key by key.

  lemma UtxoKeyInjective(a: string, b: string)
    requires UtxoKey(a) == UtxoKey(b)
    ensures a == b
  {
    ConcatSplits("u:", a, "u:", b);
  }

  lemma {:induction false} InputsInMemory(u: Utxos, inputs: seq<TxInput>, k: string)
    ensures InMemory(AfterInputs(u, inputs), k) ==
            if exists i :: 0 <= i < |inputs| && InputKey(inputs[i]) == k then Absent else InMemory(u, k)
  {
    if inputs != [] {
      InputsInMemory(u, inputs[..|inputs| - 1], k);
    }
  }

  lemma AddInMemory(u: Utxos, c: UTXO, k: string)
    requires !c.spent
    ensures InMemory(u[c.Key() := c], k) ==
            if c.Key() == k then Present(UtxoData(c.address, c.amount)) else InMemory(u, k)
  {
  }

  lemma LastPutSnoc(puts: seq<Put>, p: Put, k: string)
    ensures LastPut(puts + [p], k) == if p.key == k then Present(p.value) else LastPut(puts, k)
  {
    assert (puts + [p])[..|puts|] == puts;
  }

  /** The puts of one more output. */
  lemma LastOutputPut(tx: Transaction, n: nat, k: string)
    requires 0 < n <= |tx.outputs|
    ensures LastPut(OutputPuts(tx, n), UtxoKey(k)) ==
            if KeyOf(tx.txHash, n - 1) == k then Present(OutputData(tx.outputs[n - 1]))
            else LastPut(OutputPuts(tx, n - 1), UtxoKey(k))
  {
    var key := KeyOf(tx.txHash, n - 1);
    LastPutSnoc(OutputPuts(tx, n - 1), Put(UtxoKey(key), OutputData(tx.outputs[n - 1])), UtxoKey(k));
    if UtxoKey(key) == UtxoKey(k) {
      UtxoKeyInjective(key, k);
    }
  }

  lemma {:induction false} OutputsInMemory(u: Utxos, tx: Transaction, n: nat, k: string)
    requires n <= |tx.outputs|
    ensures InMemory(AfterOutputs(u, tx, n), k) ==
            if LastPut(OutputPuts(tx, n), UtxoKey(k)).Present? then LastPut(OutputPuts(tx, n), UtxoKey(k))
            else InMemory(u, k)
  {
    if n > 0 {
      OutputsInMemory(u, tx, n - 1, k);
      LastOutputPut(tx, n, k);
      AddInMemory(AfterOutputs(u, tx, n - 1), Created(tx, n - 1), k);
    }
  }

  lemma TxKeyIsNoUtxoKey(h: string, k: string)
    ensures TxKey(h) != UtxoKey(k)
  {
    assert TxKey(h)[0] == 't' && UtxoKey(k)[0] == 'u';
  }

  lemma CreatedByOutputs(tx: Transaction, k: string)
    ensures CreatedBy(tx, k) == LastPut(OutputPuts(tx, |tx.outputs|), UtxoKey(k))
  {
    var head := Put(TxKey(tx.txHash), TxRecord(tx));
    TxKeyIsNoUtxoKey(tx.txHash, k);
    LastPutConcat([head], OutputPuts(tx, |tx.outputs|), UtxoKey(k));
    assert [head][..0] == [];
    assert LastPut([head], UtxoKey(k)) == LastPut([], UtxoKey(k));
  }

  lemma TxInMemory(u: Utxos, tx: Transaction, k: string)
    ensures InMemory(AfterTx(u, tx), k) ==
            if CreatedBy(tx, k).Present? then CreatedBy(tx, k)
            else if Spends(tx, k) then Absent
            else InMemory(u, k)
  {
    InputsInMemory(u, tx.inputs, k);
    OutputsInMemory(AfterInputs(u, tx.inputs), tx, |tx.outputs|, k);
    CreatedByOutputs(tx, k);
  }

  // ---------------------------------------------------------------------------------------------
  // The database side, key by key.

  lemma SpendsAnyStep(txs: seq<Transaction>, k: string)
    requires txs != []
    ensures SpendsAny(txs, k) <==> SpendsAny(txs[..|txs| - 1], k) || Spends(txs[|txs| - 1], k)
  {
    var before := txs[..|txs| - 1];
    if j :| 0 <= j < |before| && Spends(before[j], k) {
      assert Spends(txs[j], k);
    }
    if j :| 0 <= j < |txs| && Spends(txs[j], k) {
      assert j < |before| ==> Spends(before[j], k);
    }
  }

  lemma {:induction false} DelsAreSpends(txs: seq<Transaction>, k: string)
    ensures UtxoKey(k) in Dels(txs) <==> SpendsAny(txs, k)
  {
    if txs != [] {
      DelsAreSpends(txs[..|txs| - 1], k);
      InputDelsAreSpends(txs[|txs| - 1], k);
      SpendsAnyStep(txs, k);
    }
  }

  lemma InputDelsAreSpends(tx: Transaction, k: string)
    ensures UtxoKey(k) in InputDels(tx.inputs) <==> Spends(tx, k)
  {
    var dels := InputDels(tx.inputs);
    if i :| 0 <= i < |dels| && dels[i] == UtxoKey(k) {
      UtxoKeyInjective(InputKey(tx.inputs[i]), k);
    }
    if Spends(tx, k) {
      var i :| 0 <= i < |tx.inputs| && InputKey(tx.inputs[i]) == k;
      assert dels[i] == UtxoKey(k);
    }
  }

  lemma CreatedInStep(txs: seq<Transaction>, k: string)
    requires txs != []
    ensures var last := txs[|txs| - 1];
      CreatedIn(txs, k) == if CreatedBy(last, k).Present? then CreatedBy(last, k) else CreatedIn(txs[..|txs| - 1], k)
  {
    LastPutConcat(TxsPuts(txs[..|txs| - 1]), TxPuts(txs[|txs| - 1]), UtxoKey(k));
  }

  lemma HeaderPutsAreNotUtxos(b: BlockData, k: string)
    ensures LastPut(BlockPuts(b), UtxoKey(k)) == CreatedIn(b.transactions, k)
  {
    var p, q := Put(BlockKey(b.hash), Serialized(b)), Put(HeightKey(b.index), b.hash);
    assert p.key[0] == 'b' && q.key[0] == 'h' && UtxoKey(k)[0] == 'u';
    LastPutConcat([p, q], TxsPuts(b.transactions), UtxoKey(k));
    assert [p, q][..1] == [p] && [p][..0] == [];
    assert LastPut([p], UtxoKey(k)) == LastPut([], UtxoKey(k));
    assert LastPut([p, q], UtxoKey(k)) == LastPut([p], UtxoKey(k));
  }

  lemma BlockInDatabase(db: Store, b: BlockData, k: string)
    ensures InDatabase(AfterBlockWrites(db, b), k) ==
            if CreatedIn(b.transactions, k).Present? then CreatedIn(b.transactions, k)
            else if SpendsAny(b.transactions, k) then Absent
            else InDatabase(db, k)
  {
    var mid := AfterBatch(db, DBBatch([], Dels(b.transactions)));
    BatchAt(db, DBBatch([], Dels(b.transactions)), UtxoKey(k));
    BatchAt(mid, DBBatch(BlockPuts(b), []), UtxoKey(k));
    HeaderPutsAreNotUtxos(b, k);
    DelsAreSpends(b.transactions, k);
  }

  // ---------------------------------------------------------------------------------------------
  // The exact condition.

  /** Read over a block: a creation is followed by a spending and by no further creation from there on. */
  ghost predicate Lost(created: seq<bool>, spent: seq<bool>)
    requires |created| == |spent|
  {
    exists i, j :: 0 <= i < j < |created| && created[i] && spent[j]
                   && forall m :: j <= m < |created| ==> !created[m]
  }

  ghost function Creations(txs: seq<Transaction>, k: string): (c: seq<bool>)
    ensures |c| == |txs| && forall i :: 0 <= i < |txs| ==> (c[i] <==> CreatedBy(txs[i], k).Present?)
  {
    seq(|txs|, i requires 0 <= i < |txs| => CreatedBy(txs[i], k).Present?)
  }

  ghost function Spendings(txs: seq<Transaction>, k: string): (s: seq<bool>)
    ensures |s| == |txs| && forall i :: 0 <= i < |txs| ==> (s[i] <==> Spends(txs[i], k))
  {
    seq(|txs|, i requires 0 <= i < |txs| => Spends(txs[i], k))
  }

  /**
   * Some transaction of the block spends `k` after another one of the block created it, and it is
   * not created again: its deletion has been written before its put.
   */
  ghost predicate SpentAfterCreated(txs: seq<Transaction>, k: string) {
    Lost(Creations(txs, k), Spendings(txs, k))
  }

  lemma LostStep(created: seq<bool>, spent: seq<bool>)
    requires |created| == |spent| && created != []
    ensures var n := |created| - 1;
      Lost(created, spent) <==>
        !created[n] && (Lost(created[..n], spent[..n]) || (spent[n] && true in created[..n]))
  {
    var n := |created| - 1;
    var c, s := created[..n], spent[..n];
    if Lost(created, spent) {
      var i, j :| 0 <= i < j < |created| && created[i] && spent[j]
                  && forall m :: j <= m < |created| ==> !created[m];
      assert c[i];
      assert j < n ==> s[j];
    }
    if !created[n] && Lost(c, s) {
      var i, j :| 0 <= i < j < n && c[i] && s[j] && forall m :: j <= m < n ==> !c[m];
      assert created[i] && spent[j];
    }
    if !created[n] && spent[n] && true in c {
      var i :| 0 <= i < n && c[i];
      assert created[i] && spent[n];
    }
  }

  lemma FlagsStep(txs: seq<Transaction>, k: string)
    requires txs != []
    ensures var n := |txs| - 1;
      && Creations(txs, k)[..n] == Creations(txs[..n], k)
      && Spendings(txs, k)[..n] == Spendings(txs[..n], k)
      && (Creations(txs, k)[n] <==> CreatedBy(txs[n], k).Present?)
      && (Spendings(txs, k)[n] <==> Spends(txs[n], k))
      && (true in Creations(txs, k) <==> true in Creations(txs[..n], k) || CreatedBy(txs[n], k).Present?)
  {
    var n := |txs| - 1;
    forall i | 0 <= i < n ensures txs[..n][i] == txs[i] {
    }
    assert Creations(txs, k) == Creations(txs[..n], k) + [Creations(txs, k)[n]];
  }

  lemma {:induction false} CreatedSomewhere(txs: seq<Transaction>, k: string)
    ensures CreatedIn(txs, k).Present? <==> true in Creations(txs, k)
  {
    if txs != [] {
      CreatedSomewhere(txs[..|txs| - 1], k);
      CreatedInStep(txs, k);
      FlagsStep(txs, k);
    }
  }

  /** How the condition grows with one more transaction. */
  lemma SpentAfterCreatedStep(txs: seq<Transaction>, k: string)
    requires txs != []
    ensures var before, last := txs[..|txs| - 1], txs[|txs| - 1];
      SpentAfterCreated(txs, k) <==>
        CreatedBy(last, k) == Absent
        && (SpentAfterCreated(before, k) || (Spends(last, k) && CreatedIn(before, k).Present?))
  {
    var before := txs[..|txs| - 1];
    CreatedSomewhere(before, k);
    LostStep(Creations(txs, k), Spendings(txs, k));
    FlagsStep(txs, k);
  }

  /** After a block memory holds what the database holds, except for outputs spent after their creation. */
  lemma {:induction false} BlockInMemory(u: Utxos, txs: seq<Transaction>, k: string)
    ensures InMemory(AfterTxs(u, txs), k) ==
            if SpentAfterCreated(txs, k) then Absent
            else if CreatedIn(txs, k).Present? then CreatedIn(txs, k)
            else if SpendsAny(txs, k) then Absent
            else InMemory(u, k)
    ensures SpentAfterCreated(txs, k) ==> CreatedIn(txs, k).Present?
  {
    if txs != [] {
      var before, last := txs[..|txs| - 1], txs[|txs| - 1];
      BlockInMemory(u, before, k);
      TxInMemory(AfterTxs(u, before), last, k);
      CreatedInStep(txs, k);
      SpentAfterCreatedStep(txs, k);
      SpendsAnyStep(txs, k);
    }
  }

  /**
   * A block keeps memory and database in agreement exactly when none of its transactions spends an
   * output created earlier in the same block (and not created again afterwards).
   */
  lemma BlockKeepsAgreement(u: Utxos, db: Store, b: BlockData)
    requires Agrees(u, db)
    ensures Agrees(AfterTxs(u, b.transactions), AfterBlockWrites(db, b)) <==>
            forall k :: !SpentAfterCreated(b.transactions, k)
  {
    var v, e := AfterTxs(u, b.transactions), AfterBlockWrites(db, b);
    forall k ensures InDatabase(e, k) == InMemory(v, k) <==> !SpentAfterCreated(b.transactions, k) {
      BlockInMemory(u, b.transactions, k);
      BlockInDatabase(db, b, k);
    }
  }

  // ---------------------------------------------------------------------------------------------
  // With new transaction hashes the condition is simply: no chained spend inside the block.

  ghost predicate Creates(tx: Transaction, k: string) {
    exists n :: 0 <= n < |tx.outputs| && KeyOf(tx.txHash, n) == k
  }

  /** A transaction spends an output of an earlier transaction of the same block. */
  ghost predicate ChainedSpend(txs: seq<Transaction>, k: string) {
    exists i, j :: 0 <= i < j < |txs| && Creates(txs[i], k) && Spends(txs[j], k)
  }

  lemma {:induction false} CreatedByCreates(tx: Transaction, n: nat, k: string)
    requires n <= |tx.outputs|
    ensures LastPut(OutputPuts(tx, n), UtxoKey(k)).Present? <==> exists i :: 0 <= i < n && KeyOf(tx.txHash, i) == k
  {
    if n > 0 {
      CreatedByCreates(tx, n - 1, k);
      LastOutputPut(tx, n, k);
    }
  }

  lemma CreationsAre(txs: seq<Transaction>, k: string, i: nat)
    requires i < |txs|
    ensures Creations(txs, k)[i] <==> Creates(txs[i], k)
  {
    CreatedByOutputs(txs[i], k);
    CreatedByCreates(txs[i], |txs[i].outputs|, k);
  }

  lemma {:induction false} KeysStay(u: Utxos, txs: seq<Transaction>, i: nat, k: string)
    requires i < |txs| && Creates(txs[i], k)
    ensures k in AfterTxs(u, txs)
  {
    var before, last := txs[..|txs| - 1], txs[|txs| - 1];
    var v := AfterInputs(AfterTxs(u, before), last.inputs);
    OutputKeys(v, last, |last.outputs|, k);
    if i < |before| {
      KeysStay(u, before, i, k);
      InputsConserve(AfterTxs(u, before), last.inputs);
    }
  }

  lemma {:induction false} CreatedOnce(u: Utxos, txs: seq<Transaction>, i: nat, m: nat, k: string)
    requires Supply.FreshBlock(u, txs) && i < m < |txs| && Creates(txs[i], k)
    ensures !Creates(txs[m], k)
  {
    var before, last := txs[..|txs| - 1], txs[|txs| - 1];
    if m < |before| {
      CreatedOnce(u, before, i, m, k);
    } else {
      KeysStay(u, before, i, k);
    }
  }

  lemma LostIntro(created: seq<bool>, spent: seq<bool>, i: nat, j: nat)
    requires |created| == |spent| && i < j < |created| && created[i] && spent[j]
    requires forall m :: j <= m < |created| ==> !created[m]
    ensures Lost(created, spent)
  {
  }

  lemma ChainedIsLost(u: Utxos, txs: seq<Transaction>, k: string)
    requires Supply.FreshBlock(u, txs) && ChainedSpend(txs, k)
    ensures SpentAfterCreated(txs, k)
  {
    var i, j :| 0 <= i < j < |txs| && Creates(txs[i], k) && Spends(txs[j], k);
    var c, s := Creations(txs, k), Spendings(txs, k);
    CreationsAre(txs, k, i);
    forall m | j <= m < |c| ensures !c[m] {
      CreatedOnce(u, txs, i, m, k);
      CreationsAre(txs, k, m);
    }
    LostIntro(c, s, i, j);
  }

  lemma LostIsChained(txs: seq<Transaction>, k: string)
    requires SpentAfterCreated(txs, k)
    ensures ChainedSpend(txs, k)
  {
    var c, s := Creations(txs, k), Spendings(txs, k);
    var i, j :| 0 <= i < j < |c| && c[i] && s[j] && forall m :: j <= m < |c| ==> !c[m];
    CreationsAre(txs, k, i);
    assert Spends(txs[j], k);
  }

  lemma FreshCondition(u: Utxos, txs: seq<Transaction>, k: string)
    requires Supply.FreshBlock(u, txs)
    ensures SpentAfterCreated(txs, k) <==> ChainedSpend(txs, k)
  {
    if ChainedSpend(txs, k) {
      ChainedIsLost(u, txs, k);
    }
    if SpentAfterCreated(txs, k) {
      LostIsChained(txs, k);
    }
  }

  /** For blocks of new transactions agreement survives exactly when no output is spent in the block creating it. */
  lemma FreshBlockKeepsAgreement(u: Utxos, db: Store, b: BlockData)
    requires Agrees(u, db) && Supply.FreshBlock(u, b.transactions)
    ensures Agrees(AfterTxs(u, b.transactions), AfterBlockWrites(db, b)) <==>
            forall k :: !ChainedSpend(b.transactions, k)
  {
    BlockKeepsAgreement(u, db, b);
    forall k ensures SpentAfterCreated(b.transactions, k) <==> ChainedSpend(b.transactions, k) {
      FreshCondition(u, b.transactions, k);
    }
  }

  // ---------------------------------------------------------------------------------------------
  // A block that breaks the agreement.

  /**
   * One transaction creates an output and the next one of the block spends it: memory forgets the output,
   * the database keeps it, whatever both held before.
   */
  lemma ChainedSpendBreaksAgreement(u: Utxos, db: Store, b: BlockData, txHash: string, output: TxOutput)
    requires |b.transactions| == 2
    requires b.transactions[0].txHash == txHash && b.transactions[0].outputs == [output]
    requires b.transactions[1].inputs == [TxInput(txHash, 0, "")] && b.transactions[1].outputs == []
    ensures var k := KeyOf(txHash, 0);
      && InMemory(AfterTxs(u, b.transactions), k) == Absent
      && InDatabase(AfterBlockWrites(db, b), k) == Present(OutputData(output))
      && !Agrees(AfterTxs(u, b.transactions), AfterBlockWrites(db, b))
  {
    var txs, k := b.transactions, KeyOf(txHash, 0);
    var first, second := txs[0], txs[1];
    CreatedByOutputs(first, k);
    CreatedByOutputs(second, k);
    LastOutputPut(first, 1, k);
    assert InputKey(second.inputs[0]) == k;
    TxInMemory(AfterTxs(u, txs[..1]), second, k);
    CreatedInStep(txs, k);
    CreatedInStep(txs[..1], k);
    BlockInDatabase(db, b, k);
  }
}
