/** What the stored texts of blocks, transactions and outputs say, read field by field. */
module Records {
  import opened Text
  import opened Transactions
  import opened Blocks
  import opened ChainModel

  /** The fields of a text, separated by '|'. */
  ghost function Fields(s: string): (fields: seq<string>)
    ensures fields != []
  {
    if s == "" then [""]
    else
      var rest := Fields(s[1..]);
      if s[0] == '|' then [""] + rest else [[s[0]] + rest[0]] + rest[1..]
  }

  ghost predicate Plain(s: string) {
    '|' !in s
  }

  lemma {:induction false} OneField(s: string)
    requires Plain(s)
    ensures Fields(s) == [s]
  {
    if s != "" {
      assert s == [s[0]] + s[1..];
      OneField(s[1..]);
    }
  }

  lemma FieldsStep(c: char, s: string)
    ensures Fields([c] + s) == Prepended(c, Fields(s))
  {
    assert ([c] + s)[1..] == s;
  }

  ghost function Prepended(c: char, fields: seq<string>): seq<string>
    requires fields != []
  {
    if c == '|' then [""] + fields else [[c] + fields[0]] + fields[1..]
  }

  lemma PrependedToMore(c: char, a: seq<string>, b: seq<string>)
    requires a != []
    ensures Prepended(c, a + b) == Prepended(c, a) + b
  {
    assert (a + b)[0] == a[0] && (a + b)[1..] == a[1..] + b;
  }

  lemma JoinedTail(s: string, t: string)
    requires s != ""
    ensures s + "|" + t == [s[0]] + (s[1..] + "|" + t) && s == [s[0]] + s[1..]
  {
  }

  /** The fields of two texts joined by '|' are those of the one and those of the other. */
  lemma {:induction false} FieldsJoin(s: string, t: string)
    ensures Fields(s + "|" + t) == Fields(s) + Fields(t)
    decreases |s|
  {
    if s == "" {
      FieldsStep('|', t);
      assert "" + "|" + t == ['|'] + t;
    } else {
      var c, rest := s[0], s[1..];
      FieldsJoin(rest, t);
      JoinedTail(s, t);
      FieldsStep(c, rest + "|" + t);
      FieldsStep(c, rest);
      PrependedToMore(c, Fields(rest), Fields(t));
    }
  }

  lemma NumbersArePlain(n: nat, i: int)
    ensures Plain(Dec(n)) && Fields(Dec(n)) == [Dec(n)]
    ensures Plain(DecInt(i)) && Fields(DecInt(i)) == [DecInt(i)]
  {
    OneField(Dec(n));
    if i < 0 {
      assert Plain(Dec(-i));
      assert DecInt(i) == "-" + Dec(-i);
    }
    OneField(DecInt(i));
  }

  // ---------------------------------------------------------------------------------------------
  // Blocks.

  ghost function Flag(tx: Transaction): string {
    if tx.isCoinbase then "1" else "0"
  }

  ghost function TxField(tx: Transaction): seq<string> {
    Fields(tx.txHash) + [Flag(tx), Dec(|tx.outputs|)]
  }

  /** Three fields for each transaction: hash, coinbase flag and number of outputs. */
  ghost function TxFields(txs: seq<Transaction>): seq<string> {
    if txs == [] then [] else TxFields(txs[..|txs| - 1]) + TxField(txs[|txs| - 1])
  }

  lemma Regroup<T>(a: seq<T>, b: seq<T>, c: seq<T>)
    ensures a + b + c == a + (b + c)
  {
  }

  lemma RegroupThree(s: string, bar: string, a: string, b: string, c: string)
    ensures s + (bar + a + bar + b + bar + c) == s + bar + a + bar + b + bar + c
  {
  }

  lemma TwoMore(fields: seq<string>, a: string, b: string)
    ensures fields + [a] + [b] == fields + [a, b]
  {
  }

  lemma FlagField(tx: Transaction)
    ensures Fields(Flag(tx)) == [Flag(tx)]
  {
    assert Plain("0") && Plain("1");
    OneField(Flag(tx));
  }

  /** Two and three more fields. */
  lemma FieldsJoinTwo(s: string, a: string, b: string)
    ensures Fields(s + "|" + a + "|" + b) == Fields(s) + Fields(a) + Fields(b)
  {
    FieldsJoin(s, a);
    FieldsJoin(s + "|" + a, b);
  }

  lemma FieldsJoinThree(s: string, a: string, b: string, c: string)
    ensures Fields(s + "|" + a + "|" + b + "|" + c) == Fields(s) + Fields(a) + Fields(b) + Fields(c)
  {
    FieldsJoinTwo(s, a, b);
    FieldsJoin(s + "|" + a + "|" + b, c);
  }

  lemma TxSummaryFields(s: string, tx: Transaction)
    ensures Fields(s + TxSummary(tx)) == Fields(s) + TxField(tx)
  {
    var n := Dec(|tx.outputs|);
    FieldsJoinThree(s, tx.txHash, Flag(tx), n);
    FlagField(tx);
    NumbersArePlain(|tx.outputs|, 0);
    RegroupThree(s, "|", tx.txHash, Flag(tx), n);
    TwoMore(Fields(s) + Fields(tx.txHash), Flag(tx), n);
    Regroup(Fields(s), Fields(tx.txHash), [Flag(tx), n]);
  }

  lemma {:induction false} TxsFields(s: string, txs: seq<Transaction>)
    ensures Fields(s + TxsSummary(txs)) == Fields(s) + TxFields(txs)
  {
    if txs == [] {
      assert s + TxsSummary(txs) == s;
    } else {
      TxsFields(s, txs[..|txs| - 1]);
      TxsFieldsStep(s, txs, s + TxsSummary(txs[..|txs| - 1]));
    }
  }

  lemma TxsFieldsStep(s: string, txs: seq<Transaction>, before: string)
    requires txs != [] && before == s + TxsSummary(txs[..|txs| - 1])
    requires Fields(before) == Fields(s) + TxFields(txs[..|txs| - 1])
    ensures Fields(s + TxsSummary(txs)) == Fields(s) + TxFields(txs)
  {
    var tx := txs[|txs| - 1];
    TxSummaryFields(before, tx);
    Regroup(s, TxsSummary(txs[..|txs| - 1]), TxSummary(tx));
    Regroup(Fields(s), TxFields(txs[..|txs| - 1]), TxField(tx));
  }

  /** The numbers at the end of a block's own fields. */
  ghost function NumberFields(b: BlockData): seq<string> {
    [DecInt(b.header.timestamp), Dec(b.header.difficulty), Dec(b.header.nonce), Dec(|b.transactions|)]
  }

  lemma HeadFields(b: BlockData)
    ensures var s := Dec(b.index) + "|" + b.hash + "|" + b.header.previousHash + "|" + b.header.merkleRoot;
      Fields(s) == [Dec(b.index)] + Fields(b.hash) + Fields(b.header.previousHash) + Fields(b.header.merkleRoot)
  {
    NumbersArePlain(b.index, 0);
    FieldsJoinThree(Dec(b.index), b.hash, b.header.previousHash, b.header.merkleRoot);
  }

  lemma SummaryFields(b: BlockData)
    ensures Fields(BlockSummary(b)) ==
            [Dec(b.index)] + Fields(b.hash) + Fields(b.header.previousHash) + Fields(b.header.merkleRoot)
            + NumberFields(b)
  {
    var h := b.header;
    var s := Dec(b.index) + "|" + b.hash + "|" + h.previousHash + "|" + h.merkleRoot;
    HeadFields(b);
    NumbersFields(b, s);
  }

  lemma NumbersFields(b: BlockData, s: string)
    ensures Fields(s + "|" + DecInt(b.header.timestamp) + "|" + Dec(b.header.difficulty) + "|" + Dec(b.header.nonce)
                   + "|" + Dec(|b.transactions|)) == Fields(s) + NumberFields(b)
  {
    var h := b.header;
    var t, d, n, m := DecInt(h.timestamp), Dec(h.difficulty), Dec(h.nonce), Dec(|b.transactions|);
    NumbersArePlain(h.difficulty, h.timestamp);
    NumbersArePlain(h.nonce, 0);
    NumbersArePlain(|b.transactions|, 0);
    FieldsJoinTwo(s, t, d);
    FieldsJoinTwo(s + "|" + t + "|" + d, n, m);
    TwoMore(Fields(s), t, d);
    TwoMore(Fields(s) + [t, d], n, m);
    Regroup(Fields(s), [t, d], [n, m]);
    assert [t, d] + [n, m] == [t, d, n, m];
  }

  /**
   * A block record lists index, hash, previous hash, Merkle root, time, difficulty, nonce and number of
   * transactions, and then three fields for each transaction.
   */
  lemma BlockFields(b: BlockData)
    requires Plain(b.hash) && Plain(b.header.previousHash) && Plain(b.header.merkleRoot)
    ensures Fields(Serialized(b)) ==
            [Dec(b.index), b.hash, b.header.previousHash, b.header.merkleRoot,
             DecInt(b.header.timestamp), Dec(b.header.difficulty), Dec(b.header.nonce), Dec(|b.transactions|)]
            + TxFields(b.transactions)
  {
    SummaryFields(b);
    TxsFields(BlockSummary(b), b.transactions);
    OneField(b.hash);
    OneField(b.header.previousHash);
    OneField(b.header.merkleRoot);
  }

  /** Its first three fields, whatever the Merkle root and the transactions are. */
  lemma FirstFields(b: BlockData)
    requires Plain(b.hash) && Plain(b.header.previousHash)
    ensures |Fields(Serialized(b))| >= 3
    ensures Fields(Serialized(b))[..3] == [Dec(b.index), b.hash, b.header.previousHash]
  {
    SummaryFields(b);
    TxsFields(BlockSummary(b), b.transactions);
    OneField(b.hash);
    OneField(b.header.previousHash);
  }

  // ---------------------------------------------------------------------------------------------
  // Transactions and outputs.

  ghost function OutputFields(outputs: seq<TxOutput>): seq<string> {
    if outputs == [] then []
    else
      var n := |outputs| - 1;
      OutputFields(outputs[..n]) + Fields(OutputField(outputs[n]))
  }

  ghost function OutputField(output: TxOutput): string {
    "OUT:" + output.address + ":" + Dec(output.amount)
  }

  lemma {:induction false} OutputsFields(s: string, outputs: seq<TxOutput>)
    ensures Fields(s + OutputsSummary(outputs)) == Fields(s) + OutputFields(outputs)
  {
    if outputs == [] {
      assert s + OutputsSummary(outputs) == s;
    } else {
      OutputsFields(s, outputs[..|outputs| - 1]);
      OutputsFieldsStep(s, outputs, s + OutputsSummary(outputs[..|outputs| - 1]));
    }
  }

  lemma OutputsFieldsStep(s: string, outputs: seq<TxOutput>, before: string)
    requires outputs != [] && before == s + OutputsSummary(outputs[..|outputs| - 1])
    requires Fields(before) == Fields(s) + OutputFields(outputs[..|outputs| - 1])
    ensures Fields(s + OutputsSummary(outputs)) == Fields(s) + OutputFields(outputs)
  {
    var output := outputs[|outputs| - 1];
    FieldsJoin(before, OutputField(output));
    OutputIsField(output);
    Regroup(before, "|", OutputField(output));
    Regroup(s, OutputsSummary(outputs[..|outputs| - 1]), OutputSummary(output));
    Regroup(Fields(s), OutputFields(outputs[..|outputs| - 1]), Fields(OutputField(output)));
  }

  lemma OutputIsField(output: TxOutput)
    ensures OutputSummary(output) == "|" + OutputField(output)
  {
    assert "|OUT:" == "|" + "OUT:";
    Regroup("|", "OUT:", output.address);
    Regroup("|", "OUT:" + output.address, ":");
    Regroup("|", "OUT:" + output.address + ":", Dec(output.amount));
  }

  lemma HeadOfTransaction(tx: Transaction)
    ensures Fields(TxHead(tx)) == Fields(tx.txHash) + [Flag(tx), DecInt(tx.timestamp)]
  {
    FieldsJoinTwo(tx.txHash, Flag(tx), DecInt(tx.timestamp));
    FlagField(tx);
    NumbersArePlain(0, tx.timestamp);
    TwoMore(Fields(tx.txHash), Flag(tx), DecInt(tx.timestamp));
  }

  /** A transaction record lists hash, coinbase flag and time, and then address and amount of each output. */
  lemma TransactionFields(tx: Transaction)
    ensures Fields(TxRecord(tx)) ==
            Fields(tx.txHash) + [Flag(tx), DecInt(tx.timestamp)] + OutputFields(tx.outputs)
  {
    HeadOfTransaction(tx);
    OutputsFields(TxHead(tx), tx.outputs);
  }

  /** An output record lists address and amount, and marks the output as unspent. */
  lemma UnspentFields(address: string, amount: nat)
    ensures Fields(UtxoData(address, amount)) == Fields(address) + [Dec(amount), "0"]
  {
    FieldsJoinTwo(address, Dec(amount), "0");
    NumbersArePlain(amount, 0);
    NumbersArePlain(0, 0);
    assert Dec(0) == "0";
    assert UtxoData(address, amount) == address + "|" + Dec(amount) + "|" + "0";
  }
}
