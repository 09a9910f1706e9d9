/** Transactions: coinbase creation, the transaction hash and output totals. */
module Transactions {
  import opened Text

  datatype TxInput = TxInput(prevTxHash: string, outputIndex: u32, scriptSig: string)

  datatype TxOutput = TxOutput(amount: u64, address: string, scriptPubKey: string)

  /** Outputs are numbered by a 32-bit counter. */
  type OutputList = s: seq<TxOutput> | |s| < U32

  datatype Transaction = Transaction(txHash: string, inputs: seq<TxInput>, outputs: OutputList,
                                     timestamp: int, isCoinbase: bool)

  ghost function InputsText(inputs: seq<TxInput>): string {
    if inputs == [] then ""
    else
      var last := inputs[|inputs| - 1];
      InputsText(inputs[..|inputs| - 1]) + last.prevTxHash + Dec(last.outputIndex)
  }

  ghost function OutputsText(outputs: seq<TxOutput>): string {
    if outputs == [] then ""
    else
      var last := outputs[|outputs| - 1];
      OutputsText(outputs[..|outputs| - 1]) + Dec(last.amount) + last.address
  }

  /** What a transaction hash commits to: scripts are not part of it. */
  ghost function HashText(tx: Transaction): string {
    DecInt(tx.timestamp) + (if tx.isCoinbase then "1" else "0") + InputsText(tx.inputs) + OutputsText(tx.outputs)
  }

  ghost function HashOf(hash: Hash, tx: Transaction): Digest {
    hash(hash(HashText(tx)))
  }

  method CalculateHash(hash: Hash, tx: Transaction) returns (h: Digest)
    ensures h == HashOf(hash, tx)
  {
    var ss := DecInt(tx.timestamp) + (if tx.isCoinbase then "1" else "0");
    ss := StreamInputs(ss, tx.inputs);
    ss := StreamOutputs(ss, tx.outputs);
    h := hash(hash(ss));
  }

  /** The first loop of `calculateHash`. */
  method StreamInputs(head: string, inputs: seq<TxInput>) returns (ss: string)
    ensures ss == head + InputsText(inputs)
  {
    ss := head;
    for i := 0 to |inputs|
      invariant ss == head + InputsText(inputs[..i])
    {
      assert inputs[..i + 1][..i] == inputs[..i];
      ss := ss + inputs[i].prevTxHash + Dec(inputs[i].outputIndex);
    }
    assert inputs[..|inputs|] == inputs;
  }

  /** The second loop of `calculateHash`. */
  method StreamOutputs(head: string, outputs: seq<TxOutput>) returns (ss: string)
    ensures ss == head + OutputsText(outputs)
  {
    ss := head;
    for i := 0 to |outputs|
      invariant ss == head + OutputsText(outputs[..i])
    {
      assert outputs[..i + 1][..i] == outputs[..i];
      ss := ss + Dec(outputs[i].amount) + outputs[i].address;
    }
    assert outputs[..|outputs|] == outputs;
  }

  /** The placeholder input of a coinbase spends nothing. */
  function CoinbaseInput(blockHeight: u32): TxInput {
    TxInput(seq(64, i => '0'), 0xFFFF_FFFF, "RexCoin Block #" + Dec(blockHeight))
  }

  /** The reward in satoshis. */
  function CoinbaseOutput(minerAddress: string, reward: u64): (output: TxOutput)
    ensures reward <= 50 ==> output.amount == reward * 100_000_000
  {
    TxOutput(Wrap64(reward * 100_000_000), minerAddress,
             "OP_DUP OP_HASH160 " + minerAddress + " OP_EQUALVERIFY OP_CHECKSIG")
  }

  method CreateCoinbase(hash: Hash, minerAddress: string, reward: u64, blockHeight: u32, now: int)
    returns (tx: Transaction)
    ensures tx == Coinbase(hash, minerAddress, reward, blockHeight, now)
  {
    tx := Transaction("", [CoinbaseInput(blockHeight)], [CoinbaseOutput(minerAddress, reward)], now, true);
    var h := CalculateHash(hash, tx);
    tx := tx.(txHash := h);
  }

  ghost function Coinbase(hash: Hash, minerAddress: string, reward: u64, blockHeight: u32, now: int): Transaction {
    var tx := Transaction("", [CoinbaseInput(blockHeight)], [CoinbaseOutput(minerAddress, reward)], now, true);
    tx.(txHash := HashOf(hash, tx))
  }

  /** What stands between time and miner in the text of a coinbase. */
  function CoinbaseMiddle(reward: u64): string {
    "1" + seq(64, i => '0') + Dec(0xFFFF_FFFF) + Dec(CoinbaseOutput("", reward).amount)
  }

  lemma CoinbaseText(hash: Hash, minerAddress: string, reward: u64, blockHeight: u32, now: int)
    ensures var tx := Coinbase(hash, minerAddress, reward, blockHeight, now);
      && HashText(tx) == DecInt(now) + CoinbaseMiddle(reward) + minerAddress
      && tx.txHash == HashOf(hash, tx)
  {
    var tx := Coinbase(hash, minerAddress, reward, blockHeight, now);
    var input, output := CoinbaseInput(blockHeight), CoinbaseOutput(minerAddress, reward);
    assert [input][..0] == [] && [output][..0] == [];
    assert InputsText(tx.inputs) == InputsText([]) + input.prevTxHash + Dec(0xFFFF_FFFF);
    assert OutputsText(tx.outputs) == OutputsText([]) + Dec(output.amount) + minerAddress;
    assert HashText(tx) == HashText(tx.(txHash := ""));
  }

  /** A one and 64 zeros after the times make the shorter time as long as the other. */
  lemma TimesAlign(t: string, u: string, middle: string, m: string, n: string)
    requires |t| <= |u| <= |t| + 64 && t + middle + m == u + middle + n
    requires |middle| >= 65 && middle[0] == '1' && forall i :: 1 <= i < 65 ==> middle[i] == '0'
    ensures |t| == |u|
  {
    var k := |u| - |t|;
    assert (u + middle + n)[|u|] == middle[0];
    assert (t + middle + m)[|u|] == middle[k];
  }

  lemma SameCoinbaseText(t: string, u: string, middle: string, m: string, n: string)
    requires |t| <= 64 && |u| <= 64 && t + middle + m == u + middle + n
    requires |middle| >= 65 && middle[0] == '1' && forall i :: 1 <= i < 65 ==> middle[i] == '0'
    ensures t == u && m == n
  {
    if |t| <= |u| {
      TimesAlign(t, u, middle, m, n);
    } else {
      TimesAlign(u, t, middle, n, m);
    }
    ConcatSplits(t + middle, m, u + middle, n);
    ConcatSplits(t, middle, u, middle);
  }

  /**
   * The block height enters a coinbase only through its script, which is not hashed. Two coinbases of
   * one reward share their hash exactly when they agree in second and miner, or a collision is exhibited.
   */
  lemma CoinbaseHashDetermines(hash: Hash, reward: u64, m1: string, m2: string, h1: u32, h2: u32, now1: i64, now2: i64)
    returns (x: string, y: string)
    ensures Collision(hash, x, y) ||
            (Coinbase(hash, m1, reward, h1, now1).txHash == Coinbase(hash, m2, reward, h2, now2).txHash <==>
             now1 == now2 && m1 == m2)
  {
    var a, b := Coinbase(hash, m1, reward, h1, now1), Coinbase(hash, m2, reward, h2, now2);
    CoinbaseText(hash, m1, reward, h1, now1);
    CoinbaseText(hash, m2, reward, h2, now2);
    TimeWidth(now1);
    TimeWidth(now2);
    x, y := "", "";
    if HashText(a) == HashText(b) {
      SameCoinbaseText(DecInt(now1), DecInt(now2), CoinbaseMiddle(reward), m1, m2);
      DecIntInjective(now1, now2);
    } else if a.txHash == b.txHash {
      x, y := DoubleCollision(hash, HashText(a), HashText(b));
    }
  }

  /** The parts of a coinbase, the reward in satoshis. */
  lemma CoinbaseParts(hash: Hash, minerAddress: string, reward: u64, blockHeight: u32, now: int)
    ensures var tx := Coinbase(hash, minerAddress, reward, blockHeight, now);
      && tx.isCoinbase && tx.timestamp == now && |tx.inputs| == |tx.outputs| == 1
      && |tx.inputs[0].prevTxHash| == 64 && (forall c :: c in tx.inputs[0].prevTxHash ==> c == '0')
      && tx.inputs[0].outputIndex == 4_294_967_295
      && tx.inputs[0].scriptSig == "RexCoin Block #" + Dec(blockHeight)
      && tx.outputs[0].amount == Wrap64(reward * 100_000_000) && tx.outputs[0].address == minerAddress
      && tx.outputs[0].scriptPubKey == "OP_DUP OP_HASH160 " + minerAddress + " OP_EQUALVERIFY OP_CHECKSIG"
  {
  }

  lemma RegroupFour(s: string, a: string, b: string, c: string, d: string)
    ensures s + (a + b + c + d) == s + a + b + c + d
  {
  }

  /** Its hash is the double digest of time, flag, placeholder input, amount and miner. */
  lemma CoinbaseHashIs(hash: Hash, minerAddress: string, reward: u64, blockHeight: u32, now: int)
    requires reward <= 50
    ensures Coinbase(hash, minerAddress, reward, blockHeight, now).txHash ==
            hash(hash(DecInt(now) + "1" + seq(64, i => '0') + Dec(4_294_967_295) + Dec(reward * 100_000_000)
                      + minerAddress))
  {
    CoinbaseText(hash, minerAddress, reward, blockHeight, now);
    RegroupFour(DecInt(now), "1", seq(64, i => '0'), Dec(4_294_967_295), Dec(reward * 100_000_000));
  }

  // ---------------------------------------------------------------------------------------------
  // What a transaction hash commits to.

  /** The text of a transaction without inputs and outputs. */
  lemma TextStarts(tx: Transaction)
    requires tx.inputs == [] && tx.outputs == []
    ensures HashText(tx) == DecInt(tx.timestamp) + (if tx.isCoinbase then "1" else "0")
  {
  }

  /** One more input adds the hash and the index it names. */
  lemma TextWithInput(tx: Transaction, input: TxInput)
    requires tx.outputs == []
    ensures HashText(tx.(inputs := tx.inputs + [input])) == HashText(tx) + input.prevTxHash + Dec(input.outputIndex)
  {
    var more := tx.(inputs := tx.inputs + [input]);
    assert more.inputs[..|tx.inputs|] == tx.inputs;
    assert InputsText(more.inputs) == InputsText(tx.inputs) + input.prevTxHash + Dec(input.outputIndex);
  }

  /** One more output adds its amount and address. */
  lemma TextWithOutput(tx: Transaction, output: TxOutput)
    requires |tx.outputs| + 1 < U32
    ensures HashText(tx.(outputs := tx.outputs + [output])) == HashText(tx) + Dec(output.amount) + output.address
  {
    var more := tx.(outputs := tx.outputs + [output]);
    assert more.outputs[..|tx.outputs|] == tx.outputs;
    assert OutputsText(more.outputs) == OutputsText(tx.outputs) + Dec(output.amount) + output.address;
  }

  ghost predicate SameInput(x: TxInput, y: TxInput) {
    x.prevTxHash == y.prevTxHash && x.outputIndex == y.outputIndex
  }

  ghost predicate SameOutput(x: TxOutput, y: TxOutput) {
    x.amount == y.amount && x.address == y.address
  }

  /** Everything but the scripts and the hash itself. */
  ghost predicate SameContent(x: Transaction, y: Transaction) {
    && x.timestamp == y.timestamp && x.isCoinbase == y.isCoinbase
    && |x.inputs| == |y.inputs| && |x.outputs| == |y.outputs|
    && (forall i :: 0 <= i < |x.inputs| ==> SameInput(x.inputs[i], y.inputs[i]))
    && (forall i :: 0 <= i < |x.outputs| ==> SameOutput(x.outputs[i], y.outputs[i]))
  }

  ghost predicate InputWidths(xs: seq<TxInput>, ys: seq<TxInput>) {
    && |xs| == |ys|
    && forall i :: 0 <= i < |xs| ==> |xs[i].prevTxHash| == |ys[i].prevTxHash|
                                     && |Dec(xs[i].outputIndex)| == |Dec(ys[i].outputIndex)|
  }

  ghost predicate OutputWidths(xs: seq<TxOutput>, ys: seq<TxOutput>) {
    && |xs| == |ys|
    && forall i :: 0 <= i < |xs| ==> |Dec(xs[i].amount)| == |Dec(ys[i].amount)| && |xs[i].address| == |ys[i].address|
  }

  /** All parts are written with as many characters. */
  ghost predicate SameShape(x: Transaction, y: Transaction) {
    && |DecInt(x.timestamp)| == |DecInt(y.timestamp)|
    && InputWidths(x.inputs, y.inputs) && OutputWidths(x.outputs, y.outputs)
  }

  lemma {:induction false} InputsDetermined(xs: seq<TxInput>, ys: seq<TxInput>)
    requires InputWidths(xs, ys)
    ensures |InputsText(xs)| == |InputsText(ys)|
    ensures InputsText(xs) == InputsText(ys) <==> forall i :: 0 <= i < |xs| ==> SameInput(xs[i], ys[i])
  {
    if xs != [] {
      var n := |xs| - 1;
      var x, y := xs[n], ys[n];
      InputsDetermined(xs[..n], ys[..n]);
      if InputsText(xs) == InputsText(ys) {
        ConcatSplitsRight(InputsText(xs[..n]) + x.prevTxHash, Dec(x.outputIndex),
                          InputsText(ys[..n]) + y.prevTxHash, Dec(y.outputIndex));
        ConcatSplitsRight(InputsText(xs[..n]), x.prevTxHash, InputsText(ys[..n]), y.prevTxHash);
        DecInjective(x.outputIndex, y.outputIndex);
        forall i | 0 <= i < |xs| ensures SameInput(xs[i], ys[i]) {
          assert i < n ==> xs[..n][i] == xs[i] && ys[..n][i] == ys[i];
        }
      }
    }
  }

  lemma {:induction false} OutputsDetermined(xs: seq<TxOutput>, ys: seq<TxOutput>)
    requires OutputWidths(xs, ys)
    ensures |OutputsText(xs)| == |OutputsText(ys)|
    ensures OutputsText(xs) == OutputsText(ys) <==> forall i :: 0 <= i < |xs| ==> SameOutput(xs[i], ys[i])
  {
    if xs != [] {
      var n := |xs| - 1;
      var x, y := xs[n], ys[n];
      OutputsDetermined(xs[..n], ys[..n]);
      if OutputsText(xs) == OutputsText(ys) {
        ConcatSplitsRight(OutputsText(xs[..n]) + Dec(x.amount), x.address,
                          OutputsText(ys[..n]) + Dec(y.amount), y.address);
        ConcatSplitsRight(OutputsText(xs[..n]), Dec(x.amount), OutputsText(ys[..n]), Dec(y.amount));
        DecInjective(x.amount, y.amount);
        forall i | 0 <= i < |xs| ensures SameOutput(xs[i], ys[i]) {
          assert i < n ==> xs[..n][i] == xs[i] && ys[..n][i] == ys[i];
        }
      }
    }
  }

  lemma TextDetermines(x: Transaction, y: Transaction)
    requires SameShape(x, y)
    ensures HashText(x) == HashText(y) <==> SameContent(x, y)
  {
    var f, g := if x.isCoinbase then "1" else "0", if y.isCoinbase then "1" else "0";
    var s, t := DecInt(x.timestamp), DecInt(y.timestamp);
    InputsDetermined(x.inputs, y.inputs);
    OutputsDetermined(x.outputs, y.outputs);
    if HashText(x) == HashText(y) {
      ConcatSplits(s + f + InputsText(x.inputs), OutputsText(x.outputs),
                   t + g + InputsText(y.inputs), OutputsText(y.outputs));
      ConcatSplits(s + f, InputsText(x.inputs), t + g, InputsText(y.inputs));
      ConcatSplits(s, f, t, g);
      DecIntInjective(x.timestamp, y.timestamp);
    }
  }

  /** Equal content has equal shape. */
  lemma ContentHasShape(x: Transaction, y: Transaction)
    requires SameContent(x, y)
    ensures SameShape(x, y)
  {
    forall i | 0 <= i < |x.inputs|
      ensures |x.inputs[i].prevTxHash| == |y.inputs[i].prevTxHash|
              && |Dec(x.inputs[i].outputIndex)| == |Dec(y.inputs[i].outputIndex)|
    {
      assert SameInput(x.inputs[i], y.inputs[i]);
    }
    forall i | 0 <= i < |x.outputs|
      ensures |Dec(x.outputs[i].amount)| == |Dec(y.outputs[i].amount)|
              && |x.outputs[i].address| == |y.outputs[i].address|
    {
      assert SameOutput(x.outputs[i], y.outputs[i]);
    }
  }

  /**
   * Two transactions with one hash have the same content, scripts aside, exactly when all their parts are
   * written with as many characters, or a collision is exhibited.
   */
  lemma TransactionHashCommits(hash: Hash, x: Transaction, y: Transaction) returns (a: string, b: string)
    ensures Collision(hash, a, b) || (SameContent(x, y) <==> HashOf(hash, x) == HashOf(hash, y) && SameShape(x, y))
  {
    a, b := "", "";
    if SameContent(x, y) {
      ContentHasShape(x, y);
      TextDetermines(x, y);
    } else if SameShape(x, y) && HashOf(hash, x) == HashOf(hash, y) {
      TextDetermines(x, y);
      a, b := DoubleCollision(hash, HashText(x), HashText(y));
    }
  }

  /** Amounts and addresses run together: one satoshi for "2a" and twelve for "a" have one hash, for every digest. */
  lemma TransactionTextIsAmbiguous(hash: Hash, inputs: seq<TxInput>, now: int, script: string)
    ensures var x := Transaction("", inputs, [TxOutput(1, "2a", script)], now, false);
            var y := Transaction("", inputs, [TxOutput(12, "a", script)], now, false);
      HashOf(hash, x) == HashOf(hash, y) && Paid(x.outputs) != Paid(y.outputs)
  {
    var p, q := TxOutput(1, "2a", script), TxOutput(12, "a", script);
    assert [p][..0] == [] && [q][..0] == [];
    assert Dec(12) == Dec(1) + [DecDigit(2)];
    assert OutputsText([p]) == OutputsText([]) + Dec(1) + "2a";
    assert OutputsText([q]) == OutputsText([]) + Dec(12) + "a";
    assert OutputsText([p]) == OutputsText([q]);
    PaidOne(p);
    PaidOne(q);
  }

  /** The exact sum of some outputs, before any wrap-around. */
  ghost function Paid(outputs: seq<TxOutput>): (n: nat) {
    if outputs == [] then 0 else Paid(outputs[..|outputs| - 1]) + outputs[|outputs| - 1].amount
  }

  method TotalOutput(tx: Transaction) returns (total: u64)
    ensures total == Wrap64(Paid(tx.outputs))
  {
    total := 0;
    for i := 0 to |tx.outputs|
      invariant total == Wrap64(Paid(tx.outputs[..i]))
    {
      assert tx.outputs[..i + 1][..i] == tx.outputs[..i];
      WrapAdd(Paid(tx.outputs[..i]), tx.outputs[i].amount);
      total := Wrap64((total as int) + tx.outputs[i].amount);
    }
    assert tx.outputs[..|tx.outputs|] == tx.outputs;
  }

  lemma PaidOne(output: TxOutput)
    ensures Paid([output]) == output.amount
  {
    assert [output][..0] == [];
  }

  /** The value of a coinbase for the code's reward of at most 50 coins. */
  lemma CoinbasePays(hash: Hash, minerAddress: string, reward: u64, blockHeight: u32, now: int)
    requires reward <= 50
    ensures Paid(Coinbase(hash, minerAddress, reward, blockHeight, now).outputs) == reward * 100_000_000
  {
    PaidOne(CoinbaseOutput(minerAddress, reward));
  }
}
