/** The halving schedule and the bound on the supply over whole runs of the chain. */
module Supply {
  import opened Text
  import opened Transactions
  import opened MapSums
  import opened Utxo

  /** An unsigned right shift. */
  function ShiftRight(n: nat, bits: nat): nat {
    if bits == 0 then n else ShiftRight(n, bits - 1) / 2
  }

  /** `getBlockReward` in whole coins: the halving count passes through a 32-bit cast. */
  function BlockReward(chainSize: nat): nat {
    var halvings := Wrap32(chainSize / 210_000);
    if halvings >= 64 then 0 else ShiftRight(50, halvings)
  }

  /** The satoshis issued by coinbases paying the full reward for the first `n` blocks. */
  ghost function Minted(n: nat): nat {
    if n == 0 then 0 else Minted(n - 1) + BlockReward(n - 1) * 100_000_000
  }

  const LAST_BLOCK: int := 210_000 * 0x1_0000_0000
  const CAP: int := 20_370_000 * 100_000_000

  lemma {:induction false} ShiftedAway(bits: nat)
    requires bits >= 6
    ensures ShiftRight(50, bits) == 0
  {
    if bits > 6 {
      ShiftedAway(bits - 1);
    } else {
      FirstShifts();
    }
  }

  lemma FirstShifts()
    ensures ShiftRight(50, 0) == 50 && ShiftRight(50, 1) == 25 && ShiftRight(50, 2) == 12
    ensures ShiftRight(50, 3) == 6 && ShiftRight(50, 4) == 3 && ShiftRight(50, 5) == 1 && ShiftRight(50, 6) == 0
  {
    assert ShiftRight(50, 2) == 12;
    assert ShiftRight(50, 4) == 3;
  }

  ghost function RewardOf(era: nat): nat {
    if era == 0 then 50 else if era == 1 then 25 else if era == 2 then 12
    else if era == 3 then 6 else if era == 4 then 3 else if era == 5 then 1 else 0
  }

  /** Whole coins only: 50, 25, 12, 6, 3, 1, then nothing, until the 32-bit halving count starts over. */
  lemma RewardSchedule(chainSize: nat)
    ensures var era := Wrap32(chainSize / 210_000);
      BlockReward(chainSize) == RewardOf(era)
  {
    var era := Wrap32(chainSize / 210_000);
    FirstShifts();
    if era >= 6 {
      ShiftedAway(era);
    }
  }

  lemma OneMore(n: nat, x: nat)
    ensures (n + 1) * x == n * x + x
  {
  }

  /** Over a stretch of blocks that all earn `coins`, `blocks` times that is issued. */
  lemma {:induction false} MintedConstantly(a: nat, blocks: nat, coins: nat)
    requires forall i :: a <= i < a + blocks ==> BlockReward(i) == coins
    ensures Minted(a + blocks) == Minted(a) + blocks * (coins * 100_000_000)
  {
    if blocks > 0 {
      MintedConstantly(a, blocks - 1, coins);
      OneMore(blocks - 1, coins * 100_000_000);
    }
  }

  lemma {:induction false} MintedMonotone(a: nat, b: nat)
    requires a <= b
    ensures Minted(a) <= Minted(b)
  {
    if a < b {
      MintedMonotone(a, b - 1);
    }
  }

  lemma EraReward(era: nat, i: nat)
    requires 210_000 * era <= i < 210_000 * (era + 1) && era < U32
    ensures Wrap32(i / 210_000) == era
  {
  }

  /** One era of the schedule. */
  lemma MintedEra(start: nat, era: nat, reward: nat)
    requires start == 210_000 * era && era < 6 && reward == RewardOf(era)
    ensures Minted(start + 210_000) == Minted(start) + 210_000 * reward * 100_000_000
  {
    forall i | start <= i < start + 210_000 ensures BlockReward(i) == reward {
      EraReward(era, i);
      RewardSchedule(i);
    }
    MintedConstantly(start, 210_000, reward);
  }

  lemma MintedTwoEras(start: nat, era: nat, first: nat, second: nat)
    requires start == 210_000 * era && era < 5 && first == RewardOf(era) && second == RewardOf(era + 1)
    ensures Minted(start + 420_000) == Minted(start) + 210_000 * (first + second) * 100_000_000
  {
    MintedEra(start, era, first);
    MintedEra(start + 210_000, era + 1, second);
  }

  lemma MintedNothing(n: nat)
    requires n == 0
    ensures Minted(n) == 0
  {
  }

  lemma MintedFourEras(end: nat)
    requires end == 840_000
    ensures Minted(end) == 93 * 210_000 * 100_000_000
  {
    MintedNothing(end - 840_000);
    MintedTwoEras(end - 840_000, 0, 50, 25);
    MintedTwoEras(end - 420_000, 2, 12, 6);
  }

  /** Everything is issued after six eras. */
  lemma MintedAfterSixEras(end: nat)
    requires end == 1_260_000
    ensures Minted(end) == CAP
  {
    MintedFourEras(end - 420_000);
    MintedTwoEras(end - 420_000, 4, 3, 1);
  }

  lemma NoReward(i: nat)
    requires 1_260_000 <= i < LAST_BLOCK
    ensures BlockReward(i) == 0
  {
    EraReward(i / 210_000, i);
    RewardSchedule(i);
  }

  /** After six eras nothing is issued until the halving count wraps around. */
  lemma NothingIssued(end: nat, n: nat)
    requires end == 1_260_000 && end <= n <= LAST_BLOCK
    ensures Minted(n) == Minted(end)
  {
    forall i | end <= i < n ensures BlockReward(i) == 0 {
      NoReward(i);
    }
    MintedConstantly(end, n - end, 0);
    assert end + (n - end) == n;
  }

  /** The block after that earns the initial reward again. */
  lemma RewardStartsOver(last: nat)
    requires last == LAST_BLOCK
    ensures Minted(last + 1) == Minted(last) + 50 * 100_000_000
  {
    assert Wrap32(last / 210_000) == 0;
    RewardSchedule(last);
  }

  lemma IssuanceCapAt(n: nat, end: nat, last: nat)
    requires end == 1_260_000 && last == LAST_BLOCK
    ensures Minted(n) <= CAP <==> n <= last
    ensures end <= n <= last ==> Minted(n) == CAP
  {
    MintedAfterSixEras(end);
    if n <= end {
      MintedMonotone(n, end);
    } else if n <= last {
      NothingIssued(end, n);
    } else {
      NothingIssued(end, last);
      RewardStartsOver(last);
      MintedMonotone(last + 1, n);
    }
  }

  /**
   * The issued amount stays within 20,370,000 coins exactly as long as the chain has at most
   * 210,000 * 2^32 blocks; the next block would earn the initial reward again.
   */
  lemma IssuanceCap(n: nat)
    ensures Minted(n) <= CAP <==> n <= LAST_BLOCK
    ensures 1_260_000 <= n <= LAST_BLOCK ==> Minted(n) == CAP
  {
    IssuanceCapAt(n, 1_260_000, LAST_BLOCK);
  }

  // ---------------------------------------------------------------------------------------------
  // Blocks.

  /** Every transaction of the block brings a hash whose outputs are not known yet. */
  ghost predicate FreshBlock(u: Utxos, txs: seq<Transaction>) {
    txs != [] ==>
      var before := txs[..|txs| - 1];
      FreshBlock(u, before) && Fresh(AfterTxs(u, before), txs[|txs| - 1])
  }

  /** The outputs a block creates. */
  ghost function PaidInBlock(txs: seq<Transaction>): nat {
    if txs == [] then 0 else PaidInBlock(txs[..|txs| - 1]) + Paid(txs[|txs| - 1].outputs)
  }

  /** The inputs a block is allowed to spend. */
  ghost function AcceptedInBlock(u: Utxos, txs: seq<Transaction>): nat {
    if txs == [] then 0
    else
      var before := txs[..|txs| - 1];
      AcceptedInBlock(u, before) + Accepted(AfterTxs(u, before), txs[|txs| - 1].inputs)
  }

  /** The live value a block overwrites by reusing transaction hashes. */
  ghost function DestroyedInBlock(u: Utxos, txs: seq<Transaction>): nat {
    if txs == [] then 0
    else
      var before := txs[..|txs| - 1];
      DestroyedInBlock(u, before) + Destroyed(AfterTxs(u, before), txs[|txs| - 1])
  }

  /** Whatever a block contains, value changes by what it creates less what it spends and overwrites. */
  lemma {:induction false} BlockConserves(u: Utxos, txs: seq<Transaction>)
    ensures Unspent(AfterTxs(u, txs)) + AcceptedInBlock(u, txs) + DestroyedInBlock(u, txs) ==
            Unspent(u) + PaidInBlock(txs)
    ensures FreshBlock(u, txs) ==> DestroyedInBlock(u, txs) == 0
  {
    if txs != [] {
      var before := txs[..|txs| - 1];
      BlockConserves(u, before);
      TransactionConserves(AfterTxs(u, before), txs[|txs| - 1]);
    }
  }

  /** A coinbase spends nothing of its own, so it overwrites exactly what its key holds. */
  lemma CoinbaseDestroys(hash: Hash, u: Utxos, minerAddress: string, reward: u64, height: u32, now: int)
    requires reward <= 50
    ensures var b := Coinbase(hash, minerAddress, reward, height, now);
      && Destroyed(u, b) == LiveAmount(u, KeyOf(b.txHash, 0))
      && LiveAmount(AfterTx(u, b), KeyOf(b.txHash, 0)) == reward * 100_000_000
      && Unspent(AfterTx(u, b)) + Accepted(u, b.inputs) + Destroyed(u, b) == Unspent(u) + reward * 100_000_000
  {
    var b := Coinbase(hash, minerAddress, reward, height, now);
    var input := InputKey(b.inputs[0]);
    KeysDiffer(b.inputs[0].prevTxHash, b.inputs[0].outputIndex, b.txHash, 0);
    assert b.inputs[..0] == [];
    assert AfterInputs(u, b.inputs) == AfterSpend(u, input);
    assert AfterOutputs(AfterInputs(u, b.inputs), b, 0) == AfterInputs(u, b.inputs);
    assert Overwritten(AfterInputs(u, b.inputs), b, 0) == 0;
    TransactionConserves(u, b);
    CoinbasePays(hash, minerAddress, reward, height, now);
  }

  /**
   * After one coinbase a second one of the same reward, under a key not in use otherwise, is paid in full
   * exactly when it differs in second or miner, or a collision is exhibited.
   */
  lemma PaidInFullExactly(hash: Hash, u: Utxos, reward: u64, m1: string, m2: string, h1: u32, h2: u32,
                          now1: i64, now2: i64)
    returns (x: string, y: string)
    requires 0 < reward <= 50
    requires !Live(u, KeyOf(Coinbase(hash, m2, reward, h2, now2).txHash, 0))
    ensures var a, b := Coinbase(hash, m1, reward, h1, now1), Coinbase(hash, m2, reward, h2, now2);
            var v := AfterTx(u, a);
      Collision(hash, x, y) ||
      (Unspent(AfterTx(v, b)) + Accepted(v, b.inputs) == Unspent(v) + reward * 100_000_000 <==>
       now1 != now2 || m1 != m2)
  {
    var a, b := Coinbase(hash, m1, reward, h1, now1), Coinbase(hash, m2, reward, h2, now2);
    var v := AfterTx(u, a);
    x, y := CoinbaseHashDetermines(hash, reward, m1, m2, h1, h2, now1, now2);
    CoinbaseDestroys(hash, u, m1, reward, h1, now1);
    CoinbaseDestroys(hash, v, m2, reward, h2, now2);
    if a.txHash != b.txHash {
      OtherKeyUntouched(u, a, b);
    }
  }

  /** A coinbase makes no other coinbase's output live. */
  lemma OtherKeyUntouched(u: Utxos, a: Transaction, b: Transaction)
    requires |a.outputs| == 1 && a.txHash != b.txHash && !Live(u, KeyOf(b.txHash, 0))
    ensures !Live(AfterTx(u, a), KeyOf(b.txHash, 0))
  {
    var v, key := AfterInputs(u, a.inputs), KeyOf(b.txHash, 0);
    NothingRevives(u, a.inputs, key);
    if Created(a, 0).Key() == key {
      KeyInjective(a.txHash, 0, b.txHash, 0);
    }
    assert AfterOutputs(v, a, 0) == v;
  }

  lemma {:induction false} NothingRevives(u: Utxos, inputs: seq<TxInput>, k: string)
    requires !Live(u, k)
    ensures !Live(AfterInputs(u, inputs), k)
  {
    if inputs != [] {
      NothingRevives(u, inputs[..|inputs| - 1], k);
    }
  }

  ghost function CoinbaseValue(txs: seq<Transaction>): nat {
    if txs == [] then 0
    else CoinbaseValue(txs[..|txs| - 1]) + (if txs[|txs| - 1].isCoinbase then Paid(txs[|txs| - 1].outputs) else 0)
  }

  /** No transaction other than a coinbase pays out more than the inputs it is allowed to spend. */
  ghost predicate Backed(u: Utxos, txs: seq<Transaction>) {
    txs != [] ==>
      var before, tx := txs[..|txs| - 1], txs[|txs| - 1];
      Backed(u, before) && (tx.isCoinbase || Paid(tx.outputs) <= Accepted(AfterTxs(u, before), tx.inputs))
  }

  lemma {:induction false} BackedBlockGrowth(u: Utxos, txs: seq<Transaction>)
    requires Backed(u, txs)
    ensures Unspent(AfterTxs(u, txs)) <= Unspent(u) + CoinbaseValue(txs)
  {
    if txs != [] {
      var before := txs[..|txs| - 1];
      BackedBlockGrowth(u, before);
      TransactionConserves(AfterTxs(u, before), txs[|txs| - 1]);
    }
  }

  // ---------------------------------------------------------------------------------------------
  // Runs.

  /** The output set after the blocks of `history`, the first of which is the genesis block. */
  ghost function AfterBlocks(history: seq<seq<Transaction>>): Utxos {
    if history == [] then map[] else AfterTxs(AfterBlocks(history[..|history| - 1]), history[|history| - 1])
  }

  /**
   * The coinbases of a block together pay at most the reward of its height, and other transactions pay
   * out only what they spend. Transaction hashes may repeat.
   */
  ghost predicate HonestRun(history: seq<seq<Transaction>>) {
    history != [] ==>
      var before, txs := history[..|history| - 1], history[|history| - 1];
      && HonestRun(before)
      && Backed(AfterBlocks(before), txs)
      && CoinbaseValue(txs) <= BlockReward(|before|) * 100_000_000
  }

  lemma {:induction false} UnspentAtMostMinted(history: seq<seq<Transaction>>)
    requires HonestRun(history)
    ensures Unspent(AfterBlocks(history)) <= Minted(|history|)
  {
    if history == [] {
      TotalZero(LiveAmounts(map[]));
    } else {
      var before := history[..|history| - 1];
      UnspentAtMostMinted(before);
      BackedBlockGrowth(AfterBlocks(before), history[|history| - 1]);
    }
  }

  lemma BalancesFit(u: Utxos)
    requires Unspent(u) < U64
    ensures forall a :: Wrap64(Balance(u, a)) == Balance(u, a)
  {
    forall a ensures Wrap64(Balance(u, a)) == Balance(u, a) {
      BalanceAtMostUnspent(u, a);
    }
  }

  /**
   * In every honest run of at most 210,000 * 2^32 blocks the total unspent value, which is the sum of
   * all balances, never exceeds 20,370,000 coins, and no 64-bit balance wraps around.
   */
  lemma SupplyNeverExceedsCap(history: seq<seq<Transaction>>, addresses: set<string>)
    requires HonestRun(history) && |history| <= LAST_BLOCK
    requires forall k :: k in AfterBlocks(history) ==> AfterBlocks(history)[k].address in addresses
    ensures var u := AfterBlocks(history);
      && Total(Balances(u, addresses)) == Unspent(u) <= CAP < 21_000_000 * 100_000_000
      && forall a :: Wrap64(Balance(u, a)) == Balance(u, a)
  {
    var u := AfterBlocks(history);
    UnspentAtMostMinted(history);
    IssuanceCap(|history|);
    BalancesAddUp(u, addresses);
    BalancesFit(u);
  }

  // ---------------------------------------------------------------------------------------------
  // The bound is met and, past the last block, broken.

  /** A block of one coinbase that pays the full reward of its height and names no first output as its input. */
  ghost predicate FullBlock(txs: seq<Transaction>, height: nat) {
    && |txs| == 1 && txs[0].isCoinbase && |txs[0].outputs| == 1
    && txs[0].outputs[0].amount == BlockReward(height) * 100_000_000
    && forall i :: 0 <= i < |txs[0].inputs| ==> txs[0].inputs[i].outputIndex != 0
  }

  /** One such block after the other, each with a hash of its own. */
  ghost predicate FullHistory(history: seq<seq<Transaction>>) {
    && (forall i :: 0 <= i < |history| ==> FullBlock(history[i], i))
    && (forall i, j :: 0 <= i < j < |history| ==> history[i][0].txHash != history[j][0].txHash)
  }

  /** Only first outputs are known, of the given transactions. */
  ghost predicate FirstOutputs(u: Utxos, history: seq<seq<Transaction>>)
  {
    && (forall i :: 0 <= i < |history| ==> |history[i]| == 1)
    && forall k :: k in u ==> exists i :: 0 <= i < |history| && k == KeyOf(history[i][0].txHash, 0)
  }

  lemma OneTransaction(u: Utxos, tx: Transaction)
    ensures AfterTxs(u, [tx]) == AfterTx(u, tx) && CoinbaseValue([tx]) == if tx.isCoinbase then Paid(tx.outputs) else 0
    ensures Backed(u, [tx]) <==> tx.isCoinbase || Paid(tx.outputs) <= Accepted(u, tx.inputs)
  {
    assert [tx][..0] == [];
    assert AfterTxs(u, []) == u;
  }

  lemma {:induction false} NothingSpent(u: Utxos, inputs: seq<TxInput>)
    requires forall i :: 0 <= i < |inputs| ==> InputKey(inputs[i]) !in u
    ensures AfterInputs(u, inputs) == u && Accepted(u, inputs) == 0
  {
    if inputs != [] {
      NothingSpent(u, inputs[..|inputs| - 1]);
    }
  }

  lemma InputsUnknown(u: Utxos, history: seq<seq<Transaction>>, txs: seq<Transaction>, height: nat)
    requires FirstOutputs(u, history) && FullBlock(txs, height)
    ensures AfterInputs(u, txs[0].inputs) == u && Accepted(u, txs[0].inputs) == 0
  {
    var inputs := txs[0].inputs;
    forall n | 0 <= n < |inputs| ensures InputKey(inputs[n]) !in u {
      forall i | 0 <= i < |history| ensures InputKey(inputs[n]) != KeyOf(history[i][0].txHash, 0) {
        KeysDiffer(inputs[n].prevTxHash, inputs[n].outputIndex, history[i][0].txHash, 0);
      }
    }
    NothingSpent(u, inputs);
  }

  /** Such a block is honest and adds exactly the reward. */
  lemma FullBlockAdds(u: Utxos, txs: seq<Transaction>, height: nat)
    requires FullBlock(txs, height) && KeyOf(txs[0].txHash, 0) !in u
    requires AfterInputs(u, txs[0].inputs) == u && Accepted(u, txs[0].inputs) == 0
    ensures Backed(u, txs) && CoinbaseValue(txs) == BlockReward(height) * 100_000_000
    ensures Unspent(AfterTxs(u, txs)) == Unspent(u) + BlockReward(height) * 100_000_000
    ensures AfterTxs(u, txs).Keys == u.Keys + {KeyOf(txs[0].txHash, 0)}
  {
    var tx := txs[0];
    assert txs == [tx] && tx.outputs == [tx.outputs[0]];
    OneTransaction(u, tx);
    PaidOne(tx.outputs[0]);
    TransactionConserves(u, tx);
    assert AfterOutputs(u, tx, 0) == u;
  }

  lemma FullPrefix(history: seq<seq<Transaction>>, n: nat)
    requires FullHistory(history) && n + 1 == |history|
    ensures FullHistory(history[..n]) && FullBlock(history[n], n)
  {
  }

  lemma KeyIsNew(history: seq<seq<Transaction>>, n: nat, u: Utxos)
    requires FullHistory(history) && n + 1 == |history| && FirstOutputs(u, history[..n])
    ensures KeyOf(history[n][0].txHash, 0) !in u
  {
    var key := KeyOf(history[n][0].txHash, 0);
    if key in u {
      var i :| 0 <= i < n && key == KeyOf(history[..n][i][0].txHash, 0);
      KeyInjective(history[i][0].txHash, 0, history[n][0].txHash, 0);
    }
  }

  /** One block more. */
  lemma FullStep(history: seq<seq<Transaction>>, before: seq<seq<Transaction>>, txs: seq<Transaction>, u: Utxos)
    requires FullHistory(history) && history == before + [txs] && FirstOutputs(u, before)
    ensures FirstOutputs(AfterTxs(u, txs), history)
    ensures Backed(u, txs) && CoinbaseValue(txs) == BlockReward(|before|) * 100_000_000
    ensures Unspent(AfterTxs(u, txs)) == Unspent(u) + BlockReward(|before|) * 100_000_000
  {
    var n := |before|;
    assert before == history[..n] && txs == history[n];
    FullPrefix(history, n);
    KeyIsNew(history, n, u);
    InputsUnknown(u, before, txs, n);
    FullBlockAdds(u, txs, n);
    MoreOutputs(u, history, n);
  }

  lemma HonestStep(history: seq<seq<Transaction>>, before: seq<seq<Transaction>>, txs: seq<Transaction>)
    requires history == before + [txs] && HonestRun(before)
    requires Backed(AfterBlocks(before), txs) && CoinbaseValue(txs) <= BlockReward(|before|) * 100_000_000
    ensures HonestRun(history) && AfterBlocks(history) == AfterTxs(AfterBlocks(before), txs)
  {
    assert history[..|history| - 1] == before;
  }

  lemma FullHistoryStep(history: seq<seq<Transaction>>, before: seq<seq<Transaction>>, txs: seq<Transaction>)
    requires FullHistory(history) && history == before + [txs]
    requires HonestRun(before) && Unspent(AfterBlocks(before)) == Minted(|before|)
    requires FirstOutputs(AfterBlocks(before), before)
    ensures HonestRun(history) && Unspent(AfterBlocks(history)) == Minted(|history|)
    ensures FirstOutputs(AfterBlocks(history), history)
  {
    FullStep(history, before, txs, AfterBlocks(before));
    HonestStep(history, before, txs);
  }

  /** A full history is honest, and what it leaves unspent is all that is ever issued. */
  lemma {:induction false} FullHistoryMints(history: seq<seq<Transaction>>)
    requires FullHistory(history)
    ensures HonestRun(history) && Unspent(AfterBlocks(history)) == Minted(|history|)
    ensures FirstOutputs(AfterBlocks(history), history)
  {
    if history == [] {
      TotalZero(LiveAmounts(map[]));
    } else {
      var n := |history| - 1;
      FullPrefix(history, n);
      FullHistoryMints(history[..n]);
      FullHistoryStep(history, history[..n], history[n]);
    }
  }

  lemma MoreOutputs(u: Utxos, history: seq<seq<Transaction>>, n: nat)
    requires n + 1 == |history| && forall i :: 0 <= i < |history| ==> |history[i]| == 1
    requires FirstOutputs(u, history[..n])
    requires AfterTxs(u, history[n]).Keys == u.Keys + {KeyOf(history[n][0].txHash, 0)}
    ensures FirstOutputs(AfterTxs(u, history[n]), history)
  {
    forall k | k in AfterTxs(u, history[n])
      ensures exists i :: 0 <= i < |history| && k == KeyOf(history[i][0].txHash, 0)
    {
      if k in u {
        var i :| 0 <= i < n && k == KeyOf(history[..n][i][0].txHash, 0);
        assert history[..n][i] == history[i];
      }
    }
  }

  /** A coinbase that pays the full reward of its height under a hash of its own. */
  ghost function FullCoinbase(height: nat): Transaction {
    RewardSchedule(height);
    Transaction("#" + Dec(height), [], [TxOutput(BlockReward(height) * 100_000_000, "miner", "")], 0, true)
  }

  lemma OwnHashes(i: nat, j: nat)
    requires i != j
    ensures FullCoinbase(i).txHash != FullCoinbase(j).txHash
  {
    if FullCoinbase(i).txHash == FullCoinbase(j).txHash {
      ConcatSplits("#", Dec(i), "#", Dec(j));
      DecInjective(i, j);
    }
  }

  lemma FullHistoryExists(n: nat) returns (history: seq<seq<Transaction>>)
    ensures FullHistory(history) && |history| == n
  {
    history := seq(n, i requires 0 <= i < n => [FullCoinbase(i)]);
    forall i, j | 0 <= i < j < n ensures history[i][0].txHash != history[j][0].txHash {
      OwnHashes(i, j);
    }
  }

  /** Honest runs of `n` blocks stay within the cap if and only if `n` is at most 210,000 * 2^32. */
  lemma SupplyCapExactly(n: nat)
    ensures (forall h :: HonestRun(h) && |h| == n ==> Unspent(AfterBlocks(h)) <= CAP) <==> n <= LAST_BLOCK
  {
    var full := FullHistoryExists(n);
    FullHistoryMints(full);
    IssuanceCap(n);
    if n <= LAST_BLOCK {
      forall h | HonestRun(h) && |h| == n ensures Unspent(AfterBlocks(h)) <= CAP {
        UnspentAtMostMinted(h);
      }
    }
  }
}
