/** Runs of the chain object that issue everything there is to issue: the supply bound is met, and broken past it. */
module CapRuns {
  import opened Text
  import opened Transactions
  import opened Utxo
  import opened Blocks
  import opened ChainModel
  import opened ChainRuns
  import opened Supply

  /** Every header of the initial difficulty can be mined. */
  ghost predicate Minable(sha: Hash) {
    forall h: Header :: h.difficulty == 4 ==> Winnable(sha, h)
  }

  lemma MineOn(sha: Hash, h: Header) returns (g: Header)
    requires Minable(sha) && h.difficulty == 4
    ensures g == h.(nonce := g.nonce) && Meets(HeaderHash(sha, g), 4)
  {
    assert Winnable(sha, h);
    var n: nat :| Wins(sha, h, n);
    g := Attempt(h, n);
  }

  /** Within a window of ordinary length the difficulty stays what it is. */
  lemma NextBlock(sha: Hash, s: ChainState, txs: seq<Transaction>, clock: int) returns (b: BlockData)
    requires Minable(sha)
    requires s.chain != [] && s.difficulty == 4 && clock == s.lastAdjustment + 1_000_000
    ensures IsSuccessor(sha, s, b, clock) && b.transactions == txs
    ensures AfterAdd(s, b, clock).difficulty == 4 && AfterAdd(s, b, clock).chain == s.chain + [b]
  {
    assert Adjusted(s, clock).difficulty == 4;
    var header := MineOn(sha, NextHeader(sha, s, txs, clock, 0));
    b := BlockData(Wrap32(|s.chain|), header, txs, HeaderHash(sha, header));
  }

  lemma Genesis(sha: Hash) returns (b: BlockData)
    requires Minable(sha)
    ensures IsGenesis(sha, b, 0)
  {
    var header := MineOn(sha, GenesisHeader(sha, 0, 0));
    b := GenesisBlock(sha, 0, 0, header.nonce);
  }

  lemma GenesisIsFull(sha: Hash)
    ensures FullBlock([GenesisTx(sha, 0)], 0)
  {
    RewardSchedule(0);
  }

  /** Every block carries one coinbase that pays the full reward of its height. */
  ghost predicate Busy(sha: Hash, r: Run) {
    var s := After(r);
    && Possible(sha, r)
    && s.difficulty == 4 && BusyBlocks(sha, s.chain)
  }

  ghost predicate BusyBlocks(sha: Hash, chain: seq<BlockData>) {
    && chain != [] && chain[0].transactions == [GenesisTx(sha, 0)]
    && forall i :: 1 <= i < |chain| ==> chain[i].transactions == [FullCoinbase(i)]
  }

  lemma BusyStart(sha: Hash) returns (r: Run)
    requires Minable(sha)
    ensures Busy(sha, r) && |After(r).chain| == 1
  {
    var b := Genesis(sha);
    r := Run(b, 0, 0, []);
  }

  lemma BusyStep(sha: Hash, q: Run) returns (r: Run)
    requires Minable(sha) && Busy(sha, q)
    ensures Busy(sha, r) && |After(r).chain| == |After(q).chain| + 1
  {
    var s := After(q);
    var txs, clock := [FullCoinbase(|s.chain|)], s.lastAdjustment + 1_000_000;
    var b := NextBlock(sha, s, txs, clock);
    r := Grown(sha, q, b, clock);
    BusyChain(sha, s.chain, b);
  }

  /** The run that goes on with one block. */
  lemma Grown(sha: Hash, q: Run, b: BlockData, clock: int) returns (r: Run)
    requires Possible(sha, q) && IsSuccessor(sha, After(q), b, clock)
    ensures Possible(sha, r) && After(r) == AfterAdd(After(q), b, clock)
  {
    r := q.(events := q.events + [Add(b, clock)]);
    assert Before(r) == q;
  }

  lemma BusyChain(sha: Hash, chain: seq<BlockData>, b: BlockData)
    requires BusyBlocks(sha, chain) && b.transactions == [FullCoinbase(|chain|)]
    ensures BusyBlocks(sha, chain + [b])
  {
  }

  /** Busy runs of every length exist. */
  lemma {:induction false} BusyRun(sha: Hash, n: nat) returns (r: Run)
    requires Minable(sha) && n > 0
    ensures Busy(sha, r) && |After(r).chain| == n
  {
    if n == 1 {
      r := BusyStart(sha);
    } else {
      var q := BusyRun(sha, n - 1);
      r := BusyStep(sha, q);
    }
  }

  lemma BusyBlockIsFull(sha: Hash, chain: seq<BlockData>, i: nat)
    requires BusyBlocks(sha, chain) && i < |chain|
    ensures FullBlock(chain[i].transactions, i)
    ensures chain[i].transactions[0].txHash == if i == 0 then GenesisTx(sha, 0).txHash else "#" + Dec(i)
  {
    GenesisIsFull(sha);
    if i > 0 {
      RewardSchedule(i);
    }
  }

  /** No digest starts with the character that marks the hashes of the later coinbases. */
  lemma NoDigestIsMarked(d: Digest, i: nat)
    ensures d != "#" + Dec(i)
  {
    assert IsHexDigit(d[0]) && ("#" + Dec(i))[0] == '#';
  }

  lemma BusyHashesDiffer(sha: Hash, chain: seq<BlockData>, i: nat, j: nat)
    requires BusyBlocks(sha, chain) && i < j < |chain|
    ensures |chain[i].transactions| == 1 && |chain[j].transactions| == 1
    ensures chain[i].transactions[0].txHash != chain[j].transactions[0].txHash
  {
    BusyBlockIsFull(sha, chain, i);
    BusyBlockIsFull(sha, chain, j);
    if i > 0 {
      OwnHashes(i, j);
    } else {
      var tx := GenesisTx(sha, 0);
      NoDigestIsMarked(HashOf(sha, tx.(txHash := "")), j);
    }
  }

  lemma BusyIsFull(sha: Hash, chain: seq<BlockData>)
    requires BusyBlocks(sha, chain)
    ensures FullHistory(TxsOf(chain))
  {
    var h := TxsOf(chain);
    forall i | 0 <= i < |h| ensures FullBlock(h[i], i) {
      BusyBlockIsFull(sha, chain, i);
    }
    forall i, j | 0 <= i < j < |h| ensures h[i][0].txHash != h[j][0].txHash {
      BusyHashesDiffer(sha, chain, i, j);
    }
  }

  /** The supply over the runs of the chain object. */
  ghost predicate StaysCapped(sha: Hash, r: Run) {
    Possible(sha, r) && HonestRun(TxsOf(After(r).chain)) ==> Unspent(After(r).utxos) <= CAP
  }

  /**
   * Under every digest that lets blocks of the initial difficulty be mined, runs of every length issue all
   * there is: the bound is met after six eras and broken past the last block.
   */
  lemma EverythingIsIssued(sha: Hash, n: nat) returns (r: Run)
    requires Minable(sha) && n > 0
    ensures Possible(sha, r) && |After(r).chain| == n
    ensures HonestRun(TxsOf(After(r).chain)) && Unspent(After(r).utxos) == Minted(n)
  {
    r := BusyRun(sha, n);
    BusyIsFull(sha, After(r).chain);
    UtxosFollowChain(r);
    FullHistoryMints(TxsOf(After(r).chain));
  }

  /**
   * Honest runs that reach `n` blocks stay within 20,370,000 coins if and only if `n` is at most
   * 210,000 * 2^32, under each such digest. Up to there they do so under any digest.
   */
  lemma CapHoldsExactly(sha: Hash, n: nat)
    ensures n <= LAST_BLOCK ==> forall r :: |After(r).chain| == n ==> StaysCapped(sha, r)
    ensures Minable(sha) && n > 0 ==>
              ((forall r :: |After(r).chain| == n ==> StaysCapped(sha, r)) <==> n <= LAST_BLOCK)
  {
    IssuanceCap(n);
    if n <= LAST_BLOCK {
      forall r | |After(r).chain| == n ensures StaysCapped(sha, r) {
        if HonestRun(TxsOf(After(r).chain)) {
          UtxosFollowChain(r);
          UnspentAtMostMinted(TxsOf(After(r).chain));
        }
      }
    } else if Minable(sha) {
      var r := EverythingIsIssued(sha, n);
      assert !StaysCapped(sha, r);
    }
  }

  function Zeros(text: string): Digest {
    seq(64, i => '0')
  }

  /** There are such digests. */
  lemma SomeDigestIsMinable() returns (sha: Hash)
    ensures Minable(sha)
  {
    sha := Zeros;
    forall h: Header | h.difficulty == 4 ensures Winnable(sha, h) {
      assert Prefix(HeaderHash(sha, Attempt(h, 0)), 4) == Target(4);
      assert Wins(sha, h, 0);
    }
  }
}
