/** What a run of the chain leaves in its blocks and in its database, read entry by entry. */
module RunRecords {
  import opened Text
  import opened Transactions
  import opened Utxo
  import opened Database
  import opened Blocks
  import opened ChainModel
  import opened BlockWrites
  import opened ChainRuns
  import opened Records
  import Agreement
  import LruCache
  import LruTraces

  ghost function LastOf<T>(s: seq<T>): T
    requires s != []
  {
    s[|s| - 1]
  }

  /** The digests of a run start with as many zeros as their blocks ask for. */
  lemma BlocksAreMined(sha: Hash, r: Run)
    requires Possible(sha, r)
    ensures forall i :: 0 <= i < |After(r).chain| ==>
              StartsWithZeros(After(r).chain[i].hash, After(r).chain[i].header.difficulty)
  {
    RunsAreValid(sha, r);
    forall i | 0 <= i < |After(r).chain|
      ensures StartsWithZeros(After(r).chain[i].hash, After(r).chain[i].header.difficulty)
    {
      ValidExactly(sha, After(r).chain[i]);
    }
  }

  /** The block every fresh chain starts with: fifty coins for the fixed address, and no predecessor. */
  lemma GenesisFields(sha: Hash, b: BlockData, txTime: int)
    requires IsGenesis(sha, b, txTime)
    ensures b.index == 0 && |b.transactions| == 1 && b.transactions[0].isCoinbase
    ensures var outputs := b.transactions[0].outputs;
      |outputs| == 1 && outputs[0].amount == 5_000_000_000 && outputs[0].address == "RXCGenesisAddress_RexNetwork_2026"
    ensures b.header.difficulty == 4 && b.hash[..4] == "0000"
    ensures |b.header.previousHash| == 64 && forall j :: 0 <= j < 64 ==> b.header.previousHash[j] == '0'
  {
    MeetsExactly(b.hash, 4);
  }

  // ---------------------------------------------------------------------------------------------
  // Difficulty.

  /** The readings of the system clock, one for each block. */
  ghost function Clocks(r: Run): seq<int>
    decreases |r.events|
  {
    if r.events == [] then [r.clock]
    else match Last(r)
         case Add(_, clock) => Clocks(Before(r)) + [clock]
         case Look(_) => Clocks(Before(r))
  }

  /** The difficulty after a window of the given duration, in seconds. */
  ghost function Retargeted(d: nat, elapsed: int): nat {
    if elapsed < 1_209_600 / 4 then d + 1
    else if elapsed > 1_209_600 * 4 && d > 1 then d - 1
    else d
  }

  /**
   * The difficulty of block `i`: every 2016 blocks it follows the time since 2016 blocks ago, and in
   * between it is that of the block before.
   */
  ghost predicate Retargets(chain: seq<BlockData>, clocks: seq<int>, i: nat)
    requires 0 < i < |chain| && |clocks| == |chain|
  {
    var d := chain[i - 1].header.difficulty;
    chain[i].header.difficulty ==
    if i % 2016 == 0 then Retargeted(d, clocks[i] - clocks[i - 2016]) else d
  }

  /** The block at which the current window of block `i` started. */
  ghost function WindowOf(i: nat): nat {
    i - i % 2016
  }

  /** What the chain object remembers of the past of its difficulty. */
  ghost predicate Remembers(s: ChainState, clocks: seq<int>) {
    && s.chain != [] && |clocks| == |s.chain|
    && s.difficulty == LastOf(s.chain).header.difficulty
    && s.lastAdjustment == clocks[WindowOf(|s.chain| - 1)]
    && 1 <= s.difficulty <= 64
  }

  ghost predicate AllRetarget(chain: seq<BlockData>, clocks: seq<int>) {
    |clocks| == |chain| && forall i :: 0 < i < |chain| ==> Retargets(chain, clocks, i)
  }

  lemma WindowStep(n: nat)
    requires n > 0
    ensures n % 2016 == 0 ==> WindowOf(n) == n && WindowOf(n - 1) == n - 2016
    ensures n % 2016 != 0 ==> WindowOf(n) == WindowOf(n - 1)
  {
  }

  /** A digest has sixty-four characters, so no difficulty beyond sixty-four is ever met. */
  lemma MinedIsModest(sha: Hash, b: BlockData)
    requires IsValidBlock(sha, b)
    ensures b.header.difficulty <= 64
  {
    ValidExactly(sha, b);
  }

  ghost function NextDifficulty(s: ChainState, clocks: seq<int>, clock: int): nat
    requires Remembers(s, clocks)
  {
    var n := |s.chain|;
    if n % 2016 == 0 then Retargeted(s.difficulty, clock - clocks[n - 2016]) else s.difficulty
  }

  lemma AdjustedIsRetargeted(s: ChainState, clocks: seq<int>, clock: int)
    requires Remembers(s, clocks)
    ensures var t := Adjusted(s, clock);
      && t.difficulty == NextDifficulty(s, clocks, clock) >= 1
      && t.lastAdjustment == (clocks + [clock])[WindowOf(|s.chain|)]
  {
    WindowStep(|s.chain|);
  }

  /** What mining fixes of the difficulty of a block. */
  lemma SuccessorDifficulty(sha: Hash, s: ChainState, b: BlockData, clock: int)
    requires IsSuccessor(sha, s, b, clock)
    ensures b.header.difficulty == Adjusted(s, clock).difficulty <= 64
  {
    MinedIsModest(sha, b);
  }

  lemma AddRemembers(sha: Hash, s: ChainState, clocks: seq<int>, b: BlockData, clock: int)
    requires Remembers(s, clocks) && IsSuccessor(sha, s, b, clock)
    ensures Remembers(AfterAdd(s, b, clock), clocks + [clock])
    ensures Retargets(s.chain + [b], clocks + [clock], |s.chain|)
  {
    AdjustedIsRetargeted(s, clocks, clock);
    SuccessorDifficulty(sha, s, b, clock);
    RemembersStep(s, clocks, b, clock);
  }

  lemma RemembersStep(s: ChainState, clocks: seq<int>, b: BlockData, clock: int)
    requires Remembers(s, clocks)
    requires b.header.difficulty == Adjusted(s, clock).difficulty == NextDifficulty(s, clocks, clock)
    requires 1 <= b.header.difficulty <= 64
    requires Adjusted(s, clock).lastAdjustment == (clocks + [clock])[WindowOf(|s.chain|)]
    ensures Remembers(AfterAdd(s, b, clock), clocks + [clock])
    ensures Retargets(s.chain + [b], clocks + [clock], |s.chain|)
  {
    ChainGrows(s, b, clock);
    assert LastOf(s.chain + [b]) == b;
  }

  lemma MoreRetarget(chain: seq<BlockData>, clocks: seq<int>, b: BlockData, clock: int)
    requires chain != [] && AllRetarget(chain, clocks) && Retargets(chain + [b], clocks + [clock], |chain|)
    ensures AllRetarget(chain + [b], clocks + [clock])
  {
    forall i | 0 < i <= |chain| ensures Retargets(chain + [b], clocks + [clock], i) {
      if i < |chain| {
        assert Retargets(chain, clocks, i);
      }
    }
  }

  /**
   * In every run the difficulty of each block follows the clock readings at both ends of its window,
   * never wraps, and stays between 1 and 64.
   */
  lemma {:induction false} DifficultyOverRun(sha: Hash, r: Run)
    requires Possible(sha, r)
    ensures AllRetarget(After(r).chain, Clocks(r)) && Remembers(After(r), Clocks(r))
    decreases |r.events|
  {
    if r.events != [] {
      DifficultyOverRun(sha, Before(r));
      var s, clocks := After(Before(r)), Clocks(Before(r));
      match Last(r)
      case Add(b, clock) =>
        AddRemembers(sha, s, clocks, b, clock);
        MoreRetarget(s.chain, clocks, b, clock);
        ChainGrows(s, b, clock);
      case Look(_) =>
    }
  }

  // ---------------------------------------------------------------------------------------------
  // Metadata.

  /** Height, hash and difficulty of the tip are in the database. */
  ghost predicate TipRecorded(s: ChainState) {
    && s.chain != []
    && Get(s.memdb, "meta:height") == Present(Dec(|s.chain|))
    && Get(s.memdb, "meta:bestHash") == Present(LastOf(s.chain).hash)
    && Get(s.memdb, "meta:difficulty") == Present(Dec(s.difficulty))
  }

  lemma MetaNames()
    ensures MetaKey("height") == "meta:height" && MetaKey("bestHash") == "meta:bestHash"
    ensures MetaKey("difficulty") == "meta:difficulty"
  {
  }

  lemma PersistedTip(db: Store, b: BlockData, height: nat)
    ensures var e := Persisted(db, b, height);
      && Get(e, "meta:height") == Present(Dec(height)) && Get(e, "meta:bestHash") == Present(b.hash)
      && Get(e, "meta:difficulty") == Get(db, "meta:difficulty")
  {
    MetaNames();
    MetaPersisted(db, b, height, "height");
    MetaPersisted(db, b, height, "bestHash");
    MetaPersisted(db, b, height, "difficulty");
  }

  lemma AdjustedDifficultyRecorded(s: ChainState, clock: int)
    requires Get(s.memdb, "meta:difficulty") == Present(Dec(s.difficulty))
    ensures var t := Adjusted(s, clock); Get(t.memdb, "meta:difficulty") == Present(Dec(t.difficulty))
  {
    MetaNames();
  }

  lemma AddRecordsTip(s: ChainState, b: BlockData, clock: int)
    requires TipRecorded(s)
    ensures TipRecorded(AfterAdd(s, b, clock))
  {
    AdjustedDifficultyRecorded(s, clock);
    PersistedTip(Adjusted(s, clock).memdb, b, |s.chain| + 1);
    ChainGrows(s, b, clock);
  }

  lemma InitialTip(b: BlockData, clock: int)
    ensures TipRecorded(Initial(b, clock))
  {
    var e := Persisted(map[], b, 1);
    PersistedTip(map[], b, 1);
    MetaNames();
    MetaAt(e, "difficulty", Dec(4), "height");
    MetaAt(e, "difficulty", Dec(4), "bestHash");
  }

  /** So they are after every run. */
  lemma {:induction false} TipRecordedOverRun(r: Run)
    ensures TipRecorded(After(r))
    decreases |r.events|
  {
    if r.events == [] {
      InitialTip(r.genesis, r.clock);
    } else {
      TipRecordedOverRun(Before(r));
      match Last(r)
      case Add(b, clock) => AddRecordsTip(After(Before(r)), b, clock);
      case Look(_) =>
    }
  }

  // ---------------------------------------------------------------------------------------------
  // The block cache.

  /** What a call does to the cache: an added block is put, a looked-up block is read. */
  ghost function CacheOp(e: Event): LruTraces.Op {
    match e
    case Add(b, _) => LruTraces.Put("blk:" + b.hash, Serialized(b))
    case Look(hash) => LruTraces.Get("blk:" + hash)
  }

  ghost function CacheOps(events: seq<Event>): (ops: seq<LruTraces.Op>)
    ensures |ops| == |events|
  {
    if events == [] then [] else CacheOps(events[..|events| - 1]) + [CacheOp(events[|events| - 1])]
  }

  /** After every run the cache is what 512 places hold after these operations. */
  lemma {:induction false} CacheOverRun(r: Run)
    ensures After(r).cached == LruTraces.Run(512, CacheOps(r.events))
    decreases |r.events|
  {
    if r.events != [] {
      CacheOverRun(Before(r));
      var ops := CacheOps(r.events);
      assert ops[..|ops| - 1] == CacheOps(Before(r).events);
      assert CacheKey("") == "blk:";
    }
  }

  ghost predicate IsCached(s: ChainState, hash: string) {
    LruCache.Find(s.cached, "blk:" + hash).Some?
  }

  /** The blocks whose records have been put or hit, one after the other. */
  ghost function Touched(r: Run): seq<string> {
    LruTraces.Touches(512, CacheOps(r.events))
  }

  /** Fewer than 512 other keys have been touched since the last touch of `k`. */
  ghost predicate TouchedRecently(t: seq<string>, k: string) {
    exists i :: LruTraces.LastTouch(t, k, i) && |Elements(t[i + 1..])| < 512
  }

  lemma PresentIfRecent(ops: seq<LruTraces.Op>, k: string)
    ensures LruCache.Find(LruTraces.Run(512, ops), k).Some? <==> TouchedRecently(LruTraces.Touches(512, ops), k)
  {
    LruTraces.PresentExactly(512, ops, k);
  }

  /** A block is cached exactly while fewer than 512 other blocks have been added or hit since it last was. */
  lemma CachedExactly(r: Run, hash: string)
    ensures IsCached(After(r), hash) <==> TouchedRecently(Touched(r), "blk:" + hash)
  {
    CacheOverRun(r);
    PresentIfRecent(CacheOps(r.events), "blk:" + hash);
  }

  // ---------------------------------------------------------------------------------------------
  // The height index.

  /** The last of `n` blocks whose height is `h` in 32 bits. */
  ghost function LatestAt(n: nat, h: u32): (i: nat)
    requires h < n
    ensures i < n && Wrap32(i) == h && n - i <= U32
  {
    n - 1 - (n - 1 - h) % U32
  }

  ghost predicate HeightsIndexed(s: ChainState) {
    forall h: u32 :: Get(s.memdb, HeightKey(h)) ==
                     if h < |s.chain| then Present(s.chain[LatestAt(|s.chain|, h)].hash) else Absent
  }

  lemma LatestStep(n: nat, h: u32)
    ensures h < n + 1 ==> LatestAt(n + 1, h) == if h == Wrap32(n) then n else LatestAt(n, h)
    ensures h < n + 1 && h != Wrap32(n) ==> h < n
  {
  }

  lemma AddIndexes(s: ChainState, b: BlockData, clock: int)
    requires HeightsIndexed(s) && b.index == Wrap32(|s.chain|)
    ensures HeightsIndexed(AfterAdd(s, b, clock))
  {
    var n, t := |s.chain|, Adjusted(s, clock);
    ChainGrows(s, b, clock);
    forall h: u32 ensures Get(AfterAdd(s, b, clock).memdb, HeightKey(h)) ==
                          if h < n + 1 then Present((s.chain + [b])[LatestAt(n + 1, h)].hash) else Absent
    {
      assert HeightKey(h)[0] == 'h';
      MetaElsewhere(s.memdb, "difficulty", Dec(t.difficulty), HeightKey(h));
      HeightPersisted(t.memdb, b, n + 1, h);
      LatestStep(n, h);
    }
  }

  lemma InitialIndexed(b: BlockData, clock: int)
    requires b.index == 0
    ensures HeightsIndexed(Initial(b, clock))
  {
    forall h: u32 ensures Get(Initial(b, clock).memdb, HeightKey(h)) ==
                          if h < 1 then Present(b.hash) else Absent
    {
      assert HeightKey(h)[0] == 'h';
      HeightPersisted(map[], b, 1, h);
      MetaElsewhere(Persisted(map[], b, 1), "difficulty", Dec(4), HeightKey(h));
    }
  }

  /** After every run a height leads to the hash of the last block with that height in 32 bits, or to nothing. */
  lemma {:induction false} IndexOverRun(sha: Hash, r: Run)
    requires Possible(sha, r)
    ensures HeightsIndexed(After(r))
    decreases |r.events|
  {
    if r.events == [] {
      InitialIndexed(r.genesis, r.clock);
    } else {
      IndexOverRun(sha, Before(r));
      match Last(r)
      case Add(b, clock) => AddIndexes(After(Before(r)), b, clock);
      case Look(_) =>
    }
  }

  /** As long as the height fits 32 bits the entry is found under the plain decimal height. */
  lemma HeightLeadsToHash(sha: Hash, r: Run, i: nat)
    requires Possible(sha, r) && i < |After(r).chain| <= U32
    ensures Get(After(r).memdb, "h:" + Dec(i)) == Present(After(r).chain[i].hash)
  {
    var h: u32 := i;
    IndexOverRun(sha, r);
    assert LatestAt(|After(r).chain|, h) == i;
    assert HeightKey(h) == "h:" + Dec(i);
  }

  /** Nothing else is stored under 'h'. */
  lemma {:induction false} OnlyHeights(r: Run, key: string)
    requires key != "" && key[0] == 'h' && forall i: u32 :: key != HeightKey(i)
    ensures Get(After(r).memdb, key) == Absent
    decreases |r.events|
  {
    if r.events == [] {
      NotWritten(map[], r.genesis, 1, key);
      MetaElsewhere(Persisted(map[], r.genesis, 1), "difficulty", Dec(4), key);
    } else {
      OnlyHeights(Before(r), key);
      var s := After(Before(r));
      match Last(r)
      case Add(b, clock) =>
        MetaElsewhere(s.memdb, "difficulty", Dec(Adjusted(s, clock).difficulty), key);
        NotWritten(Adjusted(s, clock).memdb, b, |s.chain| + 1, key);
      case Look(_) =>
    }
  }

  lemma NotWritten(db: Store, b: BlockData, height: nat, key: string)
    requires key != "" && key[0] == 'h' && key != HeightKey(b.index)
    ensures Get(Persisted(db, b, height), key) == Get(db, key)
  {
    assert BlockKey(b.hash)[0] == 'b';
    BlockWritesAt(db, b, key);
    TipElsewhere(AfterBlockWrites(db, b), b.hash, height, key);
  }

  /** Ten digits are not padded. */
  lemma LongHeights(h: u32)
    ensures |Dec(h)| >= 10 <==> h >= 1_000_000_000
  {
    DecLength(h, 8);
    assert Pow10(9) == 1_000_000_000;
  }

  /** With fewer digits the key that is read is none that is written. */
  lemma PaddedIsNoHeight(h: u32, i: u32)
    requires h < 1_000_000_000
    ensures PaddedHeightKey(h) != HeightKey(i)
  {
    LongHeights(h);
    DecReads(i);
    var padded := Padded(Dec(h));
    assert padded[0] == '0' && |padded| == 10;
    assert padded != Dec(i);
    if PaddedHeightKey(h) == HeightKey(i) {
      ConcatSplits("h:", padded, "h:", Dec(i));
      assert false;
    }
  }

  /**
   * Blocks are written under the plain height and read under the height filled up to ten digits. So after
   * every run a height is found exactly if it has ten digits and is that of a block, and then rightly.
   */
  lemma HashAtHeightExactly(sha: Hash, r: Run, h: u32)
    requires Possible(sha, r)
    ensures Get(After(r).memdb, PaddedHeightKey(h)).Present? <==> 1_000_000_000 <= h < |After(r).chain|
    ensures 1_000_000_000 <= h < |After(r).chain| ==>
              Get(After(r).memdb, PaddedHeightKey(h)).value == After(r).chain[LatestAt(|After(r).chain|, h)].hash
  {
    if h < 1_000_000_000 {
      forall i: u32 ensures PaddedHeightKey(h) != HeightKey(i) {
        PaddedIsNoHeight(h, i);
      }
      OnlyHeights(r, PaddedHeightKey(h));
    } else {
      LongHeights(h);
      IndexOverRun(sha, r);
      assert PaddedHeightKey(h) == HeightKey(h);
    }
  }

  // ---------------------------------------------------------------------------------------------
  // Transaction records.

  /** The last of the transactions with the given hash. */
  ghost function LastWith(txs: seq<Transaction>, hash: string): Option<Transaction> {
    if txs == [] then None
    else if LastOf(txs).txHash == hash then Some(LastOf(txs))
    else LastWith(txs[..|txs| - 1], hash)
  }

  ghost function RecordOf(found: Option<Transaction>, otherwise: Lookup): Lookup {
    match found
    case None => otherwise
    case Some(tx) => Present(TxRecord(tx))
  }

  lemma {:induction false} OutputsNoTx(tx: Transaction, n: nat, hash: string)
    requires n <= |tx.outputs|
    ensures LastPut(OutputPuts(tx, n), TxKey(hash)) == Absent
  {
    if n > 0 {
      OutputsNoTx(tx, n - 1, hash);
      var key := KeyOf(tx.txHash, n - 1);
      Agreement.TxKeyIsNoUtxoKey(hash, key);
      Agreement.LastPutSnoc(OutputPuts(tx, n - 1), Put(UtxoKey(key), OutputData(tx.outputs[n - 1])), TxKey(hash));
    }
  }

  lemma TxPutAt(tx: Transaction, hash: string)
    ensures LastPut(TxPuts(tx), TxKey(hash)) == if tx.txHash == hash then Present(TxRecord(tx)) else Absent
  {
    var head := Put(TxKey(tx.txHash), TxRecord(tx));
    OutputsNoTx(tx, |tx.outputs|, hash);
    LastPutConcat([head], OutputPuts(tx, |tx.outputs|), TxKey(hash));
    Agreement.LastPutSnoc([], head, TxKey(hash));
    assert [] + [head] == [head];
    if TxKey(tx.txHash) == TxKey(hash) {
      ConcatSplits("t:", tx.txHash, "t:", hash);
    }
  }

  lemma {:induction false} TxsPutAt(txs: seq<Transaction>, hash: string)
    ensures LastPut(TxsPuts(txs), TxKey(hash)) == RecordOf(LastWith(txs, hash), Absent)
  {
    if txs != [] {
      TxsPutAt(txs[..|txs| - 1], hash);
      TxPutAt(LastOf(txs), hash);
      LastPutConcat(TxsPuts(txs[..|txs| - 1]), TxPuts(LastOf(txs)), TxKey(hash));
    }
  }

  lemma {:induction false} DelsNoTx(txs: seq<Transaction>, hash: string)
    ensures TxKey(hash) !in Dels(txs)
  {
    if txs != [] {
      DelsNoTx(txs[..|txs| - 1], hash);
      var dels := InputDels(LastOf(txs).inputs);
      forall i | 0 <= i < |dels| ensures dels[i] != TxKey(hash) {
        Agreement.TxKeyIsNoUtxoKey(hash, InputKey(LastOf(txs).inputs[i]));
      }
    }
  }

  lemma TxWritten(db: Store, b: BlockData, hash: string)
    ensures Get(AfterBlockWrites(db, b), TxKey(hash)) ==
            RecordOf(LastWith(b.transactions, hash), Get(db, TxKey(hash)))
  {
    var key, p, q := TxKey(hash), Put(BlockKey(b.hash), Serialized(b)), Put(HeightKey(b.index), b.hash);
    var mid := AfterBatch(db, DBBatch([], Dels(b.transactions)));
    BatchAt(db, DBBatch([], Dels(b.transactions)), key);
    BatchAt(mid, DBBatch(BlockPuts(b), []), key);
    DelsNoTx(b.transactions, hash);
    TxsPutAt(b.transactions, hash);
    LastPutConcat([p, q], TxsPuts(b.transactions), key);
    assert key[0] == 't' && p.key[0] == 'b' && q.key[0] == 'h';
    Agreement.LastPutSnoc([p], q, key);
    Agreement.LastPutSnoc([], p, key);
    assert [p] + [q] == [p, q] && [] + [p] == [p];
  }

  lemma TxPersisted(db: Store, b: BlockData, height: nat, hash: string)
    ensures Get(Persisted(db, b, height), TxKey(hash)) ==
            RecordOf(LastWith(b.transactions, hash), Get(db, TxKey(hash)))
  {
    TxWritten(db, b, hash);
    assert TxKey(hash)[0] == 't';
    TipElsewhere(AfterBlockWrites(db, b), b.hash, height, TxKey(hash));
  }

  /** The last transaction of the chain with the given hash. */
  ghost function LastInChain(chain: seq<BlockData>, hash: string): Option<Transaction> {
    if chain == [] then None
    else
      var here := LastWith(LastOf(chain).transactions, hash);
      if here.Some? then here else LastInChain(chain[..|chain| - 1], hash)
  }

  lemma LastInLonger(chain: seq<BlockData>, b: BlockData, hash: string)
    ensures LastInChain(chain + [b], hash) ==
            var here := LastWith(b.transactions, hash); if here.Some? then here else LastInChain(chain, hash)
  {
    assert (chain + [b])[..|chain|] == chain;
  }

  lemma AddRecordsTx(s: ChainState, b: BlockData, clock: int, hash: string)
    ensures Get(AfterAdd(s, b, clock).memdb, TxKey(hash)) ==
            RecordOf(LastWith(b.transactions, hash), Get(s.memdb, TxKey(hash)))
  {
    var t := Adjusted(s, clock);
    assert TxKey(hash)[0] == 't';
    MetaElsewhere(s.memdb, "difficulty", Dec(t.difficulty), TxKey(hash));
    TxPersisted(t.memdb, b, |t.chain| + 1, hash);
  }

  /** The database holds the record of the last transaction with a hash, and nothing for hashes without one. */
  lemma {:induction false} TransactionsOverRun(r: Run, hash: string)
    ensures Get(After(r).memdb, "t:" + hash) == RecordOf(LastInChain(After(r).chain, hash), Absent)
    decreases |r.events|
  {
    assert TxKey(hash) == "t:" + hash;
    if r.events == [] {
      var e := Persisted(map[], r.genesis, 1);
      assert TxKey(hash)[0] == 't';
      TxPersisted(map[], r.genesis, 1, hash);
      MetaElsewhere(e, "difficulty", Dec(4), TxKey(hash));
      LastInLonger([], r.genesis, hash);
      assert [] + [r.genesis] == [r.genesis];
    } else {
      var s := After(Before(r));
      TransactionsOverRun(Before(r), hash);
      match Last(r)
      case Add(b, clock) =>
        AddRecordsTx(s, b, clock, hash);
        LastInLonger(s.chain, b, hash);
        ChainGrows(s, b, clock);
      case Look(_) =>
    }
  }

  // ---------------------------------------------------------------------------------------------
  // Unspent outputs.

  /** What the database should say about an output. */
  ghost function Listed(u: Utxos, t: string, i: nat): Lookup {
    var k := KeyOf(t, i);
    if k in u && !u[k].spent then Present(u[k].address + "|" + Dec(u[k].amount) + "|0") else Absent
  }

  lemma OutputKeyText(t: string, i: nat)
    ensures UtxoKey(KeyOf(t, i)) == "u:" + t + ":" + Dec(i)
  {
    assert "u:" + (t + ":" + Dec(i)) == "u:" + t + ":" + Dec(i);
  }

  /** In runs that lose no output the database lists an output exactly while it is unspent. */
  lemma OutputsListedOverRun(sha: Hash, r: Run, t: string, i: nat)
    requires Possible(sha, r) && NothingLostIn(r.events)
    ensures Get(After(r).memdb, "u:" + t + ":" + Dec(i)) == Listed(After(r).utxos, t, i)
  {
    AgreementOverRun(sha, r);
    assert InStep(After(r));
    OutputKeyText(t, i);
    assert Agreement.InDatabase(After(r).memdb, KeyOf(t, i)) == Agreement.InMemory(After(r).utxos, KeyOf(t, i));
  }

  // ---------------------------------------------------------------------------------------------
  // Block records.

  /** A block carries the hash of its own header, which names the block before. */
  ghost predicate Links(sha: Hash, chain: seq<BlockData>, i: nat)
    requires i < |chain|
  {
    && chain[i].hash == HeaderHash(sha, chain[i].header)
    && chain[i].header.version == 1
    && (i > 0 ==> chain[i].header.previousHash == chain[i - 1].hash)
  }

  ghost predicate AllLink(sha: Hash, chain: seq<BlockData>) {
    forall i :: 0 <= i < |chain| ==> Links(sha, chain, i)
  }

  lemma RunLinks(sha: Hash, r: Run)
    requires Possible(sha, r)
    ensures AllLink(sha, After(r).chain)
  {
    var c := After(r).chain;
    RunsAreWellBuilt(sha, r);
    forall i | 0 <= i < |c| ensures Links(sha, c, i) {
      WellBuiltAt(sha, c, i);
    }
  }

  lemma DigestIsPlain(d: Digest)
    ensures Plain(d) && |d| == 64
  {
  }

  lemma HashIsPlain(sha: Hash, chain: seq<BlockData>, i: nat)
    requires i < |chain| && Links(sha, chain, i)
    ensures Plain(chain[i].hash) && |chain[i].hash| == 64
  {
    DigestIsPlain(HeaderHash(sha, chain[i].header));
  }

  /** The last block of its hash. */
  ghost predicate LastWithHash(chain: seq<BlockData>, i: nat)
    requires i < |chain|
  {
    forall j :: i < j < |chain| ==> chain[j].hash != chain[i].hash
  }

  ghost predicate HoldsFields(data: string, b: BlockData, previous: string) {
    |Fields(data)| >= 3 && Fields(data)[..3] == [Dec(b.index), b.hash, previous]
  }

  lemma FieldsLeadBack(sha: Hash, chain: seq<BlockData>, i: nat)
    requires AllLink(sha, chain) && 0 < i < |chain|
    ensures HoldsFields(Serialized(chain[i]), chain[i], chain[i - 1].hash)
  {
    assert Links(sha, chain, i) && Links(sha, chain, i - 1);
    HashIsPlain(sha, chain, i);
    HashIsPlain(sha, chain, i - 1);
    FirstFields(chain[i]);
  }

  /** The lookup of a block after genesis answers with its index, its hash and the hash of the block before. */
  lemma LookupReads(sha: Hash, r: Run, i: nat)
    requires Possible(sha, r) && 0 < i < |After(r).chain| && LastWithHash(After(r).chain, i)
    ensures var c := After(r).chain;
      var answer := LookupResult(After(r), c[i].hash);
      && answer == Present(Serialized(c[i]))
      && HoldsFields(answer.value, c[i], c[i - 1].hash)
  {
    var c := After(r).chain;
    BlocksStayRetrievable(r, i);
    RunLinks(sha, r);
    FieldsLeadBack(sha, c, i);
  }

  /** The records met from a hash on when field 2 of each leads to the next, oldest first; at most `n` of them. */
  ghost function History(db: Store, hash: string, n: nat): seq<string>
    decreases n
  {
    if n == 0 then []
    else match Get(db, BlockKey(hash))
         case Absent => []
         case Present(data) =>
           (if |Fields(data)| < 3 then [] else History(db, Fields(data)[2], n - 1)) + [data]
  }

  ghost function RecordsOf(chain: seq<BlockData>): (records: seq<string>)
    ensures |records| == |chain| && forall i :: 0 <= i < |chain| ==> records[i] == Serialized(chain[i])
  {
    seq(|chain|, i requires 0 <= i < |chain| => Serialized(chain[i]))
  }

  ghost function HashesOf(chain: seq<BlockData>): (hashes: seq<string>)
    ensures |hashes| == |chain| && forall i :: 0 <= i < |chain| ==> hashes[i] == chain[i].hash
  {
    seq(|chain|, i requires 0 <= i < |chain| => chain[i].hash)
  }

  ghost predicate DistinctHashes(chain: seq<BlockData>) {
    forall i :: 0 <= i < |chain| ==> LastWithHash(chain, i)
  }

  /** The database holds the `i`-th record under the `i`-th hash, and field 2 of the record is the hash before. */
  ghost predicate Leads(db: Store, hashes: seq<string>, records: seq<string>, i: nat)
    requires i < |hashes| == |records|
  {
    && Get(db, BlockKey(hashes[i])) == Present(records[i])
    && (i > 0 ==> |Fields(records[i])| >= 3 && Fields(records[i])[2] == hashes[i - 1])
  }

  lemma {:induction false} HistoryFrom(db: Store, hashes: seq<string>, records: seq<string>, n: nat)
    requires 0 < n <= |hashes| == |records|
    requires forall i :: 0 <= i < n ==> Leads(db, hashes, records, i)
    ensures History(db, hashes[n - 1], n) == records[..n]
  {
    assert Leads(db, hashes, records, n - 1);
    assert records[..n] == records[..n - 1] + [records[n - 1]];
    if n > 1 {
      HistoryFrom(db, hashes, records, n - 1);
    }
  }

  lemma RecordLeadsBack(sha: Hash, r: Run, i: nat)
    requires i < |After(r).chain| && DistinctHashes(After(r).chain) && AllLink(sha, After(r).chain)
    ensures Leads(After(r).memdb, HashesOf(After(r).chain), RecordsOf(After(r).chain), i)
  {
    var c := After(r).chain;
    assert LastWithHash(c, i);
    RecordsStay(r, i);
    if i > 0 {
      FieldsLeadBack(sha, c, i);
      var fields := Fields(Serialized(c[i]));
      assert fields[2] == fields[..3][2];
    }
  }

  ghost predicate AllLead(db: Store, hashes: seq<string>, records: seq<string>) {
    && |hashes| == |records|
    && forall i :: 0 <= i < |hashes| ==> Leads(db, hashes, records, i)
  }

  lemma RecordsLeadBack(sha: Hash, r: Run)
    requires DistinctHashes(After(r).chain) && AllLink(sha, After(r).chain)
    ensures AllLead(After(r).memdb, HashesOf(After(r).chain), RecordsOf(After(r).chain))
  {
    forall i | 0 <= i < |After(r).chain|
      ensures Leads(After(r).memdb, HashesOf(After(r).chain), RecordsOf(After(r).chain), i)
    {
      RecordLeadsBack(sha, r, i);
    }
  }

  lemma WholeHistory(db: Store, hashes: seq<string>, records: seq<string>)
    requires hashes != [] && AllLead(db, hashes, records)
    ensures History(db, LastOf(hashes), |hashes|) == records
  {
    HistoryFrom(db, hashes, records, |hashes|);
    assert records[..|hashes|] == records;
  }

  ghost predicate AllZeros(s: string) {
    |s| == 64 && forall j :: 0 <= j < 64 ==> s[j] == '0'
  }

  lemma HeaderStart(h: Header)
    requires h.version == 1 && |h.previousHash| == 64
    ensures HeaderText(h)[1..65] == h.previousHash
  {
    assert Dec(1) == "1";
  }

  /** Headers with one digest name one predecessor. */
  lemma SameHashSamePrevious(sha: Hash, g: Header, h: Header) returns (a: string, b: string)
    requires g.version == h.version == 1 && |g.previousHash| == |h.previousHash| == 64
    requires HeaderHash(sha, g) == HeaderHash(sha, h)
    ensures Collision(sha, a, b) || g.previousHash == h.previousHash
  {
    a, b := "", "";
    if HeaderText(g) == HeaderText(h) {
      HeaderStart(g);
      HeaderStart(h);
    } else {
      a, b := DoubleCollision(sha, HeaderText(g), HeaderText(h));
    }
  }

  ghost predicate SomeZeroHash(chain: seq<BlockData>) {
    exists i :: 0 <= i < |chain| && AllZeros(chain[i].hash)
  }

  /** A repeated hash leads back to the predecessor of the genesis block, or to a collision. */
  lemma {:induction false} RepeatedHash(sha: Hash, c: seq<BlockData>, i: nat, j: nat)
    returns (a: string, b: string)
    requires AllLink(sha, c) && i < j < |c| && c[i].hash == c[j].hash
    requires AllZeros(c[0].header.previousHash)
    ensures Collision(sha, a, b) || SomeZeroHash(c)
  {
    PreviousIsDigest(sha, c, i);
    PreviousIsDigest(sha, c, j);
    a, b := SameHashSamePrevious(sha, c[i].header, c[j].header);
    if !Collision(sha, a, b) {
      if i > 0 {
        a, b := RepeatedHash(sha, c, i - 1, j - 1);
      } else {
        assert AllZeros(c[j - 1].hash);
      }
    }
  }

  lemma PreviousIsDigest(sha: Hash, c: seq<BlockData>, i: nat)
    requires AllLink(sha, c) && i < |c| && AllZeros(c[0].header.previousHash)
    ensures |c[i].header.previousHash| == 64 && Links(sha, c, i)
  {
    assert Links(sha, c, i);
    if i > 0 {
      assert Links(sha, c, i - 1);
      HashIsPlain(sha, c, i - 1);
    }
  }

  lemma GenesisHasNoPredecessor(sha: Hash, r: Run)
    requires Possible(sha, r)
    ensures After(r).chain != [] && AllZeros(After(r).chain[0].header.previousHash)
  {
    GenesisStays(sha, r);
    GenesisFields(sha, r.genesis, r.txTime);
  }

  lemma HashesAreDistinct(sha: Hash, c: seq<BlockData>) returns (a: string, b: string)
    requires c != [] && AllLink(sha, c) && AllZeros(c[0].header.previousHash)
    ensures Collision(sha, a, b) || SomeZeroHash(c) || DistinctHashes(c)
  {
    a, b := "", "";
    if i :| 0 <= i < |c| && !LastWithHash(c, i) {
      var j :| i < j < |c| && c[j].hash == c[i].hash;
      a, b := RepeatedHash(sha, c, i, j);
    }
  }

  /**
   * The database alone holds the whole chain: from the recorded best hash, the previous hashes in the
   * block records lead through the records of all blocks of the run down to genesis, unless a digest
   * collision is exhibited or some block has the hash of sixty-four zeros.
   */
  lemma DatabaseHoldsChain(sha: Hash, r: Run) returns (a: string, b: string)
    requires Possible(sha, r)
    ensures var s := After(r);
      || Collision(sha, a, b) || SomeZeroHash(s.chain)
      || (&& Get(s.memdb, "meta:bestHash").Present?
          && History(s.memdb, Get(s.memdb, "meta:bestHash").value, |s.chain|) == RecordsOf(s.chain))
  {
    var c := After(r).chain;
    TipRecordedOverRun(r);
    RunLinks(sha, r);
    GenesisHasNoPredecessor(sha, r);
    a, b := HashesAreDistinct(sha, c);
    if DistinctHashes(c) {
      RecordsLeadBack(sha, r);
      WholeHistory(After(r).memdb, HashesOf(c), RecordsOf(c));
    }
  }
}
