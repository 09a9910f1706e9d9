/** Whole runs of the chain: what holds in every state that `addBlock` and `getBlockByHash` can reach. */
module ChainRuns {
  import opened Text
  import opened Transactions
  import opened MapSums
  import opened Utxo
  import opened Database
  import opened Blocks
  import opened ChainModel
  import opened BlockWrites
  import Agreement
  import Blockchain
  import LruCache
  import LruTraces
  import Merkle
  import opened MerkleLayers
  import Supply

  datatype Event = Add(block: BlockData, clock: int) | Look(hash: string)

  /** A run: the genesis block with the clock readings that produced it, and the calls made since. */
  datatype Run = Run(genesis: BlockData, txTime: int, clock: int, events: seq<Event>)

  ghost function Before(r: Run): Run
    requires r.events != []
  {
    r.(events := r.events[..|r.events| - 1])
  }

  ghost function Last(r: Run): Event
    requires r.events != []
  {
    r.events[|r.events| - 1]
  }

  ghost function After(r: Run): ChainState
    decreases |r.events|
  {
    if r.events == [] then Initial(r.genesis, r.clock)
    else match Last(r)
         case Add(b, clock) => AfterAdd(After(Before(r)), b, clock)
         case Look(hash) => AfterLookup(After(Before(r)), hash)
  }

  /** Every added block was mined on the tip it found. */
  ghost predicate Possible(sha: Hash, r: Run)
    decreases |r.events|
  {
    if r.events == [] then IsGenesis(sha, r.genesis, r.txTime)
    else Possible(sha, Before(r)) && (Last(r).Add? ==> IsSuccessor(sha, After(Before(r)), Last(r).block, Last(r).clock))
  }

  ghost function TxsOf(chain: seq<BlockData>): (h: seq<seq<Transaction>>)
    ensures |h| == |chain| && forall i :: 0 <= i < |chain| ==> h[i] == chain[i].transactions
  {
    seq(|chain|, i requires 0 <= i < |chain| => chain[i].transactions)
  }

  // ---------------------------------------------------------------------------------------------
  // The supply.

  /** The output set is the effect of the transactions of the chain. */
  lemma {:induction false} UtxosFollowChain(r: Run)
    ensures After(r).utxos == Supply.AfterBlocks(TxsOf(After(r).chain))
    decreases |r.events|
  {
    if r.events == [] {
      OneMoreBlock([], r.genesis, map[]);
    } else {
      UtxosFollowChain(Before(r));
      match Last(r)
      case Add(b, clock) => OneMoreBlock(After(Before(r)).chain, b, After(Before(r)).utxos);
      case Look(hash) =>
    }
  }

  lemma OneMoreBlock(chain: seq<BlockData>, b: BlockData, u: Utxos)
    requires u == Supply.AfterBlocks(TxsOf(chain))
    ensures Supply.AfterBlocks(TxsOf(chain + [b])) == AfterTxs(u, b.transactions)
  {
    var h, g := TxsOf(chain), TxsOf(chain + [b]);
    assert g == h + [b.transactions];
    assert g[..|h|] == h;
  }

  /** No honest run ever holds more than 20,370,000 coins, spread over whatever addresses. */
  lemma SupplyIsCapped(r: Run, addresses: set<string>)
    requires Supply.HonestRun(TxsOf(After(r).chain)) && |After(r).chain| <= Supply.LAST_BLOCK
    requires forall k :: k in After(r).utxos ==> After(r).utxos[k].address in addresses
    ensures var u := After(r).utxos;
      && Total(Balances(u, addresses)) == Unspent(u) <= 20_370_000 * 100_000_000
      && forall a :: Wrap64(Balance(u, a)) == Balance(u, a)
  {
    UtxosFollowChain(r);
    Supply.SupplyNeverExceedsCap(TxsOf(After(r).chain), addresses);
  }

  // ---------------------------------------------------------------------------------------------
  // Memory and database.

  ghost predicate InStep(s: ChainState) {
    Agreement.Agrees(s.utxos, s.memdb)
  }

  lemma MetaIsNoUtxo(db: Store, name: string, v: string, u: Utxos)
    ensures Agreement.Agrees(u, WithMeta(db, name, v)) <==> Agreement.Agrees(u, db)
  {
    var e := WithMeta(db, name, v);
    forall k ensures Agreement.InDatabase(e, k) == Agreement.InDatabase(db, k) {
      assert MetaKey(name)[0] == 'm' && UtxoKey(k)[0] == 'u';
    }
  }

  lemma TipIsNoUtxo(db: Store, hash: string, height: nat, u: Utxos)
    ensures Agreement.Agrees(u, WithTip(db, hash, height)) <==> Agreement.Agrees(u, db)
  {
    MetaIsNoUtxo(db, "height", Dec(height), u);
    MetaIsNoUtxo(WithMeta(db, "height", Dec(height)), "bestHash", hash, u);
  }

  /** No output of the block is spent in the block after its creation. */
  ghost predicate NothingLost(b: BlockData) {
    forall k :: !Agreement.SpentAfterCreated(b.transactions, k)
  }

  lemma AdjustmentKeepsStep(s: ChainState, clock: int)
    requires InStep(s)
    ensures InStep(Adjusted(s, clock))
  {
    if |s.chain| % 2016 == 0 && |s.chain| > 0 {
      MetaIsNoUtxo(s.memdb, "difficulty", Dec(Adjusted(s, clock).difficulty), s.utxos);
    }
  }

  lemma AddKeepsStep(s: ChainState, b: BlockData, clock: int)
    requires InStep(s)
    ensures InStep(AfterAdd(s, b, clock)) <==> NothingLost(b)
  {
    AdjustmentKeepsStep(s, clock);
    AppendKeepsStep(Adjusted(s, clock), b);
  }

  lemma AppendKeepsStep(t: ChainState, b: BlockData)
    requires InStep(t)
    ensures InStep(Appended(t, b)) <==> NothingLost(b)
  {
    Agreement.BlockKeepsAgreement(t.utxos, t.memdb, b);
    TipIsNoUtxo(AfterBlockWrites(t.memdb, b), b.hash, |t.chain| + 1, AfterTxs(t.utxos, b.transactions));
  }

  lemma InitialInStep(b: BlockData, clock: int)
    requires |b.transactions| == 1
    ensures InStep(Initial(b, clock))
  {
    assert Agreement.Agrees(map[], map[]);
    assert NothingLost(b);
    Agreement.BlockKeepsAgreement(map[], map[], b);
    var u := AfterTxs(map[], b.transactions);
    TipIsNoUtxo(AfterBlockWrites(map[], b), b.hash, 1, u);
    MetaIsNoUtxo(Persisted(map[], b, 1), "difficulty", Dec(4), u);
  }

  /** Memory and database agree after the genesis block and after every later call. */
  ghost predicate AlwaysInStep(r: Run)
    decreases |r.events|
  {
    InStep(After(r)) && (r.events != [] ==> AlwaysInStep(Before(r)))
  }

  ghost predicate Harmless(e: Event) {
    e.Add? ==> NothingLost(e.block)
  }

  /** No block added in the run loses an output. */
  ghost predicate NothingLostIn(events: seq<Event>) {
    forall e :: e in events ==> Harmless(e)
  }

  lemma SplitLast(events: seq<Event>)
    requires events != []
    ensures var n := |events| - 1; forall e :: e in events <==> e in events[..n] || e == events[n]
  {
    assert events == events[..|events| - 1] + [events[|events| - 1]];
  }

  lemma EventKeepsStep(r: Run)
    requires r.events != [] && InStep(After(Before(r)))
    ensures InStep(After(r)) <==> Harmless(Last(r))
  {
    if Last(r).Add? {
      AddKeepsStep(After(Before(r)), Last(r).block, Last(r).clock);
    }
  }

  lemma AgreementStep(r: Run)
    requires r.events != [] && (AlwaysInStep(Before(r)) <==> NothingLostIn(Before(r).events))
    ensures AlwaysInStep(r) <==> NothingLostIn(r.events)
  {
    SplitLast(r.events);
    if AlwaysInStep(Before(r)) {
      EventKeepsStep(r);
    }
  }

  /**
   * Memory and database agree after every call of a run exactly when no block of the run spends an
   * output after creating it.
   */
  lemma {:induction false} AgreementOverRun(sha: Hash, r: Run)
    requires Possible(sha, r)
    ensures AlwaysInStep(r) <==> NothingLostIn(r.events)
    decreases |r.events|
  {
    if r.events == [] {
      InitialInStep(r.genesis, r.clock);
    } else {
      AgreementOverRun(sha, Before(r));
      AgreementStep(r);
    }
  }

  // ---------------------------------------------------------------------------------------------
  // The cached lookup.

  /** Every cached item is the database's record of the block it is named after. */
  ghost predicate CacheFaithful(s: ChainState) {
    && LruCache.Distinct(s.cached)
    && forall hash :: LruCache.Find(s.cached, CacheKey(hash)).Some? ==>
         Get(s.memdb, BlockKey(hash)) == Present(LruCache.Find(s.cached, CacheKey(hash)).value)
  }

  /** Block records after `addBlock`. */
  lemma AddRecordsBlock(s: ChainState, b: BlockData, clock: int, hash: string)
    ensures Get(AfterAdd(s, b, clock).memdb, BlockKey(hash)) ==
            if hash == b.hash then Present(Serialized(b)) else Get(s.memdb, BlockKey(hash))
  {
    var t := Adjusted(s, clock);
    assert BlockKey(hash)[0] == 'b';
    MetaElsewhere(s.memdb, "difficulty", Dec(t.difficulty), BlockKey(hash));
    RecordPersisted(t.memdb, b, |t.chain| + 1, hash);
  }

  /** What a put leaves in the cache: the new item, or what was there before, or nothing. */
  lemma PutLeaves(cap: nat, r: LruCache.Recency, k: string, v: string, x: string)
    requires LruCache.Distinct(r)
    ensures var f := LruCache.Find(LruCache.AfterPut(cap, r, k, v), x);
      f == None || f == if x == k then Some(v) else LruCache.Find(r, x)
  {
    var moved := [LruCache.Item(k, v)] + LruCache.Without(r, k);
    assert moved[1..] == LruCache.Without(r, k);
    LruTraces.WithoutFind(r, k, x);
    LruTraces.WithoutFind(r, k, k);
    if |moved| > cap {
      LruTraces.PrefixFind(moved, cap, x);
    }
  }

  lemma LookupLeaves(r: LruCache.Recency, k: string, x: string)
    requires LruCache.Distinct(r)
    ensures LruCache.Find(LruCache.AfterGet(r, k), x) == LruCache.Find(r, x)
  {
    if LruCache.Find(r, k).Some? {
      var v := LruCache.Find(r, k).value;
      var moved := [LruCache.Item(k, v)] + LruCache.Without(r, k);
      assert moved[1..] == LruCache.Without(r, k);
      LruTraces.WithoutFind(r, k, x);
    }
  }

  lemma AddKeepsCacheFaithful(s: ChainState, b: BlockData, clock: int)
    requires CacheFaithful(s)
    ensures CacheFaithful(AfterAdd(s, b, clock))
  {
    var t := AfterAdd(s, b, clock);
    LruTraces.StepDistinct(CACHE_CAPACITY, s.cached, LruTraces.Put(CacheKey(b.hash), Serialized(b)));
    forall hash | LruCache.Find(t.cached, CacheKey(hash)).Some?
      ensures Get(t.memdb, BlockKey(hash)) == Present(LruCache.Find(t.cached, CacheKey(hash)).value)
    {
      PutLeaves(CACHE_CAPACITY, s.cached, CacheKey(b.hash), Serialized(b), CacheKey(hash));
      AddRecordsBlock(s, b, clock, hash);
      KeysByHash(b.hash, hash);
    }
  }

  lemma {:induction false} CacheFaithfulOverRun(r: Run)
    ensures CacheFaithful(After(r))
    decreases |r.events|
  {
    if r.events != [] {
      var s := After(Before(r));
      CacheFaithfulOverRun(Before(r));
      match Last(r)
      case Add(b, clock) => AddKeepsCacheFaithful(s, b, clock);
      case Look(hash) =>
        LruTraces.StepDistinct(CACHE_CAPACITY, s.cached, LruTraces.Get(CacheKey(hash)));
        forall h ensures LruCache.Find(After(r).cached, CacheKey(h)) == LruCache.Find(s.cached, CacheKey(h)) {
          LookupLeaves(s.cached, CacheKey(hash), CacheKey(h));
        }
    }
  }

  /** In every reachable state the cached lookup answers exactly what the database would, for every hash. */
  lemma LookupIsTransparent(r: Run, hash: string)
    ensures LookupResult(After(r), hash) == Get(After(r).memdb, BlockKey(hash))
  {
    CacheFaithfulOverRun(r);
  }

  /** Every block ever added stays retrievable: the lookup finds the latest block with that hash. */
  lemma {:induction false} BlocksStayRetrievable(r: Run, i: nat)
    requires i < |After(r).chain|
    requires forall j :: i < j < |After(r).chain| ==> After(r).chain[j].hash != After(r).chain[i].hash
    ensures LookupResult(After(r), After(r).chain[i].hash) == Present(Serialized(After(r).chain[i]))
    decreases |r.events|
  {
    LookupIsTransparent(r, After(r).chain[i].hash);
    RecordsStay(r, i);
  }

  lemma {:induction false} RecordsStay(r: Run, i: nat)
    requires i < |After(r).chain|
    requires forall j :: i < j < |After(r).chain| ==> After(r).chain[j].hash != After(r).chain[i].hash
    ensures Get(After(r).memdb, BlockKey(After(r).chain[i].hash)) == Present(Serialized(After(r).chain[i]))
    decreases |r.events|
  {
    var hash := After(r).chain[i].hash;
    if r.events == [] {
      var b := r.genesis;
      RecordPersisted(map[], b, 1, hash);
      assert BlockKey(hash)[0] == 'b';
      MetaElsewhere(Persisted(map[], b, 1), "difficulty", Dec(4), BlockKey(hash));
    } else {
      var s := After(Before(r));
      match Last(r)
      case Add(b, clock) =>
        AddRecordsBlock(s, b, clock, hash);
        if i < |s.chain| {
          assert After(r).chain[|s.chain|] == b;
          assert forall j :: i <= j < |s.chain| ==> After(r).chain[j] == s.chain[j];
          RecordsStay(Before(r), i);
        }
      case Look(_) => RecordsStay(Before(r), i);
    }
  }

  // ---------------------------------------------------------------------------------------------
  // Linkage.

  /** The block is valid, of version 1, and carries the Merkle root of its transactions. */
  ghost predicate WellBuiltBlock(sha: Hash, b: BlockData) {
    && IsValidBlock(sha, b)
    && b.header.version == 1
    && b.header.merkleRoot == Merkle.Root(sha, TxHashes(b.transactions))
  }

  /** So is every block of the chain, and each one names its predecessor. */
  ghost predicate WellBuilt(sha: Hash, chain: seq<BlockData>) {
    && chain != []
    && WellBuiltBlock(sha, chain[|chain| - 1])
    && (|chain| > 1 ==>
          && WellBuilt(sha, chain[..|chain| - 1])
          && chain[|chain| - 1].header.previousHash == chain[|chain| - 2].hash)
  }

  lemma {:induction false} WellBuiltAt(sha: Hash, chain: seq<BlockData>, i: nat)
    requires WellBuilt(sha, chain) && i < |chain|
    ensures WellBuiltBlock(sha, chain[i]) && (i > 0 ==> chain[i].header.previousHash == chain[i - 1].hash)
  {
    if i < |chain| - 1 {
      WellBuiltAt(sha, chain[..|chain| - 1], i);
    }
  }

  lemma WellBuiltStep(sha: Hash, chain: seq<BlockData>, b: BlockData)
    requires WellBuilt(sha, chain) && WellBuiltBlock(sha, b)
    requires b.header.previousHash == chain[|chain| - 1].hash
    ensures WellBuilt(sha, chain + [b])
  {
    assert (chain + [b])[..|chain|] == chain;
  }

  /** `isValid` accepts such a chain. */
  lemma WellBuiltIsValid(sha: Hash, chain: seq<BlockData>)
    requires WellBuilt(sha, chain)
    ensures Blockchain.IsValidChain(sha, chain)
  {
    forall i | 1 <= i < |chain| ensures Blockchain.LinkedAt(sha, chain, i) {
      WellBuiltAt(sha, chain, i);
    }
  }

  lemma GenesisIsWellBuilt(sha: Hash, b: BlockData, txTime: int)
    requires IsGenesis(sha, b, txTime)
    ensures WellBuilt(sha, [b])
  {
    assert b.header.merkleRoot == Merkle.Root(sha, TxHashes(b.transactions));
  }

  lemma SuccessorIsWellBuilt(sha: Hash, s: ChainState, b: BlockData, clock: int)
    requires IsSuccessor(sha, s, b, clock)
    ensures WellBuiltBlock(sha, b) && b.header.previousHash == s.chain[|s.chain| - 1].hash
  {
    assert b.header.merkleRoot == Merkle.Root(sha, TxHashes(b.transactions));
  }

  lemma AddIsWellBuilt(sha: Hash, s: ChainState, b: BlockData, clock: int)
    requires WellBuilt(sha, s.chain) && IsSuccessor(sha, s, b, clock)
    ensures WellBuilt(sha, AfterAdd(s, b, clock).chain)
  {
    SuccessorIsWellBuilt(sha, s, b, clock);
    ChainGrows(s, b, clock);
    WellBuiltStep(sha, s.chain, b);
  }

  lemma ChainGrows(s: ChainState, b: BlockData, clock: int)
    ensures AfterAdd(s, b, clock).chain == s.chain + [b]
  {
  }

  /** Every run leaves a chain whose blocks are well built and linked. */
  lemma {:induction false} RunsAreWellBuilt(sha: Hash, r: Run)
    requires Possible(sha, r)
    ensures WellBuilt(sha, After(r).chain)
    decreases |r.events|
  {
    if r.events == [] {
      GenesisIsWellBuilt(sha, r.genesis, r.txTime);
    } else {
      RunsAreWellBuilt(sha, Before(r));
      match Last(r)
      case Add(b, clock) => AddIsWellBuilt(sha, After(Before(r)), b, clock);
      case Look(_) =>
    }
  }

  /** `isValid` accepts the chain of every run, and every block carries the Merkle root of its transactions. */
  lemma RunsAreValid(sha: Hash, r: Run)
    requires Possible(sha, r)
    ensures Blockchain.IsValidChain(sha, After(r).chain)
    ensures forall i :: 0 <= i < |After(r).chain| ==> WellBuiltBlock(sha, After(r).chain[i])
  {
    RunsAreWellBuilt(sha, r);
    WellBuiltIsValid(sha, After(r).chain);
    forall i | 0 <= i < |After(r).chain| ensures WellBuiltBlock(sha, After(r).chain[i]) {
      WellBuiltAt(sha, After(r).chain, i);
    }
  }

  /** Block hashes, previous hashes and Merkle roots are all 64 characters long, as digests are. */
  ghost predicate DigestSized(chain: seq<BlockData>) {
    forall i :: 0 <= i < |chain| ==> DigestSizedBlock(chain[i])
  }

  ghost predicate DigestSizedBlock(b: BlockData) {
    && |b.hash| == 64 && |b.header.previousHash| == 64 && |b.header.merkleRoot| == 64
    && b.header.version == 1
  }

  ghost predicate Committed(g: Header, h: Header) {
    g.previousHash == h.previousHash && g.merkleRoot == h.merkleRoot && (g == h <==> SameWidths(g, h))
  }

  /** What equal header digests fix. */
  lemma SameHashCommits(sha: Hash, g: Header, h: Header) returns (a: string, b: string)
    requires g.version == h.version && HeaderHash(sha, g) == HeaderHash(sha, h)
    requires |g.previousHash| == |h.previousHash| && |g.merkleRoot| == |h.merkleRoot|
    ensures Collision(sha, a, b) || Committed(g, h)
  {
    a, b := HeaderHashCommits(sha, g, h);
    if !Collision(sha, a, b) {
      a, b := HeaderHashDetermines(sha, g, h);
    }
  }

  /** The same, down from the `n`-th block of each chain. */
  lemma {:induction false} HashCommitsBelow(sha: Hash, c: seq<BlockData>, d: seq<BlockData>, n: nat)
    returns (a: string, b: string)
    requires n < |c| && n < |d| && c[n].hash == d[n].hash
    requires Blockchain.IsValidChain(sha, c) && Blockchain.IsValidChain(sha, d)
    requires DigestSized(c) && DigestSized(d)
    ensures Collision(sha, a, b) || forall i :: 1 <= i <= n ==> Committed(c[i].header, d[i].header)
  {
    a, b := "", "";
    if n > 0 {
      assert Blockchain.LinkedAt(sha, c, n) && Blockchain.LinkedAt(sha, d, n);
      a, b := SameHashCommits(sha, c[n].header, d[n].header);
      if !Collision(sha, a, b) {
        a, b := HashCommitsBelow(sha, c, d, n - 1);
      }
    }
  }

  /**
   * Two valid chains of one length with one tip hash agree on the previous hash and the Merkle root
   * of every block after genesis, and on the whole header exactly where times and difficulties are
   * written with as many characters, or exhibit a digest collision.
   */
  lemma TipHashCommits(sha: Hash, c: seq<BlockData>, d: seq<BlockData>) returns (a: string, b: string)
    requires |c| == |d| && c != [] && c[|c| - 1].hash == d[|d| - 1].hash
    requires Blockchain.IsValidChain(sha, c) && Blockchain.IsValidChain(sha, d)
    requires DigestSized(c) && DigestSized(d)
    ensures Collision(sha, a, b) || forall i :: 1 <= i < |c| ==> Committed(c[i].header, d[i].header)
  {
    a, b := HashCommitsBelow(sha, c, d, |c| - 1);
  }

  ghost predicate DigestTxs(chain: seq<BlockData>) {
    forall i :: 0 <= i < |chain| ==> Merkle.AllDigests(TxHashes(chain[i].transactions))
  }

  ghost predicate SameTip(c: seq<BlockData>, d: seq<BlockData>) {
    c != [] && |c| == |d| && c[|c| - 1].hash == d[|d| - 1].hash
  }

  /** The blocks hold transactions with one completed tree, and with equal hashes if there are as many of them. */
  ghost predicate SameTxs(sha: Hash, x: BlockData, y: BlockData) {
    && SameTree(sha, TxHashes(x.transactions), TxHashes(y.transactions))
    && (|x.transactions| == |y.transactions| ==> TxHashes(x.transactions) == TxHashes(y.transactions))
  }

  /** So do all blocks of the two chains after genesis. */
  ghost predicate SameHistory(sha: Hash, c: seq<BlockData>, d: seq<BlockData>) {
    |c| == |d| && forall i :: 1 <= i < |c| ==> SameTxs(sha, c[i], d[i])
  }

  /** One block of the two chains: equal Merkle roots mean equal trees, or a collision. */
  lemma SameRootSameTxs(sha: Hash, x: BlockData, y: BlockData) returns (a: string, b: string)
    requires WellBuiltBlock(sha, x) && WellBuiltBlock(sha, y) && x.header.merkleRoot == y.header.merkleRoot
    requires Merkle.AllDigests(TxHashes(x.transactions)) && Merkle.AllDigests(TxHashes(y.transactions))
    ensures Collision(sha, a, b) || SameTxs(sha, x, y)
  {
    var l, m := TxHashes(x.transactions), TxHashes(y.transactions);
    a, b := EqualRootsExactly(sha, l, m);
    if SameTree(sha, l, m) && |l| == |m| {
      SameTreeSameLength(sha, l, m);
    }
  }

  lemma HistoryCommitted(sha: Hash, c: seq<BlockData>, d: seq<BlockData>) returns (a: string, b: string)
    requires WellBuilt(sha, c) && WellBuilt(sha, d) && SameTip(c, d)
    requires DigestSized(c) && DigestSized(d) && DigestTxs(c) && DigestTxs(d)
    ensures Collision(sha, a, b) || SameHistory(sha, c, d)
  {
    WellBuiltIsValid(sha, c);
    WellBuiltIsValid(sha, d);
    a, b := TipHashCommits(sha, c, d);
    if !Collision(sha, a, b) {
      if i :| 1 <= i < |c| && !SameTxs(sha, c[i], d[i]) {
        assert Committed(c[i].header, d[i].header);
        WellBuiltAt(sha, c, i);
        WellBuiltAt(sha, d, i);
        a, b := SameRootSameTxs(sha, c[i], d[i]);
      }
    }
  }

  /**
   * The tip hash commits to the whole history: two chains of one length grown by `addBlock`, with one tip
   * hash, hold transactions with one completed tree in every block after genesis, and the same transaction
   * hashes where there are as many, or a digest collision is exhibited.
   */
  lemma TipHashCommitsToHistory(sha: Hash, q: Run, r: Run) returns (a: string, b: string)
    requires Possible(sha, q) && Possible(sha, r)
    requires DigestTxs(After(q).chain) && DigestTxs(After(r).chain)
    requires SameTip(After(q).chain, After(r).chain)
    ensures Collision(sha, a, b) || SameHistory(sha, After(q).chain, After(r).chain)
  {
    RunsAreWellBuilt(sha, q);
    RunsAreWellBuilt(sha, r);
    RunsAreDigestSized(sha, q);
    RunsAreDigestSized(sha, r);
    a, b := HistoryCommitted(sha, After(q).chain, After(r).chain);
  }

  /** Every transaction carries the hash of its own content, as the two transaction builders leave it. */
  ghost predicate WellHashed(sha: Hash, chain: seq<BlockData>) {
    forall i :: 0 <= i < |chain| ==> CarriesOwnHashes(sha, chain[i].transactions)
  }

  /** The transaction at position `p` once the odd tail of every layer of the tree has been repeated. */
  ghost function TxAt(txs: seq<Transaction>, p: nat): Transaction
    requires txs != []
  {
    txs[Source(|txs|, p)]
  }

  /**
   * The trees are equally high, and at every position of the completed trees stand the same transactions,
   * scripts aside, exactly where these are written with equal widths.
   */
  ghost predicate SameContents(x: seq<Transaction>, y: seq<Transaction>)
    requires x != [] && y != []
  {
    forall p :: 0 <= p < Merkle.Pow2(Merkle.Height(|x|)) ==>
      (SameContent(TxAt(x, p), TxAt(y, p)) <==> SameShape(TxAt(x, p), TxAt(y, p)))
  }

  ghost predicate EquallyHigh(x: seq<Transaction>, y: seq<Transaction>) {
    x != [] && y != [] && Merkle.Height(|x|) == Merkle.Height(|y|)
  }

  ghost predicate CarriesOwnHashes(sha: Hash, txs: seq<Transaction>) {
    forall j :: 0 <= j < |txs| ==> txs[j].txHash == HashOf(sha, txs[j])
  }

  lemma SameTxsSameContents(sha: Hash, x: BlockData, y: BlockData) returns (a: string, b: string)
    requires SameTxs(sha, x, y) && EquallyHigh(x.transactions, y.transactions)
    requires CarriesOwnHashes(sha, x.transactions) && CarriesOwnHashes(sha, y.transactions)
    ensures Collision(sha, a, b) || SameContents(x.transactions, y.transactions)
  {
    a, b := "", "";
    var l, m := TxHashes(x.transactions), TxHashes(y.transactions);
    assert Completed(l) == Completed(m);
    if p :| 0 <= p < Merkle.Pow2(Merkle.Height(|l|)) &&
            SameContent(TxAt(x.transactions, p), TxAt(y.transactions, p)) !=
            SameShape(TxAt(x.transactions, p), TxAt(y.transactions, p)) {
      CompletedAt(l, p, Source(|l|, p));
      CompletedAt(m, p, Source(|m|, p));
      a, b := TransactionHashCommits(sha, TxAt(x.transactions, p), TxAt(y.transactions, p));
    }
  }

  /** The contents agree in every block after genesis in which both chains have equally high trees. */
  ghost predicate SameContentsIn(c: seq<BlockData>, d: seq<BlockData>) {
    && |c| == |d|
    && forall i :: 1 <= i < |c| && EquallyHigh(c[i].transactions, d[i].transactions) ==>
         SameContents(c[i].transactions, d[i].transactions)
  }

  /**
   * When the transactions carry their own hashes, the tip hash commits to their contents: times, amounts,
   * addresses and spent outputs agree in every block after genesis with equally high trees exactly where
   * they are written with as many characters, or a digest collision is exhibited.
   */
  lemma TipHashCommitsToContents(sha: Hash, q: Run, r: Run) returns (a: string, b: string)
    requires Possible(sha, q) && Possible(sha, r)
    requires WellHashed(sha, After(q).chain) && WellHashed(sha, After(r).chain)
    requires SameTip(After(q).chain, After(r).chain)
    ensures Collision(sha, a, b) || SameContentsIn(After(q).chain, After(r).chain)
  {
    var c, d := After(q).chain, After(r).chain;
    WellHashedIsDigests(sha, c);
    WellHashedIsDigests(sha, d);
    a, b := TipHashCommitsToHistory(sha, q, r);
    if !Collision(sha, a, b) {
      a, b := ContentsCommitted(sha, c, d);
    }
  }

  lemma ContentsCommitted(sha: Hash, c: seq<BlockData>, d: seq<BlockData>) returns (a: string, b: string)
    requires WellHashed(sha, c) && WellHashed(sha, d) && SameHistory(sha, c, d)
    ensures Collision(sha, a, b) || SameContentsIn(c, d)
  {
    a, b := "", "";
    if i :| 1 <= i < |c| && EquallyHigh(c[i].transactions, d[i].transactions)
            && !SameContents(c[i].transactions, d[i].transactions) {
      a, b := SameTxsSameContents(sha, c[i], d[i]);
    }
  }

  lemma WellHashedIsDigests(sha: Hash, chain: seq<BlockData>)
    requires WellHashed(sha, chain)
    ensures DigestTxs(chain)
  {
  }

  lemma {:induction false} TopIsDigestSized(sha: Hash, layer: seq<string>)
    requires layer != [] && Merkle.AllDigests(layer)
    ensures |Merkle.Top(sha, layer)| == 64
    decreases |layer|
  {
    if |layer| > 1 {
      TopIsDigestSized(sha, Merkle.Above(sha, layer));
    }
  }

  lemma RunsAreDigestSized(sha: Hash, r: Run)
    requires Possible(sha, r) && DigestTxs(After(r).chain)
    ensures DigestSized(After(r).chain)
  {
    var c := After(r).chain;
    RunsAreWellBuilt(sha, r);
    GenesisStays(sha, r);
    forall i | 0 <= i < |c| ensures DigestSizedBlock(c[i]) {
      BlockIsDigestSized(sha, c, i);
    }
  }

  lemma BlockIsDigestSized(sha: Hash, c: seq<BlockData>, i: nat)
    requires WellBuilt(sha, c) && i < |c| && |c[0].header.previousHash| == 64
    requires Merkle.AllDigests(TxHashes(c[i].transactions))
    ensures DigestSizedBlock(c[i])
  {
    WellBuiltAt(sha, c, i);
    if i > 0 {
      WellBuiltAt(sha, c, i - 1);
    }
    if c[i].transactions != [] {
      TopIsDigestSized(sha, TxHashes(c[i].transactions));
    }
  }

  lemma {:induction false} GenesisStays(sha: Hash, r: Run)
    requires Possible(sha, r)
    ensures After(r).chain != [] && After(r).chain[0] == r.genesis && IsGenesis(sha, r.genesis, r.txTime)
    decreases |r.events|
  {
    if r.events != [] {
      GenesisStays(sha, Before(r));
    }
  }
}
