/** Blocks: header hashing, mining and validity. */
module Blocks {
  import opened Text
  import opened Transactions
  import opened Merkle

  datatype Header = Header(version: u32, previousHash: string, merkleRoot: string,
                           timestamp: int, difficulty: u32, nonce: u64)

  /** A block as it is stored in the chain. */
  datatype BlockData = BlockData(index: u32, header: Header, transactions: seq<Transaction>, hash: string)

  /** The fields are streamed one after the other without separators. */
  function HeaderText(h: Header): string {
    Dec(h.version) + h.previousHash + h.merkleRoot + TailText(h)
  }

  function TailText(h: Header): string {
    DecInt(h.timestamp) + Dec(h.difficulty) + Dec(h.nonce)
  }

  function HeaderHash(sha: Hash, h: Header): Digest {
    sha(sha(HeaderText(h)))
  }

  function Target(difficulty: nat): string {
    seq(difficulty, i => '0')
  }

  /** The digest starts with `difficulty` zeros. */
  predicate Meets(hash: string, difficulty: nat) {
    Prefix(hash, difficulty) == Target(difficulty)
  }

  predicate IsValidBlock(sha: Hash, b: BlockData) {
    b.hash == HeaderHash(sha, b.header) && Meets(b.hash, b.header.difficulty)
  }

  ghost function TxHashes(txs: seq<Transaction>): (hashes: seq<string>)
    ensures |hashes| == |txs| && forall i :: 0 <= i < |txs| ==> hashes[i] == txs[i].txHash
  {
    seq(|txs|, i requires 0 <= i < |txs| => txs[i].txHash)
  }

  /** The header after `n` more attempts; the nonce counts modulo 2^64. */
  ghost function Attempt(h: Header, n: nat): Header {
    h.(nonce := Wrap64(h.nonce + n))
  }

  ghost predicate Wins(sha: Hash, h: Header, n: nat) {
    Meets(HeaderHash(sha, Attempt(h, n)), h.difficulty)
  }

  /** Some nonce wins. */
  ghost predicate Winnable(sha: Hash, h: Header) {
    exists n: nat :: Wins(sha, h, n)
  }

  lemma NextAttempt(h: Header, n: nat)
    ensures Attempt(h, 0) == h
    ensures Attempt(h, n).(nonce := Wrap64(Attempt(h, n).nonce + 1)) == Attempt(h, n + 1)
  {
  }

  /** `h` is `start` after `n` attempts, `hash` is its digest, and the `n` nonces before have lost. */
  ghost predicate Tried(sha: Hash, start: Header, n: nat, h: Header, hash: string) {
    && h == Attempt(start, n) && hash == HeaderHash(sha, h)
    && forall m: nat :: m < n ==> !Wins(sha, start, m)
  }

  lemma FirstTry(sha: Hash, start: Header)
    ensures Tried(sha, start, 0, start, HeaderHash(sha, start))
  {
    NextAttempt(start, 0);
  }

  lemma TryNext(sha: Hash, start: Header, n: nat, last: nat, h: Header, hash: string)
    requires Tried(sha, start, n, h, hash) && !Meets(hash, h.difficulty)
    requires n <= last && Wins(sha, start, last)
    ensures n < last
    ensures var next := h.(nonce := Wrap64(h.nonce + 1)); Tried(sha, start, n + 1, next, HeaderHash(sha, next))
  {
    NextAttempt(start, n);
  }

  class Block {
    const sha: Hash
    var index: u32
    var header: Header
    var transactions: seq<Transaction>
    var hash: string

    ghost function Data(): BlockData
      reads this
    {
      BlockData(index, header, transactions, hash)
    }

    constructor (sha: Hash, idx: u32, prevHash: string, txs: seq<Transaction>, difficulty: u32, now: int)
      ensures this.sha == sha
      ensures header == Header(1, prevHash, Root(sha, TxHashes(txs)), now, difficulty, 0)
      ensures Data() == BlockData(idx, header, txs, HeaderHash(sha, header))
    {
      this.sha := sha;
      index, transactions := idx, txs;
      header := Header(1, prevHash, "", now, difficulty, 0);
      hash := "";
      new;
      var txHashes: seq<string> := [];
      for i := 0 to |txs|
        invariant txHashes == TxHashes(txs)[..i]
        invariant Data() == BlockData(idx, Header(1, prevHash, "", now, difficulty, 0), txs, "")
      {
        txHashes := txHashes + [txs[i].txHash];
      }
      assert txHashes == TxHashes(txs);
      var root := BuildRoot(sha, txHashes);
      header := header.(merkleRoot := root);
      hash := CalculateHash();
    }

    function CalculateHash(): Digest
      reads this
    {
      HeaderHash(sha, header)
    }

    /**
     * Returns exactly when some nonce wins: then the block is valid, only its nonce and hash have
     * changed, and every nonce tried before was losing.
     */
    method Mine() returns (attempts: nat)
      requires hash == HeaderHash(sha, header)
      requires Winnable(sha, header)
      modifies this`header, this`hash
      ensures Tried(sha, old(header), attempts, header, hash)
      ensures IsValidBlock(sha, Data())
    {
      ghost var start := header;
      ghost var last: nat :| Wins(sha, start, last);
      attempts := 0;
      FirstTry(sha, start);
      while !Meets(hash, header.difficulty)
        invariant Tried(sha, start, attempts, header, hash)
        invariant attempts <= last
        decreases last - attempts
      {
        TryNext(sha, start, attempts, last, header, hash);
        attempts := attempts + 1;
        NextNonce();
      }
    }

    /** The body of the loop of `mine`. */
    method NextNonce()
      modifies this`header, this`hash
      ensures header == old(header).(nonce := Wrap64(old(header).nonce + 1))
      ensures hash == HeaderHash(sha, header)
    {
      header := header.(nonce := Wrap64(header.nonce + 1));
      hash := CalculateHash();
    }

    method IsValid() returns (ok: bool)
      ensures ok <==> IsValidBlock(sha, Data())
    {
      ok := hash == CalculateHash() && Meets(hash, header.difficulty);
    }
  }

  ghost predicate StartsWithZeros(hash: string, n: nat) {
    n <= |hash| && forall j :: 0 <= j < n ==> hash[j] == '0'
  }

  /** A hash meets a difficulty exactly if it starts with that many zeros. */
  lemma MeetsExactly(hash: string, difficulty: nat)
    ensures Meets(hash, difficulty) <==> StartsWithZeros(hash, difficulty)
  {
    if difficulty <= |hash| {
      assert Prefix(hash, difficulty) == hash[..difficulty];
      if hash[..difficulty] == Target(difficulty) {
        forall j | 0 <= j < difficulty ensures hash[j] == '0' {
          assert hash[..difficulty][j] == Target(difficulty)[j];
        }
      }
    }
  }

  lemma TailMoves(a: string, b: string, c: string, d: string)
    ensures a + (b + c + d) == a + b + c + d
  {
  }

  /**
   * A block is valid exactly if its hash is the double digest of version, previous hash, Merkle root, time,
   * difficulty and nonce, in this order, and starts with as many zeros as the difficulty asks for.
   */
  lemma ValidExactly(sha: Hash, b: BlockData)
    ensures IsValidBlock(sha, b) <==>
            var h := b.header;
            && b.hash == sha(sha(Dec(h.version) + h.previousHash + h.merkleRoot
                                 + DecInt(h.timestamp) + Dec(h.difficulty) + Dec(h.nonce)))
            && StartsWithZeros(b.hash, h.difficulty)
  {
    var h := b.header;
    MeetsExactly(b.hash, h.difficulty);
    TailMoves(Dec(h.version) + h.previousHash + h.merkleRoot, DecInt(h.timestamp), Dec(h.difficulty), Dec(h.nonce));
  }

  /**
   * Equal header digests mean equal previous hash, Merkle root and run of time, difficulty and nonce, and
   * nothing more, or a collision is exhibited.
   */
  lemma HeaderHashCommits(sha: Hash, g: Header, h: Header) returns (a: string, b: string)
    requires g.version == h.version
    requires |g.previousHash| == |h.previousHash| && |g.merkleRoot| == |h.merkleRoot|
    ensures Collision(sha, a, b) ||
            (HeaderHash(sha, g) == HeaderHash(sha, h) <==>
             g.previousHash == h.previousHash && g.merkleRoot == h.merkleRoot && TailText(g) == TailText(h))
  {
    var x, y := HeaderText(g), HeaderText(h);
    a, b := "", "";
    if x == y {
      SameParts(Dec(g.version), g.previousHash, g.merkleRoot, TailText(g), h.previousHash, h.merkleRoot, TailText(h));
    } else if sha(sha(x)) == sha(sha(y)) {
      a, b := DoubleCollision(sha, x, y);
    }
  }

  /** Time and difficulty are written with as many characters. */
  ghost predicate SameWidths(g: Header, h: Header) {
    |DecInt(g.timestamp)| == |DecInt(h.timestamp)| && |Dec(g.difficulty)| == |Dec(h.difficulty)|
  }

  lemma SameTail(g: Header, h: Header)
    requires SameWidths(g, h) && TailText(g) == TailText(h)
    ensures g.timestamp == h.timestamp && g.difficulty == h.difficulty && g.nonce == h.nonce
  {
    ConcatSplits(DecInt(g.timestamp) + Dec(g.difficulty), Dec(g.nonce),
                 DecInt(h.timestamp) + Dec(h.difficulty), Dec(h.nonce));
    ConcatSplits(DecInt(g.timestamp), Dec(g.difficulty), DecInt(h.timestamp), Dec(h.difficulty));
    DecIntInjective(g.timestamp, h.timestamp);
    DecInjective(g.difficulty, h.difficulty);
    DecInjective(g.nonce, h.nonce);
  }

  /**
   * The digest determines the whole header exactly when time and difficulty are written with as many
   * characters, or a collision is exhibited.
   */
  lemma HeaderHashDetermines(sha: Hash, g: Header, h: Header) returns (a: string, b: string)
    requires g.version == h.version
    requires |g.previousHash| == |h.previousHash| && |g.merkleRoot| == |h.merkleRoot|
    ensures Collision(sha, a, b) || (g == h <==> HeaderHash(sha, g) == HeaderHash(sha, h) && SameWidths(g, h))
  {
    a, b := HeaderHashCommits(sha, g, h);
    if TailText(g) == TailText(h) && SameWidths(g, h) {
      SameTail(g, h);
    }
  }

  lemma SameParts(v: string, p: string, m: string, t: string, q: string, n: string, u: string)
    requires |p| == |q| && |m| == |n| && v + p + m + t == v + q + n + u
    ensures p == q && m == n && t == u
  {
    ConcatSplits(v + p + m, t, v + q + n, u);
    ConcatSplits(v + p, m, v + q, n);
    ConcatSplits(v, p, v, q);
  }

  /** Time, difficulty and nonce run together: different headers can have one digest, for every digest function. */
  lemma HeaderTextIsAmbiguous(sha: Hash, previousHash: string, merkleRoot: string)
    ensures var g := Header(1, previousHash, merkleRoot, 1, 2, 34);
            var h := Header(1, previousHash, merkleRoot, 12, 3, 4);
      g != h && HeaderHash(sha, g) == HeaderHash(sha, h)
  {
    var g := Header(1, previousHash, merkleRoot, 1, 2, 34);
    var h := Header(1, previousHash, merkleRoot, 12, 3, 4);
    assert TailText(g) == "1234" by {
      assert Dec(34) == Dec(3) + [DecDigit(4)];
    }
    assert TailText(h) == "1234" by {
      assert Dec(12) == Dec(1) + [DecDigit(2)];
    }
  }
}
