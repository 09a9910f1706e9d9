/** Finality by a 67% head count of the active validators. */
module Hybrid {
  import opened Text
  import opened ProofOfStake
  import opened Arithmetic
  import opened Doubles
  import opened MapSums

  ghost function ActiveSet(vs: Validators): set<string> {
    set a | a in vs && vs[a].active
  }

  /** The votes the loop counts: every position of an active validator, repetitions included. */
  ghost function Votes(vs: Validators, voters: seq<string>): nat {
    if voters == [] then 0
    else Votes(vs, voters[..|voters| - 1]) + (if Active(vs, voters[|voters| - 1]) then 1 else 0)
  }

  /** The active validators among the voters. */
  ghost function Supporters(vs: Validators, voters: seq<string>): set<string> {
    set a | a in voters && Active(vs, a)
  }

  /** At least 67 in 100. */
  ghost predicate Quorum(votes: nat, active: nat) {
    100 * votes >= 67 * active
  }

  // ---------------------------------------------------------------------------------------------
  // Quorum intersection.

  lemma {:induction false} SupportersAtMostVotes(vs: Validators, voters: seq<string>)
    ensures |Supporters(vs, voters)| <= Votes(vs, voters)
    ensures NoDup(voters) ==> |Supporters(vs, voters)| == Votes(vs, voters)
  {
    if voters == [] {
      assert Supporters(vs, voters) == {};
    } else {
      var before, last := voters[..|voters| - 1], voters[|voters| - 1];
      assert voters == before + [last];
      SupportersAtMostVotes(vs, before);
      if Active(vs, last) {
        assert Supporters(vs, voters) == Supporters(vs, before) + {last};
      } else {
        assert Supporters(vs, voters) == Supporters(vs, before);
      }
    }
  }

  lemma {:induction false} UnionSize<T>(a: set<T>, b: set<T>)
    ensures |a + b| + |a * b| == |a| + |b|
  {
    assert a + b == a + (b - a) && b == (b - a) + (a * b);
  }

  lemma {:induction false} SubsetSize<T>(a: set<T>, b: set<T>)
    requires a <= b
    ensures |a| <= |b|
  {
    assert b == a + (b - a);
  }

  /**
   * Two accepted vote counts share supporters: 34% of the active validators, less the repetitions
   * in the two voter lists, stand behind both.
   */
  lemma QuorumsIntersect(vs: Validators, v: seq<string>, w: seq<string>)
    requires Quorum(Votes(vs, v), |ActiveSet(vs)|) && Quorum(Votes(vs, w), |ActiveSet(vs)|)
    ensures var both := Supporters(vs, v) * Supporters(vs, w);
            var repeated := Votes(vs, v) - |Supporters(vs, v)| + Votes(vs, w) - |Supporters(vs, w)|;
      && repeated >= 0
      && both <= ActiveSet(vs)
      && 100 * |both| >= 34 * |ActiveSet(vs)| - 100 * repeated
      && (NoDup(v) && NoDup(w) ==> 100 * |both| >= 34 * |ActiveSet(vs)|)
  {
    var a, b := Supporters(vs, v), Supporters(vs, w);
    SupportersAtMostVotes(vs, v);
    SupportersAtMostVotes(vs, w);
    UnionSize(a, b);
    SubsetSize(a + b, ActiveSet(vs));
  }

  /** No active validator is listed twice. */
  ghost predicate NoneRepeated(vs: Validators, voters: seq<string>) {
    forall i, j :: 0 <= i < j < |voters| && Active(vs, voters[i]) ==> voters[i] != voters[j]
  }

  lemma NoneRepeatedStep(vs: Validators, voters: seq<string>)
    requires voters != []
    ensures var before, last := voters[..|voters| - 1], voters[|voters| - 1];
      NoneRepeated(vs, voters) <==> NoneRepeated(vs, before) && last !in Supporters(vs, before)
  {
    var before, last := voters[..|voters| - 1], voters[|voters| - 1];
    if NoneRepeated(vs, voters) {
      forall a | a in Supporters(vs, before) ensures a != last {
        var i :| 0 <= i < |before| && before[i] == a;
        assert voters[i] == a;
      }
      forall i, j | 0 <= i < j < |before| && Active(vs, before[i]) ensures before[i] != before[j] {
        assert voters[i] == before[i] && voters[j] == before[j];
      }
    }
    if NoneRepeated(vs, before) && last !in Supporters(vs, before) {
      forall i, j | 0 <= i < j < |voters| && Active(vs, voters[i]) ensures voters[i] != voters[j] {
        assert before[i] == voters[i];
        assert before[i] in Supporters(vs, before);
        assert j < |before| ==> before[j] == voters[j];
      }
    }
  }

  lemma SupportersStep(vs: Validators, voters: seq<string>)
    requires voters != []
    ensures var before, last := voters[..|voters| - 1], voters[|voters| - 1];
      Supporters(vs, voters) == Supporters(vs, before) + (if Active(vs, last) then {last} else {})
  {
    var before, last := voters[..|voters| - 1], voters[|voters| - 1];
    assert voters == before + [last];
    forall a ensures a in voters <==> a in before || a == last {
    }
  }

  /** The loop counts distinct supporters if and only if no active validator is listed twice. */
  lemma {:induction false} VotesAreSupporters(vs: Validators, voters: seq<string>)
    ensures Votes(vs, voters) == |Supporters(vs, voters)| <==> NoneRepeated(vs, voters)
  {
    if voters != [] {
      var before, last := voters[..|voters| - 1], voters[|voters| - 1];
      VotesAreSupporters(vs, before);
      SupportersAtMostVotes(vs, before);
      NoneRepeatedStep(vs, voters);
      SupportersStep(vs, voters);
    }
  }

  ghost function Repeated(a: string, n: nat): (voters: seq<string>)
    ensures |voters| == n && forall i :: 0 <= i < n ==> voters[i] == a
  {
    seq(n, i => a)
  }

  lemma {:induction false} RepeatedVotes(vs: Validators, a: string, n: nat)
    requires Active(vs, a)
    ensures Votes(vs, Repeated(a, n)) == n
    ensures Supporters(vs, Repeated(a, n)) <= {a}
  {
    if n > 0 {
      assert Repeated(a, n)[..n - 1] == Repeated(a, n - 1);
      RepeatedVotes(vs, a, n - 1);
    }
  }

  /**
   * A single active validator, listed as often as there are active validators, finalizes any block.
   * Two of them can finalize two blocks without one common supporter.
   */
  lemma RepeatedVoterIsQuorum(vs: Validators, a: string, b: string)
    requires Active(vs, a) && Active(vs, b) && a != b
    ensures var n := |ActiveSet(vs)|;
      && Finalizes(vs, Repeated(a, n)) && Finalizes(vs, Repeated(b, n))
      && Quorum(Votes(vs, Repeated(a, n)), n) && Quorum(Votes(vs, Repeated(b, n)), n)
      && Supporters(vs, Repeated(a, n)) * Supporters(vs, Repeated(b, n)) == {}
  {
    var n := |ActiveSet(vs)|;
    RepeatedVotes(vs, a, n);
    RepeatedVotes(vs, b, n);
    assert a in ActiveSet(vs);
    AllSuffices(n);
  }

  // ---------------------------------------------------------------------------------------------
  // Heads against stakes.

  /** The stake of some validators. */
  ghost function StakeOf(vs: Validators, addresses: set<string>): nat {
    Total(StakeMap(vs, addresses))
  }

  /** At least 67 in 100 of the active stake stands behind the voters. */
  ghost predicate StakeQuorum(vs: Validators, voters: seq<string>) {
    100 * StakeOf(vs, Supporters(vs, voters)) >= 67 * StakeOf(vs, ActiveSet(vs))
  }

  lemma {:induction false} StakeOfEquals(vs: Validators, addresses: set<string>, stake: nat)
    requires forall a :: a in addresses ==> ActiveStake(vs, a) == stake
    ensures StakeOf(vs, addresses) == |addresses| * stake
    decreases |addresses|
  {
    if addresses == {} {
      TotalZero(StakeMap(vs, addresses));
    } else {
      var a :| a in addresses;
      StakeMapRemove(vs, addresses, a);
      StakeOfEquals(vs, addresses - {a}, stake);
      TimesPlusOne(|addresses| - 1, stake);
    }
  }

  lemma TimesPlusOne(n: nat, x: nat)
    ensures n * x + x == (n + 1) * x
  {
  }

  lemma QuorumScales(votes: nat, active: nat, stake: nat)
    requires stake > 0
    ensures Quorum(votes, active) <==> 100 * (votes * stake) >= 67 * (active * stake)
  {
    ProductOrder(stake, 67 * active, 100 * votes);
    assert stake * (67 * active) == 67 * (active * stake);
    assert stake * (100 * votes) == 100 * (votes * stake);
  }

  /** When all active stakes are equal and nobody is listed twice, a head quorum is a stake quorum. */
  lemma HeadsAreStakes(vs: Validators, voters: seq<string>, stake: nat)
    requires stake > 0 && forall a :: Active(vs, a) ==> vs[a].stake == stake
    requires NoneRepeated(vs, voters)
    ensures Quorum(Votes(vs, voters), |ActiveSet(vs)|) <==> StakeQuorum(vs, voters)
  {
    VotesAreSupporters(vs, voters);
    StakeOfEquals(vs, Supporters(vs, voters), stake);
    StakeOfEquals(vs, ActiveSet(vs), stake);
    QuorumScales(|Supporters(vs, voters)|, |ActiveSet(vs)|, stake);
  }

  /**
   * Everyone but `w` is a head quorum exactly when there are at least four active validators, and a
   * stake quorum exactly when `w` holds at most 33% of the stake. Any larger holder makes the two differ.
   */
  lemma AllButOne(vs: Validators, voters: seq<string>, w: string)
    requires Active(vs, w) && NoneRepeated(vs, voters) && Supporters(vs, voters) == ActiveSet(vs) - {w}
    ensures Quorum(Votes(vs, voters), |ActiveSet(vs)|) <==> |ActiveSet(vs)| >= 4
    ensures StakeQuorum(vs, voters) <==> 100 * vs[w].stake <= 33 * StakeOf(vs, ActiveSet(vs))
  {
    VotesAreSupporters(vs, voters);
    assert |ActiveSet(vs) - {w}| == |ActiveSet(vs)| - 1;
    StakeMapRemove(vs, ActiveSet(vs), w);
  }

  ghost predicate Staking(vs: Validators, address: string, stake: u64) {
    Active(vs, address) && vs[address].stake == stake
  }

  /** Three validators at the minimum stake and one that holds more than 99% of all stake. */
  ghost predicate OneLarge(vs: Validators, a: string, b: string, c: string, w: string) {
    && a != b && a != c && b != c && w !in {a, b, c}
    && ActiveSet(vs) == {a, b, c} + {w}
    && Staking(vs, a, 1_000 * 100_000_000) && Staking(vs, b, 1_000 * 100_000_000) && Staking(vs, c, 1_000 * 100_000_000)
    && Staking(vs, w, 1_000_000 * 100_000_000)
  }

  lemma OneLargeStakes(vs: Validators, a: string, b: string, c: string, w: string)
    requires OneLarge(vs, a, b, c, w)
    ensures |ActiveSet(vs)| == 4 && StakeOf(vs, ActiveSet(vs)) == 1_003_000 * 100_000_000
  {
    var small := {a, b, c};
    assert ActiveSet(vs) - {w} == small;
    assert |small| == 3;
    StakeMapRemove(vs, ActiveSet(vs), w);
    StakeOfEquals(vs, small, 1_000 * 100_000_000);
  }

  /** The three small validators finalize any block against the large one. */
  lemma HeadsOutvoteStake(vs: Validators, a: string, b: string, c: string, w: string)
    requires OneLarge(vs, a, b, c, w)
    ensures Finalizes(vs, [a, b, c]) && !StakeQuorum(vs, [a, b, c])
  {
    var voters := [a, b, c];
    OneLargeStakes(vs, a, b, c, w);
    assert Supporters(vs, voters) == {a, b, c};
    assert ActiveSet(vs) - {w} == {a, b, c};
    AllButOne(vs, voters, w);
    VotesAreSupporters(vs, voters);
    ExactBelow(3, 4);
  }

  // ---------------------------------------------------------------------------------------------
  // The protocol as a state machine.

  datatype HState = HState(validators: Validators, voteCount: map<string, int>, finalized: map<string, bool>)

  datatype Call = Finalize(blockHash: string, voters: seq<string>)
                | AddStake(address: string, stake: u64)
                | Remove(address: string)

  /** The test of the code, which divides as doubles. */
  ghost predicate Finalizes(vs: Validators, voters: seq<string>) {
    |ActiveSet(vs)| == 0 || AtLeast67(Votes(vs, voters), |ActiveSet(vs)|)
  }

  /** For all counts that fit an `int` the rounding of the ratio makes no difference. */
  lemma FinalizesExactly(vs: Validators, voters: seq<string>)
    requires Votes(vs, voters) < 0x8000_0000 && |ActiveSet(vs)| < 0x8000_0000
    ensures Finalizes(vs, voters) <==> Quorum(Votes(vs, voters), |ActiveSet(vs)|)
  {
    if |ActiveSet(vs)| > 0 {
      ExactBelow(Votes(vs, voters), |ActiveSet(vs)|);
    }
  }

  ghost predicate Confirmed(s: HState, blockHash: string) {
    blockHash in s.finalized && s.finalized[blockHash]
  }

  ghost function Apply(s: HState, c: Call): HState {
    match c
    case Finalize(h, voters) =>
      var t := if |ActiveSet(s.validators)| == 0 then s
               else s.(voteCount := s.voteCount[h := Votes(s.validators, voters)]);
      if Finalizes(s.validators, voters) then t.(finalized := t.finalized[h := true]) else t
    case AddStake(a, stake) =>
      if stake < MIN_STAKE then s else s.(validators := s.validators[a := Validator(a, stake, 0, true)])
    case Remove(a) =>
      if a in s.validators then s.(validators := s.validators[a := s.validators[a].(active := false)]) else s
  }

  ghost function ApplyAll(s: HState, calls: seq<Call>): HState {
    if calls == [] then s else Apply(ApplyAll(s, calls[..|calls| - 1]), calls[|calls| - 1])
  }

  /** The `i`-th call finalizes `blockHash`. */
  ghost predicate FinalizedAt(s: HState, calls: seq<Call>, i: int, blockHash: string) {
    && 0 <= i < |calls| && calls[i].Finalize? && calls[i].blockHash == blockHash
    && Finalizes(ApplyAll(s, calls[..i]).validators, calls[i].voters)
  }

  lemma ConfirmedStep(s: HState, c: Call, blockHash: string)
    ensures Confirmed(Apply(s, c), blockHash) <==>
            Confirmed(s, blockHash)
            || (c.Finalize? && c.blockHash == blockHash && Finalizes(s.validators, c.voters))
  {
  }

  lemma FinalizedSooner(s: HState, calls: seq<Call>, i: int, blockHash: string)
    requires calls != [] && i < |calls| - 1
    ensures FinalizedAt(s, calls, i, blockHash) <==> FinalizedAt(s, calls[..|calls| - 1], i, blockHash)
  {
    if i >= 0 {
      assert calls[..|calls| - 1][..i] == calls[..i];
    }
  }

  /**
   * Finality is permanent and never arises by itself: a block is confirmed after some calls exactly
   * when it was confirmed before them or one of them finalized it with the validators of its time.
   */
  lemma {:induction false} ConfirmedExactly(s: HState, calls: seq<Call>, blockHash: string)
    ensures Confirmed(ApplyAll(s, calls), blockHash) <==>
            Confirmed(s, blockHash) || exists i :: FinalizedAt(s, calls, i, blockHash)
  {
    if calls != [] {
      var n := |calls| - 1;
      var before := calls[..n];
      ConfirmedExactly(s, before, blockHash);
      ConfirmedStep(ApplyAll(s, before), calls[n], blockHash);
      assert FinalizedAt(s, calls, n, blockHash) <==>
             calls[n].Finalize? && calls[n].blockHash == blockHash
             && Finalizes(ApplyAll(s, before).validators, calls[n].voters);
      forall i | i < n ensures FinalizedAt(s, calls, i, blockHash) <==> FinalizedAt(s, before, i, blockHash) {
        FinalizedSooner(s, calls, i, blockHash);
      }
    }
  }

  /**
   * Two finalizations of one run, by lists without repetitions and with the same active validators, whose
   * number fits an `int`, have at least 34% of these behind both.
   */
  lemma FinalizationsIntersect(s: HState, calls: seq<Call>, i: nat, j: nat, g: string, h: string)
    requires FinalizedAt(s, calls, i, g) && FinalizedAt(s, calls, j, h)
    requires NoDup(calls[i].voters) && NoDup(calls[j].voters)
    requires ApplyAll(s, calls[..i]).validators == ApplyAll(s, calls[..j]).validators
    requires 0 < |ActiveSet(ApplyAll(s, calls[..i]).validators)| < 0x8000_0000
    ensures var vs := ApplyAll(s, calls[..i]).validators;
            var both := Supporters(vs, calls[i].voters) * Supporters(vs, calls[j].voters);
      both <= ActiveSet(vs) && 100 * |both| >= 34 * |ActiveSet(vs)|
  {
    var vs := ApplyAll(s, calls[..i]).validators;
    DistinctFinalizes(vs, calls[i].voters);
    DistinctFinalizes(vs, calls[j].voters);
    QuorumsIntersect(vs, calls[i].voters, calls[j].voters);
  }

  /** Without repetitions the counted votes fit whenever the number of active validators does. */
  lemma DistinctFinalizes(vs: Validators, voters: seq<string>)
    requires NoDup(voters) && 0 < |ActiveSet(vs)| < 0x8000_0000
    ensures Finalizes(vs, voters) <==> Quorum(Votes(vs, voters), |ActiveSet(vs)|)
  {
    SupportersAtMostVotes(vs, voters);
    SubsetSize(Supporters(vs, voters), ActiveSet(vs));
    FinalizesExactly(vs, voters);
  }

  // ---------------------------------------------------------------------------------------------
  // The object.

  class HybridConsensus {
    const pos: ProofOfStake
    var voteCount: map<string, int>
    var finalized: map<string, bool>

    ghost function State(): HState
      reads this, pos
    {
      HState(pos.validators, voteCount, finalized)
    }

    constructor (sha: Hash)
      ensures State() == HState(map[], map[], map[])
    {
      pos := new ProofOfStake(sha);
      voteCount, finalized := map[], map[];
    }

    /** Counts the active validators, in whatever order the hash map is visited. */
    method CountActiveValidators() returns (totalActive: nat)
      ensures totalActive == |ActiveSet(pos.validators)|
    {
      totalActive := 0;
      var rest := pos.validators.Keys;
      ghost var counted: set<string> := {};
      while rest != {}
        invariant rest <= pos.validators.Keys
        invariant counted == set a | a in pos.validators && a !in rest && pos.validators[a].active
        invariant totalActive == |counted|
        decreases rest
      {
        var a :| a in rest;
        rest := rest - {a};
        if pos.validators[a].active {
          assert a !in counted;
          counted := counted + {a};
          totalActive := totalActive + 1;
        }
      }
      assert counted == ActiveSet(pos.validators);
    }

    method FinalizeBlock(blockHash: string, voters: seq<string>) returns (ok: bool)
      modifies this
      ensures ok <==> Finalizes(old(pos.validators), voters)
      ensures State() == Apply(old(State()), Finalize(blockHash, voters))
    {
      var totalActive := CountActiveValidators();
      if totalActive == 0 {
        finalized := finalized[blockHash := true];
        return true;
      }
      var votes := 0;
      for i := 0 to |voters|
        invariant votes == Votes(pos.validators, voters[..i])
        invariant voteCount == old(voteCount) && finalized == old(finalized)
      {
        assert voters[..i + 1][..i] == voters[..i];
        var valid := pos.ValidateBlock(voters[i], blockHash);
        if valid {
          votes := votes + 1;
        }
      }
      assert voters[..|voters|] == voters;
      voteCount := voteCount[blockHash := votes];
      if AtLeast67(votes, totalActive) {
        finalized := finalized[blockHash := true];
        return true;
      }
      ok := false;
    }

    method AddValidator(address: string, stake: u64) returns (ok: bool)
      modifies pos
      ensures ok <==> stake >= MIN_STAKE
      ensures State() == Apply(old(State()), AddStake(address, stake))
    {
      ok := pos.AddValidator(address, stake);
    }

    method IsConfirmed(blockHash: string) returns (ok: bool)
      ensures ok <==> Confirmed(State(), blockHash)
    {
      ok := blockHash in finalized && finalized[blockHash];
    }
  }
}
