/** Stake-weighted voting on proposals. */
module Governance {
  import opened Text
  import opened Doubles

  const MIN_STAKE_VOTE: int := 100 * 100_000_000

  datatype Status = ACTIVE | PASSED | REJECTED | EXPIRED

  datatype Proposal = Proposal(id: string, title: string, description: string, proposer: string,
                               votesFor: u64, votesAgainst: u64, status: Status, expiresAt: int,
                               changeParam: string, changeValue: string)

  datatype GState = GState(proposals: map<string, Proposal>, voted: map<string, string>)

  datatype Call =
    | Submit(proposer: string, title: string, description: string, changeParam: string, changeValue: string,
             durationSeconds: int, now: int)
    | Vote(id: string, voter: string, stake: u64, inFavor: bool)
    | Tally(id: string)

  function ProposalId(sha: Hash, proposer: string, title: string, count: nat): (id: string)
    ensures |id| == 12
  {
    Prefix(sha(proposer + title + Dec(count)), 12)
  }

  /** At least 67% of the weight, as the code rounds it, and the weight must not be nothing. */
  predicate Passes(votesFor: nat, total: nat) {
    total != 0 && AtLeast67(votesFor, total)
  }

  // ---------------------------------------------------------------------------------------------
  // The calls as functions of the state, with the 64-bit sums of the code.

  ghost function NewProposal(sha: Hash, s: GState, c: Call): Proposal
    requires c.Submit?
  {
    Proposal(ProposalId(sha, c.proposer, c.title, |s.proposals|), c.title, c.description, c.proposer, 0, 0, ACTIVE,
             c.now + c.durationSeconds, c.changeParam, c.changeValue)
  }

  ghost function Tallied(p: Proposal): Proposal {
    if Passes(p.votesFor, Wrap64(p.votesFor + p.votesAgainst)) then p.(status := PASSED) else p
  }

  ghost predicate Accepts(s: GState, c: Call)
    requires c.Vote?
  {
    && c.id in s.proposals && s.proposals[c.id].status == ACTIVE
    && c.stake >= MIN_STAKE_VOTE
    && c.voter + c.id !in s.voted
  }

  ghost function Weighed(p: Proposal, stake: u64, inFavor: bool): Proposal {
    if inFavor then p.(votesFor := Wrap64(p.votesFor + stake))
    else p.(votesAgainst := Wrap64(p.votesAgainst + stake))
  }

  ghost function Apply(sha: Hash, s: GState, c: Call): GState {
    match c
    case Submit(_, _, _, _, _, _, _) =>
      var p := NewProposal(sha, s, c);
      s.(proposals := s.proposals[p.id := p])
    case Vote(id, voter, stake, inFavor) =>
      if Accepts(s, c) then
        GState(s.proposals[id := Tallied(Weighed(s.proposals[id], stake, inFavor))],
               s.voted[voter + id := if inFavor then "yes" else "no"])
      else s
    case Tally(id) =>
      if id in s.proposals then s.(proposals := s.proposals[id := Tallied(s.proposals[id])]) else s
  }

  ghost function ApplyAll(sha: Hash, calls: seq<Call>): GState {
    if calls == [] then GState(map[], map[]) else Apply(sha, ApplyAll(sha, calls[..|calls| - 1]), calls[|calls| - 1])
  }

  // ---------------------------------------------------------------------------------------------
  // The ballots a run has accepted, in order.

  datatype Ballot = Ballot(id: string, voter: string, stake: u64, inFavor: bool)

  ghost function NewBallots(s: GState, c: Call): seq<Ballot> {
    if c.Vote? && Accepts(s, c) then [Ballot(c.id, c.voter, c.stake, c.inFavor)] else []
  }

  ghost function Ballots(sha: Hash, calls: seq<Call>): seq<Ballot> {
    if calls == [] then []
    else
      var before := calls[..|calls| - 1];
      Ballots(sha, before) + NewBallots(ApplyAll(sha, before), calls[|calls| - 1])
  }

  /** The stake behind one side of a proposal. */
  ghost function Weight(ballots: seq<Ballot>, id: string, inFavor: bool): nat {
    if ballots == [] then 0
    else
      var n := |ballots| - 1;
      var last := ballots[n];
      Weight(ballots[..n], id, inFavor) + (if last.id == id && last.inFavor == inFavor then last.stake else 0)
  }

  /** New proposals bring new identifiers. */
  ghost predicate Regular(sha: Hash, calls: seq<Call>) {
    calls != [] ==>
      var before, c := calls[..|calls| - 1], calls[|calls| - 1];
      && Regular(sha, before)
      && (c.Submit? ==> NewProposal(sha, ApplyAll(sha, before), c).id !in ApplyAll(sha, before).proposals)
  }

  // ---------------------------------------------------------------------------------------------
  // What every regular run keeps.

  ghost predicate OneBallotEach(ballots: seq<Ballot>) {
    forall i, j :: 0 <= i < j < |ballots| ==> ballots[i].id != ballots[j].id || ballots[i].voter != ballots[j].voter
  }

  /** The proposal's totals are the ballots cast for it, in 64 bits, and its status is what these totals decide. */
  ghost predicate Decided(p: Proposal, id: string, ballots: seq<Ballot>) {
    var pro, con := Weight(ballots, id, true), Weight(ballots, id, false);
    && |id| == 12
    && p.votesFor == Wrap64(pro) && p.votesAgainst == Wrap64(con)
    && p.status == if Passes(Wrap64(pro), Wrap64(pro + con)) then PASSED else ACTIVE
  }

  /** The vote keys are those of the ballots. */
  ghost predicate VoteKeys(voted: map<string, string>, ballots: seq<Ballot>) {
    && (forall b :: b in ballots ==> b.voter + b.id in voted)
    && (forall k :: k in voted ==> exists b :: b in ballots && k == b.voter + b.id)
  }

  ghost predicate Consistent(s: GState, ballots: seq<Ballot>) {
    && (forall id :: id in s.proposals ==> Decided(s.proposals[id], id, ballots))
    && (forall b :: b in ballots ==> b.id in s.proposals && |b.id| == 12)
    && VoteKeys(s.voted, ballots)
    && OneBallotEach(ballots)
  }

  lemma {:induction false} NoBallotsNoWeight(ballots: seq<Ballot>, id: string, inFavor: bool)
    ensures (forall b :: b in ballots ==> b.id != id) ==> Weight(ballots, id, inFavor) == 0
    ensures Weight(ballots, id, inFavor) == 0 || exists b :: b in ballots && b.id == id
  {
    if ballots != [] {
      var before, last := ballots[..|ballots| - 1], ballots[|ballots| - 1];
      assert ballots == before + [last];
      NoBallotsNoWeight(before, id, inFavor);
    }
  }

  lemma WeightSnoc(ballots: seq<Ballot>, b: Ballot, id: string, inFavor: bool)
    ensures Weight(ballots + [b], id, inFavor) ==
            Weight(ballots, id, inFavor) + (if b.id == id && b.inFavor == inFavor then b.stake else 0)
  {
    assert (ballots + [b])[..|ballots|] == ballots;
  }

  lemma SubmitKeeps(sha: Hash, s: GState, c: Call, ballots: seq<Ballot>)
    requires Consistent(s, ballots) && c.Submit? && NewProposal(sha, s, c).id !in s.proposals
    ensures Consistent(Apply(sha, s, c), ballots)
  {
    var id := NewProposal(sha, s, c).id;
    NoBallotsNoWeight(ballots, id, true);
    NoBallotsNoWeight(ballots, id, false);
  }

  lemma TallyKeeps(sha: Hash, s: GState, c: Call, ballots: seq<Ballot>)
    requires Consistent(s, ballots) && c.Tally?
    ensures Apply(sha, s, c) == s
  {
    if c.id in s.proposals {
      TalliedStays(s.proposals[c.id], c.id, ballots);
    }
  }

  lemma WrapSum(a: int, b: int)
    ensures Wrap64(Wrap64(a) + Wrap64(b)) == Wrap64(a + b)
  {
    WrapAdd(a, Wrap64(b));
    WrapAdd(b, a);
  }

  /** Tallying again decides nothing new. */
  lemma TalliedStays(p: Proposal, id: string, ballots: seq<Ballot>)
    requires Decided(p, id, ballots)
    ensures Tallied(p) == p
  {
    WrapSum(Weight(ballots, id, true), Weight(ballots, id, false));
  }

  /** Since identifiers have one length, a vote key belongs to one voter and one proposal. */
  lemma FreshVoteKey(s: GState, c: Call, ballots: seq<Ballot>)
    requires Consistent(s, ballots) && c.Vote? && c.id in s.proposals
    ensures c.voter + c.id in s.voted <==> exists b :: b in ballots && b.id == c.id && b.voter == c.voter
  {
    assert |c.id| == 12 by {
      assert Decided(s.proposals[c.id], c.id, ballots);
    }
    if c.voter + c.id in s.voted {
      var b :| b in ballots && c.voter + c.id == b.voter + b.id;
      ConcatSplitsRight(c.voter, c.id, b.voter, b.id);
    }
  }

  lemma OneBallotMore(ballots: seq<Ballot>, b: Ballot)
    requires OneBallotEach(ballots) && !exists x :: x in ballots && x.id == b.id && x.voter == b.voter
    ensures OneBallotEach(ballots + [b])
  {
    var all := ballots + [b];
    forall i, j | 0 <= i < j < |all| ensures all[i].id != all[j].id || all[i].voter != all[j].voter {
      assert all[i] in ballots;
    }
  }

  lemma TalliedCounts(q: Proposal, pro: nat, con: nat)
    requires q.status == ACTIVE && q.votesFor == Wrap64(pro) && q.votesAgainst == Wrap64(con)
    ensures Tallied(q) == q.(status := if Passes(Wrap64(pro), Wrap64(pro + con)) then PASSED else ACTIVE)
  {
    WrapSum(pro, con);
  }

  /** One accepted ballot on an active proposal, in numbers. */
  lemma WeighedCounts(p: Proposal, stake: u64, inFavor: bool, pro: nat, con: nat)
    requires p.status == ACTIVE && p.votesFor == Wrap64(pro) && p.votesAgainst == Wrap64(con)
    ensures var q := Weighed(p, stake, inFavor);
      && q.status == ACTIVE
      && q.votesFor == Wrap64(pro + if inFavor then stake else 0)
      && q.votesAgainst == Wrap64(con + if inFavor then 0 else stake)
  {
    WrapAdd(pro, stake);
    WrapAdd(con, stake);
  }

  /** The proposal voted on stays decided by its ballots. */
  lemma WeighedIsDecided(p: Proposal, ballots: seq<Ballot>, b: Ballot)
    requires Decided(p, b.id, ballots) && p.status == ACTIVE
    ensures Decided(Tallied(Weighed(p, b.stake, b.inFavor)), b.id, ballots + [b])
  {
    WeightSnoc(ballots, b, b.id, true);
    WeightSnoc(ballots, b, b.id, false);
    var pro, con := Weight(ballots, b.id, true), Weight(ballots, b.id, false);
    WeighedCounts(p, b.stake, b.inFavor, pro, con);
    TalliedCounts(Weighed(p, b.stake, b.inFavor), pro + if b.inFavor then b.stake else 0,
                  con + if b.inFavor then 0 else b.stake);
  }

  /** The other proposals stay decided by theirs. */
  lemma OthersStayDecided(p: Proposal, id: string, ballots: seq<Ballot>, b: Ballot)
    requires Decided(p, id, ballots) && b.id != id
    ensures Decided(p, id, ballots + [b])
  {
    WeightSnoc(ballots, b, id, true);
    WeightSnoc(ballots, b, id, false);
  }

  lemma VoteKeepsTotals(sha: Hash, s: GState, c: Call, ballots: seq<Ballot>, b: Ballot)
    requires forall id :: id in s.proposals ==> Decided(s.proposals[id], id, ballots)
    requires c.Vote? && Accepts(s, c) && b == Ballot(c.id, c.voter, c.stake, c.inFavor)
    ensures forall id :: id in Apply(sha, s, c).proposals ==> Decided(Apply(sha, s, c).proposals[id], id, ballots + [b])
  {
    var t := Apply(sha, s, c);
    forall id | id in t.proposals ensures Decided(t.proposals[id], id, ballots + [b]) {
      if id == c.id {
        WeighedIsDecided(s.proposals[id], ballots, b);
      } else {
        OthersStayDecided(s.proposals[id], id, ballots, b);
      }
    }
  }

  lemma VoteKeepsKeys(voted: map<string, string>, ballots: seq<Ballot>, b: Ballot, v: string)
    requires VoteKeys(voted, ballots)
    ensures VoteKeys(voted[b.voter + b.id := v], ballots + [b])
  {
    var all, w := ballots + [b], voted[b.voter + b.id := v];
    assert forall x :: x in all <==> x in ballots || x == b;
    forall k | k in w ensures exists x :: x in all && k == x.voter + x.id {
      if k in voted {
        var x :| x in ballots && k == x.voter + x.id;
        assert x in all;
      } else {
        assert b in all;
      }
    }
  }

  lemma VoteKeepsKnown(proposals: map<string, Proposal>, ballots: seq<Ballot>, b: Ballot, p: Proposal)
    requires b.id in proposals && |b.id| == 12
    requires forall x :: x in ballots ==> x.id in proposals && |x.id| == 12
    ensures forall x :: x in ballots + [b] ==> x.id in proposals[b.id := p] && |x.id| == 12
  {
    assert forall x :: x in ballots + [b] <==> x in ballots || x == b;
  }

  lemma VoteKeeps(sha: Hash, s: GState, c: Call, ballots: seq<Ballot>, b: Ballot)
    requires Consistent(s, ballots) && c.Vote? && Accepts(s, c)
    requires b == Ballot(c.id, c.voter, c.stake, c.inFavor)
    ensures Consistent(Apply(sha, s, c), ballots + [b])
  {
    FreshVoteKey(s, c, ballots);
    OneBallotMore(ballots, b);
    assert |c.id| == 12 by {
      assert Decided(s.proposals[c.id], c.id, ballots);
    }
    VoteKeepsTotals(sha, s, c, ballots, b);
    VoteKeepsKeys(s.voted, ballots, b, if c.inFavor then "yes" else "no");
    VoteKeepsKnown(s.proposals, ballots, b, Tallied(Weighed(s.proposals[c.id], c.stake, c.inFavor)));
  }

  /** One call of any kind. */
  lemma CallKeeps(sha: Hash, s: GState, c: Call, ballots: seq<Ballot>)
    requires Consistent(s, ballots)
    requires c.Submit? ==> NewProposal(sha, s, c).id !in s.proposals
    ensures Consistent(Apply(sha, s, c), ballots + NewBallots(s, c))
  {
    if c.Vote? && Accepts(s, c) {
      VoteKeeps(sha, s, c, ballots, Ballot(c.id, c.voter, c.stake, c.inFavor));
    } else {
      assert ballots + NewBallots(s, c) == ballots;
      if c.Submit? {
        SubmitKeeps(sha, s, c, ballots);
      } else if c.Tally? {
        TallyKeeps(sha, s, c, ballots);
      }
    }
  }

  lemma {:induction false} RunsAreConsistent(sha: Hash, calls: seq<Call>)
    requires Regular(sha, calls)
    ensures Consistent(ApplyAll(sha, calls), Ballots(sha, calls))
  {
    if calls != [] {
      var before := calls[..|calls| - 1];
      RunsAreConsistent(sha, before);
      CallKeeps(sha, ApplyAll(sha, before), calls[|calls| - 1], Ballots(sha, before));
    }
  }

  lemma {:induction false} BallotsHaveWeight(sha: Hash, calls: seq<Call>)
    ensures forall b :: b in Ballots(sha, calls) ==> b.stake >= MIN_STAKE_VOTE
  {
    if calls != [] {
      BallotsHaveWeight(sha, calls[..|calls| - 1]);
    }
  }

  lemma {:induction false} BallotCounts(ballots: seq<Ballot>, b: Ballot)
    requires b in ballots
    ensures Weight(ballots, b.id, b.inFavor) >= b.stake
  {
    var before, last := ballots[..|ballots| - 1], ballots[|ballots| - 1];
    assert ballots == before + [last];
    if b != last {
      BallotCounts(before, b);
    }
  }

  /** The outcome in exact numbers: the rounding of the ratio matters only for large weights. */
  lemma OutcomeInNumbers(pro: nat, con: nat)
    requires 0 < pro + con < TWO53
    ensures Passes(pro, pro + con) <==> TWO53 * (67 * (pro + con) - 100 * pro) < 14 * (pro + con)
    ensures pro + con < 643_371_375_338_703 ==> (Passes(pro, pro + con) <==> 100 * pro >= 67 * (pro + con))
    ensures 100 * pro >= 67 * (pro + con) ==> Passes(pro, pro + con)
  {
    AtLeast67Exactly(pro, pro + con);
    if pro + con < 643_371_375_338_703 {
      ExactBelow(pro, pro + con);
    }
  }

  /**
   * The proposal's totals are the stakes of its ballots, one per voter, modulo 2^64: the stakes themselves if
   * and only if neither side reaches 2^64. It is active exactly while the rounded ratio of these totals is below
   * 0.67, and otherwise has passed. While the stakes add up to less than 2^64 that is the ratio of the stakes,
   * and up to 6.4 million coins the exact fraction.
   */
  ghost predicate Outcome(p: Proposal, id: string, ballots: seq<Ballot>) {
    var pro, con := Weight(ballots, id, true), Weight(ballots, id, false);
    var total := Wrap64(pro + con);
    var none := forall b :: b in ballots ==> b.id != id;
    && OneBallotEach(ballots)
    && p.votesFor == Wrap64(pro) && p.votesAgainst == Wrap64(con)
    && (p.votesFor == pro && p.votesAgainst == con <==> pro < U64 && con < U64)
    && (p.status == ACTIVE || p.status == PASSED)
    && (p.status == ACTIVE <==> total == 0 || !AtLeast67(p.votesFor, total))
    && (pro + con < U64 ==> (p.status == ACTIVE <==> none || !AtLeast67(pro, pro + con)))
    && (pro + con < 643_371_375_338_703 ==> (p.status == ACTIVE <==> none || 100 * pro < 67 * (pro + con)))
  }

  /** Stakes of 2^63 for and 2^63 plus 100 coins against: the totals wrap, and less than half of the weight passes. */
  lemma MinorityPasses(p: Proposal, id: string, ballots: seq<Ballot>)
    requires Decided(p, id, ballots)
    requires Weight(ballots, id, true) == 0x8000_0000_0000_0000
    requires Weight(ballots, id, false) == 0x8000_0000_0000_0000 + 100 * 100_000_000
    ensures p.status == PASSED && 2 * Weight(ballots, id, true) < Weight(ballots, id, true) + Weight(ballots, id, false)
  {
    NotHalved(0x8000_0000_0000_0000);
  }

  lemma OneMoreCall(sha: Hash, before: seq<Call>, c: Call)
    ensures ApplyAll(sha, before + [c]) == Apply(sha, ApplyAll(sha, before), c)
    ensures Ballots(sha, before + [c]) == Ballots(sha, before) + NewBallots(ApplyAll(sha, before), c)
    ensures Regular(sha, before + [c]) <==>
            && Regular(sha, before)
            && (c.Submit? ==> NewProposal(sha, ApplyAll(sha, before), c).id !in ApplyAll(sha, before).proposals)
  {
    assert (before + [c])[..|before|] == before;
  }

  /** The two ballots one after the other, on a proposal without votes. */
  lemma TwoBallots(sha: Hash, s: GState, id: string, b1: Ballot, b2: Ballot)
    requires id in s.proposals && s.proposals[id].status == ACTIVE
    requires s.proposals[id].votesFor == 0 && s.proposals[id].votesAgainst == 0 && s.voted == map[]
    requires b1 == Ballot(id, "a", 0x8000_0000_0000_0000 + 100 * 100_000_000, false)
    requires b2 == Ballot(id, "b", 0x8000_0000_0000_0000, true)
    ensures var v1, v2 := Vote(id, "a", b1.stake, false), Vote(id, "b", b2.stake, true);
            var t := Apply(sha, s, v1);
      NewBallots(s, v1) == [b1] && NewBallots(t, v2) == [b2]
  {
    var v1, v2 := Vote(id, "a", b1.stake, false), Vote(id, "b", b2.stake, true);
    var t := Apply(sha, s, v1);
    assert t.proposals[id] == Tallied(Weighed(s.proposals[id], b1.stake, false));
    assert !Passes(0, Wrap64(b1.stake));
    assert "b" + id != "a" + id by {
      assert ("b" + id)[0] == 'b' && ("a" + id)[0] == 'a';
    }
  }

  /** A run of three calls that ends this way. */
  lemma MinorityRun(sha: Hash, c: Call, id: string) returns (calls: seq<Call>)
    requires c.Submit? && id == NewProposal(sha, GState(map[], map[]), c).id
    ensures Regular(sha, calls) && HasPassed(sha, calls, id)
    ensures Weight(Ballots(sha, calls), id, true) == 0x8000_0000_0000_0000
    ensures Weight(Ballots(sha, calls), id, false) == 0x8000_0000_0000_0000 + 100 * 100_000_000
  {
    var b1 := Ballot(id, "a", 0x8000_0000_0000_0000 + 100 * 100_000_000, false);
    var b2 := Ballot(id, "b", 0x8000_0000_0000_0000, true);
    var c1 := [] + [c];
    OneMoreCall(sha, [], c);
    TwoBallots(sha, ApplyAll(sha, c1), id, b1, b2);
    var c2 := c1 + [Vote(id, "a", b1.stake, false)];
    OneMoreCall(sha, c1, Vote(id, "a", b1.stake, false));
    calls := c2 + [Vote(id, "b", b2.stake, true)];
    OneMoreCall(sha, c2, Vote(id, "b", b2.stake, true));
    TwoWeights(b1, b2);
    assert Ballots(sha, calls) == [b1, b2];
    RunsAreConsistent(sha, calls);
    assert Decided(ApplyAll(sha, calls).proposals[id], id, [b1, b2]);
    MinorityPasses(ApplyAll(sha, calls).proposals[id], id, [b1, b2]);
  }

  lemma TwoWeights(b: Ballot, c: Ballot)
    requires b.id == c.id && !b.inFavor && c.inFavor
    ensures Weight([b, c], b.id, true) == c.stake && Weight([b, c], b.id, false) == b.stake
  {
    assert [] + [b] == [b] && [b] + [c] == [b, c];
    WeightSnoc([], b, b.id, true);
    WeightSnoc([], b, b.id, false);
    WeightSnoc([b], c, b.id, true);
    WeightSnoc([b], c, b.id, false);
  }

  /** A proposal has weight exactly when it has ballots. */
  lemma BallotsWeigh(ballots: seq<Ballot>, id: string)
    requires forall b :: b in ballots ==> b.stake >= MIN_STAKE_VOTE
    ensures (forall b :: b in ballots ==> b.id != id) <==> Weight(ballots, id, true) + Weight(ballots, id, false) == 0
  {
    NoBallotsNoWeight(ballots, id, true);
    NoBallotsNoWeight(ballots, id, false);
    if b :| b in ballots && b.id == id {
      BallotCounts(ballots, b);
    }
  }

  lemma DecidedOutcome(p: Proposal, id: string, ballots: seq<Ballot>)
    requires Decided(p, id, ballots) && OneBallotEach(ballots)
    requires forall b :: b in ballots ==> b.stake >= MIN_STAKE_VOTE
    ensures Outcome(p, id, ballots)
  {
    var pro, con := Weight(ballots, id, true), Weight(ballots, id, false);
    BallotsWeigh(ballots, id);
    if 0 < pro + con < TWO53 {
      OutcomeInNumbers(pro, con);
    }
  }

  /** Every regular run leaves every proposal with the outcome of the ballots accepted for it. */
  lemma OutcomeIsTheBallots(sha: Hash, calls: seq<Call>, id: string)
    requires Regular(sha, calls) && id in ApplyAll(sha, calls).proposals
    ensures Outcome(ApplyAll(sha, calls).proposals[id], id, Ballots(sha, calls))
  {
    RunsAreConsistent(sha, calls);
    BallotsHaveWeight(sha, calls);
    DecidedOutcome(ApplyAll(sha, calls).proposals[id], id, Ballots(sha, calls));
  }

  /** A voter's second ballot on a proposal is refused, and so is any ballot on a passed one. */
  lemma AcceptedExactly(sha: Hash, calls: seq<Call>, c: Call)
    requires Regular(sha, calls) && c.Vote?
    ensures var s := ApplyAll(sha, calls);
      Accepts(s, c) <==>
        && c.id in s.proposals && s.proposals[c.id].status == ACTIVE
        && c.stake >= 100 * 100_000_000
        && !exists b :: b in Ballots(sha, calls) && b.id == c.id && b.voter == c.voter
  {
    RunsAreConsistent(sha, calls);
    if c.id in ApplyAll(sha, calls).proposals {
      FreshVoteKey(ApplyAll(sha, calls), c, Ballots(sha, calls));
    }
  }

  /** No submission from the `n`-th call on brings the identifier `id`. */
  ghost predicate NotReused(sha: Hash, calls: seq<Call>, n: nat, id: string) {
    forall m :: n <= m < |calls| && calls[m].Submit? ==> NewProposal(sha, ApplyAll(sha, calls[..m]), calls[m]).id != id
  }

  ghost predicate HasPassed(sha: Hash, calls: seq<Call>, id: string) {
    id in ApplyAll(sha, calls).proposals && ApplyAll(sha, calls).proposals[id].status == PASSED
  }

  /** A passed proposal whose identifier is not reused never changes again. */
  lemma {:induction false} PassedIsFinal(sha: Hash, calls: seq<Call>, n: nat, id: string)
    requires n <= |calls| && HasPassed(sha, calls[..n], id) && NotReused(sha, calls, n, id)
    ensures id in ApplyAll(sha, calls).proposals
    ensures ApplyAll(sha, calls).proposals[id] == ApplyAll(sha, calls[..n]).proposals[id]
  {
    if n == |calls| {
      assert calls[..n] == calls;
    } else {
      var before := calls[..|calls| - 1];
      assert before[..n] == calls[..n];
      forall m | n <= m < |before| ensures before[..m] == calls[..m] {
      }
      PassedIsFinal(sha, before, n, id);
    }
  }

  /** A submission that reuses an identifier starts its votes anew but leaves all vote keys in place. */
  lemma ReuseResets(sha: Hash, s: GState, c: Call, voter: string, stake: u64, inFavor: bool)
    requires c.Submit? && NewProposal(sha, s, c).id in s.proposals
    ensures var id := NewProposal(sha, s, c).id;
            var t := Apply(sha, s, c);
      && t.proposals[id].status == ACTIVE && t.proposals[id].votesFor == 0 && t.proposals[id].votesAgainst == 0
      && t.voted == s.voted
      && (voter + id in s.voted ==> !Accepts(t, Vote(id, voter, stake, inFavor)))
  {
  }

  lemma PrefixNotReused(sha: Hash, calls: seq<Call>, n: nat, m: nat, id: string)
    requires n <= m <= |calls| && NotReused(sha, calls, n, id)
    ensures NotReused(sha, calls[..m], n, id)
  {
    forall j | n <= j < m ensures calls[..m][..j] == calls[..j] && calls[..m][j] == calls[j] {
    }
  }

  lemma ReuseReopens(sha: Hash, calls: seq<Call>, m: nat, id: string)
    requires m < |calls| && calls[m].Submit? && NewProposal(sha, ApplyAll(sha, calls[..m]), calls[m]).id == id
    ensures !HasPassed(sha, calls[..m + 1], id)
  {
    assert calls[..m + 1][..m] == calls[..m];
  }

  /** A passed proposal stays passed through every later call if and only if no submission reuses its identifier. */
  lemma PassedStaysExactly(sha: Hash, calls: seq<Call>, n: nat, id: string)
    requires n <= |calls| && HasPassed(sha, calls[..n], id)
    ensures NotReused(sha, calls, n, id) <==> forall m :: n <= m <= |calls| ==> HasPassed(sha, calls[..m], id)
  {
    if NotReused(sha, calls, n, id) {
      forall m | n <= m <= |calls| ensures HasPassed(sha, calls[..m], id) {
        PrefixNotReused(sha, calls, n, m, id);
        assert calls[..m][..n] == calls[..n];
        PassedIsFinal(sha, calls[..m], n, id);
      }
    } else {
      var m :| n <= m < |calls| && calls[m].Submit? && NewProposal(sha, ApplyAll(sha, calls[..m]), calls[m]).id == id;
      ReuseReopens(sha, calls, m, id);
    }
  }

  /**
   * Proposer, title and number of proposals run together, so identifiers are reused for every digest
   * function: the eleventh proposal may bring the identifier of the first.
   */
  lemma IdentifierIsReused(sha: Hash, proposer: string, title: string)
    ensures ProposalId(sha, proposer, title + "1", 0) == ProposalId(sha, proposer, title, 10)
  {
    assert Dec(10) == Dec(1) + Dec(0);
    assert proposer + (title + "1") + Dec(0) == proposer + title + Dec(10);
  }

  /** Such an eleventh proposal undoes the first one although it has passed. */
  lemma PassedIsUndone(sha: Hash, calls: seq<Call>, id: string, title: string, c: Call)
    requires c.Submit? && c.title == title && |ApplyAll(sha, calls).proposals| == 10
    requires id == ProposalId(sha, c.proposer, title + "1", 0) && HasPassed(sha, calls, id)
    ensures !HasPassed(sha, calls + [c], id)
  {
    IdentifierIsReused(sha, c.proposer, title);
    assert (calls + [c])[..|calls|] == calls;
    assert (calls + [c])[..|calls| + 1] == calls + [c];
    ReuseReopens(sha, calls + [c], |calls|, id);
  }

  // ---------------------------------------------------------------------------------------------
  // A whole run in which this happens.

  /** A digest that tells texts apart by their last digit only. */
  function LastDigit(text: string): Digest {
    var d: char := if text != "" && IsDecDigit(text[|text| - 1]) then text[|text| - 1] else '0';
    seq(64, i => d)
  }

  /** Submissions by one proposer; the title of the first one ends in a digit. */
  ghost function Submission(i: nat): Call {
    Submit("", if i == 0 then "1" else "x", "", "", "", 0, 0)
  }

  ghost function Submissions(n: nat): (calls: seq<Call>)
    ensures |calls| == n
  {
    if n == 0 then [] else Submissions(n - 1) + [Submission(n - 1)]
  }

  ghost function TenthId(i: nat): string
    requires i < 10
  {
    seq(12, j => DecDigit(i))
  }

  lemma SubmissionId(s: GState, n: nat)
    requires |s.proposals| == n < 10
    ensures NewProposal(LastDigit, s, Submission(n)).id == TenthId(n)
  {
    var text := Submission(n).proposer + Submission(n).title + Dec(n);
    assert text[|text| - 1] == DecDigit(n);
  }

  lemma TenthIdsDiffer(i: nat, j: nat)
    requires i < j < 10
    ensures TenthId(i) != TenthId(j)
  {
    assert TenthId(i)[0] == DecDigit(i) && TenthId(j)[0] == DecDigit(j);
  }

  /** Up to ten submissions bring as many identifiers. */
  lemma {:induction false} TenProposals(n: nat)
    requires n <= 10
    ensures var s := ApplyAll(LastDigit, Submissions(n));
      && |s.proposals| == n && s.voted == map[]
      && (forall id :: id in s.proposals ==> exists i :: 0 <= i < n && id == TenthId(i))
      && (forall i :: 0 <= i < n ==> TenthId(i) in s.proposals && Unvoted(s.proposals[TenthId(i)]))
  {
    if n > 0 {
      var s := ApplyAll(LastDigit, Submissions(n - 1));
      TenProposals(n - 1);
      OneMoreCall(LastDigit, Submissions(n - 1), Submission(n - 1));
      SubmissionId(s, n - 1);
      forall i | 0 <= i < n - 1 ensures TenthId(i) != TenthId(n - 1) {
        TenthIdsDiffer(i, n - 1);
      }
      assert TenthId(n - 1) !in s.proposals;
    }
  }

  ghost predicate Unvoted(p: Proposal) {
    p.status == ACTIVE && p.votesFor == 0 && p.votesAgainst == 0
  }

  /** One vote with the least stake passes an unvoted proposal. */
  lemma OneVotePasses(sha: Hash, s: GState, id: string)
    requires id in s.proposals && Unvoted(s.proposals[id]) && s.voted == map[]
    ensures var t := Apply(sha, s, Vote(id, "v", MIN_STAKE_VOTE, true));
      id in t.proposals && t.proposals[id].status == PASSED && t.proposals.Keys == s.proposals.Keys
  {
    AllSuffices(MIN_STAKE_VOTE);
  }

  lemma FirstPasses(n: nat) returns (calls: seq<Call>)
    requires 0 < n <= 10
    ensures HasPassed(LastDigit, calls, TenthId(0)) && |ApplyAll(LastDigit, calls).proposals| == n
  {
    var vote := Vote(TenthId(0), "v", MIN_STAKE_VOTE, true);
    calls := Submissions(n) + [vote];
    TenProposals(n);
    OneMoreCall(LastDigit, Submissions(n), vote);
    OneVotePasses(LastDigit, ApplyAll(LastDigit, Submissions(n)), TenthId(0));
    SameSize(ApplyAll(LastDigit, Submissions(n)).proposals, ApplyAll(LastDigit, calls).proposals);
  }

  lemma FirstId()
    ensures ProposalId(LastDigit, "", "" + "1", 0) == TenthId(0)
  {
    SubmissionId(GState(map[], map[]), 0);
  }

  /** Ten submissions, a vote that passes the first one, and an eleventh submission that undoes it. */
  lemma PassedIsUndoneInARun() returns (calls: seq<Call>, id: string, c: Call)
    ensures HasPassed(LastDigit, calls, id) && c.Submit? && !HasPassed(LastDigit, calls + [c], id)
  {
    calls := FirstPasses(10);
    id := TenthId(0);
    c := Submit("", "", "", "", "", 0, 0);
    FirstId();
    PassedIsUndone(LastDigit, calls, id, "", c);
  }

  lemma SameSize(m: map<string, Proposal>, n: map<string, Proposal>)
    requires m.Keys == n.Keys
    ensures |m| == |n|
  {
    assert |m| == |m.Keys| && |n| == |n.Keys|;
  }

  // ---------------------------------------------------------------------------------------------
  // The object.

  class GovernanceSystem {
    const sha: Hash
    var proposals: map<string, Proposal>
    var voted: map<string, string>

    ghost function State(): GState
      reads this
    {
      GState(proposals, voted)
    }

    constructor (sha: Hash)
      ensures this.sha == sha && State() == ApplyAll(sha, [])
    {
      this.sha := sha;
      proposals, voted := map[], map[];
    }

    method SubmitProposal(proposer: string, title: string, description: string, changeParam: string,
                          changeValue: string, durationSeconds: int, now: int)
      returns (id: string)
      modifies this
      ensures var c := Submit(proposer, title, description, changeParam, changeValue, durationSeconds, now);
        && id == NewProposal(sha, old(State()), c).id
        && State() == Apply(sha, old(State()), c)
      ensures id == sha(proposer + title + Dec(|old(proposals)|))[..12]
      ensures voted == old(voted)
      ensures proposals == old(proposals)[id := Proposal(id, title, description, proposer, 0, 0, ACTIVE,
                                                         now + durationSeconds, changeParam, changeValue)]
    {
      id := ProposalId(sha, proposer, title, |proposals|);
      var p := Proposal(id, title, description, proposer, 0, 0, ACTIVE, now + durationSeconds,
                        changeParam, changeValue);
      proposals := proposals[id := p];
    }

    method CastVote(proposalId: string, voter: string, voterStake: u64, inFavor: bool) returns (ok: bool)
      modifies this
      ensures var c := Vote(proposalId, voter, voterStake, inFavor);
        && ok == Accepts(old(State()), c)
        && State() == Apply(sha, old(State()), c)
    {
      if proposalId !in proposals {
        return false;
      }
      if proposals[proposalId].status != ACTIVE {
        return false;
      }
      if voterStake < MIN_STAKE_VOTE {
        return false;
      }
      var voteKey := voter + proposalId;
      if voteKey in voted {
        return false;
      }
      voted := voted[voteKey := if inFavor then "yes" else "no"];
      var p := proposals[proposalId];
      if inFavor {
        p := p.(votesFor := Wrap64(p.votesFor + voterStake));
      } else {
        p := p.(votesAgainst := Wrap64(p.votesAgainst + voterStake));
      }
      assert p == Weighed(old(proposals)[proposalId], voterStake, inFavor);
      proposals := proposals[proposalId := p];
      TallyVotes(proposalId);
      assert proposals == old(proposals)[proposalId := Tallied(p)];
      ok := true;
    }

    method TallyVotes(proposalId: string)
      modifies this`proposals
      ensures proposals == if proposalId in old(proposals)
                           then old(proposals)[proposalId := Tallied(old(proposals)[proposalId])] else old(proposals)
      ensures State() == Apply(sha, old(State()), Tally(proposalId))
    {
      if proposalId !in proposals {
        return;
      }
      var p := proposals[proposalId];
      var total: int := Wrap64((p.votesFor as int) + p.votesAgainst);
      if total == 0 {
        assert proposals == proposals[proposalId := p];
        return;
      }
      if AtLeast67(p.votesFor, total) {
        p := p.(status := PASSED);
      }
      proposals := proposals[proposalId := p];
    }
  }
}
