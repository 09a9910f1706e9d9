/** When a quorum of heads is a quorum of stakes, for every list of voters. */
module HeadsAndStakes {
  import opened Text
  import opened ProofOfStake
  import opened Hybrid

  /** The active validators by growing stake. */
  ghost predicate Ascending(vs: Validators, asc: seq<string>) {
    && NoDup(asc) && Elements(asc) == ActiveSet(vs)
    && GrowingStakes(vs, asc)
  }

  ghost predicate GrowingStakes(vs: Validators, asc: seq<string>) {
    forall i, j :: 0 <= i < j < |asc| ==> ActiveStake(vs, asc[i]) <= ActiveStake(vs, asc[j])
  }

  /** Stakes of at most, or at least, `t` each. */
  lemma {:induction false} StakesBounded(vs: Validators, some: set<string>, t: nat)
    ensures (forall a :: a in some ==> ActiveStake(vs, a) <= t) ==> StakeOf(vs, some) <= |some| * t
    ensures (forall a :: a in some ==> ActiveStake(vs, a) >= t) ==> StakeOf(vs, some) >= |some| * t
    decreases |some|
  {
    if some == {} {
      StakeOfEquals(vs, some, 0);
    } else {
      var a :| a in some;
      StakeMapRemove(vs, some, a);
      StakesBounded(vs, some - {a}, t);
      TimesPlusOne(|some| - 1, t);
    }
  }

  /** Fewer and smaller stakes are less. */
  lemma FewerAndSmaller(vs: Validators, low: set<string>, high: set<string>, t: nat)
    requires |low| <= |high|
    requires forall a :: a in low ==> ActiveStake(vs, a) <= t
    requires forall a :: a in high ==> ActiveStake(vs, a) >= t
    ensures StakeOf(vs, low) <= StakeOf(vs, high)
  {
    StakesBounded(vs, low, t);
    StakesBounded(vs, high, t);
    assert t * |low| == |low| * t && t * |high| == |high| * t;
    ProductMonotone(t, |low|, |high|);
  }

  /** The stakes of two sets compare as those of their differences. */
  lemma StakesOfDifferences(vs: Validators, p: set<string>, x: set<string>)
    ensures StakeOf(vs, x) - StakeOf(vs, p) == StakeOf(vs, x - p) - StakeOf(vs, p - x)
    ensures |x| - |p| == |x - p| - |p - x|
  {
    StakesAdd(vs, p * x, p - x);
    StakesAdd(vs, p * x, x - p);
    assert p * x + (p - x) == p && p * x + (x - p) == x;
  }

  /** The first `j` hold at most as much each as the `j`-th, and all others at least as much. */
  lemma AroundTheLast(vs: Validators, asc: seq<string>, j: nat)
    requires GrowingStakes(vs, asc) && 0 < j <= |asc|
    ensures forall a :: a in Elements(asc[..j]) ==> ActiveStake(vs, a) <= ActiveStake(vs, asc[j - 1])
    ensures forall a :: a in Elements(asc) - Elements(asc[..j]) ==> ActiveStake(vs, a) >= ActiveStake(vs, asc[j - 1])
  {
    forall a | a in Elements(asc[..j]) ensures ActiveStake(vs, a) <= ActiveStake(vs, asc[j - 1]) {
      var i :| 0 <= i < j && asc[..j][i] == a;
      assert i < j - 1 ==> ActiveStake(vs, asc[i]) <= ActiveStake(vs, asc[j - 1]);
    }
    forall a | a in Elements(asc) - Elements(asc[..j]) ensures ActiveStake(vs, a) >= ActiveStake(vs, asc[j - 1]) {
      var i :| 0 <= i < |asc| && asc[i] == a;
      assert forall m :: 0 <= m < j ==> asc[..j][m] != a;
    }
  }

  lemma PrefixElements(vs: Validators, asc: seq<string>, j: nat)
    requires NoDup(asc) && j <= |asc|
    ensures |Elements(asc[..j])| == j && StakeOf(vs, Elements(asc[..j])) == Staked(vs, asc[..j])
  {
    assert NoDup(asc[..j]);
    ElementsCount(asc[..j]);
    StakedIsTotal(vs, asc[..j]);
  }

  /** Any `j` of them hold at least what the first `j` hold. */
  lemma LeastStakes(vs: Validators, asc: seq<string>, some: set<string>, j: nat)
    requires NoDup(asc) && GrowingStakes(vs, asc)
    requires some <= Elements(asc) && j <= |some| && j <= |asc|
    ensures StakeOf(vs, some) >= Staked(vs, asc[..j])
  {
    if j > 0 {
      var first := Elements(asc[..j]);
      PrefixElements(vs, asc, j);
      AroundTheLast(vs, asc, j);
      StakesOfDifferences(vs, first, some);
      FewerAndSmaller(vs, first - some, some - first, ActiveStake(vs, asc[j - 1]));
    }
  }

  lemma {:induction false} ElementsCount(order: seq<string>)
    requires NoDup(order)
    ensures |Elements(order)| == |order|
  {
    if order == [] {
      assert Elements(order) == {};
    } else {
      DropLastElement(order);
      ElementsCount(order[..|order| - 1]);
    }
  }

  lemma {:induction false} StakesAdd(vs: Validators, a: set<string>, b: set<string>)
    requires a !! b
    ensures StakeOf(vs, a + b) == StakeOf(vs, a) + StakeOf(vs, b)
    decreases |a|
  {
    if a == {} {
      assert a + b == b;
      StakeOfEquals(vs, a, 0);
    } else {
      var x :| x in a;
      StakeMapRemove(vs, a, x);
      StakeMapRemove(vs, a + b, x);
      assert (a + b) - {x} == (a - {x}) + b;
      StakesAdd(vs, a - {x}, b);
    }
  }

  /** At most `n - j` of them hold at most what is left without the first `j`. */
  lemma GreatestStakes(vs: Validators, asc: seq<string>, some: set<string>, j: nat)
    requires NoDup(asc) && GrowingStakes(vs, asc)
    requires some <= Elements(asc) && |some| + j <= |asc|
    ensures StakeOf(vs, some) + Staked(vs, asc[..j]) <= Staked(vs, asc)
  {
    var others := Elements(asc) - some;
    ElementsCount(asc);
    assert |others| == |asc| - |some|;
    LeastStakes(vs, asc, others, j);
    StakesAdd(vs, some, others);
    assert some + others == Elements(asc);
    StakedIsTotal(vs, asc);
  }

  /** The least number of heads that is a quorum. */
  ghost function HeadQuorum(n: nat): nat {
    (67 * n + 99) / 100
  }

  /** The `k` smallest stakes are a quorum, and the `k - 1` largest are not. */
  ghost predicate StakesAreLevel(vs: Validators, asc: seq<string>, k: nat)
    requires 0 < k <= |asc|
  {
    && 100 * Staked(vs, asc[..k]) >= 67 * Staked(vs, asc)
    && 100 * (Staked(vs, asc) - Staked(vs, asc[..|asc| - k + 1])) < 67 * Staked(vs, asc)
  }

  /** For this list of voters heads and stakes agree. */
  ghost predicate Agree(vs: Validators, voters: seq<string>) {
    Quorum(Votes(vs, voters), |ActiveSet(vs)|) <==> StakeQuorum(vs, voters)
  }

  lemma LevelAgrees(vs: Validators, asc: seq<string>, k: nat, voters: seq<string>)
    requires Ascending(vs, asc) && asc != [] && k == HeadQuorum(|asc|) && StakesAreLevel(vs, asc, k)
    requires NoneRepeated(vs, voters)
    ensures Agree(vs, voters)
  {
    var some := Supporters(vs, voters);
    VotesAreSupporters(vs, voters);
    ElementsCount(asc);
    StakedIsTotal(vs, asc);
    if |some| >= k {
      LeastStakes(vs, asc, some, k);
    } else {
      GreatestStakes(vs, asc, some, |asc| - k + 1);
    }
  }

  /** A part of the order as a list of voters. */
  lemma PartAsVoters(vs: Validators, asc: seq<string>, part: seq<string>)
    requires Ascending(vs, asc) && NoDup(part) && Elements(part) <= Elements(asc)
    ensures NoneRepeated(vs, part) && Supporters(vs, part) == Elements(part)
    ensures Votes(vs, part) == |part| && StakeOf(vs, Supporters(vs, part)) == Staked(vs, part)
  {
    assert Supporters(vs, part) == Elements(part) by {
      forall a | a in part ensures Active(vs, a) {
        assert a in Elements(part) && a in ActiveSet(vs);
      }
    }
    VotesAreSupporters(vs, part);
    ElementsCount(part);
    StakedIsTotal(vs, part);
  }

  lemma {:induction false} StakedSplits(vs: Validators, order: seq<string>, j: nat)
    requires j <= |order|
    ensures Staked(vs, order) == Staked(vs, order[..j]) + Staked(vs, order[j..])
    decreases |order| - j
  {
    if j == |order| {
      assert order[..j] == order;
    } else {
      var n := |order| - 1;
      StakedSplits(vs, order[..n], j);
      assert order[..n][..j] == order[..j] && order[..n][j..] == order[j..][..n - j];
    }
  }

  /** What agreement says of a part of the order. */
  lemma PartAgrees(vs: Validators, asc: seq<string>, part: seq<string>)
    requires Ascending(vs, asc) && NoDup(part) && Elements(part) <= Elements(asc)
    requires forall voters :: NoneRepeated(vs, voters) ==> Agree(vs, voters)
    ensures Quorum(|part|, |asc|) <==> 100 * Staked(vs, part) >= 67 * Staked(vs, asc)
  {
    PartAsVoters(vs, asc, part);
    assert Agree(vs, part);
    ElementsCount(asc);
    StakedIsTotal(vs, asc);
  }

  lemma AgreementIsLevel(vs: Validators, asc: seq<string>, k: nat)
    requires Ascending(vs, asc) && asc != [] && k == HeadQuorum(|asc|)
    requires forall voters :: NoneRepeated(vs, voters) ==> Agree(vs, voters)
    ensures StakesAreLevel(vs, asc, k)
  {
    var m := |asc| - k + 1;
    PartAgrees(vs, asc, asc[..k]);
    PartAgrees(vs, asc, asc[m..]);
    StakedSplits(vs, asc, m);
  }

  /**
   * A quorum of heads is a quorum of stakes for every list of voters without repetitions, and conversely, if
   * and only if the smallest stakes that make a head quorum hold 67% and the largest that make none do not.
   */
  lemma HeadsAreStakesExactly(vs: Validators, asc: seq<string>, k: nat)
    requires Ascending(vs, asc) && asc != [] && k == HeadQuorum(|asc|)
    ensures (forall voters :: NoneRepeated(vs, voters) ==> Agree(vs, voters)) <==> StakesAreLevel(vs, asc, k)
  {
    if StakesAreLevel(vs, asc, k) {
      forall voters | NoneRepeated(vs, voters) ensures Agree(vs, voters) {
        LevelAgrees(vs, asc, k, voters);
      }
    }
    if forall voters :: NoneRepeated(vs, voters) ==> Agree(vs, voters) {
      AgreementIsLevel(vs, asc, k);
    }
  }
}
