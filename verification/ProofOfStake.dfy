/** Stake-weighted selection and reward distribution in 64-bit arithmetic. */
module ProofOfStake {
  import opened Text
  import opened Arithmetic
  import opened MapSums

  const MIN_STAKE: int := 1000 * 100_000_000

  datatype Validator = Validator(address: string, stake: u64, rewards: u64, active: bool)

  type Validators = map<string, Validator>

  /** A visiting order of the hash map: every key once. */
  ghost predicate IsOrder(order: seq<string>, vs: Validators) {
    NoDup(order) && forall a :: a in order <==> a in vs
  }

  ghost predicate Active(vs: Validators, a: string) {
    a in vs && vs[a].active
  }

  ghost function ActiveStake(vs: Validators, a: string): nat {
    if Active(vs, a) then vs[a].stake else 0
  }

  /** The exact stake of the active validators among the first ones visited. */
  ghost function Staked(vs: Validators, order: seq<string>): nat {
    if order == [] then 0 else Staked(vs, order[..|order| - 1]) + ActiveStake(vs, order[|order| - 1])
  }

  ghost function CountActive(vs: Validators, order: seq<string>): nat {
    if order == [] then 0
    else CountActive(vs, order[..|order| - 1]) + (if Active(vs, order[|order| - 1]) then 1 else 0)
  }

  ghost function StakeMap(vs: Validators, addresses: set<string>): map<string, nat> {
    map a | a in addresses :: ActiveStake(vs, a)
  }

  lemma StakeMapRemove(vs: Validators, addresses: set<string>, a: string)
    requires a in addresses
    ensures Total(StakeMap(vs, addresses)) == ActiveStake(vs, a) + Total(StakeMap(vs, addresses - {a}))
  {
    TotalRemove(StakeMap(vs, addresses), a);
    assert StakeMap(vs, addresses) - {a} == StakeMap(vs, addresses - {a});
  }

  lemma DropLastElement(order: seq<string>)
    requires NoDup(order) && order != []
    ensures var before, last := order[..|order| - 1], order[|order| - 1];
      NoDup(before) && last in Elements(order) && Elements(before) == Elements(order) - {last}
  {
    var before, last := order[..|order| - 1], order[|order| - 1];
    forall x ensures x in before <==> x in order && x != last {
      if x in order && x != last {
        var i :| 0 <= i < |order| && order[i] == x;
        assert before[i] == x;
      }
      if x in before {
        var i :| 0 <= i < |before| && before[i] == x;
        assert order[i] == x;
      }
    }
  }

  /** The total does not depend on the visiting order: it is the sum over the set of addresses. */
  lemma {:induction false} StakedIsTotal(vs: Validators, order: seq<string>)
    requires NoDup(order)
    ensures Staked(vs, order) == Total(StakeMap(vs, Elements(order)))
  {
    if order == [] {
      TotalZero(StakeMap(vs, Elements(order)));
    } else {
      var before, last := order[..|order| - 1], order[|order| - 1];
      DropLastElement(order);
      StakedIsTotal(vs, before);
      StakeMapRemove(vs, Elements(order), last);
    }
  }

  // ---------------------------------------------------------------------------------------------
  // Selection.

  /** The cumulative scan, with the 64-bit accumulator of the code; `None` is the fallthrough. */
  ghost function Scan(vs: Validators, order: seq<string>, pick: nat, cumulative: u64): Option<string> {
    if order == [] then None
    else if !Active(vs, order[0]) then Scan(vs, order[1..], pick, cumulative)
    else
      var c := Wrap64(cumulative + vs[order[0]].stake);
      if pick < c then Some(order[0]) else Scan(vs, order[1..], pick, c)
  }

  /** The first `n` hexadecimal characters read as one 64-bit number, a byte for each character. */
  ghost function PickOf(h: HexText, n: nat): u64
    requires n <= |h|
  {
    if n == 0 then 0 else Wrap64(PickOf(h, n - 1) * 256) + (h[n - 1] as int)
  }

  ghost function Selected(vs: Validators, order: seq<string>, pick: nat): string
    requires order != []
  {
    match Scan(vs, order, pick, 0)
    case Some(a) => a
    case None => order[0]
  }

  lemma StakedPrefix(vs: Validators, order: seq<string>, i: nat)
    requires i < |order|
    ensures Staked(vs, order[..i + 1]) == Staked(vs, order[..i]) + ActiveStake(vs, order[i])
  {
    assert order[..i + 1][..i] == order[..i];
  }

  lemma {:induction false} StakedMonotone(vs: Validators, order: seq<string>, i: nat, j: nat)
    requires i <= j <= |order|
    ensures Staked(vs, order[..i]) <= Staked(vs, order[..j])
  {
    if i < j {
      StakedMonotone(vs, order, i, j - 1);
      StakedPrefix(vs, order, j - 1);
    }
  }

  /** The scan stops at the `k`-th validator if it gets there: the running total has been wrapped to 64 bits. */
  ghost predicate StopsAt(vs: Validators, order: seq<string>, pick: nat, k: nat)
    requires k < |order|
  {
    Active(vs, order[k]) && pick < Wrap64(Staked(vs, order[..k + 1]))
  }

  lemma ScanStep(vs: Validators, order: seq<string>, pick: nat, i: nat)
    requires i < |order|
    ensures Scan(vs, order[i..], pick, Wrap64(Staked(vs, order[..i]))) ==
            if StopsAt(vs, order, pick, i) then Some(order[i])
            else Scan(vs, order[i + 1..], pick, Wrap64(Staked(vs, order[..i + 1])))
  {
    StakedPrefix(vs, order, i);
    WrapAdd(Staked(vs, order[..i]), ActiveStake(vs, order[i]));
    assert order[i..][1..] == order[i + 1..];
  }

  /** From the `i`-th validator on, the scan yields the first one at which it stops. */
  lemma {:induction false} ScanFinds(vs: Validators, order: seq<string>, pick: nat, i: nat, k: nat)
    requires i <= k < |order| && StopsAt(vs, order, pick, k)
    requires forall j :: i <= j < k ==> !StopsAt(vs, order, pick, j)
    ensures Scan(vs, order[i..], pick, Wrap64(Staked(vs, order[..i]))) == Some(order[k])
    decreases k - i
  {
    ScanStep(vs, order, pick, i);
    if i < k {
      ScanFinds(vs, order, pick, i + 1, k);
    }
  }

  /** Whatever the total, the first validator at which the scan stops is the one selected. */
  lemma SelectedIsFirst(vs: Validators, order: seq<string>, pick: nat, k: nat)
    requires k < |order| && StopsAt(vs, order, pick, k)
    requires forall j :: 0 <= j < k ==> !StopsAt(vs, order, pick, j)
    ensures Scan(vs, order, pick, 0) == Some(order[k]) && Selected(vs, order, pick) == order[k]
  {
    ScanFinds(vs, order, pick, 0, k);
    assert order[0..] == order && order[..0] == [];
  }

  lemma {:induction false} LastActive(vs: Validators, order: seq<string>) returns (k: nat)
    requires Staked(vs, order) > 0
    ensures k < |order| && Active(vs, order[k]) && Staked(vs, order[..k + 1]) == Staked(vs, order)
  {
    var n := |order| - 1;
    if Active(vs, order[n]) {
      k := n;
      assert order[..n + 1] == order;
    } else {
      k := LastActive(vs, order[..n]);
      assert order[..n][..k + 1] == order[..k + 1];
    }
  }

  lemma {:induction false} FirstStop(vs: Validators, order: seq<string>, pick: nat, n: nat) returns (k: nat)
    requires n < |order| && StopsAt(vs, order, pick, n)
    ensures k <= n && StopsAt(vs, order, pick, k) && forall j :: 0 <= j < k ==> !StopsAt(vs, order, pick, j)
    decreases n
  {
    if j :| 0 <= j < n && StopsAt(vs, order, pick, j) {
      k := FirstStop(vs, order, pick, j);
    } else {
      k := n;
    }
  }

  /** For stakes of any size the fallback is never reached, and an inactive validator is never selected. */
  lemma NeverFallsThrough(vs: Validators, order: seq<string>, pick: nat)
    requires pick < Wrap64(Staked(vs, order))
    ensures order != [] && Scan(vs, order, pick, 0).Some?
    ensures Selected(vs, order, pick) in order && Active(vs, Selected(vs, order, pick))
  {
    var last := LastActive(vs, order);
    var k := FirstStop(vs, order, pick, last);
    SelectedIsFirst(vs, order, pick, k);
  }

  /** Every pick below the total lies in exactly one slot. */
  lemma {:induction false} SlotExists(vs: Validators, order: seq<string>, pick: nat) returns (k: nat)
    requires pick < Staked(vs, order)
    ensures k < |order| && Staked(vs, order[..k]) <= pick < Staked(vs, order[..k + 1])
  {
    var n := |order| - 1;
    assert order[..n + 1] == order;
    if pick < Staked(vs, order[..n]) {
      k := SlotExists(vs, order[..n], pick);
      assert order[..n][..k] == order[..k] && order[..n][..k + 1] == order[..k + 1];
    } else {
      k := n;
    }
  }

  lemma SlotUnique(vs: Validators, order: seq<string>, pick: nat, j: nat, k: nat)
    requires j < |order| && Staked(vs, order[..j]) <= pick < Staked(vs, order[..j + 1])
    requires k < |order| && Staked(vs, order[..k]) <= pick < Staked(vs, order[..k + 1])
    ensures j == k
  {
    if j < k {
      StakedMonotone(vs, order, j + 1, k);
    } else if k < j {
      StakedMonotone(vs, order, k + 1, j);
    }
  }

  lemma SlotSelects(vs: Validators, order: seq<string>, pick: nat, k: nat)
    requires Staked(vs, order) < U64
    requires k < |order| && Staked(vs, order[..k]) <= pick < Staked(vs, order[..k + 1])
    ensures Scan(vs, order, pick, 0) == Some(order[k])
  {
    assert order[..|order|] == order;
    StakedPrefix(vs, order, k);
    StakedMonotone(vs, order, k + 1, |order|);
    forall j | 0 <= j < k ensures !StopsAt(vs, order, pick, j) {
      StakedMonotone(vs, order, j + 1, k);
    }
    SelectedIsFirst(vs, order, pick, k);
  }

  /**
   * The validator selected is the first one at which the scan stops, whatever the stakes add up to.
   */
  lemma SelectedExactly(vs: Validators, order: seq<string>, pick: nat, k: nat)
    requires IsOrder(order, vs) && k < |order| && pick < Wrap64(Staked(vs, order))
    ensures Selected(vs, order, pick) == order[k] <==>
            StopsAt(vs, order, pick, k) && forall j :: 0 <= j < k ==> !StopsAt(vs, order, pick, j)
  {
    var last := LastActive(vs, order);
    var first := FirstStop(vs, order, pick, last);
    SelectedIsFirst(vs, order, pick, first);
    if StopsAt(vs, order, pick, k) && forall j :: 0 <= j < k ==> !StopsAt(vs, order, pick, j) {
      SelectedIsFirst(vs, order, pick, k);
    }
  }

  /**
   * When the total stake fits 64 bits, the `k`-th validator visited is selected by exactly the picks
   * of its own slot, which has the width of its active stake; the scan never falls through.
   */
  lemma SelectedInSlot(vs: Validators, order: seq<string>, pick: nat, k: nat)
    requires IsOrder(order, vs) && k < |order| && pick < Staked(vs, order) < U64
    ensures Scan(vs, order, pick, 0).Some?
    ensures Selected(vs, order, pick) == order[k] <==> Staked(vs, order[..k]) <= pick < Staked(vs, order[..k + 1])
    ensures Staked(vs, order[..k + 1]) - Staked(vs, order[..k]) == ActiveStake(vs, order[k])
  {
    var j := SlotExists(vs, order, pick);
    SlotSelects(vs, order, pick, j);
    StakedPrefix(vs, order, k);
    if Staked(vs, order[..k]) <= pick < Staked(vs, order[..k + 1]) {
      SlotUnique(vs, order, pick, j, k);
    }
  }

  /** How many of the picks below `n` select `a`. */
  ghost function TimesSelected(vs: Validators, order: seq<string>, a: string, n: nat): nat
    requires order != []
  {
    if n == 0 then 0
    else TimesSelected(vs, order, a, n - 1) + (if Selected(vs, order, n - 1) == a then 1 else 0)
  }

  lemma {:induction false} TimesInSlot(vs: Validators, order: seq<string>, k: nat, n: nat)
    requires IsOrder(order, vs) && k < |order| && n <= Staked(vs, order) < U64
    ensures var lo, hi := Staked(vs, order[..k]), Staked(vs, order[..k + 1]);
      lo <= hi && TimesSelected(vs, order, order[k], n) == if n <= lo then 0 else if n <= hi then n - lo else hi - lo
  {
    StakedPrefix(vs, order, k);
    if n > 0 {
      TimesInSlot(vs, order, k, n - 1);
      SelectedInSlot(vs, order, n - 1, k);
    }
  }

  lemma {:induction false} NeverSelected(vs: Validators, order: seq<string>, a: string, n: nat)
    requires IsOrder(order, vs) && order != [] && n <= Staked(vs, order) < U64
    requires a !in order
    ensures TimesSelected(vs, order, a, n) == 0
  {
    if n > 0 {
      NeverSelected(vs, order, a, n - 1);
      var k := SlotExists(vs, order, n - 1);
      SelectedInSlot(vs, order, n - 1, k);
    }
  }

  /** While the total fits 64 bits each validator is selected exactly its active stake many times. */
  lemma EachInProportion(vs: Validators, order: seq<string>, a: string)
    requires IsOrder(order, vs) && order != [] && Staked(vs, order) < U64
    ensures TimesSelected(vs, order, a, Staked(vs, order)) == ActiveStake(vs, a)
  {
    var total := Staked(vs, order);
    if a in order {
      var k :| 0 <= k < |order| && order[k] == a;
      TimesInSlot(vs, order, k, total);
      StakedPrefix(vs, order, k);
      StakedMonotone(vs, order, k + 1, |order|);
      assert order[..|order|] == order;
    } else {
      NeverSelected(vs, order, a, total);
    }
  }

  /** How many of the picks below `n` select one of `some`. */
  ghost function TimesAny(vs: Validators, order: seq<string>, some: seq<string>, n: nat): nat
    requires order != []
  {
    if some == [] then 0
    else TimesAny(vs, order, some[..|some| - 1], n) + TimesSelected(vs, order, some[|some| - 1], n)
  }

  lemma {:induction false} TimesAnyStep(vs: Validators, order: seq<string>, some: seq<string>, n: nat)
    requires order != [] && NoDup(some)
    ensures TimesAny(vs, order, some, 0) == 0
    ensures TimesAny(vs, order, some, n + 1) ==
            TimesAny(vs, order, some, n) + (if Selected(vs, order, n) in some then 1 else 0)
  {
    if some != [] {
      var before, last := some[..|some| - 1], some[|some| - 1];
      var chosen := Selected(vs, order, n);
      DropLastElement(some);
      TimesAnyStep(vs, order, before, n);
      assert chosen in before <==> chosen in Elements(before);
      assert chosen in some <==> chosen in Elements(some);
    }
  }

  /** Every pick selects exactly one validator. */
  lemma {:induction false} EveryPickCounts(vs: Validators, order: seq<string>, n: nat)
    requires NoDup(order) && order != [] && n <= Wrap64(Staked(vs, order))
    ensures TimesAny(vs, order, order, n) == n
  {
    if n == 0 {
      TimesAnyStep(vs, order, order, 0);
    } else {
      EveryPickCounts(vs, order, n - 1);
      TimesAnyStep(vs, order, order, n - 1);
      NeverFallsThrough(vs, order, n - 1);
    }
  }

  /** If some validators are selected less often than their stakes add up to, one of them is short. */
  lemma {:induction false} SomeoneIsShort(vs: Validators, order: seq<string>, some: seq<string>, n: nat)
    returns (a: string)
    requires order != [] && TimesAny(vs, order, some, n) < Staked(vs, some)
    ensures a in some && TimesSelected(vs, order, a, n) < ActiveStake(vs, a)
  {
    a := some[|some| - 1];
    if TimesSelected(vs, order, a, n) >= ActiveStake(vs, a) {
      a := SomeoneIsShort(vs, order, some[..|some| - 1], n);
    }
  }

  /**
   * As the pick ranges over the total that the code computes, each validator is selected exactly its
   * active stake many times if and only if the stakes add up to less than 2^64. Otherwise somebody is
   * selected too rarely.
   */
  lemma SelectionIsProportional(vs: Validators, order: seq<string>)
    requires IsOrder(order, vs) && order != []
    ensures var total := Wrap64(Staked(vs, order));
      && ((forall a :: TimesSelected(vs, order, a, total) == ActiveStake(vs, a)) <==> Staked(vs, order) < U64)
      && (Staked(vs, order) >= U64 ==> exists a :: TimesSelected(vs, order, a, total) < ActiveStake(vs, a))
  {
    var total := Wrap64(Staked(vs, order));
    if Staked(vs, order) < U64 {
      forall a ensures TimesSelected(vs, order, a, total) == ActiveStake(vs, a) {
        EachInProportion(vs, order, a);
      }
    } else {
      EveryPickCounts(vs, order, total);
      var a := SomeoneIsShort(vs, order, order, total);
      assert TimesSelected(vs, order, a, total) < ActiveStake(vs, a);
    }
  }

  // ---------------------------------------------------------------------------------------------
  // Rewards.

  /** The share as computed: the product wraps at 64 bits before the division. */
  ghost function Share(totalReward: nat, stake: nat, total: nat): nat
    requires total > 0
  {
    Wrap64(totalReward * stake) / total
  }

  ghost function ActiveShare(vs: Validators, a: string, totalReward: nat, total: nat): nat
    requires total > 0
  {
    if Active(vs, a) then Share(totalReward, vs[a].stake, total) else 0
  }

  ghost function PaidOut(vs: Validators, order: seq<string>, totalReward: nat, total: nat): nat
    requires total > 0
  {
    if order == [] then 0
    else PaidOut(vs, order[..|order| - 1], totalReward, total) + ActiveShare(vs, order[|order| - 1], totalReward, total)
  }

  /** What the stake entitles a validator to, rounded down, in exact arithmetic. */
  ghost function Entitlement(vs: Validators, a: string, totalReward: nat, total: nat): nat
    requires total > 0
  {
    ProductNonNegative(totalReward, ActiveStake(vs, a));
    totalReward * ActiveStake(vs, a) / total
  }

  ghost function Entitled(vs: Validators, order: seq<string>, totalReward: nat, total: nat): nat
    requires total > 0
  {
    if order == [] then 0
    else
      var n := |order| - 1;
      Entitled(vs, order[..n], totalReward, total) + Entitlement(vs, order[n], totalReward, total)
  }

  /** No product of the reward with an active stake exceeds 64 bits. */
  ghost predicate NoProductWraps(vs: Validators, order: seq<string>, totalReward: nat) {
    forall a :: a in order ==> totalReward * ActiveStake(vs, a) < U64
  }

  lemma QuotientGrows(p: nat, q: nat, total: nat)
    requires total > 0 && q + total <= p
    ensures q / total < p / total
  {
    Division(p, total);
    Division(q, total);
    ProductStep(total, p / total, q / total);
    ProductOrder(total, p / total, q / total);
  }

  /** A validator receives its share of the given total, rounded down, exactly when the product fits 64 bits. */
  lemma ShareIsProportional(totalReward: nat, stake: nat, total: nat)
    requires 0 < total < U64
    ensures Share(totalReward, stake, total) == (totalReward * stake) / total <==> totalReward * stake < U64
    ensures Share(totalReward, stake, total) <= (totalReward * stake) / total
  {
    ProductNonNegative(totalReward, stake);
    var p: nat := totalReward * stake;
    if p >= U64 {
      QuotientGrows(p, Wrap64(p), total);
    }
  }

  /** The smallest permitted stake and a reward of 50 coins in satoshis already wrap: 0.19 coins are paid. */
  lemma RealisticRewardWraps()
    ensures Share(50 * 100_000_000, MIN_STAKE, MIN_STAKE) == 19_379_100
  {
    assert Wrap64(5_000_000_000 * 100_000_000_000) == 1_937_910_009_842_106_368;
  }

  /** One more share, in numbers. */
  lemma BracketStep(total: nat, totalReward: nat, staked: nat, s: nat, paid: nat, share: nat, count: nat)
    requires total * share <= totalReward * s < total * share + total
    requires total * paid <= totalReward * staked
    requires if count == 0 then staked == 0 else totalReward * staked < total * (paid + count)
    ensures total * (paid + share) <= totalReward * (staked + s) < total * (paid + share + (count + 1))
  {
    Distribute(totalReward, staked, s);
    Distribute(total, paid, share);
    Distribute(total, paid + count, share + 1);
    Distribute(total, share, 1);
    Distribute(total, paid, count);
  }

  /** The entitlements of the validators visited so far bracket the reward earned by their stake. */
  lemma {:induction false} EntitlementsBracket(vs: Validators, order: seq<string>, totalReward: nat, total: nat)
    requires total > 0
    ensures total * Entitled(vs, order, totalReward, total) <= totalReward * Staked(vs, order)
    ensures if CountActive(vs, order) == 0 then Staked(vs, order) == 0
            else totalReward * Staked(vs, order) <
                 total * (Entitled(vs, order, totalReward, total) + CountActive(vs, order))
  {
    if order != [] {
      var before, a := order[..|order| - 1], order[|order| - 1];
      EntitlementsBracket(vs, before, totalReward, total);
      var s := ActiveStake(vs, a);
      if Active(vs, a) {
        ProductNonNegative(totalReward, s);
        Division(totalReward * s, total);
        BracketStep(total, totalReward, Staked(vs, before), s, Entitled(vs, before, totalReward, total),
                    Entitlement(vs, a, totalReward, total), CountActive(vs, before));
      } else {
        assert s == 0 && Entitlement(vs, a, totalReward, total) == 0;
      }
    }
  }

  lemma ShareAtMost(vs: Validators, a: string, totalReward: nat, total: nat)
    requires 0 < total < U64
    ensures ActiveShare(vs, a, totalReward, total) <= Entitlement(vs, a, totalReward, total)
    ensures ActiveShare(vs, a, totalReward, total) == Entitlement(vs, a, totalReward, total) <==>
            totalReward * ActiveStake(vs, a) < U64
  {
    if Active(vs, a) {
      ShareIsProportional(totalReward, vs[a].stake, total);
    }
  }

  /** Measured against any total below 2^64, the shares are exact if and only if no product wraps; never more. */
  lemma {:induction false} SharesAreExact(vs: Validators, order: seq<string>, totalReward: nat, total: nat)
    requires 0 < total < U64
    ensures PaidOut(vs, order, totalReward, total) <= Entitled(vs, order, totalReward, total)
    ensures PaidOut(vs, order, totalReward, total) == Entitled(vs, order, totalReward, total) <==>
            NoProductWraps(vs, order, totalReward)
  {
    if order != [] {
      var before, last := order[..|order| - 1], order[|order| - 1];
      assert order == before + [last];
      SharesAreExact(vs, before, totalReward, total);
      ShareAtMost(vs, last, totalReward, total);
    }
  }

  /** What one distribution pays: it divides by the total stake as the code computes it. */
  ghost function Payout(vs: Validators, order: seq<string>, totalReward: nat): nat {
    var total := Wrap64(Staked(vs, order));
    if total == 0 then 0 else PaidOut(vs, order, totalReward, total)
  }

  /** What it should pay: everyone's share of the true total stake. */
  ghost function Due(vs: Validators, order: seq<string>, totalReward: nat): nat
    requires Staked(vs, order) > 0
  {
    Entitled(vs, order, totalReward, Staked(vs, order))
  }

  /** The entitlements never exceed the reward and leave less than one satoshi per active validator. */
  lemma DueIsConserved(vs: Validators, order: seq<string>, totalReward: nat)
    requires Staked(vs, order) > 0
    ensures Due(vs, order, totalReward) <= totalReward < Due(vs, order, totalReward) + CountActive(vs, order)
  {
    var total, due := Staked(vs, order), Due(vs, order, totalReward);
    EntitlementsBracket(vs, order, totalReward, total);
    assert totalReward * total == total * totalReward;
    ProductOrder(total, due, totalReward);
    ProductOrder(total, due + CountActive(vs, order), totalReward);
  }

  /** While the stakes add up to less than 2^64, the payout is exact if and only if no product wraps; never more. */
  lemma PayoutIsExact(vs: Validators, order: seq<string>, totalReward: nat)
    requires 0 < Staked(vs, order) < U64
    ensures Payout(vs, order, totalReward) <= Due(vs, order, totalReward)
    ensures Payout(vs, order, totalReward) == Due(vs, order, totalReward) <==> NoProductWraps(vs, order, totalReward)
  {
    SharesAreExact(vs, order, totalReward, Staked(vs, order));
  }

  /**
   * When the stakes add up to 2^64 or more, the divisor is too small: unless it is zero, nearly twice the
   * reward is paid, short of less than one satoshi per active validator.
   */
  lemma WrappedTotalOverpays(vs: Validators, order: seq<string>, totalReward: nat)
    requires Staked(vs, order) >= U64 && Wrap64(Staked(vs, order)) > 0
    requires NoProductWraps(vs, order, totalReward)
    ensures Payout(vs, order, totalReward) + CountActive(vs, order) > 2 * totalReward
  {
    var total := Wrap64(Staked(vs, order));
    SharesAreExact(vs, order, totalReward, total);
    EntitlementsBracket(vs, order, totalReward, total);
    TwiceTheReward(totalReward, Staked(vs, order), total, Payout(vs, order, totalReward) + CountActive(vs, order));
  }

  /** Dividing by less than half of what was multiplied by more than doubles. */
  lemma TwiceTheReward(totalReward: nat, staked: nat, total: nat, enough: nat)
    requires 0 < total && total + total <= staked
    requires totalReward * staked < total * enough
    ensures enough > 2 * totalReward
  {
    ProductMonotone(totalReward, total + total, staked);
    Distribute(totalReward, total, total);
    assert total * (2 * totalReward) == totalReward * total + totalReward * total;
    ProductOrder(total, enough, 2 * totalReward);
  }

  lemma ProductMonotone(a: nat, x: int, y: int)
    requires x <= y
    ensures a * x <= a * y
  {
    ProductStep(a, x, y);
  }

  /** Two validators whose stakes add up to more than 2^64 are each paid the whole reward or more. */
  lemma TwoArePaidTwice(vs: Validators, a: string, b: string, totalReward: nat)
    requires a != b && Active(vs, a) && Active(vs, b) && vs[a].stake + vs[b].stake > U64
    requires totalReward * vs[a].stake < U64 && totalReward * vs[b].stake < U64
    ensures Payout(vs, [a, b], totalReward) >= 2 * totalReward
  {
    assert [a, b][..1] == [a] && [a][..0] == [];
    assert Staked(vs, [a]) == Staked(vs, []) + vs[a].stake;
    assert Staked(vs, [a, b]) == Staked(vs, [a]) + vs[b].stake;
    var total := Wrap64(vs[a].stake + vs[b].stake);
    WholeReward(totalReward, vs[a].stake, total);
    WholeReward(totalReward, vs[b].stake, total);
    assert PaidOut(vs, [a], totalReward, total) ==
           PaidOut(vs, [], totalReward, total) + ActiveShare(vs, a, totalReward, total);
    assert PaidOut(vs, [a, b], totalReward, total) ==
           PaidOut(vs, [a], totalReward, total) + ActiveShare(vs, b, totalReward, total);
  }

  /** A reward of one satoshi for two stakes just beyond 2^64 pays more than 1.8 coins. */
  lemma OneSatoshiPaysCoins(vs: Validators, a: string, b: string)
    requires a != b && Active(vs, a) && Active(vs, b)
    requires vs[a].stake == 0x8000_0000_0000_0000 && vs[b].stake == 0x8000_0000_0000_0000 + 1000 * 100_000_000
    ensures NoProductWraps(vs, [a, b], 1) && Payout(vs, [a, b], 1) == 184_467_441
  {
    var total := 1000 * 100_000_000;
    assert [a, b][..1] == [a] && [a][..0] == [];
    assert Staked(vs, [a]) == Staked(vs, []) + vs[a].stake;
    assert Staked(vs, [a, b]) == Staked(vs, [a]) + vs[b].stake;
    assert PaidOut(vs, [a], 1, total) == PaidOut(vs, [], 1, total) + ActiveShare(vs, a, 1, total);
    assert PaidOut(vs, [a, b], 1, total) == PaidOut(vs, [a], 1, total) + ActiveShare(vs, b, 1, total);
  }

  lemma WholeReward(totalReward: nat, stake: nat, total: nat)
    requires 0 < total <= stake && totalReward * stake < U64
    ensures Share(totalReward, stake, total) >= totalReward
  {
    ProductNonNegative(totalReward, stake);
    ProductMonotone(totalReward, total, stake);
    Division(totalReward * stake, total);
    assert totalReward * total == total * totalReward;
    Distribute(total, totalReward * stake / total, 1);
    ProductOrder(total, totalReward * stake / total + 1, totalReward);
  }

  /**
   * For a reward of at least one satoshi per active validator, without wrapping products: a distribution
   * pays the reward, short of less than one satoshi each, if and only if the stakes add up to less than 2^64.
   */
  lemma RewardsAreConserved(vs: Validators, order: seq<string>, totalReward: nat)
    requires Staked(vs, order) > 0 && NoProductWraps(vs, order, totalReward)
    requires totalReward >= CountActive(vs, order)
    ensures var paid := Payout(vs, order, totalReward);
      paid <= totalReward < paid + CountActive(vs, order) <==> Staked(vs, order) < U64
  {
    if Staked(vs, order) < U64 {
      PayoutIsExact(vs, order, totalReward);
      DueIsConserved(vs, order, totalReward);
    } else if Wrap64(Staked(vs, order)) > 0 {
      WrappedTotalOverpays(vs, order, totalReward);
    }
  }

  /** Where total and products wrap together, the payout can be exact by accident. */
  lemma ExactByAccident(vs: Validators)
    requires vs == map["a" := Validator("a", 0x8000_0000_0000_0000, 0, true),
                       "b" := Validator("b", 0x8000_0000_0000_0000, 0, true),
                       "c" := Validator("c", 0x8000_0000_0000_0000, 0, true)]
    ensures var order := ["a", "b", "c"];
      && IsOrder(order, vs) && Staked(vs, order) >= U64 && !NoProductWraps(vs, order, 2)
      && Payout(vs, order, 2) == Due(vs, order, 2)
  {
    var order := ["a", "b", "c"];
    assert order[..2] == ["a", "b"] && order[..2][..1] == ["a"] && ["a"][..0] == [];
    var half := 0x8000_0000_0000_0000;
    assert Staked(vs, ["a"]) == Staked(vs, []) + half;
    assert Staked(vs, ["a", "b"]) == Staked(vs, ["a"]) + half;
    assert Staked(vs, order) == Staked(vs, ["a", "b"]) + half;
    assert "a" in order && 2 * ActiveStake(vs, "a") == U64;
    forall x ensures ActiveShare(vs, x, 2, half) == 0 && Entitlement(vs, x, 2, 3 * half) == 0 {
    }
    NothingPaid(vs, order, 2, half);
    NothingDue(vs, order, 2, 3 * half);
  }

  lemma {:induction false} NothingPaid(vs: Validators, order: seq<string>, totalReward: nat, total: nat)
    requires total > 0 && forall x :: ActiveShare(vs, x, totalReward, total) == 0
    ensures PaidOut(vs, order, totalReward, total) == 0
  {
    if order != [] {
      NothingPaid(vs, order[..|order| - 1], totalReward, total);
    }
  }

  lemma {:induction false} NothingDue(vs: Validators, order: seq<string>, totalReward: nat, total: nat)
    requires total > 0 && forall x :: Entitlement(vs, x, totalReward, total) == 0
    ensures Entitled(vs, order, totalReward, total) == 0
  {
    if order != [] {
      NothingDue(vs, order[..|order| - 1], totalReward, total);
    }
  }

  /** The rewards recorded for the validators visited. */
  ghost function Recorded(vs: Validators, order: seq<string>): nat {
    if order == [] then 0
    else
      var last := order[|order| - 1];
      Recorded(vs, order[..|order| - 1]) + (if last in vs then vs[last].rewards else 0)
  }

  /**
   * The recorded rewards never grow by more than what is paid out, and by exactly that amount if and
   * only if no validator's own 64-bit counter overflows.
   */
  lemma {:induction false} RecordedGrowth(vs: Validators, ws: Validators, order: seq<string>, totalReward: nat,
                                          total: nat)
    requires total > 0
    requires forall a :: a in order ==> a in vs && a in ws && ws[a] == Rewarded(vs, a, totalReward, total)
    ensures Recorded(ws, order) <= Recorded(vs, order) + PaidOut(vs, order, totalReward, total)
    ensures Recorded(ws, order) == Recorded(vs, order) + PaidOut(vs, order, totalReward, total) <==>
            forall a :: a in order ==> vs[a].rewards + ActiveShare(vs, a, totalReward, total) < U64
  {
    if order != [] {
      var before, last := order[..|order| - 1], order[|order| - 1];
      assert order == before + [last];
      RecordedGrowth(vs, ws, before, totalReward, total);
    }
  }

  // ---------------------------------------------------------------------------------------------
  // The object.

  class ProofOfStake {
    const sha: Hash
    var validators: Validators

    constructor (sha: Hash)
      ensures this.sha == sha && validators == map[]
    {
      this.sha := sha;
      validators := map[];
    }

    /** `ok` is false when the stake is too low, where the code throws. */
    method AddValidator(address: string, stakeAmount: u64) returns (ok: bool)
      modifies this
      ensures ok <==> stakeAmount >= 1000 * 100_000_000
      ensures validators == if ok then old(validators)[address := Validator(address, stakeAmount, 0, true)]
                            else old(validators)
    {
      if stakeAmount < MIN_STAKE {
        return false;
      }
      validators := validators[address := Validator(address, stakeAmount, 0, true)];
      ok := true;
    }

    method RemoveValidator(address: string)
      modifies this
      ensures validators == if address in old(validators)
                            then old(validators)[address := old(validators)[address].(active := false)]
                            else old(validators)
    {
      if address in validators {
        validators := validators[address := validators[address].(active := false)];
      }
    }

    method ValidateBlock(validatorAddress: string, blockHash: string) returns (ok: bool)
      ensures ok <==> Active(validators, validatorAddress)
    {
      ok := validatorAddress in validators && validators[validatorAddress].active;
    }

    method TotalStaked(order: seq<string>) returns (total: u64)
      requires IsOrder(order, validators)
      ensures total == Wrap64(Staked(validators, order))
    {
      total := 0;
      for i := 0 to |order|
        invariant total == Wrap64(Staked(validators, order[..i]))
      {
        StakedPrefix(validators, order, i);
        WrapAdd(Staked(validators, order[..i]), validators[order[i]].stake);
        if validators[order[i]].active {
          total := Wrap64((total as int) + validators[order[i]].stake);
        }
      }
      assert order[..|order|] == order;
    }

    /** `order` is the order in which the hash map is visited. */
    method SelectValidator(seed: string, order: seq<string>) returns (address: string)
      requires IsOrder(order, validators)
      ensures var total := Wrap64(Staked(validators, order));
        address == if order == [] || total == 0 then "" else Selected(validators, order, PickOf(sha(seed), 8) % total)
    {
      if order == [] {
        return "";
      }
      var total := TotalStaked(order);
      if total == 0 {
        return "";
      }
      var pick := ReadPick(sha(seed));
      pick := pick % total;

      address := ScanFor(order, pick);
    }

    /** The cumulative scan of `selectValidator`, with its fallback. */
    method ScanFor(order: seq<string>, pick: u64) returns (address: string)
      requires IsOrder(order, validators) && order != []
      ensures address == Selected(validators, order, pick)
    {
      var cumulative: u64 := 0;
      for i := 0 to |order|
        invariant Scan(validators, order, pick, 0) == Scan(validators, order[i..], pick, cumulative)
      {
        assert order[i..][1..] == order[i + 1..];
        if validators[order[i]].active {
          cumulative := Wrap64((cumulative as int) + validators[order[i]].stake);
          if pick < cumulative {
            return order[i];
          }
        }
      }
      address := order[0];
    }

    /** The body of the loop of `distributeRewards`: the validator after it. */
    method RewardOne(a: string, totalReward: u64, total: u64) returns (v: Validator)
      requires a in validators && total > 0
      ensures v == Rewarded(validators, a, totalReward, total)
    {
      v := validators[a];
      if v.active {
        var reward := Wrap64((totalReward as int) * v.stake) / total;
        v := v.(rewards := Wrap64((v.rewards as int) + reward));
      }
    }

    method DistributeRewards(totalReward: u64, order: seq<string>)
      requires IsOrder(order, validators)
      modifies this
      ensures var total := Wrap64(Staked(old(validators), order));
        && validators.Keys == old(validators.Keys)
        && forall a :: a in validators ==>
             validators[a] == if total == 0 then old(validators)[a]
                              else Rewarded(old(validators), a, totalReward, total)
    {
      var total := TotalStaked(order);
      if total == 0 {
        return;
      }
      ghost var before := validators;
      for i := 0 to |order|
        invariant validators.Keys == before.Keys
        invariant forall j :: 0 <= j < i ==> validators[order[j]] == Rewarded(before, order[j], totalReward, total)
        invariant forall j :: i <= j < |order| ==> validators[order[j]] == before[order[j]]
      {
        var v := RewardOne(order[i], totalReward, total);
        assert v == Rewarded(before, order[i], totalReward, total);
        validators := validators[order[i] := v];
      }
      forall a | a in validators ensures validators[a] == Rewarded(before, a, totalReward, total) {
        assert a in order;
      }
    }
  }

  /** The loop of `selectValidator` that reads the seed digest. */
  method ReadPick(h: Digest) returns (pick: u64)
    ensures pick == PickOf(h, 8)
  {
    pick := 0;
    for i := 0 to 8
      invariant pick == PickOf(h, i)
    {
      HexCodes(h, i);
      pick := Wrap64((pick as int) * 256) + (h[i] as int);
    }
  }

  /** A validator after the distribution: only the rewards of active ones grow, by their share. */
  ghost function Rewarded(vs: Validators, a: string, totalReward: nat, total: nat): Validator
    requires a in vs && total > 0
  {
    vs[a].(rewards := Wrap64(vs[a].rewards + ActiveShare(vs, a, totalReward, total)))
  }

  lemma HexCodes(h: Digest, i: nat)
    requires i < 64
    ensures (h[i] as int) < 256
  {
    assert IsHexDigit(h[i]);
  }
}
