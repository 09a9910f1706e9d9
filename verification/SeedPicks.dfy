/** Which validators a seed can select: the pick is read from eight hexadecimal characters. */
module SeedPicks {
  import opened Text
  import opened ProofOfStake

  type Code = c: HexText | |c| == 8 witness "00000000"

  /** The number whose `n` bytes are all `d`. */
  ghost function Uniform(d: nat, n: nat): nat {
    if n == 0 then 0 else Uniform(d, n - 1) * 256 + d
  }

  lemma UniformTwoMore(d: nat, n: nat)
    ensures Uniform(d, n + 2) == Uniform(d, n) * 65536 + d * 257
  {
    assert Uniform(d, n + 1) == Uniform(d, n) * 256 + d;
  }

  lemma UniformEight(d: nat, n: nat)
    requires n == 0
    ensures Uniform(d, n + 8) == d * 0x0101_0101_0101_0101
  {
    UniformTwoMore(d, n);
    UniformTwoMore(d, n + 2);
    UniformTwoMore(d, n + 4);
    UniformTwoMore(d, n + 6);
  }

  lemma {:induction false} UniformGrows(d: nat, m: nat, n: nat)
    requires m <= n
    ensures Uniform(d, m) <= Uniform(d, n)
  {
    if m < n {
      UniformGrows(d, m, n - 1);
    }
  }

  lemma {:induction false} PickBetween(c: HexText, n: nat)
    requires n <= |c| && n <= 8
    ensures Uniform(0x30, n) <= PickOf(c, n) <= Uniform(0x66, n)
  {
    if n > 0 {
      PickBetween(c, n - 1);
      UniformEight(0x66, 0);
      UniformGrows(0x66, n, 8);
      assert IsHexDigit(c[n - 1]);
    }
  }

  /** Every pick lies between the codes of "00000000" and "ffffffff". */
  lemma PickRange(c: HexText)
    requires |c| >= 8
    ensures 0x3030_3030_3030_3030 <= PickOf(c, 8) <= 0x6666_6666_6666_6666
  {
    PickBetween(c, 8);
    UniformEight(0x30, 0);
    UniformEight(0x66, 0);
  }

  /** A pick of at most eight characters has not wrapped: it grows with its last character. */
  lemma PickStep(c: HexText, n: nat)
    requires 0 < n <= |c| && n <= 8
    ensures PickOf(c, n) == PickOf(c, n - 1) * 256 + (c[n - 1] as int) && IsHexDigit(c[n - 1])
  {
    PickBetween(c, n - 1);
    UniformEight(0x66, 0);
    UniformGrows(0x66, n, 8);
  }

  /** The first character in which two codes differ decides which pick is greater. */
  lemma {:induction false} PickInOrder(c: HexText, d: HexText, i: nat, n: nat)
    requires i < n <= |c| && n <= |d| && n <= 8
    requires c[..i] == d[..i] && c[i] < d[i]
    ensures PickOf(c, n) < PickOf(d, n)
  {
    PickStep(c, n);
    PickStep(d, n);
    if n == i + 1 {
      PickOfPrefix(c, c[..i], i);
      PickOfPrefix(d, d[..i], i);
    } else {
      PickInOrder(c, d, i, n - 1);
    }
  }

  /** Different codes give different picks, and the greater code in alphabetical order the greater one. */
  lemma PicksFollowCodes(c: Code, d: Code)
    requires c != d
    ensures exists i :: 0 <= i < 8 && c[..i] == d[..i] && c[i] != d[i] && (c[i] < d[i] <==> PickOf(c, 8) < PickOf(d, 8))
    ensures PickOf(c, 8) != PickOf(d, 8)
  {
    var i := FirstDifference(c, d, 8);
    if c[i] < d[i] {
      PickInOrder(c, d, i, 8);
    } else {
      PickInOrder(d, c, i, 8);
    }
  }

  lemma {:induction false} FirstDifference(c: Code, d: Code, n: nat) returns (i: nat)
    requires n <= 8 && c[..n] != d[..n]
    ensures i < n && c[..i] == d[..i] && c[i] != d[i]
  {
    if c[..n - 1] == d[..n - 1] {
      i := n - 1;
      assert c[..n] == c[..n - 1] + [c[n - 1]] && d[..n] == d[..n - 1] + [d[n - 1]];
    } else {
      i := FirstDifference(c, d, n - 1);
    }
  }

  /** What the first characters contribute does not depend on the rest. */
  lemma {:induction false} PickOfPrefix(h: HexText, c: HexText, n: nat)
    requires n <= |c| <= |h| && h[..|c|] == c
    ensures PickOf(h, n) == PickOf(c, n)
  {
    if n > 0 {
      PickOfPrefix(h, c, n - 1);
      assert h[n - 1] == c[n - 1];
    }
  }

  /** The code a digest starts with. */
  ghost function CodeOf(h: Digest): (c: Code)
    ensures h[..8] == c
  {
    h[..8]
  }

  /** Some digest starts with the code. */
  lemma DigestOf(c: Code) returns (h: Digest)
    ensures h[..8] == c
  {
    h := c + seq(56, i => '0');
  }

  /** The validator that a digest selects, for a total that is not zero. */
  ghost function SelectedBy(vs: Validators, order: seq<string>, c: HexText): string
    requires order != [] && |c| >= 8 && Wrap64(Staked(vs, order)) > 0
  {
    Selected(vs, order, PickOf(c, 8) % Wrap64(Staked(vs, order)))
  }

  /** The scan stops first at the `k`-th validator. */
  ghost predicate FirstStopAt(vs: Validators, order: seq<string>, pick: nat, k: nat)
    requires k < |order|
  {
    StopsAt(vs, order, pick, k) && forall j :: 0 <= j < k ==> !StopsAt(vs, order, pick, j)
  }

  /**
   * Some digest selects the `k`-th validator visited if and only if there is a code of eight hexadecimal
   * characters whose remainder modulo the total makes the scan stop there first.
   */
  lemma SelectableExactly(vs: Validators, order: seq<string>, k: nat)
    requires IsOrder(order, vs) && k < |order| && Wrap64(Staked(vs, order)) > 0
    ensures (exists h: Digest :: SelectedBy(vs, order, h) == order[k]) <==>
            (exists c: Code :: FirstStopAt(vs, order, PickOf(c, 8) % Wrap64(Staked(vs, order)), k))
  {
    var total := Wrap64(Staked(vs, order));
    if h: Digest :| SelectedBy(vs, order, h) == order[k] {
      var c := CodeOf(h);
      PickOfPrefix(h, c, 8);
      SelectedExactly(vs, order, PickOf(c, 8) % total, k);
      assert FirstStopAt(vs, order, PickOf(c, 8) % total, k);
    }
    if c: Code :| FirstStopAt(vs, order, PickOf(c, 8) % total, k) {
      var h := DigestOf(c);
      PickOfPrefix(h, c, 8);
      SelectedExactly(vs, order, PickOf(c, 8) % total, k);
      assert SelectedBy(vs, order, h) == order[k];
    }
  }

  /** The remainder of the code lies in the slot of the `k`-th validator. */
  ghost predicate HitsSlot(vs: Validators, order: seq<string>, c: HexText, k: nat)
    requires k < |order| && |c| >= 8 && 0 < Staked(vs, order)
  {
    Staked(vs, order[..k]) <= PickOf(c, 8) % Staked(vs, order) < Staked(vs, order[..k + 1])
  }

  /** While the stakes add up to less than 2^64: if and only if the remainder of some code lies in its slot. */
  lemma SelectableInSlot(vs: Validators, order: seq<string>, k: nat)
    requires IsOrder(order, vs) && k < |order| && 0 < Staked(vs, order) < U64
    ensures (exists h: Digest :: SelectedBy(vs, order, h) == order[k]) <==>
            (exists c: Code :: HitsSlot(vs, order, c, k))
  {
    var total := Staked(vs, order);
    if h: Digest :| SelectedBy(vs, order, h) == order[k] {
      var c := CodeOf(h);
      PickOfPrefix(h, c, 8);
      SelectedInSlot(vs, order, PickOf(c, 8) % total, k);
      assert HitsSlot(vs, order, c, k);
    }
    if c: Code :| HitsSlot(vs, order, c, k) {
      var h := DigestOf(c);
      PickOfPrefix(h, c, 8);
      SelectedInSlot(vs, order, PickOf(c, 8) % total, k);
      assert SelectedBy(vs, order, h) == order[k];
    }
  }

  /** Two active validators whose stakes add up to less than 2^64, the first of which no digest ever selects. */
  lemma NeverSelectable(vs: Validators, a: string, b: string, h: Digest)
    requires a != b && vs.Keys == {a, b} && Active(vs, a) && Active(vs, b)
    requires vs[a].stake == 0x3030_3030_3030_3030 && vs[b].stake == 0x5000_0000_0000_0000
    ensures 0 < Staked(vs, [a, b]) < U64 && SelectedBy(vs, [a, b], h) == b
  {
    var order := [a, b];
    assert order[..2] == order && order[..1] == [a] && [a][..0] == [];
    assert Staked(vs, [a]) == Staked(vs, []) + vs[a].stake;
    assert Staked(vs, order) == Staked(vs, [a]) + vs[b].stake;
    PickRange(h);
    SelectedInSlot(vs, order, PickOf(h, 8) % Staked(vs, order), 1);
  }
}
