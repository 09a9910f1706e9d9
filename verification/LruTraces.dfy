/** What whole sequences of cache operations guarantee, for one cache and for two caches side by side. */
module LruTraces {
  import opened Text
  import opened LruCache

  datatype Op = Put(key: string, value: string) | Get(key: string)

  ghost function Step(cap: nat, r: Recency, op: Op): Recency {
    match op
    case Put(k, v) => AfterPut(cap, r, k, v)
    case Get(k) => AfterGet(r, k)
  }

  /** The contents of a cache of capacity `cap` after the operations `ops`. */
  ghost function Run(cap: nat, ops: seq<Op>): Recency {
    if ops == [] then [] else Step(cap, Run(cap, ops[..|ops| - 1]), ops[|ops| - 1])
  }

  ghost predicate IsSubsequence(a: Recency, b: Recency) {
    a == [] || (b != [] && ((a[0] == b[0] && IsSubsequence(a[1..], b[1..])) || IsSubsequence(a, b[1..])))
  }

  // ---------------------------------------------------------------------------------------------
  // Facts about single steps.

  lemma {:induction false} WithoutSize(r: Recency, k: string)
    ensures |Without(r, k)| == |r| - (if Find(r, k).Some? then 1 else 0)
  {
    if r != [] && r[0].key != k {
      WithoutSize(r[1..], k);
    }
  }

  lemma {:induction false} WithoutFind(r: Recency, k: string, x: string)
    requires Distinct(r)
    ensures Find(Without(r, k), x) == if x == k then None else Find(r, x)
    ensures Distinct(Without(r, k))
  {
    if r != [] && r[0].key != k {
      WithoutFind(r[1..], k, x);
      WithoutFind(r[1..], k, r[0].key);
      assert Without(r, k)[1..] == Without(r[1..], k);
    }
  }

  lemma {:induction false} PrefixFind(r: Recency, n: nat, x: string)
    requires Distinct(r) && n <= |r|
    ensures Distinct(r[..n])
    ensures Find(r[..n], x) == None || Find(r[..n], x) == Find(r, x)
  {
    if n > 0 {
      assert r[..n][1..] == r[1..][..n - 1];
      PrefixFind(r[1..], n - 1, x);
      PrefixFind(r[1..], n - 1, r[0].key);
    }
  }

  lemma StepDistinct(cap: nat, r: Recency, op: Op)
    requires Distinct(r)
    ensures Distinct(Step(cap, r, op))
  {
    var v := match op case Put(_, v) => v case Get(k) => if Find(r, k).Some? then Find(r, k).value else "";
    var moved := [Item(op.key, v)] + Without(r, op.key);
    WithoutFind(r, op.key, op.key);
    assert moved[1..] == Without(r, op.key);
    if op.Put? && |moved| > cap {
      PrefixFind(moved, cap, op.key);
    }
  }

  lemma StepBound(cap: nat, r: Recency, op: Op)
    requires |r| <= cap
    ensures |Step(cap, r, op)| <= cap
  {
    WithoutSize(r, op.key);
  }

  /** A cache never exceeds its capacity and never lists a key twice. */
  lemma {:induction false} RunWellFormed(cap: nat, ops: seq<Op>)
    ensures |Run(cap, ops)| <= cap && Distinct(Run(cap, ops))
  {
    if ops != [] {
      RunWellFormed(cap, ops[..|ops| - 1]);
      StepBound(cap, Run(cap, ops[..|ops| - 1]), ops[|ops| - 1]);
      StepDistinct(cap, Run(cap, ops[..|ops| - 1]), ops[|ops| - 1]);
    }
  }

  // ---------------------------------------------------------------------------------------------
  // Two caches fed the same operations: inclusion.

  lemma {:induction false} SubWithoutLeft(a: Recency, b: Recency, k: string)
    requires IsSubsequence(a, b)
    ensures IsSubsequence(Without(a, k), b)
    decreases |b|
  {
    if a != [] {
      if a[0] == b[0] && IsSubsequence(a[1..], b[1..]) {
        if a[0].key != k {
          SubWithoutLeft(a[1..], b[1..], k);
          assert Without(a, k)[1..] == Without(a[1..], k);
        }
      } else {
        SubWithoutLeft(a, b[1..], k);
      }
    }
  }

  lemma {:induction false} SubWithout(a: Recency, b: Recency, k: string)
    requires IsSubsequence(a, b)
    ensures IsSubsequence(Without(a, k), Without(b, k))
    decreases |b|
  {
    if a != [] {
      if b[0].key != k {
        assert Without(b, k)[1..] == Without(b[1..], k);
      }
      if a[0] == b[0] && IsSubsequence(a[1..], b[1..]) {
        if a[0].key != k {
          SubWithout(a[1..], b[1..], k);
          assert Without(a, k)[1..] == Without(a[1..], k);
        }
      } else if b[0].key == k {
        SubWithoutLeft(a, b[1..], k);
      } else {
        SubWithout(a, b[1..], k);
      }
    }
  }

  lemma {:induction false} SubDropLast(a: Recency, b: Recency)
    requires IsSubsequence(a, b) && a != []
    ensures b != []
    ensures IsSubsequence(a[..|a| - 1], b[..|b| - 1])
    ensures IsSubsequence(a[..|a| - 1], b)
    decreases |b|
  {
    var x, y := a[..|a| - 1], b[..|b| - 1];
    if a[0] == b[0] && IsSubsequence(a[1..], b[1..]) {
      if |a| > 1 {
        SubDropLast(a[1..], b[1..]);
        assert x[1..] == a[1..][..|a| - 2];
        assert y[1..] == b[1..][..|b| - 2];
      }
    } else {
      SubDropLast(a, b[1..]);
      assert y[1..] == b[1..][..|b| - 2];
    }
  }

  lemma {:induction false} SubFind(a: Recency, b: Recency, k: string)
    requires IsSubsequence(a, b) && Distinct(b)
    ensures Find(a, k) == None || Find(a, k) == Find(b, k)
    decreases |b|
  {
    if a != [] {
      if a[0] == b[0] && IsSubsequence(a[1..], b[1..]) {
        SubFind(a[1..], b[1..], k);
      } else {
        SubFind(a, b[1..], k);
      }
    }
  }

  /** While the smaller cache is not yet full, the two caches are equal. */
  ghost predicate Included(small: nat, r: Recency, large: nat, s: Recency) {
    && |r| <= small && |s| <= large
    && IsSubsequence(r, s)
    && (|r| < small ==> r == s)
  }

  lemma IncludedStep(small: nat, r: Recency, large: nat, s: Recency, op: Op)
    requires small <= large && Included(small, r, large, s) && Distinct(s)
    ensures Included(small, Step(small, r, op), large, Step(large, s, op))
  {
    var k := op.key;
    SubWithout(r, s, k);
    SubFind(r, s, k);
    WithoutSize(r, k);
    WithoutSize(s, k);
    match op
    case Put(_, v) =>
      var r', s' := [Item(k, v)] + Without(r, k), [Item(k, v)] + Without(s, k);
      assert r'[1..] == Without(r, k) && s'[1..] == Without(s, k);
      if |r'| > small {
        SubDropLast(r', s');
      }
    case Get(_) =>
      if Find(r, k).Some? {
        var r', s' := Step(small, r, op), Step(large, s, op);
        assert r'[1..] == Without(r, k) && s'[1..] == Without(s, k);
      } else if Find(s, k).Some? {
        WithoutAbsent(r, k);
        var s' := Step(large, s, op);
        assert s'[1..] == Without(s, k);
      }
  }

  lemma {:induction false} IncludedRun(small: nat, large: nat, ops: seq<Op>)
    requires small <= large
    ensures Included(small, Run(small, ops), large, Run(large, ops))
  {
    if ops != [] {
      var before := ops[..|ops| - 1];
      IncludedRun(small, large, before);
      RunWellFormed(large, before);
      IncludedStep(small, Run(small, before), large, Run(large, before), ops[|ops| - 1]);
    }
  }

  /** Growing the capacity never loses a hit: whatever the small cache returns, the large one returns too. */
  lemma LargerCacheIncludes(small: nat, large: nat, ops: seq<Op>)
    requires small <= large
    ensures IsSubsequence(Run(small, ops), Run(large, ops))
    ensures forall k :: Find(Run(small, ops), k).Some? ==> Find(Run(large, ops), k) == Find(Run(small, ops), k)
  {
    IncludedRun(small, large, ops);
    RunWellFormed(large, ops);
    forall k {
      SubFind(Run(small, ops), Run(large, ops), k);
    }
  }

  // ---------------------------------------------------------------------------------------------
  // One cache: exactly which keys are present, and with which value.

  /** The keys put or hit, in order of time. A missed `Get` touches nothing. */
  ghost function Touches(cap: nat, ops: seq<Op>): seq<string> {
    if ops == [] then []
    else
      var before, op := ops[..|ops| - 1], ops[|ops| - 1];
      if op.Put? || Find(Run(cap, before), op.key).Some? then Touches(cap, before) + [op.key]
      else Touches(cap, before)
  }

  ghost predicate LastTouch(t: seq<string>, k: string, i: int) {
    0 <= i < |t| && t[i] == k && forall j :: i < j < |t| ==> t[j] != k
  }

  ghost function Remove(d: seq<string>, k: string): seq<string> {
    if d == [] then [] else if d[0] == k then d[1..] else [d[0]] + Remove(d[1..], k)
  }

  /** Move-to-front without any bound: all touched keys, most recent first. */
  ghost function Ranking(t: seq<string>): seq<string> {
    if t == [] then [] else [t[|t| - 1]] + Remove(Ranking(t[..|t| - 1]), t[|t| - 1])
  }

  ghost function Keys(r: Recency): seq<string> {
    if r == [] then [] else [r[0].key] + Keys(r[1..])
  }

  ghost function Take(d: seq<string>, n: nat): seq<string> {
    if n == 0 || d == [] then [] else [d[0]] + Take(d[1..], n - 1)
  }

  lemma {:induction false} TakeIsSlice(d: seq<string>, n: nat)
    ensures Take(d, n) == if n <= |d| then d[..n] else d
  {
    if n > 0 && d != [] {
      TakeIsSlice(d[1..], n - 1);
      assert d == [d[0]] + d[1..];
    }
  }

  lemma {:induction false} RemoveProperties(d: seq<string>, k: string)
    requires NoDup(d)
    ensures NoDup(Remove(d, k))
    ensures forall x :: x in Remove(d, k) <==> x in d && x != k
    ensures |Remove(d, k)| == |d| - (if k in d then 1 else 0)
  {
    if d != [] {
      assert d == [d[0]] + d[1..];
      RemoveProperties(d[1..], k);
      if d[0] != k {
        NoDupCons(d[0], Remove(d[1..], k));
      }
    }
  }

  lemma {:induction false} TakeRemove(d: seq<string>, k: string, n: nat)
    requires n > 0
    ensures Take(Remove(d, k), n - 1) == Take(Remove(Take(d, n), k), n - 1)
  {
    if d != [] {
      assert Take(d, n)[1..] == Take(d[1..], n - 1);
      if d[0] == k {
        TakeIsSlice(d[1..], n - 1);
        TakeIsSlice(Take(d[1..], n - 1), n - 1);
      } else if n > 1 {
        TakeRemove(d[1..], k, n - 1);
        assert Remove(d, k)[1..] == Remove(d[1..], k);
        assert Remove(Take(d, n), k)[1..] == Remove(Take(d[1..], n - 1), k);
      }
    }
  }

  lemma {:induction false} RankingNoDup(t: seq<string>)
    ensures NoDup(Ranking(t))
    ensures forall x :: x in Ranking(t) <==> x in t
  {
    if t != [] {
      var u, x := t[..|t| - 1], t[|t| - 1];
      assert t == u + [x];
      RankingNoDup(u);
      RemoveProperties(Ranking(u), x);
      NoDupCons(x, Remove(Ranking(u), x));
    }
  }

  lemma {:induction false} KeysSize(r: Recency)
    ensures |Keys(r)| == |r|
  {
    if r != [] {
      KeysSize(r[1..]);
    }
  }

  lemma {:induction false} KeysWithout(r: Recency, k: string)
    ensures Keys(Without(r, k)) == Remove(Keys(r), k)
  {
    if r != [] {
      KeysWithout(r[1..], k);
      if r[0].key != k {
        assert Without(r, k)[1..] == Without(r[1..], k);
      }
    }
  }

  lemma {:induction false} KeysPrefix(r: Recency, n: nat)
    requires n <= |r|
    ensures n <= |Keys(r)| && Keys(r[..n]) == Keys(r)[..n]
  {
    if n > 0 {
      KeysPrefix(r[1..], n - 1);
      assert r[..n][1..] == r[1..][..n - 1];
    }
  }

  /** A key is found exactly when it is listed. */
  lemma {:induction false} KeysFound(r: Recency, k: string)
    ensures Find(r, k).Some? <==> k in Keys(r)
  {
    if r != [] {
      KeysFound(r[1..], k);
    }
  }

  /** Bounding a list of items bounds its list of keys. */
  lemma KeysBounded(r: Recency, cap: nat)
    ensures Keys(Bounded(r, cap)) == Take(Keys(r), cap)
  {
    KeysSize(r);
    if cap <= |r| {
      KeysPrefix(r, cap);
    }
    TakeIsSlice(Keys(r), cap);
  }

  /** Moving `k` to the front of the bounded list is moving it to the front of the unbounded one. */
  lemma MoveToFrontBounded(d: seq<string>, k: string, cap: nat)
    ensures Take([k] + Remove(Take(d, cap), k), cap) == Take([k] + Remove(d, k), cap)
  {
    if cap > 0 {
      TakeRemove(d, k, cap);
      assert ([k] + Remove(Take(d, cap), k))[1..] == Remove(Take(d, cap), k);
      assert ([k] + Remove(d, k))[1..] == Remove(d, k);
    }
  }

  /** One touching step keeps the cache at the top of the ranking. */
  lemma TouchStep(cap: nat, r: Recency, t: seq<string>, op: Op)
    requires |r| <= cap && Keys(r) == Take(Ranking(t), cap)
    requires op.Put? || Find(r, op.key).Some?
    ensures Keys(Step(cap, r, op)) == Take(Ranking(t + [op.key]), cap)
  {
    var k := op.key;
    var v := if op.Put? then op.value else Find(r, k).value;
    var moved := [Item(k, v)] + Without(r, k);
    assert (t + [k])[..|t|] == t;
    assert moved[1..] == Without(r, k);
    KeysWithout(r, k);
    KeysFound(r, k);
    KeysBounded(moved, cap);
    MoveToFrontBounded(Ranking(t), k, cap);
    WithoutSize(r, k);
  }

  /** The cache holds the first `cap` keys of the unbounded ranking. */
  lemma {:induction false} CacheIsTopOfRanking(cap: nat, ops: seq<Op>)
    ensures Keys(Run(cap, ops)) == Take(Ranking(Touches(cap, ops)), cap)
  {
    if ops != [] {
      var before, op := ops[..|ops| - 1], ops[|ops| - 1];
      CacheIsTopOfRanking(cap, before);
      RunWellFormed(cap, before);
      if op.Put? || Find(Run(cap, before), op.key).Some? {
        TouchStep(cap, Run(cap, before), Touches(cap, before), op);
      }
    }
  }

  /** The keys ranked above `k` are those touched after `k`'s last touch. */
  lemma {:induction false} RankedAbove(t: seq<string>, k: string, i: nat) returns (j: nat)
    requires LastTouch(t, k, i)
    ensures j < |Ranking(t)| && Ranking(t)[j] == k
    ensures Elements(Ranking(t)[..j]) == Elements(t[i + 1..])
  {
    var u, x := t[..|t| - 1], t[|t| - 1];
    if i == |t| - 1 {
      j := 0;
    } else {
      assert t[i + 1..] == u[i + 1..] + [x];
      ElementsConcat(u[i + 1..], [x]);
      var m := RankedAbove(u, k, i);
      RankingNoDup(u);
      var d := Ranking(u);
      j := RemovePosition(d, x, m);
      j := j + 1;
      assert Ranking(t)[..j] == [x] + Remove(d, x)[..j - 1];
      ElementsConcat([x], Remove(d, x)[..j - 1]);
    }
  }

  lemma {:induction false} RemovePosition(d: seq<string>, x: string, m: nat) returns (j: nat)
    requires NoDup(d) && m < |d| && d[m] != x
    ensures j < |Remove(d, x)| && Remove(d, x)[j] == d[m]
    ensures {x} + Elements(Remove(d, x)[..j]) == {x} + Elements(d[..m])
  {
    if m == 0 {
      j := 0;
    } else if d[0] == x {
      j := m - 1;
      assert d[..m] == [x] + d[1..][..j];
      ElementsConcat([x], d[1..][..j]);
    } else {
      var e := RemovePosition(d[1..], x, m - 1);
      j := e + 1;
      assert d[..m] == [d[0]] + d[1..][..m - 1];
      assert Remove(d, x)[..j] == [d[0]] + Remove(d[1..], x)[..e];
      ElementsConcat([d[0]], d[1..][..m - 1]);
      ElementsConcat([d[0]], Remove(d[1..], x)[..e]);
    }
  }

  lemma {:induction false} NoDupCount(d: seq<string>)
    requires NoDup(d)
    ensures |Elements(d)| == |d|
  {
    if d == [] {
      assert Elements(d) == {};
    } else {
      NoDupCount(d[1..]);
      assert d == [d[0]] + d[1..];
      assert Elements(d) == {d[0]} + Elements(d[1..]);
    }
  }

  lemma PresentAt(cap: nat, ops: seq<Op>, k: string, i: nat)
    requires LastTouch(Touches(cap, ops), k, i)
    ensures Find(Run(cap, ops), k).Some? <==> |Elements(Touches(cap, ops)[i + 1..])| < cap
  {
    var t := Touches(cap, ops);
    var d := Ranking(t);
    CacheIsTopOfRanking(cap, ops);
    KeysFound(Run(cap, ops), k);
    RankingNoDup(t);
    TakeIsSlice(d, cap);
    var j := RankedAbove(t, k, i);
    NoDupCount(d[..j]);
    if j < cap {
      assert Take(d, cap)[j] == k;
    }
  }

  lemma AbsentIfUntouched(cap: nat, ops: seq<Op>, k: string)
    requires k !in Touches(cap, ops)
    ensures Find(Run(cap, ops), k) == None
  {
    CacheIsTopOfRanking(cap, ops);
    KeysFound(Run(cap, ops), k);
    RankingNoDup(Touches(cap, ops));
    TakeIsSlice(Ranking(Touches(cap, ops)), cap);
  }

  /**
   * A key is present exactly while fewer than `cap` distinct other keys have been put or hit since
   * its own last put or hit.
   */
  lemma PresentExactly(cap: nat, ops: seq<Op>, k: string)
    ensures Find(Run(cap, ops), k).Some? <==>
            exists i :: LastTouch(Touches(cap, ops), k, i) && |Elements(Touches(cap, ops)[i + 1..])| < cap
  {
    if k in Touches(cap, ops) {
      var i := LastTouchExists(Touches(cap, ops), k);
      PresentAt(cap, ops, k, i);
    } else {
      AbsentIfUntouched(cap, ops, k);
    }
  }

  lemma {:induction false} LastTouchExists(t: seq<string>, k: string) returns (i: nat)
    requires k in t
    ensures LastTouch(t, k, i)
  {
    if t[|t| - 1] == k {
      i := |t| - 1;
    } else {
      var u := t[..|t| - 1];
      assert t == u + [t[|t| - 1]];
      i := LastTouchExists(u, k);
    }
  }

  /** The value of the latest `Put` of `k`. */
  ghost function LastPut(ops: seq<Op>, k: string): Option<string> {
    if ops == [] then None
    else if ops[|ops| - 1].Put? && ops[|ops| - 1].key == k then Some(ops[|ops| - 1].value)
    else LastPut(ops[..|ops| - 1], k)
  }

  /** A present key is never stale: it carries the value of its latest `Put`. */
  lemma {:induction false} PresentValueIsLatest(cap: nat, ops: seq<Op>, k: string)
    ensures Find(Run(cap, ops), k) == None || Find(Run(cap, ops), k) == LastPut(ops, k)
  {
    if ops != [] {
      var before, op := ops[..|ops| - 1], ops[|ops| - 1];
      var r := Run(cap, before);
      PresentValueIsLatest(cap, before, k);
      RunWellFormed(cap, before);
      WithoutFind(r, op.key, k);
      WithoutFind(r, op.key, op.key);
      var v := match op case Put(_, v) => v case Get(x) => if Find(r, x).Some? then Find(r, x).value else "";
      var moved := [Item(op.key, v)] + Without(r, op.key);
      assert moved[1..] == Without(r, op.key);
      if |moved| > cap {
        PrefixFind(moved, cap, k);
      }
    }
  }
}
