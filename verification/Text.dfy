/** Strings as the C++ code builds them: decimal rendering, prefixes, substrings, digests. */
module Text {

  /** One octet of a `std::vector<uint8_t>` or of a socket buffer. */
  type byte = x: int | 0 <= x < 256

  datatype Option<T> = None | Some(value: T)

  const U32: int := 0x1_0000_0000
  const U64: int := 0x1_0000_0000_0000_0000

  type u32 = x: int | 0 <= x < 0x1_0000_0000
  type u64 = x: int | 0 <= x < 0x1_0000_0000_0000_0000

  /** Conversion to `uint32_t`. */
  function Wrap32(n: int): (r: u32)
    ensures 0 <= n < U32 ==> r == n
  {
    n % 0x1_0000_0000
  }

  /** Conversion to `uint64_t`. */
  function Wrap64(n: int): (r: u64)
    ensures 0 <= n < U64 ==> r == n
  {
    n % 0x1_0000_0000_0000_0000
  }

  /** A wrapping accumulator is the exact sum, wrapped. */
  lemma WrapAdd(a: int, b: int)
    ensures Wrap64(Wrap64(a) + b) == Wrap64(a + b)
  {
  }

  predicate IsHexDigit(c: char) {
    '0' <= c <= '9' || 'a' <= c <= 'f'
  }

  type HexText = s: string | forall i :: 0 <= i < |s| ==> IsHexDigit(s[i])

  /** What `SHA256::toHex` renders: sixty-four lower-case hexadecimal digits. */
  type Digest = s: string | |s| == 64 && forall i :: 0 <= i < 64 ==> IsHexDigit(s[i])
    witness seq(64, i => '0')

  /** The digest function, arbitrary throughout. */
  type Hash = string -> Digest

  /** Two different strings with one digest. */
  ghost predicate Collision(hash: Hash, x: string, y: string) {
    x != y && hash(x) == hash(y)
  }

  /** A collision of the doubled digest is one of the digest itself. */
  lemma DoubleCollision(hash: Hash, x: string, y: string) returns (a: string, b: string)
    requires x != y && hash(hash(x)) == hash(hash(y))
    ensures Collision(hash, a, b)
  {
    if hash(x) == hash(y) {
      a, b := x, y;
    } else {
      a, b := hash(x), hash(y);
    }
  }

  predicate IsDecDigit(c: char) {
    '0' <= c <= '9'
  }

  function DecDigit(d: nat): (c: char)
    requires d < 10
    ensures IsDecDigit(c)
  {
    '0' + d as char
  }

  /** `std::to_string` of an unsigned integer. */
  function Dec(n: nat): (s: string)
    ensures s != "" && forall c :: c in s ==> IsDecDigit(c)
  {
    if n < 10 then [DecDigit(n)] else Dec(n / 10) + [DecDigit(n % 10)]
  }

  lemma DecDigits(n: nat, i: nat)
    requires i < |Dec(n)|
    ensures IsDecDigit(Dec(n)[i])
  {
    assert Dec(n)[i] in Dec(n);
  }

  /** `std::to_string` of a signed integer. */
  function DecInt(i: int): string {
    if i < 0 then "-" + Dec(-i) else Dec(i)
  }

  /** A 64-bit time. */
  type i64 = x: int | -0x8000_0000_0000_0000 <= x < 0x8000_0000_0000_0000

  /** Five more digits. */
  lemma DecFive(n: nat, k: nat)
    requires |Dec(n / 100_000)| <= k
    ensures |Dec(n)| <= k + 5
  {
    assert n / 10 / 10 / 10 / 10 / 10 == n / 100_000;
    assert |Dec(n / 10 / 10 / 10 / 10)| <= k + 1;
    assert |Dec(n / 10 / 10 / 10)| <= k + 2;
    assert |Dec(n / 10 / 10)| <= k + 3;
    assert |Dec(n / 10)| <= k + 4;
  }

  /** A bound on the characters of a 64-bit time, sufficient here. */
  lemma TimeWidth(i: i64)
    ensures |DecInt(i)| <= 22
  {
    var j: int := i;
    var n: nat := if j < 0 then -j else j;
    var a, b, c := n / 100_000, n / 100_000 / 100_000, n / 100_000 / 100_000 / 100_000;
    DecFive(c, 1);
    DecFive(b, 6);
    DecFive(a, 11);
    DecFive(n, 16);
  }

  /** The number that decimal digits denote, the most significant first. */
  ghost function NumberOf(s: string): nat
    requires forall c :: c in s ==> IsDecDigit(c)
  {
    if s == "" then 0
    else
      var last := s[|s| - 1];
      assert last in s && IsDecDigit(last);
      NumberOf(s[..|s| - 1]) * 10 + (last - '0') as nat
  }

  /** A number is printed with the digits that denote it, without leading zeros. */
  lemma {:induction false} DecReads(n: nat)
    ensures NumberOf(Dec(n)) == n && (n > 0 ==> Dec(n)[0] != '0') && (n == 0 ==> Dec(n) == "0")
  {
    if n >= 10 {
      var s := Dec(n);
      DecReads(n / 10);
      assert s[..|s| - 1] == Dec(n / 10);
    } else {
      assert Dec(n)[..0] == "";
    }
  }

  ghost function Pow10(k: nat): nat {
    if k == 0 then 1 else 10 * Pow10(k - 1)
  }

  /** The number of digits. */
  lemma {:induction false} DecLength(n: nat, k: nat)
    ensures |Dec(n)| <= k + 1 <==> n < Pow10(k + 1)
  {
    if k == 0 {
      assert Pow10(1) == 10 * Pow10(0);
    } else if n >= 10 {
      DecLength(n / 10, k - 1);
      assert n / 10 < Pow10(k) <==> n < 10 * Pow10(k);
    } else {
      DecLength(n, k - 1);
      assert |Dec(n)| == 1 && Pow10(k + 1) == 10 * Pow10(k);
    }
  }

  /** A negative number is printed as a minus sign and its magnitude. */
  lemma DecIntReads(i: int)
    ensures i >= 0 ==> forall c :: c in DecInt(i) ==> IsDecDigit(c)
    ensures i >= 0 ==> NumberOf(DecInt(i)) == i
    ensures i < 0 ==> DecInt(i)[0] == '-' && forall c :: c in DecInt(i)[1..] ==> IsDecDigit(c)
    ensures i < 0 ==> NumberOf(DecInt(i)[1..]) == -i
  {
    DecReads(if i < 0 then -i else i);
    if i < 0 {
      assert DecInt(i)[1..] == Dec(-i);
    }
  }

  /** Different numbers print differently. */
  lemma {:induction false} DecInjective(m: nat, n: nat)
    requires Dec(m) == Dec(n)
    ensures m == n
  {
    var s := Dec(m);
    if m >= 10 && n >= 10 {
      assert Dec(m / 10) == s[..|s| - 1] == Dec(n / 10);
      DecInjective(m / 10, n / 10);
      assert DecDigit(m % 10) == s[|s| - 1] == DecDigit(n % 10);
    } else if m < 10 && n < 10 {
      assert DecDigit(m) == s[0] == DecDigit(n);
    } else {
      assert false;
    }
  }

  lemma DecIntInjective(i: int, j: int)
    requires DecInt(i) == DecInt(j)
    ensures i == j
  {
    DecDigits(if i < 0 then -i else i, 0);
    DecDigits(if j < 0 then -j else j, 0);
    if i < 0 && j < 0 {
      ConcatSplits("-", Dec(-i), "-", Dec(-j));
      DecInjective(-i, -j);
    } else if i >= 0 && j >= 0 {
      DecInjective(i, j);
    } else {
      assert false;
    }
  }

  /** `s.substr(0, n)`: clipped when the string is shorter. */
  function Prefix(s: string, n: nat): (p: string) {
    if n <= |s| then s[..n] else s
  }

  /** Strings of equal length concatenate injectively. */
  lemma ConcatSplits<T>(a: seq<T>, b: seq<T>, c: seq<T>, d: seq<T>)
    requires |a| == |c| && a + b == c + d
    ensures a == c && b == d
  {
    assert a == (a + b)[..|a|] == (c + d)[..|c|] == c;
    assert b == (a + b)[|a|..] == (c + d)[|c|..] == d;
  }

  /** A common suffix length splits too. */
  lemma ConcatSplitsRight<T>(a: seq<T>, b: seq<T>, c: seq<T>, d: seq<T>)
    requires |b| == |d| && a + b == c + d
    ensures a == c && b == d
  {
    assert |a| == |c|;
    ConcatSplits(a, b, c, d);
  }

  ghost predicate NoDup<T(!new)>(s: seq<T>) {
    forall i, j :: 0 <= i < j < |s| ==> s[i] != s[j]
  }

  ghost function Elements<T>(s: seq<T>): set<T> {
    set x | x in s
  }

  lemma NoDupCons<T(!new)>(x: T, s: seq<T>)
    requires NoDup(s) && x !in s
    ensures NoDup([x] + s)
  {
    var t := [x] + s;
    forall i, j | 0 <= i < j < |t| ensures t[i] != t[j] {
      assert t[j] == s[j - 1];
      if i > 0 {
        assert t[i] == s[i - 1];
      }
    }
  }

  lemma ElementsConcat<T>(a: seq<T>, b: seq<T>)
    ensures Elements(a + b) == Elements(a) + Elements(b)
  {
    forall x ensures x in Elements(a + b) <==> x in Elements(a) + Elements(b) {
    }
  }

  /** `std::reverse`. */
  function Reverse<T>(s: seq<T>): (r: seq<T>)
    ensures |r| == |s| && forall i :: 0 <= i < |s| ==> r[i] == s[|s| - 1 - i]
  {
    if s == [] then [] else Reverse(s[1..]) + [s[0]]
  }
}
