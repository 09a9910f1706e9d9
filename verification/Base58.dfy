/** Base58 and Base58Check: big-number base conversion on byte vectors, and the checksum frame. */
module Base58 {
  import opened Text

  const ALPHABET: string :=
    "123456789" + "ABCDEFGH" + "JKLMN" + "PQRSTUVWXYZ" + "abcdefghijk" + "mnopqrstuvwxyz"

  type digit = x: int | 0 <= x < 58

  // ---------------------------------------------------------------------------------------------
  // Positional notation, most significant digit first.

  /** The two bases in use. With constant bases all arithmetic is linear. */
  type Radix = b: int | b == 58 || b == 256 witness 58

  function Times(n: int, base: Radix): int {
    if base == 58 then n * 58 else n * 256
  }

  function Over(n: int, base: Radix): int {
    if base == 58 then n / 58 else n / 256
  }

  function Rest(n: int, base: Radix): int {
    if base == 58 then n % 58 else n % 256
  }

  ghost predicate Digits(s: seq<int>, base: Radix) {
    forall i :: 0 <= i < |s| ==> 0 <= s[i] < base
  }

  ghost function Value(s: seq<int>, base: Radix): (n: int)
    ensures Digits(s, base) ==> n >= 0
  {
    if s == [] then 0 else Times(Value(s[..|s| - 1], base), base) + s[|s| - 1]
  }

  ghost predicate Trimmed(s: seq<int>) {
    s != [] ==> s[0] != 0
  }

  /** The representation of `n` without leading zeros. */
  ghost function Canonical(n: nat, base: Radix): (s: seq<int>) {
    if n == 0 then [] else Canonical(Over(n, base), base) + [Rest(n, base)]
  }

  lemma {:induction false} CanonicalProperties(n: nat, base: Radix)
    ensures Digits(Canonical(n, base), base) && Trimmed(Canonical(n, base))
    ensures Value(Canonical(n, base), base) == n
    ensures Canonical(n, base) == [] <==> n == 0
  {
    if n > 0 {
      CanonicalProperties(Over(n, base), base);
      ValueSplit(Canonical(Over(n, base), base), Rest(n, base), base);
    }
  }

  /** Without leading zeros a representation is determined by its value. */
  lemma {:induction false} CanonicalUnique(s: seq<int>, base: Radix)
    requires Digits(s, base) && Trimmed(s)
    ensures Canonical(Value(s, base), base) == s
    ensures Value(s, base) == 0 <==> s == []
  {
    if s != [] {
      var t, last := s[..|s| - 1], s[|s| - 1];
      assert s == t + [last];
      ValueSplit(t, last, base);
      CanonicalUnique(t, base);
      CanonicalSnoc(t, Value(t, base), last, base);
    }
  }

  /** One more digit. */
  lemma CanonicalSnoc(t: seq<int>, n: nat, d: nat, base: Radix)
    requires Canonical(n, base) == t && d < base && (n > 0 || d > 0)
    ensures Times(n, base) + d > 0 && Canonical(Times(n, base) + d, base) == t + [d]
  {
    OverTimes(n, d, base);
    assert Canonical(Over(Times(n, base) + d, base), base) == t;
  }

  lemma OverTimes(n: int, d: int, base: Radix)
    requires 0 <= d < base
    ensures Over(Times(n, base) + d, base) == n && Rest(Times(n, base) + d, base) == d
  {
  }

  lemma {:induction false} ValueSplit(s: seq<int>, x: int, base: Radix)
    ensures Value(s + [x], base) == Times(Value(s, base), base) + x
  {
    assert (s + [x])[..|s|] == s;
  }

  ghost function Zeros(n: nat): (z: seq<int>)
    ensures |z| == n && forall i :: 0 <= i < n ==> z[i] == 0
  {
    seq(n, i => 0)
  }

  lemma {:induction false} ValueLeadingZeros(z: nat, s: seq<int>, base: Radix)
    ensures Value(Zeros(z) + s, base) == Value(s, base)
    decreases z + |s|
  {
    var t := Zeros(z) + s;
    if s != [] {
      assert t[..|t| - 1] == Zeros(z) + s[..|s| - 1];
      ValueLeadingZeros(z, s[..|s| - 1], base);
    } else if z > 0 {
      assert t[..|t| - 1] == Zeros(z - 1) + [];
      ValueLeadingZeros(z - 1, [], base);
    }
  }

  ghost function LeadingZeros(s: seq<int>): (z: nat)
    ensures z <= |s|
    ensures forall i :: 0 <= i < z ==> s[i] == 0
    ensures z < |s| ==> s[z] != 0
  {
    if s == [] || s[0] != 0 then 0 else 1 + LeadingZeros(s[1..])
  }

  /** Every digit string is its leading zeros followed by the canonical form of its value. */
  lemma SplitZeros(s: seq<int>, base: Radix)
    requires Digits(s, base)
    ensures s == Zeros(LeadingZeros(s)) + Canonical(Value(s, base), base)
    ensures Value(s, base) == 0 <==> LeadingZeros(s) == |s|
  {
    var z := LeadingZeros(s);
    var t := s[z..];
    assert s == Zeros(z) + t;
    ValueLeadingZeros(z, t, base);
    CanonicalUnique(t, base);
  }

  lemma {:induction false} LeadingZerosOf(z: nat, s: seq<int>)
    requires Trimmed(s)
    ensures LeadingZeros(Zeros(z) + s) == z
  {
    if z > 0 {
      LeadingZerosOf(z - 1, s);
      assert (Zeros(z) + s)[1..] == Zeros(z - 1) + s;
    }
  }

  lemma LeadingZerosCounted(s: seq<int>, z: nat)
    requires z <= |s| && forall i :: 0 <= i < z ==> s[i] == 0
    requires z < |s| ==> s[z] != 0
    ensures LeadingZeros(s) == z
  {
    LeadingZerosOf(z, s[z..]);
    assert s == Zeros(z) + s[z..];
  }

  // ---------------------------------------------------------------------------------------------
  // The alphabet.

  /** `ALPHABET.find(c)`. */
  function Position(alphabet: string, c: char): Option<nat> {
    if alphabet == "" then None
    else if alphabet[0] == c then Some(0)
    else match Position(alphabet[1..], c)
         case None => None
         case Some(p) => Some(p + 1)
  }

  ghost predicate Consecutive(s: string, first: char, n: nat) {
    |s| == n && forall i :: 0 <= i < n ==> s[i] as int == first as int + i
  }

  lemma AlphabetRuns()
    ensures Consecutive("123456789", '1', 9)
    ensures Consecutive("ABCDEFGH", 'A', 8)
    ensures Consecutive("JKLMN", 'J', 5)
    ensures Consecutive("PQRSTUVWXYZ", 'P', 11)
    ensures Consecutive("abcdefghijk", 'a', 11)
    ensures Consecutive("mnopqrstuvwxyz", 'm', 14)
  {
  }

  lemma AlphabetIncreases(i: nat)
    requires i < 57
    ensures |ALPHABET| == 58 && ALPHABET[i] < ALPHABET[i + 1]
  {
    AlphabetRuns();
  }

  lemma {:induction false} AlphabetSorted(i: nat, j: nat)
    requires i < j < 58
    ensures |ALPHABET| == 58 && ALPHABET[i] < ALPHABET[j]
    decreases j
  {
    AlphabetIncreases(j - 1);
    if i < j - 1 {
      AlphabetSorted(i, j - 1);
    }
  }

  lemma {:induction false} PositionOf(alphabet: string, i: nat)
    requires i < |alphabet| && forall j :: 0 <= j < i ==> alphabet[j] != alphabet[i]
    ensures Position(alphabet, alphabet[i]) == Some(i)
  {
    if i > 0 {
      PositionOf(alphabet[1..], i - 1);
    }
  }

  lemma {:induction false} PositionFound(alphabet: string, c: char)
    ensures match Position(alphabet, c)
            case None => c !in alphabet
            case Some(p) => p < |alphabet| && alphabet[p] == c
  {
    if alphabet != "" {
      assert alphabet == [alphabet[0]] + alphabet[1..];
      PositionFound(alphabet[1..], c);
    }
  }

  /** Letters and digits correspond one to one. */
  lemma LetterOf(d: digit)
    ensures |ALPHABET| == 58 && Position(ALPHABET, ALPHABET[d]) == Some(d)
  {
    forall j | 0 <= j < d ensures ALPHABET[j] != ALPHABET[d] {
      AlphabetSorted(j, d);
    }
    PositionOf(ALPHABET, d);
  }

  ghost function Letters(ds: seq<int>): (s: string)
    requires Digits(ds, 58)
    ensures |s| == |ds|
  {
    seq(|ds|, i requires 0 <= i < |ds| => ALPHABET[ds[i]])
  }

  ghost predicate InAlphabet(s: string) {
    forall i :: 0 <= i < |s| ==> Position(ALPHABET, s[i]).Some?
  }

  ghost function Positions(s: string): (ds: seq<int>)
    requires InAlphabet(s)
    ensures |ds| == |s| && Digits(ds, 58)
    ensures forall i :: 0 <= i < |s| ==> ds[i] == Position(ALPHABET, s[i]).value
  {
    assert forall i :: 0 <= i < |s| ==> Position(ALPHABET, s[i]).value < 58 by {
      forall i | 0 <= i < |s| ensures Position(ALPHABET, s[i]).value < 58 {
        PositionFound(ALPHABET, s[i]);
      }
    }
    seq(|s|, i requires 0 <= i < |s| => Position(ALPHABET, s[i]).value)
  }

  lemma PositionsOfLetters(ds: seq<int>)
    requires Digits(ds, 58)
    ensures InAlphabet(Letters(ds)) && Positions(Letters(ds)) == ds
  {
    forall i | 0 <= i < |ds| ensures Position(ALPHABET, Letters(ds)[i]) == Some(ds[i]) {
      LetterOf(ds[i]);
    }
  }

  lemma LettersOfPositions(s: string)
    requires InAlphabet(s)
    ensures Letters(Positions(s)) == s
  {
    forall i | 0 <= i < |s| ensures ALPHABET[Positions(s)[i]] == s[i] {
      PositionFound(ALPHABET, s[i]);
    }
  }

  lemma OneIsZero(c: char)
    ensures c == '1' <==> Position(ALPHABET, c) == Some(0)
  {
    LetterOf(0);
    PositionFound(ALPHABET, c);
  }

  // ---------------------------------------------------------------------------------------------
  // What encoding and decoding compute.

  /** The digits produced by the division loop: one superfluous zero for an all-zero non-empty vector. */
  ghost function Quotients(data: seq<int>): (ds: seq<int>)
    requires Digits(data, 256)
    ensures Digits(ds, 58)
  {
    if data != [] && Value(data, 256) == 0 then [0]
    else CanonicalProperties(Value(data, 256), 58); Canonical(Value(data, 256), 58)
  }

  ghost function Encoded(data: seq<int>): string
    requires Digits(data, 256)
  {
    Letters(Zeros(LeadingZeros(data)) + Quotients(data))
  }

  ghost function Decoded(s: string): Option<seq<int>> {
    if InAlphabet(s) then
      Some(Zeros(LeadingZeros(Positions(s))) + Canonical(Value(Positions(s), 58), 256))
    else None
  }

  ghost predicate HasNonZero(data: seq<int>) {
    exists i :: 0 <= i < |data| && data[i] != 0
  }

  ghost predicate HasNonOne(s: string) {
    exists i :: 0 <= i < |s| && s[i] != '1'
  }

  lemma AllZero(s: seq<int>, base: Radix)
    requires Digits(s, base)
    ensures HasNonZero(s) <==> Value(s, base) != 0
  {
    SplitZeros(s, base);
  }

  /** Decoding the letters of any digits. */
  lemma DecodeLetters(z: nat, q: seq<int>)
    requires Digits(q, 58) && Trimmed(q)
    ensures Decoded(Letters(Zeros(z) + q)) == Some(Zeros(z) + Canonical(Value(q, 58), 256))
  {
    PositionsOfLetters(Zeros(z) + q);
    LeadingZerosOf(z, q);
    ValueLeadingZeros(z, q, 58);
  }

  /** The round trip of a vector with a non-zero byte. */
  lemma DecodeEncodeNonZero(data: seq<byte>)
    requires Value(data, 256) != 0
    ensures Decoded(Encoded(data)) == Some(data)
  {
    CanonicalProperties(Value(data, 256), 58);
    DecodeLetters(LeadingZeros(data), Quotients(data));
    SplitZeros(data, 256);
  }

  /** What a run of '1' decodes to. */
  lemma DecodeOnes(n: nat)
    ensures Decoded(Letters(Zeros(n))) == Some(Zeros(n))
  {
    assert Zeros(n) + [] == Zeros(n);
    DecodeLetters(n, []);
  }

  /** The digits of a vector of zeros. */
  lemma ZeroDigits(data: seq<byte>)
    requires Value(data, 256) == 0
    ensures LeadingZeros(data) == |data| && Quotients(data) == if data == [] then [] else [0]
    ensures data == Zeros(|data|)
  {
    SplitZeros(data, 256);
  }

  lemma OneMoreZero(n: nat)
    ensures Zeros(n) + [0] == Zeros(n + 1) == [0] + Zeros(n)
  {
  }

  /** A vector of zeros comes back with one zero more, unless it is empty. */
  lemma DecodeEncodeZero(data: seq<byte>)
    requires Value(data, 256) == 0
    ensures Decoded(Encoded(data)) == Some(if data == [] then [] else [0] + data)
  {
    var n := |data|;
    ZeroDigits(data);
    OneMoreZero(n);
    DecodeOnes(if n == 0 then 0 else n + 1);
    assert Zeros(0) + [] == Zeros(0);
  }

  /** Decoding undoes encoding exactly on the vectors that are empty or hold a non-zero byte. */
  lemma DecodeEncode(data: seq<byte>)
    ensures Decoded(Encoded(data)) == Some(data) <==> data == [] || HasNonZero(data)
    ensures data != [] && !HasNonZero(data) ==> Decoded(Encoded(data)) == Some([0] + data)
  {
    AllZero(data, 256);
    if Value(data, 256) != 0 {
      DecodeEncodeNonZero(data);
    } else {
      DecodeEncodeZero(data);
    }
  }

  lemma DecodedIsBytes(s: string)
    requires Decoded(s).Some?
    ensures Digits(Decoded(s).value, 256)
  {
    CanonicalProperties(Value(Positions(s), 58), 256);
  }

  /** Encoding undoes decoding exactly on the strings that are empty or hold a character other than '1'. */
  lemma EncodeDecode(s: string)
    requires InAlphabet(s)
    ensures Decoded(s).Some? && Digits(Decoded(s).value, 256)
    ensures Encoded(Decoded(s).value) == s <==> s == "" || HasNonOne(s)
  {
    var ds := Positions(s);
    var z, n := LeadingZeros(ds), Value(ds, 58);
    var data := Decoded(s).value;
    DecodedIsBytes(s);
    SplitZeros(ds, 58);
    AllZero(ds, 58);
    LettersOfPositions(s);
    forall i | 0 <= i < |s| ensures s[i] == '1' <==> ds[i] == 0 {
      OneIsZero(s[i]);
    }
    CanonicalProperties(n, 256);
    LeadingZerosOf(z, Canonical(n, 256));
    ValueLeadingZeros(z, Canonical(n, 256), 256);
    if s != "" && n == 0 {
      assert |Encoded(data)| == |s| + 1;
    } else {
      assert Zeros(LeadingZeros(data)) + Quotients(data) == ds;
    }
  }

  /** No two byte vectors share an encoding. */
  lemma EncodeInjective(d: seq<byte>, e: seq<byte>)
    requires Encoded(d) == Encoded(e)
    ensures d == e
  {
    DecodeEncode(d);
    DecodeEncode(e);
    if d != [] && !HasNonZero(d) && e != [] && !HasNonZero(e) {
      assert d == ([0] + d)[1..] == ([0] + e)[1..] == e;
    }
  }

  // ---------------------------------------------------------------------------------------------
  // Which characters there are, and what they stand for.

  lemma RunMembers(s: string, first: char, n: nat, c: char)
    requires Consecutive(s, first, n)
    ensures c in s <==> first as int <= c as int < first as int + n
  {
    if first as int <= c as int < first as int + n {
      assert s[c as int - first as int] == c;
    }
  }

  lemma InRuns(c: char)
    ensures c in ALPHABET <==> c in "123456789" || c in "ABCDEFGH" || c in "JKLMN" || c in "PQRSTUVWXYZ"
                               || c in "abcdefghijk" || c in "mnopqrstuvwxyz"
  {
    var a, b, d := "123456789", "ABCDEFGH", "JKLMN";
    var e, f, g := "PQRSTUVWXYZ", "abcdefghijk", "mnopqrstuvwxyz";
    assert ALPHABET == a + b + d + e + f + g;
    assert c in a + b + d + e + f + g <==> c in a + b + d + e + f || c in g;
    assert c in a + b + d + e + f <==> c in a + b + d + e || c in f;
    assert c in a + b + d + e <==> c in a + b + d || c in e;
  }

  /** A character is decoded exactly if it is a digit or a letter other than '0', 'I', 'O' and 'l'. */
  lemma LettersExactly(c: char)
    ensures Decoded([c]).Some? <==>
            '1' <= c <= '9' || ('A' <= c <= 'Z' && c != 'I' && c != 'O') || ('a' <= c <= 'z' && c != 'l')
  {
    assert Decoded([c]).Some? <==> Position(ALPHABET, c).Some? by {
      assert InAlphabet([c]) <==> Position(ALPHABET, [c][0]).Some?;
    }
    PositionFound(ALPHABET, c);
    InRuns(c);
    AlphabetRuns();
    RunMembers("123456789", '1', 9, c);
    RunMembers("ABCDEFGH", 'A', 8, c);
    RunMembers("JKLMN", 'J', 5, c);
    RunMembers("PQRSTUVWXYZ", 'P', 11, c);
    RunMembers("abcdefghijk", 'a', 11, c);
    RunMembers("mnopqrstuvwxyz", 'm', 14, c);
  }

  /** Greater characters stand for greater digits. */
  lemma LettersInOrder(c: char, d: char)
    requires Position(ALPHABET, c).Some? && Position(ALPHABET, d).Some?
    ensures Position(ALPHABET, c).value < Position(ALPHABET, d).value <==> c < d
  {
    PositionFound(ALPHABET, c);
    PositionFound(ALPHABET, d);
    var i, j := Position(ALPHABET, c).value, Position(ALPHABET, d).value;
    assert |ALPHABET| == 58;
    if i < j {
      AlphabetSorted(i, j);
    } else if j < i {
      AlphabetSorted(j, i);
    }
  }

  lemma OneByte(b: byte)
    ensures Digits([b], 256) && Value([b], 256) == b
    ensures b != 0 ==> LeadingZeros([b]) == 0 && Quotients([b]) == Canonical(b, 58)
  {
    assert [b][..0] == [];
  }

  lemma TwoBytes(a: byte, b: byte)
    requires a != 0
    ensures Digits([a, b], 256) && LeadingZeros([a, b]) == 0
    ensures Quotients([a, b]) == Canonical((a as int) * 256 + b, 58)
  {
    OneByte(a);
    assert [a, b][..1] == [a];
  }

  lemma LettersOfTwo(d: digit, e: digit)
    ensures Letters(Zeros(0) + [d]) == [ALPHABET[d]] && Letters(Zeros(0) + [d, e]) == [ALPHABET[d], ALPHABET[e]]
  {
  }

  lemma EncodedByte(b: byte, d: digit)
    requires b == d != 0
    ensures Encoded([b]) == [ALPHABET[d]]
  {
    OneByte(b);
    OneDigit(d);
    LettersOfTwo(d, 0);
  }

  lemma EncodedFiftyEight(b: byte)
    requires b == 58
    ensures Encoded([b]) == [ALPHABET[1], ALPHABET[0]]
  {
    OneByte(b);
    TwoDigits(58, 1, 0);
    LettersOfTwo(1, 0);
  }

  lemma EncodedTwoBytes(b: byte)
    requires b == 1
    ensures Encoded([b, 0]) == [ALPHABET[4], ALPHABET[24]]
  {
    TwoBytes(b, 0);
    TwoDigits(256, 4, 24);
    LettersOfTwo(4, 24);
  }

  /** The digits from 0 to 57 stand for '1' to 'z', and numbers are read with the most significant digit first. */
  lemma EncodedExamples(b: byte)
    ensures b == 57 ==> Encoded([b]) == "z"
    ensures b == 58 ==> Encoded([b]) == "21"
    ensures b == 1 ==> Encoded([b, 0]) == "5R"
  {
    if b == 57 {
      EncodedByte(b, 57);
    } else if b == 58 {
      EncodedFiftyEight(b);
    } else if b == 1 {
      EncodedTwoBytes(b);
    }
  }

  lemma OneDigit(n: nat)
    requires 0 < n < 58
    ensures Canonical(n, 58) == [n]
  {
    assert Canonical(Over(n, 58), 58) == [];
  }

  lemma TwoDigits(n: nat, d: nat, e: nat)
    requires n == d * 58 + e && 0 < d < 58 && e < 58
    ensures Canonical(n, 58) == [d, e]
  {
    OneDigit(d);
    assert Over(n, 58) == d && Rest(n, 58) == e;
  }

  // ---------------------------------------------------------------------------------------------
  // The loops.

  /** Neither cast of the division loop loses value. */
  lemma CastsAreExact(rem: digit, b: byte)
    ensures var cur: int := (rem as int) * 256 + b;
      0 <= cur / 58 < 256 && 0 <= cur % 58 < 58 && cur == (cur / 58) * 58 + cur % 58
  {
  }

  lemma DivideStep(v: int, n: int, rem: int, b: int, q: int, r: int)
    requires v == n * 58 + rem && rem * 256 + b == q * 58 + r
    ensures v * 256 + b == (n * 256 + q) * 58 + r
  {
  }

  /** The quotient byte is kept unless it would be a leading zero. */
  ghost predicate OneByteDivided(next0: seq<byte>, rem0: digit, b: byte, next: seq<byte>, rem: digit) {
    exists q: byte ::
      rem0 * 256 + b == q * 58 + rem && next == if next0 != [] || q > 0 then next0 + [q] else next0
  }

  /** One byte of the division. */
  lemma DivideByte(tmp: seq<byte>, i: nat, next0: seq<byte>, rem0: digit, next: seq<byte>, rem: digit)
    requires i < |tmp| && Value(tmp[..i], 256) == Value(next0, 256) * 58 + rem0 && Trimmed(next0)
    requires OneByteDivided(next0, rem0, tmp[i], next, rem)
    ensures Value(tmp[..i + 1], 256) == Value(next, 256) * 58 + rem
    ensures Trimmed(next) && |next| <= |next0| + 1
  {
    var q: byte :|
      rem0 * 256 + tmp[i] == q * 58 + rem && next == if next0 != [] || q > 0 then next0 + [q] else next0;
    assert tmp[..i + 1] == tmp[..i] + [tmp[i]];
    ValueSplit(tmp[..i], tmp[i], 256);
    QuotientGrown(next0, q, next);
    DivideStep(Value(tmp[..i], 256), Value(next0, 256), rem0, tmp[i], q, rem);
  }

  lemma QuotientGrown(next0: seq<byte>, q: byte, next: seq<byte>)
    requires Trimmed(next0) && next == if next0 != [] || q > 0 then next0 + [q] else next0
    ensures Trimmed(next) && |next| <= |next0| + 1 && Value(next, 256) == Value(next0, 256) * 256 + q
  {
    if next0 != [] || q > 0 {
      ValueSplit(next0, q, 256);
    }
  }

  /** The body of the loop in `Divide`. */
  method DivideOne(next0: seq<byte>, rem0: digit, b: byte) returns (next: seq<byte>, rem: digit)
    ensures OneByteDivided(next0, rem0, b, next, rem)
  {
    var cur: int := (rem0 as int) * 256 + b;
    CastsAreExact(rem0, b);
    next := next0;
    if next != [] || cur / 58 > 0 {
      next := next + [(cur / 58) % 256];
    }
    rem := cur % 58;
  }

  /** One pass of long division by 58: neither byte cast loses value. */
  method Divide(tmp: seq<byte>) returns (next: seq<byte>, rem: digit)
    ensures Value(tmp, 256) == Value(next, 256) * 58 + rem
    ensures Trimmed(next) && |next| <= |tmp|
  {
    rem := 0;
    next := [];
    for i := 0 to |tmp|
      invariant Value(tmp[..i], 256) == Value(next, 256) * 58 + rem
      invariant Trimmed(next) && |next| <= i
    {
      ghost var before, was := next, rem;
      next, rem := DivideOne(next, rem, tmp[i]);
      DivideByte(tmp, i, before, was, next, rem);
    }
    assert tmp[..|tmp|] == tmp;
  }

  lemma QuotientsOfPositive(data: seq<byte>, n: nat)
    requires n > 0 && Value(data, 256) == n
    ensures Quotients(data) == Canonical(n, 58)
  {
  }

  lemma CanonicalStep(n: nat, rem: digit)
    requires n * 58 + rem > 0
    ensures Canonical(n * 58 + rem, 58) == Canonical(n, 58) + [rem]
  {
    OverTimes(n, rem, 58);
  }

  /** A quotient without leading zeros that is not empty is positive. */
  lemma QuotientsOfTrimmed(next: seq<byte>, n: int)
    requires Trimmed(next) && Value(next, 256) == n
    ensures n >= 0 && (n == 0 <==> next == []) && Quotients(next) == Canonical(n, 58)
  {
    assert Digits(next, 256);
    CanonicalUnique(next, 256);
  }

  /** The remainder is the last digit, and the quotient yields the others. */
  lemma LastDigit(tmp: seq<byte>, next: seq<byte>, rem: digit)
    requires tmp != [] && Trimmed(next) && Value(tmp, 256) == Value(next, 256) * 58 + rem
    ensures Quotients(tmp) == Quotients(next) + [rem]
    ensures 0 <= Value(next, 256) < Value(tmp, 256) || (Value(tmp, 256) == 0 && next == [])
  {
    var n := Value(next, 256);
    QuotientsOfTrimmed(next, n);
    QuotientsOfNext(tmp, n, rem);
  }

  lemma QuotientsOfNext(tmp: seq<byte>, n: nat, rem: digit)
    requires tmp != [] && Value(tmp, 256) == n * 58 + rem
    ensures Quotients(tmp) == Canonical(n, 58) + [rem]
  {
    if n * 58 + rem > 0 {
      QuotientsOfPositive(tmp, n * 58 + rem);
      CanonicalStep(n, rem);
    }
  }

  lemma QuotientStep(tmp: seq<byte>, next: seq<byte>, rem: digit, ds: seq<int>)
    requires tmp != [] && Trimmed(next) && Value(tmp, 256) == Value(next, 256) * 58 + rem
    ensures Quotients(tmp) + ds == Quotients(next) + ([rem] + ds)
    ensures 0 <= Value(next, 256) < Value(tmp, 256) || (Value(tmp, 256) == 0 && next == [])
  {
    LastDigit(tmp, next, rem);
    MoveBracket(Quotients(next), rem, ds);
  }

  lemma MoveBracket(a: seq<int>, x: int, b: seq<int>)
    ensures (a + [x]) + b == a + ([x] + b)
  {
  }

  /** Read backwards, `result` is the text of the digits `ds`. */
  ghost predicate Spells(result: string, ds: seq<int>) {
    Digits(ds, 58) && Reverse(result) == Letters(ds)
  }

  /** `result += ALPHABET[rem]` prepends a digit to the reversed text. */
  lemma AppendLetter(result: string, ds: seq<int>, rem: digit)
    requires Spells(result, ds)
    ensures Spells(result + [ALPHABET[rem]], [rem] + ds)
  {
    var r := Reverse(result + [ALPHABET[rem]]);
    forall i | 0 <= i < |r| ensures r[i] == Letters([rem] + ds)[i] {
      if i > 0 {
        assert r[i] == Reverse(result)[i - 1] == Letters(ds)[i - 1];
      }
    }
  }

  lemma AppendOnes(result: string, ds: seq<int>, zeros: nat)
    requires Spells(result, ds)
    ensures Reverse(result + seq(zeros, i => '1')) == Letters(Zeros(zeros) + ds)
  {
    var r := Reverse(result + seq(zeros, i => '1'));
    var l := Letters(Zeros(zeros) + ds);
    OneIsZero('1');
    PositionFound(ALPHABET, '1');
    forall i | 0 <= i < |r| ensures r[i] == l[i] {
      if i >= zeros {
        assert r[i] == Reverse(result)[i - zeros] == Letters(ds)[i - zeros];
      }
    }
  }

  /** The outer loop of `encode`: divide until nothing is left, emitting the remainders. */
  method DivideOut(data: seq<byte>) returns (result: string)
    ensures Spells(result, Quotients(data))
  {
    var tmp := data;
    result := "";
    ghost var ds: seq<int> := [];
    while tmp != []
      invariant Spells(result, ds)
      invariant Quotients(data) == Quotients(tmp) + ds
      decreases Value(tmp, 256), |tmp|
    {
      var next, rem := Divide(tmp);
      QuotientStep(tmp, next, rem, ds);
      AppendLetter(result, ds, rem);
      result := result + [ALPHABET[rem]];
      ds := [rem] + ds;
      tmp := next;
    }
    assert Quotients([]) + ds == ds;
  }

  method Encode(data: seq<byte>) returns (result: string)
    ensures result == Encoded(data)
  {
    var zeros := 0;
    while zeros < |data| && data[zeros] == 0
      invariant zeros <= |data|
      invariant forall i :: 0 <= i < zeros ==> data[i] == 0
    {
      zeros := zeros + 1;
    }
    LeadingZerosCounted(data, zeros);
    result := DivideOut(data);
    AppendOnes(result, Quotients(data), zeros);
    result := result + seq(zeros, i => '1');
    result := Reverse(result);
  }

  /** One multiply-and-add pass over the bytes, least significant first, with its final carry. */
  ghost function MulAdd(s: seq<byte>, carry: digit): (r: seq<byte>) {
    if s == [] then (if carry == 0 then [] else [carry])
    else
      var last: int := s[|s| - 1];
      var t: int := carry + 58 * last;
      MulAdd(s[..|s| - 1], t / 256) + [t % 256]
  }

  lemma CarryStep(v: int, last: int, carry: int)
    ensures var t := carry + 58 * last;
      (v * 58 + t / 256) * 256 + t % 256 == (v * 256 + last) * 58 + carry
  {
  }

  lemma {:induction false} MulAddProperties(s: seq<byte>, carry: digit)
    ensures Value(MulAdd(s, carry), 256) == Value(s, 256) * 58 + carry
  {
    if s == [] {
      ValueSplit([], carry, 256);
      assert [] + [carry] == [carry];
    } else {
      var last: int := s[|s| - 1];
      var t: int := carry + 58 * last;
      var before := s[..|s| - 1];
      MulAddProperties(before, t / 256);
      ValueSplit(MulAdd(before, t / 256), t % 256, 256);
      CarryStep(Value(before, 256), last, carry);
    }
  }

  lemma {:induction false} MulAddTrimmed(s: seq<byte>, carry: digit)
    ensures |MulAdd(s, carry)| >= |s|
    ensures Trimmed(s) ==> Trimmed(MulAdd(s, carry))
  {
    if s != [] {
      var last: int := s[|s| - 1];
      var t: int := carry + 58 * last;
      MulAddTrimmed(s[..|s| - 1], t / 256);
    }
  }

  /** The in-place pass of `decode`: no byte cast loses value and the carry never exceeds 57. */
  method MultiplyAdd(bytes: seq<byte>, pos: digit) returns (result: seq<byte>)
    ensures result == MulAdd(bytes, pos)
  {
    result := bytes;
    assert bytes[..|bytes|] == bytes;
    var carry: int := pos;
    var it := |result|;
    while it > 0
      invariant 0 <= it <= |result| == |bytes|
      invariant 0 <= carry < 58
      invariant result[..it] == bytes[..it]
      invariant MulAdd(bytes, pos) == MulAdd(bytes[..it], carry) + result[it..]
    {
      assert bytes[..it][..it - 1] == bytes[..it - 1];
      it := it - 1;
      var last: int := result[it];
      carry := carry + 58 * last;
      result := result[it := carry % 256];
      carry := carry / 256;
    }
    while carry != 0
      invariant 0 <= carry < 58
      invariant MulAdd(bytes, pos) == MulAdd([], carry) + result
      decreases carry
    {
      result := [carry % 256] + result;
      carry := carry / 256;
    }
  }

  /** `None` stands for the exception thrown on a character outside the alphabet. */
  method Decode(encoded: string) returns (result: Option<seq<byte>>)
    ensures match Decoded(encoded)
            case None => result == None
            case Some(d) => result.Some? && result.value == d
  {
    var zeros := 0;
    while zeros < |encoded| && encoded[zeros] == '1'
      invariant zeros <= |encoded|
      invariant forall i :: 0 <= i < zeros ==> encoded[i] == '1'
    {
      zeros := zeros + 1;
    }

    var bytes: seq<byte> := [];
    for i := 0 to |encoded|
      invariant InAlphabet(encoded[..i])
      invariant Trimmed(bytes)
      invariant Value(bytes, 256) == Value(Positions(encoded[..i]), 58)
    {
      var pos := Position(ALPHABET, encoded[i]);
      PositionFound(ALPHABET, encoded[i]);
      if pos == None {
        return None;
      }
      ReadLetter(encoded, i, pos.value);
      MulAddProperties(bytes, pos.value);
      MulAddTrimmed(bytes, pos.value);
      bytes := MultiplyAdd(bytes, pos.value);
    }
    assert encoded[..|encoded|] == encoded;
    CanonicalUnique(bytes, 256);
    CountOnes(encoded, zeros);
    result := Some(seq(zeros, i => 0) + bytes);
  }

  lemma ReadLetter(s: string, i: nat, pos: digit)
    requires i < |s| && InAlphabet(s[..i]) && Position(ALPHABET, s[i]) == Some(pos)
    ensures InAlphabet(s[..i + 1])
    ensures Value(Positions(s[..i + 1]), 58) == Value(Positions(s[..i]), 58) * 58 + pos
  {
    assert s[..i + 1] == s[..i] + [s[i]];
    assert Positions(s[..i + 1]) == Positions(s[..i]) + [pos];
    ValueSplit(Positions(s[..i]), pos, 58);
  }

  lemma CountOnes(s: string, zeros: nat)
    requires InAlphabet(s) && zeros <= |s|
    requires forall i :: 0 <= i < zeros ==> s[i] == '1'
    requires zeros < |s| ==> s[zeros] != '1'
    ensures LeadingZeros(Positions(s)) == zeros
  {
    var ds := Positions(s);
    forall i | 0 <= i < |s| ensures s[i] == '1' <==> ds[i] == 0 {
      OneIsZero(s[i]);
    }
    LeadingZerosCounted(ds, zeros);
  }
}
