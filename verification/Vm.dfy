/** The gas-metered bytecode interpreter. */
module Vm {
  import opened Text

  const OP_SHA256: byte := 0x30
  const OP_SSTORE: byte := 0x40
  const OP_SLOAD: byte := 0x41
  const OP_HALT: byte := 0x62
  const OP_REVERT: byte := 0x63

  /** `opcodeGasCost`. */
  function GasCost(op: byte): (cost: nat)
    ensures 1 <= cost <= 200
  {
    if op == 0x01 || op == 0x02 || op == 0x03 then 1        // PUSH, POP, DUP
    else if op == 0x10 || op == 0x11 || op == 0x12 then 3   // ADD, SUB, MUL
    else if op == 0x13 || op == 0x14 then 5                 // DIV, MOD
    else if op == 0x30 || op == 0x31 then 30                // SHA256, HASH
    else if op == 0x40 then 200                             // SSTORE
    else if op == 0x41 then 50                              // SLOAD
    else if op == 0x70 then 100                             // TRANSFER
    else if op == 0x80 then 75                              // LOG
    else 1
  }

  class GasMeter {
    const limit: u64
    var used: u64

    constructor (limit: u64)
      ensures this.limit == limit && used == 0
    {
      this.limit := limit;
      used := 0;
    }

    /** The sum is taken in 64 bits. */
    method Consume(amount: u64) returns (ok: bool)
      modifies this
      ensures ok <==> Wrap64(old(used) + amount) <= limit
      ensures used == if ok then Wrap64(old(used) + amount) else old(used)
    {
      if Wrap64(used + amount) > limit {
        return false;
      }
      used := Wrap64(used + amount);
      ok := true;
    }
  }

  /** The machine; the top of the stack is the last element. */
  datatype VMState = VMState(stack: seq<string>, storage: map<string, string>, gasUsed: nat, gasLimit: nat,
                             halted: bool, reverted: bool)

  ghost predicate Stops(op: byte) {
    op == OP_HALT || op == OP_REVERT
  }

  /** The effect of one affordable instruction on a running machine. */
  function Effect(hash: Hash, s: VMState, op: byte): VMState {
    var n := |s.stack|;
    if op == OP_HALT then s.(halted := true)
    else if op == OP_REVERT then s.(reverted := true)
    else if op == OP_SHA256 then
      if n > 0 then s.(stack := s.stack[..n - 1] + [hash(s.stack[n - 1])]) else s
    else if op == OP_SSTORE then
      if n >= 2 then s.(stack := s.stack[..n - 2], storage := s.storage[s.stack[n - 2] := s.stack[n - 1]]) else s
    else if op == OP_SLOAD then
      if n > 0 then
        s.(stack := s.stack[..n - 1] + [if s.stack[n - 1] in s.storage then s.storage[s.stack[n - 1]] else ""])
      else s
    else s
  }

  ghost function Start(input: string, gasLimit: nat): VMState {
    VMState(if input != "" then [input] else [], map[], 0, gasLimit, false, false)
  }

  // ---------------------------------------------------------------------------------------------
  // The gas requirement of a program.

  /** The instructions that can ever run: up to and including the first HALT or REVERT. */
  ghost function Live(code: seq<byte>): seq<byte> {
    if code == [] then []
    else if Stops(code[0]) then [code[0]]
    else [code[0]] + Live(code[1..])
  }

  ghost function Cost(code: seq<byte>): nat {
    if code == [] then 0 else Cost(code[..|code| - 1]) + GasCost(code[|code| - 1])
  }

  ghost function Requirement(code: seq<byte>): nat {
    Cost(Live(code))
  }

  /** The machine after some instructions, gas aside. */
  ghost function AfterCode(hash: Hash, s: VMState, code: seq<byte>): VMState {
    if code == [] then s else Effect(hash, AfterCode(hash, s, code[..|code| - 1]), code[|code| - 1])
  }

  /** The length of the longest prefix of `code` that `limit` pays for. */
  ghost function Affordable(code: seq<byte>, limit: nat): (n: nat)
    ensures n <= |code| && Cost(code[..n]) <= limit
    ensures n < |code| ==> Cost(code[..n + 1]) > limit
    ensures Cost(code) <= limit ==> n == |code|
  {
    if code == [] then 0
    else
      var before := code[..|code| - 1];
      assert code[..|code|] == code;
      if Cost(code) <= limit then |code|
      else
        var n := Affordable(before, limit);
        assert before[..n] == code[..n];
        assert n < |before| ==> before[..n + 1] == code[..n + 1];
        n
  }

  /** The 64-bit meter after the first `i` instructions. */
  ghost function Meter(code: seq<byte>, i: nat): u64
    requires i <= |code|
  {
    Wrap64(Cost(code[..i]))
  }

  /** The meter refuses the `i`-th instruction. */
  ghost predicate Refused(code: seq<byte>, limit: nat, i: nat)
    requires i < |code|
  {
    Meter(code, i + 1) > limit
  }

  /** How many instructions the meter lets through, from the `i`-th on. */
  ghost function Admitted(code: seq<byte>, limit: nat, i: nat): (n: nat)
    requires i <= |code|
    ensures i <= n <= |code| && (n < |code| ==> Refused(code, limit, n))
    ensures forall j :: i <= j < n ==> !Refused(code, limit, j)
    decreases |code| - i
  {
    if i == |code| || Refused(code, limit, i) then i else Admitted(code, limit, i + 1)
  }

  /** What an execution yields, as a function of the live code and the limit. */
  ghost function Outcome(hash: Hash, code: seq<byte>, input: string, gasLimit: nat): VMState {
    var live := Live(code);
    var n := Admitted(live, gasLimit, 0);
    var s := AfterCode(hash, Start(input, gasLimit), live[..n]);
    s.(gasUsed := Meter(live, n), reverted := s.reverted || n < |live|)
  }

  lemma AdmittedIs(code: seq<byte>, limit: nat, n: nat)
    requires n <= |code| && forall j :: 0 <= j < n ==> !Refused(code, limit, j)
    requires n < |code| ==> Refused(code, limit, n)
    ensures Admitted(code, limit, 0) == n
  {
  }

  lemma PrefixWithin(code: seq<byte>, i: nat)
    requires i <= |code|
    ensures Cost(code[..i]) <= Cost(code)
  {
    assert code[..|code|] == code;
    CostMonotone(code, i, |code|);
  }

  /** A limit that covers the whole code lets all of it through. */
  lemma AllAdmitted(code: seq<byte>, limit: u64)
    requires Cost(code) <= limit
    ensures Admitted(code, limit, 0) == |code| && Meter(code, |code|) == Cost(code)
  {
    forall j | 0 <= j < |code| ensures !Refused(code, limit, j) {
      PrefixWithin(code, j + 1);
    }
    AdmittedIs(code, limit, |code|);
    assert code[..|code|] == code;
  }

  /** Prefixes within the limit are let through. */
  lemma NotRefused(code: seq<byte>, limit: u64, j: nat, n: nat)
    requires j < n <= |code| && Cost(code[..n]) <= limit
    ensures !Refused(code, limit, j)
  {
    CostMonotone(code, j + 1, n);
  }

  /** The meter stops at the first prefix the limit does not pay for if and only if that prefix costs less than 2^64. */
  lemma AdmittedExactly(code: seq<byte>, limit: u64, n: nat)
    requires limit < Cost(code) && n == Affordable(code, limit)
    ensures n < |code| && (Admitted(code, limit, 0) == n <==> Cost(code[..n + 1]) < U64)
  {
    assert code[..|code|] == code;
    forall j | 0 <= j < n ensures !Refused(code, limit, j) {
      NotRefused(code, limit, j, n);
    }
    CostStep(code, n);
    if Cost(code[..n + 1]) < U64 {
      AdmittedIs(code, limit, n);
    } else {
      assert Meter(code, n + 1) == Cost(code[..n + 1]) - U64;
    }
  }

  lemma {:induction false} CostMonotone(code: seq<byte>, i: nat, j: nat)
    requires i <= j <= |code|
    ensures Cost(code[..i]) <= Cost(code[..j])
    ensures i < j ==> Cost(code[..i]) < Cost(code[..j])
  {
    if i < j {
      CostMonotone(code, i, j - 1);
      assert code[..j][..j - 1] == code[..j - 1];
    }
  }

  lemma {:induction false} LiveProperties(code: seq<byte>)
    ensures |Live(code)| <= |code| && Live(code) == code[..|Live(code)|]
    ensures forall i :: 0 <= i < |Live(code)| - 1 ==> !Stops(Live(code)[i])
    ensures |Live(code)| < |code| ==> Live(code) != [] && Stops(Live(code)[|Live(code)| - 1])
  {
    if code != [] && !Stops(code[0]) {
      LiveProperties(code[1..]);
    }
  }

  lemma GasIsInvisibleOnce(hash: Hash, s: VMState, op: byte, used: nat, limit: nat)
    ensures Effect(hash, s.(gasUsed := used, gasLimit := limit), op) ==
            Effect(hash, s, op).(gasUsed := used, gasLimit := limit)
  {
  }

  /** Gas fields never influence an instruction. */
  lemma {:induction false} GasIsInvisible(hash: Hash, s: VMState, code: seq<byte>, used: nat, limit: nat)
    ensures AfterCode(hash, s.(gasUsed := used, gasLimit := limit), code) ==
            AfterCode(hash, s, code).(gasUsed := used, gasLimit := limit)
  {
    if code != [] {
      var before := code[..|code| - 1];
      GasIsInvisible(hash, s, before, used, limit);
      GasIsInvisibleOnce(hash, AfterCode(hash, s, before), code[|code| - 1], used, limit);
    }
  }

  lemma EffectStaysSmall(hash: Hash, s: VMState, op: byte)
    requires |s.stack| <= 1 && s.storage == map[]
    ensures var t := Effect(hash, s, op);
      && |t.stack| == |s.stack| && t.storage == map[]
      && (t.halted <==> s.halted || op == OP_HALT) && (t.reverted <==> s.reverted || op == OP_REVERT)
  {
  }

  /** With one input at most, the stack never grows beyond one element and nothing is ever stored. */
  lemma {:induction false} StackStaysSmall(hash: Hash, input: string, gasLimit: nat, code: seq<byte>)
    ensures var s := AfterCode(hash, Start(input, gasLimit), code);
      && |s.stack| == (if input == "" then 0 else 1)
      && s.storage == map[]
      && (s.halted ==> OP_HALT in code) && (s.reverted ==> OP_REVERT in code)
  {
    if code != [] {
      var before, op := code[..|code| - 1], code[|code| - 1];
      StackStaysSmall(hash, input, gasLimit, before);
      EffectStaysSmall(hash, AfterCode(hash, Start(input, gasLimit), before), op);
      assert code == before + [op];
    }
  }

  /** With enough gas all live code runs. */
  lemma AllRuns(hash: Hash, code: seq<byte>, input: string, limit: u64)
    requires limit >= Requirement(code)
    ensures Outcome(hash, code, input, limit) ==
            AfterCode(hash, Start(input, limit), Live(code)).(gasUsed := Requirement(code))
  {
    var live := Live(code);
    AllAdmitted(live, limit);
    assert live[..|live|] == live;
  }

  /** The flags of a run of all live code tell how it ends. */
  lemma FlagsAtTheEnd(hash: Hash, code: seq<byte>, input: string, limit: nat)
    ensures var s, live := AfterCode(hash, Start(input, limit), Live(code)), Live(code);
      && (s.reverted <==> live != [] && live[|live| - 1] == OP_REVERT)
      && (s.halted <==> live != [] && live[|live| - 1] == OP_HALT)
  {
    var live := Live(code);
    LiveProperties(code);
    if live != [] {
      var before := live[..|live| - 1];
      StackStaysSmall(hash, input, limit, before);
      assert forall i :: 0 <= i < |before| ==> !Stops(before[i]);
    }
  }

  /**
   * Every program has one gas requirement. At or above it the limit does not matter: stack, storage
   * and flags are the same and exactly the requirement is used.
   */
  lemma EnoughGas(hash: Hash, code: seq<byte>, input: string, limit1: u64, limit2: u64)
    requires limit1 >= Requirement(code) && limit2 >= Requirement(code)
    ensures var s, t := Outcome(hash, code, input, limit1), Outcome(hash, code, input, limit2);
      && s.gasUsed == t.gasUsed == Requirement(code)
      && s == t.(gasLimit := limit1)
      && (s.reverted <==> Live(code) != [] && Live(code)[|Live(code)| - 1] == 0x63)
      && (s.halted <==> Live(code) != [] && Live(code)[|Live(code)| - 1] == 0x62)
  {
    AllRuns(hash, code, input, limit1);
    AllRuns(hash, code, input, limit2);
    FlagsAtTheEnd(hash, code, input, limit1);
    assert Start(input, limit1) == Start(input, limit2).(gasUsed := 0, gasLimit := limit1);
    GasIsInvisible(hash, Start(input, limit2), Live(code), 0, limit1);
  }

  /**
   * Below it the execution reverts after exactly the longest prefix the limit pays for, if and only if the
   * meter does not wrap around on the next instruction, for which the limit must be within 200 of 2^64.
   */
  lemma TooLittleGas(hash: Hash, code: seq<byte>, input: string, limit: u64)
    requires limit < Requirement(code)
    ensures var s, live := Outcome(hash, code, input, limit), Live(code);
            var n := Affordable(live, limit);
      && n < |live| && Cost(live[..n]) <= limit < Cost(live[..n + 1]) <= Cost(live[..n]) + 200
      && (Admitted(live, limit, 0) == n <==> Cost(live[..n + 1]) < U64)
      && (Cost(live[..n + 1]) < U64 ==>
            && s.reverted && !s.halted && s.gasUsed == Cost(live[..n])
            && s.stack == AfterCode(hash, Start(input, limit), live[..n]).stack)
  {
    var live := Live(code);
    var n := Affordable(live, limit);
    AdmittedExactly(live, limit, n);
    CostStep(live, n);
    LiveProperties(code);
    StackStaysSmall(hash, input, limit, live[..n]);
    assert OP_HALT !in live[..n] by {
      forall i | 0 <= i < n ensures live[i] != OP_HALT {
        assert !Stops(live[i]);
      }
    }
  }

  /** The prefix is the longest one the limit pays for. */
  lemma AffordableIsLongest(code: seq<byte>, limit: nat, m: nat)
    requires m <= |code|
    ensures Cost(code[..m]) <= limit <==> m <= Affordable(code, limit)
  {
    var n := Affordable(code, limit);
    if m <= n {
      CostMonotone(code, m, n);
    } else {
      CostMonotone(code, n + 1, m);
    }
  }

  /** In every execution at most one string is on the stack and the storage stays empty. */
  lemma OutcomeIsSmall(hash: Hash, code: seq<byte>, input: string, limit: nat)
    ensures |Outcome(hash, code, input, limit).stack| == (if input == "" then 0 else 1)
    ensures Outcome(hash, code, input, limit).storage == map[]
  {
    StackStaysSmall(hash, input, limit, Live(code)[..Admitted(Live(code), limit, 0)]);
  }

  // ---------------------------------------------------------------------------------------------
  // What is on the stack.

  /** The digest applied `n` times. */
  ghost function Digested(hash: Hash, s: string, n: nat): string {
    if n == 0 then s else hash(Digested(hash, s, n - 1))
  }

  /** The instructions after the last SLOAD, or all of them. */
  ghost function AfterLoad(code: seq<byte>): seq<byte> {
    if code == [] || code[|code| - 1] == 0x41 then [] else AfterLoad(code[..|code| - 1]) + [code[|code| - 1]]
  }

  /** The string the code leaves: the input, or the empty string once SLOAD has run, digested by every SHA256 since. */
  ghost function Remaining(hash: Hash, code: seq<byte>, input: string): string {
    Digested(hash, if 0x41 in code then "" else input, multiset(AfterLoad(code))[0x30])
  }

  lemma OneMoreDigest(hash: Hash, s: string, n: nat)
    ensures hash(Digested(hash, s, n)) == Digested(hash, s, n + 1)
  {
  }

  lemma CountOne(before: seq<byte>, op: byte, x: byte)
    ensures multiset(before + [op])[x] == multiset(before)[x] + (if x == op then 1 else 0)
  {
    assert multiset(before + [op]) == multiset(before) + multiset{op};
  }

  lemma AfterLoadStep(before: seq<byte>, op: byte)
    ensures AfterLoad(before + [op]) == if op == 0x41 then [] else AfterLoad(before) + [op]
    ensures 0x41 in before + [op] <==> 0x41 in before || op == 0x41
  {
    assert (before + [op])[..|before|] == before;
  }

  lemma RemainingStep(hash: Hash, before: seq<byte>, op: byte, input: string)
    ensures Remaining(hash, before + [op], input) ==
            if op == 0x41 then "" else if op == 0x30 then hash(Remaining(hash, before, input))
            else Remaining(hash, before, input)
  {
    AfterLoadStep(before, op);
    CountOne(AfterLoad(before), op, 0x30);
    OneMoreDigest(hash, if 0x41 in before then "" else input, multiset(AfterLoad(before))[0x30]);
  }

  lemma EffectOnOne(hash: Hash, s: VMState, op: byte)
    requires |s.stack| == 1 && s.storage == map[]
    ensures Effect(hash, s, op).stack ==
            if op == 0x41 then [""] else if op == 0x30 then [hash(s.stack[0])] else s.stack
  {
  }

  /** Code run on an input leaves exactly this one string. */
  lemma {:induction false} StackIs(hash: Hash, code: seq<byte>, input: string, limit: nat)
    requires input != ""
    ensures AfterCode(hash, Start(input, limit), code).stack == [Remaining(hash, code, input)]
  {
    if code == [] {
      assert AfterLoad(code) == [];
    } else {
      var before, op := code[..|code| - 1], code[|code| - 1];
      assert code == before + [op];
      StackIs(hash, before, input, limit);
      StackStaysSmall(hash, input, limit, before);
      EffectOnOne(hash, AfterCode(hash, Start(input, limit), before), op);
      RemainingStep(hash, before, op, input);
    }
  }

  /**
   * With enough gas an execution leaves what the live code leaves of the input; with less, while the meter does
   * not wrap around, what the longest affordable prefix leaves. Without an input the stack stays empty.
   */
  lemma OutcomeStack(hash: Hash, code: seq<byte>, input: string, limit: u64)
    ensures input == "" ==> Outcome(hash, code, input, limit).stack == []
    ensures input != "" && limit >= Requirement(code) ==>
              Outcome(hash, code, input, limit).stack == [Remaining(hash, Live(code), input)]
    ensures var n := Affordable(Live(code), limit);
      input != "" && n < |Live(code)| && Cost(Live(code)[..n + 1]) < U64 ==>
        Outcome(hash, code, input, limit).stack == [Remaining(hash, Live(code)[..n], input)]
  {
    var live := Live(code);
    var n := Affordable(live, limit);
    if input == "" {
      OutcomeIsSmall(hash, code, input, limit);
    } else if limit >= Requirement(code) {
      AllRuns(hash, code, input, limit);
      StackIs(hash, live, input, limit);
    } else {
      TooLittleGas(hash, code, input, limit);
      StackIs(hash, live[..n], input, limit);
    }
  }

  /** The live code is all of it up to the first HALT (0x62) or REVERT (0x63). */
  lemma LiveExactly(code: seq<byte>, n: nat)
    requires n < |code| && (code[n] == 0x62 || code[n] == 0x63)
    requires forall i :: 0 <= i < n ==> code[i] != 0x62 && code[i] != 0x63
    ensures Live(code) == code[..n + 1]
  {
    if n > 0 {
      LiveExactly(code[1..], n - 1);
      assert code[..n + 1] == [code[0]] + code[1..][..n];
    }
  }

  lemma {:induction false} AllIsLive(code: seq<byte>)
    requires forall i :: 0 <= i < |code| ==> code[i] != 0x62 && code[i] != 0x63
    ensures Live(code) == code
  {
    if code != [] {
      AllIsLive(code[1..]);
    }
  }

  /** How often one of the given instructions occurs. */
  ghost function Count(code: seq<byte>, ops: set<byte>): nat {
    if code == [] then 0 else Count(code[..|code| - 1], ops) + (if code[|code| - 1] in ops then 1 else 0)
  }

  /** The price of a program, by the number of times each kind of instruction occurs. */
  lemma {:induction false} CostByCount(code: seq<byte>)
    ensures Cost(code) ==
            |code| + 2 * Count(code, {0x10, 0x11, 0x12}) + 4 * Count(code, {0x13, 0x14})
            + 29 * Count(code, {0x30, 0x31}) + 49 * Count(code, {0x41}) + 74 * Count(code, {0x80})
            + 99 * Count(code, {0x70}) + 199 * Count(code, {0x40})
  {
    if code != [] {
      CostByCount(code[..|code| - 1]);
    }
  }

  // ---------------------------------------------------------------------------------------------
  // The loop.

  ghost predicate Running(s: VMState) {
    !s.halted && !s.reverted
  }

  /** Before the last live instruction the machine is running. */
  lemma StillRunning(hash: Hash, code: seq<byte>, input: string, gasLimit: nat, i: nat)
    requires i < |Live(code)| <= |code|
    ensures Running(AfterCode(hash, Start(input, gasLimit), code[..i]))
    ensures code[..i] == Live(code)[..i] && code[i] == Live(code)[i]
  {
    LiveProperties(code);
    var run := Live(code)[..i];
    assert code[..i] == run;
    forall op | op in run ensures !Stops(op) {
    }
    StackStaysSmall(hash, input, gasLimit, run);
  }

  /** After the last live instruction of a program with dead code the machine has stopped. */
  lemma HasStopped(hash: Hash, code: seq<byte>, input: string, gasLimit: nat)
    requires |Live(code)| < |code|
    ensures !Running(AfterCode(hash, Start(input, gasLimit), Live(code)))
  {
    LiveProperties(code);
  }

  lemma CostStep(code: seq<byte>, i: nat)
    requires i < |code|
    ensures Cost(code[..i + 1]) == Cost(code[..i]) + GasCost(code[i]) <= Cost(code)
  {
    assert code[..i + 1][..i] == code[..i];
    assert code[..|code|] == code;
    CostMonotone(code, i + 1, |code|);
  }

  lemma CodeStep(hash: Hash, s: VMState, code: seq<byte>, i: nat)
    requires i < |code|
    ensures AfterCode(hash, s, code[..i + 1]) == Effect(hash, AfterCode(hash, s, code[..i]), code[i])
  {
    assert code[..i + 1][..i] == code[..i];
  }

  /** The loop head: `i` instructions of the live code have run and have been let through by the meter. */
  ghost predicate Progress(hash: Hash, code: seq<byte>, input: string, limit: nat, i: nat, state: VMState, used: nat) {
    && i <= |Live(code)| <= |code|
    && state == AfterCode(hash, Start(input, limit), Live(code)[..i])
    && used == Meter(Live(code), i)
    && forall j :: 0 <= j < i ==> !Refused(Live(code), limit, j)
  }

  /** Leaving the loop because the code has ended or the machine has stopped. */
  lemma Completed(hash: Hash, code: seq<byte>, input: string, limit: nat, i: nat, state: VMState, used: nat)
    requires Progress(hash, code, input, limit, i, state, used)
    requires i == |code| || !Running(state)
    ensures state.(gasUsed := used) == Outcome(hash, code, input, limit)
  {
    if i < |Live(code)| {
      StillRunning(hash, code, input, limit, i);
    }
    AdmittedIs(Live(code), limit, i);
  }

  /** Leaving the loop because the meter refuses the next instruction. */
  lemma OutOfGas(hash: Hash, code: seq<byte>, input: string, limit: nat, i: nat, state: VMState, used: nat)
    requires Progress(hash, code, input, limit, i, state, used)
    requires i < |code| && Running(state) && Wrap64(used + GasCost(code[i])) > limit
    ensures state.(gasUsed := used, reverted := true) == Outcome(hash, code, input, limit)
  {
    NextIsLive(hash, code, input, limit, i, state, used);
    MeterStep(Live(code), i);
    AdmittedIs(Live(code), limit, i);
  }

  lemma LiveIsShorter(code: seq<byte>)
    ensures |Live(code)| <= |code|
  {
    LiveProperties(code);
  }

  lemma MeterStep(code: seq<byte>, i: nat)
    requires i < |code|
    ensures Meter(code, i + 1) == Wrap64(Meter(code, i) + GasCost(code[i]))
  {
    CostStep(code, i);
    WrapAdd(Cost(code[..i]), GasCost(code[i]));
  }

  lemma NextIsLive(hash: Hash, code: seq<byte>, input: string, limit: nat, i: nat, state: VMState, used: nat)
    requires Progress(hash, code, input, limit, i, state, used)
    requires i < |code| && Running(state)
    ensures i < |Live(code)| && Live(code)[i] == code[i]
  {
    if i == |Live(code)| {
      assert Live(code)[..i] == Live(code);
      HasStopped(hash, code, input, limit);
    }
    LiveProperties(code);
  }

  /** One instruction that the meter lets through. */
  lemma Executed(hash: Hash, code: seq<byte>, input: string, limit: nat, i: nat, state: VMState, used: nat)
    requires Progress(hash, code, input, limit, i, state, used)
    requires i < |code| && Running(state) && Wrap64(used + GasCost(code[i])) <= limit
    ensures Progress(hash, code, input, limit, i + 1, Effect(hash, state, code[i]), Wrap64(used + GasCost(code[i])))
  {
    NextIsLive(hash, code, input, limit, i, state, used);
    MeterStep(Live(code), i);
    CodeStep(hash, Start(input, limit), Live(code), i);
  }

  class VM {
    const hash: Hash

    constructor (hash: Hash)
      ensures this.hash == hash
    {
      this.hash := hash;
    }

    /** The `switch` over the opcode. */
    method Dispatch(s: VMState, op: byte) returns (state: VMState)
      ensures state == Effect(hash, s, op)
    {
      state := s;
      if op == OP_HALT {
        state := state.(halted := true);
      } else if op == OP_REVERT {
        state := state.(reverted := true);
      } else if op == OP_SHA256 {
        if state.stack != [] {
          var top := state.stack[|state.stack| - 1];
          state := state.(stack := state.stack[..|state.stack| - 1]);
          state := state.(stack := state.stack + [hash(top)]);
        }
      } else if op == OP_SSTORE {
        if |state.stack| >= 2 {
          var val := state.stack[|state.stack| - 1];
          state := state.(stack := state.stack[..|state.stack| - 1]);
          var key := state.stack[|state.stack| - 1];
          state := state.(stack := state.stack[..|state.stack| - 1]);
          state := state.(storage := state.storage[key := val]);
        }
      } else if op == OP_SLOAD {
        if state.stack != [] {
          var key := state.stack[|state.stack| - 1];
          state := state.(stack := state.stack[..|state.stack| - 1]);
          var val := if key in state.storage then state.storage[key] else "";
          state := state.(stack := state.stack + [val]);
        }
      }
    }

    /** One turn of the loop: the instruction is paid for and dispatched, or the machine is reverted. */
    method ExecuteOne(gas: GasMeter, bytecode: seq<byte>, i: nat, s: VMState, ghost input: string)
      returns (ok: bool, state: VMState)
      requires Progress(hash, bytecode, input, gas.limit, i, s, gas.used)
      requires i < |bytecode| && Running(s)
      modifies gas
      ensures ok ==> Progress(hash, bytecode, input, gas.limit, i + 1, state, gas.used)
      ensures !ok ==> state == Outcome(hash, bytecode, input, gas.limit)
    {
      var op := bytecode[i];
      ghost var used := gas.used;
      ok := gas.Consume(GasCost(op));
      if ok {
        Executed(hash, bytecode, input, gas.limit, i, s, used);
        state := Dispatch(s, op);
      } else {
        OutOfGas(hash, bytecode, input, gas.limit, i, s, used);
        state := s.(reverted := true);
        state := state.(gasUsed := gas.used);
      }
    }

    method Execute(bytecode: seq<byte>, input: string, gasLimit: u64) returns (state: VMState)
      ensures state == Outcome(hash, bytecode, input, gasLimit)
    {
      state := VMState([], map[], 0, gasLimit, false, false);
      var gas := new GasMeter(gasLimit);
      if input != "" {
        state := state.(stack := state.stack + [input]);
      }
      LiveIsShorter(bytecode);
      var i := 0;
      while i < |bytecode| && !state.halted && !state.reverted
        invariant 0 <= i && Progress(hash, bytecode, input, gasLimit, i, state, gas.used)
        invariant gas.limit == gasLimit
      {
        var ok;
        ok, state := ExecuteOne(gas, bytecode, i, state, input);
        if !ok {
          return;
        }
        i := i + 1;
      }
      Completed(hash, bytecode, input, gasLimit, i, state, gas.used);
      state := state.(gasUsed := gas.used);
    }
  }
}
