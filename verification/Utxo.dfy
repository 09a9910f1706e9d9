/** The set of transaction outputs and the conservation of value. */
module Utxo {
  import opened Text
  import opened Transactions
  import opened MapSums

  datatype UTXO = UTXO(txHash: string, outputIndex: u32, address: string, amount: u64, spent: bool)
  {
    function Key(): string {
      KeyOf(txHash, outputIndex)
    }
  }

  type Utxos = map<string, UTXO>

  function KeyOf(txHash: string, outputIndex: nat): string {
    txHash + ":" + Dec(outputIndex)
  }

  /** The key determines transaction and index, whatever characters the hash contains. */
  lemma KeyInjective(t: string, i: nat, u: string, j: nat)
    requires KeyOf(t, i) == KeyOf(u, j)
    ensures t == u && i == j
  {
    var k, a, b := KeyOf(t, i), Dec(i), Dec(j);
    assert k == t + ([':'] + a) == u + ([':'] + b);
    assert k[|t|] == ':' && k[|u|] == ':';
    if |t| < |u| {
      DecDigits(i, |u| - |t| - 1);
      assert false;
    } else if |u| < |t| {
      DecDigits(j, |t| - |u| - 1);
      assert false;
    }
    ConcatSplits(t, [':'] + a, u, [':'] + b);
    assert a == ([':'] + a)[1..] == ([':'] + b)[1..] == b;
    DecInjective(i, j);
  }

  lemma KeysDiffer(t: string, i: nat, u: string, j: nat)
    requires i != j
    ensures KeyOf(t, i) != KeyOf(u, j)
  {
    if KeyOf(t, i) == KeyOf(u, j) {
      KeyInjective(t, i, u, j);
      assert false;
    }
  }

  // ---------------------------------------------------------------------------------------------
  // Value held by the set.

  ghost predicate Live(u: Utxos, k: string) {
    k in u && !u[k].spent
  }

  ghost function LiveAmount(u: Utxos, k: string): nat {
    if Live(u, k) then u[k].amount else 0
  }

  /** Total unspent value. */
  ghost function Unspent(u: Utxos): nat {
    Total(LiveAmounts(u))
  }

  ghost function Held(u: Utxos, address: string): map<string, nat> {
    map k | k in u :: if u[k].address == address then LiveAmount(u, k) else 0
  }

  ghost function Balance(u: Utxos, address: string): nat {
    Total(Held(u, address))
  }

  ghost function Balances(u: Utxos, addresses: set<string>): map<string, nat> {
    map a | a in addresses :: Balance(u, a)
  }

  ghost function LiveAmounts(u: Utxos): map<string, nat> {
    map k | k in u :: LiveAmount(u, k)
  }

  /** Forgetting one entry lowers the total, and its owner's balance, by the entry's live amount. */
  lemma ForgetEntry(u: Utxos, k: string, address: string)
    requires k in u
    ensures Unspent(u) == Unspent(u - {k}) + LiveAmount(u, k)
    ensures Balance(u, address) == Balance(u - {k}, address) + (if u[k].address == address then LiveAmount(u, k) else 0)
  {
    TotalRemove(LiveAmounts(u), k);
    assert LiveAmounts(u) - {k} == LiveAmounts(u - {k});
    TotalRemove(Held(u, address), k);
    assert Held(u, address) - {k} == Held(u - {k}, address);
  }

  lemma EmptyHoldsNothing(u: Utxos, addresses: set<string>)
    requires u.Keys == {}
    ensures Unspent(u) == 0 && Total(Balances(u, addresses)) == 0
  {
    TotalZero(LiveAmounts(u));
    forall a | a in addresses ensures Balance(u, a) == 0 {
      TotalZero(Held(u, a));
    }
    TotalZero(Balances(u, addresses));
  }

  lemma BalancesStep(u: Utxos, k: string, addresses: set<string>)
    requires k in u && u[k].address in addresses
    ensures Balances(u, addresses) == Balances(u - {k}, addresses)[u[k].address := Balance(u, u[k].address)]
  {
    forall a | a in addresses
      ensures Balance(u, a) == Balance(u - {k}, a) + (if a == u[k].address then LiveAmount(u, k) else 0)
    {
      ForgetEntry(u, k, a);
    }
  }

  /** The balances of any set of addresses that covers the owners add up to the total unspent value. */
  lemma {:induction false} BalancesAddUp(u: Utxos, addresses: set<string>)
    requires forall k :: k in u ==> u[k].address in addresses
    ensures Total(Balances(u, addresses)) == Unspent(u)
    decreases |u|
  {
    if u.Keys == {} {
      EmptyHoldsNothing(u, addresses);
    } else {
      var k :| k in u;
      var v, owner := u - {k}, u[k].address;
      assert v.Keys == u.Keys - {k};
      BalancesAddUp(v, addresses);
      ForgetEntry(u, k, owner);
      BalancesStep(u, k, addresses);
      TotalUpdate(Balances(v, addresses), owner, Balance(u, owner));
    }
  }

  lemma BalanceAtMostUnspent(u: Utxos, address: string)
    ensures Balance(u, address) <= Unspent(u)
  {
    TotalMonotone(Held(u, address), LiveAmounts(u));
  }

  // ---------------------------------------------------------------------------------------------
  // The effect of transactions.

  ghost function AfterSpend(u: Utxos, k: string): Utxos {
    if Live(u, k) then u[k := u[k].(spent := true)] else u
  }

  ghost function InputKey(input: TxInput): string {
    KeyOf(input.prevTxHash, input.outputIndex)
  }

  ghost function AfterInputs(u: Utxos, inputs: seq<TxInput>): Utxos {
    if inputs == [] then u
    else AfterSpend(AfterInputs(u, inputs[..|inputs| - 1]), InputKey(inputs[|inputs| - 1]))
  }

  /** The value of the inputs that `spendUTXO` accepts. */
  ghost function Accepted(u: Utxos, inputs: seq<TxInput>): nat {
    if inputs == [] then 0
    else
      var before := inputs[..|inputs| - 1];
      Accepted(u, before) + LiveAmount(AfterInputs(u, before), InputKey(inputs[|inputs| - 1]))
  }

  ghost function Created(tx: Transaction, i: nat): UTXO
    requires i < |tx.outputs|
  {
    UTXO(tx.txHash, i, tx.outputs[i].address, tx.outputs[i].amount, false)
  }

  ghost function AfterOutputs(u: Utxos, tx: Transaction, n: nat): Utxos
    requires n <= |tx.outputs|
  {
    if n == 0 then u else AfterOutputs(u, tx, n - 1)[Created(tx, n - 1).Key() := Created(tx, n - 1)]
  }

  ghost function AfterTx(u: Utxos, tx: Transaction): Utxos {
    AfterOutputs(AfterInputs(u, tx.inputs), tx, |tx.outputs|)
  }

  ghost function AfterTxs(u: Utxos, txs: seq<Transaction>): Utxos {
    if txs == [] then u else AfterTx(AfterTxs(u, txs[..|txs| - 1]), txs[|txs| - 1])
  }

  /** No output of `tx` is known yet. */
  ghost predicate Fresh(u: Utxos, tx: Transaction) {
    forall i :: 0 <= i < |tx.outputs| ==> KeyOf(tx.txHash, i) !in u
  }

  lemma SpendConserves(u: Utxos, k: string)
    ensures Unspent(u) == Unspent(AfterSpend(u, k)) + LiveAmount(u, k)
    ensures AfterSpend(u, k).Keys == u.Keys
  {
    if Live(u, k) {
      TotalUpdate(LiveAmounts(u), k, 0);
      assert LiveAmounts(u)[k := 0] == LiveAmounts(AfterSpend(u, k));
    }
  }

  lemma {:induction false} InputsConserve(u: Utxos, inputs: seq<TxInput>)
    ensures Unspent(u) == Unspent(AfterInputs(u, inputs)) + Accepted(u, inputs)
    ensures AfterInputs(u, inputs).Keys == u.Keys
  {
    if inputs != [] {
      var before := inputs[..|inputs| - 1];
      InputsConserve(u, before);
      SpendConserves(AfterInputs(u, before), InputKey(inputs[|inputs| - 1]));
    }
  }

  lemma {:induction false} OutputKeys(u: Utxos, tx: Transaction, n: nat, k: string)
    requires n <= |tx.outputs|
    ensures k in AfterOutputs(u, tx, n) <==> k in u || exists i :: 0 <= i < n && k == KeyOf(tx.txHash, i)
  {
    if n > 0 {
      OutputKeys(u, tx, n - 1, k);
      assert k == Created(tx, n - 1).Key() <==> k == KeyOf(tx.txHash, n - 1);
    }
  }

  /** Adding an entry replaces whatever its key held before. */
  lemma AddConserves(u: Utxos, c: UTXO)
    requires !c.spent
    ensures Unspent(u[c.Key() := c]) + LiveAmount(u, c.Key()) == Unspent(u) + c.amount
  {
    TotalUpdate(LiveAmounts(u), c.Key(), c.amount);
    assert LiveAmounts(u)[c.Key() := c.amount] == LiveAmounts(u[c.Key() := c]);
  }

  /** The live value that the first `n` outputs of `tx` overwrite, because their keys were in use. */
  ghost function Overwritten(u: Utxos, tx: Transaction, n: nat): nat
    requires n <= |tx.outputs|
  {
    if n == 0 then 0
    else Overwritten(u, tx, n - 1) + LiveAmount(AfterOutputs(u, tx, n - 1), KeyOf(tx.txHash, n - 1))
  }

  lemma {:induction false} OutputsAdd(u: Utxos, tx: Transaction, n: nat)
    requires n <= |tx.outputs|
    ensures Unspent(AfterOutputs(u, tx, n)) + Overwritten(u, tx, n) == Unspent(u) + Paid(tx.outputs[..n])
  {
    if n > 0 {
      OutputsAdd(u, tx, n - 1);
      AddConserves(AfterOutputs(u, tx, n - 1), Created(tx, n - 1));
      assert tx.outputs[..n][..n - 1] == tx.outputs[..n - 1];
    }
  }

  /** A transaction with a new hash overwrites nothing: its own keys differ from each other. */
  lemma {:induction false} FreshOverwritesNothing(u: Utxos, tx: Transaction, n: nat)
    requires Fresh(u, tx) && n <= |tx.outputs|
    ensures Overwritten(u, tx, n) == 0
  {
    if n > 0 {
      FreshOverwritesNothing(u, tx, n - 1);
      var key := KeyOf(tx.txHash, n - 1);
      OutputKeys(u, tx, n - 1, key);
      forall i | 0 <= i < n - 1 ensures key != KeyOf(tx.txHash, i) {
        KeysDiffer(tx.txHash, i, tx.txHash, n - 1);
      }
    }
  }

  /** The live value a transaction overwrites when its inputs have been spent. */
  ghost function Destroyed(u: Utxos, tx: Transaction): nat {
    Overwritten(AfterInputs(u, tx.inputs), tx, |tx.outputs|)
  }

  /**
   * A transaction creates its outputs and destroys the inputs it was allowed to spend and the value it
   * overwrites. Only a transaction that reuses a hash overwrites anything.
   */
  lemma TransactionConserves(u: Utxos, tx: Transaction)
    ensures Unspent(AfterTx(u, tx)) + Accepted(u, tx.inputs) + Destroyed(u, tx) == Unspent(u) + Paid(tx.outputs)
    ensures Fresh(u, tx) ==> Destroyed(u, tx) == 0
  {
    var v := AfterInputs(u, tx.inputs);
    InputsConserve(u, tx.inputs);
    OutputsAdd(v, tx, |tx.outputs|);
    assert tx.outputs[..|tx.outputs|] == tx.outputs;
    if Fresh(u, tx) {
      FreshOverwritesNothing(v, tx, |tx.outputs|);
    }
  }

  // ---------------------------------------------------------------------------------------------
  // The mutable set.

  /** What the address holds under the given keys. */
  ghost function HeldUnder(u: Utxos, address: string, keys: set<string>): nat
    requires keys <= u.Keys
  {
    Total(map k | k in keys :: if u[k].address == address then LiveAmount(u, k) else 0)
  }

  lemma HeldUnderStep(u: Utxos, address: string, keys: set<string>, k: string)
    requires keys <= u.Keys && k in keys
    ensures HeldUnder(u, address, keys) ==
            HeldUnder(u, address, keys - {k}) + (if u[k].address == address && !u[k].spent then u[k].amount else 0)
  {
    var held := map x | x in keys :: if u[x].address == address then LiveAmount(u, x) else 0;
    TotalRemove(held, k);
    assert held - {k} == map x | x in keys - {k} :: if u[x].address == address then LiveAmount(u, x) else 0;
  }

  lemma HeldUnderEnds(u: Utxos, address: string)
    ensures HeldUnder(u, address, u.Keys) == Balance(u, address) && HeldUnder(u, address, {}) == 0
  {
    assert Held(u, address) == map k | k in u.Keys :: if u[k].address == address then LiveAmount(u, k) else 0;
  }

  class UTXOSet {
    var utxos: Utxos

    constructor ()
      ensures utxos == map[]
    {
      utxos := map[];
    }

    method AddUTXO(utxo: UTXO)
      modifies this
      ensures utxos == old(utxos)[utxo.Key() := utxo]
    {
      utxos := utxos[utxo.Key() := utxo];
    }

    method SpendUTXO(txHash: string, outputIndex: u32) returns (ok: bool)
      modifies this
      ensures ok <==> Live(old(utxos), KeyOf(txHash, outputIndex))
      ensures utxos == AfterSpend(old(utxos), KeyOf(txHash, outputIndex))
    {
      var key := KeyOf(txHash, outputIndex);
      if key !in utxos || utxos[key].spent {
        return false;
      }
      utxos := utxos[key := utxos[key].(spent := true)];
      ok := true;
    }

    method IsUnspent(txHash: string, outputIndex: u32) returns (ok: bool)
      ensures ok <==> Live(utxos, KeyOf(txHash, outputIndex))
    {
      var key := KeyOf(txHash, outputIndex);
      ok := key in utxos && !utxos[key].spent;
    }

    /** The 64-bit accumulator over the hash map, visited in whatever order it is iterated. */
    method GetBalance(address: string) returns (total: u64)
      ensures total == Wrap64(Balance(utxos, address))
    {
      total := SumHeld(utxos, address);
    }
  }

  /** The loop of `getBalance`. */
  method SumHeld(u: Utxos, address: string) returns (total: u64)
    ensures total == Wrap64(Balance(u, address))
  {
    total := 0;
    var rest := u.Keys;
    HeldUnderEnds(u, address);
    while rest != {}
      invariant rest <= u.Keys
      invariant Wrap64(total + HeldUnder(u, address, rest)) == Wrap64(Balance(u, address))
      decreases rest
    {
      var key :| key in rest;
      HeldUnderStep(u, address, rest, key);
      rest := rest - {key};
      if u[key].address == address && !u[key].spent {
        WrapAdd((total as int) + u[key].amount, HeldUnder(u, address, rest));
        total := Wrap64((total as int) + u[key].amount);
      }
    }
  }
}
