/** Balances over whole sequences of transfers: what is conserved, and when. */
module Supply {
  import opened Common
  import opened Types
  import opened Accounts

  /** The sum of all balances, over the integers. */
  ghost function Total(m: AccountMap): nat
    decreases |m|
  {
    if m == map[] then 0
    else
      var k :| k in m;
      m[k].balance + Total(m - {k})
  }

  lemma {:induction false} TotalPick(m: AccountMap, k: Address)
    requires k in m
    ensures Total(m) == m[k].balance + Total(m - {k})
    decreases |m|
  {
    var j :| j in m && Total(m) == m[j].balance + Total(m - {j});
    if j != k {
      TotalPick(m - {j}, k);
      TotalPick(m - {k}, j);
      assert m - {j} - {k} == m - {k} - {j};
    }
  }

  lemma TotalUpdate(m: AccountMap, k: Address, a: Account)
    ensures Total(m[k := a]) == Total(m) - AccountAt(m, k).balance + a.balance
  {
    TotalPick(m[k := a], k);
    assert m[k := a] - {k} == m - {k};
    if k in m {
      TotalPick(m, k);
    } else {
      assert m - {k} == m;
    }
  }

  lemma BalanceWithinTotal(m: AccountMap, a: Address, b: Address)
    requires a != b
    ensures AccountAt(m, a).balance + AccountAt(m, b).balance <= Total(m)
  {
    TotalUpdate(m, a, FRESH);
    var m' := m[a := FRESH];
    TotalUpdate(m', b, FRESH);
  }

  /** The transfer goes through and its credit exceeds 64 bits. */
  predicate CreditWraps(m: AccountMap, f: Address, t: Address, value: Uint64) {
    && f != t
    && value <= AccountAt(m, f).balance
    && AccountAt(m, t).balance + value >= TWO64
  }

  lemma TotalTouch(m: AccountMap, k: Address)
    ensures Total(Touch(m, k)) == Total(m)
    ensures forall j :: AccountAt(Touch(m, k), j) == AccountAt(m, j)
  {
    TotalUpdate(m, k, FRESH);
  }

  /**
   * A transfer, thrown or not, to itself or to a new account, keeps the total
   * unless its credit wraps; then exactly 2^64 disappears.
   */
  lemma TransferTotal(m: AccountMap, f: Address, t: Address, value: Uint64)
    ensures Total(Transfer(m, f, t, value).accounts)
            == Total(m) - (if CreditWraps(m, f, t, value) then TWO64 else 0)
  {
    hide Total;
    TotalTouch(m, f);
    TotalTouch(Touch(m, f), t);
    var m1 := Touch(Touch(m, f), t);
    if m1[f].balance >= value {
      var debited := Account(m1[f].balance - value, Add64(m1[f].nonce, 1));
      TotalUpdate(m1, f, debited);
      var m2 := m1[f := debited];
      TotalUpdate(m2, t, m2[t].(balance := Add64(m2[t].balance, value)));
    }
  }

  /** Below 2^64 in total, no credit can wrap. */
  lemma NoWrapBelowBound(m: AccountMap, f: Address, t: Address, value: Uint64)
    requires Total(m) < TWO64
    ensures !CreditWraps(m, f, t, value)
  {
    if f != t {
      BalanceWithinTotal(m, f, t);
    }
  }

  /** Any sequence of transactions keeps a total below 2^64, even one that throws on the way. */
  lemma {:induction false} ApplyAllConserves(m: AccountMap, txs: seq<Transaction>)
    requires Total(m) < TWO64
    ensures Total(ApplyAll(m, txs).accounts) == Total(m)
  {
    if txs != [] {
      var before := ApplyAll(m, txs[..|txs| - 1]);
      ApplyAllConserves(m, txs[..|txs| - 1]);
      if before.ok {
        var tx := txs[|txs| - 1];
        TransferTotal(before.accounts, tx.from, tx.to, tx.value);
        NoWrapBelowBound(before.accounts, tx.from, tx.to, tx.value);
      }
    }
  }

  lemma {:induction false} ApplyAllConcat(m: AccountMap, xs: seq<Transaction>, ys: seq<Transaction>)
    ensures var first := ApplyAll(m, xs);
            ApplyAll(m, xs + ys) == if first.ok then ApplyAll(first.accounts, ys) else first
  {
    hide Apply;
    if ys == [] {
      assert xs + ys == xs;
    } else {
      ApplyAllConcat(m, xs, ys[..|ys| - 1]);
      assert (xs + ys)[..|xs + ys| - 1] == xs + ys[..|ys| - 1];
    }
  }

  // ------------------------------------------ the bound is also necessary

  ghost function Holders(m: AccountMap): set<Address> {
    set k | k in m && m[k].balance > 0
  }

  lemma {:induction false} TotalOfOneHolder(m: AccountMap, a: Address)
    requires Holders(m) <= {a}
    ensures Total(m) == AccountAt(m, a).balance
    decreases |m|
  {
    if m != map[] {
      var k :| k in m && Total(m) == m[k].balance + Total(m - {k});
      assert Holders(m - {k}) <= {a};
      TotalOfOneHolder(m - {k}, a);
      assert k != a ==> k !in Holders(m);
    }
  }

  lemma TwoHolders(m: AccountMap) returns (a: Address, b: Address)
    requires Total(m) >= TWO64
    ensures a != b && a in Holders(m) && b in Holders(m)
  {
    if Holders(m) == {} {
      TotalOfOneHolder(m, ZERO_ADDRESS);
      assert false;
    }
    a :| a in Holders(m);
    if Holders(m) - {a} == {} {
      TotalOfOneHolder(m, a);
      assert false;
    }
    b :| b in Holders(m) - {a};
  }

  /** A transaction that moves `value`; its other fields play no part in the state. */
  function Payment(f: Address, t: Address, value: Uint64): Transaction {
    Transaction(0, 0, 0, t, value, [], 0, f, Signature([], [], 0), [])
  }

  /** From a total of 2^64 or more, some transfers that all return lose money. */
  lemma {:induction false} LosingRun(m: AccountMap) returns (txs: seq<Transaction>)
    requires Total(m) >= TWO64
    ensures ApplyAll(m, txs).ok
    ensures Total(ApplyAll(m, txs).accounts) < Total(m)
    decreases |Holders(m)|
  {
    var a, b := TwoHolders(m);
    var tx := Payment(a, b, m[a].balance);
    var after := Apply(m, tx);
    TransferTotal(m, a, b, m[a].balance);
    assert ApplyAll(m, [tx]) == after by {
      assert [tx][..0] == [];
    }
    if CreditWraps(m, a, b, m[a].balance) {
      txs := [tx];
    } else {
      assert Holders(after.accounts) == Holders(m) - {a};
      var rest := LosingRun(after.accounts);
      ApplyAllConcat(m, [tx], rest);
      txs := [tx] + rest;
    }
  }

  /**
   * The sum of balances survives every sequence of transactions exactly when
   * it starts below 2^64.
   */
  lemma ConservedIff(m: AccountMap)
    ensures (forall txs :: Total(ApplyAll(m, txs).accounts) == Total(m)) <==> Total(m) < TWO64
  {
    if Total(m) < TWO64 {
      forall txs ensures Total(ApplyAll(m, txs).accounts) == Total(m) {
        ApplyAllConserves(m, txs);
      }
    } else {
      var txs := LosingRun(m);
    }
  }
}
