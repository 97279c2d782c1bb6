/** When a mempool mines, and what is left behind when it does not. */
module Mempool {
  import opened Common
  import opened Arithmetic
  import opened Types
  import opened Accounts
  import opened Supply
  import opened Transactions
  import opened Blocks
  import opened Chains

  // ------------------------------------------------- effect of one transfer

  /** What a transfer does to each account, whether or not the two are the same. */
  lemma TransferEffect(m: AccountMap, f: Address, t: Address, value: Uint64, a: Address)
    ensures var after := Transfer(m, f, t, value);
            && (after.ok <==> value <= AccountAt(m, f).balance)
            && after.accounts.Keys == m.Keys + {f, t}
            && (!after.ok ==> AccountAt(after.accounts, a) == AccountAt(m, a))
            && (after.ok ==>
                 && AccountAt(after.accounts, a).nonce ==
                    (if a == f then Add64(AccountAt(m, a).nonce, 1) else AccountAt(m, a).nonce)
                 && AccountAt(after.accounts, a).balance ==
                    (if f == t then AccountAt(m, a).balance
                     else if a == f then AccountAt(m, a).balance - value
                     else if a == t then Add64(AccountAt(m, a).balance, value)
                     else AccountAt(m, a).balance))
  {
  }

  // ---------------------------------------------------------------- nonces

  /** How many of the transactions come from `a`. */
  function CountFrom(txs: seq<Transaction>, a: Address): nat {
    if txs == [] then 0
    else CountFrom(txs[..|txs| - 1], a) + (if txs[|txs| - 1].from == a then 1 else 0)
  }

  lemma {:induction false} CountBound(txs: seq<Transaction>, a: Address)
    ensures CountFrom(txs, a) <= |txs|
    ensures txs != [] && txs[0].from == a ==> CountFrom(txs, a) >= 1
  {
    if txs != [] {
      CountBound(txs[..|txs| - 1], a);
      assert |txs| > 1 ==> txs[..|txs| - 1][0] == txs[0];
    }
  }

  /** Each account's nonce counts its transactions, modulo 2^64. */
  lemma {:induction false} NonceCounts(m: AccountMap, txs: seq<Transaction>, a: Address)
    requires ApplyAll(m, txs).ok
    ensures AccountAt(ApplyAll(m, txs).accounts, a).nonce
            == (AccountAt(m, a).nonce + CountFrom(txs, a)) % TWO64
  {
    hide Transfer, Add64, AccountAt;
    if txs != [] {
      var init, tx := txs[..|txs| - 1], txs[|txs| - 1];
      var before := ApplyAll(m, init).accounts;
      NonceCounts(m, init, a);
      TransferEffect(before, tx.from, tx.to, tx.value, a);
      Add64Mod(AccountAt(m, a).nonce + CountFrom(init, a), 1);
    }
  }

  // -------------------------------------------------------------- balances

  /** What the transactions bring to `a`, less what they take from it. */
  function Flow(txs: seq<Transaction>, a: Address): int {
    if txs == [] then 0
    else
      var tx := txs[|txs| - 1];
      Flow(txs[..|txs| - 1], a)
      + (if tx.to == a then tx.value else 0) - (if tx.from == a then tx.value else 0)
  }

  /** Each account's balance moves by its flow, modulo 2^64. */
  lemma {:induction false} BalanceFlows(m: AccountMap, txs: seq<Transaction>, a: Address)
    requires ApplyAll(m, txs).ok
    ensures AccountAt(ApplyAll(m, txs).accounts, a).balance
            == (AccountAt(m, a).balance + Flow(txs, a)) % TWO64
  {
    hide Transfer, Add64, AccountAt;
    if txs != [] {
      var init, tx := txs[..|txs| - 1], txs[|txs| - 1];
      var before := ApplyAll(m, init).accounts;
      BalanceFlows(m, init, a);
      TransferEffect(before, tx.from, tx.to, tx.value, a);
      TransferEffect(before, tx.from, tx.to, tx.value, tx.from);
      FlowStep(AccountAt(m, a).balance + Flow(init, a), tx.value);
    }
  }

  /** Adding or taking a value after reducing modulo 2^64 is doing so before. */
  lemma FlowStep(x: int, v: Uint64)
    ensures Add64(x % TWO64, v) == (x + v) % TWO64
    ensures v <= x % TWO64 ==> x % TWO64 - v == (x - v) % TWO64
  {
    var q, r := x / TWO64, x % TWO64;
    if r + v < TWO64 {
      IntMod(x + v, q, r + v);
      IntMod(r + v, 0, r + v);
    } else {
      IntMod(x + v, q + 1, r + v - TWO64);
      IntMod(r + v, 1, r + v - TWO64);
    }
    if v <= r {
      IntMod(x - v, q, r - v);
    }
  }

  lemma IntMod(x: int, q: int, r: nat)
    requires r < TWO64 && x == q * TWO64 + r
    ensures x % TWO64 == r
  {
  }

  // --------------------------------------------------- where a mempool stops

  /**
   * A throwing sequence stops at its first transaction that cannot be paid:
   * the ones before it have taken effect, it has only created its accounts.
   */
  lemma {:induction false} StopsAt(m: AccountMap, txs: seq<Transaction>) returns (i: nat)
    requires !ApplyAll(m, txs).ok
    ensures i < |txs| && ApplyAll(m, txs[..i]).ok
    ensures var before := ApplyAll(m, txs[..i]).accounts;
            && AccountAt(before, txs[i].from).balance < txs[i].value
            && ApplyAll(m, txs).accounts == Touch(Touch(before, txs[i].from), txs[i].to)
  {
    var init := txs[..|txs| - 1];
    if ApplyAll(m, init).ok {
      i := |txs| - 1;
    } else {
      i := StopsAt(m, init);
      assert init[..i] == txs[..i];
    }
  }

  /**
   * A failed `mineBlock` leaves the state as it was exactly when the very first
   * transaction is the one that cannot be paid and both its accounts exist.
   */
  lemma FailureLeavesStateIff(m: AccountMap, txs: seq<Transaction>)
    requires !ApplyAll(m, txs).ok && |txs| <= MAX_SIZE
    ensures txs != []
    ensures ApplyAll(m, txs).accounts == m <==>
            && AccountAt(m, txs[0].from).balance < txs[0].value
            && txs[0].from in m && txs[0].to in m
  {
    hide ApplyAll, Touch, AccountAt, CountFrom;
    var i := StopsAt(m, txs);
    var before := ApplyAll(m, txs[..i]).accounts;
    if i == 0 {
      assert txs[..0] == [];
      ApplyNothing(m);
      TouchNothingIff(m, txs[0].from, txs[0].to, txs[0].from);
    } else {
      var a := txs[0].from;
      FirstTransferGoesThrough(m, txs[..i]);
      NonceCounts(m, txs[..i], a);
      CountBound(txs[..i], a);
      NonceMoved(AccountAt(m, a).nonce, CountFrom(txs[..i], a));
      TouchNothingIff(before, txs[i].from, txs[i].to, a);
    }
  }

  lemma ApplyNothing(m: AccountMap)
    ensures ApplyAll(m, []) == Applied(m, true)
  {
  }

  lemma TouchNothingIff(m: AccountMap, f: Address, t: Address, a: Address)
    ensures Touch(Touch(m, f), t) == m <==> f in m && t in m
    ensures AccountAt(Touch(Touch(m, f), t), a) == AccountAt(m, a)
  {
    assert f !in m ==> f in Touch(Touch(m, f), t);
    assert t !in m ==> t in Touch(Touch(m, f), t);
  }

  lemma NonceMoved(n: Uint64, count: nat)
    requires 1 <= count < TWO64
    ensures (n + count) % TWO64 != n
  {
    if n + count >= TWO64 {
      assert (n + count) % TWO64 == n + count - TWO64;
    }
  }

  lemma FirstTransferGoesThrough(m: AccountMap, txs: seq<Transaction>)
    requires txs != [] && ApplyAll(m, txs).ok
    ensures txs[0].value <= AccountAt(m, txs[0].from).balance
  {
    ApplyAllConcat(m, txs[..1], txs[1..]);
    assert txs[..1] + txs[1..] == txs;
    assert txs[..1][..0] == [];
    TransferEffect(m, txs[0].from, txs[0].to, txs[0].value, txs[0].from);
  }

  /** Two payments of which only the first can be made. */
  predicate PaysThenFails(m: AccountMap, txs: seq<Transaction>) {
    && |txs| == 2 && txs[0].from != txs[0].to && txs[1].from == txs[0].to
    && txs[0].value <= AccountAt(m, txs[0].from).balance
    && AccountAt(m, txs[0].to).balance + txs[0].value < txs[1].value
  }

  lemma PaysThenFailsEffect(m: AccountMap, txs: seq<Transaction>)
    requires PaysThenFails(m, txs)
    ensures !ApplyAll(m, txs).ok
    ensures var after := ApplyAll(m, txs).accounts;
            && AccountAt(after, txs[0].from).balance == AccountAt(m, txs[0].from).balance - txs[0].value
            && AccountAt(after, txs[0].to).balance == AccountAt(m, txs[0].to).balance + txs[0].value
  {
    hide Transfer, AccountAt;
    var f, t := txs[0].from, txs[0].to;
    assert txs[..1][..0] == [] && txs[..1] == [txs[0]] && txs[..|txs| - 1] == txs[..1];
    var first := Apply(m, txs[0]);
    assert ApplyAll(m, txs[..1]) == first;
    TransferEffect(m, f, t, txs[0].value, f);
    TransferEffect(m, f, t, txs[0].value, t);
    TransferEffect(first.accounts, txs[1].from, txs[1].to, txs[1].value, f);
    TransferEffect(first.accounts, txs[1].from, txs[1].to, txs[1].value, t);
  }

  // ---------------------------------------------------------------- retries

  /** The first `i` transactions are the longest beginning that can be paid. */
  predicate LastPayable(m: AccountMap, txs: seq<Transaction>, i: nat) {
    && i < |txs|
    && forall k :: 0 <= k <= |txs| ==> (ApplyAll(m, txs[..k]).ok <==> k <= i)
  }

  lemma StopIsLastPayable(m: AccountMap, txs: seq<Transaction>, i: nat)
    requires i < |txs| && ApplyAll(m, txs[..i]).ok
    requires AccountAt(ApplyAll(m, txs[..i]).accounts, txs[i].from).balance < txs[i].value
    ensures LastPayable(m, txs, i)
  {
    hide ApplyAll, AccountAt;
    UnpayableStops(m, txs, i);
    forall k | 0 <= k <= |txs| ensures ApplyAll(m, txs[..k]).ok <==> k <= i {
      if k <= i {
        assert txs[..i] == txs[..k] + txs[k..i];
        ApplyAllConcat(m, txs[..k], txs[k..i]);
      } else {
        assert txs[..k] == txs[..i + 1] + txs[i + 1..k];
        ApplyAllConcat(m, txs[..i + 1], txs[i + 1..k]);
      }
    }
  }

  lemma UnpayableStops(m: AccountMap, txs: seq<Transaction>, i: nat)
    requires i < |txs| && ApplyAll(m, txs[..i]).ok
    requires AccountAt(ApplyAll(m, txs[..i]).accounts, txs[i].from).balance < txs[i].value
    ensures !ApplyAll(m, txs[..i + 1]).ok
  {
    hide Transfer, AccountAt;
    assert txs[..i + 1][..i] == txs[..i];
    TransferEffect(ApplyAll(m, txs[..i]).accounts, txs[i].from, txs[i].to, txs[i].value, txs[i].from);
  }

  /**
   * A throwing `mineBlock` keeps the blocks and the mempool, and every account
   * stands as after the transactions before the one that could not be paid.
   */
  lemma FailedMining(hash: Hash, c: Chain, now: Uint64) returns (i: nat)
    requires c.blocks != [] && !Mine(hash, c, now).result.Ok?
    ensures i < |c.mempool| && ApplyAll(c.accounts, c.mempool[..i]).ok
    ensures LastPayable(c.accounts, c.mempool, i)
    ensures var paid := ApplyAll(c.accounts, c.mempool[..i]).accounts;
            var left := Mine(hash, c, now).chain;
            && left == c.(accounts := left.accounts)
            && forall a: Address :: AccountAt(left.accounts, a) == AccountAt(paid, a)
  {
    hide ApplyAll, AccountAt, Touch, MinedBlock;
    i := StopsAt(c.accounts, c.mempool);
    StopIsLastPayable(c.accounts, c.mempool, i);
    var tx := c.mempool[i];
    forall a: Address ensures
        AccountAt(Mine(hash, c, now).chain.accounts, a)
        == AccountAt(ApplyAll(c.accounts, c.mempool[..i]).accounts, a)
    {
      TouchNothingIff(ApplyAll(c.accounts, c.mempool[..i]).accounts, tx.from, tx.to, a);
    }
  }

  /** The chain after the first `n` of a series of `mineBlock` calls, one per clock reading. */
  ghost function Attempts(hash: Hash, c: Chain, clock: seq<Uint64>, n: nat): Chain
    requires c.blocks != [] && n <= |clock|
    ensures Attempts(hash, c, clock, n).blocks != []
  {
    if n == 0 then c else Mine(hash, Attempts(hash, c, clock, n - 1), clock[n - 1]).chain
  }

  /** Each of the first `n` attempts throws. */
  ghost predicate AllThrow(hash: Hash, c: Chain, clock: seq<Uint64>, n: nat)
    requires c.blocks != [] && n <= |clock|
  {
    forall k :: 0 <= k < n ==> !Mine(hash, Attempts(hash, c, clock, k), clock[k]).result.Ok?
  }

  /** How often attempts that stopped at the given places paid a transaction from `a`. */
  function PaidFrom(txs: seq<Transaction>, stops: seq<nat>, a: Address): nat
    requires forall k :: 0 <= k < |stops| ==> stops[k] <= |txs|
  {
    if stops == [] then 0
    else PaidFrom(txs, stops[..|stops| - 1], a) + CountFrom(txs[..stops[|stops| - 1]], a)
  }

  /** What such attempts moved to `a` in all. */
  function PaidFlow(txs: seq<Transaction>, stops: seq<nat>, a: Address): int
    requires forall k :: 0 <= k < |stops| ==> stops[k] <= |txs|
  {
    if stops == [] then 0
    else PaidFlow(txs, stops[..|stops| - 1], a) + Flow(txs[..stops[|stops| - 1]], a)
  }

  /** Every account's nonce and balance moved by the given amounts, modulo 2^64. */
  ghost predicate MovedBy(m: AccountMap, after: AccountMap, txs: seq<Transaction>, stops: seq<nat>)
    requires forall k :: 0 <= k < |stops| ==> stops[k] <= |txs|
  {
    forall a: Address ::
      && AccountAt(after, a).nonce == (AccountAt(m, a).nonce + PaidFrom(txs, stops, a)) % TWO64
      && AccountAt(after, a).balance == (AccountAt(m, a).balance + PaidFlow(txs, stops, a)) % TWO64
  }

  /** Each attempt paid the longest beginning of the mempool that the state it found could pay. */
  ghost predicate PaidWhatItCould(hash: Hash, c: Chain, clock: seq<Uint64>, stops: seq<nat>)
    requires c.blocks != [] && |stops| <= |clock|
  {
    forall k :: 0 <= k < |stops| ==> LastPayable(Attempts(hash, c, clock, k).accounts, c.mempool, stops[k])
  }

  /**
   * Any number of `mineBlock` calls that all throw keep the blocks and the
   * mempool, and each of them pays once more the longest beginning of the
   * mempool that the state it found can pay: the effects on nonces and
   * balances add up.
   */
  lemma {:induction false} RetriesPayAgain(hash: Hash, c: Chain, clock: seq<Uint64>, n: nat)
    returns (stops: seq<nat>)
    requires c.blocks != [] && n <= |clock| && AllThrow(hash, c, clock, n)
    ensures |stops| == n
    ensures forall k :: 0 <= k < n ==> stops[k] < |c.mempool|
    ensures PaidWhatItCould(hash, c, clock, stops)
    ensures var left := Attempts(hash, c, clock, n);
            && left == c.(accounts := left.accounts)
            && MovedBy(c.accounts, left.accounts, c.mempool, stops)
  {
    hide Mine, AccountAt, CountFrom, Flow, ApplyAll, LastPayable, MovedBy, PaidFrom, PaidFlow;
    if n == 0 {
      stops := [];
      UnmovedModulo(c.accounts, c.mempool);
    } else {
      var earlier := RetriesPayAgain(hash, c, clock, n - 1);
      var before := Attempts(hash, c, clock, n - 1);
      var i := FailedMining(hash, before, clock[n - 1]);
      stops := earlier + [i];
      PassMoves(c.accounts, before.accounts, Attempts(hash, c, clock, n).accounts, c.mempool, earlier, i);
    }
  }

  lemma UnmovedModulo(m: AccountMap, txs: seq<Transaction>)
    ensures MovedBy(m, m, txs, [])
  {
  }

  lemma PassMoves(m: AccountMap, before: AccountMap, after: AccountMap,
                  txs: seq<Transaction>, stops: seq<nat>, i: nat)
    requires forall k :: 0 <= k < |stops| ==> stops[k] <= |txs|
    requires i <= |txs| && MovedBy(m, before, txs, stops) && ApplyAll(before, txs[..i]).ok
    requires forall a: Address :: AccountAt(after, a) == AccountAt(ApplyAll(before, txs[..i]).accounts, a)
    ensures MovedBy(m, after, txs, stops + [i])
  {
    hide AccountAt, CountFrom, Flow, ApplyAll;
    forall a: Address
      ensures AccountAt(after, a).nonce == (AccountAt(m, a).nonce + PaidFrom(txs, stops + [i], a)) % TWO64
      ensures AccountAt(after, a).balance == (AccountAt(m, a).balance + PaidFlow(txs, stops + [i], a)) % TWO64
    {
      assert (stops + [i])[..|stops|] == stops;
      NonceCounts(before, txs[..i], a);
      BalanceFlows(before, txs[..i], a);
      SumMod(AccountAt(m, a).nonce + PaidFrom(txs, stops, a), CountFrom(txs[..i], a));
      SumMod(AccountAt(m, a).balance + PaidFlow(txs, stops, a), Flow(txs[..i], a));
    }
  }

  lemma SumMod(x: int, y: int)
    ensures (x % TWO64 + y) % TWO64 == (x + y) % TWO64
  {
    var q, r := (x % TWO64 + y) / TWO64, (x % TWO64 + y) % TWO64;
    IntMod(x + y, x / TWO64 + q, r);
  }

  lemma SuccessfulMining(hash: Hash, c: Chain, now: Uint64)
    requires c.blocks != [] && Mine(hash, c, now).result.Ok?
    ensures var last := Mine(hash, c, now);
            && ApplyAll(c.accounts, c.mempool) == Applied(last.chain.accounts, true)
            && last.result.value.transactions == c.mempool
            && last.chain.blocks == c.blocks + [last.result.value] && last.chain.mempool == []
  {
    hide ApplyAll, Prove, HexOfHash, BlockPreimage, TxRoot, StateRoot, Receipts, ReceiptsRoot;
  }

  /**
   * A block mined at last carries the mempool once, and the accounts hold its
   * payments on top of every failed attempt's.
   */
  lemma SuccessAfterRetries(hash: Hash, c: Chain, clock: seq<Uint64>, now: Uint64) returns (passes: seq<nat>)
    requires c.blocks != [] && AllThrow(hash, c, clock, |clock|)
    requires Mine(hash, Attempts(hash, c, clock, |clock|), now).result.Ok?
    ensures |passes| == |clock| + 1 && passes[|clock|] == |c.mempool|
    ensures forall k :: 0 <= k < |passes| ==> passes[k] <= |c.mempool|
    ensures PaidWhatItCould(hash, c, clock, passes[..|clock|])
    ensures var last := Mine(hash, Attempts(hash, c, clock, |clock|), now);
            && last.result.value.transactions == c.mempool
            && last.chain.blocks == c.blocks + [last.result.value] && last.chain.mempool == []
            && MovedBy(c.accounts, last.chain.accounts, c.mempool, passes)
  {
    hide AccountAt, CountFrom, Flow, ApplyAll, Attempts, AllThrow, PaidFrom, PaidFlow, MovedBy, Mine, PaidWhatItCould;
    var stops := RetriesPayAgain(hash, c, clock, |clock|);
    passes := stops + [|c.mempool|];
    assert passes[..|clock|] == stops;
    var before := Attempts(hash, c, clock, |clock|);
    SuccessfulMining(hash, before, now);
    assert c.mempool[..|c.mempool|] == c.mempool;
    PassMoves(c.accounts, before.accounts, Mine(hash, before, now).chain.accounts, c.mempool, stops, |c.mempool|);
  }

  /** A sequence creates both accounts of its first transaction. */
  lemma {:induction false} FirstAccountsExist(m: AccountMap, txs: seq<Transaction>)
    requires txs != []
    ensures txs[0].from in ApplyAll(m, txs).accounts && txs[0].to in ApplyAll(m, txs).accounts
  {
    hide Transfer;
    var init, tx := txs[..|txs| - 1], txs[|txs| - 1];
    if init != [] {
      FirstAccountsExist(m, init);
    }
    TransferEffect(ApplyAll(m, init).accounts, tx.from, tx.to, tx.value, tx.from);
  }

  /**
   * A retry that throws as well changes nothing exactly when the first
   * transaction cannot be paid in the state the failed attempt left behind.
   */
  lemma RetryChangesNothingIff(hash: Hash, c: Chain, now: Uint64, later: Uint64)
    requires c.blocks != [] && !Mine(hash, c, now).result.Ok? && |c.mempool| <= MAX_SIZE
    requires !Mine(hash, Mine(hash, c, now).chain, later).result.Ok?
    ensures c.mempool != []
    ensures var once := Mine(hash, c, now).chain;
            Mine(hash, once, later).chain == once <==>
            AccountAt(once.accounts, c.mempool[0].from).balance < c.mempool[0].value
  {
    hide AccountAt, ApplyAll, MinedBlock;
    var once := Mine(hash, c, now).chain;
    FailureLeavesStateIff(once.accounts, once.mempool);
    FirstAccountsExist(c.accounts, c.mempool);
  }

  /** The double payment is real: twice the amount leaves an account that can pay it twice. */
  lemma RetryExample(hash: Hash, c: Chain, now: Uint64, later: Uint64)
    requires c.blocks != [] && PaysThenFails(c.accounts, c.mempool)
    requires 2 * c.mempool[0].value <= AccountAt(c.accounts, c.mempool[0].from).balance
    requires AccountAt(c.accounts, c.mempool[0].to).balance + 2 * c.mempool[0].value < c.mempool[1].value
    ensures var once := Mine(hash, c, now).chain;
            var twice := Mine(hash, once, later).chain;
            && !Mine(hash, c, now).result.Ok? && !Mine(hash, once, later).result.Ok?
            && AccountAt(twice.accounts, c.mempool[0].from).balance
               == AccountAt(c.accounts, c.mempool[0].from).balance - 2 * c.mempool[0].value
  {
    hide ApplyAll, AccountAt, MinedBlock;
    PaysThenFailsEffect(c.accounts, c.mempool);
    var once := Mine(hash, c, now).chain;
    PaysThenFailsEffect(once.accounts, once.mempool);
  }

  // -------------------------------------------------------------- validation

  lemma WrappedProductExact(p: Uint64, l: Uint64)
    ensures p != 0 ==> (Mul64(p, l) / p == l <==> p * l < TWO64)
    ensures p == 0 ==> Mul64(p, l) == 0 == p * l
  {
    if p != 0 {
      var w := Mul64(p, l);
      if p * l < TWO64 {
        assert w == p * l;
        DivMod(w, p, l, 0);
      } else {
        assert w < TWO64 <= p * l;
        DivBelow(w, p, l);
      }
    }
  }

  lemma DivBelow(w: nat, p: nat, l: nat)
    requires p != 0 && w < p * l
    ensures w / p != l
  {
    assert p * (w / p) <= w;
  }

  /** The wrapping checks pass exactly when the integer cost is covered. */
  lemma FundsCheckedExactly(balance: Uint64, gasPrice: Uint64, gasLimit: Uint64, value: Uint64)
    ensures FundsError(balance, gasPrice, gasLimit, value) == None <==>
            gasPrice * gasLimit + value <= balance
  {
    WrappedProductExact(gasPrice, gasLimit);
    if gasPrice != 0 && gasPrice * gasLimit < TWO64 {
      assert Mul64(gasPrice, gasLimit) == gasPrice * gasLimit;
    }
  }

  /** What `validateTransaction` accepts, over the integers and down to the recovery call. */
  lemma ValidationExact(cr: Crypto, chainId: Uint64, m: AccountMap, tx: Transaction)
    ensures ValidationError(cr, chainId, m, tx) == None <==>
            && tx.chainId == chainId
            && Signed(cr, tx)
            && tx.nonce == AccountAt(m, tx.from).nonce
            && tx.gasPrice * tx.gasLimit + tx.value <= AccountAt(m, tx.from).balance
  {
    hide VerifySignature, FundsError, Signed;
    SignatureVerifiesIff(cr, tx);
    FundsCheckedExactly(AccountAt(m, tx.from).balance, tx.gasPrice, tx.gasLimit, tx.value);
  }

  /** Which check answers, over the integers: the first one that fails. */
  lemma ValidationAnswers(cr: Crypto, chainId: Uint64, m: AccountMap, tx: Transaction)
    ensures var cost := tx.gasPrice * tx.gasLimit;
            ValidationError(cr, chainId, m, tx) ==
            if tx.chainId != chainId then Some("Invalid chainId")
            else if !Signed(cr, tx) then Some("Invalid signature")
            else if tx.nonce != AccountAt(m, tx.from).nonce then Some("Invalid nonce")
            else if cost >= TWO64 then Some("Gas cost overflow")
            else if cost + tx.value >= TWO64 then Some("Total cost overflow")
            else if cost + tx.value > AccountAt(m, tx.from).balance then Some("Insufficient funds")
            else None
  {
    hide VerifySignature, Signed, FundsError;
    SignatureVerifiesIff(cr, tx);
    FundsAnswers(AccountAt(m, tx.from).balance, tx.gasPrice, tx.gasLimit, tx.value);
  }

  lemma FundsAnswers(balance: Uint64, gasPrice: Uint64, gasLimit: Uint64, value: Uint64)
    ensures var cost := gasPrice * gasLimit;
            FundsError(balance, gasPrice, gasLimit, value) ==
            if cost >= TWO64 then Some("Gas cost overflow")
            else if cost + value >= TWO64 then Some("Total cost overflow")
            else if cost + value > balance then Some("Insufficient funds")
            else None
  {
    WrappedProductExact(gasPrice, gasLimit);
    if gasPrice != 0 && gasPrice * gasLimit < TWO64 {
      assert Mul64(gasPrice, gasLimit) == gasPrice * gasLimit;
    }
  }

  /**
   * Once a transaction with a named sender is accepted, naming any other
   * sender is answered "Invalid signature", in whatever state.
   */
  lemma OtherSenderRefused(cr: Crypto, chainId: Uint64, m: AccountMap, tx: Transaction,
                           from: Address, m': AccountMap)
    requires tx.from != ZERO_ADDRESS && from != ZERO_ADDRESS && from != tx.from
    requires ValidationError(cr, chainId, m, tx) == None
    ensures ValidationError(cr, chainId, m', tx.(from := from)) == Some("Invalid signature")
  {
    hide VerifySignature, FundsError;
    OneSenderVerifies(cr, tx, from);
  }

  predicate DistinctSenders(txs: seq<Transaction>) {
    forall i, j :: 0 <= i < j < |txs| ==> txs[i].from != txs[j].from
  }

  lemma {:induction false} NotAmongSenders(txs: seq<Transaction>, a: Address)
    requires forall i :: 0 <= i < |txs| ==> txs[i].from != a
    ensures CountFrom(txs, a) == 0
  {
    if txs != [] {
      NotAmongSenders(txs[..|txs| - 1], a);
    }
  }

  /** An account that sends nothing loses nothing, below the supply bound. */
  lemma {:induction false} BystanderKeepsBalance(m: AccountMap, txs: seq<Transaction>, a: Address)
    requires Total(m) < TWO64 && ApplyAll(m, txs).ok
    requires forall i :: 0 <= i < |txs| ==> txs[i].from != a
    ensures AccountAt(ApplyAll(m, txs).accounts, a).balance >= AccountAt(m, a).balance
  {
    hide Transfer, Total, AccountAt;
    if txs != [] {
      var init, tx := txs[..|txs| - 1], txs[|txs| - 1];
      var before := ApplyAll(m, init).accounts;
      BystanderKeepsBalance(m, init, a);
      ApplyAllConserves(m, init);
      NoWrapBelowBound(before, tx.from, tx.to, tx.value);
      TransferEffect(before, tx.from, tx.to, tx.value, a);
      TransferEffect(before, tx.from, tx.to, tx.value, tx.from);
    }
  }

  lemma {:induction false} CoveredMempoolApplies(m: AccountMap, txs: seq<Transaction>)
    requires Total(m) < TWO64 && DistinctSenders(txs)
    requires forall i :: 0 <= i < |txs| ==> txs[i].value <= AccountAt(m, txs[i].from).balance
    ensures ApplyAll(m, txs).ok
  {
    hide Transfer, Total;
    if txs != [] {
      var init, tx := txs[..|txs| - 1], txs[|txs| - 1];
      CoveredMempoolApplies(m, init);
      BystanderKeepsBalance(m, init, tx.from);
      TransferEffect(ApplyAll(m, init).accounts, tx.from, tx.to, tx.value, tx.from);
    }
  }

  lemma {:induction false} OneFromEach(txs: seq<Transaction>, i: nat)
    requires DistinctSenders(txs) && i < |txs|
    ensures CountFrom(txs, txs[i].from) == 1
  {
    var init := txs[..|txs| - 1];
    if i == |txs| - 1 {
      NotAmongSenders(init, txs[i].from);
    } else {
      OneFromEach(init, i);
    }
  }

  /**
   * Below the supply bound, a mempool of transactions from distinct senders,
   * each accepted by `validateTransaction` in the current state, mines without
   * throwing, and every sender's nonce rises by one.
   */
  lemma ValidatedMempoolMines(cr: Crypto, chainId: Uint64, c: Chain, now: Uint64)
    requires c.blocks != [] && Total(c.accounts) < TWO64 && DistinctSenders(c.mempool)
    requires forall i :: 0 <= i < |c.mempool| ==> ValidationError(cr, chainId, c.accounts, c.mempool[i]) == None
    ensures Mine(cr.keccak, c, now).result.Ok?
    ensures forall i :: 0 <= i < |c.mempool| ==>
              var tx := c.mempool[i];
              && tx.nonce == AccountAt(c.accounts, tx.from).nonce
              && AccountAt(Mine(cr.keccak, c, now).chain.accounts, tx.from).nonce == Add64(tx.nonce, 1)
  {
    hide ApplyAll, Total, ValidationError, Signed, MinedBlock, AccountAt;
    var txs := c.mempool;
    forall i | 0 <= i < |txs| ensures txs[i].value <= AccountAt(c.accounts, txs[i].from).balance {
      ValidationExact(cr, chainId, c.accounts, txs[i]);
      ProductNonNegative(txs[i].gasPrice, txs[i].gasLimit);
    }
    CoveredMempoolApplies(c.accounts, txs);
    forall i | 0 <= i < |txs|
      ensures txs[i].nonce == AccountAt(c.accounts, txs[i].from).nonce
      ensures AccountAt(ApplyAll(c.accounts, txs).accounts, txs[i].from).nonce == Add64(txs[i].nonce, 1)
    {
      ValidationExact(cr, chainId, c.accounts, txs[i]);
      NonceCounts(c.accounts, txs, txs[i].from);
      OneFromEach(txs, i);
      Add64Mod(txs[i].nonce, 1);
    }
  }

  lemma ProductNonNegative(a: nat, b: nat)
    ensures a * b >= 0
  {
  }
}
