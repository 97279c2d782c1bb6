/** Whole runs of the chain: every interleaving of its steps. */
module Runs {
  import opened Common
  import opened Types
  import opened Accounts
  import opened Supply
  import opened Blocks
  import opened Chains

  datatype Step = Submit(tx: Transaction) | MineAt(now: Uint64) | Receive(block: Block)

  ghost function Next(hash: Hash, c: Chain, s: Step): (c': Chain)
    requires c.blocks != []
    ensures c'.blocks != []
  {
    match s
    case Submit(tx) => c.(mempool := c.mempool + [tx])
    case MineAt(now) => Mine(hash, c, now).chain
    case Receive(b) => Offer(hash, c, b)
  }

  ghost function Run(hash: Hash, c: Chain, steps: seq<Step>): (c': Chain)
    requires c.blocks != []
    ensures c'.blocks != []
  {
    if steps == [] then c else Next(hash, Run(hash, c, steps[..|steps| - 1]), steps[|steps| - 1])
  }

  lemma {:induction false} RunConcat(hash: Hash, c: Chain, xs: seq<Step>, ys: seq<Step>)
    requires c.blocks != []
    ensures Run(hash, c, xs + ys) == Run(hash, Run(hash, c, xs), ys)
  {
    hide Next;
    if ys == [] {
      assert xs + ys == xs;
    } else {
      RunConcat(hash, c, xs, ys[..|ys| - 1]);
      assert (xs + ys)[..|xs + ys| - 1] == xs + ys[..|ys| - 1];
    }
  }

  // ------------------------------------------------- links, over every run

  /** Numbered from zero, hash-linked, every proof accepted. */
  predicate WellLinked(hash: Hash, blocks: seq<Block>) {
    && blocks != []
    && (forall i :: 0 <= i < |blocks| ==> blocks[i].index == i && Verify(hash, blocks[i].proof))
    && (forall i :: 0 < i < |blocks| ==> blocks[i].prevHash == blocks[i - 1].hash)
  }

  /** One step extends the chain by at most one block, and keeps it well linked. */
  lemma NextKeepsLinks(hash: Hash, c: Chain, s: Step)
    requires c.blocks != []
    ensures c.blocks <= Next(hash, c, s).blocks && |Next(hash, c, s).blocks| <= |c.blocks| + 1
    ensures WellLinked(hash, c.blocks) ==> WellLinked(hash, Next(hash, c, s).blocks)
  {
    hide Commitment, StateRoot, TxRoot, ReceiptsRoot, Receipts, ApplyAll, HexOfHash, BlockPreimage;
  }

  /** Every interleaving of submitting, mining (returning or throwing) and receiving any blocks. */
  lemma {:induction false} RunKeepsLinks(hash: Hash, c: Chain, steps: seq<Step>)
    requires c.blocks != []
    ensures c.blocks <= Run(hash, c, steps).blocks
    ensures WellLinked(hash, c.blocks) ==> WellLinked(hash, Run(hash, c, steps).blocks)
  {
    hide Next, WellLinked;
    if steps != [] {
      RunKeepsLinks(hash, c, steps[..|steps| - 1]);
      NextKeepsLinks(hash, Run(hash, c, steps[..|steps| - 1]), steps[|steps| - 1]);
    }
  }

  /**
   * From genesis the chain is append-only and well linked at every point of
   * every run.
   */
  lemma ChainIsAppendOnly(hash: Hash, genesis: GenesisConfig, now: Uint64, xs: seq<Step>, ys: seq<Step>)
    ensures var start := Start(hash, genesis, now);
            && Run(hash, start, xs).blocks <= Run(hash, start, xs + ys).blocks
            && WellLinked(hash, Run(hash, start, xs).blocks)
            && Run(hash, start, xs).blocks[0] == start.blocks[0]
  {
    hide Commitment, StateRoot, HexOfHash, BlockPreimage, Run;
    var start := Start(hash, genesis, now);
    RunConcat(hash, start, xs, ys);
    RunKeepsLinks(hash, start, xs);
    RunKeepsLinks(hash, Run(hash, start, xs), ys);
  }

  // --------------------------------------------------- supply, over every run

  lemma NextConserves(hash: Hash, c: Chain, s: Step)
    requires c.blocks != [] && Total(c.accounts) < TWO64
    ensures Total(Next(hash, c, s).accounts) == Total(c.accounts)
  {
    hide Total, ApplyAll, StateRoot;
    ApplyAllConserves(c.accounts, c.mempool);
  }

  lemma {:induction false} RunConserves(hash: Hash, c: Chain, steps: seq<Step>)
    requires c.blocks != [] && Total(c.accounts) < TWO64
    ensures Total(Run(hash, c, steps).accounts) == Total(c.accounts)
  {
    hide Total, Next;
    if steps != [] {
      RunConserves(hash, c, steps[..|steps| - 1]);
      NextConserves(hash, Run(hash, c, steps[..|steps| - 1]), steps[|steps| - 1]);
    }
  }

  /**
   * Below the bound no credit can wrap, in any state of any run or after any
   * part of the mempool has been applied to it.
   */
  lemma NoCreditEverWraps(hash: Hash, c: Chain, steps: seq<Step>, k: nat,
                          f: Address, t: Address, value: Uint64)
    requires c.blocks != [] && Total(c.accounts) < TWO64
    requires k <= |Run(hash, c, steps).mempool|
    ensures var at := Run(hash, c, steps);
            !CreditWraps(ApplyAll(at.accounts, at.mempool[..k]).accounts, f, t, value)
  {
    hide Total, Run, ApplyAll;
    RunConserves(hash, c, steps);
    var at := Run(hash, c, steps);
    ApplyAllConserves(at.accounts, at.mempool[..k]);
    NoWrapBelowBound(ApplyAll(at.accounts, at.mempool[..k]).accounts, f, t, value);
  }

  function Submissions(txs: seq<Transaction>): seq<Step> {
    seq(|txs|, i requires 0 <= i < |txs| => Submit(txs[i]))
  }

  lemma {:induction false} SubmitAll(hash: Hash, c: Chain, txs: seq<Transaction>)
    requires c.blocks != []
    ensures Run(hash, c, Submissions(txs)) == c.(mempool := c.mempool + txs)
  {
    if txs == [] {
      assert c.mempool + txs == c.mempool;
    } else {
      var init := txs[..|txs| - 1];
      SubmitAll(hash, c, init);
      assert Submissions(txs)[..|txs| - 1] == Submissions(init);
      assert c.mempool + init + [txs[|txs| - 1]] == c.mempool + txs;
    }
  }

  /**
   * The sum of balances is the same in every state of every run exactly when
   * the premine sums to less than 2^64.
   */
  lemma SupplyConstantIff(hash: Hash, genesis: GenesisConfig, now: Uint64)
    ensures var start := Start(hash, genesis, now);
            (forall steps :: Total(Run(hash, start, steps).accounts) == Total(start.accounts))
            <==> Total(Genesis(genesis.premine)) < TWO64
  {
    hide Total, Run, ApplyAll, Genesis, StateRoot;
    var start := Start(hash, genesis, now);
    if Total(start.accounts) < TWO64 {
      forall steps ensures Total(Run(hash, start, steps).accounts) == Total(start.accounts) {
        RunConserves(hash, start, steps);
      }
    } else {
      var txs := LosingRun(start.accounts);
      MineSubmitted(hash, start, txs, now);
      var steps := Submissions(txs) + [MineAt(now)];
      assert Total(Run(hash, start, steps).accounts) != Total(start.accounts);
    }
  }

  lemma MineSubmitted(hash: Hash, c: Chain, txs: seq<Transaction>, now: Uint64)
    requires c.blocks != [] && c.mempool == []
    ensures Run(hash, c, Submissions(txs) + [MineAt(now)]).accounts == ApplyAll(c.accounts, txs).accounts
  {
    hide ApplyAll, StateRoot;
    SubmitAll(hash, c, txs);
    assert [] + txs == txs;
    var steps := Submissions(txs) + [MineAt(now)];
    assert steps[..|steps| - 1] == Submissions(txs);
  }
}
