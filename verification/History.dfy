/** What the blocks of an undisturbed run say about the state. */
module History {
  import opened Common
  import opened Types
  import opened Hex
  import opened Texts
  import opened TrieEncoding
  import opened Accounts
  import opened Supply
  import opened Blocks
  import opened Chains
  import opened Runs

  // -------------------------------------------------------- replaying blocks

  /** The transactions of all blocks, in order. */
  function BlockTxs(blocks: seq<Block>): seq<Transaction> {
    if blocks == [] then [] else BlockTxs(blocks[..|blocks| - 1]) + blocks[|blocks| - 1].transactions
  }

  function Submitted(steps: seq<Step>): seq<Transaction> {
    if steps == [] then []
    else
      var s := steps[|steps| - 1];
      Submitted(steps[..|steps| - 1]) + (if s.Submit? then [s.tx] else [])
  }

  /** No block comes from outside and no call to `mineBlock` throws. */
  ghost predicate Undisturbed(hash: Hash, c: Chain, steps: seq<Step>)
    requires c.blocks != []
  {
    steps != [] ==>
      var before := Run(hash, c, steps[..|steps| - 1]);
      && Undisturbed(hash, c, steps[..|steps| - 1])
      && match steps[|steps| - 1]
         case Submit(_) => true
         case MineAt(_) => ApplyAll(before.accounts, before.mempool).ok
         case Receive(_) => false
  }

  /** The account map after the first `n` blocks are replayed from `g`. */
  function Replay(g: AccountMap, blocks: seq<Block>, n: nat): AccountMap
    requires n <= |blocks|
  {
    ApplyAll(g, BlockTxs(blocks[..n])).accounts
  }

  /**
   * The blocks replay from `g` without a throw to the live state, and every
   * block names the roots before and after its own transactions.
   */
  ghost predicate Faithful(hash: Hash, g: AccountMap, c: Chain) {
    && ApplyAll(g, BlockTxs(c.blocks)) == Applied(c.accounts, true)
    && forall i :: 0 <= i < |c.blocks| ==>
         && c.blocks[i].stateBefore == StateRoot(hash, Replay(g, c.blocks, i))
         && c.blocks[i].stateAfter == StateRoot(hash, Replay(g, c.blocks, i + 1))
  }

  lemma StartIsFaithful(hash: Hash, genesis: GenesisConfig, now: Uint64)
    ensures Faithful(hash, Genesis(genesis.premine), Start(hash, genesis, now))
  {
    hide StateRoot, Prove, HexOfHash, BlockPreimage;
    var c := Start(hash, genesis, now);
    var bs := c.blocks;
    assert bs[..0] == [] && bs[..1] == bs;
    assert BlockTxs(bs) == [] + bs[0].transactions;
  }

  /** The fields of a mined block that its history rests on. */
  lemma MinedBlockFacts(hash: Hash, c: Chain, after: AccountMap, now: Uint64)
    requires c.blocks != []
    ensures var b := MinedBlock(hash, c, after, now);
            && b.index == |c.blocks| && b.prevHash == c.blocks[|c.blocks| - 1].hash
            && b.stateBefore == StateRoot(hash, c.accounts) && b.stateAfter == StateRoot(hash, after)
            && b.transactions == c.mempool && b.txRoot == TxRoot(hash, c.mempool)
            && b.receipts == Receipts(c.mempool) && b.receiptsRoot == ReceiptsRoot(hash, c.mempool)
            && b.proof.stateBefore == b.stateBefore && b.proof.stateAfter == b.stateAfter
            && b.proof.txRoot == b.txRoot && Verify(hash, b.proof) && b.timestamp == now
  {
    hide StateRoot, TxRoot, ReceiptsRoot, Receipts, HexOfHash, BlockPreimage, Commitment;
  }

  /**
   * The stored hash is taken before the receipts root is set: its preimage is
   * never the one `computeHash` would use on the finished block.
   */
  lemma MinedHashOmitsReceipts(hash: Hash, c: Chain, after: AccountMap, now: Uint64)
    requires c.blocks != []
    ensures var b := MinedBlock(hash, c, after, now);
            && b.hash == HexOfHash(hash, BlockPreimage(b.(receiptsRoot := [])))
            && BlockPreimage(b.(receiptsRoot := [])) != BlockPreimage(b)
  {
    hide StateRoot, TxRoot, Receipts, HexOfHash, Commitment, Decimal, NodeBytes, ToHex;
    var b := MinedBlock(hash, c, after, now);
    assert |b.receiptsRoot| >= 2;
    PreimageLength(b);
    PreimageLength(b.(receiptsRoot := []));
  }

  lemma PreimageLength(b: Block)
    ensures |BlockPreimage(b)| == |BlockPreimage(b.(receiptsRoot := []))| + |b.receiptsRoot|
  {
    hide Decimal;
  }

  lemma AppendKeepsReplay(g: AccountMap, blocks: seq<Block>, b: Block, n: nat)
    requires n <= |blocks|
    ensures Replay(g, blocks + [b], n) == Replay(g, blocks, n)
    ensures BlockTxs(blocks + [b]) == BlockTxs(blocks) + b.transactions
  {
    assert (blocks + [b])[..n] == blocks[..n];
    assert (blocks + [b])[..|blocks|] == blocks;
  }

  lemma MineKeepsFaith(hash: Hash, g: AccountMap, c: Chain, now: Uint64)
    requires c.blocks != [] && Faithful(hash, g, c)
    requires ApplyAll(c.accounts, c.mempool).ok
    ensures Faithful(hash, g, Mine(hash, c, now).chain)
    ensures BlockTxs(Mine(hash, c, now).chain.blocks) == BlockTxs(c.blocks) + c.mempool
  {
    hide StateRoot, MinedBlock, ApplyAll, BlockTxs, TxRoot, Receipts, ReceiptsRoot, Verify;
    var after := ApplyAll(c.accounts, c.mempool).accounts;
    var b := MinedBlock(hash, c, after, now);
    var bs := c.blocks + [b];
    MinedBlockFacts(hash, c, after, now);
    AppendKeepsReplay(g, c.blocks, b, 0);
    ApplyAllConcat(g, BlockTxs(c.blocks), c.mempool);
    forall i | 0 <= i < |bs|
      ensures bs[i].stateBefore == StateRoot(hash, Replay(g, bs, i))
      ensures bs[i].stateAfter == StateRoot(hash, Replay(g, bs, i + 1))
    {
      AppendKeepsReplay(g, c.blocks, b, i);
      if i < |c.blocks| {
        AppendKeepsReplay(g, c.blocks, b, i + 1);
      } else {
        assert bs[..i + 1] == bs && c.blocks[..i] == c.blocks;
      }
    }
  }

  /**
   * Over every undisturbed run: the live state is the replay of all block
   * transactions from genesis, each block starts at the root its predecessor
   * ended at, and the block transactions followed by the mempool are what was
   * submitted, in order.
   */
  lemma {:induction false} UndisturbedRunReplays(hash: Hash, genesis: GenesisConfig, now: Uint64, steps: seq<Step>)
    requires Undisturbed(hash, Start(hash, genesis, now), steps)
    ensures var c := Run(hash, Start(hash, genesis, now), steps);
            && Faithful(hash, Genesis(genesis.premine), c)
            && BlockTxs(c.blocks) + c.mempool == Submitted(steps)
            && forall i :: 0 < i < |c.blocks| ==> c.blocks[i].stateBefore == c.blocks[i - 1].stateAfter
  {
    hide StateRoot, ApplyAll, Mine, Start, Genesis, Faithful;
    var start := Start(hash, genesis, now);
    var c := Run(hash, start, steps);
    if steps == [] {
      StartIsFaithful(hash, genesis, now);
      StartHasNoTransactions(hash, genesis, now);
    } else {
      var before := Run(hash, start, steps[..|steps| - 1]);
      UndisturbedRunReplays(hash, genesis, now, steps[..|steps| - 1]);
      match steps[|steps| - 1]
      case Submit(tx) =>
        SubmitKeepsFaith(hash, Genesis(genesis.premine), before, tx);
      case MineAt(t) =>
        MineKeepsFaith(hash, Genesis(genesis.premine), before, t);
        MineEmptiesMempool(hash, before, t);
    }
    FaithfulRootsMeet(hash, Genesis(genesis.premine), c);
  }

  lemma StartHasNoTransactions(hash: Hash, genesis: GenesisConfig, now: Uint64)
    ensures var c := Start(hash, genesis, now);
            BlockTxs(c.blocks) + c.mempool == []
  {
    hide StateRoot, Prove, HexOfHash, BlockPreimage;
    var c := Start(hash, genesis, now);
    assert BlockTxs(c.blocks) == [] + c.blocks[0].transactions;
  }

  lemma SubmitKeepsFaith(hash: Hash, g: AccountMap, c: Chain, tx: Transaction)
    requires c.blocks != [] && Faithful(hash, g, c)
    ensures Faithful(hash, g, Next(hash, c, Submit(tx)))
    ensures var c' := Next(hash, c, Submit(tx));
            BlockTxs(c'.blocks) + c'.mempool == BlockTxs(c.blocks) + c.mempool + [tx]
  {
    hide StateRoot, ApplyAll;
  }

  lemma MineEmptiesMempool(hash: Hash, c: Chain, now: Uint64)
    requires c.blocks != [] && ApplyAll(c.accounts, c.mempool).ok
    ensures Mine(hash, c, now).chain.mempool == []
  {
    hide StateRoot, MinedBlock, ApplyAll;
  }

  lemma FaithfulRootsMeet(hash: Hash, g: AccountMap, c: Chain)
    requires Faithful(hash, g, c)
    ensures forall i :: 0 < i < |c.blocks| ==> c.blocks[i].stateBefore == c.blocks[i - 1].stateAfter
  {
    hide StateRoot, ApplyAll, Replay;
    forall i | 0 < i < |c.blocks| ensures c.blocks[i].stateBefore == c.blocks[i - 1].stateAfter {
      assert c.blocks[i - 1].stateAfter == StateRoot(hash, Replay(g, c.blocks, i - 1 + 1));
    }
  }
}
