/** The second block producer, racing with the steps of the chain. */
module Templates {
  import opened Common
  import opened Types
  import opened Accounts
  import opened Blocks
  import opened Chains
  import opened Runs
  import opened Commitments

  /**
   * `buildBlockTemplate` succeeds exactly when `mineBlock` would return, and
   * with the same clock the two blocks agree in everything but the receipts;
   * even the hash, since it is taken before `receiptsRoot` is set.
   */
  lemma TemplateAgreesWithMining(hash: Hash, c: Chain, now: Uint64)
    requires c.blocks != []
    ensures Template(hash, c, now).Ok? <==> Mine(hash, c, now).result.Ok?
    ensures Template(hash, c, now).Ok? ==>
              var t, b := Template(hash, c, now).value, Mine(hash, c, now).result.value;
              && t == b.(receipts := [], receiptsRoot := [])
              && t.stateAfter == StateRoot(hash, Mine(hash, c, now).chain.accounts)
              && b.receipts == Receipts(c.mempool) && b.receiptsRoot == ReceiptsRoot(hash, c.mempool)
  {
    hide StateRoot, TxRoot, ReceiptsRoot, Receipts, ApplyAll, Prove, HexOfHash, BlockPreimage;
  }

  /**
   * Offered to a chain that extends both chains it was built from, a template
   * is accepted exactly when no block was appended since its size was read and
   * the last hash it read is the last hash there. The state it was built from
   * plays no part.
   */
  lemma SplitTemplateAcceptedIff(hash: Hash, r: Reads, now: Uint64, at: Chain)
    requires r.linked != [] && TemplateFrom(hash, r, now).Ok?
    requires r.counted <= at.blocks && r.linked <= at.blocks
    ensures Accepts(hash, at, TemplateFrom(hash, r, now).value) <==>
            at.blocks == r.counted && Last(at.blocks).hash == Last(r.linked).hash
  {
    hide StateRoot, TxRoot, ApplyAll, HexOfHash, BlockPreimage, Commitment;
    assert |at.blocks| == |r.counted| ==> at.blocks == r.counted;
  }

  /**
   * Every field of a template comes from its own read. So its transaction root
   * is that of the transactions it carries, whatever the hash, exactly when the
   * two reads of the mempool saw the same signed encodings.
   */
  lemma SplitTemplateFields(hash: Hash, r: Reads, now: Uint64)
    requires r.linked != []
    ensures TemplateFrom(hash, r, now).Ok? <==> ApplyAll(r.copied, r.applied).ok
    ensures TemplateFrom(hash, r, now).Ok? ==>
              var t := TemplateFrom(hash, r, now).value;
              && t.stateBefore == t.proof.stateBefore == StateRoot(hash, r.rooted)
              && t.stateAfter == t.proof.stateAfter == StateRoot(hash, ApplyAll(r.copied, r.applied).accounts)
              && t.txRoot == t.proof.txRoot == TxRoot(hash, r.committed)
              && t.transactions == r.attached && t.receipts == [] && t.receiptsRoot == [] && t.timestamp == now
              && ((forall h: Hash :: TxRoot(h, t.transactions) == TxRoot(h, r.committed))
                  <==> SameSignedBytes(r.attached, r.committed))
  {
    hide StateRoot, TxRoot, ApplyAll, HexOfHash, BlockPreimage, Commitment, SameSignedBytes;
    TxRootsEqualIff(r.attached, r.committed);
  }

  /**
   * With any steps `xs` between reading the size and reading the last hash,
   * and any `ys` before it is offered, a template is accepted exactly when
   * none of them appended a block, whatever was read of state and mempool.
   */
  lemma RacingTemplateAcceptedIff(hash: Hash, c: Chain, r: Reads, now: Uint64, xs: seq<Step>, ys: seq<Step>)
    requires c.blocks != [] && r.counted == c.blocks && r.linked == Run(hash, c, xs).blocks
    requires TemplateFrom(hash, r, now).Ok?
    ensures Accepts(hash, Run(hash, c, xs + ys), TemplateFrom(hash, r, now).value)
            <==> Run(hash, c, xs + ys).blocks == c.blocks
  {
    hide TemplateFrom, Run, Verify;
    RunConcat(hash, c, xs, ys);
    RunKeepsLinks(hash, c, xs);
    RunKeepsLinks(hash, Run(hash, c, xs), ys);
    SplitTemplateAcceptedIff(hash, r, now, Run(hash, c, xs + ys));
  }

  /**
   * So a template can be accepted with a state that is already past: when a
   * mining comes between reading the mempool and reading the chain, the block
   * carries the transactions just mined and the root they started from.
   */
  lemma StaleTemplateAccepted(hash: Hash, c: Chain, now: Uint64, later: Uint64)
    requires c.blocks != [] && Mine(hash, c, now).result.Ok?
    ensures var mined := Mine(hash, c, now);
            var read := Snapshot(c).(counted := mined.chain.blocks, linked := mined.chain.blocks);
            var t := TemplateFrom(hash, read, later);
            && t.Ok? && Accepts(hash, mined.chain, t.value)
            && t.value.transactions == mined.result.value.transactions
            && t.value.stateBefore == mined.result.value.stateBefore
  {
    hide StateRoot, TxRoot, ReceiptsRoot, Receipts, ApplyAll, HexOfHash, BlockPreimage, Commitment;
    var mined := Mine(hash, c, now);
    var read := Snapshot(c).(counted := mined.chain.blocks, linked := mined.chain.blocks);
    SplitTemplateAcceptedIff(hash, read, later, mined.chain);
  }

  lemma TemplateFits(hash: Hash, c: Chain, now: Uint64)
    requires c.blocks != [] && Template(hash, c, now).Ok?
    ensures Accepts(hash, c, Template(hash, c, now).value)
    ensures Template(hash, c, now).value.index == |c.blocks|
  {
    hide StateRoot, TxRoot, ApplyAll, HexOfHash, BlockPreimage, Commitment;
  }

  /**
   * A template offered after any steps is accepted exactly when none of them
   * appended a block.
   */
  lemma TemplateAcceptedIff(hash: Hash, c: Chain, now: Uint64, steps: seq<Step>)
    requires c.blocks != [] && Template(hash, c, now).Ok?
    ensures Accepts(hash, Run(hash, c, steps), Template(hash, c, now).value)
            <==> Run(hash, c, steps).blocks == c.blocks
  {
    hide TemplateFrom, Run, Verify;
    RunKeepsLinks(hash, c, steps);
    SplitTemplateAcceptedIff(hash, Snapshot(c), now, Run(hash, c, steps));
  }

  /** Of two templates from one snapshot, at most one is ever accepted. */
  lemma OneTemplateWins(hash: Hash, c: Chain, now1: Uint64, now2: Uint64, xs: seq<Step>, ys: seq<Step>)
    requires c.blocks != [] && Template(hash, c, now1).Ok? && Template(hash, c, now2).Ok?
    requires Accepts(hash, Run(hash, c, xs), Template(hash, c, now1).value)
    ensures var won := Next(hash, Run(hash, c, xs), Receive(Template(hash, c, now1).value));
            !Accepts(hash, Run(hash, won, ys), Template(hash, c, now2).value)
  {
    hide Template, Run, Verify;
    TemplateFits(hash, c, now2);
    RunKeepsLinks(hash, c, xs);
    var won := Next(hash, Run(hash, c, xs), Receive(Template(hash, c, now1).value));
    RunKeepsLinks(hash, won, ys);
  }

  /**
   * Accepting a block does not execute it: the accounts and the mempool stay.
   * So, whatever is submitted before and after the acceptance, the next mining
   * starts from the template's root again, and its block, which exists exactly
   * when the submissions can be paid too, begins with the template's
   * transactions. With no submissions it always exists and ends in the
   * template's root.
   */
  lemma AcceptedTemplateIsMinedAgain(hash: Hash, c: Chain, now: Uint64, later: Uint64,
                                     xs: seq<Transaction>, ys: seq<Transaction>)
    requires c.blocks != [] && Template(hash, c, now).Ok?
    ensures var t := Template(hash, c, now).value;
            var before := Run(hash, c, Submissions(xs));
            var after := Next(hash, before, Receive(t));
            var again := Mine(hash, Run(hash, after, Submissions(ys)), later).result;
            && Accepts(hash, before, t)
            && after == c.(blocks := c.blocks + [t], mempool := t.transactions + xs)
            && (again.Ok? <==> ApplyAll(c.accounts, t.transactions + xs + ys).ok)
            && (again.Ok? ==> again.value.transactions == t.transactions + xs + ys
                              && again.value.stateBefore == t.stateBefore)
            && (xs == ys == [] ==> again.Ok? && again.value.stateAfter == t.stateAfter)
  {
    hide Run, Template, ApplyAll, Commitment, StateRoot, Mine;
    var t := Template(hash, c, now).value;
    TemplateFits(hash, c, now);
    TemplateCarries(hash, c, now);
    SubmitAll(hash, c, xs);
    var after := Next(hash, Run(hash, c, Submissions(xs)), Receive(t));
    SubmitAll(hash, after, ys);
    var at := Run(hash, after, Submissions(ys));
    assert at.mempool == c.mempool + xs + ys;
    assert xs == ys == [] ==> c.mempool + xs + ys == c.mempool;
    MinedRoots(hash, at, later);
  }

  lemma TemplateCarries(hash: Hash, c: Chain, now: Uint64)
    requires c.blocks != []
    ensures Template(hash, c, now).Ok? <==> ApplyAll(c.accounts, c.mempool).ok
    ensures Template(hash, c, now).Ok? ==>
              var t := Template(hash, c, now).value;
              && t.transactions == c.mempool
              && t.stateBefore == StateRoot(hash, c.accounts)
              && t.stateAfter == StateRoot(hash, ApplyAll(c.accounts, c.mempool).accounts)
  {
    hide StateRoot, TxRoot, ApplyAll, HexOfHash, BlockPreimage, Commitment;
  }

  lemma MinedRoots(hash: Hash, c: Chain, now: Uint64)
    requires c.blocks != []
    ensures Mine(hash, c, now).result.Ok? <==> ApplyAll(c.accounts, c.mempool).ok
    ensures Mine(hash, c, now).result.Ok? ==>
              var b := Mine(hash, c, now).result.value;
              && b.transactions == c.mempool
              && b.stateBefore == StateRoot(hash, c.accounts)
              && b.stateAfter == StateRoot(hash, ApplyAll(c.accounts, c.mempool).accounts)
  {
    hide StateRoot, TxRoot, ReceiptsRoot, Receipts, ApplyAll, HexOfHash, BlockPreimage, Commitment;
  }
}
