/**
 * The texts behind proofs and block hashes, cut at their bars. Each statement
 * takes any text with the right parts, so it does not rest on how the code
 * puts the text together.
 */
module HashedTexts {
  import opened Common
  import opened Hex
  import opened Texts
  import opened Types
  import opened Accounts
  import opened Blocks
  import opened Chains

  // ------------------------------------------------------------------- proofs

  lemma ProofTextCut(before: Text, after: Text, txRoot: Text)
    ensures Cut(ProofText(before, after, txRoot)) == Cut(before) + Cut(after) + Cut(txRoot)
  {
    hide Cut;
    CutAtBar(before + BAR + after, txRoot);
    CutAtBar(before, after);
  }

  lemma CommitmentTextCut(proof: Text, before: Text, after: Text, txRoot: Text)
    ensures Cut(CommitmentText(proof, before, after, txRoot)) == Cut(proof) + Cut(before) + Cut(after) + Cut(txRoot)
  {
    hide Cut;
    CutAtBar(proof + BAR + before + BAR + after, txRoot);
    CutAtBar(proof + BAR + before, after);
    CutAtBar(proof, before);
  }

  /** `ZkVerifier::verify` accepts one commitment only: the hash of the four texts between bars. */
  lemma ProofAcceptedIff(hash: Hash, p: ZkProof, t: Text)
    requires Cut(t) == Cut(p.proof) + Cut(p.stateBefore) + Cut(p.stateAfter) + Cut(p.txRoot)
    ensures Verify(hash, p) <==> p.commitment == ToHex(hash(t))
  {
    hide Cut, ToHex, CommitmentText;
    CommitmentTextCut(p.proof, p.stateBefore, p.stateAfter, p.txRoot);
    CutEqualIff(t, CommitmentText(p.proof, p.stateBefore, p.stateAfter, p.txRoot));
  }

  /** `ZkProver::generate`: the proof hashes three texts, and what comes out is accepted. */
  lemma GeneratedProof(hash: Hash, before: Text, after: Text, txRoot: Text, t: Text)
    requires Cut(t) == Cut(before) + Cut(after) + Cut(txRoot)
    ensures var p := Prove(hash, before, after, txRoot);
            && p.proof == ToHex(hash(t)) && Verify(hash, p)
            && p.stateBefore == before && p.stateAfter == after && p.txRoot == txRoot
  {
    hide Cut, ToHex, ProofText;
    ProofTextCut(before, after, txRoot);
    CutEqualIff(t, ProofText(before, after, txRoot));
  }

  /** Without bars in them, equal texts mean four equal fields. */
  lemma CommitmentTextEqualIff(p: ZkProof, q: ZkProof)
    requires NoBar(p.proof) && NoBar(p.stateBefore) && NoBar(p.stateAfter) && NoBar(p.txRoot)
    requires NoBar(q.proof) && NoBar(q.stateBefore) && NoBar(q.stateAfter) && NoBar(q.txRoot)
    ensures CommitmentText(p.proof, p.stateBefore, p.stateAfter, p.txRoot)
            == CommitmentText(q.proof, q.stateBefore, q.stateAfter, q.txRoot)
            <==> p.(commitment := []) == q.(commitment := [])
  {
    hide Cut, NoBar, CommitmentText;
    CommitmentTextCut(p.proof, p.stateBefore, p.stateAfter, p.txRoot);
    CommitmentTextCut(q.proof, q.stateBefore, q.stateAfter, q.txRoot);
    WholeProof(p);
    WholeProof(q);
    if CommitmentText(p.proof, p.stateBefore, p.stateAfter, p.txRoot)
       == CommitmentText(q.proof, q.stateBefore, q.stateAfter, q.txRoot) {
      assert [p.proof, p.stateBefore, p.stateAfter, p.txRoot] == [q.proof, q.stateBefore, q.stateAfter, q.txRoot];
    }
  }

  lemma WholeProof(p: ZkProof)
    requires NoBar(p.proof) && NoBar(p.stateBefore) && NoBar(p.stateAfter) && NoBar(p.txRoot)
    ensures Cut(p.proof) + Cut(p.stateBefore) + Cut(p.stateAfter) + Cut(p.txRoot)
            == [p.proof, p.stateBefore, p.stateAfter, p.txRoot]
  {
    hide Cut, NoBar;
    CutWhole(p.proof);
    CutWhole(p.stateBefore);
    CutWhole(p.stateAfter);
    CutWhole(p.txRoot);
  }

  function WithCommitment(b: Block, commitment: Text): Block {
    b.(proof := b.proof.(commitment := commitment))
  }

  /** `addBlock` refuses an acceptable block once its commitment is another. */
  lemma OneCommitmentAccepted(hash: Hash, c: Chain, b: Block, commitment: Text)
    requires c.blocks != [] && Accepts(hash, c, b)
    ensures Accepts(hash, c, WithCommitment(b, commitment)) <==> commitment == b.proof.commitment
  {
    hide Commitment;
  }

  /** So a mined block fits the chain it was mined on with its own commitment only. */
  lemma MinedBlockFitsIff(hash: Hash, c: Chain, after: AccountMap, now: Uint64, commitment: Text)
    requires c.blocks != []
    ensures Accepts(hash, c, WithCommitment(MinedBlock(hash, c, after, now), commitment))
            <==> commitment == MinedBlock(hash, c, after, now).proof.commitment
  {
    hide StateRoot, TxRoot, ReceiptsRoot, Receipts, HexOfHash, BlockPreimage, Commitment;
    OneCommitmentAccepted(hash, c, MinedBlock(hash, c, after, now), commitment);
  }

  /** And so does a template, whatever its reads saw of state and mempool. */
  lemma TemplateFitsIff(hash: Hash, r: Reads, c: Chain, now: Uint64, commitment: Text)
    requires c.blocks != [] && r.counted == r.linked == c.blocks && TemplateFrom(hash, r, now).Ok?
    ensures Accepts(hash, c, WithCommitment(TemplateFrom(hash, r, now).value, commitment))
            <==> commitment == TemplateFrom(hash, r, now).value.proof.commitment
  {
    hide StateRoot, TxRoot, ApplyAll, HexOfHash, BlockPreimage, Commitment;
    OneCommitmentAccepted(hash, c, TemplateFrom(hash, r, now).value, commitment);
  }

  // ------------------------------------------------------------- block hashes

  /** The parts of the hashed text of a block, in the order of `computeHash`. */
  function HashedParts(b: Block): seq<Text> {
    [Decimal(b.index)] + Cut(b.prevHash) + Cut(b.stateBefore) + Cut(b.stateAfter) + Cut(b.txRoot)
    + Cut(b.receiptsRoot) + Cut(b.proof.commitment) + [Decimal(b.timestamp)]
  }

  lemma BlockPreimageCut(b: Block)
    ensures Cut(BlockPreimage(b)) == HashedParts(b)
  {
    hide Cut, Decimal;
    var t1 := Decimal(b.index) + BAR + b.prevHash;
    var t2 := t1 + BAR + b.stateBefore;
    var t3 := t2 + BAR + b.stateAfter;
    var t4 := t3 + BAR + b.txRoot;
    var t5 := t4 + BAR + b.receiptsRoot;
    var t6 := t5 + BAR + b.proof.commitment;
    CutAtBar(t6, Decimal(b.timestamp));
    CutAtBar(t5, b.proof.commitment);
    CutAtBar(t4, b.receiptsRoot);
    CutAtBar(t3, b.txRoot);
    CutAtBar(t2, b.stateAfter);
    CutAtBar(t1, b.stateBefore);
    CutAtBar(Decimal(b.index), b.prevHash);
    DecimalHasNoBar(b.index);
    DecimalHasNoBar(b.timestamp);
    CutWhole(Decimal(b.index));
    CutWhole(Decimal(b.timestamp));
  }

  /** No bar in any text a block hash covers. */
  predicate BarFree(b: Block) {
    NoBar(b.prevHash) && NoBar(b.stateBefore) && NoBar(b.stateAfter) && NoBar(b.txRoot)
    && NoBar(b.receiptsRoot) && NoBar(b.proof.commitment)
  }

  /** Then the parts are eight, and the first and the last read as numbers. */
  lemma EightParts(b: Block)
    requires BarFree(b)
    ensures HashedParts(b) == [Decimal(b.index), b.prevHash, b.stateBefore, b.stateAfter, b.txRoot,
                               b.receiptsRoot, b.proof.commitment, Decimal(b.timestamp)]
    ensures Canonical(Decimal(b.index)) && ReadDecimal(Decimal(b.index)) == b.index
    ensures Canonical(Decimal(b.timestamp)) && ReadDecimal(Decimal(b.timestamp)) == b.timestamp
  {
    hide Cut, NoBar, Decimal;
    CutWhole(b.prevHash);
    CutWhole(b.stateBefore);
    CutWhole(b.stateAfter);
    CutWhole(b.txRoot);
    CutWhole(b.receiptsRoot);
    CutWhole(b.proof.commitment);
    DecimalReadsBack(b.index);
    DecimalReadsBack(b.timestamp);
  }

  /** Exactly the eight fields decide the hashed text. */
  lemma BlockPreimageEqualIff(a: Block, b: Block)
    requires BarFree(a) && BarFree(b)
    ensures BlockPreimage(a) == BlockPreimage(b) <==>
            && a.index == b.index && a.prevHash == b.prevHash
            && a.stateBefore == b.stateBefore && a.stateAfter == b.stateAfter
            && a.txRoot == b.txRoot && a.receiptsRoot == b.receiptsRoot
            && a.proof.commitment == b.proof.commitment && a.timestamp == b.timestamp
  {
    hide Cut, BarFree, BlockPreimage, HashedParts, Decimal, ReadDecimal, Canonical;
    BlockPreimageCut(a);
    BlockPreimageCut(b);
    CutEqualIff(BlockPreimage(a), BlockPreimage(b));
    EightParts(a);
    EightParts(b);
    if BlockPreimage(a) == BlockPreimage(b) {
      SameParts(HashedParts(a), HashedParts(b));
    }
  }

  lemma SameParts(xs: seq<Text>, ys: seq<Text>)
    requires |xs| == 8 && xs == ys
    ensures xs[0] == ys[0] && xs[1] == ys[1] && xs[2] == ys[2] && xs[3] == ys[3]
    ensures xs[4] == ys[4] && xs[5] == ys[5] && xs[6] == ys[6] && xs[7] == ys[7]
  {
  }

  lemma RootsHaveNoBar(hash: Hash, m: AccountMap, txs: seq<Transaction>, t: Text)
    ensures NoBar(StateRoot(hash, m)) && NoBar(TxRoot(hash, txs)) && NoBar(HexOfHash(hash, t))
  {
    hide ToHex, NoBar, TxRootPreimage, Leaves;
    HexHasNoBar(hash(StateBytes(m)));
    HexHasNoBar(hash(TxRootPreimage(txs)));
    HexHasNoBar(hash(t));
    ZeroRootHasNoBar();
  }

  lemma ZeroRootHasNoBar()
    ensures NoBar(ZERO_ROOT) && NoBar([])
  {
  }

  /**
   * The hash a new block is given: of any text with these parts. Whatever the
   * predecessor's hash is, its parts stand second; the receipts root is empty.
   */
  lemma NewBlockHash(hash: Hash, index: nat, prev: Text, before: Text, after: Text, txRoot: Text,
                     proof: ZkProof, now: Uint64, t: Text)
    requires Cut(t) == [Decimal(index)] + Cut(prev) + Cut(before) + Cut(after) + Cut(txRoot) + [[]]
                       + Cut(proof.commitment) + [Decimal(now)]
    ensures NewBlock(hash, index, prev, before, after, txRoot, proof, now).hash == ToHex(hash(t))
  {
    hide Cut, ToHex, Decimal, BlockPreimage;
    var b := NewBlock(hash, index, prev, before, after, txRoot, proof, now);
    var bare := b.(hash := []);
    CutOfNothing();
    BlockPreimageCut(bare);
    CutEqualIff(t, BlockPreimage(bare));
  }

  /**
   * A mined block's hash covers, in this order: its number, the hash of the
   * block before it, the state root it starts from and the one it ends in, the
   * transaction root, no receipts root, its commitment and its time.
   */
  lemma MinedBlockHash(hash: Hash, c: Chain, after: AccountMap, now: Uint64, t: Text)
    requires c.blocks != []
    requires Cut(t) == [Decimal(|c.blocks|)] + Cut(c.blocks[|c.blocks| - 1].hash)
                       + [StateRoot(hash, c.accounts), StateRoot(hash, after), TxRoot(hash, c.mempool), [],
                          MinedBlock(hash, c, after, now).proof.commitment, Decimal(now)]
    ensures MinedBlock(hash, c, after, now).hash == ToHex(hash(t))
  {
    hide Cut, ToHex, Decimal, StateRoot, TxRoot, BlockPreimage, Receipts, ReceiptsRoot, NoBar, CommitmentText, HexOfHash;
    var b := MinedBlock(hash, c, after, now);
    MinedCommitment(hash, c, after, now);
    RootsHaveNoBar(hash, c.accounts, c.mempool, []);
    RootsHaveNoBar(hash, after, c.mempool, []);
    CutWhole(b.stateBefore);
    CutWhole(b.stateAfter);
    CutWhole(b.txRoot);
    CutWhole(b.proof.commitment);
    assert Cut(t) == [Decimal(b.index)] + Cut(b.prevHash) + Cut(b.stateBefore) + Cut(b.stateAfter) + Cut(b.txRoot)
                     + [[]] + Cut(b.proof.commitment) + [Decimal(now)];
    NewBlockHash(hash, b.index, b.prevHash, b.stateBefore, b.stateAfter, b.txRoot, b.proof, now, t);
  }

  lemma MinedCommitment(hash: Hash, c: Chain, after: AccountMap, now: Uint64)
    requires c.blocks != []
    ensures NoBar(MinedBlock(hash, c, after, now).proof.commitment)
  {
    hide ToHex, Decimal, StateRoot, TxRoot, BlockPreimage, Receipts, ReceiptsRoot, NoBar, CommitmentText, ProofText;
    var p := MinedBlock(hash, c, after, now).proof;
    RootsHaveNoBar(hash, after, c.mempool, CommitmentText(p.proof, p.stateBefore, p.stateAfter, p.txRoot));
  }

  /**
   * The genesis block: number zero, "0x00" before it and as its transaction
   * root, the premined state at both ends, a proof of that, an empty bloom, and
   * the hash of exactly this.
   */
  lemma GenesisBlockIs(hash: Hash, m: AccountMap, now: Uint64, t: Text)
    requires var none := ['0' as int, 'x' as int, '0' as int, '0' as int];
             Cut(t) == [['0' as int], none, StateRoot(hash, m), StateRoot(hash, m), none, [],
                        GenesisBlock(hash, m, now).proof.commitment, Decimal(now)]
    ensures var b := GenesisBlock(hash, m, now);
            && b.hash == ToHex(hash(t)) && b.index == 0 && b.timestamp == now
            && b.prevHash == b.txRoot == b.proof.txRoot == ['0' as int, 'x' as int, '0' as int, '0' as int]
            && b.stateBefore == b.stateAfter == StateRoot(hash, m)
            && b.proof.stateBefore == b.proof.stateAfter == StateRoot(hash, m) && Verify(hash, b.proof)
            && b.transactions == [] && b.receipts == [] && b.receiptsRoot == []
            && |b.logsBloom| == 256 && forall i :: 0 <= i < 256 ==> b.logsBloom[i] == 0
  {
    hide Cut, ToHex, StateRoot, BlockPreimage, NoBar, CommitmentText, ProofText, HexOfHash, Decimal;
    var b := GenesisBlock(hash, m, now);
    GenesisCommitment(hash, m, now);
    RootsHaveNoBar(hash, m, [], []);
    ZeroRootHasNoBar();
    CutWhole(b.stateBefore);
    CutWhole(ZERO_ROOT);
    CutWhole(b.proof.commitment);
    DecimalZero();
    assert Cut(t) == [Decimal(b.index)] + Cut(b.prevHash) + Cut(b.stateBefore) + Cut(b.stateAfter) + Cut(b.txRoot)
                     + [[]] + Cut(b.proof.commitment) + [Decimal(now)];
    NewBlockHash(hash, 0, ZERO_ROOT, b.stateBefore, b.stateAfter, ZERO_ROOT, b.proof, now, t);
  }

  lemma DecimalZero()
    ensures Decimal(0) == ['0' as int]
  {
  }

  lemma GenesisCommitment(hash: Hash, m: AccountMap, now: Uint64)
    ensures NoBar(GenesisBlock(hash, m, now).proof.commitment)
  {
    hide ToHex, Decimal, StateRoot, BlockPreimage, NoBar, CommitmentText, ProofText;
    var p := GenesisBlock(hash, m, now).proof;
    RootsHaveNoBar(hash, m, [], CommitmentText(p.proof, p.stateBefore, p.stateAfter, p.txRoot));
  }

  // ------------------------------------------------------------ travelling

  /**
   * The codec drops the roots inside the proof. So a block that was read from
   * the wire verifies only if the hash maps two different texts to one value:
   * its own, with three empty ends, and the one the sender hashed.
   */
  lemma TravelledProofNeedsCollision(hash: Hash, b: Block)
    requires Verify(hash, b.proof) && Verify(hash, Carried(b).proof)
    requires b.proof.stateBefore != []
    ensures var sent := CommitmentText(b.proof.proof, b.proof.stateBefore, b.proof.stateAfter, b.proof.txRoot);
            var got := CommitmentText(b.proof.proof, [], [], []);
            sent != got && hash(sent) == hash(got)
  {
    hide ToHex;
    var p := b.proof;
    var sent, got := CommitmentText(p.proof, p.stateBefore, p.stateAfter, p.txRoot), CommitmentText(p.proof, [], [], []);
    HexRoundTrip(hash(sent));
    HexRoundTrip(hash(got));
    assert |sent| > |got|;
  }
}
