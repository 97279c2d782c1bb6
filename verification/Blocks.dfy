/** Receipts, mock proofs, blocks and the block codec. */
module Blocks {
  import opened Common
  import opened BigEndian
  import opened Rlp
  import opened Hex
  import opened Texts
  import opened Types
  import opened Transactions

  const ZERO_ROOT: Text := ['0' as int, 'x' as int, '0' as int, '0' as int]

  // ---------------------------------------------------------------- receipts

  /** Topics are hex text; a malformed one makes `rlpEncode` throw. */
  function TopicItem(topic: Text): Outcome<Item> {
    var b :- FromHex(topic);
    Ok(Str(b))
  }

  function LogItem(log: Log): Outcome<Item> {
    var topics :- Traverse(TopicItem, log.topics);
    Ok(List([Str(log.address), List(topics), Str(log.data)]))
  }

  function ReceiptItem(r: Receipt): Outcome<Item> {
    var logs :- Traverse(LogItem, r.logs);
    Ok(List([Num(if r.status then 1 else 0), Num(r.cumulativeGasUsed), List(logs)]))
  }

  // ------------------------------------------------------------------ proofs

  function HexOfHash(hash: Hash, t: Text): Text {
    ToHex(hash(t))
  }

  /** What the mock proof is the hash of. */
  function ProofText(before: Text, after: Text, txRoot: Text): Text {
    before + BAR + after + BAR + txRoot
  }

  /** What the commitment is the hash of. */
  function CommitmentText(proof: Text, before: Text, after: Text, txRoot: Text): Text {
    proof + BAR + before + BAR + after + BAR + txRoot
  }

  function Commitment(hash: Hash, proof: Text, before: Text, after: Text, txRoot: Text): Text {
    HexOfHash(hash, CommitmentText(proof, before, after, txRoot))
  }

  /** `ZkProver::generate`. */
  function Prove(hash: Hash, before: Text, after: Text, txRoot: Text): ZkProof {
    var proof := HexOfHash(hash, ProofText(before, after, txRoot));
    ZkProof(proof, before, after, txRoot, Commitment(hash, proof, before, after, txRoot))
  }

  /** `ZkVerifier::verify`. */
  predicate Verify(hash: Hash, p: ZkProof) {
    Commitment(hash, p.proof, p.stateBefore, p.stateAfter, p.txRoot) == p.commitment
  }

  // ------------------------------------------------------------------ blocks

  function BlockPreimage(b: Block): Text {
    Decimal(b.index) + BAR + b.prevHash + BAR + b.stateBefore + BAR + b.stateAfter + BAR
    + b.txRoot + BAR + b.receiptsRoot + BAR + b.proof.commitment + BAR + Decimal(b.timestamp)
  }

  function EmptyBloom(): Bytes {
    seq(256, _ => 0)
  }

  /** The constructor; `now` is the clock. The hash is taken while `receiptsRoot` is empty. */
  function NewBlock(hash: Hash, index: nat, prev: Text, before: Text, after: Text, txRoot: Text,
                    proof: ZkProof, now: Uint64): Block
  {
    var bare := Block(index, prev, before, after, txRoot, [], proof, now, [], [], [], EmptyBloom());
    bare.(hash := HexOfHash(hash, BlockPreimage(bare)))
  }

  // ------------------------------------------------------------------- codec

  function TxItems(txs: seq<Transaction>): (items: seq<Item>)
    ensures |items| == |txs|
  {
    seq(|txs|, i requires 0 <= i < |txs| => SignedItem(txs[i]))
  }

  function BlockItem(b: Block): Outcome<Item>
    requires b.index < TWO64
  {
    var receipts :- Traverse(ReceiptItem, b.receipts);
    Ok(List([Num(b.index), Str(b.prevHash), Str(b.stateBefore), Str(b.stateAfter), Str(b.txRoot),
             Str(b.proof.proof), Str(b.proof.commitment), Num(b.timestamp), Str(b.hash),
             List(TxItems(b.transactions)), Str(b.logsBloom), List(receipts)]))
  }

  function BlockHex(b: Block): Outcome<Text>
    requires b.index < TWO64
  {
    var item :- BlockItem(b);
    Ok(HEX_PREFIX + ToHex(Enc(item)))
  }

  /** The body of the transaction loop in `Block::fromHex`: an item's `bytes` are taken as a raw transaction. */
  function TxOfItem(cr: Crypto, item: Item): Outcome<Transaction> {
    TxFromHex(cr, HEX_PREFIX + ToHex(item.Payload()))
  }

  function TxReader(cr: Crypto): Item -> Outcome<Transaction> {
    item => TxOfItem(cr, item)
  }

  function BlockFromItem(cr: Crypto, root: Item): Outcome<Block> {
    if !root.List? || |root.items| < 10 then Throw("Block::fromHex: invalid RLP block")
    else if !root.items[9].List? then Throw("Block::fromHex: tx list not a list")
    else
      var f := root.items;
      var txs :- Traverse(TxReader(cr), f[9].items);
      Ok(Block(ToUint64(f[0].Payload()), f[1].Payload(), f[2].Payload(), f[3].Payload(),
               f[4].Payload(), [], ZkProof(f[5].Payload(), [], [], [], f[6].Payload()),
               ToUint64(f[7].Payload()), f[8].Payload(), txs, [], EmptyBloom()))
  }

  function BlockFromHex(cr: Crypto, hex: Text): Outcome<Block> {
    var root :- ItemFromHex(hex);
    BlockFromItem(cr, root)
  }

  /** A list of fewer than ten items is refused, and items after the tenth are ignored. */
  lemma ExtraBlockItemsIgnored(cr: Crypto, items: seq<Item>, more: seq<Item>)
    ensures |items| >= 10 ==> BlockFromItem(cr, List(items + more)) == BlockFromItem(cr, List(items))
    ensures |items| < 10 ==> BlockFromItem(cr, List(items)) == Throw("Block::fromHex: invalid RLP block")
  {
    hide ToUint64, TxReader, Traverse;
  }

  /**
   * What `Block::fromHex` makes of any list of ten items or more: it needs a
   * list in place nine whose strings all parse as transactions. A block whose
   * transactions were sent as strings would be read in full.
   */
  lemma BlockParsedIff(cr: Crypto, f: seq<Item>)
    requires |f| >= 10
    ensures BlockFromItem(cr, List(f)).Ok? <==>
            && f[9].List?
            && forall i :: 0 <= i < |f[9].items| ==>
                 TxFromHex(cr, HEX_PREFIX + ToHex(f[9].items[i].Payload())).Ok?
    ensures BlockFromItem(cr, List(f)).Ok? ==>
              var b := BlockFromItem(cr, List(f)).value;
              && b.index == FromBe(f[0].Payload()) % TWO64 && b.prevHash == f[1].Payload()
              && b.stateBefore == f[2].Payload() && b.stateAfter == f[3].Payload()
              && b.txRoot == f[4].Payload() && b.proof.proof == f[5].Payload()
              && b.proof.commitment == f[6].Payload() && b.timestamp == FromBe(f[7].Payload()) % TWO64
              && b.hash == f[8].Payload() && |b.transactions| == |f[9].items|
              && forall i :: 0 <= i < |b.transactions| ==>
                   TxFromHex(cr, HEX_PREFIX + ToHex(f[9].items[i].Payload())) == Ok(b.transactions[i])
  {
    hide TxFromHex, ToHex, FromBe;
    if f[9].List? {
      var items := f[9].items;
      TraverseAll(TxReader(cr), items);
      assert forall i :: 0 <= i < |items| ==>
        TxReader(cr)(items[i]) == TxFromHex(cr, HEX_PREFIX + ToHex(items[i].Payload()));
    }
  }

  /** The fields that travel. */
  function Carried(b: Block): Block {
    Block(b.index, b.prevHash, b.stateBefore, b.stateAfter, b.txRoot, [],
          ZkProof(b.proof.proof, [], [], [], b.proof.commitment),
          b.timestamp, b.hash, [], [], EmptyBloom())
  }

  /** An embedded transaction decodes as a list, whose `bytes` are empty: nothing to decode. */
  lemma EmptyPayloadFails(cr: Crypto)
    ensures TxFromHex(cr, HEX_PREFIX + ToHex([])) == Throw("RLP decode overflow")
  {
    HexRoundTrip([]);
  }

  lemma FirstTransactionFails(cr: Crypto, items: seq<Item>)
    requires items != [] && items[0].List?
    ensures Traverse(TxReader(cr), items) == Throw("RLP decode overflow")
  {
    hide TxFromHex, ToHex;
    EmptyPayloadFails(cr);
    assert items[..0] == [];
    TraverseStep(TxReader(cr), items, 0);
    TraverseFails(TxReader(cr), items, 1);
  }

  /**
   * `Block::fromHex(toHex(b))` succeeds exactly when the block carries no
   * transactions, and then restores every field that is encoded and read.
   */
  lemma BlockRoundTripIff(cr: Crypto, b: Block)
    requires b.index < TWO64 && BlockHex(b).Ok? && |BlockHex(b).value| <= MAX_SIZE
    ensures BlockFromHex(cr, BlockHex(b).value)
            == if b.transactions == [] then Ok(Carried(b)) else Throw("RLP decode overflow")
  {
    hide Enc, ToHex, ItemFromHex, Be, ToUint64, TxFromHex;
    var item := BlockItem(b).value;
    HexItemRoundTrip(item);
    NumRoundTrip(b.index);
    NumRoundTrip(b.timestamp);
    if b.transactions != [] {
      FirstTransactionFails(cr, TxItems(b.transactions));
    }
  }
}
