/**
 * The chain of src/blockchain.cpp as a value. `addTransaction`, `mineBlock` and
 * `addBlock` hold the mutex from start to end, so each is one step. The
 * accessors and `buildBlockTemplate` do not, so a template is built from reads
 * that steps may come between.
 */
module Chains {
  import opened Common
  import opened Rlp
  import opened Texts
  import opened Trie
  import opened TrieCodec
  import opened Types
  import opened Accounts
  import opened Transactions
  import opened Blocks

  datatype Chain = Chain(blocks: seq<Block>, accounts: AccountMap, mempool: seq<Transaction>)

  function Last(blocks: seq<Block>): Block
    requires blocks != []
  {
    blocks[|blocks| - 1]
  }

  // ------------------------------------------------------------ commitments

  /** What `computeTxRoot` hashes: every transaction's hex text, each closed by a bar. */
  function TxRootPreimage(txs: seq<Transaction>): Text {
    if txs == [] then [] else TxRootPreimage(txs[..|txs| - 1]) + TxHex(txs[|txs| - 1]) + BAR
  }

  function TxRoot(hash: Hash, txs: seq<Transaction>): Text {
    if txs == [] then ZERO_ROOT else HexOfHash(hash, TxRootPreimage(txs))
  }

  /** The running gas counter, a `uint64_t`. */
  function GasUsed(txs: seq<Transaction>): Uint64 {
    if txs == [] then 0 else Add64(GasUsed(txs[..|txs| - 1]), txs[|txs| - 1].gasLimit)
  }

  function ReceiptOf(txs: seq<Transaction>, i: nat): Receipt
    requires i < |txs|
  {
    Receipt(true, GasUsed(txs[..i + 1]), [])
  }

  function Receipts(txs: seq<Transaction>): (rs: seq<Receipt>)
    ensures |rs| == |txs|
  {
    seq(|txs|, i requires 0 <= i < |txs| => ReceiptOf(txs, i))
  }

  /** The encoding of a receipt without logs. */
  function ReceiptBytes(r: Receipt): Bytes {
    Enc(List([Num(if r.status then 1 else 0), Num(r.cumulativeGasUsed), List([])]))
  }

  /** The puts into the receipts trie: one byte of the index is the key. */
  function ReceiptPuts(rs: seq<Receipt>): (puts: seq<Entry>)
    ensures |puts| == |rs|
  {
    seq(|rs|, i requires 0 <= i < |rs| => Entry([i % 256], ReceiptBytes(rs[i])))
  }

  ghost function ReceiptsRoot(hash: Hash, txs: seq<Transaction>): Text {
    RootText(hash, PutAll(map[], ReceiptPuts(Receipts(txs))))
  }

  // ------------------------------------------------------------------ steps

  ghost function GenesisBlock(hash: Hash, m: AccountMap, now: Uint64): Block {
    NewBlock(hash, 0, ZERO_ROOT, StateRoot(hash, m), StateRoot(hash, m), ZERO_ROOT,
             Prove(hash, StateRoot(hash, m), StateRoot(hash, m), ZERO_ROOT), now)
  }

  /** The constructor of `Blockchain`. */
  ghost function Start(hash: Hash, genesis: GenesisConfig, now: Uint64): (c: Chain)
    ensures c.blocks != []
  {
    Chain([GenesisBlock(hash, Genesis(genesis.premine), now)], Genesis(genesis.premine), [])
  }

  /** The block both producers build on top of `c` when the mempool leads to `after`. */
  ghost function NextBlock(hash: Hash, c: Chain, after: AccountMap, now: Uint64): Block
    requires c.blocks != []
  {
    NewBlock(hash, |c.blocks|, Last(c.blocks).hash, StateRoot(hash, c.accounts), StateRoot(hash, after),
             TxRoot(hash, c.mempool),
             Prove(hash, StateRoot(hash, c.accounts), StateRoot(hash, after), TxRoot(hash, c.mempool)), now)
  }

  function WithTransactions(b: Block, txs: seq<Transaction>): Block {
    b.(transactions := txs)
  }

  function WithReceipts(b: Block, rs: seq<Receipt>, root: Text): Block {
    b.(receipts := rs, receiptsRoot := root)
  }

  datatype Mined = Mined(chain: Chain, result: Outcome<Block>)

  /** `mineBlock`. A throw keeps the transfers made before it, and the whole mempool. */
  ghost function Mine(hash: Hash, c: Chain, now: Uint64): Mined
    requires c.blocks != []
  {
    var after := ApplyAll(c.accounts, c.mempool);
    if !after.ok then Mined(c.(accounts := after.accounts), Throw("Insufficient balance"))
    else Appended(c, after.accounts, MinedBlock(hash, c, after.accounts, now))
  }

  ghost function MinedBlock(hash: Hash, c: Chain, after: AccountMap, now: Uint64): Block
    requires c.blocks != []
  {
    WithReceipts(WithTransactions(NextBlock(hash, c, after, now), c.mempool),
                 Receipts(c.mempool), ReceiptsRoot(hash, c.mempool))
  }

  function Appended(c: Chain, after: AccountMap, b: Block): Mined {
    Mined(Chain(c.blocks + [b], after, []), Ok(b))
  }

  /** `addBlock` accepts a block. */
  predicate Accepts(hash: Hash, c: Chain, b: Block)
    requires c.blocks != []
  {
    && b.index == |c.blocks|
    && b.prevHash == Last(c.blocks).hash
    && Verify(hash, b.proof)
  }

  /** `addBlock`: the state is not advanced. */
  function Offer(hash: Hash, c: Chain, b: Block): Chain
    requires c.blocks != []
  {
    if Accepts(hash, c, b) then c.(blocks := c.blocks + [b]) else c
  }

  /**
   * What `buildBlockTemplate` reads of the chain, one read at a time: the state it
   * takes the root of and the one it copies, the mempool it applies and the one
   * it commits to, the blocks it counts and the ones whose last hash it takes,
   * and the mempool it attaches.
   */
  datatype Reads = Reads(rooted: AccountMap, copied: AccountMap,
                         applied: seq<Transaction>, committed: seq<Transaction>,
                         counted: seq<Block>, linked: seq<Block>, attached: seq<Transaction>)

  /** Reads that no step came between. */
  function Snapshot(c: Chain): Reads {
    Reads(c.accounts, c.accounts, c.mempool, c.mempool, c.blocks, c.blocks, c.mempool)
  }

  /** `buildBlockTemplate` of src/zk_mining_engine.cpp, from whatever it read. */
  ghost function TemplateFrom(hash: Hash, r: Reads, now: Uint64): Outcome<Block>
    requires r.linked != []
  {
    var after := ApplyAll(r.copied, r.applied);
    if !after.ok then Throw("Insufficient balance")
    else
      var before, later, txRoot :=
        StateRoot(hash, r.rooted), StateRoot(hash, after.accounts), TxRoot(hash, r.committed);
      var b := NewBlock(hash, |r.counted|, Last(r.linked).hash, before, later, txRoot,
                        Prove(hash, before, later, txRoot), now);
      Ok(WithTransactions(b, r.attached))
  }

  /** `buildBlockTemplate` when no step comes between its reads. */
  ghost function Template(hash: Hash, c: Chain, now: Uint64): Outcome<Block>
    requires c.blocks != []
  {
    TemplateFrom(hash, Snapshot(c), now)
  }

  // ------------------------------------------------------------- validation

  function Mul64(a: Uint64, b: Uint64): Uint64 {
    (a * b) % TWO64
  }

  /** The funds step of `validateTransaction`, in wrapping arithmetic; `None` passes. */
  function FundsError(balance: Uint64, gasPrice: Uint64, gasLimit: Uint64, value: Uint64): Option<string> {
    var gasCost := Mul64(gasPrice, gasLimit);
    if gasPrice != 0 && gasCost / gasPrice != gasLimit then Some("Gas cost overflow")
    else if Add64(gasCost, value) < gasCost then Some("Total cost overflow")
    else if balance < Add64(gasCost, value) then Some("Insufficient funds")
    else None
  }

  /** `validateTransaction`; `None` is acceptance. */
  function ValidationError(cr: Crypto, chainId: Uint64, m: AccountMap, tx: Transaction): Option<string> {
    if tx.chainId != chainId then Some("Invalid chainId")
    else if !VerifySignature(cr, tx) then Some("Invalid signature")
    else if tx.nonce != AccountAt(m, tx.from).nonce then Some("Invalid nonce")
    else FundsError(AccountAt(m, tx.from).balance, tx.gasPrice, tx.gasLimit, tx.value)
  }
}
