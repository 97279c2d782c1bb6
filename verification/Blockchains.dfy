/** The mutable chain of src/blockchain.cpp and the template builder that reads it. */
module Blockchains {
  import opened Common
  import opened Hex
  import opened Texts
  import opened Trie
  import opened TrieCodec
  import opened Types
  import opened Accounts
  import opened WorldState
  import opened Transactions
  import opened Blocks
  import opened WireCodec
  import opened Chains

  lemma ReceiptItemWithoutLogs(rc: Receipt)
    requires rc.logs == []
    ensures Encoded(ReceiptItem(rc)) == Ok(ReceiptBytes(rc))
  {
  }

  /** The two receipt loops of `mineBlock`. */
  method CollectReceipts(txs: seq<Transaction>) returns (receipts: seq<Receipt>)
    ensures receipts == Receipts(txs)
  {
    receipts := [];
    var cumulativeGas: Uint64 := 0;
    for i := 0 to |txs|
      invariant cumulativeGas == GasUsed(txs[..i])
      invariant receipts == Receipts(txs)[..i]
    {
      assert txs[..i + 1][..i] == txs[..i];
      cumulativeGas := Add64(cumulativeGas, txs[i].gasLimit);
      receipts := receipts + [Receipt(true, cumulativeGas, [])];
    }
  }

  method HashReceipts(hash: Hash, receipts: seq<Receipt>) returns (root: Text)
    requires forall i :: 0 <= i < |receipts| ==> receipts[i].logs == []
    ensures root == RootText(hash, PutAll(map[], ReceiptPuts(receipts)))
  {
    hide MptTrie.Valid, ReceiptBytes, ReceiptItem, Nibbles, RootText;
    var trie := new MptTrie();
    for i := 0 to |receipts|
      invariant fresh(trie) && fresh(trie.repr) && trie.Valid()
      invariant trie.stored == PutAll(map[], ReceiptPuts(receipts)[..i])
    {
      var enc := EncodeReceipt(receipts[i]);
      ReceiptItemWithoutLogs(receipts[i]);
      trie.Put([i % 256], enc.value);
      assert ReceiptPuts(receipts)[..i + 1][..i] == ReceiptPuts(receipts)[..i];
    }
    assert ReceiptPuts(receipts)[..|receipts|] == ReceiptPuts(receipts);
    root := RootHash(hash, trie);
  }

  method ComputeTxRoot(hash: Hash, txs: seq<Transaction>) returns (root: Text)
    ensures root == TxRoot(hash, txs)
  {
    hide SignedBytes, ToHex;
    if txs == [] {
      return ZERO_ROOT;
    }
    var concat: Text := [];
    for i := 0 to |txs|
      invariant concat == TxRootPreimage(txs[..i])
    {
      var enc := EncodeSigned(txs[i]);
      var hex := WriteHex(enc);
      assert txs[..i + 1][..i] == txs[..i];
      concat := concat + (HEX_PREFIX + hex) + BAR;
    }
    assert txs[..|txs|] == txs;
    root := WriteHex(hash(concat));
  }

  /** The mempool loop of both producers; a throw leaves the state where it stopped. */
  method ApplyMempool(state: State, txs: seq<Transaction>) returns (ok: bool)
    modifies state
    ensures Applied(state.accounts, ok) == ApplyAll(old(state.accounts), txs)
  {
    hide Transfer;
    ok := true;
    for i := 0 to |txs|
      invariant ok && Applied(state.accounts, true) == ApplyAll(old(state.accounts), txs[..i])
    {
      assert txs[..i + 1][..i] == txs[..i];
      var r := state.ApplyTransaction(txs[i].from, txs[i]);
      if !r.Ok? {
        StopPrefix(old(state.accounts), txs, i + 1);
        return false;
      }
    }
    assert txs[..|txs|] == txs;
  }

  lemma {:induction false} StopPrefix(m: AccountMap, txs: seq<Transaction>, i: nat)
    requires i <= |txs| && !ApplyAll(m, txs[..i]).ok
    ensures ApplyAll(m, txs) == ApplyAll(m, txs[..i])
  {
    if i == |txs| {
      assert txs[..i] == txs;
    } else {
      assert txs[..|txs| - 1][..i] == txs[..i];
      StopPrefix(m, txs[..|txs| - 1], i);
    }
  }

  class Blockchain {
    const hash: Hash
    const chainId: Uint64
    var chain: seq<Block>
    const state: State
    var mempool: seq<Transaction>

    function View(): Chain
      reads this, state
    {
      Chain(chain, state.accounts, mempool)
    }

    constructor (hash: Hash, genesis: GenesisConfig, now: Uint64)
      ensures View() == Start(hash, genesis, now)
      ensures this.hash == hash && chainId == genesis.chainId && fresh(state)
    {
      this.hash := hash;
      chainId := genesis.chainId;
      var s := new State(genesis);
      var root := s.Root(hash);
      state := s;
      mempool := [];
      chain := [NewBlock(hash, 0, ZERO_ROOT, root, root, ZERO_ROOT, Prove(hash, root, root, ZERO_ROOT), now)];
    }

    method AddTransaction(tx: Transaction)
      modifies this
      ensures View() == old(View()).(mempool := old(mempool) + [tx])
    {
      mempool := mempool + [tx];
    }

    /** `None` is acceptance, otherwise the text left in `err`. */
    method ValidateTransaction(cr: Crypto, tx: Transaction) returns (err: Option<string>)
      ensures err == ValidationError(cr, chainId, state.accounts, tx)
    {
      hide VerifySignature;
      if tx.chainId != chainId {
        return Some("Invalid chainId");
      }
      if !VerifySignature(cr, tx) {
        return Some("Invalid signature");
      }
      var expectedNonce, bal := 0, 0;
      if tx.from in state.accounts {
        expectedNonce, bal := state.accounts[tx.from].nonce, state.accounts[tx.from].balance;
      }
      if tx.nonce != expectedNonce {
        return Some("Invalid nonce");
      }
      var gasCost := (tx.gasPrice * tx.gasLimit) % TWO64;
      if tx.gasPrice != 0 && gasCost / tx.gasPrice != tx.gasLimit {
        return Some("Gas cost overflow");
      }
      var needed := Add64(gasCost, tx.value);
      if needed < gasCost {
        return Some("Total cost overflow");
      }
      if bal < needed {
        return Some("Insufficient funds");
      }
      err := None;
    }

    method MineBlock(now: Uint64) returns (r: Outcome<Block>)
      requires chain != []
      modifies this, state
      ensures Mined(View(), r) == Mine(hash, old(View()), now)
    {
      hide StateRoot, TxRoot, RootText, PutAll, ReceiptPuts, ApplyAll, HexOfHash, BlockPreimage, Commitment;
      var before := state.Root(hash);
      var ok := ApplyMempool(state, mempool);
      if !ok {
        return Throw("Insufficient balance");
      }
      var after := state.Root(hash);
      var txRoot := ComputeTxRoot(hash, mempool);
      var receipts := CollectReceipts(mempool);
      var receiptsRoot := HashReceipts(hash, receipts);
      var proof := Prove(hash, before, after, txRoot);
      var block := NewBlock(hash, |chain|, Last(chain).hash, before, after, txRoot, proof, now);
      block := block.(transactions := mempool);
      block := block.(receipts := receipts, receiptsRoot := receiptsRoot);
      chain := chain + [block];
      mempool := [];
      r := Ok(block);
    }

    method AddBlock(block: Block) returns (ok: bool)
      requires chain != []
      modifies this
      ensures View() == Offer(hash, old(View()), block)
      ensures ok <==> Accepts(hash, old(View()), block)
    {
      hide Verify;
      if block.index != |chain| {
        return false;
      }
      if block.prevHash != Last(chain).hash {
        return false;
      }
      if !Verify(hash, block.proof) {
        return false;
      }
      chain := chain + [block];
      ok := true;
    }
  }

  /**
   * `ZkMiningEngine::buildBlockTemplate`, whatever steps come between its
   * reads. It works on a copy of the state.
   */
  method BuildFromReads(hash: Hash, seen: Reads, now: Uint64) returns (r: Outcome<Block>)
    requires seen.linked != []
    ensures r == TemplateFrom(hash, seen, now)
  {
    hide StateRoot, TxRoot, ApplyAll, HexOfHash, BlockPreimage, Commitment;
    var live := new State.Holding(seen.rooted);
    var before := live.Root(hash);
    var temp := new State.Holding(seen.copied);
    var ok := ApplyMempool(temp, seen.applied);
    if !ok {
      return Throw("Insufficient balance");
    }
    var after := temp.Root(hash);
    var txRoot := ComputeTxRoot(hash, seen.committed);
    var proof := Prove(hash, before, after, txRoot);
    var b := NewBlock(hash, |seen.counted|, Last(seen.linked).hash, before, after, txRoot, proof, now);
    r := Ok(b.(transactions := seen.attached));
  }

  /** The same with no step in between; the chain is not modified. */
  method BuildBlockTemplate(chain: Blockchain, now: Uint64) returns (r: Outcome<Block>)
    requires chain.chain != []
    ensures r == Template(chain.hash, chain.View(), now)
  {
    hide TemplateFrom;
    var accounts, blocks, txs := chain.state.accounts, chain.chain, chain.mempool;
    r := BuildFromReads(chain.hash, Reads(accounts, accounts, txs, txs, blocks, blocks, txs), now);
  }
}
