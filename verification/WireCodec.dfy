/** The encoders and parsers of transactions, receipts and blocks, loop by loop. */
module WireCodec {
  import opened Common
  import opened BigEndian
  import opened Rlp
  import opened RlpTheory
  import opened RlpCodec
  import opened Hex
  import opened TrieCodec
  import opened Types
  import opened Eip155
  import opened Transactions
  import opened Blocks

  /** An encoded item, or the throw on the way to it. */
  function Encoded(x: Outcome<Item>): Outcome<Bytes> {
    if x.Ok? then Ok(Enc(x.value)) else x.PropagateFailure()
  }

  lemma EncNum(n: Uint64)
    ensures Enc(Num(n)) == EncUint(n)
  {
  }

  // ------------------------------------------------------------ transactions

  method EncodeTo(to: Address) returns (out: Bytes)
    ensures out == Enc(Str(ToField(to)))
  {
    if to == ZERO_ADDRESS {
      out := EncodeBytes([]);
    } else {
      out := EncodeBytes(to);
    }
  }

  /** The six fields both encodings start with. */
  method EncodeCore(tx: Transaction) returns (fields: seq<Bytes>)
    ensures |fields| == 6
    ensures forall i :: 0 <= i < 6 ==>
              fields[i] == Enc(SigningItem(tx).items[i]) == Enc(SignedItem(tx).items[i])
  {
    hide Enc, EncUint, EncBytes, Be, WireV;
    var nonce := EncodeUint(tx.nonce);
    var gasPrice := EncodeUint(tx.gasPrice);
    var gasLimit := EncodeUint(tx.gasLimit);
    var to := EncodeTo(tx.to);
    var value := EncodeUint(tx.value);
    var data := EncodeBytes(tx.data);
    EncNum(tx.nonce);
    EncNum(tx.gasPrice);
    EncNum(tx.gasLimit);
    EncNum(tx.value);
    EncOfStr(tx.data);
    fields := [nonce, gasPrice, gasLimit, to, value, data];
  }

  method EncodeForSigning(tx: Transaction) returns (out: Bytes)
    ensures out == SigningBytes(tx)
  {
    hide Enc, EncUint, Be;
    var fields := EncodeCore(tx);
    var chainId := EncodeUint(tx.chainId);
    var zero := EncodeUint(0);
    EncNum(tx.chainId);
    EncNum(0);
    fields := fields + [chainId, zero, zero];
    EncListOfEnc(fields, SigningItem(tx).items);
    out := EncodeList(fields);
  }

  method EncodeSigned(tx: Transaction) returns (out: Bytes)
    ensures out == SignedBytes(tx)
  {
    hide Enc, EncUint, EncBytes, Be;
    var fields := EncodeCore(tx);
    var wire := WireV(tx.sig.v, tx.chainId);
    var v := EncodeUint(wire);
    var r := EncodeBytes(tx.sig.r);
    var s := EncodeBytes(tx.sig.s);
    EncNum(wire);
    EncOfStr(tx.sig.r);
    EncOfStr(tx.sig.s);
    fields := fields + [v, r, s];
    EncListOfEnc(fields, SignedItem(tx).items);
    out := EncodeList(fields);
  }

  method ParseItem(hex: Text) returns (r: Outcome<Item>)
    ensures r == ItemFromHex(hex)
  {
    if |hex| > MAX_SIZE {
      return Throw("length_error");
    }
    var raw := ReadHex(Strip(hex));
    if !raw.Ok? { return raw.PropagateFailure(); }
    var got := DecodeAt(raw.value, 0);
    if !got.Ok? { return got.PropagateFailure(); }
    r := Ok(got.value.value);
  }

  method ParseFields(fields: seq<Item>) returns (r: Outcome<Transaction>)
    requires |fields| >= 9
    ensures r == Fields(fields)
  {
    var nonce := ToUint(fields[0].Payload());
    var gasPrice := ToUint(fields[1].Payload());
    var gasLimit := ToUint(fields[2].Payload());
    var to := ZERO_ADDRESS;
    if fields[3].Payload() != [] {
      if |fields[3].Payload()| != 20 {
        return Throw("Address::fromBytes: must be 20 bytes");
      }
      to := fields[3].Payload();
    }
    var value := ToUint(fields[4].Payload());
    var wire := ToUint(fields[6].Payload());
    if |fields[7].Payload()| != 32 || |fields[8].Payload()| != 32 {
      return Throw("Transaction::fromHex: invalid r/s size");
    }
    var sig := Signature(fields[7].Payload(), fields[8].Payload(), wire % 256);
    var chainId := if wire >= 35 then (wire - 35) / 2 else 0;
    r := Ok(Transaction(nonce, gasPrice, gasLimit, to, value, fields[5].Payload(), chainId, ZERO_ADDRESS, sig, []));
  }

  method ParseTransaction(cr: Crypto, hex: Text) returns (r: Outcome<Transaction>)
    ensures r == TxFromHex(cr, hex)
  {
    hide ItemFromHex, Fields, Sender, TxHash;
    var root := ParseItem(hex);
    if !root.Ok? { return root.PropagateFailure(); }
    if !root.value.List? || |root.value.items| < 9 {
      return Throw("Transaction::fromHex: invalid RLP tx");
    }
    var tx := ParseFields(root.value.items);
    if !tx.Ok? { return tx.PropagateFailure(); }
    r := Completed(cr, tx.value);
  }

  // ---------------------------------------------------------------- receipts

  method EncodeLog(log: Log) returns (r: Outcome<Bytes>)
    ensures r == Encoded(LogItem(log))
  {
    hide Enc, EncBytes, FromHex;
    var topicBytes: seq<Bytes> := [];
    ghost var items: seq<Item> := [];
    for i := 0 to |log.topics|
      invariant Traverse(TopicItem, log.topics[..i]) == Ok(items)
      invariant |topicBytes| == i && forall j :: 0 <= j < i ==> topicBytes[j] == Enc(items[j])
    {
      var b := ReadHex(log.topics[i]);
      TraverseStep(TopicItem, log.topics, i);
      if !b.Ok? {
        TraverseFails(TopicItem, log.topics, i + 1);
        return b.PropagateFailure();
      }
      EncOfStr(b.value);
      var field := EncodeBytes(b.value);
      topicBytes := topicBytes + [field];
      items := items + [Str(b.value)];
    }
    assert log.topics[..|log.topics|] == log.topics;
    EncOfStr(log.address);
    var address := EncodeBytes(log.address);
    EncListOfEnc(topicBytes, items);
    var topics := EncodeList(topicBytes);
    EncOfStr(log.data);
    var data := EncodeBytes(log.data);
    EncListOfEnc([address, topics, data], LogItem(log).value.items);
    var out := EncodeList([address, topics, data]);
    r := Ok(out);
  }

  method EncodeReceipt(rc: Receipt) returns (r: Outcome<Bytes>)
    ensures r == Encoded(ReceiptItem(rc))
  {
    hide Enc, EncUint, Be, LogItem;
    var status := EncodeUint(if rc.status then 1 else 0);
    var gas := EncodeUint(rc.cumulativeGasUsed);
    var logItems: seq<Bytes> := [];
    ghost var items: seq<Item> := [];
    for i := 0 to |rc.logs|
      invariant Traverse(LogItem, rc.logs[..i]) == Ok(items)
      invariant |logItems| == i && forall j :: 0 <= j < i ==> logItems[j] == Enc(items[j])
    {
      var one := EncodeLog(rc.logs[i]);
      TraverseStep(LogItem, rc.logs, i);
      if !one.Ok? {
        TraverseFails(LogItem, rc.logs, i + 1);
        return one;
      }
      logItems := logItems + [one.value];
      items := items + [LogItem(rc.logs[i]).value];
    }
    assert rc.logs[..|rc.logs|] == rc.logs;
    EncListOfEnc(logItems, items);
    var logs := EncodeList(logItems);
    EncNum(if rc.status then 1 else 0);
    EncNum(rc.cumulativeGasUsed);
    EncListOfEnc([status, gas, logs], ReceiptItem(rc).value.items);
    var out := EncodeList([status, gas, logs]);
    r := Ok(out);
  }

  // ------------------------------------------------------------------ blocks

  method EncodeTransactions(txs: seq<Transaction>) returns (out: Bytes)
    ensures out == Enc(List(TxItems(txs)))
  {
    hide Enc, SignedItem;
    var parts: seq<Bytes> := [];
    for i := 0 to |txs|
      invariant |parts| == i && forall j :: 0 <= j < i ==> parts[j] == SignedBytes(txs[j])
    {
      var one := EncodeSigned(txs[i]);
      parts := parts + [one];
    }
    EncListOfEnc(parts, TxItems(txs));
    out := EncodeList(parts);
  }

  method EncodeReceipts(rs: seq<Receipt>) returns (r: Outcome<Bytes>)
    ensures r == match Traverse(ReceiptItem, rs)
                 case Ok(items) => Ok(Enc(List(items)))
                 case failed => failed.PropagateFailure()
  {
    hide Enc, ReceiptItem;
    var parts: seq<Bytes> := [];
    ghost var items: seq<Item> := [];
    for i := 0 to |rs|
      invariant Traverse(ReceiptItem, rs[..i]) == Ok(items)
      invariant |parts| == i && forall j :: 0 <= j < i ==> parts[j] == Enc(items[j])
    {
      var one := EncodeReceipt(rs[i]);
      TraverseStep(ReceiptItem, rs, i);
      if !one.Ok? {
        TraverseFails(ReceiptItem, rs, i + 1);
        return one;
      }
      parts := parts + [one.value];
      items := items + [ReceiptItem(rs[i]).value];
    }
    assert rs[..|rs|] == rs;
    EncListOfEnc(parts, items);
    var out := EncodeList(parts);
    r := Ok(out);
  }

  method EncodeBlock(b: Block) returns (r: Outcome<Bytes>)
    requires b.index < TWO64
    ensures r == Encoded(BlockItem(b))
  {
    hide Enc, EncUint, EncBytes, Be, TxItems, ReceiptItem, Traverse;
    var index := EncodeUint(b.index);
    var prevHash := EncodeBytes(b.prevHash);
    var before := EncodeBytes(b.stateBefore);
    var after := EncodeBytes(b.stateAfter);
    var txRoot := EncodeBytes(b.txRoot);
    var proof := EncodeBytes(b.proof.proof);
    var commitment := EncodeBytes(b.proof.commitment);
    var timestamp := EncodeUint(b.timestamp);
    var hash := EncodeBytes(b.hash);
    var txs := EncodeTransactions(b.transactions);
    var bloom := EncodeBytes(b.logsBloom);
    var receipts := EncodeReceipts(b.receipts);
    if !receipts.Ok? { return receipts; }
    EncNum(b.index);
    EncNum(b.timestamp);
    EncOfStr(b.prevHash);
    EncOfStr(b.stateBefore);
    EncOfStr(b.stateAfter);
    EncOfStr(b.txRoot);
    EncOfStr(b.proof.proof);
    EncOfStr(b.proof.commitment);
    EncOfStr(b.hash);
    EncOfStr(b.logsBloom);
    var fields := [index, prevHash, before, after, txRoot, proof, commitment, timestamp, hash, txs, bloom, receipts.value];
    EncListOfEnc(fields, BlockItem(b).value.items);
    var out := EncodeList(fields);
    r := Ok(out);
  }

  method ParseBlock(cr: Crypto, hex: Text) returns (r: Outcome<Block>)
    ensures r == BlockFromHex(cr, hex)
  {
    hide ItemFromHex, TxFromHex, ToHex;
    var root := ParseItem(hex);
    if !root.Ok? { return root.PropagateFailure(); }
    if !root.value.List? || |root.value.items| < 10 {
      return Throw("Block::fromHex: invalid RLP block");
    }
    var f := root.value.items;
    var index := ToUint(f[0].Payload());
    var timestamp := ToUint(f[7].Payload());
    if !f[9].List? {
      return Throw("Block::fromHex: tx list not a list");
    }
    var txItems := f[9].items;
    var txs: seq<Transaction> := [];
    for i := 0 to |txItems|
      invariant Traverse(TxReader(cr), txItems[..i]) == Ok(txs)
    {
      var inner := WriteHex(txItems[i].Payload());
      var tx := ParseTransaction(cr, HEX_PREFIX + inner);
      TraverseStep(TxReader(cr), txItems, i);
      if !tx.Ok? {
        TraverseFails(TxReader(cr), txItems, i + 1);
        return tx.PropagateFailure();
      }
      txs := txs + [tx.value];
    }
    assert txItems[..|txItems|] == txItems;
    r := Ok(Block(index, f[1].Payload(), f[2].Payload(), f[3].Payload(), f[4].Payload(), [],
                  ZkProof(f[5].Payload(), [], [], [], f[6].Payload()),
                  timestamp, f[8].Payload(), txs, [], EmptyBloom()));
  }
}
