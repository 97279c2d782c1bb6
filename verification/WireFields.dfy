/**
 * What stands where in the encodings of transactions, receipts and blocks, as
 * a reader of the raw bytes finds it.
 */
module WireFields {
  import opened Common
  import opened BigEndian
  import opened Rlp
  import opened RlpTheory
  import opened Hex
  import opened Trie
  import opened TrieEncoding
  import opened TrieCodec
  import opened TrieReader
  import opened Types
  import opened Eip155
  import opened Transactions
  import opened Blocks
  import opened Chains
  import opened Commitments

  /** A string of minimal big-endian digits that denotes `n`. */
  predicate IsNum(x: Item, n: nat) {
    x.Str? && FromBe(x.bytes) == n && (x.bytes != [] ==> x.bytes[0] != 0)
  }

  lemma NumIs(n: Uint64)
    ensures IsNum(Num(n), n)
  {
    FromBeOfBe(n);
    BeLength(n, 8);
  }

  // ------------------------------------------------------------ transactions

  /** The six fields both encodings start with. */
  predicate ShowsCore(fields: seq<Item>, tx: Transaction)
    requires |fields| >= 6
  {
    && IsNum(fields[0], tx.nonce) && IsNum(fields[1], tx.gasPrice) && IsNum(fields[2], tx.gasLimit)
    && fields[3] == Str(if forall i :: 0 <= i < 20 ==> tx.to[i] == 0 then [] else tx.to)
    && IsNum(fields[4], tx.value) && fields[5] == Str(tx.data)
  }

  /** What is signed: the six fields, the chain id and two zeros. */
  predicate ShowsUnsigned(x: Item, tx: Transaction) {
    && x.List? && |x.items| == 9 && ShowsCore(x.items, tx)
    && IsNum(x.items[6], tx.chainId) && IsNum(x.items[7], 0) && IsNum(x.items[8], 0)
  }

  /** What is sent: the six fields, the 64-bit `v`, `r` and `s`. */
  predicate ShowsSigned(x: Item, tx: Transaction) {
    && x.List? && |x.items| == 9 && ShowsCore(x.items, tx)
    && IsNum(x.items[6], (35 + 2 * tx.chainId + tx.sig.v) % TWO64)
    && x.items[7] == Str(tx.sig.r) && x.items[8] == Str(tx.sig.s)
  }

  lemma ZeroAddressIff(a: Address)
    ensures a == ZERO_ADDRESS <==> forall i :: 0 <= i < 20 ==> a[i] == 0
  {
    forall i | 0 <= i < 20 ensures ZERO_ADDRESS[i] == 0 {
    }
  }

  lemma CoreShown(tx: Transaction)
    ensures ShowsCore(SigningItem(tx).items, tx) && ShowsCore(SignedItem(tx).items, tx)
  {
    hide IsNum, Be, WireV;
    NumIs(tx.nonce);
    NumIs(tx.gasPrice);
    NumIs(tx.gasLimit);
    NumIs(tx.value);
    ZeroAddressIff(tx.to);
  }

  /** Decoding the signing bytes shows exactly the fields that are signed. */
  lemma SigningBytesReadBack(tx: Transaction)
    requires |SigningBytes(tx)| <= MAX_SIZE
    ensures Decode(SigningBytes(tx)).Ok? && ShowsUnsigned(Decode(SigningBytes(tx)).value, tx)
  {
    hide IsNum, Be, Enc, Decode, ShowsCore;
    RoundTrip(SigningItem(tx));
    CoreShown(tx);
    NumIs(tx.chainId);
    NumIs(0);
  }

  lemma SignedItemShows(tx: Transaction)
    ensures ShowsSigned(SignedItem(tx), tx)
  {
    hide IsNum, Be, ShowsCore;
    CoreShown(tx);
    NumIs(WireV(tx.sig.v, tx.chainId));
  }

  /**
   * Decoding the signed bytes shows the fields that are sent, and the
   * transaction hash is the prefixed hex of the hash of these bytes.
   */
  lemma SignedBytesReadBack(hash: Hash, tx: Transaction)
    requires |SignedBytes(tx)| <= MAX_SIZE
    ensures Decode(SignedBytes(tx)).Ok? && ShowsSigned(Decode(SignedBytes(tx)).value, tx)
    ensures FromHex(TxHash(hash, tx)) == Ok(hash(SignedBytes(tx)))
    ensures |TxHash(hash, tx)| == 66 && TxHash(hash, tx)[..2] == ['0' as int, 'x' as int]
  {
    hide SignedItem, Enc, Decode, ShowsSigned, ToHex, FromHex;
    RoundTrip(SignedItem(tx));
    SignedItemShows(tx);
    HexRoundTrip(hash(SignedBytes(tx)));
  }

  /**
   * The hash a parsed transaction carries is that of its own encoding, which
   * is never the bytes it was parsed from.
   */
  lemma ParsedHash(cr: Crypto, hex: Text)
    requires TxFromHex(cr, hex).Ok?
    ensures var got := TxFromHex(cr, hex).value;
            && FromHex(got.hash) == Ok(cr.keccak(SignedBytes(got)))
            && FromHex(Strip(hex)) != Ok(SignedBytes(got))
  {
    hide Enc, Be, WireV, ItemFromHex, Fields, Sender, ToHex, FromHex, Strip;
    var got := TxFromHex(cr, hex).value;
    ReencodingAlwaysDiffers(cr, hex);
    HexRoundTrip(cr.keccak(SignedBytes(got)));
  }

  // ---------------------------------------------------------------- receipts

  /** Address, topics as bytes, data. */
  predicate ShowsLog(x: Item, log: Log) {
    && x.List? && |x.items| == 3 && x.items[0] == Str(log.address) && x.items[2] == Str(log.data)
    && x.items[1].List? && |x.items[1].items| == |log.topics|
    && forall i :: 0 <= i < |log.topics| ==>
         x.items[1].items[i].Str? && FromHex(log.topics[i]) == Ok(x.items[1].items[i].bytes)
  }

  /** Status one or zero, gas, logs. */
  predicate ShowsReceipt(x: Item, r: Receipt) {
    && x.List? && |x.items| == 3 && IsNum(x.items[0], if r.status then 1 else 0)
    && IsNum(x.items[1], r.cumulativeGasUsed)
    && x.items[2].List? && |x.items[2].items| == |r.logs|
    && forall i :: 0 <= i < |r.logs| ==> ShowsLog(x.items[2].items[i], r.logs[i])
  }

  predicate HexTopics(log: Log) {
    forall i :: 0 <= i < |log.topics| ==> FromHex(log.topics[i]).Ok?
  }

  lemma LogShown(log: Log)
    ensures LogItem(log).Ok? <==> HexTopics(log)
    ensures LogItem(log).Ok? ==> ShowsLog(LogItem(log).value, log)
  {
    hide FromHex;
    TraverseAll(TopicItem, log.topics);
    if LogItem(log).Ok? {
      var topics := Traverse(TopicItem, log.topics).value;
      forall i | 0 <= i < |topics|
        ensures topics[i].Str? && FromHex(log.topics[i]) == Ok(topics[i].bytes)
      {
        assert TopicItem(log.topics[i]) == Ok(topics[i]);
      }
    }
    if HexTopics(log) {
      forall i | 0 <= i < |log.topics| ensures TopicItem(log.topics[i]).Ok? {
        assert FromHex(log.topics[i]).Ok?;
      }
    } else {
      var i :| 0 <= i < |log.topics| && !FromHex(log.topics[i]).Ok?;
      assert !TopicItem(log.topics[i]).Ok?;
    }
  }

  /** A receipt is encodable exactly when all topics are hex, and then shows all it holds. */
  lemma ReceiptShown(r: Receipt)
    ensures ReceiptItem(r).Ok? <==> forall i :: 0 <= i < |r.logs| ==> HexTopics(r.logs[i])
    ensures ReceiptItem(r).Ok? ==> ShowsReceipt(ReceiptItem(r).value, r)
  {
    hide IsNum, Be, LogItem, ShowsLog, HexTopics;
    NumIs(1);
    NumIs(0);
    NumIs(r.cumulativeGasUsed);
    TraverseAll(LogItem, r.logs);
    forall i | 0 <= i < |r.logs|
      ensures LogItem(r.logs[i]).Ok? <==> HexTopics(r.logs[i])
      ensures LogItem(r.logs[i]).Ok? ==> ShowsLog(LogItem(r.logs[i]).value, r.logs[i])
    {
      LogShown(r.logs[i]);
    }
  }

  /** The bytes behind the receipts root. */
  ghost function ReceiptTrieBytes(txs: seq<Transaction>): Bytes {
    NodeBytes(PutAll(map[], ReceiptPuts(Receipts(txs))), [])
  }

  /**
   * In the bytes behind the receipts root, under byte `k` stands the last
   * receipt whose index is `k` modulo 256: success, the gas limits up to its
   * transaction summed modulo 2^64, and no logs. Nothing stands there when
   * there are too few transactions.
   */
  lemma ReceiptsRootReadsBack(hash: Hash, txs: seq<Transaction>, k: Byte)
    requires |ReceiptTrieBytes(txs)| <= MAX_SIZE
    ensures FromHex(ReceiptsRoot(hash, txs)) == Ok(hash(ReceiptTrieBytes(txs)))
    ensures |txs| <= k ==> Find(ReceiptTrieBytes(txs), [k]) == None
    ensures k < |txs| ==>
              var got := Find(ReceiptTrieBytes(txs), [k]);
              var i := LastIndex(|txs|, k);
              && i < |txs| && i % 256 == k
              && got.Some? && |got.value| <= MAX_SIZE && Decode(got.value).Ok?
              && ShowsReceipt(Decode(got.value).value, Receipt(true, GasSum(txs[..i + 1]) % TWO64, []))
  {
    hide NodeBytes, Find, Nibbles, FromHex, PutAll, ReceiptPuts, Receipts, ReceiptBytes, ReceiptOf, Decode,
         ShowsReceipt, GasSum, RootText;
    var m := PutAll(map[], ReceiptPuts(Receipts(txs)));
    RootReadsBack(hash, m, [k]);
    ReceiptUnderByte(txs, k);
    LastIndexStep(|txs|, k);
    if k < |txs| {
      var i := LastIndex(|txs|, k);
      OwnReceiptIs(txs, i);
      ReceiptBytesReadBack(ReceiptOf(txs, i));
    }
  }

  lemma OwnReceiptIs(txs: seq<Transaction>, i: nat)
    requires i < |txs|
    ensures ReceiptOf(txs, i) == Receipt(true, GasSum(txs[..i + 1]) % TWO64, [])
  {
    hide GasUsed, GasSum;
    CumulativeGas(txs, i);
  }

  lemma ReceiptBytesReadBack(r: Receipt)
    requires r.logs == []
    ensures 1 <= |ReceiptBytes(r)| <= MAX_SIZE
    ensures Decode(ReceiptBytes(r)).Ok? && ShowsReceipt(Decode(ReceiptBytes(r)).value, r)
  {
    hide IsNum, Be, Decode;
    var x := List([Num(if r.status then 1 else 0), Num(r.cumulativeGasUsed), List([])]);
    NumIs(1);
    NumIs(0);
    NumIs(r.cumulativeGasUsed);
    ReceiptBytesShort(r);
    RoundTrip(x);
  }

  lemma ReceiptBytesShort(r: Receipt)
    ensures 1 <= |ReceiptBytes(r)| <= 30
  {
    hide Be;
    var s, g := Num(if r.status then 1 else 0), Num(r.cumulativeGasUsed);
    Be64(if r.status then 1 else 0);
    Be64(r.cumulativeGasUsed);
    var e := List([]);
    assert [s, g, e][1..] == [g, e] && [g, e][1..] == [e] && [e][1..] == [];
    assert EncAll([e]) == Enc(e) + EncAll([]);
    assert EncAll([g, e]) == Enc(g) + EncAll([g, e][1..]);
    assert EncAll([s, g, e]) == Enc(s) + EncAll([s, g, e][1..]);
  }

  // ------------------------------------------------------------------ blocks

  /** All twelve fields, in order. */
  predicate ShowsBlock(x: Item, b: Block) {
    && x.List? && |x.items| == 12
    && IsNum(x.items[0], b.index) && x.items[1] == Str(b.prevHash)
    && x.items[2] == Str(b.stateBefore) && x.items[3] == Str(b.stateAfter) && x.items[4] == Str(b.txRoot)
    && x.items[5] == Str(b.proof.proof) && x.items[6] == Str(b.proof.commitment)
    && IsNum(x.items[7], b.timestamp) && x.items[8] == Str(b.hash)
    && x.items[9].List? && |x.items[9].items| == |b.transactions|
    && (forall i :: 0 <= i < |b.transactions| ==> ShowsSigned(x.items[9].items[i], b.transactions[i]))
    && x.items[10] == Str(b.logsBloom)
    && x.items[11].List? && |x.items[11].items| == |b.receipts|
    && (forall i :: 0 <= i < |b.receipts| ==> ShowsReceipt(x.items[11].items[i], b.receipts[i]))
  }

  /**
   * A block is encodable exactly when the topics of its receipts are hex, and
   * reading its hex as an item shows every field that is sent, the bloom and
   * the receipts included.
   */
  lemma BlockReadsBack(b: Block)
    requires b.index < TWO64
    ensures BlockHex(b).Ok? <==>
            forall i, j :: 0 <= i < |b.receipts| && 0 <= j < |b.receipts[i].logs| ==> HexTopics(b.receipts[i].logs[j])
    ensures BlockHex(b).Ok? && |BlockHex(b).value| <= MAX_SIZE ==>
              && ItemFromHex(BlockHex(b).value).Ok?
              && ShowsBlock(ItemFromHex(BlockHex(b).value).value, b)
  {
    hide IsNum, Be, Enc, ToHex, ItemFromHex, SignedItem, ShowsSigned, ReceiptItem, ShowsReceipt, HexTopics;
    NumIs(b.index);
    NumIs(b.timestamp);
    TraverseAll(ReceiptItem, b.receipts);
    forall i | 0 <= i < |b.receipts|
      ensures ReceiptItem(b.receipts[i]).Ok? <==>
              forall j :: 0 <= j < |b.receipts[i].logs| ==> HexTopics(b.receipts[i].logs[j])
      ensures ReceiptItem(b.receipts[i]).Ok? ==> ShowsReceipt(ReceiptItem(b.receipts[i]).value, b.receipts[i])
    {
      ReceiptShown(b.receipts[i]);
    }
    forall i | 0 <= i < |b.transactions| ensures ShowsSigned(SignedItem(b.transactions[i]), b.transactions[i]) {
      SignedItemShows(b.transactions[i]);
    }
    if BlockHex(b).Ok? && |BlockHex(b).value| <= MAX_SIZE {
      HexItemRoundTrip(BlockItem(b).value);
    }
  }
}
