/** What the receipts root and the transaction root of a block commit to. */
module Commitments {
  import opened Common
  import opened Arithmetic
  import opened Hex
  import opened Texts
  import opened Trie
  import opened TrieReader
  import opened Types
  import opened Transactions
  import opened Chains

  // ---------------------------------------------------------------- receipts

  /** The last index below `n` that is `k` modulo 256. */
  function LastIndex(n: nat, k: Byte): nat
    requires k < n
  {
    k + (n - 1 - k) / 256 * 256
  }

  lemma LastIndexStep(n: nat, k: Byte)
    ensures k < n ==> LastIndex(n, k) < n && LastIndex(n, k) % 256 == k
    ensures n % 256 == k ==> LastIndex(n + 1, k) == n
    ensures n % 256 != k && k < n + 1 ==> k < n && LastIndex(n + 1, k) == LastIndex(n, k)
  {
  }

  lemma {:induction false} LastReceiptPut(rs: seq<Receipt>, k: Byte)
    ensures LastPut(ReceiptPuts(rs), [k])
            == if |rs| <= k then None else Some(ReceiptBytes(rs[LastIndex(|rs|, k)]))
  {
    hide ReceiptBytes;
    if rs != [] {
      var n := |rs| - 1;
      LastReceiptPut(rs[..n], k);
      assert ReceiptPuts(rs)[..n] == ReceiptPuts(rs[..n]);
      assert ReceiptPuts(rs)[n] == Entry([n % 256], ReceiptBytes(rs[n]));
      assert n % 256 != k ==> [n % 256][0] != [k][0];
      LastIndexStep(n, k);
      if k < n {
        assert rs[..n][LastIndex(n, k)] == rs[LastIndex(n, k)];
      }
    }
  }

  /**
   * Under byte `k` the receipts trie holds the last receipt whose index is `k`
   * modulo 256.
   */
  lemma ReceiptUnderByte(txs: seq<Transaction>, k: Byte)
    ensures Lookup(PutAll(map[], ReceiptPuts(Receipts(txs))), Nibbles([k]))
            == if |txs| <= k then None else Some(ReceiptBytes(ReceiptOf(txs, LastIndex(|txs|, k))))
  {
    hide ReceiptBytes, ReceiptOf, Lookup, PutAll, Nibbles, LastPut, ReceiptPuts;
    LookupIsLastPut(ReceiptPuts(Receipts(txs)), [k]);
    LastReceiptPut(Receipts(txs), k);
    LastIndexStep(|txs|, k);
  }

  /** Up to 256 transactions every receipt sits under its own index. */
  lemma OwnReceiptUpTo256(txs: seq<Transaction>, i: nat)
    requires i < |txs| <= 256
    ensures Lookup(PutAll(map[], ReceiptPuts(Receipts(txs))), Nibbles([i])) == Some(ReceiptBytes(ReceiptOf(txs, i)))
  {
    hide ReceiptBytes, ReceiptOf, Lookup, PutAll, Nibbles, ReceiptPuts;
    ReceiptUnderByte(txs, i);
    assert LastIndex(|txs|, i) == i;
  }

  /** The gas limits summed over the integers. */
  function GasSum(txs: seq<Transaction>): nat {
    if txs == [] then 0 else GasSum(txs[..|txs| - 1]) + txs[|txs| - 1].gasLimit
  }

  /** `cumulativeGasUsed` is the prefix sum of gas limits modulo 2^64. */
  lemma {:induction false} CumulativeGas(txs: seq<Transaction>, i: nat)
    requires i < |txs|
    ensures ReceiptOf(txs, i).cumulativeGasUsed == GasSum(txs[..i + 1]) % TWO64
  {
    GasUsedIsSum(txs[..i + 1]);
  }

  lemma {:induction false} GasUsedIsSum(txs: seq<Transaction>)
    ensures GasUsed(txs) == GasSum(txs) % TWO64
  {
    if txs != [] {
      var init := txs[..|txs| - 1];
      GasUsedIsSum(init);
      Add64Mod(GasSum(init), txs[|txs| - 1].gasLimit);
    }
  }

  // ---------------------------------------------------------- transactions

  predicate SameSignedBytes(a: seq<Transaction>, b: seq<Transaction>) {
    |a| == |b| && forall i :: 0 <= i < |a| ==> SignedBytes(a[i]) == SignedBytes(b[i])
  }

  function TxHexes(txs: seq<Transaction>): seq<Text> {
    seq(|txs|, i requires 0 <= i < |txs| => TxHex(txs[i]))
  }

  lemma TxHexHasNoBar(tx: Transaction)
    ensures NoBar(TxHex(tx))
  {
    hide NoBar, ToHex, SignedBytes;
    HexHasNoBar(SignedBytes(tx));
  }

  lemma PreimageStep(txs: seq<Transaction>, tx: Transaction)
    ensures TxRootPreimage(txs + [tx]) == TxRootPreimage(txs) + TxHex(tx) + BAR
  {
    hide TxHex;
    assert (txs + [tx])[..|txs|] == txs;
  }

  lemma {:induction false} PreimageOfFirst(txs: seq<Transaction>)
    requires txs != []
    ensures TxRootPreimage(txs) == TxHex(txs[0]) + BAR + TxRootPreimage(txs[1..])
  {
    hide TxHex, TxRootPreimage;
    var init, tx := txs[..|txs| - 1], txs[|txs| - 1];
    assert txs == init + [tx];
    PreimageStep(init, tx);
    if init == [] {
      PreimageOfNothing(init);
      PreimageOfNothing(txs[1..]);
    } else {
      PreimageOfFirst(init);
      PreimageStep(init[1..], tx);
      assert txs[1..] == init[1..] + [tx];
    }
  }

  lemma PreimageOfNothing(txs: seq<Transaction>)
    requires txs == []
    ensures TxRootPreimage(txs) == []
  {
  }

  /** Cut at its bars, the text behind the transaction root is every transaction's hex, and an empty end. */
  lemma {:induction false} TxRootPreimageCut(txs: seq<Transaction>)
    ensures Cut(TxRootPreimage(txs)) == TxHexes(txs) + [[]]
  {
    hide TxHex, NoBar, Cut;
    if txs == [] {
      CutOfNothing();
    } else {
      PreimageOfFirst(txs);
      TxRootPreimageCut(txs[1..]);
      TxHexHasNoBar(txs[0]);
      CutWhole(TxHex(txs[0]));
      CutAtBar(TxHex(txs[0]), TxRootPreimage(txs[1..]));
      assert TxHexes(txs) == [TxHex(txs[0])] + TxHexes(txs[1..]);
    }
  }

  /** The bytes hashed for the transaction root determine the list of signed encodings. */
  lemma TxRootPreimageEqualIff(a: seq<Transaction>, b: seq<Transaction>)
    ensures TxRootPreimage(a) == TxRootPreimage(b) <==> SameSignedBytes(a, b)
  {
    hide TxHex, SignedBytes, Cut, TxRootPreimage;
    TxRootPreimageCut(a);
    TxRootPreimageCut(b);
    CutEqualIff(TxRootPreimage(a), TxRootPreimage(b));
    if TxRootPreimage(a) == TxRootPreimage(b) {
      assert TxHexes(a) == (TxHexes(a) + [[]])[..|a|] && TxHexes(b) == (TxHexes(b) + [[]])[..|b|];
      forall i | 0 <= i < |a| ensures SignedBytes(a[i]) == SignedBytes(b[i]) {
        assert TxHex(a[i]) == TxHexes(a)[i] == TxHexes(b)[i] == TxHex(b[i]);
        TxHexInjective(a[i], b[i]);
      }
    }
    if SameSignedBytes(a, b) {
      forall i | 0 <= i < |a| ensures TxHexes(a)[i] == TxHexes(b)[i] {
        TxHexInjective(a[i], b[i]);
      }
      assert TxHexes(a) == TxHexes(b);
    }
  }

  /**
   * The transaction root is "0x00" for no transactions. Otherwise it is the
   * hex of the hash of the one text whose parts are the prefixed hex of every
   * signed encoding, in order, and an empty end.
   */
  lemma TxRootReadsBack(hash: Hash, txs: seq<Transaction>, t: Text)
    requires |Cut(t)| == |txs| + 1 && Cut(t)[|txs|] == []
    requires forall i :: 0 <= i < |txs| ==> Cut(t)[i] == HEX_PREFIX + ToHex(SignedBytes(txs[i]))
    ensures txs == [] ==> TxRoot(hash, txs) == ['0' as int, 'x' as int, '0' as int, '0' as int]
    ensures txs != [] ==> TxRoot(hash, txs) == ToHex(hash(t))
  {
    hide SignedBytes, Cut, TxRootPreimage, ToHex;
    TxRootPreimageCut(txs);
    assert Cut(t) == TxHexes(txs) + [[]];
    CutEqualIff(t, TxRootPreimage(txs));
  }

  /** Two lists have the same root under every hash exactly when their signed encodings are the same. */
  lemma TxRootsEqualIff(a: seq<Transaction>, b: seq<Transaction>)
    ensures (forall hash: Hash :: TxRoot(hash, a) == TxRoot(hash, b)) <==> SameSignedBytes(a, b)
  {
    hide SignedBytes, TxRootPreimage, ToHex, Marking, TxHex;
    TxRootPreimageEqualIff(a, b);
    if !SameSignedBytes(a, b) {
      var p, q := TxRootPreimage(a), TxRootPreimage(b);
      var hash := Marking(p);
      MarkingTells(p, q);
      HexRoundTrip(hash(p));
      HexRoundTrip(hash(q));
      assert TxRoot(hash, a) != TxRoot(hash, b);
    }
  }

  lemma TxHexInjective(x: Transaction, y: Transaction)
    ensures TxHex(x) == TxHex(y) <==> SignedBytes(x) == SignedBytes(y)
  {
    hide SignedBytes, ToHex, FromHex;
    HexRoundTrip(SignedBytes(x));
    HexRoundTrip(SignedBytes(y));
  }
}
