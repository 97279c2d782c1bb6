/** The transaction codec of src/transaction.cpp and sender recovery of src/keys.cpp. */
module Transactions {
  import opened Common
  import opened Arithmetic
  import opened BigEndian
  import opened Rlp
  import opened RlpTheory
  import opened Hex
  import opened TrieCodec
  import opened Types
  import opened Eip155

  /** What public-key recovery can come back with. */
  datatype Recovery = BadCompact | NoKey | Recovered(pub: Bytes)

  /**
   * The foreign primitives: Keccak-256, and public-key recovery from a digest,
   * `r`, `s` and a recovery id, which may fail.
   */
  datatype Crypto = Crypto(keccak: Hash, recover: (Digest, Digest, Digest, nat) -> Recovery)

  // ---------------------------------------------------------------- encoders

  /** The zero address, contract creation, travels as the empty string. */
  function ToField(to: Address): Bytes {
    if to == ZERO_ADDRESS then [] else to
  }

  function Num(n: Uint64): Item {
    Str(Be(n))
  }

  function SigningItem(tx: Transaction): Item {
    List([Num(tx.nonce), Num(tx.gasPrice), Num(tx.gasLimit), Str(ToField(tx.to)), Num(tx.value),
          Str(tx.data), Num(tx.chainId), Num(0), Num(0)])
  }

  function SigningBytes(tx: Transaction): Bytes {
    Enc(SigningItem(tx))
  }

  function SignedItem(tx: Transaction): Item {
    List([Num(tx.nonce), Num(tx.gasPrice), Num(tx.gasLimit), Str(ToField(tx.to)), Num(tx.value),
          Str(tx.data), Num(WireV(tx.sig.v, tx.chainId)), Str(tx.sig.r), Str(tx.sig.s)])
  }

  function SignedBytes(tx: Transaction): Bytes {
    Enc(SignedItem(tx))
  }

  function TxHex(tx: Transaction): Text {
    HEX_PREFIX + ToHex(SignedBytes(tx))
  }

  function TxHash(hash: Hash, tx: Transaction): Text {
    HashText(hash, SignedBytes(tx))
  }

  // ---------------------------------------------------------------- recovery

  function RecoverAddress(cr: Crypto, msg: Digest, sig: Signature, chainId: Uint64): Outcome<Address> {
    if !RecId(sig.v, chainId).Ok? then RecId(sig.v, chainId).PropagateFailure()
    else if |sig.r| != 32 || |sig.s| != 32 then Throw("recoverAddress: invalid r/s size")
    else AddressOf(cr, cr.recover(msg, sig.r, sig.s, RecId(sig.v, chainId).value))
  }

  /** The last 20 bytes of the hash of the recovered key. */
  function AddressOf(cr: Crypto, got: Recovery): Outcome<Address> {
    match got
    case BadCompact => Throw("recoverAddress: parse_compact failed")
    case NoKey => Throw("recoverAddress: recover failed")
    case Recovered(pub) => Ok(cr.keccak(pub)[12..])
  }

  function Sender(cr: Crypto, tx: Transaction): Outcome<Address> {
    RecoverAddress(cr, cr.keccak(SigningBytes(tx)), tx.sig, tx.chainId)
  }

  predicate VerifySignature(cr: Crypto, tx: Transaction) {
    match Sender(cr, tx)
    case Ok(a) => tx.from == ZERO_ADDRESS || a == tx.from
    case _ => false
  }

  /** The two ways `v` can stand for a recovery id. */
  predicate SignedWith(tx: Transaction, id: nat) {
    id <= 1 && (tx.sig.v == id || tx.sig.v == 35 + 2 * tx.chainId + id)
  }

  /** Recovery from the hashed signing bytes gives a key whose hash ends in the address. */
  ghost predicate Yields(cr: Crypto, tx: Transaction, a: Address) {
    exists id: nat, pub: Bytes ::
      && SignedWith(tx, id) && |tx.sig.r| == 32 && |tx.sig.s| == 32
      && cr.recover(cr.keccak(SigningBytes(tx)), tx.sig.r, tx.sig.s, id) == Recovered(pub)
      && forall i :: 0 <= i < 20 ==> a[i] == cr.keccak(pub)[12 + i]
  }

  lemma RecIdIff(tx: Transaction, id: nat)
    ensures RecId(tx.sig.v, tx.chainId) == Ok(id) <==> SignedWith(tx, id)
  {
  }

  /** The sender `recoverAddress` finds, if any. */
  lemma SenderIff(cr: Crypto, tx: Transaction, a: Address)
    ensures Sender(cr, tx) == Ok(a) <==> Yields(cr, tx, a)
  {
    hide SigningBytes, SignedWith, RecId;
    var v := RecId(tx.sig.v, tx.chainId);
    if Yields(cr, tx, a) {
      var id: nat, pub: Bytes :|
        && SignedWith(tx, id) && |tx.sig.r| == 32 && |tx.sig.s| == 32
        && cr.recover(cr.keccak(SigningBytes(tx)), tx.sig.r, tx.sig.s, id) == Recovered(pub)
        && forall i :: 0 <= i < 20 ==> a[i] == cr.keccak(pub)[12 + i];
      RecIdIff(tx, id);
      assert a == cr.keccak(pub)[12..];
    }
    if Sender(cr, tx) == Ok(a) {
      RecIdIff(tx, v.value);
      var got := cr.recover(cr.keccak(SigningBytes(tx)), tx.sig.r, tx.sig.s, v.value);
      assert got == Recovered(got.pub) && a == cr.keccak(got.pub)[12..];
    }
  }

  /** A named sender must be the one recovered; without one, any will do. */
  ghost predicate Signed(cr: Crypto, tx: Transaction) {
    if tx.from == ZERO_ADDRESS then exists a: Address :: Yields(cr, tx, a) else Yields(cr, tx, tx.from)
  }

  lemma SignatureVerifiesIff(cr: Crypto, tx: Transaction)
    ensures VerifySignature(cr, tx) <==> Signed(cr, tx)
  {
    hide Sender, Yields;
    SenderIff(cr, tx, tx.from);
    if Sender(cr, tx).Ok? {
      SenderIff(cr, tx, Sender(cr, tx).value);
    }
    if tx.from == ZERO_ADDRESS && Signed(cr, tx) {
      var a: Address :| Yields(cr, tx, a);
      SenderIff(cr, tx, a);
    }
  }

  /** No two different senders can be named for one signature. */
  lemma OneSenderVerifies(cr: Crypto, tx: Transaction, from: Address)
    requires tx.from != ZERO_ADDRESS && from != ZERO_ADDRESS && VerifySignature(cr, tx)
    ensures VerifySignature(cr, tx.(from := from)) <==> from == tx.from
  {
    hide Enc, Be, RecoverAddress;
    assert SigningItem(tx.(from := from)) == SigningItem(tx);
  }

  // ----------------------------------------------------------------- decoder

  function ToUint64(b: Bytes): Uint64 {
    FromBe(b) % TWO64
  }

  function ReadTo(b: Bytes): Outcome<Address> {
    if b == [] then Ok(ZERO_ADDRESS)
    else if |b| != 20 then Throw("Address::fromBytes: must be 20 bytes")
    else Ok(b)
  }

  /** The record `fromHex` fills from the list, before hash and sender. */
  function Fields(fields: seq<Item>): Outcome<Transaction>
    requires |fields| >= 9
  {
    var to :- ReadTo(fields[3].Payload());
    var wire := ToUint64(fields[6].Payload());
    var r, s := fields[7].Payload(), fields[8].Payload();
    if |r| != 32 || |s| != 32 then Throw("Transaction::fromHex: invalid r/s size")
    else
      Ok(Transaction(ToUint64(fields[0].Payload()), ToUint64(fields[1].Payload()),
                     ToUint64(fields[2].Payload()), to, ToUint64(fields[4].Payload()),
                     fields[5].Payload(), WireChainId(wire), ZERO_ADDRESS,
                     Signature(r, s, wire % 256), []))
  }

  function WithSender(tx: Transaction, hash: Text, from: Address): Transaction {
    tx.(hash := hash, from := from)
  }

  /** The last two steps of `fromHex`. */
  function Completed(cr: Crypto, tx: Transaction): Outcome<Transaction> {
    match Sender(cr, tx)
    case Ok(from) => Ok(WithSender(tx, TxHash(cr.keccak, tx), from))
    case failed => failed.PropagateFailure()
  }

  function FromItem(cr: Crypto, root: Item): Outcome<Transaction> {
    if !root.List? || |root.items| < 9 then Throw("Transaction::fromHex: invalid RLP tx")
    else
      var tx :- Fields(root.items);
      Completed(cr, tx)
  }

  /** Strip, unhex and decode: the opening of both `fromHex` functions. */
  function ItemFromHex(hex: Text): Outcome<Item> {
    if |hex| > MAX_SIZE then Throw("length_error")
    else
      var raw :- FromHex(Strip(hex));
      Decode(raw)
  }

  function TxFromHex(cr: Crypto, hex: Text): Outcome<Transaction> {
    var root :- ItemFromHex(hex);
    FromItem(cr, root)
  }

  // ------------------------------------------------------------ round trips

  lemma NumRoundTrip(n: Uint64)
    ensures ToUint64(Num(n).Payload()) == n
  {
    UintRoundTrip(n);
  }

  lemma ReadToRoundTrip(to: Address)
    ensures ReadTo(ToField(to)) == Ok(to)
  {
  }

  /** A list of fewer than nine items is refused, and items after the ninth are ignored. */
  lemma ExtraItemsIgnored(cr: Crypto, items: seq<Item>, more: seq<Item>)
    ensures |items| >= 9 ==> FromItem(cr, List(items + more)) == FromItem(cr, List(items))
    ensures |items| < 9 ==> FromItem(cr, List(items)) == Throw("Transaction::fromHex: invalid RLP tx")
  {
    hide ToUint64, ReadTo, Completed;
    assert |items| >= 9 ==> Fields(items + more) == Fields(items);
  }

  /** The wire `v` of a transaction. */
  function Wire(tx: Transaction): Uint64 {
    WireV(tx.sig.v, tx.chainId)
  }

  /** The transaction as a receiver holds it, before hash and sender. */
  function Received(tx: Transaction): Transaction {
    tx.(from := ZERO_ADDRESS, hash := [], chainId := WireChainId(Wire(tx)),
        sig := tx.sig.(v := Wire(tx) % 256))
  }

  lemma FieldsRoundTrip(tx: Transaction)
    ensures Fields(SignedItem(tx).items) ==
            if |tx.sig.r| == 32 && |tx.sig.s| == 32 then Ok(Received(tx))
            else Throw("Transaction::fromHex: invalid r/s size")
  {
    hide ToUint64, WireV, Be;
    NumRoundTrip(tx.nonce);
    NumRoundTrip(tx.gasPrice);
    NumRoundTrip(tx.gasLimit);
    NumRoundTrip(tx.value);
    NumRoundTrip(Wire(tx));
    ReadToRoundTrip(tx.to);
  }

  /** Decoding hex text of an encoded item gives the item. */
  lemma HexItemRoundTrip(x: Item)
    requires |HEX_PREFIX + ToHex(Enc(x))| <= MAX_SIZE
    ensures ItemFromHex(HEX_PREFIX + ToHex(Enc(x))) == Ok(x)
  {
    HexRoundTrip(Enc(x));
    RoundTrip(x);
  }

  lemma ParseOfEncoded(cr: Crypto, tx: Transaction)
    requires |TxHex(tx)| <= MAX_SIZE
    ensures TxFromHex(cr, TxHex(tx)) ==
            if |tx.sig.r| == 32 && |tx.sig.s| == 32 then Completed(cr, Received(tx))
            else Throw("Transaction::fromHex: invalid r/s size")
  {
    hide Fields, Enc, ToHex, ItemFromHex, Completed, Received;
    HexItemRoundTrip(SignedItem(tx));
    FieldsRoundTrip(tx);
  }

  /** Recovery from the bytes the receiver hashes, with a given recovery id. */
  function RecoveredWith(cr: Crypto, tx: Transaction, id: nat): Outcome<Address>
    requires |tx.sig.r| == 32 && |tx.sig.s| == 32
  {
    AddressOf(cr, cr.recover(cr.keccak(SigningBytes(Received(tx))), tx.sig.r, tx.sig.s, id))
  }

  /** The receiver's recovery uses the recovery id that survives the wire, if one does. */
  lemma SenderOfReceived(cr: Crypto, tx: Transaction)
    requires |tx.sig.r| == 32 && |tx.sig.s| == 32
    ensures Sender(cr, Received(tx)) ==
            match ReceivedRecId(tx.sig.v, tx.chainId)
            case Ok(id) => RecoveredWith(cr, tx, id)
            case failed => failed.PropagateFailure()
  {
    hide SigningBytes, AddressOf, RecId, WireV;
  }

  /** The recovery id the receiver ends up with; `None` when the cut `v` is refused. */
  function WireRecId(tx: Transaction): Option<nat>
    requires tx.sig.v <= 1
  {
    if 35 + 2 * (tx.chainId % TWO63) + tx.sig.v <= 255 then Some(tx.sig.v)
    else if Wire(tx) % 256 <= 1 then Some(1 - tx.sig.v)
    else None
  }

  /**
   * `fromHex(toHex(tx))` for every chain id. It succeeds exactly when `r` and
   * `s` have 32 bytes and either `v` fits eight bits and recovery with the
   * signer's id succeeds, or the cut `v` is 0 or 1 and recovery with the other
   * id does; it throws otherwise. On success every field but `from`, `hash`,
   * the cut `v` and a wrapped chain id is the one sent.
   */
  lemma TransactionRoundTrip(cr: Crypto, tx: Transaction)
    requires tx.sig.v <= 1 && |TxHex(tx)| <= MAX_SIZE
    ensures TxFromHex(cr, TxHex(tx)).Ok? <==>
            && |tx.sig.r| == 32 && |tx.sig.s| == 32
            && WireRecId(tx).Some?
            && RecoveredWith(cr, tx, WireRecId(tx).value).Ok?
    ensures !TxFromHex(cr, TxHex(tx)).Ok? ==> TxFromHex(cr, TxHex(tx)).Throw?
    ensures TxFromHex(cr, TxHex(tx)).Ok? ==>
              var got := TxFromHex(cr, TxHex(tx)).value;
              && got == tx.(from := got.from, hash := got.hash, chainId := WireChainId(Wire(tx)),
                            sig := tx.sig.(v := Wire(tx) % 256))
              && RecoveredWith(cr, tx, WireRecId(tx).value) == Ok(got.from)
              && SigningBytes(got) == SigningBytes(Received(tx))
  {
    hide TxFromHex, TxHex, TxHash, SigningBytes, RecoveredWith, Sender, WireV, ReceivedRecId;
    ParseOfEncoded(cr, tx);
    if |tx.sig.r| == 32 && |tx.sig.s| == 32 {
      SenderOfReceived(cr, tx);
      RecIdSurvivesIff(tx.sig.v, tx.chainId);
      RecoveredNotUndefined(cr, tx);
      SigningIgnoresSender(cr, tx);
    }
  }

  lemma RecoveredNotUndefined(cr: Crypto, tx: Transaction)
    requires |tx.sig.r| == 32 && |tx.sig.s| == 32
    ensures forall id: nat :: !RecoveredWith(cr, tx, id).Undefined?
  {
    hide SigningBytes;
  }

  lemma SigningIgnoresSender(cr: Crypto, tx: Transaction)
    ensures forall h: Text, a: Address ::
              SigningBytes(WithSender(Received(tx), h, a)) == SigningBytes(Received(tx))
  {
    hide Enc, Be;
  }

  /** The receiver hashes the bytes that were signed exactly when the wire `v` does not wrap. */
  lemma SignedBytesSurviveIff(tx: Transaction)
    requires tx.sig.v <= 1 && |SigningBytes(tx)| <= MAX_SIZE
    ensures SigningBytes(Received(tx)) == SigningBytes(tx) <==> 35 + 2 * tx.chainId + tx.sig.v < TWO64
  {
    hide SigningBytes, WireV;
    SigningBytesEqualIff(tx, Received(tx));
    ChainIdSurvivesIff(tx.sig.v, tx.chainId);
  }

  /** A signed transaction arrives with its sender and verifies while `v` fits eight bits. */
  lemma SignerSurvives(cr: Crypto, tx: Transaction)
    requires tx.sig.v <= 1 && Sender(cr, tx) == Ok(tx.from)
    requires |TxHex(tx)| <= MAX_SIZE
    requires 35 + 2 * tx.chainId + tx.sig.v <= 255
    ensures var got := TxFromHex(cr, TxHex(tx));
            && got.Ok?
            && got.value == tx.(sig := got.value.sig, hash := got.value.hash)
            && got.value.sig == tx.sig.(v := 35 + 2 * tx.chainId + tx.sig.v)
            && VerifySignature(cr, got.value)
  {
    hide TxFromHex, TxHex, TxHash, Enc, Be, AddressOf;
    ParseOfEncoded(cr, tx);
    SmallWire(tx);
  }

  lemma SmallWire(tx: Transaction)
    requires 35 + 2 * tx.chainId + tx.sig.v <= 255
    ensures Wire(tx) % 256 == Wire(tx) == 35 + 2 * tx.chainId + tx.sig.v
    ensures tx.sig.v <= 1 ==> WireChainId(Wire(tx)) == tx.chainId
  {
  }

  /** The signing bytes determine the seven signed fields. */
  lemma SigningBytesEqualIff(a: Transaction, b: Transaction)
    requires |SigningBytes(a)| <= MAX_SIZE
    ensures SigningBytes(a) == SigningBytes(b) <==>
            && a.nonce == b.nonce && a.gasPrice == b.gasPrice && a.gasLimit == b.gasLimit
            && a.to == b.to && a.value == b.value && a.data == b.data && a.chainId == b.chainId
  {
    hide Enc, Be, ToUint64;
    if SigningBytes(a) == SigningBytes(b) {
      EncInjective(SigningItem(a), SigningItem(b));
      var xs, ys := SigningItem(a).items, SigningItem(b).items;
      assert xs[0] == ys[0] && xs[1] == ys[1] && xs[2] == ys[2] && xs[3] == ys[3];
      assert xs[4] == ys[4] && xs[5] == ys[5] && xs[6] == ys[6];
      NumInjective(a.nonce, b.nonce);
      NumInjective(a.gasPrice, b.gasPrice);
      NumInjective(a.gasLimit, b.gasLimit);
      NumInjective(a.value, b.value);
      NumInjective(a.chainId, b.chainId);
    }
  }

  lemma NumInjective(a: Uint64, b: Uint64)
    ensures Num(a) == Num(b) <==> a == b
  {
    NumRoundTrip(a);
    NumRoundTrip(b);
  }

  /** Encoding a received `v` and chain id never gives the wire `v` they came from. */
  lemma WireNeverReturns(w: Uint64)
    ensures WireV(w % 256, WireChainId(w)) != w
  {
    var v, c := w % 256, WireChainId(w);
    assert v % 2 == w % 2;
    var sum := v + 35 + 2 * c;
    if sum < TWO64 {
      DivMod(sum, TWO64, 0, sum);
    } else {
      DivMod(sum, TWO64, 1, sum - TWO64);
    }
  }

  /**
   * Because the cut `v` is encoded again as if it were a recovery id, no
   * accepted transaction re-encodes to the bytes it was read from, canonical
   * or not, whatever its chain id.
   */
  lemma ReencodingAlwaysDiffers(cr: Crypto, hex: Text)
    requires TxFromHex(cr, hex).Ok?
    ensures FromHex(Strip(hex)) != Ok(SignedBytes(TxFromHex(cr, hex).value))
  {
    hide Enc, Be, WireV, ToUint64, Sender, TxHash, FromHex, Decode;
    var got := TxFromHex(cr, hex).value;
    if FromHex(Strip(hex)) == Ok(SignedBytes(got)) {
      HexHalves(hex);
      RoundTrip(SignedItem(got));
      var w := ToUint64(ItemFromHex(hex).value.items[6].Payload());
      NumRoundTrip(Wire(got));
      WireNeverReturns(w);
      assert false;
    }
  }

  lemma HexHalves(hex: Text)
    requires FromHex(Strip(hex)).Ok?
    ensures |FromHex(Strip(hex)).value| <= |hex|
  {
  }
}
