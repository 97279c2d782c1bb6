/**
 * Reading a trie encoding back: a walk over raw bytes that knows nothing of
 * how they were made, and what it finds in the bytes behind a root.
 */
module TrieReader {
  import opened Common
  import opened BigEndian
  import opened Rlp
  import opened RlpTheory
  import opened Hex
  import opened Trie
  import opened TrieEncoding
  import opened TrieCodec
  import opened Types
  import opened Accounts

  // -------------------------------------------------------------- the reader

  /** The string in place `n` of a list of seventeen; an empty one is nothing. */
  function Slot(node: Bytes, n: nat): Option<Bytes>
    requires n < 17
  {
    if |node| > MAX_SIZE then None
    else
      match Decode(node)
      case Ok(List(items)) =>
        if |items| != 17 || items[n].Payload() == [] then None else Some(items[n].Payload())
      case _ => None
  }

  /** Follow the high and the low half of every byte of the key, then take the value. */
  function Find(node: Bytes, key: Bytes): Option<Bytes>
    decreases |key|
  {
    if key == [] then Slot(node, 16)
    else
      match Slot(node, key[0] / 16)
      case None => None
      case Some(half) =>
        match Slot(half, key[0] % 16)
        case None => None
        case Some(next) => Find(next, key[1..])
  }

  /** The account behind an address: a list of balance and nonce. */
  function FindAccount(node: Bytes, a: Address): Option<Account> {
    match Find(node, a)
    case None => None
    case Some(value) =>
      if |value| > MAX_SIZE then None
      else
        match Decode(value)
        case Ok(List(items)) =>
          if |items| != 2 then None
          else Some(Account(FromBe(items[0].Payload()) % TWO64, FromBe(items[1].Payload()) % TWO64))
        case _ => None
  }

  // ------------------------------------------------------- what it finds

  /** The reader cannot tell an empty value from none. */
  function NonEmpty(b: Bytes): Option<Bytes> {
    if b == [] then None else Some(b)
  }

  lemma SlotOfNode(m: Contents, p: Path, n: nat)
    requires n < 17 && |NodeBytes(m, p)| <= MAX_SIZE
    ensures Slot(NodeBytes(m, p), n) ==
            if n == 16 then NonEmpty(ValueAt(m, p))
            else if Live(m, p + [n]) then Some(NodeBytes(m, p + [n])) else None
    ensures n < 16 && Live(m, p + [n]) ==> |NodeBytes(m, p + [n])| <= MAX_SIZE
  {
    hide NodeItem, Enc, Decode, Live;
    var x := NodeItem(m, p);
    RoundTrip(x);
    if n == 16 {
      NodeItemValue(m, p);
    } else {
      NodeItemChild(m, p, n);
      EncListBound(x.items, n);
      if Live(m, p + [n]) {
        EncNonEmpty(NodeItem(m, p + [n]));
      }
    }
  }

  lemma NibblesOfFirst(key: Bytes)
    requires key != []
    ensures Nibbles(key) == [key[0] / 16, key[0] % 16] + Nibbles(key[1..])
  {
  }

  /** Nothing is stored beyond a path that is not live. */
  lemma NothingBeyond(m: Contents, p: Path, n: Nibble, rest: Path)
    requires !Live(m, p + [n])
    ensures ValueAt(m, p + ([n] + rest)) == []
  {
    var q := p + ([n] + rest);
    assert q == (p + [n]) + rest;
    assert IsPrefix(p + [n], q);
    LiveAbove(m, p + [n], q);
  }

  /** Below any node the walk ends at the value stored under the whole path. */
  lemma {:induction false} FindInNode(m: Contents, p: Path, key: Bytes)
    requires |NodeBytes(m, p)| <= MAX_SIZE
    ensures Find(NodeBytes(m, p), key) == NonEmpty(ValueAt(m, p + Nibbles(key)))
    decreases |key|
  {
    hide Slot, NodeBytes, Live, ValueAt, Nibbles, NonEmpty;
    if key == [] {
      SlotOfNode(m, p, 16);
      NibblesOfNothing(p, key);
    } else {
      var hi, lo, rest := key[0] / 16, key[0] % 16, Nibbles(key[1..]);
      NibblesOfFirst(key);
      SlotOfNode(m, p, hi);
      NothingIsNone();
      if !Live(m, p + [hi]) {
        assert p + Nibbles(key) == p + ([hi] + ([lo] + rest));
        NothingBeyond(m, p, hi, [lo] + rest);
      } else {
        SlotOfNode(m, p + [hi], lo);
        assert p + Nibbles(key) == p + [hi] + ([lo] + rest);
        if !Live(m, p + [hi] + [lo]) {
          NothingBeyond(m, p + [hi], lo, rest);
        } else {
          FindInNode(m, p + [hi] + [lo], key[1..]);
          assert p + Nibbles(key) == p + [hi] + [lo] + rest;
        }
      }
    }
  }

  lemma NothingIsNone()
    ensures NonEmpty([]) == None
  {
  }

  lemma NibblesOfNothing(p: Path, key: Bytes)
    requires key == []
    ensures p + Nibbles(key) == p
  {
  }

  /** The bytes behind a root give every stored value back under its key, and nothing else. */
  lemma RootReadsBack(hash: Hash, m: Contents, key: Bytes)
    requires |NodeBytes(m, [])| <= MAX_SIZE
    ensures FromHex(RootText(hash, m)) == Ok(hash(NodeBytes(m, [])))
    ensures Find(NodeBytes(m, []), key) == NonEmpty(ValueAt(m, Nibbles(key)))
  {
    hide NodeBytes, Find, ValueAt, Nibbles, ToHex, FromHex, NonEmpty;
    HexRoundTrip(hash(NodeBytes(m, [])));
    FindInNode(m, [], key);
    assert [] + Nibbles(key) == Nibbles(key);
  }

  // ---------------------------------------------------------- the state root

  lemma AccountReadsBack(a: Account)
    ensures |AccountBytes(a)| <= MAX_SIZE
    ensures Decode(AccountBytes(a)) == Ok(AccountItem(a))
    ensures FromBe(Be(a.balance)) % TWO64 == a.balance && FromBe(Be(a.nonce)) % TWO64 == a.nonce
  {
    AccountBytesShort(a);
    RoundTrip(AccountItem(a));
    UintRoundTrip(a.balance);
    UintRoundTrip(a.nonce);
  }

  /**
   * The state root is the prefixed hex of the hash of bytes in which every
   * account is found under its address with its balance and nonce, and nothing
   * is found under any other address.
   */
  lemma StateRootReadsBack(hash: Hash, m: AccountMap, a: Address)
    requires |StateBytes(m)| <= MAX_SIZE
    ensures |StateRoot(hash, m)| == 66 && StateRoot(hash, m)[..2] == HEX_PREFIX
    ensures FromHex(StateRoot(hash, m)) == Ok(hash(StateBytes(m)))
    ensures FindAccount(StateBytes(m), a) == if a in m then Some(m[a]) else None
  {
    hide NodeBytes, Find, Nibbles, ToHex, FromHex, AccountBytes, Decode, FromBe, Be, Leaves;
    RootReadsBack(hash, Leaves(m), a);
    LeavesAt(m, a);
    if a in m {
      AccountReadsBack(m[a]);
      AccountBytesShort(m[a]);
    }
  }

  /** A hash that tells one preimage from all others. */
  function Marking(p: Bytes): Hash {
    b => if b == p then seq(32, _ => 1) else seq(32, _ => 0)
  }

  lemma MarkingTells(p: Bytes, q: Bytes)
    requires p != q
    ensures Marking(p)(p) != Marking(p)(q)
  {
    assert Marking(p)(p)[0] == 1 && Marking(p)(q)[0] == 0;
  }

  /** Two states have the same root under every hash exactly when they are the same state. */
  lemma StateRootsEqualIff(m1: AccountMap, m2: AccountMap)
    requires |StateBytes(m1)| <= MAX_SIZE && |StateBytes(m2)| <= MAX_SIZE
    ensures (forall hash: Hash :: StateRoot(hash, m1) == StateRoot(hash, m2)) <==> m1 == m2
  {
    hide StateBytes, StateRoot, Marking;
    if m1 != m2 {
      var hash := Marking(StateBytes(m1));
      StateRootReadsBack(hash, m1, ZERO_ADDRESS);
      StateRootReadsBack(hash, m2, ZERO_ADDRESS);
      if StateBytes(m1) == StateBytes(m2) {
        StatesReadApart(m1, m2);
      }
      MarkingTells(StateBytes(m1), StateBytes(m2));
      assert StateRoot(hash, m1) != StateRoot(hash, m2);
    }
  }

  lemma StatesReadApart(m1: AccountMap, m2: AccountMap)
    requires |StateBytes(m1)| <= MAX_SIZE && |StateBytes(m2)| <= MAX_SIZE
    requires StateBytes(m1) == StateBytes(m2)
    ensures m1 == m2
  {
    hide StateBytes, StateRoot, FindAccount;
    forall a: Address ensures a in m1 <==> a in m2
      ensures a in m1 && a in m2 ==> m1[a] == m2[a]
    {
      StateRootReadsBack(Marking([]), m1, a);
      StateRootReadsBack(Marking([]), m2, a);
    }
  }
}
