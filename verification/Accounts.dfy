/** The account map of src/state.cpp as a value: transfers and the state root. */
module Accounts {
  import opened Common
  import opened BigEndian
  import opened Rlp
  import opened RlpTheory
  import opened Trie
  import opened TrieEncoding
  import opened TrieCodec
  import opened Types

  /**
   * `accounts_`. The hash table is keyed by the hex text of an address, which
   * determines the address and is determined by it.
   */
  type AccountMap = map<Address, Account>

  const FRESH: Account := Account(0, 0)

  // ------------------------------------------------------------- transfers

  /** `getOrCreate`: a missing account springs up empty. */
  function Touch(m: AccountMap, k: Address): AccountMap {
    if k in m then m else m[k := FRESH]
  }

  function AccountAt(m: AccountMap, k: Address): Account {
    if k in m then m[k] else FRESH
  }

  /** The account map after a call, and whether the call returned. */
  datatype Applied = Applied(accounts: AccountMap, ok: bool)

  /**
   * `applyTransaction`. The two references may alias, so every update
   * reads the map left by the one before it; a throw keeps the new accounts.
   */
  function Transfer(m: AccountMap, f: Address, t: Address, value: Uint64): Applied {
    var m1 := Touch(Touch(m, f), t);
    if m1[f].balance < value then Applied(m1, false)
    else
      var m2 := m1[f := Account(m1[f].balance - value, Add64(m1[f].nonce, 1))];
      var m3 := m2[t := m2[t].(balance := Add64(m2[t].balance, value))];
      Applied(m3, true)
  }

  function Apply(m: AccountMap, tx: Transaction): Applied {
    Transfer(m, tx.from, tx.to, tx.value)
  }

  /** Transactions in order, stopping at the first throw. */
  function ApplyAll(m: AccountMap, txs: seq<Transaction>): Applied {
    if txs == [] then Applied(m, true)
    else
      var before := ApplyAll(m, txs[..|txs| - 1]);
      if !before.ok then before else Apply(before.accounts, txs[|txs| - 1])
  }

  /** The premine, later entries replacing earlier ones. */
  function Genesis(premine: seq<GenesisAccount>): AccountMap {
    if premine == [] then map[]
    else
      var last := premine[|premine| - 1];
      Genesis(premine[..|premine| - 1])[last.address := Account(last.balance, 0)]
  }

  /** The genesis state holds exactly the premined addresses, each with its last balance and nonce zero. */
  lemma {:induction false} GenesisAt(premine: seq<GenesisAccount>, i: nat)
    requires i < |premine|
    requires forall j :: i < j < |premine| ==> premine[j].address != premine[i].address
    ensures premine[i].address in Genesis(premine)
    ensures Genesis(premine)[premine[i].address] == Account(premine[i].balance, 0)
  {
    if i < |premine| - 1 {
      GenesisAt(premine[..|premine| - 1], i);
    }
  }

  lemma {:induction false} GenesisKeys(premine: seq<GenesisAccount>)
    ensures Genesis(premine).Keys == set g | g in premine :: g.address
  {
    if premine != [] {
      var init, last := premine[..|premine| - 1], premine[|premine| - 1];
      GenesisKeys(init);
      assert premine == init + [last];
    }
  }

  // ------------------------------------------------------------ state root

  function AccountItem(a: Account): Item {
    List([Str(Be(a.balance)), Str(Be(a.nonce))])
  }

  /** The trie value of an account: the RLP list of balance and nonce. */
  function AccountBytes(a: Account): Bytes {
    Enc(AccountItem(a))
  }

  lemma PathsInjective()
    ensures forall a: Address, b: Address :: Nibbles(a) == Nibbles(b) ==> a == b
  {
    forall a: Address, b: Address | Nibbles(a) == Nibbles(b) ensures a == b {
      NibblesInjective(a, b);
    }
  }

  /** What `State::root` puts into its trie. */
  function Leaves(m: AccountMap): Contents {
    PathsInjective();
    map k | k in m :: Nibbles(k) := AccountBytes(m[k])
  }

  /** The bytes `State::root` hashes. */
  ghost function StateBytes(m: AccountMap): Bytes {
    NodeBytes(Leaves(m), [])
  }

  ghost function StateRoot(hash: Hash, m: AccountMap): Text {
    RootText(hash, Leaves(m))
  }

  lemma AccountBytesInjective(a: Account, b: Account)
    requires AccountBytes(a) == AccountBytes(b)
    ensures a == b
  {
    AccountBytesShort(a);
    EncInjective(AccountItem(a), AccountItem(b));
    assert AccountItem(a).items[0] == AccountItem(b).items[0];
    assert AccountItem(a).items[1] == AccountItem(b).items[1];
    FromBeOfBe(a.balance);
    FromBeOfBe(b.balance);
    FromBeOfBe(a.nonce);
    FromBeOfBe(b.nonce);
  }

  lemma AccountBytesShort(a: Account)
    ensures 1 <= |AccountBytes(a)| <= 19
  {
    Be64(a.balance);
    Be64(a.nonce);
    var b, n := Str(Be(a.balance)), Str(Be(a.nonce));
    assert [b, n][1..] == [n];
    assert EncAll([n]) == Enc(n) + EncAll([]);
    assert EncAll([b, n]) == Enc(b) + EncAll([n]);
  }

  lemma LeavesAt(m: AccountMap, k: Address)
    ensures k in m ==> Nibbles(k) in Leaves(m) && Leaves(m)[Nibbles(k)] == AccountBytes(m[k])
    ensures k !in m ==> Nibbles(k) !in Leaves(m)
  {
    PathsInjective();
  }

  /**
   * The bytes hashed for the state root determine every address, balance and
   * nonce, and nothing else goes into them.
   */
  lemma StateBytesEqualIff(m1: AccountMap, m2: AccountMap)
    requires |StateBytes(m1)| <= MAX_SIZE
    ensures StateBytes(m1) == StateBytes(m2) <==> m1 == m2
  {
    hide NodeBytes, AccountBytes, Nibbles;
    NoEmptyLeaf(m1);
    NoEmptyLeaf(m2);
    RootBytesInjective(Leaves(m1), Leaves(m2));
    if StateBytes(m1) == StateBytes(m2) {
      forall k: Address ensures (k in m1 <==> k in m2) && (k in m1 ==> m1[k] == m2[k]) {
        LeavesAt(m1, k);
        LeavesAt(m2, k);
        if k in m1 {
          AccountBytesInjective(m1[k], m2[k]);
        }
      }
    }
  }

  lemma NoEmptyLeaf(m: AccountMap)
    ensures NoEmptyValue(Leaves(m))
  {
    hide AccountBytes, Nibbles;
    forall p | p in Leaves(m) ensures Leaves(m)[p] != [] {
      var k :| k in m && Nibbles(k) == p;
      LeavesAt(m, k);
      AccountBytesShort(m[k]);
    }
  }

  lemma LeavesOfNothing()
    ensures Leaves(map[]) == map[]
  {
  }

  lemma LeavesAdd(m: AccountMap, k: Address, a: Account)
    ensures Leaves(m[k := a]) == Leaves(m)[Nibbles(k) := AccountBytes(a)]
  {
    PathsInjective();
  }
}
