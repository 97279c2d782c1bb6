/** The mutable state of src/state.cpp. */
module WorldState {
  import opened Common
  import opened RlpTheory
  import opened RlpCodec
  import opened Hex
  import opened Trie
  import opened TrieCodec
  import opened Types
  import opened Accounts

  /** The accounts whose keys lie in `keys`. */
  function Only(m: AccountMap, keys: set<Address>): AccountMap {
    map k | k in m && k in keys :: m[k]
  }

  /** The value `State::root` puts under an account's key. */
  method EncodeAccount(a: Account) returns (out: Bytes)
    ensures out == AccountBytes(a)
  {
    var balance := EncodeUint(a.balance);
    var nonce := EncodeUint(a.nonce);
    EncListOfEnc([balance, nonce], AccountItem(a).items);
    out := EncodeList([balance, nonce]);
  }

  /** The body of the loop in `State::root`. */
  method PutAccount(trie: MptTrie, k: Address, a: Account)
    requires trie.Valid()
    modifies trie, trie.repr
    ensures trie.Valid() && fresh(trie.repr - old(trie.repr))
    ensures trie.stored == old(trie.stored)[Nibbles(k) := AccountBytes(a)]
  {
    HexRoundTrip(k);
    var key := ReadHex(AddrKey(k));
    var value := EncodeAccount(a);
    trie.Put(key.value, value);
  }

  /**
   * The loop of `State::root`. Accounts come in whatever order the hash table
   * has them; what is stored is a function of the account map all the same.
   */
  method FillTrie(accounts: AccountMap) returns (trie: MptTrie)
    ensures fresh(trie) && fresh(trie.repr) && trie.Valid()
    ensures trie.stored == Leaves(accounts)
  {
    hide Leaves, Nibbles, AccountBytes, MptTrie.Valid;
    trie := new MptTrie();
    var todo := accounts.Keys;
    assert Only(accounts, accounts.Keys - todo) == map[];
    LeavesOfNothing();
    while todo != {}
      invariant todo <= accounts.Keys
      invariant fresh(trie) && fresh(trie.repr) && trie.Valid()
      invariant trie.stored == Leaves(Only(accounts, accounts.Keys - todo))
      decreases todo
    {
      var k :| k in todo;
      ghost var done := Only(accounts, accounts.Keys - todo);
      LeavesAdd(done, k, accounts[k]);
      PutAccount(trie, k, accounts[k]);
      todo := todo - {k};
      assert Only(accounts, accounts.Keys - todo) == done[k := accounts[k]];
    }
    assert Only(accounts, accounts.Keys - todo) == accounts;
  }

  class State {
    var accounts: AccountMap

    constructor (genesis: GenesisConfig)
      ensures accounts == Genesis(genesis.premine)
    {
      var premine := genesis.premine;
      var made: AccountMap := map[];
      for i := 0 to |premine|
        invariant made == Genesis(premine[..i])
      {
        assert premine[..i + 1][..i] == premine[..i];
        made := made[premine[i].address := Account(premine[i].balance, 0)];
      }
      assert premine[..|premine|] == premine;
      accounts := made;
    }

    /** The copy a block template works on. */
    constructor Holding(accounts: AccountMap)
      ensures this.accounts == accounts
    {
      this.accounts := accounts;
    }

    /** `getOrCreate`; the address itself stands for the returned reference. */
    method GetOrCreate(addr: Address)
      modifies this
      ensures accounts == Touch(old(accounts), addr)
      ensures addr in accounts
    {
      if addr !in accounts {
        accounts := accounts[addr := FRESH];
      }
    }

    method ApplyTransaction(from: Address, tx: Transaction) returns (r: Outcome<()>)
      modifies this
      ensures Applied(accounts, r.Ok?) == Transfer(old(accounts), from, tx.to, tx.value)
      ensures !r.Ok? ==> r == Throw("Insufficient balance")
    {
      GetOrCreate(from);
      GetOrCreate(tx.to);
      ghost var m1 := accounts;
      assert m1 == Touch(Touch(old(accounts), from), tx.to);
      if accounts[from].balance < tx.value {
        return Throw("Insufficient balance");
      }
      accounts := accounts[from := accounts[from].(balance := accounts[from].balance - tx.value)];
      accounts := accounts[from := accounts[from].(nonce := Add64(accounts[from].nonce, 1))];
      assert accounts == m1[from := Account(m1[from].balance - tx.value, Add64(m1[from].nonce, 1))];
      accounts := accounts[tx.to := accounts[tx.to].(balance := Add64(accounts[tx.to].balance, tx.value))];
      r := Ok(());
    }

    method Root(hash: Hash) returns (root: Text)
      ensures root == StateRoot(hash, accounts)
    {
      var trie := FillTrie(accounts);
      root := RootHash(hash, trie);
    }
  }
}
