/** The records of the ledger, field for field. */
module Types {
  import opened Common

  datatype Account = Account(balance: Uint64, nonce: Uint64)

  datatype Signature = Signature(r: Bytes, s: Bytes, v: Byte)

  datatype Transaction = Transaction(
    nonce: Uint64,
    gasPrice: Uint64,
    gasLimit: Uint64,
    to: Address,
    value: Uint64,
    data: Bytes,
    chainId: Uint64,
    from: Address,
    sig: Signature,
    hash: Text)

  datatype GenesisAccount = GenesisAccount(address: Address, balance: Uint64)

  datatype GenesisConfig = GenesisConfig(premine: seq<GenesisAccount>, chainId: Uint64)

  datatype ZkProof = ZkProof(
    proof: Text,
    stateBefore: Text,
    stateAfter: Text,
    txRoot: Text,
    commitment: Text)

  datatype Log = Log(address: Address, topics: seq<Text>, data: Bytes)

  datatype Receipt = Receipt(status: bool, cumulativeGasUsed: Uint64, logs: seq<Log>)

  datatype Block = Block(
    index: nat,
    prevHash: Text,
    stateBefore: Text,
    stateAfter: Text,
    txRoot: Text,
    receiptsRoot: Text,
    proof: ZkProof,
    timestamp: Uint64,
    hash: Text,
    transactions: seq<Transaction>,
    receipts: seq<Receipt>,
    logsBloom: Bytes)
}
