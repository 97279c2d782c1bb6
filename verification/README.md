# Gambit-Core in Dafny

A model of the ledger in Gambit-Core (the C++ code under `src/` and the Keccak
under `external/tiny-keccak/`), with proofs about its codecs, its state
commitment, its chain and its hash. Each loop or mutating method of the source
is a Dafny method proved against a function; the theorems are about those
functions and hold for all inputs, all runs or all states they name.

## Layout

- `Common`, `Arithmetic`, `BigEndian`, `Hex`, `Texts`, `Types`: bytes, machine integers, texts, records.
- `Rlp` (what the encoder and decoder compute), `RlpTheory` (round trips and unique decoding),
  `RlpStrict` (which accepted inputs are the encoder's own), `RlpCodec` (the loops).
- `Trie` (heap nodes against a map), `TrieEncoding` (the hashed bytes as a function of the map),
  `TrieCodec` (the recursive encoder over heap nodes), `TrieReader` (reading a root's bytes back).
- `Accounts`, `WorldState`, `Supply`: transfers, the mutable state, the state root, conservation.
- `Eip155`, `Transactions`, `Blocks`, `WireCodec`, `WireFields`: `v` arithmetic, the wire codecs, and
  what stands where on the wire.
- `Chains` (the chain as a value, one function a step), `Blockchains` (the mutable class),
  `Runs`, `History`, `Mempool`, `Templates`: whole runs of the chain; `Commitments`, `HashedTexts`:
  what its hashes cover.
- `KeccakSpec`, `Keccak`, `KeccakInverse`, `KeccakBits`, `Base64`: the standards and the in-place loops.

## How the source is read

- `std::vector<uint8_t>` and `std::string` are byte sequences. A vector holds at most 2^63 - 1
  bytes, and that is the only size assumption; `uint64_t` and `size_t` wrap where the code lets them.
- An exception is `Throw`, with the text it carries. `Undefined` marks the one place where the code
  leaves the language: a string whose declared length wraps passes the bounds check of
  `rlp::decode` and is then copied from an inverted iterator range.
- Keccak-256 and public-key recovery are parameters in everything but the Keccak modules: any
  function to 32 bytes, and any recovery that may fail in either of its two calls. Statements about
  commitments are statements about the bytes that are hashed, read back by readers that share
  nothing with the writers: a walk over raw RLP, a cut at bars, single bits. The clock is a parameter.
- The account table is keyed by the hex text of an address. `Hex.AddrKeyInjective` shows that text
  and address determine each other, so the model keys it by address; the order of iteration in
  `State::root` is left open.
- `addTransaction`, `mineBlock` and `addBlock` hold the mutex from start to end, so each is one step
  of a run. `validateTransaction`, `computeTxRoot` and the accessors take no lock: each of their
  reads is taken as atomic, and the reads of `buildBlockTemplate` may see different states
  (`Chains.Reads`). `mineBlock` that throws keeps the transfers it has made, and its mempool.
- `int` in the base64 helpers is 32-bit two's complement with wrapping shifts.

## What the code does not do

Where a promise fails, the failing family is pinned down:

- A decoded list may run past its declared length, and other non-minimal input is accepted too;
  re-encoding gives the input back exactly on strict input (`RlpStrict.ReencodesIffStrict`).
- The trie encoding shows no difference between an empty value and none exactly when the node would
  exist anyway (`TrieEncoding.EmptyValueInvisibleIff`), as for one empty value under the empty key
  (`TrieEncoding.EmptyValueExample`).
- The sum of balances is constant in every run exactly when the premine is below 2^64
  (`Runs.SupplyConstantIff`).
- A failed `mineBlock` leaves the state alone exactly when its first transaction fails and both
  accounts exist (`Mempool.FailureLeavesStateIff`). Every retry pays again whatever the state it
  finds can pay (`Mempool.RetriesPayAgain`, `Mempool.SuccessAfterRetries`); one that throws too
  changes nothing exactly when the first transaction cannot be paid in the state left behind
  (`Mempool.RetryChangesNothingIff`).
- `addBlock` does not execute: an accepted template is mined a second time
  (`Templates.AcceptedTemplateIsMinedAgain`). Nor does it look at the state, so a template built
  from a past state is accepted as long as its chain is current
  (`Templates.RacingTemplateAcceptedIff`, `Templates.StaleTemplateAccepted`).
- The eight-bit `v` keeps the signer's recovery id exactly while it fits (`Eip155.RecIdSurvivesIff`),
  which decides when a transaction can be read back (`Transactions.TransactionRoundTrip`), and no
  accepted transaction re-encodes to the bytes it came from (`Transactions.ReencodingAlwaysDiffers`).
- `Block::fromHex(toHex(b))` works exactly for blocks without transactions (`Blocks.BlockRoundTripIff`),
  and what it returns verifies only if the hash collides, since the roots inside the proof are not sent
  (`HashedTexts.TravelledProofNeedsCollision`).
- The hash a parsed transaction carries is never taken of the bytes that were parsed
  (`WireFields.ParsedHash`).
- The stored block hash never covers the receipts root (`History.MinedHashOmitsReceipts`).

## Model

| member | source | states |
|---|---|---|
| RlpTheory.ReadLenOfEncLength | src/rlp.cpp:7-25 | every 64-bit length header, short or long, is read back with the offset right behind it |
| RlpTheory.DecodeInPlace | src/rlp.cpp:98-129 | wherever an item's encoding stands in a buffer, decoding there returns the item and the offset behind it |
| RlpTheory.RoundTripInContext | src/rlp.cpp:27-66 | decoding p ++ enc(x) ++ s at offset \|p\| gives x and leaves the offset at \|p\| + \|enc(x)\| |
| RlpTheory.PrefixFree | src/rlp.cpp:98-129 | two encodings followed by anything agree only if items and remainders agree |
| RlpTheory.PayloadSplitsUniquely | src/rlp.cpp:57-66 | a list payload splits into items in one way only |
| RlpTheory.DecodedSize | src/rlp.cpp:98-129 | on every buffer a successful decode moves forward within the buffer and builds at most as many items as bytes consumed |
| RlpTheory.DecodeExtends | src/rlp.cpp:98-129 | bytes appended behind a decoded item never change the result |
| RlpTheory.TruncationDetected | src/rlp.cpp:98-129 | no proper prefix of an encoding is accepted |
| RlpTheory.ListMayOverrun | src/rlp.cpp:119-126 | an input whose inner item passes the declared end of its list is accepted |
| RlpTheory.EncodingIsFramed | src/rlp.cpp:7-66 | a byte below 0x80 is itself; every other string and every list is its payload behind 0x80 or 0xC0 plus its length, or behind 0xB7 or 0xF7 plus the count of the minimal big-endian digits of its length |
| RlpStrict.ReencodesIffStrict | src/rlp.cpp:98-129 | an accepted range is the encoding of its item if and only if headers are minimal, single bytes stand alone and lists are filled exactly, at every level |
| RlpCodec.EncodeLength | src/rlp.cpp:7-25 | the header loop computes the length header |
| RlpCodec.EncodeBytes | src/rlp.cpp:27-36 | a byte below 0x80 stands alone, everything else gets a header |
| RlpCodec.EncodeUint | src/rlp.cpp:43-55 | the loop encodes the minimal big-endian digits, zero as the empty string |
| RlpCodec.EncodeList | src/rlp.cpp:57-66 | the loop concatenates the parts behind one list header |
| RlpCodec.ReadLength | src/rlp.cpp:82-96 | the shifting loop reads the declared length, or throws when its digits are missing |
| RlpCodec.DecodeAt | src/rlp.cpp:98-129 | the recursive decoder with its item loop terminates on every buffer and computes the decoding function, error paths included |
| BigEndian.ToUint | src/transaction.cpp:118-124 | the shift loop yields the number modulo 2^64 |
| BigEndian.UintRoundTrip | src/rlp.cpp:43-55 | every encoded 64-bit number is read back by the shift loop |
| Hex.WriteHex | src/hash.cpp:10-17 | two lower-case digits a byte, high nibble first |
| Hex.ReadHex | src/hash.cpp:35-51 | strips one prefix, throws on odd length or a bad digit, else joins the nibbles |
| Hex.HexRoundTrip | src/hash.cpp:10-51 | written bytes are read back with or without the prefix |
| Hex.ReadsAsIff | src/hash.cpp:28-51 | a text is read as given bytes if and only if it is their hex in any case, with or without a prefix in any case |
| Hex.RewritesIffLower | src/hash.cpp:10-17 | writing what was read gives the text back if and only if it has lower-case digits only |
| Hex.AddrKeyInjective | src/address.cpp:87-92 | two addresses share an account key if and only if they are equal |
| Trie.NibblesInjective | src/mpt.cpp:8-16 | keys of any lengths stay distinct as nibble paths |
| Trie.ToNibbles | src/mpt.cpp:8-16 | the loop yields high and low nibble of every byte |
| Trie.MptTrie.constructor | src/mpt.cpp:5-6 | the new trie is a valid tree that stores nothing |
| Trie.MptTrie.Put | src/mpt.cpp:18-28 | stores the value under the key and nothing else; the nodes stay an unshared tree whose non-root nodes are exactly the prefixes of stored keys |
| Trie.MptTrie.Walk | src/mpt.cpp:21-26 | afterwards every prefix of the path has its node and no other node is new |
| Trie.MptTrie.Get | src/mpt.cpp:30-41 | returns the stored value or nothing |
| Trie.LookupIsLastPut | src/mpt.cpp:18-41 | after any sequence of puts a lookup gives the last value put under that key, or nothing |
| TrieEncoding.RootBytesEqualIff | src/mpt.cpp:43-69 | two stored maps give the same hashed bytes if and only if they have the same nodes and the same value, empty counting as none, at every path |
| TrieEncoding.RootBytesInjective | src/mpt.cpp:51-69 | without empty values the bytes are equal if and only if the maps are |
| TrieEncoding.EmptyValueInvisibleIff | src/mpt.cpp:43-49 | dropping an empty value keeps the bytes if and only if its node is the root or on the way to another key |
| TrieEncoding.EmptyValueExample | src/mpt.cpp:43-69 | an empty value under the empty key and nothing at all are different stores with the same bytes |
| TrieCodec.EncodeNode | src/mpt.cpp:51-69 | the recursion over heap nodes yields bytes that depend on the stored map alone |
| TrieCodec.RootHash | src/mpt.cpp:71-75 | prefixed hex of the hash of those bytes |
| TrieReader.FindInNode | src/mpt.cpp:51-69 | a walk over the raw bytes along the two halves of every key byte ends at the value stored under the key, or at nothing |
| TrieReader.RootReadsBack | src/mpt.cpp:71-75 | the root text is the prefixed hex of the hash of bytes in which every stored value is found under its key and nothing else |
| Accounts.GenesisAt | src/state.cpp:9-13 | an address holds the balance of its last premine entry and nonce zero |
| Accounts.GenesisKeys | src/state.cpp:9-13 | the genesis accounts are exactly the premined addresses |
| Accounts.StateBytesEqualIff | src/state.cpp:40-58 | two account maps give the same hashed bytes if and only if they have the same addresses, balances and nonces |
| WorldState.State.constructor | src/state.cpp:9-13 | the premine loop builds the genesis map |
| WorldState.State.GetOrCreate | src/state.cpp:15-18 | a missing account springs up empty, others stay |
| WorldState.State.ApplyTransaction | src/state.cpp:27-38 | the new map and the outcome of a transfer, with aliasing references and with the accounts a throw leaves behind |
| WorldState.FillTrie | src/state.cpp:43-55 | whatever the order of iteration, the trie ends up holding the same function of the account map |
| WorldState.State.Root | src/state.cpp:40-58 | fills a trie with every account and returns its root, leaving the state alone |
| TrieReader.StateRootReadsBack | src/state.cpp:40-58 | the state root is the prefixed hex of the hash of bytes in which under every account's address its balance and nonce are found, and nothing under any other address |
| TrieReader.StateRootsEqualIff | src/state.cpp:40-58 | two states have equal roots under every hash if and only if they are equal |
| Mempool.TransferEffect | src/state.cpp:27-38 | effect of a transfer on every account: success if and only if the balance suffices, sender debited, receiver credited, self-transfer neutral, sender's nonce up by one |
| Supply.TransferTotal | src/state.cpp:27-38 | a transfer keeps the sum of balances, or loses exactly 2^64 when the credit wraps |
| Supply.ApplyAllConserves | src/blockchain.cpp:110-113 | below 2^64 every sequence of transactions, throwing or not, keeps the sum |
| Supply.LosingRun | src/state.cpp:27-38 | from a sum of 2^64 or more some transfers that all return lower the sum |
| Supply.ConservedIff | src/state.cpp:27-38 | every sequence keeps the sum if and only if it starts below 2^64 |
| Runs.SupplyConstantIff | src/blockchain.cpp:80-183 | the sum is constant in every state of every run from genesis if and only if the premine sums to less than 2^64 |
| Runs.NoCreditEverWraps | src/blockchain.cpp:110-113 | below the bound no credit wraps in any reachable state, nor after any part of its mempool |
| Runs.NextKeepsLinks | src/blockchain.cpp:80-183 | every step appends at most one block and keeps numbering, hash links and accepted proofs |
| Runs.RunKeepsLinks | src/blockchain.cpp:80-183 | so does every interleaving of submitting, mining (returning or throwing) and receiving arbitrary blocks |
| Runs.ChainIsAppendOnly | src/blockchain.cpp:16-27 | from genesis the chain of any run is a prefix of the chain of any continuation, well linked, with the genesis block first |
| History.UndisturbedRunReplays | src/blockchain.cpp:80-157 | without foreign blocks or throws: live state equals the replay of all block transactions from genesis, each block's roots are those of the replay and meet its predecessor's, and block transactions followed by the mempool are what was submitted |
| History.MinedHashOmitsReceipts | src/block.cpp:20-38 | the stored hash is of the fields without the receipts root, never of those `computeHash` would use afterwards |
| HashedTexts.BlockPreimageCut | src/block.cpp:26-38 | for every block the hashed text cut at its bars is index, prevHash, stateBefore, stateAfter, txRoot, receiptsRoot, commitment and timestamp, in this order |
| HashedTexts.EightParts | src/block.cpp:26-38 | for bar-free fields these are exactly eight texts, and the first and the last read back as index and timestamp |
| HashedTexts.BlockPreimageEqualIff | src/block.cpp:26-38 | for bar-free fields hashed texts are equal if and only if the eight fields are |
| HashedTexts.NewBlockHash | src/block.cpp:7-38 | a new block's hash is that of any text with these parts and an empty receipts root |
| HashedTexts.MinedBlockHash | src/blockchain.cpp:139-147 | a mined block's hash covers the number, the predecessor's hash, both state roots, the transaction root, the commitment and the time |
| HashedTexts.GenesisBlockIs | src/blockchain.cpp:16-27 | every field of the genesis block, and the text its hash is of |
| Texts.DecimalIff | src/block.cpp:27-36 | a number's text is the one text of digits without leading zero that reads as the number |
| Mempool.NonceCounts | src/state.cpp:27-38 | an account's nonce grows by the number of its transactions, modulo 2^64 |
| Mempool.StopsAt | src/blockchain.cpp:110-113 | a throwing mempool stops at the first transaction that cannot be paid, the ones before it having taken effect |
| Mempool.FailureLeavesStateIff | src/blockchain.cpp:110-113 | a failed mining leaves the state as it was if and only if the first transaction is unpayable and both its accounts exist |
| Mempool.BalanceFlows | src/state.cpp:27-38 | an account's balance moves by what the transactions bring it less what they take, modulo 2^64, wrapped credits included |
| Mempool.FailedMining | src/blockchain.cpp:103-113 | for every mempool, a throw keeps blocks and mempool and leaves every account as after the longest beginning of the mempool that can be paid |
| Mempool.RetriesPayAgain | src/blockchain.cpp:103-113 | for every mempool and any number of minings that all throw: blocks and mempool stay, each one pays the longest beginning that the state it finds can pay, and the moves of nonces and balances add up over all of them, modulo 2^64 |
| Mempool.SuccessAfterRetries | src/blockchain.cpp:103-157 | the block mined after any number of throws carries the mempool once, while the accounts hold its payments on top of those of every failed mining |
| Mempool.RetryChangesNothingIff | src/blockchain.cpp:103-113 | a retry that throws again changes nothing if and only if the first transaction cannot be paid in the state the first failure left |
| Mempool.RetryExample | src/blockchain.cpp:103-113 | two payments of which only the first can be made: two throws take its amount twice |
| Mempool.FundsCheckedExactly | src/blockchain.cpp:54-75 | the wrapping checks pass if and only if gasPrice * gasLimit + value is at most the balance over the integers |
| Mempool.ValidationExact | src/blockchain.cpp:29-78 | acceptance if and only if chain id and nonce match, recovery yields the named sender (or any, if none is named) and the integer cost is covered |
| Mempool.ValidationAnswers | src/blockchain.cpp:29-78 | which of the six errors is answered, or acceptance, over the integers: the first check that fails |
| Mempool.OtherSenderRefused | src/blockchain.cpp:39-43 | once accepted with a non-zero sender, the same transaction with any other non-zero sender is answered "Invalid signature", in whatever state |
| Mempool.ValidatedMempoolMines | src/blockchain.cpp:103-157 | below the supply bound, validated transactions of distinct senders mine without throwing and each sender's nonce rises by one |
| Templates.TemplateAgreesWithMining | src/zk_mining_engine.cpp:5-32 | a template succeeds if and only if mining would, and equals the mined block in everything but receipts |
| Templates.SplitTemplateAcceptedIff | src/zk_mining_engine.cpp:5-32 | whatever its separate reads saw, a template offered to an extension of the chains it read is accepted if and only if nothing was appended since its size was read and the last hashes agree |
| Templates.SplitTemplateFields | src/zk_mining_engine.cpp:6-30 | every field of a template comes from its own read, and its transaction root is that of its transactions under every hash if and only if two reads of the mempool saw the same signed encodings |
| Templates.RacingTemplateAcceptedIff | src/zk_mining_engine.cpp:21-28 | with any steps between the reads of size and last hash and before the offer, acceptance if and only if none of them appended a block, whatever state and mempool were read |
| Templates.StaleTemplateAccepted | src/zk_mining_engine.cpp:6-30 | a mining between the reads of the mempool and of the chain yields an accepted template with the transactions just mined and their old root |
| Templates.TemplateAcceptedIff | src/blockchain.cpp:159-183 | offered after any steps, a template is accepted if and only if none of them appended a block |
| Templates.OneTemplateWins | src/blockchain.cpp:159-183 | of two templates from one snapshot at most one is ever accepted |
| Templates.AcceptedTemplateIsMinedAgain | src/blockchain.cpp:177-182 | with any submissions before and after its acceptance, a template executes nothing, the next mining returns if and only if all can be paid, and its block starts with the template's transactions and root; without submissions it ends in the template's root too |
| Commitments.ReceiptUnderByte | src/blockchain.cpp:130-137 | under byte k the receipts trie holds the last receipt whose index is k modulo 256 |
| Commitments.OwnReceiptUpTo256 | src/blockchain.cpp:130-137 | up to 256 transactions every receipt sits under its own index |
| Commitments.CumulativeGas | src/blockchain.cpp:118-128 | cumulative gas is the prefix sum of gas limits modulo 2^64 |
| Commitments.TxRootPreimageEqualIff | src/blockchain.cpp:86-101 | two transaction lists give the same hashed text if and only if their signed encodings agree one by one |
| Commitments.TxRootReadsBack | src/blockchain.cpp:86-101 | "0x00" for no transactions, else the hex of the hash of the text whose parts are the prefixed hex of every signed encoding and an empty end |
| Commitments.TxRootsEqualIff | src/blockchain.cpp:86-101 | two lists have equal transaction roots under every hash if and only if their signed encodings agree |
| WireFields.ReceiptsRootReadsBack | src/blockchain.cpp:118-137 | in the bytes behind the receipts root, under byte k is found the last receipt with that index byte: status one, the gas sum modulo 2^64, no logs; nothing if there are too few |
| Blockchains.CollectReceipts | src/blockchain.cpp:118-128 | the gas loop produces one receipt a transaction |
| Blockchains.HashReceipts | src/blockchain.cpp:130-137 | the put loop commits to the receipts under one byte of their index |
| Blockchains.ComputeTxRoot | src/blockchain.cpp:86-101 | the concatenation loop computes the transaction root |
| Blockchains.ApplyMempool | src/blockchain.cpp:110-113 | the loop applies transactions in order and stops at the first throw |
| Blockchains.Blockchain.constructor | src/blockchain.cpp:10-27 | the chain starts with the genesis block over the genesis state |
| Blockchains.Blockchain.AddTransaction | src/blockchain.cpp:80-84 | appends to the mempool and changes nothing else |
| Blockchains.Blockchain.ValidateTransaction | src/blockchain.cpp:29-78 | the error text of the first failing check, or acceptance |
| Blockchains.Blockchain.MineBlock | src/blockchain.cpp:103-157 | whole new state and result of mining, on return and on throw |
| Blockchains.Blockchain.AddBlock | src/blockchain.cpp:159-183 | appends if and only if index, previous hash and proof check out |
| HashedTexts.ProofAcceptedIff | src/zk.cpp:26-32 | the verifier accepts one commitment only: the hex of the hash of proof, stateBefore, stateAfter and txRoot between bars |
| HashedTexts.GeneratedProof | src/zk.cpp:6-24 | the proof is the hex of the hash of the three texts between bars, and what is generated is accepted |
| HashedTexts.CommitmentTextEqualIff | src/zk.cpp:20-21 | for bar-free fields the committed texts are equal if and only if the four fields are |
| HashedTexts.OneCommitmentAccepted | src/blockchain.cpp:172-175 | an acceptable block with another commitment is refused |
| HashedTexts.MinedBlockFitsIff | src/blockchain.cpp:159-183 | a mined block fits the chain it was mined on if and only if its commitment is the one it was given |
| HashedTexts.TemplateFitsIff | src/blockchain.cpp:159-183 | the same for a template, whatever it read of state and mempool |
| HashedTexts.TravelledProofNeedsCollision | src/block.cpp:69-77 | a block read from the wire verifies only if two different texts have the same hash |
| Blockchains.BuildFromReads | src/zk_mining_engine.cpp:5-32 | the template computed from seven reads that may each see another state of the chain |
| Blockchains.BuildBlockTemplate | src/zk_mining_engine.cpp:5-32 | the template when no step comes between the reads; the chain object is not modified |
| Eip155.RecIdSurvivesIff | src/keys.cpp:169-183 | for every chain id the receiver uses the signer's recovery id if and only if 35 + 2 * (chainId mod 2^63) + recid is at most 255, the other id if and only if the cut v is 0 or 1, and throws otherwise |
| Eip155.ChainIdSurvivesIff | src/transaction.cpp:151-160 | the chain id is read back if and only if v does not wrap 64 bits |
| Eip155.FlippedExample | src/keys.cpp:171-172 | chain id 110 with recovery id 1 is read back as recovery id 0 |
| Transactions.SenderOfReceived | src/keys.cpp:164-214 | the receiver recovers from the bytes it hashes itself with the recovery id that survives the wire, and throws as that computation does if none survives |
| Transactions.TransactionRoundTrip | src/transaction.cpp:102-170 | for every chain id fromHex(toHex(tx)) succeeds if and only if r and s have 32 bytes and either v fits eight bits and recovery with the signer's id succeeds, or the cut v is 0 or 1 and recovery with the other id does; it throws on every other input; on success every field but from, hash, the cut v and a wrapped chain id is kept and from is the recovered address |
| Transactions.SignedBytesSurviveIff | src/transaction.cpp:7-35 | the receiver hashes the bytes that were signed if and only if v does not wrap 64 bits |
| Transactions.SignerSurvives | src/transaction.cpp:37-67 | while v fits eight bits a signed transaction arrives with its sender and verifies |
| Transactions.SenderIff | src/keys.cpp:164-214 | a sender is recovered if and only if v stands for a recovery id in one of two ways, r and s have 32 bytes and the recovery call returns a key whose hash ends in the address |
| Transactions.SignatureVerifiesIff | src/transaction.cpp:75-94 | a signature verifies if and only if the named sender is the one recovered or, with no sender named, some sender is |
| Transactions.OneSenderVerifies | src/transaction.cpp:82-87 | of all non-zero senders exactly one verifies |
| Transactions.SigningBytesEqualIff | src/transaction.cpp:7-35 | signing bytes are equal if and only if the seven signed fields are |
| WireFields.SigningBytesReadBack | src/transaction.cpp:7-35 | decoding the signing bytes shows the six fields, the chain id and two zeros in order, the zero address as the empty string |
| Transactions.ReencodingAlwaysDiffers | src/transaction.cpp:59-62 | whatever text the parser accepts, encoding its result never gives the bytes that were read |
| WireFields.SignedBytesReadBack | src/transaction.cpp:37-67 | decoding the signed bytes shows the six fields, the 64-bit v, r and s in order; the transaction hash is the prefixed hex of their hash |
| WireFields.ParsedHash | src/transaction.cpp:162-167 | a parsed transaction's hash is that of its own encoding, which is never the bytes parsed |
| Transactions.ExtraItemsIgnored | src/transaction.cpp:113-116 | fewer than nine items are refused and items after the ninth ignored |
| WireCodec.EncodeForSigning | src/transaction.cpp:7-35 | the pushed fields are the nine items signed, the zero address as the empty string |
| WireCodec.EncodeSigned | src/transaction.cpp:37-67 | the pushed fields are the nine items sent, with the 64-bit v |
| WireCodec.ParseTransaction | src/transaction.cpp:102-170 | the parser computes the decoding function with its throws in order, those of the two recovery calls told apart |
| WireCodec.EncodeReceipt | src/receipt.cpp:5-28 | the nested loops encode status, gas and logs, or throw on a malformed topic |
| WireFields.ReceiptShown | src/receipt.cpp:5-28 | a receipt is encodable if and only if all topics are hex, and shows status, gas and every log's address, topics and data in order |
| WireCodec.EncodeBlock | src/block.cpp:97-126 | the loops encode the twelve fields, or throw on a malformed topic |
| WireCodec.ParseBlock | src/block.cpp:45-94 | the parser with its transaction loop computes the decoding function |
| Blocks.BlockRoundTripIff | src/block.cpp:45-126 | fromHex(toHex(b)) succeeds if and only if b has no transactions, restores every field that is read, and otherwise throws a decode overflow |
| WireFields.BlockReadsBack | src/block.cpp:97-126 | a block is encodable if and only if its topics are hex, and its hex read as an item shows all twelve fields in order, transactions, bloom and receipts included |
| Blocks.BlockParsedIff | src/block.cpp:45-94 | a list of ten items or more is a block if and only if place nine is a list whose strings all parse as transactions; every field read from its place |
| Blocks.ExtraBlockItemsIgnored | src/block.cpp:54-56 | fewer than ten items are refused and items after the tenth ignored |
| KeccakSpec.PadInjective | external/tiny-keccak/keccak.cpp:98-102 | padded messages are equal only if the messages are |
| Keccak.LastBlock | external/tiny-keccak/keccak.cpp:98-102 | the buffer holds the rest of the input followed by 0x01, zeros and 0x80, or by 0x81 |
| Keccak.ConstantsFollowTheStandard | external/tiny-keccak/keccak.cpp:10-23 | the round constants are those the feedback register of FIPS 202, algorithms 5 and 6, produces |
| Keccak.RhoPi | external/tiny-keccak/keccak.cpp:54-61 | the in-place walk equals the simultaneous pi after rho, for every state |
| Keccak.ThetaInPlace | external/tiny-keccak/keccak.cpp:44-52 | the column loops compute theta |
| Keccak.ChiInPlace | external/tiny-keccak/keccak.cpp:63-69 | the row loops compute chi |
| Keccak.Permute | external/tiny-keccak/keccak.cpp:40-74 | 24 rounds of theta, rho, pi, chi and iota |
| Keccak.XorIn | external/tiny-keccak/keccak.cpp:86-92 | XORs the 17 little-endian lanes of a block and leaves the capacity alone |
| Keccak.Hash256 | external/tiny-keccak/keccak.cpp:76-119 | for every input length the output is the squeezed sponge over the padded input |
| KeccakBits.RoundsShow | external/tiny-keccak/keccak.cpp:40-74 | from every state and for every number of rounds, the lanes show bit by bit what algorithms 1 to 7 of FIPS 202 do to the bits A[x, y, z] |
| KeccakBits.LoadedBit | external/tiny-keccak/keccak.cpp:86-90 | byte j of a loaded lane is the j-th input byte, lowest bit first |
| KeccakBits.PadBits | external/tiny-keccak/keccak.cpp:98-102 | the padding is a one, zeros and a one that fills a block of 136 bytes |
| KeccakBits.HashBits | external/tiny-keccak/keccak.cpp:76-119 | every bit of the output is the bit of A[n / 8, 0] that the sponge of FIPS 202, written on bits alone, has after absorbing the padded input |
| KeccakInverse.TablesFollowTheStandard | external/tiny-keccak/keccak.cpp:26-34 | the two tables are the lane walk and the triangular offsets of FIPS 202, algorithm 2 |
| KeccakInverse.RhoPiInvertible | external/tiny-keccak/keccak.cpp:54-61 | the step is a bijection of the states, with its inverse on both sides |
| Base64.EncodeText | src/wallet.cpp:158-174 | the 32-bit loop yields the six-bit groups of RFC 4648, section 4, and the padding |
| Base64.DecodeText | src/wallet.cpp:176-193 | the loop yields the whole bytes spelled by the leading run of alphabet characters |
| Base64.RoundTrip | src/wallet.cpp:158-193 | every byte vector is decoded from its encoding, whose length is 4 * ceil(n / 3) |

## Left out

- Sockets, threads, DNS, JSON-RPC, the command line and the P2P header codec: input and output around the steps modelled here.
- secp256k1 signing and recovery, and the OpenSSL calls of the wallet: parameters or absent.
- BIP39 and BIP32 in the wallet: the word list is not the standard one, so the intended round trip is not there to prove.
- VM registry and plugins, seeders, bloom filter: only easy members.
- `Block::rlpDecode`, which repeats `Block::fromHex` on raw bytes; `Block::nonce`, which nothing reads.
- Data races on the unlocked accessors: each single read is taken as atomic, and a loop over the live mempool sees one value of it.
- Cryptographic claims: no statement relies on a hash being collision-free.
