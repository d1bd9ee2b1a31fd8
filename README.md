# A verified model of the Fluerion node core

This project models the core of a small blockchain node written in Rust. It
covers five parts:

- **The custom 32-byte digest** (`hash.rs`). Every byte of the stream
  `timestamp ++ prev_block_hash ++ data` is mixed into three consecutive
  slots of an accumulator: XOR into the first, wrapping add into the second
  and wrapping subtract from the third. The slot index then advances by
  three.
- **Blocks** (`block.rs`). A block holds a timestamp, the previous block's
  hash, its own hash and a data string. Its hash is computed once, when the
  block is built.
- **The chain** (`blockchain.rs`). It starts with a genesis block and only
  grows at the end. `is_valid` re-checks every block after the genesis block.
- **Transactions** (`transaction.rs`). A transaction has a sender, a
  receiver, an `f64` amount and a timestamp. It also has an optional
  signature, which `sign` fills in and nothing ever checks.
- **The text protocol** (`network.rs`), with the sockets taken out. The node
  picks a command by prefix, answers with a fixed string, and may change its
  peer set or call into the ledger. `discover_peers` adds the peers that a
  bootstrap node lists.

Modules, one file each:

- `Prelude` (`prelude.dfy`) models the standard-library behaviour the core
  relies on:
  - bytes with `wrapping_add`, `wrapping_sub` and `^`;
  - UTF-8 encoding (`str::bytes`);
  - `u64::to_string`;
  - `str::trim` with Unicode `White_Space`;
  - `str::split` and `[String]::join`.

  `Trim`, `Join`, `StartsWith` and `IsWhitespace` are plain definitions
  without contracts. They model `str::trim`, `[String]::join`,
  `str::starts_with` and `char::is_whitespace`. Their properties are stated
  by `TrimStart`, `TrimEnd`, `TrimPadded`, `JoinSplit` and `SplitJoin`.
- `Hashing` (`hash.dfy`) holds the digest, as an array loop proved against
  the recursive function `Digest`.
- `Blocks` (`block.dfy`) holds the `Block` datatype, `Block::new` and
  `Block::genesis`.
- `Chain` (`blockchain.dfy`) holds the `Blockchain` class. Its `blocks`
  field is a `seq` that `AddBlock` reassigns. `IsValid` is a loop proved
  against the predicate `ChainValid`.
- `Transactions` (`transaction.dfy`) holds the `Transaction` class, whose
  `signature` field `sign` updates in place.
- `Network` (`network.dfy`) models the protocol:
  - `Classify` is the prefix match.
  - `Dispatch` is what `handle_connection` does with a message already read.
  - The `Node` class owns the peer set. `HandleConnection`, `AddPeer` and
    `DiscoverPeers` update it.

Some code the node calls is not part of this model. The model takes it as
parameters:

- the clock, as a `timestamp` parameter;
- the decimal rendering of an `f64`, as `render`;
- JSON decoding, as the `Collaborators` predicates;
- what the ledger returns;
- the iteration order of the peer `HashSet`, as `order`.

## Model

| member | source | states |
|---|---|---|
| Hashing.CalculateHash | src/hash.rs:3-16 | the 32-byte loop over the chained byte stream returns exactly `Digest` of `bytes(timestamp) ++ prev_block_hash ++ bytes(data)`, the fold of one three-slot mix per byte starting from `[0; 32]` |
| Hashing.MixEffect | src/hash.rs:9-12 | a byte at stream position k touches three distinct slots `3k % 32`, `(3k+1) % 32` and `(3k+2) % 32`. They get XOR, wrapping add and wrapping subtract of the byte, and every other slot is unchanged |
| Hashing.MixZero | src/hash.rs:9-11 | absorbing a zero byte leaves the accumulator unchanged |
| Hashing.DigestZeroSuffix | src/hash.rs:8-13 | appending any number of zero bytes to the stream does not change the digest |
| Hashing.DigestOfZeros | src/hash.rs:4-13 | a stream made only of zero bytes digests to `[0; 32]` |
| Hashing.EmptyInputsHashToZero | src/hash.rs:3-15 | empty timestamp, zero previous hash and empty data hash to `[0; 32]` |
| Hashing.HashDependsOnlyOnStream | src/hash.rs:8 | two argument triples whose chained byte streams are equal hash alike: the field boundaries are not hashed |
| Hashing.TrailingNulsIgnored | src/hash.rs:8-13 | data extended by any number of NUL characters hashes like the original data, so distinct blocks can collide |
| Hashing.MixSteps | src/hash.rs:9-11 | the three in-place array writes of one iteration equal one `Mix` |
| Blocks.Block.CalculateHash | src/block.rs:28-31 | the block hash is the digest of the decimal timestamp, the previous hash and the data |
| Blocks.NewBlock | src/block.rs:11-26 | the new block stores the given data, previous hash and clock reading, and its hash field equals the hash of those fields |
| Blocks.Genesis | src/block.rs:33-35 | the genesis block holds "Genesis Block" on the zero hash, and its hash is current |
| Chain.ChainValidAppend | src/blockchain.rs:15-35 | a chain extended by one block is valid if and only if the old chain was valid and the new block's hash recomputes and links to the old tip |
| Chain.SingleBlockChainValid | src/blockchain.rs:21-35 | a chain of one block is valid whatever that block holds, because the genesis block is never checked |
| Chain.LinkCheck | src/blockchain.rs:26-32 | the two comparisons `is_valid` makes of block i, against its recomputed hash, hold together exactly when block i is correctly linked |
| Chain.Blockchain.constructor | src/blockchain.rs:9-13 | a new chain holds just a genesis block with zero previous hash, genesis data and a current hash, and is valid |
| Chain.Blockchain.GetLatestBlock | src/blockchain.rs:37-39 | returns the last block. The chain is never empty, so the `unwrap` cannot fail |
| Chain.Blockchain.AddBlock | src/blockchain.rs:15-19 | appends exactly one block and leaves earlier blocks untouched. The new tip holds the data and the clock reading, points at the old tip's hash and has a current hash. Validity is preserved in both directions |
| Chain.Blockchain.IsValid | src/blockchain.rs:21-35 | returns true if and only if every block after the first recomputes its hash and points at its predecessor's hash |
| Transactions.TransactionHashStream | src/transaction.rs:30-36 | the transaction hash is the digest of: the timestamp's decimal bytes, 32 zero bytes, then the sender, receiver, amount text and timestamp bytes again |
| Transactions.SenderReceiverBoundaryNotHashed | src/transaction.rs:31-34 | moving characters between sender and receiver keeps the transaction hash, because the fields are concatenated without separators |
| Transactions.Transaction.constructor | src/transaction.rs:15-28 | stores sender, receiver, amount and clock reading. The new transaction is unsigned |
| Transactions.Transaction.CalculateHash | src/transaction.rs:30-36 | returns the hash of (decimal timestamp, zero hash, sender ++ receiver ++ amount text ++ decimal timestamp). The signature takes no part |
| Transactions.Transaction.IsSigned | src/transaction.rs:42-44 | true if and only if a signature is stored |
| Transactions.Transaction.Sign | src/transaction.rs:38-44 | stores the signature, replacing any earlier one. The transaction is then signed, and no other field changes |
| Transactions.Transaction.ToString | src/transaction.rs:46-55 | the text starts with `From: <sender> To: <receiver>` and ends with ` Signed: true` or ` Signed: false`, according to `is_signed` |
| Network.Classify | src/network.rs:52-89 | each prefix arm's payload is exactly the message text after that prefix. `GET_PEERS` is only recognised after trimming |
| Network.Dispatch | src/network.rs:52-90 | the peer set never shrinks. A handler that dies on a bad payload answers nothing, changes nothing and calls no ledger operation. A message that reaches the ledger leaves the peer set unchanged and is answered |
| Network.GetPeersExactlyWhenTrimmed | src/network.rs:52-79 | a message lands in the `GET_PEERS` arm if and only if its trimmed text is `GET_PEERS` |
| Network.PrefixSelectsCommand | src/network.rs:52-78 | a message made of a command prefix and any text lands in that command's arm, with the text untouched as its payload |
| Network.GetPeersPadded | src/network.rs:52-79 | `GET_PEERS` surrounded by any whitespace is recognised as `GET_PEERS` |
| Network.NoCommandPrefix | src/network.rs:53-74 | a message that starts with whitespace or with `GET_P` matches none of the four prefix arms |
| Network.PeersChangeOnlyByAddPeer | src/network.rs:52-90 | only the `ADD_PEER:` arm changes the peer set, and only by inserting its payload |
| Network.AddPeerAnswer | src/network.rs:74-78 | `ADD_PEER:p` makes the peer set exactly the old set plus p, verbatim, answers `Peer p added` and makes no ledger call. Repeating it leaves the set unchanged. With p a node's address, this is what the notice from `add_peer` does at the receiving node |
| Network.NewTransactionAnswer | src/network.rs:53-60 | the ledger receives exactly the text after the prefix and the answer is `Transaction added`. A payload that does not decode gets no answer and no ledger call |
| Network.GetBlockToMineAnswer | src/network.rs:61-67 | the ledger is asked. The answer is `NO_BLOCK_AVAILABLE` exactly when the ledger has no block, and otherwise it is the block's JSON |
| Network.MinedBlockAlwaysAcknowledged | src/network.rs:68-73 | a decodable mined block is handed to the ledger and always answered `Mined block added to blockchain`, whatever the ledger does with it |
| Network.MinedBlockUndecodable | src/network.rs:68-69 | a `MINED_BLOCK:` payload that does not decode kills the handler before the ledger is called: no answer, no ledger call, no peer change |
| Network.GetPeersAnswer | src/network.rs:79-88 | a message whose trimmed text is `GET_PEERS` is answered `PEER_LIST:` followed by every peer once, comma-separated, and changes nothing. With no peers the answer is the bare `PEER_LIST:` |
| Network.EnumeratesEmpty | src/network.rs:80-86 | an enumeration of the peer set is empty exactly when the set is |
| Network.UnknownAnswer | src/network.rs:52-89 | a message that starts with none of the four prefixes and whose trimmed text is not `GET_PEERS` is answered `Unknown command` and changes neither the peers nor the ledger |
| Network.Node.constructor | src/network.rs:18-24 | a new node has the given address and no peers |
| Network.Node.HandleConnection | src/network.rs:52-90 | answer, ledger call and new peer set are those of `Dispatch` on the peer set before the call |
| Network.Node.AddPeer | src/network.rs:107-113 | the peer set gains exactly the new address. The notice sent is `ADD_PEER:` followed by the node's own address. `Network.AddPeerAnswer` states what the receiving node does with it |
| Network.Node.DiscoverPeers | src/network.rs:115-136 | fails exactly when the exchange with the bootstrap node fails. The peers added, in order, are the `PEER_LIST:` entries other than the node's own address, and the peer set gains exactly those |
| Network.Node.AddPeersFrom | src/network.rs:127-132 | the loop calls `add_peer`, in order, for exactly the entries that differ from the node's address, and the peer set gains exactly those |
| Network.ContactedAreDiscovered | src/network.rs:126-133 | the set of addresses passed to `add_peer` is exactly the set of entries after `PEER_LIST:` that differ from the node's address, and is empty for any other reply |
| Network.OthersMembers | src/network.rs:128-132 | an address is passed on if and only if it is in the list and is not the node's own |
| Network.DiscoverFromPeerList | src/network.rs:79-133 | discovery against a node whose peers are non-empty and comma-free yields exactly those peers, minus the node's own address |
| Network.DiscoverFromEmptyList | src/network.rs:126-132 | discovery against a node with no peers adds the empty string as a peer |
| Prelude.WrappingAdd | src/hash.rs:10 | `u8::wrapping_add`: the sum, less 256 when it overflows |
| Prelude.WrappingSub | src/hash.rs:11 | `u8::wrapping_sub`: the difference, plus 256 when it underflows |
| Prelude.BitXorBound | src/hash.rs:9 | XOR of two k-bit numbers is a k-bit number, so `^=` on `u8` stays a byte |
| Prelude.Xor | src/hash.rs:9 | XOR with zero leaves a byte unchanged |
| Prelude.XorCancel | src/hash.rs:9 | XOR-ing a byte twice with the same byte gives back the original |
| Prelude.WrappingInverse | src/hash.rs:10-11 | `wrapping_sub` undoes `wrapping_add` of the same byte, and the other way round |
| Prelude.Utf8 | src/hash.rs:8 | each character encodes to one to four bytes |
| Prelude.Utf8Append | src/hash.rs:8 | the bytes of a concatenation are the concatenation of the bytes |
| Prelude.Utf8Nul | src/hash.rs:8 | n NUL characters encode to n zero bytes |
| Prelude.Decimal | src/block.rs:30 | `u64::to_string` is a non-empty string of digits with no leading zero |
| Prelude.DecimalRoundTrip | src/block.rs:30 | parsing the decimal text of n gives back n |
| Prelude.DecimalInjective | src/block.rs:30 | distinct timestamps have distinct decimal texts |
| Prelude.TrimStart | src/network.rs:52 | the result is a suffix of the input that does not start with whitespace, and everything removed is whitespace |
| Prelude.TrimEnd | src/network.rs:52 | the result is a prefix of the input that does not end with whitespace, and everything removed is whitespace |
| Prelude.TrimPadded | src/network.rs:52 | trimming a word padded with whitespace gives back the word |
| Prelude.Split | src/network.rs:127 | `split(',')` yields at least one entry, and no entry contains the separator |
| Prelude.JoinSplit | src/network.rs:127 | joining the pieces of a split with the separator gives back the text |
| Prelude.SplitJoin | src/network.rs:86-127 | splitting a join of at least one separator-free entry gives back the entries |

## Left out

- Sockets, `tokio`, the `Arc<Mutex<…>>` wrappers, `println!`, `start` and its listener loop. They are I/O and concurrency. The model handles one message at a time. The reply write in `handle_connection` (`src/network.rs:93`) happens after the peer set and the ledger have changed, so a panic there loses only the reply.
- The 1024-byte read buffer and `String::from_utf8_lossy`. They are I/O decoding. The message or reply arrives as a string, and a failed connect, write or read becomes `None`.
- `broadcast_transaction` (`src/network.rs:96-105`). It writes the transaction to every peer that accepts a connection. A failed connect is skipped. A failed write after a successful connect panics (`unwrap`, `src/network.rs:102`) and stops the broadcast. The model has no sockets, so it captures neither.
- The outbound connection in `add_peer`. `Network.Node.AddPeer` returns the notice it would send. A failed connect is ignored. A failed write after a connect panics (`unwrap`, `src/network.rs:111`), and the model does not capture that panic.
- `Network.Node.DiscoverPeers` and `Network.Node.AddPeersFrom` assume that every notice write they attempt succeeds. In the source, a failed write panics inside the loop of `discover_peers` (`src/network.rs:128-131`). Discovery then stops, and the peer set keeps only the entries inserted before the panic, including the one whose notice failed.
- `Network.Node`'s `blockchain` field (`src/network.rs:12,20`). The model's node holds only its address and its peers. The ledger appears only as the `LedgerCall` values that `Dispatch` reports.
- `serde_json` decoding and encoding, and `Transaction::from_json` / `to_json`. They belong to an external library. Decoding is given as the predicates in `Collaborators`. A payload that fails to decode is a panic in the source, and the model answers nothing.
- `add_transaction`, `get_block_to_mine`, `add_mined_block` and `get_nonce`. The node calls them, but `Blockchain` does not define them, so they are not part of this model. `Dispatch` reports which ledger call it makes, and is told what `get_block_to_mine` returned.
- `SystemTime::now()`. The clock is passed in as a `timestamp` parameter. Its `unwrap` (a clock before 1970) is not modelled.
- The decimal rendering of an `f64` (`Display`). The amount is kept as its `bv64` bit pattern, and its text is supplied as `render`.
- The iteration order of the `HashSet`. It is given as `order`, any duplicate-free enumeration of the peer set.
- `Hashing.CalculateHash`: `index` is a `usize`, and `index += 3` panics on overflow in a debug build and wraps in a release build, after about 6·10^18 bytes. The model uses an unbounded index. Wrapping could not change the digest, because 2^64 is a multiple of 32, so `index % 32` would come out the same.
- `Blocks.Block.GetHash` and `Blocks.Block.GetPrevHash` are plain field reads and carry no contract.
- The miner, the wallet and `main.rs` are outside the node core.
