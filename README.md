# A minimal hash-linked ledger, modelled in Dafny

The program keeps a chain of blocks in memory. Each block holds an index, a
Unix timestamp, a list of UTXO-style transactions, the hash of the block
before it and its own SHA-256 hash. The chain starts with a genesis block
that mints 1000 coins. `generateBlock` builds a block on the tip carrying one
transaction. Its single input is (recomputed hash of the tip block, 0). Its
outputs are 123456 and, as change, the value of the tip's first transaction's
first output minus a fee of 10000. `validateBlock` appends a candidate
block only when three checks pass: the index follows the tip's, the
`previousHash` equals the tip's hash, and the stored hash equals the
recomputed hash.

The model has five modules:

- `Bytes` (bytes.dfy): Go's 64-bit integers with their wrap-around,
  `byte(...)` truncation, and `int64ToBytes`, with its inverse.
- `Crypto` (crypto.dfy): SHA-256 and ECDSA signing as unknown functions.
  SHA-256 is only known to return 32 bytes.
- `Transaction` (transaction.dfy): the `Transaction`, `TransactionInput`
  and `TransactionOutput` records as datatypes.
- `Serialize` (serialize.dfy): `serializeTransactionData`, a loop method
  proved equal to a recursive specification. Lemmas cover its length, what
  it ignores and where it loses information.
- `Chain` (chain.dfy): `calculateHash`, `signTransaction`, block
  construction, the three checks of `validateBlock`, the chain invariant,
  and a `Blockchain` class whose `chain: seq<Block>` field is only
  extended at the tail.

Some behaviour of the program worth knowing:

- Amounts are signed and never checked. Building on the genesis block gives
  a change output of 1000 − 10000 = −9000. The 123456 sent is not
  subtracted from the change.
- The output index is serialized as one byte.
- The genesis `previousHash` is Go's nil (the empty sequence here).
- Validation failures end the process. The model returns them as a verdict
  and leaves the chain unchanged.
- Checking and appending happen in one function, `validateBlock`.

Go's `int` is taken to be 64 bits wide. A nil slice and an empty slice are
both the empty sequence: `append` and `bytes.Equal` treat them alike.

## Model

| member | source | states |
|---|---|---|
| Bytes.WrapInt64 | cmd/main.go:175 | Go's signed `+`/`-` gives a result in the int64 range congruent to the exact one modulo 2^64, equal to it when it fits |
| Bytes.LowByte | cmd/main.go:117 | `byte(i)` is a byte congruent to `i` modulo 256 |
| Bytes.ToUint64 | cmd/main.go:105 | `uint64(n)` is below 2^64, congruent to `n` modulo 2^64, and equals `n` for non-negative `n` |
| Bytes.FromUint64 | cmd/main.go:105 | reading a uint64 back as int64 inverts `uint64(...)` |
| Bytes.BigEndianRoundTrip | cmd/main.go:105 | a number below 256^w written as w big-endian bytes reads back as itself |
| Bytes.BigEndianOfDenotation | cmd/main.go:105 | every byte string is the big-endian spelling of the number it denotes |
| Bytes.Int64ToBytes | cmd/main.go:102-108 | `int64ToBytes` always returns 8 bytes, and they denote `uint64(number)` big-endian |
| Bytes.Int64RoundTrip | cmd/main.go:102-108 | decoding the 8 bytes as a signed 64-bit value gives back `number` |
| Bytes.Int64BytesRoundTrip | cmd/main.go:102-108 | every 8-byte string is the encoding of the int64 it decodes to |
| Bytes.Int64ToBytesInjective | cmd/main.go:102-108 | distinct numbers have distinct encodings |
| Transaction.ResigningKeepsReference | transaction/transaction.go:9-14 | replacing an input's `Signature` keeps the (`TransactionID`, `OutputIndex`) pair it refers to |
| Serialize.SerializeTransactionData | cmd/main.go:112-126 | the two loops produce, in order, each input's `TransactionID` and index byte, then each output's `PublicKey` and 8-byte `Value` |
| Serialize.InputsBytesLength | cmd/main.go:115-118 | the input section is as long as the sum over inputs of (length of TransactionID + 1) |
| Serialize.OutputsBytesLength | cmd/main.go:120-123 | the output section is as long as the sum over outputs of (length of PublicKey + 8) |
| Serialize.TxBytesLength | cmd/main.go:112-126 | the serialization's length is the input sum plus the output sum, and a transaction without inputs encodes only its outputs |
| Serialize.LowByteCongruent | cmd/main.go:117 | two indices give the same byte exactly when they are congruent modulo 256 |
| Serialize.AgreeingInputsEncodeAlike | cmd/main.go:115-118 | input lists with equal IDs and indices congruent modulo 256 encode identically, whatever their signatures |
| Serialize.WireEquivalentTransactionsEncodeAlike | cmd/main.go:112-126 | transactions differing only in signatures and in indices congruent modulo 256 serialize identically |
| Serialize.SignatureNotSerialized | transaction/transaction.go:13 | changing any input's `Signature` leaves the serialization unchanged |
| Serialize.OutputIndexTruncated | cmd/main.go:117 | spending output 0 and spending output 256 of the same transaction serialize identically |
| Serialize.VariableLengthFieldsAmbiguous | cmd/main.go:115-123 | a one-output transaction and a different one-input transaction serialize to the same 8 bytes, because nothing delimits variable-length fields |
| Serialize.FixedWidthInputsLength | cmd/main.go:115-118 | with every ID `width` bytes long, the input section is (width + 1) bytes per input |
| Serialize.FixedWidthInputsDecodeUniquely | cmd/main.go:115-118 | with every ID the same width, equal input sections mean the same number of inputs, equal IDs and indices congruent modulo 256 (the converse of AgreeingInputsEncodeAlike) |
| Chain.HashInputLayout | cmd/main.go:89-96 | the hash input is 8 bytes encoding the index, then `previousHash`, then 8 bytes encoding the timestamp, then the transactions in order |
| Chain.HashIgnoresStoredHash | cmd/main.go:89-100 | blocks that agree on index, timestamp, transactions and previous hash recompute the same digest, whatever their stored `hash` |
| Chain.CalculateHash | cmd/main.go:89-100 | the loop hashes exactly the layout above with SHA-256, giving 32 bytes |
| Chain.Seal | cmd/main.go:49 | filling in the hash keeps every other field and yields a block whose stored hash is its recomputed hash |
| Chain.SignTransaction | cmd/main.go:74-86 | the transaction comes back unchanged, because each signature goes into a loop copy; it fails only when there is an input and `ecdsa.Sign` fails, so an input-less transaction never fails |
| Chain.CreateGenesisTransaction | cmd/main.go:55-71 | the genesis transaction has no inputs and one output of 1000 to a nil key |
| Chain.GenesisBlock | cmd/main.go:40-52 | the genesis block has index 0, a nil previous hash, the genesis transaction, the given timestamp and a correct 32-byte hash |
| Chain.SpendTransaction | cmd/main.go:128-150 | the new transaction has one input (recomputed hash of the previous block, 0) and outputs 123456 and previous first output − 10000 (wrapping, no sign check); with no such output Go panics |
| Chain.GenesisSpendChangeIsNegative | cmd/main.go:146 | built on the genesis block the change output is −9000 |
| Chain.Validate | cmd/main.go:187-203 | acceptance holds exactly when the index follows, the link holds and the hash is correct; each rejection names the first failing check in order |
| Chain.NextBlockAccepted | cmd/main.go:170-204 | a block built by `generateBlock` on a tip passes all three checks against that tip |
| Chain.TamperedLinkRejected | cmd/main.go:193-197 | an accepted block with one byte of `previousHash` changed is rejected as a broken link |
| Chain.GenesisChainOk | cmd/main.go:40-52 | the one-block genesis chain satisfies the chain invariant |
| Chain.AcceptKeepsChainOk | cmd/main.go:186-206 | appending a block accepted against the tip preserves the invariant: linked indices and hashes, every hash correct |
| Chain.ChainIndexIsPosition | cmd/main.go:175 | in a valid chain block i has index i, while Go's `int` does not wrap |
| Chain.SpendReferencesTipHash | cmd/main.go:135 | on a valid chain the recomputed `TransactionID` equals the tip's stored hash |
| Chain.GenesisThenOneBlock | cmd/main.go:219-225 | genesis followed by one generated block is accepted, gives a valid two-block chain whose new block has index 1, and has change −9000 |
| Chain.Blockchain.constructor | cmd/main.go:220 | a new blockchain holds no blocks |
| Chain.Blockchain.CreateGenesisBlock | cmd/main.go:40-52 | appends exactly the genesis block at the tail; on an empty chain the invariant then holds |
| Chain.Blockchain.CreateNewTransaction | cmd/main.go:128-157 | returns the spend described by SpendTransaction, or the panic or signing error, without reading the chain |
| Chain.Blockchain.GenerateBlock | cmd/main.go:170-183 | on a non-empty chain returns the block with the next index, the tip's hash as `previousHash`, the given timestamp and a correct hash, accepted by Validate against the tip; it has no modifies clause, so the chain is untouched |
| Chain.Blockchain.ValidateBlock | cmd/main.go:186-206 | returns the verdict of the three checks, appends exactly the candidate at the tail only on acceptance, leaves the chain unchanged otherwise, and preserves the invariant |
| Chain.RunDemo | cmd/main.go:219-226 | from an empty chain, genesis plus one generated block: when signing succeeds the block is offered to the validator, accepted, and the chain is those two blocks; otherwise the signing error is returned apart from any verdict and only genesis is there |

## Left out

- ECDSA key generation (`generatePrivateKey`) and its failure: this is randomness from the operating system. The key is a method parameter.
- `ecdsa.Sign` is an unknown function of the key and the digest. The random nonce it reads from `rand.Reader` is not modelled. So every input of a transaction gets the same signing outcome.
- The signatures `signTransaction` computes are not part of any result, because the program discards them.
- SHA-256 internals. `Sha256` is only known to return 32 bytes. No collision resistance is assumed.
- `time.Now().Unix()` is a parameter (`now`).
- `slog` logging and `os.Exit`: these are process I/O. Failures become an `Error` value and leave the chain unchanged.
- Go's index-out-of-range panics also become `Error` values: `EmptyChain` for an empty chain, `MissingOutput` for a tip with no first output.
- `printBlockchain` and the printing in `main`: console output. `RunDemo` keeps the rest of `main`.
- The commented-out floating-point transaction struct: it is dead code.
- Pointers and aliasing: blocks and transactions are values here. Go's chain holds `*block` pointers, but nothing in the program mutates a block after it is appended.
- Platforms where Go's `int` is 32 bits wide.
