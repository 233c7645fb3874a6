/** Blocks, their hash, and the chain that only grows by validated blocks
    (`block`, `blockchain` and their functions in cmd/main.go). */
module Chain {
  import opened Bytes
  import opened Crypto
  import opened Transaction
  import opened Serialize

  /** The supply minted by the genesis transaction. */
  const INITIAL_SUPPLY: Int64 := 1000
  /** The amount `createNewTransaction` always sends. */
  const TRANSACTION_VALUE: Int64 := 123456
  /** The fee `createNewTransaction` subtracts from the change. */
  const TRANSACTION_FEE: Int64 := 10000

  /** A nil `previousHash` or `hash` is the empty sequence. */
  datatype Block = Block(
    index: Int64,
    timestamp: Int64,
    transactions: seq<Transaction>,
    previousHash: seq<Byte>,
    hash: seq<Byte>)

  /** Where the program would log and call `os.Exit(1)`, or panic on an
      index out of range, the model returns one of these instead. */
  datatype Error =
    | EmptyChain          // `bc.chain[len(bc.chain)-1]` on an empty chain
    | MissingOutput       // `transactions[0].Outputs[0]` does not exist
    | SigningFailure      // `ecdsa.Sign` returned an error
    | DiscontinuousIndex  // the first check of `validateBlock`
    | BrokenLink          // the second check
    | HashMismatch        // the third check

  datatype Result<T> = Ok(value: T) | Err(error: Error)

  datatype Verdict = Accept | Reject(reason: Error)

  // ---------------------------------------------------------------------
  // calculateHash

  /** The transactions' serializations, in block order. */
  function TransactionsBytes(txs: seq<Transaction>): seq<Byte>
  {
    if txs == [] then [] else TransactionsBytes(txs[..|txs| - 1]) + TxBytes(txs[|txs| - 1])
  }

  /** The bytes `calculateHash` feeds to SHA-256. The stored `hash` is not
      among them. */
  function HashInput(b: Block): seq<Byte>
  {
    Int64ToBytes(b.index) + b.previousHash + Int64ToBytes(b.timestamp) + TransactionsBytes(b.transactions)
  }

  function BlockHash(b: Block): Digest
  {
    Sha256(HashInput(b))
  }

  /** The hash input can be taken apart again: eight bytes of index, the
      previous hash, eight bytes of timestamp, then the transactions. */
  lemma HashInputLayout(b: Block)
    ensures
      var s, p := HashInput(b), |b.previousHash|;
      |s| == 16 + p + |TransactionsBytes(b.transactions)| &&
      Int64FromBytes(s[..8]) == b.index &&
      s[8..8 + p] == b.previousHash &&
      Int64FromBytes(s[8 + p..16 + p]) == b.timestamp &&
      s[16 + p..] == TransactionsBytes(b.transactions)
  {
    var s, p := HashInput(b), |b.previousHash|;
    assert s[..8] == Int64ToBytes(b.index);
    assert s[8 + p..16 + p] == Int64ToBytes(b.timestamp);
    Int64RoundTrip(b.index);
    Int64RoundTrip(b.timestamp);
  }

  /** Recomputing the hash of a block whose other fields are unchanged gives
      the same digest, whatever its stored `hash` says. */
  lemma HashIgnoresStoredHash(b: Block, b': Block)
    requires b.index == b'.index && b.timestamp == b'.timestamp
    requires b.transactions == b'.transactions && b.previousHash == b'.previousHash
    ensures BlockHash(b) == BlockHash(b')
  {
  }

  /** `calculateHash`: builds the input in a local slice, one transaction at
      a time, and hashes it. */
  method CalculateHash(b: Block) returns (h: Digest)
    ensures h == BlockHash(b)
  {
    var data: seq<Byte> := [];
    data := data + Int64ToBytes(b.index);
    data := data + b.previousHash;
    data := data + Int64ToBytes(b.timestamp);
    ghost var header := data;
    assert header == Int64ToBytes(b.index) + b.previousHash + Int64ToBytes(b.timestamp);
    for i := 0 to |b.transactions|
      invariant data == header + TransactionsBytes(b.transactions[..i])
    {
      assert b.transactions[..i + 1][..i] == b.transactions[..i];
      var txData := SerializeTransactionData(b.transactions[i]);
      data := data + txData;
    }
    assert b.transactions[..|b.transactions|] == b.transactions;
    assert data == HashInput(b);
    h := Sha256(data);
  }

  /** A block whose stored hash is the hash of its other fields. */
  predicate Sealed(b: Block)
  {
    b.hash == BlockHash(b)
  }

  /** Fill in the hash, as `block.hash = calculateHash(&block)` does. */
  function Seal(b: Block): (r: Block)
    ensures Sealed(r)
    ensures r.index == b.index && r.timestamp == b.timestamp
    ensures r.transactions == b.transactions && r.previousHash == b.previousHash
  {
    b.(hash := BlockHash(b))
  }

  // ---------------------------------------------------------------------
  // signTransaction

  /** Whether signing `tx` with `key` stops the program: there is an input
      to sign and `ecdsa.Sign` fails on the digest of the serialization. */
  predicate SigningFails(tx: Transaction, key: PrivateKey)
  {
    |tx.Inputs| > 0 && EcdsaSign(key, Sha256(TxBytes(tx))).SignFailed?
  }

  /** `signTransaction`. Each iteration writes the new signature into the
      loop's copy of the input, so the caller's transaction is returned as it
      was; only a signing error is observable. With no inputs the loop body
      never runs and nothing can fail. */
  method SignTransaction(tx: Transaction, key: PrivateKey) returns (r: Result<Transaction>)
    ensures r.Ok? <==> !SigningFails(tx, key)
    ensures r.Ok? ==> r.value == tx
    ensures r.Err? ==> r.error == SigningFailure
  {
    for i := 0 to |tx.Inputs|
      invariant 0 < i ==> EcdsaSign(key, Sha256(TxBytes(tx))).Signed?
    {
      var input := tx.Inputs[i];
      var serialized := SerializeTransactionData(tx);
      var data := Sha256(serialized);
      var signature := EcdsaSign(key, data);
      if signature.SignFailed? {
        return Err(SigningFailure);
      }
      input := input.(Signature := signature.r + signature.s + [0]);
    }
    return Ok(tx);
  }

  // ---------------------------------------------------------------------
  // Construction

  /** The transaction `createGenesisTransaction` builds: no inputs, one
      output of the initial supply to a nil key. */
  function GenesisTransaction(): Transaction
  {
    Transaction([], [TransactionOutput(INITIAL_SUPPLY, [])])
  }

  /** `createGenesisTransaction`, given the key it would generate. Signing an
      input-less transaction cannot fail and changes nothing. */
  method CreateGenesisTransaction(key: PrivateKey) returns (tx: Transaction)
    ensures tx.Inputs == []
    ensures tx.Outputs == [TransactionOutput(1000, [])]
  {
    tx := GenesisTransaction();
    var signed := SignTransaction(tx, key);
    assert signed.Ok?;
  }

  /** The block `createGenesisBlock` appends. */
  function GenesisBlock(now: Int64): (g: Block)
    ensures g.index == 0 && g.timestamp == now && g.previousHash == []
    ensures g.transactions == [GenesisTransaction()]
    ensures Sealed(g) && |g.hash| == 32
  {
    Seal(Block(0, now, [GenesisTransaction()], [], []))
  }

  /** The transaction `createNewTransaction` builds on `previousBlock`,
      before signing: it spends output 0 of the transaction identified by the
      recomputed hash of `previousBlock`, sends TRANSACTION_VALUE, and returns
      as change the first output of the block's first transaction minus the
      fee, in Go's wrapping arithmetic and without any check that the change
      is non-negative. Without that output Go panics. */
  function SpendTransaction(previousBlock: Block): (r: Result<Transaction>)
    ensures r.Err? <==> previousBlock.transactions == [] || previousBlock.transactions[0].Outputs == []
    ensures r.Err? ==> r.error == MissingOutput
    ensures r.Ok? ==>
      && r.value.Inputs == [TransactionInput(BlockHash(previousBlock), 0, [])]
      && |r.value.Outputs| == 2
      && r.value.Outputs[0] == TransactionOutput(123456, [])
      && r.value.Outputs[1].PublicKey == []
      && (var funds := previousBlock.transactions[0].Outputs[0].Value;
          && (r.value.Outputs[1].Value - (funds - 10000)) % TWO_64 == 0
          && (INT64_MIN + 10000 <= funds ==> r.value.Outputs[1].Value == funds - 10000))
  {
    if previousBlock.transactions == [] || previousBlock.transactions[0].Outputs == [] then
      Err(MissingOutput)
    else
      var funds := previousBlock.transactions[0].Outputs[0].Value;
      Ok(Transaction(
        [TransactionInput(BlockHash(previousBlock), 0, [])],
        [TransactionOutput(TRANSACTION_VALUE, []),
         TransactionOutput(WrapInt64(funds - TRANSACTION_FEE), [])]))
  }

  /** Spending from the genesis block gives change 1000 - 10000 = -9000. */
  lemma GenesisSpendChangeIsNegative(now: Int64)
    ensures SpendTransaction(GenesisBlock(now)).Ok?
    ensures SpendTransaction(GenesisBlock(now)).value.Outputs[1].Value == -9000
  {
  }

  /** The block `generateBlock` builds on `tip`, carrying `tx`, at time `now`. */
  function NextBlock(tip: Block, tx: Transaction, now: Int64): Block
  {
    Seal(Block(WrapInt64(tip.index + 1), now, [tx], tip.hash, []))
  }

  // ---------------------------------------------------------------------
  // validateBlock

  /** `cur` follows `prev`: the next index (Go's `+ 1`, which wraps) and
      `previousHash` equal to `prev.hash` (`bytes.Equal`). */
  predicate Linked(prev: Block, cur: Block)
  {
    cur.index == WrapInt64(prev.index + 1) && cur.previousHash == prev.hash
  }

  /** The three checks of `validateBlock`, in the program's order; the first
      that fails is the one reported. */
  function Validate(tip: Block, b: Block): (v: Verdict)
    ensures v == Accept <==> Linked(tip, b) && Sealed(b)
    ensures v == Reject(DiscontinuousIndex) <==> b.index != WrapInt64(tip.index + 1)
    ensures v == Reject(BrokenLink) <==> b.index == WrapInt64(tip.index + 1) && b.previousHash != tip.hash
    ensures v == Reject(HashMismatch) <==> Linked(tip, b) && !Sealed(b)
  {
    if WrapInt64(tip.index + 1) != b.index then Reject(DiscontinuousIndex)
    else if tip.hash != b.previousHash then Reject(BrokenLink)
    else if BlockHash(b) != b.hash then Reject(HashMismatch)
    else Accept
  }

  /** A block built by `generateBlock` on a tip passes all three checks
      against that tip. */
  lemma NextBlockAccepted(tip: Block, tx: Transaction, now: Int64)
    ensures Validate(tip, NextBlock(tip, tx, now)) == Accept
  {
  }

  /** An accepted block whose `previousHash` has one byte changed is then
      rejected for its link. */
  lemma TamperedLinkRejected(tip: Block, b: Block, k: nat, x: Byte)
    requires Validate(tip, b) == Accept
    requires k < |b.previousHash| && x != b.previousHash[k]
    ensures Validate(tip, b.(previousHash := b.previousHash[k := x])) == Reject(BrokenLink)
  {
    assert b.(previousHash := b.previousHash[k := x]).previousHash[k] != tip.hash[k];
  }

  // ---------------------------------------------------------------------
  // The chain invariant

  /** Every chain built by `createGenesisBlock` on an empty chain followed by
      accepted blocks: block 0 is a genesis block, every block's hash is the
      hash of its own fields, and every block is linked to the one before. */
  predicate ChainOk(c: seq<Block>)
  {
    && |c| > 0
    && c[0].index == 0 && c[0].previousHash == [] && c[0].transactions == [GenesisTransaction()]
    && (forall i :: 0 <= i < |c| ==> Sealed(c[i]))
    && (forall i :: 0 < i < |c| ==> Linked(c[i - 1], c[i]))
  }

  lemma GenesisChainOk(now: Int64)
    ensures ChainOk([GenesisBlock(now)])
  {
  }

  /** Appending a block that `Validate` accepts against the tip keeps the
      chain invariant. */
  lemma AcceptKeepsChainOk(c: seq<Block>, b: Block)
    requires ChainOk(c)
    requires Validate(c[|c| - 1], b) == Accept
    ensures ChainOk(c + [b])
  {
    var c' := c + [b];
    forall i | 0 <= i < |c'| ensures Sealed(c'[i]) {
      if i < |c| { assert c'[i] == c[i]; }
    }
    forall i | 0 < i < |c'| ensures Linked(c'[i - 1], c'[i]) {
      if i < |c| { assert c'[i - 1] == c[i - 1] && c'[i] == c[i]; }
    }
  }

  /** In a valid chain, block i has index i (for as long as Go's `int`
      does not wrap around). */
  lemma {:induction false} ChainIndexIsPosition(c: seq<Block>, i: nat)
    requires ChainOk(c)
    requires i < |c| && i <= INT64_MAX
    ensures c[i].index == i
  {
    if i > 0 {
      ChainIndexIsPosition(c, i - 1);
      assert Linked(c[i - 1], c[i]);
    }
  }

  /** The reference a spend built on the tip of a valid chain carries is that
      tip's stored hash. */
  lemma SpendReferencesTipHash(c: seq<Block>)
    requires ChainOk(c)
    requires SpendTransaction(c[|c| - 1]).Ok?
    ensures SpendTransaction(c[|c| - 1]).value.Inputs[0].TransactionID == c[|c| - 1].hash
  {
    assert Sealed(c[|c| - 1]);
  }

  /** The program's run: a genesis block, then one generated block spending
      the genesis output. It is accepted, the chain has length 2, and the
      change output is -9000. */
  lemma GenesisThenOneBlock(now0: Int64, now1: Int64)
    ensures
      var g := GenesisBlock(now0);
      var tx := SpendTransaction(g);
      tx.Ok? &&
      var b := NextBlock(g, tx.value, now1);
      Validate(g, b) == Accept && ChainOk([g, b]) && b.index == 1 &&
      b.transactions[0].Outputs[1].Value == -9000
  {
    var g := GenesisBlock(now0);
    var b := NextBlock(g, SpendTransaction(g).value, now1);
    GenesisChainOk(now0);
    NextBlockAccepted(g, SpendTransaction(g).value, now1);
    AcceptKeepsChainOk([g], b);
  }

  // ---------------------------------------------------------------------
  // The blockchain object

  class Blockchain {
    var chain: seq<Block>

    /** `blockchain{chain: []*block{}}`. */
    constructor ()
      ensures chain == []
    {
      chain := [];
    }

    predicate Valid()
      reads this
    {
      ChainOk(chain)
    }

    /** `createGenesisBlock`: appends a genesis block stamped `now`, whatever
        the chain already holds. On an empty chain this establishes Valid(). */
    method CreateGenesisBlock(now: Int64, key: PrivateKey)
      modifies this
      ensures chain == old(chain) + [GenesisBlock(now)]
      ensures old(chain) == [] ==> Valid()
    {
      var tx := CreateGenesisTransaction(key);
      var genesisBlock := Block(0, now, [tx], [], []);
      var h := CalculateHash(genesisBlock);
      genesisBlock := genesisBlock.(hash := h);
      chain := chain + [genesisBlock];
      GenesisChainOk(now);
    }

    /** `createNewTransaction`: the spend of SpendTransaction, signed with
        `key`. It does not look at the chain. */
    method CreateNewTransaction(previousBlock: Block, key: PrivateKey) returns (r: Result<Transaction>)
      ensures SpendTransaction(previousBlock).Err? ==> r == SpendTransaction(previousBlock)
      ensures SpendTransaction(previousBlock).Ok? ==>
        if SigningFails(SpendTransaction(previousBlock).value, key) then r == Err(SigningFailure)
        else r == SpendTransaction(previousBlock)
    {
      if previousBlock.transactions == [] || previousBlock.transactions[0].Outputs == [] {
        return Err(MissingOutput);
      }
      var id := CalculateHash(previousBlock);
      var newTx := Transaction(
        [TransactionInput(id, 0, [])],
        [TransactionOutput(TRANSACTION_VALUE, []),
         TransactionOutput(WrapInt64(previousBlock.transactions[0].Outputs[0].Value - TRANSACTION_FEE), [])]);
      var signed := SignTransaction(newTx, key);
      if signed.Err? {
        return signed;
      }
      return Ok(newTx);
    }

    /** `generateBlock`: builds the next block on the tip without changing
        the chain (the method has no modifies clause). The result passes
        `Validate` against the tip it was built on. */
    method GenerateBlock(now: Int64, key: PrivateKey) returns (r: Result<Block>)
      ensures chain == [] ==> r == Err(EmptyChain)
      ensures chain != [] && SpendTransaction(chain[|chain| - 1]).Err? ==> r == Err(MissingOutput)
      ensures chain != [] && SpendTransaction(chain[|chain| - 1]).Ok? ==>
        && (r.Ok? <==> !SigningFails(SpendTransaction(chain[|chain| - 1]).value, key))
        && (r.Err? ==> r.error == SigningFailure)
      ensures r.Ok? ==>
        && chain != []
        && SpendTransaction(chain[|chain| - 1]).Ok?
        && r.value == NextBlock(chain[|chain| - 1], SpendTransaction(chain[|chain| - 1]).value, now)
        && r.value.index == WrapInt64(chain[|chain| - 1].index + 1)
        && r.value.previousHash == chain[|chain| - 1].hash
        && r.value.timestamp == now
        && Validate(chain[|chain| - 1], r.value) == Accept
    {
      if chain == [] {
        return Err(EmptyChain);
      }
      var previousBlock := chain[|chain| - 1];
      var tx := CreateNewTransaction(previousBlock, key);
      if tx.Err? {
        return Err(tx.error);
      }
      var newBlock := Block(WrapInt64(previousBlock.index + 1), now, [tx.value], previousBlock.hash, []);
      var h := CalculateHash(newBlock);
      newBlock := newBlock.(hash := h);
      NextBlockAccepted(previousBlock, tx.value, now);
      return Ok(newBlock);
    }

    /** `validateBlock`: the three checks against the tip, in order, and an
        append at the tail only if all pass; any failure leaves the chain as
        it was. An empty chain has no tip (Go panics). */
    method ValidateBlock(b: Block) returns (v: Verdict)
      modifies this
      ensures old(chain) == [] ==> v == Reject(EmptyChain)
      ensures old(chain) != [] ==> v == Validate(old(chain)[|old(chain)| - 1], b)
      ensures chain == if v == Accept then old(chain) + [b] else old(chain)
      ensures old(Valid()) ==> Valid()
    {
      if chain == [] {
        return Reject(EmptyChain);
      }
      var tip := chain[|chain| - 1];
      if WrapInt64(tip.index + 1) != b.index {
        return Reject(DiscontinuousIndex);
      }
      if tip.hash != b.previousHash {
        return Reject(BrokenLink);
      }
      var h := CalculateHash(b);
      if h != b.hash {
        return Reject(HashMismatch);
      }
      if Valid() {
        AcceptKeepsChainOk(chain, b);
      }
      chain := chain + [b];
      return Accept;
    }
  }

  /** The program's `main` without its printing: from an empty chain, a
      genesis block, then one generated block offered to `ValidateBlock`.
      The result is the validator's verdict, or the error that stopped the
      program before any block was offered to it. A block that is offered
      is always accepted, and generation fails only when signing does. */
  method RunDemo(now0: Int64, now1: Int64, key0: PrivateKey, key1: PrivateKey)
    returns (bc: Blockchain, r: Result<Verdict>)
    ensures bc.Valid()
    ensures
      var g := GenesisBlock(now0);
      var tx := SpendTransaction(g).value;
      && SpendTransaction(g).Ok?
      && (r.Ok? <==> !SigningFails(tx, key1))
      && (r.Ok? ==> r.value == Accept && bc.chain == [g, NextBlock(g, tx, now1)])
      && (r.Err? ==> r.error == SigningFailure && bc.chain == [g])
  {
    bc := new Blockchain();
    bc.CreateGenesisBlock(now0, key0);
    var b := bc.GenerateBlock(now1, key1);
    if b.Err? {
      return bc, Err(b.error);
    }
    var v := bc.ValidateBlock(b.value);
    r := Ok(v);
  }
}
