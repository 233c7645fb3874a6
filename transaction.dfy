/** The value-transfer records of the ledger: a transaction spends earlier
    outputs through its inputs and creates new outputs. */
module Transaction {
  import opened Bytes

  /** A reference to an earlier output, by the pair (`TransactionID`,
      `OutputIndex`), together with the input's `Signature`, which is not
      part of the reference. */
  datatype TransactionInput = TransactionInput(
    TransactionID: seq<Byte>,
    OutputIndex: Int64,
    Signature: seq<Byte>)

  /** An amount of coins and the owner's key. `Value` is a plain signed
      integer and `PublicKey` any byte string, possibly empty (Go's nil). */
  datatype TransactionOutput = TransactionOutput(
    Value: Int64,
    PublicKey: seq<Byte>)

  /** Ordered inputs and ordered outputs; serialization walks both in order. */
  datatype Transaction = Transaction(
    Inputs: seq<TransactionInput>,
    Outputs: seq<TransactionOutput>)

  /** Two inputs refer to the same earlier output. */
  predicate SameReference(a: TransactionInput, b: TransactionInput)
  {
    a.TransactionID == b.TransactionID && a.OutputIndex == b.OutputIndex
  }

  /** Replacing an input's signature does not change what it refers to. */
  lemma ResigningKeepsReference(input: TransactionInput, signature: seq<Byte>)
    ensures SameReference(input, input.(Signature := signature))
    ensures input.(Signature := signature).Signature == signature
  {
  }
}
