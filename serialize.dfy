/** `serializeTransactionData`: the bytes of a transaction that are hashed
    and signed. Each input contributes its `TransactionID` and one byte of
    `OutputIndex`; each output its `PublicKey` and eight bytes of `Value`.
    Signatures contribute nothing. */
module Serialize {
  import opened Bytes
  import opened Transaction

  function InputBytes(input: TransactionInput): seq<Byte>
  {
    input.TransactionID + [LowByte(input.OutputIndex)]
  }

  function OutputBytes(output: TransactionOutput): seq<Byte>
  {
    output.PublicKey + Int64ToBytes(output.Value)
  }

  /** The inputs' section, in input order. */
  function InputsBytes(ins: seq<TransactionInput>): seq<Byte>
  {
    if ins == [] then [] else InputsBytes(ins[..|ins| - 1]) + InputBytes(ins[|ins| - 1])
  }

  /** The outputs' section, in output order. */
  function OutputsBytes(outs: seq<TransactionOutput>): seq<Byte>
  {
    if outs == [] then [] else OutputsBytes(outs[..|outs| - 1]) + OutputBytes(outs[|outs| - 1])
  }

  /** The serialization of a transaction: all inputs, then all outputs. */
  function TxBytes(tx: Transaction): seq<Byte>
  {
    InputsBytes(tx.Inputs) + OutputsBytes(tx.Outputs)
  }

  /** `serializeTransactionData`: two loops that extend a local slice. */
  method SerializeTransactionData(tx: Transaction) returns (data: seq<Byte>)
    ensures data == TxBytes(tx)
  {
    data := [];
    for i := 0 to |tx.Inputs|
      invariant data == InputsBytes(tx.Inputs[..i])
    {
      assert tx.Inputs[..i + 1][..i] == tx.Inputs[..i];
      var input := tx.Inputs[i];
      data := data + input.TransactionID;
      data := data + [LowByte(input.OutputIndex)];
    }
    assert tx.Inputs[..|tx.Inputs|] == tx.Inputs;
    ghost var inputsPart := data;
    for i := 0 to |tx.Outputs|
      invariant data == inputsPart + OutputsBytes(tx.Outputs[..i])
    {
      assert tx.Outputs[..i + 1][..i] == tx.Outputs[..i];
      var output := tx.Outputs[i];
      data := data + output.PublicKey;
      data := data + Int64ToBytes(output.Value);
    }
    assert tx.Outputs[..|tx.Outputs|] == tx.Outputs;
  }

  // ---------------------------------------------------------------------
  // Length: a reference sum, computed front to back.

  /** The sum over the inputs of (|TransactionID| + 1). */
  function InputsSize(ins: seq<TransactionInput>): nat
  {
    if ins == [] then 0 else |ins[0].TransactionID| + 1 + InputsSize(ins[1..])
  }

  /** The sum over the outputs of (|PublicKey| + 8). */
  function OutputsSize(outs: seq<TransactionOutput>): nat
  {
    if outs == [] then 0 else |outs[0].PublicKey| + 8 + OutputsSize(outs[1..])
  }

  lemma {:induction false} InputsSizeSnoc(ins: seq<TransactionInput>, x: TransactionInput)
    ensures InputsSize(ins + [x]) == InputsSize(ins) + |x.TransactionID| + 1
  {
    if ins != [] {
      assert (ins + [x])[1..] == ins[1..] + [x];
      InputsSizeSnoc(ins[1..], x);
    }
  }

  lemma {:induction false} OutputsSizeSnoc(outs: seq<TransactionOutput>, x: TransactionOutput)
    ensures OutputsSize(outs + [x]) == OutputsSize(outs) + |x.PublicKey| + 8
  {
    if outs != [] {
      assert (outs + [x])[1..] == outs[1..] + [x];
      OutputsSizeSnoc(outs[1..], x);
    }
  }

  lemma {:induction false} InputsBytesLength(ins: seq<TransactionInput>)
    ensures |InputsBytes(ins)| == InputsSize(ins)
  {
    if ins != [] {
      var init, last := ins[..|ins| - 1], ins[|ins| - 1];
      InputsBytesLength(init);
      InputsSizeSnoc(init, last);
      assert init + [last] == ins;
    }
  }

  lemma {:induction false} OutputsBytesLength(outs: seq<TransactionOutput>)
    ensures |OutputsBytes(outs)| == OutputsSize(outs)
  {
    if outs != [] {
      var init, last := outs[..|outs| - 1], outs[|outs| - 1];
      OutputsBytesLength(init);
      OutputsSizeSnoc(init, last);
      assert init + [last] == outs;
    }
  }

  /** The serialization is exactly as long as the sum of its fields; an
      input-less transaction (the genesis one) encodes only its outputs. */
  lemma TxBytesLength(tx: Transaction)
    ensures |TxBytes(tx)| == InputsSize(tx.Inputs) + OutputsSize(tx.Outputs)
    ensures tx.Inputs == [] ==> TxBytes(tx) == OutputsBytes(tx.Outputs)
  {
    InputsBytesLength(tx.Inputs);
    OutputsBytesLength(tx.Outputs);
  }

  // ---------------------------------------------------------------------
  // What the bytes depend on.

  /** Two input lists that the encoding cannot tell apart: same length, same
      `TransactionID`s, `OutputIndex`es congruent modulo 256, and any
      signatures at all. */
  predicate InputsAgreeOnWire(a: seq<TransactionInput>, b: seq<TransactionInput>)
  {
    |a| == |b| &&
    forall k :: 0 <= k < |a| ==>
      a[k].TransactionID == b[k].TransactionID &&
      (a[k].OutputIndex - b[k].OutputIndex) % 256 == 0
  }

  lemma LowByteCongruent(x: Int64, y: Int64)
    ensures LowByte(x) == LowByte(y) <==> (x - y) % 256 == 0
  {
    var qx, qy, q := x / 256, y / 256, (x - y) / 256;
    assert x == qx * 256 + x % 256 && y == qy * 256 + y % 256;
    assert x - y == q * 256 + (x - y) % 256;
    assert (x % 256 - y % 256) - (x - y) % 256 == (q - qx + qy) * 256;
  }

  lemma {:induction false} AgreeingInputsEncodeAlike(a: seq<TransactionInput>, b: seq<TransactionInput>)
    requires InputsAgreeOnWire(a, b)
    ensures InputsBytes(a) == InputsBytes(b)
  {
    if a != [] {
      var n := |a| - 1;
      assert InputsAgreeOnWire(a[..n], b[..n]) by {
        forall k | 0 <= k < n
          ensures a[..n][k] == a[k] && b[..n][k] == b[k]
        {
        }
      }
      AgreeingInputsEncodeAlike(a[..n], b[..n]);
      LowByteCongruent(a[n].OutputIndex, b[n].OutputIndex);
    }
  }

  /** The serialization depends only on what the wire shows: signatures are
      never encoded, and output indices only modulo 256. */
  lemma WireEquivalentTransactionsEncodeAlike(tx: Transaction, tx': Transaction)
    requires InputsAgreeOnWire(tx.Inputs, tx'.Inputs)
    requires tx.Outputs == tx'.Outputs
    ensures TxBytes(tx) == TxBytes(tx')
  {
    AgreeingInputsEncodeAlike(tx.Inputs, tx'.Inputs);
  }

  /** Replacing the signature of any one input leaves the bytes unchanged. */
  lemma SignatureNotSerialized(tx: Transaction, k: nat, signature: seq<Byte>)
    requires k < |tx.Inputs|
    ensures TxBytes(tx.(Inputs := tx.Inputs[k := tx.Inputs[k].(Signature := signature)])) == TxBytes(tx)
  {
    var tx' := tx.(Inputs := tx.Inputs[k := tx.Inputs[k].(Signature := signature)]);
    assert InputsAgreeOnWire(tx.Inputs, tx'.Inputs) by {
      assert forall j :: 0 <= j < |tx.Inputs| ==> tx'.Inputs[j].TransactionID == tx.Inputs[j].TransactionID;
      assert forall j :: 0 <= j < |tx.Inputs| ==> tx'.Inputs[j].OutputIndex == tx.Inputs[j].OutputIndex;
    }
    AgreeingInputsEncodeAlike(tx.Inputs, tx'.Inputs);
  }

  /** Output indices 0 and 256 of the same earlier transaction are encoded
      identically, so the hash cannot tell which output an input spends. */
  lemma OutputIndexTruncated(id: seq<Byte>)
    ensures
      var spend0 := Transaction([TransactionInput(id, 0, [])], []);
      var spend256 := Transaction([TransactionInput(id, 256, [])], []);
      spend0 != spend256 && TxBytes(spend0) == TxBytes(spend256)
  {
    LowByteCongruent(0, 256);
  }

  /** Because variable-length fields are concatenated without a length or a
      separator, a transaction with one output and one with one input can
      have the same bytes. */
  lemma VariableLengthFieldsAmbiguous()
    ensures
      var onlyOutput := Transaction([], [TransactionOutput(0, [])]);
      var onlyInput := Transaction([TransactionInput([0, 0, 0, 0, 0, 0, 0], 0, [])], []);
      onlyOutput != onlyInput && TxBytes(onlyOutput) == TxBytes(onlyInput)
  {
    BigEndianZero(8);
    assert Int64ToBytes(0) == [0, 0, 0, 0, 0, 0, 0, 0];
    assert OutputsBytes([TransactionOutput(0, [])]) == Int64ToBytes(0);
  }

  // ---------------------------------------------------------------------
  // The converse, where the encoding is unambiguous.

  predicate IdsOfWidth(ins: seq<TransactionInput>, width: nat)
  {
    forall k :: 0 <= k < |ins| ==> |ins[k].TransactionID| == width
  }

  lemma {:induction false} FixedWidthInputsLength(ins: seq<TransactionInput>, width: nat)
    requires IdsOfWidth(ins, width)
    ensures |InputsBytes(ins)| == (width + 1) * |ins|
  {
    if ins != [] {
      var n := |ins| - 1;
      assert IdsOfWidth(ins[..n], width) by {
        forall k | 0 <= k < n ensures ins[..n][k] == ins[k] { }
      }
      FixedWidthInputsLength(ins[..n], width);
      assert |InputsBytes(ins)| == |InputsBytes(ins[..n])| + |InputBytes(ins[n])|;
      assert (width + 1) * n + (width + 1) == (width + 1) * |ins|;
    }
  }

  lemma ProductCancels(factor: nat, m: nat, n: nat)
    requires factor > 0 && factor * m == factor * n
    ensures m == n
  {
  }

  /** When every `TransactionID` has the same width (a 32-byte digest, say),
      equal bytes mean wire-equivalent inputs: together with
      AgreeingInputsEncodeAlike this is an if-and-only-if. Equal bytes
      already force the two lists to have the same length. */
  lemma {:induction false} FixedWidthInputsDecodeUniquely(a: seq<TransactionInput>, b: seq<TransactionInput>, width: nat)
    requires IdsOfWidth(a, width) && IdsOfWidth(b, width)
    requires InputsBytes(a) == InputsBytes(b)
    ensures InputsAgreeOnWire(a, b)
  {
    FixedWidthInputsLength(a, width);
    FixedWidthInputsLength(b, width);
    ProductCancels(width + 1, |a|, |b|);
    if a != [] {
      var n := |a| - 1;
      var a0, b0 := a[..n], b[..n];
      assert IdsOfWidth(a0, width) && IdsOfWidth(b0, width) by {
        forall k | 0 <= k < n ensures a0[k] == a[k] && b0[k] == b[k] { }
      }
      FixedWidthInputsLength(a0, width);
      FixedWidthInputsLength(b0, width);
      var p := (width + 1) * n;
      var sa, sb := InputsBytes(a), InputsBytes(b);
      assert sa == InputsBytes(a0) + InputBytes(a[n]);
      assert sb == InputsBytes(b0) + InputBytes(b[n]);
      assert InputsBytes(a0) == sa[..p] == sb[..p] == InputsBytes(b0);
      assert InputBytes(a[n]) == sa[p..] == sb[p..] == InputBytes(b[n]);
      assert a[n].TransactionID == InputBytes(a[n])[..width] == InputBytes(b[n])[..width] == b[n].TransactionID;
      assert LowByte(a[n].OutputIndex) == InputBytes(a[n])[width] == InputBytes(b[n])[width] == LowByte(b[n].OutputIndex);
      LowByteCongruent(a[n].OutputIndex, b[n].OutputIndex);
      FixedWidthInputsDecodeUniquely(a0, b0, width);
      forall k | 0 <= k < |a|
        ensures a[k].TransactionID == b[k].TransactionID && (a[k].OutputIndex - b[k].OutputIndex) % 256 == 0
      {
        if k < n {
          assert a0[k] == a[k] && b0[k] == b[k];
        }
      }
    }
  }
}
