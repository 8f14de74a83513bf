/**
 * The wire layout of transactions and blocks, as structured data with a printer.
 * Counts and script lengths may use any varint width that holds them.
 */
module Wire {
  import opened ByteStrings
  import opened Preprocessor

  datatype TxIn = TxIn(outpoint: Bytes, script: Bytes, tail: nat, sequence: Bytes) {
    predicate Valid() {
      |outpoint| == 36 && FitsTail(|script|, tail) && |sequence| == 4
    }
    function Encode(): Bytes
      requires Valid()
    {
      outpoint + PackVarintWide(|script|, tail) + script + sequence
    }
  }

  datatype TxOut = TxOut(amount: Bytes, script: Bytes, tail: nat) {
    predicate Valid() {
      |amount| == 8 && FitsTail(|script|, tail)
    }
    function Encode(): Bytes
      requires Valid()
    {
      amount + PackVarintWide(|script|, tail) + script
    }
  }

  datatype Tx = Tx(version: Bytes, ins: seq<TxIn>, insTail: nat, outs: seq<TxOut>, outsTail: nat, lockTime: Bytes) {
    predicate Valid() {
      && |version| == 4 && |lockTime| == 4
      && FitsTail(|ins|, insTail) && FitsTail(|outs|, outsTail)
      && (forall i :: 0 <= i < |ins| ==> ins[i].Valid())
      && (forall i :: 0 <= i < |outs| ==> outs[i].Valid())
    }
    function Encode(): Bytes
      requires Valid()
    {
      version + PackVarintWide(|ins|, insTail) + EncodeIns(ins)
      + PackVarintWide(|outs|, outsTail) + EncodeOuts(outs) + lockTime
    }
  }

  function EncodeIns(ins: seq<TxIn>): Bytes
    requires forall i :: 0 <= i < |ins| ==> ins[i].Valid()
  {
    if ins == [] then [] else ins[0].Encode() + EncodeIns(ins[1..])
  }

  function EncodeOuts(outs: seq<TxOut>): Bytes
    requires forall i :: 0 <= i < |outs| ==> outs[i].Valid()
  {
    if outs == [] then [] else outs[0].Encode() + EncodeOuts(outs[1..])
  }

  predicate ValidTxs(txs: seq<Tx>) {
    forall i :: 0 <= i < |txs| ==> txs[i].Valid()
  }

  function EncodeTxs(txs: seq<Tx>): Bytes
    requires ValidTxs(txs)
  {
    if txs == [] then [] else txs[0].Encode() + EncodeTxs(txs[1..])
  }

  datatype Block = Block(header: Bytes, countTail: nat, txs: seq<Tx>) {
    predicate Valid() {
      |header| == 80 && FitsTail(|txs|, countTail) && ValidTxs(txs)
    }
    /** Where the first transaction starts. */
    function Front(): nat {
      81 + countTail
    }
    function Encode(): Bytes
      requires Valid()
    {
      header + PackVarintWide(|txs|, countTail) + EncodeTxs(txs)
    }
    /** The start of each transaction and, last, the end of the block. */
    function Offsets(): seq<nat>
      requires Valid()
    {
      PrefixSums(Front(), txs)
    }
  }

  function PrefixSums(start: nat, txs: seq<Tx>): (s: seq<nat>)
    requires ValidTxs(txs)
    ensures |s| == |txs| + 1
    decreases |txs|
  {
    if txs == [] then [start] else [start] + PrefixSums(start + |txs[0].Encode()|, txs[1..])
  }

  /** A varint that stands at offset `|before|` of a buffer is read back there. */
  lemma ReadVarint(buf: Bytes, before: Bytes, n: nat, tail: nat, after: Bytes)
    requires FitsTail(n, tail)
    requires buf == before + PackVarintWide(n, tail) + after
    ensures UnpackVarint(buf, |before|) == Some(Varint(n, |before| + 1 + tail))
  {
    UnpackPackVarint(before, n, tail, after);
  }

  lemma {:induction false} SkipsInputs(buf: Bytes, before: Bytes, ins: seq<TxIn>, after: Bytes)
    requires forall i :: 0 <= i < |ins| ==> ins[i].Valid()
    requires buf == before + EncodeIns(ins) + after
    ensures SkipInputs(buf, |ins|, |before|) == Some(|before| + |EncodeIns(ins)|)
    decreases |ins|
  {
    hide UnpackVarint, PackVarintWide;
    if ins != [] {
      var i, rest := ins[0], EncodeIns(ins[1..]);
      var len := PackVarintWide(|i.script|, i.tail);
      ReadVarint(buf, before + i.outpoint, |i.script|, i.tail, i.script + i.sequence + rest + after) by {
        assert buf == (before + i.outpoint) + len + (i.script + i.sequence + rest + after);
      }
      SkipsInputs(buf, before + i.Encode(), ins[1..], after) by {
        assert buf == (before + i.Encode()) + rest + after;
      }
    }
  }

  lemma {:induction false} SkipsOutputs(buf: Bytes, before: Bytes, outs: seq<TxOut>, after: Bytes)
    requires forall i :: 0 <= i < |outs| ==> outs[i].Valid()
    requires buf == before + EncodeOuts(outs) + after
    ensures SkipOutputs(buf, |outs|, |before|) == Some(|before| + |EncodeOuts(outs)|)
    decreases |outs|
  {
    hide UnpackVarint, PackVarintWide;
    if outs != [] {
      var i, rest := outs[0], EncodeOuts(outs[1..]);
      var len := PackVarintWide(|i.script|, i.tail);
      ReadVarint(buf, before + i.amount, |i.script|, i.tail, i.script + rest + after) by {
        assert buf == (before + i.amount) + len + (i.script + rest + after);
      }
      SkipsOutputs(buf, before + i.Encode(), outs[1..], after) by {
        assert buf == (before + i.Encode()) + rest + after;
      }
    }
  }

  /** Exactly the bytes of one printed transaction are skipped, whatever surrounds them. */
  lemma SkipsTx(before: Bytes, tx: Tx, after: Bytes)
    requires tx.Valid()
    ensures SkipTx(before + tx.Encode() + after, |before|) == Some(|before| + |tx.Encode()|)
  {
    hide UnpackVarint, PackVarintWide, EncodeIns, EncodeOuts, SkipInputs, SkipOutputs;
    var buf := before + tx.Encode() + after;
    var insLen, ins := PackVarintWide(|tx.ins|, tx.insTail), EncodeIns(tx.ins);
    var outsLen, outs := PackVarintWide(|tx.outs|, tx.outsTail), EncodeOuts(tx.outs);
    var b1 := before + tx.version;
    ReadVarint(buf, b1, |tx.ins|, tx.insTail, ins + outsLen + outs + tx.lockTime + after) by {
      assert buf == b1 + insLen + (ins + outsLen + outs + tx.lockTime + after);
    }
    var b2 := b1 + insLen;
    SkipsInputs(buf, b2, tx.ins, outsLen + outs + tx.lockTime + after) by {
      assert buf == b2 + ins + (outsLen + outs + tx.lockTime + after);
    }
    var b3 := b2 + ins;
    ReadVarint(buf, b3, |tx.outs|, tx.outsTail, outs + tx.lockTime + after) by {
      assert buf == b3 + outsLen + (outs + tx.lockTime + after);
    }
    var b4 := b3 + outsLen;
    SkipsOutputs(buf, b4, tx.outs, tx.lockTime + after) by {
      assert buf == b4 + outs + (tx.lockTime + after);
    }
  }

  lemma {:induction false} TxsBounds(before: Bytes, txs: seq<Tx>)
    requires ValidTxs(txs)
    ensures Bounds(before + EncodeTxs(txs), |before|) == PrefixSums(|before|, txs)
    ensures Last(PrefixSums(|before|, txs)) == |before + EncodeTxs(txs)|
    decreases |txs|
  {
    hide SkipTx, Bounds, Tx.Encode, Tx.Valid, EncodeTxs, PrefixSums;
    var buf := before + EncodeTxs(txs);
    TxsUnfold(|before|, txs);
    if txs == [] {
      assert buf == before;
      ScanAtEnd(buf);
    } else {
      var one, rest := txs[0].Encode(), EncodeTxs(txs[1..]);
      FirstTx(before, txs);
      TxsBounds(before + one, txs[1..]);
    }
  }

  lemma TxsUnfold(start: nat, txs: seq<Tx>)
    requires ValidTxs(txs)
    ensures if txs == [] then EncodeTxs(txs) == [] && PrefixSums(start, txs) == [start]
      else
        && EncodeTxs(txs) == txs[0].Encode() + EncodeTxs(txs[1..])
        && PrefixSums(start, txs) == [start] + PrefixSums(start + |txs[0].Encode()|, txs[1..])
  {
    hide Tx.Encode, Tx.Valid;
  }

  /** A scan of printed transactions steps over the first. */
  lemma FirstTx(before: Bytes, txs: seq<Tx>)
    requires ValidTxs(txs) && txs != []
    ensures var buf, one := before + EncodeTxs(txs), txs[0].Encode();
      && buf == before + one + EncodeTxs(txs[1..])
      && Bounds(buf, |before|) == [|before|] + Bounds(buf, |before + one|)
  {
    hide SkipTx, Bounds, Tx.Encode, Tx.Valid, EncodeTxs, PrefixSums;
    var buf, one, rest := before + EncodeTxs(txs), txs[0].Encode(), EncodeTxs(txs[1..]);
    TxsUnfold(|before|, txs);
    SkipsTx(before, txs[0], rest);
    assert buf == before + one + rest;
    ScanStep(buf, |before|);
  }

  lemma ScanStep(b: Bytes, o: nat)
    requires SkipTx(b, o).Some? && SkipTx(b, o).value <= |b|
    ensures Bounds(b, o) == [o] + Bounds(b, SkipTx(b, o).value)
  {
  }

  lemma ScanAtEnd(b: Bytes)
    ensures SkipTx(b, |b|) == None
    ensures Bounds(b, |b|) == [|b|]
  {
  }

  /**
   * Exactness: for every well-formed block, whatever its varint widths and script
   * lengths, a scan of the whole block finds one offset per transaction, the prefix
   * sums of their encoded lengths, and stops at the end of the block.
   */
  lemma BlockBounds(block: Block)
    requires block.Valid()
    ensures UnpackVarint(block.Encode(), 80) == Some(Varint(|block.txs|, block.Front()))
    ensures Bounds(block.Encode(), block.Front()) == block.Offsets()
    ensures |block.Offsets()| == |block.txs| + 1
    ensures Last(block.Offsets()) == |block.Encode()|
  {
    hide UnpackVarint, PackVarintWide, Bounds, EncodeTxs;
    var count := PackVarintWide(|block.txs|, block.countTail);
    ReadVarint(block.Encode(), block.header, |block.txs|, block.countTail, EncodeTxs(block.txs));
    TxsBounds(block.header + count, block.txs);
  }

  // ----- the converse: only printed transactions are accepted -----

  lemma {:induction false} AcceptedInputs(buf: Bytes, n: nat, o: nat) returns (ins: seq<TxIn>)
    requires SkipInputs(buf, n, o).Some? && SkipInputs(buf, n, o).value <= |buf|
    ensures |ins| == n && forall i :: 0 <= i < n ==> ins[i].Valid()
    ensures EncodeIns(ins) == buf[o..SkipInputs(buf, n, o).value]
    decreases n
  {
    hide UnpackVarint, PackVarintWide;
    if n == 0 {
      return [];
    }
    var script := UnpackVarint(buf, o + 36).value;
    PackUnpackVarint(buf, o + 36);
    var tail := VarintTail(buf[o + 36]);
    var end := script.next + script.value;
    var one := TxIn(buf[o..o + 36], buf[script.next..end], tail, buf[end..end + 4]);
    JoinSlices(buf, o, o + 36, script.next);
    JoinSlices(buf, o, script.next, end);
    JoinSlices(buf, o, end, end + 4);
    var rest := AcceptedInputs(buf, n - 1, end + 4);
    ins := [one] + rest;
    assert ins[1..] == rest;
    JoinSlices(buf, o, end + 4, SkipInputs(buf, n, o).value);
  }

  lemma {:induction false} AcceptedOutputs(buf: Bytes, n: nat, o: nat) returns (outs: seq<TxOut>)
    requires SkipOutputs(buf, n, o).Some? && SkipOutputs(buf, n, o).value <= |buf|
    ensures |outs| == n && forall i :: 0 <= i < n ==> outs[i].Valid()
    ensures EncodeOuts(outs) == buf[o..SkipOutputs(buf, n, o).value]
    decreases n
  {
    hide UnpackVarint, PackVarintWide;
    if n == 0 {
      return [];
    }
    var script := UnpackVarint(buf, o + 8).value;
    PackUnpackVarint(buf, o + 8);
    var tail := VarintTail(buf[o + 8]);
    var end := script.next + script.value;
    var one := TxOut(buf[o..o + 8], buf[script.next..end], tail);
    JoinSlices(buf, o, o + 8, script.next);
    JoinSlices(buf, o, script.next, end);
    var rest := AcceptedOutputs(buf, n - 1, end);
    outs := [one] + rest;
    assert outs[1..] == rest;
    JoinSlices(buf, o, end, SkipOutputs(buf, n, o).value);
  }

  /** A completed skip covers the bytes of a well-formed transaction, and nothing else. */
  lemma AcceptedTx(buf: Bytes, o: nat) returns (tx: Tx)
    requires SkipTx(buf, o).Some? && SkipTx(buf, o).value <= |buf|
    ensures tx.Valid() && tx.Encode() == buf[o..SkipTx(buf, o).value]
  {
    hide UnpackVarint, PackVarintWide, EncodeIns, EncodeOuts, SkipInputs, SkipOutputs;
    var countIn := UnpackVarint(buf, o + 4).value;
    PackUnpackVarint(buf, o + 4);
    var ins := AcceptedInputs(buf, countIn.value, countIn.next);
    var afterIns := SkipInputs(buf, countIn.value, countIn.next).value;
    var countOut := UnpackVarint(buf, afterIns).value;
    PackUnpackVarint(buf, afterIns);
    var outs := AcceptedOutputs(buf, countOut.value, countOut.next);
    var end := SkipOutputs(buf, countOut.value, countOut.next).value;
    tx := Tx(buf[o..o + 4], ins, VarintTail(buf[o + 4]), outs, VarintTail(buf[afterIns]), buf[end..end + 4]);
    JoinSlices(buf, o, o + 4, countIn.next);
    JoinSlices(buf, o, countIn.next, afterIns);
    JoinSlices(buf, o, afterIns, countOut.next);
    JoinSlices(buf, o, countOut.next, end);
    JoinSlices(buf, o, end, end + 4);
  }

  lemma {:induction false} AcceptedTxs(buf: Bytes, o: nat) returns (txs: seq<Tx>)
    requires o <= |buf| && Last(Bounds(buf, o)) == |buf|
    ensures ValidTxs(txs) && EncodeTxs(txs) == buf[o..]
    decreases |buf| - o
  {
    hide SkipTx, Tx.Valid, Tx.Encode;
    var next := SkipTx(buf, o);
    if next.None? || next.value > |buf| {
      return [];
    }
    var tx := AcceptedTx(buf, o);
    assert Last(Bounds(buf, o)) == Last(Bounds(buf, next.value));
    var rest := AcceptedTxs(buf, next.value);
    txs := [tx] + rest;
    assert txs[1..] == rest;
    assert buf[o..] == buf[o..next.value] + buf[next.value..];
  }
}
