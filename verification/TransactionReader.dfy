/** The program's transaction reader: it takes a transaction off a reader and counts its bytes. */
module TransactionReader {
  import opened Wrappers
  import opened ByteStreams
  import opened ByteCopies
  import opened Varints
  import opened TransactionFormat

  const UINT32_SIZE: nat := 4
  const UINT64_SIZE: nat := 8

  /** A varint and as many bytes as it says, packed into words. */
  method ReadScript(reader: Reader) returns (r: Option<(nat, seq<nat>, nat)>)
    requires reader.Valid()
    modifies reader
    ensures r.None? <==> ParseScript(old(reader.Remaining())).None?
    ensures r.Some? ==> reader.Valid() && ParseScript(old(reader.Remaining())).value.1 == reader.Remaining()
    ensures r.Some? ==>
      var script := ParseScript(old(reader.Remaining())).value.0;
      r.value.0 == |script| && r.value.1 == Packed(script)
    ensures r.Some? ==> r.value.2 + r.value.0 == |old(reader.Remaining())| - |reader.Remaining()|
  {
    hide ParseVarint, Packed, Flat, Reader.Valid, Reader.Remaining;
    var size := ReadVarint(reader);
    if size.None? { return None; }
    var script := ReadBytesEndian(reader, size.value.0);
    if script.None? { return None; }
    r := Some((size.value.0, script.value, size.value.1));
  }

  method ReadInput(reader: Reader) returns (r: Option<(TxInput, nat)>)
    requires reader.Valid()
    modifies reader
    ensures r.None? <==> ParseInput(old(reader.Remaining())).None?
    ensures r.Some? ==> reader.Valid() && ParseInput(old(reader.Remaining())).value.1 == reader.Remaining()
    ensures r.Some? ==> r.value.0 == InputRecord(ParseInput(old(reader.Remaining())).value.0)
    ensures r.Some? ==> r.value.1 == |old(reader.Remaining())| - |reader.Remaining()|
  {
    hide ParseScript, TakeLittle, Packed, Flat, LittleEndian, Reader.Valid, Reader.Remaining;
    var txid := ReadBytesEndian(reader, 32);
    if txid.None? { return None; }
    TakeFails(reader.Remaining(), 4);
    var vout := ReadLittle(reader, 4);
    if vout.None? { return None; }
    var script := ReadScript(reader);
    if script.None? { return None; }
    TakeFails(reader.Remaining(), 4);
    var sequence := ReadLittle(reader, 4);
    if sequence.None? { return None; }
    var (size, words, sizeBytes) := script.value;
    r := Some((TxInput(txid.value, vout.value, size, words, sequence.value),
               UINT32_SIZE * 8 + UINT32_SIZE + sizeBytes + size + UINT32_SIZE));
  }

  method ReadOutput(reader: Reader) returns (r: Option<(TxOutput, nat)>)
    requires reader.Valid()
    modifies reader
    ensures r.None? <==> ParseOutput(old(reader.Remaining())).None?
    ensures r.Some? ==> reader.Valid() && ParseOutput(old(reader.Remaining())).value.1 == reader.Remaining()
    ensures r.Some? ==> r.value.0 == OutputRecord(ParseOutput(old(reader.Remaining())).value.0)
    ensures r.Some? ==> r.value.1 == |old(reader.Remaining())| - |reader.Remaining()|
  {
    hide ParseScript, TakeLittle, Packed, Flat, LittleEndian, Reader.Valid, Reader.Remaining;
    ghost var b := reader.Remaining();
    TakeFails(b, 8);
    var amount := reader.ReadUint64();
    if amount.None? { return None; }
    Takes(b, reader.Remaining(), 8, amount.value);
    var script := ReadScript(reader);
    if script.None? { return None; }
    var (size, words, sizeBytes) := script.value;
    r := Some((TxOutput(amount.value, size, words), UINT64_SIZE + sizeBytes + size));
  }

  method ReadInputs(reader: Reader, inputCount: nat) returns (r: Option<(seq<TxInput>, nat)>)
    requires reader.Valid()
    modifies reader
    ensures r.None? <==> ParseInputs(old(reader.Remaining()), inputCount).None?
    ensures r.Some? ==> reader.Valid()
    ensures r.Some? ==> ParseInputs(old(reader.Remaining()), inputCount).value.1 == reader.Remaining()
    ensures r.Some? ==> r.value.0 == InputRecords(ParseInputs(old(reader.Remaining()), inputCount).value.0)
    ensures r.Some? ==> r.value.1 == |old(reader.Remaining())| - |reader.Remaining()|
    decreases inputCount
  {
    hide ParseInput, InputRecord, Reader.Valid, Reader.Remaining;
    if inputCount == 0 { return Some(([], 0)); }
    var input := ReadInput(reader);
    if input.None? { return None; }
    var more := ReadInputs(reader, inputCount - 1);
    if more.None? { return None; }
    r := Some(([input.value.0] + more.value.0, more.value.1 + input.value.1));
  }

  method ReadOutputs(reader: Reader, outputCount: nat) returns (r: Option<(seq<TxOutput>, nat)>)
    requires reader.Valid()
    modifies reader
    ensures r.None? <==> ParseOutputs(old(reader.Remaining()), outputCount).None?
    ensures r.Some? ==> reader.Valid()
    ensures r.Some? ==> ParseOutputs(old(reader.Remaining()), outputCount).value.1 == reader.Remaining()
    ensures r.Some? ==> r.value.0 == OutputRecords(ParseOutputs(old(reader.Remaining()), outputCount).value.0)
    ensures r.Some? ==> r.value.1 == |old(reader.Remaining())| - |reader.Remaining()|
    decreases outputCount
  {
    hide ParseOutput, OutputRecord, Reader.Valid, Reader.Remaining;
    if outputCount == 0 { return Some(([], 0)); }
    var output := ReadOutput(reader);
    if output.None? { return None; }
    var more := ReadOutputs(reader, outputCount - 1);
    if more.None? { return None; }
    r := Some(([output.value.0] + more.value.0, more.value.1 + output.value.1));
  }

  /**
    `read_transaction`: the transaction that the bytes encode, and its size. The size is the number of
    bytes taken, except that a marker's two bytes are taken and not counted.
  */
  method ReadTransaction(reader: Reader) returns (r: Option<(TxRecord, nat)>)
    requires reader.Valid()
    modifies reader
    ensures r.None? <==> ParseTransaction(old(reader.Remaining())).None?
    ensures r.Some? ==> reader.Valid() && ParseTransaction(old(reader.Remaining())).value.1 == reader.Remaining()
    ensures r.Some? ==> r.value.0 == Record(ParseTransaction(old(reader.Remaining())).value.0)
    ensures r.Some? ==> r.value.1 + (if Marked(old(reader.Remaining())) then 2 else 0)
                        == |old(reader.Remaining())| - |reader.Remaining()|
  {
    hide ParseVarint, ParseInputs, ParseOutputs, TakeLittle, Reader.Valid, Reader.Remaining, LittleEndian, Flat;
    ghost var b := reader.Remaining();
    TakeFails(b, 4);
    var version := ReadLittle(reader, 4);
    if version.None? { return None; }
    var skipped := SkipMarkerBytes(reader, b);
    if !skipped { return None; }
    var inputCount := ReadVarint(reader);
    if inputCount.None? { return None; }
    var inputs := ReadInputs(reader, inputCount.value.0);
    if inputs.None? { return None; }
    var outputCount := ReadVarint(reader);
    if outputCount.None? { return None; }
    var outputs := ReadOutputs(reader, outputCount.value.0);
    if outputs.None? { return None; }
    TakeFails(reader.Remaining(), 4);
    var locktime := ReadLittle(reader, 4);
    if locktime.None? { return None; }
    r := Some((TxRecord(version.value, inputs.value.0, outputs.value.0, locktime.value),
               UINT32_SIZE + inputCount.value.1 + inputs.value.1 + outputCount.value.1 + outputs.value.1
                 + UINT32_SIZE));
  }

  /** Peek at the byte after the version; a zero must begin the marker 0x0100. */
  method SkipMarkerBytes(reader: Reader, ghost b: seq<Byte>) returns (ok: bool)
    requires reader.Valid() && |b| >= 4 && TakeLittle(b, 4).value.1 == reader.Remaining()
    modifies reader
    ensures ok <==> SkipMarker(old(reader.Remaining())).Some?
    ensures ok ==> reader.Valid() && SkipMarker(old(reader.Remaining())) == Some(reader.Remaining())
    ensures ok ==> |old(reader.Remaining())| - |reader.Remaining()| == if Marked(b) then 2 else 0
  {
    hide Reader.Valid, Reader.Remaining, LittleEndian, Flat;
    ghost var r := reader.Remaining();
    assert r == b[4..];
    var isNotSegwit := reader.PeekUint8();
    if isNotSegwit.None? { return false; }
    if isNotSegwit.value != 0 { return true; }
    var flag := reader.ReadUint16();
    if flag.None? { return false; }
    ok := flag.value == 0x0100;
    if ok { MarkerBytes(r); }
  }

  /**
    What the reader returns for the encoding of a transaction with inputs: its record, its exact size, and
    the bytes that follow still to be read.
  */
  method ReadEncoded(reader: Reader, ghost t: Transaction, ghost rest: seq<Byte>) returns (record: TxRecord, size: nat)
    requires reader.Valid() && Fits(t) && t.inputs != [] && reader.Remaining() == Encode(t) + rest
    modifies reader
    ensures reader.Valid() && reader.Remaining() == rest
    ensures record == Record(t) && size == |Encode(t)|
  {
    hide Encode, ParseTransaction, Reader.Valid, Reader.Remaining, Fits;
    TransactionRoundTrip(t, rest);
    NotMarked(t, rest);
    var r := ReadTransaction(reader);
    record, size := r.value.0, r.value.1;
  }

  /** The same for the marked form, whose size is two bytes short. */
  method ReadMarked(reader: Reader, ghost t: Transaction, ghost rest: seq<Byte>) returns (record: TxRecord, size: nat)
    requires reader.Valid() && Fits(t) && reader.Remaining() == EncodeMarked(t) + rest
    modifies reader
    ensures reader.Valid() && reader.Remaining() == rest
    ensures record == Record(t) && size == |EncodeMarked(t)| - 2
  {
    hide EncodeMarked, ParseTransaction, Reader.Valid, Reader.Remaining, Fits;
    MarkedRoundTrip(t, rest);
    var r := ReadTransaction(reader);
    record, size := r.value.0, r.value.1;
  }

  lemma NotMarked(t: Transaction, rest: seq<Byte>)
    requires t.inputs != []
    ensures !Marked(Encode(t) + rest)
  {
    hide EncodeBody, LittleDigits;
    BodyStart(t);
    if |Encode(t) + rest| >= 6 { assert (Encode(t) + rest)[4] == EncodeBody(t)[0]; }
  }

  /** The record determines the transaction. */
  lemma RecordInjective(t: Transaction, u: Transaction)
    requires Fits(t) && Fits(u) && Record(t) == Record(u)
    ensures t == u
  {
    hide Packed;
    forall i | 0 <= i < |t.inputs| ensures t.inputs[i] == u.inputs[i] {
      assert InputRecords(t.inputs)[i] == InputRecords(u.inputs)[i];
      assert t.inputs[i] in t.inputs && u.inputs[i] in u.inputs;
      PackedInjective(t.inputs[i].txid, u.inputs[i].txid);
      PackedInjective(t.inputs[i].scriptSig, u.inputs[i].scriptSig);
    }
    assert |InputRecords(t.inputs)| == |InputRecords(u.inputs)|;
    forall i | 0 <= i < |t.outputs| ensures t.outputs[i] == u.outputs[i] {
      assert OutputRecords(t.outputs)[i] == OutputRecords(u.outputs)[i];
      PackedInjective(t.outputs[i].scriptPubKey, u.outputs[i].scriptPubKey);
    }
    assert |OutputRecords(t.outputs)| == |OutputRecords(u.outputs)|;
  }
}
