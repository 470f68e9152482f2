/**
  The serialised form of a transaction. The reader inverts the encoding: it returns the transaction, its
  size in bytes and a position right behind it, and it accepts no other encoding of the same transaction.
*/
module TransactionFormat {
  import opened Wrappers
  import opened Octets
  import opened ByteStreams
  import opened ByteCopies
  import opened Varints

  const HASH_BYTES: nat := 32

  /** An input and an output as bytes and numbers. */
  datatype Input = Input(txid: seq<Byte>, vout: nat, scriptSig: seq<Byte>, sequence: nat)
  datatype Output = Output(amount: nat, scriptPubKey: seq<Byte>)
  datatype Transaction = Transaction(version: nat, inputs: seq<Input>, outputs: seq<Output>, locktime: nat)

  /** The records that the program fills: byte strings are packed into words. */
  datatype TxInput = TxInput(txid: seq<nat>, vout: nat, scriptSigSize: nat, scriptSig: seq<nat>, sequence: nat)
  datatype TxOutput = TxOutput(amount: nat, scriptPubKeySize: nat, scriptPubKey: seq<nat>)
  datatype TxRecord = TxRecord(version: nat, inputs: seq<TxInput>, outputs: seq<TxOutput>, locktime: nat)

  function InputRecord(i: Input): TxInput {
    TxInput(Packed(i.txid), i.vout, |i.scriptSig|, Packed(i.scriptSig), i.sequence)
  }

  function OutputRecord(o: Output): TxOutput {
    TxOutput(o.amount, |o.scriptPubKey|, Packed(o.scriptPubKey))
  }

  function InputRecords(s: seq<Input>): (r: seq<TxInput>)
    ensures |r| == |s|
  {
    seq(|s|, i requires 0 <= i < |s| => InputRecord(s[i]))
  }

  function OutputRecords(s: seq<Output>): (r: seq<TxOutput>)
    ensures |r| == |s|
  {
    seq(|s|, i requires 0 <= i < |s| => OutputRecord(s[i]))
  }

  function Record(t: Transaction): TxRecord {
    TxRecord(t.version, InputRecords(t.inputs), OutputRecords(t.outputs), t.locktime)
  }

  // ------------------------------------------------------------------------
  // Encoding
  // ------------------------------------------------------------------------

  predicate InputFits(i: Input) {
    |i.txid| == HASH_BYTES && i.vout < UINT32 && |i.scriptSig| < UINT64 && i.sequence < UINT32
  }

  predicate OutputFits(o: Output) {
    o.amount < UINT64 && |o.scriptPubKey| < UINT64
  }

  predicate Fits(t: Transaction) {
    && t.version < UINT32 && t.locktime < UINT32 && |t.inputs| < UINT64 && |t.outputs| < UINT64
    && (forall i <- t.inputs :: InputFits(i)) && (forall o <- t.outputs :: OutputFits(o))
  }

  function EncodeInput(i: Input): seq<Byte> {
    i.txid + (LittleDigits(i.vout, 4) + (EncodeVarint(|i.scriptSig|) + (i.scriptSig + LittleDigits(i.sequence, 4))))
  }

  function EncodeOutput(o: Output): seq<Byte> {
    LittleDigits(o.amount, 8) + (EncodeVarint(|o.scriptPubKey|) + o.scriptPubKey)
  }

  function EncodeInputs(s: seq<Input>): seq<Byte> {
    if s == [] then [] else EncodeInput(s[0]) + EncodeInputs(s[1..])
  }

  function EncodeOutputs(s: seq<Output>): seq<Byte> {
    if s == [] then [] else EncodeOutput(s[0]) + EncodeOutputs(s[1..])
  }

  /** Everything after the version, in the legacy form. */
  function EncodeBody(t: Transaction): seq<Byte> {
    EncodeVarint(|t.inputs|) + (EncodeInputs(t.inputs) + (EncodeVarint(|t.outputs|) + (EncodeOutputs(t.outputs)
      + LittleDigits(t.locktime, 4))))
  }

  function Encode(t: Transaction): seq<Byte> {
    LittleDigits(t.version, 4) + EncodeBody(t)
  }

  // ------------------------------------------------------------------------
  // Parsing
  // ------------------------------------------------------------------------

  function TakeBytes(b: seq<Byte>, n: nat): Option<(seq<Byte>, seq<Byte>)> {
    if |b| < n then None else Some((b[..n], b[n..]))
  }

  /** A varint, and as many bytes as it says. */
  function ParseScript(b: seq<Byte>): Option<(seq<Byte>, seq<Byte>)> {
    match ParseVarint(b)
    case None => None
    case Some((size, r)) => TakeBytes(r, size)
  }

  function ParseInput(b: seq<Byte>): Option<(Input, seq<Byte>)> {
    match TakeBytes(b, HASH_BYTES)
    case None => None
    case Some((txid, r1)) =>
      match TakeLittle(r1, 4)
      case None => None
      case Some((vout, r2)) =>
        match ParseScript(r2)
        case None => None
        case Some((script, r3)) =>
          match TakeLittle(r3, 4)
          case None => None
          case Some((sequence, r4)) => Some((Input(txid, vout, script, sequence), r4))
  }

  function ParseOutput(b: seq<Byte>): Option<(Output, seq<Byte>)> {
    match TakeLittle(b, 8)
    case None => None
    case Some((amount, r1)) =>
      match ParseScript(r1)
      case None => None
      case Some((script, r2)) => Some((Output(amount, script), r2))
  }

  function ParseInputs(b: seq<Byte>, n: nat): Option<(seq<Input>, seq<Byte>)> {
    if n == 0 then Some(([], b)) else
    match ParseInput(b)
    case None => None
    case Some((first, r)) =>
      match ParseInputs(r, n - 1)
      case None => None
      case Some((more, s)) => Some(([first] + more, s))
  }

  function ParseOutputs(b: seq<Byte>, n: nat): Option<(seq<Output>, seq<Byte>)> {
    if n == 0 then Some(([], b)) else
    match ParseOutput(b)
    case None => None
    case Some((first, r)) =>
      match ParseOutputs(r, n - 1)
      case None => None
      case Some((more, s)) => Some(([first] + more, s))
  }

  /** A zero byte after the version announces the segregated witness form; its marker and flag are skipped. */
  function SkipMarker(b: seq<Byte>): Option<seq<Byte>> {
    if b == [] then None
    else if b[0] != 0 then Some(b)
    else
      match TakeLittle(b, 2)
      case None => None
      case Some((flag, r)) => if flag == 0x0100 then Some(r) else None
  }

  function ParseBody(version: nat, b: seq<Byte>): Option<(Transaction, seq<Byte>)> {
    match ParseVarint(b)
    case None => None
    case Some((inputCount, r1)) =>
      match ParseInputs(r1, inputCount)
      case None => None
      case Some((inputs, r2)) =>
        match ParseVarint(r2)
        case None => None
        case Some((outputCount, r3)) =>
          match ParseOutputs(r3, outputCount)
          case None => None
          case Some((outputs, r4)) =>
            match TakeLittle(r4, 4)
            case None => None
            case Some((locktime, r5)) => Some((Transaction(version, inputs, outputs, locktime), r5))
  }

  function ParseTransaction(b: seq<Byte>): Option<(Transaction, seq<Byte>)> {
    match TakeLittle(b, 4)
    case None => None
    case Some((version, r)) =>
      match SkipMarker(r)
      case None => None
      case Some(s) => ParseBody(version, s)
  }

  // ------------------------------------------------------------------------
  // Parsing inverts encoding
  // ------------------------------------------------------------------------

  lemma Regroup(a: seq<Byte>, b: seq<Byte>, rest: seq<Byte>)
    ensures (a + b) + rest == a + (b + rest)
  {
  }

  lemma TakeBytesAppend(b: seq<Byte>, rest: seq<Byte>)
    ensures TakeBytes(b + rest, |b|) == Some((b, rest))
  {
    assert (b + rest)[..|b|] == b && (b + rest)[|b|..] == rest;
  }

  lemma ScriptRoundTrip(script: seq<Byte>, rest: seq<Byte>)
    requires |script| < UINT64
    ensures ParseScript(EncodeVarint(|script|) + (script + rest)) == Some((script, rest))
  {
    hide ParseVarint, EncodeVarint;
    VarintRoundTrip(|script|, script + rest);
    TakeBytesAppend(script, rest);
  }

  lemma InputRoundTrip(i: Input, rest: seq<Byte>)
    requires InputFits(i)
    ensures ParseInput(EncodeInput(i) + rest) == Some((i, rest))
  {
    hide TakeBytes, TakeLittle, ParseScript, EncodeVarint, LittleDigits, Bytes;
    var last := LittleDigits(i.sequence, 4);
    var scripted := i.scriptSig + last;
    var sized := EncodeVarint(|i.scriptSig|) + scripted;
    var indexed := LittleDigits(i.vout, 4) + sized;
    Regroup(i.txid, indexed, rest);
    Regroup(LittleDigits(i.vout, 4), sized, rest);
    Regroup(EncodeVarint(|i.scriptSig|), scripted, rest);
    Regroup(i.scriptSig, last, rest);
    Powers();
    TakeBytesAppend(i.txid, indexed + rest);
    TakeLittleDigits(i.vout, 4, sized + rest);
    ScriptRoundTrip(i.scriptSig, last + rest);
    TakeLittleDigits(i.sequence, 4, rest);
  }

  lemma OutputRoundTrip(o: Output, rest: seq<Byte>)
    requires OutputFits(o)
    ensures ParseOutput(EncodeOutput(o) + rest) == Some((o, rest))
  {
    hide TakeLittle, ParseScript, EncodeVarint, LittleDigits, Bytes;
    var sized := EncodeVarint(|o.scriptPubKey|) + o.scriptPubKey;
    Regroup(LittleDigits(o.amount, 8), sized, rest);
    Regroup(EncodeVarint(|o.scriptPubKey|), o.scriptPubKey, rest);
    Powers();
    BytesAdd(4, 4);
    TakeLittleDigits(o.amount, 8, sized + rest);
    ScriptRoundTrip(o.scriptPubKey, rest);
  }

  lemma {:induction false} InputsRoundTrip(s: seq<Input>, rest: seq<Byte>)
    requires forall i <- s :: InputFits(i)
    ensures ParseInputs(EncodeInputs(s) + rest, |s|) == Some((s, rest))
  {
    hide ParseInput, EncodeInput;
    if s == [] {
      assert EncodeInputs(s) + rest == rest;
    } else {
      var more := EncodeInputs(s[1..]);
      Regroup(EncodeInput(s[0]), more, rest);
      InputRoundTrip(s[0], more + rest);
      InputsRoundTrip(s[1..], rest);
      assert s == [s[0]] + s[1..];
    }
  }

  lemma {:induction false} OutputsRoundTrip(s: seq<Output>, rest: seq<Byte>)
    requires forall o <- s :: OutputFits(o)
    ensures ParseOutputs(EncodeOutputs(s) + rest, |s|) == Some((s, rest))
  {
    hide ParseOutput, EncodeOutput;
    if s == [] {
      assert EncodeOutputs(s) + rest == rest;
    } else {
      var more := EncodeOutputs(s[1..]);
      Regroup(EncodeOutput(s[0]), more, rest);
      OutputRoundTrip(s[0], more + rest);
      OutputsRoundTrip(s[1..], rest);
      assert s == [s[0]] + s[1..];
    }
  }

  lemma BodyRoundTrip(t: Transaction, rest: seq<Byte>)
    requires Fits(t)
    ensures ParseBody(t.version, EncodeBody(t) + rest) == Some((t, rest))
  {
    hide ParseVarint, ParseInputs, ParseOutputs, EncodeVarint, EncodeInputs, EncodeOutputs, TakeLittle,
      LittleDigits, Bytes;
    var last := LittleDigits(t.locktime, 4);
    var outs := EncodeOutputs(t.outputs) + last;
    var counted := EncodeVarint(|t.outputs|) + outs;
    var ins := EncodeInputs(t.inputs) + counted;
    Regroup(EncodeVarint(|t.inputs|), ins, rest);
    Regroup(EncodeInputs(t.inputs), counted, rest);
    Regroup(EncodeVarint(|t.outputs|), outs, rest);
    Regroup(EncodeOutputs(t.outputs), last, rest);
    Powers();
    VarintRoundTrip(|t.inputs|, ins + rest);
    InputsRoundTrip(t.inputs, counted + rest);
    VarintRoundTrip(|t.outputs|, outs + rest);
    OutputsRoundTrip(t.outputs, last + rest);
    TakeLittleDigits(t.locktime, 4, rest);
  }

  /** An input count of zero would look like the marker; any other count does not. */
  lemma NoMarker(x: nat, rest: seq<Byte>)
    ensures EncodeVarint(x) != [] && (EncodeVarint(x)[0] == 0 <==> x == 0)
  {
  }

  /** Reading the encoding of a transaction with inputs gives the transaction, and stops right behind it. */
  lemma TransactionRoundTrip(t: Transaction, rest: seq<Byte>)
    requires Fits(t) && t.inputs != []
    ensures ParseTransaction(Encode(t) + rest) == Some((t, rest))
  {
    hide ParseBody, EncodeBody, TakeLittle, LittleDigits, Bytes;
    var body := EncodeBody(t);
    Regroup(LittleDigits(t.version, 4), body, rest);
    Powers();
    TakeLittleDigits(t.version, 4, body + rest);
    BodyStart(t);
    BodyRoundTrip(t, rest);
  }

  lemma BodyStart(t: Transaction)
    ensures EncodeBody(t) != [] && (EncodeBody(t)[0] == 0 <==> t.inputs == [])
  {
    hide EncodeVarint, EncodeInputs, EncodeOutputs, LittleDigits;
    NoMarker(|t.inputs|, []);
  }

  /** The segregated witness form is recognised by its marker. */
  predicate Marked(b: seq<Byte>) {
    |b| >= 6 && b[4] == 0 && b[5] == 1
  }

  /** The marker goes between the version and the body. */
  function EncodeMarked(t: Transaction): seq<Byte> {
    LittleDigits(t.version, 4) + ([0, 1] + EncodeBody(t))
  }

  /** Reading the marked form gives the transaction too, with or without inputs. */
  lemma MarkedRoundTrip(t: Transaction, rest: seq<Byte>)
    requires Fits(t)
    ensures ParseTransaction(EncodeMarked(t) + rest) == Some((t, rest)) && Marked(EncodeMarked(t) + rest)
  {
    hide ParseBody, EncodeBody, TakeLittle, LittleDigits, Bytes;
    var body := EncodeBody(t) + rest;
    assert EncodeMarked(t) + rest == LittleDigits(t.version, 4) + ([0, 1] + body);
    Powers();
    TakeLittleDigits(t.version, 4, [0, 1] + body);
    MarkerSkipped(body);
    BodyRoundTrip(t, rest);
  }

  lemma MarkerSkipped(rest: seq<Byte>)
    ensures SkipMarker([0, 1] + rest) == Some(rest)
  {
    hide LittleEndian;
    TwoBytes(0, 1);
    assert ([0, 1] + rest)[..2] == [0, 1] && ([0, 1] + rest)[2..] == rest;
  }

  // ------------------------------------------------------------------------
  // Encoding inverts parsing
  // ------------------------------------------------------------------------

  lemma TakenBytes(b: seq<Byte>, n: nat)
    requires TakeBytes(b, n).Some?
    ensures var (front, rest) := TakeBytes(b, n).value;
      |front| == n && b == front + rest
  {
  }

  lemma LittleTaken(b: seq<Byte>, k: nat)
    requires TakeLittle(b, k).Some?
    ensures var (x, rest) := TakeLittle(b, k).value;
      b == LittleDigits(x, k) + rest && x < Bytes(k)
  {
    TakenIsLittleDigits(b, k);
  }

  lemma ScriptIsCanonical(b: seq<Byte>)
    requires ParseScript(b).Some?
    ensures var (script, rest) := ParseScript(b).value;
      |script| < UINT64 && b == EncodeVarint(|script|) + (script + rest)
  {
    hide ParseVarint, EncodeVarint;
    VarintIsCanonical(b);
    var (size, r) := ParseVarint(b).value;
    TakenBytes(r, size);
  }

  lemma InputIsCanonical(b: seq<Byte>)
    requires ParseInput(b).Some?
    ensures var (i, rest) := ParseInput(b).value;
      InputFits(i) && b == EncodeInput(i) + rest
  {
    hide TakeBytes, TakeLittle, ParseScript, EncodeVarint, LittleDigits, Bytes;
    var (i, rest) := ParseInput(b).value;
    var (txid, r1) := TakeBytes(b, HASH_BYTES).value;
    var (vout, r2) := TakeLittle(r1, 4).value;
    var (script, r3) := ParseScript(r2).value;
    TakenBytes(b, HASH_BYTES);
    LittleTaken(r1, 4);
    ScriptIsCanonical(r2);
    LittleTaken(r3, 4);
    Powers();
    var last := LittleDigits(i.sequence, 4);
    var sized := EncodeVarint(|script|) + (script + last);
    Regroup(script, last, rest);
    Regroup(EncodeVarint(|script|), script + last, rest);
    Regroup(LittleDigits(vout, 4), sized, rest);
    Regroup(txid, LittleDigits(vout, 4) + sized, rest);
  }

  lemma OutputIsCanonical(b: seq<Byte>)
    requires ParseOutput(b).Some?
    ensures var (o, rest) := ParseOutput(b).value;
      OutputFits(o) && b == EncodeOutput(o) + rest
  {
    hide TakeLittle, ParseScript, EncodeVarint, LittleDigits, Bytes;
    var (o, rest) := ParseOutput(b).value;
    var (amount, r1) := TakeLittle(b, 8).value;
    LittleTaken(b, 8);
    ScriptIsCanonical(r1);
    Powers();
    BytesAdd(4, 4);
    Regroup(EncodeVarint(|o.scriptPubKey|), o.scriptPubKey, rest);
    Regroup(LittleDigits(amount, 8), EncodeVarint(|o.scriptPubKey|) + o.scriptPubKey, rest);
  }

  lemma {:induction false} InputsAreCanonical(b: seq<Byte>, n: nat)
    requires ParseInputs(b, n).Some?
    ensures var (s, rest) := ParseInputs(b, n).value;
      |s| == n && (forall i <- s :: InputFits(i)) && b == EncodeInputs(s) + rest
    decreases n
  {
    hide ParseInput, EncodeInput, InputFits;
    if n > 0 {
      InputIsCanonical(b);
      var (first, r) := ParseInput(b).value;
      InputsAreCanonical(r, n - 1);
      var (more, rest) := ParseInputs(r, n - 1).value;
      var s := [first] + more;
      assert s[1..] == more;
      Regroup(EncodeInput(first), EncodeInputs(more), rest);
    }
  }

  lemma {:induction false} OutputsAreCanonical(b: seq<Byte>, n: nat)
    requires ParseOutputs(b, n).Some?
    ensures var (s, rest) := ParseOutputs(b, n).value;
      |s| == n && (forall o <- s :: OutputFits(o)) && b == EncodeOutputs(s) + rest
    decreases n
  {
    hide ParseOutput, EncodeOutput, OutputFits;
    if n > 0 {
      OutputIsCanonical(b);
      var (first, r) := ParseOutput(b).value;
      OutputsAreCanonical(r, n - 1);
      var (more, rest) := ParseOutputs(r, n - 1).value;
      var s := [first] + more;
      assert s[1..] == more;
      Regroup(EncodeOutput(first), EncodeOutputs(more), rest);
    }
  }

  lemma BodyIsCanonical(version: nat, b: seq<Byte>)
    requires version < UINT32 && ParseBody(version, b).Some?
    ensures var (t, rest) := ParseBody(version, b).value;
      Fits(t) && t.version == version && b == EncodeBody(t) + rest
  {
    hide ParseVarint, ParseInputs, ParseOutputs, EncodeVarint, EncodeInputs, EncodeOutputs, TakeLittle,
      LittleDigits, Bytes, InputFits, OutputFits;
    var (t, rest) := ParseBody(version, b).value;
    var (inputCount, r1) := ParseVarint(b).value;
    var (inputs, r2) := ParseInputs(r1, inputCount).value;
    var (outputCount, r3) := ParseVarint(r2).value;
    var (outputs, r4) := ParseOutputs(r3, outputCount).value;
    VarintIsCanonical(b);
    InputsAreCanonical(r1, inputCount);
    VarintIsCanonical(r2);
    OutputsAreCanonical(r3, outputCount);
    LittleTaken(r4, 4);
    Powers();
    var last := LittleDigits(t.locktime, 4);
    var outs := EncodeOutputs(outputs) + last;
    var counted := EncodeVarint(outputCount) + outs;
    Regroup(EncodeOutputs(outputs), last, rest);
    Regroup(EncodeVarint(outputCount), outs, rest);
    Regroup(EncodeInputs(inputs), counted, rest);
    Regroup(EncodeVarint(inputCount), EncodeInputs(inputs) + counted, rest);
  }

  /**
    Whatever is accepted without the marker is the encoding of the transaction that is returned, which has
    inputs. With the marker, it is that encoding with the two bytes put in after the version.
  */
  lemma TransactionIsCanonical(b: seq<Byte>)
    requires ParseTransaction(b).Some?
    ensures var (t, rest) := ParseTransaction(b).value;
      && Fits(t)
      && (!Marked(b) ==> t.inputs != [] && b == Encode(t) + rest)
      && (Marked(b) ==> b == LittleDigits(t.version, 4) + ([0, 1] + (EncodeBody(t) + rest)))
  {
    hide ParseBody, EncodeBody, LittleDigits, Bytes;
    Powers();
    LittleTaken(b, 4);
    var (version, r) := TakeLittle(b, 4).value;
    var s := SkipMarker(r).value;
    BodyIsCanonical(version, s);
    var (t, rest) := ParseBody(version, s).value;
    assert forall k :: 0 <= k < |r| ==> r[k] == b[4 + k];
    if r[0] != 0 {
      Regroup(LittleDigits(version, 4), EncodeBody(t), rest);
      BodyStart(t);
    } else {
      MarkerBytes(r);
    }
  }

  lemma MarkerBytes(r: seq<Byte>)
    requires r != [] && r[0] == 0 && SkipMarker(r).Some?
    ensures |r| >= 2 && r[1] == 1 && r == [0, 1] + SkipMarker(r).value
  {
    assert r[..2] == [r[0], r[1]];
    TwoBytes(r[0], r[1]);
  }
}
