/**
  The writer, and the loops that copy bytes from a reader to a writer, four at a time and one at a time,
  whatever the alignment of either side.
*/
module ByteCopies {
  import opened Wrappers
  import opened Arithmetic
  import opened Octets
  import opened Bits
  import opened ByteStreams

  function ZeroBytes(n: nat): (b: seq<Byte>)
    ensures |b| == n
  {
    seq(n, _ => 0)
  }

  /** The words that hold `b`, filled up with zeros on the right. */
  function Packed(b: seq<Byte>): (words: seq<nat>)
    decreases |b|
  {
    if b == [] then []
    else if |b| <= 4 then [Value(b + ZeroBytes(4 - |b|))]
    else [Value(b[..4])] + Packed(b[4..])
  }

  function Padding(size: nat): nat {
    (4 - size % 4) % 4
  }

  lemma FirstOfFlat(words: seq<nat>)
    requires words != [] && words[0] < UINT32
    ensures Value(Flat(words)[..4]) == words[0] && Flat(words)[4..] == Flat(words[1..])
  {
    Powers();
    QuotientIs(words[0], UINT32, 0, words[0]);
    ValueOfDigits(words[0], 4);
    assert Flat(words)[..4] == Digits(words[0], 4);
  }

  lemma {:induction false} PackedIs(b: seq<Byte>, words: seq<nat>)
    requires Flat(words) == b + ZeroBytes(Padding(|b|)) && forall i :: 0 <= i < |words| ==> words[i] < UINT32
    ensures words == Packed(b)
    decreases |b|
  {
    hide Value, Flat, Digits;
    var all := b + ZeroBytes(Padding(|b|));
    assert |all| == 4 * |words|;
    if b != [] {
      FirstOfFlat(words);
      assert words == [words[0]] + words[1..];
      if |b| <= 4 {
        assert all[..4] == b + ZeroBytes(4 - |b|);
        assert words[1..] == [];
      } else {
        assert all[..4] == b[..4] && all[4..] == b[4..] + ZeroBytes(Padding(|b|));
        PackedIs(b[4..], words[1..]);
      }
    }
  }

  /** The words determine the bytes. */
  lemma {:induction false} PackedInjective(b: seq<Byte>, c: seq<Byte>)
    requires |b| == |c| && Packed(b) == Packed(c)
    ensures b == c
    decreases |b|
  {
    if b != [] && |b| <= 4 {
      var z := ZeroBytes(4 - |b|);
      SameValue(b + z, c + z);
      assert (b + z)[..|b|] == b && (c + z)[..|c|] == c;
    } else if |b| > 4 {
      assert Packed(b)[0] == Value(b[..4]) && Packed(c)[0] == Value(c[..4]);
      SameValue(b[..4], c[..4]);
      assert Packed(b)[1..] == Packed(b[4..]) && Packed(c)[1..] == Packed(c[4..]);
      PackedInjective(b[4..], c[4..]);
      assert b == b[..4] + b[4..] && c == c[..4] + c[4..];
    }
  }

  lemma SameValue(b: seq<Byte>, c: seq<Byte>)
    requires |b| == |c| && Value(b) == Value(c)
    ensures b == c
  {
    DigitsOfValue(b);
    DigitsOfValue(c);
  }

  /** Finished words, and a buffer with the unfinished word's bytes in its highest places, stand for `bytes`. */
  ghost predicate HeldBy(words: seq<nat>, buf: nat, cur: nat, bytes: seq<Byte>) {
    exists p: seq<Byte> :: |p| < 4 && cur == Bytes(4 - |p|) && buf == Value(p) * cur && Flat(words) + p == bytes
  }

  lemma HeldAs(words: seq<nat>, buf: nat, cur: nat, p: seq<Byte>)
    requires |p| < 4 && cur == Bytes(4 - |p|) && buf == Value(p) * cur
    ensures HeldBy(words, buf, cur, Flat(words) + p)
  {
  }

  lemma SizeOfCursor(p: seq<Byte>, q: seq<Byte>)
    requires |p| < 4 && |q| < 4 && Bytes(4 - |p|) == Bytes(4 - |q|)
    ensures |p| == |q|
  {
    if |p| < |q| { BytesGrow(4 - |q|, 4 - |p|); }
    if |q| < |p| { BytesGrow(4 - |p|, 4 - |q|); }
  }

  lemma SameProduct(a: nat, b: nat, c: nat)
    requires c > 0 && a * c == b * c
    ensures a == b
  {
    QuotientIs(a * c, c, a, 0);
    QuotientIs(b * c, c, b, 0);
  }

  /** A writer holds at most one sequence of bytes. */
  lemma HeldOnce(words: seq<nat>, buf: nat, cur: nat, b: seq<Byte>, c: seq<Byte>)
    requires HeldBy(words, buf, cur, b) && HeldBy(words, buf, cur, c)
    ensures b == c
  {
    hide Value, Bytes, Flat;
    var p: seq<Byte> :| |p| < 4 && cur == Bytes(4 - |p|) && buf == Value(p) * cur && Flat(words) + p == b;
    var q: seq<Byte> :| |q| < 4 && cur == Bytes(4 - |q|) && buf == Value(q) * cur && Flat(words) + q == c;
    SizeOfCursor(p, q);
    BytesPositive(4 - |p|);
    SameProduct(Value(p), Value(q), cur);
    SameValue(p, q);
  }

  /** A byte at the lowest place of a buffer that has room for three more stands for nothing. */
  lemma MisplacedByte(words: seq<nat>, buf: nat, b: seq<Byte>)
    requires 0 < buf < 0x100_0000
    ensures !HeldBy(words, buf, 0x100_0000, b)
  {
    hide Value, Bytes, Flat;
    assert forall p: seq<Byte> :: |p| < 4 ==> buf != Value(p) * 0x100_0000;
  }

  class Writer {
    var cur: nat
    var buf: nat
    var words: seq<nat>
    // the bytes of the unfinished word
    ghost var pending: seq<Byte>

    ghost predicate Valid()
      reads this
    {
      && |pending| < 4 && cur == Bytes(4 - |pending|) && buf == Value(pending) * cur
      && forall i :: 0 <= i < |words| ==> words[i] < UINT32
    }

    /** The fields stand for these bytes, whatever has been written. */
    ghost predicate Holds(bytes: seq<Byte>)
      reads this
    {
      HeldBy(words, buf, cur, bytes)
    }

    lemma HoldsWritten()
      requires Valid()
      ensures Holds(Written()) && |pending| == |Written()| % 4
    {
      hide Bytes, Value, Flat;
      HeldAs(words, buf, cur, pending);
    }

    /** The bytes written so far. */
    ghost function Written(): seq<Byte>
      reads this
      requires Valid()
    {
      Flat(words) + pending
    }

    constructor ()
      ensures Valid() && Written() == []
    {
      cur, buf, words, pending := UINT32, 0, [], [];
      new;
      Powers();
    }

    method WriteUint8(byte: Byte)
      requires Valid()
      modifies this
      ensures Valid() && Written() == old(Written()) + [byte]
    {
      hide Bytes, Flat, Value;
      Powers();
      ValueLast(pending, byte);
      Bytes256(3 - |pending|);
      LastByte(pending);
      if cur == 0x100 {
        ghost var whole := pending + [byte];
        WholeWord(whole);
        FlatAppend(words, [buf + byte]);
        words := words + [buf + byte];
        cur, buf, pending := UINT32, 0, [];
        NoValue();
      } else {
        cur := cur / 256;
        assert Value(pending) * (256 * cur) == (Value(pending) * 256) * cur;
        buf := buf + byte * cur;
        pending := pending + [byte];
      }
    }

    method WriteUint32Endian(source: nat)
      requires Valid() && source < UINT32
      modifies this
      ensures Valid() && Written() == old(Written()) + Digits(source, 4) && cur == old(cur)
    {
      hide Bytes, Flat, Value, Digits, And;
      ghost var loaded := pending + Digits(source, 4);
      WordStep(pending, source, cur);
      var top := And(Joint(buf, cur, source), JointMask(cur));
      var word := top * cur / UINT32;
      FlatAppend(words, [word]);
      words := words + [word];
      var diff := source as int - top as int;
      buf := buf * UINT32 + diff * cur;
      pending := loaded[4..];
      assert loaded == loaded[..4] + loaded[4..];
    }

    /**
      Behind three pending bytes the last byte is left at the wrong place, unless it is zero: after that the
      fields stand for no bytes at all.
    */
    method WriteUint16Endian(value: nat)
      requires Valid() && value < UINT16
      modifies this
      ensures Valid() <==> old(|pending|) != 3 || value % 256 == 0
      ensures Valid() ==> Written() == old(Written()) + Digits(value, 2)
      ensures !Valid() ==> forall b :: !Holds(b)
    {
      hide Flat, Value, Digits, And, Bytes, HeldBy;
      ghost var before := pending;
      ghost var loaded := before + Digits(value, 2);
      Powers();
      ValueOfDigits(value, 2);
      ValueAppend(before, Digits(value, 2));
      AtSize(before);
      if (cur - 0x1_0000) * (cur - 0x100) == 0 {
        SpilledWord(before, value);
        SpillValues(Value(before), cur, Value(loaded[..4]));
        var b := value + buf * UINT16 / cur;
        var top := And(b, MASK_32 * UINT16 / cur);
        var word := top * cur / UINT16;
        FlatAppend(words, [word]);
        words := words + [word];
        cur, buf := cur * UINT16, b - top;
        pending := loaded[4..];
        assert loaded == loaded[..4] + loaded[4..];
        if |before| == 3 && value % 256 != 0 {
          forall b ensures !Holds(b) { MisplacedByte(words, buf, b); }
        }
      } else {
        FillValues(Value(before), cur, value);
        buf := value * cur / UINT16 + buf;
        cur := cur / UINT16;
        pending := loaded;
      }
    }

    /** What the writer holds, with the unfinished word filled up with zeros. */
    method Flush() returns (result: seq<nat>)
      requires Valid()
      ensures Flat(result) == Written() + ZeroBytes(Padding(|Written()|))
      ensures forall i :: 0 <= i < |result| ==> result[i] < UINT32
    {
      hide Bytes, Value, Digits;
      Powers();
      NothingPending(pending);
      if cur == UINT32 {
        assert ZeroBytes(0) == [];
        return words;
      }
      var zeros: seq<Byte> := ZeroBytes(4 - |pending|);
      ValueAppend(pending, zeros);
      ZeroValue(4 - |pending|);
      WholeWord(pending + zeros);
      FlatAppend(words, [buf]);
      result := words + [buf];
    }
  }

  /** The pending bytes with a word behind them, and the mask of the first four of these bytes. */
  function Joint(buf: nat, cur: nat, source: nat): (r: nat)
    requires cur > 0
    ensures r == buf * UINT32 / cur + source
  {
    QuotientNat(buf * UINT32, cur);
    buf * UINT32 / cur + source
  }

  function JointMask(cur: nat): (r: nat)
    requires cur > 0
    ensures r == MASK_32 * UINT32 / cur
  {
    QuotientNat(MASK_32 * UINT32, cur);
    MASK_32 * UINT32 / cur
  }

  lemma QuotientNat(a: nat, b: nat)
    requires b > 0
    ensures a / b >= 0
  {
  }

  /** A word joins the pending bytes: the first four bytes are finished, the rest stays pending. */
  lemma WordStep(pending: seq<Byte>, source: nat, cur: nat)
    requires |pending| < 4 && cur == Bytes(4 - |pending|) && source < UINT32
    ensures var buf, loaded := Value(pending) * cur, pending + Digits(source, 4);
      var top := And(Joint(buf, cur, source), JointMask(cur));
      && top * cur / UINT32 == Value(loaded[..4]) < UINT32 && Flat([Value(loaded[..4])]) == loaded[..4]
      && buf * UINT32 + (source - top) * cur == Value(loaded[4..]) * cur
  {
    hide Bytes, Flat, Value, Digits, And, Joint, JointMask;
    Powers();
    var added := Digits(source, 4);
    var loaded, m := pending + added, Bytes(|pending|);
    BytesPositive(|pending|);
    ValueOfDigits(source, 4);
    ValueAppend(pending, added);
    BytesAdd(|pending|, 4 - |pending|);
    ValueSplit(loaded, 4);
    TopBytes(loaded, 4);
    StepValues(Value(pending), source, cur, m, Value(loaded[..4]), Value(loaded[4..]));
    WholeWord(loaded[..4]);
  }

  /** The cursor for each number of pending bytes. */
  lemma AtSize(b: seq<Byte>)
    requires |b| < 4
    ensures Bytes(4 - |b|)
            == if |b| == 0 then UINT32 else if |b| == 1 then 0x100_0000 else if |b| == 2 then UINT16 else 0x100
    ensures |b| == 0 ==> Value(b) == 0
  {
    hide Bytes;
    Powers();
  }

  lemma LastOfTwo(value: nat)
    requires value < UINT16
    ensures Digits(value, 2)[1] == value % 256
  {
  }

  lemma SpillValues(v: nat, cur: nat, top: nat)
    requires cur == UINT16 || cur == 0x100
    ensures var m := if cur == UINT16 then 1 else 0x100;
      v * cur * UINT16 / cur == v * UINT16 && MASK_32 * UINT16 / cur == MASK_32 * m && top * m * cur / UINT16 == top
  {
  }

  lemma FillValues(v: nat, cur: nat, value: nat)
    requires cur == UINT32 || cur == 0x100_0000
    ensures value * cur / UINT16 + v * cur == (v * UINT16 + value) * (cur / UINT16)
  {
  }

  /** Two bytes behind two or three pending ones finish a word, and leave none or one. */
  lemma SpilledWord(before: seq<Byte>, value: nat)
    requires 2 <= |before| < 4 && value < UINT16
    ensures var loaded, b := before + Digits(value, 2), value + Value(before) * UINT16;
      var m := if |before| == 2 then 1 else 0x100;
      var top := And(b, MASK_32 * m);
      && top == Value(loaded[..4]) * m && Value(loaded[..4]) < UINT32 && Flat([Value(loaded[..4])]) == loaded[..4]
      && b - top == Value(loaded[4..]) == if |before| == 2 then 0 else value % 256
  {
    hide Flat, Value, Digits, And, Bytes;
    Powers();
    var loaded := before + Digits(value, 2);
    SpilledValue(before, value);
    TopBytes(loaded, 4);
    SpilledRest(before, value);
    WholeWord(loaded[..4]);
  }

  lemma SpilledValue(before: seq<Byte>, value: nat)
    requires value < UINT16
    ensures Value(before + Digits(value, 2)) == value + Value(before) * UINT16
  {
    hide Value, Digits, Bytes;
    Powers();
    ValueOfDigits(value, 2);
    ValueAppend(before, Digits(value, 2));
  }

  lemma SpilledRest(before: seq<Byte>, value: nat)
    requires 2 <= |before| < 4 && value < UINT16
    ensures Value((before + Digits(value, 2))[4..]) == if |before| == 2 then 0 else value % 256
  {
    hide Value, Digits;
    var added := Digits(value, 2);
    LastOfTwo(value);
    if |before| == 3 {
      assert (before + added)[4..] == [added[1]];
      OneByte(added[1]);
    } else {
      assert (before + added)[4..] == [];
      NoValue();
    }
  }

  lemma LastByte(b: seq<Byte>)
    requires |b| < 4
    ensures Bytes(4 - |b|) == 0x100 <==> |b| == 3
    ensures Bytes(4 - |b|) / 256 == Bytes(3 - |b|)
  {
    hide Pow2;
    Powers();
    Bytes256(3 - |b|);
    if |b| < 3 { BytesGrow(1, 4 - |b|); }
  }

  lemma NothingPending(b: seq<Byte>)
    requires |b| < 4
    ensures Bytes(4 - |b|) == UINT32 <==> b == []
  {
    hide Pow2;
    Powers();
    if b != [] { BytesGrow(4 - |b|, 4); }
  }

  lemma NoValue()
    ensures Value([]) == 0
  {
  }

  lemma {:induction false} ZeroValue(n: nat)
    ensures Value(ZeroBytes(n)) == 0
  {
    if n > 0 {
      assert ZeroBytes(n)[..n - 1] == ZeroBytes(n - 1);
      ZeroValue(n - 1);
    }
  }

  /** Four bytes make a word, and the word's bytes are the four. */
  lemma WholeWord(b: seq<Byte>)
    requires |b| == 4
    ensures Value(b) < UINT32 && Flat([Value(b)]) == b
  {
    Powers();
    ValueFits(b);
    DigitsOfValue(b);
    QuotientIs(Value(b), UINT32, 0, Value(b));
    assert [Value(b)][1..] == [];
  }

  /** The numbers behind a step of the writer: `m * cur` is 2^32, and the joint value splits at `m`. */
  lemma StepValues(v: nat, source: nat, cur: nat, m: nat, top: nat, rest: nat)
    requires cur > 0 && m > 0 && UINT32 == m * cur && v * UINT32 + source == top * m + rest
    ensures Joint(v * cur, cur, source) == v * UINT32 + source && JointMask(cur) == m * MASK_32
    ensures top * m * cur / UINT32 == top
    ensures v * cur * UINT32 + (source - top * m) * cur == rest * cur
  {
    hide Joint, JointMask;
    JointIs(v, source, cur, m);
    Reorder(top, m, cur);
    QuotientIs(top * UINT32, UINT32, top, 0);
    Reorder(v, UINT32, cur);
    Spread(v * UINT32, source - top * m, cur);
  }

  lemma JointIs(v: nat, source: nat, cur: nat, m: nat)
    requires cur > 0 && UINT32 == m * cur
    ensures Joint(v * cur, cur, source) == v * UINT32 + source && JointMask(cur) == m * MASK_32
  {
    Reorder(v, UINT32, cur);
    QuotientIs(v * cur * UINT32, cur, v * UINT32, 0);
    Reorder(MASK_32, m, cur);
    QuotientIs(MASK_32 * UINT32, cur, MASK_32 * m, 0);
  }

  lemma Reorder(a: int, b: int, c: int)
    ensures a * b * c == a * c * b == a * (b * c)
  {
  }

  lemma Spread(a: int, b: int, c: int)
    ensures a * c + b * c == (a + b) * c
  {
  }

  // ------------------------------------------------------------------------
  // Copying
  // ------------------------------------------------------------------------

  method ReadWriteWordsEndian(reader: Reader, writer: Writer, n: nat) returns (ok: bool)
    requires reader.Valid() && writer.Valid()
    modifies reader, writer
    ensures ok <==> |old(reader.Remaining())| >= 4 * n
    ensures ok ==> reader.Valid() && writer.Valid() && reader.Remaining() == old(reader.Remaining())[4 * n..]
    ensures ok ==> writer.Written() == old(writer.Written()) + old(reader.Remaining())[..4 * n]
  {
    hide Flat, Digits, Value;
    ghost var before := reader.Remaining();
    var i := 0;
    while i < n
      invariant 0 <= i <= n && 4 * i <= |before| && reader.Valid() && writer.Valid()
      invariant reader.Remaining() == before[4 * i..]
      invariant writer.Written() == old(writer.Written()) + before[..4 * i]
    {
      var word := reader.ReadUint32Endian();
      if word.None? { return false; }
      ghost var four := before[4 * i..][..4];
      ValueFits(four);
      Powers();
      DigitsOfValue(four);
      writer.WriteUint32Endian(word.value);
      assert before[..4 * i] + four == before[..4 * (i + 1)];
      assert before[4 * i..][4..] == before[4 * (i + 1)..];
      i := i + 1;
    }
    ok := true;
  }

  method ReadWriteBytes(reader: Reader, writer: Writer, n: nat) returns (ok: bool)
    requires reader.Valid() && writer.Valid()
    modifies reader, writer
    ensures ok <==> |old(reader.Remaining())| >= n
    ensures ok ==> reader.Valid() && writer.Valid() && reader.Remaining() == old(reader.Remaining())[n..]
    ensures ok ==> writer.Written() == old(writer.Written()) + old(reader.Remaining())[..n]
  {
    hide Flat, Digits, Value;
    ghost var before := reader.Remaining();
    var i := 0;
    while i < n
      invariant 0 <= i <= n && i <= |before| && reader.Valid() && writer.Valid()
      invariant reader.Remaining() == before[i..]
      invariant writer.Written() == old(writer.Written()) + before[..i]
    {
      var byte := reader.ReadUint8();
      if byte.None? { return false; }
      FirstOf(before[i..]);
      writer.WriteUint8(byte.value);
      assert before[..i] + [before[i]] == before[..i + 1] && before[i..][1..] == before[i + 1..];
      i := i + 1;
    }
    ok := true;
  }

  lemma WordsOf(size: nat)
    ensures And(size, 0xFFFF_FFFC) <= size && And(size, 0xFFFF_FFFC) % 4 == 0
    ensures size < UINT32 ==> size - And(size, 0xFFFF_FFFC) == size % 4
  {
    hide And, Pow2;
    Powers();
    assert Pow2(2) == 4 && Pow2(30) == 0x4000_0000 by { Thirty(); }
    HighBits(size % UINT32, size / UINT32, 0xFFFF_FFFC, 32);
    Masked(size % UINT32, 2, 30);
  }

  lemma Thirty()
    ensures Pow2(2) == 4 && Pow2(30) == 0x4000_0000
  {
    Powers();
    assert Pow2(2) == 2 * Pow2(1) == 4 * Pow2(0);
    PowAdd(2, 2, 30);
  }

  lemma Consecutive(b: seq<Byte>, k: nat, n: nat)
    requires k <= n <= |b|
    ensures b[..k] + b[k..][..n - k] == b[..n] && b[k..][n - k..] == b[n..]
  {
  }

  /** Copy `size` bytes: whole words first, single bytes after them. */
  method CopyBytes(reader: Reader, writer: Writer, size: nat) returns (ok: bool)
    requires reader.Valid() && writer.Valid()
    modifies reader, writer
    ensures ok <==> |old(reader.Remaining())| >= size
    ensures ok ==> reader.Valid() && writer.Valid() && reader.Remaining() == old(reader.Remaining())[size..]
    ensures ok ==> writer.Written() == old(writer.Written()) + old(reader.Remaining())[..size]
  {
    hide Flat, Digits, Value, And, Bytes, Reader.Valid, Reader.Remaining, Writer.Valid, Writer.Written;
    ghost var before := reader.Remaining();
    WordsOf(size);
    var masked := And(size, 0xFFFF_FFFC);
    ok := ReadWriteWordsEndian(reader, writer, masked / 4);
    if !ok { return; }
    ok := ReadWriteBytes(reader, writer, size - masked);
    if ok { Consecutive(before, masked, size); }
  }

  /** `size` bytes, packed into words that are filled up with zeros on the right. */
  method ReadBytesEndian(reader: Reader, size: nat) returns (r: Option<seq<nat>>)
    requires reader.Valid()
    modifies reader
    ensures r.None? <==> |old(reader.Remaining())| < size
    ensures r.Some? ==> reader.Valid() && reader.Remaining() == old(reader.Remaining())[size..]
    ensures r.Some? ==> r.value == Packed(old(reader.Remaining())[..size])
  {
    hide Flat, Digits, Value, And, Packed;
    ghost var before := reader.Remaining();
    var writer := new Writer();
    var ok := CopyBytes(reader, writer, size);
    if !ok { return None; }
    var words := writer.Flush();
    PackedIs(before[..size], words);
    r := Some(words);
  }

  method WriteNBytes(writer: Writer, value: Byte, n: nat)
    requires writer.Valid()
    modifies writer
    ensures writer.Valid() && writer.Written() == old(writer.Written()) + seq(n, _ => value)
  {
    hide Flat, Digits, Value;
    var i := 0;
    while i < n
      invariant 0 <= i <= n && writer.Valid() && writer.Written() == old(writer.Written()) + seq(i, _ => value)
    {
      writer.WriteUint8(value);
      i := i + 1;
    }
  }

  /** Up to 32 bytes, in eight words that are filled up with zeros on the left. */
  method ReadBytes32EndianFillZero(reader: Reader, size: nat) returns (r: Option<seq<nat>>)
    requires reader.Valid()
    modifies reader
    ensures r.None? <==> size > 32 || |old(reader.Remaining())| < size
    ensures r.Some? ==> reader.Valid() && reader.Remaining() == old(reader.Remaining())[size..]
    ensures r.Some? ==> Flat(r.value) == ZeroBytes(32 - size) + old(reader.Remaining())[..size]
  {
    hide Flat, Digits, Value, And, Padding, ZeroBytes, Bytes;
    ghost var before := reader.Remaining();
    if size > 32 { return None; }
    var writer := new Writer();
    WriteNBytes(writer, 0, 32 - size);
    assert writer.Written() == ZeroBytes(32 - size) by { AreZeroBytes(32 - size); }
    var ok := CopyBytes(reader, writer, size);
    if !ok { return None; }
    var words := writer.Flush();
    NoPadding();
    r := Some(words);
  }

  lemma NoPadding()
    ensures ZeroBytes(Padding(32)) == []
  {
  }

  lemma AreZeroBytes(n: nat)
    ensures seq(n, _ => 0) == ZeroBytes(n)
  {
  }
}
