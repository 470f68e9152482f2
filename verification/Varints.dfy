/** Little-endian integers and variable-length integers at the front of a byte sequence. */
module Varints {
  import opened Wrappers
  import opened Arithmetic
  import opened Octets
  import opened Bits
  import opened ByteStreams
  import opened ByteCopies

  const UINT64: nat := 0x1_0000_0000_0000_0000

  /** The `k` bytes of a number, least significant first. */
  function LittleDigits(x: nat, k: nat): (b: seq<Byte>)
    ensures |b| == k
  {
    Reversed(Digits(x, k))
  }

  function TakeLittle(b: seq<Byte>, n: nat): Option<(nat, seq<Byte>)> {
    if |b| < n then None else Some((LittleEndian(b[..n]), b[n..]))
  }

  lemma {:induction false} ReversedTwice(b: seq<Byte>)
    ensures Reversed(Reversed(b)) == b
  {
    if b != [] {
      var front, last := b[..|b| - 1], b[|b| - 1];
      ReversedTwice(front);
      ReversedAppend([last], Reversed(front));
      OneByte(last);
    }
  }

  lemma TakeLittleDigits(x: nat, k: nat, rest: seq<Byte>)
    requires x < Bytes(k)
    ensures TakeLittle(LittleDigits(x, k) + rest, k) == Some((x, rest))
  {
    var d := LittleDigits(x, k);
    assert (d + rest)[..k] == d && (d + rest)[k..] == rest;
    ReversedTwice(Digits(x, k));
    ValueOfDigits(x, k);
  }

  /** What is taken is the little-endian form of its value. */
  lemma TakenIsLittleDigits(b: seq<Byte>, k: nat)
    requires |b| >= k
    ensures var (x, rest) := TakeLittle(b, k).value;
      b == LittleDigits(x, k) + rest && x < Bytes(k)
  {
    var front := b[..k];
    ReversedTwice(front);
    DigitsOfValue(Reversed(front));
    ValueFits(Reversed(front));
    assert b == front + b[k..];
  }

  // ------------------------------------------------------------------------
  // Varints
  // ------------------------------------------------------------------------

  /** The two halves that follow a marker, `k` bytes each. */
  function ParseHalves(b: seq<Byte>, k: nat): Option<(nat, nat, seq<Byte>)> {
    match TakeLittle(b, k)
    case None => None
    case Some((lo, s)) =>
      match TakeLittle(s, k)
      case None => None
      case Some((hi, t)) => Some((lo, hi, t))
  }

  /** `read_varint`: longer forms must be needed. */
  function ParseVarint(b: seq<Byte>): Option<(nat, seq<Byte>)> {
    match TakeLittle(b, 1)
    case None => None
    case Some((first, r)) =>
      if first == 0xff then
        match ParseHalves(r, 4)
        case None => None
        case Some((lo, hi, t)) => if hi == 0 then None else Some((lo + hi * UINT32, t))
      else if first == 0xfe then
        match ParseHalves(r, 2)
        case None => None
        case Some((lo, hi, t)) => if hi == 0 then None else Some((lo + hi * UINT16, t))
      else if first == 0xfd then
        match ParseHalves(r, 1)
        case None => None
        case Some((lo, hi, t)) => if lo < 253 && hi == 0 then None else Some((lo + hi * 256, t))
      else Some((first, r))
  }

  /** The shortest form. */
  function EncodeVarint(x: nat): seq<Byte> {
    if x < 0xfd then [x]
    else if x < UINT16 then [0xfd] + LittleDigits(x, 2)
    else if x < UINT32 then [0xfe] + LittleDigits(x, 4)
    else [0xff] + LittleDigits(x, 8)
  }

  /**
    What `write_varint` leaves in a writer with this many pending bytes: every value of one byte takes the
    one-byte form, and behind two pending bytes the marker 0xfd makes three, so that the two bytes that
    follow it are misplaced.
  */
  function WrittenVarint(pending: nat, x: nat): Option<seq<Byte>> {
    if x < 0x100 then Some([x])
    else if pending == 2 && x < UINT16 then None
    else Some(EncodeVarint(x))
  }

  lemma LittleDigitsSplit(lo: nat, hi: nat, j: nat, k: nat)
    requires lo < Bytes(j)
    ensures LittleDigits(lo + hi * Bytes(j), j + k) == LittleDigits(lo, j) + LittleDigits(hi, k)
  {
    DigitsSplit(lo, hi, j, k);
    ReversedAppend(Digits(hi, k), Digits(lo, j));
  }

  lemma {:induction false} DigitsSplit(lo: nat, hi: nat, j: nat, k: nat)
    requires lo < Bytes(j)
    ensures Digits(lo + hi * Bytes(j), k + j) == Digits(hi, k) + Digits(lo, j)
  {
    hide Bytes;
    Bytes256(if j == 0 then 0 else j - 1);
    if j > 0 {
      var x, h := lo + hi * Bytes(j), Bytes(j - 1);
      assert hi * (256 * h) == 256 * (hi * h);
      QuotientIs(x, 256, lo / 256 + hi * h, lo % 256);
      DigitsSplit(lo / 256, hi, j - 1, k);
    }
  }

  lemma OneLittle(x: Byte)
    ensures LittleDigits(x, 1) == [x]
  {
    assert Digits(x, 1) == Digits(x / 256, 0) + [x] == [x];
    OneByte(x);
  }

  /** A form of a marker, a low and a high half of `k` bytes each. */
  lemma Halves(x: nat, k: nat, rest: seq<Byte>)
    requires x < Bytes(k) * Bytes(k)
    ensures var lo, hi := x % Bytes(k), x / Bytes(k);
      && LittleDigits(x, 2 * k) == LittleDigits(lo, k) + LittleDigits(hi, k) && lo + hi * Bytes(k) == x
      && ParseHalves(LittleDigits(x, 2 * k) + rest, k) == Some((lo, hi, rest))
  {
    hide Bytes, LittleDigits, TakeLittle;
    BytesPositive(k);
    var m := Bytes(k);
    var lo, hi := x % m, x / m;
    assert x == hi * m + lo;
    if hi >= m { LessTimes(m, hi, m); }
    LittleDigitsSplit(lo, hi, k, k);
    TakeLittleDigits(lo, k, LittleDigits(hi, k) + rest);
    TakeLittleDigits(hi, k, rest);
    assert LittleDigits(x, 2 * k) + rest == LittleDigits(lo, k) + (LittleDigits(hi, k) + rest);
  }

  lemma TakeFirst(x: Byte, rest: seq<Byte>)
    ensures TakeLittle([x] + rest, 1) == Some((x, rest))
  {
    OneLittle(x);
    Powers();
    TakeLittleDigits(x, 1, rest);
  }

  /** Reading the shortest form gives the number back. */
  lemma VarintRoundTrip(x: nat, rest: seq<Byte>)
    requires x < UINT64
    ensures ParseVarint(EncodeVarint(x) + rest) == Some((x, rest))
  {
    hide TakeLittle, ParseHalves, LittleDigits, Bytes;
    Powers();
    var e := EncodeVarint(x);
    TakeFirst(e[0], e[1..] + rest);
    assert e + rest == [e[0]] + (e[1..] + rest);
    if x < 0xfd {
      assert e[1..] + rest == rest;
    } else if x < UINT16 {
      Halves(x, 1, rest);
      assert e[1..] == LittleDigits(x, 2);
    } else if x < UINT32 {
      Halves(x, 2, rest);
      assert e[1..] == LittleDigits(x, 4);
    } else {
      Halves(x, 4, rest);
      assert e[1..] == LittleDigits(x, 8);
    }
  }

  lemma JoinedHalves(r: seq<Byte>, k: nat)
    requires ParseHalves(r, k).Some?
    ensures var (lo, hi, t) := ParseHalves(r, k).value;
      r == LittleDigits(lo + hi * Bytes(k), 2 * k) + t && lo < Bytes(k) && hi < Bytes(k)
  {
    var (lo, hi, t) := ParseHalves(r, k).value;
    TakenIsLittleDigits(r, k);
    TakenIsLittleDigits(r[k..], k);
    LittleDigitsSplit(lo, hi, k, k);
  }

  /** Only the shortest form of a number is read as that number. */
  lemma VarintIsCanonical(b: seq<Byte>)
    requires ParseVarint(b).Some?
    ensures var (x, rest) := ParseVarint(b).value;
      x < UINT64 && b == EncodeVarint(x) + rest
  {
    hide ParseHalves, LittleDigits, Bytes;
    Powers();
    var (x, rest) := ParseVarint(b).value;
    var (first, r) := TakeLittle(b, 1).value;
    FirstTaken(b);
    if first == 0xff {
      JoinedHalves(r, 4);
    } else if first == 0xfe {
      JoinedHalves(r, 2);
    } else if first == 0xfd {
      JoinedHalves(r, 1);
    }
  }

  lemma FirstTaken(b: seq<Byte>)
    requires TakeLittle(b, 1).Some?
    ensures var (first, r) := TakeLittle(b, 1).value;
      first < 256 && b == [first] + r
  {
    TakenIsLittleDigits(b, 1);
    Powers();
    OneLittle(TakeLittle(b, 1).value.0);
  }

  /** A marker on its own is never read as itself. */
  lemma MarkerNotReadBack(x: nat, rest: seq<Byte>)
    requires x in {253, 254, 255}
    ensures ParseVarint([x] + rest) != Some((x, rest))
  {
    hide TakeLittle, LittleDigits, EncodeVarint;
    TakeFirst(x, rest);
    if ParseVarint([x] + rest) == Some((x, rest)) {
      VarintIsCanonical([x] + rest);
      MarkerForm(x);
    }
  }

  lemma MarkerForm(x: nat)
    requires x in {253, 254, 255}
    ensures |EncodeVarint(x)| == 3
  {
  }

  /** What the program leaves reads back in every context, except for the markers and for misplaced bytes. */
  lemma WrittenVarintReadsBack(pending: nat, x: nat)
    requires x < UINT64
    ensures
      (WrittenVarint(pending, x).Some?
       && forall rest: seq<Byte> :: ParseVarint(WrittenVarint(pending, x).value + rest) == Some((x, rest)))
      <==> x !in {253, 254, 255} && !(pending == 2 && 0x100 <= x < UINT16)
  {
    hide ParseVarint;
    if x in {253, 254, 255} {
      MarkerNotReadBack(x, []);
      assert ParseVarint(WrittenVarint(pending, x).value + []) != Some((x, []));
    } else {
      forall rest: seq<Byte> ensures ParseVarint(EncodeVarint(x) + rest) == Some((x, rest)) {
        VarintRoundTrip(x, rest);
      }
    }
  }

  // ------------------------------------------------------------------------
  // The writer's integers
  // ------------------------------------------------------------------------

  lemma SwappedShort(value: nat)
    requires value < UINT16
    ensures ByteSwap16(value) < UINT16 && Digits(ByteSwap16(value), 2) == LittleDigits(value, 2)
    ensures ByteSwap16(value) % 256 == value / 256
  {
    hide ByteSwap16, Value, Digits, Reversed;
    Powers();
    var b := Digits(value, 2);
    ValueOfDigits(value, 2);
    SwapIs16(b);
    ValueFits(Reversed(b));
    DigitsOfValue(Reversed(b));
    TwoDigits(value);
    TwoBytes(b[0], b[1]);
  }

  lemma TwoDigits(value: nat)
    requires value < UINT16
    ensures Digits(value, 2) == [value / 256, value % 256]
  {
    assert Digits(value, 2) == Digits(value / 256, 1) + [value % 256];
    assert Digits(value / 256, 1) == Digits(value / 256 / 256, 0) + [value / 256 % 256];
  }

  lemma SwappedLong(value: nat)
    requires value < UINT32
    ensures ByteSwap32(value) < UINT32 && Digits(ByteSwap32(value), 4) == LittleDigits(value, 4)
  {
    hide ByteSwap32, Value, Digits, Reversed;
    Powers();
    ValueOfDigits(value, 4);
    SwapIs32(Digits(value, 4));
    ValueFits(Reversed(Digits(value, 4)));
    DigitsOfValue(Reversed(Digits(value, 4)));
  }

  method WriteUint16(writer: Writer, value: nat)
    requires writer.Valid() && value < UINT16
    modifies writer
    ensures writer.Valid() <==> old(|writer.pending|) != 3 || value < 0x100
    ensures writer.Valid() ==> writer.Written() == old(writer.Written()) + LittleDigits(value, 2)
    ensures !writer.Valid() ==> forall b :: !writer.Holds(b)
  {
    hide Flat, ByteSwap16, LittleDigits, Digits, HeldBy, Bytes, Value;
    SwappedShort(value);
    writer.WriteUint16Endian(ByteSwap16(value));
  }

  method WriteUint32(writer: Writer, value: nat)
    requires writer.Valid() && value < UINT32
    modifies writer
    ensures writer.Valid() && writer.Written() == old(writer.Written()) + LittleDigits(value, 4)
  {
    hide Flat, ByteSwap32, LittleDigits, Digits, Bytes, Value;
    SwappedLong(value);
    writer.WriteUint32Endian(ByteSwap32(value));
  }

  method WriteUint64(writer: Writer, value: nat)
    requires writer.Valid() && value < UINT64
    modifies writer
    ensures writer.Valid() && writer.Written() == old(writer.Written()) + LittleDigits(value, 8)
  {
    hide Flat, LittleDigits, Digits, Bytes, Value, And, Writer.Valid, Writer.Written;
    Powers();
    LowWord(value);
    var lo := And(value, MASK_32);
    var hi := (value - lo) / UINT32;
    LittleDigitsSplit(lo, hi, 4, 4);
    WriteUint32(writer, lo);
    WriteUint32(writer, hi);
  }

  lemma LowPart(x: nat, k: nat)
    ensures And(x, Bytes(k) - 1) == x <==> x < Bytes(k)
  {
    hide And;
    LowBits(x, 8 * k);
    if x < Bytes(k) { QuotientIs(x, Bytes(k), 0, x); }
  }

  /** `write_varint`: fails for more than eight bytes, and leaves what the function says at every alignment. */
  method WriteVarint(writer: Writer, source: nat) returns (ok: bool)
    requires writer.Valid()
    modifies writer
    ensures ok <==> source < UINT64
    ensures ok ==>
      match WrittenVarint(old(|writer.pending|), source)
      case Some(bytes) => writer.Valid() && writer.Written() == old(writer.Written()) + bytes
      case None => forall b :: !writer.Holds(b)
    ensures ok ==>
      (writer.Holds(old(writer.Written()) + EncodeVarint(source))
       <==> source !in {253, 254, 255} && !(old(|writer.pending|) == 2 && 0x100 <= source < UINT16))
  {
    hide Flat, LittleDigits, Digits, Bytes, Value, And, HeldBy, EncodeVarint;
    ghost var before := writer.Written();
    VarintParts(source);
    writer.HoldsWritten();
    if source == And(source, 0xFF) {
      writer.WriteUint8(source);
      writer.HoldsWritten();
      OnlyOwnBytes(writer, before, [source], EncodeVarint(source));
      return true;
    }
    if source == And(source, 0xFFFF) {
      writer.WriteUint8(0xfd);
      writer.HoldsWritten();
      WriteUint16(writer, source);
    } else if source == And(source, 0xFFFF_FFFF) {
      writer.WriteUint8(0xfe);
      WriteUint32(writer, source);
    } else {
      if source != And(source, 0xFFFF_FFFF_FFFF_FFFF) { return false; }
      writer.WriteUint8(0xff);
      WriteUint64(writer, source);
    }
    if writer.Valid() { writer.HoldsWritten(); }
    ok := true;
  }

  lemma OnlyOwnBytes(writer: Writer, before: seq<Byte>, own: seq<Byte>, other: seq<Byte>)
    requires writer.Holds(before + own)
    ensures writer.Holds(before + other) <==> own == other
  {
    hide HeldBy;
    if writer.Holds(before + other) {
      HeldOnce(writer.words, writer.buf, writer.cur, before + own, before + other);
      assert own == (before + own)[|before|..] && other == (before + other)[|before|..];
    }
  }

  /** The branches that the masks select, and the forms that they write. */
  lemma VarintParts(x: nat)
    ensures And(x, 0xFF) == x <==> x < 0x100
    ensures And(x, 0xFFFF) == x <==> x < UINT16
    ensures And(x, 0xFFFF_FFFF) == x <==> x < UINT32
    ensures And(x, 0xFFFF_FFFF_FFFF_FFFF) == x <==> x < UINT64
    ensures x < 0x100 ==> (EncodeVarint(x) == [x] <==> x !in {253, 254, 255})
    ensures 0x100 <= x < UINT16 ==> EncodeVarint(x) == [0xfd] + LittleDigits(x, 2)
    ensures UINT16 <= x < UINT32 ==> EncodeVarint(x) == [0xfe] + LittleDigits(x, 4)
    ensures UINT32 <= x ==> EncodeVarint(x) == [0xff] + LittleDigits(x, 8)
  {
    hide And, LittleDigits, Bytes;
    Powers();
    BytesAdd(4, 4);
    LowPart(x, 1);
    LowPart(x, 2);
    LowPart(x, 4);
    LowPart(x, 8);
    if x < 0x100 && x in {253, 254, 255} { MarkerForm(x); }
  }

  /** 256, written behind two bytes: the writer then stands for no bytes at all. */
  method VarintBehindTwoBytes() returns (writer: Writer)
    ensures fresh(writer) && forall b :: !writer.Holds(b)
  {
    hide Flat, Bytes, Value, HeldBy, EncodeVarint;
    writer := new Writer();
    writer.WriteUint8(0);
    writer.WriteUint8(0);
    writer.HoldsWritten();
    var ok := WriteVarint(writer, 0x100);
  }

  // ------------------------------------------------------------------------
  // The reader's varint
  // ------------------------------------------------------------------------

  lemma Takes(before: seq<Byte>, after: seq<Byte>, n: nat, x: nat)
    requires TookLittle(before, after, n, x)
    ensures TakeLittle(before, n) == Some((x, after))
  {
  }

  lemma TakesByte(before: seq<Byte>, after: seq<Byte>, x: nat)
    requires Took(before, after, 1, x)
    ensures TakeLittle(before, 1) == Some((x, after))
  {
    OneByte(before[0]);
    assert before[..1] == [before[0]];
  }

  lemma TakeFails(b: seq<Byte>, n: nat)
    ensures TakeLittle(b, n).None? <==> |b| < n
  {
  }

  /** The two integers that follow a marker. */
  method ReadHalves(reader: Reader, k: nat) returns (r: Option<(nat, nat)>)
    requires reader.Valid() && k in {1, 2, 4}
    modifies reader
    ensures r.None? <==> ParseHalves(old(reader.Remaining()), k).None?
    ensures r.Some? ==> reader.Valid()
    ensures r.Some? ==> ParseHalves(old(reader.Remaining()), k) == Some((r.value.0, r.value.1, reader.Remaining()))
    ensures r.Some? ==> |old(reader.Remaining())| - |reader.Remaining()| == 2 * k
  {
    hide TakeLittle, Flat, Digits, Value;
    ghost var b := reader.Remaining();
    TakeFails(b, k);
    var lo := ReadLittle(reader, k);
    if lo.None? { return None; }
    TakeFails(reader.Remaining(), k);
    var hi := ReadLittle(reader, k);
    if hi.None? { return None; }
    r := Some((lo.value, hi.value));
  }

  /** An integer of one, two or four bytes. */
  method ReadLittle(reader: Reader, k: nat) returns (r: Option<nat>)
    requires reader.Valid() && k in {1, 2, 4}
    modifies reader
    ensures r.None? <==> |old(reader.Remaining())| < k
    ensures r.Some? ==> reader.Valid() && TakeLittle(old(reader.Remaining()), k) == Some((r.value, reader.Remaining()))
    ensures r.Some? ==> |old(reader.Remaining())| - |reader.Remaining()| == k
  {
    hide TakeLittle, Flat, Digits, Value;
    ghost var b := reader.Remaining();
    if k == 1 {
      r := reader.ReadUint8();
      if r.Some? { TakesByte(b, reader.Remaining(), r.value); }
    } else if k == 2 {
      r := reader.ReadUint16();
      if r.Some? { Takes(b, reader.Remaining(), 2, r.value); }
    } else {
      r := reader.ReadUint32();
      if r.Some? { Takes(b, reader.Remaining(), 4, r.value); }
    }
  }

  /** The value and the number of bytes that it took. */
  method ReadVarint(reader: Reader) returns (r: Option<(nat, nat)>)
    requires reader.Valid()
    modifies reader
    ensures r.None? <==> ParseVarint(old(reader.Remaining())).None?
    ensures r.Some? ==> reader.Valid() && ParseVarint(old(reader.Remaining())) == Some((r.value.0, reader.Remaining()))
    ensures r.Some? ==> r.value.1 == |old(reader.Remaining())| - |reader.Remaining()|
  {
    hide TakeLittle, ParseHalves, Flat, Digits, Value, Bytes, Reader.Valid, Reader.Remaining;
    TakeFails(reader.Remaining(), 1);
    var first := ReadLittle(reader, 1);
    if first.None? { return None; }
    if first.value !in {0xff, 0xfe, 0xfd} { return Some((first.value, 1)); }
    var k := if first.value == 0xff then 4 else if first.value == 0xfe then 2 else 1;
    LowerHalf(reader.Remaining());
    var halves := ReadHalves(reader, k);
    if halves.None? { return None; }
    var (lo, hi) := halves.value;
    if k == 4 {
      r := if hi == 0 then None else Some((lo + hi * UINT32, 9));
    } else if k == 2 {
      r := if hi == 0 then None else Some((lo + hi * UINT16, 5));
    } else {
      Markers(lo);
      r := if (lo - 253) * (lo - 254) * (lo - 255) != 0 && hi == 0 then None else Some((lo + hi * 256, 3));
    }
  }

  lemma LowerHalf(b: seq<Byte>)
    ensures ParseHalves(b, 1).Some? ==> ParseHalves(b, 1).value.0 < 256
  {
    Powers();
    if |b| >= 1 { TakenIsLittleDigits(b, 1); }
  }

  lemma Markers(x: nat)
    requires x < 256
    ensures (x - 253) * (x - 254) * (x - 255) != 0 <==> x < 253
  {
    if x < 253 { assert (x - 253) * (x - 254) > 0; }
  }
}
