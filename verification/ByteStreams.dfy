/**
  Bytes, big-endian numbers and arrays of 32-bit words, and the reader that takes bytes, words and integers
  off such an array at every alignment.
*/
module ByteStreams {
  import opened Wrappers
  import opened Arithmetic
  import opened Octets
  import opened Bits

  const UINT16: nat := 0x1_0000
  const UINT32: nat := 0x1_0000_0000
  const MASK_32: nat := 0xFFFF_FFFF

  type Byte = x: nat | x < 256

  /** The big-endian value of bytes. */
  function Value(b: seq<Byte>): nat {
    if b == [] then 0 else Value(b[..|b| - 1]) * 256 + b[|b| - 1]
  }

  /** The last `k` bytes of a number, most significant first. */
  function Digits(x: nat, k: nat): (b: seq<Byte>)
    ensures |b| == k
  {
    if k == 0 then [] else Digits(x / 256, k - 1) + [x % 256]
  }

  lemma Bytes256(k: nat)
    ensures Bytes(0) == 1 && Bytes(k + 1) == 256 * Bytes(k)
  {
    hide Pow2;
    Powers();
    BytesAdd(1, k);
  }

  lemma {:induction false} ValueFits(b: seq<Byte>)
    ensures Value(b) < Bytes(|b|)
  {
    hide Bytes;
    Bytes256(if b == [] then 0 else |b| - 1);
    if b != [] { ValueFits(b[..|b| - 1]); }
  }

  lemma {:induction false} DigitsOfValue(b: seq<Byte>)
    ensures Digits(Value(b), |b|) == b
  {
    if b != [] {
      DigitsOfValue(b[..|b| - 1]);
      QuotientIs(Value(b), 256, Value(b[..|b| - 1]), b[|b| - 1]);
    }
  }

  lemma {:induction false} ValueOfDigits(x: nat, k: nat)
    requires x < Bytes(k)
    ensures Value(Digits(x, k)) == x
  {
    hide Bytes;
    Bytes256(if k == 0 then 0 else k - 1);
    if k > 0 {
      ValueOfDigits(x / 256, k - 1);
      assert Digits(x, k)[..k - 1] == Digits(x / 256, k - 1);
    }
  }

  lemma {:induction false} ValueAppend(b: seq<Byte>, c: seq<Byte>)
    ensures Value(b + c) == Value(b) * Bytes(|c|) + Value(c)
  {
    hide Bytes;
    Bytes256(if c == [] then 0 else |c| - 1);
    if c == [] {
      assert b + c == b;
    } else {
      var front := c[..|c| - 1];
      assert (b + c)[..|b + c| - 1] == b + front;
      ValueAppend(b, front);
      assert (Value(b) * Bytes(|front|)) * 256 == Value(b) * (256 * Bytes(|front|));
    }
  }

  lemma ValueSplit(b: seq<Byte>, n: nat)
    requires n <= |b|
    ensures Value(b) == Value(b[..n]) * Bytes(|b| - n) + Value(b[n..]) && Value(b[n..]) < Bytes(|b| - n)
    ensures Value(b) < Bytes(|b|) == Bytes(n) * Bytes(|b| - n)
  {
    hide Bytes;
    assert b == b[..n] + b[n..];
    ValueAppend(b[..n], b[n..]);
    ValueFits(b[n..]);
    ValueFits(b);
    BytesAdd(n, |b| - n);
  }

  lemma Parts(x: nat, m: nat, top: nat, rest: nat)
    requires m > 0 && x == top * m + rest && rest < m
    ensures x - x % m == top * m && x - top * m == rest && top * m / m == top
  {
    QuotientIs(x, m, top, rest);
    QuotientIs(top * m, m, top, 0);
  }

  /** The mask of `n` bytes above the place `m`. */
  function MaskAbove(m: nat, n: nat): nat {
    ProductIsNat(m, Bytes(n) - 1);
    m * (Bytes(n) - 1)
  }

  /** The mask of the first `n` bytes of `b`, and what it leaves. */
  lemma TopBytes(b: seq<Byte>, n: nat)
    requires n <= |b|
    ensures var m, top := Bytes(|b| - n), Value(b[..n]);
      && Bytes(|b|) == Bytes(n) * m && And(Value(b), MaskAbove(m, n)) == top * m
      && Value(b) - top * m == Value(b[n..]) && top * m / m == top && Value(b[n..]) < m
  {
    hide And, Bytes, Value;
    ValueSplit(b, n);
    BytesPositive(|b| - n);
    MaskTop(Value(b), |b| - n, n);
    Parts(Value(b), Bytes(|b| - n), Value(b[..n]), Value(b[n..]));
  }

  lemma MaskTop(x: nat, k: nat, n: nat)
    requires x < Bytes(k) * Bytes(n)
    ensures And(x, Bytes(k) * (Bytes(n) - 1)) == x - x % Bytes(k)
  {
    Masked(x, 8 * k, 8 * n);
  }

  // ------------------------------------------------------------------------
  // Words
  // ------------------------------------------------------------------------

  /** The bytes of an array of words, of which only the lowest 32 bits count. */
  function Flat(words: seq<nat>): (b: seq<Byte>)
    ensures |b| == 4 * |words|
  {
    if words == [] then [] else Digits(words[0] % UINT32, 4) + Flat(words[1..])
  }

  lemma {:induction false} FlatAppend(v: seq<nat>, w: seq<nat>)
    ensures Flat(v + w) == Flat(v) + Flat(w)
  {
    if v == [] {
      assert v + w == w;
    } else {
      assert (v + w)[1..] == v[1..] + w;
      FlatAppend(v[1..], w);
    }
  }

  lemma LowWord(x: nat)
    ensures And(x, MASK_32) == x % UINT32
  {
    hide And, Pow2;
    Powers();
    LowBits(x, 32);
  }

  function Reversed(b: seq<Byte>): (r: seq<Byte>)
    ensures |r| == |b|
  {
    if b == [] then [] else [b[|b| - 1]] + Reversed(b[..|b| - 1])
  }

  /** The little-endian value of bytes. */
  function LittleEndian(b: seq<Byte>): nat {
    Value(Reversed(b))
  }

  function ByteSwap16(x: nat): nat {
    var top := And(x, 0xFF00);
    top / 256 + if x < top then 0 else (x - top) * 256
  }

  function ByteSwap32(x: nat): nat {
    var evens := And(x, 0xFF00_FF00);
    var swapped := evens / 256 + if x < evens then 0 else (x - evens) * 256;
    var top := And(swapped, 0xFFFF_0000);
    top / UINT16 + if swapped < top then 0 else (swapped - top) * UINT16
  }

  lemma ValueLast(b: seq<Byte>, x: Byte)
    ensures Value(b + [x]) == Value(b) * 256 + x && Reversed(b + [x]) == [x] + Reversed(b)
  {
    assert (b + [x])[..|b|] == b;
  }

  lemma OneByte(a: Byte)
    ensures Value([a]) == a && Reversed([a]) == [a]
  {
    ValueLast([], a);
    assert [] + [a] == [a];
  }

  lemma TwoBytes(a: Byte, b: Byte)
    ensures Value([a, b]) == a * 256 + b && Reversed([a, b]) == [b, a] && LittleEndian([a, b]) == b * 256 + a
  {
    hide Value, Reversed;
    OneByte(a);
    OneByte(b);
    ValueLast([a], b);
    ValueLast([b], a);
    assert [a] + [b] == [a, b] && [b] + [a] == [b, a];
  }

  lemma EvenByte(t: nat)
    requires t < UINT16
    ensures And(t, 0xFF00) == t - t % 256
  {
    hide And, Pow2;
    Eight();
    Masked(t, 8, 8);
  }

  lemma HighWord(t: nat)
    requires t < UINT32
    ensures And(t, 0xFFFF_0000) == t - t % UINT16
  {
    hide And, Pow2;
    Powers();
    Masked(t, 16, 16);
  }

  lemma EvenBytes(hi: nat, lo: nat)
    requires hi < UINT16 && lo < UINT16
    ensures And(hi * UINT16 + lo, 0xFF00_FF00) == (hi - hi % 256) * UINT16 + (lo - lo % 256)
  {
    hide And, Pow2;
    JoinedWords(lo, hi);
    EvenByte(hi);
    EvenByte(lo);
  }

  lemma JoinedWords(lo: nat, hi: nat)
    requires lo < UINT16
    ensures And(lo + UINT16 * hi, 0xFF00_FF00) == And(lo, 0xFF00) + UINT16 * And(hi, 0xFF00)
  {
    hide And, Pow2;
    Powers();
    assert Pow2(16) == UINT16 && 0xFF00 + UINT16 * 0xFF00 == 0xFF00_FF00;
    Joined(lo, hi, 0xFF00, 0xFF00, 16);
  }

  lemma Swap16(a: Byte, b: Byte)
    ensures ByteSwap16(Value([a, b])) == LittleEndian([a, b])
  {
    hide And, Value, Reversed, LittleEndian;
    TwoBytes(a, b);
    EvenByte(a * 256 + b);
    HighByte(a, b);
  }

  lemma HighByte(a: Byte, b: Byte)
    ensures (a * 256 + b) - (a * 256 + b) % 256 == a * 256
  {
  }

  lemma SwapIs16(s: seq<Byte>)
    requires |s| == 2
    ensures ByteSwap16(Value(s)) == LittleEndian(s)
  {
    assert s == [s[0], s[1]];
    Swap16(s[0], s[1]);
  }

  lemma FourBytes(a: Byte, b: Byte, c: Byte, d: Byte)
    ensures Value([a, b, c, d]) == (a * 256 + b) * UINT16 + (c * 256 + d)
    ensures LittleEndian([a, b, c, d]) == (d * 256 + c) * UINT16 + (b * 256 + a)
  {
    hide Value, Reversed;
    TwoBytes(a, b);
    TwoBytes(c, d);
    TwoBytes(d, c);
    TwoBytes(b, a);
    Powers();
    ValueAppend([a, b], [c, d]);
    assert [a, b] + [c, d] == [a, b, c, d];
    ValueAppend([d, c], [b, a]);
    assert [d, c] + [b, a] == [d, c, b, a];
    ReversedAppend([a, b], [c, d]);
  }

  lemma {:induction false} ReversedAppend(b: seq<Byte>, c: seq<Byte>)
    ensures Reversed(b + c) == Reversed(c) + Reversed(b)
  {
    if c == [] {
      assert b + c == b;
    } else {
      assert (b + c)[..|b + c| - 1] == b + c[..|c| - 1];
      ReversedAppend(b, c[..|c| - 1]);
    }
  }

  lemma Swap32(a: Byte, b: Byte, c: Byte, d: Byte)
    ensures ByteSwap32(Value([a, b, c, d])) == LittleEndian([a, b, c, d])
  {
    hide And, Value, Reversed;
    FourBytes(a, b, c, d);
    var hi, lo := a * 256 + b, c * 256 + d;
    EvenBytes(hi, lo);
    HighWord((b * 256 + a) * UINT16 + (d * 256 + c));
    Swapping(a, b, c, d);
  }

  lemma Swapping(a: Byte, b: Byte, c: Byte, d: Byte)
    ensures var hi, lo := a * 256 + b, c * 256 + d;
      var x, evens := hi * UINT16 + lo, (hi - hi % 256) * UINT16 + (lo - lo % 256);
      var swapped := (b * 256 + a) * UINT16 + (d * 256 + c);
      && x >= evens && evens / 256 + (x - evens) * 256 == swapped
      && swapped / UINT16 == b * 256 + a && swapped % UINT16 == d * 256 + c
  {
  }

  lemma SwapIs32(s: seq<Byte>)
    requires |s| == 4
    ensures ByteSwap32(Value(s)) == LittleEndian(s)
  {
    assert s == [s[0], s[1], s[2], s[3]];
    Swap32(s[0], s[1], s[2], s[3]);
  }

  // ------------------------------------------------------------------------
  // The reader
  // ------------------------------------------------------------------------

  /** `n` bytes are taken off the front of `before`: their value is `x`, and `after` is left. */
  ghost predicate Took(before: seq<Byte>, after: seq<Byte>, n: nat, x: nat) {
    n <= |before| && x == Value(before[..n]) && after == before[n..]
  }

  lemma TookFront(loaded: seq<Byte>, tail: seq<Byte>, n: nat)
    requires n <= |loaded|
    ensures Took(loaded + tail, loaded[n..] + tail, n, Value(loaded[..n]))
  {
    assert (loaded + tail)[..n] == loaded[..n] && (loaded + tail)[n..] == loaded[n..] + tail;
  }

  class Reader {
    const memory: seq<nat>
    var cur: nat
    var buf: nat
    var ptr: nat
    // the bytes of the payload
    ghost var pending: seq<Byte>

    ghost predicate Valid()
      reads this
    {
      |pending| < 4 && cur == Bytes(|pending|) && buf == Value(pending) && ptr <= |memory|
    }

    /** The bytes that have not been read yet. */
    ghost function Remaining(): seq<Byte>
      reads this
      requires Valid()
    {
      pending + Flat(memory[ptr..])
    }

    constructor (memory: seq<nat>)
      ensures Valid() && this.memory == memory && Remaining() == Flat(memory)
    {
      this.memory := memory;
      cur, buf, ptr, pending := 1, 0, 0, [];
      new;
      Bytes256(0);
      assert memory[0..] == memory;
    }

    /** A reader is passed on by value. */
    constructor Copy(reader: Reader)
      requires reader.Valid()
      ensures Valid() && memory == reader.memory && Remaining() == reader.Remaining()
    {
      memory := reader.memory;
      cur, buf, ptr, pending := reader.cur, reader.buf, reader.ptr, reader.pending;
    }

    /** The next word of the memory. */
    method NextWord() returns (word: Option<nat>)
      requires Valid()
      modifies this`ptr
      ensures word.None? <==> old(ptr) == |memory|
      ensures word.None? ==> ptr == old(ptr)
      ensures word.Some? ==> ptr == old(ptr) + 1 && word.value < UINT32 && Value(Digits(word.value, 4)) == word.value
      ensures word.Some? ==> Flat(memory[old(ptr)..]) == Digits(word.value, 4) + Flat(memory[ptr..])
    {
      if ptr == |memory| { return None; }
      LowWord(memory[ptr]);
      word := Some(And(memory[ptr], MASK_32));
      Powers();
      ValueOfDigits(word.value, 4);
      assert memory[ptr..][1..] == memory[ptr + 1..];
      ptr := ptr + 1;
    }

    method ReadUint8() returns (r: Option<nat>)
      requires Valid()
      modifies this
      ensures r.None? <==> old(Remaining()) == []
      ensures r.Some? ==> Valid() && Took(old(Remaining()), Remaining(), 1, r.value)
    {
      hide Bytes, And, Flat, Digits, Value, Took;
      ghost var before, loaded := Remaining(), pending;
      Powers();
      var c, b := cur, buf;
      if cur == 1 {
        PendingEmpty(pending);
        var word := NextWord();
        if word.None? { return None; }
        c, b := UINT32, word.value;
        loaded := Digits(word.value, 4);
      }
      TopBytes(loaded, 1);
      cur := c / 256;
      var top := And(b, c - cur);
      r := Some(top / cur);
      buf := b - top;
      pending := loaded[1..];
      TookFront(loaded, Flat(memory[ptr..]), 1);
      assert before == loaded + Flat(memory[ptr..]);
    }

    /** The first byte, which is not taken. */
    method PeekUint8() returns (r: Option<nat>)
      requires Valid()
      ensures r.None? <==> Remaining() == []
      ensures r.Some? ==> r.value == Remaining()[0]
    {
      hide Bytes, And, Flat, Digits, Value;
      Powers();
      if cur == 1 {
        PendingEmpty(pending);
        if ptr == |memory| {
          FlatEmpty(memory[ptr..]);
          return None;
        }
        FirstWord(memory[ptr..]);
        ghost var first := Digits(memory[ptr] % UINT32, 4);
        LowWord(memory[ptr]);
        TopBytes(first, 1);
        FirstOf(first);
        MaskedHigh(memory[ptr]);
        return Some(And(memory[ptr], 0xFF00_0000) / 0x100_0000);
      }
      PendingSome(pending);
      TopBytes(pending, 1);
      FirstOf(pending);
      r := Some(And(buf, cur - cur / 256) * 256 / cur);
      PeekQuotient(Value(pending[..1]), Bytes(|pending| - 1));
    }

    method ReadUint16Endian() returns (r: Option<nat>)
      requires Valid()
      modifies this
      ensures r.None? <==> |old(Remaining())| < 2
      ensures r.Some? ==> Valid() && Took(old(Remaining()), Remaining(), 2, r.value)
    {
      hide Bytes, And, Flat, Digits, Value;
      ghost var before := Remaining();
      Powers();
      if (cur - 0x100) * (cur - 1) == 0 {
        PendingShort(pending);
        var word := NextWord();
        if word.None? {
          FlatEmpty(memory[ptr..]);
          return None;
        }
        ghost var loaded := pending + Digits(word.value, 4);
        ValueAppend(pending, Digits(word.value, 4));
        var both := word.value + buf * UINT32;
        TopBytes(loaded, 2);
        BytesAdd(|pending|, 2);
        var top := And(both, 0xFFFF_0000 * cur);
        r := Some(top / UINT16 / cur);
        QuotientTwice(top, UINT16, cur);
        cur, buf := cur * UINT16, both - top;
        pending := loaded[2..];
        assert before == loaded + Flat(memory[ptr..]);
        TookFront(loaded, Flat(memory[ptr..]), 2);
      } else {
        PendingLong(pending);
        TopBytes(pending, 2);
        BytesAdd(|pending| - 2, 2);
        var c := cur / UINT16;
        var top := And(buf, cur - c);
        r := Some(top * UINT16 / cur);
        QuotientScaled(Value(pending[..2]), c);
        cur, buf := c, buf - top;
        pending := pending[2..];
        TookFront(old(pending), Flat(memory[ptr..]), 2);
      }
    }

    method ReadUint32Endian() returns (r: Option<nat>)
      requires Valid()
      modifies this
      ensures r.None? <==> |old(Remaining())| < 4
      ensures r.Some? ==> Valid() && Took(old(Remaining()), Remaining(), 4, r.value)
      ensures r.Some? ==> cur == old(cur)
    {
      hide Bytes, And, Flat, Digits, Value;
      ghost var before := Remaining();
      Powers();
      var word := NextWord();
      if word.None? {
        FlatEmpty(memory[ptr..]);
        return None;
      }
      ghost var loaded := pending + Digits(word.value, 4);
      ValueAppend(pending, Digits(word.value, 4));
      var both := buf * UINT32 + word.value;
      TopBytes(loaded, 4);
      var top := And(both, MASK_32 * cur);
      r := Some(top / cur);
      buf := both - top;
      pending := loaded[4..];
      assert before == loaded + Flat(memory[ptr..]);
      TookFront(loaded, Flat(memory[ptr..]), 4);
    }

    method ReadUint16() returns (r: Option<nat>)
      requires Valid()
      modifies this
      ensures r.None? <==> |old(Remaining())| < 2
      ensures r.Some? ==> Valid() && TookLittle(old(Remaining()), Remaining(), 2, r.value)
    {
      hide Flat, ByteSwap16;
      r := ReadUint16Endian();
      if r.Some? {
        SwapIs16(old(Remaining())[..2]);
        r := Some(ByteSwap16(r.value));
      }
    }

    /** The next two bytes, which are not taken. */
    method PeekUint16() returns (r: Option<nat>)
      requires Valid()
      ensures r.None? <==> |Remaining()| < 2
      ensures r.Some? ==> r.value == LittleEndian(Remaining()[..2])
    {
      hide Flat, LittleEndian;
      var reader := new Reader.Copy(this);
      r := reader.ReadUint16();
    }

    method ReadUint32() returns (r: Option<nat>)
      requires Valid()
      modifies this
      ensures r.None? <==> |old(Remaining())| < 4
      ensures r.Some? ==> Valid() && TookLittle(old(Remaining()), Remaining(), 4, r.value)
    {
      hide Flat, ByteSwap32;
      r := ReadUint32Endian();
      if r.Some? {
        SwapIs32(old(Remaining())[..4]);
        r := Some(ByteSwap32(r.value));
      }
    }

    method ReadUint64() returns (r: Option<nat>)
      requires Valid()
      modifies this
      ensures r.None? <==> |old(Remaining())| < 8
      ensures r.Some? ==> Valid() && TookLittle(old(Remaining()), Remaining(), 8, r.value)
    {
      hide Flat, LittleEndian;
      ghost var before := Remaining();
      var lo := ReadUint32();
      if lo.None? { return None; }
      var hi := ReadUint32();
      if hi.None? { return None; }
      r := Some(lo.value + hi.value * UINT32);
      assert before[..8] == before[..4] + before[4..][..4];
      Powers();
      LittleAppend(before[..4], before[4..][..4]);
    }
  }

  /** As `Took`, with the least significant byte first. */
  ghost predicate TookLittle(before: seq<Byte>, after: seq<Byte>, n: nat, x: nat) {
    n <= |before| && x == LittleEndian(before[..n]) && after == before[n..]
  }

  lemma LittleAppend(b: seq<Byte>, c: seq<Byte>)
    ensures LittleEndian(b + c) == LittleEndian(b) + LittleEndian(c) * Bytes(|b|)
  {
    ReversedAppend(b, c);
    ValueAppend(Reversed(c), Reversed(b));
  }

  lemma FlatEmpty(words: seq<nat>)
    ensures words == [] ==> Flat(words) == []
  {
  }

  lemma FirstWord(words: seq<nat>)
    requires words != []
    ensures Flat(words) == Digits(words[0] % UINT32, 4) + Flat(words[1..])
    ensures Value(Digits(words[0] % UINT32, 4)) == words[0] % UINT32
  {
    Powers();
    ValueOfDigits(words[0] % UINT32, 4);
  }

  lemma FirstOf(b: seq<Byte>)
    requires b != []
    ensures Value(b[..1]) == b[0]
  {
    OneByte(b[0]);
    assert b[..1] == [b[0]];
  }

  lemma MaskedHigh(x: nat)
    ensures And(x, 0xFF00_0000) == And(x % UINT32, 0xFF00_0000)
  {
    hide And, Pow2;
    Powers();
    HighBits(x % UINT32, x / UINT32, 0xFF00_0000, 32);
  }

  lemma PeekQuotient(x: nat, m: nat)
    requires m > 0
    ensures x * m * 256 / (256 * m) == x
  {
    assert x * m * 256 == x * (256 * m);
    QuotientIs(x * (256 * m), 256 * m, x, 0);
  }

  lemma QuotientScaled(x: nat, m: nat)
    requires m > 0
    ensures x * m * UINT16 / (UINT16 * m) == x
  {
    assert x * m * UINT16 == x * (UINT16 * m);
    QuotientIs(x * (UINT16 * m), UINT16 * m, x, 0);
  }

  lemma PendingEmpty(b: seq<Byte>)
    requires Bytes(|b|) == 1
    ensures b == []
  {
    if b != [] { BytesGrow(0, |b|); }
  }

  lemma PendingSome(b: seq<Byte>)
    requires Bytes(|b|) != 1
    ensures b != [] && Bytes(|b|) == 256 * Bytes(|b| - 1) && Bytes(|b|) / 256 == Bytes(|b| - 1)
  {
    Bytes256(0);
    Bytes256(|b| - 1);
  }

  lemma PendingShort(b: seq<Byte>)
    requires (Bytes(|b|) - 0x100) * (Bytes(|b|) - 1) == 0
    ensures |b| < 2
  {
    Powers();
    if |b| > 1 { BytesGrow(1, |b|); }
  }

  lemma PendingLong(b: seq<Byte>)
    requires (Bytes(|b|) - 0x100) * (Bytes(|b|) - 1) != 0
    ensures |b| >= 2 && Bytes(|b|) == UINT16 * Bytes(|b| - 2) && Bytes(|b|) / UINT16 == Bytes(|b| - 2)
  {
    hide Pow2;
    Powers();
    BytesAdd(2, |b| - 2);
  }
}
