/**
  Reading bytes as words in host order, and the number that a block hash stands for: its 32 bytes in
  little-endian order.
*/
module HashBytes {
  import opened Wrappers
  import opened Octets
  import opened Bits
  import opened ByteStreams
  import opened ByteCopies

  /** The words of bytes, each in little-endian order, the last one filled up with zero bytes. */
  function LittleWords(b: seq<Byte>): (words: seq<nat>)
    decreases |b|
  {
    if b == [] then []
    else if |b| <= 4 then [LittleEndian(b + ZeroBytes(4 - |b|))]
    else [LittleEndian(b[..4])] + LittleWords(b[4..])
  }

  /** Every whole group of four bytes in reverse. */
  function SwapGroups(b: seq<Byte>): (r: seq<Byte>)
    ensures |r| == |b| - |b| % 4
    decreases |b|
  {
    if |b| < 4 then [] else Reversed(b[..4]) + SwapGroups(b[4..])
  }

  lemma {:induction false} SwapOneMore(b: seq<Byte>, four: seq<Byte>)
    requires |b| % 4 == 0 && |four| == 4
    ensures SwapGroups(b + four) == SwapGroups(b) + Reversed(four)
    decreases |b|
  {
    hide Reversed;
    if b == [] {
      assert b + four == four && four[..4] == four && four[4..] == [];
      assert SwapGroups([]) == [];
    } else {
      assert (b + four)[..4] == b[..4] && (b + four)[4..] == b[4..] + four;
      SwapOneMore(b[4..], four);
    }
  }

  lemma SwappedWord(four: seq<Byte>)
    requires |four| == 4
    ensures ByteSwap32(Value(four)) < UINT32 && Digits(ByteSwap32(Value(four)), 4) == Reversed(four)
    ensures ByteSwap32(Value(four)) == LittleEndian(four)
  {
    hide Value, ByteSwap32, Reversed, Digits;
    SwapIs32(four);
    ValueFits(Reversed(four));
    Powers();
    DigitsOfValue(Reversed(four));
  }

  /** `read_write_words`: whole words, each with its bytes swapped. */
  method ReadWriteWords(reader: Reader, writer: Writer, n: nat) returns (ok: bool)
    requires reader.Valid() && writer.Valid()
    modifies reader, writer
    ensures ok <==> |old(reader.Remaining())| >= 4 * n
    ensures ok ==> reader.Valid() && writer.Valid() && reader.Remaining() == old(reader.Remaining())[4 * n..]
    ensures ok ==> writer.Written() == old(writer.Written()) + SwapGroups(old(reader.Remaining())[..4 * n])
  {
    hide Flat, Digits, Value, Bytes, SwapGroups, Reversed, ByteSwap32, Reader.Valid, Reader.Remaining, Writer.Valid,
         Writer.Written;
    ghost var before := reader.Remaining();
    NoGroups();
    var i := 0;
    while i < n
      invariant 0 <= i <= n && 4 * i <= |before| && reader.Valid() && writer.Valid()
      invariant reader.Remaining() == before[4 * i..]
      invariant writer.Written() == old(writer.Written()) + SwapGroups(before[..4 * i])
    {
      var word := reader.ReadUint32Endian();
      if word.None? { return false; }
      ghost var four := before[4 * i..][..4];
      SwappedWord(four);
      SwapOneMore(before[..4 * i], four);
      writer.WriteUint32Endian(ByteSwap32(word.value));
      NextFour(before, i);
      i := i + 1;
    }
    ok := true;
  }

  lemma NextFour(b: seq<Byte>, i: nat)
    requires 4 * i + 4 <= |b|
    ensures b[..4 * i] + b[4 * i..][..4] == b[..4 * (i + 1)] && b[4 * i..][4..] == b[4 * (i + 1)..]
  {
  }

  lemma NoGroups()
    ensures SwapGroups([]) == []
  {
  }

  /** The words whose bytes are the swapped groups, and the rest as one more word. */
  lemma {:induction false} WordsOfGroups(whole: seq<Byte>, words: seq<nat>, rest: seq<Byte>)
    requires |whole| % 4 == 0 && Flat(words) == SwapGroups(whole) && |rest| < 4
    requires forall i :: 0 <= i < |words| ==> words[i] < UINT32
    ensures LittleWords(whole + rest)
            == words + if rest == [] then [] else [LittleEndian(rest + ZeroBytes(4 - |rest|))]
    decreases |whole|
  {
    hide Value, Flat, Digits, Reversed, ZeroBytes;
    assert 4 * |words| == |whole|;
    var all := whole + rest;
    if whole == [] {
      assert all == rest && words == [];
    } else {
      var four, more := whole[..4], whole[4..];
      assert all[..4] == four && all[4..] == more + rest;
      FirstOfFlat(words);
      assert SwapGroups(whole)[..4] == Reversed(four) && SwapGroups(whole)[4..] == SwapGroups(more);
      WordsOfGroups(more, words[1..], rest);
      assert words == [words[0]] + words[1..];
      FirstLittleWord(all);
    }
  }

  lemma FirstLittleWord(b: seq<Byte>)
    requires |b| >= 4
    ensures LittleWords(b) == [LittleEndian(b[..4])] + LittleWords(b[4..])
  {
    if |b| == 4 {
      assert b + ZeroBytes(0) == b && b[..4] == b && b[4..] == [];
    }
  }

  /** The last word is swapped in the writer's buffer. */
  lemma LastWord(rest: seq<Byte>)
    requires 0 < |rest| < 4
    ensures ByteSwap32(Value(rest) * Bytes(4 - |rest|)) == LittleEndian(rest + ZeroBytes(4 - |rest|))
  {
    hide Value, ByteSwap32, Bytes, LittleEndian, ZeroBytes;
    var zeros := ZeroBytes(4 - |rest|);
    ValueAppend(rest, zeros);
    ZeroValue(4 - |rest|);
    SwapIs32(rest + zeros);
  }

  /** `size` bytes as little-endian words. */
  method ReadBytes(reader: Reader, size: nat) returns (r: Option<seq<nat>>)
    requires reader.Valid()
    modifies reader
    ensures r.None? <==> |old(reader.Remaining())| < size
    ensures r.Some? ==> reader.Valid() && reader.Remaining() == old(reader.Remaining())[size..]
    ensures r.Some? && size < UINT32 ==> r.value == LittleWords(old(reader.Remaining())[..size])
  {
    hide Flat, Digits, Value, And, Bytes, SwapGroups, Reversed, LittleWords, ByteSwap32, LittleEndian, Reader.Valid,
         Reader.Remaining;
    ghost var before := reader.Remaining();
    var writer := new Writer();
    WordsOf(size);
    var masked := And(size, 0xFFFF_FFFC);
    var ok := ReadWriteWords(reader, writer, masked / 4);
    if !ok { return None; }
    ok := ReadWriteBytes(reader, writer, size - masked);
    if !ok { return None; }
    ghost var whole, rest := before[..masked], before[masked..][..size - masked];
    Consecutive(before, masked, size);
    if size < UINT32 {
      WrittenParts(writer.words, writer.pending, SwapGroups(whole), rest);
      WordsOfGroups(whole, writer.words, rest);
      if rest != [] { LastWord(rest); }
    }
    NothingPending(writer.pending);
    r := Some(if writer.cur == UINT32 then writer.words else writer.words + [ByteSwap32(writer.buf)]);
  }

  /** Two ways to split the same bytes into whole words and fewer than four bytes are the same. */
  lemma WrittenParts(words: seq<nat>, pending: seq<Byte>, groups: seq<Byte>, rest: seq<Byte>)
    requires Flat(words) + pending == groups + rest && |groups| % 4 == 0 && |pending| < 4 && |rest| < 4
    ensures Flat(words) == groups && pending == rest
  {
    hide Flat;
    var all := groups + rest;
    assert 4 * |words| + |pending| == |groups| + |rest|;
    assert Flat(words) == all[..4 * |words|] && groups == all[..|groups|];
    assert pending == all[4 * |words|..] && rest == all[|groups|..];
  }

  // ------------------------------------------------------------------------
  // The hash as a number
  // ------------------------------------------------------------------------

  /** The words of a hash summed up with growing powers of 2^32. */
  function HashFelt(words: seq<nat>): nat {
    if words == [] then 0 else words[0] + UINT32 * HashFelt(words[1..])
  }

  /** The sum over all words is the little-endian value of the bytes. */
  lemma {:induction false} HashFeltIs(b: seq<Byte>)
    requires |b| % 4 == 0
    ensures HashFelt(LittleWords(b)) == LittleEndian(b)
    decreases |b|
  {
    hide LittleEndian, Bytes;
    if b == [] {
      NothingLittle();
    } else {
      FirstLittleWord(b);
      HashFeltIs(b[4..]);
      assert b == b[..4] + b[4..];
      Powers();
      LittleAppend(b[..4], b[4..]);
    }
  }

  lemma NothingLittle()
    ensures LittleEndian([]) == 0
  {
  }

  /** The sum over the first seven words is the hash, if and only if the most significant word is zero. */
  lemma SevenWordsSuffice(b: seq<Byte>)
    requires |b| == 32
    ensures |LittleWords(b)| == 8
    ensures HashFelt(LittleWords(b)[..7]) == LittleEndian(b) <==> LittleWords(b)[7] == 0
  {
    hide LittleEndian, HashFelt;
    HashFeltIs(b);
    EightWords(b);
    var words := LittleWords(b);
    assert words == words[..7] + [words[7]];
    HashFeltAppend(words[..7], words[7]);
  }

  lemma EightWords(b: seq<Byte>)
    requires |b| == 32
    ensures |LittleWords(b)| == 8
  {
    hide LittleEndian;
    var c := b[4..][4..];
    FirstLittleWord(b);
    FirstLittleWord(b[4..]);
    FirstLittleWord(c);
    FirstLittleWord(c[4..]);
    var d := c[4..][4..];
    FirstLittleWord(d);
    FirstLittleWord(d[4..]);
    var e := d[4..][4..];
    FirstLittleWord(e);
    FirstLittleWord(e[4..]);
    assert e[4..][4..] == [];
  }

  lemma {:induction false} HashFeltAppend(words: seq<nat>, x: nat)
    ensures HashFelt(words + [x]) >= HashFelt(words)
    ensures HashFelt(words + [x]) == HashFelt(words) <==> x == 0
  {
    if words == [] {
      assert (words + [x])[1..] == [];
    } else {
      assert (words + [x])[1..] == words[1..] + [x];
      HashFeltAppend(words[1..], x);
    }
  }
}
